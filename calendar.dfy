/** Calendar days as the script compares them (sameDay), the day after a day
    (addDays(d, 1)) and the MM-dd-yyyy rendering of formatDate. */
module Calendar {
  import opened Text

  /** A calendar day without time of day or timezone. */
  datatype Ymd = Ymd(year: int, month: int, day: int)

  /** The proleptic Gregorian leap-year rule that JavaScript dates follow. */
  predicate IsLeapYear(y: int) {
    y % 4 == 0 && (y % 100 != 0 || y % 400 == 0)
  }

  function MonthLength(y: int, m: int): int {
    if m == 2 then (if IsLeapYear(y) then 29 else 28)
    else if m == 4 || m == 6 || m == 9 || m == 11 then 30
    else 31
  }

  predicate ValidDate(d: Ymd) {
    1 <= d.month <= 12 && 1 <= d.day <= MonthLength(d.year, d.month)
  }

  /** A day that exists, as every JavaScript Date denotes one. */
  type Date = d: Ymd | ValidDate(d) witness Ymd(1970, 1, 1)

  /** sameDay(a, b): equal year, month and day, nothing else. */
  function SameDay(a: Ymd, b: Ymd): (r: bool)
    ensures r <==> a == b
  {
    a.year == b.year && a.month == b.month && a.day == b.day
  }

  /** addDays(d, 1): the day Date.setDate(getDate() + 1) lands on, rolling over
      into the next month and the next year. */
  function NextDay(d: Ymd): (r: Ymd)
    ensures r != d
    ensures ValidDate(d) ==> ValidDate(r)
  {
    if d.day < MonthLength(d.year, d.month) then Ymd(d.year, d.month, d.day + 1)
    else if d.month < 12 then Ymd(d.year, d.month + 1, 1)
    else Ymd(d.year + 1, 1, 1)
  }

  /** The day before d, rolling back into the previous month and year. */
  function PrevDay(d: Ymd): (r: Ymd)
    ensures r != d
    ensures ValidDate(d) ==> ValidDate(r)
  {
    if d.day > 1 then Ymd(d.year, d.month, d.day - 1)
    else if d.month > 1 then Ymd(d.year, d.month - 1, MonthLength(d.year, d.month - 1))
    else Ymd(d.year - 1, 12, 31)
  }

  /** addDays(d, k): k steps forward (or -k steps back) one day at a time, as
      Date.setDate(getDate() + k) normalises the day of the month. */
  function AddDays(d: Ymd, k: int): (r: Ymd)
    ensures ValidDate(d) ==> ValidDate(r) && DayNumber(r) == DayNumber(d) + k
    decreases if k >= 0 then k else -k
  {
    if k == 0 then d
    else if k > 0 then
      var r := AddDays(NextDay(d), k - 1);
      if ValidDate(d) then NextDayIsOneDayLater(d); r else r
    else
      var r := AddDays(PrevDay(d), k + 1);
      if ValidDate(d) then PrevDayIsOneDayEarlier(d); r else r
  }

  /** The two-digit-year rule of new Date(y, m, d): years 0 to 99 are 1900 to 1999. */
  function FullYear(y: int): (r: int)
    ensures 0 <= y <= 99 ==> r == 1900 + y
    ensures !(0 <= y <= 99) ==> r == y
    ensures !(0 <= r <= 99)
  {
    if 0 <= y <= 99 then 1900 + y else y
  }

  /** new Date(y, m - 1, d) read back as a calendar day: years 0 to 99 are read
      as 1900 to 1999, the month overflows into the year, then the day counts
      from the first of that month, so e.g. (2026, 2, 30) is 2 March 2026 and
      day 0 is the last day of the previous month. A day that exists, with its
      year so read, is built unchanged. */
  function MakeDate(y: int, m: int, d: int): (r: Date)
    ensures DayNumber(r) == DayNumber(Ymd(FullYear(y) + (m - 1) / 12, (m - 1) % 12 + 1, 1)) + (d - 1)
    ensures ValidDate(Ymd(FullYear(y), m, d)) ==> r == Ymd(FullYear(y), m, d)
  {
    var year := FullYear(y) + (m - 1) / 12;
    var month := (m - 1) % 12 + 1;
    var r := AddDays(Ymd(year, month, 1), d - 1);
    if ValidDate(Ymd(FullYear(y), m, d)) then AddDaysInMonth(Ymd(year, month, 1), d - 1); r else r
  }

  /** startOfDay(d): the day's yyyy-MM-dd text read back through
      new Date(y, m - 1, day), which reads years 0 to 99 as 1900 to 1999 again. */
  function StartOfDay(d: Date): (r: Date)
    ensures !(0 <= d.year <= 99) ==> r == d
    ensures 0 <= d.year <= 99 && ValidDate(Ymd(1900 + d.year, d.month, d.day)) ==> r == Ymd(1900 + d.year, d.month, d.day)
  {
    MakeDate(d.year, d.month, d.day)
  }

  /** 31 December of year 99 becomes 31 December 1999. */
  lemma StartOfDayTwoDigitYear()
    ensures StartOfDay(Ymd(99, 12, 31)) == Ymd(1999, 12, 31)
  {
    assert ValidDate(Ymd(1999, 12, 31));
  }

  lemma NextDayOfPrevDay(d: Ymd)
    requires ValidDate(d)
    ensures NextDay(PrevDay(d)) == d
  {
  }

  lemma PrevDayOfNextDay(d: Ymd)
    requires ValidDate(d)
    ensures PrevDay(NextDay(d)) == d
  {
  }

  // An independent count of days, used to show that NextDay, PrevDay and
  // AddDays move by whole days.

  function YearLength(y: int): int {
    if IsLeapYear(y) then 366 else 365
  }

  /** The days from 1 January of year 0 to 1 January of year y (negative before
      year 0). */
  function DaysBeforeYear(y: int): int
    decreases if y >= 0 then y else -y
  {
    if y == 0 then 0
    else if y > 0 then DaysBeforeYear(y - 1) + YearLength(y - 1)
    else DaysBeforeYear(y + 1) - YearLength(y)
  }

  lemma NextYear(y: int)
    ensures DaysBeforeYear(y + 1) == DaysBeforeYear(y) + YearLength(y)
  {
  }

  /** The days of the months 1 .. m - 1 of year y. */
  function DaysBeforeMonth(y: int, m: int): int
    requires 1 <= m <= 13
  {
    if m == 1 then 0 else DaysBeforeMonth(y, m - 1) + MonthLength(y, m - 1)
  }

  /** The position of d in the sequence of all days, 1 January of year 0 being 1. */
  function DayNumber(d: Ymd): int
    requires ValidDate(d)
  {
    DaysBeforeYear(d.year) + DaysBeforeMonth(d.year, d.month) + d.day
  }

  lemma YearIsItsMonths(y: int)
    ensures DaysBeforeMonth(y, 13) == YearLength(y)
  {
    var feb := MonthLength(y, 2);
    assert DaysBeforeMonth(y, 2) == 31;
    assert DaysBeforeMonth(y, 3) == 31 + feb;
    assert DaysBeforeMonth(y, 4) == 62 + feb;
    assert DaysBeforeMonth(y, 5) == 92 + feb;
    assert DaysBeforeMonth(y, 6) == 123 + feb;
    assert DaysBeforeMonth(y, 7) == 153 + feb;
    assert DaysBeforeMonth(y, 8) == 184 + feb;
    assert DaysBeforeMonth(y, 9) == 215 + feb;
    assert DaysBeforeMonth(y, 10) == 245 + feb;
    assert DaysBeforeMonth(y, 11) == 276 + feb;
    assert DaysBeforeMonth(y, 12) == 306 + feb;
    assert DaysBeforeMonth(y, 13) == 337 + feb;
  }

  /** NextDay(d) is exactly one day after d. */
  lemma NextDayIsOneDayLater(d: Ymd)
    requires ValidDate(d)
    ensures ValidDate(NextDay(d)) && DayNumber(NextDay(d)) == DayNumber(d) + 1
  {
    if d.day == MonthLength(d.year, d.month) && d.month == 12 {
      YearIsItsMonths(d.year);
      NextYear(d.year);
    }
  }

  /** PrevDay(d) is exactly one day before d. */
  lemma PrevDayIsOneDayEarlier(d: Ymd)
    requires ValidDate(d)
    ensures ValidDate(PrevDay(d)) && DayNumber(PrevDay(d)) == DayNumber(d) - 1
  {
    NextDayIsOneDayLater(PrevDay(d));
    NextDayOfPrevDay(d);
  }

  /** Inside one month, adding days only moves the day of the month. */
  lemma {:induction false} AddDaysInMonth(d: Ymd, k: nat)
    requires ValidDate(d) && d.day + k <= MonthLength(d.year, d.month)
    ensures AddDays(d, k) == Ymd(d.year, d.month, d.day + k)
    decreases k
  {
    if k > 0 {
      AddDaysInMonth(NextDay(d), k - 1);
    }
  }

  /** The year as yyyy renders it: at least four digits. */
  function YearText(y: int): (t: string)
    ensures |t| >= 1 && IsDigit(t[|t| - 1])
  {
    if y < 0 then "-" + Pad(-y, 4) else Pad(y, 4)
  }

  /** A text that starts and ends with a digit has no white space at its ends. */
  lemma DigitEnds(a: string, b: string)
    requires |a| >= 1 && IsDigit(a[0]) && |b| >= 1 && IsDigit(b[|b| - 1])
    ensures Trimmed(a + b)
  {
    assert (a + b)[0] == a[0] && (a + b)[|a + b| - 1] == b[|b| - 1];
  }

  /** formatDate(d, tz, "MM-dd-yyyy") on a calendar day. */
  function FormatDate(d: Ymd): (r: string)
    requires ValidDate(d)
    ensures Trimmed(r)
  {
    var mm := Pad(d.month, 2);
    var rest := "-" + Pad(d.day, 2) + "-" + YearText(d.year);
    assert IsDigit(mm[0]);
    DigitEnds(mm, rest);
    mm + rest
  }
}

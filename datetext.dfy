/** parseDateIfNeeded: a cell value to a calendar day. The three regular
    expressions of the script are written as one scanner over digit runs,
    parameterised by separator and field widths, and as a declarative shape;
    lemmas tie the two together and state what each branch yields. */
module DateText {
  import opened Text
  import opened Wrappers
  import opened Calendar
  import opened Sheet

  /** Allowed lengths lo .. hi of one digit field. */
  datatype Width = Width(lo: nat, hi: nat)

  /** `^(\d{w1})SEP(\d{w2})SEP(\d{w3})$`. */
  datatype Pattern = Pattern(sep: char, w1: Width, w2: Width, w3: Width)

  /** The captures of a pattern, left to right. */
  datatype DigitFields = DigitFields(first: string, second: string, third: string)

  /** /^(\d{1,2})-(\d{1,2})-(\d{4})$/: M-d-yyyy. */
  const DashMonthFirst := Pattern('-', Width(1, 2), Width(1, 2), Width(4, 4))

  /** /^(\d{4})-(\d{1,2})-(\d{1,2})$/: yyyy-M-d. */
  const IsoLike := Pattern('-', Width(4, 4), Width(1, 2), Width(1, 2))

  /** /^(\d{1,2})\/(\d{1,2})\/(\d{4})$/: d/M/yyyy or M/d/yyyy. */
  const Slashed := Pattern('/', Width(1, 2), Width(1, 2), Width(4, 4))

  predicate Fits(x: string, w: Width) {
    AllDigits(x) && w.lo <= |x| <= w.hi
  }

  /** s matches the pattern with captures f. */
  predicate Matches(s: string, pat: Pattern, f: DigitFields) {
    Fits(f.first, pat.w1) && Fits(f.second, pat.w2) && Fits(f.third, pat.w3) &&
    s == f.first + [pat.sep] + f.second + [pat.sep] + f.third
  }

  lemma SeparatedPieces<T>(s: seq<T>, a: nat, b: nat, sep: T)
    requires a < b < |s| && s[a] == sep && s[b] == sep
    ensures s == s[..a] + [sep] + s[a + 1..b] + [sep] + s[b + 1..]
  {
    assert s == s[..a] + s[a..a + 1] + s[a + 1..b] + s[b..b + 1] + s[b + 1..];
  }

  /** Three digit runs that the scanner has accepted are captures of the pattern. */
  lemma ScannedFields(s: string, pat: Pattern, a: nat, b: nat, c: nat)
    requires a < b < c == |s| && s[a] == pat.sep && s[b] == pat.sep
    requires AllDigits(s[0..a]) && AllDigits(s[a + 1..b]) && AllDigits(s[b + 1..c])
    requires pat.w1.lo <= a <= pat.w1.hi && pat.w2.lo <= b - (a + 1) <= pat.w2.hi
    requires pat.w3.lo <= c - (b + 1) <= pat.w3.hi
    ensures Matches(s, pat, DigitFields(s[..a], s[a + 1..b], s[b + 1..]))
  {
    SeparatedPieces(s, a, b, pat.sep);
    assert s[..a] == s[0..a] && s[b + 1..] == s[b + 1..c];
  }

  /** The scanner for a pattern: take the digit run, expect the separator, take
      the next run, expect the separator, take the last run up to the end. */
  function Scan(s: string, pat: Pattern): (r: Option<DigitFields>)
    ensures r.Some? ==> Matches(s, pat, r.value)
  {
    var a := DigitRun(s, 0);
    if !(pat.w1.lo <= a <= pat.w1.hi && a < |s| && s[a] == pat.sep) then None
    else
      var b := DigitRun(s, a + 1);
      if !(pat.w2.lo <= b - (a + 1) <= pat.w2.hi && b < |s| && s[b] == pat.sep) then None
      else
        var c := DigitRun(s, b + 1);
        if !(c == |s| && pat.w3.lo <= c - (b + 1) <= pat.w3.hi) then None
        else
          ScannedFields(s, pat, a, b, c);
          Some(DigitFields(s[..a], s[a + 1..b], s[b + 1..]))
  }

  /** A pattern whose separator is not a digit can be matched in one way only,
      and the scanner finds it. */
  lemma ScanFinds(s: string, pat: Pattern, f: DigitFields)
    requires !IsDigit(pat.sep) && Matches(s, pat, f)
    ensures Scan(s, pat) == Some(f)
  {
    var a := |f.first|;
    var b := a + 1 + |f.second|;
    FieldSlices(s, f.first, pat.sep, f.second, f.third);
    DigitRunEnds(s, 0, a);
    DigitRunEnds(s, a + 1, b);
    DigitRunEnds(s, b + 1, |s|);
    ScanAccepts(s, pat, a, b, f);
  }

  /** The scanner on three digit runs of the right widths between separators. */
  lemma ScanAccepts(s: string, pat: Pattern, a: nat, b: nat, f: DigitFields)
    requires a < b < |s| && DigitRun(s, 0) == a && DigitRun(s, a + 1) == b && DigitRun(s, b + 1) == |s|
    requires s[a] == pat.sep && s[b] == pat.sep
    requires pat.w1.lo <= a <= pat.w1.hi && pat.w2.lo <= b - (a + 1) <= pat.w2.hi
    requires pat.w3.lo <= |s| - (b + 1) <= pat.w3.hi
    requires f == DigitFields(s[..a], s[a + 1..b], s[b + 1..])
    ensures Scan(s, pat) == Some(f)
  {
    var c := |s|;
    ScannedFields(s, pat, a, b, c);
    assert !(pat.w1.lo <= a <= pat.w1.hi && a < |s| && s[a] == pat.sep) == false;
    assert !(pat.w2.lo <= b - (a + 1) <= pat.w2.hi && b < |s| && s[b] == pat.sep) == false;
    assert !(c == |s| && pat.w3.lo <= c - (b + 1) <= pat.w3.hi) == false;
  }

  lemma FieldSlices<T>(s: seq<T>, x: seq<T>, sep: T, y: seq<T>, z: seq<T>)
    requires s == x + [sep] + y + [sep] + z
    ensures s[0..|x|] == s[..|x|] == x && s[|x|] == sep
    ensures s[|x| + 1..|x| + 1 + |y|] == y && s[|x| + 1 + |y|] == sep
    ensures s[|x| + 2 + |y|..|s|] == s[|x| + 2 + |y|..] == z
  {
    assert s[..|x|] == x;
    assert s[|x| + 1..|x| + 1 + |y|] == y;
    assert s[|x| + 2 + |y|..] == z;
  }

  /** The scanner is exactly the regular expression. */
  lemma ScanIsMatch(s: string, pat: Pattern, f: DigitFields)
    requires !IsDigit(pat.sep)
    ensures Scan(s, pat) == Some(f) <==> Matches(s, pat, f)
  {
    if Matches(s, pat, f) {
      ScanFinds(s, pat, f);
    }
  }

  /** A string whose first separator is not the one a pattern expects does not
      match that pattern. */
  lemma OtherSeparatorFails(s: string, pat: Pattern, f: DigitFields, other: Pattern)
    requires !IsDigit(pat.sep) && Matches(s, pat, f) && other.sep != pat.sep
    ensures Scan(s, other) == None
  {
    var a := |f.first|;
    assert s[..a] == f.first && s[a] == pat.sep;
    DigitRunEnds(s, 0, a);
  }

  /** The dash month-first and the ISO-like pattern never both match, so trying
      the first one first only fixes the order of the checks. */
  lemma DashExcludesIso(s: string, f: DigitFields)
    requires Matches(s, DashMonthFirst, f)
    ensures Scan(s, IsoLike) == None
  {
    var a := |f.first|;
    assert s[..a] == f.first && s[a] == '-';
    DigitRunEnds(s, 0, a);
  }

  /** Likewise an ISO-like text never matches the dash month-first pattern. */
  lemma IsoExcludesDash(s: string, f: DigitFields)
    requires Matches(s, IsoLike, f)
    ensures Scan(s, DashMonthFirst) == None
  {
    var a := |f.first|;
    assert s[..a] == f.first && s[a] == '-';
    DigitRunEnds(s, 0, a);
  }

  /** The day-first / month-first choice for slash dates: a first field above 12
      cannot be a month, so it is the day. */
  function SlashDay(a: nat, b: nat, y: nat): (r: Date)
    ensures a > 12 && ValidDate(Ymd(FullYear(y), b, a)) ==> r == Ymd(FullYear(y), b, a)
    ensures a <= 12 && ValidDate(Ymd(FullYear(y), a, b)) ==> r == Ymd(FullYear(y), a, b)
  {
    if a > 12 then MakeDate(y, b, a) else MakeDate(y, a, b)
  }

  /** The text branches of parseDateIfNeeded on the trimmed, non-empty text s:
      the three patterns in order, then the engine's own date parser, given
      here as `fallback`. The matched numbers go through new Date(y, m - 1, d). */
  function ParseText(s: string, fallback: string -> Option<Date>): (r: Option<Date>)
    ensures r.None? ==> fallback(s).None? && Scan(s, DashMonthFirst).None? && Scan(s, IsoLike).None? &&
                        Scan(s, Slashed).None?
  {
    match Scan(s, DashMonthFirst)
    case Some(f) => Some(MakeDate(Value(f.third), Value(f.first), Value(f.second)))
    case None =>
      match Scan(s, IsoLike)
      case Some(f) => Some(MakeDate(Value(f.first), Value(f.second), Value(f.third)))
      case None =>
        match Scan(s, Slashed)
        case Some(f) => Some(SlashDay(Value(f.first), Value(f.second), Value(f.third)))
        case None => fallback(s)
  }

  /** parseDateIfNeeded(v). A date cell is taken as it is; any other value is
      turned into text and trimmed; blank text is no date. */
  function ParseDateIfNeeded(v: Cell, fallback: string -> Option<Date>): (r: Option<Date>)
    ensures v.DateCell? ==> r == Some(v.day)
    ensures !v.DateCell? && AllSpace(CellString(v)) ==> r == None
    ensures !v.DateCell? && !AllSpace(CellString(v)) ==> r == ParseText(Trim(CellString(v)), fallback)
  {
    if v.DateCell? then Some(v.day)
    else
      var s := Trim(CellString(v));
      if s == "" then None else ParseText(s, fallback)
  }

  lemma TrimmedDigits(x: string, core: string, y: string)
    requires |x| >= 1 && AllDigits(x) && |y| >= 1 && AllDigits(y)
    requires |core| >= |x| + |y| && core[..|x|] == x && core[|core| - |y|..] == y
    ensures Trimmed(core)
  {
    assert core[0] == x[0] && core[|core| - 1] == y[|y| - 1];
  }

  /** White space around a trimmed, non-empty text does not change what it
      parses to. */
  lemma ParseAround(ws1: string, core: string, ws2: string, fallback: string -> Option<Date>)
    requires AllSpace(ws1) && AllSpace(ws2) && Trimmed(core) && core != ""
    ensures ParseDateIfNeeded(Str(ws1 + core + ws2), fallback) == ParseText(core, fallback)
  {
    var v := Str(ws1 + core + ws2);
    assert CellString(v) == ws1 + core + ws2;
    TrimAround(ws1, core, ws2);
    assert !AllSpace(CellString(v));
  }

  /** M-D-YYYY (white space around it allowed) gives (YYYY, M, D). */
  lemma DashDate(ws1: string, month: string, day: string, year: string, ws2: string, fallback: string -> Option<Date>)
    requires AllSpace(ws1) && AllSpace(ws2)
    requires Fits(month, Width(1, 2)) && Fits(day, Width(1, 2)) && Fits(year, Width(4, 4))
    ensures ParseDateIfNeeded(Str(ws1 + month + "-" + day + "-" + year + ws2), fallback) ==
            Some(MakeDate(Value(year), Value(month), Value(day)))
  {
    var core := month + "-" + day + "-" + year;
    var f := DigitFields(month, day, year);
    assert Matches(core, DashMonthFirst, f);
    TrimmedDigits(month, core, year);
    assert ws1 + month + "-" + day + "-" + year + ws2 == ws1 + core + ws2;
    ParseAround(ws1, core, ws2, fallback);
    ScanFinds(core, DashMonthFirst, f);
  }

  /** YYYY-M-D (white space around it allowed) gives (YYYY, M, D). */
  lemma IsoDate(ws1: string, year: string, month: string, day: string, ws2: string, fallback: string -> Option<Date>)
    requires AllSpace(ws1) && AllSpace(ws2)
    requires Fits(year, Width(4, 4)) && Fits(month, Width(1, 2)) && Fits(day, Width(1, 2))
    ensures ParseDateIfNeeded(Str(ws1 + year + "-" + month + "-" + day + ws2), fallback) ==
            Some(MakeDate(Value(year), Value(month), Value(day)))
  {
    var core := year + "-" + month + "-" + day;
    var f := DigitFields(year, month, day);
    assert Matches(core, IsoLike, f);
    TrimmedDigits(year, core, day);
    assert ws1 + year + "-" + month + "-" + day + ws2 == ws1 + core + ws2;
    ParseAround(ws1, core, ws2, fallback);
    IsoExcludesDash(core, f);
    ScanFinds(core, IsoLike, f);
  }

  /** A/B/YYYY (white space around it allowed): day-first (YYYY, B, A) when
      A > 12, month-first (YYYY, A, B) otherwise. */
  lemma SlashDate(ws1: string, a: string, b: string, year: string, ws2: string, fallback: string -> Option<Date>)
    requires AllSpace(ws1) && AllSpace(ws2)
    requires Fits(a, Width(1, 2)) && Fits(b, Width(1, 2)) && Fits(year, Width(4, 4))
    ensures ParseDateIfNeeded(Str(ws1 + a + "/" + b + "/" + year + ws2), fallback) ==
            Some(if Value(a) > 12 then MakeDate(Value(year), Value(b), Value(a))
                 else MakeDate(Value(year), Value(a), Value(b)))
  {
    var core := a + "/" + b + "/" + year;
    var f := DigitFields(a, b, year);
    assert Matches(core, Slashed, f);
    TrimmedDigits(a, core, year);
    assert ws1 + a + "/" + b + "/" + year + ws2 == ws1 + core + ws2;
    ParseAround(ws1, core, ws2, fallback);
    OtherSeparatorFails(core, Slashed, f, DashMonthFirst);
    OtherSeparatorFails(core, Slashed, f, IsoLike);
    ScanFinds(core, Slashed, f);
  }

  /** For a day that exists, with its year read by the two-digit rule, the dash
      month-first text gives exactly its (Y, M, D) digits. */
  lemma DashDateInRange(ws1: string, month: string, day: string, year: string, ws2: string, fallback: string -> Option<Date>)
    requires AllSpace(ws1) && AllSpace(ws2)
    requires Fits(month, Width(1, 2)) && Fits(day, Width(1, 2)) && Fits(year, Width(4, 4))
    requires ValidDate(Ymd(FullYear(Value(year)), Value(month), Value(day)))
    ensures ParseDateIfNeeded(Str(ws1 + month + "-" + day + "-" + year + ws2), fallback) ==
            Some(Ymd(FullYear(Value(year)), Value(month), Value(day)))
  {
    DashDate(ws1, month, day, year, ws2, fallback);
  }

  /** Likewise the ISO-like text gives exactly its (Y, M, D) digits. */
  lemma IsoDateInRange(ws1: string, year: string, month: string, day: string, ws2: string, fallback: string -> Option<Date>)
    requires AllSpace(ws1) && AllSpace(ws2)
    requires Fits(year, Width(4, 4)) && Fits(month, Width(1, 2)) && Fits(day, Width(1, 2))
    requires ValidDate(Ymd(FullYear(Value(year)), Value(month), Value(day)))
    ensures ParseDateIfNeeded(Str(ws1 + year + "-" + month + "-" + day + ws2), fallback) ==
            Some(Ymd(FullYear(Value(year)), Value(month), Value(day)))
  {
    IsoDate(ws1, year, month, day, ws2, fallback);
  }

  /** And the slash text gives (Y, B, A) day-first when A > 12, (Y, A, B)
      otherwise, whenever that day exists. */
  lemma SlashDateInRange(ws1: string, a: string, b: string, year: string, ws2: string, fallback: string -> Option<Date>)
    requires AllSpace(ws1) && AllSpace(ws2)
    requires Fits(a, Width(1, 2)) && Fits(b, Width(1, 2)) && Fits(year, Width(4, 4))
    requires ValidDate(if Value(a) > 12 then Ymd(FullYear(Value(year)), Value(b), Value(a))
                       else Ymd(FullYear(Value(year)), Value(a), Value(b)))
    ensures ParseDateIfNeeded(Str(ws1 + a + "/" + b + "/" + year + ws2), fallback) ==
            Some(if Value(a) > 12 then Ymd(FullYear(Value(year)), Value(b), Value(a))
                 else Ymd(FullYear(Value(year)), Value(a), Value(b)))
  {
    SlashDate(ws1, a, b, year, ws2, fallback);
  }

  /** A four-digit year of 0024 is read as 1924. */
  lemma TwoDigitYear(fallback: string -> Option<Date>)
    ensures ParseDateIfNeeded(Str("01-05-0024"), fallback) == Some(Ymd(1924, 1, 5))
  {
    assert "0024"[..3] == "002" && "002"[..2] == "00" && "00"[..1] == "0" && "0"[..0] == "";
    assert Value("002") == 2 && Value("0024") == 24;
    assert "01"[..1] == "0" && "05"[..1] == "0";
    assert Value("01") == 1 && Value("05") == 5;
    assert "" + "01" + "-" + "05" + "-" + "0024" + "" == "01-05-0024";
    DashDateInRange("", "01", "05", "0024", "", fallback);
  }

  /** Non-blank text that matches none of the three patterns is handed, trimmed,
      to the engine's parser. */
  lemma FallbackOnlyForOtherText(v: Cell, fallback: string -> Option<Date>)
    requires !v.DateCell? && !AllSpace(CellString(v))
    requires forall f :: !Matches(Trim(CellString(v)), DashMonthFirst, f)
    requires forall f :: !Matches(Trim(CellString(v)), IsoLike, f)
    requires forall f :: !Matches(Trim(CellString(v)), Slashed, f)
    ensures ParseDateIfNeeded(v, fallback) == fallback(Trim(CellString(v)))
  {
  }

  /** The three digit fields of formatDate's text for a year of four digits. */
  lemma FormatDateFields(d: Ymd) returns (mm: string, dd: string, yyyy: string)
    requires ValidDate(d) && 0 <= d.year < 10000
    ensures Fits(mm, Width(1, 2)) && Value(mm) == d.month
    ensures Fits(dd, Width(1, 2)) && Value(dd) == d.day
    ensures Fits(yyyy, Width(4, 4)) && Value(yyyy) == d.year
    ensures FormatDate(d) == mm + ("-" + dd + "-" + yyyy)
  {
    mm, dd, yyyy := Pad(d.month, 2), Pad(d.day, 2), Pad(d.year, 4);
    TwoDigits(d.month);
    TwoDigits(d.day);
    FourDigits(d.year);
    FormatDateText(d);
  }

  lemma TwoDigits(n: nat)
    requires n < 100
    ensures Fits(Pad(n, 2), Width(1, 2)) && Value(Pad(n, 2)) == n
  {
    assert Pow10(2) == 100;
    ValueOfPad(n, 2);
  }

  lemma FourDigits(n: nat)
    requires n < 10000
    ensures Fits(Pad(n, 4), Width(4, 4)) && Value(Pad(n, 4)) == n
  {
    assert Pow10(4) == 10000;
    ValueOfPad(n, 4);
  }

  lemma FormatDateText(d: Ymd)
    requires ValidDate(d) && 0 <= d.year
    ensures FormatDate(d) == Pad(d.month, 2) + ("-" + Pad(d.day, 2) + "-" + Pad(d.year, 4))
  {
    assert YearText(d.year) == Pad(d.year, 4);
  }

  lemma BareCore<T>(a: seq<T>, b: seq<T>, c: seq<T>, d: seq<T>, e: seq<T>)
    ensures [] + a + b + c + d + e + [] == a + (b + c + d + e)
  {
  }

  /** The MM-dd-yyyy text formatDate puts in the e-mail reads back, through the
      first pattern, as the same day. */
  lemma FormatDateReadsBack(d: Ymd, fallback: string -> Option<Date>)
    requires ValidDate(d) && 100 <= d.year < 10000
    ensures ParseDateIfNeeded(Str(FormatDate(d)), fallback) == Some(d)
  {
    var mm, dd, yyyy := FormatDateFields(d);
    DashDate("", mm, dd, yyyy, "", fallback);
    BareCore(mm, "-", dd, "-", yyyy);
  }
}

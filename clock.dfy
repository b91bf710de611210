/** parseTimeTo24h: clock text to zero-padded 24-hour "HH:MM". The two regular
    expressions of the script are written as one scanner over digit runs and as
    two declarative shapes; lemmas tie the scanner to the shapes. */
module Clock {
  import opened Text
  import opened Wrappers

  /** The captures of `(\d{1,2}):(\d{2})(?::(\d{2}))?` and what follows them. */
  datatype ClockParts = ClockParts(hour: string, minute: string, seconds: string, rest: string)

  /** ":SS" when there are seconds, nothing otherwise. */
  function SecondsPart(seconds: string): string {
    if seconds == "" then "" else ":" + seconds
  }

  /** The field widths both patterns share: 1-2 hour digits, 2 minute digits and
      optionally 2 second digits. */
  predicate HeadFields(hour: string, minute: string, seconds: string) {
    AllDigits(hour) && 1 <= |hour| <= 2 && AllDigits(minute) && |minute| == 2 &&
    (seconds == "" || (AllDigits(seconds) && |seconds| == 2))
  }

  /** AM or PM in any letter case (the i flag). */
  predicate IsMeridiem(ap: string) {
    Upper(ap) == "AM" || Upper(ap) == "PM"
  }

  /** s matches /^(\d{1,2}):(\d{2})(?::(\d{2}))?\s*(AM|PM)$/i with these captures. */
  predicate AmPmClock(s: string, hour: string, minute: string, seconds: string, ws: string, ap: string) {
    HeadFields(hour, minute, seconds) && AllSpace(ws) && IsMeridiem(ap) &&
    s == hour + ":" + minute + SecondsPart(seconds) + ws + ap
  }

  /** s matches /^(\d{1,2}):(\d{2})(?::\d{2})?$/ with these captures. */
  predicate BareClock(s: string, hour: string, minute: string, seconds: string) {
    HeadFields(hour, minute, seconds) && s == hour + ":" + minute + SecondsPart(seconds)
  }

  ghost predicate IsAmPmClock(s: string) {
    exists hour, minute, seconds, ws, ap :: AmPmClock(s, hour, minute, seconds, ws, ap)
  }

  ghost predicate IsBareClock(s: string) {
    exists hour, minute, seconds :: BareClock(s, hour, minute, seconds)
  }

  lemma ColonPiece<T>(s: seq<T>, h: nat, c: T)
    requires h + 3 <= |s| && s[h] == c
    ensures s == s[..h] + [c] + s[h + 1..h + 3] + [] + s[h + 3..]
  {
    assert s == s[..h] + s[h..h + 1] + s[h + 1..h + 3] + s[h + 3..];
  }

  lemma ColonPieces<T>(s: seq<T>, h: nat, c: T)
    requires h + 6 <= |s| && s[h] == c && s[h + 3] == c
    ensures s == s[..h] + [c] + s[h + 1..h + 3] + ([c] + s[h + 4..h + 6]) + s[h + 6..]
  {
    assert s == s[..h] + s[h..h + 1] + s[h + 1..h + 3] + (s[h + 3..h + 4] + s[h + 4..h + 6]) + s[h + 6..];
  }

  /** Reads the common head of both patterns. Where both patterns would fail
      already in the head (too many hour digits, a missing colon, a colon after
      the minutes not followed by two digits) there is no result. */
  function ScanClock(s: string): (p: Option<ClockParts>)
    ensures p.Some? ==> HeadFields(p.value.hour, p.value.minute, p.value.seconds)
    ensures p.Some? ==> s == p.value.hour + ":" + p.value.minute + SecondsPart(p.value.seconds) + p.value.rest
    ensures p.Some? && p.value.seconds == "" ==> p.value.rest == "" || p.value.rest[0] != ':'
  {
    var h := DigitRun(s, 0);
    if !(1 <= h <= 2 && h + 3 <= |s| && s[h] == ':' && IsDigit(s[h + 1]) && IsDigit(s[h + 2])) then
      None
    else if h + 3 < |s| && s[h + 3] == ':' then
      if h + 6 <= |s| && IsDigit(s[h + 4]) && IsDigit(s[h + 5]) then
        ColonPieces(s, h, ':');
        Some(ClockParts(s[..h], s[h + 1..h + 3], s[h + 4..h + 6], s[h + 6..]))
      else
        None
    else
      ColonPiece(s, h, ':');
      Some(ClockParts(s[..h], s[h + 1..h + 3], "", s[h + 3..]))
  }

  /** The tail `\s*(AM|PM)` of the first pattern: white space, then two letters. */
  predicate MeridiemTail(rest: string) {
    |rest| >= 2 && AllSpace(rest[..|rest| - 2]) && IsMeridiem(rest[|rest| - 2..])
  }

  /** The hour after the AM/PM adjustment: PM adds 12 except at 12, 12 AM is 0. */
  function Hour24(h: nat, pm: bool): (r: nat)
    ensures pm ==> r == if h == 12 then 12 else h + 12
    ensures !pm ==> r == if h == 12 then 0 else h
  {
    var h1 := if pm && h != 12 then h + 12 else h;
    if !pm && h1 == 12 then 0 else h1
  }

  /** parseTimeTo24h(s). */
  function ParseTimeTo24h(s: string): string {
    if s == "" then ""
    else
      match ScanClock(s)
      case None => ""
      case Some(p) =>
        if MeridiemTail(p.rest) then
          var pm := Upper(p.rest[|p.rest| - 2..]) == "PM";
          Pad(Hour24(Value(p.hour), pm), 2) + ":" + Pad(Value(p.minute), 2)
        else if p.rest == "" then
          Pad(Value(p.hour), 2) + ":" + p.minute
        else
          ""
  }

  lemma HeadSlices<T>(s: seq<T>, a: seq<T>, c: T, b: seq<T>, t: seq<T>)
    requires s == a + [c] + b + t
    ensures s[..|a|] == a && s[|a|] == c && s[|a| + 1..|a| + 1 + |b|] == b && s[|a| + 1 + |b|..] == t
  {
    assert s[..|a|] == a;
    assert s[|a| + 1..|a| + 1 + |b|] == b;
    assert s[|a| + 1 + |b|..] == t;
  }

  /** The scanner finds every decomposition the patterns admit. */
  lemma ScanClockFinds(s: string, hour: string, minute: string, seconds: string, rest: string)
    requires HeadFields(hour, minute, seconds)
    requires s == hour + ":" + minute + SecondsPart(seconds) + rest
    requires seconds != "" || rest == "" || rest[0] != ':'
    ensures ScanClock(s) == Some(ClockParts(hour, minute, seconds, rest))
  {
    var h := |hour|;
    var t := SecondsPart(seconds) + rest;
    AppendAssoc(hour + ":" + minute, SecondsPart(seconds), rest);
    HeadSlices(s, hour, ':', minute, t);
    DigitRunEnds(s, 0, h);
    assert IsDigit(minute[0]) && IsDigit(minute[1]);
    if seconds == "" {
      assert t == rest;
      ScanShort(s, h);
    } else {
      AppendAssoc([':'], seconds, rest);
      HeadSlices(t, [], ':', seconds, rest);
      assert s[h + 3..] == t;
      assert s[h + 4..h + 6] == t[1..3];
      assert s[h + 6..] == t[3..];
      assert IsDigit(seconds[0]) && IsDigit(seconds[1]);
      ScanLong(s, h);
    }
  }

  /** The scanner on a head without seconds. */
  lemma ScanShort(s: string, h: nat)
    requires 1 <= h <= 2 && h + 3 <= |s| && DigitRun(s, 0) == h
    requires s[h] == ':' && IsDigit(s[h + 1]) && IsDigit(s[h + 2])
    requires !(h + 3 < |s| && s[h + 3] == ':')
    ensures ScanClock(s) == Some(ClockParts(s[..h], s[h + 1..h + 3], "", s[h + 3..]))
  {
  }

  /** The scanner on a head with seconds. */
  lemma ScanLong(s: string, h: nat)
    requires 1 <= h <= 2 && h + 6 <= |s| && DigitRun(s, 0) == h
    requires s[h] == ':' && IsDigit(s[h + 1]) && IsDigit(s[h + 2])
    requires s[h + 3] == ':' && IsDigit(s[h + 4]) && IsDigit(s[h + 5])
    ensures ScanClock(s) == Some(ClockParts(s[..h], s[h + 1..h + 3], s[h + 4..h + 6], s[h + 6..]))
  {
  }

  lemma MeridiemShape(ap: string)
    requires IsMeridiem(ap)
    ensures |ap| == 2 && ap[0] != ':'
  {
    assert |Upper(ap)| == |ap|;
    assert UpperChar(ap[0]) == Upper(ap)[0];
  }

  /** The scanner hands an AM/PM clock's tail to MeridiemTail intact. */
  lemma AmPmScan(s: string, hour: string, minute: string, seconds: string, ws: string, ap: string)
    requires AmPmClock(s, hour, minute, seconds, ws, ap)
    ensures ScanClock(s) == Some(ClockParts(hour, minute, seconds, ws + ap))
    ensures MeridiemTail(ws + ap) && (ws + ap)[|ws + ap| - 2..] == ap
  {
    var rest := ws + ap;
    MeridiemShape(ap);
    assert s == hour + ":" + minute + SecondsPart(seconds) + rest;
    assert rest[0] != ':' by {
      if ws == "" { assert rest[0] == ap[0]; } else { assert IsSpace(rest[0]); }
    }
    ScanClockFinds(s, hour, minute, seconds, rest);
    assert rest[..|rest| - 2] == ws && rest[|rest| - 2..] == ap;
  }

  /** An AM/PM clock gives the adjusted hour, padded, and the minute digits. */
  lemma AmPmResult(s: string, hour: string, minute: string, seconds: string, ws: string, ap: string)
    requires AmPmClock(s, hour, minute, seconds, ws, ap)
    ensures ParseTimeTo24h(s) == Pad(Hour24(Value(hour), Upper(ap) == "PM"), 2) + ":" + minute
  {
    AmPmScan(s, hour, minute, seconds, ws, ap);
    PadOfValue(minute);
  }

  /** A 24-hour clock keeps its minute digits and pads the hour; seconds are dropped. */
  lemma BareResult(s: string, hour: string, minute: string, seconds: string)
    requires BareClock(s, hour, minute, seconds)
    ensures ParseTimeTo24h(s) == Pad(Value(hour), 2) + ":" + minute
  {
    assert s == hour + ":" + minute + SecondsPart(seconds) + "";
    ScanClockFinds(s, hour, minute, seconds, "");
  }

  lemma SplitTail<T>(x: seq<T>, r: seq<T>, k: nat)
    requires k <= |r|
    ensures x + r == x + r[..k] + r[k..]
  {
    assert r == r[..k] + r[k..];
  }

  lemma EmptyTail<T>(x: seq<T>, r: seq<T>)
    requires r == []
    ensures x + r == x
  {
  }

  /** A non-empty answer comes only from one of the two clock shapes. */
  lemma RecognizedIsClock(s: string)
    requires ParseTimeTo24h(s) != ""
    ensures IsAmPmClock(s) || IsBareClock(s)
  {
    var p := ScanClock(s).value;
    var head := p.hour + ":" + p.minute + SecondsPart(p.seconds);
    if MeridiemTail(p.rest) {
      var k := |p.rest| - 2;
      SplitTail(head, p.rest, k);
      assert AmPmClock(s, p.hour, p.minute, p.seconds, p.rest[..k], p.rest[k..]);
    } else {
      EmptyTail(head, p.rest);
      assert BareClock(s, p.hour, p.minute, p.seconds);
    }
  }

  /** parseTimeTo24h gives a non-empty answer exactly for the two clock shapes. */
  lemma RecognizesOnlyClocks(s: string)
    ensures ParseTimeTo24h(s) != "" <==> IsAmPmClock(s) || IsBareClock(s)
  {
    if ParseTimeTo24h(s) != "" {
      RecognizedIsClock(s);
    } else if IsAmPmClock(s) {
      var hour, minute, seconds, ws, ap :| AmPmClock(s, hour, minute, seconds, ws, ap);
      AmPmResult(s, hour, minute, seconds, ws, ap);
    } else if IsBareClock(s) {
      var hour, minute, seconds :| BareClock(s, hour, minute, seconds);
      BareResult(s, hour, minute, seconds);
    }
  }

  // The conversions listed in the comment above parseTimeTo24h, and the noon,
  // midnight and out-of-range cases.

  lemma SixPmWithSeconds()
    ensures ParseTimeTo24h("6:00:00 PM") == "18:00"
  {
    SixPmWithSecondsShape();
    SixPmWithSecondsText();
    AmPmResult("6:00:00 PM", "6", "00", "00", " ", "PM");
  }

  lemma SixPmWithSecondsShape()
    ensures AmPmClock("6:00:00 PM", "6", "00", "00", " ", "PM")
  {
    assert HeadFields("6", "00", "00") && IsMeridiem("PM") && AllSpace(" ");
    assert "6:00:00 PM" == "6" + ":" + "00" + SecondsPart("00") + " " + "PM";
  }

  /** 6 PM is 18:00, with or without seconds. */
  lemma SixPmWithSecondsText()
    ensures Pad(Hour24(Value("6"), Upper("PM") == "PM"), 2) + ":" + "00" == "18:00"
  {
    assert Value("6") == 6 && Upper("PM") == "PM";
    assert Dec(18) == Dec(1) + ['8'];
  }

  lemma SixPm()
    ensures ParseTimeTo24h("6:00 PM") == "18:00"
  {
    SixPmShape();
    SixPmWithSecondsText();
    AmPmResult("6:00 PM", "6", "00", "", " ", "PM");
  }

  lemma SixPmShape()
    ensures AmPmClock("6:00 PM", "6", "00", "", " ", "PM")
  {
    assert HeadFields("6", "00", "") && IsMeridiem("PM") && AllSpace(" ");
    assert "6:00 PM" == "6" + ":" + "00" + SecondsPart("") + " " + "PM";
  }

  /** The shape of 18:00 and 18:00:00. */
  lemma EighteenShape(s: string, sec: string)
    requires (sec == "" || sec == "00") && s == "18:00" + SecondsPart(sec)
    ensures BareClock(s, "18", "00", sec)
  {
    assert s == "18" + ":" + "00" + SecondsPart(sec);
  }

  /** The text 18:00 converts to. */
  lemma EighteenText()
    ensures Pad(Value("18"), 2) + ":" + "00" == "18:00"
  {
    assert Value("18") == 18;
    assert Dec(18) == Dec(1) + ['8'];
  }

  lemma EighteenWithSeconds()
    ensures ParseTimeTo24h("18:00:00") == "18:00"
  {
    EighteenShape("18:00:00", "00");
    EighteenText();
    BareResult("18:00:00", "18", "00", "00");
  }

  lemma Eighteen()
    ensures ParseTimeTo24h("18:00") == "18:00"
  {
    EighteenShape("18:00", "");
    EighteenText();
    BareResult("18:00", "18", "00", "");
  }

  /** 12 AM is hour 0. */
  lemma MidnightAm()
    ensures ParseTimeTo24h("12:00 AM") == "00:00"
  {
    MidnightAmShape();
    MidnightAmText();
    AmPmResult("12:00 AM", "12", "00", "", " ", "AM");
  }

  lemma MidnightAmShape()
    ensures AmPmClock("12:00 AM", "12", "00", "", " ", "AM")
  {
    assert HeadFields("12", "00", "") && IsMeridiem("AM") && AllSpace(" ");
    assert "12:00 AM" == "12" + ":" + "00" + SecondsPart("") + " " + "AM";
  }

  lemma MidnightAmText()
    ensures Pad(Hour24(Value("12"), Upper("AM") == "PM"), 2) + ":" + "00" == "00:00"
  {
    assert Value("12") == 12 && Upper("AM") == "AM";
    assert Pad(0, 2) == "00" by {
      assert Dec(0) == "0" && Zeros(1) == "0";
    }
  }

  /** 12 PM stays 12, and the meridiem is matched in any case. */
  lemma NoonLowerCase()
    ensures ParseTimeTo24h("12:30 pm") == "12:30"
  {
    NoonLowerCaseShape();
    NoonLowerCaseText();
    AmPmResult("12:30 pm", "12", "30", "", " ", "pm");
  }

  lemma NoonLowerCaseShape()
    ensures AmPmClock("12:30 pm", "12", "30", "", " ", "pm")
  {
    assert HeadFields("12", "30", "") && IsMeridiem("pm") && AllSpace(" ");
    assert "12:30 pm" == "12" + ":" + "30" + SecondsPart("") + " " + "pm";
  }

  lemma NoonLowerCaseText()
    ensures Pad(Hour24(Value("12"), Upper("pm") == "PM"), 2) + ":" + "30" == "12:30"
  {
    assert Value("12") == 12 && Upper("pm") == "PM";
    assert Dec(12) == Dec(1) + ['2'];
  }

  /** The hour is not range-checked: 13 PM becomes 25. */
  lemma ThirteenPm()
    ensures ParseTimeTo24h("13:00 PM") == "25:00"
  {
    ThirteenPmShape();
    ThirteenPmText();
    AmPmResult("13:00 PM", "13", "00", "", " ", "PM");
  }

  lemma ThirteenPmShape()
    ensures AmPmClock("13:00 PM", "13", "00", "", " ", "PM")
  {
    assert HeadFields("13", "00", "") && IsMeridiem("PM") && AllSpace(" ");
    assert "13:00 PM" == "13" + ":" + "00" + SecondsPart("") + " " + "PM";
  }

  lemma ThirteenPmText()
    ensures Pad(Hour24(Value("13"), Upper("PM") == "PM"), 2) + ":" + "00" == "25:00"
  {
    assert Value("13") == 13 && Upper("PM") == "PM";
    assert Dec(25) == Dec(2) + ['5'];
  }

  /** Text that is not a clock gives the empty string. */
  lemma NotATime()
    ensures ParseTimeTo24h("not a time") == ""
    ensures ParseTimeTo24h("") == ""
  {
    assert DigitRun("not a time", 0) == 0;
  }
}

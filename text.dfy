/** The string operations the script relies on, as JavaScript defines them:
    trim(), includes(), ASCII case mapping, decimal digits, Number() of a digit
    string, String() of an integer and padStart(k, "0"). */
module Text {

  // ---------------------------------------------------------------------------
  // White space and trim()
  // ---------------------------------------------------------------------------

  /** The characters that JavaScript's trim() removes and that `\s` matches:
      white space (the Unicode space separators included) and line terminators. */
  predicate IsSpace(c: char) {
    c == ' ' || c == '\t' || c == '\n' || c == '\r' || c == '\U{B}' || c == '\U{C}' ||
    c == '\U{A0}' || c == '\U{1680}' || ('\U{2000}' <= c <= '\U{200A}') ||
    c == '\U{2028}' || c == '\U{2029}' || c == '\U{202F}' || c == '\U{205F}' ||
    c == '\U{3000}' || c == '\U{FEFF}'
  }

  predicate AllSpace(s: string) {
    forall i :: 0 <= i < |s| ==> IsSpace(s[i])
  }

  /** s has no white space at either end. */
  predicate Trimmed(s: string) {
    |s| == 0 || (!IsSpace(s[0]) && !IsSpace(s[|s| - 1]))
  }

  /** The end of the run of white space that starts at index i. */
  function SpaceRunFrom(s: string, i: nat): (j: nat)
    requires i <= |s|
    ensures i <= j <= |s|
    ensures forall k :: i <= k < j ==> IsSpace(s[k])
    ensures j < |s| ==> !IsSpace(s[j])
    decreases |s| - i
  {
    if i < |s| && IsSpace(s[i]) then SpaceRunFrom(s, i + 1) else i
  }

  /** The start of the run of white space that ends just before index j. */
  function SpaceRunBack(s: string, j: nat): (i: nat)
    requires j <= |s|
    ensures i <= j
    ensures forall k :: i <= k < j ==> IsSpace(s[k])
    ensures i > 0 ==> !IsSpace(s[i - 1])
  {
    if j > 0 && IsSpace(s[j - 1]) then SpaceRunBack(s, j - 1) else j
  }

  /** A run of white space is determined by where it starts and where it stops. */
  lemma SpaceRunFromIs(s: string, i: nat, j: nat)
    requires i <= j <= |s|
    requires forall k :: i <= k < j ==> IsSpace(s[k])
    requires j < |s| ==> !IsSpace(s[j])
    ensures SpaceRunFrom(s, i) == j
  {
  }

  lemma SpaceRunBackIs(s: string, i: nat, j: nat)
    requires i <= j <= |s|
    requires forall k :: i <= k < j ==> IsSpace(s[k])
    requires i > 0 ==> !IsSpace(s[i - 1])
    ensures SpaceRunBack(s, j) == i
  {
  }

  /** JavaScript's String.prototype.trim(): s without the white space at its
      start and at its end. */
  function Trim(s: string): (r: string)
    ensures |r| <= |s|
    ensures Trimmed(r)
    ensures r == "" <==> AllSpace(s)
  {
    var a := SpaceRunFrom(s, 0);
    if a == |s| then ""
    else
      var b := SpaceRunBack(s, |s|);
      assert !AllSpace(s) by { assert !IsSpace(s[a]); }
      s[a..b]
  }

  /** trim() removes exactly the white space around a trimmed core. */
  lemma TrimAround(ws1: string, x: string, ws2: string)
    requires AllSpace(ws1) && AllSpace(ws2) && Trimmed(x)
    ensures Trim(ws1 + x + ws2) == x
  {
    var s := ws1 + x + ws2;
    if x == "" {
      assert AllSpace(s) by {
        forall k | 0 <= k < |s| ensures IsSpace(s[k]) {
          if k < |ws1| { assert s[k] == ws1[k]; } else { assert s[k] == ws2[k - |ws1|]; }
        }
      }
    } else {
      var a, b := |ws1|, |ws1| + |x|;
      forall k | 0 <= k < a ensures IsSpace(s[k]) { assert s[k] == ws1[k]; }
      assert s[a] == x[0];
      SpaceRunFromIs(s, 0, a);
      forall k | b <= k < |s| ensures IsSpace(s[k]) { assert s[k] == ws2[k - b]; }
      assert s[b - 1] == x[|x| - 1];
      SpaceRunBackIs(s, b, |s|);
      assert s[a..b] == x;
    }
  }

  lemma TrimOfTrimmed(s: string)
    requires Trimmed(s)
    ensures Trim(s) == s
  {
    TrimAround("", s, "");
    assert "" + s + "" == s;
  }

  /** trim() is idempotent. */
  lemma TrimIdempotent(s: string)
    ensures Trim(Trim(s)) == Trim(s)
  {
    TrimOfTrimmed(Trim(s));
  }

  // ---------------------------------------------------------------------------
  // includes() and prefixes
  // ---------------------------------------------------------------------------

  /** t occurs in s starting at index i. */
  predicate OccursAt(s: string, t: string, i: nat) {
    i + |t| <= |s| && s[i..i + |t|] == t
  }

  /** JavaScript's s.includes(t): t occurs somewhere in s. */
  function Contains(s: string, t: string): (b: bool)
    ensures b <==> exists i: nat :: OccursAt(s, t, i)
    decreases |s|
  {
    if |t| <= |s| && s[..|t|] == t then
      assert OccursAt(s, t, 0);
      true
    else if |t| >= |s| then
      false
    else
      ContainsShift(s, t);
      Contains(s[1..], t)
  }

  /** t occurs in s[1..] exactly when it occurs in s at a positive index. */
  lemma ContainsShift(s: string, t: string)
    requires |s| > 0
    ensures (exists i: nat :: OccursAt(s[1..], t, i)) <==> (exists i: nat :: 0 < i && OccursAt(s, t, i))
  {
    if exists i: nat :: OccursAt(s[1..], t, i) {
      var i: nat :| OccursAt(s[1..], t, i);
      assert s[i + 1..i + 1 + |t|] == s[1..][i..i + |t|];
      assert OccursAt(s, t, i + 1);
    }
    if exists i: nat :: 0 < i && OccursAt(s, t, i) {
      var i: nat :| 0 < i && OccursAt(s, t, i);
      assert s[i..i + |t|] == s[1..][i - 1..i - 1 + |t|];
      assert OccursAt(s[1..], t, i - 1);
    }
  }

  /** What a string contains, a longer string that starts with it contains too. */
  lemma ContainsExtended(a: string, b: string, t: string)
    requires Contains(a, t)
    ensures Contains(a + b, t)
  {
    var i: nat :| OccursAt(a, t, i);
    assert (a + b)[i..i + |t|] == a[i..i + |t|];
    assert OccursAt(a + b, t, i);
  }

  lemma ContainsEnding(a: string, t: string)
    ensures Contains(a + t, t)
  {
    assert (a + t)[|a|..|a| + |t|] == t;
    assert OccursAt(a + t, t, |a|);
  }

  /** What the middle part of a string contains, the whole string contains. */
  lemma ContainsWithin(a: string, m: string, b: string, t: string)
    requires Contains(m, t)
    ensures Contains(a + m + b, t)
  {
    var i: nat :| OccursAt(m, t, i);
    assert (a + m + b)[|a| + i..|a| + i + |t|] == m[i..i + |t|];
    assert OccursAt(a + m + b, t, |a| + i);
  }

  /** A text whose first character s never holds does not occur in s. */
  lemma LeadAbsent(s: string, t: string)
    requires |t| >= 1 && forall i :: 0 <= i < |s| ==> s[i] != t[0]
    ensures !Contains(s, t)
  {
    forall i: nat
      ensures !OccursAt(s, t, i)
    {
      if i + |t| <= |s| {
        assert s[i..i + |t|][0] == s[i] != t[0];
      }
    }
  }

  lemma ContainsItself(t: string)
    ensures Contains(t, t)
  {
    assert OccursAt(t, t, 0);
  }

  predicate IsPrefix(p: string, s: string) {
    |p| <= |s| && s[..|p|] == p
  }

  predicate IsSuffix(p: string, s: string) {
    |p| <= |s| && s[|s| - |p|..] == p
  }

  lemma PrefixExtended(p: string, s: string, b: string)
    requires IsPrefix(p, s)
    ensures IsPrefix(p, s + b)
  {
    assert (s + b)[..|p|] == s[..|p|];
  }

  // ---------------------------------------------------------------------------
  // toUpperCase() / toLowerCase(), restricted to ASCII letters
  // ---------------------------------------------------------------------------

  function UpperChar(c: char): char {
    if 'a' <= c <= 'z' then (c as int - 32) as char else c
  }

  function LowerChar(c: char): char {
    if 'A' <= c <= 'Z' then (c as int + 32) as char else c
  }

  function Upper(s: string): string {
    seq(|s|, i requires 0 <= i < |s| => UpperChar(s[i]))
  }

  function Lower(s: string): string {
    seq(|s|, i requires 0 <= i < |s| => LowerChar(s[i]))
  }

  /** toUpperCase() leaves s as it is. */
  predicate IsUpper(s: string) {
    forall i :: 0 <= i < |s| ==> UpperChar(s[i]) == s[i]
  }

  /** toLowerCase() leaves s as it is. */
  predicate IsLower(s: string) {
    forall i :: 0 <= i < |s| ==> LowerChar(s[i]) == s[i]
  }

  lemma UpperIsUpper(s: string)
    ensures IsUpper(Upper(s))
  {
  }

  lemma UpperOfUpper(s: string)
    requires IsUpper(s)
    ensures Upper(s) == s
  {
  }

  lemma LowerIsLower(s: string)
    ensures IsLower(Lower(s))
  {
  }

  lemma LowerOfLower(s: string)
    requires IsLower(s)
    ensures Lower(s) == s
  {
  }

  /** Lower-casing forgets an earlier upper-casing. */
  lemma LowerOfUpper(s: string)
    ensures Lower(Upper(s)) == Lower(s)
  {
    forall i | 0 <= i < |s|
      ensures Lower(Upper(s))[i] == Lower(s)[i]
    {
      var c := s[i];
      assert Upper(s)[i] == UpperChar(c);
      assert LowerChar(UpperChar(c)) == LowerChar(c);
    }
  }

  /** Upper-casing forgets an earlier lower-casing. */
  lemma UpperOfLower(s: string)
    ensures Upper(Lower(s)) == Upper(s)
  {
    forall i | 0 <= i < |s|
      ensures Upper(Lower(s))[i] == Upper(s)[i]
    {
      var c := s[i];
      assert Lower(s)[i] == LowerChar(c);
      assert UpperChar(LowerChar(c)) == UpperChar(c);
    }
  }

  lemma AppendAssoc<T>(a: seq<T>, b: seq<T>, c: seq<T>)
    ensures a + b + c == a + (b + c)
  {
  }

  /** trim() cuts a contiguous part out of s. */
  lemma TrimSlice(s: string) returns (i: nat)
    ensures i + |Trim(s)| <= |s| && Trim(s) == s[i..i + |Trim(s)|]
  {
    i := SpaceRunFrom(s, 0);
    if i == |s| {
      assert s[i..i] == "";
    }
  }

  /** Trimming an upper-case text leaves it upper-case. */
  lemma TrimKeepsUpper(s: string)
    requires IsUpper(s)
    ensures IsUpper(Trim(s))
  {
    var i := TrimSlice(s);
    var t := Trim(s);
    forall k | 0 <= k < |t| ensures UpperChar(t[k]) == t[k] {
      assert t[k] == s[i + k];
    }
  }

  /** Case mapping never turns a character into white space or back. */
  lemma CaseKeepsSpace(s: string)
    ensures AllSpace(Upper(s)) <==> AllSpace(s)
    ensures AllSpace(Lower(s)) <==> AllSpace(s)
    ensures Trimmed(s) ==> Trimmed(Upper(s)) && Trimmed(Lower(s))
  {
    assert forall i :: 0 <= i < |s| ==> (IsSpace(Upper(s)[i]) <==> IsSpace(s[i]));
    assert forall i :: 0 <= i < |s| ==> (IsSpace(Lower(s)[i]) <==> IsSpace(s[i]));
  }

  // ---------------------------------------------------------------------------
  // Decimal digits
  // ---------------------------------------------------------------------------

  /** `\d` without the u flag: the ASCII digits. */
  predicate IsDigit(c: char) {
    '0' <= c <= '9'
  }

  predicate AllDigits(s: string) {
    forall i :: 0 <= i < |s| ==> IsDigit(s[i])
  }

  function DigitValue(c: char): nat
    requires IsDigit(c)
  {
    c as int - '0' as int
  }

  function DigitChar(d: nat): (c: char)
    requires d < 10
    ensures IsDigit(c) && DigitValue(c) == d
  {
    ('0' as int + d) as char
  }

  function Pow10(k: nat): (p: nat)
    ensures p >= 1
  {
    if k == 0 then 1 else 10 * Pow10(k - 1)
  }

  /** Number(s) for a string of decimal digits. */
  function Value(s: string): nat
    requires AllDigits(s)
  {
    if s == [] then 0 else 10 * Value(s[..|s| - 1]) + DigitValue(s[|s| - 1])
  }

  /** String(n) for a natural number: its decimal digits without leading zeros. */
  function Dec(n: nat): (r: string)
    ensures AllDigits(r) && |r| >= 1 && Value(r) == n
    ensures |r| > 1 ==> r[0] != '0'
  {
    if n < 10 then
      [DigitChar(n)]
    else
      var r := Dec(n / 10) + [DigitChar(n % 10)];
      assert r[..|r| - 1] == Dec(n / 10);
      r
  }

  /** String(i) for an integer. */
  function IntToString(i: int): string {
    if i < 0 then "-" + Dec(-i) else Dec(i)
  }

  function Zeros(k: nat): (z: string)
    ensures |z| == k && AllDigits(z)
  {
    seq(k, _ => '0')
  }

  /** s.padStart(k, "0"). */
  function PadStart(s: string, k: nat): (r: string)
    ensures |r| == if |s| < k then k else |s|
    ensures IsSuffix(s, r)
  {
    if |s| < k then Zeros(k - |s|) + s else s
  }

  /** String(n).padStart(width, "0"). */
  function Pad(n: nat, width: nat): (r: string)
    ensures AllDigits(r) && |r| >= 1
  {
    var d := Dec(n);
    var r := PadStart(d, width);
    assert |d| < width ==> r == Zeros(width - |d|) + d;
    r
  }

  lemma {:induction false} ValueOfZeros(k: nat)
    ensures Value(Zeros(k)) == 0
  {
    if k > 0 {
      assert Zeros(k)[..k - 1] == Zeros(k - 1);
      ValueOfZeros(k - 1);
    }
  }

  /** Leading zeros do not change Number(). */
  lemma {:induction false} ValueIgnoresLeadingZeros(k: nat, s: string)
    requires AllDigits(s)
    ensures AllDigits(Zeros(k) + s) && Value(Zeros(k) + s) == Value(s)
    decreases |s|
  {
    if s == [] {
      assert Zeros(k) + s == Zeros(k);
      ValueOfZeros(k);
    } else {
      var z := Zeros(k) + s;
      assert z[..|z| - 1] == Zeros(k) + s[..|s| - 1];
      ValueIgnoresLeadingZeros(k, s[..|s| - 1]);
    }
  }

  lemma {:induction false} ValueBound(s: string)
    requires AllDigits(s)
    ensures Value(s) < Pow10(|s|)
    decreases |s|
  {
    if s != [] {
      ValueBound(s[..|s| - 1]);
    }
  }

  lemma {:induction false} DecLength(n: nat, k: nat)
    requires 1 <= k && n < Pow10(k)
    ensures |Dec(n)| <= k
  {
    if n >= 10 {
      DecLength(n / 10, k - 1);
    }
  }

  /** Two digit strings of the same length with the same Number() are equal. */
  lemma {:induction false} ValueInjective(a: string, b: string)
    requires AllDigits(a) && AllDigits(b) && |a| == |b|
    requires Value(a) == Value(b)
    ensures a == b
    decreases |a|
  {
    if a != [] {
      var n := |a| - 1;
      assert DigitValue(a[n]) == Value(a) % 10;
      assert DigitValue(b[n]) == Value(b) % 10;
      ValueInjective(a[..n], b[..n]);
      assert a == a[..n] + [a[n]] && b == b[..n] + [b[n]];
    }
  }

  /** Padding Number(d) back to the width of d gives d again. */
  lemma PadOfValue(d: string)
    requires AllDigits(d) && |d| >= 1
    ensures Pad(Value(d), |d|) == d
  {
    ValueBound(d);
    ValueOfPad(Value(d), |d|);
    ValueInjective(Pad(Value(d), |d|), d);
  }

  /** Number() of a padded number is that number; padding to k digits yields k
      digits when the number has at most k. */
  lemma ValueOfPad(n: nat, k: nat)
    requires 1 <= k && n < Pow10(k)
    ensures AllDigits(Pad(n, k)) && |Pad(n, k)| == k && Value(Pad(n, k)) == n
  {
    DecLength(n, k);
    ValueIgnoresLeadingZeros(k - |Dec(n)|, Dec(n));
  }

  /** The end of the run of digits that starts at index i of s. */
  function DigitRun(s: string, i: nat): (j: nat)
    requires i <= |s|
    ensures i <= j <= |s| && AllDigits(s[i..j])
    ensures j < |s| ==> !IsDigit(s[j])
    decreases |s| - i
  {
    if i < |s| && IsDigit(s[i]) then DigitRun(s, i + 1) else i
  }

  /** A digit run ends exactly where the digits stop. */
  lemma {:induction false} DigitRunEnds(s: string, i: nat, j: nat)
    requires i <= j <= |s| && AllDigits(s[i..j])
    requires j < |s| ==> !IsDigit(s[j])
    ensures DigitRun(s, i) == j
    decreases j - i
  {
    if i < j {
      assert IsDigit(s[i..j][0]);
      assert s[i + 1..j] == s[i..j][1..];
      DigitRunEnds(s, i + 1, j);
    }
  }
}

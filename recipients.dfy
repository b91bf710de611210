/** getBccList: the configured Bcc text split at line breaks and commas, each
    entry trimmed, blank entries dropped, joined with commas. */
module Recipients {
  import opened Text

  /** The length of a separator /\r?\n|,/ at the start of s, 0 if none. */
  function SeparatorAt(s: string): (k: nat)
    ensures k <= |s| && k <= 2
  {
    if |s| >= 2 && s[0] == '\r' && s[1] == '\n' then 2
    else if |s| >= 1 && (s[0] == '\n' || s[0] == ',') then 1
    else 0
  }

  /** No character of s can end a piece. */
  predicate NoSeparator(s: string) {
    forall i :: 0 <= i < |s| ==> s[i] != '\n' && s[i] != ','
  }

  /** s.split(/\r?\n|,/): the pieces between separators, left to right; there is
      always at least one. */
  function Split(s: string): (pieces: seq<string>)
    ensures |pieces| >= 1
    ensures forall p :: p in pieces ==> NoSeparator(p)
    decreases |s|
  {
    if s == "" then [""]
    else
      var k := SeparatorAt(s);
      if k > 0 then [""] + Split(s[k..])
      else
        var rest := Split(s[1..]);
        assert NoSeparator(rest[0]);
        [[s[0]] + rest[0]] + rest[1..]
  }

  function Concat(pieces: seq<string>): string {
    if pieces == [] then "" else pieces[0] + Concat(pieces[1..])
  }

  /** s with its separators cut out. */
  function WithoutSeparators(s: string): string
    decreases |s|
  {
    if s == "" then ""
    else
      var k := SeparatorAt(s);
      if k > 0 then WithoutSeparators(s[k..]) else [s[0]] + WithoutSeparators(s[1..])
  }

  /** Splitting loses the separators and nothing else. */
  lemma {:induction false} SplitKeepsText(s: string)
    ensures Concat(Split(s)) == WithoutSeparators(s)
    decreases |s|
  {
    if s != "" {
      var k := SeparatorAt(s);
      SplitKeepsText(s[if k > 0 then k else 1..]);
      if k == 0 {
        var rest := Split(s[1..]);
        assert Concat([[s[0]] + rest[0]] + rest[1..]) == [s[0]] + rest[0] + Concat(rest[1..]);
        assert Concat(rest) == rest[0] + Concat(rest[1..]);
      }
    }
  }

  /** A text without separators is one piece. */
  lemma {:induction false} SplitOfPlain(a: string)
    requires NoSeparator(a)
    ensures Split(a) == [a]
    decreases |a|
  {
    if a != "" {
      SplitOfPlain(a[1..]);
      assert [a[0]] + a[1..] == a;
    }
  }

  /** A piece without separators followed by a comma splits off as it is. */
  lemma {:induction false} SplitAtComma(a: string, rest: string)
    requires NoSeparator(a)
    ensures Split(a + "," + rest) == [a] + Split(rest)
    decreases |a|
  {
    var s := a + "," + rest;
    if a == "" {
      assert s[1..] == rest;
    } else {
      assert s[1..] == a[1..] + "," + rest;
      assert SeparatorAt(s) == 0 by {
        assert s[0] == a[0];
        assert |a| >= 2 ==> s[1] == a[1];
      }
      SplitAtComma(a[1..], rest);
      assert [a[0]] + a[1..] == a;
    }
  }

  /** A piece without separators followed by a line break ("\n" or "\r\n")
      splits off as it is; before a bare "\n" the piece must not end with
      '\r', which would make the two one "\r\n" break. */
  lemma {:induction false} SplitAtLineBreak(a: string, nl: string, rest: string)
    requires NoSeparator(a) && (nl == "\n" || nl == "\r\n")
    requires nl == "\n" && a != "" ==> a[|a| - 1] != '\r'
    ensures Split(a + nl + rest) == [a] + Split(rest)
    decreases |a|
  {
    var s := a + nl + rest;
    if a == "" {
      assert s == nl + rest;
      assert s[|nl|..] == rest;
      assert SeparatorAt(s) == |nl|;
    } else {
      assert s[1..] == a[1..] + nl + rest;
      assert SeparatorAt(s) == 0 by {
        assert s[0] == a[0];
        if |a| >= 2 { assert s[1] == a[1]; } else { assert s[1] == nl[0]; }
      }
      SplitAtLineBreak(a[1..], nl, rest);
      assert [a[0]] + a[1..] == a;
    }
  }

  /** The entries that are left: each piece trimmed, the blank ones dropped
      (map(e => e.trim()).filter(e => e.length > 0)). */
  function Clean(pieces: seq<string>): (entries: seq<string>)
    ensures |entries| <= |pieces|
    ensures forall e :: e in entries ==> e != "" && Trimmed(e)
  {
    if pieces == [] then []
    else
      var t := Trim(pieces[0]);
      var rest := Clean(pieces[1..]);
      if t == "" then rest else [t] + rest
  }

  /** One piece gives its trimmed text, or nothing when it is blank. */
  lemma CleanOne(x: string)
    ensures Clean([x]) == if AllSpace(x) then [] else [Trim(x)]
  {
    assert [x][1..] == [];
  }

  /** Cleaning works piece by piece: the entries of two lists of pieces are
      the entries of the first, then those of the second. */
  lemma {:induction false} CleanAppend(p: seq<string>, q: seq<string>)
    ensures Clean(p + q) == Clean(p) + Clean(q)
  {
    if p != [] {
      assert (p + q)[0] == p[0] && (p + q)[1..] == p[1..] + q;
      CleanAppend(p[1..], q);
    } else {
      assert p + q == q;
    }
  }

  lemma CleanStep(pieces: seq<string>)
    requires 0 < |pieces|
    ensures Clean(pieces) == if Trim(pieces[0]) == "" then Clean(pieces[1..])
                             else [Trim(pieces[0])] + Clean(pieces[1..])
  {
  }

  /** Every non-blank piece survives, trimmed. */
  lemma {:induction false} CleanKeepsEntries(pieces: seq<string>, i: nat)
    requires i < |pieces| && !AllSpace(pieces[i])
    ensures Trim(pieces[i]) in Clean(pieces)
  {
    CleanStep(pieces);
    if i > 0 {
      var rest := pieces[1..];
      assert rest[i - 1] == pieces[i];
      CleanKeepsEntries(rest, i - 1);
    }
  }

  lemma CleanCons(x: string, rest: seq<string>)
    requires x != "" && Trimmed(x)
    ensures Clean([x] + rest) == [x] + Clean(rest)
  {
    var pieces := [x] + rest;
    assert pieces[0] == x && pieces[1..] == rest;
    TrimOfTrimmed(x);
  }

  /** Entries already clean are kept as they are. */
  lemma {:induction false} CleanOfClean(entries: seq<string>)
    requires forall i :: 0 <= i < |entries| ==> entries[i] != "" && Trimmed(entries[i])
    ensures Clean(entries) == entries
  {
    if entries != [] {
      var rest := entries[1..];
      CleanOfClean(rest);
      CleanCons(entries[0], rest);
      assert [entries[0]] + rest == entries;
    }
  }

  /** Trimming keeps a text free of separators. */
  lemma TrimKeepsPlain(s: string)
    requires NoSeparator(s)
    ensures NoSeparator(Trim(s))
  {
    var i := TrimSlice(s);
    var t := Trim(s);
    assert forall j :: 0 <= j < |t| ==> t[j] == s[i + j];
  }

  lemma {:induction false} CleanKeepsPlain(pieces: seq<string>)
    requires forall p :: p in pieces ==> NoSeparator(p)
    ensures forall e :: e in Clean(pieces) ==> NoSeparator(e)
  {
    if pieces != [] {
      TrimKeepsPlain(pieces[0]);
      CleanKeepsPlain(pieces[1..]);
    }
  }

  /** join(","): the entries one after another with a comma between two; the
      text starts with the first entry and ends with the last. */
  function JoinComma(entries: seq<string>): (r: string)
    ensures entries == [] ==> r == ""
    ensures entries != [] ==> IsPrefix(entries[0], r) && IsSuffix(entries[|entries| - 1], r)
  {
    if entries == [] then ""
    else if |entries| == 1 then entries[0]
    else
      var rest := JoinComma(entries[1..]);
      assert IsSuffix(entries[|entries| - 1], rest);
      entries[0] + "," + rest
  }

  /** Splitting a comma-joined list of plain, non-empty entries gives the list back. */
  lemma {:induction false} SplitOfJoin(entries: seq<string>)
    requires |entries| >= 1 && forall e :: e in entries ==> NoSeparator(e)
    ensures Split(JoinComma(entries)) == entries
  {
    if |entries| == 1 {
      SplitOfPlain(entries[0]);
    } else {
      SplitAtComma(entries[0], JoinComma(entries[1..]));
      SplitOfJoin(entries[1..]);
    }
  }

  /** The Bcc addresses, in order: every non-blank entry, trimmed. */
  function BccEntries(raw: string): (entries: seq<string>)
    ensures forall e :: e in entries ==> e != "" && Trimmed(e) && NoSeparator(e)
  {
    CleanKeepsPlain(Split(raw));
    Clean(Split(raw))
  }

  /** getBccList() on the text of CONFIG.emailBcc. */
  function GetBccList(raw: string): (r: string)
    ensures r == "" <==> BccEntries(raw) == []
  {
    var es := BccEntries(raw);
    assert es != [] ==> JoinComma(es) != "" by {
      if es != [] { assert es[0] in es; }
    }
    JoinComma(es)
  }

  /** The list getBccList produces reads back as the same entries, so applying
      it to its own output changes nothing. */
  lemma BccEntriesOfList(raw: string)
    ensures BccEntries(GetBccList(raw)) == BccEntries(raw)
  {
    var es := BccEntries(raw);
    if es == [] {
      assert GetBccList(raw) == "";
      assert Split("") == [""];
    } else {
      SplitOfJoin(es);
      assert forall i :: 0 <= i < |es| ==> es[i] in es;
      CleanOfClean(es);
    }
  }

  lemma GetBccListIdempotent(raw: string)
    ensures GetBccList(GetBccList(raw)) == GetBccList(raw)
  {
    BccEntriesOfList(raw);
  }
}

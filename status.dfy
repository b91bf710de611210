/** The status column: the tokens that record which reminders a row has had,
    and appendStatus, which adds one. */
module StatusLedger {
  import opened Text

  /** The two reminders of a row: the day before the event (D-1) and the day
      of the event (D0). */
  datatype Milestone = DayBefore | DayOf {
    /** The token written to the status column once the reminder is sent. */
    function Token(): (t: string)
      ensures t == "D1SENT" || t == "D0SENT"
    {
      match this
      case DayBefore => "D1SENT"
      case DayOf => "D0SENT"
    }
  }

  const Separator := " | "

  /** appendStatus(existing, flag): the trimmed existing status unchanged when it
      already holds the flag, the flag alone when it is empty, and otherwise the
      status with " | flag" appended. */
  function AppendStatus(existing: string, flag: string): (r: string)
    ensures Contains(r, flag)
    ensures IsPrefix(Trim(existing), r)
    ensures Contains(Trim(existing), flag) ==> r == Trim(existing)
    ensures Trim(existing) == "" ==> r == flag
    ensures Trim(existing) != "" && !Contains(Trim(existing), flag) ==>
              r == Trim(existing) + Separator + flag
  {
    var base := Trim(existing);
    if base == "" then ContainsItself(flag); flag
    else if Contains(base, flag) then base
    else ContainsEnding(base + Separator, flag); base + Separator + flag
  }

  /** Every token the status held is still there afterwards. */
  lemma AppendStatusKeeps(existing: string, flag: string, t: string)
    requires Contains(Trim(existing), t)
    ensures Contains(AppendStatus(existing, flag), t)
  {
    var base := Trim(existing);
    var r := AppendStatus(existing, flag);
    assert IsPrefix(base, r);
    assert r == base + r[|base|..];
    ContainsExtended(base, r[|base|..], t);
  }

  /** For a flag without surrounding white space the new status has none. */
  lemma AppendStatusTrimmed(existing: string, flag: string)
    requires Trimmed(flag)
    ensures Trimmed(AppendStatus(existing, flag))
  {
    var base := Trim(existing);
    if flag == "" {
      ContainsAnywhere(base);
    } else if base != "" && !Contains(base, flag) {
      var r := base + Separator + flag;
      assert r[0] == base[0] && r[|r| - 1] == flag[|flag| - 1];
    }
  }

  lemma ContainsAnywhere(s: string)
    ensures Contains(s, "")
  {
    assert OccursAt(s, "", 0);
  }

  /** Upper-case status and flag give an upper-case status. */
  lemma AppendStatusUpper(existing: string, flag: string)
    requires IsUpper(existing) && IsUpper(flag)
    ensures IsUpper(AppendStatus(existing, flag))
  {
    TrimKeepsUpper(existing);
    var base := Trim(existing);
    if base != "" && !Contains(base, flag) {
      var r := base + Separator + flag;
      assert forall i :: 0 <= i < |r| ==> UpperChar(r[i]) == r[i] by {
        forall i | 0 <= i < |r|
          ensures UpperChar(r[i]) == r[i]
        {
          if i < |base| { assert r[i] == base[i]; }
          else if i >= |base| + 3 { assert r[i] == flag[i - |base| - 3]; }
        }
      }
    }
  }

  /** Appending the same flag twice changes nothing the second time. */
  lemma AppendStatusIdempotent(existing: string, flag: string)
    requires Trimmed(flag)
    ensures AppendStatus(AppendStatus(existing, flag), flag) == AppendStatus(existing, flag)
  {
    var r := AppendStatus(existing, flag);
    AppendStatusTrimmed(existing, flag);
    TrimOfTrimmed(r);
  }

  /** A flag already present is not added again. */
  lemma AppendStatusPresent()
    ensures AppendStatus("D1SENT", "D1SENT") == "D1SENT"
  {
    TrimOfTrimmed("D1SENT");
    ContainsItself("D1SENT");
  }

  /** An empty status becomes the flag. */
  lemma AppendStatusEmpty()
    ensures AppendStatus("", "D0SENT") == "D0SENT"
  {
    assert Trim("") == "";
  }

  /** Other text keeps its content and gets " | flag" after it. */
  lemma AppendStatusNote()
    ensures AppendStatus("MANUAL NOTE", "D1SENT") == "MANUAL NOTE" + Separator + "D1SENT"
  {
    TrimOfTrimmed("MANUAL NOTE");
    LeadAbsent("MANUAL NOTE", "D1SENT");
  }

  /** statusVal.includes(token), where statusVal is the cell text trimmed and
      upper-cased. */
  predicate HasSent(status: string, m: Milestone) {
    Contains(Upper(Trim(status)), m.Token())
  }

  /** The test reads the cell as statusVal does: white space around the text
      and letter case do not change whether a reminder counts as sent. */
  lemma HasSentIgnoresSpaceAndCase(ws1: string, s: string, ws2: string, m: Milestone)
    requires AllSpace(ws1) && AllSpace(ws2) && Trimmed(s)
    ensures HasSent(ws1 + Lower(s) + ws2, m) <==> HasSent(s, m)
    ensures HasSent(s, m) <==> Contains(Upper(s), m.Token())
  {
    CaseKeepsSpace(s);
    TrimAround(ws1, Lower(s), ws2);
    TrimOfTrimmed(s);
    UpperOfLower(s);
  }

  /** The text written back after the reminder m: appendStatus(statusVal, token). */
  function Marked(status: string, m: Milestone): (r: string)
    ensures HasSent(r, m)
  {
    var r := AppendStatus(Upper(Trim(status)), m.Token());
    MarkedIsNormal(status, m);
    r
  }

  /** An upper-case text with an upper-case, trimmed flag appended reads back
      through trim() and toUpperCase() unchanged. */
  lemma AppendStatusNormal(existing: string, flag: string)
    requires IsUpper(existing) && IsUpper(flag) && Trimmed(flag)
    ensures Upper(Trim(AppendStatus(existing, flag))) == AppendStatus(existing, flag)
  {
    var r := AppendStatus(existing, flag);
    AppendStatusUpper(existing, flag);
    AppendStatusTrimmed(existing, flag);
    TrimOfTrimmed(r);
    UpperOfUpper(r);
  }

  lemma TokenIsNormal(m: Milestone)
    ensures IsUpper(m.Token()) && Trimmed(m.Token())
  {
  }

  /** The written status is already trimmed and upper-case, so reading it back
      yields it unchanged. */
  lemma MarkedIsNormal(status: string, m: Milestone)
    ensures Upper(Trim(AppendStatus(Upper(Trim(status)), m.Token()))) ==
            AppendStatus(Upper(Trim(status)), m.Token())
  {
    UpperIsUpper(Trim(status));
    TokenIsNormal(m);
    AppendStatusNormal(Upper(Trim(status)), m.Token());
  }

  /** Marking one reminder keeps the record of every other one. */
  lemma MarkedKeeps(status: string, m: Milestone, other: Milestone)
    requires HasSent(status, other)
    ensures HasSent(Marked(status, m), other)
  {
    var u := Upper(Trim(status));
    CaseKeepsSpace(Trim(status));
    TrimOfTrimmed(u);
    AppendStatusKeeps(u, m.Token(), other.Token());
    MarkedIsNormal(status, m);
  }

  /** Marking an already recorded reminder again writes the same text. */
  lemma MarkedIdempotent(status: string, m: Milestone)
    ensures Marked(Marked(status, m), m) == Marked(status, m)
  {
    var u, flag := Upper(Trim(status)), m.Token();
    var r := AppendStatus(u, flag);
    assert Marked(status, m) == r;
    MarkedIsNormal(status, m);
    assert Upper(Trim(r)) == r;
    TokenIsNormal(m);
    AppendStatusIdempotent(u, flag);
    assert Marked(r, m) == AppendStatus(r, flag);
  }

  lemma CharOfOccurrence(s: string, t: string, i: nat, k: nat)
    requires OccursAt(s, t, i) && k < |t|
    ensures s[i + k] == t[k]
  {
    assert s[i..i + |t|][k] == t[k];
  }

  /** Where a token without white space or bars sits in `u | tok`: inside u,
      or exactly at tok. */
  lemma SeparatedOccurrence(u: string, tok: string, t: string, i: nat)
    requires |t| == |tok| && 0 < |t|
    requires forall k :: 0 <= k < |t| ==> t[k] != ' ' && t[k] != '|'
    requires OccursAt(u + Separator + tok, t, i)
    ensures OccursAt(u, t, i) || t == tok
  {
    var r := u + Separator + tok;
    if i + |t| <= |u| {
      assert r[i..i + |t|] == u[i..i + |t|];
    } else if i < |u| + 3 {
      CharOfOccurrence(r, t, i, if i < |u| then |u| - i else 0);
    } else {
      assert r[i..i + |t|] == tok;
    }
  }

  /** Such a token is not created by appending ` | tok`. */
  lemma SeparatedTokenAbsent(u: string, tok: string, t: string)
    requires !Contains(u, t) && |t| == |tok| && t != tok
    requires forall k :: 0 <= k < |t| ==> t[k] != ' ' && t[k] != '|'
    ensures !Contains(u + Separator + tok, t)
  {
    ContainsAnywhere(u);
    if Contains(u + Separator + tok, t) {
      var i: nat :| OccursAt(u + Separator + tok, t, i);
      SeparatedOccurrence(u, tok, t, i);
    }
  }

  /** appendStatus with one token does not create an occurrence of the other. */
  lemma AppendStatusKeepsAbsent(u: string, m: Milestone, other: Milestone)
    requires other != m && Trim(u) == u && !Contains(u, other.Token())
    ensures !Contains(AppendStatus(u, m.Token()), other.Token())
  {
    var t, tok := other.Token(), m.Token();
    if u != "" && !Contains(u, tok) {
      SeparatedTokenAbsent(u, tok, t);
    }
  }

  /** Marking one reminder does not record the other one. */
  lemma MarkedKeepsAbsent(status: string, m: Milestone, other: Milestone)
    requires other != m && !HasSent(status, other)
    ensures !HasSent(Marked(status, m), other)
  {
    var u := Upper(Trim(status));
    CaseKeepsSpace(Trim(status));
    TrimOfTrimmed(u);
    MarkedIsNormal(status, m);
    AppendStatusKeepsAbsent(u, m, other);
  }
}

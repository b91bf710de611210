/** sendD1D0: the daily pass over the data rows. For every row whose event is
    tomorrow (D-1) or today (D0) and whose status does not record that reminder
    yet, one e-mail is sent and its token is appended to the row's status. */
module Scheduler {
  import opened Text
  import opened Wrappers
  import opened Calendar
  import opened Sheet
  import opened DateText
  import opened Headers
  import opened StatusLedger
  import opened Message
  import opened Recipients

  /** The settings of a pass: recipients, today's date in the configured
      timezone, the layout of the sheet (event-date column 0-based) and the
      engine's date parser for other date texts. */
  datatype PassConfig = PassConfig(to: string, bcc: string, today: Date, eventCol: nat,
                                   idx: FieldIndex, fallback: string -> Option<Date>)

  /** CONFIG in the script, without the sheet name, header row, timezone and
      trigger hour. */
  datatype Settings = Settings(emailTo: string, emailBcc: string, statusHeader: string, eventDateHeader: string)

  /** How sendD1D0 starts: it stops at once when there is no data row; otherwise
      it settles the status column (writing its header when it is new) and then
      fails on a missing event-date or field column, or is ready for the pass. */
  datatype Prepared =
    | NoRows
    | HeaderFailure(error: HeaderError, addedStatusHeader: bool)
    | Ready(cfg: PassConfig, statusCol: nat, width: nat, addedStatusHeader: bool)

  function Prepare(settings: Settings, names: FieldNames, headers: seq<string>, rowCount: nat,
                   today: Date, fallback: string -> Option<Date>): (p: Prepared)
    ensures rowCount == 0 <==> p.NoRows?
    ensures rowCount > 0 ==>
              (p.HeaderFailure? <==> ResolveLayout(headers, settings.statusHeader, settings.eventDateHeader, names).Err?)
    ensures p.Ready? ==> p.cfg.to == Trim(settings.emailTo) && p.cfg.bcc == GetBccList(settings.emailBcc) &&
                         p.cfg.today == StartOfDay(today) && p.cfg.fallback == fallback
    ensures p.Ready? ==> 1 <= p.statusCol <= p.width && p.cfg.eventCol < p.width && |headers| <= p.width
    ensures p.Ready? ==>
              var layout := ResolveLayout(headers, settings.statusHeader, settings.eventDateHeader, names).value;
              p.cfg.eventCol + 1 == layout.eventDateCol && p.statusCol == layout.statusCol &&
              p.width == layout.width && p.cfg.idx == layout.idx
    ensures p.HeaderFailure? ==>
              p.error == ResolveLayout(headers, settings.statusHeader, settings.eventDateHeader, names).error
    ensures !p.NoRows? ==>
              (p.addedStatusHeader <==> SettleStatusColumn(HeaderMapOf(headers), |headers|, settings.statusHeader).added)
  {
    if rowCount == 0 then NoRows
    else
      var sc := SettleStatusColumn(HeaderMapOf(headers), |headers|, settings.statusHeader);
      var r := ResolveLayout(headers, settings.statusHeader, settings.eventDateHeader, names);
      if r.Err? then HeaderFailure(r.error, sc.added)
      else
        var layout := r.value;
        Ready(PassConfig(Trim(settings.emailTo), GetBccList(settings.emailBcc), StartOfDay(today),
                         layout.eventDateCol - 1, layout.idx, fallback),
              layout.statusCol, layout.width, layout.addedStatusHeader)
  }

  /** The day on which each reminder is due, relative to today: D-1 the
      next day, D0 today. */
  function DueDay(m: Milestone, today: Date): (r: Date)
    ensures m.DayBefore? ==> DayNumber(r) == DayNumber(today) + 1
    ensures m.DayOf? ==> r == today
    ensures SameDay(r, today) <==> m.DayOf?
  {
    NextDayIsOneDayLater(today);
    match m
    case DayBefore => NextDay(today)
    case DayOf => today
  }

  /** The event day of a row: parseDateIfNeeded of its event-date cell, read
      again through startOfDay. */
  function EventDay(cfg: PassConfig, row: Row): (r: Option<Date>)
    ensures r.Some? <==> ParseDateIfNeeded(CellAt(row.values, cfg.eventCol), cfg.fallback).Some?
    ensures var c := CellAt(row.values, cfg.eventCol); c.Blank? ==> r.None?
    ensures var c := CellAt(row.values, cfg.eventCol);
            c.DateCell? && !(0 <= c.day.year <= 99) ==> r == Some(c.day)
    ensures var p := ParseDateIfNeeded(CellAt(row.values, cfg.eventCol), cfg.fallback);
            p.Some? && !(0 <= p.value.year <= 99) ==> r == p
  {
    match ParseDateIfNeeded(CellAt(row.values, cfg.eventCol), cfg.fallback)
    case None => None
    case Some(d) => Some(StartOfDay(d))
  }

  /** Reminder m is due for a row with the given status text: the row has an
      event day, and only D0 is due on an event day that is today. */
  predicate Due(cfg: PassConfig, row: Row, status: string, m: Milestone)
    ensures Due(cfg, row, status, m) ==> EventDay(cfg, row).Some? && (EventDay(cfg, row).value == cfg.today <==> m.DayOf?)
  {
    cfg.to != "" && EventDay(cfg, row) == Some(DueDay(m, cfg.today)) && !HasSent(status, m)
  }

  /** The two reminders are never due on the same day, and marking a due
      reminder in the status makes it no longer due. */
  lemma DueExclusive(cfg: PassConfig, row: Row, status: string, m: Milestone)
    ensures !(Due(cfg, row, status, DayBefore) && Due(cfg, row, status, DayOf))
    ensures Due(cfg, row, status, m) ==> !Due(cfg, row, Marked(status, m), m)
  {
    assert NextDay(cfg.today) != cfg.today;
    assert HasSent(Marked(status, m), m);
  }

  /** The reminder the pass sends for one row, if any: D-1 is checked first. */
  function Decide(cfg: PassConfig, row: Row, status: string): (r: Option<Milestone>)
    ensures r.Some? ==> Due(cfg, row, status, r.value)
    ensures forall m :: Due(cfg, row, status, m) ==> r == Some(m)
  {
    match EventDay(cfg, row)
    case None => None
    case Some(day) =>
      var statusVal := Upper(Trim(status));
      if cfg.to == "" then None
      else if SameDay(day, NextDay(cfg.today)) && !Contains(statusVal, "D1SENT") then Some(DayBefore)
      else if SameDay(day, cfg.today) && !Contains(statusVal, "D0SENT") then Some(DayOf)
      else None
  }

  /** What the pass does to the outside world, in order. */
  datatype Effect =
    | Mailed(row: nat, milestone: Milestone, email: Email)
    | Wrote(row: nat, text: string)

  /** The effects of row i: the e-mail, then the updated status cell. */
  function RowEffects(cfg: PassConfig, i: nat, row: Row, status: string): (es: seq<Effect>)
    ensures |es| == if Decide(cfg, row, status).Some? then 2 else 0
    ensures MailCount(es) == if Decide(cfg, row, status).Some? then 1 else 0
  {
    match Decide(cfg, row, status)
    case None => []
    case Some(m) =>
      var es := [Mailed(i, m, Reminder(m, cfg.to, cfg.bcc, DueDay(m, cfg.today), row, cfg.idx)), Wrote(i, Marked(status, m))];
      MailThenWrite(es[0], es[1]);
      es
  }

  /** The status text of a row after the pass: marked with the reminder that
      was due, which it then records as sent, or unchanged when none was. */
  function StatusAfter(cfg: PassConfig, row: Row, status: string): (r: string)
    ensures forall m :: Due(cfg, row, status, m) ==> r == Marked(status, m) && HasSent(r, m)
    ensures !Due(cfg, row, status, DayBefore) && !Due(cfg, row, status, DayOf) ==> r == status
  {
    match Decide(cfg, row, status)
    case None => status
    case Some(m) => Marked(status, m)
  }

  /** The lists xss[0], .., xss[n - 1] one after the other. */
  function Flatten<T>(xss: seq<seq<T>>, n: nat): (r: seq<T>)
    requires n <= |xss|
  {
    if n == 0 then [] else Flatten(xss, n - 1) + xss[n - 1]
  }

  /** The effects of each row, row by row. */
  function AllEffects(cfg: PassConfig, rows: seq<Row>, statuses: seq<string>): (r: seq<seq<Effect>>)
    requires |rows| == |statuses|
    ensures |r| == |rows|
    ensures forall i :: 0 <= i < |rows| ==> r[i] == RowEffects(cfg, i, rows[i], statuses[i])
  {
    seq(|rows|, i requires 0 <= i < |rows| => RowEffects(cfg, i, rows[i], statuses[i]))
  }

  /** The effects of the whole pass, in row order; each is about one of the
      data rows. */
  function PassTrace(cfg: PassConfig, rows: seq<Row>, statuses: seq<string>): (r: seq<Effect>)
    requires |rows| == |statuses|
    ensures forall j :: 0 <= j < |r| ==> r[j].row < |rows|
  {
    AllEffectsShaped(cfg, rows, statuses);
    FlattenRowsBelow(AllEffects(cfg, rows, statuses), |rows|);
    Flatten(AllEffects(cfg, rows, statuses), |rows|)
  }

  /** The number of e-mails among the effects. */
  function MailCount(es: seq<Effect>): (n: nat)
    ensures n <= |es|
  {
    if |es| == 0 then 0 else MailCount(es[..|es| - 1]) + (if es[|es| - 1].Mailed? then 1 else 0)
  }

  lemma MailThenWrite(a: Effect, b: Effect)
    requires a.Mailed? && b.Wrote?
    ensures MailCount([a, b]) == 1
  {
    assert [a, b][..1] == [a] && [a][..0] == [];
  }

  lemma {:induction false} MailCountAppend(a: seq<Effect>, b: seq<Effect>)
    ensures MailCount(a + b) == MailCount(a) + MailCount(b)
    decreases |b|
  {
    if |b| == 0 {
      assert a + b == a;
    } else {
      var c := b[..|b| - 1];
      assert (a + b)[..|a + b| - 1] == a + c;
      MailCountAppend(a, c);
    }
  }

  /** The status column after the pass. */
  function NewStatuses(cfg: PassConfig, rows: seq<Row>, statuses: seq<string>): (r: seq<string>)
    requires |rows| == |statuses|
    ensures |r| == |rows|
    ensures forall i :: 0 <= i < |rows| ==> r[i] == StatusAfter(cfg, rows[i], statuses[i])
  {
    seq(|rows|, i requires 0 <= i < |rows| => StatusAfter(cfg, rows[i], statuses[i]))
  }

  // The status column during the pass: the processed cells, then the rest.

  lemma UnprocessedCell<T>(done: seq<T>, start: seq<T>, i: nat)
    requires i < |done| == |start|
    ensures (done[..i] + start[i..])[i] == start[i]
  {
  }

  lemma ProcessCell<T>(done: seq<T>, start: seq<T>, i: nat, v: T)
    requires i < |done| == |start| && done[i] == v
    ensures (done[..i] + start[i..])[i := v] == done[..i + 1] + start[i + 1..]
  {
    assert (done[..i] + start[i..])[i := v] == done[..i + 1] + start[i + 1..];
  }

  lemma AllProcessed<T>(done: seq<T>, start: seq<T>)
    requires |done| == |start|
    ensures done[..|done|] + start[|start|..] == done
  {
  }

  /** What one turn of the loop of sendD1D0 does to the status column and the
      log, in terms of the whole pass. */
  lemma PassStep(cfg: PassConfig, rows: seq<Row>, start: seq<string>, after: seq<string>,
                 effs: seq<seq<Effect>>, i: nat)
    requires i < |rows| == |start|
    requires after == NewStatuses(cfg, rows, start) && effs == AllEffects(cfg, rows, start)
    ensures (after[..i] + start[i..])[i] == start[i]
    ensures (after[..i] + start[i..])[i := StatusAfter(cfg, rows[i], start[i])] == after[..i + 1] + start[i + 1..]
    ensures effs[i] == RowEffects(cfg, i, rows[i], start[i])
    ensures Flatten(effs, i + 1) == Flatten(effs, i) + effs[i]
  {
    UnprocessedCell(after, start, i);
    ProcessCell(after, start, i, StatusAfter(cfg, rows[i], start[i]));
  }

  /** The D-1 branch of the loop for a row whose event is tomorrow. */
  lemma SendsDayBefore(cfg: PassConfig, i: nat, row: Row, status: string, day: Date)
    requires EventDay(cfg, row) == Some(day) && cfg.to != "" && SameDay(day, NextDay(cfg.today))
    requires !Contains(Upper(Trim(status)), "D1SENT")
    ensures Decide(cfg, row, status) == Some(DayBefore)
    ensures StatusAfter(cfg, row, status) == AppendStatus(Upper(Trim(status)), "D1SENT")
    ensures RowEffects(cfg, i, row, status) ==
              [Mailed(i, DayBefore, Email(cfg.to, cfg.bcc, "Reminder: event is tomorrow", Body(day, CreateMessage(row, cfg.idx)))),
               Wrote(i, AppendStatus(Upper(Trim(status)), "D1SENT"))]
  {
    assert Due(cfg, row, status, DayBefore);
  }

  /** The D0 branch of the loop for a row whose event is today and whose D-1
      branch was not taken. */
  lemma SendsDayOf(cfg: PassConfig, i: nat, row: Row, status: string, day: Date)
    requires EventDay(cfg, row) == Some(day) && cfg.to != "" && SameDay(day, cfg.today)
    requires !Contains(Upper(Trim(status)), "D0SENT")
    ensures Decide(cfg, row, status) == Some(DayOf)
    ensures StatusAfter(cfg, row, status) == AppendStatus(Upper(Trim(status)), "D0SENT")
    ensures RowEffects(cfg, i, row, status) ==
              [Mailed(i, DayOf, Email(cfg.to, cfg.bcc, "Reminder: the event is today.", Body(day, CreateMessage(row, cfg.idx)))),
               Wrote(i, AppendStatus(Upper(Trim(status)), "D0SENT"))]
  {
    assert Due(cfg, row, status, DayOf);
  }

  /** A row without an event date, without a recipient, or for which neither
      branch applies is left alone. */
  lemma SendsNothing(cfg: PassConfig, i: nat, row: Row, status: string)
    requires EventDay(cfg, row).None? || cfg.to == "" ||
             (EventDay(cfg, row).Some? &&
              !(SameDay(EventDay(cfg, row).value, NextDay(cfg.today)) && !Contains(Upper(Trim(status)), "D1SENT")) &&
              !(SameDay(EventDay(cfg, row).value, cfg.today) && !Contains(Upper(Trim(status)), "D0SENT")))
    ensures Decide(cfg, row, status).None?
    ensures StatusAfter(cfg, row, status) == status && RowEffects(cfg, i, row, status) == []
  {
  }

  // What the pass as a whole promises.

  lemma {:induction false} FlattenEmpty<T>(xss: seq<seq<T>>, n: nat)
    requires n <= |xss| && forall k :: 0 <= k < n ==> xss[k] == []
    ensures Flatten(xss, n) == []
  {
    if n > 0 {
      FlattenEmpty(xss, n - 1);
    }
  }

  lemma {:induction false} FlattenMember<T>(xss: seq<seq<T>>, n: nat, x: T)
    requires n <= |xss| && x in Flatten(xss, n)
    ensures exists k :: 0 <= k < n && x in xss[k]
  {
    if n > 0 && x !in xss[n - 1] {
      FlattenMember(xss, n - 1, x);
    }
  }

  lemma {:induction false} FlattenHas<T>(xss: seq<seq<T>>, n: nat, k: nat, x: T)
    requires k < n <= |xss| && x in xss[k]
    ensures x in Flatten(xss, n)
  {
    if k < n - 1 {
      FlattenHas(xss, n - 1, k, x);
    }
  }

  /** A row that has had its reminder is not due for any reminder on the same
      day: D-1 and D0 are due on different days, and the token just written is
      read back. */
  lemma RerunSendsNothing(cfg: PassConfig, row: Row, status: string)
    ensures Decide(cfg, row, StatusAfter(cfg, row, status)).None?
  {
    match Decide(cfg, row, status)
    case None =>
    case Some(m) =>
      assert HasSent(Marked(status, m), m);
  }

  /** Running the pass a second time the same day sends nothing and writes
      nothing: the status column is already what the pass makes of it. */
  lemma RerunIsQuiet(cfg: PassConfig, rows: seq<Row>, statuses: seq<string>)
    requires |rows| == |statuses|
    ensures PassTrace(cfg, rows, NewStatuses(cfg, rows, statuses)) == []
    ensures NewStatuses(cfg, rows, NewStatuses(cfg, rows, statuses)) == NewStatuses(cfg, rows, statuses)
  {
    var after := NewStatuses(cfg, rows, statuses);
    var effs := AllEffects(cfg, rows, after);
    forall k | 0 <= k < |rows|
      ensures effs[k] == [] && StatusAfter(cfg, rows[k], after[k]) == after[k]
    {
      RerunSendsNothing(cfg, rows[k], statuses[k]);
    }
    FlattenEmpty(effs, |rows|);
  }

  /** Without a recipient (CONFIG.emailTo blank) no row is mailed or written. */
  lemma NoRecipientNoMail(cfg: PassConfig, rows: seq<Row>, statuses: seq<string>)
    requires |rows| == |statuses| && cfg.to == ""
    ensures PassTrace(cfg, rows, statuses) == []
    ensures NewStatuses(cfg, rows, statuses) == statuses
  {
    var effs := AllEffects(cfg, rows, statuses);
    forall k | 0 <= k < |rows|
      ensures effs[k] == []
    {
      assert Decide(cfg, rows[k], statuses[k]).None?;
    }
    FlattenEmpty(effs, |rows|);
  }

  /** The e-mail among one row's effects is a due reminder, followed by the
      write of its token. */
  lemma RowMailIsDue(cfg: PassConfig, i: nat, row: Row, status: string, e: Effect)
    requires e in RowEffects(cfg, i, row, status) && e.Mailed?
    ensures e.row == i && Due(cfg, row, status, e.milestone)
    ensures e.email == Reminder(e.milestone, cfg.to, cfg.bcc, DueDay(e.milestone, cfg.today), row, cfg.idx)
    ensures |RowEffects(cfg, i, row, status)| == 2 && RowEffects(cfg, i, row, status)[1] == Wrote(i, Marked(status, e.milestone))
  {
    var es := RowEffects(cfg, i, row, status);
    assert |es| == 2;
    var m := Decide(cfg, row, status).value;
    RowEffectsWhenDecided(cfg, i, row, status, m);
    InPair(e, es[0], es[1]);
    assert e == es[0];
  }

  lemma InPair<T>(x: T, a: T, b: T)
    requires x in [a, b]
    ensures x == a || x == b
  {
  }

  /** A decided reminder is the row's whole effect: its e-mail, then its mark. */
  lemma RowEffectsWhenDecided(cfg: PassConfig, i: nat, row: Row, status: string, m: Milestone)
    requires Decide(cfg, row, status) == Some(m)
    ensures RowEffects(cfg, i, row, status)
            == [Mailed(i, m, Reminder(m, cfg.to, cfg.bcc, DueDay(m, cfg.today), row, cfg.idx)), Wrote(i, Marked(status, m))]
  {
  }

  /** Only due reminders are sent, each to the configured recipients with the
      row's own message, and each followed in the log by its status write. */
  lemma MailedOnlyWhenDue(cfg: PassConfig, rows: seq<Row>, statuses: seq<string>, e: Effect)
    requires |rows| == |statuses| && e in PassTrace(cfg, rows, statuses) && e.Mailed?
    ensures e.row < |rows| && Due(cfg, rows[e.row], statuses[e.row], e.milestone)
    ensures e.email == Reminder(e.milestone, cfg.to, cfg.bcc, DueDay(e.milestone, cfg.today), rows[e.row], cfg.idx)
    ensures Wrote(e.row, Marked(statuses[e.row], e.milestone)) in PassTrace(cfg, rows, statuses)
  {
    var effs := AllEffects(cfg, rows, statuses);
    FlattenMember(effs, |rows|, e);
    var k :| 0 <= k < |rows| && e in effs[k];
    RowMailIsDue(cfg, k, rows[k], statuses[k], e);
    FlattenHas(effs, |rows|, k, effs[k][1]);
  }

  /** Every due reminder is sent, and its token written to the row. */
  lemma MailedWhenDue(cfg: PassConfig, rows: seq<Row>, statuses: seq<string>, i: nat, m: Milestone)
    requires i < |rows| == |statuses| && Due(cfg, rows[i], statuses[i], m)
    ensures Mailed(i, m, Reminder(m, cfg.to, cfg.bcc, DueDay(m, cfg.today), rows[i], cfg.idx)) in PassTrace(cfg, rows, statuses)
    ensures Wrote(i, Marked(statuses[i], m)) in PassTrace(cfg, rows, statuses)
    ensures NewStatuses(cfg, rows, statuses)[i] == Marked(statuses[i], m)
  {
    var effs := AllEffects(cfg, rows, statuses);
    FlattenHas(effs, |rows|, i, effs[i][0]);
    FlattenHas(effs, |rows|, i, effs[i][1]);
  }

  /** The effects of row i are nothing, or its e-mail and then its status write. */
  predicate RowShaped(es: seq<Effect>, i: nat) {
    es == [] || (|es| == 2 && es[0].Mailed? && es[0].row == i && es[1].Wrote? && es[1].row == i)
  }

  predicate AllShaped(effs: seq<seq<Effect>>, n: nat)
    requires n <= |effs|
  {
    forall k :: 0 <= k < n ==> RowShaped(effs[k], k)
  }

  lemma RowEffectsShaped(cfg: PassConfig, i: nat, row: Row, status: string)
    ensures RowShaped(RowEffects(cfg, i, row, status), i)
  {
    if Decide(cfg, row, status).Some? {
      RowEffectsWhenDecided(cfg, i, row, status, Decide(cfg, row, status).value);
    }
  }

  lemma AllEffectsShaped(cfg: PassConfig, rows: seq<Row>, statuses: seq<string>)
    requires |rows| == |statuses|
    ensures AllShaped(AllEffects(cfg, rows, statuses), |rows|)
  {
    var effs := AllEffects(cfg, rows, statuses);
    forall k | 0 <= k < |rows|
      ensures RowShaped(effs[k], k)
    {
      RowEffectsShaped(cfg, k, rows[k], statuses[k]);
    }
  }

  /** Every effect of the first n rows belongs to one of them. */
  lemma {:induction false} FlattenRowsBelow(effs: seq<seq<Effect>>, n: nat)
    requires n <= |effs| && AllShaped(effs, n)
    ensures forall j :: 0 <= j < |Flatten(effs, n)| ==> Flatten(effs, n)[j].row < n
  {
    if n > 0 {
      FlattenRowsBelow(effs, n - 1);
      var prev := Flatten(effs, n - 1);
      assert Flatten(effs, n) == prev + effs[n - 1];
      forall j | 0 <= j < |Flatten(effs, n)|
        ensures Flatten(effs, n)[j].row < n
      {
        if j < |prev| {
          assert Flatten(effs, n)[j] == prev[j];
        } else {
          assert Flatten(effs, n)[j] == effs[n - 1][j - |prev|];
        }
      }
    }
  }

  /** Of two e-mails in the log of the first n rows, the earlier one is for an
      earlier row. */
  lemma {:induction false} FlattenMailsOrdered(effs: seq<seq<Effect>>, n: nat, p: nat, q: nat)
    requires n <= |effs| && AllShaped(effs, n)
    requires p < q < |Flatten(effs, n)| && Flatten(effs, n)[p].Mailed? && Flatten(effs, n)[q].Mailed?
    ensures Flatten(effs, n)[p].row < Flatten(effs, n)[q].row
  {
    var prev := Flatten(effs, n - 1);
    var last := effs[n - 1];
    assert Flatten(effs, n) == prev + last;
    if q < |prev| {
      assert Flatten(effs, n)[p] == prev[p] && Flatten(effs, n)[q] == prev[q];
      FlattenMailsOrdered(effs, n - 1, p, q);
    } else {
      assert Flatten(effs, n)[q] == last[q - |prev|];
      assert q - |prev| == 0;
      FlattenRowsBelow(effs, n - 1);
      assert Flatten(effs, n)[p] == prev[p];
    }
  }

  /** The e-mails of a pass go out in row order, at most one per row: no row
      gets two reminders in one run. */
  lemma OneSendPerRow(cfg: PassConfig, rows: seq<Row>, statuses: seq<string>, p: nat, q: nat)
    requires |rows| == |statuses|
    requires p < q < |PassTrace(cfg, rows, statuses)|
    requires PassTrace(cfg, rows, statuses)[p].Mailed? && PassTrace(cfg, rows, statuses)[q].Mailed?
    ensures PassTrace(cfg, rows, statuses)[p].row < PassTrace(cfg, rows, statuses)[q].row
  {
    AllEffectsShaped(cfg, rows, statuses);
    FlattenMailsOrdered(AllEffects(cfg, rows, statuses), |rows|, p, q);
  }

  /** In the log of the first n rows, an e-mail is the first effect of its row
      and the next entry is the second. */
  lemma {:induction false} FlattenMailFollowed(effs: seq<seq<Effect>>, n: nat, p: nat)
    requires n <= |effs| && AllShaped(effs, n)
    requires p < |Flatten(effs, n)| && Flatten(effs, n)[p].Mailed?
    ensures p + 1 < |Flatten(effs, n)| && Flatten(effs, n)[p].row < n && |effs[Flatten(effs, n)[p].row]| == 2
    ensures Flatten(effs, n)[p] == effs[Flatten(effs, n)[p].row][0]
    ensures Flatten(effs, n)[p + 1] == effs[Flatten(effs, n)[p].row][1]
  {
    var prev := Flatten(effs, n - 1);
    var last := effs[n - 1];
    assert Flatten(effs, n) == prev + last;
    if p + 1 < |prev| {
      assert Flatten(effs, n)[p] == prev[p] && Flatten(effs, n)[p + 1] == prev[p + 1];
      FlattenMailFollowed(effs, n - 1, p);
    } else if p < |prev| {
      assert Flatten(effs, n)[p] == prev[p];
      FlattenMailFollowed(effs, n - 1, p);
    } else {
      assert Flatten(effs, n)[p] == last[p - |prev|];
      assert RowShaped(last, n - 1);
      assert p - |prev| == 0;
      assert Flatten(effs, n)[p + 1] == last[1];
    }
  }

  /** Each e-mail in the log of a pass is followed at once by the write of its
      token to the same row: the cell is set right after sendEmail. */
  lemma MailThenItsWrite(cfg: PassConfig, rows: seq<Row>, statuses: seq<string>, p: nat)
    requires |rows| == |statuses|
    requires p < |PassTrace(cfg, rows, statuses)| && PassTrace(cfg, rows, statuses)[p].Mailed?
    ensures p + 1 < |PassTrace(cfg, rows, statuses)|
    ensures PassTrace(cfg, rows, statuses)[p].row < |rows|
    ensures PassTrace(cfg, rows, statuses)[p + 1]
            == Wrote(PassTrace(cfg, rows, statuses)[p].row,
                     Marked(statuses[PassTrace(cfg, rows, statuses)[p].row], PassTrace(cfg, rows, statuses)[p].milestone))
  {
    var effs := AllEffects(cfg, rows, statuses);
    AllEffectsShaped(cfg, rows, statuses);
    FlattenMailFollowed(effs, |rows|, p);
    var k := Flatten(effs, |rows|)[p].row;
    MailedRowWrite(cfg, k, rows[k], statuses[k], effs[k]);
  }

  lemma MailedRowWrite(cfg: PassConfig, i: nat, row: Row, status: string, es: seq<Effect>)
    requires es == RowEffects(cfg, i, row, status) && |es| == 2 && es[0].Mailed?
    ensures es[1] == Wrote(i, Marked(status, es[0].milestone))
  {
    RowMailIsDue(cfg, i, row, status, es[0]);
  }

  /** A row for which no reminder is due is neither mailed nor written, and
      keeps its status text. */
  lemma NotDueUntouched(cfg: PassConfig, rows: seq<Row>, statuses: seq<string>, i: nat)
    requires i < |rows| == |statuses|
    requires !Due(cfg, rows[i], statuses[i], DayBefore) && !Due(cfg, rows[i], statuses[i], DayOf)
    ensures NewStatuses(cfg, rows, statuses)[i] == statuses[i]
    ensures forall e :: e in PassTrace(cfg, rows, statuses) ==> e.row != i
  {
    var effs := AllEffects(cfg, rows, statuses);
    AllEffectsShaped(cfg, rows, statuses);
    NotDueNotDecided(cfg, rows[i], statuses[i]);
    assert |effs[i]| == 0;
    EmptyRowUnmentioned(effs, |rows|, i);
  }

  /** In shaped rows, an effect of the flattened list mentions no row whose
      own list is empty. */
  lemma EmptyRowUnmentioned(effs: seq<seq<Effect>>, n: nat, i: nat)
    requires i < n <= |effs| && AllShaped(effs, n) && |effs[i]| == 0
    ensures forall e :: e in Flatten(effs, n) ==> e.row != i
  {
    forall e | e in Flatten(effs, n)
      ensures e.row != i
    {
      FlattenMember(effs, n, e);
      var k :| 0 <= k < n && e in effs[k];
      InShapedRow(effs[k], k, e);
    }
  }

  lemma InShapedRow(es: seq<Effect>, i: nat, e: Effect)
    requires RowShaped(es, i) && e in es
    ensures e.row == i
  {
    InPair(e, es[0], es[1]);
  }

  lemma NotDueNotDecided(cfg: PassConfig, row: Row, status: string)
    requires !Due(cfg, row, status, DayBefore) && !Due(cfg, row, status, DayOf)
    ensures Decide(cfg, row, status).None? && StatusAfter(cfg, row, status) == status
  {
  }

  /** Which rows have a reminder due. */
  function DueRows(cfg: PassConfig, rows: seq<Row>, statuses: seq<string>): (due: seq<bool>)
    requires |rows| == |statuses|
    ensures |due| == |rows|
    ensures forall k :: 0 <= k < |rows| ==> (due[k] <==> Decide(cfg, rows[k], statuses[k]).Some?)
  {
    seq(|rows|, k requires 0 <= k < |rows| => Decide(cfg, rows[k], statuses[k]).Some?)
  }

  /** The number of true entries among bs[0], .., bs[n - 1]. */
  function CountTrue(bs: seq<bool>, n: nat): (c: nat)
    requires n <= |bs|
    ensures c <= n
  {
    if n == 0 then 0 else CountTrue(bs, n - 1) + (if bs[n - 1] then 1 else 0)
  }

  lemma {:induction false} MailCountOfFlatten(effs: seq<seq<Effect>>, due: seq<bool>, n: nat)
    requires n <= |effs| && n <= |due|
    requires forall k :: 0 <= k < n ==> MailCount(effs[k]) == if due[k] then 1 else 0
    ensures MailCount(Flatten(effs, n)) == CountTrue(due, n)
  {
    if n > 0 {
      MailCountOfFlatten(effs, due, n - 1);
      MailCountAppend(Flatten(effs, n - 1), effs[n - 1]);
    }
  }

  /** The count the script logs is the number of rows that had a reminder due. */
  lemma SentCountsDueRows(cfg: PassConfig, rows: seq<Row>, statuses: seq<string>)
    requires |rows| == |statuses|
    ensures MailCount(PassTrace(cfg, rows, statuses)) == CountTrue(DueRows(cfg, rows, statuses), |rows|)
  {
    var effs := AllEffects(cfg, rows, statuses);
    var due := DueRows(cfg, rows, statuses);
    forall k | 0 <= k < |rows|
      ensures MailCount(effs[k]) == if due[k] then 1 else 0
    {
      assert effs[k] == RowEffects(cfg, k, rows[k], statuses[k]);
    }
    MailCountOfFlatten(effs, due, |rows|);
  }

  /** A row whose event is tomorrow and whose status is clean gets D-1 today
      and, after that status is written, D0 tomorrow. */
  lemma DayBeforeThenDayOf(cfg: PassConfig, row: Row, status: string)
    requires cfg.to != "" && EventDay(cfg, row) == Some(NextDay(cfg.today))
    requires !HasSent(status, DayBefore) && !HasSent(status, DayOf)
    ensures Decide(cfg, row, status) == Some(DayBefore)
    ensures Decide(cfg.(today := NextDay(cfg.today)), row, StatusAfter(cfg, row, status)) == Some(DayOf)
  {
    assert Due(cfg, row, status, DayBefore);
    MarkedKeepsAbsent(status, DayBefore, DayOf);
    var next := cfg.(today := NextDay(cfg.today));
    assert EventDay(next, row) == EventDay(cfg, row);
    assert Due(next, row, Marked(status, DayBefore), DayOf);
  }

  /** sendD1D0 from the header check to the logged count: settle the layout,
      then run the loop over the rows with their status texts. Returns the
      count, the status column afterwards, whether the status header was
      written to the sheet, and the error the script throws, if any. */
  method SendD1D0(settings: Settings, names: FieldNames, headers: seq<string>, rows: seq<Row>,
                  statusTexts: seq<string>, now: Date, fallback: string -> Option<Date>)
    returns (sent: nat, written: seq<string>, headerWritten: bool, thrown: Option<HeaderError>)
    requires |statusTexts| == |rows|
    ensures var p := Prepare(settings, names, headers, |rows|, now, fallback);
            p.Ready? ==> sent == MailCount(PassTrace(p.cfg, rows, statusTexts)) &&
                         written == NewStatuses(p.cfg, rows, statusTexts) && thrown == None
    ensures var p := Prepare(settings, names, headers, |rows|, now, fallback);
            !p.Ready? ==> sent == 0 && written == statusTexts &&
                          thrown == (if p.HeaderFailure? then Some(p.error) else None)
    ensures var p := Prepare(settings, names, headers, |rows|, now, fallback);
            headerWritten <==> !p.NoRows? && p.addedStatusHeader
  {
    var p := Prepare(settings, names, headers, |rows|, now, fallback);
    if p.NoRows? {
      return 0, statusTexts, false, None;
    }
    if p.HeaderFailure? {
      return 0, statusTexts, p.addedStatusHeader, Some(p.error);
    }
    var pass := new ReminderPass(p.cfg, rows, statusTexts);
    sent := pass.Run();
    written := pass.status[..];
    headerWritten := p.addedStatusHeader;
    thrown := None;
  }

  /** One run of the loop of sendD1D0 over the data rows, against the status
      column (the text of each row's status cell) and a log of the e-mails sent
      and cells written. */
  class ReminderPass {
    const cfg: PassConfig
    const rows: seq<Row>
    const status: array<string>
    ghost var trace: seq<Effect>

    constructor (cfg: PassConfig, rows: seq<Row>, statusTexts: seq<string>)
      requires |statusTexts| == |rows|
      ensures this.cfg == cfg && this.rows == rows
      ensures status.Length == |rows| && status[..] == statusTexts && trace == []
      ensures fresh(status)
    {
      this.cfg := cfg;
      this.rows := rows;
      this.status := new string[|statusTexts|](i requires 0 <= i < |statusTexts| => statusTexts[i]);
      this.trace := [];
    }

    /** The body of the loop for row i, up to its effects: the e-mail to send and
        the status text to write, as RowEffects lists them, and the status text
        the row has afterwards. `return` stands for the script's `continue`. */
    method RowStep(i: nat, row: Row, current: string, tomorrow: Date) returns (es: seq<Effect>, newStatus: string)
      requires tomorrow == NextDay(cfg.today)
      ensures es == RowEffects(cfg, i, row, current)
      ensures newStatus == StatusAfter(cfg, row, current)
      ensures |es| == 0 ==> newStatus == current
      ensures |es| != 0 <==> Decide(cfg, row, current).Some?
    {
      es, newStatus := [], current;
      var eventDateVal := ParseDateIfNeeded(CellAt(row.values, cfg.eventCol), cfg.fallback);
      if eventDateVal.None? {
        SendsNothing(cfg, i, row, current);
        return;
      }
      var eventDay := StartOfDay(eventDateVal.value);
      var statusVal := Upper(Trim(current));
      var isD0 := SameDay(eventDay, cfg.today);
      var isD1 := SameDay(eventDay, tomorrow);
      if cfg.to == "" {
        SendsNothing(cfg, i, row, current);
        return;
      }
      var msgBase := CreateMessage(row, cfg.idx);
      if isD1 && !Contains(statusVal, "D1SENT") {
        SendsDayBefore(cfg, i, row, current, eventDay);
        var email := Email(cfg.to, cfg.bcc, "Reminder: event is tomorrow", Body(eventDay, msgBase));
        newStatus := AppendStatus(statusVal, "D1SENT");
        es := [Mailed(i, DayBefore, email), Wrote(i, newStatus)];
        return;
      }
      if isD0 && !Contains(statusVal, "D0SENT") {
        SendsDayOf(cfg, i, row, current, eventDay);
        var email := Email(cfg.to, cfg.bcc, "Reminder: the event is today.", Body(eventDay, msgBase));
        newStatus := AppendStatus(statusVal, "D0SENT");
        es := [Mailed(i, DayOf, email), Wrote(i, newStatus)];
        return;
      }
      SendsNothing(cfg, i, row, current);
    }

    /** Row i of the loop: the e-mail goes out (MailApp.sendEmail) and then the
        status cell is written; a row without a reminder is left untouched. */
    method ProcessRow(i: nat, tomorrow: Date, ghost current: string) returns (mailed: bool)
      requires i < |rows| == status.Length && tomorrow == NextDay(cfg.today)
      requires status[i] == current
      modifies this, status
      ensures mailed <==> Decide(cfg, rows[i], current).Some?
      ensures status[..] == old(status[..])[i := StatusAfter(cfg, rows[i], current)]
      ensures trace == old(trace) + RowEffects(cfg, i, rows[i], current)
    {
      var es, newStatus := RowStep(i, rows[i], status[i], tomorrow);
      mailed := Record(i, es, newStatus);
    }

    /** The effects of row i take place: when there are any, they're added to
        the trace and the new status is written to cell i. */
    method Record(i: nat, es: seq<Effect>, newStatus: string) returns (mailed: bool)
      requires i < status.Length && (|es| == 0 ==> newStatus == status[i])
      modifies this, status
      ensures mailed <==> |es| != 0
      ensures status[..] == old(status[..])[i := newStatus]
      ensures trace == old(trace) + es
    {
      mailed := |es| != 0;
      if mailed {
        trace := trace + es;
        status[i] := newStatus;
      } else {
        assert es == [] && status[..] == status[..][i := newStatus];
      }
    }

    /** One turn of the loop of sendD1D0, stated against the whole pass: the
        rows before i are processed, the rest are as they were. */
    method Advance(i: nat, tomorrow: Date, ghost start: seq<string>, ghost after: seq<string>,
                   ghost effs: seq<seq<Effect>>, ghost trace0: seq<Effect>) returns (mailed: bool)
      requires i < |rows| == status.Length == |start| && tomorrow == NextDay(cfg.today)
      requires after == NewStatuses(cfg, rows, start) && effs == AllEffects(cfg, rows, start)
      requires status[..] == after[..i] + start[i..]
      requires trace == trace0 + Flatten(effs, i)
      modifies this, status
      ensures status[..] == after[..i + 1] + start[i + 1..]
      ensures trace == trace0 + Flatten(effs, i + 1)
      ensures MailCount(Flatten(effs, i + 1)) == MailCount(Flatten(effs, i)) + (if mailed then 1 else 0)
    {
      PassStep(cfg, rows, start, after, effs, i);
      AppendAssoc(trace0, Flatten(effs, i), effs[i]);
      MailCountAppend(Flatten(effs, i), effs[i]);
      mailed := ProcessRow(i, tomorrow, start[i]);
    }

    /** The loop of sendD1D0 over all data rows; returns the number of e-mails
        sent (the count the script logs). */
    method Run() returns (sent: nat)
      requires status.Length == |rows|
      modifies this, status
      ensures status[..] == NewStatuses(cfg, rows, old(status[..]))
      ensures trace == old(trace) + PassTrace(cfg, rows, old(status[..]))
      ensures sent == MailCount(PassTrace(cfg, rows, old(status[..])))
    {
      ghost var start := status[..];
      ghost var after := NewStatuses(cfg, rows, start);
      ghost var effs := AllEffects(cfg, rows, start);
      var tomorrow := AddDays(cfg.today, 1);
      assert tomorrow == NextDay(cfg.today);
      sent := 0;
      for i := 0 to |rows|
        invariant status[..] == after[..i] + start[i..]
        invariant trace == old(trace) + Flatten(effs, i)
        invariant sent == MailCount(Flatten(effs, i))
      {
        var mailed := Advance(i, tomorrow, start, after, effs, old(trace));
        if mailed {
          sent := sent + 1;
        }
      }
      AllProcessed(after, start);
    }
  }
}

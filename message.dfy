/** The reminder e-mail: safe, createMessage and the subject and body sendD1D0
    wraps around the message. */
module Message {
  import opened Text
  import opened Calendar
  import opened Sheet
  import opened Clock
  import opened Headers
  import opened StatusLedger

  /** safe(v): "" for a missing value, MM-dd-yyyy for a date, the trimmed text
      of anything else. */
  function Safe(v: Cell): (r: string)
    ensures Trimmed(r)
    ensures v.Blank? ==> r == ""
    ensures v.DateCell? ==> r == FormatDate(v.day)
    ensures !v.DateCell? ==> r == Trim(CellString(v)) && (r == "" <==> AllSpace(CellString(v)))
  {
    match v
    case Blank => ""
    case DateCell(d) => FormatDate(d)
    case _ => Trim(CellString(v))
  }

  /** parseTimeTo24h(hourDisplay) || hourDisplay: the 24-hour time when the text
      is a clock time, the text itself otherwise. */
  function FinalHour(hourDisplay: string): (r: string)
    ensures IsAmPmClock(hourDisplay) || IsBareClock(hourDisplay) ==> r == ParseTimeTo24h(hourDisplay) && r != ""
    ensures !(IsAmPmClock(hourDisplay) || IsBareClock(hourDisplay)) ==> r == hourDisplay
  {
    RecognizesOnlyClocks(hourDisplay);
    var h := ParseTimeTo24h(hourDisplay);
    if h != "" then h else hourDisplay
  }

  /** The hour field as the sheet shows it, trimmed. */
  function HourDisplay(row: Row, idx: FieldIndex): (r: string)
    ensures Trimmed(r)
  {
    Trim(DisplayAt(row.display, idx.need))
  }

  /** `['x']`, the way every field is quoted in the message. */
  function Quoted(x: string): string {
    "['" + x + "']"
  }

  /** The template of createMessage around its five quoted fields. */
  function Template(head: string, o: string, c: string, y: string, tail: string): string {
    head + "Using that " + o + " with that " + c + " and " + y + " " + tail
  }

  /** The template starts with its head, ends with its tail and contains each
      of the three middle fields. */
  lemma TemplateParts(head: string, o: string, c: string, y: string, tail: string)
    ensures IsPrefix(head, Template(head, o, c, y, tail))
    ensures IsSuffix(tail, Template(head, o, c, y, tail))
    ensures Contains(Template(head, o, c, y, tail), o)
    ensures Contains(Template(head, o, c, y, tail), c)
    ensures Contains(Template(head, o, c, y, tail), y)
  {
    var p1 := head + "Using that ";
    var p2 := p1 + o;
    var p3 := p2 + " with that ";
    var p4 := p3 + c;
    var p5 := p4 + " and ";
    var p6 := p5 + y;
    var p7 := p6 + " ";
    var r := p7 + tail;
    assert IsPrefix(head, r) by {
      assert IsPrefix(head, head);
      PrefixExtended(head, head, "Using that ");
      PrefixExtended(head, p1, o);
      PrefixExtended(head, p2, " with that ");
      PrefixExtended(head, p3, c);
      PrefixExtended(head, p4, " and ");
      PrefixExtended(head, p5, y);
      PrefixExtended(head, p6, " ");
      PrefixExtended(head, p7, tail);
    }
    assert Contains(r, o) by {
      ContainsEnding(p1, o);
      ContainsExtended(p2, " with that ", o);
      ContainsExtended(p3, c, o);
      ContainsExtended(p4, " and ", o);
      ContainsExtended(p5, y, o);
      ContainsExtended(p6, " ", o);
      ContainsExtended(p7, tail, o);
    }
    assert Contains(r, c) by {
      ContainsEnding(p3, c);
      ContainsExtended(p4, " and ", c);
      ContainsExtended(p5, y, c);
      ContainsExtended(p6, " ", c);
      ContainsExtended(p7, tail, c);
    }
    assert Contains(r, y) by {
      ContainsEnding(p5, y);
      ContainsExtended(p6, " ", y);
      ContainsExtended(p7, tail, y);
    }
    assert IsSuffix(tail, r);
  }

  /** createMessage(row, rowDisplay, idx): it opens with the quoted `any`
      field, ends with the quoted 24-hour time and quotes the `other`, `column`
      and `you` fields. ("Shcedule" is spelled as the script spells it.) */
  function CreateMessage(row: Row, idx: FieldIndex): (r: string)
    ensures IsPrefix("Shcedule for " + Quoted(Safe(CellAt(row.values, idx.any))) + ".\n", r)
    ensures IsSuffix("considering " + Quoted(FinalHour(HourDisplay(row, idx))) + ".", r)
    ensures Contains(r, Quoted(Safe(CellAt(row.values, idx.other))))
    ensures Contains(r, Quoted(Safe(CellAt(row.values, idx.column))))
    ensures Contains(r, Quoted(Safe(CellAt(row.values, idx.you))))
  {
    var head := "Shcedule for " + Quoted(Safe(CellAt(row.values, idx.any))) + ".\n";
    var o := Quoted(Safe(CellAt(row.values, idx.other)));
    var c := Quoted(Safe(CellAt(row.values, idx.column)));
    var y := Quoted(Safe(CellAt(row.values, idx.you)));
    var tail := "considering " + Quoted(FinalHour(HourDisplay(row, idx))) + ".";
    TemplateParts(head, o, c, y, tail);
    Template(head, o, c, y, tail)
  }

  /** The subject of each reminder. */
  function Subject(m: Milestone): string {
    match m
    case DayBefore => "Reminder: event is tomorrow"
    case DayOf => "Reminder: the event is today."
  }

  /** The two reminders have different subjects, so the subject tells which
      one a mail is. */
  lemma SubjectTellsMilestone(m: Milestone, n: Milestone)
    ensures Subject(m) == Subject(n) <==> m == n
  {
    assert |Subject(DayBefore)| != |Subject(DayOf)|;
  }

  /** The body around the message: the greeting with the event day, then the
      message, then the signature. It names the event day and carries the
      whole message. */
  function Body(day: Date, message: string): (r: string)
    ensures Contains(r, FormatDate(day)) && Contains(r, message)
  {
    var a := "Hi,\n\nThis is a reminder (";
    var b := ").\n\n";
    var c := "\n\n\U{2014} Email sent automatically.";
    var f := FormatDate(day);
    var p1 := a + f;
    var p2 := p1 + b;
    var p3 := p2 + message;
    assert Contains(p3 + c, f) by {
      ContainsEnding(a, f);
      ContainsExtended(p1, b, f);
      ContainsExtended(p2, message, f);
      ContainsExtended(p3, c, f);
    }
    assert Contains(p3 + c, message) by {
      ContainsEnding(p2, message);
      ContainsExtended(p3, c, message);
    }
    p3 + c
  }

  /** One e-mail as MailApp.sendEmail receives it. */
  datatype Email = Email(to: string, bcc: string, subject: string, body: string)

  /** The reminder m for an event on day, built from the row's fields. */
  function Reminder(m: Milestone, to: string, bcc: string, day: Date, row: Row, idx: FieldIndex): (e: Email)
    ensures e.to == to && e.bcc == bcc && e.subject == Subject(m)
    ensures Contains(e.body, FormatDate(day)) && Contains(e.body, CreateMessage(row, idx))
  {
    Email(to, bcc, Subject(m), Body(day, CreateMessage(row, idx)))
  }

  /** Each reminder goes to the given recipients under its milestone's
      subject, and its body names the event day and carries the row's message
      with the row's fields. */
  lemma ReminderMentions(m: Milestone, to: string, bcc: string, day: Date, row: Row, idx: FieldIndex)
    ensures var e := Reminder(m, to, bcc, day, row, idx);
            e.to == to && e.bcc == bcc && e.subject == Subject(m) &&
            Contains(e.body, FormatDate(day)) && Contains(e.body, CreateMessage(row, idx))
    ensures var e := Reminder(m, to, bcc, day, row, idx);
            Contains(e.body, Quoted(Safe(CellAt(row.values, idx.other)))) &&
            Contains(e.body, Quoted(Safe(CellAt(row.values, idx.column)))) &&
            Contains(e.body, Quoted(Safe(CellAt(row.values, idx.you))))
  {
    var msg := CreateMessage(row, idx);
    var e := Reminder(m, to, bcc, day, row, idx);
    var b := "Hi,\n\nThis is a reminder (" + FormatDate(day) + ").\n\n";
    var t := "\n\n\U{2014} Email sent automatically.";
    assert e.body == b + msg + t;
    ContainsWithin(b, msg, t, Quoted(Safe(CellAt(row.values, idx.other))));
    ContainsWithin(b, msg, t, Quoted(Safe(CellAt(row.values, idx.column))));
    ContainsWithin(b, msg, t, Quoted(Safe(CellAt(row.values, idx.you))));
  }
}

/** The values the script reads from the sheet: the typed grid of getValues()
    and the text grid of getDisplayValues(). */
module Sheet {
  import opened Text
  import opened Calendar

  /** One cell of getValues(). A date-typed cell is represented by its calendar
      day in the configured timezone, which is all the script takes from it. */
  datatype Cell = Blank | Str(text: string) | Num(number: int) | Logical(truth: bool) | DateCell(day: Date)

  /** One data row: its typed values and the text a person sees in each cell. */
  datatype Row = Row(values: seq<Cell>, display: seq<string>)

  /** String(v ?? "") for a cell that is not a date: a text as it is, a boolean
      as "true" or "false", and a number as decimal digits without leading
      zeros, after a minus sign when negative, that read back as the number. */
  function CellString(v: Cell): (r: string)
    requires !v.DateCell?
    ensures v.Blank? ==> r == ""
    ensures v.Str? ==> r == v.text
    ensures v.Num? && v.number >= 0 ==> AllDigits(r) && Value(r) == v.number
    ensures v.Num? && v.number >= 0 ==> (|r| > 1 ==> r[0] != '0')
    ensures v.Num? && v.number < 0 ==> |r| >= 2 && r[0] == '-' && AllDigits(r[1..]) && Value(r[1..]) == -v.number
    ensures v.Num? && v.number < 0 ==> (|r| > 2 ==> r[1] != '0')
    ensures v.Logical? ==> r == if v.truth then "true" else "false"
  {
    match v
    case Blank => ""
    case Str(t) => t
    case Num(n) =>
      var r := IntToString(n);
      assert n < 0 ==> r[1..] == Dec(-n);
      r
    case Logical(b) => if b then "true" else "false"
  }

  /** row[i]: an index past the end reads undefined, which every caller treats
      like an empty cell. */
  function CellAt(values: seq<Cell>, i: nat): Cell {
    if i < |values| then values[i] else Blank
  }

  /** rowDisplay[i] ?? "". */
  function DisplayAt(display: seq<string>, i: nat): string {
    if i < |display| then display[i] else ""
  }
}

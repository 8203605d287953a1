/** The history table: one eight-cell row per record, or a single message row when loading failed. */
module Table {
  import opened Wrappers
  import opened Records
  import opened NumberText
  import opened PercentText

  /** One `<td>`: its text, its class, and the two inline styles the page uses. */
  datatype Cell = Cell(text: string, cls: string, centered: bool, emphasized: bool)

  /** One `<tr>` of the table body. */
  datatype TableRow = DataRow(cells: seq<Cell>) | MessageRow(message: string, colspan: nat)

  /** The table has eight columns: Date, WALCL, WDTGAL, RRPONTSYD, NetLiquidity, WoW, MoM, YoY. */
  const Columns: nat := 8

  const FailureMessage := "Failed to load data"

  /** The row written into the table body when the data cannot be loaded. */
  const FailureRow := MessageRow(FailureMessage, 8)

  /** The numeric field shown in column `k` (1 to 4), in header order. */
  function NumberColumn(r: Record, k: nat): Option<real>
    requires 1 <= k <= 4
  {
    if k == 1 then r.WALCL else if k == 2 then r.WDTGAL else if k == 3 then r.RRPONTSYD else r.NetLiquidity
  }

  /** The ratio shown in column `k` (5 to 7), in header order. */
  function PercentColumn(r: Record, k: nat): Option<real>
    requires 5 <= k <= 7
  {
    if k == 5 then r.WoW else if k == 6 then r.MoM else r.YoY
  }

  function PercentCell(pct: Percent): Cell
  {
    Cell(pct.text, PctClass(pct), true, false)
  }

  /** The cells `populateTable` writes for one record. */
  function DisplayRow(r: Record): seq<Cell>
  {
    var yoy := FormatPercent(r.YoY);
    var mom := FormatPercent(r.MoM);
    var wow := FormatPercent(r.WoW);
    [ Cell(r.Date, "", true, false),
      Cell(FormatNumber(r.WALCL), "", false, false),
      Cell(FormatNumber(r.WDTGAL), "", false, false),
      Cell(FormatNumber(r.RRPONTSYD), "", false, false),
      Cell(FormatNumber(r.NetLiquidity), "", false, true),
      PercentCell(wow),
      PercentCell(mom),
      PercentCell(yoy) ]
  }

  /** A row has eight cells, in header order; only the NetLiquidity cell is emphasised. */
  lemma DisplayRowLayout(r: Record)
    ensures |DisplayRow(r)| == Columns
    ensures DisplayRow(r)[0] == Cell(r.Date, "", true, false)
    ensures forall k :: 1 <= k <= 4 ==>
      DisplayRow(r)[k] == Cell(FormatNumber(NumberColumn(r, k)), "", false, k == 4)
    ensures forall k :: 5 <= k <= 7 ==>
      DisplayRow(r)[k] == PercentCell(FormatPercent(PercentColumn(r, k)))
  {
  }

  /**
   * A ratio cell shows the placeholder and has no class exactly when the ratio is absent;
   * it is `cell-negative` exactly when the ratio is negative and `cell-positive` exactly
   * when it is zero or positive.
   */
  lemma PercentCellCases(percent: Option<real>)
    ensures var c := PercentCell(FormatPercent(percent));
      (c.text == "-" <==> percent.None?) &&
      (c.cls == "" <==> percent.None?) &&
      (c.cls == "cell-negative" <==> percent.Some? && percent.value < 0.0) &&
      (c.cls == "cell-positive" <==> percent.Some? && percent.value >= 0.0)
  {
    FormatPercentCases(percent);
    PctClassCases(percent);
  }

  /**
   * Every record gives a full row whatever is absent: the date verbatim, and in every
   * other column a placeholder exactly when that column's field is absent.
   */
  lemma DisplayRowCells(r: Record)
    ensures |DisplayRow(r)| == Columns
    ensures DisplayRow(r)[0].text == r.Date
    ensures forall k :: 1 <= k <= 4 ==> (DisplayRow(r)[k].text == "-" <==> NumberColumn(r, k).None?)
    ensures forall k :: 5 <= k <= 7 ==> (DisplayRow(r)[k].text == "-" <==> PercentColumn(r, k).None?)
  {
    DisplayRowLayout(r);
    forall k | 1 <= k <= 4
      ensures DisplayRow(r)[k].text == "-" <==> NumberColumn(r, k).None?
    {
      FormatNumberPlaceholder(NumberColumn(r, k));
    }
    forall k | 5 <= k <= 7
      ensures DisplayRow(r)[k].text == "-" <==> PercentColumn(r, k).None?
    {
      PercentCellCases(PercentColumn(r, k));
    }
  }

  /** The table body for a data set: one data row per record, in data set order. */
  function TableBody(data: seq<Record>): seq<TableRow>
  {
    seq(|data|, i requires 0 <= i < |data| => DataRow(DisplayRow(data[i])))
  }

  /** One data row per record, in data set order, each with all eight cells. */
  lemma TableBodyRows(data: seq<Record>)
    ensures |TableBody(data)| == |data|
    ensures forall i :: 0 <= i < |data| ==>
      TableBody(data)[i].DataRow? &&
      TableBody(data)[i].cells == DisplayRow(data[i]) &&
      |TableBody(data)[i].cells| == Columns &&
      TableBody(data)[i].cells[0].text == data[i].Date
  {
    forall i | 0 <= i < |data|
      ensures |DisplayRow(data[i])| == Columns && DisplayRow(data[i])[0].text == data[i].Date
    {
      DisplayRowLayout(data[i]);
    }
  }

  /** The failure message spans exactly as many columns as a data row has cells. */
  lemma FailureRowSpansTable(r: Record)
    ensures FailureRow.colspan == |DisplayRow(r)|
    ensures FailureRow.colspan == Columns
  {
    DisplayRowLayout(r);
  }
}

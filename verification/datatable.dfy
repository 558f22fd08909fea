/** The `DataTable` component (components/docs/DataTable.tsx): a header cell per
    header and a body row per input row, each cell rendered by a fixed precedence
    of its fields. */
module DataTable {
  import opened Wrappers

  /** A cell; each field may be omitted. */
  datatype TableCell = TableCell(code: Option<string>, labelText: Option<string>, value: Option<string>)

  /** How a cell's content is shown: in code style, or as plain (possibly absent)
      text. */
  datatype CellView = CodeStyle(text: string) | PlainText(shown: Option<string>)

  /** A body cell with its content and whether it gets the fixed first-column
      width. */
  datatype RenderedCell = RenderedCell(view: CellView, fixedWidth: bool)

  datatype TableView = TableView(headerCells: seq<string>, body: seq<seq<RenderedCell>>)

  predicate Truthy(s: Option<string>) {
    s.Some? && s.value != ""
  }

  /** `cell.code ? <code>{code}</code> : cell.label ? <code>{label}</code> :
      <span>{value}</span>`. */
  function CellContent(c: TableCell): (v: CellView)
    ensures Truthy(c.code) ==> v == CodeStyle(c.code.value)
    ensures !Truthy(c.code) && Truthy(c.labelText) ==> v == CodeStyle(c.labelText.value)
    ensures !Truthy(c.code) && !Truthy(c.labelText) ==> v == PlainText(c.value)
  {
    if Truthy(c.code) then CodeStyle(c.code.value)
    else if Truthy(c.labelText) then CodeStyle(c.labelText.value)
    else PlainText(c.value)
  }

  function RenderRow(row: seq<TableCell>): (cells: seq<RenderedCell>)
    ensures |cells| == |row|
    ensures forall j :: 0 <= j < |row| ==> cells[j] == RenderedCell(CellContent(row[j]), j == 0)
  {
    seq(|row|, j requires 0 <= j < |row| => RenderedCell(CellContent(row[j]), j == 0))
  }

  /** The rendered table: no padding, no truncation, input order throughout. */
  function Render(headers: seq<string>, rows: seq<seq<TableCell>>): (t: TableView)
    ensures t.headerCells == headers
    ensures |t.body| == |rows|
    ensures forall i :: 0 <= i < |rows| ==> |t.body[i]| == |rows[i]|
    ensures forall i, j :: 0 <= i < |rows| && 0 <= j < |rows[i]| ==>
              t.body[i][j].view == CellContent(rows[i][j]) && (t.body[i][j].fixedWidth <==> j == 0)
  {
    TableView(headers, seq(|rows|, i requires 0 <= i < |rows| => RenderRow(rows[i])))
  }

  /** A cell is shown in code style exactly when it has a non-empty `code` or
      `label`, and then `code` wins. */
  lemma CodeStyleIff(c: TableCell)
    ensures CellContent(c).CodeStyle? <==> Truthy(c.code) || Truthy(c.labelText)
    ensures CellContent(c).CodeStyle? ==>
              CellContent(c).text == if Truthy(c.code) then c.code.value else c.labelText.value
  {
  }

  /** Every rendered row has the table's shape, whatever its cells hold: the
      fixed width goes to the first column alone, the code-styled cells are
      exactly those with a non-empty `code` or `label`, and each cell shows text
      taken from its own input cell. */
  lemma RenderedRowShape(headers: seq<string>, rows: seq<seq<TableCell>>, i: int)
    requires 0 <= i < |rows|
    ensures var row := Render(headers, rows).body[i];
            && (|row| > 0 ==> (set j | 0 <= j < |row| && row[j].fixedWidth) == {0})
            && forall j :: 0 <= j < |row| ==>
                 && (row[j].view.CodeStyle? <==> Truthy(rows[i][j].code) || Truthy(rows[i][j].labelText))
                 && (row[j].view.CodeStyle? ==>
                       Some(row[j].view.text) == rows[i][j].code || Some(row[j].view.text) == rows[i][j].labelText)
                 && (row[j].view.PlainText? ==> row[j].view.shown == rows[i][j].value)
  {
  }
}

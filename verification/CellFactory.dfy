/** How the table container builds a new cell: a `TableCell` created from `CELL_DEFAULT`,
    the row's id and any span it copies, holding one `TableCellLine` created with the row's
    id, a freshly minted cell id and the same span. Ids come from a counter: minting reads
    the counter and advances it (`rowId()` / `cellId()`). */
module CellFactory {
  import opened JsValues
  import opened Ids
  import opened TableFormats
  import opened Lists

  /** `tableRow.formats().row` */
  function RowIdValue(attrs: Attrs): JsValue {
    if "row" in attrs then Text(attrs["row"]) else Undefined
  }

  lemma RowIdIsFormatted(attrs: Attrs)
    ensures RowIdValue(attrs) == Get(RowFormats(attrs), "row")
  {
    assert "row" in ROW_KEYS;
  }

  /** `cell.formats()[key]` for a span: the attribute as it is, or `undefined`. */
  function SpanValue(c: Cell, key: string): JsValue {
    if key in c.attrs then Text(c.attrs[key]) else Undefined
  }

  lemma SpanValueIsFormatted(c: Cell, key: string)
    requires key in CELL_ATTRIBUTES
    ensures SpanValue(c, key) == Get(CellFormats(c.attrs), key)
    ensures ParseInt(SpanValue(c, key)) == SpanOf(c, key)
  {
    assert key in CELL_KEYS;
  }

  /** A created line and the counter after the ids `TableCellLine.create` had to mint (row
      first, then cell, each only when the value lacks it). */
  datatype MintedLine = MintedLine(line: Attrs, next: nat)

  function MintLine(value: Formats, n: nat): (m: MintedLine)
    ensures m.line == LineCreate(value, RowIdOf(n), CellIdOf(if Truthy(Get(value, "row")) then n else n + 1))
    ensures m.next == n + (if Truthy(Get(value, "row")) then 0 else 1) + (if Truthy(Get(value, "cell")) then 0 else 1)
  {
    var afterRow := if Truthy(Get(value, "row")) then n else n + 1;
    var afterCell := if Truthy(Get(value, "cell")) then afterRow else afterRow + 1;
    MintedLine(LineCreate(value, RowIdOf(n), CellIdOf(afterRow)), afterCell)
  }

  datatype MintedCell = MintedCell(cell: Cell, next: nat)

  /** A new cell in the row whose id is `rowId`, with the given spans (`CELL_DEFAULT`'s 1, or
      the span copied from a neighbour), holding one line with the same row id and spans and
      the already minted cell id `id`; the counter stands at `n`. The line is handed its
      spans explicitly even where the source leaves them out, which `TableCellLine.create`
      treats alike (a missing or falsy span is 1). */
  function NewCell(rowId: JsValue, id: string, n: nat, rowspan: JsValue, colspan: JsValue): (m: MintedCell)
    requires id != ""
    ensures |m.cell.lines| == 1
    ensures "row" in m.cell.attrs && m.cell.attrs["row"] == ToAttr(rowId)
    ensures SpanOf(m.cell, "rowspan") == (if Truthy(rowspan) then ParseInt(rowspan) else None)
    ensures SpanOf(m.cell, "colspan") == (if Truthy(colspan) then ParseInt(colspan) else None)
    ensures var l := m.cell.lines[0]; "row" in l && "cell" in l && "rowspan" in l && "colspan" in l
    ensures m.cell.lines[0]["cell"] == Str(id)
    ensures m.cell.lines[0]["row"] == (if Truthy(rowId) then ToAttr(rowId) else Str(RowIdOf(n)))
    ensures m.cell.lines[0]["rowspan"] == (if Truthy(rowspan) then ToAttr(rowspan) else Numeric(1.0, ""))
    ensures m.cell.lines[0]["colspan"] == (if Truthy(colspan) then ToAttr(colspan) else Numeric(1.0, ""))
    ensures m.next == n + (if Truthy(rowId) then 0 else 1)
  {
    var cellValue := map["rowspan" := rowspan, "colspan" := colspan, "row" := rowId];
    var lineValue := map["row" := rowId, "cell" := Text(Str(id)), "rowspan" := rowspan, "colspan" := colspan];
    var ml := MintLine(lineValue, n);
    MintedCell(Cell(CellCreate(cellValue), [ml.line]), ml.next)
  }

  /** The cell `insertCell` creates in the row with `rowAttrs`, with the counter at `n`: the
      cell id is minted first, then the row id when the row has none. */
  function PlainCell(rowAttrs: Attrs, n: nat): MintedCell {
    NewCell(RowIdValue(rowAttrs), CellIdOf(n), n + 1, Number(1.0), Number(1.0))
  }

  /** `c` is a cell `insertCell` creates with cell id number `k` in the row with `rowAttrs`:
      both spans 1, the row's id on the cell, one line carrying the cell id. */
  predicate PlainCellOf(c: Cell, k: nat, rowAttrs: Attrs) {
    && |c.lines| == 1
    && SpanOf(c, "rowspan") == Some(1) && SpanOf(c, "colspan") == Some(1)
    && "row" in c.attrs && c.attrs["row"] == ToAttr(RowIdValue(rowAttrs))
    && "cell" in c.lines[0] && c.lines[0]["cell"] == Str(CellIdOf(k))
  }

  lemma PlainCellMeaning(rowAttrs: Attrs, n: nat)
    ensures PlainCellOf(PlainCell(rowAttrs, n).cell, n, rowAttrs)
    ensures PlainCell(rowAttrs, n).next == n + 1 + (if Truthy(RowIdValue(rowAttrs)) then 0 else 1)
  {
  }

  /** The way a repeated `insertCell` makes its cells; the source's is `PlainCell`. Loops
      that create cells are stated over any maker, so that their shape is proved apart
      from what one cell holds. */
  type CellMaker = (Attrs, nat) -> MintedCell

  /** A maker that mints as `insertCell` does: the cell made with the counter at `k` carries
      id number `k` and the counter moves past `k`. */
  ghost predicate MakesPlainCells(make: CellMaker) {
    forall a, k :: make(a, k).next > k && PlainCellOf(make(a, k).cell, k, a)
  }

  lemma PlainCellMints()
    ensures MakesPlainCells(PlainCell)
  {
    forall a, k {
      PlainCellMeaning(a, k);
    }
  }

  /** `insertCell(tableRow, ref)` on one row: put the new cell before `ref` or at the end. */
  function InsertCellInto(row: Row, ref: Option<nat>, n: nat): (r: (Row, nat))
    requires ref.Some? ==> ref.value < |row.cells|
  {
    var m := PlainCell(row.attrs, n);
    (Row(row.attrs, InsertBefore(row.cells, ref, m.cell)), m.next)
  }

  /** What `insertCell` adds: one cell, at the reference's place or last, with both spans 1,
      the row's id on the cell and its line, and the freshly minted cell id on the line;
      every other cell and the row's attributes stay. */
  lemma InsertCellIntoMeaning(row: Row, ref: Option<nat>, n: nat)
    requires ref.Some? ==> ref.value < |row.cells|
    ensures var (r, next) := InsertCellInto(row, ref, n);
      var at := if ref.Some? then ref.value else |row.cells|;
      && r.attrs == row.attrs
      && |r.cells| == |row.cells| + 1
      && r.cells[..at] == row.cells[..at] && r.cells[at + 1..] == row.cells[at..]
      && PlainCellOf(r.cells[at], n, row.attrs)
      && (Truthy(RowIdValue(row.attrs)) ==> r.cells[at].lines[0]["row"] == r.cells[at].attrs["row"])
      && next == n + 1 + (if Truthy(RowIdValue(row.attrs)) then 0 else 1)
  {
    PlainCellMeaning(row.attrs, n);
    var m := NewCell(RowIdValue(row.attrs), CellIdOf(n), n + 1, Number(1.0), Number(1.0));
  }
}

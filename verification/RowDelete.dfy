/** `deleteRow`: the rows inside the selected band go with their cells; a cell spanning
    across the band loses the removed rows from its rowspan; a spanning cell that starts at
    the band's top first falls into the next row, before the cell whose left edge meets its
    right edge (or last), taking that row's id. When every cell would go, the table is
    destroyed instead.

    The source keeps its lists of removed, modified and falling cells as object references
    while it moves and reformats them. The model tags every cell with its verdict, its
    rectangle and its original position when the operation starts (`Placed`), edits the
    tagged rows, and drops the tags at the end. */
module DeleteRowSpec {
  import opened JsValues
  import opened TableFormats
  import opened HitTest
  import opened Lists
  import opened CellFactory

  datatype Placed = Placed(cell: Cell, verdict: Verdict, rect: Rect, origin: Pos)

  datatype PRow = PRow(attrs: Attrs, cells: seq<Placed>)

  /** The tagged table: every cell with its verdict against `cmp`, its rectangle and its
      position. */
  function Place(rows: seq<Row>, geom: Cell -> Rect, cmp: Rect): (g: seq<PRow>)
    ensures |g| == |rows|
    ensures forall i :: 0 <= i < |rows| ==> g[i].attrs == rows[i].attrs && |g[i].cells| == |rows[i].cells|
  {
    seq(|rows|, i requires 0 <= i < |rows| =>
      PRow(rows[i].attrs, seq(|rows[i].cells|, j requires 0 <= j < |rows[i].cells| =>
        var c := rows[i].cells[j];
        Placed(c, RowVerdict(geom(c), cmp), geom(c), Pos(i, j)))))
  }

  function Unplace(g: seq<PRow>): (rows: seq<Row>)
    ensures |rows| == |g|
    ensures forall i :: 0 <= i < |g| ==> rows[i].attrs == g[i].attrs && |rows[i].cells| == |g[i].cells|
  {
    seq(|g|, i requires 0 <= i < |g| =>
      Row(g[i].attrs, seq(|g[i].cells|, j requires 0 <= j < |g[i].cells| => g[i].cells[j].cell)))
  }

  /** Dropping the tags right after placing gives the table back. */
  lemma UnplacePlace(rows: seq<Row>, geom: Cell -> Rect, cmp: Rect)
    ensures Unplace(Place(rows, geom, cmp)) == rows
  {
    var u := Unplace(Place(rows, geom, cmp));
    forall i | 0 <= i < |rows| ensures u[i] == rows[i] {
      assert u[i].cells == rows[i].cells;
    }
  }

  // ---------------------------------------------------------------- classification

  /** `fallCells` of one row: the positions of its falling cells, in order. */
  function RowFalls(cells: seq<Placed>): (f: seq<Pos>)
    ensures forall o :: o in f ==> exists j :: 0 <= j < |cells| && cells[j].origin == o && cells[j].verdict == Falling
  {
    if |cells| == 0 then []
    else
      var last := cells[|cells| - 1];
      RowFalls(cells[..|cells| - 1]) + (if last.verdict == Falling then [last.origin] else [])
  }

  /** `fallCells`: every falling cell's position, in document order. */
  function Falls(g: seq<PRow>): seq<Pos> {
    if |g| == 0 then [] else Falls(g[..|g| - 1]) + RowFalls(g[|g| - 1].cells)
  }

  /** In a freshly tagged table, every falling cell is listed under its own row. */
  lemma {:induction false} FallsOfPlaced(rows: seq<Row>, geom: Cell -> Rect, cmp: Rect, n: nat)
    requires n <= |rows|
    ensures forall o :: o in Falls(Place(rows, geom, cmp)[..n]) ==>
      o.row < n && o.index < |rows[o.row].cells| && RowVerdict(geom(rows[o.row].cells[o.index]), cmp) == Falling
  {
    var g := Place(rows, geom, cmp);
    if n > 0 {
      FallsOfPlaced(rows, geom, cmp, n - 1);
      assert g[..n][..n - 1] == g[..n - 1];
      forall o | o in RowFalls(g[n - 1].cells)
        ensures o.row < n && o.index < |rows[o.row].cells| && RowVerdict(geom(rows[o.row].cells[o.index]), cmp) == Falling
      {
        var j :| 0 <= j < |g[n - 1].cells| && g[n - 1].cells[j].origin == o && g[n - 1].cells[j].verdict == Falling;
      }
    }
  }

  /** Every cell of the table lies inside the selected rows. */
  predicate AllCellsRemoved(rows: seq<Row>, geom: Cell -> Rect, cmp: Rect) {
    forall i, j :: 0 <= i < |rows| && 0 <= j < |rows[i].cells| ==> RowVerdict(geom(rows[i].cells[j]), cmp) == Removed
  }

  /** `removedRowsLength`: how many rows lie inside the band. */
  function CoveredCount(rows: seq<Row>, rowGeom: Row -> Rect, cmp: Rect): (n: nat)
    ensures n <= |rows|
  {
    if |rows| == 0 then 0
    else CoveredCount(rows[..|rows| - 1], rowGeom, cmp) + (if RowCovered(rowGeom(rows[|rows| - 1]), cmp) then 1 else 0)
  }

  // ---------------------------------------------------------------- falling

  /** Where the cell that started at `o` is now. */
  function FindOrigin(cells: seq<Placed>, o: Pos): (at: Option<nat>)
    ensures at.Some? ==> at.value < |cells| && cells[at.value].origin == o && forall j :: 0 <= j < at.value ==> cells[j].origin != o
    ensures at.None? ==> forall j :: 0 <= j < |cells| ==> cells[j].origin != o
  {
    FirstWhere(cells, (p: Placed) => p.origin == o)
  }

  /** `refCell`: the last cell whose left edge is near `x1`. */
  function RefCell(cells: seq<Placed>, x1: int): (ref: Option<nat>)
    ensures ref.Some? ==> ref.value < |cells| && Near(x1, cells[ref.value].rect.x)
    ensures ref.Some? ==> forall j :: ref.value < j < |cells| ==> !Near(x1, cells[j].rect.x)
    ensures ref.None? ==> forall j :: 0 <= j < |cells| ==> !Near(x1, cells[j].rect.x)
  {
    LastWhere(cells, (q: Placed) => Near(x1, q.rect.x))
  }

  /** `cell.format('row', id)` */
  function Relabel(c: Cell, id: JsValue): Cell {
    CellFormat(c, "row", id)
  }

  /** Moves the falling cell that started at `o` into the next row: before the last cell there
      whose left edge is near its right edge, or last when none is; it is reformatted with
      the next row's id. (The cell is always found; the unmatched case leaves the table.) */
  function FallOne(g: seq<PRow>, o: Pos): (r: seq<PRow>)
    requires o.row + 1 < |g|
    ensures |r| == |g|
    ensures forall i :: 0 <= i < |g| ==> r[i].attrs == g[i].attrs
    ensures forall i :: 0 <= i < |g| && i != o.row && i != o.row + 1 ==> r[i] == g[i]
    ensures |r[o.row].cells| + |r[o.row + 1].cells| == |g[o.row].cells| + |g[o.row + 1].cells|
  {
    var at := FindOrigin(g[o.row].cells, o);
    if at.None? then g
    else
      var p := g[o.row].cells[at.value];
      var next := g[o.row + 1];
      var ref := RefCell(next.cells, p.rect.x1);
      var moved := p.(cell := Relabel(p.cell, RowIdValue(next.attrs)));
      g[o.row := PRow(g[o.row].attrs, RemoveAt(g[o.row].cells, at.value))]
       [o.row + 1 := PRow(next.attrs, InsertBefore(next.cells, ref, moved))]
  }

  /** No fall starts in row `i` or in the row above it. */
  predicate FallFree(falls: seq<Pos>, i: int) {
    forall o :: o in falls ==> o.row != i && o.row + 1 != i
  }

  /** The falls in order; each one's row must have a next row. A row that no fall leaves or
      enters keeps its cells. */
  function FallAll(g: seq<PRow>, falls: seq<Pos>): (r: seq<PRow>)
    requires forall o :: o in falls ==> o.row + 1 < |g|
    ensures |r| == |g|
    ensures forall i :: 0 <= i < |g| ==> r[i].attrs == g[i].attrs
    ensures forall i :: 0 <= i < |g| && FallFree(falls, i) ==> r[i] == g[i]
  {
    if |falls| == 0 then g
    else
      var init := falls[..|falls| - 1];
      assert forall i :: FallFree(falls, i) ==> FallFree(init, i) by {
        assert forall o :: o in init ==> o in falls;
      }
      FallOne(FallAll(g, init), falls[|falls| - 1])
  }

  /** How many falls go through before one in the last row (which has no next row: the
      source fails on `nextRow.children`). */
  function FallsDone(falls: seq<Pos>, rowCount: nat): (n: nat)
    ensures n <= |falls|
    ensures forall o :: o in falls[..n] ==> o.row + 1 < rowCount
    ensures n < |falls| ==> falls[n].row + 1 >= rowCount
  {
    var stop := FirstWhere(falls, (o: Pos) => o.row + 1 >= rowCount);
    if stop.None? then |falls| else stop.value
  }

  /** One fall moves one cell from its row to the next: the cell found at `at` in row `o.row`
      leaves it, and appears in the next row at the reference's place (the last cell whose left
      edge meets its right edge) or last, carrying the next row's id on the cell and every
      line; every other row, and every other cell of the two rows, stays in order. */
  lemma FallOneMeaning(g: seq<PRow>, o: Pos, at: nat)
    requires o.row + 1 < |g|
    requires at < |g[o.row].cells| && g[o.row].cells[at].origin == o
    requires forall j :: 0 <= j < at ==> g[o.row].cells[j].origin != o
    ensures var r := FallOne(g, o);
      var p := g[o.row].cells[at];
      var next := g[o.row + 1];
      var ref := RefCell(next.cells, p.rect.x1);
      var to := if ref.Some? then ref.value else |next.cells|;
      && (forall i :: 0 <= i < |g| && i != o.row && i != o.row + 1 ==> r[i] == g[i])
      && r[o.row].cells == g[o.row].cells[..at] + g[o.row].cells[at + 1..]
      && |r[o.row + 1].cells| == |next.cells| + 1
      && r[o.row + 1].cells[..to] == next.cells[..to]
      && r[o.row + 1].cells[to + 1..] == next.cells[to..]
      && r[o.row + 1].cells[to] == p.(cell := Relabel(p.cell, RowIdValue(next.attrs)))
      && r[o.row + 1].cells[to].origin == o
      && r[o.row + 1].cells[to].verdict == p.verdict
      && |r[o.row + 1].cells[to].cell.lines| == |p.cell.lines|
      && (Truthy(RowIdValue(next.attrs)) ==>
            var id := ToAttr(RowIdValue(next.attrs));
            var c := r[o.row + 1].cells[to].cell;
            && "row" in c.attrs && c.attrs["row"] == id
            && forall i :: 0 <= i < |c.lines| ==> "row" in c.lines[i] && c.lines[i]["row"] == id)
  {
    assert FindOrigin(g[o.row].cells, o) == Some(at);
    var p := g[o.row].cells[at];
    var next := g[o.row + 1];
    var moved := Relabel(p.cell, RowIdValue(next.attrs));
    assert CellKey("row") == Some("row");
  }

  /** Falls only move cells between rows: the table keeps every row and every cell. */
  lemma {:induction false} FallAllKeepsCells(g: seq<PRow>, falls: seq<Pos>)
    requires forall o :: o in falls ==> o.row + 1 < |g|
    ensures PlacedCount(FallAll(g, falls)) == PlacedCount(g)
  {
    if |falls| > 0 {
      var g' := FallAll(g, falls[..|falls| - 1]);
      FallAllKeepsCells(g, falls[..|falls| - 1]);
      FallOneKeepsCells(g', falls[|falls| - 1], FallOne(g', falls[|falls| - 1]));
    }
  }

  function PlacedCount(g: seq<PRow>): nat {
    if |g| == 0 then 0 else PlacedCount(g[..|g| - 1]) + |g[|g| - 1].cells|
  }

  lemma {:induction false} PlacedCountUpdate(g: seq<PRow>, i: nat, row: PRow)
    requires i < |g|
    ensures PlacedCount(g[i := row]) + |g[i].cells| == PlacedCount(g) + |row.cells|
  {
    if i < |g| - 1 {
      PlacedCountUpdate(g[..|g| - 1], i, row);
      assert g[i := row][..|g| - 1] == g[..|g| - 1][i := row];
    } else {
      assert g[i := row][..|g| - 1] == g[..|g| - 1];
    }
  }

  lemma FallOneKeepsCells(g: seq<PRow>, o: Pos, r: seq<PRow>)
    requires o.row + 1 < |g|
    requires r == FallOne(g, o)
    ensures PlacedCount(r) == PlacedCount(g)
  {
    PlacedCountPair(g, r, o.row);
  }

  /** Two tables that differ only in rows `k` and `k + 1`, whose lengths have the same sum,
      hold as many cells. */
  lemma PlacedCountPair(g: seq<PRow>, r: seq<PRow>, k: nat)
    requires k + 1 < |g| == |r|
    requires forall i :: 0 <= i < |g| && i != k && i != k + 1 ==> r[i] == g[i]
    requires |r[k].cells| + |r[k + 1].cells| == |g[k].cells| + |g[k + 1].cells|
    ensures PlacedCount(r) == PlacedCount(g)
  {
    var g1 := g[k := r[k]];
    PlacedCountUpdate(g, k, r[k]);
    assert g1[k + 1 := r[k + 1]] == r;
    PlacedCountUpdate(g1, k + 1, r[k + 1]);
  }

  // ---------------------------------------------------------------- settling

  /** A row's cells after `removedCells.forEach(remove)` and the rowspan update of the
      modified (falling included) cells. */
  function SettleCells(cells: seq<Placed>, removedRows: nat): (r: seq<Cell>)
    ensures |r| == |cells| - Count(cells, (p: Placed) => p.verdict == Removed)
  {
    if |cells| == 0 then []
    else
      var p := cells[|cells| - 1];
      SettleCells(cells[..|cells| - 1], removedRows) +
        (match p.verdict
         case Removed => []
         case Untouched => [p.cell]
         case _ => [ShiftSpan(p.cell, "rowspan", -(removedRows as int))])
  }

  /** The rows left when the covered ones are removed, each with its cells settled. */
  function SettleRows(g: seq<PRow>, covered: seq<bool>, removedRows: nat): (r: seq<Row>)
    requires |covered| == |g|
    ensures |r| == |g| - Count(covered, (b: bool) => b)
  {
    if |g| == 0 then []
    else
      var n := |g| - 1;
      SettleRows(g[..n], covered[..n], removedRows) +
        (if covered[n] then [] else [Row(g[n].attrs, SettleCells(g[n].cells, removedRows))])
  }

  /** Which rows `removedRows` holds, by position. */
  function CoveredRows(rows: seq<Row>, rowGeom: Row -> Rect, cmp: Rect): (c: seq<bool>)
    ensures |c| == |rows|
    ensures forall i :: 0 <= i < |rows| ==> c[i] == RowCovered(rowGeom(rows[i]), cmp)
  {
    seq(|rows|, i requires 0 <= i < |rows| => RowCovered(rowGeom(rows[i]), cmp))
  }

  /** The rows removed are exactly `removedRowsLength` many: the count taken before the
      table changes is the number of rows that disappear. */
  lemma {:induction false} CoveredRowsCount(rows: seq<Row>, rowGeom: Row -> Rect, cmp: Rect)
    ensures Count(CoveredRows(rows, rowGeom, cmp), (b: bool) => b) == CoveredCount(rows, rowGeom, cmp)
  {
    if |rows| > 0 {
      var n := |rows| - 1;
      CoveredRowsCount(rows[..n], rowGeom, cmp);
      assert CoveredRows(rows, rowGeom, cmp)[..n] == CoveredRows(rows[..n], rowGeom, cmp);
    }
  }

  /** A cell that stays when the covered rows go. */
  predicate Survives(p: Placed) {
    p.verdict != Removed
  }

  /** A row that stays. */
  predicate Uncovered(covered: bool) {
    !covered
  }

  lemma {:induction false} SettleCellsAt(cells: seq<Placed>, removedRows: nat)
    ensures var r, ks := SettleCells(cells, removedRows), Where(cells, Survives);
      && |r| == |ks|
      && forall i :: 0 <= i < |r| ==>
           r[i] == if cells[ks[i]].verdict == Untouched then cells[ks[i]].cell
                   else ShiftSpan(cells[ks[i]].cell, "rowspan", -(removedRows as int))
  {
    if |cells| > 0 {
      var init := cells[..|cells| - 1];
      SettleCellsAt(init, removedRows);
      assert forall j :: 0 <= j < |init| ==> init[j] == cells[j];
    }
  }

  /** A row keeps exactly its cells that are not removed, in their order: the i-th settled
      cell is the i-th such cell, unchanged when it was untouched, and otherwise (it spanned
      the band, falling or not) with its rowspan, on the cell and every line, lowered by the
      number of removed rows. */
  lemma SettleCellsMeaning(cells: seq<Placed>, removedRows: nat)
    ensures var r, ks := SettleCells(cells, removedRows), Where(cells, Survives);
      && |r| == |ks|
      && (forall j: nat :: j in ks <==> j < |cells| && cells[j].verdict != Removed)
      && (forall i, j :: 0 <= i < j < |ks| ==> ks[i] < ks[j])
      && forall i :: 0 <= i < |r| ==>
           && (cells[ks[i]].verdict == Untouched ==> r[i] == cells[ks[i]].cell)
           && (cells[ks[i]].verdict != Untouched ==>
                 SpanShifted(cells[ks[i]].cell, r[i], "rowspan", -(removedRows as int)))
  {
    var r, ks := SettleCells(cells, removedRows), Where(cells, Survives);
    SettleCellsAt(cells, removedRows);
    WhereMeaning(cells, Survives);
    forall i | 0 <= i < |r| && cells[ks[i]].verdict != Untouched
      ensures SpanShifted(cells[ks[i]].cell, r[i], "rowspan", -(removedRows as int))
    {
      ShiftSpanMeaning(cells[ks[i]].cell, "rowspan", -(removedRows as int));
    }
  }

  lemma {:induction false} SettleRowsAt(g: seq<PRow>, covered: seq<bool>, removedRows: nat)
    requires |covered| == |g|
    ensures var r, ks := SettleRows(g, covered, removedRows), Where(covered, Uncovered);
      && |r| == |ks|
      && forall i :: 0 <= i < |r| ==> ks[i] < |g| && r[i] == Row(g[ks[i]].attrs, SettleCells(g[ks[i]].cells, removedRows))
  {
    if |g| > 0 {
      var n := |g| - 1;
      SettleRowsAt(g[..n], covered[..n], removedRows);
      assert covered[..n] == covered[..|covered| - 1];
      assert forall j :: 0 <= j < n ==> g[..n][j] == g[j];
    }
  }

  /** The rows left are exactly the uncovered ones, in their order: the i-th is the i-th
      uncovered row, same attributes, its cells settled. */
  lemma SettleRowsMeaning(g: seq<PRow>, covered: seq<bool>, removedRows: nat)
    requires |covered| == |g|
    ensures var r, ks := SettleRows(g, covered, removedRows), Where(covered, Uncovered);
      && |r| == |ks|
      && (forall j: nat :: j in ks <==> j < |g| && !covered[j])
      && (forall i, j :: 0 <= i < j < |ks| ==> ks[i] < ks[j])
      && forall i :: 0 <= i < |r| ==> r[i] == Row(g[ks[i]].attrs, SettleCells(g[ks[i]].cells, removedRows))
  {
    SettleRowsAt(g, covered, removedRows);
    WhereMeaning(covered, Uncovered);
  }

  // ---------------------------------------------------------------- the whole edit

  datatype RowDeletion = RowDeletion(rows: seq<Row>, completed: bool)

  /** The body after `deleteRow` when the body has rows and not every cell is removed:
      `completed` is false when a falling cell sat in the last row, in which case `rows` holds
      the table as the source leaves it when it fails (the earlier falls done, nothing else). */
  function DeleteRowResult(rows: seq<Row>, geom: Cell -> Rect, rowGeom: Row -> Rect, cmp: Rect): RowDeletion {
    var g := Place(rows, geom, cmp);
    var falls := Falls(g);
    var done := FallsDone(falls, |rows|);
    var moved := FallAll(g, falls[..done]);
    if done < |falls| then RowDeletion(Unplace(moved), false)
    else RowDeletion(SettleRows(moved, CoveredRows(rows, rowGeom, cmp), CoveredCount(rows, rowGeom, cmp)), true)
  }

  /** A completed deletion keeps every row but the covered ones. */
  lemma DeleteRowRowCount(rows: seq<Row>, geom: Cell -> Rect, rowGeom: Row -> Rect, cmp: Rect)
    requires DeleteRowResult(rows, geom, rowGeom, cmp).completed
    ensures |DeleteRowResult(rows, geom, rowGeom, cmp).rows| == |rows| - CoveredCount(rows, rowGeom, cmp)
  {
    CoveredRowsCount(rows, rowGeom, cmp);
  }

  /** A completed deletion leaves exactly the rows outside the band, in their order and
      with their attributes. */
  lemma DeleteRowKeeps(rows: seq<Row>, geom: Cell -> Rect, rowGeom: Row -> Rect, cmp: Rect)
    requires DeleteRowResult(rows, geom, rowGeom, cmp).completed
    ensures var r, ks := DeleteRowResult(rows, geom, rowGeom, cmp).rows, Where(CoveredRows(rows, rowGeom, cmp), Uncovered);
      && |r| == |ks|
      && (forall j: nat :: j in ks <==> j < |rows| && !RowCovered(rowGeom(rows[j]), cmp))
      && (forall i, j :: 0 <= i < j < |ks| ==> ks[i] < ks[j])
      && forall i :: 0 <= i < |r| ==> r[i].attrs == rows[ks[i]].attrs
  {
    var g := Place(rows, geom, cmp);
    var falls := Falls(g);
    var done := FallsDone(falls, |rows|);
    var moved := FallAll(g, falls[..done]);
    var covered, removedRows := CoveredRows(rows, rowGeom, cmp), CoveredCount(rows, rowGeom, cmp);
    assert DeleteRowResult(rows, geom, rowGeom, cmp).rows == SettleRows(moved, covered, removedRows);
    SettledFallFree(g, falls, done, moved, covered, removedRows);
  }

  /** In a completed deletion, a kept row that no fall leaves or enters holds its own cells,
      settled: the removed ones gone, the spanning ones lowered by `removedRowsLength`. */
  lemma DeleteRowKeepsCells(rows: seq<Row>, geom: Cell -> Rect, rowGeom: Row -> Rect, cmp: Rect)
    requires DeleteRowResult(rows, geom, rowGeom, cmp).completed
    ensures var r, ks := DeleteRowResult(rows, geom, rowGeom, cmp).rows, Where(CoveredRows(rows, rowGeom, cmp), Uncovered);
      && |r| == |ks|
      && forall i :: 0 <= i < |r| && FallFree(Falls(Place(rows, geom, cmp)), ks[i]) ==>
           ks[i] < |rows| &&
           r[i].cells == SettleCells(Place(rows, geom, cmp)[ks[i]].cells, CoveredCount(rows, rowGeom, cmp))
  {
    var g := Place(rows, geom, cmp);
    var falls := Falls(g);
    var done := FallsDone(falls, |rows|);
    var moved := FallAll(g, falls[..done]);
    var covered, removedRows := CoveredRows(rows, rowGeom, cmp), CoveredCount(rows, rowGeom, cmp);
    assert DeleteRowResult(rows, geom, rowGeom, cmp).rows == SettleRows(moved, covered, removedRows);
    SettledFallFree(g, falls, done, moved, covered, removedRows);
  }

  /** The settled rows after the first `done` falls: the uncovered rows in order, and a row
      that no fall leaves or enters settles its own cells. */
  lemma SettledFallFree(g: seq<PRow>, falls: seq<Pos>, done: nat, moved: seq<PRow>, covered: seq<bool>, removedRows: nat)
    requires done <= |falls| && forall o :: o in falls[..done] ==> o.row + 1 < |g|
    requires moved == FallAll(g, falls[..done]) && |covered| == |g|
    ensures var r, ks := SettleRows(moved, covered, removedRows), Where(covered, Uncovered);
      && |r| == |ks|
      && (forall j: nat :: j in ks <==> j < |g| && !covered[j])
      && (forall i, j :: 0 <= i < j < |ks| ==> ks[i] < ks[j])
      && (forall i :: 0 <= i < |r| ==> r[i].attrs == g[ks[i]].attrs)
      && forall i :: 0 <= i < |r| && FallFree(falls, ks[i]) ==> r[i].cells == SettleCells(g[ks[i]].cells, removedRows)
  {
    assert forall i :: FallFree(falls, i) ==> FallFree(falls[..done], i) by {
      assert forall o :: o in falls[..done] ==> o in falls;
    }
    SettleRowsMeaning(moved, covered, removedRows);
  }
}

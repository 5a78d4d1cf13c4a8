/** `insertRow`: a new row with a fresh id goes in above (`isDown` false) or below the
    selection; it holds one new cell for every cell whose near (far) edge meets the
    boundary, ordered left to right, each copying that cell's colspan; every cell the
    boundary passes through grows by one row; the new row is placed before the row whose
    top meets the boundary, or at the end; the new and grown cells are returned ordered by
    their left edge. */
module InsertRowSpec {
  import opened JsValues
  import opened Ids
  import opened TableFormats
  import opened HitTest
  import opened Lists
  import opened Sorting
  import opened CellFactory

  /** `this.descendants(TableCell)`: every cell, row by row. */
  function AllCells(rows: seq<Row>): seq<Cell> {
    if |rows| == 0 then [] else AllCells(rows[..|rows| - 1]) + rows[|rows| - 1].cells
  }

  /** The cell's edge meets the boundary: it gets a cell in the new row. */
  function IsAside(geom: Cell -> Rect, cmp: Rect, isDown: bool): Cell -> bool {
    c => RowPlacement(geom(c), cmp, isDown) == Aside
  }

  /** The boundary passes through the cell: it grows by one row. */
  function IsGrow(geom: Cell -> Rect, cmp: Rect, isDown: bool): Cell -> bool {
    c => RowPlacement(geom(c), cmp, isDown) == Grow
  }

  /** A cell's left edge, the key of `sortFunc`. */
  function XOf(geom: Cell -> Rect): Cell -> int {
    c => geom(c).x
  }

  /** `addBelowCells` once sorted by the left edge. */
  function BelowCells(rows: seq<Row>, geom: Cell -> Rect, cmp: Rect, isDown: bool): seq<Cell> {
    SortByKey(Filter(AllCells(rows), IsAside(geom, cmp, isDown)), XOf(geom))
  }

  /** The cell made for `c` in the row with id `rId`, with cell id number `k`: rowspan 1 and
      `c`'s colspan. */
  function BelowCell(c: Cell, rId: string, k: nat): Cell {
    NewCell(Text(Str(rId)), CellIdOf(k), k + 1, Number(1.0), SpanValue(c, "colspan")).cell
  }

  /** The new row's cells: the `k`-th made with cell id number `first + k`. */
  function NewCells(below: seq<Cell>, rId: string, first: nat): (cells: seq<Cell>)
    ensures |cells| == |below|
  {
    seq(|below|, k requires 0 <= k < |below| => BelowCell(below[k], rId, first + k))
  }

  /** A cell after `cell.format('rowspan', rowspan + 1)` when the boundary passes through it. */
  function GrowCell(c: Cell, grows: bool): Cell {
    if grows then ShiftSpan(c, "rowspan", 1) else c
  }

  /** The table once every cell the boundary passes through has grown. */
  function GrowRows(rows: seq<Row>, geom: Cell -> Rect, cmp: Rect, isDown: bool): (r: seq<Row>)
    ensures |r| == |rows|
    ensures forall i :: 0 <= i < |rows| ==> r[i].attrs == rows[i].attrs && |r[i].cells| == |rows[i].cells|
  {
    seq(|rows|, i requires 0 <= i < |rows| =>
      Row(rows[i].attrs, seq(|rows[i].cells|, j requires 0 <= j < |rows[i].cells| =>
        GrowCell(rows[i].cells[j], IsGrow(geom, cmp, isDown)(rows[i].cells[j])))))
  }

  /** `modifiedCells` after growing, in document order. */
  function GrownCells(rows: seq<Row>, geom: Cell -> Rect, cmp: Rect, isDown: bool): (r: seq<Cell>)
    ensures |r| == Count(AllCells(rows), IsGrow(geom, cmp, isDown))
  {
    var g := Filter(AllCells(rows), IsGrow(geom, cmp, isDown));
    seq(|g|, i requires 0 <= i < |g| => ShiftSpan(g[i], "rowspan", 1))
  }

  /** `modifiedCells` are exactly the cells, in document order, that the boundary passes
      through, each with its rowspan (on the cell and every line) raised by one. */
  lemma GrownCellsMeaning(rows: seq<Row>, geom: Cell -> Rect, cmp: Rect, isDown: bool)
    ensures var all, r := AllCells(rows), GrownCells(rows, geom, cmp, isDown);
      var ks := Where(all, IsGrow(geom, cmp, isDown));
      && |r| == |ks|
      && (forall j: nat :: j in ks <==> j < |all| && IsGrow(geom, cmp, isDown)(all[j]))
      && (forall i, j :: 0 <= i < j < |ks| ==> ks[i] < ks[j])
      && forall i :: 0 <= i < |r| ==> SpanShifted(all[ks[i]], r[i], "rowspan", 1)
  {
    var all, r := AllCells(rows), GrownCells(rows, geom, cmp, isDown);
    var ks := Where(all, IsGrow(geom, cmp, isDown));
    FilterMeaning(all, IsGrow(geom, cmp, isDown));
    WhereMeaning(all, IsGrow(geom, cmp, isDown));
    forall i | 0 <= i < |r|
      ensures SpanShifted(all[ks[i]], r[i], "rowspan", 1)
    {
      ShiftSpanMeaning(all[ks[i]], "rowspan", 1);
    }
  }

  /** `refRow`: the first row, once the cells have grown, whose top meets the boundary. */
  function RefRow(rows: seq<Row>, rowGeom: Row -> Rect, cmp: Rect, isDown: bool): Option<nat> {
    FirstWhere(rows, (r: Row) => RefRowMatches(rowGeom(r), cmp, isDown))
  }

  /** The reference row is the first whose top meets the boundary (going down) or whose
      top is at the boundary's top (going up); none means no row matches. */
  lemma RefRowMeaning(rows: seq<Row>, rowGeom: Row -> Rect, cmp: Rect, isDown: bool)
    ensures var ref := RefRow(rows, rowGeom, cmp, isDown);
      && (ref.Some? ==> ref.value < |rows| && RefRowMatches(rowGeom(rows[ref.value]), cmp, isDown))
      && (forall j :: 0 <= j < |rows| && (ref.None? || j < ref.value) ==> !RefRowMatches(rowGeom(rows[j]), cmp, isDown))
  {
  }

  /** Where `insertBefore(newRow, refRow)` puts the new row. */
  lemma PlaceRow(g: seq<Row>, rowGeom: Row -> Rect, cmp: Rect, isDown: bool, newRow: Row) returns (at: nat)
    ensures var rr := InsertBefore(g, RefRow(g, rowGeom, cmp, isDown), newRow);
      && at <= |g|
      && |rr| == |g| + 1
      && rr[..at] + rr[at + 1..] == g
      && (forall j :: 0 <= j < at ==> !RefRowMatches(rowGeom(g[j]), cmp, isDown))
      && (at < |g| ==> RefRowMatches(rowGeom(g[at]), cmp, isDown))
      && rr[at] == newRow
  {
    var ref := RefRow(g, rowGeom, cmp, isDown);
    RefRowMeaning(g, rowGeom, cmp, isDown);
    at := if ref.Some? then ref.value else |g|;
    InsertAtRemoved(g, at, newRow);
  }

  /** The table after `insertRow`, the affected cells and the counter; `completed` is false
      when the body has no rows and nothing happens. The row id is minted first, then one
      cell id per new cell. `geom` gives each cell's rectangle before the edit, `rowGeom` a
      row's once the cells have grown, `after` a cell's once the row is in. */
  datatype RowInsertion = RowInsertion(rows: seq<Row>, affected: seq<Cell>, next: nat, completed: bool)

  function InsertRowResult(rows: seq<Row>, geom: Cell -> Rect, rowGeom: Row -> Rect, after: Cell -> Rect,
                           cmp: Rect, isDown: bool, n: nat): RowInsertion
  {
    if |rows| == 0 then RowInsertion(rows, [], n, false)
    else
      var rId := RowIdOf(n);
      var below := BelowCells(rows, geom, cmp, isDown);
      var made := NewCells(below, rId, n + 1);
      var grown := GrowRows(rows, geom, cmp, isDown);
      var newRow := Row(RowCreate(map["row" := Text(Str(rId))]), made);
      RowInsertion(InsertBefore(grown, RefRow(grown, rowGeom, cmp, isDown), newRow),
                   SortByKey(made + GrownCells(rows, geom, cmp, isDown), XOf(after)),
                   n + 1 + |below|, true)
  }

  // ---------------------------------------------------------------- what it means

  /** The cells that get a neighbour in the new row, ordered left to right; the sort only
      reorders them. */
  lemma BelowCellsMeaning(rows: seq<Row>, geom: Cell -> Rect, cmp: Rect, isDown: bool)
    ensures var below := BelowCells(rows, geom, cmp, isDown);
      && SortedBy(below, XOf(geom))
      && multiset(below) == multiset(Filter(AllCells(rows), IsAside(geom, cmp, isDown)))
      && |below| == Count(AllCells(rows), IsAside(geom, cmp, isDown))
      && forall c :: c in below ==> c in AllCells(rows) && RowPlacement(geom(c), cmp, isDown) == Aside
  {
    var f := Filter(AllCells(rows), IsAside(geom, cmp, isDown));
    SortByKeyPermutes(f, XOf(geom));
    var below := BelowCells(rows, geom, cmp, isDown);
    forall c | c in below
      ensures c in AllCells(rows) && RowPlacement(geom(c), cmp, isDown) == Aside
    {
      assert c in multiset(below);
      assert c in f;
    }
  }

  /** `d` is the cell made in the new row below (or above) `c`: one line with the new row
      id and cell id number `k`, rowspan 1, `c`'s colspan, and the row id on the cell. */
  predicate BelowCellOf(d: Cell, c: Cell, rId: string, k: nat) {
    && |d.lines| == 1
    && "row" in d.attrs && d.attrs["row"] == Str(rId)
    && SpanOf(d, "rowspan") == Some(1)
    && SpanOf(d, "colspan") == SpanOf(c, "colspan")
    && "cell" in d.lines[0] && d.lines[0]["cell"] == Str(CellIdOf(k))
    && "row" in d.lines[0] && d.lines[0]["row"] == Str(rId)
  }

  lemma BelowCellMeaning(c: Cell, rId: string, k: nat)
    requires rId != ""
    ensures BelowCellOf(BelowCell(c, rId, k), c, rId, k)
  {
    SpanValueIsFormatted(c, "colspan");
  }

  lemma NewCellsAt(below: seq<Cell>, rId: string, first: nat, k: nat)
    requires k < |below|
    ensures NewCells(below, rId, first)[k] == BelowCell(below[k], rId, first + k)
  {
  }

  /** The `k`-th new cell is the one made for the `k`-th cell below, with id number
      `first + k`. */
  lemma NewCellsMeaning(below: seq<Cell>, rId: string, first: nat, k: nat)
    requires rId != "" && k < |below|
    ensures BelowCellOf(NewCells(below, rId, first)[k], below[k], rId, first + k)
  {
    NewCellsAt(below, rId, first, k);
    BelowCellMeaning(below[k], rId, first + k);
  }

  /** The new cells carry pairwise different cell ids. */
  lemma NewCellsDistinct(below: seq<Cell>, rId: string, first: nat, i: nat, j: nat)
    requires rId != "" && i < j < |below|
    ensures NewCells(below, rId, first)[i] != NewCells(below, rId, first)[j]
  {
    var cs := NewCells(below, rId, first);
    NewCellsMeaning(below, rId, first, i);
    NewCellsMeaning(below, rId, first, j);
    IdsAreFresh(first + i, first + j);
    assert cs[i].lines[0]["cell"] != cs[j].lines[0]["cell"];
  }

  /** Growing keeps every row and cell in place: a cell the boundary passes through has its
      rowspan, on the cell and every line, one larger; every other cell stays as it was. */
  lemma GrowRowsMeaning(rows: seq<Row>, geom: Cell -> Rect, cmp: Rect, isDown: bool, i: nat, j: nat)
    requires i < |rows| && j < |rows[i].cells|
    ensures var c := rows[i].cells[j];
      var d := GrowRows(rows, geom, cmp, isDown)[i].cells[j];
      && (RowPlacement(geom(c), cmp, isDown) == Grow ==> SpanShifted(c, d, "rowspan", 1))
      && (RowPlacement(geom(c), cmp, isDown) != Grow ==> d == c)
  {
    var c := rows[i].cells[j];
    ShiftSpanMeaning(c, "rowspan", 1);
    assert GrowRows(rows, geom, cmp, isDown)[i].cells[j] == GrowCell(c, IsGrow(geom, cmp, isDown)(c));
  }

  /** The position `insertBefore(x, ref)` puts `x` at, for `ref` found by `find`. */
  lemma FoundAt<T>(s: seq<T>, p: T -> bool, x: T) returns (at: nat)
    ensures var r := InsertBefore(s, FirstWhere(s, p), x);
      && at <= |s|
      && |r| == |s| + 1 && r[at] == x
      && r[..at] + r[at + 1..] == s
      && (forall j :: 0 <= j < at ==> !p(s[j]))
      && (at < |s| ==> p(s[at]))
  {
    var ref := FirstWhere(s, p);
    at := if ref.Some? then ref.value else |s|;
    InsertAtRemoved(s, at, x);
  }

  /** Where `insertBefore(x, ref)` puts `x`, for `ref` found by `find`. */
  lemma InsertBeforeFound<T>(s: seq<T>, p: T -> bool, x: T)
    ensures var r := InsertBefore(s, FirstWhere(s, p), x);
      exists at :: 0 <= at <= |s|
        && |r| == |s| + 1 && r[at] == x
        && r[..at] + r[at + 1..] == s
        && (forall j :: 0 <= j < at ==> !p(s[j]))
        && (at < |s| ==> p(s[at]))
  {
    var at := FoundAt(s, p, x);
  }

  /** The new row, with the fresh id, goes right before the first row whose top meets the
      boundary, or last when there is none; the other rows keep their order. */
  lemma InsertRowPlacement(rows: seq<Row>, geom: Cell -> Rect, rowGeom: Row -> Rect, after: Cell -> Rect,
                           cmp: Rect, isDown: bool, n: nat)
    ensures var r := InsertRowResult(rows, geom, rowGeom, after, cmp, isDown, n);
      var grown := GrowRows(rows, geom, cmp, isDown);
      && (r.completed <==> |rows| > 0)
      && (!r.completed ==> r.rows == rows && r.next == n)
      && (r.completed ==>
            exists at :: 0 <= at <= |rows|
              && |r.rows| == |rows| + 1
              && r.rows[..at] + r.rows[at + 1..] == grown
              && (forall j :: 0 <= j < at ==> !RefRowMatches(rowGeom(grown[j]), cmp, isDown))
              && (at < |rows| ==> RefRowMatches(rowGeom(grown[at]), cmp, isDown))
              && r.rows[at] == Row(RowCreate(map["row" := Text(Str(RowIdOf(n)))]), NewCells(BelowCells(rows, geom, cmp, isDown), RowIdOf(n), n + 1)))
  {
    if |rows| > 0 {
      var grown := GrowRows(rows, geom, cmp, isDown);
      var newRow := Row(RowCreate(map["row" := Text(Str(RowIdOf(n)))]), NewCells(BelowCells(rows, geom, cmp, isDown), RowIdOf(n), n + 1));
      var r := InsertRowResult(rows, geom, rowGeom, after, cmp, isDown, n);
      assert r.rows == InsertBefore(grown, RefRow(grown, rowGeom, cmp, isDown), newRow);
      var at := PlaceRow(grown, rowGeom, cmp, isDown, newRow);
    }
  }


  /** The new row holds one cell per cell whose edge meets the boundary, the counter moves
      past the row id and every cell id, and the affected cells are the new and the grown
      ones, ordered by their left edge once laid out. */
  lemma InsertRowCells(rows: seq<Row>, geom: Cell -> Rect, rowGeom: Row -> Rect, after: Cell -> Rect,
                       cmp: Rect, isDown: bool, n: nat)
    requires |rows| > 0
    ensures var r := InsertRowResult(rows, geom, rowGeom, after, cmp, isDown, n);
      var made := NewCells(BelowCells(rows, geom, cmp, isDown), RowIdOf(n), n + 1);
      && |made| == Count(AllCells(rows), IsAside(geom, cmp, isDown))
      && r.next == n + 1 + |made|
      && SortedBy(r.affected, XOf(after))
      && multiset(r.affected) == multiset(made + GrownCells(rows, geom, cmp, isDown))
  {
    BelowCellsMeaning(rows, geom, cmp, isDown);
    var made := NewCells(BelowCells(rows, geom, cmp, isDown), RowIdOf(n), n + 1);
    SortByKeyPermutes(made + GrownCells(rows, geom, cmp, isDown), XOf(after));
  }
}

/** `TableContainer`, the table blot: its column group (`cols`, each column's attributes),
    its body (`rows`), whether `tableDestroy` has removed it, and the counter behind
    `rowId()` / `cellId()`. Each editing method changes the fields as the specification
    function of its module computes; the DOM rectangles every method measures are handed
    in as oracles (`geom` for a cell, `rowGeom` for a row, `after` once the edit is laid
    out), the page and table widths as numbers. */
module TableContainer {
  import opened JsValues
  import opened TableFormats
  import opened Lists
  import opened HitTest
  import opened Layout
  import opened CellFactory
  import DeleteColumnsSpec
  import DeleteRowSpec
  import InsertColumnSpec
  import InsertRowSpec
  import MergeCellsSpec
  import UnmergeCellsSpec

  /** How an editing method ends: it returned at once because the body has no rows, it
      destroyed the table, it ran to the end, or it threw part way (the state it leaves
      is stated per method). */
  datatype Outcome = NoBody | Destroyed | Done | Threw

  class Table {
    var cols: seq<Attrs>
    var rows: seq<Row>
    var destroyed: bool
    var nextId: nat

    /** A table holding the given column group and body, ids minted from `n` on. */
    constructor (cols: seq<Attrs>, rows: seq<Row>, n: nat)
      ensures this.cols == cols && this.rows == rows && !destroyed && nextId == n
    {
      this.cols := cols;
      this.rows := rows;
      destroyed := false;
      nextId := n;
    }

    /** `rows()`: the body's rows, in order (none without a body). */
    function Rows(): seq<Row>
      reads this
    {
      rows
    }

    /** `allColumnsHave100Width`: the `reduce` over the columns, `acc && width === '100'`. */
    method AllColumnsHave100Width() returns (all: bool)
      ensures all == Layout.AllColumnsHave100Width(cols)
      ensures all <==> forall i :: 0 <= i < |cols| ==> ColWidth(cols[i]) == Text(Numeric(100.0, ""))
    {
      all := true;
      var i := 0;
      while i < |cols|
        invariant 0 <= i <= |cols|
        invariant all == Layout.AllColumnsHave100Width(cols[..i])
      {
        assert cols[..i + 1][..i] == cols[..i];
        all := all && ColWidth(cols[i]) == Text(Numeric(100.0, ""));
        i := i + 1;
      }
      assert cols[..i] == cols;
    }

    /** `updateColumnsWidth(colGroup, workingAreaWidth)`: every column gets the width the
        working area leaves per column once a column is added, in points; the returned
        table width is that share times the new column count. */
    method UpdateColumnsWidth(workingArea: real) returns (tableWidth: real, widthPerColInPoints: real)
      modifies this
      ensures widthPerColInPoints == ConvertToPoints(WidthPerCol(workingArea, |old(cols)|))
      ensures tableWidth == workingArea
      ensures cols == InsertColumnSpec.FormatCols(old(cols), "width", Number(widthPerColInPoints))
      ensures rows == old(rows) && destroyed == old(destroyed) && nextId == old(nextId)
    {
      var widthPerCol := WidthPerCol(workingArea, |cols|);
      widthPerColInPoints := ConvertToPoints(widthPerCol);
      ghost var before := cols;
      var i := 0;
      while i < |cols|
        invariant 0 <= i <= |cols| == |before|
        invariant cols[..i] == InsertColumnSpec.FormatCols(before, "width", Number(widthPerColInPoints))[..i]
        invariant cols[i..] == before[i..]
        invariant rows == old(rows) && destroyed == old(destroyed) && nextId == old(nextId)
      {
        assert cols[i] == before[i] by {
          assert cols[i..][0] == before[i..][0];
        }
        cols := cols[i := ColFormat(cols[i], "width", Number(widthPerColInPoints))];
        i := i + 1;
      }
      tableWidth := widthPerCol * (|cols| + 1) as real;
    }

    /** `deleteColumns(compareRect, delIndexes)`. With no rows nothing happens. When every
        cell lies inside the selected columns (the source compares the number of removed
        cells with the number of cells) the table is destroyed. Otherwise
        `delIndexes.length` columns go, each one at `delIndexes[0]`; if the column group
        runs out first the source throws, with the columns from there on gone and every
        cell still in place. Then the cells inside go and the ones across shrink. */
    method DeleteColumns(geom: Cell -> Rect, cmp: Rect, delIndexes: seq<int>) returns (o: Outcome)
      modifies this
      ensures nextId == old(nextId)
      ensures |old(rows)| == 0 ==>
        o == NoBody && rows == old(rows) && cols == old(cols) && destroyed == old(destroyed)
      ensures |old(rows)| > 0 && DeleteColumnsSpec.AllCellsRemoved(old(rows), geom, cmp) ==>
        o == Destroyed && destroyed && rows == old(rows) && cols == old(cols)
      ensures |old(rows)| > 0 && !DeleteColumnsSpec.AllCellsRemoved(old(rows), geom, cmp) ==>
        var p, k := DeleteColumnsSpec.Anchor(delIndexes), |delIndexes|;
        && destroyed == old(destroyed)
        && cols == DeleteColumnsSpec.RemoveColumnsAt(old(cols), p, k)
        && (DeleteColumnsSpec.ColumnsRemain(old(cols), p, k) ==>
              o == Done && rows == DeleteColumnsSpec.DeleteColumnsRows(old(rows), geom, cmp, k))
        && (!DeleteColumnsSpec.ColumnsRemain(old(cols), p, k) ==> o == Threw && rows == old(rows))
    {
      if |rows| == 0 {
        return NoBody;
      }
      DeleteColumnsSpec.AllRemovedByCount(rows, geom, cmp);
      if DeleteColumnsSpec.TotalRemoved(rows, geom, cmp) == DeleteColumnsSpec.TotalCells(rows) {
        destroyed := true;
        return Destroyed;
      }
      var p := DeleteColumnsSpec.Anchor(delIndexes);
      ghost var before := cols;
      var i := 0;
      while i < |delIndexes|
        invariant 0 <= i <= |delIndexes|
        invariant p + i <= |before| || i == 0
        invariant cols == DeleteColumnsSpec.RemoveColumnsAt(before, p, i)
        invariant rows == old(rows) && destroyed == old(destroyed) && nextId == old(nextId)
      {
        if p >= |cols| {
          // `children.at(delIndexes[0])` is `null` and `.remove()` throws
          assert !DeleteColumnsSpec.ColumnsRemain(before, p, |delIndexes|);
          return Threw;
        }
        assert cols == before[..p] + before[p + i..];
        cols := cols[..p] + cols[p + 1..];
        assert cols == before[..p] + before[p + i + 1..];
        i := i + 1;
      }
      rows := DeleteColumnsSpec.DeleteColumnsRows(rows, geom, cmp, |delIndexes|);
      o := Done;
    }

    /** `deleteRow(compareRect)`. With no rows nothing happens; when every cell lies inside
        the selected rows the table is destroyed; otherwise the body becomes what
        `DeleteRowResult` computes, the source throwing when a falling cell sits in the
        last row. */
    method DeleteRow(geom: Cell -> Rect, rowGeom: Row -> Rect, cmp: Rect) returns (o: Outcome)
      modifies this
      ensures cols == old(cols) && nextId == old(nextId)
      ensures |old(rows)| == 0 ==> o == NoBody && rows == old(rows) && destroyed == old(destroyed)
      ensures |old(rows)| > 0 && DeleteRowSpec.AllCellsRemoved(old(rows), geom, cmp) ==>
        o == Destroyed && destroyed && rows == old(rows)
      ensures |old(rows)| > 0 && !DeleteRowSpec.AllCellsRemoved(old(rows), geom, cmp) ==>
        var r := DeleteRowSpec.DeleteRowResult(old(rows), geom, rowGeom, cmp);
        && destroyed == old(destroyed)
        && rows == r.rows
        && o == (if r.completed then Done else Threw)
    {
      if |rows| == 0 {
        return NoBody;
      }
      if DeleteRowSpec.AllCellsRemoved(rows, geom, cmp) {
        destroyed := true;
        return Destroyed;
      }
      var r := DeleteRowSpec.DeleteRowResult(rows, geom, rowGeom, cmp);
      rows := r.rows;
      o := if r.completed then Done else Threw;
    }

    /** `insertCell(tableRow, ref)` on row `row`: a new cell before cell `ref` of that row,
        or last. */
    method InsertCell(row: nat, ref: Option<nat>)
      requires row < |rows|
      requires ref.Some? ==> ref.value < |rows[row].cells|
      modifies this
      ensures var (r, n) := InsertCellInto(old(rows)[row], ref, old(nextId));
        rows == old(rows)[row := r] && nextId == n
      ensures cols == old(cols) && destroyed == old(destroyed)
    {
      var (r, n) := InsertCellInto(rows[row], ref, nextId);
      rows, nextId := rows[row := r], n;
    }

    /** `insertColumn(compareRect, colIndex, isRight)`. With no rows nothing happens;
        otherwise the columns, the body and the counter become what `InsertColumnResult`
        computes and the affected cells (new and grown, by top edge) are returned; the
        source throws when the new column is to go right of a column that does not
        exist. */
    method InsertColumn(geom: Cell -> Rect, after: Cell -> Rect, cmp: Rect, colIndex: int, isRight: bool,
                        tableWidth: real, marginLeft: real, workingArea: real) returns (o: Outcome, affected: seq<Cell>)
      modifies this
      ensures destroyed == old(destroyed)
      ensures |old(rows)| == 0 ==>
        o == NoBody && affected == [] && rows == old(rows) && cols == old(cols) && nextId == old(nextId)
      ensures |old(rows)| > 0 ==>
        var r := InsertColumnSpec.InsertColumnResult(old(cols), old(rows), geom, after, cmp, colIndex, isRight,
                                                     old(nextId), tableWidth, marginLeft, workingArea);
        && cols == r.cols && rows == r.rows && nextId == r.next && affected == r.affected
        && o == (if r.completed then Done else Threw)
    {
      if |rows| == 0 {
        return NoBody, [];
      }
      var r := InsertColumnSpec.InsertColumnResult(cols, rows, geom, after, cmp, colIndex, isRight,
                                                   nextId, tableWidth, marginLeft, workingArea);
      cols, rows, nextId, affected := r.cols, r.rows, r.next, r.affected;
      o := if r.completed then Done else Threw;
    }

    /** `insertRow(compareRect, isDown)`. With no rows nothing happens; otherwise the body
        and the counter become what `InsertRowResult` computes and the affected cells (new
        and grown, left to right) are returned. */
    method InsertRow(geom: Cell -> Rect, rowGeom: Row -> Rect, after: Cell -> Rect, cmp: Rect, isDown: bool)
      returns (o: Outcome, affected: seq<Cell>)
      modifies this
      ensures cols == old(cols) && destroyed == old(destroyed)
      ensures |old(rows)| == 0 ==> o == NoBody && affected == [] && rows == old(rows) && nextId == old(nextId)
      ensures |old(rows)| > 0 ==>
        var r := InsertRowSpec.InsertRowResult(old(rows), geom, rowGeom, after, cmp, isDown, old(nextId));
        o == Done && rows == r.rows && nextId == r.next && affected == r.affected
    {
      if |rows| == 0 {
        return NoBody, [];
      }
      var r := InsertRowSpec.InsertRowResult(rows, geom, rowGeom, after, cmp, isDown, nextId);
      rows, nextId, affected := r.rows, r.next, r.affected;
      o := Done;
    }

    /** `mergeCells(compareRect, mergingCells, rowspan, colspan)` on the cells at `ps`, in
        the caller's order: the body becomes what `MergeCells` computes; the source throws
        on an empty list or when the survivor ends with no line. */
    method MergeCells(ps: seq<Pos>, rowspan: JsValue, colspan: JsValue) returns (o: Outcome)
      requires MergeCellsSpec.Listing(rows, ps)
      modifies this
      ensures var m := MergeCellsSpec.MergeCells(old(rows), ps, rowspan, colspan);
        rows == m.rows && o == (if m.threw then Threw else Done)
      ensures cols == old(cols) && destroyed == old(destroyed) && nextId == old(nextId)
    {
      var m := MergeCellsSpec.MergeCells(rows, ps, rowspan, colspan);
      rows := m.rows;
      o := if m.threw then Threw else Done;
    }

    /** `unmergeCells(unmergingCells)` on the cells at `targets` (positions when the call
        starts): the `forEach` unmerges them one after the other, each found where the
        earlier ones have moved it, and stops when one throws (a spanned row missing). */
    method UnmergeCells(targets: seq<Pos>, geom: Cell -> Rect) returns (o: Outcome)
      requires forall i :: 0 <= i < |targets| ==> ValidPos(rows, targets[i])
      modifies this
      ensures var (r, n, threw) := UnmergeCellsSpec.UnmergeCellsResult(old(rows), targets, geom, old(nextId));
        rows == r && nextId == n && o == (if threw then Threw else Done)
      ensures cols == old(cols) && destroyed == old(destroyed)
    {
      var u := UnmergeInOrder(UnmergeCellsSpec.Mark(rows, targets), |targets|, geom, nextId);
      rows, nextId := UnmergeCellsSpec.Unmark(u.rows), u.next;
      o := if u.threw then Threw else Done;
    }
  }

  /** The `forEach` of `unmergeCells` over the `count` listed cells of the marked body `g`:
      each is found where the earlier ones have moved it and unmerged; the first that
      throws ends the loop. */
  method UnmergeInOrder(g: seq<UnmergeCellsSpec.MRow>, count: nat, geom: Cell -> Rect, n: nat)
    returns (u: UnmergeCellsSpec.Unmerged)
    ensures u == UnmergeCellsSpec.UnmergeAll(g, count, geom, n, PlainCell)
  {
    u := UnmergeCellsSpec.Unmerged(g, n, false);
    var k := 0;
    while k < count && !u.threw
      invariant 0 <= k <= count
      invariant u == UnmergeCellsSpec.UnmergeAll(g, k, geom, n, PlainCell)
    {
      UnmergeCellsSpec.UnmergeAllStep(g, k, geom, n, PlainCell);
      var p := UnmergeCellsSpec.FindMark(u.rows, k);
      if p.Some? {
        u := UnmergeCellsSpec.UnmergeAt(u.rows, p.value, geom, u.next, PlainCell);
      }
      k := k + 1;
    }
    UnmergeCellsSpec.UnmergeAllStops(g, k, count, geom, n, PlainCell);
  }
}

/** `deleteColumns`: the cells inside the selected columns go, the cells spanning across them
    lose `delIndexes.length` columns of span, and `delIndexes.length` columns are removed, each
    one at `delIndexes[0]`; when every cell would go, the table is destroyed instead. */
module DeleteColumnsSpec {
  import opened JsValues
  import opened TableFormats
  import opened HitTest
  import Lists

  /** What happens to one cell: `None` when it is removed. */
  function ColumnFate(c: Cell, rect: Rect, cmp: Rect, k: nat): Option<Cell> {
    match ColumnVerdict(rect, cmp)
    case Removed => None
    case Modified => Some(ShiftSpan(c, "colspan", -(k as int)))
    case _ => Some(c)
  }

  /** A removed cell disappears, a modified one keeps its place with its colspan (on the cell
      and every line) lowered by `k`, any other stays as it is. */
  lemma ColumnFateMeaning(c: Cell, rect: Rect, cmp: Rect, k: nat)
    ensures ColumnFate(c, rect, cmp, k).None? <==> ColumnVerdict(rect, cmp) == Removed
    ensures ColumnVerdict(rect, cmp) == Modified ==> SpanShifted(c, ColumnFate(c, rect, cmp, k).value, "colspan", -(k as int))
    ensures ColumnVerdict(rect, cmp) == Untouched ==> ColumnFate(c, rect, cmp, k) == Some(c)
  {
    if ColumnVerdict(rect, cmp) == Modified {
      ShiftSpanMeaning(c, "colspan", -(k as int));
    }
  }

  /** How many of `cells` lie inside the selected columns. */
  function RemovedCount(cells: seq<Cell>, geom: Cell -> Rect, cmp: Rect): (n: nat)
    ensures n <= |cells|
  {
    if |cells| == 0 then 0
    else RemovedCount(cells[..|cells| - 1], geom, cmp) + (if ColumnVerdict(geom(cells[|cells| - 1]), cmp) == Removed then 1 else 0)
  }

  /** A row's cells after the removed ones are deleted and the modified ones shrunk: one
      fewer per removed cell. */
  function KeepColumns(cells: seq<Cell>, geom: Cell -> Rect, cmp: Rect, k: nat): (r: seq<Cell>)
    ensures |r| + RemovedCount(cells, geom, cmp) == |cells|
  {
    if |cells| == 0 then []
    else
      var last := cells[|cells| - 1];
      var f := ColumnFate(last, geom(last), cmp, k);
      KeepColumns(cells[..|cells| - 1], geom, cmp, k) + (if f.Some? then [f.value] else [])
  }

  /** The test a cell passes to stay in its row. */
  function Stays(geom: Cell -> Rect, cmp: Rect): Cell -> bool {
    c => ColumnVerdict(geom(c), cmp) != Removed
  }

  lemma {:induction false} KeepColumnsFates(cells: seq<Cell>, geom: Cell -> Rect, cmp: Rect, k: nat)
    ensures var r, ks := KeepColumns(cells, geom, cmp, k), Lists.Where(cells, Stays(geom, cmp));
      |r| == |ks| && forall i :: 0 <= i < |r| ==> ColumnFate(cells[ks[i]], geom(cells[ks[i]]), cmp, k) == Some(r[i])
  {
    if |cells| > 0 {
      var init := cells[..|cells| - 1];
      KeepColumnsFates(init, geom, cmp, k);
      assert forall j :: 0 <= j < |init| ==> init[j] == cells[j];
    }
  }

  /** The row keeps exactly the cells outside the selected columns, in their order: the i-th
      survivor is the i-th such cell, its colspan (on the cell and every line) lowered by `k`
      when it spans across the selection and otherwise unchanged. */
  lemma KeepColumnsMeaning(cells: seq<Cell>, geom: Cell -> Rect, cmp: Rect, k: nat)
    ensures var r, ks := KeepColumns(cells, geom, cmp, k), Lists.Where(cells, Stays(geom, cmp));
      && |r| == |ks|
      && (forall j: nat :: j in ks <==> j < |cells| && ColumnVerdict(geom(cells[j]), cmp) != Removed)
      && (forall i, j :: 0 <= i < j < |ks| ==> ks[i] < ks[j])
      && forall i :: 0 <= i < |r| ==>
           && (ColumnVerdict(geom(cells[ks[i]]), cmp) == Modified ==> SpanShifted(cells[ks[i]], r[i], "colspan", -(k as int)))
           && (ColumnVerdict(geom(cells[ks[i]]), cmp) == Untouched ==> r[i] == cells[ks[i]])
  {
    var r, ks := KeepColumns(cells, geom, cmp, k), Lists.Where(cells, Stays(geom, cmp));
    KeepColumnsFates(cells, geom, cmp, k);
    Lists.WhereMeaning(cells, Stays(geom, cmp));
    forall i | 0 <= i < |r|
      ensures ColumnVerdict(geom(cells[ks[i]]), cmp) == Modified ==> SpanShifted(cells[ks[i]], r[i], "colspan", -(k as int))
      ensures ColumnVerdict(geom(cells[ks[i]]), cmp) == Untouched ==> r[i] == cells[ks[i]]
    {
      ColumnFateMeaning(cells[ks[i]], geom(cells[ks[i]]), cmp, k);
    }
  }

  /** Every row, same attributes, its cells kept as above (an emptied row stays), so each
      row's survivors are described by `KeepColumnsMeaning`. */
  function DeleteColumnsRows(rows: seq<Row>, geom: Cell -> Rect, cmp: Rect, k: nat): (r: seq<Row>)
    ensures |r| == |rows|
    ensures forall i :: 0 <= i < |rows| ==>
      && r[i].attrs == rows[i].attrs
      && r[i].cells == KeepColumns(rows[i].cells, geom, cmp, k)
      && |r[i].cells| == |rows[i].cells| - RemovedCount(rows[i].cells, geom, cmp)
  {
    seq(|rows|, i requires 0 <= i < |rows| => Row(rows[i].attrs, KeepColumns(rows[i].cells, geom, cmp, k)))
  }

  /** Every cell of the table lies inside the selected columns. */
  predicate AllCellsRemoved(rows: seq<Row>, geom: Cell -> Rect, cmp: Rect) {
    forall i, j :: 0 <= i < |rows| && 0 <= j < |rows[i].cells| ==> ColumnVerdict(geom(rows[i].cells[j]), cmp) == Removed
  }

  function TotalCells(rows: seq<Row>): nat {
    if |rows| == 0 then 0 else TotalCells(rows[..|rows| - 1]) + |rows[|rows| - 1].cells|
  }

  /** `removedCells.length` */
  function TotalRemoved(rows: seq<Row>, geom: Cell -> Rect, cmp: Rect): nat {
    if |rows| == 0 then 0
    else TotalRemoved(rows[..|rows| - 1], geom, cmp) + RemovedCount(rows[|rows| - 1].cells, geom, cmp)
  }

  lemma {:induction false} RemovedCountFull(cells: seq<Cell>, geom: Cell -> Rect, cmp: Rect)
    ensures RemovedCount(cells, geom, cmp) == |cells| <==>
      forall j :: 0 <= j < |cells| ==> ColumnVerdict(geom(cells[j]), cmp) == Removed
  {
    if |cells| > 0 {
      var init := cells[..|cells| - 1];
      RemovedCountFull(init, geom, cmp);
      assert forall j :: 0 <= j < |init| ==> init[j] == cells[j];
    }
  }

  /** The source's test `removedCells.length === tableCells.length` holds exactly when every
      cell lies inside the selected columns. */
  lemma {:induction false} AllRemovedByCount(rows: seq<Row>, geom: Cell -> Rect, cmp: Rect)
    ensures TotalRemoved(rows, geom, cmp) <= TotalCells(rows)
    ensures TotalRemoved(rows, geom, cmp) == TotalCells(rows) <==> AllCellsRemoved(rows, geom, cmp)
  {
    if |rows| > 0 {
      var init := rows[..|rows| - 1];
      var last := rows[|rows| - 1];
      AllRemovedByCount(init, geom, cmp);
      RemovedCountFull(last.cells, geom, cmp);
      assert forall i :: 0 <= i < |init| ==> init[i] == rows[i];
      if AllCellsRemoved(rows, geom, cmp) {
        assert AllCellsRemoved(init, geom, cmp);
      }
    }
  }

  /** After the edit the table holds one cell fewer per removed cell. */
  lemma {:induction false} DeleteColumnsCount(rows: seq<Row>, geom: Cell -> Rect, cmp: Rect, k: nat)
    ensures TotalCells(DeleteColumnsRows(rows, geom, cmp, k)) + TotalRemoved(rows, geom, cmp) == TotalCells(rows)
  {
    if |rows| > 0 {
      var init := rows[..|rows| - 1];
      DeleteColumnsCount(init, geom, cmp, k);
      var r := DeleteColumnsRows(rows, geom, cmp, k);
      assert r[..|r| - 1] == DeleteColumnsRows(init, geom, cmp, k);
    }
  }

  /** The column `delIndexes.forEach` removes every time: `colGroup.children.at(delIndexes[0])`,
      where `at` of a negative index is the first child. */
  function Anchor(delIndexes: seq<int>): nat {
    if |delIndexes| == 0 || delIndexes[0] < 0 then 0 else delIndexes[0]
  }

  /** Removing `k` times at `p` finds a column every time. */
  predicate ColumnsRemain(cols: seq<Attrs>, p: nat, k: nat) {
    k == 0 || p + k <= |cols|
  }

  /** The columns left by removing `k` times at `p`: the `k` columns from `p` on; when the
      list runs out first (`at` yields `null` and `.remove()` throws), every column from `p`
      on is gone. */
  function RemoveColumnsAt(cols: seq<Attrs>, p: nat, k: nat): (r: seq<Attrs>)
    ensures ColumnsRemain(cols, p, k) ==> |r| == |cols| - k
    ensures ColumnsRemain(cols, p, k) && k > 0 ==> r == cols[..p] + cols[p + k..]
    ensures !ColumnsRemain(cols, p, k) ==> r == cols[..if p <= |cols| then p else |cols|]
  {
    if k == 0 then cols
    else if p + k <= |cols| then cols[..p] + cols[p + k..]
    else cols[..if p <= |cols| then p else |cols|]
  }
}

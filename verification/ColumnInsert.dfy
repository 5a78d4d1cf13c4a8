/** `insertColumn`: every cell whose edge meets the selection's boundary gets a new cell
    beside it (right of it when inserting to the right, left of it otherwise), with its
    rowspan, the row's id and a fresh cell id; every cell the boundary passes through grows by
    one column; one column is added to the column group, its attributes taken from the last
    column and the widths rebalanced when the table would overflow the page; the new and
    grown cells are returned ordered by their top edge. */
module InsertColumnSpec {
  import opened JsValues
  import opened Ids
  import opened TableFormats
  import opened HitTest
  import opened Layout
  import opened Lists
  import opened Sorting
  import opened CellFactory

  // ---------------------------------------------------------------- one row

  /** A cell with its classification against the boundary, taken before anything changes. */
  datatype Classed = Classed(cell: Cell, place: Placement)

  function Classify(cells: seq<Cell>, geom: Cell -> Rect, cmp: Rect, isRight: bool): (cs: seq<Classed>)
    ensures |cs| == |cells|
    ensures forall i :: 0 <= i < |cells| ==> cs[i] == Classed(cells[i], ColumnPlacement(geom(cells[i]), cmp, isRight))
  {
    seq(|cells|, i requires 0 <= i < |cells| => Classed(cells[i], ColumnPlacement(geom(cells[i]), cmp, isRight)))
  }

  /** A cell of a widened row; `isNew` marks a cell the insert created, which is never
      classified (`Apart`). */
  datatype Slot = Slot(cell: Cell, isNew: bool, place: Placement)

  /** A row after the new cells went in: its slots, the new cells with the counter numbers
      of their ids (in creation order), and the counter afterwards. */
  datatype Widened = Widened(slots: seq<Slot>, added: seq<Cell>, ids: seq<nat>, next: nat)

  /** The cell created beside `c`: the row's id, `c`'s rowspan, colspan 1. */
  function AsideCell(c: Cell, rowAttrs: Attrs, n: nat): MintedCell {
    NewCell(RowIdValue(rowAttrs), CellIdOf(n), n + 1, SpanValue(c, "rowspan"), Number(1.0))
  }

  function Old(c: Classed): Slot {
    Slot(c.cell, false, c.place)
  }

  /** An old cell `c` and the new cell `m` beside it. */
  function Pair(c: Classed, m: Cell, isRight: bool): (s: seq<Slot>)
    ensures |s| == 2
    ensures isRight ==> s[0] == Old(c) && s[1] == Slot(m, true, Apart)
    ensures !isRight ==> s[0] == Slot(m, true, Apart) && s[1] == Old(c)
  {
    if isRight then [Old(c), Slot(m, true, Apart)] else [Slot(m, true, Apart), Old(c)]
  }

  /** The way new cells are made: `make(c, rowAttrs, n)` is the cell created beside `c` in
      the row with `rowAttrs`, with the counter at `n`, and the counter afterwards. */
  type Maker = (Cell, Attrs, nat) -> MintedCell

  /** One row after `addAsideCells.forEach(...)`, with the counter starting at `n`. The
      source's maker is `AsideCell`; the row's shape does not depend on it. */
  function WidenRow(cs: seq<Classed>, rowAttrs: Attrs, isRight: bool, n: nat, make: Maker): (w: Widened)
    ensures MakesNewCells(make) ==> w.next >= n
  {
    if |cs| == 0 then Widened([], [], [], n)
    else
      var w := WidenRow(cs[..|cs| - 1], rowAttrs, isRight, n, make);
      var c := cs[|cs| - 1];
      if c.place == Aside then
        var m := make(c.cell, rowAttrs, w.next);
        Widened(w.slots + Pair(c, m.cell, isRight), w.added + [m.cell], w.ids + [w.next], m.next)
      else
        Widened(w.slots + [Old(c)], w.added, w.ids, w.next)
  }

  /** The slots that are (`isNew`) or are not (`!isNew`) new, in order. */
  function Pick(slots: seq<Slot>, isNew: bool): seq<Slot> {
    if |slots| == 0 then []
    else Pick(slots[..|slots| - 1], isNew) + (if slots[|slots| - 1].isNew == isNew then [slots[|slots| - 1]] else [])
  }

  function Cells(slots: seq<Slot>): (cells: seq<Cell>)
    ensures |cells| == |slots|
    ensures forall i :: 0 <= i < |slots| ==> cells[i] == slots[i].cell
  {
    seq(|slots|, i requires 0 <= i < |slots| => slots[i].cell)
  }

  function Olds(cs: seq<Classed>): (r: seq<Slot>)
    ensures |r| == |cs|
    ensures forall i :: 0 <= i < |cs| ==> r[i] == Old(cs[i])
  {
    seq(|cs|, i requires 0 <= i < |cs| => Old(cs[i]))
  }

  /** How many cells of a row have their edge on the boundary. */
  function AsideCount(cs: seq<Classed>): (k: nat)
    ensures k <= |cs|
  {
    if |cs| == 0 then 0
    else AsideCount(cs[..|cs| - 1]) + (if cs[|cs| - 1].place == Aside then 1 else 0)
  }

  lemma PairPick(c: Classed, m: Cell, isRight: bool)
    ensures Pick(Pair(c, m, isRight), false) == [Old(c)]
    ensures Pick(Pair(c, m, isRight), true) == [Slot(m, true, Apart)]
  {
    var s := Pair(c, m, isRight);
    assert s[..1][..0] == [];
    assert s[..|s| - 1] == s[..1];
    assert Pick(s[..1], false) == if isRight then [Old(c)] else [];
    assert Pick(s[..1], true) == if isRight then [] else [Slot(m, true, Apart)];
  }

  lemma {:induction false} PickAppend(a: seq<Slot>, b: seq<Slot>, isNew: bool)
    ensures Pick(a + b, isNew) == Pick(a, isNew) + Pick(b, isNew)
    decreases |b|
  {
    if |b| == 0 {
      assert a + b == a;
    } else {
      assert (a + b)[..|a + b| - 1] == a + b[..|b| - 1];
      PickAppend(a, b[..|b| - 1], isNew);
    }
  }

  /** One more cell adds its slot, or its slot and the new cell's. */
  lemma WidenRowStep(cs: seq<Classed>, rowAttrs: Attrs, isRight: bool, n: nat, make: Maker)
    requires |cs| > 0
    ensures var c := cs[|cs| - 1];
      var w' := WidenRow(cs[..|cs| - 1], rowAttrs, isRight, n, make);
      var w := WidenRow(cs, rowAttrs, isRight, n, make);
      if c.place == Aside then
        var m := make(c.cell, rowAttrs, w'.next);
        w.slots == w'.slots + Pair(c, m.cell, isRight) && w.added == w'.added + [m.cell] &&
        w.ids == w'.ids + [w'.next] && w.next == m.next
      else
        w.slots == w'.slots + [Old(c)] && w.added == w'.added && w.ids == w'.ids && w.next == w'.next
  {
  }

  /** One new cell per cell on the boundary. */
  lemma {:induction false} WidenRowCounts(cs: seq<Classed>, rowAttrs: Attrs, isRight: bool, n: nat, make: Maker)
    ensures var w := WidenRow(cs, rowAttrs, isRight, n, make);
      && |w.added| == |w.ids| == AsideCount(cs)
      && |w.slots| == |cs| + |w.added|
  {
    if |cs| > 0 {
      WidenRowCounts(cs[..|cs| - 1], rowAttrs, isRight, n, make);
      WidenRowStep(cs, rowAttrs, isRight, n, make);
    }
  }

  /** What the last cell of a row adds: its own slot, and the new cell's beside it when its
      edge is on the boundary. */
  function Piece(c: Classed, rowAttrs: Attrs, isRight: bool, next: nat, make: Maker): seq<Slot> {
    if c.place == Aside then Pair(c, make(c.cell, rowAttrs, next).cell, isRight) else [Old(c)]
  }

  lemma WidenRowSlots(cs: seq<Classed>, rowAttrs: Attrs, isRight: bool, n: nat, make: Maker)
    requires |cs| > 0
    ensures var w' := WidenRow(cs[..|cs| - 1], rowAttrs, isRight, n, make);
      && WidenRow(cs, rowAttrs, isRight, n, make).slots == w'.slots + Piece(cs[|cs| - 1], rowAttrs, isRight, w'.next, make)
      && WidenRow(cs, rowAttrs, isRight, n, make).added ==
           w'.added + Cells(Pick(Piece(cs[|cs| - 1], rowAttrs, isRight, w'.next, make), true))
  {
    var c := cs[|cs| - 1];
    var w' := WidenRow(cs[..|cs| - 1], rowAttrs, isRight, n, make);
    WidenRowStep(cs, rowAttrs, isRight, n, make);
    PiecePick(c, rowAttrs, isRight, w'.next, make);
  }

  lemma PiecePick(c: Classed, rowAttrs: Attrs, isRight: bool, next: nat, make: Maker)
    ensures Pick(Piece(c, rowAttrs, isRight, next, make), false) == [Old(c)]
    ensures Cells(Pick(Piece(c, rowAttrs, isRight, next, make), true)) ==
      if c.place == Aside then [make(c.cell, rowAttrs, next).cell] else []
  {
    if c.place == Aside {
      PairPick(c, make(c.cell, rowAttrs, next).cell, isRight);
    } else {
      assert [Old(c)][..0] == [];
    }
  }

  lemma OldsSnoc(cs: seq<Classed>)
    requires |cs| > 0
    ensures Olds(cs) == Olds(cs[..|cs| - 1]) + [Old(cs[|cs| - 1])]
  {
  }

  /** Every old cell stays in the row, in its order. */
  lemma {:induction false} WidenRowKeeps(cs: seq<Classed>, rowAttrs: Attrs, isRight: bool, n: nat, make: Maker)
    ensures Pick(WidenRow(cs, rowAttrs, isRight, n, make).slots, false) == Olds(cs)
  {
    if |cs| > 0 {
      var init := cs[..|cs| - 1];
      var c := cs[|cs| - 1];
      var w' := WidenRow(init, rowAttrs, isRight, n, make);
      WidenRowKeeps(init, rowAttrs, isRight, n, make);
      WidenRowSlots(cs, rowAttrs, isRight, n, make);
      PiecePick(c, rowAttrs, isRight, w'.next, make);
      PickAppend(w'.slots, Piece(c, rowAttrs, isRight, w'.next, make), false);
      OldsSnoc(cs);
    }
  }

  lemma CellsAppend(a: seq<Slot>, b: seq<Slot>)
    ensures Cells(a + b) == Cells(a) + Cells(b)
  {
  }

  /** The new slots hold the new cells `added` lists, in order. */
  lemma {:induction false} WidenRowAdds(cs: seq<Classed>, rowAttrs: Attrs, isRight: bool, n: nat, make: Maker)
    ensures var w := WidenRow(cs, rowAttrs, isRight, n, make);
      Cells(Pick(w.slots, true)) == w.added
  {
    if |cs| > 0 {
      var init := cs[..|cs| - 1];
      var c := cs[|cs| - 1];
      var w' := WidenRow(init, rowAttrs, isRight, n, make);
      var piece := Piece(c, rowAttrs, isRight, w'.next, make);
      WidenRowAdds(init, rowAttrs, isRight, n, make);
      WidenRowSlots(cs, rowAttrs, isRight, n, make);
      PickAppend(w'.slots, piece, true);
      CellsAppend(Pick(w'.slots, true), Pick(piece, true));
    }
  }

  /** Each new slot stands right after (inserting right) or right before (inserting left) an
      old slot whose cell has its edge on the boundary. */
  predicate Adjacent(s: seq<Slot>, isRight: bool) {
    forall i :: 0 <= i < |s| && s[i].isNew ==> Beside(s, i, isRight)
  }

  /** The slot next to `s[i]` on the side the new cells go holds an old cell on the boundary. */
  predicate Beside(s: seq<Slot>, i: nat, isRight: bool)
    requires i < |s|
  {
    if isRight then 0 < i && !s[i - 1].isNew && s[i - 1].place == Aside
    else i + 1 < |s| && !s[i + 1].isNew && s[i + 1].place == Aside
  }

  lemma AdjacentAppend(a: seq<Slot>, piece: seq<Slot>, isRight: bool)
    requires Adjacent(a, isRight) && Adjacent(piece, isRight)
    ensures Adjacent(a + piece, isRight)
  {
    var s := a + piece;
    forall i | 0 <= i < |s| && s[i].isNew
      ensures Beside(s, i, isRight)
    {
      if i < |a| {
        assert a[i].isNew && Beside(a, i, isRight);
        if isRight {
          assert 0 < i && s[i - 1] == a[i - 1];
        } else {
          assert i + 1 < |a| && s[i + 1] == a[i + 1];
        }
      } else {
        var j := i - |a|;
        assert piece[j].isNew && Beside(piece, j, isRight);
        if isRight {
          assert 0 < j && s[i - 1] == piece[j - 1];
        } else {
          assert j + 1 < |piece| && s[i + 1] == piece[j + 1];
        }
      }
    }
  }

  /** Each new cell stands beside the old cell it was created for. */
  lemma {:induction false} WidenRowAdjacent(cs: seq<Classed>, rowAttrs: Attrs, isRight: bool, n: nat, make: Maker)
    ensures Adjacent(WidenRow(cs, rowAttrs, isRight, n, make).slots, isRight)
  {
    if |cs| > 0 {
      var c := cs[|cs| - 1];
      var w' := WidenRow(cs[..|cs| - 1], rowAttrs, isRight, n, make);
      WidenRowAdjacent(cs[..|cs| - 1], rowAttrs, isRight, n, make);
      WidenRowSlots(cs, rowAttrs, isRight, n, make);
      var piece := Piece(c, rowAttrs, isRight, w'.next, make);
      assert Adjacent(piece, isRight);
      AdjacentAppend(w'.slots, piece, isRight);
    }
  }

  /** The counter numbers `ids` are increasing and lie in `[lo, hi)`. */
  predicate Minted(ids: seq<nat>, lo: nat, hi: nat) {
    && (forall i, j :: 0 <= i < j < |ids| ==> ids[i] < ids[j])
    && (forall i :: 0 <= i < |ids| ==> lo <= ids[i] < hi)
  }

  /** `c` is a cell this insert creates with id number `k` in the row with `rowAttrs`: one
      line carrying cell id `k`, colspan 1, the row's id on the cell. */
  predicate NewCellOf(c: Cell, k: nat, rowAttrs: Attrs) {
    && |c.lines| == 1
    && "cell" in c.lines[0] && c.lines[0]["cell"] == Str(CellIdOf(k))
    && SpanOf(c, "colspan") == Some(1)
    && "row" in c.attrs && c.attrs["row"] == ToAttr(RowIdValue(rowAttrs))
  }

  /** A maker that mints: the cell made with the counter at `k` carries id number `k` and
      the counter moves past `k`. */
  ghost predicate MakesNewCells(make: Maker) {
    forall c, a, k :: make(c, a, k).next > k && NewCellOf(make(c, a, k).cell, k, a)
  }

  /** A new cell copies the rowspan of the cell it stands beside. */
  lemma AsideCellSpan(c: Cell, rowAttrs: Attrs, n: nat)
    ensures SpanOf(AsideCell(c, rowAttrs, n).cell, "rowspan") == SpanOf(c, "rowspan")
    ensures NewCellOf(AsideCell(c, rowAttrs, n).cell, n, rowAttrs)
    ensures AsideCell(c, rowAttrs, n).next > n
  {
    SpanValueIsFormatted(c, "rowspan");
  }

  lemma AsideCellMints()
    ensures MakesNewCells(AsideCell)
  {
    forall c, a, k {
      AsideCellSpan(c, a, k);
    }
  }

  /** The new cells' ids are minted in order from the counter: increasing numbers from `n`
      on, below the counter afterwards, and each new cell carries its id on its line. */
  lemma {:induction false} WidenRowIds(cs: seq<Classed>, rowAttrs: Attrs, isRight: bool, n: nat, make: Maker)
    requires MakesNewCells(make)
    ensures var w := WidenRow(cs, rowAttrs, isRight, n, make);
      && |w.ids| == |w.added|
      && Minted(w.ids, n, w.next)
      && forall i :: 0 <= i < |w.added| ==> NewCellOf(w.added[i], w.ids[i], rowAttrs)
  {
    if |cs| > 0 {
      WidenRowIds(cs[..|cs| - 1], rowAttrs, isRight, n, make);
      WidenRowStep(cs, rowAttrs, isRight, n, make);
    }
  }

  // ---------------------------------------------------------------- growing

  /** A cell the boundary passes through, after `cell.format('colspan', colspan + 1)`. */
  function Grown(c: Cell): Cell {
    ShiftSpan(c, "colspan", 1)
  }

  /** `modifiedCells.forEach(...)` on one row: the cells the boundary passes through grow,
      the others (the new cells among them) stay. */
  function GrowSlots(slots: seq<Slot>): (r: seq<Slot>)
    ensures |r| == |slots|
  {
    seq(|slots|, i requires 0 <= i < |slots| =>
      if slots[i].place == Grow then slots[i].(cell := Grown(slots[i].cell)) else slots[i])
  }

  /** The grown cells of one row, in order. */
  function GrownOf(slots: seq<Slot>): seq<Cell> {
    if |slots| == 0 then []
    else
      var s := slots[|slots| - 1];
      GrownOf(slots[..|slots| - 1]) + (if s.place == Grow then [Grown(s.cell)] else [])
  }

  /** Growing changes no cell's place and creates none: a grown cell has its colspan, on the
      cell and every line, one larger. */
  lemma GrowSlotsMeaning(slots: seq<Slot>, i: nat)
    requires i < |slots|
    ensures var r := GrowSlots(slots);
      && r[i].isNew == slots[i].isNew && r[i].place == slots[i].place
      && (slots[i].place != Grow ==> r[i] == slots[i])
      && (slots[i].place == Grow ==> SpanShifted(slots[i].cell, r[i].cell, "colspan", 1))
  {
    ShiftSpanMeaning(slots[i].cell, "colspan", 1);
  }

  // ---------------------------------------------------------------- the table

  /** The widened table; `starts[i]` is the counter when row `i` was reached. */
  datatype Widening = Widening(rows: seq<Row>, starts: seq<nat>, added: seq<Cell>, ids: seq<nat>, grown: seq<Cell>, next: nat)

  /** A row's slots once new cells are in and, when `grow`, the cells grown. */
  function RowSlots(v: Widened, grow: bool): seq<Slot> {
    if grow then GrowSlots(v.slots) else v.slots
  }

  function WidenRows(rows: seq<Row>, geom: Cell -> Rect, cmp: Rect, isRight: bool, grow: bool, n: nat): (w: Widening)
    ensures |w.rows| == |w.starts| == |rows|
    ensures w.next >= n
    ensures forall i :: 0 <= i < |rows| ==>
      w.rows[i] == Row(rows[i].attrs, Cells(RowSlots(WidenRow(Classify(rows[i].cells, geom, cmp, isRight), rows[i].attrs, isRight, w.starts[i], AsideCell), grow)))
  {
    if |rows| == 0 then Widening([], [], [], [], [], n)
    else
      var w := WidenRows(rows[..|rows| - 1], geom, cmp, isRight, grow, n);
      var r := rows[|rows| - 1];
      AsideCellMints();
      var v := WidenRow(Classify(r.cells, geom, cmp, isRight), r.attrs, isRight, w.next, AsideCell);
      Widening(w.rows + [Row(r.attrs, Cells(RowSlots(v, grow)))], w.starts + [w.next],
               w.added + v.added, w.ids + v.ids, w.grown + (if grow then GrownOf(v.slots) else []), v.next)
  }

  lemma MintedAppend(a: seq<nat>, b: seq<nat>, lo: nat, mid: nat, hi: nat)
    requires lo <= mid <= hi
    requires Minted(a, lo, mid) && Minted(b, mid, hi)
    ensures Minted(a + b, lo, hi)
  {
  }

  /** Every row keeps its attributes and gains one cell per cell on the boundary; all new
      cells across the table get increasing, hence distinct, ids from the counter. */
  lemma {:induction false} WidenRowsMeaning(rows: seq<Row>, geom: Cell -> Rect, cmp: Rect, isRight: bool, grow: bool, n: nat)
    ensures var w := WidenRows(rows, geom, cmp, isRight, grow, n);
      && (forall i :: 0 <= i < |rows| ==>
            w.rows[i].attrs == rows[i].attrs &&
            |w.rows[i].cells| == |rows[i].cells| + AsideCount(Classify(rows[i].cells, geom, cmp, isRight)))
      && |w.ids| == |w.added|
      && Minted(w.ids, n, w.next)
  {
    var w := WidenRows(rows, geom, cmp, isRight, grow, n);
    forall i | 0 <= i < |rows|
      ensures |w.rows[i].cells| == |rows[i].cells| + AsideCount(Classify(rows[i].cells, geom, cmp, isRight))
    {
      WidenRowCounts(Classify(rows[i].cells, geom, cmp, isRight), rows[i].attrs, isRight, w.starts[i], AsideCell);
    }
    if |rows| > 0 {
      var init := rows[..|rows| - 1];
      var r := rows[|rows| - 1];
      var cs := Classify(r.cells, geom, cmp, isRight);
      var w' := WidenRows(init, geom, cmp, isRight, grow, n);
      WidenRowsMeaning(init, geom, cmp, isRight, grow, n);
      AsideCellMints();
      WidenRowIds(cs, r.attrs, isRight, w'.next, AsideCell);
      WidenRowCounts(cs, r.attrs, isRight, w'.next, AsideCell);
      var v := WidenRow(cs, r.attrs, isRight, w'.next, AsideCell);
      MintedAppend(w'.ids, v.ids, n, w'.next, v.next);
    }
  }

  // ---------------------------------------------------------------- the new column

  /** The columns after `getColAttributes` and the attributes it returns for the new column. */
  datatype ColPlan = ColPlan(cols: seq<Attrs>, attrs: Formats)

  /** Every column formatted with `name` and `value`. */
  function FormatCols(cols: seq<Attrs>, name: string, value: JsValue): (r: seq<Attrs>)
    ensures |r| == |cols|
    ensures forall i :: 0 <= i < |cols| ==> r[i] == ColFormat(cols[i], name, value)
  {
    seq(|cols|, i requires 0 <= i < |cols| => ColFormat(cols[i], name, value))
  }

  /** The width in pixels the table would have with the new column, `NaN` as `None`. */
  function GrownWidth(attrs: Formats, tableWidth: real): Option<real> {
    var w := ParseFloat(Get(attrs, "width"));
    if w.Some? then Some(tableWidth + ConvertToPixels(w.value)) else None
  }

  /** The table would overflow the page's working area. */
  predicate Overflows(attrs: Formats, tableWidth: real, marginLeft: real, workingArea: real) {
    var u := GrownWidth(attrs, tableWidth);
    u.Some? && u.value + marginLeft > workingArea
  }

  /** `updateColumnsWidth(colGroup, workingArea - marginLeft)`'s share, in points. */
  function SharePoints(cols: seq<Attrs>, marginLeft: real, workingArea: real): real {
    ConvertToPoints(WidthPerCol(workingArea - marginLeft, |cols|))
  }

  /** The attributes `getColAttributes` starts from: the last column's (the reference column
      is never defined when it is called), nothing when there are no columns. */
  function TailAttributes(cols: seq<Attrs>): Formats {
    if |cols| > 0 then ColFormats(cols[|cols| - 1]) else map[]
  }

  /** `updateColumnsWidth` when the grown table would overflow the working area: every
      column, and the attributes for the new one, get the equal share in points. */
  function Rebalance(cols: seq<Attrs>, base: Formats, tableWidth: real, marginLeft: real, workingArea: real): (p: ColPlan)
    ensures |p.cols| == |cols|
  {
    var pts := SharePoints(cols, marginLeft, workingArea);
    if Overflows(base, tableWidth, marginLeft, workingArea) then ColPlan(FormatCols(cols, "width", Number(pts)), base["width" := Number(pts)])
    else ColPlan(cols, base)
  }

  /** `updatedTableWidth`: the grown width, or the rebalanced table's width. */
  function UpdatedWidth(cols: seq<Attrs>, base: Formats, tableWidth: real, marginLeft: real, workingArea: real): Option<real> {
    if Overflows(base, tableWidth, marginLeft, workingArea) then Some(WidthPerCol(workingArea - marginLeft, |cols|) * (|cols| + 1) as real)
    else GrownWidth(base, tableWidth)
  }

  /** A positive preferred width in the template makes every column, and the new one, take
      the updated table width in points as its preferred width. */
  function SetPreferred(p: ColPlan, updated: Option<real>): (r: ColPlan)
    ensures |r.cols| == |p.cols|
  {
    var pref := ParseFloat(Get(p.attrs, "table_preffered_width"));
    if pref.Some? && pref.value > 0.0 then
      var text := if updated.Some? then Text(Numeric(ConvertToPoints(updated.value), "pt")) else Text(Str("NaNpt"));
      ColPlan(FormatCols(p.cols, "table_preffered_width", text), p.attrs["table_preffered_width" := text])
    else p
  }

  /** `getColAttributes(undefined)`: when the grown table would overflow, every column and
      the new one get an equal share of the working area; when the template column has a
      positive preferred width, every column and the new one get the new table width, in
      points. The table width, left margin and working area are measured by the caller. */
  function ColAttributes(cols: seq<Attrs>, tableWidth: real, marginLeft: real, workingArea: real): (p: ColPlan)
    ensures |p.cols| == |cols|
  {
    var base := TailAttributes(cols);
    SetPreferred(Rebalance(cols, base, tableWidth, marginLeft, workingArea), UpdatedWidth(cols, base, tableWidth, marginLeft, workingArea))
  }

  /** `getColAttributes` changes nothing of the columns but their width and preferred width. */
  lemma ColAttributesFrame(cols: seq<Attrs>, tableWidth: real, marginLeft: real, workingArea: real)
    ensures var p := ColAttributes(cols, tableWidth, marginLeft, workingArea);
      forall i, k :: 0 <= i < |cols| && k != "width" && k != "table_preffered_width" ==>
        (k in p.cols[i] <==> k in cols[i]) && (k in cols[i] ==> p.cols[i][k] == cols[i][k])
  {
  }

  lemma RebalanceMeaning(cols: seq<Attrs>, base: Formats, tableWidth: real, marginLeft: real, workingArea: real)
    requires Overflows(base, tableWidth, marginLeft, workingArea)
    ensures var p := Rebalance(cols, base, tableWidth, marginLeft, workingArea);
      var pts := SharePoints(cols, marginLeft, workingArea);
      && (pts != 0.0 ==> forall i :: 0 <= i < |cols| ==> "width" in p.cols[i] && p.cols[i]["width"] == Numeric(pts, ""))
      && "width" in p.attrs && p.attrs["width"] == Number(pts)
  {
    assert "width" in COL_ATTRIBUTES;
  }

  lemma SetPreferredKeepsWidth(p: ColPlan, updated: Option<real>)
    ensures var r := SetPreferred(p, updated);
      && (forall i :: 0 <= i < |p.cols| && "width" in p.cols[i] ==> "width" in r.cols[i] && r.cols[i]["width"] == p.cols[i]["width"])
      && ("width" in p.attrs ==> "width" in r.attrs && r.attrs["width"] == p.attrs["width"])
  {
  }

  /** The equal share, back in pixels, fills the working area left of the margin. */
  lemma SharePointsFill(cols: seq<Attrs>, marginLeft: real, workingArea: real)
    ensures ConvertToPixels(SharePoints(cols, marginLeft, workingArea)) * (|cols| + 1) as real == workingArea - marginLeft
  {
    PixelsPointsRoundTrip(WidthPerCol(workingArea - marginLeft, |cols|));
  }

  lemma ColAttributesWidths(cols: seq<Attrs>, tableWidth: real, marginLeft: real, workingArea: real)
    requires Overflows(TailAttributes(cols), tableWidth, marginLeft, workingArea)
    ensures var p := ColAttributes(cols, tableWidth, marginLeft, workingArea);
      var pts := SharePoints(cols, marginLeft, workingArea);
      && (pts != 0.0 ==> forall i :: 0 <= i < |cols| ==> "width" in p.cols[i] && p.cols[i]["width"] == Numeric(pts, ""))
      && "width" in p.attrs && p.attrs["width"] == Number(pts)
  {
    var base := TailAttributes(cols);
    var q := Rebalance(cols, base, tableWidth, marginLeft, workingArea);
    RebalanceMeaning(cols, base, tableWidth, marginLeft, workingArea);
    SetPreferredKeepsWidth(q, UpdatedWidth(cols, base, tableWidth, marginLeft, workingArea));
  }

  /** On overflow the existing columns and the new one all get the same non-zero width, and
      together they fill the working area left of the margin exactly. */
  lemma ColAttributesMeaning(cols: seq<Attrs>, tableWidth: real, marginLeft: real, workingArea: real)
    ensures var p := ColAttributes(cols, tableWidth, marginLeft, workingArea);
      var pts := SharePoints(cols, marginLeft, workingArea);
      Overflows(TailAttributes(cols), tableWidth, marginLeft, workingArea) && pts != 0.0 ==>
        && (forall i :: 0 <= i < |cols| ==> "width" in p.cols[i] && p.cols[i]["width"] == Numeric(pts, ""))
        && ColCreate(p.attrs)["width"] == Numeric(pts, "")
        && ConvertToPixels(pts) * (|cols| + 1) as real == workingArea - marginLeft
  {
    SharePointsFill(cols, marginLeft, workingArea);
    if Overflows(TailAttributes(cols), tableWidth, marginLeft, workingArea) {
      ColAttributesWidths(cols, tableWidth, marginLeft, workingArea);
      var p := ColAttributes(cols, tableWidth, marginLeft, workingArea);
      assert "width" in COL_ATTRIBUTES;
      assert Get(p.attrs, "width") == Number(SharePoints(cols, marginLeft, workingArea));
    }
  }

  /** When the template column has a positive preferred width, the existing columns and the
      new one end with the same preferred width. */
  lemma ColAttributesPreferred(cols: seq<Attrs>, tableWidth: real, marginLeft: real, workingArea: real)
    ensures var p := ColAttributes(cols, tableWidth, marginLeft, workingArea);
      var pref := ParseFloat(Get(p.attrs, "table_preffered_width"));
      pref.Some? && pref.value > 0.0 ==>
        forall i :: 0 <= i < |cols| ==>
          "table_preffered_width" in p.cols[i] &&
          p.cols[i]["table_preffered_width"] == ColCreate(p.attrs)["table_preffered_width"]
  {
    assert "table_preffered_width" in COL_ATTRIBUTES;
  }

  /** Where the new column goes: after column `colIndex` (right) or before it (left); a
      missing left reference appends. Only asked when the reference can be read. */
  function ColumnSlot(count: nat, colIndex: int, isRight: bool): (at: nat)
    ensures at <= count
    ensures 0 <= colIndex < count ==> at == if isRight then colIndex + 1 else colIndex
  {
    if 0 <= colIndex < count then (if isRight then colIndex + 1 else colIndex) else count
  }

  // ---------------------------------------------------------------- the whole edit

  /** The top edge a cell has once the edit is laid out. */
  function TopOf(after: Cell -> Rect): Cell -> int {
    c => after(c).y
  }

  /** The table after `insertColumn` on a body with rows. `completed` is false when the new
      column is to go right of a column that does not exist (`tableCols[colIndex].next`
      fails): the new cells are in place and the columns reformatted, but no column is
      added and no cell grown. `geom` gives each cell's rectangle before the edit, `after`
      once it is laid out. */
  datatype ColumnInsertion = ColumnInsertion(cols: seq<Attrs>, rows: seq<Row>, affected: seq<Cell>, next: nat, completed: bool)

  function InsertColumnResult(cols: seq<Attrs>, rows: seq<Row>, geom: Cell -> Rect, after: Cell -> Rect, cmp: Rect,
                              colIndex: int, isRight: bool, n: nat,
                              tableWidth: real, marginLeft: real, workingArea: real): ColumnInsertion
  {
    var completes := 0 <= colIndex < |cols| || !isRight;
    var w := WidenRows(rows, geom, cmp, isRight, completes, n);
    var plan := ColAttributes(cols, tableWidth, marginLeft, workingArea);
    if !completes then ColumnInsertion(plan.cols, w.rows, [], w.next, false)
    else
      ColumnInsertion(InsertAt(plan.cols, ColumnSlot(|cols|, colIndex, isRight), ColCreate(plan.attrs)),
                      w.rows, SortByKey(w.added + w.grown, TopOf(after)), w.next, true)
  }

  /** The columns and the affected cells of an insert. */
  lemma InsertColumnColumns(cols: seq<Attrs>, rows: seq<Row>, geom: Cell -> Rect, after: Cell -> Rect, cmp: Rect,
                            colIndex: int, isRight: bool, n: nat,
                            tableWidth: real, marginLeft: real, workingArea: real)
    ensures var r := InsertColumnResult(cols, rows, geom, after, cmp, colIndex, isRight, n, tableWidth, marginLeft, workingArea);
      var plan := ColAttributes(cols, tableWidth, marginLeft, workingArea);
      var w := WidenRows(rows, geom, cmp, isRight, r.completed, n);
      && (r.completed <==> 0 <= colIndex < |cols| || !isRight)
      && (r.completed ==>
            var at := ColumnSlot(|cols|, colIndex, isRight);
            && |r.cols| == |cols| + 1
            && r.cols[at] == ColCreate(plan.attrs)
            && r.cols[..at] + r.cols[at + 1..] == plan.cols
            && SortedBy(r.affected, TopOf(after))
            && multiset(r.affected) == multiset(w.added + w.grown))
      && (!r.completed ==> r.cols == plan.cols)
  {
    var completes := 0 <= colIndex < |cols| || !isRight;
    if completes {
      var w := WidenRows(rows, geom, cmp, isRight, true, n);
      var plan := ColAttributes(cols, tableWidth, marginLeft, workingArea);
      var at := ColumnSlot(|cols|, colIndex, isRight);
      var r := InsertColumnResult(cols, rows, geom, after, cmp, colIndex, isRight, n, tableWidth, marginLeft, workingArea);
      assert r.cols == InsertAt(plan.cols, at, ColCreate(plan.attrs));
      assert r.affected == SortByKey(w.added + w.grown, TopOf(after));
      InsertAtRemoved(plan.cols, at, ColCreate(plan.attrs));
      SortByKeyPermutes(w.added + w.grown, TopOf(after));
    }
  }

  /** The rows of an insert. */
  lemma InsertColumnRows(cols: seq<Attrs>, rows: seq<Row>, geom: Cell -> Rect, after: Cell -> Rect, cmp: Rect,
                         colIndex: int, isRight: bool, n: nat,
                         tableWidth: real, marginLeft: real, workingArea: real)
    ensures var r := InsertColumnResult(cols, rows, geom, after, cmp, colIndex, isRight, n, tableWidth, marginLeft, workingArea);
      && |r.rows| == |rows|
      && (forall i :: 0 <= i < |rows| ==>
            r.rows[i].attrs == rows[i].attrs &&
            |r.rows[i].cells| == |rows[i].cells| + AsideCount(Classify(rows[i].cells, geom, cmp, isRight)))
  {
    WidenRowsMeaning(rows, geom, cmp, isRight, 0 <= colIndex < |cols| || !isRight, n);
  }

  /** A completed insert adds exactly one column, built from `getColAttributes`' result, at
      its slot, the other columns in their order; every row keeps its attributes and gains one
      cell per cell on the boundary; the affected cells are the new and the grown ones,
      ordered by their top edge. An insert right of a missing column adds no column. */
  lemma InsertColumnMeaning(cols: seq<Attrs>, rows: seq<Row>, geom: Cell -> Rect, after: Cell -> Rect, cmp: Rect,
                            colIndex: int, isRight: bool, n: nat,
                            tableWidth: real, marginLeft: real, workingArea: real)
    ensures var r := InsertColumnResult(cols, rows, geom, after, cmp, colIndex, isRight, n, tableWidth, marginLeft, workingArea);
      var plan := ColAttributes(cols, tableWidth, marginLeft, workingArea);
      var w := WidenRows(rows, geom, cmp, isRight, r.completed, n);
      && (r.completed <==> 0 <= colIndex < |cols| || !isRight)
      && (r.completed ==>
            var at := ColumnSlot(|cols|, colIndex, isRight);
            && |r.cols| == |cols| + 1
            && r.cols[at] == ColCreate(plan.attrs)
            && r.cols[..at] + r.cols[at + 1..] == plan.cols
            && SortedBy(r.affected, TopOf(after))
            && multiset(r.affected) == multiset(w.added + w.grown))
      && (!r.completed ==> r.cols == plan.cols)
      && |r.rows| == |rows|
      && (forall i :: 0 <= i < |rows| ==>
            r.rows[i].attrs == rows[i].attrs &&
            |r.rows[i].cells| == |rows[i].cells| + AsideCount(Classify(rows[i].cells, geom, cmp, isRight)))
  {
    InsertColumnColumns(cols, rows, geom, after, cmp, colIndex, isRight, n, tableWidth, marginLeft, workingArea);
    InsertColumnRows(cols, rows, geom, after, cmp, colIndex, isRight, n, tableWidth, marginLeft, workingArea);
  }
}

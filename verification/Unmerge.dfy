/** `unmergeCells`: every listed cell that spans several columns is narrowed to one and the
    missing cells are created right after it; every listed cell that spans several rows
    gets, in each row it reached below its own, as many new cells as it spanned columns,
    placed before the last cell whose left edge meets its right edge, and is then lowered
    to one row. The cells are processed in the order given; a cell reaching below the last
    row makes the source fail (`nextRow` is `null`) with the rows above already filled. */
module UnmergeCellsSpec {
  import opened JsValues
  import opened TableFormats
  import opened HitTest
  import opened Lists
  import opened CellFactory

  /** The smallest integer not below `r`. */
  function Ceil(r: real): (n: int)
    ensures r <= n as real < r + 1.0
  {
    -((-r).Floor)
  }

  /** How often `for (let i = v; i > bound; i--)` runs its body: `v > bound` compares
      `Number(v)`, and every pass lowers `i` by one. */
  function Steps(v: JsValue, bound: int): (k: nat)
    ensures k > 0 <==> ToNumber(v).Some? && ToNumber(v).value > bound as real
  {
    var x := ToNumber(v);
    if x.Some? && x.value > bound as real then Ceil(x.value - bound as real) else 0
  }

  /** A span stored as the integer `k` runs the loops `k - bound` times. */
  lemma StepsOfSpan(k: int, bound: int)
    ensures Steps(Text(Numeric(k as real, "")), bound) == if k > bound then k - bound else 0
  {
    if k > bound {
      var n := Ceil((k - bound) as real);
      assert n == k - bound;
    }
  }

  // ---------------------------------------------------------------- marked cells

  /** A cell with the positions in `unmergingCells` at which it is listed: the source holds
      references to the cells, which keep pointing at them while cells are inserted. */
  datatype MCell = MCell(cell: Cell, marks: set<nat>)

  datatype MRow = MRow(attrs: Attrs, cells: seq<MCell>)

  function Mark(rows: seq<Row>, targets: seq<Pos>): (g: seq<MRow>)
    ensures |g| == |rows|
    ensures forall i :: 0 <= i < |rows| ==> g[i].attrs == rows[i].attrs && |g[i].cells| == |rows[i].cells|
  {
    seq(|rows|, i requires 0 <= i < |rows| =>
      MRow(rows[i].attrs, seq(|rows[i].cells|, j requires 0 <= j < |rows[i].cells| =>
        MCell(rows[i].cells[j], set t | 0 <= t < |targets| && targets[t] == Pos(i, j)))))
  }

  function Unmark(g: seq<MRow>): (rows: seq<Row>)
    ensures |rows| == |g|
    ensures forall i :: 0 <= i < |g| ==> rows[i].attrs == g[i].attrs && |rows[i].cells| == |g[i].cells|
  {
    seq(|g|, i requires 0 <= i < |g| =>
      Row(g[i].attrs, seq(|g[i].cells|, j requires 0 <= j < |g[i].cells| => g[i].cells[j].cell)))
  }

  /** Marking changes no cell. */
  lemma UnmarkMark(rows: seq<Row>, targets: seq<Pos>)
    ensures Unmark(Mark(rows, targets)) == rows
  {
    var u := Unmark(Mark(rows, targets));
    forall i | 0 <= i < |rows| ensures u[i] == rows[i] {
      assert u[i].cells == rows[i].cells;
    }
  }

  /** Where the cell listed at `t` is now: the first cell carrying the mark. */
  function FindMark(g: seq<MRow>, t: nat): (p: Option<Pos>)
    ensures p.Some? ==> p.value.row < |g| && p.value.index < |g[p.value.row].cells| && t in g[p.value.row].cells[p.value.index].marks
  {
    if |g| == 0 then None
    else
      var j := FirstWhere(g[0].cells, (c: MCell) => t in c.marks);
      if j.Some? then Some(Pos(0, j.value))
      else
        var p := FindMark(g[1..], t);
        if p.Some? then Some(Pos(p.value.row + 1, p.value.index)) else None
  }

  /** The positions listed at the cells of a row. */
  function MarksOf(cells: seq<MCell>): set<nat> {
    if |cells| == 0 then {} else MarksOf(cells[..|cells| - 1]) + cells[|cells| - 1].marks
  }

  lemma {:induction false} MarksOfMeaning(cells: seq<MCell>, t: nat)
    ensures t in MarksOf(cells) <==> exists j :: 0 <= j < |cells| && t in cells[j].marks
  {
    if |cells| > 0 {
      var init := cells[..|cells| - 1];
      MarksOfMeaning(init, t);
      if t in MarksOf(init) {
        var j :| 0 <= j < |init| && t in init[j].marks;
        assert cells[j] == init[j];
      }
      if exists j :: 0 <= j < |cells| && t in cells[j].marks {
        var j :| 0 <= j < |cells| && t in cells[j].marks;
        if j < |init| {
          assert init[j] == cells[j];
        }
      }
    }
  }

  lemma {:induction false} MarksOfConcat(a: seq<MCell>, b: seq<MCell>)
    ensures MarksOf(a + b) == MarksOf(a) + MarksOf(b)
  {
    if |b| == 0 {
      assert a + b == a;
    } else {
      MarksOfConcat(a, b[..|b| - 1]);
      assert (a + b)[..|a + b| - 1] == a + b[..|b| - 1];
    }
  }

  /** A cell replaced by one listed alike, followed by unlisted cells. */
  lemma MarksOfSplice(s: seq<MCell>, at: nat, y: MCell, m: seq<MCell>)
    requires at < |s| && y.marks == s[at].marks && MarksOf(m) == {}
    ensures MarksOf(s[..at] + [y] + m + s[at + 1..]) == MarksOf(s)
  {
    var a, b := s[..at], s[at + 1..];
    MarksOfConcat(a + [y] + m, b);
    MarksOfConcat(a + [y], m);
    MarksOfConcat(a, [y]);
    MarksOfConcat(a + [s[at]], b);
    MarksOfConcat(a, [s[at]]);
    assert MarksOf([y]) == y.marks by { assert [y][..0] == []; }
    assert MarksOf([s[at]]) == s[at].marks by { assert [s[at]][..0] == []; }
    assert a + [s[at]] + b == s;
  }

  /** Some cell of the table is listed at `t`. */
  ghost predicate Listed(g: seq<MRow>, t: nat) {
    exists r :: 0 <= r < |g| && t in MarksOf(g[r].cells)
  }

  /** A listed position is found. */
  lemma {:induction false} FindMarkFinds(g: seq<MRow>, t: nat)
    requires Listed(g, t)
    ensures FindMark(g, t).Some?
  {
    var r :| 0 <= r < |g| && t in MarksOf(g[r].cells);
    var j := FirstWhere(g[0].cells, (c: MCell) => t in c.marks);
    if j.None? {
      MarksOfMeaning(g[0].cells, t);
      assert r > 0;
      assert g[1..][r - 1] == g[r];
      FindMarkFinds(g[1..], t);
    }
  }

  /** Every valid listed position is listed once the cells are marked. */
  lemma MarkListed(rows: seq<Row>, targets: seq<Pos>, t: nat)
    requires t < |targets| && ValidPos(rows, targets[t])
    ensures Listed(Mark(rows, targets), t)
  {
    var g := Mark(rows, targets);
    var p := targets[t];
    assert t in g[p.row].cells[p.index].marks;
    MarksOfMeaning(g[p.row].cells, t);
  }

  /** The number of cells in the first `k` rows. */
  function CellsUpTo(g: seq<MRow>, k: nat): nat
    requires k <= |g|
  {
    if k == 0 then 0 else CellsUpTo(g, k - 1) + |g[k - 1].cells|
  }

  /** The number of cells of the table. */
  function Size(g: seq<MRow>): nat {
    CellsUpTo(g, |g|)
  }

  lemma {:induction false} CellsUpToUpdate(g: seq<MRow>, i: nat, r: MRow, k: nat)
    requires i < |g| && k <= |g|
    ensures CellsUpTo(g[i := r], k) == CellsUpTo(g, k) + (if i < k then |r.cells| - |g[i].cells| else 0)
  {
    if k > 0 {
      CellsUpToUpdate(g, i, r, k - 1);
    }
  }

  lemma SizeUpdate(g: seq<MRow>, i: nat, r: MRow)
    requires i < |g|
    ensures Size(g[i := r]) == Size(g) - |g[i].cells| + |r.cells|
  {
    CellsUpToUpdate(g, i, r, |g|);
  }

  lemma SizeGrows(g: seq<MRow>, i: nat, r: MRow, d: nat)
    requires i < |g| && |r.cells| == |g[i].cells| + d
    ensures Size(g[i := r]) == Size(g) + d
  {
    CellsUpToUpdate(g, i, r, |g|);
  }

  // ---------------------------------------------------------------- repeated insertCell

  /** `k` times `insertCell(row, ref)` where `ref` is the cell at `at` (or none, `at` being
      the row's length): the new cells line up, in creation order, from `at` on. */
  function InsertCells(row: MRow, at: nat, k: nat, n: nat, make: CellMaker): (r: (MRow, nat))
    requires at <= |row.cells|
    ensures r.0.attrs == row.attrs && |r.0.cells| == |row.cells| + k
  {
    if k == 0 then (row, n)
    else
      var (r', n') := InsertCells(row, at, k - 1, n, make);
      var m := make(row.attrs, n');
      (MRow(row.attrs, InsertAt(r'.cells, at + k - 1, MCell(m.cell, {}))), m.next)
  }

  /** The cells `k` calls of the maker create in a row with `attrs`, in creation order, and
      the counter after them. */
  function MadeCells(attrs: Attrs, k: nat, n: nat, make: CellMaker): (r: (seq<MCell>, nat))
    ensures |r.0| == k
  {
    if k == 0 then ([], n)
    else
      var (made, n') := MadeCells(attrs, k - 1, n, make);
      var m := make(attrs, n');
      (made + [MCell(m.cell, {})], m.next)
  }

  lemma {:induction false} MadeCellsUnlisted(attrs: Attrs, k: nat, n: nat, make: CellMaker)
    ensures MarksOf(MadeCells(attrs, k, n, make).0) == {}
  {
    if k > 0 {
      MadeCellsUnlisted(attrs, k - 1, n, make);
      var made := MadeCells(attrs, k - 1, n, make).0;
      assert (made + [MCell(make(attrs, MadeCells(attrs, k - 1, n, make).1).cell, {})])[..k - 1] == made;
    }
  }

  /** Inserting `k` cells one by one before the same reference lines them up, in creation
      order, between the cells before `at` and those from `at` on. */
  lemma {:induction false} InsertCellsLineUp(row: MRow, at: nat, k: nat, n: nat, make: CellMaker)
    requires at <= |row.cells|
    ensures var made := MadeCells(row.attrs, k, n, make);
      InsertCells(row, at, k, n, make) == (MRow(row.attrs, row.cells[..at] + made.0 + row.cells[at..]), made.1)
  {
    if k > 0 {
      InsertCellsLineUp(row, at, k - 1, n, make);
      var made := MadeCells(row.attrs, k - 1, n, make);
      var x := MCell(make(row.attrs, made.1).cell, {});
      var m := make(row.attrs, made.1);
      assert MadeCells(row.attrs, k, n, make) == (made.0 + [x], m.next);
      var prev := row.cells[..at] + made.0 + row.cells[at..];
      assert InsertCells(row, at, k, n, make) == (MRow(row.attrs, InsertAt(prev, at + k - 1, x)), m.next);
      InsertAfterMiddle(row.cells[..at], made.0, row.cells[at..], x);
    } else {
      assert row.cells[..at] + [] + row.cells[at..] == row.cells;
    }
  }

  lemma InsertAfterMiddle<T>(a: seq<T>, m: seq<T>, b: seq<T>, x: T)
    ensures InsertAt(a + m + b, |a| + |m|, x) == a + (m + [x]) + b
  {
    var s := a + m + b;
    assert s[..|a| + |m|] == a + m;
    assert s[|a| + |m|..] == b;
  }

  /** The counter only moves forward. */
  ghost predicate Advances(make: CellMaker) {
    forall a, k :: make(a, k).next > k
  }

  lemma {:induction false} MadeCellsAdvance(attrs: Attrs, k: nat, n: nat, make: CellMaker)
    requires Advances(make)
    ensures MadeCells(attrs, k, n, make).1 >= n + k
  {
    if k > 0 {
      MadeCellsAdvance(attrs, k - 1, n, make);
    }
  }

  lemma PlainCellsAdvance(make: CellMaker)
    requires MakesPlainCells(make)
    ensures Advances(make)
  {
  }

  /** An unlisted cell `insertCell` made in the row with `attrs`, its id minted while the
      counter stood between `lo` and `hi`. */
  ghost predicate NewCellBetween(c: MCell, lo: nat, hi: nat, attrs: Attrs) {
    c.marks == {} && exists id :: lo <= id < hi && PlainCellOf(c.cell, id, attrs)
  }

  lemma NewCellWithin(c: MCell, lo: nat, hi: nat, hi': nat, attrs: Attrs)
    requires NewCellBetween(c, lo, hi, attrs) && hi <= hi'
    ensures NewCellBetween(c, lo, hi', attrs)
  {
  }

  /** Every made cell is a fresh, unlisted cell with both spans 1, the row's id and an id
      taken from the counter, which moves past one id per cell at least. */
  lemma {:induction false} MadeCellsNew(attrs: Attrs, k: nat, n: nat, make: CellMaker)
    requires MakesPlainCells(make)
    ensures var r := MadeCells(attrs, k, n, make);
      && r.1 >= n + k
      && forall q :: 0 <= q < k ==> NewCellBetween(r.0[q], n, r.1, attrs)
  {
    if k > 0 {
      MadeCellsNew(attrs, k - 1, n, make);
      var made := MadeCells(attrs, k - 1, n, make);
      var m := make(attrs, made.1);
      assert m.next > made.1 && PlainCellOf(m.cell, made.1, attrs);
      var r := MadeCells(attrs, k, n, make);
      assert r.0 == made.0 + [MCell(m.cell, {})];
      forall q | 0 <= q < k
        ensures NewCellBetween(r.0[q], n, r.1, attrs)
      {
        if q < k - 1 {
          assert r.0[q] == made.0[q];
          NewCellWithin(made.0[q], n, made.1, r.1, attrs);
        } else {
          assert PlainCellOf(r.0[q].cell, made.1, attrs);
        }
      }
    }
  }

  // ---------------------------------------------------------------- one cell

  /** The table while one cell is unmerged, the counter, and whether the source failed. */
  datatype Unmerged = Unmerged(rows: seq<MRow>, next: nat, threw: bool)

  /** The rows below row `i`, up to `count` of them: each gets `per` new cells before its
      last cell whose left edge meets `x1`, or at its end. Reaching past the last row
      fails, the rows above filled. */
  function FillBelow(g: seq<MRow>, i: nat, count: nat, per: nat, x1: int, geom: Cell -> Rect, n: nat, make: CellMaker): (u: Unmerged)
    requires i < |g|
    ensures |u.rows| == |g|
  {
    if count == 0 then Unmerged(g, n, false)
    else
      var u := FillBelow(g, i, count - 1, per, x1, geom, n, make);
      if u.threw then u
      else if i + count >= |g| then Unmerged(u.rows, u.next, true)
      else
        var r := FillRow(u.rows[i + count], per, x1, geom, u.next, make);
        Unmerged(u.rows[i + count := r.0], r.1, false)
  }

  /** One row below: `per` new cells before its last cell whose left edge meets `x1`, or
      at its end. */
  function FillRow(row: MRow, per: nat, x1: int, geom: Cell -> Rect, n: nat, make: CellMaker): (r: (MRow, nat))
    ensures r.0.attrs == row.attrs && |r.0.cells| == |row.cells| + per
  {
    var ref := LastWhere(row.cells, (c: MCell) => Near(x1, geom(c.cell).x));
    InsertCells(row, if ref.Some? then ref.value else |row.cells|, per, n, make)
  }

  /** Filling fails exactly when the span reaches past the last row, and never touches the
      row of the cell or those above it. */
  lemma {:induction false} FillBelowFails(g: seq<MRow>, i: nat, count: nat, per: nat, x1: int, geom: Cell -> Rect, n: nat, make: CellMaker)
    requires i < |g|
    ensures var u := FillBelow(g, i, count, per, x1, geom, n, make);
      && (u.threw <==> count > 0 && i + count >= |g|)
      && (forall k :: 0 <= k <= i ==> u.rows[k] == g[k])
  {
    if count > 0 {
      FillBelowFails(g, i, count - 1, per, x1, geom, n, make);
    }
  }

  /** Unless it fails, filling gives each of the `count` rows below `per` more cells and
      leaves the size of every other row. */
  lemma {:induction false} FillBelowRows(g: seq<MRow>, i: nat, count: nat, per: nat, x1: int, geom: Cell -> Rect, n: nat, make: CellMaker)
    requires i < |g|
    ensures var u := FillBelow(g, i, count, per, x1, geom, n, make);
      !u.threw ==>
        forall k :: i < k < |g| ==>
          u.rows[k].attrs == g[k].attrs &&
          |u.rows[k].cells| == |g[k].cells| + (if k <= i + count then per else 0)
  {
    if count > 0 {
      FillBelowRows(g, i, count - 1, per, x1, geom, n, make);
    }
  }

  /** Unless it fails, the table grows by `count * per` cells. */
  lemma {:induction false} FillBelowSize(g: seq<MRow>, i: nat, count: nat, per: nat, x1: int, geom: Cell -> Rect, n: nat, make: CellMaker)
    requires i < |g|
    ensures var u := FillBelow(g, i, count, per, x1, geom, n, make);
      !u.threw ==> Size(u.rows) == Size(g) + count * per
  {
    if count > 0 {
      FillBelowSize(g, i, count - 1, per, x1, geom, n, make);
      FillBelowStep(g, i, count, per, x1, geom, n, make);
      var u := FillBelow(g, i, count - 1, per, x1, geom, n, make);
      var w := FillBelow(g, i, count, per, x1, geom, n, make);
      if !u.threw && i + count < |g| {
        var r := FillRow(u.rows[i + count], per, x1, geom, u.next, make);
        assert w.rows == u.rows[i + count := r.0];
        SizeGrows(u.rows, i + count, r.0, per);
        assert Size(w.rows) == Size(u.rows) + per == Size(g) + (count - 1) * per + per;
        assert (count - 1) * per + per == count * per;
      } else {
        assert w.threw;
      }
    }
  }

  /** Unless it fails, the counter does not go back. */
  lemma {:induction false} FillBelowAdvances(g: seq<MRow>, i: nat, count: nat, per: nat, x1: int, geom: Cell -> Rect, n: nat, make: CellMaker)
    requires i < |g|
    requires Advances(make)
    ensures FillBelow(g, i, count, per, x1, geom, n, make).next >= n
  {
    if count > 0 {
      FillBelowAdvances(g, i, count - 1, per, x1, geom, n, make);
      var u := FillBelow(g, i, count - 1, per, x1, geom, n, make);
      if !u.threw && i + count < |g| {
        MadeCellsAdvance(u.rows[i + count].attrs, per, u.next, make);
        var row := u.rows[i + count];
        var ref := LastWhere(row.cells, (c: MCell) => Near(x1, geom(c.cell).x));
        InsertCellsLineUp(row, if ref.Some? then ref.value else |row.cells|, per, u.next, make);
      }
    }
  }

  /** A row below gets its `per` new cells, in creation order, right before its last cell
      whose left edge meets `x1`, or after all of them when there is none. */
  lemma FillRowMeaning(row: MRow, per: nat, x1: int, geom: Cell -> Rect, n: nat, make: CellMaker)
    ensures var r := FillRow(row, per, x1, geom, n, make);
      var made := MadeCells(row.attrs, per, n, make);
      exists at :: 0 <= at <= |row.cells|
        && (forall j :: at <= j < |row.cells| ==> (Near(x1, geom(row.cells[j].cell).x) <==> j == at))
        && (at == |row.cells| || Near(x1, geom(row.cells[at].cell).x))
        && r == (MRow(row.attrs, row.cells[..at] + made.0 + row.cells[at..]), made.1)
  {
    var ref := LastWhere(row.cells, (c: MCell) => Near(x1, geom(c.cell).x));
    var at := if ref.Some? then ref.value else |row.cells|;
    InsertCellsLineUp(row, at, per, n, make);
  }

  /** The cell's `formats()` value for a span. */
  function SpanText(c: Cell, key: string): JsValue {
    Get(CellFormats(c.attrs), key)
  }

  /** `d` is `c` with the span `key` set to 1 on the cell and on every line, every other
      attribute as it was. */
  ghost predicate SpanReset(c: Cell, d: Cell, key: string) {
    && |d.lines| == |c.lines|
    && key in d.attrs && d.attrs[key] == Numeric(1.0, "")
    && (forall i :: 0 <= i < |d.lines| ==> key in d.lines[i] && d.lines[i][key] == Numeric(1.0, ""))
    && (forall j :: j != key ==> (j in d.attrs <==> j in c.attrs) && (j in d.attrs ==> d.attrs[j] == c.attrs[j]))
    && (forall i, j :: 0 <= i < |d.lines| && j != key ==>
          (j in d.lines[i] <==> j in c.lines[i]) && (j in d.lines[i] ==> d.lines[i][j] == c.lines[i][j]))
  }

  /** `format(key, 1)` resets a span. */
  lemma SpanResetByFormat(c: Cell, key: string)
    requires key in CELL_ATTRIBUTES
    ensures SpanReset(c, CellFormat(c, key, Number(1.0)), key)
  {
    assert CellKey(key) == Some(key);
  }

  /** The unmerged cell after `format('colspan', 1)` when it spans several columns. */
  function Narrowed(c: Cell): Cell {
    if Steps(SpanText(c, "colspan"), 1) > 0 then CellFormat(c, "colspan", Number(1.0)) else c
  }

  /** A cell spanning several columns loses its colspan on the cell and on every line;
      any other cell is left as it is. */
  lemma NarrowedMeaning(c: Cell)
    ensures Steps(SpanText(c, "colspan"), 1) > 0 ==> SpanReset(c, Narrowed(c), "colspan")
    ensures Steps(SpanText(c, "colspan"), 1) == 0 ==> Narrowed(c) == c
  {
    SpanResetByFormat(c, "colspan");
  }

  /** The row of the cell at `at` once it is narrowed and the cells it spanned to its right
      are created right after it. */
  function SplitRow(row: MRow, at: nat, n: nat, make: CellMaker): (r: (MRow, nat))
    requires at < |row.cells|
    ensures r.0.attrs == row.attrs
    ensures |r.0.cells| == |row.cells| + Steps(SpanText(row.cells[at].cell, "colspan"), 1)
  {
    var t := row.cells[at];
    var narrowed := MRow(row.attrs, row.cells[at := MCell(Narrowed(t.cell), t.marks)]);
    InsertCells(narrowed, at + 1, Steps(SpanText(t.cell, "colspan"), 1), n, make)
  }

  /** The cells before the split one and after it stay; it keeps its place and its marks;
      the new cells follow it. */
  lemma SplitRowMeaning(row: MRow, at: nat, n: nat, make: CellMaker)
    requires at < |row.cells|
    ensures var t := row.cells[at];
      var made := MadeCells(row.attrs, Steps(SpanText(t.cell, "colspan"), 1), n, make);
      SplitRow(row, at, n, make) == (MRow(row.attrs, row.cells[..at] + [MCell(Narrowed(t.cell), t.marks)] + made.0 + row.cells[at + 1..]), made.1)
  {
    var t := row.cells[at];
    var narrowed := MRow(row.attrs, row.cells[at := MCell(Narrowed(t.cell), t.marks)]);
    InsertCellsLineUp(narrowed, at + 1, Steps(SpanText(t.cell, "colspan"), 1), n, make);
    assert narrowed.cells[..at + 1] == row.cells[..at] + [MCell(Narrowed(t.cell), t.marks)];
    assert narrowed.cells[at + 1..] == row.cells[at + 1..];
  }

  /** The row with the cell at `at` lowered to one row by `format('rowspan', 1)`. */
  function Lowered(row: MRow, at: nat): (r: MRow)
    requires at < |row.cells|
    ensures r.attrs == row.attrs && |r.cells| == |row.cells|
  {
    var t := row.cells[at];
    MRow(row.attrs, row.cells[at := MCell(CellFormat(t.cell, "rowspan", Number(1.0)), t.marks)])
  }

  /** Unmerging the cell at `p`. `geom` gives a cell's rectangle as laid out at the moment
      it is measured: the narrowed cell's right edge against the next rows' left edges. */
  function UnmergeAt(g: seq<MRow>, p: Pos, geom: Cell -> Rect, n: nat, make: CellMaker): (u: Unmerged)
    requires p.row < |g| && p.index < |g[p.row].cells|
    ensures |u.rows| == |g|
  {
    var t := g[p.row].cells[p.index];
    var (row, n1) := SplitRow(g[p.row], p.index, n, make);
    var rs := SpanText(t.cell, "rowspan");
    if Steps(rs, 1) == 0 then Unmerged(g[p.row := row], n1, false)
    else
      var per := Steps(SpanText(t.cell, "colspan"), 0);
      var u := FillBelow(g[p.row := row], p.row, Steps(rs, 1), per, geom(Narrowed(t.cell)).x1, geom, n1, make);
      if u.threw then u
      else Unmerged(u.rows[p.row := Lowered(row, p.index)], u.next, false)
  }

  /** Unmerging a cell spanning `c` columns and `r` rows (read as `Steps`) adds `c - 1`
      cells right after it and `c` cells in each of the `r - 1` rows below: the table grows
      by `(c - 1) + (r - 1) * c` cells, `c * r - 1` for integer spans. It fails exactly
      when the span reaches past the last row. */
  lemma UnmergeAtSize(g: seq<MRow>, p: Pos, geom: Cell -> Rect, n: nat, make: CellMaker)
    requires p.row < |g| && p.index < |g[p.row].cells|
    ensures var u := UnmergeAt(g, p, geom, n, make);
      var c := g[p.row].cells[p.index].cell;
      var cs, rs := SpanText(c, "colspan"), SpanText(c, "rowspan");
      && (u.threw <==> Steps(rs, 1) > 0 && p.row + Steps(rs, 1) >= |g|)
      && (!u.threw ==> Size(u.rows) == Size(g) + Steps(cs, 1) + Steps(rs, 1) * Steps(cs, 0))
  {
    var t := g[p.row].cells[p.index];
    var (row, n1) := SplitRow(g[p.row], p.index, n, make);
    var g1 := g[p.row := row];
    SizeUpdate(g, p.row, row);
    var rs := SpanText(t.cell, "rowspan");
    if Steps(rs, 1) > 0 {
      var per := Steps(SpanText(t.cell, "colspan"), 0);
      var x1 := geom(Narrowed(t.cell)).x1;
      FillBelowFails(g1, p.row, Steps(rs, 1), per, x1, geom, n1, make);
      FillBelowSize(g1, p.row, Steps(rs, 1), per, x1, geom, n1, make);
      var u := FillBelow(g1, p.row, Steps(rs, 1), per, x1, geom, n1, make);
      if !u.threw {
        assert u.rows[p.row] == row;
        SizeUpdate(u.rows, p.row, Lowered(row, p.index));
      }
    }
  }

  /** For integer spans `c, r >= 1` the table grows by `c * r - 1` cells. */
  lemma UnmergeAtSizeIntegral(g: seq<MRow>, p: Pos, geom: Cell -> Rect, n: nat, make: CellMaker, c: int, r: int)
    requires p.row < |g| && p.index < |g[p.row].cells|
    requires c >= 1 && r >= 1
    requires SpanText(g[p.row].cells[p.index].cell, "colspan") == Text(Numeric(c as real, ""))
    requires SpanText(g[p.row].cells[p.index].cell, "rowspan") == Text(Numeric(r as real, ""))
    requires p.row + r - 1 < |g|
    ensures var u := UnmergeAt(g, p, geom, n, make);
      !u.threw && Size(u.rows) == Size(g) + c * r - 1
  {
    UnmergeAtSize(g, p, geom, n, make);
    GridSteps(c, r);
  }

  lemma GridSteps(c: int, r: int)
    requires c >= 1 && r >= 1
    ensures var cs, rs := Text(Numeric(c as real, "")), Text(Numeric(r as real, ""));
      Steps(rs, 1) == r - 1 && Steps(cs, 1) + Steps(rs, 1) * Steps(cs, 0) == c * r - 1
  {
    StepsOfSpan(c, 1);
    StepsOfSpan(c, 0);
    StepsOfSpan(r, 1);
    assert (c - 1) + (r - 1) * c == c * r - 1;
  }

  /** In its own row, unmerging splits the cell and lowers it unless it spanned one row or
      the source failed; the counter does not go back. */
  lemma UnmergeAtOwnRow(g: seq<MRow>, p: Pos, geom: Cell -> Rect, n: nat, make: CellMaker)
    requires p.row < |g| && p.index < |g[p.row].cells|
    requires Advances(make)
    ensures var u := UnmergeAt(g, p, geom, n, make);
      var t := g[p.row].cells[p.index];
      var split := SplitRow(g[p.row], p.index, n, make);
      && u.rows[p.row] == (if Steps(SpanText(t.cell, "rowspan"), 1) > 0 && !u.threw then Lowered(split.0, p.index) else split.0)
      && u.next >= split.1
  {
    var t := g[p.row].cells[p.index];
    var (row, n1) := SplitRow(g[p.row], p.index, n, make);
    var rs := SpanText(t.cell, "rowspan");
    if Steps(rs, 1) > 0 {
      var per := Steps(SpanText(t.cell, "colspan"), 0);
      var x1 := geom(Narrowed(t.cell)).x1;
      FillBelowFails(g[p.row := row], p.row, Steps(rs, 1), per, x1, geom, n1, make);
      FillBelowAdvances(g[p.row := row], p.row, Steps(rs, 1), per, x1, geom, n1, make);
    }
  }

  /** The split row: the unmerged cell keeps its place and its marks and is narrowed; the
      new cells, fresh and unlisted, follow it; the cells around them stay. */
  lemma SplitRowCells(row: MRow, at: nat, n: nat, make: CellMaker)
    requires at < |row.cells|
    requires MakesPlainCells(make)
    ensures var split := SplitRow(row, at, n, make);
      var t := row.cells[at];
      var wide := Steps(SpanText(t.cell, "colspan"), 1);
      var cells := split.0.cells;
      && cells[..at] == row.cells[..at]
      && cells[at + 1 + wide..] == row.cells[at + 1..]
      && cells[at] == MCell(Narrowed(t.cell), t.marks)
      && forall q :: at < q <= at + wide ==> NewCellBetween(cells[q], n, split.1, row.attrs)
  {
    var t := row.cells[at];
    var wide := Steps(SpanText(t.cell, "colspan"), 1);
    SplitRowMeaning(row, at, n, make);
    MadeCellsNew(row.attrs, wide, n, make);
    var made := MadeCells(row.attrs, wide, n, make);
    Parts(row.cells[..at], MCell(Narrowed(t.cell), t.marks), made.0, row.cells[at + 1..]);
  }

  /** Where the parts of `a + [x] + m + b` stand. */
  lemma Parts<T>(a: seq<T>, x: T, m: seq<T>, b: seq<T>)
    ensures var s := a + [x] + m + b;
      && s[..|a|] == a && s[|a|] == x && s[|a| + 1 + |m|..] == b
      && forall q :: |a| < q <= |a| + |m| ==> s[q] == m[q - |a| - 1]
  {
    var s := a + [x] + m + b;
    assert s[..|a|] == a;
    assert s[|a| + 1 + |m|..] == b;
  }

  /** Lowering touches only the cell at `at`: its marks stay and its rowspan is reset. */
  lemma LoweredMeaning(row: MRow, at: nat)
    requires at < |row.cells|
    ensures var r := Lowered(row, at);
      && r.cells[..at] == row.cells[..at]
      && r.cells[at + 1..] == row.cells[at + 1..]
      && r.cells[at].marks == row.cells[at].marks
      && SpanReset(row.cells[at].cell, r.cells[at].cell, "rowspan")
  {
    SpanResetByFormat(row.cells[at].cell, "rowspan");
  }

  /** In its own row the unmerged cell keeps its place and its marks, is narrowed, and is
      lowered (rowspan 1 on the cell and every line) when it spanned several rows and the
      source did not fail; the new cells, fresh and unlisted, follow it; the cells around
      them stay. */
  lemma UnmergeAtRow(g: seq<MRow>, p: Pos, geom: Cell -> Rect, n: nat, make: CellMaker)
    requires p.row < |g| && p.index < |g[p.row].cells|
    requires MakesPlainCells(make)
    ensures var u := UnmergeAt(g, p, geom, n, make);
      var t := g[p.row].cells[p.index];
      var wide := Steps(SpanText(t.cell, "colspan"), 1);
      var lowered := Steps(SpanText(t.cell, "rowspan"), 1) > 0 && !u.threw;
      var cells := u.rows[p.row].cells;
      && |cells| == |g[p.row].cells| + wide
      && cells[..p.index] == g[p.row].cells[..p.index]
      && cells[p.index + 1 + wide..] == g[p.row].cells[p.index + 1..]
      && cells[p.index].marks == t.marks
      && (lowered ==> SpanReset(Narrowed(t.cell), cells[p.index].cell, "rowspan"))
      && (!lowered ==> cells[p.index].cell == Narrowed(t.cell))
      && forall q :: p.index < q <= p.index + wide ==> NewCellBetween(cells[q], n, u.next, g[p.row].attrs)
  {
    PlainCellsAdvance(make);
    UnmergeAtOwnRow(g, p, geom, n, make);
    SplitRowCells(g[p.row], p.index, n, make);
    var u := UnmergeAt(g, p, geom, n, make);
    var t := g[p.row].cells[p.index];
    var wide := Steps(SpanText(t.cell, "colspan"), 1);
    var split := SplitRow(g[p.row], p.index, n, make);
    var cells := u.rows[p.row].cells;
    if Steps(SpanText(t.cell, "rowspan"), 1) > 0 && !u.threw {
      LoweredMeaning(split.0, p.index);
      assert cells[p.index + 1..] == split.0.cells[p.index + 1..];
      forall q | p.index < q <= p.index + wide
        ensures cells[q] == split.0.cells[q]
      {
        assert cells[q] == cells[p.index + 1..][q - p.index - 1];
      }
      assert cells[p.index + 1 + wide..] == split.0.cells[p.index + 1..][wide..];
    }
    forall q | p.index < q <= p.index + wide
      ensures NewCellBetween(cells[q], n, u.next, g[p.row].attrs)
    {
      NewCellWithin(split.0.cells[q], n, split.1, u.next, g[p.row].attrs);
    }
  }

  // ---------------------------------------------------------------- listed cells stay

  /** Inserting cells lists nothing new and loses nothing listed. */
  lemma InsertCellsMarks(row: MRow, at: nat, k: nat, n: nat, make: CellMaker)
    requires at <= |row.cells|
    ensures MarksOf(InsertCells(row, at, k, n, make).0.cells) == MarksOf(row.cells)
  {
    InsertCellsLineUp(row, at, k, n, make);
    MadeCellsUnlisted(row.attrs, k, n, make);
    MarksOfInserted(row.cells[..at], MadeCells(row.attrs, k, n, make).0, row.cells[at..]);
    assert row.cells[..at] + row.cells[at..] == row.cells;
  }

  /** Filling a row below lists nothing new and loses nothing listed. */
  lemma FillRowMarks(row: MRow, per: nat, x1: int, geom: Cell -> Rect, n: nat, make: CellMaker)
    ensures MarksOf(FillRow(row, per, x1, geom, n, make).0.cells) == MarksOf(row.cells)
  {
    var ref := LastWhere(row.cells, (c: MCell) => Near(x1, geom(c.cell).x));
    InsertCellsMarks(row, if ref.Some? then ref.value else |row.cells|, per, n, make);
  }

  lemma MarksOfInserted(a: seq<MCell>, m: seq<MCell>, b: seq<MCell>)
    requires MarksOf(m) == {}
    ensures MarksOf(a + m + b) == MarksOf(a + b)
  {
    MarksOfConcat(a + m, b);
    MarksOfConcat(a, m);
    MarksOfConcat(a, b);
  }

  /** The listed cells of each row. */
  ghost function MarksByRow(g: seq<MRow>): seq<set<nat>> {
    seq(|g|, r requires 0 <= r < |g| => MarksOf(g[r].cells))
  }

  /** Row by row, `h` lists exactly what `g` lists. */
  ghost predicate SameMarks(g: seq<MRow>, h: seq<MRow>) {
    MarksByRow(g) == MarksByRow(h)
  }

  lemma SameMarksRow(g: seq<MRow>, h: seq<MRow>, r: nat)
    requires SameMarks(g, h) && r < |g|
    ensures |h| == |g| && MarksOf(h[r].cells) == MarksOf(g[r].cells)
  {
    assert |MarksByRow(g)| == |MarksByRow(h)|;
    assert MarksByRow(g)[r] == MarksByRow(h)[r];
  }

  lemma SameMarksUpdate(g: seq<MRow>, k: nat, row: MRow)
    requires k < |g| && MarksOf(row.cells) == MarksOf(g[k].cells)
    ensures SameMarks(g, g[k := row])
  {
    assert forall r :: 0 <= r < |g| ==> MarksByRow(g[k := row])[r] == MarksByRow(g)[r];
  }

  lemma SameMarksTrans(a: seq<MRow>, b: seq<MRow>, c: seq<MRow>)
    requires SameMarks(a, b) && SameMarks(b, c)
    ensures SameMarks(a, c)
  {
  }

  /** One more row below, when none has failed yet. */
  lemma FillBelowStep(g: seq<MRow>, i: nat, count: nat, per: nat, x1: int, geom: Cell -> Rect, n: nat, make: CellMaker)
    requires i < |g| && count > 0
    ensures var u := FillBelow(g, i, count - 1, per, x1, geom, n, make);
      FillBelow(g, i, count, per, x1, geom, n, make) ==
        if u.threw then u
        else if i + count >= |g| then Unmerged(u.rows, u.next, true)
        else
          var r := FillRow(u.rows[i + count], per, x1, geom, u.next, make);
          Unmerged(u.rows[i + count := r.0], r.1, false)
  {
  }

  lemma {:induction false} FillBelowMarks(g: seq<MRow>, i: nat, count: nat, per: nat, x1: int, geom: Cell -> Rect, n: nat, make: CellMaker)
    requires i < |g|
    ensures SameMarks(g, FillBelow(g, i, count, per, x1, geom, n, make).rows)
  {
    if count > 0 {
      FillBelowMarks(g, i, count - 1, per, x1, geom, n, make);
      FillBelowStep(g, i, count, per, x1, geom, n, make);
      var u := FillBelow(g, i, count - 1, per, x1, geom, n, make);
      if !u.threw && i + count < |g| {
        var r := FillRow(u.rows[i + count], per, x1, geom, u.next, make);
        FillRowMarks(u.rows[i + count], per, x1, geom, u.next, make);
        SameMarksUpdate(u.rows, i + count, r.0);
        SameMarksTrans(g, u.rows, u.rows[i + count := r.0]);
      }
    }
  }

  lemma SplitRowMarks(row: MRow, at: nat, n: nat, make: CellMaker)
    requires at < |row.cells|
    ensures MarksOf(SplitRow(row, at, n, make).0.cells) == MarksOf(row.cells)
  {
    var t := row.cells[at];
    SplitRowMeaning(row, at, n, make);
    MadeCellsUnlisted(row.attrs, Steps(SpanText(t.cell, "colspan"), 1), n, make);
    var made := MadeCells(row.attrs, Steps(SpanText(t.cell, "colspan"), 1), n, make).0;
    MarksOfSplice(row.cells, at, MCell(Narrowed(t.cell), t.marks), made);
  }

  lemma LoweredMarks(row: MRow, at: nat)
    requires at < |row.cells|
    ensures MarksOf(Lowered(row, at).cells) == MarksOf(row.cells)
  {
    var r := Lowered(row, at);
    assert MarksOf([]) == {};
    MarksOfSplice(row.cells, at, r.cells[at], []);
    UpdateSplice(row.cells, at, r.cells[at]);
  }

  lemma UpdateSplice<T>(s: seq<T>, at: nat, y: T)
    requires at < |s|
    ensures s[at := y] == s[..at] + [y] + [] + s[at + 1..]
  {
  }

  /** Unmerging one cell keeps, row by row, exactly the listed positions: every cell the
      source holds a reference to is still in its row. */
  lemma UnmergeAtMarks(g: seq<MRow>, p: Pos, geom: Cell -> Rect, n: nat, make: CellMaker)
    requires p.row < |g| && p.index < |g[p.row].cells|
    ensures SameMarks(g, UnmergeAt(g, p, geom, n, make).rows)
  {
    var t := g[p.row].cells[p.index];
    var (row, n1) := SplitRow(g[p.row], p.index, n, make);
    SplitRowMarks(g[p.row], p.index, n, make);
    var g1 := g[p.row := row];
    SameMarksUpdate(g, p.row, row);
    var rs := SpanText(t.cell, "rowspan");
    if Steps(rs, 1) > 0 {
      var per := Steps(SpanText(t.cell, "colspan"), 0);
      var x1 := geom(Narrowed(t.cell)).x1;
      var u := FillBelow(g1, p.row, Steps(rs, 1), per, x1, geom, n1, make);
      FillBelowMarks(g1, p.row, Steps(rs, 1), per, x1, geom, n1, make);
      SameMarksTrans(g, g1, u.rows);
      if !u.threw {
        FillBelowFails(g1, p.row, Steps(rs, 1), per, x1, geom, n1, make);
        LoweredMarks(row, p.index);
        SameMarksUpdate(u.rows, p.row, Lowered(row, p.index));
        SameMarksTrans(g, u.rows, u.rows[p.row := Lowered(row, p.index)]);
      }
    }
  }

  // ---------------------------------------------------------------- all cells

  /** The first `k` listed cells unmerged in order, each found where it now stands, until
      one fails. A listed cell is always found (`UnmergeAllFinds`); the `None` case keeps
      the table as it is. */
  function UnmergeAll(g: seq<MRow>, k: nat, geom: Cell -> Rect, n: nat, make: CellMaker): (u: Unmerged)
    ensures |u.rows| == |g|
  {
    if k == 0 then Unmerged(g, n, false)
    else
      var u := UnmergeAll(g, k - 1, geom, n, make);
      if u.threw then u
      else
        match FindMark(u.rows, k - 1)
        case None => u
        case Some(p) => UnmergeAt(u.rows, p, geom, u.next, make)
  }

  /** The listed positions stay in their rows however many cells are unmerged. */
  lemma UnmergeAllMarks(g: seq<MRow>, k: nat, geom: Cell -> Rect, n: nat, make: CellMaker)
    ensures SameMarks(g, UnmergeAll(g, k, geom, n, make).rows)
  {
    UnmergeAllMarksFrom(g, 0, k, geom, n, make);
  }

  /** From the `j`-th listed cell to the `m`-th, the listed positions stay in their rows. */
  lemma {:induction false} UnmergeAllMarksFrom(g: seq<MRow>, j: nat, m: nat, geom: Cell -> Rect, n: nat, make: CellMaker)
    requires j <= m
    ensures SameMarks(UnmergeAll(g, j, geom, n, make).rows, UnmergeAll(g, m, geom, n, make).rows)
    decreases m - j
  {
    if j < m {
      UnmergeAllStepMarks(g, j, geom, n, make);
      UnmergeAllMarksFrom(g, j + 1, m, geom, n, make);
      SameMarksTrans(UnmergeAll(g, j, geom, n, make).rows, UnmergeAll(g, j + 1, geom, n, make).rows, UnmergeAll(g, m, geom, n, make).rows);
    }
  }

  /** One more listed cell unmerged keeps the listed positions in their rows. */
  lemma UnmergeAllStepMarks(g: seq<MRow>, k: nat, geom: Cell -> Rect, n: nat, make: CellMaker)
    ensures SameMarks(UnmergeAll(g, k, geom, n, make).rows, UnmergeAll(g, k + 1, geom, n, make).rows)
  {
    var u := UnmergeAll(g, k, geom, n, make);
    if u.threw {
      UnmergeAllThrew(g, k, geom, n, make);
    } else {
      UnmergeAllStep(g, k, geom, n, make);
      var p := FindMark(u.rows, k);
      if p.Some? {
        UnmergeAtMarks(u.rows, p.value, geom, u.next, make);
      }
    }
  }

  /** Each listed cell is found when its turn comes. */
  lemma UnmergeAllFinds(g: seq<MRow>, k: nat, geom: Cell -> Rect, n: nat, make: CellMaker, t: nat)
    requires Listed(g, t)
    ensures FindMark(UnmergeAll(g, k, geom, n, make).rows, t).Some?
  {
    UnmergeAllMarks(g, k, geom, n, make);
    var r :| 0 <= r < |g| && t in MarksOf(g[r].cells);
    SameMarksRow(g, UnmergeAll(g, k, geom, n, make).rows, r);
    FindMarkFinds(UnmergeAll(g, k, geom, n, make).rows, t);
  }

  /** Unless the source fails, the table only grows. */
  lemma UnmergeAllGrows(g: seq<MRow>, k: nat, geom: Cell -> Rect, n: nat, make: CellMaker)
    ensures var u := UnmergeAll(g, k, geom, n, make);
      !u.threw ==> Size(u.rows) >= Size(g)
  {
    UnmergeAllGrowsFrom(g, 0, k, geom, n, make);
  }

  /** From the `j`-th listed cell to the `m`-th, unless the source fails the table only grows. */
  lemma {:induction false} UnmergeAllGrowsFrom(g: seq<MRow>, j: nat, m: nat, geom: Cell -> Rect, n: nat, make: CellMaker)
    requires j <= m
    ensures var u, w := UnmergeAll(g, j, geom, n, make), UnmergeAll(g, m, geom, n, make);
      !w.threw ==> !u.threw && Size(w.rows) >= Size(u.rows)
    decreases m - j
  {
    if j < m {
      UnmergeAllStepGrows(g, j, geom, n, make);
      UnmergeAllGrowsFrom(g, j + 1, m, geom, n, make);
    }
  }

  /** One more listed cell: unless the source fails there, it did not fail before and the
      table only grows. */
  lemma UnmergeAllStepGrows(g: seq<MRow>, k: nat, geom: Cell -> Rect, n: nat, make: CellMaker)
    ensures var u, w := UnmergeAll(g, k, geom, n, make), UnmergeAll(g, k + 1, geom, n, make);
      !w.threw ==> !u.threw && Size(w.rows) >= Size(u.rows)
  {
    var u := UnmergeAll(g, k, geom, n, make);
    if u.threw {
      UnmergeAllThrew(g, k, geom, n, make);
    } else {
      UnmergeAllStep(g, k, geom, n, make);
      var p := FindMark(u.rows, k);
      if p.Some? {
        UnmergeAtGrows(u.rows, p.value, geom, u.next, make);
      }
    }
  }

  /** Once a cell fails, the later ones are not reached. */
  lemma {:induction false} UnmergeAllStops(g: seq<MRow>, k: nat, m: nat, geom: Cell -> Rect, n: nat, make: CellMaker)
    requires k <= m
    requires k == m || UnmergeAll(g, k, geom, n, make).threw
    ensures UnmergeAll(g, m, geom, n, make) == UnmergeAll(g, k, geom, n, make)
    decreases m - k
  {
    if k < m {
      UnmergeAllThrew(g, k, geom, n, make);
      UnmergeAllStops(g, k + 1, m, geom, n, make);
    }
  }

  /** One more listed cell, when none has failed yet: it is unmerged where it stands. */
  lemma UnmergeAllStep(g: seq<MRow>, k: nat, geom: Cell -> Rect, n: nat, make: CellMaker)
    requires !UnmergeAll(g, k, geom, n, make).threw
    ensures var u := UnmergeAll(g, k, geom, n, make);
      var p := FindMark(u.rows, k);
      UnmergeAll(g, k + 1, geom, n, make) == if p.Some? then UnmergeAt(u.rows, p.value, geom, u.next, make) else u
  {
  }

  lemma UnmergeAllThrew(g: seq<MRow>, k: nat, geom: Cell -> Rect, n: nat, make: CellMaker)
    requires UnmergeAll(g, k, geom, n, make).threw
    ensures UnmergeAll(g, k + 1, geom, n, make) == UnmergeAll(g, k, geom, n, make)
  {
  }

  lemma UnmergeAtGrows(g: seq<MRow>, p: Pos, geom: Cell -> Rect, n: nat, make: CellMaker)
    requires p.row < |g| && p.index < |g[p.row].cells|
    ensures var u := UnmergeAt(g, p, geom, n, make);
      !u.threw ==> Size(u.rows) >= Size(g)
  {
    UnmergeAtSize(g, p, geom, n, make);
    var c := g[p.row].cells[p.index].cell;
    NatProduct(Steps(SpanText(c, "rowspan"), 1), Steps(SpanText(c, "colspan"), 0));
  }

  lemma NatProduct(a: nat, b: nat)
    ensures a * b >= 0
  {
  }

  /** `unmergeCells(unmergingCells)`: the body's rows after every listed cell is unmerged,
      the counter, and whether the source failed. */
  function UnmergeCellsResult(rows: seq<Row>, targets: seq<Pos>, geom: Cell -> Rect, n: nat): (r: (seq<Row>, nat, bool))
    ensures |r.0| == |rows|
  {
    var u := UnmergeAll(Mark(rows, targets), |targets|, geom, n, PlainCell);
    (Unmark(u.rows), u.next, u.threw)
  }

  /** Unmerging a single cell at `p`: its own row as `UnmergeAtRow` describes, without
      marks. */
  lemma UnmergeOneCell(rows: seq<Row>, p: Pos, geom: Cell -> Rect, n: nat)
    requires ValidPos(rows, p)
    ensures var g := Mark(rows, [p]);
      UnmergeCellsResult(rows, [p], geom, n) == (Unmark(UnmergeAt(g, p, geom, n, PlainCell).rows), UnmergeAt(g, p, geom, n, PlainCell).next, UnmergeAt(g, p, geom, n, PlainCell).threw)
  {
    var g := Mark(rows, [p]);
    MarkListed(rows, [p], 0);
    FindMarkFinds(g, 0);
    var q := FindMark(g, 0).value;
    assert g[q.row].cells[q.index].marks == set t | 0 <= t < 1 && [p][t] == Pos(q.row, q.index);
    assert q == p;
    assert UnmergeAll(g, 0, geom, n, PlainCell) == Unmerged(g, n, false);
    assert UnmergeAll(g, 1, geom, n, PlainCell) == UnmergeAt(g, p, geom, n, PlainCell);
  }
}

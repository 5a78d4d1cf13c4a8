/** What `unmergeCells` leaves behind once every listed cell is processed. The cells the
    source holds references to are followed through the edit as the sequence of listed
    cells of each row: inserting cells never adds to it or reorders it, and unmerging one
    cell changes that cell alone. */
module UnmergeListing {
  import opened JsValues
  import opened TableFormats
  import opened HitTest
  import opened Lists
  import opened CellFactory
  import opened UnmergeCellsSpec

  predicate IsListed(c: MCell) {
    c.marks != {}
  }

  /** The listed cells of a row, in order. */
  function ListedCells(cells: seq<MCell>): seq<MCell> {
    Filter(cells, IsListed)
  }

  /** Row by row, `h` lists the same cells as `g`, in the same order. */
  predicate SameListing(g: seq<MRow>, h: seq<MRow>) {
    |h| == |g| && forall r :: 0 <= r < |g| ==> ListedCells(h[r].cells) == ListedCells(g[r].cells)
  }

  /** The source would leave the cell alone: `> 1` reads neither span as more than one. */
  predicate Flat(c: Cell) {
    Steps(SpanText(c, "colspan"), 1) == 0 && Steps(SpanText(c, "rowspan"), 1) == 0
  }

  // ---------------------------------------------------------------- one row

  lemma {:induction false} UnlistedCells(m: seq<MCell>)
    requires forall q :: 0 <= q < |m| ==> m[q].marks == {}
    ensures ListedCells(m) == []
  {
    if |m| > 0 {
      UnlistedCells(m[..|m| - 1]);
    }
  }

  lemma {:induction false} MadeUnlisted(attrs: Attrs, k: nat, n: nat, make: CellMaker)
    ensures ListedCells(MadeCells(attrs, k, n, make).0) == []
  {
    if k > 0 {
      MadeUnlisted(attrs, k - 1, n, make);
      var made := MadeCells(attrs, k - 1, n, make);
      assert MadeCells(attrs, k, n, make).0[..k - 1] == made.0;
    }
  }

  /** A listed cell stands in its row's listed cells after the listed cells before it. */
  lemma ListedSplit(cells: seq<MCell>, j: nat)
    requires j < |cells| && IsListed(cells[j])
    ensures var i := |ListedCells(cells[..j])|;
      && ListedCells(cells) == ListedCells(cells[..j]) + [cells[j]] + ListedCells(cells[j + 1..])
      && i < |ListedCells(cells)| && ListedCells(cells)[i] == cells[j]
  {
    assert cells == cells[..j] + [cells[j]] + cells[j + 1..];
    FilterConcat(cells[..j] + [cells[j]], cells[j + 1..], IsListed);
    FilterConcat(cells[..j], [cells[j]], IsListed);
    assert [cells[j]][..0] == [];
  }

  /** A listed cell in place of another, followed by unlisted cells. */
  lemma ListedSplice(a: seq<MCell>, y: MCell, m: seq<MCell>, b: seq<MCell>)
    requires IsListed(y) && ListedCells(m) == []
    ensures ListedCells(a + [y] + m + b) == ListedCells(a) + [y] + ListedCells(b)
  {
    FilterConcat(a + [y] + m, b, IsListed);
    FilterConcat(a + [y], m, IsListed);
    FilterConcat(a, [y], IsListed);
    assert ListedCells([y]) == [y] by {
      assert [y][..0] == [];
    }
    assert ListedCells(a + [y] + m) == ListedCells(a) + [y] + [];
    assert ListedCells(a) + [y] + [] == ListedCells(a) + [y];
  }

  lemma InsertedListing(a: seq<MCell>, m: seq<MCell>, b: seq<MCell>)
    requires ListedCells(m) == []
    ensures ListedCells(a + m + b) == ListedCells(a + b)
  {
    FilterConcat(a + m, b, IsListed);
    FilterConcat(a, m, IsListed);
    FilterConcat(a, b, IsListed);
    assert ListedCells(a + m) == ListedCells(a) + [];
    assert ListedCells(a) + [] == ListedCells(a);
  }

  /** Inserting cells leaves the listed cells as they were. */
  lemma InsertCellsListing(row: MRow, at: nat, k: nat, n: nat, make: CellMaker)
    requires at <= |row.cells|
    ensures ListedCells(InsertCells(row, at, k, n, make).0.cells) == ListedCells(row.cells)
  {
    InsertCellsLineUp(row, at, k, n, make);
    MadeUnlisted(row.attrs, k, n, make);
    var a, m, b := row.cells[..at], MadeCells(row.attrs, k, n, make).0, row.cells[at..];
    assert InsertCells(row, at, k, n, make).0.cells == a + m + b;
    InsertedListing(a, m, b);
    assert a + b == row.cells;
  }

  lemma FillRowListing(row: MRow, per: nat, x1: int, geom: Cell -> Rect, n: nat, make: CellMaker)
    ensures ListedCells(FillRow(row, per, x1, geom, n, make).0.cells) == ListedCells(row.cells)
  {
    var ref := LastWhere(row.cells, (c: MCell) => Near(x1, geom(c.cell).x));
    InsertCellsListing(row, if ref.Some? then ref.value else |row.cells|, per, n, make);
  }

  /** Replacing one row by a row listed alike keeps the listing of every row. */
  lemma ListedAfterUpdate(u: seq<MRow>, j: nat, row: MRow, k: nat, w: seq<MRow>)
    requires j < |u| && k < |u| && w == u[j := row]
    requires ListedCells(row.cells) == ListedCells(u[j].cells)
    ensures ListedCells(w[k].cells) == ListedCells(u[k].cells)
  {
  }

  /** Filling the rows below (giving `w`) leaves the listed cells of row `k` as they were. */
  lemma {:induction false} FillBelowRowListing(g: seq<MRow>, i: nat, count: nat, per: nat, x1: int, geom: Cell -> Rect, n: nat, make: CellMaker, k: nat, w: Unmerged)
    requires i < |g| && k < |g|
    requires w == FillBelow(g, i, count, per, x1, geom, n, make)
    ensures ListedCells(w.rows[k].cells) == ListedCells(g[k].cells)
  {
    if count > 0 {
      var u := FillBelow(g, i, count - 1, per, x1, geom, n, make);
      FillBelowRowListing(g, i, count - 1, per, x1, geom, n, make, k, u);
      FillBelowStep(g, i, count, per, x1, geom, n, make);
      if !u.threw && i + count < |g| {
        var r := FillRow(u.rows[i + count], per, x1, geom, u.next, make);
        FillRowListing(u.rows[i + count], per, x1, geom, u.next, make);
        ListedAfterUpdate(u.rows, i + count, r.0, k, w.rows);
      }
    }
  }

  /** Filling the rows below leaves every row's listed cells as they were. */
  lemma FillBelowListing(g: seq<MRow>, i: nat, count: nat, per: nat, x1: int, geom: Cell -> Rect, n: nat, make: CellMaker)
    requires i < |g|
    ensures SameListing(g, FillBelow(g, i, count, per, x1, geom, n, make).rows)
  {
    forall k | 0 <= k < |g|
      ensures ListedCells(FillBelow(g, i, count, per, x1, geom, n, make).rows[k].cells) == ListedCells(g[k].cells)
    {
      FillBelowRowListing(g, i, count, per, x1, geom, n, make, k, FillBelow(g, i, count, per, x1, geom, n, make));
    }
  }

  // ---------------------------------------------------------------- one cell

  /** A span set to 1 no longer counts as more than one, and the other span is untouched. */
  lemma ResetSpans(c: Cell, d: Cell, key: string, other: string)
    requires key in CELL_ATTRIBUTES && other in CELL_ATTRIBUTES && other != key
    requires SpanReset(c, d, key)
    ensures Steps(SpanText(d, key), 1) == 0
    ensures SpanText(d, other) == SpanText(c, other)
  {
    assert key in CELL_KEYS && other in CELL_KEYS;
  }

  /** Narrowing leaves one column and the rowspan as it was. */
  lemma NarrowedSpans(c: Cell)
    ensures Steps(SpanText(Narrowed(c), "colspan"), 1) == 0
    ensures SpanText(Narrowed(c), "rowspan") == SpanText(c, "rowspan")
  {
    NarrowedMeaning(c);
    if Steps(SpanText(c, "colspan"), 1) > 0 {
      ResetSpans(c, Narrowed(c), "colspan", "rowspan");
    }
  }

  lemma Reassemble<T>(s: seq<T>, i: nat, w: nat)
    requires i + 1 + w <= |s|
    ensures s == s[..i] + [s[i]] + s[i + 1..i + 1 + w] + s[i + 1 + w..]
  {
  }

  lemma ReplaceMiddle<T>(a: seq<T>, x: T, y: T, b: seq<T>)
    ensures (a + [x] + b)[|a| := y] == a + [y] + b
  {
  }

  /** In its own row, unmerging replaces the listed cell by one listed alike and adds only
      unlisted cells. */
  lemma UnmergeAtOwnListing(g: seq<MRow>, p: Pos, geom: Cell -> Rect, n: nat, make: CellMaker)
    requires p.row < |g| && p.index < |g[p.row].cells| && IsListed(g[p.row].cells[p.index])
    requires MakesPlainCells(make)
    ensures var u := UnmergeAt(g, p, geom, n, make);
      var cells := g[p.row].cells;
      && p.index < |u.rows[p.row].cells|
      && u.rows[p.row].cells[p.index].marks == cells[p.index].marks
      && ListedCells(u.rows[p.row].cells) ==
           ListedCells(cells[..p.index]) + [u.rows[p.row].cells[p.index]] + ListedCells(cells[p.index + 1..])
  {
    UnmergeAtRow(g, p, geom, n, make);
    var u := UnmergeAt(g, p, geom, n, make);
    var t := g[p.row].cells[p.index];
    var wide := Steps(SpanText(t.cell, "colspan"), 1);
    var cells, cells' := g[p.row].cells, u.rows[p.row].cells;
    var made := cells'[p.index + 1..p.index + 1 + wide];
    forall q | 0 <= q < |made|
      ensures made[q].marks == {}
    {
      assert made[q] == cells'[p.index + 1 + q];
    }
    Reassemble(cells', p.index, wide);
    UnlistedCells(made);
    ListedSplice(cells[..p.index], cells'[p.index], made, cells[p.index + 1..]);
  }

  /** Unless the source fails, the unmerged cell ends flat. */
  lemma UnmergeAtFlat(g: seq<MRow>, p: Pos, geom: Cell -> Rect, n: nat, make: CellMaker)
    requires p.row < |g| && p.index < |g[p.row].cells|
    requires MakesPlainCells(make)
    ensures var u := UnmergeAt(g, p, geom, n, make);
      !u.threw ==> p.index < |u.rows[p.row].cells| && Flat(u.rows[p.row].cells[p.index].cell)
  {
    UnmergeAtRow(g, p, geom, n, make);
    UnmergeAtSize(g, p, geom, n, make);
    var u := UnmergeAt(g, p, geom, n, make);
    var t := g[p.row].cells[p.index];
    NarrowedSpans(t.cell);
    if !u.threw && Steps(SpanText(t.cell, "rowspan"), 1) > 0 {
      ResetSpans(Narrowed(t.cell), u.rows[p.row].cells[p.index].cell, "rowspan", "colspan");
    }
  }

  /** Unmerging one cell leaves the listed cells of every other row as they were. */
  lemma UnmergeAtOtherRows(g: seq<MRow>, p: Pos, geom: Cell -> Rect, n: nat, make: CellMaker)
    requires p.row < |g| && p.index < |g[p.row].cells|
    ensures var u := UnmergeAt(g, p, geom, n, make);
      forall r :: 0 <= r < |g| && r != p.row ==> ListedCells(u.rows[r].cells) == ListedCells(g[r].cells)
  {
    var t := g[p.row].cells[p.index];
    var (row, n1) := SplitRow(g[p.row], p.index, n, make);
    var g1 := g[p.row := row];
    var rs := SpanText(t.cell, "rowspan");
    if Steps(rs, 1) > 0 {
      var per := Steps(SpanText(t.cell, "colspan"), 0);
      var x1 := geom(Narrowed(t.cell)).x1;
      FillBelowListing(g1, p.row, Steps(rs, 1), per, x1, geom, n1, make);
    }
  }

  // ---------------------------------------------------------------- every listed cell

  /** Some position below `k` is listed at the cell. */
  ghost predicate Below(marks: set<nat>, k: nat) {
    exists t :: t in marks && t < k
  }

  /** No position is listed at two listed cells. */
  ghost predicate Unique(g: seq<MRow>) {
    forall r, i, r', i', t ::
      (&& 0 <= r < |g| && 0 <= i < |ListedCells(g[r].cells)|
       && 0 <= r' < |g| && 0 <= i' < |ListedCells(g[r'].cells)|
       && t in ListedCells(g[r].cells)[i].marks && t in ListedCells(g[r'].cells)[i'].marks)
      ==> r == r' && i == i'
  }

  /** `g` is `g0` once the cells listed at the positions below `k` are unmerged: row by row
      the same listed cells, listed alike, in the same order; those listed below `k` are
      flat and the others are as they were. */
  ghost predicate Tracks(g0: seq<MRow>, g: seq<MRow>, k: nat) {
    && |g| == |g0|
    && forall r :: 0 <= r < |g0| ==>
         var l0, l := ListedCells(g0[r].cells), ListedCells(g[r].cells);
         && |l| == |l0|
         && forall i :: 0 <= i < |l| ==>
              && l[i].marks == l0[i].marks
              && (Below(l0[i].marks, k) ==> Flat(l[i].cell))
              && (!Below(l0[i].marks, k) ==> l[i].cell == l0[i].cell)
  }

  /** A listed cell of a row is one of its cells, and a position listed there is found. */
  lemma ListedFound(g: seq<MRow>, r: nat, i: nat, t: nat)
    requires r < |g| && i < |ListedCells(g[r].cells)| && t in ListedCells(g[r].cells)[i].marks
    ensures FindMark(g, t).Some?
  {
    var x := ListedCells(g[r].cells)[i];
    assert x in g[r].cells;
    var j :| 0 <= j < |g[r].cells| && g[r].cells[j] == x;
    MarksOfMeaning(g[r].cells, t);
    FindMarkFinds(g, t);
  }

  lemma BelowNext(m: set<nat>, k: nat)
    requires k !in m
    ensures Below(m, k + 1) == Below(m, k)
  {
    if Below(m, k + 1) {
      var t :| t in m && t < k + 1;
      assert t < k;
    }
  }

  /** No position unmerged yet: nothing is flat by force and nothing has changed. */
  lemma TracksStart(g0: seq<MRow>)
    ensures Tracks(g0, g0, 0)
  {
  }

  /** Unmerging the cell listed at `k` when no cell is listed there changes nothing. */
  lemma TracksUnfound(g0: seq<MRow>, g: seq<MRow>, k: nat)
    requires Tracks(g0, g, k) && FindMark(g, k).None?
    ensures Tracks(g0, g, k + 1)
  {
    forall r, i | 0 <= r < |g0| && 0 <= i < |ListedCells(g0[r].cells)|
      ensures Below(ListedCells(g0[r].cells)[i].marks, k + 1) == Below(ListedCells(g0[r].cells)[i].marks, k)
    {
      if k in ListedCells(g0[r].cells)[i].marks {
        ListedFound(g, r, i, k);
      }
      BelowNext(ListedCells(g0[r].cells)[i].marks, k);
    }
  }

  /** One listed cell, the one listed at `k`, replaced by a flat one listed alike, every
      other listed cell kept: the tracking goes one position further. */
  lemma TracksReplace(g0: seq<MRow>, g: seq<MRow>, h: seq<MRow>, k: nat, row: nat, i0: nat, y: MCell)
    requires Unique(g0) && Tracks(g0, g, k)
    requires row < |g| && i0 < |ListedCells(g[row].cells)|
    requires k in ListedCells(g[row].cells)[i0].marks
    requires y.marks == ListedCells(g[row].cells)[i0].marks && Flat(y.cell)
    requires |h| == |g| && ListedCells(h[row].cells) == ListedCells(g[row].cells)[i0 := y]
    requires forall r :: 0 <= r < |g| && r != row ==> ListedCells(h[r].cells) == ListedCells(g[r].cells)
    ensures Tracks(g0, h, k + 1)
  {
    forall r, i | 0 <= r < |g0| && 0 <= i < |ListedCells(g0[r].cells)| && (r, i) != (row, i0)
      ensures ListedCells(h[r].cells)[i] == ListedCells(g[r].cells)[i]
      ensures Below(ListedCells(g0[r].cells)[i].marks, k + 1) == Below(ListedCells(g0[r].cells)[i].marks, k)
    {
      BelowNext(ListedCells(g0[r].cells)[i].marks, k);
    }
    assert Below(ListedCells(g0[row].cells)[i0].marks, k + 1);
  }

  /** Unmerging the cell listed at `k` keeps the tracking, one position further. */
  lemma TracksFound(g0: seq<MRow>, g: seq<MRow>, k: nat, p: Pos, geom: Cell -> Rect, n: nat, make: CellMaker)
    requires MakesPlainCells(make) && Unique(g0) && Tracks(g0, g, k)
    requires FindMark(g, k) == Some(p)
    requires !UnmergeAt(g, p, geom, n, make).threw
    ensures Tracks(g0, UnmergeAt(g, p, geom, n, make).rows, k + 1)
  {
    var w := UnmergeAt(g, p, geom, n, make);
    var cells := g[p.row].cells;
    ListedSplit(cells, p.index);
    UnmergeAtOwnListing(g, p, geom, n, make);
    UnmergeAtFlat(g, p, geom, n, make);
    UnmergeAtOtherRows(g, p, geom, n, make);
    var i0 := |ListedCells(cells[..p.index])|;
    var y := w.rows[p.row].cells[p.index];
    ReplaceMiddle(ListedCells(cells[..p.index]), cells[p.index], y, ListedCells(cells[p.index + 1..]));
    TracksReplace(g0, g, w.rows, k, p.row, i0, y);
  }

  /** One more listed cell unmerged, unless the source fails there, moves the tracking one
      position further. */
  lemma TracksStep(g0: seq<MRow>, k: nat, geom: Cell -> Rect, n: nat, make: CellMaker, u: Unmerged, w: Unmerged)
    requires MakesPlainCells(make) && Unique(g0)
    requires u == UnmergeAll(g0, k, geom, n, make) && w == UnmergeAll(g0, k + 1, geom, n, make)
    requires !u.threw ==> Tracks(g0, u.rows, k)
    requires !w.threw
    ensures Tracks(g0, w.rows, k + 1)
  {
    UnmergeAllStepGrows(g0, k, geom, n, make);
    UnmergeAllStep(g0, k, geom, n, make);
    match FindMark(u.rows, k)
    case None =>
      TracksUnfound(g0, u.rows, k);
    case Some(p) =>
      TracksFound(g0, u.rows, k, p, geom, u.next, make);
  }

  /** Unless the source fails, once the first `k` listed cells are unmerged the tracking
      holds at `k`. */
  ghost predicate TracksAt(g0: seq<MRow>, k: nat, geom: Cell -> Rect, n: nat, make: CellMaker) {
    var u := UnmergeAll(g0, k, geom, n, make);
    !u.threw ==> Tracks(g0, u.rows, k)
  }

  lemma UnmergeAllTracks(g0: seq<MRow>, k: nat, geom: Cell -> Rect, n: nat, make: CellMaker)
    requires MakesPlainCells(make) && Unique(g0)
    ensures var u := UnmergeAll(g0, k, geom, n, make);
      !u.threw ==> Tracks(g0, u.rows, k)
  {
    TracksStart(g0);
    TracksSteps(g0, k, geom, n, make);
    Induct((t: nat) => TracksAt(g0, t, geom, n, make), k);
  }

  lemma TracksSteps(g0: seq<MRow>, k: nat, geom: Cell -> Rect, n: nat, make: CellMaker)
    requires MakesPlainCells(make) && Unique(g0)
    ensures forall t: nat :: t < k && TracksAt(g0, t, geom, n, make) ==> TracksAt(g0, t + 1, geom, n, make)
  {
    forall t: nat | t < k && TracksAt(g0, t, geom, n, make)
      ensures TracksAt(g0, t + 1, geom, n, make)
    {
      var w := UnmergeAll(g0, t + 1, geom, n, make);
      if !w.threw {
        TracksStep(g0, t, geom, n, make, UnmergeAll(g0, t, geom, n, make), w);
      }
    }
  }

  /** `unmergeCells` on cells listed once each: unless the source fails, every cell listed
      at a position below `k` ends spanning one column and one row (`> 1` reads neither of
      its spans as more), and the listed cells stay in their rows and order, those not yet
      reached unchanged. */
  lemma UnmergeAllEnds(g0: seq<MRow>, k: nat, geom: Cell -> Rect, n: nat, make: CellMaker)
    requires MakesPlainCells(make) && Unique(g0)
    ensures var u := UnmergeAll(g0, k, geom, n, make);
      !u.threw ==>
        && Tracks(g0, u.rows, k)
        && forall r, j, t :: 0 <= r < |u.rows| && 0 <= j < |u.rows[r].cells| && t in u.rows[r].cells[j].marks && t < k ==>
             Flat(u.rows[r].cells[j].cell)
  {
    var u := UnmergeAll(g0, k, geom, n, make);
    UnmergeAllTracks(g0, k, geom, n, make);
    if !u.threw {
      forall r, j, t | 0 <= r < |u.rows| && 0 <= j < |u.rows[r].cells| && t in u.rows[r].cells[j].marks && t < k
        ensures Flat(u.rows[r].cells[j].cell)
      {
        ListedSplit(u.rows[r].cells, j);
        var i := |ListedCells(u.rows[r].cells[..j])|;
        assert Below(ListedCells(g0[r].cells)[i].marks, k);
      }
    }
  }

  // ---------------------------------------------------------------- how much the table grows

  /** Every listed cell carries one position. */
  ghost predicate Single(g: seq<MRow>) {
    forall r, i, s, t ::
      (&& 0 <= r < |g| && 0 <= i < |ListedCells(g[r].cells)|
       && s in ListedCells(g[r].cells)[i].marks && t in ListedCells(g[r].cells)[i].marks)
      ==> s == t
  }

  /** How many cells unmerging `c` adds: `c - 1` beside it and `c` in each row below it
      reaches, the spans read as the loops read them. */
  function Growth(c: Cell): int {
    Steps(SpanText(c, "colspan"), 1) + Steps(SpanText(c, "rowspan"), 1) * Steps(SpanText(c, "colspan"), 0)
  }

  /** The growth of the cells listed at the positions below `k`, as they stand in `g`. */
  function GrowthSum(g: seq<MRow>, k: nat): int {
    if k == 0 then 0
    else
      GrowthSum(g, k - 1) +
        match FindMark(g, k - 1)
        case None => 0
        case Some(q) => Growth(g[q.row].cells[q.index].cell)
  }

  lemma GrowthSumStep(g: seq<MRow>, k: nat, p: Option<Pos>)
    requires k > 0 && p == FindMark(g, k - 1)
    ensures GrowthSum(g, k) == GrowthSum(g, k - 1) + if p.Some? then Growth(g[p.value.row].cells[p.value.index].cell) else 0
  {
  }

  /** No cell listed below `k` reaches past the last row. */
  ghost predicate Fits(g: seq<MRow>, k: nat) {
    forall t :: 0 <= t < k && FindMark(g, t).Some? ==>
      var q := FindMark(g, t).value;
      var down := Steps(SpanText(g[q.row].cells[q.index].cell, "rowspan"), 1);
      down == 0 || q.row + down < |g|
  }

  /** A position no cell is listed at in the tracked table was listed nowhere at the start. */
  lemma UnfoundAtStart(g0: seq<MRow>, g: seq<MRow>, k: nat)
    requires Tracks(g0, g, k) && FindMark(g, k).None?
    ensures FindMark(g0, k).None?
  {
    if FindMark(g0, k).Some? {
      var q := FindMark(g0, k).value;
      ListedSplit(g0[q.row].cells, q.index);
      ListedFound(g, q.row, |ListedCells(g0[q.row].cells[..q.index])|, k);
    }
  }

  /** The cell listed at `k`, not yet reached, is where and what it was at the start. */
  lemma FoundAtStart(g0: seq<MRow>, g: seq<MRow>, k: nat, p: Pos)
    requires Unique(g0) && Single(g0) && Tracks(g0, g, k) && FindMark(g, k) == Some(p)
    ensures FindMark(g0, k).Some?
    ensures var q := FindMark(g0, k).value;
      q.row == p.row && g0[q.row].cells[q.index].cell == g[p.row].cells[p.index].cell
  {
    ListedSplit(g[p.row].cells, p.index);
    var i0 := |ListedCells(g[p.row].cells[..p.index])|;
    var m := ListedCells(g0[p.row].cells)[i0].marks;
    assert k in m;
    forall t | t in m
      ensures t == k
    {
    }
    assert !Below(m, k);
    ListedFound(g0, p.row, i0, k);
    var q := FindMark(g0, k).value;
    ListedSplit(g0[q.row].cells, q.index);
  }

  ghost predicate SizedAt(g0: seq<MRow>, k: nat, geom: Cell -> Rect, n: nat, make: CellMaker) {
    var u := UnmergeAll(g0, k, geom, n, make);
    && (Fits(g0, k) ==> !u.threw)
    && (!u.threw ==> Size(u.rows) == Size(g0) + GrowthSum(g0, k))
  }

  lemma SizeStep(g0: seq<MRow>, k: nat, geom: Cell -> Rect, n: nat, make: CellMaker)
    requires MakesPlainCells(make) && Unique(g0) && Single(g0) && SizedAt(g0, k, geom, n, make)
    ensures SizedAt(g0, k + 1, geom, n, make)
  {
    var u := UnmergeAll(g0, k, geom, n, make);
    if u.threw {
      UnmergeAllThrew(g0, k, geom, n, make);
    } else {
      UnmergeAllTracks(g0, k, geom, n, make);
      UnmergeAllStep(g0, k, geom, n, make);
      match FindMark(u.rows, k)
      case None =>
        UnfoundAtStart(g0, u.rows, k);
      case Some(p) =>
        FoundAtStart(g0, u.rows, k, p);
        UnmergeAtSize(u.rows, p, geom, u.next, make);
    }
  }

  lemma SizeSteps(g0: seq<MRow>, k: nat, geom: Cell -> Rect, n: nat, make: CellMaker)
    requires MakesPlainCells(make) && Unique(g0) && Single(g0)
    ensures forall t: nat :: t < k && SizedAt(g0, t, geom, n, make) ==> SizedAt(g0, t + 1, geom, n, make)
  {
    forall t: nat | t < k && SizedAt(g0, t, geom, n, make)
      ensures SizedAt(g0, t + 1, geom, n, make)
    {
      SizeStep(g0, t, geom, n, make);
    }
  }

  /** Unmerging the first `k` listed cells, each listed once: it does not fail when none of
      them reaches past the last row, and unless it fails the table grows by the sum of what
      each cell adds, read from the cell as it was at the start. */
  lemma UnmergeAllSize(g0: seq<MRow>, k: nat, geom: Cell -> Rect, n: nat, make: CellMaker)
    requires MakesPlainCells(make) && Unique(g0) && Single(g0)
    ensures var u := UnmergeAll(g0, k, geom, n, make);
      && (Fits(g0, k) ==> !u.threw)
      && (!u.threw ==> Size(u.rows) == Size(g0) + GrowthSum(g0, k))
  {
    SizeSteps(g0, k, geom, n, make);
    Induct((t: nat) => SizedAt(g0, t, geom, n, make), k);
  }

  // ---------------------------------------------------------------- the listed body cells

  /** Each listed cell of a marked table is one of its cells, listed at the positions that
      name it. */
  lemma MarkedListing(rows: seq<Row>, targets: seq<Pos>, r: nat, i: nat)
    requires r < |rows| && i < |ListedCells(Mark(rows, targets)[r].cells)|
    ensures var g := Mark(rows, targets);
      var j := Where(g[r].cells, IsListed)[i];
      && j < |g[r].cells|
      && ListedCells(g[r].cells)[i] == g[r].cells[j]
      && ListedCells(g[r].cells)[i].marks == set t | 0 <= t < |targets| && targets[t] == Pos(r, j)
      && (forall i' :: 0 <= i' < |ListedCells(g[r].cells)| && i' != i ==> Where(g[r].cells, IsListed)[i'] != j)
  {
    var g := Mark(rows, targets);
    FilterMeaning(g[r].cells, IsListed);
    WhereMeaning(g[r].cells, IsListed);
  }

  /** Each position names one cell, so no position is listed at two cells. */
  lemma MarkUnique(rows: seq<Row>, targets: seq<Pos>)
    ensures Unique(Mark(rows, targets))
  {
    var g := Mark(rows, targets);
    forall r, i, r', i', t |
      && 0 <= r < |g| && 0 <= i < |ListedCells(g[r].cells)|
      && 0 <= r' < |g| && 0 <= i' < |ListedCells(g[r'].cells)|
      && t in ListedCells(g[r].cells)[i].marks && t in ListedCells(g[r'].cells)[i'].marks
      ensures r == r' && i == i'
    {
      MarkedListing(rows, targets, r, i);
      MarkedListing(rows, targets, r', i');
    }
  }

  /** Listing distinct cells lists every cell at one position at most. */
  lemma MarkSingle(rows: seq<Row>, targets: seq<Pos>)
    requires forall a, b :: 0 <= a < b < |targets| ==> targets[a] != targets[b]
    ensures Single(Mark(rows, targets))
  {
    var g := Mark(rows, targets);
    forall r, i, s, t |
      && 0 <= r < |g| && 0 <= i < |ListedCells(g[r].cells)|
      && s in ListedCells(g[r].cells)[i].marks && t in ListedCells(g[r].cells)[i].marks
      ensures s == t
    {
      MarkedListing(rows, targets, r, i);
    }
  }

  /** The cell listed at `t` is found at `targets[t]`. */
  lemma MarkFinds(rows: seq<Row>, targets: seq<Pos>, t: nat)
    requires t < |targets| && ValidPos(rows, targets[t])
    ensures FindMark(Mark(rows, targets), t) == Some(targets[t])
  {
    MarkListed(rows, targets, t);
    FindMarkFinds(Mark(rows, targets), t);
  }

  function CellCount(rows: seq<Row>): nat {
    if |rows| == 0 then 0 else CellCount(rows[..|rows| - 1]) + |rows[|rows| - 1].cells|
  }

  lemma {:induction false} CellsUpToCount(g: seq<MRow>, k: nat)
    requires k <= |g|
    ensures CellsUpTo(g, k) == CellCount(Unmark(g)[..k])
  {
    if k > 0 {
      CellsUpToCount(g, k - 1);
      assert Unmark(g)[..k][..k - 1] == Unmark(g)[..k - 1];
    }
  }

  lemma SizeCount(g: seq<MRow>)
    ensures Size(g) == CellCount(Unmark(g))
  {
    CellsUpToCount(g, |g|);
    assert Unmark(g)[..|g|] == Unmark(g);
  }

  /** `unmergeCells(unmergingCells)`: unless the source fails, every listed cell, still in
      its row, ends spanning one column and one row. */
  lemma UnmergeCellsEnds(rows: seq<Row>, targets: seq<Pos>, geom: Cell -> Rect, n: nat)
    ensures var g := Mark(rows, targets);
      var u := UnmergeAll(g, |targets|, geom, n, PlainCell);
      !u.threw ==>
        && (forall t :: 0 <= t < |targets| && ValidPos(rows, targets[t]) ==> FindMark(u.rows, t).Some?)
        && forall r, j, t :: 0 <= r < |u.rows| && 0 <= j < |u.rows[r].cells| && t in u.rows[r].cells[j].marks ==>
             Flat(u.rows[r].cells[j].cell)
  {
    var g := Mark(rows, targets);
    var u := UnmergeAll(g, |targets|, geom, n, PlainCell);
    PlainCellMints();
    MarkUnique(rows, targets);
    UnmergeAllEnds(g, |targets|, geom, n, PlainCell);
    forall t | 0 <= t < |targets| && ValidPos(rows, targets[t])
      ensures FindMark(u.rows, t).Some?
    {
      MarkListed(rows, targets, t);
      UnmergeAllFinds(g, |targets|, geom, n, PlainCell, t);
    }
    if !u.threw {
      UnmergeAllMarks(g, |targets|, geom, n, PlainCell);
      forall r, j, t | 0 <= r < |u.rows| && 0 <= j < |u.rows[r].cells| && t in u.rows[r].cells[j].marks
        ensures t < |targets|
      {
        MarksOfMeaning(u.rows[r].cells, t);
        SameMarksRow(g, u.rows, r);
        MarksOfMeaning(g[r].cells, t);
      }
    }
  }

  /** `c * r - 1` summed over the first `k` listed cells. */
  function GridSum(cs: seq<int>, rs: seq<int>, k: nat): int
    requires k <= |cs| && k <= |rs|
  {
    if k == 0 then 0 else GridSum(cs, rs, k - 1) + cs[k - 1] * rs[k - 1] - 1
  }

  ghost predicate SpansAre(rows: seq<Row>, targets: seq<Pos>, cs: seq<int>, rs: seq<int>) {
    && |cs| == |targets| && |rs| == |targets|
    && forall t :: 0 <= t < |targets| ==>
         && ValidPos(rows, targets[t]) && cs[t] >= 1 && rs[t] >= 1
         && SpanText(rows[targets[t].row].cells[targets[t].index], "colspan") == Text(Numeric(cs[t] as real, ""))
         && SpanText(rows[targets[t].row].cells[targets[t].index], "rowspan") == Text(Numeric(rs[t] as real, ""))
  }

  /** A cell whose spans are the integers `c` and `r` adds `c * r - 1` cells. */
  lemma GrowthOfSpans(cell: Cell, c: int, r: int)
    requires c >= 1 && r >= 1
    requires SpanText(cell, "colspan") == Text(Numeric(c as real, ""))
    requires SpanText(cell, "rowspan") == Text(Numeric(r as real, ""))
    ensures Growth(cell) == c * r - 1
  {
    GridSteps(c, r);
  }

  /** The cell listed at `k - 1` in `rows` marked with `targets` is the target itself. */
  lemma MarkedGrowthStep(rows: seq<Row>, targets: seq<Pos>, k: nat)
    requires 0 < k <= |targets| && ValidPos(rows, targets[k - 1])
    ensures GrowthSum(Mark(rows, targets), k) ==
      GrowthSum(Mark(rows, targets), k - 1) + Growth(rows[targets[k - 1].row].cells[targets[k - 1].index])
  {
    var q := targets[k - 1];
    MarkFinds(rows, targets, k - 1);
    assert Mark(rows, targets)[q.row].cells[q.index].cell == rows[q.row].cells[q.index];
    GrowthSumStep(Mark(rows, targets), k, Some(q));
  }

  /** The growth of the first `k` targets, read from the cells they name. */
  function TargetGrowth(rows: seq<Row>, targets: seq<Pos>, k: nat): int
    requires k <= |targets|
  {
    if k == 0 then 0
    else
      var q := targets[k - 1];
      TargetGrowth(rows, targets, k - 1) + if ValidPos(rows, q) then Growth(rows[q.row].cells[q.index]) else 0
  }

  /** A property that holds at 0 and passes from each step below `k` to the next holds
      at `k`. */
  lemma {:induction false} Induct(p: nat -> bool, k: nat)
    requires p(0)
    requires forall t: nat :: t < k && p(t) ==> p(t + 1)
    ensures p(k)
  {
    if k > 0 {
      Induct(p, k - 1);
    }
  }

  /** Two sums that start alike and grow alike at every step agree. */
  lemma {:induction false} SameIncrements(a: nat -> int, b: nat -> int, k: nat)
    requires a(0) == b(0)
    requires forall t: nat :: t < k ==> a(t + 1) - a(t) == b(t + 1) - b(t)
    ensures a(k) == b(k)
  {
    if k > 0 {
      SameIncrements(a, b, k - 1);
    }
  }

  lemma MarkedGrowth(rows: seq<Row>, targets: seq<Pos>)
    requires forall t :: 0 <= t < |targets| ==> ValidPos(rows, targets[t])
    ensures GrowthSum(Mark(rows, targets), |targets|) == TargetGrowth(rows, targets, |targets|)
  {
    var a := (t: nat) => GrowthSum(Mark(rows, targets), t);
    var b := (t: nat) => if t <= |targets| then TargetGrowth(rows, targets, t) else 0;
    forall t: nat | t < |targets|
      ensures a(t + 1) - a(t) == b(t + 1) - b(t)
    {
      MarkedGrowthStep(rows, targets, t + 1);
    }
    SameIncrements(a, b, |targets|);
  }

  lemma TargetGrowthGrid(rows: seq<Row>, targets: seq<Pos>, cs: seq<int>, rs: seq<int>)
    requires SpansAre(rows, targets, cs, rs)
    ensures TargetGrowth(rows, targets, |targets|) == GridSum(cs, rs, |targets|)
  {
    forall t: nat | t < |targets|
      ensures TargetGrowth(rows, targets, t + 1) - TargetGrowth(rows, targets, t) == GridSum(cs, rs, t + 1) - GridSum(cs, rs, t)
    {
      var q := targets[t];
      GrowthOfSpans(rows[q.row].cells[q.index], cs[t], rs[t]);
    }
    SumsAgree(rows, targets, cs, rs);
  }

  lemma SumsAgree(rows: seq<Row>, targets: seq<Pos>, cs: seq<int>, rs: seq<int>)
    requires |cs| == |targets| && |rs| == |targets|
    requires forall t: nat :: t < |targets| ==>
      TargetGrowth(rows, targets, t + 1) - TargetGrowth(rows, targets, t) == GridSum(cs, rs, t + 1) - GridSum(cs, rs, t)
    ensures TargetGrowth(rows, targets, |targets|) == GridSum(cs, rs, |targets|)
  {
    var a := (t: nat) => if t <= |targets| then TargetGrowth(rows, targets, t) else 0;
    var b := (t: nat) => if t <= |cs| && t <= |rs| then GridSum(cs, rs, t) else 0;
    assert forall t: nat :: t < |targets| ==> a(t + 1) - a(t) == b(t + 1) - b(t);
    SameIncrements(a, b, |targets|);
  }

  /** The cells listed in `rows` marked with `targets` add `c * r - 1` cells each. */
  lemma GrowthOfTargets(rows: seq<Row>, targets: seq<Pos>, cs: seq<int>, rs: seq<int>)
    requires SpansAre(rows, targets, cs, rs)
    ensures GrowthSum(Mark(rows, targets), |targets|) == GridSum(cs, rs, |targets|)
  {
    MarkedGrowth(rows, targets);
    TargetGrowthGrid(rows, targets, cs, rs);
  }

  lemma TargetsFit(rows: seq<Row>, targets: seq<Pos>, cs: seq<int>, rs: seq<int>)
    requires SpansAre(rows, targets, cs, rs)
    requires forall t :: 0 <= t < |targets| ==> targets[t].row + rs[t] - 1 < |rows|
    ensures Fits(Mark(rows, targets), |targets|)
  {
    forall t | 0 <= t < |targets|
      ensures FindMark(Mark(rows, targets), t) == Some(targets[t])
      ensures Steps(SpanText(rows[targets[t].row].cells[targets[t].index], "rowspan"), 1) == rs[t] - 1
    {
      MarkFinds(rows, targets, t);
      GridSteps(cs[t], rs[t]);
    }
  }

  /** `unmergeCells` on distinct cells with integer spans `c` and `r` that stay within the
      table: it does not fail, and the table grows by `c * r - 1` cells per listed cell. */
  lemma UnmergeCellsGrowth(rows: seq<Row>, targets: seq<Pos>, geom: Cell -> Rect, n: nat, cs: seq<int>, rs: seq<int>)
    requires forall a, b :: 0 <= a < b < |targets| ==> targets[a] != targets[b]
    requires SpansAre(rows, targets, cs, rs)
    requires forall t :: 0 <= t < |targets| ==> targets[t].row + rs[t] - 1 < |rows|
    ensures var r := UnmergeCellsResult(rows, targets, geom, n);
      !r.2 && CellCount(r.0) == CellCount(rows) + GridSum(cs, rs, |targets|)
  {
    var g := Mark(rows, targets);
    PlainCellMints();
    MarkUnique(rows, targets);
    MarkSingle(rows, targets);
    TargetsFit(rows, targets, cs, rs);
    UnmergeAllSize(g, |targets|, geom, n, PlainCell);
    GrowthOfTargets(rows, targets, cs, rs);
    var u := UnmergeAll(g, |targets|, geom, n, PlainCell);
    SizeCount(u.rows);
    SizeCount(g);
    UnmarkMark(rows, targets);
  }
}

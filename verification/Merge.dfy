/** `mergeCells(compareRect, mergingCells, rowspan, colspan)`: the first listed cell takes
    the given spans, receives the lines of every other listed cell in list order
    (`moveChildren`), and every other listed cell is removed from its row. Then every line of
    the survivor is stamped with the survivor's row id, the head line's cell id and the two
    spans. An empty list, or a survivor left without lines, makes the source fail while
    reading the head line (`mergedCell` or `children.head` is `null`). */
module MergeCellsSpec {
  import opened JsValues
  import opened TableFormats
  import opened Lists

  function CellAt(rows: seq<Row>, p: Pos): Cell
    requires ValidPos(rows, p)
  {
    rows[p.row].cells[p.index]
  }

  /** The cells are listed by valid, pairwise distinct positions (the source holds them). */
  predicate Listing(rows: seq<Row>, ps: seq<Pos>) {
    && (forall i :: 0 <= i < |ps| ==> ValidPos(rows, ps[i]))
    && (forall i, j :: 0 <= i < j < |ps| ==> ps[i] != ps[j])
  }

  /** Every line of the listed cells, in list order: the independent reading of what the
      survivor ends up holding. */
  function Gathered(rows: seq<Row>, ps: seq<Pos>): seq<Attrs>
    requires Listing(rows, ps)
  {
    Flatten(seq(|ps|, i requires 0 <= i < |ps| => CellAt(rows, ps[i]).lines))
  }

  /** The positions whose cells are removed: all but the first. */
  function Gone(ps: seq<Pos>): set<Pos> {
    set i | 1 <= i < |ps| :: ps[i]
  }

  // ---------------------------------------------------------------- removing cells

  /** The indices below `n` of the cells of row `r` that stay, in order. */
  function Kept(n: nat, r: nat, gone: set<Pos>): (ks: seq<nat>)
    ensures |ks| <= n
    ensures forall i :: 0 <= i < |ks| ==> ks[i] < n
  {
    if n == 0 then []
    else Kept(n - 1, r, gone) + (if Pos(r, n - 1) in gone then [] else [n - 1])
  }

  /** The kept indices rise strictly and are exactly those below `n` not removed. */
  lemma {:induction false} KeptMeaning(n: nat, r: nat, gone: set<Pos>)
    ensures var ks := Kept(n, r, gone);
      && (forall i, j :: 0 <= i < j < |ks| ==> ks[i] < ks[j])
      && (forall j: nat :: j in ks <==> j < n && Pos(r, j) !in gone)
  {
    if n > 0 {
      KeptMeaning(n - 1, r, gone);
    }
  }

  /** A kept cell stands after the kept cells before it. */
  lemma {:induction false} KeptAt(n: nat, r: nat, gone: set<Pos>, at: nat)
    requires at < n && Pos(r, at) !in gone
    ensures |Kept(at, r, gone)| < |Kept(n, r, gone)|
    ensures Kept(n, r, gone)[|Kept(at, r, gone)|] == at
  {
    if at < n - 1 {
      KeptAt(n - 1, r, gone, at);
    }
  }

  /** Row `r` without its removed cells. */
  function KeepCells(cells: seq<Cell>, r: nat, gone: set<Pos>): (kept: seq<Cell>)
    ensures |kept| == |Kept(|cells|, r, gone)|
  {
    var ks := Kept(|cells|, r, gone);
    seq(|ks|, i requires 0 <= i < |ks| => cells[ks[i]])
  }

  /** `tableCell.remove()` for every removed position. */
  function Drop(rows: seq<Row>, gone: set<Pos>): (r: seq<Row>)
    ensures |r| == |rows|
  {
    seq(|rows|, i requires 0 <= i < |rows| => Row(rows[i].attrs, KeepCells(rows[i].cells, i, gone)))
  }

  // ---------------------------------------------------------------- merging

  /** `cellLine.format` of the cell id, the row id and the two spans, in this order. */
  function Stamp(l: Attrs, cellId: JsValue, rowId: JsValue, rowspan: JsValue, colspan: JsValue): Attrs {
    LineFormat(LineFormat(LineFormat(LineFormat(l, "cell", cellId), "row", rowId), "colspan", colspan), "rowspan", rowspan)
  }

  datatype Merged = Merged(rows: seq<Row>, threw: bool)

  function MergeCells(rows: seq<Row>, ps: seq<Pos>, rowspan: JsValue, colspan: JsValue): (m: Merged)
    requires Listing(rows, ps)
    ensures |m.rows| == |rows|
  {
    if |ps| == 0 then Merged(rows, true)
    else
      var first := CellFormat(CellFormat(CellAt(rows, ps[0]), "colspan", colspan), "rowspan", rowspan);
      var lines := first.lines + Flatten(seq(|ps| - 1, i requires 0 <= i < |ps| - 1 => CellAt(rows, ps[i + 1]).lines));
      var rowId := GetAttribute(first.attrs, "row");
      var cellId := if |lines| == 0 then Null else GetAttribute(lines[0], "cell");
      var merged := Cell(first.attrs, seq(|lines|, k requires 0 <= k < |lines| => Stamp(lines[k], cellId, rowId, rowspan, colspan)));
      var survivor := ps[0];
      var placed := rows[survivor.row := Row(rows[survivor.row].attrs, rows[survivor.row].cells[survivor.index := merged])];
      Merged(Drop(placed, Gone(ps)), |lines| == 0)
  }

  /** The first listed cell is not removed. */
  lemma FirstStays(ps: seq<Pos>)
    requires |ps| > 0 && forall i, j :: 0 <= i < j < |ps| ==> ps[i] != ps[j]
    ensures ps[0] !in Gone(ps)
  {
  }

  /** Where the survivor stands after the others are removed from its row. */
  function SurvivorIndex(ps: seq<Pos>): nat
    requires |ps| > 0
  {
    |Kept(ps[0].index, ps[0].row, Gone(ps))|
  }

  /** Line `l` holds `key` exactly when `v` is truthy, with `v`'s text. */
  predicate Carries(l: Attrs, key: string, v: JsValue) {
    (key in l <==> Truthy(v)) && (key in l ==> l[key] == ToAttr(v))
  }

  // ---------------------------------------------------------------- lemmas

  lemma {:induction false} FlattenCons<T>(a: seq<T>, s: seq<seq<T>>)
    ensures Flatten([a] + s) == a + Flatten(s)
  {
    if |s| == 0 {
      assert [a] + s == [a];
      assert [a][..0] == [];
    } else {
      FlattenCons(a, s[..|s| - 1]);
      assert ([a] + s)[..|s|] == [a] + s[..|s| - 1];
    }
  }

  /** The survivor's lines line up with the gathered lines. */
  lemma GatheredSplit(rows: seq<Row>, ps: seq<Pos>)
    requires Listing(rows, ps) && |ps| > 0
    ensures Gathered(rows, ps) == CellAt(rows, ps[0]).lines + Flatten(seq(|ps| - 1, i requires 0 <= i < |ps| - 1 => CellAt(rows, ps[i + 1]).lines))
  {
    var all := seq(|ps|, i requires 0 <= i < |ps| => CellAt(rows, ps[i]).lines);
    var rest := seq(|ps| - 1, i requires 0 <= i < |ps| - 1 => CellAt(rows, ps[i + 1]).lines);
    assert all == [all[0]] + rest;
    FlattenCons(all[0], rest);
  }

  /** The source fails exactly when nothing is listed or no listed cell has a line. */
  lemma MergeThrows(rows: seq<Row>, ps: seq<Pos>, rowspan: JsValue, colspan: JsValue)
    requires Listing(rows, ps)
    ensures MergeCells(rows, ps, rowspan, colspan).threw <==> |ps| == 0 || |Gathered(rows, ps)| == 0
  {
    if |ps| > 0 {
      GatheredSplit(rows, ps);
    }
  }

  /** The survivor keeps its attributes but for the spans, which are the arguments (a falsy
      one removes the attribute), and its row and place among the cells that stay. */
  lemma MergeSurvivor(rows: seq<Row>, ps: seq<Pos>, rowspan: JsValue, colspan: JsValue)
    requires Listing(rows, ps) && |ps| > 0
    ensures var m := MergeCells(rows, ps, rowspan, colspan);
      var at := SurvivorIndex(ps);
      var c := CellAt(rows, ps[0]);
      && at < |m.rows[ps[0].row].cells|
      && var d := m.rows[ps[0].row].cells[at];
      && Carries(d.attrs, "colspan", colspan) && Carries(d.attrs, "rowspan", rowspan)
      && (forall j :: j != "colspan" && j != "rowspan" ==>
            (j in d.attrs <==> j in c.attrs) && (j in d.attrs ==> d.attrs[j] == c.attrs[j]))
      && |d.lines| == |Gathered(rows, ps)|
  {
    SurvivorCell(rows, ps, rowspan, colspan);
    GatheredSplit(rows, ps);
    var c := CellAt(rows, ps[0]);
    assert CellKey("colspan") == Some("colspan") && CellKey("rowspan") == Some("rowspan");
    var c1 := CellFormat(c, "colspan", colspan);
  }

  /** Stamping sets the cell id, the row id and the two spans, and leaves every other
      attribute of the line. */
  lemma StampMeaning(l: Attrs, cellId: JsValue, rowId: JsValue, rowspan: JsValue, colspan: JsValue)
    ensures var s := Stamp(l, cellId, rowId, rowspan, colspan);
      && Carries(s, "cell", cellId) && Carries(s, "row", rowId)
      && Carries(s, "colspan", colspan) && Carries(s, "rowspan", rowspan)
      && (forall j :: j != "cell" && j != "row" && j != "colspan" && j != "rowspan" ==>
            (j in s <==> j in l) && (j in s ==> s[j] == l[j]))
  {
    assert LineKey("cell") == Some("cell") && LineKey("row") == Some("row");
    assert LineKey("colspan") == Some("colspan") && LineKey("rowspan") == Some("rowspan");
  }

  /** Before stamping, the survivor's lines are the gathered ones but for the spans. */
  lemma MergedLinesBefore(rows: seq<Row>, ps: seq<Pos>, rowspan: JsValue, colspan: JsValue)
    requires Listing(rows, ps) && |ps| > 0
    ensures var first := CellFormat(CellFormat(CellAt(rows, ps[0]), "colspan", colspan), "rowspan", rowspan);
      var lines := first.lines + Flatten(seq(|ps| - 1, i requires 0 <= i < |ps| - 1 => CellAt(rows, ps[i + 1]).lines));
      var src := Gathered(rows, ps);
      && |lines| == |src|
      && forall k, j :: 0 <= k < |lines| && j != "colspan" && j != "rowspan" ==>
           (j in lines[k] <==> j in src[k]) && (j in lines[k] ==> lines[k][j] == src[k][j])
  {
    GatheredSplit(rows, ps);
    var c := CellAt(rows, ps[0]);
    assert CellKey("colspan") == Some("colspan") && CellKey("rowspan") == Some("rowspan");
    var first := CellFormat(CellFormat(c, "colspan", colspan), "rowspan", rowspan);
    var rest := Flatten(seq(|ps| - 1, i requires 0 <= i < |ps| - 1 => CellAt(rows, ps[i + 1]).lines));
    var lines := first.lines + rest;
    var src := Gathered(rows, ps);
    forall k, j | 0 <= k < |lines| && j != "colspan" && j != "rowspan"
      ensures (j in lines[k] <==> j in src[k]) && (j in lines[k] ==> lines[k][j] == src[k][j])
    {
      if k < |first.lines| {
        assert lines[k] == first.lines[k] && src[k] == c.lines[k];
      } else {
        assert lines[k] == rest[k - |first.lines|] && src[k] == rest[k - |c.lines|];
      }
    }
  }

  /** The cell standing at the survivor's place after the merge. */
  lemma SurvivorCell(rows: seq<Row>, ps: seq<Pos>, rowspan: JsValue, colspan: JsValue)
    requires Listing(rows, ps) && |ps| > 0
    ensures var m := MergeCells(rows, ps, rowspan, colspan);
      var first := CellFormat(CellFormat(CellAt(rows, ps[0]), "colspan", colspan), "rowspan", rowspan);
      var lines := first.lines + Flatten(seq(|ps| - 1, i requires 0 <= i < |ps| - 1 => CellAt(rows, ps[i + 1]).lines));
      var rowId := GetAttribute(first.attrs, "row");
      var cellId := if |lines| == 0 then Null else GetAttribute(lines[0], "cell");
      && SurvivorIndex(ps) < |m.rows[ps[0].row].cells|
      && m.rows[ps[0].row].cells[SurvivorIndex(ps)]
         == Cell(first.attrs, seq(|lines|, k requires 0 <= k < |lines| => Stamp(lines[k], cellId, rowId, rowspan, colspan)))
  {
    var p := ps[0];
    FirstStays(ps);
    KeptAt(|rows[p.row].cells|, p.row, Gone(ps), p.index);
  }

  /** Every line of the survivor is the gathered line at the same place, stamped: it
      carries the survivor's row id, the head line's cell id and the two spans, and every
      other attribute as it was. */
  lemma MergeLines(rows: seq<Row>, ps: seq<Pos>, rowspan: JsValue, colspan: JsValue, k: nat)
    requires Listing(rows, ps) && |ps| > 0
    requires k < |Gathered(rows, ps)|
    ensures var m := MergeCells(rows, ps, rowspan, colspan);
      var src := Gathered(rows, ps);
      var c := CellAt(rows, ps[0]);
      var cells := m.rows[ps[0].row].cells;
      && SurvivorIndex(ps) < |cells| && k < |cells[SurvivorIndex(ps)].lines|
      && var l := cells[SurvivorIndex(ps)].lines[k];
      && Carries(l, "cell", GetAttribute(src[0], "cell"))
      && Carries(l, "row", GetAttribute(c.attrs, "row"))
      && Carries(l, "colspan", colspan) && Carries(l, "rowspan", rowspan)
      && (forall j :: j != "cell" && j != "row" && j != "colspan" && j != "rowspan" ==>
            (j in l <==> j in src[k]) && (j in l ==> l[j] == src[k][j]))
  {
    SurvivorCell(rows, ps, rowspan, colspan);
    MergedLinesBefore(rows, ps, rowspan, colspan);
    var c := CellAt(rows, ps[0]);
    assert CellKey("colspan") == Some("colspan") && CellKey("rowspan") == Some("rowspan");
    var first := CellFormat(CellFormat(c, "colspan", colspan), "rowspan", rowspan);
    var lines := first.lines + Flatten(seq(|ps| - 1, i requires 0 <= i < |ps| - 1 => CellAt(rows, ps[i + 1]).lines));
    var cellId := GetAttribute(lines[0], "cell");
    var rowId := GetAttribute(first.attrs, "row");
    StampMeaning(lines[k], cellId, rowId, rowspan, colspan);
    assert rowId == GetAttribute(c.attrs, "row");
    assert cellId == GetAttribute(Gathered(rows, ps)[0], "cell");
  }

  /** Every row keeps, in order, exactly its cells that were not merged away; the survivor
      stands in for the first listed cell. */
  lemma MergeKeeps(rows: seq<Row>, ps: seq<Pos>, rowspan: JsValue, colspan: JsValue, r: nat)
    requires Listing(rows, ps) && |ps| > 0 && r < |rows|
    ensures var m := MergeCells(rows, ps, rowspan, colspan);
      var ks := Kept(|rows[r].cells|, r, Gone(ps));
      && m.rows[r].attrs == rows[r].attrs
      && |m.rows[r].cells| == |ks|
      && (forall i :: 0 <= i < |ks| && Pos(r, ks[i]) != ps[0] ==> m.rows[r].cells[i] == rows[r].cells[ks[i]])
  {
    KeptMeaning(|rows[r].cells|, r, Gone(ps));
  }
}

/** The attribute side of the table blots: what `create` writes, what `formats()` reads
    back and what `format(name, value)` changes, for a cell line (`TableCellLine`), a column
    (`TableCol`), a cell (`TableCell`) and a row (`TableRow`); the identity tests behind
    their `checkMerge`; and the position of a cell or row in its parent. */
module TableFormats {
  import opened JsValues

  const CELL_ATTRIBUTES: seq<string> := ["rowspan", "colspan"]
  const CELL_IDENTITY_KEYS: seq<string> := ["row", "cell"]

  /** The style attributes a cell line and a cell store (as `data-<key>`). */
  const STYLE_KEYS: seq<string> :=
    ["cell_bg", "cell_vertical_alignment", "cell_horizontal_alignment",
     "cell_btc", "cell_bbc", "cell_brc", "cell_blc",
     "cell_bts", "cell_bbs", "cell_brs", "cell_bls", "row_height"]

  /** Everything `TableCellLine.formats` reports. */
  const LINE_KEYS: seq<string> := CELL_ATTRIBUTES + CELL_IDENTITY_KEYS + STYLE_KEYS

  /** Everything `TableCell.formats` reports. */
  const CELL_KEYS: seq<string> := ["row"] + STYLE_KEYS + CELL_ATTRIBUTES

  const ROW_KEYS: seq<string> := ["row", "row_height"]

  const COL_ATTRIBUTES: seq<string> :=
    ["width", "table_left_indent", "table_alignment", "table_preffered_width"]

  /** `COL_DEFAULT`: width 100, every table-level figure 0. */
  function ColDefault(name: string): JsValue {
    if name == "width" then Number(100.0) else Number(0.0)
  }

  /** The background is passed as `cell-bg` and stored as `cell_bg`; every other style name
      is stored under its own name. */
  function ValueName(key: string): string {
    if key == "cell_bg" then "cell-bg" else key
  }

  /** A cell: its own attributes and its cell lines, in order. */
  datatype Cell = Cell(attrs: Attrs, lines: seq<Attrs>)

  /** A row: its attributes (`row`, `row_height`) and its cells, in order. */
  datatype Row = Row(attrs: Attrs, cells: seq<Cell>)

  /** Where a cell stands: its row's index in the body and its index in that row. */
  datatype Pos = Pos(row: nat, index: nat)

  predicate ValidPos(rows: seq<Row>, p: Pos) {
    p.row < |rows| && p.index < |rows[p.row].cells|
  }

  // ---------------------------------------------------------------- cell line

  /** The `if (value[name]) node.setAttribute(...)` steps of `create`, one per key of
      `keys` in turn; a key is read from the value under its `ValueName`. */
  function Written(value: Formats, keys: seq<string>): Attrs
    decreases |keys|
  {
    if |keys| == 0 then map[]
    else
      var k := keys[|keys| - 1];
      var before := Written(value, keys[..|keys| - 1]);
      if Truthy(Get(value, ValueName(k))) then before[k := ToAttr(Get(value, ValueName(k)))] else before
  }

  /** Exactly the keys whose value is truthy are written, each with its value's text. */
  lemma {:induction false} WrittenMeaning(value: Formats, keys: seq<string>)
    ensures var a := Written(value, keys);
      && (forall k :: k in a <==> k in keys && Truthy(Get(value, ValueName(k))))
      && (forall k :: k in a ==> a[k] == ToAttr(Get(value, ValueName(k))))
    decreases |keys|
  {
    if |keys| > 0 {
      WrittenMeaning(value, keys[..|keys| - 1]);
      assert keys == keys[..|keys| - 1] + [keys[|keys| - 1]];
    }
  }

  lemma StyleKeysAreNotIdentity()
    ensures forall k :: k in STYLE_KEYS ==> k !in CELL_ATTRIBUTES + CELL_IDENTITY_KEYS
  {
    forall k | k in STYLE_KEYS
      ensures k !in CELL_ATTRIBUTES + CELL_IDENTITY_KEYS
    {
      assert (|k| >= 7 && k[4] == '_') || k == "row_height";
    }
  }

  /** `TableCellLine.create(value)`: the identity keys fall back to freshly minted ids, the
      spans to 1, and a style attribute is written only when its value is truthy. */
  function LineCreate(value: Formats, rowFallback: string, cellFallback: string): (a: Attrs)
    ensures "row" in a && "cell" in a && "rowspan" in a && "colspan" in a
    ensures a["row"] == (if Truthy(Get(value, "row")) then ToAttr(Get(value, "row")) else Str(rowFallback))
    ensures a["cell"] == (if Truthy(Get(value, "cell")) then ToAttr(Get(value, "cell")) else Str(cellFallback))
    ensures a["rowspan"] == (if Truthy(Get(value, "rowspan")) then ToAttr(Get(value, "rowspan")) else Numeric(1.0, ""))
    ensures a["colspan"] == (if Truthy(Get(value, "colspan")) then ToAttr(Get(value, "colspan")) else Numeric(1.0, ""))
  {
    Written(value, STYLE_KEYS) + map[
      "row" := ToAttr(Or(Get(value, "row"), Text(Str(rowFallback)))),
      "cell" := ToAttr(Or(Get(value, "cell"), Text(Str(cellFallback)))),
      "rowspan" := ToAttr(Or(Get(value, "rowspan"), Number(1.0))),
      "colspan" := ToAttr(Or(Get(value, "colspan"), Number(1.0)))]
  }

  /** A style attribute is written exactly when its value is truthy, and nothing but the
      attributes `formats()` knows is written. */
  lemma LineCreateStyles(value: Formats, rowFallback: string, cellFallback: string)
    ensures var a := LineCreate(value, rowFallback, cellFallback);
      && (forall k :: k in STYLE_KEYS ==>
            (k in a <==> Truthy(Get(value, ValueName(k)))) && (k in a ==> a[k] == ToAttr(Get(value, ValueName(k)))))
      && (forall k :: k in a ==> k in LINE_KEYS)
  {
    StyleKeysAreNotIdentity();
    WrittenMeaning(value, STYLE_KEYS);
  }

  /** `TableCellLine.formats`: every known attribute present, an empty string read as
      `undefined`. */
  function LineFormats(a: Attrs): Formats {
    map k | k in LINE_KEYS && k in a :: if a[k] == Str("") then Undefined else Text(a[k])
  }

  /** The attribute `TableCellLine.format(name, _)` writes, if any: spans and identity keys
      under their own name, the style names as stored. */
  function LineKey(name: string): Option<string> {
    if name in CELL_ATTRIBUTES || name in CELL_IDENTITY_KEYS then Some(name)
    else if name == "cell-bg" then Some("cell_bg")
    else if name in STYLE_KEYS && name != "cell_bg" then Some(name)
    else None
  }

  /** `TableCellLine.format(name, value)`: a falsy value removes the attribute, a truthy one
      stores it; any other name is the framework's (and leaves the line's attributes). */
  function LineFormat(a: Attrs, name: string, value: JsValue): (r: Attrs)
    ensures LineKey(name).None? ==> r == a
    ensures LineKey(name).Some? ==> r == Toggle(a, LineKey(name).value, value)
  {
    if LineKey(name).Some? then Toggle(a, LineKey(name).value, value) else a
  }

  lemma LineKeyIsRead(name: string)
    requires LineKey(name).Some?
    ensures LineKey(name).value in LINE_KEYS
  {
  }

  /** Clearing and setting read back through `formats()`: after a falsy write the key is no
      longer reported; after a truthy write it is reported as the stored string (a string
      value exactly as given); every other key reads as before. */
  lemma LineFormatReadsBack(a: Attrs, name: string, value: JsValue)
    requires LineKey(name).Some?
    ensures var k := LineKey(name).value;
      var before, after := LineFormats(a), LineFormats(LineFormat(a, name, value));
      && (k in after <==> Truthy(value))
      && (Truthy(value) ==> after[k] == Text(ToAttr(value)))
      && (Truthy(value) && value.Text? ==> after[k] == value)
      && (forall j :: j != k ==> (j in after <==> j in before) && (j in after ==> after[j] == before[j]))
  {
    var k := LineKey(name).value;
    LineKeyIsRead(name);
    if Truthy(value) {
      TruthyStoresNonEmpty(value);
    }
  }

  /** What `create` was given reads back from `formats()`: a truthy identity or span as
      given, a missing one as the fallback id or 1. */
  lemma LineCreateReadsBack(value: Formats, rowFallback: string, cellFallback: string)
    requires rowFallback != "" && cellFallback != ""
    ensures var f := LineFormats(LineCreate(value, rowFallback, cellFallback));
      && f["row"] == (if Truthy(Get(value, "row")) then Text(ToAttr(Get(value, "row"))) else Text(Str(rowFallback)))
      && f["cell"] == (if Truthy(Get(value, "cell")) then Text(ToAttr(Get(value, "cell"))) else Text(Str(cellFallback)))
      && f["rowspan"] == (if Truthy(Get(value, "rowspan")) then Text(ToAttr(Get(value, "rowspan"))) else Text(Numeric(1.0, "")))
      && f["colspan"] == (if Truthy(Get(value, "colspan")) then Text(ToAttr(Get(value, "colspan"))) else Text(Numeric(1.0, "")))
  {
    var a := LineCreate(value, rowFallback, cellFallback);
    assert "row" in LINE_KEYS && "cell" in LINE_KEYS && "rowspan" in LINE_KEYS && "colspan" in LINE_KEYS;
    if Truthy(Get(value, "row")) { TruthyStoresNonEmpty(Get(value, "row")); }
    if Truthy(Get(value, "cell")) { TruthyStoresNonEmpty(Get(value, "cell")); }
    if Truthy(Get(value, "rowspan")) { TruthyStoresNonEmpty(Get(value, "rowspan")); }
    if Truthy(Get(value, "colspan")) { TruthyStoresNonEmpty(Get(value, "colspan")); }
  }

  // ---------------------------------------------------------------- column

  /** `TableCol.create(value)`: every column attribute is written, a falsy one as its
      default. */
  function ColCreate(value: Formats): (a: Attrs)
    ensures a.Keys == set k | k in COL_ATTRIBUTES
    ensures forall k :: k in a ==> a[k] == ToAttr(if Truthy(Get(value, k)) then Get(value, k) else ColDefault(k))
  {
    map k | k in COL_ATTRIBUTES :: ToAttr(Or(Get(value, k), ColDefault(k)))
  }

  /** `TableCol.formats`. */
  function ColFormats(a: Attrs): Formats {
    map k | k in COL_ATTRIBUTES && k in a :: if a[k] == Str("") then Undefined else Text(a[k])
  }

  /** `TableCol.format(name, value)`: a falsy value writes the default instead of removing. */
  function ColFormat(a: Attrs, name: string, value: JsValue): (r: Attrs)
    ensures name !in COL_ATTRIBUTES ==> r == a
    ensures name in COL_ATTRIBUTES ==> name in r && r == a[name := r[name]]
    ensures name in COL_ATTRIBUTES && Truthy(value) ==> r[name] == ToAttr(value)
    ensures name in COL_ATTRIBUTES && !Truthy(value) ==> r[name] == ToAttr(ColDefault(name))
  {
    if name in COL_ATTRIBUTES then a[name := ToAttr(Or(value, ColDefault(name)))] else a
  }

  /** A column attribute is never cleared: after any write it reads back as the value
      written, or as `COL_DEFAULT`'s figure for a falsy value. */
  lemma ColFormatReadsBack(a: Attrs, name: string, value: JsValue)
    requires name in COL_ATTRIBUTES
    ensures var f := ColFormats(ColFormat(a, name, value));
      && name in f
      && f[name] == Text(if Truthy(value) then ToAttr(value) else Numeric(if name == "width" then 100.0 else 0.0, ""))
  {
    if Truthy(value) {
      TruthyStoresNonEmpty(value);
    }
  }

  // ---------------------------------------------------------------- cell

  /** `TableCell.create(value)` (its `data-*` and span attributes): the row id is written
      whatever it is, spans and styles only when truthy. */
  function CellCreate(value: Formats): (a: Attrs)
    ensures "row" in a && a["row"] == ToAttr(Get(value, "row"))
    ensures "rowspan" in a <==> Truthy(Get(value, "rowspan"))
    ensures "rowspan" in a ==> a["rowspan"] == ToAttr(Get(value, "rowspan"))
    ensures "colspan" in a <==> Truthy(Get(value, "colspan"))
    ensures "colspan" in a ==> a["colspan"] == ToAttr(Get(value, "colspan"))
  {
    WrittenMeaning(value, CELL_ATTRIBUTES + STYLE_KEYS);
    assert "rowspan" in CELL_ATTRIBUTES + STYLE_KEYS && "colspan" in CELL_ATTRIBUTES + STYLE_KEYS;
    Written(value, CELL_ATTRIBUTES + STYLE_KEYS)["row" := ToAttr(Get(value, "row"))]
  }

  /** Every style attribute is written exactly when its value is truthy, and nothing but the
      attributes `formats()` knows is written. */
  lemma CellCreateStyles(value: Formats)
    ensures var a := CellCreate(value);
      && (forall k :: k in STYLE_KEYS ==>
            (k in a <==> Truthy(Get(value, ValueName(k)))) && (k in a ==> a[k] == ToAttr(Get(value, ValueName(k)))))
      && (forall k :: k in a ==> k in CELL_KEYS)
  {
    StyleKeysAreNotIdentity();
    WrittenMeaning(value, CELL_ATTRIBUTES + STYLE_KEYS);
  }

  /** `TableCell.formats` (static and instance alike). */
  function CellFormats(a: Attrs): Formats {
    map k | k in CELL_KEYS && k in a :: Text(a[k])
  }

  /** The attribute `TableCell.format(name, _)` toggles on the cell, if any. It is the one the
      lines receive as well; `cell` is not among them (it goes to the framework). */
  function CellKey(name: string): Option<string> {
    if name == "cell" then None else LineKey(name)
  }

  /** `TableCell.format(name, value)` on the cell and its lines (the parent row's share for
      `row_height` is `RowFormatFromCell`): the cell's attribute is toggled and the same
      name and value are formatted into every line, so afterwards the cell and each of its
      lines agree on that attribute. */
  function CellFormat(c: Cell, name: string, value: JsValue): (r: Cell)
    ensures |r.lines| == |c.lines|
    ensures CellKey(name).None? ==> r == c
    ensures CellKey(name).Some? ==>
      var k := CellKey(name).value;
      && (k in r.attrs <==> Truthy(value))
      && (k in r.attrs ==> r.attrs[k] == ToAttr(value))
      && (forall i :: 0 <= i < |r.lines| ==>
            (k in r.lines[i] <==> k in r.attrs) && (k in r.attrs ==> r.lines[i][k] == r.attrs[k]))
      && (forall j :: j != k ==> (j in r.attrs <==> j in c.attrs) && (j in r.attrs ==> r.attrs[j] == c.attrs[j]))
      && (forall i, j :: 0 <= i < |r.lines| && j != k ==>
            (j in r.lines[i] <==> j in c.lines[i]) && (j in r.lines[i] ==> r.lines[i][j] == c.lines[i][j]))
  {
    if CellKey(name).Some? then
      Cell(Toggle(c.attrs, CellKey(name).value, value),
           seq(|c.lines|, i requires 0 <= i < |c.lines| => LineFormat(c.lines[i], name, value)))
    else c
  }

  /** A cell's span as `parseInt(cell.formats()[key], 10)` reads it. */
  function SpanOf(c: Cell, key: string): Option<int> {
    if key in c.attrs then ParseInt(Text(c.attrs[key])) else None
  }

  lemma SpanOfIsFormatted(c: Cell, key: string)
    requires key in CELL_ATTRIBUTES
    ensures SpanOf(c, key) == ParseInt(Get(CellFormats(c.attrs), key))
  {
    assert key in CELL_KEYS;
  }

  /** `cell.format(key, parseInt(cell.formats()[key], 10) + delta)`, the span update of
      every delete and insert. */
  function ShiftSpan(c: Cell, key: string, delta: int): Cell {
    CellFormat(c, key, AddTo(SpanOf(c, key), delta))
  }

  /** `d` is `c` with its span `key` moved by `delta` on the cell and on every line: the
      new span where it is non-zero, no such attribute where it is 0 (falsy) or the old span
      did not parse (`NaN`); every other attribute as it was. */
  ghost predicate SpanShifted(c: Cell, d: Cell, key: string, delta: int) {
    var n := SpanOf(c, key);
    && |d.lines| == |c.lines|
    && (if n.Some? && n.value + delta != 0 then
          && SpanOf(d, key) == Some(n.value + delta)
          && forall i :: 0 <= i < |d.lines| ==> key in d.lines[i] && d.lines[i][key] == Numeric((n.value + delta) as real, "")
        else
          key !in d.attrs && forall i :: 0 <= i < |d.lines| ==> key !in d.lines[i])
    && (forall j :: j != key ==> (j in d.attrs <==> j in c.attrs) && (j in d.attrs ==> d.attrs[j] == c.attrs[j]))
    && (forall i, j :: 0 <= i < |d.lines| && j != key ==>
          (j in d.lines[i] <==> j in c.lines[i]) && (j in d.lines[i] ==> d.lines[i][j] == c.lines[i][j]))
  }

  /** Writing a span back through `TableCell.format` shifts it on the cell and its lines. */
  lemma ShiftSpanMeaning(c: Cell, key: string, delta: int)
    requires key in CELL_ATTRIBUTES
    ensures SpanShifted(c, ShiftSpan(c, key, delta), key, delta)
  {
    assert CellKey(key) == Some(key);
    var v := AddTo(SpanOf(c, key), delta);
    var r := CellFormat(c, key, v);
    if SpanOf(c, key).Some? && SpanOf(c, key).value + delta != 0 {
      var m := SpanOf(c, key).value + delta;
      assert v == Number(m as real) && Truthy(v);
      assert r.attrs[key] == Numeric(m as real, "");
      assert Trunc(m as real) == m;
    }
  }

  // ---------------------------------------------------------------- row

  /** `TableRow.create(value)`: the row id is written whatever it is, the height if truthy. */
  function RowCreate(value: Formats): (a: Attrs)
    ensures "row" in a && a["row"] == ToAttr(Get(value, "row"))
    ensures "row_height" in a <==> Truthy(Get(value, "row_height"))
    ensures a.Keys <= set k | k in ROW_KEYS
  {
    var base := map["row" := ToAttr(Get(value, "row"))];
    if Truthy(Get(value, "row_height")) then base["row_height" := ToAttr(Get(value, "row_height"))] else base
  }

  /** `TableRow.formats`. */
  function RowFormats(a: Attrs): Formats {
    map k | k in ROW_KEYS && k in a :: Text(a[k])
  }

  /** The parent row's share of `TableCell.format(name, value)`: for `row_height` the row's
      attribute is set unconditionally (a falsy value is stored as its string, not removed). */
  function RowFormatFromCell(a: Attrs, name: string, value: JsValue): (r: Attrs)
    ensures name != "row_height" ==> r == a
    ensures name == "row_height" ==> r == a["row_height" := ToAttr(value)]
  {
    if name == "row_height" then a["row_height" := ToAttr(value)] else a
  }

  // ---------------------------------------------------------------- checkMerge

  /** `line.formats().cell` */
  function LineCellId(l: Attrs): JsValue {
    if "cell" in l && l["cell"] != Str("") then Text(l["cell"]) else Undefined
  }

  /** `cell.formats().row` */
  function CellRowId(c: Cell): JsValue {
    if "row" in c.attrs then Text(c.attrs["row"]) else Undefined
  }

  lemma IdsAreFormatted(l: Attrs, c: Cell)
    ensures LineCellId(l) == Get(LineFormats(l), "cell")
    ensures CellRowId(c) == Get(CellFormats(c.attrs), "row")
  {
    assert "cell" in LINE_KEYS && "row" in CELL_KEYS;
  }

  /** `TableCell.checkMerge`: the next sibling is a cell with lines, and the head and tail
      lines of both carry the same `cell` id. `next` is `None` when there is no next sibling
      or it is not a cell. Only called on a cell with lines. */
  function CellCheckMerge(c: Cell, next: Option<Cell>): (merge: bool)
    requires |c.lines| > 0
    ensures merge ==> next.Some? && |next.value.lines| > 0
    ensures merge ==> LineCellId(c.lines[0]) == LineCellId((c.lines + next.value.lines)[|c.lines| + |next.value.lines| - 1])
  {
    && next.Some? && |next.value.lines| > 0
    && LineCellId(c.lines[0]) == LineCellId(c.lines[|c.lines| - 1])
    && LineCellId(c.lines[0]) == LineCellId(next.value.lines[0])
    && LineCellId(c.lines[0]) == LineCellId(next.value.lines[|next.value.lines| - 1])
  }

  /** Two adjacent cells whose lines all carry one `cell` id merge; and merging is decided by
      identity alone: cells that merge agree on the id at both ends of both. */
  lemma CellCheckMergeByIdentity(c: Cell, n: Cell, id: JsValue)
    requires |c.lines| > 0 && |n.lines| > 0
    ensures ((forall i :: 0 <= i < |c.lines| ==> LineCellId(c.lines[i]) == id) &&
             (forall i :: 0 <= i < |n.lines| ==> LineCellId(n.lines[i]) == id)) ==> CellCheckMerge(c, Some(n))
    ensures CellCheckMerge(c, Some(n)) ==>
            LineCellId(c.lines[|c.lines| - 1]) == LineCellId(n.lines[0]) == LineCellId(n.lines[|n.lines| - 1])
  {
  }

  /** Only the ends are consulted: a cell merges exactly when the next cell has lines and
      the first and last lines of both carry one id, so two cells with the same end lines
      (whatever lies between) decide alike. */
  lemma CellCheckMergeEnds(c: Cell, c': Cell, n: Option<Cell>, n': Option<Cell>)
    requires |c.lines| > 0 && |c'.lines| > 0
    requires c'.lines[0] == c.lines[0] && c'.lines[|c'.lines| - 1] == c.lines[|c.lines| - 1]
    requires n.Some? <==> n'.Some?
    requires n.Some? ==> (|n.value.lines| > 0 <==> |n'.value.lines| > 0)
    requires n.Some? && |n.value.lines| > 0 ==>
               n'.value.lines[0] == n.value.lines[0] &&
               n'.value.lines[|n'.value.lines| - 1] == n.value.lines[|n.value.lines| - 1]
    ensures CellCheckMerge(c, n) <==>
              n.Some? && |n.value.lines| > 0 &&
              LineCellId(c.lines[0]) == LineCellId(c.lines[|c.lines| - 1]) == LineCellId(n.value.lines[0]) ==
              LineCellId(n.value.lines[|n.value.lines| - 1])
    ensures CellCheckMerge(c, n) == CellCheckMerge(c', n')
  {
  }

  /** `TableRow.checkMerge`: the next sibling is a row with cells, and the head and tail cells
      of both carry the same `row` id. Only called on a row with cells. */
  function RowCheckMerge(r: Row, next: Option<Row>): (merge: bool)
    requires |r.cells| > 0
    ensures merge ==> next.Some? && |next.value.cells| > 0
    ensures merge ==> CellRowId(r.cells[0]) == CellRowId((r.cells + next.value.cells)[|r.cells| + |next.value.cells| - 1])
  {
    && next.Some? && |next.value.cells| > 0
    && CellRowId(r.cells[0]) == CellRowId(r.cells[|r.cells| - 1])
    && CellRowId(r.cells[0]) == CellRowId(next.value.cells[0])
    && CellRowId(r.cells[0]) == CellRowId(next.value.cells[|next.value.cells| - 1])
  }

  /** Two adjacent rows whose cells all carry one `row` id merge; and rows that merge agree
      on the id at both ends of both. */
  lemma RowCheckMergeByIdentity(r: Row, n: Row, id: JsValue)
    requires |r.cells| > 0 && |n.cells| > 0
    ensures ((forall i :: 0 <= i < |r.cells| ==> CellRowId(r.cells[i]) == id) &&
             (forall i :: 0 <= i < |n.cells| ==> CellRowId(n.cells[i]) == id)) ==> RowCheckMerge(r, Some(n))
    ensures RowCheckMerge(r, Some(n)) ==>
            CellRowId(r.cells[|r.cells| - 1]) == CellRowId(n.cells[0]) == CellRowId(n.cells[|n.cells| - 1])
  {
  }

  /** Only the ends are consulted: a row merges exactly when the next row has cells and the
      first and last cells of both carry one row id, so rows with the same end cells decide
      alike. */
  lemma RowCheckMergeEnds(r: Row, r': Row, n: Option<Row>, n': Option<Row>)
    requires |r.cells| > 0 && |r'.cells| > 0
    requires r'.cells[0] == r.cells[0] && r'.cells[|r'.cells| - 1] == r.cells[|r.cells| - 1]
    requires n.Some? <==> n'.Some?
    requires n.Some? ==> (|n.value.cells| > 0 <==> |n'.value.cells| > 0)
    requires n.Some? && |n.value.cells| > 0 ==>
               n'.value.cells[0] == n.value.cells[0] &&
               n'.value.cells[|n'.value.cells| - 1] == n.value.cells[|n.value.cells| - 1]
    ensures RowCheckMerge(r, n) <==>
              n.Some? && |n.value.cells| > 0 &&
              CellRowId(r.cells[0]) == CellRowId(r.cells[|r.cells| - 1]) == CellRowId(n.value.cells[0]) ==
              CellRowId(n.value.cells[|n.value.cells| - 1])
    ensures RowCheckMerge(r, n) == RowCheckMerge(r', n')
  {
  }

  // ---------------------------------------------------------------- offsets

  /** `Array.prototype.indexOf` over a parent's children: the first position holding `x`,
      or -1. */
  function IndexOf<T(==)>(s: seq<T>, x: T): (i: int)
    ensures -1 <= i < |s|
    ensures i == -1 <==> x !in s
    ensures 0 <= i ==> s[i] == x && x !in s[..i]
  {
    if |s| == 0 then -1
    else if s[0] == x then 0
    else
      var j := IndexOf(s[1..], x);
      if j == -1 then -1 else j + 1
  }

  /** `TableCell.cellOffset` and `TableRow.rowOffset`: the position of the first child of
      the parent equal to `x`, -1 without a parent. */
  function ChildOffset<T(==)>(parent: Option<seq<T>>, x: T): (i: int)
    ensures parent.None? ==> i == -1
    ensures parent.Some? && x in parent.value ==>
              0 <= i < |parent.value| && parent.value[i] == x &&
              forall j :: 0 <= j < i ==> parent.value[j] != x
    ensures parent.Some? && x !in parent.value ==> i == -1
  {
    if parent.Some? then
      var i := IndexOf(parent.value, x);
      assert 0 <= i ==> forall j :: 0 <= j < i ==> parent.value[..i][j] == parent.value[j];
      i
    else -1
  }

  /** `TableCell.rowOffset`: its row's offset, -1 when the cell has no row. */
  function CellRowOffset(body: Option<seq<Row>>, row: Option<Row>): (i: int)
    ensures row.None? ==> i == -1
    ensures row.Some? ==> i == ChildOffset(body, row.value)
  {
    if row.Some? then ChildOffset(body, row.value) else -1
  }
}

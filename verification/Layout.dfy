/** Column-width arithmetic of the table container: pixel/point conversion, the
    "every column is 100 wide" test, the sum of the column widths and the equal share
    `updateColumnsWidth` hands out. Numbers are reals (floating-point rounding is not
    modelled); `NaN` is `None`. */
module Layout {
  import opened JsValues
  import opened TableFormats

  /** `convertToPixels`: points to pixels, `value * 4 / 3`. */
  function ConvertToPixels(v: real): (px: real)
    ensures px * 3.0 == v * 4.0
  {
    (v * 4.0) / 3.0
  }

  /** `convertToPoints`: pixels to points, `value * 3 / 4`. */
  function ConvertToPoints(v: real): (pt: real)
    ensures pt * 4.0 == v * 3.0
  {
    (v * 3.0) / 4.0
  }

  /** The two conversions undo each other. */
  lemma PixelsPointsRoundTrip(v: real)
    ensures ConvertToPoints(ConvertToPixels(v)) == v
    ensures ConvertToPixels(ConvertToPoints(v)) == v
  {
  }

  /** A column's width as `col.formats()['table-col'].width` reads it. */
  function ColWidth(col: Attrs): JsValue {
    if "width" in col && col["width"] != Str("") then Text(col["width"]) else Undefined
  }

  lemma ColWidthIsFormatted(col: Attrs)
    ensures ColWidth(col) == Get(ColFormats(col), "width")
  {
    assert "width" in COL_ATTRIBUTES;
  }

  /** `allColumnsHave100Width`: the `reduce` with `acc && width === '100'`, true on no
      columns. */
  function AllColumnsHave100Width(cols: seq<Attrs>): (all: bool)
    ensures all <==> forall i :: 0 <= i < |cols| ==> ColWidth(cols[i]) == Text(Numeric(100.0, ""))
  {
    if |cols| == 0 then true
    else AllColumnsHave100Width(cols[..|cols| - 1]) && ColWidth(cols[|cols| - 1]) == Text(Numeric(100.0, ""))
  }

  /** The `reduce` of `updateTableWidth` and `setTableWidth`: the sum of
      `parseInt(width, 10)` over the columns, `NaN` as soon as one width does not parse. */
  function ColumnWidthSum(cols: seq<Attrs>): (sum: Option<int>)
    ensures sum.Some? <==> forall i :: 0 <= i < |cols| ==> ParseInt(ColWidth(cols[i])).Some?
  {
    if |cols| == 0 then Some(0)
    else
      var head := ColumnWidthSum(cols[..|cols| - 1]);
      var w := ParseInt(ColWidth(cols[|cols| - 1]));
      if head.Some? && w.Some? then Some(head.value + w.value) else None
  }

  /** The sum splits over any division of the columns. */
  lemma {:induction false} ColumnWidthSumAppend(a: seq<Attrs>, b: seq<Attrs>)
    requires ColumnWidthSum(a).Some? && ColumnWidthSum(b).Some?
    ensures ColumnWidthSum(a + b) == Some(ColumnWidthSum(a).value + ColumnWidthSum(b).value)
    decreases |b|
  {
    if |b| == 0 {
      assert a + b == a;
    } else {
      var b', last := b[..|b| - 1], b[|b| - 1];
      var ab := a + b;
      assert ab[..|ab| - 1] == a + b';
      assert ab[|ab| - 1] == last;
      var w := ParseInt(ColWidth(last));
      assert ColumnWidthSum(b) == if ColumnWidthSum(b').Some? && w.Some? then Some(ColumnWidthSum(b').value + w.value) else None;
      ColumnWidthSumAppend(a, b');
      assert ColumnWidthSum(ab) == if ColumnWidthSum(a + b').Some? && w.Some? then Some(ColumnWidthSum(a + b').value + w.value) else None;
    }
  }

  /** Columns that all have the default width 100 sum to 100 per column. */
  lemma {:induction false} DefaultWidthsSum(cols: seq<Attrs>)
    requires AllColumnsHave100Width(cols)
    ensures ColumnWidthSum(cols) == Some(100 * |cols|)
  {
    if |cols| > 0 {
      var init := cols[..|cols| - 1];
      assert AllColumnsHave100Width(init) by {
        forall i | 0 <= i < |init| ensures ColWidth(init[i]) == Text(Numeric(100.0, "")) {
          assert init[i] == cols[i];
        }
      }
      DefaultWidthsSum(init);
      assert ParseInt(ColWidth(cols[|cols| - 1])) == Some(100);
    }
  }

  /** `updateColumnsWidth`'s share per column: the working area divided among the existing
      columns and the one about to be added. */
  function WidthPerCol(workingArea: real, columns: nat): (w: real)
    ensures w * (columns + 1) as real == workingArea
    ensures workingArea >= 0.0 ==> 0.0 <= w <= workingArea
  {
    var d := (columns + 1) as real;
    var w := workingArea / d;
    assert w * d == workingArea;
    assert w * (d - 1.0) == workingArea - w;
    assert workingArea >= 0.0 ==> w >= 0.0 && w * (d - 1.0) >= 0.0;
    w
  }
}

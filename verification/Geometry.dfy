/** The hit tests the table operations run on cell and row rectangles: every comparison
    allows `ERROR_LIMIT` (5) pixels of slack. A rectangle is `{x, y, x1, y1}` relative to
    the editor, with `height = y1 - y`. */
module HitTest {

  const ERROR_LIMIT: int := 5

  datatype Rect = Rect(x: int, y: int, x1: int, y1: int)

  function Height(r: Rect): int {
    r.y1 - r.y
  }

  function Abs(n: int): nat {
    if n < 0 then -n else n
  }

  /** `Math.abs(a - b) < ERROR_LIMIT` */
  predicate Near(a: int, b: int) {
    Abs(a - b) < ERROR_LIMIT
  }

  /** What a delete does to a cell: remove it, shrink its span, or leave it. A falling cell
      is a shrinking cell of `deleteRow` whose top edge is the deleted band's top edge: it
      moves down into the next row. */
  datatype Verdict = Removed | Modified | Falling | Untouched

  /** The classification of `deleteColumns` on the horizontal axis (x, x1), and of
      `deleteRow` on the vertical one (y, y1): inside the band, removed; covering it, modified;
      otherwise left alone. */
  function SpanVerdict(lo: int, hi: int, bandLo: int, bandHi: int): Verdict {
    if lo + ERROR_LIMIT > bandLo && hi - ERROR_LIMIT < bandHi then Removed
    else if lo < bandLo + ERROR_LIMIT && hi > bandHi - ERROR_LIMIT then Modified
    else Untouched
  }

  /** `deleteColumns`: a cell against the selected columns. */
  function ColumnVerdict(cell: Rect, cmp: Rect): Verdict {
    SpanVerdict(cell.x, cell.x1, cmp.x, cmp.x1)
  }

  /** `deleteRow`: a cell against the selected rows; a modified cell whose top edge is near
      the band's top falls. */
  function RowVerdict(cell: Rect, cmp: Rect): Verdict {
    var v := SpanVerdict(cell.y, cell.y1, cmp.y, cmp.y1);
    if v == Modified && Near(cell.y, cmp.y) then Falling else v
  }

  /** `deleteRow`'s test for a row to remove (the same test a removed cell passes). */
  predicate RowCovered(row: Rect, cmp: Rect) {
    row.y > cmp.y - ERROR_LIMIT && row.y1 < cmp.y1 + ERROR_LIMIT
  }

  /** What an insert does to a cell: add a new cell beside it, grow its span, or nothing. */
  datatype Placement = Aside | Grow | Apart

  /** The classification of `insertColumn` and `insertRow`. `after` says the new column
      (row) goes after the selection (right, down), so the selection's far edge `bandHi` is
      the boundary and a cell's far edge is compared with it; otherwise the near edges. */
  function Placing(lo: int, hi: int, bandLo: int, bandHi: int, after: bool): Placement {
    var edge := if after then hi else lo;
    var boundary := if after then bandHi else bandLo;
    if Near(edge, boundary) then Aside
    else if boundary - lo > ERROR_LIMIT && boundary - hi < -ERROR_LIMIT then Grow
    else Apart
  }

  /** `insertColumn`: a cell against the column boundary. */
  function ColumnPlacement(cell: Rect, cmp: Rect, isRight: bool): Placement {
    Placing(cell.x, cell.x1, cmp.x, cmp.x1, isRight)
  }

  /** `insertRow`: a cell against the row boundary. */
  function RowPlacement(cell: Rect, cmp: Rect, isDown: bool): Placement {
    Placing(cell.y, cell.y1, cmp.y, cmp.y1, isDown)
  }

  /** `insertRow`'s reference row: below the selection (its top at the selection's top plus
      height) or at the selection's top. */
  predicate RefRowMatches(row: Rect, cmp: Rect, isDown: bool) {
    if isDown then Near(row.y - cmp.y - Height(cmp), 0) else Near(row.y, cmp.y)
  }

  // ---------------------------------------------------------------- what the tests mean

  /** A cell lying within the band is removed; a cell that is modified covers the band (to
      within the slack) and sticks out of it by at least the slack on one side; a cell of
      some width lying wholly outside a band at least as wide as the slack is left alone. */
  lemma SpanVerdictMeaning(lo: int, hi: int, bandLo: int, bandHi: int)
    ensures bandLo <= lo && hi <= bandHi ==> SpanVerdict(lo, hi, bandLo, bandHi) == Removed
    ensures SpanVerdict(lo, hi, bandLo, bandHi) == Modified ==>
      && lo < bandLo + ERROR_LIMIT && bandHi - ERROR_LIMIT < hi
      && (lo <= bandLo - ERROR_LIMIT || bandHi + ERROR_LIMIT <= hi)
    ensures bandLo + ERROR_LIMIT <= bandHi && lo + ERROR_LIMIT <= hi && (hi <= bandLo || bandHi <= lo) ==>
      SpanVerdict(lo, hi, bandLo, bandHi) == Untouched
    ensures SpanVerdict(lo, hi, bandLo, bandHi) != Falling
  {
  }

  /** A falling cell starts at the deleted band's top and reaches at least the slack below
      its bottom, so part of it survives under the band. */
  lemma FallingReachesBelow(cell: Rect, cmp: Rect)
    requires RowVerdict(cell, cmp) == Falling
    ensures Near(cell.y, cmp.y)
    ensures cell.y1 >= cmp.y1 + ERROR_LIMIT
  {
    SpanVerdictMeaning(cell.y, cell.y1, cmp.y, cmp.y1);
  }

  /** A cell whose near (far) edge meets the boundary gets a neighbour; a cell the boundary
      crosses strictly inside, more than the slack away from both edges, grows; nothing
      else is touched. */
  lemma PlacingMeaning(lo: int, hi: int, bandLo: int, bandHi: int, after: bool)
    ensures var b := if after then bandHi else bandLo;
      && (Placing(lo, hi, bandLo, bandHi, after) == Aside <==> Near(if after then hi else lo, b))
      && (Placing(lo, hi, bandLo, bandHi, after) == Grow <==> lo + ERROR_LIMIT < b < hi - ERROR_LIMIT)
  {
  }
}

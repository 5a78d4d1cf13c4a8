/** Row and cell identifiers. The source draws four random base-36 characters after a
    `row-` or `cell-` prefix (src/formats/table.js:1583-1595); the model draws from a
    counter instead, so that identifiers minted by one table never collide. */
module Ids {

  function DigitChar(d: nat): char
    requires d < 10
  {
    "0123456789"[d]
  }

  /** The decimal digits of `n`, most significant first. */
  function Digits(n: nat): (s: string)
    ensures |s| >= 1
    ensures n < 10 <==> |s| == 1
    ensures forall i :: 0 <= i < |s| ==> '0' <= s[i] <= '9'
    decreases n
  {
    if n < 10 then [DigitChar(n)] else Digits(n / 10) + [DigitChar(n % 10)]
  }

  function RowIdOf(n: nat): string { "row-" + Digits(n) }

  function CellIdOf(n: nat): string { "cell-" + Digits(n) }

  lemma {:induction false} DigitsInjective(a: nat, b: nat)
    requires Digits(a) == Digits(b)
    ensures a == b
    decreases a
  {
    var da, db := Digits(a), Digits(b);
    assert da[|da| - 1] == db[|db| - 1];
    if a >= 10 && b >= 10 {
      assert Digits(a / 10) == da[..|da| - 1] == db[..|db| - 1] == Digits(b / 10);
      DigitsInjective(a / 10, b / 10);
    }
  }

  /** Identifiers minted from different counter values differ, and a row identifier is
      never a cell identifier. */
  lemma IdsAreFresh(a: nat, b: nat)
    ensures RowIdOf(a) == RowIdOf(b) ==> a == b
    ensures CellIdOf(a) == CellIdOf(b) ==> a == b
    ensures RowIdOf(a) != CellIdOf(b)
  {
    if RowIdOf(a) == RowIdOf(b) {
      assert Digits(a) == RowIdOf(a)[4..];
      assert Digits(b) == RowIdOf(b)[4..];
      DigitsInjective(a, b);
    }
    if CellIdOf(a) == CellIdOf(b) {
      assert Digits(a) == CellIdOf(a)[5..];
      assert Digits(b) == CellIdOf(b)[5..];
      DigitsInjective(a, b);
    }
    assert RowIdOf(a)[0] != CellIdOf(b)[0];
  }
}

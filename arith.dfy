/** Facts about integer multiplication and division used for pixel positions and bit counts. */
module Arith {

  lemma MulNonNegative(a: int, b: int)
    requires a >= 0 && b >= 0
    ensures a * b >= 0
  {
  }

  lemma Distribute(a: int, b: int, s: int)
    ensures (a - b) * s == a * s - b * s
  {
  }

  /** The element a position belongs to: `q` when `q * s <= j < (q + 1) * s`. */
  lemma DivBetween(j: int, q: int, s: int)
    requires s > 0 && q * s <= j < q * s + s
    ensures j / s == q
  {
    var d := j / s;
    var m := j % s;
    assert j == d * s + m && 0 <= m < s;
    Distribute(d, q, s);
    Distribute(q, d, s);
    if d > q {
      MulNonNegative(d - q - 1, s);
      Distribute(d - q, 1, s);
      assert false;
    } else if d < q {
      MulNonNegative(q - d - 1, s);
      Distribute(q - d, 1, s);
      assert false;
    }
  }
}

/** Integer helpers for the KD-tree's `depth % k`. */
module Arith {

  /**
   * `a % b` for the non-negative `a` and positive `b` the code passes (where
   * Python's `%` and Dafny's agree), by repeated subtraction, so that proofs
   * about the trees stay within linear arithmetic.  `RemainderIsMod` shows
   * it is the operator.
   */
  function Remainder(a: int, b: int): (r: int)
    requires a >= 0 && b >= 1
    ensures 0 <= r < b
    decreases a
  {
    if a < b then a else Remainder(a - b, b)
  }

  lemma {:induction false} RemainderIsMod(a: int, b: int)
    requires a >= 0 && b >= 1
    ensures Remainder(a, b) == a % b
    decreases a
  {
    if a >= b {
      RemainderIsMod(a - b, b);
      ModSubtract(a, b);
    }
  }

  lemma ModSubtract(a: int, b: int)
    requires a >= b >= 1
    ensures (a - b) % b == a % b
  {
    var q, r := a / b, a % b;
    var q', r' := (a - b) / b, (a - b) % b;
    assert a == q * b + r && 0 <= r < b;
    assert a - b == q' * b + r' && 0 <= r' < b;
    var d := q - 1 - q';
    assert q * b - b == (q - 1) * b;
    assert (q - 1) * b - q' * b == d * b;
    assert d * b == r' - r;
    if d >= 1 {
      MulAtLeast(d, b);
    } else if d <= -1 {
      MulAtLeast(-d, b);
    }
  }

  lemma MulAtLeast(c: int, b: int)
    requires c >= 1 && b >= 1
    ensures c * b >= b
  {
    assert c * b == (c - 1) * b + b;
  }
}

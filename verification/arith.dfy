/** Monotonicity of multiplication by a natural number, proved by induction
    so that the percentage and index arguments elsewhere need no nonlinear
    reasoning from the solver. */
module Arith {

  /** Multiplying by `b` keeps the order of its factors. */
  lemma {:induction false} MulMonotone(b: nat, x: nat, y: nat)
    requires x <= y
    ensures b * x <= b * y
  {
    if b > 0 {
      MulMonotone(b - 1, x, y);
      assert b * x == (b - 1) * x + x;
      assert b * y == (b - 1) * y + y;
    }
  }

  /** A strict inequality between multiples of `b` is one between the
      factors. */
  lemma MulStrictCancel(b: nat, x: nat, y: nat)
    requires b * x < b * y
    ensures x < y
  {
    if y <= x {
      MulMonotone(b, y, x);
    }
  }

  /** Integer division is pinned down by its bracketing. */
  lemma DivBracket(a: nat, b: nat, q: nat)
    requires b > 0 && b * q <= a < b * (q + 1)
    ensures a / b == q
  {
    var d := a / b;
    assert a == b * d + a % b && 0 <= a % b < b;
    assert b * (d + 1) == b * d + b;
    MulStrictCancel(b, d, q + 1);
    MulStrictCancel(b, q, d + 1);
  }
}

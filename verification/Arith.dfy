/** Facts about division that the solver does not find unaided. */
module Arith {

  lemma {:induction false} MulSign(b: int, d: int)
    requires b > 0
    ensures d >= 1 ==> d * b >= b
    ensures d <= -1 ==> d * b <= -b
    decreases if d < 0 then -d else d
  {
    if d > 1 {
      MulSign(b, d - 1);
      assert d * b == (d - 1) * b + b;
    } else if d < -1 {
      MulSign(b, d + 1);
      assert d * b == (d + 1) * b - b;
    }
  }

  /** Quotient and remainder are determined by the equation they solve. */
  lemma DivModUnique(a: int, b: int, q: int, r: int)
    requires b > 0 && 0 <= r < b && a == q * b + r
    ensures a % b == r && a / b == q
  {
    var d := q - a / b;
    assert d * b == a % b - r by {
      assert d * b == q * b - (a / b) * b;
    }
    MulSign(b, d);
  }
}

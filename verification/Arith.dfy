/** Facts about multiplication, division and remainder used by the grid and
    frame-buffer index computations, each stated on its own so that the
    solver never has to find them in a larger proof. */
module Arith {

  lemma {:induction false} MulMonotone(a: int, b: int, c: int)
    requires 0 <= a <= b && 0 <= c
    ensures 0 <= a * c <= b * c
  {
    assert b * c == a * c + (b - a) * c;
  }

  lemma {:induction false} MulSplit(a: int, b: int, c: int)
    ensures (a + b) * c == a * c + b * c
  {
  }

  lemma {:induction false} MulSum(c: int, x: int, y: int, z: int)
    ensures c * (x + y + z) == c * x + c * y + z * c
  {
  }

  lemma {:induction false} MulCommutes(a: int, b: int)
    ensures a * b == b * a
  {
  }

  lemma {:induction false} MulDifference(a: nat, b: nat, d: nat)
    requires a > b
    ensures a * d - b * d >= d
  {
    var k := a - b - 1;
    assert a * d == b * d + d + k * d;
  }

  /** Quotient and remainder are the only q, r with j == q * d + r, 0 <= r < d. */
  lemma {:induction false} DivModUnique(j: nat, d: nat, q: nat, r: nat)
    requires 0 <= r < d && j == q * d + r
    ensures j / d == q && j % d == r
  {
    var q', r' := j / d, j % d;
    assert q' * d + r' == q * d + r;
    if q' > q {
      MulDifference(q', q, d);
    } else if q' < q {
      MulDifference(q, q', d);
    }
  }
}

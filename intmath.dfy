/** Integer helpers shared by the point types. */
module IntMath {
  function Abs(x: int): (r: nat)
    ensures r == x || r == -x
  {
    if x < 0 then -x else x
  }

  /** `usize::isqrt`: the floor of the square root, by halving the argument twice per step. */
  function FloorSqrt(n: nat): (r: nat)
    ensures r * r <= n < (r + 1) * (r + 1)
    decreases n
  {
    if n < 2 then n
    else
      var s := FloorSqrt(n / 4);
      HalveStep(n, s);
      var r := 2 * s;
      if (r + 1) * (r + 1) <= n then r + 1 else r
  }

  /** The root of n/4, doubled, is within one of the root of n. */
  lemma HalveStep(n: nat, s: nat)
    requires s * s <= n / 4 < (s + 1) * (s + 1)
    ensures (2 * s) * (2 * s) <= n < (2 * s + 2) * (2 * s + 2)
  {
    var q := n / 4;
    assert n == 4 * q + n % 4;
    assert (2 * s) * (2 * s) == 4 * (s * s);
    assert (2 * s + 2) * (2 * s + 2) == 4 * ((s + 1) * (s + 1));
    assert q + 1 <= (s + 1) * (s + 1);
  }

  /** The floor square root is the only number with its defining property. */
  lemma FloorSqrtUnique(n: nat, d: nat)
    requires d * d <= n < (d + 1) * (d + 1)
    ensures FloorSqrt(n) == d
  {
    var r := FloorSqrt(n);
    if r < d {
      assert (r + 1) * (r + 1) <= d * d by { MulMonotone(r + 1, d); }
    } else if d < r {
      assert (d + 1) * (d + 1) <= r * r by { MulMonotone(d + 1, r); }
    }
  }

  lemma MulMonotone(a: nat, b: nat)
    requires a <= b
    ensures a * a <= b * b
  {
    assert a * a <= a * b <= b * b;
  }
}

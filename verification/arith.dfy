/** Facts about products and byte counts that the vector's byte arithmetic relies on. */
module Arith {

  lemma MulStrictMono(a: int, b: int, k: int)
    requires k > 0 && a < b
    ensures a * k < b * k
  {
    var d := b - a;
    assert b * k == a * k + d * k;
    MulPositive(d, k);
  }

  lemma MulPositive(d: int, k: int)
    requires d > 0 && k > 0
    ensures d * k > 0
  {
  }

  /** Scaling by a positive element size preserves and reflects `<=`. */
  lemma MulLeIff(a: int, b: int, k: int)
    requires k > 0
    ensures a * k <= b * k <==> a <= b
  {
    if a > b {
      MulStrictMono(b, a, k);
    } else if a < b {
      MulStrictMono(a, b, k);
    }
  }

  lemma MulDivCancel(a: int, k: int)
    requires k > 0
    ensures (a * k) / k == a
    ensures (a * k) % k == 0
  {
    DivModOfMultiplePlus(a, k, 0);
  }

  /** Euclidean division of `q*k + t` by `k` for a remainder already in range. */
  lemma DivModOfMultiplePlus(q: int, k: int, t: int)
    requires k > 0 && 0 <= t < k
    ensures (q * k + t) / k == q
    ensures (q * k + t) % k == t
  {
    var n := q * k + t;
    var d := n / k;
    var m := n % k;
    assert n == d * k + m;
    assert (q - d) * k == m - t;
    if q - d > 0 {
      MulLeIff(1, q - d, k);
    } else if q - d < 0 {
      MulLeIff(q - d, -1, k);
    }
  }

  /** Halving a whole number of `k`-byte elements and rounding down to whole elements keeps `c / 2` of them. */
  lemma HalfOfScaled(c: nat, k: nat)
    requires k > 0
    ensures (c * k) / 2 - ((c * k) / 2) % k == (c / 2) * k
  {
    var q, r := c / 2, c % 2;
    assert c * k == 2 * (q * k) + r * k by {
      assert c == 2 * q + r;
    }
    if r == 0 {
      assert (c * k) / 2 == q * k;
      MulDivCancel(q, k);
    } else {
      assert c * k == 2 * (q * k + k / 2) + k % 2;
      assert (c * k) / 2 == q * k + k / 2;
      DivModOfMultiplePlus(q, k, k / 2);
    }
  }
}

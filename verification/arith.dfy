/** Integer facts shared by the codecs: powers and the uniqueness of Euclidean division. */
module Arith {

  function Pow2(n: nat): (r: nat)
    ensures r >= 1
  {
    if n == 0 then 1 else 2 * Pow2(n - 1)
  }

  function Pow256(n: nat): (r: nat)
    ensures r >= 1
  {
    if n == 0 then 1 else 256 * Pow256(n - 1)
  }

  lemma Pow2Add(a: nat, b: nat)
    ensures Pow2(a + b) == Pow2(a) * Pow2(b)
    decreases a
  {
    if a > 0 {
      Pow2Add(a - 1, b);
    }
  }

  lemma Pow2Monotone(a: nat, b: nat)
    requires a <= b
    ensures Pow2(a) <= Pow2(b)
    decreases b
  {
    if a < b {
      Pow2Monotone(a, b - 1);
    }
  }

  /** Quotient and remainder are determined by `v == d * k + m` with `0 <= m < d`. */
  lemma DivModUnique(v: int, d: int, k: int, m: int)
    requires d > 0 && 0 <= m < d && v == d * k + m
    ensures v / d == k && v % d == m
  {
    var q, r := v / d, v % d;
    assert v == d * q + r;
    assert d * (k - q) == r - m;
    if k > q {
      assert d * (k - q) >= d * 1 by {
        MulMonotone(d, 1, k - q);
      }
    } else if k < q {
      assert d * (q - k) >= d * 1 by {
        MulMonotone(d, 1, q - k);
      }
    }
  }

  lemma DivMod(v: int, d: int)
    requires d > 0
    ensures d * (v / d) + v % d == v
  {
  }

  lemma ScaleSum(c: int, a: int, p: int, l: int)
    ensures c * (a + p * l) == c * a + (c * p) * l
  {
  }

  lemma MulMonotone(d: int, a: int, b: int)
    requires d >= 0 && a <= b
    ensures d * a <= d * b
  {
  }

  /** Splitting a remainder by a product of two moduli. */
  lemma ModMul(v: nat, a: nat, b: nat)
    requires a > 0 && b > 0
    ensures v % (a * b) == v % a + a * ((v / a) % b)
    ensures v / (a * b) == (v / a) / b
  {
    var q := v / a;
    var m := v % a + a * (q % b);
    assert q == b * (q / b) + q % b;
    assert v == a * q + v % a;
    assert v == (a * b) * (q / b) + m by {
      assert a * q == a * (b * (q / b)) + a * (q % b);
    }
    assert a * (q % b) <= a * (b - 1) by {
      MulMonotone(a, q % b, b - 1);
    }
    assert m < a * b;
    DivModUnique(v, a * b, q / b, m);
  }
}

/** Facts about quotients and remainders by a variable divisor. */
module Quotients {

  lemma MulAtLeast(d: int, k: int)
    requires d >= 0 && k >= 1
    ensures d * k >= d
  {
  }

  /** The quotient and the remainder are the only way to split a number. */
  lemma QuotientUnique(x: int, d: int, q: int, r: int)
    requires d > 0 && x == d * q + r && 0 <= r < d
    ensures x / d == q && x % d == r
  {
    var q' := x / d;
    assert x == d * q' + x % d;
    assert d * (q - q') == d * q - d * q';
    if q' < q {
      MulAtLeast(d, q - q');
    } else if q' > q {
      MulAtLeast(d, q' - q);
    }
  }

  lemma Regroup(d: int, e: int, k: int, s: int, r: int)
    requires d > 0 && 0 <= s < e && 0 <= r < d
    ensures d * (e * k + s) + r == (d * e) * k + (d * s + r)
    ensures 0 <= d * s + r < d * e
  {
    assert d * (e * k) == (d * e) * k;
    assert d * s >= 0;
    MulAtLeast(d, e - s);
    assert d * (e - s) == d * e - d * s;
  }

  /** Dividing twice is dividing by the product. */
  lemma DivDiv(x: int, d: int, e: int)
    requires d > 0 && e > 0
    ensures d * e > 0
    ensures x / (d * e) == x / d / e
    ensures x % (d * e) == x % d + d * (x / d % e)
  {
    var q, r := x / d, x % d;
    var k, s := q / e, q % e;
    Regroup(d, e, k, s, r);
    QuotientUnique(x, d * e, k, d * s + r);
  }

  /** Two numbers less than a divisor apart leave different remainders. */
  lemma ModDistinct(x: int, y: int, d: int)
    requires 0 < y - x < d
    ensures x % d != y % d
  {
    var r := x % d + (y - x);
    if r < d {
      QuotientUnique(y, d, x / d, r);
    } else {
      assert d * (x / d + 1) == d * (x / d) + d;
      QuotientUnique(y, d, x / d + 1, r - d);
    }
  }

  /** A product by repeated addition, for proofs that need no more about it. */
  ghost function Times(w: nat, k: nat): nat {
    if k == 0 then 0 else Times(w, k - 1) + w
  }

  lemma {:induction false} TimesIsProduct(w: nat, k: nat)
    ensures Times(w, k) == w * k
  {
    if k > 0 {
      TimesIsProduct(w, k - 1);
      assert w * k == w * (k - 1) + w;
    }
  }
}

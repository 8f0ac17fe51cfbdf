/** Facts about `%` and `/` that several parts of the model rest on. */
module ModArith {

  /** A nonzero multiple of `w` is at least `w` away from zero. */
  lemma MultipleAway(d: int, w: int)
    requires 0 < w
    ensures d >= 1 ==> d * w >= w
    ensures d <= -1 ==> d * w <= -w
  {
    if d >= 1 {
      assert (d - 1) * w >= 0;
    } else if d <= -1 {
      assert (-d - 1) * w >= 0;
    }
  }

  /** Quotient and remainder are determined by the number they decompose. */
  lemma QuotientUnique(w: int, q: int, r: int, a: int, b: int)
    requires 0 <= r < w && 0 <= b < w && q * w + r == a * w + b
    ensures q == a && r == b
  {
    var d := q - a;
    assert d * w == b - r by {
      assert d * w == q * w - a * w;
    }
    MultipleAway(d, w);
  }

  /** A quotient and a remainder in range are the ones `/` and `%` compute. */
  lemma DivModIs(x: int, w: int, q: int, r: int)
    requires 0 < w && x == q * w + r && 0 <= r < w
    ensures x / w == q && x % w == r
  {
    var a, b := x / w, x % w;
    assert x == a * w + b;
    QuotientUnique(w, q, r, a, b);
  }

  /** Two numbers less than `w` apart that agree modulo `w` are equal. */
  lemma ModUnique(p: int, q: int, w: int)
    requires 0 < w && p % w == q % w && -w < p - q < w
    ensures p == q
  {
    var a, b, m := p / w, q / w, q % w;
    assert p == a * w + m && q == b * w + m;
    var d := a - b;
    assert d * w == a * w - b * w;
    MultipleAway(d, w);
  }

  /** Adding a multiple of the modulus changes the quotient only. */
  lemma AddMultiple(x: int, w: int, q: int)
    requires 0 < w
    ensures (x + q * w) % w == x % w && (x + q * w) / w == x / w + q
  {
    var a, b := x / w, x % w;
    assert x + q * w == (a + q) * w + b;
    DivModIs(x + q * w, w, a + q, b);
  }

  lemma Double(p: int, v: int)
    ensures (2 * p) * v == 2 * (p * v)
  {
  }

  /** `DivModIs` with the factors the other way round. */
  lemma Split(n: int, p: int, v: int, r: int)
    requires 0 <= r < p && n == r + p * v
    ensures n / p == v && n % p == r
  {
    assert p * v == v * p;
    DivModIs(n, p, v, r);
  }

  /** Block `i` of `n` blocks of size `b` ends within them. */
  lemma BlockFits(i: int, n: int, b: nat)
    ensures i < n ==> i * b + b <= n * b
  {
    if i < n {
      var d := n - i - 1;
      assert d * b >= 0;
      assert n * b == i * b + b + d * b;
    }
  }
}

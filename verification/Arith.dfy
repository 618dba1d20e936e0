/** Products and quotients of variables, one fact at a time. */
module Arith {

  lemma MulMono(k: int, a: int, b: int)
    requires 0 <= k && a <= b
    ensures k * a <= k * b
  {
    assert k * (b - a) >= 0;
  }

  /** Consecutive multiples of `k` are `k` apart. */
  lemma MulStep(k: int, a: int, b: int)
    requires 0 <= k && a < b
    ensures k * a + k <= k * b
  {
    MulMono(k, a + 1, b);
    assert k * (a + 1) == k * a + k;
  }

  /** A quotient and a small rest determine division and remainder. */
  lemma DivModUnique(x: int, c: int, q: int, r: int)
    requires c > 0 && x == c * q + r && 0 <= r < c
    ensures x / c == q && x % c == r
  {
    DivModFacts(x, c);
    if x / c < q {
      MulStep(c, x / c, q);
    } else if q < x / c {
      MulStep(c, q, x / c);
    }
  }

  lemma DivModFacts(x: int, c: int)
    requires c > 0
    ensures x == c * (x / c) + x % c && 0 <= x % c < c
  {
  }

  /** Dividing by a product is dividing twice. */
  lemma DivDiv(x: int, a: int, b: int)
    requires 0 <= x && 0 < a && 0 < b
    ensures 0 < a * b && x / (a * b) == x / a / b
    ensures x % (a * b) == a * (x / a % b) + x % a
  {
    DivModFacts(x, a);
    DivModFacts(x / a, b);
    var q, r, s := x / a / b, x / a % b, x % a;
    assert a * b > 0;
    assert x == a * (b * q + r) + s;
    assert a * (b * q + r) == a * b * q + a * r by {
      assert a * (b * q + r) == a * (b * q) + a * r;
      assert a * (b * q) == a * b * q;
    }
    MulStep(a, r, b);
    MulMono(a, 0, r);
    DivModUnique(x, a * b, q, a * r + s);
  }

  /** Items of width `w`, `n` to a block: item `c` starts in block c / n and does not straddle it. */
  lemma ItemInBlock(w: int, n: int, c: int)
    requires 0 < w && 0 < n && 0 <= c
    ensures 0 < w * n
    ensures w * c / (w * n) == c / n
    ensures w * c % (w * n) == w * (c % n) && w * (c % n) + w <= w * n
  {
    MulMono(w, 0, c);
    DivDiv(w * c, w, n);
    DivModUnique(w * c, w, c, 0);
    MulStep(w, c % n, n);
  }

  /** The start of y's block is not beyond x when x's block is y's or a later one. */
  lemma BlockStartBelow(b: int, x: int, y: int)
    requires 0 < b && 0 <= x && 0 <= y && x / b >= y / b
    ensures 0 <= b * (y / b) <= x
  {
    DivModFacts(x, b);
    DivModFacts(y, b);
    MulMono(b, y / b, x / b);
    MulMono(b, 0, y / b);
  }
}

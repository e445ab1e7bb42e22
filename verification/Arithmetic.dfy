/** The few facts about products and quotients that the other modules rely on. */
module Arithmetic {

  lemma Distribute(a: int, b: int, n: int)
    ensures (a + b) * n == a * n + b * n
  {}

  lemma ProductNonNegative(a: nat, n: nat)
    ensures a * n >= 0
  {}

  lemma StrictlyMore(c: int, d: int, n: nat)
    requires c < d
    ensures c * n + n <= d * n
  {
    Distribute(c + 1, d - c - 1, n);
    Distribute(c, 1, n);
    ProductNonNegative(d - c - 1, n);
  }

  lemma DivModUnique(x: int, n: int, q: int, r: int)
    requires n > 0 && 0 <= r < n && x == q * n + r
    ensures x / n == q && x % n == r
  {
    var quotient := x / n;
    assert x == quotient * n + x % n;
    if quotient < q {
      StrictlyMore(quotient, q, n);
    } else if q < quotient {
      StrictlyMore(q, quotient, n);
    }
  }

  lemma QuotientBounds(x: int, n: int)
    requires n > 0
    ensures x / n * n <= x < x / n * n + n
  {}

  /** `q` is at most the quotient exactly when `q * n` is at most the dividend. */
  lemma QuotientAtLeast(x: int, n: int, q: int)
    requires n > 0
    ensures q <= x / n <==> q * n <= x
  {
    QuotientBounds(x, n);
    if x / n < q {
      StrictlyMore(x / n, q, n);
    } else if q < x / n {
      StrictlyMore(q, x / n, n);
    }
  }

  lemma QuotientMonotone(x: int, y: int, n: int)
    requires n > 0 && x <= y
    ensures x / n <= y / n
  {
    QuotientBounds(x, n);
    QuotientAtLeast(y, n, x / n);
  }

  // ---------- division that truncates toward zero ----------

  /** Integer division as in Go; also the conversion of the exact quotient to an integer type. */
  function TruncDiv(a: int, b: int): int
    requires b > 0
  {
    if a >= 0 then a / b else -((-a) / b)
  }

  /** `v` is x/n, truncated toward zero. */
  ghost predicate IsTruncated(v: int, x: int, n: int) {
    if x >= 0 then 0 <= v * n <= x < v * n + n else v * n - n < x <= v * n <= 0
  }

  lemma TruncDivTruncates(x: int, n: int)
    requires n > 0
    ensures IsTruncated(TruncDiv(x, n), x, n)
  {
    if x >= 0 {
      QuotientBounds(x, n);
      QuotientAtLeast(x, n, 0);
      ProductNonNegative(x / n, n);
    } else {
      QuotientBounds(-x, n);
      QuotientAtLeast(-x, n, 0);
      ProductNonNegative((-x) / n, n);
      assert TruncDiv(x, n) * n == -((-x) / n * n);
    }
  }

  lemma TruncatedUnique(v: int, w: int, x: int, n: int)
    requires n > 0 && IsTruncated(v, x, n) && IsTruncated(w, x, n)
    ensures v == w
  {
    if v < w {
      StrictlyMore(v, w, n);
    } else if w < v {
      StrictlyMore(w, v, n);
    }
  }

  lemma TruncDivExact(q: int, n: int)
    requires n > 0
    ensures TruncDiv(q * n, n) == q
  {
    DivModUnique(q * n, n, q, 0);
    DivModUnique(-q * n, n, -q, 0);
  }

  lemma TruncDivMonotone(x: int, y: int, n: int)
    requires n > 0 && x <= y
    ensures TruncDiv(x, n) <= TruncDiv(y, n)
  {
    if x >= 0 {
      QuotientMonotone(x, y, n);
    } else if y < 0 {
      QuotientMonotone(-y, -x, n);
    } else {
      QuotientAtLeast(-x, n, 0);
      QuotientAtLeast(y, n, 0);
    }
  }

  /** A point `r/n` of the way from `a` to `b`, truncated, lies between them. */
  function Between(a: int, b: int, r: int, n: int): (v: int)
    requires n > 0 && 0 <= r < n
    ensures if a <= b then a <= v <= b else b <= v <= a
    ensures r == 0 ==> v == a
  {
    BetweenBounds(a, b, r, n);
    TruncDiv(a * n + r * (b - a), n)
  }

  lemma BetweenBounds(a: int, b: int, r: int, n: int)
    requires n > 0 && 0 <= r < n
    ensures var v := TruncDiv(a * n + r * (b - a), n);
            if a <= b then a <= v <= b else b <= v <= a
    ensures r == 0 ==> TruncDiv(a * n + r * (b - a), n) == a
  {
    var x := a * n + r * (b - a);
    TruncDivExact(a, n);
    TruncDivExact(b, n);
    Distribute(r, n - r, b - a);
    Distribute(a, b - a, n);
    assert n * (b - a) == b * n - a * n;
    if a <= b {
      ProductNonNegative(r, b - a);
      ProductNonNegative(n - r, b - a);
      TruncDivMonotone(a * n, x, n);
      TruncDivMonotone(x, b * n, n);
    } else {
      ProductNonNegative(r, a - b);
      ProductNonNegative(n - r, a - b);
      assert r * (b - a) == -(r * (a - b)) && (n - r) * (b - a) == -((n - r) * (a - b));
      TruncDivMonotone(b * n, x, n);
      TruncDivMonotone(x, a * n, n);
    }
  }

  /** `v` is the point `r/n` of the way from `a` to `b`, truncated. */
  ghost predicate LiesAt(v: int, a: int, b: int, r: int, n: int) {
    IsTruncated(v, a * n + r * (b - a), n)
  }

  lemma BetweenExactly(a: int, b: int, r: int, n: int)
    requires n > 0 && 0 <= r < n
    ensures LiesAt(Between(a, b, r, n), a, b, r, n)
  {
    TruncDivTruncates(a * n + r * (b - a), n);
  }

  lemma LiesAtUnique(v: int, w: int, a: int, b: int, r: int, n: int)
    requires n > 0 && LiesAt(v, a, b, r, n) && LiesAt(w, a, b, r, n)
    ensures v == w
  {
    TruncatedUnique(v, w, a * n + r * (b - a), n);
  }

  lemma LiesAtStart(v: int, a: int, b: int, n: int)
    requires n > 0
    ensures LiesAt(v, a, b, 0, n) <==> v == a
  {
    assert 0 * (b - a) == 0;
    if LiesAt(v, a, b, 0, n) {
      TruncatedUnique(v, a, a * n, n);
    }
  }
}

/** Facts about multiplication and division of naturals that the solver does not find alone. */
module Arithmetic {

  lemma MulStrict(a: nat, b: nat, c: nat)
    requires a < b && c > 0
    ensures a * c < b * c
  {
  }

  lemma MulLe(a: nat, b: nat, c: nat)
    requires a <= b
    ensures a * c <= b * c
  {
  }

  lemma MulAssoc(a: nat, b: nat, c: nat)
    ensures a * (b * c) == (a * b) * c
  {
  }

  /** Quotient and remainder are unique. */
  lemma DivModUnique(n: nat, d: nat, q: nat, r: nat)
    requires d > 0 && r < d && n == q * d + r
    ensures n / d == q && n % d == r
  {
    var q', r' := n / d, n % d;
    if q' < q {
      MulLe(q' + 1, q, d);
    } else if q < q' {
      MulLe(q + 1, q', d);
    }
  }

  lemma MulDivCancel(a: nat, b: nat)
    requires b > 0
    ensures (a * b) / b == a
  {
    DivModUnique(a * b, b, a, 0);
  }

  /** The quotient brackets the dividend. */
  lemma DivBounds(n: nat, d: nat)
    requires d > 0
    ensures (n / d) * d <= n < (n / d) * d + d
  {
    assert n == (n / d) * d + n % d;
  }

  lemma DivMulBelow(v: nat, p: nat)
    requires p > 0
    ensures (v / p) * p <= v
  {
    assert v == (v / p) * p + v % p;
  }

  lemma ModBelow(x: nat, n: nat)
    requires x < n
    ensures x % n == x
  {
  }

  /** v < a * b implies v / b < a. */
  lemma DivBelow(v: nat, a: nat, b: nat)
    requires b > 0 && v < a * b
    ensures v / b < a
  {
    if v / b >= a {
      MulLe(a, v / b, b);
    }
  }

  /** a * b <= v implies a <= v / b. */
  lemma DivAtLeast(v: nat, a: nat, b: nat)
    requires b > 0 && a * b <= v
    ensures a <= v / b
  {
    if v / b < a {
      MulLe(v / b + 1, a, b);
    }
  }

  /** Dividing by a larger divisor never gives more. */
  lemma DivAntitone(n: nat, d1: nat, d2: nat)
    requires 0 < d1 <= d2
    ensures n / d1 >= n / d2
  {
    var q := n / d2;
    DivMulBelow(n, d2);
    MulLe(d1, d2, q);
    DivAtLeast(n, q, d1);
  }

  lemma DivDiv(a: nat, b: nat, c: nat)
    requires b > 0 && c > 0
    ensures (a / b) / c == a / (b * c)
  {
    var q1, r1 := a / b, a % b;
    var q2, r2 := q1 / c, q1 % c;
    SplitTwice(a, b, c, q1, r1, q2, r2);
    DivModUnique(a, b * c, q2, r2 * b + r1);
  }

  lemma SplitTwice(a: nat, b: nat, c: nat, q1: nat, r1: nat, q2: nat, r2: nat)
    requires b > 0 && c > 0 && r1 < b && r2 < c
    requires a == q1 * b + r1 && q1 == q2 * c + r2
    ensures a == q2 * (b * c) + (r2 * b + r1) && r2 * b + r1 < b * c
  {
    calc {
      q1 * b;
      (q2 * c + r2) * b;
      (q2 * c) * b + r2 * b;
      { MulAssoc(q2, c, b); }
      q2 * (c * b) + r2 * b;
    }
    MulLe(r2 + 1, c, b);
  }

  /** A positive multiple of `d` is at least `d`. */
  lemma ModZeroAtLeast(n: nat, d: nat)
    requires d > 0 && n > 0 && n % d == 0
    ensures n >= d
  {
    if n < d {
      ModBelow(n, d);
    }
  }

  /** Reducing the left addend first does not change the remainder. */
  lemma ModAddLeft(a: nat, b: nat, n: nat)
    requires n > 0
    ensures (a % n + b) % n == (a + b) % n
  {
    var q1, r1 := a / n, a % n;
    var q2, r2 := (r1 + b) / n, (r1 + b) % n;
    assert a + b == (q1 + q2) * n + r2;
    DivModUnique(a + b, n, q1 + q2, r2);
  }

  /** (c * x) % (c * y) == c * (x % y) */
  lemma ModScaled(x: nat, y: nat, c: nat)
    requires y > 0 && c > 0
    ensures (c * x) % (c * y) == c * (x % y)
  {
    var q, r := x / y, x % y;
    assert x == q * y + r;
    assert c * x == q * (c * y) + c * r;
    MulStrict(r, y, c);
    DivModUnique(c * x, c * y, q, c * r);
  }
}

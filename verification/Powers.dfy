/** Powers and division of natural numbers. */
module Powers {

  function Pow(b: nat, k: nat): nat {
    if k == 0 then 1 else b * Pow(b, k - 1)
  }

  function Pow2(k: nat): nat {
    Pow(2, k)
  }

  lemma {:induction false} PowAdd(b: nat, m: nat, n: nat)
    ensures Pow(b, m + n) == Pow(b, m) * Pow(b, n)
  {
    if m == 0 {
      assert Pow(b, 0) * Pow(b, n) == Pow(b, n);
    } else {
      PowAdd(b, m - 1, n);
      MulAssoc(b, Pow(b, m - 1), Pow(b, n));
      assert Pow(b, m + n) == b * Pow(b, m - 1 + n);
    }
  }

  lemma {:induction false} PowOfProduct(a: nat, b: nat, n: nat)
    ensures Pow(a * b, n) == Pow(a, n) * Pow(b, n)
  {
    if n > 0 {
      PowOfProduct(a, b, n - 1);
      var x, y := Pow(a, n - 1), Pow(b, n - 1);
      assert (a * b) * (x * y) == (a * x) * (b * y) by {
        MulAssoc(a, b, x * y);
        MulAssoc(b, x, y);
        MulAssoc(x, b, y);
        MulAssoc(a, x, b * y);
      }
    }
  }

  lemma {:induction false} PowOfPow(b: nat, m: nat, n: nat)
    ensures Pow(Pow(b, m), n) == Pow(b, m * n)
  {
    if n == 0 {
      assert m * 0 == 0;
    } else {
      PowOfPow(b, m, n - 1);
      assert m * n == m + m * (n - 1);
      PowAdd(b, m, m * (n - 1));
    }
  }

  lemma {:induction false} PowPos(b: nat, n: nat)
    requires b > 0
    ensures Pow(b, n) > 0
  {
    if n > 0 {
      PowPos(b, n - 1);
      MulPos(b, Pow(b, n - 1));
    }
  }

  lemma {:induction false} PowMono(b: nat, m: nat, n: nat)
    requires b > 0 && m <= n
    ensures Pow(b, m) <= Pow(b, n)
  {
    if m < n {
      PowMono(b, m, n - 1);
      PowPos(b, n - 1);
      MulMono(1, b, Pow(b, n - 1));
    }
  }

  lemma {:induction false} PowStrict(b: nat, m: nat, n: nat)
    requires b > 1 && m < n
    ensures Pow(b, m) < Pow(b, n)
  {
    PowMono(b, m, n - 1);
    PowPos(b, n - 1);
    MulMono(2, b, Pow(b, n - 1));
  }

  lemma {:induction false} PowBaseMono(a: nat, b: nat, n: nat)
    requires a <= b
    ensures Pow(a, n) <= Pow(b, n)
  {
    if n > 0 {
      PowBaseMono(a, b, n - 1);
      MulMono(a, b, Pow(a, n - 1));
      MulMono(Pow(a, n - 1), Pow(b, n - 1), b);
      assert b * Pow(a, n - 1) == Pow(a, n - 1) * b && b * Pow(b, n - 1) == Pow(b, n - 1) * b;
    }
  }

  lemma PowSmall(b: nat)
    ensures Pow(b, 0) == 1 && Pow(b, 1) == b
  {
  }

  ///// Multiplication

  lemma MulAssoc(a: int, b: int, c: int)
    ensures (a * b) * c == a * (b * c)
  {
  }

  lemma MulDist(a: int, b: int, c: int)
    ensures (a + b) * c == a * c + b * c
    ensures c * (a + b) == c * a + c * b
    ensures (a - b) * c == a * c - b * c
  {
  }

  lemma MulPos(a: int, b: int)
    requires a > 0 && b > 0
    ensures a * b > 0
  {
  }

  lemma MulNonNeg(a: int, b: int)
    requires a >= 0 && b >= 0
    ensures a * b >= 0
  {
  }

  lemma MulMono(a: int, b: int, c: int)
    requires a <= b && 0 <= c
    ensures a * c <= b * c && c * a <= c * b
  {
    MulDist(b, a, c);
    MulNonNeg(b - a, c);
  }

  lemma MulStrict(a: int, b: int, c: int)
    requires a < b && 0 < c
    ensures a * c < b * c && c * a < c * b
  {
    MulDist(b, a, c);
    MulPos(b - a, c);
  }

  lemma MulCancel(a: int, b: int, c: int)
    requires 0 < c && a * c < b * c
    ensures a < b
  {
    if a >= b {
      MulMono(b, a, c);
    }
  }

  lemma MulCancelLe(a: int, b: int, c: int)
    requires 0 < c && a * c <= b * c
    ensures a <= b
  {
    if a > b {
      MulStrict(b, a, c);
    }
  }

  ///// Division

  /** Quotient and remainder are what the equation says. */
  lemma DivModIs(n: int, d: int, q: int, r: int)
    requires 0 < d && n == q * d + r && 0 <= r < d
    ensures n / d == q && n % d == r
  {
    var q2, r2 := n / d, n % d;
    assert n == q2 * d + r2;
    MulDist(q, q2, d);
    if q < q2 {
      MulMono(1, q2 - q, d);
      MulDist(q2, q, d);
      assert false;
    } else if q > q2 {
      MulMono(1, q - q2, d);
      assert false;
    }
  }

  lemma QuotientNat(n: nat, d: nat)
    requires 0 < d
    ensures n / d >= 0 && 0 <= n % d < d
  {
  }

  lemma DivModOf(n: int, d: int)
    requires 0 < d
    ensures n == (n / d) * d + n % d && 0 <= n % d < d
  {
  }

  /** Dividing twice is dividing by the product; the remainder is zero when both remainders are. */
  lemma DivTwice(n: nat, a: nat, b: nat)
    requires 0 < a && 0 < b
    ensures 0 < a * b && n / a / b == n / (a * b)
    ensures n % (a * b) == (n / a % b) * a + n % a
    ensures n % (a * b) == 0 <==> n % a == 0 && n / a % b == 0
  {
    MulPos(a, b);
    var q, r := n / a, n % a;
    var q2, r2 := q / b, q % b;
    assert n == q * a + r && q == q2 * b + r2 by {
      DivModOf(n, a);
      DivModOf(q, b);
    }
    assert n == q2 * (a * b) + (r2 * a + r) by {
      MulDist(q2 * b, r2, a);
      MulAssoc(q2, b, a);
    }
    MulMono(r2, b - 1, a);
    MulDist(b, 1, a);
    MulNonNeg(r2, a);
    DivModIs(n, a * b, q2, r2 * a + r);
    if r2 > 0 {
      MulPos(r2, a);
    }
  }

  lemma DivMono(m: int, n: int, d: int)
    requires m <= n && 0 < d
    ensures m / d <= n / d
  {
    DivModOf(m, d);
    DivModOf(n, d);
    if m / d > n / d {
      MulMono(n / d + 1, m / d, d);
      MulDist(n / d, 1, d);
    }
  }

  lemma DivLess(n: nat, d: nat, q: nat)
    requires 0 < d && n < q * d
    ensures n / d < q
  {
    DivModOf(n, d);
    if n / d >= q {
      MulMono(q, n / d, d);
    }
  }

  lemma DivAtLeast(n: nat, d: nat, q: nat)
    requires 0 < d && q * d <= n
    ensures q <= n / d
  {
    DivModOf(n, d);
    if n / d < q {
      MulMono(n / d + 1, q, d);
      MulDist(n / d, 1, d);
    }
  }

  lemma MulDiv(q: int, d: int)
    requires 0 < d
    ensures (q * d) / d == q && (q * d) % d == 0
  {
    DivModIs(q * d, d, q, 0);
  }
}

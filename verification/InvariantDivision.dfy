/** Division by an invariant divisor with a precomputed inverse (`udiv1norm_init`, `udiv1norm` and
    `mp_div1norm` of dtoa.c). Every operation on 32 or 64 bits wraps around as it does in C. */
module InvariantDivision {
  import opened Powers
  import opened Limbs

  const HALF := 0x8000_0000

  /** The inverse of a divisor that has its top bit set: (2^64 - 1) / d - 2^32. */
  function Inverse(d: Limb): (v: Limb)
    requires d >= HALF
    ensures (v + BASE) * d <= BASE * BASE - 1 < (v + BASE + 1) * d
  {
    var a1 := BASE - d - 1;
    var n := a1 * BASE + MASK;
    InverseFits(d, n);
    n / d
  }

  lemma InverseFits(d: Limb, n: nat)
    requires d >= HALF && n == (BASE - d - 1) * BASE + MASK
    ensures 0 <= n / d < BASE
    ensures (n / d + BASE) * d <= BASE * BASE - 1 < (n / d + BASE + 1) * d
  {
    var q := n / d;
    DivModOf(n, d);
    MulDist(q, BASE, d);
    MulDist(q + BASE, 1, d);
    assert n == BASE * BASE - 1 - BASE * d;
    assert n < BASE * d;
    DivLess(n, d, BASE);
  }

  /** The estimate of the quotient is the quotient or one less. */
  lemma EstimateIsClose(a1: Limb, a0: Limb, d: Limb, v: Limb, h: nat, adj: Limb, t: nat)
    requires d >= HALF && a1 < d
    requires (v + BASE) * d <= BASE * BASE - 1 < (v + BASE + 1) * d
    requires h == (if a0 >= HALF then 1 else 0) && adj == a0 + h * d - h * BASE
    requires t == v * (a1 + h) + adj
    ensures 0 <= a1 * BASE + a0 - (t / BASE + a1) * d < 2 * d
  {
    var e := BASE * BASE - (v + BASE) * d;
    var x := t % BASE;
    var rest := a1 * BASE + a0 - (t / BASE + a1) * d;
    assert 1 <= e <= d by {
      MulDist(v + BASE, 1, d);
    }
    assert v * d == BASE * BASE - e - BASE * d by {
      MulDist(v, BASE, d);
    }
    assert t * d == (a1 + h) * (v * d) + adj * d by {
      MulDist(v * (a1 + h), adj, d);
      MulAssoc(a1 + h, v, d);
      assert v * (a1 + h) == (a1 + h) * v;
    }
    assert BASE * rest == BASE * BASE * a1 + BASE * a0 - BASE * (a1 * d) - t * d + x * d by {
      MulDist(t / BASE, a1, d);
      MulDist(BASE * (t / BASE), x, d);
      MulAssoc(BASE, t / BASE, d);
    }
    assert (a1 + h) * (v * d) == (a1 + h) * (BASE * BASE) - (a1 + h) * e - (a1 + h) * (BASE * d) by {
      MulDist(a1 + h, 0, v * d);
      assert v * d == BASE * BASE - (e + BASE * d);
      ProductOfDifference(a1 + h, BASE * BASE, e + BASE * d);
      MulDist(e, BASE * d, a1 + h);
    }
    assert (a1 + h) * (BASE * d) == BASE * (a1 * d) + h * (BASE * d) by {
      MulDist(a1, h, BASE * d);
      MulAssoc(a1, BASE, d);
      MulAssoc(BASE, a1, d);
    }
    var ae := (a1 + h) * e;
    assert BASE * rest == BASE * a0 + ae - h * (BASE * BASE) + h * (BASE * d) - adj * d + x * d;
    MulNonNeg(a1 + h, e);
    MulNonNeg(x, d);
    MulMono(x, BASE - 1, d);
    if h == 0 {
      RestLow(a1, a0, d, e, x, rest);
    } else {
      RestHigh(a1, a0, d, e, x, rest);
    }
  }

  lemma ProductOfDifference(a: int, b: int, c: int)
    ensures a * (b - c) == a * b - a * c
  {
  }

  lemma RestLow(a1: Limb, a0: Limb, d: Limb, e: int, x: Limb, rest: int)
    requires HALF <= d && a1 < d && a0 < HALF && 1 <= e <= d
    requires BASE * rest == BASE * a0 + a1 * e - a0 * d + x * d
    ensures 0 <= rest < 2 * d
  {
    var y := a1 * e;
    assert 0 <= y <= (d - 1) * d by {
      MulNonNeg(a1, e);
      MulMono(a1, d - 1, e);
      MulMono(e, d, d - 1);
    }
    assert 0 <= BASE * a0 - a0 * d <= (BASE - d) * d by {
      ProductOfDifference(a0, BASE, d);
      MulNonNeg(a0, BASE - d);
      MulMono(a0, d, BASE - d);
    }
    assert 0 <= x * d <= (BASE - 1) * d by {
      MulNonNeg(x, d);
      MulMono(x, BASE - 1, d);
    }
    MulDist(d, 1, d);
    MulDist(BASE, d, d);
    assert BASE * rest < BASE * (2 * d);
  }

  lemma RestHigh(a1: Limb, a0: Limb, d: Limb, e: int, x: Limb, rest: int)
    requires HALF <= d && a1 < d && a0 >= HALF && 1 <= e <= d
    requires BASE * rest == BASE * a0 + (a1 + 1) * e - BASE * BASE + BASE * d - (a0 + d - BASE) * d + x * d
    ensures 0 <= rest < 2 * d
  {
    var y := (a1 + 1) * e;
    assert 0 <= y <= d * d by {
      MulNonNeg(a1 + 1, e);
      MulMono(a1 + 1, d, e);
      MulMono(e, d, d);
    }
    var z := BASE - d;
    assert BASE * a0 - BASE * BASE + BASE * d - (a0 + d - BASE) * d == z * (a0 - z) by {
      ProductOfDifference(z, a0, z);
      MulDist(BASE, d, a0);
      MulDist(BASE, d, z);
      ProductOfDifference(d, BASE, d);
      MulDist(a0, d - BASE, d);
      MulDist(d, BASE, d);
    }
    assert 0 <= z * (a0 - z) <= z * (d - 1) by {
      MulNonNeg(z, a0 - z);
      MulMono(a0 - z, d - 1, z);
    }
    assert 0 <= x * d <= (BASE - 1) * d by {
      MulNonNeg(x, d);
      MulMono(x, BASE - 1, d);
    }
    assert z * (d - 1) == BASE * d - BASE - d * d + d by {
      MulDist(BASE, d, d - 1);
      ProductOfDifference(d, d, 1);
    }
    assert BASE * rest < BASE * (2 * d);
  }

  function Wrap32(x: int): Limb {
    x % BASE
  }

  function Wrap64(x: int): nat {
    x % (BASE * BASE)
  }

  /** The quotient and the remainder of a1 * 2^32 + a0 by `d`, by two multiplications. */
  method DivideNormalized(a1: Limb, a0: Limb, d: Limb, v: Limb) returns (q: Limb, r: Limb)
    requires d >= HALF && a1 < d && v == Inverse(d)
    ensures q == (a1 * BASE + a0) / d && r == (a1 * BASE + a0) % d
  {
    hide Inverse, Wrap32, Wrap64;
    var h := if a0 >= HALF then 1 else 0;
    var adj := Wrap32(a0 + (if h == 1 then d else 0));
    var t := Wrap64(v * (a1 + h) + adj);
    q := Wrap32(t / BASE + a1);
    Estimated(a1, a0, d, v, h, adj, t, q);
    ghost var est := q;
    var b := Wrap64(a1 * BASE + a0 - q * d - d);
    var high := b / BASE;
    q := Wrap32(q + 1 + high);
    r := Wrap32(b % BASE + (if high == MASK then d else 0));
    Corrected(a1, a0, d, est, b, q, r);
  }

  lemma Estimated(a1: Limb, a0: Limb, d: Limb, v: Limb, h: nat, adj: Limb, t: nat, q: Limb)
    requires d >= HALF && a1 < d && v == Inverse(d) && h == (if a0 >= HALF then 1 else 0)
    requires adj == Wrap32(a0 + (if h == 1 then d else 0)) && t == Wrap64(v * (a1 + h) + adj)
    requires q == Wrap32(t / BASE + a1)
    ensures 0 <= a1 * BASE + a0 - q * d < 2 * d
  {
    hide Inverse;
    InverseOf(d);
    FirstProductFits(v, a1 + h, adj);
    EstimateIsClose(a1, a0, d, v, h, adj, t);
    EstimateFits(a1 * BASE + a0, a1, d, t / BASE + a1);
  }

  lemma Corrected(a1: Limb, a0: Limb, d: Limb, est: Limb, b: nat, q: Limb, r: Limb)
    requires d >= HALF && a1 < d && 0 <= a1 * BASE + a0 - est * d < 2 * d
    requires b == Wrap64(a1 * BASE + a0 - est * d - d)
    requires q == Wrap32(est + 1 + b / BASE) && r == Wrap32(b % BASE + (if b / BASE == MASK then d else 0))
    ensures q == (a1 * BASE + a0) / d && r == (a1 * BASE + a0) % d
  {
    var n := a1 * BASE + a0;
    var rest := n - est * d;
    WrapsAround(rest, d);
    if rest < d {
      DivModIs(n, d, est, rest);
    } else {
      MulDist(est, 1, d);
      EstimateFits(n, a1, d, est + 1);
      DivModIs(n, d, est + 1, rest - d);
    }
  }

  lemma InverseOf(d: Limb)
    requires d >= HALF
    ensures (Inverse(d) + BASE) * d <= BASE * BASE - 1 < (Inverse(d) + BASE + 1) * d
  {
  }

  lemma FirstProductFits(v: Limb, x: nat, adj: Limb)
    requires x < BASE
    ensures 0 <= v * x + adj < BASE * BASE
    ensures Wrap64(v * x + adj) == v * x + adj
  {
    MulNonNeg(v, x);
    MulMono(v, BASE - 1, x);
    var p := v * x;
    assert 0 <= p <= (BASE - 1) * (BASE - 1);
    DivModIs(p + adj, BASE * BASE, 0, p + adj);
  }

  /** Subtracting the divisor once more than the remainder allows borrows from the high word. */
  lemma WrapsAround(rest: int, d: Limb)
    requires 0 <= rest < 2 * d
    ensures var b := Wrap64(rest - d);
      if rest < d then b / BASE == MASK && b % BASE == rest - d + BASE else b / BASE == 0 && b % BASE == rest - d
  {
    if rest < d {
      DivModIs(rest - d, BASE * BASE, -1, rest - d + BASE * BASE);
      DivModIs(rest - d + BASE * BASE, BASE, BASE - 1, rest - d + BASE);
    } else {
      DivModIs(rest - d, BASE * BASE, 0, rest - d);
      DivModIs(rest - d, BASE, 0, rest - d);
    }
  }

  lemma EstimateFits(n: nat, a1: Limb, d: Limb, est: nat)
    requires 0 < d && a1 < d && n < (a1 + 1) * BASE && 0 <= n - est * d
    ensures est < BASE
  {
    MulMono(a1 + 1, d, BASE);
    if est >= BASE {
      MulMono(BASE, est, d);
    }
  }

  /** The division loop: the divisor is normalized. */
  method DivLoop(tab: array<Limb>, n: nat, b: Limb, high: Limb, inv: Limb) returns (r: Limb)
    requires n <= tab.Length && b >= HALF && inv == Inverse(b) && high < b
    modifies tab
    ensures Val(tab[..n]) * b + r == Val(old(tab[..n])) + high * BasePow(n)
    ensures r < b && tab[n..] == old(tab[n..])
  {
    hide Inverse, BasePow;
    ghost var was := tab[..];
    r := high;
    var i := n;
    assert was[n..n] == [] && tab[n..n] == [] && tab[..i] == was[..i];
    BasePowStep(0);
    ValOne(0);
    while i > 0
      invariant 0 <= i <= n && r < b
      invariant Val(tab[i..n]) * b + r == Val(was[i..n]) + high * BasePow(n - i)
      invariant tab[..i] == was[..i] && tab[n..] == was[n..]
    {
      i := i - 1;
      ghost var s, r0 := tab[..], r;
      DivModOf(r * BASE + tab[i], b);
      tab[i], r := DivideNormalized(r, tab[i], b, inv);
      DivStep(was, s, tab[..], i, n, b, high, r0, r);
    }
    assert tab[..n] == tab[0..n] && was[..n] == was[0..n];
  }

  /** Divides the first `n` limbs, with `high` above them, by `c`, where `b` is `c` shifted left
      until its top bit is set. */
  method DivNormalized(tab: array<Limb>, n: nat, b: Limb, high: Limb, inv: Limb, shift: nat, ghost c: nat)
    returns (rem: Limb)
    requires n <= tab.Length && b >= HALF && inv == Inverse(b)
    requires shift < BITS && b == c * Pow2(shift) && high < c
    modifies tab
    ensures Val(tab[..n]) * c + rem == Val(old(tab[..n])) + high * BasePow(n)
    ensures rem < c && tab[n..] == old(tab[n..])
  {
    hide Inverse, Val, BasePow, Pow;
    ghost var first := Val(tab[..n]);
    var up := Pow2(shift);
    PowPos(2, shift);
    PowSmall(2);
    var r, l := high, 0;
    HighTop(high, c, up, 0);
    if shift != 0 {
      l := ShiftLeft(tab, n, shift, 0);
      HighTop(high, c, up, l);
      r := high * up + l;
    } else {
      assert high * up == high && first * up == first;
    }
    assert Val(tab[..n]) + l * BasePow(n) == first * up;
    NormalizedDividend(first, Val(tab[..n]), high, l, BasePow(n), up);
    r := DivLoop(tab, n, b, r, inv);
    Unshifted(Val(tab[..n]), first + high * BasePow(n), b, c, up, r);
    rem := r / up;
  }

  lemma NormalizedDividend(first: nat, v: nat, high: nat, l: nat, p: nat, up: nat)
    requires v + l * p == first * up
    ensures v + (high * up + l) * p == (first + high * p) * up
  {
    MulDist(first, high * p, up);
    MulDist(high * up, l, p);
    MulAssoc(high, up, p);
    MulAssoc(high, p, up);
  }

  lemma HighTop(high: Limb, c: nat, up: nat, l: nat)
    requires up > 0 && high < c && l < up
    ensures 0 <= high * up + l < c * up
  {
    MulMono(high + 1, c, up);
    MulDist(high, 1, up);
    MulNonNeg(high, up);
  }

  /** Undoing the normalization of dividend, divisor and remainder. */
  lemma Unshifted(q: nat, n: int, b: Limb, c: nat, up: nat, r: Limb)
    requires up > 0 && b == c * up && q * b + r == n * up && r < b
    ensures 0 <= r / up < c && r / up <= MASK && q * c + r / up == n
  {
    assert r == (n - q * c) * up by {
      MulAssoc(q, c, up);
      MulDist(n, q * c, up);
    }
    MulDiv(n - q * c, up);
    MulCancel(n - q * c, c, up);
    assert n - q * c >= 0 by {
      if n - q * c < 0 {
        MulStrict(n - q * c, 0, up);
      }
    }
    MulMono(1, up, r / up);
  }
}

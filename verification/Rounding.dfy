/** Rounding a rational number to an integer, in the three modes of dtoa.c. */
module Rounding {
  import opened Powers

  /** To nearest with ties to even, to nearest with ties away from zero, towards zero. */
  datatype Mode = Nearest | NearestAway | TowardsZero

  /** What it means that `q` is n / d rounded. */
  ghost predicate IsRounded(n: nat, d: nat, mode: Mode, q: nat) {
    var error: int := n - q * d;
    match mode
    case Nearest => 0 - d <= 2 * error <= d && (2 * error == d || 2 * error == 0 - d ==> q % 2 == 0)
    case NearestAway => 0 - d <= 2 * error < d
    case TowardsZero => 0 <= error < d
  }

  ghost function Rounded(n: nat, d: nat, mode: Mode): nat
    requires d > 0
  {
    var q, r := n / d, n % d;
    match mode
    case Nearest => if 2 * r > d || (2 * r == d && q % 2 == 1) then q + 1 else q
    case NearestAway => if 2 * r >= d then q + 1 else q
    case TowardsZero => q
  }

  lemma RoundedIs(n: nat, d: nat, mode: Mode)
    requires d > 0
    ensures IsRounded(n, d, mode, Rounded(n, d, mode))
  {
    DivModOf(n, d);
    MulDist(n / d, 1, d);
  }

  /** There is only one way to round. */
  lemma RoundedOnly(n: nat, d: nat, mode: Mode, q: nat)
    requires d > 0 && IsRounded(n, d, mode, q)
    ensures q == Rounded(n, d, mode)
  {
    var p := Rounded(n, d, mode);
    RoundedIs(n, d, mode);
    if p + 1 < q {
      MulMono(p + 2, q, d);
      MulDist(p, 2, d);
    } else if q + 1 < p {
      MulMono(q + 2, p, d);
      MulDist(q, 2, d);
    } else if p + 1 == q {
      MulDist(p, 1, d);
    } else if q + 1 == p {
      MulDist(q, 1, d);
    }
  }

  /** No integer is nearer than the rounded one. */
  lemma RoundedIsNearest(n: nat, d: nat, mode: Mode, k: nat)
    requires d > 0 && mode != TowardsZero
    ensures var e, f := n - Rounded(n, d, mode) * d, n - k * d;
      (if e < 0 then -e else e) <= (if f < 0 then -f else f)
  {
    var q := Rounded(n, d, mode);
    RoundedIs(n, d, mode);
    if k < q {
      MulMono(k + 1, q, d);
      MulDist(k, 1, d);
    } else if k > q {
      MulMono(q + 1, k, d);
      MulDist(q, 1, d);
    }
  }

  /** Rounding is monotone. */
  lemma RoundedMono(m: nat, n: nat, d: nat, mode: Mode)
    requires d > 0 && m <= n
    ensures Rounded(m, d, mode) <= Rounded(n, d, mode)
  {
    DivMono(m, n, d);
    DivModOf(m, d);
    DivModOf(n, d);
    if m / d == n / d {
    } else {
      assert m / d + 1 <= n / d;
    }
  }

  /** The same quotient with a common factor. */
  lemma RoundedScaled(n: nat, d: nat, c: nat, mode: Mode)
    requires d > 0 && c > 0
    ensures d * c > 0 && Rounded(n * c, d * c, mode) == Rounded(n, d, mode)
  {
    MulPos(d, c);
    var q, r := n / d, n % d;
    DivModOf(n, d);
    assert n * c == q * (d * c) + r * c by {
      MulDist(q * d, r, c);
      MulAssoc(q, d, c);
    }
    MulStrict(r, d, c);
    MulNonNeg(r, c);
    DivModIs(n * c, d * c, q, r * c);
    MulAssoc(2, r, c);
    if 2 * r < d {
      MulStrict(2 * r, d, c);
    } else if 2 * r > d {
      MulStrict(d, 2 * r, c);
    }
  }

  lemma RoundedWhole(n: nat, mode: Mode)
    ensures Rounded(n, 1, mode) == n
  {
    DivModIs(n, 1, n, 0);
  }

  lemma RoundedExact(q: nat, d: nat, mode: Mode)
    requires d > 0
    ensures Rounded(q * d, d, mode) == q
  {
    MulDiv(q, d);
  }
}

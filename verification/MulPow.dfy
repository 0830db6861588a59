/** Scaling by a power of a radix, and rounding (`mul_pow`, `mul_pow_round` of dtoa.c). */
module MulPow {
  import opened Powers
  import opened Limbs
  import opened Rounding
  import opened InvariantDivision
  import opened Bignum
  import opened RadixPowers

  function Pos(x: int): nat {
    if x > 0 then x else 0
  }

  function Neg(x: int): nat {
    if x < 0 then 0 - x else 0
  }

  /** m * 2^e * radix^f as a fraction. */
  ghost function Num(m: nat, e: int, radix: nat, f: int): nat {
    m * Pow2(Pos(e)) * Pow(radix, Pos(f))
  }

  ghost function Den(e: int, radix: nat, f: int): nat {
    Pow2(Neg(e)) * Pow(radix, Neg(f))
  }

  lemma DenPos(e: int, radix: nat, f: int)
    requires radix > 0
    ensures Den(e, radix, f) > 0
  {
    PowPos(2, Neg(e));
    PowPos(radix, Neg(f));
    MulPos(Pow2(Neg(e)), Pow(radix, Neg(f)));
  }

  ///// The sticky bit

  /** The truncated quotient, made odd when something was cut off. */
  ghost function Sticky(n: nat, d: nat): nat
    requires d > 0
  {
    if n % d != 0 && n / d % 2 == 0 then n / d + 1 else n / d
  }

  /** With two bits or more to drop, the sticky bit decides every rounding as the exact value would. */
  lemma StickyRounds(n: nat, d: nat, shift: nat, mode: Mode)
    requires d > 0 && shift >= 2
    ensures Pow2(shift) > 0 && d * Pow2(shift) > 0
    ensures Rounded(Sticky(n, d), Pow2(shift), mode) == Rounded(n, d * Pow2(shift), mode)
  {
    hide Pow;
    var p, h := Pow2(shift), Pow2(shift - 2);
    PowPos(2, shift - 2);
    Pow2Step(shift);
    Pow2Step(shift - 1);
    MulPos(d, p);
    StickyRoundsBy(n, d, h, mode);
  }

  lemma StickyRoundsBy(n: nat, d: nat, h: nat, mode: Mode)
    requires d > 0 && h > 0 && d * (4 * h) > 0
    ensures Rounded(Sticky(n, d), 4 * h, mode) == Rounded(n, d * (4 * h), mode)
  {
    hide Rounded, Sticky, Decided;
    var p := 4 * h;
    var q, r := n / d, n % d;
    QuotientNat(n, d);
    var k, t := q / p, q % p;
    QuotientNat(q, p);
    DivTwice(n, d, p);
    StickyIs(n, d);
    StickyParts(q, r, h, Sticky(n, d));
    DivModOf(n, d);
    SameDecision(k, t, r, d, p, mode);
    RoundedParts(Sticky(n, d), p, mode);
    RoundedParts(n, d * p, mode);
  }

  /** The quotient `q` with remainder `r`, rounded. */
  ghost function Decided(q: nat, r: nat, d: nat, mode: Mode): nat {
    if mode == TowardsZero then q
    else if mode == NearestAway then (if 2 * r > d || 2 * r == d then q + 1 else q)
    else (if 2 * r > d || (2 * r == d && q % 2 == 1) then q + 1 else q)
  }

  lemma RoundedParts(n: nat, d: nat, mode: Mode)
    requires d > 0
    ensures Rounded(n, d, mode) == Decided(n / d, n % d, d, mode)
  {
  }

  lemma SameDecision(k: nat, t: nat, r: nat, d: nat, p: nat, mode: Mode)
    requires d > 0 && p > 0 && p % 4 == 0 && r < d && t < p
    ensures var u := if r != 0 && t % 2 == 0 then t + 1 else t;
      t * d + r >= 0 && Decided(k, u, p, mode) == Decided(k, t * d + r, d * p, mode)
  {
    MulNonNeg(t, d);
    MulNonNeg(d, p);
    TwiceAgainst(t, r, d, p);
  }

  /** The sticky quotient has the same high part. */
  lemma StickyParts(q: nat, r: nat, h: nat, s: nat)
    requires h > 0 && s == if r != 0 && q % 2 == 0 then q + 1 else q
    ensures s / (4 * h) == q / (4 * h) && s % (4 * h) == q % (4 * h) + (s - q)
    ensures q % (4 * h) % 2 == q % 2
  {
    var p := 4 * h;
    var k, t := q / p, q % p;
    DivModOf(q, p);
    var m := k * (2 * h);
    assert k * p == 2 * m by {
      MulAssoc(k, 2, 2 * h);
      MulAssoc(2, k, 2 * h);
    }
    OddStaysBelow(q, m, t, 2 * h, s - q);
    DivModIs(s, p, k, t + (s - q));
  }

  lemma OddStaysBelow(q: nat, m: int, t: nat, h: nat, one: nat)
    requires q == 2 * m + t && t < 2 * h && one <= 1 && (one == 1 ==> q % 2 == 0)
    ensures t % 2 == q % 2 && t + one < 2 * h
  {
  }

  /** Twice the remainder against the divisor, with the low part and without it. */
  lemma TwiceAgainst(t: nat, r: nat, d: nat, p: nat)
    requires d > 0 && p > 0 && p % 4 == 0 && r < d && t < p
    ensures var u := if r != 0 && t % 2 == 0 then t + 1 else t;
      (2 * u > p <==> 2 * (t * d + r) > d * p) && (2 * u == p <==> 2 * (t * d + r) == d * p)
  {
    var h := p / 2;
    assert p == 2 * h && h % 2 == 0;
    assert d * p == 2 * (h * d) by {
      MulAssoc(d, 2, h);
      MulAssoc(2, h, d);
    }
    if t < h {
      MulMono(t + 1, h, d);
      MulDist(t, 1, d);
    } else if t > h {
      MulMono(h + 1, t, d);
      MulDist(h, 1, d);
    }
  }

  /** Equal fractions round alike. */
  lemma RoundedCross(n: nat, d: nat, n2: nat, d2: nat, mode: Mode)
    requires d > 0 && d2 > 0 && n * d2 == n2 * d
    ensures Rounded(n, d, mode) == Rounded(n2, d2, mode)
  {
    RoundedScaled(n, d, d2, mode);
    RoundedScaled(n2, d2, d, mode);
    assert d * d2 == d2 * d;
  }

  ///// Scaling

  /** What scaling by (radix1 * 2^radixShift)^f leaves in the number: the exact product, or, for a negative power
      of an odd radix, the sticky quotient with `extra` more bits. */
  ghost predicate Scaled(was: nat, now: nat, radix1: nat, radixShift: nat, f: int, offset: int, extra: nat) {
    if f >= 0 || radix1 == 1 then
      extra == 0 && now == was * Pow(radix1, Pos(f)) && offset == 0 - f * radixShift
    else
      Pow(radix1, Neg(f)) > 0 && now == Sticky(was * Pow2(extra), Pow(radix1, Neg(f))) &&
      offset == 0 - f * radixShift + extra
  }

  /** How many limbs scaling `len` limbs takes at most. A division starts with as many more limbs as the divisor may
      have, and with the bits that rounding needs. */
  function Room(len: nat, f: int, d: nat, radixShift: nat, isInt: bool, e: int): nat
    requires d > 0
  {
    if f >= 0 then len + (f + d - 1) / d
    else
      var l := (0 - f + d - 1) / d;
      if isInt then len + l + Pos(2 + e + f * radixShift - l * BITS) / BITS + 1
      else (if len > Pos(e) / BITS then len else Pos(e) / BITS + 1) + l + 1
  }

  /** Multiplies by radix1^f, as many digits at a time as fit in a limb. */
  method MulDigits(a: Mpb, radix1: nat, f: nat, d: nat)
    requires a.Valid() && a.Normal() && 0 < radix1 <= 36 && 0 < d <= 32 && 0 < Pow(radix1, d) < BASE
    requires a.len + (f + d - 1) / d <= a.tab.Length
    modifies a, a.tab
    ensures a.Valid() && a.Normal() && a.Value() == old(a.Value()) * Pow(radix1, f)
    ensures a.len <= old(a.len) + (f + d - 1) / d
  {
    hide Pow, Val, BasePow;
    var b, n0: nat, left, done: nat := 0, 0, f, 0;
    ghost var was, most := a.Value(), a.len + (f + d - 1) / d;
    PowSmall(radix1);
    assert was * 1 == was;
    NoChunks(d);
    while left != 0
      invariant a.Valid() && a.Normal() && 0 <= left <= f && done == f - left
      invariant a.len + (left + d - 1) / d <= most
      invariant n0 > 0 ==> b == Pow(radix1, n0) && b < BASE
      invariant a.Value() == was * Pow(radix1, done)
      decreases left
    {
      var n := if left < d then left else d;
      SmallerPower(radix1, n, d);
      if n != n0 {
        b := PowUi(radix1, n);
        n0 := n;
      }
      OneChunkLess(left, d, n);
      MulLimbIn(a, b);
      MorePower(was, radix1, done, n);
      left := left - n;
      done := done + n;
    }
  }

  lemma SmallerPower(b: nat, n: nat, d: nat)
    requires b > 0 && n <= d && Pow(b, d) < BASE
    ensures 0 < Pow(b, n) < BASE
  {
    PowPos(b, n);
    PowMono(b, n, d);
  }

  lemma NoChunks(d: nat)
    requires d > 0
    ensures (d - 1) / d == 0
  {
    DivModIs(d - 1, d, 0, d - 1);
  }

  lemma MorePower(x: nat, b: nat, m: nat, n: nat)
    ensures (x * Pow(b, m)) * Pow(b, n) == x * Pow(b, m + n)
  {
    PowAdd(b, m, n);
    MulAssoc(x, Pow(b, m), Pow(b, n));
  }

  lemma OneChunkLess(left: nat, d: nat, n: nat)
    requires d > 0 && left > 0 && n == if left < d then left else d
    ensures (left - n + d - 1) / d + 1 == (left + d - 1) / d
  {
    if left < d {
      DivModIs(left + d - 1, d, 1, left - 1);
      DivModIs(d - 1, d, 0, d - 1);
    } else {
      DivModOf(left - 1, d);
      MulDist((left - 1) / d, 1, d);
      DivModIs(left + d - 1, d, (left - 1) / d + 1, (left - 1) % d);
    }
  }

  method MulLimbIn(a: Mpb, b: Limb)
    requires a.Valid() && a.Normal() && b > 0 && a.len + 1 <= a.tab.Length
    modifies a, a.tab
    ensures a.Valid() && a.Normal() && a.Value() == old(a.Value()) * b && a.len <= old(a.len) + 1
  {
    hide Pow, Val, BasePow;
    ghost var n := a.len;
    TopLimb(a.tab[..n]);
    var h := MulLimb(a.tab, a.len, b, 0);
    if h != 0 {
      a.tab[a.len] := h;
      assert a.tab[..n + 1] == a.tab[..n] + [h];
      ValSnoc(a.tab[..n], h);
      a.len := a.len + 1;
    } else {
      assert 0 * BasePow(n) == 0;
      TopLimb(a.tab[..n]);
      MulMono(1, b, old(a.Value()));
    }
  }

  /** Divides by radix1^f, as many digits at a time as fit in a limb; the result says whether something was cut off. */
  method DivDigits(a: Mpb, radix1: nat, f: nat, d: nat) returns (cut: bool)
    requires a.Valid() && a.Normal() && 0 < radix1 <= 36 && 0 < d <= 32 && 0 < Pow(radix1, d) < BASE
    modifies a, a.tab
    ensures a.Valid() && a.Normal() && a.len <= old(a.len) && Pow(radix1, f) > 0
    ensures a.Value() == old(a.Value()) / Pow(radix1, f)
    ensures cut <==> old(a.Value()) % Pow(radix1, f) != 0
  {
    hide Pow, Val, BasePow;
    var b: Limb, inv: Limb, shift: nat, n0: nat, left, done: nat := 0, 0, 0, 0, f, 0;
    ghost var was := a.Value();
    cut := false;
    PowSmall(radix1);
    DivModIs(was, 1, was, 0);
    while left != 0
      invariant a.Valid() && a.Normal() && a.len <= old(a.len) && 0 <= left <= f && done == f - left
      invariant n0 > 0 ==> shift < BITS && b == Pow(radix1, n0) * Pow2(shift) && b >= HALF && inv == Inverse(b)
      invariant Pow(radix1, done) > 0 && a.Value() == was / Pow(radix1, done)
      invariant cut <==> was % Pow(radix1, done) != 0
      decreases left
    {
      var n := if left < d then left else d;
      SmallerPower(radix1, n, d);
      if n != n0 {
        b, inv, shift := PowUiInv(radix1, n);
        n0 := n;
      }
      ghost var c, v, len := Pow(radix1, n), a.Value(), a.len;
      var r := DivNormalized(a.tab, a.len, b, 0, inv, shift, c);
      assert 0 * BasePow(len) == 0;
      DivModIs(v, c, Val(a.tab[..len]), r);
      cut := cut || r != 0;
      a.Renorm();
      PowAdd(radix1, done, n);
      DivTwice(was, Pow(radix1, done), c);
      left := left - n;
      done := done + n;
    }
  }

  /** Sets the lowest bit. */
  method SetLowBit(a: Mpb)
    requires a.Valid() && a.Normal()
    modifies a.tab
    ensures a.Valid() && a.Normal()
    ensures a.Value() == if old(a.Value()) % 2 == 0 then old(a.Value()) + 1 else old(a.Value())
  {
    hide Val, BasePow;
    ghost var was, n := a.tab[..a.len], a.len;
    LowLimb(was);
    if a.tab[0] % 2 == 0 {
      a.tab[0] := a.tab[0] + 1;
      LowLimb(a.tab[..n]);
      assert a.tab[..n] == [was[0] + 1] + was[1..];
      assert a.tab[..n][1..] == was[1..];
    }
  }

  lemma LowLimb(s: seq<Limb>)
    requires |s| > 0
    ensures Val(s) == s[0] + BASE * Val(s[1..]) && Val(s) % 2 == s[0] % 2
  {
  }

  /** Scales the number by (radix1 * 2^radixShift)^f, up to the power of two it returns. */
  method ScaleByPower(a: Mpb, radix1: nat, radixShift: nat, f: int, isInt: bool, e: int)
    returns (offset: int, ghost extra: nat)
    requires a.Valid() && a.Normal() && a.Value() > 0 && 1 <= radix1 <= 36 && radix1 % 2 == 1
    requires radix1 > 1 ==> Room(a.len, f, DigitsPerLimb(radix1), radixShift, isInt, e) <= a.tab.Length
    modifies a, a.tab
    ensures a.Valid() && a.Normal() && Scaled(old(a.Value()), a.Value(), radix1, radixShift, f, offset, extra)
    ensures a.Value() > 0
    ensures a.len <=
      if radix1 == 1 then old(a.len) else Room(old(a.len), f, DigitsPerLimb(radix1), radixShift, isInt, e)
    ensures f < 0 && radix1 > 1 && isInt ==> offset >= e + 2
    ensures f < 0 && radix1 > 1 && !isInt ==> a.Value() >= Pow2(Pos(e))
  {
    hide Pow, Val, BasePow, Sticky;
    var back := f * radixShift;
    if f < 0 {
      NegTimes(f, radixShift);
    }
    offset := 0 - back;
    extra := 0;
    if radix1 != 1 {
      var d := DigitsPerLimb(radix1);
      if f >= 0 {
        PowPos(radix1, f);
        MulPos(a.Value(), Pow(radix1, f));
        MulDigits(a, radix1, f, d);
      } else {
        var up;
        up, extra := ScaleDown(a, radix1, radixShift, 0 - f, d, isInt, e, offset);
        assert 0 - (0 - f) == f;
        offset := offset + up;
      }
    } else {
      OnePower(Pos(f));
    }
  }

  /** The case of a negative power: more bits, division, and the sticky bit. */
  method ScaleDown(a: Mpb, radix1: nat, ghost radixShift: nat, f: nat, d: nat, isInt: bool, e: int, offset: int)
    returns (up: nat, ghost extra: nat)
    requires a.Valid() && a.Normal() && a.Value() > 0 && f > 0 && offset >= 0 && offset == 0 - (0 - f) * radixShift
    requires 1 <= radix1 <= 36 && 0 < d <= 32 && 0 < Pow(radix1, d) < BASE
    requires Room(a.len, 0 - f, d, radixShift, isInt, e) <= a.tab.Length
    modifies a, a.tab
    ensures a.Valid() && a.Normal() && a.Value() > 0 && a.len <= Room(old(a.len), 0 - f, d, radixShift, isInt, e)
    ensures up == extra && Pow(radix1, f) > 0 && a.Value() == Sticky(old(a.Value()) * Pow2(extra), Pow(radix1, f))
    ensures isInt ==> offset + up >= e + 2
    ensures !isInt ==> a.Value() >= Pow2(Pos(e))
  {
    hide Pow, Val, BasePow, Sticky, ShiftRounded, Room;
    ghost var was := a.Value();
    var l := (f + d - 1) / d;
    var log := a.FloorLog2();
    var bits := if isInt then Pos(2 + e - (offset + l * BITS)) else Pos(e - log);
    up := l * BITS + bits;
    extra := up;
    LogOfLimbs(a.tab[..a.len], log);
    RoomFits(a.len, 0 - f, d, radixShift, isInt, e, offset, log, l, bits);
    ShiftRoundedIs(was, 0 - up, TowardsZero);
    a.ShiftRound(0 - up, TowardsZero);
    PowPos(2, extra);
    MulPos(was, Pow2(extra));
    var cut := DivDigits(a, radix1, f, d);
    EnoughBits(was, radix1, f, d, l, bits, log, Pos(e), a.Value());
    StickyIs(was * Pow2(extra), Pow(radix1, f));
    if cut {
      SetLowBit(a);
    }
  }

  lemma NegTimes(f: int, k: nat)
    requires f < 0
    ensures f * k <= 0
  {
    MulNonNeg(0 - f, k);
    MulDist(0, f, k);
  }

  lemma StickyIs(n: nat, d: nat)
    requires d > 0
    ensures Sticky(n, d) == if n % d != 0 && n / d % 2 == 0 then n / d + 1 else n / d
    ensures n > 0 ==> Sticky(n, d) > 0
  {
  }

  lemma RoomFits(len: nat, f: int, d: nat, radixShift: nat, isInt: bool, e: int, offset: int, log: int, l: nat,
        bits: nat)
    requires f < 0 && d > 0 && l == (0 - f + d - 1) / d && offset == 0 - f * radixShift && len > 0 &&
      log >= (len - 1) * BITS
    requires bits == if isInt then Pos(2 + e - (offset + l * BITS)) else Pos(e - log)
    ensures len + (l * BITS + bits) / BITS + 1 <= Room(len, f, d, radixShift, isInt, e)
  {
    assert (l * BITS + bits) / BITS == l + bits / BITS;
  }

  /** A normal number of several limbs has bits in the highest. */
  lemma LogOfLimbs(s: seq<Limb>, log: int)
    requires |s| > 0 && (|s| > 1 ==> s[|s| - 1] != 0) && log >= 0 && Val(s) < Pow2(log + 1)
    ensures log >= (|s| - 1) * BITS
  {
    hide Pow, Val, BasePow;
    if |s| > 1 {
      TopLimb(s);
      BasePowIsPow2(|s| - 1);
      if log + 1 <= BITS * (|s| - 1) {
        PowMono(2, log + 1, BITS * (|s| - 1));
      }
    }
  }

  /** The limbs that are added outweigh the divisor. */
  lemma EnoughBits(was: nat, radix1: nat, f: nat, d: nat, l: nat, bits: nat, log: int, e: nat, now: nat)
    requires 0 < radix1 && 0 < d && 0 < Pow(radix1, d) < BASE && l == (f + d - 1) / d && log >= 0
    requires Pow2(log) <= was && Pow(radix1, f) > 0 && now == was * Pow2(l * BITS + bits) / Pow(radix1, f)
    ensures bits >= e - log ==> now >= Pow2(e)
  {
    hide Pow;
    if bits >= e - log {
      LimbsOutweigh(radix1, f, d, l);
      BitsOutweigh(was, Pow(radix1, f), Pow2(l * BITS), bits, log, e);
      PowAdd(2, l * BITS, bits);
      DivAtLeast(was * Pow2(l * BITS + bits), Pow(radix1, f), Pow2(e));
    }
  }

  lemma LimbsOutweigh(radix1: nat, f: nat, d: nat, l: nat)
    requires 0 < radix1 && 0 < d && 0 < Pow(radix1, d) < BASE && l == (f + d - 1) / d
    ensures Pow(radix1, f) <= Pow2(l * BITS)
  {
    hide Pow;
    DivModOf(f + d - 1, d);
    MulDist(l, 1, d);
    PowMono(radix1, f, l * d);
    PowOfPow(radix1, d, l);
    assert d * l == l * d;
    PowBaseMono(Pow(radix1, d), BASE, l);
    BasePowIsPow2(l);
    assert BITS * l == l * BITS;
  }

  lemma BitsOutweigh(was: nat, b: nat, x: nat, bits: nat, log: nat, e: nat)
    requires b <= x && Pow2(log) <= was && e <= log + bits
    ensures Pow2(e) * b <= was * (x * Pow2(bits))
  {
    hide Pow;
    var y, w := Pow2(bits), Pow2(log);
    PowAdd(2, log, bits);
    PowMono(2, e, log + bits);
    MulMono(b, x, Pow2(e));
    MulMono(Pow2(e), w * y, x);
    MulNonNeg(x, y);
    MulMono(w, was, x * y);
    MulAssoc(w, y, x);
    assert y * x == x * y;
  }

  lemma {:induction false} OnePower(n: nat)
    ensures Pow(1, n) == 1
  {
    if n > 0 {
      OnePower(n - 1);
    }
  }

  ///// Rounding the scaled number

  /** A shift by a number of bits of either sign, rounded, as the rounding of a fraction. */
  lemma ShiftRoundedFraction(n: nat, shift: int, mode: Mode)
    ensures Pow2(Pos(shift)) > 0
    ensures ShiftRounded(n, shift, mode) == Rounded(n * Pow2(Neg(shift)), Pow2(Pos(shift)), mode)
  {
    hide Pow, Rounded;
    PowSmall(2);
    PowPos(2, Pos(shift));
    ShiftRoundedIs(n, shift, mode);
    if shift < 0 {
      RoundedWhole(n * Pow2(Neg(shift)), mode);
    } else {
      assert n * 1 == n;
    }
  }

  lemma RadixPower(radix1: nat, radixShift: nat, n: nat)
    ensures Pow(radix1 * Pow2(radixShift), n) == Pow(radix1, n) * Pow2(radixShift * n)
  {
    PowOfProduct(radix1, Pow2(radixShift), n);
    PowOfPow(2, radixShift, n);
  }

  /** Products of powers of two with equal exponents. */
  lemma EqualPowers(x: nat, i: nat, j: nat, k: nat, i2: nat, j2: nat, k2: nat)
    requires i + j + k == i2 + j2 + k2
    ensures x * (Pow2(i) * (Pow2(j) * Pow2(k))) == x * (Pow2(i2) * (Pow2(j2) * Pow2(k2)))
  {
    hide Pow;
    PowAdd(2, j, k);
    PowAdd(2, i, j + k);
    PowAdd(2, j2, k2);
    PowAdd(2, i2, j2 + k2);
  }

  /** The exact product, shifted and rounded, is the fraction rounded. */
  lemma ExactRounds(m: nat, q: nat, e: int, radix1: nat, radixShift: nat, f: int, mode: Mode)
    requires radix1 > 0 && (f >= 0 || radix1 == 1) && q == Pow(radix1, Pos(f))
    ensures Den(e, radix1 * Pow2(radixShift), f) > 0
    ensures ShiftRounded(m * q, 0 - f * radixShift - e, mode)
      == Rounded(Num(m, e, radix1 * Pow2(radixShift), f), Den(e, radix1 * Pow2(radixShift), f), mode)
  {
    hide Pow, Rounded;
    var radix, shift := radix1 * Pow2(radixShift), 0 - f * radixShift - e;
    PowPos(2, radixShift);
    MulPos(radix1, Pow2(radixShift));
    DenPos(e, radix, f);
    ShiftRoundedFraction(m * q, shift, mode);
    RadixPower(radix1, radixShift, Pos(f));
    RadixPower(radix1, radixShift, Neg(f));
    if f < 0 {
      OnePower(Neg(f));
      OnePower(Pos(f));
    } else {
      PowSmall(radix1);
    }
    var a, b := radixShift * Pos(f), radixShift * Neg(f);
    assert a - b == f * radixShift by {
      if f >= 0 {
        assert radixShift * 0 == 0 && radixShift * f == f * radixShift;
      } else {
        assert radixShift * 0 == 0;
        assert radixShift * (0 - f) == 0 - f * radixShift by {
          MulDist(0, f, radixShift);
        }
      }
    }
    var n, d := m * q * Pow2(Neg(shift)), Pow2(Pos(shift));
    var n2, d2 := Num(m, e, radix, f), Den(e, radix, f);
    assert d2 == Pow2(Neg(e)) * Pow2(b);
    assert n2 == m * Pow2(Pos(e)) * (q * Pow2(a));
    assert n * d2 == (m * q) * (Pow2(Neg(shift)) * (Pow2(Neg(e)) * Pow2(b))) by {
      MulAssoc(m * q, Pow2(Neg(shift)), Pow2(Neg(e)) * Pow2(b));
    }
    assert n2 * d == (m * q) * (Pow2(Pos(e)) * (Pow2(a) * Pow2(Pos(shift)))) by {
      Reorder(m, q, Pow2(Pos(e)), Pow2(a), Pow2(Pos(shift)));
    }
    EqualPowers(m * q, Neg(shift), Neg(e), b, Pos(e), a, Pos(shift));
    RoundedCross(n, d, n2, d2, mode);
  }

  lemma Reorder(m: nat, q: nat, x: nat, y: nat, z: nat)
    ensures m * x * (q * y) * z == (m * q) * (x * (y * z))
  {
    assert m * x * (q * y) == (m * q) * (x * y) by {
      MulAssoc(m, x, q * y);
      MulAssoc(x, q, y);
      MulAssoc(q, x, y);
      MulAssoc(m, q, x * y);
      assert x * q == q * x;
    }
    MulAssoc(m * q, x * y, z);
    MulAssoc(x, y, z);
  }

  /** The sticky quotient, shifted and rounded, is the fraction rounded. */
  lemma StickyQuotientRounds(m: nat, now: nat, e: int, radix1: nat, radixShift: nat, f: int, extra: nat, mode: Mode)
    requires radix1 > 0 && f < 0 && Pow(radix1, Neg(f)) > 0 && now == Sticky(m * Pow2(extra), Pow(radix1, Neg(f)))
    requires 0 - f * radixShift + extra >= e + 2
    ensures Den(e, radix1 * Pow2(radixShift), f) > 0
    ensures ShiftRounded(now, 0 - f * radixShift + extra - e, mode)
      == Rounded(Num(m, e, radix1 * Pow2(radixShift), f), Den(e, radix1 * Pow2(radixShift), f), mode)
  {
    hide Pow, Rounded, Sticky;
    var radix, b := radix1 * Pow2(radixShift), radixShift * Neg(f);
    assert b == 0 - f * radixShift by {
      MulDist(0, f, radixShift);
    }
    var shift := b + extra - e;
    var r := Pow(radix1, Neg(f));
    PowPos(2, radixShift);
    MulPos(radix1, Pow2(radixShift));
    DenPos(e, radix, f);
    ShiftRoundedIs(now, shift, mode);
    StickyRounds(m * Pow2(extra), r, shift, mode);
    RadixPower(radix1, radixShift, Neg(f));
    PowSmall(radix);
    var n2, d2 := Num(m, e, radix, f), Den(e, radix, f);
    assert d2 == Pow2(Neg(e)) * (r * Pow2(b));
    assert n2 == m * Pow2(Pos(e));
    StickyCross(m, r, e, extra, b, shift);
    RoundedCross(m * Pow2(extra), r * Pow2(shift), n2, d2, mode);
  }

  lemma StickyCross(m: nat, r: nat, e: int, extra: nat, b: nat, shift: nat)
    requires shift == b + extra - e
    ensures (m * Pow2(extra)) * (Pow2(Neg(e)) * (r * Pow2(b))) == (m * Pow2(Pos(e))) * (r * Pow2(shift))
  {
    hide Pow;
    PowSmall(2);
    var x, y, z := Pow2(extra), Pow2(Neg(e)), Pow2(b);
    assert y * (r * z) == r * (y * z) by {
      MulAssoc(y, r, z);
      MulAssoc(r, y, z);
    }
    Reorder(m, r, x, y * z, 1);
    Reorder(m, r, Pow2(Pos(e)), Pow2(shift), 1);
    EqualPowers(m * r, extra, Neg(e), b, Pos(e), shift, 0);
  }

  lemma ScaledRounds(m: nat, now: nat, e: int, radix1: nat, radixShift: nat, f: int, offset: int, extra: nat,
        mode: Mode)
    requires radix1 > 0 && Scaled(m, now, radix1, radixShift, f, offset, extra)
    requires f < 0 && radix1 > 1 ==> offset >= e + 2
    ensures Den(e, radix1 * Pow2(radixShift), f) > 0
    ensures ShiftRounded(now, offset - e, mode)
      == Rounded(Num(m, e, radix1 * Pow2(radixShift), f), Den(e, radix1 * Pow2(radixShift), f), mode)
  {
    if f >= 0 || radix1 == 1 {
      ExactRounds(m, Pow(radix1, Pos(f)), e, radix1, radixShift, f, mode);
    } else {
      StickyQuotientRounds(m, now, e, radix1, radixShift, f, extra, mode);
    }
  }

  /** How many limbs are needed to round m * 2^e * radix^f. Only an exact product may have to be shifted to the left. */
  function RoundRoom(e: int, radix1: nat, radixShift: nat, f: int): nat
    requires 1 <= radix1 <= 36
  {
    if f < 0 && radix1 > 1 then Room(2, f, DigitsPerLimb(radix1), radixShift, true, e)
    else
      (if radix1 == 1 then 2 else Room(2, f, DigitsPerLimb(radix1), radixShift, true, e)) +
      Neg(0 - f * radixShift - e) / BITS + 1
  }

  /** m * 2^e * radix^f rounded to an integer, exactly, for powers of either sign. */
  method MulPowRound(tmp: Mpb, m: nat, e: int, radix1: nat, radixShift: nat, f: int, mode: Mode)
    requires tmp.Valid() && 0 < m < BASE * BASE && 1 <= radix1 <= 36 && radix1 % 2 == 1
    requires RoundRoom(e, radix1, radixShift, f) <= tmp.tab.Length
    modifies tmp, tmp.tab
    ensures tmp.Valid() && tmp.Normal()
    ensures var radix := radix1 * Pow2(radixShift);
      Den(e, radix, f) > 0 && tmp.Value() == Rounded(Num(m, e, radix, f), Den(e, radix, f), mode)
  {
    hide Pow, Val, BasePow, Rounded, Sticky, ShiftRounded;
    tmp.SetU64(m);
    var offset, extra := ScaleByPower(tmp, radix1, radixShift, f, true, e);
    ScaledRounds(m, tmp.Value(), e, radix1, radixShift, f, offset, extra, mode);
    tmp.ShiftRound(offset - e, mode);
  }
}

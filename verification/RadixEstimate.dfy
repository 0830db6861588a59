/** The estimate of the exponent and the limbs that the search for the shortest digits needs, for every radix. */
module RadixEstimate {
  import opened Powers
  import opened Limbs
  import opened RadixPowers
  import opened RadixLogs
  import opened RadixTables
  import opened MulPow
  import opened Doubles
  import opened FreeFormat

  ///// The estimate

  /** Division that rounds towards zero. */
  function TruncatedDiv(a: int, d: nat): int
    requires d > 0
  {
    if a >= 0 then a / d else 0 - (0 - a) / d
  }

  /** floor(a / log2(radix)): a division, or one multiplication and a shift. */
  function MulLog2Radix(a: int, radix: nat): int
    requires 2 <= radix <= 36
  {
    var bits := RadixBits(radix);
    if bits > 0 then TruncatedDiv(if a < 0 then a - (bits - 1) else a, bits)
    else a * LogFactor(radix) / SCALE
  }

  ///// The logarithm

  /** No integer lies between the quotient by the rounded factor and the true logarithm. */
  lemma QuotientBelow(a: nat, m: nat, q: nat, n: nat, d: nat)
    requires a <= 1074 && q * SCALE <= a * m && 1074 * (m * d - n * SCALE) < SCALE
    ensures d * q <= n * a
  {
    var t := m * d - n * SCALE;
    assert (d * q - n * a) * SCALE <= a * t by {
      MulMono(q * SCALE, a * m, d);
      MulAssoc(d, q, SCALE);
      MulAssoc(a, m, d);
      ProductDifference(a, m * d, n * SCALE);
      MulAssoc(n, a, SCALE);
      MulAssoc(a, n, SCALE);
      assert n * a == a * n;
      MulDist(d * q, n * a, SCALE);
    }
    if t <= 0 {
      MulMono(t, 0, a);
    } else {
      MulMono(a, 1074, t);
    }
  }

  lemma QuotientAbove(a: nat, m: nat, q: nat, n: nat, d: nat)
    requires a <= 1074 && a * m <= q * SCALE && 1074 * (n * SCALE - m * d) < SCALE
    ensures d * q >= n * a
  {
    var t := n * SCALE - m * d;
    assert (n * a - d * q) * SCALE <= a * t by {
      MulMono(a * m, q * SCALE, d);
      MulAssoc(d, q, SCALE);
      MulAssoc(a, m, d);
      ProductDifference(a, n * SCALE, m * d);
      MulAssoc(n, a, SCALE);
      MulAssoc(a, n, SCALE);
      assert n * a == a * n;
      MulDist(n * a, d * q, SCALE);
    }
    if t <= 0 {
      MulMono(t, 0, a);
    } else {
      MulMono(a, 1074, t);
    }
  }

  lemma ProductDifference(a: int, b: int, c: int)
    ensures a * (b - c) == a * b - a * c
  {
  }

  /** radix^q <= 2^a < radix^(q + 1), for a of either sign. */
  ghost predicate FloorLog(radix: nat, a: int, q: int) {
    if a >= 0 then q >= 0 && Pow(radix, q) <= Pow2(a) < Pow(radix, q + 1)
    else q + 1 <= 0 && Pow(radix, 0 - (q + 1)) < Pow2(0 - a) <= Pow(radix, 0 - q)
  }

  lemma OddFloorLog(radix: nat, a: int)
    requires 2 <= radix <= 36 && OddPart(radix) > 1 && -1074 <= a <= 1073
    ensures FloorLog(radix, a, MulLog2Radix(a, radix))
  {
    hide Pow, LogsOf, OddPart, LogFactor, MostDigits, TwoShift;
    var m, x, q := LogFactor(radix), LogsOf(radix), MulLog2Radix(a, radix);
    RowsOk(radix);
    RadixParts(radix);
    DivModOf(a * m, SCALE);
    MulDist(q, 1, SCALE);
    PowSmall(radix);
    PowSmall(2);
    if a > 0 {
      MulPos(a, m);
      QuotientBelow(a, m, q, x.a, x.b);
      QuotientAbove(a, m, q + 1, x.c, x.d);
      PowerBelow(radix, q, a);
      PowerAbove(radix, q + 1, a);
    } else if a < 0 {
      var n := 0 - a;
      assert a * m == 0 - n * m by { MulDist(0, n, m); }
      MulPos(n, m);
      QuotientAbove(n, m, 0 - q, x.c, x.d);
      QuotientBelow(n, m, 0 - (q + 1), x.a, x.b);
      PowerAbove(radix, 0 - q, n);
      PowerBelow(radix, 0 - (q + 1), n);
    } else {
      assert 0 * m == 0 && q == 0;
    }
  }

  lemma BinaryFloorLog(radix: nat, a: int)
    requires 2 <= radix <= 36 && RadixBits(radix) > 0
    ensures FloorLog(radix, a, MulLog2Radix(a, radix))
  {
    hide Pow, RadixBits;
    var bits, q := RadixBits(radix), MulLog2Radix(a, radix);
    assert q * bits <= a < (q + 1) * bits by { FloorOfTruncated(a, bits); }
    MulDist(q, 1, bits);
    if a >= 0 {
      if q < 0 {
        MulMono(q + 1, 0, bits);
      }
      PowOfPow(2, bits, q);
      PowOfPow(2, bits, q + 1);
      assert bits * q == q * bits && bits * (q + 1) == (q + 1) * bits;
      PowMono(2, q * bits, a);
      PowStrict(2, a, (q + 1) * bits);
    } else {
      if q >= 0 {
        MulNonNeg(q, bits);
      }
      PowOfPow(2, bits, 0 - q);
      PowOfPow(2, bits, 0 - (q + 1));
      ProductDifference(bits, 0, q);
      ProductDifference(bits, 0, q + 1);
      assert bits * q == q * bits && bits * (q + 1) == (q + 1) * bits && bits * 0 == 0;
      PowMono(2, 0 - a, 0 - q * bits);
      PowStrict(2, 0 - (q + 1) * bits, 0 - a);
    }
  }

  /** Adding d - 1 below zero turns truncation into the floor. */
  lemma FloorOfTruncated(a: int, d: nat)
    requires d > 0
    ensures var q := TruncatedDiv(if a < 0 then a - (d - 1) else a, d); q * d <= a < (q + 1) * d
  {
    if a >= 0 {
      DivModOf(a, d);
      MulDist(a / d, 1, d);
    } else {
      var n := 0 - a + (d - 1);
      DivModOf(n, d);
      MulDist(0, n / d, d);
      MulDist(0 - n / d, 1, d);
    }
  }

  /** The estimate is exact for every radix and every exponent of a double. */
  lemma EstimateIsExact(radix: nat, e: int)
    requires 2 <= radix <= 36 && -1073 <= e <= 1024
    ensures EstimateOk(radix, e, 1 + MulLog2Radix(e - 1, radix))
  {
    hide FloorLog, EstimateOk, MulLog2Radix, OddPart, RadixBits;
    RadixParts(radix);
    if OddPart(radix) > 1 {
      OddFloorLog(radix, e - 1);
    } else {
      BinaryFloorLog(radix, e - 1);
    }
    EstimateFrom(radix, e, MulLog2Radix(e - 1, radix));
  }

  lemma EstimateFrom(radix: nat, e: int, q: int)
    requires -1073 <= e <= 1024 && radix > 0 && FloorLog(radix, e - 1, q)
    ensures EstimateOk(radix, e, q + 1)
  {
    hide Pow;
    var a := e - 1;
    var c := Pow2(1074);
    PowPos(2, 1074);
    PowSmall(radix);
    if a >= 0 {
      PowAdd(2, 1074, a);
      MulMono(Pow(radix, q), Pow2(a), c);
      MulStrict(Pow2(a), Pow(radix, q + 1), c);
    } else {
      PowAdd(2, 1074 + a, 0 - a);
      var d := Pow2(1074 + a);
      PowPos(2, 1074 + a);
      MulMono(Pow2(0 - a), Pow(radix, 0 - q), d);
      MulStrict(Pow(radix, 0 - (q + 1)), Pow2(0 - a), d);
    }
  }

  ///// The digits

  /** So many digits fit in 63 bits, and one less are worth 53 bits. */
  lemma MostDigitsFit(radix: nat)
    requires 2 <= radix <= 36
    ensures 0 < MostDigits(radix) <= 54 && 2 * Pow(radix, MostDigits(radix)) < BASE * BASE
    ensures Pow(radix, MostDigits(radix) - 1) >= TWO53
  {
    hide Pow, LogsOf, OddPart, TwoShift;
    var p := MostDigits(radix);
    RadixParts(radix);
    Pow2Of32();
    PowAdd(2, 32, 32);
    PowAdd(2, 1, 63);
    PowSmall(2);
    TwoPowers();
    if OddPart(radix) > 1 {
      RowsOk(radix);
      PowerBelow(radix, p, 63);
      PowerAbove(radix, p - 1, 53);
    } else {
      var bits := RadixBits(radix);
      BinaryRow(radix);
      PowOfPow(2, bits, p);
      PowOfPow(2, bits, p - 1);
      PowMono(2, bits * p, 62);
      PowMono(2, 53, bits * (p - 1));
      PowStrict(2, 62, 63);
    }
  }

  ///// The buffer

  /** The limbs for scaling the significand to `p` digits and for reading these digits back. */
  ghost predicate FitsIn(radix1: nat, radixShift: nat, e: int, p: nat, x: int, room: nat)
    requires 1 <= radix1 <= 36
  {
    RoundRoom(e - 53, radix1, radixShift, p - x) <= room && BackRoom(radix1, radixShift, x - p) <= room
  }

  ghost function BackRoom(radix1: nat, radixShift: nat, f: int): nat
    requires 1 <= radix1 <= 36
  {
    (if radix1 == 1 then 2 else Room(2, f, DigitsPerLimb(radix1), radixShift, false, 55)) + 2
  }

  /** The exponents that come up: the estimate and the next. */
  ghost predicate NearEstimate(radix: nat, e: int, x: int)
    requires 2 <= radix <= 36
  {
    1 + MulLog2Radix(e - 1, radix) <= x <= 2 + MulLog2Radix(e - 1, radix)
  }

  /** So many digits and places take no more than `MOST_LIMBS` limbs. */
  lemma LimbsFor(f: nat, d: nat)
    requires d > 0 && f <= MOST_LIMBS * d
    ensures (f + d - 1) / d <= MOST_LIMBS
  {
    MulDist(MOST_LIMBS, 1, d);
    DivLess(f + d - 1, d, MOST_LIMBS + 1);
  }

  /** The exponent, scaled, against the places. */
  lemma ScaledExponent(radix: nat, e: int, x: int)
    requires 2 <= radix <= 36 && OddPart(radix) > 1 && -1073 <= e <= 1024 && NearEstimate(radix, e, x)
    ensures var m := LogFactor(radix); (e - 1) * m < x * SCALE && (x - 2) * SCALE <= (e - 1) * m
  {
    hide LogFactor, OddPart;
    assert RadixBits(radix) == 0 by {
      RadixParts(radix);
    }
    var m, q := LogFactor(radix), MulLog2Radix(e - 1, radix);
    DivModOf((e - 1) * m, SCALE);
  }

  /** At most this many places, up or down. */
  lemma PlacesBound(radix: nat, e: int, p: nat, x: int)
    requires 2 <= radix <= 36 && OddPart(radix) > 1 && -1073 <= e <= 1024 && NearEstimate(radix, e, x)
    requires 1 <= p <= MostDigits(radix)
    ensures var d := DigitsPerLimb(OddPart(radix)); p - x <= MOST_LIMBS * d && x - p <= MOST_LIMBS * d
  {
    hide LogFactor, OddPart, MostDigits, LogsOf, TwoShift, NearEstimate;
    var m, d := LogFactor(radix), DigitsPerLimb(OddPart(radix));
    RowsOk(radix);
    ScaledExponent(radix, e, x);
    assert -1074 * m <= (e - 1) * m <= 1023 * m by {
      MulMono(-1074, e - 1, m);
      MulMono(e - 1, 1023, m);
    }
    MulCancel(p - x, MOST_LIMBS * d + 1, SCALE);
  }

  /** The exact product has less than 12 bits too few. */
  lemma ShortLeftShift(radix: nat, e: int, p: nat, x: int)
    requires 2 <= radix <= 36 && OddPart(radix) > 1 && -1073 <= e <= 1024 && NearEstimate(radix, e, x)
    requires 1 <= p <= MostDigits(radix) && p >= x
    ensures (p - x) * TwoShift(radix) + (e - 53) < 12
  {
    hide LogFactor, OddPart, MostDigits, LogsOf, TwoShift, NearEstimate;
    var m, k, f := LogFactor(radix), TwoShift(radix), p - x;
    RowsOk(radix);
    ScaledExponent(radix, e, x);
    MulMono(m * k, SCALE, f);
    MulAssoc(f, k, m);
    assert (f * k + (e - 1)) * m < 64 * m by {
      MulDist(f * k, e - 1, m);
      MulDist(p, x, SCALE);
      assert k * m == m * k;
    }
    MulCancel(f * k + (e - 1), 64, m);
  }

  /** The limbs added for a division outweigh the exponent. */
  lemma NoExtraBits(radix: nat, e: int, p: nat, x: int, l: nat)
    requires 2 <= radix <= 36 && OddPart(radix) > 1 && -1073 <= e <= 1024 && NearEstimate(radix, e, x)
    requires 1 <= p <= MostDigits(radix) && p <= x && x - p <= l * DigitsPerLimb(OddPart(radix))
    ensures 2 + (e - 53) + (p - x) * TwoShift(radix) - l * BITS < 14
  {
    hide LogFactor, OddPart, MostDigits, LogsOf, TwoShift, NearEstimate;
    var m, k, n, d := LogFactor(radix), TwoShift(radix), x - p, DigitsPerLimb(OddPart(radix));
    RowsOk(radix);
    ScaledExponent(radix, e, x);
    var rest := SCALE - m * k;
    assert n * rest <= l * BITS * m by {
      MulMono(n, l * d, rest);
      MulAssoc(l, d, rest);
      MulMono(d * rest, 32 * m, l);
      MulAssoc(l, 32, m);
    }
    assert n * SCALE == n * rest + n * k * m by {
      ProductDifference(n, SCALE, m * k);
      MulAssoc(n, k, m);
      assert k * m == m * k;
    }
    assert ((e - 1) - n * k - l * BITS) * m < 64 * m by {
      MulDist(e - 1, n * k, m);
      MulDist((e - 1) - n * k, l * BITS, m);
      MulDist(x, p, SCALE);
    }
    MulCancel((e - 1) - n * k - l * BITS, 64, m);
    assert (p - x) * k == 0 - n * k by {
      MulDist(0, n, k);
    }
  }

  lemma OddFits(radix: nat, e: int, p: nat, x: int)
    requires 2 <= radix <= 36 && OddPart(radix) > 1 && -1073 <= e <= 1024 && NearEstimate(radix, e, x)
    requires 1 <= p <= MostDigits(radix)
    ensures FitsIn(OddPart(radix), TwoShift(radix), e, p, x, BUFFER_LIMBS)
  {
    hide OddPart, MostDigits, TwoShift, NearEstimate, DigitsPerLimb;
    var d, f := DigitsPerLimb(OddPart(radix)), p - x;
    PlacesBound(radix, e, p, x);
    if f >= 0 {
      LimbsFor(f, d);
      ShortLeftShift(radix, e, p, x);
      assert 0 - f * TwoShift(radix) - (e - 53) > -12;
    } else {
      LimbsFor(0 - f, d);
      var l := (0 - f + d - 1) / d;
      DivModOf(0 - f + d - 1, d);
      NoExtraBits(radix, e, p, x, l);
    }
  }

  lemma BinaryFits(radix: nat, e: int, p: nat, x: int)
    requires 2 <= radix <= 36 && RadixBits(radix) > 0 && -1073 <= e <= 1024 && NearEstimate(radix, e, x)
    requires 1 <= p <= MostDigits(radix)
    ensures FitsIn(1, RadixBits(radix), e, p, x, BUFFER_LIMBS)
  {
    hide RadixBits, MostDigits;
    var bits, q := RadixBits(radix), MulLog2Radix(e - 1, radix);
    FloorOfTruncated(e - 1, bits);
    BinaryRow(radix);
    MulMono(q + 1, x, bits);
    MulMono(p, MostDigits(radix), bits);
    MulDist(p, x, bits);
    assert bits * MostDigits(radix) == MostDigits(radix) * bits;
    assert 0 - (p - x) * bits - (e - 53) > -8;
  }

  /** The buffer is large enough for every radix, every double, every number of digits and both exponents. */
  lemma BufferIsEnough(radix: nat, e: int, p: nat, x: int)
    requires 2 <= radix <= 36 && -1073 <= e <= 1024 && NearEstimate(radix, e, x) && 1 <= p <= MostDigits(radix)
    ensures FitsIn(OddPart(radix), TwoShift(radix), e, p, x, BUFFER_LIMBS)
  {
    hide OddPart, MostDigits, TwoShift, NearEstimate, FitsIn, RadixBits;
    RadixParts(radix);
    if OddPart(radix) > 1 {
      OddFits(radix, e, p, x);
    } else {
      BinaryFits(radix, e, p, x);
    }
  }
}

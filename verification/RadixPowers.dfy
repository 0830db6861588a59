/** Small powers of a radix (`pow_ui`, `pow_ui_inv` and their tables in dtoa.c). */
module RadixPowers {
  import opened Powers
  import opened Limbs
  import opened InvariantDivision
  import opened Bignum

  /** How many digits of each radix from 2 to 36 fit in a limb. */
  const DIGITS_PER_LIMB: seq<nat> :=
    [32, 20, 16, 13, 12, 11, 10, 10, 9, 9, 8, 8, 8, 8, 8, 7, 7, 7, 7, 7, 7, 7, 6, 6, 6, 6, 6, 6, 6, 6, 6, 6, 6, 6, 6]

  function DigitsPerLimb(radix: nat): (d: nat)
    requires 2 <= radix <= 36
    ensures 0 < d <= 32 && 0 < Pow(radix, d) <= BASE
    ensures Pow(radix, d) == BASE ==> radix == 2 || radix == 4 || radix == 16
  {
    DigitsFit(radix);
    PowPos(radix, DIGITS_PER_LIMB[radix - 2]);
    DIGITS_PER_LIMB[radix - 2]
  }

  lemma PowByHalves(b: nat, n: nat)
    ensures Pow(b, 2 * n) == Pow(b, n) * Pow(b, n)
    ensures Pow(b, 2 * n + 1) == b * (Pow(b, n) * Pow(b, n))
  {
    PowAdd(b, n, n);
  }

  lemma SmallPowers(b: nat)
    ensures Pow(b, 2) == b * b && Pow(b, 3) == b * (b * b) && Pow(b, 4) == (b * b) * (b * b)
    ensures Pow(b, 5) == b * ((b * b) * (b * b)) && Pow(b, 6) == (b * (b * b)) * (b * (b * b))
    ensures Pow(b, 7) == b * ((b * (b * b)) * (b * (b * b))) && Pow(b, 8) == ((b * b) * (b * b)) * ((b * b) * (b * b))
  {
    hide Pow;
    PowSmall(b);
    PowByHalves(b, 1);
    PowByHalves(b, 2);
    PowByHalves(b, 3);
    PowByHalves(b, 4);
  }

  lemma DigitsFit(radix: nat)
    requires 2 <= radix <= 36
    ensures DIGITS_PER_LIMB[radix - 2] > 0 && Pow(radix, DIGITS_PER_LIMB[radix - 2]) <= BASE
    ensures Pow(radix, DIGITS_PER_LIMB[radix - 2]) == BASE ==> radix == 2 || radix == 4 || radix == 16
  {
    hide Pow;
    RadixBaseFits(radix);
  }

  /** The radix to the number of digits that fit in a limb; 2^32 is written as zero. */
  const RADIX_BASE: seq<Limb> := [
    0x00000000, 0xcfd41b91, 0x00000000, 0x48c27395, 0x81bf1000, 0x75db9c97, 0x40000000, 0xcfd41b91, 0x3b9aca00,
    0x8c8b6d2b, 0x19a10000, 0x309f1021, 0x57f6c100, 0x98c29b81, 0x00000000, 0x18754571, 0x247dbc80, 0x3547667b,
    0x4c4b4000, 0x6b5a6e1d, 0x94ace180, 0xcaf18367, 0x0b640000, 0x0e8d4a51, 0x1269ae40, 0x17179149, 0x1cb91000,
    0x23744899, 0x2b73a840, 0x34e63b41, 0x40000000, 0x4cfa3cc1, 0x5c13d840, 0x6d91b519, 0x81bf1000]

  ghost predicate BaseFits(radix: nat)
    requires 2 <= radix <= 36
  {
    Pow(radix, DIGITS_PER_LIMB[radix - 2]) == if RADIX_BASE[radix - 2] == 0 then BASE else RADIX_BASE[radix - 2]
  }

  function RadixBase(radix: nat): (b: Limb)
    requires 2 <= radix <= 36
    ensures Pow(radix, DigitsPerLimb(radix)) == if b == 0 then BASE else b
  {
    RadixBaseFits(radix);
    RADIX_BASE[radix - 2]
  }

  lemma RadixBaseFits(radix: nat)
    requires 2 <= radix <= 36
    ensures BaseFits(radix)
  {
    hide BaseFits, Pow;
    if radix <= 11 {
      SmallRadixBase(radix);
    } else if radix <= 16 {
      EightDigits(radix);
    } else if radix <= 23 {
      SevenDigits(radix);
    } else {
      SixDigits(radix);
    }
  }

  lemma EightDigits(radix: nat)
    requires 12 <= radix <= 16
    ensures BaseFits(radix)
  {
    hide Pow;
    SmallPowers(radix);
    var squares := [144, 169, 196, 225, 256];
    var q := squares[radix - 12];
    assert radix * radix == q;
    var r := [20736, 28561, 38416, 50625, 65536][radix - 12];
    assert q * q == r;
    assert Pow(radix, 8) == r * r;
  }

  lemma SevenDigits(radix: nat)
    requires 17 <= radix <= 23
    ensures BaseFits(radix)
  {
    hide Pow;
    SmallPowers(radix);
    var q := [289, 324, 361, 400, 441, 484, 529][radix - 17];
    assert radix * radix == q;
    var r := [4913, 5832, 6859, 8000, 9261, 10648, 12167][radix - 17];
    assert radix * q == r;
    assert Pow(radix, 7) == radix * (r * r);
  }

  lemma SixDigits(radix: nat)
    requires 24 <= radix <= 36
    ensures BaseFits(radix)
  {
    hide Pow;
    SmallPowers(radix);
    var q := [576, 625, 676, 729, 784, 841, 900, 961, 1024, 1089, 1156, 1225, 1296][radix - 24];
    assert radix * radix == q;
    var r := [13824, 15625, 17576, 19683, 21952, 24389, 27000, 29791, 32768, 35937, 39304, 42875, 46656][radix - 24];
    assert radix * q == r;
    assert Pow(radix, 6) == r * r;
  }

  lemma SmallRadixBase(radix: nat)
    requires 2 <= radix <= 11
    ensures BaseFits(radix)
  {
    hide Pow;
    SmallPowers(radix);
    if radix == 2 {
      Pow2Of32();
    } else if radix == 3 {
      PowByHalves(3, 5);
      PowByHalves(3, 10);
    } else if radix == 4 {
      PowByHalves(4, 8);
    } else if radix == 5 || radix == 6 {
      PowByHalves(radix, 6);
    } else {
      PowByHalves(radix, 4);
      PowByHalves(radix, 5);
    }
  }

  ///// Powers of five

  const POW5: seq<Limb> := [
    0x5, 0x19, 0x7d, 0x271, 0xc35, 0x3d09, 0x1312d, 0x5f5e1, 0x1dcd65, 0x9502f9, 0x2e90edd, 0xe8d4a51,
    0x48c27395, 0x6bcc41e9, 0x1afd498d, 0x86f26fc1, 0xa2bc2ec5]

  const POW5_HIGH: seq<Limb> := [0x1, 0x7, 0x23, 0xb1]

  const POW5_INVERSE: seq<Limb> := [
    0x99999999, 0x47ae147a, 0x0624dd2f, 0xa36e2eb1, 0x4f8b588e, 0x0c6f7a0b, 0xad7f29ab, 0x5798ee23,
    0x12e0be82, 0xb7cdfd9d, 0x5fd7fe17, 0x19799812, 0xc25c2684]

  function TablePower(b: nat): nat
    requires 1 <= b <= 17
  {
    POW5[b - 1] + (if b >= 14 then POW5_HIGH[b - 14] * BASE else 0)
  }

  /** Each entry is five times the one before. */
  lemma {:induction false} TableIsPower(b: nat)
    requires 1 <= b <= 17
    ensures TablePower(b) == Pow(5, b)
  {
    if b == 1 {
      PowSmall(5);
    } else {
      TableIsPower(b - 1);
      assert TablePower(b) == 5 * TablePower(b - 1);
    }
  }

  /** The inverses of the normalized powers of five. */
  lemma TableIsInverse(b: nat, z: nat, d: Limb)
    requires 1 <= b <= 13 && z < BITS && d == POW5[b - 1] * Pow2(z) && d >= HALF
    ensures POW5_INVERSE[b - 1] == Inverse(d)
  {
    hide Pow;
    var y := [29, 27, 25, 22, 20, 18, 15, 13, 11, 8, 6, 4, 1][b - 1];
    TableShift(b, y);
    NormalizedOnly(POW5[b - 1], y, z);
    InverseOnly(d, POW5_INVERSE[b - 1]);
  }

  lemma {:induction false} Pow2Table(k: nat)
    requires k <= 31
    ensures Pow2(k) == [0x1, 0x2, 0x4, 0x8, 0x10, 0x20, 0x40, 0x80, 0x100, 0x200, 0x400, 0x800, 0x1000, 0x2000, 0x4000,
      0x8000, 0x10000, 0x20000, 0x40000, 0x80000, 0x100000, 0x200000, 0x400000, 0x800000, 0x1000000, 0x2000000,
      0x4000000, 0x8000000, 0x10000000, 0x20000000, 0x40000000, 0x80000000][k]
  {
    if k > 0 {
      Pow2Table(k - 1);
    }
  }

  ghost predicate TableEntryFits(b: nat, y: nat)
    requires 1 <= b <= 13
  {
    var d, v := POW5[b - 1] * Pow2(y), POW5_INVERSE[b - 1];
    HALF <= d < BASE && (v + BASE) * d <= BASE * BASE - 1 < (v + BASE + 1) * d
  }

  lemma TableShift(b: nat, y: nat)
    requires 1 <= b <= 13 && y == [29, 27, 25, 22, 20, 18, 15, 13, 11, 8, 6, 4, 1][b - 1]
    ensures TableEntryFits(b, y)
  {
    if b <= 4 {
      TableShiftLow(b, y);
    } else if b <= 8 {
      TableShiftMiddle(b, y);
    } else {
      TableShiftHigh(b, y);
    }
  }

  lemma TableShiftLow(b: nat, y: nat)
    requires 1 <= b <= 4 && y == [29, 27, 25, 22][b - 1]
    ensures TableEntryFits(b, y)
  {
    hide Pow;
    Pow2Table(y);
  }

  lemma TableShiftMiddle(b: nat, y: nat)
    requires 5 <= b <= 8 && y == [20, 18, 15, 13][b - 5]
    ensures TableEntryFits(b, y)
  {
    hide Pow;
    Pow2Table(y);
  }

  lemma TableShiftHigh(b: nat, y: nat)
    requires 9 <= b <= 13 && y == [11, 8, 6, 4, 1][b - 9]
    ensures TableEntryFits(b, y)
  {
    hide Pow;
    Pow2Table(y);
  }

  /** Only one shift brings the top bit to its place. */
  lemma NormalizedOnly(p: nat, y: nat, z: nat)
    requires HALF <= p * Pow2(y) < BASE && HALF <= p * Pow2(z) < BASE
    ensures y == z
  {
    if y < z {
      TwiceAsHigh(p, y, z);
    } else if z < y {
      TwiceAsHigh(p, z, y);
    }
  }

  lemma TwiceAsHigh(p: nat, lo: nat, hi: nat)
    requires lo < hi
    ensures p * Pow2(hi) >= 2 * (p * Pow2(lo))
  {
    hide Pow;
    PowAdd(2, lo, hi - lo);
    PowMono(2, 1, hi - lo);
    PowSmall(2);
    MulAssoc(p, Pow2(lo), Pow2(hi - lo));
    MulNonNeg(p, Pow2(lo));
    MulMono(2, Pow2(hi - lo), p * Pow2(lo));
  }

  lemma InverseOnly(d: Limb, v: Limb)
    requires d >= HALF && (v + BASE) * d <= BASE * BASE - 1 < (v + BASE + 1) * d
    ensures v == Inverse(d)
  {
    var w := Inverse(d);
    MulCancel(w + BASE, v + BASE + 1, d);
    MulCancel(v + BASE, w + BASE + 1, d);
  }

  ///// Powers

  /** a^b, when it fits in 64 bits. */
  method PowUi(a: nat, b: nat) returns (r: nat)
    requires 0 < a < BASE && b < BASE && Pow(a, b) < BASE * BASE
    ensures r == Pow(a, b)
  {
    hide Pow;
    PowSmall(a);
    if b == 0 {
      return 1;
    }
    if b == 1 {
      return a;
    }
    if (a == 5 || a == 10) && b <= 17 {
      r := TablePower(b);
      TableIsPower(b);
      if a == 10 {
        PowOfProduct(5, 2, b);
        r := r * Pow2(b);
      }
      return;
    }
    r := PowBySquares(a, b);
  }

  method PowBySquares(a: nat, b: nat) returns (r: nat)
    requires 1 < b < BASE
    ensures r == Pow(a, b)
  {
    hide Pow, LeadingZeros;
    PowSmall(a);
    r := a;
    var nBits := BITS - LeadingZeros(b);
    TopOne(b, nBits - 1);
    var i: int := nBits - 2;
    while i >= 0
      invariant -1 <= i <= nBits - 2 && Pow2(i + 1) > 0
      invariant r == Pow(a, b / Pow2(i + 1))
    {
      ghost var h := b / Pow2(i + 1);
      HalfBits(b, i);
      PowByHalves(a, h);
      r := r * r;
      if b / Pow2(i) % 2 == 1 {
        r := a * r;
      }
      i := i - 1;
    }
    PowSmall(2);
    DivModIs(b, 1, b, 0);
  }

  lemma TopOne(b: nat, k: nat)
    requires Pow2(k) <= b < Pow2(k + 1)
    ensures Pow2(k) > 0 && b / Pow2(k) == 1
  {
    hide Pow;
    PowPos(2, k);
    PowAdd(2, k, 1);
    PowSmall(2);
    DivModIs(b, Pow2(k), 1, b - Pow2(k));
  }

  lemma HalfBits(b: nat, i: nat)
    ensures Pow2(i) > 0 && Pow2(i + 1) > 0
    ensures b / Pow2(i) == 2 * (b / Pow2(i + 1)) + b / Pow2(i) % 2
  {
    hide Pow;
    PowPos(2, i);
    PowAdd(2, i, 1);
    PowSmall(2);
    PowPos(2, i + 1);
    DivTwice(b, Pow2(i), 2);
  }

  /** a^b shifted until its top bit is set, the shift, and the inverse. */
  method PowUiInv(a: nat, b: nat) returns (r: Limb, inv: Limb, shift: nat)
    requires 0 < a < BASE && b < BASE && 0 < Pow(a, b) < BASE
    ensures shift < BITS && r == Pow(a, b) * Pow2(shift) && r >= HALF && inv == Inverse(r)
  {
    hide Pow, Inverse;
    if a == 5 && 1 <= b <= 13 {
      TableIsPower(b);
      r := POW5[b - 1];
      shift := LeadingZeros(r);
      Normalize(r, shift);
      r := r * Pow2(shift);
      TableIsInverse(b, shift, r);
      inv := POW5_INVERSE[b - 1];
    } else {
      var p := PowUi(a, b);
      shift := LeadingZeros(p);
      Normalize(p, shift);
      r := p * Pow2(shift);
      inv := Inverse(r);
    }
  }

  lemma Normalize(p: Limb, z: nat)
    requires p > 0 && z == LeadingZeros(p)
    ensures HALF <= p * Pow2(z) < BASE
  {
    hide Pow;
    Pow2Of32();
    PowAdd(2, BITS - 1 - z, z);
    PowAdd(2, BITS - z, z);
    PowPos(2, z);
    MulMono(Pow2(BITS - 1 - z), p, Pow2(z));
    MulStrict(p, Pow2(BITS - z), Pow2(z));
  }
}

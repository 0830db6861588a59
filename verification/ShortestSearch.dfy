/** The loop of `js_dtoa` in dtoa.c that tries fewer and fewer digits. */
module ShortestSearch {
  import opened Powers
  import opened Limbs
  import opened Rounding
  import opened Bignum
  import opened RadixPowers
  import opened RadixLogs
  import opened MulPow
  import opened Doubles
  import opened RoundToDouble
  import opened NearestDoubles
  import opened ShortestDigits
  import opened FreeFormat
  import opened ClosestDigits
  import opened LopsidedDoubles
  import opened RadixTables
  import opened RadixEstimate

  ///// The search

  /** The digits for a given number of places, at the estimated exponent or the next. */
  method FirstFit(tmp: Mpb, m: nat, e: int, radix: nat, radix1: nat, radixShift: nat, exp0: int, p: nat, ghost b: nat)
    returns (mant: nat, exp: int)
    requires tmp.Valid() && tmp.tab.Length >= BUFFER_LIMBS && Decoded(b, m, e) && 2 <= radix <= 36 &&
      1 <= p <= MostDigits(radix)
    requires radix1 == OddPart(radix) && radixShift == TwoShift(radix) && exp0 == 1 + MulLog2Radix(e - 1, radix)
    modifies tmp, tmp.tab
    ensures tmp.Valid() && exp0 <= exp <= exp0 + 1 && Best(b, radix, p, exp, mant)
  {
    hide Pow, Rounded, OnGrid, EstimateOk, Best, Encode, RoundRoom, Room, Decoded, BasePow, Val, MostDigits, OddPart,
      TwoShift, MulLog2Radix;
    PlacesFit(radix, p);
    SignificandFits(b, m, e);
    RadixParts(radix);
    EstimateIsExact(radix, e);
    var mantMax := PowUi(radix, p);
    exp := exp0;
    BestAtEstimate(b, m, e, radix, exp0, p);
    while true
      invariant tmp.Valid() && exp0 <= exp <= exp0 + 1
      invariant exp == exp0 + 1 ==> OnGrid(b, radix, exp0 - p) >= Pow(radix, p)
      decreases exp0 + 1 - exp
    {
      BufferIsEnough(radix, e, p, exp);
      MulPowRound(tmp, m, e - 53, radix1, radixShift, p - exp, Nearest);
      RoundedOnGrid(b, m, e, radix, p - exp);
      assert tmp.Value() == OnGrid(b, radix, exp - p);
      if exp == exp0 + 1 {
        BestAboveEstimate(b, m, e, radix, exp0, p);
        BestIs(b, radix, p, exp, tmp.Value());
      }
      mant := tmp.GetU64();
      if mant < mantMax {
        break;
      }
      exp := exp + 1;
    }
  }

  lemma SignificandFits(b: nat, m: nat, e: int)
    requires Decoded(b, m, e)
    ensures 0 < m < BASE * BASE && -1073 <= e <= 1024 && 0 < b < INFINITY
  {
  }

  lemma PlacesFit(radix: nat, p: nat)
    requires 2 <= radix <= 36 && p <= MostDigits(radix)
    ensures 2 * Pow(radix, p) < BASE * BASE && p < BASE
  {
    hide MostDigits;
    MostDigitsFit(radix);
    PowMono(radix, p, MostDigits(radix));
  }

  /** Removes the trailing zeros of a number of `p0` digits. */
  method StripZeros(mant0: nat, p0: nat, radix: nat) returns (mant: nat, p: nat)
    requires radix > 1 && p0 > 0 && Pow(radix, p0 - 1) <= mant0 < Pow(radix, p0)
    ensures 1 <= p <= p0 && ProperDigits(radix, mant, p) && mant0 == mant * Pow(radix, p0 - p)
  {
    hide Pow;
    mant, p := mant0, p0;
    PowSmall(radix);
    while mant % radix == 0
      invariant 1 <= p <= p0 && Pow(radix, p - 1) <= mant < Pow(radix, p)
      invariant mant0 == mant * Pow(radix, p0 - p)
      decreases p
    {
      OneZeroLess(mant, p, p0, radix);
      mant := mant / radix;
      p := p - 1;
    }
  }

  lemma OneZeroLess(mant: nat, p: nat, p0: nat, radix: nat)
    requires radix > 1 && 1 <= p <= p0 && Pow(radix, p - 1) <= mant < Pow(radix, p) && mant % radix == 0
    ensures p > 1 && Pow(radix, p - 2) <= mant / radix < Pow(radix, p - 1)
    ensures mant * Pow(radix, p0 - p) == mant / radix * Pow(radix, p0 - (p - 1))
  {
    hide Pow;
    var q := mant / radix;
    DivModOf(mant, radix);
    PowSmall(radix);
    PowPos(radix, p - 1);
    assert q > 0 by {
      assert q * radix > 0;
      if q <= 0 {
        MulMono(q, 0, radix);
      }
    }
    if p == 1 {
      MulMono(1, q, radix);
      assert false;
    }
    PowAdd(radix, 1, p - 1);
    PowAdd(radix, 1, p - 2);
    PowAdd(radix, 1, p0 - p);
    assert radix * Pow(radix, p - 1) == Pow(radix, p - 1) * radix &&
      radix * Pow(radix, p - 2) == Pow(radix, p - 2) * radix;
    MulCancelLe(Pow(radix, p - 2), q, radix);
    MulCancel(q, Pow(radix, p - 1), radix);
    MulAssoc(q, radix, Pow(radix, p0 - p));
  }

  /** Reads the digits back. */
  method ReadBack(tmp: Mpb, mant: nat, g: int, radix: nat, radix1: nat, radixShift: nat, m: nat, e: int, ghost b: nat)
    returns (same: bool)
    requires 1 <= radix1 <= 36 && radix1 % 2 == 1 && radix == radix1 * Pow2(radixShift) && radix > 0 &&
      tmp.tab.Length >= 2
    requires tmp.Valid() && BackRoom(radix1, radixShift, g) <= tmp.tab.Length && 0 < mant < BASE * BASE &&
      Decoded(b, m, e)
    modifies tmp, tmp.tab
    ensures tmp.Valid() && (same <==> ReadsBack(b, radix, mant, g))
  {
    hide Pow, Encode, IsNearest, Canonical, Decoded, Val, BasePow, GridNum, GridDen, Num, Den;
    tmp.SetU64(mant);
    assert tmp.tab.Length >=
      2 + if radix1 == 1 then tmp.len else Room(tmp.len, g, DigitsPerLimb(radix1), radixShift, false, 55);
    var m1, e1 := MulPowRoundToD(tmp, radix1, radixShift, g);
    GridIs(mant, radix, g);
    same := m1 == m && e1 == e;
    SameDouble(GridNum(mant, radix, g), GridDen(radix, g), b, m, e, m1, e1);
  }

  lemma SameDouble(n: nat, d: nat, b: nat, m: nat, e: int, m1: nat, e1: int)
    requires d > 0 && Decoded(b, m, e) && (m1 == 0 || Canonical(m1, e1)) && IsNearest(n, d, Encode(m1, e1))
    ensures m1 == m && e1 == e <==> IsNearest(n, d, b)
  {
    hide IsNearest;
    DecodedIs(b, m, e);
    if IsNearest(n, d, b) {
      NearestOnly(n, d, b, Encode(m1, e1));
      EncodeInjective(b, m, e, m1, e1);
    }
  }

  /** The digits found read back and no number with as many digits is closer. They are the fewest if and only if, for
      every smaller number of digits than the search starts with, the closest number decides; unless the double is a
      power of two it does. */
  method Search(tmp: Mpb, m: nat, e: int, radix: nat, ghost b: nat) returns (mant: nat, p: nat, exp: int)
    requires tmp.Valid() && tmp.tab.Length >= BUFFER_LIMBS && Decoded(b, m, e) && 2 <= radix <= 36
    modifies tmp, tmp.tab
    ensures tmp.Valid() && Found(b, radix, MostDigits(radix), mant, p, exp) && NearEstimate(radix, e, exp)
    ensures NoneShorter(b, radix, p - 1) <==> ClosestDecidesBelow(b, radix, MostDigits(radix))
    ensures !Lopsided(b) ==> NoneShorter(b, radix, p - 1)
  {
    hide Pow, IsNearest, Best, Decoded, Room, Val, BasePow, GridNum, GridDen, NoneCloser, NoneShorter, ClosestReadsBack,
      ReadsBack, ClosestDecidesBelow, MostDigits, OddPart, TwoShift, MulLog2Radix, RoundRoom, BackRoom;
    var radixShift, radix1 := TwoShift(radix), OddPart(radix);
    var exp0, pTry, pFound := 1 + MulLog2Radix(e - 1, radix), MostDigits(radix), 0;
    mant, exp := 0, 0;
    SignificandFits(b, m, e);
    RadixParts(radix);
    MostDigitsFit(radix);
    while true
      invariant tmp.Valid() && 1 <= pTry <= MostDigits(radix)
      invariant if pFound == 0 then pTry == MostDigits(radix) else pTry == pFound - 1 && pFound <= MostDigits(radix)
      invariant pFound > 0 ==> NearEstimate(radix, e, exp) && ProperDigits(radix, mant, pFound)
      invariant pFound > 0 ==>
        ReadsBack(b, radix, mant, exp - pFound) && NoneCloser(b, radix, pFound, mant, exp - pFound)
      invariant pFound > 0 ==> forall q :: pFound <= q <= MostDigits(radix) ==> ClosestReadsBack(b, radix, q)
      decreases pTry
    {
      ghost var p0 := pTry;
      var mant1, exp1 := FirstFit(tmp, m, e, radix, radix1, radixShift, exp0, pTry, b);
      ghost var mant0 := mant1;
      BestIs(b, radix, p0, exp1, mant0);
      mant1, pTry := StripZeros(mant1, pTry, radix);
      SameReadsBack(b, radix, exp1 - p0, p0 - pTry, mant1);
      StrippedIsClosest(b, radix, p0, exp1, mant0, pTry, mant1);
      BestReadsAlike(b, radix, p0, exp1, mant0);
      if pFound == 0 {
        BestReadsBack(b, radix, p0, exp1, mant0);
      } else {
        BufferIsEnough(radix, e, pTry, exp1);
        PlacesFit(radix, pTry);
        PowPos(radix, pTry - 1);
        var same := ReadBack(tmp, mant1, exp1 - pTry, radix, radix1, radixShift, m, e, b);
        if !same {
          break;
        }
      }
      SkippedReadBack(b, radix, p0, exp1, mant0, pTry, mant1);
      pFound, exp, mant := pTry, exp1, mant1;
      if pTry == 1 {
        break;
      }
      pTry := pTry - 1;
    }
    p := pFound;
    FewestIff(b, radix, MostDigits(radix), mant, p, exp);
    if !Lopsided(b) {
      FewestUnlessLopsided(b, radix, MostDigits(radix), mant, p, exp);
    }
  }
}

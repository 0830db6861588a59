/** Big natural numbers in a fixed buffer (`mpb_t` of dtoa.c). */
module Bignum {
  import opened Powers
  import opened Limbs
  import opened Rounding

  ///// Bits of a number and bits of its limbs

  /** Leaving limbs out at the low end divides by a power of the base. */
  lemma DropLimbs(s: seq<Limb>, l: nat)
    requires l <= |s|
    ensures BasePow(l) > 0 && Val(s[l..]) == Val(s) / BasePow(l) && Val(s[..l]) == Val(s) % BasePow(l)
  {
    hide Val, BasePow;
    assert s == s[..l] + s[l..];
    ValConcat(s[..l], s[l..]);
    ValBound(s[..l]);
    BasePowStep(l);
    var p, q, r := BasePow(l), Val(s[l..]), Val(s[..l]);
    assert Val(s) == q * p + r;
    DivModIs(Val(s), p, q, r);
  }

  /** The limb at `l` and what is below and above it. */
  lemma AroundLimb(s: seq<Limb>, l: nat)
    requires l < |s|
    ensures BasePow(l) > 0 && Val(s) / BasePow(l) == s[l] + BASE * Val(s[l + 1..])
    ensures Val(s) % BasePow(l) == Val(s[..l])
  {
    hide BasePow;
    DropLimbs(s, l);
    assert s[l..][1..] == s[l + 1..];
  }

  /** Bit `j` of a limb is not changed by the limbs above it. */
  lemma LowBits(x: Limb, above: nat, j: nat)
    requires j < BITS
    ensures Pow2(j) > 0
    ensures (x + BASE * above) % Pow2(j) == x % Pow2(j)
    ensures (x + BASE * above) / Pow2(j) % 2 == x / Pow2(j) % 2
    ensures (x + BASE * above) / Pow2(j) == x / Pow2(j) + Pow2(BITS - j) * above
  {
    hide Pow;
    var d, u, half := Pow2(j), Pow2(BITS - j), Pow2(BITS - j - 1);
    LimbSplit(x, j);
    Pow2Step(BITS - j);
    LowBitsOf(x, above, d, u, half);
  }

  lemma LowBitsOf(x: Limb, above: nat, d: nat, u: nat, half: nat)
    requires d > 0 && d * u == BASE && u == 2 * half
    ensures (x + BASE * above) % d == x % d
    ensures (x + BASE * above) / d == x / d + u * above
    ensures (x + BASE * above) / d % 2 == x / d % 2
  {
    var q, r := x / d, x % d;
    DivModOf(x, d);
    assert BASE * above == (u * above) * d by {
      MulAssoc(u, above, d);
      MulAssoc(u, d, above);
    }
    MulDist(q, u * above, d);
    DivModIs(x + BASE * above, d, q + u * above, r);
    MulAssoc(2, half, above);
  }

  lemma Pow2Step(k: nat)
    requires k > 0
    ensures Pow2(k) == 2 * Pow2(k - 1)
  {
  }

  lemma Pow2Split(k: nat)
    ensures Pow2(k) == BasePow(k / BITS) * Pow2(k % BITS)
    ensures BasePow(k / BITS) > 0 && Pow2(k % BITS) > 0 && Pow2(k) > 0
  {
    BasePowIsPow2(k / BITS);
    PowAdd(2, BITS * (k / BITS), k % BITS);
    PowPos(2, k);
    PowPos(2, k % BITS);
    BasePowStep(k / BITS);
  }

  /** Bit `k` of a number, and whether any bit below it is set, seen from the limbs. */
  lemma BitsAt(s: seq<Limb>, k: nat)
    ensures Pow2(k) > 0 && Pow2(k % BITS) > 0
    ensures Val(s) / Pow2(k) % 2 == if k / BITS >= |s| then 0 else s[k / BITS] / Pow2(k % BITS) % 2
    ensures Val(s) % Pow2(k) == 0 <==>
      if k / BITS >= |s| then Val(s) == 0 else Val(s[..k / BITS]) == 0 && s[k / BITS] % Pow2(k % BITS) == 0
  {
    hide Pow, Val;
    var l, j := k / BITS, k % BITS;
    Pow2Split(k);
    if l >= |s| {
      assert Val(s) < Pow2(k) by { BelowPow2(s, k); }
      DivModIs(Val(s), Pow2(k), 0, Val(s));
    } else {
      AroundLimb(s, l);
      LowBits(s[l], Val(s[l + 1..]), j);
      DivTwice(Val(s), BasePow(l), Pow2(j));
    }
  }

  lemma BelowPow2(s: seq<Limb>, k: nat)
    requires k / BITS >= |s|
    ensures Val(s) < Pow2(k)
  {
    hide Val;
    ValBound(s);
    BasePowIsPow2(|s|);
    PowMono(2, BITS * |s|, k);
  }

  ///// The numbers

  class Mpb {
    const tab: array<Limb>
    var len: nat

    ghost predicate Valid()
      reads this
    {
      1 <= len <= tab.Length
    }

    ghost function Value(): nat
      requires Valid()
      reads this, tab
    {
      Val(tab[..len])
    }

    /** There is no leading zero limb. */
    ghost predicate Normal()
      requires Valid()
      reads this, tab
    {
      len > 1 ==> tab[len - 1] != 0
    }

    constructor (capacity: nat)
      requires capacity >= 1
      ensures Valid() && Normal() && Value() == 0 && len == 1 && tab.Length == capacity && fresh(tab)
    {
      tab := new Limb[capacity](_ => 0);
      len := 1;
      new;
      assert tab[..1] == [0];
      ValOne(0);
    }

    /** Drops leading zero limbs. */
    method Renorm()
      requires Valid()
      modifies this
      ensures Valid() && Normal() && Value() == old(Value()) && len <= old(len)
    {
      while len > 1 && tab[len - 1] == 0
        invariant Valid() && Value() == old(Value()) && len <= old(len)
        decreases len
      {
        ValPart(tab[..], 0, len);
        assert tab[..][0..len] == tab[..len] && tab[..][0..len - 1] == tab[..len - 1];
        len := len - 1;
      }
    }

    /** A number below 2^64, on one or two limbs. */
    method SetU64(m: nat)
      requires Valid() && tab.Length >= 2 && m < BASE * BASE
      modifies this, tab
      ensures Valid() && Normal() && Value() == m && len <= 2
    {
      tab[0] := m % BASE;
      tab[1] := m / BASE;
      if tab[1] == 0 {
        len := 1;
        assert tab[..1] == [tab[0]];
        ValOne(tab[0]);
      } else {
        len := 2;
        assert tab[..2] == [tab[0]] + [tab[1]];
        ValOne(tab[0]);
        ValSnoc([tab[0]], tab[1]);
        BasePowStep(0);
      }
    }

    /** The low 64 bits; all of a normal number that is smaller. */
    method GetU64() returns (m: nat)
      requires Valid() && Normal()
      ensures m == Value() % (BASE * BASE)
      ensures Value() < BASE * BASE ==> m == Value()
    {
      if len == 1 {
        m := tab[0];
        assert tab[..1] == [tab[0]];
        ValOne(tab[0]);
        DivModIs(m, BASE * BASE, 0, m);
      } else {
        m := tab[0] + tab[1] * BASE;
        Low64(tab[..len]);
        if Value() < BASE * BASE {
          DivModIs(Value(), BASE * BASE, 0, Value());
        }
      }
    }

    method GetBit(k: nat) returns (b: nat)
      requires Valid()
      ensures Pow2(k) > 0 && b == Value() / Pow2(k) % 2
    {
      BitsAt(tab[..len], k);
      var l := k / BITS;
      if l >= len {
        return 0;
      } else {
        return tab[l] / Pow2(k % BITS) % 2;
      }
    }

    /** Whether any bit below bit `k` is set. */
    method AnyBelow(k: nat) returns (bit: bool)
      requires Valid()
      ensures Pow2(k) > 0 && (bit <==> Value() % Pow2(k) != 0)
    {
      var l := k / BITS;
      BitsAt(tab[..len], k);
      bit := false;
      var i := 0;
      while i < l && i < len
        invariant 0 <= i <= l && i <= len
        invariant bit <==> exists m :: 0 <= m < i && tab[m] != 0
      {
        bit := bit || tab[i] != 0;
        i := i + 1;
      }
      ZeroBelow(tab[..i]);
      if l < len {
        bit := bit || tab[l] % Pow2(k % BITS) != 0;
        assert tab[..len][..l] == tab[..i];
      } else {
        assert tab[..i] == tab[..len];
      }
    }

    /** Multiplies by 2^shift. Zero may get leading zero limbs. */
    method ShiftUp(shift: nat)
      requires Valid() && len + shift / BITS + 1 <= tab.Length
      modifies this, tab
      ensures Valid() && Value() == old(Value()) * Pow2(shift)
      ensures old(Normal()) && old(Value()) != 0 ==> Normal()
      ensures len <= old(len) + shift / BITS + (if shift % BITS == 0 then 0 else 1)
    {
      hide Pow, Val, BasePow;
      var l, s := shift / BITS, shift % BITS;
      Pow2Split(shift);
      PowSmall(2);
      if s != 0 {
        BitsUp(s);
      }
      ghost var v := Value();
      assert v == old(Value()) * Pow2(s);
      if old(Value()) != 0 {
        MulPos(old(Value()), Pow2(s));
      }
      if l > 0 {
        WholeLimbsUp(l);
      } else {
        BasePowStep(0);
        assert v * BasePow(0) == v;
      }
      UpInParts(old(Value()), v, shift, Value());
    }

    /** Moves the limbs up by `l` places and clears the low ones. */
    method WholeLimbsUp(l: nat)
      requires Valid() && len + l <= tab.Length
      modifies this, tab
      ensures Valid() && Value() == old(Value()) * BasePow(l) && len == old(len) + l
      ensures old(Normal()) && old(Value()) != 0 ==> Normal()
    {
      hide Pow, Val, BasePow;
      ghost var was := tab[..len];
      TopOfNormal(was);
      MoveUp(tab, len, l);
      assert tab[l..len + l] == tab[l..][..len];
      ClearLow(tab, l);
      assert tab[l..len + l] == tab[l..][..len];
      len := len + l;
      LimbsUp(tab[..len], l, was);
    }

    /** Multiplies by 2^s, within one limb. */
    method BitsUp(s: nat)
      requires Valid() && 1 <= s < BITS && len + 1 <= tab.Length
      modifies this, tab
      ensures Valid() && Normal() && Value() == old(Value()) * Pow2(s) && len <= old(len) + 1
    {
      hide Pow, Val, BasePow;
      PowPos(2, s);
      ghost var n := len;
      var carry := ShiftLeft(tab, len, s, 0);
      tab[len] := carry;
      assert tab[..n + 1] == tab[..n] + [carry];
      ValSnoc(tab[..n], carry);
      len := len + 1;
      Renorm();
    }

    /** Rounds the number divided by 2^shift to an integer. */
    method ShiftDownRound(shift: nat, mode: Mode)
      requires Valid() && shift > 0
      modifies this, tab
      ensures Valid() && Pow2(shift) > 0 && Value() == Rounded(old(Value()), Pow2(shift), mode)
      ensures old(Normal()) ==> Normal()
      ensures len <= old(len)
    {
      hide Pow, Val, BasePow, Rounded;
      var add := RoundUp(shift, mode);
      Pow2Split(shift);
      var l, s := shift / BITS, shift % BITS;
      if l >= len {
        BelowPow2(tab[..len], shift);
        DivModIs(Value(), Pow2(shift), 0, Value());
        len := 1;
        tab[0] := if add then 1 else 0;
        assert tab[..1] == [tab[0]];
        ValOne(tab[0]);
      } else {
        Truncate(shift);
        if add {
          AddOne();
        }
      }
    }

    /** Whether the rounded quotient is one more than the truncated one. */
    method RoundUp(shift: nat, mode: Mode) returns (add: bool)
      requires Valid() && shift > 0
      ensures Pow2(shift) > 0 && Rounded(Value(), Pow2(shift), mode) == Value() / Pow2(shift) + (if add then 1 else 0)
    {
      hide Pow, Val, Rounded;
      PowPos(2, shift);
      PowPos(2, shift - 1);
      add := false;
      if mode != TowardsZero {
        var bit1 := GetBit(shift - 1);
        if bit1 == 1 {
          var bit2 := true;
          if mode != NearestAway {
            bit2 := false;
            if shift >= 2 {
              bit2 := AnyBelow(shift - 1);
            } else {
              PowSmall(2);
              DivModIs(Value(), 1, Value(), 0);
            }
          }
          if bit2 {
            add := true;
          } else {
            var b := GetBit(shift);
            add := b == 1;
          }
        }
        RoundedByBits(Value(), shift, mode, bit1, Value() % Pow2(shift - 1) != 0, Value() / Pow2(shift) % 2);
      } else {
        RoundedByBits(Value(), shift, mode, 0, false, 0);
      }
    }

    /** Shifts right by whole limbs and then by bits. */
    method Truncate(shift: nat)
      requires Valid() && shift > 0 && shift / BITS < len
      modifies this, tab
      ensures Valid() && Pow2(shift) > 0 && Value() == old(Value()) / Pow2(shift)
      ensures old(Normal()) ==> Normal()
      ensures len < old(len) || (len == old(len) && Value() + 1 < BasePow(len))
    {
      hide Pow, Val, BasePow;
      var l, s := shift / BITS, shift % BITS;
      ghost var v, was := Value(), tab[..];
      Pow2Split(shift);
      if l > 0 {
        len := len - l;
        MoveDown(tab, len, l);
      }
      assert tab[..len] == was[..len + l][l..];
      ValBound(tab[..len]);
      DropLimbs(was[..len + l], l);
      ghost var w := Value();
      DivTwice(v, BasePow(l), Pow2(s));
      if s != 0 {
        var rem := ShiftRight(tab, len, s, 0);
        DivModIs(w, Pow2(s), Value(), rem);
        RoomForOne(Value(), w, len, s);
        Renorm();
      } else {
        PowSmall(2);
        DivModIs(w, 1, w, 0);
      }
    }

    /** Adds one. There is a limb left for the carry, or there is none. */
    method AddOne()
      requires Valid() && (len < tab.Length || Value() + 1 < BasePow(len))
      modifies this, tab
      ensures Valid() && Value() == old(Value()) + 1
      ensures old(Normal()) ==> Normal()
      ensures len <= old(len) + 1 && (old(Value()) + 1 < BasePow(old(len)) ==> len == old(len))
    {
      hide Pow, Val, BasePow;
      ghost var n := len;
      TopLimb(tab[..len]);
      BasePowStep(n);
      var a := AddLimb(tab, 1, len);
      ValBound(tab[..n]);
      if a != 0 {
        assert a == 1 && 1 * BasePow(n) == BasePow(n);
        tab[len] := a;
        assert tab[..n + 1] == tab[..n] + [a];
        ValSnoc(tab[..n], a);
        len := len + 1;
      } else {
        assert 0 * BasePow(n) == 0;
        TopLimb(tab[..n]);
      }
    }
  
    /** The number divided by 2^shift, or multiplied by 2^-shift, rounded to an integer. */
    method ShiftRound(shift: int, mode: Mode)
      requires Valid() && (shift < 0 ==> len + (0 - shift) / BITS + 1 <= tab.Length)
      modifies this, tab
      ensures Valid() && Value() == ShiftRounded(old(Value()), shift, mode)
      ensures old(Normal()) && old(Value()) != 0 ==> Normal()
      ensures shift >= 0 && old(Normal()) ==> Normal()
      ensures shift >= 0 ==> len <= old(len)
      ensures shift < 0 ==> len <= old(len) + (0 - shift) / BITS + (if (0 - shift) % BITS == 0 then 0 else 1)
    {
      hide Pow, Val, Rounded;
      ShiftRoundedIs(Value(), shift, mode);
      if shift < 0 {
        ShiftUp(0 - shift);
      } else if shift > 0 {
        ShiftDownRound(shift, mode);
      }
    }

    /** Compares two normal numbers. */
    method Compare(b: Mpb) returns (c: int)
      requires Valid() && Normal() && b.Valid() && b.Normal()
      ensures c < 0 <==> Value() < b.Value()
      ensures c > 0 <==> Value() > b.Value()
    {
      hide Pow, Val, BasePow;
      ghost var s, t := tab[..len], b.tab[..b.len];
      LongerIsLarger(s, t);
      LongerIsLarger(t, s);
      if len < b.len {
        return -1;
      }
      if len > b.len {
        return 1;
      }
      var i := len;
      while i > 0
        invariant 0 <= i <= len
        invariant s[i..] == t[i..]
      {
        i := i - 1;
        assert tab[i] == s[i] && b.tab[i] == t[i];
        if tab[i] != b.tab[i] {
          HighLimbDecides(s, t, i);
          return if tab[i] < b.tab[i] then -1 else 1;
        }
        assert s[i..] == [s[i]] + s[i + 1..] && t[i..] == [t[i]] + t[i + 1..];
      }
      assert s == s[0..] && t == t[0..];
      return 0;
    }

    /** The position of the first bit that is set, or -1. */
    method FloorLog2() returns (e: int)
      requires Valid() && Normal()
      ensures e >= -1 && (e == -1 <==> Value() == 0)
      ensures e >= 0 ==> Pow2(e) <= Value() < Pow2(e + 1)
    {
      hide Pow, Val, BasePow;
      var v := tab[len - 1];
      TopOfNormal(tab[..len]);
      if v == 0 {
        TopLimb(tab[..len]);
        BasePowStep(0);
        return -1;
      }
      TopBit(tab[..len]);
      PowPos(2, len * BITS - 1 - LeadingZeros(v));
      return len * BITS - 1 - LeadingZeros(v);
    }

    /** Multiplies by a base, 2^32 being written as zero, and adds a limb. */
    method MulBaseAdd(base: Limb, a: Limb)
      requires Valid() && Normal() && len + 2 <= tab.Length
      modifies this, tab
      ensures Valid() && Normal() && len <= old(len) + 1
      ensures Value() == old(Value()) * (if base == 0 then BASE else base) + a
    {
      hide Pow, Val, BasePow;
      if tab[0] == 0 && len == 1 {
        ValOne(0);
        ValOne(a);
        assert tab[..1] == [0];
        tab[0] := a;
        assert tab[..1] == [a];
      } else {
        if base == 0 {
          LimbBelow(a);
        } else {
          MulAdd(base, a);
        }
        Renorm();
      }
    }

    /** Moves the limbs up by one place and puts a limb below them. */
    method LimbBelow(a: Limb)
      requires Valid() && len + 2 <= tab.Length
      modifies this, tab
      ensures Valid() && len == old(len) + 1 && Value() == old(Value()) * BASE + a
    {
      hide Pow, Val, BasePow;
      ghost var was := tab[..len];
      PushLow(tab, len, a);
      ValConcat([a], was);
      ValOne(a);
      BasePowStep(0);
      len := len + 1;
    }

    method MulAdd(base: Limb, a: Limb)
      requires Valid() && len + 1 <= tab.Length
      modifies this, tab
      ensures Valid() && len == old(len) + 1 && Value() == old(Value()) * base + a
    {
      hide Pow, Val, BasePow;
      ghost var n := len;
      var carry := MulLimb(tab, len, base, a);
      tab[len] := carry;
      assert tab[..n + 1] == tab[..n] + [carry];
      ValSnoc(tab[..n], carry);
      len := len + 1;
    }
  }

  ghost function ShiftRounded(n: nat, shift: int, mode: Mode): nat {
    if shift < 0 then n * Pow2(0 - shift) else if Pow2(shift) > 0 then Rounded(n, Pow2(shift), mode) else 0
  }

  lemma ShiftRoundedIs(n: nat, shift: int, mode: Mode)
    ensures shift < 0 ==> ShiftRounded(n, shift, mode) == n * Pow2(0 - shift)
    ensures shift >= 0 ==> Pow2(shift) > 0 && ShiftRounded(n, shift, mode) == Rounded(n, Pow2(shift), mode)
    ensures shift == 0 ==> ShiftRounded(n, shift, mode) == n
  {
    if shift >= 0 {
      PowPos(2, shift);
      RoundedWhole(n, mode);
    }
  }

  /** The number of zero bits above the first bit that is set, in 32 bits. */
  function LeadingZeros(v: Limb): (z: int)
    requires v > 0
    ensures 0 <= z < BITS && Pow2(BITS - 1 - z) <= v < Pow2(BITS - z)
  {
    Pow2Of32();
    if v >= 0x8000_0000 then 0 else ZerosAbove(v, 30, 1)
  }

  function ZerosAbove(v: nat, top: nat, z: nat): (r: nat)
    requires 0 < v < Pow2(top + 1) && top + z == BITS - 1
    ensures r <= BITS - 1 && Pow2(BITS - 1 - r) <= v < Pow2(BITS - r)
  {
    if v >= Pow2(top) then z else ZerosAbove(v, top - 1, z + 1)
  }

  lemma TopBit(s: seq<Limb>)
    requires |s| > 0 && s[|s| - 1] != 0
    ensures var e := |s| * BITS - 1 - LeadingZeros(s[|s| - 1]); e >= 0 && Pow2(e) <= Val(s) < Pow2(e + 1)
  {
    hide Pow, Val, BasePow;
    var n, v: int := |s| - 1, s[|s| - 1];
    var z := LeadingZeros(s[n]);
    assert s == s[..n] + [s[n]];
    ValSnoc(s[..n], s[n]);
    ValBound(s[..n]);
    BasePowIsPow2(n);
    PowAdd(2, BITS - 1 - z, BITS * n);
    PowAdd(2, BITS - z, BITS * n);
    MulMono(Pow2(BITS - 1 - z), v, BasePow(n));
    MulMono(v + 1, Pow2(BITS - z), BasePow(n));
    MulDist(v, 1, BasePow(n));
  }

  lemma LongerIsLarger(s: seq<Limb>, t: seq<Limb>)
    requires |s| < |t| ==> |s| > 0 && t[|t| - 1] != 0
    ensures |s| < |t| ==> Val(s) < Val(t)
  {
    if |s| < |t| {
      hide Val;
      ValBound(s);
      TopLimb(t);
      PowMono(BASE, |s|, |t| - 1);
    }
  }

  lemma HighLimbDecides(s: seq<Limb>, t: seq<Limb>, i: nat)
    requires i < |s| == |t| && s[i + 1..] == t[i + 1..] && s[i] != t[i]
    ensures Val(s) < Val(t) <==> s[i] < t[i]
    ensures Val(s) != Val(t)
  {
    hide Val, BasePow;
    var p := BasePow(i);
    AroundLimb(s, i);
    AroundLimb(t, i);
    var h := Val(s[i + 1..]);
    DivModOf(Val(s), p);
    DivModOf(Val(t), p);
    if s[i] < t[i] {
      MulMono(s[i] + BASE * h + 1, t[i] + BASE * h, p);
      MulDist(s[i] + BASE * h, 1, p);
    } else {
      MulMono(t[i] + BASE * h + 1, s[i] + BASE * h, p);
      MulDist(t[i] + BASE * h, 1, p);
    }
  }

  /** The top limb is zero when the number is small. */
  lemma TopLimb(s: seq<Limb>)
    requires |s| > 0
    ensures s[|s| - 1] != 0 <==> Val(s) >= BasePow(|s| - 1)
  {
    hide Val, BasePow;
    var n := |s| - 1;
    assert s == s[..n] + [s[n]];
    ValSnoc(s[..n], s[n]);
    ValBound(s[..n]);
    BasePowStep(n);
    if s[n] != 0 {
      MulMono(1, s[n], BasePow(n));
    }
  }

  lemma RoomForOne(v: nat, w: nat, n: nat, s: nat)
    requires s > 0 && n > 0 && w < BasePow(n) && v * Pow2(s) <= w
    ensures v + 1 < BasePow(n)
  {
    PowMono(2, 1, s);
    PowSmall(2);
    MulMono(2, Pow2(s), v);
    BasePowStep(n - 1);
  }

  lemma TopOfNormal(s: seq<Limb>)
    requires |s| > 0
    ensures (|s| > 1 ==> s[|s| - 1] != 0) && Val(s) != 0 ==> s[|s| - 1] != 0
  {
    if |s| == 1 {
      assert s == [s[0]];
      ValOne(s[0]);
    }
  }

  lemma Low64(s: seq<Limb>)
    requires |s| >= 2
    ensures Val(s) % (BASE * BASE) == s[0] + s[1] * BASE
    ensures |s| > 2 && s[|s| - 1] != 0 ==> Val(s) >= BASE * BASE
  {
    hide Val, BasePow;
    AroundLimb(s, 2 - 1);
    assert s[..1] == [s[0]];
    ValOne(s[0]);
    BasePowStep(0);
    BasePowStep(1);
    DivModOf(Val(s), BASE);
    DivModIs(Val(s), BASE * BASE, Val(s[2..]), s[0] + s[1] * BASE);
    if |s| > 2 && s[|s| - 1] != 0 {
      TopLimb(s);
      PowMono(BASE, 2, |s| - 1);
    }
  }

  lemma ZeroBelow(s: seq<Limb>)
    ensures Val(s) == 0 <==> !(exists m :: 0 <= m < |s| && s[m] != 0)
  {
    if Val(s) == 0 {
      ValIsZero(s);
    } else if !(exists m :: 0 <= m < |s| && s[m] != 0) {
      ValZeros(s);
    }
  }

  /** What moving the limbs up by `l` places and clearing the low ones does. */
  lemma LimbsUp(t: seq<Limb>, l: nat, s: seq<Limb>)
    requires |t| == |s| + l && t[l..] == s
    requires forall k :: 0 <= k < l ==> t[k] == 0
    ensures Val(t) == Val(s) * BasePow(l)
    ensures |s| > 0 ==> t[|t| - 1] == s[|s| - 1]
  {
    hide Val, BasePow;
    assert t == t[..l] + s;
    ValConcat(t[..l], s);
    ValZeros(t[..l]);
  }

  /** Rounding seen from the last bit kept, the first bit dropped and the others dropped. */
  lemma RoundedByBits(n: nat, shift: nat, mode: Mode, bit1: nat, sticky: bool, bit0: nat)
    requires shift > 0 && Pow2(shift) > 0 && Pow2(shift - 1) > 0
    requires mode != TowardsZero ==> bit1 == n / Pow2(shift - 1) % 2
    requires mode != TowardsZero ==> (sticky <==> n % Pow2(shift - 1) != 0) && bit0 == n / Pow2(shift) % 2
    ensures mode == TowardsZero ==> Rounded(n, Pow2(shift), mode) == n / Pow2(shift)
    ensures mode == NearestAway ==> Rounded(n, Pow2(shift), mode) == n / Pow2(shift) + bit1
    ensures mode == Nearest ==>
      Rounded(n, Pow2(shift), mode) == n / Pow2(shift) + (if bit1 == 1 && (sticky || bit0 == 1) then 1 else 0)
  {
    hide Pow;
    if mode != TowardsZero {
      var h := Pow2(shift - 1);
      Pow2Step(shift);
      DivTwice(n, h, 2);
      assert n % (h * 2) == bit1 * h + n % h;
      DivModOf(n, h);
      if bit1 == 0 {
        assert bit1 * h == 0;
      } else {
        assert bit1 == 1;
        assert bit1 * h == h;
      }
    }
  }

  lemma UpInParts(first: nat, v: nat, shift: nat, result: nat)
    requires v == first * Pow2(shift % BITS)
    requires result == v * BasePow(shift / BITS)
    ensures result == first * Pow2(shift)
  {
    Pow2Split(shift);
    MulAssoc(first, Pow2(shift % BITS), BasePow(shift / BITS));
  }
}

/** Natural numbers as arrays of 32-bit limbs, least significant limb first (the `mp_*` functions of dtoa.c).
    Every caller passes the same array as source and destination, so each loop works in place. */
module Limbs {
  import opened Powers

  const BASE := 0x1_0000_0000
  const BITS: nat := 32
  const MASK: Limb := 0xffff_ffff

  type Limb = x: int | 0 <= x < 0x1_0000_0000

  ///// The number that a sequence of limbs stands for

  ghost function Val(s: seq<Limb>): nat {
    if s == [] then 0 else s[0] + BASE * Val(s[1..])
  }

  ghost function BasePow(n: nat): nat {
    Pow(BASE, n)
  }

  lemma BasePowStep(n: nat)
    ensures BasePow(0) == 1 && BasePow(n + 1) == BASE * BasePow(n) && BasePow(n) > 0
  {
    PowPos(BASE, n);
  }

  lemma {:induction false} BasePowIsPow2(n: nat)
    ensures BasePow(n) == Pow2(BITS * n)
  {
    assert BASE == Pow2(32) by { Pow2Of32(); }
    PowOfPow(2, 32, n);
  }

  lemma Pow2Of32()
    ensures Pow2(32) == BASE && Pow2(16) == 0x1_0000 && Pow2(31) == 0x8000_0000
  {
    assert Pow2(8) == 256;
    PowAdd(2, 8, 8);
    PowAdd(2, 16, 16);
    PowSmall(2);
    PowAdd(2, 1, 31);
  }

  lemma {:induction false} ValConcat(s: seq<Limb>, t: seq<Limb>)
    ensures Val(s + t) == Val(s) + BasePow(|s|) * Val(t)
  {
    if s == [] {
      assert s + t == t;
      assert BasePow(0) * Val(t) == Val(t);
    } else {
      assert (s + t)[1..] == s[1..] + t;
      ValConcat(s[1..], t);
      BasePowStep(|s| - 1);
      MulAssoc(BASE, BasePow(|s| - 1), Val(t));
      MulDist(Val(s[1..]), BasePow(|s| - 1) * Val(t), BASE);
    }
  }

  lemma ValOne(x: Limb)
    ensures Val([x]) == x && Val([]) == 0
  {
    assert [x][1..] == [];
  }

  lemma ValSnoc(s: seq<Limb>, x: Limb)
    ensures Val(s + [x]) == Val(s) + x * BasePow(|s|)
  {
    ValConcat(s, [x]);
    ValOne(x);
  }

  lemma {:induction false} ValBound(s: seq<Limb>)
    ensures Val(s) < BasePow(|s|)
  {
    if s != [] {
      ValBound(s[1..]);
      BasePowStep(|s| - 1);
    } else {
      BasePowStep(0);
    }
  }

  /** One more limb at the low end or at the high end of a part of an array. */
  lemma ValPart(s: seq<Limb>, i: nat, j: nat)
    requires i < j <= |s|
    ensures Val(s[i..j]) == s[i] + BASE * Val(s[i + 1..j])
    ensures Val(s[i..j]) == Val(s[i..j - 1]) + s[j - 1] * BasePow(j - 1 - i)
  {
    assert s[i..j][1..] == s[i + 1..j];
    assert s[i..j] == s[i..j - 1] + [s[j - 1]];
    ValSnoc(s[i..j - 1], s[j - 1]);
  }

  lemma ValSplit(s: seq<Limb>, i: nat, j: nat, k: nat)
    requires i <= j <= k <= |s|
    ensures Val(s[i..k]) == Val(s[i..j]) + BasePow(j - i) * Val(s[j..k])
  {
    assert s[i..k] == s[i..j] + s[j..k];
    ValConcat(s[i..j], s[j..k]);
  }

  lemma {:induction false} ValZeros(s: seq<Limb>)
    requires forall k :: 0 <= k < |s| ==> s[k] == 0
    ensures Val(s) == 0
  {
    if s != [] {
      ValZeros(s[1..]);
    }
  }

  /** Only zero limbs stand for zero. */
  lemma {:induction false} ValIsZero(s: seq<Limb>)
    requires Val(s) == 0
    ensures forall k :: 0 <= k < |s| ==> s[k] == 0
  {
    if s != [] {
      ValIsZero(s[1..]);
      assert forall k :: 0 < k < |s| ==> s[k] == s[1..][k - 1];
    }
  }

  /** The high bits and the low bits of one limb. */
  lemma LimbSplit(x: Limb, shift: nat)
    requires shift <= BITS
    ensures Pow2(shift) * Pow2(BITS - shift) == BASE && Pow2(shift) > 0 && Pow2(BITS - shift) > 0
    ensures x == (x / Pow2(shift)) * Pow2(shift) + x % Pow2(shift)
    ensures 0 <= x / Pow2(shift) < Pow2(BITS - shift)
    ensures 0 <= x % Pow2(shift) < Pow2(shift)
  {
    hide Pow;
    var up, down := Pow2(shift), Pow2(BITS - shift);
    assert up * down == BASE by {
      Pow2Of32();
      PowAdd(2, shift, BITS - shift);
    }
    PowPos(2, shift);
    PowPos(2, BITS - shift);
    DivModOf(x, up);
    assert x < down * up;
    DivLess(x, up, down);
    DivAtLeast(x, up, 0);
  }

  ///// Addition and multiplication

  /** Adds a limb to the first `n` limbs. */
  method AddLimb(tab: array<Limb>, b: Limb, n: nat) returns (k: Limb)
    requires n <= tab.Length
    modifies tab
    ensures Val(tab[..n]) + k * BasePow(n) == Val(old(tab[..n])) + b
    ensures tab[n..] == old(tab[n..])
    ensures b <= 1 ==> k <= 1
  {
    ghost var was := tab[..];
    k := b;
    var i := 0;
    BasePowStep(0);
    while i < n
      invariant 0 <= i <= n
      invariant Val(tab[..i]) + k * BasePow(i) == Val(was[..i]) + b
      invariant tab[i..] == was[i..]
      invariant b <= 1 ==> k <= 1
    {
      if k == 0 {
        AddLimbDone(was, tab[..], b, i, n);
        return;
      }
      ghost var before, p := tab[..], BasePow(i);
      var sum := (tab[i] + k) % BASE;
      var carry := if sum < k then 1 else 0;
      assert sum + carry * BASE == tab[i] + k;
      tab[i] := sum;
      AddLimbStep(was, before, tab[..], i, k, carry, b);
      k := carry;
      i := i + 1;
    }
  }

  lemma AddLimbStep(was: seq<Limb>, s: seq<Limb>, t: seq<Limb>, i: nat, k: Limb, carry: Limb, b: Limb)
    requires i < |was| == |s| && s[i..] == was[i..]
    requires Val(s[..i]) + k * BasePow(i) == Val(was[..i]) + b
    requires |t| == |s| && t[..i] == s[..i] && t[i] + carry * BASE == s[i] + k && t[i + 1..] == s[i + 1..]
    ensures Val(t[..i + 1]) + carry * BasePow(i + 1) == Val(was[..i + 1]) + b
    ensures t[i + 1..] == was[i + 1..]
  {
    hide Val, BasePow;
    var p := BasePow(i);
    ValPart(t, 0, i + 1);
    ValPart(was, 0, i + 1);
    BasePowStep(i);
    assert was[i] == was[i..][0] == s[i..][0] == s[i];
    assert t[0..i] == s[..i] && was[0..i] == was[..i] && t[0..i + 1] == t[..i + 1] && was[0..i + 1] == was[..i + 1];
    var x, y: int := t[i], was[i];
    assert x * p + carry * (BASE * p) == y * p + k * p by {
      MulAssoc(carry, BASE, p);
      MulDist(x, carry * BASE, p);
      MulDist(y, k, p);
    }
    assert was[i + 1..] == was[i..][1..] == s[i..][1..];
  }

  lemma AddLimbDone(was: seq<Limb>, s: seq<Limb>, b: Limb, i: nat, n: nat)
    requires i <= n <= |was| == |s| && s[i..] == was[i..] && Val(s[..i]) == Val(was[..i]) + b
    ensures Val(s[..n]) == Val(was[..n]) + b && s[n..] == was[n..]
  {
    ValSplit(s, 0, i, n);
    ValSplit(was, 0, i, n);
    assert s[i..n] == s[i..][..n - i] && was[i..n] == was[i..][..n - i];
    assert s[n..] == s[i..][n - i..] && was[n..] == was[i..][n - i..];
  }

  /** Multiplies the first `n` limbs by a limb and adds a limb. */
  method MulLimb(tab: array<Limb>, n: nat, b: Limb, low: Limb) returns (l: Limb)
    requires n <= tab.Length
    modifies tab
    ensures Val(tab[..n]) + l * BasePow(n) == Val(old(tab[..n])) * b + low
    ensures tab[n..] == old(tab[n..])
  {
    ghost var was := tab[..];
    l := low;
    BasePowStep(0);
    for i := 0 to n
      invariant Val(tab[..i]) + l * BasePow(i) == Val(was[..i]) * b + low
      invariant tab[i..] == was[i..]
    {
      ghost var s := tab[..];
      ProductFits(tab[i], b, l);
      var t := tab[i] * b + l;
      tab[i] := t % BASE;
      MulLimbStep(was, s, tab[..], i, b, low, l, t / BASE);
      l := t / BASE;
    }
  }

  lemma ProductFits(x: Limb, y: Limb, l: Limb)
    ensures 0 <= x * y + l < BASE * BASE
    ensures 0 <= (x * y + l) / BASE < BASE
  {
    MulNonNeg(x, y);
    MulMono(x, BASE - 1, y);
    DivLess(x * y + l, BASE, BASE);
  }

  lemma MulLimbStep(was: seq<Limb>, s: seq<Limb>, t: seq<Limb>, i: nat, b: Limb, low: Limb, l: Limb, carry: Limb)
    requires i < |was| == |s| && s[i..] == was[i..]
    requires Val(s[..i]) + l * BasePow(i) == Val(was[..i]) * b + low
    requires |t| == |s| && t[..i] == s[..i] && t[i] + carry * BASE == s[i] * b + l && t[i + 1..] == s[i + 1..]
    ensures Val(t[..i + 1]) + carry * BasePow(i + 1) == Val(was[..i + 1]) * b + low
    ensures t[i + 1..] == was[i + 1..]
  {
    var p := BasePow(i);
    ValPart(t, 0, i + 1);
    ValPart(was, 0, i + 1);
    BasePowStep(i);
    assert was[i] == was[i..][0] == s[i..][0] == s[i];
    assert t[i] * p + carry * (BASE * p) == (was[i] * p) * b + l * p by {
      MulAssoc(carry, BASE, p);
      MulDist(t[i], carry * BASE, p);
      MulDist(was[i] * b, l, p);
      MulAssoc(was[i], b, p);
      MulAssoc(was[i], p, b);
    }
    MulDist(Val(was[..i]), was[i] * p, b);
    assert was[i + 1..] == was[i..][1..] == s[i..][1..];
  }

  ///// Shifts

  /** Shifts the first `n` limbs left and adds `low`. */
  method ShiftLeft(tab: array<Limb>, n: nat, shift: nat, low: Limb) returns (l: Limb)
    requires n <= tab.Length && 1 <= shift < BITS && low < Pow2(shift)
    modifies tab
    ensures Val(tab[..n]) + l * BasePow(n) == Val(old(tab[..n])) * Pow2(shift) + low
    ensures l < Pow2(shift) && tab[n..] == old(tab[n..])
  {
    ghost var was := tab[..];
    l := low;
    BasePowStep(0);
    LimbSplit(0, shift);
    var up, down := Pow2(shift), Pow2(BITS - shift);
    PowStrict(2, shift, BITS);
    Pow2Of32();
    for i := 0 to n
      invariant Val(tab[..i]) + l * BasePow(i) == Val(was[..i]) * up + low
      invariant l < up && tab[i..] == was[i..]
    {
      ghost var s := tab[..];
      var a := tab[i];
      ShiftLeftLimb(a, shift, l);
      tab[i] := (a * up) % BASE + l;
      MulLimbStep(was, s, tab[..], i, up, low, l, a / down);
      l := a / down;
    }
  }

  /** The two halves of a shifted limb do not meet. */
  lemma ShiftLeftLimb(a: Limb, shift: nat, l: Limb)
    requires 1 <= shift < BITS && l < Pow2(shift)
    ensures Pow2(BITS - shift) > 0 && 0 <= a / Pow2(BITS - shift) < Pow2(shift)
    ensures 0 <= (a * Pow2(shift)) % BASE + l < BASE
    ensures (a * Pow2(shift)) % BASE + l + (a / Pow2(BITS - shift)) * BASE == a * Pow2(shift) + l
  {
    var up, down := Pow2(shift), Pow2(BITS - shift);
    LimbSplit(a, BITS - shift);
    var q, r := a / down, a % down;
    assert down * up == BASE;
    assert a * up == q * BASE + r * up by {
      MulDist(q * down, r, up);
      MulAssoc(q, down, up);
    }
    MulMono(r, down - 1, up);
    MulDist(down, 1, up);
    MulNonNeg(r, up);
    DivModIs(a * up, BASE, q, r * up);
  }

  /** Shifts the first `n` limbs, with `high` above them, right; the result is what is shifted out. */
  method ShiftRight(tab: array<Limb>, n: nat, shift: nat, high: Limb) returns (rem: Limb)
    requires n <= tab.Length && 1 <= shift < BITS && high < Pow2(shift)
    modifies tab
    ensures Val(tab[..n]) * Pow2(shift) + rem == Val(old(tab[..n])) + high * BasePow(n)
    ensures rem < Pow2(shift) && tab[n..] == old(tab[n..])
  {
    ghost var was := tab[..];
    var l: Limb := high;
    BasePowStep(0);
    var up, down := Pow2(shift), Pow2(BITS - shift);
    var i := n;
    LimbSplit(high, shift);
    DivModIs(high, up, 0, high);
    assert was[n..n] == [] && tab[n..n] == [];
    assert tab[..i] == was[..i];
    while i > 0
      invariant 0 <= i <= n
      invariant Val(tab[i..n]) * up + l % up == Val(was[i..n]) + high * BasePow(n - i)
      invariant tab[..i] == was[..i] && tab[n..] == was[n..]
    {
      i := i - 1;
      ghost var s := tab[..];
      var a := tab[i];
      ShiftRightLimb(a, shift, l);
      tab[i] := a / up + (l * down) % BASE;
      ShiftRightStep(was, s, tab[..], i, n, shift, high, l);
      l := a;
    }
    rem := l % up;
    LimbSplit(l, shift);
    assert tab[..n] == tab[0..n] && was[..n] == was[0..n];
  }

  lemma ShiftRightLimb(a: Limb, shift: nat, l: Limb)
    requires 1 <= shift < BITS
    ensures Pow2(shift) > 0 && Pow2(BITS - shift) > 0
    ensures 0 <= a / Pow2(shift) + (l * Pow2(BITS - shift)) % BASE < BASE
    ensures (a / Pow2(shift) + (l * Pow2(BITS - shift)) % BASE) * Pow2(shift) + a % Pow2(shift) ==
      a + (l % Pow2(shift)) * BASE
  {
    var up, down := Pow2(shift), Pow2(BITS - shift);
    LimbSplit(a, shift);
    LimbSplit(l, shift);
    var q, r := l / up, l % up;
    assert l * down == q * BASE + r * down by {
      MulDist(q * up, r, down);
      MulAssoc(q, up, down);
    }
    MulMono(r, up - 1, down);
    MulDist(up, 1, down);
    MulNonNeg(r, down);
    DivModIs(l * down, BASE, q, r * down);
    MulDist(a / up, r * down, up);
    MulAssoc(r, down, up);
  }

  lemma ShiftRightStep(was: seq<Limb>, s: seq<Limb>, t: seq<Limb>, i: nat, n: nat, shift: nat, high: Limb, l: Limb)
    requires i < n <= |was| == |s| == |t| && 1 <= shift < BITS && Pow2(shift) > 0
    requires s[..i + 1] == was[..i + 1] && s[n..] == was[n..]
    requires Val(s[i + 1..n]) * Pow2(shift) + l % Pow2(shift) == Val(was[i + 1..n]) + high * BasePow(n - i - 1)
    requires t[i] * Pow2(shift) + s[i] % Pow2(shift) == s[i] + (l % Pow2(shift)) * BASE
    requires t[..i] == s[..i] && t[i + 1..] == s[i + 1..]
    ensures Val(t[i..n]) * Pow2(shift) + s[i] % Pow2(shift) == Val(was[i..n]) + high * BasePow(n - i)
    ensures t[..i] == was[..i] && t[n..] == was[n..]
  {
    var up, v, w, p := Pow2(shift), Val(s[i + 1..n]), Val(was[i + 1..n]), BasePow(n - i - 1);
    assert t[i + 1..n] == t[i + 1..][..n - i - 1] == s[i + 1..n];
    assert s[i] == s[..i + 1][i] == was[i];
    ValPart(t, i, n);
    ValPart(was, i, n);
    BasePowStep(n - i - 1);
    assert Val(t[i..n]) * up == t[i] * up + BASE * (v * up) by {
      MulDist(t[i], BASE * v, up);
      MulAssoc(BASE, v, up);
    }
    assert high * (BASE * p) == BASE * (high * p) by {
      MulAssoc(high, BASE, p);
      MulAssoc(BASE, high, p);
    }
    assert t[..i] == s[..i + 1][..i] == was[..i];
    assert t[n..] == t[i + 1..][n - i - 1..] == s[n..];
  }

  ///// Division

  /** Divides the first `n` limbs, with `high` above them, by a limb. */
  method DivLimb(tab: array<Limb>, n: nat, b: Limb, high: Limb) returns (r: Limb)
    requires n <= tab.Length && high < b
    modifies tab
    ensures Val(tab[..n]) * b + r == Val(old(tab[..n])) + high * BasePow(n)
    ensures r < b && tab[n..] == old(tab[n..])
  {
    ghost var was := tab[..];
    r := high;
    var i := n;
    assert was[n..n] == [] && tab[n..n] == [] && tab[..i] == was[..i];
    assert Val([]) * b == 0 && high * BasePow(0) == high;
    while i > 0
      invariant 0 <= i <= n && r < b
      invariant Val(tab[i..n]) * b + r == Val(was[i..n]) + high * BasePow(n - i)
      invariant tab[..i] == was[..i] && tab[n..] == was[n..]
    {
      i := i - 1;
      ghost var s := tab[..];
      var a := r * BASE + tab[i];
      QuotientFits(r, tab[i], b);
      tab[i] := a / b;
      DivStep(was, s, tab[..], i, n, b, high, r, a % b);
      r := a % b;
    }
    assert tab[..n] == tab[0..n] && was[..n] == was[0..n];
  }

  lemma QuotientFits(r: Limb, x: Limb, b: Limb)
    requires r < b
    ensures 0 <= (r * BASE + x) / b < BASE && 0 <= (r * BASE + x) % b < b
    ensures (r * BASE + x) / b * b + (r * BASE + x) % b == r * BASE + x
  {
    DivModOf(r * BASE + x, b);
    MulMono(r + 1, b, BASE);
    DivLess(r * BASE + x, b, BASE);
  }

  /** The step of both division loops. */
  lemma DivStep(was: seq<Limb>, s: seq<Limb>, t: seq<Limb>, i: nat, n: nat, b: Limb, high: Limb, r: Limb, r2: Limb)
    requires i < n <= |was| == |s| == |t|
    requires s[..i + 1] == was[..i + 1] && s[n..] == was[n..]
    requires Val(s[i + 1..n]) * b + r == Val(was[i + 1..n]) + high * BasePow(n - i - 1)
    requires t[i] * b + r2 == r * BASE + s[i]
    requires t[..i] == s[..i] && t[i + 1..] == s[i + 1..]
    ensures Val(t[i..n]) * b + r2 == Val(was[i..n]) + high * BasePow(n - i)
    ensures t[..i] == was[..i] && t[n..] == was[n..]
  {
    var v, w, p := Val(s[i + 1..n]), Val(was[i + 1..n]), BasePow(n - i - 1);
    assert t[i + 1..n] == t[i + 1..][..n - i - 1] == s[i + 1..n];
    assert s[i] == s[..i + 1][i] == was[i];
    ValPart(t, i, n);
    ValPart(was, i, n);
    BasePowStep(n - i - 1);
    assert Val(t[i..n]) * b == t[i] * b + BASE * (v * b) by {
      MulDist(t[i], BASE * v, b);
      MulAssoc(BASE, v, b);
    }
    assert high * (BASE * p) == BASE * (high * p) by {
      MulAssoc(high, BASE, p);
      MulAssoc(BASE, high, p);
    }
    assert t[..i] == s[..i + 1][..i] == was[..i];
    assert t[n..] == t[i + 1..][n - i - 1..] == s[n..];
  }

  ///// Moving limbs

  /** Moves the first `n` limbs up by `l` places. */
  method MoveUp(tab: array<Limb>, n: nat, l: nat)
    requires n + l <= tab.Length
    modifies tab
    ensures tab[l..n + l] == old(tab[..n])
  {
    ghost var was := tab[..];
    var i: int := n - 1;
    while i >= 0
      invariant -1 <= i < n
      invariant forall k :: i + l < k < n + l ==> tab[k] == was[k - l]
      invariant forall k :: 0 <= k <= i + l ==> tab[k] == was[k]
    {
      tab[i + l] := tab[i];
      i := i - 1;
    }
  }

  /** Moves `n` limbs down by `l` places. */
  method MoveDown(tab: array<Limb>, n: nat, l: nat)
    requires n + l <= tab.Length
    modifies tab
    ensures tab[..n] == old(tab[l..n + l])
  {
    ghost var was := tab[..];
    for i := 0 to n
      invariant forall k :: 0 <= k < i ==> tab[k] == was[k + l]
      invariant forall k :: i <= k < tab.Length ==> tab[k] == was[k]
    {
      tab[i] := tab[i + l];
    }
  }

  method ClearLow(tab: array<Limb>, l: nat)
    requires l <= tab.Length
    modifies tab
    ensures forall k :: 0 <= k < l ==> tab[k] == 0
    ensures tab[l..] == old(tab[l..])
  {
    for i := 0 to l
      invariant forall k :: 0 <= k < i ==> tab[k] == 0
      invariant tab[l..] == old(tab[l..])
    {
      tab[i] := 0;
    }
  }

  /** Moves `n` limbs, and the one above them, up by one place and puts a limb below. */
  method PushLow(tab: array<Limb>, n: nat, a: Limb)
    requires n + 2 <= tab.Length
    modifies tab
    ensures tab[..n + 1] == [a] + old(tab[..n])
  {
    ghost var was := tab[..];
    MoveUp(tab, n + 1, 1);
    ghost var moved := tab[..];
    tab[0] := a;
    OneBelow(was, moved, tab[..], n, a);
  }

  lemma OneBelow(s: seq<Limb>, t: seq<Limb>, u: seq<Limb>, n: nat, a: Limb)
    requires |s| == |t| && n + 2 <= |t| && t[1..n + 2] == s[..n + 1] && u == t[0 := a]
    ensures u[..n + 1] == [a] + s[..n]
  {
    assert forall k :: 0 <= k < n ==> t[k + 1] == t[1..n + 2][k] == s[..n + 1][k] == s[k];
  }
}

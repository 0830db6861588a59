/** The grammar of numerals and the scanning part of `js_atod` in dtoa.c. */
module NumeralScan {
  import opened Powers
  import opened Limbs
  import opened Bignum
  import opened RadixPowers
  import opened RadixTables
  import opened Numerals
  import opened DigitInput

  ///// The grammar

  /** A character of a string, or the terminating zero. */
  function At(s: string, i: nat): char {
    if i < |s| then s[i] else '\0'
  }

  predicate IsDigitAt(s: string, i: nat, radix: nat) {
    i < |s| && ToDigit(s[i]) < radix
  }

  /** Where the run of digits that starts at `i` ends. */
  function RunEnd(s: string, i: nat, radix: nat): (j: nat)
    requires radix <= 36
    ensures i <= j && (i <= |s| ==> j <= |s|)
    decreases |s| - i
  {
    if IsDigitAt(s, i, radix) then RunEnd(s, i + 1, radix) else i
  }

  lemma {:induction false} RunEndIs(s: string, i: nat, radix: nat, k: nat)
    requires radix <= 36
    ensures !IsDigitAt(s, RunEnd(s, i, radix), radix)
    ensures i <= k < RunEnd(s, i, radix) ==> IsDigitAt(s, k, radix)
    ensures i <= k <= RunEnd(s, i, radix) ==> RunEnd(s, k, radix) == RunEnd(s, i, radix)
    decreases |s| - i
  {
    if IsDigitAt(s, i, radix) {
      RunEndIs(s, i + 1, radix, k);
    }
  }

  /** The digits between two positions. */
  ghost function Run(s: string, i: nat, j: nat): (ds: Digits)
    requires i <= j <= |s|
    ensures |ds| == j - i
    ensures forall k :: 0 <= k < j - i ==> ds[k] == ToDigit(s[i + k])
    decreases j - i
  {
    if i == j then [] else [ToDigit(s[i])] + Run(s, i + 1, j)
  }

  lemma RunIsDigits(s: string, i: nat, radix: nat)
    requires radix <= 36 && i <= |s|
    ensures AllBelow(Run(s, i, RunEnd(s, i, radix)), radix)
  {
    var ds := Run(s, i, RunEnd(s, i, radix));
    forall k | 0 <= k < |ds|
      ensures ds[k] < radix
    {
      RunEndIs(s, i, radix, i + k);
    }
  }

  /** Digits with at most one dot among them. */
  datatype Mantissa = Mantissa(ds: Digits, whole: nat, dot: bool, end: nat)

  /** A dot counts when something is before it or a digit follows. */
  predicate DotAt(s: string, i: nat, start: nat, radix: nat) {
    At(s, i) == '.' && (i > start || ToDigit(At(s, i + 1)) < radix)
  }

  ghost function MantissaAt(s: string, p0: nat, start: nat, radix: nat): Mantissa
    requires radix <= 36 && p0 <= |s|
  {
    var i1 := RunEnd(s, p0, radix);
    if DotAt(s, i1, start, radix) then
      var i2 := RunEnd(s, i1 + 1, radix);
      Mantissa(Run(s, p0, i1) + Run(s, i1 + 1, i2), i1 - p0, true, i2)
    else Mantissa(Run(s, p0, i1), i1 - p0, false, i1)
  }

  ///// Where the scan is

  /** The scan is before the dot or after it, with `pos` digits read. */
  ghost predicate ScanAt(s: string, p0: nat, start: nat, radix: nat, p: nat, pos: nat, dotPos: int)
    requires radix <= 36 && p0 <= |s|
  {
    var i1 := RunEnd(s, p0, radix);
    if dotPos < 0 then p0 <= p <= i1 && pos == p - p0
    else DotAt(s, i1, start, radix) && dotPos == i1 - p0 && i1 + 1 <= p <= RunEnd(s, i1 + 1, radix) && pos == p - p0 - 1
  }

  /** A dot is seen for the first time. */
  lemma ScanDot(s: string, p0: nat, start: nat, radix: nat, p: nat, pos: nat)
    requires radix <= 36 && p0 <= |s| && ScanAt(s, p0, start, radix, p, pos, -1) && DotAt(s, p, start, radix)
    ensures ScanAt(s, p0, start, radix, p + 1, pos, pos) && p + 1 <= |s|
  {
    RunEndIs(s, p0, radix, p);
    assert !IsDigitAt(s, p, radix);
  }

  /** A digit is read. */
  lemma ScanDigit(s: string, p0: nat, start: nat, radix: nat, p: nat, pos: nat, dotPos: int)
    requires radix <= 36 && p0 <= |s| && ScanAt(s, p0, start, radix, p, pos, dotPos) && ToDigit(At(s, p)) < radix
    ensures ScanAt(s, p0, start, radix, p + 1, pos + 1, dotPos) && p + 1 <= |s|
    ensures var m := MantissaAt(s, p0, start, radix); pos < |m.ds| && m.ds[pos] == ToDigit(At(s, p))
  {
    var i1 := RunEnd(s, p0, radix);
    assert IsDigitAt(s, p, radix);
    if dotPos < 0 {
      RunEndIs(s, p0, radix, p);
    } else {
      RunEndIs(s, i1 + 1, radix, p);
    }
  }

  /** Neither a digit nor a dot that counts: the scan is at the end. */
  lemma ScanEnd(s: string, p0: nat, start: nat, radix: nat, p: nat, pos: nat, dotPos: int)
    requires radix <= 36 && p0 <= |s| && ScanAt(s, p0, start, radix, p, pos, dotPos)
    requires ToDigit(At(s, p)) >= radix && (dotPos < 0 ==> !DotAt(s, p, start, radix))
    ensures var m := MantissaAt(s, p0, start, radix);
      p == m.end && pos == |m.ds| && m.dot == (dotPos >= 0) && m.whole == (if dotPos < 0 then pos else dotPos)
  {
    var i1 := RunEnd(s, p0, radix);
    if dotPos < 0 {
      RunEndIs(s, p0, radix, p);
    } else {
      RunEndIs(s, i1 + 1, radix, p);
    }
  }

  lemma DotIsNoDigit(s: string, i: nat, radix: nat)
    requires radix <= 36 && At(s, i) == '.'
    ensures ToDigit(At(s, i)) >= radix
  {
  }

  lemma MantissaDigits(s: string, p0: nat, start: nat, radix: nat)
    requires radix <= 36 && p0 <= |s|
    ensures var m := MantissaAt(s, p0, start, radix); AllBelow(m.ds, radix) && m.whole <= |m.ds| && p0 <= m.end <= |s|
    ensures var m := MantissaAt(s, p0, start, radix);
      |m.ds| <= |s| && (m.ds == [] && p0 == start ==> m.end == start) && (m.ds != [] ==> m.end > p0)
  {
    RunIsDigits(s, p0, radix);
    var i1 := RunEnd(s, p0, radix);
    if DotAt(s, i1, start, radix) {
      RunIsDigits(s, i1 + 1, radix);
      if i1 == start {
        assert IsDigitAt(s, i1 + 1, radix);
      }
    }
  }

  ///// The loops

  ghost predicate AllZero(ds: Digits) {
    forall i :: 0 <= i < |ds| ==> ds[i] == 0
  }

  /** Some digit is not zero. */
  ghost predicate AnyDigit(ds: Digits) {
    exists i :: 0 <= i < |ds| && ds[i] != 0
  }

  /** Skips leading zeros, and a dot among them. */
  method SkipZeros(s: string, p0: nat, start: nat, radix: nat) returns (p: nat, pos: nat, dotPos: int)
    requires 2 <= radix <= 36 && p0 <= |s|
    ensures p <= |s| && dotPos >= -1 && ScanAt(s, p0, start, radix, p, pos, dotPos)
    ensures pos <= |MantissaAt(s, p0, start, radix).ds| && AllZero(MantissaAt(s, p0, start, radix).ds[..pos])
    ensures pos < |MantissaAt(s, p0, start, radix).ds| ==> MantissaAt(s, p0, start, radix).ds[pos] > 0
  {
    hide RunEnd, DotAt, MantissaAt, ScanAt;
    ghost var ds := MantissaAt(s, p0, start, radix).ds;
    p, pos, dotPos := p0, 0, -1;
    ScanStart(s, p0, start, radix);
    while true
      invariant p <= |s| && dotPos >= -1 && ScanAt(s, p0, start, radix, p, pos, dotPos)
      invariant pos <= |ds| && AllZero(ds[..pos])
      decreases |s| - p
    {
      if DotAt(s, p, start, radix) {
        if dotPos >= 0 {
          DotStops(s, p0, start, radix, p, pos, dotPos);
          break;
        }
        ScanDot(s, p0, start, radix, p, pos);
        dotPos := pos;
        p := p + 1;
      }
      if At(s, p) != '0' {
        if ToDigit(At(s, p)) < radix {
          ScanDigit(s, p0, start, radix, p, pos, dotPos);
        } else if dotPos >= 0 {
          ScanEnd(s, p0, start, radix, p, pos, dotPos);
        } else {
          ScanEnd(s, p0, start, radix, p, pos, dotPos);
        }
        break;
      }
      ScanDigit(s, p0, start, radix, p, pos, dotPos);
      assert ds[..pos + 1] == ds[..pos] + [ds[pos]];
      p := p + 1;
      pos := pos + 1;
    }
  }

  lemma ScanStart(s: string, p0: nat, start: nat, radix: nat)
    requires radix <= 36 && p0 <= |s|
    ensures ScanAt(s, p0, start, radix, p0, 0, -1)
  {
  }

  lemma DotStops(s: string, p0: nat, start: nat, radix: nat, p: nat, pos: nat, dotPos: int)
    requires radix <= 36 && p0 <= |s| && ScanAt(s, p0, start, radix, p, pos, dotPos) && DotAt(s, p, start, radix) &&
      dotPos >= 0
    ensures var m := MantissaAt(s, p0, start, radix);
      p == m.end && pos == |m.ds| && m.dot == (dotPos >= 0) && m.whole == dotPos
  {
    DotIsNoDigit(s, p, radix);
    ScanEnd(s, p0, start, radix, p, pos, dotPos);
  }

  /** What the second loop has read: the first significant digits collected, and whether a later one is not zero. */
  ghost predicate Read(v: nat, len: nat, cur: nat, count: nat, radix: nat, sig: Digits, used: nat, extra: bool)
    requires 2 <= radix <= 36
  {
    used <= |sig| && (used < |sig| ==> used == MaxDigits(radix)) && used <= MaxDigits(radix) &&
    Collected(v, len, cur, count, radix, sig[..used]) && (extra <==> AnyDigit(sig[used..]))
  }

  /** Keeps a digit while there is room for more; later ones only count as zero or not. */
  method KeepDigit(tmp: Mpb, radix: nat, cur: Limb, count: nat, c: nat, ghost sig: Digits, used: nat, extra: bool)
    returns (cur2: Limb, count2: nat, used2: nat, extra2: bool)
    requires tmp.Valid() && tmp.Normal() && 2 <= radix <= 36 && c < radix && tmp.tab.Length >= 8
    requires Read(tmp.Value(), tmp.len, cur, count, radix, sig, used, extra)
    modifies tmp, tmp.tab
    ensures tmp.Valid() && tmp.Normal() && Read(tmp.Value(), tmp.len, cur2, count2, radix, sig + [c], used2, extra2)
  {
    hide Collected, Val, Pow, DigitsPerLimb, MaxDigits, Value, Read, AnyDigit;
    cur2, count2, used2, extra2 := cur, count, used, extra;
    ReadIs(tmp.Value(), tmp.len, cur, count, radix, sig, used, extra);
    if used < MaxDigits(radix) {
      cur2, count2 := AddDigit(tmp, radix, cur, count, c, sig[..used]);
      OneUsed(tmp.Value(), tmp.len, cur2, count2, radix, sig, used, extra, c);
      used2 := used + 1;
    } else {
      OneExtra(tmp.Value(), tmp.len, cur, count, radix, sig, used, extra, c);
      extra2 := extra || c != 0;
    }
  }

  /** Reads the significant digits, with a dot among them if there was none before. */
  method ReadDigits(s: string, p0: nat, start: nat, radix: nat, tmp: Mpb, p1: nat, sigPos: nat, dotPos1: int)
    returns (p: nat, pos: nat, dotPos: int, used: nat, extra: bool)
    requires 2 <= radix <= 36 && p0 <= |s| && p1 <= |s| && dotPos1 >= -1 &&
      ScanAt(s, p0, start, radix, p1, sigPos, dotPos1)
    requires sigPos <= |MantissaAt(s, p0, start, radix).ds|
    requires tmp.Valid() && tmp.Normal() && tmp.tab.Length >= 9 && tmp.Value() == 0 && tmp.len == 1
    modifies tmp, tmp.tab
    ensures tmp.Valid() && tmp.Normal() && tmp.len <= 7
    ensures var m := MantissaAt(s, p0, start, radix);
      p == m.end && pos == |m.ds| && m.dot == (dotPos >= 0) && m.whole == (if dotPos < 0 then pos else dotPos) &&
      used <= |m.ds| - sigPos && (used < |m.ds| - sigPos ==> used == MaxDigits(radix)) && used <= MaxDigits(radix) &&
      tmp.Value() == Value(m.ds[sigPos..sigPos + used], radix) && (extra <==> AnyDigit(m.ds[sigPos + used..]))
  {
    hide RunEnd, DotAt, MantissaAt, ScanAt, Collected, Val, Pow, DigitsPerLimb, MaxDigits, Value, Read, AnyDigit,
      ToDigit, At;
    ghost var ds := MantissaAt(s, p0, start, radix).ds;
    MantissaDigits(s, p0, start, radix);
    p, pos, dotPos, used, extra := p1, sigPos, dotPos1, 0, false;
    var cur: Limb, count := 0, 0;
    NothingRead(tmp.Value(), tmp.len, radix, ds[sigPos..pos]);
    while true
      invariant p <= |s| && dotPos >= -1 && ScanAt(s, p0, start, radix, p, pos, dotPos) && sigPos <= pos <= |ds|
      invariant tmp.Valid() && tmp.Normal()
      invariant Read(tmp.Value(), tmp.len, cur, count, radix, ds[sigPos..pos], used, extra)
      decreases |s| - p
    {
      if DotAt(s, p, start, radix) {
        if dotPos >= 0 {
          DotStops(s, p0, start, radix, p, pos, dotPos);
          break;
        }
        ScanDot(s, p0, start, radix, p, pos);
        dotPos := pos;
        p := p + 1;
      }
      var c := ToDigit(At(s, p));
      if c >= radix {
        ScanEnd(s, p0, start, radix, p, pos, dotPos);
        break;
      }
      ScanDigit(s, p0, start, radix, p, pos, dotPos);
      p := p + 1;
      ghost var sig := ds[sigPos..pos];
      assert ds[sigPos..pos + 1] == sig + [c];
      pos := pos + 1;
      cur, count, used, extra := KeepDigit(tmp, radix, cur, count, c, sig, used, extra);
    }
    assert pos == |ds|;
    AllRead(tmp.Value(), tmp.len, cur, count, radix, ds, sigPos, used, extra);
    LastDigits(tmp, radix, cur, count, ds[sigPos..sigPos + used]);
  }

  lemma NothingRead(v: nat, len: nat, radix: nat, sig: Digits)
    requires 2 <= radix <= 36 && v == 0 && len == 1 && sig == []
    ensures Read(v, len, 0, 0, radix, sig, 0, false)
  {
    NothingCollected(radix);
  }

  lemma ReadIs(v: nat, len: nat, cur: nat, count: nat, radix: nat, sig: Digits, used: nat, extra: bool)
    requires 2 <= radix <= 36 && Read(v, len, cur, count, radix, sig, used, extra)
    ensures used <= |sig| && (used < |sig| ==> used == MaxDigits(radix)) && used <= MaxDigits(radix)
    ensures Collected(v, len, cur, count, radix, sig[..used]) && (extra <==> AnyDigit(sig[used..]))
  {
  }

  /** All digits are read. */
  lemma AllRead(v: nat, len: nat, cur: nat, count: nat, radix: nat, ds: Digits, sigPos: nat, used: nat, extra: bool)
    requires 2 <= radix <= 36 && sigPos <= |ds| && Read(v, len, cur, count, radix, ds[sigPos..|ds|], used, extra)
    ensures used <= |ds| - sigPos && (used < |ds| - sigPos ==> used == MaxDigits(radix)) && used <= MaxDigits(radix)
    ensures Collected(v, len, cur, count, radix, ds[sigPos..sigPos + used]) &&
      (extra <==> AnyDigit(ds[sigPos + used..]))
  {
    hide Collected, MaxDigits, AnyDigit;
    var sig := ds[sigPos..|ds|];
    assert sig[..used] == ds[sigPos..sigPos + used] && sig[used..] == ds[sigPos + used..];
  }

  lemma OneUsed(v: nat, len: nat, cur: nat, count: nat, radix: nat, sig: Digits, used: nat, extra: bool, c: nat)
    requires 2 <= radix <= 36 && used == |sig| && used < MaxDigits(radix) && (extra <==> AnyDigit(sig[used..]))
    requires Collected(v, len, cur, count, radix, sig[..used] + [c])
    ensures Read(v, len, cur, count, radix, sig + [c], used + 1, extra)
  {
    assert (sig + [c])[..used + 1] == sig[..used] + [c];
    assert (sig + [c])[used + 1..] == [] && sig[used..] == [];
  }

  lemma OneExtra(v: nat, len: nat, cur: nat, count: nat, radix: nat, sig: Digits, used: nat, extra: bool, c: nat)
    requires 2 <= radix <= 36 && Read(v, len, cur, count, radix, sig, used, extra) && used >= MaxDigits(radix)
    ensures Read(v, len, cur, count, radix, sig + [c], used, extra || c != 0)
  {
    hide Collected, MaxDigits;
    assert (sig + [c])[..used] == sig[..used];
    assert (sig + [c])[used..] == sig[used..] + [c];
    if AnyDigit(sig[used..]) {
      var i :| 0 <= i < |sig[used..]| && sig[used..][i] != 0;
      assert (sig[used..] + [c])[i] != 0;
    }
    if c != 0 {
      assert (sig[used..] + [c])[|sig[used..]|] != 0;
    }
  }
}

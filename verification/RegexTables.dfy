/** Range tables of compiled code are sorted, and the VM's binary search over the bytes of a
    sorted table decides membership without running below its first entry. */
module RegexTables {
  import opened RegexSyntax
  import opened RegexCode
  import opened RegexCompile
  import opened RegexVM
  import opened RegexClass

  ghost predicate SortedPairs(pairs: seq<(int, int)>) {
    (forall k :: 0 <= k < |pairs| ==> pairs[k].0 <= pairs[k].1) &&
    (forall j, k :: 0 <= j < k < |pairs| ==> pairs[j].1 < pairs[k].0)
  }

  ghost predicate SortedTable(i: Instr) {
    match i
    case IRange(pairs) => pairs != [] && SortedPairs(pairs)
    case IRange32(pairs) => pairs != [] && SortedPairs(pairs)
    case _ => true
  }

  ghost predicate AllSorted(code: Code) {
    forall k :: 0 <= k < |code| ==> SortedTable(code[k])
  }

  lemma ClassSorted(points: seq<int>)
    requires Canonical(points)
    ensures SortedTable(ClassInstr(points))
  {
    var n := |points| / 2;
    if points != [] {
      forall j, k | 0 <= j <= k < n
        ensures j < k ==> Pairs32(points)[j].1 < Pairs32(points)[k].0
        ensures Pairs32(points)[k].0 <= Pairs32(points)[k].1
        ensures HighPoint(points) <= 0xffff ==> Pairs16(points)[k].0 <= Pairs16(points)[k].1
        ensures HighPoint(points) <= 0xffff && j < k ==> Pairs16(points)[j].1 < Pairs16(points)[k].0
      {
        Pairs32At(points, j);
        Pairs32At(points, k);
        Pairs16At(points, j);
        Pairs16At(points, k);
        assert points[2 * k] < points[2 * k + 1];
        assert j < k ==> points[2 * j + 1] < points[2 * k];
        BelowHighPoint(points, 2 * k);
        BelowHighPoint(points, 2 * j + 1);
      }
    }
  }

  /** Code framed by instructions other than ranges. */
  lemma SortedFramed(pre: Code, mid: Code, post: Code)
    requires forall k :: 0 <= k < |pre| ==> !IsCharOp(pre[k])
    requires forall k :: 0 <= k < |post| ==> !IsCharOp(post[k])
    requires AllSorted(mid)
    ensures AllSorted(pre + mid + post)
  {
  }

  lemma SortedIteration(atom: Code)
    requires AllSorted(atom)
    ensures AllSorted(Iteration(atom))
  {
    hide NeedCheck, AllSorted;
    SortedFramed([IPushCharPos], atom, [ICheckAdvance]);
  }

  lemma SortedLoops(atom: Code, greedy: bool, count: nat)
    requires AllSorted(atom)
    ensures AllSorted(StarCode(atom, greedy)) && AllSorted(CountedCode(atom, greedy, count))
    ensures AllSorted(OptionCode(atom, greedy)) && AllSorted(TimesCode(atom, count)) &&
      AllSorted(PlusCode(atom, greedy))
  {
    hide Iteration, CodeSize, AllSorted;
    SortedIteration(atom);
    var body, n: int := Iteration(atom), CodeSize(Iteration(atom));
    SortedFramed([ISplit(greedy, n + 5)], body, [IGoto(-(n + 10))]);
    SortedFramed([IPushI32(count), ISplit(greedy, n + 5)], body, [ILoop(-(n + 10)), IDrop]);
    SortedFramed([ISplit(greedy, n)], body, []);
    assert OptionCode(atom, greedy) == [ISplit(greedy, n)] + body + [];
    var len: int := CodeSize(atom);
    SortedFramed([IPushI32(count)], atom, [ILoop(-(len + 5)), IDrop]);
    SortedFramed([], atom, [ISplit(!greedy, -(len + 5))]);
    assert PlusCode(atom, greedy) == [] + atom + [ISplit(!greedy, -(len + 5))];
  }

  lemma SortedAppend(a: Code, b: Code)
    requires AllSorted(a) && AllSorted(b)
    ensures AllSorted(a + b)
  {
  }

  lemma SortedQuant(atom: Code, cc: nat, captures: nat, min: nat, max: nat, greedy: bool)
    requires AllSorted(atom)
    ensures AllSorted(QuantCode(atom, cc, captures, min, max, greedy))
  {
    hide NeedCheck, SimpleScan, AllSorted, StarCode, CountedCode, OptionCode, TimesCode, PlusCode;
    SortedNothing();
    SortedLoops(atom, greedy, max);
    SortedLoops(atom, greedy, min);
    if IsSimple(atom, max, greedy) {
      SortedFramed([ISimpleGreedy(CodeSize(atom) + 1, min, max, SimpleScan(atom))], atom, [IMatch]);
    } else if min == 0 {
      SortedReset(cc, captures);
      SortedAppend(ResetCode(cc, captures), OptionalCode(atom, max, greedy));
    } else if !(min == 1 && max == INT32_MAX && !NeedCheck(atom)) {
      if max > min { SortedLoops(atom, greedy, max - min); }
      SortedAppend(MandatoryCode(atom, min), RestCode(atom, min, max, greedy));
    }
  }

  lemma SortedNothing()
    ensures AllSorted([])
  {
  }

  lemma SortedReset(cc: nat, captures: nat)
    ensures AllSorted(ResetCode(cc, captures))
  {
  }

  lemma {:induction false} CodeSorted(r: Regex, cc: nat)
    requires Valid(r)
    ensures AllSorted(CodeOf(r, cc))
  {
    hide QuantCode;
    match r
    case Class(points) => ClassSorted(points);
    case Cat(a, b) =>
      CodeSorted(a, cc);
      CodeSorted(b, cc + Captures(a));
    case Alt(a, b) =>
      CodeSorted(a, cc);
      CodeSorted(b, cc + Captures(a));
    case Capture(b) => CodeSorted(b, cc + 1);
    case Look(_, b) => CodeSorted(b, cc);
    case Quant(b, min, max, greedy) =>
      CodeSorted(b, cc);
      SortedQuant(CodeOf(b, cc), cc, Captures(b), min, max, greedy);
    case _ =>
  }

  lemma ProgramSorted(r: Regex, sticky: bool)
    requires Valid(r)
    ensures AllSorted(ProgramCode(r, sticky))
  {
    CodeSorted(r, 1);
  }

  ///// The searches

  lemma {:induction false} PairAt16(bc: seq<byte>, p: nat, n: nat, k: nat)
    requires p + 4 * n <= |bc| && k < n
    ensures GetPairs16(bc, p, n)[k] == (GetU16(bc, p + 4 * k), GetU16(bc, p + 4 * k + 2))
    decreases k
  {
    if k > 0 { PairAt16(bc, p + 4, n - 1, k - 1); }
  }

  lemma {:induction false} PairAt32(bc: seq<byte>, p: nat, n: nat, k: nat)
    requires p + 8 * n <= |bc| && k < n
    ensures GetPairs32(bc, p, n)[k] == (GetU32(bc, p + 8 * k), GetU32(bc, p + 8 * k + 4))
    decreases k
  {
    if k > 0 { PairAt32(bc, p + 8, n - 1, k - 1); }
  }

  /** The test of opcode `range` on the `n` pairs of 16-bit words at `p`. */
  method SearchRange16(bc: seq<byte>, p: nat, n: nat, c: int) returns (found: bool)
    requires 1 <= n && p + 4 * n <= |bc| && SortedPairs(GetPairs16(bc, p, n))
    ensures found <==> RangeAccepts(GetPairs16(bc, p, n), c)
  {
    hide GetU16, GetPairs16;
    ghost var pairs := GetPairs16(bc, p, n);
    PairAt16(bc, p, n, 0);
    PairAt16(bc, p, n, n - 1);
    var low := GetU16(bc, p);
    if c < low { return false; }
    var high := GetU16(bc, p + (n - 1) * 4 + 2);
    if c >= 0xffff && high == 0xffff { return true; }
    if c > high {
      assert forall k :: 0 <= k < n - 1 ==> pairs[k].1 < pairs[n - 1].0;
      return false;
    }
    var idxMin: nat, idxMax: nat := 0, n - 1;
    while idxMin <= idxMax
      invariant idxMin <= n && idxMax < n
      invariant forall k :: 0 <= k < idxMin ==> pairs[k].1 < c
      invariant forall k :: idxMax < k < n ==> c < pairs[k].0
      decreases idxMax + 1 - idxMin
    {
      var idx := (idxMin + idxMax) / 2;
      PairAt16(bc, p, n, idx);
      low := GetU16(bc, p + idx * 4);
      high := GetU16(bc, p + idx * 4 + 2);
      if c < low {
        assert idx > 0;
        idxMax := idx - 1;
      } else if c > high {
        idxMin := idx + 1;
      } else {
        return true;
      }
    }
    return false;
  }

  /** The test of opcode `range32`. */
  method SearchRange32(bc: seq<byte>, p: nat, n: nat, c: int) returns (found: bool)
    requires 1 <= n && p + 8 * n <= |bc| && SortedPairs(GetPairs32(bc, p, n))
    ensures found <==> InPairs(GetPairs32(bc, p, n), c)
  {
    hide GetU32, GetPairs32;
    ghost var pairs := GetPairs32(bc, p, n);
    PairAt32(bc, p, n, 0);
    PairAt32(bc, p, n, n - 1);
    var low := GetU32(bc, p);
    if c < low {
      assert forall k :: 0 < k < n ==> pairs[0].1 < pairs[k].0;
      return false;
    }
    var high := GetU32(bc, p + (n - 1) * 8 + 4);
    if c > high {
      assert forall k :: 0 <= k < n - 1 ==> pairs[k].1 < pairs[n - 1].0;
      return false;
    }
    var idxMin: nat, idxMax: nat := 0, n - 1;
    while idxMin <= idxMax
      invariant idxMin <= n && idxMax < n
      invariant forall k :: 0 <= k < idxMin ==> pairs[k].1 < c
      invariant forall k :: idxMax < k < n ==> c < pairs[k].0
      decreases idxMax + 1 - idxMin
    {
      var idx := (idxMin + idxMax) / 2;
      PairAt32(bc, p, n, idx);
      low := GetU32(bc, p + idx * 8);
      high := GetU32(bc, p + idx * 8 + 4);
      if c < low {
        assert idx > 0;
        idxMax := idx - 1;
      } else if c > high {
        idxMin := idx + 1;
      } else {
        return true;
      }
    }
    return false;
  }
}

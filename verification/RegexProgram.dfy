/** The compiled code of a whole regular expression, and of a whole program. */
module RegexProgram {
  import opened RegexInput
  import opened RegexSyntax
  import opened RegexSemantics
  import opened RegexCode
  import opened RegexCompile
  import opened RegexVM
  import opened RegexYields
  import opened RegexAtoms
  import opened RegexCorrect
  import opened RegexLoops
  import opened RegexQuant
  import opened RegexSimple

  /** Wherever the code of `r` lies in the buffer, it performs `r`. */
  ghost predicate PerformsAnywhere(m: Machine, r: Regex, cc: nat)
    requires Valid(r)
  {
    forall q: int :: At(m.bc, q, CodeOf(r, cc)) ==> Performs(m, r, cc, q, q + CodeSize(CodeOf(r, cc)))
  }

  /** Code between two instruction lists. */
  lemma FramedAt(bc: seq<byte>, p: int, pre: Code, mid: Code, post: Code)
    requires At(bc, p, pre + mid + post)
    ensures At(bc, p, pre) && At(bc, p + CodeSize(pre), mid) && At(bc, p + CodeSize(pre) + CodeSize(mid), post)
    ensures CodeSize(pre + mid + post) == CodeSize(pre) + CodeSize(mid) + CodeSize(post)
  {
    hide At, CodeSize;
    AtAppend(bc, p, pre + mid, post);
    AtAppend(bc, p, pre, mid);
    SizeAppend(pre + mid, post);
    SizeAppend(pre, mid);
  }

  lemma OneAt(bc: seq<byte>, p: int, i: Instr)
    ensures At(bc, p, [i]) ==> Fetch(bc, p) == i
    ensures CodeSize([i]) == Size(i)
  {
    hide Fetch, Size;
    assert [i][1..] == [];
  }

  lemma TwoAt(bc: seq<byte>, p: int, i: Instr, j: Instr)
    ensures At(bc, p, [i, j]) ==> Fetch(bc, p) == i && Fetch(bc, p + Size(i)) == j
    ensures CodeSize([i, j]) == Size(i) + Size(j)
  {
    hide Fetch, Size;
    assert [i, j][1..] == [j];
    OneAt(bc, p + Size(i), j);
  }

  ///// The loop shapes, from the buffer to `Repeats`

  lemma IterationAnywhere(m: Machine, b: Regex, cc: nat, p: int)
    requires Valid(b) && PerformsAnywhere(m, b, cc) && At(m.bc, p, Iteration(CodeOf(b, cc)))
    ensures Iterates(m, b, cc, p, p + CodeSize(Iteration(CodeOf(b, cc))))
  {
    hide Fetch, Performs, Iterates, CodeOf, NeedCheck, CodeSize, At;
    var atom := CodeOf(b, cc);
    if NeedCheck(atom) {
      FramedAt(m.bc, p, [IPushCharPos], atom, [ICheckAdvance]);
      OneAt(m.bc, p, IPushCharPos);
    }
    IterationIterates(m, b, cc, p);
  }

  lemma StarAt(m: Machine, b: Regex, cc: nat, greedy: bool, p: int)
    requires Valid(b) && PerformsAnywhere(m, b, cc) && At(m.bc, p, StarCode(CodeOf(b, cc), greedy))
    ensures Repeats(m, b, cc, 0, INT32_MAX, greedy, p, p + CodeSize(StarCode(CodeOf(b, cc), greedy)))
  {
    hide Fetch, Performs, PerformsAnywhere, Iterates, CodeOf, CodeSize, At, Repeats, Iteration;
    var body := Iteration(CodeOf(b, cc));
    var n: int := CodeSize(body);
    FramedAt(m.bc, p, [ISplit(greedy, n + 5)], body, [IGoto(-(n + 10))]);
    OneAt(m.bc, p, ISplit(greedy, n + 5));
    OneAt(m.bc, p + 5 + n, IGoto(-(n + 10)));
    IterationAnywhere(m, b, cc, p + 5);
    StarRepeats(m, b, cc, greedy, p, n);
  }

  lemma OptionAt(m: Machine, b: Regex, cc: nat, greedy: bool, p: int)
    requires Valid(b) && PerformsAnywhere(m, b, cc) && At(m.bc, p, OptionCode(CodeOf(b, cc), greedy))
    ensures Repeats(m, b, cc, 0, 1, greedy, p, p + CodeSize(OptionCode(CodeOf(b, cc), greedy)))
  {
    hide Fetch, Performs, PerformsAnywhere, Iterates, CodeOf, CodeSize, At, Repeats, Iteration;
    var body := Iteration(CodeOf(b, cc));
    var n: int := CodeSize(body);
    AtAppend(m.bc, p, [ISplit(greedy, n)], body);
    SizeAppend([ISplit(greedy, n)], body);
    OneAt(m.bc, p, ISplit(greedy, n));
    IterationAnywhere(m, b, cc, p + 5);
    OptionRepeats(m, b, cc, greedy, p, n);
  }

  lemma CountedAt(m: Machine, b: Regex, cc: nat, greedy: bool, count: nat, p: int)
    requires Valid(b) && PerformsAnywhere(m, b, cc) && At(m.bc, p, CountedCode(CodeOf(b, cc), greedy, count))
    requires 0 < count < INT32_MAX
    ensures Repeats(m, b, cc, 0, count, greedy, p, p + CodeSize(CountedCode(CodeOf(b, cc), greedy, count)))
  {
    hide Fetch, Performs, PerformsAnywhere, Iterates, CodeOf, CodeSize, At, Repeats, Iteration;
    var body := Iteration(CodeOf(b, cc));
    var n: int := CodeSize(body);
    FramedAt(m.bc, p, [IPushI32(count), ISplit(greedy, n + 5)], body, [ILoop(-(n + 10)), IDrop]);
    TwoAt(m.bc, p, IPushI32(count), ISplit(greedy, n + 5));
    TwoAt(m.bc, p + 10 + n, ILoop(-(n + 10)), IDrop);
    IterationAnywhere(m, b, cc, p + 10);
    CountedRepeats(m, b, cc, greedy, p, n, count);
  }

  lemma PlusAt(m: Machine, b: Regex, cc: nat, greedy: bool, p: int)
    requires Valid(b) && PerformsAnywhere(m, b, cc) && At(m.bc, p, PlusCode(CodeOf(b, cc), greedy))
    requires !NeedCheck(CodeOf(b, cc))
    ensures Repeats(m, b, cc, 1, INT32_MAX, greedy, p, p + CodeSize(PlusCode(CodeOf(b, cc), greedy)))
  {
    hide Fetch, Performs, CodeOf, CodeSize, At, Repeats, NeedCheck;
    var atom := CodeOf(b, cc);
    var n: int := CodeSize(atom);
    AtAppend(m.bc, p, atom, [ISplit(!greedy, -(n + 5))]);
    SizeAppend(atom, [ISplit(!greedy, -(n + 5))]);
    OneAt(m.bc, p + n, ISplit(!greedy, -(n + 5)));
    PlusRepeats(m, b, cc, greedy, p, n);
  }

  lemma MandatoryAt(m: Machine, b: Regex, cc: nat, min: nat, p: int)
    requires Valid(b) && PerformsAnywhere(m, b, cc) && At(m.bc, p, MandatoryCode(CodeOf(b, cc), min)) && min > 0
    ensures Counts(m, b, cc, min, p, p + CodeSize(MandatoryCode(CodeOf(b, cc), min)))
  {
    hide Fetch, Performs, CodeOf, CodeSize, At, Counts;
    var atom := CodeOf(b, cc);
    var n: int := CodeSize(atom);
    if min == 1 {
      OnceCounts(m, b, cc, p, p + n);
    } else {
      FramedAt(m.bc, p, [IPushI32(min)], atom, [ILoop(-(n + 5)), IDrop]);
      OneAt(m.bc, p, IPushI32(min));
      TwoAt(m.bc, p + 5 + n, ILoop(-(n + 5)), IDrop);
      LoopCounts(m, b, cc, min, p, n);
    }
  }

  lemma RestAt(m: Machine, b: Regex, cc: nat, min: nat, max: nat, greedy: bool, p: int)
    requires Valid(b) && PerformsAnywhere(m, b, cc) && At(m.bc, p, RestCode(CodeOf(b, cc), min, max, greedy))
    requires 0 < min <= max <= INT32_MAX
    ensures Repeats(m, b, cc, 0, Beyond(max, min), greedy, p, p + CodeSize(RestCode(CodeOf(b, cc), min, max, greedy)))
  {
    hide Fetch, PerformsAnywhere, CodeOf, At, Repeats, StarCode, CountedCode;
    if max == INT32_MAX {
      StarAt(m, b, cc, greedy, p);
    } else if max > min {
      CountedAt(m, b, cc, greedy, max - min, p);
    } else {
      NothingRepeats(m, b, cc, greedy, p);
    }
  }

  lemma OptionalAt(m: Machine, b: Regex, cc: nat, max: nat, greedy: bool, p: int)
    requires Valid(b) && PerformsAnywhere(m, b, cc) && At(m.bc, p, OptionalCode(CodeOf(b, cc), max, greedy))
    requires max <= INT32_MAX
    ensures Repeats(m, b, cc, 0, max, greedy, p, p + CodeSize(OptionalCode(CodeOf(b, cc), max, greedy)))
  {
    hide Fetch, PerformsAnywhere, CodeOf, At, Repeats, StarCode, CountedCode, OptionCode;
    if max == 0 {
      NothingRepeats(m, b, cc, greedy, p);
    } else if max == 1 {
      OptionAt(m, b, cc, greedy, p);
    } else if max == INT32_MAX {
      StarAt(m, b, cc, greedy, p);
    } else {
      CountedAt(m, b, cc, greedy, max, p);
    }
  }

  lemma SimpleAtBuffer(m: Machine, b: Regex, cc: nat, min: nat, max: nat, p: int)
    requires Valid(b) && At(m.bc, p, SimpleCode(CodeOf(b, cc), min, max))
    requires SimpleScan(CodeOf(b, cc)) > 0 && min <= max && 0 < max <= INT32_MAX
    ensures Repeats(m, b, cc, min, max, true, p, p + CodeSize(SimpleCode(CodeOf(b, cc), min, max)))
  {
    hide Fetch, CodeOf, At, Repeats, CodeSize, SimpleLoop, SimpleScan;
    var atom := CodeOf(b, cc);
    var n, count := CodeSize(atom), SimpleScan(atom);
    var op := ISimpleGreedy(n + 1, min, max, count);
    assert SimpleCode(atom, min, max) == [op] + (atom + [IMatch]);
    AtAppend(m.bc, p, [op], atom + [IMatch]);
    SizeAppend([op], atom + [IMatch]);
    SizeAppend(atom, [IMatch]);
    OneAt(m.bc, p, op);
    OneAt(m.bc, p + 17 + n, IMatch);
    SimpleCodeLoops(m, b, cc, p + 17);
    SimpleRepeats(m, b, cc, p, n + 1, min, max, count);
  }

  ///// The quantifier

  /** What the generic loop code repeats, once the captures have been reset. */
  lemma LoopRepeats(m: Machine, b: Regex, cc: nat, min: nat, max: nat, greedy: bool, p: int)
    requires Valid(b) && PerformsAnywhere(m, b, cc) && min <= max <= INT32_MAX
    requires At(m.bc, p, LoopCode(CodeOf(b, cc), cc, Captures(b), min, max, greedy))
    ensures var reset := if min == 0 then ResetCode(cc, Captures(b)) else [];
      At(m.bc, p, reset) && Repeats(m, b, cc, min, max, greedy, p + CodeSize(reset),
        p + CodeSize(LoopCode(CodeOf(b, cc), cc, Captures(b), min, max, greedy)))
  {
    hide Fetch, PerformsAnywhere, At, Repeats, CodeSize, NeedCheck, Counts, CodeOf;
    hide PlusCode, OptionalCode, MandatoryCode, RestCode;
    var atom := CodeOf(b, cc);
    AtNothing(m.bc, p);
    if min == 0 {
      var reset, rest := ResetCode(cc, Captures(b)), OptionalCode(atom, max, greedy);
      AtAppend(m.bc, p, reset, rest);
      SizeAppend(reset, rest);
      OptionalAt(m, b, cc, max, greedy, p + CodeSize(reset));
    } else if min == 1 && max == INT32_MAX && !NeedCheck(atom) {
      PlusAt(m, b, cc, greedy, p);
    } else {
      var first, rest := MandatoryCode(atom, min), RestCode(atom, min, max, greedy);
      AtAppend(m.bc, p, first, rest);
      SizeAppend(first, rest);
      MandatoryAt(m, b, cc, min, p);
      RestAt(m, b, cc, min, max, greedy, p + CodeSize(first));
      CountsThenRepeats(m, b, cc, min, max, greedy, p, p + CodeSize(first), p + CodeSize(first) + CodeSize(rest));
    }
  }

  /** The simple greedy opcode refines the generic greedy loop: for an atom the scan accepts, the two
      pieces of code offer the same states in the same order. */
  lemma SimpleRefinesLoop(m: Machine, b: Regex, cc: nat, min: nat, max: nat, p: int, q: int)
    requires Valid(b) && cc + Captures(b) <= m.captureCount && min <= max <= INT32_MAX
    requires IsSimple(CodeOf(b, cc), max, true)
    requires At(m.bc, p, SimpleCode(CodeOf(b, cc), min, max))
    requires At(m.bc, q, LoopCode(CodeOf(b, cc), cc, Captures(b), min, max, true))
    ensures var atom := CodeOf(b, cc);
      var pEnd, qEnd := p + CodeSize(SimpleCode(atom, min, max)), q + CodeSize(LoopCode(atom, cc, 0, min, max, true));
      forall st, stack: seq<int>, S :: Good(m, st) ==>
        var offered := Repeat(b, cc, m.x, min, max, true, st);
        Yields(m, Run(p, st, stack, S), pEnd, stack, offered, S) &&
        Yields(m, Run(q, st, stack, S), qEnd, stack, offered, S)
  {
    hide Fetch, At, CodeOf, LoopCode, SimpleCode, SimpleScan, PerformsAnywhere, Yields, Repeat, PairAt;
    if Captures(b) > 0 { CapturesNotSimple(b, cc); }
    SimpleAtBuffer(m, b, cc, min, max, p);
    CodePerformsAnywhere(m, b, cc);
    LoopRepeats(m, b, cc, min, max, true, q);
  }

  /** What the code of a quantifier repeats, once the captures have been reset. */
  lemma QuantRepeats(m: Machine, b: Regex, cc: nat, min: nat, max: nat, greedy: bool, p: int)
    requires Valid(b) && PerformsAnywhere(m, b, cc) && min <= max <= INT32_MAX
    requires At(m.bc, p, CodeOf(Quant(b, min, max, greedy), cc))
    ensures var reset := if min == 0 then ResetCode(cc, Captures(b)) else [];
      At(m.bc, p, reset) &&
      Repeats(m, b, cc, min, max, greedy, p + CodeSize(reset), p + CodeSize(CodeOf(Quant(b, min, max, greedy), cc)))
  {
    hide Fetch, PerformsAnywhere, At, Repeats, CodeSize, SimpleScan, SimpleCode, LoopCode;
    var atom := CodeOf(b, cc);
    assert CodeOf(Quant(b, min, max, greedy), cc) == QuantCode(atom, cc, Captures(b), min, max, greedy);
    AtNothing(m.bc, p);
    if IsSimple(atom, max, greedy) {
      if Captures(b) > 0 { CapturesNotSimple(b, cc); }
      SimpleAtBuffer(m, b, cc, min, max, p);
    } else {
      LoopRepeats(m, b, cc, min, max, greedy, p);
    }
  }

  lemma AtNothing(bc: seq<byte>, p: int)
    ensures At(bc, p, []) && CodeSize([]) == 0
  {
  }

  lemma QuantPerforms(m: Machine, b: Regex, cc: nat, min: nat, max: nat, greedy: bool, p: int)
    requires Valid(b) && PerformsAnywhere(m, b, cc) && min <= max <= INT32_MAX
    requires cc + Captures(b) <= m.captureCount
    requires At(m.bc, p, CodeOf(Quant(b, min, max, greedy), cc))
    ensures var r := Quant(b, min, max, greedy); Performs(m, r, cc, p, p + CodeSize(CodeOf(r, cc)))
  {
    hide Fetch, PerformsAnywhere, At, CodeSize, CodeOf, Yields, Reaches, Repeat, PairAt;
    var r := Quant(b, min, max, greedy);
    var end := p + CodeSize(CodeOf(r, cc));
    QuantRepeats(m, b, cc, min, max, greedy, p);
    AtNothing(m.bc, p);
    var op := ISaveReset(cc, cc + Captures(b) - 1);
    OneAt(m.bc, p, op);
    forall st, stack: seq<int>, S | Good(m, st)
      ensures Yields(m, Run(p, st, stack, S), end, stack, Matches(r, cc, m.x, st), S)
    {
      var start := QuantStart(b, cc, min, st);
      assert Matches(r, cc, m.x, st) == Repeat(b, cc, m.x, min, max, greedy, start);
      if min == 0 && Captures(b) > 0 {
        assert Yields(m, Run(p + 3, start, stack, S), end, stack, Repeat(b, cc, m.x, min, max, greedy, start), S);
        assert Step(m, Run(p, st, stack, S)) == Run(p + 3, start, stack, S);
        YieldsAfterStep(m, Run(p, st, stack, S), end, stack, Repeat(b, cc, m.x, min, max, greedy, start), S);
      }
    }
  }

  ///// The other terms

  lemma CatAt(m: Machine, a: Regex, b: Regex, cc: nat, p: int)
    requires Valid(a) && Valid(b) && At(m.bc, p, CodeOf(Cat(a, b), cc))
    requires PerformsAnywhere(m, a, cc) && PerformsAnywhere(m, b, cc + Captures(a))
    ensures Performs(m, Cat(a, b), cc, p, p + CodeSize(CodeOf(Cat(a, b), cc)))
  {
    hide Fetch, At, CodeSize, Performs;
    var ca, cb := CodeOf(a, cc), CodeOf(b, cc + Captures(a));
    AtAppend(m.bc, p, ca, cb);
    SizeAppend(ca, cb);
    CatPerforms(m, a, b, cc, p, p + CodeSize(ca), p + CodeSize(ca) + CodeSize(cb));
  }

  lemma AltAt(m: Machine, a: Regex, b: Regex, cc: nat, p: int)
    requires Valid(a) && Valid(b) && At(m.bc, p, CodeOf(Alt(a, b), cc))
    requires PerformsAnywhere(m, a, cc) && PerformsAnywhere(m, b, cc + Captures(a))
    ensures Performs(m, Alt(a, b), cc, p, p + CodeSize(CodeOf(Alt(a, b), cc)))
  {
    hide Fetch, At, CodeSize, Performs;
    var ca, cb := CodeOf(a, cc), CodeOf(b, cc + Captures(a));
    var na, nb := CodeSize(ca), CodeSize(cb);
    AtAppend(m.bc, p, [ISplit(true, na + 5)] + ca + [IGoto(nb)], cb);
    SizeAppend([ISplit(true, na + 5)] + ca + [IGoto(nb)], cb);
    FramedAt(m.bc, p, [ISplit(true, na + 5)], ca, [IGoto(nb)]);
    OneAt(m.bc, p, ISplit(true, na + 5));
    OneAt(m.bc, p + 5 + na, IGoto(nb));
    AltPerforms(m, a, b, cc, p, na, nb);
  }

  lemma CaptureAt(m: Machine, b: Regex, cc: nat, p: int)
    requires Valid(b) && At(m.bc, p, CodeOf(Capture(b), cc)) && cc < m.captureCount
    requires PerformsAnywhere(m, b, cc + 1)
    ensures Performs(m, Capture(b), cc, p, p + CodeSize(CodeOf(Capture(b), cc)))
  {
    hide Fetch, At, CodeSize, Performs;
    var cb := CodeOf(b, cc + 1);
    FramedAt(m.bc, p, [ISave(false, cc)], cb, [ISave(true, cc)]);
    OneAt(m.bc, p, ISave(false, cc));
    OneAt(m.bc, p + 2 + CodeSize(cb), ISave(true, cc));
    CapturePerforms(m, b, cc, p, CodeSize(cb));
  }

  lemma LookAt(m: Machine, negated: bool, b: Regex, cc: nat, p: int)
    requires Valid(b) && At(m.bc, p, CodeOf(Look(negated, b), cc))
    requires PerformsAnywhere(m, b, cc)
    ensures Performs(m, Look(negated, b), cc, p, p + CodeSize(CodeOf(Look(negated, b), cc)))
  {
    hide Fetch, At, CodeSize, Performs;
    var cb := CodeOf(b, cc);
    FramedAt(m.bc, p, [ILook(negated, CodeSize(cb) + 1)], cb, [IMatch]);
    OneAt(m.bc, p, ILook(negated, CodeSize(cb) + 1));
    OneAt(m.bc, p + 5 + CodeSize(cb), IMatch);
    LookPerforms(m, negated, b, cc, p, CodeSize(cb));
  }

  ///// Every term

  /** Compilation preserves meaning: the code of `r` offers the matches of `r`, all of them, best first. */
  lemma {:induction false} CodePerforms(m: Machine, r: Regex, cc: nat, p: int)
    requires Valid(r) && cc + Captures(r) <= m.captureCount && At(m.bc, p, CodeOf(r, cc))
    ensures Performs(m, r, cc, p, p + CodeSize(CodeOf(r, cc)))
    decreases r, 0
  {
    hide Fetch, At, CodeSize, Performs, QuantCode, PerformsAnywhere;
    match r
    case Empty =>
      AtNothing(m.bc, p);
      EmptyPerforms(m, cc, p);
    case Cat(a, b) =>
      CodePerformsAnywhere(m, a, cc);
      CodePerformsAnywhere(m, b, cc + Captures(a));
      CatAt(m, a, b, cc, p);
    case Alt(a, b) =>
      CodePerformsAnywhere(m, a, cc);
      CodePerformsAnywhere(m, b, cc + Captures(a));
      AltAt(m, a, b, cc, p);
    case Capture(b) =>
      CodePerformsAnywhere(m, b, cc + 1);
      CaptureAt(m, b, cc, p);
    case Look(negated, b) =>
      CodePerformsAnywhere(m, b, cc);
      LookAt(m, negated, b, cc, p);
    case Quant(b, min, max, greedy) =>
      CodePerformsAnywhere(m, b, cc);
      QuantPerforms(m, b, cc, min, max, greedy, p);
    case _ =>
      AtomAt(m, r, cc, p);
  }

  lemma {:induction false} CodePerformsAnywhere(m: Machine, r: Regex, cc: nat)
    requires Valid(r) && cc + Captures(r) <= m.captureCount
    ensures PerformsAnywhere(m, r, cc)
    decreases r, 1
  {
    hide Fetch, At, CodeSize, Performs, CodeOf;
    forall q: int | At(m.bc, q, CodeOf(r, cc))
      ensures Performs(m, r, cc, q, q + CodeSize(CodeOf(r, cc)))
    {
      CodePerforms(m, r, cc, q);
    }
  }

  lemma AtomAt(m: Machine, r: Regex, cc: nat, p: int)
    requires Valid(r) && (IsCharTerm(r) || IsAssertion(r)) && At(m.bc, p, CodeOf(r, cc))
    ensures Performs(m, r, cc, p, p + CodeSize(CodeOf(r, cc)))
  {
    hide Fetch, Performs;
    var i := CodeOf(r, cc)[0];
    assert CodeOf(r, cc) == [i];
    OneAt(m.bc, p, i);
    AtomPerforms(m, r, cc, p, i);
  }

  lemma EmptyPerforms(m: Machine, cc: nat, p: int)
    ensures Performs(m, Empty, cc, p, p)
  {
    hide Yields;
    forall st, stack: seq<int>, S | Good(m, st)
      ensures Yields(m, Run(p, st, stack, S), p, stack, Matches(Empty, cc, m.x, st), S)
    {
      YieldsOne(m, p, stack, st, S);
    }
  }
}

/** The operands of compiled code fit the fields of the encoding. */
module RegexFit {
  import opened RegexSyntax
  import opened RegexCode
  import opened RegexCompile
  import opened RegexClass

  lemma {:induction false} ScanBound(code: Code)
    ensures SimpleScan(code) <= CodeSize(code)
  {
    if code != [] { ScanBound(code[1..]); }
  }

  /** Every piece of a concatenation is smaller than the whole. */
  lemma FramedSize(pre: Code, mid: Code, post: Code)
    ensures CodeSize(pre + mid + post) == CodeSize(pre) + CodeSize(mid) + CodeSize(post)
  {
    SizeAppend(pre + mid, post);
    SizeAppend(pre, mid);
  }

  lemma Size1(i: Instr)
    ensures CodeSize([i]) == Size(i)
  {
    assert [i][1..] == [];
  }

  lemma Size2(i: Instr, j: Instr)
    ensures CodeSize([i, j]) == Size(i) + Size(j)
  {
    assert [i, j] == [i] + [j];
    SizeAppend([i], [j]);
    Size1(i);
    Size1(j);
  }

  lemma IterationSize(atom: Code)
    ensures CodeSize(Iteration(atom)) == CodeSize(atom) + (if NeedCheck(atom) then 2 else 0)
    ensures AllFit(atom) ==> AllFit(Iteration(atom))
  {
    hide NeedCheck, CodeSize;
    FramedSize([IPushCharPos], atom, [ICheckAdvance]);
    Size1(IPushCharPos);
    Size1(ICheckAdvance);
  }

  lemma StarFit(atom: Code, greedy: bool)
    requires AllFit(atom) && CodeSize(StarCode(atom, greedy)) < TWO31
    ensures AllFit(StarCode(atom, greedy))
    ensures CodeSize(StarCode(atom, greedy)) == CodeSize(Iteration(atom)) + 10
  {
    hide Iteration, CodeSize;
    var n: int := CodeSize(Iteration(atom));
    IterationSize(atom);
    FramedSize([ISplit(greedy, n + 5)], Iteration(atom), [IGoto(-(n + 10))]);
    Size1(ISplit(greedy, n + 5));
    Size1(IGoto(-(n + 10)));
  }

  lemma CountedFit(atom: Code, greedy: bool, count: nat)
    requires AllFit(atom) && CodeSize(CountedCode(atom, greedy, count)) < TWO31 && count <= INT32_MAX
    ensures AllFit(CountedCode(atom, greedy, count))
  {
    hide Iteration, CodeSize;
    var n: int := CodeSize(Iteration(atom));
    IterationSize(atom);
    FramedSize([IPushI32(count), ISplit(greedy, n + 5)], Iteration(atom), [ILoop(-(n + 10)), IDrop]);
    Size2(IPushI32(count), ISplit(greedy, n + 5));
    Size2(ILoop(-(n + 10)), IDrop);
  }

  lemma TimesFit(atom: Code, count: nat)
    requires AllFit(atom) && CodeSize(TimesCode(atom, count)) < TWO31 && count <= INT32_MAX
    ensures AllFit(TimesCode(atom, count))
  {
    hide CodeSize;
    var n: int := CodeSize(atom);
    FramedSize([IPushI32(count)], atom, [ILoop(-(n + 5)), IDrop]);
    Size1(IPushI32(count));
    Size2(ILoop(-(n + 5)), IDrop);
  }

  lemma SimpleFit(atom: Code, min: nat, max: nat)
    requires AllFit(atom) && CodeSize(SimpleCode(atom, min, max)) < TWO31
    requires SimpleScan(atom) >= 0 && min <= INT32_MAX && max <= INT32_MAX
    ensures AllFit(SimpleCode(atom, min, max))
  {
    hide CodeSize, SimpleScan;
    var op := ISimpleGreedy(CodeSize(atom) + 1, min, max, SimpleScan(atom));
    ScanBound(atom);
    FramedSize([op], atom, [IMatch]);
    Size1(op);
    Size1(IMatch);
  }

  lemma OptionalFit(atom: Code, max: nat, greedy: bool)
    requires AllFit(atom) && CodeSize(OptionalCode(atom, max, greedy)) < TWO31 && max <= INT32_MAX
    ensures AllFit(OptionalCode(atom, max, greedy))
  {
    hide CodeSize, Iteration, StarCode, CountedCode;
    if max == 1 {
      var op := ISplit(greedy, CodeSize(Iteration(atom)));
      IterationSize(atom);
      SizeAppend([op], Iteration(atom));
      Size1(op);
    } else if max == INT32_MAX {
      StarFit(atom, greedy);
    } else if max > 0 {
      CountedFit(atom, greedy, max);
    }
  }

  lemma RestFit(atom: Code, min: nat, max: nat, greedy: bool)
    requires AllFit(atom) && CodeSize(RestCode(atom, min, max, greedy)) < TWO31 && min <= max <= INT32_MAX
    ensures AllFit(RestCode(atom, min, max, greedy))
  {
    hide CodeSize, Iteration, StarCode, CountedCode;
    if max == INT32_MAX {
      StarFit(atom, greedy);
    } else if max > min {
      CountedFit(atom, greedy, max - min);
    }
  }

  lemma QuantFit(atom: Code, cc: nat, captures: nat, min: nat, max: nat, greedy: bool)
    requires AllFit(atom) && min <= max <= INT32_MAX && cc + captures <= CAPTURE_COUNT_MAX
    requires CodeSize(QuantCode(atom, cc, captures, min, max, greedy)) < TWO31
    ensures AllFit(QuantCode(atom, cc, captures, min, max, greedy))
  {
    hide CodeSize, SimpleScan, NeedCheck, OptionalCode, RestCode, TimesCode, SimpleCode;
    if IsSimple(atom, max, greedy) {
      SimpleFit(atom, min, max);
    } else if min == 0 {
      SizeAppend(ResetCode(cc, captures), OptionalCode(atom, max, greedy));
      OptionalFit(atom, max, greedy);
    } else if min == 1 && max == INT32_MAX && !NeedCheck(atom) {
      var jump := ISplit(!greedy, -(CodeSize(atom) + 5));
      SizeAppend(atom, [jump]);
      Size1(jump);
    } else {
      SizeAppend(MandatoryCode(atom, min), RestCode(atom, min, max, greedy));
      if min > 1 { TimesFit(atom, min); }
      RestFit(atom, min, max, greedy);
    }
  }

  /** Compiled code fits the fields when it is smaller than 2 GiB and within the compiler's limits. */
  lemma {:induction false} CodeFit(r: Regex, cc: nat)
    requires Valid(r) && ClassesFit(r) && Small(r, cc) && cc + Captures(r) <= CAPTURE_COUNT_MAX
    ensures AllFit(CodeOf(r, cc))
  {
    hide CodeSize, QuantCode;
    match r
    case Class(points) => ClassFits(points);
    case Cat(a, b) =>
      CodeFit(a, cc);
      CodeFit(b, cc + Captures(a));
    case Alt(a, b) =>
      CodeFit(a, cc);
      CodeFit(b, cc + Captures(a));
      AltFit(CodeOf(a, cc), CodeOf(b, cc + Captures(a)));
    case Capture(b) => CodeFit(b, cc + 1);
    case Look(negated, b) =>
      CodeFit(b, cc);
      LookFit(negated, CodeOf(b, cc));
    case Quant(b, min, max, greedy) =>
      CodeFit(b, cc);
      QuantFit(CodeOf(b, cc), cc, Captures(b), min, max, greedy);
    case _ =>
  }

  lemma AltFit(a: Code, b: Code)
    requires AllFit(a) && AllFit(b) && CodeSize(AltCode(a, b)) < TWO31
    ensures AllFit(AltCode(a, b))
  {
    hide CodeSize;
    var split, jump := ISplit(true, CodeSize(a) + 5), IGoto(CodeSize(b));
    FramedSize([split], a, [jump]);
    SizeAppend([split] + a + [jump], b);
    Size1(split);
    Size1(jump);
  }

  lemma LookFit(negated: bool, b: Code)
    requires AllFit(b) && CodeSize(LookCode(negated, b)) < TWO31
    ensures AllFit(LookCode(negated, b))
  {
    hide CodeSize;
    var op := ILook(negated, CodeSize(b) + 1);
    FramedSize([op], b, [IMatch]);
    Size1(op);
    Size1(IMatch);
  }
}

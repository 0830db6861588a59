/** What the two scans of an atom's code promise about the atom's matches. */
module RegexAtoms {
  import opened RegexInput
  import opened RegexSyntax
  import opened RegexSemantics
  import opened RegexCode
  import opened RegexCompile
  import opened RegexVM
  import opened RegexClass

  ///// Alignment is kept

  ghost predicate AllAligned(x: Subject, ss: seq<State>) {
    forall k :: 0 <= k < |ss| ==> Aligned(x, ss[k].pos)
  }

  lemma {:induction false} MatchesAligned(r: Regex, cc: nat, x: Subject, st: State)
    requires st.pos <= |x.units| && Aligned(x, st.pos)
    ensures AllAligned(x, Matches(r, cc, x, st))
    decreases r, 0, 0, 0, 0
  {
    hide Repeat, MatchesEach, CloseEach, PairAt;
    match r
    case Cat(a, b) =>
      MatchesAligned(a, cc, x, st);
      MatchesEachAligned(b, cc + Captures(a), x, st.pos, |st.caps|, Matches(a, cc, x, st));
    case Alt(a, b) =>
      MatchesAligned(a, cc, x, st);
      MatchesAligned(b, cc + Captures(a), x, st);
    case Capture(b) =>
      var started := State(st.pos, SetCapture(st.caps, 2 * cc, Some(st.pos)));
      MatchesAligned(b, cc + 1, x, started);
      CloseAligned(cc, Matches(b, cc + 1, x, started), x, st.pos, |x.units|, |st.caps|);
    case Look(_, _) =>
    case Quant(b, min, max, greedy) => RepeatAligned(b, cc, x, min, max, greedy, QuantStart(b, cc, min, st));
    case _ =>
      if st.pos < |x.units| { NextIsAligned(x, st.pos); }
  }

  lemma {:induction false} CloseAligned(cc: nat, ss: seq<State>, x: Subject, lo: nat, hi: nat, n: nat)
    requires StatesBetween(lo, ss, hi, n) && AllAligned(x, ss)
    ensures AllAligned(x, CloseEach(cc, ss, lo, hi, n))
  {
    if ss != [] { CloseAligned(cc, ss[1..], x, lo, hi, n); }
  }

  lemma {:induction false} MatchesEachAligned(r: Regex, cc: nat, x: Subject, lo: nat, n: nat, ps: seq<State>)
    requires StatesBetween(lo, ps, |x.units|, n) && AllAligned(x, ps)
    ensures AllAligned(x, MatchesEach(r, cc, x, lo, n, ps))
    decreases r, 1, 0, 0, |ps|
  {
    if ps != [] {
      MatchesAligned(r, cc, x, ps[0]);
      MatchesEachAligned(r, cc, x, lo, n, ps[1..]);
    }
  }

  lemma {:induction false} RepeatAligned(b: Regex, cc: nat, x: Subject, min: nat, max: nat, greedy: bool, st: State)
    requires st.pos <= |x.units| && Aligned(x, st.pos)
    ensures AllAligned(x, Repeat(b, cc, x, min, max, greedy, st))
    decreases b, 1, min, |x.units| + 1 - st.pos, 1
  {
    hide Matches, PairAt, RepeatEach, AdvancedStates;
    if max > 0 {
      var once := Matches(b, cc, x, st);
      MatchesAligned(b, cc, x, st);
      if min > 0 {
        RepeatEachAligned(b, cc, x, min - 1, Lower(max), greedy, st.pos, |st.caps|, once);
      } else {
        AdvancedAligned(st.pos, once, x, |x.units|, |st.caps|);
        RepeatEachAligned(b, cc, x, 0, Lower(max), greedy, st.pos + 1, |st.caps|,
                          AdvancedStates(st.pos, once, |x.units|, |st.caps|));
      }
    }
  }

  lemma {:induction false} RepeatEachAligned(b: Regex, cc: nat, x: Subject, min: nat, max: nat, greedy: bool,
                                             lo: nat, n: nat, ps: seq<State>)
    requires StatesBetween(lo, ps, |x.units|, n) && AllAligned(x, ps)
    ensures AllAligned(x, RepeatEach(b, cc, x, min, max, greedy, lo, n, ps))
    decreases b, 1, min, |x.units| + 1 - lo, 1 + |ps|
  {
    if ps != [] {
      RepeatAligned(b, cc, x, min, max, greedy, ps[0]);
      RepeatEachAligned(b, cc, x, min, max, greedy, lo, n, ps[1..]);
    }
  }

  lemma {:induction false} AdvancedAligned(i: nat, ps: seq<State>, x: Subject, hi: nat, n: nat)
    requires StatesBetween(i, ps, hi, n) && AllAligned(x, ps)
    ensures AllAligned(x, AdvancedStates(i, ps, hi, n))
  {
    if ps != [] { AdvancedAligned(i, ps[1..], x, hi, n); }
  }

  ///// Scans of concatenated code

  lemma {:induction false} ScanAppend(a: Code, b: Code)
    ensures SimpleScan(a + b) ==
            if SimpleScan(a) < 0 || SimpleScan(b) < 0 then -1 else SimpleScan(a) + SimpleScan(b)
  {
    if a == [] {
      assert a + b == b;
    } else {
      assert (a + b)[1..] == a[1..] + b;
      ScanAppend(a[1..], b);
    }
  }

  lemma {:induction false} PredictableAppend(a: Code, b: Code)
    ensures AllPredictable(a + b) <==> AllPredictable(a) && AllPredictable(b)
    ensures ReadsChar(a + b) <==> ReadsChar(a) || ReadsChar(b)
  {
    if a == [] {
      assert a + b == b;
    } else {
      assert (a + b)[1..] == a[1..] + b;
      PredictableAppend(a[1..], b);
    }
  }

  /** The only quantifiers whose code consists of plain opcodes are `{0}` and the non-simple `{1}`. */
  lemma PlainQuant(atom: Code, cc: nat, captures: nat, min: nat, max: nat, greedy: bool)
    requires min <= max
    ensures var code := QuantCode(atom, cc, captures, min, max, greedy);
      (SimpleScan(code) >= 0 || AllPredictable(code)) ==>
        (max == 0 && code == ResetCode(cc, captures)) || (min == max == 1 && code == atom)
  {
    hide CodeSize;
    var code := QuantCode(atom, cc, captures, min, max, greedy);
    if IsSimple(atom, max, greedy) {
    } else if min == 0 {
      var reset, rest := ResetCode(cc, captures), OptionalCode(atom, max, greedy);
      ScanAppend(reset, rest);
      PredictableAppend(reset, rest);
      if max == 0 {
        assert reset + rest == reset;
      } else {
        OptionalNotPlain(atom, max, greedy);
      }
    } else if min == 1 && max == INT32_MAX && !NeedCheck(atom) {
      ScanAppend(atom, [ISplit(!greedy, -(CodeSize(atom) + 5))]);
      PredictableAppend(atom, [ISplit(!greedy, -(CodeSize(atom) + 5))]);
    } else {
      var first, rest := MandatoryCode(atom, min), RestCode(atom, min, max, greedy);
      ScanAppend(first, rest);
      PredictableAppend(first, rest);
      if min > 1 {
        var loop := [ILoop(-(CodeSize(atom) + 5)), IDrop];
        PredictableAppend([IPushI32(min)] + atom, loop);
      } else if max > 1 {
        OptionalNotPlain(atom, if max == INT32_MAX then max else max - min, greedy);
        assert rest == StarCode(atom, greedy) || rest == CountedCode(atom, greedy, max - min);
        CountedNotPlain(atom, greedy, max - min);
      } else {
        assert first + rest == atom;
      }
    }
  }

  lemma BranchNotPlain(a: Code, b: Code, negated: bool)
    ensures SimpleScan(AltCode(a, b)) < 0 && !AllPredictable(AltCode(a, b))
    ensures SimpleScan(LookCode(negated, a)) < 0 && !AllPredictable(LookCode(negated, a))
  {
  }

  lemma CaptureScans(code: Code, cc: nat)
    ensures var c := [ISave(false, cc)] + code + [ISave(true, cc)];
      SimpleScan(c) < 0 && (AllPredictable(c) <==> AllPredictable(code)) && (ReadsChar(c) <==> ReadsChar(code))
  {
    PredictableAppend([ISave(false, cc)] + code, [ISave(true, cc)]);
    PredictableAppend([ISave(false, cc)], code);
    assert [ISave(true, cc)][1..] == [] && [ISave(false, cc)][1..] == [];
  }

  lemma ResetReadsNothing(cc: nat, captures: nat)
    ensures !ReadsChar(ResetCode(cc, captures))
    ensures captures > 0 ==> SimpleScan(ResetCode(cc, captures)) < 0
  {
    assert captures > 0 ==> ResetCode(cc, captures)[1..] == [];
  }

  lemma CountedNotPlain(atom: Code, greedy: bool, count: nat)
    ensures SimpleScan(CountedCode(atom, greedy, count)) < 0 && !AllPredictable(CountedCode(atom, greedy, count))
  {
    var n := CodeSize(Iteration(atom));
    var code := CountedCode(atom, greedy, count);
    assert code[0] == IPushI32(count) && code[1..][0] == ISplit(greedy, n + 5);
  }

  lemma OptionalNotPlain(atom: Code, max: nat, greedy: bool)
    requires max > 0
    ensures SimpleScan(OptionalCode(atom, max, greedy)) < 0 && !AllPredictable(OptionalCode(atom, max, greedy))
  {
    CountedNotPlain(atom, greedy, max);
  }

  /** A term with capture groups is never simple. */
  lemma {:induction false} CapturesNotSimple(r: Regex, cc: nat)
    requires Valid(r) && Captures(r) > 0
    ensures SimpleScan(CodeOf(r, cc)) < 0
  {
    hide QuantCode, AltCode, LookCode, SimpleScan, ResetCode;
    match r
    case Cat(a, b) =>
      ScanAppend(CodeOf(a, cc), CodeOf(b, cc + Captures(a)));
      if Captures(a) > 0 { CapturesNotSimple(a, cc); } else { CapturesNotSimple(b, cc + Captures(a)); }
    case Alt(a, b) => BranchNotPlain(CodeOf(a, cc), CodeOf(b, cc + Captures(a)), false);
    case Capture(b) => CaptureScans(CodeOf(b, cc + 1), cc);
    case Look(negated, b) => BranchNotPlain(CodeOf(b, cc), [], negated);
    case Quant(b, min, max, greedy) =>
      CapturesNotSimple(b, cc);
      PlainQuant(CodeOf(b, cc), cc, Captures(b), min, max, greedy);
      ResetReadsNothing(cc, Captures(b));
  }

  ///// `{1}` and `{0}`

  lemma {:induction false} RepeatEachZero(b: Regex, cc: nat, x: Subject, greedy: bool, lo: nat, n: nat, ps: seq<State>)
    requires StatesBetween(lo, ps, |x.units|, n)
    ensures RepeatEach(b, cc, x, 0, 0, greedy, lo, n, ps) == ps
    decreases |ps|
  {
    if ps != [] { RepeatEachZero(b, cc, x, greedy, lo, n, ps[1..]); }
  }

  lemma RepeatOnce(b: Regex, cc: nat, x: Subject, greedy: bool, st: State)
    requires st.pos <= |x.units|
    ensures Repeat(b, cc, x, 1, 1, greedy, st) == Matches(b, cc, x, st)
  {
    RepeatEachZero(b, cc, x, greedy, st.pos, |st.caps|, Matches(b, cc, x, st));
  }

  ///// re_need_check_advance is sound

  /** Code without unpredictable opcodes that reads a character always advances. */
  lemma {:induction false} PredictableAdvances(r: Regex, cc: nat, x: Subject, st: State)
    requires Valid(r) && st.pos <= |x.units| && AllPredictable(CodeOf(r, cc)) && ReadsChar(CodeOf(r, cc))
    ensures StatesBetween(st.pos + 1, Matches(r, cc, x, st), |x.units|, |st.caps|)
    decreases r, 2
  {
    hide QuantCode, AltCode, LookCode, AllPredictable, ReadsChar, Repeat, MatchesEach, CloseEach, Captures;
    match r
    case Cat(a, b) =>
      var ca, cb := CodeOf(a, cc), CodeOf(b, cc + Captures(a));
      PredictableAppend(ca, cb);
      if ReadsChar(ca) {
        PredictableAdvances(a, cc, x, st);
        EachLo(b, cc + Captures(a), x, st.pos, st.pos + 1, |st.caps|, Matches(a, cc, x, st));
      } else {
        EachAdvances(b, cc + Captures(a), x, st.pos, |st.caps|, Matches(a, cc, x, st));
      }
    case Alt(a, b) => BranchNotPlain(CodeOf(a, cc), CodeOf(b, cc + Captures(a)), false);
    case Look(negated, b) => BranchNotPlain(CodeOf(b, cc), [], negated);
    case Capture(b) =>
      CaptureScans(CodeOf(b, cc + 1), cc);
      var started := State(st.pos, SetCapture(st.caps, 2 * cc, Some(st.pos)));
      PredictableAdvances(b, cc + 1, x, started);
      CloseLo(cc, Matches(b, cc + 1, x, started), st.pos, st.pos + 1, |x.units|, |st.caps|);
    case Quant(b, min, max, greedy) => QuantAdvances(b, cc, x, min, max, greedy, st);
    case _ => AtomAdvances(r, cc, x, st);
  }

  lemma {:induction false} QuantAdvances(b: Regex, cc: nat, x: Subject, min: nat, max: nat, greedy: bool, st: State)
    requires var r := Quant(b, min, max, greedy);
      Valid(r) && st.pos <= |x.units| && AllPredictable(CodeOf(r, cc)) && ReadsChar(CodeOf(r, cc))
    ensures StatesBetween(st.pos + 1, Matches(Quant(b, min, max, greedy), cc, x, st), |x.units|, |st.caps|)
    decreases Quant(b, min, max, greedy), 0
  {
    hide QuantCode, AllPredictable, ReadsChar, ResetCode;
    PlainQuant(CodeOf(b, cc), cc, Captures(b), min, max, greedy);
    ResetReadsNothing(cc, Captures(b));
    RepeatOnce(b, cc, x, greedy, st);
    PredictableAdvances(b, cc, x, st);
  }

  lemma AtomAdvances(r: Regex, cc: nat, x: Subject, st: State)
    requires Valid(r) && (r.Empty? || IsCharTerm(r) || IsAssertion(r)) && st.pos <= |x.units|
    requires ReadsChar(CodeOf(r, cc))
    ensures StatesBetween(st.pos + 1, Matches(r, cc, x, st), |x.units|, |st.caps|)
  {
    assert CodeOf(r, cc) == [] || CodeOf(r, cc)[1..] == [];
  }

  lemma {:induction false} EachLo(r: Regex, cc: nat, x: Subject, lo: nat, lo2: nat, n: nat, ps: seq<State>)
    requires StatesBetween(lo, ps, |x.units|, n) && StatesBetween(lo2, ps, |x.units|, n)
    ensures MatchesEach(r, cc, x, lo, n, ps) == MatchesEach(r, cc, x, lo2, n, ps)
    decreases |ps|
  {
    if ps != [] { EachLo(r, cc, x, lo, lo2, n, ps[1..]); }
  }

  lemma {:induction false} CloseLo(cc: nat, ss: seq<State>, lo: nat, lo2: nat, hi: nat, n: nat)
    requires StatesBetween(lo, ss, hi, n) && StatesBetween(lo2, ss, hi, n)
    ensures CloseEach(cc, ss, lo, hi, n) == CloseEach(cc, ss, lo2, hi, n)
  {
    if ss != [] { CloseLo(cc, ss[1..], lo, lo2, hi, n); }
  }

  lemma {:induction false} EachAdvances(r: Regex, cc: nat, x: Subject, lo: nat, n: nat, ps: seq<State>)
    requires Valid(r) && AllPredictable(CodeOf(r, cc)) && ReadsChar(CodeOf(r, cc))
    requires StatesBetween(lo, ps, |x.units|, n)
    ensures StatesBetween(lo + 1, MatchesEach(r, cc, x, lo, n, ps), |x.units|, n)
    decreases r, 3, |ps|
  {
    if ps != [] {
      PredictableAdvances(r, cc, x, ps[0]);
      EachAdvances(r, cc, x, lo, n, ps[1..]);
    }
  }

  /** Filtering out the iterations that did not advance changes nothing when all did. */
  lemma {:induction false} AllAdvanced(i: nat, ps: seq<State>, hi: nat, n: nat)
    requires StatesBetween(i + 1, ps, hi, n)
    ensures StatesBetween(i, ps, hi, n) && AdvancedStates(i, ps, hi, n) == ps
  {
    if ps != [] { AllAdvanced(i, ps[1..], hi, n); }
  }

  ///// re_is_simple_quantifier is sound

  lemma {:induction false} PrevTimesAdd(x: Subject, pos: nat, a: nat, b: nat)
    requires pos <= |x.units| && PrevTimes(x, pos, a).Some?
    ensures PrevTimes(x, pos, a + b) == PrevTimes(x, PrevTimes(x, pos, a).value, b)
    decreases a
  {
    if a > 0 { PrevTimesAdd(x, PrevPos(x, pos), a - 1, b); }
  }

  /** The code of `size` bytes at `p` finds the only state of `ss` (if any) without backtracking,
      and stepping back `count` characters undoes it. */
  ghost predicate Undoable(m: Machine, p: int, size: nat, count: nat, st: State, ss: seq<State>)
    requires st.pos <= |m.x.units|
  {
    if ss == [] then InnerRun(m, p, st.pos) == NoMatch
    else
      |ss| == 1 && ss[0].caps == st.caps && ss[0].pos <= |m.x.units|
      && InnerRun(m, p, st.pos) == InnerRun(m, p + size, ss[0].pos)
      && PrevTimes(m.x, ss[0].pos, count) == Some(st.pos)
      && (count > 0 ==> st.pos < ss[0].pos)
  }

  lemma UndoableThen(m: Machine, p: int, sizeA: nat, countA: nat, sizeB: nat, countB: nat,
                     st: State, ss: seq<State>, ts: seq<State>)
    requires st.pos <= |m.x.units| && Undoable(m, p, sizeA, countA, st, ss)
    requires ss != [] ==> Undoable(m, p + sizeA, sizeB, countB, ss[0], ts)
    requires ss != [] && ts != [] ==> st.pos <= ss[0].pos <= ts[0].pos
    ensures Undoable(m, p, sizeA + sizeB, countA + countB, st, if ss == [] then [] else ts)
  {
    hide InnerRun, PrevTimes;
    if ss != [] && ts != [] {
      PrevTimesAdd(m.x, ts[0].pos, countB, countA);
    }
  }

  /** A simple atom has at most one match at a position, found without backtracking and undone by PREV_CHAR. */
  ghost predicate SimpleAt(m: Machine, r: Regex, cc: nat, p: int, st: State)
    requires Valid(r) && st.pos <= |m.x.units|
  {
    var code := CodeOf(r, cc);
    SimpleScan(code) >= 0 && Undoable(m, p, CodeSize(code), SimpleScan(code), st, Matches(r, cc, m.x, st))
  }

  lemma {:induction false} SimpleSound(m: Machine, r: Regex, cc: nat, p: int, st: State)
    requires Valid(r) && SimpleScan(CodeOf(r, cc)) >= 0 && At(m.bc, p, CodeOf(r, cc))
    requires st.pos <= |m.x.units| && Aligned(m.x, st.pos)
    ensures SimpleAt(m, r, cc, p, st)
    decreases r
  {
    hide QuantCode, AltCode, LookCode, SimpleScan, Repeat, MatchesEach, CloseEach, InnerRun, PrevTimes;
    match r
    case Empty => SimpleEmpty(m, cc, p, st);
    case Cat(a, b) => SimpleCat(m, a, b, cc, p, st);
    case Quant(b, min, max, greedy) => SimpleQuant(m, b, min, max, greedy, cc, p, st);
    case Alt(a, b) => BranchNotPlain(CodeOf(a, cc), CodeOf(b, cc + Captures(a)), false);
    case Look(negated, b) => BranchNotPlain(CodeOf(b, cc), [], negated);
    case Capture(b) => CaptureScans(CodeOf(b, cc + 1), cc);
    case _ => SimpleAtom(m, r, cc, p, st);
  }

  lemma SimpleEmpty(m: Machine, cc: nat, p: int, st: State)
    requires st.pos <= |m.x.units|
    ensures SimpleAt(m, Empty, cc, p, st)
  {
  }

  lemma {:induction false} SimpleQuant(m: Machine, b: Regex, min: nat, max: nat, greedy: bool, cc: nat, p: int,
        st: State)
    requires var r := Quant(b, min, max, greedy);
      Valid(r) && SimpleScan(CodeOf(r, cc)) >= 0 && At(m.bc, p, CodeOf(r, cc))
    requires st.pos <= |m.x.units| && Aligned(m.x, st.pos)
    ensures SimpleAt(m, Quant(b, min, max, greedy), cc, p, st)
    decreases Quant(b, min, max, greedy), 0
  {
    hide QuantCode, ResetCode, InnerRun, SimpleScan, CodeSize, At, PrevTimes, Repeat;
    var r := Quant(b, min, max, greedy);
    PlainQuant(CodeOf(b, cc), cc, Captures(b), min, max, greedy);
    ResetReadsNothing(cc, Captures(b));
    if max > 0 {
      RepeatOnce(b, cc, m.x, greedy, st);
      SimpleSound(m, b, cc, p, st);
      assert Matches(r, cc, m.x, st) == Matches(b, cc, m.x, st);
    } else {
      NoReset(cc);
      SimpleEmpty(m, cc, p, st);
      RepeatNone(b, cc, m.x, greedy, st);
      assert CodeOf(r, cc) == CodeOf(Empty, cc) && Matches(r, cc, m.x, st) == Matches(Empty, cc, m.x, st);
    }
  }

  lemma RepeatNone(b: Regex, cc: nat, x: Subject, greedy: bool, st: State)
    requires st.pos <= |x.units|
    ensures Repeat(b, cc, x, 0, 0, greedy, st) == [st]
  {
  }

  lemma NoReset(cc: nat)
    ensures ResetCode(cc, 0) == []
  {
  }

  lemma SimpleAtom(m: Machine, r: Regex, cc: nat, p: int, st: State)
    requires Valid(r) && (IsCharTerm(r) || IsAssertion(r)) && At(m.bc, p, CodeOf(r, cc))
    requires st.pos <= |m.x.units| && Aligned(m.x, st.pos)
    ensures SimpleAt(m, r, cc, p, st)
  {
    hide PairAt, PrevTimes, OpEnd, AtomEnd, Fetch, Matches, CodeOf, InnerRun;
    var i := AtomCode(m, r, cc, p);
    AtomOpAgrees(r, i, m.x, st.pos);
    AtomMatches(r, cc, m.x, st);
    AtomUndone(r, m.x, st.pos);
    InnerOne(m, p, i, st.pos);
  }

  lemma AtomCode(m: Machine, r: Regex, cc: nat, p: int) returns (i: Instr)
    requires Valid(r) && (IsCharTerm(r) || IsAssertion(r)) && At(m.bc, p, CodeOf(r, cc))
    ensures CodeOf(r, cc) == [i] == CodeOf(r, 0) && Fetch(m.bc, p) == i && CodeSize([i]) == Size(i)
    ensures SimpleScan([i]) == if IsCharTerm(r) then 1 else 0
  {
    hide Fetch;
    i := CodeOf(r, 0)[0];
    assert CodeOf(r, cc) == [i] && [i][1..] == [];
  }

  lemma InnerOne(m: Machine, p: int, i: Instr, pos: nat)
    requires Fetch(m.bc, p) == i && (IsCharOp(i) || IsAssertionOp(i)) && pos <= |m.x.units|
    ensures var e := OpEnd(i, m.x, pos);
      InnerRun(m, p, pos) == if e.None? then NoMatch else InnerRun(m, p + Size(i), e.value)
  {
    hide Fetch, OpEnd;
  }

  lemma AtomMatches(r: Regex, cc: nat, x: Subject, st: State)
    requires (IsCharTerm(r) || IsAssertion(r)) && st.pos <= |x.units|
    ensures var e := AtomEnd(r, x, st.pos);
      Matches(r, cc, x, st) == if e.Some? then [State(e.value, st.caps)] else []
  {
  }

  /** Stepping back undoes a character, and an assertion does not move. */
  lemma AtomUndone(r: Regex, x: Subject, pos: nat)
    requires (IsCharTerm(r) || IsAssertion(r)) && pos <= |x.units| && Aligned(x, pos)
    ensures AtomEnd(r, x, pos).Some? ==>
      var e := AtomEnd(r, x, pos).value;
      PrevTimes(x, e, if IsCharTerm(r) then 1 else 0) == Some(pos) && (IsCharTerm(r) ==> pos < e)
  {
    if pos < |x.units| { PrevUndoesNext(x, pos); }
    assert PrevTimes(x, pos, 0) == Some(pos);
  }

  lemma {:induction false} SimpleCat(m: Machine, a: Regex, b: Regex, cc: nat, p: int, st: State)
    requires var r := Cat(a, b); Valid(r) && SimpleScan(CodeOf(r, cc)) >= 0 && At(m.bc, p, CodeOf(r, cc))
    requires st.pos <= |m.x.units| && Aligned(m.x, st.pos)
    ensures SimpleAt(m, Cat(a, b), cc, p, st)
    decreases Cat(a, b), 0
  {
    hide At, Undoable, SimpleScan, CodeSize, MatchesEach, PairAt, Matches, CodeOf;
    var ca, cb := CodeOf(a, cc), CodeOf(b, cc + Captures(a));
    CodeOfCat(a, b, cc);
    MatchesCat(a, b, cc, m.x, st);
    ScanAppend(ca, cb);
    AtAppend(m.bc, p, ca, cb);
    SizeAppend(ca, cb);
    SimpleSound(m, a, cc, p, st);
    var ss := Matches(a, cc, m.x, st);
    var cc2, q := cc + Captures(a), p + CodeSize(ca);
    var ts := [];
    FewStates(m, p, CodeSize(ca), SimpleScan(ca), st, ss);
    if ss != [] {
      MatchesAligned(a, cc, m.x, st);
      SimpleSound(m, b, cc2, q, ss[0]);
      ts := Matches(b, cc2, m.x, ss[0]);
    }
    EachOfFew(b, cc2, m.x, st.pos, |st.caps|, ss);
    UndoableThen(m, p, CodeSize(ca), SimpleScan(ca), CodeSize(cb), SimpleScan(cb), st, ss, ts);
  }

  lemma {:induction false} CodeOfCat(a: Regex, b: Regex, cc: nat)
    requires Valid(a) && Valid(b)
    ensures CodeOf(Cat(a, b), cc) == CodeOf(a, cc) + CodeOf(b, cc + Captures(a))
  {
    hide QuantCode, ClassInstr, AltCode, LookCode, Canonical;
  }

  lemma FewStates(m: Machine, p: int, size: nat, count: nat, st: State, ss: seq<State>)
    requires st.pos <= |m.x.units| && Undoable(m, p, size, count, st, ss)
    ensures |ss| <= 1
  {
  }

  lemma EachOfFew(r: Regex, cc: nat, x: Subject, lo: nat, n: nat, ps: seq<State>)
    requires StatesBetween(lo, ps, |x.units|, n) && |ps| <= 1
    ensures MatchesEach(r, cc, x, lo, n, ps) == if ps == [] then [] else Matches(r, cc, x, ps[0])
  {
    if ps != [] { assert MatchesEach(r, cc, x, lo, n, ps[1..]) == []; }
  }
}

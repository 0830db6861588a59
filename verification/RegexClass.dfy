/** The table emitted for a character class accepts exactly the characters of the class. */
module RegexClass {
  import opened RegexInput
  import opened RegexSyntax
  import opened RegexSemantics
  import opened RegexCode
  import opened RegexCompile
  import opened RegexVM

  lemma {:induction false} Pairs16At(points: seq<int>, k: nat)
    requires |points| % 2 == 0 && k < |points| / 2
    ensures Pairs16(points)[k] == (points[2 * k],
              if points[2 * k + 1] - 1 == UINT32_MAX - 1 then 0xffff else points[2 * k + 1] - 1)
    decreases k
  {
    if k > 0 { Pairs16At(points[2..], k - 1); }
  }

  lemma {:induction false} Pairs32At(points: seq<int>, k: nat)
    requires |points| % 2 == 0 && k < |points| / 2
    ensures Pairs32(points)[k] == (points[2 * k], points[2 * k + 1] - 1)
    decreases k
  {
    if k > 0 { Pairs32At(points[2..], k - 1); }
  }

  /** All boundaries but an infinite last one fit 16 bits. */
  lemma BelowHighPoint(points: seq<int>, k: nat)
    requires Canonical(points) && k < |points| && |points| >= 2
    ensures points[k] <= HighPoint(points) || (k == |points| - 1 && points[k] == UINT32_MAX)
  {
    var n := |points|;
    if k < n - 1 { assert points[k] < points[n - 1]; }
    if k < n - 2 { assert points[k] < points[n - 2]; }
  }

  /** 16-bit tables, with 0xffff for infinity. */
  lemma Range16Agrees(points: seq<int>, c: int)
    requires Canonical(points) && points != [] && HighPoint(points) <= 0xffff
    requires 0 <= c <= 0x10FFFF
    ensures RangeAccepts(Pairs16(points), c) <==> InClass(points, c)
  {
    var pairs, n := Pairs16(points), |points| / 2;
    Pairs16At(points, 0);
    Pairs16At(points, n - 1);
    BelowHighPoint(points, |points| - 1);
    BelowHighPoint(points, |points| - 2);
    if RangeAccepts(pairs, c) && !InPairs(pairs, c) {
      assert points[|points| - 1] == UINT32_MAX;
      assert points[2 * (n - 1)] <= c < points[2 * (n - 1) + 1];
    } else if RangeAccepts(pairs, c) {
      var k :| 0 <= k < n && pairs[k].0 <= c <= pairs[k].1;
      Pairs16At(points, k);
      assert points[2 * k] <= c < points[2 * k + 1];
    }
    if InClass(points, c) {
      var k :| 0 <= k < n && points[2 * k] <= c < points[2 * k + 1];
      Pairs16At(points, k);
      BelowHighPoint(points, 2 * k + 1);
      assert k > 0 ==> points[0] < points[2 * k];
      assert c < 0xffff ==> pairs[k].0 <= c <= pairs[k].1;
      if c >= 0xffff {
        assert points[2 * k + 1] > 0xffff;
        assert k == n - 1;
      }
    }
  }

  /** 32-bit tables. */
  lemma Range32Agrees(points: seq<int>, c: int)
    requires Canonical(points)
    ensures InPairs(Pairs32(points), c) <==> InClass(points, c)
  {
    var pairs, n := Pairs32(points), |points| / 2;
    if InPairs(pairs, c) {
      var k :| 0 <= k < n && pairs[k].0 <= c <= pairs[k].1;
      Pairs32At(points, k);
      assert points[2 * k] <= c < points[2 * k + 1];
    }
    if InClass(points, c) {
      var k :| 0 <= k < n && points[2 * k] <= c < points[2 * k + 1];
      Pairs32At(points, k);
      assert pairs[k].0 <= c <= pairs[k].1;
    }
  }

  /** Whatever encoding `re_emit_range` chooses, the opcode accepts a code point exactly when it is in the set. */
  lemma ClassAgrees(points: seq<int>, c: int)
    requires Canonical(points) && 0 <= c <= 0x10FFFF
    ensures OpAccepts(ClassInstr(points), c) <==> InClass(points, c)
  {
    if points == [] {
    } else if HighPoint(points) <= 0xffff {
      Range16Agrees(points, c);
    } else {
      Range32Agrees(points, c);
    }
  }

  /** The operands of the class instruction fit their fields. */
  lemma ClassFits(points: seq<int>)
    requires Canonical(points) && |points| / 2 < 65535
    ensures Fits(ClassInstr(points))
  {
    if points != [] {
      forall k | 0 <= k < |points| / 2
        ensures HighPoint(points) <= 0xffff ==>
          0 <= Pairs16(points)[k].0 < TWO16 && 0 <= Pairs16(points)[k].1 < TWO16
        ensures 0 <= Pairs32(points)[k].0 < TWO32 && 0 <= Pairs32(points)[k].1 < TWO32
      {
        Pairs16At(points, k);
        Pairs32At(points, k);
        assert points[2 * k] < points[2 * k + 1];
        BelowHighPoint(points, 2 * k);
        BelowHighPoint(points, 2 * k + 1);
      }
    }
  }

  ///// One-character terms and assertions

  /** The opcode of a one-character term or assertion has the term's effect. */
  lemma AtomOpAgrees(r: Regex, i: Instr, x: Subject, pos: nat)
    requires Valid(r) && (IsCharTerm(r) || IsAssertion(r)) && pos <= |x.units|
    requires CodeOf(r, 0) == [i]
    ensures OpEnd(i, x, pos) == AtomEnd(r, x, pos)
    ensures IsCharOp(i) <==> IsCharTerm(r)
    ensures IsAssertionOp(i) <==> IsAssertion(r)
  {
    match r {
      case Class(points) =>
        if pos < |x.units| { ClassAgrees(points, CharAt(x, pos)); }
      case _ =>
    }
  }
}

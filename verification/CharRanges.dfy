/** Operations on character ranges (`cr_*` of libunicode.c and libunicode.h). */
module CharRanges {
  import opened CharSets

  datatype Op = Union | Inter | Xor

  predicate Combine(op: Op, a: bool, b: bool) {
    match op
    case Union => a || b
    case Inter => a && b
    case Xor => a != b
  }

  ///// Compression

  /** What is kept while compressing: boundaries written, then boundaries still to be read. */
  ghost predicate Compressing(s: Points, out: Points, i: nat) {
    i <= |s| && i % 2 == 0 && |out| % 2 == 0 && |out| <= i && Increasing(out) &&
    (out != [] && i < |s| ==> out[|out| - 1] < s[i]) &&
    forall c :: SameParity(s, out, i, c)
  }

  ghost predicate SameParity(s: Points, out: Points, i: nat, c: int)
    requires i <= |s|
  {
    (Count(out, c) + Count(s[i..], c)) % 2 == Count(s, c) % 2
  }

  ghost function One(v: int, c: int): nat {
    if v <= c then 1 else 0
  }

  lemma CompressStart(s: Points)
    ensures Compressing(s, [], 0)
  {
    assert s[0..] == s;
  }

  lemma DropTwo(s: Points, i: nat, c: int)
    requires i + 1 < |s|
    ensures Count(s[i..], c) == One(s[i], c) + One(s[i + 1], c) + Count(s[i + 2..], c)
  {
    assert s[i..] == ([s[i]] + [s[i + 1]]) + s[i + 2..];
    CountConcat([s[i]] + [s[i + 1]], s[i + 2..], c);
    CountConcat([s[i]], [s[i + 1]], c);
    CountSnoc([], s[i], c);
    CountSnoc([], s[i + 1], c);
    assert [] + [s[i]] == [s[i]] && [] + [s[i + 1]] == [s[i + 1]];
  }

  /** An empty interval is left out. */
  lemma SkipEmpty(s: Points, out: Points, i: nat)
    requires Sorted(s) && Compressing(s, out, i) && i + 1 < |s| && s[i] == s[i + 1]
    ensures Compressing(s, out, i + 2)
  {
    hide Count;
    var next := i + 2;
    forall c
      ensures SameParity(s, out, next, c)
    {
      assert SameParity(s, out, i, c);
      DropTwo(s, i, c);
    }
  }

  /** From `i` to `j` each interval ends where the next begins. */
  ghost predicate Touching(s: Points, i: nat, j: nat) {
    i <= j && (j - i) % 2 == 0 && j + 1 < |s| && forall m: nat :: i < m < j && (m - i) % 2 == 1 ==> s[m] == s[m + 1]
  }

  lemma {:induction false} TouchingCount(s: Points, i: nat, j: nat, c: int)
    requires Touching(s, i, j)
    ensures (Count(s[i..], c) - One(s[i], c) - One(s[j + 1], c) - Count(s[j + 2..], c)) % 2 == 0
    decreases j - i
  {
    hide Count;
    DropTwo(s, i, c);
    if i < j {
      assert s[i + 1] == s[i + 2];
      TouchingCount(s, i + 2, j, c);
    }
  }

  lemma MergeParity(s: Points, out: Points, i: nat, j: nat, c: int)
    requires Touching(s, i, j) && SameParity(s, out, i, c)
    ensures SameParity(s, out + [s[i], s[j + 1]], j + 2, c)
  {
    hide Count;
    assert out + [s[i], s[j + 1]] == (out + [s[i]]) + [s[j + 1]];
    CountSnoc(out, s[i], c);
    CountSnoc(out + [s[i]], s[j + 1], c);
    TouchingCount(s, i, j, c);
  }

  /** Touching intervals become one. */
  lemma MergeTouching(s: Points, out: Points, i: nat, j: nat)
    requires Sorted(s) && Compressing(s, out, i) && i + 1 < |s| && s[i] != s[i + 1] && Touching(s, i, j)
    requires j + 3 < |s| ==> s[j + 1] != s[j + 2]
    ensures Compressing(s, out + [s[i], s[j + 1]], j + 2)
  {
    hide Count, SameParity, Touching;
    TouchingEnd(s, i, j);
    var out2, next := out + [s[i], s[j + 1]], j + 2;
    forall c
      ensures SameParity(s, out2, next, c)
    {
      MergeParity(s, out, i, j, c);
    }
    assert s[i] < s[i + 1] <= s[j + 1];
    assert Increasing(out2);
  }

  lemma TouchingEnd(s: Points, i: nat, j: nat)
    requires Touching(s, i, j)
    ensures i <= j && (j - i) % 2 == 0 && j + 1 < |s|
  {
  }

  lemma CompressEnd(s: Points, out: Points)
    requires Sorted(s) && Compressing(s, out, |s|)
    ensures Canonical(out) && forall c :: Member(out, c) == Member(s, c)
  {
    hide Count;
    assert s[|s|..] == [];
    forall c
      ensures Odd(out, c) == Odd(s, c)
    {
      assert SameParity(s, out, |s|, c);
      CountNone([], c);
    }
    SameOddSameMember(out, s);
  }

  ///// Merging two sets

  /** After the boundaries up to `v`: the result is inside exactly where the operation says. */
  ghost predicate Merging(op: Op, a: Points, b: Points, ai: nat, bi: nat, r: Points, v: int) {
    ai <= |a| && bi <= |b| &&
    (forall i :: 0 <= i < ai ==> a[i] <= v) && (forall i :: 0 <= i < bi ==> b[i] <= v) &&
    (forall i :: 0 <= i < |r| ==> r[i] <= v) &&
    (forall i :: ai <= i < |a| ==> v <= a[i]) && (forall i :: bi <= i < |b| ==> v <= b[i]) &&
    NonDecreasing(r) && (|r| % 2 == 1) == Combine(op, ai % 2 == 1, bi % 2 == 1) &&
    forall c :: Odd(r, c) == Combine(op, Odd(a[..ai], c), Odd(b[..bi], c))
  }

  lemma MergeStart(op: Op, a: Points, b: Points)
    ensures Merging(op, a, b, 0, 0, [], -1)
  {
    assert a[..0] == [] && b[..0] == [];
  }

  /** One more boundary: of one set, of the other, or of both. */
  lemma MergeStep(op: Op, a: Points, b: Points, ai: nat, bi: nat, r: Points, v: int, ai2: nat, bi2: nat, w: Point)
    requires NonDecreasing(a) && NonDecreasing(b) && Merging(op, a, b, ai, bi, r, v)
    requires ai <= ai2 <= ai + 1 && bi <= bi2 <= bi + 1 && ai2 + bi2 > ai + bi && ai2 <= |a| && bi2 <= |b|
    requires ai2 > ai ==> a[ai] == w
    requires bi2 > bi ==> b[bi] == w
    requires ai2 == ai && ai < |a| ==> w <= a[ai]
    requires bi2 == bi && bi < |b| ==> w <= b[bi]
    ensures var inside := Combine(op, ai2 % 2 == 1, bi2 % 2 == 1);
      Merging(op, a, b, ai2, bi2, if inside != (|r| % 2 == 1) then r + [w] else r, w)
  {
    hide Odd;
    var inside := Combine(op, ai2 % 2 == 1, bi2 % 2 == 1);
    var r2 := if inside != (|r| % 2 == 1) then r + [w] else r;
    assert v <= w;
    forall c
      ensures Odd(r2, c) == Combine(op, Odd(a[..ai2], c), Odd(b[..bi2], c))
    {
      StepParity(op, a, b, ai, bi, r, v, ai2, bi2, w, c);
    }
    StepBound(a, ai, ai2, w);
    StepBound(b, bi, bi2, w);
  }

  lemma StepBound(a: Points, ai: nat, ai2: nat, w: Point)
    requires NonDecreasing(a) && ai <= ai2 <= ai + 1 && ai2 <= |a|
    requires (ai2 > ai ==> a[ai] == w) && (ai2 == ai && ai < |a| ==> w <= a[ai])
    ensures forall i :: ai2 <= i < |a| ==> w <= a[i]
  {
    forall i | ai2 <= i < |a|
      ensures w <= a[i]
    {
      if ai < i {
        assert a[ai] <= a[i];
      }
    }
  }

  lemma StepParity(op: Op, a: Points, b: Points, ai: nat, bi: nat, r: Points, v: int, ai2: nat, bi2: nat, w: Point,
        c: int)
    requires Merging(op, a, b, ai, bi, r, v) && v <= w
    requires ai <= ai2 <= ai + 1 && bi <= bi2 <= bi + 1 && ai2 <= |a| && bi2 <= |b|
    requires (ai2 > ai ==> a[ai] == w) && (bi2 > bi ==> b[bi] == w)
    ensures var inside := Combine(op, ai2 % 2 == 1, bi2 % 2 == 1);
      Odd(if inside != (|r| % 2 == 1) then r + [w] else r, c) == Combine(op, Odd(a[..ai2], c), Odd(b[..bi2], c))
  {
    hide Count;
    var inside := Combine(op, ai2 % 2 == 1, bi2 % 2 == 1);
    var r2 := if inside != (|r| % 2 == 1) then r + [w] else r;
    if c >= w {
      CountAll(r2, c);
      CountAll(a[..ai2], c);
      CountAll(b[..bi2], c);
    } else {
      StepOdd(a, ai, ai2, w, c);
      StepOdd(b, bi, bi2, w, c);
      CountSnoc(r, w, c);
      assert Odd(r, c) == Combine(op, Odd(a[..ai], c), Odd(b[..bi], c));
    }
  }

  lemma StepOdd(a: Points, ai: nat, ai2: nat, w: Point, c: int)
    requires ai <= ai2 <= ai + 1 && ai2 <= |a| && (ai2 > ai ==> a[ai] == w)
    ensures c < w ==> Count(a[..ai2], c) == Count(a[..ai], c)
  {
    if ai2 > ai {
      assert a[..ai2] == a[..ai] + [w];
      CountSnoc(a[..ai], w, c);
    }
  }

  lemma MergeEnd(op: Op, a: Points, b: Points, r: Points, v: int)
    requires Sorted(a) && Sorted(b) && Merging(op, a, b, |a|, |b|, r, v)
    ensures Sorted(r) && forall c :: Member(r, c) == Combine(op, Member(a, c), Member(b, c))
  {
    assert a[..|a|] == a && b[..|b|] == b;
    assert |r| % 2 == 0;
    forall c
      ensures Member(r, c) == Combine(op, Member(a, c), Member(b, c))
    {
      MemberIsOdd(a, c);
      MemberIsOdd(b, c);
      MemberIsOdd(r, c);
    }
  }

  ///// Complement

  lemma InvertedMember(s: Points, c: int)
    requires Sorted(s) && 0 <= c < UINT32_MAX
    ensures Sorted([0] + s + [UINT32_MAX]) && Member([0] + s + [UINT32_MAX], c) == !Member(s, c)
  {
    var t := [0] + s + [UINT32_MAX];
    MemberIsOdd(s, c);
    MemberIsOdd(t, c);
    CountSnoc([0] + s, UINT32_MAX, c);
    CountConcat([0], s, c);
    CountSnoc([], 0, c);
    assert [] + [0] == [0];
  }

  lemma MembersInRange(s: Points, c: int)
    requires Member(s, c)
    ensures 0 <= c < UINT32_MAX
  {
    var i: nat :| Inside(s, i, c);
  }

  lemma SortedIsEven(s: Points)
    requires Sorted(s)
    ensures |s| % 2 == 0
  {
  }

  lemma SameRest(p: Points, s: Points, i: nat, m: nat)
    requires |p| == |s| && i <= m < |s| && p[i..] == s[i..]
    ensures p[m] == s[m]
  {
    assert p[i..][m - i] == s[i..][m - i];
  }

  /** Copying two boundaries down leaves those that are still to be read. */
  lemma CopiedDown(s: Points, p: Points, q: Points, k: nat, i: nat, j: nat)
    requires |p| == |s| && k <= i <= j && j + 1 < |s| && p[i..] == s[i..]
    requires q == p[k := p[i]][k + 1 := p[k := p[i]][j + 1]]
    ensures q[..k + 2] == p[..k] + [s[i], s[j + 1]] && q[j + 2..] == s[j + 2..]
  {
    SameRest(p, s, i, i);
    SameRest(p, s, i, j + 1);
    assert q[k] == s[i] && q[k + 1] == s[j + 1];
    assert q[j + 2..] == p[j + 2..] == p[i..][j + 2 - i..] == s[i..][j + 2 - i..];
  }

  ///// The object

  class CharRange {
    var points: Points

    ghost predicate Valid()
      reads this
    {
      Sorted(points)
    }

    constructor ()
      ensures points == []
    {
      points := [];
    }

    method AddPoint(v: Point)
      modifies this
      ensures points == old(points) + [v]
    {
      points := points + [v];
    }

    method AddInterval(c1: Point, c2: Point)
      modifies this
      ensures points == old(points) + [c1, c2]
    {
      points := points + [c1] + [c2];
    }

    /** Merges intervals that touch and removes empty ones, in place; the set stays the same. */
    method Compress()
      requires Valid()
      modifies this
      ensures Canonical(points) && forall c :: Member(points, c) == Member(old(points), c)
    {
      hide Compressing, Touching, Sorted, Canonical, Member;
      ghost var s := points;
      var len := |points|;
      var i, k := 0, 0;
      CompressStart(s);
      SortedIsEven(s);
      assert points[..0] == [];
      while i + 1 < len
        invariant 0 <= k <= i <= len == |points| == |s| && i % 2 == 0 && points[i..] == s[i..]
        invariant Compressing(s, points[..k], i)
        decreases len - i
      {
        assert points[i] == s[i..][0] && points[i + 1] == s[i..][1];
        if points[i] == points[i + 1] {
          SkipEmpty(s, points[..k], i);
          assert points[i + 2..] == points[i..][2..] == s[i..][2..] == s[i + 2..];
          i := i + 2;
        } else {
          var j := TouchingFrom(i, s);
          MergeTouching(s, points[..k], i, j);
          TouchingEnd(s, i, j);
          KeepInterval(k, i, j, s);
          k := k + 2;
          i := j + 2;
        }
      }
      points := points[..k];
      CompressEnd(s, points);
    }

    /** Writes the interval from boundary `i` to boundary `j + 1` at `k`. */
    method KeepInterval(k: nat, i: nat, j: nat, ghost s: Points)
      requires |points| == |s| && k <= i <= j && j + 1 < |s| && points[i..] == s[i..]
      modifies this
      ensures |points| == |s| && points[..k + 2] == old(points)[..k] + [s[i], s[j + 1]] && points[j + 2..] == s[j + 2..]
    {
      ghost var before := points;
      points := points[k := points[i]];
      points := points[k + 1 := points[j + 1]];
      CopiedDown(s, before, points, k, i, j);
    }

    /** Where the run of touching intervals that starts at `i` ends. */
    method TouchingFrom(i: nat, ghost s: Points) returns (j: nat)
      requires |points| == |s| && i + 1 < |s| && points[i..] == s[i..]
      ensures Touching(s, i, j) && (j + 3 < |s| ==> s[j + 1] != s[j + 2])
    {
      j := i;
      while j + 3 < |points| && points[j + 1] == points[j + 2]
        invariant Touching(s, i, j)
        decreases |points| - j
      {
        SameRest(points, s, i, j + 1);
        SameRest(points, s, i, j + 2);
        j := j + 2;
      }
      SameRest(points, s, i, j + 1);
      if j + 3 < |points| {
        SameRest(points, s, i, j + 2);
      }
    }

    /** The union, the intersection or the symmetric difference of two sets, in an empty object. */
    method Operate(a: Points, b: Points, op: Op)
      requires points == [] && Sorted(a) && Sorted(b)
      modifies this
      ensures Canonical(points)
      ensures forall c :: Member(points, c) == Combine(op, Member(a, c), Member(b, c))
      ensures op.Union? ==> forall c :: Member(points, c) == (Member(a, c) || Member(b, c))
      ensures op.Inter? ==> forall c :: Member(points, c) == (Member(a, c) && Member(b, c))
      ensures op.Xor? ==> forall c :: Member(points, c) == (Member(a, c) != Member(b, c))
    {
      var ai, bi := 0, 0;
      ghost var v: int := -1;
      MergeStart(op, a, b);
      while ai < |a| || bi < |b|
        invariant Merging(op, a, b, ai, bi, points, v)
        decreases |a| - ai + |b| - bi
      {
        var w: Point;
        var ai2, bi2 := ai, bi;
        if ai < |a| && bi < |b| {
          if a[ai] < b[bi] {
            w, ai2 := a[ai], ai + 1;
          } else if a[ai] == b[bi] {
            w, ai2, bi2 := a[ai], ai + 1, bi + 1;
          } else {
            w, bi2 := b[bi], bi + 1;
          }
        } else if ai < |a| {
          w, ai2 := a[ai], ai + 1;
        } else {
          w, bi2 := b[bi], bi + 1;
        }
        MergeStep(op, a, b, ai, bi, points, v, ai2, bi2, w);
        ai, bi := ai2, bi2;
        if Combine(op, ai % 2 == 1, bi % 2 == 1) != (|points| % 2 == 1) {
          AddPoint(w);
        }
        v := w;
      }
      MergeEnd(op, a, b, points, v);
      Compress();
    }

    method UnionWith(b: Points)
      requires Valid() && Sorted(b)
      modifies this
      ensures Canonical(points)
      ensures forall c :: Member(points, c) == (Member(old(points), c) || Member(b, c))
    {
      var a := points;
      points := [];
      Operate(a, b, Union);
    }

    /** Adds the code points from `c1` to `c2`. */
    method UnionInterval(c1: Point, c2: Point)
      requires Valid() && c1 <= c2 < UINT32_MAX
      modifies this
      ensures Canonical(points)
      ensures forall c :: Member(points, c) == (Member(old(points), c) || c1 <= c <= c2)
    {
      var b: Points := [c1, c2 + 1];
      forall c
        ensures Member(b, c) == (c1 <= c <= c2)
      {
        if c1 <= c <= c2 {
          assert Inside(b, 0, c);
        }
      }
      UnionWith(b);
    }

    /** The complement in [0, 2^32 - 1). */
    method Invert()
      requires Valid()
      modifies this
      ensures Canonical(points)
      ensures forall c :: Member(points, c) == (0 <= c < UINT32_MAX && !Member(old(points), c))
    {
      ghost var s := points;
      points := [0] + points + [UINT32_MAX];
      forall c
        ensures Member(points, c) == (0 <= c < UINT32_MAX && !Member(s, c))
      {
        if 0 <= c < UINT32_MAX {
          InvertedMember(s, c);
        } else if Member(points, c) {
          MembersInRange(points, c);
        }
      }
      InvertedMember(s, 0);
      Compress();
    }
  }

  ///// Laws

  /** Inverting twice gives back the same boundaries, when they are canonical. */
  lemma InvertTwice(s: Points, t: Points, u: Points)
    requires Canonical(s) && Canonical(t) && Canonical(u)
    requires forall c :: Member(t, c) == (0 <= c < UINT32_MAX && !Member(s, c))
    requires forall c :: Member(u, c) == (0 <= c < UINT32_MAX && !Member(t, c))
    ensures u == s
  {
    forall c
      ensures Member(u, c) == Member(s, c)
    {
      if Member(s, c) {
        MembersInRange(s, c);
      }
    }
    CanonicalUnique(u, s);
  }

  /** The complement of a union is the intersection of the complements, boundary for boundary. */
  lemma DeMorgan(a: Points, b: Points, na: Points, nb: Points, u: Points, nu: Points, x: Points)
    requires Canonical(nu) && Canonical(x)
    requires forall c :: Member(na, c) == (0 <= c < UINT32_MAX && !Member(a, c))
    requires forall c :: Member(nb, c) == (0 <= c < UINT32_MAX && !Member(b, c))
    requires forall c :: Member(u, c) == Combine(Union, Member(a, c), Member(b, c))
    requires forall c :: Member(nu, c) == (0 <= c < UINT32_MAX && !Member(u, c))
    requires forall c :: Member(x, c) == Combine(Inter, Member(na, c), Member(nb, c))
    ensures nu == x
  {
    CanonicalUnique(nu, x);
  }
}

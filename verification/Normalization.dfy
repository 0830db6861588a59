/** Canonical ordering and composition (`sort_cc` and the last loop of `unicode_normalize` in libunicode.c).
    Combining classes and pair composition are parameters. */
module Normalization {

  type Class = x: int | 0 <= x <= 255

  /** The combining class of a code point; starters have class zero. */
  type Classes = int -> Class

  /** The composite of two code points, or zero. */
  type Pairs = (int, int) -> int

  ///// Canonical ordering

  /** The code points of one class, in order. */
  ghost function OfClass(s: seq<int>, cc: Classes, v: int): seq<int> {
    if s == [] then [] else OfClass(s[..|s| - 1], cc, v) + (if cc(s[|s| - 1]) == v then [s[|s| - 1]] else [])
  }

  lemma {:induction false} OfClassConcat(s: seq<int>, t: seq<int>, cc: Classes, v: int)
    ensures OfClass(s + t, cc, v) == OfClass(s, cc, v) + OfClass(t, cc, v)
  {
    if t == [] {
      assert s + t == s;
    } else {
      var n := |t| - 1;
      OfClassConcat(s, t[..n], cc, v);
      assert (s + t)[..|s + t| - 1] == s + t[..n];
    }
  }

  lemma OfClassOne(x: int, cc: Classes, v: int)
    ensures OfClass([x], cc, v) == if cc(x) == v then [x] else []
  {
    assert [x][..0] == [];
  }

  lemma {:induction false} OfClassNone(s: seq<int>, cc: Classes, v: int)
    requires forall i :: 0 <= i < |s| ==> cc(s[i]) != v
    ensures OfClass(s, cc, v) == []
  {
    if s != [] {
      OfClassNone(s[..|s| - 1], cc, v);
    }
  }

  ghost predicate SortedByClass(s: seq<int>, cc: Classes) {
    forall i, j :: 0 <= i < j < |s| ==> cc(s[i]) <= cc(s[j])
  }

  ghost predicate NoStarter(s: seq<int>, cc: Classes) {
    forall i :: 0 <= i < |s| ==> cc(s[i]) > 0
  }

  ghost predicate SameOfEachClass(s: seq<int>, t: seq<int>, cc: Classes) {
    forall v: int :: OfClass(s, cc, v) == OfClass(t, cc, v)
  }

  /** A boundary: the end, or a starter. */
  ghost predicate Boundary(s: seq<int>, cc: Classes, k: int) {
    0 <= k <= |s| && (k == |s| || cc(s[k]) == 0)
  }

  /** `t` is `s` in canonical order: no starter moves, each run between starters is sorted by class, and code points of
      one class keep their order. */
  ghost predicate Ordered(s: seq<int>, t: seq<int>, cc: Classes) {
    |s| == |t| &&
    (forall k :: 0 <= k < |s| ==> (cc(s[k]) == 0 <==> cc(t[k]) == 0)) &&
    (forall k :: 0 <= k < |s| && cc(s[k]) == 0 ==> t[k] == s[k]) &&
    RunsSorted(t, cc) &&
    forall k :: Boundary(s, cc, k) ==> SameOfEachClass(s[..k], t[..k], cc)
  }

  ghost predicate RunsSorted(t: seq<int>, cc: Classes) {
    forall k :: 0 < k < |t| && cc(t[k - 1]) > 0 && cc(t[k]) > 0 ==> cc(t[k - 1]) <= cc(t[k])
  }

  lemma {:induction false} SortedUnique(s: seq<int>, t: seq<int>, cc: Classes)
    requires SortedByClass(s, cc) && SortedByClass(t, cc) && SameOfEachClass(s, t, cc)
    ensures s == t
    decreases |s| + |t|
  {
    if s == [] || t == [] {
      if s != [] {
        LastOfClass(s, cc);
      } else if t != [] {
        LastOfClass(t, cc);
      }
    } else {
      var m, n := |s| - 1, |t| - 1;
      LastOfClass(s, cc);
      LastOfClass(t, cc);
      var u, v := cc(s[m]), cc(t[n]);
      assert OfClass(s, cc, u) == OfClass(t, cc, u) && OfClass(s, cc, v) == OfClass(t, cc, v);
      if u < v {
        AllBelow(s, cc, v);
      } else if v < u {
        AllBelow(t, cc, u);
      }
      assert s[m] == t[n];
      forall w: int
        ensures OfClass(s[..m], cc, w) == OfClass(t[..n], cc, w)
      {
        assert OfClass(s, cc, w) == OfClass(t, cc, w);
        SameBeginning(OfClass(s[..m], cc, w), OfClass(t[..n], cc, w), if u == w then [s[m]] else []);
      }
      SortedUnique(s[..m], t[..n], cc);
      assert s == s[..m] + [s[m]] && t == t[..n] + [t[n]];
    }
  }

  lemma SameBeginning(x: seq<int>, y: seq<int>, tail: seq<int>)
    requires x + tail == y + tail
    ensures x == y
  {
    assert |x| == |y|;
    assert x == (x + tail)[..|x|] && y == (y + tail)[..|y|];
  }

  lemma LastOfClass(s: seq<int>, cc: Classes)
    requires s != []
    ensures var x := s[|s| - 1]; var c := OfClass(s, cc, cc(x)); c != [] && c[|c| - 1] == x
  {
  }

  lemma AllBelow(s: seq<int>, cc: Classes, v: int)
    requires s != [] && SortedByClass(s, cc) && cc(s[|s| - 1]) < v
    ensures OfClass(s, cc, v) == []
  {
    forall i | 0 <= i < |s|
      ensures cc(s[i]) != v
    {
      if i < |s| - 1 {
        assert cc(s[i]) <= cc(s[|s| - 1]);
      }
    }
    OfClassNone(s, cc, v);
  }

  ///// Insertion within a run

  /** Moving a code point down past those of larger class leaves each class as it is. */
  lemma InsertKeeps(a: seq<int>, x: int, m: nat, cc: Classes)
    requires m <= |a| && forall i :: m <= i < |a| ==> cc(a[i]) > cc(x)
    ensures SameOfEachClass(a[..m] + [x] + a[m..], a + [x], cc)
  {
    hide OfClass;
    var p, q := a[..m], a[m..];
    assert a == p + q;
    forall v: int
      ensures OfClass(p + [x] + q, cc, v) == OfClass(a + [x], cc, v)
    {
      OneClassKept(p, q, x, cc, v);
    }
  }

  lemma OneClassKept(p: seq<int>, q: seq<int>, x: int, cc: Classes, v: int)
    requires forall i :: 0 <= i < |q| ==> cc(q[i]) > cc(x)
    ensures OfClass(p + [x] + q, cc, v) == OfClass(p + q + [x], cc, v)
  {
    hide OfClass;
    OfClassConcat(p + [x], q, cc, v);
    OfClassConcat(p, [x], cc, v);
    OfClassConcat(p + q, [x], cc, v);
    OfClassConcat(p, q, cc, v);
    OfClassOne(x, cc, v);
    if v == cc(x) {
      OfClassNone(q, cc, v);
    }
  }

  lemma InsertSorted(a: seq<int>, x: int, m: nat, cc: Classes)
    requires m <= |a| && SortedByClass(a, cc) && (forall i :: m <= i < |a| ==> cc(a[i]) > cc(x)) &&
      (m > 0 ==> cc(a[m - 1]) <= cc(x))
    ensures SortedByClass(a[..m] + [x] + a[m..], cc)
  {
    var t := a[..m] + [x] + a[m..];
    forall i, j | 0 <= i < j < |t|
      ensures cc(t[i]) <= cc(t[j])
    {
      if i < m {
        assert cc(a[i]) <= cc(a[m - 1]);
      }
    }
  }

  /** Inserts the code point at `j` into the sorted run from `start`. */
  method InsertByClass(buf: array<int>, start: nat, j: nat, cc: Classes)
    requires start < j < buf.Length && SortedByClass(buf[start..j], cc)
    modifies buf
    ensures SortedByClass(buf[start..j + 1], cc) && SameOfEachClass(buf[start..j + 1], old(buf[start..j + 1]), cc)
    ensures buf[..start] == old(buf[..start]) && buf[j + 1..] == old(buf[j + 1..])
    ensures NoStarter(old(buf[start..j + 1]), cc) ==> NoStarter(buf[start..j + 1], cc)
  {
    hide OfClass, SameOfEachClass, SortedByClass, NoStarter;
    ghost var was := buf[..];
    var ch1 := buf[j];
    var cc1 := cc(ch1);
    var k: int := j - 1;
    while k >= start
      invariant start - 1 <= k < j
      invariant forall i :: 0 <= i <= k ==> buf[i] == was[i]
      invariant forall i :: k + 1 < i <= j ==> buf[i] == was[i - 1]
      invariant forall i :: j < i < buf.Length ==> buf[i] == was[i]
      invariant forall i :: k < i < j ==> cc(was[i]) > cc1
    {
      if cc(buf[k]) <= cc1 {
        break;
      }
      buf[k + 1] := buf[k];
      k := k - 1;
    }
    buf[k + 1] := ch1;
    Inserted(was, buf[..], start, j, k + 1, cc);
    ghost var now := buf[..];
    assert buf[start..j + 1] == now[start..j + 1] && buf[..start] == now[..start] && buf[j + 1..] == now[j + 1..];
  }

  lemma Inserted(s: seq<int>, t: seq<int>, start: nat, j: nat, k: nat, cc: Classes)
    requires start <= k <= j < |s| == |t| && t[k] == s[j] && SortedByClass(s[start..j], cc)
    requires forall i :: 0 <= i < k ==> t[i] == s[i]
    requires forall i :: k < i <= j ==> t[i] == s[i - 1]
    requires forall i :: j < i < |s| ==> t[i] == s[i]
    requires (forall i :: k <= i < j ==> cc(s[i]) > cc(s[j])) && (k > start ==> cc(s[k - 1]) <= cc(s[j]))
    ensures SortedByClass(t[start..j + 1], cc) && SameOfEachClass(t[start..j + 1], s[start..j + 1], cc)
    ensures t[..start] == s[..start] && t[j + 1..] == s[j + 1..]
    ensures NoStarter(s[start..j + 1], cc) ==> NoStarter(t[start..j + 1], cc)
  {
    hide OfClass, SameOfEachClass, SortedByClass, NoStarter;
    var a, x, m := s[start..j], s[j], k - start;
    Shifted(s, t, start, j, k);
    assert s[start..j + 1] == a + [x];
    assert forall i :: m <= i < |a| ==> a[i] == s[start + i];
    InsertKeeps(a, x, m, cc);
    InsertSorted(a, x, m, cc);
    StillNoStarter(a, x, m, cc);
  }

  lemma Shifted(s: seq<int>, t: seq<int>, start: nat, j: nat, k: nat)
    requires start <= k <= j < |s| == |t| && t[k] == s[j]
    requires forall i :: 0 <= i < k ==> t[i] == s[i]
    requires forall i :: k < i <= j ==> t[i] == s[i - 1]
    requires forall i :: j < i < |s| ==> t[i] == s[i]
    ensures t[start..j + 1] == s[start..j][..k - start] + [s[j]] + s[start..j][k - start..]
    ensures t[..start] == s[..start] && t[j + 1..] == s[j + 1..]
  {
    var u := s[start..j][..k - start] + [s[j]] + s[start..j][k - start..];
    forall i | 0 <= i < j + 1 - start
      ensures t[start..j + 1][i] == u[i]
    {
    }
  }

  lemma StillNoStarter(a: seq<int>, x: int, m: nat, cc: Classes)
    requires m <= |a|
    ensures NoStarter(a + [x], cc) ==> NoStarter(a[..m] + [x] + a[m..], cc)
  {
    if NoStarter(a + [x], cc) {
      assert forall i :: 0 <= i < |a| ==> (a + [x])[i] == a[i];
      assert (a + [x])[|a|] == x;
    }
  }

  /** Sorts the run that starts at `start`; the result is where it ends. */
  method SortRun(buf: array<int>, start: nat, len: nat, cc: Classes) returns (j: nat)
    requires start < len <= buf.Length && cc(buf[start]) > 0
    modifies buf
    ensures start < j <= len && (j < len ==> cc(buf[j]) == 0)
    ensures buf[..start] == old(buf[..start]) && buf[j..] == old(buf[j..])
    ensures NoStarter(buf[start..j], cc) && NoStarter(old(buf[..])[start..j], cc) && SortedByClass(buf[start..j], cc)
    ensures SameOfEachClass(buf[start..j], old(buf[..])[start..j], cc)
  {
    hide OfClass, SameOfEachClass;
    ghost var was := buf[..];
    j := start + 1;
    SameAsItself(buf[start..j], cc);
    while j < len
      invariant start < j <= len && buf[..start] == was[..start] && buf[j..] == was[j..]
      invariant NoStarter(buf[start..j], cc) && NoStarter(was[start..j], cc) && SortedByClass(buf[start..j], cc)
      invariant SameOfEachClass(buf[start..j], was[start..j], cc)
      decreases len - j
    {
      if cc(buf[j]) == 0 {
        break;
      }
      ghost var now := buf[..];
      assert now[start..j + 1] == now[start..j] + [now[j]];
      assert was[start..j + 1] == was[start..j] + [was[j]];
      assert now[j] == now[j..][0] == was[j..][0] == was[j];
      InsertByClass(buf, start, j, cc);
      OneMore(now[start..j], was[start..j], was[j], cc);
      SameTrans(buf[start..j + 1], now[start..j + 1], was[start..j + 1], cc);
      assert buf[j + 1..] == now[j + 1..] == now[j..][1..] == was[j..][1..] == was[j + 1..];
      j := j + 1;
    }
  }

  lemma SameAsItself(s: seq<int>, cc: Classes)
    ensures SameOfEachClass(s, s, cc)
  {
  }

  lemma SameTrans(s: seq<int>, t: seq<int>, u: seq<int>, cc: Classes)
    requires SameOfEachClass(s, t, cc) && SameOfEachClass(t, u, cc)
    ensures SameOfEachClass(s, u, cc)
  {
    forall v: int
      ensures OfClass(s, cc, v) == OfClass(u, cc, v)
    {
      assert OfClass(s, cc, v) == OfClass(t, cc, v);
    }
  }

  lemma OneMore(s: seq<int>, t: seq<int>, x: int, cc: Classes)
    requires SameOfEachClass(s, t, cc)
    ensures SameOfEachClass(s + [x], t + [x], cc)
  {
    Both(s, t, [x], [x], cc);
  }

  lemma Both(s: seq<int>, t: seq<int>, s2: seq<int>, t2: seq<int>, cc: Classes)
    requires SameOfEachClass(s, t, cc) && SameOfEachClass(s2, t2, cc)
    ensures SameOfEachClass(s + s2, t + t2, cc)
  {
    forall v: int
      ensures OfClass(s + s2, cc, v) == OfClass(t + t2, cc, v)
    {
      OfClassConcat(s, s2, cc, v);
      OfClassConcat(t, t2, cc, v);
      assert OfClass(s, cc, v) == OfClass(t, cc, v) && OfClass(s2, cc, v) == OfClass(t2, cc, v);
    }
  }

  ///// The whole buffer

  /** The part before `n` is in order, and a run may begin at `n`. */
  ghost predicate OrderedUpTo(s: seq<int>, t: seq<int>, n: nat, cc: Classes) {
    |s| == |t| && n <= |s| && Ordered(s[..n], t[..n], cc) && t[n..] == s[n..] &&
    (n > 0 ==> n == |s| || cc(s[n - 1]) == 0)
  }

  lemma StarterStays(s: seq<int>, t: seq<int>, n: nat, cc: Classes)
    requires OrderedUpTo(s, t, n, cc) && n < |s| && cc(t[n]) == 0
    ensures OrderedUpTo(s, t, n + 1, cc)
  {
    hide OfClass, Ordered;
    StarterAfterRun(s, t, n, cc);
  }

  lemma RunSortedNext(s: seq<int>, t: seq<int>, u: seq<int>, n: nat, j: nat, cc: Classes)
    requires OrderedUpTo(s, t, n, cc) && n < j <= |s| == |u| && (j < |s| ==> cc(u[j]) == 0)
    requires u[..n] == t[..n] && u[j..] == t[j..]
    requires NoStarter(u[n..j], cc) && NoStarter(t[n..j], cc) && SortedByClass(u[n..j], cc) &&
      SameOfEachClass(u[n..j], t[n..j], cc)
    ensures Ordered(s[..j], u[..j], cc) && u[j..] == s[j..]
  {
    hide OfClass, SameOfEachClass, SortedByClass;
    var s1, t1, r, q := s[..n], t[..n], s[n..j], u[n..j];
    assert t[n..j] == t[n..][..j - n] == s[n..][..j - n] == r;
    assert s[..j] == s1 + r && u[..j] == t1 + q;
    SameSymmetric(q, r, cc);
    if n > 0 {
      assert s1[n - 1] == s[n - 1];
    }
    RunAdded(s1, t1, r, q, cc);
    assert u[j..] == t[j..] == t[n..][j - n..] == s[n..][j - n..] == s[j..];
  }

  /** A sorted run after a part that is in order. */
  lemma RunAdded(s: seq<int>, t: seq<int>, r: seq<int>, q: seq<int>, cc: Classes)
    requires Ordered(s, t, cc) && (s != [] ==> cc(s[|s| - 1]) == 0) && |r| == |q| > 0
    requires NoStarter(r, cc) && NoStarter(q, cc) && SortedByClass(q, cc) && SameOfEachClass(r, q, cc)
    ensures Ordered(s + r, t + q, cc)
  {
    hide OfClass, SameOfEachClass;
    RunsSortedAdded(s, t, q, cc);
    var s2, t2 := s + r, t + q;
    forall k | Boundary(s2, cc, k)
      ensures SameOfEachClass(s2[..k], t2[..k], cc)
    {
      if k == |s2| {
        assert Boundary(s, cc, |s|);
        assert s[..|s|] == s && t[..|s|] == t && s2[..k] == s2 && t2[..k] == t2;
        Both(s, t, r, q, cc);
      } else {
        RunHasNone(s, r, cc);
        assert Boundary(s, cc, k);
        assert s2[..k] == s[..k] && t2[..k] == t[..k];
      }
    }
  }

  lemma RunHasNone(s: seq<int>, r: seq<int>, cc: Classes)
    requires NoStarter(r, cc)
    ensures forall k :: |s| <= k < |s + r| ==> cc((s + r)[k]) > 0
  {
  }

  lemma RunsSortedAdded(s: seq<int>, t: seq<int>, q: seq<int>, cc: Classes)
    requires |s| == |t| && RunsSorted(t, cc) && (t != [] ==> cc(t[|t| - 1]) == 0) && SortedByClass(q, cc)
    ensures RunsSorted(t + q, cc)
  {
    var u := t + q;
    forall k | 0 < k < |u| && cc(u[k - 1]) > 0 && cc(u[k]) > 0
      ensures cc(u[k - 1]) <= cc(u[k])
    {
      if k < |t| {
        assert u[k - 1] == t[k - 1] && u[k] == t[k];
      } else if k > |t| {
        assert u[k - 1] == q[k - 1 - |t|] && u[k] == q[k - |t|];
      }
    }
  }

  lemma SameSymmetric(s: seq<int>, t: seq<int>, cc: Classes)
    requires SameOfEachClass(s, t, cc)
    ensures SameOfEachClass(t, s, cc)
  {
  }

  lemma OrderBegins(s: seq<int>, cc: Classes)
    ensures OrderedUpTo(s, s, 0, cc)
  {
    assert s[..0] == [];
    SameAsItself([], cc);
  }

  lemma OrderEnds(s: seq<int>, t: seq<int>, cc: Classes)
    requires OrderedUpTo(s, t, |s|, cc)
    ensures Ordered(s, t, cc)
  {
    assert s[..|s|] == s && t[..|s|] == t;
  }

  /** Puts the buffer in canonical order, in place. */
  method SortByClass(buf: array<int>, cc: Classes)
    modifies buf
    ensures Ordered(old(buf[..]), buf[..], cc)
  {
    hide OfClass, SameOfEachClass, Ordered, OrderedUpTo, NoStarter, SortedByClass;
    ghost var s := buf[..];
    var len, i := buf.Length, 0;
    OrderBegins(s, cc);
    while i < len
      invariant 0 <= i <= len + 1 && OrderedUpTo(s, buf[..], if i <= len then i else len, cc)
      decreases len + 1 - i
    {
      ghost var t := buf[..];
      if cc(buf[i]) != 0 {
        var j := SortRun(buf, i, len, cc);
        ghost var u := buf[..];
        SortedRun(s, t, u, i, j, cc);
        i := j;
      } else {
        StarterStays(s, t, i, cc);
      }
      i := i + 1;
    }
    OrderEnds(s, buf[..], cc);
  }

  lemma SortedRun(s: seq<int>, t: seq<int>, u: seq<int>, i: nat, j: nat, cc: Classes)
    requires OrderedUpTo(s, t, i, cc) && i < j <= |s| == |u| && (j < |s| ==> cc(u[j]) == 0)
    requires u[..i] == t[..i] && u[j..] == t[j..]
    requires NoStarter(u[i..j], cc) && NoStarter(t[i..j], cc) && SortedByClass(u[i..j], cc) &&
      SameOfEachClass(u[i..j], t[i..j], cc)
    ensures OrderedUpTo(s, u, if j + 1 <= |s| then j + 1 else |s|, cc)
  {
    hide OfClass, SameOfEachClass, Ordered, NoStarter, SortedByClass;
    RunSortedNext(s, t, u, i, j, cc);
    if j < |s| {
      StarterAfterRun(s, u, j, cc);
    }
  }

  lemma StarterAfterRun(s: seq<int>, t: seq<int>, n: nat, cc: Classes)
    requires |s| == |t| && n < |s| && Ordered(s[..n], t[..n], cc) && t[n..] == s[n..] && cc(t[n]) == 0
    ensures OrderedUpTo(s, t, n + 1, cc)
  {
    hide OfClass, SameOfEachClass;
    var s1, t1, x := s[..n], t[..n], s[n];
    assert t[n] == t[n..][0] == s[n..][0] == x;
    assert s[..n + 1] == s1 + [x] && t[..n + 1] == t1 + [x];
    StarterAdded(s1, t1, x, cc);
    assert t[n + 1..] == t[n..][1..] == s[n..][1..] == s[n + 1..];
  }

  lemma StarterAdded(s: seq<int>, t: seq<int>, x: int, cc: Classes)
    requires Ordered(s, t, cc) && cc(x) == 0
    ensures Ordered(s + [x], t + [x], cc)
  {
    hide OfClass, SameOfEachClass;
    var s2, t2 := s + [x], t + [x];
    forall k | Boundary(s2, cc, k)
      ensures SameOfEachClass(s2[..k], t2[..k], cc)
    {
      if k == |s2| {
        assert Boundary(s, cc, |s|);
        assert s[..|s|] == s && t[..|s|] == t && s2[..k] == s2 && t2[..k] == t2;
        OneMore(s, t, x, cc);
      } else {
        assert Boundary(s, cc, k);
        assert s2[..k] == s[..k] && t2[..k] == t[..k];
      }
    }
  }

  ///// Canonical order is unique

  /** Where the run that ends before `n` starts. */
  ghost function RunStart(s: seq<int>, n: nat, cc: Classes): (a: nat)
    requires n <= |s|
    ensures a <= n && (a > 0 ==> cc(s[a - 1]) == 0) && forall k :: a <= k < n ==> cc(s[k]) > 0
  {
    if n == 0 || cc(s[n - 1]) == 0 then n else RunStart(s, n - 1, cc)
  }

  lemma {:induction false} RunIsSorted(t: seq<int>, a: nat, n: nat, cc: Classes)
    requires a <= n <= |t| && RunsSorted(t, cc) && forall k :: a <= k < n ==> cc(t[k]) > 0
    ensures SortedByClass(t[a..n], cc)
  {
    if a < n {
      RunIsSorted(t, a, n - 1, cc);
      var r := t[a..n];
      forall i, j | 0 <= i < j < |r|
        ensures cc(r[i]) <= cc(r[j])
      {
        if j < |r| - 1 {
          assert t[a..n - 1][i] == r[i] && t[a..n - 1][j] == r[j];
        } else if i < j - 1 {
          assert t[a..n - 1][i] == r[i] && t[a..n - 1][j - 1] == t[n - 2];
        }
      }
    }
  }

  lemma SameRest(s: seq<int>, t: seq<int>, s2: seq<int>, t2: seq<int>, cc: Classes)
    requires SameOfEachClass(s, t, cc) && SameOfEachClass(s + s2, t + t2, cc)
    ensures SameOfEachClass(s2, t2, cc)
  {
    hide OfClass;
    forall v: int
      ensures OfClass(s2, cc, v) == OfClass(t2, cc, v)
    {
      OfClassConcat(s, s2, cc, v);
      OfClassConcat(t, t2, cc, v);
      var x := OfClass(s, cc, v);
      assert OfClass(s, cc, v) == OfClass(t, cc, v) && OfClass(s + s2, cc, v) == OfClass(t + t2, cc, v);
      assert OfClass(s2, cc, v) == (x + OfClass(s2, cc, v))[|x|..] &&
        OfClass(t2, cc, v) == (x + OfClass(t2, cc, v))[|x|..];
    }
  }

  /** Up to the start of a run each class is the same. */
  lemma SameBeforeRun(s: seq<int>, t: seq<int>, a: nat, cc: Classes)
    requires Ordered(s, t, cc) && a <= |s| && (a > 0 ==> cc(s[a - 1]) == 0)
    ensures SameOfEachClass(s[..a], t[..a], cc)
  {
    hide OfClass, SameOfEachClass;
    if a > 0 {
      assert Boundary(s, cc, a - 1);
      assert s[..a] == s[..a - 1] + [s[a - 1]] && t[..a] == t[..a - 1] + [s[a - 1]];
      OneMore(s[..a - 1], t[..a - 1], s[a - 1], cc);
    } else {
      assert s[..0] == t[..0];
      SameAsItself(s[..0], cc);
    }
  }

  lemma SameRun(s: seq<int>, t: seq<int>, a: nat, n: nat, cc: Classes)
    requires Ordered(s, t, cc) && Boundary(s, cc, n) && a == RunStart(s, n, cc)
    ensures SameOfEachClass(s[a..n], t[a..n], cc) && SortedByClass(t[a..n], cc)
  {
    hide OfClass, SameOfEachClass;
    SameBeforeRun(s, t, a, cc);
    assert s[..n] == s[..a] + s[a..n] && t[..n] == t[..a] + t[a..n];
    SameRest(s[..a], t[..a], s[a..n], t[a..n], cc);
    RunIsSorted(t, a, n, cc);
  }

  lemma {:induction false} OrderedUniqueUpTo(s: seq<int>, t: seq<int>, u: seq<int>, n: nat, cc: Classes)
    requires Ordered(s, t, cc) && Ordered(s, u, cc) && Boundary(s, cc, n)
    ensures t[..n] == u[..n]
    decreases n
  {
    hide OfClass, SameOfEachClass;
    var a := RunStart(s, n, cc);
    SameRun(s, t, a, n, cc);
    SameRun(s, u, a, n, cc);
    SameSymmetric(s[a..n], t[a..n], cc);
    SameTrans(t[a..n], s[a..n], u[a..n], cc);
    SortedUnique(t[a..n], u[a..n], cc);
    if a > 0 {
      OrderedUniqueUpTo(s, t, u, a - 1, cc);
      assert t[..a] == t[..a - 1] + [s[a - 1]] && u[..a] == u[..a - 1] + [s[a - 1]];
    }
    assert t[..n] == t[..a] + t[a..n] && u[..n] == u[..a] + u[a..n];
  }

  /** A string has one canonical order. */
  lemma OrderedUnique(s: seq<int>, t: seq<int>, u: seq<int>, cc: Classes)
    requires Ordered(s, t, cc) && Ordered(s, u, cc)
    ensures t == u
  {
    assert Boundary(s, cc, |s|);
    OrderedUniqueUpTo(s, t, u, |s|, cc);
    assert t[..|s|] == t && u[..|s|] == u;
  }

  ///// Composition

  /** The last starter of a string, or -1. */
  ghost function LastStarter(out: seq<int>, cc: Classes): (p: int)
    ensures -1 <= p < |out| && (p >= 0 ==> cc(out[p]) == 0) && forall k :: p < k < |out| ==> cc(out[k]) > 0
  {
    if out == [] then -1 else if cc(out[|out| - 1]) == 0 then |out| - 1 else LastStarter(out[..|out| - 1], cc)
  }

  /** `c` is blocked from the character at `p`: between them is a starter or one of its own or a larger class. */
  ghost predicate Blocked(out: seq<int>, p: int, c: int, cc: Classes) {
    exists q :: p < q < |out| && 0 <= q && (cc(out[q]) == 0 || cc(out[q]) >= cc(c))
  }

  /** The Canonical Composition Algorithm (section 3.11 of the Unicode Standard, D117): `out` is what precedes. */
  ghost function Compose(out: seq<int>, rest: seq<int>, cc: Classes, pair: Pairs): seq<int>
    decreases |rest|
  {
    if rest == [] then out
    else
      var c, p := rest[0], LastStarter(out, cc);
      if p >= 0 && !Blocked(out, p, c, cc) && pair(out[p], c) != 0
      then Compose(out[p := pair(out[p], c)], rest[1..], cc, pair)
      else Compose(out + [c], rest[1..], cc, pair)
  }

  ghost function Composition(s: seq<int>, cc: Classes, pair: Pairs): seq<int> {
    if s == [] then [] else Compose([s[0]], s[1..], cc, pair)
  }

  /** Composites are starters. */
  ghost predicate StarterComposites(cc: Classes, pair: Pairs) {
    forall a, b :: cc(a) == 0 && pair(a, b) != 0 ==> cc(pair(a, b)) == 0
  }

  /** After the last starter the classes do not decrease, and the last character read is in the same run. */
  ghost predicate TailSorted(out: seq<int>, last: int, cc: Classes) {
    out != [] && SortedByClass(out[LastStarter(out, cc) + 1..], cc) &&
    (cc(out[|out| - 1]) > 0 ==> cc(last) > 0 && cc(out[|out| - 1]) <= cc(last))
  }

  /** In a sorted tail only the last character can block. */
  lemma LastBlocks(out: seq<int>, last: int, c: int, cc: Classes)
    requires TailSorted(out, last, cc)
    ensures var p := LastStarter(out, cc); Blocked(out, p, c, cc) <==> p < |out| - 1 && cc(out[|out| - 1]) >= cc(c)
  {
    hide SortedByClass, LastStarter, Blocked;
    LastBlocksAt(out, LastStarter(out, cc), c, cc);
  }

  lemma LastBlocksAt(out: seq<int>, p: int, c: int, cc: Classes)
    requires out != [] && -1 <= p < |out| && SortedByClass(out[p + 1..], cc)
    requires forall k :: p < k < |out| ==> cc(out[k]) > 0
    ensures Blocked(out, p, c, cc) <==> p < |out| - 1 && cc(out[|out| - 1]) >= cc(c)
  {
    hide SortedByClass;
    var n := |out| - 1;
    if p < n && cc(out[n]) >= cc(c) {
      BlockedBy(out, p, n, c, cc);
    }
    if Blocked(out, p, c, cc) {
      var q :| p < q < |out| && 0 <= q && (cc(out[q]) == 0 || cc(out[q]) >= cc(c));
      LastIsLargest(out, p + 1, q, cc);
    }
  }

  lemma BlockedBy(out: seq<int>, p: int, q: int, c: int, cc: Classes)
    requires p < q < |out| && 0 <= q && cc(out[q]) >= cc(c)
    ensures Blocked(out, p, c, cc)
  {
  }

  lemma LastIsLargest(out: seq<int>, p: nat, q: nat, cc: Classes)
    requires p <= q < |out| && SortedByClass(out[p..], cc)
    ensures cc(out[q]) <= cc(out[|out| - 1])
  {
    var tail := out[p..];
    assert tail[q - p] == out[q] && tail[|tail| - 1] == out[|out| - 1];
  }

  lemma LastStarterAppend(out: seq<int>, c: int, cc: Classes)
    ensures LastStarter(out + [c], cc) == if cc(c) == 0 then |out| else LastStarter(out, cc)
  {
    assert (out + [c])[..|out|] == out;
  }

  lemma LastStarterOnly(out: seq<int>, p: int, cc: Classes)
    requires -1 <= p < |out| && (p >= 0 ==> cc(out[p]) == 0) && forall k :: p < k < |out| ==> cc(out[k]) > 0
    ensures p == LastStarter(out, cc)
  {
  }

  /** Appending keeps the tail sorted. */
  lemma TailAppend(out: seq<int>, last: int, c: int, cc: Classes)
    requires TailSorted(out, last, cc) && (cc(last) > 0 && cc(c) > 0 ==> cc(last) <= cc(c))
    ensures TailSorted(out + [c], c, cc)
  {
    hide LastStarter, SortedByClass;
    LastStarterAppend(out, c, cc);
    if cc(c) > 0 {
      TailGrows(out, LastStarter(out, cc), c, cc);
    } else {
      assert (out + [c])[|out| + 1..] == [];
      NothingToSort(cc);
    }
  }

  lemma TailGrows(out: seq<int>, p: int, c: int, cc: Classes)
    requires out != [] && -1 <= p < |out| && SortedByClass(out[p + 1..], cc) && cc(out[|out| - 1]) <= cc(c)
    ensures SortedByClass((out + [c])[p + 1..], cc)
  {
    hide SortedByClass;
    var tail := out[p + 1..];
    assert (out + [c])[p + 1..] == tail + [c];
    if tail != [] {
      assert tail[|tail| - 1] == out[|out| - 1];
    }
    SortedAppend(tail, c, cc);
  }

  lemma NothingToSort(cc: Classes)
    ensures SortedByClass([], cc)
  {
  }

  lemma SortedAppend(tail: seq<int>, c: int, cc: Classes)
    requires SortedByClass(tail, cc) && (tail != [] ==> cc(tail[|tail| - 1]) <= cc(c))
    ensures SortedByClass(tail + [c], cc)
  {
    forall i, j | 0 <= i < j < |tail + [c]|
      ensures cc((tail + [c])[i]) <= cc((tail + [c])[j])
    {
      if j == |tail| && i < j - 1 {
        assert cc(tail[i]) <= cc(tail[|tail| - 1]);
      }
    }
  }

  lemma CompositeIsStarter(cc: Classes, pair: Pairs, a: int, b: int)
    requires StarterComposites(cc, pair) && cc(a) == 0 && pair(a, b) != 0
    ensures cc(pair(a, b)) == 0
  {
  }

  /** Composing with the last starter keeps the tail sorted. */
  lemma TailComposed(out: seq<int>, last: int, c: int, x: int, cc: Classes)
    requires TailSorted(out, last, cc) && cc(x) == 0
    requires var p := LastStarter(out, cc); p >= 0 && !Blocked(out, p, c, cc)
    requires cc(last) > 0 && cc(c) > 0 ==> cc(last) <= cc(c)
    ensures TailSorted(out[LastStarter(out, cc) := x], c, cc)
  {
    var p := LastStarter(out, cc);
    var t := out[p := x];
    LastBlocks(out, last, c, cc);
    LastStarterOnly(t, p, cc);
    assert t[p + 1..] == out[p + 1..];
  }

  /** The rule of the loop: only the last character written can block. */
  ghost predicate BlockedByLast(out: seq<int>, p: int, c: int, cc: Classes) {
    out != [] && p < |out| - 1 && cc(out[|out| - 1]) >= cc(c)
  }

  ghost function ComposeByLast(out: seq<int>, rest: seq<int>, cc: Classes, pair: Pairs): seq<int>
    decreases |rest|
  {
    if rest == [] then out
    else
      var c, p := rest[0], LastStarter(out, cc);
      if p >= 0 && !BlockedByLast(out, p, c, cc) && pair(out[p], c) != 0
      then ComposeByLast(out[p := pair(out[p], c)], rest[1..], cc, pair)
      else ComposeByLast(out + [c], rest[1..], cc, pair)
  }

  ghost function LoopComposition(s: seq<int>, cc: Classes, pair: Pairs): seq<int> {
    if s == [] then [] else ComposeByLast([s[0]], s[1..], cc, pair)
  }

  /** On strings in canonical order, when composites are starters, the rule of the loop is that of the standard. */
  lemma {:induction false} ByLastIsStandard(out: seq<int>, last: int, rest: seq<int>, cc: Classes, pair: Pairs)
    requires RunsSorted([last] + rest, cc) && StarterComposites(cc, pair) && TailSorted(out, last, cc)
    ensures ComposeByLast(out, rest, cc, pair) == Compose(out, rest, cc, pair)
    decreases |rest|
  {
    hide SortedByClass, LastStarter, StarterComposites, Blocked, TailSorted, RunsSorted, ComposeByLast, Compose;
    if rest == [] {
      NothingComposed(out, cc, pair);
    } else {
      var c, p := rest[0], LastStarter(out, cc);
      ByLastStep(out, rest, cc, pair);
      ComposeStep(out, rest, cc, pair);
      NotEmpty(out, last, cc);
      LastBlocks(out, last, c, cc);
      RestSorted(last, rest, cc);
      if p >= 0 && !Blocked(out, p, c, cc) && pair(out[p], c) != 0 {
        CompositeIsStarter(cc, pair, out[p], c);
        TailComposed(out, last, c, pair(out[p], c), cc);
        ByLastIsStandard(out[p := pair(out[p], c)], c, rest[1..], cc, pair);
      } else {
        TailAppend(out, last, c, cc);
        ByLastIsStandard(out + [c], c, rest[1..], cc, pair);
      }
    }
  }

  lemma NothingComposed(out: seq<int>, cc: Classes, pair: Pairs)
    ensures ComposeByLast(out, [], cc, pair) == out && Compose(out, [], cc, pair) == out
  {
  }

  lemma NotEmpty(out: seq<int>, last: int, cc: Classes)
    requires TailSorted(out, last, cc)
    ensures out != []
  {
  }

  lemma RestSorted(last: int, rest: seq<int>, cc: Classes)
    requires RunsSorted([last] + rest, cc) && rest != []
    ensures RunsSorted([rest[0]] + rest[1..], cc) && (cc(last) > 0 && cc(rest[0]) > 0 ==> cc(last) <= cc(rest[0]))
  {
    var s := [last] + rest;
    assert [rest[0]] + rest[1..] == rest;
    assert s[0] == last && s[1] == rest[0];
    assert forall k :: 0 <= k < |rest| ==> rest[k] == s[k + 1];
  }

  /** The loop composes as the standard does. */
  lemma LoopIsStandard(s: seq<int>, cc: Classes, pair: Pairs)
    requires RunsSorted(s, cc) && StarterComposites(cc, pair)
    ensures LoopComposition(s, cc, pair) == Composition(s, cc, pair)
  {
    if s != [] {
      var out := [s[0]];
      LastStarterOnly(out, if cc(s[0]) == 0 then 0 else -1, cc);
      assert out + s[1..] == s;
      ByLastIsStandard(out, s[0], s[1..], cc, pair);
    }
  }

  /** The last starter before `outLen`, and whether the code point is blocked from it. */
  method FindStarter(buf: array<int>, outLen: nat, c: int, cc: Classes) returns (starterPos: int, blocked: bool)
    requires 0 < outLen <= buf.Length
    ensures !blocked ==> starterPos == LastStarter(buf[..outLen], cc)
    ensures blocked <==> LastStarter(buf[..outLen], cc) < outLen - 1 && cc(buf[outLen - 1]) >= cc(c)
  {
    ghost var out := buf[..outLen];
    var lastCc: int := cc(c);
    starterPos := outLen - 1;
    blocked := false;
    while starterPos >= 0
      invariant -1 <= starterPos < outLen && !blocked
      invariant forall k :: starterPos < k < outLen ==> cc(buf[k]) > 0
      invariant starterPos == outLen - 1 ==> lastCc == cc(c)
      invariant starterPos < outLen - 1 ==> lastCc == 256 && cc(buf[outLen - 1]) < cc(c)
    {
      var k := cc(buf[starterPos]);
      if k == 0 {
        break;
      }
      if k >= lastCc {
        blocked := true;
        return;
      }
      lastCc := 256;
      starterPos := starterPos - 1;
    }
    LastStarterOnly(out, starterPos, cc);
  }

  /** Composes a string in place: by the rule of the loop for any string, and so by that of the standard for a string in
      canonical order when composites are starters. */
  method ComposeInPlace(buf: array<int>, cc: Classes, pair: Pairs) returns (outLen: nat)
    modifies buf
    ensures outLen <= buf.Length && buf[..outLen] == LoopComposition(old(buf[..]), cc, pair)
    ensures RunsSorted(old(buf[..]), cc) && StarterComposites(cc, pair) ==>
      buf[..outLen] == Composition(old(buf[..]), cc, pair)
  {
    hide LastStarter, Composition, ComposeByLast, RunsSorted, StarterComposites;
    ghost var s := buf[..];
    var bufLen := buf.Length;
    if RunsSorted(s, cc) && StarterComposites(cc, pair) {
      LoopIsStandard(s, cc, pair);
    }
    if bufLen == 0 {
      assert s == [] && buf[..0] == [];
      return 0;
    }
    var i := 1;
    outLen := 1;
    assert buf[..1] == [s[0]];
    while i < bufLen
      invariant 0 < outLen <= i <= bufLen && buf[i..] == s[i..]
      invariant LoopComposition(s, cc, pair) == ComposeByLast(buf[..outLen], s[i..], cc, pair)
      decreases bufLen - i
    {
      ghost var out, now := buf[..outLen], buf[..];
      assert buf[i] == buf[i..][0] == s[i..][0] == s[i];
      assert s[i..][1..] == s[i + 1..];
      ByLastStep(out, s[i..], cc, pair);
      var starterPos, blocked := FindStarter(buf, outLen, buf[i], cc);
      var p := 0;
      if !blocked && starterPos >= 0 {
        p := pair(buf[starterPos], buf[i]);
      }
      if p != 0 {
        buf[starterPos] := p;
        assert buf[..outLen] == out[starterPos := p];
      } else {
        buf[outLen] := buf[i];
        assert buf[..outLen + 1] == out + [s[i]];
        outLen := outLen + 1;
      }
      assert buf[i + 1..] == now[i + 1..] == now[i..][1..] == s[i..][1..] == s[i + 1..];
      i := i + 1;
    }
    ByLastEnd(buf[..outLen], s[i..], cc, pair);
  }

  lemma ByLastStep(out: seq<int>, rest: seq<int>, cc: Classes, pair: Pairs)
    requires rest != []
    ensures var c, p := rest[0], LastStarter(out, cc);
      ComposeByLast(out, rest, cc, pair) ==
        if p >= 0 && !BlockedByLast(out, p, c, cc) && pair(out[p], c) != 0
        then ComposeByLast(out[p := pair(out[p], c)], rest[1..], cc, pair)
        else ComposeByLast(out + [c], rest[1..], cc, pair)
  {
  }

  lemma ByLastEnd(out: seq<int>, rest: seq<int>, cc: Classes, pair: Pairs)
    requires rest == []
    ensures ComposeByLast(out, rest, cc, pair) == out
  {
  }

  lemma ComposeStep(out: seq<int>, rest: seq<int>, cc: Classes, pair: Pairs)
    requires rest != []
    ensures var c, p := rest[0], LastStarter(out, cc);
      Compose(out, rest, cc, pair) ==
        if p >= 0 && !Blocked(out, p, c, cc) && pair(out[p], c) != 0
        then Compose(out[p := pair(out[p], c)], rest[1..], cc, pair)
        else Compose(out + [c], rest[1..], cc, pair)
  {
  }

  ///// Why composites have to be starters

  function ExampleClass(c: int): Class {
    if c == 3 then 1 else if c == 4 then 3 else if c == 5 then 5 else if c == 6 then 7 else 0
  }

  function ExamplePair(a: int, b: int): int {
    if a == 2 && b == 3 then 6 else if a == 1 && b == 5 then 7 else 0
  }

  /** A composite of class seven stands between the first starter and the last character: the standard sees it, the loop
      does not. */
  lemma NonStarterCompositesCanDiffer()
    ensures RunsSorted([1, 2, 3, 4, 5], ExampleClass) && !StarterComposites(ExampleClass, ExamplePair)
    ensures LoopComposition([1, 2, 3, 4, 5], ExampleClass, ExamplePair) == [7, 6, 4]
    ensures Composition([1, 2, 3, 4, 5], ExampleClass, ExamplePair) == [1, 6, 4, 5]
  {
    var cc, pair := ExampleClass, ExamplePair;
    assert ExamplePair(2, 3) == 6 && ExampleClass(6) == 7;
    assert !StarterComposites(cc, pair) by {
      assert cc(2) == 0 && pair(2, 3) != 0 && cc(pair(2, 3)) != 0;
    }
    ExampleByLoop();
    ExampleByStandard();
  }

  lemma ExampleSlices()
    ensures [1, 2, 3, 4, 5][1..] == [2, 3, 4, 5] && [2, 3, 4, 5][1..] == [3, 4, 5] && [3, 4, 5][1..] == [4, 5]
    ensures [4, 5][1..] == [5] && [5][1..] == []
    ensures [1] + [2] == [1, 2] && [1, 2][1 := 6] == [1, 6] && [1, 6] + [4] == [1, 6, 4] &&
      [1, 6, 4][0 := 7] == [7, 6, 4]
    ensures [1, 6, 4] + [5] == [1, 6, 4, 5]
  {
  }

  lemma ExampleStarters()
    ensures LastStarter([1], ExampleClass) == 0 && LastStarter([1, 2], ExampleClass) == 1
    ensures LastStarter([1, 6], ExampleClass) == 0 && LastStarter([1, 6, 4], ExampleClass) == 0
  {
    LastStarterOnly([1], 0, ExampleClass);
    LastStarterOnly([1, 2], 1, ExampleClass);
    LastStarterOnly([1, 6], 0, ExampleClass);
    LastStarterOnly([1, 6, 4], 0, ExampleClass);
  }

  lemma ExampleByLoop()
    ensures LoopComposition([1, 2, 3, 4, 5], ExampleClass, ExamplePair) == [7, 6, 4]
  {
    hide LastStarter, ComposeByLast;
    var cc, pair := ExampleClass, ExamplePair;
    ExampleSlices();
    ExampleStarters();
    ByLastStep([1], [2, 3, 4, 5], cc, pair);
    ByLastStep([1, 2], [3, 4, 5], cc, pair);
    ByLastStep([1, 6], [4, 5], cc, pair);
    ByLastStep([1, 6, 4], [5], cc, pair);
    NothingComposed([7, 6, 4], cc, pair);
  }

  lemma ExampleByStandard()
    ensures Composition([1, 2, 3, 4, 5], ExampleClass, ExamplePair) == [1, 6, 4, 5]
  {
    hide LastStarter, Compose;
    var cc, pair := ExampleClass, ExamplePair;
    ExampleSlices();
    ExampleStarters();
    ComposeStep([1], [2, 3, 4, 5], cc, pair);
    ComposeStep([1, 2], [3, 4, 5], cc, pair);
    ComposeStep([1, 6], [4, 5], cc, pair);
    assert Blocked([1, 6], 0, 4, cc) by {
      BlockedBy([1, 6], 0, 1, 4, cc);
    }
    ComposeStep([1, 6, 4], [5], cc, pair);
    assert Blocked([1, 6, 4], 0, 5, cc) by {
      BlockedBy([1, 6, 4], 0, 1, 5, cc);
    }
    NothingComposed([1, 6, 4, 5], cc, pair);
  }
}

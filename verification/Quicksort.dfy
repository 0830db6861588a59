/** The quicksort of cutils.h (`rqsort`): three-way partition around a median of three, an explicit
    stack of 50 entries, heap sort once 50 levels are used up, insertion sort for short pieces. */
module Quicksort {
  import opened Sorting
  import opened Heapsort

  ///// The partition

  ghost predicate Same<T>(s: seq<T>, cmp: Cmp<T>, v: T, lo: nat, hi: nat)
    requires hi <= |s|
  {
    forall k :: lo <= k < hi ==> cmp(v, s[k]) == 0
  }

  ghost predicate Less<T>(s: seq<T>, cmp: Cmp<T>, v: T, lo: nat, hi: nat)
    requires hi <= |s|
  {
    forall k :: lo <= k < hi ==> cmp(v, s[k]) > 0
  }

  ghost predicate More<T>(s: seq<T>, cmp: Cmp<T>, v: T, lo: nat, hi: nat)
    requires hi <= |s|
  {
    forall k :: lo <= k < hi ==> cmp(v, s[k]) < 0
  }

  /** While scanning: same as the pivot, less, not seen, more, same as the pivot. */
  ghost predicate Zones<T>(s: seq<T>, cmp: Cmp<T>, base: nat, lt: nat, i: nat, j: nat, gt: nat, top: nat) {
    base < lt <= i <= j <= gt <= top <= |s| &&
    Same(s, cmp, s[base], base, lt) && Less(s, cmp, s[base], lt, i) &&
    More(s, cmp, s[base], j, gt) && Same(s, cmp, s[base], gt, top)
  }

  /** After the partition: less than the pivot, same, more. */
  ghost predicate Parted<T>(s: seq<T>, cmp: Cmp<T>, v: T, base: nat, lt: nat, gt: nat, top: nat) {
    base <= lt < gt <= top <= |s| && Less(s, cmp, v, base, lt) && Same(s, cmp, v, lt, gt) && More(s, cmp, v, gt, top)
  }

  function Median<T>(a: array<T>, x: nat, y: nat, z: nat, cmp: Cmp<T>): (m: nat)
    requires x < a.Length && y < a.Length && z < a.Length
    reads a
    ensures m == x || m == y || m == z
  {
    if cmp(a[x], a[y]) < 0 then
      if cmp(a[y], a[z]) < 0 then y else if cmp(a[x], a[z]) < 0 then z else x
    else
      if cmp(a[y], a[z]) > 0 then y else if cmp(a[x], a[z]) < 0 then x else z
  }

  predicate Middle<T>(cmp: Cmp<T>, u: T, v: T, w: T) {
    (cmp(u, v) <= 0 && cmp(v, w) <= 0) || (cmp(w, v) <= 0 && cmp(v, u) <= 0)
  }

  /** The pivot is the middle one of the three elements. */
  lemma MedianIsMiddle<T(!new)>(a: array<T>, x: nat, y: nat, z: nat, cmp: Cmp<T>)
    requires x < a.Length && y < a.Length && z < a.Length && Preorder(cmp)
    ensures var m := Median(a, x, y, z, cmp);
      (m == x && Middle(cmp, a[y], a[x], a[z])) || (m == y && Middle(cmp, a[x], a[y], a[z])) ||
      (m == z && Middle(cmp, a[x], a[z], a[y]))
  {
    CmpFlip(cmp, a[x], a[y]);
    CmpFlip(cmp, a[y], a[z]);
    CmpFlip(cmp, a[x], a[z]);
  }

  lemma ZonesInOrder<T>(s: seq<T>, cmp: Cmp<T>, base: nat, lt: nat, i: nat, j: nat, gt: nat, top: nat)
    requires Zones(s, cmp, base, lt, i, j, gt, top)
    ensures base < lt <= i <= j <= gt <= top <= |s|
  {
  }

  lemma ZonesAtStart<T(!new)>(s: seq<T>, cmp: Cmp<T>, base: nat, top: nat)
    requires Preorder(cmp) && base < top <= |s|
    ensures Zones(s, cmp, base, base + 1, base + 1, top, top, top)
  {
    CmpFlip(cmp, s[base], s[base]);
  }

  /** The element seen from the left is like the pivot: it joins the first zone. */
  lemma SameUp<T>(s: seq<T>, t: seq<T>, cmp: Cmp<T>, base: nat, lt: nat, i: nat, j: nat, gt: nat, top: nat)
    requires Zones(s, cmp, base, lt, i, j, gt, top) && i < j && cmp(s[base], s[i]) == 0 && t == Swapped(s, lt, i)
    ensures Zones(t, cmp, base, lt + 1, i + 1, j, gt, top)
  {
    assert t[base] == s[base];
  }

  lemma LessUp<T>(s: seq<T>, cmp: Cmp<T>, base: nat, lt: nat, i: nat, j: nat, gt: nat, top: nat)
    requires Zones(s, cmp, base, lt, i, j, gt, top) && i < j && cmp(s[base], s[i]) > 0
    ensures Zones(s, cmp, base, lt, i + 1, j, gt, top)
  {
  }

  /** The element seen from the right is like the pivot: it joins the last zone. */
  lemma SameDown<T>(s: seq<T>, t: seq<T>, cmp: Cmp<T>, base: nat, lt: nat, i: nat, j: nat, gt: nat, top: nat)
    requires Zones(s, cmp, base, lt, i, j + 1, gt, top) && i < j && cmp(s[base], s[j]) == 0 &&
      t == Swapped(s, gt - 1, j)
    ensures Zones(t, cmp, base, lt, i, j, gt - 1, top)
  {
    assert t[base] == s[base];
  }

  lemma MoreDown<T>(s: seq<T>, cmp: Cmp<T>, base: nat, lt: nat, i: nat, j: nat, gt: nat, top: nat)
    requires Zones(s, cmp, base, lt, i, j + 1, gt, top) && i <= j && cmp(s[base], s[j]) < 0
    ensures Zones(s, cmp, base, lt, i, j, gt, top)
  {
  }

  /** Two elements on the wrong sides change places. */
  lemma Cross<T>(s: seq<T>, t: seq<T>, cmp: Cmp<T>, base: nat, lt: nat, i: nat, j: nat, gt: nat, top: nat)
    requires Zones(s, cmp, base, lt, i, j + 1, gt, top) && i < j
    requires cmp(s[base], s[j]) > 0 > cmp(s[base], s[i]) && t == Swapped(s, i, j)
    ensures Zones(t, cmp, base, lt, i + 1, j, gt, top)
  {
    assert t[base] == s[base];
  }

  /** The scan from the left: it stops at the first element above the pivot. */
  method ScanUp<T(!new)>(a: array<T>, cmp: Cmp<T>, base: nat, lt0: nat, i0: nat, j: nat, gt: nat, top: nat)
    returns (lt: nat, i: nat)
    requires Zones(a[..], cmp, base, lt0, i0, j, gt, top)
    modifies a
    ensures Rearranged(old(a[..]), a[..], base, top)
    ensures i0 <= i <= j <= top <= a.Length && base < i && Zones(a[..], cmp, base, lt, i, j, gt, top)
    ensures i < j ==> cmp(a[base], a[i]) < 0
  {
    hide *;
    lt, i := lt0, i0;
    ghost var was := a[..];
    ZonesInOrder(was, cmp, base, lt, i, j, gt, top);
    RearrangedSelf(was, base, top);
    while i < j && cmp(a[base], a[i]) >= 0
      invariant base < lt <= i <= j <= top <= a.Length && i0 <= i
      invariant Zones(a[..], cmp, base, lt, i, j, gt, top)
      invariant Rearranged(was, a[..], base, top)
      decreases j - i
    {
      ghost var s := a[..];
      if cmp(a[base], a[i]) == 0 {
        Swap(a, lt, i, base, top);
        RearrangedTrans(was, s, a[..], base, top);
        SameUp(s, a[..], cmp, base, lt, i, j, gt, top);
        lt := lt + 1;
      } else {
        LessUp(s, cmp, base, lt, i, j, gt, top);
      }
      i := i + 1;
    }
  }

  /** The scan from the right: it stops at the first element below the pivot. */
  method ScanDown<T(!new)>(a: array<T>, cmp: Cmp<T>, base: nat, lt: nat, i: nat, j0: nat, gt0: nat, top: nat)
    returns (j: int, gt: nat)
    requires base < i <= j0 <= top <= a.Length && Zones(a[..], cmp, base, lt, i, j0, gt0, top)
    requires i < j0 ==> cmp(a[base], a[i]) < 0
    modifies a
    ensures Rearranged(old(a[..]), a[..], base, top)
    ensures i - 1 <= j < j0
    ensures i < j ==> Zones(a[..], cmp, base, lt, i, j + 1, gt, top) && cmp(a[base], a[j]) > 0 > cmp(a[base], a[i])
    ensures i >= j ==> Zones(a[..], cmp, base, lt, i, i, gt, top)
  {
    hide *;
    gt := gt0;
    ghost var was := a[..];
    RearrangedSelf(was, base, top);
    j := j0 - 1;
    while i < j && cmp(a[base], a[j]) <= 0
      invariant i - 1 <= j < j0
      invariant Zones(a[..], cmp, base, lt, i, j + 1, gt, top)
      invariant i <= j ==> cmp(a[base], a[i]) < 0
      invariant Rearranged(was, a[..], base, top)
      decreases j - i
    {
      ghost var s := a[..];
      ZonesInOrder(s, cmp, base, lt, i, j + 1, gt, top);
      if cmp(a[base], a[j]) == 0 {
        gt := gt - 1;
        Swap(a, gt, j, base, top);
        ghost var t := a[..];
        RearrangedTrans(was, s, t, base, top);
        SameDown(s, t, cmp, base, lt, i, j, gt + 1, top);
        SwapLeaves(s, t, gt, j, base);
        SwapLeaves(s, t, gt, j, i);
      } else {
        MoreDown(s, cmp, base, lt, i, j, gt, top);
      }
      j := j - 1;
    }
    if j == i {
      MoreDown(a[..], cmp, base, lt, i, j, gt, top);
    }
  }

  lemma SwapLeaves<T>(s: seq<T>, t: seq<T>, i: nat, j: nat, k: nat)
    requires i < |s| && j < |s| && t == Swapped(s, i, j) && k < |s| && k != i && k != j
    ensures |t| == |s| && t[k] == s[k]
  {
  }

  /** Both scans, until they meet. */
  method Scan<T(!new)>(a: array<T>, cmp: Cmp<T>, base: nat, top: nat) returns (lt: nat, i: nat, gt: nat)
    requires Preorder(cmp) && base < top <= a.Length
    modifies a
    ensures Rearranged(old(a[..]), a[..], base, top)
    ensures Zones(a[..], cmp, base, lt, i, i, gt, top)
  {
    hide *;
    lt, i, gt := base + 1, base + 1, top;
    var j: int := top;
    ghost var was := a[..];
    ZonesAtStart(was, cmp, base, top);
    RearrangedSelf(was, base, top);
    while true
      invariant i <= j && Zones(a[..], cmp, base, lt, i, j, gt, top)
      invariant Rearranged(was, a[..], base, top)
      decreases j - i
    {
      ghost var s := a[..];
      lt, i := ScanUp(a, cmp, base, lt, i, j, gt, top);
      ghost var t := a[..];
      RearrangedTrans(was, s, t, base, top);
      j, gt := ScanDown(a, cmp, base, lt, i, j, gt, top);
      ghost var u := a[..];
      RearrangedTrans(was, t, u, base, top);
      if i >= j {
        break;
      }
      Swap(a, i, j, base, top);
      RearrangedTrans(was, u, a[..], base, top);
      Cross(u, a[..], cmp, base, lt, i, j, gt, top);
      i := i + 1;
    }
  }

  /** Where the element at `k` was before two blocks of `n` were exchanged. */
  ghost function BlockSource(k: nat, x: nat, y: nat, n: nat): nat {
    if x <= k < x + n then k - x + y else if y <= k < y + n then k - y + x else k
  }

  ghost predicate BlocksSwapped<T>(s: seq<T>, t: seq<T>, x: nat, y: nat, n: nat) {
    |s| == |t| && x + n <= y && y + n <= |s| && forall k :: 0 <= k < |s| ==> t[k] == s[BlockSource(k, x, y, n)]
  }

  lemma NoBlocks<T>(s: seq<T>, x: nat, y: nat)
    requires x <= y <= |s|
    ensures BlocksSwapped(s, s, x, y, 0)
  {
  }

  lemma OneMoreSwapped<T>(s: seq<T>, t: seq<T>, u: seq<T>, x: nat, y: nat, n: nat)
    requires BlocksSwapped(s, t, x, y, n) && x + n < y && y + n < |s| && u == Swapped(t, x + n, y + n)
    ensures BlocksSwapped(s, u, x, y, n + 1)
  {
    forall k: nat | k < |s|
      ensures u[k] == s[BlockSource(k, x, y, n + 1)]
    {
      assert t[k] == s[BlockSource(k, x, y, n)];
      assert t[x + n] == s[BlockSource(x + n, x, y, n)] && t[y + n] == s[BlockSource(y + n, x, y, n)];
    }
  }

  /** Two blocks that do not overlap are exchanged. */
  method SwapBlocks<T(!new)>(a: array<T>, x: nat, y: nat, n: nat, ghost lo: nat, ghost hi: nat)
    requires lo <= x && x + n <= y && y + n <= hi <= a.Length
    modifies a
    ensures Rearranged(old(a[..]), a[..], lo, hi)
    ensures BlocksSwapped(old(a[..]), a[..], x, y, n)
  {
    hide *;
    ghost var was := a[..];
    RearrangedSelf(was, lo, hi);
    NoBlocks(was, x, y);
    var m := 0;
    while m < n
      invariant 0 <= m <= n
      invariant Rearranged(was, a[..], lo, hi)
      invariant BlocksSwapped(was, a[..], x, y, m)
    {
      ghost var s := a[..];
      Swap(a, x + m, y + m, lo, hi);
      RearrangedTrans(was, s, a[..], lo, hi);
      OneMoreSwapped(was, s, a[..], x, y, m);
      m := m + 1;
    }
  }

  /** How many elements to exchange to move the pivots past `m` others. */
  function Shorter(n: nat, m: nat): nat {
    if n > m then m else n
  }

  /** Exchanging the shorter of two neighbouring spans with the far end of the other moves the spans past each other. */
  lemma SpansCross<T>(s: seq<T>, t: seq<T>, lo: nat, mid: nat, hi: nat, k: nat) returns (q: nat)
    requires lo <= mid <= hi <= |s| && lo <= k < hi
    requires var n := Shorter(mid - lo, hi - mid); BlocksSwapped(s, t, lo, hi - n, n)
    ensures q < |s| && t[k] == s[q]
    ensures if k < lo + (hi - mid) then mid <= q < hi else lo <= q < mid
  {
    var n := Shorter(mid - lo, hi - mid);
    q := BlockSource(k, lo, hi - n, n);
  }

  lemma BlocksLeave<T>(s: seq<T>, t: seq<T>, x: nat, y: nat, n: nat, k: nat)
    requires BlocksSwapped(s, t, x, y, n) && k < |s| && (k < x || y + n <= k)
    ensures t[k] == s[k]
  {
    assert BlockSource(k, x, y, n) == k;
  }

  /** The pivots before the smaller elements are moved behind them. */
  lemma FrontPivots<T>(s: seq<T>, t: seq<T>, cmp: Cmp<T>, base: nat, lt: nat, i: nat, gt: nat, top: nat)
    requires Zones(s, cmp, base, lt, i, i, gt, top)
    requires var n := Shorter(lt - base, i - lt); BlocksSwapped(s, t, base, i - n, n)
    ensures Less(t, cmp, s[base], base, base + (i - lt)) && Same(t, cmp, s[base], base + (i - lt), i)
    ensures More(t, cmp, s[base], i, gt) && Same(t, cmp, s[base], gt, top)
  {
    forall k: nat | base <= k < i
      ensures if k < base + (i - lt) then cmp(s[base], t[k]) > 0 else cmp(s[base], t[k]) == 0
    {
      var q := SpansCross(s, t, base, lt, i, k);
    }
    var n := Shorter(lt - base, i - lt);
    forall k: nat | i <= k < top
      ensures t[k] == s[k]
    {
      BlocksLeave(s, t, base, i - n, n, k);
    }
  }

  /** The pivots behind the larger elements are moved before them. */
  lemma BackPivots<T>(t: seq<T>, u: seq<T>, cmp: Cmp<T>, v: T, base: nat, lt: nat, i: nat, gt: nat, top: nat)
    requires base <= lt < i <= gt <= top <= |t|
    requires Less(t, cmp, v, base, lt) && Same(t, cmp, v, lt, i) && More(t, cmp, v, i, gt) && Same(t, cmp, v, gt, top)
    requires var n := Shorter(top - gt, gt - i); BlocksSwapped(t, u, i, top - n, n)
    ensures Parted(u, cmp, v, base, lt, top - (gt - i), top)
  {
    var n := Shorter(top - gt, gt - i);
    assert n == Shorter(gt - i, top - gt);
    forall k: nat | base <= k < i
      ensures u[k] == t[k]
    {
      BlocksLeave(t, u, i, top - n, n, k);
    }
    forall k: nat | i <= k < top
      ensures if k < top - (gt - i) then cmp(v, u[k]) == 0 else cmp(v, u[k]) < 0
    {
      var q := SpansCross(t, u, i, gt, top, k);
    }
  }

  /** Puts the pivot first and scans. */
  method PivotAndScan<T(!new)>(a: array<T>, cmp: Cmp<T>, base: nat, n: nat) returns (lt: nat, i: nat, gt: nat)
    requires Preorder(cmp) && n > 6 && base + n <= a.Length
    modifies a
    ensures Rearranged(old(a[..]), a[..], base, base + n) && Zones(a[..], cmp, base, lt, i, i, gt, base + n)
  {
    hide *;
    ghost var was := a[..];
    var m4 := n / 4;
    var m := Median(a, base + m4, base + 2 * m4, base + 3 * m4, cmp);
    Swap(a, base, m, base, base + n);
    ghost var s := a[..];
    lt, i, gt := Scan(a, cmp, base, base + n);
    RearrangedTrans(was, s, a[..], base, base + n);
  }

  /** One partition of the `n` elements at `base`. */
  method Partition<T(!new)>(a: array<T>, cmp: Cmp<T>, base: nat, n: nat) returns (lt: nat, gt: nat, ghost v: T)
    requires Preorder(cmp) && n > 6 && base + n <= a.Length
    modifies a
    ensures Rearranged(old(a[..]), a[..], base, base + n)
    ensures lt < gt <= n && Parted(a[..], cmp, v, base, base + lt, base + gt, base + n)
  {
    hide *;
    ghost var was := a[..];
    var top := base + n;
    var plt, i, pgt := PivotAndScan(a, cmp, base, n);
    ghost var s := a[..];
    ZonesInOrder(s, cmp, base, plt, i, i, pgt, top);
    v := s[base];
    var span := Shorter(plt - base, i - plt);
    ShorterFits(plt - base, i - plt);
    SwapBlocks(a, base, i - span, span, base, top);
    ghost var t := a[..];
    RearrangedTrans(was, s, t, base, top);
    FrontPivots(s, t, cmp, base, plt, i, pgt, top);
    span := Shorter(top - pgt, pgt - i);
    ShorterFits(top - pgt, pgt - i);
    SwapBlocks(a, i, top - span, span, base, top);
    ghost var u := a[..];
    RearrangedTrans(was, t, u, base, top);
    lt := i - plt;
    gt := n - (pgt - i);
    BackPivots(t, u, cmp, v, base, base + lt, i, pgt, top);
  }

  lemma ShorterFits(n: nat, m: nat)
    ensures Shorter(n, m) + Shorter(n, m) <= n + m
  {
  }

  ///// The stack

  datatype Frame = Frame(base: nat, count: nat, depth: nat)

  ghost predicate Holds(f: Frame, i: int) {
    f.base <= i < f.base + f.count
  }

  /** Both positions are in one piece that is still to be sorted. */
  ghost predicate Covered(work: seq<Frame>, i: int, j: int) {
    exists k :: 0 <= k < |work| && Holds(work[k], i) && Holds(work[k], j)
  }

  ghost predicate Apart(work: seq<Frame>) {
    forall k, l, i :: 0 <= k < l < |work| && Holds(work[k], i) ==> !Holds(work[l], i)
  }

  ghost predicate Inside(work: seq<Frame>, n: nat) {
    forall k :: 0 <= k < |work| ==> work[k].base + work[k].count <= n
  }

  /** Everything is in order but for the pieces still to be sorted. */
  ghost predicate OrderedBut<T>(s: seq<T>, cmp: Cmp<T>, work: seq<Frame>) {
    forall i, j :: 0 <= i < j < |s| ==> Covered(work, i, j) || cmp(s[i], s[j]) <= 0
  }

  /** The measure of what is left to do. */
  ghost function Pending(work: seq<Frame>): nat {
    if work == [] then 0 else Pending(work[..|work| - 1]) + work[|work| - 1].count + 1
  }

  lemma PendingPush(work: seq<Frame>, f: Frame)
    ensures Pending(work + [f]) == Pending(work) + f.count + 1
  {
    assert (work + [f])[..|work|] == work;
  }

  /** What the work on one piece may do to it: rearrange it, and replace it by pieces of itself. */
  ghost predicate Divides<T>(s: seq<T>, t: seq<T>, cmp: Cmp<T>, cur: Frame, pieces: seq<Frame>) {
    cur.base + cur.count <= |s| && Rearranged(s, t, cur.base, cur.base + cur.count) && Apart(pieces) &&
    (forall k, i :: 0 <= k < |pieces| && Holds(pieces[k], i) ==> Holds(cur, i)) &&
    (forall i, j :: Holds(cur, i) && Holds(cur, j) && i < j ==> Covered(pieces, i, j) || cmp(t[i], t[j]) <= 0)
  }

  /** A position of the piece at hand is in no other piece. */
  lemma NotElsewhere(rest: seq<Frame>, cur: Frame, i: int, k: int)
    requires Apart(rest + [cur]) && Holds(cur, i) && 0 <= k < |rest|
    ensures !Holds(rest[k], i)
  {
    var work := rest + [cur];
    assert work[k] == rest[k] && work[|rest|] == cur;
    assert Holds(work[|rest|], i);
  }

  /** Two positions that are not both in the piece at hand are covered by the others, or in order. */
  lemma PairOutside<T(!new)>(s: seq<T>, t: seq<T>, cmp: Cmp<T>, rest: seq<Frame>, cur: Frame, pieces: seq<Frame>,
        i: nat, j: nat)
    requires Divides(s, t, cmp, cur, pieces) && OrderedBut(s, cmp, rest + [cur]) && Apart(rest + [cur])
    requires i < j < |s| && !(Holds(cur, i) && Holds(cur, j))
    ensures Covered(rest, i, j) || cmp(t[i], t[j]) <= 0
  {
    var lo, hi := cur.base, cur.base + cur.count;
    var i2, j2 := i, j;
    if Holds(cur, i) {
      i2 := RearrangedFrom(s, t, lo, hi, i);
    } else {
      RearrangedOutside(s, t, lo, hi, i);
    }
    if Holds(cur, j) {
      j2 := RearrangedFrom(s, t, lo, hi, j);
    } else {
      RearrangedOutside(s, t, lo, hi, j);
    }
    assert i2 < j2;
    if Covered(rest + [cur], i2, j2) {
      var k :| 0 <= k < |rest + [cur]| && Holds((rest + [cur])[k], i2) && Holds((rest + [cur])[k], j2);
      assert k < |rest|;
      assert Holds(rest[k], i2) && Holds(rest[k], j2);
      if Holds(cur, i) {
        NotElsewhere(rest, cur, i2, k);
      }
      if Holds(cur, j) {
        NotElsewhere(rest, cur, j2, k);
      }
    }
  }

  lemma CoveredMore(work: seq<Frame>, more: seq<Frame>, i: int, j: int)
    ensures Covered(work, i, j) ==> Covered(work + more, i, j) && Covered(more + work, i, j)
  {
    if Covered(work, i, j) {
      var k :| 0 <= k < |work| && Holds(work[k], i) && Holds(work[k], j);
      assert (work + more)[k] == work[k] && (more + work)[|more| + k] == work[k];
    }
  }

  lemma StillApart<T>(s: seq<T>, t: seq<T>, cmp: Cmp<T>, rest: seq<Frame>, cur: Frame, pieces: seq<Frame>)
    requires Divides(s, t, cmp, cur, pieces) && Apart(rest + [cur])
    ensures Apart(rest + pieces)
  {
    var work := rest + pieces;
    forall k, l, i | 0 <= k < l < |work| && Holds(work[k], i)
      ensures !Holds(work[l], i)
    {
      if l < |rest| {
        assert (rest + [cur])[k] == rest[k] && (rest + [cur])[l] == rest[l];
      } else if k < |rest| {
        if Holds(pieces[l - |rest|], i) {
          NotElsewhere(rest, cur, i, k);
        }
      } else {
        assert work[k] == pieces[k - |rest|] && work[l] == pieces[l - |rest|];
      }
    }
  }

  /** Dividing one piece keeps the whole in order but for the pieces. */
  lemma DividesKeeps<T(!new)>(s: seq<T>, t: seq<T>, cmp: Cmp<T>, rest: seq<Frame>, cur: Frame, pieces: seq<Frame>)
    requires Divides(s, t, cmp, cur, pieces) && OrderedBut(s, cmp, rest + [cur]) && Apart(rest + [cur])
    ensures OrderedBut(t, cmp, rest + pieces) && Apart(rest + pieces)
  {
    StillApart(s, t, cmp, rest, cur, pieces);
    forall i: nat, j: nat | i < j < |t|
      ensures Covered(rest + pieces, i, j) || cmp(t[i], t[j]) <= 0
    {
      CoveredMore(rest, pieces, i, j);
      CoveredMore(pieces, rest, i, j);
      if !(Holds(cur, i) && Holds(cur, j)) {
        PairOutside(s, t, cmp, rest, cur, pieces, i, j);
      }
    }
  }

  /** Sorting a piece takes it off the work. */
  lemma SortedDivides<T(!new)>(s: seq<T>, t: seq<T>, cmp: Cmp<T>, cur: Frame)
    requires cur.base + cur.count <= |s| && Rearranged(s, t, cur.base, cur.base + cur.count)
    requires SortedFrom(t, cmp, cur.base, cur.base + cur.count)
    ensures Divides(s, t, cmp, cur, [])
  {
  }

  /** A partition replaces a piece by its two ends, in either order. */
  lemma PartedDivides<T(!new)>(s: seq<T>, t: seq<T>, cmp: Cmp<T>, cur: Frame, lt: nat, gt: nat, v: T, x: Frame,
        y: Frame, larger: bool)
    requires Preorder(cmp) && cur.base + cur.count <= |s| && Rearranged(s, t, cur.base, cur.base + cur.count)
    requires lt < gt <= cur.count && Parted(t, cmp, v, cur.base, cur.base + lt, cur.base + gt, cur.base + cur.count)
    requires x.base == cur.base && x.count == lt && y.base == cur.base + gt && y.count == cur.count - gt
    ensures Divides(s, t, cmp, cur, if larger then [x, y] else [y, x])
  {
    var pieces := if larger then [x, y] else [y, x];
    forall i, j | Holds(cur, i) && Holds(cur, j) && i < j
      ensures Covered(pieces, i, j) || cmp(t[i], t[j]) <= 0
    {
      var k := if larger then 0 else 1;
      assert pieces[k] == x && pieces[1 - k] == y;
      if Holds(x, j) {
        assert Holds(pieces[k], i) && Holds(pieces[k], j);
      } else if Holds(y, i) {
        assert Holds(pieces[1 - k], i) && Holds(pieces[1 - k], j);
      } else {
        CmpFlip(cmp, v, t[i]);
        CmpTrans(cmp, t[i], v, t[j]);
      }
    }
  }

  ///// Insertion sort

  ghost predicate SortedBut<T>(s: seq<T>, cmp: Cmp<T>, lo: nat, top: nat, hole: nat)
    requires top < |s|
  {
    forall x, y :: lo <= x < y <= top && y != hole ==> cmp(s[x], s[y]) <= 0
  }

  lemma InsertStep<T(!new)>(s: seq<T>, t: seq<T>, cmp: Cmp<T>, lo: nat, top: nat, j: nat)
    requires Preorder(cmp) && lo < j <= top < |s| && SortedBut(s, cmp, lo, top, j) && cmp(s[j - 1], s[j]) > 0
    requires t == Swapped(s, j, j - 1)
    ensures SortedBut(t, cmp, lo, top, j - 1)
  {
    CmpFlip(cmp, s[j - 1], s[j]);
  }

  lemma InsertEnd<T(!new)>(s: seq<T>, cmp: Cmp<T>, lo: nat, top: nat, j: nat)
    requires Preorder(cmp) && lo <= j <= top < |s| && SortedBut(s, cmp, lo, top, j)
    requires lo < j ==> cmp(s[j - 1], s[j]) <= 0
    ensures SortedFrom(s, cmp, lo, top + 1)
  {
    forall x, y | lo <= x < y < top + 1
      ensures cmp(s[x], s[y]) <= 0
    {
      if y == j && x < j - 1 {
        CmpTrans(cmp, s[x], s[j - 1], s[j]);
      }
    }
  }

  lemma InsertStart<T>(s: seq<T>, cmp: Cmp<T>, lo: nat, i: nat)
    requires lo < i < |s| && SortedFrom(s, cmp, lo, i)
    ensures SortedBut(s, cmp, lo, i, i)
  {
  }

  /** The element at `i` goes down to its place among those before it. */
  method Insert<T(!new)>(a: array<T>, cmp: Cmp<T>, base: nat, i: nat)
    requires Preorder(cmp) && base < i < a.Length && SortedFrom(a[..], cmp, base, i)
    modifies a
    ensures Rearranged(old(a[..]), a[..], base, i + 1)
    ensures SortedFrom(a[..], cmp, base, i + 1)
  {
    hide *;
    ghost var was := a[..];
    RearrangedSelf(was, base, i + 1);
    InsertStart(was, cmp, base, i);
    var j := i;
    while j > base && cmp(a[j - 1], a[j]) > 0
      invariant base <= j <= i
      invariant Rearranged(was, a[..], base, i + 1)
      invariant SortedBut(a[..], cmp, base, i, j)
    {
      ghost var s := a[..];
      Swap(a, j, j - 1, base, i + 1);
      ghost var t := a[..];
      RearrangedTrans(was, s, t, base, i + 1);
      InsertStep(s, t, cmp, base, i, j);
      j := j - 1;
    }
    InsertEnd(a[..], cmp, base, i, j);
  }

  /** Insertion sort of the `n` elements at `base`. */
  method InsertionSort<T(!new)>(a: array<T>, cmp: Cmp<T>, base: nat, n: nat)
    requires Preorder(cmp) && base + n <= a.Length
    modifies a
    ensures Rearranged(old(a[..]), a[..], base, base + n)
    ensures SortedFrom(a[..], cmp, base, base + n)
  {
    hide *;
    ghost var was := a[..];
    RearrangedSelf(was, base, base + n);
    var top := base + n;
    var i := base + 1;
    OneSorted(was, cmp, base, if n == 0 then 0 else 1);
    while i < top
      invariant base < i && (n > 0 ==> i <= top)
      invariant Rearranged(was, a[..], base, top)
      invariant SortedFrom(a[..], cmp, base, if n == 0 then base else i)
      decreases top - i
    {
      ghost var s := a[..];
      Insert(a, cmp, base, i);
      RearrangedWider(s, a[..], base, i + 1, base, top);
      RearrangedTrans(was, s, a[..], base, top);
      i := i + 1;
    }
  }

  ///// The whole sort

  const STACK_SIZE := 50

  /** The entry at index `k` was pushed at depth `k` or deeper, which is what keeps the stack within its 50 entries. */
  ghost predicate DeepEnough(work: seq<Frame>) {
    forall k :: 0 <= k < |work| ==> k <= work[k].depth <= STACK_SIZE
  }

  /** The invariant of the main loop. */
  ghost predicate Underway<T>(was: seq<T>, s: seq<T>, cmp: Cmp<T>, work: seq<Frame>) {
    Rearranged(was, s, 0, |was|) && OrderedBut(s, cmp, work) && Apart(work) && Inside(work, |was|)
  }

  lemma UnderwayAtStart<T>(s: seq<T>, cmp: Cmp<T>)
    ensures Underway(s, s, cmp, [Frame(0, |s|, 0)]) && DeepEnough([Frame(0, |s|, 0)])
  {
    var work := [Frame(0, |s|, 0)];
    forall i, j | 0 <= i < j < |s|
      ensures Covered(work, i, j)
    {
      assert Holds(work[0], i) && Holds(work[0], j);
    }
  }

  lemma UnderwayAtEnd<T>(was: seq<T>, s: seq<T>, cmp: Cmp<T>)
    requires Underway(was, s, cmp, [])
    ensures multiset(s) == multiset(was) && SortedFrom(s, cmp, 0, |s|)
  {
    assert s[0..|was|] == s && was[0..|was|] == was;
    forall i, j | 0 <= i < j < |s|
      ensures cmp(s[i], s[j]) <= 0
    {
      assert !Covered([], i, j);
    }
  }

  lemma TopFits<T>(was: seq<T>, s: seq<T>, cmp: Cmp<T>, rest: seq<Frame>, cur: Frame)
    requires Underway(was, s, cmp, rest + [cur])
    ensures cur.base + cur.count <= |was| == |s|
  {
    assert (rest + [cur])[|rest|] == cur;
  }

  lemma UnderwayStep<T(!new)>(was: seq<T>, s: seq<T>, t: seq<T>, cmp: Cmp<T>, rest: seq<Frame>, cur: Frame,
        pieces: seq<Frame>)
    requires Underway(was, s, cmp, rest + [cur]) && Divides(s, t, cmp, cur, pieces) && Inside(pieces, |was|)
    ensures Underway(was, t, cmp, rest + pieces)
  {
    hide Rearranged, OrderedBut, Apart;
    TopFits(was, s, cmp, rest, cur);
    DividesKeeps(s, t, cmp, rest, cur, pieces);
    RearrangedWider(s, t, cur.base, cur.base + cur.count, 0, |was|);
    RearrangedTrans(was, s, t, 0, |was|);
    forall k | 0 <= k < |rest + pieces|
      ensures (rest + pieces)[k].base + (rest + pieces)[k].count <= |was|
    {
      if k < |rest| {
        assert (rest + [cur])[k] == rest[k];
      }
    }
  }

  lemma Popped(rest: seq<Frame>, f: Frame)
    requires DeepEnough(rest + [f])
    ensures DeepEnough(rest) && |rest| <= f.depth <= STACK_SIZE
    ensures Pending(rest + [f]) == Pending(rest) + f.count + 1
  {
    PendingPush(rest, f);
    assert (rest + [f])[|rest|] == f;
    forall k | 0 <= k < |rest|
      ensures k <= rest[k].depth <= STACK_SIZE
    {
      assert (rest + [f])[k] == rest[k];
    }
  }

  lemma Pushed(rest: seq<Frame>, f: Frame)
    requires DeepEnough(rest) && |rest| <= f.depth <= STACK_SIZE
    ensures DeepEnough(rest + [f])
    ensures Pending(rest + [f]) == Pending(rest) + f.count + 1
  {
    PendingPush(rest, f);
  }

  /** One partition in the main loop: the larger end of the piece is left for later, the smaller is next. */
  method Divide<T(!new)>(a: array<T>, cmp: Cmp<T>, ghost was: seq<T>, ghost rest: seq<Frame>, cur: Frame, depth: nat)
    returns (later: Frame, next: Frame)
    requires Preorder(cmp) && cur.count > 6 && Underway(was, a[..], cmp, rest + [cur])
    modifies a
    ensures Underway(was, a[..], cmp, rest + [later, next])
    ensures later.depth == depth && next.depth == depth && next.count <= later.count &&
      later.count + next.count < cur.count
  {
    hide *;
    ghost var s := a[..];
    TopFits(was, s, cmp, rest, cur);
    var lt, gt, v := Partition(a, cmp, cur.base, cur.count);
    var x, y := Frame(cur.base, lt, depth), Frame(cur.base + gt, cur.count - gt, depth);
    var larger := lt > cur.count - gt;
    later, next := if larger then x else y, if larger then y else x;
    PartedDivides(s, a[..], cmp, cur, lt, gt, v, x, y, larger);
    BothInside(later, next, |was|);
    UnderwayStep(was, s, a[..], cmp, rest, cur, [later, next]);
  }

  lemma BothInside(x: Frame, y: Frame, n: nat)
    requires x.base + x.count <= n && y.base + y.count <= n
    ensures Inside([x, y], n) && Inside([], n)
  {
  }

  /** One short piece is sorted. */
  method Finish<T(!new)>(a: array<T>, cmp: Cmp<T>, ghost was: seq<T>, ghost rest: seq<Frame>, cur: Frame, deep: bool)
    requires Preorder(cmp) && Underway(was, a[..], cmp, rest + [cur])
    modifies a
    ensures Underway(was, a[..], cmp, rest)
  {
    hide *;
    ghost var s := a[..];
    TopFits(was, s, cmp, rest, cur);
    if deep {
      HeapSort(a, cmp, cur.base, cur.count);
    } else {
      InsertionSort(a, cmp, cur.base, cur.count);
    }
    SortedDivides(s, a[..], cmp, cur);
    BothInside(cur, cur, |was|);
    UnderwayStep(was, s, a[..], cmp, rest, cur, []);
    assert rest + [] == rest;
  }

  /** The piece on top of the stack is divided until its rest is short, and the rest is sorted. */
  method SortTop<T(!new)>(a: array<T>, cmp: Cmp<T>, ghost was: seq<T>, stack: array<Frame>, sp0: nat) returns (sp: nat)
    requires Preorder(cmp) && stack.Length == STACK_SIZE && 0 < sp0 <= STACK_SIZE && a as object != stack
    requires DeepEnough(stack[..sp0]) && Underway(was, a[..], cmp, stack[..sp0])
    modifies a, stack
    ensures sp <= STACK_SIZE && DeepEnough(stack[..sp]) && Underway(was, a[..], cmp, stack[..sp])
    ensures Pending(stack[..sp]) < Pending(old(stack[..sp0]))
  {
    hide OrderedBut, Apart, Inside, Rearranged, Preorder, Underway, DeepEnough, Pending;
    ghost var work := stack[..sp0];
    sp := sp0 - 1;
    var cur := stack[sp];
    assert work == stack[..sp] + [cur];
    Popped(stack[..sp], cur);
    var depth := cur.depth;
    while cur.count > 6
      invariant 0 <= sp <= depth <= STACK_SIZE && DeepEnough(stack[..sp])
      invariant Underway(was, a[..], cmp, stack[..sp] + [cur])
      invariant Pending(stack[..sp]) + cur.count + 1 <= Pending(work)
      decreases cur.count
    {
      depth := depth + 1;
      if depth > STACK_SIZE {
        break;
      }
      ghost var rest := stack[..sp];
      var later, next := Divide(a, cmp, was, rest, cur, depth);
      stack[sp] := later;
      assert stack[..sp + 1] == rest + [later];
      assert rest + [later, next] == rest + [later] + [next];
      Pushed(rest, later);
      sp := sp + 1;
      cur := next;
    }
    Finish(a, cmp, was, stack[..sp], cur, depth > STACK_SIZE);
  }

  /** The sort ends with the array sorted and a permutation of what it was, for any total preorder. */
  method QuickSort<T(!new)>(a: array<T>, cmp: Cmp<T>)
    requires Preorder(cmp)
    modifies a
    ensures multiset(a[..]) == multiset(old(a[..]))
    ensures SortedFrom(a[..], cmp, 0, a.Length)
  {
    ghost var was := a[..];
    if a.Length < 2 {
      assert a[..] == was;
      return;
    }
    hide OrderedBut, Apart, Inside, Rearranged, Preorder, Underway, SortedFrom, DeepEnough, Pending;
    var stack := new Frame[STACK_SIZE](_ => Frame(0, 0, 0));
    stack[0] := Frame(0, a.Length, 0);
    var sp := 1;
    UnderwayAtStart(was, cmp);
    assert stack[..1] == [Frame(0, a.Length, 0)];
    while sp > 0
      invariant 0 <= sp <= STACK_SIZE && DeepEnough(stack[..sp])
      invariant Underway(was, a[..], cmp, stack[..sp])
      decreases Pending(stack[..sp])
    {
      sp := SortTop(a, cmp, was, stack, sp);
    }
    assert stack[..0] == [];
    UnderwayAtEnd(was, a[..], cmp);
  }
}

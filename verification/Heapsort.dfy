/** The heap sort that the quicksort falls back on (`heapsortx` in cutils.h). */
module Heapsort {
  import opened Sorting

  /** Exchanging two elements of an array. */
  method Swap<T>(a: array<T>, i: nat, j: nat, ghost lo: nat, ghost hi: nat)
    requires lo <= i < hi <= a.Length && lo <= j < hi
    modifies a
    ensures a[..] == Swapped(old(a[..]), i, j)
    ensures Rearranged(old(a[..]), a[..], lo, hi)
  {
    SwapRearranges(a[..], i, j, lo, hi);
    a[i], a[j] := a[j], a[i];
  }

  ghost predicate Child(p: nat, c: nat) {
    c == 2 * p + 1 || c == 2 * p + 2
  }

  /** In the heap of `n` elements that starts at `base`, every node from `lo` on
      is at least as large as its children. */
  ghost predicate HeapFrom<T>(s: seq<T>, cmp: Cmp<T>, base: nat, lo: nat, n: nat)
    requires base + n <= |s|
  {
    forall p: nat, c: nat :: Child(p, c) && lo <= p && c < n ==> cmp(s[base + p], s[base + c]) >= 0
  }

  /** The same while the element at `hole` is on its way down. */
  ghost predicate HeapBut<T>(s: seq<T>, cmp: Cmp<T>, base: nat, lo: nat, n: nat, hole: nat)
    requires base + n <= |s|
  {
    (forall p: nat, c: nat :: Child(p, c) && lo <= p && p != hole && c < n ==> cmp(s[base + p], s[base + c]) >= 0) &&
    (forall p: nat, c: nat :: Child(p, hole) && Child(hole, c) && lo <= p && c < n ==>
      cmp(s[base + p], s[base + c]) >= 0)
  }

  /** Going down one level keeps the heap but for the hole, which moves to the larger child. */
  lemma HoleMoves<T(!new)>(s: seq<T>, t: seq<T>, cmp: Cmp<T>, base: nat, lo: nat, n: nat, r: nat, c: nat)
    requires Preorder(cmp) && base + n <= |s| && lo <= r < n && c < n && Largest(s, cmp, base, n, r, c)
    requires HeapBut(s, cmp, base, lo, n, r)
    requires cmp(s[base + r], s[base + c]) <= 0
    requires t == Swapped(s, base + r, base + c)
    ensures HeapBut(t, cmp, base, lo, n, c)
  {
    forall p: nat, d: nat | Child(p, d) && lo <= p && p != c && d < n
      ensures cmp(t[base + p], t[base + d]) >= 0
    {
      if p == r {
        assert Child(r, d);
        CmpFlip(cmp, s[base + d], s[base + c]);
        CmpFlip(cmp, s[base + r], s[base + c]);
      } else if d == r {
        assert Child(p, r) && Child(r, c);
      }
    }
    forall p: nat, d: nat | Child(p, c) && Child(c, d) && lo <= p && d < n
      ensures cmp(t[base + p], t[base + d]) >= 0
    {
      assert p == r;
    }
  }

  lemma HoleStarts<T>(s: seq<T>, cmp: Cmp<T>, base: nat, start: nat, n: nat)
    requires base + n <= |s| && HeapFrom(s, cmp, base, start + 1, n)
    ensures HeapBut(s, cmp, base, start, n, start)
  {
  }

  /** A hole that is not smaller than its children is no hole. */
  lemma HoleStays<T(!new)>(s: seq<T>, cmp: Cmp<T>, base: nat, lo: nat, n: nat, r: nat, c: nat)
    requires Preorder(cmp) && base + n <= |s| && r < n && c < n
    requires HeapBut(s, cmp, base, lo, n, r) && Largest(s, cmp, base, n, r, c)
    requires cmp(s[base + r], s[base + c]) > 0
    ensures HeapFrom(s, cmp, base, lo, n)
  {
    forall p: nat, d: nat | Child(p, d) && lo <= p && d < n
      ensures cmp(s[base + p], s[base + d]) >= 0
    {
      if p == r {
        CmpFlip(cmp, s[base + r], s[base + c]);
        CmpFlip(cmp, s[base + r], s[base + d]);
        CmpTrans(cmp, s[base + d], s[base + c], s[base + r]);
      }
    }
  }

  lemma HoleIsLeaf<T>(s: seq<T>, cmp: Cmp<T>, base: nat, lo: nat, n: nat, r: nat)
    requires base + n <= |s| && HeapBut(s, cmp, base, lo, n, r) && n <= 2 * r + 1
    ensures HeapFrom(s, cmp, base, lo, n)
  {
  }

  /** No child of `r` is larger than `c`, which is one of them. */
  ghost predicate Largest<T>(s: seq<T>, cmp: Cmp<T>, base: nat, n: nat, r: nat, c: nat)
    requires base + n <= |s|
  {
    Child(r, c) && c < n && forall d: nat :: Child(r, d) && d < n ==> cmp(s[base + d], s[base + c]) <= 0
  }

  /** Which child is the larger one. */
  method LargerChild<T(!new)>(a: array<T>, cmp: Cmp<T>, base: nat, n: nat, r: nat) returns (c: nat)
    requires Preorder(cmp) && base + n <= a.Length && 2 * r + 1 < n
    ensures Largest(a[..], cmp, base, n, r, c) && r < c < n
  {
    c := 2 * r + 1;
    CmpFlip(cmp, a[base + c], a[base + c]);
    if c < n - 1 {
      CmpFlip(cmp, a[base + c], a[base + c + 1]);
      CmpFlip(cmp, a[base + c + 1], a[base + c + 1]);
      if cmp(a[base + c], a[base + c + 1]) <= 0 {
        c := c + 1;
      }
    }
  }

  /** One element sinks to its place. */
  method SiftDown<T(!new)>(a: array<T>, cmp: Cmp<T>, base: nat, start: nat, n: nat)
    requires Preorder(cmp) && start < n && base + n <= a.Length
    requires HeapFrom(a[..], cmp, base, start + 1, n)
    modifies a
    ensures Rearranged(old(a[..]), a[..], base, base + n)
    ensures HeapFrom(a[..], cmp, base, start, n)
  {
    hide *;
    ghost var was := a[..];
    var r := start;
    var c := 2 * r + 1;
    HoleStarts(was, cmp, base, start, n);
    RearrangedSelf(was, base, base + n);
    while c < n
      invariant start <= r < n && c == 2 * r + 1
      invariant Rearranged(was, a[..], base, base + n)
      invariant HeapBut(a[..], cmp, base, start, n, r)
      decreases n - r
    {
      ghost var s := a[..];
      var large := LargerChild(a, cmp, base, n, r);
      if cmp(a[base + r], a[base + large]) > 0 {
        HoleStays(s, cmp, base, start, n, r, large);
        return;
      }
      Swap(a, base + r, base + large, base, base + n);
      ghost var t := a[..];
      RearrangedTrans(was, s, t, base, base + n);
      HoleMoves(s, t, cmp, base, start, n, r, large);
      r := large;
      c := 2 * r + 1;
    }
    HoleIsLeaf(a[..], cmp, base, start, n, r);
  }

  /** The root of a heap is its largest element. */
  lemma {:induction false} RootIsLargest<T(!new)>(s: seq<T>, cmp: Cmp<T>, base: nat, n: nat, k: nat)
    requires Preorder(cmp) && base + n <= |s| && HeapFrom(s, cmp, base, 0, n) && k < n
    ensures cmp(s[base + k], s[base]) <= 0
    decreases k
  {
    if k == 0 {
      CmpFlip(cmp, s[base], s[base]);
    } else {
      var p: nat := (k - 1) / 2;
      assert Child(p, k);
      RootIsLargest(s, cmp, base, n, p);
      CmpFlip(cmp, s[base + p], s[base + k]);
      CmpTrans(cmp, s[base + k], s[base + p], s[base]);
    }
  }

  /** Every element before `mid` is at most every element from `mid` on, up to `top`. */
  ghost predicate Below<T>(s: seq<T>, cmp: Cmp<T>, base: nat, mid: nat, top: nat)
    requires top <= |s|
  {
    forall i, j :: base <= i < mid <= j < top ==> cmp(s[i], s[j]) <= 0
  }

  /** Rearranging the low part leaves it below the high part. */
  lemma StillBelow<T(!new)>(s: seq<T>, t: seq<T>, cmp: Cmp<T>, base: nat, mid: nat, top: nat)
    requires base <= mid <= top <= |s| && Rearranged(s, t, base, mid) && Below(s, cmp, base, mid, top)
    ensures Below(t, cmp, base, mid, top)
    ensures SortedFrom(s, cmp, mid, top) ==> SortedFrom(t, cmp, mid, top)
  {
    forall i, j | base <= i < mid <= j < top
      ensures cmp(t[i], t[j]) <= 0
    {
      var i2 := RearrangedFrom(s, t, base, mid, i);
      RearrangedOutside(s, t, base, mid, j);
    }
    if SortedFrom(s, cmp, mid, top) {
      forall i, j | mid <= i < j < top
        ensures cmp(t[i], t[j]) <= 0
      {
        RearrangedOutside(s, t, base, mid, i);
        RearrangedOutside(s, t, base, mid, j);
      }
    }
  }

  /** Taking the root out: the sorted part grows by one and the rest is a heap but for its root. */
  lemma RootOut<T(!new)>(s: seq<T>, t: seq<T>, cmp: Cmp<T>, base: nat, i: nat, top: nat)
    requires Preorder(cmp) && 0 < i && base + i < top <= |s|
    requires HeapFrom(s, cmp, base, 0, i + 1)
    requires SortedFrom(s, cmp, base + i + 1, top) && Below(s, cmp, base, base + i + 1, top)
    requires t == Swapped(s, base, base + i)
    ensures HeapFrom(t, cmp, base, 1, i)
    ensures SortedFrom(t, cmp, base + i, top) && Below(t, cmp, base, base + i, top)
  {
    forall p: nat, c: nat | Child(p, c) && 1 <= p && c < i
      ensures cmp(t[base + p], t[base + c]) >= 0
    {
    }
    forall x, y | base <= x < base + i <= y < top
      ensures cmp(t[x], t[y]) <= 0
    {
      if y == base + i {
        RootIsLargest(s, cmp, base, i + 1, if x == base then i else x - base);
      }
    }
    forall x, y | base + i <= x < y < top
      ensures cmp(t[x], t[y]) <= 0
    {
    }
  }

  lemma OneSorted<T>(s: seq<T>, cmp: Cmp<T>, base: nat, n: nat)
    requires base + n <= |s| && n <= 1
    ensures SortedFrom(s, cmp, base, base + n)
  {
  }

  lemma LeavesAreHeaps<T>(s: seq<T>, cmp: Cmp<T>, base: nat, n: nat)
    requires base + n <= |s|
    ensures HeapFrom(s, cmp, base, n / 2, n)
  {
  }

  lemma NothingAbove<T>(s: seq<T>, cmp: Cmp<T>, base: nat, top: nat)
    requires top <= |s|
    ensures SortedFrom(s, cmp, top, top) && Below(s, cmp, base, top, top)
  {
  }

  lemma LastFits<T>(s: seq<T>, cmp: Cmp<T>, base: nat, top: nat)
    requires base < top <= |s| && SortedFrom(s, cmp, base + 1, top) && Below(s, cmp, base, base + 1, top)
    ensures SortedFrom(s, cmp, base, top)
  {
  }

  /** One round of the second phase: the root goes to the end of the heap and the rest is mended. */
  method RootToItsPlace<T(!new)>(a: array<T>, cmp: Cmp<T>, base: nat, i: nat, n: nat)
    requires Preorder(cmp) && 0 < i < n && base + n <= a.Length
    requires HeapFrom(a[..], cmp, base, 0, i + 1)
    requires SortedFrom(a[..], cmp, base + i + 1, base + n) && Below(a[..], cmp, base, base + i + 1, base + n)
    modifies a
    ensures Rearranged(old(a[..]), a[..], base, base + n)
    ensures HeapFrom(a[..], cmp, base, 0, i)
    ensures SortedFrom(a[..], cmp, base + i, base + n) && Below(a[..], cmp, base, base + i, base + n)
  {
    hide *;
    ghost var s := a[..];
    Swap(a, base, base + i, base, base + n);
    ghost var t := a[..];
    RootOut(s, t, cmp, base, i, base + n);
    SiftDown(a, cmp, base, 0, i);
    ghost var u := a[..];
    StillBelow(t, u, cmp, base, base + i, base + n);
    RearrangedWider(t, u, base, base + i, base, base + n);
    RearrangedTrans(s, t, u, base, base + n);
  }

  /** Heap sort leaves its range sorted, a permutation of what it was, and the rest alone. */
  method HeapSort<T(!new)>(a: array<T>, cmp: Cmp<T>, base: nat, n: nat)
    requires Preorder(cmp) && base + n <= a.Length
    modifies a
    ensures Rearranged(old(a[..]), a[..], base, base + n)
    ensures SortedFrom(a[..], cmp, base, base + n)
  {
    hide *;
    ghost var was := a[..];
    RearrangedSelf(was, base, base + n);
    if n <= 1 {
      OneSorted(was, cmp, base, n);
    } else {
      var i := n / 2;
      LeavesAreHeaps(was, cmp, base, n);
      while i > 0
        invariant 0 <= i <= n / 2
        invariant Rearranged(was, a[..], base, base + n)
        invariant HeapFrom(a[..], cmp, base, i, n)
      {
        i := i - 1;
        ghost var s := a[..];
        SiftDown(a, cmp, base, i, n);
        RearrangedTrans(was, s, a[..], base, base + n);
      }
      i := n - 1;
      NothingAbove(a[..], cmp, base, base + n);
      while i > 0
        invariant 0 <= i < n
        invariant Rearranged(was, a[..], base, base + n)
        invariant HeapFrom(a[..], cmp, base, 0, i + 1)
        invariant SortedFrom(a[..], cmp, base + i + 1, base + n) && Below(a[..], cmp, base, base + i + 1, base + n)
      {
        ghost var s := a[..];
        RootToItsPlace(a, cmp, base, i, n);
        RearrangedTrans(was, s, a[..], base, base + n);
        i := i - 1;
      }
      LastFits(a[..], cmp, base, base + n);
    }
  }
}

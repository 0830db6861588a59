/** Facts about rearranging part of a sequence and about comparison functions. */
module Sorting {

  /** `t` is `s` with the elements from `lo` up to `hi` rearranged. */
  ghost predicate Rearranged<T>(s: seq<T>, t: seq<T>, lo: nat, hi: nat) {
    lo <= hi <= |s| && |s| == |t| && s[..lo] == t[..lo] && s[hi..] == t[hi..] &&
    multiset(s[lo..hi]) == multiset(t[lo..hi])
  }

  lemma RearrangedSelf<T>(s: seq<T>, lo: nat, hi: nat)
    requires lo <= hi <= |s|
    ensures Rearranged(s, s, lo, hi)
  {
  }

  lemma RearrangedTrans<T>(s: seq<T>, t: seq<T>, u: seq<T>, lo: nat, hi: nat)
    requires Rearranged(s, t, lo, hi) && Rearranged(t, u, lo, hi)
    ensures Rearranged(s, u, lo, hi)
  {
  }

  lemma RearrangedWider<T>(s: seq<T>, t: seq<T>, lo: nat, hi: nat, lo2: nat, hi2: nat)
    requires Rearranged(s, t, lo, hi) && lo2 <= lo && hi <= hi2 <= |s|
    ensures Rearranged(s, t, lo2, hi2)
  {
    Split(s, lo2, lo, hi, hi2);
    Split(t, lo2, lo, hi, hi2);
    assert s[lo2..lo] == s[..lo][lo2..] && t[lo2..lo] == t[..lo][lo2..];
    assert s[hi..hi2] == s[hi..][..hi2 - hi] && t[hi..hi2] == t[hi..][..hi2 - hi];
    assert s[..lo2] == s[..lo][..lo2] && t[..lo2] == t[..lo][..lo2];
    assert s[hi2..] == s[hi..][hi2 - hi..] && t[hi2..] == t[hi..][hi2 - hi..];
  }

  lemma Split<T>(s: seq<T>, a: nat, b: nat, c: nat, d: nat)
    requires a <= b <= c <= d <= |s|
    ensures multiset(s[a..d]) == multiset(s[a..b]) + multiset(s[b..c]) + multiset(s[c..d])
  {
    assert s[a..d] == s[a..b] + s[b..c] + s[c..d];
  }

  /** The sequence with two elements exchanged. */
  ghost function Swapped<T>(s: seq<T>, i: nat, j: nat): seq<T>
    requires i < |s| && j < |s|
  {
    s[i := s[j]][j := s[i]]
  }

  /** Exchanging two elements rearranges any part that holds both. */
  lemma SwapRearranges<T>(s: seq<T>, i: nat, j: nat, lo: nat, hi: nat)
    requires lo <= i < hi <= |s| && lo <= j < hi
    ensures Rearranged(s, Swapped(s, i, j), lo, hi)
  {
    var t := Swapped(s, i, j);
    var p, q := s[lo..hi], t[lo..hi];
    assert q == p[i - lo := p[j - lo]][j - lo := p[i - lo]];
    assert multiset(q) == multiset(p);
    assert s[..lo] == t[..lo] && s[hi..] == t[hi..];
  }

  /** Every element of the rearranged part was there before. */
  lemma RearrangedFrom<T>(s: seq<T>, t: seq<T>, lo: nat, hi: nat, k: nat) returns (j: nat)
    requires Rearranged(s, t, lo, hi) && lo <= k < hi
    ensures lo <= j < hi && s[j] == t[k]
  {
    assert t[k] == t[lo..hi][k - lo];
    assert t[k] in multiset(t[lo..hi]);
    assert t[k] in multiset(s[lo..hi]);
    assert t[k] in s[lo..hi];
    var i :| 0 <= i < hi - lo && s[lo..hi][i] == t[k];
    j := lo + i;
  }

  /** Outside the rearranged part nothing changed. */
  lemma RearrangedOutside<T>(s: seq<T>, t: seq<T>, lo: nat, hi: nat, k: nat)
    requires Rearranged(s, t, lo, hi) && k < |s| && !(lo <= k < hi)
    ensures s[k] == t[k]
  {
    if k < lo {
      assert s[k] == s[..lo][k] && t[k] == t[..lo][k];
    } else {
      assert s[k] == s[hi..][k - hi] && t[k] == t[hi..][k - hi];
    }
  }

  ///// Comparison functions

  type Cmp<!T> = (T, T) -> int

  /** A comparison function that orders its arguments: a total preorder. */
  ghost predicate Preorder<T(!new)>(cmp: Cmp<T>) {
    (forall x, y :: cmp(x, y) <= 0 <==> cmp(y, x) >= 0) &&
    (forall x, y, z :: cmp(x, y) <= 0 && cmp(y, z) <= 0 ==> cmp(x, z) <= 0)
  }

  lemma CmpTrans<T(!new)>(cmp: Cmp<T>, x: T, y: T, z: T)
    requires Preorder(cmp) && cmp(x, y) <= 0 && cmp(y, z) <= 0
    ensures cmp(x, z) <= 0
  {
  }

  lemma CmpFlip<T(!new)>(cmp: Cmp<T>, x: T, y: T)
    requires Preorder(cmp)
    ensures cmp(x, y) <= 0 <==> cmp(y, x) >= 0
    ensures cmp(x, y) >= 0 <==> cmp(y, x) <= 0
    ensures cmp(x, x) == 0
  {
  }

  ghost predicate SortedFrom<T>(s: seq<T>, cmp: Cmp<T>, lo: nat, hi: nat)
    requires hi <= |s|
  {
    forall i, j :: lo <= i < j < hi ==> cmp(s[i], s[j]) <= 0
  }
}

/** What the sorts of AK/QuickSort.h and AK/InsertionSort.h are held against: strict weak orders, rearrangements of a
    range, and sorted ranges. Ranges exclude their upper end. */
module SortSpec {

  type Element(!new)

  // ---- strict weak orders ----

  ghost predicate AsymmetricAt(less: (Element, Element) -> bool, x: Element, y: Element) {
    less(x, y) ==> !less(y, x)
  }

  ghost predicate TransitiveAt(less: (Element, Element) -> bool, x: Element, y: Element, z: Element) {
    !less(x, y) && !less(y, z) ==> !less(x, z)
  }

  /** Asymmetric, with `not less` transitive. */
  ghost predicate StrictWeakOrder(less: (Element, Element) -> bool) {
    (forall x, y :: AsymmetricAt(less, x, y)) && (forall x, y, z :: TransitiveAt(less, x, y, z))
  }

  ghost predicate Le(less: (Element, Element) -> bool, x: Element, y: Element) {
    !less(y, x)
  }

  lemma {:induction false} LeTransitive(less: (Element, Element) -> bool, x: Element, y: Element, z: Element)
    requires StrictWeakOrder(less) && Le(less, x, y) && Le(less, y, z)
    ensures Le(less, x, z)
  {
    assert TransitiveAt(less, z, y, x);
  }

  lemma {:induction false} LessIsLe(less: (Element, Element) -> bool, x: Element, y: Element)
    requires StrictWeakOrder(less) && less(x, y)
    ensures Le(less, x, y)
  {
    assert AsymmetricAt(less, x, y);
  }

  // ---- stability ----

  /** Neither is less than the other. */
  ghost predicate Equivalent(less: (Element, Element) -> bool, x: Element, y: Element) {
    !less(x, y) && !less(y, x)
  }

  /** The elements that are equivalent to x, in order. */
  ghost function Alike(less: (Element, Element) -> bool, s: seq<Element>, x: Element): seq<Element> {
    if s == [] then [] else (if Equivalent(less, s[0], x) then [s[0]] else []) + Alike(less, s[1..], x)
  }

  /** Equivalent elements come in the same order in t as in s. */
  ghost predicate SameOrder(less: (Element, Element) -> bool, s: seq<Element>, t: seq<Element>) {
    forall x :: Alike(less, t, x) == Alike(less, s, x)
  }

  /** Exchanging neighbours in the wrong order moves no element past an equivalent one. */
  lemma {:induction false} AlikeSwapped(less: (Element, Element) -> bool, s: seq<Element>, x: Element, j: nat)
    requires StrictWeakOrder(less) && 0 < j < |s| && less(s[j], s[j - 1])
    ensures Alike(less, Swapped(s, j, j - 1), x) == Alike(less, s, x)
    decreases s
  {
    var t := Swapped(s, j, j - 1);
    if j == 1 {
      assert t[1..][1..] == s[1..][1..];
      assert TransitiveAt(less, s[1], x, s[0]);
    } else {
      assert t[0] == s[0] && t[1..] == Swapped(s[1..], j - 1, j - 2);
      AlikeSwapped(less, s[1..], x, j - 1);
    }
  }

  lemma {:induction false} SameOrderSwapped(less: (Element, Element) -> bool, s0: seq<Element>, s: seq<Element>, j: nat, j': nat)
    requires StrictWeakOrder(less) && SameOrder(less, s0, s) && 0 < j < |s| && j' == j - 1 && less(s[j], s[j'])
    ensures SameOrder(less, s0, Swapped(s, j, j'))
  {
    forall x ensures Alike(less, Swapped(s, j, j'), x) == Alike(less, s0, x) {
      AlikeSwapped(less, s, x, j);
    }
  }

  // ---- rearranging a range ----

  function Swapped(s: seq<Element>, i: int, j: int): (r: seq<Element>)
    requires 0 <= i < |s| && 0 <= j < |s|
    ensures |r| == |s| && forall k | 0 <= k < |s| :: r[k] == if k == i then s[j] else if k == j then s[i] else s[k]
  {
    s[i := s[j]][j := s[i]]
  }

  /** s' has the elements of s, rearranged within [lo, hi). */
  ghost predicate Permuted(s: seq<Element>, s': seq<Element>, lo: int, hi: int) {
    && 0 <= lo <= hi <= |s| == |s'|
    && (forall k | 0 <= k < |s| && !(lo <= k < hi) :: s'[k] == s[k])
    && multiset(s'[lo..hi]) == multiset(s[lo..hi])
  }

  lemma {:induction false} PermutedRefl(s: seq<Element>, lo: int, hi: int)
    requires 0 <= lo <= hi <= |s|
    ensures Permuted(s, s, lo, hi)
  {
  }

  lemma {:induction false} PermutedTrans(s: seq<Element>, t: seq<Element>, u: seq<Element>, lo: int, hi: int)
    requires Permuted(s, t, lo, hi) && Permuted(t, u, lo, hi)
    ensures Permuted(s, u, lo, hi)
  {
  }

  lemma {:induction false} PermutedWider(s: seq<Element>, t: seq<Element>, lo: int, hi: int, lo': int, hi': int)
    requires Permuted(s, t, lo, hi) && 0 <= lo' <= lo && hi <= hi' <= |s|
    ensures Permuted(s, t, lo', hi')
  {
    assert s[lo'..hi'] == s[lo'..lo] + s[lo..hi] + s[hi..hi'];
    assert t[lo'..hi'] == t[lo'..lo] + t[lo..hi] + t[hi..hi'];
    assert s[lo'..lo] == t[lo'..lo] && s[hi..hi'] == t[hi..hi'];
  }

  lemma {:induction false} PermutedSwap(s: seq<Element>, lo: int, hi: int, i: int, j: int)
    requires 0 <= lo <= hi <= |s| && lo <= i < hi && lo <= j < hi
    ensures Permuted(s, Swapped(s, i, j), lo, hi)
  {
    var r, x := Swapped(s, i, j), s[lo..hi];
    assert r[lo..hi] == x[i - lo := x[j - lo]][j - lo := x[i - lo]];
  }

  /** Every element comes from somewhere in the range. */
  lemma {:induction false} PermutedFrom(s: seq<Element>, t: seq<Element>, lo: int, hi: int, k: int) returns (k': int)
    requires Permuted(s, t, lo, hi) && lo <= k < hi
    ensures lo <= k' < hi && t[k] == s[k']
  {
    assert t[k] == t[lo..hi][k - lo];
    assert t[k] in multiset(t[lo..hi]);
    assert t[k] in s[lo..hi];
    var x :| 0 <= x < hi - lo && s[lo..hi][x] == t[k];
    k' := lo + x;
  }

  // ---- sorted ----

  ghost predicate Sorted(less: (Element, Element) -> bool, s: seq<Element>, lo: int, hi: int) {
    0 <= lo && hi <= |s| && forall i, j | lo <= i < j < hi :: Le(less, s[i], s[j])
  }

  ghost predicate InOrder(less: (Element, Element) -> bool, s: seq<Element>, i: int, j: int) {
    0 <= i < |s| && 0 <= j < |s| && Le(less, s[i], s[j])
  }

  /** Sorted but for pairs inside [a, b), which is yet to be sorted. */
  ghost predicate SortedAround(less: (Element, Element) -> bool, s: seq<Element>, lo: int, a: int, b: int, hi: int) {
    && 0 <= lo && hi <= |s|
    && forall i, j | lo <= i < j < hi && !(a <= i && j < b) :: InOrder(less, s, i, j)
  }

  lemma {:induction false} AroundPermuted(less: (Element, Element) -> bool, s: seq<Element>, t: seq<Element>, lo: int, a: int, b: int, hi: int)
    requires SortedAround(less, s, lo, a, b, hi) && Permuted(s, t, a, b) && lo <= a <= b <= hi
    ensures SortedAround(less, t, lo, a, b, hi)
  {
    forall i, j | lo <= i < j < hi && !(a <= i && j < b) ensures InOrder(less, t, i, j) {
      if a <= i < b {
        var i' := PermutedFrom(s, t, a, b, i);
        assert InOrder(less, s, i', j);
      } else if a <= j < b {
        var j' := PermutedFrom(s, t, a, b, j);
        assert InOrder(less, s, i, j');
      } else {
        assert InOrder(less, s, i, j);
      }
    }
  }

  lemma {:induction false} AroundShrinks(less: (Element, Element) -> bool, s: seq<Element>, lo: int, a: int, a': int, b': int, b: int, hi: int)
    requires SortedAround(less, s, lo, a, b, hi) && SortedAround(less, s, a, a', b', b) && lo <= a <= b <= hi
    ensures SortedAround(less, s, lo, a', b', hi)
  {
  }

  lemma {:induction false} NothingLeft(less: (Element, Element) -> bool, s: seq<Element>, lo: int, a: int, b: int, hi: int)
    requires SortedAround(less, s, lo, a, b, hi) && b <= a + 1
    ensures Sorted(less, s, lo, hi)
  {
    forall i, j | lo <= i < j < hi ensures Le(less, s[i], s[j]) {
      assert InOrder(less, s, i, j);
    }
  }
}

/** The partitioning steps of AK/QuickSort.h on sequences. */
module Partition {
  import opened SortSpec

  // ---- two pivots ----

  /** The dual-pivot partition under way: smaller elements before j, middle ones before k, larger ones after g. */
  ghost predicate Regions(less: (Element, Element) -> bool, s: seq<Element>, start: int, end: int, j: int, k: int, g: int) {
    && 0 <= start < j <= k <= g + 2 && j <= g + 1 && g < end < |s|
    && Le(less, s[start], s[end])
    && (forall i | start < i < j :: less(s[i], s[start]))
    && (forall i | j <= i < k && i <= g :: !less(s[i], s[start]) && less(s[i], s[end]))
    && (forall i | g < i < end :: !less(s[i], s[end]))
  }

  /** The element at k is smaller than both pivots. */
  lemma {:induction false} TakeSmaller(less: (Element, Element) -> bool, s: seq<Element>, start: int, end: int, j: int, k: int, g: int, j': int, k': int)
    requires Regions(less, s, start, end, j, k, g) && k <= g && less(s[k], s[start]) && j' == j + 1 && k' == k + 1
    ensures Regions(less, Swapped(s, k, j), start, end, j', k', g)
  {
  }

  lemma {:induction false} TakeMiddle(less: (Element, Element) -> bool, s: seq<Element>, start: int, end: int, j: int, k: int, g: int, k': int)
    requires Regions(less, s, start, end, j, k, g) && k <= g && !less(s[k], s[start]) && less(s[k], s[end]) && k' == k + 1
    ensures Regions(less, s, start, end, j, k', g)
  {
  }

  lemma {:induction false} SkipLarger(less: (Element, Element) -> bool, s: seq<Element>, start: int, end: int, j: int, k: int, g: int, g': int)
    requires Regions(less, s, start, end, j, k, g) && k < g && !less(s[g], s[end]) && g' == g - 1
    ensures Regions(less, s, start, end, j, k, g')
  {
  }

  /** The element at k is not smaller than the right pivot, and neither is any after it. */
  lemma {:induction false} TakeLast(less: (Element, Element) -> bool, s: seq<Element>, start: int, end: int, j: int, k: int, g: int, k': int, g': int)
    requires StrictWeakOrder(less) && Regions(less, s, start, end, j, k, g) && k == g && !less(s[k], s[end])
    requires k' == k + 1 && g' == g - 1
    ensures Regions(less, s, start, end, j, k', g') && !less(s[k], s[start])
  {
    LeTransitive(less, s[start], s[end], s[k]);
  }

  /** The element at k is not smaller than the right pivot and trades places with one that is. */
  lemma {:induction false} TakeLarger(less: (Element, Element) -> bool, s: seq<Element>, start: int, end: int, j: int, k: int, g: int, g': int)
    requires Regions(less, s, start, end, j, k, g) && k < g && !less(s[k], s[end]) && less(s[g], s[end]) && g' == g - 1
    ensures Regions(less, Swapped(s, k, g), start, end, j, k, g') && less(Swapped(s, k, g)[k], s[end])
  {
  }

  /** Which of five parts an index belongs to, with the pivots at l and r. */
  function Part(i: int, l: int, r: int): int {
    if i < l then 0 else if i == l then 1 else if i < r then 2 else if i == r then 3 else 4
  }

  /** Elements of earlier parts are at most those of later ones. */
  ghost predicate Parted(less: (Element, Element) -> bool, s: seq<Element>, lo: int, l: int, r: int, hi: int) {
    && 0 <= lo <= l < r < hi <= |s|
    && forall i, j | lo <= i < j < hi && Part(i, l, r) < Part(j, l, r) :: Le(less, s[i], s[j])
  }

  /** Where an element stands with respect to the pivots. */
  ghost predicate Placed(less: (Element, Element) -> bool, x: Element, part: int, p: Element, q: Element) {
    match part
    case 0 => Le(less, x, p)
    case 1 => x == p
    case 2 => Le(less, p, x) && Le(less, x, q)
    case 3 => x == q
    case _ => Le(less, q, x)
  }

  lemma {:induction false} PlacedOrder(less: (Element, Element) -> bool, x: Element, i: int, y: Element, j: int, p: Element, q: Element)
    requires StrictWeakOrder(less) && Le(less, p, q) && 0 <= i < j <= 4 && Placed(less, x, i, p, q) && Placed(less, y, j, p, q)
    ensures Le(less, x, y)
  {
    if i == 0 && j == 2 {
      LeTransitive(less, x, p, y);
    } else if i == 0 && j >= 3 {
      LeTransitive(less, x, p, q);
      if j == 4 {
        LeTransitive(less, x, q, y);
      }
    } else if i == 1 && j == 4 {
      LeTransitive(less, p, q, y);
    } else if i == 2 && j == 4 {
      LeTransitive(less, x, q, y);
    }
  }

  /** Both pivots put between the regions. */
  lemma {:induction false} PivotsPlaced(less: (Element, Element) -> bool, s: seq<Element>, start: int, end: int, j: int, k: int, g: int,
                                        l: int, r: int, hi: int)
    requires StrictWeakOrder(less) && Regions(less, s, start, end, j, k, g) && k > g && l == j - 1 && r == g + 1 && hi == end + 1
    ensures Parted(less, Swapped(Swapped(s, start, l), end, r), start, l, r, hi)
  {
    var t := Swapped(Swapped(s, start, l), end, r);
    forall i | start <= i < hi ensures Placed(less, t[i], Part(i, l, r), s[start], s[end]) {
      PivotsAt(less, s, start, end, j, k, g, l, r, hi, i);
    }
    forall i, j | start <= i < j < hi && Part(i, l, r) < Part(j, l, r) ensures Le(less, t[i], t[j]) {
      PlacedOrder(less, t[i], Part(i, l, r), t[j], Part(j, l, r), s[start], s[end]);
    }
  }

  lemma {:induction false} PivotsAt(less: (Element, Element) -> bool, s: seq<Element>, start: int, end: int, j: int, k: int, g: int,
                                    l: int, r: int, hi: int, i: int)
    requires StrictWeakOrder(less) && Regions(less, s, start, end, j, k, g) && k > g && l == j - 1 && r == g + 1 && hi == end + 1
    requires start <= i < hi
    ensures Placed(less, Swapped(Swapped(s, start, l), end, r)[i], Part(i, l, r), s[start], s[end])
  {
    var t := Swapped(Swapped(s, start, l), end, r);
    if i < l {
      LessIsLe(less, t[i], s[start]);
    } else if l < i < r {
      LessIsLe(less, t[i], s[end]);
    }
  }

  /** Rearranging one part keeps the parts apart. */
  lemma {:induction false} PartedPermuted(less: (Element, Element) -> bool, s: seq<Element>, t: seq<Element>, lo: int, l: int, r: int, hi: int,
                                          a: int, b: int)
    requires Parted(less, s, lo, l, r, hi) && Permuted(s, t, a, b)
    requires IsPart(lo, l, r, hi, a, b)
    ensures Parted(less, t, lo, l, r, hi)
  {
    forall i, j | lo <= i < j < hi && Part(i, l, r) < Part(j, l, r) ensures Le(less, t[i], t[j]) {
      if a <= i < b {
        var i' := PermutedFrom(s, t, a, b, i);
      } else if a <= j < b {
        var j' := PermutedFrom(s, t, a, b, j);
      }
    }
  }

  /** With two of the three parts sorted, only the third is left. */
  lemma {:induction false} PartsSorted(less: (Element, Element) -> bool, s: seq<Element>, lo: int, l: int, r: int, hi: int, a: int, b: int)
    requires Parted(less, s, lo, l, r, hi)
    requires IsPart(lo, l, r, hi, a, b)
    requires a == lo || Sorted(less, s, lo, l)
    requires a == l + 1 || Sorted(less, s, l + 1, r)
    requires a == r + 1 || Sorted(less, s, r + 1, hi)
    ensures SortedAround(less, s, lo, a, b, hi)
  {
    forall i, j | lo <= i < j < hi && !(a <= i && j < b) ensures InOrder(less, s, i, j) {
      assert Part(i, l, r) <= Part(j, l, r);
    }
  }

  /** [a, b) is one of the three parts between and around the pivots. */
  predicate IsPart(lo: int, l: int, r: int, hi: int, a: int, b: int) {
    (a == lo && b == l) || (a == l + 1 && b == r) || (a == r + 1 && b == hi)
  }

  /** A sorted part stays sorted while another one is rearranged. */
  lemma {:induction false} OtherPartSorted(less: (Element, Element) -> bool, s: seq<Element>, t: seq<Element>, lo: int, l: int, r: int, hi: int,
                                           a: int, b: int, c: int, d: int)
    requires Sorted(less, s, a, b) && Permuted(s, t, c, d) && lo <= l < r < hi
    requires IsPart(lo, l, r, hi, a, b) && IsPart(lo, l, r, hi, c, d) && a != c
    ensures Sorted(less, t, a, b)
  {
  }

  // ---- one pivot ----

  /** The single-pivot partition under way: smaller elements before i, the others before j. */
  ghost predicate Halves(less: (Element, Element) -> bool, s: seq<Element>, start: int, i: int, j: int) {
    && 0 <= start < i <= j <= |s|
    && (forall k | start < k < i :: less(s[k], s[start]))
    && (forall k | i <= k < j :: !less(s[k], s[start]))
  }

  lemma {:induction false} HalvesOn(less: (Element, Element) -> bool, s: seq<Element>, start: int, i: int, j: int, i': int, j': int)
    requires Halves(less, s, start, i, j) && j < |s| && j' == j + 1 && i' == if less(s[j], s[start]) then i + 1 else i
    ensures Halves(less, if less(s[j], s[start]) then Swapped(s, j, i) else s, start, i', j')
  {
  }

  /** The pivot at m is at least what comes before it and at most what follows. */
  ghost predicate Split(less: (Element, Element) -> bool, s: seq<Element>, lo: int, m: int, hi: int) {
    && 0 <= lo <= m < hi <= |s|
    && (forall k | lo <= k < m :: Le(less, s[k], s[m]))
    && (forall k | m < k < hi :: Le(less, s[m], s[k]))
  }

  lemma {:induction false} PivotPlaced(less: (Element, Element) -> bool, s: seq<Element>, start: int, i: int, hi: int, m: int)
    requires StrictWeakOrder(less) && Halves(less, s, start, i, hi) && m == i - 1
    ensures Split(less, Swapped(s, start, m), start, m, hi)
  {
    var t := Swapped(s, start, m);
    forall k | start <= k < m ensures Le(less, t[k], t[m]) {
      LessIsLe(less, t[k], s[start]);
    }
  }

  lemma {:induction false} SplitPermuted(less: (Element, Element) -> bool, s: seq<Element>, t: seq<Element>, lo: int, m: int, hi: int, a: int, b: int)
    requires Split(less, s, lo, m, hi) && Permuted(s, t, a, b) && ((a == lo && b == m) || (a == m + 1 && b == hi))
    ensures Split(less, t, lo, m, hi)
  {
    forall k | lo <= k < m ensures Le(less, t[k], t[m]) {
      if a <= k < b {
        var k' := PermutedFrom(s, t, a, b, k);
      }
    }
    forall k | m < k < hi ensures Le(less, t[m], t[k]) {
      if a <= k < b {
        var k' := PermutedFrom(s, t, a, b, k);
      }
    }
  }

  /** With one side sorted, only the other is left. */
  lemma {:induction false} SideSorted(less: (Element, Element) -> bool, s: seq<Element>, lo: int, m: int, hi: int, a: int, b: int)
    requires StrictWeakOrder(less) && Split(less, s, lo, m, hi)
    requires (a == lo && b == m && Sorted(less, s, m + 1, hi)) || (a == m + 1 && b == hi && Sorted(less, s, lo, m))
    ensures SortedAround(less, s, lo, a, b, hi)
  {
    forall i, j | lo <= i < j < hi && !(a <= i && j < b) ensures InOrder(less, s, i, j) {
      if i < m < j {
        LeTransitive(less, s[i], s[m], s[j]);
      }
    }
  }
}

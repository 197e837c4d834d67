/** The in-place sorts of AK/InsertionSort.h and AK/QuickSort.h. As there, `end` is the last index of a range. */
module Sorting {
  import opened Arith
  import opened Partition
  import opened SortSpec

  method Swap(a: array<Element>, i: int, j: int)
    requires 0 <= i < a.Length && 0 <= j < a.Length
    modifies a
    ensures a[..] == Swapped(old(a[..]), i, j)
  {
    ghost var s := a[..];
    a[i], a[j] := a[j], a[i];
    assert a[..] == Swapped(s, i, j);
  }

  /** A swap inside a range of a sequence of swaps. */
  method SwapIn(a: array<Element>, i: int, j: int, ghost s: seq<Element>, ghost lo: int, ghost hi: int)
    requires Permuted(s, a[..], lo, hi) && lo <= i < hi && lo <= j < hi
    modifies a
    ensures Permuted(s, a[..], lo, hi) && a[..] == Swapped(old(a[..]), i, j)
  {
    ghost var t := a[..];
    Swap(a, i, j);
    PermutedSwap(t, lo, hi, i, j);
    PermutedTrans(s, t, a[..], lo, hi);
  }

  // ---- insertion sort ----

  /** Sorted up to i, but for what lies before the element sinking from i, now at j. */
  ghost predicate Sinking(less: (Element, Element) -> bool, s: seq<Element>, start: int, j: int, i: int) {
    && 0 <= start <= j <= i < |s|
    && forall p, q | start <= p < q <= i && q != j :: Le(less, s[p], s[q])
  }

  lemma {:induction false} Sink(less: (Element, Element) -> bool, s: seq<Element>, start: int, j: int, i: int, j': int)
    requires StrictWeakOrder(less) && Sinking(less, s, start, j, i) && j > start && less(s[j], s[j - 1]) && j' == j - 1
    ensures Sinking(less, Swapped(s, j, j'), start, j', i)
  {
    LessIsLe(less, s[j], s[j']);
  }

  lemma {:induction false} Sunk(less: (Element, Element) -> bool, s: seq<Element>, start: int, j: int, i: int, i': int)
    requires StrictWeakOrder(less) && Sinking(less, s, start, j, i) && (j == start || !less(s[j], s[j - 1])) && i' == i + 1
    ensures Sorted(less, s, start, i')
  {
    forall p, q | start <= p < q < i' ensures Le(less, s[p], s[q]) {
      if q == j && p < j - 1 {
        LeTransitive(less, s[p], s[j - 1], s[j]);
      }
    }
  }

  /** `insertion_sort`. */
  method InsertionSort(a: array<Element>, start: int, end: int, less: (Element, Element) -> bool)
    requires 0 <= start <= end + 1 <= a.Length && StrictWeakOrder(less)
    modifies a
    ensures Permuted(old(a[..]), a[..], start, end + 1) && Sorted(less, a[..], start, end + 1)
    ensures SameOrder(less, old(a[..]), a[..])
  {
    ghost var s0, hi := a[..], end + 1;
    PermutedRefl(s0, start, hi);
    var i := start + 1;
    while i <= end
      invariant start < i && (i <= end + 1 || i == start + 1)
      invariant Permuted(s0, a[..], start, hi) && Sorted(less, a[..], start, if i <= hi then i else hi)
      invariant SameOrder(less, s0, a[..])
    {
      SinkInto(a, start, i, less, s0, hi);
      i := i + 1;
    }
  }

  /** The inner loop: element i sinks to its place. */
  method SinkInto(a: array<Element>, start: int, i: int, less: (Element, Element) -> bool, ghost s0: seq<Element>, ghost hi: int)
    requires 0 <= start < i < hi <= a.Length && StrictWeakOrder(less)
    requires Permuted(s0, a[..], start, hi) && Sorted(less, a[..], start, i) && SameOrder(less, s0, a[..])
    modifies a
    ensures Permuted(s0, a[..], start, hi) && Sorted(less, a[..], start, i + 1) && SameOrder(less, s0, a[..])
  {
    var j := i;
    while j > start && less(a[j], a[j - 1])
      invariant Permuted(s0, a[..], start, hi) && Sinking(less, a[..], start, j, i) && SameOrder(less, s0, a[..])
      decreases j
    {
      SameOrderSwapped(less, s0, a[..], j, j - 1);
      Sink(less, a[..], start, j, i, j - 1);
      SwapIn(a, j, j - 1, s0, start, hi);
      j := j - 1;
    }
    Sunk(less, a[..], start, j, i, i + 1);
  }

  // ---- dual-pivot quicksort ----

  const INSERTION_SORT_CUTOFF: int := 7

  /** The pivots brought to the two ends, in order. */
  method ChoosePivots(a: array<Element>, start: int, end: int, less: (Element, Element) -> bool, ghost s0: seq<Element>, ghost hi: int)
    requires 0 <= start < end < a.Length && hi == end + 1 && StrictWeakOrder(less) && Permuted(s0, a[..], start, hi)
    modifies a
    ensures Permuted(s0, a[..], start, hi) && Le(less, a[start], a[end])
    ensures var third := if end - start + 1 > 3 then (end - start + 1) / 3 else 0;
            var x, y := old(a[start + third]), old(a[end - third]);
            if less(x, y) then a[start] == x && a[end] == y else a[start] == y && a[end] == x
  {
    var size := end - start + 1;
    if size > 3 {
      var third := size / 3;
      var left, right := start + third, end - third;
      if less(a[left], a[right]) {
        LessIsLe(less, a[left], a[right]);
        BringToEnds(a, left, start, right, end, s0, start, hi);
      } else {
        BringToEnds(a, left, end, right, start, s0, start, hi);
      }
    } else {
      if !less(a[start], a[end]) {
        SwapIn(a, start, end, s0, start, hi);
      } else {
        LessIsLe(less, a[start], a[end]);
      }
    }
  }

  /** Two swaps, of four different places except that one may be both an end and a pivot. */
  method BringToEnds(a: array<Element>, i: int, i': int, j: int, j': int, ghost s0: seq<Element>, ghost lo: int, ghost hi: int)
    requires Permuted(s0, a[..], lo, hi) && lo <= i < hi && lo <= j < hi && lo <= i' < hi && lo <= j' < hi
    requires i' != j' && i != j && j != i' && i != j'
    modifies a
    ensures Permuted(s0, a[..], lo, hi) && a[i'] == old(a[i]) && a[j'] == old(a[j])
  {
    SwapIn(a, i, i', s0, lo, hi);
    SwapIn(a, j, j', s0, lo, hi);
  }

  /** The element at k is not smaller than the right pivot: one turn of the partition. */
  method ExchangeLarger(a: array<Element>, start: int, end: int, less: (Element, Element) -> bool, j: int, k: int, g: int,
                        ghost s0: seq<Element>, ghost hi: int)
    returns (j': int, g': int)
    requires end < a.Length && hi == end + 1 && StrictWeakOrder(less) && Permuted(s0, a[..], start, hi)
    requires Regions(less, a[..], start, end, j, k, g) && k <= g && !less(a[k], a[start]) && !less(a[k], a[end])
    modifies a
    ensures Permuted(s0, a[..], start, hi) && Regions(less, a[..], start, end, j', k + 1, g') && g' < g
  {
    g' := g;
    j' := j;
    ghost var s := a[..];
    while !less(a[g'], a[end]) && k < g'
      invariant k <= g' <= g && Regions(less, s, start, end, j, k, g') && a[..] == s
      decreases g'
    {
      SkipLarger(less, s, start, end, j, k, g', g' - 1);
      g' := g' - 1;
    }
    if k == g' {
      TakeLast(less, s, start, end, j, k, g', k + 1, g' - 1);
    } else {
      TakeLarger(less, s, start, end, j, k, g', g' - 1);
    }
    SwapIn(a, k, g', s0, start, hi);
    assert k == g' ==> a[..] == s;
    g' := g' - 1;
    if less(a[k], a[start]) {
      TakeSmaller(less, a[..], start, end, j', k, g', j' + 1, k + 1);
      SwapIn(a, k, j', s0, start, hi);
      j' := j' + 1;
    } else if k <= g' {
      TakeMiddle(less, a[..], start, end, j', k, g', k + 1);
    }
  }

  /** The partition: the final places of the two pivots. */
  method DualPartition(a: array<Element>, start: int, end: int, less: (Element, Element) -> bool, ghost s0: seq<Element>, ghost hi: int)
    returns (l: int, r: int)
    requires 0 <= start < end < a.Length && hi == end + 1 && StrictWeakOrder(less) && Permuted(s0, a[..], start, hi)
    requires Le(less, a[start], a[end])
    modifies a
    ensures Permuted(s0, a[..], start, hi) && Parted(less, a[..], start, l, r, hi)
  {
    var j, k, g := start + 1, start + 1, end - 1;
    while k <= g
      invariant Permuted(s0, a[..], start, hi) && Regions(less, a[..], start, end, j, k, g)
      decreases g - k
    {
      if less(a[k], a[start]) {
        TakeSmaller(less, a[..], start, end, j, k, g, j + 1, k + 1);
        SwapIn(a, k, j, s0, start, hi);
        j := j + 1;
      } else if !less(a[k], a[end]) {
        j, g := ExchangeLarger(a, start, end, less, j, k, g, s0, hi);
      } else {
        TakeMiddle(less, a[..], start, end, j, k, g, k + 1);
      }
      k := k + 1;
    }
    l, r := j - 1, g + 1;
    PivotsPlaced(less, a[..], start, end, j, k, g, l, r, hi);
    SwapIn(a, start, l, s0, start, hi);
    SwapIn(a, end, r, s0, start, hi);
  }

  function Most(a: nat, b: nat): nat {
    if a < b then b else a
  }

  /** Two of the three parts sorted, each by a recursive call. */
  method SortTwoParts(a: array<Element>, start1: int, end1: int, start2: int, end2: int, less: (Element, Element) -> bool,
                      ghost lo: int, ghost l: int, ghost r: int, ghost hi: int, ghost depth: nat)
    returns (ghost levels: nat)
    requires StrictWeakOrder(less) && hi <= a.Length && Parted(less, a[..], lo, l, r, hi) && start1 != start2
    requires IsPart(lo, l, r, hi, start1, end1 + 1) && end1 + 1 - start1 < Pow2(depth)
    requires IsPart(lo, l, r, hi, start2, end2 + 1) && end2 + 1 - start2 < Pow2(depth)
    modifies a
    ensures Permuted(old(a[..]), a[..], lo, hi) && Parted(less, a[..], lo, l, r, hi)
    ensures Sorted(less, a[..], start1, end1 + 1) && Sorted(less, a[..], start2, end2 + 1) && levels <= depth
    decreases depth, 3
  {
    ghost var s, hi1, hi2 := a[..], end1 + 1, end2 + 1;
    levels := DualPivotQuickSort(a, start1, end1, less, depth);
    ghost var t := a[..];
    PartedPermuted(less, s, t, lo, l, r, hi, start1, hi1);
    PermutedWider(s, t, start1, hi1, lo, hi);
    ghost var levels2 := DualPivotQuickSort(a, start2, end2, less, depth);
    levels := Most(levels, levels2);
    PartedPermuted(less, t, a[..], lo, l, r, hi, start2, hi2);
    PermutedWider(t, a[..], start2, hi2, lo, hi);
    PermutedTrans(s, t, a[..], lo, hi);
    OtherPartSorted(less, t, a[..], lo, l, r, hi, start1, hi1, start2, hi2);
  }

  /** One turn of the outer loop: the largest part is left to the next turn. */
  method QuickSortTurn(a: array<Element>, start: int, end: int, less: (Element, Element) -> bool, ghost depth: nat)
    returns (start': int, end': int, ghost levels: nat)
    requires 0 <= start < end < a.Length && StrictWeakOrder(less) && end + 1 - start < Pow2(depth)
    modifies a
    ensures start <= start' <= end' + 1 <= end + 1 && end' - start' < end - start && levels <= depth
    ensures end - 1 - start <= 3 * (end' + 1 - start')
    ensures Permuted(old(a[..]), a[..], start, end + 1) && SortedAround(less, a[..], start, start', end' + 1, end + 1)
    decreases depth, 0
  {
    ghost var s, hi := a[..], end + 1;
    HalfDepth(depth, end + 1 - start);
    PermutedRefl(s, start, hi);
    ChoosePivots(a, start, end, less, s, hi);
    var l, r := DualPartition(a, start, end, less, s, hi);
    ghost var t := a[..];
    start', end', levels := SortSmallerParts(a, start, l, r, end, less, hi, depth);
    PermutedTrans(s, t, a[..], start, hi);
  }

  /** The same within the whole range from lo to hi. */
  method QuickSortTurnIn(a: array<Element>, start: int, end: int, less: (Element, Element) -> bool,
                         ghost lo: int, ghost hi: int, ghost s0: seq<Element>, ghost depth: nat)
    returns (start': int, end': int, ghost levels: nat)
    requires 0 <= lo <= start < end < hi <= a.Length && StrictWeakOrder(less) && end + 1 - start < Pow2(depth)
    requires Permuted(s0, a[..], lo, hi) && SortedAround(less, a[..], lo, start, end + 1, hi)
    modifies a
    ensures start <= start' <= end' + 1 <= end + 1 && end' - start' < end - start && levels <= depth
    ensures Permuted(s0, a[..], lo, hi) && SortedAround(less, a[..], lo, start', end' + 1, hi)
    decreases depth, 1
  {
    ghost var s, past := a[..], end + 1;
    start', end', levels := QuickSortTurn(a, start, end, less, depth);
    ghost var past' := end' + 1;
    Narrowed(less, s0, s, a[..], lo, start, start', past', past, hi);
  }

  /** A turn on a part of the range, seen from the whole of it. */
  lemma {:induction false} Narrowed(less: (Element, Element) -> bool, s0: seq<Element>, s: seq<Element>, t: seq<Element>,
                                    lo: int, p: int, p': int, q': int, q: int, hi: int)
    requires StrictWeakOrder(less) && 0 <= lo <= p <= p' <= q' <= q <= hi <= |s|
    requires Permuted(s0, s, lo, hi) && SortedAround(less, s, lo, p, q, hi)
    requires Permuted(s, t, p, q) && SortedAround(less, t, p, p', q', q)
    ensures Permuted(s0, t, lo, hi) && SortedAround(less, t, lo, p', q', hi)
  {
    AroundPermuted(less, s, t, lo, p, q, hi);
    AroundShrinks(less, t, lo, p, p', q', q, hi);
    PermutedWider(s, t, p, q, lo, hi);
    PermutedTrans(s0, s, t, lo, hi);
  }

  /** The recursion into the two smaller parts. */
  method SortSmallerParts(a: array<Element>, start: int, l: int, r: int, end: int, less: (Element, Element) -> bool, ghost hi: int, ghost depth: nat)
    returns (start': int, end': int, ghost levels: nat)
    requires hi == end + 1 <= a.Length && StrictWeakOrder(less) && Parted(less, a[..], start, l, r, hi)
    requires depth > 0 && end + 1 - start < 2 * Pow2(depth - 1)
    modifies a
    ensures start <= start' <= end' + 1 <= end + 1 && end' - start' < end - start && levels <= depth
    ensures l - start <= end' + 1 - start' && r - l - 1 <= end' + 1 - start' && end - r <= end' + 1 - start'
    ensures Permuted(old(a[..]), a[..], start, hi) && SortedAround(less, a[..], start, start', end' + 1, hi)
    decreases depth - 1, 4
  {
    var leftSize, middleSize, rightSize := l - start, r - (l + 1), (end + 1) - (r + 1);
    if leftSize >= middleSize && leftSize >= rightSize {
      levels := SortTwoParts(a, l + 1, r - 1, r + 1, end, less, start, l, r, hi, depth - 1);
      start', end' := start, l - 1;
    } else if middleSize >= rightSize {
      levels := SortTwoParts(a, start, l - 1, r + 1, end, less, start, l, r, hi, depth - 1);
      start', end' := l + 1, r - 1;
    } else {
      levels := SortTwoParts(a, start, l - 1, l + 1, r - 1, less, start, l, r, hi, depth - 1);
      start', end' := r + 1, end;
    }
    levels := levels + 1;
    PartsSorted(less, a[..], start, l, r, hi, start', end' + 1);
  }

  lemma {:induction false} HalfDepth(depth: nat, size: int)
    requires 2 <= size < Pow2(depth)
    ensures depth > 0 && Pow2(depth) == 2 * Pow2(depth - 1)
  {
    if depth > 0 {
      PowStep(2, depth);
    }
  }

  /** `dual_pivot_quick_sort`. `levels` is how deep the recursion goes, at most `depth` for fewer than 2^depth
      elements. */
  method DualPivotQuickSort(a: array<Element>, start0: int, end0: int, less: (Element, Element) -> bool, ghost depth: nat)
    returns (ghost levels: nat)
    requires 0 <= start0 <= end0 + 1 <= a.Length && StrictWeakOrder(less) && end0 + 1 - start0 < Pow2(depth)
    modifies a
    ensures Permuted(old(a[..]), a[..], start0, end0 + 1) && Sorted(less, a[..], start0, end0 + 1)
    ensures levels <= depth
    ensures end0 + 1 - start0 <= 7 ==> SameOrder(less, old(a[..]), a[..])
    decreases depth, 2
  {
    levels := 0;
    if (end0 + 1) - start0 <= INSERTION_SORT_CUTOFF {
      InsertionSort(a, start0, end0, less);
      return;
    }
    var start, end := start0, end0;
    ghost var s0, hi := a[..], end0 + 1;
    PermutedRefl(s0, start0, hi);
    while start < end
      invariant start0 <= start <= end + 1 <= hi <= a.Length && end + 1 - start < Pow2(depth) && levels <= depth
      invariant Permuted(s0, a[..], start0, hi) && SortedAround(less, a[..], start0, start, end + 1, hi)
      decreases end - start
    {
      ghost var turnLevels;
      start, end, turnLevels := QuickSortTurnIn(a, start, end, less, start0, hi, s0, depth);
      levels := Most(levels, turnLevels);
    }
    NothingLeft(less, a[..], start0, start, end + 1, hi);
  }

  // ---- single-pivot quicksort ----

  /** The partition around the middle element; here `end` is past the range. */
  method SinglePartition(a: array<Element>, start: int, end: int, less: (Element, Element) -> bool, ghost s0: seq<Element>)
    returns (i: int)
    requires 0 <= start && start + 2 <= end <= a.Length && StrictWeakOrder(less) && Permuted(s0, a[..], start, end)
    modifies a
    ensures 1 <= i <= end - start && Permuted(s0, a[..], start, end) && Split(less, a[..], start, start + i - 1, end)
  {
    var size := end - start;
    var pivotPoint := size / 2;
    SwapIn(a, start + pivotPoint, start, s0, start, end);
    i := 1;
    var j := 1;
    ghost var p, q := start + 1, start + 1;
    while j < size
      invariant 1 <= i <= j <= size && p == start + i && q == start + j
      invariant Permuted(s0, a[..], start, end) && Halves(less, a[..], start, p, q)
    {
      i, p := SinglePartitionTurn(a, start, end, less, i, j, p, q, q + 1, s0);
      j, q := j + 1, q + 1;
    }
    ghost var m := p - 1;
    PivotPlaced(less, a[..], start, p, end, m);
    SwapIn(a, start, start + i - 1, s0, start, end);
  }

  /** One turn of its loop. */
  method SinglePartitionTurn(a: array<Element>, start: int, end: int, less: (Element, Element) -> bool, i: int, j: int,
                             ghost p: int, ghost q: int, ghost q': int, ghost s0: seq<Element>)
    returns (i': int, ghost p': int)
    requires 0 <= start && 1 <= i <= j && p == start + i && q == start + j < end <= a.Length && q' == q + 1
    requires Permuted(s0, a[..], start, end) && Halves(less, a[..], start, p, q)
    modifies a
    ensures i <= i' <= i + 1 && p' == start + i'
    ensures Permuted(s0, a[..], start, end) && Halves(less, a[..], start, p', q')
  {
    i', p' := i, p;
    if less(a[start + j], a[start]) {
      HalvesOn(less, a[..], start, p, q, p + 1, q');
      SwapIn(a, start + j, start + i, s0, start, end);
      i', p' := i + 1, p + 1;
    } else {
      HalvesOn(less, a[..], start, p, q, p, q');
    }
  }

  /** One turn of `single_pivot_quick_sort`: the shorter side sorted by recursion, the longer one left. */
  method SinglePivotTurn(a: array<Element>, start: int, end: int, less: (Element, Element) -> bool, ghost depth: nat)
    returns (start': int, end': int, ghost levels: nat)
    requires 0 <= start && start + 2 <= end <= a.Length && StrictWeakOrder(less) && end - start < Pow2(depth)
    modifies a
    ensures start <= start' <= end' <= end && end' - start' < end - start && levels <= depth
    ensures Permuted(old(a[..]), a[..], start, end) && SortedAround(less, a[..], start, start', end', end)
    decreases depth, 0
  {
    ghost var s := a[..];
    HalfDepth(depth, end - start);
    PermutedRefl(s, start, end);
    var i := SinglePartition(a, start, end, less, s);
    ghost var t := a[..];
    start', end', levels := SortShorterSide(a, start, i, end, less, start + i - 1, start + i, depth);
    PermutedTrans(s, t, a[..], start, end);
  }

  /** One side of the pivot sorted: the other one, from a to b, is left. */
  lemma {:induction false} SideDone(less: (Element, Element) -> bool, s: seq<Element>, t: seq<Element>, lo: int, m: int, hi: int,
                                    p: int, q: int, a: int, b: int)
    requires StrictWeakOrder(less) && Split(less, s, lo, m, hi) && Permuted(s, t, p, q) && Sorted(less, t, p, q)
    requires (p == lo && q == m && a == m + 1 && b == hi) || (a == lo && b == m && p == m + 1 && q == hi)
    ensures Permuted(s, t, lo, hi) && SortedAround(less, t, lo, a, b, hi)
  {
    SplitPermuted(less, s, t, lo, m, hi, p, q);
    PermutedWider(s, t, p, q, lo, hi);
    SideSorted(less, t, lo, m, hi, a, b);
  }

  /** The recursion into the shorter side; m is the place of the pivot and n the one after it. */
  method SortShorterSide(a: array<Element>, start: int, i: int, end: int, less: (Element, Element) -> bool,
                         m: int, n: int, ghost depth: nat)
    returns (start': int, end': int, ghost levels: nat)
    requires m == start + i - 1 && n == start + i && end <= a.Length && StrictWeakOrder(less) && Split(less, a[..], start, m, end)
    requires depth > 0 && end - start < 2 * Pow2(depth - 1)
    modifies a
    ensures start <= start' <= end' <= end && end' - start' < end - start && levels <= depth
    ensures Permuted(old(a[..]), a[..], start, end) && SortedAround(less, a[..], start, start', end', end)
    decreases depth - 1, 2
  {
    ghost var t := a[..];
    if i > (end - start) / 2 {
      levels := SinglePivotQuickSort(a, n, end, less, depth - 1);
      SideDone(less, t, a[..], start, m, end, n, end, start, m);
      start', end' := start, m;
    } else {
      levels := SinglePivotQuickSort(a, start, m, less, depth - 1);
      SideDone(less, t, a[..], start, m, end, start, m, n, end);
      start', end' := n, end;
    }
    levels := levels + 1;
  }

  /** `single_pivot_quick_sort` of [start, end), no deeper than `depth` for fewer than 2^depth elements. */
  method SinglePivotQuickSort(a: array<Element>, start0: int, end0: int, less: (Element, Element) -> bool, ghost depth: nat)
    returns (ghost levels: nat)
    requires 0 <= start0 <= end0 <= a.Length && StrictWeakOrder(less) && end0 - start0 < Pow2(depth)
    modifies a
    ensures Permuted(old(a[..]), a[..], start0, end0) && Sorted(less, a[..], start0, end0)
    ensures levels <= depth
    decreases depth, 1
  {
    levels := 0;
    var start, end := start0, end0;
    ghost var s0 := a[..];
    PermutedRefl(s0, start0, end0);
    while end - start > 1
      invariant start0 <= start <= end <= end0 <= a.Length && end - start < Pow2(depth) && levels <= depth
      invariant Permuted(s0, a[..], start0, end0) && SortedAround(less, a[..], start0, start, end, end0)
      decreases end - start
    {
      ghost var s, lo, hi, turnLevels := a[..], start, end, 0;
      start, end, turnLevels := SinglePivotTurn(a, start, end, less, depth);
      levels := Most(levels, turnLevels);
      Narrowed(less, s0, s, a[..], start0, lo, start, end, hi, end0);
    }
    NothingLeft(less, a[..], start0, start, end, end0);
  }

  /** `quick_sort` of a whole collection, in a depth that is logarithmic in its size. */
  method QuickSort(a: array<Element>, less: (Element, Element) -> bool, ghost depth: nat) returns (ghost levels: nat)
    requires StrictWeakOrder(less) && a.Length < Pow2(depth)
    modifies a
    ensures multiset(a[..]) == multiset(old(a[..])) && Sorted(less, a[..], 0, a.Length) && levels <= depth
    ensures a.Length <= 7 ==> SameOrder(less, old(a[..]), a[..])
  {
    ghost var s := a[..];
    levels := DualPivotQuickSort(a, 0, a.Length - 1, less, depth);
    assert s[0..a.Length] == s && a[..][0..a.Length] == a[..];
  }
}

/** `IntrusiveBinaryHeap` of AK/BinaryHeap.h: a heap of nodes that know their own position. */
module BinaryHeap {
  import opened SortSpec

  /** A node: what is compared, and the index its setter last recorded. */
  datatype Node = Node(item: Element, index: int)

  function Parent(c: int): int
    requires c > 0
  {
    (c - 1) / 2
  }

  function Items(nodes: seq<Node>): (s: seq<Element>)
    ensures |s| == |nodes| && forall i | 0 <= i < |nodes| :: s[i] == nodes[i].item
  {
    seq(|nodes|, i requires 0 <= i < |nodes| => nodes[i].item)
  }

  // ---- heap order ----

  ghost predicate Edge(less: (Element, Element) -> bool, s: seq<Element>, c: int) {
    0 < c < |s| ==> Le(less, s[Parent(c)], s[c])
  }

  /** No child is less than its parent, among the parents from k on. */
  ghost predicate HeapFrom(less: (Element, Element) -> bool, s: seq<Element>, k: int) {
    forall c | 0 < c < |s| && Parent(c) >= k :: Edge(less, s, c)
  }

  /** The same but for the children of i, which are at least the parent of i. */
  ghost predicate Sinking(less: (Element, Element) -> bool, s: seq<Element>, i: int, k: int) {
    && (forall c | 0 < c < |s| && Parent(c) >= k && Parent(c) != i :: Edge(less, s, c))
    && (forall c | 0 < c < |s| && Parent(c) == i && i > 0 && Parent(i) >= k :: Le(less, s[Parent(i)], s[c]))
  }

  /** The same but for i itself, whose children are at least its parent. */
  ghost predicate Rising(less: (Element, Element) -> bool, s: seq<Element>, i: int) {
    && 0 <= i < |s|
    && (forall c | 0 < c < |s| && c != i :: Edge(less, s, c))
    && (forall c | 0 < c < |s| && Parent(c) == i && i > 0 :: Le(less, s[Parent(i)], s[c]))
  }

  /** Where rising stops: at the root, or below a parent that is less. */
  ghost predicate Settled(less: (Element, Element) -> bool, s: seq<Element>, i: int) {
    0 <= i < |s| && (i == 0 || less(s[Parent(i)], s[i]))
  }

  lemma {:induction false} Rise(less: (Element, Element) -> bool, s: seq<Element>, i: int, p: int)
    requires StrictWeakOrder(less) && Rising(less, s, i) && i > 0 && p == Parent(i) && !less(s[p], s[i])
    ensures Rising(less, Swapped(s, i, p), p)
  {
    var t := Swapped(s, i, p);
    forall c | 0 < c < |s| && c != p ensures Edge(less, t, c) {
      assert c != i ==> Edge(less, s, c);
      if Parent(c) == p && c != i {
        LeTransitive(less, s[i], s[p], s[c]);
      }
    }
    forall c | 0 < c < |s| && Parent(c) == p && p > 0 ensures Le(less, t[Parent(p)], t[c]) {
      assert Edge(less, s, p);
      if c != i {
        assert Edge(less, s, c);
        LeTransitive(less, s[Parent(p)], s[p], s[c]);
      }
    }
  }

  lemma {:induction false} Risen(less: (Element, Element) -> bool, s: seq<Element>, i: int)
    requires StrictWeakOrder(less) && Rising(less, s, i) && (i == 0 || less(s[Parent(i)], s[i]))
    ensures HeapFrom(less, s, 0)
  {
    if i > 0 {
      LessIsLe(less, s[Parent(i)], s[i]);
    }
    forall c | 0 < c < |s| && Parent(c) >= 0 ensures Edge(less, s, c) {
    }
  }

  /** m is the smaller child of i. */
  ghost predicate SmallerChild(less: (Element, Element) -> bool, s: seq<Element>, i: int, m: int) {
    0 < m < |s| && Parent(m) == i && forall c | 0 < c < |s| && Parent(c) == i :: Le(less, s[m], s[c])
  }

  lemma {:induction false} LessThanChildren(less: (Element, Element) -> bool, s: seq<Element>, i: int, m: int)
    requires StrictWeakOrder(less) && 0 <= i < |s| && SmallerChild(less, s, i, m) && less(s[i], s[m])
    ensures forall c | 2 * i + 1 <= c <= 2 * i + 2 && c < |s| :: less(s[i], s[c])
  {
    forall c | 2 * i + 1 <= c <= 2 * i + 2 && c < |s| ensures less(s[i], s[c]) {
      assert Parent(c) == i;
      assert TransitiveAt(less, s[i], s[c], s[m]);
    }
  }

  lemma {:induction false} Sink(less: (Element, Element) -> bool, s: seq<Element>, i: int, k: int, m: int)
    requires StrictWeakOrder(less) && Sinking(less, s, i, k) && 0 <= k <= i < |s| && SmallerChild(less, s, i, m) && !less(s[i], s[m])
    ensures Sinking(less, Swapped(s, i, m), m, k)
  {
    var t := Swapped(s, i, m);
    forall c | 0 < c < |s| && Parent(c) >= k && Parent(c) != m ensures Edge(less, t, c) {
      if Parent(c) != i {
        assert Edge(less, s, c);
      }
    }
    forall c | 0 < c < |s| && Parent(c) == m && m > 0 && Parent(m) >= k ensures Le(less, t[Parent(m)], t[c]) {
      assert Edge(less, s, c);
    }
  }

  lemma {:induction false} Sunk(less: (Element, Element) -> bool, s: seq<Element>, i: int, k: int, m: int)
    requires StrictWeakOrder(less) && Sinking(less, s, i, k) && 0 <= i
    requires 2 * i + 1 >= |s| || (i < |s| && SmallerChild(less, s, i, m) && less(s[i], s[m]))
    ensures HeapFrom(less, s, k)
  {
    if 2 * i + 1 < |s| {
      LessIsLe(less, s[i], s[m]);
    }
    forall c | 0 < c < |s| && Parent(c) >= k ensures Edge(less, s, c) {
      if Parent(c) == i {
        LeTransitive(less, s[i], s[m], s[c]);
      }
    }
  }

  /** The first item is a least one. */
  lemma {:induction false} RootIsLeast(less: (Element, Element) -> bool, s: seq<Element>, c: int)
    requires StrictWeakOrder(less) && HeapFrom(less, s, 0) && 0 <= c < |s|
    ensures Le(less, s[0], s[c])
    decreases c
  {
    if c > 0 {
      RootIsLeast(less, s, Parent(c));
      assert Edge(less, s, c);
      LeTransitive(less, s[0], s[Parent(c)], s[c]);
    } else {
      assert AsymmetricAt(less, s[0], s[0]);
    }
  }

  // ---- bringing a node to the root ----

  /** Heap order but for the children of the root, and but for i and its children: i holds the node being lifted, and
      its children are at least its parent. */
  ghost predicate Lifting(less: (Element, Element) -> bool, s: seq<Element>, i: int) {
    && 0 <= i < |s|
    && (forall c | 0 < c < |s| && c != i && Parent(c) != i :: Edge(less, s, c))
    && (forall c | 0 < c < |s| && Parent(c) == i && i > 0 :: Le(less, s[Parent(i)], s[c]))
  }

  lemma {:induction false} Lift(less: (Element, Element) -> bool, s: seq<Element>, i: int, p: int)
    requires StrictWeakOrder(less) && Lifting(less, s, i) && i > 0 && p == Parent(i)
    ensures Lifting(less, Swapped(s, i, p), p)
  {
    var t := Swapped(s, i, p);
    forall c | 0 < c < |s| && c != p && Parent(c) != p ensures Edge(less, t, c) {
      if Parent(c) != i {
        assert Edge(less, s, c);
      }
    }
    forall c | 0 < c < |s| && Parent(c) == p && p > 0 ensures Le(less, t[Parent(p)], t[c]) {
      assert Edge(less, s, p);
      if c != i {
        assert Edge(less, s, c);
        LeTransitive(less, s[Parent(p)], s[p], s[c]);
      }
    }
  }

  lemma {:induction false} HeapLifts(less: (Element, Element) -> bool, s: seq<Element>, i: int)
    requires StrictWeakOrder(less) && HeapFrom(less, s, 0) && 0 <= i < |s|
    ensures Lifting(less, s, i)
  {
    forall c | 0 < c < |s| && Parent(c) == i && i > 0 ensures Le(less, s[Parent(i)], s[c]) {
      assert Edge(less, s, c) && Edge(less, s, i);
      LeTransitive(less, s[Parent(i)], s[i], s[c]);
    }
  }

  /** The last node in place of the lifted one, which has come to the root and goes. */
  lemma {:induction false} Replaced(less: (Element, Element) -> bool, s: seq<Element>, t: seq<Element>)
    requires Lifting(less, s, 0) && |t| == |s| - 1 && forall i | 0 <= i < |t| :: t[i] == if i == 0 then s[|s| - 1] else s[i]
    ensures Sinking(less, t, 0, 0)
  {
    forall c | 0 < c < |t| && Parent(c) >= 0 && Parent(c) != 0 ensures Edge(less, t, c) {
      assert Edge(less, s, c);
    }
  }

  // ---- positions ----

  /** Every node records its own position. */
  ghost predicate Indexed(nodes: seq<Node>) {
    forall i | 0 <= i < |nodes| :: nodes[i].index == i
  }

  class IntrusiveBinaryHeap {
    const less: (Element, Element) -> bool
    var nodes: seq<Node>

    ghost predicate Valid()
      reads this
    {
      StrictWeakOrder(less) && HeapFrom(less, Items(nodes), 0)
    }

    constructor (less: (Element, Element) -> bool)
      requires StrictWeakOrder(less)
      ensures Valid() && nodes == [] && this.less == less
    {
      this.less, nodes := less, [];
    }

    /** The bulk constructor. */
    constructor Heapify(less: (Element, Element) -> bool, nodes: seq<Node>)
      requires StrictWeakOrder(less)
      ensures Valid() && multiset(Items(this.nodes)) == multiset(Items(nodes)) && this.less == less
    {
      this.less, this.nodes := less, nodes;
      new;
      var i := |nodes| / 2;
      ghost var s := Items(nodes);
      PermutedRefl(s, 0, |s|);
      while i > 0
        invariant 0 <= i && |this.nodes| == |nodes| && HeapFrom(less, Items(this.nodes), i)
        invariant Permuted(s, Items(this.nodes), 0, |s|)
      {
        i := i - 1;
        ghost var place := HeapifyDown(i, i, s);
      }
      assert s[0..|s|] == s && Items(this.nodes)[0..|s|] == Items(this.nodes);
    }

    /** `swap_indices`. */
    method SwapIndices(i: int, j: int, ghost s: seq<Element>)
      requires 0 <= i < |nodes| && 0 <= j < |nodes| && Permuted(s, Items(nodes), 0, |nodes|)
      modifies this
      ensures Items(nodes) == Swapped(old(Items(nodes)), i, j) && Permuted(s, Items(nodes), 0, |nodes|) && |nodes| == |old(nodes)|
      ensures old(Indexed(nodes)) ==> Indexed(nodes)
    {
      ghost var t := Items(nodes);
      nodes := nodes[i := nodes[j]][j := nodes[i]];
      nodes := nodes[i := nodes[i].(index := i)];
      nodes := nodes[j := nodes[j].(index := j)];
      assert Items(nodes) == Swapped(t, i, j);
      PermutedSwap(t, 0, |t|, i, j);
      PermutedTrans(s, t, Items(nodes), 0, |t|);
    }

    method CompareIndices(i: int, j: int) returns (r: bool)
      requires 0 <= i < |nodes| && 0 <= j < |nodes|
      ensures r == less(nodes[i].item, nodes[j].item)
    {
      r := less(nodes[i].item, nodes[j].item);
    }

    /** `heapify_up`: the node rises past every one that is not less than it. */
    method HeapifyUp(i0: int, ghost s: seq<Element>) returns (ghost place: int)
      requires StrictWeakOrder(less) && Rising(less, Items(nodes), i0) && Permuted(s, Items(nodes), 0, |nodes|)
      modifies this
      ensures Valid() && Permuted(s, Items(nodes), 0, |nodes|) && |nodes| == |old(nodes)|
      ensures old(Indexed(nodes)) ==> Indexed(nodes)
      ensures 0 <= place < |nodes| && nodes[place].item == old(nodes)[i0].item
      ensures Settled(less, Items(nodes), place)
    {
      var i := i0;
      while i != 0
        invariant 0 <= i < |nodes| && nodes[i].item == old(nodes)[i0].item
        invariant |nodes| == |old(nodes)| && Rising(less, Items(nodes), i) && Permuted(s, Items(nodes), 0, |nodes|)
        invariant old(Indexed(nodes)) ==> Indexed(nodes)
        decreases i
      {
        var parent := (i - 1) / 2;
        var done := CompareIndices(parent, i);
        if done {
          break;
        }
        Rise(less, Items(nodes), i, parent);
        SwapIndices(i, parent, s);
        i := parent;
      }
      Risen(less, Items(nodes), i);
      place := i;
    }

    /** `heapify_down`, with heap order expected among parents from k on: the node sinks past every child that it is not
        less than. */
    method HeapifyDown(i0: int, ghost k: int, ghost s: seq<Element>) returns (ghost place: int)
      requires StrictWeakOrder(less) && 0 <= k <= i0 && Sinking(less, Items(nodes), i0, k) && Permuted(s, Items(nodes), 0, |nodes|)
      modifies this
      ensures HeapFrom(less, Items(nodes), k) && Permuted(s, Items(nodes), 0, |nodes|) && |nodes| == |old(nodes)|
      ensures old(Indexed(nodes)) ==> Indexed(nodes)
      ensures i0 <= place && (i0 < |nodes| ==> place < |nodes| && nodes[place].item == old(nodes)[i0].item)
      ensures forall c | 2 * place + 1 <= c <= 2 * place + 2 && c < |nodes| :: less(nodes[place].item, nodes[c].item)
    {
      var i := i0;
      ghost var m := 0;
      while i * 2 + 1 < |nodes|
        invariant i0 <= i && (i0 < |nodes| ==> i < |nodes| && nodes[i].item == old(nodes)[i0].item)
        invariant |nodes| == |old(nodes)| && k <= i && Sinking(less, Items(nodes), i, k) && Permuted(s, Items(nodes), 0, |nodes|)
        invariant old(Indexed(nodes)) ==> Indexed(nodes)
        decreases |nodes| - i
      {
        var minChild := MinChild(i);
        var done := CompareIndices(i, minChild);
        m := minChild;
        if done {
          LessThanChildren(less, Items(nodes), i, m);
          break;
        }
        Sink(less, Items(nodes), i, k, minChild);
        SwapIndices(i, minChild, s);
        i := minChild;
      }
      Sunk(less, Items(nodes), i, k, m);
      place := i;
    }

    /** The choice between the two children. */
    method MinChild(i: int) returns (minChild: int)
      requires StrictWeakOrder(less) && 0 <= i && i * 2 + 1 < |nodes|
      ensures i < minChild && SmallerChild(less, Items(nodes), i, minChild)
      ensures minChild == 2 * i + 2 ==> less(nodes[2 * i + 2].item, nodes[2 * i + 1].item)
    {
      minChild := i * 2 + 1;
      var otherChild := i * 2 + 2;
      ghost var s := Items(nodes);
      assert AsymmetricAt(less, s[minChild], s[minChild]);
      if otherChild < |nodes| {
        assert AsymmetricAt(less, s[otherChild], s[otherChild]);
        var other := CompareIndices(otherChild, minChild);
        if other {
          LessIsLe(less, s[otherChild], s[minChild]);
          minChild := otherChild;
        }
      }
    }

    /** `insert`. */
    method Insert(item: Element) returns (ghost place: int)
      requires Valid()
      modifies this
      ensures Valid() && multiset(Items(nodes)) == multiset(old(Items(nodes))) + multiset{item}
      ensures old(Indexed(nodes)) ==> Indexed(nodes)
      ensures 0 <= place < |nodes| && nodes[place].item == item
      ensures Settled(less, Items(nodes), place)
    {
      ghost var before := Items(nodes);
      nodes := nodes + [Node(item, |nodes|)];
      ghost var s := Items(nodes);
      assert s == before + [item];
      Appended(less, before, item);
      PermutedRefl(s, 0, |s|);
      place := HeapifyUp(|nodes| - 1, s);
      WholeRange(s, Items(nodes));
    }

    /** `pop` at any index: exactly that node goes. */
    method Pop(i0: int) returns (node: Node)
      requires Valid() && 0 <= i0 < |nodes|
      modifies this
      ensures Valid() && node.item == old(nodes)[i0].item
      ensures multiset(Items(nodes)) == multiset(old(Items(nodes))) - multiset{node.item}
      ensures old(Indexed(nodes)) ==> Indexed(nodes)
    {
      ghost var s := Items(nodes);
      PermutedRefl(s, 0, |s|);
      LiftToRoot(i0, s);
      node := TakeRoot(s);
    }

    /** The first loop of `pop`. */
    method LiftToRoot(i0: int, ghost s: seq<Element>)
      requires Valid() && 0 <= i0 < |nodes| && s == Items(nodes) && Permuted(s, s, 0, |s|)
      modifies this
      ensures Lifting(less, Items(nodes), 0) && nodes[0].item == s[i0] && Permuted(s, Items(nodes), 0, |s|) && |nodes| == |s|
      ensures old(Indexed(nodes)) ==> Indexed(nodes)
    {
      var i := i0;
      HeapLifts(less, s, i);
      while i != 0
        invariant |nodes| == |s| && Lifting(less, Items(nodes), i) && nodes[i].item == s[i0] && Permuted(s, Items(nodes), 0, |s|)
        invariant old(Indexed(nodes)) ==> Indexed(nodes)
        decreases i
      {
        Lift(less, Items(nodes), i, (i - 1) / 2);
        SwapIndices(i, (i - 1) / 2, s);
        i := (i - 1) / 2;
      }
    }

    /** The rest of `pop`: the root goes to the end and out, and the node now at the root sinks. */
    method TakeRoot(ghost s: seq<Element>) returns (node: Node)
      requires StrictWeakOrder(less) && Lifting(less, Items(nodes), 0) && Permuted(s, Items(nodes), 0, |nodes|)
      modifies this
      ensures Valid() && node.item == old(nodes)[0].item && multiset(Items(nodes)) == multiset(s) - multiset{node.item}
      ensures old(Indexed(nodes)) ==> Indexed(nodes)
    {
      ghost var t := Items(nodes);
      SwapIndices(0, |nodes| - 1, s);
      node := nodes[|nodes| - 1];
      ghost var whole := Items(nodes);
      WholeRange(s, whole);
      nodes := nodes[..|nodes| - 1];
      ghost var rest := Items(nodes);
      assert whole == rest + [node.item];
      Replaced(less, t, rest);
      PermutedRefl(rest, 0, |rest|);
      ghost var place := HeapifyDown(0, 0, rest);
      WholeRange(rest, Items(nodes));
    }

    /** `pop_min`. */
    method PopMin() returns (node: Node)
      requires Valid() && nodes != []
      modifies this
      ensures Valid() && node.item == old(nodes)[0].item && forall i | 0 <= i < |old(nodes)| :: Le(less, node.item, old(nodes)[i].item)
      ensures multiset(Items(nodes)) == multiset(old(Items(nodes))) - multiset{node.item}
      ensures old(Indexed(nodes)) ==> Indexed(nodes)
    {
      ghost var s := Items(nodes);
      forall i | 0 <= i < |s| ensures Le(less, s[0], s[i]) {
        RootIsLeast(less, s, i);
      }
      node := Pop(0);
    }
  }

  lemma {:induction false} WholeRange(s: seq<Element>, t: seq<Element>)
    requires Permuted(s, t, 0, |s|)
    ensures multiset(t) == multiset(s)
  {
    assert s[0..|s|] == s && t[0..|s|] == t;
  }

  /** A new last node rises from its place. */
  lemma {:induction false} Appended(less: (Element, Element) -> bool, s: seq<Element>, x: Element)
    requires HeapFrom(less, s, 0)
    ensures Rising(less, s + [x], |s|)
  {
    var t := s + [x];
    forall c | 0 < c < |t| && c != |s| ensures Edge(less, t, c) {
      assert Edge(less, s, c);
    }
  }
}

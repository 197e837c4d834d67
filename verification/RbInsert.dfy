/** Insertion into a red-black tree, on values: what each branch of `insert_fixups` in AK/RedBlackTree.h does to a
    focus, and that it keeps the state of the loop. */
module RbInsert {
  import opened RbTrees
  import opened RbMemory
  import opened RbRotation

  /** The leftmost node has no children. */
  ghost predicate FirstIsLeaf(t: Tree) {
    match t
    case Leaf => false
    case Fork(l, _, _, _, r) => if l.Leaf? then r.Leaf? else FirstIsLeaf(l)
  }

  /** The fixup loop: a red focus, everything in order but for a possibly red parent. `first` says that the new node
      became the first in order. */
  ghost predicate InsertState(t: Tree, p: Path, entries: seq<Entry>, first: bool) {
    && IsRed(t) && Rb(t) && RbPath(p, BlackHeight(t)) && BlackTop(p)
    && Entries(Zip(p, t)) == entries
    && (first ==> Before(p) == [] && FirstIsLeaf(t))
  }

  /** Exchanging a focus for one with the same entries changes no entry of the whole. */
  lemma {:induction false} SameEntries(p: Path, t: Tree, t': Tree)
    requires Entries(t) == Entries(t')
    ensures Entries(Zip(p, t)) == Entries(Zip(p, t'))
  {
    ZipEntries(p, t);
    ZipEntries(p, t');
  }

  /** A red parent has a black parent of its own. */
  lemma {:induction false} RedParent(p: Path, h: nat)
    requires TopRed(p) && RbPath(p, h) && BlackTop(p)
    ensures p.up.Step? && p.up.color == Black
  {
  }

  /** What the state says about the two steps above a focus with a red parent. */
  lemma {:induction false} TwoSteps(t: Tree, p: Path, h: nat)
    requires TopRed(p) && RbPath(p, h) && BlackTop(p) && p.up.Step?
    ensures Rb(p.sibling) && BlackHeight(p.sibling) == h && !IsRed(p.sibling)
    ensures p.up.color == Black && Rb(p.up.sibling) && BlackHeight(p.up.sibling) == h
    ensures RbPath(p.up.up, h + 1) && BlackTop(p.up.up)
    ensures Zip(p, t) == Zip(p.up.up, Join(p.up.side, Join(p.side, t, p.id, p.color, p.key, p.sibling),
                                           p.up.id, p.up.color, p.up.key, p.up.sibling))
  {
    assert RbPath(p.up, h);
  }

  function Blackened(t: Tree): Tree {
    if t.Leaf? then t else t.(color := Black)
  }

  /** Red uncle: recolour and go on from the grandparent. */
  function Recolored(t: Tree, p: Path): Tree
    requires p.Step? && p.up.Step?
  {
    Join(p.up.side, Join(p.side, t, p.id, Black, p.key, p.sibling), p.up.id, Red, p.up.key, Blackened(p.up.sibling))
  }

  lemma {:induction false} RecoloredState(t: Tree, p: Path, entries: seq<Entry>, first: bool)
    requires InsertState(t, p, entries, first) && TopRed(p) && p.up.Step? && IsRed(p.up.sibling)
    ensures InsertState(Recolored(t, p), p.up.up, entries, first)
  {
    var g := p.up;
    var whole := Join(g.side, Join(p.side, t, p.id, p.color, p.key, p.sibling), g.id, g.color, g.key, g.sibling);
    TwoSteps(t, p, BlackHeight(t));
    SameEntries(g.up, whole, Recolored(t, p));
    RecoloredRb(t, p);
    if first {
      NotBothLeft(p);
    }
  }

  lemma {:induction false} RecoloredRb(t: Tree, p: Path)
    requires Rb(t) && p.Step? && p.up.Step? && IsRed(p.up.sibling) && Rb(p.sibling) && Rb(p.up.sibling)
    requires BlackHeight(p.sibling) == BlackHeight(t) == BlackHeight(p.up.sibling)
    ensures Rb(Recolored(t, p)) && BlackHeight(Recolored(t, p)) == BlackHeight(t) + 1
  {
    var below := Join(p.side, t, p.id, Black, p.key, p.sibling);
    assert Rb(below) && BlackHeight(below) == BlackHeight(t) + 1;
    assert Rb(Blackened(p.up.sibling)) && BlackHeight(Blackened(p.up.sibling)) == BlackHeight(t) + 1;
  }

  /** Black uncle, outer grandchild: parent painted black, grandparent red and rotated down. The focus stays. */
  function Straightened(p: Path): Path
    requires p.Step? && p.up.Step?
  {
    var g := p.up;
    Step(p.side, p.id, Black, p.key, Join(p.side, p.sibling, g.id, Red, g.key, g.sibling), g.up)
  }

  lemma {:induction false} StraightenedState(t: Tree, p: Path, entries: seq<Entry>, first: bool)
    requires InsertState(t, p, entries, first) && TopRed(p) && p.up.Step? && p.up.side == p.side && !IsRed(p.up.sibling)
    ensures InsertState(t, Straightened(p), entries, first)
  {
    var g := p.up;
    var whole := Join(g.side, Join(p.side, t, p.id, p.color, p.key, p.sibling), g.id, g.color, g.key, g.sibling);
    RotatedEntries(p.side, whole);
    var whole' := Join(p.side, t, p.id, Black, p.key, Join(p.side, p.sibling, g.id, Red, g.key, g.sibling));
    TwoSteps(t, p, BlackHeight(t));
    SameEntries(g.up, whole, whole');
    if first {
      NotBothLeft(p);
    }
  }

  /** Black uncle, inner grandchild: rotating the parent down makes it an outer one. The focus is the old parent. */
  function UnbentFocus(t: Tree, p: Path): Tree
    requires t.Fork? && p.Step?
  {
    Join(p.side, Child(t, Other(p.side)), p.id, p.color, p.key, p.sibling)
  }

  function UnbentPath(t: Tree, p: Path): Path
    requires t.Fork? && p.Step?
  {
    Step(Other(p.side), t.id, t.color, t.key, Child(t, p.side), p.up)
  }

  lemma {:induction false} UnbentState(t: Tree, p: Path, entries: seq<Entry>, first: bool)
    requires InsertState(t, p, entries, first) && TopRed(p) && p.up.Step? && p.up.side != p.side
    ensures InsertState(UnbentFocus(t, p), UnbentPath(t, p), entries, first)
  {
    var whole := Join(p.side, t, p.id, p.color, p.key, p.sibling);
    RotatedEntries(p.side, whole);
    SameEntries(p.up, whole, Rotated(p.side, whole));
    assert Rotated(p.side, whole) == Join(Other(p.side), UnbentFocus(t, p), t.id, t.color, t.key, Child(t, p.side));
    TwoSteps(t, p, BlackHeight(t));
    if first {
      NotBothLeft(p);
    }
  }

  /** A path with nothing before its focus turns left all the way. */
  lemma {:induction false} NotBothLeft(p: Path)
    requires p.Step? && p.up.Step? && Before(p) == []
    ensures p.side == L == p.up.side && Before(p.up) == Before(p.up.up) == []
  {
  }

  /** The loop is over when the parent is black: painting the root black completes the tree. */
  lemma {:induction false} InsertDone(t: Tree, p: Path, entries: seq<Entry>, first: bool)
    requires InsertState(t, p, entries, first) && !TopRed(p)
    ensures var t' := if p.Top? then Blackened(t) else Zip(p, t);
            Rb(t') && !IsRed(t') && Entries(t') == entries && (first ==> FirstIsLeaf(t'))
  {
    if p.Top? {
    } else {
      ZipRb(p, t);
      ZipBlackRoot(p, t);
      if first {
        ZipFirstIsLeaf(p, t);
      }
    }
  }

  lemma {:induction false} ZipFirstIsLeaf(p: Path, t: Tree)
    requires Before(p) == [] && FirstIsLeaf(t)
    ensures FirstIsLeaf(Zip(p, t))
  {
    match p
    case Top =>
    case Step(s, id, c, k, sibling, up) =>
      ZipFirstIsLeaf(up, Join(s, t, id, c, k, sibling));
  }

  /** If the first node in order is a leaf, the second has it as left child. */
  lemma {:induction false} SecondHoldsFirst(m: Memory, t: Tree, parent: nat)
    requires Links(m, t, parent) && FirstIsLeaf(t) && |Entries(t)| >= 2
    ensures var id := Entries(t)[1].id; id in m && m[id].left == Entries(t)[0].id
    decreases t
  {
    var l := t.left;
    if l.Fork? {
      if l.left.Leaf? {
        assert Entries(l) == [Entry(l.id, l.key)];
      } else {
        assert |Entries(l)| >= 2;
        SecondHoldsFirst(m, l, t.id);
      }
    }
  }

  // ---- descending ----

  /** Everything before the focus is at most the key, everything after it above the key. */
  ghost predicate Around(p: Path, key: int) {
    && (forall e | e in Before(p) :: e.key <= key)
    && (forall e | e in After(p) :: e.key > key)
  }

  lemma {:induction false} Descend(p: Path, t: Tree, key: int)
    requires t.Fork? && Around(p, key) && Sorted(Entries(t))
    ensures Sorted(Entries(t.left)) && Sorted(Entries(t.right))
    ensures key < t.key ==> Around(Step(L, t.id, t.color, t.key, t.right, p), key)
    ensures key >= t.key ==> Around(Step(R, t.id, t.color, t.key, t.left, p), key)
  {
    var l, r, e := Entries(t.left), Entries(t.right), Entries(t);
    assert e == l + [Entry(t.id, t.key)] + r;
    forall i | 0 <= i < |l| ensures l[i].key <= t.key {
      assert e[i] == l[i] && e[|l|].key == t.key;
    }
    forall i | 0 <= i < |r| ensures t.key <= r[i].key {
      assert e[|l| + 1 + i] == r[i] && e[|l|].key == t.key;
    }
    SortedParts(l, [Entry(t.id, t.key)], r);
  }

  lemma {:induction false} SortedParts(a: seq<Entry>, x: seq<Entry>, b: seq<Entry>)
    requires Sorted(a + x + b)
    ensures Sorted(a) && Sorted(b)
  {
    var e := a + x + b;
    forall i, j | 0 <= i < j < |a| ensures a[i].key <= a[j].key {
      assert e[i] == a[i] && e[j] == a[j];
    }
    forall i, j | 0 <= i < j < |b| ensures b[i].key <= b[j].key {
      assert e[|a| + |x| + i] == b[i] && e[|a| + |x| + j] == b[j];
    }
  }

  lemma {:induction false} SortedInsert(a: seq<Entry>, x: Entry, b: seq<Entry>)
    requires Sorted(a + b) && (forall e | e in a :: e.key <= x.key) && (forall e | e in b :: e.key > x.key)
    ensures Sorted(a + [x] + b)
  {
    var e, e' := a + b, a + [x] + b;
    SortedParts(a, [], b);
    assert a + [] + b == e;
    forall i, j | 0 <= i < j < |e'| ensures e'[i].key <= e'[j].key {
      if i < |a| {
        assert e'[i] in a;
        if j < |a| {
          assert e'[j] == a[j];
        } else if j > |a| {
          assert e'[j] == b[j - |a| - 1] && b[j - |a| - 1] in b;
        }
      } else {
        assert e'[j] == b[j - |a| - 1] && b[j - |a| - 1] in b;
        if i > |a| {
          assert e'[i] == b[i - |a| - 1];
        }
      }
    }
  }

  /** The descent of `insert`: where the focus is, and that the new key belongs there. */
  ghost predicate Descending(t: Tree, p: Path, key: int, whole: Tree, node: nat) {
    && Within(t, p) && Zip(p, t) == whole
    && Around(p, key) && Sorted(Entries(t))
    && node !in Ids(t) && node !in PathIds(p)
  }

  lemma {:induction false} DescendOne(t: Tree, p: Path, key: int, whole: Tree, node: nat, s: Side)
    requires t.Fork? && Descending(t, p, key, whole, node) && s == if key < t.key then L else R
    ensures Descending(Child(t, s), Step(s, t.id, t.color, t.key, Child(t, Other(s)), p), key, whole, node)
  {
    Descend(p, t, key);
    WithinDown(t, p, s);
  }

  /** The new entries are the old ones with the new entry at one position. */
  ghost predicate InsertedAt(before: seq<Entry>, after: seq<Entry>, x: Entry, i: nat) {
    && i <= |before| && after == before[..i] + [x] + before[i..]
    && (forall j | 0 <= j < i :: before[j].key <= x.key)
    && (forall j | i <= j < |before| :: before[j].key > x.key)
  }

  /** The entries an insertion at an empty focus leads to. */
  lemma {:induction false} DescentEntries(p: Path, key: int, whole: Tree, node: nat)
    requires Descending(Leaf, p, key, whole, node) && Sorted(Entries(whole))
    ensures var entries := Before(p) + [Entry(node, key)] + After(p);
            InsertedAt(Entries(whole), entries, Entry(node, key), |Before(p)|) && Sorted(entries)
  {
    ZipEntries(p, Leaf);
    var e, a, b := Entries(whole), Before(p), After(p);
    assert e == a + b;
    assert e[..|a|] == a && e[|a|..] == b;
    SortedInsert(a, Entry(node, key), b);
  }

  /** A fresh red node in place of the empty focus starts the fixups. */
  lemma {:induction false} StartInsert(p: Path, id: nat, key: int)
    requires RbPath(p, 0) && BlackTop(p)
    ensures InsertState(Fork(Leaf, id, Red, key, Leaf), p, Before(p) + [Entry(id, key)] + After(p), Before(p) == [])
  {
    var t := Fork(Leaf, id, Red, key, Leaf);
    ZipEntries(p, t);
    assert Entries(t) == [Entry(id, key)];
  }

  /** The new node written below the last node of the descent. */
  lemma {:induction false} Attach(m: Memory, root: nat, p: Path, id: nat, key: int)
    requires At(m, root, Leaf, p) && p.Step? && id != 0 && id !in PathIds(p) && id in m && m[id] == Node(0, 0, 0, Red, key)
    ensures p.id in m
    ensures var m' := m[p.id := Set(m[p.id], p.side, id)];
            id in m' && At(m'[id := m'[id].(parent := p.id)], root, Fork(Leaf, id, Red, key, Leaf), p)
  {
    var m1 := m[p.id := Set(m[p.id], p.side, id)];
    var m2 := m1[id := m1[id].(parent := p.id)];
    Repoint(m, p, 0, id, root);
    PathFrame(m1, m2, p, id, root);
  }

  /** Painting the root black finishes the tree in memory; below the top of the path it changes nothing. */
  lemma {:induction false} BlackRootAt(m: Memory, root: nat, t: Tree, p: Path)
    requires At(m, root, t, p) && t.Fork? && BlackTop(p)
    ensures root in m
    ensures At(m[root := m[root].(color := Black)], root, if p.Top? then Blackened(t) else Zip(p, t), Top)
  {
    if p.Step? {
      BlackRoot(m, root, p, t.id);
      ZipAt(m, root, t, p);
      assert m[root := m[root].(color := Black)] == m;
    } else {
      PaintFocus(m, root, t, p, Black);
    }
  }

  /** The side of the last step is the one the comparison with its key gives. */
  lemma {:induction false} SideOfKey(p: Path, key: int)
    requires p.Step? && Around(p, key)
    ensures p.side == L <==> key < p.key
  {
    var e := Entry(p.id, p.key);
    if p.side == L {
      assert After(p)[0] == e && e in After(p);
    } else {
      assert Before(p)[|Before(p)| - 1] == e && e in Before(p);
    }
  }

  /** The test on the old minimum's left child finds the new first node. */
  lemma {:induction false} NewMinimum(m: Memory, t: Tree, before: seq<Entry>, node: nat, key: int, i: nat)
    requires t.Fork? && Links(m, t, 0) && InsertedAt(before, Entries(t), Entry(node, key), i) && before != [] && node != 0
    requires i == 0 ==> FirstIsLeaf(t)
    ensures before[0].id in m
    ensures Entries(t)[0].id == if m[before[0].id].left == node then node else before[0].id
  {
    if i == 0 {
      SecondHoldsFirst(m, t, 0);
      assert Entries(t)[1] == before[0];
    } else {
      FirstHasNoLeft(m, t, 0);
      assert Entries(t)[0] == before[0];
    }
  }

  lemma {:induction false} SingleNode(m: Memory, node: nat, key: int)
    requires node != 0 && node in m && m[node] == Node(0, 0, 0, Black, key)
    ensures var t := Fork(Leaf, node, Black, key, Leaf);
            At(m, node, t, Top) && ValidTree(t) && Entries(t) == [Entry(node, key)]
  {
    var t := Fork(Leaf, node, Black, key, Leaf);
    assert Entries(t) == [Entry(node, key)];
    assert Links(m, Leaf, node) && Rb(Leaf) && Distinct(Leaf);
  }
}

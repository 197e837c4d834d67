/** Taking a node with at most one child out of the tree, as the second half of `remove` of AK/RedBlackTree.h does,
    and what the whole removal does to the entries. */
module RbUnlink {
  import opened RbTrees
  import opened RbMemory
  import opened RbRotation
  import opened RbRemove
  import opened RbRelink
  import opened RbSearch

  /** Every node of the tree can be brought into focus. */
  lemma {:induction false} Locate(m: Memory, root: nat, t: Tree, p: Path, id: nat) returns (t': Tree, p': Path)
    requires At(m, root, t, p) && Within(t, p) && id in Ids(t)
    ensures t'.Fork? && t'.id == id && At(m, root, t', p') && Within(t', p') && Zip(p', t') == Zip(p, t)
    decreases t
  {
    if t.id == id {
      return t, p;
    }
    var s := if id in Ids(t.left) then L else R;
    WithinDown(t, p, s);
    JoinChild(t, s);
    Down(m, root, s, Child(t, s), t.id, t.color, t.key, Child(t, Other(s)), p);
    t', p' := Locate(m, root, Child(t, s), Step(s, t.id, t.color, t.key, Child(t, Other(s)), p), id);
  }

  // ---- the exchange keeps the conditions ----

  lemma {:induction false} SpineWithin(r: Tree, base: Path)
    requires r.Fork? && Within(r, base)
    ensures Within(SpineFocus(r), SpinePath(r, base))
    decreases r
  {
    if r.left.Fork? {
      WithinDown(r, base, L);
      SpineWithin(r.left, Step(L, r.id, r.color, r.key, r.right, base));
    }
  }

  lemma {:induction false} ExchangeWithin(e: Exchange)
    requires e.Proper() && Within(e.r, e.Base())
    ensures Within(e.NewFocus(), e.NewPath()) && e.NewPath().Step?
  {
    SpineWithin(e.r, e.Base());
    SpineRb(e.r, e.Base(), e.NewBase(), BlackHeight(e.S()));
  }

  /** With the node left out, the exchange has not moved any entry. */
  lemma {:induction false} ExchangeEntries(e: Exchange)
    requires e.Proper()
    ensures Before(e.NewPath()) + Entries(e.NewFocus().right) + After(e.NewPath())
         == Before(e.p) + Entries(e.l) + Entries(e.r) + After(e.p)
  {
    SpineEntries(e.r, e.NewBase());
    var s := e.S();
    var x := [Entry(s.id, s.key)];
    assert Entries(s) == x + Entries(s.right) by {
      assert Entries(Leaf) == [];
    }
    ConcatAround(Before(e.p), Entries(e.l), x, Entries(s.right), SpineAfter(e.r), After(e.p));
  }

  lemma {:induction false} ConcatAround(a: seq<Entry>, b: seq<Entry>, x: seq<Entry>, c: seq<Entry>, d: seq<Entry>, f: seq<Entry>)
    ensures (a + (b + x)) + c + (d + f) == a + b + ((x + c) + d) + f
  {
  }

  // ---- unlinking ----

  /** The child that takes the node's place. */
  function Heir(t: Tree): Tree
    requires t.Fork?
  {
    if t.left.Leaf? then t.right else t.left
  }

  lemma {:induction false} UnlinkedAt(m: Memory, root: nat, t: Tree, p: Path, m': Memory, root': nat)
    requires t.Fork? && At(m, root, t, p) && (t.left.Leaf? || t.right.Leaf?)
    requires m'.Keys == m.Keys
    requires Heir(t).Fork? ==> Heir(t).id in m && m'[Heir(t).id] == m[Heir(t).id].(parent := Parent(p))
    requires p.Step? ==> p.id in m && m'[p.id] == Set(m[p.id], p.side, Root(Heir(t)))
    requires forall i | i in m && i != Root(Heir(t)) && i != Parent(p) :: m'[i] == m[i]
    requires root' == if p.Top? then Root(Heir(t)) else root
    ensures At(m', root', Heir(t), p)
  {
    var x := Heir(t);
    RootInIds(x);
    DistinctAt(t, L);
    LinksAt(m, t, Parent(p), L);
    IdsLinked(m, x, t.id);
    RehungLinks(m, m', x, t.id, Parent(p));
    if p.Step? {
      LinksFrame(m, m', p.sibling, p.id);
      PathFrame(m, m', p.up, p.id, root);
    }
  }

  lemma {:induction false} UnlinkReady(m: Memory, root: nat, t: Tree, p: Path)
    requires t.Fork? && At(m, root, t, p) && (t.left.Leaf? || t.right.Leaf?)
    ensures var x := Root(Heir(t));
            && t.id != 0 && t.id in m && m[t.id].left == Root(t.left) && m[t.id].right == Root(t.right)
            && m[t.id].parent == Parent(p) && m[t.id].color == t.color
            && (x != 0 ==> x in m && x != t.id) && (Heir(t).Fork? ==> x != 0)
            && (p.Step? ==> && p.id != 0 && p.id in m && p.id != t.id && p.id != x
                            && Get(m[p.id], p.side) == t.id && Get(m[p.id], Other(p.side)) != t.id)
  {
    FocusPointers(m, root, t, p);
    LinksAt(m, t, Parent(p), L);
    DistinctAt(t, L);
    RootInIds(Heir(t));
    IdsLinked(m, t.left, t.id);
    IdsLinked(m, t.right, t.id);
  }

  /** A black node leaves its place one black node short; a red one leaves a red-black tree. */
  lemma {:induction false} UnlinkedState(t: Tree, p: Path)
    requires t.Fork? && Within(t, p) && (t.left.Leaf? || t.right.Leaf?) && (p.Step? || Heir(t).Fork?)
    ensures var entries := Before(p) + Entries(Heir(t)) + After(p);
            if t.color == Red then Rb(Zip(p, Heir(t))) && !IsRed(Zip(p, Heir(t))) && Entries(Zip(p, Heir(t))) == entries
            else RemoveState(Heir(t), p, entries)
  {
    var x := Heir(t);
    ZipEntries(p, x);
    RbAt(t, L);
    if t.color == Red {
      assert x.Leaf?;
      ZipRb(p, x);
      ZipBlackRoot(p, x);
    } else if x.Fork? {
      assert x.color == Red;
    }
  }

  // ---- the whole removal ----

  /** The new entries are the old ones without one of them. */
  ghost predicate RemovedAt(before: seq<Entry>, after: seq<Entry>, id: nat, i: nat) {
    i < |before| && before[i].id == id && after == before[..i] + before[i + 1..]
  }

  lemma {:induction false} RemovedEntries(t: Tree, p: Path)
    requires t.Fork?
    ensures RemovedAt(Entries(Zip(p, t)), Before(p) + Entries(t.left) + Entries(t.right) + After(p), t.id,
                      |Before(p)| + |Entries(t.left)|)
  {
    ZipEntries(p, t);
    Cut(Before(p), Entries(t.left), Entry(t.id, t.key), Entries(t.right), After(p));
  }

  lemma {:induction false} Cut(a: seq<Entry>, b: seq<Entry>, x: Entry, c: seq<Entry>, d: seq<Entry>)
    ensures var e := a + (b + [x] + c) + d; var i := |a| + |b|;
            i < |e| && e[i] == x && a + b + c + d == e[..i] + e[i + 1..] && e[i + 1..] == c + d && e[..i] == a + b
  {
    var e := a + (b + [x] + c) + d;
    var i := |a| + |b|;
    assert e == (a + b) + [x] + (c + d);
    assert e[..i] == a + b;
    assert e[i + 1..] == c + d;
    assert a + b + c + d == (a + b) + (c + d);
  }

  lemma {:induction false} SortedWithout(before: seq<Entry>, after: seq<Entry>, id: nat, i: nat)
    requires Sorted(before) && RemovedAt(before, after, id, i)
    ensures Sorted(after) && |after| == |before| - 1
  {
  }

  /** The entry that follows the node in order. */
  lemma {:induction false} NextEntry(t: Tree, p: Path)
    requires t.Fork?
    ensures var e := Entries(Zip(p, t)); var i := |Before(p)| + |Entries(t.left)|;
            && i < |e| && e[i] == Entry(t.id, t.key)
            && e[i + 1..] == Entries(t.right) + After(p) && e[..i] == Before(p) + Entries(t.left)
  {
    ZipEntries(p, t);
    Cut(Before(p), Entries(t.left), Entry(t.id, t.key), Entries(t.right), After(p));
  }

  lemma {:induction false} EntryIds(t: Tree)
    ensures forall e | e in Entries(t) :: e.id in Ids(t)
  {
    if t.Fork? {
      EntryIds(t.left);
      EntryIds(t.right);
    }
  }

  lemma {:induction false} BeforeIds(p: Path)
    ensures forall e | e in Before(p) :: e.id in PathIds(p)
  {
    if p.Step? {
      BeforeIds(p.up);
      EntryIds(p.sibling);
    }
  }

  /** The minimum after a removal: the successor when the old minimum goes, otherwise unchanged. */
  lemma {:induction false} MinimumWithout(t: Tree, p: Path, after: seq<Entry>)
    requires t.Fork? && Distinct(t) && Ids(t) !! PathIds(p) && after != []
    requires RemovedAt(Entries(Zip(p, t)), after, t.id, |Before(p)| + |Entries(t.left)|)
    ensures Entries(Zip(p, t)) != []
    ensures var first := Entries(Zip(p, t))[0].id;
            after[0].id == if first != t.id then first else Near(R, Entries(t.right) + After(p))
  {
    NextEntry(t, p);
    var e, i := Entries(Zip(p, t)), |Before(p)| + |Entries(t.left)|;
    if i == 0 {
      assert after == e[1..];
    } else {
      BeforeIds(p);
      EntryIds(t.left);
      assert e[0] in Before(p) + Entries(t.left) by {
        assert e[0] == e[..i][0];
      }
    }
  }

  /** The first node of the right subtree is the end of its left spine. */
  lemma {:induction false} FirstOfSpine(r: Tree, p: Path)
    requires r.Fork?
    ensures Near(R, Outward(R, r, p)) == SpineFocus(r).id
  {
    SpineEntries(r, Top);
    assert Entries(Leaf) == [];
  }

  lemma {:induction false} LoneEntries(t: Tree, p: Path)
    requires t.Fork? && (t.left.Leaf? || t.right.Leaf?)
    ensures Before(p) + Entries(t.left) + Entries(t.right) + After(p) == Before(p) + Entries(Heir(t)) + After(p)
  {
    assert Entries(Leaf) == [];
    assert forall a: seq<Entry> :: a + [] == a;
  }

  /** In a tree of more than one node, every node has a parent or a child. */
  lemma {:induction false} AnotherEntry(t: Tree, p: Path)
    requires t.Fork? && |Entries(Zip(p, t))| > 1
    ensures p.Step? || t.left.Fork? || t.right.Fork?
  {
    assert Entries(Leaf) == [];
  }

  /** The entries next to the node in order. */
  lemma {:induction false} NeighbourEntries(t: Tree, p: Path)
    requires t.Fork?
    ensures var e := Entries(Zip(p, t)); var i := |Before(p)| + |Entries(t.left)|;
            && i < |e| && e[i].id == t.id
            && Near(R, Outward(R, t.right, p)) == (if i + 1 < |e| then e[i + 1].id else 0)
            && Near(L, Outward(L, t.left, p)) == (if i > 0 then e[i - 1].id else 0)
  {
    NextEntry(t, p);
    var e, i := Entries(Zip(p, t)), |Before(p)| + |Entries(t.left)|;
    assert i + 1 < |e| ==> e[i + 1..][0] == e[i + 1];
    assert i > 0 ==> e[..i][i - 1] == e[i - 1];
  }
}

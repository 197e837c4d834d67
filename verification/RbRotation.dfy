/** Rotations: on values, and what their pointer updates do to the memory that holds the tree. */
module RbRotation {
  import opened RbTrees
  import opened RbMemory

  // ---- rotation ----

  /** The child on side s brought up: `rotate_right` for L, `rotate_left` for R. */
  function Rotated(s: Side, t: Tree): Tree
    requires t.Fork? && Child(t, s).Fork?
  {
    var x := Child(t, s);
    Join(s, Child(x, s), x.id, x.color, x.key, Join(s, Child(x, Other(s)), t.id, t.color, t.key, Child(t, Other(s))))
  }

  lemma {:induction false} RotatedEntries(s: Side, t: Tree)
    requires t.Fork? && Child(t, s).Fork?
    ensures Entries(Rotated(s, t)) == Entries(t)
  {
    var x := Child(t, s);
    var a, b, c := Entries(Child(x, s)), Entries(Child(x, Other(s))), Entries(Child(t, Other(s)));
    var ex, ey := [Entry(x.id, x.key)], [Entry(t.id, t.key)];
    if s == L {
      assert (a + ex + b) + ey + c == a + ex + (b + ey + c);
    } else {
      assert c + ey + (b + ex + a) == (c + ey + b) + ex + a;
    }
  }

  /** What the pointer updates of a rotation amount to: y goes down, its child x comes up, x's inner child changes
      hands and the parent (0 above the root) now points at x. */
  ghost predicate PointersRotated(m: Memory, m': Memory, s: Side, y: nat, x: nat, inner: nat, parent: nat, parentSide: Side) {
    && y in m && x in m && (inner != 0 ==> inner in m) && (parent != 0 ==> parent in m)
    && m'.Keys == m.Keys
    && m'[y] == Set(m[y], s, inner).(parent := x)
    && m'[x] == Set(m[x], Other(s), y).(parent := parent)
    && (inner != 0 ==> m'[inner] == m[inner].(parent := y))
    && (parent != 0 ==> m'[parent] == Set(m[parent], parentSide, x))
    && (forall i | i in m && i != y && i != x && i != inner && i != parent :: m'[i] == m[i])
  }

  /** The pointers once the inner subtree has changed sides and y hangs below x. */
  ghost function Swung(m: Memory, s: Side, y: nat, x: nat, inner: nat): Memory
    requires y in m && x in m && (inner != 0 ==> inner in m)
  {
    var m1 := m[y := Set(m[y], s, inner).(parent := x)][x := Set(m[x], Other(s), y)];
    if inner == 0 then m1 else m1[inner := m[inner].(parent := y)]
  }

  /** With x in the place of y, that is a rotation. */
  lemma {:induction false} SwungPointers(m: Memory, m': Memory, s: Side, y: nat, x: nat, inner: nat, parent: nat, side: Side)
    requires y in m && x in m && (inner != 0 ==> inner in m) && (parent != 0 ==> parent in m)
    requires y != x && inner != y && inner != x && parent != y && parent != x && (parent != 0 ==> parent != inner)
    requires var m1 := Swung(m, s, y, x, inner);
             var m2 := m1[x := m1[x].(parent := parent)];
             m' == if parent == 0 then m2 else m2[parent := Set(m[parent], side, x)]
    ensures PointersRotated(m, m', s, y, x, inner, parent, side)
  {
  }

  ghost predicate RotatedMemory(m: Memory, s: Side, t: Tree, p: Path, m': Memory)
    requires t.Fork? && Child(t, s).Fork?
  {
    PointersRotated(m, m', s, t.id, Child(t, s).id, Root(Child(Child(t, s), Other(s))), Parent(p), if p.Step? then p.side else L)
  }

  /** A subtree whose root alone changed, and only in its parent. */
  lemma {:induction false} RehungLinks(m: Memory, m': Memory, b: Tree, parent: nat, parent': nat)
    requires Links(m, b, parent) && Distinct(b)
    requires b.Fork? ==> b.id in m && b.id in m' && m'[b.id] == m[b.id].(parent := parent')
    requires forall i | i in Ids(b) && i in m && i != 0 && !(b.Fork? && i == b.id) :: i in m' && m'[i] == m[i]
    ensures Links(m', b, parent')
  {
    if b.Fork? {
      LinksFrame(m, m', b.left, b.id);
      LinksFrame(m, m', b.right, b.id);
    }
  }

  lemma {:induction false} RotatedLinks(m: Memory, root: nat, s: Side, t: Tree, p: Path, m': Memory)
    requires t.Fork? && Child(t, s).Fork? && At(m, root, t, p) && RotatedMemory(m, s, t, p, m')
    ensures Links(m', Rotated(s, t), Parent(p))
  {
    LinksAt(m, t, Parent(p), s);
    LinksAt(m, Child(t, s), t.id, s);
    RotatedSubtrees(m, root, s, t, p, m');
  }

  /** The three subtrees hang where they should. */
  lemma {:induction false} RotatedSubtrees(m: Memory, root: nat, s: Side, t: Tree, p: Path, m': Memory)
    requires t.Fork? && Child(t, s).Fork? && At(m, root, t, p) && RotatedMemory(m, s, t, p, m')
    ensures Links(m', Child(Child(t, s), s), Child(t, s).id) && Links(m', Child(Child(t, s), Other(s)), t.id)
    ensures Links(m', Child(t, Other(s)), t.id)
  {
    var x := Child(t, s);
    var a, b, c := Child(x, s), Child(x, Other(s)), Child(t, Other(s));
    LinksAt(m, t, Parent(p), s);
    LinksAt(m, x, t.id, s);
    DistinctAt(t, s);
    DistinctAt(x, s);
    RootInIds(b);
    LinksFrame(m, m', a, x.id);
    LinksFrame(m, m', c, t.id);
    RehungLinks(m, m', b, x.id, t.id);
  }

  lemma {:induction false} RotatedDistinct(s: Side, t: Tree)
    requires t.Fork? && Child(t, s).Fork? && Distinct(t)
    ensures Distinct(Rotated(s, t)) && Ids(Rotated(s, t)) == Ids(t)
  {
  }

  lemma {:induction false} RotatedAt(m: Memory, root: nat, s: Side, t: Tree, p: Path, m': Memory, root': nat)
    requires t.Fork? && Child(t, s).Fork? && At(m, root, t, p) && RotatedMemory(m, s, t, p, m')
    requires root' == if p.Top? then Child(t, s).id else root
    ensures At(m', root', Rotated(s, t), p)
  {
    RotatedLinks(m, root, s, t, p, m');
    RotatedDistinct(s, t);
    if p.Step? {
      LinksFrame(m, m', p.sibling, p.id);
      PathFrame(m, m', p.up, p.id, root);
    }
  }

  /** A focus with a child on side s meets what the pointer updates rely on. */
  lemma {:induction false} RotationReady(m: Memory, root: nat, s: Side, t: Tree, p: Path)
    requires t.Fork? && Child(t, s).Fork? && At(m, root, t, p)
    ensures var y, x, inner, parent := t.id, Child(t, s).id, Root(Child(Child(t, s), Other(s))), Parent(p);
            && y in m && x == Get(m[y], s) && x in m && x != y && parent == m[y].parent
            && inner == Get(m[x], Other(s)) && inner != y && inner != x && (inner != 0 ==> inner in m)
            && parent != y && parent != x
            && (parent != 0 ==> && parent != inner && parent in m && Get(m[parent], p.side) == y
                                && Get(m[parent], Other(p.side)) != y)
  {
    var x := Child(t, s);
    var b := Child(x, Other(s));
    LinksAt(m, t, Parent(p), s);
    LinksAt(m, x, t.id, s);
    DistinctAt(t, s);
    DistinctAt(x, s);
    RootInIds(b);
    IdsLinked(m, b, x.id);
    if p.Step? {
      IdsLinked(m, p.sibling, p.id);
      RootInIds(p.sibling);
    }
  }
}

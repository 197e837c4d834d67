/** The nodes of AK/RedBlackTree.h in memory: records with child and parent pointers, addressed by naturals with
    0 for null, and when they are the pointer form of a tree value. */
module RbMemory {
  import opened RbTrees

  datatype Node = Node(left: nat, right: nat, parent: nat, color: Color, key: int)

  type Memory = map<nat, Node>

  function Get(n: Node, s: Side): nat {
    if s == L then n.left else n.right
  }

  function Set(n: Node, s: Side, child: nat): Node {
    if s == L then n.(left := child) else n.(right := child)
  }

  function Make(s: Side, child: nat, other: nat, parent: nat, color: Color, key: int): Node {
    if s == L then Node(child, other, parent, color, key) else Node(other, child, parent, color, key)
  }

  /** `t` is laid out in memory below `parent`. */
  ghost predicate Links(m: Memory, t: Tree, parent: nat) {
    match t
    case Leaf => true
    case Fork(l, id, c, k, r) =>
      && id != 0 && id in m && m[id] == Node(Root(l), Root(r), parent, c, k)
      && Links(m, l, id) && Links(m, r, id)
  }

  /** The path is laid out above `child`, up to the root pointer. */
  ghost predicate PathLinks(m: Memory, p: Path, child: nat, root: nat) {
    match p
    case Top => root == child
    case Step(s, id, c, k, sibling, up) =>
      && id != 0 && id in m && m[id] == Make(s, child, Root(sibling), Parent(up), c, k)
      && Links(m, sibling, id) && PathLinks(m, up, id, root)
  }

  /** Memory and root pointer hold the tree that `t` and `p` make up, with the focus on `t`. */
  ghost predicate At(m: Memory, root: nat, t: Tree, p: Path) {
    && Links(m, t, Parent(p)) && PathLinks(m, p, Root(t), root)
    && Distinct(t) && PathDistinct(p) && Ids(t) !! PathIds(p)
  }

  lemma {:induction false} LinksFrame(m: Memory, m': Memory, t: Tree, parent: nat)
    requires Links(m, t, parent)
    requires forall i | i in Ids(t) && i in m && i != 0 :: i in m' && m'[i] == m[i]
    ensures Links(m', t, parent)
  {
    if t.Fork? {
      LinksFrame(m, m', t.left, t.id);
      LinksFrame(m, m', t.right, t.id);
    }
  }

  lemma {:induction false} PathFrame(m: Memory, m': Memory, p: Path, child: nat, root: nat)
    requires PathLinks(m, p, child, root)
    requires forall i | i in PathIds(p) && i in m && i != 0 :: i in m' && m'[i] == m[i]
    ensures PathLinks(m', p, child, root)
  {
    if p.Step? {
      LinksFrame(m, m', p.sibling, p.id);
      PathFrame(m, m', p.up, p.id, root);
    }
  }

  lemma {:induction false} IdsLinked(m: Memory, t: Tree, parent: nat)
    requires Links(m, t, parent)
    ensures forall i | i in Ids(t) :: i != 0 && i in m
  {
    if t.Fork? {
      IdsLinked(m, t.left, t.id);
      IdsLinked(m, t.right, t.id);
    }
  }

  lemma {:induction false} PathIdsLinked(m: Memory, p: Path, child: nat, root: nat)
    requires PathLinks(m, p, child, root)
    ensures forall i | i in PathIds(p) :: i != 0 && i in m
  {
    if p.Step? {
      IdsLinked(m, p.sibling, p.id);
      PathIdsLinked(m, p.up, p.id, root);
    }
  }

  /** Moving the focus to a child and back up. */
  lemma {:induction false} Down(m: Memory, root: nat, s: Side, t: Tree, id: nat, c: Color, k: int, sibling: Tree, p: Path)
    ensures At(m, root, Join(s, t, id, c, k, sibling), p) <==> At(m, root, t, Step(s, id, c, k, sibling, p))
  {
  }

  lemma {:induction false} JoinChild(t: Tree, s: Side)
    requires t.Fork?
    ensures t == Join(s, Child(t, s), t.id, t.color, t.key, Child(t, Other(s)))
  {
  }

  /** One level of the layout, seen from a side. */
  lemma {:induction false} LinksAt(m: Memory, t: Tree, parent: nat, s: Side)
    requires t.Fork? && Links(m, t, parent)
    ensures t.id != 0 && t.id in m
    ensures m[t.id] == Make(s, Root(Child(t, s)), Root(Child(t, Other(s))), parent, t.color, t.key)
    ensures Links(m, Child(t, s), t.id) && Links(m, Child(t, Other(s)), t.id)
  {
  }

  lemma {:induction false} DistinctAt(t: Tree, s: Side)
    requires t.Fork? && Distinct(t)
    ensures Distinct(Child(t, s)) && Distinct(Child(t, Other(s))) && Ids(Child(t, s)) !! Ids(Child(t, Other(s)))
    ensures t.id !in Ids(Child(t, s)) && t.id !in Ids(Child(t, Other(s)))
    ensures Ids(t) == Ids(Child(t, s)) + {t.id} + Ids(Child(t, Other(s)))
  {
  }

  lemma {:induction false} RootInIds(t: Tree)
    ensures t.Fork? ==> t.id in Ids(t)
  {
  }

  /** The step above the focus pointed at another child. */
  lemma {:induction false} Repoint(m: Memory, p: Path, child: nat, child': nat, root: nat)
    requires p.Step? && PathLinks(m, p, child, root) && PathDistinct(p)
    ensures p.id in m && PathLinks(m[p.id := Set(m[p.id], p.side, child')], p, child', root)
  {
    var m' := m[p.id := Set(m[p.id], p.side, child')];
    LinksFrame(m, m', p.sibling, p.id);
    PathFrame(m, m', p.up, p.id, root);
  }

  /** Painting the node in focus. */
  lemma {:induction false} PaintFocus(m: Memory, root: nat, t: Tree, p: Path, c: Color)
    requires t.Fork? && At(m, root, t, p)
    ensures t.id in m && At(m[t.id := m[t.id].(color := c)], root, t.(color := c), p)
  {
    var m' := m[t.id := m[t.id].(color := c)];
    LinksFrame(m, m', t.left, t.id);
    LinksFrame(m, m', t.right, t.id);
    PathFrame(m, m', p, t.id, root);
  }

  /** What the pointers around a focus read. */
  lemma {:induction false} FocusPointers(m: Memory, root: nat, t: Tree, p: Path)
    requires At(m, root, t, p)
    ensures t.Fork? ==> t.id != 0 && t.id in m && m[t.id].parent == Parent(p) && m[t.id].color == t.color && m[t.id].key == t.key
    ensures p.Step? ==>
              && p.id != 0 && p.id in m && m[p.id].color == p.color && m[p.id].parent == Parent(p.up)
              && Get(m[p.id], p.side) == Root(t) && Get(m[p.id], Other(p.side)) == Root(p.sibling)
              && (p.sibling.Fork? ==> p.sibling.id != 0 && p.sibling.id in m && m[p.sibling.id].color == p.sibling.color)
              && (p.sibling.Fork? || t.Fork? ==> Root(t) != Root(p.sibling))
  {
    RootInIds(t);
    if p.Step? {
      RootInIds(p.sibling);
    }
  }

  /** One step up. */
  lemma {:induction false} UpOne(m: Memory, root: nat, t: Tree, p: Path)
    requires p.Step? && At(m, root, t, p)
    ensures At(m, root, Join(p.side, t, p.id, p.color, p.key, p.sibling), p.up)
  {
    Down(m, root, p.side, t, p.id, p.color, p.key, p.sibling, p.up);
  }

  /** All the way up. */
  lemma {:induction false} ZipAt(m: Memory, root: nat, t: Tree, p: Path)
    requires At(m, root, t, p)
    ensures At(m, root, Zip(p, t), Top)
    decreases p
  {
    if p.Step? {
      UpOne(m, root, t, p);
      ZipAt(m, root, Join(p.side, t, p.id, p.color, p.key, p.sibling), p.up);
    }
  }

  /** A black top of the path is a black root in memory. */
  lemma {:induction false} BlackRoot(m: Memory, root: nat, p: Path, child: nat)
    requires p.Step? && PathLinks(m, p, child, root) && BlackTop(p)
    ensures root in m && m[root].color == Black
  {
    if p.up.Step? {
      BlackRoot(m, root, p.up, p.id);
    }
  }

  /** The first node in order has no left child. */
  lemma {:induction false} FirstHasNoLeft(m: Memory, t: Tree, parent: nat)
    requires t.Fork? && Links(m, t, parent)
    ensures var id := Entries(t)[0].id; id in m && m[id].left == 0
    decreases t
  {
    if t.left.Fork? {
      FirstHasNoLeft(m, t.left, t.id);
    }
  }

  function Length(p: Path): nat {
    if p.Top? then 0 else 1 + Length(p.up)
  }

  lemma {:induction false} LastKey(m: Memory, root: nat, p: Path)
    requires p.Step? && At(m, root, Leaf, p)
    ensures p.id in m && m[p.id].key == p.key
  {
  }

  /** A parent without a parent is the root. */
  lemma {:induction false} ShortPath(m: Memory, root: nat, t: Tree, p: Path)
    requires p.Step? && At(m, root, t, p) && p.id in m && m[p.id].parent == 0
    ensures p.up.Top?
  {
    if p.up.Step? {
      assert PathLinks(m, p.up, p.id, root);
    }
  }

  lemma {:induction false} WholeNotEmpty(p: Path, t: Tree)
    requires p.Step? || t.Fork?
    ensures Zip(p, t).Fork? && Entries(Zip(p, t)) != []
    decreases p
  {
    if p.Step? {
      WholeNotEmpty(p.up, Join(p.side, t, p.id, p.color, p.key, p.sibling));
    }
  }

  /** The path to the sibling of a focus. */
  function Across(x: Tree, p: Path): Path
    requires p.Step?
  {
    Step(Other(p.side), p.id, p.color, p.key, x, p.up)
  }

  /** Moving the focus to the sibling; doing it twice leads back. */
  lemma {:induction false} MoveAcross(m: Memory, root: nat, x: Tree, p: Path)
    requires p.Step? && At(m, root, x, p)
    ensures At(m, root, p.sibling, Across(x, p))
  {
  }

  /** The focus is the root exactly at the top of the path. */
  lemma {:induction false} RootFocus(m: Memory, root: nat, t: Tree, p: Path)
    requires At(m, root, t, p)
    ensures Root(t) == root <==> p.Top?
  {
    RootInIds(t);
    if p.Step? {
      RootOnPath(m, root, p, Root(t));
      PathIdsLinked(m, p, Root(t), root);
    }
  }

  lemma {:induction false} RootOnPath(m: Memory, root: nat, p: Path, child: nat)
    requires p.Step? && PathLinks(m, p, child, root)
    ensures root in PathIds(p)
  {
    if p.up.Step? {
      RootOnPath(m, root, p.up, p.id);
    }
  }
}

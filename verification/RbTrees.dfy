/** Red-black trees as values: the shapes behind the pointer structure of AK/RedBlackTree.h, taken apart at a
    focus (a subtree and the path above it). Mirror images share one definition through a side. */
module RbTrees {

  datatype Color = Red | Black
  datatype Side = L | R
  datatype Entry = Entry(id: nat, key: int)

  /** `id` stands for the address of the node. */
  datatype Tree = Leaf | Fork(left: Tree, id: nat, color: Color, key: int, right: Tree)

  /** The path from a focus up to the root: on which side of which node the focus hangs. */
  datatype Path = Top | Step(side: Side, id: nat, color: Color, key: int, sibling: Tree, up: Path)

  function Other(s: Side): Side {
    if s == L then R else L
  }

  function Root(t: Tree): nat {
    if t.Leaf? then 0 else t.id
  }

  function Parent(p: Path): nat {
    if p.Top? then 0 else p.id
  }

  /** The tree with `t` on side s of a node and `sibling` on the other. */
  function Join(s: Side, t: Tree, id: nat, color: Color, key: int, sibling: Tree): Tree {
    if s == L then Fork(t, id, color, key, sibling) else Fork(sibling, id, color, key, t)
  }

  function Child(t: Tree, s: Side): Tree
    requires t.Fork?
  {
    if s == L then t.left else t.right
  }

  function Zip(p: Path, t: Tree): Tree {
    match p
    case Top => t
    case Step(s, id, c, k, sibling, up) => Zip(up, Join(s, t, id, c, k, sibling))
  }

  // ---- contents ----

  function Entries(t: Tree): seq<Entry> {
    match t
    case Leaf => []
    case Fork(l, id, _, key, r) => Entries(l) + [Entry(id, key)] + Entries(r)
  }

  /** In-order entries before and after the focus. */
  function Before(p: Path): seq<Entry> {
    match p
    case Top => []
    case Step(s, id, _, key, sibling, up) =>
      if s == L then Before(up) else Before(up) + (Entries(sibling) + [Entry(id, key)])
  }

  function After(p: Path): seq<Entry> {
    match p
    case Top => []
    case Step(s, id, _, key, sibling, up) =>
      if s == R then After(up) else ([Entry(id, key)] + Entries(sibling)) + After(up)
  }

  lemma {:induction false} ZipEntries(p: Path, t: Tree)
    ensures Entries(Zip(p, t)) == Before(p) + Entries(t) + After(p)
  {
    match p
    case Top =>
    case Step(s, id, c, k, sibling, up) =>
      ZipEntries(up, Join(s, t, id, c, k, sibling));
      Regroup(Before(up), Entries(t), [Entry(id, k)], Entries(sibling), After(up));
      Regroup(Before(up), Entries(sibling), [Entry(id, k)], Entries(t), After(up));
  }

  lemma {:induction false} Regroup(a: seq<Entry>, x: seq<Entry>, e: seq<Entry>, y: seq<Entry>, b: seq<Entry>)
    ensures a + (x + e + y) + b == a + x + ((e + y) + b) == (a + (x + e)) + y + b
  {
  }

  // ---- addresses ----

  function Ids(t: Tree): set<nat> {
    match t
    case Leaf => {}
    case Fork(l, id, _, _, r) => Ids(l) + {id} + Ids(r)
  }

  function PathIds(p: Path): set<nat> {
    match p
    case Top => {}
    case Step(_, id, _, _, sibling, up) => {id} + Ids(sibling) + PathIds(up)
  }

  ghost predicate Distinct(t: Tree) {
    match t
    case Leaf => true
    case Fork(l, id, _, _, r) =>
      Distinct(l) && Distinct(r) && id !in Ids(l) && id !in Ids(r) && Ids(l) !! Ids(r)
  }

  ghost predicate PathDistinct(p: Path) {
    match p
    case Top => true
    case Step(_, id, _, _, sibling, up) =>
      && Distinct(sibling) && PathDistinct(up)
      && id !in Ids(sibling) && id !in PathIds(up) && Ids(sibling) !! PathIds(up)
  }

  // ---- the red-black conditions ----

  predicate IsRed(t: Tree) {
    t.Fork? && t.color == Red
  }

  function Weight(c: Color): nat {
    if c == Black then 1 else 0
  }

  function BlackHeight(t: Tree): nat {
    match t
    case Leaf => 0
    case Fork(l, _, c, _, _) => BlackHeight(l) + Weight(c)
  }

  /** No red node has a red child, and every path down holds the same number of black nodes. */
  ghost predicate Rb(t: Tree) {
    match t
    case Leaf => true
    case Fork(l, _, c, _, r) =>
      Rb(l) && Rb(r) && BlackHeight(l) == BlackHeight(r) && (c == Red ==> !IsRed(l) && !IsRed(r))
  }

  predicate TopRed(p: Path) {
    p.Step? && p.color == Red
  }

  /** The same conditions for everything around a focus of black height h, but for the colour of the focus. */
  ghost predicate RbPath(p: Path, h: nat) {
    match p
    case Top => true
    case Step(_, _, c, _, sibling, up) =>
      && Rb(sibling) && BlackHeight(sibling) == h
      && (c == Red ==> !IsRed(sibling) && !TopRed(up))
      && RbPath(up, h + Weight(c))
  }

  /** The root of the whole tree, when it lies on the path, is black. */
  ghost predicate BlackTop(p: Path) {
    match p
    case Top => true
    case Step(_, _, c, _, _, up) => if up.Top? then c == Black else BlackTop(up)
  }

  lemma {:induction false} ZipRb(p: Path, t: Tree)
    requires Rb(t) && RbPath(p, BlackHeight(t)) && !(IsRed(t) && TopRed(p))
    ensures Rb(Zip(p, t))
  {
    match p
    case Top =>
    case Step(s, id, c, k, sibling, up) =>
      ZipRb(up, Join(s, t, id, c, k, sibling));
  }

  lemma {:induction false} ZipBlackRoot(p: Path, t: Tree)
    requires BlackTop(p) && (p.Top? ==> !IsRed(t))
    ensures !IsRed(Zip(p, t))
  {
    match p
    case Top =>
    case Step(s, id, c, k, sibling, up) =>
      ZipBlackRoot(up, Join(s, t, id, c, k, sibling));
  }

  /** A focus inside a red-black tree with a black root. */
  ghost predicate Within(t: Tree, p: Path) {
    && Rb(t) && RbPath(p, BlackHeight(t)) && BlackTop(p)
    && !(IsRed(t) && TopRed(p)) && (p.Top? ==> !IsRed(t))
  }

  lemma {:induction false} WithinDown(t: Tree, p: Path, s: Side)
    requires t.Fork? && Within(t, p)
    ensures Within(Child(t, s), Step(s, t.id, t.color, t.key, Child(t, Other(s)), p))
    ensures Zip(Step(s, t.id, t.color, t.key, Child(t, Other(s)), p), Child(t, s)) == Zip(p, t)
  {
  }

  // ---- keys ----

  ghost predicate Sorted(e: seq<Entry>) {
    forall i, j | 0 <= i < j < |e| :: e[i].key <= e[j].key
  }

  /** A tree as the class keeps it: red-black with a black root, keys in non-strict order. */
  ghost predicate ValidTree(t: Tree) {
    Rb(t) && !IsRed(t) && Distinct(t) && Sorted(Entries(t))
  }
}

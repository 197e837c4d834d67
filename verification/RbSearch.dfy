/** Walking and searching in AK/RedBlackTree.h: neighbours in order, and the nodes closest to a key. Mirror images
    share one definition through a side: R looks towards later entries, L towards earlier ones. */
module RbSearch {
  import opened RbBalance
  import opened RbTrees
  import opened RbMemory

  // ---- neighbours ----

  /** The address of the entry nearest to the focus, among those on side s of it. */
  function Near(s: Side, e: seq<Entry>): nat {
    if e == [] then 0 else if s == R then e[0].id else e[|e| - 1].id
  }

  /** Entries on side s of the focus outside its subtree. */
  function Beyond(s: Side, p: Path): seq<Entry> {
    if s == R then After(p) else Before(p)
  }

  /** A subtree on side s of some position, followed on the same side by what lies beyond it. */
  function Outward(s: Side, t: Tree, p: Path): seq<Entry> {
    if s == R then Entries(t) + After(p) else Before(p) + Entries(t)
  }

  /** Going down towards the position changes nothing about what lies on side s of it. */
  lemma {:induction false} OutwardDown(s: Side, t: Tree, p: Path)
    requires t.Fork?
    ensures Outward(s, t, p)
         == Outward(s, Child(t, Other(s)), Step(Other(s), t.id, t.color, t.key, Child(t, s), p))
  {
    var e := [Entry(t.id, t.key)];
    assert Entries(t) == Entries(t.left) + e + Entries(t.right);
    assert (Entries(t.left) + e + Entries(t.right)) + After(p) == Entries(t.left) + ((e + Entries(t.right)) + After(p));
    assert Before(p) + (Entries(t.left) + e + Entries(t.right)) == (Before(p) + (Entries(t.left) + e)) + Entries(t.right);
  }

  /** A node without a child towards the position is the nearest. */
  lemma {:induction false} OutwardNear(s: Side, t: Tree, p: Path)
    requires t.Fork? && Child(t, Other(s)).Leaf?
    ensures Near(s, Outward(s, t, p)) == t.id
  {
    assert Entries(Leaf) == [];
  }

  /** Climbing out of side s changes nothing about what lies beyond. */
  lemma {:induction false} BeyondUp(s: Side, p: Path)
    requires p.Step? && p.side == s
    ensures Beyond(s, p.up) == Beyond(s, p)
  {
  }

  lemma {:induction false} BeyondNear(s: Side, p: Path)
    requires p.Top? || p.side == Other(s)
    ensures Near(s, Beyond(s, p)) == Parent(p)
  {
  }

  // ---- searching ----

  /** Key `a` does not lie past `key`, going from side s: at most `key` from the left, at least from the right. */
  predicate Upto(s: Side, a: int, key: int) {
    if s == L then a <= key else key <= a
  }

  /** The descent of a search: everything outside the focus has been ruled out by the order. */
  ghost predicate Searching(t: Tree, p: Path, key: int, whole: Tree) {
    && Zip(p, t) == whole && Sorted(Entries(whole))
    && (forall e | e in Before(p) :: e.key < key) && (forall e | e in After(p) :: key < e.key)
  }

  lemma {:induction false} SearchDown(t: Tree, p: Path, key: int, whole: Tree, s: Side)
    requires t.Fork? && Searching(t, p, key, whole) && key != t.key && s == if key < t.key then L else R
    ensures Searching(Child(t, s), Step(s, t.id, t.color, t.key, Child(t, Other(s)), p), key, whole)
  {
    ZipEntries(p, t);
    var x := Entry(t.id, t.key);
    var a, b, c, d := Before(p), Entries(t.left), Entries(t.right), After(p);
    assert Entries(whole) == a + (b + [x] + c) + d;
    SortedAround(a, b, x, c, d);
  }

  lemma {:induction false} SortedAround(a: seq<Entry>, b: seq<Entry>, x: Entry, c: seq<Entry>, d: seq<Entry>)
    requires Sorted(a + (b + [x] + c) + d)
    ensures (forall e | e in b :: e.key <= x.key) && (forall e | e in c :: x.key <= e.key)
  {
    var w := a + (b + [x] + c) + d;
    var i := |a| + |b|;
    assert w[i] == x;
    forall e | e in b ensures e.key <= x.key {
      var j :| 0 <= j < |b| && b[j] == e;
      assert w[|a| + j] == e;
    }
    forall e | e in c ensures x.key <= e.key {
      var j :| 0 <= j < |c| && c[j] == e;
      assert w[i + 1 + j] == e;
    }
  }

  /** `node` is the address of an entry with exactly this key, or null when there is none. */
  ghost predicate Found(e: seq<Entry>, key: int, node: nat) {
    if node == 0 then forall x | x in e :: x.key != key else Entry(node, key) in e
  }

  /** `node` holds the closest key that does not lie past `key`, or is null when every key lies past it. */
  ghost predicate Closest(s: Side, e: seq<Entry>, key: int, node: nat) {
    if node == 0 then forall x | x in e :: !Upto(s, x.key, key)
    else exists x :: x in e && x.id == node && Upto(s, x.key, key) && forall y | y in e :: Upto(s, y.key, key) ==> Upto(s, y.key, x.key)
  }

  /** i entries are below the key and all others above it. */
  ghost predicate Gap(e: seq<Entry>, key: int, i: nat) {
    && i <= |e|
    && (forall j | 0 <= j < i :: e[j].key < key)
    && (forall j | i <= j < |e| :: key < e[j].key)
  }

  /** The key is not there, and `node` is the entry next to where it would be: the last one before the gap (s = L), the
      first one after it (s = R), or null when there is none. */
  ghost predicate NextToGap(s: Side, e: seq<Entry>, key: int, node: nat) {
    exists i: nat :: Gap(e, key, i) && node == BesideGap(s, e, i)
  }

  function BesideGap(s: Side, e: seq<Entry>, i: nat): nat
    requires i <= |e|
  {
    if s == L then (if i == 0 then 0 else e[i - 1].id) else (if i == |e| then 0 else e[i].id)
  }

  /** A node with the key, outside of whose subtree no entry has it. */
  ghost predicate HitAt(t: Tree, p: Path, whole: Tree, key: int, node: nat) {
    && t.Fork? && t.id == node && t.key == key && Zip(p, t) == whole
    && (forall e | e in Before(p) :: e.key != key) && (forall e | e in After(p) :: e.key != key)
  }

  /** Of the nodes with the key, `node` is the one that all others are below. */
  ghost predicate Topmost(whole: Tree, key: int, node: nat) {
    exists t, p :: HitAt(t, p, whole, key, node)
  }

  /** The search has met the key. */
  lemma {:induction false} SearchHit(t: Tree, p: Path, whole: Tree, s: Side)
    requires t.Fork? && Searching(t, p, t.key, whole)
    ensures Entry(t.id, t.key) in Entries(whole)
    ensures Closest(s, Entries(whole), t.key, t.id) || t.id == 0
    ensures !Found(Entries(whole), t.key, 0) && Topmost(whole, t.key, t.id)
  {
    assert HitAt(t, p, whole, t.key, t.id);
    ZipEntries(p, t);
    var x := Entry(t.id, t.key);
    assert x in Entries(t);
    assert x in Entries(whole) && Upto(s, x.key, t.key);
  }

  /** The search has run out: the candidate is the nearest entry on side s of the gap. */
  lemma {:induction false} SearchMiss(p: Path, key: int, whole: Tree, s: Side)
    requires Searching(Leaf, p, key, whole) && (forall e | e in Entries(whole) :: e.id != 0)
    ensures Found(Entries(whole), key, 0)
    ensures Closest(s, Entries(whole), key, Near(s, Beyond(s, p)))
    ensures NextToGap(s, Entries(whole), key, Near(s, Beyond(s, p)))
  {
    ZipEntries(p, Leaf);
    var a, b := Before(p), After(p);
    assert Entries(whole) == a + b by {
      assert Entries(Leaf) == [];
      assert a + [] + b == a + b;
    }
    AroundGap(s, a, b, key);
    if s == L {
      LastBelow(a, b, key);
    } else {
      FirstAbove(a, b, key);
    }
  }

  lemma {:induction false} AroundGap(s: Side, a: seq<Entry>, b: seq<Entry>, key: int)
    requires (forall e | e in a :: e.key < key) && (forall e | e in b :: key < e.key)
    ensures NextToGap(s, a + b, key, Near(s, if s == L then a else b))
  {
    var e := a + b;
    forall j | 0 <= j < |a| ensures e[j].key < key {
      assert e[j] == a[j];
    }
    forall j | |a| <= j < |e| ensures key < e[j].key {
      assert e[j] == b[j - |a|];
    }
    assert Gap(e, key, |a|) && BesideGap(s, e, |a|) == Near(s, if s == L then a else b);
  }

  lemma {:induction false} LastBelow(a: seq<Entry>, b: seq<Entry>, key: int)
    requires Sorted(a + b) && (forall e | e in a :: e.key < key) && (forall e | e in b :: key < e.key)
    requires forall e | e in a + b :: e.id != 0
    ensures Closest(L, a + b, key, Near(L, a))
  {
    if a != [] {
      var x := a[|a| - 1];
      assert x == (a + b)[|a| - 1] && x in a + b;
      forall y | y in a + b ensures Upto(L, y.key, key) ==> Upto(L, y.key, x.key) {
        var j :| 0 <= j < |a + b| && (a + b)[j] == y;
        if j >= |a| {
          assert y == b[j - |a|];
        }
      }
    }
  }

  lemma {:induction false} FirstAbove(a: seq<Entry>, b: seq<Entry>, key: int)
    requires Sorted(a + b) && (forall e | e in a :: e.key < key) && (forall e | e in b :: key < e.key)
    requires forall e | e in a + b :: e.id != 0
    ensures Closest(R, a + b, key, Near(R, b))
  {
    if b != [] {
      var x := b[0];
      assert x == (a + b)[|a|] && x in a + b;
      forall y | y in a + b ensures Upto(R, y.key, key) ==> Upto(R, y.key, x.key) {
        var j :| 0 <= j < |a + b| && (a + b)[j] == y;
        if j < |a| {
          assert y == a[j];
        }
      }
    }
  }

  // ---- in memory ----

  /** One step down on side s. */
  lemma {:induction false} StepDown(m: Memory, root: nat, t: Tree, p: Path, s: Side)
    requires t.Fork? && At(m, root, t, p)
    ensures t.id in m && Get(m[t.id], s) == Root(Child(t, s))
    ensures At(m, root, Child(t, s), Step(s, t.id, t.color, t.key, Child(t, Other(s)), p))
  {
    LinksAt(m, t, Parent(p), s);
    JoinChild(t, s);
    Down(m, root, s, Child(t, s), t.id, t.color, t.key, Child(t, Other(s)), p);
  }

  /** A search of a tree in memory, `steps` nodes down. */
  ghost predicate Looking(m: Memory, root: nat, t: Tree, p: Path, key: int, whole: Tree, steps: nat) {
    && At(m, root, t, p) && Searching(t, p, key, whole) && steps == Depth(p)
    && (t.Fork? ==> t.id != 0 && t.id in m && m[t.id].key == t.key)
  }

  lemma {:induction false} LookDown(m: Memory, root: nat, t: Tree, p: Path, key: int, whole: Tree, steps: nat, s: Side, steps': nat)
    returns (p': Path)
    requires Looking(m, root, t, p, key, whole, steps) && t.Fork? && key != t.key
    requires s == (if key < t.key then L else R) && steps' == steps + 1
    ensures p' == Step(s, t.id, t.color, t.key, Child(t, Other(s)), p)
    ensures Get(m[t.id], s) == Root(Child(t, s)) && Looking(m, root, Child(t, s), p', key, whole, steps')
  {
    StepDown(m, root, t, p, s);
    SearchDown(t, p, key, whole, s);
    p' := Step(s, t.id, t.color, t.key, Child(t, Other(s)), p);
    FocusPointers(m, root, Child(t, s), p');
  }

  /** What the search ends with, at the key or at a gap. */
  lemma {:induction false} LookEnds(m: Memory, root: nat, t: Tree, p: Path, key: int, whole: Tree, steps: nat, s: Side, n: nat)
    requires Looking(m, root, t, p, key, whole, steps) && ValidTree(whole) && Links(m, whole, 0) && n == |Entries(whole)|
    requires t.Fork? ==> t.key == key
    ensures Logarithmic(steps, n)
    ensures Found(Entries(whole), key, Root(t)) && (t.Fork? ==> Topmost(whole, key, t.id))
    ensures var node := if t.Fork? then t.id else Near(s, Beyond(s, p));
            && Closest(s, Entries(whole), key, node)
            && if Found(Entries(whole), key, 0) then NextToGap(s, Entries(whole), key, node) else Topmost(whole, key, node)
  {
    ShortDescent(t, p, whole, steps, n);
    EntriesNotNull(m, whole, 0);
    if t.Leaf? {
      SearchMiss(p, key, whole, s);
    } else {
      SearchHit(t, p, whole, s);
    }
  }

  lemma {:induction false} EntriesNotNull(m: Memory, t: Tree, parent: nat)
    requires Links(m, t, parent)
    ensures forall e | e in Entries(t) :: e.id != 0
    decreases t
  {
    if t.Fork? {
      EntriesNotNull(m, t.left, t.id);
      EntriesNotNull(m, t.right, t.id);
    }
  }
}

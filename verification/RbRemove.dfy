/** Removal from a red-black tree, on values: what each branch of `remove_fixups` in AK/RedBlackTree.h does to a
    focus that is one black node short, and that it keeps the state of the loop. */
module RbRemove {
  import opened RbTrees
  import opened RbMemory
  import opened RbRotation
  import opened RbInsert

  /** The fixup loop: the focus misses one black node; its own root may be red over red. */
  ghost predicate RemoveState(x: Tree, p: Path, entries: seq<Entry>) {
    && Rb(Blackened(x)) && RbPath(p, BlackHeight(x) + 1) && BlackTop(p)
    && Entries(Zip(p, x)) == entries
    && (p.Step? || x.Fork?)
  }

  /** One black node short, the sibling cannot be empty. */
  lemma {:induction false} SiblingExists(x: Tree, p: Path, entries: seq<Entry>)
    requires RemoveState(x, p, entries) && p.Step?
    ensures p.sibling.Fork? && Rb(p.sibling) && BlackHeight(p.sibling) == BlackHeight(x) + 1
    ensures RbPath(p.up, BlackHeight(x) + 1 + Weight(p.color)) && (p.color == Red ==> !IsRed(p.sibling) && !TopRed(p.up))
    ensures p.up.Step? ==> BlackTop(p.up)
    ensures p.up.Top? ==> p.color == Black
  {
  }

  /** One level of a red-black tree, seen from a side. */
  lemma {:induction false} RbAt(t: Tree, s: Side)
    requires t.Fork? && Rb(t)
    ensures Rb(Child(t, s)) && Rb(Child(t, Other(s))) && BlackHeight(Child(t, s)) == BlackHeight(Child(t, Other(s)))
    ensures BlackHeight(t) == BlackHeight(Child(t, s)) + Weight(t.color)
    ensures t.color == Red ==> !IsRed(Child(t, s)) && !IsRed(Child(t, Other(s)))
  {
  }

  lemma {:induction false} RbJoin(s: Side, t: Tree, id: nat, c: Color, k: int, sibling: Tree)
    requires Rb(t) && Rb(sibling) && BlackHeight(t) == BlackHeight(sibling) && (c == Red ==> !IsRed(t) && !IsRed(sibling))
    ensures Rb(Join(s, t, id, c, k, sibling)) && BlackHeight(Join(s, t, id, c, k, sibling)) == BlackHeight(t) + Weight(c)
  {
  }

  // ---- red sibling: rotate it above the parent ----

  function Lowered(p: Path): Path
    requires p.Step? && p.sibling.Fork?
  {
    var s, sib := p.side, p.sibling;
    Step(s, p.id, Red, p.key, Child(sib, s), Step(s, sib.id, Black, sib.key, Child(sib, Other(s)), p.up))
  }

  lemma {:induction false} LoweredState(x: Tree, p: Path, entries: seq<Entry>)
    requires RemoveState(x, p, entries) && p.Step? && IsRed(p.sibling)
    ensures RemoveState(x, Lowered(p), entries) && !IsRed(Lowered(p).sibling)
  {
    SiblingExists(x, p, entries);
    var s, sib := p.side, p.sibling;
    RbAt(sib, s);
    var whole := Join(s, x, p.id, p.color, p.key, sib);
    RotatedEntries(Other(s), whole);
    var whole' := Join(s, Join(s, x, p.id, Red, p.key, Child(sib, s)), sib.id, Black, sib.key, Child(sib, Other(s)));
    assert Entries(whole') == Entries(Rotated(Other(s), whole));
    SameEntries(p.up, whole, whole');
  }

  // ---- black sibling, no red nephew: the sibling turns red, the parent is one short ----

  function Pushed(x: Tree, p: Path): Tree
    requires p.Step? && p.sibling.Fork?
  {
    Join(p.side, x, p.id, p.color, p.key, p.sibling.(color := Red))
  }

  lemma {:induction false} PushedState(x: Tree, p: Path, entries: seq<Entry>)
    requires RemoveState(x, p, entries) && p.Step? && !IsRed(x) && p.sibling.Fork? && !IsRed(p.sibling)
    requires !IsRed(p.sibling.left) && !IsRed(p.sibling.right)
    ensures RemoveState(Pushed(x, p), p.up, entries)
  {
    SiblingExists(x, p, entries);
    SameEntries(p.up, Join(p.side, x, p.id, p.color, p.key, p.sibling), Pushed(x, p));
  }

  // ---- black sibling, near nephew red, far one black: rotate the sibling below the near nephew ----

  function Turned(p: Path): Path
    requires p.Step? && p.sibling.Fork? && Child(p.sibling, p.side).Fork?
  {
    var s, sib, near := p.side, p.sibling, Child(p.sibling, p.side);
    p.(sibling := Join(s, Child(near, s), near.id, Black, near.key,
                       Join(s, Child(near, Other(s)), sib.id, Red, sib.key, Child(sib, Other(s)))))
  }

  lemma {:induction false} TurnedState(x: Tree, p: Path, entries: seq<Entry>)
    requires RemoveState(x, p, entries) && p.Step? && p.sibling.Fork? && !IsRed(p.sibling)
    requires IsRed(Child(p.sibling, p.side)) && !IsRed(Child(p.sibling, Other(p.side)))
    ensures RemoveState(x, Turned(p), entries)
  {
    SiblingExists(x, p, entries);
    var s, sib, sib' := p.side, p.sibling, Turned(p).sibling;
    TurnedSibling(p);
    SameEntries(p.up, Join(s, x, p.id, p.color, p.key, sib), Join(s, x, p.id, p.color, p.key, sib'));
  }

  lemma {:induction false} TurnedSibling(p: Path)
    requires p.Step? && p.sibling.Fork? && !IsRed(p.sibling) && Rb(p.sibling)
    requires IsRed(Child(p.sibling, p.side)) && !IsRed(Child(p.sibling, Other(p.side)))
    ensures var sib' := Turned(p).sibling;
            && Rb(sib') && !IsRed(sib') && BlackHeight(sib') == BlackHeight(p.sibling) && Entries(sib') == Entries(p.sibling)
  {
    var s, sib := p.side, p.sibling;
    RbAt(sib, s);
    RbAt(Child(sib, s), s);
    RotatedEntries(s, sib);
    var near, far := Child(sib, s), Child(sib, Other(s));
    RbJoin(s, Child(near, Other(s)), sib.id, Red, sib.key, far);
    RbJoin(s, Child(near, s), near.id, Black, near.key, Join(s, Child(near, Other(s)), sib.id, Red, sib.key, far));
    assert Entries(Turned(p).sibling) == Entries(Rotated(s, sib));
  }

  // ---- black sibling, far nephew red: the sibling takes the parent's place ----

  function Settled(x: Tree, p: Path): Tree
    requires p.Step? && p.sibling.Fork?
  {
    var s, sib := p.side, p.sibling;
    Join(s, Join(s, x, p.id, Black, p.key, Child(sib, s)), sib.id, p.color, sib.key, Blackened(Child(sib, Other(s))))
  }

  lemma {:induction false} SettledState(x: Tree, p: Path, entries: seq<Entry>)
    requires RemoveState(x, p, entries) && p.Step? && !IsRed(x) && p.sibling.Fork? && !IsRed(p.sibling)
    requires IsRed(Child(p.sibling, Other(p.side)))
    ensures RemoveState(Zip(p.up, Settled(x, p)), Top, entries) && !IsRed(Zip(p.up, Settled(x, p)))
  {
    SettledRb(x, p, entries);
    var s, sib := p.side, p.sibling;
    var whole := Join(s, x, p.id, p.color, p.key, sib);
    RotatedEntries(Other(s), whole);
    assert Entries(Settled(x, p)) == Entries(Rotated(Other(s), whole));
    SameEntries(p.up, whole, Settled(x, p));
    ZipRb(p.up, Settled(x, p));
    ZipBlackRoot(p.up, Settled(x, p));
    WholeNotEmpty(p.up, Settled(x, p));
  }

  lemma {:induction false} SettledRb(x: Tree, p: Path, entries: seq<Entry>)
    requires RemoveState(x, p, entries) && p.Step? && !IsRed(x) && p.sibling.Fork? && !IsRed(p.sibling)
    requires IsRed(Child(p.sibling, Other(p.side)))
    ensures var t := Settled(x, p);
            && Rb(t) && RbPath(p.up, BlackHeight(t)) && !(IsRed(t) && TopRed(p.up))
            && BlackTop(p.up) && (p.up.Top? ==> !IsRed(t))
  {
    SiblingExists(x, p, entries);
    var s, sib := p.side, p.sibling;
    var near, far := Child(sib, s), Child(sib, Other(s));
    RbAt(sib, s);
    RbAt(far, s);
    RbJoin(s, x, p.id, Black, p.key, near);
    RbJoin(L, far.left, far.id, Black, far.key, far.right);
    RbJoin(s, Join(s, x, p.id, Black, p.key, near), sib.id, p.color, sib.key, Blackened(far));
  }

  /** Painting the focus black when it is red, or is the root, completes the tree. */
  lemma {:induction false} RemoveDone(x: Tree, p: Path, entries: seq<Entry>)
    requires RemoveState(x, p, entries) && (p.Top? || IsRed(x))
    ensures x.Fork?
    ensures var t := Zip(p, Blackened(x)); Rb(t) && !IsRed(t) && Entries(t) == entries
  {
    SameEntries(p, x, Blackened(x));
    ZipRb(p, Blackened(x));
    ZipBlackRoot(p, Blackened(x));
  }

  /** What the fixup loop brings down. */
  function Measure(x: Tree, p: Path): nat {
    2 * Length(p) + (if IsRed(x) then 0 else 1)
  }

  /** The nephews as the pointers of the sibling give them. */
  lemma {:induction false} NephewPointers(m: Memory, root: nat, x: Tree, p: Path)
    requires At(m, root, x, p) && p.Step? && p.sibling.Fork?
    ensures p.sibling.id in m
    ensures forall s :: var n := Child(p.sibling, s);
              Get(m[p.sibling.id], s) == Root(n) && (n.Fork? ==> n.id != 0 && n.id in m && m[n.id].color == n.color)
  {
    forall s ensures var n := Child(p.sibling, s);
              Get(m[p.sibling.id], s) == Root(n) && (n.Fork? ==> n.id != 0 && n.id in m && m[n.id].color == n.color)
    {
      LinksAt(m, p.sibling, p.id, s);
      var n := Child(p.sibling, s);
      if n.Fork? {
        LinksAt(m, n, p.sibling.id, s);
      }
    }
  }
}

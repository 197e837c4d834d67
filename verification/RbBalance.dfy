/** What the red-black conditions of AK/RedBlackTree.h are for: every path down is logarithmic in the number of entries. */
module RbBalance {
  import opened Arith
  import opened RbTrees

  /** The number of nodes on the longest path down. */
  function Height(t: Tree): nat {
    match t
    case Leaf => 0
    case Fork(l, _, _, _, r) => 1 + if Height(l) < Height(r) then Height(r) else Height(l)
  }

  /** The number of nodes above the focus. */
  function Depth(p: Path): nat {
    match p
    case Top => 0
    case Step(_, _, _, _, _, up) => 1 + Depth(up)
  }

  /** At most every other node on a path is red. */
  lemma {:induction false} HeightBound(t: Tree)
    requires Rb(t)
    ensures Height(t) <= 2 * BlackHeight(t) + if IsRed(t) then 1 else 0
  {
    if t.Fork? {
      HeightBound(t.left);
      HeightBound(t.right);
    }
  }

  /** The black nodes alone make a full tree. */
  lemma {:induction false} SizeBound(t: Tree)
    requires Rb(t)
    ensures Pow2(BlackHeight(t)) <= |Entries(t)| + 1
  {
    if t.Fork? {
      SizeBound(t.left);
      SizeBound(t.right);
      PowStep(2, BlackHeight(t.left) + 1);
    }
  }

  /** At most 2 log2(n + 1). */
  ghost predicate Logarithmic(steps: nat, n: nat) {
    Pow2(steps) <= (n + 1) * (n + 1)
  }

  lemma {:induction false} FewerSteps(steps: nat, more: nat, n: nat)
    requires steps <= more && Logarithmic(more, n)
    ensures Logarithmic(steps, n)
  {
    PowMonotone(2, steps, more);
  }

  /** No path of a valid tree of n entries is longer than 2 log2(n + 1). */
  lemma {:induction false} Balanced(t: Tree, n: nat)
    requires ValidTree(t) && n == |Entries(t)|
    ensures Pow2(Height(t)) <= (n + 1) * (n + 1)
  {
    var h := BlackHeight(t);
    HeightBound(t);
    SizeBound(t);
    PowMonotone(2, Height(t), h + h);
    PowAdd(2, h, h);
    MulMono(Pow2(h), n + 1, Pow2(h));
    MulMono(Pow2(h), n + 1, n + 1);
  }

  lemma {:induction false} DepthAndHeight(t: Tree, p: Path)
    ensures Depth(p) + Height(t) <= Height(Zip(p, t))
    decreases p
  {
    match p
    case Top =>
    case Step(s, id, c, k, sibling, up) =>
      DepthAndHeight(Join(s, t, id, c, k, sibling), up);
  }

  /** So every descent to a focus has passed at most so many nodes. */
  lemma {:induction false} ShortDescent(t: Tree, p: Path, whole: Tree, steps: nat, n: nat)
    requires ValidTree(whole) && Zip(p, t) == whole && n == |Entries(whole)| && steps == Depth(p)
    ensures Logarithmic(steps, n)
  {
    DepthAndHeight(t, p);
    Balanced(whole, n);
    FewerSteps(steps, Height(whole), n);
  }
}

/** `BaseRedBlackTree` of AK/RedBlackTree.h. Each mirrored pair of branches (and of rotations) of the source is
    written once, over a side. */
module RedBlackTree {
  import opened RbBalance
  import opened RbTrees
  import opened RbMemory
  import opened RbRotation
  import opened RbInsert
  import opened RbRemove
  import opened RbRelink
  import opened RbSearch
  import opened RbUnlink

  class BaseRedBlackTree {
    var nodes: Memory
    var root: nat
    var size: nat
    var minimum: nat
    ghost var tree: Tree

    ghost predicate Valid()
      reads this
    {
      && At(nodes, root, tree, Top) && ValidTree(tree)
      && size == |Entries(tree)|
      && minimum == if tree.Leaf? then 0 else Entries(tree)[0].id
    }

    constructor ()
      ensures Valid() && Entries(tree) == []
    {
      nodes, root, size, minimum, tree := map[], 0, 0, 0, Leaf;
    }

    /** The pointer updates of `rotate_left` (s = R) and `rotate_right` (s = L). */
    method RotatePointers(s: Side, subtreeRoot: nat, ghost pivot': nat, ghost inner': nat, ghost parentSide: Side)
      requires subtreeRoot in nodes && pivot' == Get(nodes[subtreeRoot], s) && pivot' in nodes && pivot' != subtreeRoot
      requires inner' == Get(nodes[pivot'], Other(s)) && inner' != subtreeRoot && inner' != pivot'
      requires inner' != 0 ==> inner' in nodes
      requires var parent := nodes[subtreeRoot].parent;
               && parent != subtreeRoot && parent != pivot'
               && (parent != 0 ==> parent != inner' && parent in nodes && Get(nodes[parent], parentSide) == subtreeRoot
                                   && Get(nodes[parent], Other(parentSide)) != subtreeRoot)
      modifies this`nodes, this`root
      ensures var parent := old(nodes[subtreeRoot].parent);
              && PointersRotated(old(nodes), nodes, s, subtreeRoot, pivot', inner', parent, parentSide)
              && root == if parent == 0 then pivot' else old(root)
    {
      var pivot := Get(nodes[subtreeRoot], s);
      var parent := nodes[subtreeRoot].parent;
      ghost var m := nodes;
      SwingInner(s, subtreeRoot, pivot, inner');

      // the pivot goes where the old root was
      nodes := nodes[pivot := nodes[pivot].(parent := parent)];
      if parent == 0 {
        root := pivot;
      } else if nodes[parent].left == subtreeRoot {
        nodes := nodes[parent := nodes[parent].(left := pivot)];
      } else {
        nodes := nodes[parent := nodes[parent].(right := pivot)];
      }
      SwungPointers(m, nodes, s, subtreeRoot, pivot, inner', parent, parentSide);
    }

    /** The first two stages of it. */
    method SwingInner(s: Side, subtreeRoot: nat, pivot: nat, ghost inner': nat)
      requires subtreeRoot in nodes && pivot in nodes && pivot != subtreeRoot && inner' == Get(nodes[pivot], Other(s))
      requires inner' != subtreeRoot && inner' != pivot && (inner' != 0 ==> inner' in nodes)
      modifies this`nodes
      ensures nodes == Swung(old(nodes), s, subtreeRoot, pivot, inner')
    {
      // the inner subtree changes sides
      var inner := Get(nodes[pivot], Other(s));
      nodes := nodes[subtreeRoot := Set(nodes[subtreeRoot], s, inner)];
      if inner != 0 {
        nodes := nodes[inner := nodes[inner].(parent := subtreeRoot)];
      }

      // the old root goes below the pivot
      nodes := nodes[pivot := Set(nodes[pivot], Other(s), subtreeRoot)];
      nodes := nodes[subtreeRoot := nodes[subtreeRoot].(parent := pivot)];
    }

    /** `rotate_left` and `rotate_right` on the tree they are meant for. */
    method Rotate(s: Side, subtreeRoot: nat, ghost t: Tree, ghost p: Path)
      requires t.Fork? && t.id == subtreeRoot && Child(t, s).Fork? && At(nodes, root, t, p)
      modifies this`nodes, this`root
      ensures At(nodes, root, Rotated(s, t), p)
    {
      ghost var m, r := nodes, root;
      RotationReady(m, r, s, t, p);
      RotatePointers(s, subtreeRoot, Child(t, s).id, Root(Child(Child(t, s), Other(s))), if p.Step? then p.side else L);
      RotatedAt(m, r, s, t, p, nodes, root);
    }

    method Paint(id: nat, c: Color, ghost t: Tree, ghost p: Path)
      requires t.Fork? && t.id == id && At(nodes, root, t, p)
      modifies this`nodes
      ensures At(nodes, root, t.(color := c), p)
    {
      PaintFocus(nodes, root, t, p, c);
      nodes := nodes[id := nodes[id].(color := c)];
    }

    // ---- insert_fixups ----

    /** Red uncle: parent and uncle black, grandparent red. */
    method Recolor(parent: nat, uncle: nat, grandParent: nat, ghost t: Tree, ghost p: Path)
      requires At(nodes, root, t, p) && p.Step? && p.up.Step? && p.up.sibling.Fork?
      requires parent == p.id && uncle == p.up.sibling.id && grandParent == p.up.id
      modifies this`nodes
      ensures At(nodes, root, Recolored(t, p), p.up.up)
    {
      ghost var g := p.up;
      ghost var below := Join(p.side, t, p.id, Black, p.key, p.sibling);
      UpOne(nodes, root, t, p);
      Paint(parent, Black, Join(p.side, t, p.id, p.color, p.key, p.sibling), g);
      UpOne(nodes, root, below, g);
      Down(nodes, root, Other(g.side), g.sibling, g.id, g.color, g.key, below, g.up);
      Paint(uncle, Black, g.sibling, Step(Other(g.side), g.id, g.color, g.key, below, g.up));
      Down(nodes, root, Other(g.side), Blackened(g.sibling), g.id, g.color, g.key, below, g.up);
      Paint(grandParent, Red, Join(Other(g.side), Blackened(g.sibling), g.id, g.color, g.key, below), g.up);
    }

    /** Black uncle, outer grandchild: parent black, grandparent red, rotate the grandparent down. */
    method Straighten(side: Side, parent: nat, grandParent: nat, ghost t: Tree, ghost p: Path)
      requires At(nodes, root, t, p) && p.Step? && p.up.Step? && p.up.side == p.side == side
      requires parent == p.id && grandParent == p.up.id
      modifies this`nodes, this`root
      ensures At(nodes, root, t, Straightened(p))
    {
      ghost var g := p.up;
      ghost var below := Join(p.side, t, p.id, Black, p.key, p.sibling);
      UpOne(nodes, root, t, p);
      Paint(parent, Black, Join(p.side, t, p.id, p.color, p.key, p.sibling), g);
      UpOne(nodes, root, below, g);
      Paint(grandParent, Red, Join(g.side, below, g.id, g.color, g.key, g.sibling), g.up);
      ghost var whole := Join(g.side, below, g.id, Red, g.key, g.sibling);
      Rotate(side, grandParent, whole, g.up);
      ghost var g' := Join(p.side, p.sibling, g.id, Red, g.key, g.sibling);
      assert Rotated(p.side, whole) == Join(p.side, t, p.id, Black, p.key, g');
      Down(nodes, root, p.side, t, p.id, Black, p.key, g', g.up);
    }

    /** Black uncle, inner grandchild: rotate the parent down. */
    method Unbend(side: Side, parent: nat, ghost t: Tree, ghost p: Path)
      requires At(nodes, root, t, p) && t.Fork? && p.Step? && parent == p.id && side == p.side
      modifies this`nodes, this`root
      ensures At(nodes, root, UnbentFocus(t, p), UnbentPath(t, p))
    {
      ghost var whole := Join(p.side, t, p.id, p.color, p.key, p.sibling);
      UpOne(nodes, root, t, p);
      Rotate(side, parent, whole, p.up);
      assert Rotated(p.side, whole) == Join(Other(p.side), UnbentFocus(t, p), t.id, t.color, t.key, Child(t, p.side));
      Down(nodes, root, Other(p.side), UnbentFocus(t, p), t.id, t.color, t.key, Child(t, p.side), p.up);
    }

    /** One turn of `insert_fixups`, for a red parent. */
    method InsertFixup(node: nat, ghost t: Tree, ghost p: Path, ghost entries: seq<Entry>, ghost first: bool)
      returns (next: nat, ghost t': Tree, ghost p': Path)
      requires At(nodes, root, t, p) && t.Fork? && t.id == node && InsertState(t, p, entries, first) && TopRed(p)
      modifies this`nodes, this`root
      ensures At(nodes, root, t', p') && t'.Fork? && t'.id == next && InsertState(t', p', entries, first)
      ensures Length(p') < Length(p)
    {
      RedParent(p, BlackHeight(t));
      FocusPointers(nodes, root, t, p);
      UpOne(nodes, root, t, p);
      FocusPointers(nodes, root, Join(p.side, t, p.id, p.color, p.key, p.sibling), p.up);
      var parent := nodes[node].parent;
      var grandParent := nodes[parent].parent;
      var side := if nodes[grandParent].right == parent then R else L;
      var uncle := Get(nodes[grandParent], Other(side));
      if uncle != 0 && nodes[uncle].color == Red {
        RecoloredState(t, p, entries, first);
        Recolor(parent, uncle, grandParent, t, p);
        next, t', p' := grandParent, Recolored(t, p), p.up.up;
      } else {
        next, t', p' := node, t, p;
        if Get(nodes[parent], Other(side)) == node {
          UnbentState(t, p, entries, first);
          Unbend(Other(side), parent, t, p);
          next, t', p' := parent, UnbentFocus(t, p), UnbentPath(t, p);
          FocusPointers(nodes, root, t', p');
        }
        StraightenedState(t', p', entries, first);
        Straighten(side, nodes[next].parent, grandParent, t', p');
        p' := Straightened(p');
      }
    }

    /** `insert_fixups`. */
    method InsertFixups(node0: nat, ghost t0: Tree, ghost p0: Path, ghost entries: seq<Entry>, ghost first: bool)
      returns (ghost t': Tree)
      requires At(nodes, root, t0, p0) && t0.Fork? && t0.id == node0 && InsertState(t0, p0, entries, first)
      modifies this`nodes, this`root
      ensures At(nodes, root, t', Top) && Rb(t') && !IsRed(t') && Entries(t') == entries && (first ==> FirstIsLeaf(t'))
    {
      var node := node0;
      ghost var t, p := t0, p0;
      FocusPointers(nodes, root, t, p);
      while nodes[node].parent != 0 && nodes[nodes[node].parent].color == Red
        invariant At(nodes, root, t, p) && t.Fork? && t.id == node && InsertState(t, p, entries, first)
        invariant node in nodes && nodes[node].parent == Parent(p)
        invariant p.Step? ==> p.id != 0 && p.id in nodes && nodes[p.id].color == p.color
        decreases Length(p)
      {
        node, t, p := InsertFixup(node, t, p, entries, first);
        FocusPointers(nodes, root, t, p);
      }
      t' := BlackenRoot(t, p, entries, first);
    }

    /** The last statement of `insert_fixups`: the root should always be black. */
    method BlackenRoot(ghost t: Tree, ghost p: Path, ghost entries: seq<Entry>, ghost first: bool) returns (ghost t': Tree)
      requires At(nodes, root, t, p) && InsertState(t, p, entries, first) && !TopRed(p)
      modifies this`nodes
      ensures At(nodes, root, t', Top) && Rb(t') && !IsRed(t') && Entries(t') == entries && (first ==> FirstIsLeaf(t'))
    {
      InsertDone(t, p, entries, first);
      BlackRootAt(nodes, root, t, p);
      t' := if p.Top? then Blackened(t) else Zip(p, t);
      nodes := nodes[root := nodes[root].(color := Black)];
    }

    /** The descent of `insert`: the node to hang the new one below. */
    method FindPlace(key: int, ghost node: nat) returns (parent: nat, ghost p: Path, ghost steps: nat)
      requires Valid() && node !in Ids(tree)
      ensures At(nodes, root, Leaf, p) && Descending(Leaf, p, key, tree, node) && parent == Parent(p)
      ensures Logarithmic(steps, size)
    {
      parent, steps := 0, 0;
      var temp := root;
      ghost var t := tree;
      p := Top;
      while temp != 0
        invariant At(nodes, root, t, p) && Descending(t, p, key, tree, node)
        invariant temp == Root(t) && parent == Parent(p) && steps == Depth(p)
        decreases t
      {
        FocusPointers(nodes, root, t, p);
        ghost var s := if key < t.key then L else R;
        LinksAt(nodes, t, Parent(p), s);
        JoinChild(t, s);
        DescendOne(t, p, key, tree, node, s);
        Down(nodes, root, s, Child(t, s), t.id, t.color, t.key, Child(t, Other(s)), p);
        parent := temp;
        if key < nodes[temp].key {
          temp := nodes[temp].left;
        } else {
          temp := nodes[temp].right;
        }
        p := Step(s, t.id, t.color, t.key, Child(t, Other(s)), p);
        t := Child(t, s);
        steps := steps + 1;
      }
      FocusPointers(nodes, root, t, p);
      ShortDescent(t, p, tree, steps, size);
    }

    /** The new node linked below `parent`, and the fixups. */
    method InsertBelow(parent: nat, node: nat, key: int, ghost p: Path) returns (ghost t: Tree)
      requires At(nodes, root, Leaf, p) && Descending(Leaf, p, key, tree, node) && parent == Parent(p) && p.Step?
      requires node != 0 && node in nodes && nodes[node] == Node(0, 0, 0, Red, key)
      modifies this`nodes, this`root
      ensures At(nodes, root, t, Top) && Rb(t) && !IsRed(t)
      ensures Entries(t) == Before(p) + [Entry(node, key)] + After(p) && (Before(p) == [] ==> FirstIsLeaf(t))
    {
      FocusPointers(nodes, root, Leaf, p);
      Attach(nodes, root, p, node, key);
      StartInsert(p, node, key);
      SideOfKey(p, key);
      LastKey(nodes, root, p);
      if key < nodes[parent].key {
        nodes := nodes[parent := nodes[parent].(left := node)];
      } else {
        nodes := nodes[parent := nodes[parent].(right := node)];
      }
      nodes := nodes[node := nodes[node].(parent := parent)];

      ghost var entries := Before(p) + [Entry(node, key)] + After(p);
      t := Fork(Leaf, node, Red, key, Leaf);
      FocusPointers(nodes, root, t, p);
      if nodes[nodes[node].parent].parent != 0 {
        t := InsertFixups(node, t, p, entries, Before(p) == []);
      } else {
        ShortPath(nodes, root, t, p);
        InsertDone(t, p, entries, Before(p) == []);
        ZipAt(nodes, root, t, p);
        t := Zip(p, t);
      }
    }

    /** The new node as the only one. */
    method InsertFirst(node: nat, key: int)
      requires node != 0 && node in nodes && nodes[node] == Node(0, 0, 0, Red, key)
      modifies this
      ensures Valid() && Entries(tree) == [Entry(node, key)]
    {
      nodes := nodes[node := nodes[node].(color := Black)];
      root, size, minimum := node, 1, node;
      tree := Fork(Leaf, node, Black, key, Leaf);
      SingleNode(nodes, node, key);
    }

    /** `insert` of a fresh red node. It lands after every entry with a key up to its own. */
    method Insert(node: nat) returns (ghost position: nat)
      requires Valid() && node != 0 && node !in Ids(tree)
      requires node in nodes && nodes[node] == Node(0, 0, 0, Red, nodes[node].key)
      modifies this
      ensures Valid()
      ensures InsertedAt(old(Entries(tree)), Entries(tree), Entry(node, old(nodes[node].key)), position)
    {
      var key := nodes[node].key;
      var parent: nat;
      ghost var p, steps;
      parent, p, steps := FindPlace(key, node);
      DescentEntries(p, key, tree, node);
      position := |Before(p)|;
      if parent == 0 {
        FocusPointers(nodes, root, Leaf, p);
        InsertFirst(node, key);
        return;
      }
      InsertNext(parent, node, key, p, position);
    }

    /** The insertion into a tree that is not empty. */
    method InsertNext(parent: nat, node: nat, key: int, ghost p: Path, ghost position: nat)
      requires Valid() && At(nodes, root, Leaf, p) && Descending(Leaf, p, key, tree, node) && parent == Parent(p) && parent != 0
      requires node != 0 && node in nodes && nodes[node] == Node(0, 0, 0, Red, key) && position == |Before(p)|
      requires InsertedAt(Entries(tree), Before(p) + [Entry(node, key)] + After(p), Entry(node, key), position)
      requires Sorted(Before(p) + [Entry(node, key)] + After(p))
      modifies this
      ensures Valid() && Entries(tree) == Before(p) + [Entry(node, key)] + After(p)
    {
      FocusPointers(nodes, root, Leaf, p);
      WholeNotEmpty(p, Leaf);
      ghost var before := Entries(tree);
      tree := InsertBelow(parent, node, key, p);
      CountInserted(node, key, before, position);
    }

    /** The new size and the new minimum. */
    method CountInserted(node: nat, ghost key: int, ghost before: seq<Entry>, ghost position: nat)
      requires node != 0 && At(nodes, root, tree, Top) && ValidTree(tree)
      requires InsertedAt(before, Entries(tree), Entry(node, key), position) && (position == 0 ==> FirstIsLeaf(tree))
      requires before != [] && size == |before| && minimum == before[0].id
      modifies this`size, this`minimum
      ensures Valid()
    {
      assert tree.Fork? by { assert Entries(Leaf) == []; }
      NewMinimum(nodes, tree, before, node, key, position);
      size := size + 1;
      if nodes[minimum].left == node {
        minimum := node;
      }
    }

    // ---- remove_fixups ----

    /** Red sibling: it turns black, the parent red, and the parent is rotated below it. */
    method LowerParent(side: Side, parent: nat, sibling: nat, ghost x: Tree, ghost p: Path)
      requires At(nodes, root, x, p) && p.Step? && p.sibling.Fork?
      requires side == p.side && parent == p.id && sibling == p.sibling.id
      modifies this`nodes, this`root
      ensures At(nodes, root, x, Lowered(p))
    {
      ghost var sib := p.sibling.(color := Black);
      MoveAcross(nodes, root, x, p);
      Paint(sibling, Black, p.sibling, Across(x, p));
      UpOne(nodes, root, sib, Across(x, p));
      Paint(parent, Red, Join(Other(side), sib, p.id, p.color, p.key, x), p.up);
      ghost var whole := Join(Other(side), sib, p.id, Red, p.key, x);
      Rotate(Other(side), parent, whole, p.up);
      ghost var below := Join(side, x, p.id, Red, p.key, Child(sib, side));
      assert Rotated(Other(side), whole) == Join(side, below, sib.id, Black, sib.key, Child(sib, Other(side)));
      Down(nodes, root, side, below, sib.id, Black, sib.key, Child(sib, Other(side)), p.up);
      Down(nodes, root, side, x, p.id, Red, p.key, Child(sib, side),
           Step(side, sib.id, Black, sib.key, Child(sib, Other(side)), p.up));
    }

    /** Black sibling without a red child: it turns red. */
    method PushUp(sibling: nat, ghost x: Tree, ghost p: Path)
      requires At(nodes, root, x, p) && p.Step? && p.sibling.Fork? && sibling == p.sibling.id
      modifies this`nodes
      ensures At(nodes, root, Pushed(x, p), p.up)
    {
      MoveAcross(nodes, root, x, p);
      Paint(sibling, Red, p.sibling, Across(x, p));
      UpOne(nodes, root, p.sibling.(color := Red), Across(x, p));
    }

    /** Near nephew red: it turns black, the sibling red, and the sibling is rotated below it. */
    method TurnSibling(side: Side, sibling: nat, nephew: nat, ghost x: Tree, ghost p: Path)
      requires At(nodes, root, x, p) && p.Step? && p.sibling.Fork? && Child(p.sibling, p.side).Fork?
      requires side == p.side && sibling == p.sibling.id && nephew == Child(p.sibling, p.side).id
      modifies this`nodes, this`root
      ensures At(nodes, root, x, Turned(p))
    {
      ghost var sib, q := p.sibling, Across(x, p);
      ghost var near, far := Child(sib, side), Child(sib, Other(side));
      ghost var near' := near.(color := Black);
      MoveAcross(nodes, root, x, p);
      JoinChild(sib, side);
      Down(nodes, root, side, near, sib.id, sib.color, sib.key, far, q);
      Paint(nephew, Black, near, Step(side, sib.id, sib.color, sib.key, far, q));
      Down(nodes, root, side, near', sib.id, sib.color, sib.key, far, q);
      Paint(sibling, Red, Join(side, near', sib.id, sib.color, sib.key, far), q);
      Rotate(side, sibling, Join(side, near', sib.id, Red, sib.key, far), q);
      assert Rotated(side, Join(side, near', sib.id, Red, sib.key, far)) == Turned(p).sibling;
      MoveAcross(nodes, root, Turned(p).sibling, q);
    }

    /** Far nephew red: the sibling takes the parent's colour, parent and nephew turn black, and the parent is
        rotated below the sibling. */
    method Settle(side: Side, parent: nat, sibling: nat, nephew: nat, ghost x: Tree, ghost p: Path)
      requires At(nodes, root, x, p) && p.Step? && p.sibling.Fork? && Child(p.sibling, Other(p.side)).Fork?
      requires side == p.side && parent == p.id && sibling == p.sibling.id && nephew == Child(p.sibling, Other(p.side)).id
      modifies this`nodes, this`root
      ensures At(nodes, root, Settled(x, p), p.up)
    {
      ghost var sib, q := p.sibling, Across(x, p);
      ghost var near, far := Child(sib, side), Child(sib, Other(side));
      ghost var far', sib' := far.(color := Black), sib.(color := p.color);
      MoveAcross(nodes, root, x, p);
      FocusPointers(nodes, root, sib, q);
      Paint(sibling, nodes[parent].color, sib, q);
      UpOne(nodes, root, sib', q);
      Paint(parent, Black, Join(Other(side), sib', p.id, p.color, p.key, x), p.up);
      Down(nodes, root, Other(side), sib', p.id, Black, p.key, x, p.up);
      ghost var q' := Step(Other(side), p.id, Black, p.key, x, p.up);
      JoinChild(sib', Other(side));
      Down(nodes, root, Other(side), far, sib.id, p.color, sib.key, near, q');
      Paint(nephew, Black, far, Step(Other(side), sib.id, p.color, sib.key, near, q'));
      Down(nodes, root, Other(side), far', sib.id, p.color, sib.key, near, q');
      ghost var sib'' := Join(Other(side), far', sib.id, p.color, sib.key, near);
      Down(nodes, root, Other(side), sib'', p.id, Black, p.key, x, p.up);
      Rotate(Other(side), parent, Join(Other(side), sib'', p.id, Black, p.key, x), p.up);
      assert Rotated(Other(side), Join(Other(side), sib'', p.id, Black, p.key, x)) == Settled(x, p);
    }

    /** The test `!child || child->color == Color::Black`. */
    predicate IsBlack(child: nat)
      requires child != 0 ==> child in nodes
      reads this`nodes
    {
      child == 0 || nodes[child].color == Black
    }

    /** One turn of `remove_fixups` once the sibling is black. */
    method RemoveFixupBlack(side: Side, parent: nat, ghost x: Tree, ghost p: Path, ghost entries: seq<Entry>)
      returns (next: nat, ghost x': Tree, ghost p': Path)
      requires At(nodes, root, x, p) && RemoveState(x, p, entries) && p.Step? && !IsRed(x) && !IsRed(p.sibling)
      requires side == p.side && parent == p.id
      modifies this`nodes, this`root
      ensures At(nodes, root, x', p') && RemoveState(x', p', entries) && x'.Fork? && next == x'.id
      ensures p'.Top? || (x' == Pushed(x, p) && p' == p.up)
    {
      SiblingExists(x, p, entries);
      FocusPointers(nodes, root, x, p);
      NephewPointers(nodes, root, x, p);
      var sibling := Get(nodes[parent], Other(side));
      var near, far := Get(nodes[sibling], side), Get(nodes[sibling], Other(side));
      if IsBlack(near) && IsBlack(far) {
        PushedState(x, p, entries);
        PushUp(sibling, x, p);
        next, x', p' := parent, Pushed(x, p), p.up;
      } else {
        ghost var q := p;
        if IsBlack(far) {
          TurnedState(x, p, entries);
          TurnSibling(side, sibling, near, x, p);
          q := Turned(p);
          FocusPointers(nodes, root, x, q);
          NephewPointers(nodes, root, x, q);
          sibling := Get(nodes[parent], Other(side));
        }
        SettledState(x, q, entries);
        Settle(side, parent, sibling, Get(nodes[sibling], Other(side)), x, q);
        ZipAt(nodes, root, Settled(x, q), q.up);
        next, x', p' := root, Zip(q.up, Settled(x, q)), Top;
      }
    }

    /** One turn of `remove_fixups`. */
    method RemoveFixup(node: nat, parent: nat, ghost x: Tree, ghost p: Path, ghost entries: seq<Entry>)
      returns (next: nat, ghost x': Tree, ghost p': Path)
      requires At(nodes, root, x, p) && RemoveState(x, p, entries) && p.Step? && !IsRed(x)
      requires node == Root(x) && parent == p.id
      modifies this`nodes, this`root
      ensures At(nodes, root, x', p') && RemoveState(x', p', entries) && x'.Fork? && next == x'.id
      ensures Measure(x', p') < Measure(x, p)
    {
      SiblingExists(x, p, entries);
      FocusPointers(nodes, root, x, p);
      var side := if nodes[parent].left == node then L else R;
      var sibling := Get(nodes[parent], Other(side));
      ghost var q := p;
      if nodes[sibling].color == Red {
        LoweredState(x, p, entries);
        LowerParent(side, parent, sibling, x, p);
        q := Lowered(p);
      }
      next, x', p' := RemoveFixupBlack(side, parent, x, q, entries);
    }

    /** `remove_fixups`. */
    method RemoveFixups(node0: nat, parent0: nat, ghost x0: Tree, ghost p0: Path, ghost entries: seq<Entry>)
      returns (ghost t: Tree)
      requires At(nodes, root, x0, p0) && RemoveState(x0, p0, entries) && node0 == Root(x0) && parent0 == Parent(p0)
      modifies this`nodes, this`root
      ensures At(nodes, root, t, Top) && Rb(t) && !IsRed(t) && Entries(t) == entries
    {
      var node, parent := node0, parent0;
      ghost var x, p := x0, p0;
      RootFocus(nodes, root, x, p);
      FocusPointers(nodes, root, x, p);
      while node != root && IsBlack(node)
        invariant At(nodes, root, x, p) && RemoveState(x, p, entries) && node == Root(x) && parent == Parent(p)
        invariant node == root <==> p.Top?
        invariant node != 0 ==> node in nodes && nodes[node].color == x.color
        decreases Measure(x, p)
      {
        node, x, p := RemoveFixup(node, parent, x, p, entries);
        RootFocus(nodes, root, x, p);
        FocusPointers(nodes, root, x, p);
        parent := nodes[node].parent;
      }
      RemoveDone(x, p, entries);
      Paint(node, Black, x, p);
      ZipAt(nodes, root, Blackened(x), p);
      t := Zip(p, Blackened(x));
    }

    // ---- walking and searching ----

    /** `successor` (s = R) and `predecessor` (s = L), seen from a focus on the node. */
    method Neighbour(s: Side, node0: nat, ghost t0: Tree, ghost p0: Path) returns (next: nat)
      requires At(nodes, root, t0, p0) && t0.Fork? && t0.id == node0
      ensures next == Near(s, Outward(s, Child(t0, s), p0))
    {
      var node := node0;
      ghost var t, p := t0, p0;
      FocusPointers(nodes, root, t, p);
      LinksAt(nodes, t, Parent(p), s);
      JoinChild(t, s);
      Down(nodes, root, s, Child(t, s), t.id, t.color, t.key, Child(t, Other(s)), p);
      var child := Get(nodes[node], s);
      if child != 0 {
        p := Step(s, t.id, t.color, t.key, Child(t, Other(s)), p);
        t := Child(t, s);
        next := Extreme(Other(s), child, t, p);
        return;
      }
      assert Outward(s, Leaf, p0) == Beyond(s, p0) by { assert Entries(Leaf) == []; }
      next := Climb(s, node, t, p);
    }

    /** The descent of `successor` and `predecessor`: as far as it goes on side d. */
    method Extreme(d: Side, node0: nat, ghost t0: Tree, ghost p0: Path) returns (node: nat)
      requires At(nodes, root, t0, p0) && t0.Fork? && t0.id == node0
      ensures node == Near(Other(d), Outward(Other(d), t0, p0))
    {
      node := node0;
      ghost var t, p := t0, p0;
      FocusPointers(nodes, root, t, p);
      while Get(nodes[node], d) != 0
        invariant At(nodes, root, t, p) && t.Fork? && t.id == node && node in nodes
        invariant Outward(Other(d), t, p) == Outward(Other(d), t0, p0)
        decreases t
      {
        LinksAt(nodes, t, Parent(p), d);
        JoinChild(t, d);
        Down(nodes, root, d, Child(t, d), t.id, t.color, t.key, Child(t, Other(d)), p);
        OutwardDown(Other(d), t, p);
        p := Step(d, t.id, t.color, t.key, Child(t, Other(d)), p);
        t := Child(t, d);
        node := Get(nodes[node], d);
        FocusPointers(nodes, root, t, p);
      }
      LinksAt(nodes, t, Parent(p), d);
      FocusPointers(nodes, root, t, p);
      IdsLinked(nodes, Child(t, d), t.id);
      RootInIds(Child(t, d));
      OutwardNear(Other(d), t, p);
    }

    /** The ascent of `successor` and `predecessor`: up while coming from side s. */
    method Climb(s: Side, node0: nat, ghost t0: Tree, ghost p0: Path) returns (temp: nat)
      requires At(nodes, root, t0, p0) && t0.Fork? && t0.id == node0
      ensures temp == Near(s, Beyond(s, p0))
    {
      var node := node0;
      ghost var t, p := t0, p0;
      FocusPointers(nodes, root, t, p);
      temp := nodes[node].parent;
      while temp != 0 && node == Get(nodes[temp], s)
        invariant At(nodes, root, t, p) && t.Fork? && t.id == node && temp == Parent(p)
        invariant temp != 0 ==> temp in nodes
        invariant Beyond(s, p) == Beyond(s, p0)
        decreases Length(p)
      {
        FocusPointers(nodes, root, t, p);
        UpOne(nodes, root, t, p);
        BeyondUp(s, p);
        t := Join(p.side, t, p.id, p.color, p.key, p.sibling);
        p := p.up;
        FocusPointers(nodes, root, t, p);
        node := temp;
        temp := nodes[temp].parent;
      }
      FocusPointers(nodes, root, t, p);
      BeyondNear(s, p);
    }

    /** `successor`: the address of the next entry in order, null after the last one. */
    method Successor(node: nat) returns (next: nat, ghost i: nat)
      requires Valid() && node in Ids(tree)
      ensures i < |Entries(tree)| && Entries(tree)[i].id == node
      ensures next == if i + 1 < |Entries(tree)| then Entries(tree)[i + 1].id else 0
    {
      ghost var t, p := Locate(nodes, root, tree, Top, node);
      NeighbourEntries(t, p);
      i := |Before(p)| + |Entries(t.left)|;
      next := Neighbour(R, node, t, p);
    }

    /** `predecessor`: the address of the previous entry in order, null before the first one. */
    method Predecessor(node: nat) returns (previous: nat, ghost i: nat)
      requires Valid() && node in Ids(tree)
      ensures i < |Entries(tree)| && Entries(tree)[i].id == node
      ensures previous == if i > 0 then Entries(tree)[i - 1].id else 0
    {
      ghost var t, p := Locate(nodes, root, tree, Top, node);
      NeighbourEntries(t, p);
      i := |Before(p)| + |Entries(t.left)|;
      previous := Neighbour(L, node, t, p);
    }

    /** `find`. */
    method Find(key: int) returns (node: nat, ghost steps: nat)
      requires Valid()
      ensures Found(Entries(tree), key, node)
      ensures node != 0 ==> Topmost(tree, key, node)
      ensures Logarithmic(steps, size)
    {
      node, steps := root, 0;
      ghost var t, p := tree, Top;
      FocusPointers(nodes, root, t, p);
      while node != 0 && nodes[node].key != key
        invariant Looking(nodes, root, t, p, key, tree, steps) && node == Root(t)
        decreases t
      {
        ghost var s := if key < t.key then L else R;
        p := LookDown(nodes, root, t, p, key, tree, steps, s, steps + 1);
        if key < nodes[node].key {
          node := nodes[node].left;
        } else {
          node := nodes[node].right;
        }
        t, steps := Child(t, s), steps + 1;
      }
      LookEnds(nodes, root, t, p, key, tree, steps, L, size);
    }

    /** `find_largest_not_above` (s = L) and `find_smallest_not_below` (s = R). */
    method FindClosest(s: Side, key: int) returns (candidate: nat, ghost steps: nat)
      requires Valid()
      ensures Closest(s, Entries(tree), key, candidate)
      ensures if Found(Entries(tree), key, 0) then NextToGap(s, Entries(tree), key, candidate) else Topmost(tree, key, candidate)
      ensures Logarithmic(steps, size)
    {
      candidate, steps := 0, 0;
      var node := root;
      ghost var t, p := tree, Top;
      FocusPointers(nodes, root, t, p);
      while node != 0
        invariant Looking(nodes, root, t, p, key, tree, steps) && node == Root(t)
        invariant candidate == Near(s, Beyond(s, p))
        decreases t
      {
        if key == nodes[node].key {
          LookEnds(nodes, root, t, p, key, tree, steps, s, size);
          candidate := node;
          return;
        }
        ghost var d := if key < t.key then L else R;
        p := LookDown(nodes, root, t, p, key, tree, steps, d, steps + 1);
        if d == s { BeyondUp(s, p); } else { BeyondNear(s, p); }
        if key < nodes[node].key {
          if s == R {
            candidate := node;
          }
          node := nodes[node].left;
        } else {
          if s == L {
            candidate := node;
          }
          node := nodes[node].right;
        }
        t, steps := Child(t, d), steps + 1;
      }
      LookEnds(nodes, root, t, p, key, tree, steps, s, size);
    }

    // ---- remove ----

    /** The relinking with a successor that is the node's own child. */
    method RelinkNeighbour(node: nat, successor: nat, ghost ln: nat, ghost rs: nat, ghost pside: Side)
      requires node in nodes && ExchangeReady(nodes, node, successor, ln, successor, node, rs, nodes[node].parent, pside)
      modifies this`nodes, this`root
      ensures PointersExchanged(old(nodes), nodes, node, successor, ln, successor, node, rs, old(nodes[node].parent), pside)
      ensures root == if old(nodes[node].parent) == 0 then successor else old(root)
    {
      ghost var m, pp := nodes, nodes[node].parent;
      SurroundNeighbour(node, successor, ln, rs, pside);
      ghost var m1 := nodes;
      nodes := nodes[successor := nodes[successor].(parent := nodes[node].parent)];
      nodes := nodes[node := nodes[node].(parent := successor)];
      SwapLeft(node, successor);
      nodes := nodes[node := nodes[node].(right := nodes[successor].right)];
      nodes := nodes[successor := nodes[successor].(right := node)];
      SwapColor(node, successor);
      ExchangeEnds(m, m1, nodes, node, successor, ln, successor, node, rs, pp, pside);
    }

    method SurroundNeighbour(node: nat, successor: nat, ghost ln: nat, ghost rs: nat, ghost pside: Side)
      requires node in nodes && ExchangeReady(nodes, node, successor, ln, successor, node, rs, nodes[node].parent, pside)
      modifies this`nodes, this`root
      ensures var m, pp := old(nodes), old(nodes[node].parent);
              && SurroundingsExchanged(m, nodes, node, successor, ln, successor, node, rs, pp, pside)
              && nodes[node] == m[node] && nodes[successor] == m[successor]
              && root == if pp == 0 then successor else old(root)
    {
      var left := nodes[node].left;
      nodes := nodes[left := nodes[left].(parent := successor)];
      ReplaceChild(node, successor);
      var right := nodes[successor].right;
      if right != 0 {
        nodes := nodes[right := nodes[right].(parent := node)];
      }
    }

    /** The relinking with a successor further down. */
    method RelinkFar(node: nat, successor: nat, ghost ln: nat, ghost rn: nat, ghost sp: nat, ghost rs: nat, ghost pside: Side)
      requires node in nodes && ExchangeReady(nodes, node, successor, ln, rn, sp, rs, nodes[node].parent, pside) && sp != node
      modifies this`nodes, this`root
      ensures PointersExchanged(old(nodes), nodes, node, successor, ln, rn, sp, rs, old(nodes[node].parent), pside)
      ensures root == if old(nodes[node].parent) == 0 then successor else old(root)
    {
      ghost var m, pp := nodes, nodes[node].parent;
      SurroundFar(node, successor, ln, rn, sp, rs, pside);
      ghost var m1 := nodes;
      var parent := nodes[node].parent;
      nodes := nodes[node := nodes[node].(parent := nodes[successor].parent)];
      nodes := nodes[successor := nodes[successor].(parent := parent)];
      SwapLeft(node, successor);
      var right := nodes[node].right;
      nodes := nodes[node := nodes[node].(right := nodes[successor].right)];
      nodes := nodes[successor := nodes[successor].(right := right)];
      SwapColor(node, successor);
      ExchangeEnds(m, m1, nodes, node, successor, ln, rn, sp, rs, pp, pside);
    }

    method SurroundFar(node: nat, successor: nat, ghost ln: nat, ghost rn: nat, ghost sp: nat, ghost rs: nat, ghost pside: Side)
      requires node in nodes && ExchangeReady(nodes, node, successor, ln, rn, sp, rs, nodes[node].parent, pside) && sp != node
      modifies this`nodes, this`root
      ensures var m, pp := old(nodes), old(nodes[node].parent);
              && SurroundingsExchanged(m, nodes, node, successor, ln, rn, sp, rs, pp, pside)
              && nodes[node] == m[node] && nodes[successor] == m[successor]
              && root == if pp == 0 then successor else old(root)
    {
      ghost var m, pp := nodes, nodes[node].parent;
      SurroundAbove(node, successor, ln, rn, sp, rs, pside);
      ghost var m1 := nodes;
      var heir := nodes[successor].right;
      if heir != 0 {
        nodes := nodes[heir := nodes[heir].(parent := node)];
      }
      ReplaceChild(successor, node);
      SurroundedFar(m, m1, nodes, node, successor, ln, rn, sp, rs, pp, pside);
    }

    /** The first half of it: children and parent of the node turn to the successor. */
    method SurroundAbove(node: nat, successor: nat, ghost ln: nat, ghost rn: nat, ghost sp: nat, ghost rs: nat, ghost pside: Side)
      requires node in nodes && ExchangeReady(nodes, node, successor, ln, rn, sp, rs, nodes[node].parent, pside) && sp != node
      modifies this`nodes, this`root
      ensures var m, pp := old(nodes), old(nodes[node].parent);
              && nodes == TurnedAbove(m, node, successor, ln, rn, pp, pside)
              && root == if pp == 0 then successor else old(root)
    {
      var left := nodes[node].left;
      nodes := nodes[left := nodes[left].(parent := successor)];
      var right := nodes[node].right;
      nodes := nodes[right := nodes[right].(parent := successor)];
      ReplaceChild(node, successor);
    }

    /** The parent of `node`, or the root pointer, made to point at `other` instead. */
    method ReplaceChild(node: nat, other: nat)
      requires node in nodes
      requires nodes[node].parent != 0 ==> nodes[node].parent in nodes
      modifies this`nodes, this`root
      ensures var parent := old(nodes[node].parent);
              && nodes == (if parent == 0 then old(nodes)
                           else old(nodes)[parent := Set(old(nodes[parent]), if old(nodes[parent].left) == node then L else R, other)])
              && root == if parent == 0 then other else old(root)
    {
      var parent := nodes[node].parent;
      if parent != 0 {
        if nodes[parent].left == node {
          nodes := nodes[parent := nodes[parent].(left := other)];
        } else {
          nodes := nodes[parent := nodes[parent].(right := other)];
        }
      } else {
        root := other;
      }
    }

    method SwapLeft(a: nat, b: nat)
      requires a in nodes && b in nodes && a != b
      modifies this`nodes
      ensures nodes == old(nodes)[a := old(nodes[a]).(left := old(nodes[b].left))][b := old(nodes[b]).(left := old(nodes[a].left))]
    {
      var left := nodes[a].left;
      nodes := nodes[a := nodes[a].(left := nodes[b].left)];
      nodes := nodes[b := nodes[b].(left := left)];
    }

    method SwapColor(a: nat, b: nat)
      requires a in nodes && b in nodes && a != b
      modifies this`nodes
      ensures nodes == old(nodes)[a := old(nodes[a]).(color := old(nodes[b].color))][b := old(nodes[b]).(color := old(nodes[a].color))]
    {
      var color := nodes[a].color;
      nodes := nodes[a := nodes[a].(color := nodes[b].color)];
      nodes := nodes[b := nodes[b].(color := color)];
    }

    /** A node with two children changes places with its successor. */
    method Relink(node: nat, ghost e: Exchange)
      requires e.Proper() && e.n == node && At(nodes, root, e.r, e.Base())
      modifies this`nodes, this`root
      ensures At(nodes, root, e.NewFocus(), e.NewPath())
    {
      ghost var m, r := nodes, root;
      ExchangeIsReady(m, r, e);
      UpOne(m, r, e.r, e.Base());
      var successor := Neighbour(R, node, Join(R, e.r, e.n, e.c, e.k, e.l), e.p);
      FirstOfSpine(e.r, e.p);
      ghost var side := if e.p.Step? then e.p.side else L;
      if nodes[successor].parent == node {
        RelinkNeighbour(node, successor, e.l.id, Root(e.S().right), side);
      } else {
        RelinkFar(node, successor, e.l.id, e.r.id, e.SuccessorParent(), Root(e.S().right), side);
      }
      FocusPointers(m, r, Join(R, e.r, e.n, e.c, e.k, e.l), e.p);
      ExchangedAt(m, r, e, nodes, root);
    }

    /** A node with at most one child replaced by that child. */
    method Unlink(node: nat, ghost t: Tree, ghost p: Path) returns (child: nat)
      requires t.Fork? && t.id == node && At(nodes, root, t, p) && (t.left.Leaf? || t.right.Leaf?)
      modifies this`nodes, this`root
      ensures At(nodes, root, Heir(t), p) && child == Root(Heir(t))
      ensures node in nodes && nodes[node].color == t.color && nodes[node].parent == Parent(p)
    {
      ghost var m, r := nodes, root;
      UnlinkReady(m, r, t, p);
      child := if nodes[node].left != 0 then nodes[node].left else nodes[node].right;
      if child != 0 {
        nodes := nodes[child := nodes[child].(parent := nodes[node].parent)];
      }
      ReplaceChild(node, child);
      UnlinkedAt(m, r, t, p, nodes, root);
    }

    /** The node taken out at a focus where it has at most one child, and the fixups. */
    method RemoveHere(node: nat, ghost t: Tree, ghost p: Path) returns (ghost t': Tree)
      requires t.Fork? && t.id == node && At(nodes, root, t, p) && (t.left.Leaf? || t.right.Leaf?)
      requires Within(t, p) && (p.Step? || Heir(t).Fork?)
      modifies this`nodes, this`root
      ensures At(nodes, root, t', Top) && Rb(t') && !IsRed(t') && Entries(t') == Before(p) + Entries(Heir(t)) + After(p)
    {
      UnlinkedState(t, p);
      var child := Unlink(node, t, p);
      if nodes[node].color != Red {
        t' := RemoveFixups(child, nodes[node].parent, Heir(t), p, Before(p) + Entries(Heir(t)) + After(p));
      } else {
        ZipAt(nodes, root, Heir(t), p);
        t' := Zip(p, Heir(t));
      }
    }

    /** The relinking, when needed, and the removal. */
    method RemoveAt(node: nat, ghost t: Tree, ghost p: Path) returns (ghost t': Tree)
      requires t.Fork? && t.id == node && At(nodes, root, t, p) && Within(t, p)
      requires p.Step? || t.left.Fork? || t.right.Fork?
      modifies this`nodes, this`root
      ensures At(nodes, root, t', Top) && Rb(t') && !IsRed(t')
      ensures Entries(t') == Before(p) + Entries(t.left) + Entries(t.right) + After(p)
    {
      FocusPointers(nodes, root, t, p);
      LinksAt(nodes, t, Parent(p), L);
      IdsLinked(nodes, t.left, t.id);
      IdsLinked(nodes, t.right, t.id);
      RootInIds(t.left);
      RootInIds(t.right);
      if nodes[node].left != 0 && nodes[node].right != 0 {
        ghost var e := Exchange(t.left, t.id, t.color, t.key, t.right, p);
        JoinChild(t, R);
        Down(nodes, root, R, t.right, t.id, t.color, t.key, t.left, p);
        WithinDown(t, p, R);
        ExchangeWithin(e);
        ExchangeEntries(e);
        Relink(node, e);
        t' := RemoveHere(node, e.NewFocus(), e.NewPath());
      } else {
        LoneEntries(t, p);
        t' := RemoveHere(node, t, p);
      }
    }

    /** `remove`: exactly the given node goes, in whatever shape the tree is. */
    method Remove(node: nat) returns (ghost position: nat)
      requires Valid() && node in Ids(tree)
      modifies this
      ensures Valid() && RemovedAt(old(Entries(tree)), Entries(tree), node, position)
    {
      ghost var t, p := Locate(nodes, root, tree, Top, node);
      RemovedEntries(t, p);
      position := |Before(p)| + |Entries(t.left)|;
      ghost var before := Entries(tree);
      ghost var after := Before(p) + Entries(t.left) + Entries(t.right) + After(p);
      SortedWithout(before, after, node, position);
      if size == 1 {
        root, minimum, size, tree := 0, 0, 0, Leaf;
        assert Entries(tree) == after;
        return;
      }
      RemoveOneOfMore(node, t, p, after, position);
    }

    /** The removal of a node that is not the only one. */
    method RemoveOneOfMore(node: nat, ghost t: Tree, ghost p: Path, ghost after: seq<Entry>, ghost position: nat)
      requires Valid() && size > 1 && At(nodes, root, t, p) && Within(t, p) && t.Fork? && t.id == node && Zip(p, t) == tree
      requires after == Before(p) + Entries(t.left) + Entries(t.right) + After(p)
      requires RemovedAt(Entries(tree), after, node, position) && Sorted(after) && position == |Before(p)| + |Entries(t.left)|
      modifies this
      ensures Valid() && Entries(tree) == after
    {
      assert |after| == size - 1;
      MoveMinimum(node, t, p, after, position);
      AnotherEntry(t, p);
      tree := RemoveAt(node, t, p);
      size := size - 1;
      assert tree.Fork? by { assert Entries(Leaf) == []; }
    }

    /** The cached minimum, before the node is taken out. */
    method MoveMinimum(node: nat, ghost t: Tree, ghost p: Path, ghost after: seq<Entry>, ghost position: nat)
      requires At(nodes, root, t, p) && t.Fork? && t.id == node && after != [] && position == |Before(p)| + |Entries(t.left)|
      requires RemovedAt(Entries(Zip(p, t)), after, node, position) && minimum == Entries(Zip(p, t))[0].id
      modifies this`minimum
      ensures minimum == after[0].id
    {
      MinimumWithout(t, p, after);
      if minimum == node {
        minimum := Neighbour(R, node, t, p);
      }
    }
  }
}

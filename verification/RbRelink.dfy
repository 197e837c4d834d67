/** The exchange of a node with its successor that precedes a removal in AK/RedBlackTree.h: the two nodes trade
    places and colours by relinking, and nothing else moves. */
module RbRelink {
  import opened RbTrees
  import opened RbMemory
  import opened RbRotation

  // ---- the left spine of a tree: the way to its first node ----

  function SpineFocus(r: Tree): (t: Tree)
    requires r.Fork?
    ensures t.Fork? && t.left.Leaf?
  {
    if r.left.Leaf? then r else SpineFocus(r.left)
  }

  /** The path from the first node of r up to and including `base`. */
  function SpinePath(r: Tree, base: Path): Path
    requires r.Fork?
  {
    if r.left.Leaf? then base else SpinePath(r.left, Step(L, r.id, r.color, r.key, r.right, base))
  }

  /** What follows the subtree of the first node. */
  function SpineAfter(r: Tree): seq<Entry>
    requires r.Fork?
  {
    if r.left.Leaf? then [] else SpineAfter(r.left) + ([Entry(r.id, r.key)] + Entries(r.right))
  }

  function SpineIds(r: Tree): set<nat>
    requires r.Fork?
  {
    if r.left.Leaf? then {} else SpineIds(r.left) + ({r.id} + Ids(r.right))
  }

  lemma {:induction false} SpineEntries(r: Tree, base: Path)
    requires r.Fork?
    ensures Entries(r) == Entries(SpineFocus(r)) + SpineAfter(r)
    ensures Before(SpinePath(r, base)) == Before(base)
    ensures After(SpinePath(r, base)) == SpineAfter(r) + After(base)
    decreases r
  {
    if r.left.Leaf? {
      assert Entries(r) == Entries(r) + [];
      assert [] + After(base) == After(base);
    } else {
      var up := Step(L, r.id, r.color, r.key, r.right, base);
      SpineEntries(r.left, up);
      var e := [Entry(r.id, r.key)];
      Concat4(Entries(SpineFocus(r.left)), SpineAfter(r.left), e, Entries(r.right), After(base));
    }
  }

  lemma {:induction false} Concat4(a: seq<Entry>, b: seq<Entry>, e: seq<Entry>, c: seq<Entry>, d: seq<Entry>)
    ensures (a + b) + e + c == a + (b + (e + c))
    ensures b + ((e + c) + d) == (b + (e + c)) + d
  {
  }

  /** The spine asks the same of any base with the same colour, sibling and upper part. */
  lemma {:induction false} SpineRb(r: Tree, base: Path, base': Path, h: nat)
    requires r.Fork? && base.Step? && base'.Step?
    requires base.color == base'.color && base.sibling == base'.sibling && base.up == base'.up
    requires RbPath(SpinePath(r, base), h) && BlackTop(SpinePath(r, base))
    ensures RbPath(SpinePath(r, base'), h) && BlackTop(SpinePath(r, base'))
    ensures TopRed(SpinePath(r, base')) == TopRed(SpinePath(r, base)) && SpinePath(r, base').Step?
  {
    SpineSame(r, base, base', base, base');
    SameRb(SpinePath(r, base), SpinePath(r, base'), base, base', h);
  }

  /** The two paths differ only in who sits at the base. */
  ghost predicate SameSteps(p: Path, p': Path, base: Path, base': Path)
    requires base.Step? && base'.Step?
    decreases p
  {
    if p == base then p' == base'
    else p.Step? && p'.Step? && p'.color == p.color && p'.sibling == p.sibling && SameSteps(p.up, p'.up, base, base')
  }

  lemma {:induction false} SpineSame(r: Tree, b: Path, b': Path, base: Path, base': Path)
    requires r.Fork? && base.Step? && base'.Step? && SameSteps(b, b', base, base')
    requires Length(b) >= Length(base)
    ensures SameSteps(SpinePath(r, b), SpinePath(r, b'), base, base')
    decreases r
  {
    if r.left.Fork? {
      var s, s' := Step(L, r.id, r.color, r.key, r.right, b), Step(L, r.id, r.color, r.key, r.right, b');
      assert Length(s) > Length(base);
      SpineSame(r.left, s, s', base, base');
    }
  }

  lemma {:induction false} SameRb(p: Path, p': Path, base: Path, base': Path, h: nat)
    requires base.Step? && base'.Step? && SameSteps(p, p', base, base')
    requires base.color == base'.color && base.sibling == base'.sibling && base.up == base'.up
    requires RbPath(p, h) && BlackTop(p)
    ensures RbPath(p', h) && BlackTop(p') && TopRed(p') == TopRed(p) && p.Step? && p'.Step?
    decreases p
  {
    if p != base {
      assert p.up.Step? by { if p.up != base { assert p.up.Step?; } }
      SameRb(p.up, p'.up, base, base', h + Weight(p.color));
    }
  }

  // ---- the spine in memory ----

  /** The address below a base: the top of the spine, or its end when the spine is empty. */
  function SpineTop(r: Tree, end: nat): nat
    requires r.Fork?
  {
    if r.left.Leaf? then end else r.id
  }

  /** The spine of r laid out below `parent` and ending at `end`. */
  ghost predicate SpineLinks(m: Memory, r: Tree, parent: nat, end: nat)
    requires r.Fork?
  {
    r.left.Fork? ==>
      && r.id != 0 && r.id in m && m[r.id] == Node(SpineTop(r.left, end), Root(r.right), parent, r.color, r.key)
      && Links(m, r.right, r.id) && SpineLinks(m, r.left, r.id, end)
  }

  lemma {:induction false} SpineSplit(m: Memory, r: Tree, base: Path, end: nat, root: nat)
    requires r.Fork?
    ensures PathLinks(m, SpinePath(r, base), end, root)
       <==> SpineLinks(m, r, Parent(base), end) && PathLinks(m, base, SpineTop(r, end), root)
    decreases r
  {
    if r.left.Fork? {
      SpineSplit(m, r.left, Step(L, r.id, r.color, r.key, r.right, base), end, root);
    }
  }

  ghost predicate SpineDistinct(r: Tree)
    requires r.Fork?
  {
    r.left.Fork? ==>
      && SpineDistinct(r.left) && Distinct(r.right) && r.id !in Ids(r.right)
      && SpineIds(r.left) !! ({r.id} + Ids(r.right))
  }

  lemma {:induction false} SpineDistinctSplit(r: Tree, base: Path)
    requires r.Fork?
    ensures PathIds(SpinePath(r, base)) == SpineIds(r) + PathIds(base)
    ensures PathDistinct(SpinePath(r, base)) <==> SpineDistinct(r) && PathDistinct(base) && SpineIds(r) !! PathIds(base)
    decreases r
  {
    if r.left.Fork? {
      var up := Step(L, r.id, r.color, r.key, r.right, base);
      SpineDistinctSplit(r.left, up);
      assert PathIds(up) == {r.id} + Ids(r.right) + PathIds(base);
    }
  }

  /** The last node of the spine: the parent of the first node. */
  function SpineLast(r: Tree): nat
    requires r.Fork? && r.left.Fork?
  {
    if r.left.left.Leaf? then r.id else SpineLast(r.left)
  }

  /** The spine rehung below another parent and ending at another node. */
  lemma {:induction false} SpineRelinked(m: Memory, m': Memory, r: Tree, parent: nat, parent': nat, end: nat, end': nat)
    requires r.Fork? && SpineLinks(m, r, parent, end) && SpineDistinct(r)
    requires r.left.Fork? ==>
      forall i | i in SpineIds(r) && i in m && i != 0 ::
        i in m' && m'[i] == m[i].(parent := if i == r.id then parent' else m[i].parent,
                                  left := if i == SpineLast(r) then end' else m[i].left)
    ensures SpineLinks(m', r, parent', end')
    decreases r
  {
    if r.left.Fork? {
      SpineLastIn(r);
      assert r.id in SpineIds(r);
      LinksFrame(m, m', r.right, r.id);
      if r.left.left.Fork? {
        SpineLastIn(r.left);
        assert m[r.left.id].parent == r.id;
      }
      SpineRelinked(m, m', r.left, r.id, r.id, end, end');
    }
  }

  lemma {:induction false} SpineLastIn(r: Tree)
    requires r.Fork? && r.left.Fork? && SpineDistinct(r)
    ensures SpineLast(r) in SpineIds(r) && SpineLast(r) !in Ids(r.right)
    ensures r.left.left.Fork? ==> SpineLast(r) != r.id && SpineLast(r) == SpineLast(r.left)
  {
    if r.left.left.Fork? {
      SpineLastIn(r.left);
    }
  }

  // ---- the exchange ----

  /** The successor below its own right child only. */
  lemma {:induction false} DescendSpine(m: Memory, root: nat, r: Tree, base: Path)
    requires r.Fork? && At(m, root, r, base)
    ensures At(m, root, SpineFocus(r), SpinePath(r, base))
    decreases r
  {
    if r.left.Fork? {
      Down(m, root, L, r.left, r.id, r.color, r.key, r.right, base);
      DescendSpine(m, root, r.left, Step(L, r.id, r.color, r.key, r.right, base));
    }
  }

  /** The node with its two subtrees, its successor, and the path above: before and after the exchange. */
  datatype Exchange = Exchange(l: Tree, n: nat, c: Color, k: int, r: Tree, p: Path) {
    ghost predicate Proper() {
      l.Fork? && r.Fork?
    }
    /** The successor. */
    function S(): Tree
      requires r.Fork?
    {
      SpineFocus(r)
    }
    function Base(): Path {
      Step(R, n, c, k, l, p)
    }
    function NewBase(): Path
      requires r.Fork?
    {
      Step(R, S().id, c, S().key, l, p)
    }
    /** The node, now where its successor was. */
    function NewFocus(): Tree
      requires r.Fork?
    {
      Fork(Leaf, n, S().color, k, S().right)
    }
    function NewPath(): Path
      requires r.Fork?
    {
      SpinePath(r, NewBase())
    }
    /** The parent of the successor. */
    function SuccessorParent(): nat
      requires r.Fork?
    {
      if r.left.Leaf? then n else SpineLast(r)
    }
  }

  /** What the relinking does to the nodes around the two; `sp` is the successor's parent, the node itself for
      neighbours. */
  ghost predicate SurroundingsExchanged(m: Memory, m': Memory, n: nat, s: nat, ln: nat, rn: nat, sp: nat, rs: nat, pp: nat, pside: Side)
  {
    && ln in m && (rs != 0 ==> rs in m) && (pp != 0 ==> pp in m)
    && m'.Keys == m.Keys
    && m'[ln] == m[ln].(parent := s)
    && (rs != 0 ==> m'[rs] == m[rs].(parent := n))
    && (pp != 0 ==> m'[pp] == Set(m[pp], pside, s))
    && (forall i | i in m && i != n && i != s && i != ln && i != rs && i != pp ::
          m'[i] == if sp == n then m[i]
                   else m[i].(parent := if i == rn then s else m[i].parent, left := if i == sp then n else m[i].left))
  }

  /** The pointers once children and parent of n have turned to s. */
  ghost function TurnedAbove(m: Memory, n: nat, s: nat, ln: nat, rn: nat, pp: nat, pside: Side): Memory
    requires ln in m && rn in m && (pp != 0 ==> pp in m)
  {
    var m1 := m[ln := m[ln].(parent := s)][rn := m[rn].(parent := s)];
    if pp == 0 then m1 else m1[pp := Set(m[pp], pside, s)]
  }

  /** The other half: the heir of s and its parent turn to n. */
  lemma {:induction false} SurroundedFar(m: Memory, m1: Memory, m': Memory, n: nat, s: nat, ln: nat, rn: nat, sp: nat, rs: nat, pp: nat, pside: Side)
    requires ExchangeReady(m, n, s, ln, rn, sp, rs, pp, pside) && sp != n && m1 == TurnedAbove(m, n, s, ln, rn, pp, pside)
    requires var m2 := if rs == 0 then m1 else m1[rs := m1[rs].(parent := n)];
             m' == m2[sp := m2[sp].(left := n)]
    ensures SurroundingsExchanged(m, m', n, s, ln, rn, sp, rs, pp, pside) && m'[n] == m[n] && m'[s] == m[s]
  {
  }

  /** What the relinking does to the pointers. */
  ghost predicate PointersExchanged(m: Memory, m': Memory, n: nat, s: nat, ln: nat, rn: nat, sp: nat, rs: nat, pp: nat, pside: Side)
  {
    && n in m && s in m && rn in m && sp in m
    && SurroundingsExchanged(m, m', n, s, ln, rn, sp, rs, pp, pside)
    && m'[s] == Node(ln, if sp == n then n else rn, pp, m[n].color, m[s].key)
    && m'[n] == Node(0, rs, if sp == n then s else sp, m[s].color, m[n].key)
  }

  /** The last step of the relinking touches the two nodes only. */
  lemma {:induction false} ExchangeEnds(m: Memory, m1: Memory, m': Memory, n: nat, s: nat, ln: nat, rn: nat, sp: nat, rs: nat, pp: nat, pside: Side)
    requires ExchangeReady(m, n, s, ln, rn, sp, rs, pp, pside)
    requires SurroundingsExchanged(m, m1, n, s, ln, rn, sp, rs, pp, pside)
    requires m' == m1[n := Node(0, rs, if sp == n then s else sp, m[s].color, m[n].key)]
                     [s := Node(ln, if sp == n then n else rn, pp, m[n].color, m[s].key)]
    ensures PointersExchanged(m, m', n, s, ln, rn, sp, rs, pp, pside)
  {
  }

  /** What the relinking may rely on: who is who, and that no two of them coincide. */
  ghost predicate ExchangeReady(m: Memory, n: nat, s: nat, ln: nat, rn: nat, sp: nat, rs: nat, pp: nat, pside: Side)
  {
    && n in m && s in m && ln in m && rn in m && sp in m && (rs != 0 ==> rs in m) && (pp != 0 ==> pp in m)
    && n != 0 && s != 0 && ln != 0 && rn != 0 && sp != 0
    && n != s && ln != n && ln != s && ln != rn && ln != sp && ln != rs && ln != pp
    && rn != n && sp != s && rs != n && rs != s && rs != rn && rs != sp
    && pp != n && pp != s && pp != rn && pp != sp && (pp != 0 ==> pp != rs)
    && m[n].left == ln && m[n].right == rn && m[n].parent == pp
    && m[s].left == 0 && m[s].right == rs && m[s].parent == sp
    && (sp == n ==> rn == s) && (sp != n ==> rn != s && m[sp].left == s)
    && (pp != 0 ==> Get(m[pp], pside) == n && Get(m[pp], Other(pside)) != n)
  }

  ghost predicate Exchanged(m: Memory, m': Memory, e: Exchange)
    requires e.Proper()
  {
    PointersExchanged(m, m', e.n, e.S().id, e.l.id, e.r.id, e.SuccessorParent(), Root(e.S().right), Parent(e.p),
                      if e.p.Step? then e.p.side else L)
  }

  /** The focus on the successor, with everything known about addresses spelled out. */
  lemma {:induction false} ExchangeFacts(m: Memory, root: nat, e: Exchange)
    requires e.Proper() && At(m, root, e.r, e.Base())
    ensures var s := e.S();
            && At(m, root, s, SpinePath(e.r, e.Base()))
            && SpineLinks(m, e.r, e.n, s.id) && PathLinks(m, e.Base(), SpineTop(e.r, s.id), root)
            && SpineDistinct(e.r) && PathDistinct(e.Base()) && SpineIds(e.r) !! PathIds(e.Base())
            && Distinct(s) && Ids(s) !! SpineIds(e.r) && Ids(s) !! PathIds(e.Base())
  {
    DescendSpine(m, root, e.r, e.Base());
    SpineSplit(m, e.r, e.Base(), e.S().id, root);
    SpineDistinctSplit(e.r, e.Base());
  }

  lemma {:induction false} SpineParents(m: Memory, r: Tree, parent: nat, end: nat)
    requires r.Fork? && r.left.Fork? && SpineLinks(m, r, parent, end)
    ensures SpineLast(r) in SpineIds(r) && SpineLast(r) in m && SpineLast(r) != 0 && m[SpineLast(r)].left == end
  {
    if r.left.left.Fork? {
      SpineParents(m, r.left, r.id, end);
    }
  }

  /** The path's first step, for the focus at the end of the spine. */
  lemma {:induction false} SpineParent(r: Tree, base: Path)
    requires r.Fork? && base.Step?
    ensures Parent(SpinePath(r, base)) == if r.left.Leaf? then base.id else SpineLast(r)
    decreases r
  {
    if r.left.Fork? {
      SpineParent(r.left, Step(L, r.id, r.color, r.key, r.right, base));
    }
  }

  lemma {:induction false} ExchangeIsReady(m: Memory, root: nat, e: Exchange)
    requires e.Proper() && At(m, root, e.r, e.Base())
    ensures ExchangeReady(m, e.n, e.S().id, e.l.id, e.r.id, e.SuccessorParent(), Root(e.S().right), Parent(e.p),
                          if e.p.Step? then e.p.side else L)
  {
    var s := e.S();
    ExchangeFacts(m, root, e);
    SpineParent(e.r, e.Base());
    LinksAt(m, s, e.SuccessorParent(), L);
    RootInIds(e.l);
    RootInIds(s.right);
    IdsLinked(m, s.right, s.id);
    IdsLinked(m, e.l, e.n);
    FocusPointers(m, root, e.r, e.Base());
    if e.r.left.Fork? {
      SpineParents(m, e.r, e.n, s.id);
    }
    if e.p.Step? {
      UpOne(m, root, e.r, e.Base());
      FocusPointers(m, root, Join(R, e.r, e.n, e.c, e.k, e.l), e.p);
    }
  }

  /** After the relinking the node has its successor's place and colour, and the successor the node's. */
  lemma {:induction false} ExchangedAt(m: Memory, root: nat, e: Exchange, m': Memory, root': nat)
    requires e.Proper() && At(m, root, e.r, e.Base()) && Exchanged(m, m', e)
    requires root' == if e.p.Top? then e.S().id else root
    ensures At(m', root', e.NewFocus(), e.NewPath())
  {
    var s := e.S();
    ExchangeIsReady(m, root, e);
    ExchangeFacts(m, root, e);
    SpineParent(e.r, e.Base());
    SpineParent(e.r, e.NewBase());
    ExchangedLinks(m, root, e, m');
    ExchangedSpine(m, root, e, m');
    ExchangedBase(m, root, e, m', root');
    ExchangedDistinct(m, root, e);
    SpineSplit(m', e.r, e.NewBase(), e.n, root');
    SpineDistinctSplit(e.r, e.NewBase());
  }

  lemma {:induction false} ExchangedLinks(m: Memory, root: nat, e: Exchange, m': Memory)
    requires e.Proper() && At(m, root, e.r, e.Base()) && Exchanged(m, m', e)
    ensures Links(m', e.NewFocus(), if e.r.left.Leaf? then e.S().id else SpineLast(e.r))
    ensures Distinct(e.NewFocus())
  {
    var s := e.S();
    ExchangeIsReady(m, root, e);
    ExchangeFacts(m, root, e);
    FocusPointers(m, root, e.r, e.Base());
    SpineParent(e.r, e.Base());
    LinksAt(m, s, e.SuccessorParent(), L);
    DistinctAt(s, L);
    SuccessorIds(e);
    RehungLinks(m, m', s.right, s.id, e.n);
  }

  lemma {:induction false} SuccessorIds(e: Exchange)
    requires e.Proper()
    ensures Ids(e.S()) == {e.S().id} + Ids(e.S().right)
    ensures PathIds(e.Base()) == {e.n} + Ids(e.l) + PathIds(e.p)
    ensures e.l.id in Ids(e.l) && (e.p.Step? ==> e.p.id in PathIds(e.p))
    ensures e.r.left.Fork? ==> e.r.id in SpineIds(e.r)
    ensures e.S().right.Fork? ==> e.S().right.id in Ids(e.S().right)
  {
    RootInIds(e.l);
    RootInIds(e.S().right);
  }

  lemma {:induction false} ExchangedSpine(m: Memory, root: nat, e: Exchange, m': Memory)
    requires e.Proper() && At(m, root, e.r, e.Base()) && Exchanged(m, m', e)
    ensures SpineLinks(m', e.r, e.S().id, e.n)
  {
    var s := e.S();
    if e.r.left.Fork? {
      ExchangeIsReady(m, root, e);
      ExchangeFacts(m, root, e);
      SuccessorIds(e);
      SpineParents(m, e.r, e.n, s.id);
      SpineRelinked(m, m', e.r, e.n, s.id, s.id, e.n);
    }
  }

  /** Around the node only its left child and its parent change. */
  lemma {:induction false} ExchangedOther(m: Memory, root: nat, e: Exchange, m': Memory, i: nat)
    requires e.Proper() && At(m, root, e.r, e.Base()) && Exchanged(m, m', e)
    requires i in Ids(e.l) + PathIds(e.p) && i != e.l.id && i != Parent(e.p) && i != 0 && i in m
    ensures i in m' && m'[i] == m[i]
  {
    ExchangeFacts(m, root, e);
    SuccessorIds(e);
    if e.r.left.Fork? {
      SpineParents(m, e.r, e.n, e.S().id);
    }
  }

  lemma {:induction false} ExchangePayload(m: Memory, root: nat, e: Exchange)
    requires e.Proper() && At(m, root, e.r, e.Base())
    ensures e.S().id in m && m[e.S().id].key == e.S().key && e.n in m && m[e.n].color == e.c
    ensures e.SuccessorParent() == e.n <==> e.r.left.Leaf?
  {
    ExchangeFacts(m, root, e);
    FocusPointers(m, root, e.S(), SpinePath(e.r, e.Base()));
    FocusPointers(m, root, e.r, e.Base());
    SuccessorIds(e);
    if e.r.left.Fork? {
      SpineParents(m, e.r, e.n, e.S().id);
    }
  }

  lemma {:induction false} ExchangedBase(m: Memory, root: nat, e: Exchange, m': Memory, root': nat)
    requires e.Proper() && At(m, root, e.r, e.Base()) && Exchanged(m, m', e)
    requires root' == if e.p.Top? then e.S().id else root
    ensures PathLinks(m', e.NewBase(), SpineTop(e.r, e.n), root')
  {
    ExchangeIsReady(m, root, e);
    forall i | i in Ids(e.l) + PathIds(e.p) && i != e.l.id && i != Parent(e.p) && i != 0 && i in m
      ensures i in m' && m'[i] == m[i]
    {
      ExchangedOther(m, root, e, m', i);
    }
    RootInIds(e.l);
    ExchangePayload(m, root, e);
    assert PathLinks(m, e.Base(), e.r.id, root) && PathDistinct(e.Base());
    assert PathLinks(m, e.p, e.n, root) && PathDistinct(e.p) && Ids(e.l) !! PathIds(e.p);
    RehungLinks(m, m', e.l, e.n, e.S().id);
    if e.p.Step? {
      LinksFrame(m, m', e.p.sibling, e.p.id);
      PathFrame(m, m', e.p.up, e.p.id, root);
    }
  }

  lemma {:induction false} ExchangedDistinct(m: Memory, root: nat, e: Exchange)
    requires e.Proper() && At(m, root, e.r, e.Base())
    ensures PathDistinct(e.NewBase()) && SpineIds(e.r) !! PathIds(e.NewBase())
    ensures Ids(e.NewFocus()) !! (SpineIds(e.r) + PathIds(e.NewBase()))
  {
    ExchangeFacts(m, root, e);
    SuccessorIds(e);
    DistinctAt(e.S(), L);
    assert Ids(e.NewFocus()) == {e.n} + Ids(e.S().right);
    assert PathIds(e.NewBase()) == {e.S().id} + Ids(e.l) + PathIds(e.p);
  }
}

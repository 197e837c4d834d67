/** Whole runs of the red-black tree against a plain sorted sequence of keys. */
module RbRun {
  import opened RbTrees
  import opened RbMemory
  import opened RbInsert
  import opened RbSearch
  import opened RbUnlink
  import opened RedBlackTree

  // ---- the reference ----

  function InsertSorted(s: seq<int>, key: int): seq<int> {
    if s == [] || key < s[0] then [key] + s else [s[0]] + InsertSorted(s[1..], key)
  }

  function RemoveSorted(s: seq<int>, key: int): seq<int> {
    if s == [] then [] else if s[0] == key then s[1..] else [s[0]] + RemoveSorted(s[1..], key)
  }

  datatype Operation = InsertOp(key: int) | RemoveOp(key: int)

  function Apply(s: seq<int>, op: Operation): seq<int> {
    match op
    case InsertOp(key) => InsertSorted(s, key)
    case RemoveOp(key) => RemoveSorted(s, key)
  }

  function ApplyAll(s: seq<int>, ops: seq<Operation>): seq<int>
    decreases ops
  {
    if ops == [] then s else ApplyAll(Apply(s, ops[0]), ops[1..])
  }

  ghost function Keys(e: seq<Entry>): (s: seq<int>)
    ensures |s| == |e| && forall i | 0 <= i < |e| :: s[i] == e[i].key
  {
    seq(|e|, i requires 0 <= i < |e| => e[i].key)
  }

  lemma {:induction false} InsertSortedAt(s: seq<int>, key: int, i: nat)
    requires i <= |s| && (forall j | 0 <= j < i :: s[j] <= key) && (forall j | i <= j < |s| :: s[j] > key)
    ensures InsertSorted(s, key) == s[..i] + [key] + s[i..]
    decreases s
  {
    if i > 0 {
      InsertSortedAt(s[1..], key, i - 1);
      assert s[..i] + [key] + s[i..] == [s[0]] + (s[1..][..i - 1] + [key] + s[1..][i - 1..]);
    } else {
      assert s[..0] + [key] + s[0..] == [key] + s;
    }
  }

  lemma {:induction false} RemoveSortedAt(s: seq<int>, key: int, i: nat)
    requires i < |s| && s[i] == key && forall j, k | 0 <= j < k < |s| :: s[j] <= s[k]
    ensures RemoveSorted(s, key) == s[..i] + s[i + 1..]
    decreases s
  {
    if i > 0 {
      RemoveSortedAt(s[1..], key, i - 1);
      var rest := s[1..][..i - 1] + s[1..][i..];
      assert s[..i] + s[i + 1..] == [s[0]] + rest;
      if s[0] == key {
        EqualPrefix(s, key, i);
      }
    }
  }

  /** Among equal keys it does not matter which one goes. */
  lemma {:induction false} EqualPrefix(s: seq<int>, key: int, i: nat)
    requires i < |s| && s[0] == key && s[i] == key && forall j, k | 0 <= j < k < |s| :: s[j] <= s[k]
    ensures s[..i] + s[i + 1..] == s[1..]
  {
    forall j | 0 <= j <= i ensures s[j] == key {
    }
  }

  lemma {:induction false} RemoveSortedAbsent(s: seq<int>, key: int)
    requires key !in s
    ensures RemoveSorted(s, key) == s
    decreases s
  {
    if s != [] {
      RemoveSortedAbsent(s[1..], key);
    }
  }

  lemma {:induction false} InsertedKeys(before: seq<Entry>, after: seq<Entry>, x: Entry, i: nat)
    requires InsertedAt(before, after, x, i)
    ensures Keys(after) == InsertSorted(Keys(before), x.key) && IdsOf(after) <= IdsOf(before) + {x.id}
  {
    InsertSortedAt(Keys(before), x.key, i);
  }

  lemma {:induction false} RemovedKeys(before: seq<Entry>, after: seq<Entry>, id: nat, i: nat)
    requires RemovedAt(before, after, id, i) && Sorted(before)
    ensures Keys(after) == RemoveSorted(Keys(before), before[i].key) && IdsOf(after) <= IdsOf(before)
  {
    RemoveSortedAt(Keys(before), before[i].key, i);
  }

  /** The nodes in memory hold the keys of the entries. */
  lemma {:induction false} EntryKeys(m: Memory, t: Tree, parent: nat)
    requires Links(m, t, parent)
    ensures forall e | e in Entries(t) :: e.id in m && m[e.id].key == e.key && e.id in Ids(t)
    decreases t
  {
    if t.Fork? {
      EntryKeys(m, t.left, t.id);
      EntryKeys(m, t.right, t.id);
    }
  }

  // ---- the operations of the keyed tree ----

  /** `try_insert` of `RedBlackTree`: a new node at an address the tree does not use. */
  method InsertKey(t: BaseRedBlackTree, key: int, node: nat) returns (ghost i: nat)
    requires t.Valid() && node != 0 && node !in Ids(t.tree)
    modifies t
    ensures t.Valid() && Keys(Entries(t.tree)) == InsertSorted(old(Keys(Entries(t.tree))), key)
    ensures Ids(t.tree) <= old(Ids(t.tree)) + {node}
    ensures InsertedAt(old(Entries(t.tree)), Entries(t.tree), Entry(node, key), i)
  {
    ghost var before := Entries(t.tree);
    IdsOfEntries(t.tree);
    Fresh(t.nodes, t.root, t.tree, node, key);
    t.nodes := t.nodes[node := Node(0, 0, 0, Red, key)];
    i := t.Insert(node);
    InsertedKeys(before, Entries(t.tree), Entry(node, key), i);
    IdsOfEntries(t.tree);
  }

  lemma {:induction false} Fresh(m: Memory, root: nat, t: Tree, node: nat, key: int)
    requires At(m, root, t, Top) && node !in Ids(t)
    ensures At(m[node := Node(0, 0, 0, Red, key)], root, t, Top)
  {
    LinksFrame(m, m[node := Node(0, 0, 0, Red, key)], t, 0);
  }

  ghost function IdsOf(e: seq<Entry>): set<nat> {
    set x | x in e :: x.id
  }

  lemma {:induction false} IdsOfEntries(t: Tree)
    ensures Ids(t) == IdsOf(Entries(t))
  {
    if t.Fork? {
      IdsOfEntries(t.left);
      IdsOfEntries(t.right);
      var l, x, r := Entries(t.left), Entry(t.id, t.key), Entries(t.right);
      forall i | i in Ids(t) ensures i in IdsOf(Entries(t)) {
        if i in Ids(t.left) {
          var e :| e in l && e.id == i;
          assert e in Entries(t);
        } else if i in Ids(t.right) {
          var e :| e in r && e.id == i;
          assert e in Entries(t);
        } else {
          assert x in Entries(t);
        }
      }
    }
  }

  /** `remove` of `RedBlackTree`. */
  method RemoveKey(t: BaseRedBlackTree, key: int) returns (removed: bool, ghost node: nat, ghost i: nat)
    requires t.Valid()
    modifies t
    ensures t.Valid() && Keys(Entries(t.tree)) == RemoveSorted(old(Keys(Entries(t.tree))), key)
    ensures removed == (key in old(Keys(Entries(t.tree)))) && Ids(t.tree) <= old(Ids(t.tree))
    ensures if removed then Topmost(old(t.tree), key, node) && RemovedAt(old(Entries(t.tree)), Entries(t.tree), node, i)
            else Entries(t.tree) == old(Entries(t.tree))
  {
    ghost var before := Entries(t.tree);
    var found;
    ghost var steps;
    found, steps := t.Find(key);
    node, i := found, 0;
    EntriesNotNull(t.nodes, t.tree, 0);
    FoundKey(before, key, node);
    removed := found != 0;
    if removed {
      IdsOfEntries(t.tree);
      FoundNode(t.nodes, t.tree, key, node);
      i := t.Remove(found);
      IdsOfEntries(t.tree);
      RemovedKeys(before, Entries(t.tree), node, i);
    } else {
      RemoveSortedAbsent(Keys(before), key);
    }
  }

  /** A node that was found is in the tree, and every entry with its address has the key. */
  lemma {:induction false} FoundNode(m: Memory, t: Tree, key: int, node: nat)
    requires Links(m, t, 0) && Found(Entries(t), key, node) && node != 0
    ensures node in Ids(t) && forall i | 0 <= i < |Entries(t)| && Entries(t)[i].id == node :: Entries(t)[i].key == key
  {
    EntryKeys(m, t, 0);
    forall i | 0 <= i < |Entries(t)| && Entries(t)[i].id == node ensures Entries(t)[i].key == key {
      assert Entries(t)[i] in Entries(t);
    }
  }

  lemma {:induction false} FoundKey(e: seq<Entry>, key: int, node: nat)
    requires Found(e, key, node) && forall x | x in e :: x.id != 0
    ensures key in Keys(e) <==> node != 0
  {
    if node != 0 {
      var i :| 0 <= i < |e| && e[i] == Entry(node, key);
      assert Keys(e)[i] == key;
    }
  }

  lemma {:induction false} EntryAt(t: Tree, k: nat)
    requires t.Fork? && k < |Entries(t)|
    ensures var n := |Entries(t.left)|;
            Entries(t)[k] == if k < n then Entries(t.left)[k] else if k == n then Entry(t.id, t.key) else Entries(t.right)[k - n - 1]
  {
  }

  /** No node occurs twice in order. */
  lemma {:induction false} IdOnce(t: Tree, i: nat, j: nat)
    requires Distinct(t) && i < j < |Entries(t)|
    ensures Entries(t)[i].id != Entries(t)[j].id
    decreases t
  {
    var n := |Entries(t.left)|;
    EntryAt(t, i);
    EntryAt(t, j);
    if j < n {
      IdOnce(t.left, i, j);
    } else if i > n {
      IdOnce(t.right, i - n - 1, j - n - 1);
    } else {
      EntryIds(t.left);
      EntryIds(t.right);
      assert i < n ==> Entries(t.left)[i] in Entries(t.left);
      assert j > n ==> Entries(t.right)[j - n - 1] in Entries(t.right);
    }
  }

  /** Iterating from the cached minimum. */
  method InOrder(t: BaseRedBlackTree) returns (keys: seq<int>)
    requires t.Valid()
    ensures keys == Keys(Entries(t.tree))
  {
    keys := [];
    var node := t.minimum;
    ghost var e := Entries(t.tree);
    EntryKeys(t.nodes, t.tree, 0);
    EntriesNotNull(t.nodes, t.tree, 0);
    while node != 0
      invariant |keys| <= |e| && keys == Keys(e)[..|keys|]
      invariant node == if |keys| < |e| then e[|keys|].id else 0
      decreases |e| - |keys|
    {
      assert e[|keys|] in e;
      var next;
      ghost var i;
      next, i := t.Successor(node);
      if i < |keys| { IdOnce(t.tree, i, |keys|); } else if |keys| < i { IdOnce(t.tree, |keys|, i); }
      keys := keys + [t.nodes[node].key];
      node := next;
    }
  }

  /** Any run from an empty tree, read back in order, gives the sorted sequence of the keys that should be left, and a
      search finds a key exactly when it is there. */
  method Run(ops: seq<Operation>, key: int) returns (keys: seq<int>, found: bool)
    ensures keys == ApplyAll([], ops) && found == (key in ApplyAll([], ops))
  {
    var t := new BaseRedBlackTree();
    var i := 0;
    assert ops[0..] == ops && Keys([]) == [];
    while i < |ops|
      invariant 0 <= i <= |ops| && fresh(t) && t.Valid()
      invariant forall x | x in Ids(t.tree) :: x <= i
      invariant ApplyAll(Keys(Entries(t.tree)), ops[i..]) == ApplyAll([], ops)
    {
      ghost var rest, i' := ops[i..], i + 1;
      assert rest[0] == ops[i] && rest[1..] == ops[i'..];
      match ops[i] {
        case InsertOp(k) =>
          ghost var position := InsertKey(t, k, i + 1);
        case RemoveOp(k) =>
          var removed;
          ghost var node, position;
          removed, node, position := RemoveKey(t, k);
      }
      i := i + 1;
    }
    assert ops[i..] == [];
    keys := InOrder(t);
    var node;
    ghost var steps;
    node, steps := t.Find(key);
    EntriesNotNull(t.nodes, t.tree, 0);
    FoundKey(Entries(t.tree), key, node);
    found := node != 0;
  }
}

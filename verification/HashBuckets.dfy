/** The ordered buckets of AK/HashTable.h and the list threaded through them. Buckets are addressed by their index;
    the local `bucket_to_move` of an insertion, which the list passes through while it is held, has the address right
    after the last bucket. */
module HashBuckets {

  type Key(==, 0)

  /** A stored value. Traits compare and hash it by its key alone. */
  datatype Entry = Entry(key: Key, value: int)

  const NULL: int := -1
  const FREE: nat := 0
  const CALCULATE_LENGTH: nat := 255

  datatype Bucket = Bucket(previous: int, next: int, state: nat, hash: nat, slot: Entry)

  // ---- the list ----

  function At(l: seq<int>, k: int): int {
    if 0 <= k < |l| then l[k] else NULL
  }

  ghost predicate LinkedAt(c: seq<Bucket>, l: seq<int>, k: int)
    requires 0 <= k < |l|
  {
    0 <= l[k] < |c| && c[l[k]].next == At(l, k + 1) && c[l[k]].previous == At(l, k - 1)
  }

  /** Following the links visits exactly the addresses of l, forwards and backwards. */
  ghost predicate Chain(c: seq<Bucket>, l: seq<int>, head: int, tail: int) {
    && (forall k | 0 <= k < |l| :: LinkedAt(c, l, k))
    && (forall j, k | 0 <= j < k < |l| :: l[j] != l[k])
    && head == At(l, 0) && tail == At(l, |l| - 1)
  }

  ghost predicate InRange(c: seq<Bucket>, l: seq<int>) {
    forall k | 0 <= k < |l| :: 0 <= l[k] < |c|
  }

  /** The stored values in list order. */
  ghost function Contents(c: seq<Bucket>, l: seq<int>): seq<Entry>
    requires InRange(c, l)
  {
    seq(|l|, k requires 0 <= k < |l| => c[l[k]].slot)
  }

  /** Nothing but links differs. */
  ghost predicate SamePayload(c: seq<Bucket>, c': seq<Bucket>) {
    && |c'| == |c|
    && forall i | 0 <= i < |c| :: c'[i] == c[i].(previous := c'[i].previous, next := c'[i].next)
  }

  // ---- two addresses trading places ----

  function Swap(left: int, right: int, i: int): int {
    if i == left then right else if i == right then left else i
  }

  ghost function Swapped(l: seq<int>, left: int, right: int): (r: seq<int>)
    ensures |r| == |l| && forall k | 0 <= k < |l| :: r[k] == Swap(left, right, l[k])
  {
    seq(|l|, k requires 0 <= k < |l| => Swap(left, right, l[k]))
  }

  /** The contents of two cells have traded places (or the first was copied over the second, unlisted one), and no
      link knows yet. */
  ghost predicate Exchanged(c: seq<Bucket>, c': seq<Bucket>, l: seq<int>, left: int, right: int) {
    && |c'| == |c| && 0 <= left < |c| && 0 <= right < |c| && left != right && left in l
    && (forall i | 0 <= i < |c| && i != left && i != right :: c'[i].previous == c[i].previous && c'[i].next == c[i].next)
    && c'[right].previous == c[left].previous && c'[right].next == c[left].next
    && var from := if right in l then right else left;
       c'[left].previous == c[from].previous && c'[left].next == c[from].next
  }

  /** Every link names the new address. */
  ghost predicate Renamed(c: seq<Bucket>, c': seq<Bucket>, l: seq<int>, left: int, right: int) {
    && |c'| == |c| && left != right && 0 <= left < |c| && 0 <= right < |c|
    && forall i | i in l :: 0 <= i < |c| &&
         c'[Swap(left, right, i)].previous == Swap(left, right, c[i].previous) &&
         c'[Swap(left, right, i)].next == Swap(left, right, c[i].next)
  }

  lemma {:induction false} RenamedChain(c: seq<Bucket>, c': seq<Bucket>, l: seq<int>, left: int, right: int, head: int, tail: int)
    requires Chain(c, l, head, tail) && Renamed(c, c', l, left, right)
    ensures Chain(c', Swapped(l, left, right), Swap(left, right, head), Swap(left, right, tail))
  {
    var r := Swapped(l, left, right);
    forall k | 0 <= k < |r| ensures LinkedAt(c', r, k) {
      assert LinkedAt(c, l, k);
      assert l[k] in l;
    }
    assert |l| > 0 ==> LinkedAt(c, l, 0) && LinkedAt(c, l, |l| - 1);
  }

  /** What a chain says about one of its addresses. */
  lemma {:induction false} Neighbours(c: seq<Bucket>, l: seq<int>, head: int, tail: int, i: int)
    requires Chain(c, l, head, tail) && i in l
    ensures 0 <= i < |c| && c[i].previous != i && c[i].next != i && (c[i].previous == c[i].next ==> c[i].next == NULL)
    ensures c[i].previous == NULL <==> i == head
    ensures c[i].next == NULL <==> i == tail
    ensures c[i].previous != NULL ==> 0 <= c[i].previous < |c| && c[i].previous in l && c[c[i].previous].next == i
    ensures c[i].next != NULL ==> 0 <= c[i].next < |c| && c[i].next in l && c[c[i].next].previous == i
  {
    var k :| 0 <= k < |l| && l[k] == i;
    assert LinkedAt(c, l, k);
    assert k > 0 ==> LinkedAt(c, l, k - 1);
    assert k + 1 < |l| ==> LinkedAt(c, l, k + 1);
  }

  /** The neighbours p and n of an address made to point back at it. */
  ghost predicate PointedBack(c: seq<Bucket>, c': seq<Bucket>, i: int, p: int, n: int) {
    && SamePayload(c, c')
    && (forall x | 0 <= x < |c| ::
          c'[x].next == (if x == p then i else c[x].next) && c'[x].previous == (if x == n then i else c[x].previous))
  }

  /** The first round: the left address keeps no link to itself, and its neighbours point back at it. */
  ghost predicate LeftDone(c: seq<Bucket>, c': seq<Bucket>, left: int, right: int)
    requires 0 <= left < |c|
  {
    var p := if c[left].previous == left then right else c[left].previous;
    var n := if c[left].next == left then right else c[left].next;
    && PointedBack(c[left := c[left].(previous := p, next := n)], c', left, p, n)
    && c'[left].previous == p && c'[left].next == n
  }

  /** Its two halves. */
  ghost predicate PreviousBack(c: seq<Bucket>, c': seq<Bucket>, left: int, right: int)
    requires 0 <= left < |c|
  {
    var p := if c[left].previous == left then right else c[left].previous;
    PointedBack(c[left := c[left].(previous := p)], c', left, p, NULL)
  }

  ghost predicate NextBack(c: seq<Bucket>, c': seq<Bucket>, left: int, right: int)
    requires 0 <= left < |c|
  {
    var n := if c[left].next == left then right else c[left].next;
    PointedBack(c[left := c[left].(next := n)], c', left, NULL, n)
  }

  lemma {:induction false} LeftRounds(c: seq<Bucket>, c1: seq<Bucket>, c2: seq<Bucket>, left: int, right: int)
    requires 0 <= left < |c| && 0 <= right < |c| && left != right
    requires PreviousBack(c, c1, left, right) && NextBack(c1, c2, left, right)
    ensures LeftDone(c, c2, left, right)
  {
  }

  /** The second round: so do the neighbours of the right address other than the left one. */
  ghost predicate RightDone(c: seq<Bucket>, c': seq<Bucket>, left: int, right: int)
    requires 0 <= right < |c|
  {
    PointedBack(c, c', right, if c[right].previous == left then NULL else c[right].previous,
                if c[right].next == left then NULL else c[right].next)
  }

  /** Both rounds complete the renaming. */
  lemma {:induction false} BothPointedBack(c: seq<Bucket>, c1: seq<Bucket>, c2: seq<Bucket>, c3: seq<Bucket>, l: seq<int>,
                                           left: int, right: int, head: int, tail: int)
    requires Chain(c, l, head, tail) && Exchanged(c, c1, l, left, right)
    requires LeftDone(c1, c2, left, right) && RightDone(c2, c3, left, right)
    ensures Renamed(c, c3, l, left, right)
  {
    Neighbours(c, l, head, tail, left);
    forall i | i in l
      ensures 0 <= i < |c|
      ensures c3[Swap(left, right, i)].previous == Swap(left, right, c[i].previous)
      ensures c3[Swap(left, right, i)].next == Swap(left, right, c[i].next)
    {
      Neighbours(c, l, head, tail, i);
      PreviousRenamed(c, c1, c2, c3, l, left, right, head, tail, i);
      NextRenamed(c, c1, c2, c3, l, left, right, head, tail, i);
    }
  }

  lemma {:induction false} PreviousRenamed(c: seq<Bucket>, c1: seq<Bucket>, c2: seq<Bucket>, c3: seq<Bucket>, l: seq<int>,
                                           left: int, right: int, head: int, tail: int, i: int)
    requires Chain(c, l, head, tail) && Exchanged(c, c1, l, left, right) && i in l && 0 <= i < |c|
    requires LeftDone(c1, c2, left, right) && RightDone(c2, c3, left, right)
    ensures c3[Swap(left, right, i)].previous == Swap(left, right, c[i].previous)
  {
    Neighbours(c, l, head, tail, left);
    if right in l {
      Neighbours(c, l, head, tail, right);
    }
    Neighbours(c, l, head, tail, i);
  }

  lemma {:induction false} NextRenamed(c: seq<Bucket>, c1: seq<Bucket>, c2: seq<Bucket>, c3: seq<Bucket>, l: seq<int>,
                                       left: int, right: int, head: int, tail: int, i: int)
    requires Chain(c, l, head, tail) && Exchanged(c, c1, l, left, right) && i in l && 0 <= i < |c|
    requires LeftDone(c1, c2, left, right) && RightDone(c2, c3, left, right)
    ensures c3[Swap(left, right, i)].next == Swap(left, right, c[i].next)
  {
    Neighbours(c, l, head, tail, left);
    if right in l {
      Neighbours(c, l, head, tail, right);
    }
    Neighbours(c, l, head, tail, i);
  }

  lemma {:induction false} RoundsKeepPayload(c1: seq<Bucket>, c2: seq<Bucket>, c3: seq<Bucket>, left: int, right: int)
    requires 0 <= left < |c1| && 0 <= right < |c1| && LeftDone(c1, c2, left, right) && RightDone(c2, c3, left, right)
    ensures SamePayload(c1, c3)
  {
  }

  lemma {:induction false} SwapCompleted(c: seq<Bucket>, c1: seq<Bucket>, c2: seq<Bucket>, c3: seq<Bucket>, l: seq<int>,
                                         left: int, right: int, head: int, tail: int)
    requires Chain(c, l, head, tail) && Exchanged(c, c1, l, left, right)
    requires LeftDone(c1, c2, left, right) && RightDone(c2, c3, left, right)
    ensures Chain(c3, Swapped(l, left, right), Swap(left, right, head), Swap(left, right, tail)) && SamePayload(c1, c3)
  {
    BothPointedBack(c, c1, c2, c3, l, left, right, head, tail);
    RoundsKeepPayload(c1, c2, c3, left, right);
    RenamedChain(c, c3, l, left, right, head, tail);
  }

  lemma {:induction false} SwapInRange(c: seq<Bucket>, c1: seq<Bucket>, l: seq<int>, left: int, right: int, head: int, tail: int)
    requires Chain(c, l, head, tail) && Exchanged(c, c1, l, left, right)
    ensures c1[left].previous != NULL ==> 0 <= c1[left].previous < |c1|
    ensures c1[left].next != NULL ==> 0 <= c1[left].next < |c1|
    ensures c1[right].previous != NULL ==> 0 <= c1[right].previous < |c1|
    ensures c1[right].next != NULL ==> 0 <= c1[right].next < |c1|
  {
    Neighbours(c, l, head, tail, left);
    if right in l {
      Neighbours(c, l, head, tail, right);
    }
  }

  /** After the first round the right address no longer points at itself. */
  lemma {:induction false} AfterLeft(c: seq<Bucket>, c1: seq<Bucket>, c2: seq<Bucket>, l: seq<int>, left: int, right: int,
                                     head: int, tail: int)
    requires Chain(c, l, head, tail) && Exchanged(c, c1, l, left, right)
    requires LeftDone(c1, c2, left, right)
    ensures c2[right].previous != NULL ==> 0 <= c2[right].previous < |c2| && c2[right].previous != right
    ensures c2[right].next != NULL ==> 0 <= c2[right].next < |c2| && c2[right].next != right
  {
    SwapInRange(c, c1, l, left, right, head, tail);
    Neighbours(c, l, head, tail, left);
    if right in l {
      Neighbours(c, l, head, tail, right);
    }
  }

  /** Only listed addresses and the two themselves are written. */
  lemma {:induction false} SwapElsewhere(c: seq<Bucket>, c1: seq<Bucket>, c2: seq<Bucket>, c3: seq<Bucket>, l: seq<int>,
                                         left: int, right: int, head: int, tail: int, i: int)
    requires Chain(c, l, head, tail) && Exchanged(c, c1, l, left, right)
    requires LeftDone(c1, c2, left, right) && RightDone(c2, c3, left, right)
    requires 0 <= i < |c| && i !in l && i != left && i != right
    ensures c3[i] == c1[i]
  {
    Neighbours(c, l, head, tail, left);
    if right in l {
      Neighbours(c, l, head, tail, right);
    }
  }

  // ---- appending, unlinking, moving ----

  lemma {:induction false} AppendedChain(c: seq<Bucket>, c': seq<Bucket>, l: seq<int>, head: int, tail: int, i: int)
    requires Chain(c, l, head, tail) && 0 <= i < |c| && i !in l && c[i].next == NULL && (l == [] ==> c[i].previous == NULL)
    requires head != NULL ==> 0 <= tail < |c|
    requires c' == if head == NULL then c else c[i := c[i].(previous := tail)][tail := c[tail].(next := i)]
    ensures Chain(c', l + [i], if head == NULL then i else head, i)
    ensures SamePayload(c, c') && forall x | 0 <= x < |c| && x !in l && x != i :: c'[x] == c[x]
  {
    var l' := l + [i];
    if l != [] {
      assert LinkedAt(c, l, 0);
      assert LinkedAt(c, l, |l| - 1);
      assert tail == l[|l| - 1] && tail in l;
    }
    forall k | 0 <= k < |l'| ensures LinkedAt(c', l', k) {
      if k < |l| {
        assert LinkedAt(c, l, k);
      }
    }
  }

  /** The address at position k taken out of the list. */
  ghost predicate Unlinked(c: seq<Bucket>, c': seq<Bucket>, i: int)
    requires 0 <= i < |c|
  {
    && SamePayload(c, c')
    && (forall x | 0 <= x < |c| && x != i ::
          && c'[x].next == (if x == c[i].previous then c[i].next else c[x].next)
          && c'[x].previous == (if x == c[i].next then c[i].previous else c[x].previous))
    && c'[i].next == NULL && c'[i].previous == NULL
  }

  ghost function Without(l: seq<int>, k: nat): seq<int>
    requires k < |l|
  {
    l[..k] + l[k + 1..]
  }

  lemma {:induction false} WithoutAt(l: seq<int>, k: nat, j: int)
    requires k < |l|
    ensures |Without(l, k)| == |l| - 1
    ensures At(Without(l, k), j) == if j < k then At(l, j) else At(l, j + 1)
  {
  }

  lemma {:induction false} UnlinkedLink(c: seq<Bucket>, c': seq<Bucket>, l: seq<int>, head: int, tail: int, k: nat, j: nat)
    requires Chain(c, l, head, tail) && k < |l| && 0 <= l[k] < |c| && Unlinked(c, c', l[k]) && j < |Without(l, k)|
    ensures LinkedAt(c', Without(l, k), j)
  {
    var j' := if j < k then j else j + 1;
    assert LinkedAt(c, l, k) && LinkedAt(c, l, j');
    WithoutAt(l, k, j);
    WithoutAt(l, k, j - 1);
    WithoutAt(l, k, j + 1);
  }

  lemma {:induction false} UnlinkedChain(c: seq<Bucket>, c': seq<Bucket>, l: seq<int>, head: int, tail: int, k: nat)
    requires Chain(c, l, head, tail) && k < |l| && 0 <= l[k] < |c| && Unlinked(c, c', l[k])
    ensures Chain(c', Without(l, k), if c[l[k]].previous == NULL then c[l[k]].next else head,
                  if c[l[k]].next == NULL then c[l[k]].previous else tail)
  {
    forall j | 0 <= j < |Without(l, k)| ensures LinkedAt(c', Without(l, k), j) {
      UnlinkedLink(c, c', l, head, tail, k, j);
    }
    assert LinkedAt(c, l, k);
    assert k > 0 ==> LinkedAt(c, l, k - 1);
    assert k + 1 < |l| ==> LinkedAt(c, l, k + 1);
    WithoutAt(l, k, 0);
    WithoutAt(l, k, |l| - 2);
  }

  lemma {:induction false} UnlinkedElsewhere(c: seq<Bucket>, c': seq<Bucket>, l: seq<int>, head: int, tail: int, i: int)
    requires Chain(c, l, head, tail) && i in l && 0 <= i < |c| && Unlinked(c, c', i)
    ensures forall x | 0 <= x < |c| && x !in l :: c'[x] == c[x]
  {
    Neighbours(c, l, head, tail, i);
  }

  /** A listed cell's links copied to an unlisted one, whose neighbours then point at it. */
  lemma {:induction false} MovedChain(c: seq<Bucket>, c': seq<Bucket>, l: seq<int>, head: int, tail: int, k: nat, to: int)
    requires Chain(c, l, head, tail) && k < |l| && 0 <= l[k] < |c| && 0 <= to < |c| && to !in l
    requires |c'| == |c| && c'[to].next == c[l[k]].next && c'[to].previous == c[l[k]].previous
    requires forall x | 0 <= x < |c| && x != l[k] && x != to ::
               && c'[x].next == (if x == c[l[k]].previous then to else c[x].next)
               && c'[x].previous == (if x == c[l[k]].next then to else c[x].previous)
    ensures Chain(c', l[k := to], if c[l[k]].previous == NULL then to else head, if c[l[k]].next == NULL then to else tail)
  {
    var i, r := l[k], l[k := to];
    assert i in l;
    Neighbours(c, l, head, tail, i);
    assert LinkedAt(c, l, k);
    forall j | 0 <= j < |r| ensures LinkedAt(c', r, j) {
      assert LinkedAt(c, l, j);
      assert l[j] in l;
    }
    assert LinkedAt(c, l, 0) && LinkedAt(c, l, |l| - 1);
  }
}

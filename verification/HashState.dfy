/** What every operation of AK/HashTable.h keeps, and how each step of an insertion or a deletion keeps it. */
module HashState {
  import opened HashBuckets
  import opened HashProbe

  /** Exactly the used cells are listed. */
  ghost predicate Covers(c: seq<Bucket>, l: seq<int>) {
    forall i | 0 <= i < |c| :: Used(c[i]) <==> i in l
  }

  ghost predicate NullLinks(c: seq<Bucket>) {
    forall i | 0 <= i < |c| && !Used(c[i]) :: c[i].previous == NULL && c[i].next == NULL
  }

  ghost predicate KeysDistinct(c: seq<Bucket>) {
    forall i, j | 0 <= i < j < |c| :: KeysDiffer(c, i, j)
  }

  ghost predicate KeysDiffer(c: seq<Bucket>, i: int, j: int)
    requires 0 <= i < |c| && 0 <= j < |c|
  {
    Used(c[i]) && Used(c[j]) ==> c[i].slot.key != c[j].slot.key
  }

  lemma {:induction false} KeysApart(c: seq<Bucket>, i: int, j: int)
    requires KeysDistinct(c) && 0 <= i < |c| && 0 <= j < |c| && i != j
    ensures KeysDiffer(c, i, j)
  {
    assert if i < j then KeysDiffer(c, i, j) else KeysDiffer(c, j, i);
  }

  /** The cells apart from the links of listed ones. */
  ghost predicate Stored(t: Traits, c: seq<Bucket>, cap: nat, l: seq<int>) {
    |c| == cap + 1 && Covers(c, l) && NullLinks(c) && KeysDistinct(c) && RobinHood(t, c, cap)
  }

  ghost predicate State(t: Traits, c: seq<Bucket>, cap: nat, l: seq<int>, head: int, tail: int) {
    Stored(t, c, cap, l) && Chain(c, l, head, tail)
  }

  // ---- lists ----

  lemma {:induction false} ChainElsewhere(c: seq<Bucket>, c': seq<Bucket>, l: seq<int>, head: int, tail: int, x: int)
    requires Chain(c, l, head, tail) && x !in l && |c'| == |c|
    requires forall i | 0 <= i < |c| && i != x :: c'[i].previous == c[i].previous && c'[i].next == c[i].next
    ensures Chain(c', l, head, tail)
  {
    forall k | 0 <= k < |l| ensures LinkedAt(c', l, k) {
      assert LinkedAt(c, l, k);
      assert l[k] in l;
    }
  }

  lemma {:induction false} InSwapped(l: seq<int>, left: int, right: int, x: int)
    ensures x in Swapped(l, left, right) <==> Swap(left, right, x) in l
  {
    var r := Swapped(l, left, right);
    if x in r {
      var k :| 0 <= k < |r| && r[k] == x;
      assert l[k] == Swap(left, right, x);
    }
    if Swap(left, right, x) in l {
      var k :| 0 <= k < |l| && l[k] == Swap(left, right, x);
      assert r[k] == x;
    }
  }

  lemma {:induction false} SwappedContents(c: seq<Bucket>, c': seq<Bucket>, l: seq<int>, left: int, right: int)
    requires InRange(c, l) && |c'| == |c| && 0 <= left < |c| && 0 <= right < |c|
    requires forall i | i in l :: c'[Swap(left, right, i)].slot == c[i].slot
    ensures InRange(c', Swapped(l, left, right))
    ensures Contents(c', Swapped(l, left, right)) == Contents(c, l)
  {
    forall k | 0 <= k < |l| ensures c'[Swap(left, right, l[k])].slot == c[l[k]].slot {
      assert l[k] in l;
    }
  }

  lemma {:induction false} SameContents(c: seq<Bucket>, c': seq<Bucket>, l: seq<int>)
    requires InRange(c, l) && |c'| == |c| && forall i | i in l :: c'[i].slot == c[i].slot
    ensures InRange(c', l) && Contents(c', l) == Contents(c, l)
  {
    forall k | 0 <= k < |l| ensures c'[l[k]].slot == c[l[k]].slot {
      assert l[k] in l;
    }
  }

  lemma {:induction false} AppendedContents(c: seq<Bucket>, l: seq<int>, i: int)
    requires InRange(c, l) && 0 <= i < |c|
    ensures InRange(c, l + [i]) && Contents(c, l + [i]) == Contents(c, l) + [c[i].slot]
  {
  }

  // ---- a new value in a free bucket ----

  lemma {:induction false} FreeTaken(t: Traits, c: seq<Bucket>, cap: nat, l: seq<int>, i: nat, b: Bucket, c': seq<Bucket>)
    requires Stored(t, c, cap, l) && InRange(c, l) && i < cap && !Used(c[i]) && !Used(c[cap])
    requires Stated(t, b, i, cap) && Follows(t, c[i := b], i, cap) && Absent(c, cap, b.slot.key)
    requires SamePayload(c[i := b], c') && forall x | 0 <= x < |c| && x !in l && x != i :: c'[x] == c[x]
    ensures Stored(t, c', cap, l + [i]) && InRange(c', l + [i])
    ensures Contents(c', l + [i]) == Contents(c, l) + [b.slot]
  {
    Place(t, c, cap, i, b);
    LinksDoNotMatter(t, c[i := b], c', cap);
    forall x, y | 0 <= x < y < |c| ensures KeysDiffer(c', x, y) {
      KeysApart(c, x, y);
    }
    SameContents(c, c', l);
    AppendedContents(c', l, i);
  }

  // ---- displacing ----

  lemma {:induction false} CopiedOut(c: seq<Bucket>, l: seq<int>, from: int, to: int)
    requires 0 <= from < |c| && 0 <= to < |c| && from != to && from in l && to !in l
    ensures Exchanged(c, c[to := c[from]], l, from, to)
  {
  }

  /** The value of bucket i held at the cell after the last bucket, a new one in its place. */
  lemma {:induction false} Stolen(t: Traits, c: seq<Bucket>, cap: nat, l: seq<int>, i: nat, b: Bucket, c2: seq<Bucket>, c4: seq<Bucket>)
    requires Stored(t, c, cap, l) && InRange(c, l) && i < cap && Used(c[i]) && !Used(c[cap])
    requires Stated(t, b, i, cap) && Probe(t, b, i, cap) > Probe(t, c[i], i, cap) && Follows(t, c[i := b], i, cap)
    requires Absent(c, cap, b.slot.key)
    requires SamePayload(c[cap := c[i]], c2) && forall x | 0 <= x < |c| && x !in l && x != i && x != cap :: c2[x] == c[x]
    requires SamePayload(c2[i := b], c4)
    requires forall x | 0 <= x < |c| && x !in Swapped(l, i, cap) && x != i :: c4[x] == c2[x]
    ensures var l' := Swapped(l, i, cap) + [i];
            && Stored(t, c4, cap, l') && InRange(c4, l') && Contents(c4, l') == Contents(c, l) + [b.slot]
  {
    var l2 := Swapped(l, i, cap);
    StolenPayload(t, c, cap, l, i, b, c2, c4);
    forall x | 0 <= x < |c| ensures Used(c4[x]) <==> x in l2 + [i] {
      InSwapped(l, i, cap, x);
    }
    forall x | 0 <= x < |c| && !Used(c4[x]) ensures c4[x].previous == NULL && c4[x].next == NULL {
      InSwapped(l, i, cap, x);
    }
    assert forall x | x in l :: c4[Swap(i, cap, x)].slot == c[x].slot;
    SwappedContents(c, c4, l, i, cap);
    AppendedContents(c4, l2, i);
  }

  lemma {:induction false} StolenPayload(t: Traits, c: seq<Bucket>, cap: nat, l: seq<int>, i: nat, b: Bucket, c2: seq<Bucket>, c4: seq<Bucket>)
    requires Stored(t, c, cap, l) && i < cap && Used(c[i]) && !Used(c[cap])
    requires Stated(t, b, i, cap) && Probe(t, b, i, cap) > Probe(t, c[i], i, cap) && Follows(t, c[i := b], i, cap)
    requires Absent(c, cap, b.slot.key)
    requires SamePayload(c[cap := c[i]], c2) && SamePayload(c2[i := b], c4)
    ensures KeysDistinct(c4) && RobinHood(t, c4, cap)
    ensures forall x | 0 <= x < cap && x != i :: c4[x] == c[x].(previous := c4[x].previous, next := c4[x].next)
    ensures c4[i] == b.(previous := c4[i].previous, next := c4[i].next)
    ensures c4[cap] == c[i].(previous := c4[cap].previous, next := c4[cap].next)
  {
    Place(t, c, cap, i, b);
    PayloadBelow(t, c[i := b], c4, cap);
    forall x, y | 0 <= x < y < |c| ensures KeysDiffer(c4, x, y) {
      if y < cap {
        KeysApart(c, x, y);
      } else if x != i {
        KeysApart(c, x, i);
      }
    }
  }

  /** The invariant only reads the buckets proper, and not their links. */
  lemma {:induction false} PayloadBelow(t: Traits, c: seq<Bucket>, c': seq<Bucket>, cap: nat)
    requires cap <= |c| && cap <= |c'| && RobinHood(t, c, cap)
    requires forall i | 0 <= i < cap :: c'[i] == c[i].(previous := c'[i].previous, next := c'[i].next)
    ensures RobinHood(t, c', cap)
  {
    forall i: nat | i < cap ensures Fits(t, c', i, cap) {
      assert Fits(t, c, i, cap);
    }
  }

  /** A value is held that belongs at bucket i or later. */
  ghost predicate Holding(t: Traits, c: seq<Bucket>, cap: nat, i: nat, probe: nat)
    requires i < cap < |c|
  {
    && Used(c[cap]) && (t.stored ==> c[cap].hash == t.hash(c[cap].slot.key))
    && probe == Probe(t, c[cap], i, cap) && probe > 0
    && Used(c[Prev(i, cap)]) && Probe(t, c[Prev(i, cap)], Prev(i, cap), cap) >= probe - 1
  }

  /** The held bucket as it will be stored. */
  function Restated(b: Bucket, probe: nat): Bucket {
    b.(state := StateFor(probe))
  }

  /** A free bucket never lies between the place of a value and its bucket. */
  lemma {:induction false} RunAvoidsFree(t: Traits, c: seq<Bucket>, cap: nat, j: nat, f: nat)
    requires cap <= |c| && RobinHood(t, c, cap) && j < cap && f < cap && Used(c[j]) && !Used(c[f])
    ensures Dist(Home(t, c[j].slot.key, cap), f, cap) > Probe(t, c[j], j, cap)
  {
    var home := Home(t, c[j].slot.key, cap);
    if Dist(home, f, cap) <= Probe(t, c[j], j, cap) {
      OnwardOfDist(home, f, cap);
      Run(t, c, cap, j, Dist(home, f, cap));
    }
  }

  /** Past a bucket that is no closer to its place than the held value. */
  lemma {:induction false} HeldOn(t: Traits, c: seq<Bucket>, cap: nat, i: nat, probe: nat, f: nat)
    requires i < cap < |c| && f < cap && RobinHood(t, c, cap) && Holding(t, c, cap, i, probe)
    requires Used(c[i]) && Probe(t, c[i], i, cap) >= probe && !Used(c[f])
    ensures Holding(t, c, cap, Next(i, cap), probe + 1) && Dist(Next(i, cap), f, cap) < Dist(i, f, cap)
  {
    RunAvoidsFree(t, c, cap, i, f);
  }

  /** The value of bucket i is held now, and bucket i has one further from its place. */
  lemma {:induction false} HeldNext(t: Traits, c: seq<Bucket>, cap: nat, i: nat, probe: nat, f: nat, c': seq<Bucket>)
    requires i < cap < |c| && |c'| == |c| && f < cap && RobinHood(t, c, cap) && Used(c[i]) && !Used(c[f])
    requires Used(c'[i]) && Probe(t, c'[i], i, cap) == probe > Probe(t, c[i], i, cap)
    requires Used(c'[cap]) && c'[cap].slot == c[i].slot && c'[cap].hash == c[i].hash
    ensures Holding(t, c', cap, Next(i, cap), Probe(t, c[i], i, cap) + 1)
    ensures Dist(Next(i, cap), f, cap) < Dist(i, f, cap)
  {
    RunAvoidsFree(t, c, cap, i, f);
    assert Fits(t, c, i, cap);
  }

  lemma {:induction false} HeldFits(t: Traits, c: seq<Bucket>, cap: nat, i: nat, probe: nat)
    requires i < cap < |c| && Holding(t, c, cap, i, probe) && RobinHood(t, c, cap)
    requires Used(c[i]) ==> Probe(t, c[i], i, cap) < probe
    ensures RobinHood(t, c[i := Restated(c[cap], probe)], cap)
  {
    Place(t, c, cap, i, Restated(c[cap], probe));
  }

  /** All of a theft: the new value listed last, the old one held, and the same free buckets. */
  lemma {:induction false} StealDone(t: Traits, c: seq<Bucket>, cap: nat, l: seq<int>, i: nat, b: Bucket, c2: seq<Bucket>,
                                     c4: seq<Bucket>, f: nat)
    requires Stored(t, c, cap, l) && InRange(c, l) && i < cap && Used(c[i]) && !Used(c[cap]) && f < cap && !Used(c[f])
    requires Stated(t, b, i, cap) && Probe(t, b, i, cap) > Probe(t, c[i], i, cap) && Follows(t, c[i := b], i, cap)
    requires Absent(c, cap, b.slot.key)
    requires SamePayload(c[cap := c[i]], c2) && forall x | 0 <= x < |c| && x !in l && x != i && x != cap :: c2[x] == c[x]
    requires SamePayload(c2[i := b], c4)
    requires forall x | 0 <= x < |c| && x !in Swapped(l, i, cap) && x != i :: c4[x] == c2[x]
    ensures var l' := Swapped(l, i, cap) + [i];
            && Stored(t, c4, cap, l') && InRange(c4, l') && Contents(c4, l') == Contents(c, l) + [b.slot] && |l'| == |l| + 1
    ensures !Used(c4[f]) && Holding(t, c4, cap, Next(i, cap), Probe(t, c[i], i, cap) + 1)
  {
    Stolen(t, c, cap, l, i, b, c2, c4);
    StolenPayload(t, c, cap, l, i, b, c2, c4);
    HeldNext(t, c, cap, i, Probe(t, b, i, cap), f, c4);
  }

  lemma {:induction false} ProbeHere(t: Traits, c: seq<Bucket>, cap: nat, i: nat)
    requires i < cap <= |c| && RobinHood(t, c, cap) && Used(c[i])
    ensures DecodedProbe(t, c[i], i, cap) == Probe(t, c[i], i, cap)
  {
    assert Fits(t, c, i, cap);
    DecodedIsProbe(t, c[i], i, cap);
  }

  lemma {:induction false} SwapDone(t: Traits, c: seq<Bucket>, cap: nat, l: seq<int>, i: nat, probe: nat, c': seq<Bucket>, f: nat)
    requires Stored(t, c, cap, l) && InRange(c, l) && i < cap && Used(c[i]) && Holding(t, c, cap, i, probe)
    requires Probe(t, c[i], i, cap) < probe && f < cap && !Used(c[f])
    requires SamePayload(c[i := Restated(c[cap], probe)][cap := c[i]], c')
    requires forall x | 0 <= x < |c| && x !in l && x != i && x != cap :: c'[x] == c[x]
    ensures var l' := Swapped(l, cap, i);
            Stored(t, c', cap, l') && InRange(c', l') && Contents(c', l') == Contents(c, l) && |l'| == |l|
    ensures !Used(c'[f]) && Holding(t, c', cap, Next(i, cap), Probe(t, c[i], i, cap) + 1)
    ensures Dist(Next(i, cap), f, cap) < Dist(i, f, cap)
  {
    HeldSwapped(t, c, cap, l, i, probe, c');
    HeldNext(t, c, cap, i, probe, f, c');
  }

  lemma {:induction false} TradedCells(c: seq<Bucket>, l: seq<int>, i: int, j: int, b: Bucket)
    requires 0 <= i < |c| && 0 <= j < |c| && i != j && i in l && j in l
    requires b.previous == c[i].previous && b.next == c[i].next
    ensures Exchanged(c, c[j := b][i := c[j]], l, i, j)
  {
  }

  /** The held value and that of bucket i trade places. */
  lemma {:induction false} HeldSwapped(t: Traits, c: seq<Bucket>, cap: nat, l: seq<int>, i: nat, probe: nat, c': seq<Bucket>)
    requires Stored(t, c, cap, l) && InRange(c, l) && i < cap && Used(c[i]) && Holding(t, c, cap, i, probe)
    requires Probe(t, c[i], i, cap) < probe
    requires SamePayload(c[i := Restated(c[cap], probe)][cap := c[i]], c')
    requires forall x | 0 <= x < |c| && x !in l && x != i && x != cap :: c'[x] == c[x]
    ensures var l' := Swapped(l, cap, i);
            Stored(t, c', cap, l') && InRange(c', l') && Contents(c', l') == Contents(c, l)
  {
    HeldFits(t, c, cap, i, probe);
    PayloadBelow(t, c[i := Restated(c[cap], probe)], c', cap);
    forall x | 0 <= x < |c| ensures Used(c'[x]) <==> x in Swapped(l, cap, i) {
      InSwapped(l, cap, i, x);
    }
    forall x, y | 0 <= x < y < |c| ensures KeysDiffer(c', x, y) {
      KeysApart(c, Swap(cap, i, x), Swap(cap, i, y));
    }
    assert forall x | x in l :: c'[Swap(cap, i, x)].slot == c[x].slot by {
      SlotsTraded(c, c', l, cap, i, Restated(c[cap], probe));
    }
    SwappedContents(c, c', l, cap, i);
  }

  lemma {:induction false} SlotsTraded(c: seq<Bucket>, c': seq<Bucket>, l: seq<int>, i: nat, j: nat, b: Bucket)
    requires i < |c| && j < |c| && i != j && b.slot == c[i].slot && InRange(c, l) && SamePayload(c[j := b][i := c[j]], c')
    ensures forall x | x in l :: 0 <= x < |c| && c'[Swap(i, j, x)].slot == c[x].slot
  {
    forall x | x in l ensures 0 <= x < |c| && c'[Swap(i, j, x)].slot == c[x].slot {
      var k :| 0 <= k < |l| && l[k] == x;
    }
  }

  /** The held value goes to a free bucket. */
  lemma {:induction false} HeldPlaced(t: Traits, c: seq<Bucket>, cap: nat, l: seq<int>, i: nat, probe: nat, c': seq<Bucket>, b: Bucket)
    requires Stored(t, c, cap, l) && InRange(c, l) && i < cap && !Used(c[i]) && Holding(t, c, cap, i, probe)
    requires SamePayload(c[i := Restated(c[cap], probe)], c')
    requires forall x | 0 <= x < |c| && x !in l && x != i && x != cap :: c'[x] == c[x]
    requires !Used(b) && b.previous == NULL && b.next == NULL
    ensures var l' := Swapped(l, cap, i); var c'' := c'[cap := b];
            Stored(t, c'', cap, l') && InRange(c'', l') && Contents(c'', l') == Contents(c, l)
    ensures cap !in Swapped(l, cap, i)
  {
    var c'' := c'[cap := b];
    HeldFits(t, c, cap, i, probe);
    PayloadBelow(t, c[i := Restated(c[cap], probe)], c'', cap);
    forall x | 0 <= x < |c| ensures Used(c''[x]) <==> x in Swapped(l, cap, i) {
      InSwapped(l, cap, i, x);
    }
    forall x, y | 0 <= x < y < |c| ensures KeysDiffer(c'', x, y) {
      KeysApart(c, Swap(cap, i, x), Swap(cap, i, y));
    }
    assert forall x | x in l :: c''[Swap(cap, i, x)].slot == c[x].slot;
    SwappedContents(c, c'', l, cap, i);
  }

  // ---- deleting ----

  /** The state while bucket h is a hole to be closed, counting as one with probe length d. */
  ghost predicate HoleStored(t: Traits, c: seq<Bucket>, cap: nat, l: seq<int>, h: nat, d: nat) {
    && |c| == cap + 1 && h < cap && !Used(c[cap])
    && (forall x | 0 <= x < |c| :: x in l <==> Used(c[x]) && x != h)
    && (forall x | 0 <= x < |c| && x !in l :: c[x].previous == NULL && c[x].next == NULL)
    && ListedDistinct(c, l)
    && Hole(t, c, cap, h, d)
  }

  ghost predicate ListedDistinct(c: seq<Bucket>, l: seq<int>) {
    forall x, y | 0 <= x < y < |c| :: ListedDiffer(c, l, x, y)
  }

  ghost predicate ListedDiffer(c: seq<Bucket>, l: seq<int>, x: int, y: int)
    requires 0 <= x < |c| && 0 <= y < |c|
  {
    x in l && y in l ==> c[x].slot.key != c[y].slot.key
  }

  lemma {:induction false} ListedApart(c: seq<Bucket>, l: seq<int>, x: int, y: int)
    requires ListedDistinct(c, l) && 0 <= x < |c| && 0 <= y < |c| && x != y
    ensures ListedDiffer(c, l, x, y)
  {
    assert if x < y then ListedDiffer(c, l, x, y) else ListedDiffer(c, l, y, x);
  }

  lemma {:induction false} InWithout(l: seq<int>, k: nat, x: int)
    requires k < |l| && forall i, j | 0 <= i < j < |l| :: l[i] != l[j]
    ensures x in Without(l, k) <==> x in l && x != l[k]
  {
    if x in l && x != l[k] {
      var j :| 0 <= j < |l| && l[j] == x;
      assert Without(l, k)[if j < k then j else j - 1] == x;
    }
  }

  lemma {:induction false} WithoutContents(c: seq<Bucket>, l: seq<int>, k: nat)
    requires InRange(c, l) && k < |l|
    ensures InRange(c, Without(l, k)) && Contents(c, Without(l, k)) == Contents(c, l)[..k] + Contents(c, l)[k + 1..]
  {
  }

  lemma {:induction false} HoleOpened(t: Traits, c: seq<Bucket>, cap: nat, l: seq<int>, head: int, tail: int, k: nat, c': seq<Bucket>)
    requires State(t, c, cap, l, head, tail) && InRange(c, l) && !Used(c[cap]) && k < |l| && l[k] < cap
    requires SamePayload(c, c') && forall x | 0 <= x < |c| && x !in l :: c'[x] == c[x]
    requires c'[l[k]].previous == NULL && c'[l[k]].next == NULL
    ensures HoleStored(t, c', cap, Without(l, k), l[k], Probe(t, c[l[k]], l[k], cap))
    ensures InRange(c', Without(l, k))
    ensures Contents(c', Without(l, k)) == Contents(c, l)[..k] + Contents(c, l)[k + 1..]
  {
    var h: nat := l[k];
    assert h in l;
    OpenHole(t, c, cap, h);
    HoleLinks(t, c, c', cap, h, Probe(t, c[h], h, cap));
    forall x | 0 <= x < |c| ensures x in Without(l, k) <==> Used(c'[x]) && x != h {
      InWithout(l, k, x);
    }
    forall x, y | 0 <= x < y < |c| ensures ListedDiffer(c', Without(l, k), x, y) {
      KeysApart(c, x, y);
    }
    SameContents(c, c', l);
    WithoutContents(c', l, k);
  }

  /** What shifting bucket `from` back into the hole h does to the cells. */
  ghost predicate ShiftedBack(c: seq<Bucket>, c': seq<Bucket>, h: nat, from: nat, state: nat)
    requires h < |c| && from < |c|
  {
    && |c'| == |c|
    && c'[h] == c[from].(state := state)
    && c'[from] == c[from].(previous := NULL, next := NULL)
    && forall x | 0 <= x < |c| && x != h && x != from ::
         c'[x] == c[x].(next := if x == c[from].previous then h else c[x].next,
                        previous := if x == c[from].next then h else c[x].previous)
  }

  lemma {:induction false} HoleShifted(t: Traits, c: seq<Bucket>, cap: nat, l: seq<int>, head: int, tail: int, h: nat, d: nat,
                                       k: nat, c': seq<Bucket>)
    requires HoleStored(t, c, cap, l, h, d) && Chain(c, l, head, tail) && InRange(c, l) && Next(h, cap) != h
    requires var from := Next(h, cap); var p := Probe(t, c[from], from, cap);
             k < |l| && l[k] == from && p > 0 && ShiftedBack(c, c', h, from, StateFor(p - 1))
    ensures var from := Next(h, cap); HoleStored(t, c', cap, l[k := h], from, Probe(t, c[from], from, cap))
    ensures InRange(c', l[k := h]) && Contents(c', l[k := h]) == Contents(c, l)
  {
    var from := Next(h, cap);
    assert from in l;
    HoleShiftedHole(t, c, cap, l, h, d, c');
    HoleShiftedList(t, c, cap, l, head, tail, h, d, k, c');
    assert forall j | 0 <= j < |l| && j != k :: l[j] in l;
    SwappedSlots(c, c', l, k, h);
  }

  /** What the list passes through after the shift, and what those buckets hold. */
  lemma {:induction false} HoleShiftedList(t: Traits, c: seq<Bucket>, cap: nat, l: seq<int>, head: int, tail: int, h: nat, d: nat,
                                           k: nat, c': seq<Bucket>)
    requires HoleStored(t, c, cap, l, h, d) && Chain(c, l, head, tail) && Next(h, cap) != h
    requires var from := Next(h, cap); var p := Probe(t, c[from], from, cap);
             k < |l| && l[k] == from && p > 0 && ShiftedBack(c, c', h, from, StateFor(p - 1))
    ensures var from := Next(h, cap); var l' := l[k := h];
            && !Used(c'[cap])
            && (forall x | 0 <= x < |c'| :: x in l' <==> Used(c'[x]) && x != from)
            && (forall x | 0 <= x < |c'| && x !in l' :: c'[x].previous == NULL && c'[x].next == NULL)
            && ListedDistinct(c', l')
  {
    var from := Next(h, cap);
    assert from in l;
    Neighbours(c, l, head, tail, from);
    forall x ensures x in l[k := h] <==> x == h || (x in l && x != from) {
      InUpdated(l, k, h, x);
    }
    var l' := l[k := h];
    forall x, y | 0 <= x < y < |c'| ensures ListedDiffer(c', l', x, y) {
      if x != from && y != from {
        ListedApart(c, l, if x == h then from else x, if y == h then from else y);
      }
    }
  }

  lemma {:induction false} HoleShiftedHole(t: Traits, c: seq<Bucket>, cap: nat, l: seq<int>, h: nat, d: nat, c': seq<Bucket>)
    requires HoleStored(t, c, cap, l, h, d) && Next(h, cap) != h
    requires var from := Next(h, cap); var p := Probe(t, c[from], from, cap);
             Used(c[from]) && p > 0 && ShiftedBack(c, c', h, from, StateFor(p - 1))
    ensures var from := Next(h, cap); Hole(t, c', cap, from, Probe(t, c[from], from, cap))
  {
    var from := Next(h, cap);
    var c1 := c[h := c'[h]];
    ShiftHole(t, c, cap, h, d, c1);
    HoleLinks(t, c1, c', cap, from, Probe(t, c[from], from, cap));
  }

  lemma {:induction false} InUpdated(l: seq<int>, k: nat, h: int, x: int)
    requires k < |l| && h !in l && forall i, j | 0 <= i < j < |l| :: l[i] != l[j]
    ensures x in l[k := h] <==> x == h || (x in l && x != l[k])
  {
    if x == h {
      assert l[k := h][k] == h;
    } else if x in l && x != l[k] {
      var j :| 0 <= j < |l| && l[j] == x;
      assert l[k := h][j] == x;
    }
  }

  lemma {:induction false} SwappedSlots(c: seq<Bucket>, c': seq<Bucket>, l: seq<int>, k: nat, h: int)
    requires InRange(c, l) && k < |l| && |c'| == |c| && 0 <= h < |c| && c'[h].slot == c[l[k]].slot
    requires forall j | 0 <= j < |l| && j != k :: c'[l[j]].slot == c[l[j]].slot
    ensures InRange(c', l[k := h]) && Contents(c', l[k := h]) == Contents(c, l)
  {
  }

  lemma {:induction false} HoleClosed(t: Traits, c: seq<Bucket>, cap: nat, l: seq<int>, h: nat, d: nat)
    requires HoleStored(t, c, cap, l, h, d) && InRange(c, l) && Next(h, cap) != h
    requires var next := Next(h, cap); Used(c[next]) ==> Probe(t, c[next], next, cap) == 0
    ensures var c' := c[h := c[h].(state := FREE)];
            Stored(t, c', cap, l) && InRange(c', l) && Contents(c', l) == Contents(c, l)
  {
    var c' := c[h := c[h].(state := FREE)];
    CloseHole(t, c, cap, h, d, c[h].(state := FREE));
    forall x, y | 0 <= x < y < |c| ensures KeysDiffer(c', x, y) {
      ListedApart(c, l, x, y);
    }
    SameContents(c, c', l);
  }

  // ---- where a deletion moves things ----

  /** A value still in place, or shifted back by one from a bucket other than the deleted one. */
  ghost predicate Origin(c0: seq<Bucket>, c: seq<Bucket>, cap: nat, i0: nat, j: nat)
    requires j < cap < |c0| && |c| == |c0|
  {
    || (Used(c0[j]) && j != i0 && c[j].slot == c0[j].slot)
    || (Next(j, cap) != i0 && Used(c0[Next(j, cap)]) && c[j].slot == c0[Next(j, cap)].slot)
  }

  /** How far a deletion at i0 has come when the hole is at h. */
  ghost predicate Trace(c0: seq<Bucket>, c: seq<Bucket>, cap: nat, i0: nat, h: nat)
    requires i0 < cap < |c0| && |c| == |c0| && h < cap
  {
    && (forall j: nat | j < cap && Dist(i0, j, cap) > Dist(i0, h, cap) :: c[j].state == c0[j].state && c[j].slot == c0[j].slot)
    && (forall j: nat | j < cap && j != h && Used(c[j]) :: Origin(c0, c, cap, i0, j))
  }

  lemma {:induction false} TraceOpened(c0: seq<Bucket>, c: seq<Bucket>, cap: nat, i0: nat)
    requires i0 < cap < |c0| && SamePayload(c0, c)
    ensures Trace(c0, c, cap, i0, i0)
  {
  }

  lemma {:induction false} TraceShifted(c0: seq<Bucket>, c: seq<Bucket>, cap: nat, i0: nat, h: nat, c': seq<Bucket>, state: nat)
    requires i0 < cap < |c0| && |c| == |c0| && h < cap && Trace(c0, c, cap, i0, h)
    requires Next(h, cap) != i0 && Used(c[Next(h, cap)]) && ShiftedBack(c, c', h, Next(h, cap), state)
    ensures Trace(c0, c', cap, i0, Next(h, cap))
  {
    var from := Next(h, cap);
    assert Dist(i0, from, cap) == Dist(i0, h, cap) + 1;
    forall j: nat | j < cap && j != from && Used(c'[j]) ensures Origin(c0, c', cap, i0, j) {
      if j != h {
        assert Origin(c0, c, cap, i0, j);
      }
    }
  }

  // ---- a free bucket ----

  lemma {:induction false} Pigeonhole(l: seq<int>, n: nat)
    requires forall i | 0 <= i < n :: i in l
    ensures n <= |l|
    decreases n
  {
    if n > 0 {
      assert n - 1 in l;
      var k :| 0 <= k < |l| && l[k] == n - 1;
      var r := l[..k] + l[k + 1..];
      forall i | 0 <= i < n - 1 ensures i in r {
        assert i in l;
        var j :| 0 <= j < |l| && l[j] == i;
        assert r[if j < k then j else j - 1] == i;
      }
      Pigeonhole(r, n - 1);
    }
  }

  lemma {:induction false} FreeBucket(c: seq<Bucket>, cap: nat, l: seq<int>) returns (f: nat)
    requires Covers(c, l) && |l| < cap <= |c|
    ensures f < cap && !Used(c[f])
  {
    if forall i | 0 <= i < cap :: i in l {
      Pigeonhole(l, cap);
    } else {
      var i :| 0 <= i < cap && i !in l;
      f := i;
    }
  }

  /** A free cell is not listed, and has null links. */
  lemma {:induction false} CellsApart(c: seq<Bucket>, cap: nat, l: seq<int>)
    requires Covers(c, l) && NullLinks(c)
    ensures forall i | 0 <= i < |c| && !Used(c[i]) :: i !in l && c[i].previous == NULL && c[i].next == NULL
  {
  }

  // ---- the stored values as a sequence ----

  ghost predicate HasKey(s: seq<Entry>, key: Key) {
    exists k | 0 <= k < |s| :: s[k].key == key
  }

  ghost predicate DistinctEntries(s: seq<Entry>) {
    forall j, k | 0 <= j < k < |s| :: s[j].key != s[k].key
  }

  /** Where a used bucket's value stands in the sequence. */
  lemma {:induction false} PositionOf(c: seq<Bucket>, l: seq<int>, i: int) returns (k: nat)
    requires Covers(c, l) && InRange(c, l) && 0 <= i < |c| && Used(c[i])
    ensures k < |l| && l[k] == i && Contents(c, l)[k] == c[i].slot
  {
    k :| 0 <= k < |l| && l[k] == i;
  }

  lemma {:induction false} AbsentKey(c: seq<Bucket>, cap: nat, l: seq<int>, key: Key)
    requires |c| == cap + 1 && Covers(c, l) && InRange(c, l) && !Used(c[cap])
    ensures Absent(c, cap, key) <==> !HasKey(Contents(c, l), key)
  {
    if Absent(c, cap, key) {
      forall k | 0 <= k < |l| ensures Contents(c, l)[k].key != key {
        assert l[k] in l;
        var j: nat := l[k];
        assert j < cap && Used(c[j]);
      }
    }
    if !HasKey(Contents(c, l), key) {
      forall j: nat | j < cap && Used(c[j]) ensures c[j].slot.key != key {
        var k := PositionOf(c, l, j);
      }
    }
  }

  /** No two equal values are stored. */
  lemma {:induction false} NoDuplicates(c: seq<Bucket>, l: seq<int>, head: int, tail: int)
    requires Covers(c, l) && InRange(c, l) && KeysDistinct(c) && Chain(c, l, head, tail)
    ensures DistinctEntries(Contents(c, l))
  {
    forall j, k | 0 <= j < k < |l| ensures c[l[j]].slot.key != c[l[k]].slot.key {
      assert l[j] in l && l[k] in l;
      KeysApart(c, l[j], l[k]);
    }
  }

  /** A stored value overwritten by an equal one. */
  lemma {:induction false} SlotReplaced(t: Traits, c: seq<Bucket>, cap: nat, l: seq<int>, head: int, tail: int, k: nat, e: Entry)
    requires State(t, c, cap, l, head, tail) && InRange(c, l) && k < |l| && c[l[k]].slot.key == e.key
    ensures var c' := c[l[k] := c[l[k]].(slot := e)];
            State(t, c', cap, l, head, tail) && InRange(c', l) && Contents(c', l) == Contents(c, l)[k := e]
  {
    var i := l[k];
    var c' := c[i := c[i].(slot := e)];
    forall x, y | 0 <= x < y < |c| ensures KeysDiffer(c', x, y) {
      KeysApart(c, x, y);
    }
    forall j: nat | j < cap ensures Fits(t, c', j, cap) {
      assert Fits(t, c, j, cap);
    }
    forall j | 0 <= j < |l| ensures LinkedAt(c', l, j) {
      assert LinkedAt(c, l, j);
    }
    forall j | 0 <= j < |l| ensures c'[l[j]].slot == Contents(c, l)[k := e][j] {
      assert j != k ==> l[j] != l[k];
    }
  }

  // ---- one deletion ----

  /** The state of a deletion at i0 with the hole at h, a free bucket still ahead. */
  ghost predicate Deleting(t: Traits, c0: seq<Bucket>, c: seq<Bucket>, cap: nat, l: seq<int>, i0: nat, h: nat, d: nat, free: nat)
    requires i0 < cap && free < cap
  {
    && HoleStored(t, c, cap, l, h, d) && InRange(c, l) && |c0| == |c|
    && Trace(c0, c, cap, i0, h) && !Used(c0[free]) && Dist(i0, h, cap) < Dist(i0, free, cap)
  }

  lemma {:induction false} DeletingNext(t: Traits, c0: seq<Bucket>, c: seq<Bucket>, cap: nat, l: seq<int>, i0: nat, h: nat, d: nat, free: nat)
    requires i0 < cap && free < cap && Deleting(t, c0, c, cap, l, i0, h, d, free)
    ensures h !in l && Next(h, cap) < cap && Next(h, cap) != h && Next(h, cap) != i0
    ensures Used(c[Next(h, cap)]) ==>
              && Next(h, cap) in l && Next(h, cap) != free
              && DecodedProbe(t, c[Next(h, cap)], Next(h, cap), cap) == Probe(t, c[Next(h, cap)], Next(h, cap), cap)
  {
    var from := Next(h, cap);
    assert Dist(i0, from, cap) == Dist(i0, h, cap) + 1;
    assert c[free].state == c0[free].state;
    if Used(c[from]) {
      assert FitsAround(t, c, from, cap, h, d);
      DecodedIsProbe(t, c[from], from, cap);
    }
  }

  lemma {:induction false} DeletingOn(t: Traits, c0: seq<Bucket>, c: seq<Bucket>, cap: nat, l: seq<int>, head: int, tail: int,
                                      i0: nat, h: nat, d: nat, free: nat, k: nat, c': seq<Bucket>)
    requires i0 < cap && free < cap && Deleting(t, c0, c, cap, l, i0, h, d, free) && Chain(c, l, head, tail)
    requires var from := Next(h, cap); from < cap && Used(c[from]) && k < |l| && l[k] == from
    requires var from := Next(h, cap); var p := Probe(t, c[from], from, cap);
             p > 0 && ShiftedBack(c, c', h, from, StateFor(p - 1))
    ensures var from := Next(h, cap); Deleting(t, c0, c', cap, l[k := h], i0, from, Probe(t, c[from], from, cap), free)
    ensures Contents(c', l[k := h]) == Contents(c, l) && Dist(Next(h, cap), free, cap) < Dist(h, free, cap)
  {
    var from := Next(h, cap);
    DeletingNext(t, c0, c, cap, l, i0, h, d, free);
    HoleShifted(t, c, cap, l, head, tail, h, d, k, c');
    TraceShifted(c0, c, cap, i0, h, c', StateFor(Probe(t, c[from], from, cap) - 1));
  }

  lemma {:induction false} Deleted(t: Traits, c0: seq<Bucket>, c: seq<Bucket>, cap: nat, l: seq<int>, head: int, tail: int,
                                   i0: nat, h: nat, d: nat, free: nat)
    requires i0 < cap && free < cap && Deleting(t, c0, c, cap, l, i0, h, d, free) && Chain(c, l, head, tail)
    requires var next := Next(h, cap); next < cap && (Used(c[next]) ==> Probe(t, c[next], next, cap) == 0)
    ensures var c' := c[h := c[h].(state := FREE)];
            && State(t, c', cap, l, head, tail) && InRange(c', l) && Contents(c', l) == Contents(c, l)
            && !Used(c'[cap]) && AllFrom(c0, c', cap, i0)
  {
    var c' := c[h := c[h].(state := FREE)];
    DeletingNext(t, c0, c, cap, l, i0, h, d, free);
    HoleClosed(t, c, cap, l, h, d);
    ChainElsewhere(c, c', l, head, tail, h);
    forall j: nat | j < cap && Used(c'[j]) ensures Origin(c0, c', cap, i0, j) {
      assert Origin(c0, c, cap, i0, j);
    }
  }

  /** Every value is in place or one bucket back, and none of them is the deleted one. */
  ghost predicate AllFrom(c0: seq<Bucket>, c: seq<Bucket>, cap: nat, i0: nat)
    requires cap < |c0| && |c| == |c0|
  {
    forall j: nat | j < cap && Used(c[j]) :: Origin(c0, c, cap, i0, j)
  }

  // ---- matching values ----

  /** The values that do not match, in order. */
  ghost function Unmatched(s: seq<Entry>, p: Entry -> bool): seq<Entry> {
    if s == [] then [] else (if p(s[0]) then [] else [s[0]]) + Unmatched(s[1..], p)
  }

  lemma {:induction false} UnmatchedWithout(s: seq<Entry>, p: Entry -> bool, k: nat)
    requires k < |s| && p(s[k])
    ensures Unmatched(s[..k] + s[k + 1..], p) == Unmatched(s, p)
    decreases s
  {
    var r := s[..k] + s[k + 1..];
    if k == 0 {
      assert r == s[1..];
    } else {
      assert r[0] == s[0] && r[1..] == s[1..][..k - 1] + s[1..][k..];
      UnmatchedWithout(s[1..], p, k - 1);
    }
  }

  lemma {:induction false} AllUnmatched(s: seq<Entry>, p: Entry -> bool)
    requires forall k | 0 <= k < |s| :: !p(s[k])
    ensures Unmatched(s, p) == s
    decreases s
  {
    if s != [] {
      AllUnmatched(s[1..], p);
    }
  }

  /** Buckets before i hold no matching value. */
  ghost predicate Scanned(c: seq<Bucket>, i: nat, p: Entry -> bool)
    requires i <= |c|
  {
    forall j: nat | j < i && Used(c[j]) :: !p(c[j].slot)
  }

  /** A deletion at i moves no unscanned value before i, not even across the end of the buckets. */
  lemma {:induction false} ScannedStays(c0: seq<Bucket>, c: seq<Bucket>, cap: nat, i: nat, p: Entry -> bool)
    requires i < cap < |c0| && |c| == |c0| && Scanned(c0, i, p) && AllFrom(c0, c, cap, i)
    ensures Scanned(c, i, p)
  {
    forall j: nat | j < i && Used(c[j]) ensures !p(c[j].slot) {
      assert Origin(c0, c, cap, i, j);
    }
  }

  lemma {:induction false} AllScanned(c: seq<Bucket>, cap: nat, l: seq<int>, p: Entry -> bool)
    requires |c| == cap + 1 && Covers(c, l) && InRange(c, l) && !Used(c[cap]) && Scanned(c, cap, p)
    ensures Unmatched(Contents(c, l), p) == Contents(c, l)
  {
    forall k | 0 <= k < |l| ensures !p(Contents(c, l)[k]) {
      assert l[k] in l;
      var j: nat := l[k];
    }
    AllUnmatched(Contents(c, l), p);
  }
}

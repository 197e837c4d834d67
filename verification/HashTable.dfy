/** The ordered `HashTable` of AK/HashTable.h. */
module HashTable {
  import opened HashBuckets
  import opened HashProbe
  import opened HashState

  datatype HashSetResult = InsertedNewEntry | ReplacedExistingEntry | KeptExistingEntry
  datatype HashSetExistingEntryBehavior = Keep | Replace

  function Larger(a: nat, b: nat): nat {
    if a > b then a else b
  }

  class HashTable {
    const traits: Traits
    /** The buckets, followed by the cell that an insertion holds the value in that it is moving. */
    var cells: seq<Bucket>
    var capacity: nat
    var size: nat
    var head: int
    var tail: int
    /** The used buckets in the order in which their values were first inserted. */
    ghost var order: seq<int>

    /** `update_collection_for_swapped_buckets`. */
    method SwapLinks(left: int, right: int, ghost c: seq<Bucket>, ghost l: seq<int>)
      requires Chain(c, l, head, tail) && Exchanged(c, cells, l, left, right)
      modifies this`cells, this`head, this`tail
      ensures Chain(cells, Swapped(l, left, right), head, tail)
      ensures SamePayload(old(cells), cells)
      ensures forall i | 0 <= i < |cells| && i !in l && i != left && i != right :: cells[i] == old(cells)[i]
    {
      ghost var h, t, c1 := head, tail, cells;
      SwapEnds(left, right);
      SwapInRange(c, c1, l, left, right, h, t);
      PointBackLeft(left, right);
      ghost var c2 := cells;
      AfterLeft(c, c1, c2, l, left, right, h, t);
      PointBackRight(left, right);
      SwapCompleted(c, c1, c2, cells, l, left, right, h, t);
      forall i | 0 <= i < |cells| && i !in l && i != left && i != right ensures cells[i] == c1[i] {
        SwapElsewhere(c, c1, c2, cells, l, left, right, h, t, i);
      }
    }

    method SwapEnds(left: int, right: int)
      requires left != right
      modifies this`head, this`tail
      ensures head == Swap(left, right, old(head)) && tail == Swap(left, right, old(tail))
    {
      if head == left {
        head := right;
      } else if head == right {
        head := left;
      }
      if tail == left {
        tail := right;
      } else if tail == right {
        tail := left;
      }
    }

    method PointBackLeft(left: int, right: int)
      requires 0 <= left < |cells| && 0 <= right < |cells| && left != right
      requires cells[left].previous != NULL ==> 0 <= cells[left].previous < |cells|
      requires cells[left].next != NULL ==> 0 <= cells[left].next < |cells|
      modifies this`cells
      ensures LeftDone(old(cells), cells, left, right)
    {
      ghost var c := cells;
      PointPreviousBack(left, right);
      ghost var c1 := cells;
      PointNextBack(left, right);
      LeftRounds(c, c1, cells, left, right);
    }

    method PointPreviousBack(left: int, right: int)
      requires 0 <= left < |cells| && 0 <= right < |cells| && left != right
      requires cells[left].previous != NULL ==> 0 <= cells[left].previous < |cells|
      modifies this`cells
      ensures PreviousBack(old(cells), cells, left, right)
    {
      if cells[left].previous != NULL {
        if cells[left].previous == left {
          cells := cells[left := cells[left].(previous := right)];
        }
        var p := cells[left].previous;
        cells := cells[p := cells[p].(next := left)];
      }
    }

    method PointNextBack(left: int, right: int)
      requires 0 <= left < |cells| && 0 <= right < |cells| && left != right
      requires cells[left].next != NULL ==> 0 <= cells[left].next < |cells|
      modifies this`cells
      ensures NextBack(old(cells), cells, left, right)
    {
      if cells[left].next != NULL {
        if cells[left].next == left {
          cells := cells[left := cells[left].(next := right)];
        }
        var n := cells[left].next;
        cells := cells[n := cells[n].(previous := left)];
      }
    }

    method PointBackRight(left: int, right: int)
      requires 0 <= left < |cells| && 0 <= right < |cells| && left != right
      requires cells[right].previous != NULL ==> 0 <= cells[right].previous < |cells| && cells[right].previous != right
      requires cells[right].next != NULL ==> 0 <= cells[right].next < |cells| && cells[right].next != right
      modifies this`cells
      ensures RightDone(old(cells), cells, left, right)
    {
      if cells[right].previous != NULL && cells[right].previous != left {
        var p := cells[right].previous;
        cells := cells[p := cells[p].(next := right)];
      }
      if cells[right].next != NULL && cells[right].next != left {
        var n := cells[right].next;
        cells := cells[n := cells[n].(previous := right)];
      }
    }

    /** `update_collection_for_new_bucket`. */
    method AppendBucket(i: int, ghost l: seq<int>)
      requires Chain(cells, l, head, tail) && 0 <= i < |cells| && i !in l
      requires cells[i].next == NULL && (l == [] ==> cells[i].previous == NULL)
      modifies this`cells, this`head, this`tail
      ensures Chain(cells, l + [i], head, tail) && SamePayload(old(cells), cells)
      ensures forall x | 0 <= x < |cells| && x !in l && x != i :: cells[x] == old(cells)[x]
    {
      ghost var c, h, t := cells, head, tail;
      assert l != [] ==> LinkedAt(c, l, 0) && LinkedAt(c, l, |l| - 1);
      if head == NULL {
        head := i;
      } else {
        assert tail in l;
        cells := cells[i := cells[i].(previous := tail)];
        cells := cells[tail := cells[tail].(next := i)];
      }
      tail := i;
      AppendedChain(c, cells, l, h, t, i);
    }

    /** The unlinking in `delete_bucket`. */
    method UnlinkBucket(i: int, ghost l: seq<int>, ghost k: nat)
      requires Chain(cells, l, head, tail) && k < |l| && l[k] == i
      modifies this`cells, this`head, this`tail
      ensures Chain(cells, Without(l, k), head, tail) && SamePayload(old(cells), cells)
      ensures forall x | 0 <= x < |cells| && x !in l :: cells[x] == old(cells)[x]
      ensures 0 <= i < |cells| && cells[i].previous == NULL && cells[i].next == NULL
    {
      ghost var c, h, t := cells, head, tail;
      assert i in l;
      Neighbours(c, l, h, t, i);
      var p, n := cells[i].previous, cells[i].next;
      if p != NULL {
        cells := cells[p := cells[p].(next := n)];
      } else {
        head := n;
      }
      if n != NULL {
        cells := cells[n := cells[n].(previous := p)];
      } else {
        tail := p;
      }
      cells := cells[i := cells[i].(previous := NULL, next := NULL)];
      UnlinkedChain(c, cells, l, h, t, k);
      UnlinkedElsewhere(c, cells, l, h, t, i);
    }

    // ---- looking up ----

    ghost predicate Here()
      reads this
    {
      State(traits, cells, capacity, order, head, tail) && InRange(cells, order)
    }

    predicate Matches(b: Bucket, hash: nat, key: Key) {
      (!traits.stored || b.hash == hash) && b.slot.key == key
    }

    /** The probing of `lookup_for_writing`: the bucket of the key, or the one a new value should take. */
    method ProbeForWriting(key: Key, ghost free: nat) returns (i: nat, probe: nat, found: bool)
      requires free < capacity < |cells| && RobinHood(traits, cells, capacity) && !Used(cells[free])
      ensures i < capacity
      ensures found ==> Used(cells[i]) && cells[i].slot.key == key
      ensures !found ==> && Absent(cells, capacity, key) && probe == Dist(Home(traits, key, capacity), i, capacity)
                         && (Used(cells[i]) ==> Probe(traits, cells[i], i, capacity) < probe)
                         && CanFollow(traits, cells, i, capacity, probe)
    {
      var hash := traits.hash(key);
      i, probe := hash % capacity, 0;
      while true
        invariant i < capacity && Probing(traits, cells, capacity, key, i, probe, free)
        decreases Dist(i, free, capacity)
      {
        var b := cells[i];
        if b.state == FREE {
          ProbeStops(traits, cells, capacity, key, i, probe, free);
          return i, probe, false;
        }
        assert Fits(traits, cells, i, capacity);
        if Matches(b, hash, key) {
          return i, probe, true;
        }
        DecodedIsProbe(traits, b, i, capacity);
        if probe > DecodedProbe(traits, b, i, capacity) {
          ProbeStops(traits, cells, capacity, key, i, probe, free);
          return i, probe, false;
        }
        ProbeOn(traits, cells, capacity, key, i, probe, free);
        i := if i + 1 == capacity then 0 else i + 1;
        probe := probe + 1;
      }
    }

    // ---- inserting ----

    /** The bucket of a value about to be stored: state, hash and slot; the links stay. */
    function Filled(b: Bucket, e: Entry, probe: nat): Bucket {
      b.(state := StateFor(probe), hash := if traits.stored then traits.hash(e.key) else b.hash, slot := e)
    }

    /** A new value in a free bucket. */
    method InsertFree(i: nat, e: Entry, probe: nat)
      requires Here() && i < capacity && !Used(cells[i]) && !Used(cells[capacity])
      requires probe == Dist(Home(traits, e.key, capacity), i, capacity) && CanFollow(traits, cells, i, capacity, probe)
      requires Absent(cells, capacity, e.key)
      modifies this`cells, this`head, this`tail, this`size, this`order
      ensures Here() && !Used(cells[capacity]) && size == old(size) + 1
      ensures Contents(cells, order) == old(Contents(cells, order)) + [e] && |order| == |old(order)| + 1
    {
      ghost var c, l := cells, order;
      ghost var b := Filled(cells[i], e, probe);
      CellsApart(c, capacity, l);
      cells := cells[i := Filled(cells[i], e, probe)];
      ChainElsewhere(c, cells, l, head, tail, i);
      AppendBucket(i, l);
      order := l + [i];
      size := size + 1;
      FreeTaken(traits, c, capacity, l, i, b, cells);
    }

    /** Bucket i copied out, so that the list passes through the copy. */
    method HoldBucket(i: nat, ghost l: seq<int>)
      requires Chain(cells, l, head, tail) && |cells| == capacity + 1 && i < capacity && i in l && capacity !in l
      modifies this`cells, this`head, this`tail
      ensures Chain(cells, Swapped(l, i, capacity), head, tail)
      ensures SamePayload(old(cells)[capacity := old(cells)[i]], cells)
      ensures forall x | 0 <= x < |cells| && x !in l && x != i && x != capacity :: cells[x] == old(cells)[x]
    {
      CopiedOut(cells, l, i, capacity);
      ghost var c := cells;
      cells := cells[capacity := cells[i]];
      SwapLinks(i, capacity, c, l);
    }

    /** The new value written to bucket i, which the list no longer passes through, and appended to the list. */
    method FillStolen(i: nat, e: Entry, probe: nat, ghost l: seq<int>)
      requires Chain(cells, l, head, tail) && i < |cells| && i !in l && l != []
      modifies this`cells, this`head, this`tail
      ensures Chain(cells, l + [i], head, tail)
      ensures SamePayload(old(cells)[i := Filled(old(cells)[i], e, probe).(next := NULL)], cells)
      ensures forall x | 0 <= x < |cells| && x !in l && x != i :: cells[x] == old(cells)[x]
    {
      ghost var c := cells;
      cells := cells[i := Filled(cells[i], e, probe)];
      cells := cells[i := cells[i].(next := NULL)];
      ChainElsewhere(c, cells, l, head, tail, i);
      AppendBucket(i, l);
    }

    /** A new value takes bucket i, whose value is now held. */
    method Steal(i: nat, e: Entry, probe: nat, ghost free: nat) returns (target: nat)
      requires Here() && i < capacity && Used(cells[i]) && !Used(cells[capacity]) && free < capacity && !Used(cells[free])
      requires probe == Dist(Home(traits, e.key, capacity), i, capacity) && CanFollow(traits, cells, i, capacity, probe)
      requires Absent(cells, capacity, e.key) && Probe(traits, cells[i], i, capacity) < probe
      modifies this`cells, this`head, this`tail, this`size, this`order
      ensures Here() && size == old(size) + 1 && !Used(cells[free])
      ensures Contents(cells, order) == old(Contents(cells, order)) + [e] && |order| == |old(order)| + 1
      ensures Holding(traits, cells, capacity, Next(i, capacity), target + 1)
    {
      ghost var c, l := cells, order;
      CellsApart(c, capacity, l);
      ProbeHere(traits, c, capacity, i);
      target := DecodedProbe(traits, cells[i], i, capacity);
      ghost var c2, b := StealBucket(i, e, probe, l);
      order := Swapped(l, i, capacity) + [i];
      size := size + 1;
      StealDone(traits, c, capacity, l, i, b, c2, cells, free);
    }

    /** Bucket i copied out and filled anew; c2 is what the cells were in between, and b what is in the bucket. */
    method StealBucket(i: nat, e: Entry, probe: nat, ghost l: seq<int>) returns (ghost c2: seq<Bucket>, ghost b: Bucket)
      requires Chain(cells, l, head, tail) && |cells| == capacity + 1 && i < capacity && i in l && capacity !in l
      modifies this`cells, this`head, this`tail
      ensures Chain(cells, Swapped(l, i, capacity) + [i], head, tail) && |c2| == |cells| == |old(cells)|
      ensures SamePayload(old(cells)[capacity := old(cells)[i]], c2) && SamePayload(c2[i := b], cells)
      ensures forall x | 0 <= x < |cells| && x !in l && x != i && x != capacity :: c2[x] == old(cells)[x]
      ensures forall x | 0 <= x < |cells| && x !in Swapped(l, i, capacity) && x != i :: cells[x] == c2[x]
      ensures b == Filled(c2[i], e, probe).(next := NULL)
    {
      HoldBucket(i, l);
      ghost var l2 := Swapped(l, i, capacity);
      c2, b := cells, Filled(cells[i], e, probe).(next := NULL);
      InSwapped(l, i, capacity, i);
      FillStolen(i, e, probe, l2);
    }

    /** The held value and that of bucket i trade places. */
    method SwapHeld(i: nat, probe: nat, ghost free: nat) returns (target: nat)
      requires Here() && i < capacity && Used(cells[i]) && free < capacity && !Used(cells[free])
      requires Holding(traits, cells, capacity, i, probe) && Probe(traits, cells[i], i, capacity) < probe
      modifies this`cells, this`head, this`tail, this`order
      ensures Here() && !Used(cells[free]) && Contents(cells, order) == old(Contents(cells, order)) && |order| == |old(order)|
      ensures Holding(traits, cells, capacity, Next(i, capacity), target + 1)
      ensures Dist(Next(i, capacity), free, capacity) < Dist(i, free, capacity)
    {
      ghost var c, l := cells, order;
      ProbeHere(traits, c, capacity, i);
      target := DecodedProbe(traits, cells[i], i, capacity);
      TradeHeld(i, probe, l);
      order := Swapped(l, capacity, i);
      SwapDone(traits, c, capacity, l, i, probe, cells, free);
    }

    /** The two cells exchanged, and the list with them. */
    method TradeHeld(i: nat, probe: nat, ghost l: seq<int>)
      requires Chain(cells, l, head, tail) && |cells| == capacity + 1 && i < capacity && i in l && capacity in l
      modifies this`cells, this`head, this`tail
      ensures Chain(cells, Swapped(l, capacity, i), head, tail)
      ensures SamePayload(old(cells)[i := Restated(old(cells)[capacity], probe)][capacity := old(cells)[i]], cells)
      ensures forall x | 0 <= x < |cells| && x !in l && x != i && x != capacity :: cells[x] == old(cells)[x]
    {
      ghost var c := cells;
      TradedCells(c, l, capacity, i, Restated(c[capacity], probe));
      cells := cells[i := cells[capacity]][capacity := cells[i]];
      cells := cells[i := cells[i].(state := StateFor(probe))];
      assert cells == c[i := Restated(c[capacity], probe)][capacity := c[i]];
      SwapLinks(capacity, i, c, l);
    }

    /** The held value goes to a free bucket. */
    method PlaceHeld(i: nat, probe: nat)
      requires Here() && i < capacity && !Used(cells[i]) && Holding(traits, cells, capacity, i, probe)
      modifies this`cells, this`head, this`tail, this`order
      ensures Here() && !Used(cells[capacity])
      ensures Contents(cells, order) == old(Contents(cells, order)) && |order| == |old(order)|
    {
      ghost var c, l := cells, order;
      CellsApart(c, capacity, l);
      PutHeld(i, probe, l);
      ghost var c2 := cells;
      var idle := Bucket(NULL, NULL, FREE, 0, cells[capacity].slot);
      cells := cells[capacity := idle];
      order := Swapped(l, capacity, i);
      HeldPlaced(traits, c, capacity, l, i, probe, c2, idle);
      ChainElsewhere(c2, cells, order, head, tail, capacity);
    }

    /** The held cell copied to a bucket, and the list led through it. */
    method PutHeld(i: nat, probe: nat, ghost l: seq<int>)
      requires Chain(cells, l, head, tail) && |cells| == capacity + 1 && i < capacity && i !in l && capacity in l
      modifies this`cells, this`head, this`tail
      ensures Chain(cells, Swapped(l, capacity, i), head, tail)
      ensures SamePayload(old(cells)[i := Restated(old(cells)[capacity], probe)], cells)
      ensures forall x | 0 <= x < |cells| && x !in l && x != i && x != capacity :: cells[x] == old(cells)[x]
    {
      ghost var c := cells;
      CopiedOut(c, l, capacity, i);
      cells := cells[i := cells[capacity].(state := StateFor(probe))];
      assert Exchanged(c, cells, l, capacity, i);
      SwapLinks(capacity, i, c, l);
    }

    /** The rest of an insertion: find a free bucket, swapping with smaller probe lengths along the way. */
    method Displace(i0: nat, target0: nat, ghost free: nat)
      requires Here() && i0 < capacity && free < capacity && !Used(cells[free])
      requires Holding(traits, cells, capacity, Next(i0, capacity), target0 + 1)
      modifies this`cells, this`head, this`tail, this`order
      ensures Here() && !Used(cells[capacity])
      ensures Contents(cells, order) == old(Contents(cells, order)) && |order| == |old(order)|
    {
      var i: nat := if i0 + 1 == capacity then 0 else i0 + 1;
      var probe: nat := target0 + 1;
      while cells[i].state != FREE
        invariant i < capacity && Here() && !Used(cells[free]) && Holding(traits, cells, capacity, i, probe)
        invariant Contents(cells, order) == old(Contents(cells, order)) && |order| == |old(order)|
        decreases Dist(i, free, capacity)
      {
        ProbeHere(traits, cells, capacity, i);
        if probe > DecodedProbe(traits, cells[i], i, capacity) {
          probe := SwapHeld(i, probe, free);
        } else {
          HeldOn(traits, cells, capacity, i, probe, free);
        }
        i := if i + 1 == capacity then 0 else i + 1;
        probe := probe + 1;
      }
      PlaceHeld(i, probe);
    }

    /** The stored values in first-insertion order. */
    ghost function Values(): seq<Entry>
      reads this
      requires Here()
    {
      Contents(cells, order)
    }

    /** Between operations, apart from the load. */
    ghost predicate Ready()
      reads this
    {
      Here() && |cells| == capacity + 1 && !Used(cells[capacity]) && size == |order|
    }

    /** `lookup_for_writing` and the write of the value that follows it. */
    method WriteValue(e: Entry, behavior: HashSetExistingEntryBehavior) returns (result: HashSetResult, ghost k: nat)
      requires Ready() && size < capacity
      modifies this`cells, this`head, this`tail, this`size, this`order
      ensures Ready() && Written(old(Values()), Values(), e, behavior, result, k)
    {
      ghost var free := FreeBucket(cells, capacity, order);
      var i, probe, found := ProbeForWriting(e.key, free);
      if found {
        k := PositionOf(cells, order, i);
        SlotReplaced(traits, cells, capacity, order, head, tail, k, e);
        if behavior == Replace {
          cells := cells[i := cells[i].(slot := e)];
          return ReplacedExistingEntry, k;
        }
        return KeptExistingEntry, k;
      }
      k := size;
      AbsentKey(cells, capacity, order, e.key);
      if cells[i].state == FREE {
        InsertFree(i, e, probe);
      } else {
        var target := Steal(i, e, probe, free);
        Displace(i, target, free);
      }
      result := InsertedNewEntry;
    }

    // ---- deleting ----

    /** One shift of `delete_bucket`: bucket `from` back into the hole before it. */
    method ShiftBack(to: nat, from: nat, probe: nat, ghost l: seq<int>, ghost k: nat)
      requires Chain(cells, l, head, tail) && to < |cells| && from < |cells| && to != from && to !in l && k < |l| && l[k] == from
      requires probe > 0
      modifies this`cells, this`head, this`tail
      ensures Chain(cells, l[k := to], head, tail) && ShiftedBack(old(cells), cells, to, from, StateFor(probe - 1))
    {
      ghost var c, h, t := cells, head, tail;
      assert from in l;
      Neighbours(c, l, h, t, from);
      cells := cells[to := cells[from]];
      cells := cells[from := cells[from].(previous := NULL, next := NULL)];
      cells := cells[to := cells[to].(state := StateFor(probe - 1))];
      var p, n := cells[to].previous, cells[to].next;
      if p != NULL {
        cells := cells[p := cells[p].(next := to)];
      } else {
        head := to;
      }
      if n != NULL {
        cells := cells[n := cells[n].(previous := to)];
      } else {
        tail := to;
      }
      MovedChain(c, cells, l, h, t, k, to);
    }

    /** `delete_bucket`. */
    method DeleteBucket(i: nat, ghost k: nat)
      requires Ready() && size < capacity && i < capacity && k < |order| && order[k] == i
      modifies this`cells, this`head, this`tail, this`size, this`order
      ensures Ready() && size == old(size) - 1
      ensures Values() == old(Values())[..k] + old(Values())[k + 1..]
      ensures AllFrom(old(cells), cells, capacity, i)
    {
      ghost var c0 := cells;
      ghost var free, d := OpenAt(i, k);
      var to;
      to, d := ShiftAll(i, c0, d, free);
      Deleted(traits, c0, cells, capacity, order, head, tail, i, to, d, free);
      cells := cells[to := cells[to].(state := FREE)];
    }

    /** The shifting loop of `delete_bucket`. */
    method ShiftAll(i: nat, ghost c0: seq<Bucket>, ghost d0: nat, ghost free: nat) returns (to: nat, ghost d: nat)
      requires |cells| == capacity + 1 && i < capacity && free < capacity
      requires Deleting(traits, c0, cells, capacity, order, i, i, d0, free) && Chain(cells, order, head, tail)
      modifies this`cells, this`head, this`tail, this`order
      ensures |cells| == capacity + 1 && Deleting(traits, c0, cells, capacity, order, i, to, d, free)
      ensures Chain(cells, order, head, tail) && |order| == |old(order)|
      ensures Contents(cells, order) == Contents(old(cells), old(order))
      ensures var next := Next(to, capacity); next < capacity && (Used(cells[next]) ==> Probe(traits, cells[next], next, capacity) == 0)
    {
      var from: nat := if i + 1 == capacity then 0 else i + 1;
      to, d := i, d0;
      ghost var values := Contents(cells, order);
      DeletingNext(traits, c0, cells, capacity, order, i, to, d, free);
      while cells[from].state != FREE && DecodedProbe(traits, cells[from], from, capacity) != 0
        invariant from == Next(to, capacity) < capacity && |cells| == capacity + 1
        invariant Deleting(traits, c0, cells, capacity, order, i, to, d, free) && Chain(cells, order, head, tail)
        invariant Contents(cells, order) == values && |order| == |old(order)|
        decreases Dist(to, free, capacity)
      {
        d := ShiftOne(to, from, c0, i, d, free);
        to := NextIndex(to);
        from := NextIndex(from);
      }
      DeletingNext(traits, c0, cells, capacity, order, i, to, d, free);
    }

    /** The unlinking that starts a deletion. */
    method OpenAt(i: nat, ghost k: nat) returns (ghost free: nat, ghost d: nat)
      requires Ready() && size < capacity && i < capacity && k < |order| && order[k] == i
      modifies this`cells, this`head, this`tail, this`size, this`order
      ensures free < capacity && Deleting(traits, old(cells), cells, capacity, order, i, i, d, free)
      ensures Chain(cells, order, head, tail) && size == old(size) - 1 == |order|
      ensures Contents(cells, order) == old(Values())[..k] + old(Values())[k + 1..]
    {
      ghost var c, l := cells, order;
      free := FreeBucket(c, capacity, l);
      assert i in l;
      d := Probe(traits, c[i], i, capacity);
      ghost var h, t := head, tail;
      UnlinkBucket(i, l, k);
      order := Without(l, k);
      size := size - 1;
      HoleOpened(traits, c, capacity, l, h, t, k, cells);
      TraceOpened(c, cells, capacity, i);
    }

    /** One round of the shifting loop. */
    method ShiftOne(to: nat, from: nat, ghost c0: seq<Bucket>, ghost i: nat, ghost d: nat, ghost free: nat)
      returns (ghost d': nat)
      requires from == Next(to, capacity) < capacity && |cells| == capacity + 1 && i < capacity && free < capacity
      requires Deleting(traits, c0, cells, capacity, order, i, to, d, free) && Chain(cells, order, head, tail)
      requires Used(cells[from]) && DecodedProbe(traits, cells[from], from, capacity) != 0
      modifies this`cells, this`head, this`tail, this`order
      ensures |cells| == capacity + 1 && Deleting(traits, c0, cells, capacity, order, i, from, d', free)
      ensures Chain(cells, order, head, tail) && |order| == |old(order)|
      ensures Contents(cells, order) == Contents(old(cells), old(order))
      ensures Dist(from, free, capacity) < Dist(to, free, capacity)
    {
      ghost var c, l, h, t := cells, order, head, tail;
      DeletingNext(traits, c0, c, capacity, l, i, to, d, free);
      d' := Probe(traits, c[from], from, capacity);
      var probe := DecodedProbe(traits, cells[from], from, capacity);
      ghost var k :| 0 <= k < |l| && l[k] == from;
      ShiftBack(to, from, probe, l, k);
      order := l[k := to];
      DeletingOn(traits, c0, c, capacity, l, h, t, i, to, d, free, k, cells);
    }

    method NextIndex(i: nat) returns (next: nat)
      requires i < capacity
      ensures next == Next(i, capacity) < capacity
    {
      next := i + 1;
      if next == capacity {
        next := 0;
      }
    }

    // ---- the table ----

    /** What every operation keeps. The load leaves a free bucket, so every probe ends. */
    ghost predicate Valid()
      reads this
    {
      Ready() && if capacity == 0 then size == 0 else size * 100 < capacity * 80
    }

    constructor (traits: Traits)
      ensures Valid() && Values() == [] && this.traits == traits && capacity == 0
    {
      this.traits := traits;
      var garbage: Entry := *;
      cells, capacity, size, head, tail, order := [Bucket(NULL, NULL, FREE, 0, garbage)], 0, 0, NULL, NULL, [];
    }

    /** `lookup_with_hash`: the bucket of the key, null if it is not stored. */
    method Lookup(key: Key) returns (i: int)
      requires Valid()
      ensures if HasKey(Values(), key) then 0 <= i < capacity && Used(cells[i]) && cells[i].slot.key == key else i == NULL
    {
      if size == 0 {
        return NULL;
      }
      ghost var free := FreeBucket(cells, capacity, order);
      AbsentKey(cells, capacity, order, key);
      i := Probed(key, free);
    }

    method Probed(key: Key, ghost free: nat) returns (r: int)
      requires free < capacity < |cells| && RobinHood(traits, cells, capacity) && !Used(cells[free])
      ensures if Absent(cells, capacity, key) then r == NULL else 0 <= r < capacity && Used(cells[r]) && cells[r].slot.key == key
    {
      var hash := traits.hash(key);
      var i: nat := hash % capacity;
      ghost var probe: nat := 0;
      while cells[i].state != FREE
        invariant i < capacity && probe == Dist(Home(traits, key, capacity), i, capacity) <= Dist(Home(traits, key, capacity), free, capacity)
        invariant Passed(traits, cells, capacity, key, probe)
        decreases Dist(i, free, capacity)
      {
        assert Fits(traits, cells, i, capacity);
        if Matches(cells[i], hash, key) {
          return i;
        }
        LookupOn(traits, cells, capacity, key, i, probe, free);
        i := if i + 1 == capacity then 0 else i + 1;
        probe := probe + 1;
      }
      LookupStops(traits, cells, capacity, key, i, probe);
      r := NULL;
    }

    /** `contains`. */
    method Contains(key: Key) returns (r: bool)
      requires Valid()
      ensures r == HasKey(Values(), key)
    {
      var i := Lookup(key);
      r := i != NULL;
    }

    /** `remove` of a value. */
    method Remove(key: Key) returns (removed: bool, ghost k: nat)
      requires Valid()
      modifies this
      ensures Valid() && capacity == old(capacity) && removed == HasKey(old(Values()), key)
      ensures if removed then && k < |old(Values())| && old(Values())[k].key == key
                              && Values() == old(Values())[..k] + old(Values())[k + 1..]
              else Values() == old(Values())
    {
      var i := Lookup(key);
      k := 0;
      removed := i != NULL;
      if removed {
        k := PositionOf(cells, order, i);
        DeleteBucket(i, k);
      }
    }

    /** `take_first`. */
    method TakeFirst() returns (e: Entry)
      requires Valid() && size != 0
      modifies this
      ensures Valid() && capacity == old(capacity) && old(Values()) == [e] + Values()
    {
      assert LinkedAt(cells, order, 0) && order[0] in order;
      ghost var values := Values();
      e := cells[head].slot;
      DeleteBucket(head, 0);
      assert values == [values[0]] + (values[..0] + values[1..]);
    }

    /** `take_last`. */
    method TakeLast() returns (e: Entry)
      requires Valid() && size != 0
      modifies this
      ensures Valid() && capacity == old(capacity) && old(Values()) == Values() + [e]
    {
      ghost var k, values := |order| - 1, Values();
      assert LinkedAt(cells, order, k) && order[k] in order;
      e := cells[tail].slot;
      DeleteBucket(tail, k);
      assert values == (values[..k] + values[k + 1..]) + [values[k]];
    }

    /** `remove_all_matching`. */
    method RemoveAllMatching(p: Entry -> bool) returns (removed: bool)
      requires Valid()
      modifies this
      ensures Valid() && capacity == old(capacity) && Values() == Unmatched(old(Values()), p)
      ensures removed == (Values() != old(Values()))
    {
      removed := false;
      var i: nat := 0;
      while i < capacity
        invariant Valid() && i <= capacity == old(capacity) && Scanned(cells, i, p)
        invariant Unmatched(Values(), p) == Unmatched(old(Values()), p)
        invariant if removed then |Values()| < |old(Values())| else Values() == old(Values())
        decreases size, capacity - i
      {
        var hit;
        i, hit := ScanBucket(i, p);
        removed := removed || hit;
      }
      AllScanned(cells, capacity, order, p);
    }

    /** One turn of it. */
    method ScanBucket(i: nat, p: Entry -> bool) returns (i': nat, hit: bool)
      requires Valid() && i < capacity && Scanned(cells, i, p)
      modifies this
      ensures Valid() && i <= i' <= capacity == old(capacity) && Scanned(cells, i', p)
      ensures Unmatched(Values(), p) == Unmatched(old(Values()), p)
      ensures if hit then size == old(size) - 1 && |Values()| < |old(Values())|
              else i' == i + 1 && size == old(size) && Values() == old(Values())
    {
      i', hit := i, false;
      if cells[i].state == FREE || !p(cells[i].slot) {
        i' := i + 1;
      } else {
        RemoveMatch(i, p);
        hit := true;
        // a value shifted into this bucket is still to be looked at
        if cells[i].state == FREE {
          i' := i + 1;
        }
      }
    }

    /** One match deleted. */
    method RemoveMatch(i: nat, p: Entry -> bool)
      requires Valid() && i < capacity && Scanned(cells, i, p) && Used(cells[i]) && p(cells[i].slot)
      modifies this
      ensures Valid() && capacity == old(capacity) && Scanned(cells, i, p) && size == old(size) - 1
      ensures Unmatched(Values(), p) == Unmatched(old(Values()), p) && |Values()| == |old(Values())| - 1
    {
      ghost var c := cells;
      ghost var k := PositionOf(cells, order, i);
      UnmatchedWithout(Values(), p, k);
      DeleteBucket(i, k);
      ScannedStays(c, cells, capacity, i, p);
    }

    /** Fresh buckets, as many as asked for. */
    method Allocate(newCapacity: nat)
      modifies this
      ensures Ready() && Values() == [] && capacity == newCapacity && size == 0
    {
      var garbage: Entry := *;
      var b := Bucket(NULL, NULL, FREE, 0, garbage);
      cells := seq(newCapacity + 1, _ => b);
      capacity, size, head, tail, order := newCapacity, 0, NULL, NULL, [];
    }

    /** The reinsertion loop of `try_rehash`, along the old list. */
    method Reinsert(oldCells: seq<Bucket>, first: int, ghost l: seq<int>, ghost last: int)
      requires Ready() && Values() == [] && |l| < capacity
      requires Chain(oldCells, l, first, last) && InRange(oldCells, l) && DistinctEntries(Contents(oldCells, l))
      modifies this`cells, this`head, this`tail, this`size, this`order
      ensures Ready() && Values() == Contents(oldCells, l)
    {
      ghost var values := Contents(oldCells, l);
      var it := first;
      while it != NULL
        invariant Ready() && size <= |l| && it == At(l, size) && Values() == values[..size]
        decreases |l| - size
      {
        ghost var n := size;
        assert LinkedAt(oldCells, l, n);
        FreshKey(values, n);
        var result;
        ghost var k;
        result, k := WriteValue(oldCells[it].slot, Keep);
        OneMore(values, n);
        assert |Values()| == size;
        it := oldCells[it].next;
      }
      ListEnds(oldCells, l, first, last, size);
    }

    /** `try_rehash`, with `slack` the buckets that the allocator's rounding adds. */
    method Rehash(requested: nat, slack: nat)
      requires Valid()
      modifies this
      ensures Valid() && Values() == old(Values())
      ensures capacity == Larger(requested, old(capacity) + 8) + slack
    {
      var newCapacity := Larger(requested, capacity + 8);
      newCapacity := newCapacity + slack;
      ghost var l, last := order, tail;
      NoDuplicates(cells, order, head, tail);
      var oldCells, first := cells, head;
      Allocate(newCapacity);
      Reinsert(oldCells, first, l, last);
      assert |Values()| == size;
    }

    /** `should_grow`. */
    predicate ShouldGrow()
      reads this
    {
      (size + 1) * 100 >= capacity * 80
    }

    /** `try_set`. */
    method Set(e: Entry, behavior: HashSetExistingEntryBehavior, slack: nat) returns (result: HashSetResult, ghost k: nat)
      requires Valid()
      modifies this
      ensures Valid() && Written(old(Values()), Values(), e, behavior, result, k)
      ensures capacity == if (old(size) + 1) * 100 < old(capacity) * 80 then old(capacity)
                          else Larger(old(capacity) * 160 / 100, old(capacity) + 8) + slack
    {
      if ShouldGrow() {
        Rehash(capacity * 160 / 100, slack);
      }
      result, k := WriteValue(e, behavior);
      assert |Values()| == size;
    }

    /** `try_ensure_capacity`: the table will not grow before it holds that many values. */
    method EnsureCapacity(count: nat, slack: nat)
      requires Valid()
      modifies this
      ensures Valid() && Values() == old(Values())
      ensures count * 100 < capacity * 80
      ensures capacity == if count * 100 < old(capacity) * 80 then old(capacity)
                          else Larger(count * 100 / 80 + 1, old(capacity) + 8) + slack
    {
      var required := count * 100 / 80 + 1;
      if required > capacity {
        Rehash(required, slack);
      }
    }

    /** `clear_with_capacity`. */
    method ClearWithCapacity()
      requires Valid()
      modifies this
      ensures Valid() && Values() == [] && capacity == old(capacity)
    {
      Allocate(capacity);
    }

    // ---- iterating ----

    /** Following `next` from the head. */
    method Forwards() returns (values: seq<Entry>)
      requires Valid()
      ensures values == Values()
    {
      values := [];
      var it := head;
      while it != NULL
        invariant |values| <= |order| && it == At(order, |values|) && values == Values()[..|values|]
        decreases |order| - |values|
      {
        assert LinkedAt(cells, order, |values|);
        OneMore(Values(), |values|);
        values := values + [cells[it].slot];
        it := cells[it].next;
      }
      ListEnds(cells, order, head, tail, |values|);
    }

    /** Following `previous` from the tail: the same values in reverse. */
    method Backwards() returns (values: seq<Entry>)
      requires Valid()
      ensures |values| == |Values()| && forall k | 0 <= k < |values| :: values[k] == Values()[|values| - 1 - k]
    {
      values := [];
      var it := tail;
      while it != NULL
        invariant |values| <= |order| && it == At(order, |order| - 1 - |values|)
        invariant forall k | 0 <= k < |values| :: values[k] == Values()[|order| - 1 - k]
        decreases |order| - |values|
      {
        assert LinkedAt(cells, order, |order| - 1 - |values|);
        values := values + [cells[it].slot];
        it := cells[it].previous;
      }
      ListStarts(cells, order, head, tail, |order| - 1 - |values|);
    }
  }

  lemma {:induction false} OneMore(values: seq<Entry>, n: nat)
    requires n < |values|
    ensures values[..n] + [values[n]] == values[..n + 1]
  {
  }

  lemma {:induction false} ListEnds(c: seq<Bucket>, l: seq<int>, head: int, tail: int, n: nat)
    requires Chain(c, l, head, tail) && InRange(c, l) && n <= |l| && At(l, n) == NULL
    ensures n == |l| && Contents(c, l)[..n] == Contents(c, l)
  {
  }

  lemma {:induction false} ListStarts(c: seq<Bucket>, l: seq<int>, head: int, tail: int, n: int)
    requires Chain(c, l, head, tail) && InRange(c, l) && -1 <= n < |l| && At(l, n) == NULL
    ensures n == -1
  {
  }

  lemma {:induction false} FreshKey(values: seq<Entry>, n: nat)
    requires DistinctEntries(values) && n < |values|
    ensures !HasKey(values[..n], values[n].key)
  {
  }

  /** What writing a value does to the sequence of stored values. */
  ghost predicate Written(before: seq<Entry>, after: seq<Entry>, e: Entry, behavior: HashSetExistingEntryBehavior,
                          result: HashSetResult, k: nat)
  {
    if HasKey(before, e.key) then
      && k < |before| && before[k].key == e.key
      && (behavior == Keep ==> result == KeptExistingEntry && after == before)
      && (behavior == Replace ==> result == ReplacedExistingEntry && after == before[k := e])
    else
      result == InsertedNewEntry && after == before + [e]
  }
}

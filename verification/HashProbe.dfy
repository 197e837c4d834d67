/** Robin Hood probing in AK/HashTable.h: the probe lengths of the stored values and the order they keep. */
module HashProbe {
  import opened HashBuckets

  /** What the traits of the stored type provide: a hash that equal values share, and whether it is stored. */
  datatype Traits = Traits(hash: Key -> nat, stored: bool)

  function Home(t: Traits, key: Key, cap: nat): (i: nat)
    requires cap > 0
    ensures i < cap
  {
    t.hash(key) % cap
  }

  function Next(i: nat, cap: nat): nat {
    if i + 1 == cap then 0 else i + 1
  }

  function Prev(i: nat, cap: nat): nat
    requires cap > 0
  {
    if i == 0 then cap - 1 else i - 1
  }

  /** The number of steps from a to i. */
  function Dist(a: nat, i: nat, cap: nat): nat
    requires a < cap && i < cap
  {
    if i < a then cap + i - a else i - a
  }

  function Probe(t: Traits, b: Bucket, i: nat, cap: nat): nat
    requires i < cap
  {
    Dist(Home(t, b.slot.key, cap), i, cap)
  }

  predicate Used(b: Bucket) {
    b.state != FREE
  }

  /** `bucket_state_for_probe_length`. */
  function StateFor(probe: nat): (state: nat)
    ensures FREE < state <= CALCULATE_LENGTH
  {
    if probe > 253 then CALCULATE_LENGTH else probe + 1
  }

  /** `used_bucket_probe_length`: the state byte, or the distance from the ideal bucket once the byte is saturated. */
  function DecodedProbe(t: Traits, b: Bucket, i: nat, cap: nat): nat
    requires i < cap && Used(b)
  {
    if b.state == CALCULATE_LENGTH then
      var ideal := t.hash(b.slot.key) % cap;
      if i < ideal then cap + i - ideal else i - ideal
    else
      b.state - 1
  }

  /** The state byte tells the true probe length, and the stored hash is the value's. */
  ghost predicate Stated(t: Traits, b: Bucket, i: nat, cap: nat)
    requires i < cap
  {
    b.state == StateFor(Probe(t, b, i, cap)) && (t.stored ==> b.hash == t.hash(b.slot.key))
  }

  lemma {:induction false} DecodedIsProbe(t: Traits, b: Bucket, i: nat, cap: nat)
    requires i < cap && Stated(t, b, i, cap)
    ensures Used(b) && DecodedProbe(t, b, i, cap) == Probe(t, b, i, cap)
  {
  }

  /** A bucket away from its ideal place follows a used bucket at most one step closer to its own. */
  ghost predicate Follows(t: Traits, c: seq<Bucket>, i: nat, cap: nat)
    requires i < cap <= |c|
  {
    var p := Probe(t, c[i], i, cap);
    p > 0 ==> Used(c[Prev(i, cap)]) && Probe(t, c[Prev(i, cap)], Prev(i, cap), cap) >= p - 1
  }

  ghost predicate Fits(t: Traits, c: seq<Bucket>, i: nat, cap: nat)
    requires i < cap <= |c|
  {
    Used(c[i]) ==> Stated(t, c[i], i, cap) && Follows(t, c, i, cap)
  }

  /** The Robin Hood invariant. */
  ghost predicate RobinHood(t: Traits, c: seq<Bucket>, cap: nat)
    requires cap <= |c|
  {
    forall i: nat | i < cap :: Fits(t, c, i, cap)
  }

  lemma {:induction false} LinksDoNotMatter(t: Traits, c: seq<Bucket>, c': seq<Bucket>, cap: nat)
    requires cap <= |c| && RobinHood(t, c, cap) && SamePayload(c, c')
    ensures RobinHood(t, c', cap)
  {
    forall i: nat | i < cap ensures Fits(t, c', i, cap) {
      assert Fits(t, c, i, cap);
    }
  }

  // ---- looking up ----

  /** The bucket s steps after the ideal one of a key. */
  function Onward(home: nat, s: nat, cap: nat): (i: nat)
    requires home < cap && s < cap
    ensures i < cap && Dist(home, i, cap) == s
  {
    if home + s < cap then home + s else home + s - cap
  }

  lemma {:induction false} OnwardOfDist(home: nat, i: nat, cap: nat)
    requires home < cap && i < cap
    ensures Onward(home, Dist(home, i, cap), cap) == i
  {
  }

  /** From the ideal bucket of a stored value to its own, every bucket is used and at least as far from its place. */
  lemma {:induction false} Run(t: Traits, c: seq<Bucket>, cap: nat, j: nat, s: nat)
    requires cap <= |c| && RobinHood(t, c, cap) && j < cap && Used(c[j]) && s <= Probe(t, c[j], j, cap)
    ensures var i := Onward(Home(t, c[j].slot.key, cap), s, cap); Used(c[i]) && Probe(t, c[i], i, cap) >= s
    decreases Probe(t, c[j], j, cap) - s
  {
    var home, d := Home(t, c[j].slot.key, cap), Probe(t, c[j], j, cap);
    if s == d {
      OnwardOfDist(home, j, cap);
    } else {
      Run(t, c, cap, j, s + 1);
      var i := Onward(home, s + 1, cap);
      assert Fits(t, c, i, cap);
      assert Prev(i, cap) == Onward(home, s, cap);
    }
  }

  /** The first q buckets from the ideal one are used by other keys. */
  ghost predicate Passed(t: Traits, c: seq<Bucket>, cap: nat, key: Key, q: nat)
    requires 0 < cap <= |c| && q <= cap
  {
    forall s: nat | s < q :: PassedAt(c, Onward(Home(t, key, cap), s, cap), key)
  }

  ghost predicate PassedAt(c: seq<Bucket>, i: nat, key: Key)
    requires i < |c|
  {
    Used(c[i]) && c[i].slot.key != key
  }

  ghost predicate Absent(c: seq<Bucket>, cap: nat, key: Key)
    requires cap <= |c|
  {
    forall j: nat | j < cap && Used(c[j]) :: c[j].slot.key != key
  }

  /** A search may stop at a free bucket, and at one closer to its place than the search has come. */
  lemma {:induction false} StopIsSound(t: Traits, c: seq<Bucket>, cap: nat, key: Key, q: nat)
    requires cap <= |c| && RobinHood(t, c, cap) && q < cap && Passed(t, c, cap, key, q)
    requires var i := Onward(Home(t, key, cap), q, cap); !Used(c[i]) || Probe(t, c[i], i, cap) < q
    ensures Absent(c, cap, key)
  {
    forall j: nat | j < cap && Used(c[j]) ensures c[j].slot.key != key {
      var d := Probe(t, c[j], j, cap);
      if d < q {
        OnwardOfDist(Home(t, c[j].slot.key, cap), j, cap);
        assert PassedAt(c, Onward(Home(t, key, cap), d, cap), key);
      } else if c[j].slot.key == key {
        Run(t, c, cap, j, q);
      }
    }
  }

  lemma {:induction false} PassOne(t: Traits, c: seq<Bucket>, cap: nat, key: Key, q: nat)
    requires cap <= |c| && q < cap && Passed(t, c, cap, key, q) && PassedAt(c, Onward(Home(t, key, cap), q, cap), key)
    ensures Passed(t, c, cap, key, q + 1)
  {
    forall s: nat | s < q + 1 ensures PassedAt(c, Onward(Home(t, key, cap), s, cap), key) {
    }
  }

  /** The bucket before i allows a value with this probe length at i. */
  ghost predicate CanFollow(t: Traits, c: seq<Bucket>, i: nat, cap: nat, probe: nat)
    requires i < cap <= |c|
  {
    probe > 0 ==> Used(c[Prev(i, cap)]) && Probe(t, c[Prev(i, cap)], Prev(i, cap), cap) >= probe - 1
  }

  /** A search for a key that has come to bucket i, with a free bucket still ahead. */
  ghost predicate Probing(t: Traits, c: seq<Bucket>, cap: nat, key: Key, i: nat, probe: nat, free: nat)
    requires i < cap <= |c| && free < cap
  {
    && probe == Dist(Home(t, key, cap), i, cap) && probe <= Dist(Home(t, key, cap), free, cap)
    && Passed(t, c, cap, key, probe) && CanFollow(t, c, i, cap, probe)
  }

  lemma {:induction false} ProbeOn(t: Traits, c: seq<Bucket>, cap: nat, key: Key, i: nat, probe: nat, free: nat)
    requires i < cap <= |c| && free < cap && Probing(t, c, cap, key, i, probe, free) && !Used(c[free])
    requires Used(c[i]) && c[i].slot.key != key && Probe(t, c[i], i, cap) >= probe
    ensures Probing(t, c, cap, key, Next(i, cap), probe + 1, free)
    ensures Dist(Next(i, cap), free, cap) < Dist(i, free, cap)
  {
    OnwardOfDist(Home(t, key, cap), i, cap);
    PassOne(t, c, cap, key, probe);
  }

  lemma {:induction false} ProbeStops(t: Traits, c: seq<Bucket>, cap: nat, key: Key, i: nat, probe: nat, free: nat)
    requires i < cap <= |c| && free < cap && Probing(t, c, cap, key, i, probe, free) && RobinHood(t, c, cap)
    requires !Used(c[i]) || Probe(t, c[i], i, cap) < probe
    ensures Absent(c, cap, key)
  {
    OnwardOfDist(Home(t, key, cap), i, cap);
    StopIsSound(t, c, cap, key, probe);
  }

  /** A lookup goes on to the next bucket. */
  lemma {:induction false} LookupOn(t: Traits, c: seq<Bucket>, cap: nat, key: Key, i: nat, probe: nat, free: nat)
    requires i < cap <= |c| && free < cap && probe == Dist(Home(t, key, cap), i, cap) <= Dist(Home(t, key, cap), free, cap)
    requires Passed(t, c, cap, key, probe) && Used(c[i]) && c[i].slot.key != key && !Used(c[free])
    ensures probe + 1 == Dist(Home(t, key, cap), Next(i, cap), cap) <= Dist(Home(t, key, cap), free, cap)
    ensures Passed(t, c, cap, key, probe + 1) && Dist(Next(i, cap), free, cap) < Dist(i, free, cap)
  {
    OnwardOfDist(Home(t, key, cap), i, cap);
    PassOne(t, c, cap, key, probe);
  }

  lemma {:induction false} LookupStops(t: Traits, c: seq<Bucket>, cap: nat, key: Key, i: nat, probe: nat)
    requires i < cap <= |c| && probe == Dist(Home(t, key, cap), i, cap) && Passed(t, c, cap, key, probe)
    requires RobinHood(t, c, cap) && !Used(c[i])
    ensures Absent(c, cap, key)
  {
    OnwardOfDist(Home(t, key, cap), i, cap);
    StopIsSound(t, c, cap, key, probe);
  }

  // ---- placing a value ----

  /** A value may go to a free bucket, or displace one closer to its place, where the bucket before allows it. */
  lemma {:induction false} Place(t: Traits, c: seq<Bucket>, cap: nat, i: nat, b: Bucket)
    requires i < cap <= |c| && RobinHood(t, c, cap) && Stated(t, b, i, cap)
    requires Used(c[i]) ==> Probe(t, b, i, cap) >= Probe(t, c[i], i, cap)
    requires Follows(t, c[i := b], i, cap)
    ensures RobinHood(t, c[i := b], cap)
  {
    var c' := c[i := b];
    forall j: nat | j < cap ensures Fits(t, c', j, cap) {
      assert Fits(t, c, j, cap);
    }
  }

  // ---- closing a hole ----

  /** The invariant with bucket h left out, counting as one with probe length d. */
  ghost predicate FitsAround(t: Traits, c: seq<Bucket>, i: nat, cap: nat, h: nat, d: nat)
    requires i < cap <= |c|
  {
    i != h && Used(c[i]) ==>
      && Stated(t, c[i], i, cap)
      && if Prev(i, cap) == h then d + 1 >= Probe(t, c[i], i, cap) else Follows(t, c, i, cap)
  }

  ghost predicate Hole(t: Traits, c: seq<Bucket>, cap: nat, h: nat, d: nat)
    requires h < cap <= |c|
  {
    && (forall i: nat | i < cap :: FitsAround(t, c, i, cap, h, d))
    && var p := Prev(h, cap);
       d > 0 ==> p != h && Used(c[p]) && Probe(t, c[p], p, cap) >= d - 1
  }

  lemma {:induction false} OpenHole(t: Traits, c: seq<Bucket>, cap: nat, h: nat)
    requires h < cap <= |c| && RobinHood(t, c, cap) && Used(c[h])
    ensures Hole(t, c, cap, h, Probe(t, c[h], h, cap))
  {
    forall i: nat | i < cap ensures FitsAround(t, c, i, cap, h, Probe(t, c[h], h, cap)) {
      assert Fits(t, c, i, cap);
    }
    assert Fits(t, c, h, cap);
  }

  lemma {:induction false} HoleLinks(t: Traits, c: seq<Bucket>, c': seq<Bucket>, cap: nat, h: nat, d: nat)
    requires h < cap <= |c| && Hole(t, c, cap, h, d) && SamePayload(c, c')
    ensures Hole(t, c', cap, h, d)
  {
    forall i: nat | i < cap ensures FitsAround(t, c', i, cap, h, d) {
      assert FitsAround(t, c, i, cap, h, d);
    }
  }

  lemma {:induction false} ShiftHole(t: Traits, c: seq<Bucket>, cap: nat, h: nat, d: nat, c': seq<Bucket>)
    requires h < cap <= |c| && Hole(t, c, cap, h, d) && Next(h, cap) != h
    requires var from := Next(h, cap); var p := Probe(t, c[from], from, cap);
             && Used(c[from]) && p > 0 && |c'| == |c|
             && c'[h].state == StateFor(p - 1) && c'[h].slot == c[from].slot && c'[h].hash == c[from].hash
             && (forall i: nat | i < cap && i != h && i != from :: c'[i] == c[i])
    ensures var from := Next(h, cap); Hole(t, c', cap, from, Probe(t, c[from], from, cap))
    ensures Probe(t, c'[h], h, cap) == Probe(t, c[Next(h, cap)], Next(h, cap), cap) - 1
  {
    var from := Next(h, cap);
    var p := Probe(t, c[from], from, cap);
    assert FitsAround(t, c, from, cap, h, d);
    assert Prev(from, cap) == h;
    assert Probe(t, c'[h], h, cap) == p - 1;
    forall i: nat | i < cap ensures FitsAround(t, c', i, cap, from, p) {
      assert FitsAround(t, c, i, cap, h, d);
    }
  }

  lemma {:induction false} CloseHole(t: Traits, c: seq<Bucket>, cap: nat, h: nat, d: nat, b: Bucket)
    requires h < cap <= |c| && Hole(t, c, cap, h, d) && !Used(b) && Next(h, cap) != h
    requires var next := Next(h, cap); Used(c[next]) ==> Probe(t, c[next], next, cap) == 0
    ensures RobinHood(t, c[h := b], cap)
  {
    var c' := c[h := b];
    forall i: nat | i < cap ensures Fits(t, c', i, cap) {
      assert FitsAround(t, c, i, cap, h, d);
      assert Prev(i, cap) == h ==> i == Next(h, cap);
    }
  }
}

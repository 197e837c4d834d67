/** The arithmetic behind `copy_from_seekback` of AK/CircularBuffer.cpp: how far its doubling distance can go, and why
    copying at the doubled distance still is the byte-at-a-time back-reference of section 3.2.3 of RFC 1951. */
module CircularCopy {
  import opened Basics

  // ---- the reference: one byte at a time ----

  /** `count` bytes appended, each a copy of the byte `d` before it. */
  ghost function BackReference(h: seq<Byte>, d: nat, count: nat): (g: seq<Byte>)
    requires 0 < d <= |h|
    ensures |g| == |h| + count
  {
    if count == 0 then h
    else
      var g := BackReference(h, d, count - 1);
      g + [g[|g| - d]]
  }

  lemma {:induction false} BackReferenceAt(h: seq<Byte>, d: nat, count: nat, x: nat)
    requires 0 < d <= |h| && |h| <= x < |h| + count
    ensures var g := BackReference(h, d, count); g[x] == g[x - d]
    decreases count
  {
    if x < |h| + count - 1 {
      BackReferenceAt(h, d, count - 1, x);
    }
  }

  // ---- doubling ----

  ghost function Doubled(d: nat, k: nat): (r: nat)
    ensures r >= d
  {
    if k == 0 then d else 2 * Doubled(d, k - 1)
  }

  /** Far enough into the copy, the byte at the doubled distance is the byte at the distance asked for. */
  lemma {:induction false} Echo(h: seq<Byte>, d: nat, count: nat, k: nat, x: nat)
    requires 0 < d <= |h| && |h| + Doubled(d, k) - d <= x <= |h| + count
    ensures var g := BackReference(h, d, count); Doubled(d, k) <= x && g[x - Doubled(d, k)] == g[x - d]
    decreases k
  {
    if k > 0 {
      var half := Doubled(d, k - 1);
      Echo(h, d, count, k - 1, x);
      Echo(h, d, count, k - 1, x - half);
      BackReferenceAt(h, d, count, x - half);
    }
  }

  /** A chunk copied at the doubled distance, no longer than that distance, continues the back-reference. */
  lemma {:induction false} ChunkCopied(h: seq<Byte>, g: seq<Byte>, d: nat, copied: nat, total: nat, k: nat, distance: nat, n: nat)
    requires 0 < d <= |h| && g == BackReference(h, d, copied) && distance == Doubled(d, k) && total == copied + n
    requires n <= distance <= d + copied
    ensures g + g[|g| - distance..][..n] == BackReference(h, d, total)
    decreases n
  {
    if n == 0 {
      assert g + [] == g;
    } else {
      var total', n' := total - 1, n - 1;
      ChunkCopied(h, g, d, copied, total', k, distance, n');
      var b := BackReference(h, d, total');
      Echo(h, d, total', k, |b|);
      LastOfChunk(g, b, distance, n');
    }
  }

  lemma {:induction false} LastOfChunk(g: seq<Byte>, b: seq<Byte>, distance: nat, n: nat)
    requires n < distance <= |g| && b == g + g[|g| - distance..][..n]
    ensures b + [b[|b| - distance]] == g + g[|g| - distance..][..n + 1]
  {
  }

  // ---- how far the doubling goes ----

  /** The largest doubling of d within the capacity. */
  ghost function LastLevel(d: nat, cap: nat): (r: nat)
    requires 0 < d <= cap
    ensures d <= r <= cap < 2 * r
    decreases cap - d
  {
    if 2 * d > cap then d else LastLevel(2 * d, cap)
  }

  /** The copy is asked to go on once the doubled distance has passed the capacity: `start` is where the look-back
      begins, `empty` the room in the buffer. */
  ghost predicate Overshoots(cap: nat, empty: nat, start: nat, d: nat, length: nat)
    requires 0 < d <= cap
  {
    var last := LastLevel(d, cap);
    var split := if start + last > cap then cap - start else 0;
    split + 2 * last - d < empty && length > split + 3 * last - d
  }

  /** In numbers: with `last` the doubling of d that cannot be doubled again, and `split` what the end of the buffer
      cuts off, `reached` bytes have been copied when the look-back would be twice `last`. The copy overshoots exactly if
      there is room beyond them and more than `last` bytes are still asked for. */
  lemma {:induction false} OvershootsInNumbers(cap: nat, empty: nat, start: nat, d: nat, length: nat, k: nat, last: nat)
    requires 0 < d <= cap && last == Doubled(d, k) <= cap < 2 * last
    ensures var split := if start + last > cap then cap - start else 0;
            var reached := split + 2 * last - d;
            Overshoots(cap, empty, start, d, length) <==> reached < empty && length - reached > last
  {
    LastLevelIs(d, cap, k, last);
  }

  lemma {:induction false} LastLevelIs(d: nat, cap: nat, k: nat, last: nat)
    requires 0 < d <= cap && last == Doubled(d, k) <= cap < 2 * last
    ensures LastLevel(d, cap) == last
    decreases k
  {
    if k > 0 {
      DoubledFirst(d, k);
      LastLevelIs(2 * d, cap, k - 1, last);
    }
  }

  lemma {:induction false} DoubledFirst(d: nat, k: nat)
    requires k > 0
    ensures Doubled(d, k) == Doubled(2 * d, k - 1)
    decreases k
  {
    if k > 1 {
      DoubledFirst(d, k - 1);
    }
  }

  /** There is such a doubling. */
  lemma {:induction false} LastDoubling(d: nat, cap: nat) returns (k: nat)
    requires 0 < d <= cap
    ensures Doubled(d, k) <= cap < 2 * Doubled(d, k)
    decreases cap - d
  {
    if 2 * d > cap {
      k := 0;
    } else {
      k := LastDoubling(2 * d, cap);
      k := k + 1;
      DoubledFirst(d, k);
    }
  }

  /** A copy that fits into the buffer never overshoots. */
  lemma {:induction false} FittingCopiesDoNotOvershoot(cap: nat, empty: nat, start: nat, d: nat, length: nat)
    requires 0 < d <= cap && start < cap && length <= cap
    ensures !Overshoots(cap, empty, start, d, length)
  {
  }

  /** Six bytes back in an empty buffer of ten that has been filled before: more than twelve bytes overshoot, because
      the third look-back would be twelve bytes. */
  lemma {:induction false} SomeCopiesOvershoot(length: nat)
    ensures Overshoots(10, 10, 4, 6, length) <==> length > 12
  {
    assert LastLevel(6, 10) == 6;
  }

  /** The state of the copying loop: the distance it has come to, the bytes copied, where its look-back begins. Once
      `settled` the distance no longer changes. */
  ghost predicate Copying(cap: nat, empty: nat, start0: nat, d0: nat, length: nat, d: nat, copied: nat, start: nat, settled: bool)
    requires 0 < d0 <= cap
  {
    && d0 <= d && start0 < cap && copied <= length && copied <= empty <= cap && d <= d0 + copied
    && if settled then
         d <= cap && !Overshoots(cap, empty, start0, d0, length) && (length - copied <= d || copied == empty)
       else
         && (if d <= cap then LastLevel(d, cap) == LastLevel(d0, cap)
             else d == 2 * LastLevel(d0, cap) && length - copied > LastLevel(d0, cap))
         && ((copied == d - d0 && (d <= cap ==> start == start0) && (d > d0 ==> 2 * start0 + d <= 2 * cap))
             || (copied == cap - start0 + d - d0 && (d <= cap ==> start == 0)
                 && start0 + (if d <= cap then d else LastLevel(d0, cap)) > cap))
  }

  /** One turn of the loop: n bytes copied, and the distance doubled after a whole chunk. */
  lemma {:induction false} CopyTurn(cap: nat, empty: nat, start0: nat, d0: nat, length: nat, d: nat, copied: nat, start: nat,
                                    settled: bool, n: nat, total: nat, d': nat, start': nat) returns (settled': bool)
    requires 0 < d0 <= cap && Copying(cap, empty, start0, d0, length, d, copied, start, settled)
    requires d <= cap && start < cap && copied < length && copied < empty
    requires n == TurnLength(cap, empty, length, d, copied, start) && total == copied + n
    requires d' == NextDistance(length, d, copied, n)
    requires start' == StartAfter(cap, start, d' != d, n)
    ensures Copying(cap, empty, start0, d0, length, d', total, start', settled')
  {
    settled' := settled || (d' == d && !(n < d && start + n == cap && copied + n < length && copied + n < empty));
  }

  /** With bytes left and room for them, the loop goes past the capacity exactly in the overshooting case. */
  lemma {:induction false} PastCapacity(cap: nat, empty: nat, start0: nat, d0: nat, length: nat, d: nat, copied: nat, start: nat,
                                        settled: bool)
    requires 0 < d0 <= cap && Copying(cap, empty, start0, d0, length, d, copied, start, settled)
    ensures d > cap && copied < length && copied < empty ==> Overshoots(cap, empty, start0, d0, length)
    ensures copied == length || copied == empty ==> !Overshoots(cap, empty, start0, d0, length)
  {
  }

  lemma {:induction false} CopyStarts(cap: nat, empty: nat, start0: nat, d0: nat, length: nat)
    requires 0 < d0 <= cap && start0 < cap && empty <= cap
    ensures Copying(cap, empty, start0, d0, length, d0, 0, start0, false)
  {
  }

  // ---- the loop as a function ----

  datatype Outcome = Done(total: nat) | Overshot

  /** The look-back position after n bytes: it stays when the distance grows along. */
  function StartAfter(cap: nat, start: nat, doubled: bool, n: nat): nat {
    if doubled then start else if start + n >= cap then start + n - cap else start + n
  }

  function TurnLength(cap: nat, empty: nat, length: nat, d: nat, copied: nat, start: nat): nat
    requires start <= cap && copied <= length && copied <= empty
  {
    Least(Least(cap - start, d), Least(length - copied, empty - copied))
  }

  function NextDistance(length: nat, d: nat, copied: nat, n: nat): nat {
    if length > copied + n + d && n == d then 2 * d else d
  }

  /** The copying loop on its counters. */
  ghost function RunCopy(cap: nat, empty: nat, length: nat, d: nat, copied: nat, start: nat): Outcome
    requires 0 < d && start < cap && copied <= length && copied <= empty
    decreases length - copied
  {
    if copied == length || copied == empty then Done(copied)
    else if d > cap then Overshot
    else
      var n := TurnLength(cap, empty, length, d, copied, start);
      var d' := NextDistance(length, d, copied, n);
      RunCopy(cap, empty, length, d', copied + n, StartAfter(cap, start, d' != d, n))
  }

  /** One turn of it. */
  lemma {:induction false} RunOne(cap: nat, empty: nat, length: nat, d: nat, copied: nat, start: nat,
                                  n: nat, total: nat, d': nat, start': nat)
    requires 0 < d <= cap && start < cap && copied < length && copied < empty
    requires n == TurnLength(cap, empty, length, d, copied, start) && total == copied + n
    requires d' == NextDistance(length, d, copied, n)
    requires start' == StartAfter(cap, start, d' != d, n)
    ensures copied < total <= length && total <= empty && start' < cap && d' > 0
    ensures RunCopy(cap, empty, length, d, copied, start) == RunCopy(cap, empty, length, d', total, start')
  {
  }

  /** What the loop is expected to come to. */
  ghost function Expected(cap: nat, empty: nat, start: nat, d: nat, length: nat): Outcome
    requires 0 < d <= cap
  {
    if Overshoots(cap, empty, start, d, length) then Overshot else Done(Least(length, empty))
  }

  lemma {:induction false} RunEnds(cap: nat, empty: nat, length: nat, start0: nat, d0: nat, d: nat, copied: nat, start: nat, settled: bool)
    requires 0 < d0 <= cap && start < cap && Copying(cap, empty, start0, d0, length, d, copied, start, settled)
    requires copied == length || copied == empty || d > cap
    ensures RunCopy(cap, empty, length, d, copied, start) == Expected(cap, empty, start0, d0, length)
  {
    PastCapacity(cap, empty, start0, d0, length, d, copied, start, settled);
  }

  lemma {:induction false} RunCopyFrom(cap: nat, empty: nat, length: nat, start0: nat, d0: nat, d: nat, copied: nat, start: nat, settled: bool)
    requires 0 < d0 <= cap && start < cap && Copying(cap, empty, start0, d0, length, d, copied, start, settled)
    ensures RunCopy(cap, empty, length, d, copied, start) == Expected(cap, empty, start0, d0, length)
    decreases length - copied
  {
    if copied < length && copied < empty && d <= cap {
      var n := TurnLength(cap, empty, length, d, copied, start);
      var total, d' := copied + n, NextDistance(length, d, copied, n);
      var start' := StartAfter(cap, start, d' != d, n);
      RunOne(cap, empty, length, d, copied, start, n, total, d', start');
      var settled' := CopyTurn(cap, empty, start0, d0, length, d, copied, start, settled, n, total, d', start');
      RunCopyFrom(cap, empty, length, start0, d0, d', total, start', settled');
    } else {
      RunEnds(cap, empty, length, start0, d0, d, copied, start, settled);
    }
  }

  /** The loop fails exactly when the copy overshoots, and otherwise copies as much as fits. */
  lemma {:induction false} RunCopyOutcome(cap: nat, empty: nat, length: nat, d: nat, start: nat)
    requires 0 < d <= cap && start < cap && empty <= cap
    ensures RunCopy(cap, empty, length, d, 0, start) == Expected(cap, empty, start, d, length)
  {
    CopyStarts(cap, empty, start, d, length);
    RunCopyFrom(cap, empty, length, start, d, d, 0, start, false);
  }

  /** The distance stays a doubling, and within what has been copied. */
  lemma {:induction false} DistanceOn(d: nat, k: nat, length: nat, distance: nat, copied: nat, n: nat, total: nat, next: nat)
    returns (k': nat)
    requires 0 < d && distance == Doubled(d, k) <= d + copied && total == copied + n && n <= distance
    requires next == NextDistance(length, distance, copied, n)
    ensures 0 < next == Doubled(d, k') <= d + total
    ensures next == distance || (next == 2 * distance && n == distance)
  {
    k' := if next == distance then k else k + 1;
  }
}

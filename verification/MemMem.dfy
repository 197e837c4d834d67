/** Substring search of AK/MemMem.h: Knuth-Morris-Pratt over a list of chunks, and shift-or for short needles. Both are
    held against the plain notion of a first occurrence. */
module MemMem {
  import opened Basics

  // ---- occurrences ----

  /** n bytes of a from i on are those of b from j on. */
  ghost predicate Agree(a: seq<Byte>, i: int, b: seq<Byte>, j: int, n: int) {
    && 0 <= i && 0 <= j && 0 <= n && i + n <= |a| && j + n <= |b|
    && forall x | i <= x < i + n :: SameAt(a, i, b, j, x)
  }

  ghost predicate SameAt(a: seq<Byte>, i: int, b: seq<Byte>, j: int, x: int) {
    0 <= x < |a| && 0 <= x - i + j < |b| && a[x] == b[x - i + j]
  }

  ghost predicate Occurs(h: seq<Byte>, p: seq<Byte>, s: int) {
    Agree(h, s, p, 0, |p|)
  }

  /** The answer a search should give. */
  ghost predicate FirstOccurrence(h: seq<Byte>, p: seq<Byte>, r: Option<nat>) {
    match r
    case Some(s) => Occurs(h, p, s) && forall s' | 0 <= s' < s :: !Occurs(h, p, s')
    case None => forall s :: !Occurs(h, p, s)
  }

  // ---- borders ----

  /** The first k bytes of p are also the last k of its first i. */
  ghost predicate Border(p: seq<Byte>, k: int, i: int) {
    0 <= k < i <= |p| && Agree(p, 0, p, i - k, k)
  }

  /** Shorter borders are the borders of the border. */
  lemma {:induction false} BorderOfBorder(p: seq<Byte>, k: int, c: int, i: int)
    requires Border(p, c, i) && 0 <= k < c
    ensures Border(p, k, i) <==> Border(p, k, c)
  {
    var d, e := i - k, c - k;
    forall x | 0 <= x < k ensures SameAt(p, 0, p, d, x) <==> SameAt(p, 0, p, e, x) {
      assert SameAt(p, 0, p, i - c, x + e);
    }
  }

  /** A border of one byte more. */
  lemma {:induction false} BorderOn(p: seq<Byte>, k: int, i: int)
    requires 0 <= k < i < |p|
    ensures Border(p, k + 1, i + 1) <==> Border(p, k, i) && p[k] == p[i]
  {
    if Border(p, k + 1, i + 1) {
      assert SameAt(p, 0, p, i + 1 - (k + 1), k);
    }
  }

  /** c is the longest border of the first i bytes. */
  ghost predicate Longest(p: seq<Byte>, c: int, i: int) {
    Border(p, c, i) && forall k | c < k < i :: !Border(p, k, i)
  }

  /** What the table holds: the longest border of the first i bytes that is followed by another byte than they are,
      or -1. */
  ghost predicate Fallback(p: seq<Byte>, k: int, i: int) {
    && 0 <= i < |p| && -1 <= k < i
    && (k >= 0 ==> Border(p, k, i) && p[k] != p[i])
    && forall b | k < b < i && Border(p, b, i) :: p[b] == p[i]
  }

  /** Longer borders than c are not followed by byte i. */
  ghost predicate Candidate(p: seq<Byte>, c: int, i: int) {
    && 0 < i < |p| && -1 <= c < i
    && (c >= 0 ==> Border(p, c, i))
    && forall b | c < b < i && Border(p, b, i) :: p[b] != p[i]
  }

  lemma {:induction false} CandidateBack(p: seq<Byte>, c: int, i: int, k: int)
    requires Candidate(p, c, i) && c >= 0 && p[c] != p[i] && Fallback(p, k, c)
    ensures Candidate(p, k, i)
  {
    if k >= 0 {
      BorderOfBorder(p, k, c, i);
    }
    forall b | k < b < i && Border(p, b, i) ensures p[b] != p[i] {
      if b < c {
        BorderOfBorder(p, b, c, i);
      }
    }
  }

  lemma {:induction false} LongestOn(p: seq<Byte>, c: int, i: int, c': int, j: int)
    requires Candidate(p, c, i) && (c >= 0 ==> p[c] == p[i]) && c' == c + 1 && j == i + 1
    ensures Longest(p, c', j)
  {
    if c >= 0 {
      BorderOn(p, c, i);
    }
    forall k | c' < k < j ensures !Border(p, k, j) {
      BorderOn(p, k - 1, i);
    }
  }

  lemma {:induction false} SameFallback(p: seq<Byte>, c: int, i: int, k: int)
    requires Longest(p, c, i) && i < |p| && p[c] == p[i] && Fallback(p, k, c)
    ensures Fallback(p, k, i)
  {
    if k >= 0 {
      BorderOfBorder(p, k, c, i);
    }
    forall b | k < b < i && Border(p, b, i) ensures p[b] == p[i] {
      if b < c {
        BorderOfBorder(p, b, c, i);
      }
    }
  }

  // ---- the table ----

  ghost predicate Table(p: seq<Byte>, table: seq<int>) {
    |table| <= |p| && forall i | 0 <= i < |table| :: Fallback(p, table[i], i)
  }

  /** `prepare_kmp_partial_table`. */
  method PrepareTable(needle: seq<Byte>) returns (table: seq<int>)
    requires needle != []
    ensures |table| == |needle| && Table(needle, table)
  {
    var position, candidate := 1, 0;
    table := [-1];
    while position < |needle|
      invariant 1 <= position <= |needle| && |table| == position && Table(needle, table)
      invariant Longest(needle, candidate, position)
    {
      ghost var i := position;
      if needle[position] == needle[candidate] {
        SameFallback(needle, candidate, position, table[candidate]);
        TableOn(needle, table, table[candidate]);
        table := table + [table[candidate]];
      } else {
        TableOn(needle, table, candidate);
        table := table + [candidate];
        candidate := FallBack(needle, table, position, candidate);
      }
      ghost var c := candidate;
      position := position + 1;
      candidate := candidate + 1;
      LongestOn(needle, c, i, candidate, position);
    }
  }

  lemma {:induction false} TableOn(p: seq<Byte>, table: seq<int>, k: int)
    requires Table(p, table) && Fallback(p, k, |table|)
    ensures Table(p, table + [k])
  {
  }

  /** The inner loop of it: back to the longest border that byte `position` continues. */
  method FallBack(needle: seq<Byte>, table: seq<int>, position: int, candidate0: int) returns (candidate: int)
    requires 0 < position < |needle| && position <= |table| && Table(needle, table)
    requires Longest(needle, candidate0, position) && needle[candidate0] != needle[position]
    ensures Candidate(needle, candidate, position) && (candidate >= 0 ==> needle[candidate] == needle[position])
  {
    CandidateBack(needle, candidate0, position, table[candidate0]);
    candidate := table[candidate0];
    while candidate >= 0 && needle[candidate] != needle[position]
      invariant Candidate(needle, candidate, position)
      decreases candidate
    {
      CandidateBack(needle, candidate, position, table[candidate]);
      candidate := table[candidate];
    }
  }

  // ---- searching ----

  /** q bytes of the needle match the haystack up to t, and no occurrence starts before them. */
  ghost predicate Partial(h: seq<Byte>, p: seq<Byte>, t: int, q: int) {
    && 0 <= q <= |p| && q <= t <= |h|
    && Agree(h, t - q, p, 0, q)
    && forall s | 0 <= s < t - q :: !Occurs(h, p, s)
  }

  lemma {:induction false} PartialOn(h: seq<Byte>, p: seq<Byte>, t: int, q: int)
    requires Partial(h, p, t, q) && q < |p| && t < |h| && h[t] == p[q]
    ensures Partial(h, p, t + 1, q + 1)
  {
  }

  lemma {:induction false} OccurrenceAt(h: seq<Byte>, p: seq<Byte>, s: int, x: int)
    requires Occurs(h, p, s) && s <= x < s + |p|
    ensures h[x] == p[x - s]
  {
    assert SameAt(h, s, p, 0, x);
  }

  /** An occurrence overlapping the match makes a border of it. */
  lemma {:induction false} OccurrenceIsBorder(h: seq<Byte>, p: seq<Byte>, t: int, q: int, s: int)
    requires Partial(h, p, t, q) && q < |p| && t < |h| && t - q < s <= t && Occurs(h, p, s)
    ensures Border(p, t - s, q) && p[t - s] == h[t]
  {
    var k := t - s;
    var d := q - k;
    forall x | 0 <= x < k ensures SameAt(p, 0, p, d, x) {
      var y := s + x;
      assert SameAt(h, s, p, 0, y);
      assert SameAt(h, t - q, p, 0, y);
    }
    assert SameAt(h, s, p, 0, t);
  }

  /** What agrees with a prefix agrees at its end with the border of that prefix. */
  lemma {:induction false} AgreesWithBorder(h: seq<Byte>, p: seq<Byte>, t: int, q: int, k: int)
    requires 0 <= q <= t <= |h| && q < |p| && Agree(h, t - q, p, 0, q) && Border(p, k, q)
    ensures Agree(h, t - k, p, 0, k)
  {
    var s := t - k;
    forall x | s <= x < t ensures SameAt(h, s, p, 0, x) {
      assert SameAt(p, 0, p, q - k, x - s);
      assert SameAt(h, t - q, p, 0, x);
    }
  }

  lemma {:induction false} PartialBack(h: seq<Byte>, p: seq<Byte>, t: int, q: int, k: int)
    requires Partial(h, p, t, q) && q < |p| && t < |h| && h[t] != p[q] && Fallback(p, k, q)
    ensures if k >= 0 then Partial(h, p, t, k) else Partial(h, p, t + 1, 0)
  {
    if k >= 0 {
      AgreesWithBorder(h, p, t, q, k);
    }
    forall s | 0 <= s < t - k ensures !Occurs(h, p, s) {
      if s == t - q && Occurs(h, p, s) {
        OccurrenceAt(h, p, s, t);
      } else if s > t - q && Occurs(h, p, s) {
        OccurrenceIsBorder(h, p, t, q, s);
      }
    }
  }

  lemma {:induction false} NoneLeft(h: seq<Byte>, p: seq<Byte>, t: int, q: int)
    requires Partial(h, p, t, q) && t == |h| && q < |p|
    ensures FirstOccurrence(h, p, None)
  {
    forall s ensures !Occurs(h, p, s) {
    }
  }

  // ---- the haystack in chunks ----

  ghost function Flatten(chunks: seq<seq<Byte>>): seq<Byte> {
    if chunks == [] then [] else chunks[0] + Flatten(chunks[1..])
  }

  /** Position `current` of chunk `it` is position `total` of the whole. */
  ghost predicate Cursor(chunks: seq<seq<Byte>>, h: seq<Byte>, it: nat, current: nat, total: nat) {
    && it <= |chunks| && current <= total <= |h|
    && (if it < |chunks| then current <= |chunks[it]| else current == 0)
    && h[total - current..] == Flatten(chunks[it..])
  }

  lemma {:induction false} CursorAt(chunks: seq<seq<Byte>>, h: seq<Byte>, it: nat, current: nat, total: nat)
    requires Cursor(chunks, h, it, current, total) && it < |chunks| && current < |chunks[it]|
    ensures total < |h| && h[total] == chunks[it][current]
  {
    var rest := chunks[it..];
    assert rest[0] == chunks[it];
    assert h[total - current..][current] == chunks[it][current];
  }

  lemma {:induction false} CursorOn(chunks: seq<seq<Byte>>, h: seq<Byte>, it: nat, current: nat, total: nat, current': nat, total': nat)
    requires Cursor(chunks, h, it, current, total) && it < |chunks| && current < |chunks[it]|
    requires current' == current + 1 && total' == total + 1
    ensures Cursor(chunks, h, it, current', total')
  {
    CursorAt(chunks, h, it, current, total);
  }

  lemma {:induction false} CursorNext(chunks: seq<seq<Byte>>, h: seq<Byte>, it: nat, current: nat, total: nat, it': nat)
    requires Cursor(chunks, h, it, current, total) && it < |chunks| && current == |chunks[it]| && it' == it + 1
    ensures Cursor(chunks, h, it', 0, total)
  {
    var rest := chunks[it..];
    assert rest[0] == chunks[it] && rest[1..] == chunks[it'..];
    assert h[total..] == h[total - current..][current..];
  }

  lemma {:induction false} CursorEnd(chunks: seq<seq<Byte>>, h: seq<Byte>, it: nat, current: nat, total: nat)
    requires Cursor(chunks, h, it, current, total) && it == |chunks|
    ensures total == |h|
  {
    assert chunks[it..] == [];
  }

  /** `memmem` over chunks. Every turn of its loop lowers twice the bytes left plus the bytes matched plus the chunks
      left. */
  method SearchChunks(chunks: seq<seq<Byte>>, needle: seq<Byte>) returns (r: Option<nat>)
    requires needle != []
    ensures FirstOccurrence(Flatten(chunks), needle, r)
  {
    var table := PrepareTable(needle);
    var total: nat, current: nat, needleIndex: int, it: nat := 0, 0, 0, 0;
    ghost var h := Flatten(chunks);
    assert chunks[0..] == chunks && h[0..] == h;
    while it != |chunks|
      invariant Cursor(chunks, h, it, current, total)
      invariant 0 <= needleIndex < |needle| && Partial(h, needle, total, needleIndex)
      decreases 2 * (|h| - total) + needleIndex + (|chunks| - it)
    {
      var chunk := chunks[it];
      if current >= |chunk| {
        CursorNext(chunks, h, it, current, total, it + 1);
        current, it := 0, it + 1;
      } else {
        total, current, needleIndex := Advance(chunks, needle, table, it, current, total, needleIndex, h);
        if needleIndex == |needle| {
          return Some(total - needleIndex);
        }
      }
    }
    CursorEnd(chunks, h, it, current, total);
    NoneLeft(h, needle, total, needleIndex);
    r := None;
  }

  /** One byte compared: the needle moves on, or falls back. */
  method Advance(chunks: seq<seq<Byte>>, needle: seq<Byte>, table: seq<int>, it: nat, current: nat, total: nat, needleIndex: int,
                 ghost h: seq<Byte>)
    returns (total': nat, current': nat, needleIndex': int)
    requires Cursor(chunks, h, it, current, total) && it < |chunks| && current < |chunks[it]|
    requires 0 <= needleIndex < |needle| == |table| && Table(needle, table) && Partial(h, needle, total, needleIndex)
    ensures Cursor(chunks, h, it, current', total') && 0 <= needleIndex' <= |needle| && Partial(h, needle, total', needleIndex')
    ensures 2 * (|h| - total') + needleIndex' < 2 * (|h| - total) + needleIndex
  {
    total', current', needleIndex' := total, current, needleIndex;
    CursorAt(chunks, h, it, current, total);
    CursorOn(chunks, h, it, current, total, current + 1, total + 1);
    if needle[needleIndex] == chunks[it][current] {
      PartialOn(h, needle, total, needleIndex);
      needleIndex', current', total' := needleIndex + 1, current + 1, total + 1;
      return;
    }
    PartialBack(h, needle, total, needleIndex, table[needleIndex]);
    needleIndex' := table[needleIndex];
    if needleIndex' < 0 {
      needleIndex', current', total' := needleIndex' + 1, current + 1, total + 1;
    }
  }
}

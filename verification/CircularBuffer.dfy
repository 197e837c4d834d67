/** `CircularBuffer` of AK/CircularBuffer.cpp: a queue of bytes that also gives access to bytes already read. */
module CircularBuffer {
  import Arith
  import opened Basics
  import opened CircularCopy

  /** The outcome of a copy; `VerifyFailed` stands for the check that ends the program. */
  datatype CopyResult = Copied(count: nat) | BeyondLimit | VerifyFailed

  /** Where the next byte is written. */
  function WriteHead(readingHead: nat, used: nat, cap: nat): nat {
    if cap <= readingHead + used then readingHead + used - cap else readingHead + used
  }

  /** How many bytes ago position p was written, for a write head w: between 1 and the capacity. */
  function Back(p: nat, w: nat, cap: nat): nat
    requires p < cap && w < cap
  {
    if p < w then w - p else w + cap - p
  }

  /** The position d bytes before the write head. */
  function LookBack(w: nat, d: nat, cap: nat): nat
    requires d <= cap
  {
    if d <= w then w - d else w + cap - d
  }

  /** The look-back position moves along with the write head, and stays when both distance and write head do so. */
  lemma {:induction false} LookBackMoves(readingHead: nat, used: nat, n: nat, used': nat, cap: nat, d: nat, d': nat, start: nat)
    requires readingHead < cap && used' == used + n <= cap && n <= d && 0 < d <= cap
    requires d' == d || (d' == 2 * d && n == d)
    requires start == LookBack(WriteHead(readingHead, used, cap), d, cap)
    ensures start < cap && StartAfter(cap, start, d' != d, n) < cap
    ensures d' <= cap ==> LookBack(WriteHead(readingHead, used', cap), d', cap) == StartAfter(cap, start, d' != d, n)
  {
  }

  /** The last `limit` bytes of the history are in the buffer, ending at the write head. */
  ghost predicate Holds(b: seq<Byte>, w: nat, limit: nat, history: seq<Byte>)
    requires w < |b|
  {
    limit <= |history| && forall p: nat | p < |b| && Back(p, w, |b|) <= limit :: HoldsAt(b, w, history, p)
  }

  ghost predicate HoldsAt(b: seq<Byte>, w: nat, history: seq<Byte>, p: nat)
    requires w < |b| && p < |b|
  {
    Back(p, w, |b|) <= |history| && b[p] == history[|history| - Back(p, w, |b|)]
  }

  /** A sequence with part of it overwritten. */
  function Spliced(b: seq<Byte>, w: nat, data: seq<Byte>): (r: seq<Byte>)
    requires w + |data| <= |b|
    ensures |r| == |b| && forall p: nat | p < |b| :: r[p] == if w <= p < w + |data| then data[p - w] else b[p]
  {
    b[..w] + data + b[w + |data|..]
  }

  /** A contiguous run of bytes written at the write head. */
  lemma {:induction false} HoldsWritten(b: seq<Byte>, w: nat, limit: nat, history: seq<Byte>, data: seq<Byte>)
    requires w < |b| && Holds(b, w, limit, history) && w + |data| <= |b|
    ensures Holds(Spliced(b, w, data), if w + |data| == |b| then 0 else w + |data|, Least(limit + |data|, |b|), history + data)
  {
    var n, w' := |data|, if w + |data| == |b| then 0 else w + |data|;
    var b', h' := Spliced(b, w, data), history + data;
    assert limit + n <= |h'|;
    forall p: nat | p < |b| && Back(p, w', |b|) <= Least(limit + n, |b|) ensures HoldsAt(b', w', h', p) {
      if !(w <= p < w + n) && n > 0 {
        assert Back(p, w', |b|) == Back(p, w, |b|) + n;
        assert HoldsAt(b, w, history, p);
      } else if n == 0 {
        assert HoldsAt(b, w, history, p);
      }
    }
  }

  /** `copy_trimmed_to`: all bytes at once, also when the two overlap. */
  method CopyTo(src: array<Byte>, start: nat, dst: array<Byte>, at: nat, count: nat)
    requires start + count <= src.Length && at + count <= dst.Length
    modifies dst
    ensures dst[..] == Spliced(old(dst[..]), at, old(src[start..start + count]))
  {
    ghost var b, data := dst[..], src[start..start + count];
    forall i | 0 <= i < count {
      dst[at + i] := src[start + i];
    }
    assert dst[..] == Spliced(b, at, data);
  }

  /** The d-th last byte written is at the position that the look-back reaches. */
  lemma {:induction false} HoldsBack(b: seq<Byte>, w: nat, limit: nat, history: seq<Byte>, p: nat)
    requires w < |b| && Holds(b, w, limit, history) && p < |b| && Back(p, w, |b|) <= limit
    ensures Back(p, w, |b|) <= |history| && b[p] == history[|history| - Back(p, w, |b|)]
  {
    assert HoldsAt(b, w, history, p);
  }

  /** The next bytes to read lie at the reading head. */
  lemma {:induction false} ReadData(b: seq<Byte>, readingHead: nat, used: nat, limit: nat, history: seq<Byte>, count: nat)
    requires readingHead < |b| && used <= limit <= |b| && used <= |history|
    requires Holds(b, WriteHead(readingHead, used, |b|), limit, history)
    requires count <= used && readingHead + count <= |b|
    ensures b[readingHead..readingHead + count] == history[|history| - used..][..count]
  {
    var w := WriteHead(readingHead, used, |b|);
    var u := history[|history| - used..];
    forall i | 0 <= i < count ensures b[readingHead..][i] == u[i] {
      assert Back(readingHead + i, w, |b|) == used - i;
      HoldsBack(b, w, limit, history, readingHead + i);
    }
  }

  lemma {:induction false} SpliceGrows(b: seq<Byte>, u: seq<Byte>, n: nat, m: nat)
    requires n + m <= |u| && n + m <= |b|
    ensures Spliced(Spliced(b, 0, u[..n]), n, u[n..][..m]) == Spliced(b, 0, u[..n + m])
  {
  }

  /** The source of a write after its first span, which the first bytes of it went to at position w. */
  ghost function Rewritten(s: seq<Byte>, start: nat, first: nat, w: nat, inside: bool): (r: seq<Byte>)
    requires start + first <= |s| && (inside ==> w + first <= |s|)
    ensures |r| == |s|
  {
    if inside then Spliced(s, w, s[start..start + first]) else s
  }

  /** The n bytes that a write takes from its source: those that do not go to the first span are read once that span
      has been written, which matters when the source lies inside the buffer and across the write head. */
  ghost function Taken(s: seq<Byte>, start: nat, n: nat, first: nat, w: nat, inside: bool): (r: seq<Byte>)
    requires start + n <= |s| && (inside ==> w + first <= |s|)
    ensures |r| == n
  {
    if n <= first then s[start..start + n]
    else s[start..start + first] + Rewritten(s, start, first, w, inside)[start + first..start + n]
  }

  lemma {:induction false} TakenApart(s: seq<Byte>, start: nat, n: nat, first: nat, w: nat, inside: bool)
    requires start + n <= |s| && (inside ==> w + first <= |s|)
    requires inside && first < n ==> start + n <= w
    ensures Taken(s, start, n, first, w, inside) == s[start..start + n]
  {
  }

  /** The source s of a write after some turns of its loop; `more` if there is room left. */
  ghost predicate Underway(s0: seq<Byte>, start: nat, length: nat, first: nat, w: nat, inside: bool, written: nat,
                           s: seq<Byte>, more: bool)
  {
    && start + length <= |s0| && (inside ==> w + first <= |s0|) && written <= length
    && (written == 0 ==> s == s0)
    && (0 < written < length && more ==> written == first && s == Rewritten(s0, start, first, w, inside))
  }

  /** The first turn. */
  lemma {:induction false} FirstTaken(h: seq<Byte>, s: seq<Byte>, start: nat, length: nat, first: nat, w: nat,
                                      inside: bool, n: nat, data: seq<Byte>, s': seq<Byte>, more: bool)
    requires start + length <= |s| && n == Least(length, first) && (inside ==> w + first <= |s|)
    requires data == s[start..start + n] && s' == if inside then Spliced(s, w, data) else s
    ensures Taken(s, start, 0, first, w, inside) == [] && h + data == h + Taken(s, start, n, first, w, inside)
    ensures n > 0 ==> Underway(s, start, length, first, w, inside, n, s', more)
  {
  }

  /** The turn after it. */
  lemma {:induction false} MoreTaken(h: seq<Byte>, s0: seq<Byte>, start: nat, length: nat, first: nat, w: nat,
                                     inside: bool, s: seq<Byte>, n: nat, data: seq<Byte>, s': seq<Byte>, more: bool)
    requires Underway(s0, start, length, first, w, inside, first, s, true) && 0 < first < n <= length
    requires data == s[start + first..start + n] && (more ==> n == length)
    ensures (h + Taken(s0, start, first, first, w, inside)) + data == h + Taken(s0, start, n, first, w, inside)
    ensures Underway(s0, start, length, first, w, inside, n, s', more)
  {
    assert (h + s0[start..start + first]) + data == h + (s0[start..start + first] + data);
  }

  /** Where the write head is after n bytes. */
  function Position(n: nat, cap: nat): nat
    requires cap > 0
  {
    n % cap
  }

  lemma {:induction false} PositionMoves(n: nat, m: nat, cap: nat, w: nat, w': nat)
    requires cap > 0 && w == Position(n, cap) && w + m <= cap && w' == if w + m == cap then 0 else w + m
    ensures Position(n + m, cap) == w'
  {
    Arith.QuotRemAreDivMod(n, cap);
    Arith.QuotRemAreDivMod(n + m, cap);
    RemMoves(n, m, cap, w, w');
  }

  lemma {:induction false} RemMoves(n: nat, m: nat, cap: nat, w: nat, w': nat)
    requires cap > 0 && w == Arith.Rem(n, cap) && w + m <= cap && w' == if w + m == cap then 0 else w + m
    ensures Arith.Rem(n + m, cap) == w'
    decreases n
  {
    if n >= cap {
      RemMoves(n - cap, m, cap, w, w');
      assert n + m - cap == (n - cap) + m;
    } else {
      assert Arith.Rem(0, cap) == 0;
    }
  }

  /** The look-back position, counted from the first byte written. */
  lemma {:induction false} LookBackCounted(n: nat, cap: nat, w: nat, d: nat)
    requires 0 < d <= cap && d <= n && w == Position(n, cap)
    ensures (n - d) % cap == LookBack(w, d, cap) < cap
  {
    var from: nat := n - d;
    var p := Position(from, cap);
    if p + d <= cap {
      PositionMoves(from, d, cap, p, if p + d == cap then 0 else p + d);
    } else {
      var m: nat := cap - p;
      PositionMoves(from, m, cap, p, 0);
      PositionMoves(from + m, d - m, cap, 0, if d - m == cap then 0 else d - m);
    }
  }

  /** When a copy overshoots, counted from the first byte written. */
  lemma {:induction false} CountedOvershoots(cap: nat, empty: nat, n: nat, w: nat, d: nat, length: nat)
    requires 0 < d <= cap && d <= n && w == Position(n, cap)
    ensures forall k: nat ::
      var last := Doubled(d, k);
      var start := (n - d) % cap;
      var reached := (if start + last > cap then cap - start else 0) + 2 * last - d;
      last <= cap < 2 * last ==>
        (Overshoots(cap, empty, LookBack(w, d, cap), d, length) <==> reached < empty && length - reached > last)
  {
    LookBackCounted(n, cap, w, d);
    forall k: nat | Doubled(d, k) <= cap < 2 * Doubled(d, k)
      ensures var last := Doubled(d, k);
        var start := (n - d) % cap;
        var reached := (if start + last > cap then cap - start else 0) + 2 * last - d;
        Overshoots(cap, empty, LookBack(w, d, cap), d, length) <==> reached < empty && length - reached > last
    {
      OvershootsInNumbers(cap, empty, LookBack(w, d, cap), d, length, k, Doubled(d, k));
    }
  }

  class CircularBuffer {
    const buffer: array<Byte>
    var readingHead: nat
    var usedSpace: nat
    var seekbackLimit: nat
    /** Every byte written since the buffer was last cleared. */
    ghost var history: seq<Byte>

    ghost predicate Valid()
      reads this, buffer
    {
      && 0 < buffer.Length && readingHead < buffer.Length
      && usedSpace <= seekbackLimit == Least(|history|, buffer.Length)
      && Head() == Position(|history|, buffer.Length)
      && Holds(buffer[..], Head(), seekbackLimit, history)
    }

    function Head(): nat
      reads this
    {
      WriteHead(readingHead, usedSpace, buffer.Length)
    }

    /** The bytes not yet read, oldest first. */
    ghost function Unread(): seq<Byte>
      reads this
      requires usedSpace <= |history|
    {
      history[|history| - usedSpace..]
    }

    /** `create_empty`. */
    constructor (size: nat)
      requires size > 0
      ensures Valid() && history == [] && readingHead == usedSpace == 0 && buffer.Length == size && fresh(buffer)
    {
      buffer := new Byte[size];
      readingHead, usedSpace, seekbackLimit, history := 0, 0, 0, [];
    }

    /** `clear`. */
    method Clear()
      requires Valid()
      modifies this
      ensures Valid() && history == [] && readingHead == usedSpace == seekbackLimit == 0
    {
      readingHead, usedSpace, seekbackLimit, history := 0, 0, 0, [];
    }

    /** The size of `next_write_span`, which starts at the write head. */
    function NextWriteSize(): nat
      reads this
      requires usedSpace <= buffer.Length
    {
      if buffer.Length <= readingHead + usedSpace then buffer.Length - usedSpace
      else buffer.Length - (readingHead + usedSpace)
    }

    /** One turn of `write`: a copy into the next write span. The source may be the buffer itself. */
    method WritePiece(src: array<Byte>, start: nat, count: nat)
      requires Valid() && start + count <= src.Length && count <= NextWriteSize()
      modifies this, buffer
      ensures Valid() && history == old(history) + old(src[start..start + count]) && usedSpace == old(usedSpace) + count
      ensures readingHead == old(readingHead)
      ensures old(Head()) + count <= buffer.Length
      ensures buffer[..] == Spliced(old(buffer[..]), old(Head()), old(src[start..start + count]))
    {
      ghost var data, b := src[start..start + count], buffer[..];
      var w := Head();
      ghost var w' := if w + count == buffer.Length then 0 else w + count;
      HoldsWritten(b, w, seekbackLimit, history, data);
      PositionMoves(|history|, count, buffer.Length, w, w');
      CopyTo(src, start, buffer, w, count);
      usedSpace := usedSpace + count;
      seekbackLimit := seekbackLimit + count;
      if seekbackLimit > buffer.Length {
        seekbackLimit := buffer.Length;
      }
      history := history + data;
      assert Head() == w';
    }

    /** `write`: as many bytes as fit, in at most two spans. */
    method Write(src: array<Byte>, start: nat, length: nat) returns (written: nat)
      requires Valid() && start + length <= src.Length
      modifies this, buffer
      ensures Valid() && written == Least(length, buffer.Length - old(usedSpace))
      ensures history == old(history) + Taken(old(src[..]), start, written, old(NextWriteSize()), old(Head()), src == buffer)
      ensures (src == buffer ==> start + length <= old(Head()) || old(Head()) <= start) ==>
        history == old(history) + old(src[..])[start..start + written]
      ensures usedSpace == old(usedSpace) + written && readingHead == old(readingHead)
    {
      written := 0;
      ghost var s0, h0, first, w := src[..], history, NextWriteSize(), Head();
      assert h0 == h0 + Taken(s0, start, 0, first, w, src == buffer);
      while written < length && NextWriteSize() > 0
        invariant Valid() && usedSpace == old(usedSpace) + written && readingHead == old(readingHead)
        invariant Underway(s0, start, length, first, w, src == buffer, written, src[..], usedSpace < buffer.Length)
        invariant history == h0 + Taken(s0, start, written, first, w, src == buffer)
        decreases length - written
      {
        var count := Least(length - written, NextWriteSize());
        written := WriteTurn(src, start, length, written, count, s0, h0, first, w);
      }
      if src == buffer ==> start + length <= w || w <= start {
        TakenApart(s0, start, written, first, w, src == buffer);
      }
    }

    /** One turn of `write`. */
    method WriteTurn(src: array<Byte>, start: nat, length: nat, written: nat, count: nat,
                     ghost s0: seq<Byte>, ghost h0: seq<Byte>, ghost first: nat, ghost w: nat) returns (total: nat)
      requires Valid() && start + length <= src.Length && written < length && 0 < count == Least(length - written, NextWriteSize())
      requires Underway(s0, start, length, first, w, src == buffer, written, src[..], true)
      requires history == h0 + Taken(s0, start, written, first, w, src == buffer)
      requires if written == 0 then Head() == w && NextWriteSize() == first else buffer.Length <= readingHead + usedSpace
      modifies this, buffer
      ensures Valid() && total == written + count && usedSpace == old(usedSpace) + count && readingHead == old(readingHead)
      ensures Underway(s0, start, length, first, w, src == buffer, total, src[..], usedSpace < buffer.Length)
      ensures history == h0 + Taken(s0, start, total, first, w, src == buffer)
    {
      var from := start + written;
      total := written + count;
      ghost var s, data := src[..], src[from..from + count];
      assert data == s[from..from + count];
      WritePiece(src, from, count);
      assert src != buffer ==> src[..] == s;
      if written == 0 {
        FirstTaken(h0, s0, start, length, first, w, src == buffer, count, data, src[..], usedSpace < buffer.Length);
        assert h0 + [] == h0;
      } else {
        MoreTaken(h0, s0, start, length, first, w, src == buffer, s, total, data, src[..], usedSpace < buffer.Length);
      }
    }

    /** The size of `next_read_span`, which starts at the reading head. */
    function NextReadSize(): nat
      reads this
      requires readingHead <= buffer.Length
    {
      Least(buffer.Length - readingHead, usedSpace)
    }

    /** One turn of `read`. */
    method ReadPiece(bytes: array<Byte>, offset: nat, count: nat)
      requires Valid() && bytes != buffer && offset + count <= bytes.Length && count <= NextReadSize()
      modifies this`readingHead, this`usedSpace, bytes
      ensures Valid() && usedSpace == old(usedSpace) - count
      ensures bytes[..] == Spliced(old(bytes[..]), offset, old(Unread())[..count])
    {
      ghost var b, data := buffer[..], Unread()[..count];
      ReadData(b, readingHead, usedSpace, seekbackLimit, history, count);
      assert buffer[readingHead..readingHead + count] == b[readingHead..readingHead + count] == data;
      CopyTo(buffer, readingHead, bytes, offset, count);
      assert buffer[..] == b;
      usedSpace := usedSpace - count;
      readingHead := readingHead + count;
      if readingHead >= buffer.Length {
        readingHead := readingHead - buffer.Length;
      }
    }

    /** `read`: the oldest unread bytes, as many as fit. */
    method Read(bytes: array<Byte>) returns (count: nat)
      requires Valid() && bytes != buffer
      modifies this`readingHead, this`usedSpace, bytes
      ensures Valid() && count == Least(bytes.Length, old(usedSpace)) && usedSpace == old(usedSpace) - count
      ensures bytes[..count] == old(Unread())[..count] && Unread() == old(Unread())[count..]
      ensures bytes[count..] == old(bytes[count..])
    {
      count := 0;
      ghost var b0, u := bytes[..], Unread();
      while count < bytes.Length && NextReadSize() > 0
        invariant Valid() && count <= bytes.Length && count <= old(usedSpace) && usedSpace == old(usedSpace) - count
        invariant count <= |u| && bytes[..] == Spliced(b0, 0, u[..count])
        decreases bytes.Length - count
      {
        var piece := Least(bytes.Length - count, NextReadSize());
        assert Unread() == u[count..];
        ReadPiece(bytes, count, piece);
        SpliceGrows(b0, u, count, piece);
        count := count + piece;
      }
      assert Unread() == u[count..];
    }

    /** `discard`. */
    method Discard(size: nat) returns (r: Result<bool>)
      requires Valid()
      modifies this`readingHead, this`usedSpace
      ensures Valid()
      ensures if size <= old(usedSpace)
              then && r.Ok? && Unread() == old(Unread())[size..] && usedSpace == old(usedSpace) - size
                   && readingHead == (old(readingHead) + size) % buffer.Length
              else r.Error? && Unread() == old(Unread()) && usedSpace == old(usedSpace) && readingHead == old(readingHead)
    {
      if usedSpace < size {
        return Error;
      }
      Wrapped(readingHead + size, buffer.Length);
      usedSpace := usedSpace - size;
      readingHead := (readingHead + size) % buffer.Length;
      r := Ok(true);
    }

    // ---- looking back ----

    /** `next_seekback_span`: where it starts and how long it is. */
    method NextSeekbackSpan(distance: nat) returns (start: nat, size: nat)
      requires Valid() && distance <= seekbackLimit
      ensures start == LookBack(Head(), distance, buffer.Length) < buffer.Length && size == Least(buffer.Length - start, distance)
    {
      SeekbackAt(readingHead, usedSpace, buffer.Length, distance);
      start := (buffer.Length + readingHead + usedSpace - distance) % buffer.Length;
      size := Least(buffer.Length - start, distance);
    }

    /** `read_with_seekback`: the bytes from `distance` before the write head, as many as fit. */
    method ReadWithSeekback(bytes: array<Byte>, distance0: nat) returns (r: Result<nat>)
      requires Valid() && bytes != buffer
      modifies bytes
      ensures if distance0 > seekbackLimit then r.Error? && bytes[..] == old(bytes[..])
              else && r.Ok? && r.value == Least(bytes.Length, distance0)
                   && bytes[..] == Spliced(old(bytes[..]), 0, history[|history| - distance0..][..r.value])
    {
      if distance0 > seekbackLimit {
        return Error;
      }
      var count := SeekbackLoop(bytes, distance0, history[|history| - distance0..]);
      r := Ok(count);
    }

    method SeekbackLoop(bytes: array<Byte>, distance0: nat, ghost u: seq<Byte>) returns (count: nat)
      requires Valid() && bytes != buffer && distance0 <= seekbackLimit && u == history[|history| - distance0..]
      modifies bytes
      ensures count == Least(bytes.Length, distance0) && bytes[..] == Spliced(old(bytes[..]), 0, u[..count])
    {
      var distance: nat := distance0;
      count := 0;
      ghost var b0 := bytes[..];
      while count < bytes.Length
        invariant Valid() && count <= bytes.Length && count <= distance0 && distance == distance0 - count
        invariant bytes[..] == Spliced(b0, 0, u[..count])
        decreases bytes.Length - count
      {
        var piece := SeekbackPiece(bytes, count, distance);
        if piece == 0 {
          break;
        }
        assert history[|history| - distance..] == u[count..];
        SpliceGrows(b0, u, count, piece);
        distance := distance - piece;
        count := count + piece;
      }
    }

    /** One turn of `read_with_seekback`. */
    method SeekbackPiece(bytes: array<Byte>, offset: nat, distance: nat) returns (piece: nat)
      requires Valid() && bytes != buffer && offset <= bytes.Length && distance <= seekbackLimit
      modifies bytes
      ensures Valid() && piece <= distance && offset + piece <= bytes.Length
      ensures bytes[..] == Spliced(old(bytes[..]), offset, history[|history| - distance..][..piece])
      ensures piece == 0 ==> distance == 0 || offset == bytes.Length
    {
      ghost var b := buffer[..];
      var start, size := NextSeekbackSpan(distance);
      piece := Least(bytes.Length - offset, size);
      SeekbackData(b, Head(), seekbackLimit, history, distance, start, piece);
      assert buffer[start..start + piece] == b[start..start + piece];
      CopyTo(buffer, start, bytes, offset, piece);
      assert buffer[..] == b;
    }

    /** `copy_from_seekback`. A distance within the limit gives the byte-at-a-time back-reference, unless the copy
        overshoots; a distance of zero copies nothing. */
    method CopyFromSeekback(distance0: nat, length: nat) returns (r: CopyResult)
      requires Valid()
      modifies this, buffer
      ensures Valid()
      ensures distance0 > old(seekbackLimit) ==> r == BeyondLimit && history == old(history) && usedSpace == old(usedSpace)
      ensures distance0 == 0 ==> r == Copied(0) && history == old(history) && usedSpace == old(usedSpace)
      ensures 0 < distance0 <= old(seekbackLimit) ==>
                var empty := buffer.Length - old(usedSpace);
                if Overshoots(buffer.Length, empty, old(LookBack(Head(), distance0, buffer.Length)), distance0, length) then r == VerifyFailed
                else && r == Copied(Least(length, empty))
                     && history == BackReference(old(history), distance0, Least(length, empty))
                     && usedSpace == old(usedSpace) + Least(length, empty)
      // The same in numbers: `last` is the doubling of the distance that cannot be doubled again within the capacity.
      ensures 0 < distance0 <= old(seekbackLimit) ==>
                forall k: nat ::
                  var cap, empty, last := buffer.Length, buffer.Length - old(usedSpace), Doubled(distance0, k);
                  var start := (|old(history)| - distance0) % cap;
                  var reached := (if start + last > cap then cap - start else 0) + 2 * last - distance0;
                  last <= cap < 2 * last ==> (r == VerifyFailed <==> reached < empty && length - reached > last)
      ensures 0 < distance0 <= old(seekbackLimit) && length <= buffer.Length - old(usedSpace) ==>
                r == Copied(length) && history == BackReference(old(history), distance0, length)
    {
      if distance0 > seekbackLimit {
        return BeyondLimit;
      }
      if distance0 == 0 {
        r := CopyNothing(length);
      } else {
        ghost var cap, empty, n, w := buffer.Length, buffer.Length - usedSpace, |history|, Head();
        r := CopyLoop(distance0, length);
        if length <= cap {
          FittingCopiesDoNotOvershoot(cap, empty, LookBack(w, distance0, cap), distance0, length);
        }
        CountedOvershoots(cap, empty, n, w, distance0, length);
      }
    }

    /** The copying loop at distance zero, whose first look-back is empty. */
    method CopyNothing(length: nat) returns (r: CopyResult)
      requires Valid()
      ensures r == Copied(0)
    {
      if length > 0 && usedSpace < buffer.Length {
        var start, size := NextSeekbackSpan(0);
        assert size == 0;
      }
      r := Copied(0);
    }

    /** One turn of `copy_from_seekback`: the look-back span written behind itself. */
    method CopyPiece(distance: nat, remaining: nat) returns (n: nat)
      requires Valid() && 0 < distance <= seekbackLimit && usedSpace < buffer.Length
      modifies this, buffer
      ensures Valid() && usedSpace == old(usedSpace) + n && readingHead == old(readingHead)
      ensures n == Least(Least(buffer.Length - old(LookBack(Head(), distance, buffer.Length)), distance), Least(remaining, buffer.Length - old(usedSpace)))
      ensures distance <= |old(history)| && history == old(history) + old(history)[|old(history)| - distance..][..n]
    {
      var start, size := NextSeekbackSpan(distance);
      ghost var b, w, limit, h := buffer[..], Head(), seekbackLimit, history;
      n := Write(buffer, start, Least(size, remaining));
      SeekbackData(b, w, limit, h, distance, start, n);
    }

    method CopyLoop(distance0: nat, length: nat) returns (r: CopyResult)
      requires Valid() && 0 < distance0 <= seekbackLimit
      modifies this, buffer
      ensures Valid()
      ensures var empty := buffer.Length - old(usedSpace);
              if Overshoots(buffer.Length, empty, old(LookBack(Head(), distance0, buffer.Length)), distance0, length) then r == VerifyFailed
              else && r == Copied(Least(length, empty))
                   && history == BackReference(old(history), distance0, Least(length, empty))
                   && usedSpace == old(usedSpace) + Least(length, empty)
    {
      var distance: nat, copied: nat := distance0, 0;
      ghost var h0, k: nat, cap, empty := history, 0, buffer.Length, buffer.Length - usedSpace;
      ghost var start: nat := LookBack(Head(), distance0, buffer.Length);
      LookBackMoves(readingHead, usedSpace, 0, usedSpace, cap, distance, distance, start);
      ghost var outcome := RunCopy(cap, empty, length, distance, 0, start);
      RunCopyOutcome(cap, empty, length, distance, start);
      while copied < length && usedSpace < buffer.Length
        invariant Valid() && copied <= length && copied <= empty && usedSpace == old(usedSpace) + copied
        invariant history == BackReference(h0, distance0, copied) && 0 < distance == Doubled(distance0, k) <= distance0 + copied
        invariant start < cap && RunCopy(cap, empty, length, distance, copied, start) == outcome
        invariant distance <= cap ==> start == LookBack(Head(), distance, cap)
        decreases length - copied
      {
        // the check that `next_seekback_span` makes of its distance
        if distance > seekbackLimit {
          return VerifyFailed;
        }
        ghost var d, c, s, n := distance, copied, start, 0;
        distance, copied, n, k, start := CopyRound(distance, copied, length, empty, distance0, h0, k, start);
        RunOne(cap, empty, length, d, c, s, n, copied, distance, start);
      }
      r := Copied(copied);
    }

    /** One turn of the copying loop. */
    method CopyRound(distance: nat, copied: nat, length: nat, ghost empty: nat, ghost d0: nat, ghost h0: seq<Byte>, ghost k: nat, ghost start: nat)
      returns (next: nat, total: nat, ghost n: nat, ghost k': nat, ghost start': nat)
      requires Valid() && usedSpace < buffer.Length && copied < length && 0 < distance <= seekbackLimit
      requires buffer.Length - usedSpace == empty - copied
      requires 0 < d0 <= |h0| && history == BackReference(h0, d0, copied) && distance == Doubled(d0, k) <= d0 + copied
      requires start == LookBack(Head(), distance, buffer.Length)
      modifies this, buffer
      ensures Valid() && total == copied + n && usedSpace == old(usedSpace) + n
      ensures history == BackReference(h0, d0, total) && 0 < next == Doubled(d0, k') <= d0 + total
      ensures start < buffer.Length && n == TurnLength(buffer.Length, empty, length, distance, copied, start)
      ensures next == NextDistance(length, distance, copied, n)
      ensures start' == StartAfter(buffer.Length, start, next != distance, n)
      ensures next <= buffer.Length ==> start' == LookBack(Head(), next, buffer.Length)
    {
      ghost var used, h := usedSpace, history;
      var count := CopyPiece(distance, length - copied);
      total, n := copied + count, count;
      ChunkCopied(h0, h, d0, copied, total, k, distance, n);
      // after a whole chunk with more than that left, look back twice as far
      next := if length - total > distance && count == distance then distance * 2 else distance;
      k' := DistanceOn(d0, k, length, distance, copied, n, total, next);
      start' := StartAfter(buffer.Length, start, next != distance, n);
      LookBackMoves(readingHead, used, n, usedSpace, buffer.Length, distance, next, start);
    }
  }

  /** The look-back position without the remainder. */
  lemma {:induction false} SeekbackAt(readingHead: nat, used: nat, cap: nat, d: nat)
    requires readingHead < cap && used <= cap && d <= cap
    ensures var w := WriteHead(readingHead, used, cap);
            (cap + readingHead + used - d) % cap == LookBack(w, d, cap)
  {
    Wrapped(cap + readingHead + used - d, cap);
  }

  /** The look-back reaches the last d bytes, up to the end of the buffer. */
  lemma {:induction false} SeekbackData(b: seq<Byte>, w: nat, limit: nat, history: seq<Byte>, d: nat, start: nat, n: nat)
    requires w < |b| && Holds(b, w, limit, history) && d <= limit <= |b| && d <= |history|
    requires start == LookBack(w, d, |b|)
    requires n <= d && start + n <= |b|
    ensures b[start..start + n] == history[|history| - d..][..n]
  {
    var u := history[|history| - d..];
    forall i | 0 <= i < n ensures b[start..][i] == u[i] {
      assert Back(start + i, w, |b|) == d - i;
      HoldsBack(b, w, limit, history, start + i);
    }
  }

  /** The remainder below three times the divisor. */
  lemma {:induction false} Wrapped(x: nat, n: nat)
    requires 0 < n && x < 3 * n
    ensures x % n == if x < n then x else if x < 2 * n then x - n else x - 2 * n
  {
    var r := if x < n then x else if x < 2 * n then x - n else x - 2 * n;
    var q := if x < n then 0 else if x < 2 * n then 1 else 2;
    Arith.QuotRemAreDivMod(x, n);
    Arith.QuotRemUnique(x, n, q, r);
  }
}

/** `LittleEndianOutputBitStream` and `LittleEndianInputBitStream` of AK/BitStream.h. The underlying stream is a
    sequence of bits, the lowest bit of each byte first; its length is a whole number of bytes. */
module BitStream {
  import opened Arith
  import opened Basics
  import opened BitSeq

  const BUFFER_SIZE: nat := 64

  /** `lsb_mask` for a type of the given width. */
  function LsbMask(width: nat, bits: nat): (r: Bits)
    requires bits <= width
    ensures |r| == width && forall i | 0 <= i < width :: r[i] == (i < bits)
  {
    if bits == 0 then Zeros(width) else ShiftRight(Ones(width), width - bits)
  }

  /** The bits from k on are clear. */
  ghost predicate Clear(a: Bits, k: nat) {
    forall i | k <= i < |a| :: !a[i]
  }

  lemma {:induction false} FlushedBits(s: Bits, b: Bits, n: nat, k: nat, b': Bits, n': nat)
    requires k <= n <= |b| == |b'| && n' == n - k && (n' == 0 || b' == ShiftRight(b, k))
    ensures (s + b[..k]) + b'[..n'] == s + b[..n]
  {
  }

  /** The i-th of the bits, or zero past their end. */
  ghost function BitAt(a: Bits, i: nat): bool {
    i < |a| && a[i]
  }

  /** The i-th bit from position k on. */
  ghost function Beyond(a: Bits, k: nat, i: nat): bool {
    BitAt(a, k + i)
  }

  /** The lowest n bits of a value over what the buffer holds from position k on. */
  ghost function Overlaid(value: Bits, n: nat, buffer: Bits, k: nat): (r: Bits)
    requires n <= |value|
    ensures |r| == n && forall i: nat | i < n :: r[i] == (value[i] || Beyond(buffer, k, i))
    ensures Clear(buffer, k) ==> r == value[..n]
  {
    var r := seq(n, i requires 0 <= i < n => value[i] || Beyond(buffer, k, i));
    assert Clear(buffer, k) ==> forall i: nat | i < n :: !Beyond(buffer, k, i);
    r
  }

  /** The bit i places above the lowest n of a value stays in the buffer, beyond what counts as written: some bits of
      the value were to be added, not all went out with the bits before them, and there is room for the bit. */
  ghost predicate Spills(value: Bits, n: nat, count: nat, i: nat)
    requires count <= BUFFER_SIZE
  {
    && Beyond(value, n, i)
    && n != 0 && n != BUFFER_SIZE - count
    && (n < BUFFER_SIZE - count ==> count + n + i < BUFFER_SIZE)
  }

  /** The bit i places beyond the end of what is written, after n bits of a value were written. */
  ghost predicate Remains(value: Bits, n: nat, buffer: Bits, count: nat, i: nat)
    requires count <= BUFFER_SIZE
  {
    Spills(value, n, count, i) || (n < BUFFER_SIZE - count && Beyond(buffer, count + n, i))
  }

  /** The same when the n bits fit into the buffer. */
  ghost predicate AfterAdding(value: Bits, n: nat, buffer: Bits, count: nat, i: nat) {
    (n != 0 && count + n + i < BUFFER_SIZE && Beyond(value, n, i)) || Beyond(buffer, count + n, i)
  }

  /** What is left of a value after its lowest m bits were taken. */
  ghost predicate IsRest(rest: Bits, value: Bits, m: nat) {
    m <= |value| == |rest| && (m < |value| ==> rest == ShiftRight(value, m))
  }

  /** n bits go to the buffer b from position k on: m of them fill it up, the other `left` go to the empty buffer z. */
  lemma {:induction false} FilledThenAdded(value: Bits, n: nat, b: Bits, k: nat, m: nat, rest: Bits, left: nat, z: Bits,
    before: Bits)
    requires |b| == BUFFER_SIZE == k + m && n == m + left <= |value| && IsRest(rest, value, m) && Clear(z, 0)
    ensures before + Overlaid(value, m, b, k) + Overlaid(rest, left, z, 0) == before + Overlaid(value, n, b, k)
  {
    var whole, low, high := Overlaid(value, n, b, k), Overlaid(value, m, b, k), Overlaid(rest, left, z, 0);
    assert high == rest[..left];
    forall i: nat | i < n ensures (low + high)[i] == whole[i] {
      if i >= m {
        assert !Beyond(b, k, i);
      }
    }
    assert low + high == whole;
    Regroup(before, low, high);
  }

  lemma {:induction false} FilledRemains(value: Bits, n: nat, b: Bits, k: nat, m: nat, rest: Bits, left: nat, z: Bits)
    requires |b| == BUFFER_SIZE == k + m && n == m + left <= |value| <= BUFFER_SIZE && IsRest(rest, value, m) && Clear(z, 0)
    ensures forall i: nat :: AfterAdding(rest, left, z, 0, i) == Remains(value, n, b, k, i)
  {
    forall i: nat ensures AfterAdding(rest, left, z, 0, i) == Remains(value, n, b, k, i) {
      if left != 0 {
        assert Beyond(rest, left, i) == Beyond(value, n, i);
      }
    }
  }

  lemma {:induction false} FlushedThenAdded(value: Bits, n: nat, b: Bits, z: Bits)
    requires n <= |value| <= BUFFER_SIZE == |b| && Clear(z, 0)
    ensures Overlaid(value, n, b, BUFFER_SIZE) == Overlaid(value, n, z, 0)
    ensures forall i: nat :: AfterAdding(value, n, z, 0, i) == Remains(value, n, b, BUFFER_SIZE, i)
  {
  }

  /** Nothing remains exactly when nothing spills. */
  lemma {:induction false} ClearUnlessSpilled(value: Bits, n: nat, b: Bits, k: nat, b': Bits, k': nat)
    requires k <= BUFFER_SIZE && Clear(b, k) && forall i: nat :: Beyond(b', k', i) == Remains(value, n, b, k, i)
    ensures Clear(b', k') <==> forall i: nat :: !Spills(value, n, k, i)
  {
    forall i: nat ensures Beyond(b', k', i) == Spills(value, n, k, i) {
      assert Remains(value, n, b, k, i) == Spills(value, n, k, i);
    }
    assert forall j: nat | k' <= j < |b'| :: b'[j] == Beyond(b', k', j - k');
  }

  /** After a flush of the full buffer a. */
  lemma {:induction false} ClearBeyond(z: Bits, a: Bits)
    requires |a| == BUFFER_SIZE && forall i: nat :: Beyond(z, 0, i) == Beyond(a, BUFFER_SIZE, i)
    ensures Clear(z, 0)
  {
    forall i | 0 <= i < |z| ensures !z[i] {
      assert z[i] == Beyond(z, 0, i);
    }
  }

  /** A buffer filled up from a value. */
  lemma {:induction false} FilledBits(s: Bits, b: Bits, k: nat, value: Bits, m: nat, b': Bits)
    requires |b| == BUFFER_SIZE == k + m && m <= |value|
    requires b' == Or(b, ShiftLeft(And(Cast(value, BUFFER_SIZE), LsbMask(BUFFER_SIZE, m)), k))
    ensures s + b'[..BUFFER_SIZE] == (s + b[..k]) + Overlaid(value, m, b, k)
  {
    forall i: nat | k <= i < BUFFER_SIZE ensures b'[i] == Overlaid(value, m, b, k)[i - k] {
      assert Beyond(b, k, i - k) == b[i];
    }
    assert b'[..BUFFER_SIZE] == b[..k] + Overlaid(value, m, b, k);
  }

  /** The bits that stay in the buffer when n are added: a full buffer goes to the stream at once. */
  function CountAfter(count: nat, n: nat): nat {
    if count + n < 64 then count + n else count + n - 64
  }

  class Output {
    /** What has reached the underlying stream. */
    var stream: Bits
    var buffer: Bits
    var count: nat

    ghost predicate Sized()
      reads this
    {
      |buffer| == BUFFER_SIZE && count <= BUFFER_SIZE && |stream| % 8 == 0
    }

    /** In addition, nothing has spilled into the part of the buffer that the next bits go to. */
    ghost predicate Valid()
      reads this
    {
      Sized() && Clear(buffer, count)
    }

    /** Every bit written so far. */
    ghost function Written(): Bits
      reads this
      requires Sized()
    {
      stream + buffer[..count]
    }

    constructor ()
      ensures Valid() && Written() == [] && count == 0
    {
      stream, buffer, count := [], Zeros(BUFFER_SIZE), 0;
    }

    /** `flush_buffer_to_stream`: all whole bytes of the buffer. */
    method FlushBuffer()
      requires Sized()
      modifies this
      ensures Sized() && Written() == old(Written()) && count == old(count) % 8
      ensures forall i: nat :: Beyond(buffer, count, i) == Beyond(old(buffer), old(count), i)
      ensures old(Valid()) ==> Valid()
    {
      var bytesToWrite := count / 8;
      ghost var s, b, n, k := stream, buffer, count, bytesToWrite * 8;
      stream := stream + buffer[..bytesToWrite * 8];
      if count == BUFFER_SIZE {
        buffer := Zeros(BUFFER_SIZE);
        count := 0;
      } else {
        var bitsWritten := bytesToWrite * 8;
        buffer := ShiftRight(buffer, bitsWritten);
        count := count - bitsWritten;
      }
      FlushedBits(s, b, n, k, buffer, count);
    }

    /** The buffer filled up from the value, and flushed. */
    method FillUp(value: Bits)
      requires Sized() && count < BUFFER_SIZE && BUFFER_SIZE - count <= |value| <= BUFFER_SIZE
      modifies this
      ensures Sized() && count == 0 && Clear(buffer, 0)
      ensures Written() == old(Written()) + Overlaid(value, BUFFER_SIZE - old(count), old(buffer), old(count))
    {
      var remaining := BUFFER_SIZE - count;
      ghost var b, n := buffer, count;
      buffer := Or(buffer, ShiftLeft(And(Cast(value, BUFFER_SIZE), LsbMask(BUFFER_SIZE, remaining)), count));
      count := BUFFER_SIZE;
      FilledBits(stream, b, n, value, remaining, buffer);
      ghost var full := buffer;
      FlushBuffer();
      ClearBeyond(buffer, full);
    }

    /** The first half of `write_bits`: makes room for the bits that are left after it. */
    method MakeRoom(value0: Bits, bitCount: nat) returns (value: Bits, left: nat)
      requires Sized() && bitCount <= |value0| <= BUFFER_SIZE
      modifies this
      ensures Sized() && left <= |value| <= BUFFER_SIZE && count + left <= BUFFER_SIZE
      ensures Written() + Overlaid(value, left, buffer, count)
        == old(Written()) + Overlaid(value0, bitCount, old(buffer), old(count))
      ensures forall i: nat ::
        AfterAdding(value, left, buffer, count, i) == Remains(value0, bitCount, old(buffer), old(count), i)
      ensures count + left == CountAfter(old(count), bitCount)
    {
      value, left := value0, bitCount;
      if count == BUFFER_SIZE {
        FlushBuffer();
        ClearBeyond(buffer, old(buffer));
        FlushedThenAdded(value0, bitCount, old(buffer), buffer);
      } else if bitCount >= BUFFER_SIZE - count {
        var remaining := BUFFER_SIZE - count;
        FillUp(value);
        if remaining != |value| {
          value := ShiftRight(value, remaining);
        }
        left := left - remaining;
        FilledThenAdded(value0, bitCount, old(buffer), old(count), remaining, value, left, buffer, old(Written()));
        FilledRemains(value0, bitCount, old(buffer), old(count), remaining, value, left, buffer);
      }
    }

    /** `write_bits` of a value of a type |value| bits wide. The value is not masked: its bits from the count on may
        spill, and then they show in what is written next. */
    method WriteBits(value: Bits, bitCount: nat)
      requires Sized() && bitCount <= |value| <= BUFFER_SIZE
      modifies this
      ensures Sized() && Written() == old(Written()) + Overlaid(value, bitCount, old(buffer), old(count))
      ensures count == CountAfter(old(count), bitCount)
      ensures forall i: nat :: Beyond(buffer, count, i) == Remains(value, bitCount, old(buffer), old(count), i)
      ensures old(Valid()) ==> Written() == old(Written()) + value[..bitCount]
      ensures old(Valid()) ==> (Valid() <==> forall i: nat :: !Spills(value, bitCount, old(count), i))
    {
      var rest, left := MakeRoom(value, bitCount);
      if left != 0 {
        AddBits(rest, left);
      }
      if old(Valid()) {
        ClearUnlessSpilled(value, bitCount, old(buffer), old(count), buffer, count);
      }
    }

    /** The last two statements of `write_bits`: the rest fits. */
    method AddBits(value: Bits, left: nat)
      requires Sized() && 0 < left <= |value| <= BUFFER_SIZE && count + left <= BUFFER_SIZE
      modifies this
      ensures Sized() && Written() == old(Written()) + Overlaid(value, left, old(buffer), old(count))
      ensures count == old(count) + left
      ensures forall i: nat :: Beyond(buffer, count, i) == AfterAdding(value, left, old(buffer), old(count), i)
    {
      ghost var b, n := buffer, count;
      buffer := Or(buffer, ShiftLeft(Cast(value, BUFFER_SIZE), count));
      count := count + left;
      assert buffer[..count] == b[..n] + Overlaid(value, left, b, n);
    }

    /** `align_to_byte_boundary`. */
    method AlignToByteBoundary()
      requires Sized()
      modifies this
      ensures Sized() && count % 8 == 0
      ensures count == if old(count) % 8 == 0 then old(count) else CountAfter(old(count), 8 - old(count) % 8)
      ensures var pad := (8 - old(count) % 8) % 8;
        Written() == old(Written()) + Overlaid(Zeros(8), pad, old(buffer), old(count))
      ensures old(Valid()) ==> Valid() && Written() == old(Written()) + Zeros((8 - old(count) % 8) % 8)
    {
      var offset := count % 8;
      if offset != 0 {
        WriteBits(Zeros(8), 8 - offset);
        assert Zeros(8)[..8 - offset] == Zeros(8 - offset);
      } else {
        assert Zeros(0) == [];
      }
      AlignedCount(|stream|, count, |old(stream)|, old(count));
    }
  }

  lemma {:induction false} AlignedCount(s: nat, c: nat, s0: nat, c0: nat)
    requires s % 8 == 0 && s0 % 8 == 0 && s + c == s0 + c0 + (8 - c0 % 8) % 8
    ensures c % 8 == 0
  {
    var whole := if c0 % 8 == 0 then c0 / 8 else c0 / 8 + 1;
    assert c0 + (8 - c0 % 8) % 8 == 8 * whole;
    assert c == 8 * (s0 / 8 + whole - s / 8);
  }

  // ---- reading ----

  /** The bit counts that refilling with whole bytes can come to. */
  function Reach(count: nat): nat
    requires count <= BUFFER_SIZE
  {
    count + (BUFFER_SIZE - count) / 8 * 8
  }

  /** Up to 57 bits can always be collected; for more it depends on how the buffer is aligned. */
  lemma {:induction false} ReachIsEnough(count: nat)
    requires count <= BUFFER_SIZE
    ensures Reach(count) >= 57 && Reach(count) % 8 == count % 8
  {
  }

  lemma {:induction false} ReachStays(count: nat, n: nat, count': nat)
    requires count' == count + 8 * n <= BUFFER_SIZE
    ensures Reach(count') == Reach(count)
  {
  }

  /** With so many bits left in the stream, refilling ends: it can collect the bits asked for, or it can exhaust the
      stream. */
  predicate Ends(count: nat, left: nat, requested: nat)
    requires count <= BUFFER_SIZE
  {
    requested <= Reach(count) || left <= Reach(count) - count
  }

  /** The bit count and the number of bits left in the stream while refilling. */
  datatype Refilling = Refilling(count: nat, left: nat)

  /** A turn of the loop that does not leave it. The stream is not at its end, and gives any number of bytes up to
      what was asked for, possibly none. */
  ghost predicate Turn(s: Refilling, s': Refilling, requested: nat) {
    && s.count < requested && s.left != 0
    && exists n: nat :: GaveBytes(s, s', n)
  }

  predicate GaveBytes(s: Refilling, s': Refilling, n: nat) {
    s.count + 8 * n <= BUFFER_SIZE && 8 * n <= s.left && s' == Refilling(s.count + 8 * n, s.left - 8 * n)
  }

  ghost predicate Turns(run: seq<Refilling>, requested: nat) {
    forall k: nat | k < |run| :: TurnAt(run, k, requested)
  }

  ghost predicate TurnAt(run: seq<Refilling>, k: nat, requested: nat)
    requires k < |run|
  {
    k + 1 < |run| ==> Turn(run[k], run[k + 1], requested)
  }

  /** Where refilling does not end, one more turn changes nothing of that. */
  lemma {:induction false} StuckTurn(s: Refilling, s': Refilling, requested: nat)
    requires s.count <= BUFFER_SIZE && !Ends(s.count, s.left, requested) && Turn(s, s', requested)
    ensures s'.count <= BUFFER_SIZE && !Ends(s'.count, s'.left, requested)
  {
    var n: nat :| GaveBytes(s, s', n);
    ReachStays(s.count, n, s'.count);
  }

  /** So no run of turns, whatever the stream gives in each, comes to a state that the loop could leave from: the bits
      are never collected and the end of the stream is never reached. */
  lemma {:induction false} StuckForever(run: seq<Refilling>, requested: nat, k: nat)
    requires k < |run| && Turns(run, requested)
    requires run[0].count <= BUFFER_SIZE && !Ends(run[0].count, run[0].left, requested)
    ensures run[k].count <= BUFFER_SIZE && !Ends(run[k].count, run[k].left, requested)
    ensures run[k].count < requested && run[k].left != 0
  {
    if k != 0 {
      var j: nat := k - 1;
      StuckForever(run, requested, j);
      assert TurnAt(run, j, requested);
      StuckTurn(run[j], run[k], requested);
    }
  }

  /** With 60 bits collected and one byte left, 64 bits are asked for: no byte fits any more, and the next turn leads
      from that state to itself. */
  lemma {:induction false} SomeRefillsAreStuck()
    ensures !Ends(60, 8, 64) && Turn(Refilling(60, 8), Refilling(60, 8), 64)
  {
    assert GaveBytes(Refilling(60, 8), Refilling(60, 8), 0);
  }

  /** The first n bits as a word. */
  ghost predicate FirstBits(r: Bits, n: nat, pending: Bits) {
    forall i: nat | i < |r| :: r[i] == (i < n && BitAt(pending, i))
  }

  /** The first k bits of the stream s moved to a buffer. */
  lemma {:induction false} MovedBits(b: Bits, c: nat, s: Bits, k: nat, b': Bits, c': nat)
    requires |b| == BUFFER_SIZE && Clear(b, c) && k <= |s| && c' == c + k <= BUFFER_SIZE
    requires b' == Or(b, ShiftLeft(Cast(s[..k], BUFFER_SIZE), c))
    ensures b'[..c'] + s[k..] == b[..c] + s && Clear(b', c')
  {
    assert b'[..c'] == b[..c] + s[..k];
  }

  class Input {
    /** What is left of the underlying stream. */
    var stream: Bits
    var buffer: Bits
    var count: nat
    const fillWithZero: bool

    ghost predicate Valid()
      reads this
    {
      |buffer| == BUFFER_SIZE && count <= BUFFER_SIZE && Clear(buffer, count) && |stream| % 8 == 0
    }

    /** The bits still to be read. */
    ghost function Pending(): Bits
      reads this
      requires Valid()
    {
      buffer[..count] + stream
    }

    constructor (stream: Bits, fillWithZero: bool)
      requires |stream| % 8 == 0
      ensures Valid() && Pending() == stream && this.fillWithZero == fillWithZero && count == 0
    {
      this.stream, buffer, count, this.fillWithZero := stream, Zeros(BUFFER_SIZE), 0, fillWithZero;
    }

    /** One read of the underlying stream, which gives at least one byte and at most what was asked for. */
    method ReadSome()
      requires Valid() && stream != [] && BUFFER_SIZE - count >= 8
      modifies this
      ensures Valid() && Pending() == old(Pending()) && count > old(count) && Reach(count) == Reach(old(count))
      ensures exists n: nat :: GaveBytes(Refilling(old(count), |old(stream)|), Refilling(count, |stream|), n)
    {
      var bytesToRead := (BUFFER_SIZE - count) / 8;
      var n: nat :| 1 <= n <= bytesToRead && n <= |stream| / 8;
      var read := stream[..8 * n];
      ghost var b, c, s := buffer, count, stream;
      stream := stream[8 * n..];
      buffer := Or(buffer, ShiftLeft(Cast(read, BUFFER_SIZE), count));
      count := count + 8 * n;
      MovedBits(b, c, s, 8 * n, buffer, count);
      ReachStays(c, n, count);
      assert GaveBytes(Refilling(c, |s|), Refilling(count, |stream|), n);
    }

    /** `refill_buffer_from_stream`. At the end of the stream it fills up with zeros or fails. */
    method Refill(requested: nat) returns (r: Result<bool>)
      requires Valid() && requested <= BUFFER_SIZE && Ends(count, |stream|, requested)
      modifies this
      ensures Valid()
      ensures r.Ok? <==> fillWithZero || requested <= |old(Pending())|
      ensures r.Ok? ==> requested <= count && forall i: nat :: BitAt(Pending(), i) == BitAt(old(Pending()), i)
      ensures requested <= |old(Pending())| || r.Error? ==> Pending() == old(Pending())
      ensures r.Ok? && requested > |old(Pending())| ==> |Pending()| == requested == count
      ensures requested <= old(count) ==> count == old(count)
    {
      while requested > count
        invariant Valid() && Pending() == old(Pending()) && Ends(count, |stream|, requested)
        invariant requested <= old(count) ==> count == old(count)
        decreases BUFFER_SIZE - count
      {
        if stream == [] {
          if fillWithZero {
            ghost var p := Pending();
            assert forall i: nat | i < BUFFER_SIZE :: BitAt(buffer[..requested], i) == BitAt(buffer[..count], i);
            count := requested;
            return Ok(true);
          }
          return Error;
        }
        ReadSome();
      }
      r := Ok(true);
    }

    /** `peek_bits` for a result type `width` bits wide. */
    method PeekBits(width: nat, n: nat) returns (r: Result<Bits>)
      requires Valid() && n <= width <= BUFFER_SIZE && Ends(count, |stream|, n)
      modifies this
      ensures Valid()
      ensures r.Ok? <==> fillWithZero || n <= |old(Pending())|
      ensures r.Ok? ==> |r.value| == width && FirstBits(r.value, n, old(Pending())) && n <= count
      ensures r.Ok? ==> forall i: nat :: BitAt(Pending(), i) == BitAt(old(Pending()), i)
      ensures n <= |old(Pending())| || r.Error? ==> Pending() == old(Pending())
      ensures r.Ok? && n > |old(Pending())| ==> |Pending()| == n == count
      ensures n <= old(count) ==> count == old(count)
    {
      if n > count {
        var refilled := Refill(n);
        if refilled.Error? {
          return Error;
        }
      }
      var mask := LsbMask(width, Least(n, count));
      r := Ok(Cast(And(buffer, Cast(mask, BUFFER_SIZE)), width));
      assert FirstBits(r.value, n, Pending());
    }

    /** `discard_previously_peeked_bits`. A shift by the whole width of the buffer is not defined. */
    method Discard(n: nat)
      requires Valid() && Least(n, count) < BUFFER_SIZE
      modifies this
      ensures Valid() && Pending() == old(Pending())[Least(n, old(count))..] && count == old(count) - Least(n, old(count))
    {
      var left := Least(n, count);
      ghost var b, c := buffer, count;
      buffer := ShiftRight(buffer, left);
      count := count - left;
      assert b[..c] == b[..left] + buffer[..count];
    }

    /** `align_to_byte_boundary`: drops, and returns, the bits of a byte that has been read in part. */
    method AlignToByteBoundary() returns (remainingBits: Bits)
      requires Valid()
      modifies this
      ensures Valid() && Pending() == old(Pending())[old(count) % 8..] && count % 8 == 0
      ensures |remainingBits| == 8 && FirstBits(remainingBits, old(count) % 8, old(Pending()))
    {
      remainingBits := Zeros(8);
      var offset := count % 8;
      if offset != 0 {
        remainingBits := Cast(And(buffer, Cast(LsbMask(8, offset), BUFFER_SIZE)), 8);
        Discard(offset);
      }
    }

    /** `read_bits` for a result type `width` bits wide. */
    method ReadBits(width: nat, n: nat) returns (r: Result<Bits>)
      requires Valid() && n <= width <= BUFFER_SIZE && Ends(count, |stream|, n)
      requires n < BUFFER_SIZE || (!fillWithZero && |Pending()| < n)
      modifies this
      ensures Valid()
      ensures r.Ok? <==> fillWithZero || n <= |old(Pending())|
      ensures r.Ok? ==> |r.value| == width && FirstBits(r.value, n, old(Pending()))
      ensures r.Ok? ==> Pending() == old(Pending())[Least(n, |old(Pending())|)..]
      ensures n <= old(count) ==> count == old(count) - n
      ensures r.Error? ==> Pending() == old(Pending())
    {
      r := PeekBits(width, n);
      if r.Ok? {
        Discard(n);
      }
    }
  }

  // ---- a value that spills ----

  /** The value 3 written in one bit, and after it the value 0 in one bit: both bits are ones. */
  method SpilledBit() returns (written: Bits)
    ensures written == [true, true]
  {
    var w := new Output();
    w.WriteBits([true, true], 1);
    assert Spills([true, true], 1, 0, 0) && Beyond(w.buffer, w.count, 0);
    assert w.Written() == [true];
    ghost var b, k := w.buffer, w.count;
    w.WriteBits([false], 1);
    assert Overlaid([false], 1, b, k) == [true];
    w.FlushBuffer();
    written := w.stream + w.buffer[..w.count];
  }

  // ---- the round trip ----

  /** A value of some unsigned type, and how many of its bits to write. */
  datatype Item = Item(value: Bits, count: nat)

  ghost predicate Writable(item: Item) {
    item.count <= 57 && item.count <= |item.value| <= BUFFER_SIZE && Number(item.value) < Pow2(item.count)
  }

  ghost predicate AllWritable(items: seq<Item>) {
    forall i | 0 <= i < |items| :: Writable(items[i])
  }

  ghost function Payload(items: seq<Item>): Bits
    requires AllWritable(items)
  {
    if items == [] then [] else items[0].value[..items[0].count] + Payload(items[1..])
  }

  lemma {:induction false} PayloadStep(items: seq<Item>, i: nat, i': nat, before: Bits)
    requires AllWritable(items) && i < |items| && i' == i + 1
    ensures Payload(items[i..]) == items[i].value[..items[i].count] + Payload(items[i'..])
    ensures (before + items[i].value[..items[i].count]) + Payload(items[i'..]) == before + Payload(items[i..])
  {
    var rest := items[i..];
    assert rest[0] == items[i] && rest[1..] == items[i'..];
  }

  method WriteAll(items: seq<Item>) returns (stream: Bits)
    requires AllWritable(items)
    ensures |stream| % 8 == 0 && |Payload(items)| <= |stream| && stream[..|Payload(items)|] == Payload(items)
  {
    var w := new Output();
    var i := 0;
    assert items[0..] == items;
    while i < |items|
      invariant 0 <= i <= |items| && w.Valid() && fresh(w)
      invariant w.Written() + Payload(items[i..]) == Payload(items)
    {
      ghost var before, i' := w.Written(), i + 1;
      PayloadStep(items, i, i', before);
      WriteItem(w, items[i]);
      i := i + 1;
    }
    assert items[i..] == [];
    stream := Finish(w);
  }

  method WriteItem(w: Output, item: Item)
    requires w.Valid() && Writable(item)
    modifies w
    ensures w.Valid() && w.Written() == old(w.Written()) + item.value[..item.count]
  {
    BelowPow2(item.value, item.count);
    w.WriteBits(item.value, item.count);
  }

  /** Aligning and flushing brings every bit to the stream. */
  method Finish(w: Output) returns (stream: Bits)
    requires w.Valid()
    modifies w
    ensures |stream| % 8 == 0 && |old(w.Written())| <= |stream| && stream[..|old(w.Written())|] == old(w.Written())
  {
    w.AlignToByteBoundary();
    w.FlushBuffer();
    assert w.Written() == w.stream;
    stream := w.stream;
  }

  /** Whatever is written is read back, however the stream chops its reads. */
  method RoundTrip(items: seq<Item>, fillWithZero: bool) returns (values: seq<Bits>)
    requires AllWritable(items)
    ensures |values| == |items| && forall i | 0 <= i < |items| :: values[i] == items[i].value
  {
    var stream := WriteAll(items);
    var reader := new Input(stream, fillWithZero);
    ghost var tail := stream[|Payload(items)|..];
    assert stream == Payload(items) + tail;
    values := ReadAll(reader, items, tail);
  }

  method ReadAll(reader: Input, items: seq<Item>, ghost tail: Bits) returns (values: seq<Bits>)
    requires AllWritable(items) && reader.Valid() && reader.Pending() == Payload(items) + tail
    modifies reader
    ensures |values| == |items| && forall i | 0 <= i < |items| :: values[i] == items[i].value
  {
    values := [];
    assert items[0..] == items;
    for i := 0 to |items|
      invariant |values| == i && reader.Valid() && reader.Pending() == Payload(items[i..]) + tail
      invariant forall k | 0 <= k < i :: values[k] == items[k].value
    {
      ghost var i' := i + 1;
      ghost var after := Payload(items[i'..]) + tail;
      PayloadSplit(items, i, i', tail);
      var value := ReadItem(reader, items[i], after);
      values := values + [value];
    }
  }

  lemma {:induction false} PayloadSplit(items: seq<Item>, i: nat, i': nat, tail: Bits)
    requires AllWritable(items) && i < |items| && i' == i + 1
    ensures Payload(items[i..]) + tail == items[i].value[..items[i].count] + (Payload(items[i'..]) + tail)
  {
    PayloadStep(items, i, i', []);
  }

  method ReadItem(reader: Input, item: Item, ghost after: Bits) returns (value: Bits)
    requires reader.Valid() && Writable(item) && reader.Pending() == item.value[..item.count] + after
    modifies reader
    ensures reader.Valid() && value == item.value && reader.Pending() == after
  {
    ghost var pending := reader.Pending();
    ReachIsEnough(reader.count);
    BelowPow2(item.value, item.count);
    var r := reader.ReadBits(|item.value|, item.count);
    value := r.value;
    assert pending[..item.count] == item.value[..item.count] && pending[item.count..] == after;
    FirstIsValue(value, item, pending);
  }

  lemma {:induction false} FirstIsValue(r: Bits, item: Item, pending: Bits)
    requires item.count <= |item.value| == |r| && FirstBits(r, item.count, pending) && Clear(item.value, item.count)
    requires item.count <= |pending| && pending[..item.count] == item.value[..item.count]
    ensures r == item.value
  {
    forall i | 0 <= i < |r| ensures r[i] == item.value[i] {
      if i < item.count {
        assert pending[..item.count][i] == item.value[..item.count][i];
      }
    }
  }
}

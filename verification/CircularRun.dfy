/** Whole runs of the circular buffer against a plain history of bytes. */
module CircularRun {
  import opened Basics
  import opened CircularBuffer
  import opened CircularCopy

  /** The bytes written since the last clear, and how many of the last ones are still unread. */
  datatype Queue = Queue(history: seq<Byte>, unread: nat)

  datatype Operation =
    | WriteOp(data: seq<Byte>)
    | ReadOp(count: nat)
    | DiscardOp(count: nat)
    | LookBackOp(count: nat, distance: nat)
    | CopyOp(distance: nat, length: nat)
    | ClearOp

  /** What an operation gives back: a number of bytes, bytes, or an error. `Stopped` is a check that ends the program. */
  datatype Output = Count(n: nat) | Bytes(data: seq<Byte>) | Failed | Stopped

  predicate Proper(q: Queue, cap: nat) {
    q.unread <= cap && q.unread <= |q.history|
  }

  /** The last n bytes of the history. */
  function Last(q: Queue, n: nat): seq<Byte>
    requires n <= |q.history|
  {
    q.history[|q.history| - n..]
  }

  /** What a copy of `length` bytes from `distance` bytes back comes to. */
  ghost function CopyAnswer(q: Queue, cap: nat, distance: nat, length: nat): Output
    requires Proper(q, cap) && cap > 0
  {
    var empty := cap - q.unread;
    if distance > Least(|q.history|, cap) then Failed
    else if distance == 0 then Count(0)
    else if Overshoots(cap, empty, LookBack(Position(|q.history|, cap), distance, cap), distance, length) then Stopped
    else Count(Least(length, empty))
  }

  ghost function Apply(q: Queue, cap: nat, op: Operation): (q': Queue)
    requires Proper(q, cap) && cap > 0
    ensures Proper(q', cap)
  {
    match op
    case WriteOp(data) =>
      var n := Least(|data|, cap - q.unread);
      Queue(q.history + data[..n], q.unread + n)
    case ReadOp(count) => q.(unread := q.unread - Least(count, q.unread))
    case DiscardOp(count) => if count <= q.unread then q.(unread := q.unread - count) else q
    case LookBackOp(_, _) => q
    case CopyOp(distance, length) =>
      var answer := CopyAnswer(q, cap, distance, length);
      if answer.Count? && distance > 0 then Queue(BackReference(q.history, distance, answer.n), q.unread + answer.n) else q
    case ClearOp => Queue([], 0)
  }

  ghost function Answer(q: Queue, cap: nat, op: Operation): Output
    requires Proper(q, cap) && cap > 0
  {
    match op
    case WriteOp(data) => Count(Least(|data|, cap - q.unread))
    case ReadOp(count) => Bytes(Last(q, q.unread)[..Least(count, q.unread)])
    case DiscardOp(count) => if count <= q.unread then Count(count) else Failed
    case LookBackOp(count, distance) =>
      if distance <= Least(|q.history|, cap) then Bytes(Last(q, distance)[..Least(count, distance)]) else Failed
    case CopyOp(distance, length) => CopyAnswer(q, cap, distance, length)
    case ClearOp => Count(0)
  }

  /** The answers of a run, up to one that ends the program. */
  ghost function Answers(q: Queue, cap: nat, ops: seq<Operation>): seq<Output>
    requires Proper(q, cap) && cap > 0
    decreases ops
  {
    if ops == [] then []
    else
      var answer := Answer(q, cap, ops[0]);
      if answer == Stopped then [Stopped] else [answer] + Answers(Apply(q, cap, ops[0]), cap, ops[1..])
  }

  /** The buffer and the history agree. */
  ghost predicate Represents(b: CircularBuffer, q: Queue)
    reads b, b.buffer
  {
    b.Valid() && b.history == q.history && b.usedSpace == q.unread
  }

  method Perform(b: CircularBuffer, op: Operation, ghost q: Queue) returns (output: Output)
    requires Represents(b, q)
    modifies b, b.buffer
    ensures Proper(q, b.buffer.Length) && b.buffer.Length > 0 && output == Answer(q, b.buffer.Length, op)
    ensures output != Stopped ==> Represents(b, Apply(q, b.buffer.Length, op))
  {
    match op
    case WriteOp(data) =>
      output := PerformWrite(b, data);
    case ReadOp(count) =>
      output := PerformRead(b, count, q);
    case DiscardOp(count) =>
      var r := b.Discard(count);
      output := if r.Ok? then Count(count) else Failed;
    case LookBackOp(count, distance) =>
      output := PerformLookBack(b, count, distance, q);
    case CopyOp(distance, length) =>
      output := PerformCopy(b, distance, length, q);
    case ClearOp =>
      b.Clear();
      output := Count(0);
  }

  method PerformWrite(b: CircularBuffer, data: seq<Byte>) returns (output: Output)
    requires b.Valid()
    modifies b, b.buffer
    ensures b.Valid() && output == Count(Least(|data|, b.buffer.Length - old(b.usedSpace)))
    ensures b.usedSpace == old(b.usedSpace) + output.n && b.history == old(b.history) + data[..output.n]
  {
    var src := new Byte[|data|](i requires 0 <= i < |data| => data[i]);
    assert src[..] == data;
    var n := b.Write(src, 0, |data|);
    assert data[0..n] == data[..n];
    output := Count(n);
  }

  method PerformRead(b: CircularBuffer, count: nat, ghost q: Queue) returns (output: Output)
    requires Represents(b, q)
    modifies b
    ensures Proper(q, b.buffer.Length) && b.buffer.Length > 0
    ensures output == Answer(q, b.buffer.Length, ReadOp(count)) && Represents(b, Apply(q, b.buffer.Length, ReadOp(count)))
  {
    var bytes := new Byte[count];
    var n := b.Read(bytes);
    output := Bytes(bytes[..n]);
  }

  method PerformCopy(b: CircularBuffer, distance: nat, length: nat, ghost q: Queue) returns (output: Output)
    requires Represents(b, q)
    modifies b, b.buffer
    ensures Proper(q, b.buffer.Length) && b.buffer.Length > 0
    ensures output == Answer(q, b.buffer.Length, CopyOp(distance, length))
    ensures output != Stopped ==> Represents(b, Apply(q, b.buffer.Length, CopyOp(distance, length)))
  {
    ghost var cap := b.buffer.Length;
    assert b.Head() == Position(|q.history|, cap) && b.seekbackLimit == Least(|q.history|, cap);
    var r := b.CopyFromSeekback(distance, length);
    CopyAnswered(q, cap, distance, length, r, b.history, b.usedSpace);
    output := match r case Copied(count) => Count(count) case BeyondLimit => Failed case VerifyFailed => Stopped;
  }

  lemma {:induction false} CopyAnswered(q: Queue, cap: nat, distance: nat, length: nat, r: CopyResult,
                                        history: seq<Byte>, used: nat)
    requires Proper(q, cap) && cap > 0
    requires distance > Least(|q.history|, cap) ==> r == BeyondLimit && history == q.history && used == q.unread
    requires distance == 0 ==> r == Copied(0) && history == q.history && used == q.unread
    requires 0 < distance <= Least(|q.history|, cap) ==>
      if Overshoots(cap, cap - q.unread, LookBack(Position(|q.history|, cap), distance, cap), distance, length)
      then r == VerifyFailed
      else && r == Copied(Least(length, cap - q.unread)) && history == BackReference(q.history, distance, r.count)
           && used == q.unread + r.count
    ensures Answer(q, cap, CopyOp(distance, length))
      == match r case Copied(count) => Count(count) case BeyondLimit => Failed case VerifyFailed => Stopped
    ensures r != VerifyFailed ==> Apply(q, cap, CopyOp(distance, length)) == Queue(history, used)
  {
  }

  method PerformLookBack(b: CircularBuffer, count: nat, distance: nat, ghost q: Queue) returns (output: Output)
    requires Represents(b, q)
    ensures Proper(q, b.buffer.Length) && b.buffer.Length > 0
    ensures output == Answer(q, b.buffer.Length, LookBackOp(count, distance)) && Represents(b, q)
  {
    var bytes := new Byte[count];
    var r := b.ReadWithSeekback(bytes, distance);
    if r.Ok? {
      assert bytes[..r.value] == bytes[..][..r.value] == Last(q, distance)[..r.value];
      output := Bytes(bytes[..r.value]);
    } else {
      output := Failed;
    }
  }

  /** Any run from an empty buffer answers as the plain history does. */
  method Run(capacity: nat, ops: seq<Operation>) returns (outputs: seq<Output>)
    requires capacity > 0
    ensures outputs == Answers(Queue([], 0), capacity, ops)
  {
    var b := new CircularBuffer(capacity);
    ghost var q, buffer := Queue([], 0), b.buffer;
    outputs := [];
    assert ops[0..] == ops;
    for i := 0 to |ops|
      invariant fresh(b) && fresh(b.buffer) && b.buffer == buffer && buffer.Length == capacity
      invariant Represents(b, q) && Proper(q, capacity)
      invariant outputs + Answers(q, capacity, ops[i..]) == Answers(Queue([], 0), capacity, ops)
    {
      AnswersStep(outputs, q, capacity, ops, i, i + 1);
      var output := Perform(b, ops[i], q);
      outputs := outputs + [output];
      if output == Stopped {
        return;
      }
      q := Apply(q, capacity, ops[i]);
    }
    assert ops[|ops|..] == [];
  }

  lemma {:induction false} AnswersStep(before: seq<Output>, q: Queue, cap: nat, ops: seq<Operation>, i: nat, i': nat)
    requires Proper(q, cap) && cap > 0 && i < |ops| && i' == i + 1
    ensures var answer := Answer(q, cap, ops[i]);
      before + Answers(q, cap, ops[i..]) ==
        before + [answer] + (if answer == Stopped then [] else Answers(Apply(q, cap, ops[i]), cap, ops[i'..]))
  {
    var rest, tail, answer := ops[i..], ops[i'..], Answer(q, cap, ops[i]);
    assert rest[0] == ops[i] && rest[1..] == tail;
    var answers := if answer == Stopped then [] else Answers(Apply(q, cap, ops[i]), cap, tail);
    assert Answers(q, cap, rest) == [answer] + answers;
    Regroup(before, [answer], answers);
  }

  /** A buffer filled once and emptied: the write head is back at the start. */
  method FilledAndEmptied(data: seq<Byte>) returns (b: CircularBuffer)
    requires data != []
    ensures fresh(b) && fresh(b.buffer) && b.Valid() && b.buffer.Length == |data| && b.history == data && b.usedSpace == 0
    ensures b.Head() == 0
  {
    var cap := |data|;
    b := new CircularBuffer(cap);
    var written := PerformWrite(b, data);
    assert b.history == data;
    var discarded := b.Discard(cap);
    assert Position(|b.history|, cap) == 0 by {
      Wrapped(cap, cap);
    }
  }

  /** The check in `next_seekback_span` can fail: ten bytes written to a buffer of ten and discarded, then bytes copied
      from six bytes back. When up to twelve are asked for, as many as fit are copied; one more ends the program. */
  method CopyToTheEdge(data: seq<Byte>, length: nat) returns (r: CopyResult)
    requires |data| == 10
    ensures r == if length <= 12 then Copied(Least(length, 10)) else VerifyFailed
  {
    var b := FilledAndEmptied(data);
    SomeCopiesOvershoot(length);
    r := b.CopyFromSeekback(6, length);
  }

  /** Both sides of the edge. */
  method CopyThatStops(data: seq<Byte>) returns (last: CopyResult, first: CopyResult)
    requires |data| == 10
    ensures last == Copied(10) && first == VerifyFailed
  {
    last := CopyToTheEdge(data, 12);
    first := CopyToTheEdge(data, 13);
  }
}

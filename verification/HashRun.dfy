/** Whole runs of the ordered hash table against a plain sequence of values. */
module HashRun {
  import opened Basics
  import opened HashBuckets
  import opened HashProbe
  import opened HashState
  import opened HashTable

  /** Setting a value in a sequence: in place if an equal one is there, otherwise at the end. */
  function SetIn(s: seq<Entry>, e: Entry, behavior: HashSetExistingEntryBehavior): seq<Entry> {
    if s == [] then [e]
    else if s[0].key == e.key then (if behavior == Keep then s else [e] + s[1..])
    else [s[0]] + SetIn(s[1..], e, behavior)
  }

  function RemoveIn(s: seq<Entry>, key: Key): seq<Entry> {
    if s == [] then [] else if s[0].key == key then s[1..] else [s[0]] + RemoveIn(s[1..], key)
  }

  /** `slack` is what the allocator's rounding adds to the capacity. */
  datatype Operation =
    | SetOp(e: Entry, behavior: HashSetExistingEntryBehavior, slack: nat)
    | ContainsOp(key: Key)
    | RemoveOp(key: Key)
    | RemoveAllMatchingOp(p: Entry -> bool)
    | TakeFirstOp
    | TakeLastOp
    | EnsureCapacityOp(count: nat, slack: nat)
    | ClearWithCapacityOp

  /** What an operation gives back. `Stopped` is the check that ends the program when a value is taken from an empty
      table. */
  datatype Output = WasSet(result: HashSetResult) | Answered(answer: bool) | Taken(e: Entry) | Done | Stopped

  ghost function Apply(s: seq<Entry>, op: Operation): seq<Entry> {
    match op
    case SetOp(e, behavior, _) => SetIn(s, e, behavior)
    case ContainsOp(_) => s
    case RemoveOp(key) => RemoveIn(s, key)
    case RemoveAllMatchingOp(p) => Unmatched(s, p)
    case TakeFirstOp => if s == [] then [] else s[1..]
    case TakeLastOp => if s == [] then [] else s[..|s| - 1]
    case EnsureCapacityOp(_, _) => s
    case ClearWithCapacityOp => []
  }

  ghost function Answer(s: seq<Entry>, op: Operation): Output {
    match op
    case SetOp(e, behavior, _) =>
      WasSet(if !HasKey(s, e.key) then InsertedNewEntry else if behavior == Keep then KeptExistingEntry else ReplacedExistingEntry)
    case ContainsOp(key) => Answered(HasKey(s, key))
    case RemoveOp(key) => Answered(HasKey(s, key))
    case RemoveAllMatchingOp(p) => Answered(Unmatched(s, p) != s)
    case TakeFirstOp => if s == [] then Stopped else Taken(s[0])
    case TakeLastOp => if s == [] then Stopped else Taken(s[|s| - 1])
    case EnsureCapacityOp(_, _) => Done
    case ClearWithCapacityOp => Done
  }

  ghost function ApplyAll(s: seq<Entry>, ops: seq<Operation>): seq<Entry>
    decreases ops
  {
    if ops == [] then s else ApplyAll(Apply(s, ops[0]), ops[1..])
  }

  /** The answers of a run, up to one that ends the program. */
  ghost function Answers(s: seq<Entry>, ops: seq<Operation>): seq<Output>
    decreases ops
  {
    if ops == [] then []
    else
      var answer := Answer(s, ops[0]);
      if answer.Stopped? then [Stopped] else [answer] + Answers(Apply(s, ops[0]), ops[1..])
  }

  lemma {:induction false} SetInReplaces(s: seq<Entry>, e: Entry, behavior: HashSetExistingEntryBehavior, k: nat)
    requires k < |s| && s[k].key == e.key && DistinctEntries(s)
    ensures SetIn(s, e, behavior) == if behavior == Keep then s else s[k := e]
    decreases s
  {
    if k > 0 {
      assert s[0].key != s[k].key;
      SetInReplaces(s[1..], e, behavior, k - 1);
      HeadAndRest(s, k, e);
    }
  }

  lemma {:induction false} HeadAndRest(s: seq<Entry>, k: nat, e: Entry)
    requires 0 < k < |s|
    ensures s == [s[0]] + s[1..] && s[k := e] == [s[0]] + s[1..][k - 1 := e]
  {
  }

  lemma {:induction false} SetInAppends(s: seq<Entry>, e: Entry, behavior: HashSetExistingEntryBehavior)
    requires !HasKey(s, e.key)
    ensures SetIn(s, e, behavior) == s + [e]
    decreases s
  {
    if s != [] {
      SetInAppends(s[1..], e, behavior);
    }
  }

  lemma {:induction false} WrittenIsSetIn(before: seq<Entry>, after: seq<Entry>, e: Entry,
                                          behavior: HashSetExistingEntryBehavior, result: HashSetResult, k: nat)
    requires Written(before, after, e, behavior, result, k) && DistinctEntries(before)
    ensures after == SetIn(before, e, behavior)
  {
    if HasKey(before, e.key) {
      SetInReplaces(before, e, behavior, k);
    } else {
      SetInAppends(before, e, behavior);
    }
  }

  lemma {:induction false} RemoveInCuts(s: seq<Entry>, key: Key, k: nat)
    requires k < |s| && s[k].key == key && DistinctEntries(s)
    ensures RemoveIn(s, key) == s[..k] + s[k + 1..]
    decreases s
  {
    if k > 0 {
      assert s[0].key != s[k].key;
      RemoveInCuts(s[1..], key, k - 1);
      assert s[..k] + s[k + 1..] == [s[0]] + (s[1..][..k - 1] + s[1..][k..]);
    }
  }

  lemma {:induction false} RemoveInNothing(s: seq<Entry>, key: Key)
    requires !HasKey(s, key)
    ensures RemoveIn(s, key) == s
    decreases s
  {
    if s != [] {
      RemoveInNothing(s[1..], key);
    }
  }

  /** One operation on a table. */
  method Perform(table: HashTable, op: Operation) returns (output: Output)
    requires table.Valid()
    modifies table
    ensures output == Answer(old(table.Values()), op)
    ensures !output.Stopped? ==> table.Valid() && table.Values() == Apply(old(table.Values()), op)
  {
    output := Done;
    match op
    case SetOp(e, behavior, slack) =>
      output := PerformSet(table, e, behavior, slack);
    case ContainsOp(key) =>
      var found := table.Contains(key);
      output := Answered(found);
    case RemoveOp(key) =>
      output := PerformRemove(table, key);
    case RemoveAllMatchingOp(p) =>
      var removed := table.RemoveAllMatching(p);
      output := Answered(removed);
    case TakeFirstOp =>
      output := PerformTake(table, true);
    case TakeLastOp =>
      output := PerformTake(table, false);
    case EnsureCapacityOp(count, slack) =>
      table.EnsureCapacity(count, slack);
    case ClearWithCapacityOp =>
      table.ClearWithCapacity();
  }

  method PerformSet(table: HashTable, e: Entry, behavior: HashSetExistingEntryBehavior, slack: nat) returns (output: Output)
    requires table.Valid()
    modifies table
    ensures table.Valid() && table.Values() == SetIn(old(table.Values()), e, behavior)
    ensures output == Answer(old(table.Values()), SetOp(e, behavior, slack))
    ensures (old(table.size) + 1) * 100 < old(table.capacity) * 80 ==> table.capacity == old(table.capacity)
  {
    ghost var before := table.Values();
    NoDuplicates(table.cells, table.order, table.head, table.tail);
    var result;
    ghost var k;
    result, k := table.Set(e, behavior, slack);
    WrittenIsSetIn(before, table.Values(), e, behavior, result, k);
    output := WasSet(result);
  }

  method PerformRemove(table: HashTable, key: Key) returns (output: Output)
    requires table.Valid()
    modifies table
    ensures table.Valid() && table.Values() == RemoveIn(old(table.Values()), key)
    ensures output == Answered(HasKey(old(table.Values()), key))
  {
    ghost var before := table.Values();
    NoDuplicates(table.cells, table.order, table.head, table.tail);
    var removed;
    ghost var k;
    removed, k := table.Remove(key);
    if removed {
      RemoveInCuts(before, key, k);
    } else {
      RemoveInNothing(before, key);
    }
    output := Answered(removed);
  }

  method PerformTake(table: HashTable, first: bool) returns (output: Output)
    requires table.Valid()
    modifies table
    ensures var op := if first then TakeFirstOp else TakeLastOp;
      && output == Answer(old(table.Values()), op)
      && (!output.Stopped? ==> table.Valid() && table.Values() == Apply(old(table.Values()), op))
  {
    assert |table.Values()| == table.size;
    if table.size == 0 {
      return Stopped;
    }
    ghost var before := table.Values();
    var e;
    if first {
      e := table.TakeFirst();
    } else {
      e := table.TakeLast();
      assert before[..|before| - 1] == table.Values();
    }
    output := Taken(e);
  }

  // ---- what `ensure_capacity` promises ----

  /** Before each of the sets fewer than `count` values are stored. */
  ghost predicate Below(s: seq<Entry>, sets: seq<Operation>, count: nat)
    decreases sets
  {
    sets == [] || (sets[0].SetOp? && |s| < count && Below(Apply(s, sets[0]), sets[1..], count))
  }

  lemma {:induction false} BelowStep(s: seq<Entry>, sets: seq<Operation>, count: nat, i: nat, i': nat)
    requires i < |sets| && i' == i + 1 && Below(s, sets[i..], count)
    ensures sets[i].SetOp? && |s| < count && Below(Apply(s, sets[i]), sets[i'..], count)
    ensures ApplyAll(s, sets[i..]) == ApplyAll(Apply(s, sets[i]), sets[i'..])
  {
    assert sets[i..][0] == sets[i] && sets[i..][1..] == sets[i'..];
  }

  /** Room for `count` values asked for, and then any run of sets, new values and known ones, that begins each of them
      with fewer values: no set after the request allocates again. */
  method FillUpTo(table: HashTable, count: nat, slack: nat, sets: seq<Operation>)
    requires table.Valid() && Below(table.Values(), sets, count)
    modifies table
    ensures table.Valid() && table.Values() == ApplyAll(old(table.Values()), sets)
    ensures table.capacity == if count * 100 < old(table.capacity) * 80 then old(table.capacity)
                              else Larger(count * 100 / 80 + 1, old(table.capacity) + 8) + slack
  {
    table.EnsureCapacity(count, slack);
    ghost var cap := table.capacity;
    assert sets[0..] == sets;
    for i := 0 to |sets|
      invariant table.Valid() && table.capacity == cap && Below(table.Values(), sets[i..], count)
      invariant ApplyAll(table.Values(), sets[i..]) == ApplyAll(old(table.Values()), sets)
    {
      BelowStep(table.Values(), sets, count, i, i + 1);
      assert |table.Values()| == table.size;
      var op := sets[i];
      var output := PerformSet(table, op.e, op.behavior, op.slack);
    }
    assert sets[|sets|..] == [];
  }

  /** Any run from a new table answers as a plain sequence of values would. Unless it is stopped, the table then holds
      exactly the values of that sequence, and gives them in the same order forwards and in reverse backwards. */
  method Run(traits: Traits, ops: seq<Operation>) returns (outputs: seq<Output>, values: seq<Entry>, reversed: seq<Entry>)
    ensures outputs == Answers([], ops)
    ensures Stopped !in outputs ==> values == ApplyAll([], ops) && |reversed| == |values|
    ensures Stopped !in outputs ==> forall k | 0 <= k < |values| :: reversed[k] == values[|values| - 1 - k]
  {
    var table := new HashTable(traits);
    outputs, values, reversed := [], [], [];
    assert ops[0..] == ops;
    for i := 0 to |ops|
      invariant table.Valid() && fresh(table)
      invariant outputs + Answers(table.Values(), ops[i..]) == Answers([], ops)
      invariant ApplyAll(table.Values(), ops[i..]) == ApplyAll([], ops)
    {
      RunStep(outputs, table.Values(), ops, i, i + 1);
      var output := Perform(table, ops[i]);
      outputs := outputs + [output];
      if output.Stopped? {
        return;
      }
    }
    assert ops[|ops|..] == [];
    values := table.Forwards();
    reversed := table.Backwards();
  }

  lemma {:induction false} RunStep(before: seq<Output>, s: seq<Entry>, ops: seq<Operation>, i: nat, i': nat)
    requires i < |ops| && i' == i + 1
    ensures var answer, s' := Answer(s, ops[i]), Apply(s, ops[i]);
      && before + Answers(s, ops[i..]) == before + [answer] + (if answer.Stopped? then [] else Answers(s', ops[i'..]))
      && ApplyAll(s, ops[i..]) == ApplyAll(s', ops[i'..])
  {
    var rest, tail, answer := ops[i..], ops[i'..], Answer(s, ops[i]);
    assert rest[0] == ops[i] && rest[1..] == tail;
    var answers := if answer.Stopped? then [] else Answers(Apply(s, ops[i]), tail);
    assert Answers(s, rest) == [answer] + answers;
    Regroup(before, [answer], answers);
  }
}

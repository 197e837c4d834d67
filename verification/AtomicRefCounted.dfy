/** The reference count of AK/AtomicRefCounted.h as a protocol of atomic steps, interleaved in any way by any number of
    threads. A reference is a handle with an owner; `ref` and `unref` are called on handles the thread owns. */
module AtomicRefCounted {

  type Thread = nat
  type Handle = nat

  /** The largest unsigned int. */
  const MAX: nat := 0xffff_ffff

  /** Between the atomic steps of a call: `try_ref` with the count it has read, `unref` with the count it has left. */
  datatype Pc = Idle | Trying(expected: nat) | Dropped(left: nat)

  datatype State = State(
    count: nat,
    live: set<Handle>,
    owner: map<Handle, Thread>,
    pc: map<Thread, Pc>,
    destroyed: nat,
    aborted: bool)

  /** The object is created with one reference. */
  ghost predicate Init(s: State) {
    && s.count == 1 && |s.live| == 1 && s.live <= s.owner.Keys
    && (forall t | t in s.pc :: s.pc[t] == Idle) && s.destroyed == 0 && !s.aborted
  }

  datatype Action =
    | Ref(t: Thread, h: Handle, added: Handle)
    | TryLoad(t: Thread)
    | TryFail(t: Thread)
    | TryOverflow(t: Thread)
    | TryExchange(t: Thread, added: Handle)
    | FetchSub(t: Thread, h: Handle)
    | Finish(t: Thread)
    | HandOver(h: Handle, to: Thread)

  ghost predicate At(s: State, t: Thread, pc: Pc) {
    t in s.pc && s.pc[t] == pc
  }

  ghost predicate Holds(s: State, t: Thread, h: Handle) {
    h in s.live && h in s.owner && s.owner[h] == t
  }

  ghost predicate Enabled(s: State, a: Action) {
    !s.aborted &&
    match a
    case Ref(t, h, added) => At(s, t, Idle) && Holds(s, t, h) && added !in s.live
    case TryLoad(t) => At(s, t, Idle)
    case TryFail(t) => At(s, t, Trying(0))
    case TryOverflow(t) => At(s, t, Trying(MAX))
    case TryExchange(t, added) => t in s.pc && s.pc[t].Trying? && s.pc[t].expected != 0 && s.pc[t].expected != MAX && added !in s.live
    case FetchSub(t, h) => At(s, t, Idle) && Holds(s, t, h)
    case Finish(t) => t in s.pc && s.pc[t].Dropped?
    case HandOver(h, _) => h in s.live
  }

  ghost function Do(s: State, a: Action): State
    requires Enabled(s, a)
  {
    match a
    case Ref(t, _, added) =>
      // fetch_add, then the two checks of the value it returned
      s.(count := if s.count == MAX then 0 else s.count + 1, live := s.live + {added}, owner := s.owner[added := t],
         aborted := s.count == 0 || s.count == MAX)
    case TryLoad(t) => s.(pc := s.pc[t := Trying(s.count)])
    case TryFail(t) => s.(pc := s.pc[t := Idle])
    case TryOverflow(t) => s.(aborted := true)
    case TryExchange(t, added) =>
      if s.count == s.pc[t].expected then
        s.(count := s.count + 1, live := s.live + {added}, owner := s.owner[added := t], pc := s.pc[t := Idle])
      else
        s.(pc := s.pc[t := Trying(s.count)])
    case FetchSub(t, h) =>
      var left := if s.count == 0 then MAX else s.count - 1;
      s.(count := left, live := s.live - {h}, pc := s.pc[t := Dropped(left)], aborted := s.count == 0)
    case Finish(t) =>
      s.(pc := s.pc[t := Idle], destroyed := s.destroyed + if s.pc[t].left == 0 then 1 else 0)
    case HandOver(h, to) => s.(owner := s.owner[h := to])
  }

  /** A `try_ref` that returns true. */
  ghost predicate Succeeds(s: State, a: Action)
    requires Enabled(s, a)
  {
    a.TryExchange? && s.count == s.pc[a.t].expected
  }

  // ---- what every step keeps ----

  /** The threads that are about to destroy the object. */
  ghost function Destroyers(s: State): set<Thread> {
    set t | t in s.pc && s.pc[t] == Dropped(0)
  }

  ghost predicate Inv(s: State) {
    s.aborted ||
    (&& s.count == |s.live| <= MAX && s.live <= s.owner.Keys
     && |Destroyers(s)| + s.destroyed == if s.count == 0 then 1 else 0)
  }

  lemma {:induction false} InitInv(s: State)
    requires Init(s)
    ensures Inv(s)
  {
    assert Destroyers(s) == {};
  }

  lemma {:induction false} DestroyersAfter(s: State, t: Thread, p: Pc, s': State)
    requires s'.pc == s.pc[t := p]
    ensures Destroyers(s') == if p == Dropped(0) then Destroyers(s) + {t} else Destroyers(s) - {t}
  {
  }

  /** A thread that holds a reference sees a positive count. */
  lemma {:induction false} PositiveWhenHeld(s: State, a: Action)
    requires Inv(s) && Enabled(s, a)
    ensures a.Ref? || a.FetchSub? ==> s.count > 0
  {
    if a.Ref? || a.FetchSub? {
      assert {a.h} <= s.live;
      assert |s.live| == |s.live - {a.h}| + 1;
    }
  }

  lemma {:induction false} RefInv(s: State, a: Action)
    requires Inv(s) && Enabled(s, a) && a.Ref?
    ensures Inv(Do(s, a))
  {
    var s' := Do(s, a);
    PositiveWhenHeld(s, a);
    assert Destroyers(s') == Destroyers(s);
    assert |s'.live| == |s.live| + 1;
  }

  lemma {:induction false} TryInv(s: State, a: Action)
    requires Inv(s) && Enabled(s, a) && (a.TryLoad? || a.TryFail? || a.TryOverflow? || a.TryExchange?)
    ensures Inv(Do(s, a))
  {
    var s' := Do(s, a);
    if !a.TryOverflow? {
      DestroyersAfter(s, a.t, s'.pc[a.t], s');
      assert Destroyers(s) - {a.t} == Destroyers(s);
    }
  }

  lemma {:induction false} FetchSubInv(s: State, a: Action)
    requires Inv(s) && Enabled(s, a) && a.FetchSub?
    ensures Inv(Do(s, a))
  {
    var s' := Do(s, a);
    PositiveWhenHeld(s, a);
    DestroyersAfter(s, a.t, s'.pc[a.t], s');
    assert a.t !in Destroyers(s);
    assert Destroyers(s) - {a.t} == Destroyers(s);
    assert |s'.live| == |s.live| - 1;
  }

  lemma {:induction false} FinishInv(s: State, a: Action)
    requires Inv(s) && Enabled(s, a) && a.Finish?
    ensures Inv(Do(s, a))
  {
    var s' := Do(s, a);
    DestroyersAfter(s, a.t, Idle, s');
    if s.pc[a.t].left == 0 {
      assert a.t in Destroyers(s);
    } else {
      assert Destroyers(s) - {a.t} == Destroyers(s);
    }
  }

  lemma {:induction false} StepInv(s: State, a: Action)
    requires Inv(s) && Enabled(s, a)
    ensures Inv(Do(s, a))
  {
    match a
    case Ref(_, _, _) => RefInv(s, a);
    case FetchSub(_, _) => FetchSubInv(s, a);
    case Finish(_) => FinishInv(s, a);
    case HandOver(_, _) => assert Destroyers(Do(s, a)) == Destroyers(s);
    case _ => TryInv(s, a);
  }

  // ---- whole runs ----

  /** A run: a state before each action and one after the last. */
  ghost predicate Run(states: seq<State>, actions: seq<Action>) {
    && |states| == |actions| + 1 && Init(states[0])
    && forall i | 0 <= i < |actions| :: StepAt(states, actions, i)
  }

  ghost predicate StepAt(states: seq<State>, actions: seq<Action>, i: int)
    requires |states| == |actions| + 1 && 0 <= i < |actions|
  {
    Enabled(states[i], actions[i]) && states[i + 1] == Do(states[i], actions[i])
  }

  lemma {:induction false} RunInv(states: seq<State>, actions: seq<Action>, n: nat)
    requires Run(states, actions) && n < |states|
    ensures Inv(states[n])
  {
    if n == 0 {
      InitInv(states[0]);
    } else {
      RunInv(states, actions, n - 1);
      assert StepAt(states, actions, n - 1);
      StepInv(states[n - 1], actions[n - 1]);
    }
  }

  /** Unless the program has been aborted, the count is the number of live references, and the object has been
      destroyed at most once, and only with no reference left. */
  lemma {:induction false} CountIsLiveReferences(states: seq<State>, actions: seq<Action>, n: nat)
    requires Run(states, actions) && n < |states| && !states[n].aborted
    ensures states[n].count == |states[n].live|
    ensures states[n].destroyed <= 1 && (states[n].destroyed == 1 ==> states[n].live == {})
  {
    RunInv(states, actions, n);
  }

  /** The step is one of a call that the thread is in. */
  ghost predicate By(a: Action, t: Thread) {
    !a.HandOver? && a.t == t
  }

  /** The count a `try_ref` goes by is one that the thread has read before, in its last step. */
  lemma {:induction false} ExpectedWasRead(states: seq<State>, actions: seq<Action>, t: Thread, n: nat) returns (m: nat)
    requires Run(states, actions) && n < |states| && !states[n].aborted && t in states[n].pc && states[n].pc[t].Trying?
    ensures m < n && states[m].count == states[m + 1].count == states[n].pc[t].expected && !states[m].aborted
    ensures By(actions[m], t) && forall k | m < k < n :: !By(actions[k], t)
  {
    assert n > 0;
    m := n - 1;
    assert StepAt(states, actions, m);
    var a := actions[m];
    if !((a.TryLoad? || a.TryExchange?) && a.t == t) {
      m := ExpectedWasRead(states, actions, t, n - 1);
    }
  }

  /** The checks can only fail after the number of live references has been the largest possible. */
  lemma {:induction false} AbortsOnlyAtMaximum(states: seq<State>, actions: seq<Action>, n: nat)
    requires Run(states, actions) && n < |actions| && states[n + 1].aborted
    ensures exists m :: 0 <= m <= n && |states[m].live| == MAX
  {
    RunInv(states, actions, n);
    assert StepAt(states, actions, n);
    PositiveWhenHeld(states[n], actions[n]);
    if actions[n].TryOverflow? {
      var m := ExpectedWasRead(states, actions, actions[n].t, n);
      RunInv(states, actions, m);
      assert |states[m].live| == MAX;
    } else {
      assert |states[n].live| == MAX;
    }
  }

  lemma {:induction false} StepAtZero(s: State, a: Action)
    requires Inv(s) && Enabled(s, a) && s.count == 0
    ensures a.TryOverflow? || (Do(s, a).count == 0 && Do(s, a).live == {} && !Do(s, a).aborted)
    ensures !Succeeds(s, a)
  {
    assert s.live == {};
  }

  /** Once the count has reached zero it stays there: no later `try_ref` succeeds. */
  lemma {:induction false} ZeroIsForever(states: seq<State>, actions: seq<Action>, m: nat, n: nat)
    requires Run(states, actions) && m <= n < |states| && states[m].count == 0 && !states[n].aborted
    ensures states[n].count == 0
    ensures n < |actions| ==> Enabled(states[n], actions[n]) && !Succeeds(states[n], actions[n])
    decreases n - m
  {
    if m < n {
      assert StepAt(states, actions, n - 1);
      ZeroIsForever(states, actions, m, n - 1);
      RunInv(states, actions, n - 1);
      StepAtZero(states[n - 1], actions[n - 1]);
    }
    if n < |actions| {
      assert StepAt(states, actions, n);
      RunInv(states, actions, n);
      StepAtZero(states[n], actions[n]);
    }
  }

  // ---- what `try_ref` returns ----

  /** `try_ref` returns false only when no reference is left. */
  lemma {:induction false} FailsOnlyAtZero(states: seq<State>, actions: seq<Action>, n: nat)
    requires Run(states, actions) && n < |actions| && actions[n].TryFail?
    ensures states[n].count == 0 && states[n].live == {}
  {
    assert StepAt(states, actions, n);
    var m := ExpectedWasRead(states, actions, actions[n].t, n);
    ZeroIsForever(states, actions, m, n);
    RunInv(states, actions, n);
  }

  /** A thread leaves `try_ref` in one of two ways: false with no reference left, or true with one more, its own. */
  lemma {:induction false} TryReturns(states: seq<State>, actions: seq<Action>, t: Thread, n: nat)
    requires Run(states, actions) && n < |actions|
    requires t in states[n].pc && states[n].pc[t].Trying? && !(t in states[n + 1].pc && states[n + 1].pc[t].Trying?)
    ensures var s, s', a := states[n], states[n + 1], actions[n];
      || (a == TryFail(t) && s.live == {} && s'.live == {} && s'.count == 0)
      || (&& a.TryExchange? && a.t == t && a.added !in s.live && s.live != {}
          && s'.live == s.live + {a.added} && Holds(s', t, a.added) && s'.count == s.count + 1)
  {
    assert StepAt(states, actions, n);
    RunInv(states, actions, n);
    if actions[n].TryFail? {
      FailsOnlyAtZero(states, actions, n);
    }
  }

  /** With a live reference and room for another, a `try_ref` that has just read the count cannot but succeed. */
  lemma {:induction false} TrySucceeds(s: State, t: Thread, added: Handle)
    requires Inv(s) && !s.aborted && 0 < |s.live| < MAX && At(s, t, Trying(s.count)) && added !in s.live
    ensures Enabled(s, TryExchange(t, added)) && !Enabled(s, TryFail(t)) && !Enabled(s, TryOverflow(t))
    ensures var s' := Do(s, TryExchange(t, added));
      && At(s', t, Idle) && s'.live == s.live + {added} && Holds(s', t, added) && s'.count == s.count + 1 && !s'.aborted
  {
  }

  /** Otherwise an exchange fails only because another thread has changed the count since it was read, and the call
      goes on with the count it has found. */
  lemma {:induction false} RetriesOnlyAfterChange(states: seq<State>, actions: seq<Action>, n: nat) returns (k: nat)
    requires Run(states, actions) && n < |actions| && actions[n].TryExchange?
    requires !At(states[n], actions[n].t, Trying(states[n].count))
    ensures k < n && !By(actions[k], actions[n].t) && states[k].count != states[k + 1].count
    ensures At(states[n + 1], actions[n].t, Trying(states[n].count)) && states[n + 1].live == states[n].live
  {
    assert StepAt(states, actions, n);
    var m := ExpectedWasRead(states, actions, actions[n].t, n);
    k := m + 1;
    while states[k + 1].count == states[k].count
      invariant m < k < n && states[k].count == states[m].count
      decreases n - k
    {
      if k + 1 == n {
        assert false;
      }
      k := k + 1;
    }
  }

  /** A call of `try_ref` is never stuck, however old the count is that it goes by. */
  lemma {:induction false} TryGoesOn(s: State, t: Thread, added: Handle)
    requires !s.aborted && t in s.pc && s.pc[t].Trying? && added !in s.live
    ensures Enabled(s, TryFail(t)) || Enabled(s, TryOverflow(t)) || Enabled(s, TryExchange(t, added))
  {
  }

  /** The step that destroys the object belongs to the thread whose `unref` dropped the last reference; when it
      happens the count is zero, as the destructor checks. */
  lemma {:induction false} DestroyedByLastUnref(states: seq<State>, actions: seq<Action>, n: nat)
    requires Run(states, actions) && n < |actions| && states[n + 1].destroyed > states[n].destroyed
    ensures actions[n].Finish? && states[n].count == 0 && states[n].destroyed == 0
    ensures exists m :: 0 <= m < n && actions[m].FetchSub? && actions[m].t == actions[n].t && states[m].count == 1
                        && states[m + 1].count == 0
  {
    RunInv(states, actions, n);
    assert StepAt(states, actions, n);
    var t := actions[n].t;
    assert t in Destroyers(states[n]);
    var m := DroppedAt(states, actions, t, n);
  }

  /** Where a thread that stands before the destruction has dropped the last reference. */
  lemma {:induction false} DroppedAt(states: seq<State>, actions: seq<Action>, t: Thread, n: nat) returns (m: nat)
    requires Run(states, actions) && n < |states| && !states[n].aborted && At(states[n], t, Dropped(0))
    ensures m < n && actions[m].FetchSub? && actions[m].t == t && states[m].count == 1 && states[m + 1].count == 0
  {
    assert n > 0;
    m := n - 1;
    assert StepAt(states, actions, m);
    if !(actions[m].FetchSub? && actions[m].t == t) {
      m := DroppedAt(states, actions, t, n - 1);
    }
  }

  /** When no reference is left and every call has returned, the object has been destroyed, once. */
  lemma {:induction false} DestroyedInTheEnd(states: seq<State>, actions: seq<Action>, n: nat)
    requires Run(states, actions) && n < |states| && !states[n].aborted && states[n].live == {}
    requires forall t | t in states[n].pc :: states[n].pc[t] == Idle
    ensures states[n].destroyed == 1
  {
    RunInv(states, actions, n);
    assert Destroyers(states[n]) == {};
  }
}

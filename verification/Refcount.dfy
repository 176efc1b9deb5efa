/** A reference count shared by threads: the version with a lock, and the lock-free one, which reads the count and
    then exchanges it if nobody changed it in between. */
module Refcount {

  /** CRYPTO_REFCOUNT_MAX: a count that reached it stays there. */
  const MAX: nat := 0xFFFF_FFFF

  datatype Op = Inc | Dec

  /** What an operation returns; Crashed stands for abort, on a decrement of zero. */
  datatype Result = Counted | NotZero | Zero | Crashed

  // The atomic counter

  function Apply(count: nat, op: Op): (nat, Result) {
    match op
    case Inc => (if count < MAX then count + 1 else count, Counted)
    case Dec =>
      if count == 0 then (0, Crashed)
      else if count == MAX then (MAX, NotZero)
      else (count - 1, if count - 1 == 0 then Zero else NotZero)
  }

  /** An operation as it took effect: the thread, the operation and its result. */
  datatype Entry = Entry(thread: nat, op: Op, result: Result)

  /** The count after the operations of a log. */
  ghost function CountAfter(count: nat, log: seq<Entry>): nat {
    if log == [] then count else Apply(CountAfter(count, log[..|log| - 1]), log[|log| - 1].op).0
  }

  /** The results in the log are those of the atomic counter, one operation after the other. */
  ghost predicate Linear(count: nat, log: seq<Entry>) {
    forall i | 0 <= i < |log| :: log[i].result == Apply(CountAfter(count, log[..i]), log[i].op).1
  }

  ghost function Number(log: seq<Entry>, op: Op): nat {
    if log == [] then 0 else Number(log[..|log| - 1], op) + if log[|log| - 1].op == op then 1 else 0
  }

  ghost function Results(log: seq<Entry>, r: Result): nat {
    if log == [] then 0 else Results(log[..|log| - 1], r) + if log[|log| - 1].result == r then 1 else 0
  }

  lemma LinearPrefix(count: nat, log: seq<Entry>, n: nat)
    requires Linear(count, log) && n <= |log|
    ensures Linear(count, log[..n])
  {
    forall i | 0 <= i < n ensures log[..n][i].result == Apply(CountAfter(count, log[..n][..i]), log[..n][i].op).1 {
      assert log[..n][..i] == log[..i];
    }
  }

  /** A count that is not saturated is the initial one, plus the increments, minus the decrements that did not
      crash. */
  lemma {:induction false} CountLaw(count: nat, log: seq<Entry>)
    requires count <= MAX && Linear(count, log)
    ensures CountAfter(count, log) <= 0xFFFF_FFFF
    ensures CountAfter(count, log) != 0xFFFF_FFFF ==>
              CountAfter(count, log) == count + Number(log, Inc) - (Number(log, Dec) - Results(log, Crashed))
  {
    if log != [] {
      LinearPrefix(count, log, |log| - 1);
      CountLaw(count, log[..|log| - 1]);
    }
  }

  lemma {:induction false} StaysSaturated(count: nat, log: seq<Entry>, n: nat)
    requires n <= |log| && CountAfter(count, log[..n]) == MAX
    ensures CountAfter(count, log) == MAX
  {
    if n < |log| {
      assert log[..|log| - 1][..n] == log[..n];
      StaysSaturated(count, log[..|log| - 1], n);
    } else {
      assert log[..n] == log;
    }
  }

  /** Once the count is saturated it never changes again, and no decrement reports zero or crashes. */
  lemma Saturated(count: nat, log: seq<Entry>, n: nat)
    requires Linear(count, log) && n <= |log| && CountAfter(count, log[..n]) == MAX
    ensures CountAfter(count, log) == MAX == 0xFFFF_FFFF
    ensures forall i | n <= i < |log| :: log[i].result == if log[i].op == Inc then Counted else NotZero
  {
    StaysSaturated(count, log, n);
    forall i | n <= i < |log| ensures log[i].result == if log[i].op == Inc then Counted else NotZero {
      assert log[..i][..n] == log[..n];
      StaysSaturated(count, log[..i], n);
    }
  }

  /** While nobody takes a new reference to a count of zero, and nobody crashes, exactly one decrement reports zero if
      the count has drained, and none before. */
  lemma {:induction false} OneReportsZero(count: nat, log: seq<Entry>)
    requires 0 < count <= MAX && Linear(count, log) && Results(log, Crashed) == 0
    requires forall i | 0 <= i < |log| && log[i].op == Inc :: CountAfter(count, log[..i]) > 0
    ensures Results(log, Zero) == if CountAfter(count, log) == 0 then 1 else 0
  {
    if log != [] {
      var init := log[..|log| - 1];
      LinearPrefix(count, log, |log| - 1);
      assert forall i | 0 <= i < |init| :: init[..i] == log[..i];
      OneReportsZero(count, init);
    }
  }

  // The version with a lock

  class LockedCount {
    var count: nat

    constructor (initial: nat)
      requires initial <= MAX
      ensures count == initial
    {
      count := initial;
    }

    /** CRYPTO_refcount_inc */
    method Increment()
      requires count <= MAX
      modifies this
      ensures count <= MAX && count == Apply(old(count), Inc).0
    {
      if count < MAX {
        count := count + 1;
      }
    }

    /** CRYPTO_refcount_dec_and_test_zero */
    method DecrementAndTestZero() returns (result: Result)
      requires count <= MAX
      modifies this
      ensures count <= MAX && (count, result) == Apply(old(count), Dec)
    {
      if count == 0 {
        return Crashed;
      }
      if count < MAX {
        count := count - 1;
      }
      return if count == 0 then Zero else NotZero;
    }
  }

  // The lock-free version, as steps of any number of threads

  /** A thread that runs an operation holds the count it expects. */
  datatype Thread = Idle | Running(op: Op, expected: nat)

  /** log holds the operations in the order in which they took effect, returned those that have returned. */
  datatype State = State(count: nat, threads: map<nat, Thread>, log: seq<Entry>, returned: seq<Entry>, crashed: bool) {
    function Of(t: nat): Thread {
      if t in threads then threads[t] else Idle
    }
  }

  /** A thread loads the count; tries to exchange it, which may fail without a reason; or leaves its loop. */
  datatype Action = Load(t: nat, op: Op) | Exchange(t: nat, spurious: bool) | Leave(t: nat)

  /** Whether the value read ends the loop: nothing is left to change, or there is nothing to take. */
  predicate Decided(op: Op, expected: nat) {
    expected == MAX || (op == Dec && expected == 0)
  }

  predicate Enabled(s: State, a: Action) {
    && !s.crashed
    && match a
       case Load(t, _) => s.Of(t).Idle?
       case Exchange(t, _) => s.Of(t).Running? && !Decided(s.Of(t).op, s.Of(t).expected)
       case Leave(t) => s.Of(t).Running? && Decided(s.Of(t).op, s.Of(t).expected)
  }

  /** The thread reads the count: an operation that the value decides takes effect here. */
  function Read(s: State, t: nat, op: Op): State {
    var reading := s.(threads := s.threads[t := Running(op, s.count)]);
    if Decided(op, s.count) then reading.(log := s.log + [Entry(t, op, Apply(s.count, op).1)]) else reading
  }

  function Next(s: State, a: Action): State
    requires Enabled(s, a)
  {
    match a
    case Load(t, op) => Read(s, t, op)
    case Exchange(t, spurious) =>
      var th := s.Of(t);
      if s.count == th.expected && !spurious then
        var newCount := if th.op == Inc then th.expected + 1 else th.expected - 1;
        var e := Entry(t, th.op, if th.op == Inc then Counted else if newCount == 0 then Zero else NotZero);
        State(newCount, s.threads[t := Idle], s.log + [e], s.returned + [e], false)
      else Read(s, t, th.op)
    case Leave(t) =>
      var th := s.Of(t);
      var result := if th.op == Inc then Counted else if th.expected == 0 then Crashed else NotZero;
      s.(threads := s.threads[t := Idle], returned := s.returned + [Entry(t, th.op, result)],
         crashed := result == Crashed)
  }

  /** The states are those that the actions lead through. */
  ghost predicate IsRun(states: seq<State>, actions: seq<Action>) {
    && |states| == |actions| + 1
    && forall i | 0 <= i < |actions| ::
         Enabled(states[i], actions[i]) && states[i + 1] == Next(states[i], actions[i])
  }

  function Start(count: nat): State {
    State(count, map[], [], [], false)
  }

  /** The entries of one thread. */
  ghost function By(t: nat, log: seq<Entry>): seq<Entry> {
    if log == [] then []
    else
      var before := By(t, log[..|log| - 1]);
      if log[|log| - 1].thread == t then before + [log[|log| - 1]] else before
  }

  /** What took effect for a thread and has not returned. */
  ghost function Outstanding(s: State, t: nat): seq<Entry> {
    match s.Of(t)
    case Idle => []
    case Running(op, expected) =>
      if Decided(op, expected) then [Entry(t, op, Apply(expected, op).1)] else []
  }

  ghost predicate Consistent(initial: nat, s: State) {
    && s.count <= MAX && s.count == CountAfter(initial, s.log) && Linear(initial, s.log)
    && forall t: nat :: InOrder(s, t)
  }

  /** What took effect for a thread is what has returned to it, and what is outstanding. */
  ghost predicate InOrder(s: State, t: nat) {
    && (s.Of(t).Running? ==> s.Of(t).expected <= MAX)
    && By(t, s.log) == By(t, s.returned) + Outstanding(s, t)
  }

  lemma ByAppend(t: nat, log: seq<Entry>, e: Entry)
    ensures By(t, log + [e]) == if e.thread == t then By(t, log) + [e] else By(t, log)
  {
    assert (log + [e])[..|log|] == log;
  }

  lemma LinearAppend(initial: nat, log: seq<Entry>, e: Entry)
    requires Linear(initial, log) && e.result == Apply(CountAfter(initial, log), e.op).1
    ensures Linear(initial, log + [e])
    ensures CountAfter(initial, log + [e]) == Apply(CountAfter(initial, log), e.op).0
  {
    assert (log + [e])[..|log|] == log;
    forall i | 0 <= i < |log| ensures (log + [e])[..i] == log[..i] {}
  }

  lemma ReadInOrder(s: State, t: nat, op: Op, u: nat)
    requires InOrder(s, u) && Outstanding(s, t) == [] && s.count <= MAX
    ensures InOrder(Read(s, t, op), u)
  {
    hide By, Apply;
    ByAppend(u, s.log, Entry(t, op, Apply(s.count, op).1));
  }

  lemma ExchangeInOrder(s: State, t: nat, u: nat)
    requires InOrder(s, u) && Enabled(s, Exchange(t, false)) && s.count == s.Of(t).expected
    ensures InOrder(Next(s, Exchange(t, false)), u)
  {
    hide By, Apply;
    var e := Next(s, Exchange(t, false)).log[|s.log|];
    ByAppend(u, s.log, e);
    ByAppend(u, s.returned, e);
  }

  lemma LeaveInOrder(s: State, t: nat, u: nat)
    requires InOrder(s, u) && InOrder(s, t) && Enabled(s, Leave(t))
    ensures InOrder(Next(s, Leave(t)), u)
  {
    hide By;
    ByAppend(u, s.returned, Next(s, Leave(t)).returned[|s.returned|]);
  }

  lemma ReadConsistent(initial: nat, s: State, t: nat, op: Op)
    requires Consistent(initial, s) && Outstanding(s, t) == []
    ensures Consistent(initial, Read(s, t, op))
  {
    LinearAppend(initial, s.log, Entry(t, op, Apply(s.count, op).1));
    forall u: nat ensures InOrder(Read(s, t, op), u) {
      ReadInOrder(s, t, op, u);
    }
    hide InOrder, Linear, CountAfter;
  }

  lemma ExchangeLinear(initial: nat, s: State, t: nat)
    requires s.count <= MAX && s.count == CountAfter(initial, s.log) && Linear(initial, s.log)
    requires Enabled(s, Exchange(t, false)) && s.count == s.Of(t).expected
    ensures var next := Next(s, Exchange(t, false));
            next.count <= MAX && next.count == CountAfter(initial, next.log) && Linear(initial, next.log)
  {
    hide Linear, CountAfter;
    LinearAppend(initial, s.log, Next(s, Exchange(t, false)).log[|s.log|]);
  }

  lemma ExchangeConsistent(initial: nat, s: State, t: nat)
    requires Consistent(initial, s) && Enabled(s, Exchange(t, false)) && s.count == s.Of(t).expected
    ensures Consistent(initial, Next(s, Exchange(t, false)))
  {
    ExchangeLinear(initial, s, t);
    forall u: nat ensures InOrder(Next(s, Exchange(t, false)), u) {
      assert InOrder(s, u);
      ExchangeInOrder(s, t, u);
    }
    hide InOrder, Linear, CountAfter, Next;
  }

  lemma LeaveConsistent(initial: nat, s: State, t: nat)
    requires Consistent(initial, s) && Enabled(s, Leave(t))
    ensures Consistent(initial, Next(s, Leave(t)))
  {
    forall u: nat ensures InOrder(Next(s, Leave(t)), u) {
      LeaveInOrder(s, t, u);
    }
    hide InOrder, Linear, CountAfter;
  }

  lemma NextConsistent(initial: nat, s: State, a: Action)
    requires Consistent(initial, s) && Enabled(s, a)
    ensures Consistent(initial, Next(s, a))
  {
    hide Consistent;
    match a
    case Load(t, op) => ReadConsistent(initial, s, t, op);
    case Exchange(t, spurious) =>
      if s.count == s.Of(t).expected && !spurious {
        ExchangeConsistent(initial, s, t);
      } else {
        ReadConsistent(initial, s, t, s.Of(t).op);
      }
    case Leave(t) => LeaveConsistent(initial, s, t);
  }

  lemma {:induction false} RunConsistent(initial: nat, states: seq<State>, actions: seq<Action>)
    requires initial <= MAX && IsRun(states, actions) && states[0] == Start(initial)
    ensures Consistent(initial, states[|actions|])
  {
    if actions == [] {
      assert forall t: nat :: InOrder(Start(initial), t);
    } else {
      var n := |actions| - 1;
      assert IsRun(states[..n + 1], actions[..n]);
      RunConsistent(initial, states[..n + 1], actions[..n]);
      NextConsistent(initial, states[n], actions[n]);
    }
  }

  // The order in real time

  /** Where the n-th operation of a thread stands in a log. */
  ghost function Place(t: nat, log: seq<Entry>, n: nat): (place: nat)
    requires n < |By(t, log)|
    ensures place < |log| && log[place].thread == t && log[place] == By(t, log)[n]
  {
    var init := log[..|log| - 1];
    if n < |By(t, init)| then Place(t, init, n) else |log| - 1
  }

  /** The operations of a thread that a log holds already stay where they are when it grows; the others come behind. */
  lemma {:induction false} PlaceGrows(t: nat, before: seq<Entry>, log: seq<Entry>, n: nat)
    requires before <= log && n < |By(t, log)|
    ensures By(t, before) <= By(t, log)
    ensures Place(t, log, n) < |before| <==> n < |By(t, before)|
  {
    if |before| == |log| {
      assert before == log;
    } else {
      var init := log[..|log| - 1];
      ByGrows(t, before, init);
      if n < |By(t, init)| {
        PlaceGrows(t, before, init, n);
      }
    }
  }

  lemma {:induction false} ByGrows(t: nat, before: seq<Entry>, log: seq<Entry>)
    requires before <= log
    ensures By(t, before) <= By(t, log)
  {
    if |before| == |log| {
      assert before == log;
    } else {
      ByGrows(t, before, log[..|log| - 1]);
    }
  }

  lemma {:induction false} LogGrows(states: seq<State>, actions: seq<Action>, i: nat, j: nat)
    requires IsRun(states, actions) && i <= j <= |actions|
    ensures states[i].log <= states[j].log && states[i].returned <= states[j].returned
    decreases j - i
  {
    if i < j {
      LogGrows(states, actions, i, j - 1);
      assert Enabled(states[j - 1], actions[j - 1]) && states[j - 1 + 1] == Next(states[j - 1], actions[j - 1]);
    }
  }

  /** In state i the n-th operation of thread t has returned, and the m-th of thread u has not been called. */
  ghost predicate Precedes(states: seq<State>, i: nat, t: nat, n: nat, u: nat, m: nat) {
    i < |states| && n < |By(t, states[i].returned)| && states[i].Of(u).Idle? && |By(u, states[i].returned)| <= m
  }

  lemma PrecedesInLog(initial: nat, states: seq<State>, actions: seq<Action>, i: nat, t: nat, n: nat, u: nat, m: nat)
    requires initial <= MAX && IsRun(states, actions) && states[0] == Start(initial)
    requires Precedes(states, i, t, n, u, m) && m < |By(u, states[|actions|].log)|
    ensures n < |By(t, states[|actions|].log)|
    ensures Place(t, states[|actions|].log, n) < |states[i].log| <= Place(u, states[|actions|].log, m)
  {
    var log, end := states[i].log, states[|actions|].log;
    assert IsRun(states[..i + 1], actions[..i]);
    RunConsistent(initial, states[..i + 1], actions[..i]);
    assert InOrder(states[i], t) && InOrder(states[i], u);
    hide By, IsRun, InOrder, Consistent;
    LogGrows(states, actions, i, |actions|);
    ByGrows(t, log, end);
    PlaceGrows(t, log, end, n);
    PlaceGrows(u, log, end, m);
  }

  /** However the steps of the threads interleave, and however often an exchange fails without a reason: the
      operations take effect one after the other, exactly as on the atomic counter; every thread gets the results of
      its own in the order in which it called them; and an operation that returned before another was called takes
      effect before it. */
  lemma Linearizable(initial: nat, states: seq<State>, actions: seq<Action>)
    requires initial <= MAX && IsRun(states, actions) && states[0] == Start(initial)
    ensures Consistent(initial, states[|actions|])
    ensures var log := states[|actions|].log;
            forall i: nat, t: nat, n: nat, u: nat, m: nat | Precedes(states, i, t, n, u, m) && m < |By(u, log)| ::
              n < |By(t, log)| && Place(t, log, n) < Place(u, log, m)
  {
    RunConsistent(initial, states, actions);
    var log := states[|actions|].log;
    forall i: nat, t: nat, n: nat, u: nat, m: nat | Precedes(states, i, t, n, u, m) && m < |By(u, log)|
      ensures n < |By(t, log)| && Place(t, log, n) < Place(u, log, m)
    {
      PrecedesInLog(initial, states, actions, i, t, n, u, m);
    }
  }

  /** An operation takes effect between its load and its return: what has returned to a thread is in the log, and when
      it loads for its next operation nothing of that one is. */
  lemma EffectInside(initial: nat, states: seq<State>, actions: seq<Action>, i: nat, t: nat)
    requires initial <= MAX && IsRun(states, actions) && states[0] == Start(initial) && i <= |actions|
    ensures By(t, states[i].returned) <= By(t, states[i].log)
    ensures i < |actions| && actions[i].Load? && actions[i].t == t ==> By(t, states[i].log) == By(t, states[i].returned)
  {
    assert IsRun(states[..i + 1], actions[..i]);
    RunConsistent(initial, states[..i + 1], actions[..i]);
    assert InOrder(states[i], t);
    hide By;
    assert i < |actions| ==> Enabled(states[i], actions[i]);
  }

  /** So the laws of the atomic counter hold of every run: a count that is not saturated is the initial one plus the
      increments minus the decrements, and the decrement that drains it is the only one to report zero. */
  lemma RunCounts(initial: nat, states: seq<State>, actions: seq<Action>)
    requires 0 < initial <= MAX && IsRun(states, actions) && states[0] == Start(initial)
    ensures var s := states[|actions|];
            && s.count <= MAX
            && (s.count != MAX ==>
                  s.count == initial + Number(s.log, Inc) - (Number(s.log, Dec) - Results(s.log, Crashed)))
            && (Results(s.log, Crashed) == 0
                && (forall i | 0 <= i < |s.log| && s.log[i].op == Inc :: CountAfter(initial, s.log[..i]) > 0) ==>
                  Results(s.log, Zero) == if s.count == 0 then 1 else 0)
  {
    RunConsistent(initial, states, actions);
    var s := states[|actions|];
    CountLaw(initial, s.log);
    if Results(s.log, Crashed) == 0
       && forall i | 0 <= i < |s.log| && s.log[i].op == Inc :: CountAfter(initial, s.log[..i]) > 0 {
      OneReportsZero(initial, s.log);
    }
  }
}

/** The compare-exchange reference count of refcount_c11.c, by any number of threads, against the
    locked one of refcount_lock.c. */
module RefCount {
  const MAX := 0xffff_ffff

  datatype Op = Inc | Dec

  /** What a call comes back with; abort() does not come back. */
  datatype Result = Nothing | Zero | One | Aborted

  // ---------- the locked version ----------

  /** One call of the locked version: the new count and the result. */
  function Locked(count: nat, op: Op): (nat, Result) {
    match op
    case Inc => if count < MAX then (count + 1, Nothing) else (count, Nothing)
    case Dec =>
      if count == 0 then (count, Aborted)
      else
        var after: nat := if count < MAX then count - 1 else count;
        (after, if after == 0 then One else Zero)
  }

  /** The locked version itself, run under its mutex. */
  class LockedCount {
    var count: nat

    constructor (initial: nat)
      ensures count == initial
    {
      count := initial;
    }

    /** CRYPTO_refcount_inc. */
    method Increment()
      modifies this
      ensures (count, Nothing) == Locked(old(count), Inc)
    {
      if count < MAX {
        count := count + 1;
      }
    }

    /** CRYPTO_refcount_dec_and_test_zero. */
    method DecrementAndTestZero() returns (r: Result)
      modifies this
      ensures (count, r) == Locked(old(count), Dec)
    {
      if count == 0 {
        return Aborted;
      }
      if count < MAX {
        count := count - 1;
      }
      r := if count == 0 then One else Zero;
    }
  }

  datatype Event = Event(thread: nat, op: Op, result: Result)

  /** The count after a sequence of locked calls; -1 if one did not return what it says. */
  function Replay(initial: nat, history: seq<Event>): (r: int)
    ensures r >= -1
  {
    if history == [] then initial
    else
      var before := Replay(initial, history[..|history| - 1]);
      var e := history[|history| - 1];
      if before < 0 || Locked(before, e.op).1 != e.result then -1 else Locked(before, e.op).0
  }

  // ---------- the compare-exchange version ----------

  /** Where a thread is in its call: about to load, about to look at the value it has seen, or done
      with a result to return. */
  datatype Thread = Idle | Loading(op: Op) | Seen(op: Op, expected: nat) | Returning(result: Result)

  /** A value that ends the loop without an exchange. */
  predicate Decides(op: Op, seen: nat) {
    seen == MAX || (op.Dec? && seen == 0)
  }

  /** history is where the calls take effect, in order; returned counts each thread's finished calls. */
  datatype System = System(count: nat, threads: seq<Thread>, history: seq<Event>, returned: seq<nat>)

  datatype Action =
    | Call(op: Op)            // enter the function
    | Load                    // atomic_load
    | Exchange(fails: bool)   // one turn of the loop; a weak exchange may fail though the value matches
    | Return                  // leave the function

  /** The thread reads the shared count. A call whose loop that value ends has taken effect. */
  ghost function See(s: System, t: nat, op: Op): System
    requires t < |s.threads|
  {
    var history := if Decides(op, s.count) then s.history + [Event(t, op, Locked(s.count, op).1)] else s.history;
    s.(threads := s.threads[t := Seen(op, s.count)], history := history)
  }

  ghost function Next(s: System, t: nat, a: Action): (u: System)
    requires t < |s.threads| == |s.returned|
    ensures |u.threads| == |u.returned| == |s.threads|
  {
    match (s.threads[t], a)
    case (Idle, Call(op)) => s.(threads := s.threads[t := Loading(op)])
    case (Loading(op), Load) => See(s, t, op)
    case (Seen(op, seen), Exchange(fails)) =>
      if Decides(op, seen) then
        // the loop's exits without an exchange: saturated, or abort()
        s.(threads := s.threads[t := Returning(if op.Inc? then Nothing else if seen == 0 then Aborted else Zero)])
      else if s.count == seen && !fails then
        var after: nat := if op.Inc? then seen + 1 else seen - 1;
        var result := if op.Inc? then Nothing else if after == 0 then One else Zero;
        s.(count := after, threads := s.threads[t := Returning(result)], history := s.history + [Event(t, op, result)])
      else See(s, t, op)
    case (Returning(Aborted), _) => s
    case (Returning(_), Return) =>
      s.(threads := s.threads[t := Idle], returned := s.returned[t := s.returned[t] + 1])
    case (_, _) => s
  }

  datatype Step = Step(thread: nat, action: Action)

  ghost function Run(s: System, steps: seq<Step>): (r: System)
    requires |s.threads| == |s.returned|
    ensures |r.threads| == |r.returned| == |s.threads|
  {
    if steps == [] then s
    else
      var before := Run(s, steps[..|steps| - 1]);
      var last := steps[|steps| - 1];
      if last.thread < |before.threads| then Next(before, last.thread, last.action) else before
  }

  ghost function Start(initial: nat, threads: nat): (s: System)
    ensures |s.threads| == |s.returned| == threads
  {
    System(initial, seq(threads, i => Idle), [], seq(threads, i => 0))
  }

  /** The result a thread is committed to, if its call has taken effect and it has not returned. */
  function Committed(t: Thread): Result
    requires t.Returning? || (t.Seen? && Decides(t.op, t.expected))
  {
    if t.Returning? then t.result
    else if t.op.Inc? then Nothing
    else if t.expected == 0 then Aborted
    else Zero
  }

  predicate HasCommitted(t: Thread) {
    t.Returning? || (t.Seen? && Decides(t.op, t.expected))
  }

  /** The last event of thread t, if any. */
  function LastOf(history: seq<Event>, t: nat): Event {
    if history == [] then Event(t, Inc, Aborted)
    else if history[|history| - 1].thread == t then history[|history| - 1]
    else LastOf(history[..|history| - 1], t)
  }

  /** How often thread t's calls have taken effect. */
  function EventsOf(history: seq<Event>, t: nat): nat {
    if history == [] then 0
    else EventsOf(history[..|history| - 1], t) + if history[|history| - 1].thread == t then 1 else 0
  }

  /** The history is one of the locked version and leads to the count; every call is in it exactly
      once by the time it returns, and returns what it has in it. */
  ghost predicate Refines(initial: nat, s: System) {
    && Replay(initial, s.history) == s.count && |s.threads| == |s.returned|
    && (forall t :: 0 <= t < |s.threads| ==>
          EventsOf(s.history, t) == s.returned[t] + if HasCommitted(s.threads[t]) then 1 else 0)
    && forall t :: 0 <= t < |s.threads| && HasCommitted(s.threads[t]) ==>
         LastOf(s.history, t).result == Committed(s.threads[t])
  }

  lemma ReplaySnoc(initial: nat, history: seq<Event>, e: Event)
    requires Replay(initial, history) >= 0 && Locked(Replay(initial, history), e.op).1 == e.result
    ensures Replay(initial, history + [e]) == Locked(Replay(initial, history), e.op).0
  {
    assert (history + [e])[..|history|] == history;
  }

  lemma LastOfSnoc(history: seq<Event>, e: Event, t: nat)
    ensures LastOf(history + [e], t) == if e.thread == t then e else LastOf(history, t)
  {
    assert (history + [e])[..|history|] == history;
  }

  lemma EventsOfSnoc(history: seq<Event>, e: Event, t: nat)
    ensures EventsOf(history + [e], t) == EventsOf(history, t) + if e.thread == t then 1 else 0
  {
    assert (history + [e])[..|history|] == history;
  }

  lemma AppendRefines(initial: nat, s: System, u: System, t: nat, e: Event)
    requires Refines(initial, s) && t < |s.threads| && e.thread == t && !HasCommitted(s.threads[t])
    requires Locked(s.count, e.op) == (u.count, e.result)
    requires u.history == s.history + [e] && |u.threads| == |s.threads| && u.returned == s.returned
    requires u.threads == s.threads[t := u.threads[t]]
    requires HasCommitted(u.threads[t]) && Committed(u.threads[t]) == e.result
    ensures Refines(initial, u)
  {
    hide Replay, LastOf, Locked, EventsOf;
    ReplaySnoc(initial, s.history, e);
    forall k | 0 <= k < |u.threads|
      ensures EventsOf(u.history, k) == u.returned[k] + if HasCommitted(u.threads[k]) then 1 else 0
    {
      EventsOfSnoc(s.history, e, k);
    }
    forall k | 0 <= k < |u.threads| && HasCommitted(u.threads[k])
      ensures LastOf(u.history, k).result == Committed(u.threads[k])
    {
      LastOfSnoc(s.history, e, k);
    }
  }

  /** One step of one thread keeps the refinement. */
  lemma NextRefines(initial: nat, s: System, t: nat, a: Action)
    requires Refines(initial, s) && t < |s.threads| && s.count <= MAX
    ensures Refines(initial, Next(s, t, a)) && Next(s, t, a).count <= MAX
  {
    hide Replay, LastOf, EventsOf;
    var u := Next(s, t, a);
    if u.history != s.history {
      AppendRefines(initial, s, u, t, u.history[|s.history|]);
    }
  }

  /** Every interleaving of any number of threads, spurious failures included, is a sequence of
      locked calls: same count, same results. */
  lemma {:induction false} RunRefines(initial: nat, threads: nat, steps: seq<Step>)
    requires initial <= MAX
    ensures Refines(initial, Run(Start(initial, threads), steps)) && Run(Start(initial, threads), steps).count <= MAX
    decreases |steps|
  {
    hide Next, Refines;
    if steps == [] {
      StartRefines(initial, threads);
    } else {
      var front, last := steps[..|steps| - 1], steps[|steps| - 1];
      RunRefines(initial, threads, front);
      var before := Run(Start(initial, threads), front);
      if last.thread < |before.threads| {
        NextRefines(initial, before, last.thread, last.action);
      }
    }
  }

  lemma StartRefines(initial: nat, threads: nat)
    ensures Refines(initial, Start(initial, threads))
  {
  }

  // ---------- saturation ----------

  /** Once saturated, for ever saturated. */
  lemma {:induction false} SaturationIsPermanent(initial: nat, before: seq<Event>, after: seq<Event>)
    requires Replay(initial, before) == MAX && Replay(initial, before + after) >= 0
    ensures Replay(initial, before + after) == MAX
    decreases |after|
  {
    if after == [] {
      assert before + after == before;
    } else {
      assert (before + after)[..|before + after| - 1] == before + after[..|after| - 1];
      SaturationIsPermanent(initial, before, after[..|after| - 1]);
    }
  }

  function CountOps(history: seq<Event>, op: Op): nat {
    if history == [] then 0
    else
      var e := history[|history| - 1];
      CountOps(history[..|history| - 1], op) + if e.op == op && !e.result.Aborted? then 1 else 0
  }

  /** Unless it has saturated, the count is what it started with, plus the increments, minus the
      decrements. */
  lemma {:induction false} CountIsBalance(initial: nat, history: seq<Event>)
    requires 0 <= Replay(initial, history) < MAX
    ensures Replay(initial, history) == initial + CountOps(history, Inc) - CountOps(history, Dec)
    decreases |history|
  {
    if history != [] {
      CountIsBalance(initial, history[..|history| - 1]);
    }
  }

  // ---------- ownership ----------

  /** The references a thread's call in progress stands for: a decrement that has not taken effect
      still has its own, an increment that has taken effect has made one. */
  function InFlight(t: Thread): nat {
    match t
    case Idle => 0
    case Loading(op) => if op.Dec? then 1 else 0
    case Seen(op, seen) => if op.Dec? && !Decides(op, seen) then 1 else 0
    case Returning(r) => if r.Nothing? then 1 else 0
  }

  datatype Owned = Owned(s: System, held: seq<nat>)

  /** Threads act, and hand each other references. */
  datatype OwnedStep = Act(thread: nat, action: Action) | Give(giver: nat, taker: nat)

  /** References a thread must keep: an increment in progress is made on one. */
  function Kept(t: Thread): nat {
    if (t.Loading? || t.Seen?) && t.op.Inc? then 1 else 0
  }

  ghost predicate Shaped(o: Owned) {
    |o.s.threads| == |o.s.returned| == |o.held|
  }

  /** The system when every thread calls only on references it holds: an increment needs one, a
      decrement gives one up. Anything else does not happen. */
  ghost function NextOwned(o: Owned, step: OwnedStep): (u: Owned)
    requires Shaped(o)
    ensures Shaped(u) && |u.held| == |o.held|
  {
    match step
    case Act(t, a) =>
      if t >= |o.held| then o
      else
        var thread := o.s.threads[t];
        if thread.Idle? && a.Call? && o.held[t] == 0 then o
        else
          var held :=
            if thread.Idle? && a.Call? && a.op.Dec? then o.held[t] - 1
            else if a.Return? && thread == Returning(Nothing) then o.held[t] + 1
            else o.held[t];
          Owned(Next(o.s, t, a), o.held[t := held])
    case Give(i, j) =>
      if i >= |o.held| || j >= |o.held| || i == j || o.held[i] <= Kept(o.s.threads[i]) then o
      else o.(held := o.held[i := o.held[i] - 1][j := o.held[j] + 1])
  }

  ghost function RunOwned(o: Owned, steps: seq<OwnedStep>): (r: Owned)
    requires Shaped(o)
    ensures Shaped(r) && |r.held| == |o.held|
  {
    if steps == [] then o
    else NextOwned(RunOwned(o, steps[..|steps| - 1]), steps[|steps| - 1])
  }

  ghost function Shares(threads: seq<Thread>, held: seq<nat>): nat
    requires |threads| == |held|
  {
    if threads == [] then 0
    else
      var n := |threads| - 1;
      Shares(threads[..n], held[..n]) + held[n] + InFlight(threads[n])
  }

  lemma {:induction false} SharesUpdate(threads: seq<Thread>, held: seq<nat>, t: nat, x: Thread, h: nat)
    requires |threads| == |held| && t < |threads|
    ensures Shares(threads[t := x], held[t := h]) + held[t] + InFlight(threads[t]) ==
            Shares(threads, held) + h + InFlight(x)
    decreases |threads|
  {
    hide InFlight;
    var n := |threads| - 1;
    if t < n {
      SharesUpdate(threads[..n], held[..n], t, x, h);
      assert threads[t := x][..n] == threads[..n][t := x] && held[t := h][..n] == held[..n][t := h];
    } else {
      assert threads[t := x][..n] == threads[..n] && held[t := h][..n] == held[..n];
    }
  }

  lemma {:induction false} ShareAtLeast(threads: seq<Thread>, held: seq<nat>, t: nat)
    requires |threads| == |held| && t < |threads|
    ensures Shares(threads, held) >= held[t] + InFlight(threads[t])
    decreases |threads|
  {
    var n := |threads| - 1;
    if t < n {
      ShareAtLeast(threads[..n], held[..n], t);
    }
  }

  function Ones(history: seq<Event>): nat {
    if history == [] then 0
    else Ones(history[..|history| - 1]) + if history[|history| - 1].result.One? then 1 else 0
  }

  lemma OnesSnoc(history: seq<Event>, e: Event)
    ensures Ones(history + [e]) == Ones(history) + if e.result.One? then 1 else 0
  {
    assert (history + [e])[..|history|] == history;
  }

  /** No thread has seen a value that makes it abort, none has seen saturation, and increments have
      the reference they are made on. */
  predicate ThreadFine(t: Thread, held: nat) {
    t != Returning(Aborted) && held >= Kept(t) && (t.Seen? ==> !Decides(t.op, t.expected))
  }

  /** While the count has not saturated it is the references held and in flight, and it has reached
      zero exactly when one decrement has been told so. */
  ghost predicate Balanced(o: Owned) {
    && Shaped(o)
    && (o.s.count < MAX ==>
          && o.s.count == Shares(o.s.threads, o.held)
          && (forall t :: 0 <= t < |o.held| ==> ThreadFine(o.s.threads[t], o.held[t]))
          && Ones(o.s.history) == if o.s.count == 0 then 1 else 0)
  }

  lemma SaturatedStays(s: System, t: nat, a: Action)
    requires t < |s.threads| == |s.returned| && s.count >= MAX
    ensures Next(s, t, a).count >= MAX
  {
  }

  lemma ActKeepsBalance(o: Owned, t: nat, a: Action)
    requires Balanced(o) && t < |o.held|
    ensures Balanced(NextOwned(o, Act(t, a)))
  {
    hide Shares, Ones, Locked;
    var u := NextOwned(o, Act(t, a));
    if u.s.count < MAX {
      if o.s.count >= MAX {
        SaturatedStays(o.s, t, a);
        assert false;
      } else {
        ShareAtLeast(o.s.threads, o.held, t);
        SharesUpdate(o.s.threads, o.held, t, u.s.threads[t], u.held[t]);
        assert o.s.threads[t := o.s.threads[t]] == o.s.threads && o.held[t := o.held[t]] == o.held;
        if u.s.history != o.s.history {
          OnesSnoc(o.s.history, u.s.history[|o.s.history|]);
        }
      }
    }
  }

  lemma GiveKeepsBalance(o: Owned, i: nat, j: nat)
    requires Balanced(o)
    ensures Balanced(NextOwned(o, Give(i, j)))
  {
    hide Shares, Ones;
    var u := NextOwned(o, Give(i, j));
    if u != o {
      var middle := o.held[i := o.held[i] - 1];
      SharesUpdate(o.s.threads, o.held, i, o.s.threads[i], o.held[i] - 1);
      SharesUpdate(o.s.threads, middle, j, o.s.threads[j], o.held[j] + 1);
      assert o.s.threads[i := o.s.threads[i]] == o.s.threads && o.s.threads[j := o.s.threads[j]] == o.s.threads;
    }
  }

  lemma {:induction false} RunKeepsBalance(o: Owned, steps: seq<OwnedStep>)
    requires Shaped(o) && Balanced(o)
    ensures Balanced(RunOwned(o, steps))
    decreases |steps|
  {
    hide Balanced, NextOwned;
    if steps != [] {
      var before := RunOwned(o, steps[..|steps| - 1]);
      RunKeepsBalance(o, steps[..|steps| - 1]);
      match steps[|steps| - 1]
      case Act(t, a) =>
        if t < |before.held| {
          ActKeepsBalance(before, t, a);
        } else {
          NothingHappens(before, t, a);
        }
      case Give(i, j) => GiveKeepsBalance(before, i, j);
    }
  }

  lemma NothingHappens(o: Owned, t: nat, a: Action)
    requires Balanced(o) && t >= |o.held|
    ensures Balanced(NextOwned(o, Act(t, a)))
  {
  }

  ghost function StartOwned(held: seq<nat>): (o: Owned)
    ensures Shaped(o)
  {
    Owned(Start(Shares(seq(|held|, i => Idle), held), |held|), held)
  }

  predicate AllReleased(o: Owned) {
    |o.s.threads| == |o.held| && forall t :: 0 <= t < |o.held| ==> o.s.threads[t].Idle? && o.held[t] == 0
  }

  lemma {:induction false} NothingShared(threads: seq<Thread>, held: seq<nat>)
    requires |threads| == |held| && forall t :: 0 <= t < |held| ==> threads[t].Idle? && held[t] == 0
    ensures Shares(threads, held) == 0
    decreases |threads|
  {
    if threads != [] {
      NothingShared(threads[..|threads| - 1], held[..|held| - 1]);
    }
  }

  /** Threads that only call on references they hold, starting from a count that is the number of
      references: until the count saturates nothing aborts, at most one decrement is ever told that
      it was the last, and one has been exactly when every reference is gone. */
  lemma ExactlyOneIsLast(held: seq<nat>, steps: seq<OwnedStep>)
    requires var initial := Shares(seq(|held|, i => Idle), held); 1 <= initial < MAX
    ensures var o := RunOwned(StartOwned(held), steps);
            o.s.count < MAX ==>
              && (forall t :: 0 <= t < |o.held| ==> o.s.threads[t] != Returning(Aborted))
              && Ones(o.s.history) == (if o.s.count == 0 then 1 else 0)
              && (AllReleased(o) ==> o.s.count == 0 && Ones(o.s.history) == 1)
  {
    hide Shares, Ones, NextOwned, RunOwned;
    var start := StartOwned(held);
    StartsBalanced(held);
    RunKeepsBalance(start, steps);
    var o := RunOwned(start, steps);
    if AllReleased(o) {
      NothingShared(o.s.threads, o.held);
    }
  }

  lemma StartsBalanced(held: seq<nat>)
    requires Shares(seq(|held|, i => Idle), held) >= 1
    ensures Balanced(StartOwned(held))
  {
    hide Shares;
    var o := StartOwned(held);
    assert o.s.threads == seq(|held|, i => Idle);
  }
}

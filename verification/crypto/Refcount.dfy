/**
 The reference count: any number of threads run the compare-and-swap loops of
 refcount_c11.c on one word, in any interleaving and with spurious failures.  Each call is
 proved to take effect at one atomic step, where it does what the locked code of
 refcount_lock.c does.
 */
module Refcount {

  /** `CRYPTO_REFCOUNT_MAX`. */
  const MAX: nat := 0xFFFF_FFFF

  datatype Op = Inc | Dec

  /** What a call comes to: `Zero` is the decrement that returns 1. */
  datatype Outcome = Plain | Zero | Abort

  // ---------- the locked form ----------

  function Locked(count: nat, op: Op): (r: (nat, Outcome))
    ensures count <= MAX ==> r.0 <= MAX
  {
    if op.Inc? then (if count < MAX then count + 1 else count, Plain)
    else if count == 0 then (count, Abort)
    else
      var after := if count < MAX then count - 1 else count;
      (after, if after == 0 then Zero else Plain)
  }

  /** The count after a sequence of locked calls. */
  function LockedRun(start: nat, ops: seq<Op>): nat {
    if ops == [] then start else Locked(LockedRun(start, ops[..|ops| - 1]), ops[|ops| - 1]).0
  }

  /** refcount_lock.c, between taking the lock and releasing it. */
  class LockedCount {
    var count: nat

    constructor (count: nat)
      ensures this.count == count
    {
      this.count := count;
    }

    method Increment()
      modifies this
      ensures count == Locked(old(count), Inc).0
    {
      if count < MAX {
        count := count + 1;
      }
    }

    method DecrementAndTestZero() returns (outcome: Outcome)
      modifies this
      ensures (count, outcome) == Locked(old(count), Dec)
    {
      if count == 0 {
        return Abort;
      }
      if count < MAX {
        count := count - 1;
      }
      outcome := if count == 0 then Zero else Plain;
    }
  }

  // ---------- the loops ----------

  /** A thread outside any call, or in its loop with the value it expects to find. */
  datatype Thread = Idle | Trying(op: Op, expected: nat) | Aborted

  /** A call that has taken effect. */
  datatype Effect = Effect(thread: nat, op: Op, outcome: Outcome)

  /** `done` lists the calls in the order in which they took effect. */
  datatype State = State(count: nat, threads: seq<Thread>, done: seq<Effect>)

  /** A thread calls, or tries its exchange; a weak exchange may fail for no reason. */
  datatype Event = Call(thread: nat, op: Op) | Exchange(thread: nat, spurious: bool)

  /** Having read `expected` from the word, the loop's test: at the maximum, or at zero
      for a decrement, the call is over. */
  function Look(s: State, t: nat, op: Op): State
    requires t < |s.threads|
  {
    if s.count == MAX then s.(threads := s.threads[t := Idle], done := s.done + [Effect(t, op, Plain)])
    else if op.Dec? && s.count == 0 then
      s.(threads := s.threads[t := Aborted], done := s.done + [Effect(t, op, Abort)])
    else s.(threads := s.threads[t := Trying(op, s.count)])
  }

  /** One atomic step. */
  function Step(s: State, e: Event): (s': State)
    ensures |s'.threads| == |s.threads|
  {
    if e.thread >= |s.threads| then s
    else
      var t, thread := e.thread, s.threads[e.thread];
      if e.Call? then if thread.Idle? then Look(s, t, e.op) else s
      else if !thread.Trying? then s
      else if !e.spurious && s.count == thread.expected then
        var next := if thread.op.Inc? then s.count + 1 else if s.count > 0 then s.count - 1 else 0;
        State(next, s.threads[t := Idle],
              s.done + [Effect(t, thread.op, if thread.op.Dec? && next == 0 then Zero else Plain)])
      else Look(s, t, thread.op)
  }

  function Start(count: nat, n: nat): State {
    State(count, seq(n, _ => Idle), [])
  }

  function Run(count: nat, n: nat, events: seq<Event>): (s: State)
    ensures |s.threads| == n
  {
    if events == [] then Start(count, n)
    else Step(Run(count, n, events[..|events| - 1]), events[|events| - 1])
  }

  function Ops(done: seq<Effect>): (ops: seq<Op>)
    ensures |ops| == |done|
  {
    seq(|done|, i requires 0 <= i < |done| => done[i].op)
  }

  // ---------- linearization ----------

  /** Each call in `done` came to what the locked code would have made of it in turn. */
  predicate Explained(start: nat, done: seq<Effect>) {
    done == []
    || (var before, x := done[..|done| - 1], done[|done| - 1];
        Explained(start, before) && x.outcome == Locked(LockedRun(start, Ops(before)), x.op).1)
  }

  /** A thread goes on trying only while the exchange could be right. */
  predicate Sane(s: State) {
    && s.count <= MAX
    && forall t :: 0 <= t < |s.threads| && s.threads[t].Trying? ==>
         s.threads[t].expected < MAX && (s.threads[t].op.Dec? ==> s.threads[t].expected > 0)
  }

  predicate Linear(start: nat, s: State) {
    Sane(s) && s.count == LockedRun(start, Ops(s.done)) && Explained(start, s.done)
  }

  /** A step lets at most one call take effect, and exactly when that call ends. */
  lemma OneEffect(s: State, e: Event)
    ensures Step(s, e).done == s.done || (|Step(s, e).done| == |s.done| + 1 && Step(s, e).done[..|s.done|] == s.done
                                          && Step(s, e).done[|s.done|].thread == e.thread < |s.threads|)
    ensures Step(s, e).done == s.done ==> Step(s, e).count == s.count
    ensures e.thread < |s.threads| ==>
      forall t :: 0 <= t < |s.threads| && t != e.thread ==> Step(s, e).threads[t] == s.threads[t]
    ensures Step(s, e).done != s.done <==>
      && e.thread < |s.threads| && !Step(s, e).threads[e.thread].Trying?
      && (s.threads[e.thread].Trying? || (e.Call? && s.threads[e.thread].Idle?))
  {
  }

  lemma Appended(start: nat, done: seq<Effect>, x: Effect)
    ensures LockedRun(start, Ops(done + [x])) == Locked(LockedRun(start, Ops(done)), x.op).0
  {
    assert Ops(done + [x])[..|done|] == Ops(done);
  }

  /** The step at which a call takes effect does what the locked code does. */
  lemma EffectIsLocked(s: State, e: Event)
    requires Sane(s)
    ensures Sane(Step(s, e))
    ensures Step(s, e).done != s.done ==>
      var x := Step(s, e).done[|s.done|]; Locked(s.count, x.op) == (Step(s, e).count, x.outcome)
  {
    OneEffect(s, e);
  }

  lemma StepLinear(start: nat, s: State, e: Event)
    requires Linear(start, s)
    ensures Linear(start, Step(s, e))
  {
    OneEffect(s, e);
    EffectIsLocked(s, e);
    var s' := Step(s, e);
    if s'.done != s.done {
      var x := s'.done[|s.done|];
      assert s'.done == s.done + [x] && s'.done[..|s'.done| - 1] == s.done;
      Appended(start, s.done, x);
    }
  }

  /** Under every interleaving, the word is what the completed calls, in the order in which
      they took effect, would have made of it under the lock, with the same results. */
  lemma {:induction false} Linearizes(start: nat, n: nat, events: seq<Event>)
    requires start <= MAX
    ensures Linear(start, Run(start, n, events))
  {
    if events != [] {
      Linearizes(start, n, events[..|events| - 1]);
      StepLinear(start, Run(start, n, events[..|events| - 1]), events[|events| - 1]);
    } else {
      assert Ops([]) == [];
    }
  }

  lemma {:induction false} ExplainedAt(start: nat, done: seq<Effect>, k: nat)
    requires Explained(start, done) && k < |done|
    ensures done[k].outcome == Locked(LockedRun(start, Ops(done[..k])), done[k].op).1
    decreases |done|
  {
    if k < |done| - 1 {
      ExplainedAt(start, done[..|done| - 1], k);
      assert done[..|done| - 1][..k] == done[..k];
    }
  }

  lemma OneMoreOp(start: nat, done: seq<Effect>, k: nat)
    requires k < |done|
    ensures LockedRun(start, Ops(done[..k + 1])) == Locked(LockedRun(start, Ops(done[..k])), done[k].op).0
  {
    assert done[..k + 1] == done[..k] + [done[k]];
    Appended(start, done[..k], done[k]);
  }

  /** What each call comes to under any interleaving, by the count `before` it in the order in
      which they took effect: an increment adds one, a decrement takes one away and returns 1
      exactly when that was the last, aborts exactly at zero; and neither touches the
      maximum. */
  lemma Outcomes(start: nat, n: nat, events: seq<Event>, k: nat)
    requires start <= 0xFFFF_FFFF && k < |Run(start, n, events).done|
    ensures var done := Run(start, n, events).done;
            var before, after := LockedRun(start, Ops(done[..k])), LockedRun(start, Ops(done[..k + 1]));
            var r := done[k].outcome;
            if before == 0xFFFF_FFFF then r == Plain && after == before
            else if done[k].op.Inc? then r == Plain && after == before + 1
            else if before == 0 then r == Abort && after == 0
            else after == before - 1 && r == if before == 1 then Zero else Plain
  {
    var done := Run(start, n, events).done;
    Linearizes(start, n, events);
    ExplainedAt(start, done, k);
    OneMoreOp(start, done, k);
    InRange(start, Ops(done[..k]));
  }

  lemma {:induction false} InRange(start: nat, ops: seq<Op>)
    requires start <= MAX
    ensures LockedRun(start, ops) <= MAX
    decreases |ops|
  {
    if ops != [] {
      InRange(start, ops[..|ops| - 1]);
    }
  }

  /** The maximum is never left. */
  lemma {:induction false} MaxAbsorbs(start: nat, n: nat, events: seq<Event>, k: nat)
    requires start <= MAX && k <= |events| && Run(start, n, events[..k]).count == MAX
    ensures Run(start, n, events).count == MAX
    decreases |events|
  {
    if k == |events| {
      assert events[..k] == events;
    } else {
      var before := events[..|events| - 1];
      assert before[..k] == events[..k];
      MaxAbsorbs(start, n, before, k);
      Linearizes(start, n, before);
    }
  }

  // ---------- ownership ----------

  function InFlight(threads: seq<Thread>, op: Op): nat {
    if threads == [] then 0
    else InFlight(threads[..|threads| - 1], op)
         + if threads[|threads| - 1].Trying? && threads[|threads| - 1].op == op then 1 else 0
  }

  lemma {:induction false} InFlightUpdate(threads: seq<Thread>, t: nat, x: Thread, op: Op)
    requires t < |threads|
    ensures InFlight(threads[t := x], op) + (if threads[t].Trying? && threads[t].op == op then 1 else 0)
         == InFlight(threads, op) + if x.Trying? && x.op == op then 1 else 0
    decreases |threads|
  {
    var n := |threads| - 1;
    if t < n {
      InFlightUpdate(threads[..n], t, x, op);
      assert threads[t := x][..n] == threads[..n][t := x];
    } else {
      assert threads[t := x][..n] == threads[..n];
    }
  }

  lemma {:induction false} NoneInFlight(n: nat, op: Op)
    ensures InFlight(seq(n, _ => Idle), op) == 0
  {
    if n > 0 {
      NoneInFlight(n - 1, op);
      assert seq(n, _ => Idle)[..n - 1] == seq(n - 1, _ => Idle);
    }
  }

  /** The references callers hold, from one at the start: an increment yields one when it
      returns, a decrement gives one up when it is called. */
  function Held(n: nat, events: seq<Event>): int {
    if events == [] then 1
    else
      var before, e := events[..|events| - 1], events[|events| - 1];
      var s, s' := Run(1, n, before), Run(1, n, events);
      Held(n, before)
      + (if |s'.done| > |s.done| && s'.done[|s.done|].op.Inc? then 1 else 0)
      - (if e.Call? && e.op.Dec? && e.thread < n && s.threads[e.thread].Idle? then 1 else 0)
  }

  /** Callers hold what they use: a call is made by a holder, and no reference is given up
      that an increment in flight relies on. */
  ghost predicate Disciplined(n: nat, events: seq<Event>) {
    events == []
    || (var before, e := events[..|events| - 1], events[|events| - 1];
        var s := Run(1, n, before);
        && Disciplined(n, before)
        && Run(1, n, events).count < MAX
        && (e.Call? && e.thread < n && s.threads[e.thread].Idle? ==>
              Held(n, before) >= 1 && (e.op.Dec? && InFlight(s.threads, Inc) > 0 ==> Held(n, before) >= 2)))
  }

  /** The count is the references held and those being given up. */
  ghost predicate Balanced(n: nat, events: seq<Event>) {
    var s := Run(1, n, events);
    && s.count == Held(n, events) + InFlight(s.threads, Dec)
    && Held(n, events) >= 0
    && (InFlight(s.threads, Inc) > 0 ==> Held(n, events) >= 1)
    && (forall t :: 0 <= t < n ==> !s.threads[t].Aborted?)
  }

  lemma StepBalanced(n: nat, events: seq<Event>)
    requires events != [] && Disciplined(n, events) && Balanced(n, events[..|events| - 1])
    ensures Balanced(n, events)
  {
    var before, e := events[..|events| - 1], events[|events| - 1];
    var s, s' := Run(1, n, before), Run(1, n, events);
    Linearizes(1, n, before);
    OneEffect(s, e);
    if e.thread < n {
      InFlightUpdate(s.threads, e.thread, s'.threads[e.thread], Inc);
      InFlightUpdate(s.threads, e.thread, s'.threads[e.thread], Dec);
      assert s'.threads == s.threads[e.thread := s'.threads[e.thread]];
    }
  }

  lemma {:induction false} RunBalanced(n: nat, events: seq<Event>)
    requires Disciplined(n, events)
    ensures Balanced(n, events)
    decreases |events|
  {
    if events == [] {
      NoneInFlight(n, Inc);
      NoneInFlight(n, Dec);
    } else {
      RunBalanced(n, events[..|events| - 1]);
      StepBalanced(n, events);
    }
  }

  ghost predicate HasZero(done: seq<Effect>) {
    exists i :: 0 <= i < |done| && done[i].outcome.Zero?
  }

  /** From one reference, with callers that hold what they use and no saturation: no call
      aborts; at most one decrement returns 1, it is the last call of all, and it has
      happened exactly when no reference is left and no call is under way. */
  lemma {:induction false} LastDecrement(n: nat, events: seq<Event>)
    requires Disciplined(n, events)
    ensures var s := Run(1, n, events);
            && (forall i :: 0 <= i < |s.done| ==> !s.done[i].outcome.Abort?)
            && (forall i :: 0 <= i < |s.done| && s.done[i].outcome.Zero? ==> i == |s.done| - 1)
            && (HasZero(s.done) <==> s.count == 0)
            && (s.count == 0 <==>
                  Held(n, events) == 0 && InFlight(s.threads, Inc) == 0 && InFlight(s.threads, Dec) == 0)
    decreases |events|
  {
    RunBalanced(n, events);
    if events != [] {
      var before, e := events[..|events| - 1], events[|events| - 1];
      var s, s' := Run(1, n, before), Run(1, n, events);
      LastDecrement(n, before);
      RunBalanced(n, before);
      Linearizes(1, n, before);
      OneEffect(s, e);
      EffectIsLocked(s, e);
      if s.count == 0 {
        Quiet(s.threads, e.thread);
      }
      if s'.done != s.done {
        assert s'.done == s.done + [s'.done[|s.done|]];
      }
    }
  }

  /** With nothing in flight no thread is trying. */
  lemma {:induction false} Quiet(threads: seq<Thread>, t: nat)
    requires InFlight(threads, Inc) == 0 && InFlight(threads, Dec) == 0
    ensures t < |threads| ==> !threads[t].Trying?
    decreases |threads|
  {
    if threads != [] && t < |threads| - 1 {
      Quiet(threads[..|threads| - 1], t);
    }
  }
}

/**
 The counting semaphore of src/lock.c: an atomic decrement that may go below zero and
 is then compensated, interleaved with other threads in any order.
 */
module Semaphores {
  import opened Digits

  /** A thread that found no permit still has to put its decrement back. */
  datatype Pc = Idle | Compensating

  datatype State = State(value: int, pc: seq<Pc>)

  datatype Action = TryDown(t: nat) | Compensate(t: nat) | Up(t: nat)

  predicate Enabled(s: State, a: Action) {
    a.t < |s.pc| && s.pc[a.t] == if a.Compensate? then Compensating else Idle
  }

  /** One atomic operation; the word is a 32-bit int. */
  function Step(s: State, a: Action): State
    requires Enabled(s, a)
  {
    match a
    case TryDown(t) =>
      if s.value > 0 then s.(value := Wrap(s.value - 1))
      else s.(value := Wrap(s.value - 1), pc := s.pc[t := Compensating])
    case Compensate(t) => s.(value := Wrap(s.value + 1), pc := s.pc[t := Idle])
    case Up(t) => s.(value := Wrap(s.value + 1))
  }

  function Pending(pc: seq<Pc>): (n: nat)
    ensures n <= |pc|
  {
    if pc == [] then 0 else Pending(pc[1..]) + if pc[0].Compensating? then 1 else 0
  }

  lemma {:induction false} PendingUpdate(pc: seq<Pc>, t: nat, c: Pc)
    requires t < |pc|
    ensures Pending(pc[t := c]) == Pending(pc) - (if pc[t].Compensating? then 1 else 0) + (if c.Compensating? then 1 else 0)
    ensures pc[t].Idle? ==> Pending(pc) < |pc|
  {
    if t > 0 {
      assert pc[t := c][1..] == pc[1..][t - 1 := c];
      PendingUpdate(pc[1..], t - 1, c);
    } else {
      assert pc[t := c][1..] == pc[1..];
    }
  }

  /** A call of semaphore_trydown that succeeds has nothing to put back. */
  predicate Succeeds(s: State, a: Action)
    requires Enabled(s, a)
  {
    a.TryDown? && Step(s, a).pc[a.t].Idle?
  }

  /** What an action adds to the free permits. */
  function Gain(s: State, a: Action): int
    requires Enabled(s, a)
  {
    if a.Up? then 1 else if Succeeds(s, a) then -1 else 0
  }

  /** The word is the free permits less the decrements still to be put back. */
  ghost predicate Inv(s: State, free: int) {
    s.value == free - Pending(s.pc) && free >= 0
  }

  lemma StepKeepsInv(s: State, a: Action, free: int)
    requires Inv(s, free) && Enabled(s, a)
    requires |s.pc| <= 0x8000_0000 && free + Gain(s, a) < 0x8000_0000
    ensures Inv(Step(s, a), free + Gain(s, a)) && |Step(s, a).pc| == |s.pc|
    ensures a.TryDown? ==> (Succeeds(s, a) <==> free > Pending(s.pc))
  {
    PendingUpdate(s.pc, a.t, Idle);
    PendingUpdate(s.pc, a.t, Compensating);
  }

  ghost predicate Run(states: seq<State>, actions: seq<Action>) {
    && |states| == |actions| + 1
    && forall k :: 0 <= k < |actions| ==> Enabled(states[k], actions[k]) && states[k + 1] == Step(states[k], actions[k])
  }

  /** The calls of semaphore_up in a run, and the successful calls of semaphore_trydown. */
  ghost function Ups(actions: seq<Action>): nat {
    if actions == [] then 0 else Ups(actions[..|actions| - 1]) + if actions[|actions| - 1].Up? then 1 else 0
  }

  ghost function Taken(states: seq<State>, actions: seq<Action>): nat
    requires Run(states, actions)
  {
    if actions == [] then 0
    else
      var k := |actions| - 1;
      Taken(states[..k + 1], actions[..k]) + if Succeeds(states[k], actions[k]) then 1 else 0
  }

  /**
   In every interleaving: the word plus the pending compensations is the initial
   value plus the calls of semaphore_up minus the successful calls of
   semaphore_trydown, no more permits are taken than exist, and the word never falls
   below minus the number of threads.
   */
  lemma {:induction false} EveryRunConservesPermits(states: seq<State>, actions: seq<Action>, initial: nat)
    requires Run(states, actions) && |states[0].pc| <= 0x8000_0000
    requires states[0].value == initial && Pending(states[0].pc) == 0
    requires initial + Ups(actions) < 0x8000_0000
    ensures var s := states[|actions|];
      && s.value + Pending(s.pc) == initial + Ups(actions) - Taken(states, actions)
      && Taken(states, actions) <= initial + Ups(actions)
      && -|s.pc| <= s.value
      && |s.pc| == |states[0].pc|
    decreases |actions|
  {
    if actions != [] {
      var k := |actions| - 1;
      assert states[k + 1] == Step(states[k], actions[k]);
      hide Wrap, Step, Enabled, Pending;
      EveryRunConservesPermits(states[..k + 1], actions[..k], initial);
      StepKeepsInv(states[k], actions[k], initial + Ups(actions[..k]) - Taken(states[..k + 1], actions[..k]));
    }
  }

  /** A call may fail although a permit is free: between another call's decrement and its compensation. */
  lemma FreePermitMayBeMissed()
    ensures exists states: seq<State>, actions: seq<Action> ::
      && Run(states, actions) && |actions| == 3 && actions[2].TryDown?
      && states[0] == State(0, [Idle, Idle])
      && Ups(actions) == 1 && Taken(states, actions) == 0
  {
    var actions := [TryDown(0), Up(1), TryDown(1)];
    var states := [
      State(0, [Idle, Idle]), State(-1, [Compensating, Idle]),
      State(0, [Compensating, Idle]), State(-1, [Compensating, Compensating])];
    var first, second := actions[..1], actions[..2];
    assert second[..1] == first && states[..3][..2] == states[..2] && first[..0] == [];
    assert Run(states, actions);
    assert Ups(first) == 0;
    assert Ups(second) == 1;
    assert Taken(states[..2], first) == 0;
    assert Taken(states[..3], second) == 0;
    assert |actions| == 3 && actions[2].TryDown?;
  }
}

/** The spin lock of src/lock.c: an atomic exchange, released only by its holder. */
module Mutexes {
  datatype State = State(word: int, holders: set<nat>)

  datatype Action = TryLock(t: nat) | Unlock(t: nat)

  const LOCKED: int := 1

  predicate Enabled(s: State, a: Action) {
    a.Unlock? ==> a.t in s.holders
  }

  function Step(s: State, a: Action): State {
    match a
    case TryLock(t) => State(LOCKED, if s.word != LOCKED then s.holders + {t} else s.holders)
    case Unlock(t) => State(0, s.holders - {t})
  }

  ghost predicate Inv(s: State) {
    (s.word == LOCKED ==> exists t :: s.holders == {t}) && (s.word != LOCKED ==> s.holders == {})
  }

  /** At most one thread holds the lock, trying succeeds exactly when nobody does, and after an unlock nobody does, so
      that whoever tries next succeeds. */
  lemma StepKeepsOneHolder(s: State, a: Action)
    requires Inv(s) && Enabled(s, a)
    ensures Inv(Step(s, a))
    ensures a.TryLock? ==> (s.holders == {} <==> Step(s, a).holders == {a.t} && s.holders != {a.t})
    ensures a.Unlock? ==> Step(s, a).holders == {} && forall t: nat :: Step(Step(s, a), TryLock(t)).holders == {t}
    ensures forall t, u :: t in s.holders && u in s.holders ==> t == u
  {
    if s.word == LOCKED {
      var t :| s.holders == {t};
      assert t in s.holders;
    }
    if a.TryLock? && s.word != LOCKED {
      assert Step(s, a).holders == {a.t};
    }
    if a.Unlock? {
      assert Step(s, a).holders == {};
    }
  }
}

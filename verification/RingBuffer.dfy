/**
 The ring buffer of src/ringbuff.c: a queue in an array, with three answers to a
 push that finds it full.
 */
module RingBuffer {
  import opened Arithmetic

  datatype Behavior = Overwrite | Discard | Error

  // ---------- the queue that the ring stands for ----------

  /** The contents after a push, for a queue of at most `capacity` values. */
  ghost function Pushed(q: seq<int>, capacity: nat, behavior: Behavior, x: int): seq<int>
    requires 0 < capacity
  {
    if |q| < capacity then q + [x]
    else if behavior.Overwrite? then q[1..] + [x]
    else q
  }

  /** The slot of the i-th value, counted from the oldest. */
  function Slot(at: nat, i: nat, capacity: nat): int {
    if at + i < capacity then at + i else at + i - capacity
  }

  /** The code computes it as a remainder. */
  lemma SlotByRemainder(at: nat, i: nat, capacity: nat)
    requires at < capacity && i <= capacity
    ensures (at + i) % capacity == Slot(at, i, capacity)
  {
    if at + i < capacity {
      ModIs(at + i, capacity, 0, at + i);
    } else {
      ModIs(at + i, capacity, 1, at + i - capacity);
    }
  }

  ghost function View(buffer: seq<int>, at: nat, len: nat, capacity: nat): seq<int>
    requires 0 < capacity <= |buffer| && at < capacity && len <= capacity
  {
    seq(len, i requires 0 <= i < len => buffer[Slot(at, i, capacity)])
  }

  class Ring {
    var at: nat
    var numElements: nat
    const capacity: nat
    const behavior: Behavior
    const buffer: array<int>

    /** uint32_t indices never wrap: their sum stays below twice the capacity. */
    ghost predicate Valid()
      reads this
    {
      0 < capacity <= buffer.Length && capacity <= 0x8000_0000 && at < capacity && numElements <= capacity
    }

    ghost function Contents(): seq<int>
      reads this, buffer
      requires Valid()
    {
      View(buffer[..], at, numElements, capacity)
    }

    /** ring_init, for a buffer that holds at least `capacity` values */
    constructor (capacity: nat, behavior: Behavior, buffer: array<int>)
      requires 0 < capacity <= buffer.Length && capacity <= 0x8000_0000
      ensures Valid() && Contents() == [] && this.buffer == buffer
      ensures this.capacity == capacity && this.behavior == behavior
    {
      this.capacity := capacity;
      this.behavior := behavior;
      this.buffer := buffer;
      at := 0;
      numElements := 0;
    }

    /** ring_push */
    method Push(x: int) returns (ok: bool)
      requires Valid()
      modifies this`at, this`numElements, buffer
      ensures Valid() && Contents() == Pushed(old(Contents()), capacity, behavior, x)
      ensures ok <==> |old(Contents())| < capacity || !behavior.Error?
    {
      ghost var before := Contents();
      if numElements >= capacity {
        if behavior == Discard {
          return true;
        } else if behavior == Error {
          return false;
        } else {
          DropOldest();
        }
      }
      Append(x);
      ok := true;
    }

    /** Forget the oldest value: the start moves on, the array does not change. */
    method DropOldest()
      requires Valid() && numElements > 0
      modifies this`at, this`numElements
      ensures Valid() && Contents() == old(Contents())[1..]
    {
      SlotByRemainder(at, 1, capacity);
      numElements := numElements - 1;
      at := (at + 1) % capacity;
    }

    method Append(x: int)
      requires Valid() && numElements < capacity
      modifies this`numElements, buffer
      ensures Valid() && Contents() == old(Contents()) + [x]
    {
      SlotByRemainder(at, numElements, capacity);
      var b := (at + numElements) % capacity;
      buffer[b] := x;
      numElements := numElements + 1;
    }

    /** ring_pop */
    method Pop() returns (ok: bool, x: int)
      requires Valid()
      modifies this`at, this`numElements
      ensures Valid() && (ok <==> old(Contents()) != [])
      ensures ok ==> old(Contents()) == [x] + Contents()
      ensures !ok ==> Contents() == old(Contents())
    {
      if numElements == 0 {
        return false, 0;
      }
      x := buffer[at];
      DropOldest();
      ok := true;
    }
  }

  // ---------- runs ----------

  datatype Op = Push(x: int) | Pop

  /** `out` lists what left the front, each with whether a pop took it; `offered` what pushes were called with, and
      `accepted` for each of them whether its value went in. */
  datatype Log = Log(held: seq<int>, out: seq<(int, bool)>, offered: seq<int>, accepted: seq<bool>)

  ghost function Step(s: Log, op: Op, capacity: nat, behavior: Behavior): Log
    requires 0 < capacity
  {
    match op
    case Pop => if s.held == [] then s else s.(held := s.held[1..], out := s.out + [(s.held[0], true)])
    case Push(x) =>
      var full := |s.held| >= capacity;
      s.(held := Pushed(s.held, capacity, behavior, x),
        out := if full && behavior.Overwrite? then s.out + [(s.held[0], false)] else s.out,
        offered := s.offered + [x], accepted := s.accepted + [!full || behavior.Overwrite?])
  }

  ghost function RunOf(ops: seq<Op>, capacity: nat, behavior: Behavior): Log
    requires 0 < capacity
  {
    if ops == [] then Log([], [], [], [])
    else Step(RunOf(ops[..|ops| - 1], capacity, behavior), ops[|ops| - 1], capacity, behavior)
  }

  ghost function Values(out: seq<(int, bool)>): seq<int> {
    seq(|out|, i requires 0 <= i < |out| => out[i].0)
  }

  /** The values whose flag is set, in order. */
  ghost function Selected(xs: seq<int>, flags: seq<bool>): seq<int>
    requires |xs| == |flags|
  {
    if xs == [] then []
    else Selected(xs[..|xs| - 1], flags[..|xs| - 1]) + if flags[|xs| - 1] then [xs[|xs| - 1]] else []
  }

  /** Over every run, what left the front followed by what is held is exactly the accepted part of what the pushes
      offered, in order. Under overwrite every push is accepted, and what was not popped was overwritten; under
      discard and error everything that left was popped. */
  lemma {:induction false} RunIsFifo(ops: seq<Op>, capacity: nat, behavior: Behavior)
    requires 0 < capacity
    ensures var s := RunOf(ops, capacity, behavior);
      && |s.held| <= capacity && |s.accepted| == |s.offered|
      && Values(s.out) + s.held == Selected(s.offered, s.accepted)
      && (behavior.Overwrite? ==> Values(s.out) + s.held == s.offered)
      && (!behavior.Overwrite? ==> forall i :: 0 <= i < |s.out| ==> s.out[i].1)
  {
    if ops != [] {
      var n := |ops| - 1;
      RunIsFifo(ops[..n], capacity, behavior);
      var s := RunOf(ops[..n], capacity, behavior);
      StepIsFifo(s, ops[n], capacity, behavior);
    }
  }

  lemma StepIsFifo(s: Log, op: Op, capacity: nat, behavior: Behavior)
    requires 0 < capacity && |s.accepted| == |s.offered|
    ensures var r := Step(s, op, capacity, behavior);
      && |r.accepted| == |r.offered|
      && (op.Pop? ==> Values(r.out) + r.held == Values(s.out) + s.held && r.offered == s.offered && r.accepted == s.accepted)
      && (op.Push? ==>
          && r.offered == s.offered + [op.x]
          && Values(r.out) + r.held == Values(s.out) + s.held + (if r.accepted[|s.offered|] then [op.x] else [])
          && Selected(r.offered, r.accepted) == Selected(s.offered, s.accepted) + if r.accepted[|s.offered|] then [op.x] else [])
  {
    var r := Step(s, op, capacity, behavior);
    if |r.out| > |s.out| {
      assert Values(r.out) == Values(s.out) + [s.held[0]];
      assert s.held == [s.held[0]] + s.held[1..];
    }
    if op.Push? {
      assert r.offered[..|s.offered|] == s.offered && r.accepted[..|s.offered|] == s.accepted;
    }
  }

  /** In every run, the push at position i is refused exactly when the queue is full at that time and the policy does
      not overwrite; later operations do not change that. */
  lemma {:induction false} RefusedIffFull(ops: seq<Op>, capacity: nat, behavior: Behavior, i: nat)
    requires 0 < capacity && i < |ops| && ops[i].Push?
    ensures var s, r := RunOf(ops[..i], capacity, behavior), RunOf(ops, capacity, behavior);
      && |s.offered| < |r.offered| == |r.accepted| && r.offered[|s.offered|] == ops[i].x
      && (!r.accepted[|s.offered|] <==> |s.held| == capacity && !behavior.Overwrite?)
    decreases |ops|
  {
    hide RunOf, Step, Selected, Values, Pushed;
    var n := |ops| - 1;
    var before, r := RunOf(ops[..n], capacity, behavior), RunOf(ops, capacity, behavior);
    RunIsFifo(ops[..n], capacity, behavior);
    RunStep(ops, capacity, behavior);
    if i < n {
      assert ops[..n][..i] == ops[..i];
      RefusedIffFull(ops[..n], capacity, behavior, i);
    }
  }

  /** What one more operation adds to the log. */
  lemma RunStep(ops: seq<Op>, capacity: nat, behavior: Behavior)
    requires 0 < capacity && ops != []
    ensures var op := ops[|ops| - 1];
      var s, r := RunOf(ops[..|ops| - 1], capacity, behavior), RunOf(ops, capacity, behavior);
      && (op.Pop? ==> r.offered == s.offered && r.accepted == s.accepted)
      && (op.Push? ==> r.offered == s.offered + [op.x] && r.accepted == s.accepted + [|s.held| < capacity || behavior.Overwrite?])
  {
  }

  /** The values that pops took. */
  ghost function Popped(out: seq<(int, bool)>): seq<int> {
    if out == [] then [] else Popped(out[..|out| - 1]) + if out[|out| - 1].1 then [out[|out| - 1].0] else []
  }

  lemma OneMoreOut(out: seq<(int, bool)>, x: int, popped: bool)
    ensures Popped(out + [(x, popped)]) == Popped(out) + if popped then [x] else []
  {
    assert (out + [(x, popped)])[..|out|] == out;
  }

  /** The ring buffer follows the log: it holds what the log holds, its pops return what the log says was popped, and
      under the policy that reports errors its answers are the log's. */
  method Execute(ring: Ring, ops: seq<Op>) returns (taken: seq<int>, answers: seq<bool>)
    requires ring.Valid() && ring.Contents() == []
    modifies ring`at, ring`numElements, ring.buffer
    ensures ring.Valid()
    ensures var r := RunOf(ops, ring.capacity, ring.behavior);
      && ring.Contents() == r.held && taken == Popped(r.out)
      && (ring.behavior.Error? ==> answers == r.accepted)
  {
    hide View, Pushed, RunOf, Popped;
    taken, answers := [], [];
    var i := 0;
    StartOfRun(ring.capacity, ring.behavior);
    while i < |ops|
      invariant i <= |ops| && ring.Valid()
      invariant var r := RunOf(ops[..i], ring.capacity, ring.behavior);
        && ring.Contents() == r.held && taken == Popped(r.out)
        && (ring.behavior.Error? ==> answers == r.accepted)
    {
      ghost var s := RunOf(ops[..i], ring.capacity, ring.behavior);
      NextOfRun(ops, i, ring.capacity, ring.behavior);
      if s.held != [] {
        OneMoreOut(s.out, s.held[0], true);
        OneMoreOut(s.out, s.held[0], false);
      }
      match ops[i] {
        case Push(x) =>
          var ok := ring.Push(x);
          answers := answers + [ok];
        case Pop =>
          var ok, x := ring.Pop();
          if ok {
            taken := taken + [x];
          }
      }
      i := i + 1;
    }
    assert ops[..i] == ops;
  }

  lemma StartOfRun(capacity: nat, behavior: Behavior)
    requires 0 < capacity
    ensures RunOf([], capacity, behavior) == Log([], [], [], []) && Popped([]) == []
  {
  }

  lemma NextOfRun(ops: seq<Op>, i: nat, capacity: nat, behavior: Behavior)
    requires 0 < capacity && i < |ops|
    ensures RunOf(ops[..i + 1], capacity, behavior) == Step(RunOf(ops[..i], capacity, behavior), ops[i], capacity, behavior)
  {
    assert ops[..i + 1][..i] == ops[..i];
  }
}

/**
 The driver's side of the virtio input queue as it is programmed: the set-up loop of
 src/virtio_inp.c:72-84 and the drain loop of src/pci.c:85-92, with a device that takes
 its own steps while the loop runs.
 */
module VirtioInput {
  import opened Words
  import opened Virtio
  import RingBuffer

  /** struct virtq_desc */
  datatype Desc = Desc(addr: u64, len: nat, flags: nat, next: nat)

  const EVENT_BYTES: nat := 8
  const VIRTQ_DESC_F_WRITE: nat := 2

  /** What a sequence of pushes leaves in a ring buffer. */
  ghost function PushAll(q: seq<int>, xs: seq<int>, capacity: nat, behavior: RingBuffer.Behavior): seq<int>
    requires 0 < capacity
  {
    if xs == [] then q
    else RingBuffer.Pushed(PushAll(q, xs[..|xs| - 1], capacity, behavior), capacity, behavior, xs[|xs| - 1])
  }

  /** The device may write an event of 8 bytes through it (VIRTIO 1.1, section 2.6.5: bit 1 of the flags). */
  predicate Writable(d: Desc) {
    d.len >= 8 && d.flags / 2 % 2 == 1
  }

  /** The actions of the protocol that are the device's. */
  predicate IsDevices(a: Action) {
    a.Take? || a.Write? || a.List? || a.Publish?
  }

  /** Turns of the device: in each it tries some of its actions. */
  predicate Turns(turns: seq<seq<Action>>) {
    forall i, j :: 0 <= i < |turns| && 0 <= j < |turns[i]| ==> IsDevices(turns[i][j])
  }

  /** What is left after n of them. */
  function After(turns: seq<seq<Action>>, n: nat): seq<seq<Action>> {
    if n <= |turns| then turns[n..] else []
  }

  lemma AfterMore(turns: seq<seq<Action>>, n: nat, m: nat)
    ensures After(After(turns, n), m) == After(turns, n + m)
  {
  }

  lemma AfterNone()
    ensures forall n: nat :: After([], n) == []
  {
  }

  // ---------- runs of the protocol ----------

  /** Some run leads from w to r. */
  ghost predicate Leads(w: State, r: State) {
    exists run :: RunTo(run, w, r)
  }

  lemma LeadsNowhere(w: State)
    ensures Leads(w, w)
  {
    assert RunTo([], w, w);
  }

  lemma LeadsOn(w: State, m: State, a: Action)
    requires Leads(w, m) && Virtio.Inv(m) && Enabled(m, a)
    ensures Leads(w, Do(m, a)) && Virtio.Inv(Do(m, a)) && m.completed <= Do(m, a).completed
  {
    var run :| RunTo(run, w, m);
    StepKeepsInv(m, a);
    RunOn(run, w, m, a);
  }

  lemma {:induction false} RunOn(run: seq<Action>, w: State, m: State, a: Action)
    requires RunTo(run, w, m) && Fits(m) && Enabled(m, a)
    ensures RunTo(run + [a], w, Do(m, a))
  {
    hide Fits, Enabled, Do;
    if run == [] {
      assert RunTo([], Do(m, a), Do(m, a));
      assert ([] + [a])[1..] == [];
    } else {
      RunOn(run[1..], Do(w, run[0]), m, a);
      assert (run + [a])[1..] == run[1..] + [a];
    }
  }

  /** What becomes of a state when the device tries these actions, one after the other. */
  function Acted(w: State, actions: seq<Action>): State {
    if actions == [] then w
    else
      var before, a := Acted(w, actions[..|actions| - 1]), actions[|actions| - 1];
      if Fits(before) && Enabled(before, a) then Do(before, a) else before
  }

  lemma ActedOnce(w: State, actions: seq<Action>, i: nat)
    requires i < |actions|
    ensures var before := Acted(w, actions[..i]);
      Acted(w, actions[..i + 1]) == if Fits(before) && Enabled(before, actions[i]) then Do(before, actions[i]) else before
  {
    assert actions[..i + 1][..i] == actions[..i];
  }

  /** What the device leaves as it is. */
  ghost predicate DriversPart(w: State, r: State) {
    && r.driver == w.driver && r.drained == w.drained && r.devidx == w.devidx
    && w.completed <= r.completed
  }

  class InputDevice {
    const q: nat
    const desc: array<Desc>
    const avail: array<nat>
    const used: array<nat>
    var availIdx: nat
    var usedIdx: nat
    var drvidx: nat
    var devidx: nat
    /** The event buffers, by physical address. */
    var memory: map<u64, int>

    ghost predicate Valid()
      reads this
    {
      && QueueSize(q) && desc.Length == avail.Length == used.Length == q && avail != used
      && availIdx < WRAP && usedIdx < WRAP && drvidx < WRAP && devidx < WRAP
    }

    /** Cleared rings, as cpage_znalloc hands them out. */
    constructor (q: nat, memory: map<u64, int>)
      requires QueueSize(q)
      ensures Valid() && this.q == q && availIdx == 0 && usedIdx == 0 && drvidx == 0 && devidx == 0
      ensures fresh(desc) && fresh(avail) && fresh(used) && this.memory == memory
      ensures forall i :: 0 <= i < q ==> used[i] == 0 && avail[i] == 0 && desc[i] == Desc(0, 0, 0, 0)
    {
      this.q := q;
      this.memory := memory;
      desc := new Desc[q](_ => Desc(0, 0, 0, 0));
      avail := new nat[q](_ => 0);
      used := new nat[q](_ => 0);
      availIdx, usedIdx, drvidx, devidx := 0, 0, 0, 0;
    }

    /** Rings, indices and event buffers are those of a state of the protocol. */
    ghost predicate Agrees(w: State)
      reads this, desc, avail, used
    {
      && Valid() && Virtio.Inv(w) && w.q == q
      && w.avail == avail[..] && w.availIdx == availIdx
      && w.used == used[..] && w.usedIdx == usedIdx && w.devidx == devidx
      && (forall i :: 0 <= i < q ==> desc[i].addr in memory && memory[desc[i].addr] == w.buffer[i])
      && (forall i, j :: 0 <= i < j < q ==> desc[i].addr != desc[j].addr)
      && (forall i :: 0 <= i < q ==> Writable(desc[i]))
    }

    /** The protocol state that driver and device start from, with the given contents of the event buffers. */
    ghost function Snapshot(buffer: seq<int>): State
      reads this, avail, used
    {
      State(q, avail[..], availIdx, used[..], usedIdx, buffer, 0, false, devidx, Idle, q, 0, 0, 0, [], [])
    }

    /** virtio_input_init: one write-only descriptor for each event buffer, all of them on offer. */
    method Init(phys: seq<u64>)
      requires Valid() && |phys| == q
      requires availIdx == 0 && usedIdx == 0 && drvidx == 0 && devidx == 0
      requires forall i :: 0 <= i < q ==> used[i] < q
      modifies this`availIdx, this`drvidx, desc, avail
      ensures Valid()
      ensures forall i :: 0 <= i < q ==> desc[i] == Desc(phys[i], 8, 2, 0)
      ensures forall buffer :: |buffer| == q ==> Initial(Snapshot(buffer))
      ensures (forall i, j :: 0 <= i < j < q ==> phys[i] != phys[j]) ==>
        forall buffer :: |buffer| == q && (forall i :: 0 <= i < q ==> phys[i] in memory && memory[phys[i]] == buffer[i]) ==>
          Agrees(Snapshot(buffer))
    {
      hide Slot, QueueSize;
      SmallQueue(q);
      var i := 0;
      while i < q
        invariant 0 <= i <= q && drvidx == i
        invariant Valid() && availIdx == 0 && usedIdx == 0 && devidx == 0
        invariant forall j :: 0 <= j < i ==> desc[j] == Desc(phys[j], EVENT_BYTES, VIRTQ_DESC_F_WRITE, 0)
        invariant forall j :: 0 <= j < i ==> avail[j] == j
      {
        SmallSlot(q, i);
        desc[i] := Desc(phys[i], EVENT_BYTES, VIRTQ_DESC_F_WRITE, 0);
        avail[Slot(q, drvidx)] := i;
        drvidx := Next(drvidx);
        i := i + 1;
      }
      availIdx := (availIdx + q) % WRAP;
      forall buffer | |buffer| == q ensures Initial(Snapshot(buffer)) && Virtio.Inv(Snapshot(buffer)) {
        InitialHolds(Snapshot(buffer));
      }
    }

    lemma SmallQueue(q: nat)
      requires QueueSize(q)
      ensures 0 < q <= 0x8000
    {
    }

    lemma SmallSlot(q: nat, i: nat)
      requires i < q
      ensures Slot(q, i) == i
    {
    }

    // ---------- the device ----------

    /** One action of the device on the memory that it shares with the driver, if the protocol lets it. */
    method DeviceActs(w: State, a: Action) returns (r: State)
      requires Agrees(w) && IsDevices(a)
      modifies this`usedIdx, this`memory, used
      ensures Agrees(r) && r == if Enabled(w, a) then Do(w, a) else w
    {
      hide Virtio.Inv, Slot, Next, QueueSize;
      r := w;
      ShapeOf(w);
      if Enabled(w, a) {
        StepKeepsInv(w, a);
        r := Do(w, a);
        ShapeOf(r);
        match a
        case Write(k, event) =>
          var d := desc[avail[Slot(q, k)]];
          if Writable(d) {
            memory := memory[d.addr := event];
          }
        case List => used[Slot(q, usedIdx)] := avail[Slot(q, w.done)];
        case Publish => usedIdx := Next(usedIdx);
        case _ =>
      }
    }

    /** The next of the device's turns, if there is one left. */
    method DeviceTurn(w: State, turns: seq<seq<Action>>, ghost start: State) returns (r: State, rest: seq<seq<Action>>)
      requires Agrees(w) && Turns(turns) && Leads(start, w)
      modifies this`usedIdx, this`memory, used
      ensures Agrees(r) && Leads(start, r) && DriversPart(w, r)
      ensures Turns(rest) && rest == After(turns, 1) && r == if turns == [] then w else Acted(w, turns[0])
    {
      hide Virtio.Inv, Slot, Next, Enabled, Do, Leads, DriversPart, Fits;
      r, rest := w, turns;
      StillThere(w);
      if turns != [] {
        rest := turns[1..];
        var i := 0;
        while i < |turns[0]|
          invariant 0 <= i <= |turns[0]|
          invariant Agrees(r) && Leads(start, r) && DriversPart(w, r) && r == Acted(w, turns[0][..i])
        {
          ShapeOf(r);
          ActedOnce(w, turns[0], i);
          DeviceGoesOn(start, w, r, turns[0][i]);
          r := DeviceActs(r, turns[0][i]);
          i := i + 1;
        }
        assert turns[0][..i] == turns[0];
      }
    }

    lemma StillThere(w: State)
      ensures DriversPart(w, w)
    {
    }

    lemma DeviceGoesOn(start: State, w: State, m: State, a: Action)
      requires Virtio.Inv(m) && Leads(start, m) && DriversPart(w, m) && IsDevices(a)
      ensures Enabled(m, a) ==> Leads(start, Do(m, a)) && DriversPart(w, Do(m, a))
    {
      if Enabled(m, a) { LeadsOn(start, m, a); }
    }

    // ---------- the driver ----------

    /** src/pci.c:86-87: the descriptor that the used ring names next. */
    method ReadTheId(w: State, ghost start: State) returns (r: State, id: nat)
      requires Agrees(w) && w.driver.Idle? && devidx != usedIdx && Leads(start, w)
      ensures Agrees(r) && Enabled(w, ReadId) && r == Do(w, ReadId) && r.driver == HasId(id) && id < q
      ensures Leads(start, r) && r.drained == w.drained && r.completed == w.completed
    {
      hide Virtio.Inv, Slot, Next, QueueSize, Leads;
      ShapeOf(w);
      LeadsOn(start, w, ReadId);
      id := used[Slot(q, devidx)];
      r := Do(w, ReadId);
      StepKeepsInv(w, ReadId);
    }

    /** The event in the buffer of that descriptor: the first one completed and not drained. */
    method ReadTheEvent(w: State, id: nat, ghost start: State) returns (r: State, event: int)
      requires Agrees(w) && w.driver.HasId? && id == w.driver.id && Leads(start, w)
      ensures Agrees(r) && Enabled(w, ReadEvent) && r == Do(w, ReadEvent)
      ensures r.driver == HasEvent(event) && w.drained < |w.completed| && event == w.completed[w.drained]
      ensures Leads(start, r) && r.drained == w.drained && r.completed == w.completed
    {
      hide Virtio.Inv, Slot, Next, QueueSize, Leads;
      ShapeOf(w);
      LeadsOn(start, w, ReadEvent);
      event := memory[desc[id].addr];
      r := Do(w, ReadEvent);
      StepKeepsInv(w, ReadEvent);
      EventIsCompleted(r);
    }

    /** src/pci.c:89 */
    method HandOn(ring: RingBuffer.Ring, w: State, event: int, ghost start: State) returns (r: State)
      requires Agrees(w) && w.driver == HasEvent(event) && Leads(start, w)
      requires ring.Valid() && ring.buffer as object !in {used, avail}
      modifies ring`at, ring`numElements, ring.buffer
      ensures Agrees(r) && Enabled(w, Push) && r == Do(w, Push) && ring.Valid()
      ensures Leads(start, r) && r.driver.HasPushed? && r.drained == w.drained && r.completed == w.completed
      ensures ring.Contents() == RingBuffer.Pushed(old(ring.Contents()), ring.capacity, ring.behavior, event)
    {
      hide Virtio.Inv, Slot, QueueSize, Leads, RingBuffer.Pushed, RingBuffer.View;
      ShapeOf(w);
      LeadsOn(start, w, Push);
      StepKeepsInv(w, Push);
      var ok := ring.Push(event);
      r := Do(w, Push);
    }

    /** src/pci.c:90 */
    method OfferAgain(w: State, ghost start: State) returns (r: State)
      requires Agrees(w) && w.driver.HasPushed? && Leads(start, w)
      modifies this`availIdx
      ensures Agrees(r) && Enabled(w, Offer) && r == Do(w, Offer)
      ensures Leads(start, r) && r.driver.HasOffered? && r.drained == w.drained && r.completed == w.completed
    {
      hide Virtio.Inv, Slot, QueueSize, Leads;
      ShapeOf(w);
      LeadsOn(start, w, Offer);
      StepKeepsInv(w, Offer);
      availIdx := Next(availIdx);
      r := Do(w, Offer);
    }

    /** src/pci.c:91 */
    method GoOn(w: State, ghost start: State) returns (r: State)
      requires Agrees(w) && w.driver.HasOffered? && Leads(start, w)
      modifies this`devidx
      ensures Agrees(r) && Enabled(w, Advance) && r == Do(w, Advance)
      ensures Leads(start, r) && r.driver.Idle? && r.drained == w.drained + 1 && r.completed == w.completed
    {
      hide Virtio.Inv, Slot, QueueSize, Leads;
      ShapeOf(w);
      LeadsOn(start, w, Advance);
      StepKeepsInv(w, Advance);
      devidx := Next(devidx);
      r := Do(w, Advance);
    }

    /** The reads of an iteration of the drain loop. The device takes a turn behind each. */
    method TakeEvent(w: State, turns: seq<seq<Action>>, ghost start: State)
        returns (r: State, event: int, rest: seq<seq<Action>>)
      requires Agrees(w) && w.driver.Idle? && devidx != usedIdx && Turns(turns) && Leads(start, w)
      modifies this`usedIdx, this`memory, used
      ensures Agrees(r) && Leads(start, r) && r.driver == HasEvent(event) && r.drained == w.drained
      ensures w.completed <= r.completed && w.drained < |r.completed| && event == r.completed[w.drained]
      ensures Turns(rest) && rest == After(turns, 2) && (turns == [] ==> r.completed == w.completed)
    {
      hide Virtio.Inv, Slot, Next, QueueSize, Leads, Turns, Fits, Acted, Do, Enabled, After;
      AfterMore(turns, 1, 1);
      AfterNone();
      var id;
      r, id := ReadTheId(w, start);
      r, rest := DeviceTurn(r, turns, start);
      r, event := ReadTheEvent(r, id, start);
      r, rest := DeviceTurn(r, rest, start);
    }

    /** The writes of an iteration of the drain loop. The device takes a turn behind each. */
    method GiveEvent(ring: RingBuffer.Ring, w: State, event: int, turns: seq<seq<Action>>, ghost start: State)
        returns (r: State, rest: seq<seq<Action>>)
      requires Agrees(w) && w.driver == HasEvent(event) && Turns(turns) && Leads(start, w)
      requires ring.Valid() && ring.buffer as object !in {used, avail}
      modifies this`availIdx, this`devidx, this`usedIdx, this`memory, used, ring`at, ring`numElements, ring.buffer
      ensures Agrees(r) && Leads(start, r) && r.driver.Idle? && ring.Valid()
      ensures r.drained == w.drained + 1 && w.completed <= r.completed
      ensures ring.Contents() == RingBuffer.Pushed(old(ring.Contents()), ring.capacity, ring.behavior, event)
      ensures Turns(rest) && rest == After(turns, 3) && (turns == [] ==> r.completed == w.completed)
    {
      hide Virtio.Inv, Slot, Next, QueueSize, Leads, Turns, Fits, Acted, Do, Enabled, After, RingBuffer.Pushed,
        RingBuffer.View, Agrees;
      AfterMore(turns, 1, 1);
      AfterMore(turns, 2, 1);
      AfterNone();
      r := HandOn(ring, w, event, start);
      r, rest := DeviceTurn(r, turns, start);
      r := OfferAgain(r, start);
      r, rest := DeviceTurn(r, rest, start);
      r := GoOn(r, start);
      r, rest := DeviceTurn(r, rest, start);
    }

    /** One iteration of the drain loop. */
    method DrainOne(ring: RingBuffer.Ring, w: State, turns: seq<seq<Action>>, ghost start: State)
        returns (r: State, rest: seq<seq<Action>>)
      requires Agrees(w) && w.driver.Idle? && devidx != usedIdx && Turns(turns) && Leads(start, w)
      requires ring.Valid() && ring.buffer as object !in {used, avail}
      modifies this`availIdx, this`devidx, this`usedIdx, this`memory, used, ring`at, ring`numElements, ring.buffer
      ensures Agrees(r) && Leads(start, r) && r.driver.Idle? && ring.Valid()
      ensures r.drained == w.drained + 1 <= |r.completed| && w.completed <= r.completed
      ensures ring.Contents() == RingBuffer.Pushed(old(ring.Contents()), ring.capacity, ring.behavior, r.completed[w.drained])
      ensures Turns(rest) && rest == After(turns, 5) && (turns == [] ==> r.completed == w.completed)
    {
      hide Virtio.Inv, Slot, Next, QueueSize, Leads, Turns, Fits, Do, Enabled, After, RingBuffer.Pushed, RingBuffer.View;
      AfterMore(turns, 2, 3);
      AfterNone();
      var event;
      r, event, rest := TakeEvent(w, turns, start);
      r, rest := GiveEvent(ring, r, event, rest, start);
    }

    /** The drain loop, with a device's turn before it and five in every iteration: the events that the device completed by its
        end are pushed, those of before the loop and those of during it, each once and in the order of completion. */
    method Drain(ring: RingBuffer.Ring, w: State, turns: seq<seq<Action>>)
        returns (r: State, rest: seq<seq<Action>>)
      requires Agrees(w) && w.driver.Idle? && Turns(turns)
      requires ring.Valid() && ring.buffer as object !in {used, avail}
      modifies this`availIdx, this`devidx, this`usedIdx, this`memory, used, ring`at, ring`numElements, ring.buffer
      ensures Agrees(r) && Leads(w, r) && r.driver.Idle? && ring.Valid()
      ensures devidx == usedIdx && w.drained <= r.drained == r.done == |r.completed|
      ensures w.completed <= r.completed && (turns == [] ==> r.completed == w.completed)
      ensures rest == After(turns, 1 + 5 * (r.drained - w.drained))
      ensures ring.Contents() == PushAll(old(ring.Contents()), r.completed[w.drained..], ring.capacity, ring.behavior)
    {
      hide Virtio.Inv, Slot, Next, QueueSize, Leads, Turns, Acted, After, Do, Enabled, Fits, PushAll, RingBuffer.Pushed,
        RingBuffer.View;
      AfterNone();
      ghost var c := ring.Contents();
      LeadsNowhere(w);
      PushedNone(c, ring.capacity, ring.behavior);
      Counts(w);
      r, rest := DeviceTurn(w, turns, w);
      assert r.completed[w.drained..w.drained] == [];
      while devidx != usedIdx
        invariant Agrees(r) && Leads(w, r) && r.driver.Idle? && Turns(rest) && ring.Valid()
        invariant w.drained <= r.drained <= |r.completed| && w.completed <= r.completed
        invariant rest == After(turns, 1 + 5 * (r.drained - w.drained)) && (turns == [] ==> rest == [] && r.completed == w.completed)
        invariant ring.Contents() == PushAll(c, r.completed[w.drained..r.drained], ring.capacity, ring.behavior)
        decreases |rest|, |r.completed| - r.drained
      {
        ghost var before := r;
        Counts(r);
        FewerLeft(rest);
        AfterMore(turns, 1 + 5 * (r.drained - w.drained), 5);
        r, rest := DrainOne(ring, r, rest, w);
        Counts(r);
        PushedOne(c, ring.capacity, ring.behavior, before.completed, r.completed, w.drained, before.drained);
      }
      Counts(r);
      assert r.completed[w.drained..] == r.completed[w.drained..r.drained];
    }
  }

  lemma FewerLeft(turns: seq<seq<Action>>)
    ensures |After(turns, 5)| <= |turns|
    ensures turns != [] ==> |After(turns, 5)| < |turns|
  {
  }

  lemma PushedNone(c: seq<int>, capacity: nat, behavior: RingBuffer.Behavior)
    requires 0 < capacity
    ensures PushAll(c, [], capacity, behavior) == c
  {
  }

  lemma PushedOne(c: seq<int>, capacity: nat, behavior: RingBuffer.Behavior, xs: seq<int>, ys: seq<int>, m: nat, n: nat)
    requires 0 < capacity && m <= n <= |xs| && n < |ys| && xs <= ys
    ensures PushAll(c, ys[m..n + 1], capacity, behavior) ==
      RingBuffer.Pushed(PushAll(c, xs[m..n], capacity, behavior), capacity, behavior, ys[n])
  {
    var zs := ys[m..n + 1];
    assert zs[..|zs| - 1] == xs[m..n];
  }

  // ---------- facts about the protocol's states ----------

  lemma ShapeOf(w: State)
    requires Virtio.Inv(w)
    ensures Fits(w) && 0 < w.q <= 0x8000 && w.usedIdx < WRAP && w.availIdx < WRAP && w.devidx < WRAP
  {
  }

  /** The drain loop's test tells whether all completed events were drained. */
  lemma Counts(w: State)
    requires Virtio.Inv(w) && w.driver.Idle?
    ensures w.drained <= w.done == |w.completed|
    ensures w.devidx == w.usedIdx <==> w.drained == w.done
  {
    SameIndexSameCounter(w);
  }

  lemma EventIsCompleted(w: State)
    requires Virtio.Inv(w) && w.driver.HasEvent?
    ensures w.drained < |w.completed| && w.driver.event == w.completed[w.drained]
  {
  }
}

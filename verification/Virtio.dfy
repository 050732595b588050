/**
 The virtio input queue: the rings that src/virtio_inp.c sets up, the loop of
 src/pci.c:83-95 that drains them, and a device that completes buffers in order, as
 a state machine in which both take steps in any order (VIRTIO 1.1, sections 2.6.5,
 2.6.6, 2.6.8 and 5.8).
 */
module Virtio {
  import opened Arithmetic

  const WRAP: nat := 0x1_0000

  /** A 16-bit index after one more step. */
  function Next(index: nat): nat {
    (index + 1) % WRAP
  }

  /** The slot of a ring of length q that an index means. */
  function Slot(q: nat, index: nat): (r: nat)
    requires q > 0
    ensures r < q
  {
    index % q
  }

  /** Where the loop body of PciDriver_claim_irq is. */
  datatype Driver = Idle | HasId(id: nat) | HasEvent(event: int) | HasPushed | HasOffered

  /** The four counters count what was offered, taken, completed and drained since the start. They are never read
      by a step: driver and device only see the 16-bit indices. */
  datatype State = State(
    q: nat,
    avail: seq<nat>, availIdx: nat, used: seq<nat>, usedIdx: nat, buffer: seq<int>,
    seen: nat, listed: bool, devidx: nat, driver: Driver,
    offered: nat, taken: nat, done: nat, drained: nat,
    completed: seq<int>, pushed: seq<int>)

  datatype Action =
    | Take                         // device: next available descriptor
    | Write(k: nat, event: int)    // device: fill the buffer of the k-th descriptor, while it holds it
    | List                         // device: used ring element of the oldest descriptor it holds
    | Publish                      // device: used index
    | ReadId | ReadEvent | Push | Offer | Advance  // driver, src/pci.c:85-92

  /** The queue size is a power of two of at most 32768: it divides the index range. */
  ghost predicate QueueSize(q: nat) {
    0 < q <= 0x8000 && WRAP % q == 0
  }

  predicate Fits(s: State) {
    && 0 < s.q && |s.avail| == s.q && |s.used| == s.q && |s.buffer| == s.q
    && (forall i :: 0 <= i < s.q ==> s.avail[i] < s.q && s.used[i] < s.q)
    && (s.driver.HasId? ==> s.driver.id < s.q)
  }

  predicate Enabled(s: State, a: Action)
    requires Fits(s)
  {
    match a
    case Take => s.seen != s.availIdx
    case Write(k, _) => s.done <= k < s.taken && !(s.listed && k == s.done)
    case List => s.done < s.taken && !s.listed
    case Publish => s.listed
    case ReadId => s.driver.Idle? && s.devidx != s.usedIdx
    case ReadEvent => s.driver.HasId?
    case Push => s.driver.HasEvent?
    case Offer => s.driver.HasPushed?
    case Advance => s.driver.HasOffered?
  }

  function Do(s: State, a: Action): State
    requires Fits(s) && Enabled(s, a)
  {
    match a
    case Take => s.(seen := Next(s.seen), taken := s.taken + 1)
    case Write(k, event) => s.(buffer := s.buffer[s.avail[Slot(s.q, k)] := event])
    case List => s.(used := s.used[Slot(s.q, s.usedIdx) := s.avail[Slot(s.q, s.done)]], listed := true)
    case Publish =>
      s.(usedIdx := Next(s.usedIdx), listed := false, done := s.done + 1,
         completed := s.completed + [s.buffer[s.avail[Slot(s.q, s.done)]]])
    case ReadId => s.(driver := HasId(s.used[Slot(s.q, s.devidx)]))
    case ReadEvent => s.(driver := HasEvent(s.buffer[s.driver.id]))
    case Push => s.(pushed := s.pushed + [s.driver.event], driver := HasPushed)
    case Offer => s.(availIdx := Next(s.availIdx), offered := s.offered + 1, driver := HasOffered)
    case Advance => s.(devidx := Next(s.devidx), drained := s.drained + 1, driver := Idle)
  }

  // ---------- the invariant ----------

  /** The index after which everything the device completed is still unread. */
  ghost function Unread(s: State): nat {
    s.drained + if s.driver.Idle? || s.driver.HasId? then 0 else 1
  }

  /** Every 16-bit index is its counter, and the counters never drift further apart than the queue is long. */
  ghost predicate Indices(s: State) {
    && QueueSize(s.q)
    && s.availIdx == s.offered % WRAP && s.seen == s.taken % WRAP
    && s.usedIdx == s.done % WRAP && s.devidx == s.drained % WRAP
    && s.drained <= s.done <= s.taken <= s.offered
    && s.offered == s.drained + s.q + (if s.driver.HasOffered? then 1 else 0)
    && (!s.driver.Idle? ==> s.drained < s.done)
    && (s.listed ==> s.done < s.taken)
  }

  /** Slot i of the available ring holds descriptor i for ever, and unread slots of the used ring name theirs. */
  ghost predicate Rings(s: State)
    requires Fits(s)
  {
    && (forall i :: 0 <= i < s.q ==> s.avail[i] == i)
    && (forall k :: Unread(s) <= k < s.done + (if s.listed then 1 else 0) ==> s.used[Slot(s.q, k)] == Slot(s.q, k))
  }

  /** Unread events are still in their buffers, and the driver has handed on a prefix of what was completed. */
  ghost predicate Events(s: State)
    requires Fits(s)
  {
    && |s.completed| == s.done
    && (forall k :: Unread(s) <= k < s.done ==> s.buffer[Slot(s.q, k)] == s.completed[k])
    && |s.pushed| == s.drained + (if s.driver.HasPushed? || s.driver.HasOffered? then 1 else 0)
    && |s.pushed| <= s.done && s.pushed == s.completed[..|s.pushed|]
    && (s.driver.HasId? ==> s.driver.id == Slot(s.q, s.drained))
    && (s.driver.HasEvent? && s.drained < s.done ==> s.driver.event == s.completed[s.drained])
  }

  ghost predicate Inv(s: State) {
    Fits(s) && Indices(s) && Rings(s) && Events(s)
  }

  // ---------- arithmetic of the indices ----------

  /** Reducing a wrapped index modulo the queue size gives the right slot, for ever, exactly when the queue size
      divides the range of the index. */
  lemma WrapKeepsSlotIff(q: nat)
    requires q > 0
    ensures (forall k: nat :: Slot(q, k % 0x1_0000) == Slot(q, k)) <==> 0x1_0000 % q == 0
  {
    if WRAP % q == 0 {
      forall k: nat ensures Slot(q, k % WRAP) == Slot(q, k) { WrapKeepsSlot(q, k); }
    } else {
      assert Slot(q, WRAP % WRAP) != Slot(q, WRAP);
    }
  }

  lemma WrapKeepsSlot(q: nat, k: nat)
    requires q > 0 && WRAP % q == 0
    ensures Slot(q, k % WRAP) == Slot(q, k)
  {
    var m, n, r := WRAP / q, k / WRAP, k % WRAP;
    assert WRAP == m * q;
    assert k == n * WRAP + r;
    assert n * WRAP == (n * m) * q by { assert n * (m * q) == (n * m) * q; }
    AddMultiple(r, n * m, q);
  }

  lemma AddMultiple(r: nat, n: nat, q: nat)
    requires q > 0
    ensures (r + n * q) % q == r % q
  {
    var d, t := r / q, r % q;
    assert r == q * d + t;
    assert r + n * q == q * (d + n) + t;
    ModIs(r + n * q, q, d + n, t);
  }

  /** Two counters less than a queue length apart have different slots; a whole queue length apart, the same. */
  lemma SlotsApart(q: nat, j: nat, k: nat)
    requires q > 0 && j < k < j + q
    ensures Slot(q, j) != Slot(q, k)
  {
    if j % q == k % q {
      var a, b := j / q, k / q;
      assert j == q * a + j % q && k == q * b + k % q;
      if a < b { MulSteps(q, a, b); } else if b < a { MulSteps(q, b, a); }
    }
  }

  lemma NextCounts(n: nat)
    ensures Next(n % WRAP) == (n + 1) % WRAP
  {
  }

  // ---------- every step keeps the invariant ----------

  lemma TakeKeeps(s: State)
    requires Inv(s) && Enabled(s, Take)
    ensures Inv(Do(s, Take))
  {
    NextCounts(s.taken);
  }

  lemma WriteKeeps(s: State, k: nat, event: int)
    requires Inv(s) && Enabled(s, Write(k, event))
    ensures Inv(Do(s, Write(k, event)))
  {
    hide Slot;
    forall j | Unread(s) <= j < s.done ensures Slot(s.q, j) != Slot(s.q, k) {
      SlotsApart(s.q, j, k);
    }
  }

  lemma ListKeeps(s: State)
    requires Inv(s) && Enabled(s, List)
    ensures Inv(Do(s, List))
  {
    hide Slot;
    WrapKeepsSlot(s.q, s.done);
    forall j | Unread(s) <= j < s.done ensures Slot(s.q, j) != Slot(s.q, s.done) {
      SlotsApart(s.q, j, s.done);
    }
  }

  lemma PublishKeeps(s: State)
    requires Inv(s) && Enabled(s, Publish)
    ensures Inv(Do(s, Publish))
  {
    hide Slot;
    NextCounts(s.done);
  }

  lemma ReadKeeps(s: State, a: Action)
    requires Inv(s) && Enabled(s, a) && (a.ReadId? || a.ReadEvent? || a.Push?)
    ensures Inv(Do(s, a))
  {
    WrapKeepsSlot(s.q, s.drained);
    SameIndexSameCounter(s);
    hide Slot;
  }

  lemma OfferKeeps(s: State, a: Action)
    requires Inv(s) && Enabled(s, a) && (a.Offer? || a.Advance?)
    ensures Inv(Do(s, a))
  {
    hide Slot;
    NextCounts(s.offered);
    NextCounts(s.drained);
  }

  /** The comparisons of 16-bit indices by which driver and device see whether there is work are exact. */
  lemma SameIndexSameCounter(s: State)
    requires Inv(s)
    ensures s.seen == s.availIdx <==> s.taken == s.offered
    ensures s.devidx == s.usedIdx <==> s.drained == s.done
  {
    CloseCounters(s.taken, s.offered);
    CloseCounters(s.drained, s.done);
  }

  lemma CloseCounters(a: nat, b: nat)
    requires a <= b < a + WRAP
    ensures a % WRAP == b % WRAP <==> a == b
  {
  }

  lemma StepKeepsInv(s: State, a: Action)
    requires Inv(s) && Enabled(s, a)
    ensures Inv(Do(s, a))
  {
    match a
    case Take => SameIndexSameCounter(s); TakeKeeps(s);
    case Write(k, event) => WriteKeeps(s, k, event);
    case List => ListKeeps(s);
    case Publish => PublishKeeps(s);
    case ReadId | ReadEvent | Push => ReadKeeps(s, a);
    case Offer | Advance => OfferKeeps(s, a);
  }

  // ---------- whole runs ----------

  /** What virtio_input_init leaves: all q descriptors on offer, nothing taken, completed or drained. */
  ghost predicate Initial(s: State) {
    && Fits(s) && QueueSize(s.q)
    && (forall i :: 0 <= i < s.q ==> s.avail[i] == i)
    && s.availIdx == s.q && s.seen == 0 && s.usedIdx == 0 && s.devidx == 0
    && !s.listed && s.driver.Idle?
    && s.offered == s.q && s.taken == 0 && s.done == 0 && s.drained == 0
    && s.completed == [] && s.pushed == []
  }

  lemma InitialHolds(s: State)
    requires Initial(s)
    ensures Inv(s)
  {
  }

  ghost predicate RunTo(run: seq<Action>, s: State, r: State) {
    if run == [] then r == s
    else Fits(s) && Enabled(s, run[0]) && RunTo(run[1..], Do(s, run[0]), r)
  }

  lemma {:induction false} RunKeepsInv(run: seq<Action>, s: State, r: State)
    requires Inv(s) && RunTo(run, s, r)
    ensures Inv(r) && r.q == s.q
  {
    if run != [] {
      StepKeepsInv(s, run[0]);
      RunKeepsInv(run[1..], Do(s, run[0]), r);
    }
  }

  /** In every interleaving, the k-th value that the driver hands to ring_push is the k-th event that the device
      completed, and outside an iteration the available index is the drained index plus the queue size. */
  lemma PushedAreCompleted(run: seq<Action>, s: State, r: State)
    requires Initial(s) && RunTo(run, s, r)
    ensures r.pushed <= r.completed
    ensures r.driver.Idle? ==> |r.pushed| == r.drained && r.availIdx == (r.devidx + r.q) % 0x1_0000
  {
    InitialHolds(s);
    RunKeepsInv(run, s, r);
    if r.driver.Idle? { WrappedSum(r.drained, r.q); }
  }

  lemma WrappedSum(n: nat, q: nat)
    ensures (n % WRAP + q) % WRAP == (n + q) % WRAP
  {
  }

  /** In every interleaving, no buffer is written between the completion of its event and the time it is read. */
  lemma UnreadIsNotOverwritten(run: seq<Action>, s: State, r: State, a: Action, k: nat)
    requires Initial(s) && RunTo(run, s, r) && Fits(r) && Enabled(r, a) && Unread(r) <= k < r.done
    ensures k < |r.completed|
    ensures Do(r, a).buffer[Slot(r.q, k)] == r.buffer[Slot(r.q, k)] == r.completed[k]
  {
    InitialHolds(s);
    RunKeepsInv(run, s, r);
    hide Slot;
    match a
    case Write(j, event) => SlotsApart(r.q, k, j);
    case _ =>
  }

  /** In every interleaving, the descriptors on offer or with the device are all different. */
  lemma NoDescriptorTwice(run: seq<Action>, s: State, r: State, j: nat, k: nat)
    requires Initial(s) && RunTo(run, s, r) && Fits(r) && r.done <= j < k < r.offered
    ensures r.avail[Slot(r.q, j)] != r.avail[Slot(r.q, k)]
  {
    InitialHolds(s);
    RunKeepsInv(run, s, r);
    hide Slot;
    SlotsApart(r.q, j, k);
  }

  /** In every interleaving, the device finds work exactly when some descriptor on offer was not taken, and the
      driver exactly when some completed event was not drained, although both compare wrapped indices. */
  lemma IndicesTellWork(run: seq<Action>, s: State, r: State)
    requires Initial(s) && RunTo(run, s, r) && Fits(r)
    ensures Enabled(r, Take) <==> r.taken < r.offered
    ensures r.driver.Idle? ==> (Enabled(r, ReadId) <==> r.drained < r.done)
  {
    InitialHolds(s);
    RunKeepsInv(run, s, r);
    SameIndexSameCounter(r);
  }

  // ---------- what the counters and the events are ----------

  /** How many actions of a kind a run has. */
  ghost function Times(run: seq<Action>, kind: Action -> bool): nat {
    if run == [] then 0 else Times(run[1..], kind) + if kind(run[0]) then 1 else 0
  }

  /** In every run, each counter counts its actions, and so do the lists of completed and of pushed events. */
  lemma {:induction false} CountersCount(run: seq<Action>, s: State, r: State)
    requires RunTo(run, s, r)
    ensures r.taken == s.taken + Times(run, (a: Action) => a.Take?)
    ensures r.done == s.done + Times(run, (a: Action) => a.Publish?)
    ensures |r.completed| == |s.completed| + Times(run, (a: Action) => a.Publish?)
    ensures |r.pushed| == |s.pushed| + Times(run, (a: Action) => a.Push?)
    ensures r.offered == s.offered + Times(run, (a: Action) => a.Offer?)
    ensures r.drained == s.drained + Times(run, (a: Action) => a.Advance?)
  {
    hide Slot, Next, Fits;
    if run != [] { CountersCount(run[1..], Do(s, run[0]), r); }
  }

  /** The last event that the device wrote into its k-th buffer, or `before` if a run has no such write. */
  ghost function LastWritten(run: seq<Action>, k: nat, before: seq<int>): seq<int> {
    if run == [] then before
    else LastWritten(run[1..], k, if run[0].Write? && run[0].k == k then [run[0].event] else before)
  }

  /** The event last written into the k-th buffer, if any, is the one completed, or still in the buffer. */
  ghost predicate Kept(s: State, k: nat, written: seq<int>)
    requires Inv(s)
  {
    written == [] ||
    if k < s.done then written == [s.completed[k]] else k < s.taken && written == [s.buffer[Slot(s.q, k)]]
  }

  lemma StepKeepsWritten(s: State, a: Action, k: nat, written: seq<int>)
    requires Inv(s) && Enabled(s, a) && Kept(s, k, written)
    ensures Inv(Do(s, a)) && Kept(Do(s, a), k, if a.Write? && a.k == k then [a.event] else written)
  {
    StepKeepsInv(s, a);
    hide Slot;
    if a.Write? && a.k < k {
      if k < s.taken { SlotsApart(s.q, a.k, k); }
    } else if a.Write? && k < a.k {
      if s.done <= k { SlotsApart(s.q, k, a.k); }
    }
  }

  lemma {:induction false} RunKeepsWritten(run: seq<Action>, s: State, r: State, k: nat, written: seq<int>)
    requires Inv(s) && RunTo(run, s, r) && Kept(s, k, written)
    ensures Inv(r) && Kept(r, k, LastWritten(run, k, written))
  {
    hide Inv, Do, Kept;
    if run != [] {
      var now := if run[0].Write? && run[0].k == k then [run[0].event] else written;
      StepKeepsWritten(s, run[0], k, written);
      RunKeepsWritten(run[1..], Do(s, run[0]), r, k, now);
    }
  }

  /** In every interleaving, the k-th completed event is the last one that the device wrote into its k-th buffer. */
  lemma CompletedAreWritten(run: seq<Action>, s: State, r: State, k: nat)
    requires Initial(s) && RunTo(run, s, r) && k < |r.completed| && LastWritten(run, k, []) != []
    ensures LastWritten(run, k, []) == [r.completed[k]]
  {
    InitialHolds(s);
    RunKeepsWritten(run, s, r, k, []);
  }
}

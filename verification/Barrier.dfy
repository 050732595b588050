/**
 The barrier of src/lock.c: processes register in a linked list, calls of barrier_wall
 count down, and the call that finds one or less left walks the list, sets every
 process running and frees every node. Threads interleave between any two steps.
 A process may be registered more than once; every registration has a node of its own.
 */
module Barriers {
  import opened Sequences

  datatype Node = Node(id: nat, proc: nat)

  /** Where a thread is in barrier_wall; an opening thread has the nodes still to visit. */
  datatype Pc = Before | Through | Opening(rest: seq<Node>) | Opened

  datatype State = State(value: int, head: seq<Node>, pc: seq<Pc>, running: set<nat>, freed: multiset<Node>)

  /** After the processes registered with barrier_add_process, each at the head of the list, n threads are about to call. */
  function Registered(procs: seq<nat>, n: nat): State {
    if procs == [] then State(0, [], seq(n, _ => Before), {}, multiset{})
    else
      var s := Registered(procs[..|procs| - 1], n);
      s.(value := s.value + 1, head := [Node(|procs| - 1, procs[|procs| - 1])] + s.head)
  }

  /** The nodes in the order of their registration, and as they are linked. */
  function Nodes(procs: seq<nat>): (r: seq<Node>)
    ensures |r| == |procs| && forall i :: 0 <= i < |r| ==> r[i] == Node(i, procs[i])
  {
    if procs == [] then [] else Nodes(procs[..|procs| - 1]) + [Node(|procs| - 1, procs[|procs| - 1])]
  }

  function List(procs: seq<nat>): (r: seq<Node>)
    ensures |r| == |procs|
  {
    Reversed(Nodes(procs))
  }

  datatype Action = Arrive(t: nat) | Release(t: nat) | Close(t: nat)

  predicate Enabled(s: State, a: Action) {
    a.t < |s.pc| &&
    match a
    case Arrive(t) => s.pc[t].Before?
    case Release(t) => s.pc[t].Opening? && s.pc[t].rest != []
    case Close(t) => s.pc[t].Opening? && s.pc[t].rest == []
  }

  function Step(s: State, a: Action): State
    requires Enabled(s, a)
  {
    match a
    case Arrive(t) => s.(value := s.value - 1, pc := s.pc[t := if s.value <= 1 then Opening(s.head) else Through])
    case Release(t) =>
      var rest := s.pc[t].rest;
      s.(pc := s.pc[t := Opening(rest[1..])], running := s.running + {rest[0].proc}, freed := s.freed + multiset{rest[0]})
    case Close(t) => s.(head := [], pc := s.pc[t := Opened])
  }

  function Waiting(pc: seq<Pc>): (n: nat)
    ensures n <= |pc|
  {
    if pc == [] then 0 else Waiting(pc[1..]) + if pc[0].Before? then 1 else 0
  }

  lemma {:induction false} WaitingUpdate(pc: seq<Pc>, t: nat, c: Pc)
    requires t < |pc|
    ensures Waiting(pc[t := c]) == Waiting(pc) - (if pc[t].Before? then 1 else 0) + (if c.Before? then 1 else 0)
    ensures pc[t].Before? ==> Waiting(pc) > 0
  {
    if t > 0 {
      assert pc[t := c][1..] == pc[1..][t - 1 := c];
      WaitingUpdate(pc[1..], t - 1, c);
    } else {
      assert pc[t := c][1..] == pc[1..];
    }
  }

  lemma {:induction false} NoneWaiting(pc: seq<Pc>, t: nat)
    requires Waiting(pc) == 0 && t < |pc|
    ensures !pc[t].Before?
  {
    if t > 0 { NoneWaiting(pc[1..], t - 1); }
  }

  ghost predicate Opens(c: Pc) {
    c.Opening? || c.Opened?
  }

  ghost predicate Distinct(nodes: seq<Node>) {
    forall i, j :: 0 <= i < j < |nodes| ==> nodes[i] != nodes[j]
  }

  function Processes(nodes: seq<Node>): set<nat> {
    set x | x in nodes :: x.proc
  }

  /** What is done when `rest` is left. */
  ghost predicate Visited(s: State, nodes: seq<Node>, rest: seq<Node>) {
    && |rest| <= |nodes| && rest == nodes[|nodes| - |rest|..]
    && s.freed == multiset(nodes[..|nodes| - |rest|])
    && s.running == Processes(nodes[..|nodes| - |rest|])
  }

  /** At most one thread opens, only once all have arrived, and it has the list to itself. */
  ghost predicate Inv(s: State, nodes: seq<Node>) {
    && s.value == |nodes| - |s.pc| + Waiting(s.pc)
    && (forall t :: 0 <= t < |s.pc| && Opens(s.pc[t]) ==> s.value == 0 && Waiting(s.pc) == 0)
    && (forall t, u :: 0 <= t < u < |s.pc| ==> !(Opens(s.pc[t]) && Opens(s.pc[u])))
    && ((forall t :: 0 <= t < |s.pc| ==> !Opens(s.pc[t])) ==> s.head == nodes && Visited(s, nodes, nodes) && (s.value == 0 ==> |s.pc| == 0))
    && (forall t :: 0 <= t < |s.pc| && s.pc[t].Opening? ==> s.head == nodes && Visited(s, nodes, s.pc[t].rest))
    && (forall t :: 0 <= t < |s.pc| && s.pc[t].Opened? ==> s.head == [] && Visited(s, nodes, []))
  }

  lemma StepKeepsInv(s: State, a: Action, nodes: seq<Node>)
    requires Inv(s, nodes) && Enabled(s, a) && |s.pc| <= |nodes|
    ensures Inv(Step(s, a), nodes) && |Step(s, a).pc| == |s.pc|
    ensures a.Arrive? ==> (Step(s, a).pc[a.t].Opening? <==> Step(s, a).value == 0)
  {
    match a
    case Arrive(t) => ArriveKeepsInv(s, t, nodes);
    case Release(t) => ReleaseKeepsInv(s, t, nodes);
    case Close(t) => CloseKeepsInv(s, t, nodes);
  }

  lemma CloseKeepsInv(s: State, t: nat, nodes: seq<Node>)
    requires Inv(s, nodes) && Enabled(s, Close(t))
    ensures Inv(Step(s, Close(t)), nodes)
  {
    WaitingUpdate(s.pc, t, Opened);
    assert Opens(Step(s, Close(t)).pc[t]);
  }

  lemma ArriveKeepsInv(s: State, t: nat, nodes: seq<Node>)
    requires Inv(s, nodes) && Enabled(s, Arrive(t)) && |s.pc| <= |nodes|
    ensures Inv(Step(s, Arrive(t)), nodes)
    ensures Step(s, Arrive(t)).pc[t].Opening? <==> Step(s, Arrive(t)).value == 0
  {
    hide Visited;
    WaitingUpdate(s.pc, t, Step(s, Arrive(t)).pc[t]);
    VisitedOfArrival(s, t, nodes);
  }

  lemma VisitedOfArrival(s: State, t: nat, nodes: seq<Node>)
    requires Enabled(s, Arrive(t))
    ensures Visited(Step(s, Arrive(t)), nodes, nodes) == Visited(s, nodes, nodes)
  {
  }

  lemma ReleaseKeepsInv(s: State, t: nat, nodes: seq<Node>)
    requires Inv(s, nodes) && Enabled(s, Release(t))
    ensures Inv(Step(s, Release(t)), nodes)
  {
    assert Opens(Step(s, Release(t)).pc[t]);
    WaitingUpdate(s.pc, t, Step(s, Release(t)).pc[t]);
    ReleaseVisits(s, nodes, t);
    hide Visited;
  }

  lemma ReleaseVisits(s: State, nodes: seq<Node>, t: nat)
    requires t < |s.pc| && s.pc[t].Opening? && s.pc[t].rest != [] && Visited(s, nodes, s.pc[t].rest)
    ensures Visited(Step(s, Release(t)), nodes, s.pc[t].rest[1..])
  {
    var rest := s.pc[t].rest;
    var k := |nodes| - |rest|;
    assert nodes[..k + 1] == nodes[..k] + [nodes[k]];
    assert rest[0] == nodes[k] && rest[1..] == nodes[k + 1..];
  }

  // ---------- runs ----------

  ghost predicate Run(states: seq<State>, actions: seq<Action>) {
    && |states| == |actions| + 1
    && forall k :: 0 <= k < |actions| ==> Enabled(states[k], actions[k]) && states[k + 1] == Step(states[k], actions[k])
  }

  /** Registration makes the count the length of the list. */
  lemma {:induction false} RegisteredState(procs: seq<nat>, n: nat)
    ensures Registered(procs, n) == State(|procs|, List(procs), seq(n, _ => Before), {}, multiset{})
  {
    if procs != [] {
      var k := |procs| - 1;
      RegisteredState(procs[..k], n);
      ReversedSnoc(Nodes(procs[..k]), Node(k, procs[k]));
    }
  }

  lemma {:induction false} AllWaiting(pc: seq<Pc>)
    requires forall t :: 0 <= t < |pc| ==> pc[t].Before?
    ensures Waiting(pc) == |pc|
  {
    if pc != [] { AllWaiting(pc[1..]); }
  }

  lemma {:induction false} AllArrived(pc: seq<Pc>)
    requires forall t :: 0 <= t < |pc| ==> !pc[t].Before?
    ensures Waiting(pc) == 0
  {
    if pc != [] { AllArrived(pc[1..]); }
  }

  lemma RegisteredInv(procs: seq<nat>, n: nat)
    requires n <= |procs|
    ensures Inv(Registered(procs, n), List(procs))
  {
    RegisteredState(procs, n);
    AllWaiting(Registered(procs, n).pc);
    var nodes := List(procs);
    assert nodes[0..] == nodes && nodes[..0] == [];
  }

  lemma {:induction false} RunKeepsInv(states: seq<State>, actions: seq<Action>, procs: seq<nat>, n: nat)
    requires Run(states, actions) && states[0] == Registered(procs, n) && n <= |procs|
    ensures Inv(states[|actions|], List(procs)) && |states[|actions|].pc| == n
    decreases |actions|
  {
    if actions == [] {
      RegisteredInv(procs, n);
      RegisteredState(procs, n);
    } else {
      var k := |actions| - 1;
      assert states[k + 1] == Step(states[k], actions[k]);
      RunKeepsInv(states[..k + 1], actions[..k], procs, n);
      StepKeepsInv(states[k], actions[k], List(procs));
    }
  }

  ghost predicate Finished(s: State) {
    forall t :: 0 <= t < |s.pc| ==> s.pc[t].Through? || s.pc[t].Opened?
  }

  /**
   As many calls as processes: when they are over, exactly one of them has opened the
   barrier, every registered process is running, every node was freed exactly once,
   and the list is empty. With fewer calls nothing has happened yet.
   */
  lemma LastCallOpens(states: seq<State>, actions: seq<Action>, procs: seq<nat>, n: nat)
    requires Run(states, actions) && states[0] == Registered(procs, n) && n <= |procs|
    requires Finished(states[|actions|])
    ensures var s := states[|actions|];
      && |s.pc| == n
      && (n == |procs| > 0 ==>
        && s.head == [] && s.running == (set p | p in procs) && s.freed == multiset(Nodes(procs))
        && exists t :: 0 <= t < n && s.pc[t].Opened? && forall u :: 0 <= u < n && u != t ==> s.pc[u].Through?)
      && (n < |procs| ==> s.running == {} && s.freed == multiset{} && forall t :: 0 <= t < n ==> s.pc[t].Through?)
  {
    hide Processes, Nodes, List, Registered;
    var s := states[|actions|];
    var nodes := List(procs);
    RunKeepsInv(states, actions, procs, n);
    AllArrived(s.pc);
    assert nodes[|nodes|..] == [] && nodes[..|nodes|] == nodes && nodes[..0] == [];
    SameElements(procs);
    NoProcesses();
  }

  lemma NoProcesses()
    ensures Processes([]) == {}
  {
  }

  lemma SameElements(procs: seq<nat>)
    ensures Processes(List(procs)) == (set p | p in procs) && multiset(List(procs)) == multiset(Nodes(procs))
  {
    var nodes := Nodes(procs);
    SameMultiset(nodes);
    assert forall x :: x in List(procs) <==> x in multiset(List(procs));
    assert forall x :: x in nodes <==> x in multiset(nodes);
    forall p | p in procs ensures p in Processes(List(procs)) {
      var i :| 0 <= i < |procs| && procs[i] == p;
      assert nodes[i] in nodes;
    }
  }

  lemma {:induction false} SameMultiset<T>(s: seq<T>)
    ensures multiset(Reversed(s)) == multiset(s)
  {
    if s != [] {
      SameMultiset(s[1..]);
      assert s == [s[0]] + s[1..];
    }
  }

  // ---------- runs end ----------

  /** The steps that a thread has before it, if the list has n nodes. */
  function StepsLeft(c: Pc, n: nat): nat {
    match c
    case Before => n + 2
    case Opening(rest) => |rest| + 1
    case Through | Opened => 0
  }

  function AllStepsLeft(pc: seq<Pc>, n: nat): nat {
    if pc == [] then 0 else StepsLeft(pc[0], n) + AllStepsLeft(pc[1..], n)
  }

  lemma {:induction false} StepsUpdate(pc: seq<Pc>, t: nat, c: Pc, n: nat)
    requires t < |pc|
    ensures AllStepsLeft(pc[t := c], n) == AllStepsLeft(pc, n) - StepsLeft(pc[t], n) + StepsLeft(c, n)
  {
    if t > 0 {
      assert pc[t := c][1..] == pc[1..][t - 1 := c];
      StepsUpdate(pc[1..], t - 1, c, n);
    } else {
      assert pc[t := c][1..] == pc[1..];
    }
  }

  lemma StepsGoDown(s: State, a: Action, nodes: seq<Node>)
    requires Inv(s, nodes) && Enabled(s, a)
    ensures AllStepsLeft(Step(s, a).pc, |nodes|) < AllStepsLeft(s.pc, |nodes|)
  {
    StepsUpdate(s.pc, a.t, Step(s, a).pc[a.t], |nodes|);
    assert |s.head| <= |nodes|;
  }

  /** Every interleaving ends: no run has more steps than every thread's own, and as long as a thread is not through
      some step can be taken. */
  lemma {:induction false} RunsEnd(states: seq<State>, actions: seq<Action>, procs: seq<nat>, n: nat)
    requires Run(states, actions) && states[0] == Registered(procs, n) && n <= |procs|
    ensures |actions| + AllStepsLeft(states[|actions|].pc, |procs|) <= n * (|procs| + 2)
    ensures Finished(states[|actions|]) <==> forall a :: !Enabled(states[|actions|], a)
    decreases |actions|
  {
    StuckIsFinished(states[|actions|]);
    if actions == [] {
      RegisteredState(procs, n);
      StepsAtStart(n, |procs|);
    } else {
      var k := |actions| - 1;
      assert states[k + 1] == Step(states[k], actions[k]);
      RunsEnd(states[..k + 1], actions[..k], procs, n);
      RunKeepsInv(states[..k + 1], actions[..k], procs, n);
      StepsGoDown(states[k], actions[k], List(procs));
    }
  }

  lemma {:induction false} StepsAtStart(n: nat, nodes: nat)
    ensures AllStepsLeft(seq(n, _ => Before), nodes) == n * (nodes + 2)
  {
    if n > 0 {
      assert seq(n, _ => Before)[1..] == seq(n - 1, _ => Before);
      StepsAtStart(n - 1, nodes);
    }
  }

  lemma StuckIsFinished(s: State)
    ensures Finished(s) <==> forall a :: !Enabled(s, a)
  {
    if t :| 0 <= t < |s.pc| && (s.pc[t].Before? || s.pc[t].Opening?) {
      assert Enabled(s, Arrive(t)) || Enabled(s, Release(t)) || Enabled(s, Close(t));
    }
  }

  ghost predicate NoDoubleFree(s: State) {
    forall x :: s.freed[x] <= 1
  }

  ghost predicate NeverDoubleFrees(procs: seq<nat>, n: nat) {
    forall states, actions :: Run(states, actions) && states[0] == Registered(procs, n) ==> NoDoubleFree(states[|actions|])
  }

  /** No interleaving frees a node twice exactly when there are no more calls than registered processes, or none registered. */
  lemma BarrierIsSafeIff(procs: seq<nat>, n: nat)
    ensures NeverDoubleFrees(procs, n) <==> n <= |procs| || procs == []
  {
    if procs == [] {
      forall states, actions | Run(states, actions) && states[0] == Registered(procs, n)
        ensures NoDoubleFree(states[|actions|])
      {
        NothingToFree(states, actions, n);
      }
    } else if n <= |procs| {
      forall states, actions | Run(states, actions) && states[0] == Registered(procs, n)
        ensures NoDoubleFree(states[|actions|])
      {
        RunKeepsInv(states, actions, procs, n);
        FreedOnce(states[|actions|], procs);
      }
    } else {
      OneCallTooMany(procs, n);
    }
  }

  lemma FreedOnce(s: State, procs: seq<nat>)
    requires Inv(s, List(procs))
    ensures NoDoubleFree(s)
  {
    var nodes := List(procs);
    var rest := SomethingLeft(s, nodes);
    hide Inv;
    DistinctList(procs);
    forall x ensures s.freed[x] <= 1 {
      CountsOnce(nodes[..|nodes| - |rest|], x);
    }
  }

  lemma SomethingLeft(s: State, nodes: seq<Node>) returns (rest: seq<Node>)
    requires Inv(s, nodes)
    ensures Visited(s, nodes, rest)
  {
    if t :| 0 <= t < |s.pc| && Opens(s.pc[t]) {
      rest := if s.pc[t].Opening? then s.pc[t].rest else [];
    } else {
      rest := nodes;
    }
  }

  lemma DistinctList(procs: seq<nat>)
    ensures Distinct(List(procs))
  {
    ReversedAt(Nodes(procs));
  }

  lemma {:induction false} CountsOnce(nodes: seq<Node>, x: Node)
    requires Distinct(nodes)
    ensures multiset(nodes)[x] <= 1
  {
    if nodes != [] {
      var k := |nodes| - 1;
      CountsOnce(nodes[..k], x);
      assert nodes == nodes[..k] + [nodes[k]];
      assert nodes[k] !in nodes[..k];
    }
  }

  lemma {:induction false} NothingToFree(states: seq<State>, actions: seq<Action>, n: nat)
    requires Run(states, actions) && states[0] == Registered([], n)
    ensures var s := states[|actions|];
      s.freed == multiset{} && s.head == [] && forall t :: 0 <= t < |s.pc| && s.pc[t].Opening? ==> s.pc[t].rest == []
    decreases |actions|
  {
    if actions != [] {
      var k := |actions| - 1;
      assert states[k + 1] == Step(states[k], actions[k]);
      NothingToFree(states[..k + 1], actions[..k], n);
    }
  }

  /** The state after the first j calls have counted down and nothing else has happened. */
  function AfterArrivals(procs: seq<nat>, n: nat, j: nat): State {
    State(|procs| - j, List(procs),
      seq(n, t => if t >= j then Before else if t < |procs| - 1 then Through else Opening(List(procs))), {}, multiset{})
  }

  /** The last two calls both find the list, and both free its first node. */
  lemma OneCallTooMany(procs: seq<nat>, n: nat)
    requires 0 < |procs| < n
    ensures !NeverDoubleFrees(procs, n)
  {
    var k := |procs|;
    var arrivals := seq(k + 2, j requires 0 <= j => AfterArrivals(procs, n, j));
    var calls := seq(k + 1, j requires 0 <= j => Arrive(j));
    var s := AfterArrivals(procs, n, k + 1);
    var r := Step(s, Release(k - 1));
    var states := arrivals + [r, Step(r, Release(k))];
    var actions := calls + [Release(k - 1), Release(k)];
    RegisteredState(procs, n);
    assert AfterArrivals(procs, n, 0).pc == seq(n, _ => Before);
    forall j | 0 <= j < |actions| ensures Enabled(states[j], actions[j]) && states[j + 1] == Step(states[j], actions[j]) {
      if j <= k {
        ArrivalStep(procs, n, j);
      }
    }
    assert Run(states, actions);
    assert states[|actions|].freed[List(procs)[0]] == 2;
    assert !NoDoubleFree(states[|actions|]);
  }

  lemma ArrivalStep(procs: seq<nat>, n: nat, j: nat)
    requires 0 < |procs| < n && j <= |procs|
    ensures var s := AfterArrivals(procs, n, j); Enabled(s, Arrive(j)) && Step(s, Arrive(j)) == AfterArrivals(procs, n, j + 1)
  {
    assert Step(AfterArrivals(procs, n, j), Arrive(j)).pc == AfterArrivals(procs, n, j + 1).pc;
  }
}

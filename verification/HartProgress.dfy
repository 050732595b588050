/**
 What the calls of sbi/src/hart.c achieve, whatever the other harts do in between: the
 k-th turn of the calling hart brings it to the k-th step of its procedure. The
 invariant of `Hart` says what may never happen; this says what does.
 */
module HartProgress {
  import opened Words
  import opened Hart

  /** How many of the turns are hart c's. */
  ghost function OwnTurns(turns: seq<Turn>, c: nat): nat {
    if turns == [] then 0 else OwnTurns(turns[1..], c) + if turns[0].c == c then 1 else 0
  }

  /** The state after the first turn of a run, in which the rest of it goes on. */
  lemma FirstTurn(turns: seq<Turn>, s: State, r: State) returns (t: State)
    requires turns != [] && Inv(s) && RunTo(turns, s, r)
    ensures Enabled(s, turns[0].c, turns[0].a) && (s[turns[0].c].pc.Start? ==> s[turns[0].c].pc.g < |s|)
    ensures t == Do(s, turns[0].c, turns[0].a) && Inv(t) && |t| == |s| && RunTo(turns[1..], t, r)
  {
    hide Inv;
    StepKeepsInv(s, turns[0].c, turns[0].a);
    t := Do(s, turns[0].c, turns[0].a);
  }

  /** Another hart's turn leaves a hart where it is. */
  lemma OthersLeavePc(s: State, d: nat, a: Action, c: nat)
    requires Enabled(s, d, a) && (s[d].pc.Start? ==> s[d].pc.g < |s|) && c < |s| && c != d
    ensures |Do(s, d, a)| == |s| && Do(s, d, a)[c].pc == s[c].pc && Do(s, d, a)[c].wakes == s[c].wakes
  {
  }

  // ---------- hart_stop ----------

  /** The steps of hart_stop: read the status, write HS_STOPPED, unlock, return to park. */
  ghost predicate StopAt(pc: Pc, k: nat) {
    match k
    case 0 => pc.StopRead?
    case 1 => pc.StopWrite?
    case 2 => pc.StopUnlock?
    case 3 => pc.StopReturn?
    case _ => pc.Parked?
  }

  lemma StopStep(s: State, c: nat, a: Action, k: nat)
    requires Inv(s) && Enabled(s, c, a) && StopAt(s[c].pc, k) && k < 4
    ensures StopAt(Do(s, c, a)[c].pc, k + 1)
  {
    Around(s, c);
    hide Inv, HartInv, WakesFollow;
  }

  /** In every interleaving, the four turns of a hart that is in hart_stop end with it parked, its own lock given back,
      and its status STOPPED, or STARTING if it was claimed again meanwhile. */
  lemma {:induction false} StopParks(turns: seq<Turn>, s: State, r: State, c: nat, k: nat)
    requires Inv(s) && RunTo(turns, s, r) && c < |s| && StopAt(s[c].pc, k) && k + OwnTurns(turns, c) <= 4
    ensures |r| == |s| && StopAt(r[c].pc, k + OwnTurns(turns, c))
    ensures k + OwnTurns(turns, c) == 4 ==>
      r[c].pc.Parked? && r[c].lock != By(c) && (r[c].status.Stopped? || r[c].status.Starting?)
    decreases |turns|
  {
    hide Inv, Do, Enabled;
    if turns == [] {
      ParkedIsDown(s, c);
    } else {
      var d, a := turns[0].c, turns[0].a;
      var t := FirstTurn(turns, s, r);
      if d == c {
        StopStep(s, c, a, k);
        StopParks(turns[1..], t, r, c, k + 1);
      } else {
        OthersLeavePc(s, d, a, c);
        StopParks(turns[1..], t, r, c, k);
      }
    }
  }

  lemma ParkedIsDown(s: State, c: nat)
    requires Inv(s) && c < |s|
    ensures s[c].pc.Parked? ==> s[c].lock != By(c) && (s[c].status.Stopped? || s[c].status.Starting?)
  {
    Around(s, c);
  }

  /** Stopping, parked, or in the handler. */
  ghost predicate Down(pc: Pc) {
    match pc
    case StopRead | StopWrite | StopUnlock | StopReturn | Parked => true
    case MsipLock | MsipClear | MsipRead | MsipTarget | MsipSkip => true
    case MsipWrite(_) | MsipUnlock(_) | MsipReturn(_) => true
    case _ => false
  }

  lemma DownStep(s: State, c: nat, a: Action)
    requires Inv(s) && Enabled(s, c, a) && Down(s[c].pc)
    ensures var h := Do(s, c, a)[c];
      || (Down(h.pc) && h.wakes == s[c].wakes)
      || (h.pc.Running? && |h.wakes| == |s[c].wakes| + 1)
  {
    StoppingIsStarted(s, c);
    hide Inv;
  }

  lemma WakesGrow(s: State, c: nat, a: Action)
    requires Enabled(s, c, a) && (s[c].pc.Start? ==> s[c].pc.g < |s|)
    ensures |Do(s, c, a)| == |s| && |s[c].wakes| <= |Do(s, c, a)[c].wakes|
  {
  }

  lemma {:induction false} WakesOnlyGrow(turns: seq<Turn>, s: State, r: State, c: nat)
    requires Inv(s) && RunTo(turns, s, r) && c < |s|
    ensures |r| == |s| && |s[c].wakes| <= |r[c].wakes|
  {
    hide Inv, Do, Enabled;
    if turns != [] {
      var t := FirstTurn(turns, s, r);
      if turns[0].c == c {
        WakesGrow(s, c, turns[0].a);
      } else {
        OthersLeavePc(s, turns[0].c, turns[0].a, c);
      }
      WakesOnlyGrow(turns[1..], t, r, c);
    }
  }

  /** In every interleaving, a hart that has begun to stop runs nothing until it has woken up once more. */
  lemma {:induction false} StoppedStaysDown(turns: seq<Turn>, s: State, r: State, c: nat)
    requires Inv(s) && RunTo(turns, s, r) && c < |s| && Down(s[c].pc)
    ensures |r| == |s|
    ensures |r[c].wakes| == |s[c].wakes| ==> Down(r[c].pc)
    decreases |turns|
  {
    hide Inv, Do, Enabled, Down;
    if turns != [] {
      var d, a := turns[0].c, turns[0].a;
      var t := FirstTurn(turns, s, r);
      if d == c { DownStep(s, c, a); } else { OthersLeavePc(s, d, a, c); }
      WakesOnlyGrow(turns[1..], t, r, c);
      if Down(t[c].pc) { StoppedStaysDown(turns[1..], t, r, c); }
    }
  }

  /** A call of hart_stop gets as far as its first step if the hart's own lock is free, and otherwise returns at once. */
  lemma StopCall(s: State, c: nat)
    requires Inv(s) && c < |s| && s[c].pc.Running?
    ensures Enabled(s, c, CallStop)
    ensures var h := Do(s, c, CallStop)[c];
      if s[c].lock.Free? then StopAt(h.pc, 0) && h.lock == By(c) else Do(s, c, CallStop) == s
  {
  }

  // ---------- hart_handle_msip ----------

  ghost predicate HandlerAt(pc: Pc, k: nat) {
    match k
    case 0 => pc.MsipLock?
    case 1 => pc.MsipClear?
    case 2 => pc.MsipRead?
    case 3 => pc.MsipTarget?
    case 4 => pc.MsipWrite?
    case 5 => pc.MsipUnlock?
    case 6 => pc.MsipReturn?
    case _ => pc.Running?
  }

  lemma HandlerStep(s: State, c: nat, a: Action, k: nat)
    requires Inv(s) && Enabled(s, c, a) && HandlerAt(s[c].pc, k) && k < 7
    ensures var h := Do(s, c, a)[c]; HandlerAt(h.pc, k + 1) && |h.wakes| == |s[c].wakes| + if k == 6 then 1 else 0
  {
    FromInterrupt(s, c);
    hide Inv;
  }

  lemma FromInterrupt(s: State, c: nat)
    requires Inv(s) && c < |s|
    ensures s[c].pc.MsipRead? ==> s[c].status.Starting?
  {
    Around(s, c);
  }

  /** In every interleaving, the seven turns of a hart that has taken its interrupt wake it up: it runs, STARTED, and its
      last successful call is served. */
  lemma {:induction false} HandlerWakes(turns: seq<Turn>, s: State, r: State, c: nat, k: nat)
    requires Inv(s) && RunTo(turns, s, r) && c < |s| && HandlerAt(s[c].pc, k) && k + OwnTurns(turns, c) <= 7
    ensures |r| == |s| && HandlerAt(r[c].pc, k + OwnTurns(turns, c))
    ensures k + OwnTurns(turns, c) == 7 > k ==>
      && r[c].pc.Running? && r[c].status.Started?
      && |r[c].wakes| == |s[c].wakes| + 1 && r[c].wakes == Served(r[c])
    ensures k + OwnTurns(turns, c) < 7 ==> |r[c].wakes| == |s[c].wakes|
    decreases |turns|
  {
    hide Inv, Do, Enabled, Served, HandlerAt;
    if turns != [] {
      var d, a := turns[0].c, turns[0].a;
      var t := FirstTurn(turns, s, r);
      if d == c {
        HandlerStep(s, c, a, k);
        HandlerWakes(turns[1..], t, r, c, k + 1);
        if k == 6 {
          StaysRunning(turns[1..], t, r, c);
          RunningIsServed(r, c);
        }
      } else {
        OthersLeavePc(s, d, a, c);
        HandlerWakes(turns[1..], t, r, c, k);
      }
    }
  }

  lemma {:induction false} StaysRunning(turns: seq<Turn>, s: State, r: State, c: nat)
    requires Inv(s) && RunTo(turns, s, r) && c < |s| && OwnTurns(turns, c) == 0
    ensures |r| == |s| && r[c].pc == s[c].pc && r[c].wakes == s[c].wakes && Inv(r)
  {
    hide Inv, Do, Enabled;
    if turns != [] {
      var t := FirstTurn(turns, s, r);
      OthersLeavePc(s, turns[0].c, turns[0].a, c);
      StaysRunning(turns[1..], t, r, c);
    }
  }

  lemma RunningIsServed(s: State, c: nat)
    requires Inv(s) && c < |s| && HandlerAt(s[c].pc, 7)
    ensures s[c].pc.Running? && s[c].status.Started? && s[c].wakes == Served(s[c])
  {
    Around(s, c);
  }

  // ---------- hart_start ----------

  /** While a hart holds a lock, no other touches what the lock protects, except that the boot code publishes its hart. */
  lemma LockProtects(s: State, d: nat, a: Action, c: nat, g: nat)
    requires Inv(s) && Enabled(s, d, a) && (s[d].pc.Start? ==> s[d].pc.g < |s|) && g < |s| && c != d && s[g].lock == By(c)
    ensures var t := Do(s, d, a);
      && |t| == |s| && t[g].lock == By(c) && t[g].claims == s[g].claims && t[g].msip == s[g].msip
      && (t[g].status == s[g].status || (s[g].status.Invalid? && t[g].status.Stopped?))
  {
    Around(s, d);
    Around(s, g);
    hide Inv, HartInv, WakesFollow;
    ProtectedAgainst(s, d, g);
    if a.Advance? && s[d].pc.Start? {
      hide LockExact, Settled;
      assert s[d].pc.g != g;
    } else {
      OwnFieldsKept(s, d, a, g);
    }
  }

  /** A hart outside the section of a lock that it does not hold. */
  lemma ProtectedAgainst(s: State, d: nat, g: nat)
    requires d < |s| && g < |s| && LockExact(s, d) && s[g].lock != By(d)
    ensures SectionOf(s[d].pc, d) != Of(g)
  {
  }

  lemma OwnFieldsKept(s: State, d: nat, a: Action, g: nat)
    requires Enabled(s, d, a) && g < |s| && !(a.Advance? && s[d].pc.Start?) && s[g].lock.By?
    requires d == g ==> SectionOf(s[d].pc, d) == Outside && OwnStatus(s[d])
    ensures var t := Do(s, d, a);
      && |t| == |s| && t[g].lock == s[g].lock && t[g].claims == s[g].claims && t[g].msip == s[g].msip
      && (t[g].status == s[g].status || (s[g].status.Invalid? && t[g].status.Stopped?))
  {
  }

  /** The steps of a hart_start that finds its hart stopped. */
  ghost function StartOrder(k: nat): StartAt {
    match k
    case 0 => ReadStatus
    case 1 => WriteStatus
    case 2 => WriteTarget
    case 3 => WriteMsip
    case _ => Unlock
  }

  /** Hart c has made k steps of a successful hart_start for g, whose earlier claims were `claims`. */
  ghost predicate Claiming(s: State, c: nat, g: nat, target: u64, k: nat, claims: seq<u64>)
    requires c < |s| && g < |s|
  {
    && s[c].pc == Start(g, target, StartOrder(k)) && s[g].lock == By(c)
    && (if k < 2 then s[g].status.Stopped? && s[g].claims == claims
        else s[g].status.Starting? && s[g].claims == claims + [target])
    && (k >= 4 ==> s[g].msip)
  }

  lemma ClaimStep(s: State, c: nat, a: Action, g: nat, target: u64, k: nat, claims: seq<u64>)
    requires Inv(s) && g < |s| && Enabled(s, c, a) && k < 4 && Claiming(s, c, g, target, k, claims)
    ensures var t := Do(s, c, a); |t| == |s| && Claiming(t, c, g, target, k + 1, claims)
  {
    Around(s, c);
    hide Inv, HartInv, WakesFollow;
  }

  /** In every interleaving, the turns of a hart_start that finds its hart STOPPED claim it: it is STARTING with one more
      claim, and its interrupt is set before the lock is given back. */
  lemma {:induction false} StartClaims(turns: seq<Turn>, s: State, r: State, c: nat, g: nat, target: u64, k: nat, claims: seq<u64>)
    requires Inv(s) && RunTo(turns, s, r) && c < |s| && g < |s| && Claiming(s, c, g, target, k, claims)
    requires k + OwnTurns(turns, c) <= 4
    ensures |r| == |s| && Claiming(r, c, g, target, k + OwnTurns(turns, c), claims)
    decreases |turns|
  {
    hide Inv, Do, Enabled;
    if turns != [] {
      var d, a := turns[0].c, turns[0].a;
      var t := FirstTurn(turns, s, r);
      if d == c {
        ClaimStep(s, c, a, g, target, k, claims);
        StartClaims(turns[1..], t, r, c, g, target, k + 1, claims);
      } else {
        OthersLeavePc(s, d, a, c);
        LockProtects(s, d, a, c, g);
        StartClaims(turns[1..], t, r, c, g, target, k, claims);
      }
    }
  }

  /** Its last turn gives the lock back, with the interrupt set. */
  lemma StartReturns(s: State, c: nat, a: Action, g: nat, target: u64, claims: seq<u64>)
    requires Inv(s) && g < |s| && Enabled(s, c, a) && Claiming(s, c, g, target, 4, claims)
    ensures var t := Do(s, c, a);
      && |t| == |s| && t[c].pc.Running? && t[g].lock.Free?
      && t[g].status.Starting? && t[g].msip && t[g].claims == claims + [target]
  {
  }

  /** A call of hart_start gets as far as its first step if the lock is free, and otherwise returns at once. It claims the
      hart exactly if it finds it STOPPED; if not, its next turns give the lock back and change nothing else. */
  lemma StartCall(s: State, c: nat, g: nat, target: u64)
    requires Inv(s) && c < |s| && g < |s| && s[c].pc.Running?
    ensures Enabled(s, c, CallStart(g, target))
    ensures var t := Do(s, c, CallStart(g, target));
      if !s[g].lock.Free? then t == s
      else if s[g].status.Stopped? then |t| == |s| && Claiming(t, c, g, target, 0, s[g].claims)
      else
        && |t| == |s| && Enabled(t, c, Advance) && t[c].pc.Start?
        && var u := Do(t, c, Advance);
           && Enabled(u, c, Advance) && u[c].pc.Start? && u[c].pc.g < |u|
           && Do(u, c, Advance) == s
  {
    Around(s, c);
    hide Inv, HartInv;
    if s[g].lock.Free? && !s[g].status.Stopped? {
      var t := Do(s, c, CallStart(g, target));
      var u := Do(t, c, Advance);
      var v := Do(u, c, Advance);
      assert c != g ==> t[g] == s[g].(lock := By(c)) && t[c] == s[c].(pc := Start(g, target, ReadStatus));
      assert v[c] == s[c] && v[g] == s[g];
      assert v == s;
    }
  }
}

/**
 The hart start and stop protocol of sbi/src/hart.c as a state machine: any number
 of harts take turns, one memory access at a time, in any order.

 Each hart has a lock, a status, a target address and a software-interrupt bit. The
 boot code of sbi/src/main.c that publishes a hart is part of the machine.
 */
module Hart {
  import opened Words

  datatype Status = Invalid | Stopped | Starting | Started

  /** Where hart_start is: before each of its accesses, with the lock of the other hart held. */
  datatype StartAt = ReadStatus | WriteStatus | WriteTarget | WriteMsip | Unlock

  datatype Pc =
    | BootStatus                                     // main: status = HS_STOPPED
    | BootTarget                                     // main: target_address = 0
    | BootReturn                                     // main: MRET to park
    | Parked                                         // waiting for a software interrupt
    | Running                                        // in the operating system
    | Start(g: nat, target: u64, at: StartAt)        // hart_start(g, target)
    | StopRead | StopWrite | StopUnlock | StopReturn // hart_stop
    | MsipLock | MsipClear | MsipRead | MsipTarget   // hart_handle_msip
    | MsipWrite(mepc: u64)
    | MsipUnlock(mepc: u64)
    | MsipReturn(mepc: u64)
    | MsipSkip                                       // unlock and return without a wake-up

  /** `claims` lists the targets of the successful hart_start calls for this hart, `wakes` the addresses at
      which it woke up. `cleared` says that its boot code cleared the target after a call had written it. */
  datatype Hart = Hart(
    lock: Lock, status: Status, target: u64, msip: bool, pc: Pc,
    claims: seq<u64>, wakes: seq<u64>, cleared: bool)

  type State = seq<Hart>

  /** A lock word with the hart that set it. */
  datatype Lock = Free | By(c: nat)

  datatype Action = CallStart(g: nat, target: u64) | CallStop | Interrupt | Advance

  ghost predicate Enabled(s: State, c: nat, a: Action) {
    c < |s| &&
    match a
    case CallStart(g, _) => s[c].pc.Running? && g < |s|
    case CallStop => s[c].pc.Running?
    case Interrupt => (s[c].pc.Parked? || s[c].pc.Running?) && s[c].msip
    case Advance => !s[c].pc.Parked? && !s[c].pc.Running? && (s[c].pc.MsipLock? ==> s[c].lock.Free?)
  }

  ghost function At(s: State, c: nat, pc: Pc): State
    requires c < |s|
  {
    s[c := s[c].(pc := pc)]
  }

  /** mutex_trylock on hart g's lock, by hart c; on failure the caller returns false. */
  ghost function TryLock(s: State, c: nat, g: nat, pc: Pc): State
    requires c < |s| && g < |s|
  {
    if s[g].lock.Free? then At(s[g := s[g].(lock := By(c))], c, pc) else s
  }

  ghost function Release(s: State, c: nat, g: nat, pc: Pc): State
    requires c < |s| && g < |s|
  {
    At(s[g := s[g].(lock := Free)], c, pc)
  }

  /** Hart c is in hart_start for g, before it writes the target. */
  ghost predicate AboutToAim(pc: Pc, g: nat) {
    pc.Start? && pc.g == g && pc.at.WriteTarget?
  }

  ghost predicate AimedLater(s: State, g: nat)
    requires g < |s|
  {
    s[g].lock.By? && s[g].lock.c < |s| && AboutToAim(s[s[g].lock.c].pc, g)
  }

  /** hart_start, sbi/src/hart.c:22-39 */
  ghost function StartStep(s: State, c: nat): State
    requires c < |s| && s[c].pc.Start? && s[c].pc.g < |s|
  {
    var Start(g, target, at) := s[c].pc;
    match at
    case ReadStatus => At(s, c, Start(g, target, if s[g].status.Stopped? then WriteStatus else Unlock))
    case WriteStatus =>
      var h := s[g].(status := Starting, claims := s[g].claims + [target]);
      At(s[g := h], c, Start(g, target, WriteTarget))
    case WriteTarget => At(s[g := s[g].(target := target)], c, Start(g, target, WriteMsip))
    case WriteMsip => At(s[g := s[g].(msip := true)], c, Start(g, target, Unlock))
    case Unlock => Release(s, c, g, Running)
  }

  /** hart_stop and hart_handle_msip, sbi/src/hart.c:42-83, and the end of main, sbi/src/main.c:51-63 */
  ghost function OwnStep(s: State, c: nat): State
    requires c < |s|
  {
    var h := s[c];
    match h.pc
    case BootStatus => s[c := h.(status := Stopped, pc := BootTarget)]
    case BootTarget => s[c := h.(target := 0, pc := BootReturn, cleared := h.status.Starting? && !AimedLater(s, c))]
    case BootReturn => At(s, c, Parked)
    case StopRead => if h.status.Started? then At(s, c, StopWrite) else At(s, c, Running)  // returns with the lock
    case StopWrite => s[c := h.(status := Stopped, pc := StopUnlock)]
    case StopUnlock => Release(s, c, c, StopReturn)
    case StopReturn => At(s, c, Parked)
    case MsipLock => TryLock(s, c, c, MsipClear)
    case MsipClear => s[c := h.(msip := false, pc := MsipRead)]
    case MsipRead => At(s, c, if h.status.Starting? then MsipTarget else MsipSkip)
    case MsipTarget => At(s, c, MsipWrite(h.target))
    case MsipWrite(mepc) => s[c := h.(status := Started, pc := MsipUnlock(mepc))]
    case MsipUnlock(mepc) => Release(s, c, c, MsipReturn(mepc))
    case MsipReturn(mepc) => s[c := h.(pc := Running, wakes := h.wakes + [mepc])]
    case MsipSkip => Release(s, c, c, Parked)
    case _ => s
  }

  ghost function Do(s: State, c: nat, a: Action): State
    requires Enabled(s, c, a) && (s[c].pc.Start? ==> s[c].pc.g < |s|)
  {
    match a
    case CallStart(g, target) => TryLock(s, c, g, Start(g, target, ReadStatus))
    case CallStop => TryLock(s, c, c, StopRead)
    case Interrupt => At(s, c, MsipLock)
    case Advance => if s[c].pc.Start? then StartStep(s, c) else OwnStep(s, c)
  }

  // ---------- the invariant ----------

  datatype Section = Outside | Of(g: nat)

  /** The hart whose lock protects what hart c is doing at code position `pc`. */
  ghost function SectionOf(pc: Pc, c: nat): Section {
    match pc
    case Start(g, _, _) => Of(g)
    case StopRead | StopWrite | StopUnlock => Of(c)
    case MsipClear | MsipRead | MsipTarget | MsipWrite(_) | MsipUnlock(_) | MsipSkip => Of(c)
    case _ => Outside
  }

  /** A hart inside a section holds that section's lock, and a lock that is set is held by a hart inside. */
  ghost predicate LockExact(s: State, g: nat)
    requires g < |s|
  {
    && (s[g].lock.By? ==> s[g].lock.c < |s| && SectionOf(s[s[g].lock.c].pc, s[g].lock.c) == Of(g))
    && (SectionOf(s[g].pc, g).Of? ==>
        SectionOf(s[g].pc, g).g < |s| && s[SectionOf(s[g].pc, g).g].lock == By(g))
  }

  /** What a hart's own position says about its status and its interrupt bit. */
  ghost predicate OwnStatus(h: Hart) {
    && (h.msip ==> h.status.Starting?)
    && match h.pc
       case BootStatus => h.status.Invalid?
       case BootTarget | BootReturn | Parked | StopReturn => h.status.Stopped? || h.status.Starting?
       case Running | Start(_, _, _) | StopRead | StopWrite => h.status.Started?
       case StopUnlock => h.status.Stopped?
       case MsipLock | MsipClear => h.status.Starting? && h.msip
       case MsipRead | MsipTarget | MsipWrite(_) => h.status.Starting? && !h.msip
       case MsipUnlock(_) | MsipReturn(_) => h.status.Started?
       case MsipSkip => false
  }

  /** Hart c is in hart_start for g, before it sets the interrupt bit. */
  ghost predicate Preparing(pc: Pc, g: nat) {
    pc.Start? && pc.g == g && (pc.at.WriteTarget? || pc.at.WriteMsip?)
  }

  /** A hart that is starting has its interrupt pending, unless its lock is held by the hart that is about to set
      it or by itself in the handler. */
  ghost predicate Pending(s: State, g: nat)
    requires g < |s|
  {
    s[g].status.Starting? ==>
      || s[g].msip
      || s[g].pc.MsipRead? || s[g].pc.MsipTarget? || s[g].pc.MsipWrite?
      || (s[g].lock.By? && s[g].lock.c < |s| && Preparing(s[s[g].lock.c].pc, g))
  }

  /** What a hart that is inside hart_start for g has seen. */
  ghost predicate StartSaw(s: State, c: nat)
    requires c < |s|
  {
    s[c].pc.Start? && s[c].pc.g < |s| ==>
      var h := s[s[c].pc.g];
      match s[c].pc.at
      case WriteStatus => h.status.Stopped?
      case WriteTarget => h.status.Starting? && !h.msip && h.claims != [] && h.claims[|h.claims| - 1] == s[c].pc.target
      case WriteMsip => h.status.Starting? && !h.msip
      case _ => true
  }

  /** The addresses at which the successful calls are served: their targets, except that a boot code which clears
      the first target leaves 0. */
  ghost function Served(h: Hart): (r: seq<u64>)
    ensures |r| == |h.claims|
  {
    if h.cleared && h.claims != [] then [0] + h.claims[1..] else h.claims
  }

  /** The address of a wake-up that is under way. */
  ghost function Waking(pc: Pc): seq<u64> {
    match pc
    case MsipWrite(mepc) => [mepc]
    case MsipUnlock(mepc) => [mepc]
    case MsipReturn(mepc) => [mepc]
    case _ => []
  }

  /** Wake-ups follow the successful calls one by one, each where its call is served. */
  ghost predicate WakesFollow(s: State, g: nat)
    requires g < |s|
  {
    var h := s[g];
    && (h.pc.BootStatus? || h.pc.BootTarget? ==> h.wakes == [] && !h.cleared)
    && (h.cleared ==> |h.claims| > if AimedLater(s, g) then 1 else 0)
    && if Waking(h.pc) != [] then Served(h) == h.wakes + Waking(h.pc)
       else if h.status.Starting? then
         && |h.claims| == |h.wakes| + 1 && h.wakes == Served(h)[..|h.wakes|]
         && (h.target == Served(h)[|h.wakes|] || AimedLater(s, g))
       else Served(h) == h.wakes
  }

  /** A step that leaves alone what the wake-ups of hart x depend on. */
  lemma WakesUnmoved(s: State, t: State, x: nat)
    requires x < |s| == |t| && WakesFollow(s, x) && AimedLater(t, x) == AimedLater(s, x)
    requires t[x] == s[x].(pc := t[x].pc, lock := t[x].lock, msip := t[x].msip, status := t[x].status)
    requires t[x].status.Starting? <==> s[x].status.Starting?
    requires Waking(t[x].pc) == Waking(s[x].pc)
    requires t[x].pc.BootStatus? || t[x].pc.BootTarget? ==> t[x].pc == s[x].pc
    ensures WakesFollow(t, x)
  {
  }

  ghost predicate HartInv(s: State, g: nat)
    requires g < |s|
  {
    LockExact(s, g) && Settled(s, g) && WakesFollow(s, g)
  }

  ghost predicate Settled(s: State, g: nat)
    requires g < |s|
  {
    OwnStatus(s[g]) && Pending(s, g) && StartSaw(s, g)
  }

  ghost predicate Inv(s: State) {
    forall g :: 0 <= g < |s| ==> HartInv(s, g)
  }

  /** Hart 0 runs; every other hart is in its boot code. */
  ghost predicate Initial(s: State) {
    forall g :: 0 <= g < |s| ==>
      && s[g].lock.Free? && !s[g].msip && s[g].claims == [] && s[g].wakes == [] && !s[g].cleared
      && (if g == 0 then s[g].pc == Running && s[g].status == Started else s[g].pc == BootStatus && s[g].status == Invalid)
  }

  lemma InitialHolds(s: State)
    requires Initial(s)
    ensures Inv(s)
  {
  }

  // ---------- every step keeps it ----------

  /** The harts that the invariant of hart x speaks of. */
  lemma Around(s: State, x: nat)
    requires Inv(s) && x < |s|
    ensures HartInv(s, x)
    ensures s[x].lock.By? ==> s[x].lock.c < |s| && HartInv(s, s[x].lock.c)
    ensures s[x].pc.Start? ==> s[x].pc.g < |s| && HartInv(s, s[x].pc.g)
  {
  }

  lemma TryLockSettles(s: State, c: nat, g: nat, pc: Pc, x: nat)
    requires Inv(s) && c < |s| && g < |s| && x < |s|
    requires
      || (s[c].pc.Running? && pc.Start? && pc.g == g && pc.at.ReadStatus?)
      || (s[c].pc.Running? && pc.StopRead? && g == c)
      || (s[c].pc.MsipLock? && pc.MsipClear? && g == c)
    ensures Settled(TryLock(s, c, g, pc), x)
  {
    hide Inv, WakesFollow;
    Around(s, x);
    Around(s, c);
    Around(s, g);
  }

  lemma TryLockWakes(s: State, c: nat, g: nat, pc: Pc, x: nat)
    requires Inv(s) && c < |s| && g < |s| && x < |s|
    requires
      || (s[c].pc.Running? && pc.Start? && pc.g == g && pc.at.ReadStatus?)
      || (s[c].pc.Running? && pc.StopRead? && g == c)
      || (s[c].pc.MsipLock? && pc.MsipClear? && g == c)
    ensures WakesFollow(TryLock(s, c, g, pc), x)
  {
    hide Inv, Settled, WakesFollow, Served;
    Around(s, x);
    Around(s, c);
    WakesUnmoved(s, TryLock(s, c, g, pc), x);
  }

  lemma ReleaseSettles(s: State, c: nat, g: nat, pc: Pc, x: nat)
    requires Inv(s) && c < |s| && g < |s| && x < |s|
    requires
      || (s[c].pc.Start? && s[c].pc.g == g && s[c].pc.at.Unlock? && pc.Running?)
      || (s[c].pc.StopUnlock? && g == c && pc.StopReturn?)
      || (s[c].pc.MsipUnlock? && g == c && pc == MsipReturn(s[c].pc.mepc))
    ensures Settled(Release(s, c, g, pc), x)
  {
    hide Inv, WakesFollow;
    Around(s, x);
    Around(s, c);
    Around(s, g);
  }

  lemma ReleaseWakes(s: State, c: nat, g: nat, pc: Pc, x: nat)
    requires Inv(s) && c < |s| && g < |s| && x < |s|
    requires
      || (s[c].pc.Start? && s[c].pc.g == g && s[c].pc.at.Unlock? && pc.Running?)
      || (s[c].pc.StopUnlock? && g == c && pc.StopReturn?)
      || (s[c].pc.MsipUnlock? && g == c && pc == MsipReturn(s[c].pc.mepc))
    ensures WakesFollow(Release(s, c, g, pc), x)
  {
    hide Inv, Settled, WakesFollow, Served;
    Around(s, x);
    Around(s, c);
    WakesUnmoved(s, Release(s, c, g, pc), x);
  }

  lemma StartSettles(s: State, c: nat, x: nat)
    requires Inv(s) && c < |s| && x < |s| && s[c].pc.Start? && (s[c].pc.at.ReadStatus? || s[c].pc.at.WriteStatus?)
    ensures s[c].pc.g < |s| && Settled(StartStep(s, c), x)
  {
    hide Inv, WakesFollow;
    Around(s, x);
    Around(s, c);
    Around(s, s[c].pc.g);
  }

  lemma StartWakes(s: State, c: nat, x: nat)
    requires Inv(s) && c < |s| && x < |s| && s[c].pc.Start? && (s[c].pc.at.ReadStatus? || s[c].pc.at.WriteStatus?)
    ensures s[c].pc.g < |s| && WakesFollow(StartStep(s, c), x)
  {
    hide Inv, WakesFollow, Served;
    Around(s, x);
    Around(s, c);
    if x == s[c].pc.g && s[c].pc.at.WriteStatus? {
      ClaimWakes(s, c, x);
    } else {
      hide Settled;
      WakesUnmoved(s, StartStep(s, c), x);
    }
  }

  /** The call that claims a stopped hart: all earlier calls have been served. */
  lemma ClaimWakes(s: State, c: nat, g: nat)
    requires c < |s| && g < |s| && HartInv(s, c) && HartInv(s, g) && s[c].pc.Start? && s[c].pc.g == g && s[c].pc.at.WriteStatus?
    ensures WakesFollow(StartStep(s, c), g)
  {
    hide Pending;
    var h, k := s[g], StartStep(s, c)[g];
    assert s[g].status.Stopped?;
    assert k.claims == h.claims + [s[c].pc.target];
    assert Served(k)[..|h.claims|] == Served(h);
  }

  lemma AimSettles(s: State, c: nat, x: nat)
    requires Inv(s) && c < |s| && x < |s| && s[c].pc.Start? && (s[c].pc.at.WriteTarget? || s[c].pc.at.WriteMsip?)
    ensures s[c].pc.g < |s| && Settled(StartStep(s, c), x)
  {
    hide Inv, WakesFollow;
    Around(s, x);
    Around(s, c);
    Around(s, s[c].pc.g);
  }

  lemma AimWakes(s: State, c: nat, x: nat)
    requires Inv(s) && c < |s| && x < |s| && s[c].pc.Start? && s[c].pc.at.WriteTarget?
    ensures s[c].pc.g < |s| && WakesFollow(StartStep(s, c), x)
  {
    hide Inv, WakesFollow, Served;
    Around(s, x);
    Around(s, c);
    if x == s[c].pc.g {
      AimedWakes(s, c, x);
    } else {
      hide Settled;
      WakesUnmoved(s, StartStep(s, c), x);
    }
  }

  lemma AimedWakes(s: State, c: nat, g: nat)
    requires c < |s| && g < |s| && HartInv(s, c) && HartInv(s, g) && s[c].pc.Start? && s[c].pc.g == g && s[c].pc.at.WriteTarget?
    ensures WakesFollow(StartStep(s, c), g)
  {
    hide Pending;
    LastServed(s[g]);
    ServedIsStable(s[g], StartStep(s, c)[g]);
    hide Served;
  }

  lemma LastServed(h: Hart)
    requires h.claims != [] && (h.cleared ==> |h.claims| > 1)
    ensures Served(h)[|h.claims| - 1] == h.claims[|h.claims| - 1]
  {
  }

  lemma FireWakes(s: State, c: nat, x: nat)
    requires Inv(s) && c < |s| && x < |s| && s[c].pc.Start? && s[c].pc.at.WriteMsip?
    ensures s[c].pc.g < |s| && WakesFollow(StartStep(s, c), x)
  {
    hide Inv, Settled, WakesFollow, Served;
    Around(s, x);
    Around(s, c);
    WakesUnmoved(s, StartStep(s, c), x);
  }

  lemma BootSettles(s: State, c: nat, x: nat)
    requires Inv(s) && c < |s| && x < |s| && (s[c].pc.BootStatus? || s[c].pc.BootTarget? || s[c].pc.BootReturn?)
    ensures Settled(OwnStep(s, c), x)
  {
    hide Inv, WakesFollow;
    Around(s, x);
    Around(s, c);
  }

  lemma BootWakes(s: State, c: nat, x: nat)
    requires Inv(s) && c < |s| && x < |s| && (s[c].pc.BootStatus? || s[c].pc.BootTarget? || s[c].pc.BootReturn?)
    ensures WakesFollow(OwnStep(s, c), x)
  {
    hide Inv;
    Around(s, x);
    Around(s, c);
  }

  lemma StopSettles(s: State, c: nat, x: nat)
    requires Inv(s) && c < |s| && x < |s| && (s[c].pc.StopRead? || s[c].pc.StopWrite? || s[c].pc.StopReturn?)
    ensures Settled(OwnStep(s, c), x)
  {
    hide Inv, WakesFollow;
    Around(s, x);
    Around(s, c);
  }

  lemma StopWakes(s: State, c: nat, x: nat)
    requires Inv(s) && c < |s| && x < |s| && (s[c].pc.StopRead? || s[c].pc.StopWrite? || s[c].pc.StopReturn?)
    ensures WakesFollow(OwnStep(s, c), x)
  {
    hide Inv, WakesFollow, Served;
    Around(s, x);
    Around(s, c);
    WakesUnmoved(s, OwnStep(s, c), x);
  }

  lemma MsipSettles(s: State, c: nat, x: nat)
    requires Inv(s) && c < |s| && x < |s|
    requires s[c].pc.MsipClear? || s[c].pc.MsipRead? || s[c].pc.MsipTarget? || s[c].pc.MsipWrite? || s[c].pc.MsipReturn?
    ensures Settled(OwnStep(s, c), x)
  {
    hide Inv, WakesFollow;
    Around(s, x);
    Around(s, c);
  }

  lemma MsipWakes(s: State, c: nat, x: nat)
    requires Inv(s) && c < |s| && x < |s|
    requires s[c].pc.MsipClear? || s[c].pc.MsipRead? || s[c].pc.MsipTarget? || s[c].pc.MsipWrite? || s[c].pc.MsipReturn?
    ensures WakesFollow(OwnStep(s, c), x)
  {
    hide Inv, WakesFollow, Served;
    Around(s, x);
    Around(s, c);
    if x == c && (s[c].pc.MsipTarget? || s[c].pc.MsipWrite? || s[c].pc.MsipReturn?) {
      OwnMsipWakes(s, c);
    } else {
      hide Settled;
      WakesUnmoved(s, OwnStep(s, c), x);
    }
  }

  lemma OwnMsipWakes(s: State, c: nat)
    requires c < |s| && HartInv(s, c) && (s[c].pc.MsipTarget? || s[c].pc.MsipWrite? || s[c].pc.MsipReturn?)
    ensures WakesFollow(OwnStep(s, c), c)
  {
    hide Served;
    var h := s[c];
    assert h.pc.MsipTarget? ==> Served(h) == Served(h)[..|h.wakes|] + [Served(h)[|h.wakes|]];
    ServedIsStable(h, OwnStep(s, c)[c]);
  }

  lemma ServedIsStable(h: Hart, k: Hart)
    requires h.claims == k.claims && h.cleared == k.cleared
    ensures Served(h) == Served(k)
  {
  }

  /** Locks stay exact, whatever the statuses are. */
  lemma StepKeepsLocks(s: State, c: nat, a: Action, x: nat)
    requires Inv(s) && Enabled(s, c, a) && x < |s| && (s[c].pc.Start? ==> s[c].pc.g < |s|)
    ensures LockExact(Do(s, c, a), x)
  {
    hide Inv, Settled, WakesFollow;
    Around(s, x);
    Around(s, c);
    StoppingIsStarted(s, c);
    if a.Advance? && s[c].pc.Start? {
      StartKeepsLocks(s, c, x);
    } else if a.Advance? {
      OwnKeepsLocks(s, c, x);
    }
  }

  lemma StoppingIsStarted(s: State, c: nat)
    requires Inv(s) && c < |s|
    ensures s[c].pc.StopRead? ==> s[c].status.Started?
  {
    Around(s, c);
  }

  lemma StartKeepsLocks(s: State, c: nat, x: nat)
    requires c < |s| && x < |s| && s[c].pc.Start? && s[c].pc.g < |s| && LockExact(s, x) && LockExact(s, c)
    ensures LockExact(StartStep(s, c), x)
  {
  }

  lemma OwnKeepsLocks(s: State, c: nat, x: nat)
    requires c < |s| && x < |s| && LockExact(s, x) && LockExact(s, c) && !s[c].pc.Start?
    requires s[c].pc.StopRead? ==> s[c].status.Started?
    requires !s[c].pc.Parked? && !s[c].pc.Running?
    ensures LockExact(OwnStep(s, c), x)
  {
    hide LockExact;
    var pc, t := s[c].pc, OwnStep(s, c);
    if pc.MsipLock? {
      LockingKeepsLocks(s, c, x);
    } else if pc.StopUnlock? || pc.MsipUnlock? || pc.MsipSkip? {
      ReleasingKeepsLocks(s, c, t[c].pc, x);
    } else {
      MovingKeepsLocks(s, t, c, x);
    }
  }

  lemma LockingKeepsLocks(s: State, c: nat, x: nat)
    requires c < |s| && x < |s| && LockExact(s, x) && LockExact(s, c) && s[c].pc.MsipLock?
    ensures LockExact(TryLock(s, c, c, MsipClear), x)
  {
  }

  lemma ReleasingKeepsLocks(s: State, c: nat, pc: Pc, x: nat)
    requires c < |s| && x < |s| && LockExact(s, x) && LockExact(s, c)
    requires SectionOf(s[c].pc, c) == Of(c) && SectionOf(pc, c) == Outside
    ensures LockExact(Release(s, c, c, pc), x)
  {
  }

  /** A step that stays in its section and touches no lock. */
  lemma MovingKeepsLocks(s: State, t: State, c: nat, x: nat)
    requires c < |s| == |t| && x < |s| && LockExact(s, x)
    requires forall y :: 0 <= y < |s| ==> t[y].lock == s[y].lock && SectionOf(t[y].pc, y) == SectionOf(s[y].pc, y)
    ensures LockExact(t, x)
  {
  }

  lemma StepKeepsInv(s: State, c: nat, a: Action)
    requires Inv(s) && Enabled(s, c, a)
    ensures s[c].pc.Start? ==> s[c].pc.g < |s|
    ensures Inv(Do(s, c, a)) && |Do(s, c, a)| == |s|
  {
    hide HartInv, WakesFollow;
    Around(s, c);
    forall x | 0 <= x < |s| ensures HartInv(Do(s, c, a), x) {
      StepKeepsHart(s, c, a, x);
    }
  }

  lemma StepKeepsHart(s: State, c: nat, a: Action, x: nat)
    requires Inv(s) && Enabled(s, c, a) && x < |s| && (s[c].pc.Start? ==> s[c].pc.g < |s|)
    ensures HartInv(Do(s, c, a), x)
  {
    Around(s, c);
    StepKeepsLocks(s, c, a, x);
    hide LockExact, Settled, WakesFollow;
    match a {
      case CallStart(g, target) =>
        TryLockSettles(s, c, g, Start(g, target, ReadStatus), x);
        TryLockWakes(s, c, g, Start(g, target, ReadStatus), x);
      case CallStop =>
        TryLockSettles(s, c, c, StopRead, x);
        TryLockWakes(s, c, c, StopRead, x);
      case Interrupt => InterruptKeeps(s, c, x);
      case Advance =>
        if s[c].pc.Start? {
          match s[c].pc.at {
            case Unlock =>
              ReleaseSettles(s, c, s[c].pc.g, Running, x);
              ReleaseWakes(s, c, s[c].pc.g, Running, x);
            case ReadStatus | WriteStatus =>
              StartSettles(s, c, x);
              StartWakes(s, c, x);
            case WriteTarget =>
              AimSettles(s, c, x);
              AimWakes(s, c, x);
            case WriteMsip =>
              AimSettles(s, c, x);
              FireWakes(s, c, x);
          }
        } else {
          match s[c].pc {
            case BootStatus | BootTarget | BootReturn =>
              BootSettles(s, c, x);
              BootWakes(s, c, x);
            case StopRead | StopWrite | StopReturn =>
              StopSettles(s, c, x);
              StopWakes(s, c, x);
            case StopUnlock =>
              ReleaseSettles(s, c, c, StopReturn, x);
              ReleaseWakes(s, c, c, StopReturn, x);
            case MsipLock =>
              TryLockSettles(s, c, c, MsipClear, x);
              TryLockWakes(s, c, c, MsipClear, x);
            case MsipUnlock(mepc) =>
              ReleaseSettles(s, c, c, MsipReturn(mepc), x);
              ReleaseWakes(s, c, c, MsipReturn(mepc), x);
            case MsipClear | MsipRead | MsipTarget | MsipWrite(_) | MsipReturn(_) =>
              MsipSettles(s, c, x);
              MsipWakes(s, c, x);
            case _ =>
          }
        }
    }
  }

  lemma InterruptKeeps(s: State, c: nat, x: nat)
    requires Inv(s) && Enabled(s, c, Interrupt) && x < |s|
    ensures HartInv(At(s, c, MsipLock), x)
  {
    hide Inv, WakesFollow, Served;
    Around(s, x);
    Around(s, c);
    WakesUnmoved(s, At(s, c, MsipLock), x);
  }

  // ---------- whole runs ----------

  datatype Turn = Turn(c: nat, a: Action)

  /** `r` is reached from `s` by these turns. */
  ghost predicate RunTo(turns: seq<Turn>, s: State, r: State) {
    if turns == [] then r == s
    else
      && Enabled(s, turns[0].c, turns[0].a)
      && (s[turns[0].c].pc.Start? ==> s[turns[0].c].pc.g < |s|)
      && RunTo(turns[1..], Do(s, turns[0].c, turns[0].a), r)
  }

  lemma {:induction false} RunKeepsInv(turns: seq<Turn>, s: State, r: State)
    requires Inv(s) && RunTo(turns, s, r)
    ensures Inv(r) && |r| == |s|
  {
    if turns != [] {
      StepKeepsInv(s, turns[0].c, turns[0].a);
      RunKeepsInv(turns[1..], Do(s, turns[0].c, turns[0].a), r);
    }
  }

  /** In every interleaving, two harts that are inside the section of the same lock are the same hart. */
  lemma MutualExclusion(turns: seq<Turn>, s: State, r: State, c: nat, d: nat, g: nat)
    requires Initial(s) && RunTo(turns, s, r) && c < |r| && d < |r|
    requires SectionOf(r[c].pc, c) == Of(g) && SectionOf(r[d].pc, d) == Of(g)
    ensures c == d
  {
    hide WakesFollow, Inv;
    InitialHolds(s);
    RunKeepsInv(turns, s, r);
    Around(r, c);
    Around(r, d);
  }

  /** In every interleaving, a hart that is starting and whose lock is free has its interrupt pending. */
  lemma StartingIsPending(turns: seq<Turn>, s: State, r: State, g: nat)
    requires Initial(s) && RunTo(turns, s, r) && g < |r|
    requires r[g].status.Starting? && r[g].lock.Free?
    ensures r[g].msip
  {
    hide WakesFollow, Inv;
    InitialHolds(s);
    RunKeepsInv(turns, s, r);
    Around(r, g);
  }

  /** In every interleaving, a hart that runs code or is about to stop is STARTED: hart_stop never takes the return
      at sbi/src/hart.c:46-48 that keeps the lock, and no interrupt finds its hart in another state than STARTING. */
  lemma RunningIsStarted(turns: seq<Turn>, s: State, r: State, c: nat)
    requires Initial(s) && RunTo(turns, s, r) && c < |r|
    ensures r[c].pc.Running? || r[c].pc.StopRead? ==> r[c].status.Started?
    ensures r[c].pc.MsipRead? ==> r[c].status.Starting?
    ensures !r[c].pc.MsipSkip?
  {
    hide WakesFollow, Inv;
    InitialHolds(s);
    RunKeepsInv(turns, s, r);
    Around(r, c);
  }

  /** A status only moves from INVALID to STOPPED to STARTING to STARTED to STOPPED. */
  lemma StatusMoves(s: State, c: nat, a: Action, x: nat)
    requires Inv(s) && Enabled(s, c, a) && x < |s| && (s[c].pc.Start? ==> s[c].pc.g < |s|)
    ensures var before, after := s[x].status, Do(s, c, a)[x].status;
      || after == before
      || (before.Invalid? && after.Stopped?)
      || (before.Stopped? && after.Starting?)
      || (before.Starting? && after.Started?)
      || (before.Started? && after.Stopped?)
  {
    hide Inv, WakesFollow, LockExact;
    Around(s, c);
  }

  /** In every interleaving and for every hart, the successful hart_start calls wake it once each, in order, where
      they are served, and all but the last call have had their wake-up. These addresses are the calls' targets
      unless the boot code cleared the first target, that hart has woken up, and the target was not 0 anyway. */
  lemma WakesAreClaims(turns: seq<Turn>, s: State, r: State, g: nat)
    requires Initial(s) && RunTo(turns, s, r) && g < |r|
    ensures r[g].wakes <= Served(r[g]) && |r[g].claims| <= |r[g].wakes| + 1
    ensures r[g].cleared ==> r[g].claims != []
    ensures r[g].wakes <= r[g].claims <==> !(r[g].cleared && r[g].wakes != [] && r[g].claims[0] != 0)
  {
    InitialHolds(s);
    RunKeepsInv(turns, s, r);
    Around(r, g);
  }

  // ---------- the boot window ----------

  /** main writes HS_STOPPED before it clears the target address, without the lock (sbi/src/main.c:51-52). A call
      that claims the hart in between is answered with success, and its hart wakes up at address 0. */
  lemma EarlyStartWakesAtZero(target: u64) returns (turns: seq<Turn>, s: State, r: State)
    ensures Initial(s) && RunTo(turns, s, r)
    ensures |r| == 2 && r[1].claims == [target] && r[1].wakes == [0]
  {
    var boot := Hart(Free, Invalid, 0, false, BootStatus, [], [], false);
    s := [boot.(status := Started, pc := Running), boot];
    var m;
    turns, m := ClaimInWindow(target, s);
    var more;
    more, r := WakeAfterWindow(target, m);
    RunsConcat(turns, s, m, more, r);
    turns := turns + more;
  }

  lemma ClaimInWindow(target: u64, a0: State) returns (turns: seq<Turn>, r: State)
    requires var boot := Hart(Free, Invalid, 0, false, BootStatus, [], [], false);
      a0 == [boot.(status := Started, pc := Running), boot]
    ensures RunTo(turns, a0, r)
    ensures r == [a0[0].(pc := Start(1, target, WriteMsip)),
      Hart(By(0), Starting, target, false, BootTarget, [target], [], false)]
  {
    var boot := a0[1];
    turns := [];
    var a1 := [a0[0], boot.(status := Stopped, pc := BootTarget)];
    var a2 := [a1[0].(pc := Start(1, target, ReadStatus)), a1[1].(lock := By(0))];
    var a3 := [a2[0].(pc := Start(1, target, WriteStatus)), a2[1]];
    var a4 := [a3[0].(pc := Start(1, target, WriteTarget)), a3[1].(status := Starting, claims := [target])];
    var a5 := [a4[0].(pc := Start(1, target, WriteMsip)), a4[1].(target := target)];
    turns := RunSnoc(turns, a0, a0, Turn(1, Advance), a1);
    turns := RunSnoc(turns, a0, a1, Turn(0, CallStart(1, target)), a2);
    turns := RunSnoc(turns, a0, a2, Turn(0, Advance), a3);
    assert [] + [target] == [target];
    turns := RunSnoc(turns, a0, a3, Turn(0, Advance), a4);
    turns := RunSnoc(turns, a0, a4, Turn(0, Advance), a5);
    r := a5;
  }

  lemma WakeAfterWindow(target: u64, b0: State) returns (turns: seq<Turn>, r: State)
    requires |b0| == 2 && b0[0] == Hart(Free, Started, 0, false, Start(1, target, WriteMsip), [], [], false)
    requires b0[1] == Hart(By(0), Starting, target, false, BootTarget, [target], [], false)
    ensures RunTo(turns, b0, r)
    ensures |r| == 2 && r[1].claims == [target] && r[1].wakes == [0]
  {
    turns := [];
    var b1 := [b0[0], b0[1].(target := 0, pc := BootReturn, cleared := true)];
    var b2 := [b1[0].(pc := Start(1, target, Unlock)), b1[1].(msip := true)];
    var b3 := [b2[0].(pc := Running), b2[1].(lock := Free)];
    var b4 := [b3[0], b3[1].(pc := Parked)];
    var b5 := [b4[0], b4[1].(pc := MsipLock)];
    turns := RunSnoc(turns, b0, b0, Turn(1, Advance), b1);
    turns := RunSnoc(turns, b0, b1, Turn(0, Advance), b2);
    turns := RunSnoc(turns, b0, b2, Turn(0, Advance), b3);
    turns := RunSnoc(turns, b0, b3, Turn(1, Advance), b4);
    turns := RunSnoc(turns, b0, b4, Turn(1, Interrupt), b5);
    var more;
    more, r := HandleInterrupt(target, b5);
    RunsConcat(turns, b0, b5, more, r);
    turns := turns + more;
  }

  lemma HandleInterrupt(target: u64, b5: State) returns (turns: seq<Turn>, r: State)
    requires |b5| == 2 && b5[1] == Hart(Free, Starting, 0, true, MsipLock, [target], [], true)
    ensures RunTo(turns, b5, r)
    ensures |r| == 2 && r[1].claims == [target] && r[1].wakes == [0]
  {
    turns := [];
    var b6 := [b5[0], b5[1].(lock := By(1), pc := MsipClear)];
    var b7 := [b6[0], b6[1].(msip := false, pc := MsipRead)];
    var b8 := [b7[0], b7[1].(pc := MsipTarget)];
    var b9 := [b8[0], b8[1].(pc := MsipWrite(0))];
    turns := RunSnoc(turns, b5, b5, Turn(1, Advance), b6);
    turns := RunSnoc(turns, b5, b6, Turn(1, Advance), b7);
    turns := RunSnoc(turns, b5, b7, Turn(1, Advance), b8);
    turns := RunSnoc(turns, b5, b8, Turn(1, Advance), b9);
    var more;
    more, r := FinishInterrupt(target, b9);
    RunsConcat(turns, b5, b9, more, r);
    turns := turns + more;
  }

  lemma FinishInterrupt(target: u64, b9: State) returns (turns: seq<Turn>, r: State)
    requires |b9| == 2 && b9[1] == Hart(By(1), Starting, 0, false, MsipWrite(0), [target], [], true)
    ensures RunTo(turns, b9, r)
    ensures |r| == 2 && r[1].claims == [target] && r[1].wakes == [0]
  {
    turns := [];
    var b10 := [b9[0], b9[1].(status := Started, pc := MsipUnlock(0))];
    var b11 := [b10[0], b10[1].(lock := Free, pc := MsipReturn(0))];
    var b12 := [b11[0], b11[1].(pc := Running, wakes := [0])];
    turns := RunSnoc(turns, b9, b9, Turn(1, Advance), b10);
    turns := RunSnoc(turns, b9, b10, Turn(1, Advance), b11);
    assert [] + [0] == [0];
    turns := RunSnoc(turns, b9, b11, Turn(1, Advance), b12);
    r := b12;
  }

  lemma RunSnoc(turns: seq<Turn>, s: State, m: State, t: Turn, r: State) returns (more: seq<Turn>)
    requires RunTo(turns, s, m) && Enabled(m, t.c, t.a) && (m[t.c].pc.Start? ==> m[t.c].pc.g < |m|)
    requires r == Do(m, t.c, t.a)
    ensures RunTo(more, s, r)
  {
    assert RunTo([], r, r);
    assert [t][1..] == [];
    RunsConcat(turns, s, m, [t], r);
    more := turns + [t];
  }

  lemma {:induction false} RunsConcat(a: seq<Turn>, s: State, m: State, b: seq<Turn>, r: State)
    requires RunTo(a, s, m) && RunTo(b, m, r)
    ensures RunTo(a + b, s, r)
  {
    if a == [] {
      assert a + b == b;
    } else {
      assert (a + b)[1..] == a[1..] + b;
      RunsConcat(a[1..], Do(s, a[0].c, a[0].a), m, b, r);
    }
  }
}

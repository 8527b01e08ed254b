/** The exclusive-section protocol of cpus-common.c.

    Any number of vCPU threads run `cpu_exec_start`/`cpu_exec_end` and
    `start_exclusive`/`end_exclusive` concurrently.  The model is a transition system with
    one transition per access to shared memory (`pending_cpus`, `running`, `has_waiter`),
    per lock operation and per condition-variable operation, interleaved arbitrarily.
    The full barriers at lines 194, 234 and 274 are what makes interleaving (sequential
    consistency) the right memory model. */
module ExclusiveProtocol {
  import opened Basics

  /** Where a thread stands.  A name says what the thread does NEXT. */
  datatype Pc =
    | Outside
      // cpu_exec_start
    | StartRead            // running is set; read pending_cpus
    | StartLock            // take qemu_cpu_list_lock
    | StartCheck           // read has_waiter
    | StartKeep            // counted by the requester: unlock and run
    | StartIdle            // running is cleared; exclusive_idle tests pending_cpus
    | StartWait(woken: bool)
    | StartRejoin          // pending_cpus was zero: set running again
    | StartLeave           // unlock and run
    | Executing
      // cpu_exec_end
    | EndRead              // running is cleared; read pending_cpus
    | EndLock
    | EndCheck             // read and clear has_waiter
    | EndDecrement
    | EndSignal            // signal exclusive_cond if pending_cpus == 1
    | EndUnlock
      // start_exclusive
    | RequestLock
    | RequestIdle          // exclusive_idle tests pending_cpus
    | RequestWait(woken: bool)
    | Claim                // set pending_cpus to 1
    | Scan(next: nat, found: nat)  // read running of CPU `next`; publish when past the last
    | Mark(next: nat, found: nat)  // it was running: set its has_waiter
    | Await                // test pending_cpus > 1
    | AwaitWait(woken: bool)
    | RequestUnlock
    | Exclusive            // start_exclusive has returned
      // end_exclusive
    | FinishLock
    | FinishClear          // set pending_cpus to 0
    | FinishBroadcast
    | FinishUnlock

  datatype Cpu = Cpu(running: bool, hasWaiter: bool, pc: Pc)

  datatype State = State(pending: int, lock: Option<nat>, cpus: seq<Cpu>)

  datatype Action =
    | EnterExec        // an idle thread calls cpu_exec_start
    | EnterExclusive   // an idle thread calls start_exclusive
    | Advance          // the thread performs its next access
    | SpuriousWake     // qemu_cond_wait returns without a signal

  /** No thread is anywhere near the protocol. */
  predicate Initial(s: State) {
    && s.pending == 0
    && s.lock == None
    && forall i :: 0 <= i < |s.cpus| ==> s.cpus[i] == Cpu(false, false, Outside)
  }

  // ----- transitions -----

  function Goto(s: State, t: nat, pc: Pc): State
    requires t < |s.cpus|
  {
    s.(cpus := s.cpus[t := s.cpus[t].(pc := pc)])
  }

  function Acquire(s: State, t: nat, pc: Pc): Option<State>
    requires t < |s.cpus|
  {
    if s.lock == None then Some(Goto(s, t, pc).(lock := Some(t))) else None
  }

  function Release(s: State, t: nat, pc: Pc): State
    requires t < |s.cpus|
  {
    Goto(s, t, pc).(lock := None)
  }

  function SetRunning(s: State, t: nat, running: bool, pc: Pc): State
    requires t < |s.cpus|
  {
    s.(cpus := s.cpus[t := s.cpus[t].(running := running, pc := pc)])
  }

  function SetWaiter(s: State, c: nat, hasWaiter: bool): State
    requires c < |s.cpus|
  {
    s.(cpus := s.cpus[c := s.cpus[c].(hasWaiter := hasWaiter)])
  }

  /** qemu_cond_signal(&exclusive_cond): wakes one sleeper of `exclusive_cond`, if any. */
  function Signal(cpus: seq<Cpu>, from: nat): (r: seq<Cpu>)
    requires from <= |cpus|
    ensures |r| == |cpus|
    decreases |cpus| - from
  {
    if from == |cpus| then cpus
    else if cpus[from].pc == AwaitWait(false) then cpus[from := cpus[from].(pc := AwaitWait(true))]
    else Signal(cpus, from + 1)
  }

  function WakeResume(c: Cpu): Cpu {
    if c.pc.StartWait? then c.(pc := StartWait(true))
    else if c.pc.RequestWait? then c.(pc := RequestWait(true))
    else c
  }

  /** qemu_cond_broadcast(&exclusive_resume) */
  function Broadcast(cpus: seq<Cpu>): (r: seq<Cpu>)
    ensures |r| == |cpus|
    ensures forall i :: 0 <= i < |cpus| ==> r[i] == WakeResume(cpus[i])
  {
    seq(|cpus|, i requires 0 <= i < |cpus| => WakeResume(cpus[i]))
  }

  /** cpu_exec_start, one access at a time */
  function StepStart(s: State, t: nat): Option<State>
    requires t < |s.cpus|
  {
    match s.cpus[t].pc
    case StartRead => Some(Goto(s, t, if s.pending != 0 then StartLock else Executing))
    case StartLock => Acquire(s, t, StartCheck)
    case StartCheck =>
      Some(if s.cpus[t].hasWaiter then Goto(s, t, StartKeep) else SetRunning(s, t, false, StartIdle))
    case StartKeep => Some(Release(s, t, Executing))
    case StartIdle =>
      Some(if s.pending != 0 then Release(s, t, StartWait(false)) else Goto(s, t, StartRejoin))
    case StartWait(woken) => if woken then Acquire(s, t, StartIdle) else None
    case StartRejoin => Some(SetRunning(s, t, true, StartLeave))
    case StartLeave => Some(Release(s, t, Executing))
    case _ => None
  }

  /** cpu_exec_end, one access at a time */
  function StepEnd(s: State, t: nat): Option<State>
    requires t < |s.cpus|
  {
    match s.cpus[t].pc
    case Executing => Some(SetRunning(s, t, false, EndRead))
    case EndRead => Some(Goto(s, t, if s.pending != 0 then EndLock else Outside))
    case EndLock => Acquire(s, t, EndCheck)
    case EndCheck =>
      Some(if s.cpus[t].hasWaiter then Goto(SetWaiter(s, t, false), t, EndDecrement) else Goto(s, t, EndUnlock))
    case EndDecrement => Some(Goto(s, t, EndSignal).(pending := s.pending - 1))
    case EndSignal =>
      Some(if s.pending == 1 then Goto(s.(cpus := Signal(s.cpus, 0)), t, EndUnlock) else Goto(s, t, EndUnlock))
    case EndUnlock => Some(Release(s, t, Outside))
    case _ => None
  }

  /** start_exclusive, one access at a time */
  function StepRequest(s: State, t: nat): Option<State>
    requires t < |s.cpus|
  {
    match s.cpus[t].pc
    case RequestLock => Acquire(s, t, RequestIdle)
    case RequestIdle =>
      Some(if s.pending != 0 then Release(s, t, RequestWait(false)) else Goto(s, t, Claim))
    case RequestWait(woken) => if woken then Acquire(s, t, RequestIdle) else None
    case Claim => Some(Goto(s, t, Scan(0, 0)).(pending := 1))
    case Scan(i, k) =>
      if i < |s.cpus| then Some(Goto(s, t, if s.cpus[i].running then Mark(i, k) else Scan(i + 1, k)))
      else Some(Goto(s, t, Await).(pending := k + 1))
    case Mark(i, k) => if i < |s.cpus| then Some(Goto(SetWaiter(s, i, true), t, Scan(i + 1, k + 1))) else None
    case Await =>
      Some(if s.pending > 1 then Release(s, t, AwaitWait(false)) else Goto(s, t, RequestUnlock))
    case AwaitWait(woken) => if woken then Acquire(s, t, Await) else None
    case RequestUnlock => Some(Release(s, t, Exclusive))
    case _ => None
  }

  /** end_exclusive, one access at a time */
  function StepFinish(s: State, t: nat): Option<State>
    requires t < |s.cpus|
  {
    match s.cpus[t].pc
    case Exclusive => Some(Goto(s, t, FinishLock))
    case FinishLock => Acquire(s, t, FinishClear)
    case FinishClear => Some(Goto(s, t, FinishBroadcast).(pending := 0))
    case FinishBroadcast => Some(Goto(s.(cpus := Broadcast(s.cpus)), t, FinishUnlock))
    case FinishUnlock => Some(Release(s, t, Outside))
    case _ => None
  }

  predicate InStart(pc: Pc) {
    pc.StartRead? || pc.StartLock? || pc.StartCheck? || pc.StartKeep? || pc.StartIdle? || pc.StartWait?
    || pc.StartRejoin? || pc.StartLeave?
  }

  predicate InEnd(pc: Pc) {
    pc.Executing? || pc.EndRead? || pc.EndLock? || pc.EndCheck? || pc.EndDecrement? || pc.EndSignal?
    || pc.EndUnlock?
  }

  predicate InFinish(pc: Pc) {
    pc.Exclusive? || pc.FinishLock? || pc.FinishClear? || pc.FinishBroadcast? || pc.FinishUnlock?
  }

  /** The state after thread `t` takes action `a`, or None when it cannot. */
  function Next(s: State, t: nat, a: Action): Option<State>
    requires t < |s.cpus|
  {
    var pc := s.cpus[t].pc;
    match a
    case EnterExec => if pc.Outside? then Some(SetRunning(s, t, true, StartRead)) else None
    case EnterExclusive => if pc.Outside? then Some(Goto(s, t, RequestLock)) else None
    case Advance =>
      if InStart(pc) then StepStart(s, t)
      else if InEnd(pc) then StepEnd(s, t)
      else if InFinish(pc) then StepFinish(s, t)
      else StepRequest(s, t)
    case SpuriousWake =>
      if pc == StartWait(false) then Some(Goto(s, t, StartWait(true)))
      else if pc == RequestWait(false) then Some(Goto(s, t, RequestWait(true)))
      else if pc == AwaitWait(false) then Some(Goto(s, t, AwaitWait(true)))
      else None
  }

  // ----- the inductive invariant -----

  /** The thread holds qemu_cpu_list_lock. */
  predicate Holds(pc: Pc) {
    pc.StartCheck? || pc.StartKeep? || pc.StartIdle? || pc.StartRejoin? || pc.StartLeave?
    || pc.EndCheck? || pc.EndDecrement? || pc.EndSignal? || pc.EndUnlock?
    || pc.RequestIdle? || pc.Claim? || pc.Scan? || pc.Mark? || pc.Await? || pc.RequestUnlock?
    || pc.FinishClear? || pc.FinishBroadcast? || pc.FinishUnlock?
  }

  /** `running` is true exactly here. */
  predicate RunningPc(pc: Pc) {
    pc.StartRead? || pc.StartLock? || pc.StartCheck? || pc.StartKeep? || pc.StartLeave? || pc.Executing?
  }

  /** A CPU counted in pending_cpus is here: it has yet to take the lock in cpu_exec_end. */
  predicate CountedPc(pc: Pc) {
    pc.StartRead? || pc.StartLock? || pc.StartCheck? || pc.StartKeep? || pc.Executing?
    || pc.EndRead? || pc.EndLock? || pc.EndCheck?
  }

  /** The thread owns the exclusive request: pending_cpus is nonzero because of it. */
  predicate Owns(pc: Pc) {
    pc.Scan? || pc.Mark? || pc.Await? || pc.AwaitWait? || pc.RequestUnlock?
    || pc.Exclusive? || pc.FinishLock? || pc.FinishClear?
  }

  predicate Scanning(pc: Pc) {
    pc.Scan? || pc.Mark?
  }

  /** From `start_exclusive` returning (its unlock) until `end_exclusive` clears pending_cpus. */
  predicate InExclusiveSection(pc: Pc) {
    pc.Exclusive? || pc.FinishLock? || pc.FinishClear?
  }

  /** The thread holds the lock and has seen (or made) pending_cpus zero. */
  predicate UnclaimedPc(pc: Pc) {
    pc.StartRejoin? || pc.StartLeave? || pc.Claim? || pc.FinishBroadcast? || pc.FinishUnlock?
  }

  function Waiters(cpus: seq<Cpu>): set<nat> {
    set i: nat | i < |cpus| && cpus[i].hasWaiter
  }

  /** One thread has cleared its has_waiter but not yet decremented pending_cpus. */
  predicate Decrementing(s: State) {
    s.lock.Some? && s.lock.value < |s.cpus| && s.cpus[s.lock.value].pc.EndDecrement?
  }

  predicate HolderAt(s: State, pc: Pc) {
    s.lock.Some? && s.lock.value < |s.cpus| && s.cpus[s.lock.value].pc == pc
  }

  /** What each thread's own fields say about its position. */
  ghost predicate LocalInv(s: State) {
    forall i :: 0 <= i < |s.cpus| ==> CpuOk(s, i, s.cpus[i])
  }

  predicate CpuOk(s: State, i: nat, c: Cpu) {
    && (Holds(c.pc) <==> s.lock == Some(i))
    && (c.running <==> RunningPc(c.pc))
    && (c.hasWaiter ==> CountedPc(c.pc) && s.pending != 0)
    && (c.pc.StartKeep? ==> c.hasWaiter)
    && (UnclaimedPc(c.pc) ==> s.pending == 0)
    && (c.pc.EndDecrement? || c.pc.EndSignal? ==> s.pending != 0)
  }

  ghost predicate LockInv(s: State) {
    s.lock.Some? ==> s.lock.value < |s.cpus|
  }

  /** pending_cpus is nonzero exactly while one thread owns the request. */
  ghost predicate OwnerInv(s: State) {
    && (s.pending != 0 <==> exists i :: OwnerAt(s, i))
    && (forall i, j :: OwnerAt(s, i) && OwnerAt(s, j) ==> i == j)
  }

  predicate OwnerAt(s: State, i: int) {
    0 <= i < |s.cpus| && Owns(s.cpus[i].pc)
  }

  /** A CPU the requester has looked at and did not count is not executing guest code. */
  ghost predicate QuietBelow(s: State, n: nat) {
    forall j :: 0 <= j < n && j < |s.cpus| && !s.cpus[j].hasWaiter ==> !s.cpus[j].pc.Executing?
  }

  ghost predicate CountInv(s: State) {
    forall o :: OwnerAt(s, o) ==> OwnerCount(s, o)
  }

  ghost predicate OwnerCount(s: State, o: nat)
    requires o < |s.cpus|
  {
    var pc := s.cpus[o].pc;
    if Scanning(pc) then
      && s.pending == 1
      && pc.next <= |s.cpus|
      && |Waiters(s.cpus)| == pc.found
      && QuietBelow(s, pc.next)
      && (forall i :: pc.next <= i < |s.cpus| ==> !s.cpus[i].hasWaiter)
      && (pc.Mark? ==> pc.next < |s.cpus| && CountedPc(s.cpus[pc.next].pc))
    else
      && s.pending == 1 + |Waiters(s.cpus)| + (if Decrementing(s) then 1 else 0)
      && QuietBelow(s, |s.cpus|)
      && (!pc.Await? && !pc.AwaitWait? ==> s.pending == 1)
  }

  /** No sleeper can miss its wake-up. */
  ghost predicate WakeInv(s: State) {
    forall i :: 0 <= i < |s.cpus| ==> WakeOk(s, s.cpus[i].pc)
  }

  predicate WakeOk(s: State, pc: Pc) {
    && (pc == AwaitWait(false) ==> s.pending > 1 || HolderAt(s, EndSignal))
    && (pc == StartWait(false) || pc == RequestWait(false) ==> s.pending != 0 || HolderAt(s, FinishBroadcast))
  }

  ghost predicate Inv(s: State) {
    LockInv(s) && LocalInv(s) && OwnerInv(s) && CountInv(s) && WakeInv(s)
  }

  lemma InitialInv(s: State)
    requires Initial(s)
    ensures Inv(s)
  {
  }

  /** Changing one CPU changes the set of counted CPUs at that CPU only. */
  lemma WaitersUpdate(cpus: seq<Cpu>, t: nat, c: Cpu)
    requires t < |cpus|
    ensures |Waiters(cpus[t := c])|
            == |Waiters(cpus)| + (if c.hasWaiter then 1 else 0) - (if cpus[t].hasWaiter then 1 else 0)
  {
    var ws := Waiters(cpus[t := c]);
    assert ws == if c.hasWaiter then Waiters(cpus) + {t} else Waiters(cpus) - {t};
  }

  lemma WaitersSame(cpus: seq<Cpu>, cpus': seq<Cpu>)
    requires |cpus| == |cpus'|
    requires forall i :: 0 <= i < |cpus| ==> cpus[i].hasWaiter == cpus'[i].hasWaiter
    ensures Waiters(cpus) == Waiters(cpus')
  {
  }

  /** Signal wakes nobody but one sleeper of exclusive_cond, and does wake one if there is one. */
  lemma {:induction false} SignalWakesOne(cpus: seq<Cpu>, from: nat)
    requires from <= |cpus|
    ensures var r := Signal(cpus, from);
            && (forall i :: 0 <= i < |cpus| && r[i] != cpus[i] ==>
                              cpus[i].pc == AwaitWait(false) && r[i] == cpus[i].(pc := AwaitWait(true)))
            && ((exists i :: from <= i < |cpus| && cpus[i].pc == AwaitWait(false)) ==> r != cpus)
    decreases |cpus| - from
  {
    if from < |cpus| {
      if cpus[from].pc == AwaitWait(false) {
        assert Signal(cpus, from)[from] != cpus[from];
      } else {
        SignalWakesOne(cpus, from + 1);
      }
    }
  }

  /** A step of `t` that leaves pending_cpus and every has_waiter alone. */
  ghost predicate Move(s: State, t: nat, s': State) {
    && t < |s.cpus|
    && s'.pending == s.pending
    && |s'.cpus| == |s.cpus|
    && s'.cpus == s.cpus[t := s'.cpus[t]]
    && s'.cpus[t].hasWaiter == s.cpus[t].hasWaiter
    && (s'.lock == s.lock || (s.lock == None && s'.lock == Some(t)) || (s.lock == Some(t) && s'.lock == None))
  }

  /** When such a step keeps the invariant: a condition on `t` alone. */
  predicate MoveOk(s: State, t: nat, s': State)
    requires t < |s.cpus| && t < |s'.cpus|
  {
    var pc, pc' := s.cpus[t].pc, s'.cpus[t].pc;
    && CpuOk(s', t, s'.cpus[t])
    && WakeOk(s', pc')
    && (Owns(pc) <==> Owns(pc'))
    && !pc.EndDecrement? && !pc'.EndDecrement? && !pc.EndSignal? && !pc.FinishBroadcast?
    && (pc'.Executing? ==> s.cpus[t].hasWaiter || s.pending == 0)
    && (CountedPc(pc) && s.pending != 0 && !Holds(pc) && !Holds(pc') ==> CountedPc(pc'))
  }

  lemma MoveLocal(s: State, t: nat, s': State)
    requires LockInv(s) && LocalInv(s) && Move(s, t, s') && MoveOk(s, t, s')
    ensures LockInv(s') && LocalInv(s')
    ensures Decrementing(s') <==> Decrementing(s)
  {
    forall i | 0 <= i < |s'.cpus|
      ensures CpuOk(s', i, s'.cpus[i])
    {
      assert CpuOk(s, i, s.cpus[i]);
    }
  }

  lemma MoveCount(s: State, t: nat, s': State)
    requires Inv(s) && Move(s, t, s') && MoveOk(s, t, s')
    requires Decrementing(s') <==> Decrementing(s)
    requires Owns(s.cpus[t].pc) ==> OwnerCount(s', t)
    ensures CountInv(s')
  {
    WaitersUpdate(s.cpus, t, s'.cpus[t]);
    forall o | OwnerAt(s', o)
      ensures OwnerCount(s', o)
    {
      assert CpuOk(s, o, s.cpus[o]) && CpuOk(s, t, s.cpus[t]);
      assert OwnerAt(s, o) && OwnerCount(s, o);
    }
  }

  lemma MoveWake(s: State, t: nat, s': State)
    requires LockInv(s) && LocalInv(s) && WakeInv(s) && Move(s, t, s') && MoveOk(s, t, s')
    ensures WakeInv(s')
  {
    assert CpuOk(s, t, s.cpus[t]);
    forall i | 0 <= i < |s'.cpus|
      ensures WakeOk(s', s'.cpus[i].pc)
    {
      assert WakeOk(s, s.cpus[i].pc);
    }
  }

  lemma MoveInv(s: State, t: nat, s': State)
    requires Inv(s) && Move(s, t, s') && MoveOk(s, t, s')
    requires Owns(s.cpus[t].pc) ==> OwnerCount(s', t)
    ensures Inv(s')
  {
    MoveLocal(s, t, s');
    SameOwner(s, s');
    MoveCount(s, t, s');
    MoveWake(s, t, s');
  }

  lemma StartMove(s: State, t: nat, s': State)
    requires t < |s.cpus| && CpuOk(s, t, s.cpus[t]) && StepStart(s, t) == Some(s')
    ensures Move(s, t, s') && MoveOk(s, t, s') && !Owns(s.cpus[t].pc)
  {
  }

  lemma EnterMove(s: State, t: nat, a: Action, s': State)
    requires t < |s.cpus| && CpuOk(s, t, s.cpus[t]) && a != Advance && Next(s, t, a) == Some(s')
    ensures Move(s, t, s') && MoveOk(s, t, s')
  {
  }

  lemma EndMove(s: State, t: nat, s': State)
    requires t < |s.cpus| && CpuOk(s, t, s.cpus[t]) && StepEnd(s, t) == Some(s')
    requires !s.cpus[t].pc.EndSignal? && !s.cpus[t].pc.EndDecrement?
    requires s.cpus[t].pc.EndCheck? ==> !s.cpus[t].hasWaiter
    ensures Move(s, t, s') && MoveOk(s, t, s') && !Owns(s.cpus[t].pc)
  {
  }

  /** The steps of start_exclusive other than its three writes. */
  predicate QuietRequest(s: State, pc: Pc) {
    !pc.Claim? && !pc.Mark? && (pc.Scan? ==> pc.next < |s.cpus|)
  }

  lemma RequestMove(s: State, t: nat, s': State)
    requires t < |s.cpus| && CpuOk(s, t, s.cpus[t]) && StepRequest(s, t) == Some(s')
    requires QuietRequest(s, s.cpus[t].pc)
    ensures Move(s, t, s') && MoveOk(s, t, s')
  {
  }

  lemma FinishMove(s: State, t: nat, s': State)
    requires t < |s.cpus| && CpuOk(s, t, s.cpus[t]) && StepFinish(s, t) == Some(s')
    requires !s.cpus[t].pc.FinishClear? && !s.cpus[t].pc.FinishBroadcast?
    ensures Move(s, t, s') && MoveOk(s, t, s')
  {
  }

  /** The requester's own quiet steps keep its count right. */
  lemma OwnerMove(s: State, t: nat, s': State)
    requires Inv(s) && Move(s, t, s') && OwnerAt(s, t)
    requires Decrementing(s') <==> Decrementing(s)
    requires var pc, pc' := s.cpus[t].pc, s'.cpus[t].pc;
             || (pc.Scan? && pc.next < |s.cpus|
                 && pc' == if s.cpus[pc.next].running then Mark(pc.next, pc.found) else Scan(pc.next + 1, pc.found))
             || (pc.Await? && (pc' == AwaitWait(false) || (s.pending <= 1 && pc' == RequestUnlock)))
             || (pc.AwaitWait? && (pc'.AwaitWait? || pc' == Await))
             || (!Scanning(pc) && !pc.Await? && !pc.AwaitWait? && Owns(pc') && !Scanning(pc'))
    ensures OwnerCount(s', t)
  {
    WaitersUpdate(s.cpus, t, s'.cpus[t]);
    assert OwnerCount(s, t);
    var pc := s.cpus[t].pc;
    if pc.Scan? {
      assert CpuOk(s, pc.next, s.cpus[pc.next]);
    }
  }

  lemma StartInv(s: State, t: nat, s': State)
    requires Inv(s) && t < |s.cpus| && StepStart(s, t) == Some(s')
    ensures |s'.cpus| == |s.cpus| && Inv(s')
  {
    StartMove(s, t, s');
    MoveInv(s, t, s');
  }

  lemma EnterInv(s: State, t: nat, a: Action, s': State)
    requires Inv(s) && t < |s.cpus| && a != Advance && Next(s, t, a) == Some(s')
    ensures |s'.cpus| == |s.cpus| && Inv(s')
  {
    EnterMove(s, t, a, s');
    MoveLocal(s, t, s');
    if Owns(s.cpus[t].pc) {
      OwnerMove(s, t, s');
    }
    MoveInv(s, t, s');
  }

  lemma SameOwner(s: State, s': State)
    requires OwnerInv(s) && (s'.pending != 0 <==> s.pending != 0)
    requires forall i :: OwnerAt(s', i) <==> OwnerAt(s, i)
    ensures OwnerInv(s')
  {
    if s.pending != 0 {
      var o :| OwnerAt(s, o);
      assert OwnerAt(s', o);
    }
  }

  lemma ClearWaiterInv(s: State, t: nat, s': State)
    requires Inv(s) && t < |s.cpus| && StepEnd(s, t) == Some(s')
    requires s.cpus[t].pc.EndCheck? && s.cpus[t].hasWaiter
    ensures |s'.cpus| == |s.cpus| && Inv(s')
  {
    WaitersUpdate(s.cpus, t, s.cpus[t].(hasWaiter := false));
    WaitersUpdate(SetWaiter(s, t, false).cpus, t, s'.cpus[t]);
    assert s'.cpus == s.cpus[t := s'.cpus[t]];
    SameOwner(s, s');
  }

  lemma DecrementInv(s: State, t: nat, s': State)
    requires Inv(s) && t < |s.cpus| && StepEnd(s, t) == Some(s') && s.cpus[t].pc.EndDecrement?
    ensures |s'.cpus| == |s.cpus| && Inv(s')
  {
    var o :| OwnerAt(s, o);
    assert OwnerCount(s, o);
    SameOwner(s, s');
    WaitersUpdate(s.cpus, t, s'.cpus[t]);
  }

  lemma OwnerWoken(s: State)
    requires OwnerInv(s)
    ensures forall i :: 0 <= i < |s.cpus| ==> Signal(s.cpus, 0)[i].pc != AwaitWait(false)
  {
    SignalWakesOne(s.cpus, 0);
    forall i | 0 <= i < |s.cpus|
      ensures Signal(s.cpus, 0)[i].pc != AwaitWait(false)
    {
      if s.cpus[i].pc == AwaitWait(false) {
        var j :| 0 <= j < |s.cpus| && Signal(s.cpus, 0)[j] != s.cpus[j];
        assert OwnerAt(s, i) && OwnerAt(s, j);
      }
    }
  }

  lemma SignalShape(s: State, t: nat, s': State)
    requires t < |s.cpus| && StepEnd(s, t) == Some(s') && s.cpus[t].pc.EndSignal?
    ensures |s'.cpus| == |s.cpus| && s'.lock == s.lock && s'.pending == s.pending
    ensures s'.cpus[t] == s.cpus[t].(pc := EndUnlock)
    ensures forall i :: 0 <= i < |s.cpus| && i != t && s'.cpus[i] != s.cpus[i] ==>
                          s.cpus[i].pc == AwaitWait(false) && s'.cpus[i] == s.cpus[i].(pc := AwaitWait(true))
  {
    SignalWakesOne(s.cpus, 0);
  }

  lemma SignalLocal(s: State, t: nat, s': State)
    requires LockInv(s) && LocalInv(s)
    requires t < |s.cpus| && StepEnd(s, t) == Some(s') && s.cpus[t].pc.EndSignal?
    ensures |s'.cpus| == |s.cpus| && LockInv(s') && LocalInv(s')
    ensures forall i :: OwnerAt(s', i) <==> OwnerAt(s, i)
    ensures forall i :: 0 <= i < |s.cpus| ==> s'.cpus[i].hasWaiter == s.cpus[i].hasWaiter
    ensures forall i :: 0 <= i < |s.cpus| && i != t && s'.cpus[i] != s.cpus[i] ==> s'.cpus[i].pc == AwaitWait(true)
  {
    SignalShape(s, t, s');
    forall i | 0 <= i < |s'.cpus|
      ensures CpuOk(s', i, s'.cpus[i]) && (OwnerAt(s', i) <==> OwnerAt(s, i))
    {
      assert CpuOk(s, i, s.cpus[i]);
    }
  }

  lemma SignalInv(s: State, t: nat, s': State)
    requires Inv(s) && t < |s.cpus| && StepEnd(s, t) == Some(s') && s.cpus[t].pc.EndSignal?
    ensures |s'.cpus| == |s.cpus| && Inv(s')
  {
    SignalLocal(s, t, s');
    SameOwner(s, s');
    WaitersSame(s.cpus, s'.cpus);
    SignalWakesOne(s.cpus, 0);
    OwnerWoken(s);
    forall i | 0 <= i < |s.cpus|
      ensures WakeOk(s', s'.cpus[i].pc)
    {
      assert WakeOk(s, s.cpus[i].pc) && CpuOk(s, i, s.cpus[i]) && CpuOk(s, t, s.cpus[t]);
    }
    forall o | OwnerAt(s', o)
      ensures OwnerCount(s', o)
    {
      assert OwnerAt(s, o) && OwnerCount(s, o) && CpuOk(s, o, s.cpus[o]) && CpuOk(s, t, s.cpus[t]);
    }
  }

  lemma EndInv(s: State, t: nat, s': State)
    requires Inv(s) && t < |s.cpus| && StepEnd(s, t) == Some(s')
    ensures |s'.cpus| == |s.cpus| && Inv(s')
  {
    var pc := s.cpus[t].pc;
    if pc.EndSignal? {
      SignalInv(s, t, s');
    } else if pc.EndDecrement? {
      DecrementInv(s, t, s');
    } else if pc.EndCheck? && s.cpus[t].hasWaiter {
      ClearWaiterInv(s, t, s');
    } else {
      EndMove(s, t, s');
      MoveInv(s, t, s');
    }
  }

  lemma ClaimInv(s: State, t: nat, s': State)
    requires Inv(s) && t < |s.cpus| && StepRequest(s, t) == Some(s') && s.cpus[t].pc.Claim?
    ensures |s'.cpus| == |s.cpus| && Inv(s')
  {
    assert Waiters(s'.cpus) == {};
    forall i
      ensures OwnerAt(s', i) <==> i == t
    {
      assert !OwnerAt(s, i);
    }
    assert OwnerAt(s', t);
  }

  lemma MarkLocal(s: State, t: nat, s': State)
    requires LockInv(s) && LocalInv(s) && CountInv(s) && WakeInv(s)
    requires t < |s.cpus| && StepRequest(s, t) == Some(s') && s.cpus[t].pc.Mark?
    ensures |s'.cpus| == |s.cpus| && LockInv(s') && LocalInv(s') && WakeInv(s')
    ensures forall i :: OwnerAt(s', i) <==> OwnerAt(s, i)
  {
    var n := s.cpus[t].pc.next;
    assert OwnerAt(s, t) && OwnerCount(s, t) && CpuOk(s, t, s.cpus[t]);
    forall i | 0 <= i < |s.cpus|
      ensures CpuOk(s', i, s'.cpus[i]) && WakeOk(s', s'.cpus[i].pc)
    {
      assert CpuOk(s, i, s.cpus[i]) && WakeOk(s, s.cpus[i].pc);
    }
  }

  lemma MarkInv(s: State, t: nat, s': State)
    requires Inv(s) && t < |s.cpus| && StepRequest(s, t) == Some(s') && s.cpus[t].pc.Mark?
    ensures |s'.cpus| == |s.cpus| && Inv(s')
  {
    var i := s.cpus[t].pc.next;
    MarkLocal(s, t, s');
    SameOwner(s, s');
    assert OwnerAt(s, t) && OwnerCount(s, t);
    WaitersUpdate(s.cpus, i, s.cpus[i].(hasWaiter := true));
    WaitersUpdate(SetWaiter(s, i, true).cpus, t, s'.cpus[t]);
    assert OwnerCount(s', t);
  }

  lemma PublishInv(s: State, t: nat, s': State)
    requires Inv(s) && t < |s.cpus| && StepRequest(s, t) == Some(s')
    requires s.cpus[t].pc.Scan? && s.cpus[t].pc.next >= |s.cpus|
    ensures |s'.cpus| == |s.cpus| && Inv(s')
  {
    assert OwnerAt(s, t) && OwnerCount(s, t);
    WaitersUpdate(s.cpus, t, s'.cpus[t]);
    SameOwner(s, s');
  }

  lemma RequestInv(s: State, t: nat, s': State)
    requires Inv(s) && t < |s.cpus| && StepRequest(s, t) == Some(s')
    ensures |s'.cpus| == |s.cpus| && Inv(s')
  {
    var pc := s.cpus[t].pc;
    if pc.Claim? {
      ClaimInv(s, t, s');
    } else if pc.Mark? {
      MarkInv(s, t, s');
    } else if pc.Scan? && pc.next >= |s.cpus| {
      PublishInv(s, t, s');
    } else {
      RequestMove(s, t, s');
      MoveLocal(s, t, s');
      if Owns(pc) {
        OwnerMove(s, t, s');
      }
      MoveInv(s, t, s');
    }
  }

  lemma ClearInv(s: State, t: nat, s': State)
    requires Inv(s) && t < |s.cpus| && StepFinish(s, t) == Some(s') && s.cpus[t].pc.FinishClear?
    ensures |s'.cpus| == |s.cpus| && Inv(s')
  {
    assert OwnerCount(s, t);
    assert Waiters(s.cpus) == {};
    forall i | 0 <= i < |s.cpus|
      ensures !s.cpus[i].hasWaiter
    {
      assert i !in Waiters(s.cpus);
    }
    forall i
      ensures !OwnerAt(s', i)
    {
      assert OwnerAt(s, t) && (OwnerAt(s, i) ==> i == t);
    }
  }

  lemma BroadcastInv(s: State, t: nat, s': State)
    requires Inv(s) && t < |s.cpus| && StepFinish(s, t) == Some(s') && s.cpus[t].pc.FinishBroadcast?
    ensures |s'.cpus| == |s.cpus| && Inv(s')
  {
    WaitersSame(s.cpus, s'.cpus);
    assert CpuOk(s, t, s.cpus[t]);
    forall i | 0 <= i < |s.cpus|
      ensures CpuOk(s', i, s'.cpus[i]) && WakeOk(s', s'.cpus[i].pc) && !OwnerAt(s', i)
    {
      assert CpuOk(s, i, s.cpus[i]) && WakeOk(s, s.cpus[i].pc) && !OwnerAt(s, i);
    }
  }

  lemma FinishInv(s: State, t: nat, s': State)
    requires Inv(s) && t < |s.cpus| && StepFinish(s, t) == Some(s')
    ensures |s'.cpus| == |s.cpus| && Inv(s')
  {
    var pc := s.cpus[t].pc;
    if pc.FinishClear? {
      ClearInv(s, t, s');
    } else if pc.FinishBroadcast? {
      BroadcastInv(s, t, s');
    } else {
      FinishMove(s, t, s');
      MoveLocal(s, t, s');
      if Owns(pc) {
        OwnerMove(s, t, s');
      }
      MoveInv(s, t, s');
    }
  }

  lemma NextInv(s: State, t: nat, a: Action, s': State)
    requires Inv(s) && t < |s.cpus| && Next(s, t, a) == Some(s')
    ensures |s'.cpus| == |s.cpus| && Inv(s')
  {
    var pc := s.cpus[t].pc;
    if a != Advance {
      EnterInv(s, t, a, s');
    } else if InStart(pc) {
      StartInv(s, t, s');
    } else if InEnd(pc) {
      EndInv(s, t, s');
    } else if InFinish(pc) {
      FinishInv(s, t, s');
    } else {
      RequestInv(s, t, s');
    }
  }

  // ----- whole runs -----

  predicate CanStep(s: State, s': State) {
    exists t: nat, a :: t < |s.cpus| && Next(s, t, a) == Some(s')
  }

  /** A run of any number of threads: any interleaving of their actions from the initial state. */
  ghost predicate IsRun(run: seq<State>) {
    && |run| > 0
    && Initial(run[0])
    && forall k :: 0 <= k < |run| - 1 ==> CanStep(run[k], run[k + 1])
  }

  lemma {:induction false} RunInv(run: seq<State>, k: nat)
    requires IsRun(run) && k < |run|
    ensures Inv(run[k]) && |run[k].cpus| == |run[0].cpus|
  {
    if k == 0 {
      InitialInv(run[0]);
    } else {
      RunInv(run, k - 1);
      assert CanStep(run[k - 1], run[k - 1 + 1]);
      var t: nat, a :| t < |run[k - 1].cpus| && Next(run[k - 1], t, a) == Some(run[k]);
      NextInv(run[k - 1], t, a, run[k]);
    }
  }

  /** While one thread is in its exclusive section, no CPU executes guest code and no other
      thread is in an exclusive section: for any number of CPUs, any interleaving, any time. */
  lemma MutualExclusion(run: seq<State>, k: nat, x: nat)
    requires IsRun(run) && k < |run|
    requires x < |run[k].cpus| && InExclusiveSection(run[k].cpus[x].pc)
    ensures forall c :: 0 <= c < |run[k].cpus| ==> !run[k].cpus[c].pc.Executing?
    ensures forall y :: 0 <= y < |run[k].cpus| && InExclusiveSection(run[k].cpus[y].pc) ==> y == x
  {
    var s := run[k];
    RunInv(run, k);
    assert OwnerAt(s, x) && OwnerCount(s, x);
    assert Waiters(s.cpus) == {};
    forall c | 0 <= c < |s.cpus|
      ensures !s.cpus[c].pc.Executing?
    {
      assert c !in Waiters(s.cpus);
    }
    forall y | 0 <= y < |s.cpus| && InExclusiveSection(s.cpus[y].pc)
      ensures y == x
    {
      assert OwnerAt(s, y);
    }
  }

  /** Whenever the lock is free and a request is pending, pending_cpus counts the requester
      and the CPUs with has_waiter, each of which has yet to take the lock in cpu_exec_end. */
  lemma PendingCount(run: seq<State>, k: nat)
    requires IsRun(run) && k < |run| && run[k].lock == None && run[k].pending != 0
    ensures run[k].pending == 1 + |Waiters(run[k].cpus)|
    ensures forall c :: 0 <= c < |run[k].cpus| && run[k].cpus[c].hasWaiter ==> CountedPc(run[k].cpus[c].pc)
  {
    var s := run[k];
    RunInv(run, k);
    var o :| OwnerAt(s, o);
    assert OwnerCount(s, o) && CpuOk(s, o, s.cpus[o]);
    forall c | 0 <= c < |s.cpus| && s.cpus[c].hasWaiter
      ensures CountedPc(s.cpus[c].pc)
    {
      assert CpuOk(s, c, s.cpus[c]);
    }
  }

  /** A counted CPU stays counted until it runs the has_waiter branch of its own cpu_exec_end. */
  lemma CountedUntilEnd(s: State, t: nat, a: Action, s': State, c: nat)
    requires Inv(s) && t < |s.cpus| && Next(s, t, a) == Some(s')
    requires c < |s.cpus| && s.cpus[c].hasWaiter
    ensures |s'.cpus| == |s.cpus|
    ensures s'.cpus[c].hasWaiter || (t == c && s.cpus[c].pc.EndCheck? && s'.cpus[c].pc.EndDecrement?)
  {
    var pc := s.cpus[t].pc;
    assert CpuOk(s, t, s.cpus[t]);
    if a != Advance {
      EnterMove(s, t, a, s');
    } else if InStart(pc) {
      StartMove(s, t, s');
    } else if pc.EndSignal? {
      SignalShape(s, t, s');
    }
  }

  // ----- progress: nobody is stranded -----

  predicate Quiescent(s: State) {
    forall i :: 0 <= i < |s.cpus| ==> s.cpus[i].pc.Outside?
  }

  /** A thread that sleeps and has not been woken. */
  predicate Asleep(pc: Pc) {
    pc == StartWait(false) || pc == RequestWait(false) || pc == AwaitWait(false)
  }

  /** With the lock free, every thread inside the protocol that is not asleep can move. */
  lemma AwakeMoves(s: State, t: nat)
    requires Inv(s) && t < |s.cpus|
    requires !s.cpus[t].pc.Outside? && !Asleep(s.cpus[t].pc)
    requires s.lock == None || s.lock == Some(t)
    ensures Next(s, t, Advance).Some?
  {
    assert CpuOk(s, t, s.cpus[t]);
    if s.cpus[t].pc.Mark? {
      assert OwnerAt(s, t) && OwnerCount(s, t);
    }
  }

  /** Somebody who can have the lock is awake: its holder; and with the lock free, a sleeper implies a
      request, an unsatisfied request implies a counted CPU, and a counted CPU never sleeps. */
  lemma SomeoneAwake(s: State) returns (t: nat)
    requires Inv(s) && !Quiescent(s)
    ensures t < |s.cpus| && !s.cpus[t].pc.Outside? && !Asleep(s.cpus[t].pc) && (s.lock == None || s.lock == Some(t))
  {
    if s.lock.Some? {
      t := s.lock.value;
      assert CpuOk(s, t, s.cpus[t]);
      return;
    }
    var i: nat :| i < |s.cpus| && !s.cpus[i].pc.Outside?;
    t := i;
    if Asleep(s.cpus[i].pc) {
      assert WakeOk(s, s.cpus[i].pc);
      var o :| OwnerAt(s, o);
      t := o;
      if Asleep(s.cpus[o].pc) {
        assert WakeOk(s, s.cpus[o].pc) && OwnerCount(s, o);
        assert Waiters(s.cpus) != {};
        t :| t in Waiters(s.cpus);
        assert CpuOk(s, t, s.cpus[t]);
      }
    }
  }

  /** No deadlock, without any help from spurious wake-ups or new callers. */
  lemma SomeoneMoves(s: State) returns (t: nat)
    requires Inv(s) && !Quiescent(s)
    ensures t < |s.cpus| && Next(s, t, Advance).Some?
  {
    t := SomeoneAwake(s);
    AwakeMoves(s, t);
  }

  /** Steps a thread has left before it sleeps or leaves, if nobody wakes it again. */
  function Rank(pc: Pc, n: nat): int {
    match pc
    case Outside => 0
    case StartRead => 15
    case StartLock => 14
    case StartCheck => 13
    case StartKeep => 10
    case StartIdle => 12
    case StartWait(woken) => if woken then 13 else 0
    case StartRejoin => 11
    case StartLeave => 10
    case Executing => 9
    case EndRead => 8
    case EndLock => 7
    case EndCheck => 6
    case EndDecrement => 5
    case EndSignal => 4
    case EndUnlock => 1
    case RequestLock => 11 + 2 * n
    case RequestIdle => 10 + 2 * n
    case RequestWait(woken) => if woken then 11 + 2 * n else 0
    case Claim => 9 + 2 * n
    case Scan(i, _) => if i <= n then 8 + 2 * (n - i) else 8
    case Mark(i, _) => if i <= n then 7 + 2 * (n - i) else 7
    case Await => 7
    case AwaitWait(woken) => if woken then 8 else 6
    case RequestUnlock => 6
    case Exclusive => 5
    case FinishLock => 4
    case FinishClear => 3
    case FinishBroadcast => 2
    case FinishUnlock => 1
  }

  /** The thread has an exclusive request whose closing broadcast is still to come. */
  predicate Requesting(pc: Pc) {
    Owns(pc) || pc.RequestLock? || pc.RequestIdle? || pc.RequestWait? || pc.Claim? || pc.FinishBroadcast?
  }

  /** A broadcast may wake everybody, so a request outweighs all the steps it can cause. */
  function RequestWeight(n: nat): nat {
    n * (15 + 2 * n)
  }

  function Weight(pc: Pc, n: nat): (w: int)
    ensures w >= 0
  {
    Rank(pc, n) + (if Requesting(pc) then RequestWeight(n) else 0)
  }

  function Total(cpus: seq<Cpu>, n: nat): nat {
    if cpus == [] then 0 else Total(cpus[..|cpus| - 1], n) + Weight(cpus[|cpus| - 1].pc, n)
  }

  lemma {:induction false} TotalUpdate(cpus: seq<Cpu>, n: nat, t: nat, c: Cpu)
    requires t < |cpus|
    ensures Total(cpus[t := c], n) == Total(cpus, n) - Weight(cpus[t].pc, n) + Weight(c.pc, n)
  {
    var last := |cpus| - 1;
    if t == last {
      assert cpus[t := c][..last] == cpus[..last];
    } else {
      assert cpus[t := c][..last] == cpus[..last][t := c];
      TotalUpdate(cpus[..last], n, t, c);
    }
  }

  lemma {:induction false} TotalSignal(cpus: seq<Cpu>, n: nat, from: nat)
    requires from <= |cpus|
    ensures Total(Signal(cpus, from), n) <= Total(cpus, n) + 2
    decreases |cpus| - from
  {
    if from < |cpus| {
      if cpus[from].pc == AwaitWait(false) {
        TotalUpdate(cpus, n, from, cpus[from].(pc := AwaitWait(true)));
      } else {
        TotalSignal(cpus, n, from + 1);
      }
    }
  }

  lemma {:induction false} TotalBroadcast(cpus: seq<Cpu>, n: nat)
    ensures Total(Broadcast(cpus), n) <= Total(cpus, n) + |cpus| * (15 + 2 * n)
  {
    if cpus != [] {
      var last := |cpus| - 1;
      assert Broadcast(cpus)[..last] == Broadcast(cpus[..last]);
      TotalBroadcast(cpus[..last], n);
      assert |cpus| * (15 + 2 * n) == last * (15 + 2 * n) + (15 + 2 * n);
    }
  }

  /** The step moves `t` alone, to a smaller rank, and starts no request. */
  ghost predicate Lighter(s: State, t: nat, s': State) {
    && t < |s.cpus| == |s'.cpus|
    && s'.cpus == s.cpus[t := s'.cpus[t]]
    && Rank(s'.cpus[t].pc, |s.cpus|) < Rank(s.cpus[t].pc, |s.cpus|)
    && (Requesting(s'.cpus[t].pc) ==> Requesting(s.cpus[t].pc))
  }

  lemma LighterTotal(s: State, t: nat, s': State)
    requires Lighter(s, t, s')
    ensures Total(s'.cpus, |s.cpus|) < Total(s.cpus, |s.cpus|)
  {
    TotalUpdate(s.cpus, |s.cpus|, t, s'.cpus[t]);
  }

  lemma StartLighter(s: State, t: nat, s': State)
    requires t < |s.cpus| && StepStart(s, t) == Some(s')
    ensures Lighter(s, t, s')
  {
  }

  lemma EndLighter(s: State, t: nat, s': State)
    requires t < |s.cpus| && StepEnd(s, t) == Some(s') && !(s.cpus[t].pc.EndSignal? && s.pending == 1)
    ensures Lighter(s, t, s')
  {
  }

  lemma RequestLighter(s: State, t: nat, s': State)
    requires t < |s.cpus| && StepRequest(s, t) == Some(s') && !s.cpus[t].pc.Mark?
    ensures Lighter(s, t, s')
  {
  }

  lemma FinishLighter(s: State, t: nat, s': State)
    requires t < |s.cpus| && StepFinish(s, t) == Some(s') && !s.cpus[t].pc.FinishBroadcast?
    ensures Lighter(s, t, s')
  {
  }

  lemma SignalTotal(s: State, t: nat)
    requires t < |s.cpus| && s.cpus[t].pc.EndSignal?
    ensures var woken := Signal(s.cpus, 0);
            Total(woken[t := woken[t].(pc := EndUnlock)], |s.cpus|) < Total(s.cpus, |s.cpus|)
  {
    var n, woken := |s.cpus|, Signal(s.cpus, 0);
    assert woken[t].pc == EndSignal by {
      SignalWakesOne(s.cpus, 0);
    }
    TotalSignal(s.cpus, n, 0);
    TotalUpdate(woken, n, t, woken[t].(pc := EndUnlock));
    assert Weight(EndSignal, n) == 4 && Weight(EndUnlock, n) == 1;
  }

  lemma EndTotal(s: State, t: nat, s': State)
    requires t < |s.cpus| && StepEnd(s, t) == Some(s')
    ensures |s'.cpus| == |s.cpus| && Total(s'.cpus, |s.cpus|) < Total(s.cpus, |s.cpus|)
  {
    if s.cpus[t].pc.EndSignal? && s.pending == 1 {
      SignalTotal(s, t);
    } else {
      EndLighter(s, t, s');
      LighterTotal(s, t, s');
    }
  }

  lemma RequestTotal(s: State, t: nat, s': State)
    requires t < |s.cpus| && StepRequest(s, t) == Some(s')
    ensures |s'.cpus| == |s.cpus| && Total(s'.cpus, |s.cpus|) < Total(s.cpus, |s.cpus|)
  {
    var n := |s.cpus|;
    var pc := s.cpus[t].pc;
    if pc.Mark? {
      TotalUpdate(s.cpus, n, pc.next, s.cpus[pc.next].(hasWaiter := true));
      TotalUpdate(SetWaiter(s, pc.next, true).cpus, n, t, s'.cpus[t]);
    } else {
      RequestLighter(s, t, s');
      LighterTotal(s, t, s');
    }
  }

  lemma FinishTotal(s: State, t: nat, s': State)
    requires t < |s.cpus| && StepFinish(s, t) == Some(s')
    ensures |s'.cpus| == |s.cpus| && Total(s'.cpus, |s.cpus|) < Total(s.cpus, |s.cpus|)
  {
    var n := |s.cpus|;
    if s.cpus[t].pc.FinishBroadcast? {
      TotalBroadcast(s.cpus, n);
      TotalUpdate(Broadcast(s.cpus), n, t, s'.cpus[t]);
    } else {
      FinishLighter(s, t, s');
      LighterTotal(s, t, s');
    }
  }

  /** Every step of a thread already inside the protocol uses up some of the total. */
  lemma TotalDecreases(s: State, t: nat, s': State)
    requires t < |s.cpus| && Next(s, t, Advance) == Some(s')
    ensures |s'.cpus| == |s.cpus| && Total(s'.cpus, |s.cpus|) < Total(s.cpus, |s.cpus|)
  {
    var pc := s.cpus[t].pc;
    if InStart(pc) {
      StartLighter(s, t, s');
      LighterTotal(s, t, s');
    } else if InEnd(pc) {
      EndTotal(s, t, s');
    } else if InFinish(pc) {
      FinishTotal(s, t, s');
    } else {
      RequestTotal(s, t, s');
    }
  }

  /** A spurious wake-up costs the sleeper some steps, at most so many. */
  function WakeWeight(n: nat): nat {
    15 + 2 * n
  }

  lemma TotalWake(s: State, t: nat, s': State)
    requires t < |s.cpus| && Next(s, t, SpuriousWake) == Some(s')
    ensures |s'.cpus| == |s.cpus| && Total(s'.cpus, |s.cpus|) <= Total(s.cpus, |s.cpus|) + WakeWeight(|s.cpus|)
  {
    TotalUpdate(s.cpus, |s.cpus|, t, s'.cpus[t]);
  }

  /** A step of a thread already inside the protocol, or a spurious wake-up of one */
  predicate InsideStep(s: State, a: Action, s': State) {
    (a.Advance? || a.SpuriousWake?) && exists t: nat :: t < |s.cpus| && Next(s, t, a) == Some(s')
  }

  /** Threads already inside the protocol run on, in any order; nobody enters. */
  ghost predicate IsDrain(run: seq<State>, actions: seq<Action>) {
    && |run| == |actions| + 1
    && forall k :: 0 <= k < |actions| ==> InsideStep(run[k], actions[k], run[k + 1])
  }

  /** The spurious wake-ups among the first `k` actions */
  function Wakes(actions: seq<Action>, k: nat): nat
    requires k <= |actions|
  {
    if k == 0 then 0 else Wakes(actions, k - 1) + if actions[k - 1].SpuriousWake? then 1 else 0
  }

  lemma InsideTotal(s: State, a: Action, s': State)
    requires Inv(s) && InsideStep(s, a, s')
    ensures var n := |s.cpus|;
            && Inv(s') && |s'.cpus| == n
            && Total(s'.cpus, n) + 1 <= Total(s.cpus, n) + if a.SpuriousWake? then 1 + WakeWeight(n) else 0
  {
    var t: nat :| t < |s.cpus| && Next(s, t, a) == Some(s');
    NextInv(s, t, a, s');
    if a.Advance? {
      TotalDecreases(s, t, s');
    } else {
      TotalWake(s, t, s');
    }
  }

  lemma {:induction false} DrainInv(run: seq<State>, actions: seq<Action>, k: nat, c: nat)
    requires IsDrain(run, actions) && Inv(run[0]) && k <= |actions| && c == 1 + WakeWeight(|run[0].cpus|)
    ensures Inv(run[k]) && |run[k].cpus| == |run[0].cpus|
    ensures var n := |run[0].cpus|; Total(run[k].cpus, n) + k <= Total(run[0].cpus, n) + Wakes(actions, k) * c
    decreases k
  {
    if k > 0 {
      var j := k - 1;
      DrainInv(run, actions, j, c);
      assert InsideStep(run[j], actions[j], run[j + 1]);
      InsideTotal(run[j], actions[j], run[j + 1]);
      WakesOn(actions, j, c);
    }
  }

  lemma WakesOn(actions: seq<Action>, k: nat, c: nat)
    requires k < |actions|
    ensures Wakes(actions, k + 1) * c == Wakes(actions, k) * c + if actions[k].SpuriousWake? then c else 0
  {
  }

  /** Nobody is stranded: from every reachable state, whatever the scheduler does, the threads inside
      the protocol take a bounded number of steps, plus so many for each spurious wake-up, and when
      none of them can move all have left, the lock is free and no request is pending. */
  lemma EveryDrainEnds(past: seq<State>, run: seq<State>, actions: seq<Action>)
    requires IsRun(past) && IsDrain(run, actions) && run[0] == past[|past| - 1]
    ensures var n, k := |run[0].cpus|, |actions|; k <= Total(run[0].cpus, n) + Wakes(actions, k) * (1 + WakeWeight(n))
    ensures var last := run[|actions|];
            (forall t: nat :: t < |last.cpus| ==> Next(last, t, Advance) == None) ==>
              Quiescent(last) && last.lock == None && last.pending == 0
  {
    RunInv(past, |past| - 1);
    DrainInv(run, actions, |actions|, 1 + WakeWeight(|run[0].cpus|));
    var last := run[|actions|];
    if !Quiescent(last) {
      var t := SomeoneMoves(last);
    } else {
      QuiescentFree(last);
    }
  }

  lemma QuiescentFree(s: State)
    requires Inv(s) && Quiescent(s)
    ensures s.lock == None && s.pending == 0
  {
    assert s.lock.Some? ==> CpuOk(s, s.lock.value, s.cpus[s.lock.value]);
    assert forall i :: !OwnerAt(s, i);
  }
}

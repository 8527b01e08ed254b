/** What the calls of cpus-common.c are for: a thread that calls start_exclusive leaves only after it
    had its exclusive section, and one that calls cpu_exec_start only after it executed. */
module ExclusivePhases {
  import opened Basics
  import opened ExclusiveProtocol

  /** Which call a thread is in, or between which two */
  datatype Phase = Elsewhere | Starting | Executes | Ending | Requesting | Alone | Finishing

  function PhaseOf(pc: Pc): Phase {
    if pc.Outside? then Elsewhere
    else if InStart(pc) then Starting
    else if pc.Executing? then Executes
    else if InEnd(pc) then Ending
    else if pc.Exclusive? then Alone
    else if InFinish(pc) then Finishing
    else Requesting
  }

  /** The one phase that can follow another, once a thread is inside */
  predicate Leads(p: Phase, q: Phase) {
    match p
    case Elsewhere => q.Starting? || q.Requesting?
    case Starting => q.Executes?
    case Executes => q.Ending?
    case Ending => q.Elsewhere?
    case Requesting => q.Alone?
    case Alone => q.Finishing?
    case Finishing => q.Elsewhere?
  }

  /** A step takes its own thread to the next phase at most, and no other thread anywhere. */
  lemma PhaseStep(s: State, t: nat, a: Action, s': State, i: nat)
    requires t < |s.cpus| && Next(s, t, a) == Some(s') && i < |s.cpus|
    ensures |s'.cpus| == |s.cpus|
    ensures var p, q := PhaseOf(s.cpus[i].pc), PhaseOf(s'.cpus[i].pc);
            && (i != t ==> p == q) && (p == q || Leads(p, q))
            && (i == t && a.EnterExec? ==> p.Elsewhere? && q.Starting?)
            && (i == t && a.EnterExclusive? ==> p.Elsewhere? && q.Requesting?)
            && (p.Elsewhere? && !q.Elsewhere? ==> a.EnterExec? || a.EnterExclusive?)
  {
    if a.Advance? {
      var pc := s.cpus[t].pc;
      if InStart(pc) {
        StartPhase(s, t, s', i);
      } else if InEnd(pc) {
        EndPhase(s, t, s', i);
      } else if InFinish(pc) {
        FinishPhase(s, t, s', i);
      } else {
        RequestPhase(s, t, s', i);
      }
    }
  }

  /** What PhaseStep says of an access */
  predicate Moves(s: State, t: nat, s': State, i: nat)
    requires t < |s.cpus| && i < |s.cpus|
  {
    && |s'.cpus| == |s.cpus|
    && var p, q := PhaseOf(s.cpus[i].pc), PhaseOf(s'.cpus[i].pc);
    (i != t ==> p == q) && (p == q || Leads(p, q)) && (p.Elsewhere? ==> q.Elsewhere?)
  }

  lemma StartPhase(s: State, t: nat, s': State, i: nat)
    requires t < |s.cpus| && InStart(s.cpus[t].pc) && StepStart(s, t) == Some(s') && i < |s.cpus|
    ensures Moves(s, t, s', i)
  {
  }

  lemma EndPhase(s: State, t: nat, s': State, i: nat)
    requires t < |s.cpus| && InEnd(s.cpus[t].pc) && StepEnd(s, t) == Some(s') && i < |s.cpus|
    ensures Moves(s, t, s', i)
  {
    if s.cpus[t].pc.EndSignal? && s.pending == 1 {
      SignalPhase(s.cpus, 0, i);
    }
  }

  lemma FinishPhase(s: State, t: nat, s': State, i: nat)
    requires t < |s.cpus| && InFinish(s.cpus[t].pc) && StepFinish(s, t) == Some(s') && i < |s.cpus|
    ensures Moves(s, t, s', i)
  {
  }

  lemma RequestPhase(s: State, t: nat, s': State, i: nat)
    requires t < |s.cpus| && PhaseOf(s.cpus[t].pc).Requesting? && StepRequest(s, t) == Some(s') && i < |s.cpus|
    ensures Moves(s, t, s', i)
  {
  }

  lemma {:induction false} SignalPhase(cpus: seq<Cpu>, from: nat, i: nat)
    requires from <= |cpus| && i < |cpus|
    ensures PhaseOf(Signal(cpus, from)[i].pc) == PhaseOf(cpus[i].pc)
    decreases |cpus| - from
  {
    if from < |cpus| && cpus[from].pc != AwaitWait(false) {
      SignalPhase(cpus, from + 1, i);
    }
  }

  // ----- over runs -----

  /** Consecutive states */
  ghost predicate IsPath(run: seq<State>) {
    |run| > 0 && forall k :: 0 <= k < |run| - 1 ==> StepAt(run, k)
  }

  ghost predicate StepAt(run: seq<State>, k: nat)
    requires k + 1 < |run|
  {
    CanStep(run[k], run[k + 1])
  }

  lemma StepSize(s: State, s': State)
    requires CanStep(s, s')
    ensures |s'.cpus| == |s.cpus|
  {
    var t: nat, a :| t < |s.cpus| && Next(s, t, a) == Some(s');
    PhaseStep(s, t, a, s', t);
  }

  lemma {:induction false} PathSize(run: seq<State>, k: nat)
    requires IsPath(run) && k < |run|
    ensures |run[k].cpus| == |run[0].cpus|
    decreases k
  {
    if k > 0 {
      PathSize(run, k - 1);
      assert StepAt(run, k - 1);
      StepSize(run[k - 1], run[k]);
    }
  }

  lemma PhaseOnce(run: seq<State>, t: nat, i: nat)
    requires IsPath(run) && i + 1 < |run| && t < |run[0].cpus| == |run[i].cpus|
    ensures |run[i + 1].cpus| == |run[0].cpus|
    ensures var p, q := PhaseOf(run[i].cpus[t].pc), PhaseOf(run[i + 1].cpus[t].pc); p == q || Leads(p, q)
  {
    assert StepAt(run, i);
    var u: nat, a :| u < |run[i].cpus| && Next(run[i], u, a) == Some(run[i + 1]);
    PhaseStep(run[i], u, a, run[i + 1], t);
  }

  /** A thread that has left a phase was in the one that comes next. */
  lemma {:induction false} NextPhase(run: seq<State>, t: nat, i: nat, j: nat) returns (k: nat)
    requires IsPath(run) && i <= j < |run| && t < |run[0].cpus|
    requires |run[i].cpus| == |run[j].cpus| == |run[0].cpus|
    requires PhaseOf(run[i].cpus[t].pc) != PhaseOf(run[j].cpus[t].pc)
    ensures i < k <= j && |run[k].cpus| == |run[0].cpus|
    ensures Leads(PhaseOf(run[i].cpus[t].pc), PhaseOf(run[k].cpus[t].pc))
    decreases j - i
  {
    PhaseOnce(run, t, i);
    if PhaseOf(run[i + 1].cpus[t].pc) == PhaseOf(run[i].cpus[t].pc) {
      k := NextPhase(run, t, i + 1, j);
    } else {
      k := i + 1;
    }
  }

  lemma RunPath(run: seq<State>)
    requires IsRun(run)
    ensures IsPath(run)
  {
  }

  /** start_exclusive returns only with the exclusive section: on every run, a thread that was
      requesting and is not any more had its section in between. */
  lemma SectionGranted(run: seq<State>, t: nat, i: nat, j: nat) returns (k: nat)
    requires IsRun(run) && i <= j < |run| && t < |run[0].cpus|
    requires |run[i].cpus| == |run[j].cpus| == |run[0].cpus|
    requires PhaseOf(run[i].cpus[t].pc).Requesting? && !PhaseOf(run[j].cpus[t].pc).Requesting?
    ensures i < k <= j && |run[k].cpus| == |run[0].cpus| && run[k].cpus[t].pc == Exclusive
  {
    RunPath(run);
    k := NextPhase(run, t, i, j);
  }

  /** And cpu_exec_start only to execute. */
  lemma ExecutionGranted(run: seq<State>, t: nat, i: nat, j: nat) returns (k: nat)
    requires IsRun(run) && i <= j < |run| && t < |run[0].cpus|
    requires |run[i].cpus| == |run[j].cpus| == |run[0].cpus|
    requires PhaseOf(run[i].cpus[t].pc).Starting? && !PhaseOf(run[j].cpus[t].pc).Starting?
    ensures i < k <= j && |run[k].cpus| == |run[0].cpus| && run[k].cpus[t].pc == Executing
  {
    RunPath(run);
    k := NextPhase(run, t, i, j);
  }

  lemma DrainPath(run: seq<State>, actions: seq<Action>)
    requires IsDrain(run, actions)
    ensures IsPath(run)
  {
    forall k | 0 <= k < |run| - 1
      ensures StepAt(run, k)
    {
      assert InsideStep(run[k], actions[k], run[k + 1]);
      var t: nat :| t < |run[k].cpus| && Next(run[k], t, actions[k]) == Some(run[k + 1]);
    }
  }

  /** Every request is served: from every reachable state, whatever the scheduler does, when the
      threads inside the protocol can go no further each one that was requesting had its section and
      each one that was starting has executed. */
  lemma EveryRequestServed(past: seq<State>, run: seq<State>, actions: seq<Action>, t: nat) returns (k: nat)
    requires IsRun(past) && IsDrain(run, actions) && run[0] == past[|past| - 1] && t < |run[0].cpus|
    requires var last := run[|actions|]; forall u: nat :: u < |last.cpus| ==> Next(last, u, Advance) == None
    requires PhaseOf(run[0].cpus[t].pc).Requesting? || PhaseOf(run[0].cpus[t].pc).Starting?
    ensures k <= |actions| && t < |run[k].cpus|
    ensures run[k].cpus[t].pc == if PhaseOf(run[0].cpus[t].pc).Requesting? then Exclusive else Executing
  {
    EveryDrainEnds(past, run, actions);
    DrainPath(run, actions);
    PathSize(run, |actions|);
    k := NextPhase(run, t, 0, |actions|);
  }

  // ----- runs that get there -----

  /** `n` CPUs of which only `t` is inside the protocol */
  function Only(n: nat, t: nat, pending: int, lock: Option<nat>, running: bool, pc: Pc): (s: State)
    ensures |s.cpus| == n
  {
    State(pending, lock, seq(n, i => if i == t then Cpu(running, false, pc) else Cpu(false, false, Outside)))
  }

  lemma OnlyStep(n: nat, t: nat, s: State, a: Action, pending: int, lock: Option<nat>, running: bool, pc: Pc)
    requires t < n && |s.cpus| == n && Next(s, t, a).Some?
    requires var r := Next(s, t, a).value;
             && r.pending == pending && r.lock == lock && |r.cpus| == n && r.cpus[t] == Cpu(running, false, pc)
             && forall i :: 0 <= i < n && i != t ==> r.cpus[i] == Cpu(false, false, Outside)
    ensures CanStep(s, Only(n, t, pending, lock, running, pc))
  {
    assert Next(s, t, a).value.cpus == Only(n, t, pending, lock, running, pc).cpus;
    assert Next(s, t, a) == Some(Only(n, t, pending, lock, running, pc));
  }

  lemma Longer(run: seq<State>, s: State)
    requires IsRun(run) && CanStep(run[|run| - 1], s)
    ensures IsRun(run + [s])
  {
    var r := run + [s];
    forall k | 0 <= k < |r| - 1
      ensures CanStep(r[k], r[k + 1])
    {
      if k < |run| - 1 {
        assert CanStep(run[k], run[k + 1]);
      }
    }
  }

  /** The scan over the CPUs, none of which runs */
  lemma {:induction false} Scanned(n: nat, t: nat, run: seq<State>, i: nat) returns (r: seq<State>)
    requires t < n && i <= n && IsRun(run) && |run[0].cpus| == n
    requires run[|run| - 1] == Only(n, t, 1, Some(t), false, Scan(i, 0))
    ensures IsRun(r) && |r[0].cpus| == n && r[|r| - 1] == Only(n, t, 1, Some(t), false, Await)
    decreases n - i
  {
    var s := run[|run| - 1];
    if i == n {
      OnlyStep(n, t, s, Advance, 1, Some(t), false, Await);
      var x := Only(n, t, 1, Some(t), false, Await);
      Longer(run, x);
      r := run + [x];
    } else {
      OnlyStep(n, t, s, Advance, 1, Some(t), false, Scan(i + 1, 0));
      var x := Only(n, t, 1, Some(t), false, Scan(i + 1, 0));
      Longer(run, x);
      r := Scanned(n, t, run + [x], i + 1);
    }
  }

  lemma One(n: nat, t: nat, run: seq<State>, a: Action, pending: int, lock: Option<nat>, running: bool, pc: Pc)
    returns (r: seq<State>)
    requires t < n && IsRun(run) && |run[0].cpus| == n && |run[|run| - 1].cpus| == n
    requires Next(run[|run| - 1], t, a).Some?
    requires var x := Next(run[|run| - 1], t, a).value;
             && x.pending == pending && x.lock == lock && |x.cpus| == n && x.cpus[t] == Cpu(running, false, pc)
             && forall i :: 0 <= i < n && i != t ==> x.cpus[i] == Cpu(false, false, Outside)
    ensures IsRun(r) && |r[0].cpus| == n && r[|r| - 1] == Only(n, t, pending, lock, running, pc)
  {
    var x := Only(n, t, pending, lock, running, pc);
    OnlyStep(n, t, run[|run| - 1], a, pending, lock, running, pc);
    Longer(run, x);
    r := run + [x];
  }

  /** With any number of CPUs, each of them gets to an exclusive section on some run. */
  lemma SectionReached(n: nat, t: nat) returns (run: seq<State>)
    requires t < n
    ensures IsRun(run) && |run[0].cpus| == n
    ensures var s := run[|run| - 1]; |s.cpus| == n && s.cpus[t].pc == Exclusive && s.pending == 1
  {
    run := Claimed(n, t);
    run := Scanned(n, t, run, 0);
    run := One(n, t, run, Advance, 1, Some(t), false, RequestUnlock);
    run := One(n, t, run, Advance, 1, None, false, Exclusive);
  }

  lemma Asked(n: nat, t: nat) returns (run: seq<State>)
    requires t < n
    ensures IsRun(run) && |run[0].cpus| == n
    ensures run[|run| - 1] == Only(n, t, 0, Some(t), false, RequestIdle)
  {
    run := [Only(n, t, 0, None, false, Outside)];
    run := One(n, t, run, EnterExclusive, 0, None, false, RequestLock);
    run := One(n, t, run, Advance, 0, Some(t), false, RequestIdle);
  }

  lemma Claimed(n: nat, t: nat) returns (run: seq<State>)
    requires t < n
    ensures IsRun(run) && |run[0].cpus| == n
    ensures run[|run| - 1] == Only(n, t, 1, Some(t), false, Scan(0, 0))
  {
    run := Asked(n, t);
    run := One(n, t, run, Advance, 0, Some(t), false, Claim);
    run := One(n, t, run, Advance, 1, Some(t), false, Scan(0, 0));
  }

  /** As long as no request is pending, cpu_exec_start and cpu_exec_end go through without the lock,
      whoever has it, and together leave everything as it was. */
  lemma FastPath(s: State, t: nat)
    requires t < |s.cpus| && s.cpus[t] == Cpu(false, s.cpus[t].hasWaiter, Outside) && s.pending == 0
    ensures var r := SetRunning(s, t, true, Executing);
            && Next(SetRunning(s, t, true, StartRead), t, Advance) == Some(r)
            && Next(s, t, EnterExec) == Some(SetRunning(s, t, true, StartRead))
            && Next(r, t, Advance).Some? && |Next(r, t, Advance).value.cpus| == |s.cpus|
            && Next(Next(r, t, Advance).value, t, Advance) == Some(s)
  {
    var r := SetRunning(s, t, true, Executing);
    assert SetRunning(s, t, true, StartRead).cpus[t := r.cpus[t]] == r.cpus;
    var e := SetRunning(r, t, false, EndRead);
    assert e.cpus[t := s.cpus[t]] == s.cpus;
  }
}

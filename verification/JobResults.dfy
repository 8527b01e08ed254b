/** The promises of a job transaction, over every run. */
module JobResults {
  import opened Basics
  import opened JobState
  import opened JobTxn
  import opened JobRuns

  /** Any actions of users, drivers and the event loop, one after the other */
  ghost predicate Steps(states: seq<Txn>, actions: seq<Action>) {
    && |states| == |actions| + 1
    && forall k :: 0 <= k < |actions| ==> Step(states[k], actions[k], states[k + 1])
  }

  ghost predicate Run(states: seq<Txn>, actions: seq<Action>) {
    Steps(states, actions) && states[0] == EMPTY
  }

  ghost predicate Step(t: Txn, a: Action, u: Txn) {
    Shaped(t) && Enabled(t, a) && u == Apply(t, a)
  }

  lemma {:induction false} StepsInv(states: seq<Txn>, actions: seq<Action>)
    requires Steps(states, actions) && Inv(states[0])
    ensures Inv(states[|actions|])
  {
    if |actions| > 0 {
      var n := |actions| - 1;
      StepsInv(states[..n + 1], actions[..n]);
      assert Step(states[n], actions[n], states[n + 1]);
      ApplyInv(states[n], actions[n]);
    }
  }

  lemma RunInv(states: seq<Txn>, actions: seq<Action>)
    requires Run(states, actions)
    ensures Inv(states[|actions|])
  {
    EmptyInv();
    StepsInv(states, actions);
  }

  /** No assertion fails: in particular every status change is in the table. */
  lemma NoAssertionFails(states: seq<Txn>, actions: seq<Action>, id: JobId)
    requires Run(states, actions) && id in states[|actions|].jobs
    ensures !states[|actions|].jobs[id].bad
  {
    RunInv(states, actions);
    assert IdOk(states[|actions|], id);
  }

  /** A job that has ended got exactly one of commit and abort, and then clean; commit if and only
      if it succeeded.  Before that it got none of them. */
  lemma ExactlyOnce(states: seq<Txn>, actions: seq<Action>, id: JobId)
    requires Run(states, actions) && id in states[|actions|].jobs
    ensures var j := states[|actions|].jobs[id];
            && (j.status.Concluded? ==> j.log == [if j.ret == 0 then Commit else Abort, Clean])
            && (j.status.Null? && Started(j) ==> j.log == [if j.ret == 0 then Commit else Abort, Clean])
            && (!Over(j.status) ==> j.log == [])
  {
    RunInv(states, actions);
    assert IdOk(states[|actions|], id);
  }

  /** When a failed or cancelled job started the abort, no member commits, ever. */
  lemma NoneCommits(states: seq<Txn>, actions: seq<Action>, id: JobId)
    requires Run(states, actions) && id in states[|actions|].jobs
    requires states[|actions|].aborting && !states[|actions|].blameless
    ensures Commit !in states[|actions|].jobs[id].log
  {
    RunInv(states, actions);
  }

  /** As long as the transaction is not being aborted no job has aborted, and when it ends so every
      job that was started has committed. */
  lemma AllCommit(states: seq<Txn>, actions: seq<Action>, id: JobId)
    requires Run(states, actions) && id in states[|actions|].jobs && !states[|actions|].aborting
    ensures var t := states[|actions|];
            && Abort !in t.jobs[id].log
            && (t.members == [] && Started(t.jobs[id]) ==> t.jobs[id].log == [Commit, Clean])
  {
    RunInv(states, actions);
    var t := states[|actions|];
    assert IdOk(t, id);
    assert [Abort, Clean][0] == Abort;
  }

  // ----- completed jobs stay completed, and pauses stay balanced -----

  /** The pause requests of a job that neither the user nor its creation accounts for */
  function Drains(j: Job): int {
    j.pause.count - Held(j)
  }

  /** What all changes of a job but pausing and resuming it keep */
  predicate Forward(j: Job, k: Job) {
    && (Completed(j.status) ==> Completed(k.status)) && Drains(k) == Drains(j)
    && k.mode == j.mode && (j.ret != 0 ==> k.ret == j.ret) && (j.cancelled ==> k.cancelled)
  }

  /** What an action orders of a job: job_cancel marks it cancelled, and perhaps to be forced. */
  function Marked(a: Action, id: JobId, j: Job): Job {
    if a.CancelJob? && a.id == id && !j.status.Concluded? then
      j.(cancelled := true, mode := if a.force then j.mode.(forceCancel := true) else j.mode)
    else j
  }

  /** What an action does to a job, as far as it is always the same */
  predicate Stays(a: Action, id: JobId, j: Job, k: Job) {
    && (Completed(j.status) ==> Completed(k.status)) && Drains(k) == Drains(j) + Delta(a, id)
    && k.mode == Marked(a, id, j).mode && (j.ret != 0 ==> k.ret == j.ret)
    && (Marked(a, id, j).cancelled ==> k.cancelled)
  }

  lemma {:induction false} FinalizeAllForward(t: Txn, id: JobId)
    requires Shaped(t) && id in t.jobs
    ensures Forward(t.jobs[id], FinalizeAll(t).jobs[id])
    decreases |t.members|
  {
    if t.members != [] {
      FinalizeAllForward(FinalizeFirst(t), id);
    }
  }

  lemma {:induction false} AbortLoopForward(t: Txn, id: JobId)
    requires Shaped(t) && id in t.jobs
    ensures Forward(t.jobs[id], AbortLoop(t).jobs[id])
    decreases |t.members|
  {
    if t.members != [] && Completed(t.jobs[t.members[0]].status) {
      AbortLoopForward(FinalizeFirst(t), id);
    }
  }

  lemma TxnAbortForward(t: Txn, job: JobId, id: JobId)
    requires Shaped(t) && job in t.jobs && id in t.jobs
    ensures id in TxnAbort(t, job).jobs && Forward(t.jobs[id], TxnAbort(t, job).jobs[id])
  {
    if !t.aborting {
      AbortLoopForward(Doom(t, job), id);
    }
  }

  lemma {:induction false} PrepareForward(t: Txn, i: nat, prep: Results, id: JobId)
    requires Shaped(t) && i <= |t.members| && id in t.jobs
    ensures Forward(t.jobs[id], PrepareFrom(t, i, prep).0.jobs[id])
    decreases |t.members| - i
  {
    if i < |t.members| {
      var m := t.members[i];
      PrepareForward(Put(t, m, Prepared(t.jobs[m], Rc(prep, m))), i + 1, prep, id);
    }
  }

  lemma DoFinalizeForward(t: Txn, job: JobId, prep: Results, id: JobId)
    requires Shaped(t) && job in t.jobs && id in t.jobs
    ensures id in DoFinalize(t, job, prep).jobs && Forward(t.jobs[id], DoFinalize(t, job, prep).jobs[id])
  {
    var (u, rc) := PrepareFrom(t, 0, prep);
    PrepareForward(t, 0, prep, id);
    if rc != 0 {
      TxnAbortForward(u, job, id);
    } else {
      FinalizeAllForward(u, id);
    }
  }

  lemma TxnSuccessForward(t: Txn, job: JobId, prep: Results, id: JobId)
    requires Shaped(t) && job in t.jobs && id in t.jobs
    ensures id in TxnSuccess(t, job, prep).jobs && Forward(t.jobs[id], TxnSuccess(t, job, prep).jobs[id])
  {
    var u := Put(t, job, Goto(t.jobs[job], Waiting));
    var v := Put(u, job, Assert(u.jobs[job], ScanOk(u, 0)));
    assert Forward(t.jobs[id], v.jobs[id]);
    if AllCompleted(v) {
      AllPendingForward(v, id);
      if AllAutoFinalize(AllPending(v)) {
        DoFinalizeForward(AllPending(v), job, prep, id);
      }
    }
  }

  lemma AllPendingForward(t: Txn, id: JobId)
    requires Shaped(t) && id in t.jobs
    ensures Forward(t.jobs[id], AllPending(t).jobs[id])
  {
  }

  lemma JobCompletedForward(t: Txn, job: JobId, prep: Results, id: JobId)
    requires Shaped(t) && job in t.jobs && id in t.jobs
    ensures id in JobCompleted(t, job, prep).jobs && Forward(t.jobs[id], JobCompleted(t, job, prep).jobs[id])
  {
    var k := UpdateRc(Assert(t.jobs[job], job in t.members && !Completed(t.jobs[job].status)));
    var u := Put(t, job, k);
    assert Forward(t.jobs[id], u.jobs[id]);
    if k.ret != 0 {
      TxnAbortForward(u, job, id);
    } else {
      TxnSuccessForward(u, job, prep, id);
    }
  }

  lemma DoCancelForward(t: Txn, job: JobId, force: bool, id: JobId)
    requires Shaped(t) && job in t.jobs && id in t.jobs
    ensures id in DoCancel(t, job, force).jobs
    ensures Forward(Marked(CancelJob(job, force), id, t.jobs[id]), DoCancel(t, job, force).jobs[id])
  {
    var j, m := t.jobs[job], Marked(CancelJob(job, force), id, t.jobs[id]);
    if !j.status.Concluded? {
      var u := Put(t, job, CancelAsync(j, force));
      CancelledForward(j, force);
      CancelEndsForward(u, j, job, id);
      ForwardOn(m, u.jobs[id], DoCancel(t, job, force).jobs[id]);
    }
  }

  lemma CancelEndsForward(u: Txn, j: Job, job: JobId, id: JobId)
    requires Shaped(u) && job in u.jobs && id in u.jobs
    ensures var r :=
              if !Started(j) then JobCompleted(u, job, map[]) else if Deferred(j) then TxnAbort(u, job) else u;
            id in r.jobs && Forward(u.jobs[id], r.jobs[id])
  {
    if !Started(j) {
      JobCompletedForward(u, job, map[], id);
    } else if Deferred(j) {
      TxnAbortForward(u, job, id);
    }
  }

  lemma CancelledForward(j: Job, force: bool)
    ensures Forward(j.(cancelled := true, mode := if force then j.mode.(forceCancel := true) else j.mode),
                    CancelAsync(j, force))
  {
  }

  lemma ForwardOn(i: Job, j: Job, k: Job)
    requires Forward(i, j) && Forward(j, k)
    ensures Forward(i, k)
  {
  }

  /** What an action adds to the pauses of a job */
  function Delta(a: Action, id: JobId): int {
    if a.PauseJob? && a.id == id then 1 else if a.ResumeJob? && a.id == id then -1 else 0
  }

  /** A completed job never becomes uncompleted, its pauses are counted right, it stays the kind of job it
      was created as, and an error of its stays its error. */
  lemma CompletedStays(t: Txn, a: Action, id: JobId)
    requires Inv(t) && Enabled(t, a) && id in t.jobs
    ensures id in Apply(t, a).jobs
    ensures Stays(a, id, t.jobs[id], Apply(t, a).jobs[id])
  {
    if a.Create? || a.EarlyFail? {
      ListForward(t, a, id);
    } else if a.AbortResumes? {
      ResumesForward(t, a, id);
    } else if a.Exit? {
      ExitForward(t, a, id);
    } else if a.CancelJob? {
      CancelForward(t, a, id);
    } else if a.FinalizeJob? {
      FinalizeForward(t, a, id);
    } else {
      LocalForward(t, a, id);
    }
  }

  lemma ExitForward(t: Txn, a: Action, id: JobId)
    requires Inv(t) && Enabled(t, a) && id in t.jobs && a.Exit?
    ensures id in Apply(t, a).jobs
    ensures Stays(a, id, t.jobs[id], Apply(t, a).jobs[id])
  {
    var u := Put(t, a.id, t.jobs[a.id].(co := Exited));
    assert Forward(t.jobs[id], u.jobs[id]);
    JobCompletedForward(u, a.id, a.prep, id);
  }

  lemma CancelForward(t: Txn, a: Action, id: JobId)
    requires Inv(t) && Enabled(t, a) && id in t.jobs && a.CancelJob?
    ensures id in Apply(t, a).jobs
    ensures Stays(a, id, t.jobs[id], Apply(t, a).jobs[id])
  {
    DoCancelForward(t, a.id, a.force, id);
  }

  lemma FinalizeForward(t: Txn, a: Action, id: JobId)
    requires Inv(t) && Enabled(t, a) && id in t.jobs && a.FinalizeJob?
    ensures id in Apply(t, a).jobs
    ensures Stays(a, id, t.jobs[id], Apply(t, a).jobs[id])
  {
    DoFinalizeForward(t, a.id, a.prep, id);
  }

  lemma ListForward(t: Txn, a: Action, id: JobId)
    requires Inv(t) && Enabled(t, a) && id in t.jobs && (a.Create? || a.EarlyFail?)
    ensures id in Apply(t, a).jobs
    ensures Stays(a, id, t.jobs[id], Apply(t, a).jobs[id])
  {
  }

  lemma ResumesForward(t: Txn, a: Action, id: JobId)
    requires Inv(t) && Enabled(t, a) && id in t.jobs && a.AbortResumes?
    ensures id in Apply(t, a).jobs
    ensures Stays(a, id, t.jobs[id], Apply(t, a).jobs[id])
  {
    AbortResumesInv(t);
    AbortLoopForward(t, id);
  }

  lemma LocalForward(t: Txn, a: Action, id: JobId)
    requires Inv(t) && Enabled(t, a) && id in t.jobs && IsLocal(a)
    ensures id in Apply(t, a).jobs
    ensures Stays(a, id, t.jobs[id], Apply(t, a).jobs[id])
  {
    LocalIs(t, a);
    if a.id == id {
      assert IdOk(t, id);
      LocalOk(t.jobs[id], a);
      LocalDrains(t.jobs[id], a);
    }
  }

  lemma LocalIs(t: Txn, a: Action)
    requires Shaped(t) && Possible(t, a) && IsLocal(a)
    ensures a.id in t.jobs && JobPossible(t.jobs[a.id], a) && (Safe(t, a) ==> JobSafe(t.jobs[a.id], a))
    ensures Apply(t, a) == Put(t, a.id, ApplyJob(t.jobs[a.id], a))
  {
  }

  lemma LocalDrains(j: Job, a: Action)
    requires JobOk(j) && IsLocal(a) && JobPossible(j, a) && JobSafe(j, a)
    ensures Drains(ApplyJob(j, a)) == Drains(j) + Delta(a, a.id)
  {
    match a
    case StartJob(_) =>
    case PauseAt(_) =>
    case Enter(_) =>
    case DriverReady(_) =>
    case _ =>
  }

  function Drained(actions: seq<Action>, id: JobId): int {
    if actions == [] then 0 else Drained(actions[..|actions| - 1], id) + Delta(actions[|actions| - 1], id)
  }

  lemma {:induction false} NotYetDrained(states: seq<Txn>, actions: seq<Action>, id: JobId)
    requires Run(states, actions) && id !in states[|actions|].jobs
    ensures Drained(actions, id) == 0
  {
    if |actions| > 0 {
      var n := |actions| - 1;
      RunInv(states[..n + 1], actions[..n]);
      assert Step(states[n], actions[n], states[n + 1]);
      if id in states[n].jobs {
        CompletedStays(states[n], actions[n], id);
      }
      NotYetDrained(states[..n + 1], actions[..n], id);
    }
  }

  /** On every run the pause count of a job is the number of pauses and resumptions of drained
      sections so far, plus one while the user has it paused and one until it is started. */
  lemma {:induction false} PausesBalance(states: seq<Txn>, actions: seq<Action>, id: JobId)
    requires Run(states, actions) && id in states[|actions|].jobs
    ensures var j := states[|actions|].jobs[id]; j.pause.count == Drained(actions, id) + Held(j)
  {
    if |actions| > 0 {
      var n := |actions| - 1;
      RunInv(states[..n + 1], actions[..n]);
      assert Step(states[n], actions[n], states[n + 1]);
      if id in states[n].jobs {
        PausesBalance(states[..n + 1], actions[..n], id);
        CompletedStays(states[n], actions[n], id);
      } else {
        NotYetDrained(states[..n + 1], actions[..n], id);
        NewHeld(states[n], actions[n], id);
      }
    }
  }

  /** Only a new job appears, and it is paused until it is started. */
  lemma NewHeld(t: Txn, a: Action, id: JobId)
    requires Inv(t) && Enabled(t, a) && id !in t.jobs && id in Apply(t, a).jobs
    ensures Drains(Apply(t, a).jobs[id]) == 0 && Delta(a, id) == 0
  {
  }

  // ----- finalizing -----

  /** The members are all PENDING when job_do_finalize is called for one of them. */
  ghost predicate AtFinalize(t: Txn, job: JobId) {
    Base(t) && AtPending(t) && !t.aborting && job in t.members
  }

  /** A user finalizes a PENDING job. */
  lemma FinalizeStart(t: Txn, a: Action)
    requires Inv(t) && Enabled(t, a) && a.FinalizeJob?
    ensures AtFinalize(t, a.id) && Apply(t, a) == DoFinalize(t, a.id, a.prep)
  {
    assert IdOk(t, a.id);
    InvBase(t);
    assert IsPending(t, a.id);
    forall x | x in t.members
      ensures IsPending(t, x) && !t.jobs[x].cancelled
    {
      assert IdOk(t, x);
    }
  }

  /** The last member succeeds, and no member waits for the user to finalize: job_exit goes on to
      job_do_finalize. */
  lemma LastExit(t: Txn, id: JobId, prep: Results) returns (p: Txn)
    requires EndingAt(t, id) && t.jobs[id].ret == 0 && !t.jobs[id].cancelled
    requires forall m :: m in t.members ==> t.jobs[m].mode.autoFinalize && (m != id ==> Completed(t.jobs[m].status))
    ensures AtFinalize(p, id) && p.members == t.members && TxnSuccess(t, id, prep) == DoFinalize(p, id, prep)
  {
    var u := Put(t, id, Goto(t.jobs[id], Waiting));
    WaitingOk(t.jobs[id]);
    WaitingInv(t, id);
    ScanHolds(u, 0);
    assert Put(u, id, Assert(u.jobs[id], true)) == u;
    LastCompleted(t, id, u);
    AllPendingInv(u);
    p := AllPending(u);
    assert AllAutoFinalize(p);
  }

  lemma LastCompleted(t: Txn, id: JobId, u: Txn)
    requires Shaped(t) && Shaped(u) && id in t.jobs && u == Put(t, id, t.jobs[id].(status := Waiting))
    requires forall m :: m in t.members ==> (m != id ==> Completed(t.jobs[m].status))
    ensures AllCompleted(u)
  {
  }

  /** All prepared: every member commits. */
  lemma FinalizeCommits(t: Txn, job: JobId, prep: Results, id: JobId)
    requires AtFinalize(t, job) && id in t.members
    requires forall m :: m in t.members ==> Rc(prep, m) == 0
    ensures var r := DoFinalize(t, job, prep);
            r.members == [] && !r.aborting && id in r.jobs && r.jobs[id].log == [Commit, Clean]
  {
    PendingEach(t);
    PrepareAt(t, 0, prep, id);
    assert BaseAt(t, id) && IsPending(t, id);
    FinalizeAllAt(t, id);
    FinalizedOk(t.jobs[id]);
  }

  /** The members before the f-th are prepared; the f-th is the first whose prepare fails. */
  predicate FirstFailure(t: Txn, prep: Results, i: nat, f: nat) {
    i <= f < |t.members| && Rc(prep, t.members[f]) != 0
    && forall k :: i <= k < f ==> Rc(prep, t.members[k]) == 0
  }

  /** Only the first failure is recorded; later members are not even asked. */
  lemma {:induction false} PrepareStops(t: Txn, i: nat, prep: Results, f: nat)
    requires Base(t) && AtPending(t) && i <= |t.members| && FirstFailure(t, prep, i, f)
    ensures var m := t.members[f];
            PrepareFrom(t, i, prep) ==
            (Put(t, m, t.jobs[m].(status := Status.Aborting, ret := Rc(prep, m))), Rc(prep, m))
    decreases |t.members| - i
  {
    var m := t.members[i];
    assert BaseAt(t, m) && IsPending(t, m);
    PreparedOk(t.jobs[m], Rc(prep, m));
    if i < f {
      assert Put(t, m, t.jobs[m]) == t;
      PrepareStops(t, i + 1, prep, f);
    }
  }

  /** An abort of completed members ends them all at once: every one aborts, except the job that
      started it if that job neither failed nor was cancelled. */
  lemma AbortEnds(t: Txn, job: JobId, id: JobId)
    requires Base(t) && !t.aborting && job in t.members && id in t.members && AllCompleted(t)
    requires t.jobs[job].cancelled || t.jobs[job].status.Aborting? || t.jobs[job].status.Pending?
    ensures var r := TxnAbort(t, job);
            && r.members == [] && r.aborting && id in r.jobs
            && var spared := id == job && t.jobs[id].ret == 0 && !t.jobs[id].cancelled;
            r.jobs[id].log == [if spared then Commit else Abort, Clean]
  {
    DoomFalls(t, job);
    var d := Doom(t, job);
    FallingDoomed(d);
    assert BaseAt(t, id) && FallingAt(d, id);
    DoomCompleted(t, job);
    AbortLoopAll(d);
    AbortLoopAt(d, id);
    FinalizedOk(d.jobs[id]);
  }

  lemma DoomCompleted(t: Txn, job: JobId)
    requires Base(t) && job in t.members && AllCompleted(t)
    ensures AllCompleted(Doom(t, job))
  {
    var d := Doom(t, job);
    forall i | 0 <= i < |d.members|
      ensures Completed(d.jobs[d.members[i]].status)
    {
      assert BaseAt(t, t.members[i]);
      CancelAsyncOk(t.jobs[t.members[i]], false);
    }
  }

  /** When a prepare fails, every member ends in the same step.  All of them abort, except that the
      job which was being finalized commits -- unless it is the one that failed. */
  lemma FinalizeFails(t: Txn, job: JobId, prep: Results, f: nat, id: JobId)
    requires AtFinalize(t, job) && id in t.members && FirstFailure(t, prep, 0, f)
    ensures var r := DoFinalize(t, job, prep);
            && r.members == [] && r.aborting && id in r.jobs
            && r.jobs[id].log == [if id == job && id != t.members[f] then Commit else Abort, Clean]
  {
    PrepareStops(t, 0, prep, f);
    PrepareBase(t, prep);
    assert IsPending(t, job) && IsPending(t, id);
    assert BaseAt(t, job) && BaseAt(t, id);
    AbortEnds(PrepareFrom(t, 0, prep).0, job, id);
  }

  /** So the transaction aborts as a whole if and only if the job that is finalized is the one
      whose prepare fails first. */
  lemma AbortsAsWholeExactly(t: Txn, job: JobId, prep: Results, f: nat)
    requires AtFinalize(t, job) && FirstFailure(t, prep, 0, f)
    ensures var r := DoFinalize(t, job, prep);
            (forall id :: id in t.members ==> id in r.jobs && Commit !in r.jobs[id].log) <==> job == t.members[f]
  {
    var r := DoFinalize(t, job, prep);
    FinalizeFails(t, job, prep, f, job);
    forall id | id in t.members
      ensures id in r.jobs && (Commit in r.jobs[id].log <==> id == job && id != t.members[f])
    {
      FinalizeFails(t, job, prep, f, id);
    }
  }

  // ----- a run in which one job commits and the other aborts -----

  function At(status: Status, co: Co, count: int): Job {
    Job(status, co, false, 0, [], false, PauseRequests(false, count), Mode(false, false, false))
  }

  function Pair(a: Job, b: Job): Txn {
    Txn(map[0 := a, 1 := b], [1, 0], false, false, None)
  }

  lemma PairShaped(a: Job, b: Job)
    ensures Shaped(Pair(a, b))
  {
  }

  lemma Longer(states: seq<Txn>, actions: seq<Action>, a: Action, u: Txn)
    requires Run(states, actions) && Step(states[|actions|], a, u)
    ensures Run(states + [u], actions + [a])
  {
    var ss, aa := states + [u], actions + [a];
    forall k | 0 <= k < |aa|
      ensures Step(ss[k], aa[k], ss[k + 1])
    {
      if k < |actions| {
        assert Step(states[k], actions[k], states[k + 1]);
      }
    }
  }

  /** A step that changes one of the two jobs only */
  lemma LocalStep(a: Job, b: Job, x: Action)
    requires IsLocal(x) && (x.id == 0 || x.id == 1) && JobPossible(if x.id == 0 then a else b, x)
    requires JobSafe(if x.id == 0 then a else b, x)
    ensures Step(Pair(a, b), x, if x.id == 0 then Pair(ApplyJob(a, x), b) else Pair(a, ApplyJob(b, x)))
  {
    PairShaped(a, b);
    assert Put(Pair(a, b), x.id, ApplyJob(if x.id == 0 then a else b, x)) ==
           if x.id == 0 then Pair(ApplyJob(a, x), b) else Pair(a, ApplyJob(b, x));
  }

  lemma PairCreated() returns (states: seq<Txn>, actions: seq<Action>)
    ensures Run(states, actions) && states[|actions|] == Pair(At(Created, NotStarted, 1), At(Created, NotStarted, 1))
  {
    var c := At(Created, NotStarted, 1);
    var s1 := Txn(map[0 := c], [0], false, false, None);
    states, actions := [EMPTY], [];
    Longer(states, actions, Create(0, false, false), s1);
    states, actions := states + [s1], actions + [Create(0, false, false)];
    assert [1] + s1.members == [1, 0];
    Longer(states, actions, Create(1, false, false), Pair(c, c));
    states, actions := states + [Pair(c, c)], actions + [Create(1, false, false)];
  }

  /** One of the jobs starts and returns without error. */
  lemma Goes(states: seq<Txn>, actions: seq<Action>, a: Job, b: Job, id: JobId)
    returns (ss: seq<Txn>, aa: seq<Action>)
    requires Run(states, actions) && states[|actions|] == Pair(a, b) && (id == 0 || id == 1)
    requires (if id == 0 then a else b) == At(Created, NotStarted, 1)
    ensures var e := At(Running, Exiting, 0);
            Run(ss, aa) && ss[|aa|] == if id == 0 then Pair(e, b) else Pair(a, e)
  {
    var r, e := At(Running, Active, 0), At(Running, Exiting, 0);
    LocalStep(a, b, StartJob(id));
    var t := if id == 0 then Pair(r, b) else Pair(a, r);
    Longer(states, actions, StartJob(id), t);
    ss, aa := states + [t], actions + [StartJob(id)];
    LocalStep(if id == 0 then r else a, if id == 0 then b else r, DriverReturns(id, 0));
    var u := if id == 0 then Pair(e, b) else Pair(a, e);
    Longer(ss, aa, DriverReturns(id, 0), u);
    ss, aa := ss + [u], aa + [DriverReturns(id, 0)];
  }

  lemma FirstExits()
    ensures Step(Pair(At(Running, Exiting, 0), At(Running, Exiting, 0)), Exit(0, map[]),
                 Pair(At(Waiting, Exited, 0), At(Running, Exiting, 0)))
  {
    var e, w := At(Running, Exiting, 0), At(Waiting, Exited, 0);
    PairShaped(e, e);
    PairShaped(w, e);
    var u := Pair(w, e);
    assert u.members[0] == 1 && !AllCompleted(u) && ScanOk(u, 0);
  }

  lemma SecondSucceeds(t: Txn)
    requires t == Pair(At(Waiting, Exited, 0), At(Running, Exited, 0))
    ensures Shaped(t) && TxnSuccess(t, 1, map[]) == Pair(At(Pending, Exited, 0), At(Pending, Exited, 0))
  {
    var w, p := At(Waiting, Exited, 0), At(Pending, Exited, 0);
    PairShaped(w, At(Running, Exited, 0));
    PairShaped(w, w);
    PairShaped(p, p);
    var u := Pair(w, w);
    assert Put(t, 1, Goto(t.jobs[1], Waiting)) == u;
    assert ScanOk(u, 2) && ScanOk(u, 1) && ScanOk(u, 0);
    assert Put(u, 1, Assert(u.jobs[1], true)) == u;
    assert AllPending(u) == Pair(p, p);
    assert !Pair(p, p).jobs[Pair(p, p).members[0]].mode.autoFinalize;
  }

  lemma SecondExits(t: Txn, a: Action)
    requires t == Pair(At(Waiting, Exited, 0), At(Running, Exiting, 0)) && a == Exit(1, map[])
    ensures Step(t, a, Pair(At(Pending, Exited, 0), At(Pending, Exited, 0)))
  {
    var w, x := At(Waiting, Exited, 0), At(Running, Exited, 0);
    PairShaped(w, At(Running, Exiting, 0));
    var u := Pair(w, x);
    assert Put(t, 1, t.jobs[1].(co := Exited)) == u;
    SecondCompletes(u);
  }

  lemma SecondCompletes(t: Txn)
    requires t == Pair(At(Waiting, Exited, 0), At(Running, Exited, 0))
    ensures Shaped(t) && JobCompleted(t, 1, map[]) == Pair(At(Pending, Exited, 0), At(Pending, Exited, 0))
  {
    SecondSucceeds(t);
    var x := t.jobs[1];
    assert Assert(x, 1 in t.members && !Completed(x.status)) == x && UpdateRc(x) == x && Put(t, 1, x) == t;
  }

  /** Two jobs are created, started and succeed; both are then PENDING. */
  lemma PairPending() returns (states: seq<Txn>, actions: seq<Action>)
    ensures Run(states, actions) && states[|actions|] == Pair(At(Pending, Exited, 0), At(Pending, Exited, 0))
  {
    var c, e := At(Created, NotStarted, 1), At(Running, Exiting, 0);
    var w, p := At(Waiting, Exited, 0), At(Pending, Exited, 0);
    states, actions := PairCreated();
    states, actions := Goes(states, actions, c, c, 0);
    states, actions := Goes(states, actions, e, c, 1);
    FirstExits();
    Longer(states, actions, Exit(0, map[]), Pair(w, e));
    states, actions := states + [Pair(w, e)], actions + [Exit(0, map[])];
    SecondExits(Pair(w, e), Exit(1, map[]));
    Longer(states, actions, Exit(1, map[]), Pair(p, p));
    states, actions := states + [Pair(p, p)], actions + [Exit(1, map[])];
  }

  /** The claim that a transaction aborts as a whole fails: there is a run in which both jobs succeed,
      job 0 is finalized, the prepare of job 1 fails, job 1 aborts, and job 0 commits. */
  lemma InitiatorCommits(prep: Results) returns (states: seq<Txn>, actions: seq<Action>)
    requires prep == map[1 := -5]
    ensures Run(states, actions) && |actions| > 0 && actions[|actions| - 1] == FinalizeJob(0, prep)
    ensures var t := states[|actions| - 1]; AtFinalize(t, 0) && t.members == [1, 0]
    ensures var r := states[|actions|];
            0 in r.jobs && r.jobs[0].log == [Commit, Clean] && 1 in r.jobs && r.jobs[1].log == [Abort, Clean]
  {
    states, actions := PairPending();
    RunInv(states, actions);
    var t, a := states[|actions|], FinalizeJob(0, prep);
    FinalizeStart(t, a);
    FinalizeFails(t, 0, prep, 0, 0);
    FinalizeFails(t, 0, prep, 0, 1);
    Longer(states, actions, a, Apply(t, a));
    states, actions := states + [Apply(t, a)], actions + [a];
  }
}

/** What a transaction of jobs promises to those who created its jobs: manual finalization waits for the
    user, an error aborts, and jobs are run as they were created. */
module JobPromises {
  import opened Basics
  import opened JobState
  import opened JobTxn
  import opened JobRuns
  import opened JobResults

  /** The last step of a run */
  lemma LastStep(states: seq<Txn>, actions: seq<Action>, n: nat)
    requires Run(states, actions) && |actions| == n + 1
    ensures Run(states[..n + 1], actions[..n]) && Inv(states[n]) && Enabled(states[n], actions[n])
    ensures states[n + 1] == Apply(states[n], actions[n])
  {
    RunInv(states[..n + 1], actions[..n]);
    assert Step(states[n], actions[n], states[n + 1]);
  }

  // ----- one job that needs finalization keeps the whole transaction PENDING -----

  lemma ManualPending(t: Txn, id: JobId, prep: Results, m: JobId, x: JobId)
    requires EndingAt(t, id) && t.jobs[id].ret == 0 && !t.jobs[id].cancelled
    requires forall k :: k in t.members && k != id ==> Completed(t.jobs[k].status)
    requires m in t.members && !t.jobs[m].mode.autoFinalize && x in t.members
    ensures var r := TxnSuccess(t, id, prep);
            && r.members == t.members && !r.aborting && x in r.jobs
            && r.jobs[x].status.Pending? && r.jobs[x].log == []
  {
    var u := Put(t, id, Goto(t.jobs[id], Waiting));
    WaitingOk(t.jobs[id]);
    WaitingInv(t, id);
    ScanHolds(u, 0);
    assert Put(u, id, Assert(u.jobs[id], true)) == u;
    LastCompleted(t, id, u);
    AllPendingInv(u);
    var p := AllPending(u);
    assert BaseAt(u, x) && IsPending(p, x) && BaseAt(p, x);
    var i :| 0 <= i < |p.members| && p.members[i] == m;
    assert !p.jobs[p.members[i]].mode.autoFinalize;
  }

  // ----- who commits when -----

  lemma {:induction false} PrepareOthers(t: Txn, i: nat, prep: Results, x: JobId)
    requires Shaped(t) && i <= |t.members| && x in t.jobs && x !in t.members
    ensures PrepareFrom(t, i, prep).0.jobs[x] == t.jobs[x]
    decreases |t.members| - i
  {
    if i < |t.members| {
      var m := t.members[i];
      PrepareOthers(Put(t, m, Prepared(t.jobs[m], Rc(prep, m))), i + 1, prep, x);
    }
  }

  /** job_do_finalize does not touch other transactions' jobs, nor those that have left. */
  lemma FinalizeOthers(t: Txn, job: JobId, prep: Results, x: JobId)
    requires Shaped(t) && job in t.jobs && x in t.jobs && x !in t.members
    ensures x in DoFinalize(t, job, prep).jobs && DoFinalize(t, job, prep).jobs[x] == t.jobs[x]
  {
    var (u, rc) := PrepareFrom(t, 0, prep);
    PrepareOthers(t, 0, prep, x);
    if rc != 0 {
      if !u.aborting {
        OthersKept(Doom(u, job), x);
      }
    } else {
      FinalizeAllAt(u, x);
    }
  }

  /** An abort that a failed or cancelled job starts commits nobody. */
  lemma AbortCommitsNone(w: Txn, job: JobId, x: JobId)
    requires Shaped(w) && job in w.jobs && x in w.jobs && Commit !in w.jobs[x].log
    requires w.jobs[job].ret != 0 || w.jobs[job].cancelled
    requires Inv(TxnAbort(w, job))
    ensures Commit !in TxnAbort(w, job).jobs[x].log
  {
    var r := TxnAbort(w, job);
    if !w.aborting {
      assert r.aborting && !r.blameless && Uncommitted(r);
    }
  }

  /** The success of the last member commits a job only if it finalizes by itself. */
  lemma SuccessCommits(t: Txn, id: JobId, prep: Results, x: JobId)
    requires Shaped(t) && id in t.jobs && x in t.jobs && !t.jobs[x].mode.autoFinalize
    ensures var r := TxnSuccess(t, id, prep); x in r.jobs && r.jobs[x].log == t.jobs[x].log
  {
    var u := Put(t, id, Goto(t.jobs[id], Waiting));
    var v := Put(u, id, Assert(u.jobs[id], ScanOk(u, 0)));
    assert v.jobs[x].log == t.jobs[x].log && v.jobs[x].mode == t.jobs[x].mode;
    if AllCompleted(v) {
      PendingLog(v, x);
      var p := AllPending(v);
      if AllAutoFinalize(p) {
        assert x !in p.members;
        FinalizeOthers(p, id, prep, x);
      }
    }
  }

  lemma PendingLog(v: Txn, x: JobId)
    requires Shaped(v) && x in v.jobs
    ensures AllPending(v).jobs[x].log == v.jobs[x].log && AllPending(v).jobs[x].mode == v.jobs[x].mode
  {
  }

  lemma CompletedCommits(t: Txn, id: JobId, prep: Results, x: JobId)
    requires EndingAt(t, id) && x in t.jobs && Commit !in t.jobs[x].log && !t.jobs[x].mode.autoFinalize
    ensures x in JobCompleted(t, id, prep).jobs && Commit !in JobCompleted(t, id, prep).jobs[x].log
  {
    JobCompletedIs(t, id, prep);
    UpdateRcEnding(t.jobs[id]);
    var w := Put(t, id, UpdateRc(t.jobs[id]));
    if UpdateRc(t.jobs[id]).ret != 0 {
      FailedInv(t, id);
      AbortCommitsNone(w, id, x);
    } else {
      assert w == t;
      SuccessCommits(t, id, prep, x);
    }
  }

  lemma CancelCommits(t: Txn, a: Action, x: JobId)
    requires Inv(t) && Enabled(t, a) && a.CancelJob?
    requires x in t.jobs && Commit !in t.jobs[x].log && !t.jobs[x].mode.autoFinalize
    ensures x in Apply(t, a).jobs && Commit !in Apply(t, a).jobs[x].log
  {
    var j := t.jobs[a.id];
    assert IdOk(t, a.id);
    if !j.status.Concluded? {
      CancelAsyncOk(j, a.force);
      CancelledCommits(t, a, CancelAsync(j, a.force), x);
    }
  }

  lemma CancelledCommits(t: Txn, a: Action, k: Job, x: JobId)
    requires Inv(t) && Enabled(t, a) && a.CancelJob? && !t.jobs[a.id].status.Concluded? && !Over(t.jobs[a.id].status)
    requires k == CancelAsync(t.jobs[a.id], a.force) && k.cancelled && k.log == t.jobs[a.id].log
    requires x in t.jobs && Commit !in t.jobs[x].log && !t.jobs[x].mode.autoFinalize
    ensures x in Apply(t, a).jobs && Commit !in Apply(t, a).jobs[x].log
  {
    var j, u := t.jobs[a.id], Put(t, a.id, k);
    assert u.jobs[x].log == t.jobs[x].log && !u.jobs[x].mode.autoFinalize;
    assert IdOk(t, a.id);
    if !Started(j) {
      EndingFrom(t, a.id, k);
      CompletedCommits(u, a.id, map[], x);
    } else if Deferred(j) {
      CancelInv(t, a);
      AbortCommitsNone(u, a.id, x);
    }
  }

  /** A job that needs finalization is committed by job_finalize only. */
  lemma ManualStep(t: Txn, a: Action, x: JobId)
    requires Inv(t) && Enabled(t, a) && !a.FinalizeJob?
    requires x in t.jobs && Commit !in t.jobs[x].log && !t.jobs[x].mode.autoFinalize
    ensures x in Apply(t, a).jobs && Commit !in Apply(t, a).jobs[x].log
  {
    if a.AbortResumes? {
      AbortResumesInv(t);
      assert Uncommitted(AbortLoop(t));
    } else if a.Exit? {
      assert IdOk(t, a.id);
      EndingFrom(t, a.id, t.jobs[a.id].(co := Exited));
      CompletedCommits(Put(t, a.id, t.jobs[a.id].(co := Exited)), a.id, a.prep, x);
    } else if a.CancelJob? {
      CancelCommits(t, a, x);
    } else if IsLocal(a) {
      LocalIs(t, a);
      assert IdOk(t, a.id);
      LocalOk(t.jobs[a.id], a);
    }
  }

  /** On every run on which nobody calls job_finalize, no job that needs finalization commits. */
  lemma {:induction false} ManualWaits(states: seq<Txn>, actions: seq<Action>, x: JobId)
    requires Run(states, actions) && x in states[|actions|].jobs && !states[|actions|].jobs[x].mode.autoFinalize
    requires forall k :: 0 <= k < |actions| ==> !actions[k].FinalizeJob?
    ensures Commit !in states[|actions|].jobs[x].log
  {
    if |actions| > 0 {
      var n := |actions| - 1;
      LastStep(states, actions, n);
      if x in states[n].jobs {
        CompletedStays(states[n], actions[n], x);
        ManualWaits(states[..n + 1], actions[..n], x);
        ManualStep(states[n], actions[n], x);
      } else {
        NewJob(states[n], actions[n], x);
      }
    }
  }

  /** A job comes into being by its creation only. */
  lemma NewJob(t: Txn, a: Action, x: JobId)
    requires Inv(t) && Enabled(t, a) && x !in t.jobs && x in Apply(t, a).jobs
    ensures a.Create? && a.id == x && Apply(t, a).jobs[x] == New(a.autoFinalize, a.autoDismiss)
  {
    if a.AbortResumes? {
      AbortResumesInv(t);
    }
  }

  // ----- jobs are run as they were created -----

  /** Whether a job finalizes and dismisses itself is what its creator said. */
  lemma {:induction false} CreatedAs(states: seq<Txn>, actions: seq<Action>, x: JobId) returns (k: nat)
    requires Run(states, actions) && x in states[|actions|].jobs
    ensures var m := states[|actions|].jobs[x].mode;
            k < |actions| && actions[k] == Create(x, m.autoFinalize, m.autoDismiss)
  {
    var n := |actions| - 1;
    assert |actions| > 0;
    LastStep(states, actions, n);
    if x in states[n].jobs {
      CompletedStays(states[n], actions[n], x);
      k := CreatedAs(states[..n + 1], actions[..n], x);
    } else {
      NewJob(states[n], actions[n], x);
      k := n;
    }
  }

  /** The k-th action was a forced cancellation of a job that had not concluded. */
  predicate ForcedAt(states: seq<Txn>, actions: seq<Action>, x: JobId, k: nat) {
    k < |actions| && k < |states| && actions[k] == CancelJob(x, true)
    && x in states[k].jobs && !states[k].jobs[x].status.Concluded?
  }

  lemma ForcedStep(t: Txn, a: Action, x: JobId)
    requires Inv(t) && Enabled(t, a) && x in t.jobs
    ensures x in Apply(t, a).jobs
    ensures Apply(t, a).jobs[x].mode.forceCancel <==>
            t.jobs[x].mode.forceCancel || (a == CancelJob(x, true) && !t.jobs[x].status.Concluded?)
  {
    CompletedStays(t, a, x);
  }

  ghost predicate Forced(states: seq<Txn>, actions: seq<Action>, x: JobId) {
    exists k :: ForcedAt(states, actions, x, k)
  }

  lemma ForcedLast(states: seq<Txn>, actions: seq<Action>, x: JobId, n: nat)
    requires |actions| == n + 1 < |states|
    ensures Forced(states, actions, x) <==> Forced(states[..n + 1], actions[..n], x) || ForcedAt(states, actions, x, n)
  {
    var ss, aa := states[..n + 1], actions[..n];
    if k :| ForcedAt(states, actions, x, k) && k != n {
      assert ForcedAt(ss, aa, x, k);
    }
    if k :| ForcedAt(ss, aa, x, k) {
      assert ForcedAt(states, actions, x, k);
    }
  }

  /** A job is cancelled by force if and only if somebody asked for that. */
  lemma {:induction false} ForcedExactly(states: seq<Txn>, actions: seq<Action>, x: JobId)
    requires Run(states, actions) && x in states[|actions|].jobs
    ensures states[|actions|].jobs[x].mode.forceCancel <==> Forced(states, actions, x)
  {
    if |actions| > 0 {
      var n := |actions| - 1;
      LastStep(states, actions, n);
      ForcedLast(states, actions, x, n);
      if x in states[n].jobs {
        ForcedStep(states[n], actions[n], x);
        ForcedExactly(states[..n + 1], actions[..n], x);
      } else {
        NewJob(states[n], actions[n], x);
        NotForced(states[..n + 1], actions[..n], x);
      }
    }
  }

  lemma {:induction false} NotForced(states: seq<Txn>, actions: seq<Action>, x: JobId)
    requires Run(states, actions) && x !in states[|actions|].jobs
    ensures !Forced(states, actions, x)
  {
    if |actions| > 0 {
      var n := |actions| - 1;
      LastStep(states, actions, n);
      ForcedLast(states, actions, x, n);
      if x in states[n].jobs {
        CompletedStays(states[n], actions[n], x);
      }
      NotForced(states[..n + 1], actions[..n], x);
    }
  }

  // ----- an error aborts -----

  lemma {:induction false} ErrorKept(states: seq<Txn>, actions: seq<Action>, x: JobId, i: nat)
    requires Run(states, actions) && i <= |actions| && x in states[i].jobs && states[i].jobs[x].ret != 0
    ensures x in states[|actions|].jobs && states[|actions|].jobs[x].ret == states[i].jobs[x].ret
  {
    if i < |actions| {
      var n := |actions| - 1;
      ErrorKept(states[..n + 1], actions[..n], x, i);
      LastStep(states, actions, n);
      CompletedStays(states[n], actions[n], x);
    }
  }

  /** On every run, a job whose driver returned an error keeps that error and never commits; and as soon
      as it is completed the whole transaction is being aborted. */
  lemma ErrorAborts(states: seq<Txn>, actions: seq<Action>, x: JobId, i: nat, ret: int)
    requires Run(states, actions) && i < |actions| && actions[i] == DriverReturns(x, ret) && ret != 0
    ensures var t := states[|actions|];
            && x in t.jobs && t.jobs[x].ret == ret && Commit !in t.jobs[x].log
            && (Completed(t.jobs[x].status) ==> t.aborting)
  {
    assert Step(states[i], actions[i], states[i + 1]);
    ErrorKept(states, actions, x, i + 1);
    RunInv(states, actions);
    var t := states[|actions|];
    assert IdOk(t, x);
    assert [Abort, Clean][0] == Abort;
  }

  // ----- a cancelled job aborts -----

  lemma {:induction false} CancelledKept(states: seq<Txn>, actions: seq<Action>, x: JobId, i: nat)
    requires Run(states, actions) && i <= |actions| && x in states[i].jobs && states[i].jobs[x].cancelled
    ensures x in states[|actions|].jobs && states[|actions|].jobs[x].cancelled
  {
    if i < |actions| {
      var n := |actions| - 1;
      LastStep(states, actions, n);
      CancelledKept(states[..n + 1], actions[..n], x, i);
      CompletedStays(states[n], actions[n], x);
    }
  }

  /** job_cancel of a job that has not started, or whose driver has returned, aborts the transaction at
      once. */
  lemma CancelAbortsNow(t: Txn, x: JobId, force: bool)
    requires Inv(t) && Enabled(t, CancelJob(x, force)) && !t.jobs[x].status.Concluded?
    requires !Started(t.jobs[x]) || Deferred(t.jobs[x])
    ensures Apply(t, CancelJob(x, force)).aborting
  {
  }

  /** On every run, a job that was cancelled before it concluded never commits, whatever its driver
      returns. */
  lemma CancelledAborts(states: seq<Txn>, actions: seq<Action>, x: JobId, i: nat, force: bool)
    requires Run(states, actions) && i < |actions| && actions[i] == CancelJob(x, force)
    requires x in states[i].jobs && !states[i].jobs[x].status.Concluded?
    ensures var t := states[|actions|];
            && x in t.jobs && t.jobs[x].cancelled && Commit !in t.jobs[x].log
            && (t.jobs[x].status.Concluded? ==> t.jobs[x].log == [Abort, Clean] && t.jobs[x].ret != 0)
  {
    assert Run(states[..i + 2], actions[..i + 1]);
    LastStep(states[..i + 2], actions[..i + 1], i);
    CompletedStays(states[i], actions[i], x);
    CancelledKept(states, actions, x, i + 1);
    RunInv(states, actions);
    assert IdOk(states[|actions|], x);
    assert [Abort, Clean][0] == Abort;
  }

  // ----- job_exit completes the job -----

  lemma SuccessEnds(t: Txn, id: JobId, prep: Results)
    requires Shaped(t) && id in t.jobs
    ensures Completed(TxnSuccess(t, id, prep).jobs[id].status)
  {
    var u := Put(t, id, Goto(t.jobs[id], Waiting));
    var v := Put(u, id, Assert(u.jobs[id], ScanOk(u, 0)));
    if AllCompleted(v) {
      AllPendingForward(v, id);
      if AllAutoFinalize(AllPending(v)) {
        DoFinalizeForward(AllPending(v), id, prep, id);
      }
    }
  }

  /** Once job_exit has run the job is completed: it waits for the others, has ended, or aborts. */
  lemma ExitCompletes(t: Txn, id: JobId, prep: Results)
    requires Inv(t) && Enabled(t, Exit(id, prep))
    ensures id in Apply(t, Exit(id, prep)).jobs && Completed(Apply(t, Exit(id, prep)).jobs[id].status)
  {
    var u := Put(t, id, t.jobs[id].(co := Exited));
    var k := UpdateRc(Assert(u.jobs[id], id in u.members && !Completed(u.jobs[id].status)));
    if k.ret != 0 {
      TxnAbortForward(Put(u, id, k), id, id);
    } else {
      SuccessEnds(Put(u, id, k), id, prep);
    }
  }

  // ----- the end of an abort -----

  /** When the job that an abort waits for has completed, it is finalized, and the abort goes on: it is over,
      or waits for another member that is not completed yet.  Members that are left have not been touched. */
  lemma AbortGoesOn(t: Txn, x: JobId)
    requires Inv(t) && Enabled(t, AbortResumes) && x in t.members
    ensures var r := Apply(t, AbortResumes);
            && |r.members| < |t.members| && t.waiting.value !in r.members && x in r.jobs
            && (if x in r.members then r.jobs[x] == t.jobs[x] else Over(r.jobs[x].status) && r.jobs[x].log != [])
            && (if r.members == [] then r.waiting == None
                else r.waiting.Some? && r.waiting.value in r.members && !Completed(r.jobs[r.waiting.value].status))
  {
    AbortResumesInv(t);
    ResumesFalls(t);
    FallingDoomed(t);
    LoopShortens(t);
    AbortLoopAt(t, x);
    if x !in AbortLoop(t).members {
      assert FallingAt(t, x);
      FinalizedOk(t.jobs[x]);
    }
  }

  lemma {:induction false} LoopShortens(t: Txn)
    requires Shaped(t)
    ensures var r := AbortLoop(t);
            && |r.members| <= |t.members| && (r.members != [] ==> !Completed(r.jobs[r.members[0]].status))
            && (t.members != [] && Completed(t.jobs[t.members[0]].status) ==>
                  |r.members| < |t.members| && t.members[0] !in r.members)
            && forall m :: m in r.members ==> m in t.members
    decreases |t.members|
  {
    if t.members != [] && Completed(t.jobs[t.members[0]].status) {
      var u := FinalizeFirst(t);
      LoopShortens(u);
      assert forall i :: 0 <= i < |u.members| ==> u.members[i] == t.members[i + 1];
    }
  }

  /** job_early_fail: the job is gone, and no other job is touched. */
  lemma EarlyFailLeaves(t: Txn, id: JobId, x: JobId)
    requires Inv(t) && Enabled(t, EarlyFail(id)) && x in t.jobs
    ensures var r := Apply(t, EarlyFail(id));
            && id in r.jobs && r.jobs[id] == t.jobs[id].(status := Null)
            && (x != id ==> x in r.jobs && r.jobs[x] == t.jobs[x])
            && (x in r.members <==> x in t.members && x != id)
  {
    assert IdOk(t, id);
  }

  // ----- pausing and resuming -----

  predicate Pauses(a: Action, b: Action) {
    (a.UserPause? && b.UserResume?) || (a.PauseJob? && b.ResumeJob?)
  }

  /** A running job that is paused, by the user or by a drained section, stops at its next pause point and
      can be resumed; resuming it and entering it again takes it back to where it was, and on, unless
      somebody else has paused it as well. */
  lemma PauseStops(j: Job, a: Action, b: Action)
    requires JobOk(j) && j.co.Active? && !j.cancelled && Pauses(a, b) && JobPossible(j, a)
    ensures var k := PausePoint(ApplyJob(j, a));
            && JobOk(k) && k.co.PausedAt? && JobPossible(k, b) && JobSafe(k, b)
            && Unpause(ApplyJob(k, b)) == j
            && (j.pause.count == 0 ==> PausePoint(j) == j)
  {
  }
}

/** What every run of a job transaction keeps: no assertion fails, every status change is in the
    table, and members that end have committed or aborted exactly once. */
module JobRuns {
  import opened Basics
  import opened JobState
  import opened JobTxn

  // ----- the invariant -----

  predicate Over(s: Status) {
    s.Concluded? || s.Null?
  }

  /** What holds of a member, depending on whether the transaction is being aborted */
  predicate MemberOk(t: Txn, j: Job) {
    if t.aborting then (j.cancelled || j.status.Aborting?) && !j.status.Pending?
    else !j.status.Aborting? && (Completed(j.status) ==> !j.cancelled)
  }

  ghost predicate IdOk(t: Txn, id: JobId)
    requires id in t.jobs
  {
    && JobOk(t.jobs[id])
    && (id in t.members <==> !Over(t.jobs[id].status))
    && (id in t.members ==> MemberOk(t, t.jobs[id]))
  }

  /** While nothing went wrong, the members become PENDING together. */
  ghost predicate Together(t: Txn) {
    !t.aborting ==>
      forall a, b {:trigger IsPending(t, a), b in t.members} ::
        a in t.members && b in t.members && IsPending(t, a) ==> IsPending(t, b)
  }

  /** No job has committed, unless the transaction is through. */
  ghost predicate Uncommitted(t: Txn) {
    (if t.aborting then !t.blameless else t.members != []) ==>
      forall id {:trigger t.jobs[id]} :: id in t.jobs ==> Commit !in t.jobs[id].log
  }

  /** No job has aborted, unless the transaction has. */
  ghost predicate Unaborted(t: Txn) {
    !t.aborting ==> forall id {:trigger t.jobs[id]} :: id in t.jobs ==> Abort !in t.jobs[id].log
  }

  ghost predicate Inv(t: Txn) {
    && Shaped(t)
    && (forall id {:trigger IdOk(t, id)} :: id in t.jobs ==> IdOk(t, id))
    && Together(t) && Uncommitted(t) && Unaborted(t)
    && (t.aborting && t.blameless ==> t.members == []) && WaitOk(t)
  }

  /** An abort that is not through waits for the first member. */
  predicate WaitOk(t: Txn) {
    t.waiting == if t.aborting && t.members != [] then Some(t.members[0]) else None
  }

  lemma EmptyInv()
    ensures Inv(EMPTY)
  {
  }

  // ----- the two loops that finalize -----

  lemma FirstRest(t: Txn, id: JobId)
    requires Shaped(t) && t.members != []
    ensures id in t.members <==> id == t.members[0] || id in t.members[1..]
    ensures t.members[0] !in t.members[1..]
  {
  }

  lemma {:induction false} FinalizeAllAt(t: Txn, id: JobId)
    requires Shaped(t) && id in t.jobs
    ensures var r := FinalizeAll(t);
            r.jobs[id] == if id in t.members then Finalized(t.jobs[id]) else t.jobs[id]
    decreases |t.members|
  {
    if t.members != [] {
      FirstRest(t, id);
      FinalizeAllAt(FinalizeFirst(t), id);
    }
  }

  /** Every member that is not completed has been cancelled. */
  ghost predicate Doomed(t: Txn)
    requires Shaped(t)
  {
    forall i :: 0 <= i < |t.members| ==> Completed(t.jobs[t.members[i]].status) || t.jobs[t.members[i]].cancelled
  }

  lemma DoomedRest(t: Txn)
    requires Shaped(t) && Doomed(t) && t.members != []
    ensures Doomed(FinalizeFirst(t)) && (AllCompleted(t) ==> AllCompleted(FinalizeFirst(t)))
  {
    var u := FinalizeFirst(t);
    assert forall i :: 0 <= i < |u.members| ==> u.members[i] == t.members[i + 1];
  }

  lemma {:induction false} AbortLoopAll(t: Txn)
    requires Shaped(t) && Doomed(t) && AllCompleted(t)
    ensures AbortLoop(t).members == []
    decreases |t.members|
  {
    if t.members != [] {
      DoomedRest(t);
      AbortLoopAll(FinalizeFirst(t));
    }
  }

  /** The abort loop finalizes some completed members and leaves the others alone. */
  lemma {:induction false} AbortLoopAt(t: Txn, id: JobId)
    requires Shaped(t) && id in t.jobs && Doomed(t)
    ensures var r := AbortLoop(t);
            && (id in r.members ==> id in t.members)
            && (id in t.members && id !in r.members ==> Completed(t.jobs[id].status))
            && (r.jobs[id] == if id in t.members && id !in r.members then Finalized(t.jobs[id]) else t.jobs[id])
    decreases |t.members|
  {
    if t.members != [] {
      FirstRest(t, id);
      if Completed(t.jobs[t.members[0]].status) {
        DoomedRest(t);
        AbortLoopAt(FinalizeFirst(t), id);
      }
    }
  }

  /** The loop leaves jobs that are not on the list alone. */
  lemma {:induction false} OthersKept(t: Txn, id: JobId)
    requires Shaped(t) && id in t.jobs && id !in t.members
    ensures AbortLoop(t).jobs[id] == t.jobs[id]
    decreases |t.members|
  {
    if t.members != [] && Completed(t.jobs[t.members[0]].status) {
      OthersKept(FinalizeFirst(t), id);
    }
  }

  /** A member that the abort loop may find */
  predicate Abortable(j: Job) {
    JobOk(j) && !Over(j.status) && (j.cancelled || j.status.Aborting? || j.status.Pending?)
  }

  /** The state in which the abort loop starts: members are cancelled or have failed; only when all
      of them are completed there may be one that did neither. */
  ghost predicate Falling(t: Txn) {
    && Shaped(t) && t.aborting
    && (forall id {:trigger FallingAt(t, id)} :: id in t.jobs ==> FallingAt(t, id))
    && (t.blameless ==> AllCompleted(t)) && (AllCompleted(t) || NoPending(t))
  }

  ghost predicate NoPending(t: Txn) {
    forall id {:trigger IsPending(t, id)} :: id in t.members ==> !IsPending(t, id)
  }

  ghost predicate FallingAt(t: Txn, id: JobId)
    requires id in t.jobs
  {
    var j := t.jobs[id];
    if id in t.members then Abortable(j) && (j.cancelled || j.status.Aborting? || t.blameless) && j.log == []
    else JobOk(j) && Over(j.status) && (!t.blameless ==> Commit !in j.log)
  }

  lemma FallingDoomed(t: Txn)
    requires Falling(t)
    ensures Doomed(t)
  {
    forall i | 0 <= i < |t.members|
      ensures Completed(t.jobs[t.members[i]].status) || t.jobs[t.members[i]].cancelled
    {
      assert FallingAt(t, t.members[i]);
    }
  }

  lemma AbortLoopInv(t: Txn)
    requires Falling(t)
    ensures Inv(AbortLoop(t))
  {
    var r := AbortLoop(t);
    FallingDoomed(t);
    if AllCompleted(t) {
      AbortLoopAll(t);
    }
    forall id | id in r.jobs
      ensures IdOk(r, id) && (!r.blameless ==> Commit !in r.jobs[id].log)
    {
      assert FallingAt(t, id);
      AbortLoopAt(t, id);
      if id in t.members && id !in r.members {
        FinalizedOk(t.jobs[id]);
      } else if id in r.members {
        assert !IsPending(t, id);
      }
    }
  }

  // ----- starting an abort -----

  /** The part of the invariant that does not depend on whether the transaction is aborting */
  ghost predicate Base(t: Txn) {
    && Shaped(t) && (!t.aborting ==> t.waiting == None)
    && forall id {:trigger BaseAt(t, id)} :: id in t.jobs ==> BaseAt(t, id)
  }

  ghost predicate BaseAt(t: Txn, id: JobId)
    requires id in t.jobs
  {
    && JobOk(t.jobs[id]) && (id in t.members <==> !Over(t.jobs[id].status)) && Commit !in t.jobs[id].log
    && (!t.aborting ==> Abort !in t.jobs[id].log)
  }

  lemma InvBase(t: Txn)
    requires Inv(t) && !(t.aborting && t.blameless) && (t.aborting || t.members != [])
    ensures Base(t)
  {
    forall id | id in t.jobs
      ensures BaseAt(t, id)
    {
      assert IdOk(t, id);
    }
  }

  lemma CancelAsyncOk(j: Job, force: bool)
    requires JobOk(j) && !Over(j.status)
    ensures var k := CancelAsync(j, force);
            JobOk(k) && k.cancelled && k.status == j.status && k.log == j.log && k.co == j.co && k.ret == j.ret
  {
  }

  lemma DoomFalls(t: Txn, job: JobId)
    requires Base(t) && !t.aborting && job in t.members && (AllCompleted(t) || NoPending(t))
    requires t.jobs[job].cancelled || t.jobs[job].status.Aborting? || (t.jobs[job].status.Pending? && AllCompleted(t))
    ensures Falling(Doom(t, job))
  {
    var u := Doom(t, job);
    forall id | id in u.jobs
      ensures FallingAt(u, id)
    {
      assert BaseAt(t, id);
      if id in t.members {
        CancelAsyncOk(t.jobs[id], false);
      }
    }
    assert BaseAt(t, job);
    forall id | id in u.members
      ensures u.jobs[id].status == t.jobs[id].status
    {
      assert BaseAt(t, id);
      CancelAsyncOk(t.jobs[id], false);
    }
    DoomStatuses(t, u);
  }

  lemma DoomStatuses(t: Txn, u: Txn)
    requires Shaped(t) && Shaped(u) && t.members == u.members && (AllCompleted(t) || NoPending(t))
    requires forall id {:trigger u.jobs[id]} :: id in u.members ==> u.jobs[id].status == t.jobs[id].status
    ensures AllCompleted(t) ==> AllCompleted(u)
    ensures AllCompleted(u) || NoPending(u)
  {
    forall id | id in u.members && NoPending(t)
      ensures !IsPending(u, id)
    {
      assert !IsPending(t, id);
    }
  }

  /** job_completed_txn_abort keeps the invariant. */
  lemma TxnAbortInv(t: Txn, job: JobId)
    requires Base(t) && !t.aborting && job in t.members && (AllCompleted(t) || NoPending(t))
    requires t.jobs[job].cancelled || t.jobs[job].status.Aborting? || (t.jobs[job].status.Pending? && AllCompleted(t))
    ensures Inv(TxnAbort(t, job))
  {
    DoomFalls(t, job);
    AbortLoopInv(Doom(t, job));
  }

  // ----- job_do_finalize -----

  /** Every member is PENDING, and none was cancelled. */
  ghost predicate AtPending(t: Txn) {
    Shaped(t) && forall id {:trigger IsPending(t, id)} :: id in t.members ==> IsPending(t, id) && !t.jobs[id].cancelled
  }

  lemma PendingEach(t: Txn)
    requires AtPending(t)
    ensures forall k :: 0 <= k < |t.members| ==> IsPending(t, t.members[k]) && !t.jobs[t.members[k]].cancelled
  {
    forall k | 0 <= k < |t.members|
      ensures IsPending(t, t.members[k]) && !t.jobs[t.members[k]].cancelled
    {
      assert t.members[k] in t.members;
      assert IsPending(t, t.members[k]);
    }
  }

  /** prepare leaves a job alone or fails it. */
  lemma PreparedOk(j: Job, rc: int)
    requires JobOk(j) && j.status.Pending? && !j.cancelled
    ensures var k := Prepared(j, rc);
            if rc == 0 then k == j
            else JobOk(k) && k == j.(status := Status.Aborting, ret := rc)
  {
  }

  /** What job_txn_apply(job, job_prepare) does to one job */
  lemma {:induction false} PrepareAt(t: Txn, i: nat, prep: Results, id: JobId)
    requires Base(t) && i <= |t.members| && id in t.jobs
    requires forall k :: i <= k < |t.members| ==> IsPending(t, t.members[k]) && !t.jobs[t.members[k]].cancelled
    ensures var (u, rc) := PrepareFrom(t, i, prep);
            && (rc == 0 ==> u == t && forall k :: i <= k < |t.members| ==> Rc(prep, t.members[k]) == 0)
            && (rc != 0 ==> exists k :: i <= k < |t.members| && Rc(prep, t.members[k]) == rc)
            && (u.jobs[id] == t.jobs[id]
                || (&& id in t.members && IsPending(t, id) && Rc(prep, id) != 0
                    && u.jobs[id] == t.jobs[id].(status := Status.Aborting, ret := Rc(prep, id))))
    decreases |t.members| - i
  {
    if i < |t.members| {
      var m := t.members[i];
      assert BaseAt(t, m);
      PreparedOk(t.jobs[m], Rc(prep, m));
      if Rc(prep, m) == 0 {
        assert Put(t, m, t.jobs[m]) == t;
        PrepareAt(t, i + 1, prep, id);
      }
    }
  }

  lemma PrepareBase(t: Txn, prep: Results)
    requires Base(t) && AtPending(t)
    ensures var u := PrepareFrom(t, 0, prep).0; Base(u) && AllCompleted(u)
  {
    var u := PrepareFrom(t, 0, prep).0;
    PendingEach(t);
    forall id | id in u.jobs
      ensures BaseAt(u, id) && (id in u.members ==> Completed(u.jobs[id].status))
    {
      assert BaseAt(t, id);
      PrepareAt(t, 0, prep, id);
      if id in t.members {
        assert IsPending(t, id);
      }
    }
  }

  lemma FinalizeAllInv(t: Txn)
    requires Base(t) && !t.aborting && AtPending(t)
    ensures Inv(FinalizeAll(t))
  {
    var r := FinalizeAll(t);
    forall id | id in r.jobs
      ensures IdOk(r, id) && Abort !in r.jobs[id].log
    {
      assert BaseAt(t, id);
      FinalizeAllAt(t, id);
      if id in t.members {
        assert IsPending(t, id);
        FinalizedOk(t.jobs[id]);
      }
    }
  }

  /** job_do_finalize keeps the invariant, whatever the prepare functions return. */
  lemma DoFinalizeInv(t: Txn, job: JobId, prep: Results)
    requires Base(t) && !t.aborting && AtPending(t) && job in t.members
    ensures Inv(DoFinalize(t, job, prep))
  {
    var (u, rc) := PrepareFrom(t, 0, prep);
    PendingEach(t);
    PrepareAt(t, 0, prep, job);
    if rc != 0 {
      PrepareBase(t, prep);
      assert IsPending(t, job);
      TxnAbortInv(u, job);
    } else {
      FinalizeAllInv(t);
    }
  }

  // ----- job_completed -----

  /** A job about to be completed: its coroutine has ended, or it was cancelled before the start. */
  predicate Ending(j: Job) {
    && !j.bad && j.log == [] && j.pause.count >= Held(j)
    && if j.status.Created? then j.co.NotStarted? && j.cancelled && !j.pause.user && j.ret == 0
       else (j.status.Running? || j.status.Ready?) && j.co.Exited?
  }

  lemma UpdateRcEnding(j: Job)
    requires Ending(j)
    ensures var k := UpdateRc(j);
            if j.ret == 0 && !j.cancelled then k == j
            else JobOk(k) && k.status.Aborting? && k.log == []
  {
  }

  lemma WaitingOk(j: Job)
    requires Ending(j) && j.ret == 0 && !j.cancelled
    ensures var k := Goto(j, Waiting); JobOk(k) && k == j.(status := Waiting)
  {
  }

  lemma PendingOk(j: Job)
    requires JobOk(j) && j.status.Waiting?
    ensures var k := Goto(j, Pending); JobOk(k) && k == j.(status := Pending)
  {
  }

  /** `t` with job `id` brought to an end satisfies the rest of the invariant. */
  ghost predicate EndingAt(t: Txn, id: JobId) {
    && Shaped(t) && id in t.jobs && id in t.members && Ending(t.jobs[id]) && WaitOk(t)
    && (t.aborting ==> t.jobs[id].cancelled && !t.blameless)
    && forall k {:trigger IdOk(t, k)} :: k in t.jobs && k != id ==>
         && IdOk(t, k) && Commit !in t.jobs[k].log
         && (t.aborting || (Abort !in t.jobs[k].log && !t.jobs[k].status.Pending?))
  }

  lemma FailedInv(t: Txn, id: JobId)
    requires EndingAt(t, id) && (t.jobs[id].ret != 0 || t.jobs[id].cancelled)
    ensures Inv(TxnAbort(Put(t, id, UpdateRc(t.jobs[id])), id))
  {
    var u := Put(t, id, UpdateRc(t.jobs[id]));
    UpdateRcEnding(t.jobs[id]);
    forall k | k in u.jobs
      ensures BaseAt(u, k) && (t.aborting ==> IdOk(u, k))
    {
      if k != id {
        assert IdOk(t, k);
      }
    }
    if !t.aborting {
      forall k | k in u.members
        ensures !IsPending(u, k)
      {
        if k != id {
          assert IdOk(t, k);
        }
      }
      TxnAbortInv(u, id);
    }
  }

  /** The members that have completed so far are WAITING. */
  lemma WaitingInv(t: Txn, id: JobId)
    requires EndingAt(t, id) && t.jobs[id].ret == 0 && !t.jobs[id].cancelled
    ensures var u := Put(t, id, Goto(t.jobs[id], Waiting));
            && Inv(u) && Base(u)
            && forall k {:trigger u.jobs[k]} :: k in u.members ==> !u.jobs[k].status.Pending?
  {
    var u := Put(t, id, Goto(t.jobs[id], Waiting));
    WaitingOk(t.jobs[id]);
    forall k | k in u.jobs
      ensures IdOk(u, k) && BaseAt(u, k) && !IsPending(u, k)
    {
      if k != id {
        assert IdOk(t, k);
      }
    }
  }

  lemma {:induction false} ScanHolds(t: Txn, i: nat)
    requires Inv(t) && !t.aborting && i <= |t.members|
    ensures ScanOk(t, i)
    decreases |t.members| - i
  {
    if i < |t.members| {
      assert IdOk(t, t.members[i]);
      ScanHolds(t, i + 1);
    }
  }

  lemma AllPendingInv(t: Txn)
    requires Inv(t) && Base(t) && !t.aborting && AllCompleted(t) && t.members != []
    requires forall k {:trigger t.jobs[k]} :: k in t.members ==> !t.jobs[k].status.Pending?
    ensures var r := AllPending(t); Inv(r) && Base(r) && AtPending(r)
  {
    var r := AllPending(t);
    forall k | k in r.jobs
      ensures IdOk(r, k) && BaseAt(r, k) && (k in r.members ==> IsPending(r, k) && !r.jobs[k].cancelled)
    {
      assert IdOk(t, k) && BaseAt(t, k);
      if k in t.members {
        var i :| 0 <= i < |t.members| && t.members[i] == k;
        assert t.jobs[k].status.Waiting?;
        PendingOk(t.jobs[k]);
      }
    }
  }

  lemma SucceededInv(t: Txn, id: JobId, prep: Results)
    requires EndingAt(t, id) && t.jobs[id].ret == 0 && !t.jobs[id].cancelled
    ensures Inv(TxnSuccess(t, id, prep))
  {
    var u := Put(t, id, Goto(t.jobs[id], Waiting));
    WaitingInv(t, id);
    ScanHolds(u, 0);
    assert Put(u, id, Assert(u.jobs[id], true)) == u;
    if AllCompleted(u) {
      AllPendingInv(u);
      if AllAutoFinalize(AllPending(u)) {
        DoFinalizeInv(AllPending(u), id, prep);
      }
    }
  }

  /** job_completed, when its assertion holds */
  lemma JobCompletedIs(t: Txn, id: JobId, prep: Results)
    requires Shaped(t) && id in t.jobs && id in t.members && !Completed(t.jobs[id].status)
    ensures var k := UpdateRc(t.jobs[id]);
            JobCompleted(t, id, prep) ==
            if k.ret != 0 then TxnAbort(Put(t, id, k), id) else TxnSuccess(Put(t, id, k), id, prep)
  {
    assert Assert(t.jobs[id], true) == t.jobs[id];
  }

  lemma JobCompletedInv(t: Txn, id: JobId, prep: Results)
    requires EndingAt(t, id)
    ensures Inv(JobCompleted(t, id, prep))
  {
    JobCompletedIs(t, id, prep);
    UpdateRcEnding(t.jobs[id]);
    if t.jobs[id].ret != 0 || t.jobs[id].cancelled {
      assert UpdateRc(t.jobs[id]).ret != 0;
      FailedInv(t, id);
    } else {
      assert Put(t, id, t.jobs[id]) == t;
      SucceededInv(t, id, prep);
    }
  }

  // ----- the other actions -----

  /** Replacing one job by one that is like it as far as the transaction is concerned */
  lemma PutInv(t: Txn, id: JobId, k: Job)
    requires Inv(t) && id in t.jobs && JobOk(k) && Over(k.status) == Over(t.jobs[id].status)
    requires id in t.members ==> MemberOk(t, k)
    requires k.status.Pending? == t.jobs[id].status.Pending? && k.log == t.jobs[id].log
    ensures Inv(Put(t, id, k))
  {
    var u := Put(t, id, k);
    forall x | x in u.jobs
      ensures IdOk(u, x) && (IsPending(u, x) <==> IsPending(t, x)) && u.jobs[x].log == t.jobs[x].log
    {
      assert IdOk(t, x);
    }
    assert IdOk(t, id);
  }

  predicate IsLocal(a: Action) {
    !(a.Create? || a.AbortResumes? || a.Exit? || a.CancelJob? || a.FinalizeJob? || a.EarlyFail?)
  }

  /** What an action on one job alone does */
  lemma LocalOk(j: Job, a: Action)
    requires JobOk(j) && IsLocal(a) && JobPossible(j, a) && JobSafe(j, a)
    ensures var k := ApplyJob(j, a);
            && JobOk(k) && k.cancelled == j.cancelled && k.log == j.log && Over(k.status) == Over(j.status)
            && (k.status == j.status || !Completed(k.status) || Over(j.status))
            && (Completed(j.status) ==> Completed(k.status)) && (k.status.Pending? ==> j.status.Pending?)
  {
    match a
    case StartJob(_) =>
    case PauseAt(_) =>
    case Enter(_) =>
    case DriverReady(_) =>
    case _ =>
  }

  lemma LocalInv(t: Txn, a: Action)
    requires Inv(t) && Enabled(t, a) && IsLocal(a)
    ensures Inv(Apply(t, a))
  {
    assert IdOk(t, a.id);
    LocalOk(t.jobs[a.id], a);
    PutInv(t, a.id, ApplyJob(t.jobs[a.id], a));
  }

  lemma CreateInv(t: Txn, a: Action)
    requires Inv(t) && Enabled(t, a) && a.Create?
    ensures Inv(Apply(t, a))
  {
    var u := Apply(t, a);
    forall x | x in u.jobs
      ensures IdOk(u, x) && !IsPending(u, x) && Commit !in u.jobs[x].log
    {
      if x != a.id {
        assert IdOk(t, x);
      } else {
        assert x !in t.members;
      }
    }
  }

  lemma EarlyFailInv(t: Txn, a: Action)
    requires Inv(t) && Enabled(t, a) && a.EarlyFail?
    ensures Inv(Apply(t, a))
  {
    var u := Apply(t, a);
    assert IdOk(t, a.id);
    forall x | x in u.jobs
      ensures IdOk(u, x) && (IsPending(u, x) <==> IsPending(t, x)) && u.jobs[x].log == t.jobs[x].log
    {
      assert IdOk(t, x);
    }
  }

  lemma AbortResumesInv(t: Txn)
    requires Inv(t) && Enabled(t, AbortResumes)
    ensures EndWait(t) == AbortLoop(t) && Inv(AbortLoop(t))
  {
    ResumesLoop(t);
    ResumesFalls(t);
    AbortLoopInv(t);
  }

  lemma ResumesFalls(t: Txn)
    requires Inv(t) && Enabled(t, AbortResumes)
    ensures Falling(t)
  {
    forall id | id in t.jobs
      ensures FallingAt(t, id)
    {
      assert IdOk(t, id);
    }
    forall id | id in t.members
      ensures !IsPending(t, id)
    {
      assert IdOk(t, id);
    }
  }

  /** The job that was waited for is still the first of the list. */
  lemma ResumesLoop(t: Txn)
    requires Shaped(t) && WaitOk(t) && t.waiting.Some? && Completed(t.jobs[t.members[0]].status)
    ensures EndWait(t) == AbortLoop(t)
  {
    var m := t.members[0];
    WithoutFirst(t.members);
    assert Put(Leave(t, m), m, Finalized(t.jobs[m])) == FinalizeFirst(t);
  }

  /** Bringing the coroutine of a member to its end */
  lemma EndingFrom(t: Txn, id: JobId, k: Job)
    requires Inv(t) && id in t.jobs && id in t.members && !Completed(t.jobs[id].status)
    requires Ending(k) && (t.jobs[id].cancelled ==> k.cancelled)
    ensures EndingAt(Put(t, id, k), id)
  {
    var u := Put(t, id, k);
    assert IdOk(t, id);
    forall x | x in u.jobs && x != id
      ensures IdOk(u, x) && Commit !in u.jobs[x].log
      ensures u.aborting || (Abort !in u.jobs[x].log && !u.jobs[x].status.Pending?)
    {
      assert IdOk(t, x);
      if !t.aborting && t.jobs[x].status.Pending? {
        assert IsPending(t, x) && !IsPending(t, id);
      }
    }
  }

  lemma ExitInv(t: Txn, a: Action)
    requires Inv(t) && Enabled(t, a) && a.Exit?
    ensures Inv(Apply(t, a))
  {
    assert IdOk(t, a.id);
    var k := t.jobs[a.id].(co := Exited);
    EndingFrom(t, a.id, k);
    JobCompletedInv(Put(t, a.id, k), a.id, a.prep);
  }

  /** Before an abort starts, either all members are PENDING or none is. */
  lemma PendingOrNot(t: Txn, id: JobId, k: Job)
    requires Inv(t) && !t.aborting && id in t.jobs && id in t.members && k.status == t.jobs[id].status
    ensures var u := Put(t, id, k); AllCompleted(u) || NoPending(u)
  {
    var u := Put(t, id, k);
    if !NoPending(u) {
      var x :| x in u.members && IsPending(u, x);
      assert IsPending(t, x);
      forall i | 0 <= i < |u.members|
        ensures Completed(u.jobs[u.members[i]].status)
      {
        assert t.members[i] in t.members;
        assert IsPending(t, t.members[i]);
      }
    }
  }

  lemma CancelInv(t: Txn, a: Action)
    requires Inv(t) && Enabled(t, a) && a.CancelJob?
    ensures Inv(Apply(t, a))
  {
    var j := t.jobs[a.id];
    assert IdOk(t, a.id);
    if j.status.Concluded? {
      PutInv(t, a.id, DoDismiss(j));
    } else {
      var k := CancelAsync(j, a.force);
      CancelAsyncOk(j, a.force);
      if !Started(j) {
        EndingFrom(t, a.id, k);
        JobCompletedInv(Put(t, a.id, k), a.id, map[]);
      } else if Deferred(j) && !t.aborting {
        CancelAborts(t, a.id, k);
      } else {
        PutInv(t, a.id, k);
      }
    }
  }

  /** job_cancel of a job that is not yet dismissed fails an assertion if and only if the job was
      cancelled before it was started and still waits to be finalized. */
  lemma CancelFailsExactly(t: Txn, id: JobId, force: bool)
    requires Inv(t) && id in t.jobs && !t.jobs[id].status.Null?
    ensures var r := DoCancel(t, id, force);
            (exists x :: x in r.jobs && r.jobs[x].bad) <==> CompletedTwice(t.jobs[id])
  {
    var r := DoCancel(t, id, force);
    if CompletedTwice(t.jobs[id]) {
      assert IdOk(t, id);
      assert r.jobs[id].bad;
    } else {
      CancelInv(t, CancelJob(id, force));
      forall x | x in r.jobs
        ensures !r.jobs[x].bad
      {
        assert IdOk(r, x);
      }
    }
  }

  lemma CancelAborts(t: Txn, id: JobId, k: Job)
    requires Inv(t) && !t.aborting && id in t.jobs && id in t.members
    requires JobOk(k) && k.cancelled && k.status == t.jobs[id].status && k.log == t.jobs[id].log
    ensures Inv(TxnAbort(Put(t, id, k), id))
  {
    var u := Put(t, id, k);
    InvBase(t);
    forall x | x in u.jobs
      ensures BaseAt(u, x)
    {
      assert BaseAt(t, x);
    }
    assert BaseAt(t, id);
    PendingOrNot(t, id, k);
    TxnAbortInv(u, id);
  }

  lemma FinalizeJobInv(t: Txn, a: Action)
    requires Inv(t) && Enabled(t, a) && a.FinalizeJob?
    ensures Inv(Apply(t, a))
  {
    assert IdOk(t, a.id);
    InvBase(t);
    assert IsPending(t, a.id);
    forall x | x in t.members
      ensures IsPending(t, x) && !t.jobs[x].cancelled
    {
      assert IdOk(t, x);
    }
    DoFinalizeInv(t, a.id, a.prep);
  }

  /** Every action keeps the invariant. */
  lemma ApplyInv(t: Txn, a: Action)
    requires Inv(t) && Enabled(t, a)
    ensures Inv(Apply(t, a))
  {
    if a.Create? {
      CreateInv(t, a);
    } else if a.AbortResumes? {
      AbortResumesInv(t);
    } else if a.Exit? {
      ExitInv(t, a);
    } else if a.CancelJob? {
      CancelInv(t, a);
    } else if a.FinalizeJob? {
      FinalizeJobInv(t, a);
    } else if a.EarlyFail? {
      EarlyFailInv(t, a);
    } else {
      LocalInv(t, a);
    }
  }
}

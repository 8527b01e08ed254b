/** A job transaction as the program keeps it: a list of jobs that is walked and updated in place. */
module JobObjects {
  import opened Basics
  import opened JobState
  import opened JobTxn
  import opened JobRuns

  class Transaction {
    var jobs: map<JobId, Job>
    var members: seq<JobId>
    var aborting: bool
    ghost var blameless: bool
    var waiting: Option<JobId>

    ghost function Value(): Txn
      reads this
    {
      Txn(jobs, members, aborting, blameless, waiting)
    }

    /** job_txn_new */
    constructor ()
      ensures Inv(Value()) && Value() == EMPTY
    {
      jobs, members, aborting, blameless, waiting := map[], [], false, false, None;
      EmptyInv();
    }

    /** job_finalize_single, for the first member */
    method FinalizeFirst()
      requires Shaped(Value()) && members != []
      modifies this`jobs, this`members
      ensures Value() == JobTxn.FinalizeFirst(old(Value()))
    {
      var m := members[0];
      jobs := jobs[m := Finalized(jobs[m])];
      members := members[1..];
    }

    /** job_txn_apply(job, job_finalize_single) */
    method ApplyFinalize()
      requires Shaped(Value())
      modifies this`jobs, this`members
      ensures Value() == FinalizeAll(old(Value()))
    {
      while members != []
        invariant Shaped(Value()) && FinalizeAll(Value()) == FinalizeAll(old(Value()))
        decreases |members|
      {
        FinalizeFirst();
      }
    }

    /** job_txn_apply(job, job_prepare) */
    method ApplyPrepare(prep: Results) returns (rc: int)
      requires Shaped(Value())
      modifies this`jobs
      ensures (Value(), rc) == PrepareFrom(old(Value()), 0, prep)
    {
      rc := 0;
      var i: nat := 0;
      while i < |members|
        invariant Shaped(Value()) && i <= |members|
                  && PrepareFrom(Value(), i, prep) == PrepareFrom(old(Value()), 0, prep)
        decreases |members| - i
      {
        var m := members[i];
        var k := Prepared(jobs[m], Rc(prep, m));
        jobs := jobs[m := k];
        rc := k.ret;
        if rc != 0 {
          return;
        }
        i := i + 1;
      }
      rc := 0;
    }

    /** job_txn_apply(job, job_transition_to_pending) */
    method ApplyPending()
      requires Shaped(Value())
      modifies this`jobs
      ensures Value() == AllPending(old(Value()))
    {
      ghost var t := Value();
      var i: nat := 0;
      while i < |members|
        invariant Shaped(Value()) && i <= |members| && jobs.Keys == t.jobs.Keys
        invariant forall id :: id in jobs ==>
                    jobs[id] == if id in members[..i] then Goto(t.jobs[id], Pending) else t.jobs[id]
        decreases |members| - i
      {
        var m := members[i];
        assert members[..i + 1] == members[..i] + [m] && m !in members[..i];
        jobs := jobs[m := Goto(jobs[m], Pending)];
        i := i + 1;
      }
      assert members[..i] == members;
      assert jobs == AllPending(t).jobs;
    }

    /** job_txn_apply(job, job_needs_finalize) */
    method NeedsFinalize() returns (needed: bool)
      requires Shaped(Value())
      ensures needed == !AllAutoFinalize(Value())
    {
      var i: nat := 0;
      while i < |members|
        invariant i <= |members| && forall k :: 0 <= k < i ==> jobs[members[k]].mode.autoFinalize
        decreases |members| - i
      {
        if !jobs[members[i]].mode.autoFinalize {
          return true;
        }
        i := i + 1;
      }
      needed := false;
    }

    /** job_completed_txn_abort, up to where it waits for a member */
    method CompletedTxnAbort(job: JobId)
      requires Shaped(Value()) && job in jobs
      modifies this
      ensures Value() == TxnAbort(old(Value()), job)
    {
      if aborting {
        return;
      }
      blameless := jobs[job].ret == 0 && !jobs[job].cancelled;
      aborting := true;
      CancelOthers(job);
      ContinueAbort();
    }

    /** Its first loop */
    method CancelOthers(job: JobId)
      requires Shaped(Value())
      modifies this`jobs
      ensures Value() == JobTxn.CancelOthers(old(Value()), job)
    {
      ghost var t := Value();
      var i: nat := 0;
      while i < |members|
        invariant Shaped(Value()) && i <= |members| && jobs == CancelledUpTo(t, job, i)
        decreases |members| - i
      {
        var other := members[i];
        CancelNext(t, job, i);
        if other != job {
          jobs := jobs[other := CancelAsync(jobs[other], false)];
        }
        i := i + 1;
      }
      assert members[..i] == members;
      assert jobs == JobTxn.CancelOthers(t, job).jobs;
    }

    /** What the loop has done to the jobs before its i-th round */
    static ghost function CancelledUpTo(t: Txn, job: JobId, i: nat): map<JobId, Job>
      requires i <= |t.members|
    {
      map id | id in t.jobs :: if id in t.members[..i] && id != job then CancelAsync(t.jobs[id], false) else t.jobs[id]
    }

    static lemma CancelNext(t: Txn, job: JobId, i: nat)
      requires Shaped(t) && i < |t.members|
      ensures var c, m := CancelledUpTo(t, job, i), t.members[i];
              && m in c && c[m] == t.jobs[m]
              && CancelledUpTo(t, job, i + 1) == if m == job then c else c[m := CancelAsync(c[m], false)]
    {
      assert t.members[..i + 1] == t.members[..i] + [t.members[i]] && t.members[i] !in t.members[..i];
    }

    /** Its second loop */
    method ContinueAbort()
      requires Shaped(Value())
      modifies this`jobs, this`members, this`waiting
      ensures Value() == AbortLoop(old(Value()))
    {
      while members != [] && Completed(jobs[members[0]].status)
        invariant Shaped(Value()) && AbortLoop(Value()) == AbortLoop(old(Value()))
        decreases |members|
      {
        FinalizeFirst();
      }
      waiting := None;
      if members != [] {
        var m := members[0];
        jobs := jobs[m := Assert(jobs[m], jobs[m].cancelled)];
        waiting := Some(m);
      }
    }

    /** job_finish_sync returns to it: from any state that a run can reach, no assertion fails. */
    method WaitEnds()
      requires Inv(Value()) && Enabled(Value(), AbortResumes)
      modifies this
      ensures Value() == Apply(old(Value()), AbortResumes) && Inv(Value())
    {
      ApplyInv(Value(), AbortResumes);
      var m := waiting.value;
      jobs := jobs[m := Finalized(jobs[m])];
      members := Without(members, {m});
      ContinueAbort();
    }

    /** job_do_finalize */
    method Finalize(job: JobId, prep: Results)
      requires Shaped(Value()) && job in jobs
      modifies this
      ensures Value() == DoFinalize(old(Value()), job, prep)
    {
      var rc := ApplyPrepare(prep);
      if rc != 0 {
        CompletedTxnAbort(job);
      } else {
        ApplyFinalize();
      }
    }

    /** The scan of job_completed_txn_success */
    method ScanMembers() returns (waiting: bool, ok: bool)
      requires Shaped(Value())
      ensures waiting == !AllCompleted(Value()) && ok == ScanOk(Value(), 0)
    {
      ok := true;
      var i: nat := 0;
      while i < |members|
        invariant i <= |members| && forall k :: 0 <= k < i ==> Completed(jobs[members[k]].status)
        invariant ScanOk(Value(), 0) == (ok && ScanOk(Value(), i))
        decreases |members| - i
      {
        if !Completed(jobs[members[i]].status) {
          return true, ok;
        }
        if jobs[members[i]].ret != 0 {
          ok := false;
        }
        i := i + 1;
      }
      waiting := false;
    }

    /** job_completed_txn_success */
    method CompletedTxnSuccess(job: JobId, prep: Results)
      requires Shaped(Value()) && job in jobs
      modifies this
      ensures Value() == TxnSuccess(old(Value()), job, prep)
    {
      jobs := jobs[job := Goto(jobs[job], Waiting)];
      var waiting, ok := ScanMembers();
      jobs := jobs[job := Assert(jobs[job], ok)];
      if !waiting {
        MembersCompleted(job, prep);
      }
    }

    /** The rest of it, when all members are completed */
    method MembersCompleted(job: JobId, prep: Results)
      requires Shaped(Value()) && job in jobs && AllCompleted(Value())
      modifies this
      ensures Value() == AfterScan(old(Value()), job, prep)
    {
      ApplyPending();
      var needed := NeedsFinalize();
      if !needed {
        Finalize(job, prep);
      }
    }

    /** job_completed */
    method JobCompleted(job: JobId, prep: Results)
      requires Shaped(Value()) && job in jobs
      modifies this
      ensures Value() == JobTxn.JobCompleted(old(Value()), job, prep)
    {
      var k := UpdateRc(Assert(jobs[job], job in members && !Completed(jobs[job].status)));
      jobs := jobs[job := k];
      if k.ret != 0 {
        CompletedTxnAbort(job);
      } else {
        CompletedTxnSuccess(job, prep);
      }
    }

    /** job_exit: from any state that a run can reach, no assertion fails. */
    method Exit(job: JobId, prep: Results)
      requires Inv(Value()) && Enabled(Value(), Action.Exit(job, prep))
      modifies this
      ensures Value() == Apply(old(Value()), Action.Exit(job, prep)) && Inv(Value())
    {
      ApplyInv(Value(), Action.Exit(job, prep));
      jobs := jobs[job := jobs[job].(co := Exited)];
      JobCompleted(job, prep);
    }

    /** job_cancel, whether or not a verb was checked before: from any state that a run can reach no
        assertion fails, unless the job was cancelled before it was started. */
    method Cancel(job: JobId, force: bool)
      requires Inv(Value()) && Enabled(Value(), CancelJob(job, force))
      modifies this
      ensures Value() == Apply(old(Value()), CancelJob(job, force)) && Inv(Value())
    {
      ApplyInv(Value(), CancelJob(job, force));
      CancelAny(job, force);
    }

    /** job_cancel in any state */
    method CancelAny(job: JobId, force: bool)
      requires Shaped(Value()) && job in jobs
      modifies this
      ensures Value() == DoCancel(old(Value()), job, force)
    {
      var j := jobs[job];
      if j.status.Concluded? {
        jobs := jobs[job := DoDismiss(j)];
        return;
      }
      jobs := jobs[job := CancelAsync(j, force)];
      if !Started(j) {
        JobCompleted(job, map[]);
      } else if Deferred(j) {
        CompletedTxnAbort(job);
      }
    }

    /** job_finalize */
    method UserFinalize(job: JobId, prep: Results)
      requires Inv(Value()) && Enabled(Value(), FinalizeJob(job, prep))
      modifies this
      ensures Value() == Apply(old(Value()), FinalizeJob(job, prep)) && Inv(Value())
    {
      ApplyInv(Value(), FinalizeJob(job, prep));
      Finalize(job, prep);
    }
  }
}

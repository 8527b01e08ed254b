/** The calls that the program does not guard against although its assertions depend on them: exactly
    these lead to an assertion that fails, and runs get to where they do. */
module JobMisuse {
  import opened Basics
  import opened JobState
  import opened JobTxn
  import opened JobRuns
  import opened JobResults

  // ----- states from which an assertion can fail -----

  ghost predicate Failed(t: Txn) {
    exists id :: id in t.jobs && t.jobs[id].bad
  }

  /** Guarded actions lead from `t` to an assertion that fails. */
  ghost predicate Leads(states: seq<Txn>, actions: seq<Action>, t: Txn) {
    Steps(states, actions) && states[0] == t && Failed(states[|actions|])
  }

  ghost predicate Breaks(t: Txn) {
    exists states, actions :: Leads(states, actions, t)
  }

  lemma BreaksNow(t: Txn)
    requires Failed(t)
    ensures Breaks(t)
  {
    assert Leads([t], [], t);
  }

  lemma BreaksBefore(t: Txn, a: Action, u: Txn)
    requires Step(t, a, u) && Breaks(u)
    ensures Breaks(t)
  {
    var states, actions :| Leads(states, actions, u);
    StepFirst(t, a, states, actions);
    assert Leads([t] + states, [a] + actions, t);
  }

  lemma StepFirst(t: Txn, a: Action, states: seq<Txn>, actions: seq<Action>)
    requires Steps(states, actions) && Step(t, a, states[0])
    ensures Steps([t] + states, [a] + actions)
  {
    var ss, aa := [t] + states, [a] + actions;
    forall k | 0 <= k < |aa|
      ensures Step(ss[k], aa[k], ss[k + 1])
    {
      if k > 0 {
        assert ss[k] == states[k - 1] && ss[k + 1] == states[k - 1 + 1] && aa[k] == actions[k - 1];
      }
    }
  }

  /** From a state that a run can reach no guarded actions do. */
  lemma InvHolds(t: Txn)
    requires Inv(t)
    ensures !Breaks(t)
  {
    forall states, actions | Steps(states, actions) && states[0] == t
      ensures !Failed(states[|actions|])
    {
      StepsInv(states, actions);
      InvNotFailed(states[|actions|]);
    }
  }

  lemma InvNotFailed(t: Txn)
    requires Inv(t)
    ensures !Failed(t)
  {
    forall id | id in t.jobs
      ensures !t.jobs[id].bad
    {
      assert IdOk(t, id);
    }
  }

  // ----- giving up a job early -----

  /** job_early_fail harms nothing at once.  The end of the wait in job_completed_txn_abort, which then
      finalizes the job it waited for, fails an assertion if and only if this is the job given up. */
  lemma EarlyFailFailsExactly(t: Txn, id: JobId)
    requires Inv(t) && Possible(t, EarlyFail(id)) && t.jobs[id].status.Created?
    ensures var u := Apply(t, EarlyFail(id));
            && !Failed(u)
            && (Possible(u, AbortResumes) && Failed(Apply(u, AbortResumes)) <==> Awaited(t, id))
  {
    var u := Apply(t, EarlyFail(id));
    assert IdOk(t, id);
    if Awaited(t, id) {
      EarlyFailAwaited(t, id);
    } else {
      EarlyFailInv(t, EarlyFail(id));
      InvNotFailed(u);
      if Possible(u, AbortResumes) {
        AbortResumesInv(u);
        InvNotFailed(EndWait(u));
      }
    }
  }

  lemma EarlyFailAwaited(t: Txn, id: JobId)
    requires Inv(t) && Possible(t, EarlyFail(id)) && t.jobs[id].status.Created? && Awaited(t, id)
    ensures var u := Apply(t, EarlyFail(id));
            !Failed(u) && Possible(u, AbortResumes) && Failed(Apply(u, AbortResumes))
  {
    var u := Apply(t, EarlyFail(id));
    forall x | x in u.jobs
      ensures !u.jobs[x].bad
    {
      assert IdOk(t, x);
    }
    var v := Put(Leave(u, id), id, Finalized(u.jobs[id]));
    assert v.jobs[id].bad && id !in v.members;
    OthersKept(v, id);
  }

  // ----- joining while members are PENDING -----

  /** job_finalize then goes on to finalize a job that has not even started. */
  lemma JoinPendingBreaks(t: Txn, a: Action, p: JobId)
    requires Inv(t) && Possible(t, a) && a.Create? && !t.aborting && p in t.members && IsPending(t, p)
    ensures Breaks(Apply(t, a))
  {
    var u, f := Apply(t, a), FinalizeJob(p, map[]);
    JoinedBase(t, a, p);
    NewcomerFails(u, p);
    BreaksNow(Apply(u, f));
    BreaksBefore(u, f, Apply(u, f));
  }

  lemma NewcomerFails(u: Txn, p: JobId)
    requires Base(u) && u.members != [] && p in u.jobs
    requires forall k :: 1 <= k < |u.members| ==> IsPending(u, u.members[k]) && !u.jobs[u.members[k]].cancelled
    requires u.jobs[u.members[0]].status.Created? && u.jobs[u.members[0]].ret == 0 && !u.jobs[u.members[0]].cancelled
    ensures Failed(DoFinalize(u, p, map[]))
  {
    var m := u.members[0];
    assert Put(u, m, Prepared(u.jobs[m], 0)) == u;
    PrepareAt(u, 1, map[], m);
    assert PrepareFrom(u, 0, map[]) == (u, 0);
    FinalizeAllAt(u, m);
    assert FinalizeAll(u).jobs[m].bad;
  }

  lemma JoinedBase(t: Txn, a: Action, p: JobId)
    requires Inv(t) && Possible(t, a) && a.Create? && !t.aborting && p in t.members && IsPending(t, p)
    ensures var u := Apply(t, a);
            && Base(u) && u.members == [a.id] + t.members
            && forall k :: 1 <= k < |u.members| ==> IsPending(u, u.members[k]) && !u.jobs[u.members[k]].cancelled
  {
    var u := Apply(t, a);
    InvBase(t);
    forall x | x in u.jobs
      ensures BaseAt(u, x)
    {
      if x != a.id {
        assert BaseAt(t, x);
      }
    }
    forall k | 1 <= k < |u.members|
      ensures IsPending(u, u.members[k]) && !u.jobs[u.members[k]].cancelled
    {
      var x := u.members[k];
      assert x == t.members[k - 1] && IdOk(t, x) && IsPending(t, p);
      assert IsPending(t, x);
    }
  }

  // ----- joining while the transaction aborts -----

  /** The abort waits for `w`, but a job that nobody has cancelled is now first on the list. */
  ghost predicate Intruded(t: Txn, w: JobId) {
    && Shaped(t) && t.aborting && t.waiting == Some(w) && w in t.jobs && w in t.members && w != t.members[0]
    && JobOk(t.jobs[w]) && !Over(t.jobs[w].status) && (t.jobs[w].cancelled || t.jobs[w].status.Aborting?)
    && t.jobs[t.members[0]].status.Created? && !t.jobs[t.members[0]].cancelled
  }

  /** How many actions end a cancelled job at most */
  function Remaining(j: Job): nat {
    if Completed(j.status) then 0
    else if j.co.PausedAt? then 3
    else if j.co.Active? then 2
    else 1
  }

  /** The next of them */
  function Hasten(w: JobId, j: Job): Action {
    if j.co.PausedAt? then Enter(w)
    else if j.co.Active? then DriverReturns(w, -1)
    else if j.co.Exiting? then Exit(w, map[])
    else CancelJob(w, false)
  }

  lemma HastenStep(t: Txn, w: JobId)
    requires Intruded(t, w) && !Completed(t.jobs[w].status)
    ensures var a := Hasten(w, t.jobs[w]);
            && Enabled(t, a) && Intruded(Apply(t, a), w)
            && Remaining(Apply(t, a).jobs[w]) < Remaining(t.jobs[w])
  {
    var a, j := Hasten(w, t.jobs[w]), t.jobs[w];
    if a.Exit? {
      HastenEnd(t, w, j.(co := Exited));
    } else if a.CancelJob? {
      CancelAsyncOk(j, false);
      HastenEnd(t, w, CancelAsync(j, false));
    }
  }

  lemma HastenEnd(t: Txn, w: JobId, k: Job)
    requires Intruded(t, w) && !Completed(t.jobs[w].status) && Ending(k) && k.cancelled
    ensures var r := JobCompleted(Put(t, w, k), w, map[]); Intruded(r, w) && Completed(r.jobs[w].status)
  {
    JobCompletedIs(Put(t, w, k), w, map[]);
    UpdateRcEnding(k);
  }

  lemma {:induction false} IntrudedBreaks(t: Txn, w: JobId)
    requires Intruded(t, w)
    ensures Breaks(t)
    decreases Remaining(t.jobs[w])
  {
    if Completed(t.jobs[w].status) {
      IntruderFound(t, w);
      BreaksNow(EndWait(t));
      BreaksBefore(t, AbortResumes, EndWait(t));
    } else {
      var a := Hasten(w, t.jobs[w]);
      HastenStep(t, w);
      IntrudedBreaks(Apply(t, a), w);
      BreaksBefore(t, a, Apply(t, a));
    }
  }

  /** When the wait ends, the loop finds the new job and expects it to be cancelled. */
  lemma IntruderFound(t: Txn, w: JobId)
    requires Intruded(t, w) && Completed(t.jobs[w].status)
    ensures Failed(EndWait(t))
  {
    var m := t.members[0];
    var v := Put(Leave(t, w), w, Finalized(t.jobs[w]));
    assert v.members[0] == m && v.jobs[m] == t.jobs[m];
    assert AbortLoop(v).jobs[m].bad;
  }

  lemma JoinAbortBreaks(t: Txn, a: Action)
    requires Inv(t) && Possible(t, a) && a.Create? && t.aborting
    ensures Breaks(Apply(t, a))
  {
    var w := t.members[0];
    assert IdOk(t, w);
    IntrudedBreaks(Apply(t, a), w);
  }

  // ----- resuming a job too often -----

  /** A failed assertion is not forgotten. */
  lemma {:induction false} LoopKeepsBad(t: Txn, id: JobId)
    requires Shaped(t) && id in t.jobs && t.jobs[id].bad
    ensures AbortLoop(t).jobs[id].bad
    decreases |t.members|
  {
    if t.members != [] && Completed(t.jobs[t.members[0]].status) {
      LoopKeepsBad(FinalizeFirst(t), id);
    }
  }

  /** A job that the user has paused although no pause is counted: job_cancel_async takes one back. */
  lemma UncountedBreaks(t: Txn, id: JobId)
    requires Shaped(t) && id in t.jobs && Started(t.jobs[id]) && !Over(t.jobs[id].status)
    requires t.jobs[id].pause.user && t.jobs[id].pause.count <= 0
    ensures Breaks(t)
  {
    var a, u := CancelJob(id, false), Put(t, id, CancelAsync(t.jobs[id], false));
    if Deferred(t.jobs[id]) && !t.aborting {
      LoopKeepsBad(Doom(u, id), id);
    }
    assert Apply(t, a).jobs[id].bad;
    BreaksNow(Apply(t, a));
    BreaksBefore(t, a, Apply(t, a));
  }

  /** An action on one job alone */
  lemma LocalBefore(t: Txn, a: Action)
    requires Shaped(t) && IsLocal(a) && a.id in t.jobs && JobPossible(t.jobs[a.id], a) && JobSafe(t.jobs[a.id], a)
    requires Shaped(Put(t, a.id, ApplyJob(t.jobs[a.id], a))) && Breaks(Put(t, a.id, ApplyJob(t.jobs[a.id], a)))
    ensures Breaks(t)
  {
    BreaksBefore(t, a, Apply(t, a));
  }

  /** A job that has not been started and of whose pauses too few are counted: it is started, paused by
      the user unless it is already, and cancelled. */
  lemma UnstartedBreaks(t: Txn, id: JobId)
    requires Shaped(t) && id in t.jobs && t.jobs[id].status.Created? && !Started(t.jobs[id])
    requires t.jobs[id].pause.count < Held(t.jobs[id])
    ensures Breaks(t)
  {
    var u := Put(t, id, Start(t.jobs[id]));
    if u.jobs[id].pause.user {
      UncountedBreaks(u, id);
    } else {
      UncountedBreaks(Put(u, id, ApplyJob(u.jobs[id], UserPause(id))), id);
      LocalBefore(u, UserPause(id));
    }
    LocalBefore(t, StartJob(id));
  }

  /** job_resume of a job that nobody but the user and its creation holds paused */
  lemma ResumeBreaks(t: Txn, id: JobId)
    requires Inv(t) && Possible(t, ResumeJob(id)) && !Safe(t, ResumeJob(id))
    ensures Breaks(Apply(t, ResumeJob(id)))
  {
    var j, u := t.jobs[id], Apply(t, ResumeJob(id));
    assert IdOk(t, id);
    if j.pause.count <= 0 {
      assert u.jobs[id].bad;
      BreaksNow(u);
    } else if Started(j) {
      UncountedBreaks(u, id);
    } else {
      UnstartedBreaks(u, id);
    }
  }

  // ----- exactly these -----

  /** A call that fails an assertion at once */
  lemma LocalFails(t: Txn, a: Action)
    requires Inv(t) && Possible(t, a) && !Safe(t, a) && (a.StartJob? || a.DriverReady?)
    ensures Breaks(Apply(t, a))
  {
    assert IdOk(t, a.id);
    assert Apply(t, a).jobs[a.id].bad;
    BreaksNow(Apply(t, a));
  }

  lemma EarlyFailBreaks(t: Txn, id: JobId)
    requires Inv(t) && Possible(t, EarlyFail(id)) && !Safe(t, EarlyFail(id))
    ensures Breaks(Apply(t, EarlyFail(id)))
  {
    var u := Apply(t, EarlyFail(id));
    if t.jobs[id].status.Created? {
      EarlyFailAwaited(t, id);
      BreaksNow(EndWait(u));
      BreaksBefore(u, AbortResumes, EndWait(u));
    } else {
      assert u.jobs[id].bad;
      BreaksNow(u);
    }
  }

  /** Whatever a user, a driver or the event loop does in a state that a run can reach: it opens the
      way to an assertion that fails if and only if it is one of the unguarded calls. */
  lemma BreaksExactly(t: Txn, a: Action)
    requires Inv(t) && Possible(t, a)
    ensures Breaks(Apply(t, a)) <==> !Safe(t, a)
  {
    if Safe(t, a) {
      ApplyInv(t, a);
      InvHolds(Apply(t, a));
    } else if a.Create? {
      if t.aborting {
        JoinAbortBreaks(t, a);
      } else {
        var p :| p in t.members && IsPending(t, p);
        JoinPendingBreaks(t, a, p);
      }
    } else if a.EarlyFail? {
      EarlyFailBreaks(t, a.id);
    } else if a.CancelJob? {
      CancelFailsExactly(t, a.id, a.force);
      BreaksNow(Apply(t, a));
    } else if a.ResumeJob? {
      ResumeBreaks(t, a.id);
    } else {
      LocalFails(t, a);
    }
  }

  // ----- runs that get there -----

  /** Of two jobs, the first is cancelled before it is started: it is ABORTING, and the abort waits for
      the second, which is still CREATED. */
  lemma FirstCancelled(t: Txn, c: Job, d: Job, u: Txn)
    requires c == At(Created, NotStarted, 1) && t == Pair(c, c) && d == c.(cancelled := true)
    requires u == Txn(map[0 := d.(status := Status.Aborting, ret := -ECANCELED), 1 := d], [1, 0], true, false, Some(1))
    ensures Step(t, CancelJob(0, false), u)
  {
    PairShaped(c, c);
    var v := Put(t, 0, d);
    assert CancelAsync(c, false) == d;
    JobCompletedIs(v, 0, map[]);
    FirstDoomed(Put(v, 0, UpdateRc(d)), d, u);
  }

  lemma FirstDoomed(w: Txn, d: Job, u: Txn)
    requires d == At(Created, NotStarted, 1).(cancelled := true)
    requires u == Txn(map[0 := d.(status := Status.Aborting, ret := -ECANCELED), 1 := d], [1, 0], true, false, Some(1))
    requires w == Pair(u.jobs[0], At(Created, NotStarted, 1))
    ensures Shaped(w) && TxnAbort(w, 0) == u
  {
    PairShaped(u.jobs[0], At(Created, NotStarted, 1));
    assert Doom(w, 0) == u.(waiting := None);
    assert u.members[0] == 1;
    assert Put(Doom(w, 0), 1, Assert(d, true)) == Doom(w, 0);
  }

  lemma MisusePossible(d: Job, u: Txn, a: Action)
    requires d == At(Created, NotStarted, 1).(cancelled := true)
    requires u == Txn(map[0 := d.(status := Status.Aborting, ret := -ECANCELED), 1 := d], [1, 0], true, false, Some(1))
    requires a in {StartJob(0), CancelJob(0, false), EarlyFail(0), EarlyFail(1), ResumeJob(1), Create(2, false, false)}
    ensures Possible(u, a) && !Safe(u, a)
  {
  }

  /** In this state, which a run reaches, the first job can be started, cancelled again or given up, the
      second given up or resumed, and a third added: each opens the way to an assertion that fails. */
  lemma MisuseReached(a: Action) returns (states: seq<Txn>, actions: seq<Action>)
    requires a in {StartJob(0), CancelJob(0, false), EarlyFail(0), EarlyFail(1), ResumeJob(1), Create(2, false, false)}
    ensures Run(states, actions)
    ensures var t := states[|actions|];
            && Inv(t) && 0 in t.jobs && CompletedTwice(t.jobs[0]) && Awaited(t, 1)
            && Possible(t, a) && Breaks(Apply(t, a))
  {
    var c := At(Created, NotStarted, 1);
    var d := c.(cancelled := true);
    var u :=
      Txn(map[0 := d.(status := Status.Aborting, ret := -ECANCELED), 1 := d], [1, 0], true, false, Some(1));
    states, actions := PairCreated();
    FirstCancelled(states[|actions|], c, d, u);
    Longer(states, actions, CancelJob(0, false), u);
    states, actions := states + [u], actions + [CancelJob(0, false)];
    RunInv(states, actions);
    MisusePossible(d, u, a);
    BreaksExactly(u, a);
  }

  /** Two jobs are PENDING, and a third joins. */
  lemma LateJoinReached(a: Action) returns (states: seq<Txn>, actions: seq<Action>)
    requires a == Create(2, false, false)
    ensures Run(states, actions)
    ensures var t := states[|actions|]; Inv(t) && Possible(t, a) && !t.aborting && Breaks(Apply(t, a))
  {
    states, actions := PairPending();
    RunInv(states, actions);
    var t := states[|actions|];
    assert t.members[1] == 0 && IsPending(t, 0);
    BreaksExactly(t, a);
  }

  /** A job is READY, and its driver signals READY once more. */
  lemma ReadyTwiceReached(a: Action) returns (states: seq<Txn>, actions: seq<Action>)
    requires a == DriverReady(0)
    ensures Run(states, actions)
    ensures var t := states[|actions|]; Inv(t) && Possible(t, a) && Breaks(Apply(t, a))
  {
    var c, r, y := At(Created, NotStarted, 1), At(Running, Active, 0), At(Status.Ready, Active, 0);
    states, actions := PairCreated();
    LocalStep(c, c, StartJob(0));
    Longer(states, actions, StartJob(0), Pair(r, c));
    states, actions := states + [Pair(r, c)], actions + [StartJob(0)];
    LocalStep(r, c, a);
    Longer(states, actions, a, Pair(y, c));
    states, actions := states + [Pair(y, c)], actions + [a];
    RunInv(states, actions);
    BreaksExactly(Pair(y, c), a);
  }
}

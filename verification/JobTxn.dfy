/** A transaction of jobs (JobTxn of job.c): its members commit or abort together. */
module JobTxn {
  import opened Basics
  import opened JobState

  type JobId = nat

  /** `members` is txn->jobs.  `blameless` remembers, for an aborting transaction, that the job
      which started the abort had neither failed nor been cancelled.  `waiting` is the job that
      job_completed_txn_abort holds in other_job while it waits in job_finish_sync. */
  datatype Txn = Txn(jobs: map<JobId, Job>, members: seq<JobId>, aborting: bool, blameless: bool,
                     waiting: Option<JobId>)

  const EMPTY: Txn := Txn(map[], [], false, false, None)

  /** What the drivers' prepare functions return */
  type Results = map<JobId, int>

  function Rc(prep: Results, id: JobId): int {
    if id in prep then prep[id] else 0
  }

  ghost predicate Shaped(t: Txn) {
    && NoDup(t.members) && (forall i :: 0 <= i < |t.members| ==> t.members[i] in t.jobs)
    && (t.waiting.Some? ==> t.waiting.value in t.jobs)
  }

  function Put(t: Txn, id: JobId, j: Job): Txn {
    t.(jobs := t.jobs[id := j])
  }

  // ----- job_txn_apply -----

  /** job_txn_apply(job, job_finalize_single): finalizing a job takes it off the list. */
  function FinalizeAll(t: Txn): (r: Txn)
    requires Shaped(t)
    ensures r.members == [] && Same(t, r) && r.waiting == t.waiting
    decreases |t.members|
  {
    if t.members == [] then t else FinalizeAll(FinalizeFirst(t))
  }

  /** Same jobs, same transaction flags */
  predicate Same(t: Txn, u: Txn) {
    t.jobs.Keys == u.jobs.Keys && t.aborting == u.aborting && t.blameless == u.blameless
  }

  function FinalizeFirst(t: Txn): (r: Txn)
    requires Shaped(t) && t.members != []
    ensures Shaped(r) && Same(t, r) && r.waiting == t.waiting
  {
    Put(t, t.members[0], Finalized(t.jobs[t.members[0]])).(members := t.members[1..])
  }

  /** job_txn_apply(job, job_prepare), from the i-th member on: stops at the first failure. */
  function PrepareFrom(t: Txn, i: nat, prep: Results): (r: (Txn, int))
    requires Shaped(t) && i <= |t.members|
    ensures Shaped(r.0) && r.0.members == t.members && Same(t, r.0) && r.0.waiting == t.waiting
    decreases |t.members| - i
  {
    if i == |t.members| then (t, 0)
    else
      var m := t.members[i];
      var k := Prepared(t.jobs[m], Rc(prep, m));
      if k.ret != 0 then (Put(t, m, k), k.ret) else PrepareFrom(Put(t, m, k), i + 1, prep)
  }

  /** job_txn_apply(job, job_transition_to_pending) */
  function AllPending(t: Txn): (r: Txn)
    requires Shaped(t)
    ensures Shaped(r)
  {
    t.(jobs := map id | id in t.jobs :: if id in t.members then Goto(t.jobs[id], Pending) else t.jobs[id])
  }

  /** job_txn_apply(job, job_needs_finalize) == 0 */
  predicate AllAutoFinalize(t: Txn)
    requires Shaped(t)
  {
    forall i :: 0 <= i < |t.members| ==> t.jobs[t.members[i]].mode.autoFinalize
  }

  // ----- job_completed_txn_abort -----

  function CancelOthers(t: Txn, job: JobId): (r: Txn)
    requires Shaped(t)
    ensures Shaped(r)
  {
    t.(jobs := map id | id in t.jobs ::
                 if id in t.members && id != job then CancelAsync(t.jobs[id], false) else t.jobs[id])
  }

  /** The loop that finalizes the members, up to the first one that has to be waited for */
  function AbortLoop(t: Txn): (r: Txn)
    requires Shaped(t)
    ensures Shaped(r) && Same(t, r) && r.waiting == if r.members == [] then None else Some(r.members[0])
    decreases |t.members|
  {
    if t.members == [] then t.(waiting := None)
    else
      var m := t.members[0];
      if Completed(t.jobs[m].status) then AbortLoop(FinalizeFirst(t))
      else Put(t, m, Assert(t.jobs[m], t.jobs[m].cancelled)).(waiting := Some(m))
  }

  /** The wait is over: the job that was waited for is finalized, wherever it is by now, and the loop
      goes on. */
  function EndWait(t: Txn): (r: Txn)
    requires Shaped(t) && t.waiting.Some?
    ensures Shaped(r) && Same(t, r)
  {
    var m := t.waiting.value;
    AbortLoop(Put(Leave(t, m), m, Finalized(t.jobs[m])))
  }

  /** job_txn_del_job */
  function Leave(t: Txn, id: JobId): (r: Txn)
    requires Shaped(t)
    ensures Shaped(r) && r == t.(members := r.members) && forall x :: x in r.members <==> x in t.members && x != id
  {
    WithoutNoDup(t.members, {id});
    var rest := Without(t.members, {id});
    assert forall i :: 0 <= i < |rest| ==> rest[i] in t.members;
    t.(members := rest)
  }

  /** The state when the loop starts */
  function Doom(t: Txn, job: JobId): (r: Txn)
    requires Shaped(t) && job in t.jobs
    ensures Shaped(r)
  {
    CancelOthers(t, job).(aborting := true, blameless := t.jobs[job].ret == 0 && !t.jobs[job].cancelled)
  }

  function TxnAbort(t: Txn, job: JobId): (r: Txn)
    requires Shaped(t) && job in t.jobs
    ensures Shaped(r) && r.jobs.Keys == t.jobs.Keys
  {
    if t.aborting then t else AbortLoop(Doom(t, job))
  }

  // ----- completion -----

  /** job_do_finalize */
  function DoFinalize(t: Txn, job: JobId, prep: Results): (r: Txn)
    requires Shaped(t) && job in t.jobs
    ensures Shaped(r) && r.jobs.Keys == t.jobs.Keys
  {
    var (u, rc) := PrepareFrom(t, 0, prep);
    if rc != 0 then TxnAbort(u, job) else FinalizeAll(u)
  }

  /** The scan of job_completed_txn_success: every completed member it meets has succeeded. */
  predicate ScanOk(t: Txn, i: nat)
    requires Shaped(t) && i <= |t.members|
    decreases |t.members| - i
  {
    i == |t.members| || !Completed(t.jobs[t.members[i]].status) || (t.jobs[t.members[i]].ret == 0 && ScanOk(t, i + 1))
  }

  predicate AllCompleted(t: Txn)
    requires Shaped(t)
  {
    forall i :: 0 <= i < |t.members| ==> Completed(t.jobs[t.members[i]].status)
  }

  /** job_completed_txn_success */
  function TxnSuccess(t: Txn, job: JobId, prep: Results): (r: Txn)
    requires Shaped(t) && job in t.jobs
    ensures Shaped(r) && r.jobs.Keys == t.jobs.Keys
  {
    var u := Put(t, job, Goto(t.jobs[job], Waiting));
    AfterScan(Put(u, job, Assert(u.jobs[job], ScanOk(u, 0))), job, prep)
  }

  /** The rest of it: when all members are completed, they go to PENDING and perhaps further. */
  function AfterScan(t: Txn, job: JobId, prep: Results): (r: Txn)
    requires Shaped(t) && job in t.jobs
    ensures Shaped(r) && r.jobs.Keys == t.jobs.Keys
  {
    if !AllCompleted(t) then t
    else if AllAutoFinalize(AllPending(t)) then DoFinalize(AllPending(t), job, prep)
    else AllPending(t)
  }

  /** job_completed */
  function JobCompleted(t: Txn, job: JobId, prep: Results): (r: Txn)
    requires Shaped(t) && job in t.jobs
    ensures Shaped(r) && r.jobs.Keys == t.jobs.Keys
  {
    var j := Assert(t.jobs[job], job in t.members && !Completed(t.jobs[job].status));
    var k := UpdateRc(j);
    if k.ret != 0 then TxnAbort(Put(t, job, k), job) else TxnSuccess(Put(t, job, k), job, prep)
  }

  // ----- everything that can happen -----

  datatype Action =
    | Create(id: JobId, autoFinalize: bool, autoDismiss: bool)
    | StartJob(id: JobId)
    | PauseAt(id: JobId)
    | Enter(id: JobId)
    | DriverReady(id: JobId)
    | DriverReturns(id: JobId, ret: int)
    | Exit(id: JobId, prep: Results)
    | CancelJob(id: JobId, force: bool)
    | PauseJob(id: JobId)
    | ResumeJob(id: JobId)
    | UserPause(id: JobId)
    | UserResume(id: JobId)
    | FinalizeJob(id: JobId, prep: Results)
    | DismissJob(id: JobId)
    | EarlyFail(id: JobId)
    | AbortResumes

  /** What can be done when.  Verbs are checked by the program; jobs join a transaction as long as it
      lives; drivers act while their coroutine runs; everything else can be called for any job that has
      not been dismissed. */
  predicate Possible(t: Txn, a: Action) {
    if a.Create? then a.id !in t.jobs && Alive(t)
    else if a.AbortResumes? then
      t.waiting.Some? && t.waiting.value in t.jobs && Completed(t.jobs[t.waiting.value].status)
    else a.id in t.jobs && JobPossible(t.jobs[a.id], a)
  }

  /** A transaction is freed when its last job ends. */
  predicate Alive(t: Txn) {
    t.members != [] || (!t.aborting && forall id :: id in t.jobs ==> t.jobs[id].log == [])
  }

  /** What the program does not check although an assertion depends on it: a job does not join once
      members are PENDING or an abort has begun; a job that the abort loop waits for is not given up;
      and what JobSafe says of one job. */
  predicate Safe(t: Txn, a: Action) {
    if a.Create? then !t.aborting && forall id :: id in t.members ==> !IsPending(t, id)
    else if a.AbortResumes? then true
    else (a.id in t.jobs ==> JobSafe(t.jobs[a.id], a)) && (a.EarlyFail? ==> !Awaited(t, a.id))
  }

  /** A job is started, and given up, only while it is CREATED; its driver signals READY only while it is RUNNING; it is
      not cancelled again after it was cancelled before its start; and it is resumed only as often as it
      was paused, as long as that matters. */
  predicate JobSafe(j: Job, a: Action) {
    if a.StartJob? || a.EarlyFail? then j.status.Created?
    else if a.DriverReady? then j.status.Running?
    else if a.CancelJob? then !CompletedTwice(j)
    else if a.ResumeJob? then j.pause.count > if Settled(j) then 0 else Held(j)
    else true
  }

  predicate Enabled(t: Txn, a: Action) {
    Possible(t, a) && Safe(t, a)
  }

  predicate IsPending(t: Txn, id: JobId) {
    id in t.jobs && t.jobs[id].status.Pending?
  }

  /** The job that job_completed_txn_abort waits for, if it does */
  predicate Awaited(t: Txn, id: JobId) {
    t.waiting == Some(id)
  }

  predicate JobPossible(j: Job, a: Action) {
    match a
    case StartJob(_) => !j.status.Null?
    case PauseAt(_) => j.co.Active?
    case Enter(_) => j.co.PausedAt?
    case DriverReady(_) => j.co.Active?
    case DriverReturns(_, _) => j.co.Active?
    case Exit(_, _) => j.co.Exiting?
    case CancelJob(_, _) => !j.status.Null?
    case PauseJob(_) => !j.status.Null?
    case ResumeJob(_) => !j.status.Null?
    case UserPause(_) => Accepts(j.status, Pause) && !j.pause.user
    case UserResume(_) => Accepts(j.status, Resume) && j.pause.user && j.pause.count > 0
    case FinalizeJob(_, _) => Accepts(j.status, Finalize)
    case DismissJob(_) => Accepts(j.status, Dismiss)
    case EarlyFail(_) => !j.status.Null?
    case _ => true
  }

  /** job_cancel */
  function DoCancel(t: Txn, id: JobId, force: bool): (r: Txn)
    requires Shaped(t) && id in t.jobs
    ensures Shaped(r) && r.jobs.Keys == t.jobs.Keys
  {
    var j := t.jobs[id];
    if j.status.Concluded? then Put(t, id, DoDismiss(j))
    else
      var u := Put(t, id, CancelAsync(j, force));
      if !Started(j) then JobCompleted(u, id, map[])
      else if Deferred(j) then TxnAbort(u, id)
      else u
  }

  function Apply(t: Txn, a: Action): (r: Txn)
    requires Shaped(t) && Possible(t, a)
    ensures Shaped(r)
  {
    if a.Create? then Put(t, a.id, New(a.autoFinalize, a.autoDismiss)).(members := [a.id] + t.members)
    else if a.AbortResumes? then EndWait(t)
    else if a.Exit? then JobCompleted(Put(t, a.id, t.jobs[a.id].(co := Exited)), a.id, a.prep)
    else if a.CancelJob? then DoCancel(t, a.id, a.force)
    else if a.FinalizeJob? then DoFinalize(t, a.id, a.prep)
    else if a.EarlyFail? then
      Put(Leave(t, a.id), a.id, DoDismiss(Assert(t.jobs[a.id], t.jobs[a.id].status.Created?)))
    else Put(t, a.id, ApplyJob(t.jobs[a.id], a))
  }

  /** The actions that change one job only */
  function ApplyJob(j: Job, a: Action): Job {
    match a
    case StartJob(_) => Start(j)
    case PauseAt(_) => PausePoint(j)
    case Enter(_) => Unpause(j)
    case DriverReady(_) => SignalReady(j)
    case DriverReturns(_, ret) => Return(j, ret)
    case PauseJob(_) => j.(pause := j.pause.(count := j.pause.count + 1))
    case ResumeJob(_) => Assert(j, j.pause.count > 0).(pause := j.pause.(count := j.pause.count - 1))
    case UserPause(_) => j.(pause := PauseRequests(true, j.pause.count + 1))
    case UserResume(_) => j.(pause := PauseRequests(false, j.pause.count - 1))
    case DismissJob(_) => DoDismiss(j)
    case _ => j
  }
}

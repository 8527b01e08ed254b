/** One job of job.c: its status table, its verbs, and what happens to it alone. */
module JobState {

  datatype Status =
    | Undefined | Created | Running | Paused | Ready | Standby | Waiting | Pending | Aborting | Concluded | Null

  /** JobSTT */
  predicate Allowed(s: Status, t: Status) {
    match s
    case Undefined => t.Created?
    case Created => t.Running? || t.Aborting? || t.Null?
    case Running => t.Paused? || t.Ready? || t.Waiting? || t.Aborting?
    case Paused => t.Running?
    case Ready => t.Standby? || t.Waiting? || t.Aborting?
    case Standby => t.Ready?
    case Waiting => t.Pending? || t.Aborting?
    case Pending => t.Aborting? || t.Concluded?
    case Aborting => t.Aborting? || t.Concluded?
    case Concluded => t.Null?
    case Null => false
  }

  datatype Verb = Cancel | Pause | Resume | SetSpeed | Complete | Finalize | Dismiss

  /** JobVerbTable */
  predicate Accepts(s: Status, v: Verb) {
    match v
    case Cancel => Live(s) || s.Waiting? || s.Pending?
    case Pause => Live(s)
    case Resume => Live(s)
    case SetSpeed => Live(s)
    case Complete => s.Ready?
    case Finalize => s.Pending?
    case Dismiss => s.Concluded?
  }

  predicate Live(s: Status) {
    s.Created? || s.Running? || s.Paused? || s.Ready? || s.Standby?
  }

  /** job_is_completed */
  predicate Completed(s: Status) {
    s.Waiting? || s.Pending? || s.Aborting? || s.Concluded? || s.Null?
  }

  /** Once completed, always completed: the table has no way back. */
  lemma NoWayBack(s: Status, t: Status)
    requires Allowed(s, t) && Completed(s)
    ensures Completed(t)
  {
  }

  /** The job's coroutine.  PausedAt: inside job_pause_point, with the status to go back to.
      Exiting: the driver has returned and job_exit is scheduled. */
  datatype Co = NotStarted | Active | PausedAt(saved: Status) | Exiting | Exited

  datatype Event = Commit | Abort | Clean

  const ECANCELED: int := 125

  /** Job.  `log` records the calls of the driver's commit, abort and clean; `bad` records that an
      assertion has failed. */
  datatype Job = Job(status: Status, co: Co, cancelled: bool, ret: int, log: seq<Event>, bad: bool,
                     pause: PauseRequests, mode: Mode)

  datatype PauseRequests = PauseRequests(user: bool, count: int)

  datatype Mode = Mode(autoFinalize: bool, autoDismiss: bool, forceCancel: bool)

  /** job_started */
  predicate Started(j: Job) {
    !j.co.NotStarted?
  }

  /** job->deferred_to_main_loop */
  predicate Deferred(j: Job) {
    j.co.Exiting? || j.co.Exited?
  }

  function Assert(j: Job, ok: bool): Job {
    j.(bad := j.bad || !ok)
  }

  /** job_state_transition */
  function Goto(j: Job, s: Status): Job {
    Assert(j, Allowed(j.status, s)).(status := s)
  }

  /** job_create */
  function New(autoFinalize: bool, autoDismiss: bool): Job {
    Goto(Job(Undefined, NotStarted, false, 0, [], false,
             PauseRequests(false, 1), Mode(autoFinalize, autoDismiss, false)), Created)
  }

  /** job_start */
  function Start(j: Job): Job {
    Goto(Assert(j, !Started(j)).(co := Active, pause := j.pause.(count := j.pause.count - 1)), Running)
  }

  /** job_pause_point, up to where the coroutine yields */
  function PausePoint(j: Job): Job {
    if j.pause.count <= 0 || j.cancelled then j
    else Goto(j, if j.status.Ready? then Standby else Paused).(co := PausedAt(j.status))
  }

  /** job_pause_point after the coroutine has been entered again */
  function Unpause(j: Job): Job {
    if j.co.PausedAt? then Goto(j, j.co.saved).(co := Active) else j
  }

  /** job_transition_to_ready */
  function SignalReady(j: Job): Job {
    Goto(j, Ready)
  }

  /** The driver's run function returns. */
  function Return(j: Job, ret: int): Job {
    j.(ret := ret, co := Exiting)
  }

  /** job_update_rc */
  function UpdateRc(j: Job): Job {
    if j.ret == 0 && !j.cancelled then j
    else Goto(j.(ret := if j.ret == 0 then -ECANCELED else j.ret), Status.Aborting)
  }

  /** job_cancel_async */
  function CancelAsync(j: Job, force: bool): Job {
    var k :=
      if j.pause.user then Assert(j, j.pause.count > 0).(pause := PauseRequests(false, j.pause.count - 1)) else j;
    k.(cancelled := true, mode := k.mode.(forceCancel := k.mode.forceCancel || force))
  }

  /** job_do_dismiss */
  function DoDismiss(j: Job): Job {
    Goto(j, Null)
  }

  /** job_conclude */
  function Conclude(j: Job): Job {
    var k := Goto(j, Concluded);
    if k.mode.autoDismiss || !Started(k) then DoDismiss(k) else k
  }

  /** job_finalize_single, as far as it concerns the job alone */
  function Finalized(j: Job): Job {
    var k := UpdateRc(Assert(j, Completed(j.status)));
    Conclude(k.(log := k.log + [if k.ret == 0 then Commit else Abort] + [Clean]))
  }

  /** job_prepare; `rc` is what the driver's prepare function returns, 0 if it has none. */
  function Prepared(j: Job, rc: int): Job {
    if j.ret == 0 then UpdateRc(j.(ret := rc)) else j
  }

  // ----- what a job looks like between operations -----

  /** Who holds the job paused besides drained sections: the user, and creation until the start */
  function Held(j: Job): nat {
    (if j.pause.user then 1 else 0) + if Started(j) then 0 else 1
  }

  predicate FinishedLog(j: Job) {
    j.log == [if j.ret == 0 then Commit else Abort, Clean] && (j.ret == 0 ==> !j.cancelled)
  }

  /** Its pauses do not matter any more: it has ended, or was cancelled before it was started. */
  predicate Settled(j: Job) {
    j.status.Concluded? || j.status.Null? || CompletedTwice(j)
  }

  /** job_cancel would reach job_completed a second time: the job was cancelled before it was started. */
  predicate CompletedTwice(j: Job) {
    j.status.Aborting? && !Started(j)
  }

  predicate JobOk(j: Job) {
    && !j.bad
    && (Settled(j) || j.pause.count >= Held(j)) && (Live(j.status) ==> j.log == [])
    && match j.status
       case Undefined => false
       case Created => j.co.NotStarted? && j.ret == 0
       case Running => j.co.Exiting? || (j.co.Active? && j.ret == 0)
       case Ready => j.co.Exiting? || (j.co.Active? && j.ret == 0)
       case Paused => j.co == PausedAt(Running) && j.ret == 0
       case Standby => j.co == PausedAt(Ready) && j.ret == 0
       case Waiting => j.co.Exited? && j.ret == 0 && j.log == []
       case Pending => j.co.Exited? && j.ret == 0 && j.log == []
       case Aborting => (j.co.Exited? || (j.co.NotStarted? && !j.pause.user)) && j.ret != 0 && j.log == []
       case Concluded => j.co.Exited? && FinishedLog(j)
       case Null =>
         (j.co.Exited? && FinishedLog(j)) || (j.co.NotStarted? && (FinishedLog(j) || (j.log == [] && j.ret == 0)))
  }

  /** job_pause_point stops a job that is to be paused and is not cancelled: it is PAUSED or on STANDBY,
      and entering it again takes it back to where it was.  Any other job goes on as if nothing had been. */
  lemma PausePointStops(j: Job)
    requires JobOk(j) && j.co.Active?
    ensures var k := PausePoint(j);
            if j.pause.count > 0 && !j.cancelled then
              && JobOk(k) && !k.co.Active? && Unpause(k) == j
              && k.status == if j.status.Ready? then Standby else Paused
            else k == j
  {
  }

  /** A job that is dismissed is gone; nothing else about it changes. */
  lemma DismissEnds(j: Job)
    requires JobOk(j) && Accepts(j.status, Dismiss)
    ensures JobOk(DoDismiss(j)) && DoDismiss(j) == j.(status := Null)
  {
  }

  /** Ready for job_finalize_single */
  predicate Finishable(j: Job) {
    JobOk(j) && (j.status.Pending? || j.status.Aborting? || (j.status.Waiting? && j.cancelled))
  }

  /** A job that can be finished fails now if it was cancelled. */
  lemma UpdateRcFinish(j: Job)
    requires Finishable(j)
    ensures var k := UpdateRc(j);
            && !k.bad && k == j.(ret := k.ret, status := k.status)
            && (k.ret == 0 <==> j.ret == 0 && !j.cancelled)
            && k.status == if k.ret == 0 then Pending else Status.Aborting
  {
  }

  lemma ConcludeOk(j: Job)
    requires !j.bad && (j.status.Pending? || j.status.Aborting?) && FinishedLog(j)
    requires j.co.Exited? || j.co.NotStarted?
    ensures var k := Conclude(j);
            && JobOk(k) && k == j.(status := k.status)
            && k.status == if j.mode.autoDismiss || !Started(j) then Null else Concluded
  {
  }

  /** job_finalize_single calls exactly one of commit and abort, then clean: commit just when the
      job neither failed nor was cancelled. */
  lemma FinalizedOk(j: Job)
    requires Finishable(j)
    ensures var k := Finalized(j);
            && JobOk(k) && k.status == (if j.mode.autoDismiss || !Started(j) then Null else Concluded)
            && k.log == [if j.ret == 0 && !j.cancelled then Commit else Abort, Clean]
            && k.ret == if j.ret == 0 && j.cancelled then -ECANCELED else j.ret
  {
    UpdateRcFinish(j);
    assert Assert(j, Completed(j.status)) == j;
    var k := UpdateRc(j);
    var log := k.log + [if k.ret == 0 then Commit else Abort] + [Clean];
    assert log == [if k.ret == 0 then Commit else Abort, Clean];
    ConcludeOk(k.(log := log));
  }
}

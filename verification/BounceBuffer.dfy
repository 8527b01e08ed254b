/** The bounce buffer of exec.c and the clients that wait for it: address_space_map and
    address_space_unmap on a region that cannot be accessed directly, cpu_register_map_client,
    cpu_unregister_map_client and cpu_notify_map_clients, as steps of any number of threads.

    bounce.in_use is changed without the lock that protects the list of clients. */
module BounceBuffer {
  import opened Basics

  type Thread = nat
  type Client = nat

  /** Where a thread is.
      Mapped: address_space_map has returned the bounce buffer.
      Released: address_space_unmap has cleared in_use and is about to take the lock and notify.
      Register0/Register1/Register2: cpu_register_map_client before it takes the lock; with the
      client in the list, before in_use is read; after it was read as false.
      Done: holding the lock with nothing left to do but to release it. */
  datatype Pc =
    | Idle
    | Mapped
    | Released
    | Notify1
    | Register0(c: Client)
    | Register1
    | Register2
    | Unregister0(c: Client)
    | Unregister1(c: Client)
    | Done

  /** `waiting` is map_client_list, `scheduled` the bottom halves handed to qemu_bh_schedule. */
  datatype State = State(pcs: map<Thread, Pc>, inUse: bool, lock: Option<Thread>,
                         waiting: multiset<Client>, scheduled: multiset<Client>)

  datatype Action =
    | Map             // atomic_xchg(&bounce.in_use, true)
    | Unmap           // atomic_mb_set(&bounce.in_use, false)
    | Call(pc: Pc)    // start a registration or an unregistration
    | TakeLock
    | ReadInUse
    | NotifyAll
    | Remove
    | DropLock

  function Go(s: State, t: Thread, pc: Pc): State {
    s.(pcs := s.pcs[t := pc])
  }

  /** What holding the lock lets a thread start with */
  function Locked(pc: Pc): Pc {
    match pc
    case Released => Notify1
    case Register0(c) => Register1
    case Unregister0(c) => Unregister1(c)
    case _ => pc
  }

  predicate WantsLock(pc: Pc) {
    pc.Released? || pc.Register0? || pc.Unregister0?
  }

  predicate Next(s: State, t: Thread, a: Action, r: State) {
    t in s.pcs &&
    var pc := s.pcs[t];
    match a
    case Map =>
      // fails, and returns NULL, when somebody else has the buffer
      pc.Idle? && r == Go(s.(inUse := true), t, if s.inUse then Idle else Mapped)
    case Unmap =>
      pc.Mapped? && r == Go(s.(inUse := false), t, Released)
    case Call(to) =>
      pc.Idle? && (to.Register0? || to.Unregister0?) && r == Go(s, t, to)
    case TakeLock =>
      && WantsLock(pc) && s.lock.None?
      && r == Go(s.(lock := Some(t), waiting := s.waiting + if pc.Register0? then multiset{pc.c} else multiset{}),
                 t, Locked(pc))
    case ReadInUse =>
      pc.Register1? && r == Go(s, t, if s.inUse then Done else Register2)
    case NotifyAll =>
      && (pc.Notify1? || pc.Register2?)
      && r == Go(s.(scheduled := s.scheduled + s.waiting, waiting := multiset{}), t, Done)
    case Remove =>
      pc.Unregister1? && r == Go(s.(waiting := s.waiting - multiset{pc.c}), t, Done)
    case DropLock =>
      pc.Done? && r == Go(s.(lock := None), t, Idle)
  }

  ghost predicate Init(s: State) {
    && (forall t :: t in s.pcs ==> s.pcs[t].Idle?)
    && !s.inUse && s.lock.None? && s.waiting == multiset{} && s.scheduled == multiset{}
  }

  // ----- the invariant -----

  predicate InLock(pc: Pc) {
    pc.Notify1? || pc.Register1? || pc.Register2? || pc.Unregister1? || pc.Done?
  }

  /** Somebody is going to look at the list of clients again. */
  predicate WillNotify(pc: Pc) {
    pc.Released? || pc.Notify1? || pc.Register1? || pc.Register2?
  }

  /** Exactly the holder of the lock is in a critical section. */
  ghost predicate LockInv(s: State) {
    && (s.lock.Some? ==> s.lock.value in s.pcs && InLock(s.pcs[s.lock.value]))
    && forall t {:trigger InLock(s.pcs[t])} :: t in s.pcs && InLock(s.pcs[t]) ==> s.lock == Some(t)
  }

  /** The buffer is in use just when somebody has it, and at most one thread has. */
  ghost predicate OwnerInv(s: State) {
    && (forall t, u {:trigger Owns(s, t), Owns(s, u)} :: Owns(s, t) && Owns(s, u) ==> t == u)
    && (s.inUse <==> exists t {:trigger Owns(s, t)} :: Owns(s, t))
  }

  predicate Owns(s: State, t: Thread) {
    t in s.pcs && s.pcs[t].Mapped?
  }

  /** Clients do not wait for a buffer that is free, or somebody will notice. */
  ghost predicate WaitInv(s: State) {
    s.waiting != multiset{} && !s.inUse ==>
      exists t {:trigger WillNotify(s.pcs[t])} :: t in s.pcs && WillNotify(s.pcs[t])
  }

  ghost predicate Inv(s: State) {
    LockInv(s) && OwnerInv(s) && WaitInv(s)
  }

  lemma NextLockInv(s: State, t: Thread, a: Action, r: State)
    requires LockInv(s) && Next(s, t, a, r)
    ensures LockInv(r)
  {
    assert InLock(s.pcs[t]) ==> s.lock == Some(t);
    forall u | u in r.pcs && InLock(r.pcs[u])
      ensures r.lock == Some(u)
    {
      if u != t {
        assert InLock(s.pcs[u]);
      }
    }
  }

  lemma NextOwnerInv(s: State, t: Thread, a: Action, r: State)
    requires OwnerInv(s) && Next(s, t, a, r)
    ensures OwnerInv(r)
  {
    forall u
      ensures Owns(r, u) <==> if u == t then r.pcs[t].Mapped? else Owns(s, u)
    {
    }
    assert Owns(s, t) <==> s.pcs[t].Mapped?;
    if s.inUse && !a.Unmap? {
      var o :| Owns(s, o);
      assert Owns(r, o);
    }
  }

  lemma NextWaitInv(s: State, t: Thread, a: Action, r: State)
    requires WaitInv(s) && Next(s, t, a, r)
    ensures WaitInv(r)
  {
    if r.waiting != multiset{} && !r.inUse {
      if !WillNotify(r.pcs[t]) {
        assert s.waiting != multiset{} && !s.inUse;
        var u :| u in s.pcs && WillNotify(s.pcs[u]);
        assert u != t;
        assert WillNotify(r.pcs[u]);
      }
    }
  }

  // ----- whole runs -----

  lemma InitInv(s: State)
    requires Init(s)
    ensures Inv(s)
  {
  }

  /** Reachable by a run of steps of any threads */
  ghost predicate Run(states: seq<State>, threads: seq<Thread>, actions: seq<Action>) {
    && |states| == |threads| + 1 == |actions| + 1 && Init(states[0])
    && forall k :: 0 <= k < |threads| ==> Next(states[k], threads[k], actions[k], states[k + 1])
  }

  lemma {:induction false} RunInv(states: seq<State>, threads: seq<Thread>, actions: seq<Action>)
    requires Run(states, threads, actions)
    ensures Inv(states[|threads|])
  {
    if |threads| == 0 {
      InitInv(states[0]);
    } else {
      var n := |threads| - 1;
      RunInv(states[..n + 1], threads[..n], actions[..n]);
      NextLockInv(states[n], threads[n], actions[n], states[n + 1]);
      NextOwnerInv(states[n], threads[n], actions[n], states[n + 1]);
      NextWaitInv(states[n], threads[n], actions[n], states[n + 1]);
    }
  }

  /** At any time at most one bounce mapping is outstanding. */
  lemma OneMapping(states: seq<State>, threads: seq<Thread>, actions: seq<Action>, t: Thread, u: Thread)
    requires Run(states, threads, actions)
    requires Owns(states[|threads|], t) && Owns(states[|threads|], u)
    ensures t == u
  {
    RunInv(states, threads, actions);
  }

  /** Whoever asks for the buffer gets it if and only if nobody has it, and otherwise is turned away with
      nothing changed. */
  lemma MapExactly(states: seq<State>, threads: seq<Thread>, actions: seq<Action>, t: Thread) returns (r: State)
    requires Run(states, threads, actions) && t in states[|threads|].pcs && states[|threads|].pcs[t].Idle?
    ensures var s := states[|threads|];
            && Next(s, t, Map, r) && (Owns(r, t) <==> forall u :: !Owns(s, u))
            && (!Owns(r, t) ==> r == s)
  {
    var s := states[|threads|];
    RunInv(states, threads, actions);
    r := Go(s.(inUse := true), t, if s.inUse then Idle else Mapped);
    if s.inUse {
      assert r.pcs == s.pcs;
    }
  }

  /** Whenever nobody holds the lock, a client that waits on a free buffer waits for a thread that
      released the buffer and has its notification still to run. */
  lemma NoClientForgotten(states: seq<State>, threads: seq<Thread>, actions: seq<Action>)
    requires Run(states, threads, actions)
    requires var s := states[|threads|]; s.lock.None? && !s.inUse && s.waiting != multiset{}
    ensures var s := states[|threads|]; exists t :: t in s.pcs && s.pcs[t].Released?
  {
    RunInv(states, threads, actions);
    var s := states[|threads|];
    var t :| t in s.pcs && WillNotify(s.pcs[t]);
    assert !InLock(s.pcs[t]);
  }

  // ----- the notification does come -----

  predicate Starts(a: Action) {
    a.Map? || a.Call?
  }

  /** How far the thread that holds the lock is from the notification or the end of its section */
  function Left(pc: Pc): nat {
    match pc
    case Register1 => 3
    case Register2 => 2
    case Notify1 => 2
    case Unregister1(_) => 2
    case Done => 1
    case _ => 0
  }

  /** The holder of the lock can always go on, and leaves its section after at most three steps. */
  lemma HolderMoves(s: State) returns (a: Action, r: State)
    requires Inv(s) && s.lock.Some?
    ensures !Starts(a) && !a.Unmap? && Next(s, s.lock.value, a, r) && s.lock.value in r.pcs && r.inUse == s.inUse
    ensures if r.lock.None? then s.pcs[s.lock.value].Done?
            else r.lock == s.lock && Left(r.pcs[s.lock.value]) < Left(s.pcs[s.lock.value])
  {
    var t := s.lock.value;
    match s.pcs[t]
    case Register1 =>
      a, r := ReadInUse, Go(s, t, if s.inUse then Done else Register2);
    case Done =>
      a, r := DropLock, Go(s.(lock := None), t, Idle);
    case Unregister1(c) =>
      a, r := Remove, Go(s.(waiting := s.waiting - multiset{c}), t, Done);
    case Notify1 =>
      a, r := NotifyAll, Go(s.(scheduled := s.scheduled + s.waiting, waiting := multiset{}), t, Done);
    case Register2 =>
      a, r := NotifyAll, Go(s.(scheduled := s.scheduled + s.waiting, waiting := multiset{}), t, Done);
  }

  /** Once the lock is free, the thread that released the buffer can take it, and two steps of it
      schedule every client that waits. */
  lemma ReleaserNotifies(s: State, t: Thread) returns (m: State, r: State)
    requires Inv(s) && s.lock.None? && t in s.pcs && s.pcs[t].Released?
    ensures Next(s, t, TakeLock, m) && Next(m, t, NotifyAll, r)
    ensures r.waiting == multiset{} && r.scheduled == s.scheduled + s.waiting
  {
    m := Go(s.(lock := Some(t), waiting := s.waiting + multiset{}), t, Notify1);
    r := Go(m.(scheduled := m.scheduled + m.waiting, waiting := multiset{}), t, Done);
  }

  /** A step that neither maps the buffer nor calls anything anew */
  ghost predicate CanStep(s: State, r: State) {
    exists t: Thread, a: Action :: !Starts(a) && Next(s, t, a, r)
  }

  /** A way from one state to another */
  ghost predicate Path(path: seq<State>, s: State, r: State) {
    && |path| > 0 && path[0] == s && path[|path| - 1] == r
    && forall k :: 0 <= k < |path| - 1 ==> CanStep(path[k], path[k + 1])
  }

  lemma PathFirst(path: seq<State>, s: State, t: Thread, a: Action, m: State, r: State)
    requires !Starts(a) && Next(s, t, a, m) && Path(path, m, r)
    ensures Path([s] + path, s, r)
  {
    var longer := [s] + path;
    forall k | 0 <= k < |longer| - 1
      ensures CanStep(longer[k], longer[k + 1])
    {
      if k == 0 {
        assert CanStep(s, m);
      } else {
        assert CanStep(path[k - 1], path[k]);
      }
    }
  }

  /** Steps that the holder of the lock and one more thread are still to take */
  function Distance(s: State): nat {
    2 + if s.lock.Some? && s.lock.value in s.pcs then Left(s.pcs[s.lock.value]) else 0
  }

  /** Whenever clients wait on a free buffer, threads that are on their way already can bring the
      notification, in at most five steps, without anybody registering or mapping anew. */
  lemma {:induction false} NotificationComes(s: State) returns (path: seq<State>, r: State)
    requires Inv(s) && !s.inUse
    ensures Path(path, s, r) && r.waiting == multiset{} && |path| - 1 <= Distance(s) <= 5
    decreases if s.lock.Some? && s.lock.value in s.pcs then Left(s.pcs[s.lock.value]) + 1 else 0
  {
    if s.waiting == multiset{} {
      path, r := [s], s;
    } else if s.lock.None? {
      var t :| t in s.pcs && WillNotify(s.pcs[t]);
      assert !InLock(s.pcs[t]);
      var m;
      m, r := ReleaserNotifies(s, t);
      path := [r];
      PathFirst(path, m, t, NotifyAll, r, r);
      path := [m] + path;
      PathFirst(path, s, t, TakeLock, m, r);
      path := [s] + path;
    } else {
      var a, m := HolderMoves(s);
      NextLockInv(s, s.lock.value, a, m);
      NextOwnerInv(s, s.lock.value, a, m);
      NextWaitInv(s, s.lock.value, a, m);
      path, r := NotificationComes(m);
      PathFirst(path, s, s.lock.value, a, m, r);
      path := [s] + path;
    }
  }

  // ----- whatever the scheduler does -----

  /** How many steps a thread takes at most before it is idle */
  function Weight(pc: Pc): nat {
    match pc
    case Idle => 0
    case Mapped => 4
    case Released => 3
    case Register0(_) => 4
    case Unregister0(_) => 3
    case _ => Left(pc)
  }

  ghost function Pick(pcs: map<Thread, Pc>): (t: Thread)
    requires pcs != map[]
    ensures t in pcs
  {
    var t :| t in pcs;
    t
  }

  ghost function Total(pcs: map<Thread, Pc>): nat
    decreases |pcs|
  {
    if pcs == map[] then 0
    else
      var t := Pick(pcs);
      FewerThreads(pcs, t);
      Weight(pcs[t]) + Total(pcs - {t})
  }

  lemma FewerThreads(pcs: map<Thread, Pc>, t: Thread)
    requires t in pcs
    ensures |pcs - {t}| < |pcs|
  {
    assert (pcs - {t}).Keys == pcs.Keys - {t};
  }

  /** The sum does not depend on the order. */
  lemma {:induction false} TotalAt(pcs: map<Thread, Pc>, t: Thread)
    requires t in pcs
    ensures Total(pcs) == Weight(pcs[t]) + Total(pcs - {t})
    decreases |pcs|
  {
    var u := Pick(pcs);
    if u != t {
      FewerThreads(pcs, u);
      FewerThreads(pcs, t);
      TotalAt(pcs - {u}, t);
      TotalAt(pcs - {t}, u);
      assert pcs - {u} - {t} == pcs - {t} - {u};
    }
  }

  lemma StepWeight(s: State, t: Thread, a: Action, r: State)
    requires Next(s, t, a, r) && !Starts(a)
    ensures t in s.pcs && t in r.pcs && r.pcs == s.pcs[t := r.pcs[t]] && Weight(r.pcs[t]) < Weight(s.pcs[t])
  {
  }

  lemma StepLighter(s: State, t: Thread, a: Action, r: State)
    requires Next(s, t, a, r) && !Starts(a)
    ensures Total(r.pcs) < Total(s.pcs)
  {
    StepWeight(s, t, a, r);
    TotalAt(s.pcs, t);
    TotalAt(r.pcs, t);
    assert s.pcs - {t} == r.pcs - {t};
  }

  lemma {:induction false} PathInv(path: seq<State>, s: State, r: State, k: nat)
    requires Inv(s) && Path(path, s, r) && k < |path|
    ensures Inv(path[k]) && k + Total(path[k].pcs) <= Total(s.pcs)
    decreases k
  {
    if k > 0 {
      PathInv(path, s, r, k - 1);
      assert CanStep(path[k - 1], path[k - 1 + 1]);
      var t, a :| !Starts(a) && Next(path[k - 1], t, a, path[k]);
      StepLighter(path[k - 1], t, a, path[k]);
      NextLockInv(path[k - 1], t, a, path[k]);
      NextOwnerInv(path[k - 1], t, a, path[k]);
      NextWaitInv(path[k - 1], t, a, path[k]);
    }
  }

  /** Nothing but a new call, a new mapping or the end of one can happen. */
  ghost predicate AtRest(s: State) {
    forall t: Thread, a: Action, r: State :: Next(s, t, a, r) ==> Starts(a) || a.Unmap?
  }

  /** No client is left behind, whatever the scheduler does: from every reachable state the threads on
      their way take a bounded number of steps, in any order, and when they are through every client
      has been notified, or the buffer is in use and its owner will do it. */
  lemma EveryScheduleNotifies(states: seq<State>, threads: seq<Thread>, actions: seq<Action>,
                              path: seq<State>, r: State)
    requires Run(states, threads, actions) && Path(path, states[|threads|], r)
    ensures |path| - 1 <= Total(states[|threads|].pcs)
    ensures AtRest(r) ==> r.waiting == multiset{} || exists t :: Owns(r, t)
  {
    var s := states[|threads|];
    RunInv(states, threads, actions);
    PathInv(path, s, r, |path| - 1);
    if AtRest(r) && r.waiting != multiset{} && !r.inUse {
      RestHasNoneWaiting(r);
    }
  }

  lemma RestHasNoneWaiting(s: State)
    requires Inv(s) && AtRest(s) && !s.inUse
    ensures s.waiting == multiset{}
  {
    if s.lock.Some? {
      var a, r := HolderMoves(s);
    } else if s.waiting != multiset{} {
      var t :| t in s.pcs && WillNotify(s.pcs[t]);
      assert !InLock(s.pcs[t]);
      var m, r := ReleaserNotifies(s, t);
    }
  }

  // ----- nobody is woken for nothing -----

  /** The thread is about to schedule the clients that wait. */
  predicate Notifying(pc: Pc) {
    pc.Released? || pc.Notify1? || pc.Register2?
  }

  ghost predicate NobodyNotifies(s: State) {
    forall t {:trigger Notifying(s.pcs[t])} :: t in s.pcs ==> !Notifying(s.pcs[t])
  }

  /** While the buffer stays in use no client is scheduled, however many register. */
  lemma {:induction false} NobodyWoken(states: seq<State>, threads: seq<Thread>, actions: seq<Action>, i: nat, n: nat)
    requires Run(states, threads, actions) && i <= n <= |threads| && NobodyNotifies(states[i])
    requires forall k :: i <= k <= n ==> states[k].inUse
    ensures NobodyNotifies(states[n]) && states[n].scheduled == states[i].scheduled
    decreases n
  {
    if i < n {
      NobodyWoken(states, threads, actions, i, n - 1);
      StepWakesNobody(states[n - 1], threads[n - 1], actions[n - 1], states[n]);
    }
  }

  lemma StepWakesNobody(s: State, t: Thread, a: Action, r: State)
    requires Next(s, t, a, r) && s.inUse && r.inUse && NobodyNotifies(s)
    ensures NobodyNotifies(r) && r.scheduled == s.scheduled
  {
    assert !Notifying(s.pcs[t]);
    forall u | u in r.pcs
      ensures !Notifying(r.pcs[u])
    {
      if u != t {
        assert !Notifying(s.pcs[u]);
      }
    }
  }

  // ----- no client is lost -----

  /** The client that a step puts on the list */
  function Enters(s: State, t: Thread, a: Action): multiset<Client> {
    if a.TakeLock? && t in s.pcs && s.pcs[t].Register0? then multiset{s.pcs[t].c} else multiset{}
  }

  /** The client that a step takes off the list without scheduling it */
  function Leaves(s: State, t: Thread, a: Action): multiset<Client> {
    if a.Remove? && t in s.pcs && s.pcs[t].Unregister1? && s.pcs[t].c in s.waiting then multiset{s.pcs[t].c}
    else multiset{}
  }

  /** All that entered, and all that left, in the first `n` steps of a run */
  function Entered(states: seq<State>, threads: seq<Thread>, actions: seq<Action>, n: nat): multiset<Client>
    requires n <= |threads| == |actions| < |states|
  {
    if n == 0 then multiset{}
    else Entered(states, threads, actions, n - 1) + Enters(states[n - 1], threads[n - 1], actions[n - 1])
  }

  function Withdrawn(states: seq<State>, threads: seq<Thread>, actions: seq<Action>, n: nat): multiset<Client>
    requires n <= |threads| == |actions| < |states|
  {
    if n == 0 then multiset{}
    else Withdrawn(states, threads, actions, n - 1) + Leaves(states[n - 1], threads[n - 1], actions[n - 1])
  }

  /** Each registration is accounted for once: the client still waits, or was scheduled, or took itself
      off the list. */
  predicate Accounted(states: seq<State>, threads: seq<Thread>, actions: seq<Action>, n: nat)
    requires n <= |threads| == |actions| < |states|
  {
    Entered(states, threads, actions, n) ==
    states[n].waiting + states[n].scheduled + Withdrawn(states, threads, actions, n)
  }

  /** No registration is lost or counted twice, at any point of any run. */
  lemma {:induction false} ClientsConserved(states: seq<State>, threads: seq<Thread>, actions: seq<Action>, n: nat)
    requires Run(states, threads, actions) && n <= |threads|
    ensures Accounted(states, threads, actions, n)
    decreases n
  {
    if n == 0 {
      assert states[0].waiting == states[0].scheduled == multiset{};
    } else {
      ClientsConserved(states, threads, actions, n - 1);
      StepCounted(states, threads, actions, n - 1);
    }
  }

  lemma StepCounted(states: seq<State>, threads: seq<Thread>, actions: seq<Action>, k: nat)
    requires Run(states, threads, actions) && k < |threads|
    requires Accounted(states, threads, actions, k)
    ensures Accounted(states, threads, actions, k + 1)
  {
    var s, t, a, r := states[k], threads[k], actions[k], states[k + 1];
    StepConserves(s, t, a, r);
    Balance(Entered(states, threads, actions, k), Enters(s, t, a), s.waiting + s.scheduled,
            r.waiting + r.scheduled, Withdrawn(states, threads, actions, k), Leaves(s, t, a));
  }

  lemma Balance(entered: multiset<Client>, e: multiset<Client>, before: multiset<Client>, after: multiset<Client>,
        left: multiset<Client>, l: multiset<Client>)
    requires entered == before + left && before + e == after + l
    ensures entered + e == after + (left + l)
  {
    assert entered + e == before + e + left;
  }

  lemma StepConserves(s: State, t: Thread, a: Action, r: State)
    requires Next(s, t, a, r)
    ensures s.waiting + s.scheduled + Enters(s, t, a) == r.waiting + r.scheduled + Leaves(s, t, a)
  {
  }
}

/** What the kernel promises over every run: counting, wakeups, mutual exclusion, signalling,
    scheduling order and the life of threads. */
module KernelTheorems {
  import opened Common
  import opened Kernel
  import opened KernelSafety

  // ----- what a step does, as events

  function Upped(st: State, act: Action): Option<Sema> {
    match act
    case DoUp(s) => Some(s)
    case InterruptUp(s) => Some(s)
    case Continue =>
      (match Here(st)
       case ReleaseUp(l, _) => Some(LockSema(l))
       case SignalUp(s, _) => Some(s)
       case _ => None)
    case _ => None
  }

  /** The semaphore whose value the step tests in order to take a unit. */
  function Tested(st: State, act: Action): Option<Sema> {
    match act
    case DoDown(s) => Some(s)
    case DoTryDown(s) => Some(s)
    case InterruptTryDown(s) => Some(s)
    case DoAcquire(l) => Some(LockSema(l))
    case DoTryAcquire(l) => Some(LockSema(l))
    case Continue =>
      (match Here(st)
       case Down(s, _) => Some(s)
       case Asleep(s, _) => Some(s)
       case _ => None)
    case _ => None
  }

  predicate Downed(st: State, act: Action, s: Sema) { Tested(st, act) == Some(s) && st.semas(s).value > 0 }

  function Ups(e: Execution, s: Sema): nat {
    match e
    case Boot(_, _) => 0
    case Then(p, act) => Ups(p, s) + Bit(Upped(Last(p), act) == Some(s))
  }

  function Downs(e: Execution, s: Sema): nat {
    match e
    case Boot(_, _) => 0
    case Then(p, act) => Downs(p, s) + Bit(Downed(Last(p), act, s))
  }

  // ----- semaphores

  lemma ContinueChangesValue(st: State, s: Sema)
    ensures Step(st, Continue).semas(s).value + Bit(Downed(st, Continue, s))
         == st.semas(s).value + Bit(Upped(st, Continue) == Some(s))
  {
  }

  lemma StepChangesValue(st: State, act: Action, s: Sema)
    requires act.DoWait? ==> st.semas(WaiterSema(st.cur, act.c)).value == 0
    ensures Step(st, act).semas(s).value + Bit(Downed(st, act, s))
         == st.semas(s).value + Bit(Upped(st, act) == Some(s))
  {
    if act.Continue? { ContinueChangesValue(st, s); }
  }

  /** The value of a semaphore is its initial value plus the ups minus the completed downs. */
  lemma {:induction false} SemaphoreCounts(e: Execution, s: Sema)
    requires Legal(e)
    ensures Last(e).semas(s).value + Downs(e, s) == InitialValue(s) + Ups(e, s)
  {
    match e
    case Boot(_, _) =>
    case Then(p, act) =>
      EveryRunKeepsInv(p);
      SemaphoreCounts(p, s);
      if act.DoWait? { NobodySleepsOnIdleWaiter(Last(p), act.c); }
      StepChangesValue(Last(p), act, s);
  }

  /** No wakeup is lost: while a thread sleeps on `s`, every unit has a woken thread of its own that
      has not yet tested the value again, and that thread is about to: it is on the ready list, or
      it runs with interrupts off. */
  lemma NoLostWakeup(e: Execution, s: Sema)
    requires Legal(e)
    ensures var st := Last(e);
      && (st.semas(s).waiters != [] ==> st.semas(s).value <= |Woken(st, s)|)
      && (forall t :: t in Woken(st, s) ==> t in st.ready || (t == st.cur && !InterruptsOn(st)))
      && (st.semas(s).waiters != [] && st.semas(s).value > 0 ==> Woken(st, s) != {})
  {
    EveryRunKeepsInv(e);
    var st := Last(e);
    assert WakeAt(st, s);
    forall t | t in Woken(st, s) ensures t in st.ready || (t == st.cur && !InterruptsOn(st)) {
      assert ThreadAt(st, t) && ThreadAt(st, st.idle) && WaiterAt(st, s, t);
    }
  }

  // ----- locks

  lemma OneOwner(st: State, l: LockId)
    requires LocksInv(st)
    ensures st.semas(LockSema(l)).value + |Owners(st, l)| == 1
    ensures forall t: Tid :: Holds(st, t, l) ==> Owners(st, l) == {t}
  {
    assert UnitAt(st, l);
    if st.semas(LockSema(l)).value == 0 {
      var t: Tid :| Owns(st, t, l);
      forall u: Tid ensures u in Owners(st, l) <==> u == t { assert OwnerAt(st, l, t, u); }
      assert Owners(st, l) == {t};
    } else {
      forall u: Tid ensures u !in Owners(st, l) { assert OwnerAt(st, l, u, u); }
      assert Owners(st, l) == {};
    }
    forall t: Tid | Holds(st, t, l) ensures Owners(st, l) == {t} {
      assert Owns(st, t, l);
      forall u: Tid ensures u in Owners(st, l) <==> u == t { assert OwnerAt(st, l, t, u); }
    }
  }

  /** Of the unit of a lock's semaphore and the threads between a completed down and the matching
      up there is exactly one, and a recorded holder is that thread. */
  lemma MutualExclusion(e: Execution, l: LockId)
    requires Legal(e)
    ensures Last(e).semas(LockSema(l)).value + |Owners(Last(e), l)| == 1
    ensures forall t: Tid :: Holds(Last(e), t, l) ==> Owners(Last(e), l) == {t}
  {
    EveryRunKeepsInv(e);
    OneOwner(Last(e), l);
  }

  // ----- condition variables

  function Popped(st: State, act: Action, c: Cond): seq<Tid> {
    if (act == DoSignal(c) || (act == Continue && Here(st) == Broadcasting(c))) && st.conds(c) != []
    then [st.conds(c)[0]] else []
  }

  /** The threads that entered cond_wait(c), and those that signals took off its list, in order. */
  function Arrivals(e: Execution, c: Cond): seq<Tid> {
    match e
    case Boot(_, _) => []
    case Then(p, act) => Arrivals(p, c) + if act == DoWait(c) then [Last(p).cur] else []
  }

  function Signals(e: Execution, c: Cond): seq<Tid> {
    match e
    case Boot(_, _) => []
    case Then(p, act) => Signals(p, c) + Popped(Last(p), act, c)
  }

  lemma ContinueMovesQueue(st: State, c: Cond)
    ensures st.conds(c) == Popped(st, Continue, c) + Step(st, Continue).conds(c)
  {
  }

  lemma StepMovesQueue(st: State, act: Action, c: Cond)
    ensures st.conds(c) + (if act == DoWait(c) then [st.cur] else [])
         == Popped(st, act, c) + Step(st, act).conds(c)
  {
    if act.Continue? { ContinueMovesQueue(st, c); }
  }

  lemma Regroup<T>(s: seq<T>, q: seq<T>, a: seq<T>, b: seq<T>, q': seq<T>)
    requires q + a == b + q'
    ensures s + q + a == s + b + q'
  {
    assert s + q + a == s + (q + a);
    assert s + b + q' == s + (b + q');
  }

  /** Signals release the waiters of a condition in the order in which they arrived. */
  lemma {:induction false} SignalsAreFifo(e: Execution, c: Cond)
    requires Legal(e)
    ensures Arrivals(e, c) == Signals(e, c) + Last(e).conds(c)
  {
    match e
    case Boot(_, _) =>
    case Then(p, act) =>
      SignalsAreFifo(p, c);
      StepMovesQueue(Last(p), act, c);
      Regroup(Signals(p, c), Last(p).conds(c), if act == DoWait(c) then [Last(p).cur] else [],
              Popped(Last(p), act, c), Last(e).conds(c));
  }

  /** A signal pending after the step is one that was popped in it or was pending before and not sent. */
  ghost predicate SignalsTally(st: State, act: Action, t: Tid, c: Cond) {
    multiset(Popped(st, act, c))[t] + Bit(SignalPending(st, t, c))
    == Bit(Upped(st, act) == Some(WaiterSema(t, c))) + Bit(SignalPending(Step(st, act), t, c))
  }

  lemma ContinueTally(st: State, t: Tid, c: Cond)
    requires LocksInv(st) && CondsInv(st) && st.cur in st.pc && Here(st) != Run
    ensures SignalsTally(st, Continue, t, c)
  {
    assert WfPc(st, st.cur);
    if Here(st).SetHolder? { JustTaken(st, Here(st).lock); }
  }

  /** Steps that pop nothing, send nothing, and neither start nor stop sending. */
  lemma OtherTally(st: State, act: Action, t: Tid, c: Cond, p: Pc)
    requires st.cur in st.pc && Popped(st, act, c) == [] && Upped(st, act) != Some(WaiterSema(t, c))
    requires Step(st, act).pc == st.pc[st.cur := p] && Step(st, act).holders == st.holders
    requires p == Here(st) || (!p.SignalUp? && !Here(st).SignalUp?)
    ensures SignalsTally(st, act, t, c)
  {
  }

  lemma ClientTally(st: State, act: Action, t: Tid, c: Cond)
    requires st.cur in st.pc && Enabled(st, act)
    requires act.DoRelease? || act.DoSignal? || act.DoBroadcast?
    ensures SignalsTally(st, act, t, c)
  {
  }

  lemma DownTally(st: State, act: Action, t: Tid, c: Cond)
    requires st.cur in st.pc && Enabled(st, act) && (act.DoDown? || act.DoAcquire? || act.DoTryDown? || act.DoTryAcquire?)
    ensures SignalsTally(st, act, t, c)
  {
    OtherTally(st, act, t, c, Here(Step(st, act).(cur := st.cur)));
  }

  lemma StepTally(st: State, act: Action, t: Tid, c: Cond)
    requires SchedInv(st) && LocksInv(st) && CondsInv(st) && Enabled(st, act)
    ensures SignalsTally(st, act, t, c)
  {
    assert ThreadAt(st, st.cur);
    match act
    case Continue => ContinueTally(st, t, c);
    case DoCreate(u) => assert ThreadAt(st, u) && UnitAt(st, c.lock);
    case DoRelease(_) => ClientTally(st, act, t, c);
    case DoSignal(_) => ClientTally(st, act, t, c);
    case DoBroadcast(_) => ClientTally(st, act, t, c);
    case DoWait(d) => OtherTally(st, act, t, c, WaitRelease(d));
    case DoDown(_) => DownTally(st, act, t, c);
    case DoAcquire(_) => DownTally(st, act, t, c);
    case DoTryDown(_) => DownTally(st, act, t, c);
    case DoTryAcquire(_) => DownTally(st, act, t, c);
    case CreateFails => OtherTally(st, act, t, c, Run);
    case _ => OtherTally(st, act, t, c, Here(st));
  }

  /** Every wait has exactly one of: its place on the list, a signal about to be sent, a signal in
      its semaphore; this holds from entry until the signal is taken, also before it sleeps. */
  lemma OneSignalPerWait(e: Execution, t: Tid, c: Cond)
    requires Legal(e)
    ensures Bit(t in Last(e).conds(c)) + Bit(SignalPending(Last(e), t, c)) + Last(e).semas(WaiterSema(t, c)).value
         == Bit(Awaiting(Last(e), t, c))
  {
    EveryRunKeepsInv(e);
    assert TokenAt(Last(e), t, c);
  }

  /** No waiter passes unsignalled: the signals that took `t` off the list of `c` are those it has
      consumed, the one its semaphore holds, and the one still to be sent. */
  lemma {:induction false} EverySignalReachesItsWaiter(e: Execution, t: Tid, c: Cond)
    requires Legal(e)
    ensures multiset(Signals(e, c))[t]
         == Downs(e, WaiterSema(t, c)) + Last(e).semas(WaiterSema(t, c)).value + Bit(SignalPending(Last(e), t, c))
  {
    SignalCounts(e, t, c);
    SemaphoreCounts(e, WaiterSema(t, c));
  }

  lemma {:induction false} SignalCounts(e: Execution, t: Tid, c: Cond)
    requires Legal(e)
    ensures multiset(Signals(e, c))[t] == Ups(e, WaiterSema(t, c)) + Bit(SignalPending(Last(e), t, c))
  {
    match e
    case Boot(_, _) =>
    case Then(p, act) =>
      EveryRunKeepsInv(p);
      SignalCounts(p, t, c);
      StepTally(Last(p), act, t, c);
  }

  // ----- the scheduler

  lemma ReadyListIsExact(e: Execution)
    requires Legal(e)
    ensures var st := Last(e);
      && (forall t: Tid :: Is(st, t, Running) <==> t == st.cur)
      && NoDup(st.ready)
      && (forall t: Tid :: t in st.ready <==> Is(st, t, Ready) && t != st.idle)
  {
    EveryRunKeepsInv(e);
    var st := Last(e);
    forall t: Tid ensures (Is(st, t, Running) <==> t == st.cur) && (t in st.ready <==> Is(st, t, Ready) && t != st.idle) {
      assert ThreadAt(st, t);
    }
  }

  /** The list element of a thread is in at most one list. */
  lemma OneListPerThread(e: Execution, t: Tid, r: Sema, s: Sema)
    requires Legal(e) && t in Last(e).semas(r).waiters
    ensures t !in Last(e).ready && t != Last(e).cur && NoDup(Last(e).semas(r).waiters)
    ensures t in Last(e).semas(s).waiters ==> r == s
  {
    EveryRunKeepsInv(e);
    var st := Last(e);
    assert ThreadAt(st, t) && WaiterAt(st, r, t) && WaiterAt(st, s, t) && LineAt(st, r);
  }

  predicate Dispatches(st: State, act: Action) {
    || act.Yield? || act.DoExit? || act.IdleBlock?
    || (Tested(st, act).Some? && !act.DoTryDown? && !act.DoTryAcquire? && !act.InterruptTryDown?
        && st.semas(Tested(st, act).value).value == 0)
  }

  lemma StepMovesReady(st: State, act: Action)
    ensures if Dispatches(st, act) && st.ready != []
            then Step(st, act).cur == st.ready[0] && st.ready[1..] <= Step(st, act).ready
            else st.ready <= Step(st, act).ready
  {
  }

  /** The threads that the calls of schedule() in `acts`, performed after `e`, dispatch. */
  function Dispatched(e: Execution, acts: seq<Action>): seq<Tid>
    decreases |acts|
  {
    if acts == [] then []
    else (if Dispatches(Last(e), acts[0]) then [Step(Last(e), acts[0]).cur] else [])
         + Dispatched(Then(e, acts[0]), acts[1..])
  }

  /** Round robin: the thread at position k of the ready list is the (k+1)-th to be dispatched. */
  lemma {:induction false} DispatchedInOrder(e: Execution, acts: seq<Action>, k: nat)
    requires k < |Last(e).ready| && k < |Dispatched(e, acts)|
    ensures Dispatched(e, acts)[k] == Last(e).ready[k]
    decreases |acts|
  {
    var st, st' := Last(e), Step(Last(e), acts[0]);
    StepMovesReady(st, acts[0]);
    if !Dispatches(st, acts[0]) {
      assert st'.ready[k] == st.ready[k];
      DispatchedInOrder(Then(e, acts[0]), acts[1..], k);
    } else if k > 0 {
      assert st'.ready[k - 1] == st.ready[1..][k - 1] == st.ready[k];
      DispatchedInOrder(Then(e, acts[0]), acts[1..], k - 1);
    }
  }

  // ----- the end of a thread

  ghost predicate FreedOnce(st: State, t: Tid) {
    multiset(st.freed)[t] == Bit(Is(st, t, Dying) && t != st.initial)
  }

  lemma LeaveFrees(st: State, x: Status, t: Tid)
    requires SchedInv(st) && FreedOnce(st, t) && (x == Dying ==> st.cur != st.idle)
    ensures FreedOnce(Leave(st, x), t)
  {
    NextIsReady(st, st.ready);
    assert ThreadAt(st, st.cur) && ThreadAt(st, st.idle);
  }

  lemma SemaUpFrees(st: State, s: Sema, t: Tid)
    requires WaitersInv(st) && FreedOnce(st, t)
    ensures FreedOnce(SemaUp(st, s), t)
  {
    var q := st.semas(s).waiters;
    if q != [] { assert WaiterAt(st, s, q[0]); }
  }

  lemma DownFrees(st: State, s: Sema, after: Pc, t: Tid)
    requires SchedInv(st) && FreedOnce(st, t) && st.cur != st.idle
    ensures FreedOnce(SemaDown(st, s, after), t)
  {
    if st.semas(s).value == 0 {
      NextIsReady(st, st.ready);
      assert ThreadAt(st, st.cur) && ThreadAt(st, st.idle);
    }
  }

  lemma YieldFrees(st: State, t: Tid)
    requires SchedInv(st) && FreedOnce(st, t)
    ensures FreedOnce(Step(st, Yield), t)
  {
    NextIsReady(st, st.ready);
    assert ThreadAt(st, st.cur) && ThreadAt(st, st.idle);
  }

  lemma ContinueFrees(st: State, t: Tid)
    requires SchedInv(st) && WaitersInv(st) && LifeInv(st) && Here(st) != Run && FreedOnce(st, t)
    ensures FreedOnce(Step(st, Continue), t)
  {
    assert ThreadAt(st, st.cur) && CreatorAt(st, st.cur, st.cur);
    match Here(st)
    case Down(s, after) => DownFrees(st, s, after, t);
    case Asleep(s, after) => DownFrees(st, s, after, t);
    case ReleaseUp(l, _) => SemaUpFrees(st, LockSema(l), t);
    case SignalUp(s, _) => SemaUpFrees(st, s, t);
    case _ =>
  }

  lemma StepFrees(st: State, act: Action, t: Tid)
    requires SchedInv(st) && WaitersInv(st) && LifeInv(st) && Enabled(st, act) && FreedOnce(st, t)
    ensures FreedOnce(Step(st, act), t)
  {
    match act
    case DoDown(s) => DownFrees(st, s, Run, t);
    case DoAcquire(l) => DownFrees(st, LockSema(l), SetHolder(l), t);
    case DoUp(s) => SemaUpFrees(st, s, t);
    case InterruptUp(s) => SemaUpFrees(st, s, t);
    case Continue => ContinueFrees(st, t);
    case Yield => YieldFrees(st, t);
    case DoExit => LeaveFrees(st, Dying, t);
    case IdleBlock => LeaveFrees(st, Blocked, t);
    case _ =>
  }

  /** The page of a thread is freed once if the thread has exited and is not the initial one, and
      is not freed otherwise. */
  lemma {:induction false} ExitedThreadsAreFreedOnce(e: Execution, t: Tid)
    requires Legal(e)
    ensures multiset(Last(e).freed)[t] == Bit(Is(Last(e), t, Dying) && t != Last(e).initial)
  {
    match e
    case Boot(_, _) =>
    case Then(p, act) =>
      EveryRunKeepsInv(p);
      ExitedThreadsAreFreedOnce(p, t);
      StepFrees(Last(p), act, t);
  }

  // ----- the assertions in the code

  /** The ASSERTs met by the step: the running thread is running, whoever is unblocked is blocked,
      a lock is acquired by a non-holder and released or signalled under by its holder, and the
      thread dispatched is neither dying nor freed. */
  predicate Asserts(st: State, act: Action) {
    && Is(st, st.cur, Running)
    && (Upped(st, act).Some? && st.semas(Upped(st, act).value).waiters != [] ==>
          Is(st, st.semas(Upped(st, act).value).waiters[0], Blocked))
    && (act.Continue? ==>
          match Here(st)
          case Down(s, _) => s.LockSema? ==> !Holds(st, st.cur, s.lock)
          case WaitRelease(c) => Holds(st, st.cur, c.lock)
          case Broadcasting(c) => Holds(st, st.cur, c.lock)
          case Creating(u) => Is(st, u, Blocked)
          case _ => true)
    && (Dispatches(st, act) ==>
          var next := Step(st, act).cur;
          next in st.status && st.status[next] != Dying && next !in Step(st, act).freed)
  }

  lemma UpAsserts(st: State, act: Action)
    requires WaitersInv(st)
    ensures Upped(st, act).Some? && st.semas(Upped(st, act).value).waiters != [] ==>
              Is(st, st.semas(Upped(st, act).value).waiters[0], Blocked)
  {
    if Upped(st, act).Some? && st.semas(Upped(st, act).value).waiters != [] {
      assert WaiterAt(st, Upped(st, act).value, st.semas(Upped(st, act).value).waiters[0]);
    }
  }

  lemma DispatchAsserts(st: State, act: Action)
    requires SchedInv(st) && Dispatches(st, act)
    ensures Step(st, act).cur in st.status && st.status[Step(st, act).cur] != Dying
  {
    NextIsReady(st, st.ready);
    assert ThreadAt(st, st.cur);
  }

  /** In any run whose callers observe `Enabled`, no ASSERT of the two files fails. That a lock is held, or is not, by who
      calls lock_acquire(), lock_release() or an operation of a condition is theirs to observe at the call; inside, and
      later in the same call, it is proved. */
  lemma NoAssertionFails(e: Execution, act: Action)
    requires Legal(Then(e, act))
    ensures Asserts(Last(e), act)
  {
    var st, e' := Last(e), Then(e, act);
    EveryRunKeepsInv(e);
    EveryRunKeepsInv(e');
    assert ThreadAt(st, st.cur) && WfPc(st, st.cur) && CreatorAt(st, st.cur, st.cur);
    assert ThreadAt(Last(e'), Last(e').cur);
    UpAsserts(st, act);
    if Dispatches(st, act) { DispatchAsserts(st, act); }
    ExitedThreadsAreFreedOnce(e', Last(e').cur);
  }
}

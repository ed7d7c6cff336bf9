/** The life of a thread over every run, told from the events: when it is made, why it is blocked, who wakes it, when it
    runs, and how it ends. */
module KernelLives {
  import opened Common
  import opened Kernel
  import opened KernelSafety
  import opened KernelTheorems

  // ----- from creation to exit

  /** The thread has been created, or is the initial one. */
  predicate Made(e: Execution, t: Tid) {
    match e
    case Boot(initial, _) => t == initial
    case Then(p, act) => Made(p, t) || (act.Continue? && Here(Last(p)) == Creating(t))
  }

  /** How often a thread has called thread_exit() */
  function Exits(e: Execution, t: Tid): nat {
    match e
    case Boot(_, _) => 0
    case Then(p, act) => Exits(p, t) + Bit(act.DoExit? && Last(p).cur == t)
  }

  /** A blocked thread sleeps on a semaphore, is the idle thread, or is not made yet; a dead one has exited. */
  ghost predicate LifeAt(st: State, t: Tid, made: bool, exits: nat) {
    && (made ==> t in st.status && t != st.idle)
    && (Is(st, t, Blocked) ==> t == st.idle || (t in st.pc && st.pc[t].Asleep?) || !made)
    && exits == Bit(Is(st, t, Dying))
  }

  /** What thread_block(), thread_exit() and thread_yield() do to the statuses */
  lemma Leaves(st: State, x: Status, next: Tid)
    requires next == (if st.ready == [] then st.idle else st.ready[0])
    ensures Leave(st, x).status == st.status[st.cur := x][next := Running] && Leave(st, x).pc == st.pc && Leave(st, x).idle == st.idle
  {
  }

  lemma LeaveLife(st: State, act: Action, t: Tid, made: bool, exits: nat)
    requires SchedInv(st) && Enabled(st, act) && LifeAt(st, t, made, exits) && (act.Yield? || act.DoExit? || act.IdleBlock?)
    ensures LifeAt(Step(st, act), t, made, exits + Bit(act.DoExit? && st.cur == t))
  {
    NextIsReady(st, st.ready);
    assert ThreadAt(st, st.cur) && ThreadAt(st, st.idle);
    var line := if act.Yield? && st.cur != st.idle then st.(ready := st.ready + [st.cur]) else st;
    Leaves(line, if act.Yield? then Ready else if act.DoExit? then Dying else Blocked,
           if line.ready == [] then st.idle else line.ready[0]);
  }

  lemma DownLife(st: State, s: Sema, after: Pc, t: Tid, made: bool, exits: nat)
    requires SchedInv(st) && LifeAt(st, t, made, exits) && st.cur != st.idle
    ensures LifeAt(SemaDown(st, s, after), t, made, exits)
  {
    if st.semas(s).value == 0 {
      NextIsReady(st, st.ready);
      assert ThreadAt(st, st.cur) && ThreadAt(st, st.idle);
      Leaves(SetPc(SetSem(st, s, SemaState(0, st.semas(s).waiters + [st.cur])), Asleep(s, after)), Blocked,
             if st.ready == [] then st.idle else st.ready[0]);
    }
  }

  lemma UpLife(st: State, s: Sema, t: Tid, made: bool, exits: nat)
    requires WaitersInv(st) && LifeAt(st, t, made, exits)
    ensures LifeAt(SemaUp(st, s), t, made, exits)
  {
    var q := st.semas(s).waiters;
    if q != [] { assert WaiterAt(st, s, q[0]); }
  }

  lemma ContinueLife(st: State, t: Tid, made: bool, exits: nat)
    requires Inv(st) && Here(st) != Run && LifeAt(st, t, made, exits)
    ensures LifeAt(Step(st, Continue), t, made || Here(st) == Creating(t), exits)
  {
    assert ThreadAt(st, st.cur) && CreatorAt(st, st.cur, st.cur);
    match Here(st)
    case Down(s, after) => DownLife(st, s, after, t, made, exits);
    case Asleep(s, after) => DownLife(st, s, after, t, made, exits);
    case ReleaseUp(l, _) => UpLife(st, LockSema(l), t, made, exits);
    case SignalUp(s, _) => UpLife(st, s, t, made, exits);
    case _ =>
  }

  lemma LifeGoesOn(st: State, act: Action, t: Tid, made: bool, exits: nat)
    requires Inv(st) && Enabled(st, act) && LifeAt(st, t, made, exits)
    ensures LifeAt(Step(st, act), t, made || (act.Continue? && Here(st) == Creating(t)), exits + Bit(act.DoExit? && st.cur == t))
  {
    assert ThreadAt(st, st.cur);
    match act
    case DoDown(s) => DownLife(st, s, Run, t, made, exits);
    case DoAcquire(l) => DownLife(st, LockSema(l), SetHolder(l), t, made, exits);
    case DoUp(s) => UpLife(st, s, t, made, exits);
    case InterruptUp(s) => UpLife(st, s, t, made, exits);
    case Continue => ContinueLife(st, t, made, exits);
    case Yield => LeaveLife(st, act, t, made, exits);
    case DoExit => LeaveLife(st, act, t, made, exits);
    case IdleBlock => LeaveLife(st, act, t, made, exits);
    case _ =>
  }

  lemma {:induction false} LifeOfRun(e: Execution, t: Tid)
    requires Legal(e)
    ensures LifeAt(Last(e), t, Made(e, t), Exits(e, t))
  {
    match e
    case Boot(_, _) =>
    case Then(p, act) =>
      EveryRunKeepsInv(p);
      LifeOfRun(p, t);
      LifeGoesOn(Last(p), act, t, Made(p, t), Exits(p, t));
  }

  /** A thread that is not complete stays as it is until its creator completes it. */
  lemma UnbornStays(st: State, act: Action, t: Tid)
    requires Inv(st) && Enabled(st, act) && Unborn(st, t) && !(act.Continue? && Here(st) == Creating(t))
    ensures Unborn(Step(st, act), t)
  {
    assert ThreadAt(st, t) && ThreadAt(st, st.cur);
    NextIsReady(st, st.ready);
    if act.Continue? {
      UnbornContinues(st, t);
    } else if Upped(st, act).Some? {
      assert WaiterAt(st, Upped(st, act).value, t);
    }
  }

  lemma UnbornContinues(st: State, t: Tid)
    requires Inv(st) && Here(st) != Run && Unborn(st, t) && Here(st) != Creating(t)
    ensures Unborn(Step(st, Continue), t)
  {
    assert ThreadAt(st, t) && ThreadAt(st, st.cur);
    NextIsReady(st, st.ready);
    if Upped(st, Continue).Some? { assert WaiterAt(st, Upped(st, Continue).value, t); }
  }

  /** Threads come by creation only, and none ever goes off the list of all threads. */
  lemma AllThreads(st: State, act: Action)
    requires Inv(st) && Enabled(st, act)
    ensures Step(st, act).idle == st.idle && Step(st, act).status.Keys == st.status.Keys + if act.DoCreate? then {act.t} else {}
  {
    assert ThreadAt(st, st.cur);
    NextIsReady(st, st.ready);
    if Here(st).Creating? { assert CreatorAt(st, st.cur, st.cur); }
    if Upped(st, act).Some? { UpAsserts(st, act); }
  }

  ghost predicate UnbornAt(st: State, t: Tid, made: bool) { t in st.status && t != st.idle && !made ==> Unborn(st, t) }

  lemma UnbornStep(st: State, act: Action, t: Tid, made: bool)
    requires Inv(st) && Enabled(st, act) && UnbornAt(st, t, made)
    ensures UnbornAt(Step(st, act), t, made || (act.Continue? && Here(st) == Creating(t)))
  {
    AllThreads(st, act);
    if t in st.status && t != st.idle && !made && !(act.Continue? && Here(st) == Creating(t)) { UnbornStays(st, act, t); }
    if act.DoCreate? { assert ThreadAt(st, st.cur) && ThreadAt(st, act.t); }
  }

  lemma {:induction false} UnmadeIsUnborn(e: Execution, t: Tid)
    requires Legal(e)
    ensures UnbornAt(Last(e), t, Made(e, t))
  {
    match e
    case Boot(_, _) =>
    case Then(p, act) =>
      EveryRunKeepsInv(p);
      UnmadeIsUnborn(p, t);
      UnbornStep(Last(p), act, t, Made(p, t));
  }

  /** A thread in the middle of a call other than sema_down() can go on. */
  lemma CanGoOn(e: Execution, t: Tid)
    requires Legal(e) && t in Last(e).pc && Last(e).pc[t] != Run && !Last(e).pc[t].Asleep?
    ensures t == Last(e).cur || t in Last(e).ready
  {
    EveryRunKeepsInv(e);
    assert ThreadAt(Last(e), t);
    UnmadeIsUnborn(e, t);
    LifeOfRun(e, t);
  }

  /** A thread is blocked only on the list of a semaphore, as the idle thread, or before its creation is complete. */
  lemma BlockedOnlyWaiting(e: Execution, t: Tid)
    requires Legal(e) && Is(Last(e), t, Blocked) && t != Last(e).idle && Made(e, t)
    ensures var st := Last(e); t in st.pc && st.pc[t].Asleep? && t in st.semas(st.pc[t].sema).waiters
  {
    LifeOfRun(e, t);
    EveryRunKeepsInv(e);
    assert WaiterAt(Last(e), Last(e).pc[t].sema, t);
  }

  /** thread_exit() is the end: a thread calls it at most once, its page is then freed, once, unless it is the initial
      thread, and it never runs again, is not ready, and is on no list. */
  lemma ExitIsTheEnd(e: Execution, t: Tid)
    requires Legal(e)
    ensures Exits(e, t) <= 1
    ensures multiset(Last(e).freed)[t] == Bit(Exits(e, t) > 0 && t != Last(e).initial)
    ensures Exits(e, t) > 0 ==> t != Last(e).cur && t !in Last(e).ready
    ensures Exits(e, t) > 0 ==> forall s: Sema :: t !in Last(e).semas(s).waiters
    ensures Exits(e, t) > 0 ==> forall c: Cond :: t !in Last(e).conds(c)
  {
    var st := Last(e);
    LifeOfRun(e, t);
    ExitedThreadsAreFreedOnce(e, t);
    EveryRunKeepsInv(e);
    assert ThreadAt(st, t);
    if Exits(e, t) > 0 {
      forall s: Sema ensures t !in st.semas(s).waiters { assert WaiterAt(st, s, t); }
      forall c: Cond ensures t !in st.conds(c) { assert TokenAt(st, t, c); }
    }
  }

  // ----- who is woken, and who runs

  /** The running thread goes to sleep on `s` in the step. */
  predicate FallsAsleep(st: State, act: Action, s: Sema) { Dispatches(st, act) && Tested(st, act) == Some(s) }

  /** Who is put on the ready list by an up of `s` */
  function Awakened(st: State, act: Action, s: Sema): seq<Tid> {
    if Upped(st, act) == Some(s) then Step(st, act).ready[|st.ready|..] else []
  }

  /** Those who have gone to sleep on `s`, and those who have been woken, in order */
  function Sleeps(e: Execution, s: Sema): seq<Tid> {
    match e
    case Boot(_, _) => []
    case Then(p, act) => Sleeps(p, s) + if FallsAsleep(Last(p), act, s) then [Last(p).cur] else []
  }

  function Wakes(e: Execution, s: Sema): seq<Tid> {
    match e
    case Boot(_, _) => []
    case Then(p, act) => Wakes(p, s) + Awakened(Last(p), act, s)
  }

  ghost predicate LineMoves(st: State, act: Action, s: Sema) {
    st.semas(s).waiters + (if FallsAsleep(st, act, s) then [st.cur] else []) == Awakened(st, act, s) + Step(st, act).semas(s).waiters
  }

  lemma SemaUpMoves(st: State, s: Sema, r: Sema)
    ensures var st' := SemaUp(st, s); var woken := if st.semas(s).waiters == [] then [] else [st.semas(s).waiters[0]];
      st'.ready == st.ready + woken && st.semas(r).waiters == (if r == s then woken else []) + st'.semas(r).waiters
  {
  }

  lemma UpMovesLine(st: State, act: Action, s: Sema)
    requires Upped(st, act).Some?
    ensures LineMoves(st, act, s)
  {
    var st', r := Step(st, act), Upped(st, act).value;
    SemaUpMoves(st, r, s);
    assert st'.ready == SemaUp(st, r).ready && st'.semas == SemaUp(st, r).semas;
  }

  lemma TestMovesLine(st: State, act: Action, s: Sema)
    requires Tested(st, act).Some?
    ensures LineMoves(st, act, s)
  {
  }

  lemma StepMovesLine(st: State, act: Action, s: Sema)
    requires act.DoWait? ==> st.semas(WaiterSema(st.cur, act.c)).waiters == []
    ensures LineMoves(st, act, s)
  {
    if Upped(st, act).Some? {
      UpMovesLine(st, act, s);
    } else if Tested(st, act).Some? {
      TestMovesLine(st, act, s);
    } else {
      assert Step(st, act).semas(s).waiters == st.semas(s).waiters;
    }
  }

  /** Whoever has slept on a semaphore for longest is woken first. */
  lemma {:induction false} WakesAreFifo(e: Execution, s: Sema)
    requires Legal(e)
    ensures Sleeps(e, s) == Wakes(e, s) + Last(e).semas(s).waiters
  {
    match e
    case Boot(_, _) =>
    case Then(p, act) =>
      EveryRunKeepsInv(p);
      WakesAreFifo(p, s);
      if act.DoWait? { NobodySleepsOnIdleWaiter(Last(p), act.c); }
      StepMovesLine(Last(p), act, s);
      Regroup(Wakes(p, s), Last(p).semas(s).waiters, if FallsAsleep(Last(p), act, s) then [Last(p).cur] else [],
              Awakened(Last(p), act, s), Last(e).semas(s).waiters);
  }

  /** Those who can run, in order, when schedule() is called: a thread that yields is the last. */
  function Line(st: State, act: Action): seq<Tid> {
    st.ready + if act.Yield? && st.cur != st.idle then [st.cur] else []
  }

  /** schedule() takes the first in line, and the idle thread only if there is none; nothing else changes who runs. */
  lemma RunsNext(st: State, act: Action)
    ensures var st', line := Step(st, act), Line(st, act);
      if !Dispatches(st, act) then st'.cur == st.cur && st.ready <= st'.ready
      else if line == [] then st'.cur == st.idle && st'.ready == []
      else st'.cur == line[0] && st'.ready == line[1..]
  {
    if act.Continue? { GoesOnOrLeaves(st); }
  }

  lemma GoesOnOrLeaves(st: State)
    ensures var st' := Step(st, Continue);
      if !Dispatches(st, Continue) then st'.cur == st.cur && st.ready <= st'.ready
      else if st.ready == [] then st'.cur == st.idle && st'.ready == []
      else st'.cur == st.ready[0] && st'.ready == st.ready[1..]
  {
  }
}

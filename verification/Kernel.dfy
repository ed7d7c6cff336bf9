/** The uniprocessor kernel of thread.c and synch.c as a labelled transition system.

    Every section of code that runs with interrupts off is one step, and a thread that is
    between two such sections carries a program counter saying what it does next.  A step is
    taken by the running thread, by an interrupt handler, or is the timer's preemption, which
    may fall between any two steps while interrupts are on. */
module Kernel {
  type Tid = nat
  type LockId = nat

  /** A condition variable; each one belongs to a single lock. */
  datatype Cond = Cond(lock: LockId, index: nat)

  /** A semaphore of a client, the one inside a lock, or the one on the stack of a waiter. */
  datatype Sema =
    | Plain(id: nat, init: nat)
    | LockSema(lock: LockId)
    | WaiterSema(tid: Tid, cond: Cond)

  function InitialValue(s: Sema): nat {
    match s
    case Plain(_, n) => n
    case LockSema(_) => 1
    case WaiterSema(_, _) => 0
  }

  datatype SemaState = SemaState(value: nat, waiters: seq<Tid>)

  datatype Status = Running | Ready | Blocked | Dying

  /** Where a thread will resume.  `Asleep` is the point just after thread_block() in the loop of
      sema_down(); all other points have interrupts on.  `after` is what follows the operation. */
  datatype Pc =
    | Run
    | Down(sema: Sema, after: Pc)
    | Asleep(sema: Sema, after: Pc)
    | SetHolder(lock: LockId)
    | ReleaseUp(lock: LockId, after: Pc)
    | WaitRelease(cond: Cond)
    | SignalUp(sema: Sema, after: Pc)
    | Broadcasting(cond: Cond)
    | Creating(child: Tid)

  /** `freed` logs the calls of palloc_free_page() made by thread_schedule_tail(). */
  datatype State = State(
    cur: Tid, idle: Tid, initial: Tid,
    status: map<Tid, Status>, pc: map<Tid, Pc>, ready: seq<Tid>,
    semas: Sema -> SemaState, holders: map<LockId, Tid>, conds: Cond -> seq<Tid>,
    freed: seq<Tid>)

  datatype Action =
    | DoDown(s: Sema) | DoTryDown(s: Sema) | DoUp(s: Sema)
    | DoAcquire(l: LockId) | DoTryAcquire(l: LockId) | DoRelease(l: LockId)
    | DoWait(c: Cond) | DoSignal(c: Cond) | DoBroadcast(c: Cond)
    | Continue
    | DoCreate(t: Tid) | CreateFails
    | Yield | DoExit | IdleBlock
    | InterruptUp(s: Sema) | InterruptTryDown(s: Sema)

  // ----- reading the state

  predicate Holds(st: State, t: Tid, l: LockId) { l in st.holders && st.holders[l] == t }

  predicate Is(st: State, t: Tid, x: Status) { t in st.status && st.status[t] == x }

  predicate At(st: State, t: Tid, p: Pc) { t in st.pc && st.pc[t] == p }

  /** Where the running thread is. */
  function Here(st: State): Pc { if st.cur in st.pc then st.pc[st.cur] else Run }

  predicate InterruptsOn(st: State) { !Here(st).Asleep? }

  // ----- the atomic sections

  function SetPc(st: State, p: Pc): State { st.(pc := st.pc[st.cur := p]) }

  function SetSem(st: State, s: Sema, x: SemaState): State {
    st.(semas := r => if r == s then x else st.semas(r))
  }

  function SetQueue(st: State, c: Cond, q: seq<Tid>): State {
    st.(conds := d => if d == c then q else st.conds(d))
  }

  /** thread_unblock() */
  function Unblock(st: State, t: Tid): State {
    st.(ready := st.ready + [t], status := st.status[t := Ready])
  }

  /** schedule() with next_thread_to_run() and thread_schedule_tail() */
  function Schedule(st: State): State {
    var next := if st.ready == [] then st.idle else st.ready[0];
    st.(cur := next,
        ready := if st.ready == [] then [] else st.ready[1..],
        status := st.status[next := Running],
        freed := if st.cur != next && Is(st, st.cur, Dying) && st.cur != st.initial
                 then st.freed + [st.cur] else st.freed)
  }

  /** The running thread leaves the processor with the given status; thread_block(), the tail of
      thread_exit(), and thread_yield() once the thread is on the ready list. */
  function Leave(st: State, x: Status): State {
    Schedule(st.(status := st.status[st.cur := x]))
  }

  /** sema_up() */
  function SemaUp(st: State, s: Sema): State {
    var q := st.semas(s).waiters;
    if q == [] then SetSem(st, s, SemaState(st.semas(s).value + 1, q))
    else SetSem(Unblock(st, q[0]), s, SemaState(st.semas(s).value + 1, q[1..]))
  }

  /** One turn of the loop in sema_down(): sleep if the value is zero, else take a unit and go on. */
  function SemaDown(st: State, s: Sema, after: Pc): State {
    if st.semas(s).value == 0 then
      Leave(SetPc(SetSem(st, s, SemaState(0, st.semas(s).waiters + [st.cur])), Asleep(s, after)), Blocked)
    else
      SetPc(SetSem(st, s, SemaState(st.semas(s).value - 1, st.semas(s).waiters)), after)
  }

  /** sema_try_down(); `after` is where the caller goes if it succeeds. */
  function SemaTryDown(st: State, s: Sema, after: Pc): State {
    if st.semas(s).value == 0 then st else SemaDown(st, s, after)
  }

  function Reacquire(l: LockId): Pc { Down(LockSema(l), SetHolder(l)) }

  /** Pops the earliest waiter of `c`, leaving the up of its semaphore for the next step. */
  function PopWaiter(st: State, c: Cond, after: Pc): State {
    var q := st.conds(c);
    if q == [] then SetPc(st, Run)
    else SetPc(SetQueue(st, c, q[1..]), SignalUp(WaiterSema(q[0], c), after))
  }

  function ContinueStep(st: State): State {
    match Here(st)
    case Run => st
    case Down(s, after) => SemaDown(st, s, after)
    case Asleep(s, after) => SemaDown(st, s, after)
    case SetHolder(l) => SetPc(st.(holders := st.holders[l := st.cur]), Run)
    case ReleaseUp(l, after) => SetPc(SemaUp(st, LockSema(l)), after)
    case WaitRelease(c) =>
      SetPc(st.(holders := st.holders - {c.lock}),
            ReleaseUp(c.lock, Down(WaiterSema(st.cur, c), Reacquire(c.lock))))
    case SignalUp(s, after) => SetPc(SemaUp(st, s), after)
    case Broadcasting(c) => PopWaiter(st, c, Broadcasting(c))
    case Creating(t) => SetPc(Unblock(st, t), Run)
  }

  function Step(st: State, act: Action): State {
    match act
    case DoDown(s) => SemaDown(st, s, Run)
    case DoTryDown(s) => SemaTryDown(st, s, Run)
    case DoUp(s) => SemaUp(st, s)
    case DoAcquire(l) => SemaDown(st, LockSema(l), SetHolder(l))
    case DoTryAcquire(l) => SemaTryDown(st, LockSema(l), SetHolder(l))
    case DoRelease(l) => SetPc(st.(holders := st.holders - {l}), ReleaseUp(l, Run))
    case DoWait(c) =>
      SetPc(SetQueue(SetSem(st, WaiterSema(st.cur, c), SemaState(0, [])), c, st.conds(c) + [st.cur]),
            WaitRelease(c))
    case DoSignal(c) => PopWaiter(st, c, Run)
    case DoBroadcast(c) => if st.conds(c) == [] then st else SetPc(st, Broadcasting(c))
    case Continue => ContinueStep(st)
    case DoCreate(t) =>
      SetPc(st.(status := st.status[t := Blocked], pc := st.pc[t := Run]), Creating(t))
    case CreateFails => SetPc(st, Run)
    case Yield =>
      Leave(if st.cur == st.idle then st else st.(ready := st.ready + [st.cur]), Ready)
    case DoExit => Leave(st, Dying)
    case IdleBlock => Leave(st, Blocked)
    case InterruptUp(s) => SemaUp(st, s)
    case InterruptTryDown(s) => SemaTryDown(st, s, Here(st))
  }

  /** What a caller must observe: only the idle thread runs idle(), operations on a held lock are
      for its holder, and interrupt handlers run only while interrupts are on. */
  predicate Enabled(st: State, act: Action) {
    var mine := Here(st) == Run && st.cur != st.idle;
    match act
    case DoDown(s) => mine && s.Plain?
    case DoTryDown(s) => mine && s.Plain?
    case DoUp(s) => mine && s.Plain?
    case DoAcquire(l) => mine && !Holds(st, st.cur, l)
    case DoTryAcquire(l) => mine && !Holds(st, st.cur, l)
    case DoRelease(l) => mine && Holds(st, st.cur, l)
    case DoWait(c) => mine && Holds(st, st.cur, c.lock)
    case DoSignal(c) => mine && Holds(st, st.cur, c.lock)
    case DoBroadcast(c) => mine && (st.conds(c) == [] || Holds(st, st.cur, c.lock))
    case Continue => Here(st) != Run
    case DoCreate(t) => mine && t !in st.status
    case CreateFails => Here(st).Creating?
    case Yield => InterruptsOn(st)
    case DoExit => mine
    case IdleBlock => st.cur == st.idle
    case InterruptUp(s) => InterruptsOn(st) && s.Plain?
    case InterruptTryDown(s) => InterruptsOn(st) && s.Plain?
  }

  // ----- runs

  /** A run starts when thread_start() returns: the initial thread runs and the idle thread has
      blocked itself for the first time. */
  datatype Execution = Boot(initial: Tid, idle: Tid) | Then(prefix: Execution, act: Action)

  function Last(e: Execution): State {
    match e
    case Boot(initial, idle) =>
      State(initial, idle, initial, map[initial := Running, idle := Blocked],
            map[initial := Run, idle := Run], [],
            s => SemaState(InitialValue(s), []), map[], c => [], [])
    case Then(p, act) => Step(Last(p), act)
  }

  predicate Legal(e: Execution) {
    match e
    case Boot(initial, idle) => initial != idle
    case Then(p, act) => Legal(p) && Enabled(Last(p), act)
  }

  // ----- the invariant

  predicate NoDup<T(==)>(q: seq<T>) { forall i, j :: 0 <= i < j < |q| ==> q[i] != q[j] }

  // Each part of the invariant is a fact about one thread, semaphore, lock or condition, and holds
  // of all of them.

  /** The status of a thread, whether it runs, and whether it is on the ready list, agree. */
  predicate ThreadAt(st: State, t: Tid) {
    && (t in st.status <==> t in st.pc)
    && (Is(st, t, Running) <==> t == st.cur)
    && (t in st.ready <==> Is(st, t, Ready) && t != st.idle)
    && (Is(st, t, Dying) && t in st.pc ==> st.pc[t] == Run)
  }

  ghost predicate SchedInv(st: State) {
    && st.idle in st.status && st.initial in st.status && st.idle != st.initial
    && st.status[st.idle] != Dying && At(st, st.idle, Run)
    && NoDup(st.ready)
    && forall t {:trigger ThreadAt(st, t)} :: ThreadAt(st, t)
  }

  predicate SleepsOn(st: State, t: Tid, s: Sema) {
    t in st.pc && st.pc[t].Asleep? && st.pc[t].sema == s
  }

  /** A blocked sleeper is on the list of the semaphore it sleeps on, and on no other. */
  predicate WaiterAt(st: State, s: Sema, t: Tid) {
    t in st.semas(s).waiters <==> Is(st, t, Blocked) && SleepsOn(st, t, s)
  }

  predicate LineAt(st: State, s: Sema) { NoDup(st.semas(s).waiters) }

  ghost predicate WaitersInv(st: State) {
    && (forall s, t {:trigger WaiterAt(st, s, t)} :: WaiterAt(st, s, t))
    && (forall s {:trigger LineAt(st, s)} :: LineAt(st, s))
  }

  /** Made by init_thread() and not yet unblocked by its creator. */
  predicate Unborn(st: State, u: Tid) { Is(st, u, Blocked) && At(st, u, Run) && u != st.idle }

  /** A thread under construction has one creator. */
  predicate CreatorAt(st: State, t: Tid, u: Tid) {
    t in st.pc && st.pc[t].Creating? ==>
      Unborn(st, st.pc[t].child) && (u in st.pc && st.pc[u] == st.pc[t] ==> u == t)
  }

  ghost predicate LifeInv(st: State) {
    forall t, u {:trigger CreatorAt(st, t, u)} :: CreatorAt(st, t, u)
  }

  /** The threads that have been woken from `s` and have not yet tested its value again. */
  function Woken(st: State, s: Sema): set<Tid> {
    set t | t in st.pc && SleepsOn(st, t, s) && t !in st.semas(s).waiters
  }

  predicate WakeAt(st: State, s: Sema) {
    st.semas(s).waiters != [] ==> st.semas(s).value <= |Woken(st, s)|
  }

  ghost predicate WakeupInv(st: State) {
    forall s {:trigger WakeAt(st, s)} :: WakeAt(st, s)
  }

  /** Between a completed down of the lock's semaphore and the matching up. */
  predicate Owns(st: State, t: Tid, l: LockId) {
    && t in st.pc
    && (|| st.pc[t] == SetHolder(l)
        || (st.pc[t].ReleaseUp? && st.pc[t].lock == l)
        || (l in st.holders && st.holders[l] == t))
  }

  function Owners(st: State, l: LockId): set<Tid> { set t | t in st.pc && Owns(st, t, l) }

  predicate OwnerAt(st: State, l: LockId, t: Tid, u: Tid) {
    Owns(st, t, l) ==> st.semas(LockSema(l)).value == 0 && (Owns(st, u, l) ==> t == u)
  }

  ghost predicate UnitAt(st: State, l: LockId) {
    && (l in st.holders ==> st.holders[l] in st.pc)
    && st.semas(LockSema(l)).value <= 1
    && (st.semas(LockSema(l)).value == 0 ==> exists t :: Owns(st, t, l))
  }

  ghost predicate LocksInv(st: State) {
    && (forall l, t, u {:trigger OwnerAt(st, l, t, u)} :: OwnerAt(st, l, t, u))
    && (forall l {:trigger UnitAt(st, l)} :: UnitAt(st, l))
  }

  predicate WfDown(st: State, t: Tid, s: Sema, after: Pc) {
    match s
    case Plain(_, _) => false
    case LockSema(l) => after == SetHolder(l) && !Holds(st, t, l)
    case WaiterSema(u, c) => u == t && after == Reacquire(c.lock) && !Holds(st, t, c.lock)
  }

  /** A program counter goes with the locks its thread holds and with what it does next. */
  predicate WfPc(st: State, t: Tid) {
    t in st.pc ==>
      match st.pc[t]
      case Run => true
      case Down(s, after) => WfDown(st, t, s, after)
      case Asleep(s, after) => if s.Plain? then after == Run else WfDown(st, t, s, after)
      case SetHolder(l) => !Holds(st, t, l)
      case ReleaseUp(l, after) =>
        && !Holds(st, t, l)
        && (after == Run || (after.Down? && after.sema.WaiterSema? && after.sema.cond.lock == l
                             && WfDown(st, t, after.sema, after.after)))
      case WaitRelease(c) => Holds(st, t, c.lock)
      case SignalUp(s, after) =>
        && s.WaiterSema? && (after == Run || after == Broadcasting(s.cond))
        && Holds(st, t, s.cond.lock)
      case Broadcasting(c) => Holds(st, t, c.lock)
      case Creating(_) => true
  }

  /** `t` is inside cond_wait(c) and has not yet got its signal. */
  predicate Awaiting(st: State, t: Tid, c: Cond) {
    && t in st.pc
    && match st.pc[t]
       case WaitRelease(c') => c' == c
       case ReleaseUp(_, after) => after.Down? && after.sema == WaiterSema(t, c)
       case Down(s, _) => s == WaiterSema(t, c)
       case Asleep(s, _) => s == WaiterSema(t, c)
       case _ => false
  }

  /** The holder of the lock has taken `t` off the list of `c` and is about to up its semaphore. */
  predicate SignalPending(st: State, t: Tid, c: Cond) {
    && c.lock in st.holders && st.holders[c.lock] in st.pc
    && st.pc[st.holders[c.lock]].SignalUp?
    && st.pc[st.holders[c.lock]].sema == WaiterSema(t, c)
  }

  function Bit(b: bool): nat { if b then 1 else 0 }

  /** A waiter has exactly one of: its place on the list, a signal on its way, a signal received. */
  predicate TokenAt(st: State, t: Tid, c: Cond) {
    Bit(t in st.conds(c)) + Bit(SignalPending(st, t, c)) + st.semas(WaiterSema(t, c)).value
    == Bit(Awaiting(st, t, c))
  }

  predicate ListAt(st: State, c: Cond) { NoDup(st.conds(c)) }

  ghost predicate CondsInv(st: State) {
    && (forall t {:trigger WfPc(st, t)} :: WfPc(st, t))
    && (forall c {:trigger ListAt(st, c)} :: ListAt(st, c))
    && (forall t, c {:trigger TokenAt(st, t, c)} :: TokenAt(st, t, c))
  }

  ghost predicate Inv(st: State) {
    SchedInv(st) && WaitersInv(st) && LifeInv(st) && WakeupInv(st) && LocksInv(st) && CondsInv(st)
  }
}

/** What a thread gets from a call into the kernel, from the call until it runs its own code again, whatever the other
    threads and the interrupt handlers do meanwhile. */
module KernelCalls {
  import opened Common
  import opened Kernel
  import opened KernelSafety
  import opened KernelTheorems
  import opened KernelLives

  // ----- calls and what has been done in them

  predicate IsCall(act: Action) {
    !act.Continue? && !act.CreateFails? && !act.Yield? && !act.IdleBlock? && !act.InterruptUp? && !act.InterruptTryDown?
  }

  predicate CallsIn(st: State, t: Tid, act: Action) { st.cur == t && IsCall(act) }

  /** The thread goes on with its call. */
  predicate GoesOn(st: State, t: Tid, act: Action) { st.cur == t && (act.Continue? || act.CreateFails?) }

  /** The last call of a thread: the run before it, and what was called */
  datatype Call = Call(before: Execution, act: Action)

  function LastCall(e: Execution, t: Tid): Option<Call> {
    match e
    case Boot(_, _) => None
    case Then(p, act) => if CallsIn(Last(p), t, act) then Some(Call(p, act)) else LastCall(p, t)
  }

  /** How many of its own steps the thread has done since */
  function OwnSteps(e: Execution, t: Tid): nat {
    match e
    case Boot(_, _) => 0
    case Then(p, act) => if CallsIn(Last(p), t, act) then 0 else OwnSteps(p, t) + Bit(GoesOn(Last(p), t, act))
  }

  /** The units of `s` that it has taken and given since the beginning of the call */
  function Took(e: Execution, t: Tid, s: Sema): nat {
    match e
    case Boot(_, _) => 0
    case Then(p, act) =>
      if CallsIn(Last(p), t, act) then Bit(Downed(Last(p), act, s))
      else Took(p, t, s) + Bit(GoesOn(Last(p), t, act) && Downed(Last(p), act, s))
  }

  function Gave(e: Execution, t: Tid, s: Sema): nat {
    match e
    case Boot(_, _) => 0
    case Then(p, act) =>
      if CallsIn(Last(p), t, act) then Bit(Upped(Last(p), act) == Some(s))
      else Gave(p, t, s) + Bit(GoesOn(Last(p), t, act) && Upped(Last(p), act) == Some(s))
  }

  // ----- what the others cannot do

  /** The program counter of a thread is its own, nobody else takes or gives up its locks, and the list of a condition is
      only changed by the holder of the lock. */
  ghost predicate LeftAlone(st: State, st': State, t: Tid) {
    && t in st.pc && t in st'.pc && st'.pc[t] == st.pc[t]
    && (forall l: LockId {:trigger Holds(st', t, l)} :: Holds(st', t, l) == Holds(st, t, l))
    && (forall c: Cond {:trigger st'.conds(c)} :: Holds(st, t, c.lock) ==> st'.conds(c) == st.conds(c))
  }

  lemma OtherContinues(st: State, t: Tid)
    requires Inv(st) && t in st.pc && st.cur != t && Here(st) != Run
    ensures LeftAlone(st, Step(st, Continue), t)
  {
    assert ThreadAt(st, st.cur) && WfPc(st, st.cur);
    if Here(st).SetHolder? { JustTaken(st, Here(st).lock); }
  }

  lemma OtherCalls(st: State, act: Action, t: Tid)
    requires Inv(st) && Enabled(st, act) && t in st.pc && st.cur != t && !act.Continue?
    ensures LeftAlone(st, Step(st, act), t)
  {
    assert ThreadAt(st, st.cur);
    if act.DoCreate? { assert ThreadAt(st, act.t); }
  }

  lemma OthersLeaveAlone(st: State, act: Action, t: Tid)
    requires Inv(st) && Enabled(st, act) && t in st.pc && !CallsIn(st, t, act) && !GoesOn(st, t, act)
    ensures LeftAlone(st, Step(st, act), t)
  {
    assert ThreadAt(st, st.cur);
    if st.cur == t {
      assert Step(st, act).pc == st.pc;
    } else if act.Continue? {
      OtherContinues(st, t);
    } else {
      OtherCalls(st, act, t);
    }
  }

  // ----- a step of the thread itself

  /** One test of the value in sema_down() */
  lemma Tests(st: State, s: Sema, after: Pc)
    requires st.cur in st.pc && (Here(st) == Down(s, after) || Here(st) == Asleep(s, after))
    ensures var st' := Step(st, Continue);
      && At(st', st.cur, if Downed(st, Continue, s) then after else Asleep(s, after))
      && st'.holders == st.holders && st'.conds == st.conds
      && (forall r: Sema {:trigger Downed(st, Continue, r)} :: r != s ==> !Downed(st, Continue, r)) && Upped(st, Continue).None?
  {
  }

  lemma SetsHolder(st: State, l: LockId)
    requires st.cur in st.pc && Here(st) == SetHolder(l)
    ensures var st' := Step(st, Continue);
      && At(st', st.cur, Run) && Holds(st', st.cur, l) && Tested(st, Continue).None? && Upped(st, Continue).None?
  {
  }

  // ----- sema_down() and lock_acquire()

  /** The thread has not got its unit and sleeps, or it is back and has taken exactly one. */
  ghost predicate DownAt(st: State, t: Tid, s: Sema, taken: nat) {
    (taken == 0 && At(st, t, Asleep(s, Run))) || (taken == 1 && At(st, t, Run))
  }

  lemma {:induction false} DownTakesOne(e: Execution, t: Tid, before: Execution, s: Sema)
    requires Legal(e) && LastCall(e, t) == Some(Call(before, DoDown(s)))
    ensures DownAt(Last(e), t, s, Took(e, t, s))
  {
    var st := Last(e.prefix);
    EveryRunKeepsInv(e.prefix);
    if !CallsIn(st, t, e.act) {
      DownTakesOne(e.prefix, t, before, s);
      DownStep(st, e.act, t, s, Took(e.prefix, t, s));
    }
  }

  lemma DownStep(st: State, act: Action, t: Tid, s: Sema, taken: nat)
    requires Inv(st) && Enabled(st, act) && !CallsIn(st, t, act) && DownAt(st, t, s, taken)
    ensures DownAt(Step(st, act), t, s, taken + Bit(GoesOn(st, t, act) && Downed(st, act, s)))
  {
    if GoesOn(st, t, act) { Tests(st, s, Run); } else { OthersLeaveAlone(st, act, t); }
  }

  /** The thread sleeps, or has taken the unit, and when it is back it holds the lock. */
  ghost predicate AcquireAt(st: State, t: Tid, l: LockId, taken: nat) {
    || (taken == 0 && At(st, t, Asleep(LockSema(l), SetHolder(l))))
    || (taken == 1 && (At(st, t, SetHolder(l)) || (At(st, t, Run) && Holds(st, t, l))))
  }

  lemma {:induction false} AcquireTakes(e: Execution, t: Tid, before: Execution, l: LockId)
    requires Legal(e) && LastCall(e, t) == Some(Call(before, DoAcquire(l)))
    ensures AcquireAt(Last(e), t, l, Took(e, t, LockSema(l)))
  {
    var st := Last(e.prefix);
    EveryRunKeepsInv(e.prefix);
    if !CallsIn(st, t, e.act) {
      AcquireTakes(e.prefix, t, before, l);
      AcquireStep(st, e.act, t, l, Took(e.prefix, t, LockSema(l)));
    }
  }

  lemma AcquireStep(st: State, act: Action, t: Tid, l: LockId, taken: nat)
    requires Inv(st) && Enabled(st, act) && !CallsIn(st, t, act) && AcquireAt(st, t, l, taken)
    ensures AcquireAt(Step(st, act), t, l, taken + Bit(GoesOn(st, t, act) && Downed(st, act, LockSema(l))))
  {
    if GoesOn(st, t, act) {
      if taken == 0 { Tests(st, LockSema(l), SetHolder(l)); } else { SetsHolder(st, l); }
    } else {
      OthersLeaveAlone(st, act, t);
    }
  }

  /** lock_try_acquire() gets the lock exactly if the unit was there. */
  ghost predicate TryAt(st: State, t: Tid, l: LockId, there: bool, taken: nat) {
    && taken == Bit(there)
    && (|| (there && At(st, t, SetHolder(l)))
        || (At(st, t, Run) && (there <==> Holds(st, t, l))))
  }

  lemma {:induction false} TryAcquireTakes(e: Execution, t: Tid, before: Execution, l: LockId)
    requires Legal(e) && LastCall(e, t) == Some(Call(before, DoTryAcquire(l)))
    ensures TryAt(Last(e), t, l, Last(before).semas(LockSema(l)).value > 0, Took(e, t, LockSema(l)))
  {
    var st := Last(e.prefix);
    EveryRunKeepsInv(e.prefix);
    if CallsIn(st, t, e.act) {
      assert ThreadAt(st, st.cur);
    } else {
      TryAcquireTakes(e.prefix, t, before, l);
      TryStep(st, e.act, t, l, Last(before).semas(LockSema(l)).value > 0, Took(e.prefix, t, LockSema(l)));
    }
  }

  lemma TryStep(st: State, act: Action, t: Tid, l: LockId, there: bool, taken: nat)
    requires Inv(st) && Enabled(st, act) && !CallsIn(st, t, act) && TryAt(st, t, l, there, taken)
    ensures TryAt(Step(st, act), t, l, there, taken + Bit(GoesOn(st, t, act) && Downed(st, act, LockSema(l))))
  {
    if GoesOn(st, t, act) { SetsHolder(st, l); } else { OthersLeaveAlone(st, act, t); }
  }

  lemma {:induction false} TryDownTakes(e: Execution, t: Tid, before: Execution, s: Sema)
    requires Legal(e) && LastCall(e, t) == Some(Call(before, DoTryDown(s)))
    ensures At(Last(e), t, Run) && Took(e, t, s) == Bit(Last(before).semas(s).value > 0)
  {
    var st := Last(e.prefix);
    EveryRunKeepsInv(e.prefix);
    if CallsIn(st, t, e.act) {
      assert ThreadAt(st, st.cur);
    } else {
      TryDownTakes(e.prefix, t, before, s);
      OthersLeaveAlone(st, e.act, t);
    }
  }

  // ----- lock_release() and cond_wait()

  /** An up at the end of an operation */
  lemma GivesUp(st: State, s: Sema, after: Pc)
    requires st.cur in st.pc && ((s.LockSema? && Here(st) == ReleaseUp(s.lock, after)) || Here(st) == SignalUp(s, after))
    ensures var st' := Step(st, Continue);
      && At(st', st.cur, after) && st'.holders == st.holders && st'.conds == st.conds
      && Tested(st, Continue).None? && Upped(st, Continue) == Some(s)
  {
  }

  /** The lock is given up at once, its unit in one more step of the thread. */
  ghost predicate ReleaseAt(st: State, t: Tid, l: LockId, steps: nat, given: nat) {
    !Holds(st, t, l) && given == steps <= 1 && At(st, t, if given == 0 then ReleaseUp(l, Run) else Run)
  }

  lemma {:induction false} ReleaseGives(e: Execution, t: Tid, before: Execution, l: LockId)
    requires Legal(e) && LastCall(e, t) == Some(Call(before, DoRelease(l)))
    ensures ReleaseAt(Last(e), t, l, OwnSteps(e, t), Gave(e, t, LockSema(l)))
  {
    var st := Last(e.prefix);
    EveryRunKeepsInv(e.prefix);
    if !CallsIn(st, t, e.act) {
      ReleaseGives(e.prefix, t, before, l);
      ReleaseStep(st, e.act, t, l, OwnSteps(e.prefix, t), Gave(e.prefix, t, LockSema(l)));
    }
  }

  lemma ReleaseStep(st: State, act: Action, t: Tid, l: LockId, steps: nat, given: nat)
    requires Inv(st) && Enabled(st, act) && !CallsIn(st, t, act) && ReleaseAt(st, t, l, steps, given)
    ensures ReleaseAt(Step(st, act), t, l, steps + Bit(GoesOn(st, t, act)),
                      given + Bit(GoesOn(st, t, act) && Upped(st, act) == Some(LockSema(l))))
  {
    if GoesOn(st, t, act) { GivesUp(st, LockSema(l), Run); } else { OthersLeaveAlone(st, act, t); }
  }

  /** The thread gives up the lock and its unit, gets one signal, takes the unit again, and holds the lock when it is
      back. */
  ghost predicate WaitAt(st: State, t: Tid, c: Cond, given: nat, signalled: nat, taken: nat) {
    var w, l := WaiterSema(t, c), LockSema(c.lock);
    t in st.pc &&
    match st.pc[t]
    case WaitRelease(d) => d == c && given == signalled == taken == 0
    case ReleaseUp(k, after) => k == c.lock && after == Down(w, Reacquire(k)) && given == signalled == taken == 0
    case Down(s, after) => GettingBack(s, after, w, c.lock, given, signalled, taken)
    case Asleep(s, after) => GettingBack(s, after, w, c.lock, given, signalled, taken)
    case SetHolder(k) => k == c.lock && given == signalled == taken == 1
    case Run => Holds(st, t, c.lock) && given == signalled == taken == 1
    case _ => false
  }

  ghost predicate GettingBack(s: Sema, after: Pc, w: Sema, l: LockId, given: nat, signalled: nat, taken: nat) {
    && given == 1 && taken == 0
    && if s == w then after == Reacquire(l) && signalled == 0 else s == LockSema(l) && after == SetHolder(l) && signalled == 1
  }

  lemma {:induction false} WaitGoes(e: Execution, t: Tid, before: Execution, c: Cond)
    requires Legal(e) && LastCall(e, t) == Some(Call(before, DoWait(c)))
    ensures WaitAt(Last(e), t, c, Gave(e, t, LockSema(c.lock)), Took(e, t, WaiterSema(t, c)), Took(e, t, LockSema(c.lock)))
  {
    var st, l, w := Last(e.prefix), LockSema(c.lock), WaiterSema(t, c);
    EveryRunKeepsInv(e.prefix);
    if !CallsIn(st, t, e.act) {
      WaitGoes(e.prefix, t, before, c);
      WaitStep(st, e.act, t, c, Gave(e.prefix, t, l), Took(e.prefix, t, w), Took(e.prefix, t, l));
    }
  }

  lemma WaitStep(st: State, act: Action, t: Tid, c: Cond, given: nat, signalled: nat, taken: nat)
    requires Inv(st) && Enabled(st, act) && !CallsIn(st, t, act) && WaitAt(st, t, c, given, signalled, taken)
    ensures var w, l, on := WaiterSema(t, c), LockSema(c.lock), GoesOn(st, t, act);
      WaitAt(Step(st, act), t, c, given + Bit(on && Upped(st, act) == Some(l)), signalled + Bit(on && Downed(st, act, w)),
             taken + Bit(on && Downed(st, act, l)))
  {
    if GoesOn(st, t, act) {
      match Here(st)
      case Down(s, after) => Tests(st, s, after);
      case Asleep(s, after) => Tests(st, s, after);
      case ReleaseUp(k, after) => GivesUp(st, LockSema(k), after);
      case SetHolder(k) => SetsHolder(st, k);
      case _ =>
    } else {
      OthersLeaveAlone(st, act, t);
    }
  }

  /** Only the waiter itself takes its signal. */
  lemma {:induction false} OwnSignals(e: Execution, t: Tid, call: Call, c: Cond)
    requires Legal(e) && LastCall(e, t) == Some(call)
    ensures Downs(e, WaiterSema(t, c)) == Downs(call.before, WaiterSema(t, c)) + Took(e, t, WaiterSema(t, c))
  {
    var st := Last(e.prefix);
    EveryRunKeepsInv(e.prefix);
    if !CallsIn(st, t, e.act) {
      OwnSignals(e.prefix, t, call, c);
      if Downed(st, e.act, WaiterSema(t, c)) { SignalTaken(st, e.act, t, c); }
    }
  }

  lemma SignalTaken(st: State, act: Action, t: Tid, c: Cond)
    requires Inv(st) && Enabled(st, act) && Downed(st, act, WaiterSema(t, c))
    ensures GoesOn(st, t, act) && !IsCall(act)
  {
    assert WfPc(st, st.cur) && ThreadAt(st, st.cur);
  }

  /** A thread that is back from cond_wait() holds the lock and has been signalled, once, since it called. */
  lemma WaitReturns(e: Execution, t: Tid, before: Execution, c: Cond)
    requires Legal(e) && LastCall(e, t) == Some(Call(before, DoWait(c))) && At(Last(e), t, Run)
    ensures Holds(Last(e), t, c.lock) && multiset(Signals(e, c))[t] == multiset(Signals(before, c))[t] + 1
  {
    WaitGoes(e, t, before, c);
    CallIsLegal(e, t);
    OwnSignals(e, t, Call(before, DoWait(c)), c);
    NotAwaiting(e, t, c);
    NotAwaiting(before, t, c);
  }

  lemma {:induction false} CallIsLegal(e: Execution, t: Tid)
    requires Legal(e) && LastCall(e, t).Some?
    ensures var call := LastCall(e, t).value; Legal(Then(call.before, call.act)) && Last(call.before).cur == t && IsCall(call.act)
  {
    if !CallsIn(Last(e.prefix), t, e.act) { CallIsLegal(e.prefix, t); }
  }

  lemma NotAwaiting(e: Execution, t: Tid, c: Cond)
    requires Legal(e) && !Awaiting(Last(e), t, c)
    ensures multiset(Signals(e, c))[t] == Downs(e, WaiterSema(t, c))
  {
    OneSignalPerWait(e, t, c);
    EverySignalReachesItsWaiter(e, t, c);
  }

  // ----- cond_signal() and cond_broadcast()

  /** While a thread holds the lock and does not wait, nobody arrives. */
  lemma NobodyArrives(st: State, act: Action, t: Tid, c: Cond)
    requires Enabled(st, act) && !CallsIn(st, t, act) && Holds(st, t, c.lock)
    ensures act != DoWait(c)
  {
  }

  /** The first waiter is off the list at once, and its semaphore is upped in one more step. */
  ghost predicate SignalAt(st: State, t: Tid, c: Cond, q: seq<Tid>, steps: nat, given: Sema -> nat) {
    && Holds(st, t, c.lock)
    && if q == [] then steps == 0 && At(st, t, Run) && st.conds(c) == []
       else
         var w := WaiterSema(q[0], c);
         && given(w) == steps <= 1 && st.conds(c) == q[1..] && At(st, t, if steps == 0 then SignalUp(w, Run) else Run)
  }

  lemma {:induction false} SignalGoes(e: Execution, t: Tid, before: Execution, c: Cond)
    requires Legal(e) && LastCall(e, t) == Some(Call(before, DoSignal(c)))
    ensures SignalAt(Last(e), t, c, Last(before).conds(c), OwnSteps(e, t), s => Gave(e, t, s)) && Arrivals(e, c) == Arrivals(before, c)
  {
    var st := Last(e.prefix);
    EveryRunKeepsInv(e.prefix);
    if !CallsIn(st, t, e.act) {
      SignalGoes(e.prefix, t, before, c);
      SignalStep(st, e.act, t, c, Last(before).conds(c), OwnSteps(e.prefix, t), s => Gave(e.prefix, t, s), s => Gave(e, t, s));
      NobodyArrives(st, e.act, t, c);
    }
  }

  lemma SignalStep(st: State, act: Action, t: Tid, c: Cond, q: seq<Tid>, steps: nat, given: Sema -> nat, given': Sema -> nat)
    requires Inv(st) && Enabled(st, act) && !CallsIn(st, t, act) && SignalAt(st, t, c, q, steps, given)
    requires forall s {:trigger given'(s)} :: given'(s) == given(s) + Bit(GoesOn(st, t, act) && Upped(st, act) == Some(s))
    ensures SignalAt(Step(st, act), t, c, q, steps + Bit(GoesOn(st, t, act)), given')
  {
    if GoesOn(st, t, act) { GivesUp(st, WaiterSema(q[0], c), Run); } else { OthersLeaveAlone(st, act, t); }
  }

  /** A signal goes to the first waiter, if there is one. */
  lemma SignalReturns(e: Execution, t: Tid, before: Execution, c: Cond)
    requires Legal(e) && LastCall(e, t) == Some(Call(before, DoSignal(c))) && At(Last(e), t, Run)
    ensures var q := Last(before).conds(c); var n := if q == [] then 0 else 1;
      && Signals(e, c) == Signals(before, c) + q[..n] && Last(e).conds(c) == q[n..] && OwnSteps(e, t) == n
      && (q != [] ==> Gave(e, t, WaiterSema(q[0], c)) == 1)
  {
    SignalGoes(e, t, before, c);
    CallIsLegal(e, t);
    var q := Last(before).conds(c);
    SignalledSince(e, before, c, q, if q == [] then 0 else 1);
  }

  lemma SignalledSince(e: Execution, before: Execution, c: Cond, q: seq<Tid>, n: nat)
    requires Legal(e) && Legal(before) && Arrivals(e, c) == Arrivals(before, c)
    requires n <= |q| && Last(before).conds(c) == q && Last(e).conds(c) == q[n..]
    ensures Signals(e, c) == Signals(before, c) + q[..n]
  {
    SignalsAreFifo(e, c);
    SignalsAreFifo(before, c);
    Cancel(Signals(e, c), Signals(before, c), q, n);
  }

  lemma Cancel<T>(a: seq<T>, b: seq<T>, q: seq<T>, n: nat)
    requires n <= |q| && a + q[n..] == b + q
    ensures a == b + q[..n]
  {
    assert b + q == (b + q[..n]) + q[n..];
    assert a == (a + q[n..])[..|a|] && b + q[..n] == ((b + q[..n]) + q[n..])[..|b| + n];
  }

  /** All but the waiters left in the list have been taken off it, in two steps of the thread for each. */
  ghost predicate BroadcastAt(st: State, t: Tid, c: Cond, q: seq<Tid>, steps: nat) {
    var k := |q| - |st.conds(c)|;
    && Holds(st, t, c.lock) && 0 <= k && st.conds(c) == q[k..]
    && (|| (At(st, t, Broadcasting(c)) && steps == 2 * k && q != [])
        || (k > 0 && At(st, t, SignalUp(WaiterSema(q[k - 1], c), Broadcasting(c))) && steps == 2 * k - 1)
        || (At(st, t, Run) && k == |q| && steps == if q == [] then 0 else 2 * k + 1))
  }

  lemma {:induction false} BroadcastGoes(e: Execution, t: Tid, before: Execution, c: Cond)
    requires Legal(e) && LastCall(e, t) == Some(Call(before, DoBroadcast(c))) && Holds(Last(before), t, c.lock)
    ensures BroadcastAt(Last(e), t, c, Last(before).conds(c), OwnSteps(e, t)) && Arrivals(e, c) == Arrivals(before, c)
  {
    var st := Last(e.prefix);
    EveryRunKeepsInv(e.prefix);
    if CallsIn(st, t, e.act) {
      BroadcastBegins(st, c);
    } else {
      BroadcastGoes(e.prefix, t, before, c);
      BroadcastStep(st, e.act, t, c, Last(before).conds(c), OwnSteps(e.prefix, t));
      NobodyArrives(st, e.act, t, c);
    }
  }

  lemma BroadcastBegins(st: State, c: Cond)
    requires Inv(st) && Enabled(st, DoBroadcast(c)) && Holds(st, st.cur, c.lock)
    ensures BroadcastAt(Step(st, DoBroadcast(c)), st.cur, c, st.conds(c), 0)
  {
    assert ThreadAt(st, st.cur);
  }

  /** One turn of the loop in cond_broadcast(), as far as taking the waiter off the list */
  lemma Broadcasts(st: State, c: Cond)
    requires st.cur in st.pc && Here(st) == Broadcasting(c)
    ensures var st', q := Step(st, Continue), st.conds(c);
      && st'.holders == st.holders && st'.conds(c) == (if q == [] then [] else q[1..])
      && At(st', st.cur, if q == [] then Run else SignalUp(WaiterSema(q[0], c), Broadcasting(c)))
  {
  }

  lemma BroadcastStep(st: State, act: Action, t: Tid, c: Cond, q: seq<Tid>, steps: nat)
    requires Inv(st) && Enabled(st, act) && !CallsIn(st, t, act) && BroadcastAt(st, t, c, q, steps)
    ensures BroadcastAt(Step(st, act), t, c, q, steps + Bit(GoesOn(st, t, act)))
  {
    var k := |q| - |st.conds(c)|;
    if !GoesOn(st, t, act) {
      OthersLeaveAlone(st, act, t);
    } else if Here(st).SignalUp? {
      GivesUp(st, WaiterSema(q[k - 1], c), Broadcasting(c));
    } else {
      Broadcasts(st, c);
      assert k < |q| ==> q[k..][1..] == q[k + 1..] && q[k..][0] == q[k];
    }
  }

  /** A broadcast signals everyone: after two steps of the thread for each waiter and one more, which it can always do, it
      is back, all that were waiting have been signalled in the order of their arrival, each exactly once, and nobody is
      left. */
  lemma BroadcastReturns(e: Execution, t: Tid, before: Execution, c: Cond)
    requires Legal(e) && LastCall(e, t) == Some(Call(before, DoBroadcast(c)))
    requires Holds(Last(before), t, c.lock) || e == Then(before, DoBroadcast(c))
    ensures var q := Last(before).conds(c);
      && OwnSteps(e, t) <= 2 * |q| + 1 && (At(Last(e), t, Run) <==> OwnSteps(e, t) == if q == [] then 0 else 2 * |q| + 1)
      && (!At(Last(e), t, Run) ==> t == Last(e).cur || t in Last(e).ready)
      && (At(Last(e), t, Run) ==> Last(e).conds(c) == [] && Signals(e, c) == Signals(before, c) + q)
      && (At(Last(e), t, Run) ==> forall w :: w in q ==> Ups(e, WaiterSema(w, c)) == Ups(before, WaiterSema(w, c)) + 1)
  {
    CallIsLegal(e, t);
    if Holds(Last(before), t, c.lock) {
      BroadcastGoes(e, t, before, c);
      if At(Last(e), t, Run) { BroadcastDone(e, t, before, c); } else { CanGoOn(e, t); }
    } else {
      BroadcastAlone(before, c);
    }
  }

  lemma BroadcastDone(e: Execution, t: Tid, before: Execution, c: Cond)
    requires Legal(e) && Legal(Then(before, DoBroadcast(c))) && Last(before).cur == t && Holds(Last(before), t, c.lock)
    requires Arrivals(e, c) == Arrivals(before, c) && Last(e).conds(c) == [] && Holds(Last(e), t, c.lock) && At(Last(e), t, Run)
    ensures var q := Last(before).conds(c);
      Signals(e, c) == Signals(before, c) + q && forall w :: w in q ==> Ups(e, WaiterSema(w, c)) == Ups(before, WaiterSema(w, c)) + 1
  {
    var q := Last(before).conds(c);
    EveryRunKeepsInv(before);
    assert ThreadAt(Last(before), t);
    assert q[|q|..] == [] && q[..|q|] == q;
    SignalledSince(e, before, c, q, |q|);
    AllSignalled(e, t, before, c);
  }

  /** Without the lock nobody may be waiting. */
  lemma BroadcastAlone(before: Execution, c: Cond)
    requires Legal(Then(before, DoBroadcast(c))) && !Holds(Last(before), Last(before).cur, c.lock)
    ensures Last(before).conds(c) == [] && Last(Then(before, DoBroadcast(c))) == Last(before) && At(Last(before), Last(before).cur, Run)
    ensures Signals(Then(before, DoBroadcast(c)), c) == Signals(before, c)
  {
    EveryRunKeepsInv(before);
    assert ThreadAt(Last(before), Last(before).cur);
  }

  lemma AllSignalled(e: Execution, t: Tid, before: Execution, c: Cond)
    requires Legal(e) && Legal(before) && Signals(e, c) == Signals(before, c) + Last(before).conds(c)
    requires Holds(Last(e), t, c.lock) && Holds(Last(before), t, c.lock) && At(Last(e), t, Run) && At(Last(before), t, Run)
    ensures forall w :: w in Last(before).conds(c) ==> Ups(e, WaiterSema(w, c)) == Ups(before, WaiterSema(w, c)) + 1
  {
    EveryRunKeepsInv(before);
    assert ListAt(Last(before), c);
    forall w | w in Last(before).conds(c) ensures Ups(e, WaiterSema(w, c)) == Ups(before, WaiterSema(w, c)) + 1 {
      AllSent(e, t, w, c);
      AllSent(before, t, w, c);
      OnceEach(Last(before).conds(c), w);
    }
  }

  /** The holder of the lock is not about to send a signal. */
  lemma AllSent(e: Execution, t: Tid, w: Tid, c: Cond)
    requires Legal(e) && Holds(Last(e), t, c.lock) && At(Last(e), t, Run)
    ensures multiset(Signals(e, c))[w] == Ups(e, WaiterSema(w, c))
  {
    SignalCounts(e, w, c);
  }

  lemma OnceEach<T>(q: seq<T>, x: T)
    requires NoDup(q) && x in q
    ensures multiset(q)[x] == 1
  {
    var i :| 0 <= i < |q| && q[i] == x;
    assert q == q[..i] + [x] + q[i + 1..];
    assert x !in q[..i] && x !in q[i + 1..];
  }

  // ----- thread_create()

  predicate Failed(e: Execution, t: Tid) {
    match e
    case Boot(_, _) => false
    case Then(p, act) => !CallsIn(Last(p), t, act) && (Failed(p, t) || (act.CreateFails? && Last(p).cur == t))
  }

  ghost predicate CreateAt(st: State, t: Tid, u: Tid, failed: bool, made: bool) {
    At(st, t, Creating(u)) || (At(st, t, Run) && (failed || made))
  }

  lemma CreateStep(st: State, act: Action, t: Tid, u: Tid, failed: bool, made: bool)
    requires Inv(st) && Enabled(st, act) && !CallsIn(st, t, act) && CreateAt(st, t, u, failed, made)
    ensures CreateAt(Step(st, act), t, u, failed || (act.CreateFails? && st.cur == t), made || (act.Continue? && Here(st) == Creating(u)))
  {
    if !GoesOn(st, t, act) { OthersLeaveAlone(st, act, t); }
  }

  /** A thread that is back from thread_create() has made the new thread, unless there was no memory for it. */
  lemma {:induction false} CreateMakes(e: Execution, t: Tid, before: Execution, u: Tid)
    requires Legal(e) && LastCall(e, t) == Some(Call(before, DoCreate(u)))
    ensures At(Last(e), t, Creating(u)) || (At(Last(e), t, Run) && (Failed(e, t) || Made(e, u)))
  {
    EveryRunKeepsInv(e.prefix);
    if !CallsIn(Last(e.prefix), t, e.act) {
      CreateMakes(e.prefix, t, before, u);
      CreateStep(Last(e.prefix), e.act, t, u, Failed(e.prefix, t), Made(e.prefix, u));
    }
  }
}

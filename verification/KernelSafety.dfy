/** Every step of the kernel keeps its invariant, part by part. */
module KernelSafety {
  import opened Kernel

  lemma NoDupTail<T>(q: seq<T>)
    requires q != [] && NoDup(q)
    ensures NoDup(q[1..]) && q[0] !in q[1..]
    ensures forall x :: x in q <==> x == q[0] || x in q[1..]
  {
    assert q == [q[0]] + q[1..];
  }

  lemma NoDupSnoc<T>(q: seq<T>, y: T)
    requires NoDup(q) && y !in q
    ensures NoDup(q + [y])
    ensures forall x :: x in q + [y] <==> x in q || x == y
  {
  }

  // ----- the scheduler

  lemma UnblockKeepsSched(st: State, u: Tid)
    requires SchedInv(st) && Is(st, u, Blocked) && u != st.idle
    ensures SchedInv(Unblock(st, u))
  {
    assert ThreadAt(st, u);
    NoDupSnoc(st.ready, u);
    forall t ensures ThreadAt(Unblock(st, u), t) { assert ThreadAt(st, t); }
  }

  /** Whoever is dispatched was ready, or is the idle thread. */
  lemma NextIsReady(st: State, q: seq<Tid>)
    requires SchedInv(st) && q == st.ready
    ensures q != [] ==> Is(st, q[0], Ready) && q[0] != st.idle && q[0] != st.cur && NoDup(q[1..])
    ensures q != [] ==> forall t :: t in q <==> t == q[0] || t in q[1..]
    ensures q != [] ==> q[0] !in q[1..]
  {
    if q != [] {
      NoDupTail(q);
      assert ThreadAt(st, q[0]);
    }
  }

  lemma LeaveKeepsSched(st: State, x: Status)
    requires SchedInv(st) && x != Running && (x == Dying ==> st.cur != st.idle && At(st, st.cur, Run))
    requires x == Ready ==> st.cur == st.idle
    ensures SchedInv(Leave(st, x))
  {
    NextIsReady(st, st.ready);
    assert ThreadAt(st, st.cur) && ThreadAt(st, st.idle);
    forall t ensures ThreadAt(Leave(st, x), t) { assert ThreadAt(st, t); }
  }

  lemma YieldKeepsSched(st: State)
    requires SchedInv(st)
    ensures SchedInv(Step(st, Yield))
  {
    if st.cur == st.idle {
      LeaveKeepsSched(st, Ready);
    } else {
      assert ThreadAt(st, st.cur);
      NoDupSnoc(st.ready, st.cur);
      var q := st.ready + [st.cur];
      NoDupTail(q);
      assert ThreadAt(st, q[0]) && ThreadAt(st, st.idle);
      forall t ensures ThreadAt(Step(st, Yield), t) { assert ThreadAt(st, t); }
    }
  }

  lemma SemaUpKeepsSched(st: State, s: Sema)
    requires SchedInv(st) && WaitersInv(st)
    ensures SchedInv(SemaUp(st, s))
  {
    var q, st' := st.semas(s).waiters, SemaUp(st, s);
    if q != [] {
      assert WaiterAt(st, s, q[0]) && ThreadAt(st, q[0]);
      UnblockKeepsSched(st, q[0]);
      forall t ensures ThreadAt(st', t) { assert ThreadAt(Unblock(st, q[0]), t); }
    } else {
      forall t ensures ThreadAt(st', t) { assert ThreadAt(st, t); }
    }
  }

  lemma SleepKeepsSched(st: State, s: Sema, after: Pc)
    requires SchedInv(st) && st.cur != st.idle && st.semas(s).value == 0
    ensures SchedInv(SemaDown(st, s, after))
  {
    var m := SetPc(SetSem(st, s, SemaState(0, st.semas(s).waiters + [st.cur])), Asleep(s, after));
    assert ThreadAt(st, st.cur);
    forall t ensures ThreadAt(m, t) { assert ThreadAt(st, t); }
    LeaveKeepsSched(m, Blocked);
  }

  // ----- the waiting lists

  lemma SemaUpKeepsWaiters(st: State, s: Sema)
    requires SchedInv(st) && WaitersInv(st)
    ensures WaitersInv(SemaUp(st, s))
  {
    var q, st' := st.semas(s).waiters, SemaUp(st, s);
    assert LineAt(st, s);
    if q != [] {
      NoDupTail(q);
      assert WaiterAt(st, s, q[0]);
    }
    forall r, t ensures WaiterAt(st', r, t) { assert WaiterAt(st, r, t); }
    forall r ensures LineAt(st', r) { assert LineAt(st, r); }
  }

  lemma SleepKeepsWaiters(st: State, s: Sema, after: Pc)
    requires SchedInv(st) && WaitersInv(st) && st.cur != st.idle && st.semas(s).value == 0
    ensures WaitersInv(SemaDown(st, s, after))
  {
    var st' := SemaDown(st, s, after);
    NextIsReady(st, st.ready);
    assert ThreadAt(st, st.cur) && WaiterAt(st, s, st.cur) && LineAt(st, s);
    NoDupSnoc(st.semas(s).waiters, st.cur);
    forall r, t ensures WaiterAt(st', r, t) { assert WaiterAt(st, r, t) && WaiterAt(st, r, st.cur) && ThreadAt(st, t); }
    forall r ensures LineAt(st', r) { assert LineAt(st, r); }
  }

  /** The running thread leaves without going to sleep. */
  lemma LeaveKeepsWaiters(st: State, act: Action)
    requires SchedInv(st) && WaitersInv(st) && Enabled(st, act) && (act.Yield? || act.DoExit? || act.IdleBlock?)
    ensures WaitersInv(Step(st, act))
  {
    var st' := Step(st, act);
    forall r, t ensures WaiterAt(st', r, t) { LeaveKeepsWaiter(st, act, r, t); }
    forall r ensures LineAt(st', r) { assert LineAt(st, r); }
  }

  lemma LeaveKeepsWaiter(st: State, act: Action, r: Sema, t: Tid)
    requires SchedInv(st) && WaitersInv(st) && Enabled(st, act) && (act.Yield? || act.DoExit? || act.IdleBlock?)
    ensures WaiterAt(Step(st, act), r, t)
  {
    NextIsReady(st, st.ready);
    assert WaiterAt(st, r, t) && WaiterAt(st, r, st.cur) && ThreadAt(st, t);
  }

  /** The step changed at most the running thread's program counter, values, holders and queues. */
  ghost predicate Quiet(st: State, st': State) {
    && st'.cur == st.cur && st'.idle == st.idle && st'.initial == st.initial
    && st'.status == st.status && st'.ready == st.ready && st'.freed == st.freed
    && st.cur in st.pc && st'.pc == st.pc[st.cur := Here(st')]
    && (st.cur == st.idle ==> Here(st') == Here(st))
    && !Here(st').Asleep?
    && forall s :: st'.semas(s).waiters == st.semas(s).waiters
  }

  lemma QuietKeepsQueues(st: State, st': State)
    requires SchedInv(st) && WaitersInv(st) && Quiet(st, st')
    ensures SchedInv(st') && WaitersInv(st')
  {
    assert ThreadAt(st, st.cur);
    forall t ensures ThreadAt(st', t) { assert ThreadAt(st, t); }
    forall r, t ensures WaiterAt(st', r, t) { assert WaiterAt(st, r, t); }
    forall r ensures LineAt(st', r) { assert LineAt(st, r); }
  }

  lemma TakeIsQuiet(st: State, s: Sema, after: Pc)
    requires SchedInv(st) && st.semas(s).value > 0 && !after.Asleep? && (st.cur == st.idle ==> after == Here(st))
    ensures Quiet(st, SemaDown(st, s, after))
  {
    assert ThreadAt(st, st.cur);
  }

  // ----- threads under construction

  lemma SameCreatorsKeepLife(st: State, st': State)
    requires LifeInv(st) && st'.idle == st.idle
    requires forall t :: t in st'.pc && st'.pc[t].Creating? ==> t in st.pc && st.pc[t] == st'.pc[t]
    requires forall u :: Unborn(st, u) ==> Unborn(st', u)
    ensures LifeInv(st')
  {
    forall t, u ensures CreatorAt(st', t, u) { assert CreatorAt(st, t, u); }
  }

  lemma SleepKeepsLife(st: State, s: Sema, after: Pc)
    requires SchedInv(st) && LifeInv(st) && st.cur != st.idle && st.semas(s).value == 0
    ensures LifeInv(SemaDown(st, s, after))
  {
    NextIsReady(st, st.ready);
    assert ThreadAt(st, st.cur);
    SameCreatorsKeepLife(st, SemaDown(st, s, after));
  }

  lemma SemaUpKeepsLife(st: State, s: Sema)
    requires WaitersInv(st) && LifeInv(st)
    ensures LifeInv(SemaUp(st, s))
  {
    var q := st.semas(s).waiters;
    if q != [] { assert WaiterAt(st, s, q[0]); }
    SameCreatorsKeepLife(st, SemaUp(st, s));
  }

  lemma LeaveKeepsLife(st: State, act: Action)
    requires SchedInv(st) && LifeInv(st) && (act.Yield? || act.DoExit? || act.IdleBlock?)
    ensures LifeInv(Step(st, act))
  {
    NextIsReady(st, st.ready);
    assert ThreadAt(st, st.cur);
    SameCreatorsKeepLife(st, Step(st, act));
  }

  lemma QuietKeepsLife(st: State, st': State)
    requires SchedInv(st) && LifeInv(st) && Quiet(st, st') && (Here(st') == Here(st) || !Here(st').Creating?)
    ensures LifeInv(st')
  {
    assert ThreadAt(st, st.cur);
    SameCreatorsKeepLife(st, st');
  }

  // ----- wakeups

  lemma SameWokenKeepWakeups(st: State, st': State)
    requires WakeupInv(st)
    requires forall s :: st'.semas(s).waiters == st.semas(s).waiters && st'.semas(s).value <= st.semas(s).value
    requires forall t :: t in st.pc && st.pc[t].Asleep? ==> t in st'.pc && st'.pc[t] == st.pc[t]
    requires forall t :: t in st'.pc && st'.pc[t].Asleep? ==> t in st.pc && st'.pc[t] == st.pc[t]
    ensures WakeupInv(st')
  {
    forall s ensures WakeAt(st', s) {
      assert WakeAt(st, s);
      assert Woken(st', s) == Woken(st, s);
    }
  }

  lemma SemaUpKeepsWakeups(st: State, s: Sema)
    requires WakeupInv(st) && WaitersInv(st)
    ensures WakeupInv(SemaUp(st, s))
  {
    var st', q := SemaUp(st, s), st.semas(s).waiters;
    forall r ensures WakeAt(st', r) {
      assert WakeAt(st, r);
      if r == s && q != [] {
        assert LineAt(st, s) && WaiterAt(st, s, q[0]);
        NoDupTail(q);
        assert Woken(st', s) == Woken(st, s) + {q[0]};
      } else {
        assert Woken(st', r) == Woken(st, r);
      }
    }
  }

  lemma SleepKeepsWakeups(st: State, s: Sema, after: Pc)
    requires WakeupInv(st) && st.semas(s).value == 0 && st.cur in st.pc
    requires Here(st).Asleep? ==> Here(st).sema == s
    ensures WakeupInv(SemaDown(st, s, after))
  {
    var st' := SemaDown(st, s, after);
    forall r ensures WakeAt(st', r) {
      assert WakeAt(st, r);
      if r != s { assert Woken(st', r) == Woken(st, r); }
    }
  }

  lemma TakeKeepsWakeups(st: State, s: Sema, after: Pc)
    requires WakeupInv(st) && WaitersInv(st) && st.semas(s).value > 0 && Is(st, st.cur, Running) && st.cur in st.pc
    requires !after.Asleep? && (Here(st).Asleep? ==> Here(st).sema == s)
    ensures WakeupInv(SemaDown(st, s, after))
  {
    var st' := SemaDown(st, s, after);
    assert WaiterAt(st, s, st.cur);
    forall r ensures WakeAt(st', r) {
      assert WakeAt(st, r);
      if r != s {
        assert Woken(st', r) == Woken(st, r);
      } else {
        assert Woken(st', s) == Woken(st, s) - {st.cur};
      }
    }
  }

  // ----- locks

  lemma SameOwnersKeepLocks(st: State, st': State)
    requires LocksInv(st) && st.pc.Keys <= st'.pc.Keys && st'.holders == st.holders
    requires forall l :: st'.semas(LockSema(l)).value == st.semas(LockSema(l)).value
    requires forall t, l :: Owns(st', t, l) == Owns(st, t, l)
    ensures LocksInv(st')
  {
    forall l, t, u ensures OwnerAt(st', l, t, u) { assert OwnerAt(st, l, t, u); }
    forall l ensures UnitAt(st', l) {
      assert UnitAt(st, l);
      if st.semas(LockSema(l)).value == 0 {
        var t: Tid :| Owns(st, t, l);
        assert Owns(st', t, l);
      }
    }
  }

  predicate Owning(p: Pc) { p.SetHolder? || p.ReleaseUp? }

  lemma PcChangeKeepsLocks(st: State, st': State, t: Tid, p: Pc)
    requires LocksInv(st) && st'.pc == st.pc[t := p] && st'.holders == st.holders
    requires forall l :: st'.semas(LockSema(l)).value == st.semas(LockSema(l)).value
    requires !Owning(p) && t in st.pc && !Owning(st.pc[t])
    ensures LocksInv(st')
  {
    SameOwnersKeepLocks(st, st');
  }

  /** Exactly one thread changes, and exactly at lock `l`. */
  lemma OwnerChangeKeepsLocks(st: State, st': State, l: LockId, t: Tid)
    requires LocksInv(st) && st.pc.Keys == st'.pc.Keys && t in st.pc
    requires forall k :: k in st'.holders ==> st'.holders[k] == t || (k in st.holders && st'.holders[k] == st.holders[k])
    requires forall k :: k != l ==> st'.semas(LockSema(k)).value == st.semas(LockSema(k)).value
    requires forall u, k :: u != t || k != l ==> Owns(st', u, k) == Owns(st, u, k)
    requires Owns(st, t, l) || st.semas(LockSema(l)).value == 1
    requires st'.semas(LockSema(l)).value == if Owns(st', t, l) then 0 else 1
    ensures LocksInv(st')
  {
    forall k, u, v ensures OwnerAt(st', k, u, v) {
      assert OwnerAt(st, k, u, v) && OwnerAt(st, k, u, t) && OwnerAt(st, k, v, t);
    }
    forall k ensures UnitAt(st', k) {
      assert UnitAt(st, k);
      if k == l {
        assert Owns(st', t, l) || st'.semas(LockSema(l)).value == 1;
      } else if st.semas(LockSema(k)).value == 0 {
        var u: Tid :| Owns(st, u, k);
        assert Owns(st', u, k);
      }
    }
  }

  lemma DownKeepsLocks(st: State, s: Sema, after: Pc)
    requires LocksInv(st) && st.cur in st.pc && !Owning(Here(st))
    requires if s.Plain? then after == Run else WfDown(st, st.cur, s, after)
    ensures LocksInv(SemaDown(st, s, after))
  {
    var st' := SemaDown(st, s, after);
    if st.semas(s).value == 0 {
      PcChangeKeepsLocks(st, st', st.cur, Asleep(s, after));
    } else if s.LockSema? {
      assert UnitAt(st, s.lock);
      OwnerChangeKeepsLocks(st, st', s.lock, st.cur);
    } else {
      PcChangeKeepsLocks(st, st', st.cur, after);
    }
  }

  // ----- condition variables

  /** A step of `t` that changes neither what it awaits nor whether it is sending a signal. */
  lemma OtherStepKeepsConds(st: State, st': State, t: Tid, p: Pc)
    requires CondsInv(st) && t in st.pc && st'.pc == st.pc[t := p] && st'.holders == st.holders
    requires forall c :: st'.conds(c) == st.conds(c)
    requires forall u, c :: st'.semas(WaiterSema(u, c)).value == st.semas(WaiterSema(u, c)).value
    requires p == st.pc[t] || (!p.SignalUp? && !st.pc[t].SignalUp?)
    requires WfPc(st', t) && forall c :: Awaiting(st', t, c) == Awaiting(st, t, c)
    ensures CondsInv(st')
  {
    forall u ensures WfPc(st', u) { assert WfPc(st, u); }
    forall c ensures ListAt(st', c) { assert ListAt(st, c); }
    forall u, c ensures TokenAt(st', u, c) { assert TokenAt(st, u, c); }
  }

  lemma DownKeepsConds(st: State, s: Sema, after: Pc)
    requires CondsInv(st) && st.cur in st.pc
    requires if s.Plain? then after == Run else WfDown(st, st.cur, s, after)
    requires Here(st) == Down(s, after) || Here(st) == Asleep(s, after) || (Here(st) == Run && !s.WaiterSema?)
    ensures CondsInv(SemaDown(st, s, after))
  {
    var st' := SemaDown(st, s, after);
    assert WfPc(st, st.cur);
    if st.semas(s).value == 0 {
      OtherStepKeepsConds(st, st', st.cur, Asleep(s, after));
    } else if !s.WaiterSema? {
      OtherStepKeepsConds(st, st', st.cur, after);
    } else {
      TakeSignalKeepsConds(st, s.cond);
    }
  }

  lemma TakeSignalKeepsConds(st: State, c: Cond)
    requires CondsInv(st) && st.cur in st.pc && st.semas(WaiterSema(st.cur, c)).value > 0
    requires WfDown(st, st.cur, WaiterSema(st.cur, c), Reacquire(c.lock))
    requires Here(st) == Down(WaiterSema(st.cur, c), Reacquire(c.lock))
             || Here(st) == Asleep(WaiterSema(st.cur, c), Reacquire(c.lock))
    ensures CondsInv(SemaDown(st, WaiterSema(st.cur, c), Reacquire(c.lock)))
  {
    var st' := SemaDown(st, WaiterSema(st.cur, c), Reacquire(c.lock));
    forall t ensures WfPc(st', t) { assert WfPc(st, t); }
    forall d ensures ListAt(st', d) { assert ListAt(st, d); }
    forall t, d ensures TokenAt(st', t, d) { assert TokenAt(st, t, d); }
  }

  lemma TryDownKeepsConds(st: State, s: Sema)
    requires CondsInv(st) && st.cur in st.pc && s.Plain?
    ensures CondsInv(SemaTryDown(st, s, Here(st)))
  {
    assert WfPc(st, st.cur);
    OtherStepKeepsConds(st, SemaTryDown(st, s, Here(st)), st.cur, Here(st));
  }

  lemma PlainUpKeepsConds(st: State, s: Sema)
    requires CondsInv(st) && st.cur in st.pc && s.Plain?
    ensures CondsInv(SemaUp(st, s))
  {
    assert WfPc(st, st.cur);
    OtherStepKeepsConds(st, SemaUp(st, s), st.cur, Here(st));
  }

  lemma ReleaseKeepsConds(st: State, l: LockId)
    requires CondsInv(st) && st.cur in st.pc && Here(st) == Run && Holds(st, st.cur, l)
    ensures CondsInv(Step(st, DoRelease(l)))
  {
    var st' := Step(st, DoRelease(l));
    forall t ensures WfPc(st', t) { assert WfPc(st, t); }
    forall c ensures ListAt(st', c) { assert ListAt(st, c); }
    forall t, c ensures TokenAt(st', t, c) { assert TokenAt(st, t, c); }
  }

  lemma WaitKeepsConds(st: State, c: Cond)
    requires CondsInv(st) && st.cur in st.pc && Here(st) == Run && Holds(st, st.cur, c.lock)
    ensures CondsInv(Step(st, DoWait(c)))
  {
    var st' := Step(st, DoWait(c));
    assert TokenAt(st, st.cur, c) && ListAt(st, c);
    NoDupSnoc(st.conds(c), st.cur);
    forall t ensures WfPc(st', t) { assert WfPc(st, t); }
    forall d ensures ListAt(st', d) { assert ListAt(st, d); }
    forall t, d ensures TokenAt(st', t, d) { assert TokenAt(st, t, d); }
  }

  lemma PopKeepsConds(st: State, c: Cond, after: Pc)
    requires CondsInv(st) && st.cur in st.pc && Holds(st, st.cur, c.lock)
    requires Here(st) == Run || Here(st) == Broadcasting(c)
    requires after == Run || after == Broadcasting(c)
    ensures CondsInv(PopWaiter(st, c, after))
  {
    if st.conds(c) == [] {
      OtherStepKeepsConds(st, PopWaiter(st, c, after), st.cur, Run);
    } else {
      PoppedKeepsConds(st, PopWaiter(st, c, after), c, after);
    }
  }

  lemma PoppedKeepsConds(st: State, st': State, c: Cond, after: Pc)
    requires CondsInv(st) && st.cur in st.pc && Holds(st, st.cur, c.lock) && st.conds(c) != []
    requires Here(st) == Run || Here(st) == Broadcasting(c)
    requires after == Run || after == Broadcasting(c)
    requires st'.pc == st.pc[st.cur := SignalUp(WaiterSema(st.conds(c)[0], c), after)] && st'.holders == st.holders
    requires forall d :: st'.conds(d) == if d == c then st.conds(c)[1..] else st.conds(d)
    requires forall s :: st'.semas(s) == st.semas(s)
    ensures CondsInv(st')
  {
    assert ListAt(st, c);
    NoDupTail(st.conds(c));
    forall t ensures WfPc(st', t) { assert WfPc(st, t); }
    forall d ensures ListAt(st', d) { assert ListAt(st, d); }
    forall t, d ensures TokenAt(st', t, d) { assert TokenAt(st, t, d); }
  }

  /** Nobody is recorded as holder of a lock that a thread has just taken. */
  lemma JustTaken(st: State, l: LockId)
    requires CondsInv(st) && LocksInv(st) && st.cur in st.pc && Here(st) == SetHolder(l)
    ensures l !in st.holders
  {
    assert WfPc(st, st.cur) && UnitAt(st, l);
    assert l in st.holders ==> OwnerAt(st, l, st.cur, st.holders[l]);
  }

  lemma SetHolderKeepsConds(st: State, l: LockId)
    requires CondsInv(st) && LocksInv(st) && st.cur in st.pc && Here(st) == SetHolder(l)
    ensures CondsInv(Step(st, Continue))
  {
    var st' := Step(st, Continue);
    JustTaken(st, l);
    forall t ensures WfPc(st', t) { assert WfPc(st, t); }
    forall c ensures ListAt(st', c) { assert ListAt(st, c); }
    forall t, c ensures TokenAt(st', t, c) { assert TokenAt(st, t, c); }
  }

  lemma ReleaseUpKeepsConds(st: State)
    requires CondsInv(st) && st.cur in st.pc && Here(st).ReleaseUp?
    ensures CondsInv(Step(st, Continue))
  {
    assert WfPc(st, st.cur);
    OtherStepKeepsConds(st, Step(st, Continue), st.cur, Here(st).after);
  }

  lemma SignalUpKeepsConds(st: State)
    requires CondsInv(st) && st.cur in st.pc && Here(st).SignalUp?
    ensures CondsInv(Step(st, Continue))
  {
    var st' := Step(st, Continue);
    assert WfPc(st, st.cur);
    SignalSentKeepsConds(st, st', Here(st).sema.tid, Here(st).sema.cond, Here(st).after);
  }

  lemma SignalSentKeepsConds(st: State, st': State, w: Tid, c: Cond, after: Pc)
    requires CondsInv(st) && st.cur in st.pc && Here(st) == SignalUp(WaiterSema(w, c), after)
    requires st'.pc == st.pc[st.cur := after] && st'.holders == st.holders
    requires forall d :: st'.conds(d) == st.conds(d)
    requires forall u, d :: st'.semas(WaiterSema(u, d)).value
                            == st.semas(WaiterSema(u, d)).value + Bit(u == w && d == c)
    ensures CondsInv(st')
  {
    assert WfPc(st, st.cur);
    forall t ensures WfPc(st', t) { assert WfPc(st, t); }
    forall d ensures ListAt(st', d) { assert ListAt(st, d); }
    forall t, d ensures TokenAt(st', t, d) { assert TokenAt(st, t, d); }
  }

  lemma WaitReleaseKeepsConds(st: State)
    requires CondsInv(st) && st.cur in st.pc && Here(st).WaitRelease?
    ensures CondsInv(Step(st, Continue))
  {
    var st' := Step(st, Continue);
    assert WfPc(st, st.cur);
    forall t ensures WfPc(st', t) { assert WfPc(st, t); }
    forall c ensures ListAt(st', c) { assert ListAt(st, c); }
    forall t, c ensures TokenAt(st', t, c) { assert TokenAt(st, t, c); }
  }

  lemma BroadcastKeepsConds(st: State, c: Cond)
    requires CondsInv(st) && st.cur in st.pc && Here(st) == Run && Holds(st, st.cur, c.lock) && st.conds(c) != []
    ensures CondsInv(Step(st, DoBroadcast(c)))
  {
    OtherStepKeepsConds(st, Step(st, DoBroadcast(c)), st.cur, Broadcasting(c));
  }

  lemma CreateKeepsConds(st: State, act: Action)
    requires CondsInv(st) && SchedInv(st) && st.cur in st.pc && Enabled(st, act)
    requires act.DoCreate? || act.CreateFails? || (act.Continue? && Here(st).Creating?)
    ensures CondsInv(Step(st, act))
  {
    var st' := Step(st, act);
    if act.DoCreate? { assert ThreadAt(st, act.t); }
    forall t ensures WfPc(st', t) { assert WfPc(st, t); }
    forall c ensures ListAt(st', c) { assert ListAt(st, c); }
    forall t, c ensures TokenAt(st', t, c) { assert TokenAt(st, t, c); }
  }

  lemma LeaveKeepsConds(st: State, act: Action)
    requires CondsInv(st) && st.cur in st.pc && (act.Yield? || act.DoExit? || act.IdleBlock?)
    ensures CondsInv(Step(st, act))
  {
    assert WfPc(st, st.cur);
    OtherStepKeepsConds(st, Step(st, act), st.cur, Here(st));
  }

  // ----- every step keeps the invariant

  lemma DownKeepsInv(st: State, s: Sema, after: Pc)
    requires Inv(st) && st.cur != st.idle
    requires if s.Plain? then after == Run else WfDown(st, st.cur, s, after)
    requires Here(st) == Down(s, after) || Here(st) == Asleep(s, after) || (Here(st) == Run && !s.WaiterSema?)
    ensures Inv(SemaDown(st, s, after))
  {
    assert ThreadAt(st, st.cur);
    DownKeepsConds(st, s, after);
    DownKeepsLocks(st, s, after);
    if st.semas(s).value == 0 {
      SleepKeepsSched(st, s, after);
      SleepKeepsWaiters(st, s, after);
      SleepKeepsLife(st, s, after);
      SleepKeepsWakeups(st, s, after);
    } else {
      TakeIsQuiet(st, s, after);
      QuietKeepsQueues(st, SemaDown(st, s, after));
      QuietKeepsLife(st, SemaDown(st, s, after));
      TakeKeepsWakeups(st, s, after);
    }
  }

  lemma PlainUpKeepsInv(st: State, s: Sema)
    requires Inv(st) && s.Plain?
    ensures Inv(SemaUp(st, s))
  {
    assert ThreadAt(st, st.cur);
    SemaUpKeepsSched(st, s);
    SemaUpKeepsWaiters(st, s);
    SemaUpKeepsLife(st, s);
    SemaUpKeepsWakeups(st, s);
    PlainUpKeepsConds(st, s);
    SameOwnersKeepLocks(st, SemaUp(st, s));
  }

  lemma InterruptTryDownKeepsInv(st: State, s: Sema)
    requires Inv(st) && s.Plain? && !Here(st).Asleep?
    ensures Inv(SemaTryDown(st, s, Here(st)))
  {
    var st' := SemaTryDown(st, s, Here(st));
    assert ThreadAt(st, st.cur);
    if st.semas(s).value > 0 {
      TakeIsQuiet(st, s, Here(st));
      QuietKeepsQueues(st, st');
      QuietKeepsLife(st, st');
      TryDownKeepsConds(st, s);
      TakeKeepsWakeups(st, s, Here(st));
      assert st'.pc == st.pc;
      SameOwnersKeepLocks(st, st');
    }
  }

  /** A quiet step that leaves all values alone and does not end a sleep. */
  lemma QuietKeepsInv(st: State, st': State)
    requires Inv(st) && Quiet(st, st') && !Here(st).Asleep? && !Here(st').Creating?
    requires forall s :: st'.semas(s) == st.semas(s)
    requires LocksInv(st') && CondsInv(st')
    ensures Inv(st')
  {
    QuietKeepsQueues(st, st');
    QuietKeepsLife(st, st');
    SameWokenKeepWakeups(st, st');
  }

  lemma ReleaseKeepsInv(st: State, l: LockId)
    requires Inv(st) && Enabled(st, DoRelease(l))
    ensures Inv(Step(st, DoRelease(l)))
  {
    assert ThreadAt(st, st.cur) && OwnerAt(st, l, st.cur, st.cur);
    ReleaseKeepsConds(st, l);
    OwnerChangeKeepsLocks(st, Step(st, DoRelease(l)), l, st.cur);
    QuietKeepsInv(st, Step(st, DoRelease(l)));
  }

  lemma WaitReleaseKeepsInv(st: State)
    requires Inv(st) && Here(st).WaitRelease?
    ensures Inv(Step(st, Continue))
  {
    var c, st' := Here(st).cond, Step(st, Continue);
    assert ThreadAt(st, st.cur) && WfPc(st, st.cur) && OwnerAt(st, c.lock, st.cur, st.cur);
    WaitReleaseKeepsConds(st);
    OwnerChangeKeepsLocks(st, st', c.lock, st.cur);
    QuietKeepsInv(st, st');
  }

  lemma SetHolderKeepsInv(st: State)
    requires Inv(st) && Here(st).SetHolder?
    ensures Inv(Step(st, Continue))
  {
    var l, st' := Here(st).lock, Step(st, Continue);
    assert ThreadAt(st, st.cur) && OwnerAt(st, l, st.cur, st.cur);
    JustTaken(st, l);
    SetHolderKeepsConds(st, l);
    OwnerChangeKeepsLocks(st, st', l, st.cur);
    QuietKeepsInv(st, st');
  }

  lemma PopKeepsInv(st: State, c: Cond, after: Pc)
    requires Inv(st) && Holds(st, st.cur, c.lock) && st.cur != st.idle
    requires Here(st) == Run || Here(st) == Broadcasting(c)
    requires after == Run || after == Broadcasting(c)
    ensures Inv(PopWaiter(st, c, after))
  {
    var st' := PopWaiter(st, c, after);
    assert ThreadAt(st, st.cur);
    PopKeepsConds(st, c, after);
    PcChangeKeepsLocks(st, st', st.cur, Here(st'));
    QuietKeepsInv(st, st');
  }

  lemma BroadcastKeepsInv(st: State, c: Cond)
    requires Inv(st) && Enabled(st, DoBroadcast(c))
    ensures Inv(Step(st, DoBroadcast(c)))
  {
    var st' := Step(st, DoBroadcast(c));
    if st.conds(c) != [] {
      assert ThreadAt(st, st.cur);
      BroadcastKeepsConds(st, c);
      PcChangeKeepsLocks(st, st', st.cur, Here(st'));
      QuietKeepsInv(st, st');
    }
  }

  /** Nobody sleeps on the semaphore of a wait that has not begun, so sema_init() drops no one. */
  lemma NobodySleepsOnIdleWaiter(st: State, c: Cond)
    requires WaitersInv(st) && CondsInv(st) && Here(st) == Run
    ensures st.semas(WaiterSema(st.cur, c)) == SemaState(0, [])
  {
    var s := WaiterSema(st.cur, c);
    assert TokenAt(st, st.cur, c);
    assert st.semas(s).waiters != [] ==> WaiterAt(st, s, st.semas(s).waiters[0]) && WfPc(st, st.semas(s).waiters[0]);
  }

  lemma WaitKeepsInv(st: State, c: Cond)
    requires Inv(st) && Enabled(st, DoWait(c))
    ensures Inv(Step(st, DoWait(c)))
  {
    var st' := Step(st, DoWait(c));
    assert ThreadAt(st, st.cur);
    NobodySleepsOnIdleWaiter(st, c);
    WaitKeepsConds(st, c);
    PcChangeKeepsLocks(st, st', st.cur, Here(st'));
    QuietKeepsInv(st, st');
  }

  /** An up followed by a change of the running thread's program counter. */
  lemma UpAndGoOnKeepsInv(st: State, s: Sema, after: Pc)
    requires Inv(st) && !Here(st).Asleep? && !after.Asleep? && !after.Creating? && st.cur != st.idle
    requires LocksInv(SetPc(SemaUp(st, s), after)) && CondsInv(SetPc(SemaUp(st, s), after))
    ensures Inv(SetPc(SemaUp(st, s), after))
  {
    assert ThreadAt(st, st.cur);
    SemaUpKeepsSched(st, s);
    SemaUpKeepsWaiters(st, s);
    SemaUpKeepsLife(st, s);
    SemaUpKeepsWakeups(st, s);
    var m := SemaUp(st, s);
    QuietKeepsQueues(m, SetPc(m, after));
    QuietKeepsLife(m, SetPc(m, after));
    SameWokenKeepWakeups(m, SetPc(m, after));
  }

  lemma ReleaseUpKeepsLocks(st: State)
    requires LocksInv(st) && CondsInv(st) && st.cur in st.pc && Here(st).ReleaseUp?
    ensures LocksInv(Step(st, Continue))
  {
    var l := Here(st).lock;
    assert WfPc(st, st.cur) && OwnerAt(st, l, st.cur, st.cur);
    OwnerChangeKeepsLocks(st, Step(st, Continue), l, st.cur);
  }

  lemma ReleaseUpKeepsInv(st: State)
    requires Inv(st) && Here(st).ReleaseUp?
    ensures Inv(Step(st, Continue))
  {
    assert ThreadAt(st, st.cur) && WfPc(st, st.cur);
    ReleaseUpKeepsConds(st);
    ReleaseUpKeepsLocks(st);
    UpAndGoOnKeepsInv(st, LockSema(Here(st).lock), Here(st).after);
  }

  lemma SignalUpKeepsInv(st: State)
    requires Inv(st) && Here(st).SignalUp?
    ensures Inv(Step(st, Continue))
  {
    assert ThreadAt(st, st.cur) && WfPc(st, st.cur);
    SignalUpKeepsConds(st);
    PcChangeKeepsLocks(st, Step(st, Continue), st.cur, Here(st).after);
    UpAndGoOnKeepsInv(st, Here(st).sema, Here(st).after);
  }

  lemma DoCreateKeepsQueues(st: State, u: Tid)
    requires SchedInv(st) && WaitersInv(st) && Enabled(st, DoCreate(u))
    ensures SchedInv(Step(st, DoCreate(u))) && WaitersInv(Step(st, DoCreate(u)))
  {
    var st' := Step(st, DoCreate(u));
    assert ThreadAt(st, st.cur) && ThreadAt(st, u);
    forall t ensures ThreadAt(st', t) { assert ThreadAt(st, t); }
    forall r, t ensures WaiterAt(st', r, t) { assert WaiterAt(st, r, t) && ThreadAt(st, t); }
    forall r ensures LineAt(st', r) { assert LineAt(st, r); }
  }

  lemma DoCreateKeepsLife(st: State, u: Tid)
    requires SchedInv(st) && LifeInv(st) && Enabled(st, DoCreate(u))
    ensures LifeInv(Step(st, DoCreate(u)))
  {
    var st' := Step(st, DoCreate(u));
    assert ThreadAt(st, st.cur) && ThreadAt(st, u);
    forall v, w ensures CreatorAt(st', v, w) { assert CreatorAt(st, v, w) && CreatorAt(st, w, v); }
  }

  lemma CreateKeepsLocks(st: State, st': State, act: Action)
    requires LocksInv(st) && SchedInv(st) && Enabled(st, act) && st' == Step(st, act)
    requires act.DoCreate? || act.CreateFails? || (act.Continue? && Here(st).Creating?)
    ensures LocksInv(st')
  {
    assert ThreadAt(st, st.cur);
    if act.DoCreate? {
      assert ThreadAt(st, act.t);
      forall l ensures !Owns(st, act.t, l) && !(l in st.holders && st.holders[l] == act.t) { assert UnitAt(st, l); }
    }
    SameOwnersKeepLocks(st, st');
  }

  lemma CreateKeepsInv(st: State, act: Action)
    requires Inv(st) && Enabled(st, act) && (act.DoCreate? || act.CreateFails?)
    ensures Inv(Step(st, act))
  {
    var st' := Step(st, act);
    assert ThreadAt(st, st.cur) && (act.DoCreate? ==> ThreadAt(st, act.t));
    SameWokenKeepWakeups(st, st');
    if act.CreateFails? {
      QuietKeepsQueues(st, st');
      QuietKeepsLife(st, st');
    } else {
      DoCreateKeepsQueues(st, act.t);
      DoCreateKeepsLife(st, act.t);
    }
    CreateKeepsLocks(st, st', act);
    CreateKeepsConds(st, act);
  }

  lemma UnblockChildKeepsQueues(st: State, u: Tid)
    requires SchedInv(st) && WaitersInv(st) && Unborn(st, u) && Here(st).Creating?
    ensures SchedInv(SetPc(Unblock(st, u), Run)) && WaitersInv(SetPc(Unblock(st, u), Run))
  {
    var m := Unblock(st, u);
    assert ThreadAt(st, st.cur);
    UnblockKeepsSched(st, u);
    forall r, t ensures WaiterAt(m, r, t) { assert WaiterAt(st, r, t); }
    forall r ensures LineAt(m, r) { assert LineAt(st, r); }
    QuietKeepsQueues(m, SetPc(m, Run));
  }

  lemma UnblockChildKeepsLife(st: State, u: Tid)
    requires SchedInv(st) && LifeInv(st) && Here(st) == Creating(u)
    ensures LifeInv(SetPc(Unblock(st, u), Run))
  {
    var st' := SetPc(Unblock(st, u), Run);
    assert ThreadAt(st, st.cur);
    forall v, w ensures CreatorAt(st', v, w) { assert CreatorAt(st, v, w) && CreatorAt(st, v, st.cur); }
  }

  lemma UnblockChildKeepsInv(st: State)
    requires Inv(st) && Here(st).Creating?
    ensures Inv(Step(st, Continue))
  {
    assert ThreadAt(st, st.cur) && CreatorAt(st, st.cur, st.cur);
    UnblockChildKeepsQueues(st, Here(st).child);
    UnblockChildKeepsLife(st, Here(st).child);
    SameWokenKeepWakeups(st, Step(st, Continue));
    CreateKeepsLocks(st, Step(st, Continue), Continue);
    CreateKeepsConds(st, Continue);
  }

  lemma LeaveKeepsInv(st: State, act: Action)
    requires Inv(st) && Enabled(st, act) && (act.Yield? || act.DoExit? || act.IdleBlock?)
    ensures Inv(Step(st, act))
  {
    assert ThreadAt(st, st.cur);
    assert Step(st, act).pc == st.pc;
    SameOwnersKeepLocks(st, Step(st, act));
    LeaveKeepsConds(st, act);
    LeaveKeepsLife(st, act);
    LeaveKeepsWaiters(st, act);
    SameWokenKeepWakeups(st, Step(st, act));
    match act
    case DoExit => LeaveKeepsSched(st, Dying);
    case IdleBlock => LeaveKeepsSched(st, Blocked);
    case _ => YieldKeepsSched(st);
  }

  lemma ContinueDownKeepsInv(st: State)
    requires Inv(st) && (Here(st).Down? || Here(st).Asleep?)
    ensures Inv(Step(st, Continue))
  {
    assert WfPc(st, st.cur);
    DownKeepsInv(st, Here(st).sema, Here(st).after);
  }

  lemma ContinueKeepsInv(st: State)
    requires Inv(st) && Here(st) != Run
    ensures Inv(Step(st, Continue))
  {
    match Here(st)
    case Down(_, _) => ContinueDownKeepsInv(st);
    case Asleep(_, _) => ContinueDownKeepsInv(st);
    case SetHolder(_) => SetHolderKeepsInv(st);
    case ReleaseUp(_, _) => ReleaseUpKeepsInv(st);
    case WaitRelease(_) => WaitReleaseKeepsInv(st);
    case SignalUp(_, _) => SignalUpKeepsInv(st);
    case Broadcasting(c) => assert WfPc(st, st.cur); PopKeepsInv(st, c, Broadcasting(c));
    case Creating(_) => UnblockChildKeepsInv(st);
  }

  lemma StepKeepsInv(st: State, act: Action)
    requires Inv(st) && Enabled(st, act)
    ensures Inv(Step(st, act))
  {
    match act
    case DoDown(s) => DownKeepsInv(st, s, Run);
    case DoTryDown(s) => if st.semas(s).value > 0 { DownKeepsInv(st, s, Run); }
    case DoUp(s) => PlainUpKeepsInv(st, s);
    case DoAcquire(l) => DownKeepsInv(st, LockSema(l), SetHolder(l));
    case DoTryAcquire(l) => if st.semas(LockSema(l)).value > 0 { DownKeepsInv(st, LockSema(l), SetHolder(l)); }
    case DoRelease(l) => ReleaseKeepsInv(st, l);
    case DoWait(c) => WaitKeepsInv(st, c);
    case DoSignal(c) => PopKeepsInv(st, c, Run);
    case DoBroadcast(c) => BroadcastKeepsInv(st, c);
    case Continue => ContinueKeepsInv(st);
    case DoCreate(_) => CreateKeepsInv(st, act);
    case CreateFails => CreateKeepsInv(st, act);
    case Yield => LeaveKeepsInv(st, act);
    case DoExit => LeaveKeepsInv(st, act);
    case IdleBlock => LeaveKeepsInv(st, act);
    case InterruptUp(s) => PlainUpKeepsInv(st, s);
    case InterruptTryDown(s) => InterruptTryDownKeepsInv(st, s);
  }

  lemma BootInv(initial: Tid, idle: Tid)
    requires initial != idle
    ensures Inv(Last(Boot(initial, idle)))
  {
    var st := Last(Boot(initial, idle));
    forall t ensures ThreadAt(st, t) && WfPc(st, t) {}
    forall s, t ensures WaiterAt(st, s, t) && LineAt(st, s) && WakeAt(st, s) {}
    forall t, u ensures CreatorAt(st, t, u) {}
    forall l, t, u ensures OwnerAt(st, l, t, u) && UnitAt(st, l) {}
    forall t, c ensures TokenAt(st, t, c) && ListAt(st, c) {}
  }

  lemma {:induction false} EveryRunKeepsInv(e: Execution)
    requires Legal(e)
    ensures Inv(Last(e))
  {
    match e
    case Boot(initial, idle) => BootInv(initial, idle);
    case Then(p, act) =>
      EveryRunKeepsInv(p);
      StepKeepsInv(Last(p), act);
  }
}

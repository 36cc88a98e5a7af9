/**
 Whole runs of the lock protocol: mutual exclusion, no lost wakeup, and the completion of a task.
 */
module LockRuns {
  import opened Options
  import opened Scheduler
  import opened Locks
  import opened LockInvariants

  // ---- each action keeps the invariant ----

  ghost predicate MayLock(s: Sys, t: TaskId, l: LockId, purpose: Purpose, idle: TaskId)
  {
    && s.sched.current == Some(t) && t != idle && t in s.pc
    && Fits(t, l, purpose) && (s.pc[t] == Code || s.pc[t] == Trying(l, purpose))
    && (purpose.Exiting? ==> HeldBy(s.held, t) == {})
  }

  lemma LockKeeps(s: Sys, t: TaskId, l: LockId, purpose: Purpose, idle: TaskId)
    requires Consistent(s, idle) && MayLock(s, t, l, purpose, idle)
    ensures Lock(s, t, l, purpose).Some? && Consistent(Lock(s, t, l, purpose).value, idle)
  {
    hide Consistent, Sleep;
    if MutexOf(s.mutexes, l).isLocked {
      BlockedKeeps(s, t, l, purpose, idle);
    } else {
      TakenKeeps(s, t, l, purpose, idle);
    }
  }

  lemma CondWaitKeeps(s: Sys, t: TaskId, c: CondId, l: LockId, purpose: Purpose, idle: TaskId)
    requires Consistent(s, idle) && MayUnlock(s, t, l, Code, idle)
    requires FitsCond(c, l, purpose) && (c.MonitorCond? ==> c.task !in s.dead)
    ensures CondWait(s, t, c, l, purpose).Some? && Consistent(CondWait(s, t, c, l, purpose).value, idle)
  {
    hide Consistent, Sleep, WakeAll, WakePcs;
    var s1 := UnlockKeeps(s, t, l, Code, idle);
    NotIdle(s, t, l, idle);
    DozingKeeps(s1, t, c, l, purpose, idle);
    var p := CondAsleep(c, l, purpose);
    var s2 := Unlock(s, t, l, p).value;
    assert s2.pc == s1.pc[t := p];
    assert CondWait(s, t, c, l, purpose) == Some(Dozing(s1, Sleep(s1.sched).state, t, c, l, purpose));
  }

  lemma NotIdle(s: Sys, t: TaskId, l: LockId, idle: TaskId)
    requires MayUnlock(s, t, l, Code, idle)
    ensures t != idle
  {
  }

  lemma TickActionKeeps(s: Sys, idle: TaskId)
    requires Consistent(s, idle)
    ensures TimerTick(s.sched).Ok? && Consistent(s.(sched := TimerTick(s.sched).state), idle)
  {
    hide WaitersMatch, SleepersMatch, OwnersMatch, PcsFit, LivesFit, Good, TimerTick;
    TickFacts(s.sched, idle);
  }

  lemma SpawnKeepsLists(mutexes: map<LockId, Mutex>, conds: map<CondId, seq<TaskId>>, pc: map<TaskId, Pc>, u: TaskId)
    requires WaitersMatch(mutexes, pc) && SleepersMatch(conds, pc) && u !in pc
    ensures WaitersMatch(mutexes, pc[u := Code]) && SleepersMatch(conds, pc[u := Code])
  {
    forall l, v
      ensures WaitsFor(pc[u := Code], v, l) <==> WaitsFor(pc, v, l)
    {
    }
    forall c, v
      ensures WaitsOn(pc[u := Code], v, c) <==> WaitsOn(pc, v, c)
    {
    }
  }

  lemma SpawnKeepsOwners(mutexes: map<LockId, Mutex>, held: map<TaskId, set<LockId>>, owner: map<LockId, TaskId>,
                         u: TaskId)
    requires OwnersMatch(mutexes, held, owner) && u !in held
    ensures OwnersMatch(mutexes, held[u := {}], owner)
  {
  }

  lemma SpawnKeepsRest(pc: map<TaskId, Pc>, held: map<TaskId, set<LockId>>, dead: set<TaskId>, conds: map<CondId,
                       seq<TaskId>>, u: TaskId)
    requires PcsFit(pc, held) && LivesFit(pc, dead, conds) && u !in pc && u !in dead
    ensures PcsFit(pc[u := Code], held[u := {}]) && LivesFit(pc[u := Code], dead, conds)
  {
  }

  lemma SpawnActionKeeps(s: Sys, u: TaskId, idle: TaskId)
    requires Consistent(s, idle) && u !in s.pc && u !in s.dead
    ensures Spawn(s.sched, u).Ok?
    ensures Consistent(s.(sched := Spawn(s.sched, u).state, pc := s.pc[u := Code], held := s.held[u := {}]), idle)
  {
    hide WaitersMatch, SleepersMatch, OwnersMatch, PcsFit, LivesFit, Good, Spawn;
    SpawnFacts(s.sched, idle, u);
    SpawnKeepsLists(s.mutexes, s.conds, s.pc, u);
    SpawnKeepsOwners(s.mutexes, s.held, s.owner, u);
    SpawnKeepsRest(s.pc, s.held, s.dead, s.conds, u);
  }

  /** Two tasks inside the same monitor are the same task. */
  lemma MonitorIsExclusive(mutexes: map<LockId, Mutex>, pc: map<TaskId, Pc>, held: map<TaskId, set<LockId>>,
                           owner: map<LockId, TaskId>, t: TaskId, u: TaskId, k: TaskId)
    requires OwnersMatch(mutexes, held, owner) && PcsFit(pc, held)
    requires t in pc && t in held && u in pc && u in held
    requires MonitorLock(k) in MonitorAt(t, pc[t]) && MonitorLock(k) in MonitorAt(u, pc[u])
    ensures t == u
  {
    assert TaskFits(t, pc[t], held[t]) && TaskFits(u, pc[u], held[u]);
    var l := MonitorLock(k);
    assert l in held[t] && l in held[u];
    assert owner[l] == t && owner[l] == u;
  }

  /** The holder of a task's monitor is alone in it, so nobody is about to wait when the task says it is dead. */
  lemma NobodyAboutToWait(s: Sys, t: TaskId, idle: TaskId)
    requires Consistent(s, idle) && t in s.pc && s.pc[t].Setting?
    ensures forall u :: u in s.pc && s.pc[u].Waiting? ==> s.pc[u].target != t
  {
    hide OwnersMatch, PcsFit, LivesFit, WaitersMatch, SleepersMatch, SleepingMatches, Good;
    forall u | u in s.pc && s.pc[u].Waiting?
      ensures s.pc[u].target != t
    {
      if s.pc[u].target == t {
        MonitorIsExclusive(s.mutexes, s.pc, s.held, s.owner, t, u, t);
      }
    }
  }

  lemma SetKeepsLives(pc: map<TaskId, Pc>, dead: set<TaskId>, conds: map<CondId, seq<TaskId>>, t: TaskId)
    requires LivesFit(pc, dead, conds) && t in pc && pc[t].Setting?
    requires forall u :: u in pc && pc[u].Waiting? ==> pc[u].target != t
    ensures LivesFit(pc[t := Notifying], dead + {t}, conds)
  {
  }

  lemma SetActionKeeps(s: Sys, t: TaskId, idle: TaskId)
    requires Consistent(s, idle) && s.sched.current == Some(t) && t in s.pc && s.pc[t].Setting?
    ensures Consistent(s.(dead := s.dead + {t}, pc := s.pc[t := Notifying]), idle)
  {
    hide SleepingMatches, WaitersMatch, SleepersMatch, OwnersMatch, PcsFit, LivesFit, Good, TaskFits;
    CurrentFacts(s, t, idle);
    NobodyAboutToWait(s, t, idle);
    SetKeepsLives(s.pc, s.dead, s.conds, t);
    MoveKeepsSleeping(s.sched.run, s.pc, t, Notifying);
    MoveKeepsWaiters(s.mutexes, s.pc, s.mutexes, t, Notifying);
    MoveKeepsSleepers(s.conds, s.pc, t, Notifying);
    SettingFits(t, s.held[t]);
    MoveKeepsPcs(s.pc, s.held, t, Notifying, s.held[t]);
    assert s.held[t := s.held[t]] == s.held;
  }

  lemma SettingFits(t: TaskId, locks: set<LockId>)
    requires TaskFits(t, Setting, locks)
    ensures TaskFits(t, Notifying, locks)
  {
  }

  lemma FinishKeepsLists(mutexes: map<LockId, Mutex>, conds: map<CondId, seq<TaskId>>, pc: map<TaskId, Pc>, t: TaskId)
    requires WaitersMatch(mutexes, pc) && SleepersMatch(conds, pc) && t in pc && !Asleep(pc[t])
    ensures WaitersMatch(mutexes, pc - {t}) && SleepersMatch(conds, pc - {t})
  {
    forall l, v
      ensures WaitsFor(pc - {t}, v, l) <==> WaitsFor(pc, v, l)
    {
    }
    forall c, v
      ensures WaitsOn(pc - {t}, v, c) <==> WaitsOn(pc, v, c)
    {
    }
  }

  lemma FinishKeepsOwners(mutexes: map<LockId, Mutex>, held: map<TaskId, set<LockId>>, owner: map<LockId, TaskId>,
                          t: TaskId)
    requires OwnersMatch(mutexes, held, owner) && t in held && held[t] == {}
    ensures OwnersMatch(mutexes, held - {t}, owner)
  {
    forall l | l in owner
      ensures owner[l] != t
    {
      assert l !in held[t];
    }
  }

  lemma FinishKeepsRest(pc: map<TaskId, Pc>, held: map<TaskId, set<LockId>>, dead: set<TaskId>, conds: map<CondId,
                        seq<TaskId>>, t: TaskId)
    requires PcsFit(pc, held) && LivesFit(pc, dead, conds) && t in pc && pc[t].Finishing?
    ensures PcsFit(pc - {t}, held - {t}) && LivesFit(pc - {t}, dead, conds)
  {
  }

  lemma FinishActionKeeps(s: Sys, t: TaskId, idle: TaskId)
    requires Consistent(s, idle) && s.sched.current == Some(t) && t in s.pc && s.pc[t].Finishing?
    ensures ExitCurrent(s.sched).Ok?
    ensures Consistent(s.(sched := ExitCurrent(s.sched).state, pc := s.pc - {t}, held := s.held - {t}), idle)
  {
    hide WaitersMatch, SleepersMatch, OwnersMatch, PcsFit, LivesFit, Good, ExitCurrent;
    CurrentFacts(s, t, idle);
    ExitFacts(s.sched, idle);
    FinishKeepsLists(s.mutexes, s.conds, s.pc, t);
    FinishKeepsOwners(s.mutexes, s.held, s.owner, t);
    FinishKeepsRest(s.pc, s.held, s.dead, s.conds, t);
  }

  lemma CheckActionKeeps(s: Sys, t: TaskId, idle: TaskId)
    requires Consistent(s, idle) && s.sched.current == Some(t) && t in s.pc && s.pc[t].Checking?
    ensures var k := s.pc[t].target;
            Consistent(s.(pc := s.pc[t := if k in s.dead then Leaving(k) else Waiting(k)]), idle)
  {
    hide Consistent;
    CurrentFacts(s, t, idle);
    var k := s.pc[t].target;
    MoveKeeps(s, t, if k in s.dead then Leaving(k) else Waiting(k), idle);
  }

  /** Every enabled step is possible, that is, nothing in it panics, and keeps the invariant. */
  lemma NextKeeps(s: Sys, a: Action, idle: TaskId)
    requires Consistent(s, idle) && Enabled(s, a, idle)
    ensures Next(s, a).Some? && Consistent(Next(s, a).value, idle)
  {
    hide Consistent, Lock, Unlock, CondWait, NotifyAll, TimerTick, Spawn, ExitCurrent;
    var t := s.sched.current.value;
    CurrentFacts(s, t, idle);
    HoldingFacts(s, t);
    match a
    case TickAction => TickActionKeeps(s, idle);
    case SpawnAction(u) => SpawnActionKeeps(s, u, idle);
    case LockAction(l) => LockKeeps(s, t, l, User, idle);
    case RetryAction => LockKeeps(s, t, s.pc[t].lock, s.pc[t].purpose, idle);
    case UnlockAction(l) => var s' := UnlockKeeps(s, t, l, Code, idle);
    case WaitAction(c, l) => CondWaitKeeps(s, t, c, l, User, idle);
    case NotifyAction(c) => var s' := NotifyKeeps(s, t, c, Code, idle);
    case JoinAction(k) => LockKeeps(s, t, MonitorLock(k), Join(k), idle);
    case CheckAction => CheckActionKeeps(s, t, idle);
    case JoinWaitAction =>
      var k := s.pc[t].target;
      CondWaitKeeps(s, t, MonitorCond(k), MonitorLock(k), Join(k), idle);
    case LeaveAction => var s' := UnlockKeeps(s, t, MonitorLock(s.pc[t].target), Code, idle);
    case ExitAction => LockKeeps(s, t, MonitorLock(t), Exiting, idle);
    case SetAction => SetActionKeeps(s, t, idle);
    case NotifyExitAction => var s' := NotifyKeeps(s, t, MonitorCond(t), Unlocking, idle);
    case ReleaseAction => var s' := UnlockKeeps(s, t, MonitorLock(t), Finishing, idle);
    case FinishAction => FinishActionKeeps(s, t, idle);
  }

  lemma HoldingFacts(s: Sys, t: TaskId)
    requires t in s.pc && t in s.held && TaskFits(t, s.pc[t], s.held[t])
    ensures s.pc[t].Checking? || s.pc[t].Waiting? || s.pc[t].Leaving? ==> MonitorLock(s.pc[t].target) in s.held[t]
    ensures s.pc[t].Setting? || s.pc[t].Notifying? || s.pc[t].Unlocking? ==> MonitorLock(t) in s.held[t]
  {
  }

  // ---- runs ----

  ghost predicate Run(states: seq<Sys>, actions: seq<Action>, idle: TaskId)
  {
    && |states| == |actions| + 1
    && forall i :: 0 <= i < |actions| ==>
         Enabled(states[i], actions[i], idle) && Next(states[i], actions[i]) == Some(states[i + 1])
  }

  /** The state after booting: the idle task runs, the first user task is ready. */
  function Booted(idle: TaskId, first: TaskId): Sys
  {
    Sys(State(Some(idle), [first], map[idle := Running, first := Ready], map[idle := UNIT_TIME_SLICE, first := 0]),
        map[], map[], {}, map[idle := Code, first := Code], map[idle := {}, first := {}], map[])
  }

  lemma BootedIsConsistent(idle: TaskId, first: TaskId)
    requires idle != first
    ensures Consistent(Booted(idle, first), idle)
  {
    hide Good;
    BootedIsScheduled(idle, first);
    assert PcsFit(Booted(idle, first).pc, Booted(idle, first).held);
  }

  lemma BootedIsScheduled(idle: TaskId, first: TaskId)
    requires idle != first
    ensures Good(Booted(idle, first).sched, idle)
  {
  }

  /** In every state of a run the invariant holds, and every enabled step is possible. */
  lemma {:induction false} RunIsConsistent(states: seq<Sys>, actions: seq<Action>, idle: TaskId, n: nat)
    requires Run(states, actions, idle) && Consistent(states[0], idle) && n <= |actions|
    ensures Consistent(states[n], idle)
    ensures forall a :: Enabled(states[n], a, idle) ==> Next(states[n], a).Some?
    decreases n
  {
    hide Consistent, Enabled, Next;
    if n > 0 {
      RunIsConsistent(states, actions, idle, n - 1);
      NextKeeps(states[n - 1], actions[n - 1], idle);
    }
    var s := states[n];
    forall a | Enabled(s, a, idle)
      ensures Next(s, a).Some?
    {
      NextKeeps(s, a, idle);
    }
  }

  // ---- safety ----

  /** No two tasks hold the same lock, and a held lock is locked. */
  lemma MutualExclusion(s: Sys, idle: TaskId, t: TaskId, u: TaskId)
    requires Consistent(s, idle) && t in s.held && u in s.held && t != u
    ensures s.held[t] !! s.held[u]
    ensures forall l :: l in s.held[t] ==> MutexOf(s.mutexes, l).isLocked
  {
    hide Good, SleepingMatches, WaitersMatch, SleepersMatch, PcsFit, LivesFit;
    forall l | l in s.held[t]
      ensures l !in s.held[u] && MutexOf(s.mutexes, l).isLocked
    {
      assert l in s.owner && s.owner[l] == t;
    }
  }

  function Occurrences(q: seq<TaskId>, t: TaskId): nat
  {
    multiset(q)[t]
  }

  lemma {:induction false} OccursOnce(q: seq<TaskId>, t: TaskId)
    requires NoDuplicates(q)
    ensures Occurrences(q, t) == if t in q then 1 else 0
  {
    if q != [] {
      OccursOnce(q[1..], t);
      assert q == [q[0]] + q[1..];
      assert q[0] !in q[1..];
    }
  }

  /** A sleeping task is on exactly one list, once; if it is the list of a lock, the lock is locked and
      held by an existing task. No task sleeps on an unlocked lock. */
  lemma NoLostWakeup(s: Sys, idle: TaskId, t: TaskId)
    requires Consistent(s, idle) && t in s.sched.run && s.sched.run[t] == Sleeping
    ensures t in s.pc && Asleep(s.pc[t])
    ensures forall l :: Occurrences(MutexOf(s.mutexes, l).waiters, t) ==
                        if s.pc[t].LockAsleep? && s.pc[t].lock == l then 1 else 0
    ensures forall c :: Occurrences(SleepersOf(s.conds, c), t) ==
                        if s.pc[t].CondAsleep? && s.pc[t].cond == c then 1 else 0
    ensures s.pc[t].LockAsleep? ==>
              MutexOf(s.mutexes, s.pc[t].lock).isLocked && s.pc[t].lock in s.owner && s.owner[s.pc[t].lock] in s.pc
  {
    hide Good, PcsFit, LivesFit;
    forall l
      ensures Occurrences(MutexOf(s.mutexes, l).waiters, t) ==
              if s.pc[t].LockAsleep? && s.pc[t].lock == l then 1 else 0
    {
      OccursOnce(MutexOf(s.mutexes, l).waiters, t);
      assert t in MutexOf(s.mutexes, l).waiters <==> WaitsFor(s.pc, t, l);
    }
    forall c
      ensures Occurrences(SleepersOf(s.conds, c), t) ==
              if s.pc[t].CondAsleep? && s.pc[t].cond == c then 1 else 0
    {
      OccursOnce(SleepersOf(s.conds, c), t);
      assert t in SleepersOf(s.conds, c) <==> WaitsOn(s.pc, t, c);
    }
    if s.pc[t].LockAsleep? {
      assert WaitsFor(s.pc, t, s.pc[t].lock);
      assert t in MutexOf(s.mutexes, s.pc[t].lock).waiters;
    }
  }

  // ---- steps seen by one task ----

  /** A step of another task leaves a task where it is, or wakes it. */
  lemma OthersOnlyWake(s: Sys, a: Action, idle: TaskId, u: TaskId)
    requires Enabled(s, a, idle) && Next(s, a).Some? && u in s.pc && s.sched.current != Some(u)
    ensures var s' := Next(s, a).value;
            u in s'.pc && (s'.pc[u] == s.pc[u] || s'.pc[u] == Awakened(s.pc[u]))
  {
    hide TimerTick, Spawn, ExitCurrent, Sleep, WakeAll;
  }

  /** A task that waits on a condition variable, or tries to lock, gets past it only with the lock in hand:
      from asleep it is woken to try, from trying it falls asleep again or has the lock. */
  lemma WaitReturnsWithLock(s: Sys, a: Action, idle: TaskId, t: TaskId)
    requires Consistent(s, idle) && Enabled(s, a, idle) && Next(s, a).Some? && t in s.pc
    requires Asleep(s.pc[t]) || s.pc[t].Trying?
    ensures var s', l, purpose := Next(s, a).value, s.pc[t].lock, s.pc[t].purpose;
            && t in s'.pc
            && (|| s'.pc[t] == s.pc[t] || s'.pc[t] == Trying(l, purpose)
                || (s.pc[t].Trying? && s'.pc[t] == LockAsleep(l, purpose))
                || (s.pc[t].Trying? && s'.pc[t] == After(purpose) && t in s'.held && l in s'.held[t]))
  {
    hide TimerTick, Spawn, ExitCurrent, Sleep, WakeAll, Consistent;
    if s.sched.current == Some(t) {
      CurrentFacts(s, t, idle);
    } else {
      OthersOnlyWake(s, a, idle, t);
    }
  }

  /** The task is in `lock` or in `wait`: asleep, or awake and trying for the lock. */
  predicate Waits(s: Sys, t: TaskId)
  {
    t in s.pc && (Asleep(s.pc[t]) || s.pc[t].Trying?)
  }

  predicate WaitsTo(s: Sys, t: TaskId, l: LockId, purpose: Purpose)
  {
    Waits(s, t) && s.pc[t].lock == l && s.pc[t].purpose == purpose
  }

  lemma WaitStep(s: Sys, a: Action, idle: TaskId, t: TaskId, l: LockId, purpose: Purpose)
    requires Consistent(s, idle) && Enabled(s, a, idle) && Next(s, a).Some? && WaitsTo(s, t, l, purpose)
    ensures var s' := Next(s, a).value;
            || WaitsTo(s', t, l, purpose)
            || (t in s'.pc && s'.pc[t] == After(purpose) && !Waits(s', t) && t in s'.held && l in s'.held[t])
  {
    hide Consistent, Enabled, Next;
    WaitReturnsWithLock(s, a, idle, t);
  }

  /** As long as a task waits it waits for the same lock, and to the same end. */
  lemma {:induction false} WaitsForSame(states: seq<Sys>, actions: seq<Action>, idle: TaskId, t: TaskId,
                                        l: LockId, purpose: Purpose, i: nat, j: nat)
    requires Run(states, actions, idle) && Consistent(states[0], idle) && i <= j <= |actions|
    requires WaitsTo(states[i], t, l, purpose) && forall m :: i <= m <= j ==> Waits(states[m], t)
    ensures WaitsTo(states[j], t, l, purpose)
    decreases j
  {
    hide Consistent, Enabled, Next, Waits, WaitsTo;
    if i < j {
      WaitsForSame(states, actions, idle, t, l, purpose, i, j - 1);
      RunIsConsistent(states, actions, idle, j - 1);
      WaitStep(states[j - 1], actions[j - 1], idle, t, l, purpose);
    }
  }

  /** In any run, when a task that sleeps or tries for a lock first stops doing so, it has the lock and goes on
      where it should: `lock` and `wait` return only with the lock held. */
  lemma WaitEndsWithLock(states: seq<Sys>, actions: seq<Action>, idle: TaskId, t: TaskId,
                         l: LockId, purpose: Purpose, i: nat, j: nat)
    requires Run(states, actions, idle) && Consistent(states[0], idle) && i < j <= |actions|
    requires WaitsTo(states[i], t, l, purpose)
    requires (forall m :: i <= m < j ==> Waits(states[m], t)) && !Waits(states[j], t)
    ensures t in states[j].pc && states[j].pc[t] == After(purpose)
    ensures t in states[j].held && l in states[j].held[t]
  {
    hide Consistent, Enabled, Next, Waits, WaitsTo;
    WaitsForSame(states, actions, idle, t, l, purpose, i, j - 1);
    RunIsConsistent(states, actions, idle, j - 1);
    WaitStep(states[j - 1], actions[j - 1], idle, t, l, purpose);
    NotBoth(states[j], t, l, purpose);
  }

  lemma NotBoth(s: Sys, t: TaskId, l: LockId, purpose: Purpose)
    requires !Waits(s, t)
    ensures !WaitsTo(s, t, l, purpose)
  {
  }

  /** Notifying a condition variable wakes every task that waits on it. */
  lemma NotifyWakes(s: Sys, t: TaskId, c: CondId, next: Pc, idle: TaskId, u: TaskId)
    requires Consistent(s, idle) && MayNotify(s, t, c, next, idle)
    requires u in s.pc && s.pc[u].CondAsleep? && s.pc[u].cond == c
    ensures NotifyAll(s, t, c, next).Some?
    ensures var s' := NotifyAll(s, t, c, next).value;
            && u in s'.pc && s'.pc[u] == Trying(s.pc[u].lock, s.pc[u].purpose)
            && u in s'.sched.run && s'.sched.run[u] == Ready
            && SleepersOf(s'.conds, c) == []
  {
    hide Good, OwnersMatch, WaitersMatch, PcsFit, LivesFit, WakeAll;
    var s' := NotifyKeeps(s, t, c, next, idle);
    assert WaitsOn(s.pc, u, c);
    assert u in SleepersOf(s.conds, c);
    NotRunning(s', t, u, idle);
  }

  lemma NotRunning(s: Sys, t: TaskId, u: TaskId, idle: TaskId)
    requires Consistent(s, idle) && s.sched.current == Some(t) && u != t && u in s.pc && !Asleep(s.pc[u])
    ensures u in s.sched.run && s.sched.run[u] == Ready
  {
    hide OwnersMatch, WaitersMatch, SleepersMatch, PcsFit, LivesFit;
  }

  // ---- completion ----

  /** Task `k` has said it is dead and released its monitor. */
  predicate Exited(s: Sys, k: TaskId)
  {
    k in s.dead && (k in s.pc ==> s.pc[k].Finishing?)
  }

  predicate Joining(p: Pc, k: TaskId)
  {
    match p
    case Trying(_, purpose) => purpose == Join(k)
    case LockAsleep(_, purpose) => purpose == Join(k)
    case CondAsleep(_, _, purpose) => purpose == Join(k)
    case Checking(j) => j == k
    case Waiting(j) => j == k
    case Leaving(j) => j == k
    case _ => false
  }

  /** When a task has exited, whoever waits for its completion is awake, or asleep for the monitor's lock
      only, and then the lock is held by another waiter that is awake and about to see that the task is dead. */
  lemma NoOneLeftAsleep(s: Sys, idle: TaskId, k: TaskId, t: TaskId)
    requires Consistent(s, idle) && Exited(s, k) && t in s.pc && Joining(s.pc[t], k)
    ensures SleepersOf(s.conds, MonitorCond(k)) == []
    ensures !s.pc[t].CondAsleep? && !s.pc[t].Waiting?
    ensures Asleep(s.pc[t]) ==>
              && s.pc[t] == LockAsleep(MonitorLock(k), Join(k)) && MonitorLock(k) in s.owner
              && var o := s.owner[MonitorLock(k)];
                 && o != t && o in s.pc && (s.pc[o] == Checking(k) || s.pc[o] == Leaving(k))
                 && o in s.sched.run && s.sched.run[o] != Sleeping
  {
    hide Good, SleepingMatches, WaitersMatch, SleepersMatch, OwnersMatch, PcsFit, LivesFit;
    NobodyOnCondition(s.pc, s.held, s.dead, s.conds, k, t);
    if Asleep(s.pc[t]) {
      HolderOf(s, idle, MonitorLock(k), t);
      var o := s.owner[MonitorLock(k)];
      MonitorHolder(s, idle, k, o);
    }
  }

  lemma NobodyOnCondition(pc: map<TaskId, Pc>, held: map<TaskId, set<LockId>>, dead: set<TaskId>,
                          conds: map<CondId, seq<TaskId>>, k: TaskId, t: TaskId)
    requires PcsFit(pc, held) && LivesFit(pc, dead, conds) && SleepersMatch(conds, pc) && pc.Keys == held.Keys
    requires k in dead && (k in pc ==> pc[k].Finishing?) && t in pc && Joining(pc[t], k)
    ensures SleepersOf(conds, MonitorCond(k)) == []
    ensures !pc[t].CondAsleep? && !pc[t].Waiting?
    ensures pc[t].LockAsleep? ==> pc[t] == LockAsleep(MonitorLock(k), Join(k))
  {
    assert TaskFits(t, pc[t], held[t]);
    assert WaitsOn(pc, t, MonitorCond(k)) <==> t in SleepersOf(conds, MonitorCond(k));
  }

  lemma HolderOf(s: Sys, idle: TaskId, l: LockId, t: TaskId)
    requires Consistent(s, idle) && t in s.pc && s.pc[t].LockAsleep? && s.pc[t].lock == l
    ensures l in s.owner && s.owner[l] in s.held && s.owner[l] in s.pc && l in s.held[s.owner[l]]
  {
    hide Good, SleepingMatches, SleepersMatch, PcsFit, LivesFit;
    assert WaitsFor(s.pc, t, l);
    assert t in MutexOf(s.mutexes, l).waiters;
  }

  lemma MonitorHolder(s: Sys, idle: TaskId, k: TaskId, o: TaskId)
    requires Consistent(s, idle) && Exited(s, k) && o in s.pc && o in s.held && MonitorLock(k) in s.held[o]
    ensures s.pc[o] == Checking(k) || s.pc[o] == Leaving(k)
    ensures o in s.sched.run && s.sched.run[o] != Sleeping
  {
    hide Good, WaitersMatch, SleepersMatch, OwnersMatch;
    assert TaskFits(o, s.pc[o], s.held[o]);
    assert MonitorLock(k) in MonitorAt(o, s.pc[o]);
  }

  lemma ExitedIsStable(s: Sys, a: Action, idle: TaskId, k: TaskId)
    requires Consistent(s, idle) && Enabled(s, a, idle) && Next(s, a).Some? && Exited(s, k)
    ensures Exited(Next(s, a).value, k)
  {
    hide TimerTick, Spawn, ExitCurrent, Sleep, WakeAll, Consistent;
    if k in s.pc && s.sched.current != Some(k) {
      OthersOnlyWake(s, a, idle, k);
    }
  }

  /** Once a task has exited, at every later point of the run nobody is left asleep waiting for its completion. */
  lemma {:induction false} CompletionIsSeen(states: seq<Sys>, actions: seq<Action>, idle: TaskId, i: nat, j: nat,
                                            k: TaskId, t: TaskId)
    requires Run(states, actions, idle) && Consistent(states[0], idle) && i <= j <= |actions|
    requires Exited(states[i], k) && t in states[j].pc && Joining(states[j].pc[t], k)
    ensures var s := states[j];
            && SleepersOf(s.conds, MonitorCond(k)) == []
            && (Asleep(s.pc[t]) ==>
                  && MonitorLock(k) in s.owner
                  && var o := s.owner[MonitorLock(k)];
                     o in s.pc && Joining(s.pc[o], k) && o in s.sched.run && s.sched.run[o] != Sleeping)
  {
    hide Consistent, Enabled, Next;
    ExitedFromThenOn(states, actions, idle, i, j, k);
    RunIsConsistent(states, actions, idle, j);
    NoOneLeftAsleep(states[j], idle, k, t);
  }

  lemma {:induction false} ExitedFromThenOn(states: seq<Sys>, actions: seq<Action>, idle: TaskId, i: nat, j: nat,
                                            k: TaskId)
    requires Run(states, actions, idle) && Consistent(states[0], idle) && i <= j <= |actions|
    requires Exited(states[i], k)
    ensures Exited(states[j], k)
    decreases j
  {
    hide Consistent, Enabled, Next, Exited;
    if i < j {
      ExitedFromThenOn(states, actions, idle, i, j - 1, k);
      RunIsConsistent(states, actions, idle, j - 1);
      ExitedIsStable(states[j - 1], actions[j - 1], idle, k);
    }
  }

  /** A wait for completion returns only when its target is dead. */
  lemma ReturnsOnlyWhenDead(s: Sys, idle: TaskId, t: TaskId)
    requires Consistent(s, idle) && s.sched.current == Some(t) && Enabled(s, LeaveAction, idle)
    ensures t in s.pc && s.pc[t].Leaving? && s.pc[t].target in s.dead
  {
    hide Good, SleepingMatches, WaitersMatch, SleepersMatch, OwnersMatch, PcsFit;
  }
}

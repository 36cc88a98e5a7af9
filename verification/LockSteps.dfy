/**
 What each step of the lock protocol does, to the locks, the tasks and the scheduler, said without the functions
 that compute it.
 */
module LockSteps {
  import opened Options
  import opened Scheduler
  import opened Locks
  import opened LockInvariants
  import opened LockRuns

  // ---- parts of a step ----

  /** Task `t` goes on at `next`, the tasks in `woken` try again for the lock they slept for, all others stay. */
  ghost predicate Moved(pc: map<TaskId, Pc>, pc': map<TaskId, Pc>, t: TaskId, next: Pc, woken: seq<TaskId>)
  {
    && pc'.Keys == pc.Keys && t in pc' && pc'[t] == next
    && forall u :: u in pc && u != t ==>
         if u in woken then Asleep(pc[u]) && pc'[u] == Trying(pc[u].lock, pc[u].purpose) else pc'[u] == pc[u]
  }

  ghost predicate OnlyLock(mutexes: map<LockId, Mutex>, mutexes': map<LockId, Mutex>, l: LockId, m: Mutex)
  {
    MutexOf(mutexes', l) == m && forall k :: k != l ==> MutexOf(mutexes', k) == MutexOf(mutexes, k)
  }

  ghost predicate OnlyCond(conds: map<CondId, seq<TaskId>>, conds': map<CondId, seq<TaskId>>, c: CondId, q: seq<TaskId>)
  {
    SleepersOf(conds', c) == q && forall k :: k != c ==> SleepersOf(conds', k) == SleepersOf(conds, k)
  }

  /** Task `t` has taken the lock, and nobody's other locks have changed. */
  ghost predicate Took(held: map<TaskId, set<LockId>>, held': map<TaskId, set<LockId>>,
                       owner: map<LockId, TaskId>, owner': map<LockId, TaskId>, t: TaskId, l: LockId)
  {
    t in held && held' == held[t := held[t] + {l}] && owner' == owner[l := t]
  }

  /** Nobody holds the lock any more, and nobody's other locks have changed. */
  ghost predicate LetGo(held: map<TaskId, set<LockId>>, held': map<TaskId, set<LockId>>,
                        owner: map<LockId, TaskId>, owner': map<LockId, TaskId>, t: TaskId, l: LockId)
  {
    && t in held && held' == held[t := held[t] - {l}] && owner' == owner - {l}
    && forall u :: u in held' ==> l !in held'[u]
  }

  function WokenRun(run: map<TaskId, RunState>, tasks: seq<TaskId>): map<TaskId, RunState>
  {
    map t | t in run :: if t in tasks then Ready else run[t]
  }

  /** The tasks are ready, in order, behind the queue. */
  ghost predicate Queued(sched: State, sched': State, tasks: seq<TaskId>)
  {
    sched' == State(sched.current, sched.queue + tasks, WokenRun(sched.run, tasks), sched.slice)
  }

  // ---- steps ----

  /** The current task has the lock. */
  ghost predicate TakesLock(s: Sys, s': Sys, t: TaskId, l: LockId, next: Pc)
  {
    && s'.sched == s.sched && s'.conds == s.conds && s'.dead == s.dead
    && OnlyLock(s.mutexes, s'.mutexes, l, Mutex(true, []))
    && Took(s.held, s'.held, s.owner, s'.owner, t, l) && Moved(s.pc, s'.pc, t, next, [])
  }

  /** The current task is the last waiter of the lock and asleep, and another task runs. */
  ghost predicate SleepsOnLock(s: Sys, s': Sys, t: TaskId, l: LockId, purpose: Purpose)
  {
    && s'.conds == s.conds && s'.dead == s.dead && s'.held == s.held && s'.owner == s.owner
    && OnlyLock(s.mutexes, s'.mutexes, l, Mutex(true, MutexOf(s.mutexes, l).waiters + [t]))
    && Moved(s.pc, s'.pc, t, LockAsleep(l, purpose), [])
    && Dispatched(s.sched.queue, s.sched.run[t := Sleeping], s.sched.slice, s'.sched)
  }

  ghost predicate TriesLock(s: Sys, s': Sys, t: TaskId, l: LockId, purpose: Purpose, next: Pc)
  {
    if MutexOf(s.mutexes, l).isLocked then SleepsOnLock(s, s', t, l, purpose) else TakesLock(s, s', t, l, next)
  }

  /** The lock is free and has no waiters; those it had are ready and try for it. */
  ghost predicate Unlocks(s: Sys, s': Sys, t: TaskId, l: LockId, next: Pc)
  {
    && s'.conds == s.conds && s'.dead == s.dead
    && OnlyLock(s.mutexes, s'.mutexes, l, Mutex(false, []))
    && LetGo(s.held, s'.held, s.owner, s'.owner, t, l) && Moved(s.pc, s'.pc, t, next, MutexOf(s.mutexes, l).waiters)
    && Queued(s.sched, s'.sched, MutexOf(s.mutexes, l).waiters)
  }

  /** The lock is released as in `Unlocks`, and the current task is asleep on the condition variable. */
  ghost predicate SleepsOnCond(s: Sys, s': Sys, t: TaskId, c: CondId, l: LockId, purpose: Purpose)
  {
    var waiters := MutexOf(s.mutexes, l).waiters;
    && s'.dead == s.dead
    && OnlyLock(s.mutexes, s'.mutexes, l, Mutex(false, []))
    && OnlyCond(s.conds, s'.conds, c, SleepersOf(s.conds, c) + [t])
    && LetGo(s.held, s'.held, s.owner, s'.owner, t, l) && Moved(s.pc, s'.pc, t, CondAsleep(c, l, purpose), waiters)
    && Dispatched(s.sched.queue + waiters, WokenRun(s.sched.run, waiters)[t := Sleeping], s.sched.slice, s'.sched)
  }

  /** The tasks that slept on the condition variable are ready and try for their locks. */
  ghost predicate Notifies(s: Sys, s': Sys, t: TaskId, c: CondId, next: Pc)
  {
    && s'.mutexes == s.mutexes && s'.held == s.held && s'.owner == s.owner && s'.dead == s.dead
    && OnlyCond(s.conds, s'.conds, c, [])
    && Moved(s.pc, s'.pc, t, next, SleepersOf(s.conds, c))
    && Queued(s.sched, s'.sched, SleepersOf(s.conds, c))
  }

  /** What an enabled step of the current task, or a tick, does. */
  ghost predicate Effect(s: Sys, a: Action, s': Sys)
    requires s.sched.current.Some? && s.sched.current.value in s.pc
  {
    var t := s.sched.current.value;
    var p := s.pc[t];
    match a
    case TickAction =>
      s' == s.(sched := s'.sched) && Changes(s.sched, Tick, s'.sched)
    case SpawnAction(u) =>
      && s' == s.(sched := s'.sched, pc := s.pc[u := Code], held := s.held[u := {}])
      && Changes(s.sched, New(u), s'.sched)
    case LockAction(l) => TriesLock(s, s', t, l, User, Code)
    case RetryAction =>
      p.Trying? &&
      (match p.purpose
       case User => TriesLock(s, s', t, p.lock, User, Code)
       case Join(k) => TriesLock(s, s', t, p.lock, Join(k), Checking(k))
       case Exiting => TriesLock(s, s', t, p.lock, Exiting, Setting))
    case UnlockAction(l) => Unlocks(s, s', t, l, Code)
    case WaitAction(c, l) => SleepsOnCond(s, s', t, c, l, User)
    case NotifyAction(c) => Notifies(s, s', t, c, Code)
    case JoinAction(k) => TriesLock(s, s', t, MonitorLock(k), Join(k), Checking(k))
    case CheckAction =>
      p.Checking? && s' == s.(pc := s.pc[t := if p.target in s.dead then Leaving(p.target) else Waiting(p.target)])
    case JoinWaitAction =>
      p.Waiting? && SleepsOnCond(s, s', t, MonitorCond(p.target), MonitorLock(p.target), Join(p.target))
    case LeaveAction => p.Leaving? && Unlocks(s, s', t, MonitorLock(p.target), Code)
    case ExitAction => TriesLock(s, s', t, MonitorLock(t), Exiting, Setting)
    case SetAction => s' == s.(dead := s.dead + {t}, pc := s.pc[t := Notifying])
    case NotifyExitAction => Notifies(s, s', t, MonitorCond(t), Unlocking)
    case ReleaseAction => Unlocks(s, s', t, MonitorLock(t), Finishing)
    case FinishAction =>
      && s' == s.(sched := s'.sched, pc := s.pc - {t}, held := s.held - {t})
      && Changes(s.sched, Exit, s'.sched)
  }

  // ---- proofs ----

  lemma WokenRunIs(run: map<TaskId, RunState>, tasks: seq<TaskId>, after: map<TaskId, RunState>)
    requires Woken(run, tasks, after)
    ensures after == WokenRun(run, tasks)
  {
  }

  lemma WakeQueues(s: Sys, idle: TaskId, tasks: seq<TaskId>)
    requires Consistent(s, idle) && AllAsleep(s.pc, tasks) && NoDuplicates(tasks)
    ensures WakeAll(s.sched, tasks).Ok? && Queued(s.sched, WakeAll(s.sched, tasks).state, tasks)
  {
    hide SleepingMatches, WaitersMatch, SleepersMatch, OwnersMatch, PcsFit, LivesFit, WakeAll, AllSleeping, Woken,
      WokenRun, AllAsleep, NoDuplicates, Inv;
    SleepersAreSleeping(s, idle, tasks);
    WakeAllSleeping(s.sched, tasks);
    WokenRunIs(s.sched.run, tasks, WakeAll(s.sched, tasks).state.run);
  }

  lemma WakeMoves(pc: map<TaskId, Pc>, tasks: seq<TaskId>, t: TaskId, next: Pc)
    requires AllAsleep(pc, tasks) && t in pc && !Asleep(pc[t])
    ensures Moved(pc, WakePcs(pc, tasks)[t := next], t, next, tasks)
  {
  }

  lemma LockEffect(s: Sys, t: TaskId, l: LockId, purpose: Purpose, idle: TaskId)
    requires Consistent(s, idle) && MayLock(s, t, l, purpose, idle)
    ensures Lock(s, t, l, purpose).Some? && TriesLock(s, Lock(s, t, l, purpose).value, t, l, purpose, After(purpose))
  {
    hide Consistent, Sleep, TakesLock, Dispatched, Good, Asleep, TaskFits;
    CurrentFacts(s, t, idle);
    if MutexOf(s.mutexes, l).isLocked {
      GoodScheduler(s, idle);
      StepChanges(s.sched, SleepCurrent, idle);
    } else {
      TakenEffect(s, t, l, purpose, idle);
    }
  }

  lemma TakenEffect(s: Sys, t: TaskId, l: LockId, purpose: Purpose, idle: TaskId)
    requires Consistent(s, idle) && t in s.pc && t in s.held && !MutexOf(s.mutexes, l).isLocked
    ensures TakesLock(s, Taken(s, t, l, purpose), t, l, After(purpose))
  {
    hide Scheduled, SleepingMatches, WaitersMatch, SleepersMatch, PcsFit, LivesFit;
  }

  /** `given` is where the task would go on after a plain unlock. */
  lemma UnlockEffect(s: Sys, t: TaskId, l: LockId, given: Pc, next: Pc, idle: TaskId)
    requires Consistent(s, idle) && MayUnlock(s, t, l, given, idle)
    ensures Unlock(s, t, l, next).Some? && Unlocks(s, Unlock(s, t, l, next).value, t, l, next)
  {
    hide SleepingMatches, WaitersMatch, SleepersMatch, PcsFit, LivesFit, Good, Queued, Moved, AllAsleep, NoDuplicates,
      WakeAll, WakePcs, MayUnlock, TaskFits, SaidDead;
    var tasks := MutexOf(s.mutexes, l).waiters;
    UnlockSide(s, t, l, given, idle);
    UnlockKeepsWaiters(s.mutexes, s.pc, l);
    WakeQueues(s, idle, tasks);
    WakeMoves(s.pc, tasks, t, next);
  }

  lemma NotifyEffect(s: Sys, t: TaskId, c: CondId, next: Pc, idle: TaskId)
    requires Consistent(s, idle) && MayNotify(s, t, c, next, idle)
    ensures NotifyAll(s, t, c, next).Some? && Notifies(s, NotifyAll(s, t, c, next).value, t, c, next)
  {
    hide SleepingMatches, WaitersMatch, SleepersMatch, PcsFit, LivesFit, Good, Queued, Moved, AllAsleep, NoDuplicates,
      WakeAll, WakePcs, OwnersMatch, TaskFits, SaidDead;
    var tasks := SleepersOf(s.conds, c);
    CurrentFacts(s, t, idle);
    NotifyKeepsSleepers(s.conds, s.pc, c);
    WakeQueues(s, idle, tasks);
    WakeMoves(s.pc, tasks, t, next);
  }

  lemma CondWaitEffect(s: Sys, t: TaskId, c: CondId, l: LockId, purpose: Purpose, idle: TaskId)
    requires Consistent(s, idle) && MayUnlock(s, t, l, Code, idle)
    ensures CondWait(s, t, c, l, purpose).Some?
    ensures SleepsOnCond(s, CondWait(s, t, c, l, purpose).value, t, c, l, purpose)
  {
    hide Consistent, Unlock, Sleep, Moved, LetGo, OnlyLock, WokenRun, Dispatched, Good, MayUnlock;
    var p := CondAsleep(c, l, purpose);
    UnlockEffect(s, t, l, Code, p, idle);
    var s1 := UnlockKeeps(s, t, l, Code, idle);
    NotIdle(s, t, l, idle);
    SameSched(s, t, l, p, idle);
    GoodScheduler(s1, idle);
    StepChanges(s1.sched, SleepCurrent, idle);
  }

  lemma SameSched(s: Sys, t: TaskId, l: LockId, next: Pc, idle: TaskId)
    requires Unlock(s, t, l, Code).Some? && Unlock(s, t, l, next).Some?
    ensures Unlock(s, t, l, Code).value.sched == Unlock(s, t, l, next).value.sched
  {
    hide WakeAll, WakePcs;
  }

  lemma GoodScheduler(s: Sys, idle: TaskId)
    requires Consistent(s, idle)
    ensures Good(s.sched, idle)
  {
  }

  predicate IsJoin(a: Action)
  {
    a.JoinAction? || a.CheckAction? || a.JoinWaitAction? || a.LeaveAction?
  }

  predicate IsExit(a: Action)
  {
    a.ExitAction? || a.SetAction? || a.NotifyExitAction? || a.ReleaseAction? || a.FinishAction?
  }

  /** Every enabled step does what `Effect` says. */
  lemma StepEffect(s: Sys, a: Action, idle: TaskId)
    requires Consistent(s, idle) && Enabled(s, a, idle)
    ensures Next(s, a).Some? && Effect(s, a, Next(s, a).value)
  {
    hide *;
    if IsJoin(a) {
      JoinEffect(s, a, idle);
    } else if IsExit(a) {
      ExitEffect(s, a, idle);
    } else {
      UserEffect(s, a, idle);
    }
  }

  lemma UserEffect(s: Sys, a: Action, idle: TaskId)
    requires Consistent(s, idle) && Enabled(s, a, idle) && !IsJoin(a) && !IsExit(a)
    ensures Next(s, a).Some? && Effect(s, a, Next(s, a).value)
  {
    hide Consistent, Lock, Unlock, CondWait, NotifyAll, TimerTick, Spawn, ExitCurrent, TriesLock, Unlocks, SleepsOnCond,
      Notifies, Changes, TaskFits, Asleep, SaidDead, Good;
    var t := s.sched.current.value;
    CurrentFacts(s, t, idle);
    GoodScheduler(s, idle);
    match a
    case TickAction => StepChanges(s.sched, Tick, idle);
    case SpawnAction(u) => SpawnEffect(s, u, idle);
    case LockAction(l) => LockEffect(s, t, l, User, idle);
    case RetryAction =>
      RetryFits(t, s.pc[t], s.held[t]);
      LockEffect(s, t, s.pc[t].lock, s.pc[t].purpose, idle);
    case UnlockAction(l) => UnlockEffect(s, t, l, Code, Code, idle);
    case WaitAction(c, l) => CondWaitEffect(s, t, c, l, User, idle);
    case NotifyAction(c) => NotifyEffect(s, t, c, Code, idle);
  }

  lemma JoinEffect(s: Sys, a: Action, idle: TaskId)
    requires Consistent(s, idle) && Enabled(s, a, idle) && IsJoin(a)
    ensures Next(s, a).Some? && Effect(s, a, Next(s, a).value)
  {
    hide Consistent, Lock, Unlock, CondWait, NotifyAll, TimerTick, Spawn, ExitCurrent, TriesLock, Unlocks, SleepsOnCond,
      Notifies, Changes, TaskFits, Asleep, SaidDead, Good;
    var t := s.sched.current.value;
    CurrentFacts(s, t, idle);
    HoldingFacts(s, t);
    match a
    case JoinAction(k) => LockEffect(s, t, MonitorLock(k), Join(k), idle);
    case CheckAction =>
    case JoinWaitAction =>
      var k := s.pc[t].target;
      CondWaitEffect(s, t, MonitorCond(k), MonitorLock(k), Join(k), idle);
    case LeaveAction => UnlockEffect(s, t, MonitorLock(s.pc[t].target), Code, Code, idle);
  }

  lemma ExitEffect(s: Sys, a: Action, idle: TaskId)
    requires Consistent(s, idle) && Enabled(s, a, idle) && IsExit(a)
    ensures Next(s, a).Some? && Effect(s, a, Next(s, a).value)
  {
    hide Consistent, Lock, Unlock, CondWait, NotifyAll, TimerTick, Spawn, ExitCurrent, TriesLock, Unlocks, SleepsOnCond,
      Notifies, Changes, TaskFits, Asleep, SaidDead, Good;
    var t := s.sched.current.value;
    CurrentFacts(s, t, idle);
    HoldingFacts(s, t);
    match a
    case ExitAction => LockEffect(s, t, MonitorLock(t), Exiting, idle);
    case SetAction =>
    case NotifyExitAction => NotifyEffect(s, t, MonitorCond(t), Unlocking, idle);
    case ReleaseAction => UnlockEffect(s, t, MonitorLock(t), Finishing, Finishing, idle);
    case FinishAction =>
      GoodScheduler(s, idle);
      StepChanges(s.sched, Exit, idle);
  }

  lemma RetryFits(t: TaskId, p: Pc, locks: set<LockId>)
    requires TaskFits(t, p, locks) && p.Trying?
    ensures Fits(t, p.lock, p.purpose) && (p.purpose.Exiting? ==> locks == {})
  {
  }

  lemma SpawnEffect(s: Sys, u: TaskId, idle: TaskId)
    requires Consistent(s, idle) && u !in s.pc
    ensures Spawn(s.sched, u).Ok? && Changes(s.sched, New(u), Spawn(s.sched, u).state)
  {
    StepChanges(s.sched, New(u), idle);
  }

  // ---- what the steps mean for the tasks ----

  /** The task slept for the lock, and is ready, in the queue and trying for it now. */
  ghost predicate Retries(s: Sys, s': Sys, u: TaskId, l: LockId)
  {
    && u in s.pc && u in s'.pc && Asleep(s.pc[u]) && s.pc[u].lock == l && s'.pc[u] == Trying(l, s.pc[u].purpose)
    && u in s'.sched.run && s'.sched.run[u] == Ready && u in s'.sched.queue
  }

  lemma WaitersRetry(s: Sys, s': Sys, t: TaskId, l: LockId, next: Pc, idle: TaskId, u: TaskId)
    requires Consistent(s, idle) && s.sched.current == Some(t)
    requires Moved(s.pc, s'.pc, t, next, MutexOf(s.mutexes, l).waiters)
    requires Queued(s.sched, s'.sched, MutexOf(s.mutexes, l).waiters)
    requires u in MutexOf(s.mutexes, l).waiters
    ensures u != t && Retries(s, s', u, l)
  {
    hide SleepersMatch, OwnersMatch, PcsFit, LivesFit, Good;
    assert WaitsFor(s.pc, u, l);
    CurrentFacts(s, t, idle);
  }

  /** An unlock, of a user or at the end of a wait for completion, frees the lock and sets all its waiters going. */
  lemma UnlockReleases(s: Sys, a: Action, l: LockId, idle: TaskId)
    requires Consistent(s, idle) && Enabled(s, a, idle)
    requires a == UnlockAction(l) || (a.LeaveAction? && l == MonitorLock(s.pc[s.sched.current.value].target))
    ensures Next(s, a).Some?
    ensures var s', t := Next(s, a).value, s.sched.current.value;
            && MutexOf(s'.mutexes, l) == Mutex(false, []) && l !in s'.owner
            && (forall u :: u in s'.held ==> l !in s'.held[u])
            && t in s'.pc && s'.pc[t] == Code && s'.sched.current == Some(t)
            && (forall u :: u in MutexOf(s.mutexes, l).waiters ==> Retries(s, s', u, l))
            && (forall u :: u in s.pc && u != t && u !in MutexOf(s.mutexes, l).waiters ==>
                  u in s'.pc && s'.pc[u] == s.pc[u])
            && (forall k :: k != l ==> MutexOf(s'.mutexes, k) == MutexOf(s.mutexes, k))
            && s'.conds == s.conds && s'.dead == s.dead
  {
    hide Consistent, Next, Enabled, Queued, Retries;
    StepEffect(s, a, idle);
    EnabledAt(s, a, idle);
    var s', t := Next(s, a).value, s.sched.current.value;
    assert Unlocks(s, s', t, l, Code);
    SameCurrent(s, s', MutexOf(s.mutexes, l).waiters);
    forall u | u in MutexOf(s.mutexes, l).waiters
      ensures Retries(s, s', u, l)
    {
      WaitersRetry(s, s', t, l, Code, idle, u);
    }
  }

  lemma EnabledAt(s: Sys, a: Action, idle: TaskId)
    requires Enabled(s, a, idle)
    ensures s.sched.current.Some? && s.sched.current.value in s.pc
    ensures a.LeaveAction? ==> s.pc[s.sched.current.value].Leaving?
    ensures a.JoinWaitAction? ==> s.pc[s.sched.current.value].Waiting?
  {
  }

  lemma SameCurrent(s: Sys, s': Sys, tasks: seq<TaskId>)
    requires Queued(s.sched, s'.sched, tasks)
    ensures s'.sched.current == s.sched.current
  {
  }

  /** Waiting on a condition variable frees the lock in the same step that puts the task to sleep on it. */
  lemma WaitReleases(s: Sys, c: CondId, l: LockId, idle: TaskId)
    requires Consistent(s, idle) && Enabled(s, WaitAction(c, l), idle)
    ensures Next(s, WaitAction(c, l)).Some?
    ensures var s', t := Next(s, WaitAction(c, l)).value, s.sched.current.value;
            && MutexOf(s'.mutexes, l) == Mutex(false, []) && l !in s'.owner
            && (forall u :: u in s'.held ==> l !in s'.held[u])
            && t in s'.pc && s'.pc[t] == CondAsleep(c, l, User) && SleepersOf(s'.conds, c) == SleepersOf(s.conds, c) + [t]
            && t in s'.sched.run && s'.sched.run[t] == Sleeping && s'.sched.current != Some(t)
            && (forall u :: u in MutexOf(s.mutexes, l).waiters ==>
                  && u in s.pc && u in s'.pc && WaitsFor(s.pc, u, l) && s'.pc[u] == Trying(l, s.pc[u].purpose)
                  && u in s'.sched.run && s'.sched.run[u] != Sleeping)
            && (forall u :: u in s.pc && u != t && u !in MutexOf(s.mutexes, l).waiters ==>
                  u in s'.pc && s'.pc[u] == s.pc[u])
            && (forall k :: k != l ==> MutexOf(s'.mutexes, k) == MutexOf(s.mutexes, k))
            && (forall k :: k != c ==> SleepersOf(s'.conds, k) == SleepersOf(s.conds, k))
            && s'.dead == s.dead
  {
    hide Consistent, Next, Enabled, Moved, LetGo, OnlyLock;
    StepEffect(s, WaitAction(c, l), idle);
    EnabledAt(s, WaitAction(c, l), idle);
    var s', t := Next(s, WaitAction(c, l)).value, s.sched.current.value;
    assert SleepsOnCond(s, s', t, c, l, User);
    OnlyLockFacts(s, s', l, Mutex(false, []));
    LetGoFacts(s, s', t, l);
    MovedFacts(s, s', t, CondAsleep(c, l, User), MutexOf(s.mutexes, l).waiters);
    CurrentIsNotQueued(s, t, l, idle);
  }

  lemma OnlyLockFacts(s: Sys, s': Sys, l: LockId, m: Mutex)
    requires OnlyLock(s.mutexes, s'.mutexes, l, m)
    ensures MutexOf(s'.mutexes, l) == m && forall k :: k != l ==> MutexOf(s'.mutexes, k) == MutexOf(s.mutexes, k)
  {
  }

  lemma LetGoFacts(s: Sys, s': Sys, t: TaskId, l: LockId)
    requires LetGo(s.held, s'.held, s.owner, s'.owner, t, l)
    ensures l !in s'.owner && forall u :: u in s'.held ==> l !in s'.held[u]
  {
  }

  lemma MovedFacts(s: Sys, s': Sys, t: TaskId, next: Pc, woken: seq<TaskId>)
    requires Moved(s.pc, s'.pc, t, next, woken)
    ensures t in s'.pc && s'.pc[t] == next
    ensures forall u :: u in s.pc && u != t && u in woken ==>
              u in s'.pc && Asleep(s.pc[u]) && s'.pc[u] == Trying(s.pc[u].lock, s.pc[u].purpose)
    ensures forall u :: u in s.pc && u != t && u !in woken ==> u in s'.pc && s'.pc[u] == s.pc[u]
  {
  }

  lemma CurrentIsNotQueued(s: Sys, t: TaskId, l: LockId, idle: TaskId)
    requires Consistent(s, idle) && s.sched.current == Some(t)
    ensures t in s.sched.run && t !in s.sched.queue + MutexOf(s.mutexes, l).waiters
    ensures forall u :: u in MutexOf(s.mutexes, l).waiters ==> u in s.sched.run && u != t && WaitsFor(s.pc, u, l)
  {
    hide SleepersMatch, OwnersMatch, PcsFit, LivesFit;
    CurrentFacts(s, t, idle);
    forall u | u in MutexOf(s.mutexes, l).waiters
      ensures u in s.sched.run && u != t && WaitsFor(s.pc, u, l)
    {
      assert WaitsFor(s.pc, u, l);
    }
  }

  /** A notification sets every task that sleeps on the condition variable going, and touches no lock. */
  lemma NotifyReleases(s: Sys, c: CondId, idle: TaskId)
    requires Consistent(s, idle) && Enabled(s, NotifyAction(c), idle)
    ensures Next(s, NotifyAction(c)).Some?
    ensures var s', t := Next(s, NotifyAction(c)).value, s.sched.current.value;
            && SleepersOf(s'.conds, c) == [] && s'.mutexes == s.mutexes && s'.held == s.held && s'.owner == s.owner
            && t in s'.pc && s'.pc[t] == Code && s'.sched.current == Some(t)
            && (forall u :: u in s.pc && s.pc[u].CondAsleep? && s.pc[u].cond == c ==> Retries(s, s', u, s.pc[u].lock))
            && (forall u :: u in s.pc && u != t && u !in SleepersOf(s.conds, c) ==> u in s'.pc && s'.pc[u] == s.pc[u])
            && (forall k :: k != c ==> SleepersOf(s'.conds, k) == SleepersOf(s.conds, k))
  {
    hide Consistent, Next, Enabled, Queued, Retries;
    StepEffect(s, NotifyAction(c), idle);
    EnabledAt(s, NotifyAction(c), idle);
    var s', t := Next(s, NotifyAction(c)).value, s.sched.current.value;
    assert Notifies(s, s', t, c, Code);
    SameCurrent(s, s', SleepersOf(s.conds, c));
    forall u | u in s.pc && s.pc[u].CondAsleep? && s.pc[u].cond == c
      ensures Retries(s, s', u, s.pc[u].lock)
    {
      SleepersRetry(s, s', t, c, Code, idle, u);
    }
  }

  lemma SleepersRetry(s: Sys, s': Sys, t: TaskId, c: CondId, next: Pc, idle: TaskId, u: TaskId)
    requires Consistent(s, idle) && s.sched.current == Some(t)
    requires Moved(s.pc, s'.pc, t, next, SleepersOf(s.conds, c)) && Queued(s.sched, s'.sched, SleepersOf(s.conds, c))
    requires u in s.pc && s.pc[u].CondAsleep? && s.pc[u].cond == c
    ensures Retries(s, s', u, s.pc[u].lock)
  {
    hide WaitersMatch, OwnersMatch, PcsFit, LivesFit, Good;
    assert WaitsOn(s.pc, u, c);
    CurrentFacts(s, t, idle);
  }
}

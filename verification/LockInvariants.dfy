/**
 Every step of the lock protocol keeps its invariant and never panics.
 */
module LockInvariants {
  import opened Options
  import opened Scheduler
  import opened Locks

  // ---- what the scheduler's part of a step changes ----

  /** The same tasks, of which those in `down` fall asleep and those in `up` wake. */
  ghost predicate SameBut(run: map<TaskId, RunState>, run': map<TaskId, RunState>, down: set<TaskId>, up: seq<TaskId>)
  {
    && run'.Keys == run.Keys
    && forall u :: u in run ==> (run'[u] == Sleeping <==> u in down || (run[u] == Sleeping && u !in up))
  }

  lemma SleepFacts(s: State, idle: TaskId)
    requires Good(s, idle) && s.current.Some? && s.current.value != idle
    ensures Sleep(s).Ok?
    ensures var s' := Sleep(s).state;
            Good(s', idle) && s'.current.Some? && SameBut(s.run, s'.run, {s.current.value}, [])
  {
    SleepKeeps(s, idle);
    assert s.queue[0] in s.queue;
  }

  lemma WakeFacts(s: State, idle: TaskId, tasks: seq<TaskId>)
    requires Good(s, idle) && NoDuplicates(tasks) && AllSleeping(s.run, tasks)
    ensures WakeAll(s, tasks).Ok?
    ensures var s' := WakeAll(s, tasks).state;
            Good(s', idle) && s'.current == s.current && SameBut(s.run, s'.run, {}, tasks)
  {
    WakeAllSleeping(s, tasks);
  }

  lemma TickFacts(s: State, idle: TaskId)
    requires Good(s, idle) && s.current.Some?
    ensures TimerTick(s).Ok?
    ensures var s' := TimerTick(s).state;
            Good(s', idle) && s'.current.Some? && SameBut(s.run, s'.run, {}, [])
  {
    var task := s.current.value;
    RequeueKeeps(s, task);
    TickDispatches(s, task);
    DispatchKeeps(Requeued(s, task));
    TickKeeps(s, idle);
    assert (s.queue + [task])[0] in s.queue + [task];
  }

  lemma SpawnFacts(s: State, idle: TaskId, u: TaskId)
    requires Good(s, idle) && u !in s.run
    ensures Spawn(s, u).Ok?
    ensures var s' := Spawn(s, u).state;
            Good(s', idle) && s'.current == s.current && s'.run == s.run[u := Ready]
  {
    StepKeeps(s, New(u), idle);
  }

  lemma ExitFacts(s: State, idle: TaskId)
    requires Good(s, idle) && s.current.Some? && s.current.value != idle
    ensures ExitCurrent(s).Ok?
    ensures var s' := ExitCurrent(s).state;
            && Good(s', idle) && s'.current.Some?
            && SameBut(s.run - {s.current.value}, s'.run, {}, [])
  {
    ExitKeeps(s, idle);
    assert s.queue[0] in s.queue;
  }

  // ---- the current task ----

  lemma CurrentFacts(s: Sys, t: TaskId, idle: TaskId)
    requires Consistent(s, idle) && s.sched.current == Some(t)
    ensures t in s.sched.run && t in s.pc && t in s.held && s.sched.run[t] == Running
    ensures !Asleep(s.pc[t]) && TaskFits(t, s.pc[t], s.held[t])
    ensures t in s.dead <==> SaidDead(s.pc[t])
    ensures s.pc[t].Waiting? ==> s.pc[t].target !in s.dead
    ensures t == idle ==> s.pc[t] == Code && s.held[t] == {}
  {
    assert Good(s.sched, idle);
  }

  // ---- a task moves on without falling asleep ----

  lemma MoveKeepsSleeping(run: map<TaskId, RunState>, pc: map<TaskId, Pc>, t: TaskId, p: Pc)
    requires SleepingMatches(run, pc) && t in pc && !Asleep(pc[t]) && !Asleep(p)
    ensures SleepingMatches(run, pc[t := p])
  {
  }

  lemma MoveKeepsWaiters(mutexes: map<LockId, Mutex>, pc: map<TaskId, Pc>, mutexes': map<LockId, Mutex>, t: TaskId,
                         p: Pc)
    requires WaitersMatch(mutexes, pc) && t in pc && !pc[t].LockAsleep? && !p.LockAsleep?
    requires forall l :: MutexOf(mutexes', l).waiters == MutexOf(mutexes, l).waiters
    ensures WaitersMatch(mutexes', pc[t := p])
  {
    forall l, u
      ensures WaitsFor(pc[t := p], u, l) <==> WaitsFor(pc, u, l)
    {
    }
  }

  lemma MoveKeepsSleepers(conds: map<CondId, seq<TaskId>>, pc: map<TaskId, Pc>, t: TaskId, p: Pc)
    requires SleepersMatch(conds, pc) && t in pc && !pc[t].CondAsleep? && !p.CondAsleep?
    ensures SleepersMatch(conds, pc[t := p])
  {
    forall c, u
      ensures WaitsOn(pc[t := p], u, c) <==> WaitsOn(pc, u, c)
    {
    }
  }

  lemma MoveKeepsLives(pc: map<TaskId, Pc>, dead: set<TaskId>, conds: map<CondId, seq<TaskId>>, t: TaskId, p: Pc)
    requires LivesFit(pc, dead, conds) && t in pc
    requires (SaidDead(p) <==> t in dead) && (pc[t].Notifying? ==> SleepersOf(conds, MonitorCond(t)) == [])
    requires (p.Waiting? ==> p.target !in dead) && (p.Leaving? ==> p.target in dead)
    ensures LivesFit(pc[t := p], dead, conds)
  {
  }

  lemma MoveKeepsPcs(pc: map<TaskId, Pc>, held: map<TaskId, set<LockId>>, t: TaskId, p: Pc, locks: set<LockId>)
    requires PcsFit(pc, held) && TaskFits(t, p, locks)
    ensures PcsFit(pc[t := p], held[t := locks])
  {
  }

  /** A move that changes neither locks nor lists. */
  lemma MoveKeeps(s: Sys, t: TaskId, p: Pc, idle: TaskId)
    requires Consistent(s, idle) && s.sched.current == Some(t) && t != idle && t in s.pc && t in s.held
    requires !Asleep(p) && TaskFits(t, p, s.held[t])
    requires (SaidDead(p) <==> t in s.dead) && !s.pc[t].Notifying?
    requires (p.Waiting? ==> p.target !in s.dead) && (p.Leaving? ==> p.target in s.dead)
    ensures Consistent(s.(pc := s.pc[t := p]), idle)
  {
    hide SleepingMatches, WaitersMatch, SleepersMatch, OwnersMatch, PcsFit, LivesFit, Good, TaskFits;
    CurrentFacts(s, t, idle);
    MoveKeepsSleeping(s.sched.run, s.pc, t, p);
    MoveKeepsWaiters(s.mutexes, s.pc, s.mutexes, t, p);
    MoveKeepsSleepers(s.conds, s.pc, t, p);
    MoveKeepsLives(s.pc, s.dead, s.conds, t, p);
    MoveKeepsPcs(s.pc, s.held, t, p, s.held[t]);
    assert s.held[t := s.held[t]] == s.held;
  }

  // ---- taking a lock ----

  function Taken(s: Sys, t: TaskId, l: LockId, purpose: Purpose): Sys
  {
    s.(mutexes := s.mutexes[l := Mutex(true, MutexOf(s.mutexes, l).waiters)],
       pc := s.pc[t := After(purpose)], held := s.held[t := HeldBy(s.held, t) + {l}], owner := s.owner[l := t])
  }

  lemma TakenKeepsOwners(mutexes: map<LockId, Mutex>, held: map<TaskId, set<LockId>>, owner: map<LockId, TaskId>,
                         t: TaskId, l: LockId)
    requires OwnersMatch(mutexes, held, owner) && t in held && !MutexOf(mutexes, l).isLocked
    ensures OwnersMatch(mutexes[l := Mutex(true, MutexOf(mutexes, l).waiters)], held[t := held[t] + {l}], owner[l := t])
  {
    var mutexes' := mutexes[l := Mutex(true, MutexOf(mutexes, l).waiters)];
    var held', owner' := held[t := held[t] + {l}], owner[l := t];
    forall u, k | u in held'
      ensures k in held'[u] <==> k in owner' && owner'[k] == u
    {
      assert l in held[u] ==> l in owner;
    }
    forall k
      ensures MutexOf(mutexes', k).isLocked <==> k in owner'
      ensures k in owner' ==> owner'[k] in held'
      ensures MutexOf(mutexes', k).waiters != [] ==> MutexOf(mutexes', k).isLocked
    {
      assert k != l ==> MutexOf(mutexes', k) == MutexOf(mutexes, k);
    }
  }

  lemma TakenFits(t: TaskId, p: Pc, locks: set<LockId>, l: LockId, purpose: Purpose)
    requires TaskFits(t, p, locks) && MonitorAt(t, p) == {} && Fits(t, l, purpose)
    requires purpose.Exiting? ==> locks == {}
    ensures TaskFits(t, After(purpose), locks + {l})
  {
  }

  lemma TakenKeeps(s: Sys, t: TaskId, l: LockId, purpose: Purpose, idle: TaskId)
    requires Consistent(s, idle) && s.sched.current == Some(t) && t != idle && t in s.pc
    requires !MutexOf(s.mutexes, l).isLocked && Fits(t, l, purpose)
    requires s.pc[t] == Code || s.pc[t] == Trying(l, purpose)
    requires purpose.Exiting? ==> HeldBy(s.held, t) == {}
    ensures Consistent(Taken(s, t, l, purpose), idle)
  {
    hide SleepingMatches, WaitersMatch, SleepersMatch, OwnersMatch, PcsFit, LivesFit, Good, TaskFits;
    var s', p := Taken(s, t, l, purpose), After(purpose);
    CurrentFacts(s, t, idle);
    TakenFits(t, s.pc[t], s.held[t], l, purpose);
    MoveKeepsSleeping(s.sched.run, s.pc, t, p);
    MoveKeepsWaiters(s.mutexes, s.pc, s'.mutexes, t, p);
    MoveKeepsSleepers(s.conds, s.pc, t, p);
    MoveKeepsLives(s.pc, s.dead, s.conds, t, p);
    TakenKeepsOwners(s.mutexes, s.held, s.owner, t, l);
    MoveKeepsPcs(s.pc, s.held, t, p, s.held[t] + {l});
  }

  // ---- falling asleep ----

  lemma FallKeepsSleeping(run: map<TaskId, RunState>, run': map<TaskId, RunState>, pc: map<TaskId, Pc>, t: TaskId,
                          p: Pc)
    requires SleepingMatches(run, pc) && SameBut(run, run', {t}, []) && Asleep(p)
    ensures SleepingMatches(run', pc[t := p])
  {
  }

  lemma BlockedKeepsWaiters(mutexes: map<LockId, Mutex>, pc: map<TaskId, Pc>, t: TaskId, l: LockId, purpose: Purpose)
    requires WaitersMatch(mutexes, pc) && t in pc && !Asleep(pc[t])
    ensures WaitersMatch(mutexes[l := Mutex(true, MutexOf(mutexes, l).waiters + [t])], pc[t := LockAsleep(l, purpose)])
  {
    var mutexes', pc' := mutexes[l := Mutex(true, MutexOf(mutexes, l).waiters + [t])], pc[t := LockAsleep(l, purpose)];
    assert !WaitsFor(pc, t, l);
    forall k, u
      ensures u in MutexOf(mutexes', k).waiters <==> WaitsFor(pc', u, k)
    {
      assert u in MutexOf(mutexes, k).waiters <==> WaitsFor(pc, u, k);
    }
    forall k
      ensures NoDuplicates(MutexOf(mutexes', k).waiters)
    {
      assert NoDuplicates(MutexOf(mutexes, k).waiters);
    }
  }

  lemma BlockedKeepsOwners(mutexes: map<LockId, Mutex>, held: map<TaskId, set<LockId>>, owner: map<LockId, TaskId>,
                           l: LockId, waiters: seq<TaskId>)
    requires OwnersMatch(mutexes, held, owner) && MutexOf(mutexes, l).isLocked
    ensures OwnersMatch(mutexes[l := Mutex(true, waiters)], held, owner)
  {
    var mutexes' := mutexes[l := Mutex(true, waiters)];
    forall k
      ensures MutexOf(mutexes', k).isLocked <==> k in owner
      ensures MutexOf(mutexes', k).waiters != [] ==> MutexOf(mutexes', k).isLocked
    {
      assert MutexOf(mutexes, k).isLocked <==> k in owner;
    }
  }

  function Blocked(s: Sys, sched: State, t: TaskId, l: LockId, purpose: Purpose): Sys
  {
    s.(sched := sched, mutexes := s.mutexes[l := Mutex(true, MutexOf(s.mutexes, l).waiters + [t])],
       pc := s.pc[t := LockAsleep(l, purpose)])
  }

  lemma BlockedKeeps(s: Sys, t: TaskId, l: LockId, purpose: Purpose, idle: TaskId)
    requires Consistent(s, idle) && s.sched.current == Some(t) && t != idle && t in s.pc
    requires MutexOf(s.mutexes, l).isLocked && Fits(t, l, purpose)
    requires s.pc[t] == Code || s.pc[t] == Trying(l, purpose)
    requires purpose.Exiting? ==> HeldBy(s.held, t) == {}
    ensures Sleep(s.sched).Ok? && Consistent(Blocked(s, Sleep(s.sched).state, t, l, purpose), idle)
  {
    hide SleepingMatches, WaitersMatch, SleepersMatch, OwnersMatch, PcsFit, LivesFit, Good, TaskFits, SameBut, Sleep;
    CurrentFacts(s, t, idle);
    SleepFacts(s.sched, idle);
    SameTasks(s.sched.run, Sleep(s.sched).state.run, {t}, []);
    var s', p := Blocked(s, Sleep(s.sched).state, t, l, purpose), LockAsleep(l, purpose);
    FallKeepsSleeping(s.sched.run, s'.sched.run, s.pc, t, p);
    BlockedKeepsWaiters(s.mutexes, s.pc, t, l, purpose);
    MoveKeepsSleepers(s.conds, s.pc, t, p);
    MoveKeepsLives(s.pc, s.dead, s.conds, t, p);
    BlockedKeepsOwners(s.mutexes, s.held, s.owner, l, s'.mutexes[l].waiters);
    StaysFitting(t, s.pc[t], p, s.held[t], purpose);
    MoveKeepsPcs(s.pc, s.held, t, p, s.held[t]);
    assert s.held[t := s.held[t]] == s.held;
  }

  lemma SameTasks(run: map<TaskId, RunState>, run': map<TaskId, RunState>, down: set<TaskId>, up: seq<TaskId>)
    requires SameBut(run, run', down, up)
    ensures run'.Keys == run.Keys
  {
  }

  /** A task without a monitor may go on to wait for one, or for a user's lock. */
  lemma StaysFitting(t: TaskId, p: Pc, p': Pc, locks: set<LockId>, purpose: Purpose)
    requires TaskFits(t, p, locks) && MonitorAt(t, p) == {} && PcFits(t, p') && MonitorAt(t, p') == {}
    requires (p'.LockAsleep? && p'.purpose == purpose && (purpose.Exiting? ==> locks == {})) || p'.CondAsleep? || p'.Code?
    ensures TaskFits(t, p', locks)
  {
  }

  lemma DozeKeepsSleepers(conds: map<CondId, seq<TaskId>>, pc: map<TaskId, Pc>, t: TaskId, c: CondId, l: LockId,
                          purpose: Purpose)
    requires SleepersMatch(conds, pc) && t in pc && !Asleep(pc[t])
    ensures SleepersMatch(conds[c := SleepersOf(conds, c) + [t]], pc[t := CondAsleep(c, l, purpose)])
  {
    var conds', pc' := conds[c := SleepersOf(conds, c) + [t]], pc[t := CondAsleep(c, l, purpose)];
    assert !WaitsOn(pc, t, c);
    forall k, u
      ensures u in SleepersOf(conds', k) <==> WaitsOn(pc', u, k)
    {
      assert u in SleepersOf(conds, k) <==> WaitsOn(pc, u, k);
    }
    forall k
      ensures NoDuplicates(SleepersOf(conds', k))
    {
      assert NoDuplicates(SleepersOf(conds, k));
    }
  }

  lemma DozeKeepsLives(pc: map<TaskId, Pc>, dead: set<TaskId>, conds: map<CondId, seq<TaskId>>, t: TaskId,
                       c: CondId, p: Pc)
    requires LivesFit(pc, dead, conds) && t in pc && !SaidDead(pc[t]) && p.CondAsleep?
    requires c.MonitorCond? ==> c.task !in dead
    ensures LivesFit(pc[t := p], dead, conds[c := SleepersOf(conds, c) + [t]])
  {
  }

  function Dozing(s: Sys, sched: State, t: TaskId, c: CondId, l: LockId, purpose: Purpose): Sys
  {
    s.(sched := sched, conds := s.conds[c := SleepersOf(s.conds, c) + [t]], pc := s.pc[t := CondAsleep(c, l, purpose)])
  }

  lemma DozingKeeps(s: Sys, t: TaskId, c: CondId, l: LockId, purpose: Purpose, idle: TaskId)
    requires Consistent(s, idle) && s.sched.current == Some(t) && t != idle && t in s.pc
    requires FitsCond(c, l, purpose) && s.pc[t] == Code
    requires c.MonitorCond? ==> c.task !in s.dead
    ensures Sleep(s.sched).Ok? && Consistent(Dozing(s, Sleep(s.sched).state, t, c, l, purpose), idle)
  {
    hide SleepingMatches, WaitersMatch, SleepersMatch, OwnersMatch, PcsFit, LivesFit, Good, TaskFits, SameBut, Sleep;
    CurrentFacts(s, t, idle);
    SleepFacts(s.sched, idle);
    SameTasks(s.sched.run, Sleep(s.sched).state.run, {t}, []);
    var s', p := Dozing(s, Sleep(s.sched).state, t, c, l, purpose), CondAsleep(c, l, purpose);
    FallKeepsSleeping(s.sched.run, s'.sched.run, s.pc, t, p);
    MoveKeepsWaiters(s.mutexes, s.pc, s.mutexes, t, p);
    DozeKeepsSleepers(s.conds, s.pc, t, c, l, purpose);
    DozeKeepsLives(s.pc, s.dead, s.conds, t, c, p);
    StaysFitting(t, s.pc[t], p, s.held[t], purpose);
    MoveKeepsPcs(s.pc, s.held, t, p, s.held[t]);
    assert s.held[t := s.held[t]] == s.held;
  }

  // ---- waking ----

  ghost predicate AllAsleep(pc: map<TaskId, Pc>, tasks: seq<TaskId>)
  {
    forall t :: t in tasks ==> t in pc && Asleep(pc[t])
  }

  lemma WakeKeepsSleeping(run: map<TaskId, RunState>, run': map<TaskId, RunState>, pc: map<TaskId, Pc>,
                          tasks: seq<TaskId>)
    requires SleepingMatches(run, pc) && SameBut(run, run', {}, tasks) && AllAsleep(pc, tasks)
    ensures SleepingMatches(run', WakePcs(pc, tasks))
  {
  }

  lemma WakeKeepsPcs(pc: map<TaskId, Pc>, held: map<TaskId, set<LockId>>, tasks: seq<TaskId>)
    requires PcsFit(pc, held)
    ensures PcsFit(WakePcs(pc, tasks), held)
  {
    forall t | t in pc && t in held
      ensures TaskFits(t, Awakened(pc[t]), held[t])
    {
      assert TaskFits(t, pc[t], held[t]);
    }
  }

  lemma WakeKeepsLives(pc: map<TaskId, Pc>, dead: set<TaskId>, conds: map<CondId, seq<TaskId>>, tasks: seq<TaskId>)
    requires LivesFit(pc, dead, conds)
    ensures LivesFit(WakePcs(pc, tasks), dead, conds)
  {
  }

  /** Waking the waiters of a lock and clearing its list. */
  lemma UnlockKeepsWaiters(mutexes: map<LockId, Mutex>, pc: map<TaskId, Pc>, l: LockId)
    requires WaitersMatch(mutexes, pc)
    ensures WaitersMatch(mutexes[l := UNLOCKED], WakePcs(pc, MutexOf(mutexes, l).waiters))
    ensures AllAsleep(pc, MutexOf(mutexes, l).waiters) && NoDuplicates(MutexOf(mutexes, l).waiters)
  {
    var tasks, mutexes' := MutexOf(mutexes, l).waiters, mutexes[l := UNLOCKED];
    forall k, u
      ensures u in MutexOf(mutexes', k).waiters <==> WaitsFor(WakePcs(pc, tasks), u, k)
    {
      assert u in MutexOf(mutexes, k).waiters <==> WaitsFor(pc, u, k);
      assert u in tasks <==> WaitsFor(pc, u, l);
    }
    forall k
      ensures NoDuplicates(MutexOf(mutexes', k).waiters)
    {
      assert NoDuplicates(MutexOf(mutexes, k).waiters);
    }
    forall u | u in tasks
      ensures u in pc && Asleep(pc[u])
    {
      assert WaitsFor(pc, u, l);
    }
  }

  lemma UnlockKeepsSleepers(conds: map<CondId, seq<TaskId>>, mutexes: map<LockId, Mutex>, pc: map<TaskId, Pc>,
                            l: LockId)
    requires WaitersMatch(mutexes, pc) && SleepersMatch(conds, pc)
    ensures SleepersMatch(conds, WakePcs(pc, MutexOf(mutexes, l).waiters))
  {
    var tasks := MutexOf(mutexes, l).waiters;
    forall c, u
      ensures WaitsOn(WakePcs(pc, tasks), u, c) <==> WaitsOn(pc, u, c)
    {
      assert u in tasks <==> WaitsFor(pc, u, l);
    }
  }

  lemma UnlockKeepsOwners(mutexes: map<LockId, Mutex>, held: map<TaskId, set<LockId>>, owner: map<LockId, TaskId>,
                          t: TaskId, l: LockId)
    requires OwnersMatch(mutexes, held, owner) && t in held && l in held[t]
    ensures OwnersMatch(mutexes[l := UNLOCKED], held[t := held[t] - {l}], owner - {l})
  {
    var held' := held[t := held[t] - {l}];
    forall u, k | u in held'
      ensures k in held'[u] <==> k in owner - {l} && (owner - {l})[k] == u
    {
      assert k in held[u] <==> k in owner && owner[k] == u;
    }
    var mutexes' := mutexes[l := UNLOCKED];
    forall k
      ensures MutexOf(mutexes', k).isLocked <==> k in owner - {l}
      ensures MutexOf(mutexes', k).waiters != [] ==> MutexOf(mutexes', k).isLocked
    {
      assert MutexOf(mutexes, k).isLocked <==> k in owner;
    }
  }

  /** A task that gives up a lock, and is then where the code after the unlock is. */
  ghost predicate GivesUp(t: TaskId, p: Pc, locks: set<LockId>, l: LockId, next: Pc)
  {
    && l in locks
    && match next
       case Code => p.Leaving? || p.Waiting? || (p.Code? && l.UserLock?)
       case Finishing => p.Unlocking?
       case _ => false
  }

  lemma GivingUpFits(t: TaskId, p: Pc, locks: set<LockId>, l: LockId, next: Pc)
    requires TaskFits(t, p, locks) && GivesUp(t, p, locks, l, next)
    requires p.Leaving? || p.Waiting? ==> l == MonitorLock(p.target)
    requires p.Unlocking? ==> l == MonitorLock(t)
    ensures TaskFits(t, next, locks - {l})
  {
  }

  function Unlocked(s: Sys, sched: State, t: TaskId, l: LockId, next: Pc): Sys
  {
    s.(sched := sched, mutexes := s.mutexes[l := UNLOCKED],
       pc := WakePcs(s.pc, MutexOf(s.mutexes, l).waiters)[t := next],
       held := s.held[t := HeldBy(s.held, t) - {l}], owner := s.owner - {l})
  }

  /** `l` is a lock the current task holds and gives up at this place in the code. */
  ghost predicate MayUnlock(s: Sys, t: TaskId, l: LockId, next: Pc, idle: TaskId)
  {
    && s.sched.current == Some(t) && t != idle && t in s.pc && t in s.held
    && GivesUp(t, s.pc[t], s.held[t], l, next)
    && (s.pc[t].Leaving? || s.pc[t].Waiting? ==> l == MonitorLock(s.pc[t].target))
    && (s.pc[t].Unlocking? ==> l == MonitorLock(t))
  }

  lemma UnlockSide(s: Sys, t: TaskId, l: LockId, next: Pc, idle: TaskId)
    requires Consistent(s, idle) && MayUnlock(s, t, l, next, idle)
    ensures t != idle && t in s.pc && t in s.held && l in s.held[t] && !Asleep(s.pc[t])
    ensures TaskFits(t, next, s.held[t] - {l}) && !Asleep(next) && !next.Waiting? && !next.Leaving?
    ensures !s.pc[t].Notifying? && (SaidDead(next) <==> t in s.dead)
    ensures idle in s.pc && !Asleep(s.pc[idle])
  {
    CurrentFacts(s, t, idle);
    GivingUpFits(t, s.pc[t], s.held[t], l, next);
  }

  lemma UnlockKeepsLists(run: map<TaskId, RunState>, run': map<TaskId, RunState>, mutexes: map<LockId, Mutex>,
                         conds: map<CondId, seq<TaskId>>, pc: map<TaskId, Pc>, t: TaskId, l: LockId, next: Pc)
    requires SleepingMatches(run, pc) && WaitersMatch(mutexes, pc) && SleepersMatch(conds, pc)
    requires SameBut(run, run', {}, MutexOf(mutexes, l).waiters) && t in pc && !Asleep(pc[t]) && !Asleep(next)
    ensures var pc' := WakePcs(pc, MutexOf(mutexes, l).waiters)[t := next];
            SleepingMatches(run', pc') && WaitersMatch(mutexes[l := UNLOCKED], pc') && SleepersMatch(conds, pc')
  {
    hide SleepingMatches, WaitersMatch, SleepersMatch, SameBut, AllAsleep, NoDuplicates, WakePcs;
    var tasks, mutexes' := MutexOf(mutexes, l).waiters, mutexes[l := UNLOCKED];
    var woken := WakePcs(pc, tasks);
    UnlockKeepsWaiters(mutexes, pc, l);
    WakeLeavesOthers(pc, tasks, t);
    WakeKeepsSleeping(run, run', pc, tasks);
    MoveKeepsSleeping(run', woken, t, next);
    MoveKeepsWaiters(mutexes', woken, mutexes', t, next);
    UnlockKeepsSleepers(conds, mutexes, pc, l);
    MoveKeepsSleepers(conds, woken, t, next);
  }

  lemma UnlockedKeeps(s: Sys, sched: State, t: TaskId, l: LockId, next: Pc, idle: TaskId)
    requires Consistent(s, idle) && MayUnlock(s, t, l, next, idle)
    requires Good(sched, idle) && sched.current == Some(t)
    requires SameBut(s.sched.run, sched.run, {}, MutexOf(s.mutexes, l).waiters)
    ensures Consistent(Unlocked(s, sched, t, l, next), idle)
  {
    hide SleepingMatches, WaitersMatch, SleepersMatch, OwnersMatch, PcsFit, LivesFit, Good, TaskFits, SameBut,
      AllAsleep, NoDuplicates, WakePcs, MayUnlock, Asleep, SaidDead;
    UnlockSide(s, t, l, next, idle);
    var tasks := MutexOf(s.mutexes, l).waiters;
    var s', pc' := Unlocked(s, sched, t, l, next), WakePcs(s.pc, tasks);
    SameTasks(s.sched.run, sched.run, {}, tasks);
    UnlockKeepsWaiters(s.mutexes, s.pc, l);
    WakeLeavesOthers(s.pc, tasks, t);
    WakeLeavesOthers(s.pc, tasks, idle);
    UnlockKeepsLists(s.sched.run, sched.run, s.mutexes, s.conds, s.pc, t, l, next);
    WakeKeepsLives(s.pc, s.dead, s.conds, tasks);
    MoveKeepsLives(pc', s.dead, s.conds, t, next);
    UnlockKeepsOwners(s.mutexes, s.held, s.owner, t, l);
    WakeKeepsPcs(s.pc, s.held, tasks);
    MoveKeepsPcs(pc', s.held, t, next, s.held[t] - {l});
  }

  lemma UnlockKeeps(s: Sys, t: TaskId, l: LockId, next: Pc, idle: TaskId) returns (s': Sys)
    requires Consistent(s, idle) && MayUnlock(s, t, l, next, idle)
    ensures Unlock(s, t, l, next) == Some(s') && Consistent(s', idle)
    ensures s'.sched.current == Some(t) && s'.dead == s.dead && t in s'.pc && s'.pc[t] == next && s'.conds == s.conds
  {
    hide SleepingMatches, WaitersMatch, SleepersMatch, OwnersMatch, PcsFit, LivesFit, Good, SameBut, WakeAll,
      AllAsleep, NoDuplicates, WakePcs, GivesUp, MayUnlock, AllSleeping;
    var tasks := MutexOf(s.mutexes, l).waiters;
    UnlockKeepsWaiters(s.mutexes, s.pc, l);
    SleepersAreSleeping(s, idle, tasks);
    WakeFacts(s.sched, idle, tasks);
    CurrentOf(s, t, l, next, idle);
    s' := Unlocked(s, WakeAll(s.sched, tasks).state, t, l, next);
    UnlockedKeeps(s, WakeAll(s.sched, tasks).state, t, l, next, idle);
  }

  lemma CurrentOf(s: Sys, t: TaskId, l: LockId, next: Pc, idle: TaskId)
    requires MayUnlock(s, t, l, next, idle)
    ensures s.sched.current == Some(t)
  {
  }

  lemma SleepersAreSleeping(s: Sys, idle: TaskId, tasks: seq<TaskId>)
    requires Consistent(s, idle) && AllAsleep(s.pc, tasks)
    ensures AllSleeping(s.sched.run, tasks)
  {
  }

  lemma WakeLeavesOthers(pc: map<TaskId, Pc>, tasks: seq<TaskId>, t: TaskId)
    requires AllAsleep(pc, tasks) && t in pc && !Asleep(pc[t])
    ensures WakePcs(pc, tasks).Keys == pc.Keys && WakePcs(pc, tasks)[t] == pc[t]
  {
  }

  /** Waking the sleepers of a condition variable and clearing its list. */
  lemma NotifyKeepsSleepers(conds: map<CondId, seq<TaskId>>, pc: map<TaskId, Pc>, c: CondId)
    requires SleepersMatch(conds, pc)
    ensures SleepersMatch(conds[c := []], WakePcs(pc, SleepersOf(conds, c)))
    ensures AllAsleep(pc, SleepersOf(conds, c)) && NoDuplicates(SleepersOf(conds, c))
  {
    var tasks, conds' := SleepersOf(conds, c), conds[c := []];
    forall k, u
      ensures u in SleepersOf(conds', k) <==> WaitsOn(WakePcs(pc, tasks), u, k)
    {
      assert u in SleepersOf(conds, k) <==> WaitsOn(pc, u, k);
      assert u in tasks <==> WaitsOn(pc, u, c);
    }
    forall k
      ensures NoDuplicates(SleepersOf(conds', k))
    {
      assert NoDuplicates(SleepersOf(conds, k));
    }
    forall u | u in tasks
      ensures u in pc && Asleep(pc[u])
    {
      assert WaitsOn(pc, u, c);
    }
  }

  lemma NotifyKeepsWaiters(conds: map<CondId, seq<TaskId>>, mutexes: map<LockId, Mutex>, pc: map<TaskId, Pc>, c: CondId)
    requires WaitersMatch(mutexes, pc) && SleepersMatch(conds, pc)
    ensures WaitersMatch(mutexes, WakePcs(pc, SleepersOf(conds, c)))
  {
    var tasks := SleepersOf(conds, c);
    forall l, u
      ensures WaitsFor(WakePcs(pc, tasks), u, l) <==> WaitsFor(pc, u, l)
    {
      assert u in tasks <==> WaitsOn(pc, u, c);
    }
  }

  lemma NotifyKeepsLives(pc: map<TaskId, Pc>, dead: set<TaskId>, conds: map<CondId, seq<TaskId>>, c: CondId)
    requires LivesFit(pc, dead, conds)
    ensures LivesFit(pc, dead, conds[c := []])
  {
  }

  function Notified(s: Sys, sched: State, t: TaskId, c: CondId, next: Pc): Sys
  {
    s.(sched := sched, conds := s.conds[c := []], pc := WakePcs(s.pc, SleepersOf(s.conds, c))[t := next])
  }

  ghost predicate MayNotify(s: Sys, t: TaskId, c: CondId, next: Pc, idle: TaskId)
  {
    && s.sched.current == Some(t) && t != idle && t in s.pc && t in s.held
    && ((s.pc[t].Code? && next == Code) || (s.pc[t].Notifying? && next == Unlocking && c == MonitorCond(t)))
  }

  lemma NotifiedKeeps(s: Sys, sched: State, t: TaskId, c: CondId, next: Pc, idle: TaskId)
    requires Consistent(s, idle) && MayNotify(s, t, c, next, idle)
    requires Good(sched, idle) && sched.current == Some(t)
    requires SameBut(s.sched.run, sched.run, {}, SleepersOf(s.conds, c))
    ensures Consistent(Notified(s, sched, t, c, next), idle)
  {
    hide SleepingMatches, WaitersMatch, SleepersMatch, OwnersMatch, PcsFit, LivesFit, Good, TaskFits, SameBut,
      AllAsleep, NoDuplicates, WakePcs;
    CurrentFacts(s, t, idle);
    var tasks := SleepersOf(s.conds, c);
    var s', pc' := Notified(s, sched, t, c, next), WakePcs(s.pc, tasks);
    SameTasks(s.sched.run, sched.run, {}, tasks);
    NotifyKeepsSleepers(s.conds, s.pc, c);
    WakeLeavesOthers(s.pc, tasks, t);
    WakeLeavesOthers(s.pc, tasks, idle);
    WakeKeepsSleeping(s.sched.run, sched.run, s.pc, tasks);
    MoveKeepsSleeping(sched.run, pc', t, next);
    NotifyKeepsWaiters(s.conds, s.mutexes, s.pc, c);
    MoveKeepsWaiters(s.mutexes, pc', s.mutexes, t, next);
    MoveKeepsSleepers(s'.conds, pc', t, next);
    WakeKeepsLives(s.pc, s.dead, s.conds, tasks);
    NotifyKeepsLives(pc', s.dead, s.conds, c);
    MoveKeepsLives(pc', s.dead, s'.conds, t, next);
    WakeKeepsPcs(s.pc, s.held, tasks);
    NotifyingFits(t, s.pc[t], s.held[t], next);
    MoveKeepsPcs(pc', s.held, t, next, s.held[t]);
    assert s.held[t := s.held[t]] == s.held;
  }

  lemma NotifyKeeps(s: Sys, t: TaskId, c: CondId, next: Pc, idle: TaskId) returns (s': Sys)
    requires Consistent(s, idle) && MayNotify(s, t, c, next, idle)
    ensures NotifyAll(s, t, c, next) == Some(s') && Consistent(s', idle) && s'.sched.current == Some(t)
  {
    hide SleepingMatches, WaitersMatch, SleepersMatch, OwnersMatch, PcsFit, LivesFit, Good, SameBut, WakeAll,
      AllAsleep, NoDuplicates, WakePcs, AllSleeping;
    var tasks := SleepersOf(s.conds, c);
    NotifyKeepsSleepers(s.conds, s.pc, c);
    SleepersAreSleeping(s, idle, tasks);
    WakeFacts(s.sched, idle, tasks);
    s' := Notified(s, WakeAll(s.sched, tasks).state, t, c, next);
    NotifiedKeeps(s, WakeAll(s.sched, tasks).state, t, c, next, idle);
  }

  lemma NotifyingFits(t: TaskId, p: Pc, locks: set<LockId>, next: Pc)
    requires TaskFits(t, p, locks)
    requires (p.Code? && next == Code) || (p.Notifying? && next == Unlocking)
    ensures TaskFits(t, next, locks)
  {
  }
}

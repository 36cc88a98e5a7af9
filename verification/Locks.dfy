/**
 The sleeping mutex, the condition variable and the completion monitor of a task, on top of the scheduler,
 as a transition system on one core.

 Every section the source runs with interrupts disabled is one step. A step is taken by the current task,
 or is a timer tick, which may fall between any two steps. Besides the state of the scheduler and of the
 locks the model keeps, for each task, where it is in the code (`pc`) and the locks it holds (`held`), and
 for each lock who took it (`owner`).
 */
module Locks {
  import opened Options
  import opened Scheduler

  /** A lock is a user's, or guards the `live` flag of a task. */
  datatype LockId = UserLock(n: nat) | MonitorLock(task: TaskId)

  datatype CondId = UserCond(n: nat) | MonitorCond(task: TaskId)

  /** Why a task locks: on its own account, to wait for the completion of a task, or to exit. */
  datatype Purpose = User | Join(target: TaskId) | Exiting

  datatype Pc =
    | Code
    | Trying(lock: LockId, purpose: Purpose)
    | LockAsleep(lock: LockId, purpose: Purpose)
    | CondAsleep(cond: CondId, lock: LockId, purpose: Purpose)
    | Checking(target: TaskId)
    | Waiting(target: TaskId)
    | Leaving(target: TaskId)
    | Setting
    | Notifying
    | Unlocking
    | Finishing

  datatype Mutex = Mutex(isLocked: bool, waiters: seq<TaskId>)

  datatype Sys = Sys(
    sched: State,
    mutexes: map<LockId, Mutex>,
    conds: map<CondId, seq<TaskId>>,
    dead: set<TaskId>,
    pc: map<TaskId, Pc>,
    held: map<TaskId, set<LockId>>,
    owner: map<LockId, TaskId>)

  // ---- the locks themselves ----

  const UNLOCKED := Mutex(false, [])

  /** One turn of the loop of `lock`: take the lock, or join its waiters. */
  function TryMutex(m: Mutex, task: TaskId): (Mutex, bool)
  {
    if m.isLocked then (Mutex(true, m.waiters + [task]), false) else (Mutex(true, m.waiters), true)
  }

  function MutexOf(mutexes: map<LockId, Mutex>, l: LockId): Mutex
  {
    if l in mutexes then mutexes[l] else UNLOCKED
  }

  function SleepersOf(conds: map<CondId, seq<TaskId>>, c: CondId): seq<TaskId>
  {
    if c in conds then conds[c] else []
  }

  function HeldBy(held: map<TaskId, set<LockId>>, t: TaskId): set<LockId>
  {
    if t in held then held[t] else {}
  }

  // ---- the steps ----

  predicate Asleep(p: Pc)
  {
    p.LockAsleep? || p.CondAsleep?
  }

  /** Where a task goes on when it holds the lock. */
  function After(purpose: Purpose): Pc
  {
    match purpose
    case User => Code
    case Join(k) => Checking(k)
    case Exiting => Setting
  }

  /** A woken task tries to lock: in `lock`, again; in `wait`, to get the mutex back. */
  function Awakened(p: Pc): Pc
  {
    match p
    case LockAsleep(l, purpose) => Trying(l, purpose)
    case CondAsleep(_, l, purpose) => Trying(l, purpose)
    case _ => p
  }

  function WakePcs(pc: map<TaskId, Pc>, tasks: seq<TaskId>): map<TaskId, Pc>
  {
    map t | t in pc :: if t in tasks then Awakened(pc[t]) else pc[t]
  }

  /** `RawMutex::lock` up to taking the lock or falling asleep. */
  function Lock(s: Sys, t: TaskId, l: LockId, purpose: Purpose): Option<Sys>
  {
    var (m, taken) := TryMutex(MutexOf(s.mutexes, l), t);
    var s1 := s.(mutexes := s.mutexes[l := m]);
    if taken then
      Some(s1.(pc := s.pc[t := After(purpose)], held := s.held[t := HeldBy(s.held, t) + {l}], owner := s.owner[l := t]))
    else
      match Sleep(s.sched)
      case Panicked => None
      case Ok(sched) => Some(s1.(sched := sched, pc := s.pc[t := LockAsleep(l, purpose)]))
  }

  /** `RawMutex::unlock`. */
  function Unlock(s: Sys, t: TaskId, l: LockId, next: Pc): Option<Sys>
  {
    var waiters := MutexOf(s.mutexes, l).waiters;
    match WakeAll(s.sched, waiters)
    case Panicked => None
    case Ok(sched) =>
      Some(s.(sched := sched, mutexes := s.mutexes[l := UNLOCKED],
              pc := WakePcs(s.pc, waiters)[t := next],
              held := s.held[t := HeldBy(s.held, t) - {l}], owner := s.owner - {l}))
  }

  /** `RawCondvar::wait` up to falling asleep. */
  function CondWait(s: Sys, t: TaskId, c: CondId, l: LockId, purpose: Purpose): Option<Sys>
  {
    match Unlock(s, t, l, CondAsleep(c, l, purpose))
    case None => None
    case Some(s1) =>
      match Sleep(s1.sched)
      case Panicked => None
      case Ok(sched) => Some(s1.(sched := sched, conds := s1.conds[c := SleepersOf(s1.conds, c) + [t]]))
  }

  /** `RawCondvar::notify_all`. */
  function NotifyAll(s: Sys, t: TaskId, c: CondId, next: Pc): Option<Sys>
  {
    var sleepers := SleepersOf(s.conds, c);
    match WakeAll(s.sched, sleepers)
    case Panicked => None
    case Ok(sched) =>
      Some(s.(sched := sched, conds := s.conds[c := []], pc := WakePcs(s.pc, sleepers)[t := next]))
  }

  datatype Action =
    | TickAction
    | SpawnAction(task: TaskId)
    | LockAction(lock: LockId)
    | RetryAction
    | UnlockAction(lock: LockId)
    | WaitAction(cond: CondId, lock: LockId)
    | NotifyAction(cond: CondId)
    | JoinAction(target: TaskId)
    | CheckAction
    | JoinWaitAction
    | LeaveAction
    | ExitAction
    | SetAction
    | NotifyExitAction
    | ReleaseAction
    | FinishAction

  /** One step, by the current task unless it is a tick. */
  function Next(s: Sys, a: Action): Option<Sys>
  {
    if s.sched.current.None? || s.sched.current.value !in s.pc then None
    else
      var t := s.sched.current.value;
      var p := s.pc[t];
      match a
      case TickAction =>
        (match TimerTick(s.sched)
         case Panicked => None
         case Ok(sched) => Some(s.(sched := sched)))
      case SpawnAction(u) =>
        (match Spawn(s.sched, u)
         case Panicked => None
         case Ok(sched) => Some(s.(sched := sched, pc := s.pc[u := Code], held := s.held[u := {}])))
      case LockAction(l) => Lock(s, t, l, User)
      case RetryAction => if p.Trying? then Lock(s, t, p.lock, p.purpose) else None
      case UnlockAction(l) => Unlock(s, t, l, Code)
      case WaitAction(c, l) => CondWait(s, t, c, l, User)
      case NotifyAction(c) => NotifyAll(s, t, c, Code)
      case JoinAction(k) => Lock(s, t, MonitorLock(k), Join(k))
      case CheckAction =>
        if !p.Checking? then None
        else Some(s.(pc := s.pc[t := if p.target in s.dead then Leaving(p.target) else Waiting(p.target)]))
      case JoinWaitAction =>
        if p.Waiting? then CondWait(s, t, MonitorCond(p.target), MonitorLock(p.target), Join(p.target)) else None
      case LeaveAction => if p.Leaving? then Unlock(s, t, MonitorLock(p.target), Code) else None
      case ExitAction => Lock(s, t, MonitorLock(t), Exiting)
      case SetAction => Some(s.(dead := s.dead + {t}, pc := s.pc[t := Notifying]))
      case NotifyExitAction => NotifyAll(s, t, MonitorCond(t), Unlocking)
      case ReleaseAction => Unlock(s, t, MonitorLock(t), Finishing)
      case FinishAction =>
        (match ExitCurrent(s.sched)
         case Panicked => None
         case Ok(sched) => Some(s.(sched := sched, pc := s.pc - {t}, held := s.held - {t})))
  }

  /** When the code takes a step: a task at its place in the code, a user unlocks or waits with what it
      holds and touches no monitor but through a task's own operations, task ids are not reused, a task exits
      holding nothing, and the idle task only idles. */
  ghost predicate Enabled(s: Sys, a: Action, idle: TaskId)
  {
    && s.sched.current.Some? && s.sched.current.value in s.pc
    && var t := s.sched.current.value;
       var p := s.pc[t];
       match a
       case TickAction => true
       case SpawnAction(u) => u !in s.pc && u !in s.dead && t != idle && p.Code?
       case LockAction(l) => t != idle && p.Code? && l.UserLock?
       case RetryAction => p.Trying?
       case UnlockAction(l) => p.Code? && l.UserLock? && l in HeldBy(s.held, t)
       case WaitAction(c, l) => p.Code? && l.UserLock? && c.UserCond? && l in HeldBy(s.held, t)
       case NotifyAction(c) => t != idle && p.Code? && c.UserCond?
       case JoinAction(k) => t != idle && p.Code?
       case CheckAction => p.Checking?
       case JoinWaitAction => p.Waiting?
       case LeaveAction => p.Leaving?
       case ExitAction => t != idle && p.Code? && HeldBy(s.held, t) == {}
       case SetAction => p.Setting?
       case NotifyExitAction => p.Notifying?
       case ReleaseAction => p.Unlocking?
       case FinishAction => p.Finishing?
  }

  // ---- the invariant ----

  ghost predicate Scheduled(s: Sys, idle: TaskId)
  {
    && Good(s.sched, idle) && s.sched.current.Some?
    && s.pc.Keys == s.sched.run.Keys && s.held.Keys == s.sched.run.Keys
    && idle in s.pc && s.pc[idle] == Code && s.held[idle] == {}
  }

  /** A task is asleep exactly where the code puts it to sleep. */
  ghost predicate SleepingMatches(run: map<TaskId, RunState>, pc: map<TaskId, Pc>)
  {
    forall t :: t in pc && t in run ==> (run[t] == Sleeping <==> Asleep(pc[t]))
  }

  predicate WaitsFor(pc: map<TaskId, Pc>, t: TaskId, l: LockId)
  {
    t in pc && pc[t].LockAsleep? && pc[t].lock == l
  }

  predicate WaitsOn(pc: map<TaskId, Pc>, t: TaskId, c: CondId)
  {
    t in pc && pc[t].CondAsleep? && pc[t].cond == c
  }

  /** Each waiter list of a lock holds exactly the tasks asleep on it, each once. */
  ghost predicate WaitersMatch(mutexes: map<LockId, Mutex>, pc: map<TaskId, Pc>)
  {
    && (forall l :: NoDuplicates(MutexOf(mutexes, l).waiters))
    && (forall l, t :: t in MutexOf(mutexes, l).waiters <==> WaitsFor(pc, t, l))
  }

  /** So does each waiter list of a condition variable. */
  ghost predicate SleepersMatch(conds: map<CondId, seq<TaskId>>, pc: map<TaskId, Pc>)
  {
    && (forall c :: NoDuplicates(SleepersOf(conds, c)))
    && (forall c, t :: t in SleepersOf(conds, c) <==> WaitsOn(pc, t, c))
  }

  /** A lock is locked exactly when some task holds it, that task is its owner, and only then has it waiters. */
  ghost predicate OwnersMatch(mutexes: map<LockId, Mutex>, held: map<TaskId, set<LockId>>, owner: map<LockId, TaskId>)
  {
    && (forall l :: MutexOf(mutexes, l).isLocked <==> l in owner)
    && (forall l :: l in owner ==> owner[l] in held)
    && (forall t, l :: t in held ==> (l in held[t] <==> l in owner && owner[l] == t))
    && (forall l :: MutexOf(mutexes, l).waiters != [] ==> MutexOf(mutexes, l).isLocked)
  }

  /** The lock a task is after fits its purpose. */
  predicate Fits(t: TaskId, l: LockId, purpose: Purpose)
  {
    match purpose
    case User => l.UserLock?
    case Join(k) => l == MonitorLock(k)
    case Exiting => l == MonitorLock(t)
  }

  predicate FitsCond(c: CondId, l: LockId, purpose: Purpose)
  {
    match purpose
    case User => l.UserLock? && c.UserCond?
    case Join(k) => l == MonitorLock(k) && c == MonitorCond(k)
    case Exiting => false
  }

  /** The monitor a task holds at a place in the code. */
  function MonitorAt(t: TaskId, p: Pc): set<LockId>
  {
    match p
    case Checking(k) => {MonitorLock(k)}
    case Waiting(k) => {MonitorLock(k)}
    case Leaving(k) => {MonitorLock(k)}
    case Setting => {MonitorLock(t)}
    case Notifying => {MonitorLock(t)}
    case Unlocking => {MonitorLock(t)}
    case _ => {}
  }

  predicate PcFits(t: TaskId, p: Pc)
  {
    match p
    case Trying(l, purpose) => Fits(t, l, purpose)
    case LockAsleep(l, purpose) => Fits(t, l, purpose)
    case CondAsleep(c, l, purpose) => FitsCond(c, l, purpose)
    case _ => true
  }

  /** Tasks on their way out hold nothing but their own monitor. */
  predicate ExitsClean(t: TaskId, p: Pc, locks: set<LockId>)
  {
    match p
    case Trying(_, purpose) => purpose.Exiting? ==> locks == {}
    case LockAsleep(_, purpose) => purpose.Exiting? ==> locks == {}
    case Setting => locks == {MonitorLock(t)}
    case Notifying => locks == {MonitorLock(t)}
    case Unlocking => locks == {MonitorLock(t)}
    case Finishing => locks == {}
    case _ => true
  }

  ghost predicate TaskFits(t: TaskId, p: Pc, locks: set<LockId>)
  {
    && PcFits(t, p) && ExitsClean(t, p, locks)
    && (forall k :: MonitorLock(k) in locks <==> MonitorLock(k) in MonitorAt(t, p))
  }

  ghost predicate PcsFit(pc: map<TaskId, Pc>, held: map<TaskId, set<LockId>>)
  {
    forall t :: t in pc && t in held ==> TaskFits(t, pc[t], held[t])
  }

  predicate SaidDead(p: Pc)
  {
    p.Notifying? || p.Unlocking? || p.Finishing?
  }

  /** A task that exits is dead from the moment it says so; no task waits, or is about to wait, for the
      completion of a dead task, except between the two statements of its exit. */
  ghost predicate LivesFit(pc: map<TaskId, Pc>, dead: set<TaskId>, conds: map<CondId, seq<TaskId>>)
  {
    && (forall t :: t in pc ==> (t in dead <==> SaidDead(pc[t])))
    && (forall t :: t in pc && pc[t].Waiting? ==> pc[t].target !in dead)
    && (forall t :: t in pc && pc[t].Leaving? ==> pc[t].target in dead)
    && (forall k :: k in dead && SleepersOf(conds, MonitorCond(k)) != [] ==> k in pc && pc[k].Notifying?)
  }

  ghost predicate Consistent(s: Sys, idle: TaskId)
  {
    && Scheduled(s, idle)
    && SleepingMatches(s.sched.run, s.pc)
    && WaitersMatch(s.mutexes, s.pc)
    && SleepersMatch(s.conds, s.pc)
    && OwnersMatch(s.mutexes, s.held, s.owner)
    && PcsFit(s.pc, s.held)
    && LivesFit(s.pc, s.dead, s.conds)
  }
}

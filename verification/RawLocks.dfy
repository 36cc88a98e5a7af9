/**
 The mutex and the condition variable as objects, updated in place together with the scheduler. Each section
 the source runs with interrupts disabled is a method, proved to do what the step of the transition system
 does to the lock, to the waiters and to the scheduler.
 */
module RawLocks {
  import opened Options
  import opened Scheduler
  import opened Locks
  import opened RoundRobinScheduler

  class RawMutex {
    var isLocked: bool
    var waiters: seq<TaskId>

    constructor ()
      ensures Abs() == UNLOCKED
    {
      isLocked, waiters := false, [];
    }

    ghost function Abs(): Mutex
      reads this
    {
      Mutex(isLocked, waiters)
    }

    /** The object is the lock `l` of a state of the transition system. */
    ghost predicate Is(s: Sys, l: LockId, sched: RoundRobinScheduler)
      reads this, sched
    {
      MutexOf(s.mutexes, l) == Abs() && s.sched == sched.Abs()
    }

    /** `lock`, up to taking the lock or falling asleep. */
    method Lock(sched: RoundRobinScheduler, ghost s: Sys, ghost l: LockId, ghost purpose: Purpose)
        returns (ok: bool, taken: bool)
      requires Is(s, l, sched) && sched.current.Some?
      modifies this, sched
      ensures match Locks.Lock(s, old(sched.current.value), l, purpose)
              case None => !ok
              case Some(next) => ok && Is(next, l, sched) &&
                                 (taken <==> next.pc[old(sched.current.value)] == After(purpose))
    {
      var task := sched.current.value;
      var wasLocked := isLocked;
      isLocked := true;
      if wasLocked {
        waiters := waiters + [task];
        ok := sched.Sleep();
        taken := false;
      } else {
        ok, taken := true, true;
      }
    }

    method Unlock(sched: RoundRobinScheduler, ghost s: Sys, ghost t: TaskId, ghost l: LockId, ghost next: Pc)
        returns (ok: bool)
      requires Is(s, l, sched)
      modifies this, sched
      ensures match Locks.Unlock(s, t, l, next)
              case None => !ok
              case Some(s') => ok && Is(s', l, sched)
    {
      isLocked := false;
      ok := sched.WakeUpAll(waiters);
      waiters := [];
    }
  }

  class RawCondvar {
    var waiters: seq<TaskId>

    constructor ()
      ensures waiters == []
    {
      waiters := [];
    }

    ghost predicate Is(s: Sys, c: CondId)
      reads this
    {
      SleepersOf(s.conds, c) == waiters
    }

    /** `wait`, up to falling asleep; the lock is taken back by another `lock`. */
    method Wait(lock: RawMutex, sched: RoundRobinScheduler, ghost s: Sys, ghost c: CondId, ghost l: LockId,
                ghost purpose: Purpose)
        returns (ok: bool)
      requires Is(s, c) && lock.Is(s, l, sched) && sched.current.Some?
      modifies this, lock, sched
      ensures match CondWait(s, old(sched.current.value), c, l, purpose)
              case None => !ok
              case Some(next) => ok && Is(next, c) && lock.Is(next, l, sched)
    {
      var task := sched.current.value;
      ok := lock.Unlock(sched, s, task, l, CondAsleep(c, l, purpose));
      if !ok {
        return;
      }
      waiters := waiters + [task];
      ok := sched.Sleep();
    }

    method NotifyAll(sched: RoundRobinScheduler, ghost s: Sys, ghost t: TaskId, ghost c: CondId, ghost next: Pc)
        returns (ok: bool)
      requires Is(s, c) && s.sched == sched.Abs()
      modifies this, sched
      ensures match Locks.NotifyAll(s, t, c, next)
              case None => !ok
              case Some(s') => ok && Is(s', c) && s'.sched == sched.Abs()
    {
      ok := sched.WakeUpAll(waiters);
      waiters := [];
    }
  }
}

/**
 The scheduler object. Its methods update the state in place, step by step as the source does, and each is
 proved against the function of the same name.
 */
module RoundRobinScheduler {
  import opened Options
  import opened Scheduler
  import S = Scheduler

  class RoundRobinScheduler {
    var current: Option<TaskId>
    var queue: seq<TaskId>
    var run: map<TaskId, RunState>
    var slice: map<TaskId, nat>

    ghost function Abs(): State
      reads this
    {
      State(current, queue, run, slice)
    }

    /** What a method reports: its new state, or that the source panicked. */
    ghost function Outcome(ok: bool): Result
      reads this
    {
      if ok then Ok(Abs()) else Panicked
    }

    constructor ()
      ensures Abs() == State(None, [], map[], map[])
    {
      current, queue, run, slice := None, [], map[], map[];
    }

    method GetNextSchedulableTask() returns (ok: bool, next: TaskId)
      modifies this`queue
      ensures ok <==> old(queue) != []
      ensures ok ==> next == old(queue)[0] && queue == old(queue)[1..]
    {
      if queue != [] {
        ok, next := true, queue[0];
        queue := queue[1..];
      } else {
        ok, next := false, 0;
      }
    }

    method EnqueueCurrentTaskAsReady()
      requires current.Some? && current.value in run && run[current.value] == Running
      modifies this`queue, this`run
      ensures queue == old(queue) + [current.value] && run == old(run)[current.value := Ready]
    {
      var task := current.value;
      run := run[task := Ready];
      queue := queue + [task];
    }

    method Schedule() returns (ok: bool)
      modifies this
      ensures Outcome(ok) == S.Schedule(old(Abs()))
    {
      if current.Some? && current.value !in run {
        return false;
      }
      if current.Some? && run[current.value] == Running {
        return true;
      }
      var found, next := GetNextSchedulableTask();
      if !found || next !in run || run[next] != Ready {
        return false;
      }
      run := run[next := Running];
      slice := slice[next := UNIT_TIME_SLICE];
      current := Some(next);
      return true;
    }

    method TimerTick() returns (ok: bool)
      modifies this
      ensures Outcome(ok) == S.TimerTick(old(Abs()))
    {
      if current.None? || current.value !in run || current.value !in slice {
        return false;
      }
      var task := current.value;
      if slice[task] == 0 || run[task] != Running {
        return false;
      }
      var before := slice[task];
      slice := slice[task := before - 1];
      if before == 1 {
        EnqueueCurrentTaskAsReady();
        ok := Schedule();
      } else {
        ok := true;
      }
    }

    method Sleep() returns (ok: bool)
      modifies this
      ensures Outcome(ok) == S.Sleep(old(Abs()))
    {
      if current.None? || current.value !in run || run[current.value] != Running {
        return false;
      }
      run := run[current.value := Sleeping];
      ok := Schedule();
    }

    method WakeUp(task: TaskId) returns (ok: bool)
      modifies this
      ensures Outcome(ok) == S.WakeUp(old(Abs()), task)
    {
      if task !in run {
        return false;
      }
      if run[task] == Sleeping {
        run := run[task := Ready];
        queue := queue + [task];
      }
      return true;
    }

    /** `Task::create` followed by `register_new_task`. */
    method Spawn(task: TaskId) returns (ok: bool)
      modifies this
      ensures Outcome(ok) == S.Spawn(old(Abs()), task)
    {
      run, slice := run[task := Ready], slice[task := 0];
      if run[task] == Ready {
        queue := queue + [task];
      }
      return true;
    }

    method RemoveTask(task: TaskId)
      modifies this`current
      ensures current == if old(current) == Some(task) then None else old(current)
    {
      if current == Some(task) {
        current := None;
      }
    }

    /** The end of `Task::exit` and of the thread-exit system call. */
    method ExitCurrent() returns (ok: bool)
      modifies this
      ensures Outcome(ok) == S.ExitCurrent(old(Abs()))
    {
      if current.None? || current.value !in run {
        return false;
      }
      var task := current.value;
      RemoveTask(task);
      run, slice := run - {task}, slice - {task};
      ok := Schedule();
    }

    /** The loops of `unlock` and `notify_all`. */
    method WakeUpAll(tasks: seq<TaskId>) returns (ok: bool)
      modifies this
      ensures Outcome(ok) == WakeAll(old(Abs()), tasks)
    {
      ok := true;
      for i := 0 to |tasks|
        invariant ok && WakeAll(old(Abs()), tasks) == WakeAll(Abs(), tasks[i..])
      {
        assert tasks[i..][0] == tasks[i] && tasks[i..][1..] == tasks[i + 1..];
        ok := WakeUp(tasks[i]);
        if !ok {
          return;
        }
      }
    }
  }
}

/**
 The round-robin scheduler on one core: a current task, a first-in first-out queue of ready tasks, and for
 each task its run state and time slice. The operations are functions on states; `Panicked` is where the
 source panics or fails a debug assertion.
 */
module Scheduler {
  import opened Options

  type TaskId = nat

  datatype RunState = Ready | Running | Sleeping

  /** The domain of `run` is the table of existing tasks. */
  datatype State = State(current: Option<TaskId>, queue: seq<TaskId>, run: map<TaskId, RunState>, slice: map<TaskId, nat>)

  datatype Result = Ok(state: State) | Panicked

  const UNIT_TIME_SLICE: nat := 1

  // ---- operations ----

  /** Run the next task of the queue. */
  function Dispatch(s: State): Result
  {
    if s.queue == [] then Panicked
    else
      var next := s.queue[0];
      if next !in s.run || s.run[next] != Ready then Panicked
      else Ok(State(Some(next), s.queue[1..], s.run[next := Running], s.slice[next := UNIT_TIME_SLICE]))
  }

  function Schedule(s: State): Result
  {
    if s.current.Some? && s.current.value !in s.run then Panicked
    else if s.current.Some? && s.run[s.current.value] == Running then Ok(s)
    else Dispatch(s)
  }

  function TimerTick(s: State): Result
  {
    if s.current.None? || s.current.value !in s.run || s.current.value !in s.slice then Panicked
    else
      var task := s.current.value;
      if s.slice[task] == 0 || s.run[task] != Running then Panicked
      else
        var charged := s.(slice := s.slice[task := s.slice[task] - 1]);
        if s.slice[task] == 1
        then Schedule(charged.(run := charged.run[task := Ready], queue := charged.queue + [task]))
        else Ok(charged)
  }

  function Sleep(s: State): Result
  {
    if s.current.None? || s.current.value !in s.run || s.run[s.current.value] != Running then Panicked
    else Schedule(s.(run := s.run[s.current.value := Sleeping]))
  }

  function WakeUp(s: State, task: TaskId): Result
  {
    if task !in s.run then Panicked
    else if s.run[task] == Sleeping
    then Ok(s.(run := s.run[task := Ready], queue := s.queue + [task]))
    else Ok(s)
  }

  /** Create a task and register it. */
  function Spawn(s: State, task: TaskId): Result
  {
    Ok(s.(run := s.run[task := Ready], slice := s.slice[task := 0], queue := s.queue + [task]))
  }

  /** The current task removes itself from the scheduler and from the task table, and another is run. */
  function ExitCurrent(s: State): Result
  {
    if s.current.None? || s.current.value !in s.run then Panicked
    else Schedule(s.(current := None, run := s.run - {s.current.value}, slice := s.slice - {s.current.value}))
  }

  // ---- the invariant ----

  ghost predicate NoDuplicates(q: seq<TaskId>)
  {
    forall i, j :: 0 <= i < j < |q| ==> q[i] != q[j]
  }

  /** The queue lists the ready tasks, each once; the current task is the only running one and has time left. */
  ghost predicate Inv(s: State)
  {
    && NoDuplicates(s.queue)
    && (forall t :: t in s.queue <==> t in s.run && s.run[t] == Ready)
    && (forall t :: t in s.run && s.run[t] == Running <==> s.current == Some(t))
    && s.slice.Keys == s.run.Keys
    && (forall t :: t in s.run && s.run[t] == Running ==> 0 < s.slice[t] <= UNIT_TIME_SLICE)
  }

  /** The idle task exists and is never asleep. */
  ghost predicate HasIdle(s: State, idle: TaskId)
  {
    idle in s.run && s.run[idle] != Sleeping
  }

  // ---- runs ----

  datatype Event = Boot | Tick | SleepCurrent | Wake(task: TaskId) | New(task: TaskId) | Exit

  function Apply(s: State, e: Event): Result
  {
    match e
    case Boot => Schedule(s)
    case Tick => TimerTick(s)
    case SleepCurrent => Sleep(s)
    case Wake(t) => WakeUp(s, t)
    case New(t) => Spawn(s, t)
    case Exit => ExitCurrent(s)
  }

  /** What the rest of the kernel guarantees: ids are fresh, only existing tasks are woken, the idle task
      neither sleeps nor exits, and a task runs before it can be interrupted, sleep or exit. */
  ghost predicate Allowed(s: State, e: Event, idle: TaskId)
  {
    match e
    case Boot => s.current.None?
    case Tick => s.current.Some?
    case SleepCurrent => s.current.Some? && s.current.value != idle
    case Wake(t) => t in s.run
    case New(t) => t !in s.run
    case Exit => s.current.Some? && s.current.value != idle
  }

  /** Whether an event hands the processor to the next task of the queue. */
  predicate Dispatches(e: Event)
  {
    match e
    case Wake(_) => false
    case New(_) => false
    case _ => true
  }

  /** The queue as the next dispatch finds it: a tick first appends the interrupted task. */
  function QueueAt(s: State, e: Event): seq<TaskId>
  {
    if e.Tick? && s.current.Some? then s.queue + [s.current.value] else s.queue
  }

  /** What a step does to the current task and to the queue. */
  ghost predicate Moves(s: State, e: Event, s': State)
  {
    if Dispatches(e)
    then QueueAt(s, e) != [] && s'.current == Some(QueueAt(s, e)[0]) && s'.queue == QueueAt(s, e)[1..]
    else s'.current == s.current && s.queue <= s'.queue
  }

  /** No task is running, and the rest of the invariant holds. */
  ghost predicate Unoccupied(s: State)
  {
    && NoDuplicates(s.queue)
    && (forall t :: t in s.queue <==> t in s.run && s.run[t] == Ready)
    && (forall t :: t in s.run ==> s.run[t] != Running)
    && s.slice.Keys == s.run.Keys
  }

  lemma DispatchKeeps(s: State)
    requires Unoccupied(s) && s.queue != []
    ensures Dispatch(s).Ok?
    ensures var s' := Dispatch(s).state;
            && Inv(s') && s'.current == Some(s.queue[0]) && s'.queue == s.queue[1..]
            && s'.run == s.run[s.queue[0] := Running]
  {
    var next := s.queue[0];
    assert next in s.queue;
    forall t
      ensures t in s.queue[1..] <==> t in s.queue && t != next
    {
    }
  }

  lemma IdleIsQueued(s: State, idle: TaskId)
    requires Inv(s) && HasIdle(s, idle) && s.current != Some(idle)
    ensures idle in s.queue && s.queue != []
  {
  }

  lemma TickKeeps(s: State, idle: TaskId)
    requires Inv(s) && HasIdle(s, idle) && s.current.Some?
    ensures TimerTick(s).Ok?
    ensures var s' := TimerTick(s).state;
            Inv(s') && HasIdle(s', idle) && Moves(s, Tick, s') && s'.run.Keys == s.run.Keys
  {
    var task := s.current.value;
    assert s.run[task] == Running && s.slice[task] == 1;
    RequeueKeeps(s, task);
    TickDispatches(s, task);
    DispatchKeeps(Requeued(s, task));
  }

  /** The state in which a tick calls the scheduler. */
  function Requeued(s: State, task: TaskId): State
  {
    State(s.current, s.queue + [task], s.run[task := Ready], s.slice[task := 0])
  }

  lemma TickDispatches(s: State, task: TaskId)
    requires s.current == Some(task) && task in s.run && task in s.slice
    requires s.run[task] == Running && s.slice[task] == 1
    ensures TimerTick(s) == Dispatch(Requeued(s, task))
  {
  }

  lemma RequeueKeeps(s: State, task: TaskId)
    requires Inv(s) && s.current == Some(task)
    ensures task in s.run && task in s.slice
    ensures Unoccupied(Requeued(s, task))
  {
  }

  lemma SleepKeeps(s: State, idle: TaskId)
    requires Inv(s) && HasIdle(s, idle) && s.current.Some? && s.current.value != idle
    ensures Sleep(s).Ok?
    ensures var s' := Sleep(s).state;
            && Inv(s') && HasIdle(s', idle) && Moves(s, SleepCurrent, s')
            && s'.run == s.run[s.current.value := Sleeping][s.queue[0] := Running]
  {
    IdleIsQueued(s, idle);
    var asleep := s.(run := s.run[s.current.value := Sleeping]);
    assert Unoccupied(asleep);
    DispatchKeeps(asleep);
  }

  lemma ExitKeeps(s: State, idle: TaskId)
    requires Inv(s) && HasIdle(s, idle) && s.current.Some? && s.current.value != idle
    ensures ExitCurrent(s).Ok?
    ensures var s' := ExitCurrent(s).state;
            && Inv(s') && HasIdle(s', idle) && Moves(s, Exit, s')
            && s'.run == (s.run - {s.current.value})[s.queue[0] := Running]
  {
    IdleIsQueued(s, idle);
    var task := s.current.value;
    GoneKeeps(s, task);
    DispatchKeeps(Gone(s, task));
  }

  /** The state in which an exiting task calls the scheduler. */
  function Gone(s: State, task: TaskId): State
  {
    State(None, s.queue, s.run - {task}, s.slice - {task})
  }

  lemma GoneKeeps(s: State, task: TaskId)
    requires Inv(s) && s.current == Some(task)
    ensures Unoccupied(Gone(s, task)) && task in s.run && task !in s.queue
  {
  }

  lemma AppendKeeps(s: State, t: TaskId, run: map<TaskId, RunState>, slice: map<TaskId, nat>)
    requires Inv(s) && run == s.run[t := Ready] && slice.Keys == run.Keys
    requires forall u :: u in s.slice && u != t ==> slice[u] == s.slice[u]
    requires t !in s.queue && s.current != Some(t)
    ensures Inv(State(s.current, s.queue + [t], run, slice))
  {
  }

  /** Every step keeps the invariant, never panics, and moves the queue as `Moves` says. */
  lemma StepKeeps(s: State, e: Event, idle: TaskId)
    requires Inv(s) && HasIdle(s, idle) && Allowed(s, e, idle)
    ensures Apply(s, e).Ok?
    ensures var s' := Apply(s, e).state;
            Inv(s') && HasIdle(s', idle) && Moves(s, e, s')
  {
    match e
    case Boot =>
      IdleIsQueued(s, idle);
      DispatchKeeps(s);
    case Tick =>
      TickKeeps(s, idle);
    case SleepCurrent =>
      SleepKeeps(s, idle);
    case Wake(t) =>
      if s.run[t] == Sleeping {
        AppendKeeps(s, t, s.run[t := Ready], s.slice);
      }
    case New(t) =>
      AppendKeeps(s, t, s.run[t := Ready], s.slice[t := 0]);
    case Exit =>
      ExitKeeps(s, idle);
  }

  /** The first of `queue` has been given the processor and a new time slice, and nothing else has changed. */
  ghost predicate Dispatched(queue: seq<TaskId>, run: map<TaskId, RunState>, slice: map<TaskId, nat>, s': State)
  {
    && queue != []
    && s' == State(Some(queue[0]), queue[1..], run[queue[0] := Running], slice[queue[0] := UNIT_TIME_SLICE])
  }

  /** What each event does: a tick requeues the interrupted task behind all others, sleep and exit take the
      current task away, and the head of the queue runs next; a sleeping task that is woken, and a new one, join
      the queue at its end. */
  ghost predicate Changes(s: State, e: Event, s': State)
    requires e.Tick? || e.SleepCurrent? || e.Exit? ==> s.current.Some?
    requires e.Wake? ==> e.task in s.run
  {
    match e
    case Boot => Dispatched(s.queue, s.run, s.slice, s')
    case Tick =>
      var t := s.current.value;
      Dispatched(s.queue + [t], s.run[t := Ready], s.slice[t := 0], s')
    case SleepCurrent => Dispatched(s.queue, s.run[s.current.value := Sleeping], s.slice, s')
    case Exit => Dispatched(s.queue, s.run - {s.current.value}, s.slice - {s.current.value}, s')
    case Wake(t) =>
      s' == if s.run[t] == Sleeping then s.(run := s.run[t := Ready], queue := s.queue + [t]) else s
    case New(t) => s' == State(s.current, s.queue + [t], s.run[t := Ready], s.slice[t := 0])
  }

  lemma StepChanges(s: State, e: Event, idle: TaskId)
    requires Good(s, idle) && Allowed(s, e, idle)
    ensures Apply(s, e).Ok? && Changes(s, e, Apply(s, e).state)
  {
    StepKeeps(s, e, idle);
  }

  // ---- whole runs ----

  /** `states` are what the scheduler goes through on `events`, all of them allowed. */
  ghost predicate Run(states: seq<State>, events: seq<Event>, idle: TaskId)
  {
    && |states| == |events| + 1
    && forall i :: 0 <= i < |events| ==>
         Allowed(states[i], events[i], idle) && Apply(states[i], events[i]) == Ok(states[i + 1])
  }

  ghost predicate Good(s: State, idle: TaskId)
  {
    Inv(s) && HasIdle(s, idle)
  }

  /** In every state of a run the invariant holds, and no allowed event panics there. */
  lemma {:induction false} RunKeeps(states: seq<State>, events: seq<Event>, idle: TaskId, n: nat)
    requires Run(states, events, idle) && Good(states[0], idle) && n <= |events|
    ensures Good(states[n], idle)
    ensures forall e :: Allowed(states[n], e, idle) ==> Apply(states[n], e).Ok?
    decreases n
  {
    if n > 0 {
      RunKeeps(states, events, idle, n - 1);
      StepKeeps(states[n - 1], events[n - 1], idle);
    }
    var s := states[n];
    forall e | Allowed(s, e, idle)
      ensures Apply(s, e).Ok?
    {
      StepKeeps(s, e, idle);
    }
  }

  function CountDispatches(events: seq<Event>): nat
  {
    if events == [] then 0
    else CountDispatches(events[..|events| - 1]) + if Dispatches(events[|events| - 1]) then 1 else 0
  }

  function CountTicks(events: seq<Event>): nat
  {
    if events == [] then 0
    else CountTicks(events[..|events| - 1]) + if events[|events| - 1].Tick? then 1 else 0
  }

  lemma {:induction false} TicksDispatch(events: seq<Event>)
    ensures CountTicks(events) <= CountDispatches(events)
  {
    if events != [] {
      TicksDispatch(events[..|events| - 1]);
    }
  }

  /** A ready task at position `k` moves up by one with each dispatch, whatever else happens, and the
      `k + 1`-st dispatch is its own: bounded waiting. */
  lemma {:induction false} BoundedWaiting(states: seq<State>, events: seq<Event>, idle: TaskId, k: nat, n: nat)
    requires Run(states, events, idle) && Good(states[0], idle) && n <= |events|
    requires k < |states[0].queue| && CountDispatches(events[..n]) <= k + 1
    ensures var s, d := states[n], CountDispatches(events[..n]);
            && (d <= k ==> k - d < |s.queue| && s.queue[k - d] == states[0].queue[k])
            && (d == k + 1 && Dispatches(events[n - 1]) ==> s.current == Some(states[0].queue[k]))
    decreases n
  {
    hide Good, Apply, Allowed;
    if n > 0 {
      assert events[..n][..n - 1] == events[..n - 1];
      BoundedWaiting(states, events, idle, k, n - 1);
      RunKeeps(states, events, idle, n - 1);
      var p := k - CountDispatches(events[..n - 1]);
      WaitingStep(states[n - 1], events[n - 1], idle, states[0].queue[k], p);
    }
  }

  /** One step of waiting, for the task at position `p`. */
  lemma WaitingStep(s: State, e: Event, idle: TaskId, t: TaskId, p: int)
    requires Good(s, idle) && Allowed(s, e, idle)
    requires 0 <= p ==> p < |s.queue| && s.queue[p] == t
    ensures Apply(s, e).Ok?
    ensures var s' := Apply(s, e).state;
            && (p >= 0 && !Dispatches(e) ==> p < |s'.queue| && s'.queue[p] == t)
            && (p > 0 && Dispatches(e) ==> p - 1 < |s'.queue| && s'.queue[p - 1] == t)
            && (p == 0 && Dispatches(e) ==> s'.current == Some(t))
  {
    StepKeeps(s, e, idle);
    assert p >= 0 ==> QueueAt(s, e)[p] == t;
  }

  /** So a ready task is dispatched before, or at, the `k + 1`-st timer tick. */
  lemma WaitsAtMostTicks(states: seq<State>, events: seq<Event>, idle: TaskId, k: nat) returns (i: nat)
    requires Run(states, events, idle) && Good(states[0], idle)
    requires k < |states[0].queue| && CountTicks(events) > k
    ensures 0 < i <= |events| && CountTicks(events[..i]) <= k + 1
    ensures states[i].current == Some(states[0].queue[k])
  {
    i := ReachesCount(events, k);
    BoundedWaiting(states, events, idle, k, i);
    TicksDispatch(events[..i]);
  }

  /** The event at which the count of dispatches reaches `k + 1`. */
  lemma {:induction false} ReachesCount(events: seq<Event>, k: nat) returns (i: nat)
    requires CountTicks(events) > k
    ensures 0 < i <= |events| && CountDispatches(events[..i]) == k + 1 && Dispatches(events[i - 1])
  {
    TicksDispatch(events);
    i := |events|;
    assert events[..i] == events;
    while CountDispatches(events[..i - 1]) > k
      invariant 0 < i <= |events| && CountDispatches(events[..i]) > k
      decreases i
    {
      i := i - 1;
    }
    assert events[..i][..i - 1] == events[..i - 1];
  }

  // ---- waking several tasks ----

  /** Waking tasks one after the other. */
  function WakeAll(s: State, tasks: seq<TaskId>): Result
    decreases |tasks|
  {
    if tasks == [] then Ok(s)
    else
      match WakeUp(s, tasks[0])
      case Panicked => Panicked
      case Ok(next) => WakeAll(next, tasks[1..])
  }

  ghost predicate Woken(before: map<TaskId, RunState>, tasks: seq<TaskId>, after: map<TaskId, RunState>)
  {
    && after.Keys == before.Keys
    && forall t :: t in before ==> after[t] == if t in tasks then Ready else before[t]
  }

  ghost predicate AllSleeping(run: map<TaskId, RunState>, tasks: seq<TaskId>)
  {
    forall t :: t in tasks ==> t in run && run[t] == Sleeping
  }

  lemma WakeFirst(s: State, tasks: seq<TaskId>)
    requires Inv(s) && tasks != [] && NoDuplicates(tasks) && AllSleeping(s.run, tasks)
    ensures WakeUp(s, tasks[0]).Ok?
    ensures var s' := WakeUp(s, tasks[0]).state;
            && Inv(s') && s' == s.(run := s.run[tasks[0] := Ready], queue := s.queue + [tasks[0]])
            && NoDuplicates(tasks[1..]) && AllSleeping(s'.run, tasks[1..])
  {
    assert tasks[0] in tasks;
    AppendKeeps(s, tasks[0], s.run[tasks[0] := Ready], s.slice);
  }

  lemma WokenStep(run: map<TaskId, RunState>, tasks: seq<TaskId>, after: map<TaskId, RunState>)
    requires tasks != [] && tasks[0] in run && Woken(run[tasks[0] := Ready], tasks[1..], after)
    ensures Woken(run, tasks, after)
  {
    forall t
      ensures t in tasks <==> t == tasks[0] || t in tasks[1..]
    {
    }
  }

  lemma WokenNone(run: map<TaskId, RunState>)
    ensures Woken(run, [], run)
  {
  }

  /** Waking distinct sleeping tasks makes all of them ready, in order, behind the queue. */
  lemma {:induction false} WakeAllSleeping(s: State, tasks: seq<TaskId>)
    requires Inv(s) && NoDuplicates(tasks) && AllSleeping(s.run, tasks)
    ensures WakeAll(s, tasks).Ok?
    ensures var s' := WakeAll(s, tasks).state;
            && Inv(s') && s'.current == s.current && s'.slice == s.slice && s'.queue == s.queue + tasks
            && Woken(s.run, tasks, s'.run)
    decreases |tasks|
  {
    hide Inv, Woken, NoDuplicates, WakeUp;
    if tasks == [] {
      WokenNone(s.run);
    } else {
      assert tasks[0] in tasks;
      WakeFirst(s, tasks);
      var next := WakeUp(s, tasks[0]).state;
      WakeAllSleeping(next, tasks[1..]);
      WokenStep(s.run, tasks, WakeAll(s, tasks).state.run);
      assert next.queue + tasks[1..] == s.queue + tasks;
    }
  }
}

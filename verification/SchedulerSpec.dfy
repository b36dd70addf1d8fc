/** The scheduler of sched/sched.cpp as a function of its state: what every entry point does to the task
    table and to the two queues. Scheduler.dfy proves the imperative code equal to these functions. */
module SchedulerSpec {
  import opened Options
  import opened Return
  import opened SimpleQueue

  const MAX_NUM_TASKS: nat := 64
  const TIME_WRAP: nat := 0x1_0000_0000

  type Tid = t: nat | t < MAX_NUM_TASKS
  type Time = t: nat | t < TIME_WRAP

  datatype State = Unallocated | Active | Sleeping | Blocked

  /** task_t; `onReady` and `onSleep` say whether ready_loc and sleep_loc are non-NULL. */
  datatype Task = Task(state: State, func: nat, arg: nat, tid: nat, wake: Time, onReady: bool, onSleep: bool)

  type TaskTable = s: seq<Task> | |s| == MAX_NUM_TASKS
    witness seq(MAX_NUM_TASKS, i => Task(Unallocated, 0, 0, 0, 0, false, false))

  /** What sched_start was given. */
  datatype Job = Job(func: nat, arg: nat)

  /** Queues are listed head first, so the next element to pop is the last. `readings` counts the calls of
      get_time(); the clock is an arbitrary function of that number. `live` is history, which the code does not keep:
      the tasks that have been started and have not ended since. */
  datatype Sched = Sched(tasks: TaskTable, ready: seq<Tid>, sleep: seq<Tid>, dispatched: nat, readings: nat,
                         live: map<Tid, Job>)

  type Clock = nat -> Time

  /** The statically initialised scheduler. */
  const INITIAL: Sched :=
    Sched(seq(MAX_NUM_TASKS, i => Task(Unallocated, 0, 0, 0, 0, false, false)), [], [], MAX_NUM_TASKS, 0, map[])

  // ---------------------------------------------------------------- queue operations

  function Set(s: Sched, t: Tid, task: Task): Sched {
    s.(tasks := s.tasks[t := task])
  }

  /** sleep_sort: the first task is popped before the second one. */
  function SleepSort(tasks: TaskTable): (Tid, Tid) -> bool {
    (fst: Tid, snd: Tid) => tasks[snd].wake > tasks[fst].wake
  }

  /** `task->ready_loc = ready_q.push(task)`: the push returns NULL on a full queue. */
  function PushReady(s: Sched, t: Tid): Sched {
    if |s.ready| == MAX_NUM_TASKS then Set(s, t, s.tasks[t].(onReady := false))
    else Set(s, t, s.tasks[t].(onReady := true)).(ready := [t] + s.ready)
  }

  function PushSleep(s: Sched, t: Tid): Sched {
    if |s.sleep| == MAX_NUM_TASKS then Set(s, t, s.tasks[t].(onSleep := false))
    else Set(s, t, s.tasks[t].(onSleep := true)).(sleep := SortedInsert(SleepSort(s.tasks), s.sleep, t))
  }

  function IndexIn(q: seq<Tid>, t: Tid): (i: nat)
    ensures i <= |q| && (i < |q| ==> q[i] == t)
    ensures forall j :: 0 <= j < i ==> q[j] != t
  {
    if q == [] || q[0] == t then 0 else 1 + IndexIn(q[1..], t)
  }

  /** `q.remove(loc)`; a task is never on a queue twice, see Inv. */
  function Without(q: seq<Tid>, t: Tid): seq<Tid> {
    var i := IndexIn(q, t);
    if i < |q| then Removed(q, i) else q
  }

  function RemoveReady(s: Sched, t: Tid): Sched {
    Set(s, t, s.tasks[t].(onReady := false)).(ready := Without(s.ready, t))
  }

  function RemoveSleep(s: Sched, t: Tid): Sched {
    Set(s, t, s.tasks[t].(onSleep := false)).(sleep := Without(s.sleep, t))
  }

  // ---------------------------------------------------------------- entry points

  /** The first slot, from `i` on, that sched_start can use. */
  function FreeSlot(tasks: TaskTable, i: nat): (r: nat)
    requires i <= MAX_NUM_TASKS
    ensures i <= r <= MAX_NUM_TASKS
    ensures forall j :: i <= j < r ==> !tasks[j].state.Unallocated?
    ensures r < MAX_NUM_TASKS ==> tasks[r].state.Unallocated?
    decreases MAX_NUM_TASKS - i
  {
    if i == MAX_NUM_TASKS || tasks[i].state.Unallocated? then i else FreeSlot(tasks, i + 1)
  }

  function Start(s: Sched, func: nat, arg: nat): Sched {
    var i := FreeSlot(s.tasks, 0);
    if i == MAX_NUM_TASKS then s else PushReady(Occupied(s, i, func, arg), i)
  }

  /** The slot that sched_start has found, filled in. */
  function Occupied(s: Sched, i: Tid, func: nat, arg: nat): Sched {
    Set(s, i, s.tasks[i].(state := Active, func := func, arg := arg, tid := i, onSleep := false))
      .(live := s.live[i := Job(func, arg)])
  }

  function StartResult(s: Sched): int {
    var i := FreeSlot(s.tasks, 0);
    if i == MAX_NUM_TASKS then -1 else i
  }

  function Sleep(s: Sched, clock: Clock, t: Tid, time: Time): Sched {
    FallAsleep(OffQueues(s, t), clock, t, time)
  }

  function OffQueues(s: Sched, t: Tid): Sched {
    if s.tasks[t].onSleep then RemoveSleep(s, t)
    else if s.tasks[t].onReady then RemoveReady(s, t)
    else s
  }

  /** The end of sched_sleep, once the task is off its queue. */
  function FallAsleep(s: Sched, clock: Clock, t: Tid, time: Time): Sched {
    var wake: Time := (clock(s.readings) + time) % TIME_WRAP;
    PushSleep(Set(s, t, s.tasks[t].(state := Sleeping, wake := wake)).(readings := s.readings + 1), t)
  }

  function Wake(s: Sched, t: Tid): Sched {
    var task := s.tasks[t];
    if !task.state.Blocked? && !task.state.Sleeping? then s
    else if task.onReady then s
    else
      var s1 := if task.onSleep then RemoveSleep(s, t) else s;
      var s2 := PushReady(s1, t);
      Set(s2, t, s2.tasks[t].(state := Active))
  }

  function Block(s: Sched, t: Tid): Sched {
    var s1 := if s.tasks[t].onReady then RemoveReady(s, t)
              else if s.tasks[t].onSleep then RemoveSleep(s, t)
              else s;
    Set(s1, t, s1.tasks[t].(state := Blocked))
  }

  /** _sched_wakeup_tasks */
  function WakeupTasks(s: Sched, clock: Clock): Sched
    decreases |s.sleep|
  {
    if s.sleep == [] then s
    else
      var t := s.sleep[|s.sleep| - 1];
      var s1 := s.(readings := s.readings + 1);
      if clock(s.readings) >= s.tasks[t].wake then
        WakeupTasks(WakeLast(s1), clock)
      else s1
  }

  /** One round of the loop of _sched_wakeup_tasks: the task at the tail becomes ready. */
  function WakeLast(s: Sched): Sched
    requires s.sleep != []
  {
    var t := s.sleep[|s.sleep| - 1];
    var s1 := s.(sleep := s.sleep[..|s.sleep| - 1]);
    PushReady(Set(s1, t, s1.tasks[t].(state := Active, onSleep := false)), t)
  }

  /** sched_dispatch up to the call of the task's function: who runs, if anybody. */
  function Next(s: Sched, clock: Clock): Option<Tid> {
    var s1 := WakeupTasks(s, clock);
    if s1.ready == [] then None else Some(s1.ready[|s1.ready| - 1])
  }

  function Begin(s: Sched, clock: Clock): Sched {
    var s1 := WakeupTasks(s, clock);
    if s1.ready == [] then s1.(dispatched := MAX_NUM_TASKS)
    else
      var t := s1.ready[|s1.ready| - 1];
      Set(s1, t, s1.tasks[t].(onReady := false)).(ready := s1.ready[..|s1.ready| - 1], dispatched := s1.tasks[t].tid)
  }

  /** sched_dispatch from the return of task `t`'s function on. */
  function End(s: Sched, t: Tid, ret: RetType): Sched {
    var s1 := if ret == RetError then Set(s, t, s.tasks[t].(state := Unallocated)).(live := s.live - {t})
              else if s.tasks[t].state == Active then PushReady(s, t)
              else s;
    s1.(dispatched := MAX_NUM_TASKS)
  }

  // ---------------------------------------------------------------- runs

  datatype Call = CallStart(func: nat, arg: nat) | CallSleep(t: Tid, time: Time) | CallWake(t: Tid) | CallBlock(t: Tid)

  function Do(s: Sched, clock: Clock, c: Call): Sched {
    match c
    case CallStart(func, arg) => Start(s, func, arg)
    case CallSleep(t, time) => Sleep(s, clock, t, time)
    case CallWake(t) => Wake(s, t)
    case CallBlock(t) => Block(s, t)
  }

  function DoAll(s: Sched, clock: Clock, calls: seq<Call>): Sched
    decreases |calls|
  {
    if calls == [] then s else DoAll(Do(s, clock, calls[0]), clock, calls[1..])
  }

  /** What happens to a scheduler: a call from outside any task, or a sched_dispatch in which the task that
      runs (if any) makes the calls `body` and returns `ret`. */
  datatype Event = Outside(call: Call) | Dispatch(body: seq<Call>, ret: RetType)

  function Step(s: Sched, clock: Clock, e: Event): Sched {
    match e
    case Outside(c) => Do(s, clock, c)
    case Dispatch(body, ret) =>
      match Next(s, clock)
      case None => Begin(s, clock)
      case Some(t) => End(DoAll(Begin(s, clock), clock, body), t, ret)
  }

  function Run(s: Sched, clock: Clock, events: seq<Event>): Sched
    decreases |events|
  {
    if events == [] then s else Run(Step(s, clock, events[0]), clock, events[1..])
  }

  // ---------------------------------------------------------------- what callers owe

  /** The source does not check whether a slot has a task: only one that has been started, and has not ended, may be
      put to sleep or blocked. */
  predicate CallOk(s: Sched, c: Call) {
    c.CallSleep? || c.CallBlock? ==> c.t in s.live
  }

  predicate CallsOk(s: Sched, clock: Clock, calls: seq<Call>)
    decreases |calls|
  {
    calls == [] || (CallOk(s, calls[0]) && CallsOk(Do(s, clock, calls[0]), clock, calls[1..]))
  }

  /** How a task may return: with RET_ERROR only while on no queue, otherwise not awake and already queued. */
  predicate ReturnOk(s: Sched, t: Tid, ret: RetType) {
    if ret == RetError then !s.tasks[t].onReady && !s.tasks[t].onSleep
    else !(s.tasks[t].state == Active && s.tasks[t].onReady)
  }

  predicate EventOk(s: Sched, clock: Clock, e: Event) {
    match e
    case Outside(c) => CallOk(s, c)
    case Dispatch(body, ret) =>
      match Next(s, clock)
      case None => true
      case Some(t) =>
        && CallsOk(Begin(s, clock), clock, body)
        && ReturnOk(DoAll(Begin(s, clock), clock, body), t, ret)
  }

  predicate EventsOk(s: Sched, clock: Clock, events: seq<Event>)
    decreases |events|
  {
    events == [] || (EventOk(s, clock, events[0]) && EventsOk(Step(s, clock, events[0]), clock, events[1..]))
  }

  // ---------------------------------------------------------------- the invariant

  /** Task `t` is where its state says; `run` is the task that runs, if any. */
  ghost predicate Placed(s: Sched, run: Option<Tid>, t: Tid) {
    var task := s.tasks[t];
    && (task.onReady <==> t in s.ready)
    && (task.onSleep <==> t in s.sleep)
    && (task.state == Sleeping <==> t in s.sleep)
    && (t in s.ready ==> task.state == Active)
    && (task.state == Active && run != Some(t) ==> t in s.ready)
    && (task.state.Unallocated? ==> run != Some(t))
    && (t in s.live <==> !task.state.Unallocated?)
    && (t in s.live ==> task.tid == t && s.live[t] == Job(task.func, task.arg))
  }

  ghost predicate SortedByWake(s: Sched) {
    forall i, j :: 0 <= i < j < |s.sleep| ==> s.tasks[s.sleep[i]].wake >= s.tasks[s.sleep[j]].wake
  }

  ghost predicate Inv(s: Sched, run: Option<Tid>) {
    && Distinct(s.ready) && Distinct(s.sleep)
    && SortedByWake(s)
    && forall t: Tid :: Placed(s, run, t)
  }

  /** Between two dispatches. */
  ghost predicate Idle(s: Sched) {
    Inv(s, None) && s.dispatched == MAX_NUM_TASKS
  }
}

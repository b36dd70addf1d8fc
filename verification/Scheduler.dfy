/** sched/sched.cpp: the task table and the two queues, updated in place. Every method is proved equal to its
    function in SchedulerSpec; SchedulerRuns and SchedulerFairness say what follows. */
module Scheduler {
  import opened Options
  import opened Return
  import opened SimpleQueue
  import opened AllocatedQueue
  import opened SchedulerSpec
  import opened SchedulerRuns

  /** task_t; a task is named by its index in the table. */
  datatype TaskRecord = TaskRecord(state: State, func: nat, arg: nat, tid: nat, wake: Time,
                                   readyLoc: Node?<Tid>, sleepLoc: Node?<Tid>)

  function Abstract(r: TaskRecord): Task {
    Task(r.state, r.func, r.arg, r.tid, r.wake, r.readyLoc != null, r.sleepLoc != null)
  }

  class Scheduler {
    const tasks: array<TaskRecord>
    const readyQ: AllocQueue<Tid>
    const sleepQ: AllocQueue<Tid>
    const clock: Clock
    var dispatched: nat
    var readings: nat
    ghost var running: Option<Tid>     // the task whose function is being executed
    ghost var live: map<Tid, Job>      // those that have been started and have not ended

    /** Everything a scheduler is made of; it is all static, so this never changes. */
    ghost const Repr: set<object>

    ghost predicate Layout()
      reads this, Repr
    {
      && Repr == {this, tasks, readyQ, sleepQ} + readyQ.Repr + sleepQ.Repr
      && tasks.Length == MAX_NUM_TASKS
      && readyQ.Capacity() == sleepQ.Capacity() == MAX_NUM_TASKS
      && readyQ.Repr !! sleepQ.Repr && {this, tasks} !! readyQ.Repr && {this, tasks} !! sleepQ.Repr
      && readyQ.Valid() && sleepQ.Valid()
    }

    function Table(): TaskTable
      requires tasks.Length == MAX_NUM_TASKS
      reads tasks
    {
      seq(MAX_NUM_TASKS, i requires 0 <= i < MAX_NUM_TASKS reads tasks => Abstract(tasks[i]))
    }

    ghost function View(): (s: Sched)
      requires Layout()
      reads this, Repr
      ensures s.dispatched == dispatched
    {
      Sched(Table(), readyQ.Contents(), sleepQ.Contents(), dispatched, readings, live)
    }

    /** The back-pointers of task `t` point at the nodes that hold it. */
    ghost predicate LocatedReady(t: Tid)
      requires Layout()
      reads this, Repr
    {
      tasks[t].readyLoc != null ==> tasks[t].readyLoc in readyQ.Nodes() && tasks[t].readyLoc.data == t
    }

    ghost predicate LocatedSleep(t: Tid)
      requires Layout()
      reads this, Repr
    {
      tasks[t].sleepLoc != null ==> tasks[t].sleepLoc in sleepQ.Nodes() && tasks[t].sleepLoc.data == t
    }

    ghost predicate Valid()
      reads this, Repr
      ensures Valid() ==> Layout() && this in Repr && Inv(View(), running)
    {
      && Layout()
      && Inv(View(), running)
      && forall t: Tid :: LocatedReady(t) && LocatedSleep(t)
    }

    static method NewTable() returns (a: array<TaskRecord>)
      ensures fresh(a) && a.Length == MAX_NUM_TASKS
      ensures forall i :: 0 <= i < a.Length ==> a[i] == TaskRecord(Unallocated, 0, 0, 0, 0, null, null)
    {
      a := new TaskRecord[MAX_NUM_TASKS](_ => TaskRecord(Unallocated, 0, 0, 0, 0, null, null));
    }

    /** The statically initialised scheduler, with sched_init having set the clock. */
    constructor (clock: Clock)
      ensures Valid() && fresh(Repr) && View() == INITIAL && running == None && this.clock == clock
    {
      hide AllocQueue.Valid, AllocQueue.Contents, Inv;
      var table := NewTable();
      var ready := new AllocQueue<Tid>(MAX_NUM_TASKS, 0);
      var sleep := new AllocQueue<Tid>(MAX_NUM_TASKS, 0);
      tasks, readyQ, sleepQ := table, ready, sleep;
      this.clock, dispatched, readings, running, live := clock, MAX_NUM_TASKS, 0, None, map[];
      Repr := {this, table, ready, sleep} + ready.Repr + sleep.Repr;
      new;
      InitialIdle();
      assert Layout();
      assert Table() == INITIAL.tasks;
    }

    // -------------------------------------------------------------- the queue operations on a task

    /** `task->ready_loc = ready_q.push(task)` */
    method PushReady(t: Tid)
      requires Layout() && forall u: Tid :: LocatedReady(u) && LocatedSleep(u)
      modifies Repr
      ensures Layout() && View() == SchedulerSpec.PushReady(old(View()), t)
      ensures forall u: Tid :: LocatedReady(u) && LocatedSleep(u)
      ensures running == old(running)
    {
      hide AllocQueue.Valid, AllocQueue.Contents;
      var loc := readyQ.Push(t);
      tasks[t] := tasks[t].(readyLoc := loc);
      assert Table() == old(Table())[t := Abstract(tasks[t])];
      forall u: Tid ensures LocatedReady(u) && LocatedSleep(u) {
        assert old(LocatedReady(u) && LocatedSleep(u));
      }
    }

    /** `task->sleep_loc = sleep_q.push(task)`, where the old sleep_loc may be stale. */
    method PushSleep(t: Tid)
      requires Layout() && forall u: Tid :: LocatedReady(u) && (u != t ==> LocatedSleep(u))
      modifies Repr
      ensures Layout() && View() == SchedulerSpec.PushSleep(old(View()), t)
      ensures forall u: Tid :: LocatedReady(u) && LocatedSleep(u)
      ensures running == old(running)
    {
      hide AllocQueue.Valid, AllocQueue.Contents;
      var loc := sleepQ.PushSorted(t, SleepSort(Table()));
      tasks[t] := tasks[t].(sleepLoc := loc);
      assert Table() == old(Table())[t := Abstract(tasks[t])];
      forall u: Tid ensures LocatedReady(u) && LocatedSleep(u) {
        assert old(LocatedReady(u) && (u != t ==> LocatedSleep(u)));
      }
    }

    /** `ready_q.remove(task->ready_loc); task->ready_loc = NULL` */
    method RemoveReady(t: Tid)
      requires Layout() && Distinct(readyQ.Contents()) && forall u: Tid :: LocatedReady(u) && LocatedSleep(u)
      requires tasks[t].readyLoc != null
      modifies Repr
      ensures Layout() && View() == SchedulerSpec.RemoveReady(old(View()), t)
      ensures forall u: Tid :: LocatedReady(u) && LocatedSleep(u)
      ensures running == old(running)
    {
      hide AllocQueue.Valid, AllocQueue.Contents;
      var loc := tasks[t].readyLoc;
      assert LocatedReady(t);
      ghost var i := IndexOf(readyQ.Nodes(), loc);
      readyQ.Remove(loc, i);
      tasks[t] := tasks[t].(readyLoc := null);
      assert Table() == old(Table())[t := Abstract(tasks[t])];
      forall u: Tid ensures LocatedReady(u) && LocatedSleep(u) {
        assert old(LocatedReady(u) && LocatedSleep(u));
      }
    }

    /** `sleep_q.remove(task->sleep_loc)`, which leaves sleep_loc stale. */
    method UnlinkSleeper(t: Tid)
      requires Layout() && Distinct(sleepQ.Contents()) && forall u: Tid :: LocatedReady(u) && LocatedSleep(u)
      requires tasks[t].sleepLoc != null
      modifies Repr
      ensures Layout() && View() == old(View()).(sleep := Without(old(View()).sleep, t))
      ensures tasks[..] == old(tasks[..])
      ensures forall u: Tid :: LocatedReady(u) && (u != t ==> LocatedSleep(u))
      ensures running == old(running)
    {
      hide AllocQueue.Valid, AllocQueue.Contents;
      var loc := tasks[t].sleepLoc;
      assert LocatedSleep(t);
      ghost var i := IndexOf(sleepQ.Nodes(), loc);
      sleepQ.Remove(loc, i);
      forall u: Tid ensures LocatedReady(u) && (u != t ==> LocatedSleep(u)) {
        assert old(LocatedReady(u) && LocatedSleep(u));
      }
    }

    // -------------------------------------------------------------- entry points

    /** sched_time */
    method GetTime() returns (now: Time)
      requires Layout() && forall u: Tid :: LocatedReady(u) && LocatedSleep(u)
      modifies this`readings
      ensures Layout() && forall u: Tid :: LocatedReady(u) && LocatedSleep(u)
      ensures now == clock(old(readings)) && View() == old(View()).(readings := old(readings) + 1)
    {
      hide AllocQueue.Valid, AllocQueue.Contents;
      now := clock(readings);
      readings := readings + 1;
      forall u: Tid ensures LocatedReady(u) && LocatedSleep(u) {
        assert old(LocatedReady(u) && LocatedSleep(u));
      }
    }

    /** sched_start */
    method Start(func: nat, arg: nat) returns (tid: int)
      requires Valid()
      modifies Repr
      ensures Valid() && running == old(running)
      ensures View() == SchedulerSpec.Start(old(View()), func, arg) && tid == StartResult(old(View()))
    {
      hide AllocQueue.Valid, AllocQueue.Contents, Inv, SchedulerSpec.PushReady;
      StartKeeps(View(), running, func, arg);
      var i := 0;
      while i < MAX_NUM_TASKS
        invariant i <= MAX_NUM_TASKS
        invariant FreeSlot(Table(), 0) == FreeSlot(Table(), i)
      {
        if tasks[i].state == Unallocated {
          Occupy(i, func, arg);
          return i;
        }
        i := i + 1;
      }
      return -1;
    }

    method Occupy(i: Tid, func: nat, arg: nat)
      requires Layout() && forall u: Tid :: LocatedReady(u) && LocatedSleep(u)
      modifies Repr
      ensures Layout() && forall u: Tid :: LocatedReady(u) && LocatedSleep(u)
      ensures running == old(running)
      ensures View() == SchedulerSpec.PushReady(Occupied(old(View()), i, func, arg), i)
    {
      hide AllocQueue.Valid, AllocQueue.Contents, SchedulerSpec.PushReady;
      tasks[i] := tasks[i].(state := Active, func := func, arg := arg, tid := i, sleepLoc := null);
      live := live[i := Job(func, arg)];
      assert Table() == old(Table())[i := Abstract(tasks[i])];
      forall u: Tid ensures LocatedReady(u) && LocatedSleep(u) {
        assert old(LocatedReady(u) && LocatedSleep(u));
      }
      PushReady(i);
    }

    /** sched_sleep. The source does not check whether the slot has a task. */
    method Sleep(t: Tid, time: Time)
      requires Valid()
      modifies Repr
      ensures Layout() && running == old(running) && forall u: Tid :: LocatedReady(u) && LocatedSleep(u)
      ensures Valid() <==> t in old(View()).live
      ensures View() == SchedulerSpec.Sleep(old(View()), clock, t, time)
    {
      hide AllocQueue.Valid, AllocQueue.Contents, Inv, SchedulerSpec.FallAsleep;
      QueuesDistinct(View(), running);
      SleepExact(View(), running, clock, t, time);
      if tasks[t].sleepLoc != null {
        SleepUnlinked(View(), running, clock, t, time);
        UnlinkSleeper(t);
        assert Table() == old(Table());
        // sleep_loc is stale until FallAsleep overwrites it
      } else if tasks[t].readyLoc != null {
        RemoveReady(t);
      }
      FallAsleep(t, time);
    }

    /** The end of sched_sleep, from `task->state = STATE_SLEEPING` on. */
    method FallAsleep(t: Tid, time: Time)
      requires Layout() && forall u: Tid :: LocatedReady(u) && (u != t ==> LocatedSleep(u))
      modifies Repr
      ensures Layout() && forall u: Tid :: LocatedReady(u) && LocatedSleep(u)
      ensures running == old(running)
      ensures View() == SchedulerSpec.FallAsleep(old(View()), clock, t, time)
    {
      hide AllocQueue.Valid, AllocQueue.Contents, SchedulerSpec.PushSleep;
      var now := clock(readings);  // sched_time(); the stale sleep_loc is why GetTime is not called here
      readings := readings + 1;
      tasks[t] := tasks[t].(state := Sleeping, wake := (now + time) % TIME_WRAP);
      assert Table() == old(Table())[t := Abstract(tasks[t])];
      forall u: Tid ensures LocatedReady(u) && (u != t ==> LocatedSleep(u)) {
        assert old(LocatedReady(u) && (u != t ==> LocatedSleep(u)));
      }
      PushSleep(t);
    }

    /** sched_wake */
    method Wake(t: Tid)
      requires Valid()
      modifies Repr
      ensures Valid() && running == old(running)
      ensures View() == SchedulerSpec.Wake(old(View()), t)
    {
      hide AllocQueue.Valid, AllocQueue.Contents, SchedulerSpec.PushReady;
      ghost var was := View();
      WakeKeeps(was, running, t);
      if tasks[t].state != SchedulerSpec.Blocked && tasks[t].state != Sleeping {
        return;
      }
      if tasks[t].readyLoc != null {
        return;
      }
      if tasks[t].sleepLoc != null {
        RemoveSleep(t);
      }
      PushReady(t);
      SetState(t, Active);
    }

    /** sched_block. The source does not check whether the slot has a task. */
    method Block(t: Tid)
      requires Valid()
      modifies Repr
      ensures Layout() && running == old(running) && forall u: Tid :: LocatedReady(u) && LocatedSleep(u)
      ensures Valid() <==> t in old(View()).live
      ensures View() == SchedulerSpec.Block(old(View()), t)
    {
      hide AllocQueue.Valid, AllocQueue.Contents;
      ghost var was := View();
      BlockExact(was, running, t);
      if tasks[t].readyLoc != null {
        RemoveReady(t);
      } else if tasks[t].sleepLoc != null {
        RemoveSleep(t);
      }
      SetState(t, SchedulerSpec.Blocked);
    }

    /** `sleep_q.remove(task->sleep_loc); task->sleep_loc = NULL` */
    method RemoveSleep(t: Tid)
      requires Layout() && Distinct(sleepQ.Contents()) && forall u: Tid :: LocatedReady(u) && LocatedSleep(u)
      requires tasks[t].sleepLoc != null
      modifies Repr
      ensures Layout() && View() == SchedulerSpec.RemoveSleep(old(View()), t)
      ensures forall u: Tid :: LocatedReady(u) && LocatedSleep(u)
      ensures running == old(running)
    {
      hide AllocQueue.Valid, AllocQueue.Contents;
      UnlinkSleeper(t);
      label L:
      tasks[t] := tasks[t].(sleepLoc := null);
      assert Table() == old(Table())[t := Abstract(tasks[t])];
      forall u: Tid ensures LocatedReady(u) && LocatedSleep(u) {
        assert old@L(LocatedReady(u) && (u != t ==> LocatedSleep(u)));
      }
    }

    method SetState(t: Tid, state: State)
      requires Layout() && forall u: Tid :: LocatedReady(u) && LocatedSleep(u)
      modifies tasks
      ensures Layout() && forall u: Tid :: LocatedReady(u) && LocatedSleep(u)
      ensures View() == Set(old(View()), t, old(View()).tasks[t].(state := state))
    {
      hide AllocQueue.Valid, AllocQueue.Contents;
      tasks[t] := tasks[t].(state := state);
      assert Table() == old(Table())[t := Abstract(tasks[t])];
      forall u: Tid ensures LocatedReady(u) && LocatedSleep(u) {
        assert old(LocatedReady(u) && LocatedSleep(u));
      }
    }

    /** _sched_wakeup_tasks */
    method WakeupTasks()
      requires Valid() && running == None
      modifies Repr
      ensures Valid() && running == None
      ensures View() == SchedulerSpec.WakeupTasks(old(View()), clock)
    {
      hide AllocQueue.Valid, AllocQueue.Contents, Inv, SchedulerSpec.WakeupTasks, View, LocatedReady, LocatedSleep;
      while true
        invariant Valid() && running == None
        invariant SchedulerSpec.WakeupTasks(View(), clock) == SchedulerSpec.WakeupTasks(old(View()), clock)
        decreases |View().sleep|
      {
        var more := WakeNext();
        if !more {
          return;
        }
      }
    }

    /** One round of the loop; `more` is false where the source returns. */
    method WakeNext() returns (more: bool)
      requires Valid() && running == None
      modifies Repr
      ensures Valid() && running == None
      ensures !more ==> View() == SchedulerSpec.WakeupTasks(old(View()), clock)
      ensures more ==> SchedulerSpec.WakeupTasks(View(), clock) == SchedulerSpec.WakeupTasks(old(View()), clock)
      ensures more ==> |View().sleep| < |old(View()).sleep|
    {
      hide AllocQueue.Valid, AllocQueue.Contents, Inv, SchedulerSpec.WakeLast;
      var node := sleepQ.Peek();
      if node == null {
        return false;
      }
      var t := node.data;
      QueuesDistinct(View(), None);
      ReadClockKeeps(View());
      var now := GetTime();
      if now < tasks[t].wake {
        return false;
      }
      WakeLastKeeps(View());
      WakeLast(t);
      more := true;
    }

    /** The body of the loop for a task whose time has come. */
    method WakeLast(t: Tid)
      requires Layout() && Distinct(sleepQ.Contents()) && forall u: Tid :: LocatedReady(u) && LocatedSleep(u)
      requires sleepQ.Contents() != [] && sleepQ.Contents()[|sleepQ.Contents()| - 1] == t
      modifies Repr
      ensures Layout() && forall u: Tid :: LocatedReady(u) && LocatedSleep(u)
      ensures running == old(running)
      ensures View() == SchedulerSpec.WakeLast(old(View()))
    {
      hide AllocQueue.Valid, AllocQueue.Contents, SchedulerSpec.PushReady;
      sleepQ.Pop();
      tasks[t] := tasks[t].(state := Active, sleepLoc := null);
      assert Table() == old(Table())[t := Abstract(tasks[t])];
      forall u: Tid ensures LocatedReady(u) && LocatedSleep(u) {
        assert old(LocatedReady(u) && LocatedSleep(u));
      }
      PushReady(t);
    }

    /** The calls a task's function makes, in order. */
    method Execute(calls: seq<Call>)
      requires Valid() && CallsOk(View(), clock, calls)
      modifies Repr
      ensures Valid() && running == old(running)
      ensures View() == DoAll(old(View()), clock, calls)
    {
      hide AllocQueue.Valid, AllocQueue.Contents, Inv;
      hide SchedulerSpec.Start, SchedulerSpec.Sleep, SchedulerSpec.Wake, SchedulerSpec.Block;
      var i := 0;
      while i < |calls|
        invariant i <= |calls| && Valid() && running == old(running)
        invariant CallsOk(View(), clock, calls[i..])
        invariant DoAll(View(), clock, calls[i..]) == DoAll(old(View()), clock, calls)
      {
        assert calls[i..][0] == calls[i] && calls[i..][1..] == calls[i + 1..];
        match calls[i] {
          case CallStart(func, arg) => var tid := Start(func, arg);
          case CallSleep(t, time) => Sleep(t, time);
          case CallWake(t) => Wake(t);
          case CallBlock(t) => Block(t);
        }
        i := i + 1;
      }
    }

    /** sched_dispatch, in which the function of the task that runs (if any) makes the calls `body` and
        returns `ret`. */
    method Dispatch(body: seq<Call>, ret: RetType)
      requires Valid() && running == None && dispatched == MAX_NUM_TASKS
      requires EventOk(View(), clock, Event.Dispatch(body, ret))
      modifies Repr
      ensures Valid() && running == None && dispatched == MAX_NUM_TASKS
      ensures View() == Step(old(View()), clock, Event.Dispatch(body, ret))
    {
      hide AllocQueue.Valid, AllocQueue.Contents, Inv, DoAll, CallsOk, Begin, End, ReturnOk;
      var next := BeginDispatch();
      if next.Some? {
        Execute(body);
        EndDispatch(next.value, ret);
      }
    }

    /** sched_dispatch up to the call of the task's function. */
    method BeginDispatch() returns (next: Option<Tid>)
      requires Valid() && running == None && dispatched == MAX_NUM_TASKS
      modifies Repr
      ensures Valid() && running == next == Next(old(View()), clock)
      ensures View() == Begin(old(View()), clock)
      ensures next == None ==> dispatched == MAX_NUM_TASKS
    {
      hide AllocQueue.Valid, AllocQueue.Contents, Inv, SchedulerSpec.WakeupTasks;
      BeginKeeps(View(), clock);
      WakeupTasks();
      QueuesDistinct(View(), None);
      var node := readyQ.Peek();
      if node == null {
        label L:
        dispatched := MAX_NUM_TASKS;
        forall u: Tid ensures LocatedReady(u) && LocatedSleep(u) {
          assert old@L(LocatedReady(u) && LocatedSleep(u));
        }
        return None;
      }
      var t := PopReady(node);
      return Some(t);
    }

    /** sched_dispatch from the return of the task's function on. */
    method EndDispatch(t: Tid, ret: RetType)
      requires Valid() && running == Some(t) && ReturnOk(View(), t, ret)
      modifies Repr
      ensures Valid() && running == None && dispatched == MAX_NUM_TASKS
      ensures View() == End(old(View()), t, ret)
    {
      hide AllocQueue.Valid, AllocQueue.Contents, Inv, SchedulerSpec.PushReady;
      EndExact(View(), t, ret);
      if ret == RetError {
        SetState(t, Unallocated);
        Retire(t);
      } else if tasks[t].state == Active {
        PushReady(t);
      }
      label L:
      running, dispatched := None, MAX_NUM_TASKS;
      assert Table() == old@L(Table());
      forall u: Tid ensures LocatedReady(u) && LocatedSleep(u) {
        assert old@L(LocatedReady(u) && LocatedSleep(u));
      }
    }

    /** The task has ended. */
    ghost method Retire(t: Tid)
      requires Layout() && forall u: Tid :: LocatedReady(u) && LocatedSleep(u)
      modifies this`live
      ensures Layout() && forall u: Tid :: LocatedReady(u) && LocatedSleep(u)
      ensures View() == old(View()).(live := old(live) - {t})
    {
      hide AllocQueue.Valid, AllocQueue.Contents;
      live := live - {t};
      forall u: Tid ensures LocatedReady(u) && LocatedSleep(u) {
        assert old(LocatedReady(u) && LocatedSleep(u));
      }
    }

    /** `ready_q.pop()` and the reading of the popped node, which the pop leaves intact. */
    method PopReady(node: Node<Tid>) returns (t: Tid)
      requires Layout() && Distinct(readyQ.Contents()) && forall u: Tid :: LocatedReady(u) && LocatedSleep(u)
      requires readyQ.Nodes() != [] && readyQ.Nodes()[|readyQ.Nodes()| - 1] == node
      modifies Repr
      ensures Layout() && forall u: Tid :: LocatedReady(u) && LocatedSleep(u)
      ensures running == Some(t)
      ensures var s := old(View());
        t == s.ready[|s.ready| - 1] &&
        View() == Set(s, t, s.tasks[t].(onReady := false)).(ready := s.ready[..|s.ready| - 1], dispatched := s.tasks[t].tid)
    {
      hide AllocQueue.Valid, AllocQueue.Contents;
      assert node in readyQ.Nodes();
      readyQ.Pop();
      t := node.data;
      assert t == old(node.data);
      tasks[t] := tasks[t].(readyLoc := null);
      assert Table() == old(Table())[t := Abstract(tasks[t])];
      dispatched, running := tasks[t].tid, Some(t);
      forall u: Tid ensures LocatedReady(u) && LocatedSleep(u) {
        assert old(LocatedReady(u) && LocatedSleep(u));
      }
    }
  }
}

/** How long tasks wait, over whole runs of the scheduler: a ready task is dispatched within a bounded number of
    dispatches, and a sleeping one stays asleep until the clock has reached its wake time. */
module SchedulerFairness {
  import opened Options
  import opened Return
  import opened SimpleQueue
  import opened SchedulerSpec
  import opened SchedulerRuns

  // ---------------------------------------------------------------- bounded waiting

  /** How many tasks are dispatched before `t`: those nearer the tail. */
  function Ahead(q: seq<Tid>, t: Tid): nat
    requires t in q
  {
    if q[|q| - 1] == t then 0 else 1 + Ahead(q[..|q| - 1], t)
  }

  lemma {:induction false} AheadAt(q: seq<Tid>, t: Tid, i: nat)
    requires Distinct(q) && i < |q| && q[i] == t
    ensures Ahead(q, t) == |q| - 1 - i
  {
    if i < |q| - 1 {
      assert q[..|q| - 1][i] == t;
      AheadAt(q[..|q| - 1], t, i);
    }
  }

  lemma AheadAfterPush(q: seq<Tid>, t: Tid, front: seq<Tid>)
    requires Distinct(front + q) && t in q
    ensures t in front + q && Ahead(front + q, t) == Ahead(q, t)
  {
    var i :| 0 <= i < |q| && q[i] == t;
    assert (front + q)[|front| + i] == t;
    AheadAt(front + q, t, |front| + i);
    assert Distinct(q) by {
      forall j, k | 0 <= j < k < |q| ensures q[j] != q[k] {
        assert (front + q)[|front| + j] != (front + q)[|front| + k];
      }
    }
    AheadAt(q, t, i);
  }

  lemma AheadAfterRemoval(q: seq<Tid>, t: Tid, x: Tid)
    requires Distinct(q) && t in q && x != t
    ensures t in Without(q, x) && Ahead(Without(q, x), t) <= Ahead(q, t)
  {
    WithoutKeeps(q, x);
    var w := Without(q, x);
    var i :| 0 <= i < |q| && q[i] == t;
    var k := IndexIn(q, x);
    AheadAt(q, t, i);
    if k == |q| || i < k {
      AheadAt(w, t, i);
    } else {
      assert w[i - 1] == t;
      AheadAt(w, t, i - 1);
    }
  }

  /** The calls that may take `t` off the ready queue. */
  predicate Holds(c: Call, t: Tid) {
    (c.CallSleep? || c.CallBlock?) && c.t == t
  }

  predicate NeverHolds(calls: seq<Call>, t: Tid) {
    forall i :: 0 <= i < |calls| ==> !Holds(calls[i], t)
  }

  /** Until `t` is dispatched, nobody puts it to sleep or blocks it. What it does itself then is its own affair. */
  predicate NotHeld(s: Sched, clock: Clock, events: seq<Event>, t: Tid)
    decreases |events|
  {
    events == [] ||
    var rest, s' := events[1..], Step(s, clock, events[0]);
    match events[0]
    case Outside(c) => !Holds(c, t) && NotHeld(s', clock, rest, t)
    case Dispatch(body, _) => Next(s, clock) == Some(t) || (NeverHolds(body, t) && NotHeld(s', clock, rest, t))
  }

  lemma DoKeepsPlace(s: Sched, run: Option<Tid>, clock: Clock, c: Call, t: Tid)
    requires Inv(s, run) && CallOk(s, c) && t in s.ready && !Holds(c, t)
    ensures t in Do(s, clock, c).ready && Ahead(Do(s, clock, c).ready, t) <= Ahead(s.ready, t)
  {
    var s' := Do(s, clock, c);
    assert Placed(s, run, t);
    DoKeeps(s, run, clock, c);
    match c
    case CallStart(_, _) =>
      if s'.ready != s.ready {
        AheadAfterPush(s.ready, t, [FreeSlot(s.tasks, 0) as Tid]);
      }
    case CallSleep(x, time) =>
      SleepResult(s, run, clock, x, time);
      AheadAfterRemoval(s.ready, t, x);
    case CallWake(x) =>
      if s'.ready != s.ready {
        AheadAfterPush(s.ready, t, [x]);
      }
    case CallBlock(x) =>
      AheadAfterRemoval(s.ready, t, x);
  }

  lemma {:induction false} DoAllKeepsPlace(s: Sched, run: Option<Tid>, clock: Clock, calls: seq<Call>, t: Tid)
    requires Inv(s, run) && CallsOk(s, clock, calls) && t in s.ready && NeverHolds(calls, t)
    ensures t in DoAll(s, clock, calls).ready && Ahead(DoAll(s, clock, calls).ready, t) <= Ahead(s.ready, t)
    decreases |calls|
  {
    hide Inv, Do, CallOk;
    if calls == [] {
    } else {
      DoKeeps(s, run, clock, calls[0]);
      DoKeepsPlace(s, run, clock, calls[0], t);
      DoAllKeepsPlace(Do(s, clock, calls[0]), run, clock, calls[1..], t);
    }
  }

  /** A dispatch either runs `t` or brings it one place nearer. */
  lemma DispatchAdvances(s: Sched, clock: Clock, body: seq<Call>, ret: RetType, t: Tid)
    requires Idle(s) && EventOk(s, clock, Dispatch(body, ret)) && t in s.ready && NeverHolds(body, t)
    requires Next(s, clock) != Some(t)
    ensures var s' := Step(s, clock, Dispatch(body, ret)); t in s'.ready && Ahead(s'.ready, t) < Ahead(s.ready, t)
  {
    hide Inv, DoAll, CallsOk, ReturnOk, End, WakeupTasks;
    var s1 := WakeupTasks(s, clock);
    WakeupSplits(s, clock);
    QueuesDistinct(s1, None);
    AheadAfterPush(s.ready, t, s.sleep[|s1.sleep|..]);
    assert t in s1.ready;
    var x := s1.ready[|s1.ready| - 1];
    var s2 := Begin(s, clock);
    BeginKeeps(s, clock);
    assert t in s2.ready && Ahead(s2.ready, t) == Ahead(s1.ready, t) - 1;
    DoAllKeepsPlace(s2, Some(x), clock, body, t);
    DoAllKeeps(s2, Some(x), clock, body);
    EndKeepsPlace(DoAll(s2, clock, body), x, ret, t);
  }

  lemma EndKeepsPlace(s: Sched, x: Tid, ret: RetType, t: Tid)
    requires Inv(s, Some(x)) && ReturnOk(s, x, ret) && t in s.ready
    ensures t in End(s, x, ret).ready && Ahead(End(s, x, ret).ready, t) == Ahead(s.ready, t)
  {
    EndExact(s, x, ret);
    if End(s, x, ret).ready != s.ready {
      AheadAfterPush(s.ready, t, [x]);
    }
  }

  /** `t` is the task that runs in one of the first `k` + 1 dispatches of the run. */
  predicate DispatchedWithin(s: Sched, clock: Clock, events: seq<Event>, t: Tid, k: nat)
    decreases |events|
  {
    events != [] &&
    var rest := events[1..];
    var s' := Step(s, clock, events[0]);
    if events[0].Outside? then DispatchedWithin(s', clock, rest, t, k)
    else Next(s, clock) == Some(t) || (k > 0 && DispatchedWithin(s', clock, rest, t, k - 1))
  }

  function Dispatches(events: seq<Event>): nat {
    if events == [] then 0 else (if events[0].Dispatch? then 1 else 0) + Dispatches(events[1..])
  }

  /** Bounded waiting: a ready task with `k` tasks ahead of it runs in one of the next k + 1 dispatches, whatever the
      others do, provided nobody puts it to sleep or blocks it before. */
  lemma {:induction false} BoundedWaiting(s: Sched, clock: Clock, events: seq<Event>, t: Tid, k: nat)
    requires Idle(s) && EventsOk(s, clock, events) && NotHeld(s, clock, events, t)
    requires t in s.ready && Ahead(s.ready, t) <= k < Dispatches(events)
    ensures DispatchedWithin(s, clock, events, t, k)
    decreases |events|
  {
    hide Idle, Inv, Step, EventOk, Next;
    var e, s' := events[0], Step(s, clock, events[0]);
    StepKeeps(s, clock, e);
    match e
    case Outside(c) =>
      OutsideKeepsPlace(s, clock, c, t);
      BoundedWaiting(s', clock, events[1..], t, k);
    case Dispatch(body, ret) =>
      if Next(s, clock) != Some(t) {
        DispatchAdvances(s, clock, body, ret, t);
        BoundedWaiting(s', clock, events[1..], t, k - 1);
      }
  }

  lemma OutsideKeepsPlace(s: Sched, clock: Clock, c: Call, t: Tid)
    requires Idle(s) && EventOk(s, clock, Outside(c)) && t in s.ready && !Holds(c, t)
    ensures var s' := Step(s, clock, Outside(c)); t in s'.ready && Ahead(s'.ready, t) <= Ahead(s.ready, t)
  {
    DoKeepsPlace(s, None, clock, c, t);
  }

  /** So 64 dispatches always suffice. */
  lemma DispatchedWithin64(s: Sched, clock: Clock, events: seq<Event>, t: Tid)
    requires Idle(s) && EventsOk(s, clock, events) && NotHeld(s, clock, events, t)
    requires t in s.ready && Dispatches(events) >= MAX_NUM_TASKS
    ensures DispatchedWithin(s, clock, events, t, MAX_NUM_TASKS - 1)
  {
    QueuesFit(s, None);
    var i :| 0 <= i < |s.ready| && s.ready[i] == t;
    AheadAt(s.ready, t, i);
    BoundedWaiting(s, clock, events, t, MAX_NUM_TASKS - 1);
  }

  /** A task that is woken, from sleep or from being blocked, runs within |ready| + 1 dispatches. */
  lemma WokenIsDispatched(s: Sched, clock: Clock, events: seq<Event>, t: Tid)
    requires Idle(s) && (s.tasks[t].state.Sleeping? || s.tasks[t].state.Blocked?)
    requires EventsOk(Wake(s, t), clock, events) && NotHeld(Wake(s, t), clock, events, t)
    requires Dispatches(events) > |s.ready|
    ensures DispatchedWithin(Wake(s, t), clock, events, t, |s.ready|)
  {
    hide Inv, Wake, NotHeld, DispatchedWithin;
    WakeExact(s, None, t);
    WakeKeeps(s, None, t);
    var s' := Wake(s, t);
    QueuesDistinct(s', None);
    AheadAt(s'.ready, t, 0);
    BoundedWaiting(s', clock, events, t, |s.ready|);
  }

  // ---------------------------------------------------------------- blocked through a run

  /** The calls that name `t`. */
  predicate Touches(c: Call, t: Tid) {
    !c.CallStart? && c.t == t
  }

  predicate NeverTouches(calls: seq<Call>, t: Tid) {
    forall i :: 0 <= i < |calls| ==> !Touches(calls[i], t)
  }

  /** `t` is never the task that runs. */
  predicate NeverRuns(s: Sched, clock: Clock, events: seq<Event>, t: Tid)
    decreases |events|
  {
    events == [] ||
    (&& (events[0].Dispatch? ==> Next(s, clock) != Some(t))
     && NeverRuns(Step(s, clock, events[0]), clock, events[1..], t))
  }

  predicate NeverNamed(events: seq<Event>, t: Tid) {
    forall i :: 0 <= i < |events| ==>
      match events[i]
      case Outside(c) => !Touches(c, t)
      case Dispatch(body, _) => NeverTouches(body, t)
  }

  lemma DoLetsBlock(s: Sched, run: Option<Tid>, clock: Clock, c: Call, t: Tid)
    requires Inv(s, run) && s.tasks[t].state.Blocked? && !Touches(c, t)
    ensures Do(s, clock, c).tasks[t].state.Blocked?
  {
    assert Placed(s, run, t);
    hide Without, SortedInsert, SleepSort;
  }

  lemma {:induction false} DoAllLetsBlock(s: Sched, run: Option<Tid>, clock: Clock, calls: seq<Call>, t: Tid)
    requires Inv(s, run) && CallsOk(s, clock, calls) && s.tasks[t].state.Blocked? && NeverTouches(calls, t)
    ensures DoAll(s, clock, calls).tasks[t].state.Blocked?
    decreases |calls|
  {
    hide Inv, Do, CallOk;
    if calls == [] {
    } else {
      DoKeeps(s, run, clock, calls[0]);
      DoLetsBlock(s, run, clock, calls[0], t);
      DoAllLetsBlock(Do(s, clock, calls[0]), run, clock, calls[1..], t);
    }
  }

  lemma {:induction false} WakeupLetsBlock(s: Sched, clock: Clock, t: Tid)
    requires Inv(s, None) && s.tasks[t].state.Blocked?
    ensures WakeupTasks(s, clock).tasks[t].state.Blocked?
    decreases |s.sleep|
  {
    if s.sleep == [] {
    } else if clock(s.readings) >= s.tasks[s.sleep[|s.sleep| - 1]].wake {
      var w := s.sleep[|s.sleep| - 1];
      assert w in s.sleep && Placed(s, None, w) && Placed(s, None, t);
      ReadClockKeeps(s);
      WakeLastKeeps(s.(readings := s.readings + 1));
      WakeupLetsBlock(WakeLast(s.(readings := s.readings + 1)), clock, t);
    }
  }

  lemma BeginLetsBlock(s: Sched, clock: Clock, t: Tid)
    requires Idle(s) && s.tasks[t].state.Blocked?
    ensures Begin(s, clock).tasks[t].state.Blocked? && Next(s, clock) != Some(t)
  {
    hide WakeupTasks;
    WakeupSplits(s, clock);
    WakeupLetsBlock(s, clock, t);
    var s1 := WakeupTasks(s, clock);
    assert Placed(s1, None, t);
    if s1.ready != [] {
      assert s1.ready[|s1.ready| - 1] in s1.ready;
    }
  }

  lemma StepLetsBlock(s: Sched, clock: Clock, e: Event, t: Tid)
    requires Idle(s) && EventOk(s, clock, e) && s.tasks[t].state.Blocked?
    requires match e case Outside(c) => !Touches(c, t) case Dispatch(body, _) => NeverTouches(body, t)
    ensures Step(s, clock, e).tasks[t].state.Blocked? && (e.Dispatch? ==> Next(s, clock) != Some(t))
  {
    match e
    case Outside(c) => DoLetsBlock(s, None, clock, c, t);
    case Dispatch(body, ret) =>
      BeginLetsBlock(s, clock, t);
      BeginKeeps(s, clock);
      hide Inv, Begin;
      match Next(s, clock)
      case None =>
      case Some(x) => DoAllLetsBlock(Begin(s, clock), Some(x), clock, body, t);
  }

  /** sched_block's promise: over every run in which no call names it, a blocked task stays blocked and is never
      dispatched. */
  lemma {:induction false} BlockedUntilWoken(s: Sched, clock: Clock, events: seq<Event>, t: Tid)
    requires Idle(s) && EventsOk(s, clock, events) && s.tasks[t].state.Blocked? && NeverNamed(events, t)
    ensures NeverRuns(s, clock, events, t) && Run(s, clock, events).tasks[t].state.Blocked?
    decreases |events|
  {
    hide Idle, Inv, Step, EventOk, Next;
    if events == [] {
    } else {
      assert forall i :: 0 <= i < |events[1..]| ==> events[1..][i] == events[i + 1];
      StepKeeps(s, clock, events[0]);
      StepLetsBlock(s, clock, events[0], t);
      BlockedUntilWoken(Step(s, clock, events[0]), clock, events[1..], t);
    }
  }

  // ---------------------------------------------------------------- sleeping through a run

  /** The event leaves it to the clock to wake `t`. The task that runs may do with one that the clock has just woken as
      it likes; often that is itself. */
  predicate LetsSleep(s: Sched, clock: Clock, e: Event, t: Tid) {
    match e
    case Outside(c) => !Touches(c, t)
    case Dispatch(body, _) => t in Begin(s, clock).sleep ==> NeverTouches(body, t)
  }

  predicate WokenBy(s: Sched, clock: Clock, e: Event, t: Tid) {
    e.Dispatch? && t !in Begin(s, clock).sleep
  }

  /** No call names `t` as long as it sleeps. */
  predicate LeftAsleep(s: Sched, clock: Clock, events: seq<Event>, t: Tid)
    decreases |events|
  {
    events == [] ||
    (&& LetsSleep(s, clock, events[0], t)
     && (WokenBy(s, clock, events[0], t) || LeftAsleep(Step(s, clock, events[0]), clock, events[1..], t)))
  }

  /** `t` sleeps in `s'` with the wake time it has in `s`, and the clock has only been read on. */
  ghost predicate StillAsleep(s: Sched, s': Sched, t: Tid) {
    t in s'.sleep && s'.tasks[t].wake == s.tasks[t].wake && s'.readings >= s.readings
  }

  lemma DoLetsSleep(s: Sched, run: Option<Tid>, clock: Clock, c: Call, t: Tid)
    requires Inv(s, run) && CallOk(s, c) && t in s.sleep && !Touches(c, t)
    ensures StillAsleep(s, Do(s, clock, c), t)
  {
    hide Without, SortedInsert, SleepSort;
    var s' := Do(s, clock, c);
    assert Placed(s, run, t);
    match c
    case CallStart(_, _) =>
    case CallSleep(x, time) => SleepLetsSleep(s, run, clock, x, time, t);
    case CallWake(x) => WithoutKeeps(s.sleep, x);
    case CallBlock(x) => WithoutKeeps(s.sleep, x);
  }

  lemma SleepLetsSleep(s: Sched, run: Option<Tid>, clock: Clock, x: Tid, time: Time, t: Tid)
    requires Inv(s, run) && t in s.sleep && x != t
    ensures StillAsleep(s, Sleep(s, clock, x, time), t)
  {
    hide Sleep, Without, SleepSort;
    SleepResult(s, run, clock, x, time);
    WithoutKeeps(s.sleep, x);
    var at := Slept(s, clock, x, time);
    var q := Without(s.sleep, x);
    InsertedMembers(q, InsertPos(SleepSort(at), q, x), x);
  }

  lemma {:induction false} DoAllLetsSleep(s: Sched, run: Option<Tid>, clock: Clock, calls: seq<Call>, t: Tid)
    requires Inv(s, run) && CallsOk(s, clock, calls) && t in s.sleep && NeverTouches(calls, t)
    ensures StillAsleep(s, DoAll(s, clock, calls), t)
    decreases |calls|
  {
    hide Inv, Do, CallOk;
    if calls == [] {
    } else {
      DoKeeps(s, run, clock, calls[0]);
      DoLetsSleep(s, run, clock, calls[0], t);
      DoAllLetsSleep(Do(s, clock, calls[0]), run, clock, calls[1..], t);
    }
  }

  lemma StepLetsSleep(s: Sched, clock: Clock, e: Event, t: Tid)
    requires Idle(s) && EventOk(s, clock, e) && t in s.sleep && LetsSleep(s, clock, e, t)
    ensures StillAsleep(s, Step(s, clock, e), t)
      || Reached(clock, s.readings, Step(s, clock, e).readings, s.tasks[t].wake)
    ensures WokenBy(s, clock, e, t) ==>
      Reached(clock, s.readings, Step(s, clock, e).readings, s.tasks[t].wake)
  {
    match e
    case Outside(c) => DoLetsSleep(s, None, clock, c, t);
    case Dispatch(body, ret) =>
      BeginLetsSleep(s, clock, t);
      BeginKeeps(s, clock);
      ReadingsGrow(Begin(s, clock), clock, body);
      hide Inv, Begin, End;
      match Next(s, clock)
      case None =>
      case Some(x) =>
        BodyLetsSleep(s, Begin(s, clock), clock, x, body, t);
        EndLetsSleep(DoAll(Begin(s, clock), clock, body), x, ret, t);
  }

  lemma BeginLetsSleep(s: Sched, clock: Clock, t: Tid)
    requires Idle(s) && t in s.sleep
    ensures StillAsleep(s, Begin(s, clock), t) || Reached(clock, s.readings, Begin(s, clock).readings, s.tasks[t].wake)
  {
    WakeupSplits(s, clock);
    if t !in WakeupTasks(s, clock).sleep {
      NobodyWokenEarly(s, clock, t);
    }
  }

  lemma BodyLetsSleep(s0: Sched, s: Sched, clock: Clock, x: Tid, body: seq<Call>, t: Tid)
    requires Inv(s, Some(x)) && CallsOk(s, clock, body) && (t in s.sleep ==> NeverTouches(body, t))
    requires StillAsleep(s0, s, t) || Reached(clock, s0.readings, s.readings, s0.tasks[t].wake)
    ensures var s' := DoAll(s, clock, body);
            StillAsleep(s0, s', t) || Reached(clock, s0.readings, s'.readings, s0.tasks[t].wake)
  {
    hide Inv;
    ReadingsGrow(s, clock, body);
    if StillAsleep(s0, s, t) {
      DoAllLetsSleep(s, Some(x), clock, body, t);
    } else {
      var r: nat :| s0.readings <= r < s.readings && clock(r) >= s0.tasks[t].wake;
    }
  }

  lemma EndLetsSleep(s: Sched, x: Tid, ret: RetType, t: Tid)
    ensures End(s, x, ret).sleep == s.sleep && End(s, x, ret).readings == s.readings
    ensures End(s, x, ret).tasks[t].wake == s.tasks[t].wake
  {
  }

  lemma {:induction false} ReadingsGrow(s: Sched, clock: Clock, calls: seq<Call>)
    ensures DoAll(s, clock, calls).readings >= s.readings
    decreases |calls|
  {
    if calls == [] {
    } else {
      ReadingsGrow(Do(s, clock, calls[0]), clock, calls[1..]);
    }
  }

  /** Nobody wakes early: over any run in which no call names `t` as long as it sleeps, it stays on the sleep
      queue, with its wake time, until the scheduler has read a clock value that reaches that time. */
  lemma {:induction false} SleepsUntilWakeTime(s: Sched, clock: Clock, events: seq<Event>, t: Tid)
    requires Idle(s) && EventsOk(s, clock, events) && t in s.sleep && LeftAsleep(s, clock, events, t)
    ensures StillAsleep(s, Run(s, clock, events), t)
      || Reached(clock, s.readings, Run(s, clock, events).readings, s.tasks[t].wake)
    decreases |events|
  {
    hide Idle, Inv, Step, EventOk;
    if events == [] {
    } else {
      var s' := Step(s, clock, events[0]);
      StepKeeps(s, clock, events[0]);
      StepLetsSleep(s, clock, events[0], t);
      RunReadingsGrow(s', clock, events[1..]);
      if Reached(clock, s.readings, s'.readings, s.tasks[t].wake) {
        ReachedLater(clock, s.readings, s'.readings, Run(s, clock, events).readings, s.tasks[t].wake);
      } else {
        SleepsUntilWakeTime(s', clock, events[1..], t);
      }
    }
  }

  lemma ReachedLater(clock: Clock, i: nat, j: nat, k: nat, time: nat)
    requires Reached(clock, i, j, time) && j <= k
    ensures Reached(clock, i, k, time)
  {
  }

  lemma {:induction false} RunReadingsGrow(s: Sched, clock: Clock, events: seq<Event>)
    requires Idle(s) && EventsOk(s, clock, events)
    ensures Run(s, clock, events).readings >= s.readings
    decreases |events|
  {
    hide Idle, Inv, Step, EventOk;
    if events == [] {
    } else {
      StepKeeps(s, clock, events[0]);
      StepReadingsGrow(s, clock, events[0]);
      RunReadingsGrow(Step(s, clock, events[0]), clock, events[1..]);
    }
  }

  lemma StepReadingsGrow(s: Sched, clock: Clock, e: Event)
    requires Idle(s)
    ensures Step(s, clock, e).readings >= s.readings
  {
    match e
    case Outside(c) => DoReadingsGrow(s, clock, c);
    case Dispatch(body, ret) =>
      BeginReadingsGrow(s, clock);
      hide Inv, Begin, End, Do;
      match Next(s, clock)
      case None =>
      case Some(x) =>
        ReadingsGrow(Begin(s, clock), clock, body);
        EndLetsSleep(DoAll(Begin(s, clock), clock, body), x, ret, x);
  }

  lemma BeginReadingsGrow(s: Sched, clock: Clock)
    requires Inv(s, None)
    ensures Begin(s, clock).readings >= s.readings
  {
    WakeupSplits(s, clock);
  }

  lemma DoReadingsGrow(s: Sched, clock: Clock, c: Call)
    ensures Do(s, clock, c).readings >= s.readings
  {
  }
}

/** The blocking semaphore of sync/BlockingSemaphore.h over the scheduler, as a transition system: permits may be
    taken by tasks that never waited (barging), and a woken task that finds none queues again. */
module SemaphoreSpec {
  import opened Options
  import opened Return
  import opened SimpleQueue
  import opened SchedulerSpec
  import opened SchedulerRuns
  import opened SchedulerFairness

  /** `parked` are the tasks whose label in acquire() is the one behind BLOCK(): they wait, or they have been
      woken and have not yet run acquire() again. `run` is the task whose function is being executed. */
  datatype Sem = Sem(count: int, waiting: seq<Tid>, lock: nat, parked: set<Tid>, sched: Sched, run: Option<Tid>)

  ghost function Waiters(m: Sem): set<Tid> {
    set t | t in m.waiting
  }

  /** Woken by release() and on the way to take a permit. */
  ghost function Woken(m: Sem): set<Tid> {
    m.parked - Waiters(m)
  }

  // ---------------------------------------------------------------- the operations

  function Release(m: Sem): Sem {
    var n := |m.waiting|;
    if n == 0 then m.(count := m.count + 1)
    else m.(count := m.count + 1, waiting := m.waiting[..n - 1], sched := Wake(m.sched, m.waiting[n - 1]))
  }

  /** One execution of acquire() by task `t`, from its label to its return. A full queue leaves the lock held. */
  function Acquire(m: Sem, t: Tid): (Sem, RetType) {
    if m.count != 0 then (m.(count := m.count - 1, parked := m.parked - {t}), RetSuccess)
    else if |m.waiting| == MAX_NUM_TASKS then (m.(lock := 0), RetError)
    else (m.(waiting := [t] + m.waiting, parked := m.parked + {t}, sched := Block(m.sched, t)), RetBlocked)
  }

  // ---------------------------------------------------------------- runs

  datatype Event =
    | DoRelease            // release(), called by anybody
    | DoAcquire            // acquire(), called or re-entered by the running task; RET_BLOCKED ends its dispatch
    | DoOther(call: Call)  // any other call of the scheduler
    | DoBegin              // sched_dispatch hands over to the next task
    | DoEnd(ret: RetType)  // the running task returns

  function Step(m: Sem, clock: Clock, e: Event): Sem {
    match e
    case DoRelease => Release(m)
    case DoAcquire =>
      if m.run == None then m
      else
        var (m1, ret) := Acquire(m, m.run.value);
        if ret == RetBlocked then m1.(sched := End(m1.sched, m.run.value, ret), run := None) else m1
    case DoOther(c) => m.(sched := Do(m.sched, clock, c))
    case DoBegin => m.(sched := Begin(m.sched, clock), run := Next(m.sched, clock))
    case DoEnd(ret) => if m.run == None then m else m.(sched := End(m.sched, m.run.value, ret), run := None)
  }

  function Run(m: Sem, clock: Clock, events: seq<Event>): Sem
    decreases |events|
  {
    if events == [] then m else Run(Step(m, clock, events[0]), clock, events[1..])
  }

  /** What the rest of the program owes: it leaves it to release() to wake the tasks that block in acquire(), a task
      that was blocked there runs acquire() again before it returns, and a task that has put itself to sleep or
      blocked itself returns instead of calling acquire(). */
  ghost predicate EventOk(m: Sem, e: Event) {
    match e
    case DoRelease => true
    case DoAcquire => m.run.Some? && m.sched.tasks[m.run.value].state == Active && m.run.value !in m.sched.ready
    case DoOther(c) => CallOk(m.sched, c) && forall t :: t in m.parked ==> !Touches(c, t)
    case DoBegin => m.run == None
    case DoEnd(ret) => m.run.Some? && m.run.value !in m.parked && ReturnOk(m.sched, m.run.value, ret)
  }

  ghost predicate EventsOk(m: Sem, clock: Clock, events: seq<Event>)
    decreases |events|
  {
    events == [] || (EventOk(m, events[0]) && EventsOk(Step(m, clock, events[0]), clock, events[1..]))
  }

  // ---------------------------------------------------------------- the invariant

  /** No wakeup is lost: while somebody waits, every permit has a woken task on its way to it. */
  ghost predicate NoLostWakeup(m: Sem) {
    m.waiting != [] ==> m.count <= |Woken(m)|
  }

  /** A waiting task is blocked; a woken one is ready or runs. */
  ghost predicate Parked(m: Sem, t: Tid) {
    && (t in m.waiting ==> t in m.parked && m.sched.tasks[t].state == Blocked && m.run != Some(t))
    && (t in m.parked && t !in m.waiting ==> m.sched.tasks[t].state == Active)
  }

  ghost predicate SchedInv(m: Sem) {
    && Inv(m.sched, m.run)
    && m.sched.dispatched == (match m.run case None => MAX_NUM_TASKS case Some(t) => t)
  }

  ghost predicate SemInv(m: Sem) {
    && SchedInv(m)
    && Distinct(m.waiting) && (forall t: Tid :: Parked(m, t))
    && m.lock == 1 && m.count >= 0
    && NoLostWakeup(m)
  }

  lemma LockFree(m: Sem)
    requires SemInv(m)
    ensures m.lock == 1
  {
  }

  lemma RunningTask(m: Sem)
    requires SemInv(m) && m.run.Some?
    ensures m.sched.dispatched == m.run.value && CallOk(m.sched, CallBlock(m.run.value))
  {
    assert Placed(m.sched, m.run, m.run.value);
  }

  // ---------------------------------------------------------------- every step keeps it

  lemma ReleaseKeeps(m: Sem)
    requires SemInv(m)
    ensures SemInv(Release(m))
  {
    var n, m' := |m.waiting|, Release(m);
    if n == 0 {
      forall t: Tid ensures Parked(m', t) {
        assert Parked(m, t);
      }
    } else {
      var w := m.waiting[n - 1];
      assert Parked(m, w) && w in m.waiting;
      WakeKeeps(m.sched, m.run, w);
      RemovedMembers(m.waiting, n - 1);
      assert m'.waiting == Removed(m.waiting, n - 1);
      WakeBlocked(m.sched, m.run, w);
      forall t: Tid ensures Parked(m', t) {
        assert Parked(m, t);
      }
      assert Woken(m') == Woken(m) + {w};
    }
  }

  /** sched_wake on a blocked task makes it ready and touches nobody else. */
  lemma WakeBlocked(s: Sched, run: Option<Tid>, w: Tid)
    requires Inv(s, run) && s.tasks[w].state == Blocked
    ensures Wake(s, w).tasks[w].state == Active && w in Wake(s, w).ready
    ensures forall t: Tid :: t != w ==> Wake(s, w).tasks[t] == s.tasks[t]
    ensures Wake(s, w).dispatched == s.dispatched
  {
    assert Placed(s, run, w);
    Room(s.ready, w);
  }

  /** The wait queue has room for every task that does not wait already: the push in acquire() cannot fail. */
  lemma WaitQueueHasRoom(m: Sem, t: Tid)
    requires Distinct(m.waiting) && t !in m.waiting
    ensures |m.waiting| < MAX_NUM_TASKS
    ensures Acquire(m, t).1 == if m.count != 0 then RetSuccess else RetBlocked
  {
    Room(m.waiting, t);
  }

  /** The states acquire() may find if somebody else wakes waiting tasks: the running task may be waiting. */
  ghost predicate Stray(m: Sem, r: Tid) {
    && m.run == Some(r) && SchedInv(m)
    && Distinct(m.waiting) && (forall t: Tid :: t != r ==> Parked(m, t))
    && (r in m.waiting ==> r in m.parked)
    && m.lock == 1 && m.count >= 0
    && NoLostWakeup(m)
    && m.sched.tasks[r].state == Active && r !in m.sched.ready
  }

  /** acquire() keeps the invariant iff the task that runs it is not on the wait queue, which is why waiting tasks
      may be woken by release() only: a stray wakeup queues the task twice, or leaves a stale entry behind. */
  lemma AcquireExact(m: Sem, clock: Clock, r: Tid)
    requires Stray(m, r)
    ensures SemInv(Step(m, clock, DoAcquire)) <==> r !in m.waiting
  {
    hide SemInv, Step, Stray;
    if r in m.waiting {
      WaitingBreaks(m, clock, r);
    } else {
      assert Distinct(m.waiting) by {
        StrayWaiting(m, r);
      }
      WaitQueueHasRoom(m, r);
      if m.count != 0 {
        TakeKeeps(m, clock, r);
      } else {
        ParkKeeps(m, clock, r);
      }
    }
  }

  /** In particular a wakeup from elsewhere, such as that of a socket's receive(), of a task that waits here: as soon as
      it is dispatched and runs acquire() again, the semaphore is broken. */
  lemma StrayWakeupBreaks(m: Sem, clock: Clock, w: Tid)
    requires SemInv(m) && m.run == None && w in m.waiting
    requires Next(Wake(m.sched, w), clock) == Some(w)
    ensures var m' := Step(Step(m, clock, DoOther(CallWake(w))), clock, DoBegin);
      m'.run == Some(w) && !SemInv(Step(m', clock, DoAcquire))
  {
    hide Wake, Begin, Next, Acquire;
    var m1 := m.(sched := Wake(m.sched, w));
    var m2 := m1.(sched := Begin(m1.sched, clock), run := Some(w));
    assert Parked(m, w);
    WakeKeeps(m.sched, None, w);
    WakeBlocked(m.sched, None, w);
    BeginKeeps(m1.sched, clock);
    BeginKeepsStates(m1.sched, clock);
    BeginTakesOff(m1.sched, clock, w);
    forall t: Tid | t != w ensures Parked(m2, t) {
      assert Parked(m, t);
    }
    assert Woken(m2) == Woken(m);
    AcquireExact(m2, clock, w);
  }

  lemma BeginTakesOff(s: Sched, clock: Clock, w: Tid)
    requires Idle(s) && Next(s, clock) == Some(w)
    ensures w !in Begin(s, clock).ready
  {
    WakeupSplits(s, clock);
    QueuesDistinct(WakeupTasks(s, clock), None);
    hide Inv, WakeupTasks;
  }

  lemma StrayWaiting(m: Sem, r: Tid)
    requires Stray(m, r)
    ensures Distinct(m.waiting)
  {
  }

  lemma WaitingBreaks(m: Sem, clock: Clock, r: Tid)
    requires Stray(m, r) && r in m.waiting
    ensures !SemInv(Step(m, clock, DoAcquire))
  {
    hide Inv, Block, End, SchedInv, NoLostWakeup, Woken;
    var m' := Step(m, clock, DoAcquire);
    if m.count != 0 {
      assert !Parked(m', r);
    } else {
      Count(m.waiting, MAX_NUM_TASKS);
      var i :| 0 <= i < |m.waiting| && m.waiting[i] == r;
      if |m.waiting| < MAX_NUM_TASKS {
        assert m'.waiting == [r] + m.waiting;
        assert m'.waiting[0] == m'.waiting[i + 1];
      } else {
        assert m'.lock == 0;
      }
    }
  }

  lemma TakeKeeps(m: Sem, clock: Clock, r: Tid)
    requires Stray(m, r) && r !in m.waiting && m.count != 0
    ensures SemInv(Step(m, clock, DoAcquire))
  {
    var m' := Step(m, clock, DoAcquire);
    forall t: Tid ensures Parked(m', t) {
      assert t != r ==> Parked(m, t);
    }
    assert Woken(m') == Woken(m) - {r};
  }

  lemma ParkKeeps(m: Sem, clock: Clock, r: Tid)
    requires Stray(m, r) && r !in m.waiting && m.count == 0
    ensures SemInv(Step(m, clock, DoAcquire))
  {
    var m' := Step(m, clock, DoAcquire);
    WaitQueueHasRoom(m, r);
    assert Placed(m.sched, m.run, r);
    BlockExact(m.sched, m.run, r);
    var s1 := Block(m.sched, r);
    assert s1.tasks[r].state == Blocked && forall t: Tid :: t != r ==> s1.tasks[t] == m.sched.tasks[t];
    EndExact(s1, r, RetBlocked);
    forall t: Tid ensures Parked(m', t) {
      assert t != r ==> Parked(m, t);
    }
  }

  lemma RunningNotWaiting(m: Sem, r: Tid)
    requires SemInv(m) && m.run == Some(r) && m.sched.tasks[r].state == Active && r !in m.sched.ready
    ensures Stray(m, r) && r !in m.waiting
  {
    assert Parked(m, r);
  }

  /** The push in acquire() never fails, and after a permit has been taken all is well. */
  lemma AcquireResult(m: Sem, clock: Clock)
    requires SemInv(m) && EventOk(m, DoAcquire)
    ensures Acquire(m, m.run.value).1 != RetError
    ensures Acquire(m, m.run.value).1 == RetSuccess ==> SemInv(Acquire(m, m.run.value).0)
  {
    RunningNotWaiting(m, m.run.value);
    WaitQueueHasRoom(m, m.run.value);
    AcquireExact(m, clock, m.run.value);
  }

  /** A scheduler call that touches no parked task leaves all of them as they are. */
  lemma OtherKeeps(m: Sem, clock: Clock, c: Call)
    requires SemInv(m) && EventOk(m, DoOther(c))
    ensures SemInv(Step(m, clock, DoOther(c)))
  {
    var m' := Step(m, clock, DoOther(c));
    DoKeeps(m.sched, m.run, clock, c);
    DoKeepsDispatched(m.sched, clock, c);
    forall t: Tid ensures Parked(m', t) {
      assert Parked(m, t);
      assert Placed(m.sched, m.run, t);
      if t in m.parked {
        DoKeepsTask(m.sched, clock, c, t);
      }
    }
    assert Woken(m') == Woken(m);
  }

  lemma DoKeepsTask(s: Sched, clock: Clock, c: Call, t: Tid)
    requires !Touches(c, t) && !s.tasks[t].state.Unallocated?
    ensures Do(s, clock, c).tasks[t] == s.tasks[t]
  {
  }

  lemma BeginKeepsSem(m: Sem, clock: Clock)
    requires SemInv(m) && m.run == None
    ensures SemInv(Step(m, clock, DoBegin))
  {
    var m' := Step(m, clock, DoBegin);
    BeginKeeps(m.sched, clock);
    BeginKeepsStates(m.sched, clock);
    forall t: Tid ensures Parked(m', t) {
      assert Parked(m, t);
      assert Placed(m.sched, None, t);
    }
    assert Woken(m') == Woken(m);
  }

  /** sched_dispatch wakes sleepers and runs a ready task; blocked tasks stay blocked, awake ones awake. */
  lemma BeginKeepsStates(s: Sched, clock: Clock)
    requires Idle(s)
    ensures forall t: Tid :: s.tasks[t].state != Sleeping ==> Begin(s, clock).tasks[t].state == s.tasks[t].state
    ensures forall t: Tid :: Next(s, clock) == Some(t) ==> s.tasks[t].state == Active || s.tasks[t].state == Sleeping
  {
    hide WakeupTasks;
    WakeupKeepsStates(s, clock);
    WakeupSplits(s, clock);
    var s1 := WakeupTasks(s, clock);
    if s1.ready != [] {
      var t := s1.ready[|s1.ready| - 1];
      assert t in s1.ready && Placed(s1, None, t) && Placed(s, None, t);
    }
  }

  lemma {:induction false} WakeupKeepsStates(s: Sched, clock: Clock)
    requires Inv(s, None)
    ensures forall t: Tid :: s.tasks[t].state != Sleeping ==> WakeupTasks(s, clock).tasks[t].state == s.tasks[t].state
    decreases |s.sleep|
  {
    if s.sleep != [] && clock(s.readings) >= s.tasks[s.sleep[|s.sleep| - 1]].wake {
      var w := s.sleep[|s.sleep| - 1];
      var s1 := s.(readings := s.readings + 1);
      assert w in s.sleep && Placed(s, None, w);
      ReadClockKeeps(s);
      WakeLastKeeps(s1);
      WakeupKeepsStates(WakeLast(s1), clock);
    }
  }

  lemma EndKeepsSem(m: Sem, clock: Clock, ret: RetType)
    requires SemInv(m) && EventOk(m, DoEnd(ret))
    ensures SemInv(Step(m, clock, DoEnd(ret)))
  {
    var m' := Step(m, clock, DoEnd(ret));
    var r := m.run.value;
    EndExact(m.sched, r, ret);
    forall t: Tid ensures Parked(m', t) {
      assert Parked(m, t);
    }
    assert Woken(m') == Woken(m);
  }

  lemma StepKeeps(m: Sem, clock: Clock, e: Event)
    requires SemInv(m) && EventOk(m, e)
    ensures SemInv(Step(m, clock, e))
  {
    match e
    case DoRelease => ReleaseKeeps(m);
    case DoAcquire =>
      RunningNotWaiting(m, m.run.value);
      AcquireExact(m, clock, m.run.value);
    case DoOther(c) => OtherKeeps(m, clock, c);
    case DoBegin => BeginKeepsSem(m, clock);
    case DoEnd(ret) => EndKeepsSem(m, clock, ret);
  }

  /** Every reachable state satisfies the invariant: no wakeup is lost, nobody waits twice, the lock is free. */
  lemma {:induction false} RunKeepsSem(m: Sem, clock: Clock, events: seq<Event>)
    requires SemInv(m) && EventsOk(m, clock, events)
    ensures SemInv(Run(m, clock, events))
    decreases |events|
  {
    hide SemInv, Step, EventOk;
    if events == [] {
    } else {
      StepKeeps(m, clock, events[0]);
      RunKeepsSem(Step(m, clock, events[0]), clock, events[1..]);
    }
  }

  /** BlockingSemaphore(count) on a scheduler that is between two dispatches. */
  lemma InitialSem(count: int, s: Sched)
    requires Idle(s)
    ensures SemInv(Sem(count, [], 1, {}, s, None)) <==> count >= 0
  {
    var m := Sem(count, [], 1, {}, s, None);
    assert forall t: Tid :: Parked(m, t);
  }

  /** While permits are left and somebody waits, as many woken tasks as there are permits are ready to be dispatched
      (each within 64 dispatches, see SchedulerFairness) or running. */
  lemma PermitsAreFetched(m: Sem)
    requires SemInv(m) && m.count > 0 && m.waiting != []
    ensures |Woken(m)| >= m.count
    ensures forall t :: t in Woken(m) ==> m.run == Some(t) || (t in m.sched.ready && Ahead(m.sched.ready, t) < MAX_NUM_TASKS)
  {
    forall t | t in Woken(m) ensures m.run == Some(t) || (t in m.sched.ready && Ahead(m.sched.ready, t) < MAX_NUM_TASKS) {
      assert Parked(m, t) && Placed(m.sched, m.run, t);
      if t in m.sched.ready {
        Count(m.sched.ready, MAX_NUM_TASKS);
        var i :| 0 <= i < |m.sched.ready| && m.sched.ready[i] == t;
        AheadAt(m.sched.ready, t, i);
      }
    }
  }

  // ---------------------------------------------------------------- first come, first served

  /** release() wakes the task that has waited longest, if any, and leaves the others waiting in their order. */
  lemma ReleaseExact(m: Sem)
    requires SemInv(m)
    ensures var m' := Release(m);
      && m'.count == m.count + 1 && m'.lock == m.lock && m'.parked == m.parked && m'.run == m.run
      && (m.waiting == [] ==> m'.waiting == [] && m'.sched == m.sched)
      && (m.waiting != [] ==>
            var w := m.waiting[|m.waiting| - 1];
            && m.waiting == m'.waiting + [w] && Ahead(m.waiting, w) == 0
            && m'.sched.ready == [w] + m.sched.ready && m'.sched.tasks[w].state == Active
            && forall t: Tid :: t != w ==> m'.sched.tasks[t] == m.sched.tasks[t])
  {
    hide Wake, Inv;
    if m.waiting != [] {
      var w := m.waiting[|m.waiting| - 1];
      assert w in m.waiting && Parked(m, w);
      WakeExact(m.sched, m.run, w);
    }
  }

  /** While `t` waits with `k` tasks that came before it, nothing but release() changes that, and each release() brings
      it one place nearer, whoever takes the permits. */
  lemma StepInTurn(m: Sem, clock: Clock, e: Event, t: Tid)
    requires SemInv(m) && EventOk(m, e) && t in m.waiting && (e.DoRelease? ==> Ahead(m.waiting, t) > 0)
    ensures var m' := Step(m, clock, e);
      t in m'.waiting && Ahead(m'.waiting, t) == Ahead(m.waiting, t) - if e.DoRelease? then 1 else 0
  {
    hide SchedInv, Begin, End, Do, Block, Wake;
    match e
    case DoAcquire =>
      var r := m.run.value;
      RunningNotWaiting(m, r);
      WaitQueueHasRoom(m, r);
      if m.count == 0 {
        PushedDistinct(m.waiting, r);
        AheadAfterPush(m.waiting, t, [r]);
      }
    case _ =>
  }

  lemma PushedDistinct(q: seq<Tid>, r: Tid)
    requires Distinct(q) && r !in q
    ensures Distinct([r] + q)
  {
  }

  function Releases(events: seq<Event>): nat {
    if events == [] then 0 else (if events[0].DoRelease? then 1 else 0) + Releases(events[1..])
  }

  /** So a task waits its turn: as long as there have been no more releases than tasks before it, it is still there, that
      much nearer. */
  lemma {:induction false} WaitsItsTurn(m: Sem, clock: Clock, events: seq<Event>, t: Tid)
    requires SemInv(m) && EventsOk(m, clock, events) && t in m.waiting && Releases(events) <= Ahead(m.waiting, t)
    ensures var m' := Run(m, clock, events);
      SemInv(m') && t in m'.waiting && Ahead(m'.waiting, t) == Ahead(m.waiting, t) - Releases(events)
    decreases |events|
  {
    hide SemInv, Step, EventOk, Ahead;
    if events == [] {
    } else {
      StepInTurn(m, clock, events[0], t);
      StepKeeps(m, clock, events[0]);
      WaitsItsTurn(Step(m, clock, events[0]), clock, events[1..], t);
    }
  }

  /** And the next release() wakes it: of the releases since it began to wait with `k` tasks before it, exactly the one
      after the k-th. */
  lemma TurnComes(m: Sem, clock: Clock, events: seq<Event>, t: Tid)
    requires SemInv(m) && EventsOk(m, clock, events) && t in m.waiting && Releases(events) == Ahead(m.waiting, t)
    ensures var m' := Step(Run(m, clock, events), clock, DoRelease);
      t !in m'.waiting && t in m'.parked && m'.sched.tasks[t].state == Active
      && m'.sched.ready != [] && m'.sched.ready[0] == t
  {
    WaitsItsTurn(m, clock, events, t);
    var m1 := Run(m, clock, events);
    hide Run, Release;
    ReleaseExact(m1);
    LongestWaiter(m1, t);
    hide SchedInv, NoLostWakeup, Ahead;
  }

  lemma LongestWaiter(m: Sem, t: Tid)
    requires SemInv(m) && t in m.waiting && Ahead(m.waiting, t) == 0
    ensures m.waiting[|m.waiting| - 1] == t && t in m.parked && t !in m.waiting[..|m.waiting| - 1]
  {
    assert Parked(m, t);
    hide SchedInv;
  }

  /** Permits and waiting together: acquire() succeeds iff there is a permit, and otherwise queues behind all others. */
  lemma AcquireState(m: Sem, clock: Clock)
    requires SemInv(m) && EventOk(m, DoAcquire)
    ensures var t := m.run.value;
      var (m', ret) := Acquire(m, t);
      if m.count > 0 then ret == RetSuccess && m' == m.(count := m.count - 1, parked := m.parked - {t})
      else
        && ret == RetBlocked && m'.waiting == [t] + m.waiting && t in m'.parked && m'.count == 0
        && m'.sched.tasks[t].state == Blocked && t !in m'.sched.ready && t !in m'.sched.sleep
        && forall x: Tid :: x != t ==> m'.sched.tasks[x] == m.sched.tasks[x]
  {
    RunningNotWaiting(m, m.run.value);
    WaitQueueHasRoom(m, m.run.value);
    BlockResult(m.sched, m.run, m.run.value);
    hide Block, Inv;
  }

  // ---------------------------------------------------------------- conservation

  /** The executions of acquire() in the run that return RET_SUCCESS. */
  function Acquisitions(m: Sem, clock: Clock, events: seq<Event>): nat
    decreases |events|
  {
    if events == [] then 0
    else
      (if events[0].DoAcquire? && m.run.Some? && Acquire(m, m.run.value).1 == RetSuccess then 1 else 0)
      + Acquisitions(Step(m, clock, events[0]), clock, events[1..])
  }

  /** Permits are neither made nor lost, and acquire() never hands out one that is not there. */
  lemma {:induction false} PermitsConserved(m: Sem, clock: Clock, events: seq<Event>)
    requires SemInv(m) && EventsOk(m, clock, events)
    ensures Run(m, clock, events).count == m.count + Releases(events) - Acquisitions(m, clock, events) >= 0
    decreases |events|
  {
    RunKeepsSem(m, clock, events);
    if events == [] {
    } else {
      StepKeeps(m, clock, events[0]);
      StepCounts(m, clock, events[0]);
      hide SemInv, Step, EventOk;
      PermitsConserved(Step(m, clock, events[0]), clock, events[1..]);
    }
  }

  lemma StepCounts(m: Sem, clock: Clock, e: Event)
    ensures Step(m, clock, e).count == m.count + (if e.DoRelease? then 1 else 0)
      - (if e.DoAcquire? && m.run.Some? && Acquire(m, m.run.value).1 == RetSuccess then 1 else 0)
  {
  }
}

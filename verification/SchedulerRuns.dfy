/** What every run of the scheduler keeps. */
module SchedulerRuns {
  import opened Options
  import opened Return
  import opened SimpleQueue
  import opened SchedulerSpec

  // ---------------------------------------------------------------- counting

  /** A queue that holds no task twice and misses one has room. */
  lemma {:induction false} Room(q: seq<Tid>, t: Tid)
    requires Distinct(q) && t !in q
    ensures |q| < MAX_NUM_TASKS
  {
    Count(q + [t], MAX_NUM_TASKS);
  }

  lemma {:induction false} Count(q: seq<Tid>, n: nat)
    requires Distinct(q) && forall i :: 0 <= i < |q| ==> q[i] < n
    ensures |q| <= n
  {
    if q == [] {
    } else {
      assert 0 <= q[0] < n;
      if i: nat :| i < |q| && q[i] == n - 1 {
        RemovedMembers(q, i);
        Count(Removed(q, i), n - 1);
      } else {
        Count(q, n - 1);
      }
    }
  }

  /** Removing one task keeps the others, and their order. */
  lemma WithoutKeeps(q: seq<Tid>, t: Tid)
    requires Distinct(q)
    ensures Distinct(Without(q, t))
    ensures forall x :: x in Without(q, t) <==> x in q && x != t
  {
    var i := IndexIn(q, t);
    if i < |q| {
      RemovedMembers(q, i);
    }
  }

  lemma WithoutKeepsOrder(tasks: TaskTable, q: seq<Tid>, t: Tid)
    requires forall i, j :: 0 <= i < j < |q| ==> tasks[q[i]].wake >= tasks[q[j]].wake
    ensures var w := Without(q, t); forall i, j :: 0 <= i < j < |w| ==> tasks[w[i]].wake >= tasks[w[j]].wake
  {
  }

  /** A sleep queue stays one: the push orders by wake time, which is a strict weak order. */
  lemma PutToSleep(tasks: TaskTable, q: seq<Tid>, t: Tid)
    requires Distinct(q) && t !in q
    requires forall i, j :: 0 <= i < j < |q| ==> tasks[q[i]].wake >= tasks[q[j]].wake
    ensures var p := SortedInsert(SleepSort(tasks), q, t);
            && Distinct(p) && (forall x :: x in p <==> x == t || x in q)
            && forall i, j :: 0 <= i < j < |p| ==> tasks[p[i]].wake >= tasks[p[j]].wake
  {
  }

  lemma QueuesDistinct(s: Sched, run: Option<Tid>)
    requires Inv(s, run)
    ensures Distinct(s.ready) && Distinct(s.sleep)
  {
  }

  // ---------------------------------------------------------------- one call

  lemma StartKeeps(s: Sched, run: Option<Tid>, func: nat, arg: nat)
    requires Inv(s, run)
    ensures Inv(Start(s, func, arg), run)
    ensures var i := FreeSlot(s.tasks, 0);
            i < MAX_NUM_TASKS ==> Start(s, func, arg).ready == [i] + s.ready && Start(s, func, arg).tasks[i].onReady
  {
    var i := FreeSlot(s.tasks, 0);
    if i < MAX_NUM_TASKS {
      assert Placed(s, run, i);
      Room(s.ready, i);
      var s' := Start(s, func, arg);
      forall x: Tid ensures Placed(s', run, x) {
        assert Placed(s, run, x);
      }
      forall j, k | 0 <= j < k < |s'.sleep| ensures s'.tasks[s'.sleep[j]].wake >= s'.tasks[s'.sleep[k]].wake {
        assert i !in s.sleep;
      }
    }
  }

  /** sched_block keeps the invariant iff the task has been started and has not ended. */
  lemma BlockExact(s: Sched, run: Option<Tid>, t: Tid)
    requires Inv(s, run)
    ensures Inv(Block(s, t), run) <==> t in s.live
  {
    hide Without;
    var s' := Block(s, t);
    assert Placed(s, run, t);
    WithoutKeeps(s.ready, t);
    WithoutKeeps(s.sleep, t);
    WithoutKeepsOrder(s.tasks, s.sleep, t);
    if t in s.live {
      forall x: Tid ensures Placed(s', run, x) {
        assert Placed(s, run, x);
      }
    } else {
      assert !Placed(s', run, t);
    }
    forall j, k | 0 <= j < k < |s'.sleep| ensures s'.tasks[s'.sleep[j]].wake >= s'.tasks[s'.sleep[k]].wake {
      assert s'.sleep[j] in s'.sleep && s'.sleep[k] in s'.sleep;
    }
  }

  lemma WakeKeeps(s: Sched, run: Option<Tid>, t: Tid)
    requires Inv(s, run)
    ensures Inv(Wake(s, t), run)
  {
    hide Without;
    var s' := Wake(s, t);
    assert Placed(s, run, t);
    WithoutKeeps(s.sleep, t);
    WithoutKeepsOrder(s.tasks, s.sleep, t);
    if s' != s {
      Room(s.ready, t);
      forall x: Tid ensures Placed(s', run, x) {
        assert Placed(s, run, x);
      }
      forall j, k | 0 <= j < k < |s'.sleep| ensures s'.tasks[s'.sleep[j]].wake >= s'.tasks[s'.sleep[k]].wake {
        assert s'.sleep[j] in s'.sleep && s'.sleep[k] in s'.sleep;
      }
    }
  }

  /** `q'` is `q` without `t`, in the same order. */
  ghost predicate TakenOff(q: seq<Tid>, q': seq<Tid>, t: Tid) {
    if t in q then exists i :: 0 <= i < |q| && q[i] == t && q' == q[..i] + q[i + 1..] else q' == q
  }

  lemma WithoutTakes(q: seq<Tid>, t: Tid)
    ensures TakenOff(q, Without(q, t), t)
  {
    var i := IndexIn(q, t);
    if i < |q| {
      assert Without(q, t) == q[..i] + q[i + 1..];
    }
  }

  /** sched_start, in full: -1 and no change iff no slot is free; otherwise the first free one, at the head of the ready
      queue, to run last. */
  lemma StartExact(s: Sched, run: Option<Tid>, func: nat, arg: nat)
    requires Inv(s, run)
    ensures var s', i := Start(s, func, arg), StartResult(s);
      if forall t: Tid :: t in s.live then i == -1 && s' == s
      else
        && 0 <= i < MAX_NUM_TASKS && i !in s.live && (forall t: Tid :: t < i ==> t in s.live)
        && s' == s.(tasks := s.tasks[i := Task(Active, func, arg, i, s.tasks[i].wake, true, false)],
                    ready := [i] + s.ready, live := s.live[i := Job(func, arg)])
  {
    var i := FreeSlot(s.tasks, 0);
    forall t: Tid ensures t in s.live <==> !s.tasks[t].state.Unallocated? {
      assert Placed(s, run, t);
    }
    if i < MAX_NUM_TASKS {
      assert Placed(s, run, i);
      Room(s.ready, i);
    }
  }

  /** sched_wake, in full: a sleeping or blocked task goes from the sleep queue, if it is there, to the head of the ready
      queue; any other task is left alone, and so is everybody else. */
  lemma WakeExact(s: Sched, run: Option<Tid>, t: Tid)
    requires Inv(s, run)
    ensures var s' := Wake(s, t);
      if s.tasks[t].state.Sleeping? || s.tasks[t].state.Blocked? then
        && s' == s.(tasks := s.tasks[t := s.tasks[t].(state := Active, onReady := true, onSleep := false)],
                    ready := [t] + s.ready, sleep := s'.sleep)
        && t !in s.ready && TakenOff(s.sleep, s'.sleep, t) && t !in s'.sleep
      else s' == s
  {
    assert Placed(s, run, t);
    WithoutKeeps(s.sleep, t);
    WithoutTakes(s.sleep, t);
    if t !in s.ready {
      Room(s.ready, t);
    }
    hide Without, Inv, TakenOff;
  }

  /** sched_block, in full: the task is blocked and on no queue, and nothing else changes. */
  lemma BlockResult(s: Sched, run: Option<Tid>, t: Tid)
    requires Inv(s, run)
    ensures var s' := Block(s, t);
      && s' == s.(tasks := s.tasks[t := s.tasks[t].(state := Blocked, onReady := false, onSleep := false)],
                  ready := s'.ready, sleep := s'.sleep)
      && TakenOff(s.ready, s'.ready, t) && t !in s'.ready
      && TakenOff(s.sleep, s'.sleep, t) && t !in s'.sleep
  {
    assert Placed(s, run, t);
    WithoutKeeps(s.ready, t);
    WithoutKeeps(s.sleep, t);
    WithoutTakes(s.ready, t);
    WithoutTakes(s.sleep, t);
    hide Without, Inv, TakenOff;
  }

  /** The task table at the moment sched_sleep pushes. */
  function Slept(s: Sched, clock: Clock, t: Tid, time: Time): TaskTable {
    var wake: Time := (clock(s.readings) + time) % TIME_WRAP;
    s.tasks[t := s.tasks[t].(state := Sleeping, wake := wake, onReady := false, onSleep := false)]
  }

  /** sched_sleep never fails to push, and leaves the task on the sleep queue only. */
  lemma SleepResult(s: Sched, run: Option<Tid>, clock: Clock, t: Tid, time: Time)
    requires Inv(s, run)
    ensures
      var at := Slept(s, clock, t, time);
      Sleep(s, clock, t, time) ==
        s.(tasks := at[t := at[t].(onSleep := true)], ready := Without(s.ready, t),
           sleep := SortedInsert(SleepSort(at), Without(s.sleep, t), t), readings := s.readings + 1)
  {
    hide Inv, SleepSort, SortedInsert, OffQueues, Without;
    OffQueuesResult(s, run, t);
    var at := Slept(s, clock, t, time);
    var s1 := OffQueues(s, t);
    assert s1.tasks[t := s1.tasks[t].(state := Sleeping, wake := at[t].wake)] == at;
  }

  /** A task leaves the one queue it may be on. */
  lemma OffQueuesResult(s: Sched, run: Option<Tid>, t: Tid)
    requires Inv(s, run)
    ensures |Without(s.sleep, t)| < MAX_NUM_TASKS
    ensures s.tasks[t].onSleep ==> !s.tasks[t].onReady && Without(s.ready, t) == s.ready
    ensures OffQueues(s, t) ==
      s.(tasks := s.tasks[t := s.tasks[t].(onReady := false, onSleep := false)],
         ready := Without(s.ready, t), sleep := Without(s.sleep, t))
  {
    assert Placed(s, run, t);
    WithoutKeeps(s.sleep, t);
    Room(Without(s.sleep, t), t);
    hide Inv;
    assert s.tasks[t := s.tasks[t]] == s.tasks;
  }

  /** The sort of the sleep queue looks at wake times only. */
  lemma SameWakeSameInsert(one: TaskTable, two: TaskTable, q: seq<Tid>, t: Tid)
    requires forall x: Tid :: one[x].wake == two[x].wake
    ensures SortedInsert(SleepSort(one), q, t) == SortedInsert(SleepSort(two), q, t)
  {
    assert forall i :: 0 <= i < |q| ==> SleepSort(one)(q[i], t) == SleepSort(two)(q[i], t);
    assert InsertPos(SleepSort(one), q, t) == InsertPos(SleepSort(two), q, t);
  }

  /** sched_sleep leaves sleep_loc pointing at a freed node until the push overwrites it, which is harmless. */
  lemma SleepUnlinked(s: Sched, run: Option<Tid>, clock: Clock, t: Tid, time: Time)
    requires Inv(s, run) && s.tasks[t].onSleep
    ensures FallAsleep(s.(sleep := Without(s.sleep, t)), clock, t, time) == Sleep(s, clock, t, time)
  {
    hide Inv, Sleep, OffQueues, SortedInsert, SleepSort;
    OffQueuesResult(s, run, t);
    SleepResult(s, run, clock, t, time);
    var at := Slept(s, clock, t, time);
    var stale: TaskTable := s.tasks[t := s.tasks[t].(state := Sleeping, wake := at[t].wake)];
    SameWakeSameInsert(stale, at, Without(s.sleep, t), t);
    assert stale[t := stale[t].(onSleep := true)] == at[t := at[t].(onSleep := true)];
  }

  /** So does sched_sleep. */
  lemma SleepExact(s: Sched, run: Option<Tid>, clock: Clock, t: Tid, time: Time)
    requires Inv(s, run)
    ensures Inv(Sleep(s, clock, t, time), run) <==> t in s.live
  {
    hide Sleep, SortedInsert, SleepSort, Without;
    var s' := Sleep(s, clock, t, time);
    SleepResult(s, run, clock, t, time);
    assert Placed(s, run, t);
    WithoutKeeps(s.ready, t);
    WithoutKeeps(s.sleep, t);
    WithoutKeepsOrder(s.tasks, s.sleep, t);
    PutToSleep(Slept(s, clock, t, time), Without(s.sleep, t), t);
    if t in s.live {
      forall x: Tid ensures Placed(s', run, x) {
        assert Placed(s, run, x);
      }
    } else {
      assert !Placed(s', run, t);
    }
  }

  /** `t` is at `k` in `p`; tasks whose wake time is before its own are nearer the tail, all others nearer the head. */
  predicate Separates(tasks: TaskTable, p: seq<Tid>, t: Tid, k: nat) {
    k < |p| && p[k] == t
    && (forall i :: 0 <= i < k ==> tasks[p[i]].wake >= tasks[t].wake)
    && (forall i :: k < i < |p| ==> tasks[p[i]].wake < tasks[t].wake)
  }

  /** sched_sleep puts a task in front of exactly those sleepers whose wake time is before its own: of equal ones, the
      latest is woken first. The others keep their order. */
  lemma SleepPlace(s: Sched, run: Option<Tid>, clock: Clock, t: Tid, time: Time)
    requires Inv(s, run)
    ensures var s' := Sleep(s, clock, t, time);
      exists k: nat :: Separates(s'.tasks, s'.sleep, t, k) && TakenOff(s.sleep, s'.sleep[..k] + s'.sleep[k + 1..], t)
  {
    hide Sleep, Inv, Without, TakenOff, SortedInsert, Separates, SleepSort;
    SleepResult(s, run, clock, t, time);
    WithoutTakes(s.sleep, t);
    SleepersSorted(s, run, clock, t, time);
    var at := Slept(s, clock, t, time);
    var k := PlaceAmong(at, Without(s.sleep, t), t);
    SameWakeSeparates(at, Sleep(s, clock, t, time).tasks, Sleep(s, clock, t, time).sleep, t, k);
  }

  lemma SameWakeSeparates(one: TaskTable, two: TaskTable, p: seq<Tid>, t: Tid, k: nat)
    requires Separates(one, p, t, k) && forall x: Tid :: one[x].wake == two[x].wake
    ensures k < |p| && Separates(two, p, t, k)
  {
  }

  lemma PlaceAmong(at: TaskTable, d: seq<Tid>, t: Tid) returns (k: nat)
    requires forall i, j :: 0 <= i < j < |d| ==> at[d[i]].wake >= at[d[j]].wake
    ensures var p := SortedInsert(SleepSort(at), d, t);
      k < |p| && p[..k] + p[k + 1..] == d && Separates(at, p, t, k)
  {
    k := InsertPos(SleepSort(at), d, t);
    var p := SortedInsert(SleepSort(at), d, t);
    assert p == d[..k] + [t] + d[k..];
    assert p[..k] == d[..k] && p[k + 1..] == d[k..];
    forall i | k < i < |p| ensures at[p[i]].wake < at[t].wake {
      assert p[i] == d[i - 1] && at[d[k]].wake >= at[d[i - 1]].wake;
    }
  }

  lemma SleepersSorted(s: Sched, run: Option<Tid>, clock: Clock, t: Tid, time: Time)
    requires Inv(s, run)
    ensures var at, d := Slept(s, clock, t, time), Without(s.sleep, t);
      t !in d && forall i, j :: 0 <= i < j < |d| ==> at[d[i]].wake >= at[d[j]].wake
  {
    WithoutKeeps(s.sleep, t);
    WithoutKeepsOrder(s.tasks, s.sleep, t);
    hide Without;
    var d := Without(s.sleep, t);
    forall i | 0 <= i < |d| ensures d[i] != t {
      assert d[i] in d;
    }
  }

  // ---------------------------------------------------------------- waking the sleepers

  lemma WakeLastKeeps(s: Sched)
    requires Inv(s, None) && s.sleep != []
    ensures Inv(WakeLast(s), None)
    ensures var n := |s.sleep| - 1;
            WakeLast(s).sleep == s.sleep[..n] && WakeLast(s).ready == [s.sleep[n]] + s.ready
    ensures |s.ready| < MAX_NUM_TASKS
  {
    var n := |s.sleep| - 1;
    var t, s' := s.sleep[n], WakeLast(s);
    assert Placed(s, None, t);
    assert t in s.sleep;
    Room(s.ready, t);
    RemovedMembers(s.sleep, n);
    assert s.sleep[..n] == Removed(s.sleep, n);
    forall x: Tid ensures Placed(s', None, x) {
      assert Placed(s, None, x);
    }
  }

  /** _sched_wakeup_tasks splits the sleep queue at one point: from there to the tail every task had reached
      its wake time at its own reading of the clock, and before it the next task had not at the last reading.
      The tasks that wake are dispatched after those that were ready, the earliest wake time first. */
  ghost predicate Split(s: Sched, clock: Clock, s': Sched) {
    var k := |s'.sleep|;
    && k <= |s.sleep| && s'.sleep == s.sleep[..k] && s'.ready == s.sleep[k..] + s.ready
    && s'.dispatched == s.dispatched
    && s'.readings == s.readings + |s.sleep| - k + (if k > 0 then 1 else 0)
    && (forall t: Tid :: s'.tasks[t].wake == s.tasks[t].wake)
    && (forall i :: k <= i < |s.sleep| ==> clock(s.readings + |s.sleep| - 1 - i) >= s.tasks[s.sleep[i]].wake)
    && (k > 0 ==> s.tasks[s.sleep[k - 1]].wake > clock(s'.readings - 1))
  }

  lemma {:induction false} WakeupSplits(s: Sched, clock: Clock)
    requires Inv(s, None)
    ensures Inv(WakeupTasks(s, clock), None) && Split(s, clock, WakeupTasks(s, clock))
    decreases |s.sleep|
  {
    hide Inv, WakeLast, Split;
    NobodyWakes(s, clock);
    if s.sleep != [] {
      var n := |s.sleep| - 1;
      var s1 := s.(readings := s.readings + 1);
      ReadClockKeeps(s);
      if clock(s.readings) >= s.tasks[s.sleep[n]].wake {
        WakeLastKeeps(s1);
        WakeupSplits(WakeLast(s1), clock);
        SplitStep(s, clock, WakeupTasks(s, clock));
      }
    }
  }

  lemma ReadClockKeeps(s: Sched)
    requires Inv(s, None)
    ensures Inv(s.(readings := s.readings + 1), None)
  {
    var s1 := s.(readings := s.readings + 1);
    forall x: Tid ensures Placed(s1, None, x) {
      assert Placed(s, None, x);
    }
  }

  lemma NobodyWakes(s: Sched, clock: Clock)
    ensures s.sleep == [] ==> Split(s, clock, s)
    ensures s.sleep != [] && clock(s.readings) < s.tasks[s.sleep[|s.sleep| - 1]].wake ==>
              Split(s, clock, s.(readings := s.readings + 1))
  {
  }

  lemma SplitStep(s: Sched, clock: Clock, s': Sched)
    requires s.sleep != [] && clock(s.readings) >= s.tasks[s.sleep[|s.sleep| - 1]].wake && |s.ready| < MAX_NUM_TASKS
    requires Split(WakeLast(s.(readings := s.readings + 1)), clock, s')
    ensures Split(s, clock, s')
  {
    var n, k := |s.sleep| - 1, |s'.sleep|;
    assert s.sleep[..n][k..] + ([s.sleep[n]] + s.ready) == s.sleep[k..] + s.ready;
  }

  /** What it does to the record of `t`. */
  ghost predicate WokenRecord(s: Sched, s': Sched, t: Tid) {
    s'.tasks[t] == if t in s.sleep && t !in s'.sleep then s.tasks[t].(state := Active, onReady := true, onSleep := false)
                   else s.tasks[t]
  }

  lemma {:induction false} WakeupRecords(s: Sched, clock: Clock, t: Tid)
    requires Inv(s, None)
    ensures WokenRecord(s, WakeupTasks(s, clock), t)
    decreases |s.sleep|
  {
    hide Inv, WakeLast, Split;
    if s.sleep != [] && clock(s.readings) >= s.tasks[s.sleep[|s.sleep| - 1]].wake {
      var n, s1 := |s.sleep| - 1, s.(readings := s.readings + 1);
      ReadClockKeeps(s);
      QueuesDistinct(s, None);
      WakeLastKeeps(s1);
      WakeLastRecord(s1, t);
      WakeupRecords(WakeLast(s1), clock, t);
      WakeupSubset(WakeLast(s1), clock);
      assert s.sleep == s.sleep[..n] + [s.sleep[n]];
    }
  }

  lemma WakeLastRecord(s: Sched, t: Tid)
    requires s.sleep != [] && |s.ready| < MAX_NUM_TASKS
    ensures WakeLast(s).tasks[t] == if t == s.sleep[|s.sleep| - 1]
      then s.tasks[t].(state := Active, onReady := true, onSleep := false) else s.tasks[t]
  {
  }

  lemma WakeupSubset(s: Sched, clock: Clock)
    requires Inv(s, None)
    ensures forall t :: t in WakeupTasks(s, clock).sleep ==> t in s.sleep
  {
    hide Inv, WakeupTasks;
    WakeupSplits(s, clock);
  }

  /** When _sched_wakeup_tasks returns, no sleeper's wake time had been reached at its last clock reading. */
  lemma NobodyLeftBehind(s: Sched, clock: Clock, t: Tid)
    requires Inv(s, None) && t in WakeupTasks(s, clock).sleep
    ensures WakeupTasks(s, clock).readings > s.readings
    ensures s.tasks[t].wake == WakeupTasks(s, clock).tasks[t].wake > clock(WakeupTasks(s, clock).readings - 1)
  {
    var s' := WakeupTasks(s, clock);
    WakeupSplits(s, clock);
    var i :| 0 <= i < |s'.sleep| && s'.sleep[i] == t;
    assert s.tasks[s.sleep[i]].wake >= s.tasks[s.sleep[|s'.sleep| - 1]].wake;
  }

  /** The clock reached `time` at one of the readings from `i` up to `j`. */
  ghost predicate Reached(clock: Clock, i: nat, j: nat, time: nat) {
    exists r: nat :: i <= r < j && clock(r) >= time
  }

  /** It takes nobody off the sleep queue before a reading of the clock has reached the task's wake time. */
  lemma NobodyWokenEarly(s: Sched, clock: Clock, t: Tid)
    requires Inv(s, None) && t in s.sleep && t !in WakeupTasks(s, clock).sleep
    ensures Reached(clock, s.readings, WakeupTasks(s, clock).readings, s.tasks[t].wake)
  {
    WakeupSplits(s, clock);
    SplitReached(s, clock, WakeupTasks(s, clock), t);
  }

  lemma SplitReached(s: Sched, clock: Clock, s': Sched, t: Tid)
    requires Split(s, clock, s') && t in s.sleep && t !in s'.sleep
    ensures Reached(clock, s.readings, s'.readings, s.tasks[t].wake)
  {
  }

  /** A task sleeps until `now + time` iff that does not wrap around 32 bits ... */
  lemma WakeTimeExact(s: Sched, run: Option<Tid>, clock: Clock, t: Tid, time: Time)
    requires Inv(s, run)
    ensures t in Sleep(s, clock, t, time).sleep
    ensures Sleep(s, clock, t, time).tasks[t].wake == clock(s.readings) + time <==> clock(s.readings) + time < TIME_WRAP
    ensures var end := clock(s.readings) + time;
      end >= TIME_WRAP ==> Sleep(s, clock, t, time).tasks[t].wake + TIME_WRAP == end
  {
    hide Inv, Sleep, Without, SleepSort, SortedInsert;
    SleepResult(s, run, clock, t, time);
    SortedInsertHolds(SleepSort(Slept(s, clock, t, time)), Without(s.sleep, t), t);
  }

  lemma SortedInsertHolds<T>(sort: (T, T) -> bool, d: seq<T>, x: T)
    ensures x in SortedInsert(sort, d, x)
  {
    assert SortedInsert(sort, d, x)[InsertPos(sort, d, x)] == x;
  }

  /** ... and if it wraps, the next call of _sched_wakeup_tasks ends the sleep at once: that of a task that somebody
      else put to sleep ... */
  lemma WrappedSleepEndsAtOnce(s: Sched, clock: Clock, t: Tid, time: Time)
    requires Inv(s, None) && CallOk(s, CallSleep(t, time))
    requires forall r, q :: r <= q ==> clock(r) <= clock(q)
    requires clock(s.readings) + time >= TIME_WRAP
    ensures t !in WakeupTasks(Sleep(s, clock, t, time), clock).sleep
  {
    hide Inv, WakeupTasks, Sleep, SortedInsert, SleepSort, Without;
    SleepExact(s, None, clock, t, time);
    SleepResult(s, None, clock, t, time);
    SlumberEnds(Sleep(s, clock, t, time), clock, t);
  }

  /** ... and that of a running task that put itself to sleep, once it has returned. */
  lemma WrappedSleepOfRunningTask(s: Sched, clock: Clock, t: Tid, time: Time)
    requires Inv(s, Some(t))
    requires forall r, q :: r <= q ==> clock(r) <= clock(q)
    requires clock(s.readings) + time >= TIME_WRAP
    ensures t !in WakeupTasks(End(Sleep(s, clock, t, time), t, RetSleep), clock).sleep
  {
    hide Inv, WakeupTasks, Sleep, SortedInsert, SleepSort, Without;
    RunningIsLive(s, t);
    SleepExact(s, Some(t), clock, t, time);
    SleepResult(s, Some(t), clock, t, time);
    var s1 := Sleep(s, clock, t, time);
    EndExact(s1, t, RetSleep);
    SlumberEnds(End(s1, t, RetSleep), clock, t);
  }

  lemma RunningIsLive(s: Sched, t: Tid)
    requires Inv(s, Some(t))
    ensures t in s.live
  {
    assert Placed(s, Some(t), t);
  }

  /** Whoever's wake time lay behind at the last clock reading is awake after _sched_wakeup_tasks. */
  lemma SlumberEnds(s: Sched, clock: Clock, t: Tid)
    requires Inv(s, None) && s.readings > 0 && s.tasks[t].wake <= clock(s.readings - 1)
    requires forall r, q :: r <= q ==> clock(r) <= clock(q)
    ensures t !in WakeupTasks(s, clock).sleep
  {
    hide Inv, WakeupTasks;
    if t in WakeupTasks(s, clock).sleep {
      NobodyLeftBehind(s, clock, t);
    }
  }

  // ---------------------------------------------------------------- one dispatch

  lemma BeginKeeps(s: Sched, clock: Clock)
    requires Idle(s)
    ensures Next(s, clock) == None ==> Idle(Begin(s, clock))
    ensures forall t :: Next(s, clock) == Some(t) ==> Inv(Begin(s, clock), Some(t)) && Begin(s, clock).dispatched == t
  {
    hide WakeupTasks, Split;
    var s1, s' := WakeupTasks(s, clock), Begin(s, clock);
    WakeupSplits(s, clock);
    if s1.ready == [] {
      forall x: Tid ensures Placed(s', None, x) {
        assert Placed(s1, None, x);
      }
    } else {
      var n := |s1.ready| - 1;
      var t := s1.ready[n];
      assert Placed(s1, None, t) && t in s1.ready;
      RemovedMembers(s1.ready, n);
      assert s1.ready[..n] == Removed(s1.ready, n);
      forall x: Tid ensures Placed(s', Some(t), x) {
        assert Placed(s1, None, x);
      }
    }
  }

  /** The handover, in full: the task at the tail of the ready queue, once the sleepers are awake, is taken off it. */
  lemma BeginExact(s: Sched, clock: Clock)
    requires Idle(s)
    ensures var s1 := WakeupTasks(s, clock);
      match Next(s, clock)
      case None => s1.ready == [] && Begin(s, clock) == s1
      case Some(t) =>
        && s1.ready == Begin(s, clock).ready + [t]
        && Begin(s, clock) == s1.(tasks := s1.tasks[t := s1.tasks[t].(onReady := false)], dispatched := t,
                                  ready := Begin(s, clock).ready)
  {
    hide WakeupTasks, Inv, Split;
    BeginKeeps(s, clock);
    var s1 := WakeupTasks(s, clock);
    if s1.ready != [] {
      assert s1.ready == s1.ready[..|s1.ready| - 1] + [s1.ready[|s1.ready| - 1]];
    } else {
      WakeupDispatched(s, clock);
    }
  }

  lemma WakeupDispatched(s: Sched, clock: Clock)
    requires Inv(s, None)
    ensures WakeupTasks(s, clock).dispatched == s.dispatched
  {
    hide Inv, WakeupTasks;
    WakeupSplits(s, clock);
  }

  /** The return of a task, in full: RET_ERROR frees its slot; otherwise an active task is the last to run again, and one
      that sleeps or is blocked stays where it is. */
  lemma EndResult(s: Sched, t: Tid, ret: RetType)
    requires Inv(s, Some(t)) && ReturnOk(s, t, ret)
    ensures var s' := End(s, t, ret);
      if ret == RetError then
        s' == s.(tasks := s.tasks[t := s.tasks[t].(state := Unallocated)], live := s.live - {t}, dispatched := MAX_NUM_TASKS)
      else if s.tasks[t].state.Active? then
        s' == s.(tasks := s.tasks[t := s.tasks[t].(onReady := true)], ready := [t] + s.ready, dispatched := MAX_NUM_TASKS)
      else s' == s.(dispatched := MAX_NUM_TASKS)
  {
    assert Placed(s, Some(t), t);
    if t !in s.ready {
      Room(s.ready, t);
    }
  }

  /** The scheduler is consistent after a task's return iff the task returned in a way sched_dispatch expects.
      Otherwise the task is queued twice (or its ready_loc is lost), or its freed slot is still queued. */
  lemma EndExact(s: Sched, t: Tid, ret: RetType)
    requires Inv(s, Some(t))
    ensures Idle(End(s, t, ret)) <==> ReturnOk(s, t, ret)
  {
    var s' := End(s, t, ret);
    assert Placed(s, Some(t), t);
    if ReturnOk(s, t, ret) {
      if t !in s.ready {
        Room(s.ready, t);
      }
      forall x: Tid ensures Placed(s', None, x) {
        assert Placed(s, Some(t), x);
      }
    } else if ret == RetError || |s.ready| == MAX_NUM_TASKS {
      assert !Placed(s', None, t);
    } else {
      var i :| 0 <= i < |s.ready| && s.ready[i] == t;
      assert s'.ready[0] == s'.ready[i + 1];
    }
  }

  /** So a task that goes to sleep and is woken before it returns breaks the scheduler, whoever wakes it ... */
  lemma WokenBeforeReturning(s: Sched, clock: Clock, t: Tid, time: Time)
    requires Idle(s) && Next(s, clock) == Some(t)
    ensures !Idle(Step(s, clock, Dispatch([CallSleep(t, time), CallWake(t)], RetSleep)))
  {
    var s1 := Begin(s, clock);
    BeginKeeps(s, clock);
    assert Placed(s1, Some(t), t);
    var s2 := Sleep(s1, clock, t, time);
    SleepExact(s1, Some(t), clock, t, time);
    SleepResult(s1, Some(t), clock, t, time);
    hide Begin, Sleep, Inv, WakeupTasks;
    var s3 := Wake(s2, t);
    WakeKeeps(s2, Some(t), t);
    assert s2.tasks[t].state == Sleeping && !s2.tasks[t].onReady && s2.tasks[t].onSleep;
    PushesSucceed(s2, Some(t), CallWake(t));
    assert s3.tasks[t].state == Active && s3.tasks[t].onReady;
    EndExact(s3, t, RetSleep);
    DoAllShort(s1, clock, CallSleep(t, time), CallWake(t));
  }

  /** ... and so does one that ends with RET_ERROR while it is on the sleep queue. */
  lemma ErrorWhileAsleep(s: Sched, clock: Clock, t: Tid, time: Time)
    requires Idle(s) && Next(s, clock) == Some(t)
    ensures !Idle(Step(s, clock, Dispatch([CallSleep(t, time)], RetError)))
  {
    var s1 := Begin(s, clock);
    BeginKeeps(s, clock);
    assert Placed(s1, Some(t), t);
    SleepExact(s1, Some(t), clock, t, time);
    SleepResult(s1, Some(t), clock, t, time);
    hide Begin, Sleep, Inv, WakeupTasks;
    EndExact(Sleep(s1, clock, t, time), t, RetError);
    DoAllShort(s1, clock, CallSleep(t, time), CallSleep(t, time));
  }

  lemma DoAllShort(s: Sched, clock: Clock, c: Call, d: Call)
    ensures DoAll(s, clock, [c]) == Do(s, clock, c)
    ensures DoAll(s, clock, [c, d]) == Do(Do(s, clock, c), clock, d)
  {
    hide Do;
    assert [c][1..] == [] && [c, d][1..] == [d];
    assert DoAll(Do(s, clock, c), clock, [d]) == Do(Do(s, clock, c), clock, d) by {
      assert [d][1..] == [];
    }
  }

  // ---------------------------------------------------------------- whole runs

  lemma DoKeeps(s: Sched, run: Option<Tid>, clock: Clock, c: Call)
    requires Inv(s, run) && CallOk(s, c)
    ensures Inv(Do(s, clock, c), run)
  {
    match c
    case CallStart(func, arg) => StartKeeps(s, run, func, arg);
    case CallSleep(t, time) => SleepExact(s, run, clock, t, time);
    case CallWake(t) => WakeKeeps(s, run, t);
    case CallBlock(t) => BlockExact(s, run, t);
  }

  lemma {:induction false} DoAllKeeps(s: Sched, run: Option<Tid>, clock: Clock, calls: seq<Call>)
    requires Inv(s, run) && CallsOk(s, clock, calls)
    ensures Inv(DoAll(s, clock, calls), run)
    decreases |calls|
  {
    hide Inv, Do, CallOk;
    if calls == [] {
    } else {
      DoKeeps(s, run, clock, calls[0]);
      DoAllKeeps(Do(s, clock, calls[0]), run, clock, calls[1..]);
    }
  }

  lemma StepKeeps(s: Sched, clock: Clock, e: Event)
    requires Idle(s) && EventOk(s, clock, e)
    ensures Idle(Step(s, clock, e))
  {
    hide Inv, Begin, Do, DoAll, CallsOk;
    match e
    case Outside(c) =>
      DoKeeps(s, None, clock, c);
      DoKeepsDispatched(s, clock, c);
    case Dispatch(body, ret) =>
      BeginKeeps(s, clock);
      match Next(s, clock)
      case None =>
      case Some(t) =>
        DoAllKeeps(Begin(s, clock), Some(t), clock, body);
        EndExact(DoAll(Begin(s, clock), clock, body), t, ret);
  }

  lemma DoKeepsDispatched(s: Sched, clock: Clock, c: Call)
    ensures Do(s, clock, c).dispatched == s.dispatched
  {
  }

  /** Every run of the scheduler, from any consistent state, whatever the tasks do. */
  lemma {:induction false} RunKeeps(s: Sched, clock: Clock, events: seq<Event>)
    requires Idle(s) && EventsOk(s, clock, events)
    ensures Idle(Run(s, clock, events))
    decreases |events|
  {
    hide Idle, Step, EventOk;
    if events == [] {
    } else {
      StepKeeps(s, clock, events[0]);
      RunKeeps(Step(s, clock, events[0]), clock, events[1..]);
    }
  }

  lemma InitialIdle()
    ensures Idle(INITIAL)
  {
    forall t: Tid ensures Placed(INITIAL, None, t) {
    }
  }

  // ---------------------------------------------------------------- who is dispatched

  /** sched_dispatch calls the function a task was started with, and only for tasks that have not ended. */
  lemma DispatchedIsLive(s: Sched, clock: Clock, t: Tid)
    requires Idle(s) && Next(s, clock) == Some(t)
    ensures var s' := Begin(s, clock);
      s'.dispatched == t && t in s.live && s.live[t] == Job(s'.tasks[t].func, s'.tasks[t].arg)
  {
    BeginKeeps(s, clock);
    BeginKeepsLive(s, clock);
    hide Begin, Next;
    assert Placed(Begin(s, clock), Some(t), t);
  }

  lemma BeginKeepsLive(s: Sched, clock: Clock)
    ensures Begin(s, clock).live == s.live
  {
    WakeupKeepsLive(s, clock);
  }

  lemma {:induction false} WakeupKeepsLive(s: Sched, clock: Clock)
    ensures WakeupTasks(s, clock).live == s.live
    decreases |s.sleep|
  {
    if s.sleep == [] {
    } else {
      WakeupKeepsLive(WakeLast(s.(readings := s.readings + 1)), clock);
    }
  }

  /** The job task `t` has after some calls: that of the last sched_start that returned `t`. */
  function JobAfterCalls(s: Sched, clock: Clock, calls: seq<Call>, t: Tid, job: Option<Job>): Option<Job>
    decreases |calls|
  {
    if calls == [] then job
    else
      var c := calls[0];
      JobAfterCalls(Do(s, clock, c), clock, calls[1..], t,
                    if c.CallStart? && StartResult(s) == t then Some(Job(c.func, c.arg)) else job)
  }

  /** The job it has after some events: none once its function has returned RET_ERROR. */
  function JobAfter(s: Sched, clock: Clock, events: seq<Event>, t: Tid, job: Option<Job>): Option<Job>
    decreases |events|
  {
    if events == [] then job
    else JobAfter(Step(s, clock, events[0]), clock, events[1..], t, JobAfterEvent(s, clock, events[0], t, job))
  }

  function JobAfterEvent(s: Sched, clock: Clock, e: Event, t: Tid, job: Option<Job>): Option<Job> {
    match e
    case Outside(c) => JobAfterCalls(s, clock, [c], t, job)
    case Dispatch(body, ret) =>
      match Next(s, clock)
      case None => job
      case Some(x) => if ret == RetError && x == t then None else JobAfterCalls(Begin(s, clock), clock, body, t, job)
  }

  function LiveJob(s: Sched, t: Tid): Option<Job> {
    if t in s.live then Some(s.live[t]) else None
  }

  lemma DoKeepsLive(s: Sched, clock: Clock, c: Call, t: Tid)
    ensures LiveJob(Do(s, clock, c), t)
      == if c.CallStart? && StartResult(s) == t then Some(Job(c.func, c.arg)) else LiveJob(s, t)
  {
  }

  lemma {:induction false} DoAllKeepsLive(s: Sched, clock: Clock, calls: seq<Call>, t: Tid)
    ensures LiveJob(DoAll(s, clock, calls), t) == JobAfterCalls(s, clock, calls, t, LiveJob(s, t))
    decreases |calls|
  {
    hide Do, LiveJob;
    if calls == [] {
    } else {
      DoKeepsLive(s, clock, calls[0], t);
      DoAllKeepsLive(Do(s, clock, calls[0]), clock, calls[1..], t);
    }
  }

  lemma StepKeepsLive(s: Sched, clock: Clock, e: Event, t: Tid)
    ensures LiveJob(Step(s, clock, e), t) == JobAfterEvent(s, clock, e, t, LiveJob(s, t))
  {
    hide Do, Begin, Next;
    match e
    case Outside(c) =>
      DoKeepsLive(s, clock, c, t);
      DoAllKeepsLive(s, clock, [c], t);
      assert DoAll(s, clock, [c]) == Do(s, clock, c) by {
        DoAllShort(s, clock, c, c);
      }
    case Dispatch(body, _) =>
      BeginKeepsLive(s, clock);
      DoAllKeepsLive(Begin(s, clock), clock, body, t);
  }

  lemma {:induction false} RunKeepsLive(s: Sched, clock: Clock, events: seq<Event>, t: Tid)
    ensures LiveJob(Run(s, clock, events), t) == JobAfter(s, clock, events, t, LiveJob(s, t))
    decreases |events|
  {
    hide Step, LiveJob, JobAfterEvent;
    if events == [] {
    } else {
      StepKeepsLive(s, clock, events[0], t);
      RunKeepsLive(Step(s, clock, events[0]), clock, events[1..], t);
    }
  }

  /** So over every run from the initial state, whoever is dispatched was started, has not ended since, and runs the
      function and the argument of the sched_start that returned its tid last. */
  lemma DispatchedWasStarted(clock: Clock, events: seq<Event>, t: Tid)
    requires EventsOk(INITIAL, clock, events) && Next(Run(INITIAL, clock, events), clock) == Some(t)
    ensures var task := Begin(Run(INITIAL, clock, events), clock).tasks[t];
      JobAfter(INITIAL, clock, events, t, None) == Some(Job(task.func, task.arg))
  {
    hide Idle, Begin, Next, Run, JobAfter;
    InitialIdle();
    RunKeeps(INITIAL, clock, events);
    DispatchedIsLive(Run(INITIAL, clock, events), clock, t);
    RunKeepsLive(INITIAL, clock, events, t);
  }

  /** A caller that does not keep to it is not stopped: a slot without a task gets on the queues all the same ... */
  lemma StrangerIsQueued(s: Sched, run: Option<Tid>, clock: Clock, t: Tid, time: Time)
    requires Inv(s, run) && t !in s.live
    ensures t in Wake(Block(s, t), t).ready && t in Sleep(s, clock, t, time).sleep
  {
    assert Placed(s, run, t);
    Room(s.ready, t);
    WakeTimeExact(s, run, clock, t, time);
  }

  /** ... and is dispatched, although nobody has started it and its function is NULL. */
  lemma StrangerIsDispatched(clock: Clock)
    ensures var s := Wake(Block(INITIAL, 0), 0);
      Next(s, clock) == Some(0) && s.live == map[] && Begin(s, clock).tasks[0].func == 0
  {
  }

  // ---------------------------------------------------------------- the five "we can always push" notes

  /** Ready and sleeping tasks together never exceed the table. */
  lemma QueuesFit(s: Sched, run: Option<Tid>)
    requires Inv(s, run)
    ensures |s.ready| + |s.sleep| <= MAX_NUM_TASKS
  {
    var both := s.ready + s.sleep;
    forall i, j | 0 <= i < j < |both| ensures both[i] != both[j] {
      if i < |s.ready| <= j {
        assert Placed(s, run, both[i]);
        assert both[i] in s.ready && both[j] in s.sleep;
      }
    }
    Count(both, MAX_NUM_TASKS);
  }

  /** The queue a call pushes to, if it pushes, has room for it. */
  predicate HasRoom(s: Sched, c: Call) {
    match c
    case CallStart(_, _) => FreeSlot(s.tasks, 0) < MAX_NUM_TASKS ==> |s.ready| < MAX_NUM_TASKS
    case CallSleep(t, _) => |Without(s.sleep, t)| < MAX_NUM_TASKS
    case CallWake(t) => s.tasks[t].state.Blocked? || s.tasks[t].state.Sleeping? ==> |s.ready| < MAX_NUM_TASKS
    case CallBlock(_) => true
  }

  lemma PushesSucceed(s: Sched, run: Option<Tid>, c: Call)
    requires Inv(s, run)
    ensures HasRoom(s, c)
    ensures s.sleep != [] ==> |s.ready| < MAX_NUM_TASKS
    ensures forall t, ret :: run == Some(t) && ReturnOk(s, t, ret) && s.tasks[t].state == Active && ret != RetError
              ==> |s.ready| < MAX_NUM_TASKS
  {
    QueuesFit(s, run);
    match c {
      case CallStart(_, _) =>
        var i := FreeSlot(s.tasks, 0);
        if i < MAX_NUM_TASKS {
          assert Placed(s, run, i);
          Room(s.ready, i);
        }
      case CallSleep(t, _) =>
        WithoutKeeps(s.sleep, t);
        Room(Without(s.sleep, t), t);
      case CallWake(t) =>
        assert Placed(s, run, t);
        if t !in s.ready {
          Room(s.ready, t);
        }
      case CallBlock(_) =>
    }
    if run.Some? {
      assert Placed(s, run, run.value);
      if run.value !in s.ready {
        Room(s.ready, run.value);
      }
    }
  }
}

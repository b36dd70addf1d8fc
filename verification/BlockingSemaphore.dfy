/** sync/BlockingSemaphore.h, updated in place: every method is proved equal to its function in SemaphoreSpec. */
module BlockingSemaphore {
  import opened Options
  import opened Return
  import opened AllocatedQueue
  import opened SchedulerSpec
  import opened SemaphoreSpec
  import Scheduler

  class BlockingSemaphore {
    const scheduler: Scheduler.Scheduler
    const queue: AllocQueue<Tid>
    /** The static array of RESUME in acquire(): is the task's label the one behind BLOCK()? The last entry is for
        calls from outside any task. */
    const current: array<bool>
    var lock: nat
    var count: int

    ghost const Repr: set<object>

    ghost predicate Layout()
      reads this, Repr
    {
      && Repr == {this, queue, current, scheduler} + queue.Repr + scheduler.Repr
      && current.Length == MAX_NUM_TASKS + 1 && queue.Capacity() == MAX_NUM_TASKS
      && {this, current} !! queue.Repr && {this, current} !! scheduler.Repr && queue.Repr !! scheduler.Repr
      && queue.Valid() && scheduler.Valid()
    }

    ghost function ParkedTasks(): set<Tid>
      requires current.Length == MAX_NUM_TASKS + 1
      reads current
    {
      set t: Tid | current[t]
    }

    ghost function View(): Sem
      requires Layout()
      reads this, Repr
    {
      Sem(count, queue.Contents(), lock, ParkedTasks(), scheduler.View(), scheduler.running)
    }

    ghost predicate Valid()
      reads this, Repr
    {
      Layout() && SemInv(View())
    }

    /** A negative count is accepted, but the semaphore is none. */
    constructor (scheduler: Scheduler.Scheduler, count: int)
      requires scheduler.Valid() && scheduler.running == None && scheduler.dispatched == MAX_NUM_TASKS
      ensures Valid() <==> count >= 0
      ensures Layout() && fresh(Repr - scheduler.Repr) && this.scheduler == scheduler
      ensures View() == Sem(count, [], 1, {}, scheduler.View(), None)
    {
      hide AllocQueue.Valid, AllocQueue.Contents, SemInv, Scheduler.Scheduler.Valid, Scheduler.Scheduler.View, Idle;
      IdleScheduler(scheduler);
      this.scheduler, this.lock, this.count := scheduler, 1, count;
      var q := new AllocQueue<Tid>(MAX_NUM_TASKS, 0);
      var labels := new bool[MAX_NUM_TASKS + 1](_ => false);
      queue, current := q, labels;
      Repr := {this, q, labels, scheduler} + q.Repr + scheduler.Repr;
      new;
      assert ParkedTasks() == {};
      InitialSem(count, scheduler.View());
    }

    static lemma IdleScheduler(scheduler: Scheduler.Scheduler)
      requires scheduler.Valid() && scheduler.running == None && scheduler.dispatched == MAX_NUM_TASKS
      ensures Idle(scheduler.View())
    {
    }

    /** Semaphore::acquire on m_lock, which would spin for ever on 0, and Semaphore::release. */
    method Lock()
      requires Layout() && lock > 0
      modifies this`lock
      ensures Layout() && View() == old(View()).(lock := old(lock) - 1)
    {
      hide AllocQueue.Valid, AllocQueue.Contents, ParkedTasks, Scheduler.Scheduler.Valid, Scheduler.Scheduler.View;
      lock := lock - 1;
    }

    method Unlock()
      requires Layout()
      modifies this`lock
      ensures Layout() && View() == old(View()).(lock := old(lock) + 1)
    {
      hide AllocQueue.Valid, AllocQueue.Contents, ParkedTasks, Scheduler.Scheduler.Valid, Scheduler.Scheduler.View;
      lock := lock + 1;
    }

    method Release() returns (ret: RetType)
      requires Valid()
      modifies Repr
      ensures Valid() && View() == SemaphoreSpec.Release(old(View())) && ret == RetSuccess
    {
      hide AllocQueue.Valid, AllocQueue.Contents, ParkedTasks, Scheduler.Scheduler.Valid, Scheduler.Scheduler.View;
      hide SemInv, Wake;
      ReleaseKeeps(View());
      LockFree(View());
      Lock();
      count := count + 1;
      WakeFirst();
      Unlock();
      ret := RetSuccess;
    }

    /** release(), lines 33 to 39: unblock the next task waiting, if there is one. */
    method WakeFirst()
      requires Layout()
      modifies Repr
      ensures Layout() && lock == old(lock)
      ensures View() == var m, n := old(View()), |old(View()).waiting|;
        if n == 0 then m else m.(waiting := m.waiting[..n - 1], sched := Wake(m.sched, m.waiting[n - 1]))
    {
      hide AllocQueue.Valid, AllocQueue.Contents, ParkedTasks, Scheduler.Scheduler.Valid, Scheduler.Scheduler.View;
      hide Wake;
      var waiting := queue.Peek();
      if waiting != null {
        assert waiting in queue.Nodes();
        queue.Pop();
        scheduler.Wake(waiting.data);
      }
    }

    /** acquire(), called or re-entered by the running task: both labels lead to the top of its loop, which ends at
        a return, so that the loop is left in its first round every time. */
    method Acquire() returns (ret: RetType)
      requires Valid() && SemaphoreSpec.EventOk(View(), DoAcquire)
      modifies Repr
      ensures Layout() && ret != RetError
      ensures ret == RetSuccess ==> Valid()
      ensures (View(), ret) == SemaphoreSpec.Acquire(old(View()), old(View()).run.value)
    {
      hide AllocQueue.Valid, AllocQueue.Contents, ParkedTasks, Scheduler.Scheduler.Valid, Scheduler.Scheduler.View;
      hide SemInv, SchedulerSpec.Block;
      LockFree(View());
      RunningTask(View());
      AcquireResult(View(), scheduler.clock);
      Lock();
      if count == 0 {
        // no permit: wait
        ret := Park(scheduler.dispatched);
        return;
      }
      // take a permit
      count := count - 1;
      Unlock();
      // RESET()
      SetLabel(scheduler.dispatched, false);
      return RetSuccess;
    }

    /** acquire(), lines 55 to 62: queue up, release the lock and BLOCK(). */
    method Park(t: Tid) returns (ret: RetType)
      requires Layout() && CallOk(scheduler.View(), CallBlock(t))
      modifies Repr
      ensures |old(View()).waiting| < MAX_NUM_TASKS ==> Layout() && ret == RetBlocked
      ensures |old(View()).waiting| < MAX_NUM_TASKS ==>
        var m := old(View());
        View() == m.(waiting := [t] + m.waiting, lock := m.lock + 1, parked := m.parked + {t}, sched := Block(m.sched, t))
      ensures |old(View()).waiting| == MAX_NUM_TASKS ==> Layout() && ret == RetError && View() == old(View())
    {
      hide AllocQueue.Valid, AllocQueue.Contents, ParkedTasks, Scheduler.Scheduler.Valid, Scheduler.Scheduler.View;
      hide SemInv, SchedulerSpec.Block;
      var node := queue.Push(t);
      if node == null {
        return RetError;
      }
      Unlock();
      SetLabel(t, true);
      scheduler.Block(t);
      return RetBlocked;
    }

    /** `_current[t] = &&_block` or, if not `block`, `_current[t] = &&_start` */
    method SetLabel(t: Tid, block: bool)
      requires Layout()
      modifies current
      ensures Layout()
      ensures View() == var m := old(View()); m.(parked := if block then m.parked + {t} else m.parked - {t})
    {
      hide AllocQueue.Valid, AllocQueue.Contents, Scheduler.Scheduler.Valid, Scheduler.Scheduler.View;
      current[t] := block;
      assert ParkedTasks() == if block then old(ParkedTasks()) + {t} else old(ParkedTasks()) - {t};
    }
  }
}

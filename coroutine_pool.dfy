/**
 * `Coroutine::CoroutinePool` as a class whose fields the methods update in place.  The
 * context switch is not modelled: resuming a task runs it up to its next suspension point
 * (see `Scheduler.Resume`).  Each method is proved to move the snapshot of the fields exactly
 * as its partner function in `Scheduler` does (the module comment of `Scheduler` lists the
 * pairs).
 */
module Coroutine {
  import opened Scheduler

  class CoroutinePool {
    /** `std::stack<Stack *>`: the top is the last element. */
    var stackPool: seq<StackId>
    /** `std::priority_queue<WaitStruct>`: the entries, in no particular order. */
    var waitList: seq<WaitEntry>
    /** `std::queue<CoroutineTaskBase *>`: the front is the first element. */
    var readyQueue: seq<Task>
    /** `std::stack<CoroutineTaskBase *>`: the top is the last element. */
    var deleteQueue: seq<Task>
    const capacity: nat
    var size: int
    /** The reading of `std::chrono::system_clock`, in microseconds since construction. */
    var clock: int
    /** The identity `new` gives to the next task object. */
    var nextTaskId: TaskId

    ghost function Snapshot(): Pool
      reads this
    {
      Pool(capacity, size, stackPool, waitList, readyQueue, deleteQueue, clock, nextTaskId)
    }

    /**
     * The invariant the pool keeps whenever the scheduler, not a task, is in control, with
     * the conservation law it implies spelled out first.
     */
    ghost predicate Valid()
      reads this
    {
      Balanced(Snapshot()) && Inv(Snapshot())
    }

    /**
     * Allocates `capacity` stacks (by default `DefaultPoolCapacity`) into the free pool; no
     * task, empty queues.
     */
    constructor (capacity: nat := DefaultPoolCapacity)
      ensures Valid() && Snapshot() == InitPool(capacity)
    {
      this.capacity := capacity;
      size := 0;
      waitList, readyQueue, deleteQueue := [], [], [];
      clock, nextTaskId := 0, 0;
      stackPool := [];
      new;
      var i := 0;
      while i < capacity
        invariant 0 <= i <= capacity
        invariant stackPool == AllStacks(i)
        invariant size == 0 && waitList == [] && readyQueue == [] && deleteQueue == []
        invariant clock == 0 && nextTaskId == 0 && this.capacity == capacity
      {
        stackPool := stackPool + [i];
        i := i + 1;
      }
      assert Snapshot() == InitPool(capacity);
    }

    /**
     * Submits a task running `script`.  Fails with `PoolIsFull`, changing nothing, when
     * `size == capacity`; otherwise pops the top stack, gives it to the new task, appends the
     * task to the ready queue and counts it, without running it.
     */
    method New(script: seq<Action>) returns (outcome: Result<()>)
      requires Valid()
      modifies this
      ensures Valid()
      ensures outcome == Err(PoolIsFull) <==> old(size) == capacity
      ensures outcome.Err? ==> Snapshot() == old(Snapshot())
      ensures outcome.Ok? ==> Ok(Snapshot()) == Submit(old(Snapshot()), script)
    {
      if size == capacity {
        return Err(PoolIsFull);
      }
      SubmitOk(Snapshot(), script);
      Admit(script);
      return Ok(());
    }

    /**
     * The accepting branch of `New`: the top stack of the free pool goes to a new task object
     * running `script`, which joins the back of the ready queue and is counted.
     */
    method Admit(script: seq<Action>)
      requires Balanced(Snapshot()) && size < capacity
      modifies this
      ensures Ok(Snapshot()) == Submit(old(Snapshot()), script)
    {
      var top := |stackPool| - 1;
      var stack := stackPool[top];
      var task := Task(nextTaskId, stack, script);
      stackPool := stackPool[..top];
      readyQueue := readyQueue + [task];
      size := size + 1;
      nextTaskId := nextTaskId + 1;
    }

    /**
     * Drives every task to completion: the main loop resumes tasks until both the wait list
     * and the ready queue are empty, then the drain loop releases the finished tasks.
     * Afterwards no task is live and every stack is back in the free pool.
     */
    method RunAll()
      requires Valid()
      modifies this
      ensures Valid()
      ensures Snapshot() == Scheduler.RunAll(old(Snapshot()))
      ensures readyQueue == [] && waitList == [] && deleteQueue == [] && size == 0
      ensures multiset(stackPool) == multiset(AllStacks(capacity)) && |stackPool| == capacity
      ensures clock >= old(clock)
    {
      ghost var start := Snapshot();
      ghost var loopEnd := RunLoop(start);
      while true
        invariant RunLoop(Snapshot()) == loopEnd
        decreases Work(Snapshot()), Gap(Snapshot())
      {
        ghost var before := Snapshot();
        var stop := RunOnce();
        if stop {
          break;
        }
        StepDecreases(before);
        RunLoopStep(before);
      }
      assert Snapshot() == loopEnd;
      ReleaseFinished();
      RunAllEmpties(start);
      Conservation(Snapshot());
    }

    /**
     * The body of the `while (true)` loop of `RunAll`: wake the top of the wait list if it is
     * due, or sleep one quantum when nothing is ready, or stop when both are empty; otherwise
     * pop the front of the ready queue and resume it.  `stop` is the `break`.
     */
    method RunOnce() returns (stop: bool)
      modifies this
      ensures stop <==> Done(old(Snapshot()))
      ensures stop ==> Snapshot() == old(Snapshot())
      ensures !stop ==> Snapshot() == Step(old(Snapshot()))
    {
      ghost var before := Snapshot();
      ghost var woken := before;
      if |waitList| > 0 {
        var i := TopIndex(waitList);
        var entry := waitList[i];
        if entry.wakeUpTime <= clock {
          StepDue(before);
          readyQueue := readyQueue + [entry.task];
          waitList := RemoveAt(waitList, i);
          woken := Wake(before);
        } else if |readyQueue| == 0 {
          // nothing is ready yet: sleep for 500 microseconds and try again
          clock := clock + IdleQuantum;
          return false;
        }
      } else if |readyQueue| == 0 {
        return true;
      }
      var task := readyQueue[0];
      readyQueue := readyQueue[1..];
      Resume(task);
      assert Snapshot() == ResumeFront(woken);
      return false;
    }

    /**
     * The drain loop at the end of `RunAll`: pops every finished task off the delete queue,
     * uncounts it and returns its stack to the free pool.
     */
    method ReleaseFinished()
      modifies this
      ensures Snapshot() == Drain(old(Snapshot()))
    {
      ghost var drained := Drain(Snapshot());
      while |deleteQueue| > 0
        invariant Drain(Snapshot()) == drained
        decreases |deleteQueue|
      {
        var task := deleteQueue[|deleteQueue| - 1];
        deleteQueue := deleteQueue[..|deleteQueue| - 1];
        size := size - 1;
        stackPool := stackPool + [task.stack];
      }
    }

    /**
     * `task->Resume()`: the task runs to its next suspension point and performs the push of
     * `Yield`, `Sleep` or `CoroutineMain` there.
     */
    method Resume(task: Task)
      modifies this
      ensures Snapshot() == Scheduler.Resume(old(Snapshot()), task)
    {
      if task.script == [] {
        CoroutineMain(task);
      } else {
        var rest := task.(script := task.script[1..]);
        match task.script[0]
        case YieldAction => Yield(rest);
        case SleepAction(ms) => Sleep(rest, ms);
      }
    }

    method PushCoroutineToReadyQueue(task: Task)
      modifies this
      ensures Snapshot() == old(Snapshot()).(readyQueue := old(readyQueue) + [task])
    {
      readyQueue := readyQueue + [task];
    }

    /** The entry wakes `ms` milliseconds after the current clock reading. */
    method PushCoroutineToWaitList(task: Task, ms: UInt32)
      modifies this
      ensures Snapshot() ==
        old(Snapshot()).(waitList := old(waitList) + [WaitEntry(old(clock) + ms * MicrosPerMilli, task)])
    {
      waitList := waitList + [WaitEntry(clock + ms * MicrosPerMilli, task)];
    }

    method PushCoroutineToDeleteQueue(task: Task)
      modifies this
      ensures Snapshot() == old(Snapshot()).(deleteQueue := old(deleteQueue) + [task])
    {
      deleteQueue := deleteQueue + [task];
    }

    /** `CoroutineMain` once the body has returned: the task queues itself for deletion. */
    method CoroutineMain(task: Task)
      modifies this
      ensures Snapshot() == Scheduler.CoroutineMain(old(Snapshot()), task)
    {
      PushCoroutineToDeleteQueue(task);
    }

    /** `Yield`, with the calling task made explicit: it re-enters the ready queue at the back. */
    method Yield(task: Task)
      modifies this
      ensures Snapshot() == Scheduler.Yield(old(Snapshot()), task)
    {
      PushCoroutineToReadyQueue(task);
    }

    /** `Sleep`, with the calling task made explicit: zero is a `Yield`, else one wait entry. */
    method Sleep(task: Task, ms: UInt32)
      modifies this
      ensures Snapshot() == Scheduler.Sleep(old(Snapshot()), task, ms)
    {
      if ms == 0 {
        Yield(task);
        return;
      }
      PushCoroutineToWaitList(task, ms);
    }
  }
}

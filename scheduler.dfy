/**
 * Pure model of the bookkeeping of the cooperative scheduler `Coroutine::CoroutinePool`:
 * the free-stack pool, the live-task counter, the ready queue, the timed wait list and the
 * delete queue, and the transitions that the task-side primitives (`Yield`, `Sleep`,
 * `CoroutineMain`) and the two loops of `RunAll` apply to them.
 *
 * The class `Coroutine.CoroutinePool` keeps these parts in fields and updates them in
 * place; each of its methods is proved to move its snapshot (a `Pool` value) exactly as its
 * partner function here does: `New` and `Admit` as `Submit`, `RunOnce` as `Step`,
 * `ReleaseFinished` as `Drain`, the three `PushCoroutineTo…` methods as `PushReady`,
 * `PushWait` and `PushDelete`, the constructor as `InitPool`, and `RunAll`, `Resume`,
 * `Yield`, `Sleep` and `CoroutineMain` as the functions of the same name.  The lemmas below
 * are about these functions.
 */
module Scheduler {

  /** `unsigned int`, the argument of `Sleep`. */
  type UInt32 = x: int | 0 <= x < 0x1_0000_0000

  /** A stack obtained from `aligned_alloc`; only its identity matters here. */
  type StackId = nat

  /** The address `new` gives to a task object; only its identity matters here. */
  type TaskId = nat

  /** The capacity a pool gets when none is given. */
  const DefaultPoolCapacity: nat := 16

  /** The clock counts microseconds; `Sleep` takes milliseconds. */
  const MicrosPerMilli: nat := 1000

  /** `usleep(500)`: how far the clock moves while the scheduler idles. */
  const IdleQuantum: nat := 500

  /** A suspension point of a task body: a call it makes to `Yield` or to `Sleep(ms)`. */
  datatype Action = YieldAction | SleepAction(ms: UInt32)

  /**
   * A task: its identity, the stack it owns, and the suspension points its body has still
   * to pass.  When the script is empty, the next resume runs the body to its end.
   */
  datatype Task = Task(id: TaskId, stack: StackId, script: seq<Action>)

  /** `CoroutinePool::WaitStruct`. */
  datatype WaitEntry = WaitEntry(wakeUpTime: int, task: Task)

  /** The `std::runtime_error("Coroutine pool is full")` thrown by `New`. */
  datatype PoolError = PoolIsFull

  datatype Result<T> = Ok(value: T) | Err(error: PoolError)

  /**
   * The fields of a `CoroutinePool`.  `stackPool` and `deleteQueue` are `std::stack`s whose
   * top is the last element; `readyQueue` is a `std::queue` whose front is the first element;
   * `waitList` holds the contents of a `std::priority_queue` in no particular order.
   * `now` is the reading of `system_clock`, `nextTaskId` the identity the next task gets.
   */
  datatype Pool = Pool(
    capacity: nat,
    size: int,
    stackPool: seq<StackId>,
    waitList: seq<WaitEntry>,
    readyQueue: seq<Task>,
    deleteQueue: seq<Task>,
    now: int,
    nextTaskId: TaskId)

  // ---------------------------------------------------------------------------------------
  // The wait list as a priority queue

  /**
   * `WaitStruct::operator<`: inverted, so that the top of the max-heap wakes first.  Entries
   * with the same wake-up time are never ordered, so ties are left to the heap.
   */
  predicate WaitBefore(a: WaitEntry, b: WaitEntry)
    ensures WaitBefore(a, b) ==> a.wakeUpTime != b.wakeUpTime
  {
    a.wakeUpTime > b.wakeUpTime
  }

  /**
   * `operator<` is a strict weak ordering: irreflexive and transitive, and entries that
   * neither precedes (equal wake-up times) are interchangeable against any third entry.
   */
  lemma WaitBeforeStrictWeak(a: WaitEntry, b: WaitEntry, c: WaitEntry)
    ensures !WaitBefore(a, a)
    ensures WaitBefore(a, b) && WaitBefore(b, c) ==> WaitBefore(a, c)
    ensures !WaitBefore(a, b) && !WaitBefore(b, a) ==> (WaitBefore(a, c) <==> WaitBefore(b, c))
  {
  }

  /**
   * The position of the entry `waitList.top()` returns: one that is not `operator<` below
   * any other entry.  Among equal wake times the choice is the model's own.
   */
  function TopIndex(w: seq<WaitEntry>): (i: nat)
    requires w != []
    ensures i < |w|
    ensures forall j :: 0 <= j < |w| ==> !WaitBefore(w[i], w[j])
  {
    if |w| == 1 then 0
    else
      var k := TopIndex(w[1..]) + 1;
      assert forall j :: 1 <= j < |w| ==> w[j] == w[1..][j - 1];
      if WaitBefore(w[0], w[k]) then k else 0
  }

  /** Because `operator<` is inverted, the top of the wait list has the earliest wake time. */
  lemma TopIsEarliest(w: seq<WaitEntry>)
    requires w != []
    ensures forall j :: 0 <= j < |w| ==> w[TopIndex(w)].wakeUpTime <= w[j].wakeUpTime
  {
  }

  /** `waitList.pop()`: the wait list without the entry at position `i`. */
  function RemoveAt(w: seq<WaitEntry>, i: nat): (r: seq<WaitEntry>)
    requires i < |w|
    ensures |r| == |w| - 1
    ensures multiset(r) + multiset{w[i]} == multiset(w)
  {
    SplitAt(w, i);
    w[..i] + w[i + 1..]
  }

  // ---------------------------------------------------------------------------------------
  // Construction and submission

  /** The stacks the constructor allocates, in the order it pushes them. */
  function AllStacks(c: nat): (s: seq<StackId>)
    ensures |s| == c
  {
    if c == 0 then [] else AllStacks(c - 1) + [c - 1]
  }

  /**
   * The state the constructor leaves: all `capacity` stacks free, nothing live, all queues
   * empty; the invariant holds from the start.
   */
  function InitPool(capacity: nat): (p: Pool)
    ensures Inv(p) && |p.stackPool| == capacity && p.size == 0
    ensures p.readyQueue == [] && p.waitList == [] && p.deleteQueue == []
  {
    assert StacksOf([]) == [] && WaitStacks([]) == [];
    Pool(capacity, 0, AllStacks(capacity), [], [], [], 0, 0)
  }

  /** The free stacks and the counted tasks add up to the capacity (see `Conservation`). */
  predicate Balanced(p: Pool) {
    |p.stackPool| + p.size == p.capacity
  }

  /**
   * `New`: refuse when `size == capacity`; otherwise take the top stack, give it to a new
   * task, append that task to the ready queue and count it.  The task is not run.
   */
  function Submit(p: Pool, script: seq<Action>): (r: Result<Pool>)
    requires Balanced(p)
    ensures r.Err? <==> p.stackPool == []
    ensures r.Err? ==> r.error == PoolIsFull
    ensures r.Ok? ==> Balanced(r.value) && r.value.capacity == p.capacity
    ensures r.Ok? ==>
      r.value.readyQueue != [] &&
      var t := r.value.readyQueue[|r.value.readyQueue| - 1];
      multiset(r.value.stackPool) + multiset{t.stack} == multiset(p.stackPool) &&
      LiveStacks(r.value) == LiveStacks(p) + multiset{t.stack} &&
      Live(r.value) == Live(p) + 1 && r.value.size == p.size + 1
  {
    if p.size == p.capacity then Err(PoolIsFull)
    else
      var top := |p.stackPool| - 1;
      assert p.stackPool == p.stackPool[..top] + [p.stackPool[top]];
      assert StacksOf(p.readyQueue + [Task(p.nextTaskId, p.stackPool[top], script)]) ==
        StacksOf(p.readyQueue) + [p.stackPool[top]];
      Ok(p.(stackPool := p.stackPool[..top],
            readyQueue := p.readyQueue + [Task(p.nextTaskId, p.stackPool[top], script)],
            size := p.size + 1,
            nextTaskId := p.nextTaskId + 1))
  }

  // ---------------------------------------------------------------------------------------
  // Queue pushes and the task-side transitions

  /**
   * `PushCoroutineToReadyQueue`: the task becomes the last of the ready queue, and its stack
   * is held once more by a queued task.
   */
  function PushReady(p: Pool, t: Task): (r: Pool)
    ensures r.readyQueue != [] && r.readyQueue[|r.readyQueue| - 1] == t
    ensures Live(r) == Live(p) + 1
  {
    p.(readyQueue := p.readyQueue + [t])
  }

  /**
   * `PushCoroutineToWaitList`: one entry joins the wait list, due `ms` milliseconds after the
   * current clock reading.
   */
  function PushWait(p: Pool, t: Task, ms: UInt32): (r: Pool)
    ensures r.waitList != [] && r.waitList[|r.waitList| - 1].task == t
    ensures r.waitList[|r.waitList| - 1].wakeUpTime - p.now == ms * MicrosPerMilli
    ensures Live(r) == Live(p) + 1
  {
    p.(waitList := p.waitList + [WaitEntry(p.now + ms * MicrosPerMilli, t)])
  }

  /** `PushCoroutineToDeleteQueue`: the task becomes the top of the delete queue. */
  function PushDelete(p: Pool, t: Task): (r: Pool)
    ensures r.deleteQueue != [] && r.deleteQueue[|r.deleteQueue| - 1] == t
    ensures Live(r) == Live(p) + 1
  {
    p.(deleteQueue := p.deleteQueue + [t])
  }

  /** `Yield`: the calling task goes back to the end of the ready queue; no other queue moves. */
  function Yield(p: Pool, t: Task): (r: Pool)
    ensures |r.readyQueue| == |p.readyQueue| + 1 && r.readyQueue[|p.readyQueue|] == t
    ensures r.waitList == p.waitList && r.deleteQueue == p.deleteQueue
  {
    PushReady(p, t)
  }

  /**
   * `Sleep`: zero milliseconds is a `Yield`; otherwise the task enters the wait list with a
   * wake-up time strictly after the current clock reading, so it is not due at once.
   */
  function Sleep(p: Pool, t: Task, ms: UInt32): (r: Pool)
    ensures ms == 0 ==> r == Yield(p, t)
    ensures ms > 0 ==>
      r.readyQueue == p.readyQueue && |r.waitList| == |p.waitList| + 1 &&
      r.waitList[|p.waitList|].task == t && r.waitList[|p.waitList|].wakeUpTime > p.now
  {
    if ms == 0 then Yield(p, t) else PushWait(p, t, ms)
  }

  /**
   * `CoroutineMain` after `Run()` returned: the task queues itself for deletion and leaves
   * the ready queue and the wait list alone.
   */
  function CoroutineMain(p: Pool, t: Task): (r: Pool)
    ensures |r.deleteQueue| == |p.deleteQueue| + 1 && r.deleteQueue[|p.deleteQueue|] == t
    ensures r.readyQueue == p.readyQueue && r.waitList == p.waitList
  {
    PushDelete(p, t)
  }

  /**
   * `task->Resume()`: the task runs up to its next suspension point and performs the push
   * that `Yield`, `Sleep` or `CoroutineMain` performs there.  So the task ends up in exactly
   * one queue, and nothing but the queues changes.
   */
  function Resume(p: Pool, t: Task): (r: Pool)
    ensures r.capacity == p.capacity && r.size == p.size && r.stackPool == p.stackPool
    ensures r.nextTaskId == p.nextTaskId && r.now == p.now
    ensures Live(r) == Live(p) + 1
  {
    if t.script == [] then CoroutineMain(p, t)
    else
      var rest := t.(script := t.script[1..]);
      match t.script[0]
      case YieldAction => Yield(p, rest)
      case SleepAction(ms) => Sleep(p, rest, ms)
  }

  // ---------------------------------------------------------------------------------------
  // The main loop of RunAll

  /**
   * The loop of `RunAll` breaks exactly when both the wait list and the ready queue are
   * empty; every task still queued then has finished.
   */
  predicate Done(p: Pool)
    ensures Done(p) ==> Live(p) == |p.deleteQueue|
  {
    p.waitList == [] && p.readyQueue == []
  }

  /**
   * The entry at the top of the wait list is due: its wake time is not after the clock.  By
   * the inverted `operator<`, that is so exactly when some entry of the wait list is due.
   */
  predicate TopDue(p: Pool)
    requires p.waitList != []
    ensures TopDue(p) <==> exists j :: 0 <= j < |p.waitList| && p.waitList[j].wakeUpTime <= p.now
  {
    p.waitList[TopIndex(p.waitList)].wakeUpTime <= p.now
  }

  /**
   * The scheduler has nothing to run: it sleeps one quantum and checks again.  It idles only
   * when no entry of the wait list at all is due.
   */
  predicate Idle(p: Pool)
    ensures Idle(p) ==> !Done(p) && forall j :: 0 <= j < |p.waitList| ==> p.waitList[j].wakeUpTime > p.now
  {
    p.waitList != [] && !TopDue(p) && p.readyQueue == []
  }

  /**
   * The first half of a loop iteration: a due top entry moves to the back of the ready
   * queue, and a wait list whose top is not yet due is left untouched.
   */
  function Wake(p: Pool): (r: Pool)
    ensures !Done(p) && !Idle(p) ==> r.readyQueue != []
    ensures p.waitList != [] && TopDue(p) ==>
      var i := TopIndex(p.waitList);
      r == p.(readyQueue := p.readyQueue + [p.waitList[i].task], waitList := RemoveAt(p.waitList, i))
    ensures !(p.waitList != [] && TopDue(p)) ==> r == p
  {
    if p.waitList != [] && TopDue(p) then
      var i := TopIndex(p.waitList);
      p.(readyQueue := p.readyQueue + [p.waitList[i].task], waitList := RemoveAt(p.waitList, i))
    else p
  }

  /**
   * The second half: pop the front of the ready queue and resume it.  The front task leaves
   * the ready queue and re-enters one queue, so the queued tasks and their stacks are the same.
   */
  function ResumeFront(p: Pool): (r: Pool)
    requires p.readyQueue != []
    ensures r.capacity == p.capacity && r.size == p.size && r.stackPool == p.stackPool
    ensures r.nextTaskId == p.nextTaskId && r.now == p.now
    ensures Live(r) == Live(p)
  {
    var rq := p.readyQueue;
    Resume(p.(readyQueue := rq[1..]), rq[0])
  }

  /**
   * One iteration of the `while (true)` loop of `RunAll` that does not break.  It moves no
   * stack, changes neither the counter nor the capacity, and never turns the clock back.
   */
  function Step(p: Pool): (r: Pool)
    requires !Done(p)
    ensures r.capacity == p.capacity && r.size == p.size && r.stackPool == p.stackPool
    ensures r.nextTaskId == p.nextTaskId && r.now >= p.now
  {
    if Idle(p) then p.(now := p.now + IdleQuantum) else ResumeFront(Wake(p))
  }

  /** An iteration that finds the top of the wait list due wakes it, then resumes the front. */
  lemma StepDue(p: Pool)
    requires p.waitList != [] && TopDue(p)
    ensures !Done(p) && Step(p) == ResumeFront(Wake(p))
    ensures var i := TopIndex(p.waitList);
      Wake(p) == p.(readyQueue := p.readyQueue + [p.waitList[i].task], waitList := RemoveAt(p.waitList, i))
  {
  }

  /**
   * An iteration whose top entry is not yet due, with a task ready, leaves the wait list to
   * the resumed task: nothing is woken, the front is resumed.
   */
  lemma StepNotDue(p: Pool)
    requires p.waitList != [] && !TopDue(p) && p.readyQueue != []
    ensures !Done(p) && Step(p) == ResumeFront(p)
  {
  }

  /**
   * An entry leaves the wait list only once it is due: whatever an iteration removes from
   * the wait list has a wake-up time not after the clock reading.
   */
  lemma LeavesOnlyWhenDue(p: Pool)
    requires !Done(p)
    ensures forall e :: multiset(Step(p).waitList)[e] < multiset(p.waitList)[e] ==> e.wakeUpTime <= p.now
  {
    if !Idle(p) {
      var q := Wake(p);
      var rest := q.(readyQueue := q.readyQueue[1..]);
      ResumeWaitGrows(rest, q.readyQueue[0]);
      assert multiset(Step(p).waitList) == multiset(q.waitList) + (multiset(Step(p).waitList) - multiset(q.waitList));
      if p.waitList != [] && TopDue(p) {
        var i := TopIndex(p.waitList);
        assert multiset(q.waitList) + multiset{p.waitList[i]} == multiset(p.waitList);
      }
    }
  }

  /** A resume only ever adds to the wait list. */
  lemma ResumeWaitGrows(p: Pool, t: Task)
    ensures multiset(p.waitList) <= multiset(Resume(p, t).waitList)
  {
    if t.script != [] && t.script[0].SleepAction? && t.script[0].ms > 0 {
      var e := WaitEntry(p.now + t.script[0].ms * MicrosPerMilli, t.(script := t.script[1..]));
      assert Resume(p, t).waitList == p.waitList + [e];
    }
  }

  /** The weight of a task: two per suspension point left, plus one for its final return. */
  function TaskWork(t: Task): nat {
    2 * |t.script| + 1
  }

  function ReadyWork(q: seq<Task>): nat {
    if q == [] then 0 else ReadyWork(q[..|q| - 1]) + TaskWork(q[|q| - 1])
  }

  function WaitWork(w: seq<WaitEntry>): nat {
    if w == [] then 0 else WaitWork(w[..|w| - 1]) + TaskWork(w[|w| - 1].task) + 1
  }

  /** What is left to do: every resume lowers it, idling leaves it alone. */
  function Work(p: Pool): nat {
    ReadyWork(p.readyQueue) + WaitWork(p.waitList)
  }

  /** How long until the top of the wait list is due: idling lowers it. */
  function Gap(p: Pool): nat {
    if p.waitList == [] then 0
    else
      var t := p.waitList[TopIndex(p.waitList)].wakeUpTime;
      if t > p.now then t - p.now else 0
  }

  lemma {:induction false} ReadyWorkConcat(a: seq<Task>, b: seq<Task>)
    ensures ReadyWork(a + b) == ReadyWork(a) + ReadyWork(b)
    decreases |b|
  {
    if b != [] {
      assert (a + b)[..|a + b| - 1] == a + b[..|b| - 1];
      ReadyWorkConcat(a, b[..|b| - 1]);
    } else {
      assert a + b == a;
    }
  }

  lemma {:induction false} WaitWorkConcat(a: seq<WaitEntry>, b: seq<WaitEntry>)
    ensures WaitWork(a + b) == WaitWork(a) + WaitWork(b)
    decreases |b|
  {
    if b != [] {
      assert (a + b)[..|a + b| - 1] == a + b[..|b| - 1];
      WaitWorkConcat(a, b[..|b| - 1]);
    } else {
      assert a + b == a;
    }
  }

  lemma ReadyWorkTail(q: seq<Task>)
    requires q != []
    ensures ReadyWork(q) == TaskWork(q[0]) + ReadyWork(q[1..])
  {
    assert q == [q[0]] + q[1..];
    ReadyWorkConcat([q[0]], q[1..]);
    assert [q[0]][..0] == [];
  }

  lemma WaitWorkRemove(w: seq<WaitEntry>, i: nat)
    requires i < |w|
    ensures WaitWork(w) == WaitWork(RemoveAt(w, i)) + TaskWork(w[i].task) + 1
  {
    var a, e, b := w[..i], w[i], w[i + 1..];
    SplitAt(w, i);
    assert RemoveAt(w, i) == a + b;
    WaitWorkConcat(a + [e], b);
    WaitWorkSnoc(a, e);
    WaitWorkConcat(a, b);
  }

  lemma SplitAt(w: seq<WaitEntry>, i: nat)
    requires i < |w|
    ensures w == (w[..i] + [w[i]]) + w[i + 1..]
  {
    assert w == w[..i] + w[i..];
  }

  lemma WaitWorkSnoc(a: seq<WaitEntry>, e: WaitEntry)
    ensures WaitWork(a + [e]) == WaitWork(a) + TaskWork(e.task) + 1
  {
    assert (a + [e])[..|a|] == a;
  }

  /** A resume lowers the work by at least one: the task passed a suspension point or ended. */
  lemma ResumeWork(p: Pool, t: Task)
    ensures Work(Resume(p, t)) < Work(p) + TaskWork(t)
    ensures Resume(p, t).now == p.now
  {
    if t.script != [] {
      var rest := t.(script := t.script[1..]);
      assert (p.readyQueue + [rest])[..|p.readyQueue|] == p.readyQueue;
      assert (p.waitList + [WaitEntry(p.now, rest)])[..|p.waitList|] == p.waitList;
      match t.script[0]
      case YieldAction =>
      case SleepAction(ms) =>
        assert (p.waitList + [WaitEntry(p.now + ms * MicrosPerMilli, rest)])[..|p.waitList|] == p.waitList;
    }
  }

  /** Every iteration that does not break makes progress: less work, or a shorter wait. */
  lemma StepDecreases(p: Pool)
    requires !Done(p)
    ensures Work(Step(p)) < Work(p) || (Work(Step(p)) == Work(p) && Gap(Step(p)) < Gap(p))
  {
    if !Idle(p) {
      var q := Wake(p);
      if p.waitList != [] && TopDue(p) {
        var i := TopIndex(p.waitList);
        WaitWorkRemove(p.waitList, i);
        assert (p.readyQueue + [p.waitList[i].task])[..|p.readyQueue|] == p.readyQueue;
        assert Work(q) < Work(p);
      }
      ReadyWorkTail(q.readyQueue);
      ResumeWork(q.(readyQueue := q.readyQueue[1..]), q.readyQueue[0]);
    }
  }

  /**
   * The `while (true)` loop of `RunAll`, run until it breaks.  It breaks only with both the
   * wait list and the ready queue empty; it moves no stack, changes neither the capacity nor
   * the counter, and the clock never goes back.
   */
  function RunLoop(p: Pool): (r: Pool)
    ensures Done(r)
    ensures r.capacity == p.capacity && r.size == p.size && r.stackPool == p.stackPool
    ensures r.nextTaskId == p.nextTaskId && r.now >= p.now
    decreases Work(p), Gap(p)
  {
    if Done(p) then p
    else
      StepDecreases(p);
      RunLoop(Step(p))
  }

  /** An iteration that does not break leaves the rest of the loop's run unchanged. */
  lemma RunLoopStep(p: Pool)
    requires !Done(p)
    ensures RunLoop(p) == RunLoop(Step(p))
  {
  }

  // ---------------------------------------------------------------------------------------
  // The drain loop of RunAll

  /** The stacks of `q` in the order the drain pops them: the top (last) task first. */
  function PopOrderStacks(q: seq<Task>): (s: seq<StackId>)
    ensures |s| == |q|
    ensures forall i :: 0 <= i < |q| ==> s[i] == q[|q| - 1 - i].stack
  {
    if q == [] then [] else [q[|q| - 1].stack] + PopOrderStacks(q[..|q| - 1])
  }

  /**
   * The drain loop of `RunAll`: the delete queue ends empty, the counter drops by the number
   * of tasks it held, and their stacks are pushed back onto the stack pool in pop order.
   */
  function Drain(p: Pool): (r: Pool)
    ensures r.deleteQueue == []
    ensures r.size == p.size - |p.deleteQueue|
    ensures r.stackPool == p.stackPool + PopOrderStacks(p.deleteQueue)
    ensures r == p.(deleteQueue := [], size := r.size, stackPool := r.stackPool)
    decreases |p.deleteQueue|
  {
    if p.deleteQueue == [] then p
    else
      var last := |p.deleteQueue| - 1;
      var task := p.deleteQueue[last];
      var q := p.(deleteQueue := p.deleteQueue[..last], size := p.size - 1,
                  stackPool := p.stackPool + [task.stack]);
      var r := Drain(q);
      assert r.stackPool == p.stackPool + PopOrderStacks(p.deleteQueue);
      r
  }

  /**
   * `RunAll`: the main loop, then the drain.  It returns with the ready queue, the wait list
   * and the delete queue all empty, the capacity unchanged and the clock not turned back.
   */
  function RunAll(p: Pool): (r: Pool)
    ensures r.readyQueue == [] && r.waitList == [] && r.deleteQueue == []
    ensures r.capacity == p.capacity && r.now >= p.now
  {
    Drain(RunLoop(p))
  }

  // ---------------------------------------------------------------------------------------
  // The state invariant

  function StacksOf(q: seq<Task>): (s: seq<StackId>)
    ensures |s| == |q| && forall i :: 0 <= i < |q| ==> s[i] == q[i].stack
  {
    seq(|q|, i requires 0 <= i < |q| => q[i].stack)
  }

  function WaitStacks(w: seq<WaitEntry>): (s: seq<StackId>)
    ensures |s| == |w| && forall i :: 0 <= i < |w| ==> s[i] == w[i].task.stack
  {
    seq(|w|, i requires 0 <= i < |w| => w[i].task.stack)
  }

  /** The tasks that are alive and queued somewhere. */
  function Live(p: Pool): nat {
    |p.readyQueue| + |p.waitList| + |p.deleteQueue|
  }

  /** The stacks those tasks own. */
  ghost function LiveStacks(p: Pool): multiset<StackId> {
    multiset(StacksOf(p.readyQueue)) + multiset(WaitStacks(p.waitList)) + multiset(StacksOf(p.deleteQueue))
  }

  /**
   * The invariant while the scheduler (not a task) is in control: the counter counts the
   * queued tasks, and the free stacks together with the stacks of those tasks are exactly
   * the stacks the constructor allocated, each once.
   */
  ghost predicate Inv(p: Pool) {
    p.size == Live(p) &&
    multiset(p.stackPool) + LiveStacks(p) == multiset(AllStacks(p.capacity))
  }

  /** The conservation law: free stacks plus live tasks make up the capacity. */
  lemma Conservation(p: Pool)
    requires Inv(p)
    ensures Balanced(p)
    ensures 0 <= p.size <= p.capacity
  {
    calc {
      p.capacity;
      |multiset(AllStacks(p.capacity))|;
      |multiset(p.stackPool)| + |multiset(StacksOf(p.readyQueue))| + |multiset(WaitStacks(p.waitList))|
        + |multiset(StacksOf(p.deleteQueue))|;
      |p.stackPool| + p.size;
    }
  }

  lemma {:induction false} AllStacksDistinct(c: nat, x: StackId)
    ensures multiset(AllStacks(c))[x] == if x < c then 1 else 0
  {
    if c > 0 {
      AllStacksDistinct(c - 1, x);
      assert multiset(AllStacks(c)) == multiset(AllStacks(c - 1)) + multiset{(c - 1) as StackId};
    }
  }

  /** No stack is ever held twice: not by two tasks, nor by a task and the free pool. */
  lemma StackHeldOnce(p: Pool, x: StackId)
    requires Inv(p)
    ensures multiset(p.stackPool)[x] + LiveStacks(p)[x] <= 1
    ensures x in multiset(p.stackPool) + LiveStacks(p) <==> x < p.capacity
  {
    AllStacksDistinct(p.capacity, x);
  }

  /** `New` fails exactly when the pool is full, and then nothing changes. */
  lemma SubmitFull(p: Pool, script: seq<Action>)
    requires Inv(p)
    ensures Balanced(p)
    ensures Submit(p, script).Err? <==> p.size == p.capacity
    ensures Submit(p, script).Err? <==> p.stackPool == []
  {
    Conservation(p);
  }

  /**
   * A successful `New` pops the top stack, appends a task owning that stack to the back of
   * the ready queue, counts it, runs nothing, and keeps the invariant.
   */
  lemma SubmitOk(p: Pool, script: seq<Action>)
    requires Inv(p) && p.size < p.capacity
    ensures Balanced(p) && Submit(p, script).Ok?
    ensures var r := Submit(p, script).value;
      |p.stackPool| > 0 &&
      r.stackPool + [p.stackPool[|p.stackPool| - 1]] == p.stackPool &&
      r.readyQueue == p.readyQueue + [Task(p.nextTaskId, p.stackPool[|p.stackPool| - 1], script)] &&
      r.size == p.size + 1 && r.nextTaskId == p.nextTaskId + 1 && r.capacity == p.capacity &&
      r.waitList == p.waitList && r.deleteQueue == p.deleteQueue && r.now == p.now
    ensures Inv(Submit(p, script).value)
  {
    Conservation(p);
    var r := Submit(p, script).value;
    var top := |p.stackPool| - 1;
    var t := Task(p.nextTaskId, p.stackPool[top], script);
    assert p.stackPool == p.stackPool[..top] + [p.stackPool[top]];
    assert StacksOf(p.readyQueue + [t]) == StacksOf(p.readyQueue) + [t.stack];
  }

  lemma AppendReadyStacks(p: Pool, t: Task)
    ensures LiveStacks(PushReady(p, t)) == LiveStacks(p) + multiset{t.stack}
  {
    assert StacksOf(p.readyQueue + [t]) == StacksOf(p.readyQueue) + [t.stack];
  }

  lemma AppendWaitStacks(p: Pool, t: Task, ms: UInt32)
    ensures LiveStacks(PushWait(p, t, ms)) == LiveStacks(p) + multiset{t.stack}
  {
    var e := WaitEntry(p.now + ms * MicrosPerMilli, t);
    assert WaitStacks(p.waitList + [e]) == WaitStacks(p.waitList) + [t.stack];
  }

  lemma AppendDeleteStacks(p: Pool, t: Task)
    ensures LiveStacks(PushDelete(p, t)) == LiveStacks(p) + multiset{t.stack}
  {
    assert StacksOf(p.deleteQueue + [t]) == StacksOf(p.deleteQueue) + [t.stack];
  }

  /** A resume puts the task's stack into exactly one queue: the held stacks gain exactly it. */
  lemma ResumeStacks(p: Pool, t: Task)
    ensures LiveStacks(Resume(p, t)) == LiveStacks(p) + multiset{t.stack}
  {
    if t.script == [] {
      AppendDeleteStacks(p, t);
    } else {
      var rest := t.(script := t.script[1..]);
      match t.script[0]
      case YieldAction =>
        AppendReadyStacks(p, rest);
      case SleepAction(ms) =>
        if ms == 0 {
          AppendReadyStacks(p, rest);
        } else {
          AppendWaitStacks(p, rest, ms);
        }
    }
  }

  /** Moving a due entry from the wait list to the ready queue keeps the invariant. */
  lemma WakeInv(p: Pool)
    requires Inv(p)
    ensures Inv(Wake(p))
    ensures Wake(p).capacity == p.capacity && Wake(p).stackPool == p.stackPool
  {
    if p.waitList != [] && TopDue(p) {
      var i := TopIndex(p.waitList);
      var w := p.waitList;
      var t := w[i].task;
      RemoveWaitStacks(w, i);
      assert Wake(p) == PushReady(p.(waitList := RemoveAt(w, i)), t);
      AppendReadyStacks(p.(waitList := RemoveAt(w, i)), t);
    }
  }

  lemma RemoveWaitStacks(w: seq<WaitEntry>, i: nat)
    requires i < |w|
    ensures multiset(WaitStacks(w)) == multiset(WaitStacks(RemoveAt(w, i))) + multiset{w[i].task.stack}
  {
    assert WaitStacks(w) == WaitStacks(w[..i]) + [w[i].task.stack] + WaitStacks(w[i + 1..]);
    assert WaitStacks(RemoveAt(w, i)) == WaitStacks(w[..i]) + WaitStacks(w[i + 1..]);
  }

  /** Popping the front of the ready queue and resuming it keeps the invariant. */
  lemma ResumeFrontInv(p: Pool)
    requires Inv(p) && p.readyQueue != []
    ensures Inv(ResumeFront(p))
    ensures ResumeFront(p).capacity == p.capacity
  {
    var rq := p.readyQueue;
    assert StacksOf(rq) == [rq[0].stack] + StacksOf(rq[1..]);
    ResumeStacks(p.(readyQueue := rq[1..]), rq[0]);
  }

  /** Every iteration of the main loop keeps the invariant. */
  lemma StepInv(p: Pool)
    requires Inv(p) && !Done(p)
    ensures Inv(Step(p))
    ensures Step(p).capacity == p.capacity
  {
    if !Idle(p) {
      WakeInv(p);
      ResumeFrontInv(Wake(p));
    }
  }

  lemma {:induction false} RunLoopInv(p: Pool)
    requires Inv(p)
    ensures Inv(RunLoop(p))
    decreases Work(p), Gap(p)
  {
    if !Done(p) {
      StepInv(p);
      StepDecreases(p);
      RunLoopInv(Step(p));
    }
  }

  /**
   * The drain after the main loop: with only finished tasks left, releasing them empties
   * every queue and returns every stack to the pool.
   */
  lemma DrainEmpties(q: Pool)
    requires Inv(q) && Done(q)
    ensures var r := Drain(q);
      r.readyQueue == [] && r.waitList == [] && r.deleteQueue == [] && r.size == 0 &&
      r.capacity == q.capacity && multiset(r.stackPool) == multiset(AllStacks(q.capacity)) && Inv(r)
  {
    var d := q.deleteQueue;
    DrainStacks(d);
    assert StacksOf([]) == [] && WaitStacks([]) == [];
    assert LiveStacks(q) == multiset(StacksOf(d));
    var r := Drain(q);
    assert multiset(r.stackPool) == multiset(q.stackPool) + multiset(StacksOf(d));
    assert LiveStacks(r) == multiset{};
  }

  /**
   * The post-state of `RunAll`: ready queue, wait list and delete queue all empty, no live
   * task, and every stack the constructor allocated back in the stack pool, each once.
   */
  lemma RunAllEmpties(p: Pool)
    requires Inv(p)
    ensures var r := RunAll(p);
      r.readyQueue == [] && r.waitList == [] && r.deleteQueue == [] && r.size == 0 &&
      r.capacity == p.capacity && |r.stackPool| == p.capacity &&
      multiset(r.stackPool) == multiset(AllStacks(p.capacity)) && Inv(r)
  {
    RunLoopInv(p);
    DrainEmpties(RunLoop(p));
    Conservation(RunAll(p));
  }

  lemma {:induction false} DrainStacks(d: seq<Task>)
    ensures multiset(PopOrderStacks(d)) == multiset(StacksOf(d))
    decreases |d|
  {
    if d != [] {
      var last := |d| - 1;
      DrainStacks(d[..last]);
      assert StacksOf(d) == StacksOf(d[..last]) + [d[last].stack];
    }
  }
}

/**
 * Properties of whole runs of the scheduler model: how many submissions the pool accepts,
 * the round-robin order in which yielding tasks finish, and the order in which sleeping
 * tasks finish.  The order in which tasks finish is the order in which they are pushed onto
 * the delete queue, which `RunLoop` leaves intact.
 */
module SchedulerProperties {
  import opened Scheduler

  /** A task body that calls `Yield` `n` times and then returns. */
  function Yields(n: nat): (s: seq<Action>)
    ensures |s| == n && forall i :: 0 <= i < n ==> s[i] == YieldAction
  {
    seq(n, _ => YieldAction)
  }

  /** The tasks of `q` with their scripts replaced by `s`. */
  function WithScript(q: seq<Task>, s: seq<Action>): (r: seq<Task>)
    ensures |r| == |q| && forall i :: 0 <= i < |q| ==> r[i] == q[i].(script := s)
  {
    seq(|q|, i requires 0 <= i < |q| => q[i].(script := s))
  }

  function Ids(q: seq<Task>): (r: seq<TaskId>)
    ensures |r| == |q| && forall i :: 0 <= i < |q| ==> r[i] == q[i].id
  {
    seq(|q|, i requires 0 <= i < |q| => q[i].id)
  }

  // ---------------------------------------------------------------------------------------
  // Submission

  /** `New` called once per script, in order, stopping at the first failure. */
  function SubmitAll(p: Pool, scripts: seq<seq<Action>>): (r: Result<Pool>)
    requires Balanced(p)
    ensures r.Ok? ==> Balanced(r.value) && r.value.capacity == p.capacity
    decreases |scripts|
  {
    if scripts == [] then Ok(p)
    else if p.size == p.capacity then Err(PoolIsFull)
    else SubmitAll(Submit(p, scripts[0]).value, scripts[1..])
  }

  /**
   * The pool accepts a run of submissions exactly when they fit in the free capacity; in
   * particular the (`capacity` + 1)-th submission into an empty pool fails.
   */
  lemma {:induction false} SubmitAllAccepts(p: Pool, scripts: seq<seq<Action>>)
    requires Balanced(p)
    ensures SubmitAll(p, scripts).Ok? <==> p.size + |scripts| <= p.capacity
    decreases |scripts|
  {
    if scripts != [] && p.size < p.capacity {
      SubmitAllAccepts(Submit(p, scripts[0]).value, scripts[1..]);
    }
  }

  /** A run of accepted submissions keeps the pool invariant. */
  lemma {:induction false} SubmitAllInv(p: Pool, scripts: seq<seq<Action>>)
    requires Balanced(p) && Inv(p) && SubmitAll(p, scripts).Ok?
    ensures Inv(SubmitAll(p, scripts).value)
    decreases |scripts|
  {
    if scripts != [] {
      SubmitOk(p, scripts[0]);
      SubmitAllInv(Submit(p, scripts[0]).value, scripts[1..]);
    }
  }

  /**
   * From position `from` on, `q` holds tasks with consecutive identities starting at
   * `firstId`, running the given scripts in order.
   */
  ghost predicate NewTasksAt(q: seq<Task>, from: nat, firstId: TaskId, scripts: seq<seq<Action>>) {
    |q| == from + |scripts| &&
    forall i :: from <= i < |q| ==> q[i].id == firstId + (i - from) && q[i].script == scripts[i - from]
  }

  lemma NewTasksCons(q: seq<Task>, from: nat, firstId: TaskId, scripts: seq<seq<Action>>)
    requires scripts != [] && from < |q|
    requires q[from].id == firstId && q[from].script == scripts[0]
    requires NewTasksAt(q, from + 1, firstId + 1, scripts[1..])
    ensures NewTasksAt(q, from, firstId, scripts)
  {
    assert forall i :: 1 <= i < |scripts| ==> scripts[1..][i - 1] == scripts[i];
  }

  /** The ready queue after one more accepted submission in front of the rest of the run. */
  lemma NewTasksExtend(r: seq<Task>, q: seq<Task>, t: Task, firstId: TaskId, scripts: seq<seq<Action>>)
    requires scripts != [] && t.id == firstId && t.script == scripts[0]
    requires |r| == |q| + |scripts| && r[..|q| + 1] == q + [t]
    requires NewTasksAt(r, |q| + 1, firstId + 1, scripts[1..])
    ensures r[..|q|] == q && NewTasksAt(r, |q|, firstId, scripts)
  {
    var n := |q|;
    assert r[..n] == r[..n + 1][..n];
    assert r[n] == (q + [t])[n];
    NewTasksCons(r, n, firstId, scripts);
  }

  /** One accepted `New` followed by the rest of the run. */
  lemma SubmitAllUnfold(p: Pool, scripts: seq<seq<Action>>)
    requires Balanced(p) && scripts != [] && SubmitAll(p, scripts).Ok?
    ensures p.size < p.capacity && Submit(p, scripts[0]).Ok?
    ensures SubmitAll(p, scripts) == SubmitAll(Submit(p, scripts[0]).value, scripts[1..])
  {
  }

  /**
   * After accepted submissions the new tasks stand at the back of the ready queue in
   * submission order, with consecutive identities and their own scripts; nothing else
   * is queued, and the counter grew by their number.
   */
  lemma {:induction false} SubmitAllQueue(p: Pool, scripts: seq<seq<Action>>)
    requires Balanced(p) && SubmitAll(p, scripts).Ok?
    ensures var r := SubmitAll(p, scripts).value;
      r.size == p.size + |scripts| && r.waitList == p.waitList &&
      r.deleteQueue == p.deleteQueue && r.now == p.now &&
      r.nextTaskId == p.nextTaskId + |scripts| &&
      |r.readyQueue| == |p.readyQueue| + |scripts| &&
      r.readyQueue[..|p.readyQueue|] == p.readyQueue &&
      NewTasksAt(r.readyQueue, |p.readyQueue|, p.nextTaskId, scripts)
    decreases |scripts|
  {
    if scripts != [] {
      SubmitAllUnfold(p, scripts);
      var q := Submit(p, scripts[0]).value;
      SubmitAllQueue(q, scripts[1..]);
      var r := SubmitAll(q, scripts[1..]).value;
      NewTasksExtend(r.readyQueue, p.readyQueue, q.readyQueue[|p.readyQueue|], p.nextTaskId, scripts);
    }
  }

  // ---------------------------------------------------------------------------------------
  // Round robin

  /** With nothing waiting, loop iterations pop the front and resume it: no waking, no idling. */
  lemma RunLoopUnfold(p: Pool)
    requires p.waitList == [] && p.readyQueue != []
    ensures RunLoop(p) == RunLoop(ResumeFront(p))
  {
    assert Step(p) == ResumeFront(p);
  }

  /** Tasks whose bodies have returned finish in the order they stand in the ready queue. */
  lemma {:induction false} FinishAll(p: Pool)
    requires p.waitList == []
    requires forall i :: 0 <= i < |p.readyQueue| ==> p.readyQueue[i].script == []
    ensures RunLoop(p) == p.(readyQueue := [], deleteQueue := p.deleteQueue + p.readyQueue)
    decreases |p.readyQueue|
  {
    if p.readyQueue == [] {
      assert p.deleteQueue + [] == p.deleteQueue;
    } else {
      var q := p.readyQueue;
      RunLoopUnfold(p);
      var p' := ResumeFront(p);
      assert p' == p.(readyQueue := q[1..], deleteQueue := p.deleteQueue + [q[0]]);
      FinishAll(p');
      assert p.deleteQueue + [q[0]] + q[1..] == p.deleteQueue + q;
    }
  }

  /** The task at the front passes one `Yield` and re-enters at the back, behind `post`. */
  lemma YieldFront(p: Pool, pre: seq<Task>, post: seq<Task>, n: nat)
    requires pre != [] && p.readyQueue == pre + post && pre[0].script == Yields(n + 1)
    ensures ResumeFront(p) == p.(readyQueue := pre[1..] + (post + [pre[0].(script := Yields(n))]))
  {
    assert Yields(n + 1)[1..] == Yields(n);
    assert p.readyQueue[1..] == pre[1..] + post;
  }

  lemma WithScriptCons(q: seq<Task>, post: seq<Task>, s: seq<Action>)
    requires q != []
    ensures post + [q[0].(script := s)] + WithScript(q[1..], s) == post + WithScript(q, s)
  {
    assert WithScript(q, s) == [q[0].(script := s)] + WithScript(q[1..], s);
  }

  /**
   * One round: each task of `pre`, at the front, passes one `Yield` and re-enters at the
   * back, behind `post`, in the same order.
   */
  lemma {:induction false} Round(p: Pool, pre: seq<Task>, post: seq<Task>, n: nat)
    requires p.waitList == [] && p.readyQueue == pre + post
    requires forall i :: 0 <= i < |pre| ==> pre[i].script == Yields(n + 1)
    ensures RunLoop(p) == RunLoop(p.(readyQueue := post + WithScript(pre, Yields(n))))
    decreases |pre|
  {
    if pre == [] {
      assert pre + post == post + WithScript(pre, Yields(n));
    } else {
      RunLoopUnfold(p);
      YieldFront(p, pre, post, n);
      var t' := pre[0].(script := Yields(n));
      Round(ResumeFront(p), pre[1..], post + [t'], n);
      WithScriptCons(pre, post, Yields(n));
    }
  }

  /**
   * Round-robin fairness: tasks that each yield `n` times and then return finish in exactly
   * the order they stood in the ready queue.
   */
  lemma {:induction false} RoundRobinOrder(p: Pool, n: nat)
    requires p.waitList == []
    requires forall i :: 0 <= i < |p.readyQueue| ==> p.readyQueue[i].script == Yields(n)
    ensures RunLoop(p).deleteQueue == p.deleteQueue + WithScript(p.readyQueue, [])
    decreases n
  {
    if n == 0 {
      assert p.readyQueue == WithScript(p.readyQueue, []);
      FinishAll(p);
    } else {
      Round(p, p.readyQueue, [], n - 1);
      assert [] + WithScript(p.readyQueue, Yields(n - 1)) == WithScript(p.readyQueue, Yields(n - 1));
      var p' := p.(readyQueue := WithScript(p.readyQueue, Yields(n - 1)));
      RoundRobinOrder(p', n - 1);
      assert WithScript(p'.readyQueue, []) == WithScript(p.readyQueue, []);
    }
  }

  /**
   * FIFO fairness from submission on: submit `k` tasks to a fresh pool of capacity `c`
   * (`k <= c`), each yielding `n` times; the main loop of `RunAll` finishes them in
   * submission order.
   */
  lemma FifoFromSubmission(c: nat, k: nat, n: nat)
    requires k <= c
    ensures SubmitAll(InitPool(c), seq(k, _ => Yields(n))).Ok?
    ensures Ids(RunLoop(SubmitAll(InitPool(c), seq(k, _ => Yields(n))).value).deleteQueue) == seq(k, i => i)
  {
    var scripts := seq(k, _ => Yields(n));
    FreshSubmission(c, scripts);
    var p := SubmitAll(InitPool(c), scripts).value;
    RoundRobinOrder(p, n);
    assert [] + WithScript(p.readyQueue, []) == WithScript(p.readyQueue, []);
    FinishedIds(p.readyQueue, scripts);
  }

  /**
   * Submitting at most `c` tasks to a fresh pool of capacity `c`: all are accepted, and they
   * alone stand in the ready queue, in submission order, with identities `0, 1, ...`.
   */
  lemma FreshSubmission(c: nat, scripts: seq<seq<Action>>)
    requires |scripts| <= c
    ensures SubmitAll(InitPool(c), scripts).Ok?
    ensures var p := SubmitAll(InitPool(c), scripts).value;
      p.waitList == [] && p.deleteQueue == [] && NewTasksAt(p.readyQueue, 0, 0, scripts)
  {
    SubmitAllAccepts(InitPool(c), scripts);
    SubmitAllQueue(InitPool(c), scripts);
  }

  /** The tasks of a fresh submission, once finished, carry the identities `0, 1, ...` in order. */
  lemma FinishedIds(q: seq<Task>, scripts: seq<seq<Action>>)
    requires NewTasksAt(q, 0, 0, scripts)
    ensures Ids(WithScript(q, [])) == seq(|scripts|, i => i)
  {
  }

  // ---------------------------------------------------------------------------------------
  // Sleep ordering

  /**
   * With nothing ready, the scheduler idles in quanta until the top of the wait list is due,
   * resuming nothing in between: only the clock moves.
   */
  lemma {:induction false} IdleUntilDue(p: Pool) returns (q: Pool)
    requires p.readyQueue == [] && p.waitList != []
    ensures q == p.(now := q.now) && q.now >= p.now && TopDue(q)
    ensures RunLoop(p) == RunLoop(q)
    decreases Gap(p)
  {
    if TopDue(p) {
      q := p;
    } else {
      var p' := Step(p);
      assert p' == p.(now := p.now + IdleQuantum);
      q := IdleUntilDue(p');
    }
  }

  /** A wait list of two entries: its top is the earlier one (the first on a tie). */
  lemma TwoEntries(ea: WaitEntry, eb: WaitEntry)
    ensures TopIndex([ea, eb]) == if ea.wakeUpTime > eb.wakeUpTime then 1 else 0
    ensures RemoveAt([ea, eb], 0) == [eb] && RemoveAt([ea, eb], 1) == [ea]
  {
    assert [ea, eb][1..] == [eb];
  }

  lemma SnocTwice(d: seq<Task>, a: Task, b: Task)
    ensures (d + [a]) + [b] == d + [a, b]
  {
  }

  /** With nothing ready, a due top entry whose body has no suspension left is woken and finishes. */
  lemma WakeFinished(q: Pool)
    requires q.readyQueue == [] && q.waitList != [] && TopDue(q)
    requires q.waitList[TopIndex(q.waitList)].task.script == []
    ensures !Done(q) && RunLoop(q) == RunLoop(Step(q))
    ensures var i := TopIndex(q.waitList);
      Step(q) == q.(waitList := RemoveAt(q.waitList, i), deleteQueue := q.deleteQueue + [q.waitList[i].task])
  {
    RunLoopStep(q);
  }

  /** A single task waiting in the wait list is woken, resumed and finishes at its time. */
  lemma LastSleeper(p: Pool, e: WaitEntry)
    requires p.readyQueue == [] && p.waitList == [e] && e.task.script == []
    ensures RunLoop(p).deleteQueue == p.deleteQueue + [e.task]
  {
    var q := IdleUntilDue(p);
    assert TopIndex(q.waitList) == 0;
    WakeFinished(q);
    assert RemoveAt([e], 0) == [];
  }

  /** Two finished sleepers are both woken and finish, the earlier wake-up time first. */
  lemma EarlierWakesFirst(q: Pool, ea: WaitEntry, eb: WaitEntry)
    requires q.readyQueue == [] && q.waitList == [ea, eb]
    requires ea.task.script == [] && eb.task.script == [] && ea.wakeUpTime > eb.wakeUpTime
    ensures RunLoop(q).deleteQueue == q.deleteQueue + [eb.task, ea.task]
  {
    var q1 := IdleUntilDue(q);
    TwoEntries(ea, eb);
    WakeFinished(q1);
    var q2 := Step(q1);
    assert q2.readyQueue == [] && q2.waitList == [ea] && q2.deleteQueue == q.deleteQueue + [eb.task];
    LastSleeper(q2, ea);
    SnocTwice(q.deleteQueue, eb.task, ea.task);
  }

  /** As `EarlierWakesFirst`, with the earlier sleeper first in the wait list. */
  lemma FirstWakesFirst(q: Pool, ea: WaitEntry, eb: WaitEntry)
    requires q.readyQueue == [] && q.waitList == [ea, eb]
    requires ea.task.script == [] && eb.task.script == [] && ea.wakeUpTime < eb.wakeUpTime
    ensures RunLoop(q).deleteQueue == q.deleteQueue + [ea.task, eb.task]
  {
    var q1 := IdleUntilDue(q);
    TwoEntries(ea, eb);
    WakeFinished(q1);
    var q2 := Step(q1);
    assert q2.readyQueue == [] && q2.waitList == [eb] && q2.deleteQueue == q.deleteQueue + [ea.task];
    LastSleeper(q2, eb);
    SnocTwice(q.deleteQueue, ea.task, eb.task);
  }

  /**
   * Sleep ordering: of two tasks that sleep `x` and `y` milliseconds (`0 < y < x`) and then
   * return, submitted in that order, the shorter sleeper finishes first.  This rests on the
   * model's clock, which stands still while a task runs: both wake-up times are taken from
   * the same reading.  `ElapsedSleepOrder` states the order when time passes in between.
   */
  lemma SleepOrder(p: Pool, a: Task, b: Task, x: UInt32, y: UInt32)
    requires p.waitList == [] && p.readyQueue == [a, b]
    requires a.script == [SleepAction(x)] && b.script == [SleepAction(y)]
    requires 0 < y < x
    ensures RunLoop(p).deleteQueue == p.deleteQueue + [b.(script := []), a.(script := [])]
  {
    var a', b' := a.(script := []), b.(script := []);
    var ea := WaitEntry(p.now + x * MicrosPerMilli, a');
    var eb := WaitEntry(p.now + y * MicrosPerMilli, b');
    FirstSleeper(p, x);
    var p1 := p.(readyQueue := [b], waitList := [ea]);
    SecondSleeper(p1, ea, y);
    EarlierWakesFirst(p.(readyQueue := [], waitList := [ea, eb]), ea, eb);
  }

  /** With nothing waiting, the front task sleeps `ms > 0` milliseconds and enters the wait list. */
  lemma FirstSleeper(p: Pool, ms: UInt32)
    requires p.waitList == [] && |p.readyQueue| == 2 && p.readyQueue[0].script == [SleepAction(ms)] && ms > 0
    ensures RunLoop(p) == RunLoop(p.(readyQueue := [p.readyQueue[1]],
      waitList := [WaitEntry(p.now + ms * MicrosPerMilli, p.readyQueue[0].(script := []))]))
  {
    var e := WaitEntry(p.now + ms * MicrosPerMilli, p.readyQueue[0].(script := []));
    RunLoopUnfold(p);
    SleepFront(p, ms);
    assert p.readyQueue[1..] == [p.readyQueue[1]] && p.waitList + [e] == [e];
  }

  /**
   * With one entry waiting, not yet due, the only ready task sleeps `ms > 0` milliseconds and
   * joins the wait list behind it.
   */
  lemma SecondSleeper(p: Pool, e: WaitEntry, ms: UInt32)
    requires |p.readyQueue| == 1 && p.readyQueue[0].script == [SleepAction(ms)] && ms > 0
    requires p.waitList == [e] && e.wakeUpTime > p.now
    ensures RunLoop(p) == RunLoop(p.(readyQueue := [],
      waitList := [e, WaitEntry(p.now + ms * MicrosPerMilli, p.readyQueue[0].(script := []))]))
  {
    var w := WaitEntry(p.now + ms * MicrosPerMilli, p.readyQueue[0].(script := []));
    assert ResumeFront(p) == p.(readyQueue := [], waitList := [e, w]) by {
      SleepFront(p, ms);
      assert p.readyQueue[1..] == [] && [e] + [w] == [e, w];
    }
    assert TopIndex([e]) == 0;
    StepNotDue(p);
    RunLoopStep(p);
  }

  /** The front task's last suspension is a `Sleep(ms)` with `ms > 0`: it moves to the wait list. */
  lemma SleepFront(p: Pool, ms: UInt32)
    requires p.readyQueue != [] && p.readyQueue[0].script == [SleepAction(ms)] && ms > 0
    ensures ResumeFront(p) == p.(readyQueue := p.readyQueue[1..],
      waitList := p.waitList + [WaitEntry(p.now + ms * MicrosPerMilli, p.readyQueue[0].(script := []))])
  {
    assert p.readyQueue[0].script[1..] == [];
  }

  /**
   * Two sleepers whose `Sleep` calls read the clock `d` microseconds apart: the later caller,
   * sleeping `y` ms, finishes before the earlier one, sleeping `x` ms, exactly when `d` is
   * less than the difference of their sleeps; when `d` exceeds it, the earlier caller is first.
   */
  lemma ElapsedSleepOrder(q: Pool, a: Task, b: Task, x: UInt32, y: UInt32, t0: int, d: nat)
    requires q.readyQueue == [] && a.script == [] && b.script == []
    requires q.waitList == [WaitEntry(t0 + x * MicrosPerMilli, a), WaitEntry(t0 + d + y * MicrosPerMilli, b)]
    ensures d < (x - y) * MicrosPerMilli ==> RunLoop(q).deleteQueue == q.deleteQueue + [b, a]
    ensures d > (x - y) * MicrosPerMilli ==> RunLoop(q).deleteQueue == q.deleteQueue + [a, b]
  {
    var ea, eb := q.waitList[0], q.waitList[1];
    if d < (x - y) * MicrosPerMilli {
      EarlierWakesFirst(q, ea, eb);
    } else if d > (x - y) * MicrosPerMilli {
      FirstWakesFirst(q, ea, eb);
    }
  }

  // ---------------------------------------------------------------------------------------
  // The task-side transitions

  /**
   * What each suspension point does to the queues: `Yield` re-enters the task at the back
   * of the ready queue, `Sleep(0)` does exactly the same, `Sleep(ms)` with `ms > 0` adds one
   * wait entry due `ms` milliseconds after `now`, and a finished body pushes the task onto
   * the delete queue once; nothing else changes.
   */
  lemma TaskTransitions(p: Pool, t: Task, rest: seq<Action>, ms: UInt32)
    ensures var y := Resume(p, t.(script := [YieldAction] + rest));
      y == p.(readyQueue := p.readyQueue + [t.(script := rest)])
    ensures Resume(p, t.(script := [SleepAction(0)] + rest)) == Resume(p, t.(script := [YieldAction] + rest))
    ensures ms > 0 ==>
      Resume(p, t.(script := [SleepAction(ms)] + rest)) ==
      p.(waitList := p.waitList + [WaitEntry(p.now + ms * MicrosPerMilli, t.(script := rest))])
    ensures Resume(p, t.(script := [])) == p.(deleteQueue := p.deleteQueue + [t.(script := [])])
  {
    assert ([YieldAction] + rest)[1..] == rest;
    assert ([SleepAction(0)] + rest)[1..] == rest;
    assert ([SleepAction(ms)] + rest)[1..] == rest;
  }

  /** When the scheduler idles, only the clock moves: nothing is resumed or queued. */
  lemma IdleResumesNothing(p: Pool)
    requires p.readyQueue == [] && p.waitList != [] && !TopDue(p)
    ensures Step(p) == p.(now := p.now + IdleQuantum)
    ensures Step(p).now > p.now && Gap(Step(p)) < Gap(p)
  {
  }
}

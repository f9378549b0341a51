# coroutine-lab, modelled in Dafny

coroutine-lab is a single-threaded cooperative coroutine pool for x86-64 (`coroutine_pool.h`)
and a benchmark that uses it to hide memory latency in a branchless binary search
(`test.cpp`). This project models the two sequential cores and proves their properties.

**The pool (`Coroutine::CoroutinePool`).** It manages five parts:

- a LIFO pool of free stacks;
- a live-task counter `size`, bounded by `capacity`;
- a FIFO ready queue;
- a wait list, which is a `std::priority_queue` whose `operator<` is inverted so that its top is the earliest wake-up time;
- a LIFO delete queue.

`New` refuses a task when the pool is full. Otherwise it gives the task the top free stack and appends it to the ready queue. `RunAll` first runs a main loop:

- wake the top wait entry if it is due;
- if nothing is ready, sleep 500 µs;
- stop when both the wait list and the ready queue are empty;
- otherwise resume the front task.

It then runs a drain loop that uncounts every finished task and returns its stack. On the task side, `Yield` re-enters the ready queue, and `Sleep(ms)` enters the wait list (`Sleep(0)` is a `Yield`). A body that returns pushes its task onto the delete queue.

**The search (`lookup`, `lookup_coroutine`).** A window `[low, low + size)` is halved until one entry is left. The coroutine version calls `Yield` before each probe of a window of at least 1024 entries. The benchmark does the following:

- fills a table with `data[i] = i`;
- runs the plain search once per key;
- runs the coroutine search as `batch` tasks at a time in a pool of capacity `batch`;
- checks the two result arrays agree.

**Files**

- `scheduler.dfy`, module `Scheduler`: the pool's fields as a value `Pool`, and every operation as a function on it. Also the invariant `Inv` and its lemmas: conservation of stacks, termination of the main loop, and the post-state of `RunAll`.
- `coroutine_pool.dfy`, module `Coroutine`: the class `CoroutinePool`, whose fields are the pool's parts. Its methods update them in place, and each method is proved to move `Snapshot()` exactly as its partner function in `Scheduler` does: `New` and `Admit` as `Submit`, `RunOnce` as `Step`, `ReleaseFinished` as `Drain`, `PushCoroutineToReadyQueue`, `PushCoroutineToWaitList` and `PushCoroutineToDeleteQueue` as `PushReady`, `PushWait` and `PushDelete`, the constructor as `InitPool`, and `RunAll`, `Resume`, `Yield`, `Sleep` and `CoroutineMain` as the `Scheduler` functions of the same name.
- `scheduler_properties.dfy`, module `SchedulerProperties`: properties of whole runs. They cover how many submissions are accepted, the round-robin order of yielding tasks, the FIFO order from submission on, the order of sleeping tasks, and the exact effect of each suspension point.
- `task_stack.dfy`, module `TaskStack`: the initial stack pointer written by the task constructor, with `&` on 64-bit values defined bit by bit.
- `lookup.dfy`, module `Lookup`: both searches as loops over an `array`. They are proved against a mirror function `Search` and against the reference `LastLeq`, the last entry at most the key.
- `benchmark.dfy`, module `Benchmark`: the table set-up, `naive`, `coroutine_batched` and the comparison in `main`.

**Abstractions**

- **Tasks.** A task is its identity, its stack and a *script*: the `Yield`/`Sleep(ms)` calls its body still makes. Resuming a task runs it to its next suspension point and performs that point's push. The identity is a counter standing for the address `new` returns. The counter never repeats, whereas `new` may hand a later batch an address freed by an earlier drain (see "## Left out"); no property proved here compares identities across a drain.
- **The clock.** It counts microseconds. `Sleep(ms)` wakes at `now + 1000·ms`, and the idle branch advances the clock by 500.
- **The wait list.** It is kept as an unordered sequence, and its top is an entry with the least wake-up time.
- **The batch benchmark.** Each key's `lookup_coroutine` runs at submission. It yields a result and the list of suspensions the task makes, and that list becomes the task's script.

## Model

| member | source | states |
|---|---|---|
| TaskStack.BitAnd | coroutine_pool.h:51 | `&` on unsigned values keeps only bits set in both operands, so the result is at most either operand |
| TaskStack.MaskLowBits | coroutine_pool.h:51 | `x & ~0x0F` on a 64-bit value is `x` rounded down to a multiple of 16 |
| TaskStack.InitialRsp | coroutine_pool.h:51 | the initial RSP is a multiple of 16, at most `stack + stackSize`, and more than `stack + stackSize - 16` |
| TaskStack.PoolStackRsp | coroutine_pool.h:51 | for a stack aligned to `1 << 16` and `DefaultStackSize` long, the initial RSP is exactly the end of the stack |
| Scheduler.WaitBefore | coroutine_pool.h:122 | `operator<` is inverted: an entry is below another when it wakes later, and entries with equal wake-up times are never ordered |
| Scheduler.WaitBeforeStrictWeak | coroutine_pool.h:122 | `operator<` is a strict weak ordering, as `std::priority_queue` requires: irreflexive, transitive, and entries with equal wake-up times are interchangeable |
| Scheduler.TopIndex | coroutine_pool.h:122 | the position returned is in range and no entry is `operator<`-above it |
| Scheduler.TopIsEarliest | coroutine_pool.h:122 | because `operator<` is inverted, the top of the wait list has the least wake-up time |
| Scheduler.RemoveAt | coroutine_pool.h:178 | `waitList.pop()` removes exactly one entry, the top: the list is one shorter and loses exactly that entry |
| Scheduler.InitPool | coroutine_pool.h:134-141 | after construction all `capacity` stacks are free, `size == 0`, all queues are empty, and the invariant holds |
| Scheduler.StackHeldOnce | coroutine_pool.h:134-141 | under the invariant no stack is held twice, and the stacks held are exactly those the constructor allocated |
| Scheduler.Conservation | coroutine_pool.h:136-159 | under the invariant, free stacks plus counted tasks equal the capacity, and `0 <= size <= capacity` |
| Scheduler.Submit | coroutine_pool.h:146-160 | `New` fails with `PoolIsFull` exactly when no stack is free. When it succeeds, the free stacks lose exactly the stack of the new last task of the ready queue, the held stacks gain it, one more task is live and counted, and the capacity is unchanged |
| Scheduler.SubmitFull | coroutine_pool.h:148-151 | `New` fails exactly when `size == capacity`, which is exactly when no stack is free |
| Scheduler.SubmitOk | coroutine_pool.h:153-159 | an accepted `New` pops the top stack and appends a task owning it to the back of the ready queue. It adds 1 to `size`, changes nothing else, runs nothing, and keeps the invariant |
| Scheduler.PushReady | coroutine_pool.h:209-212 | the task becomes the last of the ready queue, and one more task is queued |
| Scheduler.PushWait | coroutine_pool.h:214-217 | the last wait entry is the task, due `ms · 1000` µs after the clock reading, and one more task is queued |
| Scheduler.PushDelete | coroutine_pool.h:219-222 | the task becomes the top of the delete queue, and one more task is queued |
| Scheduler.CoroutineMain | coroutine_pool.h:225-230 | a finished body adds its task once to the delete queue and leaves the ready queue and the wait list alone |
| Scheduler.Yield | coroutine_pool.h:234-241 | the task is appended once to the ready queue; the wait list and the delete queue are unchanged |
| Scheduler.Sleep | coroutine_pool.h:243-256 | `Sleep(0)` is exactly `Yield`. `Sleep(ms > 0)` leaves the ready queue alone and appends one wait entry for the task, due strictly after the clock reading |
| Scheduler.Resume | coroutine_pool.h:196 | a resume puts the task into exactly one queue and changes neither the stacks, the counter, the capacity, the identity counter nor the clock |
| Scheduler.ResumeStacks | coroutine_pool.h:196 | the stacks held by queued tasks gain exactly the resumed task's stack |
| Scheduler.ResumeWaitGrows | coroutine_pool.h:196 | a resume never removes a wait entry |
| Scheduler.Done | coroutine_pool.h:188-191 | when the loop breaks, every queued task sits in the delete queue |
| Scheduler.TopDue | coroutine_pool.h:173-175 | the top entry is due exactly when some entry of the wait list is due |
| Scheduler.Idle | coroutine_pool.h:181-185 | the loop idles only when it does not break and no entry of the wait list is due |
| Scheduler.Wake | coroutine_pool.h:171-180 | when the top entry is due it moves from the wait list to the back of the ready queue; when the wait list is empty or its top is not due, nothing changes. If the loop neither breaks nor idles, the ready queue is then non-empty |
| Scheduler.ResumeFront | coroutine_pool.h:193-196 | popping and resuming the front keeps the number of queued tasks, the stacks, the counter, the capacity and the clock |
| Scheduler.Step | coroutine_pool.h:169-197 | an iteration that does not break moves no stack, keeps the counter, capacity and identity counter, and never turns the clock back |
| Scheduler.StepDue | coroutine_pool.h:173-178 | a due top entry is removed from the wait list and appended to the ready queue, and then the front is resumed |
| Scheduler.StepNotDue | coroutine_pool.h:175-196 | with the top entry not due and a task ready, nothing is woken and the front is resumed |
| Scheduler.LeavesOnlyWhenDue | coroutine_pool.h:173-178 | whatever an iteration removes from the wait list was due at the clock reading |
| Scheduler.StepDecreases | coroutine_pool.h:169-197 | every iteration that does not break lowers the remaining work, or keeps it while shortening the wait for the top entry |
| Scheduler.RunLoop | coroutine_pool.h:169-197 | the main loop ends only with both the wait list and the ready queue empty. Stacks, counter and capacity are unchanged, and the clock has not gone back |
| Scheduler.WakeInv | coroutine_pool.h:173-178 | moving a due entry to the ready queue keeps the invariant |
| Scheduler.ResumeFrontInv | coroutine_pool.h:193-196 | popping the front and resuming it keeps the invariant |
| Scheduler.StepInv | coroutine_pool.h:169-197 | every loop iteration keeps the invariant |
| Scheduler.RunLoopInv | coroutine_pool.h:169-197 | the whole main loop keeps the invariant |
| Scheduler.PopOrderStacks | coroutine_pool.h:199-206 | entry `i` is the stack of the `i`-th task from the top of the delete queue |
| Scheduler.Drain | coroutine_pool.h:199-206 | the drain empties the delete queue, lowers `size` by the number of tasks it held, pushes their stacks in pop order, and changes nothing else |
| Scheduler.DrainStacks | coroutine_pool.h:199-206 | the stacks the drain pushes are exactly those of the finished tasks |
| Scheduler.RunAll | coroutine_pool.h:167-207 | `RunAll` returns with the ready queue, the wait list and the delete queue empty, the capacity unchanged and the clock not turned back |
| Scheduler.DrainEmpties | coroutine_pool.h:199-206 | after the main loop, the drain leaves every queue empty, `size == 0` and every allocated stack free |
| Scheduler.RunAllEmpties | coroutine_pool.h:167-207 | after `RunAll` the ready queue, wait list and delete queue are empty, `size == 0`, and exactly the `capacity` stacks the constructor allocated are free, each once |
| SchedulerProperties.SubmitAll | coroutine_pool.h:146-160 | a run of accepted `New` calls keeps the free stacks and the counter adding up to the capacity |
| SchedulerProperties.SubmitAllAccepts | coroutine_pool.h:148-151 | a run of submissions is accepted exactly when it fits in the free capacity |
| SchedulerProperties.SubmitAllInv | coroutine_pool.h:146-160 | a run of accepted submissions keeps the invariant |
| SchedulerProperties.SubmitAllQueue | coroutine_pool.h:153-159 | the new tasks stand at the back of the ready queue in submission order, with consecutive identities and their own scripts. The rest of the pool is unchanged apart from the counter |
| SchedulerProperties.FreshSubmission | coroutine_pool.h:146-160 | at most `capacity` submissions to a fresh pool are all accepted, and the new tasks alone stand in the ready queue, in submission order, with identities `0, 1, ...` |
| SchedulerProperties.FinishAll | coroutine_pool.h:193-196 | tasks whose bodies have returned finish in ready-queue order |
| SchedulerProperties.Round | coroutine_pool.h:193-196 | in one round each yielding task at the front re-enters at the back, in the same order |
| SchedulerProperties.RoundRobinOrder | coroutine_pool.h:193-212 | tasks that each yield `n` times finish in exactly their ready-queue order |
| SchedulerProperties.FifoFromSubmission | coroutine_pool.h:146-212 | `k <= capacity` tasks submitted to a fresh pool, each yielding `n` times, are all accepted and finish in submission order |
| SchedulerProperties.IdleUntilDue | coroutine_pool.h:171-186 | with nothing ready, the loop idles until the top entry is due, changing only the clock |
| SchedulerProperties.IdleResumesNothing | coroutine_pool.h:181-185 | an idle iteration only advances the clock, and it shortens the wait for the top entry |
| SchedulerProperties.LastSleeper | coroutine_pool.h:171-196 | a single waiting task is woken when due and finishes |
| SchedulerProperties.EarlierWakesFirst | coroutine_pool.h:171-196 | of two finished sleepers, the one with the later wake-up time listed first, the earlier wake-up time finishes first |
| SchedulerProperties.FirstWakesFirst | coroutine_pool.h:171-196 | of two finished sleepers, the one with the earlier wake-up time listed first, the earlier wake-up time finishes first |
| SchedulerProperties.SleepOrder | coroutine_pool.h:214-217 | of two tasks sleeping `x > y > 0` ms, the shorter sleeper finishes first. This rests on the model's clock standing still while a task runs, so both wake-up times come from one reading |
| SchedulerProperties.FirstSleeper | coroutine_pool.h:243-256 | with nothing waiting, the front task sleeping `ms > 0` ms enters the wait list due `ms` milliseconds later and the next task becomes the front |
| SchedulerProperties.SecondSleeper | coroutine_pool.h:175-196 | with one entry waiting that is not yet due, the only ready task sleeping `ms > 0` ms joins the wait list behind it |
| SchedulerProperties.ElapsedSleepOrder | coroutine_pool.h:214-217 | with the two `Sleep` calls reading the clock `d` µs apart, the later caller, sleeping `y` ms, finishes first when `d < (x - y) · 1000`, and the earlier caller finishes first when `d > (x - y) · 1000` |
| SchedulerProperties.TaskTransitions | coroutine_pool.h:225-256 | `Yield` re-enters the back of the ready queue, `Sleep(0)` equals `Yield`, `Sleep(ms > 0)` adds one entry due `ms` milliseconds after `now`, and a finished body is pushed once onto the delete queue |
| Coroutine.CoroutinePool.constructor | coroutine_pool.h:134-141 | the loop allocates `capacity` stacks; the state is `InitPool(capacity)` and valid |
| Coroutine.CoroutinePool.New | coroutine_pool.h:146-160 | returns `Err(PoolIsFull)`, changing nothing, exactly when `size == capacity`; otherwise moves the fields as `Submit` does; keeps the invariant |
| Coroutine.CoroutinePool.Admit | coroutine_pool.h:153-159 | the accepting branch of `New` moves the fields as `Submit` does |
| Coroutine.CoroutinePool.RunAll | coroutine_pool.h:167-207 | the two loops move the fields as `Scheduler.RunAll` does. Afterwards all queues are empty, `size == 0`, every stack is free, and the invariant holds |
| Coroutine.CoroutinePool.RunOnce | coroutine_pool.h:171-196 | one iteration breaks exactly when both the wait list and the ready queue are empty; otherwise it moves the fields as `Step` does |
| Coroutine.CoroutinePool.ReleaseFinished | coroutine_pool.h:199-206 | the drain loop moves the fields as `Drain` does |
| Coroutine.CoroutinePool.Resume | coroutine_pool.h:196 | resuming a task moves the fields as `Scheduler.Resume` does |
| Coroutine.CoroutinePool.PushCoroutineToReadyQueue | coroutine_pool.h:209-212 | appends the task to the ready queue and changes nothing else |
| Coroutine.CoroutinePool.PushCoroutineToWaitList | coroutine_pool.h:214-217 | appends one entry waking `ms` milliseconds after the clock reading, and changes nothing else |
| Coroutine.CoroutinePool.PushCoroutineToDeleteQueue | coroutine_pool.h:219-222 | appends the task to the delete queue and changes nothing else |
| Coroutine.CoroutinePool.CoroutineMain | coroutine_pool.h:225-230 | a finished body pushes its task onto the delete queue |
| Coroutine.CoroutinePool.Yield | coroutine_pool.h:234-241 | the task re-enters the back of the ready queue |
| Coroutine.CoroutinePool.Sleep | coroutine_pool.h:243-256 | `Sleep(0)` is `Yield`; otherwise the task enters the wait list |
| Lookup.ToUInt32 | test.cpp:33 | storing the index through a `uint32_t *` never increases it, and keeps every index below `2^32` as it is |
| Lookup.NextLow | test.cpp:42-49 | one iteration leaves `low` as it was or moves it to the probe |
| Lookup.Search | test.cpp:39-51 | the loop's final `low` lies inside the starting window, and equals its start when the window has at most one entry |
| Lookup.LastLeq | test.cpp:39-51 | the reference result is 0 or an index with entry at most the key, and every later entry is greater |
| Lookup.LastLeqUnique | test.cpp:39-51 | any index with those two properties is `LastLeq` |
| Lookup.Probe | test.cpp:42-48 | the halved window lies inside the old one, the loop's final `low` is unchanged, and on a sorted table the halved window still brackets the answer |
| Lookup.StepKeepsBracket | test.cpp:40-50 | on a sorted table, one iteration keeps the window bracketing the answer: `low` is 0 or at most the key, and everything after the window is greater |
| Lookup.BracketEnd | test.cpp:40-51 | when the loop stops, the bracket pins `low` to `LastLeq` |
| Lookup.Lookup | test.cpp:36-52 | `lookup` terminates with every probe in bounds. Its result is the `Search` value truncated to 32 bits: 0 for tables of at most one entry and below `n` for every `n > 0`. On a sorted table of at most `2^32` entries it is the last index whose entry is at most the key, or 0 when no entry is at most the key; larger tables are excluded only because the store at test.cpp:51 truncates the index to 32 bits |
| Lookup.YieldCount | test.cpp:20-24 | no probe suspends exactly when the table has fewer than 1024 entries. Each step keeps at least half of the window, so there are enough suspensions: `size < 1024 · 2^c` |
| Lookup.LookupCoroutine | test.cpp:9-34 | `lookup_coroutine` returns exactly what `lookup` returns, with the same bounds, and suspends with one `Yield` per probe of a window of at least 1024 entries and no other |
| Lookup.YieldCountPow2 | test.cpp:20-24 | on a table of `2^k` entries a lookup yields `k - 9` times, and none below 1024 entries |
| Lookup.IdentityLookup | test.cpp:159-162 | a table with entry `i` equal to `i` is sorted, and the result for a key below `n` is the key |
| Benchmark.InitialiseTable | test.cpp:157-162 | the table has `n` entries and entry `i` is `i` truncated to 32 bits |
| Benchmark.Naive | test.cpp:54-81 | entry `i` of the result is `lookup` of `keys[i]` |
| Benchmark.CoroutineBatched | test.cpp:83-119 | entry `i` of the result is `lookup` of `keys[i]`. The tasks are submitted `batch` at a time and each batch is run by `RunAll`; in the model each task's result is written when the task is submitted |
| Benchmark.RunBatch | test.cpp:101-110 | into an empty pool, every `New` of a batch is accepted, `RunAll` empties the pool again, and the batch's results are written without touching earlier ones |
| Benchmark.SubmitLookup | test.cpp:103-107 | `New` of one lookup task into a pool with room is accepted and counted |
| Benchmark.RunBenchmark | test.cpp:157-172 | the plain and coroutine results agree entry by entry, as `main` asserts. On a table of at most `2^32` entries every result is the key itself |

## Left out

- Context switching (`CoroutineSwitch`, `CoroutineEntry`, `CoroutineGetTask`) is an external assembly routine. The saved registers other than RSP are left out too (RIP, R12 and R13 are set from function and object addresses). Resuming a task is modelled as running it to its next suspension point.
- `std::aligned_alloc`, `delete` and the destructor are memory management. Stacks and tasks are identities, so a task is a value and no two references to one task object are modelled.
- Task identities come from a counter that never repeats. The source's `new` (coroutine_pool.h:156) may return an address that the drain of an earlier batch freed (coroutine_pool.h:205); the model does not capture that reuse.
- The real clock (`system_clock::now()`, `usleep`) is not modelled. The clock moves only in the idle branch, by 500 µs. Time spent while tasks run is not modelled, so no task becomes due during a resume.
- SchedulerProperties.SleepOrder: the order it proves depends on the clock standing still while a task runs. `SchedulerProperties.ElapsedSleepOrder` states the order when the two `Sleep` calls read the clock `d` µs apart.
- Templates, `std::apply` and the virtual `Run` are not modelled: a task body is its script of suspension points.
- Tie-breaking between equal wake-up times in `std::priority_queue` is up to the library. The model picks the first such entry in its sequence. No property proved here depends on that choice; the helper `SchedulerProperties.TwoEntries` states it but is used only with distinct wake-up times.
- `capacity` and `size` are `int` in the source. The model uses a `nat` capacity and an unbounded `size`; overflow cannot happen because `size` never exceeds `capacity`.
- A negative `capacity` is accepted by the source's constructor: it allocates no stack, and the first `stackPool.top()` in `New` is then undefined behaviour, since `size == capacity` never holds. The `nat` capacity of the model excludes that case.
- Benchmark.CoroutineBatched: the write `*result = low` happens when the task finishes, inside `RunAll`. The model writes it at submission instead. This is equivalent because each task writes its own slot and the table is only read.
- Benchmark.RunBenchmark: `getopt`/`sscanf` parsing, timing and `printf` reporting, and the keys drawn from `std::minstd_rand` are left out. The keys are a parameter, so no particular key sequence is modelled.
- Benchmark.RunBenchmark: `naive` and `coroutine_batched` take `n` as an `int`, which would narrow a table of `2^31` entries or more. The model passes `n` unnarrowed.
- Benchmark.CoroutineBatched: `assert(m % batch == 0)` at test.cpp:98 aborts the program when the key count is not a multiple of the batch size. The model's `requires batch > 0 && |keys| % batch == 0` (also on `Benchmark.RunBenchmark`) excludes that path, and with it `m % 0`; the abort is not modelled.
- `__builtin_prefetch` has no effect on results, so it is not modelled.

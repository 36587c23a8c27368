# A verified model of the mokyu task scheduler and its parallel sorter

The repository is a small task scheduler for games (`net.mokyu.threading`)
plus a sample application that uses it to sort arrays in parallel
(`pro.sort`). This project models its sequential core in Dafny and proves
properties of that model.

**Tasks** (`tasks.dfy`, module `Tasks`)
- A task has an id, a priority, the ids of the tasks it requires, a
  successor list and an unlock counter.
- A `BasicTask` (a `DrawTask` is one) goes into the queue once and is always
  complete.
- A `SplitTask` goes into the queue once per subtask (K times). Each run
  claims the next shard index, and only the K-th `complete()` reports the task
  complete. That call resets both shard counters.
- The three Java classes become one class `Task` whose constant `kind` says
  which class a task belongs to.
- The queue (`java.util.PriorityQueue<Task>`) is the class `TaskQueue`.

**Builder** (`builder.dfy`, module `TaskTreeBuilding`; `tree_builder.dfy`,
module `TreeBuilder`)
- `TaskTreeBuilder` registers tasks by id and compiles them into a
  `TaskTree` in two passes.
- The first pass resolves every required id into an entry in the
  successor list of the required task. It fails on a missing id, or when no
  task is a root.
- The second pass fixes every fan-in (`neededUnlocks`) and sorts every
  successor list by priority.
- `build()` then returns the roots, sorted by priority, with the task count,
  and clears the builder.
- The Java `HashMap`'s iteration order is unspecified. The builder keeps it
  as the sequence `keyOrder`, and `build()`'s contract (`BuildSpec`) is stated
  against that sequence.

**Executor** (`schedule.dfy`, module `Schedule`; `executor.dfy`, module
`SingleThreading`)
- `SingleThreadExecutor.run(tree)`:
  1. queues the roots;
  2. drains the queue, highest priority first;
  3. runs each polled entry and asks whether its task is complete;
  4. when it is complete, finishes it and unlocks its successors;
  5. queues each successor whose unlock fires.
- `Schedule` describes one iteration of this loop as a function on a state
  (queue, counters, trace of callbacks). It proves an invariant of the loop
  and what the invariant means once the queue is empty.
- The class `SingleThreadExecutor` runs the loop on the heap, and each of its
  methods is proved to mirror one of those functions.

**From build to run** (`compile.dfy`, module `Compilation`)
- The graph read off a built tree (each task's successor list and fan-in as
  `build()` leaves them) is one `run()` accepts, provided the lists started
  empty.

**Sorts** (`sorting.dfy`, `insertion.dfy`, `bubble.dfy`,
`parallel_sorter.dfy`)
- `InsertionMethod.sort` is an in-place insertion sort with a skip prefix
  that is taken to be sorted already.
- `BubbleMethod.sort` is a nested swap loop. As written it is not a sort, and
  the model states only what it does guarantee.
- `ParallelSorter` splits `array[start, end)` into chunks and sorts each
  chunk. It then finds the runs of chunks whose value ranges overlap and sorts
  a window around each run, using the skip prefix.
- The executor call in `ParallelSorter.sort` is replaced by the sequential
  order that its own comment spells out.
- A `Comparator<T>` is modelled by a key function `key: T -> int`:
  `compare(x, y) < 0` exactly when `key(x) < key(y)`.

What is proved, in short:
- **Task counters.** `unlock()` fires exactly once per round of fan-in calls
  and resets. A split task's K polls claim shards 0..K-1 and complete once, on
  the last poll.
- **Builder.** `build()` fails exactly on an empty table, a missing id or a
  table with no roots, and its result is described outright. Each occurrence
  of an id in a task's required ids adds exactly one entry for that task to
  that id's list.
- **Executor, on every tree:**
  - a task runs only after every task it requires has finished;
  - `finish()` comes only right after a task's last shard, and at most once
    per task;
  - the loop terminates;
  - every poll takes an entry of highest priority among those queued;
  - a task in a requirement loop never runs, and its unlock counter holds
    exactly the unlocks it received.
- **Executor, on a tree without requirement loops:** every task finishes with
  all its shards run, and every counter is back at 0, so the tree can be run
  again. The contract states this for a graph whose task list is in an order
  where every successor follows the task listing it (`Topological`). The
  graph is a ghost argument that nothing else constrains in its order, and
  every tree without requirement loops has such an order, so the clause
  covers every such tree.
- **Insertion sort.** It sorts (given a sorted skip prefix), permutes
  `[start, end)`, leaves every other cell alone, and is stable.
- **Bubble method.** It permutes the array, and an input exists that it leaves
  unsorted.
- **Parallel sorter.**
  - The chunk bounds tile the range for any start <= end, with no empty
    chunk once there are at least as many elements as chunks.
  - Every sorted chunk records its first and last element.
  - The overlap slots are well formed, and every two chunks outside a common
    overlap are ordered.
  - The overlap window lies where the comments say.
  - The whole sort permutes the array.

## Model

| member | source | states |
|---|---|---|
| `Tasks.Task.Basic` | src/net/mokyu/threading/BasicTask.java:46-48 | a new basic task has the given id and priority, no required ids, no successors, all counters 0, and one queue entry per addToQueue |
| `Tasks.Task.Draw` | src/net/mokyu/threading/DrawTask.java:47-49 | the same as a basic task, with kind DrawTask |
| `Tasks.Task.Split` | src/net/mokyu/threading/SplitTask.java:72-80 | for at least one subtask: id, priority and subtasks stored; nothing required, no successors, unlock and shard counters 0; one queue entry per subtask |
| `Tasks.Task.NewSplitTask` | src/net/mokyu/threading/SplitTask.java:72-80 | rejected with SubtasksBelowOne exactly when subtasks < 1; otherwise a fresh split task in its initial state |
| `Tasks.Task.AddRequiredTask` | src/net/mokyu/threading/Task.java:75-77 | appends exactly task.id to the required ids, the same effect as the int overload; nothing else changes |
| `Tasks.Task.AddRequiredID` | src/net/mokyu/threading/Task.java:86-88 | appends exactly one id to the required ids; nothing else changes |
| `Tasks.Task.AddUnlockedTask` | src/net/mokyu/threading/Task.java:97-99 | appends exactly one successor; id, priority and counters unchanged |
| `Tasks.Task.Update` | src/net/mokyu/threading/Task.java:101-103 | afterwards neededUnlocks == \|requiredIDs\| |
| `Tasks.Task.Unlock` | src/net/mokyu/threading/Task.java:105-113 | true exactly when the incremented counter reaches the fan-in; then the counter is 0, otherwise it is the incremented value |
| `Tasks.UnlockRoundFrom` | src/net/mokyu/threading/Task.java:105-113 | from any counter c below the fan-in n, the next n - c unlocks return false, ..., false, true and leave the counter at 0 |
| `Tasks.UnlockRound` | src/net/mokyu/threading/Task.java:105-113 | from counter 0 with fan-in n >= 1, n unlocks return false n - 1 times, then true, and the counter is 0 again |
| `Tasks.Task.AddToQueue` | src/net/mokyu/threading/SplitTask.java:83-87 | appends exactly `subtasks` references to the task for a split task, and exactly one for a basic or draw task (BasicTask.java:51-53); nothing else is added |
| `Tasks.Task.Run` | src/net/mokyu/threading/SplitTask.java:94-96 | a split task passes its startCount to runSubtask as the shard index and increments it; a basic task changes nothing |
| `Tasks.RunShardsAreConsecutive` | src/net/mokyu/threading/SplitTask.java:94-96 | m run() calls from startCount s hand out exactly s, s+1, ..., s+m-1 |
| `Tasks.RunClaimsEveryShard` | src/net/mokyu/threading/SplitTask.java:94-96 | K run() calls from a reset task hand out 0..K-1, each once, and every shard below K is among them |
| `Tasks.Task.Complete` | src/net/mokyu/threading/SplitTask.java:106-114 | a basic or draw task is always complete and changes nothing (BasicTask.java:56-58); a split task counts one completion and reports true exactly on the subtasks-th, resetting both counters |
| `Tasks.CompleteRoundFrom` | src/net/mokyu/threading/SplitTask.java:106-114 | from endCount e below K, the remaining K - e complete() calls return false, ..., false, true and leave both counters at 0 |
| `Tasks.CompleteRound` | src/net/mokyu/threading/SplitTask.java:106-114 | of K complete() calls from endCount 0 only the K-th returns true, and both counters end at 0 |
| `Tasks.ShardCycleFrom` | src/net/mokyu/threading/SplitTask.java:94-114 | alternating run() and complete() from shard i: shards i..K-1 are claimed in order, only the last poll completes, and both counters end at 0 |
| `Tasks.SplitTaskCycle` | src/net/mokyu/threading/SplitTask.java:94-114 | a full cycle of K polls from the reset state claims 0..K-1, completes once at the end, and restores the initial counters |
| `Tasks.Task.SetSubtasks` | src/net/mokyu/threading/SplitTask.java:123-128 | rejected exactly when count < 1, leaving subtasks unchanged; otherwise getSubtasks() returns count; the shard counters are never touched |
| `Tasks.Task.GetSubtasks` | src/net/mokyu/threading/SplitTask.java:134-136 | the subtask count, at least one, and the number of queue entries the task makes |
| `Tasks.Task.CompareTo` | src/net/mokyu/threading/Task.java:146-148 | negative exactly when this task has the higher priority, positive exactly when it has the lower one |
| `Tasks.ComparePriorities` | src/net/mokyu/threading/Task.java:146-148 | the evidently intended comparison: negative iff this priority is higher, positive iff it is lower, for all integers |
| `Tasks.Wrap32` | src/net/mokyu/threading/Task.java:147 | Java's int subtraction result: always in the 32-bit range |
| `Tasks.CompareToAsWrittenOverflows` | src/net/mokyu/threading/Task.java:146-148 | as written, priority 1 compared with priority -2^31 gives a positive result, while the corrected comparison gives a negative one, since 1 is the higher priority |
| `Tasks.CompareToAsWrittenAgreesWithoutOverflow` | src/net/mokyu/threading/Task.java:146-148 | when the difference fits in 32 bits, the written compareTo has the sign of the intended comparison |
| `Tasks.TaskQueue.Add` | src/net/mokyu/threading/BasicTask.java:52 | queue.add appends exactly one entry |
| `Tasks.TaskQueue.Poll` | src/net/mokyu/threading/SingleThreadExecutor.java:63 | null exactly on an empty queue; otherwise removes one entry of maximal priority and leaves the other entries |
| `Tasks.Range` | src/net/mokyu/threading/SplitTask.java:94-96 | the shard indices lo..hi-1, in order |
| `TreeBuilder.TaskTreeBuilder.constructor` | src/net/mokyu/threading/TaskTreeBuilder.java:55-57 | an empty table |
| `TreeBuilder.TaskTreeBuilder.GetNumTasks` | src/net/mokyu/threading/TaskTreeBuilder.java:77-79 | the table size: 0 exactly for the empty table |
| `TreeBuilder.TaskTreeBuilder.AddTask` | src/net/mokyu/threading/TaskTreeBuilder.java:66-70 | the task is put under its id, replacing any earlier one; a collision is reported exactly when the id was present; the count grows by one exactly when it was not |
| `TreeBuilder.TaskTreeBuilder.Build` | src/net/mokyu/threading/TaskTreeBuilder.java:100-143 | BuildSpec of the table before the call; the builder is cleared exactly when a tree is built and untouched on every other path |
| `TreeBuilder.TaskTreeBuilder.Clear` | src/net/mokyu/threading/TaskTreeBuilder.java:139 | the table is empty |
| `TreeBuilder.BuildTable` | src/net/mokyu/threading/TaskTreeBuilder.java:101-142 | build() over a table and its iteration order: the result, the successor lists and the fan-ins afterwards satisfy BuildSpec (no tree exactly for the empty table; MissingTask exactly when an id does not resolve; NoRunnableTasks exactly when there is no root; otherwise the sorted roots with the task count, every list its old entries plus the first pass's, sorted, every fan-in the number of required ids) |
| `TreeBuilder.Complete` | src/net/mokyu/threading/TaskTreeBuilder.java:131-142 | after a successful first pass: the builder is cleared, and the result is the tree BuildSpec requires |
| `TaskTreeBuilding.Link` | src/net/mokyu/threading/TaskTreeBuilder.java:108-125 | the first pass visits a prefix of the iteration order; when it finishes, every id resolved, the roots are RootsIn and every list is Linked; when it stops, it stopped at the first missing id, with the lists as far as it got |
| `TaskTreeBuilding.Visit` | src/net/mokyu/threading/TaskTreeBuilder.java:111-124 | one task of the first pass: a task with no required ids becomes a root; its required ids are resolved in order, and all are linked unless one is missing |
| `TaskTreeBuilding.LinkOne` | src/net/mokyu/threading/TaskTreeBuilder.java:118-124 | stops at the first required id not in the table, reporting it; the ids before it each got one entry for the task, and nothing else changed |
| `TaskTreeBuilding.Append` | src/net/mokyu/threading/TaskTreeBuilder.java:123 | addUnlockedTask on the task under id: that one list grows by the task, every other list unchanged |
| `TaskTreeBuilding.Finalize` | src/net/mokyu/threading/TaskTreeBuilder.java:131-136 | every task's fan-in is the number of its required ids, and every successor list is its old contents sorted by priority |
| `TaskTreeBuilding.PrioritySortedSpec` | src/net/mokyu/threading/TaskTreeBuilder.java:135 | Collections.sort by compareTo: the same entries, non-increasing priority, equal priorities in their old order |
| `TaskTreeBuilding.RequestersCount` | src/net/mokyu/threading/TaskTreeBuilder.java:118-124 | the first pass adds task u to the list of id exactly once per occurrence of id in u's required ids |
| `TaskTreeBuilding.RootsInSpec` | src/net/mokyu/threading/TaskTreeBuilder.java:114-116 | the roots are exactly the tasks with no required ids, each once |
| `TaskTreeBuilding.PartialDone` | src/net/mokyu/threading/TaskTreeBuilder.java:118-124 | once the last task has linked all its ids, the partial entries of the pass are its entries |
| `TaskTreeBuilding.LinkedUpToDone` | src/net/mokyu/threading/TaskTreeBuilder.java:118-124 | a task whose ids are all linked completes the lists of the pass up to it |
| `TaskTreeBuilding.GrownStep` | src/net/mokyu/threading/TaskTreeBuilder.java:118-124 | linking one more required id adds the task to that id's list and keeps the resolved prefix resolved |
| `TaskTreeBuilding.GrownIsLinked` | src/net/mokyu/threading/TaskTreeBuilder.java:110-124 | the lists after the last task's linked ids are those of the first pass up to that point |
| `TaskTreeBuilding.VisitLinked` | src/net/mokyu/threading/TaskTreeBuilder.java:118-124 | a task whose ids all resolved leaves the lists Linked for the keys visited so far |
| `TaskTreeBuilding.VisitStopped` | src/net/mokyu/threading/TaskTreeBuilder.java:119-122 | a stop at a missing id leaves the pass Stopped there, with the lists of the ids linked before it |
| `TaskTreeBuilding.AllResolveSnoc` | src/net/mokyu/threading/TaskTreeBuilder.java:118-122 | one more task whose ids all resolve extends the resolving prefix |
| `TaskTreeBuilding.EmptySpec` | src/net/mokyu/threading/TaskTreeBuilder.java:101-104 | the empty table gives no tree |
| `TaskTreeBuilding.MissingSpec` | src/net/mokyu/threading/TaskTreeBuilder.java:119-122 | a stop at a missing id is the MissingTask outcome BuildSpec describes, with fan-ins untouched |
| `TaskTreeBuilding.NoRootsSpec` | src/net/mokyu/threading/TaskTreeBuilder.java:127-129 | every id resolving and no root is the NoRunnableTasks outcome, with every list fully linked and fan-ins untouched |
| `TaskTreeBuilding.BuiltSpec` | src/net/mokyu/threading/TaskTreeBuilder.java:131-142 | after both passes, the sorted roots with the task count, the sorted lists and the fixed fan-ins are the success outcome of BuildSpec |
| `TaskTreeBuilding.MissingBreaksResolve` | src/net/mokyu/threading/TaskTreeBuilder.java:119-122 | a stop at a missing id means not every required id is a key of the table |
| `SingleThreading.SingleThreadExecutor.constructor` | src/net/mokyu/threading/SingleThreadExecutor.java:48-50 | a fresh, empty queue |
| `SingleThreading.SingleThreadExecutor.Seed` | src/net/mokyu/threading/SingleThreadExecutor.java:58-61 | the queue holds every root once per basic task and K times per split task, the counters are at rest, and no required ids change |
| `SingleThreading.SingleThreadExecutor.Next` | src/net/mokyu/threading/SingleThreadExecutor.java:63 | poll is null exactly when the model queue is empty; then the queue field is empty; otherwise the polled task is one of the model's entries, the heap holds the rest, and no remaining entry has a higher priority |
| `SingleThreading.SingleThreadExecutor.RunAndComplete` | src/net/mokyu/threading/SingleThreadExecutor.java:65-67 | run() and complete() on the polled task move its counters as PollTask says, with its shard and completion |
| `SingleThreading.SingleThreadExecutor.UnlockOne` | src/net/mokyu/threading/SingleThreadExecutor.java:71-73 | one successor's unlock(), and its addToQueue when it fires, as Unlock1 says |
| `SingleThreading.SingleThreadExecutor.UnlockAll` | src/net/mokyu/threading/SingleThreadExecutor.java:69-74 | the unlock loop over a successor list, as Release says |
| `SingleThreading.SingleThreadExecutor.RunOne` | src/net/mokyu/threading/SingleThreadExecutor.java:65-75 | one iteration of the poll loop on the heap is Step of the model state, with its callbacks appended to the trace |
| `SingleThreading.SingleThreadExecutor.Run` | src/net/mokyu/threading/SingleThreadExecutor.java:57-77 | terminates with an empty queue; every task runs only after every task it requires has finished; finish follows the last shard, at most once; a finished task ran shards 0..K-1 and is at rest; an unfinished one never ran and waits on an unfinished task; without requirement loops every task finishes and is at rest; an unfinished task's unlockCounter holds exactly the unlock() calls it received, its fan-in less those still owed by unfinished tasks; the returned states replay the loop from the seeded queue by Step, poll k taking an entry of highest priority from the queue of state k, the last state's queue empty and its trace the callbacks, and the polls are the run callbacks in order; no required ids change |
| `SingleThreading.SingleThreadExecutor.Drain` | src/net/mokyu/threading/SingleThreadExecutor.java:63-76 | the poll loop ends with an empty queue and the invariant kept; its states replay the loop from its start state by Step, each poll taking an entry of highest priority from the queue of its state, in the order of the run callbacks |
| `SingleThreading.SingleThreadExecutor.Turn` | src/net/mokyu/threading/SingleThreadExecutor.java:63-76 | one iteration plus the next poll: the new state is Step of the old one, one more run callback, fewer runs owed, the record of polls and states extended by this poll and the state it leads to, and the next poll of highest priority |
| `SingleThreading.SingleThreadExecutor.Settled` | src/net/mokyu/threading/SingleThreadExecutor.java:63-76 | what a drained queue means for the tasks on the heap: the postconditions of Run |
| `SingleThreading.SingleThreadExecutor.SettledTask` | src/net/mokyu/threading/SingleThreadExecutor.java:63-76 | the same for one task: finished and at rest with all shards, or never run, waiting on an unfinished task, with its counter short by the unlocks still owed |
| `SingleThreading.TracksUpdate` | src/net/mokyu/threading/SingleThreadExecutor.java:65-72 | changing one task's counters changes exactly one tracked entry |
| `Schedule.Unfinished` | src/net/mokyu/threading/SingleThreadExecutor.java:67-74 | the tasks not yet finished: every member unfinished, every unfinished task a member |
| `Schedule.FinishReleases` | src/net/mokyu/threading/SingleThreadExecutor.java:67-74 | finishing a task removes exactly its successor list from the unlocks still owed |
| `Schedule.FlatMembers` | src/net/mokyu/threading/SingleThreadExecutor.java:69-74 | a task is still owed an unlock exactly when some task lists it as a successor |
| `Schedule.PollFollowsRuns` | src/net/mokyu/threading/SplitTask.java:94-114 | with r shards run, a poll hands out shard r, completes exactly when r + 1 == K, and then resets the counters |
| `Schedule.ShardsAppend` | src/net/mokyu/threading/SingleThreadExecutor.java:65 | a run event adds its shard to its task's shards and to no other |
| `Schedule.Unlock1Keeps` | src/net/mokyu/threading/SingleThreadExecutor.java:71-73 | one unlock of the next listed successor keeps the invariant and leaves the trace |
| `Schedule.Unlock1Queue` | src/net/mokyu/threading/SingleThreadExecutor.java:71-73 | one unlock queues nothing but the unlocked task |
| `Schedule.Unlock1Self` | src/net/mokyu/threading/Task.java:105-113 | the successor fires exactly on its last pending unlock, and then enters the queue with all its copies |
| `Schedule.Unlock1Other` | src/net/mokyu/threading/SingleThreadExecutor.java:71-73 | every other task's entries and state are untouched by one unlock |
| `Schedule.ReleaseTrace` | src/net/mokyu/threading/SingleThreadExecutor.java:69-74 | the unlock loop makes no callback and keeps the tracked tasks |
| `Schedule.ReleaseKeeps` | src/net/mokyu/threading/SingleThreadExecutor.java:69-74 | the whole unlock loop keeps the invariant |
| `Schedule.ExtendSeen` | src/net/mokyu/threading/SingleThreadExecutor.java:65-68 | a poll adds one shard to its own task's runs and finishes it exactly when it is complete |
| `Schedule.QueuedIsReady` | src/net/mokyu/threading/SingleThreadExecutor.java:63 | a queued task owes no unlock, has not finished, and its queued entries plus its runs are its copies |
| `Schedule.PendAfterRun` | src/net/mokyu/threading/SingleThreadExecutor.java:67-74 | a poll that finishes t owes every task its entries in t's successor list fewer unlocks |
| `Schedule.ReadyPredecessors` | src/net/mokyu/threading/GameExecutor.java:43-45 | a task owing no unlock has every task that lists it finished |
| `Schedule.ExtendOrdered` | src/net/mokyu/threading/GameExecutor.java:43-45 | a poll of a ready task keeps the callbacks ordered |
| `Schedule.AfterRunSelf` | src/net/mokyu/threading/SingleThreadExecutor.java:65-68 | the polled task has one entry fewer and one run more; its shards stay 0, 1, ... in order |
| `Schedule.AfterRunOther` | src/net/mokyu/threading/SingleThreadExecutor.java:65-68 | a poll leaves every other task's entries, counters and runs alone |
| `Schedule.TaskOKTransfer` | src/net/mokyu/threading/SingleThreadExecutor.java:63-76 | a task's state is consistent in a new state when nothing it depends on changed |
| `Schedule.AfterRunKeeps` | src/net/mokyu/threading/SingleThreadExecutor.java:65-68 | run and complete on a polled task keep the invariant, with the successor unlocks still to come |
| `Schedule.StepKeeps` | src/net/mokyu/threading/SingleThreadExecutor.java:63-76 | one whole iteration of the poll loop keeps the invariant |
| `Schedule.WorkNonNegative` | src/net/mokyu/threading/SingleThreadExecutor.java:63 | the runs still owed are never negative |
| `Schedule.WorkAfterRun` | src/net/mokyu/threading/SingleThreadExecutor.java:63-65 | one more run of a task lowers the runs still owed by one |
| `Schedule.InvBoundsRuns` | src/net/mokyu/threading/SingleThreadExecutor.java:63-65 | no task runs more often than its queue entries |
| `Schedule.StepProgress` | src/net/mokyu/threading/SingleThreadExecutor.java:63-76 | every iteration lowers the runs still owed, so the loop terminates on every tree |
| `Schedule.EntriesCount` | src/net/mokyu/threading/SingleThreadExecutor.java:58-61 | queueing the distinct roots gives each root exactly its copies, and nothing else |
| `Schedule.SeededTaskOK` | src/net/mokyu/threading/SingleThreadExecutor.java:58-61 | after seeding, every task waits for its whole fan-in and holds its copies exactly when it is a root |
| `Schedule.SeededInv` | src/net/mokyu/threading/SingleThreadExecutor.java:58-61 | a compiled tree satisfies the invariant once its roots are queued |
| `Schedule.Drained` | src/net/mokyu/threading/SingleThreadExecutor.java:63-76 | once the queue is empty: a finished task ran shards 0..K-1 and is at rest; an unfinished task never ran, is listed by an unfinished task, and its counter is its fan-in less the unlocks still owed |
| `Schedule.FinishedUpTo` | src/net/mokyu/threading/TaskTreeBuilder.java:90-95 | with a requirement-respecting order, every task of a prefix of that order has finished once the queue is empty |
| `Schedule.AcyclicFinishes` | src/net/mokyu/threading/TaskTreeBuilder.java:90-95 | without requirement loops, every task finishes with all its shards run and all counters back at 0 |
| `Schedule.BlockedStep` | src/net/mokyu/threading/TaskTreeBuilder.java:90-95 | a run of a task in a requirement loop needs an earlier run of another task in the loop |
| `Schedule.BlockedNeverRunsUpTo` | src/net/mokyu/threading/TaskTreeBuilder.java:90-95 | when every run of a task of a set needs an earlier run of a task of the set, none of them runs within the first n callbacks |
| `Schedule.StepRuns` | src/net/mokyu/threading/SingleThreadExecutor.java:63-65 | one iteration adds exactly the polled task to the tasks the run callbacks name |
| `Schedule.ReplaysSnoc` | src/net/mokyu/threading/SingleThreadExecutor.java:63-76 | one more iteration on an entry of the last state's queue extends the replay by that poll and the state Step leads to |
| `Schedule.RecordedStep` | src/net/mokyu/threading/SingleThreadExecutor.java:63-76 | an iteration on an entry of highest priority in the current queue extends the whole record: replay, priority order and run callbacks |
| `Schedule.TakenSnoc` | src/net/mokyu/threading/SingleThreadExecutor.java:63 | a poll of an entry of highest priority among those queued keeps every poll by priority and adds its task to the polled tasks |
| `Schedule.BlockedNeverRuns` | src/net/mokyu/threading/TaskTreeBuilder.java:90-95 | whatever the tree, a task in a requirement loop never runs and never finishes |
| `Compilation.BuiltIsCompiled` | src/net/mokyu/threading/TaskTreeBuilder.java:100-142 | a build from empty successor lists that returns a tree leaves, with each task's list and fan-in as build() set them, a graph run() accepts: well formed, distinct roots that are exactly the tasks of fan-in 0, and every fan-in equal to the task's entries over all lists |
| `Compilation.TasksIn` | src/net/mokyu/threading/TaskTreeBuilder.java:101-110 | the tasks of the table in key order, one per key |
| `Compilation.TasksInKeyed` | src/net/mokyu/threading/TaskTreeBuilder.java:101-110 | each task of the table appears once among them, and exactly the table's tasks do |
| `Compilation.SuccessorsInTree` | src/net/mokyu/threading/TaskTreeBuilder.java:117-123 | every entry build() puts into a successor list is a task of the tree |
| `Compilation.RootsOfBuild` | src/net/mokyu/threading/TaskTreeBuilder.java:113-141 | the roots build() returns are distinct tasks of the tree, and exactly those whose fan-in it set to 0 |
| `Compilation.RootsAreUnrequired` | src/net/mokyu/threading/TaskTreeBuilder.java:113-115 | the collected roots are exactly the tree's tasks with no required id |
| `Compilation.FanInIsInDegree` | src/net/mokyu/threading/TaskTreeBuilder.java:117-134 | the fan-in build() sets, one per required id, equals the task's entries over all successor lists |
| `Compilation.FlatHits` | src/net/mokyu/threading/TaskTreeBuilder.java:117-123 | the entries for a task over the lists at some keys are the number of its required ids those keys name |
| `Compilation.HitsCount` | src/net/mokyu/threading/TaskTreeBuilder.java:117-123 | distinct keys that name every required id name them exactly as often as there are required ids |
| `InsertionMethod.Sort` | src/pro/sort/method/InsertionMethod.java:6-8 | the same as skip 0, and array[start, end) ends sorted |
| `InsertionMethod.SortSkip` | src/pro/sort/method/InsertionMethod.java:10-25 | the array afterwards is SortedRange of the array before |
| `InsertionMethod.ShiftIn` | src/pro/sort/method/InsertionMethod.java:14-22 | one outer iteration: array[i] is inserted into array[start, i) as Insert says, and no other cell changes |
| `InsertionMethod.InsertAllStep` | src/pro/sort/method/InsertionMethod.java:12-24 | one more outer iteration inserts one more element |
| `InsertionMethod.OuterExit` | src/pro/sort/method/InsertionMethod.java:12-24 | when the outer loop ends the array is SortedRange's result |
| `InsertionMethod.InsertPermutes` | src/pro/sort/method/InsertionMethod.java:16-22 | one insertion adds exactly the inserted element |
| `InsertionMethod.InsertBounded` | src/pro/sort/method/InsertionMethod.java:16-22 | an insertion keeps every key under a common bound |
| `InsertionMethod.InsertKeepsSorted` | src/pro/sort/method/InsertionMethod.java:16-22 | inserting into a sorted sequence keeps it sorted |
| `InsertionMethod.InsertIsStable` | src/pro/sort/method/InsertionMethod.java:17-21 | the strict comparison never moves an element past one of equal key |
| `InsertionMethod.InsertLandsAt` | src/pro/sort/method/InsertionMethod.java:17-22 | the element lands just after the last element whose key is not larger |
| `InsertionMethod.InsertLandsAtCells` | src/pro/sort/method/InsertionMethod.java:17-22 | the same, cell by cell |
| `InsertionMethod.InsertAllPermutes` | src/pro/sort/method/InsertionMethod.java:12-24 | the outer loop holds exactly the prefix and the inserted elements |
| `InsertionMethod.InsertAllKeepsSorted` | src/pro/sort/method/InsertionMethod.java:12-23 | the outer loop invariant: a sorted prefix stays sorted |
| `InsertionMethod.InsertAllIsStable` | src/pro/sort/method/InsertionMethod.java:12-24 | elements of each key keep their order, prefix first |
| `InsertionMethod.InsertAllKeepsKeyOrder` | src/pro/sort/method/InsertionMethod.java:12-24 | key by key, the order of the prefix followed by the rest |
| `InsertionMethod.WithKeyAppend` | src/pro/sort/method/InsertionMethod.java:17-21 | the elements of one key of a concatenation are those of each part |
| `InsertionMethod.SortedRangeShape` | src/pro/sort/method/InsertionMethod.java:12-24 | the cells before start and from end on are unchanged, and the range is the prefix with the rest inserted |
| `InsertionMethod.SortedRangeSorts` | src/pro/sort/method/InsertionMethod.java:12-24 | if array[start, start + skip + 1) is sorted, array[start, end) ends sorted |
| `InsertionMethod.SortedRangePermutes` | src/pro/sort/method/InsertionMethod.java:12-22 | array[start, end) ends a permutation of its contents, and every cell outside it is unchanged |
| `InsertionMethod.SortedRangeIsStable` | src/pro/sort/method/InsertionMethod.java:17-21 | equal keys keep their relative order within array[start, end) |
| `InsertionMethod.SortedRangeShortIsIdentity` | src/pro/sort/method/InsertionMethod.java:12 | when end <= start + skip + 1 the array is unchanged |
| `InsertionMethod.SortWithoutSkipSorts` | src/pro/sort/method/InsertionMethod.java:6-8 | without a skip prefix, array[start, end) is sorted outright |
| `BubbleMethod.Sort` | src/pro/sort/method/BubbleMethod.java:7-9 | the same as skip 0, and the array keeps its multiset |
| `BubbleMethod.SortSkip` | src/pro/sort/method/BubbleMethod.java:11-22 | the array afterwards is Bubbled of the array before |
| `BubbleMethod.SwapIfLess` | src/pro/sort/method/BubbleMethod.java:15-19 | one comparison and swap keeps the length |
| `BubbleMethod.BubbleInner` | src/pro/sort/method/BubbleMethod.java:14-20 | the inner loop keeps the length |
| `BubbleMethod.SwapIfLessPermutes` | src/pro/sort/method/BubbleMethod.java:15-19 | one comparison and swap keeps the multiset |
| `BubbleMethod.SwapPermutes` | src/pro/sort/method/BubbleMethod.java:16-18 | exchanging two cells keeps the multiset |
| `BubbleMethod.BubbleInnerPermutes` | src/pro/sort/method/BubbleMethod.java:14-20 | the inner loop keeps the multiset |
| `BubbleMethod.BubbleOuterPermutes` | src/pro/sort/method/BubbleMethod.java:13-21 | the outer loop keeps the multiset |
| `BubbleMethod.BubbledPermutes` | src/pro/sort/method/BubbleMethod.java:13-21 | the whole call keeps the multiset of the whole array |
| `BubbleMethod.BubbleInnerFrame` | src/pro/sort/method/BubbleMethod.java:14-19 | the inner loop for i writes only cell i and cells j..stop-1 |
| `BubbleMethod.BubbleOuterFrame` | src/pro/sort/method/BubbleMethod.java:13-14 | the outer loop never writes cell 0 or a cell from end on |
| `BubbleMethod.BubbledFrame` | src/pro/sort/method/BubbleMethod.java:13-14 | cells at index 0 and from end on are never written |
| `BubbleMethod.BubbledShortIsIdentity` | src/pro/sort/method/BubbleMethod.java:13 | when start + skip + 1 >= end the array is unchanged |
| `BubbleMethod.BubbleInnerRaises` | src/pro/sort/method/BubbleMethod.java:14-19 | during the inner loop array[i] never decreases and stays at least every cell from 1 up to j |
| `BubbleMethod.InnerPassRaisesPivot` | src/pro/sort/method/BubbleMethod.java:14-19 | after the inner loop for i, array[i] did not decrease and is at least array[j] for every 1 <= j < end - i |
| `BubbleMethod.BubbledLeavesUnsorted` | src/pro/sort/method/BubbleMethod.java:13-19 | [3, 1, 2] over its whole range comes back unchanged and unsorted |
| `BubbleMethod.BubbledWritesBelowStart` | src/pro/sort/method/BubbleMethod.java:14 | with start 2, the call writes cell 1, below start |
| `ParallelSorting.SorterResultPermutes` | src/pro/sort/sorter/ParallelSorter.java:107 | both sorters keep the array's multiset; the insertion sort leaves every cell outside [start, end) alone |
| `ParallelSorting.ParallelSorter.constructor` | src/pro/sort/sorter/ParallelSorter.java:28-46 | numChunks chunk slots, numChunks - 1 overlap slots, all disabled |
| `ParallelSorting.ParallelSorter.Create` | src/pro/sort/sorter/ParallelSorter.java:28-34 | rejected exactly when numChunks < 2; otherwise numOverlaps == numChunks - 1 |
| `ParallelSorting.ParallelSorter.SetChunkBounds` | src/pro/sort/sorter/ParallelSorter.java:77-83 | chunk c is [start + q c, start + q (c + 1)) with q = (end - start) / numChunks, the last ending at end; for any start <= end the chunks lie end to end over [start, end), each with start <= end, and none is empty once end - start >= numChunks |
| `ParallelSorting.TileArithmetic` | src/pro/sort/sorter/ParallelSorter.java:77-81 | the c-th and (c + 1)-th multiples of length / n, offset by start, lie in order within [start, start + length] |
| `ParallelSorting.LayoutTiles` | src/pro/sort/sorter/ParallelSorter.java:77-83 | bounds laid out by the loop, with the last end moved to end, tile [start, end) |
| `ParallelSorting.Stretched` | src/pro/sort/sorter/ParallelSorter.java:77-83 | moving the last end of the loop's layout to end gives a tiling, with no empty chunk when there are at least as many elements as chunks, and keeps every other bound |
| `ParallelSorting.ChunkArithmetic` | src/pro/sort/sorter/ParallelSorter.java:77-83 | the chunk bounds are increasing and inside the range |
| `ParallelSorting.LayoutCovers` | src/pro/sort/sorter/ParallelSorter.java:77-83 | those bounds cover [start, end) contiguously |
| `ParallelSorting.ChunksOrdered` | src/pro/sort/sorter/ParallelSorter.java:77-83 | an earlier chunk ends at or before the start of a later one |
| `ParallelSorting.ParallelSorter.SortRange` | src/pro/sort/sorter/ParallelSorter.java:107 | the chosen sorter's 4-argument sort on the array |
| `ParallelSorting.ParallelSorter.SortRangeSkip` | src/pro/sort/sorter/ParallelSorter.java:212 | the chosen sorter's 5-argument sort on the array |
| `ParallelSorting.ParallelSorter.SortChunk` | src/pro/sort/sorter/ParallelSorter.java:105-110 | the chunk is sorted by the chosen sorter, first = array[c.start], last = array[c.end - 1]; no other chunk changes |
| `ParallelSorting.ChunkSortStep` | src/pro/sort/sorter/ParallelSorter.java:105-110 | with the insertion sorter, sorting one more chunk keeps every earlier chunk sorted and summarised, and the cells outside the range alone |
| `ParallelSorting.ChunkKept` | src/pro/sort/sorter/ParallelSorter.java:105-110 | a sorted chunk stays sorted and summarised when no cell of it changes |
| `ParallelSorting.ParallelSorter.SortChunks` | src/pro/sort/sorter/ParallelSorter.java:90 | every shard of the chunk task: the bounds stay, the array keeps its multiset; with the insertion sorter every chunk ends sorted with its first and last recorded, holds exactly the elements it held before, and no cell outside [sortStart, sortEnd) changes |
| `ParallelSorting.ParallelSorter.SortChunkShard` | src/pro/sort/sorter/ParallelSorter.java:105-110 | one shard extends by one the prefix of chunks that are sorted, summarised and a permutation of their old cells, and the later chunks stay untouched |
| `ParallelSorting.ChunkPermuteStep` | src/pro/sort/sorter/ParallelSorter.java:105-110 | with the insertion sorter, sorting chunk i permutes that chunk and leaves every other chunk's cells as they were |
| `ParallelSorting.InsertionShard` | src/pro/sort/sorter/ParallelSorter.java:105-110 | one insertion shard takes the task's state after i shards to its state after i + 1 |
| `ParallelSorting.AllShardsDone` | src/pro/sort/sorter/ParallelSorter.java:105-110 | after all shards every chunk is settled and holds its own old elements, and nothing outside the range moved |
| `ParallelSorting.ParallelSorter.ScanOverlap` | src/pro/sort/sorter/ParallelSorter.java:119-138 | highest is the largest last element of the chunks taken in; every later chunk beyond overlapIndex starts at or above it |
| `ParallelSorting.ParallelSorter.UpdateOverlaps` | src/pro/sort/sorter/ParallelSorter.java:112-161 | terminates; enabled overlaps form a prefix of the slots, each spanning at least two chunks, firstChunkID < lastChunkID <= numChunks - 1, each starting at or after the previous one's end; all others disabled; two chunks that no overlap spans are ordered |
| `ParallelSorting.ParallelSorter.DisableFrom` | src/pro/sort/sorter/ParallelSorter.java:158-160 | the slots from `from` on are disabled, the others unchanged |
| `ParallelSorting.SpannedGrows` | src/pro/sort/sorter/ParallelSorter.java:148-151 | filling more overlap slots keeps every earlier span |
| `ParallelSorting.OverlapsSettled` | src/pro/sort/sorter/ParallelSorter.java:148-160 | the filled slots plus the disabled rest are well formed and separate the chunks |
| `ParallelSorting.LowestFrom` | src/pro/sort/sorter/ParallelSorter.java:180-189 | lowest is at most the first chunk's last element and every later chunk's first element |
| `ParallelSorting.HighestFrom` | src/pro/sort/sorter/ParallelSorter.java:179-185 | highest is at least the last element of every chunk seen |
| `ParallelSorting.LowestFromAttained` | src/pro/sort/sorter/ParallelSorter.java:180-189 | lowest is one of the values it was taken from |
| `ParallelSorting.HighestFromAttained` | src/pro/sort/sorter/ParallelSorter.java:179-185 | highest is the last element of one of the chunks seen |
| `ParallelSorting.ScanDown` | src/pro/sort/sorter/ParallelSorter.java:197-199 | stops at sortStart or at the first cell not above lowest, having passed only cells above it |
| `ParallelSorting.ScanUp` | src/pro/sort/sorter/ParallelSorter.java:202-204 | stops at sortEnd or at the first cell not below highest, having passed only cells below it |
| `ParallelSorting.Window` | src/pro/sort/sorter/ParallelSorter.java:192-204 | sortStart <= start <= firstChunk.end - 1 and lastChunk.start <= end <= sortEnd, so the skip is >= 0 |
| `ParallelSorting.WindowIs` | src/pro/sort/sorter/ParallelSorter.java:192-204 | the window is the result of the two scans from the edges of the overlap |
| `ParallelSorting.WindowEdges` | src/pro/sort/sorter/ParallelSorter.java:197-204 | the cells the scans passed lie beyond the bounds, and the scans stopped at the first cell that does not |
| `ParallelSorting.OverlapSortedIs` | src/pro/sort/sorter/ParallelSorter.java:212 | sorting an overlap is the sorter on its window with skip firstChunk.end - 1 - start >= 0 |
| `ParallelSorting.OverlapSortedPermutes` | src/pro/sort/sorter/ParallelSorter.java:212 | sorting an overlap keeps the multiset; with the insertion sorter it leaves the cells outside the range alone |
| `ParallelSorting.ParallelSorter.OverlapBounds` | src/pro/sort/sorter/ParallelSorter.java:179-189 | the bound loop computes LowestFrom and HighestFrom |
| `ParallelSorting.ParallelSorter.OverlapWindow` | src/pro/sort/sorter/ParallelSorter.java:173-204 | the bound loop and both scans compute Window |
| `ParallelSorting.ParallelSorter.SortOverlap` | src/pro/sort/sorter/ParallelSorter.java:163-213 | a disabled slot changes nothing; an enabled one sorts its window with the part inside the first chunk as skip prefix |
| `ParallelSorting.ParallelSorter.SortOverlaps` | src/pro/sort/sorter/ParallelSorter.java:91 | every shard of the overlap task keeps the multiset; with the insertion sorter the cells outside the range are unchanged |
| `ParallelSorting.ParallelSorter.Sort` | src/pro/sort/sorter/ParallelSorter.java:68-103 | the chunks cover the range, the overlaps are well formed and separate the chunks, the array keeps its multiset, and with the insertion sorter no cell outside [start, end) changes |

## Left out

- The multi-threaded executor (MultithreadedExecutor.java), and the routing of draw tasks to the calling thread, are left out because they are concurrent. The model is sequential, so the atomic counters are plain integers.
- GameExecutor.java and ISorterMethod.java are interfaces only. GameExecutor's ordering promise is stated as the `Ordered` trace predicate, and ISorterMethod's delegation is covered by the two `Sort` overloads.
- TaskTree.java is not part of this model. `TaskTree` is a datatype holding the root list and the task count, as `build()` constructs it.
- The tasks' user code (run(), runSubtask(), finish()) is not modelled. Each call becomes an event in the trace `SingleThreadExecutor.Run` returns. BasicTask's finish() does nothing, so its event carries no effect.
- The test and benchmark programs are left out because they are console I/O, timing, random shuffling and floating point. So are the `System.out.println` calls in both sorters.
- The HashMap's iteration order is unspecified. The builder uses the order in which ids were first added (`keyOrder`), and BuildSpec is stated for that order.
- SingleThreading.SingleThreadExecutor.Run: it requires every task's counters at rest, as a fresh build() leaves them. A tree is documented as reusable (TaskTreeBuilder.java:81-99), but a run stopped by a requirement loop leaves unlockCounters above 0 (the Awaits clause of Run states their values), and a second run of that tree is not covered. There a leftover counter could let a task fire before all its requirements finish, which the source's warning of an inconsistent state (TaskTreeBuilder.java:89-95) admits.
- TreeBuilder.TaskTreeBuilder.Build: the table is cleared before the second pass, not after it as in the source. The second pass writes only task fields, and clearing writes only the builder, so the end state is the same.
- TaskTreeBuilding.PrioritySortedSpec: Collections.sort is modelled as the stable insertion sort by descending priority. Collections.sort is also stable, so for the same input the final order is the same.
- Tasks.TaskQueue.Poll: it returns some entry of maximal priority, the first one in insertion order. Java's PriorityQueue may break ties in another order, so the contract promises only maximal priority.
- Tasks.Task.CompareTo: it is stated with the intended, overflow-free comparison (see Findings). The 32-bit form as written is `Tasks.CompareToAsWritten`. Priorities are otherwise unbounded integers.
- ParallelSorting.ParallelSorter.Sort: requires `end - start >= numChunks`, which the source does not check. With fewer elements some chunk is empty, and sortChunk would read `array[c.end - 1]` outside the chunk.
- ParallelSorting.ParallelSorter.Sort: it works on an `int` array in natural order, not on a generic array with a Comparator. Its contract does not claim that the range ends sorted. It states the chunk, overlap and permutation facts above, and that every two chunks outside a common overlap are ordered.
- ParallelSorting.ParallelSorter.SortChunks: the facts about sorted, summarised chunks are proved for the insertion sorter only. The bubble method does not sort.
- The executor call in ParallelSorter.sort is replaced by the sequential order its comment gives (chunks, updateOverlaps, overlaps), because that call runs the two split tasks concurrently.
- SplitTask's constructor calls `super` before it checks the count. The model's `NewSplitTask` rejects the count without creating a task, because the half-built object is never reachable.
- TreeBuilder.TaskTreeBuilder.AddTask: on a collision the new task has already replaced the old one, as with `HashMap.put`. The exception is the `Collision` result.

## Findings

| source | as written | input that shows it | evidently intended | confidence | as-written member | corrected member |
|---|---|---|---|---|---|---|
| src/net/mokyu/threading/Task.java:146-148 | compareTo returns `task.getPriority() - priority` in 32-bit int arithmetic, which overflows | this priority 1, other priority -2^31: the difference wraps to a positive value, so the task of priority 1 sorts and polls after the lower-priority one | negative exactly when this priority is higher, positive exactly when it is lower | not executed | `Tasks.CompareToAsWrittenOverflows` | `Tasks.ComparePriorities` |

`Tasks.CompareToAsWritten` models the written subtraction with `Tasks.Wrap32`.
`Tasks.ComparePriorities` is the comparison `Tasks.Task.CompareTo` and the
queue use. `Tasks.CompareToAsWrittenAgreesWithoutOverflow` shows that the two
agree whenever the difference fits in 32 bits.

BubbleMethod.java:13-19 is not listed as a finding, because what it was
meant to do cannot be read off the code. As written it compares `array[i]`
with `array[j]` for an absolute `j` from 1. The model states what it does
guarantee. `BubbleMethod.BubbledLeavesUnsorted` exhibits an input it leaves
unsorted, and `BubbleMethod.BubbledWritesBelowStart` exhibits a write below
`start`.

/** The schedulable work units of the task scheduler: the base Task with its
    dependency wiring and unlock counter, and the three task classes built on
    it (BasicTask, DrawTask, SplitTask), together with the priority queue that
    addToQueue() fills.

    The source's class hierarchy becomes one class whose `kind` says which of
    the three a task is; the run-scoped counters, atomic in the source, are
    plain integers here because the model is sequential. */
module Tasks {

  /** Which of the three concrete task classes a task belongs to. A DrawTask
      behaves like a BasicTask everywhere in the sequential model. */
  datatype Kind = BasicTask | DrawTask | SplitTask

  /** The IllegalArgumentException raised for a subtask count below one. */
  datatype ArgumentError = SubtasksBelowOne(subtasks: int)

  datatype Outcome = Pass | Fail(error: ArgumentError)

  datatype TaskResult = Created(task: Task) | Rejected(error: ArgumentError)

  /** The sequence [lo, lo + 1, ..., hi - 1]. */
  function Range(lo: int, hi: int): (r: seq<int>)
    requires lo <= hi
    ensures |r| == hi - lo
    ensures forall i :: 0 <= i < |r| ==> r[i] == lo + i
  {
    seq(hi - lo, i => lo + i)
  }

  /** n copies of false. */
  function Falses(n: nat): seq<bool>
  {
    seq(n, _ => false)
  }

  /** n copies of x. */
  function Repeat<T>(x: T, n: nat): (r: seq<T>)
    ensures |r| == n
    ensures forall i :: 0 <= i < n ==> r[i] == x
  {
    seq(n, _ => x)
  }

  /** No element of s occurs twice. */
  ghost predicate Distinct<T>(s: seq<T>)
  {
    forall i, j :: 0 <= i < j < |s| ==> s[i] != s[j]
  }

  /** Dropping the last element of a sequence without repeats. */
  lemma DistinctInit<T>(s: seq<T>)
    requires Distinct(s) && s != []
    ensures Distinct(s[..|s| - 1]) && s[|s| - 1] !in s[..|s| - 1]
  {
  }

  /** n copies of u hold u exactly n times. */
  lemma {:induction false} RepeatCount<T>(u: T, n: nat)
    ensures multiset(Repeat(u, n))[u] == n
  {
    if n > 0 {
      RepeatCount(u, n - 1);
      assert Repeat(u, n) == Repeat(u, n - 1) + [u];
    }
  }

  /** n copies of u hold x n times if x is u, otherwise not at all. */
  lemma RepeatCounts<T>(u: T, n: nat, x: T)
    ensures multiset(Repeat(u, n))[x] == if x == u then n else 0
  {
    if x == u {
      RepeatCount(u, n);
    } else {
      assert x !in Repeat(u, n);
    }
  }

  // ---------------------------------------------------------------------
  // The run-scoped counters as pure state machines
  // ---------------------------------------------------------------------

  /** One call of unlock() on a task whose counter is `counter` and whose
      fan-in is `needed`: whether it fired, and the counter afterwards. */
  function UnlockStep(counter: int, needed: int): (bool, int)
  {
    var i := counter + 1;
    if i == needed then (true, 0) else (false, i)
  }

  /** The results of m consecutive unlock() calls, and the final counter. */
  function UnlockRun(counter: int, needed: int, m: nat): (seq<bool>, int)
    decreases m
  {
    if m == 0 then ([], counter)
    else
      var (fired, next) := UnlockStep(counter, needed);
      var (rest, last) := UnlockRun(next, needed, m - 1);
      ([fired] + rest, last)
  }

  /** From any counter c below the fan-in n, the remaining n - c unlocks
      fire exactly once, on the last call, and leave the counter at 0. */
  lemma {:induction false} UnlockRoundFrom(c: nat, n: nat)
    requires c < n
    ensures UnlockRun(c, n, n - c) == (Falses(n - c - 1) + [true], 0)
    decreases n - c
  {
    if c + 1 < n {
      UnlockRoundFrom(c + 1, n);
      assert UnlockRun(c, n, n - c) == ([false] + UnlockRun(c + 1, n, n - (c + 1)).0, UnlockRun(c + 1, n, n - (c + 1)).1);
      assert Falses(n - c - 1) + [true] == [false] + (Falses(n - (c + 1) - 1) + [true]);
    } else {
      assert n - c == 1;
      assert UnlockStep(c, n) == (true, 0);
      assert UnlockRun(0, n, 0) == ([], 0);
      var r := UnlockRun(c, n, 1);
      assert r.1 == 0;
      assert r.0 == [true];
      assert Falses(n - c - 1) + [true] == [true];
    }
  }

  /** A round of n unlocks from a reset counter: false n-1 times, then true,
      and the counter is 0 again, ready for the next run. */
  lemma UnlockRound(n: nat)
    requires n >= 1
    ensures UnlockRun(0, n, n) == (Falses(n - 1) + [true], 0)
  {
    UnlockRoundFrom(0, n);
  }

  /** One call of SplitTask.run() on startCount: the shard index it passes to
      runSubtask() and the new startCount. */
  function RunStep(start: int): (int, int)
  {
    (start, start + 1)
  }

  /** The shard indices of m successive run() calls. */
  function RunShards(start: int, m: nat): seq<int>
    decreases m
  {
    if m == 0 then [] else [RunStep(start).0] + RunShards(RunStep(start).1, m - 1)
  }

  /** m successive run() calls from startCount s claim s, s+1, ..., s+m-1,
      each exactly once. */
  lemma {:induction false} RunShardsAreConsecutive(s: int, m: nat)
    ensures RunShards(s, m) == Range(s, s + m)
    decreases m
  {
    if m > 0 {
      RunShardsAreConsecutive(s + 1, m - 1);
      assert Range(s, s + m) == [s] + Range(s + 1, s + m);
    }
  }

  /** K successive run() calls from a reset SplitTask claim shards 0..K-1. */
  lemma RunClaimsEveryShard(k: nat)
    ensures RunShards(0, k) == Range(0, k)
    ensures forall i :: 0 <= i < k ==> i in RunShards(0, k)
  {
    RunShardsAreConsecutive(0, k);
    forall i | 0 <= i < k
      ensures i in RunShards(0, k)
    {
      assert RunShards(0, k)[i] == i;
    }
  }

  /** One call of SplitTask.complete() with k subtasks on counters
      (startCount, endCount): whether it finished the task, and both counters
      afterwards. */
  function CompleteStep(start: int, end: int, k: int): (bool, int, int)
  {
    var endID := end + 1;
    if endID == k then (true, 0, 0) else (false, start, endID)
  }

  /** The results of m successive complete() calls, and the final counters. */
  function CompleteRun(start: int, end: int, k: int, m: nat): (seq<bool>, int, int)
    decreases m
  {
    if m == 0 then ([], start, end)
    else
      var (done, s1, e1) := CompleteStep(start, end, k);
      var (rest, s2, e2) := CompleteRun(s1, e1, k, m - 1);
      ([done] + rest, s2, e2)
  }

  lemma {:induction false} CompleteRoundFrom(s: int, e: nat, k: nat)
    requires e < k
    ensures CompleteRun(s, e, k, k - e) == (Falses(k - e - 1) + [true], 0, 0)
    decreases k - e
  {
    if e + 1 < k {
      CompleteRoundFrom(s, e + 1, k);
      var next := CompleteRun(s, e + 1, k, k - (e + 1));
      assert CompleteRun(s, e, k, k - e) == ([false] + next.0, next.1, next.2);
      assert Falses(k - e - 1) + [true] == [false] + (Falses(k - (e + 1) - 1) + [true]);
    } else {
      assert k - e == 1;
      assert CompleteStep(s, e, k) == (true, 0, 0);
      assert CompleteRun(0, 0, k, 0) == ([], 0, 0);
      var r := CompleteRun(s, e, k, 1);
      assert r.1 == 0 && r.2 == 0;
      assert r.0 == [true];
      assert Falses(k - e - 1) + [true] == [true];
    }
  }

  /** Of k successive complete() calls from endCount 0 only the k-th returns
      true, and it leaves both counters at 0. */
  lemma CompleteRound(s: int, k: nat)
    requires k >= 1
    ensures CompleteRun(s, 0, k, k) == (Falses(k - 1) + [true], 0, 0)
  {
    CompleteRoundFrom(s, 0, k);
  }

  /** m successive polls of one SplitTask by the single-threaded executor,
      each a run() followed by complete(): the shard indices passed to
      runSubtask(), the results of complete(), and the final counters. */
  function ShardCycle(start: int, end: int, k: int, m: nat): (seq<int>, seq<bool>, int, int)
    decreases m
  {
    if m == 0 then ([], [], start, end)
    else
      var (shard, s1) := RunStep(start);
      var (done, s2, e2) := CompleteStep(s1, end, k);
      var (shards, dones, s3, e3) := ShardCycle(s2, e2, k, m - 1);
      ([shard] + shards, [done] + dones, s3, e3)
  }

  lemma {:induction false} ShardCycleFrom(i: nat, k: nat)
    requires i < k
    ensures ShardCycle(i, i, k, k - i) == (Range(i, k), Falses(k - i - 1) + [true], 0, 0)
    decreases k - i
  {
    if i + 1 < k {
      ShardCycleFrom(i + 1, k);
      var next := ShardCycle(i + 1, i + 1, k, k - (i + 1));
      assert ShardCycle(i, i, k, k - i) == ([i] + next.0, [false] + next.1, next.2, next.3);
      assert Range(i, k) == [i] + Range(i + 1, k);
      assert Falses(k - i - 1) + [true] == [false] + (Falses(k - (i + 1) - 1) + [true]);
    } else {
      assert k - i == 1;
      assert RunStep(i) == (i, i + 1);
      assert CompleteStep(i + 1, i, k) == (true, 0, 0);
      assert ShardCycle(0, 0, k, 0) == ([], [], 0, 0);
      var r := ShardCycle(i, i, k, 1);
      assert r.2 == 0 && r.3 == 0;
      assert r.0 == [i];
      assert r.1 == [true];
      assert Range(i, k) == [i];
      assert Falses(k - i - 1) + [true] == [true];
    }
  }

  /** A full cycle of a SplitTask with k subtasks from its reset state: the
      shards 0..k-1 run in order, only the last complete() returns true (so
      finish() runs once, after every shard), and the counters are reset. */
  lemma SplitTaskCycle(k: nat)
    requires k >= 1
    ensures ShardCycle(0, 0, k, k) == (Range(0, k), Falses(k - 1) + [true], 0, 0)
  {
    ShardCycleFrom(0, k);
  }

  // ---------------------------------------------------------------------
  // Priority comparison
  // ---------------------------------------------------------------------

  const INT_MIN: int := -0x8000_0000
  const INT_MAX: int := 0x7fff_ffff

  predicate IsInt32(x: int)
  {
    INT_MIN <= x <= INT_MAX
  }

  /** Java's 32-bit two's-complement wrap-around of an integer. */
  function Wrap32(x: int): (r: int)
    ensures IsInt32(r)
  {
    (x - INT_MIN) % 0x1_0000_0000 + INT_MIN
  }

  /** compareTo() as written: the other task's priority minus this one's, in
      32-bit arithmetic. */
  function CompareToAsWritten(thisPriority: int, otherPriority: int): int
    requires IsInt32(thisPriority) && IsInt32(otherPriority)
  {
    Wrap32(otherPriority - thisPriority)
  }

  /** The subtraction overflows: a task of priority 1 compares as LOWER in
      the queue order than a task of priority -2^31, so it is sorted after it
      although the corrected comparison sorts it first. */
  lemma CompareToAsWrittenOverflows()
    ensures CompareToAsWritten(1, INT_MIN) > 0
    ensures ComparePriorities(1, INT_MIN) < 0
  {
  }

  /** Where the difference fits in 32 bits, compareTo() as written has the
      sign of the comparison the rest of the model uses. */
  lemma CompareToAsWrittenAgreesWithoutOverflow(p: int, q: int)
    requires IsInt32(p) && IsInt32(q) && IsInt32(q - p)
    ensures CompareToAsWritten(p, q) < 0 <==> ComparePriorities(p, q) < 0
    ensures CompareToAsWritten(p, q) == 0 <==> ComparePriorities(p, q) == 0
  {
  }

  /** The ordering compareTo() evidently intends: negative when this
      priority is higher (so it is queued and sorted first), positive when it
      is lower, zero when equal; it cannot overflow. */
  function ComparePriorities(thisPriority: int, otherPriority: int): (r: int)
    ensures r < 0 <==> thisPriority > otherPriority
    ensures r > 0 <==> thisPriority < otherPriority
  {
    if thisPriority > otherPriority then -1
    else if thisPriority < otherPriority then 1
    else 0
  }

  // ---------------------------------------------------------------------
  // Tasks
  // ---------------------------------------------------------------------

  class Task {
    const id: int
    const priority: int
    const kind: Kind

    /** Ids of the tasks that have to complete before this one may run. */
    var requiredIDs: seq<int>
    /** The tasks that list this one as required, filled in by the builder. */
    var unlockedTasks: seq<Task>
    /** The fan-in, fixed by update() to |requiredIDs|. */
    var neededUnlocks: int
    /** Run-scoped: unlock() calls since the task was last unlocked. */
    var unlockCounter: int

    /** SplitTask only: the number of shards. */
    var subtasks: int
    /** SplitTask only, run-scoped: shards claimed by run(). */
    var startCount: int
    /** SplitTask only, run-scoped: shards reported by complete(). */
    var endCount: int

    /** SplitTask's invariant: at least one subtask. */
    ghost predicate Valid()
      reads this`subtasks
    {
      kind == SplitTask ==> subtasks >= 1
    }

    /** All run-scoped counters are at their initial value. */
    ghost predicate AtRest()
      reads this
    {
      unlockCounter == 0 && startCount == 0 && endCount == 0
    }

    /** How many queue entries addToQueue() makes: one for a basic or draw
        task, one per subtask for a split task. */
    function Copies(): int
      reads this`subtasks
    {
      if kind == SplitTask then subtasks else 1
    }

    /** The state every constructor leaves: nothing required, nothing
        unlocked, all counters 0. */
    ghost predicate Initial()
      reads this
    {
      requiredIDs == [] && unlockedTasks == [] && neededUnlocks == 0 && AtRest()
    }

    /** BasicTask(id, taskPriority), which only passes both to Task. */
    constructor Basic(id: int, priority: int)
      ensures this.id == id && this.priority == priority && kind == BasicTask
      ensures Initial() && Valid() && Copies() == 1
    {
      this.id := id;
      this.priority := priority;
      kind := BasicTask;
      requiredIDs := [];
      unlockedTasks := [];
      neededUnlocks := 0;
      unlockCounter := 0;
      subtasks := 1;
      startCount := 0;
      endCount := 0;
    }

    /** DrawTask(id, taskPriority), which only passes both to BasicTask. */
    constructor Draw(id: int, priority: int)
      ensures this.id == id && this.priority == priority && kind == DrawTask
      ensures Initial() && Valid() && Copies() == 1
    {
      this.id := id;
      this.priority := priority;
      kind := DrawTask;
      requiredIDs := [];
      unlockedTasks := [];
      neededUnlocks := 0;
      unlockCounter := 0;
      subtasks := 1;
      startCount := 0;
      endCount := 0;
    }

    /** The body of SplitTask(id, taskPriority, subtasks) once the argument
        check has passed; NewSplitTask performs that check. */
    constructor Split(id: int, priority: int, subtasks: int)
      requires subtasks >= 1
      ensures this.id == id && this.priority == priority && kind == SplitTask
      ensures this.subtasks == subtasks
      ensures Initial() && Valid() && Copies() == subtasks
    {
      this.id := id;
      this.priority := priority;
      kind := SplitTask;
      requiredIDs := [];
      unlockedTasks := [];
      neededUnlocks := 0;
      unlockCounter := 0;
      this.subtasks := subtasks;
      startCount := 0;
      endCount := 0;
    }

    /** SplitTask's constructor: rejects fewer than one subtask, otherwise a
        fresh split task with both shard counters at 0. */
    static method NewSplitTask(id: int, priority: int, subtasks: int) returns (r: TaskResult)
      ensures subtasks < 1 <==> r == Rejected(SubtasksBelowOne(subtasks))
      ensures r.Created? ==> fresh(r.task) && r.task.id == id && r.task.priority == priority
      ensures r.Created? ==> r.task.kind == SplitTask && r.task.subtasks == subtasks
      ensures r.Created? ==> r.task.Initial() && r.task.Valid()
    {
      if subtasks < 1 {
        return Rejected(SubtasksBelowOne(subtasks));
      }
      var t := new Task.Split(id, priority, subtasks);
      r := Created(t);
    }

    /** addRequiredTask(Task): the same as addRequiredTask(task.getID()). */
    method AddRequiredTask(task: Task)
      modifies this`requiredIDs
      ensures requiredIDs == old(requiredIDs) + [task.id]
    {
      AddRequiredID(task.id);
    }

    /** addRequiredTask(int): appends one required id. */
    method AddRequiredID(requiredID: int)
      modifies this`requiredIDs
      ensures requiredIDs == old(requiredIDs) + [requiredID]
    {
      requiredIDs := requiredIDs + [requiredID];
    }

    /** addUnlockedTask: appends one successor. */
    method AddUnlockedTask(task: Task)
      modifies this`unlockedTasks
      ensures unlockedTasks == old(unlockedTasks) + [task]
    {
      unlockedTasks := unlockedTasks + [task];
    }

    /** update: fixes the fan-in to the number of required ids. */
    method Update()
      modifies this`neededUnlocks
      ensures neededUnlocks == |requiredIDs|
    {
      neededUnlocks := |requiredIDs|;
    }

    /** unlock: counts one finished prerequisite; fires, and resets the
        counter, when the count reaches the fan-in. */
    method Unlock() returns (unlocked: bool)
      modifies this`unlockCounter
      ensures (unlocked, unlockCounter) == UnlockStep(old(unlockCounter), neededUnlocks)
      ensures unlocked <==> old(unlockCounter) + 1 == neededUnlocks
    {
      var i := unlockCounter + 1;
      unlockCounter := i;
      if i == neededUnlocks {
        unlockCounter := 0;
        return true;
      }
      return false;
    }

    /** addToQueue: one entry for a basic or draw task, `subtasks` entries
        for a split task; nothing else in the queue changes. */
    method AddToQueue(queue: TaskQueue)
      requires Valid()
      modifies queue
      ensures queue.items == old(queue.items) + Repeat(this, Copies())
    {
      if kind == SplitTask {
        var i := 0;
        while i < subtasks
          invariant 0 <= i <= subtasks
          invariant queue.items == old(queue.items) + Repeat(this, i)
        {
          queue.Add(this);
          i := i + 1;
        }
      } else {
        queue.Add(this);
      }
    }

    /** run: for a split task, claims the next shard index (the argument of
        runSubtask); the caller's own logic is not modelled. A basic or draw
        task reports shard 0 and changes nothing. */
    method Run() returns (shard: int)
      modifies this`startCount
      ensures kind == SplitTask ==> (shard, startCount) == RunStep(old(startCount))
      ensures kind != SplitTask ==> shard == 0 && startCount == old(startCount)
    {
      if kind == SplitTask {
        shard := startCount;
        startCount := startCount + 1;
      } else {
        shard := 0;
      }
    }

    /** complete: always true for a basic or draw task, which changes
        nothing; for a split task true only on the call that reports the
        last shard, which resets both shard counters. */
    method Complete() returns (done: bool)
      modifies this`startCount, this`endCount
      ensures kind != SplitTask ==> done && startCount == old(startCount) && endCount == old(endCount)
      ensures kind == SplitTask ==> (done, startCount, endCount) == CompleteStep(old(startCount), old(endCount), subtasks)
    {
      if kind != SplitTask {
        return true;
      }
      var endID := endCount + 1;
      endCount := endID;
      if endID == subtasks {
        startCount := 0;
        endCount := 0;
        return true;
      }
      return false;
    }

    /** setSubtasks: rejects fewer than one subtask; otherwise replaces the
        count. The shard counters are not touched. */
    method SetSubtasks(count: int) returns (r: Outcome)
      requires kind == SplitTask
      modifies this`subtasks
      ensures count < 1 <==> r == Fail(SubtasksBelowOne(count))
      ensures r.Pass? ==> Valid() && GetSubtasks() == count
      ensures r.Fail? ==> subtasks == old(subtasks)
    {
      if count < 1 {
        return Fail(SubtasksBelowOne(count));
      }
      subtasks := count;
      r := Pass;
    }

    /** getSubtasks: the number of shards, at least one. */
    function GetSubtasks(): (k: int)
      requires kind == SplitTask && Valid()
      reads this
      ensures k >= 1
      ensures k == Copies()
    {
      subtasks
    }

    /** compareTo, in the form the queue and the sorts use: negative exactly
        when this task has the higher priority. */
    function CompareTo(other: Task): (r: int)
      ensures r < 0 <==> priority > other.priority
      ensures r > 0 <==> priority < other.priority
    {
      ComparePriorities(priority, other.priority)
    }
  }

  /** The java.util.PriorityQueue<Task> that addToQueue() fills and the
      executor drains; its head is a task of the highest priority. */
  class TaskQueue {
    var items: seq<Task>

    constructor()
      ensures items == []
    {
      items := [];
    }

    /** add: inserts one entry. */
    method Add(t: Task)
      modifies this
      ensures items == old(items) + [t]
    {
      items := items + [t];
    }

    /** poll: null on an empty queue; otherwise removes and returns one entry
        of the highest priority. */
    method Poll() returns (t: Task?)
      modifies this
      ensures old(items) == [] <==> t == null
      ensures t == null ==> items == old(items)
      ensures t != null ==> t in old(items) && multiset(items) == multiset(old(items)) - multiset{t}
      ensures t != null ==> forall u :: u in old(items) ==> u.priority <= t.priority
    {
      if items == [] {
        return null;
      }
      var best := 0;
      var k := 1;
      while k < |items|
        invariant 0 <= best < k <= |items|
        invariant forall m :: 0 <= m < k ==> items[m].priority <= items[best].priority
      {
        if items[k].CompareTo(items[best]) < 0 {
          best := k;
        }
        k := k + 1;
      }
      t := items[best];
      RemoveAt(items, best);
      items := items[..best] + items[best + 1..];
    }
  }

  lemma RemoveAt<T>(s: seq<T>, i: int)
    requires 0 <= i < |s|
    ensures multiset(s[..i] + s[i + 1..]) == multiset(s) - multiset{s[i]}
  {
    assert s == s[..i] + [s[i]] + s[i + 1..];
  }

  /** What build() hands to an executor: the root tasks, sorted by
      priority, and how many tasks the tree holds. TaskTree.java is not part
      of this model; its two getters are these two fields. */
  datatype TaskTree = TaskTree(rootTasks: seq<Task>, totalTasks: int)
}

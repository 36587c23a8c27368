/** SingleThreadExecutor: runs a task tree in the calling thread. The roots
    are queued, then the queue is drained: each polled entry is run, asked
    whether it is complete, and when it is, finished and its successors
    unlocked, each entering the queue when its unlock fires.

    The class works on the heap (the tasks' counters and the queue); every
    method mirrors one function of the Schedule module, so that what
    Schedule proves about the drain loop holds of the run. */
module SingleThreading {
  import opened Tasks
  import opened Schedule

  /** The graph g is the one the tasks describe: their successor lists,
      fan-ins and queue-entry counts, the fields the run reads and never
      writes. */
  ghost predicate Frozen(g: Graph)
    reads set t | t in g.all
  {
    forall t :: t in g.all ==> Describes(g, t)
  }

  ghost predicate Describes(g: Graph, t: Task)
    reads t`unlockedTasks, t`neededUnlocks, t`subtasks
  {
    t in g.succ && t in g.needed && t in g.copies
    && t.unlockedTasks == g.succ[t] && t.neededUnlocks == g.needed[t] && t.Copies() == g.copies[t] && t.Valid()
  }

  /** Every task's counters are the ones ctr gives it. */
  ghost predicate Tracks(g: Graph, ctr: map<Task, Counters>)
    reads set t | t in g.all
  {
    forall t :: t in g.all ==> t in ctr && HasCounters(t, ctr[t])
  }

  /** Changing one task's counters changes one entry of what is tracked. */
  lemma TracksUpdate(g: Graph, ctr: map<Task, Counters>, u: Task, c: Counters)
    requires forall t :: t in g.all && t != u ==> t in ctr && HasCounters(t, ctr[t])
    requires HasCounters(u, c)
    ensures Tracks(g, ctr[u := c])
  {
  }

  /** Task t still waits for unlock() calls after trace, and its
      unlockCounter holds the ones it did receive: its fan-in less the
      entries for it in the successor lists of unfinished tasks. */
  ghost predicate Awaits(g: Graph, trace: seq<Event>, t: Task)
    requires WellFormed(g)
    reads t`unlockCounter, t`neededUnlocks
  {
    0 < Pend(g, trace, t) && t.unlockCounter == t.neededUnlocks - Pend(g, trace, t)
  }

  /** Task t's unlockCounter, startCount and endCount are c. */
  ghost predicate HasCounters(t: Task, c: Counters)
    reads t`unlockCounter, t`startCount, t`endCount
  {
    c == Counters(t.unlockCounter, t.startCount, t.endCount)
  }

  class SingleThreadExecutor {
    const taskQueue: TaskQueue

    /** Between runs the queue is empty. */
    ghost predicate Idle()
      reads this, taskQueue
    {
      taskQueue.items == []
    }

    /** The heap agrees with the model state s: the queue holds s's entries
        and every task's counters are s's counters. */
    ghost predicate Mirrors(g: Graph, s: Exec)
      reads this, taskQueue, set t | t in g.all
    {
      multiset(taskQueue.items) == s.queue && Tracks(g, s.ctr)
    }

    constructor()
      ensures fresh(taskQueue) && Idle()
    {
      taskQueue := new TaskQueue();
    }

    /** The first loop of run(): addToQueue() for every root. */
    method Seed(ghost g: Graph, roots: seq<Task>)
      requires WellFormed(g) && Frozen(g) && Idle()
      requires forall t :: t in roots ==> t in g.all
      requires forall t :: t in g.all ==> t.AtRest()
      modifies taskQueue
      ensures Frozen(g) && Mirrors(g, Seeded(g, roots))
      ensures forall t :: t in g.all ==> t.requiredIDs == old(t.requiredIDs)
    {
      var i := 0;
      while i < |roots|
        invariant 0 <= i <= |roots|
        invariant taskQueue.items == Entries(roots[..i], g.copies)
      {
        assert roots[..i + 1][..i] == roots[..i];
        assert Describes(g, roots[i]);
        roots[i].AddToQueue(taskQueue);
        i := i + 1;
      }
      assert roots[..i] == roots;
    }

    /** One step of the inner loop of run(): unlock() a successor, and
        addToQueue() it when the unlock fires. */
    method UnlockOne(ghost g: Graph, ghost s: Exec, newTask: Task)
      requires WellFormed(g) && Frozen(g) && Mirrors(g, s) && newTask in g.all
      modifies taskQueue, newTask`unlockCounter
      ensures Frozen(g) && Mirrors(g, Unlock1(g, s, newTask))
    {
      assert Describes(g, newTask);
      var fired := newTask.Unlock();
      TracksUpdate(g, s.ctr, newTask, Unlock1(g, s, newTask).ctr[newTask]);
      if fired {
        newTask.AddToQueue(taskQueue);
      }
    }

    /** The inner loop of run(): unlock() every successor of a finished
        task, in list order, and addToQueue() those whose unlock fires. */
    method UnlockAll(ghost g: Graph, ghost s: Exec, newTasks: seq<Task>)
      requires WellFormed(g) && Frozen(g) && Mirrors(g, s)
      requires forall u :: u in newTasks ==> u in g.all
      modifies taskQueue, set t | t in g.all
      ensures Frozen(g) && Mirrors(g, Release(g, s, newTasks))
      ensures forall t :: t in g.all ==> t.requiredIDs == old(t.requiredIDs)
    {
      ghost var cur := s;
      var j := 0;
      while j < |newTasks|
        invariant 0 <= j <= |newTasks|
        invariant Frozen(g) && Mirrors(g, cur)
        invariant Release(g, cur, newTasks[j..]) == Release(g, s, newTasks)
        invariant forall t :: t in g.all ==> t.requiredIDs == old(t.requiredIDs)
      {
        var newTask := newTasks[j];
        assert newTasks[j..][0] == newTask && newTasks[j..][1..] == newTasks[j + 1..];
        UnlockOne(g, cur, newTask);
        cur := Unlock1(g, cur, newTask);
        j := j + 1;
      }
    }

    /** The polled task is one of s's entries, and the heap holds the rest
        of s's queue. */
    ghost predicate Waiting(g: Graph, s: Exec, task: Task)
      reads this, taskQueue, set t | t in g.all
    {
      task in s.queue && multiset(taskQueue.items) == s.queue - multiset{task} && Tracks(g, s.ctr)
    }

    /** poll() as the loop makes it: null exactly when s's queue is empty. */
    method Next(ghost g: Graph, ghost s: Exec) returns (task: Task?)
      requires Mirrors(g, s) && Frozen(g)
      modifies taskQueue
      ensures Frozen(g)
      ensures task == null <==> s.queue == multiset{}
      ensures task == null ==> Mirrors(g, s) && Idle()
      ensures task != null ==> Waiting(g, s, task)
      ensures task != null ==> forall u :: u in s.queue ==> u.priority <= task.priority
      ensures forall t :: t in g.all ==> t.requiredIDs == old(t.requiredIDs)
    {
      task := taskQueue.Poll();
    }

    /** run() and complete() on the polled task. */
    method RunAndComplete(ghost g: Graph, ghost s: Exec, task: Task) returns (shard: int, done: bool)
      requires WellFormed(g) && Frozen(g) && task in g.all
      requires Waiting(g, s, task)
      modifies task`startCount, task`endCount
      ensures Frozen(g) && Mirrors(g, AfterRun(g, s, task).0)
      ensures shard == PollTask(task.kind, s.ctr[task], g.copies[task]).shard
      ensures done == PollTask(task.kind, s.ctr[task], g.copies[task]).done
    {
      assert Describes(g, task);
      shard := task.Run();
      done := task.Complete();
      TracksUpdate(g, s.ctr, task, AfterRun(g, s, task).0.ctr[task]);
    }

    /** The body of run()'s poll loop for the polled task: run(),
        complete(), and when complete, finish() and the unlock loop. The
        callbacks run() and finish() are recorded as events. */
    method RunOne(ghost g: Graph, ghost s: Exec, task: Task, trace: seq<Event>) returns (trace2: seq<Event>)
      requires WellFormed(g) && Frozen(g) && task in g.all && trace == s.trace
      requires Waiting(g, s, task)
      modifies taskQueue, set t | t in g.all
      ensures Frozen(g) && Mirrors(g, Step(g, s, task)) && trace2 == Step(g, s, task).trace
      ensures forall t :: t in g.all ==> t.requiredIDs == old(t.requiredIDs)
    {
      ghost var a := AfterRun(g, s, task).0;
      var shard, done := RunAndComplete(g, s, task);
      trace2 := trace + [Ran(task, shard)];
      if done {
        trace2 := trace2 + [Finished(task)];
        UnlockAll(g, a, task.unlockedTasks);
        ReleaseTrace(g, a, g.succ[task]);
      }
      assert trace2 == a.trace;
    }

    /** run(tree): queue the roots, then drain the queue. Returned are the
        run() and finish() callbacks in the order they were made. Every
        requirement holds before its task runs, each task finishes at most
        once and only right after its last shard, a task left unfinished
        never ran and waits on an unfinished task, and on a tree without
        requirement loops every task finishes and is left at rest, so the
        tree can be run again; that case is stated for g.all listed so that
        every successor follows the task listing it (Topological), which
        the caller can always choose when there is no loop, as nothing
        else depends on the order of g.all. The ghost polls and states record the loop:
        from the seeded state each iteration is Step on an entry of the
        highest priority in the queue of its state. */
    method Run(tree: TaskTree, ghost g: Graph) returns (trace: seq<Event>, ghost polls: seq<Taken>, ghost states: seq<Exec>)
      requires Idle() && Compiled(g, tree.rootTasks) && Frozen(g)
      requires forall t :: t in g.all ==> t.AtRest()
      modifies taskQueue, set t | t in g.all
      ensures Idle() && Frozen(g)
      ensures forall t :: t in g.all ==> t.requiredIDs == old(t.requiredIDs)
      ensures Ordered(trace, g.all, g.succ)
      ensures Replays(g, Seeded(g, tree.rootTasks), polls, states)
      ensures states[|polls|].queue == multiset{} && states[|polls|].trace == trace
      ensures ByPriority(polls) && PolledTasks(polls) == RanTasks(trace)
      ensures forall t :: t in g.all && Finished(t) in trace ==> ShardsOf(trace, t) == Range(0, t.Copies()) && t.AtRest()
      ensures forall t :: t in g.all && Finished(t) !in trace ==> ShardsOf(trace, t) == [] && t.startCount == t.endCount == 0
      ensures forall t :: t in g.all && Finished(t) !in trace ==> exists u :: u in g.all && t in u.unlockedTasks && Finished(u) !in trace
      ensures forall t :: t in g.all && Finished(t) !in trace ==> Awaits(g, trace, t)
      ensures Topological(g) ==> forall t :: t in g.all ==> Finished(t) in trace && t.AtRest()
    {
      Seed(g, tree.rootTasks);
      SeededInv(g, tree.rootTasks);
      var task := Next(g, Seeded(g, tree.rootTasks));
      ghost var s;
      trace, polls, states, s := Drain(g, Seeded(g, tree.rootTasks), task);
      Settled(g, s);
    }

    /** The poll loop of run(), from the first poll on: it stops with the
        queue empty, every poll having taken an entry of the highest
        priority then queued. */
    method Drain(ghost g: Graph, ghost s0: Exec, task0: Task?) returns (trace: seq<Event>, ghost polls: seq<Taken>, ghost states: seq<Exec>, ghost s: Exec)
      requires Inv(g, s0, []) && Frozen(g) && s0.trace == []
      requires task0 != null ==> Waiting(g, s0, task0) && forall u :: u in s0.queue ==> u.priority <= task0.priority
      requires task0 == null ==> Mirrors(g, s0) && s0.queue == multiset{} && Idle()
      modifies taskQueue, set t | t in g.all
      ensures Inv(g, s, []) && Frozen(g) && Mirrors(g, s) && s.queue == multiset{} && Idle()
      ensures forall t :: t in g.all ==> t.requiredIDs == old(t.requiredIDs)
      ensures trace == s.trace && Recorded(g, s0, polls, states, trace, s)
    {
      s := s0;
      trace := [];
      polls := [];
      states := [s0];
      var task := task0;
      while task != null
        invariant Frozen(g)
        invariant Inv(g, s, [])
        invariant trace == s.trace
        invariant forall t :: t in g.all ==> t.requiredIDs == old(t.requiredIDs)
        invariant Recorded(g, s0, polls, states, trace, s)
        invariant task != null ==> Waiting(g, s, task) && forall u :: u in s.queue ==> u.priority <= task.priority
        invariant task == null ==> Mirrors(g, s) && s.queue == multiset{} && Idle()
        decreases Work(g.all, g.copies, s.trace)
      {
        ghost var s' := Step(g, s, task);
        ghost var taken := Taken(task, s.queue);
        trace, task := Turn(g, s, task, trace, s0, polls, states);
        polls, states, s := polls + [taken], states + [s'], s';
      }
    }

    /** One iteration of run()'s poll loop, from the polled task to the
        next poll: the model's Step, with the invariant kept, one run()
        more, less work left, and the next entry of the highest priority. */
    method Turn(ghost g: Graph, ghost s: Exec, task: Task, trace: seq<Event>, ghost s0: Exec, ghost polls: seq<Taken>, ghost states: seq<Exec>)
      returns (trace2: seq<Event>, next: Task?)
      requires Inv(g, s, []) && Frozen(g) && trace == s.trace && Waiting(g, s, task)
      requires forall u :: u in s.queue ==> u.priority <= task.priority
      requires Recorded(g, s0, polls, states, trace, s)
      modifies taskQueue, set t | t in g.all
      ensures task in g.all && Inv(g, Step(g, s, task), []) && Frozen(g)
      ensures forall t :: t in g.all ==> t.requiredIDs == old(t.requiredIDs)
      ensures trace2 == Step(g, s, task).trace && RanTasks(trace2) == RanTasks(trace) + [task]
      ensures Recorded(g, s0, polls + [Taken(task, s.queue)], states + [Step(g, s, task)], trace2, Step(g, s, task))
      ensures 0 <= Work(g.all, g.copies, trace2) < Work(g.all, g.copies, trace)
      ensures next == null ==> Mirrors(g, Step(g, s, task)) && Step(g, s, task).queue == multiset{} && Idle()
      ensures next != null ==> Waiting(g, Step(g, s, task), next)
      ensures next != null ==> forall u :: u in Step(g, s, task).queue ==> u.priority <= next.priority
    {
      StepProgress(g, s, task);
      StepKeeps(g, s, task);
      StepRuns(g, s, task);
      RecordedStep(g, s0, polls, states, trace, s, task, Step(g, s, task).trace);
      trace2 := RunOne(g, s, task, trace);
      next := Next(g, Step(g, s, task));
    }

    /** What a drained queue means for the tasks on the heap. */
    lemma Settled(g: Graph, s: Exec)
      requires Inv(g, s, []) && s.queue == multiset{} && Frozen(g) && Mirrors(g, s)
      ensures forall t :: t in g.all && Finished(t) in s.trace ==> ShardsOf(s.trace, t) == Range(0, t.Copies()) && t.AtRest()
      ensures forall t :: t in g.all && Finished(t) !in s.trace ==> ShardsOf(s.trace, t) == [] && t.startCount == t.endCount == 0
      ensures forall t :: t in g.all && Finished(t) !in s.trace ==> exists u :: u in g.all && t in u.unlockedTasks && Finished(u) !in s.trace
      ensures forall t :: t in g.all && Finished(t) !in s.trace ==> Awaits(g, s.trace, t)
      ensures Topological(g) ==> forall t :: t in g.all ==> Finished(t) in s.trace && t.AtRest()
    {
      forall t | t in g.all
        ensures Finished(t) in s.trace ==> ShardsOf(s.trace, t) == Range(0, t.Copies()) && t.AtRest()
        ensures Finished(t) !in s.trace ==> ShardsOf(s.trace, t) == [] && t.startCount == t.endCount == 0
        ensures Finished(t) !in s.trace ==> exists u :: u in g.all && t in u.unlockedTasks && Finished(u) !in s.trace
        ensures Finished(t) !in s.trace ==> Awaits(g, s.trace, t)
      {
        SettledTask(g, s, t);
      }
      if Topological(g) {
        AcyclicFinishes(g, s);
      }
    }

    /** Drained, for one task on the heap. */
    lemma SettledTask(g: Graph, s: Exec, t: Task)
      requires Inv(g, s, []) && s.queue == multiset{} && t in g.all && Frozen(g) && HasCounters(t, s.ctr[t])
      ensures Finished(t) in s.trace ==> ShardsOf(s.trace, t) == Range(0, t.Copies()) && t.AtRest()
      ensures Finished(t) !in s.trace ==> ShardsOf(s.trace, t) == [] && t.startCount == t.endCount == 0
      ensures Finished(t) !in s.trace ==> exists u :: u in g.all && t in u.unlockedTasks && Finished(u) !in s.trace
      ensures Finished(t) !in s.trace ==> Awaits(g, s.trace, t)
    {
      Drained(g, s, t);
    }
  }
}

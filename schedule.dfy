/** The drain loop of the single-threaded executor as a state machine over
    values: the queue's entries, every task's run-scoped counters, and the
    callbacks made so far. One Step is one iteration of the poll loop: the
    polled task runs, complete() is asked whether it is done, and when it is,
    finish() runs and every successor is unlocked once per entry in the
    successor list, entering the queue when its unlock() fires.

    The lemmas prove what the loop promises on a compiled tree: every
    iteration keeps the invariant Inv, the loop terminates, tasks run only
    after everything they require has finished, finish() runs once per task
    and after all of its shards, and a requirement loop never runs. On an
    acyclic tree every task finishes and every counter is back at rest. */
module Schedule {
  import opened Tasks

  /** The callbacks the executor makes: run() for one queue entry (with
      the shard index a split task passes to runSubtask(); 0 for a basic
      task), and finish() once complete() reports the task done. */
  datatype Event = Ran(task: Task, shard: int) | Finished(task: Task)

  /** The run-scoped counters of one task: unlockCounter, startCount and
      endCount. */
  datatype Counters = Counters(unlock: int, start: int, end: int)

  /** What the drain loop reads and never writes: the tasks of the tree,
      their successor lists, fan-ins, and how many queue entries addToQueue()
      makes for each. */
  datatype Graph = Graph(all: seq<Task>, succ: map<Task, seq<Task>>, needed: map<Task, int>, copies: map<Task, int>)

  /** The state at the head of an iteration. */
  datatype Exec = Exec(queue: multiset<Task>, ctr: map<Task, Counters>, trace: seq<Event>)

  /** The tasks are distinct, every map covers them, a basic task makes one
      queue entry and a split task at least one, and successor lists stay
      inside the tree. */
  ghost predicate WellFormed(g: Graph)
  {
    Distinct(g.all)
    && (forall t :: t in g.all ==> t in g.succ && t in g.needed && t in g.copies)
    && (forall t :: t in g.all ==> g.copies[t] >= 1 && (t.kind != SplitTask ==> g.copies[t] == 1))
    && (forall t, u :: t in g.all && u in g.succ[t] ==> u in g.all)
  }

  // ---------------------------------------------------------------------
  // Pending unlocks
  // ---------------------------------------------------------------------

  /** The successor entries of the tasks us, with multiplicity: how many
      unlock() calls each task receives when all of us finish. */
  function Flat(us: seq<Task>, succ: map<Task, seq<Task>>): multiset<Task>
    requires forall u :: u in us ==> u in succ
  {
    if us == [] then multiset{} else multiset(succ[us[0]]) + Flat(us[1..], succ)
  }

  /** The tasks of ts that have not finished in trace, in order. */
  function Unfinished(ts: seq<Task>, trace: seq<Event>): (r: seq<Task>)
    ensures forall u :: u in r ==> u in ts && Finished(u) !in trace
    ensures forall u :: u in ts && Finished(u) !in trace ==> u in r
  {
    if ts == [] then []
    else (if Finished(ts[0]) in trace then [] else [ts[0]]) + Unfinished(ts[1..], trace)
  }

  /** The unlock() calls task t still has to receive in this run. */
  function Pend(g: Graph, trace: seq<Event>, t: Task): nat
    requires WellFormed(g)
  {
    Flat(Unfinished(g.all, trace), g.succ)[t]
  }

  /** The in-degree of t: its entries over all successor lists. */
  function InDegree(g: Graph, t: Task): nat
    requires WellFormed(g)
  {
    Flat(g.all, g.succ)[t]
  }

  lemma {:induction false} UnfinishedAtStart(ts: seq<Task>)
    ensures Unfinished(ts, []) == ts
  {
    if ts != [] {
      UnfinishedAtStart(ts[1..]);
      assert ts == [ts[0]] + ts[1..];
    }
  }

  lemma {:induction false} UnfinishedAfterRun(ts: seq<Task>, trace: seq<Event>, e: Event)
    requires e.Ran?
    ensures Unfinished(ts, trace + [e]) == Unfinished(ts, trace)
  {
    if ts != [] {
      UnfinishedAfterRun(ts[1..], trace, e);
      assert (Finished(ts[0]) in trace + [e]) == (Finished(ts[0]) in trace);
    }
  }

  lemma {:induction false} UnfinishedOther(ts: seq<Task>, trace: seq<Event>, t: Task)
    requires t !in ts
    ensures Unfinished(ts, trace + [Finished(t)]) == Unfinished(ts, trace)
  {
    if ts != [] {
      UnfinishedOther(ts[1..], trace, t);
      assert (Finished(ts[0]) in trace + [Finished(t)]) == (Finished(ts[0]) in trace);
    }
  }

  /** When t finishes, the pending unlocks drop by exactly t's successor
      entries. */
  lemma {:induction false} FinishReleases(ts: seq<Task>, succ: map<Task, seq<Task>>, trace: seq<Event>, t: Task)
    requires Distinct(ts) && t in ts && Finished(t) !in trace
    requires forall u :: u in ts ==> u in succ
    ensures Flat(Unfinished(ts, trace), succ) == Flat(Unfinished(ts, trace + [Finished(t)]), succ) + multiset(succ[t])
  {
    if ts[0] == t {
      FinishReleasesHere(ts, succ, trace, t);
    } else {
      DistinctTail(ts);
      FinishReleases(ts[1..], succ, trace, t);
      FinishReleasesLater(ts, succ, trace, t);
    }
  }

  lemma FinishReleasesHere(ts: seq<Task>, succ: map<Task, seq<Task>>, trace: seq<Event>, t: Task)
    requires Distinct(ts) && ts != [] && ts[0] == t && Finished(t) !in trace
    requires forall u :: u in ts ==> u in succ
    ensures Flat(Unfinished(ts, trace), succ) == Flat(Unfinished(ts, trace + [Finished(t)]), succ) + multiset(succ[t])
  {
    var after := trace + [Finished(t)];
    var u := Unfinished(ts[1..], trace);
    assert t !in ts[1..] by {
      forall i | 0 <= i < |ts[1..]|
        ensures ts[1..][i] != t
      {
        assert ts[1..][i] == ts[i + 1];
      }
    }
    UnfinishedOther(ts[1..], trace, t);
    assert Finished(t) in after;
    assert Unfinished(ts, after) == u;
    assert Unfinished(ts, trace) == [t] + u;
    assert ([t] + u)[0] == t && ([t] + u)[1..] == u;
    assert Flat([t] + u, succ) == multiset(succ[t]) + Flat(u, succ);
  }

  lemma FinishReleasesLater(ts: seq<Task>, succ: map<Task, seq<Task>>, trace: seq<Event>, t: Task)
    requires ts != [] && ts[0] != t && t in succ
    requires forall u :: u in ts ==> u in succ
    requires Flat(Unfinished(ts[1..], trace), succ) == Flat(Unfinished(ts[1..], trace + [Finished(t)]), succ) + multiset(succ[t])
    ensures Flat(Unfinished(ts, trace), succ) == Flat(Unfinished(ts, trace + [Finished(t)]), succ) + multiset(succ[t])
  {
    var after := trace + [Finished(t)];
    var h := ts[0];
    var u, v := Unfinished(ts[1..], trace), Unfinished(ts[1..], after);
    assert (Finished(h) in after) == (Finished(h) in trace);
    if Finished(h) in trace {
      assert Unfinished(ts, trace) == u;
      assert Unfinished(ts, after) == v;
    } else {
      assert Unfinished(ts, trace) == [h] + u;
      assert Unfinished(ts, after) == [h] + v;
      assert ([h] + u)[0] == h && ([h] + u)[1..] == u;
      assert ([h] + v)[0] == h && ([h] + v)[1..] == v;
      assert Flat([h] + u, succ) == multiset(succ[h]) + Flat(u, succ);
      assert Flat([h] + v, succ) == multiset(succ[h]) + Flat(v, succ);
    }
  }

  lemma DistinctTail<T>(s: seq<T>)
    requires Distinct(s) && s != []
    ensures Distinct(s[1..])
  {
    forall i, j | 0 <= i < j < |s[1..]|
      ensures s[1..][i] != s[1..][j]
    {
      assert s[1..][i] == s[i + 1] && s[1..][j] == s[j + 1];
    }
  }

  /** A task is pending exactly when some task among us lists it. */
  lemma {:induction false} FlatMembers(us: seq<Task>, succ: map<Task, seq<Task>>, x: Task)
    requires forall u :: u in us ==> u in succ
    ensures Flat(us, succ)[x] > 0 <==> exists u :: u in us && x in succ[u]
  {
    if us != [] {
      FlatMembers(us[1..], succ, x);
      if x in succ[us[0]] {
        assert multiset(succ[us[0]])[x] > 0;
      }
      forall u | u in us[1..]
        ensures u in us
      {
      }
      if exists u :: u in us && x in succ[u] {
        var u :| u in us && x in succ[u];
        if u != us[0] {
          assert u in us[1..];
        }
      }
    }
  }

  // ---------------------------------------------------------------------
  // The trace
  // ---------------------------------------------------------------------

  /** The shard indices run() reported for task t, in order. */
  function ShardsOf(trace: seq<Event>, t: Task): seq<int>
  {
    if trace == [] then []
    else
      var e := trace[|trace| - 1];
      ShardsOf(trace[..|trace| - 1], t) + (if e.Ran? && e.task == t then [e.shard] else [])
  }

  lemma ShardsAppend(trace: seq<Event>, e: Event, t: Task)
    ensures ShardsOf(trace + [e], t) == ShardsOf(trace, t) + (if e.Ran? && e.task == t then [e.shard] else [])
  {
    assert (trace + [e])[..|trace|] == trace;
  }

  /** What the callbacks of a run respect, whatever the tree: a task runs
      only after every task listing it as a successor has finished; finish()
      directly follows a run() of the same task; after finish() a task
      neither runs nor finishes again. */
  ghost predicate Ordered(trace: seq<Event>, all: seq<Task>, succ: map<Task, seq<Task>>)
    requires forall u :: u in all ==> u in succ
  {
    RunsAfterPredecessors(trace, all, succ) && FinishFollowsRun(trace) && FinishIsLast(trace)
  }

  ghost predicate RunsAfterPredecessors(trace: seq<Event>, all: seq<Task>, succ: map<Task, seq<Task>>)
    requires forall u :: u in all ==> u in succ
  {
    forall k, u :: 0 <= k < |trace| && trace[k].Ran? && u in all && trace[k].task in succ[u] ==> Finished(u) in trace[..k]
  }

  ghost predicate FinishFollowsRun(trace: seq<Event>)
  {
    forall m :: 0 <= m < |trace| && trace[m].Finished? ==> 0 < m && trace[m - 1].Ran? && trace[m - 1].task == trace[m].task
  }

  ghost predicate FinishIsLast(trace: seq<Event>)
  {
    forall i, j :: 0 <= i < j < |trace| && trace[i].Finished? ==> trace[j].task != trace[i].task
  }

  // ---------------------------------------------------------------------
  // The iteration
  // ---------------------------------------------------------------------

  /** The entries addToQueue() makes for the tasks ts, in order. */
  function Entries(ts: seq<Task>, copies: map<Task, int>): seq<Task>
    requires forall t :: t in ts ==> t in copies && copies[t] >= 0
  {
    if ts == [] then [] else Entries(ts[..|ts| - 1], copies) + Repeat<Task>(ts[|ts| - 1], copies[ts[|ts| - 1]])
  }

  /** Every counter at rest. */
  function AtRest(ts: seq<Task>): map<Task, Counters>
  {
    map t | t in ts :: Counters(0, 0, 0)
  }

  /** The state after the roots have been queued. */
  function Seeded(g: Graph, roots: seq<Task>): Exec
    requires WellFormed(g) && forall t :: t in roots ==> t in g.all
  {
    Exec(multiset(Entries(roots, g.copies)), AtRest(g.all), [])
  }

  /** The trace after one poll of t: its run(), then finish() when done. */
  function Extend(trace: seq<Event>, t: Task, shard: int, done: bool): seq<Event>
  {
    trace + [Ran(t, shard)] + (if done then [Finished(t)] else [])
  }

  /** What one poll of a task does to its counters: run() claims a shard
      (always 0 for a task that is not split), then complete() answers. */
  datatype Polled = Polled(shard: int, ctr: Counters, done: bool)

  function PollTask(kind: Kind, c: Counters, k: int): Polled
  {
    var (shard, start1) := if kind == SplitTask then RunStep(c.start) else (0, c.start);
    var (done, start2, end2) := if kind == SplitTask then CompleteStep(start1, c.end, k) else (true, start1, c.end);
    Polled(shard, Counters(c.unlock, start2, end2), done)
  }

  /** With both shard counters at the number of runs so far, a poll hands
      out exactly that shard, is done exactly on the last copy, and leaves
      both counters at the new number of runs, or at 0 when done. */
  lemma PollFollowsRuns(kind: Kind, c: Counters, k: int, r: int)
    requires c.start == c.end == r && 0 <= r < k && (kind != SplitTask ==> k == 1)
    ensures PollTask(kind, c, k).shard == r
    ensures PollTask(kind, c, k).done <==> r + 1 == k
    ensures PollTask(kind, c, k).ctr.unlock == c.unlock
    ensures PollTask(kind, c, k).ctr.start == PollTask(kind, c, k).ctr.end == if r + 1 == k then 0 else r + 1
  {
  }

  /** One poll of t: run(), then complete(), and finish() when complete()
      says so. The second component is complete()'s answer. */
  function AfterRun(g: Graph, s: Exec, t: Task): (Exec, bool)
    requires WellFormed(g) && t in g.all && t in s.ctr
  {
    var p := PollTask(t.kind, s.ctr[t], g.copies[t]);
    (Exec(s.queue - multiset{t}, s.ctr[t := p.ctr], Extend(s.trace, t, p.shard, p.done)), p.done)
  }

  /** One unlock() of u, and u's addToQueue() when it fires. */
  function Unlock1(g: Graph, s: Exec, u: Task): Exec
    requires WellFormed(g) && u in g.all && u in s.ctr
  {
    var c := s.ctr[u];
    var (fired, next) := UnlockStep(c.unlock, g.needed[u]);
    var queue := if fired then s.queue + multiset(Repeat<Task>(u, g.copies[u])) else s.queue;
    Exec(queue, s.ctr[u := c.(unlock := next)], s.trace)
  }

  /** The unlock loop over a finished task's successor list. */
  function Release(g: Graph, s: Exec, us: seq<Task>): Exec
    requires WellFormed(g) && forall u :: u in us ==> u in g.all && u in s.ctr
    decreases |us|
  {
    if us == [] then s
    else
      var s1 := Unlock1(g, s, us[0]);
      assert forall u :: u in us[1..] ==> u in us;
      Release(g, s1, us[1..])
  }

  /** One iteration of the poll loop for polled task t. */
  function Step(g: Graph, s: Exec, t: Task): Exec
    requires WellFormed(g) && t in g.all && (forall u :: u in g.all ==> u in s.ctr)
  {
    var (a, done) := AfterRun(g, s, t);
    if done then Release(g, a, g.succ[t]) else a
  }

  // ---------------------------------------------------------------------
  // The invariant
  // ---------------------------------------------------------------------

  /** The state of one task, where rest lists the unlock() calls of the
      current unlock loop not made yet. While calls are pending (p > 0) the
      task has never been queued and its unlock counter is the fan-in less
      the pending calls; once none is (p == 0) it has been queued exactly
      once, its queue entries and runs add up to its copies, it has finished
      exactly when every copy has run, and its shard counters follow its
      runs. */
  ghost predicate TaskOK(g: Graph, s: Exec, rest: seq<Task>, t: Task)
    requires WellFormed(g) && t in g.all && t in s.ctr
  {
    Consistent(g, t, Pend(g, s.trace, t) + multiset(rest)[t], |ShardsOf(s.trace, t)|, s.ctr[t], Finished(t) in s.trace, s.queue[t])
  }

  /** TaskOK in terms of task t's pending unlock() calls p, runs r,
      counters c, whether it has finished, and its queue entries q. */
  ghost predicate Consistent(g: Graph, t: Task, p: int, r: int, c: Counters, fin: bool, q: int)
    requires WellFormed(g) && t in g.all
  {
    if p > 0 then
      c == Counters(g.needed[t] - p, 0, 0) && g.needed[t] - p >= 0 && q == 0 && r == 0 && !fin
    else
      c.unlock == 0 && q + r == g.copies[t] && (fin <==> r == g.copies[t])
      && c.start == c.end == (if fin then 0 else r)
  }

  ghost predicate Inv(g: Graph, s: Exec, rest: seq<Task>)
  {
    WellFormed(g)
    && (forall t :: t in g.all ==> t in s.ctr)
    && (forall t :: t in s.queue ==> t in g.all)
    && (forall t :: t in rest ==> t in g.all)
    && (forall e :: e in s.trace ==> e.task in g.all)
    && (forall t :: t in g.all ==> TaskOK(g, s, rest, t))
    && (forall t :: t in g.all ==> ShardsOf(s.trace, t) == Range(0, |ShardsOf(s.trace, t)|))
    && Ordered(s.trace, g.all, g.succ)
  }

  /** The tree the executor is given: well formed, roots distinct and
      exactly the tasks of fan-in 0, every fan-in equal to the in-degree. */
  ghost predicate Compiled(g: Graph, roots: seq<Task>)
  {
    WellFormed(g) && Distinct(roots)
    && (forall t :: t in roots ==> t in g.all)
    && (forall t :: t in g.all ==> (t in roots <==> g.needed[t] == 0))
    && (forall t :: t in g.all ==> g.needed[t] == InDegree(g, t))
  }

  // ---------------------------------------------------------------------
  // The unlock loop keeps the invariant
  // ---------------------------------------------------------------------

  /** One unlock() of the first successor still to be unlocked keeps the
      invariant, with that successor taken off the list. */
  lemma Unlock1Keeps(g: Graph, s: Exec, rest: seq<Task>)
    requires Inv(g, s, rest) && rest != []
    ensures Inv(g, Unlock1(g, s, rest[0]), rest[1..])
    ensures Unlock1(g, s, rest[0]).trace == s.trace
  {
    var u := rest[0];
    RestSplit(rest);
    forall x | x in g.all
      ensures TaskOK(g, Unlock1(g, s, u), rest[1..], x)
    {
      if x == u {
        Unlock1Self(g, s, rest);
      } else {
        Unlock1Other(g, s, rest, x);
      }
    }
    Unlock1Queue(g, s, u);
  }

  lemma RestSplit(rest: seq<Task>)
    requires rest != []
    ensures multiset(rest) == multiset{rest[0]} + multiset(rest[1..])
    ensures forall t :: t in rest[1..] ==> t in rest
  {
    assert rest == [rest[0]] + rest[1..];
  }

  /** One unlock() of u queues nothing but u. */
  lemma Unlock1Queue(g: Graph, s: Exec, u: Task)
    requires WellFormed(g) && u in g.all && u in s.ctr
    ensures forall x :: x in Unlock1(g, s, u).queue ==> x in s.queue || x == u
  {
    forall x | x in Unlock1(g, s, u).queue && x != u
      ensures x in s.queue
    {
      if UnlockStep(s.ctr[u].unlock, g.needed[u]).0 {
        assert x !in Repeat<Task>(u, g.copies[u]);
      }
    }
  }

  /** The successor unlocked: it fires exactly on its last pending call. */
  lemma Unlock1Self(g: Graph, s: Exec, rest: seq<Task>)
    requires WellFormed(g) && rest != [] && rest[0] in g.all && rest[0] in s.ctr
    requires multiset(rest) == multiset{rest[0]} + multiset(rest[1..])
    requires TaskOK(g, s, rest, rest[0])
    ensures TaskOK(g, Unlock1(g, s, rest[0]), rest[1..], rest[0])
  {
    var u := rest[0];
    var s1 := Unlock1(g, s, u);
    var fired := UnlockStep(s.ctr[u].unlock, g.needed[u]).0;
    if fired {
      var add: multiset<Task> := multiset(Repeat<Task>(u, g.copies[u]));
      RepeatCount(u, g.copies[u]);
      assert s1.queue == s.queue + add;
      assert s1.queue[u] == s.queue[u] + g.copies[u];
    }
    assert s1.ctr[u].unlock == UnlockStep(s.ctr[u].unlock, g.needed[u]).1;
  }

  /** Every other task is untouched by one unlock() of u. */
  lemma Unlock1Other(g: Graph, s: Exec, rest: seq<Task>, x: Task)
    requires WellFormed(g) && rest != [] && rest[0] in g.all && rest[0] in s.ctr && x != rest[0]
    requires multiset(rest) == multiset{rest[0]} + multiset(rest[1..])
    ensures Unlock1(g, s, rest[0]).queue[x] == s.queue[x]
    ensures x in g.all && x in s.ctr && TaskOK(g, s, rest, x) ==> TaskOK(g, Unlock1(g, s, rest[0]), rest[1..], x)
  {
    var u := rest[0];
    if UnlockStep(s.ctr[u].unlock, g.needed[u]).0 {
      assert x !in Repeat<Task>(u, g.copies[u]);
    }
  }

  /** The unlock loop makes no callback. */
  lemma {:induction false} ReleaseTrace(g: Graph, s: Exec, us: seq<Task>)
    requires WellFormed(g) && forall u :: u in us ==> u in g.all && u in s.ctr
    ensures Release(g, s, us).trace == s.trace
    ensures Release(g, s, us).ctr.Keys == s.ctr.Keys
    decreases |us|
  {
    if us != [] {
      assert forall u :: u in us[1..] ==> u in us;
      ReleaseTrace(g, Unlock1(g, s, us[0]), us[1..]);
    }
  }

  /** The whole unlock loop keeps the invariant and leaves the trace alone. */
  lemma {:induction false} ReleaseKeeps(g: Graph, s: Exec, us: seq<Task>)
    requires Inv(g, s, us)
    ensures Inv(g, Release(g, s, us), [])
    ensures Release(g, s, us).trace == s.trace
    decreases |us|
  {
    if us != [] {
      Unlock1Keeps(g, s, us);
      ReleaseKeeps(g, Unlock1(g, s, us[0]), us[1..]);
    }
  }

  // ---------------------------------------------------------------------
  // One poll keeps the invariant
  // ---------------------------------------------------------------------

  /** What one poll appends, seen from task x. */
  lemma ExtendSeen(trace: seq<Event>, t: Task, shard: int, done: bool, x: Task)
    ensures ShardsOf(Extend(trace, t, shard, done), x) == ShardsOf(trace, x) + (if x == t then [shard] else [])
    ensures Finished(x) in Extend(trace, t, shard, done) <==> Finished(x) in trace || (done && x == t)
  {
    var tr1 := trace + [Ran(t, shard)];
    ShardsAppend(trace, Ran(t, shard), x);
    if done {
      ShardsAppend(tr1, Finished(t), x);
      assert Extend(trace, t, shard, done) == tr1 + [Finished(t)];
    } else {
      assert Extend(trace, t, shard, done) == tr1;
    }
  }

  /** A queued task has no unlock() pending, has not finished, and its
      entries and runs add up to its copies. */
  lemma QueuedIsReady(g: Graph, s: Exec, t: Task)
    requires Inv(g, s, []) && t in s.queue
    ensures t in g.all && Pend(g, s.trace, t) == 0 && Finished(t) !in s.trace
    ensures s.ctr[t].unlock == 0 && s.queue[t] + |ShardsOf(s.trace, t)| == g.copies[t]
    ensures s.ctr[t].start == s.ctr[t].end == |ShardsOf(s.trace, t)|
  {
    assert TaskOK(g, s, [], t);
    var none: seq<Task> := [];
    assert multiset(none)[t] == 0;
  }

  /** When t's poll finishes it, the pending unlock() calls of every task
      drop by its entries in t's successor list, which the unlock loop then
      makes; otherwise they stay. */
  lemma PendAfterRun(g: Graph, trace: seq<Event>, t: Task, shard: int, done: bool)
    requires WellFormed(g) && t in g.all && Finished(t) !in trace
    ensures forall x :: Pend(g, Extend(trace, t, shard, done), x) + multiset(if done then g.succ[t] else [])[x] == Pend(g, trace, x)
  {
    var tr1 := trace + [Ran(t, shard)];
    UnfinishedAfterRun(g.all, trace, Ran(t, shard));
    if done {
      assert Finished(t) !in tr1;
      FinishReleases(g.all, g.succ, tr1, t);
      assert Extend(trace, t, shard, done) == tr1 + [Finished(t)];
    } else {
      assert Extend(trace, t, shard, done) == tr1;
    }
  }

  /** A task's runs only come after every task listing it has finished. */
  lemma ReadyPredecessors(g: Graph, trace: seq<Event>, t: Task)
    requires WellFormed(g) && Pend(g, trace, t) == 0
    ensures forall u :: u in g.all && t in g.succ[u] ==> Finished(u) in trace
  {
    var un := Unfinished(g.all, trace);
    FlatMembers(un, g.succ, t);
  }

  /** One poll keeps the ordering of the callbacks. */
  lemma ExtendOrdered(g: Graph, trace: seq<Event>, t: Task, shard: int, done: bool)
    requires WellFormed(g) && t in g.all
    requires Ordered(trace, g.all, g.succ) && Finished(t) !in trace
    requires forall u :: u in g.all && t in g.succ[u] ==> Finished(u) in trace
    ensures Ordered(Extend(trace, t, shard, done), g.all, g.succ)
  {
    var tr := Extend(trace, t, shard, done);
    var n := |trace|;
    assert tr[..n] == trace;
    assert tr[n] == Ran(t, shard);
    assert |tr| == if done then n + 2 else n + 1;
    forall k, u | 0 <= k < |tr| && tr[k].Ran? && u in g.all && tr[k].task in g.succ[u]
      ensures Finished(u) in tr[..k]
    {
      if k < n {
        assert tr[k] == trace[k] && tr[..k] == trace[..k];
      } else {
        assert k == n;
      }
    }
    forall m | 0 <= m < |tr| && tr[m].Finished?
      ensures 0 < m && tr[m - 1].Ran? && tr[m - 1].task == tr[m].task
    {
      if m < n {
        assert tr[m] == trace[m] && tr[m - 1] == trace[m - 1];
      } else {
        assert m == n + 1;
      }
    }
    forall i, j | 0 <= i < j < |tr| && tr[i].Finished?
      ensures tr[j].task != tr[i].task
    {
      assert i < n;
      assert tr[i] == trace[i];
      if j >= n {
        assert tr[j].task == t;
        assert trace[i] in trace;
      } else {
        assert tr[j] == trace[j];
      }
    }
  }

  /** The unlock() calls a poll leaves to the unlock loop. */
  function Unlocks(g: Graph, t: Task, done: bool): seq<Task>
    requires WellFormed(g) && t in g.all
  {
    if done then g.succ[t] else []
  }

  /** The polled task: one entry fewer, one run more, the counters follow,
      and it finishes on its last copy. */
  lemma AfterRunSelf(g: Graph, s: Exec, t: Task)
    requires WellFormed(g) && t in g.all && t in s.ctr && t in s.queue
    requires Pend(g, s.trace, t) == 0 && Finished(t) !in s.trace && s.ctr[t].unlock == 0
    requires s.queue[t] + |ShardsOf(s.trace, t)| == g.copies[t]
    requires s.ctr[t].start == s.ctr[t].end == |ShardsOf(s.trace, t)|
    requires ShardsOf(s.trace, t) == Range(0, |ShardsOf(s.trace, t)|)
    ensures TaskOK(g, AfterRun(g, s, t).0, Unlocks(g, t, AfterRun(g, s, t).1), t)
    ensures ShardsOf(AfterRun(g, s, t).0.trace, t) == Range(0, |ShardsOf(AfterRun(g, s, t).0.trace, t)|)
  {
    var r := |ShardsOf(s.trace, t)|;
    var p := PollTask(t.kind, s.ctr[t], g.copies[t]);
    PollFollowsRuns(t.kind, s.ctr[t], g.copies[t], r);
    var a := AfterRun(g, s, t).0;
    ExtendSeen(s.trace, t, p.shard, p.done, t);
    PendAfterRun(g, s.trace, t, p.shard, p.done);
    assert a.queue[t] == s.queue[t] - 1;
    RangeSnoc(0, r);
  }

  lemma RangeSnoc(lo: int, hi: int)
    requires lo <= hi
    ensures Range(lo, hi) + [hi] == Range(lo, hi + 1)
  {
    assert forall i :: 0 <= i < hi + 1 - lo ==> (Range(lo, hi) + [hi])[i] == lo + i;
  }

  /** Every other task: the same entries, counters and runs, and the
      unlock() calls the poll takes from its pending ones are the ones the
      unlock loop still has to make. */
  lemma AfterRunOther(g: Graph, s: Exec, t: Task, x: Task)
    requires WellFormed(g) && t in g.all && t in s.ctr && x in g.all && x in s.ctr && x != t
    requires Finished(t) !in s.trace && TaskOK(g, s, [], x)
    ensures TaskOK(g, AfterRun(g, s, t).0, Unlocks(g, t, AfterRun(g, s, t).1), x)
    ensures ShardsOf(AfterRun(g, s, t).0.trace, x) == ShardsOf(s.trace, x)
  {
    var p := PollTask(t.kind, s.ctr[t], g.copies[t]);
    var a := AfterRun(g, s, t).0;
    var rest: seq<Task> := Unlocks(g, t, AfterRun(g, s, t).1);
    assert rest == Unlocks(g, t, p.done);
    ExtendSeen(s.trace, t, p.shard, p.done, x);
    PendAfterRun(g, s.trace, t, p.shard, p.done);
    var none: seq<Task> := [];
    assert multiset(none)[x] == 0;
    assert Pend(g, a.trace, x) + multiset(rest)[x] == Pend(g, s.trace, x) + multiset(none)[x];
    assert |ShardsOf(a.trace, x)| == |ShardsOf(s.trace, x)|;
    assert a.queue[x] == s.queue[x] && a.ctr[x] == s.ctr[x];
    TaskOKTransfer(g, s, none, a, rest, x);
  }

  /** TaskOK depends only on the task's pending calls, runs, counters,
      finish and queue entries. */
  lemma TaskOKTransfer(g: Graph, s: Exec, rest: seq<Task>, s': Exec, rest': seq<Task>, x: Task)
    requires WellFormed(g) && x in g.all && x in s.ctr && x in s'.ctr && TaskOK(g, s, rest, x)
    requires Pend(g, s'.trace, x) + multiset(rest')[x] == Pend(g, s.trace, x) + multiset(rest)[x]
    requires |ShardsOf(s'.trace, x)| == |ShardsOf(s.trace, x)|
    requires (Finished(x) in s'.trace) == (Finished(x) in s.trace)
    requires s'.ctr[x] == s.ctr[x] && s'.queue[x] == s.queue[x]
    ensures TaskOK(g, s', rest', x)
  {
  }

  /** One poll keeps the invariant, with the unlock loop's calls still to
      make. */
  lemma AfterRunKeeps(g: Graph, s: Exec, t: Task)
    requires Inv(g, s, []) && t in s.queue
    ensures t in g.all
    ensures Inv(g, AfterRun(g, s, t).0, Unlocks(g, t, AfterRun(g, s, t).1))
  {
    QueuedIsReady(g, s, t);
    var p := PollTask(t.kind, s.ctr[t], g.copies[t]);
    var a := AfterRun(g, s, t).0;
    forall x | x in g.all
      ensures TaskOK(g, a, Unlocks(g, t, p.done), x)
      ensures ShardsOf(a.trace, x) == Range(0, |ShardsOf(a.trace, x)|)
    {
      if x == t {
        AfterRunSelf(g, s, t);
      } else {
        AfterRunOther(g, s, t, x);
      }
    }
    ReadyPredecessors(g, s.trace, t);
    ExtendOrdered(g, s.trace, t, p.shard, p.done);
    ExtendTasks(s.trace, t, p.shard, p.done);
  }

  lemma ExtendTasks(trace: seq<Event>, t: Task, shard: int, done: bool)
    ensures forall e :: e in Extend(trace, t, shard, done) ==> e in trace || e.task == t
  {
    forall e | e in Extend(trace, t, shard, done)
      ensures e in trace || e.task == t
    {
      var i :| 0 <= i < |Extend(trace, t, shard, done)| && Extend(trace, t, shard, done)[i] == e;
      if i >= |trace| {
        assert e == Ran(t, shard) || e == Finished(t);
      } else {
        assert e == trace[i];
      }
    }
  }

  /** One whole iteration of the poll loop keeps the invariant. */
  lemma StepKeeps(g: Graph, s: Exec, t: Task)
    requires Inv(g, s, []) && t in s.queue
    ensures t in g.all
    ensures Inv(g, Step(g, s, t), [])
    ensures Step(g, s, t).trace == AfterRun(g, s, t).0.trace
  {
    AfterRunKeeps(g, s, t);
    var (a, done) := AfterRun(g, s, t);
    if done {
      ReleaseKeeps(g, a, g.succ[t]);
    }
  }

  // ---------------------------------------------------------------------
  // Priority order
  // ---------------------------------------------------------------------

  /** One poll of the loop: the entry taken, and the entries queued when it
      was taken (itself among them). */
  datatype Taken = Taken(task: Task, queue: multiset<Task>)

  /** Every poll took an entry of the highest priority then queued. */
  ghost predicate ByPriority(polls: seq<Taken>)
  {
    forall k :: 0 <= k < |polls| ==>
      polls[k].task in polls[k].queue && forall u :: u in polls[k].queue ==> u.priority <= polls[k].task.priority
  }

  /** The tasks run() was called on, in call order. */
  function RanTasks(trace: seq<Event>): seq<Task>
  {
    if trace == [] then []
    else
      var e := trace[|trace| - 1];
      RanTasks(trace[..|trace| - 1]) + (if e.Ran? then [e.task] else [])
  }

  /** The entries the polls took, in poll order. */
  function PolledTasks(polls: seq<Taken>): seq<Task>
  {
    if polls == [] then [] else PolledTasks(polls[..|polls| - 1]) + [polls[|polls| - 1].task]
  }

  /** One iteration calls run() exactly once, on the task polled. */
  lemma StepRuns(g: Graph, s: Exec, t: Task)
    requires WellFormed(g) && t in g.all && (forall u :: u in g.all ==> u in s.ctr)
    ensures RanTasks(Step(g, s, t).trace) == RanTasks(s.trace) + [t]
  {
    var (a, done) := AfterRun(g, s, t);
    if done {
      ReleaseTrace(g, a, g.succ[t]);
    }
    var p := PollTask(t.kind, s.ctr[t], g.copies[t]);
    var ran := s.trace + [Ran(t, p.shard)];
    assert ran[..|ran| - 1] == s.trace;
    assert RanTasks(ran) == RanTasks(s.trace) + [t];
    if p.done {
      var fin := ran + [Finished(t)];
      assert fin[..|fin| - 1] == ran;
      assert RanTasks(fin) == RanTasks(ran);
      assert Step(g, s, t).trace == fin;
    } else {
      assert Step(g, s, t).trace == ran;
    }
  }

  /** Recording one more poll of the highest priority entry keeps the
      record in step with the run() calls. */
  lemma TakenSnoc(polls: seq<Taken>, t: Task, queue: multiset<Task>)
    requires ByPriority(polls) && t in queue && forall u :: u in queue ==> u.priority <= t.priority
    ensures ByPriority(polls + [Taken(t, queue)])
    ensures PolledTasks(polls + [Taken(t, queue)]) == PolledTasks(polls) + [t]
  {
    assert (polls + [Taken(t, queue)])[..|polls|] == polls;
  }

  /** The polls replay the loop from s0: states[k] is the state at the
      k-th poll, polls[k] took its entry from that state's queue, and the
      iteration on that entry leads to states[k + 1]. */
  ghost predicate Replays(g: Graph, s0: Exec, polls: seq<Taken>, states: seq<Exec>)
    requires WellFormed(g)
  {
    |states| == |polls| + 1 && states[0] == s0
    && forall k :: 0 <= k < |polls| ==>
         polls[k].task in g.all && (forall u :: u in g.all ==> u in states[k].ctr)
         && polls[k].queue == states[k].queue && states[k + 1] == Step(g, states[k], polls[k].task)
  }

  /** One more iteration, on an entry taken from the last state's queue,
      extends the replay by that poll and the state Step leads to. */
  lemma ReplaysSnoc(g: Graph, s0: Exec, polls: seq<Taken>, states: seq<Exec>, t: Task)
    requires WellFormed(g) && Replays(g, s0, polls, states) && t in g.all
    requires forall u :: u in g.all ==> u in states[|polls|].ctr
    ensures Replays(g, s0, polls + [Taken(t, states[|polls|].queue)], states + [Step(g, states[|polls|], t)])
  {
    var s := states[|polls|];
    var polls', states' := polls + [Taken(t, s.queue)], states + [Step(g, s, t)];
    forall k | 0 <= k < |polls'|
      ensures polls'[k].task in g.all && (forall u :: u in g.all ==> u in states'[k].ctr)
      ensures polls'[k].queue == states'[k].queue && states'[k + 1] == Step(g, states'[k], polls'[k].task)
    {
      if k < |polls| {
        assert polls'[k] == polls[k] && states'[k] == states[k] && states'[k + 1] == states[k + 1];
      } else {
        assert polls'[k] == Taken(t, s.queue) && states'[k] == s && states'[k + 1] == Step(g, s, t);
      }
    }
  }

  /** The record of a loop run from s0 to s with callbacks trace: the
      polls replay the loop through states, each took an entry of the
      highest priority then queued, and they are the run() calls in
      order. */
  ghost predicate Recorded(g: Graph, s0: Exec, polls: seq<Taken>, states: seq<Exec>, trace: seq<Event>, s: Exec)
    requires WellFormed(g)
  {
    Replays(g, s0, polls, states) && states[|polls|] == s
    && ByPriority(polls) && PolledTasks(polls) == RanTasks(trace)
  }

  /** An iteration on an entry of the highest priority in s's queue
      extends the record by one poll. */
  lemma RecordedStep(g: Graph, s0: Exec, polls: seq<Taken>, states: seq<Exec>, trace: seq<Event>, s: Exec, t: Task, trace': seq<Event>)
    requires WellFormed(g) && Recorded(g, s0, polls, states, trace, s)
    requires t in g.all && (forall u :: u in g.all ==> u in s.ctr)
    requires t in s.queue && forall u :: u in s.queue ==> u.priority <= t.priority
    requires RanTasks(trace') == RanTasks(trace) + [t]
    ensures Recorded(g, s0, polls + [Taken(t, s.queue)], states + [Step(g, s, t)], trace', Step(g, s, t))
  {
    TakenSnoc(polls, t, s.queue);
    ReplaysSnoc(g, s0, polls, states, t);
  }

  // ---------------------------------------------------------------------
  // Termination
  // ---------------------------------------------------------------------

  /** The runs still owed: every task's copies less its runs so far. */
  function Work(ts: seq<Task>, copies: map<Task, int>, trace: seq<Event>): int
    requires forall t :: t in ts ==> t in copies
  {
    if ts == [] then 0 else copies[ts[0]] - |ShardsOf(trace, ts[0])| + Work(ts[1..], copies, trace)
  }

  lemma {:induction false} WorkNonNegative(ts: seq<Task>, copies: map<Task, int>, trace: seq<Event>)
    requires forall t :: t in ts ==> t in copies && |ShardsOf(trace, t)| <= copies[t]
    ensures Work(ts, copies, trace) >= 0
  {
    if ts != [] {
      WorkNonNegative(ts[1..], copies, trace);
    }
  }

  /** One more run of t, and none of anything else, lowers the work by one
      when t is among ts. */
  lemma {:induction false} WorkAfterRun(ts: seq<Task>, copies: map<Task, int>, trace: seq<Event>, trace2: seq<Event>, t: Task)
    requires Distinct(ts) && forall x :: x in ts ==> x in copies
    requires forall x :: x in ts && x != t ==> |ShardsOf(trace2, x)| == |ShardsOf(trace, x)|
    requires |ShardsOf(trace2, t)| == |ShardsOf(trace, t)| + 1
    ensures Work(ts, copies, trace2) == Work(ts, copies, trace) - (if t in ts then 1 else 0)
  {
    if ts != [] {
      DistinctTail(ts);
      WorkAfterRun(ts[1..], copies, trace, trace2, t);
      if ts[0] == t {
        assert t !in ts[1..] by {
          forall i | 0 <= i < |ts[1..]|
            ensures ts[1..][i] != t
          {
            assert ts[1..][i] == ts[i + 1];
          }
        }
      } else {
        assert (t in ts) == (t in ts[1..]);
      }
    }
  }

  /** No task has run more often than its copies. */
  lemma InvBoundsRuns(g: Graph, s: Exec, rest: seq<Task>)
    requires Inv(g, s, rest)
    ensures forall t :: t in g.all ==> t in g.copies && |ShardsOf(s.trace, t)| <= g.copies[t]
  {
    forall t | t in g.all
      ensures |ShardsOf(s.trace, t)| <= g.copies[t]
    {
      assert TaskOK(g, s, rest, t);
    }
  }

  /** Every iteration owes one run fewer, and what is owed is never
      negative: the poll loop terminates. */
  lemma StepProgress(g: Graph, s: Exec, t: Task)
    requires Inv(g, s, []) && t in s.queue
    ensures t in g.all
    ensures 0 <= Work(g.all, g.copies, Step(g, s, t).trace) < Work(g.all, g.copies, s.trace)
  {
    StepKeeps(g, s, t);
    QueuedIsReady(g, s, t);
    var p := PollTask(t.kind, s.ctr[t], g.copies[t]);
    var tr := Step(g, s, t).trace;
    assert tr == Extend(s.trace, t, p.shard, p.done);
    forall x | x in g.all
      ensures |ShardsOf(tr, x)| == |ShardsOf(s.trace, x)| + (if x == t then 1 else 0)
    {
      ExtendSeen(s.trace, t, p.shard, p.done, x);
    }
    WorkAfterRun(g.all, g.copies, s.trace, tr, t);
    InvBoundsRuns(g, Step(g, s, t), []);
    WorkNonNegative(g.all, g.copies, tr);
  }

  // ---------------------------------------------------------------------
  // The start of the loop
  // ---------------------------------------------------------------------

  lemma EntriesSnoc(ts: seq<Task>, copies: map<Task, int>)
    requires ts != [] && forall t :: t in ts ==> t in copies && copies[t] >= 0
    ensures forall t :: t in ts[..|ts| - 1] ==> t in ts
    ensures multiset(Entries(ts, copies)) == multiset(Entries(ts[..|ts| - 1], copies)) + multiset(Repeat<Task>(ts[|ts| - 1], copies[ts[|ts| - 1]]))
    ensures forall x :: x in ts <==> x in ts[..|ts| - 1] || x == ts[|ts| - 1]
  {
    assert ts == ts[..|ts| - 1] + [ts[|ts| - 1]];
  }

  /** addToQueue() over the distinct roots queues each root once per
      copy, and nothing else. */
  lemma {:induction false} EntriesCount(ts: seq<Task>, copies: map<Task, int>, x: Task)
    requires Distinct(ts) && forall t :: t in ts ==> t in copies && copies[t] >= 0
    ensures multiset(Entries(ts, copies))[x] == if x in ts then copies[x] else 0
  {
    if ts != [] {
      var init, last := ts[..|ts| - 1], ts[|ts| - 1];
      DistinctInit(ts);
      EntriesSnoc(ts, copies);
      EntriesCount(init, copies, x);
      RepeatCounts(last, copies[last], x);
    }
  }

  /** A compiled task starts out waiting for its whole fan-in, with its
      copies queued when it is a root. */
  lemma SeededTaskOK(g: Graph, roots: seq<Task>, x: Task)
    requires Compiled(g, roots) && x in g.all
    ensures TaskOK(g, Seeded(g, roots), [], x)
  {
    var s := Seeded(g, roots);
    UnfinishedAtStart(g.all);
    EntriesCount(roots, g.copies, x);
    var none: seq<Task> := [];
    assert multiset(none)[x] == 0;
    assert Pend(g, s.trace, x) == g.needed[x];
    assert s.ctr[x] == Counters(0, 0, 0);
  }

  /** The tree as compiled satisfies the invariant once the roots are
      queued: every task still waits for its whole fan-in, and the roots
      wait for nothing. */
  lemma SeededInv(g: Graph, roots: seq<Task>)
    requires Compiled(g, roots)
    ensures Inv(g, Seeded(g, roots), [])
  {
    var s := Seeded(g, roots);
    assert s.trace == [];
    forall x | x in g.all
      ensures TaskOK(g, s, [], x) && ShardsOf(s.trace, x) == Range(0, 0)
    {
      SeededTaskOK(g, roots, x);
    }
    forall x | x in s.queue
      ensures x in g.all
    {
      EntriesCount(roots, g.copies, x);
    }
  }

  // ---------------------------------------------------------------------
  // The end of the loop
  // ---------------------------------------------------------------------

  /** Once the queue is empty, a task has finished exactly when it has run
      all of its copies, with shards 0 to copies - 1 in order and its
      counters back at 0; a task that has not finished never ran, still
      waits for a task listing it that has not finished either, and keeps
      in its unlock counter the unlock() calls it did receive. */
  lemma Drained(g: Graph, s: Exec, t: Task)
    requires Inv(g, s, []) && s.queue == multiset{} && t in g.all
    ensures Finished(t) in s.trace ==> ShardsOf(s.trace, t) == Range(0, g.copies[t]) && s.ctr[t] == Counters(0, 0, 0)
    ensures Finished(t) !in s.trace ==> ShardsOf(s.trace, t) == [] && s.ctr[t].start == s.ctr[t].end == 0
    ensures Finished(t) !in s.trace ==> 0 < Pend(g, s.trace, t) && s.ctr[t].unlock == g.needed[t] - Pend(g, s.trace, t)
    ensures Finished(t) !in s.trace ==> exists u :: u in g.all && t in g.succ[u] && Finished(u) !in s.trace
  {
    assert TaskOK(g, s, [], t);
    var none: seq<Task> := [];
    assert multiset(none)[t] == 0;
    if Finished(t) !in s.trace {
      assert Pend(g, s.trace, t) > 0;
      FlatMembers(Unfinished(g.all, s.trace), g.succ, t);
    }
  }

  /** An order of the tasks in which every successor comes after the task
      listing it: the requirements have no loop. */
  ghost predicate Topological(g: Graph)
    requires WellFormed(g)
  {
    forall i, j :: 0 <= i < |g.all| && 0 <= j < |g.all| && g.all[j] in g.succ[g.all[i]] ==> i < j
  }

  lemma {:induction false} FinishedUpTo(g: Graph, s: Exec, n: nat)
    requires Inv(g, s, []) && s.queue == multiset{} && Topological(g) && n <= |g.all|
    ensures forall j :: 0 <= j < n ==> Finished(g.all[j]) in s.trace
  {
    if n > 0 {
      FinishedUpTo(g, s, n - 1);
      var t := g.all[n - 1];
      Drained(g, s, t);
      if Finished(t) !in s.trace {
        assert false;
      }
    }
  }

  /** On a tree without requirement loops, a drained queue means every
      task has finished after all of its shards, and every counter is back
      at rest. */
  lemma AcyclicFinishes(g: Graph, s: Exec)
    requires Inv(g, s, []) && s.queue == multiset{} && Topological(g)
    ensures forall t :: t in g.all ==> Finished(t) in s.trace && ShardsOf(s.trace, t) == Range(0, g.copies[t])
    ensures forall t :: t in g.all ==> s.ctr[t] == Counters(0, 0, 0)
  {
    FinishedUpTo(g, s, |g.all|);
    forall t | t in g.all
      ensures Finished(t) in s.trace && ShardsOf(s.trace, t) == Range(0, g.copies[t]) && s.ctr[t] == Counters(0, 0, 0)
    {
      Drained(g, s, t);
    }
  }

  /** A set of tasks each of which is listed by a member, with pred
      naming one such member for each: a requirement loop, or something
      waiting on one. */
  ghost predicate Blocked(g: Graph, c: set<Task>, pred: map<Task, Task>)
    requires WellFormed(g)
  {
    forall x :: x in c ==> x in pred && pred[x] in c && pred[x] in g.all && x in g.succ[pred[x]]
  }

  /** A run of a member needs its pred to have finished, so to have run,
      earlier. */
  lemma BlockedStep(g: Graph, trace: seq<Event>, c: set<Task>, pred: map<Task, Task>, k: nat)
    requires WellFormed(g) && RunsAfterPredecessors(trace, g.all, g.succ) && FinishFollowsRun(trace) && Blocked(g, c, pred)
    requires k < |trace| && trace[k].Ran? && trace[k].task in c
    ensures exists i :: 0 <= i < k && trace[i].Ran? && trace[i].task in c
  {
    var x := trace[k].task;
    var u := pred[x];
    assert u in g.all && x in g.succ[u];
    assert Finished(u) in trace[..k];
    var m :| 0 <= m < k && trace[..k][m] == Finished(u);
    assert trace[m] == Finished(u);
    assert trace[m - 1].Ran? && trace[m - 1].task == u;
  }

  /** Every run() of a member of c has an earlier run() of a member of c. */
  ghost predicate RunsFollow(trace: seq<Event>, c: set<Task>)
  {
    forall k :: 0 <= k < |trace| && trace[k].Ran? && trace[k].task in c ==>
      exists i :: 0 <= i < k && trace[i].Ran? && trace[i].task in c
  }

  /** With no first run() of a member of c, no member of c runs. */
  lemma {:induction false} BlockedNeverRunsUpTo(trace: seq<Event>, c: set<Task>, n: nat)
    requires RunsFollow(trace, c) && n <= |trace|
    ensures forall k :: 0 <= k < n && trace[k].Ran? ==> trace[k].task !in c
  {
    if n > 0 {
      BlockedNeverRunsUpTo(trace, c, n - 1);
      var k := n - 1;
      if trace[k].Ran? && trace[k].task in c {
        assert false;
      }
      forall j | 0 <= j < n && trace[j].Ran?
        ensures trace[j].task !in c
      {
        if j < k {
          assert trace[j].Ran?;
        }
      }
    }
  }

  /** Whatever the tree, a task in a requirement loop never runs and never
      finishes. */
  lemma BlockedNeverRuns(g: Graph, trace: seq<Event>, c: set<Task>, pred: map<Task, Task>)
    requires WellFormed(g) && Ordered(trace, g.all, g.succ) && Blocked(g, c, pred)
    ensures forall e :: e in trace ==> e.task !in c
  {
    forall k | 0 <= k < |trace| && trace[k].Ran? && trace[k].task in c
      ensures exists i :: 0 <= i < k && trace[i].Ran? && trace[i].task in c
    {
      BlockedStep(g, trace, c, pred, k);
    }
    BlockedNeverRunsUpTo(trace, c, |trace|);
    forall e | e in trace
      ensures e.task !in c
    {
      var k :| 0 <= k < |trace| && trace[k] == e;
      if e.Finished? {
        assert trace[k - 1].Ran? && trace[k - 1].task == e.task;
      }
    }
  }
}

/** From build() to run(): the tree build() returns, read as the graph the
    executor drains, meets everything run() assumes of it. Every task of the
    table is a node, its successor list and fan-in are the ones build()
    left, the roots are distinct and exactly the tasks of fan-in 0, and
    every fan-in equals the task's number of entries over all successor
    lists, so exactly the unlock() calls the run makes. This holds for a
    build() that starts from empty successor lists: a builder whose tasks
    were never built before, or were cleared. */
module Compilation {
  import opened Tasks
  import opened Schedule
  import opened TaskTreeBuilding

  /** The tasks of the table in iteration order. */
  function TasksIn(table: map<int, Task>, keys: seq<int>): (r: seq<Task>)
    requires forall k :: k in keys ==> k in table
    ensures |r| == |keys| && forall i :: 0 <= i < |keys| ==> keys[i] in table && r[i] == table[keys[i]]
  {
    if keys == [] then []
    else
      KeysSplit(table, keys);
      [table[keys[0]]] + TasksIn(table, keys[1..])
  }

  lemma KeysSplit(table: map<int, Task>, keys: seq<int>)
    requires keys != [] && forall k :: k in keys ==> k in table
    ensures keys[0] in table && forall k :: k in keys[1..] ==> k in table
  {
    var k0 := keys[0];
    assert k0 in keys;
    forall k | k in keys[1..]
      ensures k in table
    {
      assert k in keys;
    }
  }

  /** The graph g is the tree a build of the table in order keys leaves:
      its nodes are the table's tasks, its successor lists and fan-ins
      are the lists and fan-ins after the build. */
  ghost predicate GraphOf(g: Graph, table: map<int, Task>, keys: seq<int>, lists: map<int, seq<Task>>, needed: map<int, int>)
    requires forall k :: k in keys ==> k in table
  {
    g.all == TasksIn(table, keys)
    && forall t :: t in g.all ==>
         t in g.succ && t in g.needed && t.id in lists && t.id in needed
         && g.succ[t] == lists[t.id] && g.needed[t] == needed[t.id]
  }

  /** A build that produced a tree from empty successor lists leaves a
      graph run() accepts. */
  lemma BuiltIsCompiled(table: map<int, Task>, keys: seq<int>, req: map<int, seq<int>>, start: map<int, seq<Task>>, needed: map<int, int>,
                        r: BuildResult, visited: seq<int>, done: seq<int>, lists: map<int, seq<Task>>, needed': map<int, int>, g: Graph)
    requires Keyed(table) && Distinct(keys) && forall k :: k in keys <==> k in table
    requires BuildSpec(table, keys, req, start, needed, r, visited, done, lists, needed') && r.Built?
    requires forall k :: k in table ==> k in start && start[k] == []
    requires GraphOf(g, table, keys, lists, needed')
    requires forall t :: t in g.all ==> t in g.copies && g.copies[t] >= 1 && (t.kind != SplitTask ==> g.copies[t] == 1)
    ensures Compiled(g, r.tree.rootTasks)
  {
    TasksInKeyed(table, keys);
    forall t | t in g.all
      ensures multiset(g.succ[t]) == multiset(Requesters(table, req, keys, t.id))
    {
      var k := t.id;
      assert start[k] + Requesters(table, req, keys, k) == Requesters(table, req, keys, k);
      PrioritySortedSpec(Requesters(table, req, keys, k));
    }
    SuccessorsInTree(table, keys, req, g);
    assert WellFormed(g);
    RootsOfBuild(table, keys, req, g, r.tree.rootTasks);
    forall t | t in g.all
      ensures g.needed[t] == InDegree(g, t)
    {
      FanInIsInDegree(table, keys, req, g, t);
    }
  }

  /** Each task of the table appears once among its tasks, at its key. */
  lemma TasksInKeyed(table: map<int, Task>, keys: seq<int>)
    requires Keyed(table) && Distinct(keys) && forall k :: k in keys ==> k in table
    ensures Distinct(TasksIn(table, keys))
    ensures forall t :: t in TasksIn(table, keys) <==> t.id in keys && t.id in table && table[t.id] == t
  {
    var ts := TasksIn(table, keys);
    forall t | t in ts
      ensures t.id in keys && t.id in table && table[t.id] == t
    {
      var i :| 0 <= i < |ts| && ts[i] == t;
      var k := keys[i];
      assert k in keys && t == table[k];
    }
    forall t: Task | t.id in keys && t.id in table && table[t.id] == t
      ensures t in ts
    {
      var i :| 0 <= i < |keys| && keys[i] == t.id;
      assert ts[i] == t;
    }
  }

  /** Every successor entry is one of the tree's tasks. */
  lemma SuccessorsInTree(table: map<int, Task>, keys: seq<int>, req: map<int, seq<int>>, g: Graph)
    requires Keyed(table) && Distinct(keys) && forall k :: k in keys <==> k in table
    requires forall k :: k in table ==> k in req
    requires forall t :: t in TasksIn(table, keys) <==> t.id in keys && t.id in table && table[t.id] == t
    requires g.all == TasksIn(table, keys) && forall t :: t in g.all ==> t in g.succ
    requires forall t :: t in g.all ==> multiset(g.succ[t]) == multiset(Requesters(table, req, keys, t.id))
    ensures forall t, u :: t in g.all && u in g.succ[t] ==> u in g.all
  {
    forall t, u | t in g.all && u in g.succ[t]
      ensures u in g.all
    {
      RequestersCount(table, req, keys, t.id, u);
      assert multiset(g.succ[t])[u] > 0;
    }
  }

  /** The roots are distinct, in the tree, and exactly the tasks whose
      fan-in build() set to 0. */
  lemma RootsOfBuild(table: map<int, Task>, keys: seq<int>, req: map<int, seq<int>>, g: Graph, roots: seq<Task>)
    requires Keyed(table) && Distinct(keys) && forall k :: k in keys <==> k in table
    requires forall k :: k in table ==> k in req
    requires forall t :: t in TasksIn(table, keys) <==> t.id in keys && t.id in table && table[t.id] == t
    requires g.all == TasksIn(table, keys) && forall t :: t in g.all ==> t in g.needed && g.needed[t] == |req[t.id]|
    requires roots == PrioritySorted(RootsIn(table, req, keys))
    ensures Distinct(roots)
    ensures forall t :: t in roots ==> t in g.all
    ensures forall t :: t in g.all ==> (t in roots <==> g.needed[t] == 0)
  {
    var found := RootsIn(table, req, keys);
    RootsInSpec(table, req, keys);
    PrioritySortedSpec(found);
    SameCounts(found, roots);
    RootsAreUnrequired(table, keys, req, g, found);
  }

  /** Two sequences with one multiset have the same elements, and one is
      repetition-free exactly when the other is. */
  lemma SameCounts<T>(s: seq<T>, r: seq<T>)
    requires multiset(s) == multiset(r)
    ensures forall x :: x in s <==> x in r
    ensures Distinct(s) <==> Distinct(r)
  {
    DistinctCounts(s);
    DistinctCounts(r);
    forall x
      ensures x in s <==> x in r
    {
      assert x in s <==> x in multiset(s);
      assert x in r <==> x in multiset(r);
    }
  }

  /** The collected roots are the tree's tasks whose required ids are
      empty. */
  lemma RootsAreUnrequired(table: map<int, Task>, keys: seq<int>, req: map<int, seq<int>>, g: Graph, found: seq<Task>)
    requires Keyed(table) && forall k :: k in keys <==> k in table
    requires forall k :: k in table ==> k in req
    requires forall t :: t in TasksIn(table, keys) <==> t.id in keys && t.id in table && table[t.id] == t
    requires g.all == TasksIn(table, keys) && forall t :: t in g.all ==> t in g.needed && g.needed[t] == |req[t.id]|
    requires forall u :: u in found <==> exists k :: k in keys && table[k] == u && req[k] == []
    ensures forall t :: t in found ==> t in g.all
    ensures forall t :: t in g.all ==> (t in found <==> g.needed[t] == 0)
  {
    forall t | t in found
      ensures t in g.all
    {
      var k :| k in keys && table[k] == t && req[k] == [];
    }
    forall t | t in g.all
      ensures t in found <==> g.needed[t] == 0
    {
      var k := t.id;
      if req[k] == [] {
        assert k in keys && table[k] == t;
      }
    }
  }

  /** The fan-in build() sets, one per required id, is the number of
      entries for the task over all successor lists. */
  lemma FanInIsInDegree(table: map<int, Task>, keys: seq<int>, req: map<int, seq<int>>, g: Graph, t: Task)
    requires Keyed(table) && Distinct(keys) && forall k :: k in keys <==> k in table
    requires forall k :: k in table ==> k in req
    requires AllResolve(table, req, keys)
    requires WellFormed(g) && t in g.all
    requires forall t :: t in TasksIn(table, keys) <==> t.id in keys && t.id in table && table[t.id] == t
    requires g.all == TasksIn(table, keys) && forall t :: t in g.all ==> g.needed[t] == |req[t.id]|
    requires forall t :: t in g.all ==> multiset(g.succ[t]) == multiset(Requesters(table, req, keys, t.id))
    ensures g.needed[t] == InDegree(g, t)
  {
    var ids := req[t.id];
    forall k | k in keys
      ensures k in table && table[k] in g.succ && multiset(g.succ[table[k]])[t] == multiset(ids)[k]
    {
      assert table[k] in g.all;
      RequestersCount(table, req, keys, k, t);
    }
    FlatHits(table, keys, g.succ, t, multiset(ids));
    assert Resolves(table, IdsOf(req, t.id));
    HitsCount(keys, ids);
  }

  // ---------------------------------------------------------------------
  // Counting entries
  // ---------------------------------------------------------------------

  /** How many elements of m, with multiplicity, the keys ks name. */
  function Hits(ks: seq<int>, m: multiset<int>): nat
  {
    if ks == [] then 0 else m[ks[0]] + Hits(ks[1..], m)
  }

  /** The entries for t over the lists of the tasks at keys ks. */
  lemma {:induction false} FlatHits(table: map<int, Task>, ks: seq<int>, succ: map<Task, seq<Task>>, t: Task, m: multiset<int>)
    requires forall k :: k in ks ==> k in table && table[k] in succ && multiset(succ[table[k]])[t] == m[k]
    ensures forall u :: u in TasksIn(table, ks) ==> u in succ
    ensures Flat(TasksIn(table, ks), succ)[t] == Hits(ks, m)
  {
    if ks != [] {
      assert forall k :: k in ks[1..] ==> k in ks;
      FlatHits(table, ks[1..], succ, t, m);
      var us := TasksIn(table, ks);
      assert us[1..] == TasksIn(table, ks[1..]);
      var k0 := ks[0];
      assert k0 in ks;
    }
    forall u | u in TasksIn(table, ks)
      ensures u in succ
    {
      var i :| 0 <= i < |ks| && TasksIn(table, ks)[i] == u;
      var k := ks[i];
      assert k in ks;
    }
  }

  lemma {:induction false} HitsAdd(ks: seq<int>, m1: multiset<int>, m2: multiset<int>)
    ensures Hits(ks, m1 + m2) == Hits(ks, m1) + Hits(ks, m2)
  {
    if ks != [] {
      HitsAdd(ks[1..], m1, m2);
    }
  }

  /** A single element is hit once by distinct keys that name it, and not
      at all by keys that do not. */
  lemma {:induction false} HitsOne(ks: seq<int>, x: int)
    requires Distinct(ks)
    ensures Hits(ks, multiset{x}) == if x in ks then 1 else 0
  {
    if ks != [] {
      DistinctTail(ks);
      HitsOne(ks[1..], x);
      assert x in ks <==> x == ks[0] || x in ks[1..];
      if x == ks[0] {
        assert ks[0] !in ks[1..];
      }
    }
  }

  /** Distinct keys naming every element of r hit r exactly |r| times. */
  lemma {:induction false} HitsCount(ks: seq<int>, r: seq<int>)
    requires Distinct(ks) && forall x :: x in r ==> x in ks
    ensures Hits(ks, multiset(r)) == |r|
  {
    if r != [] {
      var init, x := r[..|r| - 1], r[|r| - 1];
      assert r == init + [x];
      assert forall y :: y in init ==> y in r;
      HitsCount(ks, init);
      HitsAdd(ks, multiset(init), multiset{x});
      HitsOne(ks, x);
      assert x in r;
      assert x in ks;
      calc {
        Hits(ks, multiset(r));
        { assert multiset(r) == multiset(init) + multiset{x}; }
        Hits(ks, multiset(init) + multiset{x});
        Hits(ks, multiset(init)) + Hits(ks, multiset{x});
        |init| + 1;
      }
    } else {
      HitsNone(ks);
    }
  }

  lemma {:induction false} HitsNone(ks: seq<int>)
    ensures Hits(ks, multiset{}) == 0
  {
    if ks != [] {
      HitsNone(ks[1..]);
    }
  }

  /** A sequence has no repeated element exactly when no element occurs
      twice in its multiset. */
  lemma {:induction false} DistinctCounts<T>(s: seq<T>)
    ensures Distinct(s) <==> forall x :: multiset(s)[x] <= 1
  {
    if Distinct(s) && s != [] {
      var init, y := s[..|s| - 1], s[|s| - 1];
      assert s == init + [y];
      DistinctInit(s);
      DistinctCounts(init);
    }
    if !Distinct(s) {
      var i, j :| 0 <= i < j < |s| && s[i] == s[j];
      assert s == s[..j] + [s[j]] + s[j + 1..];
      assert s[i] in s[..j];
      assert multiset(s)[s[j]] >= multiset(s[..j])[s[j]] + 1;
    }
  }
}

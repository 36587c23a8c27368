/** TaskTreeBuilder: collects tasks by id and compiles them into a task
    tree. build() wires every task into the successor list of each task it
    requires, fixes every fan-in, sorts every successor list and the roots
    by priority, and clears the builder.

    The builder's HashMap is iterated in an order the model leaves open:
    build() returns that order as a ghost value and its contract is stated
    against it. What build() computes is described by functions over the
    table and a snapshot of the tasks' required ids; the lemmas say what
    those functions mean. */
module TaskTreeBuilding {
  import opened Tasks
  import opened Sorting
  import InsertionMethod

  // ---------------------------------------------------------------------
  // Sorting by priority
  // ---------------------------------------------------------------------

  /** Collections.sort orders by compareTo, which puts higher priorities
      first: ascending Rank. */
  function Rank(t: Task): int
  {
    -t.priority
  }

  /** Collections.sort(list): a stable sort by compareTo. A stable sort's
      result is determined by its key, so insertion from the left stands
      for the library's merge sort. */
  function PrioritySorted(s: seq<Task>): seq<Task>
  {
    InsertionMethod.InsertAll([], s, Rank)
  }

  /** The sorted list holds the same entries, highest priority first, and
      entries of equal priority keep their order. */
  lemma PrioritySortedSpec(s: seq<Task>)
    ensures multiset(PrioritySorted(s)) == multiset(s)
    ensures forall i, j :: 0 <= i < j < |PrioritySorted(s)| ==> PrioritySorted(s)[i].priority >= PrioritySorted(s)[j].priority
    ensures forall k :: InsertionMethod.WithKey(PrioritySorted(s), Rank, k) == InsertionMethod.WithKey(s, Rank, k)
  {
    InsertionMethod.InsertAllPermutes([], s, Rank);
    InsertionMethod.InsertAllKeepsSorted([], s, Rank);
    var r := PrioritySorted(s);
    forall i, j | 0 <= i < j < |r|
      ensures r[i].priority >= r[j].priority
    {
      assert Rank(r[i]) <= Rank(r[j]);
    }
    forall k
      ensures InsertionMethod.WithKey(r, Rank, k) == InsertionMethod.WithKey(s, Rank, k)
    {
      InsertionMethod.InsertAllIsStable([], s, Rank, k);
      assert [] + s == s;
    }
  }

  // ---------------------------------------------------------------------
  // What the first pass of build() collects
  // ---------------------------------------------------------------------

  /** The table maps every id to the task with that id. */
  ghost predicate Keyed(table: map<int, Task>)
  {
    forall k :: k in table ==> table[k].id == k
  }

  /** The required ids of key k, none for a key req does not list. */
  function IdsOf(req: map<int, seq<int>>, k: int): seq<int>
  {
    if k in req then req[k] else []
  }

  /** What visiting key k appends to the list of the task with id `id`
      once the ids `done` of k's required ids are processed: k's task once
      per occurrence of `id`. A key outside the table appends nothing. */
  function Visits(table: map<int, Task>, k: int, done: seq<int>, id: int): seq<Task>
  {
    if k in table then Repeat<Task>(table[k], multiset(done)[id]) else []
  }

  /** The entries the first pass appends to the successor list of the
      task with id `id`, visiting the keys in `order`. */
  function Requesters(table: map<int, Task>, req: map<int, seq<int>>, order: seq<int>, id: int): seq<Task>
  {
    if order == [] then []
    else
      var k := order[|order| - 1];
      Requesters(table, req, order[..|order| - 1], id) + Visits(table, k, IdsOf(req, k), id)
  }

  /** The roots the first pass collects, visiting the keys in `order`: the
      tasks that require nothing. */
  function RootsIn(table: map<int, Task>, req: map<int, seq<int>>, order: seq<int>): seq<Task>
  {
    if order == [] then []
    else
      var k := order[|order| - 1];
      RootsIn(table, req, order[..|order| - 1]) + (if k in table && IdsOf(req, k) == [] then [table[k]] else [])
  }

  /** Task u is appended to the list of `id` once per occurrence of `id`
      among u's required ids, when u's key has been visited; never
      otherwise. */
  lemma {:induction false} RequestersCount(table: map<int, Task>, req: map<int, seq<int>>, order: seq<int>, id: int, u: Task)
    requires Keyed(table) && Distinct(order)
    requires forall k :: k in order ==> k in table && k in req
    ensures multiset(Requesters(table, req, order, id))[u] == if u.id in order && table[u.id] == u then multiset(req[u.id])[id] else 0
  {
    if order != [] {
      var init, k := order[..|order| - 1], order[|order| - 1];
      DistinctInit(order);
      InitMembers(order);
      RequestersCount(table, req, init, id, u);
      RepeatCounts(table[k], multiset(req[k])[id], u);
    }
  }

  lemma InitMembers(order: seq<int>)
    requires order != []
    ensures forall x :: x in order <==> x in order[..|order| - 1] || x == order[|order| - 1]
  {
    assert order == order[..|order| - 1] + [order[|order| - 1]];
  }

  /** The roots are the visited tasks that require nothing, each once. */
  lemma {:induction false} RootsInSpec(table: map<int, Task>, req: map<int, seq<int>>, order: seq<int>)
    requires Keyed(table) && Distinct(order)
    requires forall k :: k in order ==> k in table && k in req
    ensures Distinct(RootsIn(table, req, order))
    ensures forall u :: u in RootsIn(table, req, order) <==> exists k :: k in order && table[k] == u && req[k] == []
    ensures forall u :: u in RootsIn(table, req, order) ==> u.id in order
  {
    if order != [] {
      var init, k := order[..|order| - 1], order[|order| - 1];
      DistinctInit(order);
      InitMembers(order);
      RootsInSpec(table, req, init);
      assert order == init + [k];
      var r := RootsIn(table, req, init);
      if req[k] == [] {
        assert table[k].id == k && k !in init;
        assert table[k] !in r;
      }
    }
  }

  /** The entries appended to the list of `id` once the keys before the
      last one of `order` are done and, of the last key's required ids,
      those in `done`. */
  function Partial(table: map<int, Task>, req: map<int, seq<int>>, order: seq<int>, done: seq<int>, id: int): seq<Task>
  {
    if order == [] then []
    else Requesters(table, req, order[..|order| - 1], id) + Visits(table, order[|order| - 1], done, id)
  }

  lemma PartialDone(table: map<int, Task>, req: map<int, seq<int>>, order: seq<int>, id: int)
    requires order != []
    ensures Partial(table, req, order, IdsOf(req, order[|order| - 1]), id) == Requesters(table, req, order, id)
  {
  }

  /** Every id in ids is a key of the table. */
  ghost predicate Resolves(table: map<int, Task>, ids: seq<int>)
  {
    forall j {:trigger j in ids} :: j in ids ==> j in table
  }

  /** The required ids of every task of the table. */
  ghost function RequiredOf(table: map<int, Task>): map<int, seq<int>>
    reads table.Values`requiredIDs
  {
    map k | k in table :: table[k].requiredIDs
  }

  /** The successor list of every task of the table. */
  ghost function ListsOf(table: map<int, Task>): map<int, seq<Task>>
    reads table.Values`unlockedTasks
  {
    map k | k in table :: table[k].unlockedTasks
  }

  /** Every list is its start list followed by what the first pass
      appends for the keys in order. */
  ghost predicate Linked(table: map<int, Task>, start: map<int, seq<Task>>, req: map<int, seq<int>>, order: seq<int>, lists: map<int, seq<Task>>)
  {
    forall x {:trigger Requesters(table, req, order, x)} ::
      x in table ==> x in start && x in lists && lists[x] == start[x] + Requesters(table, req, order, x)
  }

  /** Linked, at the point where the last key of order has processed the
      required ids in done. */
  ghost predicate LinkedUpTo(table: map<int, Task>, start: map<int, seq<Task>>, req: map<int, seq<int>>, order: seq<int>, done: seq<int>, lists: map<int, seq<Task>>)
  {
    forall x {:trigger Partial(table, req, order, done, x)} ::
      x in table ==> x in start && x in lists && lists[x] == start[x] + Partial(table, req, order, done, x)
  }

  /** All required ids of the last key processed is Linked. */
  lemma LinkedUpToDone(table: map<int, Task>, start: map<int, seq<Task>>, req: map<int, seq<int>>, order: seq<int>, done: seq<int>, lists: map<int, seq<Task>>)
    requires order != [] && done == IdsOf(req, order[|order| - 1])
    requires LinkedUpTo(table, start, req, order, done, lists)
    ensures Linked(table, start, req, order, lists)
  {
    forall x | x in table
      ensures Partial(table, req, order, IdsOf(req, order[|order| - 1]), x) == Requesters(table, req, order, x)
    {
      PartialDone(table, req, order, x);
    }
  }

  /** Each list of the map is its base followed by task once per
      occurrence of the list's id in ids. */
  ghost predicate Grown(table: map<int, Task>, base: map<int, seq<Task>>, lists: map<int, seq<Task>>, task: Task, ids: seq<int>)
  {
    forall x :: x in table ==> x in base && x in lists && lists[x] == base[x] + Repeat<Task>(task, multiset(ids)[x])
  }

  /** One more id of ids: its list gains task, and ids[..i + 1] stays
      resolved. */
  lemma GrownStep(table: map<int, Task>, base: map<int, seq<Task>>, lists: map<int, seq<Task>>, task: Task, ids: seq<int>, i: int)
    requires 0 <= i < |ids| && ids[i] in table && ids[i] in lists
    requires Grown(table, base, lists, task, ids[..i]) && Resolves(table, ids[..i])
    ensures Grown(table, base, lists[ids[i] := lists[ids[i]] + [task]], task, ids[..i + 1])
    ensures Resolves(table, ids[..i + 1])
  {
    assert ids[..i + 1] == ids[..i] + [ids[i]];
    var n := multiset(ids[..i])[ids[i]];
    assert Repeat<Task>(task, n + 1) == Repeat<Task>(task, n) + [task];
  }

  /** Grown over the processed ids of the last key, from the lists the
      earlier keys left, is LinkedUpTo. */
  lemma GrownIsLinked(table: map<int, Task>, start: map<int, seq<Task>>, req: map<int, seq<int>>, order: seq<int>, done: seq<int>, base: map<int, seq<Task>>, lists: map<int, seq<Task>>)
    requires order != [] && order[|order| - 1] in table
    requires Linked(table, start, req, order[..|order| - 1], base)
    requires Grown(table, base, lists, table[order[|order| - 1]], done)
    ensures LinkedUpTo(table, start, req, order, done, lists)
  {
    var init, last := order[..|order| - 1], order[|order| - 1];
    forall x | x in table
      ensures x in start && x in lists && lists[x] == start[x] + Partial(table, req, order, done, x)
    {
      ghost var rq := Requesters(table, req, init, x);
      assert base[x] == start[x] + rq;
      assert Partial(table, req, order, done, x) == Requesters(table, req, init, x) + Visits(table, last, done, x);
    }
  }

  /** The inner loop of build()'s first pass for one task: the task is
      appended to the list of every task it requires, until a required id
      the table lacks. That id is returned with found false, and q is
      where it sits among the required ids. */
  method LinkOne(table: map<int, Task>, task: Task) returns (found: bool, missingID: int, ghost q: int)
    requires Keyed(table)
    modifies table.Values`unlockedTasks
    ensures 0 <= q <= |task.requiredIDs|
    ensures found <==> q == |task.requiredIDs|
    ensures !found ==> task.requiredIDs[q] == missingID && missingID !in table
    ensures Resolves(table, task.requiredIDs[..q])
    ensures Grown(table, old(ListsOf(table)), ListsOf(table), task, task.requiredIDs[..q])
  {
    var ids := task.requiredIDs;
    ghost var base := ListsOf(table);
    ghost var lists := base;
    assert ids[..0] == [];
    var i := 0;
    while i < |ids|
      invariant 0 <= i <= |ids|
      invariant Resolves(table, ids[..i])
      invariant forall x :: x in table ==> x in lists && table[x].unlockedTasks == lists[x]
      invariant Grown(table, base, lists, task, ids[..i])
    {
      var id := ids[i];
      if id !in table {
        return false, id, i;
      }
      GrownStep(table, base, lists, task, ids, i);
      var temp := table[id];
      Append(table, id, temp, task, lists);
      lists := lists[id := lists[id] + [task]];
      i := i + 1;
    }
    return true, 0, i;
  }

  /** temp.addUnlockedTask(task) for the task temp under id: its list
      gains task, every other list stays. */
  method Append(table: map<int, Task>, id: int, temp: Task, task: Task, ghost lists: map<int, seq<Task>>)
    requires Keyed(table) && id in table && table[id] == temp
    requires forall x :: x in table ==> x in lists && table[x].unlockedTasks == lists[x]
    modifies temp`unlockedTasks
    ensures forall x :: x in table ==> x in lists && table[x].unlockedTasks == lists[id := lists[id] + [task]][x]
  {
    assert forall x :: x in table && x != id ==> table[x] != temp;
    temp.AddUnlockedTask(task);
  }

  lemma PrefixSnoc(keys: seq<int>, i: int)
    requires 0 <= i < |keys|
    ensures keys[..i + 1][..i] == keys[..i] && keys[..i + 1][i] == keys[i]
  {
  }

  /** The required ids of every key in ks are keys of the table. */
  ghost predicate AllResolve(table: map<int, Task>, req: map<int, seq<int>>, ks: seq<int>)
  {
    forall k {:trigger k in ks} :: k in ks ==> Resolves(table, IdsOf(req, k))
  }

  lemma AllResolveSnoc(table: map<int, Task>, req: map<int, seq<int>>, keys: seq<int>, i: int)
    requires 0 <= i < |keys|
    requires AllResolve(table, req, keys[..i]) && Resolves(table, IdsOf(req, keys[i]))
    ensures AllResolve(table, req, keys[..i + 1])
  {
    InitMembers(keys[..i + 1]);
    assert keys[..i + 1][..i] == keys[..i];
  }

  /** The first pass stopped at the last key of order: its required ids
      start with done, which resolve, and then missingID, which does not. */
  ghost predicate Stopped(table: map<int, Task>, req: map<int, seq<int>>, order: seq<int>, done: seq<int>, missingID: int)
  {
    order != [] && done + [missingID] <= IdsOf(req, order[|order| - 1])
    && Resolves(table, done) && missingID !in table
  }

  /** One iteration of build()'s first pass: the key keys[i] is visited,
      its task collected as a root when it requires nothing, and linked to
      the tasks it requires, stopping at a missing id as LinkOne does;
      done is the prefix of its required ids linked. */
  method Visit(table: map<int, Task>, keys: seq<int>, i: int, roots: seq<Task>, ghost req: map<int, seq<int>>, ghost start: map<int, seq<Task>>)
    returns (roots': seq<Task>, found: bool, missingID: int, ghost done: seq<int>)
    requires Keyed(table) && 0 <= i < |keys| && keys[i] in table
    requires req == RequiredOf(table)
    requires roots == RootsIn(table, req, keys[..i])
    requires Linked(table, start, req, keys[..i], ListsOf(table))
    modifies table.Values`unlockedTasks
    ensures roots' == RootsIn(table, req, keys[..i + 1])
    ensures found ==> done == IdsOf(req, keys[i]) && Resolves(table, done)
    ensures found ==> Linked(table, start, req, keys[..i + 1], ListsOf(table))
    ensures !found ==> Stopped(table, req, keys[..i + 1], done, missingID)
    ensures !found ==> LinkedUpTo(table, start, req, keys[..i + 1], done, ListsOf(table))
  {
    var task := table[keys[i]];
    ghost var ids := task.requiredIDs;
    assert ids == IdsOf(req, keys[i]);
    roots' := if task.requiredIDs == [] then roots + [task] else roots;
    PrefixSnoc(keys, i);
    ghost var mid := ListsOf(table);
    ghost var q;
    found, missingID, q := LinkOne(table, task);
    done := ids[..q];
    if found {
      VisitLinked(table, start, req, keys[..i + 1], ids, q, mid, ListsOf(table));
    } else {
      VisitStopped(table, start, req, keys[..i + 1], ids, q, missingID, mid, ListsOf(table));
    }
  }

  /** With every required id of the last key of order linked (LinkOne's
      contract with q at the end), the lists are linked over order. */
  lemma VisitLinked(table: map<int, Task>, start: map<int, seq<Task>>, req: map<int, seq<int>>, order: seq<int>, ids: seq<int>, q: int,
                    mid: map<int, seq<Task>>, lists: map<int, seq<Task>>)
    requires order != [] && order[|order| - 1] in table && ids == IdsOf(req, order[|order| - 1])
    requires Linked(table, start, req, order[..|order| - 1], mid)
    requires q == |ids|
    requires Grown(table, mid, lists, table[order[|order| - 1]], ids[..q])
    ensures ids[..q] == ids && Linked(table, start, req, order, lists)
  {
    assert ids[..q] == ids;
    GrownIsLinked(table, start, req, order, ids, mid, lists);
    LinkedUpToDone(table, start, req, order, ids, lists);
  }

  /** With LinkOne stopped at missingID at position q of the last key's
      required ids, the pass stopped there, with the ids before it linked. */
  lemma VisitStopped(table: map<int, Task>, start: map<int, seq<Task>>, req: map<int, seq<int>>, order: seq<int>, ids: seq<int>, q: int,
                     missingID: int, mid: map<int, seq<Task>>, lists: map<int, seq<Task>>)
    requires order != [] && order[|order| - 1] in table && ids == IdsOf(req, order[|order| - 1])
    requires Linked(table, start, req, order[..|order| - 1], mid)
    requires 0 <= q < |ids| && ids[q] == missingID && missingID !in table
    requires Resolves(table, ids[..q])
    requires Grown(table, mid, lists, table[order[|order| - 1]], ids[..q])
    ensures Stopped(table, req, order, ids[..q], missingID)
    ensures LinkedUpTo(table, start, req, order, ids[..q], lists)
  {
    GrownIsLinked(table, start, req, order, ids[..q], mid, lists);
    assert ids[..q] + [missingID] == ids[..q + 1];
  }

  /** build()'s first pass: the keys are visited in the table's iteration
      order, keys; tasks that require nothing are collected as roots, and
      each visited task is appended to the lists of the tasks it requires.
      The pass stops at the first required id the table lacks: found is
      then false, the failing key is the last of the visited prefix order
      and done the prefix of its required ids before the missing one. */
  method Link(table: map<int, Task>, keys: seq<int>, ghost req: map<int, seq<int>>, ghost start: map<int, seq<Task>>)
    returns (roots: seq<Task>, found: bool, missingID: int, ghost order: seq<int>, ghost done: seq<int>)
    requires Keyed(table)
    requires forall k :: k in keys ==> k in table
    requires req == RequiredOf(table) && start == ListsOf(table)
    modifies table.Values`unlockedTasks
    ensures req == RequiredOf(table)
    ensures order <= keys
    ensures found ==> order == keys && roots == RootsIn(table, req, order) && AllResolve(table, req, order)
    ensures found ==> Linked(table, start, req, order, ListsOf(table))
    ensures !found ==> order != [] && AllResolve(table, req, order[..|order| - 1]) && Stopped(table, req, order, done, missingID)
    ensures !found ==> LinkedUpTo(table, start, req, order, done, ListsOf(table))
  {
    roots, found, missingID, order, done := [], true, 0, [], [];
    var i := 0;
    while i < |keys|
      invariant 0 <= i <= |keys| && order == keys[..i]
      invariant RequiredOf(table) == req
      invariant roots == RootsIn(table, req, order)
      invariant AllResolve(table, req, order)
      invariant Linked(table, start, req, order, ListsOf(table))
    {
      var k := keys[i];
      assert k in keys;
      roots, found, missingID, done := Visit(table, keys, i, roots, req, start);
      order := keys[..i + 1];
      PrefixSnoc(keys, i);
      if !found {
        return;
      }
      AllResolveSnoc(table, req, keys, i);
      i := i + 1;
    }
  }

  /** build()'s second pass, over the same keys: every task's fan-in is
      fixed by update() and its successor list sorted by priority. */
  method Finalize(table: map<int, Task>, keys: seq<int>, ghost req: map<int, seq<int>>, ghost lists: map<int, seq<Task>>)
    requires Keyed(table) && Distinct(keys)
    requires forall k :: k in keys <==> k in table
    requires req == RequiredOf(table) && lists == ListsOf(table)
    modifies table.Values`unlockedTasks, table.Values`neededUnlocks
    ensures forall k :: k in table ==> k in req && k in lists && k in ListsOf(table) && k in NeededOf(table) && ListsOf(table)[k] == PrioritySorted(lists[k]) && NeededOf(table)[k] == |req[k]|
  {
    IndexIn(table, keys);
    var i := 0;
    while i < |keys|
      invariant 0 <= i <= |keys|
      invariant forall j :: i <= j < |keys| ==> table[keys[j]].unlockedTasks == lists[keys[j]]
      invariant forall j :: 0 <= j < i ==> table[keys[j]].unlockedTasks == PrioritySorted(lists[keys[j]])
      invariant forall j :: 0 <= j < i ==> table[keys[j]].neededUnlocks == |table[keys[j]].requiredIDs|
    {
      var task := table[keys[i]];
      assert forall j :: 0 <= j < |keys| && j != i ==> table[keys[j]] != task;
      task.Update();
      task.unlockedTasks := PrioritySorted(task.unlockedTasks);
      i := i + 1;
    }
    forall k | k in table
      ensures k in req && k in lists && k in ListsOf(table) && k in NeededOf(table) && ListsOf(table)[k] == PrioritySorted(lists[k]) && NeededOf(table)[k] == |req[k]|
    {
      var j :| 0 <= j < |keys| && keys[j] == k;
    }
  }

  lemma IndexIn(table: map<int, Task>, keys: seq<int>)
    requires forall k :: k in keys ==> k in table
    ensures forall j :: 0 <= j < |keys| ==> keys[j] in table
  {
    forall j | 0 <= j < |keys|
      ensures keys[j] in table
    {
      var k := keys[j];
      assert k in keys;
    }
  }

  // ---------------------------------------------------------------------
  // The builder
  // ---------------------------------------------------------------------

  /** addTask's outcome: the put always happens; a put that replaced an
      entry is then reported as an id collision. */
  datatype AddOutcome = Added | Collision(id: int)

  /** build()'s two exceptions. */
  datatype BuildError = MissingTask(id: int) | NoRunnableTasks

  /** build() returns null on an empty builder, a tree, or throws. */
  datatype BuildResult = NoTasks | Built(tree: TaskTree) | Failed(error: BuildError)

  /** The fan-in of every task of the table. */
  ghost function NeededOf(table: map<int, Task>): map<int, int>
    reads table.Values`neededUnlocks
  {
    map k | k in table :: table[k].neededUnlocks
  }

  /** What build() promises on a table with iteration order keys, required
      ids req, successor lists start and fan-ins needed: r, together with
      the lists and fan-ins afterwards, and for MissingTask the visited
      prefix of keys and the linked required ids done of its last key.
      - No tree exactly for the empty table.
      - MissingTask exactly when some required id is not a key. The pass
        stopped at the first one in iteration order: the keys before it
        resolve, and every list holds what was appended up to there.
      - NoRunnableTasks exactly when all ids resolve but no task is a
        root; every list holds everything the first pass appends.
      - A tree otherwise: its roots are the roots sorted by priority, its
        count the number of tasks; every list is its old contents plus the
        first pass's entries, sorted by priority, and every fan-in the
        number of the task's required ids.
      - Fan-ins are untouched unless a tree is built. */
  ghost predicate BuildSpec(table: map<int, Task>, keys: seq<int>, req: map<int, seq<int>>, start: map<int, seq<Task>>, needed: map<int, int>,
                            r: BuildResult, visited: seq<int>, done: seq<int>, lists: map<int, seq<Task>>, needed': map<int, int>)
  {
    (r == NoTasks <==> table == map[])
    && (r.Failed? && r.error.MissingTask? <==> table != map[] && !AllResolve(table, req, keys))
    && (r == Failed(NoRunnableTasks) <==> table != map[] && AllResolve(table, req, keys) && RootsIn(table, req, keys) == [])
    && (r.Built? <==> table != map[] && AllResolve(table, req, keys) && RootsIn(table, req, keys) != [])
    && (r.Failed? && r.error.MissingTask? ==>
          visited <= keys && visited != [] && AllResolve(table, req, visited[..|visited| - 1])
          && Stopped(table, req, visited, done, r.error.id)
          && LinkedUpTo(table, start, req, visited, done, lists))
    && (r == Failed(NoRunnableTasks) ==> Linked(table, start, req, keys, lists))
    && (r.Built? ==>
          r.tree == TaskTree(PrioritySorted(RootsIn(table, req, keys)), |table|)
          && (forall k :: k in table ==>
                (k in start && k in lists && k in req && k in needed'
                 && lists[k] == PrioritySorted(start[k] + Requesters(table, req, keys, k))
                 && needed'[k] == |req[k]|)))
    && (!r.Built? ==> forall k :: k in table ==> k in needed && k in needed' && needed'[k] == needed[k])
  }

  lemma EmptySpec(table: map<int, Task>, keys: seq<int>, req: map<int, seq<int>>, start: map<int, seq<Task>>, needed: map<int, int>,
                  lists: map<int, seq<Task>>, needed': map<int, int>)
    requires table == map[]
    ensures BuildSpec(table, keys, req, start, needed, NoTasks, [], [], lists, needed')
  {
  }

  lemma MissingSpec(table: map<int, Task>, keys: seq<int>, req: map<int, seq<int>>, start: map<int, seq<Task>>, needed: map<int, int>,
                    visited: seq<int>, done: seq<int>, missingID: int, lists: map<int, seq<Task>>, needed': map<int, int>)
    requires table != map[] && needed' == needed && forall k :: k in table ==> k in needed
    requires visited <= keys && visited != [] && AllResolve(table, req, visited[..|visited| - 1])
    requires Stopped(table, req, visited, done, missingID)
    requires LinkedUpTo(table, start, req, visited, done, lists)
    ensures BuildSpec(table, keys, req, start, needed, Failed(MissingTask(missingID)), visited, done, lists, needed')
  {
    MissingBreaksResolve(table, req, keys, visited, done, missingID);
  }

  lemma NoRootsSpec(table: map<int, Task>, keys: seq<int>, req: map<int, seq<int>>, start: map<int, seq<Task>>, needed: map<int, int>,
                    visited: seq<int>, done: seq<int>, lists: map<int, seq<Task>>, needed': map<int, int>)
    requires table != map[] && needed' == needed && forall k :: k in table ==> k in needed
    requires AllResolve(table, req, keys) && RootsIn(table, req, keys) == []
    requires Linked(table, start, req, keys, lists)
    ensures BuildSpec(table, keys, req, start, needed, Failed(NoRunnableTasks), visited, done, lists, needed')
  {
  }

  lemma BuiltSpec(table: map<int, Task>, keys: seq<int>, req: map<int, seq<int>>, start: map<int, seq<Task>>, needed: map<int, int>,
                  visited: seq<int>, done: seq<int>, linked: map<int, seq<Task>>, lists: map<int, seq<Task>>, needed': map<int, int>)
    requires table != map[] && AllResolve(table, req, keys) && RootsIn(table, req, keys) != []
    requires Linked(table, start, req, keys, linked)
    requires forall k :: k in table ==> k in req && k in linked && k in lists && k in needed' && lists[k] == PrioritySorted(linked[k]) && needed'[k] == |req[k]|
    ensures BuildSpec(table, keys, req, start, needed, Built(TaskTree(PrioritySorted(RootsIn(table, req, keys)), |table|)), visited, done, lists, needed')
  {
    forall k | k in table
      ensures k in start && k in lists && k in req && k in needed' && lists[k] == PrioritySorted(start[k] + Requesters(table, req, keys, k)) && needed'[k] == |req[k]|
    {
      var r := Requesters(table, req, keys, k);
      assert k in start && linked[k] == start[k] + r;
    }
  }

  /** A stop at a missing id means some key's required ids do not all
      resolve. */
  lemma MissingBreaksResolve(table: map<int, Task>, req: map<int, seq<int>>, keys: seq<int>, visited: seq<int>, done: seq<int>, missingID: int)
    requires visited <= keys && Stopped(table, req, visited, done, missingID)
    ensures !AllResolve(table, req, keys)
  {
    var k := visited[|visited| - 1];
    assert k in keys;
    assert IdsOf(req, k)[|done|] == missingID;
    assert missingID in IdsOf(req, k);
  }
}

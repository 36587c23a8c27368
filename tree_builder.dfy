/** The TaskTreeBuilder object: its table of tasks by id, addTask,
    getNumTasks and build(). build() runs the two passes of
    TaskTreeBuilding over a snapshot of the table. */
module TreeBuilder {
  import opened Tasks
  import opened TaskTreeBuilding

  class TaskTreeBuilder {
    var taskTable: map<int, Task>
    /** The order in which the table's iterator visits its keys. The model
        takes the order in which the ids were first added. */
    var keyOrder: seq<int>

    /** Every task sits under its own id, and the iteration order lists
        every key once. */
    ghost predicate Valid()
      reads this`taskTable, this`keyOrder
    {
      Keyed(taskTable) && Distinct(keyOrder) && forall k :: k in keyOrder <==> k in taskTable
    }

    constructor()
      ensures Valid() && taskTable == map[]
    {
      taskTable := map[];
      keyOrder := [];
    }

    /** getNumTasks(). */
    function GetNumTasks(): (n: int)
      reads this`taskTable
      ensures n >= 0
      ensures n == 0 <==> taskTable == map[]
    {
      |taskTable|
    }

    /** addTask(task): the task goes in under its id, replacing any task
        already there, and a replacement is reported as a collision. The
        count grows by one exactly when the id is new. */
    method AddTask(task: Task) returns (r: AddOutcome)
      requires Valid()
      modifies this`taskTable, this`keyOrder
      ensures Valid()
      ensures taskTable == old(taskTable)[task.id := task]
      ensures r == if task.id in old(taskTable) then Collision(task.id) else Added
      ensures GetNumTasks() == old(GetNumTasks()) + (if r == Added then 1 else 0)
    {
      if task.id in taskTable {
        r := Collision(task.id);
        assert taskTable[task.id := task].Keys == taskTable.Keys;
      } else {
        r := Added;
        assert taskTable[task.id := task].Keys == taskTable.Keys + {task.id};
        keyOrder := keyOrder + [task.id];
      }
      taskTable := taskTable[task.id := task];
    }

    /** build(): see BuildSpec; the builder is cleared exactly when a
        tree is built. */
    method Build() returns (r: BuildResult, ghost visited: seq<int>, ghost done: seq<int>)
      requires Valid()
      modifies this`taskTable, this`keyOrder, taskTable.Values`unlockedTasks, taskTable.Values`neededUnlocks
      ensures Valid()
      ensures r.Built? ==> taskTable == map[]
      ensures !r.Built? ==> taskTable == old(taskTable) && keyOrder == old(keyOrder)
      ensures BuildSpec(old(taskTable), old(keyOrder), old(RequiredOf(taskTable)), old(ListsOf(taskTable)), old(NeededOf(taskTable)),
                        r, visited, done, ListsOf(old(taskTable)), NeededOf(old(taskTable)))
    {
      ghost var lists, needed';
      r, visited, done, lists, needed' := BuildTable(this, taskTable, keyOrder, RequiredOf(taskTable), ListsOf(taskTable), NeededOf(taskTable));
    }

    /** taskTable.clear(). */
    method Clear()
      modifies this`taskTable, this`keyOrder
      ensures taskTable == map[] && keyOrder == []
    {
      taskTable, keyOrder := map[], [];
    }
  }

  /** The body of build() for builder b, whose table and iteration order
      are table and keys, with the required ids, lists and fan-ins before
      the call. */
  method BuildTable(b: TaskTreeBuilder, table: map<int, Task>, keys: seq<int>,
                    ghost req: map<int, seq<int>>, ghost start: map<int, seq<Task>>, ghost needed: map<int, int>)
    returns (r: BuildResult, ghost visited: seq<int>, ghost done: seq<int>, ghost lists: map<int, seq<Task>>, ghost needed': map<int, int>)
    requires Keyed(table) && Distinct(keys) && forall k :: k in keys <==> k in table
    requires req == RequiredOf(table) && start == ListsOf(table) && needed == NeededOf(table)
    modifies b`taskTable, b`keyOrder, table.Values`unlockedTasks, table.Values`neededUnlocks
    ensures r.Built? ==> b.taskTable == map[] && b.keyOrder == []
    ensures !r.Built? ==> b.taskTable == old(b.taskTable) && b.keyOrder == old(b.keyOrder)
    ensures lists == ListsOf(table) && needed' == NeededOf(table)
    ensures BuildSpec(table, keys, req, start, needed, r, visited, done, lists, needed')
  {
    visited, done := [], [];
    if table == map[] {
      r := NoTasks;
      lists, needed' := ListsOf(table), NeededOf(table);
      EmptySpec(table, keys, req, start, needed, lists, needed');
      return;
    }
    var roots, found, missingID;
    roots, found, missingID, visited, done := Link(table, keys, req, start);
    if !found {
      r := Failed(MissingTask(missingID));
      lists, needed' := ListsOf(table), NeededOf(table);
      MissingSpec(table, keys, req, start, needed, visited, done, missingID, lists, needed');
      return;
    }
    if roots == [] {
      r := Failed(NoRunnableTasks);
      lists, needed' := ListsOf(table), NeededOf(table);
      NoRootsSpec(table, keys, req, start, needed, visited, done, lists, needed');
      return;
    }
    r, lists, needed' := Complete(b, table, keys, req, start, needed, roots, visited, done);
  }

  /** The end of build() once the first pass has linked every task and
      found a root: clear the builder, run the second pass and return the
      tree of the roots. */
  method Complete(b: TaskTreeBuilder, table: map<int, Task>, keys: seq<int>,
                  ghost req: map<int, seq<int>>, ghost start: map<int, seq<Task>>, ghost needed: map<int, int>,
                  roots: seq<Task>, ghost visited: seq<int>, ghost done: seq<int>)
    returns (r: BuildResult, ghost lists: map<int, seq<Task>>, ghost needed': map<int, int>)
    requires Keyed(table) && Distinct(keys) && forall k :: k in keys <==> k in table
    requires table != map[] && req == RequiredOf(table)
    requires AllResolve(table, req, keys) && roots == RootsIn(table, req, keys) && roots != []
    requires Linked(table, start, req, keys, ListsOf(table))
    modifies b`taskTable, b`keyOrder, table.Values`unlockedTasks, table.Values`neededUnlocks
    ensures r.Built? && b.taskTable == map[] && b.keyOrder == []
    ensures lists == ListsOf(table) && needed' == NeededOf(table)
    ensures BuildSpec(table, keys, req, start, needed, r, visited, done, lists, needed')
  {
    ghost var linked := ListsOf(table);
    b.Clear();
    Finalize(table, keys, req, linked);
    r := Built(TaskTree(PrioritySorted(roots), |table|));
    lists, needed' := ListsOf(table), NeededOf(table);
    BuiltSpec(table, keys, req, start, needed, visited, done, linked, lists, needed');
  }
}

/** The tasks of the table generator and the order they run in (tools/tablegen.js). */
module TaskRunner {
  import opened Counting

  datatype Task = Task(name: string, deps: seq<string>)

  function NamesOf(tasks: seq<Task>): set<string> {
    set t | t in tasks :: t.name
  }

  predicate Distinct(tasks: seq<Task>) {
    forall i, j | 0 <= i < j < |tasks| :: tasks[i].name != tasks[j].name
  }

  /** Every dependency is the name of an earlier task. */
  ghost predicate Ordered(tasks: seq<Task>) {
    forall i, d | 0 <= i < |tasks| && d in tasks[i].deps :: d in NamesOf(tasks[..i])
  }

  /** A set of names none of which can be the first to run: each of their tasks depends on one of
      them or on a task that does not exist. */
  ghost predicate Blocked(tasks: seq<Task>, names: set<string>) {
    && names != {} && names <= NamesOf(tasks)
    && forall t | t in tasks && t.name in names :: exists d :: d in t.deps && (d in names || d !in NamesOf(tasks))
  }

  // --- Runs, as the positions of the tasks that ran ---

  function Ran(tasks: seq<Task>, order: seq<nat>): set<string> {
    set i | 0 <= i < |order| && order[i] < |tasks| :: tasks[order[i]].name
  }

  ghost predicate Ready(t: Task, done: set<string>) {
    forall d | d in t.deps :: d in done
  }

  /** No name runs twice, and each task runs after the tasks it depends on. */
  ghost predicate GoodRun(tasks: seq<Task>, order: seq<nat>) {
    && (forall i | 0 <= i < |order| :: order[i] < |tasks|)
    && (forall i | 0 <= i < |order| ::
          tasks[order[i]].name !in Ran(tasks, order[..i]) && Ready(tasks[order[i]], Ran(tasks, order[..i])))
  }

  lemma {:induction false} RanOfNext(tasks: seq<Task>, order: seq<nat>, k: nat)
    requires GoodRun(tasks, order) && k < |tasks|
    ensures forall i | 0 <= i < |order + [k]| :: (order + [k])[i] < |tasks|
    ensures Ran(tasks, order + [k]) == Ran(tasks, order) + {tasks[k].name}
    ensures Ran(tasks, order) <= NamesOf(tasks)
  {
    var next := order + [k];
    forall n | n in Ran(tasks, order) ensures n in Ran(tasks, next) && n in NamesOf(tasks) {
      var i :| 0 <= i < |order| && tasks[order[i]].name == n;
      assert tasks[next[i]].name == n;
      assert tasks[order[i]] in tasks;
    }
    assert tasks[next[|order|]].name == tasks[k].name;
  }

  lemma {:induction false} RunNext(tasks: seq<Task>, order: seq<nat>, k: nat)
    requires GoodRun(tasks, order) && k < |tasks|
    requires tasks[k].name !in Ran(tasks, order) && Ready(tasks[k], Ran(tasks, order))
    ensures GoodRun(tasks, order + [k])
  {
    var next := order + [k];
    hide Ran, Ready;
    forall i | 0 <= i < |next|
      ensures next[i] < |tasks|
      ensures tasks[next[i]].name !in Ran(tasks, next[..i]) && Ready(tasks[next[i]], Ran(tasks, next[..i]))
    {
      if i < |order| { assert next[..i] == order[..i]; } else { assert next[..i] == order; }
    }
  }

  // --- Stuck runs and complete runs ---

  /** A name of a blocked set never runs. */
  lemma {:induction false} BlockedNeverRuns(tasks: seq<Task>, order: seq<nat>, names: set<string>, i: nat)
    requires GoodRun(tasks, order) && Blocked(tasks, names) && i < |order|
    ensures tasks[order[i]].name !in names
  {
    var t := tasks[order[i]];
    assert t in tasks;
    if t.name in names {
      var d :| d in t.deps && (d in names || d !in NamesOf(tasks));
      assert Ready(t, Ran(tasks, order[..i]));
      var j :| 0 <= j < i && tasks[order[..i][j]].name == d;
      assert tasks[order[j]].name == d && tasks[order[j]] in tasks;
      BlockedNeverRuns(tasks, order, names, j);
    }
  }

  lemma {:induction false} PositionsDiffer(tasks: seq<Task>, order: seq<nat>, i: nat, j: nat)
    requires GoodRun(tasks, order) && i < j < |order|
    ensures tasks[order[i]].name != tasks[order[j]].name
  {
    assert tasks[order[j]].name !in Ran(tasks, order[..j]);
    assert order[..j][i] == order[i];
  }

  /** A run of as many tasks as there are ran them all; then the names differ and nothing was
      blocked. */
  lemma {:induction false} CompleteRun(tasks: seq<Task>, order: seq<nat>)
    requires GoodRun(tasks, order) && |order| == |tasks|
    ensures forall k: nat | k < |tasks| :: k in order
    ensures Distinct(tasks) && forall names :: !Blocked(tasks, names)
  {
    forall i, j | 0 <= i < j < |order| ensures order[i] != order[j] {
      PositionsDiffer(tasks, order, i, j);
    }
    forall k: nat | k < |tasks| ensures k in order {
      if k !in order { FewerThan(order, |tasks|, k); }
    }
    forall i, j | 0 <= i < j < |tasks| ensures tasks[i].name != tasks[j].name {
      assert i in order && j in order;
      var a :| 0 <= a < |order| && order[a] == i;
      var b :| 0 <= b < |order| && order[b] == j;
      if a < b { PositionsDiffer(tasks, order, a, b); } else { PositionsDiffer(tasks, order, b, a); }
    }
    forall names ensures !Blocked(tasks, names) {
      if Blocked(tasks, names) {
        var name :| name in names;
        assert name in NamesOf(tasks);
        var t :| t in tasks && t.name == name;
        var k :| 0 <= k < |tasks| && tasks[k] == t;
        assert k in order;
        var i :| 0 <= i < |order| && order[i] == k;
        BlockedNeverRuns(tasks, order, names, i);
      }
    }
  }

  /** If no task is ready, the names that have not run are blocked, and they contain every blocked
      set. Without such names some name occurs twice. */
  lemma {:induction false} StuckRun(tasks: seq<Task>, order: seq<nat>)
    requires GoodRun(tasks, order) && |order| < |tasks|
    requires forall t | t in tasks && t.name !in Ran(tasks, order) :: !Ready(t, Ran(tasks, order))
    ensures var rest := NamesOf(tasks) - Ran(tasks, order);
            && (if rest == {} then !Distinct(tasks) else Blocked(tasks, rest))
            && forall names | Blocked(tasks, names) :: names <= rest
  {
    var done := Ran(tasks, order);
    var rest := NamesOf(tasks) - done;
    forall t | t in tasks && t.name in rest ensures exists d :: d in t.deps && (d in rest || d !in NamesOf(tasks)) {
      var d :| d in t.deps && d !in done;
    }
    if rest == {} && Distinct(tasks) {
      MoreTasksThanRan(tasks, order);
    }
    forall names | Blocked(tasks, names) ensures names <= rest {
      forall name | name in names ensures name in rest {
        if name in done {
          var i :| 0 <= i < |order| && tasks[order[i]].name == name;
          BlockedNeverRuns(tasks, order, names, i);
        }
      }
    }
  }

  lemma {:induction false} MoreTasksThanRan(tasks: seq<Task>, order: seq<nat>)
    requires GoodRun(tasks, order) && |order| < |tasks| && Distinct(tasks)
    ensures NamesOf(tasks) - Ran(tasks, order) != {}
  {
    if k: nat :| k < |tasks| && k !in order {
      var name := tasks[k].name;
      assert tasks[k] in tasks;
      forall i | 0 <= i < |order| ensures tasks[order[i]].name != name {
        assert order[i] in order;
      }
      assert name in NamesOf(tasks) - Ran(tasks, order);
    } else {
      forall i, j | 0 <= i < j < |order| ensures order[i] != order[j] { PositionsDiffer(tasks, order, i, j); }
      AtLeast(order, |tasks|);
    }
  }

  // --- The program ---

  /** One pass over the tasks: every task that is ready runs. */
  method RunPass(tasks: seq<Task>, order0: seq<nat>, done0: set<string>) returns (order: seq<nat>, done: set<string>)
    requires GoodRun(tasks, order0) && done0 == Ran(tasks, order0)
    ensures GoodRun(tasks, order) && done == Ran(tasks, order) && order0 <= order
    ensures order == order0 ==> forall t | t in tasks && t.name !in done :: !Ready(t, done)
    ensures Ordered(tasks) && Distinct(tasks) && order0 == [] ==> |order| == |tasks| && forall k | 0 <= k < |tasks| :: order[k] == k
  {
    order, done := order0, done0;
    var i := 0;
    hide GoodRun, Ran, Ready, Ordered;
    while i < |tasks|
      invariant i <= |tasks| && GoodRun(tasks, order) && done == Ran(tasks, order) && order0 <= order
      invariant order == order0 ==> forall k | 0 <= k < i && tasks[k].name !in done :: !Ready(tasks[k], done)
      invariant Ordered(tasks) && Distinct(tasks) && order0 == [] ==> |order| == i && forall k | 0 <= k < i :: order[k] == k
    {
      var task := tasks[i];
      if Ordered(tasks) && Distinct(tasks) && order0 == [] { FirstPass(tasks, order, i); }
      if task.name !in done {
        var ready := IsReady(task, done);
        if ready {
          RunNext(tasks, order, i);
          RanOfNext(tasks, order, i);
          order, done := order + [i], done + {task.name};
        }
      }
      i := i + 1;
    }
  }

  method IsReady(task: Task, done: set<string>) returns (ready: bool)
    ensures ready == Ready(task, done)
  {
    var i := 0;
    while i < |task.deps|
      invariant i <= |task.deps| && forall k | 0 <= k < i :: task.deps[k] in done
    {
      if task.deps[i] !in done { return false; }
      i := i + 1;
    }
    return true;
  }

  lemma {:induction false} FirstPass(tasks: seq<Task>, order: seq<nat>, i: nat)
    requires GoodRun(tasks, order) && Ordered(tasks) && Distinct(tasks)
    requires i < |tasks| && |order| == i && forall k | 0 <= k < i :: order[k] == k
    ensures tasks[i].name !in Ran(tasks, order) && Ready(tasks[i], Ran(tasks, order))
  {
    forall d | d in tasks[i].deps ensures d in Ran(tasks, order) {
      assert d in NamesOf(tasks[..i]);
      var t :| t in tasks[..i] && t.name == d;
      var k :| 0 <= k < i && tasks[..i][k] == t;
      assert tasks[order[k]].name == d;
    }
  }

  /** Runs the tasks in passes and fails when a pass runs none: exactly when two tasks have one name
      or some names are blocked. Then the names left are the largest blocked set. Tasks whose
      dependencies come first run in their own order, in one pass. */
  method RunTasks(tasks: seq<Task>) returns (ok: bool, order: seq<nat>, passes: nat)
    ensures GoodRun(tasks, order)
    ensures ok <==> Distinct(tasks) && forall names :: !Blocked(tasks, names)
    ensures ok ==> |order| == |tasks| && forall k: nat | k < |tasks| :: k in order
    ensures !ok && Distinct(tasks) ==> Blocked(tasks, NamesOf(tasks) - Ran(tasks, order))
    ensures forall names | Blocked(tasks, names) :: names <= NamesOf(tasks) - Ran(tasks, order)
    ensures Ordered(tasks) && Distinct(tasks) ==> ok && passes <= 1 && forall k | 0 <= k < |tasks| :: order[k] == k
  {
    order, passes := [], 0;
    var done: set<string> := {};
    var pending := |tasks|;
    assert GoodRun(tasks, order) && Ran(tasks, order) == {};
    hide GoodRun, Ran, Ready, Ordered, Blocked, NamesOf;
    while pending != 0
      invariant GoodRun(tasks, order) && done == Ran(tasks, order) && pending == |tasks| - |order| && pending >= 0
      invariant passes == 0 ==> order == []
      invariant Ordered(tasks) && Distinct(tasks) && passes > 0 ==> pending == 0 && passes == 1
      invariant Ordered(tasks) && Distinct(tasks) && passes > 0 ==> forall k | 0 <= k < |tasks| :: order[k] == k
    {
      var next;
      next, done := RunPass(tasks, order, done);
      passes := passes + 1;
      NotMoreThanTasks(tasks, next);
      if next == order {
        StuckRun(tasks, order);
        return false, order, passes;
      }
      order := next;
      pending := |tasks| - |order|;
    }
    CompleteRun(tasks, order);
    return true, order, passes;
  }

  lemma {:induction false} NotMoreThanTasks(tasks: seq<Task>, order: seq<nat>)
    requires GoodRun(tasks, order)
    ensures |order| <= |tasks|
  {
    forall i, j | 0 <= i < j < |order| ensures order[i] != order[j] { PositionsDiffer(tasks, order, i, j); }
    AtMost(order, |tasks|);
  }

  class TableGen {
    var tasks: seq<Task>
    var taskMap: map<string, Task>

    /** The tasks have different names and depend on earlier ones only. */
    ghost predicate Valid()
      reads this
    {
      Distinct(tasks) && Ordered(tasks) && taskMap.Keys == NamesOf(tasks)
    }

    constructor ()
      ensures Valid() && tasks == []
    {
      tasks, taskMap := [], map[];
    }

    /** Adds a task with a new, non-empty name and known dependencies; refuses any other. */
    method AddTask(task: Task) returns (ok: bool)
      requires Valid()
      modifies this
      ensures Valid()
      ensures ok <==> task.name != "" && task.name !in NamesOf(old(tasks)) && forall d | d in task.deps :: d in NamesOf(old(tasks))
      ensures tasks == if ok then old(tasks) + [task] else old(tasks)
    {
      if task.name == "" || task.name in taskMap { return false; }
      var known := IsReady(task, taskMap.Keys);
      if !known { return false; }
      AddedTask(tasks, task);
      tasks := tasks + [task];
      taskMap := taskMap[task.name := task];
      return true;
    }

    /** Tasks that were added run in the order they were added, in one pass. */
    method Run() returns (ok: bool, order: seq<nat>, passes: nat)
      requires Valid()
      ensures ok && passes <= 1 && |order| == |tasks| && forall k | 0 <= k < |tasks| :: order[k] == k
    {
      ok, order, passes := RunTasks(tasks);
    }
  }

  lemma {:induction false} AddedTask(tasks: seq<Task>, task: Task)
    requires Distinct(tasks) && Ordered(tasks) && task.name !in NamesOf(tasks)
    requires forall d | d in task.deps :: d in NamesOf(tasks)
    ensures Distinct(tasks + [task]) && Ordered(tasks + [task])
    ensures NamesOf(tasks + [task]) == NamesOf(tasks) + {task.name}
  {
    var more := tasks + [task];
    forall i | 0 <= i < |tasks| ensures tasks[i].name != task.name {
      assert tasks[i] in tasks;
    }
    forall i, d | 0 <= i < |more| && d in more[i].deps ensures d in NamesOf(more[..i]) {
      if i < |tasks| { assert more[..i] == tasks[..i]; } else { assert more[..i] == tasks; }
    }
    forall n | n in NamesOf(tasks) + {task.name} ensures n in NamesOf(more) {
      assert task in more;
      if n != task.name {
        var t :| t in tasks && t.name == n;
        assert t in more;
      }
    }
  }
}

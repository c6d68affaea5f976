/**
 * All task-related operations: preparing the list supplied by the external
 * source, lookups, the lock rule, and the completion toggle with its
 * propagation through the dependents.
 */
module TaskManager {
  import opened Wrappers
  import opened Sequences
  import opened TaskModel

  // ---------------------------------------------------------------------
  // Lookups

  /** Some task of the list has the given id. */
  predicate HasTask(tasks: seq<Task>, id: int) {
    exists i :: 0 <= i < |tasks| && tasks[i].id == id
  }

  /** No earlier task of the list has the id of the task at position `i`. */
  predicate IsFirstIndex(tasks: seq<Task>, i: int)
    requires 0 <= i < |tasks|
  {
    forall j :: 0 <= j < i ==> tasks[j].id != tasks[i].id
  }

  /** The ids of the tasks, in list order. */
  function Ids(tasks: seq<Task>): (r: seq<int>)
    ensures |r| == |tasks|
    ensures forall i :: 0 <= i < |tasks| ==> r[i] == tasks[i].id
  {
    if |tasks| == 0 then [] else [tasks[0].id] + Ids(tasks[1..])
  }

  /** Position of the first task with the given id (`findIndex`), None when there is none. */
  function FindIndex(tasks: seq<Task>, id: int): (r: Option<nat>)
    ensures r.Some? <==> HasTask(tasks, id)
    ensures r.Some? ==> r.value < |tasks| && tasks[r.value].id == id && IsFirstIndex(tasks, r.value)
    decreases |tasks|
  {
    if |tasks| == 0 then None
    else if tasks[0].id == id then Some(0)
    else
      var rest := FindIndex(tasks[1..], id);
      assert HasTask(tasks, id) ==> HasTask(tasks[1..], id) by {
        if HasTask(tasks, id) {
          var i :| 0 <= i < |tasks| && tasks[i].id == id;
          assert tasks[1..][i - 1].id == id;
        }
      }
      match rest
      case None => None
      case Some(k) =>
        assert tasks[k + 1] == tasks[1..][k];
        assert forall j :: 1 <= j <= k ==> tasks[j] == tasks[1..][j - 1];
        Some(k + 1)
  }

  /** The first task with the given id, or None (`getTaskOrUndefinedById`). */
  function GetTaskOrUndefinedById(tasks: seq<Task>, id: int): (r: Option<Task>)
    ensures r.Some? <==> HasTask(tasks, id)
    ensures r.Some? ==> r.value.id == id
    ensures r.Some? ==> exists k :: 0 <= k < |tasks| && IsFirstIndex(tasks, k) && tasks[k] == r.value
  {
    match FindIndex(tasks, id)
    case None => None
    case Some(k) => Some(tasks[k])
  }

  /** The error `getTaskById` throws: "There is no task with ID=<id>". */
  datatype LookupError = NoTaskWithId(id: int)

  /** The first task with the given id; an error when the list has none. */
  function GetTaskById(tasks: seq<Task>, id: int): (r: Result<Task, LookupError>)
    ensures r.Failure? <==> !HasTask(tasks, id)
    ensures r.Failure? ==> r.error == NoTaskWithId(id)
    ensures r.Success? ==> r.value.id == id
    ensures r.Success? ==> exists k :: 0 <= k < |tasks| && IsFirstIndex(tasks, k) && tasks[k] == r.value
  {
    match GetTaskOrUndefinedById(tasks, id)
    case None => Failure(NoTaskWithId(id))
    case Some(t) => Success(t)
  }

  /** With unique ids, looking up the id of a task finds that task. */
  lemma {:induction false} UniqueIdLookup(tasks: seq<Task>, t: int)
    requires NoDuplicates(Ids(tasks)) && 0 <= t < |tasks|
    ensures GetTaskOrUndefinedById(tasks, tasks[t].id) == Some(tasks[t])
    ensures GetTaskById(tasks, tasks[t].id) == Success(tasks[t])
  {
    var k := FindIndex(tasks, tasks[t].id).value;
    assert Ids(tasks)[k] == Ids(tasks)[t];
  }

  // ---------------------------------------------------------------------
  // Group filter

  /** ASCII upper-casing of one character. */
  function UpperChar(c: char): char {
    if 'a' <= c <= 'z' then (c as int - 'a' as int + 'A' as int) as char else c
  }

  /** Upper-cased string (`toUpperCase`, restricted to ASCII letters). */
  function ToUpperCase(s: string): (r: string)
    ensures |r| == |s|
    ensures forall i :: 0 <= i < |s| ==> r[i] == UpperChar(s[i])
  {
    if |s| == 0 then "" else [UpperChar(s[0])] + ToUpperCase(s[1..])
  }

  /** The group names of two tasks match ignoring case. */
  predicate SameGroup(a: string, b: string) {
    ToUpperCase(a) == ToUpperCase(b)
  }

  /** The tasks whose group equals `group` ignoring case, in list order. */
  function GetGroupTasks(tasks: seq<Task>, group: string): (r: seq<Task>)
    ensures IsSubsequence(r, tasks)
    ensures forall t :: t in r <==> t in tasks && SameGroup(t.group, group)
    ensures forall t :: multiset(r)[t] == if SameGroup(t.group, group) then multiset(tasks)[t] else 0
    decreases |tasks|
  {
    if |tasks| == 0 then []
    else
      var rest := GetGroupTasks(tasks[1..], group);
      assert forall t :: t in tasks <==> t == tasks[0] || t in tasks[1..];
      assert tasks == [tasks[0]] + tasks[1..];
      if SameGroup(tasks[0].group, group) then
        assert ([tasks[0]] + rest)[1..] == rest;
        [tasks[0]] + rest
      else rest
  }

  /** The filter only depends on the group name up to case. */
  lemma {:induction false} GroupTasksIgnoreCase(tasks: seq<Task>, g1: string, g2: string)
    requires SameGroup(g1, g2)
    ensures GetGroupTasks(tasks, g1) == GetGroupTasks(tasks, g2)
    decreases |tasks|
  {
    if |tasks| > 0 {
      GroupTasksIgnoreCase(tasks[1..], g1, g2);
    }
  }

  // ---------------------------------------------------------------------
  // Preparation: orphan removal and dependents

  /** The entries of `ids` that name a task of `allTasks`, in their original order. */
  function KeepKnownIds(allTasks: seq<Task>, ids: seq<int>): (r: seq<int>)
    ensures IsSubsequence(r, ids)
    ensures forall x :: x in r <==> x in ids && HasTask(allTasks, x)
    ensures (forall k :: 0 <= k < |ids| ==> HasTask(allTasks, ids[k])) ==> r == ids
    ensures forall x :: multiset(r)[x] == if HasTask(allTasks, x) then multiset(ids)[x] else 0
    decreases |ids|
  {
    if |ids| == 0 then []
    else
      var rest := KeepKnownIds(allTasks, ids[1..]);
      assert ids == [ids[0]] + ids[1..];
      assert forall x :: x in ids <==> x == ids[0] || x in ids[1..];
      assert forall k :: 1 <= k < |ids| ==> ids[1..][k - 1] == ids[k];
      if GetTaskOrUndefinedById(allTasks, ids[0]).Some? then
        assert ([ids[0]] + rest)[1..] == rest;
        [ids[0]] + rest
      else rest
  }

  /** Removes the dependency ids that name no task of the list. */
  function RemoveOrphanDependents(allTasks: seq<Task>, task: Task): (r: Task)
    ensures r == task.(dependencyIds := r.dependencyIds)
    ensures IsSubsequence(r.dependencyIds, task.dependencyIds)
    ensures forall x :: x in r.dependencyIds <==> x in task.dependencyIds && HasTask(allTasks, x)
    ensures forall x :: multiset(r.dependencyIds)[x] == if HasTask(allTasks, x) then multiset(task.dependencyIds)[x] else 0
    ensures DependenciesResolved(allTasks, task) ==> r == task
  {
    task.(dependencyIds := KeepKnownIds(allTasks, task.dependencyIds))
  }

  /**
   * Position by position, whether the task there has id `x` and lists `id`
   * among its dependencies; its count of `true` is the number of such tasks.
   */
  function DependsMask(allTasks: seq<Task>, id: int, x: int): seq<bool> {
    seq(|allTasks|, j requires 0 <= j < |allTasks| => allTasks[j].id == x && id in allTasks[j].dependencyIds)
  }

  /** The flag of the first task of a non-empty list. */
  function FirstDepends(allTasks: seq<Task>, id: int, x: int): bool
    requires |allTasks| > 0
  {
    allTasks[0].id == x && id in allTasks[0].dependencyIds
  }

  /** The mask of a non-empty list is the flag of its first task followed by the mask of the rest. */
  lemma {:induction false} DependsMaskSplit(allTasks: seq<Task>, id: int)
    requires |allTasks| > 0
    ensures forall x :: DependsMask(allTasks, id, x) == [FirstDepends(allTasks, id, x)] + DependsMask(allTasks[1..], id, x)
  {
    forall x ensures DependsMask(allTasks, id, x) == [FirstDepends(allTasks, id, x)] + DependsMask(allTasks[1..], id, x) {
      assert forall j :: 1 <= j < |allTasks| ==> allTasks[j] == allTasks[1..][j - 1];
    }
  }

  /** Lists with the same ids and dependency ids have the same masks. */
  lemma {:induction false} DependsMaskSameGraph(l1: seq<Task>, l2: seq<Task>)
    requires SameDependencyGraph(l1, l2)
    ensures forall id, x :: DependsMask(l1, id, x) == DependsMask(l2, id, x)
  {
  }

  /**
   * The positions, from `lo` on, of the tasks that list `id` among their
   * dependencies, in increasing order.
   */
  function DependingPositions(allTasks: seq<Task>, id: int, lo: nat): (pos: seq<nat>)
    requires lo <= |allTasks|
    ensures forall k :: 0 <= k < |pos| ==> lo <= pos[k] < |allTasks|
    ensures forall k, l :: 0 <= k < l < |pos| ==> pos[k] < pos[l]
    ensures forall j: int :: j in pos <==> lo <= j < |allTasks| && id in allTasks[j].dependencyIds
    decreases |allTasks| - lo
  {
    if lo == |allTasks| then []
    else (if id in allTasks[lo].dependencyIds then [lo] else []) + DependingPositions(allTasks, id, lo + 1)
  }

  /** The ids of the tasks at the given positions, in the order of the positions. */
  function IdsAt(allTasks: seq<Task>, pos: seq<nat>): seq<int>
    requires forall k :: 0 <= k < |pos| ==> pos[k] < |allTasks|
  {
    seq(|pos|, k requires 0 <= k < |pos| => allTasks[pos[k]].id)
  }

  /**
   * The ids of the tasks that list `id` among their dependencies, in list
   * order (the `reduce`); an id is listed once per such task.
   */
  function DependentsOf(allTasks: seq<Task>, id: int): (r: seq<int>)
    ensures |r| <= |allTasks|
    ensures IsSubsequence(r, Ids(allTasks))
    ensures forall x :: x in r <==>
      exists j :: 0 <= j < |allTasks| && allTasks[j].id == x && id in allTasks[j].dependencyIds
    ensures forall x :: multiset(r)[x] == multiset(DependsMask(allTasks, id, x))[true]
    decreases |allTasks|
  {
    if |allTasks| == 0 then []
    else
      var rest := DependentsOf(allTasks[1..], id);
      DependsMaskSplit(allTasks, id);
      assert Ids(allTasks)[1..] == Ids(allTasks[1..]);
      assert forall j :: 1 <= j < |allTasks| ==> allTasks[j] == allTasks[1..][j - 1];
      if id in allTasks[0].dependencyIds then
        assert ([allTasks[0].id] + rest)[1..] == rest;
        [allTasks[0].id] + rest
      else rest
  }

  /** The dependents of the suffix from `lo`: the task at `lo` if it depends on `id`, then those of the next suffix. */
  lemma {:induction false} DependentsOfSuffixStep(allTasks: seq<Task>, id: int, lo: nat)
    requires lo < |allTasks|
    ensures DependentsOf(allTasks[lo..], id) ==
      (if id in allTasks[lo].dependencyIds then [allTasks[lo].id] else []) + DependentsOf(allTasks[lo + 1..], id)
  {
    assert allTasks[lo..][1..] == allTasks[lo + 1..];
  }

  /** The ids at a position followed by more positions. */
  lemma {:induction false} IdsAtCons(allTasks: seq<Task>, lo: nat, rest: seq<nat>)
    requires lo < |allTasks| && forall k :: 0 <= k < |rest| ==> rest[k] < |allTasks|
    ensures IdsAt(allTasks, [lo] + rest) == [allTasks[lo].id] + IdsAt(allTasks, rest)
  {
  }

  /** The dependents of a suffix of the list are the ids at its depending positions. */
  lemma {:induction false} DependentsOfSuffixInOrder(allTasks: seq<Task>, id: int, lo: nat)
    requires lo <= |allTasks|
    ensures DependentsOf(allTasks[lo..], id) == IdsAt(allTasks, DependingPositions(allTasks, id, lo))
    decreases |allTasks| - lo
  {
    if lo == |allTasks| {
      assert allTasks[lo..] == [];
    } else {
      DependentsOfSuffixInOrder(allTasks, id, lo + 1);
      DependentsOfSuffixStep(allTasks, id, lo);
      var rest := DependingPositions(allTasks, id, lo + 1);
      if id in allTasks[lo].dependencyIds {
        IdsAtCons(allTasks, lo, rest);
      }
    }
  }

  /**
   * The dependents are the ids of the depending tasks in list order: one
   * entry per depending position, the positions increasing.
   */
  lemma {:induction false} DependentsInListOrder(allTasks: seq<Task>, id: int)
    ensures DependentsOf(allTasks, id) == IdsAt(allTasks, DependingPositions(allTasks, id, 0))
  {
    DependentsOfSuffixInOrder(allTasks, id, 0);
    assert allTasks[0..] == allTasks;
  }

  /** Lists with the same ids and dependency ids have the same depending positions. */
  lemma {:induction false} DependingPositionsSameGraph(l1: seq<Task>, l2: seq<Task>, id: int, lo: nat)
    requires SameDependencyGraph(l1, l2) && lo <= |l1|
    ensures DependingPositions(l1, id, lo) == DependingPositions(l2, id, lo)
    decreases |l1| - lo
  {
    if lo < |l1| {
      DependingPositionsSameGraph(l1, l2, id, lo + 1);
      assert l1[lo].dependencyIds == l2[lo].dependencyIds;
    }
  }

  /** Lists with the same ids and dependency ids have the same ids at the same positions. */
  lemma {:induction false} IdsAtSameGraph(l1: seq<Task>, l2: seq<Task>, pos: seq<nat>)
    requires SameDependencyGraph(l1, l2) && forall k :: 0 <= k < |pos| ==> pos[k] < |l1|
    ensures IdsAt(l1, pos) == IdsAt(l2, pos)
  {
  }

  /** With unique ids every dependent is listed once. */
  lemma {:induction false} DependentsListedOnce(allTasks: seq<Task>, id: int)
    requires NoDuplicates(Ids(allTasks))
    ensures NoDuplicates(DependentsOf(allTasks, id))
  {
    SubsequenceNoDuplicates(DependentsOf(allTasks, id), Ids(allTasks));
  }

  /** Sets the dependents of a task: the tasks of the list whose dependencies contain it. */
  function SetTaskDependents(allTasks: seq<Task>, task: Task): (r: Task)
    ensures r == task.(dependentIds := r.dependentIds)
    ensures IsSubsequence(r.dependentIds, Ids(allTasks))
    ensures forall x :: x in r.dependentIds <==>
      exists j :: 0 <= j < |allTasks| && allTasks[j].id == x && task.id in allTasks[j].dependencyIds
    ensures forall x :: multiset(r.dependentIds)[x] == multiset(DependsMask(allTasks, task.id, x))[true]
    ensures r.dependentIds == IdsAt(allTasks, DependingPositions(allTasks, task.id, 0))
  {
    DependentsInListOrder(allTasks, task.id);
    task.(dependentIds := DependentsOf(allTasks, task.id))
  }

  // ---------------------------------------------------------------------
  // Well-formed lists

  /** Every dependency id of the task names a task of the list. */
  predicate DependenciesResolved(allTasks: seq<Task>, task: Task) {
    forall k :: 0 <= k < |task.dependencyIds| ==> HasTask(allTasks, task.dependencyIds[k])
  }

  /** Every dependent id of the task names a task of the list. */
  predicate DependentsResolved(allTasks: seq<Task>, task: Task) {
    forall k :: 0 <= k < |task.dependentIds| ==> HasTask(allTasks, task.dependentIds[k])
  }

  /** No dependency id of any task is an orphan. */
  predicate NoOrphans(allTasks: seq<Task>) {
    forall i :: 0 <= i < |allTasks| ==> DependenciesResolved(allTasks, allTasks[i])
  }

  /** `rank` strictly decreases along every dependency edge between tasks of the list. */
  ghost predicate RankedBy(allTasks: seq<Task>, rank: int -> nat) {
    forall i, k :: 0 <= i < |allTasks| && 0 <= k < |allTasks[i].dependencyIds| && HasTask(allTasks, allTasks[i].dependencyIds[k])
      ==> rank(allTasks[i].dependencyIds[k]) < rank(allTasks[i].id)
  }

  /** The dependency graph, orphans ignored, has no cycle. */
  ghost predicate Acyclic(allTasks: seq<Task>) {
    exists rank: int -> nat :: RankedBy(allTasks, rank)
  }

  /** A rank witnessing acyclicity. */
  ghost function SomeRank(allTasks: seq<Task>): (rank: int -> nat)
    requires Acyclic(allTasks)
    ensures RankedBy(allTasks, rank)
  {
    var rank :| RankedBy(allTasks, rank); rank
  }

  /** The invariant of a prepared list: no orphans, dependents resolvable, no cycle. */
  ghost predicate Consistent(allTasks: seq<Task>) {
    && NoOrphans(allTasks)
    && Acyclic(allTasks)
    && forall i :: 0 <= i < |allTasks| ==> DependentsResolved(allTasks, allTasks[i])
  }

  // ---------------------------------------------------------------------
  // Lock rule

  /** Termination measure of the lock rule: the rank of the first dependency. */
  ghost function LockDepth(rank: int -> nat, task: Task): nat {
    if |task.dependencyIds| == 0 then 0 else rank(task.dependencyIds[0]) + 1
  }

  /**
   * The lock rule as written: a task without dependencies is not locked;
   * otherwise only its FIRST dependency is examined: the task is locked when
   * that dependency is not completed, or else when it is itself locked.
   */
  function HasUncompletedDependency(allTasks: seq<Task>, task: Task): bool
    requires NoOrphans(allTasks) && Acyclic(allTasks) && DependenciesResolved(allTasks, task)
    decreases LockDepth(SomeRank(allTasks), task)
  {
    if |task.dependencyIds| == 0 then false
    else
      var dependency := GetTaskById(allTasks, task.dependencyIds[0]).value;
      if dependency.completedAt.None? then true
      else HasUncompletedDependency(allTasks, dependency)
  }

  /** Sets the locked state of a task from its dependencies. */
  function SetTaskLockedStateByDependencies(allTasks: seq<Task>, task: Task): (r: Task)
    requires NoOrphans(allTasks) && Acyclic(allTasks) && DependenciesResolved(allTasks, task)
    ensures r == task.(isLocked := r.isLocked)
    ensures r.isLocked == HasUncompletedDependency(allTasks, task)
    ensures !r.isLocked <== |task.dependencyIds| == 0
  {
    task.(isLocked := HasUncompletedDependency(allTasks, task))
  }

  /**
   * `p` is the chain of first dependencies of `task`: p[0] is the task named
   * by its first dependency id, each next element the task named by the first
   * dependency id of the previous one, and the last has no dependency.
   */
  ghost predicate IsFirstDependencyChain(allTasks: seq<Task>, task: Task, p: seq<Task>) {
    && (|p| == 0 <==> |task.dependencyIds| == 0)
    && (|p| > 0 ==> GetTaskById(allTasks, task.dependencyIds[0]) == Success(p[0]))
    && (forall k :: 0 <= k < |p| - 1 ==>
          |p[k].dependencyIds| > 0 && GetTaskById(allTasks, p[k].dependencyIds[0]) == Success(p[k + 1]))
    && (|p| > 0 ==> |p[|p| - 1].dependencyIds| == 0)
  }

  /** The lock rule, characterized: locked exactly when some task on the first-dependency chain is not completed. */
  lemma {:induction false} LockedIffChainIncomplete(allTasks: seq<Task>, task: Task, p: seq<Task>)
    requires NoOrphans(allTasks) && Acyclic(allTasks) && DependenciesResolved(allTasks, task)
    requires IsFirstDependencyChain(allTasks, task, p)
    ensures HasUncompletedDependency(allTasks, task) <==> exists k :: 0 <= k < |p| && p[k].completedAt.None?
    decreases |p|
  {
    if |p| > 0 {
      var d := p[0];
      assert IsFirstDependencyChain(allTasks, d, p[1..]) by {
        forall k | 0 <= k < |p[1..]| - 1
          ensures |p[1..][k].dependencyIds| > 0 && GetTaskById(allTasks, p[1..][k].dependencyIds[0]) == Success(p[1..][k + 1])
        {
          assert p[1..][k] == p[k + 1] && p[1..][k + 1] == p[k + 2];
        }
        if |p| > 1 {
          assert |p[0].dependencyIds| > 0;
        }
      }
      LockedIffChainIncomplete(allTasks, d, p[1..]);
      assert forall k :: 1 <= k < |p| ==> p[k] == p[1..][k - 1];
    }
  }

  /** The chain of the first dependency `d` of a task, with `d` in front, is the chain of the task. */
  lemma {:induction false} PrependFirstDependency(allTasks: seq<Task>, task: Task, d: Task, q: seq<Task>)
    requires |task.dependencyIds| > 0 && GetTaskById(allTasks, task.dependencyIds[0]) == Success(d)
    requires IsFirstDependencyChain(allTasks, d, q)
    ensures IsFirstDependencyChain(allTasks, task, [d] + q)
  {
    var p := [d] + q;
    assert forall k :: 1 <= k < |p| ==> p[k] == q[k - 1];
  }

  /** Every task has a first-dependency chain. */
  lemma {:induction false} FirstDependencyChainExists(allTasks: seq<Task>, task: Task)
    requires NoOrphans(allTasks) && Acyclic(allTasks) && DependenciesResolved(allTasks, task)
    ensures exists p :: IsFirstDependencyChain(allTasks, task, p)
    decreases LockDepth(SomeRank(allTasks), task)
  {
    if |task.dependencyIds| == 0 {
      assert IsFirstDependencyChain(allTasks, task, []);
    } else {
      var d := GetTaskById(allTasks, task.dependencyIds[0]).value;
      FirstDependencyChainExists(allTasks, d);
      var q :| IsFirstDependencyChain(allTasks, d, q);
      PrependFirstDependency(allTasks, task, d, q);
    }
  }

  /** `p` is a path of direct dependencies from `task`: each element is a task of the list named by the previous one's dependencies. */
  ghost predicate IsDependencyPath(allTasks: seq<Task>, task: Task, p: seq<Task>) {
    && |p| > 0
    && p[0].id in task.dependencyIds
    && (forall k :: 0 <= k < |p| ==> p[k] in allTasks)
    && (forall k :: 0 <= k < |p| - 1 ==> p[k + 1].id in p[k].dependencyIds)
  }

  /** A dependency path of `d`, with `d` in front, is one of any task depending on `d`. */
  lemma {:induction false} PrependDependency(allTasks: seq<Task>, task: Task, d: Task, q: seq<Task>)
    requires d in allTasks && d.id in task.dependencyIds
    requires IsDependencyPath(allTasks, d, q)
    ensures IsDependencyPath(allTasks, task, [d] + q) && ([d] + q)[|q|] == q[|q| - 1]
  {
    var p := [d] + q;
    forall k | 0 <= k < |p| ensures p[k] in allTasks {
      if k > 0 { assert p[k] == q[k - 1]; }
    }
    forall k | 0 <= k < |p| - 1 ensures p[k + 1].id in p[k].dependencyIds {
      if k > 0 { assert p[k] == q[k - 1] && p[k + 1] == q[k]; }
    }
  }

  /** Soundness of the lock rule: a locked task has an incomplete direct or indirect dependency. */
  lemma {:induction false} LockedHasIncompleteDependency(allTasks: seq<Task>, task: Task)
    requires NoOrphans(allTasks) && Acyclic(allTasks) && DependenciesResolved(allTasks, task)
    requires HasUncompletedDependency(allTasks, task)
    ensures exists p: seq<Task> :: IsDependencyPath(allTasks, task, p) && p[|p| - 1].completedAt.None?
    decreases LockDepth(SomeRank(allTasks), task)
  {
    var d := GetTaskById(allTasks, task.dependencyIds[0]).value;
    assert d in allTasks && d.id in task.dependencyIds;
    if d.completedAt.None? {
      assert IsDependencyPath(allTasks, task, [d]);
    } else {
      LockedHasIncompleteDependency(allTasks, d);
      var q: seq<Task> :| IsDependencyPath(allTasks, d, q) && q[|q| - 1].completedAt.None?;
      PrependDependency(allTasks, task, d, q);
      assert IsDependencyPath(allTasks, task, [d] + q);
    }
  }

  /** When every task of the list is completed, no task is locked. */
  lemma {:induction false} AllCompletedNoneLocked(allTasks: seq<Task>, task: Task)
    requires NoOrphans(allTasks) && Acyclic(allTasks) && DependenciesResolved(allTasks, task)
    requires forall i :: 0 <= i < |allTasks| ==> allTasks[i].completedAt.Some?
    ensures !HasUncompletedDependency(allTasks, task)
    decreases LockDepth(SomeRank(allTasks), task)
  {
    if |task.dependencyIds| > 0 {
      AllCompletedNoneLocked(allTasks, GetTaskById(allTasks, task.dependencyIds[0]).value);
    }
  }

  /** When no task of the list is completed, exactly the tasks with dependencies are locked. */
  lemma {:induction false} AllIncompleteLockedIffDependencies(allTasks: seq<Task>, task: Task)
    requires NoOrphans(allTasks) && Acyclic(allTasks) && DependenciesResolved(allTasks, task)
    requires forall i :: 0 <= i < |allTasks| ==> allTasks[i].completedAt.None?
    ensures HasUncompletedDependency(allTasks, task) <==> |task.dependencyIds| > 0
  {
  }

  /**
   * The lock rule does not look past the first dependency: a task whose first
   * dependency is completed and free, but whose second is not completed, is
   * not locked.
   */
  lemma LockRuleIgnoresLaterDependencies()
    ensures var done := Task(1, "a", "g", [], Some(0), false, [3]);
            var open := Task(2, "b", "g", [], None, false, [3]);
            var both := Task(3, "c", "g", [1, 2], None, false, []);
            var all := [done, open, both];
            NoOrphans(all) && Acyclic(all) && DependenciesResolved(all, both)
            && open.completedAt.None? && 2 in both.dependencyIds
            && !HasUncompletedDependency(all, both)
  {
    var done := Task(1, "a", "g", [], Some(0), false, [3]);
    var open := Task(2, "b", "g", [], None, false, [3]);
    var both := Task(3, "c", "g", [1, 2], None, false, []);
    var all := [done, open, both];
    assert HasTask(all, 1) && HasTask(all, 2) by { assert all[0].id == 1 && all[1].id == 2; }
    assert NoOrphans(all);
    var rank: int -> nat := x => if x == 3 then 1 else 0;
    assert RankedBy(all, rank);
    assert GetTaskById(all, 1) == Success(done) by {
      assert FindIndex(all, 1) == Some(0);
    }
  }

  // ---------------------------------------------------------------------
  // Views: the fields the lock rule reads

  /** Two lists agree on ids and dependency ids, position by position. */
  predicate SameDependencyGraph(l1: seq<Task>, l2: seq<Task>) {
    && |l1| == |l2|
    && forall i :: 0 <= i < |l1| ==> l1[i].id == l2[i].id && l1[i].dependencyIds == l2[i].dependencyIds
  }

  /** Two lists agree on everything the lock rule reads: ids, dependency ids and completion times. */
  predicate SameLockView(l1: seq<Task>, l2: seq<Task>) {
    && SameDependencyGraph(l1, l2)
    && forall i :: 0 <= i < |l1| ==> l1[i].completedAt == l2[i].completedAt
  }

  /** Two lists agree on ids, dependency ids and dependent ids. */
  predicate SameShape(l1: seq<Task>, l2: seq<Task>) {
    && SameDependencyGraph(l1, l2)
    && forall i :: 0 <= i < |l1| ==> l1[i].dependentIds == l2[i].dependentIds
  }

  /** Lookups only depend on the ids. */
  lemma {:induction false} FindIndexSameIds(l1: seq<Task>, l2: seq<Task>, id: int)
    requires |l1| == |l2| && forall i :: 0 <= i < |l1| ==> l1[i].id == l2[i].id
    ensures FindIndex(l1, id) == FindIndex(l2, id)
    decreases |l1|
  {
    if |l1| > 0 && l1[0].id != id {
      FindIndexSameIds(l1[1..], l2[1..], id);
    }
  }

  /** Well-formedness only depends on the dependency graph. */
  lemma {:induction false} SameGraphWellFormed(l1: seq<Task>, l2: seq<Task>)
    requires SameDependencyGraph(l1, l2)
    ensures forall x :: HasTask(l1, x) <==> HasTask(l2, x)
    ensures NoOrphans(l1) <==> NoOrphans(l2)
    ensures Acyclic(l1) <==> Acyclic(l2)
  {
    forall x ensures HasTask(l1, x) <==> HasTask(l2, x) {
      FindIndexSameIds(l1, l2, x);
    }
    if Acyclic(l1) {
      assert RankedBy(l2, SomeRank(l1));
    }
    if Acyclic(l2) {
      assert RankedBy(l1, SomeRank(l2));
    }
  }

  /** Lists with the same dependency graph have the same ids. */
  lemma {:induction false} SameGraphIds(l1: seq<Task>, l2: seq<Task>)
    requires SameDependencyGraph(l1, l2)
    ensures Ids(l1) == Ids(l2)
  {
    assert forall m :: 0 <= m < |l1| ==> Ids(l1)[m] == Ids(l2)[m];
  }

  /** The consistency invariant only depends on the shape. */
  lemma {:induction false} SameShapeConsistent(l1: seq<Task>, l2: seq<Task>)
    requires SameShape(l1, l2)
    ensures Consistent(l1) <==> Consistent(l2)
  {
    SameGraphWellFormed(l1, l2);
  }

  /** The lock rule only reads ids, dependency ids and completion times. */
  lemma {:induction false} LockStateDependsOnlyOnView(l1: seq<Task>, l2: seq<Task>, t1: Task, t2: Task)
    requires SameLockView(l1, l2) && t1.dependencyIds == t2.dependencyIds
    requires NoOrphans(l1) && Acyclic(l1) && DependenciesResolved(l1, t1)
    ensures NoOrphans(l2) && Acyclic(l2) && DependenciesResolved(l2, t2)
    ensures HasUncompletedDependency(l1, t1) == HasUncompletedDependency(l2, t2)
    decreases LockDepth(SomeRank(l1), t1)
  {
    SameGraphWellFormed(l1, l2);
    if |t1.dependencyIds| > 0 {
      var x := t1.dependencyIds[0];
      FindIndexSameIds(l1, l2, x);
      var k := FindIndex(l1, x).value;
      assert GetTaskById(l1, x).value == l1[k];
      assert GetTaskById(l2, x).value == l2[k];
      LockStateDependsOnlyOnView(l1, l2, l1[k], l2[k]);
    }
  }

  /** Lists with the same ids, position by position, have the same tasks by id. */
  lemma {:induction false} SameIdsHasTask(l1: seq<Task>, l2: seq<Task>)
    requires |l1| == |l2| && forall i :: 0 <= i < |l1| ==> l1[i].id == l2[i].id
    ensures forall x :: HasTask(l1, x) <==> HasTask(l2, x)
  {
    forall x ensures HasTask(l1, x) <==> HasTask(l2, x) {
      FindIndexSameIds(l1, l2, x);
    }
  }

  // ---------------------------------------------------------------------
  // Preparation pipeline

  /** Converts the records supplied by the external source to "normal" tasks, in order. */
  function ExtendTasks(allTaskBare: seq<TaskBare>): (r: seq<Task>)
    ensures |r| == |allTaskBare|
    ensures forall i :: 0 <= i < |r| ==> AsBare(r[i]) == allTaskBare[i] && !r[i].isLocked && r[i].dependentIds == []
  {
    seq(|allTaskBare|, i requires 0 <= i < |allTaskBare| => CreateFromBare(allTaskBare[i]))
  }

  /** Orphan removal keeps the ids and leaves a list without orphans and without cycles. */
  lemma {:induction false} OrphanRemovalWellFormed(allTasks: seq<Task>, cleaned: seq<Task>)
    requires |cleaned| == |allTasks|
    requires forall i :: 0 <= i < |allTasks| ==> cleaned[i] == RemoveOrphanDependents(allTasks, allTasks[i])
    requires Acyclic(allTasks)
    ensures forall x :: HasTask(cleaned, x) <==> HasTask(allTasks, x)
    ensures NoOrphans(cleaned) && Acyclic(cleaned)
  {
    SameIdsHasTask(allTasks, cleaned);
    var rank := SomeRank(allTasks);
    forall i, k | 0 <= i < |cleaned| && 0 <= k < |cleaned[i].dependencyIds|
      ensures HasTask(cleaned, cleaned[i].dependencyIds[k])
      ensures rank(cleaned[i].dependencyIds[k]) < rank(cleaned[i].id)
    {
      var x := cleaned[i].dependencyIds[k];
      assert x in cleaned[i].dependencyIds;
      var k' :| 0 <= k' < |allTasks[i].dependencyIds| && allTasks[i].dependencyIds[k'] == x;
    }
    assert RankedBy(cleaned, rank);
  }

  /** The first preparation stage: every record without its orphan dependency ids. */
  function CleanedStage(allTasks: seq<Task>): seq<Task> {
    seq(|allTasks|, i requires 0 <= i < |allTasks| => RemoveOrphanDependents(allTasks, allTasks[i]))
  }

  /** The second preparation stage: every record with its dependents set. */
  function DependentsStage(cleaned: seq<Task>): seq<Task> {
    seq(|cleaned|, i requires 0 <= i < |cleaned| => SetTaskDependents(cleaned, cleaned[i]))
  }

  /** Setting the dependents leaves the dependency ids, so they still name records of the cleaned list. */
  lemma {:induction false} DependentsStageResolved(cleaned: seq<Task>)
    requires NoOrphans(cleaned)
    ensures forall i :: 0 <= i < |DependentsStage(cleaned)| ==> DependenciesResolved(cleaned, DependentsStage(cleaned)[i])
  {
    forall i | 0 <= i < |DependentsStage(cleaned)| ensures DependenciesResolved(cleaned, DependentsStage(cleaned)[i]) {
      assert DependentsStage(cleaned)[i].dependencyIds == cleaned[i].dependencyIds;
      assert DependenciesResolved(cleaned, cleaned[i]);
    }
  }

  /** The last preparation stage: every record with its locked state set from the cleaned list. */
  function LockedStage(cleaned: seq<Task>, withDependents: seq<Task>): seq<Task>
    requires NoOrphans(cleaned) && Acyclic(cleaned)
    requires forall i :: 0 <= i < |withDependents| ==> DependenciesResolved(cleaned, withDependents[i])
  {
    seq(|withDependents|, i requires 0 <= i < |withDependents| => SetTaskLockedStateByDependencies(cleaned, withDependents[i]))
  }

  /** The last stage changes only locked states, each to the lock rule evaluated on the cleaned list. */
  lemma {:induction false} LockedStageFacts(cleaned: seq<Task>, withDependents: seq<Task>)
    requires NoOrphans(cleaned) && Acyclic(cleaned)
    requires forall i :: 0 <= i < |withDependents| ==> DependenciesResolved(cleaned, withDependents[i])
    ensures |LockedStage(cleaned, withDependents)| == |withDependents|
    ensures forall i :: 0 <= i < |withDependents| ==>
      && LockedStage(cleaned, withDependents)[i] == withDependents[i].(isLocked := LockedStage(cleaned, withDependents)[i].isLocked)
      && LockedStage(cleaned, withDependents)[i].isLocked == HasUncompletedDependency(cleaned, withDependents[i])
  {
  }

  /**
   * Prepares the list supplied by the external source for the UI: lifts the
   * records, removes orphan dependency ids, sets the dependents and then the
   * locked state. The records must be free of dependency cycles.
   */
  function PrepareTaskList(allTasksBare: seq<TaskBare>): (r: seq<Task>)
    requires Acyclic(ExtendTasks(allTasksBare))
    ensures |r| == |allTasksBare|
    ensures forall i :: 0 <= i < |r| ==>
      && r[i].id == allTasksBare[i].id && r[i].task == allTasksBare[i].task
      && r[i].group == allTasksBare[i].group && r[i].completedAt == allTasksBare[i].completedAt
    ensures forall i :: 0 <= i < |r| ==> IsSubsequence(r[i].dependencyIds, allTasksBare[i].dependencyIds)
    ensures forall i, x :: 0 <= i < |r| ==>
      (x in r[i].dependencyIds <==> x in allTasksBare[i].dependencyIds && HasTask(r, x))
    ensures forall i :: 0 <= i < |r| ==> IsSubsequence(r[i].dependentIds, Ids(r))
    ensures forall i, x :: 0 <= i < |r| ==>
      (x in r[i].dependentIds <==> exists j :: 0 <= j < |r| && r[j].id == x && r[i].id in r[j].dependencyIds)
    ensures Consistent(r)
    ensures forall i :: 0 <= i < |r| ==> r[i].isLocked == HasUncompletedDependency(r, r[i])
  {
    OrphanRemovalWellFormed(ExtendTasks(allTasksBare), CleanedStage(ExtendTasks(allTasksBare)));
    DependentsStageResolved(CleanedStage(ExtendTasks(allTasksBare)));
    LockedStageFacts(CleanedStage(ExtendTasks(allTasksBare)), DependentsStage(CleanedStage(ExtendTasks(allTasksBare))));
    var r := LockedStage(CleanedStage(ExtendTasks(allTasksBare)), DependentsStage(CleanedStage(ExtendTasks(allTasksBare))));
    PreparedStages(allTasksBare, r);
    r
  }

  /** A record whose dependency ids all name records of the list keeps them all, in order. */
  lemma {:induction false} PrepareKeepsResolvedDependencies(allTasksBare: seq<TaskBare>, i: int)
    requires Acyclic(ExtendTasks(allTasksBare)) && 0 <= i < |allTasksBare|
    requires DependenciesResolved(ExtendTasks(allTasksBare), ExtendTasks(allTasksBare)[i])
    ensures PrepareTaskList(allTasksBare)[i].dependencyIds == allTasksBare[i].dependencyIds
  {
    var allTasks := ExtendTasks(allTasksBare);
    assert PrepareTaskList(allTasksBare)[i].dependencyIds == CleanedStage(allTasks)[i].dependencyIds;
  }

  /** The properties of the three preparation stages, stated of the final list. */
  lemma {:induction false} PreparedStages(allTasksBare: seq<TaskBare>, r: seq<Task>)
    requires Acyclic(ExtendTasks(allTasksBare))
    requires NoOrphans(CleanedStage(ExtendTasks(allTasksBare))) && Acyclic(CleanedStage(ExtendTasks(allTasksBare)))
    requires forall i :: 0 <= i < |DependentsStage(CleanedStage(ExtendTasks(allTasksBare)))| ==>
      DependenciesResolved(CleanedStage(ExtendTasks(allTasksBare)), DependentsStage(CleanedStage(ExtendTasks(allTasksBare)))[i])
    requires |r| == |allTasksBare|
    requires forall i :: 0 <= i < |r| ==>
      && r[i] == DependentsStage(CleanedStage(ExtendTasks(allTasksBare)))[i].(isLocked := r[i].isLocked)
      && r[i].isLocked == HasUncompletedDependency(CleanedStage(ExtendTasks(allTasksBare)), DependentsStage(CleanedStage(ExtendTasks(allTasksBare)))[i])
    ensures |r| == |allTasksBare|
    ensures forall i :: 0 <= i < |r| ==>
      && r[i].id == allTasksBare[i].id && r[i].task == allTasksBare[i].task
      && r[i].group == allTasksBare[i].group && r[i].completedAt == allTasksBare[i].completedAt
    ensures forall i :: 0 <= i < |r| ==> IsSubsequence(r[i].dependencyIds, allTasksBare[i].dependencyIds)
    ensures forall i, x :: 0 <= i < |r| ==>
      (x in r[i].dependencyIds <==> x in allTasksBare[i].dependencyIds && HasTask(r, x))
    ensures forall i :: 0 <= i < |r| ==> IsSubsequence(r[i].dependentIds, Ids(r))
    ensures forall i, x :: 0 <= i < |r| ==>
      (x in r[i].dependentIds <==> exists j :: 0 <= j < |r| && r[j].id == x && r[i].id in r[j].dependencyIds)
    ensures Consistent(r)
    ensures forall i :: 0 <= i < |r| ==> r[i].isLocked == HasUncompletedDependency(r, r[i])
  {
    var allTasks := ExtendTasks(allTasksBare);
    var cleaned := CleanedStage(allTasks);
    var withDependents := DependentsStage(cleaned);
    OrphanRemovalWellFormed(allTasks, cleaned);
    PreparedRecordFields(allTasksBare, allTasks, cleaned, withDependents, r);
    PreparedDependents(cleaned, withDependents, r);
    PreparedLocks(cleaned, withDependents, r);
  }

  /** What orphan removal and the dependents stage leave of the records: ids, texts, completion times and dependency ids. */
  lemma {:induction false} PreparedRecordFields(allTasksBare: seq<TaskBare>, allTasks: seq<Task>, cleaned: seq<Task>,
                                                withDependents: seq<Task>, r: seq<Task>)
    requires allTasks == ExtendTasks(allTasksBare)
    requires |cleaned| == |allTasks| && |withDependents| == |cleaned| && |r| == |cleaned|
    requires forall i :: 0 <= i < |allTasks| ==> cleaned[i] == RemoveOrphanDependents(allTasks, allTasks[i])
    requires forall i :: 0 <= i < |cleaned| ==> withDependents[i] == SetTaskDependents(cleaned, cleaned[i])
    requires forall x :: HasTask(cleaned, x) <==> HasTask(allTasks, x)
    requires forall i :: 0 <= i < |r| ==> r[i] == withDependents[i].(isLocked := r[i].isLocked)
    ensures SameLockView(cleaned, r)
    ensures forall x :: HasTask(r, x) <==> HasTask(allTasks, x)
    ensures forall i :: 0 <= i < |r| ==>
      && r[i].id == allTasksBare[i].id && r[i].task == allTasksBare[i].task
      && r[i].group == allTasksBare[i].group && r[i].completedAt == allTasksBare[i].completedAt
    ensures forall i :: 0 <= i < |r| ==> IsSubsequence(r[i].dependencyIds, allTasksBare[i].dependencyIds)
    ensures forall i, x :: 0 <= i < |r| ==>
      (x in r[i].dependencyIds <==> x in allTasksBare[i].dependencyIds && HasTask(r, x))
  {
    assert SameLockView(cleaned, r);
    SameIdsHasTask(cleaned, r);
  }

  /** The dependent ids the dependents stage sets, stated of the final list. */
  lemma {:induction false} PreparedDependents(cleaned: seq<Task>, withDependents: seq<Task>, r: seq<Task>)
    requires |withDependents| == |cleaned| && |r| == |cleaned|
    requires forall i :: 0 <= i < |cleaned| ==> withDependents[i] == SetTaskDependents(cleaned, cleaned[i])
    requires forall i :: 0 <= i < |r| ==> r[i] == withDependents[i].(isLocked := r[i].isLocked)
    ensures forall i :: 0 <= i < |r| ==> IsSubsequence(r[i].dependentIds, Ids(r))
    ensures forall i, x :: 0 <= i < |r| ==>
      (x in r[i].dependentIds <==> exists j :: 0 <= j < |r| && r[j].id == x && r[i].id in r[j].dependencyIds)
    ensures forall i :: 0 <= i < |r| ==> DependentsResolved(r, r[i])
  {
    assert Ids(r) == Ids(cleaned);
    forall i, k | 0 <= i < |r| && 0 <= k < |r[i].dependentIds| ensures HasTask(r, r[i].dependentIds[k]) {
      var x := r[i].dependentIds[k];
      assert x in withDependents[i].dependentIds;
      var j :| 0 <= j < |cleaned| && cleaned[j].id == x && withDependents[i].id in cleaned[j].dependencyIds;
      assert r[j].id == x;
    }
  }

  /** The locked state the last stage sets is the lock rule evaluated on the final list. */
  lemma {:induction false} PreparedLocks(cleaned: seq<Task>, withDependents: seq<Task>, r: seq<Task>)
    requires |withDependents| == |cleaned| && |r| == |cleaned|
    requires NoOrphans(cleaned) && Acyclic(cleaned) && SameLockView(cleaned, r)
    requires forall i :: 0 <= i < |r| ==> withDependents[i].dependencyIds == r[i].dependencyIds
    requires forall i :: 0 <= i < |withDependents| ==> DependenciesResolved(cleaned, withDependents[i])
    requires forall i :: 0 <= i < |r| ==> r[i].isLocked == HasUncompletedDependency(cleaned, withDependents[i])
    ensures NoOrphans(r) && Acyclic(r)
    ensures forall i :: 0 <= i < |r| ==> r[i].isLocked == HasUncompletedDependency(r, r[i])
  {
    SameGraphWellFormed(cleaned, r);
    forall i | 0 <= i < |r| ensures r[i].isLocked == HasUncompletedDependency(r, r[i]) {
      LockStateDependsOnlyOnView(cleaned, r, withDependents[i], r[i]);
    }
  }

  /** A prepared record is the record of the dependents stage with its locked state set. */
  lemma {:induction false} PreparedRecord(allTasksBare: seq<TaskBare>, j: int)
    requires Acyclic(ExtendTasks(allTasksBare)) && 0 <= j < |allTasksBare|
    ensures PrepareTaskList(allTasksBare)[j] ==
      DependentsStage(CleanedStage(ExtendTasks(allTasksBare)))[j].(isLocked := PrepareTaskList(allTasksBare)[j].isLocked)
  {
  }

  /** Preparation leaves the ids and dependency ids orphan removal produced. */
  lemma {:induction false} PreparedGraph(allTasksBare: seq<TaskBare>)
    requires Acyclic(ExtendTasks(allTasksBare))
    ensures SameDependencyGraph(CleanedStage(ExtendTasks(allTasksBare)), PrepareTaskList(allTasksBare))
  {
    forall j | 0 <= j < |allTasksBare|
      ensures PrepareTaskList(allTasksBare)[j] ==
        DependentsStage(CleanedStage(ExtendTasks(allTasksBare)))[j].(isLocked := PrepareTaskList(allTasksBare)[j].isLocked)
    {
      PreparedRecord(allTasksBare, j);
    }
  }

  /** The occurrence counts of one record after the stages, from those of the record before them. */
  lemma {:induction false} StagedOccurrences(allTasks: seq<Task>, cleaned: seq<Task>, r: seq<Task>, i: int, x: int)
    requires cleaned == CleanedStage(allTasks) && SameDependencyGraph(cleaned, r) && 0 <= i < |r|
    requires r[i].dependentIds == DependentsOf(cleaned, cleaned[i].id)
    requires forall y :: HasTask(r, y) <==> HasTask(allTasks, y)
    ensures multiset(r[i].dependencyIds)[x] == (if HasTask(r, x) then multiset(allTasks[i].dependencyIds)[x] else 0)
    ensures multiset(r[i].dependentIds)[x] == multiset(DependsMask(r, r[i].id, x))[true]
  {
    assert r[i].dependencyIds == KeepKnownIds(allTasks, allTasks[i].dependencyIds);
    DependsMaskSameGraph(cleaned, r);
  }

  /**
   * Preparation keeps every occurrence of a dependency id that names a
   * record and drops every other one, and lists an id among the dependents
   * of a task once per task with that id that depends on it.
   */
  lemma {:induction false} PreparedOccurrences(allTasksBare: seq<TaskBare>, i: int, x: int)
    requires Acyclic(ExtendTasks(allTasksBare)) && 0 <= i < |allTasksBare|
    ensures var r := PrepareTaskList(allTasksBare);
      && multiset(r[i].dependencyIds)[x] == (if HasTask(r, x) then multiset(allTasksBare[i].dependencyIds)[x] else 0)
      && multiset(r[i].dependentIds)[x] == multiset(DependsMask(r, r[i].id, x))[true]
  {
    var allTasks := ExtendTasks(allTasksBare);
    PreparedGraph(allTasksBare);
    PreparedRecord(allTasksBare, i);
    PreparedIds(allTasksBare);
    SameIdsHasTask(PrepareTaskList(allTasksBare), allTasks);
    StagedOccurrences(allTasks, CleanedStage(allTasks), PrepareTaskList(allTasksBare), i, x);
  }

  /**
   * Preparation lists the dependents of a task as the ids of the depending
   * tasks of the prepared list, in list order.
   */
  lemma {:induction false} PreparedDependentsInListOrder(allTasksBare: seq<TaskBare>, i: int)
    requires Acyclic(ExtendTasks(allTasksBare)) && 0 <= i < |allTasksBare|
    ensures var r := PrepareTaskList(allTasksBare);
      r[i].dependentIds == IdsAt(r, DependingPositions(r, r[i].id, 0))
  {
    var cleaned := CleanedStage(ExtendTasks(allTasksBare));
    PreparedGraph(allTasksBare);
    PreparedRecord(allTasksBare, i);
    assert PrepareTaskList(allTasksBare)[i].dependentIds == SetTaskDependents(cleaned, cleaned[i]).dependentIds;
    DependingPositionsSameGraph(cleaned, PrepareTaskList(allTasksBare), cleaned[i].id, 0);
    IdsAtSameGraph(cleaned, PrepareTaskList(allTasksBare), DependingPositions(cleaned, cleaned[i].id, 0));
  }

  /** With unique ids, dependents listed as the tasks naming a task as a dependency are exactly the reverse relation. */
  lemma {:induction false} UniqueIdsDependentsExact(r: seq<Task>)
    requires NoDuplicates(Ids(r))
    requires forall i, x :: 0 <= i < |r| ==>
      (x in r[i].dependentIds <==> exists j :: 0 <= j < |r| && r[j].id == x && r[i].id in r[j].dependencyIds)
    ensures DependentsExact(r)
  {
    forall i, j | 0 <= i < |r| && 0 <= j < |r| && r[j].id in r[i].dependentIds ensures r[i].id in r[j].dependencyIds {
      var m :| 0 <= m < |r| && r[m].id == r[j].id && r[i].id in r[m].dependencyIds;
      assert Ids(r)[m] == Ids(r)[j];
    }
  }

  /** Preparation keeps the ids, position by position. */
  lemma {:induction false} PreparedIds(allTasksBare: seq<TaskBare>)
    requires Acyclic(ExtendTasks(allTasksBare))
    ensures Ids(PrepareTaskList(allTasksBare)) == Ids(ExtendTasks(allTasksBare))
  {
    var r := PrepareTaskList(allTasksBare);
    var e := ExtendTasks(allTasksBare);
    assert forall m :: 0 <= m < |r| ==> Ids(r)[m] == Ids(e)[m];
  }

  /** No dependency id of a prepared task names an id no record has. */
  lemma {:induction false} PrepareDropsUnknownIds(allTasksBare: seq<TaskBare>, i: int, x: int)
    requires Acyclic(ExtendTasks(allTasksBare)) && 0 <= i < |allTasksBare|
    requires !HasTask(ExtendTasks(allTasksBare), x)
    ensures x !in PrepareTaskList(allTasksBare)[i].dependencyIds
  {
    PreparedIds(allTasksBare);
    SameIdsHasTask(PrepareTaskList(allTasksBare), ExtendTasks(allTasksBare));
  }

  /** With unique ids, the dependents relation is exactly the reverse of the dependencies relation. */
  lemma {:induction false} PreparedDependentsSymmetric(allTasksBare: seq<TaskBare>, i: int, j: int)
    requires Acyclic(ExtendTasks(allTasksBare))
    requires NoDuplicates(Ids(ExtendTasks(allTasksBare)))
    requires 0 <= i < |allTasksBare| && 0 <= j < |allTasksBare|
    ensures var r := PrepareTaskList(allTasksBare);
            r[j].id in r[i].dependentIds <==> r[i].id in r[j].dependencyIds
  {
    PreparedIds(allTasksBare);
    UniqueIdsDependentsExact(PrepareTaskList(allTasksBare));
  }

  // ---------------------------------------------------------------------
  // Propagation of a completion change through the dependents

  /** The dependent ids of the first task with the given id (none when the list has no such task). */
  function DependentsOfId(allTasks: seq<Task>, id: int): seq<int> {
    match GetTaskOrUndefinedById(allTasks, id)
    case None => []
    case Some(t) => t.dependentIds
  }

  /** `p` is a walk along dependent ids: it starts in `start` and each id is a dependent of the one before. */
  ghost predicate IsDependentsPath(allTasks: seq<Task>, start: seq<int>, p: seq<int>) {
    && |p| > 0
    && p[0] in start
    && forall k :: 0 <= k < |p| - 1 ==> p[k + 1] in DependentsOfId(allTasks, p[k])
  }

  /** `id` is reached from `start` by following dependent ids. */
  ghost predicate ReachableDependent(allTasks: seq<Task>, start: seq<int>, id: int) {
    exists p :: IsDependentsPath(allTasks, start, p) && p[|p| - 1] == id
  }

  /** The ids of the tasks of the list. */
  ghost function IdSet(allTasks: seq<Task>): set<int> {
    set i | 0 <= i < |allTasks| :: allTasks[i].id
  }

  /** The ids of the tasks reached from the dependents of `task`. */
  ghost function ReachableIds(allTasks: seq<Task>, task: Task): set<int> {
    set x | x in IdSet(allTasks) && ReachableDependent(allTasks, task.dependentIds, x)
  }

  /** The list with the first task of every id in `ids` given its recomputed locked state. */
  ghost function Relock(allTasks: seq<Task>, ids: set<int>): seq<Task>
    requires NoOrphans(allTasks) && Acyclic(allTasks)
  {
    seq(|allTasks|, i requires 0 <= i < |allTasks| =>
      if IsFirstIndex(allTasks, i) && allTasks[i].id in ids
      then SetTaskLockedStateByDependencies(allTasks, allTasks[i])
      else allTasks[i])
  }

  /** What propagation from `task` produces: every task reached through dependents is locked anew. */
  ghost function PropagatedList(allTasks: seq<Task>, task: Task): seq<Task>
    requires Consistent(allTasks)
  {
    Relock(allTasks, ReachableIds(allTasks, task))
  }

  /** Relocking changes nothing but locked states. */
  lemma {:induction false} RelockKeepsShape(allTasks: seq<Task>, ids: set<int>)
    requires NoOrphans(allTasks) && Acyclic(allTasks)
    ensures SameLockView(allTasks, Relock(allTasks, ids)) && SameShape(allTasks, Relock(allTasks, ids))
    ensures forall i :: 0 <= i < |allTasks| ==>
      Relock(allTasks, ids)[i] == allTasks[i].(isLocked := Relock(allTasks, ids)[i].isLocked)
  {
  }

  /** Relocking one more id changes exactly the first task with that id. */
  lemma {:induction false} RelockOneMore(allTasks: seq<Task>, ids: set<int>, id: int, k: nat)
    requires NoOrphans(allTasks) && Acyclic(allTasks)
    requires FindIndex(allTasks, id) == Some(k)
    ensures Relock(allTasks, ids + {id}) == Relock(allTasks, ids)[k := SetTaskLockedStateByDependencies(allTasks, allTasks[k])]
  {
    var a := Relock(allTasks, ids + {id});
    var b := Relock(allTasks, ids)[k := SetTaskLockedStateByDependencies(allTasks, allTasks[k])];
    forall i | 0 <= i < |allTasks| ensures a[i] == b[i] {
      if k < i && allTasks[i].id == id {
        assert !IsFirstIndex(allTasks, i);
      }
    }
  }

  /** Any walk from a set closed under dependents stays in it. */
  lemma {:induction false} ClosedSetContainsWalks(allTasks: seq<Task>, start: seq<int>, s: set<int>, p: seq<int>)
    requires forall x :: x in start ==> x in s
    requires forall x :: x in s ==> forall y :: y in DependentsOfId(allTasks, x) ==> y in s
    requires IsDependentsPath(allTasks, start, p)
    ensures p[|p| - 1] in s
    decreases |p|
  {
    if |p| > 1 {
      var q := p[..|p| - 1];
      assert IsDependentsPath(allTasks, start, q) by {
        assert forall k :: 0 <= k < |q| ==> q[k] == p[k];
      }
      ClosedSetContainsWalks(allTasks, start, s, q);
      var last := p[|p| - 2];
      assert last == q[|q| - 1] && last in s;
      assert p[|p| - 1] in DependentsOfId(allTasks, last) by {
        assert |p| - 2 < |p| - 1;
      }
    } else {
      assert p[|p| - 1] == p[0] && p[0] in start;
    }
  }

  /** A walk from the dependents of a starting id extends to a walk from the start. */
  lemma {:induction false} ReachableThrough(allTasks: seq<Task>, start: seq<int>, id: int, x: int)
    requires id in start
    requires ReachableDependent(allTasks, DependentsOfId(allTasks, id), x)
    ensures ReachableDependent(allTasks, start, x)
  {
    var q :| IsDependentsPath(allTasks, DependentsOfId(allTasks, id), q) && q[|q| - 1] == x;
    var p := [id] + q;
    forall k | 0 <= k < |p| - 1 ensures p[k + 1] in DependentsOfId(allTasks, p[k]) {
      if k > 0 { assert p[k] == q[k - 1] && p[k + 1] == q[k]; }
    }
    assert IsDependentsPath(allTasks, start, p);
    assert p[|p| - 1] == x;
  }

  /** Removing a strictly larger set leaves strictly fewer elements. */
  lemma {:induction false} FewerUnvisited(all: set<int>, before: set<int>, after: set<int>, id: int)
    requires before <= after && id in after && id !in before && id in all
    ensures |all - after| < |all - before|
  {
    var smaller, larger := all - after, all - before;
    assert larger == smaller + (larger - smaller) && smaller * (larger - smaller) == {};
    assert id in larger - smaller;
  }

  /** Appending a new id keeps the visited ids free of repetitions. */
  lemma {:induction false} AppendFresh(visited: seq<int>, id: int)
    requires NoDuplicates(visited) && id !in visited
    ensures NoDuplicates(visited + [id]) && Elements(visited + [id]) == Elements(visited) + {id}
  {
    assert forall j :: 0 <= j < |visited| ==> (visited + [id])[j] == visited[j];
  }

  /** Every id of `visited` not in `from` has all its dependents in `visited`. */
  ghost predicate ClosedBeyond(base: seq<Task>, visited: seq<int>, from: seq<int>) {
    forall x :: x in visited && x !in from ==> forall y :: y in DependentsOfId(base, x) ==> y in visited
  }

  /** Every id of `visited` not in `from` is reached from `start`. */
  ghost predicate ReachedBeyond(base: seq<Task>, start: seq<int>, visited: seq<int>, from: seq<int>) {
    forall x :: x in visited && x !in from ==> ReachableDependent(base, start, x)
  }

  /** What visiting a new dependent `id` finds in the current list and changes in it. */
  lemma {:induction false} VisitStep(base: seq<Task>, cur: seq<Task>, visited: seq<int>, id: int) returns (k: nat)
    requires Consistent(base) && cur == Relock(base, Elements(visited))
    requires id !in visited && HasTask(base, id)
    ensures FindIndex(base, id) == Some(k) && FindIndex(cur, id) == Some(k)
    ensures GetTaskById(cur, id) == Success(base[k])
    ensures NoOrphans(cur) && Acyclic(cur) && DependenciesResolved(cur, base[k])
    ensures SetTaskLockedStateByDependencies(cur, base[k]) == SetTaskLockedStateByDependencies(base, base[k])
    ensures Relock(base, Elements(visited + [id])) == cur[k := SetTaskLockedStateByDependencies(base, base[k])]
    ensures DependentsOfId(base, id) == base[k].dependentIds && DependentsResolved(base, base[k])
    ensures id in IdSet(base)
  {
    k := VisitLookup(base, cur, visited, id);
    VisitRelock(base, cur, visited, id, k);
  }

  /** The lookups of a visit: the new id is found at the same position in the base and the current list. */
  lemma {:induction false} VisitLookup(base: seq<Task>, cur: seq<Task>, visited: seq<int>, id: int) returns (k: nat)
    requires Consistent(base) && cur == Relock(base, Elements(visited))
    requires id !in visited && HasTask(base, id)
    ensures FindIndex(base, id) == Some(k) && FindIndex(cur, id) == Some(k)
    ensures GetTaskById(cur, id) == Success(base[k])
    ensures NoOrphans(cur) && Acyclic(cur) && DependenciesResolved(cur, base[k])
    ensures DependentsOfId(base, id) == base[k].dependentIds && DependentsResolved(base, base[k])
    ensures id in IdSet(base)
  {
    RelockKeepsShape(base, Elements(visited));
    SameGraphWellFormed(base, cur);
    FindIndexSameIds(base, cur, id);
    k := FindIndex(base, id).value;
    assert GetTaskById(cur, id).value == cur[k];
  }

  /** The update of a visit: relocking the new id on the current list is relocking one more id of the base. */
  lemma {:induction false} VisitRelock(base: seq<Task>, cur: seq<Task>, visited: seq<int>, id: int, k: nat)
    requires Consistent(base) && cur == Relock(base, Elements(visited))
    requires FindIndex(base, id) == Some(k)
    requires NoOrphans(cur) && Acyclic(cur) && DependenciesResolved(cur, base[k])
    ensures SetTaskLockedStateByDependencies(cur, base[k]) == SetTaskLockedStateByDependencies(base, base[k])
    ensures Relock(base, Elements(visited + [id])) == cur[k := SetTaskLockedStateByDependencies(base, base[k])]
  {
    RelockKeepsShape(base, Elements(visited));
    LockStateDependsOnlyOnView(base, cur, base[k], base[k]);
    assert Elements(visited + [id]) == Elements(visited) + {id};
    RelockOneMore(base, Elements(visited), id, k);
  }

  /** Once the walk from the dependents of a newly visited `id` returns, `id` and all it reached are closed and reached from `[id]`. */
  lemma {:induction false} AfterDependentWalk(base: seq<Task>, visitedTasks: seq<int>, mid: seq<int>, visited: seq<int>, id: int)
    requires mid == visitedTasks + [id]
    requires |mid| <= |visited| && visited[..|mid|] == mid
    requires ClosedBeyond(base, visited, mid)
    requires ReachedBeyond(base, DependentsOfId(base, id), visited, mid)
    requires forall y :: y in DependentsOfId(base, id) ==> y in visited
    ensures |visitedTasks| <= |visited| && visited[..|visitedTasks|] == visitedTasks
    ensures id in visited
    ensures ClosedBeyond(base, visited, visitedTasks)
    ensures ReachedBeyond(base, [id], visited, visitedTasks)
  {
    assert visited[..|visitedTasks|] == mid[..|visitedTasks|];
    assert visited[|visitedTasks|] == mid[|visitedTasks|];
    forall x | x in visited && x !in visitedTasks
      ensures ReachableDependent(base, [id], x)
    {
      if x !in mid {
        ReachableThrough(base, [id], id, x);
      } else {
        assert IsDependentsPath(base, [id], [id]);
      }
    }
  }

  /** After visiting the dependent `id` of `task`, the facts of the walk over the dependents of `task` hold again. */
  lemma {:induction false} AfterVisit(base: seq<Task>, task: Task, visitedTasks: seq<int>, before: seq<int>,
                                      visited: seq<int>, id: int, n: nat)
    requires n < |task.dependentIds| && id == task.dependentIds[n]
    requires |visitedTasks| <= |before| && before[..|visitedTasks|] == visitedTasks
    requires |before| <= |visited| && visited[..|before|] == before
    requires forall m :: 0 <= m < n ==> task.dependentIds[m] in before
    requires ClosedBeyond(base, before, visitedTasks) && ReachedBeyond(base, task.dependentIds, before, visitedTasks)
    requires id in visited
    requires ClosedBeyond(base, visited, before) && ReachedBeyond(base, [id], visited, before)
    ensures |visitedTasks| <= |visited| && visited[..|visitedTasks|] == visitedTasks
    ensures forall m :: 0 <= m < n + 1 ==> task.dependentIds[m] in visited
    ensures ClosedBeyond(base, visited, visitedTasks)
    ensures ReachedBeyond(base, task.dependentIds, visited, visitedTasks)
  {
    assert visited[..|visitedTasks|] == before[..|visitedTasks|];
    forall m | 0 <= m < n + 1 ensures task.dependentIds[m] in visited {
      if m < n {
        assert task.dependentIds[m] in visited[..|before|];
      }
    }
    forall x | x in visited && x !in visitedTasks
      ensures forall y :: y in DependentsOfId(base, x) ==> y in visited
      ensures ReachableDependent(base, task.dependentIds, x)
    {
      if x in before {
        forall y | y in DependentsOfId(base, x) ensures y in visited {
          assert y in visited[..|before|];
        }
      } else {
        var p :| IsDependentsPath(base, [id], p) && p[|p| - 1] == x;
        assert IsDependentsPath(base, task.dependentIds, p);
      }
    }
  }

  /** Visiting more ids never leaves more ids unvisited. */
  lemma {:induction false} NoMoreUnvisited(all: set<int>, before: seq<int>, after: seq<int>)
    requires |before| <= |after| && after[..|before|] == before
    ensures |all - Elements(after)| <= |all - Elements(before)|
  {
    var smaller, larger := all - Elements(after), all - Elements(before);
    forall x | x in before ensures x in after {
      assert x in after[..|before|];
    }
    assert larger == smaller + (larger - smaller) && smaller * (larger - smaller) == {};
  }

  /**
   * Visits the dependent `id`, unless it is visited already: marks it
   * visited, gives it its locked state recomputed on the current list,
   * writes it back at its position and walks its own dependents.
   */
  method VisitDependent(allTasks: array<Task>, id: int, visitedTasks: seq<int>, ghost base: seq<Task>)
    returns (visited: seq<int>)
    requires Consistent(base) && allTasks.Length == |base|
    requires HasTask(base, id)
    requires NoDuplicates(visitedTasks) && forall x :: x in visitedTasks ==> x in IdSet(base)
    requires allTasks[..] == Relock(base, Elements(visitedTasks))
    modifies allTasks
    ensures |visitedTasks| <= |visited| && visited[..|visitedTasks|] == visitedTasks
    ensures NoDuplicates(visited) && forall x :: x in visited ==> x in IdSet(base)
    ensures allTasks[..] == Relock(base, Elements(visited))
    ensures id in visited
    ensures ClosedBeyond(base, visited, visitedTasks)
    ensures ReachedBeyond(base, [id], visited, visitedTasks)
    decreases |IdSet(base) - Elements(visitedTasks)|, 0
  {
    visited := visitedTasks;
    if id !in visitedTasks {
      ghost var cur := allTasks[..];
      ghost var k := VisitStep(base, cur, visitedTasks, id);
      var dependent := GetTaskById(allTasks[..], id).value;
      visited := visited + [id];
      var updatedDependent := SetTaskLockedStateByDependencies(allTasks[..], dependent);
      var index := FindIndex(allTasks[..], updatedDependent.id).value;
      allTasks[index] := updatedDependent;
      assert allTasks[..] == cur[k := updatedDependent];
      AppendFresh(visitedTasks, id);
      FewerUnvisited(IdSet(base), Elements(visitedTasks), Elements(visited), id);
      ghost var mid := visited;
      visited := UpdateTaskParentsLockedStateInternal(allTasks, updatedDependent, visited, base);
      AfterDependentWalk(base, visitedTasks, mid, visited, id);
    }
  }

  /**
   * Walks the dependents of `task`, depth first, visiting each in turn; the
   * ids visited so far are threaded through the calls.
   */
  method UpdateTaskParentsLockedStateInternal(allTasks: array<Task>, task: Task, visitedTasks: seq<int>, ghost base: seq<Task>)
    returns (visited: seq<int>)
    requires Consistent(base) && allTasks.Length == |base|
    requires DependentsResolved(base, task)
    requires NoDuplicates(visitedTasks) && forall x :: x in visitedTasks ==> x in IdSet(base)
    requires allTasks[..] == Relock(base, Elements(visitedTasks))
    modifies allTasks
    ensures |visitedTasks| <= |visited| && visited[..|visitedTasks|] == visitedTasks
    ensures NoDuplicates(visited) && forall x :: x in visited ==> x in IdSet(base)
    ensures allTasks[..] == Relock(base, Elements(visited))
    ensures forall x :: x in task.dependentIds ==> x in visited
    ensures ClosedBeyond(base, visited, visitedTasks)
    ensures ReachedBeyond(base, task.dependentIds, visited, visitedTasks)
    decreases |IdSet(base) - Elements(visitedTasks)|, 1
  {
    visited := visitedTasks;
    for n := 0 to |task.dependentIds|
      invariant |visitedTasks| <= |visited| && visited[..|visitedTasks|] == visitedTasks
      invariant NoDuplicates(visited) && forall x :: x in visited ==> x in IdSet(base)
      invariant allTasks[..] == Relock(base, Elements(visited))
      invariant forall m :: 0 <= m < n ==> task.dependentIds[m] in visited
      invariant ClosedBeyond(base, visited, visitedTasks)
      invariant ReachedBeyond(base, task.dependentIds, visited, visitedTasks)
    {
      ghost var before := visited;
      NoMoreUnvisited(IdSet(base), visitedTasks, visited);
      visited := VisitDependent(allTasks, task.dependentIds[n], visited, base);
      AfterVisit(base, task, visitedTasks, before, visited, task.dependentIds[n], n);
    }
  }

  /** A walk started from nothing that is closed under dependents and reached from `task` holds exactly the reachable ids. */
  lemma {:induction false} VisitedAreReachable(allTasks: seq<Task>, task: Task, visited: seq<int>)
    requires forall x :: x in visited ==> x in IdSet(allTasks)
    requires forall x :: x in task.dependentIds ==> x in visited
    requires ClosedBeyond(allTasks, visited, [])
    requires ReachedBeyond(allTasks, task.dependentIds, visited, [])
    ensures Elements(visited) == ReachableIds(allTasks, task)
  {
    forall x | x in Elements(visited) ensures x in ReachableIds(allTasks, task) {
      assert x !in [];
    }
    forall x | x in Elements(visited) ensures forall y :: y in DependentsOfId(allTasks, x) ==> y in Elements(visited) {
      assert x !in [];
    }
    forall x | x in ReachableIds(allTasks, task) ensures x in Elements(visited) {
      var p :| IsDependentsPath(allTasks, task.dependentIds, p) && p[|p| - 1] == x;
      ClosedSetContainsWalks(allTasks, task.dependentIds, Elements(visited), p);
    }
  }

  /**
   * Recomputes the locked state of every task reached from `task` through
   * dependents, on a copy of the list; the given list is left as it is.
   */
  method UpdateTaskParentsLockedState(allTasks: seq<Task>, task: Task) returns (r: seq<Task>)
    requires Consistent(allTasks) && DependentsResolved(allTasks, task)
    ensures r == PropagatedList(allTasks, task)
  {
    var newAllTasks := new Task[|allTasks|](i requires 0 <= i < |allTasks| => allTasks[i]);
    assert newAllTasks[..] == allTasks == Relock(allTasks, Elements([]));
    var visited := UpdateTaskParentsLockedStateInternal(newAllTasks, task, [], allTasks);
    VisitedAreReachable(allTasks, task, visited);
    r := newAllTasks[..];
  }

  // ---------------------------------------------------------------------
  // Completion toggle

  /**
   * The completion time the toggle sets: `now` when completing an open task,
   * the old time when completing a completed one, none when un-completing.
   */
  function NewCompletedAt(completedAt: Option<int>, isCompleted: bool, now: int): (r: Option<int>)
    ensures r.Some? <==> isCompleted
    ensures isCompleted && completedAt.Some? ==> r == completedAt
    ensures isCompleted && completedAt.None? ==> r == Some(now)
  {
    if isCompleted && completedAt.None? then Some(now)
    else if !isCompleted then None
    else completedAt
  }

  /** Toggling twice the same way changes nothing the second time, whatever the clock says. */
  lemma CompletionTimeIdempotent(completedAt: Option<int>, isCompleted: bool, now1: int, now2: int)
    ensures NewCompletedAt(NewCompletedAt(completedAt, isCompleted, now1), isCompleted, now2)
         == NewCompletedAt(completedAt, isCompleted, now1)
  {
  }

  /** The task with its completion time set by the toggle; every other field is the argument's. */
  function ToggledTask(task: Task, isCompleted: bool, now: int): (r: Task)
    ensures r == task.(completedAt := r.completedAt)
    ensures r.completedAt == NewCompletedAt(task.completedAt, isCompleted, now)
  {
    task.(completedAt := NewCompletedAt(task.completedAt, isCompleted, now))
  }

  /** Every task with the id of `newTask` replaced by `newTask`. */
  function ReplaceTask(allTasks: seq<Task>, newTask: Task): (r: seq<Task>)
    ensures |r| == |allTasks|
    ensures forall i :: 0 <= i < |r| ==> r[i].id == allTasks[i].id
    ensures forall i :: 0 <= i < |r| && allTasks[i].id == newTask.id ==> r[i] == newTask
    ensures forall i :: 0 <= i < |r| && allTasks[i].id != newTask.id ==> r[i] == allTasks[i]
  {
    seq(|allTasks|, i requires 0 <= i < |allTasks| => if allTasks[i].id == newTask.id then newTask else allTasks[i])
  }

  /** With unique ids, replacing by id changes exactly the one position holding that id. */
  lemma {:induction false} ReplaceAtUniqueId(allTasks: seq<Task>, t: int, newTask: Task)
    requires NoDuplicates(Ids(allTasks)) && 0 <= t < |allTasks| && allTasks[t].id == newTask.id
    ensures ReplaceTask(allTasks, newTask) == allTasks[t := newTask]
  {
    forall i | 0 <= i < |allTasks| && allTasks[i].id == newTask.id ensures i == t {
      assert Ids(allTasks)[i] == Ids(allTasks)[t];
    }
  }

  /** Replacing by tasks of the same shape gives lists of the same shape. */
  lemma {:induction false} ReplaceTaskShape(allTasks: seq<Task>, t1: Task, t2: Task)
    requires t1.id == t2.id && t1.dependencyIds == t2.dependencyIds && t1.dependentIds == t2.dependentIds
    ensures SameShape(ReplaceTask(allTasks, t1), ReplaceTask(allTasks, t2))
    ensures Consistent(ReplaceTask(allTasks, t1)) <==> Consistent(ReplaceTask(allTasks, t2))
    ensures DependentsResolved(ReplaceTask(allTasks, t1), t1) <==> DependentsResolved(ReplaceTask(allTasks, t2), t2)
  {
    var l1, l2 := ReplaceTask(allTasks, t1), ReplaceTask(allTasks, t2);
    assert SameShape(l1, l2);
    SameShapeConsistent(l1, l2);
    SameGraphWellFormed(l1, l2);
  }

  /**
   * What propagation from `task` needs of the list once `task` is put in it:
   * every dependency and dependent id resolves and there is no cycle.
   */
  ghost predicate CanPropagateFrom(allTasks: seq<Task>, task: Task) {
    Consistent(ReplaceTask(allTasks, task)) && DependentsResolved(ReplaceTask(allTasks, task), task)
  }

  /** What the completion toggle produces. */
  ghost function CompletionResult(allTasks: seq<Task>, task: Task, isCompleted: bool, now: int): seq<Task>
    requires (isCompleted && task.isLocked) || CanPropagateFrom(allTasks, task)
  {
    if isCompleted && task.isLocked then allTasks
    else
      var newTask := ToggledTask(task, isCompleted, now);
      ReplaceTaskShape(allTasks, task, newTask);
      PropagatedList(ReplaceTask(allTasks, newTask), newTask)
  }

  /**
   * Sets the completion state of `task`: a locked task cannot be completed
   * and the list comes back as it is; otherwise the task, with its new
   * completion time, replaces the list's task with its id, and the locked
   * state of every task reached through dependents is recomputed.
   */
  method SetTaskCompletionState(allTasks: seq<Task>, task: Task, isCompleted: bool, now: int) returns (r: seq<Task>)
    requires (isCompleted && task.isLocked) || CanPropagateFrom(allTasks, task)
    ensures r == CompletionResult(allTasks, task, isCompleted, now)
    ensures isCompleted && task.isLocked ==> r == allTasks
  {
    if isCompleted && task.isLocked {
      return allTasks;
    }
    var newTask := ToggledTask(task, isCompleted, now);
    var newAllTasks := ReplaceTask(allTasks, newTask);
    ReplaceTaskShape(allTasks, task, newTask);
    r := UpdateTaskParentsLockedState(newAllTasks, newTask);
  }

  /**
   * What propagation from `task` leaves: only locked states change; every
   * task reached through dependents (the first with its id) holds the lock
   * rule evaluated on the result; every other task is as it was.
   */
  lemma {:induction false} PropagationEffect(allTasks: seq<Task>, task: Task)
    requires Consistent(allTasks)
    ensures var r := PropagatedList(allTasks, task);
      && SameShape(allTasks, r) && SameLockView(allTasks, r) && Consistent(r)
      && (forall i :: 0 <= i < |r| ==> r[i] == allTasks[i].(isLocked := r[i].isLocked))
      && (forall i :: 0 <= i < |r| && IsFirstIndex(allTasks, i) && allTasks[i].id in ReachableIds(allTasks, task) ==>
            r[i].isLocked == HasUncompletedDependency(r, r[i]))
      && (forall i :: 0 <= i < |r| && !(IsFirstIndex(allTasks, i) && allTasks[i].id in ReachableIds(allTasks, task)) ==>
            r[i] == allTasks[i])
  {
    var r := PropagatedList(allTasks, task);
    RelockKeepsShape(allTasks, ReachableIds(allTasks, task));
    SameShapeConsistent(allTasks, r);
    forall i | 0 <= i < |r| && IsFirstIndex(allTasks, i) && allTasks[i].id in ReachableIds(allTasks, task)
      ensures r[i].isLocked == HasUncompletedDependency(r, r[i])
    {
      LockStateDependsOnlyOnView(allTasks, r, allTasks[i], r[i]);
    }
  }

  /**
   * What the completion toggle changes when the task is not a locked one
   * being completed: the tasks with its id become the argument with the new
   * completion time, locked states change only for tasks reached through
   * the dependents, and the list stays consistent.
   */
  lemma {:induction false} CompletionEffect(allTasks: seq<Task>, task: Task, isCompleted: bool, now: int)
    requires !(isCompleted && task.isLocked) && CanPropagateFrom(allTasks, task)
    ensures var r := CompletionResult(allTasks, task, isCompleted, now);
      var newTask := task.(completedAt := NewCompletedAt(task.completedAt, isCompleted, now));
      && |r| == |allTasks| && Consistent(r)
      && (forall i :: 0 <= i < |r| && allTasks[i].id == task.id ==> r[i] == newTask.(isLocked := r[i].isLocked))
      && (forall i :: 0 <= i < |r| && allTasks[i].id != task.id ==> r[i] == allTasks[i].(isLocked := r[i].isLocked))
      && (forall i :: 0 <= i < |r| && r[i].isLocked != ReplaceTask(allTasks, newTask)[i].isLocked ==>
            r[i].id in ReachableIds(ReplaceTask(allTasks, newTask), newTask))
  {
    var newTask := ToggledTask(task, isCompleted, now);
    ReplaceTaskShape(allTasks, task, newTask);
    PropagationEffect(ReplaceTask(allTasks, newTask), newTask);
  }

  // ---------------------------------------------------------------------
  // The invariant of a prepared list, kept by the completion toggle

  /** Position by position, `dependentIds` is exactly the reverse of `dependencyIds`. */
  predicate DependentsExact(allTasks: seq<Task>) {
    forall i, j :: 0 <= i < |allTasks| && 0 <= j < |allTasks| ==>
      (allTasks[j].id in allTasks[i].dependentIds <==> allTasks[i].id in allTasks[j].dependencyIds)
  }

  /** Every locked state is the lock rule evaluated on the list. */
  ghost predicate LocksCorrect(allTasks: seq<Task>)
    requires NoOrphans(allTasks) && Acyclic(allTasks)
  {
    forall i :: 0 <= i < |allTasks| ==> allTasks[i].isLocked == HasUncompletedDependency(allTasks, allTasks[i])
  }

  /** A list as preparation leaves it: consistent, unique ids, exact dependents and correct locks. */
  ghost predicate Prepared(allTasks: seq<Task>) {
    && Consistent(allTasks)
    && NoDuplicates(Ids(allTasks))
    && DependentsExact(allTasks)
    && LocksCorrect(allTasks)
  }

  /** Preparing records with unique ids and without cycles gives a prepared list. */
  lemma {:induction false} PrepareTaskListPrepared(allTasksBare: seq<TaskBare>)
    requires Acyclic(ExtendTasks(allTasksBare))
    requires NoDuplicates(Ids(ExtendTasks(allTasksBare)))
    ensures Prepared(PrepareTaskList(allTasksBare))
  {
    PreparedIds(allTasksBare);
    UniqueIdsDependentsExact(PrepareTaskList(allTasksBare));
  }

  /** The task reaches the id `target` by following first dependencies. */
  ghost predicate DependsFirstOn(allTasks: seq<Task>, task: Task, target: int)
    requires NoOrphans(allTasks) && Acyclic(allTasks) && DependenciesResolved(allTasks, task)
    decreases LockDepth(SomeRank(allTasks), task)
  {
    && |task.dependencyIds| > 0
    && (|| task.dependencyIds[0] == target
        || DependsFirstOn(allTasks, GetTaskById(allTasks, task.dependencyIds[0]).value, target))
  }

  /**
   * Changing the completion time of the tasks with id `target` can only
   * change the locked state of tasks whose first-dependency chain meets `target`.
   */
  lemma {:induction false} LockChangeNeedsFirstDependency(l1: seq<Task>, l2: seq<Task>, target: int, t1: Task, t2: Task)
    requires SameDependencyGraph(l1, l2)
    requires forall i :: 0 <= i < |l1| && l1[i].id != target ==> l1[i].completedAt == l2[i].completedAt
    requires t1.dependencyIds == t2.dependencyIds
    requires NoOrphans(l1) && Acyclic(l1) && DependenciesResolved(l1, t1)
    ensures NoOrphans(l2) && Acyclic(l2) && DependenciesResolved(l2, t2)
    ensures HasUncompletedDependency(l1, t1) != HasUncompletedDependency(l2, t2) ==> DependsFirstOn(l2, t2, target)
    decreases LockDepth(SomeRank(l1), t1)
  {
    SameGraphWellFormed(l1, l2);
    if |t1.dependencyIds| > 0 && t1.dependencyIds[0] != target {
      var x := t1.dependencyIds[0];
      FindIndexSameIds(l1, l2, x);
      var k := FindIndex(l1, x).value;
      assert GetTaskById(l1, x).value == l1[k];
      assert GetTaskById(l2, x).value == l2[k];
      LockChangeNeedsFirstDependency(l1, l2, target, l1[k], l2[k]);
    }
  }

  /** A walk along dependents extended by a dependent of its last id. */
  lemma {:induction false} ExtendWalk(allTasks: seq<Task>, start: seq<int>, p: seq<int>, x: int)
    requires IsDependentsPath(allTasks, start, p) && x in DependentsOfId(allTasks, p[|p| - 1])
    ensures IsDependentsPath(allTasks, start, p + [x])
  {
    var q := p + [x];
    forall k | 0 <= k < |q| - 1 ensures q[k + 1] in DependentsOfId(allTasks, q[k]) {
      if k < |p| - 1 {
        assert q[k] == p[k] && q[k + 1] == p[k + 1];
      }
    }
  }

  /** With exact dependents, a task is among the dependents of its first dependency. */
  lemma {:induction false} FirstDependencyStep(allTasks: seq<Task>, j: int) returns (k: int)
    requires NoOrphans(allTasks) && DependentsExact(allTasks)
    requires 0 <= j < |allTasks| && |allTasks[j].dependencyIds| > 0
    ensures 0 <= k < |allTasks|
    ensures GetTaskById(allTasks, allTasks[j].dependencyIds[0]) == Success(allTasks[k])
    ensures allTasks[j].id in DependentsOfId(allTasks, allTasks[j].dependencyIds[0])
  {
    var x := allTasks[j].dependencyIds[0];
    assert DependenciesResolved(allTasks, allTasks[j]);
    k := FindIndex(allTasks, x).value;
    assert GetTaskOrUndefinedById(allTasks, x) == Some(allTasks[k]);
    assert allTasks[k].id in allTasks[j].dependencyIds;
    assert allTasks[j].id in allTasks[k].dependentIds;
  }

  /** What is reached from `start`, followed by one more dependent, is reached from `start`. */
  lemma {:induction false} ReachableExtend(allTasks: seq<Task>, start: seq<int>, x: int, y: int)
    requires ReachableDependent(allTasks, start, x) && y in DependentsOfId(allTasks, x)
    ensures ReachableDependent(allTasks, start, y)
  {
    var p :| IsDependentsPath(allTasks, start, p) && p[|p| - 1] == x;
    ExtendWalk(allTasks, start, p, y);
    assert (p + [y])[|p|] == y;
  }

  /** With exact dependents, a task whose first-dependency chain meets `target` is reached from the dependents of `target`. */
  lemma {:induction false} DependsFirstOnReached(allTasks: seq<Task>, target: int, j: int)
    requires NoOrphans(allTasks) && Acyclic(allTasks) && DependentsExact(allTasks)
    requires 0 <= j < |allTasks| && DependsFirstOn(allTasks, allTasks[j], target)
    ensures ReachableDependent(allTasks, DependentsOfId(allTasks, target), allTasks[j].id)
    decreases LockDepth(SomeRank(allTasks), allTasks[j])
  {
    var x := allTasks[j].dependencyIds[0];
    var k := FirstDependencyStep(allTasks, j);
    if x == target {
      assert IsDependentsPath(allTasks, DependentsOfId(allTasks, target), [allTasks[j].id]);
    } else {
      DependsFirstOnReached(allTasks, target, k);
      ReachableExtend(allTasks, DependentsOfId(allTasks, target), allTasks[k].id, allTasks[j].id);
    }
  }

  /** Exactness of the dependents only depends on the shape. */
  lemma {:induction false} SameShapeDependentsExact(l1: seq<Task>, l2: seq<Task>)
    requires SameShape(l1, l2)
    ensures DependentsExact(l1) <==> DependentsExact(l2)
  {
  }

  /** With unique ids, putting a task of the list back into it changes nothing. */
  lemma {:induction false} ReplaceByMember(allTasks: seq<Task>, task: Task)
    requires NoDuplicates(Ids(allTasks)) && task in allTasks
    ensures ReplaceTask(allTasks, task) == allTasks
  {
    var t :| 0 <= t < |allTasks| && allTasks[t] == task;
    forall i | 0 <= i < |allTasks| && allTasks[i].id == task.id ensures allTasks[i] == task {
      assert Ids(allTasks)[i] == Ids(allTasks)[t];
    }
  }

  /** A task of a prepared list can always be toggled: propagation from it is defined. */
  lemma {:induction false} PreparedCanPropagate(allTasks: seq<Task>, task: Task)
    requires Prepared(allTasks) && task in allTasks
    ensures CanPropagateFrom(allTasks, task)
  {
    ReplaceByMember(allTasks, task);
  }

  /** With exact dependents and unique ids, a task whose first-dependency chain meets `newTask` is reached from it. */
  lemma {:induction false} FirstDependencyChainReached(base: seq<Task>, newTask: Task, t: int, i: int)
    requires NoOrphans(base) && Acyclic(base) && DependentsExact(base) && NoDuplicates(Ids(base))
    requires 0 <= t < |base| && base[t] == newTask && 0 <= i < |base|
    requires DependsFirstOn(base, base[i], newTask.id)
    ensures base[i].id in ReachableIds(base, newTask)
  {
    DependsFirstOnReached(base, newTask.id, i);
    UniqueIdLookup(base, t);
    assert base[i].id in IdSet(base);
  }

  /** Replacing a record by one differing only in its completion time keeps the shape and the other completion times. */
  lemma {:induction false} ToggledListShape(allTasks: seq<Task>, t: int, newTask: Task)
    requires 0 <= t < |allTasks| && newTask == allTasks[t].(completedAt := newTask.completedAt)
    ensures var base := allTasks[t := newTask];
      && SameShape(allTasks, base) && Ids(base) == Ids(allTasks)
      && forall i :: 0 <= i < |allTasks| && allTasks[i].id != newTask.id ==> allTasks[i].completedAt == base[i].completedAt
  {
    var base := allTasks[t := newTask];
    assert SameShape(allTasks, base);
    SameGraphIds(allTasks, base);
  }

  /**
   * In a list with exact dependents and unique ids, toggling a task of the
   * list can only change the lock rule's verdict for tasks reached from it
   * through dependents.
   */
  lemma {:induction false} ToggleReachesChangedLocks(allTasks: seq<Task>, t: int, newTask: Task, i: int)
    requires NoOrphans(allTasks) && Acyclic(allTasks) && DependentsExact(allTasks) && NoDuplicates(Ids(allTasks))
    requires 0 <= t < |allTasks| && newTask == allTasks[t].(completedAt := newTask.completedAt) && 0 <= i < |allTasks|
    ensures var base := allTasks[t := newTask];
      && NoOrphans(base) && Acyclic(base) && DependenciesResolved(base, base[i])
      && (HasUncompletedDependency(allTasks, allTasks[i]) != HasUncompletedDependency(base, base[i]) ==>
            base[i].id in ReachableIds(base, newTask))
  {
    var base := allTasks[t := newTask];
    ToggledListShape(allTasks, t, newTask);
    SameGraphWellFormed(allTasks, base);
    SameShapeDependentsExact(allTasks, base);
    LockChangeNeedsFirstDependency(allTasks, base, newTask.id, allTasks[i], base[i]);
    if HasUncompletedDependency(allTasks, allTasks[i]) != HasUncompletedDependency(base, base[i]) {
      FirstDependencyChainReached(base, newTask, t, i);
    }
  }

  /**
   * The completion toggle keeps a prepared list prepared: in particular every
   * locked state the propagation leaves is the lock rule on the new list.
   */
  lemma {:induction false} CompletionKeepsPrepared(allTasks: seq<Task>, task: Task, isCompleted: bool, now: int)
    requires Prepared(allTasks) && task in allTasks
    ensures CanPropagateFrom(allTasks, task)
    ensures Prepared(CompletionResult(allTasks, task, isCompleted, now))
  {
    PreparedCanPropagate(allTasks, task);
    if !(isCompleted && task.isLocked) {
      var t :| 0 <= t < |allTasks| && allTasks[t] == task;
      var newTask := ToggledTask(task, isCompleted, now);
      ReplaceAtUniqueId(allTasks, t, newTask);
      PreparedLocksAfterToggle(allTasks, t, newTask);
    }
  }

  /** One task's lock after toggling the task at position `t` of a list with exact dependents and unique ids. */
  lemma {:induction false} LockAfterToggle(allTasks: seq<Task>, t: int, newTask: Task, i: int)
    requires NoOrphans(allTasks) && Acyclic(allTasks) && DependentsExact(allTasks) && NoDuplicates(Ids(allTasks))
    requires 0 <= t < |allTasks| && newTask == allTasks[t].(completedAt := newTask.completedAt) && 0 <= i < |allTasks|
    requires Consistent(allTasks[t := newTask])
    requires allTasks[i].isLocked == HasUncompletedDependency(allTasks, allTasks[i])
    ensures var r := PropagatedList(allTasks[t := newTask], newTask);
      NoOrphans(r) && Acyclic(r) && r[i].isLocked == HasUncompletedDependency(r, r[i])
  {
    var base := allTasks[t := newTask];
    PropagationEffect(base, newTask);
    var r := PropagatedList(base, newTask);
    assert IsFirstIndex(base, i) by {
      assert forall m :: 0 <= m < i ==> Ids(allTasks)[m] != Ids(allTasks)[i];
    }
    LockStateDependsOnlyOnView(base, r, base[i], r[i]);
    if base[i].id !in ReachableIds(base, newTask) {
      ToggleReachesChangedLocks(allTasks, t, newTask, i);
    }
  }

  /** The locks propagation leaves after toggling the task at position `t` of a prepared list are correct. */
  lemma {:induction false} PreparedLocksAfterToggle(allTasks: seq<Task>, t: int, newTask: Task)
    requires Prepared(allTasks)
    requires 0 <= t < |allTasks| && newTask == allTasks[t].(completedAt := newTask.completedAt)
    ensures Consistent(allTasks[t := newTask])
    ensures Prepared(PropagatedList(allTasks[t := newTask], newTask))
  {
    var base := allTasks[t := newTask];
    assert SameShape(allTasks, base);
    SameShapeConsistent(allTasks, base);
    PropagationEffect(base, newTask);
    var r := PropagatedList(base, newTask);
    SameGraphWellFormed(allTasks, r);
    SameGraphIds(allTasks, r);
    SameShapeDependentsExact(allTasks, r);
    forall i | 0 <= i < |r| ensures r[i].isLocked == HasUncompletedDependency(r, r[i]) {
      LockAfterToggle(allTasks, t, newTask, i);
    }
  }
}

/**
 * The behaviour the repository's test cases expect of the task manager,
 * stated of the samples: the normal sample, the sample with an orphan
 * dependency, the two samples with a loop, and the normal sample with every
 * task completed.
 */
module TaskManagerTests {
  import opened Wrappers
  import opened Sequences
  import opened TaskModel
  import opened TaskManager
  import opened DataSamples

  // ---------------------------------------------------------------------
  // The shape of the normal sample

  /** The dependency ids of the normal sample, position by position. */
  const NormalDependencyIds: seq<seq<int>> := [[], [1], [1], [1], [1], [2, 3, 4], [5, 6], []]

  /** The record at position m has id m + 1. */
  predicate BareIdsArePositions(b: seq<TaskBare>) {
    forall m :: 0 <= m < |b| ==> b[m].id == m + 1
  }

  /** The task at position m has id m + 1. */
  predicate IdsArePositions(l: seq<Task>) {
    forall m :: 0 <= m < |l| ==> l[m].id == m + 1
  }

  /** Records with the ids and dependency ids of the normal sample. */
  predicate NormalGraphBare(b: seq<TaskBare>) {
    && |b| == 8 && BareIdsArePositions(b)
    && forall m :: 0 <= m < 8 ==> b[m].dependencyIds == NormalDependencyIds[m]
  }

  /** Tasks with the ids and dependency ids of the normal sample. */
  predicate NormalGraph(l: seq<Task>) {
    && |l| == 8 && IdsArePositions(l)
    && forall m :: 0 <= m < 8 ==> l[m].dependencyIds == NormalDependencyIds[m]
  }

  /** The normal sample has the normal graph and no completed task. */
  lemma NormalSampleShape()
    ensures NormalGraphBare(NormalSample)
    ensures forall m :: 0 <= m < |NormalSample| ==> NormalSample[m].completedAt.None?
  {
    forall m | 0 <= m < 8
      ensures NormalSample[m].id == m + 1 && NormalSample[m].dependencyIds == NormalDependencyIds[m]
      ensures NormalSample[m].completedAt.None?
    {
      assert m == 0 || m == 1 || m == 2 || m == 3 || m == 4 || m == 5 || m == 6 || m == 7;
    }
  }

  /** The all-completed sample has the normal graph and the task at position m completed at `at[m]`. */
  lemma {:induction false} AllCompletedSampleShape(at: seq<int>)
    requires |at| == |NormalSample|
    ensures NormalGraphBare(AllCompletedSample(at))
    ensures forall m :: 0 <= m < |AllCompletedSample(at)| ==> AllCompletedSample(at)[m].completedAt == Some(at[m])
  {
    NormalSampleShape();
  }

  /** In a list whose ids are the positions plus one, id x is found at position x - 1. */
  lemma {:induction false} PositionLookup(l: seq<Task>, x: int)
    requires IdsArePositions(l) && 1 <= x <= |l|
    ensures HasTask(l, x) && GetTaskById(l, x) == Success(l[x - 1])
  {
    assert l[x - 1].id == x;
    var k :| 0 <= k < |l| && IsFirstIndex(l, k) && l[k] == GetTaskById(l, x).value;
  }

  /** A rank for the normal graph: the length of the longest dependency chain below a task. */
  function NormalRank(id: int): nat {
    if id == 1 || id == 8 then 0
    else if 2 <= id <= 5 then 1
    else if id == 6 then 2
    else 3
  }

  /** The normal graph has unique ids, no orphan and no cycle. */
  lemma {:induction false} NormalGraphWellFormed(l: seq<Task>)
    requires NormalGraph(l)
    ensures NoOrphans(l) && Acyclic(l) && NoDuplicates(Ids(l))
  {
    forall i, k | 0 <= i < |l| && 0 <= k < |l[i].dependencyIds|
      ensures 1 <= l[i].dependencyIds[k] <= 8
      ensures NormalRank(l[i].dependencyIds[k]) < NormalRank(l[i].id)
    {
      assert l[i].id == i + 1 && l[i].dependencyIds == NormalDependencyIds[i];
      assert i == 1 || i == 2 || i == 3 || i == 4 || i == 5 || i == 6;
    }
    forall i, k | 0 <= i < |l| && 0 <= k < |l[i].dependencyIds| ensures HasTask(l, l[i].dependencyIds[k]) {
      PositionLookup(l, l[i].dependencyIds[k]);
    }
    assert RankedBy(l, NormalRank);
    assert forall m :: 0 <= m < |l| ==> Ids(l)[m] == m + 1;
  }

  /** Lifting records with the normal graph gives tasks with the normal graph. */
  lemma {:induction false} ExtendNormalGraph(b: seq<TaskBare>)
    requires NormalGraphBare(b)
    ensures NormalGraph(ExtendTasks(b))
  {
    var e := ExtendTasks(b);
    assert forall m :: 0 <= m < |e| ==> AsBare(e[m]) == b[m];
  }

  /**
   * Preparing records with the normal graph: the same graph (no dependency
   * id is an orphan), the same completion times, and a prepared list.
   */
  lemma {:induction false} PrepareNormalGraph(b: seq<TaskBare>)
    requires NormalGraphBare(b)
    ensures Acyclic(ExtendTasks(b))
    ensures var r := PrepareTaskList(b);
      && NormalGraph(r) && Prepared(r)
      && (forall m :: 0 <= m < |r| ==> r[m].completedAt == b[m].completedAt)
      && IsSubsequence(r[0].dependentIds, Ids(r))
  {
    var e := ExtendTasks(b);
    ExtendNormalGraph(b);
    NormalGraphWellFormed(e);
    PrepareTaskListPrepared(b);
    var r := PrepareTaskList(b);
    forall m | 0 <= m < |r| ensures r[m].dependencyIds == b[m].dependencyIds {
      assert DependenciesResolved(e, e[m]);
      PrepareKeepsResolvedDependencies(b, m);
    }
  }

  // ---------------------------------------------------------------------
  // The completion toggle on the normal graph

  /**
   * Toggling a task of a prepared list with the normal graph keeps the graph
   * and a prepared list, and changes no completion time but that of the
   * toggled task (completing a locked task changes nothing at all).
   */
  lemma {:induction false} ToggleKeepsNormalGraph(l: seq<Task>, x: int, isCompleted: bool, now: int)
    requires NormalGraph(l) && Prepared(l) && 1 <= x <= 8
    ensures CanPropagateFrom(l, l[x - 1])
    ensures var r := CompletionResult(l, l[x - 1], isCompleted, now);
      && NormalGraph(r) && Prepared(r)
      && (isCompleted && l[x - 1].isLocked ==> r == l)
      && (!(isCompleted && l[x - 1].isLocked) ==> r[x - 1].completedAt == NewCompletedAt(l[x - 1].completedAt, isCompleted, now))
      && (forall m :: 0 <= m < |r| && m != x - 1 ==> r[m].completedAt == l[m].completedAt)
  {
    CompletionKeepsPrepared(l, l[x - 1], isCompleted, now);
    if !(isCompleted && l[x - 1].isLocked) {
      ToggleNormalFields(l, x, isCompleted, now);
    }
  }

  /**
   * With the ids at their positions, a toggle leaves what the lock rule reads
   * as in the list with the toggled task's completion time replaced: every
   * id, every dependency list and every other completion time.
   */
  lemma {:induction false} ToggleView(l: seq<Task>, x: int, isCompleted: bool, now: int)
    requires IdsArePositions(l) && 1 <= x <= |l|
    requires !(isCompleted && l[x - 1].isLocked) && CanPropagateFrom(l, l[x - 1])
    ensures SameLockView(l[x - 1 := ToggledTask(l[x - 1], isCompleted, now)], CompletionResult(l, l[x - 1], isCompleted, now))
  {
    var task := l[x - 1];
    var newTask := ToggledTask(task, isCompleted, now);
    assert NoDuplicates(Ids(l)) by {
      assert forall m :: 0 <= m < |l| ==> Ids(l)[m] == m + 1;
    }
    ReplaceAtUniqueId(l, x - 1, newTask);
    ReplaceTaskShape(l, task, newTask);
    SameShapeConsistent(ReplaceTask(l, task), ReplaceTask(l, newTask));
    PropagationEffect(ReplaceTask(l, newTask), newTask);
  }

  /** A toggle keeps the normal graph and changes the completion time of the toggled position only. */
  lemma {:induction false} ToggleNormalFields(l: seq<Task>, x: int, isCompleted: bool, now: int)
    requires NormalGraph(l) && 1 <= x <= 8
    requires !(isCompleted && l[x - 1].isLocked) && CanPropagateFrom(l, l[x - 1])
    ensures var r := CompletionResult(l, l[x - 1], isCompleted, now);
      && NormalGraph(r)
      && r[x - 1].completedAt == NewCompletedAt(l[x - 1].completedAt, isCompleted, now)
      && forall m :: 0 <= m < |r| && m != x - 1 ==> r[m].completedAt == l[m].completedAt
  {
    ToggleView(l, x, isCompleted, now);
    GraphUnderToggle(l, x, ToggledTask(l[x - 1], isCompleted, now), CompletionResult(l, l[x - 1], isCompleted, now));
  }

  /** A list with the lock view of `l` with one completion time replaced keeps the graph and the other completion times. */
  lemma {:induction false} GraphUnderToggle(l: seq<Task>, x: int, newTask: Task, r: seq<Task>)
    requires NormalGraph(l) && 1 <= x <= 8 && newTask == l[x - 1].(completedAt := newTask.completedAt)
    requires SameLockView(l[x - 1 := newTask], r)
    ensures NormalGraph(r) && r[x - 1].completedAt == newTask.completedAt
    ensures forall m :: 0 <= m < |r| && m != x - 1 ==> r[m].completedAt == l[m].completedAt
  {
    var v := l[x - 1 := newTask];
    assert forall m :: 0 <= m < |v| ==> v[m].id == l[m].id && v[m].dependencyIds == l[m].dependencyIds;
  }

  /** Toggling the task with id `x`, found by id, as the test cases do. */
  ghost function Toggle(l: seq<Task>, x: int, isCompleted: bool, now: int): (r: seq<Task>)
    requires NormalGraph(l) && Prepared(l) && 1 <= x <= 8
    ensures NormalGraph(r) && Prepared(r)
    ensures isCompleted && l[x - 1].isLocked ==> r == l
    ensures !(isCompleted && l[x - 1].isLocked) ==> r[x - 1].completedAt == NewCompletedAt(l[x - 1].completedAt, isCompleted, now)
    ensures forall m :: 0 <= m < |r| && m != x - 1 ==> r[m].completedAt == l[m].completedAt
  {
    PositionLookup(l, x);
    ToggleKeepsNormalGraph(l, x, isCompleted, now);
    CompletionResult(l, GetTaskById(l, x).value, isCompleted, now)
  }

  /** The task with id `x` is found and is not locked. */
  predicate Unlocked(l: seq<Task>, x: int) {
    GetTaskById(l, x).Success? && !GetTaskById(l, x).value.isLocked
  }

  /** The task with id `x` is found and is locked. */
  predicate Locked(l: seq<Task>, x: int) {
    GetTaskById(l, x).Success? && GetTaskById(l, x).value.isLocked
  }

  /** The lock rule on the normal graph, one step: a task is locked when its first dependency is open or locked. */
  lemma {:induction false} NormalLockStep(l: seq<Task>, i: int, d: int)
    requires NormalGraph(l) && NoOrphans(l) && Acyclic(l) && 0 <= i < 8
    requires |l[i].dependencyIds| > 0 && l[i].dependencyIds[0] == d && 1 <= d <= 8
    ensures HasUncompletedDependency(l, l[i]) == (l[d - 1].completedAt.None? || HasUncompletedDependency(l, l[d - 1]))
  {
    PositionLookup(l, d);
  }

  /** The task at position j is a dependent of the task at position i exactly when it lists it among its dependencies. */
  lemma {:induction false} NormalDependent(l: seq<Task>, i: int, x: int)
    requires NormalGraph(l) && DependentsExact(l) && 0 <= i < 8 && DependentsResolved(l, l[i])
    ensures x in l[i].dependentIds <==> 1 <= x <= 8 && i + 1 in NormalDependencyIds[x - 1]
  {
    if x in l[i].dependentIds {
      var k :| 0 <= k < |l[i].dependentIds| && l[i].dependentIds[k] == x;
      assert DependentsResolved(l, l[i]);
      var j :| 0 <= j < |l| && l[j].id == x;
      assert l[j].id in l[i].dependentIds <==> l[i].id in l[j].dependencyIds;
    }
    if 1 <= x <= 8 && i + 1 in NormalDependencyIds[x - 1] {
      assert l[x - 1].id in l[i].dependentIds <==> l[i].id in l[x - 1].dependencyIds;
    }
  }

  /** No task of the normal graph depends on task 7. */
  lemma {:induction false} NormalDependentsOfSeven(l: seq<Task>)
    requires NormalGraph(l) && DependentsExact(l) && DependentsResolved(l, l[6])
    ensures l[6].dependentIds == []
  {
    if |l[6].dependentIds| > 0 {
      NormalDependent(l, 6, l[6].dependentIds[0]);
      assert false;
    }
  }

  /** Four tasks of the normal graph depend on task 1, each listed once. */
  lemma {:induction false} NormalDependentsOfOne(l: seq<Task>)
    requires NormalGraph(l) && DependentsExact(l) && DependentsResolved(l, l[0])
    requires IsSubsequence(l[0].dependentIds, Ids(l))
    ensures Elements(l[0].dependentIds) == {2, 3, 4, 5}
    ensures |l[0].dependentIds| == 4
  {
    forall x ensures x in l[0].dependentIds <==> x in {2, 3, 4, 5} {
      NormalDependent(l, 0, x);
    }
    assert NoDuplicates(Ids(l)) by {
      assert forall m :: 0 <= m < |l| ==> Ids(l)[m] == m + 1;
    }
    FourDistinct(l[0].dependentIds, Ids(l));
  }

  /** A subsequence of a list without repetitions whose elements are 2, 3, 4 and 5 has length 4. */
  lemma {:induction false} FourDistinct(s: seq<int>, ids: seq<int>)
    requires IsSubsequence(s, ids) && NoDuplicates(ids) && Elements(s) == {2, 3, 4, 5}
    ensures |s| == 4
  {
    SubsequenceNoDuplicates(s, ids);
    NoDuplicatesCardinality(s);
    assert |{2, 3, 4, 5}| == 4;
  }

  /** In a prepared list with the normal graph, once task 1 is completed tasks 2 to 5 are free, and task 6 too once task 2 is. */
  lemma {:induction false} NormalUnlocks(l: seq<Task>)
    requires NormalGraph(l) && NoOrphans(l) && Acyclic(l) && LocksCorrect(l) && l[0].completedAt.Some?
    ensures forall i :: 1 <= i <= 4 ==> !l[i].isLocked
    ensures l[1].completedAt.Some? ==> !l[5].isLocked
  {
    assert !HasUncompletedDependency(l, l[0]);
    forall i | 1 <= i <= 4 ensures !l[i].isLocked {
      NormalLockStep(l, i, 1);
    }
    NormalLockStep(l, 5, 2);
    NormalLockStep(l, 1, 1);
  }

  /** Task 1 of the normal graph has no dependency, so it is never locked. */
  lemma {:induction false} FirstTaskFree(l: seq<Task>)
    requires NormalGraph(l) && NoOrphans(l) && Acyclic(l) && LocksCorrect(l)
    ensures !l[0].isLocked
  {
    assert !HasUncompletedDependency(l, l[0]);
  }

  /** In a prepared list with the normal graph, while task 1 is open tasks 2 to 6 are locked. */
  lemma {:induction false} NormalLocks(l: seq<Task>)
    requires NormalGraph(l) && NoOrphans(l) && Acyclic(l) && LocksCorrect(l) && l[0].completedAt.None?
    ensures forall i :: 1 <= i <= 5 ==> l[i].isLocked
  {
    NormalLockRule(l);
    forall i | 1 <= i <= 5 ensures l[i].isLocked {
      assert l[i].isLocked == HasUncompletedDependency(l, l[i]);
    }
  }

  /** The lock rule on the normal graph, while task 1 is open: tasks 2 to 6 have an uncompleted dependency. */
  lemma {:induction false} NormalLockRule(l: seq<Task>)
    requires NormalGraph(l) && NoOrphans(l) && Acyclic(l) && l[0].completedAt.None?
    ensures forall i :: 1 <= i <= 5 ==> HasUncompletedDependency(l, l[i])
  {
    NormalLockStep(l, 1, 1);
    NormalLockStep(l, 2, 1);
    NormalLockStep(l, 3, 1);
    NormalLockStep(l, 4, 1);
    NormalLockStep(l, 5, 2);
  }

  /** With every task completed, no task is locked. */
  lemma {:induction false} CompletedListUnlocked(l: seq<Task>)
    requires NoOrphans(l) && Acyclic(l) && LocksCorrect(l)
    requires forall m :: 0 <= m < |l| ==> l[m].completedAt.Some?
    ensures forall i :: 0 <= i < |l| ==> !l[i].isLocked
  {
    forall i | 0 <= i < |l| ensures !l[i].isLocked {
      AllCompletedNoneLocked(l, l[i]);
    }
  }

  /** A rank strictly decreases along a dependency edge between two tasks of the list. */
  lemma {:induction false} EdgeRank(l: seq<Task>, rank: int -> nat, i: int, k: int, j: int)
    requires RankedBy(l, rank) && 0 <= i < |l| && 0 <= k < |l[i].dependencyIds| && 0 <= j < |l|
    requires l[i].dependencyIds[k] == l[j].id
    ensures rank(l[j].id) < rank(l[i].id)
  {
    assert HasTask(l, l[i].dependencyIds[k]);
  }

  /** Records with the graph of the normal sample except that task 1 depends on the unknown id 666. */
  predicate OrphanGraphBare(b: seq<TaskBare>) {
    && |b| == 8 && BareIdsArePositions(b) && b[0].dependencyIds == [666]
    && forall m :: 1 <= m < 8 ==> b[m].dependencyIds == NormalDependencyIds[m]
  }

  /** The orphan sample has that graph and no completed task. */
  lemma SampleWithOrphanShape()
    ensures OrphanGraphBare(SampleWithOrphan)
    ensures forall m :: 0 <= m < |SampleWithOrphan| ==> SampleWithOrphan[m].completedAt.None?
  {
    NormalSampleShape();
    assert forall m :: 1 <= m < 8 ==> SampleWithOrphan[m] == NormalSample[m];
  }

  /** Tasks with the graph of the normal sample except that task 1 depends on the unknown id 666. */
  predicate OrphanGraph(l: seq<Task>) {
    && |l| == 8 && IdsArePositions(l) && l[0].dependencyIds == [666]
    && forall m :: 1 <= m < 8 ==> l[m].dependencyIds == NormalDependencyIds[m]
  }

  /** Lifting records with the orphan graph gives tasks with the orphan graph. */
  lemma {:induction false} ExtendOrphanGraphShape(b: seq<TaskBare>)
    requires OrphanGraphBare(b)
    ensures OrphanGraph(ExtendTasks(b))
  {
    var e := ExtendTasks(b);
    assert forall m :: 0 <= m < |e| ==> AsBare(e[m]) == b[m];
  }

  /** The orphan graph has no cycle: the rank of the normal graph still decreases along its edges. */
  lemma {:induction false} OrphanGraphAcyclic(e: seq<Task>)
    requires OrphanGraph(e)
    ensures Acyclic(e) && !HasTask(e, 666)
  {
    assert !HasTask(e, 666) by {
      forall j | 0 <= j < |e| ensures e[j].id != 666 {
        assert e[j].id == j + 1;
      }
    }
    forall i, k | 0 <= i < |e| && 0 <= k < |e[i].dependencyIds| && HasTask(e, e[i].dependencyIds[k])
      ensures NormalRank(e[i].dependencyIds[k]) < NormalRank(e[i].id)
    {
      if i > 0 {
        assert e[i].id == i + 1 && e[i].dependencyIds == NormalDependencyIds[i];
        assert i == 1 || i == 2 || i == 3 || i == 4 || i == 5 || i == 6;
      }
    }
    assert RankedBy(e, NormalRank);
  }

  /** In the orphan graph the ids are unique and every dependency id of tasks 2 to 8 names a task. */
  lemma {:induction false} OrphanGraphResolved(e: seq<Task>)
    requires OrphanGraph(e)
    ensures NoDuplicates(Ids(e)) && forall m :: 1 <= m < 8 ==> DependenciesResolved(e, e[m])
  {
    forall m, k | 1 <= m < 8 && 0 <= k < |e[m].dependencyIds| ensures HasTask(e, e[m].dependencyIds[k]) {
      assert e[m].dependencyIds == NormalDependencyIds[m];
      assert m == 1 || m == 2 || m == 3 || m == 4 || m == 5 || m == 6 || m == 7;
      PositionLookup(e, e[m].dependencyIds[k]);
    }
    assert forall m :: 0 <= m < |e| ==> Ids(e)[m] == m + 1;
  }

  /** Lifting records with the orphan graph: ids at their positions, no cycle, 666 names no task. */
  lemma {:induction false} ExtendOrphanGraph(b: seq<TaskBare>)
    requires OrphanGraphBare(b)
    ensures var e := ExtendTasks(b);
      && IdsArePositions(e) && Acyclic(e) && !HasTask(e, 666) && NoDuplicates(Ids(e))
      && forall m :: 1 <= m < 8 ==> DependenciesResolved(e, e[m])
  {
    ExtendOrphanGraphShape(b);
    OrphanGraphAcyclic(ExtendTasks(b));
    OrphanGraphResolved(ExtendTasks(b));
  }

  /** Preparation drops the orphan id 666 of task 1. */
  lemma {:induction false} OrphanDropped(b: seq<TaskBare>)
    requires OrphanGraphBare(b)
    ensures Acyclic(ExtendTasks(b))
    ensures PrepareTaskList(b)[0].dependencyIds == []
  {
    ExtendOrphanGraph(b);
    PrepareDropsUnknownIds(b, 0, 666);
  }

  /** Preparing records with the orphan graph drops the orphan id and leaves the normal graph. */
  lemma {:induction false} PrepareOrphanGraph(b: seq<TaskBare>)
    requires OrphanGraphBare(b)
    ensures Acyclic(ExtendTasks(b))
    ensures var r := PrepareTaskList(b);
      && r[0].dependencyIds == []
      && NormalGraph(r) && Prepared(r)
      && (forall m :: 0 <= m < |r| ==> r[m].completedAt == b[m].completedAt)
      && IsSubsequence(r[0].dependentIds, Ids(r))
  {
    ExtendOrphanGraph(b);
    OrphanDropped(b);
    PrepareTaskListPrepared(b);
    var r := PrepareTaskList(b);
    assert IdsArePositions(r);
    forall m | 1 <= m < |r| ensures r[m].dependencyIds == b[m].dependencyIds {
      PrepareKeepsResolvedDependencies(b, m);
    }
  }

  // ---------------------------------------------------------------------
  // The test cases

  /** With every task open, exactly the tasks with dependencies are locked. */
  lemma {:induction false} OpenListLocks(l: seq<Task>)
    requires NoOrphans(l) && Acyclic(l) && LocksCorrect(l)
    requires forall m :: 0 <= m < |l| ==> l[m].completedAt.None?
    ensures forall i :: 0 <= i < |l| ==> (l[i].isLocked <==> |l[i].dependencyIds| > 0)
  {
    forall i | 0 <= i < |l| ensures l[i].isLocked <==> |l[i].dependencyIds| > 0 {
      AllIncompleteLockedIffDependencies(l, l[i]);
    }
  }

  /** An open prepared list with the normal graph: the facts the first test case checks. */
  lemma {:induction false} OpenNormalGraphFacts(l: seq<Task>)
    requires NormalGraph(l) && Prepared(l) && IsSubsequence(l[0].dependentIds, Ids(l))
    requires forall m :: 0 <= m < |l| ==> l[m].completedAt.None?
    ensures GetTaskById(l, 7).Success? && GetTaskById(l, 7).value.dependentIds == []
    ensures GetTaskById(l, 1).Success? && |GetTaskById(l, 1).value.dependentIds| == 4
    ensures forall i :: 0 <= i < |l| ==> (l[i].isLocked <==> |l[i].dependencyIds| > 0)
  {
    PositionLookup(l, 7);
    PositionLookup(l, 1);
    NormalDependentsOfSeven(l);
    NormalDependentsOfOne(l);
    OpenListLocks(l);
  }

  /** Preparing open records with the normal graph: the facts the first test case checks. */
  lemma {:induction false} PrepareOpenNormalGraph(b: seq<TaskBare>)
    requires NormalGraphBare(b) && forall m :: 0 <= m < |b| ==> b[m].completedAt.None?
    ensures Acyclic(ExtendTasks(b))
    ensures var r := PrepareTaskList(b);
      && |r| == |b|
      && GetTaskById(r, 7).Success? && GetTaskById(r, 7).value.dependentIds == []
      && GetTaskById(r, 1).Success? && |GetTaskById(r, 1).value.dependentIds| == 4
      && (forall i :: 0 <= i < |r| ==> (r[i].isLocked <==> |r[i].dependencyIds| > 0))
  {
    PrepareNormalGraph(b);
    OpenNormalGraphFacts(PrepareTaskList(b));
  }

  /**
   * "Task list is properly prepared": no task is lost, task 7 (which no task
   * depends on) has no dependents, task 1 (which four tasks depend on) has
   * four, and, no task being completed, exactly the tasks with dependencies
   * are locked.
   */
  lemma NormalSamplePrepared()
    ensures Acyclic(ExtendTasks(NormalSample))
    ensures var r := PrepareTaskList(NormalSample);
      && |r| == |NormalSample|
      && GetTaskById(r, 7).Success? && GetTaskById(r, 7).value.dependentIds == []
      && GetTaskById(r, 1).Success? && |GetTaskById(r, 1).value.dependentIds| == 4
      && (forall i :: 0 <= i < |r| ==> (r[i].isLocked <==> |r[i].dependencyIds| > 0))
  {
    NormalSampleShape();
    PrepareOpenNormalGraph(NormalSample);
  }

  /** The dependents of task 1 in the normal graph are tasks 2 to 5. */
  lemma {:induction false} DependentsOfOneRange(l: seq<Task>)
    requires NormalGraph(l) && DependentsExact(l) && DependentsResolved(l, l[0])
    ensures forall x :: x in l[0].dependentIds ==> 2 <= x <= 5
  {
    forall x | x in l[0].dependentIds ensures 2 <= x <= 5 {
      NormalDependent(l, 0, x);
    }
  }

  /** Completing task 1 frees tasks 2 to 5. */
  lemma {:induction false} CompletingFirstFrees(l: seq<Task>, now: int)
    requires NormalGraph(l) && Prepared(l)
    ensures forall i :: 1 <= i <= 4 ==> !Toggle(l, 1, true, now)[i].isLocked
  {
    FirstTaskFree(l);
    NormalUnlocks(Toggle(l, 1, true, now));
  }

  /** Tasks 2 to 5 of a list with the ids at their positions, when free, are found free by id. */
  lemma {:induction false} FreeById(r: seq<Task>)
    requires IdsArePositions(r) && |r| == 8 && forall i :: 1 <= i <= 4 ==> !r[i].isLocked
    ensures forall x :: 2 <= x <= 5 ==> Unlocked(r, x)
  {
    forall x | 2 <= x <= 5 ensures Unlocked(r, x) {
      PositionLookup(r, x);
    }
  }

  /** The dependents of task 1 are free once task 1 is completed. */
  lemma {:induction false} CompleteFirstFacts(l: seq<Task>, now: int)
    requires NormalGraph(l) && Prepared(l)
    ensures forall x :: x in l[0].dependentIds ==> Unlocked(Toggle(l, 1, true, now), x)
  {
    DependentsOfOneRange(l);
    CompletingFirstFrees(l, now);
    FreeById(Toggle(l, 1, true, now));
  }

  /** "Task completed change properly handled - one level up". */
  lemma CompletingTaskOneUnlocksItsDependents(now: int)
    ensures Acyclic(ExtendTasks(NormalSample))
    ensures var l := PrepareTaskList(NormalSample);
      && NormalGraph(l) && Prepared(l)
      && GetTaskById(l, 1) == Success(l[0])
      && forall x :: x in GetTaskById(l, 1).value.dependentIds ==> Unlocked(Toggle(l, 1, true, now), x)
  {
    NormalSampleShape();
    PrepareNormalGraph(NormalSample);
    var l := PrepareTaskList(NormalSample);
    PositionLookup(l, 1);
    CompleteFirstFacts(l, now);
  }

  /** Completing task 1 leaves it completed and tasks 2 to 5 free. */
  lemma {:induction false} CompleteFirstStep(l: seq<Task>, now: int)
    requires NormalGraph(l) && Prepared(l)
    ensures var r := Toggle(l, 1, true, now);
      && r[0].completedAt.Some?
      && (forall i :: 1 <= i <= 4 ==> !r[i].isLocked)
  {
    FirstTaskFree(l);
    NormalUnlocks(Toggle(l, 1, true, now));
  }

  /**
   * With task 1 completed, completing one of tasks 2 to 5 keeps task 1 (and
   * task 2) completed, completes it, and leaves tasks 2 to 5 free, and task 6
   * too once task 2 is completed.
   */
  lemma {:induction false} CompleteLaterStep(l: seq<Task>, x: int, now: int)
    requires NormalGraph(l) && Prepared(l) && 2 <= x <= 5 && l[0].completedAt.Some?
    ensures var r := Toggle(l, x, true, now);
      && r[0].completedAt.Some? && r[x - 1].completedAt.Some?
      && (l[1].completedAt.Some? ==> r[1].completedAt.Some?)
      && (forall i :: 1 <= i <= 4 ==> !r[i].isLocked)
      && (r[1].completedAt.Some? ==> !r[5].isLocked)
  {
    NormalUnlocks(l);
    NormalUnlocks(Toggle(l, x, true, now));
  }

  /**
   * Completing tasks 1, 2, 3 and 4 in turn, at the given clock readings:
   * each is free when its turn comes, and task 6 is free at the end.
   */
  ghost predicate ChainCompletesFreely(l: seq<Task>, now1: int, now2: int, now3: int, now4: int)
    requires NormalGraph(l) && Prepared(l)
  {
    var l1 := Toggle(l, 1, true, now1);
    var l2 := Toggle(l1, 2, true, now2);
    var l3 := Toggle(l2, 3, true, now3);
    var l4 := Toggle(l3, 4, true, now4);
    Unlocked(l1, 2) && Unlocked(l2, 3) && Unlocked(l3, 4) && Unlocked(l4, 4) && Unlocked(l4, 6)
  }

  /** Every prepared list with the normal graph completes its chain freely. */
  lemma {:induction false} CompleteChainFacts(l: seq<Task>, now1: int, now2: int, now3: int, now4: int)
    requires NormalGraph(l) && Prepared(l)
    ensures ChainCompletesFreely(l, now1, now2, now3, now4)
  {
    var l1 := Toggle(l, 1, true, now1);
    CompleteFirstStep(l, now1);
    var l2 := Toggle(l1, 2, true, now2);
    CompleteLaterStep(l1, 2, now2);
    var l3 := Toggle(l2, 3, true, now3);
    CompleteLaterStep(l2, 3, now3);
    var l4 := Toggle(l3, 4, true, now4);
    CompleteLaterStep(l3, 4, now4);
    PositionLookup(l1, 2);
    PositionLookup(l2, 3);
    PositionLookup(l3, 4);
    PositionLookup(l4, 4);
    PositionLookup(l4, 6);
  }

  /**
   * "Task completed change properly handled - recursively": completing tasks
   * 1, 2, 3 and 4 in turn, each task is free when fetched, and so is task 6
   * at the end (the test fetches id 4 a second time where it means task 6;
   * both are free). Each toggle reads the clock afresh.
   */
  lemma {:induction false} CompletingChainUnlocksTaskSix(now1: int, now2: int, now3: int, now4: int)
    ensures Acyclic(ExtendTasks(NormalSample))
    ensures var l := PrepareTaskList(NormalSample);
      NormalGraph(l) && Prepared(l) && ChainCompletesFreely(l, now1, now2, now3, now4)
  {
    NormalSampleShape();
    PrepareNormalGraph(NormalSample);
    CompleteChainFacts(PrepareTaskList(NormalSample), now1, now2, now3, now4);
  }

  /** Preparing completed records with the normal graph locks no task. */
  lemma {:induction false} PrepareCompletedNormalGraph(b: seq<TaskBare>)
    requires NormalGraphBare(b) && forall m :: 0 <= m < |b| ==> b[m].completedAt.Some?
    ensures Acyclic(ExtendTasks(b))
    ensures var r := PrepareTaskList(b);
      && NormalGraph(r) && Prepared(r)
      && (forall m :: 0 <= m < |r| ==> r[m].completedAt == b[m].completedAt)
      && forall i :: 0 <= i < |r| ==> !r[i].isLocked
  {
    PrepareNormalGraph(b);
    CompletedListUnlocked(PrepareTaskList(b));
  }

  /** Reopening task 1 locks tasks 2 to 6. */
  lemma {:induction false} ReopenFirstLocks(l: seq<Task>, now: int)
    requires NormalGraph(l) && Prepared(l)
    ensures forall i :: 1 <= i <= 5 ==> Toggle(l, 1, false, now)[i].isLocked
  {
    NormalLocks(Toggle(l, 1, false, now));
  }

  /** Tasks 2 to 6 of a list with the ids at their positions, when locked, are found locked by id. */
  lemma {:induction false} LockedById(r: seq<Task>)
    requires IdsArePositions(r) && |r| == 8 && forall i :: 1 <= i <= 5 ==> r[i].isLocked
    ensures Locked(r, 2) && Locked(r, 3) && Locked(r, 4) && Locked(r, 6)
  {
    PositionLookup(r, 2);
    PositionLookup(r, 3);
    PositionLookup(r, 4);
    PositionLookup(r, 6);
  }

  /** Reopening task 1 locks tasks 2, 3, 4 and 6, found by id, and every other task keeps its completion time. */
  ghost predicate ReopeningLocksChain(l: seq<Task>, now: int)
    requires NormalGraph(l) && Prepared(l)
  {
    var r := Toggle(l, 1, false, now);
    && Locked(r, 2) && Locked(r, 3) && Locked(r, 4) && Locked(r, 6)
    && forall m :: 1 <= m < 8 ==> r[m].completedAt == l[m].completedAt
  }

  /** Every prepared list with the normal graph locks the chain when task 1 is reopened. */
  lemma {:induction false} ReopenFirstFacts(l: seq<Task>, now: int)
    requires NormalGraph(l) && Prepared(l)
    ensures ReopeningLocksChain(l, now)
  {
    ReopenFirstLocks(l, now);
    LockedById(Toggle(l, 1, false, now));
  }

  /** Records with the normal graph, all completed: the facts the last test case checks. */
  lemma {:induction false} ReopenCompletedNormalGraph(b: seq<TaskBare>, now: int)
    requires NormalGraphBare(b) && forall m :: 0 <= m < |b| ==> b[m].completedAt.Some?
    ensures Acyclic(ExtendTasks(b))
    ensures var l := PrepareTaskList(b);
      && NormalGraph(l) && Prepared(l)
      && (forall i :: 0 <= i < |l| ==> !l[i].isLocked)
      && ReopeningLocksChain(l, now)
  {
    PrepareCompletedNormalGraph(b);
    ReopenFirstFacts(PrepareTaskList(b), now);
  }

  /**
   * "Task completed change properly handled - recursively when task is
   * uncompleted": with every task completed no task is locked; reopening task
   * 1 locks tasks 2, 3, 4 and 6 (the test fetches id 4 a second time where it
   * means task 6; both are locked), and every other task keeps its own
   * completion time.
   */
  lemma {:induction false} ReopeningTaskOneLocksTheChain(at: seq<int>, now: int)
    requires |at| == |NormalSample|
    ensures Acyclic(ExtendTasks(AllCompletedSample(at)))
    ensures var l := PrepareTaskList(AllCompletedSample(at));
      && NormalGraph(l) && Prepared(l)
      && (forall i :: 0 <= i < |l| ==> !l[i].isLocked && l[i].completedAt == Some(at[i]))
      && ReopeningLocksChain(l, now)
  {
    AllCompletedSampleShape(at);
    ReopenCompletedNormalGraph(AllCompletedSample(at), now);
  }

  /** Records with the orphan graph: task 1 loses the orphan id, and no task depends on task 7. */
  lemma {:induction false} PrepareOrphanGraphFacts(b: seq<TaskBare>)
    requires OrphanGraphBare(b)
    ensures Acyclic(ExtendTasks(b))
    ensures var r := PrepareTaskList(b);
      && GetTaskById(r, 1).Success? && GetTaskById(r, 1).value.dependencyIds == []
      && GetTaskById(r, 7).Success? && GetTaskById(r, 7).value.dependentIds == []
  {
    PrepareOrphanGraph(b);
    var r := PrepareTaskList(b);
    PositionLookup(r, 1);
    PositionLookup(r, 7);
    NormalDependentsOfSeven(r);
  }

  /**
   * "Orphan dependencies removed": task 1, whose only dependency id names no
   * task, has no dependency ids left. (The test itself checks that task 7 has
   * no dependents, which holds as well.)
   */
  lemma OrphanSamplePrepared()
    ensures Acyclic(ExtendTasks(SampleWithOrphan))
    ensures var r := PrepareTaskList(SampleWithOrphan);
      && GetTaskById(r, 1).Success? && GetTaskById(r, 1).value.dependencyIds == []
      && GetTaskById(r, 7).Success? && GetTaskById(r, 7).value.dependentIds == []
  {
    SampleWithOrphanShape();
    PrepareOrphanGraphFacts(SampleWithOrphan);
  }

  /** Two tasks that depend on each other form a cycle. */
  lemma {:induction false} TwoCycle(l: seq<Task>, i: int, j: int)
    requires 0 <= i < |l| && 0 <= j < |l|
    requires |l[i].dependencyIds| > 0 && l[i].dependencyIds[0] == l[j].id
    requires |l[j].dependencyIds| > 0 && l[j].dependencyIds[0] == l[i].id
    ensures !Acyclic(l)
  {
    if Acyclic(l) {
      var rank := SomeRank(l);
      EdgeRank(l, rank, i, 0, j);
      EdgeRank(l, rank, j, 0, i);
      assert false;
    }
  }

  /** Three tasks each depending on the next form a cycle. */
  lemma {:induction false} ThreeCycle(l: seq<Task>, i: int, ki: int, j: int, kj: int, h: int, kh: int)
    requires 0 <= i < |l| && 0 <= j < |l| && 0 <= h < |l|
    requires 0 <= ki < |l[i].dependencyIds| && l[i].dependencyIds[ki] == l[j].id
    requires 0 <= kj < |l[j].dependencyIds| && l[j].dependencyIds[kj] == l[h].id
    requires 0 <= kh < |l[h].dependencyIds| && l[h].dependencyIds[kh] == l[i].id
    ensures !Acyclic(l)
  {
    if Acyclic(l) {
      var rank := SomeRank(l);
      EdgeRank(l, rank, i, ki, j);
      EdgeRank(l, rank, j, kj, h);
      EdgeRank(l, rank, h, kh, i);
      assert false;
    }
  }

  /**
   * The two samples with a loop do not meet the precondition of preparation:
   * tasks 1 and 2 depend on each other, and tasks 1, 6 and 2 form a cycle.
   */
  lemma LoopSamplesCyclic()
    ensures !Acyclic(ExtendTasks(SampleWithLoop1))
    ensures !Acyclic(ExtendTasks(SampleWithLoop2))
  {
    var e1 := ExtendTasks(SampleWithLoop1);
    assert AsBare(e1[0]) == SampleWithLoop1[0] && AsBare(e1[1]) == SampleWithLoop1[1];
    TwoCycle(e1, 0, 1);
    var e2 := ExtendTasks(SampleWithLoop2);
    assert AsBare(e2[0]) == SampleWithLoop2[0] && AsBare(e2[1]) == SampleWithLoop2[1] && AsBare(e2[5]) == SampleWithLoop2[5];
    assert SampleWithLoop2[5] == NormalSample[5] && SampleWithLoop2[1] == NormalSample[1];
    ThreeCycle(e2, 0, 0, 5, 0, 1, 0);
  }
}

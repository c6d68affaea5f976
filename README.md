# Task dependency engine of the group task list

This project models, in Dafny, the core of a small React/Redux application.
The application shows tasks sorted into groups. A task can depend on other
tasks, and it stays *locked* until its dependencies are completed. The model
covers four parts.

- **The task record** (`TaskModel`, `Task.dfy`). A task as supplied by the
  data source is a `TaskBare`. The "normal" task used by the UI is a `Task`:
  the same fields plus the computed `isLocked` flag and the computed
  `dependentIds` list.
- **The task manager** (`TaskManager`, `TaskManager.dfy`).
  - Preparing a loaded list converts the records, drops dependency ids that
    name no task, computes every task's dependents and sets every task's
    locked state.
  - Filtering by group name ignores case.
  - Looking a task up by id either returns the task or fails.
  - Toggling a task's completion sets or clears `completedAt`, then walks
    the dependents recursively and recomputes their locked state. The walk
    runs in place on an array and keeps a list of the ids it has visited.
- **The reducer of the task list store** (`TaskListHandler`,
  `TaskListHandler.dfy`). It has three recognised actions: set the list,
  toggle the completion of a task, and set the last error. Any other action
  returns the state, or the initial state when none is given.
- **The routes** (`AppRoutes`, `AppRoutes.dfy`): the two route strings, and
  the path of one group's task list.

`DataSamples.dfy` holds the sample task lists. `TaskManagerTests.dfy` states,
as lemmas, what the repository's test cases expect of those samples.
`Wrappers.dfy` defines `Option` and `Result`. `Sequences.dfy` defines
subsequences and duplicate-freedom.

## The lock rule

The rule is modelled as the code writes it. A task without dependencies is
unlocked. Otherwise only the FIRST dependency is examined:

- if it is not completed, the task is locked;
- if it is completed, the task is locked exactly when that dependency is
  itself locked, decided by the same rule.

The comments in `TaskManager.ts` describe a different rule: a task is locked
when any of its direct or indirect dependencies is incomplete. The loop in
`hasUncompletedDependency` returns on its first iteration, so the code never
applies that rule.

- `LockedIffChainIncomplete` characterises the rule as written.
- `LockRuleIgnoresLaterDependencies` exhibits the divergence: a task whose
  second dependency is open but whose first is done is unlocked.
- `LockedHasIncompleteDependency` states the direction of the documented
  rule that the code does keep: every locked task has an incomplete task
  somewhere along its dependencies.

## Well-formedness

The lock rule follows first dependencies only. It stops at the first open
dependency on that chain (`TaskManager.ts:192-193`), so a cycle stops it
whenever one of the cycle's tasks is open. It recurses without end only when
the chain of first dependencies runs into a cycle of completed tasks. The
walk over dependents (`TaskManager.ts:120-132`) skips visited ids, so it
ends on any list; only the lock rule it calls can fail to end.

The model asks for more. HasUncompletedDependency and the members built on it
require `Acyclic`: some rank strictly decreases along every dependency edge.
Orphan ids are ignored for this purpose. This condition is stronger than
termination needs. The application checks it before preparing a list: the
data loader prepares a list only when `findLoop` finds no loop
(`src/components/data-loader/DataLoader.tsx:74-76`).

Preparing a list with unique ids and no cycle establishes `Prepared`
(PrepareTaskListPrepared), and toggling keeps it:

- no orphans;
- acyclic;
- dependents that name tasks of the list;
- unique ids;
- `dependentIds` listing exactly the tasks whose `dependencyIds` mention
  the task;
- every locked state equal to the lock rule evaluated on the list.

## Model

| member | source | states |
|---|---|---|
| TaskModel.NewTask | src/model/Task.ts:14-41 | a new task carries the given fields, is not locked and has no dependents |
| TaskModel.CreateFromBare | src/model/Task.ts:48-52 | the converted task keeps every field of the record, is unlocked with no dependents, and its bare part is the input record |
| TaskManager.FindIndex | src/model/TaskManager.ts:128 | found exactly when some task has the id; the position found is the first with that id |
| TaskManager.GetTaskOrUndefinedById | src/model/TaskManager.ts:209-211 | defined exactly when some task has the id; the result is the first task with that id |
| TaskManager.GetTaskById | src/model/TaskManager.ts:81-88 | fails with the missing id exactly when no task has it; otherwise the first task with that id |
| TaskManager.UniqueIdLookup | src/model/TaskManager.ts:209-211 | with unique ids, looking up a task's id gives back that task |
| TaskManager.ToUpperCase | src/model/TaskManager.ts:39 | same length; each character upper-cased |
| TaskManager.GetGroupTasks | src/model/TaskManager.ts:38-40 | the result is a subsequence of the list (order kept) holding exactly the tasks whose group equals the given one ignoring case, each as often as in the list |
| TaskManager.GroupTasksIgnoreCase | src/model/TaskManager.ts:38-40 | group names that differ only in case select the same tasks |
| TaskManager.KeepKnownIds | src/model/TaskManager.ts:143-144 | a subsequence of the ids holding exactly those that name a task, each as often as in the input; unchanged when all do |
| TaskManager.RemoveOrphanDependents | src/model/TaskManager.ts:142-148 | only the dependency ids change; they become the subsequence of ids that name a task, each occurrence kept; a task without orphans is returned unchanged |
| TaskManager.DependentsOf | src/model/TaskManager.ts:157-162 | a subsequence of the list's ids holding exactly the ids of the tasks that list the given id as a dependency, each id once per such task |
| TaskManager.DependingPositions | src/model/TaskManager.ts:158-162 | the positions, increasing, of exactly the tasks that list the id as a dependency |
| TaskManager.DependentsInListOrder | src/model/TaskManager.ts:158-162 | the dependents are the ids at the depending positions, in list order, even when ids repeat |
| TaskManager.DependentsOfSuffixInOrder | src/model/TaskManager.ts:158-162 | the same for every suffix of the list, which is how the `reduce` builds the result |
| TaskManager.DependingPositionsSameGraph | src/model/TaskManager.ts:158-162 | lists with the same ids and dependency ids have the same depending positions |
| TaskManager.DependentsListedOnce | src/model/TaskManager.ts:157-162 | with unique task ids, no dependent is listed twice |
| TaskManager.SetTaskDependents | src/model/TaskManager.ts:157-164 | only the dependents change; they are the ids, in list order, of exactly the tasks that depend on the task, one entry per such task, with the order fixed by the depending positions |
| TaskManager.SetTaskLockedStateByDependencies | src/model/TaskManager.ts:174-177 | only the locked flag changes, and it becomes the lock rule evaluated on the list; a task without dependencies is unlocked |
| TaskManager.HasUncompletedDependency | src/model/TaskManager.ts:187-200 | the lock rule; it carries no contract of its own, and the lemmas in the rows below state what it computes (LockedIffChainIncomplete characterises it) |
| TaskManager.LockedIffChainIncomplete | src/model/TaskManager.ts:187-200 | locked exactly when some task on the chain of first dependencies is not completed |
| TaskManager.FirstDependencyChainExists | src/model/TaskManager.ts:187-200 | on an acyclic list without orphans every task has a chain of first dependencies |
| TaskManager.LockedHasIncompleteDependency | src/model/TaskManager.ts:179-186 | a locked task has a dependency path ending at an incomplete task |
| TaskManager.AllCompletedNoneLocked | src/model/TaskManager.ts:187-200 | when every task is completed no task is locked |
| TaskManager.AllIncompleteLockedIffDependencies | src/model/TaskManager.ts:187-200 | when no task is completed a task is locked exactly when it has a dependency |
| TaskManager.LockRuleIgnoresLaterDependencies | src/model/TaskManager.ts:190-196 | a task whose second dependency is open but whose first is done is not locked |
| TaskManager.LockStateDependsOnlyOnView | src/model/TaskManager.ts:187-200 | the lock rule reads only ids, dependency ids and completion times |
| TaskManager.LockChangeNeedsFirstDependency | src/model/TaskManager.ts:187-200 | changing one task's completion time changes only the locks of tasks whose first-dependency chain reaches it |
| TaskManager.ExtendTasks | src/model/TaskManager.ts:219-221 | one converted task per record, in order, each unlocked with no dependents |
| TaskManager.CleanedStage | src/model/TaskManager.ts:23-24 | the first stage of preparation; specified by OrphanRemovalWellFormed and PreparedRecordFields |
| TaskManager.OrphanRemovalWellFormed | src/model/TaskManager.ts:23-24 | dropping orphans keeps the ids and acyclicity and leaves no orphan |
| TaskManager.DependentsStage | src/model/TaskManager.ts:25-26 | the second stage of preparation; specified by DependentsStageResolved and PreparedDependents |
| TaskManager.DependentsStageResolved | src/model/TaskManager.ts:25-26 | setting the dependents leaves dependency ids that name tasks of the cleaned list |
| TaskManager.PreparedDependents | src/model/TaskManager.ts:25-26 | the dependents set by the second stage are exactly the depending tasks' ids and name tasks of the list |
| TaskManager.LockedStage | src/model/TaskManager.ts:27-28 | the last stage of preparation; specified by LockedStageFacts |
| TaskManager.LockedStageFacts | src/model/TaskManager.ts:27-28 | the last stage keeps the length, changes only locked flags, and sets each to the lock rule on the cleaned list |
| TaskManager.PreparedLocks | src/model/TaskManager.ts:27-28 | the locks set from the cleaned list equal the lock rule evaluated on the final list |
| TaskManager.PreparedRecordFields | src/model/TaskManager.ts:22-26 | the stages keep ids, texts, groups and completion times, and leave as dependency ids the subsequence that names tasks |
| TaskManager.PreparedStages | src/model/TaskManager.ts:21-30 | the three stages together give every property PrepareTaskList promises |
| TaskManager.PreparedRecord | src/model/TaskManager.ts:27-28 | a prepared record is the second stage's record with only its locked flag set |
| TaskManager.PreparedGraph | src/model/TaskManager.ts:21-30 | preparation leaves the ids and dependency ids orphan removal produced |
| TaskManager.StagedOccurrences | src/model/TaskManager.ts:23-26 | after the stages each dependency id that names a task occurs as often as in the record, and each dependent once per depending task |
| TaskManager.PrepareTaskList | src/model/TaskManager.ts:21-30 | same length and record fields; dependency ids are the subsequence naming a task; dependents exactly the depending tasks; consistent; each lock equals the lock rule |
| TaskManager.PreparedDependentsInListOrder | src/model/TaskManager.ts:25-26 | after preparation each task's dependents are the ids at its depending positions in the prepared list, in order |
| TaskManager.PreparedOccurrences | src/model/TaskManager.ts:21-30 | preparation keeps every occurrence of a dependency id naming a task and drops the others, and lists a dependent once per task with that id depending on the task |
| TaskManager.PrepareKeepsResolvedDependencies | src/model/TaskManager.ts:142-148 | a record whose dependency ids all name tasks keeps them |
| TaskManager.PrepareDropsUnknownIds | src/model/TaskManager.ts:142-148 | an id naming no task is dropped from every dependency list |
| TaskManager.PreparedIds | src/model/TaskManager.ts:21-30 | preparation keeps the ids in order |
| TaskManager.PreparedDependentsSymmetric | src/model/TaskManager.ts:157-164 | with unique ids, after preparation j is a dependent of i exactly when i is a dependency of j |
| TaskManager.PrepareTaskListPrepared | src/model/TaskManager.ts:21-30 | unique ids and no cycle give a prepared list |
| TaskManager.VisitDependent | src/model/TaskManager.ts:123-130 | an unvisited id is added once and relocked; the array is the base list relocked at every visited id; only ids reached from it are added, and the visited set is closed under dependents |
| TaskManager.UpdateTaskParentsLockedStateInternal | src/model/TaskManager.ts:115-133 | every dependent is visited; visited ids stay unique; the array is the base list relocked at the visited ids, which are closed under dependents and reached from the task |
| TaskManager.VisitedAreReachable | src/model/TaskManager.ts:100-105 | the ids visited from an empty start are exactly those reachable from the task's dependents |
| TaskManager.UpdateTaskParentsLockedState | src/model/TaskManager.ts:100-105 | the result is the list with exactly the tasks reachable through dependents relocked |
| TaskManager.PropagationEffect | src/model/TaskManager.ts:100-133 | propagation changes only locked flags, only of reachable tasks, and each such flag equals the lock rule on the result |
| TaskManager.NewCompletedAt | src/model/TaskManager.ts:62-64 | set exactly when completing; an existing time is kept; a missing one becomes now |
| TaskManager.CompletionTimeIdempotent | src/model/TaskManager.ts:62-64 | applying the same toggle twice gives the same completion time as once |
| TaskManager.ToggledTask | src/model/TaskManager.ts:65 | only the completion time changes, as NewCompletedAt says |
| TaskManager.ReplaceTask | src/model/TaskManager.ts:66-67 | every task with the new task's id is replaced by it; the others are kept |
| TaskManager.ReplaceAtUniqueId | src/model/TaskManager.ts:66-67 | with unique ids the replacement is an update at the one position |
| TaskManager.SetTaskCompletionState | src/model/TaskManager.ts:51-69 | completing a locked task returns the list unchanged; otherwise the toggled list with the reachable dependents relocked |
| TaskManager.CompletionEffect | src/model/TaskManager.ts:51-69 | only the toggled task's completion time and locked flags change, and only the locks of tasks reachable from the toggled task |
| TaskManager.PreparedCanPropagate | src/model/TaskManager.ts:60-68 | on a prepared list any of its tasks can be toggled |
| TaskManager.DependsFirstOnReached | src/model/TaskManager.ts:120-132 | a task whose first-dependency chain reaches the target is reached from the target through dependents |
| TaskManager.ToggleReachesChangedLocks | src/model/TaskManager.ts:51-69 | every task whose lock rule changes when one completion time changes is reached by the propagation |
| TaskManager.PreparedLocksAfterToggle | src/model/TaskManager.ts:65-68 | toggling a task of a prepared list and propagating keeps it prepared |
| TaskManager.CompletionKeepsPrepared | src/model/TaskManager.ts:51-69 | toggling any task of a prepared list keeps it prepared, so every lock is correct afterwards |
| TaskListHandler.ActionType | src/store/TaskListHandler.ts:29-33 | each recognised action has its own type string |
| TaskListHandler.ActionTypesDistinct | src/store/TaskListHandler.ts:29-33 | the three type strings differ |
| TaskListHandler.Reducer | src/store/TaskListHandler.ts:106-137 | setting the list replaces it and clears the error; toggling clears the error and leaves the list when a locked task is completed; setting the error keeps the list; other actions, whose type is none of the three reserved strings, return the state or the initial one |
| TaskListHandler.ReducerKeepsPrepared | src/store/TaskListHandler.ts:106-137 | the reducer keeps the task list prepared |
| TaskListHandler.InitialStatePrepared | src/store/TaskListHandler.ts:21-24 | the initial state is prepared |
| AppRoutes.IndexOfFrom | src/util/AppRoutes.ts:19 | the first occurrence of the pattern at or after a position, or none |
| AppRoutes.ReplaceFirst | src/util/AppRoutes.ts:19 | the first occurrence replaced literally; the string unchanged without one |
| AppRoutes.ReplaceFirstOccurrence | src/util/AppRoutes.ts:19 | when the pattern first occurs at a position, that occurrence is replaced |
| AppRoutes.ReplaceFirstAbsent | src/util/AppRoutes.ts:19 | without an occurrence the string is unchanged |
| AppRoutes.GroupSegmentPosition | src/util/AppRoutes.ts:9-10 | the placeholder segment first occurs right after the group list route |
| AppRoutes.ComposeTaskListPath | src/util/AppRoutes.ts:18-20 | the path is the group list route, a slash, the group, and "/tasks" |
| AppRoutes.ComposeTaskListPathInjective | src/util/AppRoutes.ts:18-20 | different groups get different paths |
| TaskManagerTests.NormalSampleShape | src/model/DataSamples.ts:10-67 | the normal sample's ids and dependencies, none completed |
| TaskManagerTests.SampleWithOrphanShape | src/model/DataSamples.ts:72-129 | the orphan sample is the normal one with task 1 depending on the missing id 666 |
| TaskManagerTests.PrepareNormalGraph | src/model/TaskManager.ts:21-30 | preparing any list shaped like the normal sample gives a prepared list of the same shape |
| TaskManagerTests.Toggle | src/model/TaskManager.ts:51-69 | toggling a task of a prepared normal-shaped list keeps it prepared and changes only that task's completion time |
| TaskManagerTests.NormalSamplePrepared | src/model/__tests__/TaskManager.test.ts:10-39 | no task lost; task 7 has no dependents; task 1 has four; exactly the tasks with dependencies are locked |
| TaskManagerTests.OrphanDropped | src/model/__tests__/TaskManager.test.ts:41-49 | preparing the orphan sample drops the missing id from task 1 |
| TaskManagerTests.OrphanSamplePrepared | src/model/__tests__/TaskManager.test.ts:41-49 | in the prepared orphan sample task 1 has no dependency ids and task 7 no dependents |
| TaskManagerTests.CompletingTaskOneUnlocksItsDependents | src/model/__tests__/TaskManager.test.ts:51-66 | after completing task 1 all of its dependents are unlocked |
| TaskManagerTests.CompletingChainUnlocksTaskSix | src/model/__tests__/TaskManager.test.ts:68-88 | completing 1, 2, 3, 4 in turn, each at its own clock reading, leaves 2, 3 and 4 unlocked when toggled, and 4 and 6 unlocked at the end |
| TaskManagerTests.ReopeningTaskOneLocksTheChain | src/model/__tests__/TaskManager.test.ts:91-117 | with every task completed, each at its own time, none is locked; reopening task 1 locks 2, 3, 4 and 6 and every other task keeps its own completion time |
| TaskManagerTests.LoopSamplesCyclic | src/model/DataSamples.ts:134-211 | both loop samples are cyclic, so the model's preparation precondition excludes them |

## Left out

- `findLoop`, `getGroups` and `stripToBare` are not part of this model: the
  files that define them are not among the modelled sources. Acyclicity is
  therefore a precondition, never a computed check.
- The React components, `actionCreators` (`TaskListHandler.ts:81-96`) and
  the store set-up in `store/index.ts` are not modelled. They are UI wiring
  and thunk dispatch.
- `Date.now()` becomes the parameter `now`, and a `Date` completion time
  becomes `Option<int>`.
- Task ids are JavaScript numbers; the model uses unbounded `int`.
- ToUpperCase: upper-cases ASCII letters only. JavaScript's `toUpperCase`
  follows Unicode case mapping, which changes lengths for some characters.
- ComposeTaskListPath: requires a group name without `$`. `String.replace`
  reads `$` patterns in the replacement string, and the model does not
  interpret them.
- GetTaskById: returns a `Result` failure where the source throws an
  `Error`.
- HasUncompletedDependency, SetTaskLockedStateByDependencies and
  PrepareTaskList: require an acyclic list. The source ends on a cyclic list
  unless a chain of first dependencies runs into a cycle of completed tasks;
  cyclic lists are not modelled, because the data loader rejects them before
  preparation.
- UpdateTaskParentsLockedState and SetTaskCompletionState: require a
  consistent list whose dependents all name tasks. The source throws when a
  dependent id is missing. Its walk ends on a cycle, but the lock rule it
  evaluates may not, so cyclic lists are excluded here too.
- PrepareTaskListPrepared: requires unique ids. With a repeated id, lookups
  by id find only the first task, and the model does not state what
  `Prepared` would mean there.
- Reducer: an unrecognised action whose type is one of the three reserved
  strings is excluded (WellTypedAction). Redux dispatches on the type
  string, so such an action would be handled as the recognised one.
- UpdateTaskParentsLockedStateInternal and VisitDependent: the visited list
  holds ids, not task objects. The source looks visited tasks up only by
  id, so this is equivalent.
- UpdateTaskParentsLockedStateInternal: the source evaluates the lock rule
  on the partially updated array. The model proves that this equals
  evaluating it on the list before the walk, because the walk changes only
  locked flags and the rule does not read them.
- Reducer: a completion or error action with no state is excluded. In the
  source the first throws, and the second yields a state without a task
  list. A list-set action or an unrecognised action with no state is
  modelled.
- Reducer: an action is a `KnownAction` value, and an unrecognised action
  is a constructor with its type string. Redux's action objects and type
  dispatch are not modelled.
- `extendTasks` calls `Task.createFromBare`, but the class declares
  `CREATE_FROM_BARE`. The model treats both names as one conversion.
- The lock rule follows the code: only the first dependency is examined.
  LockedHasIncompleteDependency proves the documented rule in one direction
  only, because the converse fails for the rule as written
  (LockRuleIgnoresLaterDependencies).
- A locked task keeps its completion time. The code never clears it, so the
  model does not either.
- CompletingChainUnlocksTaskSix: the test case at
  `__tests__/TaskManager.test.ts:82` reads task 4 where its name says task 6.
  The lemma proves both tasks unlocked.
- OrphanSamplePrepared: the orphan test case
  (`__tests__/TaskManager.test.ts:45-47`) checks the dependents of task 7,
  while its title speaks of the dependency ids of the task with the orphan.
  The lemma proves both.
- The test lemmas apply the toggle through the ghost function
  `TaskManagerTests.Toggle`, which is specified by the same function
  `SetTaskCompletionState` is proved equal to. They do not call the method.

/**
 * The task records: the bare record supplied by the external source and
 * the "normal" task used by the UI, which adds two calculated fields.
 */
module TaskModel {
  import opened Wrappers

  /** A task as supplied by the external source (no calculated fields). */
  datatype TaskBare = TaskBare(
    id: int,
    task: string,
    group: string,
    dependencyIds: seq<int>,
    completedAt: Option<int>)   // completion time in milliseconds, None when not completed

  /**
   * A task ready for the UI: the bare fields plus `isLocked` (true while a
   * dependency is not completed) and `dependentIds` (the tasks that list
   * this one among their dependencies). Both are set by the task manager.
   */
  datatype Task = Task(
    id: int,
    task: string,
    group: string,
    dependencyIds: seq<int>,
    completedAt: Option<int>,
    isLocked: bool,
    dependentIds: seq<int>)

  /** The constructor: the five bare fields, with the calculated fields at their defaults. */
  function NewTask(id: int, task: string, group: string, dependencyIds: seq<int>, completedAt: Option<int>): (t: Task)
    ensures t.id == id && t.task == task && t.group == group
    ensures t.dependencyIds == dependencyIds && t.completedAt == completedAt
    ensures !t.isLocked
    ensures t.dependentIds == []
  {
    Task(id, task, group, dependencyIds, completedAt, false, [])
  }

  /** A task seen as the bare record it extends (the calculated fields dropped). */
  function AsBare(t: Task): TaskBare {
    TaskBare(t.id, t.task, t.group, t.dependencyIds, t.completedAt)
  }

  /** Converts a task supplied by the external source to a "normal" one. */
  function CreateFromBare(b: TaskBare): (t: Task)
    ensures t.id == b.id && t.task == b.task && t.group == b.group
    ensures t.dependencyIds == b.dependencyIds && t.completedAt == b.completedAt
    ensures !t.isLocked && t.dependentIds == []
    ensures AsBare(t) == b
  {
    NewTask(b.id, b.task, b.group, b.dependencyIds, b.completedAt)
  }
}

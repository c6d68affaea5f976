/**
 * The store of the task list: its state, the actions understood by it and
 * the reducer computing the next state.
 */
module TaskListHandler {
  import opened Wrappers
  import opened TaskModel
  import opened TaskManager

  /** The task list state: all tasks and the last error message. */
  datatype TaskListState = TaskListState(allTasks: seq<Task>, lastError: string)

  /** The state before anything happened: no tasks, no error. */
  const InitialState: TaskListState := TaskListState([], "")

  /** The action type strings. */
  const TaskListSetType: string := "@@TASK_LIST/SET"
  const TaskSetCompletionStateType: string := "@@TASK/SET_COMPLETED"
  const ErrorSetType: string := "@@ERROR/SET"

  /**
   * The actions: the three the store knows, and any other action (one whose
   * type is none of the three), which the reducer passes over.
   */
  datatype KnownAction =
    | TaskListSet(allTasks: seq<Task>)
    | TaskSetCompletionState(task: Task, isCompleted: bool)
    | ErrorSet(error: string)
    | Unrecognized(actionType: string)

  /** An action value some dispatched action corresponds to: an unrecognised one carries none of the three types. */
  predicate WellTypedAction(action: KnownAction) {
    action.Unrecognized? ==> action.actionType !in {TaskListSetType, TaskSetCompletionStateType, ErrorSetType}
  }

  /** The type string of an action. */
  function ActionType(action: KnownAction): (r: string)
    requires WellTypedAction(action)
    ensures action.TaskListSet? <==> r == TaskListSetType
    ensures action.TaskSetCompletionState? <==> r == TaskSetCompletionStateType
    ensures action.ErrorSet? <==> r == ErrorSetType
  {
    match action
    case TaskListSet(_) => TaskListSetType
    case TaskSetCompletionState(_, _) => TaskSetCompletionStateType
    case ErrorSet(_) => ErrorSetType
    case Unrecognized(t) => t
  }

  /**
   * What the reducer needs to handle an action: a state for the actions that
   * read it, for a completion toggle a task propagation can start from, and
   * for any other action a type none of the three has.
   */
  ghost predicate CanReduce(state: Option<TaskListState>, action: KnownAction) {
    match action
    case TaskListSet(_) => true
    case TaskSetCompletionState(task, isCompleted) =>
      state.Some? && ((isCompleted && task.isLocked) || CanPropagateFrom(state.value.allTasks, task))
    case ErrorSet(_) => state.Some?
    case Unrecognized(_) => WellTypedAction(action)
  }

  /** The state the reducer returns; the clock reads `now` when a task is completed. */
  ghost function Reduced(state: Option<TaskListState>, action: KnownAction, now: int): (r: TaskListState)
    requires CanReduce(state, action)
  {
    match action
    case TaskListSet(allTasks) => TaskListState(allTasks, "")
    case TaskSetCompletionState(task, isCompleted) =>
      state.value.(allTasks := CompletionResult(state.value.allTasks, task, isCompleted, now), lastError := "")
    case ErrorSet(error) => state.value.(lastError := error)
    case Unrecognized(_) => state.GetOr(InitialState)
  }

  /**
   * For a given state and action, returns the new state: setting the list
   * or toggling a task clears the error, setting an error keeps the tasks,
   * any other action keeps the state, or gives the initial one when there is none.
   */
  method Reducer(state: Option<TaskListState>, action: KnownAction, now: int) returns (r: TaskListState)
    requires CanReduce(state, action)
    ensures r == Reduced(state, action, now)
    ensures action.TaskListSet? ==> r.allTasks == action.allTasks && r.lastError == ""
    ensures action.TaskSetCompletionState? ==> r.lastError == ""
    ensures action.TaskSetCompletionState? && action.isCompleted && action.task.isLocked ==>
      r.allTasks == state.value.allTasks
    ensures action.ErrorSet? ==> r.lastError == action.error && r.allTasks == state.value.allTasks
    ensures action.Unrecognized? && state.Some? ==> r == state.value
    ensures action.Unrecognized? && state.None? ==> r.allTasks == [] && r.lastError == ""
  {
    match action {
      case TaskListSet(allTasks) =>
        return TaskListState(allTasks, "");
      case TaskSetCompletionState(task, isCompleted) =>
        var newAllTasks := SetTaskCompletionState(state.value.allTasks, task, isCompleted, now);
        return state.value.(allTasks := newAllTasks, lastError := "");
      case ErrorSet(error) =>
        return state.value.(lastError := error);
      case Unrecognized(_) =>
    }
    return state.GetOr(InitialState);
  }

  /** The three action types are distinct strings. */
  lemma ActionTypesDistinct()
    ensures TaskListSetType != TaskSetCompletionStateType
    ensures TaskListSetType != ErrorSetType
    ensures TaskSetCompletionStateType != ErrorSetType
  {
    assert TaskListSetType[6] != TaskSetCompletionStateType[6];
    assert TaskListSetType[2] != ErrorSetType[2];
    assert TaskSetCompletionStateType[2] != ErrorSetType[2];
  }

  /** The state holds a prepared task list. */
  ghost predicate PreparedState(state: TaskListState) {
    Prepared(state.allTasks)
  }

  /**
   * The reducer keeps the task list prepared when the toggled task is one of
   * the list's and a task list it is given is prepared.
   */
  lemma {:induction false} ReducerKeepsPrepared(state: TaskListState, action: KnownAction, now: int)
    requires PreparedState(state) && WellTypedAction(action)
    requires action.TaskListSet? ==> Prepared(action.allTasks)
    requires action.TaskSetCompletionState? ==> action.task in state.allTasks
    ensures CanReduce(Some(state), action)
    ensures PreparedState(Reduced(Some(state), action, now))
  {
    if action.TaskSetCompletionState? {
      CompletionKeepsPrepared(state.allTasks, action.task, action.isCompleted, now);
    }
  }

  /** The initial state is prepared: the empty list has nothing to get wrong. */
  lemma InitialStatePrepared()
    ensures PreparedState(InitialState)
  {
    var rank: int -> nat := x => 0;
    assert RankedBy([], rank);
  }
}

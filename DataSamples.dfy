/** The sample task lists of the application, as records from the external source. */
module DataSamples {
  import opened Wrappers
  import opened TaskModel

  /** The "normal" sample: shopping first, then building the airplane. */
  const NormalSample: seq<TaskBare> := [
    TaskBare(1, "Go to the bank", "Purchases", [], None),
    TaskBare(2, "Buy hammer", "Purchases", [1], None),
    TaskBare(3, "Buy wood", "Purchases", [1], None),
    TaskBare(4, "Buy nails", "Purchases", [1], None),
    TaskBare(5, "Buy paint", "Purchases", [1], None),
    TaskBare(6, "Hammer nails into wood", "Build Airplane", [2, 3, 4], None),
    TaskBare(7, "Paint wings", "Build Airplane", [5, 6], None),
    TaskBare(8, "Have a snack", "Build Airplane", [], None)
  ]

  /** The normal sample with the first task depending on an id no task has. */
  const SampleWithOrphan: seq<TaskBare> := [NormalSample[0].(dependencyIds := [666])] + NormalSample[1..]

  /** Two tasks depending on each other. */
  const SampleWithLoop1: seq<TaskBare> := [
    TaskBare(1, "Go to the bank", "Purchases", [2], None),
    TaskBare(2, "Buy hammer", "Purchases", [1], None)
  ]

  /** The normal sample with the first task depending on task 6, which depends on it through task 2. */
  const SampleWithLoop2: seq<TaskBare> := [NormalSample[0].(dependencyIds := [6])] + NormalSample[1..]

  /** The normal sample with every task completed, the task at position i at time `at[i]`. */
  function AllCompletedSample(at: seq<int>): seq<TaskBare>
    requires |at| == |NormalSample|
  {
    seq(|NormalSample|, i requires 0 <= i < |NormalSample| => NormalSample[i].(completedAt := Some(at[i])))
  }
}

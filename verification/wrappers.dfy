/** Nullable values and failing computations. */
module Wrappers {

  /** A Java reference that may be `null`. */
  datatype Option<+T> = None | Some(value: T)

  /** A computation that either produces a value or raises an exception. */
  datatype Result<+T, +E> = Success(value: T) | Failure(error: E)

  /** A `void` computation that either completes or raises an exception. */
  datatype Outcome<+E> = Pass | Fail(error: E)
}

/** The exceptions the core raises; each constructor names the Java exception class. */
module Exceptions {

  datatype Exception =
    | IllegalArgument     // IllegalArgumentException from Task.durationValidate
    | NullPointer         // NullPointerException the code as written can raise
    | ManagerCreateTask   // ManagerCreateTaskException from the create operations
    | ManagerParseTask    // ManagerParseTaskException from FileBackedTaskManager.fromString
    | ManagerLoadFile     // ManagerLoadFileException wrapping a failed line in loadFromFile
}

/** Optional values and exception-carrying results used throughout the model.
    A Java `null` return becomes `None`; a thrown exception becomes `Failure`. */
module Results {

  datatype Option<+T> = None | Some(value: T)

  /** The exception classes the core throws, by the kind the caller can observe. */
  datatype Error =
    | IllegalArgument    // java.lang.IllegalArgumentException
    | EmployeeNotFound   // thrown by the constructor for a blank name
    | InvalidDepartment
    | InvalidSalary
    | NoSuchElement      // Iterator.next past the end

  datatype Result<+T> = Success(value: T) | Failure(error: Error)
}

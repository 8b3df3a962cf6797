/** Values shared by every layer: Java's nullable references and the
    exceptions the bookstore core throws. */
module Base {

  /** A Java reference that may be null. */
  datatype Option<T> = None | Some(value: T)

  /** The exceptions raised by the core, with the message each one carries. */
  datatype Error =
    | IllegalArgument(message: string)  // IllegalArgumentException (validation)
    | Runtime(message: string)          // RuntimeException (the controller's "not found")
    | Sql(message: string)              // SQLException (zero rows affected, constraint violation)
    | IndexOutOfBounds                  // StringIndexOutOfBoundsException from substring(0, 2)
    | NullPointer                       // NullPointerException (unboxing a null id)

  /** The result of a Java call that either returns a value or throws. */
  datatype Result<T> = Success(value: T) | Failure(error: Error)

  /** The result of a void Java call that either returns or throws. */
  datatype Outcome = Pass | Fail(error: Error)
}

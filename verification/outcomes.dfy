/** Failure-carrying values shared by every module of the date utility.
    `Option` stands for a Java reference that may be null (or a result that
    may be absent); `Result` stands for a call that may throw. */
module Outcomes {

  datatype Option<+T> = None | Some(value: T)

  /** The two exception classes the library throws. */
  datatype Error =
    | IllegalArgument   // java.lang.IllegalArgumentException
    | IllegalState      // java.lang.IllegalStateException (duplicate map keys)

  datatype Result<+T> = Ok(value: T) | Err(error: Error)

  /** A Java `String` reference: `None` is `null`. */
  type JavaString = Option<string>
}

/** Failure kinds of the storage engine and the result wrappers every layer returns.

    The kinds follow the exception classes the engine throws: the standard
    `std::invalid_argument`, `std::out_of_range` and `std::runtime_error`, and the
    project's own hierarchy (bad state, file open, file system, not formatted,
    not enough arguments, file name, not enough entries). */
module Errors {

  datatype Error =
    | InvalidArgument      // std::invalid_argument
    | OutOfRange           // std::out_of_range
    | BadState             // bad_state_exception
    | FileOpenError        // file_open_exception
    | FileSystemError      // file_system_exception (type mismatch, not empty, not found, ...)
    | NotFormatted         // file_not_formated_exception, "file system is not valid"
    | UnsupportedVersion   // file_not_formated_exception, "unsupported version"
    | NotEnoughArguments   // not_enough_arguments_exception
    | FilenameError        // filename_error
    | NoEnoughFsEntry      // no_enough_fs_entry
    | AssertionFailed      // a failed `assert`, which stops the program

  datatype Result<T> = Ok(value: T) | Err(error: Error) {
    predicate IsFailure() { Err? }
    function PropagateFailure<U>(): Result<U>
      requires Err?
    {
      Err(error)
    }
    function Extract(): T
      requires Ok?
    {
      value
    }
  }

  datatype Option<T> = None | Some(value: T)

  datatype Outcome = Pass | Fail(error: Error) {
    predicate IsFailure() { Fail? }
    function PropagateFailure(): Outcome
      requires Fail?
    {
      this
    }
  }
}

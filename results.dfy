/*
 * Outcomes of the link's operations.  The C# code signals failure by
 * throwing; here every operation that can throw returns a Result whose
 * Err case names the exception class (and, where the code distinguishes
 * several messages, which one).
 */
module Results {

  datatype Option<T> = None | Some(value: T)

  /** Why an IOException was raised. */
  datatype IOReason =
    | InvalidEscape        // "Invalid escape content in frame"
    | RetryExceeded        // "Retry count exceeded while sending command"
    | UnableToReadValue    // "Unable to read value"
    | IncompleteStatus     // "Incomplete status received while performing ..."
    | OperationFailed(code: int)  // "Failed to complete ... operation (0x..)"
    | ResetFailed          // "Unable to reset device"
    | NoStubSentinel       // "The stub was not successfully executed"
    | DownloadModeNoSync   // "Download mode detected, but getting no sync reply"
    | WrongBootMode        // "Wrong boot mode detected. MCU must be in download mode"

  /** Why an InvalidOperationException was raised. */
  datatype InvalidReason =
    | InvalidMessage       // the ROM answered "invalid message"
    | NoDevice             // no device descriptor is attached
    | NotInBootloader      // the link is not talking to a bootloader
    | StubRunning          // the stub has already been started

  datatype Fault =
    | ArgumentFault        // ArgumentException
    | ArgumentOutOfRange   // ArgumentOutOfRangeException
    | IndexOutOfRange      // IndexOutOfRangeException
    | NullReference        // NullReferenceException
    | IOFault(io: IOReason)
    | Timeout              // TimeoutException
    | InvalidOperation(why: InvalidReason)
    | NotSupported         // NotSupportedException
    | NotImplemented       // NotImplementedException
    | Format               // FormatException
    | DivideByZero         // DivideByZeroException
    | Starved              // a read with no timeout on a queue that never refills: the code waits forever

  datatype Result<T> = Ok(value: T) | Err(fault: Fault)
  {
    predicate IsFailure() { Err? }

    function PropagateFailure<U>(): Result<U>
      requires Err?
    {
      Err(fault)
    }

    function Extract(): T
      requires Ok?
    {
      value
    }
  }
}

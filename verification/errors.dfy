/** Outcomes of the driver's operations. Where the C# code throws, the model
    returns an error value instead, so every exception path stays visible in
    the contracts. */
module Errors {

  datatype Option<T> = None | Some(value: T)

  /** Why an operation failed, one constructor per exception the code raises. */
  datatype Error =
    | ShortDetected          // InvalidOperationException "One Wire short detected"
    | ChannelSelectFailed    // InvalidOperationException "Failed to set selected channel"
    | I2cIoError             // the I2C transport could not deliver a read
    | ArgumentError          // ArgumentException, wrong scratchpad buffer length
    | NullArgument           // ArgumentNullException, no I2C device given
    | DuplicateKey           // Dictionary.Add on a family code already registered
    | DeviceNotFound(variant: BridgeVariant, cause: Error)
                             // DS2482100/800DeviceNotFoundException wrapping the cause

  /** The two bridge chips the library supports. */
  datatype BridgeVariant = Ds2482_100 | Ds2482_800

  datatype Result<T> = Ok(value: T) | Err(error: Error)
  {
    predicate IsFailure() { Err? }

    function PropagateFailure<U>(): Result<U>
      requires Err?
    {
      Err(error)
    }

    function Extract(): T
      requires Ok?
    {
      value
    }
  }

  /** The result of an operation that returns nothing (a C# void method). */
  datatype Outcome = Pass | Fail(error: Error)
  {
    predicate IsFailure() { Fail? }

    function PropagateFailure(): Outcome
      requires Fail?
    {
      this
    }
  }
}

/** Failure-carrying results shared by every component of the model, and the
    exceptions of the runtime that the model turns into values. */
module Wrappers {

  /** The .NET and SnowRabbit exceptions the core throws. */
  datatype Error =
    | ArgumentNull                  // ArgumentNullException
    | ArgumentOutOfRange            // ArgumentOutOfRangeException
    | InvalidArgument               // ArgumentException
    | OutOfMemory                   // SrOutOfMemoryException
    | ObjectDisposed                // ObjectDisposedException
    | PartsMissing(part: PartKind)  // SrMachinePartsMissingException naming the part
    | IndexOutOfRange               // IndexOutOfRangeException of a plain array access

  /** The four parts of a virtual machine, in the order they are created. */
  datatype PartKind = Processor | Memory | Firmware | Storage

  datatype Option<+T> = None | Some(value: T)

  datatype Result<+T> = Success(value: T) | Failure(error: Error)

  datatype Outcome = Pass | Fail(error: Error)
}

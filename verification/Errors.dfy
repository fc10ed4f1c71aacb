/** The error numbers of the kernel interface (lib/rust/kernel/src/error.rs). */
module Errors {
  datatype Error =
    | Unknown
    | DoesNotExist
    | AlreadyExists
    | InvalidOperation
    | Cancelled
    | CantCreateObject
    | InvalidObject
    | InvalidData

  datatype Outcome = Success(value: int) | Failure(error: Error)

  /** The number of an error as it is sent. */
  function Code(error: Error): int
  {
    match error
    case Unknown => -1
    case DoesNotExist => -2
    case AlreadyExists => -3
    case InvalidOperation => -4
    case Cancelled => -5
    case CantCreateObject => -6
    case InvalidObject => -7
    case InvalidData => -8
  }

  /** `result`: known numbers first, then the range that is kept for errors. */
  function Decode(value: int): Outcome
  {
    if value == -1 then Failure(Unknown)
    else if value == -2 then Failure(DoesNotExist)
    else if value == -3 then Failure(AlreadyExists)
    else if value == -4 then Failure(InvalidOperation)
    else if value == -5 then Failure(Cancelled)
    else if value == -6 then Failure(CantCreateObject)
    else if value == -7 then Failure(InvalidObject)
    else if value == -8 then Failure(InvalidData)
    else if -4096 <= value <= -1 then Failure(Unknown)
    else Success(value)
  }

  /** An error that is sent arrives as that error, and what arrives as a value is what was sent: exactly the
      numbers from -4096 to -1 are errors, and those that no error has arrive as `Unknown`. */
  lemma DecodeIsExact(error: Error, value: int)
    ensures Decode(Code(error)) == Failure(error)
    ensures Decode(value) == Success(value) <==> value < -4096 || value >= 0
    ensures Decode(value).Success? ==> Decode(value).value == value
    ensures Decode(value) == Failure(error) ==>
              value == Code(error) || (error.Unknown? && -4096 <= value <= -1 && forall e :: Code(e) != value)
  {
  }
}

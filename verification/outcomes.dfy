/** Failure-carrying results shared by every part of the model. */
module Outcomes {

  datatype Option<+T> = None | Some(value: T)

  /** The exceptions the modelled code can throw. */
  datatype Fault =
    | UnexpectedElement     // XmlException for a start element the reader does not expect
    | UnexpectedEndElement  // XmlException for an end element the reader does not expect
    | BadNumber             // FormatException from double.Parse
    | BadHex                // FormatException or OverflowException from int.Parse with HexNumber
    | IndexOutOfRange       // ArgumentOutOfRangeException from indexing a List
    | NonFinite             // a zero time step: the doubles become infinite or NaN, which reals cannot follow

  /** Either the value an operation returns or the exception it throws. */
  datatype Result<+T> = Ok(value: T) | Err(fault: Fault) {

    predicate IsFailure() {
      Err?
    }

    function PropagateFailure<U>(): Result<U>
      requires Err?
    {
      Err(fault)
    }

    function Extract(): T
      requires Ok?
    {
      value
    }
  }
}

/** Option and Result values, and the exceptions the library raises, as data.

    A PHP exception becomes an `Err`; an input on which the PHP code would
    loop forever becomes `Err(NeverTerminates)`, so that every operation of
    the model is a total function. */
module Wrappers {

  datatype Option<+T> = None | Some(value: T) {
    function GetOr(default: T): T {
      match this
      case Some(v) => v
      case None => default
    }
  }

  /** The exception classes thrown by the modelled code. */
  datatype Error =
    | InvalidArgument(message: string)   // \InvalidArgumentException
    | ParseError(message: string)        // Sabre\Xml\ParseException
    | LogicError(message: string)        // \LogicException
    | LibXmlError(errors: seq<string>)   // Sabre\Xml\LibXMLException, one per parse
    | TypeMismatch(message: string)      // a value shape PHP would only accept through type juggling
    | NeverTerminates                    // the source loops forever on this input

  datatype Result<+T> = Ok(value: T) | Err(error: Error)
}

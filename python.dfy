/** Values shared by every module: optional values, results and the Python
    exceptions that the modelled code raises or lets propagate. */
module Python {

  datatype Option<+T> = None | Some(value: T)

  /** A Python call either returns a value or raises an exception. */
  datatype Result<+T> = Ok(value: T) | Err(error: PyError)

  /** The exceptions that reach the callers of the modelled functions. */
  datatype PyError =
    | IndexError          // s[0] on "", lst[1] on a one-element list
    | ValueError          // raised explicitly, or int() of a malformed string
    | TypeError           // int(None)
    | KeyError            // d[k] for a missing key
    | AttributeError      // None.lower()
    | ZeroDivisionError   // x % 0
    | UnboundLocalError   // reading a local variable that was never bound
    | HTTPException(status: int)
}

/** Shared wrappers: optional values and the exceptions the modelled Python code raises. */
module Base {

  /** A cell or argument that may be absent (pandas NaN, Python None). */
  datatype Option<+T> = None | Some(value: T) {
    function GetOr(default: T): T {
      match this
      case Some(v) => v
      case None => default
    }
  }

  /** The Python exceptions the modelled code can raise. */
  datatype Exc =
    | AssertionError
    | KeyError(key: string)
    | ValueError
    | IndexError
    | TypeError
    | AttributeError
    | Interrupt  // KeyboardInterrupt or SystemExit
    | ComError   // an error Excel reports through COM
    | MalformedQuery  // the CRM rejects a SOQL query it cannot parse

  /** A computation that either returns a value or raises. */
  datatype Result<+T> = Ok(value: T) | Err(exc: Exc)
}

/** Failure-compatible wrappers shared by the whole model.

    Java's `null` becomes `None`, and every exception the modelled code can
    throw (or let escape) becomes an `Err` carrying the kind of failure. */
module Results {

  /** A value that may be absent (a nullable Java reference). */
  datatype Option<+T> = None | Some(value: T) {

    function GetOr(default: T): T {
      match this
      case Some(v) => v
      case None => default
    }
  }

  /** The exceptions the modelled code raises or propagates. */
  datatype Error =
    | NullArgument        // IllegalArgumentException: required parameter is null
    | BlankArgument       // IllegalArgumentException: required parameter is blank
    | DateParse           // DateTimeParseException from YearMonth.parse
    | NumberFormat        // NumberFormatException from new BigDecimal(String)
    | NullPointer         // NullPointerException (null list element, null file name, null valor)
    | InvalidPath         // InvalidPathException from Path.of
    | ReadFailure         // the JSON file could not be read or decoded
    | NonUniqueResult     // a single-result query matched more than one row
    | ConstraintViolation // a NOT NULL or column-length constraint rejected a write
    | DetachedEntity      // persist of an entity that already carries an id
    | UnknownEntity       // merge of an entity whose id is not stored

  /** Either a value or the exception that replaced it. */
  datatype Result<+T> = Ok(value: T) | Err(error: Error) {

    predicate IsFailure() {
      Err?
    }

    function PropagateFailure<U>(): Result<U>
      requires Err?
    {
      Err(error)
    }

    function Extract(): T
      requires Ok?
    {
      value
    }
  }
}

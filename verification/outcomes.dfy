/** Result types shared by the catalogue model. */
module Outcomes {

  /** A value that may be absent (Python's `Optional`, SQLAlchemy's `.first()` returning `None`). */
  datatype Option<+T> = None | Some(value: T)

  /** The outcome of one catalogue operation: success, a missing id (HTTP 404),
      a storage-time constraint violation (unique name, foreign key), or a
      return value that fails the handler's declared response model (HTTP 500). */
  datatype Outcome<+T> = Ok(value: T) | NotFound | Conflict | ResponseInvalid

  /** The outcome of validating an input payload against a schema: the typed
      record, or the names of the fields that are missing or ill-typed. */
  datatype Parsed<+T> = Accepted(value: T) | Rejected(fields: seq<string>)
}

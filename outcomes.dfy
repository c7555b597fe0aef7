/**
 * The closed set of failures a configuration load can end in, and the
 * result and option wrappers the rest of the model returns.
 */
module Outcomes {

  /** The exception kinds a load can raise. `ParseError` stands for whatever
      a format parser throws on a malformed file; the loader lets it through
      unchanged. */
  datatype Error = FileNotFound | EmptyDirectory | UnsupportedFormat | ParseError

  datatype Result<+T> = Ok(value: T) | Err(error: Error)

  datatype Option<+T> = None | Some(value: T)
}

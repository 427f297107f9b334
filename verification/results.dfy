/** Failure values of the ETL transformations. The Python code raises exceptions;
    here every operation that can raise returns one of these instead. */
module Results {

  /** What went wrong, and where. */
  datatype Error =
    | EncodeError(index: nat)     // UnicodeEncodeError: character at `index` has no ISO-8859-1 byte
    | DecodeError(index: nat)     // UnicodeDecodeError: ill-formed UTF-8 sequence starts at byte `index`
    | DateParseError              // pd.to_datetime could not parse the column
    | MissingColumn(name: string) // KeyError from df[name]

  datatype Option<+T> = None | Some(value: T)

  datatype Result<+T> = Ok(value: T) | Err(error: Error)

  /** The result of a step that only changes state. */
  datatype Outcome = Pass | Fail(error: Error)
}

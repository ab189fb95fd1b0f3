module Results {
  datatype Option<+T> = None | Some(value: T)

  /** The error returns of the storage and the wire layers. */
  datatype Error =
    | PageLimit
    | RowTooLarge
    | InTransaction
    | NoTable
    | TableExists
    | WrongArity
    | WrongType
    | BadMetadata
    | CorruptFile
    | ShortRead
    | EmptyFrame
    | UnknownMessage
    | TruncatedRows

  datatype Result<+T> = Ok(value: T) | Err(error: Error)
}

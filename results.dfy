/** Failure-compatible wrappers for the tool's exceptions and nullable values. */
module Results {

  /** A nullable reference (`null` is `None`). */
  datatype Option<T> = None | Some(value: T)

  /** The errors the core raises; every one of them ends the current command. */
  datatype Error =
    /** A column name has no case-insensitive match in the header
        (InvalidOperationException from GetIndex, KeyNotFoundException from
        GetIndices, the library's own failure in GetColumnIndex). */
    | ColumnNotFound(name: string)
    /** Rename read a null header line from an empty file. */
    | NoHeaderLine
    /** Rename looked at `x[0]` of an empty header field. */
    | EmptyHeaderField(position: nat)
    /** Rename took `Substring(1, -1)` of a header field that is a lone `"`. */
    | LoneQuoteField(position: nat)

  /** Either a value or the error that aborted the computation. */
  datatype Result<T> = Ok(value: T) | Err(error: Error)
}

/** The error conditions of the bag reader. */
module Errors {

  /**
   * The reader's `ParseError`, one constructor per condition the parsers report.
   * `SliceOutOfRange` is not a variant of the source's enum: it stands for the
   * places where the Rust code indexes a slice out of bounds and would panic.
   */
  datatype ParseError =
    | InvalidOpCode
    | MissingFieldSeparator
    | UnexpectedOpCode
    | UnexpectedField
    | MissingField
    | UnindexedBag
    | UnexpectedEOF
    | BufferTooSmall
    | MissingRecord
    | InvalidBag
    | MissingHeaderOp
    | SliceOutOfRange

  /**
   * The public `ErrorKind` of a failed open. A parser's `ParseError` is carried
   * as `Parse`; `Panicked` is not a kind of the source: it stands for a Rust
   * panic (an out-of-range slice) on the way to the result.
   */
  datatype BagError =
    | NotARosbag
    | Io
    | Parse(cause: ParseError)
    | Decompression
    | Panicked
}

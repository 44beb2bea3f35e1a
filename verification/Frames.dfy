/** RESP frames and the parser's error values (src/frame.rs). */
module Frames {
  import opened Bytes

  datatype Frame =
    | Simple(text: Text)
    | Error(text: Text)
    | Integer(value: i64)
    | Bulk(bytes: Blob)
    | Array(elements: seq<Frame>)
    | Null

  const EMPTY_DECIMAL: Message := "Empty decimal field"
  const INVALID_DECIMAL: Message := "Invalid decimal " + "integer"
  const INTEGER_OVERFLOW: Message := "Integer overflow"
  const BARE_LINE_FEED: Message := "Bare line feed " + "in line"
  const BARE_CARRIAGE_RETURN: Message := "Carriage return " + "is not followed " + "by line feed"
  const BAD_BULK_TERMINATOR: Message := "Invalid bulk " + "string terminator"
  const BAD_BULK_LENGTH: Message := "Invalid bulk " + "string length"
  const TOO_DEEP: Message := "Array nesting " + "depth exceeds " + "the supported " + "limit"
  const BAD_ARRAY_LENGTH: Message := "Array length is " + "outside the " + "supported range"
  const UNKNOWN_MARKER: Message := "Invalid frame " + "type marker"
  const INVALID_UTF8: Message := "Invalid UTF-8"

  // The messages that `Error::Other` can carry when `usize` has 64 bits.
  datatype Fault =
    | EmptyDecimal
    | InvalidDecimal
    | IntegerOverflow
    | BareLineFeed
    | BareCarriageReturn
    | BadBulkTerminator
    | BadBulkLength
    | TooDeep
    | BadArrayLength
    | UnknownMarker
    | InvalidUtf8
  {
    function Text(): Message {
      match this
      case EmptyDecimal => EMPTY_DECIMAL
      case InvalidDecimal => INVALID_DECIMAL
      case IntegerOverflow => INTEGER_OVERFLOW
      case BareLineFeed => BARE_LINE_FEED
      case BareCarriageReturn => BARE_CARRIAGE_RETURN
      case BadBulkTerminator => BAD_BULK_TERMINATOR
      case BadBulkLength => BAD_BULK_LENGTH
      case TooDeep => TOO_DEEP
      case BadArrayLength => BAD_ARRAY_LENGTH
      case UnknownMarker => UNKNOWN_MARKER
      case InvalidUtf8 => INVALID_UTF8
    }

    // A fault in the content of a structurally complete frame.
    predicate IsContentFault() {
      InvalidUtf8? || EmptyDecimal? || InvalidDecimal? || IntegerOverflow?
    }
  }

  datatype ParseError = Incomplete | Other(fault: Fault)

  // What a parsing step yields: a value and the position just after it, or an error.
  datatype Parsed<+T> = Ok(value: T, next: nat) | Err(error: ParseError) {
    // More input cannot change a definite outcome.
    predicate Definite() {
      Ok? || error.Other?
    }
  }

  datatype Result<+T> = Success(value: T) | Failure(error: ParseError)

  datatype Option<+T> = None | Some(value: T)
}

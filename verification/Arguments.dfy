/** Reading the arguments of a command one after the other (src/parse.rs). */
module Arguments {
  import opened Bytes
  import opened Frames

  const END_OF_STREAM: Message := "No more command " + "arguments"
  const NOT_AN_ARRAY: Message := "Expected an " + "array frame"
  const NOT_A_STRING: Message := "Expected a bulk " + "or simple " + "string argument"
  const NOT_UTF8: Message := "Argument is " + "not valid UTF-8"
  const EXTRA_ARGUMENT: Message := "Unexpected " + "extra argument"
  const UNSUPPORTED: Message := "Unsupported " + "command; " + "expected GET " + "or SET"

  datatype ArgumentError =
    | EndOfStream
    | NotAnArray
    | NotAString
    | NotUtf8
    | ExtraArgument
    | Unsupported
  {
    function Text(): Message {
      match this
      case EndOfStream => END_OF_STREAM
      case NotAnArray => NOT_AN_ARRAY
      case NotAString => NOT_A_STRING
      case NotUtf8 => NOT_UTF8
      case ExtraArgument => EXTRA_ARGUMENT
      case Unsupported => UNSUPPORTED
    }
  }

  datatype Outcome<+T> = Done(value: T) | Rejected(error: ArgumentError)

  // The `i`-th argument as bytes, and as text.
  function ArgumentAt(parts: seq<Frame>, i: nat): Outcome<Blob> {
    if i >= |parts| then Rejected(EndOfStream)
    else
      match parts[i]
      case Bulk(bytes) => Done(bytes)
      case Simple(text) => Done(text)
      case _ => Rejected(NotAString)
  }

  function TextAt(parts: seq<Frame>, i: nat): Outcome<Text> {
    match ArgumentAt(parts, i)
    case Done(bytes) => if Utf8(bytes) then Done(bytes) else Rejected(NotUtf8)
    case Rejected(error) => Rejected(error)
  }

  function Rest(parts: seq<Frame>): seq<Frame> {
    if parts == [] then [] else parts[1..]
  }

  class Parser {
    // The arguments not consumed yet.
    var parts: seq<Frame>

    constructor (parts: seq<Frame>)
      ensures this.parts == parts
    {
      this.parts := parts;
    }

    // Consumes an argument even when its type is not accepted.
    method NextBytes() returns (r: Outcome<Blob>)
      modifies this
      ensures r == ArgumentAt(old(parts), 0) && parts == Rest(old(parts))
    {
      if parts == [] {
        return Rejected(EndOfStream);
      }
      var frame := parts[0];
      parts := parts[1..];
      match frame
      case Bulk(bytes) => return Done(bytes);
      case Simple(text) => return Done(text);
      case _ => return Rejected(NotAString);
    }

    method NextString() returns (r: Outcome<Text>)
      modifies this
      ensures r == TextAt(old(parts), 0) && parts == Rest(old(parts))
    {
      var bytes := NextBytes();
      if bytes.Rejected? {
        return Rejected(bytes.error);
      }
      if Utf8(bytes.value) {
        return Done(bytes.value);
      }
      return Rejected(NotUtf8);
    }

    method Finish() returns (r: Outcome<()>)
      modifies this
      ensures parts == Rest(old(parts))
      ensures r == if old(parts) == [] then Done(()) else Rejected(ExtraArgument)
    {
      if parts != [] {
        parts := parts[1..];
        return Rejected(ExtraArgument);
      }
      return Done(());
    }
  }

  method FromFrame(frame: Frame) returns (r: Outcome<Parser>)
    ensures frame.Array? ==> r.Done? && fresh(r.value) && r.value.parts == frame.elements
    ensures !frame.Array? ==> r == Rejected(NotAnArray)
  {
    match frame
    case Array(elements) =>
      var parser := new Parser(elements);
      return Done(parser);
    case _ =>
      return Rejected(NotAnArray);
  }
}

/** The parser as it runs: methods that move a shared cursor over the input (src/frame.rs). */
module FrameParser {
  import opened Bytes
  import opened Config
  import opened Decimals
  import opened Frames
  import opened FrameSpec

  // `std::io::Cursor<&[u8]>`. The preconditions of its methods are the places where the Rust
  // methods would panic.
  class Cursor {
    const bytes: Blob
    var position: nat

    ghost predicate Valid()
      reads this
    {
      position <= |bytes|
    }

    constructor (bytes: Blob)
      ensures Valid() && this.bytes == bytes && position == 0
    {
      this.bytes := bytes;
      this.position := 0;
    }

    function Remaining(): (n: nat)
      requires Valid()
      reads this
    {
      |bytes| - position
    }

    method GetU8() returns (b: byte)
      requires Valid() && Remaining() > 0
      modifies this
      ensures Valid() && b == bytes[old(position)] && position == old(position) + 1
    {
      b := bytes[position];
      position := position + 1;
    }

    method Advance(n: nat)
      requires Valid() && n <= Remaining()
      modifies this
      ensures Valid() && position == old(position) + n
    {
      position := position + n;
    }

    method SetPosition(p: nat)
      requires p <= |bytes|
      modifies this
      ensures Valid() && position == p
    {
      position := p;
    }
  }

  // The outcome of a method is the specified one, with the cursor where it should be. The
  // position after an error is unspecified.
  ghost predicate Agrees<T>(spec: Parsed<T>, r: Result<T>, src: Cursor)
    reads src
  {
    && src.Valid()
    && match spec
       case Ok(value, next) => r == Success(value) && src.position == next
       case Err(error) => r == Failure(error)
  }

  method GetLine(src: Cursor) returns (r: Result<Blob>)
    requires src.Valid()
    modifies src
    ensures Agrees(FrameSpec.GetLine(src.bytes, old(src.position)), r, src)
  {
    var start := src.position;
    var line := src.bytes[start..];
    for index := 0 to |line|
      invariant src.position == start
      invariant ScanLine(src.bytes, start) == ScanLine(src.bytes, start + index)
    {
      if line[index] == LF {
        return Failure(Other(BareLineFeed));
      }
      if line[index] != CR {
        continue;
      }
      if index + 1 >= |line| {
        return Failure(Incomplete);
      }
      if line[index + 1] != LF {
        return Failure(Other(BareCarriageReturn));
      }
      var result := src.bytes[start..start + index];
      src.Advance(index + 2);
      return Success(result);
    }
    return Failure(Incomplete);
  }

  method GetDecimal(src: Cursor) returns (r: Result<i64>)
    requires src.Valid()
    modifies src
    ensures Agrees(FrameSpec.GetDecimal(src.bytes, old(src.position)), r, src)
  {
    var got := GetLine(src);
    if got.Failure? {
      return Failure(got.error);
    }
    var line: seq<byte> := got.value;
    ghost var whole := line;
    if line == [] {
      return Failure(Other(EmptyDecimal));
    }
    var sign: int := 1;
    var result: i64 := 0;
    var first := line[0];
    line := line[1..];
    if first == MINUS {
      sign := -1;
    } else if IsDigit(first) {
      result := first - 48;
    } else {
      return Failure(Other(InvalidDecimal));
    }
    if line == [] && sign == -1 {
      return Failure(Other(InvalidDecimal));
    }
    while line != []
      invariant sign == 1 || sign == -1
      invariant DecodeDecimal(whole) == Accumulate(sign, result, line)
      decreases |line|
    {
      if !InI64(result * 10) {
        return Failure(Other(IntegerOverflow));
      }
      result := result * 10;
      var b := line[0];
      if !IsDigit(b) {
        return Failure(Other(InvalidDecimal));
      }
      var digit: int := b - 48;
      assert sign * digit == if sign == 1 then digit else 0 - digit;
      if !InI64(result + sign * digit) {
        return Failure(Other(IntegerOverflow));
      }
      result := result + sign * digit;
      line := line[1..];
    }
    return Success(result);
  }

  // The structural pass. On a 64-bit target every `i64` length fits `usize` and adding two cannot
  // overflow it, so the corresponding errors of the source cannot occur.
  method CheckWithDepth(src: Cursor, depth: nat) returns (r: Result<()>)
    requires src.Valid()
    modifies src
    ensures Agrees(Check(src.bytes, old(src.position), depth), r, src)
    decreases src.Remaining(), 0
  {
    if src.Remaining() == 0 {
      return Failure(Incomplete);
    }
    var first := src.GetU8();
    if first == PLUS || first == MINUS || first == COLON {
      var line := GetLine(src);
      if line.Failure? {
        return Failure(line.error);
      }
      return Success(());
    } else if first == DOLLAR {
      var length := GetDecimal(src);
      if length.Failure? {
        return Failure(length.error);
      }
      r := CheckPayload(src, length.value);
    } else if first == STAR {
      if depth >= MAX_ARRAY_DEPTH {
        return Failure(Other(TooDeep));
      }
      var count := GetDecimal(src);
      if count.Failure? {
        return Failure(count.error);
      }
      if -1 <= count.value <= 0 {
        return Success(());
      } else if 1 <= count.value < ARRAY_LENGTH_LIMIT_EXCLUSIVE {
        r := CheckChildren(src, depth + 1, count.value);
      } else {
        return Failure(Other(BadArrayLength));
      }
    } else {
      return Failure(Other(UnknownMarker));
    }
  }

  method CheckChildren(src: Cursor, depth: nat, count: nat) returns (r: Result<()>)
    requires src.Valid()
    modifies src
    ensures Agrees(CheckAll(src.bytes, old(src.position), depth, count), r, src)
    decreases src.Remaining(), 1
  {
    ghost var start := src.position;
    for i := 0 to count
      invariant src.Valid() && start <= src.position
      invariant CheckAll(src.bytes, start, depth, count)
             == CheckAll(src.bytes, src.position, depth, count - i)
    {
      var child := CheckWithDepth(src, depth);
      if child.Failure? {
        return Failure(child.error);
      }
    }
    return Success(());
  }

  // The part of the structural pass that concerns the payload of a bulk string.
  method CheckPayload(src: Cursor, length: i64) returns (r: Result<()>)
    requires src.Valid()
    modifies src
    ensures Agrees(CheckBulk(src.bytes, old(src.position), length), r, src)
  {
    if length == -1 {
      return Success(());
    } else if length >= 0 {
      if src.Remaining() >= length + 2 {
        src.Advance(length);
        var cr := src.GetU8();
        if cr == CR {
          var lf := src.GetU8();
          if lf == LF {
            return Success(());
          }
        }
        return Failure(Other(BadBulkTerminator));
      }
      return Failure(Incomplete);
    } else {
      return Failure(Other(BadBulkLength));
    }
  }

  // The decoding pass. It may be started only where the structural pass succeeded; then every
  // slice, `GetU8` and `Advance` in it is in bounds and no length is negative.
  method ParseData(src: Cursor, ghost depth: nat) returns (r: Result<Frame>)
    requires src.Valid() && Check(src.bytes, src.position, depth).Ok?
    modifies src
    ensures Agrees(Decode(src.bytes, old(src.position), depth), r, src)
    decreases src.Remaining(), 0
  {
    var first := src.GetU8();
    if first == PLUS || first == MINUS {
      var line := GetLine(src);
      assert line.Success?;  // the structural pass has already read this line
      if !Utf8(line.value) {
        return Failure(Other(InvalidUtf8));
      }
      if first == PLUS {
        return Success(Simple(line.value));
      } else {
        return Success(Error(line.value));
      }
    } else if first == COLON {
      var number := GetDecimal(src);
      if number.Failure? {
        return Failure(number.error);
      }
      return Success(Integer(number.value));
    } else if first == DOLLAR {
      var length := GetDecimal(src);
      assert length.Success?;  // the structural pass has already read this length
      if length.value == -1 {
        return Success(Null);
      }
      var chunk := src.bytes[src.position..];
      var bytes := chunk[..length.value];
      assert bytes == src.bytes[src.position..src.position + length.value];
      src.Advance(length.value + 2);
      return Success(Bulk(bytes));
    } else if first == STAR {
      var count := GetDecimal(src);
      assert count.Success?;  // the structural pass has already read this count
      if count.value == -1 {
        return Success(Null);
      }
      var elements := ParseElements(src, depth + 1, count.value);
      if elements.Failure? {
        return Failure(elements.error);
      }
      return Success(Array(elements.value));
    } else {
      // The structural pass accepts no other marker.
      assert false;
    }
  }

  // What `DecodeAll` yields when the frames `done` come before its own.
  function Prepend(done: seq<Frame>, r: Parsed<seq<Frame>>): Parsed<seq<Frame>> {
    match r
    case Ok(others, next) => Ok(done + others, next)
    case Err(error) => Err(error)
  }

  method ParseElements(src: Cursor, ghost depth: nat, count: nat) returns (r: Result<seq<Frame>>)
    requires src.Valid() && CheckAll(src.bytes, src.position, depth, count).Ok?
    modifies src
    ensures Agrees(DecodeAll(src.bytes, old(src.position), depth, count), r, src)
    decreases src.Remaining(), 1
  {
    ghost var start := src.position;
    var elements: seq<Frame> := [];
    assert forall others: seq<Frame> :: elements + others == others;
    for i := 0 to count
      invariant src.Valid() && start <= src.position
      invariant CheckAll(src.bytes, src.position, depth, count - i).Ok?
      invariant DecodeAll(src.bytes, start, depth, count)
             == Prepend(elements, DecodeAll(src.bytes, src.position, depth, count - i))
    {
      ghost var before := elements;
      var element := ParseData(src, depth);
      if element.Failure? {
        return Failure(element.error);
      }
      elements := elements + [element.value];
      assert forall others: seq<Frame> :: before + ([element.value] + others) == elements + others;
    }
    assert elements + [] == elements;
    return Success(elements);
  }

  method Parse(src: Cursor) returns (r: Result<Frame>)
    requires src.Valid()
    modifies src
    ensures Agrees(FrameSpec.Parse(src.bytes, old(src.position)), r, src)
  {
    var start := src.position;
    var checked := CheckWithDepth(src, 0);
    if checked.Failure? {
      return Failure(checked.error);
    }
    src.SetPosition(start);
    r := ParseData(src, 0);
  }
}

/** Reading and writing frames over one connection (src/connection.rs). */
module Connections {
  import opened Bytes
  import opened Config
  import opened Encoding
  import opened Frames
  import opened FrameSpec
  import opened Sessions
  import opened Sequences
  import opened Decimals
  import FrameParser

  datatype Chunk = Received(bytes: seq<byte>) | Cancelled | Failed(text: Text)

  // A TCP stream with a buffer for what is written to it, seen from one end.
  class Stream {
    // What the peer has yet to deliver before it closes its sending side.
    var unread: seq<byte>
    // What has been given to the writer, and how much of it has been handed to the peer.
    var accepted: seq<byte>
    var written: seq<byte>
    // How many reads and writes were cancelled or failed: these are not the peer's doing.
    ghost var disturbances: nat

    ghost predicate Valid()
      reads this`accepted, this`written
    {
      written <= accepted
    }

    // Delivers any nonempty number of bytes within the limit; none only at the end of the input.
    // The caller may also be cancelled while it waits, or the socket may report an error; then
    // nothing is delivered.
    method ReadBuf(limit: nat) returns (chunk: Chunk)
      requires limit > 0
      modifies this`unread, this`disturbances
      ensures disturbances == old(disturbances) + (if chunk.Received? then 0 else 1)
      ensures chunk.Received? ==>
                && old(unread) == chunk.bytes + unread
                && |chunk.bytes| <= limit
                && (chunk.bytes == [] <==> old(unread) == [])
      ensures !chunk.Received? ==> unread == old(unread)
    {
      var cancelled: bool := *;
      if cancelled {
        disturbances := disturbances + 1;
        return Cancelled;
      }
      var failed: bool := *;
      if failed {
        var text: Text := *;
        disturbances := disturbances + 1;
        return Failed(text);
      }
      if unread == [] {
        return Received([]);
      }
      var n :| 1 <= n <= limit && n <= |unread|;
      chunk := Received(unread[..n]);
      unread := unread[n..];
    }

    // Takes all the bytes, or fails after some of them. Any part of what has been taken may be handed
    // over at once.
    method WriteAll(bytes: seq<byte>) returns (ok: bool)
      requires Valid()
      modifies this`accepted, this`written, this`disturbances
      ensures Valid() && old(written) <= written
      ensures disturbances == old(disturbances) + (if ok then 0 else 1)
      ensures ok ==> accepted == old(accepted) + bytes
      ensures old(accepted) <= accepted <= old(accepted) + bytes
    {
      ok := *;
      var taken :| 0 <= taken <= |bytes| && (ok ==> taken == |bytes|);
      assert bytes == bytes[..taken] + bytes[taken..];
      accepted := accepted + bytes[..taken];
      var handed :| |written| <= handed <= |accepted|;
      written := accepted[..handed];
      if !ok {
        disturbances := disturbances + 1;
      }
    }

    // Hands over all that has been taken, or fails after a part of it.
    method Flush() returns (ok: bool)
      requires Valid()
      modifies this`written, this`disturbances
      ensures Valid() && old(written) <= written
      ensures disturbances == old(disturbances) + (if ok then 0 else 1)
      ensures ok ==> written == accepted
    {
      ok := *;
      var handed :| |written| <= handed <= |accepted| && (ok ==> handed == |accepted|);
      written := accepted[..handed];
      if !ok {
        disturbances := disturbances + 1;
      }
    }
  }

  datatype ReadResult =
    | FrameRead(frame: Frame)
    | EndOfInput
    | ReadFailed(error: ReadError)
    | Interrupted

  // What reading one frame from `pending` must give, with `rest` left unconsumed. A read that is
  // interrupted or fails consumes nothing.
  ghost predicate ReadsNext(pending: seq<byte>, r: ReadResult, rest: seq<byte>) {
    match r
    case FrameRead(frame) =>
      Next(pending).FrameItem? && Next(pending).frame == frame && rest == pending[Next(pending).length..]
    case EndOfInput => Next(pending) == AtEof && rest == pending == []
    case ReadFailed(error) => MayFail(pending, error) && rest == pending
    case Interrupted => rest == pending
  }

  // No byte is lost, invented or moved: what was read before and what is still to come make up
  // the same stream.
  ghost predicate SameStream(read: seq<byte>, pending: seq<byte>, read': seq<byte>, pending': seq<byte>) {
    read' + pending' == read + pending
  }

  class Connection {
    const stream: Stream
    var buffer: seq<byte>
    // The bytes of the frames read so far.
    ghost var consumed: seq<byte>

    ghost predicate Valid()
      reads this
    {
      |buffer| <= MAX_BUFFERED_BYTES
    }

    // The input that no frame has consumed yet: first what is buffered, then what is to come.
    ghost function Pending(): seq<byte>
      reads this, stream`unread
    {
      buffer + stream.unread
    }

    constructor (stream: Stream)
      ensures Valid() && this.stream == stream && buffer == [] && consumed == []
    {
      this.stream := stream;
      this.buffer := [];
      this.consumed := [];
    }

    // Reads the next frame. The outcome depends only on the bytes still to be consumed: not on
    // how many of them were buffered before, nor on how they are cut into reads.
    method ReadFrame() returns (r: ReadResult, ghost arrivals: nat)
      requires Valid()
      modifies this`buffer, this`consumed, stream`unread, stream`disturbances
      ensures Valid()
      ensures stream.disturbances == old(stream.disturbances) + (if Undecided(r) then 1 else 0)
      ensures !Undecided(r) ==> r == NextResult(old(Pending()))
      ensures ReadsNext(old(Pending()), r, Pending())
      ensures SameStream(old(consumed), old(Pending()), consumed, Pending())
      ensures arrivals <= MAX_BUFFERED_BYTES - old(|buffer|)
    {
      hide ReadsNext, NextResult, SameStream, FrameSpec.Parse;
      ghost var pending := Pending();
      arrivals := 0;
      while true
        invariant Valid() && Pending() == pending && consumed == old(consumed)
        invariant stream.disturbances == old(stream.disturbances)
        invariant arrivals <= |buffer| - old(|buffer|)
        decreases |stream.unread|
      {
        BufferSettles(buffer, stream.unread, consumed);
        ghost var buffered := buffer;
        var parsed := ParseFrame();
        if parsed.Success? && parsed.value.Some? {
          consumed := consumed + buffered[..|buffered| - |buffer|];
          return FrameRead(parsed.value.value), arrivals;
        }
        if parsed.Failure? {
          return ReadFailed(Malformed(parsed.error.fault)), arrivals;
        }
        if |buffer| >= MAX_BUFFERED_BYTES {
          return ReadFailed(OverLimit), arrivals;
        }
        var bytesLeft := MAX_BUFFERED_BYTES - |buffer|;
        var chunk := stream.ReadBuf(bytesLeft);
        if chunk.Cancelled? {
          return Interrupted, arrivals;
        }
        if chunk.Failed? {
          return ReadFailed(Socket(chunk.text)), arrivals;
        }
        if chunk.bytes == [] {
          if buffer == [] {
            return EndOfInput, arrivals;
          }
          return ReadFailed(Truncated), arrivals;
        }
        buffer := buffer + chunk.bytes;
        arrivals := arrivals + 1;
      }
    }

    // One attempt on the buffered bytes alone.
    method ParseFrame() returns (r: Result<Option<Frame>>)
      requires Valid()
      modifies this`buffer
      ensures Valid()
      ensures match FrameSpec.Parse(old(buffer), 0)
              case Ok(frame, length) => r == Success(Some(frame)) && buffer == old(buffer)[length..]
              case Err(Incomplete) => r == Success(None) && buffer == old(buffer)
              case Err(error) => r == Failure(error) && buffer == old(buffer)
    {
      var cursor := new FrameParser.Cursor(buffer);
      var parsed := FrameParser.Parse(cursor);
      match parsed
      case Success(frame) =>
        buffer := buffer[cursor.position..];
        return Success(Some(frame));
      case Failure(Incomplete) =>
        return Success(None);
      case Failure(error) =>
        return Failure(error);
    }

    // Writes one frame and hands it over. A failed write leaves some of the frame's bytes behind, in
    // order, and nothing else.
    method WriteFrame(frame: Frame) returns (ok: bool)
      requires stream.Valid()
      modifies stream`accepted, stream`written, stream`disturbances
      ensures stream.Valid() && old(stream.written) <= stream.written
      ensures stream.disturbances == old(stream.disturbances) <==> ok
      ensures stream.disturbances >= old(stream.disturbances)
      ensures ok ==> stream.accepted == old(stream.accepted) + Encode(frame) == stream.written
      ensures old(stream.accepted) <= stream.accepted <= old(stream.accepted) + Encode(frame)
    {
      ok := WriteData(frame);
      if ok {
        ok := stream.Flush();
      }
    }

    method WriteData(frame: Frame) returns (ok: bool)
      requires stream.Valid()
      modifies stream`accepted, stream`written, stream`disturbances
      ensures stream.Valid() && old(stream.written) <= stream.written
      ensures stream.disturbances == old(stream.disturbances) <==> ok
      ensures stream.disturbances >= old(stream.disturbances)
      ensures ok ==> stream.accepted == old(stream.accepted) + Encode(frame)
      ensures old(stream.accepted) <= stream.accepted <= old(stream.accepted) + Encode(frame)
      decreases frame, 1
    {
      match frame
      case Simple(text) =>
        ok := WriteLine(PLUS, text);
      case Error(text) =>
        ok := WriteLine(MINUS, text);
      case Integer(value) =>
        ok := WriteLine(COLON, IntegerText(value));
      case Bulk(bytes) =>
        ok := WriteBulk(bytes);
      case Array(elements) =>
        ok := WriteArray(elements);
      case Null =>
        ok := stream.WriteAll([DOLLAR] + IntegerText(-1) + CRLF);
    }

    method WriteBulk(bytes: Blob) returns (ok: bool)
      requires stream.Valid()
      modifies stream`accepted, stream`written, stream`disturbances
      ensures stream.Valid() && old(stream.written) <= stream.written
      ensures stream.disturbances == old(stream.disturbances) <==> ok
      ensures stream.disturbances >= old(stream.disturbances)
      ensures ok ==> stream.accepted == old(stream.accepted) + Encode(Bulk(bytes))
      ensures old(stream.accepted) <= stream.accepted <= old(stream.accepted) + Encode(Bulk(bytes))
    {
      ghost var before := stream.accepted;
      ghost var head := [DOLLAR] + IntegerText(|bytes|) + CRLF;
      assert Encode(Bulk(bytes)) == head + bytes + CRLF;
      assert before + (head + bytes + CRLF) == before + head + bytes + CRLF;
      ok := WriteLine(DOLLAR, IntegerText(|bytes|));
      PrefixMore(stream.accepted, before + head, bytes);
      PrefixMore(stream.accepted, before + head + bytes, CRLF);
      if ok {
        ok := stream.WriteAll(bytes);
        PrefixMore(stream.accepted, before + head + bytes, CRLF);
        if ok {
          ok := stream.WriteAll(CRLF);
        }
      }
    }

    method WriteArray(elements: seq<Frame>) returns (ok: bool)
      requires stream.Valid()
      modifies stream`accepted, stream`written, stream`disturbances
      ensures stream.Valid() && old(stream.written) <= stream.written
      ensures stream.disturbances == old(stream.disturbances) <==> ok
      ensures stream.disturbances >= old(stream.disturbances)
      ensures ok ==> stream.accepted == old(stream.accepted) + Encode(Array(elements))
      ensures old(stream.accepted) <= stream.accepted <= old(stream.accepted) + Encode(Array(elements))
      decreases elements, 2
    {
      ghost var before := stream.accepted;
      ghost var head := [STAR] + IntegerText(|elements|) + CRLF;
      assert Encode(Array(elements)) == head + EncodeAll(elements);
      Associate(before, head, EncodeAll(elements));
      ok := WriteLine(STAR, IntegerText(|elements|));
      PrefixMore(stream.accepted, before + head, EncodeAll(elements));
      if ok {
        ok := WriteElements(elements);
      }
    }

    // A marker, a payload without its own terminator, and CRLF.
    method WriteLine(marker: byte, payload: seq<byte>) returns (ok: bool)
      requires stream.Valid()
      modifies stream`accepted, stream`written, stream`disturbances
      ensures stream.Valid() && old(stream.written) <= stream.written
      ensures stream.disturbances == old(stream.disturbances) <==> ok
      ensures stream.disturbances >= old(stream.disturbances)
      ensures ok ==> stream.accepted == old(stream.accepted) + ([marker] + payload + CRLF)
      ensures old(stream.accepted) <= stream.accepted <= old(stream.accepted) + ([marker] + payload + CRLF)
    {
      ok := stream.WriteAll([marker]);
      if ok {
        ok := stream.WriteAll(payload);
        if ok {
          ok := stream.WriteAll(CRLF);
        }
      }
    }

    method WriteElements(elements: seq<Frame>) returns (ok: bool)
      requires stream.Valid()
      modifies stream`accepted, stream`written, stream`disturbances
      ensures stream.Valid() && old(stream.written) <= stream.written
      ensures stream.disturbances == old(stream.disturbances) <==> ok
      ensures stream.disturbances >= old(stream.disturbances)
      ensures ok ==> stream.accepted == old(stream.accepted) + EncodeAll(elements)
      ensures old(stream.accepted) <= stream.accepted <= old(stream.accepted) + EncodeAll(elements)
      decreases elements, 0
    {
      hide Encode, EncodeAll;
      ghost var before := stream.accepted;
      EncodeAllNone();
      for i := 0 to |elements|
        invariant stream.Valid() && old(stream.written) <= stream.written
        invariant stream.accepted == before + EncodeAll(elements[..i])
        invariant stream.disturbances == old(stream.disturbances)
      {
        EncodeAllSplit(elements, i);
        Associate(before, EncodeAll(elements[..i]), Encode(elements[i]));
        ok := WriteData(elements[i]);
        if !ok {
          PrefixMore(stream.accepted, before + EncodeAll(elements[..i + 1]), EncodeAll(elements[i + 1..]));
          Associate(before, EncodeAll(elements[..i + 1]), EncodeAll(elements[i + 1..]));
          return;
        }
      }
      assert elements[..|elements|] == elements;
      ok := true;
    }
  }

  // What is buffered settles the outcome, whatever is still to come, unless it is an incomplete
  // frame; and then only the limit or the end of the input does. Nothing is lost either way.
  lemma BufferSettles(buffer: seq<byte>, unread: seq<byte>, read: seq<byte>)
    requires |buffer| <= MAX_BUFFERED_BYTES
    ensures var pending := buffer + unread;
      && ReadsNext(pending, Interrupted, pending)
      && (forall text: Text :: ReadsNext(pending, ReadFailed(Socket(text)), pending))
      && SameStream(read, pending, read, pending)
      && match FrameSpec.Parse(buffer, 0)
         case Ok(frame, length) =>
           && length <= |buffer|
           && NextResult(pending) == FrameRead(frame)
           && ReadsNext(pending, FrameRead(frame), buffer[length..] + unread)
           && SameStream(read, pending, read + buffer[..length], buffer[length..] + unread)
         case Err(Incomplete) =>
           && (|buffer| == MAX_BUFFERED_BYTES ==>
                 && NextResult(pending) == ReadFailed(OverLimit)
                 && ReadsNext(pending, ReadFailed(OverLimit), pending))
           && (unread == [] && |buffer| < MAX_BUFFERED_BYTES ==>
                 && NextResult(pending) == (if buffer == [] then EndOfInput else ReadFailed(Truncated))
                 && ReadsNext(pending, NextResult(pending), pending))
         case Err(error) =>
           && NextResult(pending) == ReadFailed(Malformed(error.fault))
           && ReadsNext(pending, ReadFailed(Malformed(error.fault)), pending)
  {
    var window := Window(buffer + unread);
    assert Extends(window, buffer);
    if FrameSpec.Parse(buffer, 0).Definite() {
      ParseStable(buffer, window, 0);
    } else {
      assert |buffer| == MAX_BUFFERED_BYTES || unread == [] ==> window == buffer;
    }
    if FrameSpec.Parse(buffer, 0).Ok? {
      var length := FrameSpec.Parse(buffer, 0).next;
      assert buffer == buffer[..length] + buffer[length..];
    }
  }

  // --- A series of reads ---

  function NextResult(pending: seq<byte>): ReadResult {
    match Next(pending)
    case FrameItem(frame, _) => FrameRead(frame)
    case AtEof => EndOfInput
    case Broken(error) => ReadFailed(error)
  }

  function Remaining(pending: seq<byte>): seq<byte> {
    if Next(pending).FrameItem? then pending[Next(pending).length..] else pending
  }

  // What `n` reads in a row give when nothing disturbs them.
  function NextResults(pending: seq<byte>, n: nat): seq<ReadResult> {
    if n == 0 then [] else [NextResult(pending)] + NextResults(Remaining(pending), n - 1)
  }

  // The read ended before the input decided its outcome.
  predicate Undecided(r: ReadResult) {
    r.Interrupted? || (r.ReadFailed? && r.error.Socket?)
  }

  function Completed(results: seq<ReadResult>): seq<ReadResult> {
    if results == [] then []
    else (if Undecided(results[0]) then [] else [results[0]]) + Completed(results[1..])
  }

  // Reads in a row, each with its own chunks, possibly abandoned or failed: `pending[k]` is still to be
  // consumed before read `k`.
  ghost predicate ReadInTurn(pending: seq<seq<byte>>, results: seq<ReadResult>) {
    && |pending| == |results| + 1
    && forall k :: 0 <= k < |results| ==> ReadsNext(pending[k], results[k], pending[k + 1])
  }

  // The reads that the socket or the caller does not end give what undisturbed reads would give,
  // whatever chunks the bytes come in: the results are a function of the stream.
  lemma {:induction false} ReadsAreDetermined(pending: seq<seq<byte>>, results: seq<ReadResult>)
    requires ReadInTurn(pending, results)
    ensures Completed(results) == NextResults(pending[0], |Completed(results)|)
    decreases |results|
  {
    hide Next;
    if results != [] {
      assert ReadsNext(pending[0], results[0], pending[1]);
      ReadsAreDetermined(pending[1..], results[1..]);
    }
  }
}

/** What one byte stream means to a reader of frames, whatever way its bytes arrive. */
module Sessions {
  import opened Bytes
  import opened Config
  import opened Frames
  import opened FrameSpec

  const OVER_LIMIT: Message := "Frame cannot " + "fit within the " + "buffer limit"
  const TRUNCATED: Message := "Connection " + "reached EOF with " + "an incomplete " + "frame"

  // Why a read fails: for what the input is, or because the socket reports an error of its own.
  datatype ReadError = Malformed(fault: Fault) | OverLimit | Truncated | Socket(text: Text) {
    function Description(): Text {
      match this
      case Malformed(fault) => Ascii(fault.Text())
      case OverLimit => Ascii(OVER_LIMIT)
      case Truncated => Ascii(TRUNCATED)
      case Socket(text) => text
    }
  }

  // What the bytes still to come begin with: a frame of `length` bytes, nothing at all, or
  // something no frame can be read from.
  datatype Item = FrameItem(frame: Frame, length: nat) | AtEof | Broken(error: ReadError)

  // The bytes that may be buffered while one frame is read.
  function Window(pending: seq<byte>): (w: Blob)
    ensures |w| <= MAX_BUFFERED_BYTES
  {
    if |pending| <= MAX_BUFFERED_BYTES then pending else pending[..MAX_BUFFERED_BYTES]
  }

  function Next(pending: seq<byte>): (item: Item)
    ensures item.FrameItem? ==> 3 <= item.length <= |pending| && item.length <= MAX_BUFFERED_BYTES
    ensures item.Broken? ==> !item.error.Socket?
  {
    match Parse(Window(pending), 0)
    case Ok(frame, length) => FrameItem(frame, length)
    case Err(Other(fault)) => Broken(Malformed(fault))
    case Err(Incomplete) =>
      if |pending| >= MAX_BUFFERED_BYTES then Broken(OverLimit)
      else if pending == [] then AtEof
      else Broken(Truncated)
  }

  // A reader of this input may fail with this error.
  ghost predicate MayFail(pending: seq<byte>, error: ReadError) {
    error.Socket? || Next(pending) == Broken(error)
  }

  // All frames of a stream, up to its end or to the first thing that is not a frame.
  function FramesOf(pending: seq<byte>): seq<Frame>
    decreases |pending|
  {
    var item := Next(pending);
    if item.FrameItem? then [item.frame] + FramesOf(pending[item.length..]) else []
  }

  // What is left of a stream after its first `k` frames.
  function After(pending: seq<byte>, k: nat): (rest: seq<byte>)
    requires k <= |FramesOf(pending)|
    decreases k
  {
    if k == 0 then pending else After(pending[Next(pending).length..], k - 1)
  }

  lemma {:induction false} AfterStep(pending: seq<byte>, k: nat)
    requires k <= |FramesOf(pending)|
    ensures k < |FramesOf(pending)| <==> Next(After(pending, k)).FrameItem?
    ensures k < |FramesOf(pending)| ==>
              && Next(After(pending, k)).frame == FramesOf(pending)[k]
              && After(pending, k + 1) == After(pending, k)[Next(After(pending, k)).length..]
    decreases k
  {
    if k > 0 {
      AfterStep(pending[Next(pending).length..], k - 1);
    }
  }
}

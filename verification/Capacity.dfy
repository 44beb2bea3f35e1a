/** Reading back what was written: which frames fit the reader's buffer, and which values can be
    stored and fetched. */
module Capacity {
  import opened Arguments
  import opened Bytes
  import opened Commands
  import opened Completion
  import opened Config
  import opened Decimals
  import opened Encoding
  import opened Frames
  import opened FrameSpec
  import opened Histories
  import opened Sessions

  // A frame at the front of the input is read back as itself if and only if it is sendable and
  // its encoding fits the buffer.
  lemma EncodedFrameReads(f: Frame, rest: seq<byte>)
    ensures Next(Encode(f) + rest) == FrameItem(f, |Encode(f)|)
       <==> Sendable(f, 0) && |Encode(f)| <= MAX_BUFFERED_BYTES
  {
    var window := Window(Encode(f) + rest);
    if |Encode(f)| <= MAX_BUFFERED_BYTES {
      assert window[..|Encode(f)|] == Encode(f);
      RoundTripExact(window, 0, f);
    }
  }

  // A sendable frame that is too long for the buffer is reported as such, whatever follows it.
  lemma {:induction false} OverlongFrameIsRefused(f: Frame, rest: seq<byte>)
    requires Sendable(f, 0) && |Encode(f)| > MAX_BUFFERED_BYTES
    ensures Next(Encode(f) + rest) == Broken(OverLimit)
  {
    hide Encode, Sendable, Check;
    var window := Window(Encode(f) + rest);
    assert window == Encode(f)[..MAX_BUFFERED_BYTES];
    CutIsIncomplete(window, 0, 0, f);
  }

  // A frame that fits the buffer but whose encoding ends too early leaves an incomplete rest.
  lemma {:induction false} CutFrameIsTruncated(f: Frame, count: nat)
    requires Sendable(f, 0) && count < |Encode(f)| <= MAX_BUFFERED_BYTES
    ensures Next(Encode(f)[..count]) == if count == 0 then AtEof else Broken(Truncated)
  {
    hide Encode, Sendable, Check;
    var pending := Encode(f)[..count];
    assert Window(pending) == pending;
    CutIsIncomplete(pending, 0, 0, f);
  }

  // A reader that has buffered an incomplete frame can still read one, if the right bytes come, if
  // and only if the buffer holds the beginning of a frame and has room for what that frame lacks.
  lemma {:induction false} StillReadable(buffer: Blob)
    requires |buffer| <= MAX_BUFFERED_BYTES && FrameSpec.Parse(buffer, 0) == Err(Incomplete)
    ensures (exists rest :: Next(buffer + rest).FrameItem?)
       <==> Viable(buffer) && |buffer| + Lack(buffer, 0, 0).value <= MAX_BUFFERED_BYTES
  {
    hide Lack, Viable, FrameSpec.Parse;
    CompletableExactly(buffer, MAX_BUFFERED_BYTES);
    if rest :| Next(buffer + rest).FrameItem? {
      assert Extends(Window(buffer + rest), buffer);
    }
    if t: Blob :| Extends(t, buffer) && |t| <= MAX_BUFFERED_BYTES && FrameSpec.Parse(t, 0).Ok? {
      assert buffer + t[|buffer|..] == t;
      assert Next(buffer + t[|buffer|..]).FrameItem?;
    }
  }

  function Pow10(k: nat): nat {
    if k == 0 then 1 else 10 * Pow10(k - 1)
  }

  lemma {:induction false} DigitsTextLength(n: nat, k: nat)
    requires 1 <= k && n < Pow10(k)
    ensures |DigitsText(n)| <= k
  {
    if n >= 10 {
      DigitsTextLength(n / 10, k - 1);
    }
  }

  // --- Stored values ---

  lemma StringLength(f: Frame, bytes: seq<byte>)
    requires Carries(f, bytes)
    ensures |Encode(f)| >= |bytes| + 3
  {
  }

  lemma SetFrameLength(frame: Frame, key: Text, value: Blob)
    requires Interpret(frame) == Done(Set(key, value))
    ensures |Encode(frame)| >= |value| + 16
  {
    InterpretExact(frame, Set(key, value));
    var fs := frame.elements;
    var name := if fs[0].Simple? then fs[0].text else fs[0].bytes;
    assert |name| == |SET_NAME| == 3;
    StringLength(fs[0], name);
    StringLength(fs[1], key);
    StringLength(fs[2], value);
    EncodeThree(fs[0], fs[1], fs[2]);
    assert fs == [fs[0], fs[1], fs[2]];
  }

  // Whatever a client sends, the value it stores is at most `MAX_STORED_BYTES` long.
  lemma StoredValueIsSmall(pending: seq<byte>, key: Text, value: Blob)
    requires Next(pending).FrameItem? && Interpret(Next(pending).frame) == Done(Set(key, value))
    ensures |value| <= MAX_STORED_BYTES
  {
    Normalisation(Window(pending), 0);
    SetFrameLength(Next(pending).frame, key, value);
  }

  // The bound is tight: some request stores a value of that length.
  lemma LargestValueIsAccepted(value: Text, rest: seq<byte>) returns (frame: Frame)
    requires |value| == MAX_STORED_BYTES && OneLine(value)
    ensures Next(Encode(frame) + rest) == FrameItem(frame, MAX_BUFFERED_BYTES)
    ensures Interpret(frame) == Done(Set([], value))
  {
    var fs := [Simple(SET_NAME), Simple([]), Simple(value)];
    frame := Array(fs);
    InterpretExact(frame, Set([], value));
    EncodeThree(fs[0], fs[1], fs[2]);
    assert |EncodeAll(fs)| == 6 + 3 + (MAX_STORED_BYTES + 3);
    assert |IntegerText(3)| == 1;
    assert |Encode(frame)| == MAX_BUFFERED_BYTES;
    SendableOneByOne(fs, 1);
    EncodedFrameReads(frame, rest);
  }

  // Every stored value can be fetched: its reply fits the reader's buffer.
  lemma StoredValueIsRetrievable(value: Blob, rest: seq<byte>)
    requires |value| <= MAX_STORED_BYTES
    ensures Next(Encode(Bulk(value)) + rest) == FrameItem(Bulk(value), |Encode(Bulk(value))|)
  {
    assert Pow10(5) == 100000 by {
      assert Pow10(2) == 100;
      assert Pow10(4) == 10000;
    }
    DigitsTextLength(|value|, 5);
    EncodedFrameReads(Bulk(value), rest);
  }
}

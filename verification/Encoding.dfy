/** The printer's output (src/connection.rs, `write_data`), round trips and resource bounds. */
module Encoding {
  import opened Bytes
  import opened Config
  import opened Decimals
  import opened Frames
  import opened FrameSpec
  import opened Grammar
  import opened Sequences

  function Encode(f: Frame): (w: seq<byte>)
    ensures |w| >= 3
    decreases f, 1
  {
    match f
    case Simple(text) => [PLUS] + text + CRLF
    case Error(text) => [MINUS] + text + CRLF
    case Integer(value) => [COLON] + IntegerText(value) + CRLF
    case Bulk(bytes) => [DOLLAR] + IntegerText(|bytes|) + CRLF + bytes + CRLF
    case Array(elements) => [STAR] + IntegerText(|elements|) + CRLF + EncodeAll(elements)
    case Null => [DOLLAR] + IntegerText(-1) + CRLF
  }

  function EncodeAll(fs: seq<Frame>): seq<byte>
    decreases fs, 0
  {
    if fs == [] then [] else Encode(fs[0]) + EncodeAll(fs[1..])
  }

  lemma {:induction false} EncodeAllAppend(a: seq<Frame>, b: seq<Frame>)
    ensures EncodeAll(a + b) == EncodeAll(a) + EncodeAll(b)
    decreases |a|
  {
    hide Encode;
    if a == [] {
      assert a + b == b;
    } else {
      assert (a + b)[1..] == a[1..] + b;
      EncodeAllAppend(a[1..], b);
    }
  }

  lemma EncodeAllNone()
    ensures EncodeAll([]) == []
  {
  }

  lemma EncodeOne(f: Frame)
    ensures EncodeAll([f]) == Encode(f)
  {
    assert [f][1..] == [];
  }

  lemma {:induction false} EncodeAllSnoc(fs: seq<Frame>, f: Frame)
    ensures EncodeAll(fs + [f]) == EncodeAll(fs) + Encode(f)
  {
    hide Encode, EncodeAll;
    EncodeAllAppend(fs, [f]);
    EncodeOne(f);
  }

  lemma {:induction false} EncodeAllSplit(fs: seq<Frame>, i: nat)
    requires i < |fs|
    ensures EncodeAll(fs[..i + 1]) == EncodeAll(fs[..i]) + Encode(fs[i])
    ensures EncodeAll(fs) == EncodeAll(fs[..i + 1]) + EncodeAll(fs[i + 1..])
  {
    hide Encode, EncodeAll;
    EncodeAllSnoc(fs[..i], fs[i]);
    TakeSnoc(fs, i);
    EncodeAllAppend(fs[..i + 1], fs[i + 1..]);
    TakeDrop(fs, i + 1);
  }

  lemma {:induction false} EncodeThree(a: Frame, b: Frame, c: Frame)
    ensures EncodeAll([a, b, c]) == Encode(a) + (Encode(b) + Encode(c))
  {
    hide Encode;
    EncodeOne(c);
    assert [a, b, c][1..] == [b, c] && [b, c][1..] == [c];
  }

  // What a peer can read back inside `depth` enclosing arrays: simple strings and errors without
  // line breaks, arrays within the nesting and length limits.
  predicate Sendable(f: Frame, depth: nat)
    decreases f, 1
  {
    match f
    case Simple(text) => OneLine(text)
    case Error(text) => OneLine(text)
    case Array(elements) =>
      && depth < MAX_ARRAY_DEPTH
      && |elements| < ARRAY_LENGTH_LIMIT_EXCLUSIVE
      && SendableAll(elements, depth + 1)
    case _ => true
  }

  predicate SendableAll(fs: seq<Frame>, depth: nat)
    decreases fs, 0
  {
    fs == [] || (Sendable(fs[0], depth) && SendableAll(fs[1..], depth))
  }

  lemma {:induction false} SendableOneByOne(fs: seq<Frame>, depth: nat)
    requires forall k :: 0 <= k < |fs| ==> Sendable(fs[k], depth)
    ensures SendableAll(fs, depth)
  {
    if fs != [] {
      SendableOneByOne(fs[1..], depth);
    }
  }

  // The word `w` stands at position `p` of `s`.
  predicate At(s: seq<byte>, p: nat, w: seq<byte>) {
    p + |w| <= |s| && s[p..p + |w|] == w
  }

  lemma AtSplit(s: seq<byte>, p: nat, a: seq<byte>, b: seq<byte>)
    requires At(s, p, a + b)
    ensures At(s, p, a) && At(s, p + |a|, b)
  {
    var w := s[p..p + |a + b|];
    assert s[p..p + |a|] == w[..|a|] == a;
    assert s[p + |a|..p + |a| + |b|] == w[|a|..] == b;
  }

  // --- Round trip ---

  lemma LineIsWire(s: seq<byte>, p: nat, line: seq<byte>)
    requires At(s, p, line + CRLF) && OneLine(line)
    ensures LineAt(s, p, p + |line|) && s[p..p + |line|] == line
  {
    AtSplit(s, p, line, CRLF);
    var w := s[p + |line|..p + |line| + 2];
    assert s[p + |line|] == w[0] && s[p + |line| + 1] == w[1];
  }

  lemma PrintedFieldIsWire(s: Blob, p: nat, v: i64)
    requires At(s, p, IntegerText(v) + CRLF)
    ensures Field(s, p, p + |IntegerText(v)| + 2, v)
  {
    LineIsWire(s, p, IntegerText(v));
    PrintedIntegerDecodes(v);
    DecodeDecimalExact(IntegerText(v), v);
  }

  lemma {:induction false} EncodeIsWire(s: Blob, p: nat, depth: nat, f: Frame)
    requires At(s, p, Encode(f)) && Sendable(f, depth)
    ensures Wire(s, p, p + |Encode(f)|, depth, f)
    decreases f, 1
  {
    hide Wire, WireAll, Encode, EncodeAll, At;
    match f
    case Simple(_) => EncodedLine(s, p, depth, f);
    case Error(_) => EncodedLine(s, p, depth, f);
    case Integer(_) => EncodedNumber(s, p, depth, f);
    case Null => EncodedNumber(s, p, depth, f);
    case Bulk(bytes) => EncodedBulk(s, p, depth, bytes);
    case Array(elements) =>
      var next := EncodedHeader(s, p, elements);
      EncodeAllIsWire(s, next, depth + 1, elements);
      EncodedArray(s, p, next, depth, elements);
  }

  lemma MarkedLine(s: Blob, p: nat, marker: byte, line: seq<byte>)
    requires At(s, p, [marker] + line + CRLF) && OneLine(line)
    ensures s[p] == marker && LineAt(s, p + 1, p + 1 + |line|) && s[p + 1..p + 1 + |line|] == line
  {
    assert [marker] + line + CRLF == [marker] + (line + CRLF);
    AtSplit(s, p, [marker], line + CRLF);
    assert s[p] == s[p..p + 1][0];
    LineIsWire(s, p + 1, line);
  }

  lemma MarkedField(s: Blob, p: nat, marker: byte, v: i64, rest: seq<byte>)
    requires At(s, p, [marker] + IntegerText(v) + CRLF + rest)
    ensures s[p] == marker && Field(s, p + 1, p + |IntegerText(v)| + 3, v)
    ensures At(s, p + |IntegerText(v)| + 3, rest)
  {
    AtSplit(s, p, [marker] + IntegerText(v) + CRLF, rest);
    MarkedLine(s, p, marker, IntegerText(v));
    assert [marker] + IntegerText(v) + CRLF == [marker] + (IntegerText(v) + CRLF);
    AtSplit(s, p, [marker], IntegerText(v) + CRLF);
    PrintedFieldIsWire(s, p + 1, v);
  }

  lemma EncodedLine(s: Blob, p: nat, depth: nat, f: Frame)
    requires f.Simple? || f.Error?
    requires At(s, p, Encode(f)) && Sendable(f, depth)
    ensures Wire(s, p, p + |Encode(f)|, depth, f)
  {
    MarkedLine(s, p, if f.Simple? then PLUS else MINUS, f.text);
  }

  lemma EncodedNumber(s: Blob, p: nat, depth: nat, f: Frame)
    requires f.Integer? || f.Null?
    requires At(s, p, Encode(f))
    ensures Wire(s, p, p + |Encode(f)|, depth, f)
  {
    var v := if f.Integer? then f.value else -1;
    assert Encode(f) == Encode(f) + [];
    MarkedField(s, p, if f.Integer? then COLON else DOLLAR, v, []);
  }

  lemma EncodedBulk(s: Blob, p: nat, depth: nat, bytes: Blob)
    requires At(s, p, Encode(Bulk(bytes)))
    ensures Wire(s, p, p + |Encode(Bulk(bytes))|, depth, Bulk(bytes))
  {
    var head := [DOLLAR] + IntegerText(|bytes|) + CRLF;
    assert Encode(Bulk(bytes)) == head + (bytes + CRLF);
    MarkedField(s, p, DOLLAR, |bytes|, bytes + CRLF);
  }

  lemma EncodedHeader(s: Blob, p: nat, fs: seq<Frame>) returns (next: nat)
    requires At(s, p, Encode(Array(fs))) && |fs| < ARRAY_LENGTH_LIMIT_EXCLUSIVE
    ensures s[p] == STAR && Field(s, p + 1, next, |fs|) && At(s, next, EncodeAll(fs))
    ensures next + |EncodeAll(fs)| == p + |Encode(Array(fs))| && next >= p + 3
  {
    next := p + |IntegerText(|fs|)| + 3;
    MarkedField(s, p, STAR, |fs|, EncodeAll(fs));
  }

  lemma EncodedArray(s: Blob, p: nat, next: nat, depth: nat, fs: seq<Frame>)
    requires At(s, p, Encode(Array(fs))) && Sendable(Array(fs), depth)
    requires s[p] == STAR && Field(s, p + 1, next, |fs|) && next >= p + 3
    requires WireAll(s, next, p + |Encode(Array(fs))|, depth + 1, fs)
    ensures Wire(s, p, p + |Encode(Array(fs))|, depth, Array(fs))
  {
    assert WireElements(s, p, next, p + |Encode(Array(fs))|, depth, fs);
  }

  lemma {:induction false} EncodeAllIsWire(s: Blob, p: nat, depth: nat, fs: seq<Frame>)
    requires At(s, p, EncodeAll(fs)) && SendableAll(fs, depth)
    ensures WireAll(s, p, p + |EncodeAll(fs)|, depth, fs)
    decreases fs, 0
  {
    hide Encode, Wire;
    if fs != [] {
      AtSplit(s, p, Encode(fs[0]), EncodeAll(fs[1..]));
      EncodeIsWire(s, p, depth, fs[0]);
      EncodeAllIsWire(s, p + |Encode(fs[0])|, depth, fs[1..]);
    }
  }

  // --- Encodings cut short ---

  // The input from `p` on is a strict prefix of `w`.
  predicate Cut(s: seq<byte>, p: nat, w: seq<byte>) {
    p <= |s| && |s| - p < |w| && s[p..] == w[..|s| - p]
  }

  // The cut is in the first part or in the second.
  lemma CutSplit(s: seq<byte>, p: nat, a: seq<byte>, b: seq<byte>)
    requires Cut(s, p, a + b)
    ensures Cut(s, p, a) || (At(s, p, a) && Cut(s, p + |a|, b))
  {
    var n := |s| - p;
    if n < |a| {
      assert (a + b)[..n] == a[..n];
    } else {
      assert s[p..p + |a|] == s[p..][..|a|] == (a + b)[..n][..|a|] == a;
      assert s[p + |a|..] == s[p..][|a|..] == (a + b)[..n][|a|..] == b[..n - |a|];
    }
  }

  lemma CutLine(s: seq<byte>, p: nat, line: seq<byte>)
    requires Cut(s, p, line + CRLF) && OneLine(line)
    ensures ScanLine(s, p) == Err(Incomplete)
  {
    var n := |s| - p;
    if n <= |line| {
      assert s[p..|s|] == s[p..] == (line + CRLF)[..n] == line[..n];
      ScanLineExact(s, p, |s|);
    } else {
      assert s[p..|s| - 1] == s[p..][..n - 1] == line;
      assert s[|s| - 1] == s[p..][n - 1] == CR;
      ScanLineExact(s, p, |s| - 1);
    }
  }

  // A cut in a frame that begins with a marker and a line: nothing has arrived, or the line is cut,
  // or it is there and the rest is cut.
  lemma {:induction false} CutHeader(s: Blob, p: nat, marker: byte, line: seq<byte>, rest: seq<byte>)
    requires Cut(s, p, [marker] + line + CRLF + rest) && OneLine(line)
    ensures p == |s| || s[p] == marker
    ensures p == |s| || GetLine(s, p + 1) == Err(Incomplete)
            || (At(s, p, [marker] + line + CRLF) && Cut(s, p + |line| + 3, rest))
  {
    hide ScanLine;
    if p < |s| {
      CutSplit(s, p, [marker] + line + CRLF, rest);
      assert s[p] == s[p..][0] == marker;
      if Cut(s, p, [marker] + line + CRLF) {
        assert [marker] + line + CRLF == [marker] + (line + CRLF);
        CutSplit(s, p, [marker], line + CRLF);
        CutLine(s, p + 1, line);
      }
    }
  }

  lemma {:induction false} CutLineFrame(s: Blob, p: nat, depth: nat, f: Frame)
    requires !f.Bulk? && !f.Array? && Cut(s, p, Encode(f)) && Sendable(f, depth)
    ensures Check(s, p, depth) == Err(Incomplete)
  {
    assert Encode(f) == Encode(f) + [];
    match f
    case Simple(text) => CutHeader(s, p, PLUS, text, []);
    case Error(text) => CutHeader(s, p, MINUS, text, []);
    case Integer(value) => CutHeader(s, p, COLON, IntegerText(value), []);
    case Null => CutHeader(s, p, DOLLAR, IntegerText(-1), []);
  }

  lemma {:induction false} CutBulk(s: Blob, p: nat, depth: nat, bytes: Blob)
    requires Cut(s, p, Encode(Bulk(bytes)))
    ensures Check(s, p, depth) == Err(Incomplete)
  {
    var text := IntegerText(|bytes|);
    assert Encode(Bulk(bytes)) == [DOLLAR] + text + CRLF + (bytes + CRLF);
    CutHeader(s, p, DOLLAR, text, bytes + CRLF);
    if At(s, p, [DOLLAR] + text + CRLF) {
      assert [DOLLAR] + text + CRLF == [DOLLAR] + text + CRLF + [];
      MarkedField(s, p, DOLLAR, |bytes|, []);
      GetDecimalExact(s, p + 1, p + |text| + 3, |bytes|);
    }
  }

  lemma {:induction false} CutArrayHeader(s: Blob, p: nat, depth: nat, fs: seq<Frame>)
    requires Cut(s, p, Encode(Array(fs))) && Sendable(Array(fs), depth)
    requires var next := p + |IntegerText(|fs|)| + 3;
      Cut(s, next, EncodeAll(fs)) ==> CheckAll(s, next, depth + 1, |fs|) == Err(Incomplete)
    ensures Check(s, p, depth) == Err(Incomplete)
  {
    hide CheckAll, SendableAll, ScanLine;
    var text := IntegerText(|fs|);
    CutHeader(s, p, STAR, text, EncodeAll(fs));
    if At(s, p, [STAR] + text + CRLF) {
      assert [STAR] + text + CRLF == [STAR] + text + CRLF + [];
      MarkedField(s, p, STAR, |fs|, []);
      GetDecimalExact(s, p + 1, p + |text| + 3, |fs|);
    }
  }

  // A strict prefix of an encoded frame is incomplete, however long the frame.
  lemma {:induction false} CutIsIncomplete(s: Blob, p: nat, depth: nat, f: Frame)
    requires Cut(s, p, Encode(f)) && Sendable(f, depth)
    ensures Check(s, p, depth) == Err(Incomplete)
    decreases f, 1
  {
    hide Check, Encode, EncodeAll, Cut, CheckAll;
    match f
    case Bulk(bytes) => CutBulk(s, p, depth, bytes);
    case Array(elements) =>
      var next := p + |IntegerText(|elements|)| + 3;
      if Cut(s, next, EncodeAll(elements)) {
        CutAllIsIncomplete(s, next, depth + 1, elements);
      }
      CutArrayHeader(s, p, depth, elements);
    case _ => CutLineFrame(s, p, depth, f);
  }

  lemma {:induction false} CutAllIsIncomplete(s: Blob, p: nat, depth: nat, fs: seq<Frame>)
    requires Cut(s, p, EncodeAll(fs)) && SendableAll(fs, depth)
    ensures p <= |s| && CheckAll(s, p, depth, |fs|) == Err(Incomplete)
    decreases fs, 0
  {
    hide Check, Encode;
    CutSplit(s, p, Encode(fs[0]), EncodeAll(fs[1..]));
    if Cut(s, p, Encode(fs[0])) {
      CutIsIncomplete(s, p, depth, fs[0]);
    } else {
      EncodeIsWire(s, p, depth, fs[0]);
      WireDecodes(s, p, p + |Encode(fs[0])|, depth, fs[0]);
      CutAllIsIncomplete(s, p + |Encode(fs[0])|, depth, fs[1..]);
    }
  }

  // --- What accepted input looks like ---

  // Array layers along the deepest path.
  function Layers(f: Frame): nat
    decreases f, 1
  {
    match f
    case Array(elements) => 1 + LayersAll(elements)
    case _ => 0
  }

  function LayersAll(fs: seq<Frame>): nat
    decreases fs, 0
  {
    if fs == [] then 0
    else
      var first, others := Layers(fs[0]), LayersAll(fs[1..]);
      if first > others then first else others
  }

  function Nodes(f: Frame): nat
    decreases f, 1
  {
    match f
    case Array(elements) => 1 + NodesAll(elements)
    case _ => 1
  }

  function NodesAll(fs: seq<Frame>): nat
    decreases fs, 0
  {
    if fs == [] then 0 else Nodes(fs[0]) + NodesAll(fs[1..])
  }

  // An accepted frame can be sent back; its printed form is no longer than what was read; its
  // nesting and its number of nodes are bounded by the limits and by the bytes read.
  lemma {:induction false} WireBounds(s: Blob, p: nat, q: nat, depth: nat, f: Frame)
    requires Wire(s, p, q, depth, f)
    ensures Sendable(f, depth)
    ensures |Encode(f)| <= q - p
    ensures 3 * Nodes(f) <= q - p
    ensures f.Array? ==> depth + Layers(f) <= MAX_ARRAY_DEPTH
    decreases f, 1
  {
    match f
    case Simple(_) =>
    case Error(_) =>
    case Integer(_) => PrintedIntegerShortest(s[p + 1..q - 2]);
    case Null => PrintedIntegerShortest(s[p + 1..q - 2]);
    case Bulk(bytes) => PrintedIntegerShortest(s[p + 1..q - |bytes| - 4]);
    case Array(elements) =>
      var next :| WireElements(s, p, next, q, depth, elements);
      PrintedIntegerShortest(s[p + 1..next - 2]);
      WireAllForward(s, next, q, depth + 1, elements);
      WireAllBounds(s, next, q, depth + 1, elements);
  }

  lemma {:induction false} WireAllBounds(s: Blob, p: nat, q: nat, depth: nat, fs: seq<Frame>)
    requires p <= q && WireAll(s, p, q, depth, fs) && depth <= MAX_ARRAY_DEPTH
    ensures SendableAll(fs, depth)
    ensures |EncodeAll(fs)| <= q - p
    ensures 3 * NodesAll(fs) <= q - p
    ensures depth + LayersAll(fs) <= MAX_ARRAY_DEPTH
    decreases fs, 0
  {
    if fs != [] {
      var m :| Wire(s, p, m, depth, fs[0]) && WireAll(s, m, q, depth, fs[1..]);
      WireBounds(s, p, m, depth, fs[0]);
      WireAllForward(s, m, q, depth, fs[1..]);
      WireAllBounds(s, m, q, depth, fs[1..]);
    }
  }

  lemma {:induction false} WireAllForward(s: Blob, p: nat, q: nat, depth: nat, fs: seq<Frame>)
    requires WireAll(s, p, q, depth, fs)
    ensures p <= q
    decreases fs
  {
    if fs != [] {
      var m :| Wire(s, p, m, depth, fs[0]) && WireAll(s, m, q, depth, fs[1..]);
      WireAllForward(s, m, q, depth, fs[1..]);
    }
  }

  // --- Main results ---

  // Wherever an encoded frame stands in the input, parsing there reads that frame and stops just
  // after it, if and only if the frame is sendable.
  lemma {:induction false} RoundTripExact(s: Blob, p: nat, f: Frame)
    requires At(s, p, Encode(f))
    ensures Parse(s, p) == Ok(f, p + |Encode(f)|) <==> Sendable(f, 0)
  {
    hide Encode, Wire, Sendable, Parse;
    var q := p + |Encode(f)|;
    ParseExact(s, p, q, f);
    if Sendable(f, 0) {
      EncodeIsWire(s, p, 0, f);
    }
    if Parse(s, p) == Ok(f, q) {
      WireBounds(s, p, q, 0, f);
    }
  }

  // Printing what was read gives a normal form: no longer, and it reads back as the same frame.
  lemma Normalisation(s: Blob, p: nat)
    requires p <= |s| && Parse(s, p).Ok?
    ensures |Encode(Parse(s, p).value)| <= Parse(s, p).next - p
    ensures Parse(Encode(Parse(s, p).value), 0)
         == Ok(Parse(s, p).value, |Encode(Parse(s, p).value)|)
  {
    var f := Parse(s, p).value;
    ParseExact(s, p, Parse(s, p).next, f);
    WireBounds(s, p, Parse(s, p).next, 0, f);
    RoundTripExact(Encode(f), 0, f);
  }

  // The limits on what one accepted frame can cost.
  lemma AcceptedFrameBounds(s: Blob, p: nat)
    requires p <= |s| && Parse(s, p).Ok?
    ensures Layers(Parse(s, p).value) <= MAX_ARRAY_DEPTH
    ensures 3 * Nodes(Parse(s, p).value) <= Parse(s, p).next - p
    ensures Sendable(Parse(s, p).value, 0)
  {
    ParseExact(s, p, Parse(s, p).next, Parse(s, p).value);
    WireBounds(s, p, Parse(s, p).next, 0, Parse(s, p).value);
  }
}

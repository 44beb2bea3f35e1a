/** The wire format itself: which bytes spell which frame. It does not mention the parser. */
module Grammar {
  import opened Bytes
  import opened Config
  import opened Decimals
  import opened Frames
  import opened FrameSpec

  // The bytes `s[p..q]` spell the frame `f` inside `depth` enclosing arrays.
  ghost predicate Wire(s: Blob, p: nat, q: nat, depth: nat, f: Frame)
    decreases f, 1
  {
    && p + 3 <= q <= |s|
    && match f
       case Simple(text) => s[p] == PLUS && LineAt(s, p + 1, q - 2) && text == s[p + 1..q - 2]
       case Error(text) => s[p] == MINUS && LineAt(s, p + 1, q - 2) && text == s[p + 1..q - 2]
       case Integer(value) => s[p] == COLON && Field(s, p + 1, q, value)
       case Null =>
         && (s[p] == DOLLAR || (s[p] == STAR && depth < MAX_ARRAY_DEPTH))
         && Field(s, p + 1, q, -1)
       case Bulk(bytes) =>
         && s[p] == DOLLAR
         && p + 1 <= q - |bytes| - 2
         && Field(s, p + 1, q - |bytes| - 2, |bytes|)
         && s[q - |bytes| - 2..q] == bytes + CRLF
       case Array(elements) =>
         && s[p] == STAR && depth < MAX_ARRAY_DEPTH
         && |elements| < ARRAY_LENGTH_LIMIT_EXCLUSIVE
         && exists next :: WireElements(s, p, next, q, depth, elements)
  }

  // The count of the array that starts at `p`, up to `next`, and its elements from there to `q`.
  ghost predicate WireElements(s: Blob, p: nat, next: nat, q: nat, depth: nat, fs: seq<Frame>)
    decreases fs, 1
  {
    Field(s, p + 1, next, |fs|) && WireAll(s, next, q, depth + 1, fs)
  }

  // The bytes `s[p..q]` spell the frames `fs` one after the other.
  ghost predicate WireAll(s: Blob, p: nat, q: nat, depth: nat, fs: seq<Frame>)
    decreases fs, 0
  {
    if fs == [] then p == q <= |s|
    else exists m :: Wire(s, p, m, depth, fs[0]) && WireAll(s, m, q, depth, fs[1..])
  }

  // A line from `p` that denotes the number `v`, with its CRLF just before `next`.
  predicate Field(s: Blob, p: nat, next: nat, v: int) {
    LineAt(s, p, next - 2) && Denotes(s[p..next - 2], v)
  }

  lemma GetLineExact(s: Blob, p: nat, next: nat)
    requires p <= |s|
    ensures LineAt(s, p, next - 2) <==> GetLine(s, p).Ok? && GetLine(s, p).next == next
  {
    if GetLine(s, p).Ok? {
      ScanLineSound(s, p);
    }
    if LineAt(s, p, next - 2) {
      ScanLineExact(s, p, next - 2);
    }
  }

  lemma GetDecimalExact(s: Blob, p: nat, next: nat, v: i64)
    requires p <= |s|
    ensures Field(s, p, next, v) <==> GetDecimal(s, p) == Ok(v, next)
  {
    GetLineExact(s, p, next);
    if GetLine(s, p).Ok? {
      DecodeDecimalExact(GetLine(s, p).value, v);
    }
  }

  // --- The parser accepts exactly the wire format ---

  // Everything accepted is spelled right.
  lemma {:induction false} DecodeSound(s: Blob, p: nat, depth: nat)
    requires p <= |s| && Check(s, p, depth).Ok? && Decode(s, p, depth).Ok?
    ensures Wire(s, p, Check(s, p, depth).next, depth, Decode(s, p, depth).value)
    decreases |s| - p, 0
  {
    var q := Check(s, p, depth).next;
    if s[p] == PLUS || s[p] == MINUS || s[p] == COLON {
      LineSound(s, p, depth);
    } else if s[p] == DOLLAR {
      BulkSound(s, p, depth);
    } else {
      var header := GetDecimal(s, p + 1);
      if header.value > 0 {
        DecodeAllSound(s, header.next, depth + 1, header.value);
      }
      ArraySound(s, p, depth);
    }
  }

  lemma LineSound(s: Blob, p: nat, depth: nat)
    requires p < |s| && s[p] in {PLUS, MINUS, COLON}
    requires Check(s, p, depth).Ok? && Decode(s, p, depth).Ok?
    ensures Wire(s, p, Check(s, p, depth).next, depth, Decode(s, p, depth).value)
  {
    var q := Check(s, p, depth).next;
    GetLineExact(s, p + 1, q);
    if s[p] == COLON {
      GetDecimalExact(s, p + 1, q, Decode(s, p, depth).value.value);
    }
  }

  lemma BulkSound(s: Blob, p: nat, depth: nat)
    requires p < |s| && s[p] == DOLLAR && Check(s, p, depth).Ok?
    ensures Wire(s, p, Check(s, p, depth).next, depth, Decode(s, p, depth).value)
  {
    var q := Check(s, p, depth).next;
    var header := GetDecimal(s, p + 1);
    GetDecimalExact(s, p + 1, header.next, header.value);
    if header.value != -1 {
      assert s[header.next..q] == s[header.next..q - 2] + CRLF;
    }
  }

  lemma ArraySound(s: Blob, p: nat, depth: nat)
    requires p < |s| && s[p] == STAR && Check(s, p, depth).Ok? && Decode(s, p, depth).Ok?
    requires var header := GetDecimal(s, p + 1);
      header.value > 0 ==>
        WireAll(s, header.next, CheckAll(s, header.next, depth + 1, header.value).next, depth + 1,
                DecodeAll(s, header.next, depth + 1, header.value).value)
    ensures Wire(s, p, Check(s, p, depth).next, depth, Decode(s, p, depth).value)
  {
    var header := GetDecimal(s, p + 1);
    GetDecimalExact(s, p + 1, header.next, header.value);
    if header.value != -1 {
      assert WireElements(s, p, header.next, Check(s, p, depth).next, depth,
                          Decode(s, p, depth).value.elements);
    }
  }

  lemma {:induction false} DecodeAllSound(s: Blob, p: nat, depth: nat, count: nat)
    requires p <= |s| && CheckAll(s, p, depth, count).Ok? && DecodeAll(s, p, depth, count).Ok?
    ensures WireAll(s, p, CheckAll(s, p, depth, count).next, depth,
                    DecodeAll(s, p, depth, count).value)
    decreases |s| - p, 1
  {
    hide Check, Decode, Wire;
    if count > 0 {
      DecodeSound(s, p, depth);
      var m := Check(s, p, depth).next;
      DecodeAllSound(s, m, depth, count - 1);
      var fs := DecodeAll(s, p, depth, count).value;
      assert fs[1..] == DecodeAll(s, m, depth, count - 1).value;
    }
  }

  lemma LineDecodes(s: Blob, p: nat, q: nat, depth: nat, f: Frame)
    requires f.Simple? || f.Error?
    requires Wire(s, p, q, depth, f)
    ensures Check(s, p, depth) == Ok((), q)
    ensures Decode(s, p, depth) == Ok(f, q)
  {
    GetLineExact(s, p + 1, q);
  }

  lemma NumberDecodes(s: Blob, p: nat, q: nat, depth: nat, f: Frame)
    requires f.Integer? || f.Null?
    requires Wire(s, p, q, depth, f)
    ensures Check(s, p, depth) == Ok((), q)
    ensures Decode(s, p, depth) == Ok(f, q)
  {
    GetDecimalExact(s, p + 1, q, if f.Integer? then f.value else -1);
  }

  lemma BulkDecodes(s: Blob, p: nat, q: nat, depth: nat, bytes: Blob)
    requires Wire(s, p, q, depth, Bulk(bytes))
    ensures Check(s, p, depth) == Ok((), q)
    ensures Decode(s, p, depth) == Ok(Bulk(bytes), q)
  {
    var next := q - |bytes| - 2;
    GetDecimalExact(s, p + 1, next, |bytes|);
    assert s[next..q - 2] == s[next..q][..|bytes|] == bytes;
    assert s[q - 2] == s[next..q][|bytes|] && s[q - 1] == s[next..q][|bytes| + 1];
  }

  lemma ArrayDecodes(s: Blob, p: nat, next: nat, q: nat, depth: nat, fs: seq<Frame>)
    requires Wire(s, p, q, depth, Array(fs)) && WireElements(s, p, next, q, depth, fs)
    requires CheckAll(s, next, depth + 1, |fs|) == Ok((), q)
    requires DecodeAll(s, next, depth + 1, |fs|) == Ok(fs, q)
    ensures Check(s, p, depth) == Ok((), q)
    ensures Decode(s, p, depth) == Ok(Array(fs), q)
  {
    GetDecimalExact(s, p + 1, next, |fs|);
  }

  // Everything spelled right is accepted, and read back as that frame.
  lemma {:induction false} WireDecodes(s: Blob, p: nat, q: nat, depth: nat, f: Frame)
    requires Wire(s, p, q, depth, f)
    ensures Check(s, p, depth) == Ok((), q)
    ensures Decode(s, p, depth) == Ok(f, q)
    decreases f, 1
  {
    match f
    case Simple(_) => LineDecodes(s, p, q, depth, f);
    case Error(_) => LineDecodes(s, p, q, depth, f);
    case Integer(_) => NumberDecodes(s, p, q, depth, f);
    case Null => NumberDecodes(s, p, q, depth, f);
    case Bulk(bytes) =>
      BulkDecodes(s, p, q, depth, bytes);
    case Array(elements) =>
      var next :| WireElements(s, p, next, q, depth, elements);
      WireAllDecodes(s, next, q, depth + 1, elements);
      ArrayDecodes(s, p, next, q, depth, elements);
  }

  lemma {:induction false} WireAllDecodes(s: Blob, p: nat, q: nat, depth: nat, fs: seq<Frame>)
    requires p <= |s| && WireAll(s, p, q, depth, fs)
    ensures CheckAll(s, p, depth, |fs|) == Ok((), q)
    ensures DecodeAll(s, p, depth, |fs|) == Ok(fs, q)
    decreases fs, 0
  {
    hide Check, Decode;
    if fs != [] {
      var m :| Wire(s, p, m, depth, fs[0]) && WireAll(s, m, q, depth, fs[1..]);
      WireDecodes(s, p, m, depth, fs[0]);
      WireAllDecodes(s, m, q, depth, fs[1..]);
      assert fs == [fs[0]] + fs[1..];
    }
  }

  // Parsing yields the frame `f` ending at `q` if and only if `s[p..q]` spells `f`.
  lemma ParseExact(s: Blob, p: nat, q: nat, f: Frame)
    requires p <= |s|
    ensures Parse(s, p) == Ok(f, q) <==> Wire(s, p, q, 0, f)
  {
    if Parse(s, p) == Ok(f, q) {
      DecodeSound(s, p, 0);
    }
    if Wire(s, p, q, 0, f) {
      WireDecodes(s, p, q, 0, f);
    }
  }

  // Two frames cannot start at the same byte.
  lemma WireUnambiguous(s: Blob, p: nat, q: nat, q': nat, f: Frame, f': Frame)
    requires Wire(s, p, q, 0, f) && Wire(s, p, q', 0, f')
    ensures q == q' && f == f'
  {
    ParseExact(s, p, q, f);
    ParseExact(s, p, q', f');
  }
}

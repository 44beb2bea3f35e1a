/** The two passes over a byte string, as functions of the bytes and a position (src/frame.rs). */
module FrameSpec {
  import opened Bytes
  import opened Config
  import opened Decimals
  import opened Frames

  // --- Lines and decimal fields ---

  // A line running from `p` up to the CRLF at `e`.
  predicate LineAt(s: seq<byte>, p: nat, e: int) {
    p <= e && e + 2 <= |s| && s[e] == CR && s[e + 1] == LF && OneLine(s[p..e])
  }

  // The scan for the end of the line, from position `i` on; the value is the position of CR.
  function ScanLine(s: seq<byte>, i: nat): (r: Parsed<nat>)
    requires i <= |s|
    ensures r.Ok? ==> i <= r.value && r.next == r.value + 2 <= |s|
    decreases |s| - i
  {
    if i == |s| then Err(Incomplete)
    else if s[i] == LF then Err(Other(BareLineFeed))
    else if s[i] != CR then ScanLine(s, i + 1)
    else if i + 1 == |s| then Err(Incomplete)
    else if s[i + 1] != LF then Err(Other(BareCarriageReturn))
    else Ok(i, i + 2)
  }

  // The outcome of the scan depends only on the first line break at or after `i`.
  lemma {:induction false} ScanLineExact(s: seq<byte>, i: nat, e: nat)
    requires i <= e <= |s| && OneLine(s[i..e])
    ensures ScanLine(s, i) ==
            if e == |s| then Err(Incomplete)
            else if s[e] == LF then Err(Other(BareLineFeed))
            else if s[e] != CR then ScanLine(s, e)
            else if e + 1 == |s| then Err(Incomplete)
            else if s[e + 1] != LF then Err(Other(BareCarriageReturn))
            else Ok(e, e + 2)
    decreases e - i
  {
    if i < e {
      assert s[i] == s[i..e][0];
      assert s[i + 1..e] == s[i..e][1..];
      ScanLineExact(s, i + 1, e);
    }
  }

  lemma {:induction false} ScanLineSound(s: seq<byte>, i: nat)
    requires i <= |s| && ScanLine(s, i).Ok?
    ensures LineAt(s, i, ScanLine(s, i).value)
    decreases |s| - i
  {
    if s[i] != CR {
      ScanLineSound(s, i + 1);
      var e := ScanLine(s, i).value;
      assert s[i..e] == [s[i]] + s[i + 1..e];
    }
  }

  function GetLine(s: Blob, p: nat): (r: Parsed<Blob>)
    requires p <= |s|
    ensures r.Ok? ==> p + 2 <= r.next <= |s| && r.value == s[p..r.next - 2]
  {
    match ScanLine(s, p)
    case Ok(e, next) => Ok(s[p..e], next)
    case Err(error) => Err(error)
  }

  function GetDecimal(s: Blob, p: nat): (r: Parsed<i64>)
    requires p <= |s|
    ensures r.Ok? ==> p + 3 <= r.next <= |s|
  {
    match GetLine(s, p)
    case Err(error) => Err(error)
    case Ok(line, next) =>
      match DecodeDecimal(line)
      case Value(v) => Ok(v, next)
      case Bad(fault) => Err(Other(fault))
  }

  // --- First pass: structure ---

  function Check(s: Blob, p: nat, depth: nat): (r: Parsed<()>)
    requires p <= |s|
    ensures r.Ok? ==> p + 3 <= r.next <= |s|
    decreases |s| - p, 0
  {
    if p == |s| then Err(Incomplete)
    else if s[p] == PLUS || s[p] == MINUS || s[p] == COLON then
      match GetLine(s, p + 1)
      case Ok(_, next) => Ok((), next)
      case Err(error) => Err(error)
    else if s[p] == DOLLAR then
      match GetDecimal(s, p + 1)
      case Ok(length, next) => CheckBulk(s, next, length)
      case Err(error) => Err(error)
    else if s[p] == STAR then
      if depth >= MAX_ARRAY_DEPTH then Err(Other(TooDeep))
      else
        match GetDecimal(s, p + 1)
        case Err(error) => Err(error)
        case Ok(count, next) =>
          if -1 <= count <= 0 then Ok((), next)
          else if 1 <= count < ARRAY_LENGTH_LIMIT_EXCLUSIVE then CheckAll(s, next, depth + 1, count)
          else Err(Other(BadArrayLength))
    else Err(Other(UnknownMarker))
  }

  // The payload of a bulk string and its terminator, from position `p` on.
  function CheckBulk(s: Blob, p: nat, length: i64): (r: Parsed<()>)
    requires p <= |s|
    ensures r.Ok? ==> p <= r.next <= |s|
    ensures r.Ok? && length != -1 ==> 0 <= length && r.next == p + length + 2
  {
    if length == -1 then Ok((), p)
    else if length < 0 then Err(Other(BadBulkLength))
    else if |s| - p < length + 2 then Err(Incomplete)
    else if s[p + length] == CR && s[p + length + 1] == LF then Ok((), p + length + 2)
    else Err(Other(BadBulkTerminator))
  }

  // `count` frames in a row.
  function CheckAll(s: Blob, p: nat, depth: nat, count: nat): (r: Parsed<()>)
    requires p <= |s|
    ensures r.Ok? ==> p <= r.next <= |s|
    decreases |s| - p, 1
  {
    if count == 0 then Ok((), p)
    else
      match Check(s, p, depth)
      case Ok(_, next) => CheckAll(s, next, depth, count - 1)
      case Err(error) => Err(error)
  }

  // --- Second pass: content ---

  // Only a checked frame is decoded. Every access below is in bounds because of that, and the
  // pass ends where the first one did.
  function Decode(s: Blob, p: nat, depth: nat): (r: Parsed<Frame>)
    requires p <= |s| && Check(s, p, depth).Ok?
    ensures r.Ok? ==> r.next == Check(s, p, depth).next
    ensures r.Err? ==> r.error.Other? && r.error.fault.IsContentFault()
    decreases |s| - p, 0
  {
    if s[p] == PLUS || s[p] == MINUS then
      var line := GetLine(s, p + 1);
      if !Utf8(line.value) then Err(Other(InvalidUtf8))
      else if s[p] == PLUS then Ok(Simple(line.value), line.next)
      else Ok(Error(line.value), line.next)
    else if s[p] == COLON then
      var number := DecodeDecimal(GetLine(s, p + 1).value);
      if number.Bad? then
        DecodeDecimalFaultExact(GetLine(s, p + 1).value);
        Err(Other(number.fault))
      else Ok(Integer(number.value), GetLine(s, p + 1).next)
    else
      var header := GetDecimal(s, p + 1);
      if header.value == -1 then Ok(Null, header.next)
      else if s[p] == DOLLAR then
        var end := header.next + header.value;
        Ok(Bulk(s[header.next..end]), end + 2)
      else
        match DecodeAll(s, header.next, depth + 1, header.value)
        case Ok(elements, next) => Ok(Array(elements), next)
        case Err(error) => Err(error)
  }

  function DecodeAll(s: Blob, p: nat, depth: nat, count: nat): (r: Parsed<seq<Frame>>)
    requires p <= |s| && CheckAll(s, p, depth, count).Ok?
    ensures r.Ok? ==> r.next == CheckAll(s, p, depth, count).next && |r.value| == count
    ensures r.Err? ==> r.error.Other? && r.error.fault.IsContentFault()
    decreases |s| - p, 1
  {
    if count == 0 then Ok([], p)
    else
      match Decode(s, p, depth)
      case Err(error) => Err(error)
      case Ok(first, next) =>
        match DecodeAll(s, next, depth, count - 1)
        case Ok(others, end) => Ok([first] + others, end)
        case Err(error) => Err(error)
  }

  function Parse(s: Blob, p: nat): (r: Parsed<Frame>)
    requires p <= |s|
    ensures r.Ok? ==> p + 3 <= r.next <= |s|
  {
    match Check(s, p, 0)
    case Ok(_, _) => Decode(s, p, 0)
    case Err(error) => Err(error)
  }

  // --- More input never changes a definite outcome ---

  predicate Extends(t: seq<byte>, s: seq<byte>) {
    |s| <= |t| && t[..|s|] == s
  }

  lemma SharedByte(s: seq<byte>, t: seq<byte>, i: nat)
    requires Extends(t, s) && i < |s|
    ensures t[i] == s[i]
  {
    assert t[i] == t[..|s|][i];
  }

  lemma SharedSlice(s: seq<byte>, t: seq<byte>, i: nat, j: nat)
    requires Extends(t, s) && i <= j <= |s|
    ensures t[i..j] == s[i..j]
  {
    forall k | 0 <= k < j - i ensures t[i..j][k] == s[i..j][k] {
      SharedByte(s, t, i + k);
    }
  }

  lemma {:induction false} ScanLineStable(s: seq<byte>, t: seq<byte>, i: nat)
    requires Extends(t, s) && i <= |s| && ScanLine(s, i).Definite()
    ensures ScanLine(t, i) == ScanLine(s, i)
    decreases |s| - i
  {
    SharedByte(s, t, i);
    if s[i] == CR {
      SharedByte(s, t, i + 1);
    }
    if s[i] != LF && s[i] != CR {
      ScanLineStable(s, t, i + 1);
    }
  }

  lemma {:induction false} GetLineStable(s: Blob, t: Blob, p: nat)
    requires Extends(t, s) && p <= |s| && GetLine(s, p).Definite()
    ensures GetLine(t, p) == GetLine(s, p)
  {
    ScanLineStable(s, t, p);
    if GetLine(s, p).Ok? {
      SharedSlice(s, t, p, GetLine(s, p).next - 2);
    }
  }

  lemma {:induction false} CheckStable(s: Blob, t: Blob, p: nat, depth: nat)
    requires Extends(t, s) && p <= |s| && Check(s, p, depth).Definite()
    ensures Check(t, p, depth) == Check(s, p, depth)
    decreases |s| - p, 0
  {
    SharedByte(s, t, p);
    if s[p] == STAR && depth >= MAX_ARRAY_DEPTH {
    } else if s[p] in {PLUS, MINUS, COLON, DOLLAR, STAR} {
      GetLineStable(s, t, p + 1);
      if s[p] == DOLLAR && GetDecimal(s, p + 1).Ok? {
        CheckBulkStable(s, t, GetDecimal(s, p + 1).next, GetDecimal(s, p + 1).value);
      } else if s[p] == STAR && GetDecimal(s, p + 1).Ok? {
        var header := GetDecimal(s, p + 1);
        if 1 <= header.value < ARRAY_LENGTH_LIMIT_EXCLUSIVE {
          CheckAllStable(s, t, header.next, depth + 1, header.value);
        }
      }
    }
  }

  lemma CheckBulkStable(s: Blob, t: Blob, p: nat, length: i64)
    requires Extends(t, s) && p <= |s| && CheckBulk(s, p, length).Definite()
    ensures CheckBulk(t, p, length) == CheckBulk(s, p, length)
  {
    if 0 <= length <= |s| - p - 2 {
      SharedByte(s, t, p + length);
      SharedByte(s, t, p + length + 1);
    }
  }

  lemma {:induction false} CheckAllStable(s: Blob, t: Blob, p: nat, depth: nat, count: nat)
    requires Extends(t, s) && p <= |s| && CheckAll(s, p, depth, count).Definite()
    ensures CheckAll(t, p, depth, count) == CheckAll(s, p, depth, count)
    decreases |s| - p, 1
  {
    if count > 0 {
      CheckStable(s, t, p, depth);
      if Check(s, p, depth).Ok? {
        CheckAllStable(s, t, Check(s, p, depth).next, depth, count - 1);
      }
    }
  }

  lemma {:induction false} DecodeStable(s: Blob, t: Blob, p: nat, depth: nat)
    requires Extends(t, s) && p <= |s| && Check(s, p, depth).Ok? && Check(t, p, depth).Ok?
    ensures Decode(t, p, depth) == Decode(s, p, depth)
    decreases |s| - p, 0
  {
    SharedByte(s, t, p);
    GetLineStable(s, t, p + 1);
    if s[p] == DOLLAR || s[p] == STAR {
      var header := GetDecimal(s, p + 1);
      assert GetDecimal(t, p + 1) == header;
      if s[p] == DOLLAR && header.value != -1 {
        SharedSlice(s, t, header.next, header.next + header.value);
      } else if s[p] == STAR && header.value > 0 {
        DecodeAllStable(s, t, header.next, depth + 1, header.value);
      }
    }
  }

  lemma {:induction false} DecodeAllStable(s: Blob, t: Blob, p: nat, depth: nat, count: nat)
    requires Extends(t, s) && p <= |s|
    requires CheckAll(s, p, depth, count).Ok? && CheckAll(t, p, depth, count).Ok?
    ensures DecodeAll(t, p, depth, count) == DecodeAll(s, p, depth, count)
    decreases |s| - p, 1
  {
    hide Check, Decode;
    if count > 0 {
      CheckStable(s, t, p, depth);
      DecodeStable(s, t, p, depth);
      DecodeAllStable(s, t, Check(s, p, depth).next, depth, count - 1);
    }
  }

  // A parsed frame and a reported fault are both final: no later byte can change them.
  lemma ParseStable(s: Blob, t: Blob, p: nat)
    requires Extends(t, s) && p <= |s| && Parse(s, p).Definite()
    ensures Parse(t, p) == Parse(s, p)
  {
    CheckStable(s, t, p, 0);
    if Check(s, p, 0).Ok? {
      DecodeStable(s, t, p, 0);
    }
  }

  // Cutting an accepted frame short anywhere leaves an incomplete frame, never a wrong one.
  lemma ShorterIsIncomplete(s: Blob, p: nat, m: nat)
    requires p <= m <= |s| && Parse(s, p).Ok? && m < Parse(s, p).next
    ensures Parse(s[..m], p) == Err(Incomplete)
  {
    if Parse(s[..m], p).Definite() {
      ParseStable(s[..m], s, p);
    }
  }
}

/** Which incomplete inputs can still become a frame, and how many bytes they lack (src/frame.rs). */
module Completion {
  import opened Bytes
  import opened Config
  import opened Decimals
  import opened Frames
  import opened FrameSpec
  import opened Grammar

  // --- Text that may end inside a character ---

  // The second byte of a character of three or four bytes.
  predicate IsSecond(lead: byte, b: byte) {
    && IsTail(b)
    && (lead == 0xE0 ==> 0xA0 <= b)
    && (lead == 0xED ==> b <= 0x9F)
    && (lead == 0xF0 ==> 0x90 <= b)
    && (lead == 0xF4 ==> b <= 0x8F)
  }

  // How many bytes the last character lacks; nothing when the text is beyond repair.
  function TextLack(s: seq<byte>): Option<nat> {
    if s == [] then Some(0)
    else if s[0] <= 0x7F then TextLack(s[1..])
    else if 0xC2 <= s[0] <= 0xDF then
      if |s| == 1 then Some(1)
      else if IsTail(s[1]) then TextLack(s[2..]) else None
    else if 0xE0 <= s[0] <= 0xEF then
      if |s| == 1 then Some(2)
      else if !IsSecond(s[0], s[1]) then None
      else if |s| == 2 then Some(1)
      else if IsTail(s[2]) then TextLack(s[3..]) else None
    else if 0xF0 <= s[0] <= 0xF4 then
      if |s| == 1 then Some(3)
      else if !IsSecond(s[0], s[1]) then None
      else if |s| == 2 then Some(2)
      else if !IsTail(s[2]) then None
      else if |s| == 3 then Some(1)
      else if IsTail(s[3]) then TextLack(s[4..]) else None
    else None
  }

  // The number of bytes of the first character.
  function CharLength(s: seq<byte>): nat
    requires s != []
  {
    if s[0] <= 0x7F then 1 else if s[0] <= 0xDF then 2 else if s[0] <= 0xEF then 3 else 4
  }

  lemma DropAppend(s: seq<byte>, more: seq<byte>, n: nat)
    requires n <= |s|
    ensures (s + more)[n..] == s[n..] + more
  {
  }

  lemma {:induction false} CharLackNeeded(s: seq<byte>, more: seq<byte>)
    requires s != [] && |s| < CharLength(s) && Utf8(s + more)
    ensures TextLack(s).Some? && TextLack(s).value <= |more|
  {
    var whole := s + more;
    assert forall k :: 0 <= k < |s| ==> whole[k] == s[k];
  }

  lemma {:induction false} FirstCharWhole(s: seq<byte>, more: seq<byte>)
    requires s != [] && |s| >= CharLength(s) && Utf8(s + more)
    ensures CharLength(s) >= 1
    ensures Utf8(s[CharLength(s)..] + more) && TextLack(s) == TextLack(s[CharLength(s)..])
  {
    var whole, n := s + more, CharLength(s);
    DropAppend(s, more, n);
    assert forall k :: 0 <= k < n ==> whole[k] == s[k];
  }

  lemma {:induction false} TextLackNeeded(s: seq<byte>, more: seq<byte>)
    requires Utf8(s + more)
    ensures TextLack(s).Some? && TextLack(s).value <= |more|
    decreases |s|
  {
    hide Utf8, CharLength;
    if s != [] {
      var n := CharLength(s);
      if |s| >= n {
        FirstCharWhole(s, more);
        TextLackNeeded(s[n..], more);
      } else {
        CharLackNeeded(s, more);
      }
    }
  }

  lemma {:induction false} TextCompletes(s: seq<byte>) returns (more: seq<byte>)
    requires TextLack(s).Some?
    ensures |more| == TextLack(s).value && OneLine(more) && Utf8(s + more)
    decreases |s|
  {
    if s == [] {
      more := [];
    } else {
      var n := CharLength(s);
      if |s| >= n {
        more := TextCompletes(s[n..]);
        DropAppend(s, more, n);
      } else {
        more := CharCompletes(s);
      }
    }
  }

  lemma {:induction false} CharCompletes(s: seq<byte>) returns (more: seq<byte>)
    requires TextLack(s).Some? && s != [] && |s| < CharLength(s)
    ensures |more| == TextLack(s).value && OneLine(more) && Utf8(s + more)
  {
    var n := CharLength(s);
    var second := if s[0] == 0xE0 || s[0] == 0xF0 then 0xA0 else 0x80;
    var lack := n - |s|;
    more := if |s| > 1 then (if lack == 1 then [0x80] else [0x80, 0x80])
            else if lack == 1 then [0x80]
            else if lack == 2 then [second, 0x80] else [second, 0x80, 0x80];
    var whole := s + more;
    assert |whole| == n && Utf8(whole[n..]);
    assert forall k :: 0 <= k < |s| ==> whole[k] == s[k];
    assert forall k :: |s| <= k < n ==> whole[k] == more[k - |s|];
  }

  // --- A first line, and what must follow it ---

  // How many bytes follow a header line at least: the payload of a bulk string with its
  // terminator, or elements of three bytes each.
  function PayloadLack(marker: byte, v: i64): Option<nat> {
    if marker == DOLLAR then
      if v == -1 then Some(0) else if v >= 0 then Some(v + 2) else None
    else
      if -1 <= v <= 0 then Some(0)
      else if 1 <= v < ARRAY_LENGTH_LIMIT_EXCLUSIVE then Some(3 * v) else None
  }

  // How many bytes must follow a line; nothing when no frame begins with it.
  function BodyLack(marker: byte, line: seq<byte>): Option<nat> {
    if marker == PLUS || marker == MINUS then
      if Utf8(line) then Some(0) else None
    else
      match DecodeDecimal(line)
      case Bad(_) => None
      case Value(v) => if marker == COLON then Some(0) else PayloadLack(marker, v)
  }

  // How many bytes must follow the start of a line.
  function OpenLack(marker: byte, line: seq<byte>): Option<nat> {
    if marker == PLUS || marker == MINUS then
      match TextLack(line)
      case Some(n) => Some(n + 2)
      case None => None
    else if line == [] then Some(if marker == DOLLAR then 4 else 3)
    else if line == [MINUS] then Some(3)
    else if marker == DOLLAR && line[0] == MINUS && DecodeDecimal(line) == Value(0) then
      Some(3)  // "-0" can still become "-01", a null
    else
      match BodyLack(marker, line)
      case Some(n) => Some(n + 2)
      case None => None
  }

  lemma {:induction false} SameNumeral(line: seq<byte>)
    ensures line + [] == line
  {
  }

  lemma {:induction false} ShortNumerals()
    ensures DecodeDecimal([ZERO]) == Value(0)
    ensures DecodeDecimal([MINUS, ZERO]) == Value(0)
    ensures DecodeDecimal([MINUS, ZERO + 1]) == Value(-1)
  {
    assert [MINUS, ZERO][1..] == [ZERO] && [MINUS, ZERO + 1][1..] == [ZERO + 1];
    assert Accumulate(-1, 0, [ZERO]) == Value(0);
    assert Accumulate(-1, 0, [ZERO + 1]) == Value(-1);
  }

  lemma {:induction false} OpenLackNeeded(marker: byte, line: seq<byte>, more: seq<byte>)
    requires BodyLack(marker, line + more).Some?
    ensures OpenLack(marker, line).Some?
    ensures OpenLack(marker, line).value <= |more| + 2 + BodyLack(marker, line + more).value
  {
    if marker == PLUS || marker == MINUS {
      TextLackNeeded(line, more);
    } else if line == [] {
      assert more != [];
      if |more| == 1 && marker == DOLLAR {
        assert line + more == more;
        OneDigit(more);
      }
    } else if line == [MINUS] {
      assert more != [];
    } else {
      LongerNumeral(line, more);
      if more == [] {
        SameNumeral(line);
      }
    }
  }

  // A numeral of one byte is a digit.
  lemma OneDigit(line: seq<byte>)
    requires |line| == 1 && DecodeDecimal(line).Value?
    ensures DecodeDecimal(line).value >= 0
  {
  }

  lemma {:induction false} OpenLineCompletes(marker: byte, line: seq<byte>) returns (more: seq<byte>)
    requires OpenLack(marker, line).Some?
    ensures OneLine(more) && BodyLack(marker, line + more).Some?
    ensures OpenLack(marker, line).value == |more| + 2 + BodyLack(marker, line + more).value
  {
    if marker == PLUS || marker == MINUS {
      more := TextCompletes(line);
    } else {
      ShortNumerals();
      if line == [] {
        more := if marker == DOLLAR then [MINUS, ZERO + 1] else [ZERO];
        assert line + more == more;
      } else if line == [MINUS] {
        more := if marker == DOLLAR then [ZERO + 1] else [ZERO];
        assert line + more == [MINUS] + more;
      } else if marker == DOLLAR && line[0] == MINUS && DecodeDecimal(line) == Value(0) {
        more := [ZERO + 1];
        NegativeZeroThenOne(line);
      } else {
        more := [];
        SameNumeral(line);
      }
    }
  }

  lemma {:induction false} NegativeZeroThenOne(line: seq<byte>)
    requires line != [] && line[0] == MINUS && DecodeDecimal(line) == Value(0)
    ensures DecodeDecimal(line + [ZERO + 1]) == Value(-1)
  {
    DecodeDecimalExact(line, 0);
    var whole := line + [ZERO + 1];
    assert whole[1..] == line[1..] + [ZERO + 1];
    assert whole[1..][..|line| - 1] == line[1..];
    DecodeDecimalExact(whole, -1);
  }

  // --- What an incomplete input lacks ---

  // The input ends between the CR and the LF of a line.
  predicate Closed(s: seq<byte>, p: nat) {
    p < |s| && s[|s| - 1] == CR
  }

  // What has arrived of a line that starts at `p`.
  function Held(s: seq<byte>, p: nat): seq<byte>
    requires p <= |s|
  {
    if Closed(s, p) then s[p..|s| - 1] else s[p..]
  }

  function LineLack(s: Blob, p: nat, marker: byte): Option<nat>
    requires p <= |s|
  {
    if Closed(s, p) then
      match BodyLack(marker, Held(s, p))
      case Some(n) => Some(n + 1)
      case None => None
    else OpenLack(marker, Held(s, p))
  }

  function PayloadRest(s: Blob, p: nat, length: nat): Option<nat>
    requires p <= |s| < p + length + 2
  {
    if |s| <= p + length then Some(p + length + 2 - |s|)
    else if s[p + length] == CR then Some(1) else None
  }

  // The least number of bytes that complete the frame at `p`; nothing when none do.
  function Lack(s: Blob, p: nat, depth: nat): Option<nat>
    requires p <= |s| && Check(s, p, depth) == Err(Incomplete)
    decreases |s| - p, 0
  {
    if p == |s| then Some(3)
    else if GetLine(s, p + 1).Err? then LineLack(s, p + 1, s[p])
    else
      var header := GetDecimal(s, p + 1);
      if s[p] == DOLLAR then PayloadRest(s, header.next, header.value)
      else LackAll(s, header.next, depth + 1, header.value)
  }

  // The same for `count` frames in a row. Frames that are already complete must decode.
  function LackAll(s: Blob, p: nat, depth: nat, count: nat): Option<nat>
    requires p <= |s| && CheckAll(s, p, depth, count) == Err(Incomplete)
    decreases |s| - p, 1
  {
    match Check(s, p, depth)
    case Ok(_, next) =>
      if Decode(s, p, depth).Ok? then LackAll(s, next, depth, count - 1) else None
    case Err(_) =>
      match Lack(s, p, depth)
      case Some(n) => Some(n + 3 * (count - 1))
      case None => None
  }

  // --- No continuation takes fewer bytes ---

  lemma {:induction false} HeldIsLine(s: seq<byte>, p: nat)
    requires p <= |s| && ScanLine(s, p) == Err(Incomplete)
    ensures OneLine(Held(s, p))
    decreases |s| - p
  {
    if p < |s| && s[p] != CR {
      HeldIsLine(s, p + 1);
      assert Held(s, p) == [s[p]] + Held(s, p + 1);
    }
  }

  lemma {:induction false} LineGrows(s: seq<byte>, t: seq<byte>, p: nat, e: nat)
    requires Extends(t, s) && p <= |s| && ScanLine(s, p) == Err(Incomplete) && LineAt(t, p, e)
    ensures Closed(s, p) ==> e == |s| - 1 && t[p..e] == Held(s, p)
    ensures !Closed(s, p) ==> e >= |s| && t[p..e] == Held(s, p) + t[|s|..e]
  {
    HeldIsLine(s, p);
    assert forall k :: 0 <= k < |s| ==> t[k] == t[..|s|][k] == s[k];
    assert forall k :: p <= k < e ==> t[k] == t[p..e][k - p];
    var held := Held(s, p);
    assert forall k :: p <= k < p + |held| ==> s[k] == held[k - p];
    assert e >= p + |held|;
    assert t[p..p + |held|] == held;
  }

  lemma {:induction false} AllTake(s: Blob, p: nat, depth: nat, count: nat)
    requires p <= |s| && CheckAll(s, p, depth, count).Ok?
    ensures CheckAll(s, p, depth, count).next >= p + 3 * count
    decreases count
  {
    if count > 0 {
      AllTake(s, Check(s, p, depth).next, depth, count - 1);
    }
  }

  lemma {:induction false} BodyNeeded(t: Blob, p: nat, depth: nat)
    requires p < |t| && Check(t, p, depth).Ok? && Decode(t, p, depth).Ok?
    ensures GetLine(t, p + 1).Ok? && BodyLack(t[p], GetLine(t, p + 1).value).Some?
    ensures Check(t, p, depth).next
         >= GetLine(t, p + 1).next + BodyLack(t[p], GetLine(t, p + 1).value).value
  {
    if t[p] == STAR {
      var header := GetDecimal(t, p + 1);
      if header.value > 0 {
        AllTake(t, header.next, depth + 1, header.value);
      }
    }
  }

  lemma {:induction false} LineLackNeeded(s: Blob, t: Blob, p: nat, depth: nat)
    requires Extends(t, s) && p < |s| && GetLine(s, p + 1) == Err(Incomplete)
    requires Check(t, p, depth).Ok? && Decode(t, p, depth).Ok?
    ensures LineLack(s, p + 1, s[p]).Some?
    ensures Check(t, p, depth).next >= |s| + LineLack(s, p + 1, s[p]).value
  {
    hide Check, Decode, BodyLack, OpenLack;
    SharedByte(s, t, p);
    BodyNeeded(t, p, depth);
    ScanLineSound(t, p + 1);
    var e := ScanLine(t, p + 1).value;
    LineGrows(s, t, p + 1, e);
    if !Closed(s, p + 1) {
      OpenLackNeeded(s[p], Held(s, p + 1), t[|s|..e]);
    }
  }

  lemma PayloadNeeded(s: Blob, t: Blob, p: nat, length: nat)
    requires Extends(t, s) && p <= |s| < p + length + 2 <= |t|
    requires t[p + length] == CR
    ensures PayloadRest(s, p, length).Some? && p + length + 2 >= |s| + PayloadRest(s, p, length).value
  {
    if |s| > p + length {
      SharedByte(s, t, p + length);
    }
  }

  lemma {:induction false} LackNeeded(s: Blob, t: Blob, p: nat, depth: nat)
    requires Extends(t, s) && p <= |s| && Check(s, p, depth) == Err(Incomplete)
    requires Check(t, p, depth).Ok? && Decode(t, p, depth).Ok?
    ensures Lack(s, p, depth).Some? && Check(t, p, depth).next >= |s| + Lack(s, p, depth).value
    decreases |s| - p, 0
  {
    if p < |s| {
      SharedByte(s, t, p);
      if GetLine(s, p + 1).Err? {
        LineLackNeeded(s, t, p, depth);
      } else {
        GetLineStable(s, t, p + 1);
        var header := GetDecimal(s, p + 1);
        assert GetDecimal(t, p + 1) == header;
        if s[p] == DOLLAR {
          PayloadNeeded(s, t, header.next, header.value);
        } else {
          LackAllNeeded(s, t, header.next, depth + 1, header.value);
        }
      }
    }
  }

  lemma {:induction false} LackAllNeeded(s: Blob, t: Blob, p: nat, depth: nat, count: nat)
    requires Extends(t, s) && p <= |s| && CheckAll(s, p, depth, count) == Err(Incomplete)
    requires CheckAll(t, p, depth, count).Ok? && DecodeAll(t, p, depth, count).Ok?
    ensures LackAll(s, p, depth, count).Some?
    ensures CheckAll(t, p, depth, count).next >= |s| + LackAll(s, p, depth, count).value
    decreases |s| - p, 1
  {
    hide Check, Decode;
    if Check(s, p, depth).Ok? {
      FirstStays(s, t, p, depth);
      LackAllNeeded(s, t, Check(s, p, depth).next, depth, count - 1);
    } else {
      LackNeeded(s, t, p, depth);
      AllTake(t, Check(t, p, depth).next, depth, count - 1);
    }
  }

  // --- Some continuation takes no more ---

  function Zeros(n: nat): (w: seq<byte>)
    ensures |w| == n
  {
    seq(n, _ => ZERO)
  }

  // Empty simple strings.
  function Fillers(count: nat): (w: seq<byte>)
    ensures |w| == 3 * count
  {
    if count == 0 then [] else [PLUS, CR, LF] + Fillers(count - 1)
  }

  lemma {:induction false} FillersRead(t: Blob, p: nat, depth: nat, count: nat)
    requires p <= |t| && t[p..] == Fillers(count)
    ensures CheckAll(t, p, depth, count) == Ok((), |t|) && DecodeAll(t, p, depth, count).Ok?
    decreases count
  {
    if count > 0 {
      assert t[p] == t[p..][0] && t[p + 1] == t[p..][1] && t[p + 2] == t[p..][2];
      assert t[p + 3..] == t[p..][3..];
      GetLineExact(t, p + 1, p + 3);
      FillersRead(t, p + 3, depth, count - 1);
    }
  }

  // A shortest continuation of a line.
  function Body(marker: byte, line: seq<byte>): (w: seq<byte>)
    requires BodyLack(marker, line).Some?
    ensures |w| == BodyLack(marker, line).value
  {
    if marker == PLUS || marker == MINUS || marker == COLON then []
    else
      var v := DecodeDecimal(line).value;
      if v <= 0 && !(marker == DOLLAR && v == 0) then []
      else if marker == DOLLAR then Zeros(v) + CRLF
      else Fillers(v)
  }

  lemma {:induction false} BodyCompletes(t: Blob, p: nat, depth: nat)
    requires p < |t| && t[p] in {PLUS, MINUS, COLON, DOLLAR, STAR}
    requires t[p] == STAR ==> depth < MAX_ARRAY_DEPTH
    requires GetLine(t, p + 1).Ok? && BodyLack(t[p], GetLine(t, p + 1).value).Some?
    requires t[GetLine(t, p + 1).next..] == Body(t[p], GetLine(t, p + 1).value)
    ensures Check(t, p, depth) == Ok((), |t|) && Decode(t, p, depth).Ok?
  {
    var line := GetLine(t, p + 1);
    var body := t[line.next..];
    if t[p] == DOLLAR || t[p] == STAR {
      var v := DecodeDecimal(line.value).value;
      if t[p] == DOLLAR && v >= 0 {
        assert t[line.next + v] == body[v] && t[line.next + v + 1] == body[v + 1];
      } else if t[p] == STAR && v > 0 {
        FillersRead(t, line.next, depth + 1, v);
      }
    }
  }

  lemma {:induction false} LineCompletes(s: Blob, p: nat, depth: nat) returns (w: seq<byte>)
    requires p < |s| && s[p] in {PLUS, MINUS, COLON, DOLLAR, STAR}
    requires s[p] == STAR ==> depth < MAX_ARRAY_DEPTH
    requires GetLine(s, p + 1) == Err(Incomplete) && LineLack(s, p + 1, s[p]).Some?
    requires |s| + LineLack(s, p + 1, s[p]).value <= I64_MAX
    ensures |w| == LineLack(s, p + 1, s[p]).value
    ensures Check(s + w, p, depth) == Ok((), |s + w|) && Decode(s + w, p, depth).Ok?
  {
    hide Check, Decode, BodyLack, Body, ScanLine, LineLack, Closed, Held;
    HeldIsLine(s, p + 1);
    var more;
    more, w := RestOfLine(s, p + 1, s[p]);
    LineOfCompleted(s, p + 1, more, w, Body(s[p], Held(s, p + 1) + more));
    BodyCompletes(s + w, p, depth);
  }

  // The rest of a line and a shortest body after it.
  lemma {:induction false} RestOfLine(s: Blob, p: nat, marker: byte)
    returns (more: seq<byte>, w: seq<byte>)
    requires p <= |s| && LineLack(s, p, marker).Some?
    ensures |w| == LineLack(s, p, marker).value && OneLine(more)
    ensures BodyLack(marker, Held(s, p) + more).Some?
    ensures var body := Body(marker, Held(s, p) + more);
      if Closed(s, p) then more == [] && w == [LF] + body else w == more + CRLF + body
  {
    hide BodyLack, OpenLack, Body, Held;
    var held := Held(s, p);
    if Closed(s, p) {
      SameNumeral(held);
      more, w := [], [LF] + Body(marker, held);
    } else {
      more := OpenLineCompletes(marker, held);
      w := more + CRLF + Body(marker, held + more);
    }
  }

  lemma {:induction false} LineOfCompleted(s: Blob, p: nat, more: seq<byte>, w: seq<byte>, body: seq<byte>)
    requires p <= |s| && |s + w| <= I64_MAX && OneLine(Held(s, p)) && OneLine(more)
    requires if Closed(s, p) then more == [] && w == [LF] + body else w == more + CRLF + body
    ensures GetLine(s + w, p).Ok? && GetLine(s + w, p).value == Held(s, p) + more
    ensures (s + w)[GetLine(s + w, p).next..] == body
  {
    hide ScanLine;
    var t, held := s + w, Held(s, p);
    var next := p + |held| + |more| + 2;
    assert t == s[..p] + held + more + CRLF + body;
    assert t[p..next - 2] == held + more;
    assert t[next..] == body;
    GetLineExact(t, p, next);
  }

  lemma {:induction false} PayloadCompletes(s: Blob, p: nat, length: nat) returns (w: seq<byte>)
    requires p <= |s| < p + length + 2 <= I64_MAX && PayloadRest(s, p, length).Some?
    ensures |w| == PayloadRest(s, p, length).value
    ensures CheckBulk(s + w, p, length) == Ok((), |s + w|)
  {
    w := if |s| <= p + length then Zeros(p + length - |s|) + CRLF else [LF];
    var t := s + w;
    assert t[p + length] == CR && t[p + length + 1] == LF;
  }

  lemma {:induction false} LackSuffices(s: Blob, p: nat, depth: nat) returns (w: seq<byte>)
    requires p <= |s| && Check(s, p, depth) == Err(Incomplete) && Lack(s, p, depth).Some?
    requires |s| + Lack(s, p, depth).value <= I64_MAX
    ensures |w| == Lack(s, p, depth).value
    ensures Check(s + w, p, depth) == Ok((), |s + w|) && Decode(s + w, p, depth).Ok?
    decreases |s| - p, 0, 1
  {
    if p == |s| {
      w := NothingCompletes(s, depth);
    } else if GetLine(s, p + 1).Err? {
      w := LineCompletes(s, p, depth);
    } else {
      w := HeldHeaderCompletes(s, p, depth);
    }
  }

  lemma NothingCompletes(s: Blob, depth: nat) returns (w: seq<byte>)
    requires |s| + 3 <= I64_MAX
    ensures |w| == 3
    ensures Check(s + w, |s|, depth) == Ok((), |s + w|) && Decode(s + w, |s|, depth).Ok?
  {
    w := [PLUS, CR, LF];
    var t, p := s + w, |s|;
    assert t[p] == PLUS && t[p + 1] == CR && t[p + 2] == LF;
    GetLineExact(t, p + 1, p + 3);
  }

  lemma {:induction false} HeldHeaderCompletes(s: Blob, p: nat, depth: nat) returns (w: seq<byte>)
    requires p < |s| && Check(s, p, depth) == Err(Incomplete) && GetLine(s, p + 1).Ok?
    requires Lack(s, p, depth).Some? && |s| + Lack(s, p, depth).value <= I64_MAX
    ensures |w| == Lack(s, p, depth).value
    ensures Check(s + w, p, depth) == Ok((), |s + w|) && Decode(s + w, p, depth).Ok?
    decreases |s| - p, 0, 0
  {
    hide Decode;
    var header := GetDecimal(s, p + 1);
    if s[p] == DOLLAR {
      w := PayloadCompletes(s, header.next, header.value);
    } else {
      w := LackAllSuffices(s, header.next, depth + 1, header.value);
    }
    HeaderCompletes(s, s + w, p, depth);
  }

  lemma {:induction false} HeaderCompletes(s: Blob, t: Blob, p: nat, depth: nat)
    requires Extends(t, s) && p < |s| && GetLine(s, p + 1).Ok?
    requires Check(s, p, depth) == Err(Incomplete)
    requires var header := GetDecimal(s, p + 1);
      if s[p] == DOLLAR then CheckBulk(t, header.next, header.value) == Ok((), |t|)
      else
        && CheckAll(t, header.next, depth + 1, header.value) == Ok((), |t|)
        && DecodeAll(t, header.next, depth + 1, header.value).Ok?
    ensures Check(t, p, depth) == Ok((), |t|) && Decode(t, p, depth).Ok?
  {
    SharedByte(s, t, p);
    GetLineStable(s, t, p + 1);
    assert GetDecimal(t, p + 1) == GetDecimal(s, p + 1);
  }

  lemma {:induction false} FirstStays(s: Blob, t: Blob, p: nat, depth: nat)
    requires Extends(t, s) && p <= |s| && Check(s, p, depth).Ok?
    ensures Check(t, p, depth) == Check(s, p, depth) && Decode(t, p, depth) == Decode(s, p, depth)
  {
    CheckStable(s, t, p, depth);
    DecodeStable(s, t, p, depth);
  }

  lemma {:induction false} LackAllSuffices(s: Blob, p: nat, depth: nat, count: nat)
    returns (w: seq<byte>)
    requires p <= |s| && CheckAll(s, p, depth, count) == Err(Incomplete)
    requires LackAll(s, p, depth, count).Some? && |s| + LackAll(s, p, depth, count).value <= I64_MAX
    ensures |w| == LackAll(s, p, depth, count).value
    ensures CheckAll(s + w, p, depth, count) == Ok((), |s + w|)
    ensures DecodeAll(s + w, p, depth, count).Ok?
    decreases |s| - p, 1
  {
    hide Check, Decode, Fillers;
    if Check(s, p, depth).Ok? {
      w := LackAllSuffices(s, Check(s, p, depth).next, depth, count - 1);
      FirstStays(s, s + w, p, depth);
    } else {
      var first := LackSuffices(s, p, depth);
      w := first + Fillers(count - 1);
      var t, u := s + first, s + w;
      assert Extends(u, t) && u[|t|..] == Fillers(count - 1);
      FirstStays(t, u, p, depth);
      FillersRead(u, |t|, depth, count - 1);
    }
  }

  // --- Main results ---

  // The input is the beginning of some frame.
  predicate Viable(s: Blob)
    requires Parse(s, 0) == Err(Incomplete)
  {
    Lack(s, 0, 0).Some?
  }

  // An incomplete input can be completed within `limit` bytes if and only if it is viable and what
  // it lacks fits: the number of missing bytes is exact.
  lemma {:induction false} CompletableExactly(s: Blob, limit: nat)
    requires Parse(s, 0) == Err(Incomplete) && limit <= I64_MAX
    ensures (exists t: Blob :: Extends(t, s) && |t| <= limit && Parse(t, 0).Ok?)
       <==> Viable(s) && |s| + Lack(s, 0, 0).value <= limit
  {
    hide Check, Decode, Lack;
    assert Check(s, 0, 0) == Err(Incomplete);
    if t: Blob :| Extends(t, s) && |t| <= limit && Parse(t, 0).Ok? {
      LackNeeded(s, t, 0, 0);
    }
    if Viable(s) && |s| + Lack(s, 0, 0).value <= limit {
      var w := LackSuffices(s, 0, 0);
      assert Extends(s + w, s) && Parse(s + w, 0).Ok?;
    }
  }

  // The inputs "$abc", "$-2", "*5000" and ":a", a simple string with a byte that no character
  // contains, and an array whose first element is a malformed number: each is reported as incomplete
  // and none is the beginning of a frame.
  lemma {:induction false} HopelessInputs(s: Blob)
    requires s in {[DOLLAR, 97, 98, 99], [DOLLAR, MINUS, 50], [STAR, 53, 48, 48, 48], [COLON, 97],
                   [PLUS, 0xFF], [STAR, 50, CR, LF, COLON, 97, CR, LF]}
    ensures Parse(s, 0) == Err(Incomplete) && !Viable(s)
    ensures forall t: Blob :: Extends(t, s) ==> !Parse(t, 0).Ok?
  {
    if s[0] == STAR && s[1] == 50 {
      HopelessElement(s);
    } else {
      HopelessLine(s);
    }
    forall t: Blob | Extends(t, s) ensures !Parse(t, 0).Ok? {
      CompletableExactly(s, |t|);
    }
  }

  lemma {:induction false} HopelessLine(s: Blob)
    requires s in {[DOLLAR, 97, 98, 99], [DOLLAR, MINUS, 50], [STAR, 53, 48, 48, 48], [COLON, 97],
                   [PLUS, 0xFF]}
    ensures Parse(s, 0) == Err(Incomplete) && !Viable(s)
  {
    var line := s[1..];
    ScanLineExact(s, 1, |s|);
    assert Held(s, 1) == line;
    if s[0] == STAR {
      assert line[1..] == [48, 48, 48] && [48, 48, 48][1..] == [48, 48] && [48, 48][1..] == [48];
      assert Accumulate(1, 500, [48]) == Value(5000);
      assert Accumulate(1, 50, [48, 48]) == Value(5000);
      assert DecodeDecimal(line) == Value(5000);
    } else if s[1] == MINUS {
      assert line[1..] == [50] && Accumulate(-1, 0, [50]) == Value(-2);
      assert DecodeDecimal(line) == Value(-2);
    }
  }

  lemma {:induction false} HopelessElement(s: Blob)
    requires s == [STAR, 50, CR, LF, COLON, 97, CR, LF]
    ensures Parse(s, 0) == Err(Incomplete) && !Viable(s)
  {
    GetLineExact(s, 1, 4);
    assert GetLine(s, 1).value == [50] && DecodeDecimal([50]) == Value(2);
    GetLineExact(s, 5, 8);
    assert GetLine(s, 5).value == [97];
    assert Check(s, 4, 1) == Ok((), 8) && Check(s, 8, 1) == Err(Incomplete);
    assert CheckAll(s, 8, 1, 1) == Err(Incomplete);
    assert CheckAll(s, 4, 1, 2) == Err(Incomplete);
    assert LackAll(s, 4, 1, 2) == None;
  }
}

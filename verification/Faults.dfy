/** Which fault the parser reports for which bytes (src/frame.rs). Like the wire format, the relations
    here do not mention the parser. */
module Faults {
  import opened Bytes
  import opened Config
  import opened Decimals
  import opened Frames
  import opened FrameSpec
  import opened Grammar
  import opened Sessions

  // --- What is wrong with a line ---

  // The first line break from `p` on is at `e`, and it is not a CRLF.
  predicate BrokenLine(s: seq<byte>, p: nat, e: nat, fault: Fault) {
    && p <= e < |s| && OneLine(s[p..e])
    && match fault
       case BareLineFeed => s[e] == LF
       case BareCarriageReturn => s[e] == CR && e + 1 < |s| && s[e + 1] != LF
       case _ => false
  }

  // The line is not a decimal field, for this reason.
  predicate BadNumber(line: seq<byte>, fault: Fault) {
    match fault
    case EmptyDecimal => line == []
    case IntegerOverflow => line != [] && !InI64(ReachedValue(line))
    case InvalidDecimal => line != [] && InI64(ReachedValue(line)) && !IsNumeral(line)
    case _ => false
  }

  ghost predicate BadLine(s: seq<byte>, p: nat, fault: Fault) {
    exists e :: BrokenLine(s, p, e, fault)
  }

  // A line from `p` on that ends just before `next` and is not a decimal field.
  predicate BadNumberAt(s: seq<byte>, p: nat, next: nat, fault: Fault) {
    LineAt(s, p, next - 2) && BadNumber(s[p..next - 2], fault)
  }

  ghost predicate BadNumberLine(s: seq<byte>, p: nat, fault: Fault) {
    exists next: nat :: BadNumberAt(s, p, next, fault)
  }

  ghost predicate BadField(s: seq<byte>, p: nat, fault: Fault) {
    BadLine(s, p, fault) || BadNumberLine(s, p, fault)
  }

  ghost predicate BadTextLine(s: seq<byte>, p: nat) {
    exists e: nat :: LineAt(s, p, e) && !Utf8(s[p..e])
  }

  lemma {:induction false} BrokenLineExact(s: seq<byte>, p: nat, fault: Fault)
    requires p <= |s|
    ensures ScanLine(s, p) == Err(Other(fault)) <==> BadLine(s, p, fault)
  {
    if e :| BrokenLine(s, p, e, fault) {
      ScanLineExact(s, p, e);
    }
    if ScanLine(s, p) == Err(Other(fault)) {
      var e := FirstBreak(s, p, fault);
      assert BrokenLine(s, p, e, fault);
    }
  }

  lemma {:induction false} FirstBreak(s: seq<byte>, p: nat, fault: Fault) returns (e: nat)
    requires p <= |s| && ScanLine(s, p) == Err(Other(fault))
    ensures BrokenLine(s, p, e, fault)
    decreases |s| - p
  {
    if s[p] == LF || s[p] == CR {
      e := p;
    } else {
      e := FirstBreak(s, p + 1, fault);
      assert s[p..e] == [s[p]] + s[p + 1..e];
    }
  }

  lemma {:induction false} BadNumberLineExact(s: Blob, p: nat, fault: Fault)
    requires p <= |s|
    ensures BadNumberLine(s, p, fault)
       <==> GetLine(s, p).Ok? && BadNumber(GetLine(s, p).value, fault)
  {
    hide LineAt, BadNumber, ScanLine;
    if GetLine(s, p).Ok? {
      GetLineExact(s, p, GetLine(s, p).next);
      assert BadNumber(GetLine(s, p).value, fault) ==>
          BadNumberAt(s, p, GetLine(s, p).next, fault);
    }
    if next: nat :| BadNumberAt(s, p, next, fault) {
      GetLineExact(s, p, next);
    }
  }

  lemma {:induction false} BadFieldExact(s: Blob, p: nat, fault: Fault)
    requires p <= |s|
    ensures GetLine(s, p) == Err(Other(fault)) <==> BadLine(s, p, fault)
    ensures GetDecimal(s, p) == Err(Other(fault)) <==> BadField(s, p, fault)
  {
    hide BadLine, BadNumberLine, BadNumber, ScanLine, DecodeDecimal;
    BrokenLineExact(s, p, fault);
    BadNumberLineExact(s, p, fault);
    if GetLine(s, p).Ok? {
      BadNumberExact(GetLine(s, p).value, fault);
    }
  }

  lemma {:induction false} BadNumberExact(line: seq<byte>, fault: Fault)
    ensures DecodeDecimal(line) == Bad(fault) <==> BadNumber(line, fault)
  {
    DecodeDecimalFaultExact(line);
  }

  // --- The structure of a frame ---

  // After the marker at `p`, a length field up to `next`, then that many bytes and a CRLF up to `q`.
  predicate PayloadAt(s: Blob, p: nat, next: nat, length: nat, q: nat) {
    && Field(s, p + 1, next, length)
    && next + length + 2 == q <= |s|
    && s[q - 2] == CR && s[q - 1] == LF
  }

  // After the marker at `p`, a count field up to `next` that an array may have.
  predicate CountAt(s: Blob, p: nat, next: nat, count: nat) {
    Field(s, p + 1, next, count) && count < ARRAY_LENGTH_LIMIT_EXCLUSIVE
  }

  // The bytes `s[p..q]` have the structure of a frame inside `depth` arrays, whatever the content of
  // their lines.
  ghost predicate Framed(s: Blob, p: nat, q: nat, depth: nat)
    decreases |s| - p, 0
  {
    && p < q <= |s|
    && if s[p] == PLUS || s[p] == MINUS || s[p] == COLON then LineAt(s, p + 1, q - 2)
       else if s[p] == DOLLAR then
         || Field(s, p + 1, q, -1)
         || exists next: nat, length: nat :: PayloadAt(s, p, next, length, q)
       else
         && s[p] == STAR && depth < MAX_ARRAY_DEPTH
         && (|| Field(s, p + 1, q, -1)
             || exists next: nat, count: nat ::
                  CountAt(s, p, next, count) && FramedAll(s, next, q, depth + 1, count))
  }

  // The bytes `s[p..q]` have the structure of `count` frames in a row.
  ghost predicate FramedAll(s: Blob, p: nat, q: nat, depth: nat, count: nat)
    decreases |s| - p, 1
  {
    if count == 0 then p == q
    else
      exists m: nat :: p < m <= |s| && Framed(s, p, m, depth) && FramedAll(s, m, q, depth, count - 1)
  }

  // --- The first fault in the structure ---

  predicate BadPayload(s: Blob, p: nat, next: nat, length: int, fault: Fault) {
    && Field(s, p + 1, next, length)
    && match fault
       case BadBulkLength => length < -1
       case BadBulkTerminator =>
         && length >= 0 && next + length + 2 <= |s|
         && !(s[next + length] == CR && s[next + length + 1] == LF)
       case _ => false
  }

  predicate BadCount(s: Blob, p: nat, next: nat, count: int, fault: Fault) {
    Field(s, p + 1, next, count) && (count < -1 || count >= 1024) && fault == BadArrayLength
  }

  // The first thing wrong with the structure of the frame at `p`.
  ghost predicate Misshapen(s: Blob, p: nat, depth: nat, fault: Fault)
    decreases |s| - p, 0
  {
    && p < |s|
    && if s[p] == PLUS || s[p] == MINUS || s[p] == COLON then BadLine(s, p + 1, fault)
       else if s[p] == DOLLAR then
         || BadField(s, p + 1, fault)
         || exists next: nat, length :: BadPayload(s, p, next, length, fault)
       else if s[p] == STAR then
         if depth >= 32 then fault == TooDeep
         else
           || BadField(s, p + 1, fault)
           || (exists next: nat, count :: BadCount(s, p, next, count, fault))
           || exists next: nat, count: nat ::
                CountAt(s, p, next, count) && MisshapenAll(s, next, depth + 1, count, fault)
       else fault == UnknownMarker
  }

  // The first thing wrong with the structure of `count` frames in a row.
  ghost predicate MisshapenAll(s: Blob, p: nat, depth: nat, count: nat, fault: Fault)
    decreases |s| - p, 1
  {
    && count > 0
    && (|| Misshapen(s, p, depth, fault)
        || exists m: nat ::
             p < m <= |s| && Framed(s, p, m, depth) && MisshapenAll(s, m, depth, count - 1, fault))
  }

  // --- The first pass finds exactly these ---

  // A decimal field is what is read there.
  lemma FieldIsRead(s: Blob, p: nat, next: nat, v: int)
    requires p <= |s|
    ensures Field(s, p, next, v) <==> InI64(v) && GetDecimal(s, p) == Ok(v, next)
  {
    if InI64(v) {
      GetDecimalExact(s, p, next, v);
    }
  }

  lemma {:induction false} LineChecked(s: Blob, p: nat, q: nat, depth: nat, fault: Fault)
    requires p < |s| && s[p] in {PLUS, MINUS, COLON}
    ensures Framed(s, p, q, depth) <==> Check(s, p, depth) == Ok((), q)
    ensures Misshapen(s, p, depth, fault) <==> Check(s, p, depth) == Err(Other(fault))
  {
    GetLineExact(s, p + 1, q);
    BadFieldExact(s, p + 1, fault);
  }

  lemma {:induction false} BulkFramed(s: Blob, p: nat, q: nat, depth: nat)
    requires p < |s| && s[p] == DOLLAR
    ensures Framed(s, p, q, depth) <==> Check(s, p, depth) == Ok((), q)
  {
    hide Field, GetDecimal;
    FieldIsRead(s, p + 1, q, -1);
    var header := GetDecimal(s, p + 1);
    if header.Ok? && header.value >= 0 {
      FieldIsRead(s, p + 1, header.next, header.value);
      assert Check(s, p, depth) == Ok((), q) ==>
          PayloadAt(s, p, header.next, header.value, q);
    }
    if next: nat, length: nat :| PayloadAt(s, p, next, length, q) {
      FieldIsRead(s, p + 1, next, length);
    }
  }

  lemma {:induction false} BulkMisshapen(s: Blob, p: nat, depth: nat, fault: Fault)
    requires p < |s| && s[p] == DOLLAR
    ensures Misshapen(s, p, depth, fault) <==> Check(s, p, depth) == Err(Other(fault))
  {
    hide Field, GetDecimal, BadField;
    BadFieldExact(s, p + 1, fault);
    var header := GetDecimal(s, p + 1);
    if header.Ok? {
      FieldIsRead(s, p + 1, header.next, header.value);
      assert Check(s, p, depth) == Err(Other(fault)) ==>
          BadPayload(s, p, header.next, header.value, fault);
    }
    if next: nat, length :| BadPayload(s, p, next, length, fault) {
      FieldIsRead(s, p + 1, next, length);
    }
  }

  lemma NoneChecked(s: Blob, p: nat, depth: nat)
    requires p <= |s|
    ensures CheckAll(s, p, depth, 0) == Ok((), p)
  {
  }

  lemma {:induction false} ArrayFramed(s: Blob, p: nat, q: nat, depth: nat)
    requires p < |s| && s[p] == STAR
    requires var header := GetDecimal(s, p + 1);
      depth < MAX_ARRAY_DEPTH && header.Ok? && header.value >= 0 ==>
        (FramedAll(s, header.next, q, depth + 1, header.value)
         <==> CheckAll(s, header.next, depth + 1, header.value) == Ok((), q))
    ensures Framed(s, p, q, depth) <==> Check(s, p, depth) == Ok((), q)
  {
    hide FramedAll, CheckAll, Field, GetDecimal;
    FieldIsRead(s, p + 1, q, -1);
    var header := GetDecimal(s, p + 1);
    if header.Ok? {
      FieldIsRead(s, p + 1, header.next, header.value);
      NoneChecked(s, header.next, depth + 1);
      if 0 <= header.value < ARRAY_LENGTH_LIMIT_EXCLUSIVE {
        assert CountAt(s, p, header.next, header.value);
      }
    }
    if next: nat, count: nat :|
        CountAt(s, p, next, count) && FramedAll(s, next, q, depth + 1, count) {
      FieldIsRead(s, p + 1, next, count);
    }
  }

  lemma {:induction false} ArrayMisshapen(s: Blob, p: nat, depth: nat, fault: Fault)
    requires p < |s| && s[p] == STAR
    requires var header := GetDecimal(s, p + 1);
      depth < MAX_ARRAY_DEPTH && header.Ok? && header.value >= 0 ==>
        (MisshapenAll(s, header.next, depth + 1, header.value, fault)
         <==> CheckAll(s, header.next, depth + 1, header.value) == Err(Other(fault)))
    ensures Misshapen(s, p, depth, fault) <==> Check(s, p, depth) == Err(Other(fault))
  {
    hide MisshapenAll, CheckAll, Field, GetDecimal, BadField;
    BadFieldExact(s, p + 1, fault);
    var header := GetDecimal(s, p + 1);
    if header.Ok? {
      FieldIsRead(s, p + 1, header.next, header.value);
      NoneChecked(s, header.next, depth + 1);
      if 0 <= header.value < ARRAY_LENGTH_LIMIT_EXCLUSIVE {
        assert CountAt(s, p, header.next, header.value);
      } else if header.value != -1 {
        assert BadCount(s, p, header.next, header.value, BadArrayLength);
      }
    }
    if next: nat, count :| BadCount(s, p, next, count, fault) {
      FieldIsRead(s, p + 1, next, count);
    }
    if next: nat, count: nat :|
        CountAt(s, p, next, count) && MisshapenAll(s, next, depth + 1, count, fault) {
      FieldIsRead(s, p + 1, next, count);
    }
  }

  // The first pass accepts exactly the bytes with the structure of a frame, and reports exactly the
  // first thing wrong with the others.
  lemma {:induction false} CheckExact(s: Blob, p: nat, depth: nat, q: nat, fault: Fault)
    requires p <= |s|
    ensures Framed(s, p, q, depth) <==> Check(s, p, depth) == Ok((), q)
    ensures Misshapen(s, p, depth, fault) <==> Check(s, p, depth) == Err(Other(fault))
    decreases |s| - p, 0
  {
    if p < |s| && s[p] == STAR {
      var header := GetDecimal(s, p + 1);
      if header.Ok? && header.value >= 0 {
        CheckAllExact(s, header.next, depth + 1, header.value, q, fault);
      }
      ArrayFramed(s, p, q, depth);
      ArrayMisshapen(s, p, depth, fault);
    } else if p < |s| && s[p] == DOLLAR {
      BulkFramed(s, p, q, depth);
      BulkMisshapen(s, p, depth, fault);
    } else if p < |s| && s[p] in {PLUS, MINUS, COLON} {
      LineChecked(s, p, q, depth, fault);
    }
  }

  lemma {:induction false} CheckAllExact(s: Blob, p: nat, depth: nat, count: nat, q: nat, fault: Fault)
    requires p <= |s|
    ensures FramedAll(s, p, q, depth, count) <==> CheckAll(s, p, depth, count) == Ok((), q)
    ensures MisshapenAll(s, p, depth, count, fault)
       <==> CheckAll(s, p, depth, count) == Err(Other(fault))
    decreases |s| - p, 1
  {
    hide Check, Framed, Misshapen;
    if count > 0 {
      var first := Check(s, p, depth);
      CheckExact(s, p, depth, q, fault);
      forall m: nat ensures Framed(s, p, m, depth) <==> first == Ok((), m) {
        CheckExact(s, p, depth, m, fault);
      }
      if first.Ok? {
        CheckAllExact(s, first.next, depth, count - 1, q, fault);
        assert first.value == ();
        assert Framed(s, p, first.next, depth);
      }
      assert FramedAll(s, p, q, depth, count) <==> CheckAll(s, p, depth, count) == Ok((), q);
    }
  }

  // --- The first fault in the content ---

  ghost predicate Ill(s: Blob, p: nat, depth: nat, fault: Fault)
    decreases |s| - p, 0
  {
    && p < |s|
    && if s[p] == PLUS || s[p] == MINUS then
         && fault == InvalidUtf8
         && BadTextLine(s, p + 1)
       else if s[p] == COLON then BadNumberLine(s, p + 1, fault)
       else
         && s[p] == STAR
         && exists next: nat, count: nat ::
              CountAt(s, p, next, count) && IllAll(s, next, depth + 1, count, fault)
  }

  // Everything before the fault is spelled right.
  ghost predicate IllAll(s: Blob, p: nat, depth: nat, count: nat, fault: Fault)
    decreases |s| - p, 1
  {
    && count > 0
    && (|| Ill(s, p, depth, fault)
        || exists m: nat, f ::
             p < m <= |s| && Wire(s, p, m, depth, f) && IllAll(s, m, depth, count - 1, fault))
  }

  lemma {:induction false} TextIll(s: Blob, p: nat, depth: nat, fault: Fault)
    requires p < |s| && s[p] in {PLUS, MINUS} && Check(s, p, depth).Ok?
    ensures Ill(s, p, depth, fault) <==> Decode(s, p, depth) == Err(Other(fault))
  {
    hide Utf8, LineAt, ScanLine;
    BadTextLineExact(s, p + 1);
  }

  lemma {:induction false} BadTextLineExact(s: Blob, p: nat)
    requires p <= |s|
    ensures BadTextLine(s, p) <==> GetLine(s, p).Ok? && !Utf8(GetLine(s, p).value)
  {
    hide Utf8, ScanLine;
    if GetLine(s, p).Ok? {
      var e := GetLine(s, p).next - 2;
      GetLineExact(s, p, e + 2);
      assert !Utf8(GetLine(s, p).value) ==> LineAt(s, p, e) && !Utf8(s[p..e]);
    }
    if e: nat :| LineAt(s, p, e) && !Utf8(s[p..e]) {
      GetLineExact(s, p, e + 2);
    }
  }

  lemma {:induction false} NumberIll(s: Blob, p: nat, depth: nat, fault: Fault)
    requires p < |s| && s[p] == COLON && Check(s, p, depth).Ok?
    ensures Ill(s, p, depth, fault) <==> Decode(s, p, depth) == Err(Other(fault))
  {
    hide BadNumberLine, BadNumber, ScanLine;
    BadNumberLineExact(s, p + 1, fault);
    BadNumberExact(GetLine(s, p + 1).value, fault);
  }

  lemma {:induction false} ArrayIll(s: Blob, p: nat, depth: nat, fault: Fault)
    requires p < |s| && s[p] == STAR && Check(s, p, depth).Ok?
    requires var header := GetDecimal(s, p + 1);
      header.value >= 0 ==>
        (IllAll(s, header.next, depth + 1, header.value, fault)
         <==> DecodeAll(s, header.next, depth + 1, header.value) == Err(Other(fault)))
    ensures Ill(s, p, depth, fault) <==> Decode(s, p, depth) == Err(Other(fault))
  {
    hide IllAll, DecodeAll, Field, GetDecimal;
    var header := GetDecimal(s, p + 1);
    FieldIsRead(s, p + 1, header.next, header.value);
    if header.value >= 0 {
      assert CountAt(s, p, header.next, header.value);
    }
    if next: nat, count: nat :|
        CountAt(s, p, next, count) && IllAll(s, next, depth + 1, count, fault) {
      FieldIsRead(s, p + 1, next, count);
    }
  }

  // The second pass reports exactly the first fault in the content.
  lemma {:induction false} DecodeFaultExact(s: Blob, p: nat, depth: nat, fault: Fault)
    requires p <= |s| && Check(s, p, depth).Ok?
    ensures Ill(s, p, depth, fault) <==> Decode(s, p, depth) == Err(Other(fault))
    decreases |s| - p, 0
  {
    hide Ill, Utf8, Decode;
    if s[p] == STAR {
      var header := GetDecimal(s, p + 1);
      if header.value >= 0 {
        DecodeAllFaultExact(s, header.next, depth + 1, header.value, fault);
      }
      ArrayIll(s, p, depth, fault);
    } else if s[p] == COLON {
      NumberIll(s, p, depth, fault);
    } else if s[p] == DOLLAR {
      BulkNotIll(s, p, depth, fault);
    } else {
      TextIll(s, p, depth, fault);
    }
  }

  lemma BulkNotIll(s: Blob, p: nat, depth: nat, fault: Fault)
    requires p < |s| && s[p] == DOLLAR && Check(s, p, depth).Ok?
    ensures !Ill(s, p, depth, fault) && Decode(s, p, depth).Ok?
  {
  }

  lemma {:induction false} DecodeAllFaultExact(s: Blob, p: nat, depth: nat, count: nat, fault: Fault)
    requires p <= |s| && CheckAll(s, p, depth, count).Ok?
    ensures IllAll(s, p, depth, count, fault) <==> DecodeAll(s, p, depth, count) == Err(Other(fault))
    decreases |s| - p, 1
  {
    hide Check, Decode, Wire, Ill;
    if count > 0 {
      var m := Check(s, p, depth).next;
      DecodeFaultExact(s, p, depth, fault);
      DecodeAllFaultExact(s, m, depth, count - 1, fault);
      if Decode(s, p, depth).Ok? {
        DecodeSound(s, p, depth);
        assert Wire(s, p, m, depth, Decode(s, p, depth).value);
      }
      forall n: nat, f | Wire(s, p, n, depth, f)
        ensures Check(s, p, depth) == Ok((), n) && Decode(s, p, depth).Ok?
      {
        WireDecodes(s, p, n, depth, f);
      }
    }
  }

  // --- Main results ---

  // The parser must report this fault for the bytes from `p` on: the first fault in the structure
  // of the whole frame, or, if there is none, the first fault in the content of its lines.
  ghost predicate Faulty(s: Blob, p: nat, fault: Fault) {
    || Misshapen(s, p, 0, fault)
    || ((exists q :: Framed(s, p, q, 0)) && Ill(s, p, 0, fault))
  }

  // A fault is reported if and only if it is the one that the bytes have.
  lemma {:induction false} FaultExact(s: Blob, p: nat, fault: Fault)
    requires p <= |s|
    ensures FrameSpec.Parse(s, p) == Err(Other(fault)) <==> Faulty(s, p, fault)
  {
    hide Check, Decode, Framed, Misshapen, Ill;
    var checked := Check(s, p, 0);
    CheckExact(s, p, 0, p, fault);
    if checked.Ok? {
      assert checked.value == ();
      CheckExact(s, p, 0, checked.next, fault);
      DecodeFaultExact(s, p, 0, fault);
    }
    if q :| Framed(s, p, q, 0) {
      CheckExact(s, p, 0, q, fault);
    }
  }

  // The structure of a frame is neither complete nor wrong so far.
  ghost predicate Unfinished(s: Blob, p: nat) {
    (forall q :: !Framed(s, p, q, 0)) && forall fault :: !Misshapen(s, p, 0, fault)
  }

  // More input is asked for if and only if the structure is unfinished.
  lemma {:induction false} IncompleteExact(s: Blob, p: nat)
    requires p <= |s|
    ensures FrameSpec.Parse(s, p) == Err(Incomplete) <==> Unfinished(s, p)
  {
    hide Check, Decode, Framed, Misshapen;
    var checked := Check(s, p, 0);
    forall q: nat ensures Framed(s, p, q, 0) <==> checked == Ok((), q) {
      CheckExact(s, p, 0, q, UnknownMarker);
    }
    forall fault ensures Misshapen(s, p, 0, fault) <==> checked == Err(Other(fault)) {
      CheckExact(s, p, 0, p, fault);
    }
    if checked.Ok? {
      assert checked.value == ();
      assert Framed(s, p, checked.next, 0);
    } else if checked.error.Other? {
      assert Misshapen(s, p, 0, checked.error.fault);
    }
  }

  // What a reader finds at the front of its input, in terms of the first 65536 bytes alone.
  lemma {:induction false} NextExact(pending: seq<byte>, w: Blob, f: Frame, n: nat, fault: Fault)
    requires w == if |pending| <= 65536 then pending else pending[..65536]
    ensures Next(pending) == FrameItem(f, n) <==> Wire(w, 0, n, 0, f)
    ensures Next(pending) == Broken(Malformed(fault)) <==> Faulty(w, 0, fault)
    ensures Next(pending) == AtEof <==> pending == []
    ensures Next(pending) == Broken(Truncated) <==> Unfinished(w, 0) && 0 < |pending| < 65536
    ensures Next(pending) == Broken(OverLimit) <==> Unfinished(w, 0) && |pending| >= 65536
  {
    hide Wire, Faulty, Unfinished, FrameSpec.Parse;
    ParseExact(w, 0, n, f);
    FaultExact(w, 0, fault);
    IncompleteExact(w, 0);
    if pending == [] {
      NothingIsIncomplete();
    }
  }

  lemma NothingIsIncomplete()
    ensures FrameSpec.Parse([], 0) == Err(Incomplete)
  {
  }

  // The texts that clients are told.
  lemma FaultTexts()
    ensures EmptyDecimal.Text() == "Empty decimal field"
    ensures InvalidDecimal.Text() == "Invalid decimal " + "integer"
    ensures IntegerOverflow.Text() == "Integer overflow"
    ensures BareLineFeed.Text() == "Bare line feed " + "in line"
    ensures BareCarriageReturn.Text() == "Carriage return " + "is not followed " + "by line feed"
    ensures BadBulkTerminator.Text() == "Invalid bulk " + "string terminator"
    ensures BadBulkLength.Text() == "Invalid bulk " + "string length"
    ensures TooDeep.Text() == "Array nesting " + "depth exceeds " + "the supported " + "limit"
    ensures BadArrayLength.Text() == "Array length is " + "outside the " + "supported range"
    ensures UnknownMarker.Text() == "Invalid frame " + "type marker"
    ensures InvalidUtf8.Text() == "Invalid UTF-8"
  {
  }
}

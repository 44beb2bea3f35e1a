/** When printing a frame restores the very bytes it was read from (src/frame.rs, src/connection.rs). */
module NormalForms {
  import opened Bytes
  import opened Config
  import opened Decimals
  import opened Encoding
  import opened Frames
  import opened FrameSpec
  import opened Grammar
  import opened Sequences

  // --- Numerals ---

  // No superfluous leading zero and no negative zero.
  predicate Plain(line: seq<byte>) {
    if line != [] && line[0] == MINUS then |line| > 1 && line[1] != ZERO
    else |line| == 1 || (line != [] && line[0] != ZERO)
  }

  lemma {:induction false} LeadingDigit(ds: seq<byte>)
    requires ds != [] && AllDigits(ds) && ds[0] != ZERO
    ensures DigitsValue(ds) > 0
  {
    if |ds| > 1 {
      LeadingDigit(ds[..|ds| - 1]);
    }
  }

  lemma {:induction false} DigitsPrintBack(ds: seq<byte>)
    requires AllDigits(ds) && (|ds| == 1 || (ds != [] && ds[0] != ZERO))
    ensures DigitsText(DigitsValue(ds)) == ds
  {
    if |ds| > 1 {
      LeadingDigit(ds[..|ds| - 1]);
      DigitsPrintBack(ds[..|ds| - 1]);
    } else {
      assert ds[..0] == [];
    }
  }

  lemma {:induction false} PrintedDigitsArePlain(n: nat)
    ensures DigitsText(n)[0] == ZERO <==> n == 0
    ensures n == 0 ==> |DigitsText(n)| == 1
  {
    if n >= 10 {
      PrintedDigitsArePlain(n / 10);
    }
  }

  // A numeral is plain if and only if it is the printed form of its value.
  lemma {:induction false} PlainExact(line: seq<byte>)
    requires IsNumeral(line)
    ensures Plain(line) <==> line == IntegerText(NumeralValue(line))
  {
    var v := NumeralValue(line);
    PrintedDigitsArePlain(if v < 0 then 0 - v else v);
    if Plain(line) {
      if line[0] == MINUS {
        LeadingDigit(line[1..]);
        DigitsPrintBack(line[1..]);
        assert line == [MINUS] + line[1..];
      } else {
        DigitsPrintBack(line);
      }
    }
  }

  // --- Frames ---

  // Every decimal field is plain, and null is not spelled as an array.
  predicate Canonical(s: Blob, p: nat, depth: nat)
    requires p <= |s| && Check(s, p, depth).Ok?
    decreases |s| - p, 0
  {
    if s[p] == PLUS || s[p] == MINUS then true
    else
      && Plain(GetLine(s, p + 1).value)
      && (s[p] == STAR ==>
            var header := GetDecimal(s, p + 1);
            header.value != -1 && CanonicalAll(s, header.next, depth + 1, header.value))
  }

  predicate CanonicalAll(s: Blob, p: nat, depth: nat, count: nat)
    requires p <= |s| && CheckAll(s, p, depth, count).Ok?
    decreases |s| - p, 1
  {
    count == 0
    || (Canonical(s, p, depth) && CanonicalAll(s, Check(s, p, depth).next, depth, count - 1))
  }

  // The printed frame is what was read.
  predicate Restored(s: Blob, p: nat, depth: nat)
    requires p <= |s| && Check(s, p, depth).Ok? && Decode(s, p, depth).Ok?
  {
    s[p..Check(s, p, depth).next] == Encode(Decode(s, p, depth).value)
  }

  predicate RestoredAll(s: Blob, p: nat, depth: nat, count: nat)
    requires p <= |s| && CheckAll(s, p, depth, count).Ok? && DecodeAll(s, p, depth, count).Ok?
  {
    s[p..CheckAll(s, p, depth, count).next] == EncodeAll(DecodeAll(s, p, depth, count).value)
  }

  // Parts that are no longer than the bytes they stand for make up the whole only if each agrees.
  lemma PartsAgree(s: seq<byte>, p: nat, m: nat, q: nat, a: seq<byte>, b: seq<byte>)
    requires p <= m <= q <= |s| && |a| <= m - p && |b| <= q - m
    ensures s[p..q] == a + b <==> s[p..m] == a && s[m..q] == b
  {
    assert s[p..q] == s[p..m] + s[m..q];
    if s[p..q] == a + b {
      assert a == (a + b)[..|a|] == s[p..q][..|a|];
      assert b == (a + b)[|a|..] == s[p..q][|a|..];
    }
  }

  function Header(marker: byte, line: seq<byte>): seq<byte> {
    [marker] + line + CRLF
  }

  lemma SameHeader(marker: byte, marker': byte, line: seq<byte>, line': seq<byte>)
    ensures Header(marker, line) == Header(marker', line') <==> marker == marker' && line == line'
  {
    var a, b := Header(marker, line), Header(marker', line');
    if a == b {
      assert line == a[1..|a| - 2] && line' == b[1..|b| - 2];
      assert a[0] == marker && b[0] == marker';
    }
  }

  lemma HeaderBytes(s: Blob, p: nat)
    requires p < |s| && GetLine(s, p + 1).Ok?
    ensures s[p..GetLine(s, p + 1).next] == Header(s[p], GetLine(s, p + 1).value)
  {
    ScanLineSound(s, p + 1);
  }

  // The field after the marker is printed back if and only if it is plain.
  lemma {:induction false} FieldRestored(line: seq<byte>)
    requires DecodeDecimal(line).Value?
    ensures Plain(line) <==> line == IntegerText(DecodeDecimal(line).value)
    ensures |IntegerText(DecodeDecimal(line).value)| <= |line|
  {
    DecodeDecimalExact(line, DecodeDecimal(line).value);
    PlainExact(line);
    PrintedIntegerShortest(line);
  }

  lemma {:induction false} LineRestored(s: Blob, p: nat, depth: nat)
    requires p < |s| && s[p] in {PLUS, MINUS, COLON}
    requires Check(s, p, depth).Ok? && Decode(s, p, depth).Ok?
    ensures Restored(s, p, depth) <==> Canonical(s, p, depth)
  {
    var line := GetLine(s, p + 1).value;
    HeaderBytes(s, p);
    if s[p] == COLON {
      FieldRestored(line);
      SameHeader(COLON, COLON, line, IntegerText(DecodeDecimal(line).value));
    }
  }

  lemma {:induction false} BulkRestored(s: Blob, p: nat, depth: nat)
    requires p < |s| && s[p] == DOLLAR && Check(s, p, depth).Ok?
    ensures Restored(s, p, depth) <==> Canonical(s, p, depth)
  {
    var line, header := GetLine(s, p + 1).value, GetDecimal(s, p + 1);
    var text := IntegerText(header.value);
    HeaderBytes(s, p);
    FieldRestored(line);
    SameHeader(DOLLAR, DOLLAR, line, text);
    if header.value >= 0 {
      PayloadRestored(s, p, header.next, Check(s, p, depth).next, line, text);
    }
  }

  lemma {:induction false} PayloadRestored(s: Blob, p: nat, next: nat, q: nat, line: seq<byte>,
                                           text: seq<byte>)
    requires p <= next <= q - 2 < q <= |s| && |text| <= |line|
    requires s[p..next] == Header(DOLLAR, line)
    requires s[q - 2] == CR && s[q - 1] == LF
    ensures s[p..q] == [DOLLAR] + text + CRLF + s[next..q - 2] + CRLF <==> line == text
  {
    hide Header;
    var bytes := s[next..q - 2];
    assert s[next..q] == bytes + CRLF;
    HeaderLength(DOLLAR, line);
    HeaderLength(DOLLAR, text);
    Associate(Header(DOLLAR, text), bytes, CRLF);
    SameHeader(DOLLAR, DOLLAR, line, text);
    PartsAgree(s, p, next, q, Header(DOLLAR, text), bytes + CRLF);
  }

  lemma HeaderLength(marker: byte, line: seq<byte>)
    ensures |Header(marker, line)| == |line| + 3
    ensures Header(marker, line) == [marker] + line + CRLF
  {
  }

  lemma {:induction false} NullArrayNotRestored(s: Blob, p: nat, depth: nat)
    requires p < |s| && s[p] == STAR && Check(s, p, depth).Ok?
    requires GetDecimal(s, p + 1).value == -1
    ensures !Restored(s, p, depth)
  {
    assert s[p..Check(s, p, depth).next][0] == STAR;
    assert Encode(Null)[0] == DOLLAR;
  }

  lemma {:induction false} ElementsOf(s: Blob, p: nat, depth: nat)
    requires p < |s| && s[p] == STAR && Check(s, p, depth).Ok? && Decode(s, p, depth).Ok?
    requires GetDecimal(s, p + 1).value >= 0
    ensures depth < MAX_ARRAY_DEPTH
    ensures var header := GetDecimal(s, p + 1);
      && CheckAll(s, header.next, depth + 1, header.value) == Check(s, p, depth)
      && DecodeAll(s, header.next, depth + 1, header.value).Ok?
      && Decode(s, p, depth).value
           == Array(DecodeAll(s, header.next, depth + 1, header.value).value)
  {
  }

  lemma {:induction false} ElementsFit(s: Blob, p: nat, depth: nat)
    requires p < |s| && s[p] == STAR && Check(s, p, depth).Ok? && Decode(s, p, depth).Ok?
    requires GetDecimal(s, p + 1).value >= 0
    ensures var header := GetDecimal(s, p + 1);
      && CheckAll(s, header.next, depth + 1, header.value) == Check(s, p, depth)
      && DecodeAll(s, header.next, depth + 1, header.value).Ok?
      && Decode(s, p, depth).value
           == Array(DecodeAll(s, header.next, depth + 1, header.value).value)
      && |EncodeAll(Decode(s, p, depth).value.elements)| <= Check(s, p, depth).next - header.next
  {
    ElementsOf(s, p, depth);
    hide Check, Decode, CheckAll, DecodeAll, GetDecimal, Wire, WireAll, EncodeAll;
    var header := GetDecimal(s, p + 1);
    DecodeAllSound(s, header.next, depth + 1, header.value);
    WireAllBounds(s, header.next, Check(s, p, depth).next, depth + 1,
                  Decode(s, p, depth).value.elements);
  }

  lemma {:induction false} ArrayRestored(s: Blob, p: nat, depth: nat)
    requires p < |s| && s[p] == STAR && Check(s, p, depth).Ok? && Decode(s, p, depth).Ok?
    requires GetDecimal(s, p + 1).value >= 0
    ensures var header := GetDecimal(s, p + 1);
      && Check(s, p, depth).next >= header.next
      && (Restored(s, p, depth) <==>
            Plain(GetLine(s, p + 1).value)
            && RestoredAll(s, header.next, depth + 1, header.value))
  {
    ElementsFit(s, p, depth);
    HeaderBytes(s, p);
    hide Check, CheckAll, Decode, DecodeAll, Plain, DecodeDecimal;
    var line, header := GetLine(s, p + 1).value, GetDecimal(s, p + 1);
    var fs := Decode(s, p, depth).value.elements;
    var text := IntegerText(header.value);
    FieldRestored(line);
    assert Encode(Array(fs)) == Header(STAR, text) + EncodeAll(fs);
    SameHeader(STAR, STAR, line, text);
    PartsAgree(s, p, header.next, Check(s, p, depth).next, Header(STAR, text), EncodeAll(fs));
  }

  lemma {:induction false} CanonicalExact(s: Blob, p: nat, depth: nat)
    requires p <= |s| && Check(s, p, depth).Ok? && Decode(s, p, depth).Ok?
    ensures Restored(s, p, depth) <==> Canonical(s, p, depth)
    decreases |s| - p, 0
  {
    hide Restored, RestoredAll;
    if s[p] == STAR {
      var header := GetDecimal(s, p + 1);
      if header.value == -1 {
        NullArrayNotRestored(s, p, depth);
      } else {
        CanonicalAllExact(s, header.next, depth + 1, header.value);
        ArrayRestored(s, p, depth);
      }
    } else if s[p] == DOLLAR {
      BulkRestored(s, p, depth);
    } else {
      LineRestored(s, p, depth);
    }
  }

  lemma {:induction false} CanonicalAllExact(s: Blob, p: nat, depth: nat, count: nat)
    requires p <= |s| && CheckAll(s, p, depth, count).Ok? && DecodeAll(s, p, depth, count).Ok?
    requires depth <= MAX_ARRAY_DEPTH
    ensures RestoredAll(s, p, depth, count) <==> CanonicalAll(s, p, depth, count)
    decreases |s| - p, 1
  {
    hide Check, Decode, Restored, Canonical;
    if count > 0 {
      var m := Check(s, p, depth).next;
      CanonicalExact(s, p, depth);
      CanonicalAllExact(s, m, depth, count - 1);
      FirstRestored(s, p, depth, count);
    }
  }

  lemma {:induction false} FirstFits(s: Blob, p: nat, depth: nat, count: nat)
    requires p <= |s| && CheckAll(s, p, depth, count).Ok? && DecodeAll(s, p, depth, count).Ok?
    requires depth <= MAX_ARRAY_DEPTH && count > 0
    ensures var m := Check(s, p, depth).next;
      var fs := DecodeAll(s, p, depth, count).value;
      && CheckAll(s, p, depth, count) == CheckAll(s, m, depth, count - 1)
      && fs != [] && fs[0] == Decode(s, p, depth).value
      && fs[1..] == DecodeAll(s, m, depth, count - 1).value
      && |Encode(fs[0])| <= m - p
      && |EncodeAll(fs[1..])| <= CheckAll(s, p, depth, count).next - m
  {
    hide Check, Decode, Wire, WireAll, Encode, EncodeAll;
    var m := Check(s, p, depth).next;
    DecodeSound(s, p, depth);
    WireBounds(s, p, m, depth, Decode(s, p, depth).value);
    DecodeAllSound(s, m, depth, count - 1);
    WireAllBounds(s, m, CheckAll(s, m, depth, count - 1).next, depth,
                  DecodeAll(s, m, depth, count - 1).value);
  }

  lemma {:induction false} FirstRestored(s: Blob, p: nat, depth: nat, count: nat)
    requires p <= |s| && CheckAll(s, p, depth, count).Ok? && DecodeAll(s, p, depth, count).Ok?
    requires depth <= MAX_ARRAY_DEPTH && count > 0
    ensures RestoredAll(s, p, depth, count)
       <==> Restored(s, p, depth) && RestoredAll(s, Check(s, p, depth).next, depth, count - 1)
  {
    FirstFits(s, p, depth, count);
    hide Check, Decode;
    var m, q := Check(s, p, depth).next, CheckAll(s, p, depth, count).next;
    var fs := DecodeAll(s, p, depth, count).value;
    hide CheckAll, DecodeAll;
    PartsAgree(s, p, m, q, Encode(fs[0]), EncodeAll(fs[1..]));
  }

  // Printing a parsed frame restores the bytes it was read from if and only if they are canonical.
  lemma {:induction false} RestoredExactly(s: Blob, p: nat)
    requires p <= |s| && Parse(s, p).Ok?
    ensures s[p..Parse(s, p).next] == Encode(Parse(s, p).value) <==> Canonical(s, p, 0)
  {
    hide Canonical, Encode, Check, Decode;
    assert Check(s, p, 0).Ok? && Parse(s, p) == Decode(s, p, 0);
    CanonicalExact(s, p, 0);
  }

  // A null array, a bulk string of length "-0" and a number with leading zeros are read, and printed
  // differently.
  lemma {:induction false} AlteredInputs()
    ensures var s := [STAR, MINUS, 49, CR, LF];
      Parse(s, 0) == Ok(Null, |s|) && Encode(Null) != s
    ensures var s := [DOLLAR, MINUS, ZERO, CR, LF, CR, LF];
      Parse(s, 0) == Ok(Bulk([]), |s|) && Encode(Bulk([])) != s
    ensures var s := [COLON, ZERO, ZERO, 55, CR, LF];
      Parse(s, 0) == Ok(Integer(7), |s|) && Encode(Integer(7)) != s
  {
    AlteredNull();
    AlteredBulk();
    AlteredNumber();
  }

  lemma AlteredNull()
    ensures var s := [STAR, MINUS, 49, CR, LF];
      Parse(s, 0) == Ok(Null, |s|) && Encode(Null) != s
  {
    var s := [STAR, MINUS, 49, CR, LF];
    GetLineExact(s, 1, 5);
    assert [MINUS, 49][1..] == [49] && Accumulate(-1, 0, [49]) == Value(-1);
    assert GetLine(s, 1).value == [MINUS, 49];
  }

  lemma AlteredBulk()
    ensures var s := [DOLLAR, MINUS, ZERO, CR, LF, CR, LF];
      Parse(s, 0) == Ok(Bulk([]), |s|) && Encode(Bulk([])) != s
  {
    var s := [DOLLAR, MINUS, ZERO, CR, LF, CR, LF];
    GetLineExact(s, 1, 5);
    assert [MINUS, ZERO][1..] == [ZERO] && Accumulate(-1, 0, [ZERO]) == Value(0);
    assert GetLine(s, 1).value == [MINUS, ZERO];
    assert s[5..5] == [];
  }

  lemma AlteredNumber()
    ensures var s := [COLON, ZERO, ZERO, 55, CR, LF];
      Parse(s, 0) == Ok(Integer(7), |s|) && Encode(Integer(7)) != s
  {
    var s := [COLON, ZERO, ZERO, 55, CR, LF];
    GetLineExact(s, 1, 6);
    var line := [ZERO, ZERO, 55];
    assert line[1..] == [ZERO, 55] && [ZERO, 55][1..] == [55];
    assert Accumulate(1, 0, [55]) == Value(7);
    assert Accumulate(1, 0, [ZERO, 55]) == Value(7);
    assert GetLine(s, 1).value == line;
  }
}

/** The UTF-8 predicate says what it should: it accepts exactly the encodings of sequences of Unicode
    scalar values (section 3 of RFC 3629). */
module Unicode {
  import opened Bytes

  // A code point that is not a surrogate.
  predicate IsScalar(c: int) {
    0 <= c <= 0x10FFFF && !(0xD800 <= c <= 0xDFFF)
  }

  function EncodeChar(c: int): (w: seq<byte>)
    requires IsScalar(c)
  {
    if c <= 0x7F then [c]
    else if c <= 0x7FF then [0xC0 + c / 64, 0x80 + c % 64]
    else if c <= 0xFFFF then [0xE0 + c / 4096, 0x80 + c / 64 % 64, 0x80 + c % 64]
    else [0xF0 + c / 262144, 0x80 + c / 4096 % 64, 0x80 + c / 64 % 64, 0x80 + c % 64]
  }

  predicate AllScalar(cs: seq<int>) {
    forall k :: 0 <= k < |cs| ==> IsScalar(cs[k])
  }

  function EncodeText(cs: seq<int>): seq<byte>
    requires AllScalar(cs)
  {
    if cs == [] then [] else EncodeChar(cs[0]) + EncodeText(cs[1..])
  }

  // The bytes of one well-formed character.
  predicate IsChar(w: seq<byte>) {
    || (|w| == 1 && w[0] <= 0x7F)
    || (|w| == 2 && 0xC2 <= w[0] <= 0xDF && IsTail(w[1]))
    || (|w| == 3 && 0xE0 <= w[0] <= 0xEF && IsTail(w[1]) && IsTail(w[2])
        && (w[0] == 0xE0 ==> 0xA0 <= w[1]) && (w[0] == 0xED ==> w[1] <= 0x9F))
    || (|w| == 4 && 0xF0 <= w[0] <= 0xF4 && IsTail(w[1]) && IsTail(w[2]) && IsTail(w[3])
        && (w[0] == 0xF0 ==> 0x90 <= w[1]) && (w[0] == 0xF4 ==> w[1] <= 0x8F))
  }

  lemma EncodedIsChar(c: int)
    requires IsScalar(c)
    ensures IsChar(EncodeChar(c))
  {
    var w := EncodeChar(c);
    if 0x7F < c <= 0x7FF {
      assert IsTail(w[1]);
    } else if 0x7FF < c <= 0xFFFF {
      assert IsTail(w[1]) && IsTail(w[2]);
    } else if 0xFFFF < c {
      assert IsTail(w[1]) && IsTail(w[2]) && IsTail(w[3]);
    }
  }

  lemma CharIsUtf8(w: seq<byte>, rest: seq<byte>)
    requires IsChar(w) && Utf8(rest)
    ensures Utf8(w + rest)
  {
    var s := w + rest;
    assert s[|w|..] == rest;
    assert forall k :: 0 <= k < |w| ==> s[k] == w[k];
  }

  lemma {:induction false} EncodedTextIsUtf8(cs: seq<int>)
    requires AllScalar(cs)
    ensures Utf8(EncodeText(cs))
  {
    hide Utf8, EncodeChar, IsChar;
    if cs == [] {
      NothingIsUtf8();
    } else {
      EncodedTextIsUtf8(cs[1..]);
      EncodedIsChar(cs[0]);
      CharIsUtf8(EncodeChar(cs[0]), EncodeText(cs[1..]));
    }
  }

  lemma NothingIsUtf8()
    ensures Utf8([])
  {
  }

  // The six bits that a tail byte carries.
  function Low(b: int): int {
    b - 0x80
  }

  lemma SixBits(high: int, low: int)
    requires 0 <= low < 64
    ensures (high * 64 + low) / 64 == high && (high * 64 + low) % 64 == low
  {
  }

  lemma TwoBytes(s: seq<byte>) returns (c: int)
    requires |s| >= 2 && 0xC2 <= s[0] <= 0xDF && IsTail(s[1])
    ensures IsScalar(c) && EncodeChar(c) == s[..2]
  {
    var high: int := s[0];
    c := (high - 0xC0) * 64 + Low(s[1]);
    SixBits(high - 0xC0, Low(s[1]));
  }

  lemma ThreeBytes(s: seq<byte>) returns (c: int)
    requires |s| >= 3 && 0xE0 <= s[0] <= 0xEF && IsTail(s[1]) && IsTail(s[2])
    requires (s[0] == 0xE0 ==> 0xA0 <= s[1]) && (s[0] == 0xED ==> s[1] <= 0x9F)
    ensures IsScalar(c) && EncodeChar(c) == s[..3]
  {
    var high: int := s[0];
    var upper := (high - 0xE0) * 64 + Low(s[1]);
    c := upper * 64 + Low(s[2]);
    SixBits(high - 0xE0, Low(s[1]));
    SixBits(upper, Low(s[2]));
    assert c / 4096 == upper / 64;
  }

  lemma FourBytes(s: seq<byte>) returns (c: int)
    requires |s| >= 4 && 0xF0 <= s[0] <= 0xF4 && IsTail(s[1]) && IsTail(s[2]) && IsTail(s[3])
    requires (s[0] == 0xF0 ==> 0x90 <= s[1]) && (s[0] == 0xF4 ==> s[1] <= 0x8F)
    ensures IsScalar(c) && EncodeChar(c) == s[..4]
  {
    var high: int := s[0];
    var top := (high - 0xF0) * 64 + Low(s[1]);
    var upper := top * 64 + Low(s[2]);
    c := upper * 64 + Low(s[3]);
    SixBits(high - 0xF0, Low(s[1]));
    SixBits(top, Low(s[2]));
    SixBits(upper, Low(s[3]));
    assert c / 4096 == upper / 64 && c / 262144 == top / 64;
  }

  // The first character of a well-formed text.
  lemma {:induction false} FirstChar(s: seq<byte>) returns (c: int, n: nat)
    requires s != [] && Utf8(s)
    ensures IsScalar(c) && 1 <= n <= |s| && EncodeChar(c) == s[..n] && Utf8(s[n..])
  {
    hide EncodeChar;
    if s[0] <= 0x7F {
      c, n := s[0], 1;
      OneByte(s);
    } else if s[0] <= 0xDF {
      c := TwoBytes(s);
      n := 2;
    } else if s[0] <= 0xEF {
      c := ThreeBytes(s);
      n := 3;
    } else {
      c := FourBytes(s);
      n := 4;
    }
  }

  lemma OneByte(s: seq<byte>)
    requires s != [] && s[0] <= 0x7F
    ensures EncodeChar(s[0]) == s[..1]
  {
  }

  lemma {:induction false} TextDecodes(s: seq<byte>) returns (cs: seq<int>)
    requires Utf8(s)
    ensures AllScalar(cs) && EncodeText(cs) == s
    decreases |s|
  {
    hide Utf8, EncodeChar;
    cs := [];
    if s != [] {
      var c, n := FirstChar(s);
      var others := TextDecodes(s[n..]);
      cs := [c] + others;
      assert cs[1..] == others;
    }
  }

  // Bytes are accepted as text if and only if they encode a sequence of scalar values.
  lemma {:induction false} Utf8Exact(s: seq<byte>)
    ensures Utf8(s) <==> exists cs :: AllScalar(cs) && EncodeText(cs) == s
  {
    if Utf8(s) {
      var cs := TextDecodes(s);
    }
    if cs :| AllScalar(cs) && EncodeText(cs) == s {
      EncodedTextIsUtf8(cs);
    }
  }
}

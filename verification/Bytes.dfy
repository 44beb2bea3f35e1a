/** Bytes, byte buffers and UTF-8 text, as the other modules use them. */
module Bytes {

  type byte = b: int | 0 <= b < 256

  const CR: byte := 13
  const LF: byte := 10
  const PLUS: byte := 43
  const MINUS: byte := 45
  const COLON: byte := 58
  const DOLLAR: byte := 36
  const STAR: byte := 42
  const ZERO: byte := 48

  const CRLF: seq<byte> := [CR, LF]

  const I64_MAX: int := 0x7FFF_FFFF_FFFF_FFFF
  const I64_MIN: int := -0x8000_0000_0000_0000

  type i64 = v: int | I64_MIN <= v <= I64_MAX

  predicate InI64(v: int) {
    I64_MIN <= v <= I64_MAX
  }

  // No Rust slice, `Bytes` or `String` is longer than `isize::MAX` bytes; `isize` has 64 bits here.
  type Blob = s: seq<byte> | |s| <= I64_MAX witness []

  // A Rust `String`: a buffer that holds well-formed UTF-8.
  type Text = s: Blob | Utf8(s) witness []

  predicate IsLineBreak(b: byte) {
    b == CR || b == LF
  }

  predicate OneLine(s: seq<byte>) {
    forall k :: 0 <= k < |s| ==> !IsLineBreak(s[k])
  }

  predicate IsTail(b: byte) {
    0x80 <= b <= 0xBF
  }

  // Well-formed UTF-8, production by production as in section 4 of RFC 3629.
  predicate Utf8(s: seq<byte>) {
    if s == [] then
      true
    else if s[0] <= 0x7F then
      Utf8(s[1..])
    else if 0xC2 <= s[0] <= 0xDF then
      |s| >= 2 && IsTail(s[1]) && Utf8(s[2..])
    else if 0xE0 <= s[0] <= 0xEF then
      && |s| >= 3
      && IsTail(s[1]) && IsTail(s[2])
      && (s[0] == 0xE0 ==> 0xA0 <= s[1])
      && (s[0] == 0xED ==> s[1] <= 0x9F)
      && Utf8(s[3..])
    else if 0xF0 <= s[0] <= 0xF4 then
      && |s| >= 4
      && IsTail(s[1]) && IsTail(s[2]) && IsTail(s[3])
      && (s[0] == 0xF0 ==> 0x90 <= s[1])
      && (s[0] == 0xF4 ==> s[1] <= 0x8F)
      && Utf8(s[4..])
    else
      false
  }

  lemma {:induction false} AsciiIsUtf8(s: seq<byte>)
    requires forall k :: 0 <= k < |s| ==> s[k] <= 0x7F
    ensures Utf8(s)
  {
    if s != [] {
      AsciiIsUtf8(s[1..]);
    }
  }

  predicate Printable(m: string) {
    |m| < 100 && forall k :: 0 <= k < |m| ==> ' ' <= m[k] <= '~'
  }

  // One of the program's fixed messages: printable ASCII, so neither CR nor LF. Longer messages are
  // written as sums of short literals, because the verifier is slow to check a long one byte by byte.
  type Message = m: string | Printable(m) witness ""

  function Ascii(m: Message): (t: Text)
    ensures |t| == |m| && OneLine(t)
    ensures forall k :: 0 <= k < |m| ==> t[k] == m[k] as int
  {
    var t := seq(|m|, k requires 0 <= k < |m| => m[k] as int);
    AsciiIsUtf8(t);
    t
  }
}

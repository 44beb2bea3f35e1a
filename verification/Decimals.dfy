/** Decimal fields: what a line denotes, how the program decodes it, and how it prints a number. */
module Decimals {
  import opened Bytes
  import opened Frames

  // --- What a line denotes ---

  predicate IsDigit(b: byte) {
    48 <= b <= 57
  }

  predicate AllDigits(ds: seq<byte>) {
    forall k :: 0 <= k < |ds| ==> IsDigit(ds[k])
  }

  // The positional value of a digit string.
  function DigitsValue(ds: seq<byte>): nat
    requires AllDigits(ds)
  {
    if ds == [] then 0
    else DigitsValue(ds[..|ds| - 1]) * 10 + (ds[|ds| - 1] - 48)
  }

  // An optional minus sign followed by at least one digit, and nothing else.
  predicate IsNumeral(line: seq<byte>) {
    || (|line| >= 1 && AllDigits(line))
    || (|line| >= 2 && line[0] == MINUS && AllDigits(line[1..]))
  }

  function NumeralValue(line: seq<byte>): int
    requires IsNumeral(line)
  {
    if line[0] == MINUS then 0 - DigitsValue(line[1..]) else DigitsValue(line)
  }

  predicate Denotes(line: seq<byte>, v: int) {
    IsNumeral(line) && NumeralValue(line) == v && InI64(v)
  }

  // --- How the program decodes it ---

  datatype Decimal = Value(value: i64) | Bad(fault: Fault)

  function Shift(sign: int, total: int, digit: byte): int {
    total * 10 + if sign == 1 then digit - 48 else 48 - digit
  }

  // `to` is at least as far from zero as `from`, on the side that `sign` names.
  predicate AwayFromZero(sign: int, from: int, to: int) {
    if sign == 1 then from <= to else to <= from
  }

  // The digits still to read, with checked arithmetic: the multiplication is checked before the
  // next byte is looked at.
  function Accumulate(sign: int, total: i64, rest: seq<byte>): (r: Decimal)
    requires sign == 1 || sign == -1
    ensures r.Bad? ==> r.fault.IntegerOverflow? || r.fault.InvalidDecimal?
    decreases |rest|
  {
    if rest == [] then Value(total)
    else if !InI64(total * 10) then Bad(IntegerOverflow)
    else if !IsDigit(rest[0]) then Bad(InvalidDecimal)
    else
      var sum := Shift(sign, total, rest[0]);
      if !InI64(sum) then Bad(IntegerOverflow) else Accumulate(sign, sum, rest[1..])
  }

  function DecodeDecimal(line: seq<byte>): Decimal {
    if line == [] then Bad(EmptyDecimal)
    else if line[0] == MINUS then
      if |line| == 1 then Bad(InvalidDecimal) else Accumulate(-1, 0, line[1..])
    else if IsDigit(line[0]) then Accumulate(1, line[0] - 48, line[1..])
    else Bad(InvalidDecimal)
  }

  // The exact total the accumulation aims at, without any bound.
  function Total(sign: int, total: int, ds: seq<byte>): int
    requires AllDigits(ds)
    decreases |ds|
  {
    if ds == [] then total
    else Total(sign, Shift(sign, total, ds[0]), ds[1..])
  }

  // Reading on never brings a running total back towards zero.
  lemma {:induction false} TotalGrows(sign: int, total: int, ds: seq<byte>)
    requires sign == 1 || sign == -1
    requires AwayFromZero(sign, 0, total) && AllDigits(ds)
    ensures AwayFromZero(sign, total, Total(sign, total, ds))
    decreases |ds|
  {
    if ds != [] {
      TotalGrows(sign, Shift(sign, total, ds[0]), ds[1..]);
    }
  }

  lemma {:induction false} TotalSnoc(sign: int, total: int, ds: seq<byte>)
    requires ds != [] && AllDigits(ds)
    ensures Total(sign, total, ds)
         == Shift(sign, Total(sign, total, ds[..|ds| - 1]), ds[|ds| - 1])
    decreases |ds|
  {
    if |ds| > 1 {
      TotalSnoc(sign, Shift(sign, total, ds[0]), ds[1..]);
      assert ds[1..][..|ds| - 2] == ds[..|ds| - 1][1..];
    }
  }

  lemma {:induction false} TotalIsDigitsValue(sign: int, ds: seq<byte>)
    requires sign == 1 || sign == -1
    requires AllDigits(ds)
    ensures Total(sign, 0, ds) == if sign == 1 then DigitsValue(ds) else 0 - DigitsValue(ds)
  {
    if ds != [] {
      TotalSnoc(sign, 0, ds);
      TotalIsDigitsValue(sign, ds[..|ds| - 1]);
    }
  }

  lemma {:induction false} AccumulateExact(sign: int, total: i64, rest: seq<byte>, v: i64)
    requires sign == 1 || sign == -1
    requires AwayFromZero(sign, 0, total)
    ensures Accumulate(sign, total, rest) == Value(v)
       <==> AllDigits(rest) && Total(sign, total, rest) == v
    decreases |rest|
  {
    if rest != [] {
      if AllDigits(rest) {
        TotalGrows(sign, Shift(sign, total, rest[0]), rest[1..]);
      }
      if IsDigit(rest[0]) && InI64(Shift(sign, total, rest[0])) {
        AccumulateExact(sign, Shift(sign, total, rest[0]), rest[1..], v);
        assert AllDigits(rest[1..]) ==> AllDigits(rest) by {
          forall k | 0 <= k < |rest| && AllDigits(rest[1..]) ensures IsDigit(rest[k]) {
            assert k > 0 ==> rest[k] == rest[1..][k - 1];
          }
        }
      }
    }
  }

  // A line decodes to `v` exactly when it is a numeral for `v` and `v` is an `i64`: leading
  // zeros are harmless and a running total overflows only if the final value does.
  lemma {:induction false} DecodeDecimalExact(line: seq<byte>, v: i64)
    ensures DecodeDecimal(line) == Value(v) <==> Denotes(line, v)
  {
    if line != [] {
      if line[0] == MINUS {
        AccumulateExact(-1, 0, line[1..], v);
        if AllDigits(line[1..]) {
          TotalIsDigitsValue(-1, line[1..]);
        }
      } else if IsDigit(line[0]) {
        AccumulateExact(1, line[0] - 48, line[1..], v);
        assert line == [line[0]] + line[1..];
        assert AllDigits(line) <==> AllDigits(line[1..]);
        if AllDigits(line) {
          TotalIsDigitsValue(1, line);
        }
      }
    }
  }

  // The number of leading digits.
  function Lead(ds: seq<byte>): (n: nat)
    ensures n <= |ds| && AllDigits(ds[..n])
    ensures n < |ds| ==> !IsDigit(ds[n])
  {
    if ds == [] || !IsDigit(ds[0]) then 0
    else
      var n := 1 + Lead(ds[1..]);
      assert forall k :: 1 <= k < n ==> ds[k] == ds[1..][..n - 1][k - 1];
      n
  }

  // The digits whose value decides between the two faults: a byte that is not a digit is met
  // only after room has been made for it.
  function Reached(ds: seq<byte>): (r: seq<byte>)
    ensures AllDigits(r)
  {
    if Lead(ds) == |ds| then ds[..Lead(ds)] else ds[..Lead(ds)] + [ZERO]
  }

  lemma {:induction false} AccumulateOverflows(sign: int, total: i64, rest: seq<byte>)
    requires sign == 1 || sign == -1
    requires AwayFromZero(sign, 0, total)
    ensures Accumulate(sign, total, rest) == Bad(IntegerOverflow)
       <==> !InI64(Total(sign, total, Reached(rest)))
    decreases |rest|
  {
    if rest != [] {
      var reached := Reached(rest);
      assert reached != [];
      if IsDigit(rest[0]) {
        var sum := Shift(sign, total, rest[0]);
        assert reached[0] == rest[0] && reached[1..] == Reached(rest[1..]);
        TotalGrows(sign, sum, reached[1..]);
        if InI64(sum) {
          AccumulateOverflows(sign, sum, rest[1..]);
        }
      } else {
        assert reached == [ZERO];
        assert Total(sign, total, reached) == Total(sign, total * 10, []);
      }
    }
  }

  function ReachedValue(line: seq<byte>): int
    requires line != []
  {
    if line[0] == MINUS then 0 - DigitsValue(Reached(line[1..])) else DigitsValue(Reached(line))
  }

  lemma ReachedNumeral(line: seq<byte>)
    requires IsNumeral(line)
    ensures ReachedValue(line) == NumeralValue(line)
  {
    var digits := if line[0] == MINUS then line[1..] else line;
    assert Lead(digits) == |digits|;
    assert digits[..|digits|] == digits;
  }

  // Which of the three faults a rejected line gets.
  lemma {:induction false} DecodeDecimalFaultExact(line: seq<byte>)
    ensures DecodeDecimal(line) == Bad(EmptyDecimal) <==> line == []
    ensures DecodeDecimal(line) == Bad(IntegerOverflow)
       <==> line != [] && !InI64(ReachedValue(line))
    ensures DecodeDecimal(line) == Bad(InvalidDecimal)
       <==> line != [] && InI64(ReachedValue(line)) && !IsNumeral(line)
    ensures DecodeDecimal(line).Bad? ==> DecodeDecimal(line).fault.IsContentFault()
  {
    if line != [] {
      if line[0] == MINUS {
        AccumulateOverflows(-1, 0, line[1..]);
        TotalIsDigitsValue(-1, Reached(line[1..]));
      } else {
        TotalIsDigitsValue(1, Reached(line));
        if IsDigit(line[0]) {
          AccumulateOverflows(1, 0, line);
        } else {
          assert Reached(line) == [ZERO];
          assert DigitsValue([ZERO]) == 0;
        }
      }
    }
    if IsNumeral(line) {
      ReachedNumeral(line);
    }
    var d := DecodeDecimal(line);
    if d.Value? {
      DecodeDecimalExact(line, d.value);
    } else if IsNumeral(line) && InI64(NumeralValue(line)) {
      DecodeDecimalExact(line, NumeralValue(line));
    }
  }

  lemma {:induction false} MoreDigits(ds: seq<byte>, more: seq<byte>)
    requires AllDigits(ds + more)
    ensures AllDigits(ds) && DigitsValue(ds) <= DigitsValue(ds + more)
    decreases |more|
  {
    assert forall k :: 0 <= k < |ds| ==> ds[k] == (ds + more)[k];
    if more == [] {
      assert ds + more == ds;
    } else {
      var init := more[..|more| - 1];
      assert (ds + more)[..|ds + more| - 1] == ds + init;
      MoreDigits(ds, init);
    }
  }

  // A longer numeral denotes a number at least as far from zero, on the same side.
  lemma {:induction false} LongerNumeral(line: seq<byte>, more: seq<byte>)
    requires line != [] && line != [MINUS] && DecodeDecimal(line + more).Value?
    ensures DecodeDecimal(line).Value?
    ensures line[0] == MINUS ==> DecodeDecimal(line + more).value <= DecodeDecimal(line).value <= 0
    ensures line[0] != MINUS ==> 0 <= DecodeDecimal(line).value <= DecodeDecimal(line + more).value
  {
    var whole := line + more;
    DecodeDecimalExact(whole, DecodeDecimal(whole).value);
    if line[0] == MINUS {
      assert whole[1..] == line[1..] + more;
      MoreDigits(line[1..], more);
    } else {
      MoreDigits(line, more);
    }
    DecodeDecimalExact(line, NumeralValue(line));
  }

  // A prefix can grow into a decodable line exactly when it is one already, or is empty, or is a
  // lone minus sign.
  lemma {:induction false} PrefixDecodable(line: seq<byte>)
    ensures (exists more :: DecodeDecimal(line + more).Value?)
       <==> line == [] || line == [MINUS] || DecodeDecimal(line).Value?
  {
    if more :| DecodeDecimal(line + more).Value? && line != [] && line != [MINUS] {
      LongerNumeral(line, more);
    }
    if line == [] || line == [MINUS] || DecodeDecimal(line).Value? {
      var more := if line == [] || line == [MINUS] then [ZERO] else [];
      assert line + more == if line == [] then [ZERO] else if line == [MINUS] then [MINUS, ZERO] else line;
      assert Accumulate(-1, 0, [ZERO]).Value?;
      assert DecodeDecimal(line + more).Value?;
    }
  }

  // --- How the program prints a number ---

  function DigitsText(n: nat): (ds: seq<byte>)
    ensures |ds| >= 1 && AllDigits(ds)
  {
    if n < 10 then [n + 48] else DigitsText(n / 10) + [n % 10 + 48]
  }

  function IntegerText(v: int): (line: seq<byte>)
    ensures IsNumeral(line) && OneLine(line)
  {
    if v < 0 then
      var line := [MINUS] + DigitsText(0 - v);
      assert line[1..] == DigitsText(0 - v);
      line
    else DigitsText(v)
  }

  lemma {:induction false} DigitsTextValue(n: nat)
    ensures DigitsValue(DigitsText(n)) == n
  {
    var ds := DigitsText(n);
    if n < 10 {
      assert ds[..0] == [];
    } else {
      DigitsTextValue(n / 10);
      assert ds[..|ds| - 1] == DigitsText(n / 10);
    }
  }

  // Decoding inverts printing.
  lemma PrintedIntegerDecodes(v: i64)
    ensures DecodeDecimal(IntegerText(v)) == Value(v)
  {
    if v < 0 {
      DigitsTextValue(0 - v);
      assert ([MINUS] + DigitsText(0 - v))[1..] == DigitsText(0 - v);
    } else {
      DigitsTextValue(v);
    }
    DecodeDecimalExact(IntegerText(v), v);
  }

  // Exactly the numbers from -2^63 to 2^63 - 1 can be read back, and any other overflows.
  lemma {:induction false} PrintedIntegerInRange(v: int)
    ensures DecodeDecimal(IntegerText(v)).Value?
       <==> -0x8000_0000_0000_0000 <= v <= 0x7FFF_FFFF_FFFF_FFFF
    ensures DecodeDecimal(IntegerText(v)).Bad? ==> DecodeDecimal(IntegerText(v)) == Bad(IntegerOverflow)
  {
    var line := IntegerText(v);
    DigitsTextValue(if v < 0 then 0 - v else v);
    if v < 0 {
      assert line[1..] == DigitsText(0 - v);
    }
    assert NumeralValue(line) == v;
    DecodeDecimalFaultExact(line);
    ReachedNumeral(line);
    if DecodeDecimal(line).Value? {
      DecodeDecimalExact(line, DecodeDecimal(line).value);
    }
  }

  lemma {:induction false} DigitsTextShortest(ds: seq<byte>)
    requires |ds| >= 1 && AllDigits(ds)
    ensures |DigitsText(DigitsValue(ds))| <= |ds|
  {
    var n := DigitsValue(ds);
    if n >= 10 {
      assert n / 10 == DigitsValue(ds[..|ds| - 1]);
      assert |ds| > 1;
      DigitsTextShortest(ds[..|ds| - 1]);
    }
  }

  // No numeral for a number is shorter than the printed one.
  lemma PrintedIntegerShortest(line: seq<byte>)
    requires IsNumeral(line)
    ensures |IntegerText(NumeralValue(line))| <= |line|
  {
    if line[0] == MINUS {
      DigitsTextShortest(line[1..]);
    } else {
      DigitsTextShortest(line);
    }
  }
}

/** An independent reader of numerals, and what strtou64() makes of every string in bases 10, 16 and 2. */
module Numerals {
  import opened Bits64
  import opened CString

  /** The value of a digit 0-9, a-f or A-F; -1 for any other byte. */
  function ReadDigit(c: byte): int {
    if '0' as int <= c <= '9' as int then c - '0' as int
    else if 'a' as int <= c <= 'f' as int then c - 'a' as int + 10
    else if 'A' as int <= c <= 'F' as int then c - 'A' as int + 10
    else -1
  }

  function Power(base: nat, n: nat): nat {
    if n == 0 then 1 else base * Power(base, n - 1)
  }

  /** The number that digits denote, each weighed by its place. */
  function Positional(s: seq<byte>, base: nat): int {
    if s == [] then 0 else ReadDigit(s[0]) * Power(base, |s| - 1) + Positional(s[1..], base)
  }

  /** Decimal digits below the base. */
  predicate Digits(s: seq<byte>, base: nat) {
    forall i :: 0 <= i < |s| ==> '0' as int <= s[i] <= '9' as int && s[i] - '0' as int < base
  }

  lemma {:induction false} PositionalSnoc(s: seq<byte>, c: byte, base: nat)
    ensures Positional(s + [c], base) == Positional(s, base) * base + ReadDigit(c)
    decreases |s|
  {
    hide ReadDigit;
    if s == [] {
      assert s + [c] == [c] && [c][1..] == [];
      PowerZero(base);
    } else {
      var t := s + [c];
      PositionalSnoc(s[1..], c, base);
      assert t[1..] == s[1..] + [c];
      Shift(ReadDigit(s[0]), base, Power(base, |s| - 1), Positional(s[1..], base), ReadDigit(c));
    }
  }

  lemma PowerZero(base: nat)
    ensures Power(base, 0) == 1
  {
  }

  lemma Shift(d: int, base: int, p: int, rest: int, c: int)
    ensures d * (base * p) + (rest * base + c) == (d * p + rest) * base + c
  {
  }

  lemma DigitMeans(c: byte, base: u64)
    requires base <= 16
    ensures Digit(c) < base <==> '0' as int <= c && c - '0' as int < base
    ensures '0' as int <= c ==> Digit(c) == c - '0' as int
  {
  }

  /** The accumulated value of a digit string is its positional value. */
  lemma {:induction false} ValueIsPositional(s: seq<byte>, base: u64)
    requires Digits(s, base)
    ensures Value(s, base) == Positional(s, base)
    decreases |s|
  {
    if s != [] {
      hide Digit, Positional;
      var n := |s| - 1;
      ValueIsPositional(s[..n], base);
      PositionalSnoc(s[..n], s[n], base);
      assert s[..n] + [s[n]] == s;
      DigitPlain(s[n]);
    }
  }

  lemma DigitPlain(c: byte)
    requires '0' as int <= c <= '9' as int
    ensures Digit(c) == ReadDigit(c) == c - '0' as int
  {
  }

  lemma AllDigitsMeans(s: seq<byte>, base: u64)
    requires base <= 10
    ensures AllDigits(s, base) <==> Digits(s, base)
  {
    forall i | 0 <= i < |s| ensures Digit(s[i]) < base <==> '0' as int <= s[i] <= '9' as int && s[i] - '0' as int < base {
      DigitMeans(s[i], base);
    }
  }

  function WithoutMinus(s: seq<byte>): seq<byte> {
    if s != [] && s[0] == '-' as int then s[1..] else s
  }

  /** The second byte follows a 0 at the start. */
  predicate Marked(s: seq<byte>, lower: char, upper: char) {
    |s| >= 2 && s[0] == '0' as int && (s[1] == lower as int || s[1] == upper as int)
  }

  lemma PrefixesMean(s: seq<byte>)
    ensures AfterSign(s) == WithoutMinus(s)
    ensures BinaryPrefix(s) <==> Marked(s, 'b', 'B')
    ensures HexPrefix(s) <==> Marked(s, 'x', 'X')
  {
    if s != [] {
      assert Take(s, 1)[0] == s[0] && (s[0] == 45 ==> Take(s, 1) == [45]);
    }
    if |s| >= 2 {
      assert Take(s, 2) == [s[0], s[1]];
    }
  }

  /** In base 10 a string denotes what its digits say, after at most one minus sign, modulo 2 to the 64th; a string
      with any other byte, and so any base prefix, gives 0. */
  lemma DecimalNumber(s: seq<byte>)
    ensures var body := WithoutMinus(s);
            Number(s, 10) == if Digits(body, 10) then Positional(body, 10) % 0x1_0000_0000_0000_0000 else 0
  {
    hide Positional, Value, BinaryPrefix, HexPrefix, AfterSign, Digit;
    var body := WithoutMinus(s);
    PrefixesMean(s);
    PrefixesMean(body);
    AllDigitsMeans(body, 10);
    if Digits(body, 10) {
      ValueIsPositional(body, 10);
    }
  }

  /** In base 16 the prefix 0x may stand in front of the digits.  Letters are no digits, but the six bytes behind '9'
      are, with the values 10 to 15. */
  lemma HexNumber(s: seq<byte>)
    ensures var body := WithoutMinus(s);
            var digits := if Marked(body, 'x', 'X') then body[2..] else body;
            && Number(s, 16) == (if DigitsBelow16(digits) then Value(digits, 16) % 0x1_0000_0000_0000_0000 else 0)
            && (Digits(digits, 16) ==> Value(digits, 16) == Positional(digits, 16))
  {
    hide Value, BinaryPrefix, HexPrefix, AfterSign, Digit;
    var body := WithoutMinus(s);
    PrefixesMean(s);
    PrefixesMean(body);
    var digits := if Marked(body, 'x', 'X') then body[2..] else body;
    forall i | 0 <= i < |digits| ensures Digit(digits[i]) < 16 <==> 48 <= digits[i] < 64 {
      DigitMeans(digits[i], 16);
    }
    if Marked(body, 'b', 'B') {
      assert digits[1] == body[1];
    }
    if Digits(digits, 16) {
      ValueIsPositional(digits, 16);
    }
  }

  /** The bytes from '0' on whose distance from '0' is below 16. */
  predicate DigitsBelow16(s: seq<byte>) {
    forall i :: 0 <= i < |s| ==> 48 <= s[i] < 64
  }

  /** In base 2 the digits are 0 and 1, and the prefix 0b may stand in front of them. */
  lemma BinaryNumber(s: seq<byte>)
    ensures var body := WithoutMinus(s);
            var digits := if Marked(body, 'b', 'B') then body[2..] else body;
            Number(s, 2) == if Digits(digits, 2) then Positional(digits, 2) % 0x1_0000_0000_0000_0000 else 0
  {
    hide Positional, Value, BinaryPrefix, HexPrefix, AfterSign, Digit;
    var body := WithoutMinus(s);
    PrefixesMean(s);
    PrefixesMean(body);
    var digits := if Marked(body, 'b', 'B') then body[2..] else body;
    AllDigitsMeans(digits, 2);
    if Marked(body, 'x', 'X') {
      assert digits[1] == body[1];
    }
    if Digits(digits, 2) {
      ValueIsPositional(digits, 2);
    }
  }
}

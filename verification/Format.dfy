/** Reference for src/printf.c: what a format string and its arguments print.

A directive is '%', at most one flag ('0' or '#'), a decimal width, a length
(hh, h, l, ll) and one of c d u x X s p.  Anything else after a '%' prints the
'%' alone, and printing goes on with the byte after it.
*/
module Format {
  import opened Bits64
  import opened CString

  datatype FmtSpecifier = FmtSpecifier(signed: bool, zeroPadding: bool, uppercase: bool, prefix: bool,
                                       base: nat, width: nat, length: nat)

  datatype Conversion = CHAR | NUMBER | STR | PTR | INVALID

  datatype Directive = Directive(conversion: Conversion, spec: FmtSpecifier, size: nat)

  const PERCENT: byte := 37
  const MINUS: byte := 45
  const ZERO: byte := 48
  const HASH: byte := 35

  const NO_SPEC := FmtSpecifier(false, false, false, false, 0, 0, 0)

  // ---- Directives ----

  function FlagSize(s: seq<byte>): (r: nat)
    ensures r <= |s|
  {
    if s != [] && (s[0] == ZERO || s[0] == HASH) then 1 else 0
  }

  /** Length of the decimal digits a string starts with. */
  function DigitRun(s: seq<byte>): (k: nat)
    ensures k <= |s| && AllDigits(s[..k], 10) && (k < |s| ==> Digit(s[k]) >= 10)
  {
    if s == [] || Digit(s[0]) >= 10 then 0
    else
      var k := DigitRun(s[1..]);
      assert forall i :: 0 <= i < k ==> s[1..][..k][i] == s[1 + i];
      1 + k
  }

  function LengthSize(s: seq<byte>): (r: nat)
    ensures r <= |s|
  {
    if Take(s, 2) == [108, 108] || Take(s, 2) == [104, 104] then 2
    else if Take(s, 1) == [108] || Take(s, 1) == [104] then 1
    else 0
  }

  /** sizeof of the argument's type; 0 if the directive names none. */
  function LengthOf(s: seq<byte>): nat {
    if Take(s, 2) == [108, 108] then 8
    else if Take(s, 2) == [104, 104] then 1
    else if Take(s, 1) == [108] then 8
    else if Take(s, 1) == [104] then 2
    else 0
  }

  /** c d u x X s p */
  function ConversionOf(c: byte): Conversion {
    if c == 99 then CHAR
    else if c in {100, 117, 120, 88} then NUMBER
    else if c == 115 then STR
    else if c == 112 then PTR
    else INVALID
  }

  function BaseOf(c: byte): nat {
    if c == 100 || c == 117 then 10
    else if c == 120 || c == 88 || c == 112 then 16
    else 0
  }

  /** The directive whose text starts right after the '%'. */
  function ParseDirective(s: seq<byte>): (d: Directive)
    ensures d.conversion != INVALID ==> 1 <= d.size <= |s|
    ensures d.conversion == NUMBER || d.conversion == PTR ==> d.spec.base == 10 || d.spec.base == 16
  {
    var f := FlagSize(s);
    var w := f + DigitRun(s[f..]);
    var l := w + LengthSize(s[w..]);
    var c := if l < |s| then s[l] else 0;
    Directive(ConversionOf(c),
              FmtSpecifier(signed := c == 100,
                           zeroPadding := f == 1 && s[0] == ZERO,
                           uppercase := c == 88,
                           prefix := (f == 1 && s[0] == HASH) || c == 112,
                           base := BaseOf(c),
                           width := Value(s[f..w], 10) % 256,
                           length := LengthOf(s[w..])),
              l + 1)
  }

  lemma {:induction false} DigitRunIs(s: seq<byte>, k: nat)
    requires k <= |s| && AllDigits(s[..k], 10) && (k < |s| ==> Digit(s[k]) >= 10)
    ensures DigitRun(s) == k
  {
    hide Digit;
    if k > 0 {
      assert Digit(s[..k][0]) < 10;
      assert s[1..][..k - 1] == s[..k][1..];
      DigitRunIs(s[1..], k - 1);
    }
  }

  /** The same directive, by the positions where its width, length and type begin. */
  lemma DirectiveAt(s: seq<byte>, w: nat, l: nat, c: byte)
    requires w == FlagSize(s) + DigitRun(s[FlagSize(s)..]) && l == w + LengthSize(s[w..])
    requires c == if l < |s| then s[l] else 0
    ensures ParseDirective(s).conversion == ConversionOf(c) && ParseDirective(s).size == l + 1
    ensures ParseDirective(s).spec == FmtSpecifier(c == 100, Take(s, 1) == [ZERO], c == 88,
                                                   Take(s, 1) == [HASH] || c == 112, BaseOf(c),
                                                   Value(s[FlagSize(s)..w], 10) % 256, LengthOf(s[w..]))
  {
    hide Value, DigitRun, Digit, LengthOf, LengthSize, ConversionOf, BaseOf;
    assert s != [] ==> Take(s, 1) == [s[0]];
  }

  // ---- Numbers ----

  function Abs(v: int): nat {
    if v < 0 then -v else v
  }

  function Bits(f: FmtSpecifier): nat {
    if f.length == 0 then 64 else 8 * f.length
  }

  /** The integer a directive reads from its argument word: the low bits, in two's complement if signed. */
  function Argument(n: u64, f: FmtSpecifier): int {
    var m := Pow2(Bits(f));
    Pow2Positive(Bits(f));
    if f.signed && n % m >= m / 2 then n % m - m else n % m
  }

  function DigitChar(d: nat, uppercase: bool): byte
    requires d < 16
  {
    if d < 10 then 48 + d else if uppercase then 55 + d else 87 + d
  }

  /** The digits of n without leading zeros; none for 0. */
  function Numeral(n: nat, base: nat, uppercase: bool): seq<byte>
    requires 2 <= base <= 16
  {
    if n == 0 then [] else Numeral(n / base, base, uppercase) + [DigitChar(n % base, uppercase)]
  }

  function Zeros(n: nat): (r: seq<byte>)
    ensures |r| == n && forall i :: 0 <= i < n ==> r[i] == ZERO
  {
    if n == 0 then [] else Zeros(n - 1) + [ZERO]
  }

  /** Zeros in front of the digits.  Sign and prefix do not count towards the width. */
  function Padding(f: FmtSpecifier, digits: nat): nat {
    if f.zeroPadding && f.width > digits then f.width - digits else 0
  }

  /** A zero is printed as one digit whatever the width. */
  function Magnitude(n: nat, f: FmtSpecifier): (r: seq<byte>)
    requires 2 <= f.base <= 16
    ensures r != []
  {
    if n == 0 then [ZERO]
    else
      var digits := Numeral(n, f.base, f.uppercase);
      Zeros(Padding(f, |digits|)) + digits
  }

  function Sign(v: int): seq<byte> {
    if v < 0 then [MINUS] else []
  }

  function Prefix(f: FmtSpecifier): seq<byte> {
    if f.prefix then [ZERO, 120] else []
  }

  function NumberText(v: int, f: FmtSpecifier): seq<byte>
    requires 2 <= f.base <= 16
  {
    Sign(v) + Prefix(f) + Magnitude(Abs(v), f)
  }

  // ---- Rendering ----

  /** The arguments va_arg() will take exist, and those read by %s point to strings. */
  ghost predicate Fits(s: seq<byte>, args: seq<u64>, mem: seq<byte>)
    decreases |s|
  {
    if s == [] then true
    else if s[0] != PERCENT then Fits(s[1..], args, mem)
    else
      var d := ParseDirective(s[1..]);
      if d.conversion == INVALID then Fits(s[1..], args, mem)
      else args != [] && (d.conversion == STR ==> Terminated(mem, args[0])) && Fits(s[1 + d.size..], args[1..], mem)
  }

  /** What one valid directive prints. */
  ghost function Item(d: Directive, arg: u64, mem: seq<byte>): seq<byte>
    requires d.conversion != INVALID && (d.conversion == STR ==> Terminated(mem, arg))
    requires d.conversion == NUMBER || d.conversion == PTR ==> 2 <= d.spec.base <= 16
  {
    match d.conversion
    case CHAR => [arg % 256]
    case STR => Str(mem, arg)
    case NUMBER => NumberText(Argument(arg, d.spec), d.spec)
    case PTR => NumberText(arg, d.spec)
  }

  ghost function Render(s: seq<byte>, args: seq<u64>, mem: seq<byte>): seq<byte>
    requires Fits(s, args, mem)
    decreases |s|
  {
    if s == [] then []
    else if s[0] != PERCENT then [s[0]] + Render(s[1..], args, mem)
    else
      var d := ParseDirective(s[1..]);
      if d.conversion == INVALID then [PERCENT] + Render(s[1..], args, mem)
      else Item(d, args[0], mem) + Render(s[1 + d.size..], args[1..], mem)
  }

  /** Number of '%' that start no directive. */
  function Invalids(s: seq<byte>): nat
    decreases |s|
  {
    if s == [] then 0
    else if s[0] != PERCENT then Invalids(s[1..])
    else
      var d := ParseDirective(s[1..]);
      if d.conversion == INVALID then 1 + Invalids(s[1..]) else Invalids(s[1 + d.size..])
  }

  // ---- Laws ----

  lemma QuotientHalves(n: nat, base: nat)
    requires base >= 2
    ensures 2 * (n / base) <= n
  {
    var q := n / base;
    assert n == q * base + n % base;
    assert q * base == q * (base - 2) + 2 * q;
  }

  /** A digit string of base 2 or more is no longer than the number has bits. */
  lemma {:induction false} NumeralLength(n: nat, base: nat, uppercase: bool, k: nat)
    requires 2 <= base <= 16 && n < Pow2(k)
    ensures |Numeral(n, base, uppercase)| <= k
    decreases k
  {
    hide DigitChar;
    if n > 0 && k > 0 {
      QuotientHalves(n, base);
      NumeralLength(n / base, base, uppercase, k - 1);
    }
  }

  lemma {:induction false} NumeralValue(n: nat, uppercase: bool)
    ensures AllDigits(Numeral(n, 10, uppercase), 10) && Value(Numeral(n, 10, uppercase), 10) == n
  {
    if n > 0 {
      hide Value, AllDigits, Digit, DigitChar;
      NumeralValue(n / 10, uppercase);
      var s, c := Numeral(n, 10, uppercase), DigitChar(n % 10, uppercase);
      assert s[..|s| - 1] == Numeral(n / 10, 10, uppercase) && s[|s| - 1] == c && s[..|s|] == s;
      DecimalDigit(n % 10, uppercase);
      ValueStep(s, |s| - 1, 10);
    } else {
      NoDigits(10);
    }
  }

  lemma DecimalDigit(d: nat, uppercase: bool)
    requires d < 10
    ensures Digit(DigitChar(d, uppercase)) == d
  {
  }

  lemma {:induction false} LeadingZeros(n: nat, s: seq<byte>)
    requires AllDigits(s, 10)
    ensures AllDigits(Zeros(n) + s, 10) && Value(Zeros(n) + s, 10) == Value(s, 10)
    decreases |s|, n
  {
    var z := Zeros(n) + s;
    if s != [] {
      LeadingZeros(n, s[..|s| - 1]);
      assert z[..|z| - 1] == Zeros(n) + s[..|s| - 1];
    } else if n > 0 {
      LeadingZeros(n - 1, s);
      assert z[..|z| - 1] == Zeros(n - 1) + s;
    } else {
      assert z == s;
    }
  }

  lemma MagnitudeValue(n: nat, f: FmtSpecifier)
    requires f.base == 10
    ensures AllDigits(Magnitude(n, f), 10) && Value(Magnitude(n, f), 10) == n
  {
    if n == 0 {
      assert [ZERO][..0] == [];
    } else {
      NumeralValue(n, f.uppercase);
      LeadingZeros(Padding(f, |Numeral(n, 10, f.uppercase)|), Numeral(n, 10, f.uppercase));
    }
  }

  /** strtou64() in base 10 reads back the magnitude of what is printed in base 10, whatever the padding,
      except behind a '#' prefix, where it reads 0. */
  lemma PrintParse(v: int, f: FmtSpecifier)
    requires f.base == 10 && Abs(v) < WORD
    ensures Number(NumberText(v, f), 10) == if f.prefix then 0 else Abs(v)
  {
    hide Magnitude, Value;
    var text, digits := NumberText(v, f), Magnitude(Abs(v), f);
    var body := Prefix(f) + digits;
    MagnitudeValue(Abs(v), f);
    DigitsArePlain(digits);
    SmallMod(Abs(v), WORD);
    if v < 0 {
      assert text == [MINUS] + body;
      assert Take(text, 1) == [MINUS] && text[1..] == body;
    } else {
      assert text == body;
    }
    if f.prefix {
      assert Take(body, 2) == [ZERO, 120];
      assert v >= 0 ==> Take(text, 1)[0] == ZERO;
    } else {
      assert body == digits;
    }
  }

  // ---- Printing loses nothing ----

  lemma DigitCharInjective(c: nat, d: nat, uppercase: bool)
    requires c < 16 && d < 16
    ensures DigitChar(c, uppercase) == DigitChar(d, uppercase) <==> c == d
    ensures DigitChar(c, uppercase) == ZERO <==> c == 0
    ensures DigitChar(c, uppercase) != MINUS
  {
  }

  /** Some zeros and the digits of a number. */
  function Padded(k: nat, n: nat, base: nat, uppercase: bool): seq<byte>
    requires 2 <= base <= 16
  {
    Zeros(k) + Numeral(n, base, uppercase)
  }

  /** The last digit, and the zeros and digits before it. */
  lemma PaddedStep(k: nat, n: nat, base: nat, uppercase: bool) returns (k2: nat, n2: nat, c: nat)
    requires 2 <= base <= 16 && Padded(k, n, base, uppercase) != []
    ensures c < 16 && n == n2 * base + c && (n > 0 ==> n2 < n) && (n == 0 ==> n2 == 0)
    ensures Padded(k, n, base, uppercase) == Padded(k2, n2, base, uppercase) + [DigitChar(c, uppercase)]
  {
    n2, c := n / base, n % base;
    QuotientHalves(n, base);
    k2 := if n > 0 then k else k - 1;
  }

  lemma SnocInjective(s: seq<byte>, c: byte, t: seq<byte>, d: byte)
    requires s + [c] == t + [d]
    ensures s == t && c == d
  {
    assert (s + [c])[|s|] == c && (t + [d])[|t|] == d;
    assert s == (s + [c])[..|s|] && t == (t + [d])[..|t|];
  }

  /** Zeros and digits determine the number, in every base. */
  lemma {:induction false} PaddedInjective(k: nat, n: nat, l: nat, m: nat, base: nat, uppercase: bool)
    requires 2 <= base <= 16
    requires Padded(k, n, base, uppercase) == Padded(l, m, base, uppercase)
    ensures n == m
    decreases n + m
  {
    hide Padded, DigitChar;
    EmptyOnlyForZero(k, n, base, uppercase);
    EmptyOnlyForZero(l, m, base, uppercase);
    if n > 0 || m > 0 {
      var k2, n2, c := PaddedStep(k, n, base, uppercase);
      var l2, m2, d := PaddedStep(l, m, base, uppercase);
      DigitCharInjective(c, d, uppercase);
      SnocInjective(Padded(k2, n2, base, uppercase), DigitChar(c, uppercase),
                    Padded(l2, m2, base, uppercase), DigitChar(d, uppercase));
      PaddedInjective(k2, n2, l2, m2, base, uppercase);
    }
  }

  lemma EmptyOnlyForZero(k: nat, n: nat, base: nat, uppercase: bool)
    requires 2 <= base <= 16
    ensures Padded(k, n, base, uppercase) == [] <==> k == 0 && n == 0
  {
  }

  /** What is printed of a magnitude is zeros and digits. */
  lemma MagnitudeIsPadded(n: nat, f: FmtSpecifier) returns (k: nat)
    requires 2 <= f.base <= 16
    ensures Magnitude(n, f) == Padded(k, n, f.base, f.uppercase)
    ensures Magnitude(n, f) != [] && Magnitude(n, f)[0] != MINUS
  {
    if n == 0 {
      k := 1;
      assert Zeros(1) == Zeros(0) + [ZERO];
    } else {
      k := Padding(f, |Numeral(n, f.base, f.uppercase)|);
    }
    NoMinus(k, n, f.base, f.uppercase);
    assert Magnitude(n, f)[0] in Padded(k, n, f.base, f.uppercase);
  }

  lemma {:induction false} NoMinus(k: nat, n: nat, base: nat, uppercase: bool)
    requires 2 <= base <= 16
    ensures forall c :: c in Padded(k, n, base, uppercase) ==> c != MINUS
    decreases |Padded(k, n, base, uppercase)|
  {
    hide DigitChar, Padded;
    if Padded(k, n, base, uppercase) != [] {
      var k2, n2, c := PaddedStep(k, n, base, uppercase);
      NoMinus(k2, n2, base, uppercase);
      DigitCharInjective(c, 0, uppercase);
    }
  }

  /** Different numbers print differently, whatever the base, width, flag and case. */
  lemma PrintIsInjective(v: int, w: int, f: FmtSpecifier)
    requires 2 <= f.base <= 16 && NumberText(v, f) == NumberText(w, f)
    ensures v == w
  {
    hide Magnitude, Padded;
    var k := MagnitudeIsPadded(Abs(v), f);
    var l := MagnitudeIsPadded(Abs(w), f);
    assert v < 0 <==> NumberText(v, f)[0] == MINUS;
    assert w < 0 <==> NumberText(w, f)[0] == MINUS;
    var front := Sign(v) + Prefix(f);
    assert NumberText(v, f)[|front|..] == Magnitude(Abs(v), f);
    assert NumberText(w, f)[|front|..] == Magnitude(Abs(w), f);
    PaddedInjective(k, Abs(v), l, Abs(w), f.base, f.uppercase);
  }
}

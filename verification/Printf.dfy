/** src/printf.c: the formatter, proved against the reference in Format. */
module Printf {
  import opened Bits64
  import opened CString
  import opened Format

  /** buf with text written from position at on. */
  function Overwrite(buf: seq<byte>, at: nat, text: seq<byte>): (r: seq<byte>)
    requires at + |text| <= |buf|
    ensures |r| == |buf|
  {
    buf[..at] + text + buf[at + |text|..]
  }

  lemma OverwriteTwice(buf: seq<byte>, at: nat, t: seq<byte>, u: seq<byte>)
    requires at + |t| + |u| <= |buf|
    ensures Overwrite(Overwrite(buf, at, t), at + |t|, u) == Overwrite(buf, at, t + u)
  {
    var once := Overwrite(buf, at, t);
    assert once[..at + |t|] == buf[..at] + t;
    assert once[at + |t| + |u|..] == buf[at + |t| + |u|..];
  }

  lemma OverwriteNothing(buf: seq<byte>, at: nat)
    requires at <= |buf|
    ensures Overwrite(buf, at, []) == buf
  {
  }

  /** *buf++ = c */
  method Put(buf: array<byte>, at: nat, c: byte) returns (next: nat)
    requires at < buf.Length
    modifies buf
    ensures next == at + 1 && buf[..] == Overwrite(old(buf[..]), at, [c])
  {
    buf[at] := c;
    next := at + 1;
  }

  // ---- Number conversion ----

  /** The arithmetic shift of an i64. */
  function Sar(x: u64, k: nat): u64 {
    Pow2Positive(k);
    (AsInt(x, true) / Pow2(k)) % WORD
  }

  /** The integer a u64 stands for, read as i64 if signed. */
  function AsInt(x: u64, signed: bool): int {
    if signed && x >= WORD / 2 then x - WORD else x
  }

  /** A shift by 64, for a directive without a length, shifts by the low six bits: not at all. */
  function NumberTruncate(number: u64, spec: FmtSpecifier): u64
    requires spec.length <= 8
  {
    var shift := (64 - 8 * spec.length) % 64;
    var up := Shl(number, shift);
    if spec.signed then Sar(up, shift) else Shr(up, shift)
  }

  lemma {:induction false} Pow2Sum(a: nat, b: nat)
    ensures Pow2(a) * Pow2(b) == Pow2(a + b)
  {
    if b > 0 {
      Pow2Sum(a, b - 1);
    }
  }

  /** Multiplying by p cuts n down to its remainder modulo WORD / p. */
  lemma LowPart(n: nat, p: nat, m: nat)
    requires p > 0 && m > 0 && p * m == WORD
    ensures n * p % WORD == n % m * p && n % m * p < WORD
  {
    var q, r := n / m, n % m;
    assert n * p == q * WORD + r * p by {
      assert n * p == (q * m + r) * p == q * (m * p) + r * p;
    }
    assert r * p < m * p by {
      MulStep(m - r, p);
      assert (m - r) * p == m * p - r * p;
    }
    DivModUnique(n * p, WORD, q, r * p);
  }

  lemma ShiftBack(r: int, p: int)
    requires p > 0
    ensures r * p / p == r
  {
    DivModUnique(r * p, p, r, 0);
  }

  /** Both shifts together, as arithmetic: p is two to the shift, m two to the argument's bits. */
  lemma ShiftedLowPart(n: u64, shift: nat, p: nat, m: nat)
    requires p == Pow2(shift) && p > 0 && m > 0 && p * m == WORD
    ensures Shl(n, shift) == n % m * p
    ensures Shr(Shl(n, shift), shift) == n % m
    ensures Sar(Shl(n, shift), shift) == if n % m * p >= WORD / 2 then (n % m - m) % WORD else n % m % WORD
  {
    hide ShiftUp, Shr;
    ShiftUpIsTimes(n, shift);
    LowPart(n, p, m);
    var up, r := Shl(n, shift), n % m;
    ShrIsQuotient(up, shift);
    ShiftBack(r, p);
    assert up - WORD == (r - m) * p;
    ShiftBack(r - m, p);
  }

  /** Shifting up and down again reads exactly the low bits of the argument. */
  lemma TruncateReadsArgument(n: u64, spec: FmtSpecifier)
    requires spec.length in {0, 1, 2, 8}
    ensures AsInt(NumberTruncate(n, spec), spec.signed) == Argument(n, spec)
  {
    hide ShiftUp, Shl, Shr, Sar;
    var shift := (64 - 8 * spec.length) % 64;
    var p, m := Pow2(shift), Pow2(Bits(spec));
    Pow2Sum(shift, Bits(spec));
    Pow2Of64();
    Pow2Positive(shift);
    Pow2Positive(Bits(spec));
    var r := n % m;
    ShiftedLowPart(n, shift, p, m);
    HalfWay(r, p, m, Bits(spec));
    if spec.signed && r >= m / 2 {
      DivModUnique(r - m, WORD, -1, WORD + r - m);
    } else {
      SmallMod(r, WORD);
    }
  }

  /** The top bit survives the shift. */
  lemma HalfWay(r: nat, p: nat, m: nat, bits: nat)
    requires bits > 0 && m == Pow2(bits) && p > 0 && p * m == WORD && r < m
    ensures r * p >= WORD / 2 <==> r >= m / 2
    ensures m <= WORD && (r >= m / 2 ==> WORD + r - m >= WORD / 2) && (r < m / 2 ==> r < WORD / 2)
  {
    var h := Pow2(bits - 1);
    assert m == 2 * h;
    Halved(p, h, WORD);
    SameOrder(r, h, p);
  }

  lemma Halved(p: nat, h: nat, word: nat)
    requires p > 0 && p * (2 * h) == word
    ensures h * p == word / 2 && 2 * h <= word && word % 2 == 0
  {
    assert p * (2 * h) == 2 * (h * p);
    assert (p - 1) * (2 * h) >= 0;
    assert (p - 1) * (2 * h) == p * (2 * h) - 2 * h;
  }

  lemma SameOrder(r: nat, h: nat, p: nat)
    requires p > 0
    ensures r * p >= h * p <==> r >= h
  {
    assert (r - h) * p == r * p - h * p;
    if r < h {
      assert (h - r) * p > 0;
    }
  }

  // ---- number() ----

  const UPPER: seq<byte> := [48, 49, 50, 51, 52, 53, 54, 55, 56, 57, 65, 66, 67, 68, 69, 70]
  const LOWER: seq<byte> := [48, 49, 50, 51, 52, 53, 54, 55, 56, 57, 97, 98, 99, 100, 101, 102]

  function Reversed(s: seq<byte>): (r: seq<byte>)
    ensures |r| == |s|
  {
    if s == [] then [] else [s[|s| - 1]] + Reversed(s[..|s| - 1])
  }

  lemma DigitTables(d: nat, uppercase: bool)
    requires d < 16
    ensures (if uppercase then UPPER else LOWER)[d] == DigitChar(d, uppercase)
  {
  }

  lemma NumeralStep(n: nat, base: nat, uppercase: bool)
    requires n > 0 && 2 <= base <= 16
    ensures n / base < n && n % base < 16
    ensures Numeral(n, base, uppercase)
         == Numeral(n / base, base, uppercase) + [(if uppercase then UPPER else LOWER)[n % base]]
  {
    hide DigitChar;
    QuotientHalves(n, base);
    DigitTables(n % base, uppercase);
  }

  lemma ReversedSnoc(s: seq<byte>, c: byte)
    ensures Reversed(s + [c]) == [c] + Reversed(s)
  {
    assert (s + [c])[..|s|] == s;
  }

  /** A digit that goes from the end of the numeral to the end of its reverse. */
  lemma DigitMoves(rest: seq<byte>, c: byte, done: seq<byte>)
    ensures rest + [c] + Reversed(done) == rest + Reversed(done + [c])
  {
    hide Reversed;
    ReversedSnoc(done, c);
  }

  lemma ReversedOfNone(s: seq<byte>)
    requires s == []
    ensures Reversed(s) == []
  {
  }

  /** The digits, lowest first: src/printf.c:92-97. */
  method InverseDigits(n: u64, spec: FmtSpecifier) returns (tmp: array<byte>, i: nat)
    requires 2 <= spec.base <= 16
    ensures fresh(tmp) && i <= tmp.Length && Reversed(tmp[..i]) == Numeral(n, spec.base, spec.uppercase)
  {
    hide Numeral, Reversed;
    tmp := new byte[64](_ => 0);
    i := 0;
    var number: u64 := n;
    var digits := if spec.uppercase then UPPER else LOWER;
    ghost var numeral := Numeral(n, spec.base, spec.uppercase);
    Pow2Of64();
    NumeralLength(n, spec.base, spec.uppercase, 64);
    while number > 0
      invariant i + |Numeral(number, spec.base, spec.uppercase)| == |numeral| <= tmp.Length == 64
      invariant Numeral(number, spec.base, spec.uppercase) + Reversed(tmp[..i]) == numeral
      decreases number
    {
      NumeralStep(number, spec.base, spec.uppercase);
      ghost var rest, done := Numeral(number / spec.base, spec.base, spec.uppercase), tmp[..i];
      tmp[i] := digits[number % spec.base];
      DigitMoves(rest, tmp[i], done);
      assert tmp[..i + 1] == done + [tmp[i]];
      i := i + 1;
      number := number / spec.base;
    }
    assert Numeral(0, spec.base, spec.uppercase) == [] by {
      NumeralLength(0, spec.base, spec.uppercase, 0);
    }
  }

  /** Zero padding: src/printf.c:99-105. */
  method PutZeros(buf: array<byte>, at: nat, count: nat, size0: nat) returns (end: nat, size: nat)
    requires at + count <= buf.Length && count < size0
    modifies buf
    ensures end == at + count && size == size0 - count
    ensures buf[..] == Overwrite(old(buf[..]), at, Zeros(count))
  {
    hide Overwrite;
    end, size := at, size0;
    var width: nat := count;
    OverwriteNothing(buf[..], at);
    while width > 0
      invariant width <= count && end == at + count - width && size == size0 - (count - width)
      invariant buf[..] == Overwrite(old(buf[..]), at, Zeros(count - width))
    {
      ghost var zeros := Zeros(count - width);
      width := width - 1;
      size := size - 1;
      if size == 0 {
        break;
      }
      OverwriteTwice(old(buf[..]), at, zeros, [ZERO]);
      end := Put(buf, end, ZERO);
    }
  }

  /** Turning the digits round again: src/printf.c:107-110. */
  method PutReversed(buf: array<byte>, at: nat, tmp: array<byte>, count: nat, size0: nat) returns (end: nat)
    requires count <= tmp.Length && at + count <= buf.Length && count < size0 && tmp != buf
    modifies buf
    ensures end == at + count && buf[..] == Overwrite(old(buf[..]), at, Reversed(tmp[..count]))
  {
    hide Overwrite, Reversed;
    end := at;
    var i: nat, size: nat := count, size0;
    ghost var out: seq<byte> := [];
    OverwriteNothing(buf[..], at);
    while i > 0
      invariant i <= count && end == at + |out| == at + count - i && size > i
      invariant out + Reversed(tmp[..i]) == Reversed(tmp[..count])
      invariant buf[..] == Overwrite(old(buf[..]), at, out)
    {
      assert tmp[..i] == tmp[..i - 1] + [tmp[i - 1]];
      ReversedSnoc(tmp[..i - 1], tmp[i - 1]);
      i := i - 1;
      size := size - 1;
      if size == 0 {
        break;
      }
      OverwriteTwice(old(buf[..]), at, out, [tmp[i]]);
      out := out + [tmp[i]];
      end := Put(buf, end, tmp[i]);
    }
    ReversedOfNone(tmp[..i]);
    assert out + Reversed(tmp[..i]) == out;
  }

  /** Sign, prefix, padding and digits. */
  method PutNumber(buf: array<byte>, at: nat, size0: nat, n: u64, spec: FmtSpecifier) returns (end: nat)
    requires 2 <= spec.base <= 16
    requires at + |NumberText(AsInt(n, spec.signed), spec)| <= buf.Length
    requires |NumberText(AsInt(n, spec.signed), spec)| < size0
    modifies buf
    ensures end == at + |NumberText(AsInt(n, spec.signed), spec)|
    ensures buf[..] == Overwrite(old(buf[..]), at, NumberText(AsInt(n, spec.signed), spec))
  {
    hide Numeral, Zeros, Overwrite;
    ghost var v := AsInt(n, spec.signed);
    ghost var sign, prefix, rest := Sign(v), Prefix(spec), Magnitude(Abs(v), spec);
    var size: nat, number: u64 := size0, n;
    end := at;
    OverwriteNothing(buf[..], at);
    if spec.signed && n >= WORD / 2 && size > 1 {
      number := (WORD - n) % WORD;
      end := Put(buf, end, MINUS);
      size := size - 1;
    }
    assert number == Abs(v) && buf[..] == Overwrite(old(buf[..]), at, sign) && end == at + |sign|;
    OverwriteTwice(old(buf[..]), at, sign, prefix);
    if spec.prefix && size > 2 {
      OverwriteTwice(buf[..], end, [ZERO], [120]);
      end := Put(buf, end, ZERO);
      end := Put(buf, end, 120);
      size := size - 2;
      assert [ZERO] + [120] == prefix;
    }
    assert !spec.prefix ==> sign + prefix == sign;
    assert buf[..] == Overwrite(old(buf[..]), at, sign + prefix) && end == at + |sign + prefix|;
    OverwriteTwice(old(buf[..]), at, sign + prefix, rest);
    if number == 0 {
      end := Put(buf, end, ZERO);
      return;
    }
    end := PutMagnitude(buf, end, size, number, spec);
  }

  method PutMagnitude(buf: array<byte>, at: nat, size0: nat, number: u64, spec: FmtSpecifier) returns (end: nat)
    requires 2 <= spec.base <= 16 && number != 0
    requires at + |Magnitude(number, spec)| <= buf.Length && |Magnitude(number, spec)| < size0
    modifies buf
    ensures end == at + |Magnitude(number, spec)|
    ensures buf[..] == Overwrite(old(buf[..]), at, Magnitude(number, spec))
  {
    hide Numeral, Zeros, Reversed, Overwrite;
    var tmp, i := InverseDigits(number, spec);
    ghost var zeros, digits := Zeros(Padding(spec, i)), Numeral(number, spec.base, spec.uppercase);
    end := at;
    var size := size0;
    OverwriteNothing(buf[..], at);
    if spec.zeroPadding && spec.width > i {
      end, size := PutZeros(buf, end, spec.width - i, size);
    } else {
      assert zeros == [];
    }
    OverwriteTwice(old(buf[..]), at, zeros, digits);
    end := PutReversed(buf, end, tmp, i, size);
  }

  /** string() */
  method PutString(buf: array<byte>, at: nat, size0: nat, mem: seq<byte>, p: nat) returns (end: nat)
    requires Terminated(mem, p) && at + |Str(mem, p)| <= buf.Length && |Str(mem, p)| < size0
    modifies buf
    ensures end == at + |Str(mem, p)| && buf[..] == Overwrite(old(buf[..]), at, Str(mem, p))
  {
    hide Overwrite, Str;
    end := at;
    var str: nat, size: nat := p, size0;
    ghost var s := Str(mem, p);
    OverwriteNothing(buf[..], at);
    while size > 0 && mem[str] != 0
      invariant p <= str <= p + |s| && end == at + (str - p) && size + (str - p) == size0
      invariant buf[..] == Overwrite(old(buf[..]), at, s[..str - p])
      decreases size
    {
      ghost var k := str - p;
      EndOfStr(mem, p, k);
      assert s[..k + 1] == s[..k] + [s[k]];
      OverwriteTwice(old(buf[..]), at, s[..k], [s[k]]);
      end := Put(buf, end, mem[str]);
      str := str + 1;
      size := size - 1;
    }
    EndOfStr(mem, p, str - p);
    assert s[..|s|] == s;
  }

  /** character() */
  method PutCharacter(buf: array<byte>, at: nat, size: nat, c: byte) returns (end: nat)
    requires at < buf.Length && size > 1
    modifies buf
    ensures end == at + 1 && buf[..] == Overwrite(old(buf[..]), at, [c])
  {
    end := at;
    if size - 1 > 0 {
      end := Put(buf, at, c);
    }
  }

  // ---- Parsing a directive ----

  predicate IsDigit(c: byte)
    ensures IsDigit(c) <==> Digit(c) < 10
  {
    48 <= c <= 57
  }

  method ParseFlag(mem: seq<byte>, p: nat, spec0: FmtSpecifier) returns (str: nat, spec: FmtSpecifier)
    requires Terminated(mem, p)
    ensures var s := Str(mem, p);
            && str == p + FlagSize(s) && Terminated(mem, str) && Str(mem, str) == s[FlagSize(s)..]
            && spec == spec0.(zeroPadding := spec0.zeroPadding || Take(s, 1) == [ZERO],
                              prefix := spec0.prefix || Take(s, 1) == [HASH])
  {
    str, spec := p, spec0;
    ghost var s := Str(mem, p);
    if mem[p] == ZERO {
      spec := spec.(zeroPadding := true);
      str := str + 1;
      assert Take(s, 1) == [ZERO];
    } else if mem[p] == HASH {
      spec := spec.(prefix := true);
      str := str + 1;
      assert Take(s, 1) == [HASH];
    } else {
      assert s != [] ==> Take(s, 1)[0] == mem[p];
    }
    StrSuffix(mem, p, FlagSize(s));
  }

  /** One more digit, in a u8. */
  function WidthStep(width: nat, digit: nat): nat {
    (width * 10 % 256 + digit) % 256
  }

  lemma WidthSteps(s: seq<byte>, k: nat)
    requires k < |s|
    ensures WidthStep(Value(s[..k], 10) % 256, Digit(s[k])) == Value(s[..k + 1], 10) % 256
    ensures AllDigits(s[..k + 1], 10) <==> AllDigits(s[..k], 10) && Digit(s[k]) < 10
  {
    hide Value, AllDigits, Digit;
    ValueStep(s, k, 10);
    AccumulateMod(Value(s[..k], 10), 10, Digit(s[k]), 256);
  }

  lemma ValueOfNone()
    ensures Value([], 10) == 0 && AllDigits([], 10)
  {
  }

  method ParseWidth(mem: seq<byte>, p: nat, spec0: FmtSpecifier) returns (str: nat, spec: FmtSpecifier)
    requires Terminated(mem, p)
    ensures var s := Str(mem, p);
            && str == p + DigitRun(s) && Terminated(mem, str) && Str(mem, str) == s[DigitRun(s)..]
            && spec == spec0.(width := Value(s[..DigitRun(s)], 10) % 256)
  {
    hide Str, Value, DigitRun, Digit, AllDigits, WidthStep, Terminated;
    var width: nat := 0;
    str := p;
    ghost var s := Str(mem, p);
    assert s[..0] == [];
    ValueOfNone();
    while IsDigit(mem[str])
      invariant p <= str <= p + |s| && AllDigits(s[..str - p], 10) && width == Value(s[..str - p], 10) % 256
      decreases p + |s| - str
    {
      EndOfStr(mem, p, str - p);
      WidthSteps(s, str - p);
      width := WidthStep(width, Digit(mem[str]));
      str := str + 1;
    }
    EndOfStr(mem, p, str - p);
    DigitRunIs(s, str - p);
    StrSuffix(mem, p, str - p);
    spec := spec0.(width := width);
  }

  method ParseLength(mem: seq<byte>, p: nat, spec0: FmtSpecifier) returns (str: nat, spec: FmtSpecifier)
    requires Terminated(mem, p)
    ensures var s := Str(mem, p);
            && str == p + LengthSize(s) && Terminated(mem, str) && Str(mem, str) == s[LengthSize(s)..]
            && spec == spec0.(length := LengthOf(s))
  {
    var length: nat := 0;
    str := p;
    ghost var s := Str(mem, p);
    var ll := HasPrefix(mem, p, [108, 108]);
    var hh := HasPrefix(mem, p, [104, 104]);
    var l := HasPrefix(mem, p, [108]);
    var h := HasPrefix(mem, p, [104]);
    if ll {
      str := str + 2;
      length := 8;
    } else if hh {
      str := str + 2;
      length := 1;
    } else if l {
      str := str + 1;
      length := 8;
    } else if h {
      str := str + 1;
      length := 2;
    }
    StrSuffix(mem, p, LengthSize(s));
    spec := spec0.(length := length);
  }

  /** Behind the last conversion parse_type() also steps over a byte that is none. */
  method ParseType(mem: seq<byte>, p: nat, spec0: FmtSpecifier)
    returns (str: nat, conversion: Conversion, spec: FmtSpecifier)
    requires p < |mem| && !spec0.signed && !spec0.uppercase
    ensures str == p + 1 && conversion == ConversionOf(mem[p])
    ensures spec == spec0.(signed := mem[p] == 100, uppercase := mem[p] == 88,
                           prefix := spec0.prefix || mem[p] == 112, base := BaseOf(mem[p]))
  {
    str := p + 1;
    spec := spec0.(base := 0);
    match mem[p]
    case 99 =>
      conversion := CHAR;
    case 100 =>
      spec := spec.(signed := true, base := 10);
      conversion := NUMBER;
    case 117 =>
      spec := spec.(base := 10);
      conversion := NUMBER;
    case 120 =>
      spec := spec.(base := 16);
      conversion := NUMBER;
    case 88 =>
      spec := spec.(uppercase := true, base := 16);
      conversion := NUMBER;
    case 115 =>
      conversion := STR;
    case 112 =>
      spec := spec.(prefix := true, base := 16);
      conversion := PTR;
    case _ =>
      conversion := INVALID;
  }

  method ParseSpecifier(mem: seq<byte>, p: nat) returns (str: nat, conversion: Conversion, spec: FmtSpecifier)
    requires Terminated(mem, p)
    ensures str >= p && Directive(conversion, spec, str - p) == ParseDirective(Str(mem, p))
  {
    hide Str, Value, DigitRun, Digit, AllDigits, LengthOf, LengthSize, ConversionOf, BaseOf, Take, FlagSize,
         ParseDirective, Terminated;
    ghost var s := Str(mem, p);
    ghost var f := FlagSize(s);
    ghost var w := f + DigitRun(s[f..]);
    str, spec := ParseFlag(mem, p, NO_SPEC);
    str, spec := ParseWidth(mem, str, spec);
    assert s[f..][..DigitRun(s[f..])] == s[f..w] && s[f..][DigitRun(s[f..])..] == s[w..];
    str, spec := ParseLength(mem, str, spec);
    TerminatedNext(mem, str);
    EndOfStr(mem, p, str - p);
    DirectiveAt(s, w, str - p, mem[str]);
    str, conversion, spec := ParseType(mem, str, spec);
  }

  // ---- vsnprintf() ----

  /** enum fmt_state; the states that one of the conversions takes are one constructor. */
  datatype FmtState = NONE | SPECIFIER | CONVERT(conversion: Conversion) | END

  /** How far the format s has been printed: out, from s[..r] and args[..k]. */
  ghost predicate Printed(s: seq<byte>, args: seq<u64>, mem: seq<byte>, r: nat, k: nat, out: seq<byte>, size: nat) {
    && r <= |s| && k <= |args| && Fits(s, args, mem) && Fits(s[r..], args[k..], mem)
    && Render(s, args, mem) == out + Render(s[r..], args[k..], mem)
    && |out| + |Render(s[r..], args[k..], mem)| + Invalids(s[r..]) < size
  }

  lemma LiteralStep(s: seq<byte>, args: seq<u64>, mem: seq<byte>, r: nat, k: nat, out: seq<byte>, size: nat)
    requires Printed(s, args, mem, r, k, out, size) && r < |s| && s[r] != PERCENT
    ensures |out| + 1 < size && Printed(s, args, mem, r + 1, k, out + [s[r]], size)
  {
    hide Item, ParseDirective;
    assert s[r..][1..] == s[r + 1..];
  }

  lemma InvalidStep(s: seq<byte>, args: seq<u64>, mem: seq<byte>, r: nat, k: nat, out: seq<byte>, size: nat)
    requires Printed(s, args, mem, r, k, out, size) && r < |s| && s[r] == PERCENT
    requires ParseDirective(s[r + 1..]).conversion == INVALID
    ensures |out| + 1 < size - 1 && Printed(s, args, mem, r + 1, k, out + [PERCENT], size - 1)
  {
    hide Item, ParseDirective;
    assert s[r..][1..] == s[r + 1..];
  }

  lemma ItemStep(s: seq<byte>, args: seq<u64>, mem: seq<byte>, r: nat, k: nat, out: seq<byte>, size: nat, d: Directive)
    requires Printed(s, args, mem, r, k, out, size) && r < |s| && s[r] == PERCENT
    requires d == ParseDirective(s[r + 1..]) && d.conversion != INVALID
    ensures k < |args| && (d.conversion == STR ==> Terminated(mem, args[k]))
    ensures |out| + |Item(d, args[k], mem)| < size && r + 1 + d.size <= |s|
    ensures Printed(s, args, mem, r + 1 + d.size, k + 1, out + Item(d, args[k], mem), size)
  {
    hide Item, ParseDirective;
    assert s[r..][1..] == s[r + 1..] && s[r..][1 + d.size..] == s[r + 1 + d.size..];
    assert args[k..][1..] == args[k + 1..];
  }

  /** What each state knows about the string pointers, where s[r..] is still to be printed. */
  ghost predicate At(s: seq<byte>, fmtStr: nat, r: nat, state: FmtState, str: nat, percent: nat, spec: FmtSpecifier) {
    match state
    case NONE => str == fmtStr + r
    case END => r == |s|
    case SPECIFIER => r < |s| && s[r] == PERCENT && percent == fmtStr + r && str == percent + 1
    case CONVERT(c) =>
      && r < |s| && s[r] == PERCENT && percent == fmtStr + r && percent < str
      && Directive(c, spec, str - percent - 1) == ParseDirective(s[r + 1..])
  }

  lemma SpecifierFields(s: seq<byte>)
    ensures var d := ParseDirective(s); && d.spec.length in {0, 1, 2, 8} && (d.conversion == PTR ==> !d.spec.signed)
  {
  }

  /** One argument: the states NUMBER, STR, CHAR and PTR. */
  method PutItem(buf: array<byte>, bufp: nat, size: nat, mem: seq<byte>, d: Directive, arg: u64) returns (end: nat)
    requires d.conversion != INVALID && (d.conversion == STR ==> Terminated(mem, arg))
    requires d.conversion == NUMBER || d.conversion == PTR ==> 2 <= d.spec.base <= 16
    requires d.spec.length in {0, 1, 2, 8} && (d.conversion == PTR ==> !d.spec.signed)
    requires bufp + |Item(d, arg, mem)| < size <= buf.Length
    modifies buf
    ensures end == bufp + |Item(d, arg, mem)| && buf[..] == Overwrite(old(buf[..]), bufp, Item(d, arg, mem))
  {
    hide NumberText, NumberTruncate, Argument, Str, Overwrite, AsInt;
    var remaining := size - bufp;
    match d.conversion
    case NUMBER =>
      TruncateReadsArgument(arg, d.spec);
      var num := NumberTruncate(arg, d.spec);
      end := PutNumber(buf, bufp, remaining, num, d.spec);
    case STR =>
      end := PutString(buf, bufp, remaining, mem, arg);
    case CHAR =>
      end := PutCharacter(buf, bufp, size, arg % 256);
    case PTR =>
      Unsigned(arg);
      end := PutNumber(buf, bufp, size, arg, d.spec);
  }

  lemma Unsigned(x: u64)
    ensures AsInt(x, false) == x
  {
  }

  /** With room for the output and for one byte more per invalid directive, the whole rendering is written. */
  method Vsnprintf(buf: array<byte>, size0: nat, mem: seq<byte>, fmtStr: nat, args: seq<u64>)
    requires Terminated(mem, fmtStr) && Fits(Str(mem, fmtStr), args, mem)
    requires |Render(Str(mem, fmtStr), args, mem)| + Invalids(Str(mem, fmtStr)) < size0 <= buf.Length
    modifies buf
    ensures buf[..] == Overwrite(old(buf[..]), 0, Render(Str(mem, fmtStr), args, mem) + [0])
  {
    hide Str, Overwrite, Fits, Render, Invalids, ParseDirective, Item, Terminated, Printed;
    ghost var s, r, out, before := Str(mem, fmtStr), 0, [], buf[..];
    var state, str, percent, spec, bufp, size, argp := NONE, fmtStr, fmtStr, NO_SPEC, 0, size0, 0;
    PrintedNothing(s, args, mem, size0);
    OverwriteNothing(before, 0);
    while state != END && size > 1
      invariant 0 <= argp && 0 <= bufp && 0 <= str && 0 <= percent && 0 <= r
      invariant |out| < size <= buf.Length && r <= |s| && Printed(s, args, mem, r, argp, out, size)
      invariant At(s, fmtStr, r, state, str, percent, spec)
      invariant bufp == |out| && buf[..] == Overwrite(before, 0, out)
      decreases if state == END then 0 else |s| - r + 1, if state == NONE then 2 else if state == SPECIFIER then 1 else 0
    {
      match state
      case NONE =>
        EndOfStr(mem, fmtStr, r);
        if mem[str] == 0 {
          state := END;
        } else if mem[str] == PERCENT {
          spec := NO_SPEC;
          percent := str;
          str := str + 1;
          state := SPECIFIER;
        } else {
          LiteralStep(s, args, mem, r, argp, out, size);
          OverwriteTwice(before, 0, out, [s[r]]);
          bufp := Put(buf, bufp, mem[str]);
          str := str + 1;
          r, out := r + 1, out + [s[r]];
        }
      case SPECIFIER =>
        StrSuffix(mem, fmtStr, r + 1);
        var conversion;
        str, conversion, spec := ParseSpecifier(mem, str);
        state := CONVERT(conversion);
      case CONVERT(INVALID) =>
        InvalidStep(s, args, mem, r, argp, out, size);
        OverwriteTwice(before, 0, out, [PERCENT]);
        size := size - 1;
        if size > 0 {
          bufp := Put(buf, bufp, PERCENT);
        }
        str := percent + 1;
        state := NONE;
        r, out := r + 1, out + [PERCENT];
      case CONVERT(conversion) =>
        var d := Directive(conversion, spec, str - percent - 1);
        ItemStep(s, args, mem, r, argp, out, size, d);
        SpecifierFields(s[r + 1..]);
        OverwriteTwice(before, 0, out, Item(d, args[argp], mem));
        r, out := r + 1 + d.size, out + Item(d, args[argp], mem);
        bufp := PutItem(buf, bufp, size, mem, d, args[argp]);
        argp := argp + 1;
        state := NONE;
    }
    PrintedAll(s, args, mem, r, argp, out, size);
    OverwriteTwice(before, 0, out, [0]);
    bufp := Put(buf, bufp, 0);
  }

  lemma PrintedNothing(s: seq<byte>, args: seq<u64>, mem: seq<byte>, size: nat)
    requires Fits(s, args, mem) && |Render(s, args, mem)| + Invalids(s) < size
    ensures Printed(s, args, mem, 0, 0, [], size)
  {
  }

  /** Nothing is left to print at the end of the format, nor when a single byte of room is left. */
  lemma PrintedAll(s: seq<byte>, args: seq<u64>, mem: seq<byte>, r: nat, k: nat, out: seq<byte>, size: nat)
    requires Printed(s, args, mem, r, k, out, size) && (r == |s| || size <= 1)
    ensures out == Render(s, args, mem)
  {
  }

  // ---- Printing and parsing back ----

  /** An argument is no larger than its word. */
  lemma ArgumentFits(n: u64, spec: FmtSpecifier)
    requires spec.length in {0, 1, 2, 8}
    ensures Abs(Argument(n, spec)) < WORD
  {
    hide Pow2;
    var m := Pow2(Bits(spec));
    Pow2Positive(Bits(spec));
    Pow2Even(Bits(spec));
    if n < m {
      SmallMod(n, m);
    }
  }

  lemma Pow2Even(k: nat)
    requires k > 0
    ensures Pow2(k) == 2 * Pow2(k - 1)
  {
  }

  lemma DigitsHaveNoNul(n: nat, f: FmtSpecifier, i: nat)
    requires f.base == 10 && i < |Magnitude(n, f)|
    ensures Magnitude(n, f)[i] != 0
  {
    MagnitudeValue(n, f);
    assert Digit(Magnitude(n, f)[i]) < 10;
  }

  /** What a single decimal directive leaves in the buffer parses back to the magnitude of its argument,
      whatever its flag, width, length and signedness, as long as the flag is not '#'. */
  lemma PrintedNumberParses(s: seq<byte>, n: u64, mem: seq<byte>, before: seq<byte>)
    requires var d := ParseDirective(s);
             && d.conversion == NUMBER && d.size == |s| && d.spec.base == 10 && !d.spec.prefix
             && |NumberText(Argument(n, d.spec), d.spec)| < |before|
    ensures Fits([PERCENT] + s, [n], mem)
    ensures |Render([PERCENT] + s, [n], mem)| < |before|
    ensures var after := Overwrite(before, 0, Render([PERCENT] + s, [n], mem) + [0]);
            && Terminated(after, 0)
            && Number(Str(after, 0), 10) == Abs(Argument(n, ParseDirective(s).spec))
  {
    hide ParseDirective, NumberText, Number, Argument, Terminated, Str, Magnitude;
    var d, format := ParseDirective(s), [PERCENT] + s;
    assert format[1..] == s && format[1 + d.size..] == [] && [n][1..] == [];
    var v := Argument(n, d.spec);
    var text := NumberText(v, d.spec);
    assert Render(format, [n], mem) == text + [] == text;
    SpecifierFields(s);
    ArgumentFits(n, d.spec);
    PrintParse(v, d.spec);
    TextHasNoNul(v, d.spec);
    var after := Overwrite(before, 0, text + [0]);
    assert after[0..0 + |text|] == text && after[|text|] == 0;
    StrIs(after, 0, text);
  }

  lemma TextHasNoNul(v: int, f: FmtSpecifier)
    requires f.base == 10
    ensures forall i :: 0 <= i < |NumberText(v, f)| ==> NumberText(v, f)[i] != 0
  {
    hide Magnitude;
    var front := Sign(v) + Prefix(f);
    forall i | 0 <= i < |NumberText(v, f)| ensures NumberText(v, f)[i] != 0 {
      if i >= |front| {
        DigitsHaveNoNul(Abs(v), f, i - |front|);
      }
    }
  }
}

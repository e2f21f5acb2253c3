/** What each directive of a format string prints, read by an independent reader of numerals. */
module FormatLaws {
  import opened Bits64
  import opened CString
  import opened Numerals
  import opened Format

  // ---- The text of directives ----

  predicate FlagText(f: seq<byte>) {
    f == [] || f == Bytes("0") || f == Bytes("#")
  }

  predicate LengthText(l: seq<byte>) {
    l == [] || l == Bytes("hh") || l == Bytes("h") || l == Bytes("l") || l == Bytes("ll")
  }

  /** A flag, a width and a length.  Without a flag the width has no leading 0, which would be read as the flag. */
  predicate DirectiveText(f: seq<byte>, w: seq<byte>, l: seq<byte>) {
    FlagText(f) && LengthText(l) && Digits(w, 10) && (f == [] && w != [] ==> w[0] != '0' as int)
  }

  predicate Letter(c: byte, letters: string) {
    exists i :: 0 <= i < |letters| && letters[i] as int == c
  }

  function Directive(f: seq<byte>, w: seq<byte>, l: seq<byte>, c: byte): seq<byte> {
    ['%' as int] + (f + (w + (l + [c])))
  }

  lemma LetterMeans(c: byte)
    ensures Letter(c, "d") <==> c == 100
    ensures Letter(c, "u") <==> c == 117
    ensures Letter(c, "x") <==> c == 120
    ensures Letter(c, "X") <==> c == 88
    ensures Letter(c, "du") <==> c == 100 || c == 117
    ensures Letter(c, "duxX") <==> c == 100 || c == 117 || c == 120 || c == 88
    ensures Letter(c, "cduxXsp") <==> c == 99 || c == 100 || c == 117 || c == 120 || c == 88 || c == 115 || c == 112
  {
    assert "d"[0] as int == 100 && "u"[0] as int == 117 && "x"[0] as int == 120 && "X"[0] as int == 88;
    assert "du"[0] as int == 100 && "du"[1] as int == 117;
    var a := "duxX";
    assert a[0] as int == 100 && a[1] as int == 117 && a[2] as int == 120 && a[3] as int == 88;
    var b := "cduxXsp";
    assert b[0] as int == 99 && b[1] as int == 100 && b[2] as int == 117 && b[3] as int == 120;
    assert b[4] as int == 88 && b[5] as int == 115 && b[6] as int == 112;
  }

  /** What follows a flag, a width and a length is no part of them. */
  predicate Stops(f: seq<byte>, w: seq<byte>, l: seq<byte>, m: seq<byte>) {
    m != [] ==>
      && (l == [] ==> !('0' as int <= m[0] <= '9' as int))
      && (l == [] || l == Bytes("h") ==> m[0] != 'h' as int)
      && (l == [] || l == Bytes("l") ==> m[0] != 'l' as int)
      && (f == [] && w == [] && l == [] ==> m[0] != '#' as int)
  }

  lemma LetterStops(f: seq<byte>, w: seq<byte>, l: seq<byte>, c: byte, rest: seq<byte>)
    requires Letter(c, "cduxXsp")
    ensures Stops(f, w, l, [c] + rest)
  {
    LetterMeans(c);
  }

  lemma FlagReads(f: seq<byte>, w: seq<byte>, l: seq<byte>, m: seq<byte>)
    requires DirectiveText(f, w, l) && Stops(f, w, l, m)
    ensures var s := f + (w + (l + m));
            && FlagSize(s) == |f| && s[|f|..] == w + (l + m)
            && (Take(s, 1) == [ZERO] <==> f == Bytes("0")) && (Take(s, 1) == [HASH] <==> f == Bytes("#"))
  {
    var t := w + (l + m);
    var s := f + t;
    if f == [] {
      assert s == t;
      NoFlagByte(w, l, m);
    } else {
      assert s[0] == f[0];
    }
    if s != [] {
      assert Take(s, 1) == [s[0]];
    }
  }

  /** Without a flag the text does not begin like one. */
  lemma NoFlagByte(w: seq<byte>, l: seq<byte>, m: seq<byte>)
    requires DirectiveText([], w, l) && Stops([], w, l, m)
    ensures var t := w + (l + m); t != [] ==> t[0] != HASH && t[0] != ZERO
  {
    var t := w + (l + m);
    if t != [] {
      assert t[0] == if w != [] then w[0] else if l != [] then l[0] else m[0];
    }
  }

  lemma WidthReads(f: seq<byte>, w: seq<byte>, l: seq<byte>, m: seq<byte>)
    requires DirectiveText(f, w, l) && Stops(f, w, l, m)
    ensures var s := w + (l + m); DigitRun(s) == |w| && s[..|w|] == w && s[|w|..] == l + m
  {
    var s := w + (l + m);
    AllDigitsMeans(w, 10);
    assert s[..|w|] == w;
    if |w| < |s| {
      assert s[|w|] == if l == [] then m[0] else l[0];
      DigitMeans(s[|w|], 10);
    }
    DigitRunIs(s, |w|);
  }

  function SizeOf(l: seq<byte>): nat {
    if l == Bytes("hh") then 1 else if l == Bytes("h") then 2 else if l == Bytes("l") || l == Bytes("ll") then 8 else 0
  }

  lemma LengthReads(f: seq<byte>, w: seq<byte>, l: seq<byte>, m: seq<byte>)
    requires LengthText(l) && Stops(f, w, l, m) && DirectiveText(f, w, l)
    ensures var s := l + m; LengthSize(s) == |l| && LengthOf(s) == SizeOf(l)
  {
    var s := l + m;
    hide DirectiveText;
    if s != [] {
      assert Take(s, 1) == [s[0]];
    }
    if |s| >= 2 {
      assert Take(s, 2) == [s[0], s[1]];
    }
    if |l| == 1 && m != [] {
      assert s[1] == m[0];
    }
  }

  lemma Parts(f: seq<byte>, w: seq<byte>, l: seq<byte>, m: seq<byte>)
    ensures var s := f + (w + (l + m));
            && s[|f|..] == w + (l + m) && s[|f| + |w|..] == l + m && s[|f|..|f| + |w|] == w
            && (m != [] ==> s[|f| + |w| + |l|] == m[0])
  {
    var s := f + (w + (l + m));
    assert s[|f| + |w|..] == s[|f|..][|w|..];
    assert s[|f|..|f| + |w|] == s[|f|..][..|w|];
    if m != [] {
      assert s[|f| + |w| + |l|] == s[|f| + |w|..][|l|];
    }
  }

  lemma TextIsLength(f: seq<byte>, w: seq<byte>, l: seq<byte>)
    requires DirectiveText(f, w, l)
    ensures LengthText(l) && Digits(w, 10)
  {
  }

  /** The fields of what is read, whether a conversion follows or not. */
  lemma DirectiveIs(f: seq<byte>, w: seq<byte>, l: seq<byte>, m: seq<byte>)
    requires DirectiveText(f, w, l) && Stops(f, w, l, m)
    ensures var c := if m == [] then 0 else m[0];
            var spec := FmtSpecifier(c == 100, f == Bytes("0"), c == 88, f == Bytes("#") || c == 112, BaseOf(c),
                                     Value(w, 10) % 256, SizeOf(l));
            ParseDirective(f + (w + (l + m))) == Format.Directive(ConversionOf(c), spec, |f| + |w| + |l| + 1)
  {
    hide ParseDirective, DigitRun, FlagSize, LengthSize, LengthOf, Value, Take, SizeOf, ConversionOf, BaseOf, Stops,
         DirectiveText;
    var s := f + (w + (l + m));
    TextIsLength(f, w, l);
    FlagReads(f, w, l, m);
    WidthReads(f, w, l, m);
    LengthReads(f, w, l, m);
    Parts(f, w, l, m);
    DirectiveAt(s, |f| + |w|, |f| + |w| + |l|, if m == [] then 0 else m[0]);
  }

  /** Each text of a directive is read as such: conversion by its letter, base 10 for d and u and 16 for x, X and p,
      signed for d alone, upper case for X alone, 0x for '#' and p, zeros for '0', width modulo 256. */
  lemma DirectiveReads(f: seq<byte>, w: seq<byte>, l: seq<byte>, c: byte, rest: seq<byte>)
    requires DirectiveText(f, w, l) && Letter(c, "cduxXsp")
    ensures var d := ParseDirective(f + (w + (l + ([c] + rest))));
            && d.size == |f| + |w| + |l| + 1
            && (c == 'c' as int <==> d.conversion == CHAR) && (c == 's' as int <==> d.conversion == STR)
            && (c == 'p' as int <==> d.conversion == PTR) && (Letter(c, "duxX") <==> d.conversion == NUMBER)
            && (Letter(c, "duxX") || c == 'p' as int ==> d.spec.base == if Letter(c, "du") then 10 else 16)
            && d.spec.signed == Letter(c, "d") && d.spec.uppercase == Letter(c, "X")
            && d.spec.prefix == (f == Bytes("#") || c == 'p' as int) && d.spec.zeroPadding == (f == Bytes("0"))
            && d.spec.width == Positional(w, 10) % 256 && d.spec.length == SizeOf(l)
  {
    hide ParseDirective, Letter, Positional, Value, SizeOf, DirectiveText, Stops;
    LetterStops(f, w, l, c, rest);
    DirectiveIs(f, w, l, [c] + rest);
    LetterMeans(c);
    TextIsLength(f, w, l);
    AllDigitsMeans(w, 10);
    ValueIsPositional(w, 10);
  }

  // ---- Composition ----

  /** A directive takes one argument, and printing goes on behind it. */
  lemma DirectivePrints(f: seq<byte>, w: seq<byte>, l: seq<byte>, c: byte, rest: seq<byte>, n: u64, args: seq<u64>,
                        mem: seq<byte>)
    requires DirectiveText(f, w, l) && Letter(c, "cduxXsp") && (c == 's' as int ==> Terminated(mem, n))
    ensures Fits(Directive(f, w, l, c), [n], mem)
    ensures Fits(rest, args, mem) ==> Fits(Directive(f, w, l, c) + rest, [n] + args, mem)
    ensures Fits(rest, args, mem) ==>
              (Render(Directive(f, w, l, c) + rest, [n] + args, mem)
               == Render(Directive(f, w, l, c), [n], mem) + Render(rest, args, mem))
    ensures Invalids(Directive(f, w, l, c) + rest) == Invalids(rest)
    ensures var d := ParseDirective(f + (w + (l + [c])));
            && d.conversion != INVALID && (d.conversion == STR <==> c == 's' as int)
            && Render(Directive(f, w, l, c), [n], mem) == Item(d, n, mem)
  {
    hide ParseDirective, Item, Letter, Terminated, DirectiveText, Positional;
    var d, body := ParseDirective(f + (w + (l + [c]))), f + (w + (l + [c]));
    DirectiveReads(f, w, l, c, []);
    DirectiveReads(f, w, l, c, rest);
    assert [c] + [] == [c];
    LetterMeans(c);
    assert f + (w + (l + ([c] + rest))) == body + rest;
    var one, all := Directive(f, w, l, c), Directive(f, w, l, c) + rest;
    assert one[1..] == body && one[1 + d.size..] == [] && [n][1..] == [];
    assert all[1..] == body + rest && all[1 + d.size..] == rest && ([n] + args)[1..] == args;
    SameDirective(f, w, l, c, rest);
    assert Item(d, n, mem) + [] == Item(d, n, mem);
  }

  /** What follows a directive does not change how it is read. */
  lemma SameDirective(f: seq<byte>, w: seq<byte>, l: seq<byte>, c: byte, rest: seq<byte>)
    requires DirectiveText(f, w, l) && Letter(c, "cduxXsp")
    ensures ParseDirective(f + (w + (l + ([c] + rest)))) == ParseDirective(f + (w + (l + [c])))
  {
    hide ParseDirective, Letter, Value, SizeOf, DirectiveText, Stops, ConversionOf, BaseOf;
    LetterStops(f, w, l, c, rest);
    LetterStops(f, w, l, c, []);
    DirectiveIs(f, w, l, [c] + rest);
    DirectiveIs(f, w, l, [c] + []);
    assert [c] + [] == [c];
  }

  /** Text without '%' prints itself. */
  lemma {:induction false} PlainTextPrints(text: seq<byte>, rest: seq<byte>, args: seq<u64>, mem: seq<byte>)
    requires (forall i :: 0 <= i < |text| ==> text[i] != '%' as int) && Fits(rest, args, mem)
    ensures Fits(text + rest, args, mem) && Render(text + rest, args, mem) == text + Render(rest, args, mem)
    ensures Invalids(text + rest) == Invalids(rest)
    decreases |text|
  {
    hide ParseDirective, Item;
    if text == [] {
      assert text + rest == rest;
    } else {
      PlainTextPrints(text[1..], rest, args, mem);
      assert (text + rest)[1..] == text[1..] + rest;
    }
  }

  /** A '%' in front of anything that is no directive prints itself, and what follows it is read again. */
  lemma StrayPercentPrints(f: seq<byte>, w: seq<byte>, l: seq<byte>, m: seq<byte>, args: seq<u64>, mem: seq<byte>)
    requires DirectiveText(f, w, l) && Stops(f, w, l, m) && (m == [] || !Letter(m[0], "cduxXsp"))
    requires Fits(f + (w + (l + m)), args, mem)
    ensures var rest := f + (w + (l + m));
            && Fits(['%' as int] + rest, args, mem)
            && Render(['%' as int] + rest, args, mem) == ['%' as int] + Render(rest, args, mem)
            && Invalids(['%' as int] + rest) == 1 + Invalids(rest)
  {
    hide ParseDirective, Letter, Value, SizeOf, DirectiveText, Stops, BaseOf;
    var rest, c: byte := f + (w + (l + m)), if m == [] then 0 else m[0];
    DirectiveIs(f, w, l, m);
    LetterMeans(c);
    assert (['%' as int] + rest)[1..] == rest;
  }

  lemma SplitFlag(s: seq<byte>) returns (f: seq<byte>, t: seq<byte>)
    ensures s == f + t && FlagText(f) && (f == [] && t != [] ==> t[0] != '0' as int && t[0] != '#' as int)
  {
    f, t := s[..FlagSize(s)], s[FlagSize(s)..];
    if FlagSize(s) == 1 {
      assert f == [s[0]];
    }
  }

  lemma SplitWidth(t: seq<byte>) returns (w: seq<byte>, u: seq<byte>)
    ensures t == w + u && Digits(w, 10) && (u != [] ==> !('0' as int <= u[0] <= '9' as int))
  {
    var k := DigitRun(t);
    w, u := t[..k], t[k..];
    AllDigitsMeans(w, 10);
    if u != [] {
      assert u[0] == t[k];
      DigitMeans(u[0], 10);
    }
  }

  lemma SplitLength(u: seq<byte>) returns (l: seq<byte>, m: seq<byte>)
    ensures u == l + m && LengthText(l)
    ensures m != [] && (l == [] || l == Bytes("h")) ==> m[0] != 'h' as int
    ensures m != [] && (l == [] || l == Bytes("l")) ==> m[0] != 'l' as int
    ensures m != [] && l != [] ==> u[0] == l[0]
  {
    l, m := u[..LengthSize(u)], u[LengthSize(u)..];
    if |u| >= 2 {
      assert Take(u, 2) == [u[0], u[1]];
    }
    if u != [] {
      assert Take(u, 1) == [u[0]];
    }
    if |l| == 1 && m != [] {
      assert m[0] == u[1];
    }
  }

  /** Whatever follows a '%' splits this way, so the laws cover every format string. */
  lemma EveryTail(s: seq<byte>) returns (f: seq<byte>, w: seq<byte>, l: seq<byte>, m: seq<byte>)
    ensures s == f + (w + (l + m)) && DirectiveText(f, w, l) && Stops(f, w, l, m)
  {
    hide FlagText, LengthText;
    var t, u;
    f, t := SplitFlag(s);
    w, u := SplitWidth(t);
    l, m := SplitLength(u);
    if w != [] {
      assert t[0] == w[0];
    } else {
      assert t == u;
    }
    if l == [] {
      assert u == m;
    }
  }

  /** The end of the format prints nothing. */
  lemma NothingPrints(args: seq<u64>, mem: seq<byte>)
    ensures Fits([], args, mem) && Render([], args, mem) == [] && Invalids([]) == 0
  {
  }

  /** Printing n with this format gives this text. */
  ghost predicate Prints(format: seq<byte>, n: u64, mem: seq<byte>, text: seq<byte>) {
    Fits(format, [n], mem) && Render(format, [n], mem) == text
  }

  // ---- Numbers ----

  /** Digits of the base, in one case. */
  predicate Written(s: seq<byte>, base: nat, uppercase: bool) {
    forall i :: 0 <= i < |s| ==>
      || '0' as int <= s[i] <= '9' as int
      || (base == 16 && uppercase && 'A' as int <= s[i] <= 'F' as int)
      || (base == 16 && !uppercase && 'a' as int <= s[i] <= 'f' as int)
  }

  lemma DigitCharReads(d: nat, base: nat, uppercase: bool)
    requires d < base && (base == 10 || base == 16)
    ensures ReadDigit(DigitChar(d, uppercase)) == d && Written([DigitChar(d, uppercase)], base, uppercase)
  {
  }

  lemma {:induction false} NumeralReads(n: nat, base: nat, uppercase: bool)
    requires base == 10 || base == 16
    ensures Positional(Numeral(n, base, uppercase), base) == n && Written(Numeral(n, base, uppercase), base, uppercase)
    ensures n > 0 ==> Numeral(n, base, uppercase) != [] && Numeral(n, base, uppercase)[0] != '0' as int
    decreases n
  {
    if n > 0 {
      hide DigitChar, ReadDigit, Positional;
      QuotientHalves(n, base);
      NumeralReads(n / base, base, uppercase);
      DigitCharReads(n % base, base, uppercase);
      var s := Numeral(n / base, base, uppercase);
      PositionalSnoc(s, DigitChar(n % base, uppercase), base);
      if n / base == 0 {
        NoneReads(base);
        assert s == [] && n % base == n;
        DigitCharInjective(n % base, 0, uppercase);
      }
    } else {
      NoneReads(base);
    }
  }

  lemma NoneReads(base: nat)
    ensures Positional([], base) == 0
  {
  }

  lemma ZerosCons(k: nat)
    requires k > 0
    ensures Zeros(k) == [ZERO] + Zeros(k - 1)
  {
    hide Zeros;
    var a, b := Zeros(k), [ZERO] + Zeros(k - 1);
    assert forall i :: 0 <= i < k ==> a[i] == b[i];
  }

  lemma ZeroInFront(s: seq<byte>, base: nat, uppercase: bool)
    requires Written(s, base, uppercase)
    ensures Positional([ZERO] + s, base) == Positional(s, base) && Written([ZERO] + s, base, uppercase)
  {
    assert ([ZERO] + s)[1..] == s;
    assert ReadDigit(ZERO) == 0;
  }

  lemma {:induction false} ZerosRead(k: nat, s: seq<byte>, base: nat, uppercase: bool)
    requires Written(s, base, uppercase)
    ensures Positional(Zeros(k) + s, base) == Positional(s, base) && Written(Zeros(k) + s, base, uppercase)
    decreases k
  {
    hide Positional, Written, Zeros;
    if k == 0 {
      assert Zeros(k) + s == s;
    } else {
      ZerosRead(k - 1, s, base, uppercase);
      ZerosCons(k);
      ZeroInFront(Zeros(k - 1) + s, base, uppercase);
      assert Zeros(k) + s == [ZERO] + (Zeros(k - 1) + s);
    }
  }

  /** The digits behind sign and prefix: they denote the magnitude; a zero is one digit; without zero padding there is
      no leading zero; with it the width is filled, and no further. */
  ghost predicate Denotes(body: seq<byte>, n: nat, base: nat, uppercase: bool, pad: bool, width: nat) {
    && body != [] && Written(body, base, uppercase) && Positional(body, base) == n
    && (n == 0 ==> body == ['0' as int])
    && (n > 0 && !pad ==> body[0] != '0' as int)
    && (n > 0 && pad ==> |body| >= width && (|body| > width ==> body[0] != '0' as int))
  }

  lemma MagnitudeDenotes(n: nat, f: FmtSpecifier)
    requires f.base == 10 || f.base == 16
    ensures Denotes(Magnitude(n, f), n, f.base, f.uppercase, f.zeroPadding, f.width)
  {
    hide Positional, Written, Numeral, Zeros;
    if n == 0 {
      OneZero(f.base, f.uppercase);
    } else {
      var digits := Numeral(n, f.base, f.uppercase);
      NumeralReads(n, f.base, f.uppercase);
      ZerosRead(Padding(f, |digits|), digits, f.base, f.uppercase);
      if Padding(f, |digits|) == 0 {
        assert Zeros(0) + digits == digits;
      }
    }
  }

  lemma OneZero(base: nat, uppercase: bool)
    ensures Positional(['0' as int], base) == 0 && Written(['0' as int], base, uppercase)
  {
    assert ['0' as int][1..] == [];
  }

  /** The number a directive reads from its argument word. */
  function ArgumentValue(l: seq<byte>, signed: bool, n: u64): int {
    if l == Bytes("hh") then (if signed && n % 0x100 >= 0x80 then n % 0x100 - 0x100 else n % 0x100)
    else if l == Bytes("h") then (if signed && n % 0x1_0000 >= 0x8000 then n % 0x1_0000 - 0x1_0000 else n % 0x1_0000)
    else if signed && n >= 0x8000_0000_0000_0000 then n - 0x1_0000_0000_0000_0000
    else n
  }

  lemma ArgumentIs(l: seq<byte>, n: u64, f: FmtSpecifier)
    requires LengthText(l) && f.length == SizeOf(l)
    ensures Argument(n, f) == ArgumentValue(l, f.signed, n)
  {
    hide Pow2;
    Pow2Of64();
    SmallPowers();
    Distinct();
    SmallMod(n, WORD);
  }

  lemma Distinct()
    ensures Bytes("hh") != Bytes("h") && Bytes("hh") != Bytes("l") && Bytes("hh") != Bytes("ll") && Bytes("hh") != []
    ensures Bytes("h") != Bytes("l") && Bytes("h") != Bytes("ll") && Bytes("h") != []
  {
    assert Bytes("hh")[0] == 104 && Bytes("ll")[0] == 108 && Bytes("h")[0] == 104 && Bytes("l")[0] == 108;
  }

  lemma SmallPowers()
    ensures Pow2(8) == 0x100 && Pow2(16) == 0x1_0000
  {
    assert Pow2(8) == 0x100;
  }

  /** d, u, x and X: sign, prefix and the digits of the number read from the argument. */
  lemma NumberPrints(f: seq<byte>, w: seq<byte>, l: seq<byte>, c: byte, n: u64, mem: seq<byte>) returns (body: seq<byte>)
    requires DirectiveText(f, w, l) && Letter(c, "duxX")
    ensures var v := ArgumentValue(l, c == 'd' as int, n);
            && Prints(Directive(f, w, l, c), n, mem,
                      (if v < 0 then Bytes("-") else []) + (if f == Bytes("#") then Bytes("0x") else []) + body)
            && Denotes(body, if v < 0 then -v else v, if Letter(c, "du") then 10 else 16, Letter(c, "X"),
                       f == Bytes("0"), Positional(w, 10) % 256)
  {
    hide ParseDirective, Letter, Positional, DirectiveText, Denotes, Magnitude, Argument, ArgumentValue, SizeOf,
         NumberText, Item, Fits, Render, Terminated;
    LetterMeans(c);
    DirectivePrints(f, w, l, c, [], n, [], mem);
    DirectiveReads(f, w, l, c, []);
    assert [c] + [] == [c];
    var d := ParseDirective(f + (w + (l + [c])));
    TextIsLength(f, w, l);
    ArgumentIs(l, n, d.spec);
    var v := Argument(n, d.spec);
    body := Magnitude(Abs(v), d.spec);
    MagnitudeDenotes(Abs(v), d.spec);
    ItemOfNumber(d, n, mem);
    NumberTextIs(v, d.spec, f);
  }

  lemma ItemOfNumber(d: Format.Directive, n: u64, mem: seq<byte>)
    requires (d.conversion == NUMBER || d.conversion == PTR) && 2 <= d.spec.base <= 16
    ensures Item(d, n, mem) == NumberText(if d.conversion == NUMBER then Argument(n, d.spec) else n, d.spec)
  {
  }

  lemma NumberTextIs(v: int, spec: FmtSpecifier, f: seq<byte>)
    requires 2 <= spec.base <= 16 && spec.prefix == (f == Bytes("#"))
    ensures NumberText(v, spec)
         == (if v < 0 then Bytes("-") else []) + (if f == Bytes("#") then Bytes("0x") else []) + Magnitude(Abs(v), spec)
  {
    hide Magnitude;
    assert Bytes("-") == [MINUS] && Bytes("0x") == [ZERO, 120];
  }

  /** p: 0x and the digits of the whole word. */
  lemma PointerPrints(f: seq<byte>, w: seq<byte>, l: seq<byte>, n: u64, mem: seq<byte>) returns (body: seq<byte>)
    requires DirectiveText(f, w, l)
    ensures Prints(Directive(f, w, l, 'p' as int), n, mem, Bytes("0x") + body)
    ensures Denotes(body, n, 16, false, f == Bytes("0"), Positional(w, 10) % 256)
  {
    hide ParseDirective, Letter, Positional, DirectiveText, Denotes, Magnitude, NumberText, Item,
         Fits, Render, Terminated;
    var c: byte := 'p' as int;
    LetterMeans(c);
    DirectivePrints(f, w, l, c, [], n, [], mem);
    DirectiveReads(f, w, l, c, []);
    assert [c] + [] == [c];
    var d := ParseDirective(f + (w + (l + [c])));
    body := Magnitude(n, d.spec);
    MagnitudeDenotes(n, d.spec);
    ItemOfNumber(d, n, mem);
    NumberTextIs(n, d.spec, Bytes("#"));
    assert [] + Bytes("0x") + body == Bytes("0x") + body;
  }

  /** c prints the lowest byte of its argument, s the string it points to. */
  lemma TextPrints(f: seq<byte>, w: seq<byte>, l: seq<byte>, n: u64, mem: seq<byte>)
    requires DirectiveText(f, w, l)
    ensures Prints(Directive(f, w, l, 'c' as int), n, mem, [n % 256])
    ensures Terminated(mem, n) ==> Prints(Directive(f, w, l, 's' as int), n, mem, Str(mem, n))
  {
    hide ParseDirective, Letter, Positional, DirectiveText;
    LetterMeans('c' as int);
    LetterMeans('s' as int);
    DirectivePrints(f, w, l, 'c' as int, [], n, [], mem);
    DirectiveReads(f, w, l, 'c' as int, []);
    assert ['c' as int] + [] == ['c' as int] && ['s' as int] + [] == ['s' as int];
    if Terminated(mem, n) {
      DirectivePrints(f, w, l, 's' as int, [], n, [], mem);
      DirectiveReads(f, w, l, 's' as int, []);
    }
  }

  // ---- Single directives ----

  lemma PlainDirective()
    ensures DirectiveText([], [], []) && Positional([], 10) == 0
  {
  }

  /** "%x" of n is the numeral of n in lower-case hexadecimal, without leading zeros; "%X" the same in upper case. */
  lemma HexPrints(n: u64, mem: seq<byte>) returns (lower: seq<byte>, upper: seq<byte>)
    ensures Prints(Bytes("%x"), n, mem, lower) && Denotes(lower, n, 16, false, false, 0)
    ensures Prints(Bytes("%X"), n, mem, upper) && Denotes(upper, n, 16, true, false, 0)
  {
    hide Letter, Positional, DirectiveText, Denotes, Prints;
    PlainDirective();
    LetterMeans('x' as int);
    LetterMeans('X' as int);
    lower := NumberPrints([], [], [], 'x' as int, n, mem);
    upper := NumberPrints([], [], [], 'X' as int, n, mem);
    Spelled('x' as int, "%x");
    Spelled('X' as int, "%X");
    NoFlag();
    assert [] + [] + lower == lower && [] + [] + upper == upper;
  }

  lemma NoFlag()
    ensures [] != Bytes("0") && [] != Bytes("#") && [] != Bytes("h") && [] != Bytes("hh")
  {
    assert |Bytes("0")| == 1 && |Bytes("#")| == 1 && |Bytes("h")| == 1 && |Bytes("hh")| == 2;
  }

  lemma Spelled(c: byte, text: string)
    requires |text| == 2 && text[0] == '%' && text[1] as int == c
    ensures Directive([], [], [], c) == Bytes(text)
  {
  }

  /** "%p" is 0x and that. */
  lemma PlainPointerPrints(n: u64, mem: seq<byte>) returns (body: seq<byte>)
    ensures Prints(Bytes("%p"), n, mem, Bytes("0x") + body)
    ensures Denotes(body, n, 16, false, false, 0)
  {
    hide Letter, Positional, DirectiveText, Denotes, Prints;
    PlainDirective();
    body := PointerPrints([], [], [], n, mem);
    Spelled('p' as int, "%p");
    NoFlag();
  }

  /** "%u" of n is its decimal numeral; "%d" that of the signed word, behind a minus sign if it is negative. */
  lemma DecimalPrints(n: u64, mem: seq<byte>) returns (unsigned: seq<byte>, body: seq<byte>)
    ensures Prints(Bytes("%u"), n, mem, unsigned) && Denotes(unsigned, n, 10, false, false, 0)
    ensures var v := if n >= 0x8000_0000_0000_0000 then n - 0x1_0000_0000_0000_0000 else n;
            && Prints(Bytes("%d"), n, mem, (if v < 0 then Bytes("-") else []) + body)
            && Denotes(body, if v < 0 then -v else v, 10, false, false, 0)
  {
    hide Letter, Positional, DirectiveText, Denotes, Prints;
    PlainDirective();
    LetterMeans('u' as int);
    LetterMeans('d' as int);
    unsigned := NumberPrints([], [], [], 'u' as int, n, mem);
    body := NumberPrints([], [], [], 'd' as int, n, mem);
    Spelled('u' as int, "%u");
    Spelled('d' as int, "%d");
    NoFlag();
    assert [] + [] + unsigned == unsigned;
    assert (if n >= 0x8000_0000_0000_0000 then Bytes("-") else []) + []
        == if n >= 0x8000_0000_0000_0000 then Bytes("-") else [];
  }

  lemma {:induction false} WrittenBound(s: seq<byte>, uppercase: bool)
    requires Written(s, 16, uppercase)
    ensures Positional(s, 16) >= 0 && (s != [] && s[0] != '0' as int ==> Positional(s, 16) >= Power(16, |s| - 1))
    decreases |s|
  {
    hide Power, ReadDigit;
    if s != [] {
      WrittenBound(s[1..], uppercase);
      PowerPositive(|s| - 1);
      WrittenDigit(s[0], uppercase);
      AtLeast(ReadDigit(s[0]), Power(16, |s| - 1));
    }
  }

  lemma WrittenDigit(c: byte, uppercase: bool)
    requires Written([c], 16, uppercase)
    ensures ReadDigit(c) >= 0 && (c != '0' as int ==> ReadDigit(c) >= 1)
  {
    assert [c][0] == c;
  }

  lemma AtLeast(d: int, p: int)
    requires d >= 0 && p >= 1
    ensures d * p >= 0 && (d >= 1 ==> d * p >= p)
  {
  }

  lemma {:induction false} PowerPositive(k: nat)
    ensures Power(16, k) >= 1 && (k >= 8 ==> Power(16, k) >= 0x1_0000_0000)
  {
    if k == 8 {
      assert Power(16, 4) == 0x1_0000;
    } else if k > 0 {
      PowerPositive(k - 1);
    }
  }

  /** "%08x" of a positive 32-bit number is exactly eight bytes. */
  lemma EightHexDigits(n: u64, mem: seq<byte>) returns (text: seq<byte>)
    requires 0 < n < 0x1_0000_0000
    ensures Prints(Bytes("%08x"), n, mem, text)
    ensures |text| == 8 && Written(text, 16, false) && Positional(text, 16) == n
  {
    hide Letter, Prints, Positional, Written;
    EightText();
    text := NumberPrints(Bytes("0"), Bytes("8"), [], 'x' as int, n, mem);
    NoFlag();
    LetterMeans('x' as int);
    assert Bytes("0") != Bytes("#") by {
      assert Bytes("0")[0] == 48 && Bytes("#")[0] == 35;
    }
    assert [] + [] + text == text;
    WrittenBound(text, false);
    PowerPositive(|text| - 1);
  }

  lemma EightText()
    ensures DirectiveText(Bytes("0"), Bytes("8"), []) && Positional(Bytes("8"), 10) == 8
    ensures Directive(Bytes("0"), Bytes("8"), [], 'x' as int) == Bytes("%08x")
    ensures Letter('x' as int, "duxX")
  {
    var e := Bytes("8");
    assert e == [56] && e[1..] == [];
    assert Positional(e, 10) == ReadDigit(56) * Power(10, 0);
    LetterMeans('x' as int);
  }
}

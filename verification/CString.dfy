/** src/string.c: NUL-terminated strings in byte memory, and decimal parsing. */
module CString {
  import opened Bits64

  type byte = x: int | 0 <= x < 256

  /** The bytes of an ASCII string literal. */
  function Bytes(s: string): (r: seq<byte>)
    ensures |r| == |s| && forall i :: 0 <= i < |s| ==> r[i] == s[i] as int % 256
  {
    seq(|s|, i requires 0 <= i < |s| => s[i] as int % 256)
  }

  /** Some byte at or after p is the terminator. */
  ghost predicate Terminated(mem: seq<byte>, p: nat) {
    exists q :: p <= q < |mem| && mem[q] == 0
  }

  lemma TerminatedNext(mem: seq<byte>, p: nat)
    requires Terminated(mem, p)
    ensures p < |mem| && (mem[p] != 0 ==> Terminated(mem, p + 1))
  {
    var q :| p <= q < |mem| && mem[q] == 0;
    if mem[p] != 0 {
      assert p + 1 <= q;
    }
  }

  /** The string that starts at p, without its terminator. */
  ghost function Str(mem: seq<byte>, p: nat): (s: seq<byte>)
    requires Terminated(mem, p)
    ensures p + |s| < |mem| && mem[p + |s|] == 0
    ensures forall i :: 0 <= i < |s| ==> s[i] == mem[p + i] && s[i] != 0
    decreases |mem| - p
  {
    TerminatedNext(mem, p);
    if mem[p] == 0 then [] else [mem[p]] + Str(mem, p + 1)
  }

  /** A string is the bytes up to the first NUL. */
  lemma {:induction false} StrIs(mem: seq<byte>, p: nat, s: seq<byte>)
    requires p + |s| < |mem| && mem[p..p + |s|] == s && mem[p + |s|] == 0
    requires forall i :: 0 <= i < |s| ==> s[i] != 0
    ensures Terminated(mem, p) && Str(mem, p) == s
    decreases |s|
  {
    if s != [] {
      assert mem[p] == s[0];
      StrIs(mem, p + 1, s[1..]);
      TerminatedNext(mem, p);
    }
  }

  lemma {:induction false} StrSuffix(mem: seq<byte>, p: nat, k: nat)
    requires Terminated(mem, p) && k <= |Str(mem, p)|
    ensures Terminated(mem, p + k) && Str(mem, p + k) == Str(mem, p)[k..]
  {
    hide Str, Terminated;
    var s := Str(mem, p);
    assert mem[p + k..p + |s|] == s[k..];
    StrIs(mem, p + k, s[k..]);
  }

  /** The first NUL met is the end of the string. */
  lemma EndOfStr(mem: seq<byte>, p: nat, k: nat)
    requires Terminated(mem, p) && k <= |Str(mem, p)|
    ensures mem[p + k] == 0 <==> k == |Str(mem, p)|
  {
    var s := Str(mem, p);
    if k < |s| {
      assert s[k] != 0;
    }
  }

  method StrLen(mem: seq<byte>, p: nat) returns (len: nat)
    requires Terminated(mem, p)
    ensures len == |Str(mem, p)|
  {
    ghost var s := Str(mem, p);
    len := 0;
    while mem[p + len] != 0
      invariant len <= |s|
      decreases |s| - len
    {
      len := len + 1;
    }
    EndOfStr(mem, p, len);
  }

  /** Dictionary order on bytes: a proper prefix comes first. */
  predicate Before(s: seq<byte>, t: seq<byte>) {
    if t == [] then false
    else if s == [] then true
    else s[0] < t[0] || (s[0] == t[0] && Before(s[1..], t[1..]))
  }

  /** The first byte that differs decides, or the end of the shorter string. */
  lemma {:induction false} BeforeMeans(s: seq<byte>, t: seq<byte>)
    ensures Before(s, t) <==> exists k: nat :: DecidesAt(s, t, k)
    decreases |s|
  {
    if s != [] && t != [] && s[0] == t[0] {
      BeforeMeans(s[1..], t[1..]);
      if k: nat :| DecidesAt(s, t, k) {
        assert s[..k][0] == s[0] || k == 0;
        assert s[1..][..k - 1] == s[..k][1..] == t[..k][1..] == t[1..][..k - 1];
        assert DecidesAt(s[1..], t[1..], k - 1);
      }
      if k: nat :| DecidesAt(s[1..], t[1..], k) {
        assert s[..k + 1] == [s[0]] + s[1..][..k] == t[..k + 1];
        assert DecidesAt(s, t, k + 1);
      }
    } else if t != [] && (s == [] || s[0] < t[0]) {
      assert DecidesAt(s, t, 0);
    } else if t != [] {
      assert forall k: nat :: 0 < k <= |s| && k < |t| ==> s[..k][0] != t[..k][0];
    }
  }

  predicate DecidesAt(s: seq<byte>, t: seq<byte>, k: nat) {
    k <= |s| && k < |t| && s[..k] == t[..k] && (k == |s| || s[k] < t[k])
  }

  /** Difference of the first bytes that differ, where both strings end with a NUL. */
  lemma {:induction false} FirstDifference(s: seq<byte>, t: seq<byte>, k: nat)
    requires k <= |s| && k <= |t| && s[..k] == t[..k]
    requires (forall i :: 0 <= i < |s| ==> s[i] != 0) && (forall i :: 0 <= i < |t| ==> t[i] != 0)
    ensures var a, b := if k < |s| then s[k] else 0, if k < |t| then t[k] else 0;
            && (a == b == 0 ==> s == t)
            && (a != b ==> s != t)
            && (a < b ==> Before(s, t)) && (a > b ==> Before(t, s))
    decreases k
  {
    if k > 0 {
      assert s[0] == s[..k][0] == t[..k][0] == t[0];
      assert s[1..][..k - 1] == s[..k][1..] == t[..k][1..] == t[1..][..k - 1];
      FirstDifference(s[1..], t[1..], k - 1);
      assert s == [s[0]] + s[1..] && t == [t[0]] + t[1..];
    } else {
      assert s == [] <==> |s| == 0;
    }
  }

  lemma {:induction false} BeforeIsStrict(s: seq<byte>, t: seq<byte>)
    ensures !(Before(s, t) && Before(t, s)) && !Before(s, s)
    decreases |s|
  {
    if s != [] {
      BeforeIsStrict(s[1..], if t == [] then [] else t[1..]);
    }
  }

  method StrCmp(m1: seq<byte>, p1: nat, m2: seq<byte>, p2: nat) returns (r: int)
    requires Terminated(m1, p1) && Terminated(m2, p2)
    ensures r == 0 <==> Str(m1, p1) == Str(m2, p2)
    ensures r < 0 <==> Before(Str(m1, p1), Str(m2, p2))
  {
    hide Str, Terminated, Before;
    ghost var s, t := Str(m1, p1), Str(m2, p2);
    var k := 0;
    while m1[p1 + k] != 0
      invariant k <= |s| && k <= |t| && s[..k] == t[..k]
      decreases |s| - k
    {
      if m1[p1 + k] != m2[p2 + k] {
        break;
      }
      k := k + 1;
    }
    FirstDifference(s, t, k);
    BeforeIsStrict(s, t);
    r := m1[p1 + k] as int - m2[p2 + k] as int;
  }

  function Take(s: seq<byte>, n: nat): seq<byte> {
    if n <= |s| then s[..n] else s
  }

  /** strncmp(): with n = 0 the first bytes are compared all the same. */
  method StrNCmp(m1: seq<byte>, p1: nat, m2: seq<byte>, p2: nat, n: nat) returns (r: int)
    requires Terminated(m1, p1) && Terminated(m2, p2)
    ensures r == 0 <==> Take(Str(m1, p1), if n == 0 then 1 else n) == Take(Str(m2, p2), if n == 0 then 1 else n)
    ensures r < 0 <==> Before(Take(Str(m1, p1), if n == 0 then 1 else n), Take(Str(m2, p2), if n == 0 then 1 else n))
  {
    hide Str, Terminated, Before, Take;
    ghost var s, t := Str(m1, p1), Str(m2, p2);
    var k, left := 0, n;
    while left > 0 && m1[p1 + k] != 0
      invariant k <= |s| && k <= |t| && s[..k] == t[..k] && k + left == n && (left == 0 ==> n == 0)
      decreases left
    {
      left := left - 1;
      if left == 0 {
        break;
      }
      if m1[p1 + k] != m2[p2 + k] {
        break;
      }
      k := k + 1;
    }
    r := m1[p1 + k] as int - m2[p2 + k] as int;
    PrefixDifference(s, t, k, if n == 0 then 1 else n);
    BeforeIsStrict(Take(s, if n == 0 then 1 else n), Take(t, if n == 0 then 1 else n));
  }

  /** Prefixes of length n, where byte k is the first that differs, the last of them, or the end of both strings. */
  lemma PrefixDifference(s: seq<byte>, t: seq<byte>, k: nat, n: nat)
    requires k <= |s| && k <= |t| && s[..k] == t[..k] && k < n
    requires (forall i :: 0 <= i < |s| ==> s[i] != 0) && (forall i :: 0 <= i < |t| ==> t[i] != 0)
    ensures var a, b := if k < |s| then s[k] else 0, if k < |t| then t[k] else 0;
            && (a != b ==> Take(s, n) != Take(t, n))
            && (a == b && (a == 0 || k + 1 == n) ==> Take(s, n) == Take(t, n))
            && (a < b ==> Before(Take(s, n), Take(t, n))) && (a > b ==> Before(Take(t, n), Take(s, n)))
  {
    hide Before;
    var u, v := Take(s, n), Take(t, n);
    assert u[..k] == s[..k] && v[..k] == t[..k];
    FirstDifference(u, v, k);
    if k < |s| && k < |t| && s[k] == t[k] && k + 1 == n {
      assert u == s[..k] + [s[k]] && v == t[..k] + [t[k]];
    }
  }

  // ---- strtou64 ----

  /** (u64)(c - '0'): bytes below '0' wrap around to huge values. */
  function Digit(c: byte): u64 {
    (c as int - 48) % WORD
  }

  predicate AllDigits(s: seq<byte>, base: u64) {
    forall i :: 0 <= i < |s| ==> Digit(s[i]) < base
  }

  /** The number a digit string stands for, without any bound. */
  function Value(s: seq<byte>, base: u64): nat {
    if s == [] then 0 else Value(s[..|s| - 1], base) * base + Digit(s[|s| - 1])
  }

  lemma ValueStep(s: seq<byte>, k: nat, base: u64)
    requires k < |s|
    ensures Value(s[..k + 1], base) == Value(s[..k], base) * base + Digit(s[k])
    ensures AllDigits(s[..k + 1], base) <==> AllDigits(s[..k], base) && Digit(s[k]) < base
  {
    var t := s[..k + 1];
    assert t[..k] == s[..k] && t[k] == s[k];
    assert t == s[..k] + [s[k]];
  }

  function AfterSign(s: seq<byte>): seq<byte> {
    if Take(s, 1) == [45] then s[1..] else s
  }

  /** "0b" or "0B", and "0x" or "0X". */
  predicate BinaryPrefix(s: seq<byte>) {
    Take(s, 2) == [48, 98] || Take(s, 2) == [48, 66]
  }

  predicate HexPrefix(s: seq<byte>) {
    Take(s, 2) == [48, 120] || Take(s, 2) == [48, 88]
  }

  /** The number a string denotes: its magnitude modulo 2^64; 0 if it is no number in this base. */
  function Number(s: seq<byte>, base: u64): u64 {
    var body := AfterSign(s);
    if BinaryPrefix(body) then (if base == 2 then DigitsNumber(body[2..], base) else 0)
    else if HexPrefix(body) then (if base == 16 then DigitsNumber(body[2..], base) else 0)
    else DigitsNumber(body, base)
  }

  function DigitsNumber(s: seq<byte>, base: u64): u64 {
    if AllDigits(s, base) then Value(s, base) % WORD else 0
  }

  /** Digits have no sign and no base prefix in front. */
  lemma DigitsArePlain(digits: seq<byte>)
    requires AllDigits(digits, 10)
    ensures AfterSign(digits) == digits && !BinaryPrefix(digits) && !HexPrefix(digits)
  {
    if digits != [] {
      assert Digit(digits[0]) < 10 && Take(digits, 1)[0] == digits[0];
      if |digits| > 1 {
        assert Digit(digits[1]) < 10 && Take(digits, 2)[1] == digits[1];
      }
    }
  }

  /** A string of digits has neither a sign nor a base prefix. */
  lemma PlainNumber(digits: seq<byte>)
    requires AllDigits(digits, 10)
    ensures Number(digits, 10) == Value(digits, 10) % WORD
  {
    hide BinaryPrefix, HexPrefix, AfterSign, Value;
    DigitsArePlain(digits);
  }

  lemma ModAddMultiple(a: int, k: int, m: int)
    requires m > 0
    ensures (a + k * m) % m == a % m
  {
    DivModUnique(a + k * m, m, a / m + k, a % m);
  }

  /** One step of an accumulator that wraps around at m, on residues. */
  lemma AccumulateMod(v: nat, base: nat, d: nat, m: nat)
    requires m > 0
    ensures (v % m * base % m + d) % m == (v * base + d) % m
  {
    ModTimes(v, base, m);
    ModAdd(v % m * base, d, m);
    ModAdd(v * base, d, m);
  }

  lemma ModAdd(a: nat, d: nat, m: nat)
    requires m > 0
    ensures (a % m + d) % m == (a + d) % m
  {
    assert a + d == (a % m + d) + a / m * m;
    ModAddMultiple(a % m + d, a / m, m);
  }

  lemma ModTimes(v: nat, base: nat, m: nat)
    requires m > 0
    ensures v % m * base % m == v * base % m
  {
    var q, r := v / m, v % m;
    assert v * base == r * base + q * base * m by {
      assert v == q * m + r;
      Distribute(q, m, r, base);
    }
    ModAddMultiple(r * base, q * base, m);
  }

  lemma Distribute(q: int, m: int, r: int, base: int)
    ensures (q * m + r) * base == r * base + q * base * m
  {
  }

  lemma TakeAll(s: seq<byte>)
    ensures Take(s, |s|) == s
  {
  }

  /** strncmp() against one of the literals of strtou64(), compared over its whole length. */
  method HasPrefix(mem: seq<byte>, p: nat, literal: seq<byte>) returns (r: bool)
    requires Terminated(mem, p) && literal != [] && forall i :: 0 <= i < |literal| ==> literal[i] != 0
    ensures r <==> Take(Str(mem, p), |literal|) == literal
  {
    hide Str, Terminated, Before, Take;
    var constant := literal + [0];
    assert constant[0..0 + |literal|] == literal;
    StrIs(constant, 0, literal);
    TakeAll(literal);
    var d := StrNCmp(mem, p, constant, 0, |literal|);
    r := d == 0;
  }

  lemma NoDigits(base: u64)
    ensures AllDigits([], base) && Value([], base) == 0
  {
  }

  lemma SomeDigitBad(s: seq<byte>, k: nat, base: u64)
    requires k < |s| && Digit(s[k]) >= base
    ensures !AllDigits(s, base)
  {
  }

  /** The digit loop: src/string.c:121-132. */
  method ParseDigits(mem: seq<byte>, p: nat, base: u64) returns (res: u64)
    requires Terminated(mem, p)
    ensures res == DigitsNumber(Str(mem, p), base)
  {
    hide Str, Terminated, Value, AllDigits, Digit;
    ghost var s := Str(mem, p);
    var k := 0;
    res := 0;
    NoDigits(base);
    assert s[..0] == [];
    while mem[p + k] != 0
      invariant k <= |s| && AllDigits(s[..k], base) && res == Value(s[..k], base) % WORD
      decreases |s| - k
    {
      var digit := Digit(mem[p + k]);
      assert s[k] == mem[p + k];
      if digit >= base {
        SomeDigitBad(s, k, base);
        return 0;
      }
      AccumulateMod(Value(s[..k], base), base, digit, WORD);
      ValueStep(s, k, base);
      res := res * base % WORD;
      res := (res + digit) % WORD;
      k := k + 1;
    }
    EndOfStr(mem, p, k);
    assert s[..k] == s;
  }

  method StrToU64(mem: seq<byte>, p: nat, base: u64) returns (res: u64)
    requires Terminated(mem, p)
    ensures res == Number(Str(mem, p), base)
  {
    hide Str, Terminated, Value, AllDigits, DigitsNumber;
    var str := p;
    var neg := HasPrefix(mem, str, [45]);
    if neg {
      StrSuffix(mem, p, 1);
      str := str + 1;
    }
    ghost var body := Str(mem, str);
    assert body == AfterSign(Str(mem, p));
    var b := HasPrefix(mem, str, [48, 98]);
    var b2 := HasPrefix(mem, str, [48, 66]);
    var x := HasPrefix(mem, str, [48, 120]);
    var x2 := HasPrefix(mem, str, [48, 88]);
    if b || b2 {
      if base != 2 {
        return 0;
      }
      StrSuffix(mem, str, 2);
      str := str + 2;
    } else if x || x2 {
      if base != 16 {
        return 0;
      }
      StrSuffix(mem, str, 2);
      str := str + 2;
    }
    res := ParseDigits(mem, str, base);
  }
}

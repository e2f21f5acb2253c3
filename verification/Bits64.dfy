/** The C integer type u64 and its bitwise operators, on mathematical integers.

The operators are defined bit by bit.  The laws below say what masks and shifts
mean as quotients and remainders, which is the form every other module reasons
with.
*/
module Bits64 {

  /** 2 to the 64th: u64 arithmetic wraps around at this value. */
  const WORD := 0x1_0000_0000_0000_0000

  /** Largest u64. */
  const UINT64_MAX := 0xffff_ffff_ffff_ffff

  type u64 = x: int | 0 <= x < 0x1_0000_0000_0000_0000

  function And(x: nat, y: nat): (r: nat)
    ensures r <= x && r <= y
  {
    if x == 0 || y == 0 then 0
    else (if x % 2 == 1 && y % 2 == 1 then 1 else 0) + 2 * And(x / 2, y / 2)
  }

  function Or(x: nat, y: nat): (r: nat)
    ensures x <= r <= x + y
    ensures y <= r
  {
    if x == 0 then y
    else if y == 0 then x
    else (if x % 2 == 1 || y % 2 == 1 then 1 else 0) + 2 * Or(x / 2, y / 2)
  }

  function Not(x: u64): u64 {
    UINT64_MAX - x
  }

  /** x << k before it is cut to 64 bits. */
  function ShiftUp(x: nat, k: nat): nat {
    if k == 0 then x else 2 * ShiftUp(x, k - 1)
  }

  /** x >> k */
  function Shr(x: nat, k: nat): (r: nat)
    ensures r <= x
  {
    if k == 0 then x else Shr(x / 2, k - 1)
  }

  /** x << k on a u64 */
  function Shl(x: u64, k: nat): u64 {
    ShiftUp(x, k) % WORD
  }

  function Pow2(k: nat): nat {
    ShiftUp(1, k)
  }

  /** BITMASK64(high, low): ones exactly in bits low to high. */
  function Bitmask(high: nat, low: nat): u64
    requires low <= high < 64
  {
    And(Shl(UINT64_MAX, low), Shr(UINT64_MAX, 64 - 1 - high))
  }

  lemma {:induction false} Pow2Positive(k: nat)
    ensures Pow2(k) >= 1
  {
    if k > 0 {
      Pow2Positive(k - 1);
    }
  }

  lemma MulStep(d: int, m: int)
    requires m > 0
    ensures d >= 1 ==> d * m >= m
    ensures d <= -1 ==> d * m <= -m
  {
    assert d * m == m + (d - 1) * m;
    assert d * m == -m + (d + 1) * m;
  }

  /** Quotient and remainder are the only pair that recompose x. */
  lemma DivModUnique(x: int, m: int, q: int, r: int)
    requires m > 0 && 0 <= r < m && x == q * m + r
    ensures x / m == q && x % m == r
  {
    var d := x / m - q;
    assert d * m == r - x % m;
    MulStep(d, m);
  }

  lemma ModOfDouble(x: nat, m: nat)
    requires m > 0
    ensures x % (2 * m) == x % 2 + 2 * ((x / 2) % m)
    ensures x / (2 * m) == (x / 2) / m
  {
    var h := x / 2;
    DivModUnique(x, 2 * m, h / m, x % 2 + 2 * (h % m));
  }

  lemma {:induction false} ShiftUpIsTimes(x: nat, k: nat)
    ensures ShiftUp(x, k) == x * Pow2(k)
  {
    if k > 0 {
      ShiftUpIsTimes(x, k - 1);
    }
  }

  lemma {:induction false} ShrIsQuotient(x: nat, k: nat)
    ensures Pow2(k) > 0 && Shr(x, k) == x / Pow2(k)
  {
    Pow2Positive(k);
    if k > 0 {
      ShrIsQuotient(x / 2, k - 1);
      ModOfDouble(x, Pow2(k - 1));
    }
  }

  lemma Pow2Doubles(k: nat)
    requires k > 0
    ensures Pow2(k) == 2 * Pow2(k - 1) && Pow2(k - 1) >= 1
  {
    Pow2Positive(k - 1);
  }

  /** One bit of a mask of ones. */
  lemma AndOnes(x: nat, p: nat)
    requires p >= 1
    ensures And(x, 2 * p - 1) == x % 2 + 2 * And(x / 2, p - 1)
  {
    assert (2 * p - 1) / 2 == p - 1 && (2 * p - 1) % 2 == 1;
  }

  lemma NoMask(x: nat)
    ensures Pow2(0) == 1 && And(x, 0) == 0 && x % 1 == 0
  {
  }

  lemma AndLowMaskStep(x: nat, p: nat)
    requires p >= 1 && And(x / 2, p - 1) == x / 2 % p
    ensures And(x, 2 * p - 1) == x % (2 * p)
  {
    hide And;
    ModOfDouble(x, p);
    AndOnes(x, p);
  }

  /** A mask of k ones keeps the remainder modulo 2^k. */
  lemma {:induction false} AndLowMask(x: nat, k: nat)
    ensures Pow2(k) > 0 && And(x, Pow2(k) - 1) == x % Pow2(k)
  {
    hide And, Pow2;
    if k == 0 {
      NoMask(x);
    } else {
      Pow2Doubles(k);
      AndLowMask(x / 2, k - 1);
      AndLowMaskStep(x, Pow2(k - 1));
    }
  }

  lemma {:induction false} AndCommutes(x: nat, y: nat)
    ensures And(x, y) == And(y, x)
  {
    if x > 0 && y > 0 {
      AndCommutes(x / 2, y / 2);
    }
  }

  lemma AndDouble(x: nat, w: nat)
    ensures And(x, 2 * w) == 2 * And(x / 2, w)
  {
    assert (2 * w) / 2 == w && (2 * w) % 2 == 0;
  }

  /** A mask shifted left by k sees only the bits from k up. */
  lemma {:induction false} AndShiftedMask(x: nat, y: nat, k: nat)
    ensures And(x, ShiftUp(y, k)) == ShiftUp(And(Shr(x, k), y), k)
  {
    if k > 0 {
      AndDouble(x, ShiftUp(y, k - 1));
      AndShiftedMask(x / 2, y, k - 1);
    }
  }

  lemma {:induction false} ShrUndoesShiftUp(x: nat, k: nat)
    ensures Shr(ShiftUp(x, k), k) == x
  {
    if k > 0 {
      ShrUndoesShiftUp(x, k - 1);
      assert ShiftUp(x, k) / 2 == ShiftUp(x, k - 1);
    }
  }

  /** Masking bits k to k+n-1 and shifting them down extracts that field. */
  lemma FieldExtract(x: nat, n: nat, k: nat)
    ensures Pow2(k) > 0 && Pow2(n) > 0
    ensures Shr(And(x, ShiftUp(Pow2(n) - 1, k)), k) == x / Pow2(k) % Pow2(n)
  {
    hide And, Shr, ShiftUp, Pow2;
    AndLowMask(Shr(x, k), n);
    ShrIsQuotient(x, k);
    AndShiftedMask(x, Pow2(n) - 1, k);
    ShrUndoesShiftUp(And(Shr(x, k), Pow2(n) - 1), k);
  }

  lemma {:induction false} ShiftOnes(n: nat, k: nat)
    ensures Pow2(n) >= 1 && ShiftUp(Pow2(n) - 1, k) == Pow2(n + k) - Pow2(k)
  {
    Pow2Positive(n);
    if k > 0 {
      ShiftOnes(n, k - 1);
    }
  }

  lemma {:induction false} ShrOnes(n: nat, k: nat)
    requires k <= n
    ensures Pow2(n) >= 1 && Pow2(n - k) >= 1
    ensures Shr(Pow2(n) - 1, k) == Pow2(n - k) - 1
  {
    Pow2Positive(n);
    Pow2Positive(n - k);
    if k > 0 {
      Pow2Positive(n - 1);
      assert (Pow2(n) - 1) / 2 == Pow2(n - 1) - 1;
      ShrOnes(n - 1, k - 1);
    }
  }

  lemma {:induction false} Pow2Monotone(m: nat, n: nat)
    requires m <= n
    ensures 1 <= Pow2(m) <= Pow2(n)
  {
    Pow2Positive(m);
    if m < n {
      Pow2Monotone(m, n - 1);
    }
  }

  lemma Pow2Of64()
    ensures Pow2(64) == WORD
  {
    assert Pow2(9) == 0x200 && Pow2(18) == 0x4_0000 && Pow2(27) == 0x800_0000;
    assert Pow2(36) == 0x10_0000_0000 && Pow2(45) == 0x2000_0000_0000;
    assert Pow2(54) == 0x40_0000_0000_0000 && Pow2(63) == 0x8000_0000_0000_0000;
  }

  lemma {:induction false} ShiftUpMinus(x: nat, k: nat)
    requires x >= 1
    ensures ShiftUp(x - 1, k) == ShiftUp(x, k) - Pow2(k)
  {
    if k > 0 {
      ShiftUpMinus(x, k - 1);
    }
  }

  /** All ones shifted left lose their top bits to the 64-bit cut. */
  lemma ShlOfOnes(low: nat)
    requires low <= 64
    ensures Pow2(64 - low) >= 1
    ensures Shl(UINT64_MAX, low) == ShiftUp(Pow2(64 - low) - 1, low)
  {
    Pow2Of64();
    ShiftOnes(64 - low, low);
    Pow2Monotone(low, 64);
    ShiftUpIsTimes(WORD, low);
    ShiftUpMinus(WORD, low);
    DivModUnique(ShiftUp(UINT64_MAX, low), WORD, Pow2(low) - 1, WORD - Pow2(low));
  }

  /** The overlap of the ones below high + 1 with the ones from low up. */
  lemma AndOfOnes(high: nat, low: nat)
    requires low <= high < 64
    ensures Pow2(high + 1) >= 1 && Pow2(64 - low) >= 1 && Pow2(high + 1 - low) >= 1
    ensures And(Pow2(high + 1) - 1, ShiftUp(Pow2(64 - low) - 1, low)) == ShiftUp(Pow2(high + 1 - low) - 1, low)
  {
    hide And, Shr, ShiftUp, Pow2;
    Pow2Monotone(high + 1 - low, 64 - low);
    Pow2Positive(high + 1);
    ShrOnes(high + 1, low);
    AndShiftedMask(Pow2(high + 1) - 1, Pow2(64 - low) - 1, low);
    AndLowMask(Pow2(high + 1 - low) - 1, 64 - low);
    SmallMod(Pow2(high + 1 - low) - 1, Pow2(64 - low));
  }

  /** The mask macro yields high - low + 1 ones, low places up. */
  lemma BitmaskIsField(high: nat, low: nat)
    requires low <= high < 64
    ensures Pow2(high + 1 - low) >= 1
    ensures Bitmask(high, low) == ShiftUp(Pow2(high + 1 - low) - 1, low)
  {
    hide And, Shr, ShiftUp, Pow2, Shl;
    Pow2Of64();
    ShlOfOnes(low);
    ShrOnes(64, 63 - high);
    AndCommutes(Shl(UINT64_MAX, low), Shr(UINT64_MAX, 63 - high));
    AndOfOnes(high, low);
  }

  lemma SmallMod(x: nat, m: nat)
    requires x < m
    ensures x % m == x
  {
    DivModUnique(x, m, 0, x);
  }

  /** Bits below the lowest possible bit of the left operand are simply added. */
  lemma {:induction false} OrDisjoint(a: nat, b: nat, k: nat)
    requires b < Pow2(k)
    ensures Or(ShiftUp(a, k), b) == ShiftUp(a, k) + b
  {
    if k > 0 {
      assert ShiftUp(a, k) / 2 == ShiftUp(a, k - 1);
      OrDisjoint(a, b / 2, k - 1);
    }
  }

  /** Or-ing 1 sets the lowest bit. */
  lemma OrOne(x: nat)
    ensures Or(x, 1) == x - x % 2 + 1
  {
  }
}

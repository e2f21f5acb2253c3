/** What the definitions of Sv39 mean, in plain numbers: which addresses are canonical, where the fields of an
entry lie, and what pages of each size translate to. */
module Sv39Laws {
  import opened Bits64
  import opened Sv39

  /** Bits 63 to 38 are all clear or all set. */
  lemma CanonicalMeans(va: u64)
    ensures Canonical(va) <==> va / 0x40_0000_0000 == 0 || va / 0x40_0000_0000 == 0x3ff_ffff
  {
  }

  /** A pointer to the table in page ppn: bit 0 is V, the page number starts at bit 10. */
  function Pointer(ppn: nat): nat {
    1 + 1024 * ppn
  }

  /** A leaf for page ppn: bits 1 to 4 are R, W, X and U. */
  function Leaf(r: bool, w: bool, x: bool, u: bool, ppn: nat): nat {
    Flags(r, w, x, u) + 1024 * ppn
  }

  function Flags(r: bool, w: bool, x: bool, u: bool): nat {
    1 + (if r then 2 else 0) + (if w then 4 else 0) + (if x then 8 else 0) + (if u then 16 else 0)
  }

  /** Permissions a leaf may have: some access besides writing, and no writing without reading. */
  predicate Allowed(r: bool, w: bool, x: bool) {
    (r || x) && (w ==> r)
  }

  lemma FlagBits(r: bool, w: bool, x: bool, u: bool)
    ensures var f := Flags(r, w, x, u);
            && f < 32 && f % 2 == 1 && (f / 2 % 2 == 1 <==> r) && (f / 4 % 2 == 1 <==> w) && (f / 8 % 2 == 1 <==> x)
            && (f / 16 % 2 == 1 <==> u) && f / 64 == 0 && f / 128 == 0
  {
    if u {
      assert Flags(r, w, x, u) == Flags(r, w, x, false) + 16;
    }
  }

  lemma HighFields(low: nat, ppn: nat)
    requires low < 1024 && ppn < 0x1000_0000_0000
    ensures var e := low + 1024 * ppn; e < WORD && Ppn(e) == ppn && !ReservedHigh(e)
  {
    DivModUnique(low + 1024 * ppn, 1024, ppn, low);
    DivModUnique(ppn, 0x1000_0000_0000, 0, ppn);
    DivModUnique(low + 1024 * ppn, 0x40_0000_0000_0000, 0, low + 1024 * ppn);
  }

  lemma LeafFields(r: bool, w: bool, x: bool, u: bool, ppn: nat)
    requires ppn < 0x1000_0000_0000
    ensures Leaf(r, w, x, u, ppn) < WORD
    ensures var e: u64 := Leaf(r, w, x, u, ppn);
            && BitV(e) && BitR(e) == r && BitW(e) == w && BitX(e) == x && BitU(e) == u && !BitA(e) && !BitD(e)
            && Ppn(e) == ppn && !ReservedHigh(e)
            && AccessOf(e) == Access(read := r, write := w, execute := x, user := u)
  {
    hide Flags, Ppn, ReservedHigh;
    FlagBits(r, w, x, u);
    LowBits(Flags(r, w, x, u), ppn);
    HighFields(Flags(r, w, x, u), ppn);
  }

  lemma LowBits(low: nat, rest: nat)
    requires low < 1024
    ensures var e := low + 1024 * rest;
            && e % 2 == low % 2 && e / 2 % 2 == low / 2 % 2 && e / 4 % 2 == low / 4 % 2 && e / 8 % 2 == low / 8 % 2
            && e / 16 % 2 == low / 16 % 2 && e / 64 % 2 == low / 64 % 2 && e / 128 % 2 == low / 128 % 2
  {
    LowBit(low, rest, 1, 512);
    LowBit(low, rest, 2, 256);
    LowBit(low, rest, 4, 128);
    LowBit(low, rest, 8, 64);
    LowBit(low, rest, 16, 32);
    LowBit(low, rest, 64, 8);
    LowBit(low, rest, 128, 4);
  }

  lemma LowBit(low: nat, rest: nat, b: nat, c: nat)
    requires b > 0 && 2 * b * c == 1024
    ensures (low + 1024 * rest) / b % 2 == low / b % 2
  {
    var q := low / b;
    assert 1024 * rest == 2 * (c * rest) * b;
    DivModUnique(low + 1024 * rest, b, q + 2 * (c * rest), low % b);
    DivModUnique(q + 2 * (c * rest), 2, q / 2 + c * rest, q % 2);
  }

  lemma PointerStep(ram: Ram, a: u64, va: u64, i: nat, ppn: nat)
    requires 1 <= i <= 2 && a in ram && ppn < 0x1000_0000_0000 && ram[a][Vpn(va, i)] == Pointer(ppn)
    ensures Walk(ram, a, va, i) == Walk(ram, ppn * 4096, va, i - 1)
  {
    hide Vpn, Ppn, ReservedHigh, LeafTranslation, BitV, BitR, BitW, BitX, BitU, BitA, BitD;
    LeafFields(false, false, false, false, ppn);
  }

  lemma LeafStep(ram: Ram, a: u64, va: u64, i: nat, r: bool, w: bool, x: bool, u: bool, ppn: nat)
    requires i <= 2 && a in ram && ppn < 0x1000_0000_0000 && Allowed(r, w, x)
    requires ram[a][Vpn(va, i)] == Leaf(r, w, x, u, ppn)
    ensures Walk(ram, a, va, i)
         == if ppn * 4096 % Span(i) != 0 then PageFault
            else Physical(ppn * 4096 + va % Span(i), Access(read := r, write := w, execute := x, user := u))
  {
    hide Vpn, Span, Ppn, ReservedHigh, AccessOf, BitV, BitR, BitW, BitX, Leaf;
    LeafFields(r, w, x, u, ppn);
  }

  /** Without V, or with W but not R, an entry translates nothing, and neither does a last entry without R and X. */
  lemma FaultStep(ram: Ram, a: u64, va: u64, i: nat)
    requires i <= 2 && a in ram
    requires var e := ram[a][Vpn(va, i)];
             || e % 2 == 0 || (e / 2 % 2 == 0 && e / 4 % 2 == 1) || e >= 0x40_0000_0000_0000
             || (i == 0 && e / 2 % 2 == 0 && e / 8 % 2 == 0)
    ensures Walk(ram, a, va, i) == PageFault
  {
    hide Vpn;
  }

  /** A 4 KiB page behind two pointers. */
  lemma SmallPage(ram: Ram, root: u64, va: u64, t1: nat, t0: nat, r: bool, w: bool, x: bool, u: bool, ppn: nat)
    requires va / 0x40_0000_0000 == 0 || va / 0x40_0000_0000 == 0x3ff_ffff
    requires t1 < 0x1000_0000_0000 && t0 < 0x1000_0000_0000 && ppn < 0x1000_0000_0000 && Allowed(r, w, x)
    requires root in ram && t1 * 4096 in ram && t0 * 4096 in ram
    requires ram[root][va / 0x4000_0000 % 512] == Pointer(t1)
    requires ram[t1 * 4096][va / 0x20_0000 % 512] == Pointer(t0)
    requires ram[t0 * 4096][va / 0x1000 % 512] == Leaf(r, w, x, u, ppn)
    ensures Translate(ram, root, va) == Physical(ppn * 4096 + va % 4096, Access(r, w, x, u))
  {
    hide Walk, Leaf, Pointer;
    CanonicalMeans(va);
    PointerStep(ram, root, va, 2, t1);
    PointerStep(ram, t1 * 4096, va, 1, t0);
    LeafStep(ram, t0 * 4096, va, 0, r, w, x, u, ppn);
  }

  /** A 2 MiB page behind one pointer. */
  lemma MegaPage(ram: Ram, root: u64, va: u64, t1: nat, r: bool, w: bool, x: bool, u: bool, ppn: nat)
    requires va / 0x40_0000_0000 == 0 || va / 0x40_0000_0000 == 0x3ff_ffff
    requires t1 < 0x1000_0000_0000 && ppn < 0x1000_0000_0000 && Allowed(r, w, x)
    requires root in ram && t1 * 4096 in ram
    requires ram[root][va / 0x4000_0000 % 512] == Pointer(t1)
    requires ram[t1 * 4096][va / 0x20_0000 % 512] == Leaf(r, w, x, u, ppn)
    ensures Translate(ram, root, va)
         == if ppn * 4096 % 0x20_0000 != 0 then PageFault
            else Physical(ppn * 4096 + va % 0x20_0000, Access(r, w, x, u))
  {
    hide Walk, Leaf, Pointer;
    CanonicalMeans(va);
    PointerStep(ram, root, va, 2, t1);
    LeafStep(ram, t1 * 4096, va, 1, r, w, x, u, ppn);
  }

  /** A 1 GiB page in the root table. */
  lemma GigaPage(ram: Ram, root: u64, va: u64, r: bool, w: bool, x: bool, u: bool, ppn: nat)
    requires va / 0x40_0000_0000 == 0 || va / 0x40_0000_0000 == 0x3ff_ffff
    requires ppn < 0x1000_0000_0000 && Allowed(r, w, x)
    requires root in ram && ram[root][va / 0x4000_0000 % 512] == Leaf(r, w, x, u, ppn)
    ensures Translate(ram, root, va)
         == if ppn * 4096 % 0x4000_0000 != 0 then PageFault
            else Physical(ppn * 4096 + va % 0x4000_0000, Access(r, w, x, u))
  {
    hide Walk, Leaf;
    CanonicalMeans(va);
    LeafStep(ram, root, va, 2, r, w, x, u, ppn);
  }
}

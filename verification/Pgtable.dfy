/** include/arch/pgtable.h: masks and shifts on virtual addresses and page-table entries. */
module Pgtable {
  import opened Bits64
  import opened Sv39

  const PAGE_SHIFT := 12
  const PAGE_SIZE := 4096
  const PAGE_MASK: u64 := Not(PAGE_SIZE - 1)

  const PTB_LEVELS := 3
  const PTE_SHIFT := 10
  const PTB_ENTRY_COUNT := 512

  const PTE_VALID: u64 := 1
  const PTE_READ: u64 := 2
  const PTE_WRITE: u64 := 4
  const PTE_EXEC: u64 := 8
  const PTE_LEAF: u64 := PTE_READ + PTE_WRITE + PTE_EXEC

  /** Entry flags that fit below the PPN field. */
  type Flags = f: int | 0 <= f < 1024

  predicate IsAligned(addr: u64)
    ensures IsAligned(addr) <==> addr % 4096 == 0
  {
    Pow2Values();
    AndLowMask(addr, 12);
    And(addr, Not(PAGE_MASK)) == 0
  }

  lemma Pow2Values()
    ensures Pow2(9) == 512 && Pow2(10) == 1024 && Pow2(12) == 4096
    ensures Pow2(21) == 0x20_0000 && Pow2(30) == 0x4000_0000
    ensures Pow2(44) == 0x1000_0000_0000 && Pow2(54) == 0x40_0000_0000_0000
  {
  }

  /** (va & BITMASK64(high, low)) >> low is the field of va in bits low to high. */
  lemma MaskedField(x: u64, high: nat, low: nat)
    requires low <= high < 64
    ensures Pow2(low) >= 1 && Pow2(high + 1 - low) >= 1
    ensures Shr(And(x, Bitmask(high, low)), low) == x / Pow2(low) % Pow2(high + 1 - low)
  {
    hide And, Shr, ShiftUp, Pow2, Bitmask;
    BitmaskIsField(high, low);
    FieldExtract(x, high + 1 - low, low);
  }

  lemma IndexOnLevel2(va: u64)
    ensures Shr(And(va, Bitmask(38, 30)), 30) == Vpn(va, 2)
  {
    hide And, Shr, Bitmask, Pow2;
    Pow2Values();
    MaskedField(va, 38, 30);
  }

  lemma IndexOnLevel1(va: u64)
    ensures Shr(And(va, Bitmask(29, 21)), 21) == Vpn(va, 1)
  {
    hide And, Shr, Bitmask, Pow2;
    Pow2Values();
    MaskedField(va, 29, 21);
  }

  lemma IndexOnLevel0(va: u64)
    ensures Shr(And(va, Bitmask(20, 12)), 12) == Vpn(va, 0)
  {
    hide And, Shr, Bitmask, Pow2;
    Pow2Values();
    MaskedField(va, 20, 12);
  }

  /** va_get_index(): bits 38-30, 29-21 or 20-12 of the address. */
  function VaGetIndex(va: u64, level: nat): (r: u64)
    requires level <= 2
    ensures r == Vpn(va, level) && r < PTB_ENTRY_COUNT
  {
    IndexOnLevel2(va);
    IndexOnLevel1(va);
    IndexOnLevel0(va);
    match level
    case 2 => Shr(And(va, Bitmask(38, 30)), 30)
    case 1 => Shr(And(va, Bitmask(29, 21)), 21)
    case _ => Shr(And(va, Bitmask(20, 12)), 12)
  }

  function PhysToPpn(phys: u64): (r: u64)
    ensures r == phys / 4096
  {
    Pow2Values();
    ShrIsQuotient(phys, PAGE_SHIFT);
    Shr(phys, PAGE_SHIFT)
  }

  function PpnToPhys(ppn: u64): (r: u64)
    ensures ppn < 0x10_0000_0000_0000 ==> r == ppn * 4096
  {
    Pow2Values();
    ShiftUpIsTimes(ppn, PAGE_SHIFT);
    Shl(ppn, PAGE_SHIFT)
  }

  function PteGetPpn(pte: u64): (r: u64)
    ensures r == Ppn(pte)
  {
    Pow2Values();
    MaskedField(pte, 53, 10);
    Shr(And(pte, Bitmask(53, 10)), PTE_SHIFT)
  }

  function PteFromPpn(ppn: u64): (r: u64)
    ensures ppn < 0x40_0000_0000_0000 ==> r == ppn * 1024
  {
    Pow2Values();
    ShiftUpIsTimes(ppn, PTE_SHIFT);
    Shl(ppn, PTE_SHIFT)
  }

  /** pte_next_ptb(): address of the table an entry points to. */
  function PteNextPtb(pte: u64): (r: u64)
    ensures r == Ppn(pte) * 4096
  {
    PpnToPhys(PteGetPpn(pte))
  }

  predicate PteValid(pte: u64)
    ensures PteValid(pte) <==> BitV(pte)
  {
    And(pte, PTE_VALID) != 0
  }

  predicate PteLeaf(pte: u64)
    ensures PteLeaf(pte) <==> BitR(pte) || BitW(pte) || BitX(pte)
  {
    AndDouble(pte, 7);
    assert Pow2(3) == 8;
    AndLowMask(pte / 2, 3);
    assert pte / 4 == pte / 2 / 2 && pte / 8 == pte / 2 / 4;
    And(pte, PTE_LEAF) != 0
  }

  /** The entry vm_map_page() stores to map a page: src/mm.c:189-191. */
  function MakeLeafPte(pa: u64, flags: Flags): (r: u64)
    ensures r == pa / 4096 * 1024 + flags - flags % 2 + 1
  {
    LeafPteBits(pa, flags);
    Or(Or(PteFromPpn(PhysToPpn(pa)), flags), PTE_VALID)
  }

  lemma LeafPteBits(pa: u64, flags: Flags)
    ensures Or(Or(PteFromPpn(PhysToPpn(pa)), flags), PTE_VALID) == pa / 4096 * 1024 + flags - flags % 2 + 1
  {
    hide Or, ShiftUp, Pow2, PteFromPpn, PhysToPpn;
    Pow2Values();
    var ppn := PhysToPpn(pa);
    ShiftUpIsTimes(ppn, PTE_SHIFT);
    OrDisjoint(ppn, flags, PTE_SHIFT);
    OrOne(ppn * 1024 + flags);
    SameParity(ppn, flags);
  }

  lemma SameParity(ppn: nat, flags: nat)
    ensures (ppn * 1024 + flags) % 2 == flags % 2
  {
  }

  /** The entry vm_map_page() stores to attach a table: src/mm.c:205-207. */
  function MakeTablePte(pa: u64): (r: u64)
    ensures r == pa / 4096 * 1024 + 1
  {
    TablePteBits(pa);
    Or(And(PteFromPpn(PhysToPpn(pa)), Not(PTE_LEAF)), PTE_VALID)
  }

  lemma TablePteBits(pa: u64)
    ensures Or(And(PteFromPpn(PhysToPpn(pa)), Not(PTE_LEAF)), PTE_VALID) == pa / 4096 * 1024 + 1
  {
    hide Or, And, PteFromPpn, PhysToPpn;
    var ppn := PhysToPpn(pa);
    NotLeafMaskKeeps(ppn);
    OrOne(ppn * 1024);
  }

  lemma NotLeafMaskKeeps(ppn: u64)
    requires ppn < 0x10_0000_0000_0000
    ensures And(ppn * 1024, Not(PTE_LEAF)) == ppn * 1024
  {
    hide And, Shr, ShiftUp, Pow2;
    Pow2Values();
    var mask := Not(PTE_LEAF);
    ShiftUpIsTimes(ppn, 10);
    AndCommutes(ppn * 1024, mask);
    AndShiftedMask(mask, ppn, 10);
    ShrIsQuotient(mask, 10);
    assert mask / 1024 == 0x3f_ffff_ffff_ffff;
    ShiftUpIsTimes(And(Shr(mask, 10), ppn), 10);
    AndCommutes(Shr(mask, 10), ppn);
    AndLowMask(ppn, 54);
  }

  /** Flags the hardware accepts on a leaf: readable or executable, and no write without read. */
  predicate LeafFlags(flags: Flags) {
    (BitR(flags) || BitX(flags)) && (BitW(flags) ==> BitR(flags))
  }

  /** What mapping a page to pa with these flags should mean for an address in it. */
  function MappedAs(pa: u64, flags: Flags, va: u64): Translation {
    if pa < 0x100_0000_0000_0000 && LeafFlags(flags)
    then Physical(pa / 4096 * 4096 + va % 4096, AccessOf(flags))
    else PageFault
  }

  /** The fields of the leaf entry built for pa: nothing of pa below 2^56 is lost, nothing is added. */
  lemma LeafPteFields(pa: u64, flags: Flags)
    ensures var e := MakeLeafPte(pa, flags);
            && BitV(e) && AccessOf(e) == AccessOf(flags)
            && (pa < 0x100_0000_0000_0000 ==> Ppn(e) == pa / 4096 && !ReservedHigh(e))
            && (pa >= 0x100_0000_0000_0000 ==> ReservedHigh(e))
  {
    hide MakeLeafPte, Ppn, ReservedHigh, BitV, AccessOf;
    LeafAccess(MakeLeafPte(pa, flags), pa / 4096, flags);
    PpnFieldOf(MakeLeafPte(pa, flags), pa / 4096);
  }

  lemma LeafAccess(e: u64, ppn: nat, flags: Flags)
    requires e == ppn * 1024 + flags - flags % 2 + 1
    ensures e / 1024 == ppn && BitV(e) && AccessOf(e) == AccessOf(flags)
  {
    var low := flags - flags % 2 + 1;
    DivModUnique(e, 1024, ppn, low);
    DivModUnique(e, 2, ppn * 512 + low / 2, 1);
    LowBitsOf(ppn, low);
    ValidBitIsLowest(flags);
  }

  lemma PpnFieldOf(e: u64, ppn: nat)
    requires e / 1024 == ppn
    ensures ppn < 0x1000_0000_0000 ==> Ppn(e) == ppn && !ReservedHigh(e)
    ensures ppn >= 0x1000_0000_0000 ==> ReservedHigh(e)
  {
    assert e / 0x40_0000_0000_0000 == e / 1024 / 0x1000_0000_0000;
  }

  /** Bits 1 to 9 of an entry are those of its flags. */
  lemma LowBitsOf(ppn: int, low: int)
    requires 0 <= ppn && 0 <= low
    ensures (ppn * 1024 + low) / 2 % 2 == low / 2 % 2
    ensures (ppn * 1024 + low) / 4 % 2 == low / 4 % 2
    ensures (ppn * 1024 + low) / 8 % 2 == low / 8 % 2
    ensures (ppn * 1024 + low) / 16 % 2 == low / 16 % 2
    ensures (ppn * 1024 + low) / 64 % 2 == low / 64 % 2
    ensures (ppn * 1024 + low) / 128 % 2 == low / 128 % 2
  {
    LowBitOf(ppn * 1024, low, 2, ppn * 256);
    LowBitOf(ppn * 1024, low, 4, ppn * 128);
    LowBitOf(ppn * 1024, low, 8, ppn * 64);
    LowBitOf(ppn * 1024, low, 16, ppn * 32);
    LowBitOf(ppn * 1024, low, 64, ppn * 8);
    LowBitOf(ppn * 1024, low, 128, ppn * 4);
  }

  lemma LowBitOf(x: int, low: int, d: int, q: int)
    requires d > 0 && 0 <= low && 0 <= q && x == 2 * q * d
    ensures (x + low) / d % 2 == low / d % 2
  {
    DivModUnique(x + low, d, 2 * q + low / d, low % d);
  }

  /** Setting bit 0 moves no other bit. */
  lemma ValidBitIsLowest(flags: int)
    requires 0 <= flags < 1024
    ensures var low := flags - flags % 2 + 1;
            low / 2 == flags / 2 && low / 4 == flags / 4 && low / 8 == flags / 8 && low / 16 == flags / 16
  {
    var low := flags - flags % 2 + 1;
    assert low / 2 == flags / 2;
    assert low / 4 == low / 2 / 2 && low / 8 == low / 2 / 4 && low / 16 == low / 2 / 8;
    assert flags / 4 == flags / 2 / 2 && flags / 8 == flags / 2 / 4 && flags / 16 == flags / 2 / 8;
  }

  /** Decoding an entry gives back the address it was built from exactly when that address fits in 56 bits. */
  lemma PteRoundTrip(pa: u64, flags: Flags)
    requires IsAligned(pa)
    ensures PteNextPtb(MakeLeafPte(pa, flags)) == pa <==> pa < 0x100_0000_0000_0000
    ensures PteNextPtb(MakeTablePte(pa)) == pa <==> pa < 0x100_0000_0000_0000
  {
    LeafPteFields(pa, flags);
    assert MakeTablePte(pa) == MakeLeafPte(pa, 0);
    LeafPteFields(pa, 0);
  }

  /** A table entry is valid, is no leaf, and sets no bit that is reserved in a pointer. */
  lemma TablePteFields(pa: u64)
    requires pa < 0x100_0000_0000_0000
    ensures var e := MakeTablePte(pa);
            && PteValid(e) && !PteLeaf(e) && !ReservedHigh(e) && !BitU(e) && !BitA(e) && !BitD(e)
            && PteNextPtb(e) == pa / 4096 * 4096
  {
    assert MakeTablePte(pa) == MakeLeafPte(pa, 0);
    LeafPteFields(pa, 0);
    LowBitsOf(pa / 4096, 1);
  }

  /** A level-0 walk step that meets the entry built for (pa, flags). */
  lemma LeafPteTranslates(ram: Ram, t: u64, va: u64, pa: u64, flags: Flags)
    requires t in ram && ram[t][Vpn(va, 0)] == MakeLeafPte(pa, flags)
    ensures Walk(ram, t, va, 0) == MappedAs(pa, flags, va)
  {
    hide MakeLeafPte, Vpn, Walk, LeafTranslation, MappedAs, ReservedHigh, AccessOf;
    WalkAtZero(ram, t, va);
    LeafPteMeaning(pa, flags, va);
  }

  /** The last step of a walk. */
  lemma WalkAtZero(ram: Ram, t: u64, va: u64)
    requires t in ram
    ensures Walk(ram, t, va, 0) == EntryMeaning(ram[t][Vpn(va, 0)], va, 0)
  {
    hide LeafTranslation, Vpn, ReservedHigh;
  }

  /** What Sv39 makes of a last entry. */
  function EntryMeaning(e: u64, va: u64, i: nat): Translation
    requires i <= 2
  {
    if !BitV(e) || (!BitR(e) && BitW(e)) || ReservedHigh(e) || !(BitR(e) || BitX(e)) then PageFault
    else LeafTranslation(e, va, i)
  }

  lemma LeafPteMeaning(pa: u64, flags: Flags, va: u64)
    ensures EntryMeaning(MakeLeafPte(pa, flags), va, 0) == MappedAs(pa, flags, va)
  {
    hide MakeLeafPte, Ppn, ReservedHigh;
    LeafPteFields(pa, flags);
    SameAccess(MakeLeafPte(pa, flags), flags);
    assert Span(0) == 4096;
  }

  lemma SameAccess(e: u64, f: u64)
    requires AccessOf(e) == AccessOf(f)
    ensures BitR(e) == BitR(f) && BitW(e) == BitW(f) && BitX(e) == BitX(f)
  {
  }
}

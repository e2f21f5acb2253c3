/** src/mm.c: vm_init_kernel() and mm_init(), which build the kernel's address space at boot. */
module BootMap {
  import opened Bits64
  import opened Sv39
  import opened Pgtable
  import opened Alloc
  import opened PageTree
  import opened Mm

  const KERNEL_PHYS_OFFSET := 0xffff_ffff_0000_0000
  const KERNEL_DIRECT_MAP_START := 0xffff_ffc0_0000_0000
  const SIZE_1G := 0x4000_0000
  const KERNEL_DIRECT_MAP_SIZE := 32 * SIZE_1G
  const KERNEL_DIRECT_MAP_END := KERNEL_DIRECT_MAP_START + KERNEL_DIRECT_MAP_SIZE
  const SERIAL_PAGE := 0x1000_0000

  /** First address the kernel can be linked at: the last 2 GiB of the address space. */
  const KERNEL_BASE := 0xffff_ffff_8000_0000

  /** va_to_pa() and pa_to_va(): include/kernel/mm.h:73-89. */
  function VaToPa(va: u64): u64 {
    if KERNEL_DIRECT_MAP_START <= va <= KERNEL_DIRECT_MAP_END then va - KERNEL_DIRECT_MAP_START else 0
  }

  function PaToVa(pa: u64): u64 {
    (pa + KERNEL_DIRECT_MAP_START) % WORD
  }

  /** Outside the direct map va_to_pa() says 0, except for the address one past its end. */
  lemma VaToPaOutside(va: u64)
    ensures InDirectMap(va) <==> 0xffff_ffc0_0000_0000 <= va < 0xffff_ffc8_0000_0000
    ensures InDirectMap(va) ==> VaToPa(va) == va - 0xffff_ffc0_0000_0000 && PaToVa(VaToPa(va)) == va
    ensures !InDirectMap(va) ==> (VaToPa(va) != 0 <==> va == 0xffff_ffc8_0000_0000)
    ensures VaToPa(0xffff_ffc8_0000_0000) == 0x8_0000_0000
  {
  }

  /** The section bounds of struct memory_map_t: virtual addresses set by the linker. */
  datatype MemoryMap = MemoryMap(
    textStart: u64, textEnd: u64, bssStart: u64, bssEnd: u64,
    rodataStart: u64, rodataEnd: u64, dataStart: u64, dataEnd: u64, kernelEnd: u64)

  /** What linker.ld guarantees: page-aligned starts, sections in this order, a page-aligned end. */
  predicate LinkerLayout(k: MemoryMap) {
    && 0xffff_ffff_8000_0000 <= k.textStart <= k.textEnd <= k.bssStart <= k.bssEnd
    && k.bssEnd <= k.rodataStart <= k.rodataEnd <= k.dataStart <= k.dataEnd <= k.kernelEnd
    && k.textStart % 4096 == 0 && k.bssStart % 4096 == 0 && k.rodataStart % 4096 == 0
    && k.dataStart % 4096 == 0 && k.kernelEnd % 4096 == 0
  }

  function PageOf(va: u64): u64 {
    va / 4096 * 4096
  }

  /** The page of va starts inside [start, end). */
  predicate InSection(va: u64, start: u64, end: u64) {
    start <= PageOf(va) < end
  }

  predicate InDirectMap(va: u64) {
    KERNEL_DIRECT_MAP_START <= va < KERNEL_DIRECT_MAP_END
  }

  const RX := Access(true, false, true, false)
  const RW := Access(true, true, false, false)
  const RO := Access(true, false, false, false)
  const RWX := Access(true, true, true, false)

  /** The address space the kernel is meant to run in, in plain numbers: the sections at their load addresses,
      the serial device in place, and the first 32 GiB of physical memory in the direct map. */
  function BootTranslation(k: MemoryMap, va: u64): Translation {
    if InSection(va, k.textStart, k.textEnd) then
      Physical((va - 0xffff_ffff_0000_0000) % WORD, Access(read := true, write := false, execute := true, user := false))
    else if InSection(va, k.bssStart, k.bssEnd) then
      Physical((va - 0xffff_ffff_0000_0000) % WORD, Access(read := true, write := true, execute := false, user := false))
    else if InSection(va, k.rodataStart, k.rodataEnd) then
      Physical((va - 0xffff_ffff_0000_0000) % WORD, Access(read := true, write := false, execute := false, user := false))
    else if InSection(va, k.dataStart, k.dataEnd) then
      Physical((va - 0xffff_ffff_0000_0000) % WORD, Access(read := true, write := true, execute := false, user := false))
    else if 0x1000_0000 <= va < 0x1000_1000 then
      Physical(va, Access(read := true, write := true, execute := false, user := false))
    else if 0xffff_ffc0_0000_0000 <= va < 0xffff_ffc8_0000_0000 then
      Physical(va - 0xffff_ffc0_0000_0000, Access(read := true, write := true, execute := true, user := false))
    else PageFault
  }

  /** A translation to this physical address, with these permissions and not from user mode. */
  predicate MapsTo(t: Translation, pa: int, r: bool, w: bool, x: bool) {
    t.Physical? && t.pa == pa && t.access.read == r && t.access.write == w && t.access.execute == x && !t.access.user
  }

  /** Region by region: .text is R-X, .bss and .data are RW-, .rodata is R--, all between 2 GiB and 4 GiB of physical
      memory; the direct map is RWX, the serial page RW-; page 0 and every page outside these faults. */
  lemma BootAddresses(k: MemoryMap, va: u64)
    requires LinkerLayout(k)
    ensures var t, pa := BootTranslation(k, va), va - 0xffff_ffff_0000_0000;
            && (k.textStart <= va < k.textEnd ==> MapsTo(t, pa, true, false, true))
            && (k.bssStart <= va < k.bssEnd ==> MapsTo(t, pa, true, true, false))
            && (k.rodataStart <= va < k.rodataEnd ==> MapsTo(t, pa, true, false, false))
            && (k.dataStart <= va < k.dataEnd ==> MapsTo(t, pa, true, true, false))
            && (k.textStart <= va < k.dataEnd ==> 0x8000_0000 <= pa < 0x1_0000_0000)
    ensures 0xffff_ffc0_0000_0000 <= va < 0xffff_ffc8_0000_0000 ==>
              MapsTo(BootTranslation(k, va), va - 0xffff_ffc0_0000_0000, true, true, true)
    ensures 0x1000_0000 <= va < 0x1000_1000 ==> MapsTo(BootTranslation(k, va), va, true, true, false)
    ensures BootTranslation(k, va).Physical? ==>
              || 0x1000_0000 <= va < 0x1000_1000
              || 0xffff_ffc0_0000_0000 <= va < 0xffff_ffc8_0000_0000
              || k.textStart <= va < k.textEnd + 4096 || k.bssStart <= va < k.bssEnd + 4096
              || k.rodataStart <= va < k.rodataEnd + 4096 || k.dataStart <= va < k.dataEnd + 4096
    ensures va < 4096 ==> BootTranslation(k, va) == PageFault
  {
    PageBounds(va, k.textStart);
    PageBounds(va, k.bssStart);
    PageBounds(va, k.rodataStart);
    PageBounds(va, k.dataStart);
  }

  lemma PageBounds(va: u64, start: u64)
    requires start % 4096 == 0
    ensures PageOf(va) <= va < PageOf(va) + 4096
    ensures start <= va <==> start <= PageOf(va)
  {
  }

  // ---- Counting the tables a section needs ----

  function Region(va: u64): nat {
    va / 0x20_0000
  }

  function GigaRegion(va: u64): nat {
    va / 0x4000_0000
  }

  /** With last the last page mapped in the kernel area (or KERNEL_BASE - 1): the regions up to last
      bound the pages taken, and the regions of last already have their tables. */
  ghost predicate Budget(ram: Ram, root: u64, next: nat, last: u64) {
    && KERNEL_BASE - 1 <= last
    && next <= 1 + (Region(last) - Region(KERNEL_BASE - 1)) + (GigaRegion(last) - GigaRegion(KERNEL_BASE - 1))
    && forall w: u64 :: w >= KERNEL_BASE ==> RegionTables(Lookup(ram, root, w, 2), last, w)
  }

  ghost predicate RegionTables(v: View, last: u64, w: u64) {
    && v.level <= 2
    && (Region(w) == Region(last) ==> Needed(v) == 0)
    && (GigaRegion(w) == GigaRegion(last) ==> Needed(v) <= 1)
  }

  /** View of w once va's page has been mapped by entry e, given its view before. */
  function MappedView(before: View, va: u64, e: u64, w: u64): View {
    if SameVpns(va, w) then Found(0, e) else Deepen(before, Common(va, w))
  }

  /** The allocator is somewhere in the pool that starts at start: what it has handed out are the
      tables, and every page boot may still need exists. */
  ghost predicate BootPool(ram: Ram, t: Tree, list: seq<u64>, next: nat, start: u64) {
    && |list| == ALLOC_LIST_SIZE && next < ALLOC_LIST_SIZE
    && (forall j :: next <= j < ALLOC_LIST_SIZE ==> list[j] == PoolPage(start, j))
    && (forall j :: 0 <= j < 1030 ==> PoolPage(start, j) in ram)
    && t.level.Keys == Elements(Pool(start)[..next])
  }

  ghost predicate Booting(k: Kernel, start: u64)
    reads k, k.alloc, k.alloc.list
  {
    && k.Valid()
    && BootPool(k.ram, k.tree, k.alloc.list[..], k.alloc.next, start)
  }

  /** Addresses outside the kernel area share no table below the root with it. */
  lemma KernelAreaApart(v: u64, w: u64)
    requires v >= KERNEL_BASE && Canonical(w) && w < KERNEL_BASE
    ensures Common(v, w) == 2 && !SameVpns(v, w)
  {
    assert v / 0x4000_0000 >= 0x3_ffff_fffe && v / 0x4000_0000 <= 0x3_ffff_ffff;
    assert v / 0x4000_0000 % 512 >= 510;
    if w < 0x40_0000_0000 {
      assert w / 0x4000_0000 < 256;
    } else {
      assert 0x3_ffff_ff00 <= w / 0x4000_0000 < 0x3_ffff_fffe;
    }
  }

  lemma BudgetStep(ram0: Ram, ram: Ram, root: u64, next: nat, last: u64, va: u64, e: u64)
    requires Budget(ram0, root, next, last) && last < va
    requires forall w: u64 :: Lookup(ram, root, w, 2) == MappedView(Lookup(ram0, root, w, 2), va, e, w)
    ensures Budget(ram, root, next + Needed(Lookup(ram0, root, va, 2)), va)
    ensures next + Needed(Lookup(ram0, root, va, 2)) <= 1027
  {
    hide Lookup, Common, SameVpns, Deepen;
    assert RegionTables(Lookup(ram0, root, va, 2), last, va);
    assert Region(last) <= Region(va) && GigaRegion(last) <= GigaRegion(va);
    forall w: u64 | w >= KERNEL_BASE
      ensures RegionTables(Lookup(ram, root, w, 2), va, w)
    {
      assert RegionTables(Lookup(ram0, root, w, 2), last, w);
      RegionStep(Lookup(ram0, root, w, 2), last, va, e, w);
    }
  }

  lemma RegionsOfCommon(v: u64, w: u64)
    requires v >= KERNEL_BASE && w >= KERNEL_BASE
    ensures Region(v) == Region(w) ==> Common(v, w) == 0
    ensures GigaRegion(v) == GigaRegion(w) ==> Common(v, w) <= 1
  {
    if Region(v) == Region(w) {
      assert v / 0x4000_0000 == v / 0x20_0000 / 512 && w / 0x4000_0000 == w / 0x20_0000 / 512;
    }
  }

  lemma RegionStep(before: View, last: u64, va: u64, e: u64, w: u64)
    requires RegionTables(before, last, w) && va >= KERNEL_BASE && w >= KERNEL_BASE
    ensures RegionTables(MappedView(before, va, e, w), va, w)
  {
    hide Common, Region, GigaRegion;
    RegionsOfCommon(va, w);
  }

  lemma BudgetBound(ram: Ram, root: u64, next: nat, last: u64)
    requires Budget(ram, root, next, last)
    ensures next <= 1027
  {
  }

  lemma BootPoolStep(ram0: Ram, t0: Tree, list0: seq<u64>, next0: nat,
                     ram: Ram, t: Tree, list: seq<u64>, next: nat, start: u64)
    requires BootPool(ram0, t0, list0, next0, start)
    requires NewTables(t0, t, list0, next0, next) && |list| == ALLOC_LIST_SIZE && next < ALLOC_LIST_SIZE
    requires ram.Keys == ram0.Keys
    requires forall j :: next <= j < ALLOC_LIST_SIZE ==> list[j] == list0[j]
    ensures BootPool(ram, t, list, next, start)
  {
    assert list0[next0..next] == Pool(start)[next0..next];
    assert Pool(start)[..next] == Pool(start)[..next0] + Pool(start)[next0..next];
  }

  lemma PoolSuffices(ram: Ram, t: Tree, list: seq<u64>, next: nat, start: u64, n: nat)
    requires BootPool(ram, t, list, next, start) && next + n <= 1030
    ensures forall j :: next <= j < next + n ==> list[j] in ram
  {
  }

  /** One vm_map_page() call of boot: a page whose level-0 entry is still free. */
  method MapFreePage(k: Kernel, va: u64, pa: u64, flags: Flags, ghost start: u64)
    requires Booting(k, start) && IsAligned(va) && IsAligned(pa) && Canonical(va)
    requires k.View(va).Missing? && k.alloc.next + Needed(k.View(va)) <= 1030
    modifies k`ram, k`tree, k.alloc, k.alloc.list
    ensures Booting(k, start) && k.tree.root == old(k.tree.root)
    ensures k.alloc.next == old(k.alloc.next) + Needed(old(k.View(va)))
    ensures forall w: u64 :: Lookup(k.ram, k.tree.root, w, 2)
                 == MappedView(Lookup(old(k.ram), k.tree.root, w, 2), va, MakeLeafPte(pa, flags), w)
    ensures forall w: u64 :: Translate(k.ram, k.tree.root, w)
                 == Remapped(Translate(old(k.ram), k.tree.root, w), va, pa, flags, w)
  {
    hide Wf, Disjoint, IsAligned, MakeLeafPte, SameVpns, Deepen, Common, Lookup, Translate, Remapped, NewTables, DataKept,
         BootPool, Pool, PoolPage;
    PoolSuffices(k.ram, k.tree, k.alloc.list[..], k.alloc.next, start, Needed(k.View(va)));
    var r := k.VmMapPage(va, pa, flags);
    assert r == Mapped;
    forall w: u64
      ensures Lookup(k.ram, k.tree.root, w, 2)
           == MappedView(Lookup(old(k.ram), k.tree.root, w, 2), va, MakeLeafPte(pa, flags), w)
      ensures Translate(k.ram, k.tree.root, w) == Remapped(Translate(old(k.ram), k.tree.root, w), va, pa, flags, w)
    {
      assert k.View(w) == MappedView(old(k.View(w)), va, MakeLeafPte(pa, flags), w);
      assert k.Translation(w) == Remapped(old(k.Translation(w)), va, pa, flags, w);
    }
    BootPoolStep(old(k.ram), old(k.tree), old(k.alloc.list[..]), old(k.alloc.next),
                 k.ram, k.tree, k.alloc.list[..], k.alloc.next, start);
  }

  /** Translations once the pages from start up to addr are mapped to their physical pages. */
  function SectionMapped(before: Translation, start: u64, addr: u64, flags: Flags, w: u64): Translation {
    if InSection(w, start, addr) then MappedAs((PageOf(w) - KERNEL_PHYS_OFFSET) % WORD, flags, w) else before
  }

  /** Views outside the pages already mapped: free pages stay free, lower addresses are untouched. */
  ghost predicate StillFree(ram0: Ram, ram: Ram, root: u64, addr: u64) {
    && (forall w: u64 :: Canonical(w) && w < KERNEL_BASE ==> Lookup(ram, root, w, 2) == Lookup(ram0, root, w, 2))
    && (forall w: u64 :: w >= KERNEL_BASE && PageOf(w) >= addr && Lookup(ram0, root, w, 2).Missing? ==>
          Lookup(ram, root, w, 2).Missing?)
  }

  lemma StillFreeStep(ram0: Ram, ram1: Ram, ram: Ram, root: u64, addr: u64, e: u64)
    requires KERNEL_BASE <= addr <= 0xffff_ffff_ffff_e000 && addr % 4096 == 0
    requires StillFree(ram0, ram1, root, addr)
    requires forall w: u64 :: w >= KERNEL_BASE ==> Lookup(ram1, root, w, 2).level <= 2
    requires forall w: u64 :: Lookup(ram, root, w, 2) == MappedView(Lookup(ram1, root, w, 2), addr, e, w)
    requires forall w: u64 :: Lookup(ram1, root, w, 2).level <= 2
    ensures StillFree(ram0, ram, root, addr + 4096)
  {
    hide Lookup, SameVpns, Common, Vpn;
    forall w: u64 | Canonical(w) && w < KERNEL_BASE
      ensures Lookup(ram, root, w, 2) == Lookup(ram0, root, w, 2)
    {
      KernelAreaApart(addr, w);
    }
    forall w: u64 | w >= KERNEL_BASE && PageOf(w) >= addr + 4096 && Lookup(ram0, root, w, 2).Missing?
      ensures Lookup(ram, root, w, 2).Missing?
    {
      VpnsDeterminePage(addr, w);
      assert !SamePage(addr, w);
    }
  }

  lemma SectionStep(before: Translation, start: u64, addr: u64, flags: Flags, w: u64)
    requires KERNEL_BASE <= start <= addr <= 0xffff_ffff_ffff_e000 && start % 4096 == 0 && addr % 4096 == 0
    ensures Remapped(SectionMapped(before, start, addr, flags, w), addr, addr - KERNEL_PHYS_OFFSET, flags, w)
         == SectionMapped(before, start, addr + 4096, flags, w)
  {
    hide MappedAs;
    assert SamePage(addr, w) <==> PageOf(w) == addr;
  }

  lemma LevelsBelowThree(ram: Ram, root: u64)
    ensures forall w: u64 :: Lookup(ram, root, w, 2).level <= 2
  {
  }

  /** The pages of a section from start up to addr are mapped, and nothing else has changed since ram0. */
  ghost predicate SectionDone(ram0: Ram, ram: Ram, root: u64, start: u64, addr: u64, flags: Flags) {
    && StillFree(ram0, ram, root, addr)
    && forall w: u64 :: Translate(ram, root, w) == SectionMapped(Translate(ram0, root, w), start, addr, flags, w)
  }

  /** Every mapped address is mapped by a leaf. */
  ghost predicate LeavesOnly(ram: Ram, root: u64) {
    forall w: u64 :: IsLeafView(Lookup(ram, root, w, 2))
  }

  predicate IsLeafView(v: View) {
    v.Found? ==> PteLeaf(v.pte)
  }

  lemma LeavesStep(ram0: Ram, ram: Ram, root: u64, va: u64, pa: u64, flags: Flags)
    requires LeavesOnly(ram0, root) && LeafFlags(flags)
    requires forall w: u64 :: Lookup(ram, root, w, 2)
                == MappedView(Lookup(ram0, root, w, 2), va, MakeLeafPte(pa, flags), w)
    ensures LeavesOnly(ram, root)
  {
    hide Lookup, MakeLeafPte, SameVpns, Common, PteLeaf;
    LeafPteFields(pa, flags);
  }

  lemma SectionStart(ram: Ram, root: u64, start: u64, flags: Flags)
    ensures SectionDone(ram, ram, root, start, start, flags)
  {
  }

  lemma SectionDoneStep(ram0: Ram, ram1: Ram, ram: Ram, root: u64, start: u64, addr: u64, flags: Flags)
    requires KERNEL_BASE <= start <= addr <= 0xffff_ffff_ffff_e000 && start % 4096 == 0 && addr % 4096 == 0
    requires SectionDone(ram0, ram1, root, start, addr, flags)
    requires forall w: u64 :: Lookup(ram, root, w, 2)
                == MappedView(Lookup(ram1, root, w, 2), addr, MakeLeafPte(addr - KERNEL_PHYS_OFFSET, flags), w)
    requires forall w: u64 :: Translate(ram, root, w)
                == Remapped(Translate(ram1, root, w), addr, addr - KERNEL_PHYS_OFFSET, flags, w)
    ensures SectionDone(ram0, ram, root, start, addr + 4096, flags)
  {
    hide Lookup, Translate, StillFree, SectionMapped, Remapped, MakeLeafPte, MappedView;
    LevelsBelowThree(ram1, root);
    StillFreeStep(ram0, ram1, ram, root, addr, MakeLeafPte(addr - KERNEL_PHYS_OFFSET, flags));
    forall w: u64
      ensures Translate(ram, root, w) == SectionMapped(Translate(ram0, root, w), start, addr + 4096, flags, w)
    {
      SectionStep(Translate(ram0, root, w), start, addr, flags, w);
    }
  }

  /** The last page of a section may lie only partly inside it. */
  lemma SectionEnd(ram0: Ram, ram: Ram, root: u64, start: u64, addr: u64, end: u64, flags: Flags)
    requires SectionDone(ram0, ram, root, start, addr, flags) && addr % 4096 == 0 && end <= addr < end + 4096
    ensures SectionDone(ram0, ram, root, start, end, flags)
  {
    hide Lookup, Translate;
    assert forall w: u64 :: PageOf(w) < addr <==> PageOf(w) < end;
  }

  lemma NextPageFree(ram0: Ram, ram: Ram, root: u64, start: u64, addr: u64, flags: Flags, next: nat, last: u64)
    requires SectionDone(ram0, ram, root, start, addr, flags) && Budget(ram, root, next, last) && last < addr
    requires KERNEL_BASE <= start <= addr && addr % 4096 == 0
    requires forall w: u64 :: w >= KERNEL_BASE && PageOf(w) >= start ==> Lookup(ram0, root, w, 2).Missing?
    ensures Lookup(ram, root, addr, 2).Missing? && next + Needed(Lookup(ram, root, addr, 2)) <= 1030
  {
    hide Lookup;
    assert PageOf(addr) == addr;
    assert RegionTables(Lookup(ram, root, addr, 2), last, addr);
  }

  /** The loop that maps one section: src/mm.c:85-87, 92-94, 99-101 and 106-108. */
  method MapSection(k: Kernel, start: u64, end: u64, flags: Flags, ghost last: u64, ghost pool: u64)
    returns (ghost last2: u64)
    requires Booting(k, pool) && Budget(k.ram, k.tree.root, k.alloc.next, last) && last < start
    requires KERNEL_BASE <= start <= end <= 0xffff_ffff_ffff_f000 && start % 4096 == 0
    requires LeafFlags(flags) && LeavesOnly(k.ram, k.tree.root)
    requires forall w: u64 :: w >= KERNEL_BASE && PageOf(w) >= start ==> Lookup(k.ram, k.tree.root, w, 2).Missing?
    modifies k`ram, k`tree, k.alloc, k.alloc.list
    ensures Booting(k, pool) && k.tree.root == old(k.tree.root)
    ensures Budget(k.ram, k.tree.root, k.alloc.next, last2) && (last2 == last || start <= last2 < end)
    ensures SectionDone(old(k.ram), k.ram, k.tree.root, start, end, flags) && LeavesOnly(k.ram, k.tree.root)
  {
    hide LeavesOnly, LeafFlags, Booting, Budget, SectionDone, Lookup, Translate, Remapped, MakeLeafPte, MappedView,
         PageOf, IsAligned;
    last2 := last;
    var addr := start;
    SectionStart(k.ram, k.tree.root, start, flags);
    while addr < end
      invariant start <= addr <= 0xffff_ffff_ffff_f000 && addr % 4096 == 0 && addr < end + 4096
      invariant Booting(k, pool) && k.tree.root == old(k.tree.root)
      invariant Budget(k.ram, k.tree.root, k.alloc.next, last2)
      invariant last2 < addr && (last2 == last || start <= last2 < end)
      invariant SectionDone(old(k.ram), k.ram, k.tree.root, start, addr, flags) && LeavesOnly(k.ram, k.tree.root)
    {
      ghost var ram1, next1 := k.ram, k.alloc.next;
      NextPageFree(old(k.ram), ram1, k.tree.root, start, addr, flags, next1, last2);
      MapFreePage(k, addr, addr - KERNEL_PHYS_OFFSET, flags, pool);
      BudgetStep(ram1, k.ram, k.tree.root, next1, last2, addr, MakeLeafPte(addr - KERNEL_PHYS_OFFSET, flags));
      SectionDoneStep(old(k.ram), ram1, k.ram, k.tree.root, start, addr, flags);
      LeavesStep(ram1, k.ram, k.tree.root, addr, addr - KERNEL_PHYS_OFFSET, flags);
      last2 := addr;
      addr := addr + PAGE_SIZE;
    }
    SectionEnd(old(k.ram), k.ram, k.tree.root, start, addr, end, flags);
  }

  // ---- Direct map ----

  /** The root entry of w is one of the 32 gigapages of the direct map. */
  predicate DirectMapEntry(w: u64, i: nat) {
    256 <= Vpn(w, 2) < 256 + i
  }

  /** pte_from_ppn(phys_to_ppn(pa)) | R | W | X | V: src/mm.c:61-62. */
  function GigapagePte(pa: u64): (r: u64)
    ensures r == MakeLeafPte(pa, 14)
  {
    Pow2Values();
    var ppn := PhysToPpn(pa);
    ShiftUpIsTimes(ppn, PTE_SHIFT);
    OrDisjoint(ppn, 15, PTE_SHIFT);
    Or(PteFromPpn(ppn), 15)
  }

  function DirectView(before: View, i: nat, w: u64): View {
    if DirectMapEntry(w, i) then Found(2, MakeLeafPte((Vpn(w, 2) - 256) * SIZE_1G, 14)) else before
  }

  function DirectMapped(before: Translation, w: u64): Translation {
    if InDirectMap(w) then Physical(w - KERNEL_DIRECT_MAP_START, RWX) else before
  }

  lemma DirectMapIndex(w: u64)
    requires Canonical(w)
    ensures DirectMapEntry(w, 32) <==> InDirectMap(w)
    ensures InDirectMap(w) ==> w - KERNEL_DIRECT_MAP_START == (Vpn(w, 2) - 256) * SIZE_1G + w % SIZE_1G
  {
    assert w / 0x4000_0000 * 0x4000_0000 + w % 0x4000_0000 == w;
    if w < 0x40_0000_0000 {
      assert w / 0x4000_0000 < 256;
    } else {
      assert 0x3_ffff_ff00 <= w / 0x4000_0000 <= 0x3_ffff_ffff;
      assert w / 0x4000_0000 % 512 == w / 0x4000_0000 - 0x3_ffff_fe00;
    }
  }

  lemma GigapageMeaning(i: nat, w: u64)
    requires i < 32
    ensures Meaning(Found(2, MakeLeafPte(i * SIZE_1G, 14)), w) == Physical(i * SIZE_1G + w % SIZE_1G, RWX)
  {
    hide MakeLeafPte, Ppn, ReservedHigh;
    var pa: u64 := i * 0x4000_0000;
    LeafPteFields(pa, 14);
    assert pa / 4096 == i * 0x4_0000;
    assert AccessOf(14) == RWX;
    assert pa % Span(2) == 0;
  }

  lemma DirectMapTranslates(ram0: Ram, ram: Ram, t: Tree, w: u64)
    requires Wf(ram0, t) && Wf(ram, t)
    requires Lookup(ram, t.root, w, 2) == DirectView(Lookup(ram0, t.root, w, 2), 32, w)
    ensures Translate(ram, t.root, w) == DirectMapped(Translate(ram0, t.root, w), w)
  {
    hide Wf, Lookup, Walk, Vpn, MakeLeafPte;
    TranslateIsMeaning(ram0, t, w);
    TranslateIsMeaning(ram, t, w);
    if Canonical(w) {
      DirectMapIndex(w);
      if InDirectMap(w) {
        GigapageMeaning(Vpn(w, 2) - 256, w);
      }
    }
  }

  /** vm_init_kernel_direct_map(): 32 gigapages, written straight into the root table. */
  method VmInitKernelDirectMap(k: Kernel)
    requires k.Valid()
    requires forall w: u64 :: InDirectMap(w) ==> Lookup(k.ram, k.tree.root, w, 2) == Missing(2)
    modifies k`ram
    ensures k.Valid() && k.ram.Keys == old(k.ram).Keys
    ensures forall w: u64 :: Lookup(k.ram, k.tree.root, w, 2) == DirectView(Lookup(old(k.ram), k.tree.root, w, 2), 32, w)
    ensures forall w: u64 :: Translate(k.ram, k.tree.root, w) == DirectMapped(Translate(old(k.ram), k.tree.root, w), w)
  {
    hide Wf, Disjoint, Translate, MakeLeafPte, Store, Vpn, PteLeaf, PteValid, Lookup, GigapagePte, VaGetIndex;
    var ptb := k.kernelRootPtb;
    var i: nat := 0;
    while i < KERNEL_DIRECT_MAP_SIZE / SIZE_1G
      modifies k`ram
      invariant i <= 32 && k.Valid() && k.ram.Keys == old(k.ram).Keys
      invariant forall w: u64 :: Lookup(k.ram, k.tree.root, w, 2) == DirectView(Lookup(old(k.ram), k.tree.root, w, 2), i, w)
    {
      var pa := i * SIZE_1G;
      var va := KERNEL_DIRECT_MAP_START + pa;
      var idx := VaGetIndex(va, 2);
      var pte := GigapagePte(pa);
      DirectMapSlot(old(k.ram), k.ram, k.tree, i);
      DirectMapStep(old(k.ram), k.ram, k.tree, i);
      k.ram := Store(k.ram, ptb, idx, pte);
      i := i + 1;
    }
    forall w: u64
      ensures Translate(k.ram, k.tree.root, w) == DirectMapped(Translate(old(k.ram), k.tree.root, w), w)
    {
      DirectMapTranslates(old(k.ram), k.ram, k.tree, w);
    }
  }

  lemma DirectMapSlot(ram0: Ram, ram: Ram, t: Tree, i: nat)
    requires Wf(ram0, t) && Wf(ram, t) && i < 32
    requires Lookup(ram0, t.root, KERNEL_DIRECT_MAP_START + i * SIZE_1G, 2) == Missing(2)
    requires forall w: u64 :: Lookup(ram, t.root, w, 2) == DirectView(Lookup(ram0, t.root, w, 2), i, w)
    ensures Vpn(KERNEL_DIRECT_MAP_START + i * SIZE_1G, 2) == 256 + i
    ensures t.root in ram && !PteValid(ram[t.root][256 + i])
  {
    hide Wf, PteValid, PteLeaf, PteNextPtb, Vpn, MakeLeafPte;
    var va: u64 := KERNEL_DIRECT_MAP_START + i * 0x4000_0000;
    DirectMapVpn(i);
    assert Lookup(ram, t.root, va, 2) == DirectView(Lookup(ram0, t.root, va, 2), i, va) == Missing(2);
    RootInRam(ram, t);
    LookupLevel(ram, PteNextPtb(ram[t.root][256 + i]), va, 1);
  }

  /** One gigapage more. */
  lemma DirectMapStep(ram0: Ram, ram: Ram, t: Tree, i: nat)
    requires Wf(ram, t) && i < 32 && t.root in ram && !PteValid(ram[t.root][256 + i])
    requires forall w: u64 :: Lookup(ram, t.root, w, 2) == DirectView(Lookup(ram0, t.root, w, 2), i, w)
    ensures var ram2 := Store(ram, t.root, 256 + i, GigapagePte(i * SIZE_1G));
            && Wf(ram2, t)
            && forall w: u64 :: Lookup(ram2, t.root, w, 2) == DirectView(Lookup(ram0, t.root, w, 2), i + 1, w)
  {
    hide Wf, MakeLeafPte, Store, Vpn, PteLeaf, PteValid, Lookup, GigapagePte;
    LeafPteFields(i * SIZE_1G, 14);
    assert PteLeaf(GigapagePte(i * SIZE_1G)) && PteValid(GigapagePte(i * SIZE_1G));
    GigapageStore(ram, t, 256 + i, GigapagePte(i * SIZE_1G));
  }

  lemma DirectMapVpn(i: nat)
    requires i < 32
    ensures Vpn(KERNEL_DIRECT_MAP_START + i * SIZE_1G, 2) == 256 + i
  {
    var va: u64 := KERNEL_DIRECT_MAP_START + i * 0x4000_0000;
    assert va / 0x4000_0000 == 0x3_ffff_ff00 + i;
  }

  lemma RootInRam(ram: Ram, t: Tree)
    requires Wf(ram, t)
    ensures t.root in ram
  {
  }

  // ---- vm_init_kernel ----

  /** The four sections, one after the other. */
  function SectionsMapped(m: MemoryMap, w: u64): Translation {
    var text := SectionMapped(PageFault, m.textStart, m.textEnd, 10, w);
    var bss := SectionMapped(text, m.bssStart, m.bssEnd, 6, w);
    var rodata := SectionMapped(bss, m.rodataStart, m.rodataEnd, 2, w);
    SectionMapped(rodata, m.dataStart, m.dataEnd, 6, w)
  }

  lemma SectionMeaning(start: u64, end: u64, flags: Flags, w: u64)
    requires KERNEL_BASE <= start && InSection(w, start, end) && LeafFlags(flags)
    ensures SectionMapped(PageFault, start, end, flags, w) == Physical((w - KERNEL_PHYS_OFFSET) % WORD, AccessOf(flags))
  {
    assert PageOf(w) + w % 4096 == w;
    assert KERNEL_PHYS_OFFSET % 4096 == 0;
    assert (PageOf(w) - KERNEL_PHYS_OFFSET) % WORD == PageOf(w) - KERNEL_PHYS_OFFSET;
    assert (PageOf(w) - KERNEL_PHYS_OFFSET) / 4096 * 4096 == PageOf(w) - KERNEL_PHYS_OFFSET;
  }

  lemma FlagsMeaning()
    ensures LeafFlags(10) && LeafFlags(6) && LeafFlags(2) && !LeafFlags(0)
    ensures AccessOf(10) == RX && AccessOf(6) == RW && AccessOf(2) == RO
  {
  }

  /** All mappings of vm_init_kernel() together make up the boot address space. */
  lemma BootMeaning(m: MemoryMap, w: u64)
    requires LinkerLayout(m)
    ensures Remapped(DirectMapped(Remapped(SectionsMapped(m, w), SERIAL_PAGE, SERIAL_PAGE, 6, w), w), 0, 0, 0, w)
         == BootTranslation(m, w)
  {
    hide LeafFlags, AccessOf;
    FlagsMeaning();
    if InSection(w, m.textStart, m.textEnd) {
      SectionMeaning(m.textStart, m.textEnd, 10, w);
    } else if InSection(w, m.bssStart, m.bssEnd) {
      SectionMeaning(m.bssStart, m.bssEnd, 6, w);
    } else if InSection(w, m.rodataStart, m.rodataEnd) {
      SectionMeaning(m.rodataStart, m.rodataEnd, 2, w);
    } else if InSection(w, m.dataStart, m.dataEnd) {
      SectionMeaning(m.dataStart, m.dataEnd, 6, w);
    }
  }

  /** What vm_init_kernel() may assume: a fresh allocator whose first 1030 pages exist, and a root page
      whose entries all happen to be invalid: alloc_get_page() does not clear it. */
  ghost predicate BootReady(ram: Ram, alloc: AllocState, start: u64) {
    && alloc == AllocState(Pool(start), 0, true)
    && start % 4096 == 0 && start < 0x1_0000_0000
    && (forall j :: 0 <= j < 1030 ==> PoolPage(start, j) in ram)
    && EmptyTable(ram, start)
  }

  ghost predicate EmptyTable(ram: Ram, p: u64) {
    p in ram && forall i :: 0 <= i < 512 ==> !PteValid(ram[p][i])
  }

  lemma PoolIsPlain(start: u64, i: nat)
    requires start % 4096 == 0 && start < 0x1_0000_0000 && i < ALLOC_LIST_SIZE
    ensures PoolPage(start, i) == start + i * 4096 && PoolPage(start, i) % 4096 == 0
    ensures PoolPage(start, i) < 0x100_0000_0000_0000
  {
  }

  /** An empty root table makes a well-formed tree on which every address is a page fault. */
  lemma EmptyRoot(ram: Ram, root: u64)
    requires EmptyTable(ram, root) && root % 4096 == 0 && root < 0x100_0000_0000_0000
    ensures Wf(ram, Tree(root, map[root := 2], map[]))
    ensures forall w: u64 :: Lookup(ram, root, w, 2) == Missing(2) && Translate(ram, root, w) == PageFault
    ensures Budget(ram, root, 1, KERNEL_BASE - 1)
  {
  }

  lemma FreshPool(start: u64, root: u64)
    requires start % 4096 == 0 && start < 0x1_0000_0000 && root == PoolPage(start, 0)
    ensures Disjoint(Pool(start)[1..], Tree(root, map[root := 2], map[]))
    ensures Elements(Pool(start)[..1]) == {root}
  {
    var free := Pool(start)[1..];
    forall i, j | 0 <= i < j < |free| ensures free[i] != free[j] {
      PoolPagesDistinct(start, i + 1, j + 1);
    }
    forall p | p in free ensures p % 4096 == 0 && p < 0x100_0000_0000_0000 && p != root {
      var i :| 0 <= i < |free| && free[i] == p;
      PoolPagesDistinct(start, 0, i + 1);
      PoolIsPlain(start, i + 1);
    }
  }

  /** Line 77: the root table is the first page of the allocator, taken as it is. */
  method InitRoot(k: Kernel, ghost start: u64)
    requires k.alloc.Valid() && BootReady(k.ram, k.alloc.State(), start)
    modifies k`kernelRootPtb, k`tree, k.alloc, k.alloc.list
    ensures Booting(k, start) && k.tree.root == start && k.alloc.next == 1
    ensures Budget(k.ram, start, k.alloc.next, KERNEL_BASE - 1)
    ensures forall w: u64 :: Lookup(k.ram, start, w, 2) == Missing(2) && Translate(k.ram, start, w) == PageFault
  {
    hide Wf, Disjoint, Lookup, Translate, Budget, PoolPage;
    PoolIsPlain(start, 0);
    var page := k.alloc.GetPage();
    assert page == Done(start);
    k.kernelRootPtb := page.value;
    k.tree := Tree(page.value, map[page.value := 2], map[]);
    EmptyRoot(k.ram, page.value);
    FreshPool(start, page.value);
    assert k.alloc.list[1..] == Pool(start)[1..];
  }

  /** Views and translations of a root that started empty, once the four sections are mapped. */
  lemma SectionsTogether(r0: Ram, r1: Ram, r2: Ram, r3: Ram, r4: Ram, root: u64, m: MemoryMap)
    requires LinkerLayout(m)
    requires forall w: u64 :: Lookup(r0, root, w, 2) == Missing(2) && Translate(r0, root, w) == PageFault
    requires SectionDone(r0, r1, root, m.textStart, m.textEnd, 10)
    requires SectionDone(r1, r2, root, m.bssStart, m.bssEnd, 6)
    requires SectionDone(r2, r3, root, m.rodataStart, m.rodataEnd, 2)
    requires SectionDone(r3, r4, root, m.dataStart, m.dataEnd, 6)
    ensures forall w: u64 :: Canonical(w) && w < KERNEL_BASE ==> Lookup(r4, root, w, 2) == Missing(2)
    ensures forall w: u64 :: Translate(r4, root, w) == SectionsMapped(m, w)
  {
    hide Lookup, Translate, SectionMapped;
  }

  lemma NextSectionFree(r0: Ram, r1: Ram, root: u64, start: u64, end: u64, flags: Flags, next: u64)
    requires SectionDone(r0, r1, root, start, end, flags) && end <= next && start <= next
    requires forall w: u64 :: w >= KERNEL_BASE && PageOf(w) >= start ==> Lookup(r0, root, w, 2).Missing?
    ensures forall w: u64 :: w >= KERNEL_BASE && PageOf(w) >= next ==> Lookup(r1, root, w, 2).Missing?
  {
    hide Lookup, Translate, PageOf;
  }

  /** Lines 85-108: .text, .bss, .rodata and .data. */
  method MapSections(k: Kernel, m: MemoryMap, ghost start: u64)
    requires LinkerLayout(m) && Booting(k, start)
    requires Budget(k.ram, k.tree.root, k.alloc.next, KERNEL_BASE - 1)
    requires forall w: u64 :: Lookup(k.ram, k.tree.root, w, 2) == Missing(2)
    requires forall w: u64 :: Translate(k.ram, k.tree.root, w) == PageFault
    modifies k`ram, k`tree, k.alloc, k.alloc.list
    ensures Booting(k, start) && k.tree.root == old(k.tree.root) && k.alloc.next <= 1027
    ensures forall w: u64 :: Canonical(w) && w < KERNEL_BASE ==> Lookup(k.ram, k.tree.root, w, 2) == Missing(2)
    ensures forall w: u64 :: Translate(k.ram, k.tree.root, w) == SectionsMapped(m, w)
    ensures LeavesOnly(k.ram, k.tree.root)
  {
    hide LeafFlags, Booting, Budget, SectionDone, Lookup, Translate, SectionMapped, SectionsMapped, PageOf;
    FlagsMeaning();
    ghost var root, r0 := k.tree.root, k.ram;
    ghost var last := MapSection(k, m.textStart, m.textEnd, 10, KERNEL_BASE - 1, start);
    ghost var r1 := k.ram;
    NextSectionFree(r0, r1, root, m.textStart, m.textEnd, 10, m.bssStart);
    last := MapSection(k, m.bssStart, m.bssEnd, 6, last, start);
    ghost var r2 := k.ram;
    NextSectionFree(r1, r2, root, m.bssStart, m.bssEnd, 6, m.rodataStart);
    last := MapSection(k, m.rodataStart, m.rodataEnd, 2, last, start);
    ghost var r3 := k.ram;
    NextSectionFree(r2, r3, root, m.rodataStart, m.rodataEnd, 2, m.dataStart);
    last := MapSection(k, m.dataStart, m.dataEnd, 6, last, start);
    SectionsTogether(r0, r1, r2, r3, k.ram, root, m);
    BudgetBound(k.ram, root, k.alloc.next, last);
  }

  /** The serial page shares the root entry of page 0 but no level-1 entry, and nothing with the direct map. */
  lemma SerialApart(w: u64)
    ensures Canonical(SERIAL_PAGE) && Common(SERIAL_PAGE, 0) == 1 && !SameVpns(SERIAL_PAGE, 0)
    ensures !DirectMapEntry(0, 32)
    ensures InDirectMap(w) ==> Common(SERIAL_PAGE, w) == 2 && !SameVpns(SERIAL_PAGE, w)
  {
    if InDirectMap(w) {
      DirectMapIndex(w);
    }
  }

  lemma AfterSerial(ram0: Ram, ram: Ram, root: u64, e: u64)
    requires forall w: u64 :: Canonical(w) && w < KERNEL_BASE ==> Lookup(ram0, root, w, 2) == Missing(2)
    requires forall w: u64 :: Lookup(ram, root, w, 2) == MappedView(Lookup(ram0, root, w, 2), SERIAL_PAGE, e, w)
    ensures Lookup(ram, root, 0, 2) == Missing(1)
    ensures forall w: u64 :: InDirectMap(w) ==> Lookup(ram, root, w, 2) == Missing(2)
  {
    hide Lookup, Common, SameVpns;
    SerialApart(0);
    forall w: u64 | InDirectMap(w) ensures Lookup(ram, root, w, 2) == Missing(2) {
      SerialApart(w);
    }
  }

  lemma BootTogether(r4: Ram, r5: Ram, r6: Ram, r7: Ram, root: u64, m: MemoryMap)
    requires LinkerLayout(m)
    requires forall w: u64 :: Translate(r4, root, w) == SectionsMapped(m, w)
    requires forall w: u64 :: Translate(r5, root, w) == Remapped(Translate(r4, root, w), SERIAL_PAGE, SERIAL_PAGE, 6, w)
    requires forall w: u64 :: Translate(r6, root, w) == DirectMapped(Translate(r5, root, w), w)
    requires forall w: u64 :: Translate(r7, root, w) == Remapped(Translate(r6, root, w), 0, 0, 0, w)
    ensures forall w: u64 :: Translate(r7, root, w) == BootTranslation(m, w)
  {
    hide Translate, SectionsMapped, Remapped, DirectMapped, BootTranslation;
    forall w: u64 ensures Translate(r7, root, w) == BootTranslation(m, w) {
      BootMeaning(m, w);
    }
  }

  lemma DirectMapKeepsPool(ram0: Ram, ram: Ram, t: Tree, list: seq<u64>, next: nat, start: u64)
    requires BootPool(ram0, t, list, next, start) && ram.Keys == ram0.Keys
    ensures BootPool(ram, t, list, next, start)
  {
  }

  /** Every mapped address is mapped by a leaf, but for page 0, which has the entry for (0, no flags). */
  ghost predicate OneGuardView(ram: Ram, root: u64) {
    forall w: u64 :: if SameVpns(0, w) then Lookup(ram, root, w, 2) == Found(0, MakeLeafPte(0, 0))
                     else IsLeafView(Lookup(ram, root, w, 2))
  }

  lemma GuardAtLast(r4: Ram, r5: Ram, r6: Ram, r7: Ram, root: u64)
    requires LeavesOnly(r4, root)
    requires forall w: u64 :: Lookup(r5, root, w, 2)
                == MappedView(Lookup(r4, root, w, 2), SERIAL_PAGE, MakeLeafPte(SERIAL_PAGE, 6), w)
    requires forall w: u64 :: Lookup(r6, root, w, 2) == DirectView(Lookup(r5, root, w, 2), 32, w)
    requires forall w: u64 :: Lookup(r7, root, w, 2) == MappedView(Lookup(r6, root, w, 2), 0, MakeLeafPte(0, 0), w)
    ensures OneGuardView(r7, root)
  {
    hide Lookup, MakeLeafPte, SameVpns, Common, PteLeaf, LeafFlags, DirectMapEntry;
    FlagsMeaning();
    LeavesStep(r4, r5, root, SERIAL_PAGE, SERIAL_PAGE, 6);
    forall w: u64 ensures IsLeafView(DirectView(Lookup(r5, root, w, 2), 32, w)) {
      assert IsLeafView(Lookup(r5, root, w, 2));
      if DirectMapEntry(w, 32) {
        GigapageLeaf(w);
      }
    }
  }

  lemma GigapageLeaf(w: u64)
    requires DirectMapEntry(w, 32)
    ensures PteLeaf(MakeLeafPte((Vpn(w, 2) - 256) * SIZE_1G, 14))
  {
    hide MakeLeafPte, Vpn, PteLeaf;
    var i := Vpn(w, 2) - 256;
    LeafPteFields(i * 0x4000_0000, 14);
    assert BitR(14);
  }

  /** Lines 110-121: the serial page, the direct map, and the page at 0 that always faults. */
  method MapDevices(k: Kernel, m: MemoryMap, ghost start: u64)
    requires LinkerLayout(m) && Booting(k, start) && k.alloc.next <= 1027
    requires forall w: u64 :: Canonical(w) && w < KERNEL_BASE ==> Lookup(k.ram, k.tree.root, w, 2) == Missing(2)
    requires forall w: u64 :: Translate(k.ram, k.tree.root, w) == SectionsMapped(m, w)
    requires LeavesOnly(k.ram, k.tree.root)
    modifies k`ram, k`tree, k.alloc, k.alloc.list
    ensures Booting(k, start) && k.tree.root == old(k.tree.root) && k.alloc.next <= 1030
    ensures OneGuardView(k.ram, k.tree.root)
    ensures forall w: u64 :: Translate(k.ram, k.tree.root, w) == BootTranslation(m, w)
  {
    hide Lookup, Translate, SectionsMapped, MappedView, Remapped, BootTranslation, DirectMapped, DirectView,
         MakeLeafPte, LeavesOnly, OneGuardView, BootPool, IsAligned, Wf, Disjoint;
    ghost var root, r4 := k.tree.root, k.ram;
    SerialApart(0);
    MapFreePage(k, SERIAL_PAGE, SERIAL_PAGE, 6, start);
    ghost var r5 := k.ram;
    AfterSerial(r4, r5, root, MakeLeafPte(SERIAL_PAGE, 6));
    VmInitKernelDirectMap(k);
    ghost var r6 := k.ram;
    DirectMapKeepsPool(r5, r6, k.tree, k.alloc.list[..], k.alloc.next, start);
    ZeroPageView(r5, r6, root);
    MapFreePage(k, 0, 0, 0, start);
    BootTogether(r4, r5, r6, k.ram, root, m);
    GuardAtLast(r4, r5, r6, k.ram, root);
  }

  lemma ZeroPageView(ram0: Ram, ram: Ram, root: u64)
    requires forall w: u64 :: Lookup(ram, root, w, 2) == DirectView(Lookup(ram0, root, w, 2), 32, w)
    requires Lookup(ram0, root, 0, 2) == Missing(1)
    ensures Lookup(ram, root, 0, 2) == Missing(1)
  {
    hide Lookup;
    SerialApart(0);
  }

  /** vm_init_kernel(): the exact boot address space, from at most 1030 pages. */
  method VmInitKernel(k: Kernel, m: MemoryMap, ghost start: u64)
    requires LinkerLayout(m) && k.alloc.Valid() && BootReady(k.ram, k.alloc.State(), start)
    modifies k, k.alloc, k.alloc.list
    ensures Booting(k, start) && k.tree.root == start && k.alloc.next <= 1030
    ensures forall va: u64 :: k.Translation(va) == BootTranslation(m, va)
    ensures OneGuardView(k.ram, k.tree.root)
  {
    hide LeavesOnly, OneGuardView, Booting, Budget, Lookup, Translate, SectionsMapped, BootTranslation, BootReady;
    InitRoot(k, start);
    MapSections(k, m, start);
    MapDevices(k, m, start);
  }

  // ---- mm_init and vm_init ----

  /** The free pages after mm_init() are direct-map addresses of physical pages behind all tables. */
  ghost predicate HandedOver(ram: Ram, t: Tree, alloc: AllocState, freemem: u64) {
    && |alloc.list| == ALLOC_LIST_SIZE && alloc.initialized && alloc.next == 0 && freemem < 0x2_0000_0000
    && forall i :: 0 <= i < ALLOC_LIST_SIZE ==>
         && Translate(ram, t.root, alloc.list[i]) == Physical(freemem + i * 4096, RWX)
         && freemem + i * 4096 !in t.level
  }

  /** No page at or behind the first free one is a table. */
  lemma TablesLieBefore(start: u64, t: Tree, next: nat, p: u64)
    requires start % 4096 == 0 && start < 0x1_0000_0000 && next < ALLOC_LIST_SIZE
    requires t.level.Keys == Elements(Pool(start)[..next]) && p >= start + next * 4096
    ensures p !in t.level
  {
    if p in t.level {
      assert p in Elements(Pool(start)[..next]);
      var i :| 0 <= i < next && Pool(start)[..next][i] == p;
      PoolIsPlain(start, i);
    }
  }

  lemma DirectMapPage(m: MemoryMap, pa: u64)
    requires LinkerLayout(m) && pa < KERNEL_DIRECT_MAP_SIZE
    ensures PaToVa(pa) == pa + 0xffff_ffc0_0000_0000 && VaToPa(PaToVa(pa)) == pa
    ensures BootTranslation(m, PaToVa(pa)) == Physical(pa, RWX)
  {
  }

  lemma DirectPool(pa: u64, i: nat)
    requires pa < 0x2_0000_0000 && pa % 4096 == 0 && i < ALLOC_LIST_SIZE
    ensures PoolPage(PaToVa(pa), i) == PaToVa(pa + i * 4096) && IsAligned(PaToVa(pa))
  {
  }

  lemma HandOver(m: MemoryMap, ram: Ram, t: Tree, start: u64, next: nat)
    requires LinkerLayout(m) && start % 4096 == 0 && start < 0x1_0000_0000 && next <= 1030
    requires t.level.Keys == Elements(Pool(start)[..next])
    requires forall va: u64 :: Translate(ram, t.root, va) == BootTranslation(m, va)
    ensures IsAligned(PaToVa(start + next * 4096))
    ensures HandedOver(ram, t, AllocState(Pool(PaToVa(start + next * 4096)), 0, true), start + next * 4096)
  {
    hide BootTranslation, Elements, Translate, PoolPage, PaToVa, VaToPa, IsAligned;
    var freemem := start + next * 4096;
    DirectPool(freemem, 0);
    DirectMapPage(m, freemem);
    forall i | 0 <= i < ALLOC_LIST_SIZE
      ensures Translate(ram, t.root, Pool(PaToVa(freemem))[i]) == Physical(freemem + i * 4096, RWX)
      ensures freemem + i * 4096 !in t.level
    {
      DirectMapPage(m, freemem + i * 4096);
      DirectPool(freemem, i);
      TablesLieBefore(start, t, next, freemem + i * 4096);
    }
  }

  /** mm_init(): boot mapping on physical addresses, then a new allocator on direct-map addresses. */
  method MmInit(k: Kernel, m: MemoryMap) returns (ghost freemem: u64)
    requires LinkerLayout(m) && k.alloc.Valid()
    requires ghost var start := m.kernelEnd - 0xffff_ffff_0000_0000;
             && (forall j :: 0 <= j < 1030 ==> PoolPage(start, j) in k.ram)
             && EmptyTable(k.ram, start)
    modifies k, k.alloc, k.alloc.list
    ensures Wf(k.ram, k.tree)
    ensures forall va: u64 :: k.Translation(va) == BootTranslation(m, va)
    // the root pointer is relocated, and still denotes the root of the tree
    ensures VaToPa(k.kernelRootPtb) == k.tree.root && k.Translation(k.kernelRootPtb) == Physical(k.tree.root, RWX)
    ensures m.kernelEnd - 0xffff_ffff_0000_0000 == k.tree.root < freemem
    ensures HandedOver(k.ram, k.tree, k.alloc.State(), freemem)
  {
    hide Booting, Translate, BootTranslation, BootReady, IsAligned, PaToVa, VaToPa, Wf, Pool,
         PoolPage, HandedOver, Elements;
    var start := m.kernelEnd - KERNEL_PHYS_OFFSET;
    var done := k.alloc.Init(start);
    StartsReady(k.ram, start);
    VmInitKernel(k, m, start);
    ghost var next := k.alloc.next;
    BootingTables(k, start);
    k.kernelRootPtb := PaToVa(k.kernelRootPtb);
    DirectMapPage(m, start);
    var page := k.alloc.GetPage();
    freemem := start + next * 4096;
    PoolIsPlain(start, next);
    HandOver(m, k.ram, k.tree, start, next);
    done := k.alloc.Init(PaToVa(page.value));
  }

  lemma StartsReady(ram: Ram, start: u64)
    requires start % 4096 == 0 && start < 0x1_0000_0000
    requires forall j :: 0 <= j < 1030 ==> PoolPage(start, j) in ram
    requires EmptyTable(ram, start)
    ensures BootReady(ram, AllocState(Pool(start), 0, true), start)
  {
  }

  lemma BootingTables(k: Kernel, start: u64)
    requires Booting(k, start)
    ensures Wf(k.ram, k.tree) && k.kernelRootPtb == k.tree.root && k.alloc.Valid() && k.alloc.initialized
    ensures k.tree.level.Keys == Elements(Pool(start)[..k.alloc.next])
    ensures k.alloc.list[k.alloc.next] == PoolPage(start, k.alloc.next)
    ensures k.alloc.next >= 1
  {
  }

  /** vm_init(): the value written to satp selects Sv39 and the root page. */
  method VmInit(k: Kernel, m: MemoryMap) returns (satp: u64, ghost freemem: u64)
    requires LinkerLayout(m) && k.alloc.Valid()
    requires ghost var start := m.kernelEnd - 0xffff_ffff_0000_0000;
             && (forall j :: 0 <= j < 1030 ==> PoolPage(start, j) in k.ram)
             && EmptyTable(k.ram, start)
    modifies k, k.alloc, k.alloc.list
    ensures satp / 0x1000_0000_0000_0000 == 8 && satp % 0x1000_0000_0000 * 4096 == k.tree.root
    ensures k.tree.root == m.kernelEnd - 0xffff_ffff_0000_0000
    ensures forall va: u64 :: k.Translation(va) == BootTranslation(m, va)
    ensures HandedOver(k.ram, k.tree, k.alloc.State(), freemem)
  {
    hide Translate, BootTranslation, HandedOver, Wf, Or, Shl;
    freemem := MmInit(k, m);
    var ptb := VaToPa(k.kernelRootPtb);
    SatpFields(k.ram, k.tree);
    satp := Or(Shl(8, 60), PhysToPpn(ptb));
  }

  lemma SatpFields(ram: Ram, t: Tree)
    requires Wf(ram, t)
    ensures var satp := Or(Shl(8, 60), PhysToPpn(t.root));
            satp < WORD && satp / 0x1000_0000_0000_0000 == 8 && satp % 0x1000_0000_0000 * 4096 == t.root
  {
    assert t.root < 0x100_0000_0000_0000 && t.root % 4096 == 0;
    SatpBits(t.root);
  }

  lemma SatpBits(root: u64)
    requires root < 0x100_0000_0000_0000 && root % 4096 == 0
    ensures var satp := Or(Shl(8, 60), PhysToPpn(root));
            satp < WORD && satp / 0x1000_0000_0000_0000 == 8 && satp % 0x1000_0000_0000 * 4096 == root
  {
    hide Or, ShiftUp, Pow2, PhysToPpn;
    var ppn := root / 4096;
    Pow2Of60();
    ShiftUpIsTimes(8, 60);
    OrDisjoint(8, ppn, 60);
    DivModUnique(0x8000_0000_0000_0000 + ppn, 0x1000_0000_0000_0000, 8, ppn);
    DivModUnique(0x8000_0000_0000_0000 + ppn, 0x1000_0000_0000, 0x8_0000, ppn);
  }

  lemma Pow2Of60()
    ensures Pow2(60) == 0x1000_0000_0000_0000
  {
    assert Pow2(9) == 0x200 && Pow2(18) == 0x4_0000 && Pow2(27) == 0x800_0000;
    assert Pow2(36) == 0x10_0000_0000 && Pow2(45) == 0x2000_0000_0000 && Pow2(54) == 0x40_0000_0000_0000;
  }
}

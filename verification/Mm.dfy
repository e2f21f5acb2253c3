/** src/mm.c: building page tables in physical memory.

Addresses of tables are physical: the model covers the boot phase in which
physical memory is identity mapped.
*/
module Mm {
  import opened Bits64
  import opened Sv39
  import Sv39Laws
  import opened Pgtable
  import opened Alloc
  import opened PageTree
  import opened Wrappers

  /** Outcome of vm_map_page(): 0, the refusals that return -1, BUG() in the allocator, or an access to a
      page that does not exist.  Refused and NoMemory stop the hart under BUG_PANIC. */
  datatype MapResult = Mapped | Refused | NoMemory | Faulted

  /** What a run of vm_map_page() returns and leaves behind. */
  datatype MapRun = MapRun(result: MapResult, ram: Ram, alloc: AllocState)

  /** The do-while loop, lines 174-218, from the table at ptb on: on any memory, page tables or not. */
  function Descend(ram: Ram, alloc: AllocState, ptb: u64, va: u64, pa: u64, flags: Flags, level: nat): MapRun
    requires WellSized(alloc) && level <= 2
    decreases level
  {
    if ptb !in ram then MapRun(Faulted, ram, alloc)
    else
      var i, pte := Vpn(va, level), ram[ptb][Vpn(va, level)];
      if level == 0 then
        if PteValid(pte) then MapRun(Refused, ram, alloc)
        else MapRun(Mapped, Store(ram, ptb, i, MakeLeafPte(pa, flags)), alloc)
      else if PteValid(pte) then Descend(ram, alloc, PteNextPtb(pte), va, pa, flags, level - 1)
      else if !CanGet(alloc) then MapRun(NoMemory, ram, alloc)
      else if alloc.list[alloc.next] !in ram then MapRun(Faulted, ram, AfterGet(alloc))
      else
        var page := alloc.list[alloc.next];
        Descend(Attach(ram, ptb, i, page), AfterGet(alloc), PteNextPtb(MakeTablePte(page)), va, pa, flags, level - 1)
  }

  /** vm_map_page() on any memory. */
  function VmMap(ram: Ram, alloc: AllocState, root: u64, va: u64, pa: u64, flags: Flags): MapRun
    requires WellSized(alloc)
  {
    if !IsAligned(va) || !IsAligned(pa) || !Canonical(va) then MapRun(Refused, ram, alloc)
    else Descend(ram, alloc, root, va, pa, flags, 2)
  }

  /** The free pages are usable as tables: distinct page addresses that no table occupies. */
  ghost predicate Disjoint(free: seq<u64>, t: Tree) {
    && NoDuplicates(free)
    && forall p :: p in free ==> p % 4096 == 0 && p < 0x100_0000_0000_0000 && p !in t.level
  }

  /** Taking the first free page for a new table leaves the others free. */
  lemma TakeFreePage(free: seq<u64>, t: Tree, p: u64, i: nat, level: nat)
    requires Disjoint(free, t) && free != []
    ensures free[0] % 4096 == 0 && free[0] < 0x100_0000_0000_0000 && free[0] !in t.level
    ensures Disjoint(free[1..], AttachTree(t, p, i, free[0], level))
  {
    assert free[0] in free;
    forall p | p in free[1..] ensures p in free && p != free[0] {
      var k :| 0 <= k < |free| - 1 && free[1..][k] == p;
      assert free[k + 1] == p;
    }
    assert NoDuplicates(free[1..]);
  }

  /** Tables allocated for an address with view v once its path reaches level d. */
  function Taken(v: View, d: nat): nat {
    if v.Missing? && v.level > d then v.level - d else 0
  }

  /** Tables a map of an address with view v has to allocate. */
  function Needed(v: View): nat {
    if v.Missing? then v.level else 0
  }

  /** View of every address once the path of va reaches level d. */
  function Deepened(ram: Ram, t: Tree, va: u64, d: nat, w: u64): View {
    Deepen(Lookup(ram, t.root, w, 2), Max(Common(va, w), d))
  }

  /** The tables of t are those of t0 and the pages list[from..to] the allocator handed out since. */
  ghost predicate NewTables(t0: Tree, t: Tree, list: seq<u64>, from: nat, to: nat) {
    from <= to <= |list| && t.level.Keys == t0.level.Keys + Elements(list[from..to])
  }

  lemma NoNewTables(t: Tree, list: seq<u64>, next: nat)
    requires next <= |list|
    ensures NewTables(t, t, list, next, next)
  {
  }

  lemma MoreTables(t0: Tree, t1: Tree, t: Tree, list: seq<u64>, from: nat, to: nat, to2: nat)
    requires NewTables(t0, t1, list, from, to) && to < |list|
    requires || (to2 == to && t.level.Keys == t1.level.Keys)
             || (to2 == to + 1 && t.level.Keys == t1.level.Keys + {list[to]})
    ensures NewTables(t0, t, list, from, to2)
  {
    if to2 == to + 1 {
      assert list[from..to + 1] == list[from..to] + [list[to]];
    }
  }

  /** Memory outside the tables of t is the same in both. */
  ghost predicate DataKept(ram0: Ram, ram: Ram, t: Tree) {
    forall p :: p in ram0 && p !in t.level ==> p in ram && ram[p] == ram0[p]
  }

  /** Progress of a map of va: the path reaches table ptb on level d, and no view but the depth of
      invalid entries has changed since (ram0, t0). */
  ghost predicate Descended(ram0: Ram, t0: Tree, ram: Ram, t: Tree, va: u64, d: nat, ptb: u64) {
    && t.root == t0.root && d <= 2
    && PathTo(ram, t.root, va, d) == Some(ptb)
    && (forall w: u64 :: Lookup(ram, t.root, w, 2) == Deepened(ram0, t0, va, d, w))
    && (Taken(Lookup(ram0, t0.root, va, 2), d) == 0 ==> ram == ram0 && t == t0)
    && DataKept(ram0, ram, t)
  }

  lemma DescentStarts(ram: Ram, t: Tree, va: u64)
    requires Wf(ram, t)
    ensures Descended(ram, t, ram, t, va, 2, t.root)
    ensures Lookup(ram, t.root, va, 2).level <= 2 && DataKept(ram, ram, t)
  {
    forall w: u64 ensures Lookup(ram, t.root, w, 2) == Deepened(ram, t, va, 2, w) {
      PathAlreadyDeep(ram, t.root, va, 2, w);
    }
    LookupLevel(ram, t.root, va, 2);
  }

  /** The entry read next decides between an existing table and one to allocate. */
  lemma DescentEntry(ram0: Ram, t0: Tree, ram: Ram, t: Tree, va: u64, d: nat, ptb: u64)
    requires Wf(ram0, t0) && Wf(ram, t) && Descended(ram0, t0, ram, t, va, d, ptb)
    ensures d <= 2 && t.root == t0.root && PathTo(ram, t.root, va, d) == Some(ptb)
    ensures ptb in ram && ptb in t.level && t.level[ptb] == d && DataKept(ram0, ram, t)
    ensures var v0, e := Lookup(ram0, t0.root, va, 2), ram[ptb][Vpn(va, d)];
            && (!PteValid(e) ==> v0.Missing? && v0.level >= d)
            && (d == 0 && PteValid(e) ==> v0 == Found(0, e) && ram == ram0 && t == t0)
            && (PteValid(e) && v0.Missing? ==> v0.level < d)
            && (d > 0 && PteValid(e) && PteLeaf(e) ==> v0 == Found(2, e))
  {
    PathInTree(ram, t, va, d);
    LookupFollowsPath(ram, t.root, va, d);
    LookupLevel(ram0, t0.root, va, 2);
    var e := ram[ptb][Vpn(va, d)];
    if d > 0 && PteValid(e) {
      assert EntryOk(t, ptb, Vpn(va, d), e);
      if !PteLeaf(e) {
        LookupLevel(ram, PteNextPtb(e), va, d - 1);
      }
    }
  }

  /** An interrupted descent has only attached empty tables. */
  lemma DescentViews(ram0: Ram, t0: Tree, ram: Ram, t: Tree, va: u64, d: nat, ptb: u64)
    requires Descended(ram0, t0, ram, t, va, d, ptb)
    ensures DataKept(ram0, ram, t)
    ensures forall w: u64 :: Lookup(ram, t.root, w, 2) == Deepened(ram0, t0, va, d, w)
  {
  }

  /** Following a pointer entry. */
  lemma DescendExisting(ram0: Ram, t0: Tree, ram: Ram, t: Tree, va: u64, d: nat, ptb: u64)
    requires Wf(ram0, t0) && Wf(ram, t) && Descended(ram0, t0, ram, t, va, d, ptb) && d > 0
    requires ptb in ram && PteValid(ram[ptb][Vpn(va, d)]) && !PteLeaf(ram[ptb][Vpn(va, d)])
    ensures Descended(ram0, t0, ram, t, va, d - 1, PteNextPtb(ram[ptb][Vpn(va, d)]))
    ensures Taken(Lookup(ram0, t0.root, va, 2), d - 1) == Taken(Lookup(ram0, t0.root, va, 2), d)
  {
    hide Wf, DataKept, PteValid, PteLeaf, PteNextPtb, Vpn, Lookup;
    DescentEntry(ram0, t0, ram, t, va, d, ptb);
    forall w: u64 ensures Lookup(ram, t.root, w, 2) == Deepened(ram0, t0, va, d - 1, w) {
      PathAlreadyDeep(ram, t.root, va, d - 1, w);
    }
  }

  /** Attaching a table below an invalid entry. */
  lemma DescendAttached(ram0: Ram, t0: Tree, ram: Ram, t: Tree, va: u64, d: nat, ptb: u64, page: u64)
    requires Wf(ram0, t0) && Descended(ram0, t0, ram, t, va, d, ptb) && CanAttach(ram, t, va, d, ptb, page)
    ensures Descended(ram0, t0, Attach(ram, ptb, Vpn(va, d), page),
                      AttachTree(t, ptb, Vpn(va, d), page, d - 1), va, d - 1, page)
    ensures Taken(Lookup(ram0, t0.root, va, 2), d - 1) == Taken(Lookup(ram0, t0.root, va, 2), d) + 1
  {
    hide Wf, Attach;
    DescentEntry(ram0, t0, ram, t, va, d, ptb);
    AttachExtendsPath(ram, t, va, d, ptb, page);
    AttachKeepsData(ram0, ram, t, ptb, Vpn(va, d), page, d - 1);
    forall w: u64
      ensures Lookup(Attach(ram, ptb, Vpn(va, d), page), t.root, w, 2) == Deepened(ram0, t0, va, d - 1, w)
    {
      AttachDeepens(ram, t, va, d, ptb, page, w);
      DeepenTwice(Lookup(ram0, t0.root, w, 2), Common(va, w), d);
    }
  }

  lemma AttachKeepsData(ram0: Ram, ram: Ram, t: Tree, p: u64, i: nat, page: u64, level: nat)
    requires DataKept(ram0, ram, t) && p in ram && p in t.level && i < 512
    ensures DataKept(ram0, Attach(ram, p, i, page), AttachTree(t, p, i, page, level))
  {
  }

  lemma DeepenTwice(v: View, c: nat, d: nat)
    requires d > 0
    ensures Deepen(Deepen(v, Max(c, d)), Max(c, d - 1)) == Deepen(v, Max(c, d - 1))
  {
  }

  /** At level 0 the leaf entry completes the mapping. */
  lemma DescentEnds(ram0: Ram, t0: Tree, ram: Ram, t: Tree, va: u64, ptb: u64, e: u64)
    requires Wf(ram0, t0) && Wf(ram, t) && Descended(ram0, t0, ram, t, va, 0, ptb) && PteValid(e)
    ensures ptb in t.level && Wf(Store(ram, ptb, Vpn(va, 0), e), t)
    ensures DataKept(ram0, Store(ram, ptb, Vpn(va, 0), e), t)
    ensures forall w: u64 :: Lookup(Store(ram, ptb, Vpn(va, 0), e), t.root, w, 2)
                          == (if SameVpns(va, w) then Found(0, e)
                              else Deepen(Lookup(ram0, t0.root, w, 2), Common(va, w)))
  {
    hide EntriesOk, Attached, PteLeaf, PteNextPtb, Lookup;
    LeafStore(ram, t, va, ptb, e);
  }

  /** Translations after a successful map of va's page, given those before. */
  function Remapped(before: Translation, va: u64, pa: u64, flags: Flags, w: u64): Translation {
    if SamePage(va, w) then MappedAs(pa, flags, w) else before
  }

  /** Deeper invalid entries are page faults like any others. */
  lemma DeepenTranslates(ram0: Ram, t0: Tree, ram: Ram, t: Tree, va: u64, d: nat)
    requires Wf(ram0, t0) && Wf(ram, t)
    requires forall w: u64 :: Lookup(ram, t.root, w, 2) == Deepen(Lookup(ram0, t0.root, w, 2), Max(Common(va, w), d))
    ensures forall w: u64 :: Translate(ram, t.root, w) == Translate(ram0, t0.root, w)
  {
    forall w: u64 ensures Translate(ram, t.root, w) == Translate(ram0, t0.root, w) {
      TranslateIsMeaning(ram0, t0, w);
      TranslateIsMeaning(ram, t, w);
    }
  }

  /** The views after a successful map, as Sv39 sees them. */
  lemma MapTranslates(ram0: Ram, t0: Tree, ram: Ram, t: Tree, va: u64, pa: u64, flags: Flags)
    requires Wf(ram0, t0) && Wf(ram, t) && Canonical(va)
    requires forall w: u64 :: Lookup(ram, t.root, w, 2) == (if SameVpns(va, w) then Found(0, MakeLeafPte(pa, flags))
                                                            else Deepen(Lookup(ram0, t0.root, w, 2), Common(va, w)))
    ensures forall w: u64 :: Translate(ram, t.root, w) == Remapped(Translate(ram0, t0.root, w), va, pa, flags, w)
  {
    forall w: u64 ensures Translate(ram, t.root, w) == Remapped(Translate(ram0, t0.root, w), va, pa, flags, w) {
      MapTranslatesOne(ram0, t0, ram, t, va, pa, flags, w);
    }
  }

  lemma MapTranslatesOne(ram0: Ram, t0: Tree, ram: Ram, t: Tree, va: u64, pa: u64, flags: Flags, w: u64)
    requires Wf(ram0, t0) && Wf(ram, t) && Canonical(va)
    requires Lookup(ram, t.root, w, 2) == (if SameVpns(va, w) then Found(0, MakeLeafPte(pa, flags))
                                           else Deepen(Lookup(ram0, t0.root, w, 2), Common(va, w)))
    ensures Translate(ram, t.root, w) == Remapped(Translate(ram0, t0.root, w), va, pa, flags, w)
  {
    hide Wf, Lookup, Walk, MakeLeafPte, Canonical, Vpn;
    TranslateIsMeaning(ram0, t0, w);
    TranslateIsMeaning(ram, t, w);
    if SamePage(va, w) {
      SamePageCanonical(va, w);
    }
    if Canonical(w) {
      VpnsDeterminePage(va, w);
      LeafMeaning(pa, flags, w);
    }
  }

  lemma SamePageCanonical(v: u64, w: u64)
    requires SamePage(v, w)
    ensures Canonical(v) <==> Canonical(w)
  {
  }

  lemma LeafMeaning(pa: u64, flags: Flags, w: u64)
    ensures Meaning(Found(0, MakeLeafPte(pa, flags)), w) == MappedAs(pa, flags, w)
  {
    hide MakeLeafPte, MappedAs, LeafTranslation, ReservedHigh, AccessOf;
    LeafPteFields(pa, flags);
    LeafPteMeaning(pa, flags, w);
  }

  // ---- A map on a well-formed tree ----

  /** A state between two calls: the tree is well-formed and the free pages lie outside it. */
  ghost predicate Sound(ram: Ram, t: Tree, alloc: AllocState) {
    WellSized(alloc) && alloc.initialized && Wf(ram, t) && Disjoint(alloc.list[alloc.next..], t)
  }

  /** The next n pages the allocator will hand out exist. */
  ghost predicate Exist(ram: Ram, alloc: AllocState, n: nat)
    requires WellSized(alloc)
  {
    forall j :: alloc.next <= j < alloc.next + n && j < ALLOC_LIST_SIZE ==> alloc.list[j] in ram
  }

  /** Bookkeeping of a run that started in (t0, alloc0): tables come from the front of the free list. */
  ghost predicate Accounted(t0: Tree, alloc0: AllocState, t: Tree, alloc: AllocState) {
    && |alloc0.list| == |alloc.list| == ALLOC_LIST_SIZE && alloc0.next <= alloc.next
    && NewTables(t0, t, alloc0.list, alloc0.next, alloc.next)
    && (forall j :: alloc.next <= j < ALLOC_LIST_SIZE ==> alloc.list[j] == alloc0.list[j])
    && (alloc.next == alloc0.next ==> alloc == alloc0)
  }

  /** Which outcome a descent for an address with this view has. */
  function ExpectedOutcome(v0: View, next0: nat): MapResult {
    if v0.Found? then Refused
    else if Needed(v0) > ALLOC_LIST_SIZE - 1 - next0 then NoMemory
    else Mapped
  }

  /** A descent that met no missing page: its outcome, and the view of every address after it. */
  ghost predicate Mapping(ram0: Ram, t0: Tree, alloc0: AllocState, run: MapRun, t: Tree, va: u64, e: u64) {
    var v0 := Lookup(ram0, t0.root, va, 2);
    && Sound(run.ram, t, run.alloc) && t.root == t0.root && run.ram.Keys == ram0.Keys
    && DataKept(ram0, run.ram, t) && Accounted(t0, alloc0, t, run.alloc)
    && run.result == ExpectedOutcome(v0, alloc0.next)
    && match run.result
       case Refused => run.ram == ram0 && run.alloc == alloc0
       case Mapped =>
         && run.alloc.next == alloc0.next + Needed(v0)
         && forall w: u64 :: Lookup(run.ram, t.root, w, 2)
              == (if SameVpns(va, w) then Found(0, e) else Deepen(Lookup(ram0, t0.root, w, 2), Common(va, w)))
       case Faulted => false
       case NoMemory =>
         && run.alloc.next == ALLOC_LIST_SIZE - 1
         && v0.level >= ALLOC_LIST_SIZE - 1 - alloc0.next
         && forall w: u64 :: Lookup(run.ram, t.root, w, 2)
              == Deepened(ram0, t0, va, v0.level - (ALLOC_LIST_SIZE - 1 - alloc0.next), w)
  }

  /** Lines 203-213 keep everything a descent relies on. */
  lemma AttachSound(ram0: Ram, t0: Tree, alloc0: AllocState, ram: Ram, t: Tree, alloc: AllocState, va: u64, level: nat,
                    ptb: u64)
    requires Wf(ram0, t0) && Sound(ram, t, alloc) && Descended(ram0, t0, ram, t, va, level, ptb) && 1 <= level
    requires ptb in ram && !PteValid(ram[ptb][Vpn(va, level)]) && CanGet(alloc) && alloc.list[alloc.next] in ram
    requires Accounted(t0, alloc0, t, alloc)
    ensures var page := alloc.list[alloc.next];
            var ram2, t2 := Attach(ram, ptb, Vpn(va, level), page),
                            AttachTree(t, ptb, Vpn(va, level), page, level - 1);
            && Sound(ram2, t2, AfterGet(alloc)) && Descended(ram0, t0, ram2, t2, va, level - 1, page)
            && Taken(Lookup(ram0, t0.root, va, 2), level - 1) == Taken(Lookup(ram0, t0.root, va, 2), level) + 1
            && Accounted(t0, alloc0, t2, AfterGet(alloc)) && ram2.Keys == ram.Keys
            && PteNextPtb(MakeTablePte(page)) == page
  {
    hide Wf, Disjoint, PteValid, PteLeaf, MakeTablePte, Lookup, PathTo, NewTables, DataKept;
    var page, free := alloc.list[alloc.next], alloc.list[alloc.next..];
    DescentEntry(ram0, t0, ram, t, va, level, ptb);
    assert free[0] == page && AfterGet(alloc).list[AfterGet(alloc).next..] == free[1..];
    TakeFreePage(free, t, ptb, Vpn(va, level), level - 1);
    AttachKeepsWf(ram, t, va, level, ptb, page);
    DescendAttached(ram0, t0, ram, t, va, level, ptb, page);
    TablePteFields(page);
    MoreTables(t0, t, AttachTree(t, ptb, Vpn(va, level), page, level - 1), alloc0.list, alloc0.next, alloc.next,
               alloc.next + 1);
  }

  /** The descent below table ptb, on the tree. */
  lemma {:induction false} DescendOnTree(ram0: Ram, t0: Tree, alloc0: AllocState, ram: Ram, t: Tree, alloc: AllocState,
                                         va: u64, pa: u64, flags: Flags, level: nat, ptb: u64)
    returns (t2: Tree)
    requires Wf(ram0, t0) && Sound(ram, t, alloc) && Descended(ram0, t0, ram, t, va, level, ptb)
    requires Accounted(t0, alloc0, t, alloc) && ram.Keys == ram0.Keys
    requires alloc.next == alloc0.next + Taken(Lookup(ram0, t0.root, va, 2), level)
    requires !(Lookup(ram0, t0.root, va, 2).Found? && Lookup(ram0, t0.root, va, 2).level == 2)
    ensures var run := Descend(ram, alloc, ptb, va, pa, flags, level);
            run.result != Faulted ==> Mapping(ram0, t0, alloc0, run, t2, va, MakeLeafPte(pa, flags))
    ensures Exist(ram, alloc, Needed(Lookup(ram0, t0.root, va, 2)) - Taken(Lookup(ram0, t0.root, va, 2), level)) ==>
              Descend(ram, alloc, ptb, va, pa, flags, level).result != Faulted
    decreases level
  {
    hide Wf, Disjoint, Descended, PteValid, PteLeaf, PteNextPtb, MakeLeafPte, MakeTablePte, Attach, AttachTree, Store,
         SameVpns, Common, DataKept, Lookup, PathTo, NewTables, Vpn;
    DescentEntry(ram0, t0, ram, t, va, level, ptb);
    var pte := ram[ptb][Vpn(va, level)];
    t2 := t;
    if level == 0 {
      if !PteValid(pte) {
        LeafPteFields(pa, flags);
        DescentEnds(ram0, t0, ram, t, va, ptb, MakeLeafPte(pa, flags));
      }
    } else if PteValid(pte) {
      DescendExisting(ram0, t0, ram, t, va, level, ptb);
      t2 := DescendOnTree(ram0, t0, alloc0, ram, t, alloc, va, pa, flags, level - 1, PteNextPtb(pte));
    } else if !CanGet(alloc) {
      DescentViews(ram0, t0, ram, t, va, level, ptb);
    } else if alloc.list[alloc.next] in ram {
      var page := alloc.list[alloc.next];
      AttachSound(ram0, t0, alloc0, ram, t, alloc, va, level, ptb);
      t2 := DescendOnTree(ram0, t0, alloc0, Attach(ram, ptb, Vpn(va, level), page),
                          AttachTree(t, ptb, Vpn(va, level), page, level - 1), AfterGet(alloc), va, pa, flags,
                          level - 1, page);
    }
  }

  /** vm_map_page() refuses this mapping: an address is no page address, bits 63 to 38 of va are neither all
      clear nor all set, or va is mapped. */
  ghost predicate Refuses(ram: Ram, root: u64, va: u64, pa: u64) {
    || va % 4096 != 0 || pa % 4096 != 0
    || (va / 0x40_0000_0000 != 0 && va / 0x40_0000_0000 != 0x3ff_ffff)
    || Lookup(ram, root, va, 2).Found?
  }

  /** The root entry of va is a leaf: the code would descend into the memory it maps. */
  ghost predicate Gigapage(ram: Ram, root: u64, va: u64) {
    Lookup(ram, root, va, 2).Found? && Lookup(ram, root, va, 2).level == 2
  }

  /** What a call achieves on a well-formed tree: outcome, translations, and the state it leaves. */
  ghost predicate Achieves(ram0: Ram, t0: Tree, alloc0: AllocState, run: MapRun, t: Tree,
                           va: u64, pa: u64, flags: Flags) {
    var v0 := Lookup(ram0, t0.root, va, 2);
    // which outcome
    && run.result == (if Refuses(ram0, t0.root, va, pa) then Refused else ExpectedOutcome(v0, alloc0.next))
    // translations
    && (forall w: u64 :: Translate(run.ram, t.root, w)
          == if run.result == Mapped then Remapped(Translate(ram0, t0.root, w), va, pa, flags, w)
             else Translate(ram0, t0.root, w))
    // memory, tables and allocator
    && (run.result == Refused ==> run.ram == ram0 && run.alloc == alloc0 && t == t0)
    && (run.result == Mapped ==>
          && run.alloc.next == alloc0.next + Needed(v0)
          && forall w: u64 :: Lookup(run.ram, t.root, w, 2)
               == (if SameVpns(va, w) then Found(0, MakeLeafPte(pa, flags))
                   else Deepen(Lookup(ram0, t0.root, w, 2), Common(va, w))))
    && Sound(run.ram, t, run.alloc) && t.root == t0.root && run.ram.Keys == ram0.Keys
    && DataKept(ram0, run.ram, t) && Accounted(t0, alloc0, t, run.alloc)
  }

  /** A call on a well-formed tree, on any address that is no gigapage. */
  lemma MapOnTree(ram: Ram, t: Tree, alloc: AllocState, va: u64, pa: u64, flags: Flags) returns (t2: Tree)
    requires Sound(ram, t, alloc)
    requires IsAligned(va) && IsAligned(pa) && Canonical(va) ==> !Gigapage(ram, t.root, va)
    ensures var run := VmMap(ram, alloc, t.root, va, pa, flags);
            run.result != Faulted ==> Achieves(ram, t, alloc, run, t2, va, pa, flags)
    ensures Exist(ram, alloc, Needed(Lookup(ram, t.root, va, 2))) ==>
              VmMap(ram, alloc, t.root, va, pa, flags).result != Faulted
  {
    hide Wf, Disjoint, Lookup, IsAligned, MakeLeafPte, SameVpns, Common, DataKept, Deepen, Max, Translate, Remapped,
         NewTables, Descended, Descend;
    Sv39Laws.CanonicalMeans(va);
    NoNewTables(t, alloc.list, alloc.next);
    DescentStarts(ram, t, va);
    t2 := t;
    var run := VmMap(ram, alloc, t.root, va, pa, flags);
    if IsAligned(va) && IsAligned(pa) && Canonical(va) {
      t2 := DescendOnTree(ram, t, alloc, ram, t, alloc, va, pa, flags, 2, t.root);
      match run.result
      case Mapped => MapTranslates(ram, t, run.ram, t2, va, pa, flags);
      case Refused => t2 := t;
      case NoMemory =>
        DeepenTranslates(ram, t, run.ram, t2, va,
                         Lookup(ram, t.root, va, 2).level - (ALLOC_LIST_SIZE - 1 - alloc.next));
      case Faulted =>
    }
  }

  // ---- A map on a gigapage ----

  /** Whatever memory a descent runs through, it overwrites no valid entry outside the free pages. */
  lemma {:induction false} ValidEntriesKept(ram: Ram, alloc: AllocState, ptb: u64, va: u64, pa: u64, flags: Flags,
                                            level: nat, q: u64, j: nat)
    requires WellSized(alloc) && level <= 2
    requires q in ram && j < 512 && PteValid(ram[q][j]) && q !in alloc.list[alloc.next..]
    ensures var after := Descend(ram, alloc, ptb, va, pa, flags, level).ram;
            q in after && after[q][j] == ram[q][j]
    decreases level
  {
    hide PteValid, PteNextPtb, MakeTablePte, MakeLeafPte, Vpn, Attach, Store;
    if ptb in ram && level > 0 {
      var i, pte := Vpn(va, level), ram[ptb][Vpn(va, level)];
      if PteValid(pte) {
        ValidEntriesKept(ram, alloc, PteNextPtb(pte), va, pa, flags, level - 1, q, j);
      } else if CanGet(alloc) && alloc.list[alloc.next] in ram {
        var page := alloc.list[alloc.next];
        assert alloc.list[alloc.next..][0] == page;
        assert AfterGet(alloc).list[alloc.next + 1..] == alloc.list[alloc.next..][1..];
        AttachKeepsValid(ram, ptb, i, page, q, j);
        ValidEntriesKept(Attach(ram, ptb, i, page), AfterGet(alloc), PteNextPtb(MakeTablePte(page)), va, pa, flags,
                         level - 1, q, j);
      }
    }
  }

  lemma AttachKeepsValid(ram: Ram, p: u64, i: nat, page: u64, q: u64, j: nat)
    requires p in ram && i < 512 && !PteValid(ram[p][i]) && q in ram && j < 512 && PteValid(ram[q][j]) && q != page
    ensures q in Attach(ram, p, i, page) && Attach(ram, p, i, page)[q][j] == ram[q][j]
  {
    hide PteValid, MakeTablePte;
  }

  /** So a call changes no translation of a gigapage it is asked to map into, whatever it returns. */
  lemma GigapageStands(ram: Ram, root: u64, alloc: AllocState, va: u64, pa: u64, flags: Flags, w: u64)
    requires WellSized(alloc) && Gigapage(ram, root, va) && root !in alloc.list[alloc.next..]
    requires Vpn(w, 2) == Vpn(va, 2)
    ensures Translate(VmMap(ram, alloc, root, va, pa, flags).ram, root, w) == Translate(ram, root, w)
  {
    hide Descend, IsAligned, Vpn, PteValid, PteLeaf, Canonical, Ppn, ReservedHigh, LeafTranslation;
    GigapageEntry(ram, root, va);
    if IsAligned(va) && IsAligned(pa) && Canonical(va) {
      ValidEntriesKept(ram, alloc, root, va, pa, flags, 2, root, Vpn(va, 2));
    }
  }

  lemma GigapageEntry(ram: Ram, root: u64, va: u64)
    requires Gigapage(ram, root, va)
    ensures root in ram && PteValid(ram[root][Vpn(va, 2)]) && PteLeaf(ram[root][Vpn(va, 2)])
  {
    hide PteValid, PteLeaf, PteNextPtb, Vpn;
    if root in ram {
      LookupLevel(ram, PteNextPtb(ram[root][Vpn(va, 2)]), va, 1);
    }
  }

  /** Inside a gigapage, one address of a page decides about the whole page. */
  lemma PageOfGigapage(e: u64, va: u64, pa: u64, flags: Flags, w: u64)
    requires va % 4096 == 0 && pa % 4096 == 0 && SamePage(va, w)
    ensures LeafTranslation(e, va, 2) == MappedAs(pa, flags, va) ==> LeafTranslation(e, w, 2) == MappedAs(pa, flags, w)
  {
    hide Ppn, AccessOf, LeafFlags;
    assert Span(2) == 0x4000_0000;
    assert w == va + w % 4096;
    assert w % 0x4000_0000 == va % 0x4000_0000 + w % 4096;
  }

  /** Sv39 on a page inside a gigapage, before or after the call. */
  lemma GigapagePageAs(ram: Ram, t: Tree, va: u64, pa: u64, flags: Flags, w: u64)
    requires Wf(ram, t) && Gigapage(ram, t.root, va) && va % 4096 == 0 && pa % 4096 == 0 && SamePage(va, w)
    requires Canonical(va) && Translate(ram, t.root, va) == MappedAs(pa, flags, va)
    ensures Translate(ram, t.root, w) == MappedAs(pa, flags, w)
  {
    hide Wf, Lookup, LeafTranslation, Ppn, ReservedHigh, Walk, Canonical;
    SamePageCanonical(va, w);
    TranslateIsMeaning(ram, t, va);
    TranslateIsMeaning(ram, t, w);
    GigapageView(ram, t.root, va, w);
    PageOfGigapage(Lookup(ram, t.root, va, 2).pte, va, pa, flags, w);
  }

  lemma GigapageView(ram: Ram, root: u64, va: u64, w: u64)
    requires Gigapage(ram, root, va) && SamePage(va, w) && Canonical(va)
    ensures Vpn(w, 2) == Vpn(va, 2) && Lookup(ram, root, w, 2) == Lookup(ram, root, va, 2)
  {
    hide PteValid, PteLeaf, PteNextPtb;
    SamePageCanonical(va, w);
    VpnsDeterminePage(va, w);
    GigapageEntry(ram, root, va);
  }

  /** When a return of 0 means what it says: vm_map_page() has mapped the page as asked if and only if
      the root entry of va is no gigapage, or the gigapage maps va as asked already. */
  lemma MapsUnlessGigapage(ram: Ram, t: Tree, alloc: AllocState, va: u64, pa: u64, flags: Flags)
    requires Sound(ram, t, alloc) && VmMap(ram, alloc, t.root, va, pa, flags).result == Mapped
    ensures (forall w: u64 :: SamePage(va, w) ==>
               Translate(VmMap(ram, alloc, t.root, va, pa, flags).ram, t.root, w) == MappedAs(pa, flags, w))
       <==> !Gigapage(ram, t.root, va) || Translate(ram, t.root, va) == MappedAs(pa, flags, va)
  {
    hide Wf, Disjoint, Lookup, Translate, MappedAs, Descend, Vpn, Gigapage, Canonical, IsAligned;
    var after := VmMap(ram, alloc, t.root, va, pa, flags).ram;
    if !Gigapage(ram, t.root, va) {
      var t2 := MapOnTree(ram, t, alloc, va, pa, flags);
    } else {
      RootNotFree(ram, t, alloc);
      forall w: u64 | SamePage(va, w) ensures Translate(after, t.root, w) == Translate(ram, t.root, w) {
        GigapageView(ram, t.root, va, w);
        GigapageStands(ram, t.root, alloc, va, pa, flags, w);
      }
      if Translate(ram, t.root, va) == MappedAs(pa, flags, va) {
        forall w: u64 | SamePage(va, w) ensures Translate(after, t.root, w) == MappedAs(pa, flags, w) {
          GigapagePageAs(ram, t, va, pa, flags, w);
        }
      } else {
        assert SamePage(va, va) && Translate(after, t.root, va) != MappedAs(pa, flags, va);
      }
    }
  }

  lemma RootNotFree(ram: Ram, t: Tree, alloc: AllocState)
    requires Sound(ram, t, alloc)
    ensures t.root !in alloc.list[alloc.next..]
  {
    hide EntriesOk, Attached;
  }

  // ---- A concrete call that returns 0 and maps nothing ----

  const SWALLOW_VA: u64 := 0x4000_0000
  const SWALLOW_PTE: u64 := MakeLeafPte(0x4000_0000, 14)
  const SWALLOW_ALLOC := AllocState(Pool(0x2000), 0, true)
  const SWALLOW_TREE := Tree(0x1000, map[0x1000 := 2], map[])

  function SwallowRoot(): (r: seq<u64>)
    ensures |r| == 512 && forall j :: 0 <= j < 512 ==> r[j] == if j == 1 then SWALLOW_PTE else 0
  {
    ZeroPage()[1 := SWALLOW_PTE]
  }

  /** A root table with one gigapage, two free pages, and the first page of the data the gigapage maps. */
  function SwallowMemory(): (r: Ram)
    ensures r.Keys == {0x1000, 0x2000, 0x3000, 0x4000_0000}
    ensures forall j :: 0 <= j < 512 ==> r[0x1000][j] == if j == 1 then SWALLOW_PTE else 0
    ensures forall q, j :: q in r && q != 0x1000 && 0 <= j < 512 ==> r[q][j] == 0
  {
    map[0x1000 := SwallowRoot(), 0x2000 := ZeroPage(), 0x3000 := ZeroPage(), 0x4000_0000 := ZeroPage()]
  }

  lemma SwallowEntry()
    ensures PteValid(SWALLOW_PTE) && PteLeaf(SWALLOW_PTE) && PteNextPtb(SWALLOW_PTE) == 0x4000_0000
  {
    hide MakeLeafPte, PteValid, PteLeaf, PteNextPtb, Ppn, ReservedHigh;
    LeafPteFields(0x4000_0000, 14);
    assert BitR(14);
  }

  lemma SwallowAddress()
    ensures Vpn(SWALLOW_VA, 2) == 1 && Vpn(SWALLOW_VA, 1) == 0 && Vpn(SWALLOW_VA, 0) == 0 && Canonical(SWALLOW_VA)
    ensures IsAligned(SWALLOW_VA) && IsAligned(0x5000)
  {
    hide IsAligned;
  }

  lemma SwallowPages()
    ensures Disjoint(SWALLOW_ALLOC.list[0..], SWALLOW_TREE)
  {
    assert SWALLOW_ALLOC.list[0..] == Pool(0x2000);
    forall i, j | 0 <= i < j < ALLOC_LIST_SIZE ensures PoolPage(0x2000, i) != PoolPage(0x2000, j) {
      PoolPagesDistinct(0x2000, i, j);
    }
  }

  lemma SwallowSound()
    ensures Sound(SwallowMemory(), SWALLOW_TREE, SWALLOW_ALLOC)
    ensures Lookup(SwallowMemory(), 0x1000, SWALLOW_VA, 2) == Found(2, SWALLOW_PTE)
  {
    hide MakeLeafPte, SwallowMemory, PteValid, PteLeaf, PteNextPtb, Vpn, Disjoint, Pool;
    SwallowEntry();
    SwallowAddress();
    SwallowPages();
    NoValidZero();
  }

  lemma SwallowRun()
    ensures var run := VmMap(SwallowMemory(), SWALLOW_ALLOC, 0x1000, SWALLOW_VA, 0x5000, 6);
            run.result == Mapped && 0x4000_0000 in run.ram && run.ram[0x4000_0000][0] != 0
  {
    hide MakeLeafPte, MakeTablePte, SwallowMemory, PteValid, PteLeaf, PteNextPtb, Vpn, Attach, IsAligned, Canonical;
    var ram, pages := SwallowMemory(), AfterGet(SWALLOW_ALLOC);
    SwallowEntry();
    SwallowAddress();
    NoValidZero();
    TablePteFields(0x2000);
    AttachedEntry(ram, 0x4000_0000, 0, 0x2000, 0x2000, 0);
    AttachedEntry(ram, 0x4000_0000, 0, 0x2000, 0x4000_0000, 0);
    assert ram[0x1000][1] == SWALLOW_PTE && ram[0x4000_0000][0] == 0 && Pool(0x2000)[0] == 0x2000;
    assert Descend(Attach(ram, 0x4000_0000, 0, 0x2000), pages, 0x2000, SWALLOW_VA, 0x5000, 6, 0).result == Mapped;
    assert Descend(ram, SWALLOW_ALLOC, 0x4000_0000, SWALLOW_VA, 0x5000, 6, 1)
        == Descend(Attach(ram, 0x4000_0000, 0, 0x2000), pages, 0x2000, SWALLOW_VA, 0x5000, 6, 0);
  }

  /** It happens: in a well-formed kernel the call returns 0, leaves the translation of va as it was, which is
      not the one asked for, and has overwritten a word of the data that the gigapage maps. */
  lemma GigapageSwallowsMap()
    ensures var ram := SwallowMemory();
            var run := VmMap(ram, SWALLOW_ALLOC, 0x1000, SWALLOW_VA, 0x5000, 6);
            && Sound(ram, SWALLOW_TREE, SWALLOW_ALLOC) && run.result == Mapped
            && Translate(run.ram, 0x1000, SWALLOW_VA) == Translate(ram, 0x1000, SWALLOW_VA)
            && Translate(ram, 0x1000, SWALLOW_VA) != MappedAs(0x5000, 6, SWALLOW_VA)
            && ram[0x4000_0000][0] == 0 && 0x4000_0000 in run.ram && run.ram[0x4000_0000][0] != 0
  {
    hide MakeLeafPte, SwallowMemory, VmMap, Vpn, Lookup, Wf, Walk, Ppn, ReservedHigh;
    var ram := SwallowMemory();
    SwallowAddress();
    SwallowSound();
    SwallowRun();
    RootNotFree(ram, SWALLOW_TREE, SWALLOW_ALLOC);
    GigapageStands(ram, 0x1000, SWALLOW_ALLOC, SWALLOW_VA, 0x5000, 6, SWALLOW_VA);
    TranslateIsMeaning(ram, SWALLOW_TREE, SWALLOW_VA);
    LeafPteFields(0x4000_0000, 14);
    assert Span(2) == 0x4000_0000;
  }

  // ---- The code ----

  class Kernel {
    var ram: Ram
    var kernelRootPtb: u64
    const alloc: Allocator
    ghost var tree: Tree

    /** The zero-initialised globals, over the physical memory the machine has. */
    constructor (memory: Ram)
      ensures ram == memory && kernelRootPtb == 0 && alloc.Valid() && !alloc.initialized
      ensures fresh(alloc) && fresh(alloc.list)
    {
      ram := memory;
      kernelRootPtb := 0;
      alloc := new Allocator();
      tree := Tree(0, map[], map[]);
    }

    ghost predicate Valid()
      reads this, alloc, alloc.list
    {
      alloc.Valid() && kernelRootPtb == tree.root && Sound(ram, tree, alloc.State())
    }

    ghost function View(va: u64): View
      reads this
    {
      Lookup(ram, tree.root, va, 2)
    }

    ghost function Translation(va: u64): Translation
      reads this
    {
      Translate(ram, tree.root, va)
    }

    /** The code stays inside the page tables: the root entry of va is no gigapage, or the call is refused. */
    ghost predicate OnTables(va: u64, pa: u64)
      reads this
    {
      IsAligned(va) && IsAligned(pa) && Canonical(va) ==> !Gigapage(ram, tree.root, va)
    }

    /** alloc_zero_page() */
    method AllocZeroPage() returns (r: Outcome<u64>)
      requires alloc.Valid()
      modifies this`ram, alloc, alloc.list
      ensures alloc.Valid()
      ensures r == if !CanGet(old(alloc.State())) then BugHit
                   else if old(alloc.list[alloc.next]) !in old(ram) then AccessFault
                   else Done(old(alloc.list[alloc.next]))
      ensures alloc.State() == if CanGet(old(alloc.State())) then AfterGet(old(alloc.State())) else old(alloc.State())
      ensures ram == if r.Done? then old(ram)[r.value := ZeroPage()] else old(ram)
    {
      r := alloc.GetPage();
      if r.BugHit? {
        return;
      }
      var page := r.value;
      if page !in ram {
        return AccessFault;
      }
      // memset(): eight bytes per step
      var i := 0;
      while i < 512
        modifies this`ram
        invariant 0 <= i <= 512 && page in ram
        invariant ram.Keys == old(ram).Keys
        invariant forall q :: q in ram && q != page ==> ram[q] == old(ram)[q]
        invariant forall j :: 0 <= j < i ==> ram[page][j] == 0
      {
        ram := Store(ram, page, i, 0);
        i := i + 1;
      }
      assert ram[page] == ZeroPage();
    }

    /** The do-while loop, lines 174-218. */
    method DescendAndMap(va: u64, pa: u64, flags: Flags) returns (r: MapResult)
      requires alloc.Valid()
      modifies this`ram, alloc, alloc.list
      ensures alloc.Valid()
      ensures MapRun(r, ram, alloc.State())
           == Descend(old(ram), old(alloc.State()), kernelRootPtb, va, pa, flags, 2)
    {
      hide PteValid, PteNextPtb, VaGetIndex, MakeTablePte, MakeLeafPte, Store, AfterGet, CanGet, Vpn;
      var ptb := kernelRootPtb;
      var level: nat := PTB_LEVELS - 1;
      while true
        modifies this`ram, alloc, alloc.list
        invariant alloc.Valid() && level <= 2
        invariant Descend(ram, alloc.State(), ptb, va, pa, flags, level)
               == Descend(old(ram), old(alloc.State()), kernelRootPtb, va, pa, flags, 2)
        decreases level
      {
        if ptb !in ram {
          return Faulted;
        }
        var pte := ram[ptb][VaGetIndex(va, level)];
        if level == 0 {
          if PteValid(pte) {
            return Refused;
          }
          pte := MakeLeafPte(pa, flags);
          ram := Store(ram, ptb, VaGetIndex(va, level), pte);
          return Mapped;
        }
        if !PteValid(pte) {
          var table := AllocZeroPage();
          if table.BugHit? {
            return NoMemory;
          } else if table.AccessFault? {
            return Faulted;
          }
          pte := MakeTablePte(table.value);
          ram := Store(ram, ptb, VaGetIndex(va, level), pte);
        }
        ptb := PteNextPtb(pte);
        level := level - 1;
      }
    }

    method VmMapPage(va: u64, pa: u64, flags: Flags) returns (r: MapResult)
      requires alloc.Valid()
      modifies this`ram, this`tree, alloc, alloc.list
      ensures alloc.Valid() && tree.root == old(tree.root)
      // on any memory
      ensures MapRun(r, ram, alloc.State())
           == VmMap(old(ram), old(alloc.State()), kernelRootPtb, va, pa, flags)
      // on page tables
      ensures old(Valid() && OnTables(va, pa)) && r != Faulted ==>
                Valid() && Achieves(old(ram), old(tree), old(alloc.State()), MapRun(r, ram, alloc.State()), tree,
                                    va, pa, flags)
      ensures old(Valid() && OnTables(va, pa) && Exist(ram, alloc.State(), Needed(View(va)))) ==> r != Faulted
      // on a gigapage
      ensures old(Valid() && Gigapage(ram, tree.root, va)) ==> Translation(va) == old(Translation(va))
    {
      hide Sound, Exist, Achieves, IsAligned, Descend, Lookup, Translate, Gigapage, Canonical;
      Sv39Laws.CanonicalMeans(va);
      ghost var before, tree0, alloc0 := ram, tree, alloc.State();
      if !IsAligned(va) || !IsAligned(pa) {
        r := Refused;
      } else if va > 0x3f_ffff_ffff && va < 0xffff_ffc0_0000_0000 {
        r := Refused;
      } else {
        r := DescendAndMap(va, pa, flags);
      }
      if old(Valid() && OnTables(va, pa)) {
        ghost var t := MapOnTree(before, tree0, alloc0, va, pa, flags);
        if r != Faulted {
          AchievesRoot(before, tree0, alloc0, MapRun(r, ram, alloc.State()), t, va, pa, flags);
          tree := t;
        }
      } else if old(Valid() && Gigapage(ram, tree.root, va)) {
        RootNotFree(before, tree0, alloc0);
        GigapageStands(before, tree0.root, alloc0, va, pa, flags, va);
      }
    }
  }

  lemma AchievesRoot(ram0: Ram, t0: Tree, alloc0: AllocState, run: MapRun, t: Tree, va: u64, pa: u64, flags: Flags)
    requires Achieves(ram0, t0, alloc0, run, t, va, pa, flags)
    ensures t.root == t0.root && Sound(run.ram, t, run.alloc)
  {
  }
}

/** The tree of page tables in physical memory, and what one store does to it.

Lookup reads the tables the way the kernel descends them.  Wf says that the
tables form a strict tree: every pointer entry leads to its own table page, one
level down.  The lemmas tie a store to one slot to its effect on the lookup of
every address, and Lookup to the translation defined in Sv39.
*/
module PageTree {
  import opened Bits64
  import opened Sv39
  import opened Pgtable
  import opened Wrappers

  /** Where the descent for an address ends: at an invalid entry, or at the entry that maps it. */
  datatype View = Missing(level: nat) | Found(level: nat, pte: u64)

  datatype Slot = Slot(table: u64, index: nat)

  /** Bookkeeping of the table pages: level of each page, and the entry that points to it. */
  datatype Tree = Tree(root: u64, level: map<u64, nat>, parent: map<u64, Slot>)

  function Lookup(ram: Ram, t: u64, va: u64, i: nat): View
    requires i <= 2
    decreases i
  {
    if t !in ram then Missing(i)
    else
      var e := ram[t][Vpn(va, i)];
      if !PteValid(e) then Missing(i)
      else if i == 0 || PteLeaf(e) then Found(i, e)
      else Lookup(ram, PteNextPtb(e), va, i - 1)
  }

  /** The table on level i through which the descent for va passes. */
  function PathTo(ram: Ram, root: u64, va: u64, i: nat): Option<u64>
    requires i <= 2
    decreases 2 - i
  {
    if i == 2 then Some(root)
    else
      match PathTo(ram, root, va, i + 1)
      case None => None
      case Some(t) =>
        if t in ram && PteValid(ram[t][Vpn(va, i + 1)]) && !PteLeaf(ram[t][Vpn(va, i + 1)])
        then Some(PteNextPtb(ram[t][Vpn(va, i + 1)]))
        else None
  }

  ghost predicate TablesOk(ram: Ram, t: Tree) {
    && t.root in t.level
    && (forall p :: p in t.level ==>
          && p in ram && p % 4096 == 0 && p < 0x100_0000_0000_0000
          && t.level[p] <= 2 && (t.level[p] == 2 <==> p == t.root))
  }

  /** A valid entry of an upper table: a gigapage in the root, or a pointer to its own table. */
  ghost predicate EntryOk(t: Tree, p: u64, i: nat, e: u64)
    requires p in t.level
  {
    if PteLeaf(e) then p == t.root
    else
      var c := PteNextPtb(e);
      && c in t.level && c in t.parent
      && e == MakeTablePte(c)
      && t.level[c] + 1 == t.level[p]
      && t.parent[c] == Slot(p, i)
  }

  ghost predicate EntriesOk(ram: Ram, t: Tree)
    requires TablesOk(ram, t)
  {
    forall p, i :: p in t.level && t.level[p] > 0 && 0 <= i < 512 && PteValid(ram[p][i]) ==>
      EntryOk(t, p, i, ram[p][i])
  }

  /** Table c hangs from the entry recorded as its parent. */
  ghost predicate Attached(ram: Ram, t: Tree, c: u64)
    requires TablesOk(ram, t)
  {
    && c in t.parent
    && var s := t.parent[c];
    && s.table in t.level && t.level[s.table] > 0 && s.index < 512
    && PteValid(ram[s.table][s.index]) && !PteLeaf(ram[s.table][s.index])
    && PteNextPtb(ram[s.table][s.index]) == c
  }

  ghost predicate Wf(ram: Ram, t: Tree) {
    && TablesOk(ram, t)
    && EntriesOk(ram, t)
    && (forall c :: c in t.level && c != t.root ==> Attached(ram, t, c))
  }

  /** Lowest level on which v and w are looked up in the same table. */
  function Common(v: u64, w: u64): nat {
    if Vpn(v, 2) != Vpn(w, 2) then 2
    else if Vpn(v, 1) != Vpn(w, 1) then 1
    else 0
  }

  lemma {:induction false} PathInTree(ram: Ram, t: Tree, va: u64, i: nat)
    requires Wf(ram, t) && i <= 2 && PathTo(ram, t.root, va, i).Some?
    ensures var p := PathTo(ram, t.root, va, i).value; p in t.level && t.level[p] == i
    decreases 2 - i
  {
    if i < 2 {
      PathInTree(ram, t, va, i + 1);
      var q := PathTo(ram, t.root, va, i + 1).value;
      assert EntryOk(t, q, Vpn(va, i + 1), ram[q][Vpn(va, i + 1)]);
    }
  }

  /** The parent of the table reached on level i is the entry the descent took to it. */
  lemma PathParent(ram: Ram, t: Tree, va: u64, i: nat)
    requires Wf(ram, t) && i < 2 && PathTo(ram, t.root, va, i).Some?
    ensures PathTo(ram, t.root, va, i + 1).Some? && PathTo(ram, t.root, va, i).value in t.parent
    ensures t.parent[PathTo(ram, t.root, va, i).value] == Slot(PathTo(ram, t.root, va, i + 1).value, Vpn(va, i + 1))
  {
    PathInTree(ram, t, va, i + 1);
    var p := PathTo(ram, t.root, va, i + 1).value;
    assert EntryOk(t, p, Vpn(va, i + 1), ram[p][Vpn(va, i + 1)]);
  }

  /** The strict tree at work: two descents meet in a table only if they took the same entries to it. */
  lemma {:induction false} PathDetermines(ram: Ram, t: Tree, v: u64, w: u64, i: nat)
    requires Wf(ram, t) && i <= 2
    requires PathTo(ram, t.root, v, i).Some? && PathTo(ram, t.root, v, i) == PathTo(ram, t.root, w, i)
    ensures Common(v, w) <= i
    decreases 2 - i
  {
    if i < 2 {
      PathParent(ram, t, v, i);
      PathParent(ram, t, w, i);
      PathDetermines(ram, t, v, w, i + 1);
    }
  }

  lemma {:induction false} PathShared(ram: Ram, root: u64, v: u64, w: u64, i: nat)
    requires Common(v, w) <= i <= 2
    ensures PathTo(ram, root, v, i) == PathTo(ram, root, w, i)
    decreases 2 - i
  {
    if i < 2 {
      PathShared(ram, root, v, w, i + 1);
    }
  }

  lemma {:induction false} LookupFollowsPath(ram: Ram, root: u64, va: u64, i: nat)
    requires i <= 2 && PathTo(ram, root, va, i).Some?
    ensures Lookup(ram, root, va, 2) == Lookup(ram, PathTo(ram, root, va, i).value, va, i)
    decreases 2 - i
  {
    if i < 2 {
      LookupFollowsPath(ram, root, va, i + 1);
    }
  }

  lemma {:induction false} LookupLevel(ram: Ram, t: u64, va: u64, i: nat)
    requires i <= 2
    ensures Lookup(ram, t, va, i).level <= i
    decreases i
  {
    if i > 0 && t in ram {
      LookupLevel(ram, PteNextPtb(ram[t][Vpn(va, i)]), va, i - 1);
    }
  }

  /** ram2 differs from ram, on the tables of the tree, at most in entry (p, i). */
  ghost predicate OneEntryChanged(ram: Ram, ram2: Ram, t: Tree, p: u64, i: nat)
    requires TablesOk(ram, t)
  {
    && p in t.level && i < 512
    && forall q :: q in t.level ==>
         q in ram2 && (forall j :: 0 <= j < 512 && (q != p || j != i) ==> ram2[q][j] == ram[q][j])
  }

  /** The descent for w reads entry (p, i). */
  predicate Reads(ram: Ram, t: Tree, w: u64, p: u64, i: nat)
    requires p in t.level && t.level[p] <= 2
  {
    PathTo(ram, t.root, w, t.level[p]) == Some(p) && Vpn(w, t.level[p]) == i
  }

  /** A changed entry is invisible to every descent that does not read it. */
  lemma {:induction false} LookupFrame(ram: Ram, ram2: Ram, t: Tree, p: u64, i: nat, w: u64, k: nat)
    requires Wf(ram, t) && OneEntryChanged(ram, ram2, t, p, i) && k <= 2
    requires PathTo(ram, t.root, w, k).Some? && !Reads(ram, t, w, p, i)
    ensures Lookup(ram2, PathTo(ram, t.root, w, k).value, w, k) == Lookup(ram, PathTo(ram, t.root, w, k).value, w, k)
    decreases k
  {
    hide EntriesOk, Attached, PteValid, PteLeaf, PteNextPtb, Vpn;
    PathInTree(ram, t, w, k);
    var q := PathTo(ram, t.root, w, k).value;
    var e := ram[q][Vpn(w, k)];
    if k > 0 && PteValid(e) && !PteLeaf(e) {
      assert PathTo(ram, t.root, w, k - 1) == Some(PteNextPtb(e));
      LookupFrame(ram, ram2, t, p, i, w, k - 1);
    }
  }

  /** The path down to the changed table itself is kept. */
  lemma {:induction false} PathFrame(ram: Ram, ram2: Ram, t: Tree, p: u64, i: nat, w: u64, k: nat)
    requires Wf(ram, t) && OneEntryChanged(ram, ram2, t, p, i) && t.level[p] <= k <= 2
    ensures PathTo(ram2, t.root, w, k) == PathTo(ram, t.root, w, k)
    decreases 2 - k
  {
    hide EntriesOk, Attached, PteValid, PteLeaf, PteNextPtb, Vpn;
    if k < 2 {
      PathFrame(ram, ram2, t, p, i, w, k + 1);
      if PathTo(ram, t.root, w, k + 1).Some? {
        PathInTree(ram, t, w, k + 1);
      }
    }
  }

  function Max(a: nat, b: nat): nat {
    if a > b then a else b
  }

  /** The view once tables exist down to level d: an invalid entry is met at d at the highest. */
  function Deepen(v: View, d: nat): View {
    if v.Missing? && v.level > d then Missing(d) else v
  }

  function ZeroPage(): (r: seq<u64>)
    ensures |r| == 512 && forall j :: 0 <= j < 512 ==> r[j] == 0
  {
    seq(512, j => 0)
  }

  /** *ptep = pte, for entry i of the table at p. */
  function Store(ram: Ram, p: u64, i: nat, pte: u64): (r: Ram)
    requires p in ram && i < 512
    ensures r.Keys == ram.Keys && r[p][i] == pte
    ensures forall q, j :: q in ram && 0 <= j < 512 && (q != p || j != i) ==> r[q][j] == ram[q][j]
  {
    var table: seq<u64> := ram[p][i := pte];
    ram[p := table]
  }

  /** Clear the page page, then make entry i of table p point to it. */
  function Attach(ram: Ram, p: u64, i: nat, page: u64): Ram
    requires p in ram && i < 512
  {
    Store(ram[page := ZeroPage()], p, i, MakeTablePte(page))
  }

  function AttachTree(t: Tree, p: u64, i: nat, page: u64, level: nat): Tree {
    Tree(t.root, t.level[page := level], t.parent[page := Slot(p, i)])
  }

  /** Where a table can be attached for va: entry Vpn(va, level) of table p is still invalid. */
  ghost predicate CanAttach(ram: Ram, t: Tree, va: u64, level: nat, p: u64, page: u64) {
    && Wf(ram, t) && 1 <= level <= 2
    && PathTo(ram, t.root, va, level) == Some(p) && p in t.level && t.level[p] == level
    && !PteValid(ram[p][Vpn(va, level)])
    && page !in t.level && page % 4096 == 0 && page < 0x100_0000_0000_0000
  }

  /** One entry of the new memory: zero in the attached page, and otherwise changed only at (p, i). */
  lemma AttachedEntry(ram: Ram, p: u64, i: nat, page: u64, q: u64, j: nat)
    requires p in ram && i < 512 && j < 512 && p != page && (q in ram || q == page)
    ensures q in Attach(ram, p, i, page)
    ensures Attach(ram, p, i, page)[q][j]
         == if q == page then 0 else if q == p && j == i then MakeTablePte(page) else ram[q][j]
  {
    var cleared: Ram := ram[page := ZeroPage()];
    assert q in cleared;
    assert Store(cleared, p, i, MakeTablePte(page))[q][j]
        == if q == p && j == i then MakeTablePte(page) else cleared[q][j];
  }

  lemma AttachKeepsTables(ram: Ram, t: Tree, va: u64, level: nat, p: u64, page: u64)
    requires CanAttach(ram, t, va, level, p, page)
    ensures TablesOk(Attach(ram, p, Vpn(va, level), page), AttachTree(t, p, Vpn(va, level), page, level - 1))
  {
    var i := Vpn(va, level);
    forall q | q in t.level ensures q in Attach(ram, p, i, page) {
      AttachedEntry(ram, p, i, page, q, 0);
    }
    AttachedEntry(ram, p, i, page, page, 0);
  }

  lemma NoValidZero()
    ensures !PteValid(0)
  {
  }

  lemma AttachKeepsEntry(ram: Ram, t: Tree, va: u64, level: nat, p: u64, page: u64, q: u64, j: nat)
    requires CanAttach(ram, t, va, level, p, page)
    requires j < 512 && (q in t.level || q == page)
    requires q in Attach(ram, p, Vpn(va, level), page) && PteValid(Attach(ram, p, Vpn(va, level), page)[q][j])
    ensures q != page && (t.level[q] > 0 ==>
              EntryOk(AttachTree(t, p, Vpn(va, level), page, level - 1), q, j, Attach(ram, p, Vpn(va, level), page)[q][j]))
  {
    hide Attach, MakeTablePte, Attached, PathTo, PteValid, PteLeaf, PteNextPtb, Vpn;
    var i := Vpn(va, level);
    AttachedEntry(ram, p, i, page, q, j);
    TablePteFields(page);
    NoValidZero();
    if q != page && (q != p || j != i) && t.level[q] > 0 {
      assert EntryOk(t, q, j, ram[q][j]);
    }
  }

  lemma AttachKeepsParent(ram: Ram, t: Tree, va: u64, level: nat, p: u64, page: u64, c: u64)
    requires CanAttach(ram, t, va, level, p, page)
    requires TablesOk(Attach(ram, p, Vpn(va, level), page), AttachTree(t, p, Vpn(va, level), page, level - 1))
    requires c != t.root && (c in t.level || c == page)
    ensures Attached(Attach(ram, p, Vpn(va, level), page), AttachTree(t, p, Vpn(va, level), page, level - 1), c)
  {
    var i := Vpn(va, level);
    TablePteFields(page);
    if c == page {
      AttachedEntry(ram, p, i, page, p, i);
    } else {
      assert Attached(ram, t, c);
      var s := t.parent[c];
      AttachedEntry(ram, p, i, page, s.table, s.index);
    }
  }

  lemma AttachKeepsWf(ram: Ram, t: Tree, va: u64, level: nat, p: u64, page: u64)
    requires CanAttach(ram, t, va, level, p, page)
    ensures Wf(Attach(ram, p, Vpn(va, level), page), AttachTree(t, p, Vpn(va, level), page, level - 1))
  {
    hide Attach, EntryOk, Attached, PteValid, MakeTablePte, PathTo, Vpn;
    var i := Vpn(va, level);
    var ram2, t2 := Attach(ram, p, i, page), AttachTree(t, p, i, page, level - 1);
    AttachKeepsTables(ram, t, va, level, p, page);
    forall q, j | q in t2.level && t2.level[q] > 0 && 0 <= j < 512 && PteValid(ram2[q][j])
      ensures EntryOk(t2, q, j, ram2[q][j])
    {
      AttachKeepsEntry(ram, t, va, level, p, page, q, j);
    }
    forall c | c in t2.level && c != t2.root
      ensures Attached(ram2, t2, c)
    {
      AttachKeepsParent(ram, t, va, level, p, page, c);
    }
  }

  lemma AttachChangesOneEntry(ram: Ram, t: Tree, va: u64, level: nat, p: u64, page: u64)
    requires CanAttach(ram, t, va, level, p, page)
    ensures OneEntryChanged(ram, Attach(ram, p, Vpn(va, level), page), t, p, Vpn(va, level))
  {
    var i := Vpn(va, level);
    forall q, j | q in t.level && 0 <= j < 512
      ensures q in Attach(ram, p, i, page)
      ensures (q != p || j != i) ==> Attach(ram, p, i, page)[q][j] == ram[q][j]
    {
      AttachedEntry(ram, p, i, page, q, j);
    }
    AttachKeepsTables(ram, t, va, level, p, page);
  }

  /** Where tables exist down to level d on the path of va, no view can be deepened to d any more. */
  lemma PathAlreadyDeep(ram: Ram, root: u64, va: u64, d: nat, w: u64)
    requires d <= 2 && PathTo(ram, root, va, d).Some?
    ensures Lookup(ram, root, w, 2) == Deepen(Lookup(ram, root, w, 2), Max(Common(va, w), d))
  {
  }

  /** Below the attached table every entry is invalid. */
  lemma AttachedView(ram: Ram, t: Tree, va: u64, level: nat, p: u64, page: u64, w: u64)
    requires CanAttach(ram, t, va, level, p, page)
    requires Reads(ram, t, w, p, Vpn(va, level))
    ensures Lookup(Attach(ram, p, Vpn(va, level), page), t.root, w, 2) == Missing(level - 1)
    ensures Lookup(ram, t.root, w, 2) == Missing(level)
  {
    var i := Vpn(va, level);
    var ram2 := Attach(ram, p, i, page);
    AttachChangesOneEntry(ram, t, va, level, p, page);
    AttachedEntry(ram, p, i, page, p, i);
    AttachedEntry(ram, p, i, page, page, Vpn(w, level - 1));
    TablePteFields(page);
    PathFrame(ram, ram2, t, p, i, w, level);
    LookupFollowsPath(ram, t.root, w, level);
    LookupFollowsPath(ram2, t.root, w, level);
  }

  /** Attaching an empty table changes no view but that of the addresses below it, which get one level deeper. */
  lemma AttachDeepens(ram: Ram, t: Tree, va: u64, level: nat, p: u64, page: u64, w: u64)
    requires CanAttach(ram, t, va, level, p, page)
    ensures Lookup(Attach(ram, p, Vpn(va, level), page), t.root, w, 2)
         == Deepen(Lookup(ram, t.root, w, 2), Max(Common(va, w), level - 1))
  {
    var i := Vpn(va, level);
    if Reads(ram, t, w, p, i) {
      PathDetermines(ram, t, va, w, level);
      AttachedView(ram, t, va, level, p, page, w);
    } else {
      AttachChangesOneEntry(ram, t, va, level, p, page);
      LookupFrame(ram, Attach(ram, p, i, page), t, p, i, w, 2);
      if Common(va, w) < level {
        PathShared(ram, t.root, va, w, level);
      }
      PathAlreadyDeep(ram, t.root, va, level, w);
    }
  }

  /** The path of va reaches the newly attached table. */
  lemma AttachExtendsPath(ram: Ram, t: Tree, va: u64, level: nat, p: u64, page: u64)
    requires CanAttach(ram, t, va, level, p, page)
    ensures PathTo(Attach(ram, p, Vpn(va, level), page), t.root, va, level - 1) == Some(page)
  {
    var i := Vpn(va, level);
    var ram2 := Attach(ram, p, i, page);
    AttachChangesOneEntry(ram, t, va, level, p, page);
    AttachedEntry(ram, p, i, page, p, i);
    TablePteFields(page);
    PathFrame(ram, ram2, t, p, i, va, level);
  }

  /** Storing a valid entry in the level-0 table of va. */
  lemma LeafStore(ram: Ram, t: Tree, va: u64, p: u64, e: u64)
    requires Wf(ram, t) && PathTo(ram, t.root, va, 0) == Some(p) && PteValid(e)
    ensures p in t.level && Wf(Store(ram, p, Vpn(va, 0), e), t)
    ensures forall w: u64 :: Lookup(Store(ram, p, Vpn(va, 0), e), t.root, w, 2)
                    == if SameVpns(va, w) then Found(0, e) else Lookup(ram, t.root, w, 2)
  {
    hide EntriesOk, Attached, PteLeaf, PteNextPtb, Vpn;
    PathInTree(ram, t, va, 0);
    var i := Vpn(va, 0);
    var ram2 := Store(ram, p, i, e);
    assert OneEntryChanged(ram, ram2, t, p, i);
    StoreKeepsWf(ram, t, p, i, e);
    forall w: u64
      ensures Lookup(ram2, t.root, w, 2) == if SameVpns(va, w) then Found(0, e) else Lookup(ram, t.root, w, 2)
    {
      if SameVpns(va, w) {
        PathShared(ram, t.root, va, w, 0);
        PathFrame(ram, ram2, t, p, i, w, 0);
        LookupFollowsPath(ram2, t.root, w, 0);
      } else {
        if Reads(ram, t, w, p, i) {
          PathDetermines(ram, t, va, w, 0);
        }
        LookupFrame(ram, ram2, t, p, i, w, 2);
      }
    }
  }

  /** Level-0 tables may hold anything; an upper entry that was invalid may become a gigapage of the root. */
  lemma StoreKeepsWf(ram: Ram, t: Tree, p: u64, i: nat, e: u64)
    requires Wf(ram, t) && p in t.level && i < 512
    requires t.level[p] == 0 || (p == t.root && PteLeaf(e) && !PteValid(ram[p][i]))
    ensures Wf(Store(ram, p, i, e), t)
  {
    var ram2 := Store(ram, p, i, e);
    assert TablesOk(ram2, t);
    forall q, j | q in t.level && t.level[q] > 0 && 0 <= j < 512 && PteValid(ram2[q][j])
      ensures EntryOk(t, q, j, ram2[q][j])
    {
      if q != p || j != i {
        assert EntryOk(t, q, j, ram[q][j]);
      }
    }
    forall c | c in t.level && c != t.root
      ensures Attached(ram2, t, c)
    {
      assert Attached(ram, t, c);
    }
  }

  /** Storing a gigapage leaf in a root entry that was invalid. */
  lemma GigapageStore(ram: Ram, t: Tree, i: nat, e: u64)
    requires Wf(ram, t) && i < 512 && !PteValid(ram[t.root][i]) && PteValid(e) && PteLeaf(e)
    ensures Wf(Store(ram, t.root, i, e), t)
    ensures forall w: u64 :: Lookup(Store(ram, t.root, i, e), t.root, w, 2)
                    == if Vpn(w, 2) == i then Found(2, e) else Lookup(ram, t.root, w, 2)
  {
    var ram2 := Store(ram, t.root, i, e);
    StoreKeepsWf(ram, t, t.root, i, e);
    assert OneEntryChanged(ram, ram2, t, t.root, i);
    forall w: u64
      ensures Lookup(ram2, t.root, w, 2) == if Vpn(w, 2) == i then Found(2, e) else Lookup(ram, t.root, w, 2)
    {
      if Vpn(w, 2) != i {
        LookupFrame(ram, ram2, t, t.root, i, w, 2);
      }
    }
  }

  /** What Sv39 makes of the entry a descent ends at. */
  function Meaning(v: View, va: u64): Translation
    requires v.level <= 2
  {
    match v
    case Missing(_) => PageFault
    case Found(i, e) =>
      EntryMeaning(e, va, i)
  }

  /** On a well-formed tree the hardware walk follows the kernel's descent. */
  lemma {:induction false} WalkIsMeaning(ram: Ram, t: Tree, p: u64, va: u64, i: nat)
    requires Wf(ram, t) && i <= 2 && p in t.level && t.level[p] == i
    ensures Lookup(ram, p, va, i).level <= 2
    ensures Walk(ram, p, va, i) == Meaning(Lookup(ram, p, va, i), va)
    decreases i
  {
    LookupLevel(ram, p, va, i);
    var e := ram[p][Vpn(va, i)];
    if PteValid(e) && !PteLeaf(e) && i > 0 {
      assert EntryOk(t, p, Vpn(va, i), e);
      TablePteFields(PteNextPtb(e));
      WalkIsMeaning(ram, t, PteNextPtb(e), va, i - 1);
    }
  }

  /** The translation of an address is determined by its view. */
  lemma TranslateIsMeaning(ram: Ram, t: Tree, va: u64)
    requires Wf(ram, t)
    ensures Lookup(ram, t.root, va, 2).level <= 2
    ensures Translate(ram, t.root, va)
         == if Canonical(va) then Meaning(Lookup(ram, t.root, va, 2), va) else PageFault
  {
    WalkIsMeaning(ram, t, t.root, va, 2);
  }
}

/** dump_ptbs() on the tables that vm_init_kernel() has built. */
module BootDump {
  import opened Bits64
  import opened Sv39
  import opened Pgtable
  import opened Alloc
  import opened PageTree
  import opened Mm
  import opened BootMap
  import opened PtbDump
  import opened Wrappers

  lemma LevelAbove(ram: Ram, t: Tree, c: u64)
    requires Wf(ram, t) && c in t.level && c != t.root
    ensures Attached(ram, t, c) && t.level[t.parent[c].table] == t.level[c] + 1
  {
    hide PteValid, PteLeaf, PteNextPtb, MakeTablePte;
    assert Attached(ram, t, c);
    var s := t.parent[c];
    assert EntryOk(t, s.table, s.index, ram[s.table][s.index]);
  }

  lemma AddressFrom(i2: nat, i1: nat, i0: nat) returns (va: u64)
    requires i2 < 512 && i1 < 512 && i0 < 512
    ensures Vpn(va, 2) == i2 && Vpn(va, 1) == i1 && Vpn(va, 0) == i0
  {
    va := i2 * 0x4000_0000 + i1 * 0x20_0000 + i0 * 0x1000;
    assert va / 0x1000 == i2 * 0x4_0000 + i1 * 0x200 + i0;
    assert va / 0x20_0000 == i2 * 0x200 + i1;
    assert va / 0x4000_0000 == i2;
  }

  /** An address whose descent reads entry i of the level-0 table p. */
  lemma AddressOf(ram: Ram, t: Tree, p: u64, i: nat) returns (va: u64)
    requires Wf(ram, t) && p in t.level && t.level[p] == 0 && i < 512
    ensures PathTo(ram, t.root, va, 0) == Some(p) && Vpn(va, 0) == i
  {
    hide EntriesOk, PteValid, PteLeaf, PteNextPtb, MakeTablePte, Vpn;
    LevelAbove(ram, t, p);
    var s := t.parent[p];
    LevelAbove(ram, t, s.table);
    var r := t.parent[s.table];
    va := AddressFrom(r.index, s.index, i);
    assert PathTo(ram, t.root, va, 2) == Some(t.root);
    assert PathTo(ram, t.root, va, 1) == Some(s.table);
  }

  lemma TableExists(ram: Ram, t: Tree, p: u64)
    requires Wf(ram, t) && p in t.level
    ensures p in ram
  {
  }

  /** A guard entry of the tree is the one entry of page 0. */
  lemma GuardIsAtZero(ram: Ram, t: Tree, p: u64, i: nat)
    requires Wf(ram, t) && OneGuardView(ram, t.root)
    requires p in t.level && t.level[p] == 0 && i < 512 && p in ram && IsGuard(ram[p][i])
    ensures PathTo(ram, t.root, 0, 0) == Some(p) && i == 0 && PteNextPtb(ram[p][i]) == 0
  {
    hide Wf, PteValid, PteLeaf, PteNextPtb, MakeLeafPte;
    var va := AddressOf(ram, t, p, i);
    LookupFollowsPath(ram, t.root, va, 0);
    assert Lookup(ram, t.root, va, 2) == Found(0, ram[p][i]);
    assert SameVpns(0, va);
    PathShared(ram, t.root, 0, va, 0);
    LeafPteFields(0, 0);
  }

  lemma DeepPath(ram: Ram, root: u64) returns (p: u64)
    requires Lookup(ram, root, 0, 2).Found? && Lookup(ram, root, 0, 2).level == 0
    ensures PathTo(ram, root, 0, 0) == Some(p)
  {
    hide PteValid, PteLeaf, PteNextPtb, Vpn;
    assert PathTo(ram, root, 0, 2) == Some(root);
    assert PathTo(ram, root, 0, 1).Some?;
    p := PathTo(ram, root, 0, 0).value;
  }

  /** And that entry is in the tree. */
  lemma GuardAtZero(ram: Ram, t: Tree) returns (p: u64)
    requires Wf(ram, t) && OneGuardView(ram, t.root)
    ensures PathTo(ram, t.root, 0, 0) == Some(p) && p in t.level && t.level[p] == 0 && p in ram && IsGuard(ram[p][0])
  {
    hide PteValid, PteLeaf, PteNextPtb, MakeLeafPte, Wf, PathTo;
    assert Lookup(ram, t.root, 0, 2) == Found(0, MakeLeafPte(0, 0));
    LeafPteFields(0, 0);
    p := DeepPath(ram, t.root);
    PathInTree(ram, t, 0, 0);
    LookupFollowsPath(ram, t.root, 0, 0);
    TableExists(ram, t, p);
  }

  /** The tables of boot have exactly one guard, and it points to page 0. */
  lemma OneGuard(ram: Ram, t: Tree)
    requires Wf(ram, t) && OneGuardView(ram, t.root) && 0 !in t.level
    ensures TablesOk(ram, t) && GuardsPointToNull(ram, t) && |Guards(ram, t)| == 1
  {
    hide EntriesOk, Attached, OneGuardView, IsGuard, PathTo, PteNextPtb;
    var p := GuardAtZero(ram, t);
    forall q, i | q in t.level && t.level[q] == 0 && 0 <= i < 512 && IsGuard(ram[q][i])
      ensures q == p && i == 0 && PteNextPtb(ram[q][i]) == 0
    {
      GuardIsAtZero(ram, t, q, i);
    }
    assert Guards(ram, t) == {GuardItem(Slot(p, 0))};
  }

  lemma {:induction false} ElementCount(s: seq<u64>)
    requires NoDuplicates(s)
    ensures |Elements(s)| == |s|
  {
    if s != [] {
      var n := |s| - 1;
      ElementCount(s[..n]);
      assert s == s[..n] + [s[n]];
      assert Elements(s) == Elements(s[..n]) + {s[n]};
    }
  }

  lemma PoolPrefix(start: u64, n: nat)
    requires n < ALLOC_LIST_SIZE
    ensures |Elements(Pool(start)[..n])| == n
  {
    hide PoolPage;
    forall i, j | 0 <= i < j < n ensures Pool(start)[i] != Pool(start)[j] {
      PoolPagesDistinct(start, i, j);
    }
    ElementCount(Pool(start)[..n]);
  }

  lemma NullIsNoTable(start: u64, t: Tree, next: nat)
    requires 0 < start && start % 4096 == 0 && start < 0x1_0000_0000 && next < ALLOC_LIST_SIZE
    requires t.level.Keys == Elements(Pool(start)[..next])
    ensures 0 !in t.level
  {
    if 0 in t.level {
      assert 0 in Elements(Pool(start)[..next]);
      var i :| 0 <= i < next && Pool(start)[..next][i] == 0;
      PoolIsPlain(start, i);
    }
  }

  /** After vm_init_kernel(), dump_ptbs() can be called whenever at most 511 tables were needed, and it then
      counts one more than the pages the allocator has handed out: the tables and the guard of page 0. */
  lemma BootTablesDump(k: Kernel, start: u64)
    requires Booting(k, start) && OneGuardView(k.ram, k.tree.root)
    requires 0 < start && start % 4096 == 0 && start < 0x1_0000_0000
    ensures Wf(k.ram, k.tree) && k.kernelRootPtb == k.tree.root && GuardsPointToNull(k.ram, k.tree)
    ensures |Guards(k.ram, k.tree)| == 1 && |k.tree.level| + |Guards(k.ram, k.tree)| == k.alloc.next + 1
  {
    hide OneGuardView, GuardsPointToNull, Guards, Pool;
    BootingTables(k, start);
    PoolPrefix(start, k.alloc.next);
    NullIsNoTable(start, k.tree, k.alloc.next);
    OneGuard(k.ram, k.tree);
    assert |k.tree.level| == |k.tree.level.Keys|;
  }
}

/** src/mm.c: dump_ptbs(), a depth-first visit of all page tables with an explicit stack. */
module PtbDump {
  import opened Bits64
  import opened Sv39
  import opened Pgtable
  import opened PageTree

  /** What the visit takes off its stack: a table, or the null pointer of a guard entry. */
  datatype Item = TableItem(page: u64) | GuardItem(slot: Slot)

  /** A level-0 entry that is valid with R, W and X clear, as stored for page 0. */
  predicate IsGuard(e: u64) {
    PteValid(e) && !PteLeaf(e)
  }

  function Tables(t: Tree): (r: set<Item>)
    ensures forall u :: u in r <==> u.TableItem? && u.page in t.level
  {
    set p | p in t.level :: TableItem(p)
  }

  ghost function Guards(ram: Ram, t: Tree): (r: set<Item>)
    requires TablesOk(ram, t)
    ensures forall u :: u in r <==>
              && u.GuardItem? && u.slot.table in t.level && t.level[u.slot.table] == 0
              && u.slot.index < 512 && IsGuard(ram[u.slot.table][u.slot.index])
  {
    set p, i | p in t.level && t.level[p] == 0 && 0 <= i < 512 && IsGuard(ram[p][i]) :: GuardItem(Slot(p, i))
  }

  ghost function Items(ram: Ram, t: Tree): set<Item>
    requires TablesOk(ram, t)
  {
    Tables(t) + Guards(ram, t)
  }

  /** Page 0 is no table, and entries without R, W and X on level 0 point to page 0. */
  ghost predicate GuardsPointToNull(ram: Ram, t: Tree)
    requires TablesOk(ram, t)
  {
    && 0 !in t.level
    && forall p, i :: p in t.level && t.level[p] == 0 && 0 <= i < 512 && IsGuard(ram[p][i]) ==> PteNextPtb(ram[p][i]) == 0
  }

  /** The value pushed for an item. */
  function Pointer(u: Item): u64 {
    match u
    case TableItem(p) => p
    case GuardItem(_) => 0
  }

  /** The entry through which an item other than the root is found. */
  function SlotOf(t: Tree, u: Item): Slot {
    match u
    case TableItem(p) => if p in t.parent then t.parent[p] else Slot(0, 0)
    case GuardItem(s) => s
  }

  ghost predicate FoundAt(t: Tree, u: Item, table: u64, index: nat) {
    u != TableItem(t.root) && SlotOf(t, u) == Slot(table, index)
  }

  /** u is the root, or the entry that leads to it has been read: all entries of the tables in done,
      but of table cur only those below i. */
  ghost predicate Discovered(t: Tree, u: Item, done: set<Item>, cur: u64, i: nat) {
    || u == TableItem(t.root)
    || var s := SlotOf(t, u); TableItem(s.table) in done && (s.table != cur || s.index < i)
  }

  ghost predicate NoRepeats(s: seq<Item>) {
    forall i, j :: 0 <= i < j < |s| ==> s[i] != s[j]
  }

  /** An item has been discovered exactly if it waits on the stack or is done. */
  ghost predicate Accounted(t: Tree, u: Item, stack: seq<Item>, done: set<Item>, cur: u64, i: nat) {
    u in stack || u in done <==> Discovered(t, u, done, cur, i)
  }

  /** Each of these items is in the list, once, and nothing else is. */
  ghost predicate ExactlyOnce(visited: seq<Item>, items: set<Item>) {
    NoRepeats(visited) && forall u :: u in visited <==> u in items
  }

  lemma NoneVisited()
    ensures ExactlyOnce([], {})
  {
  }

  lemma Snoc(s: seq<Item>, x: Item)
    ensures forall u :: u in s + [x] <==> u in s || u == x
    ensures NoRepeats(s + [x]) <==> NoRepeats(s) && x !in s
  {
    assert (s + [x])[|s|] == x;
    if NoRepeats(s + [x]) {
      assert forall i :: 0 <= i < |s| ==> (s + [x])[i] == s[i];
      assert NoRepeats(s);
    }
  }

  /** State of the visit: stack holds what has been discovered and not yet been done. */
  ghost predicate Visiting(ram: Ram, t: Tree, stack: seq<Item>, done: set<Item>, cur: u64, i: nat)
    requires TablesOk(ram, t)
  {
    && NoRepeats(stack) && done <= Items(ram, t)
    && (forall u :: u in stack ==> u in Items(ram, t) && u !in done)
    && (forall u :: u in Items(ram, t) ==> Accounted(t, u, stack, done, cur, i))
  }

  /** A stack without repeats is no higher than the items left. */
  lemma {:induction false} StackFits(s: seq<Item>, all: set<Item>)
    requires NoRepeats(s) && forall u :: u in s ==> u in all
    ensures |s| <= |all|
  {
    if s != [] {
      var last := s[|s| - 1];
      StackFits(s[..|s| - 1], all - {last});
    }
  }

  lemma StackBound(ram: Ram, t: Tree, stack: seq<Item>, done: set<Item>, cur: u64, i: nat)
    requires TablesOk(ram, t) && Visiting(ram, t, stack, done, cur, i)
    ensures |stack| + |done| <= |Items(ram, t)|
  {
    StackFits(stack, Items(ram, t) - done);
  }

  /** The only item found at entry (cur, i), if any. */
  lemma ItemAt(ram: Ram, t: Tree, cur: u64, i: nat, u: Item)
    requires Wf(ram, t) && GuardsPointToNull(ram, t) && cur in t.level && i < 512
    requires u in Items(ram, t) && FoundAt(t, u, cur, i)
    ensures PteValid(ram[cur][i]) && !PteLeaf(ram[cur][i])
    ensures Pointer(u) == PteNextPtb(ram[cur][i])
    ensures u == if t.level[cur] > 0 then TableItem(PteNextPtb(ram[cur][i])) else GuardItem(Slot(cur, i))
  {
    match u
    case TableItem(p) => assert Attached(ram, t, p);
    case GuardItem(s) =>
  }

  /** A pointer entry leads to an item, found nowhere else. */
  lemma ItemOfEntry(ram: Ram, t: Tree, cur: u64, i: nat) returns (u: Item)
    requires Wf(ram, t) && GuardsPointToNull(ram, t) && cur in t.level && i < 512
    requires PteValid(ram[cur][i]) && !PteLeaf(ram[cur][i])
    ensures u in Items(ram, t) && FoundAt(t, u, cur, i) && Pointer(u) == PteNextPtb(ram[cur][i])
  {
    if t.level[cur] > 0 {
      assert EntryOk(t, cur, i, ram[cur][i]);
      u := TableItem(PteNextPtb(ram[cur][i]));
    } else {
      u := GuardItem(Slot(cur, i));
    }
  }

  /** Reading an entry that leads nowhere. */
  lemma SkipEntry(ram: Ram, t: Tree, stack: seq<Item>, done: set<Item>, cur: u64, i: nat)
    requires Wf(ram, t) && GuardsPointToNull(ram, t) && Visiting(ram, t, stack, done, cur, i)
    requires cur in t.level && i < 512 && (!PteValid(ram[cur][i]) || PteLeaf(ram[cur][i]))
    ensures Visiting(ram, t, stack, done, cur, i + 1)
  {
    forall u | u in Items(ram, t)
      ensures Accounted(t, u, stack, done, cur, i + 1)
    {
      assert Accounted(t, u, stack, done, cur, i);
      if FoundAt(t, u, cur, i) {
        ItemAt(ram, t, cur, i, u);
      }
    }
  }

  /** Reading a pointer entry discovers exactly one new item. */
  lemma PushEntry(ram: Ram, t: Tree, stack: seq<Item>, done: set<Item>, cur: u64, i: nat, u: Item)
    requires Wf(ram, t) && GuardsPointToNull(ram, t) && Visiting(ram, t, stack, done, cur, i)
    requires cur in t.level && i < 512 && TableItem(cur) in done
    requires u in Items(ram, t) && FoundAt(t, u, cur, i)
    ensures Visiting(ram, t, stack + [u], done, cur, i + 1)
    ensures |stack| + |done| < |Items(ram, t)|
  {
    hide EntriesOk, Attached, GuardsPointToNull, Items;
    Snoc(stack, u);
    assert Accounted(t, u, stack, done, cur, i);
    forall v | v in Items(ram, t)
      ensures Accounted(t, v, stack + [u], done, cur, i + 1)
    {
      assert Accounted(t, v, stack, done, cur, i);
      if FoundAt(t, v, cur, i) {
        ItemAt(ram, t, cur, i, u);
        ItemAt(ram, t, cur, i, v);
      }
    }
    StackBound(ram, t, stack + [u], done, cur, i + 1);
  }

  /** Between tables the choice of cur is immaterial once all its entries are read. */
  lemma TableFinished(ram: Ram, t: Tree, stack: seq<Item>, done: set<Item>, cur: u64, next: u64)
    requires Wf(ram, t) && GuardsPointToNull(ram, t) && Visiting(ram, t, stack, done, cur, 512)
    requires TableItem(next) !in done
    ensures Visiting(ram, t, stack, done, next, 0)
  {
  }

  lemma SlotInTree(ram: Ram, t: Tree, u: Item)
    requires Wf(ram, t) && u in Items(ram, t) && u != TableItem(t.root)
    ensures SlotOf(t, u).table in t.level && SlotOf(t, u).index < 512
  {
    match u
    case TableItem(p) => assert Attached(ram, t, p);
    case GuardItem(s) =>
  }

  /** When the stack is empty, everything has been visited. */
  lemma VisitComplete(ram: Ram, t: Tree, done: set<Item>, cur: u64)
    requires Wf(ram, t) && GuardsPointToNull(ram, t) && Visiting(ram, t, [], done, cur, 512)
    ensures done == Items(ram, t)
  {
    hide EntriesOk, Attached, GuardsPointToNull, Items;
    forall u | u in Items(ram, t) ensures u in done {
      assert Accounted(t, u, [], done, cur, 512);
      if u != TableItem(t.root) {
        SlotInTree(ram, t, u);
        TableVisited(ram, t, done, cur, SlotOf(t, u).table);
      }
    }
  }

  lemma ParentAbove(ram: Ram, t: Tree, u: Item)
    requires Wf(ram, t) && u in Items(ram, t) && u != TableItem(t.root)
    ensures SlotOf(t, u).table in t.level
    ensures u.TableItem? ==> t.level[SlotOf(t, u).table] == t.level[u.page] + 1
  {
    if u.TableItem? {
      assert Attached(ram, t, u.page);
      var s := t.parent[u.page];
      assert EntryOk(t, s.table, s.index, ram[s.table][s.index]);
    }
  }

  lemma {:induction false} TableVisited(ram: Ram, t: Tree, done: set<Item>, cur: u64, p: u64)
    requires Wf(ram, t) && Visiting(ram, t, [], done, cur, 512) && p in t.level
    ensures TableItem(p) in done
    decreases 2 - t.level[p]
  {
    var u := TableItem(p);
    assert u in Items(ram, t);
    if p != t.root {
      ParentAbove(ram, t, u);
      SlotInTree(ram, t, u);
      TableVisited(ram, t, done, cur, SlotOf(t, u).table);
    }
  }

  lemma VisitStart(ram: Ram, t: Tree)
    requires Wf(ram, t)
    ensures Visiting(ram, t, [TableItem(t.root)], {}, t.root, 512)
  {
    hide EntriesOk, Attached;
    forall u | u in Items(ram, t) ensures Accounted(t, u, [TableItem(t.root)], {}, t.root, 512) {
    }
  }

  /** Popping a table: its entries are all still unread. */
  lemma PopTable(ram: Ram, t: Tree, stack: seq<Item>, done: set<Item>, cur: u64, p: u64)
    requires Wf(ram, t) && GuardsPointToNull(ram, t)
    requires Visiting(ram, t, stack + [TableItem(p)], done, cur, 512)
    ensures p in t.level && TableItem(p) !in done
    ensures Visiting(ram, t, stack, done + {TableItem(p)}, p, 0)
  {
    hide EntriesOk, Attached, GuardsPointToNull, Items;
    var x := TableItem(p);
    Snoc(stack, x);
    assert x in stack + [x];
    TableFinished(ram, t, stack + [x], done, cur, p);
    forall u | u in Items(ram, t)
      ensures Accounted(t, u, stack, done + {x}, p, 0)
    {
      assert Accounted(t, u, stack + [x], done, p, 0);
    }
    InItems(ram, t, p);
  }

  lemma InItems(ram: Ram, t: Tree, p: u64)
    requires TablesOk(ram, t) && TableItem(p) in Items(ram, t)
    ensures p in t.level
  {
  }

  /** Popping the null pointer of a guard discovers nothing. */
  lemma PopGuard(ram: Ram, t: Tree, stack: seq<Item>, done: set<Item>, cur: u64, s: Slot)
    requires Wf(ram, t) && Visiting(ram, t, stack + [GuardItem(s)], done, cur, 512)
    ensures GuardItem(s) !in done
    ensures Visiting(ram, t, stack, done + {GuardItem(s)}, cur, 512)
  {
    hide EntriesOk, Attached, Items;
    var x := GuardItem(s);
    Snoc(stack, x);
    assert x in stack + [x];
    forall u | u in Items(ram, t)
      ensures Accounted(t, u, stack, done + {x}, cur, 512)
    {
      assert Accounted(t, u, stack + [x], done, cur, 512);
    }
  }

  lemma {:induction false} TableCount(level: map<u64, nat>)
    ensures |set p | p in level :: TableItem(p)| == |level|
  {
    if level != map[] {
      var p :| p in level;
      var rest := map q | q in level && q != p :: level[q];
      assert level.Keys == rest.Keys + {p};
      TableCount(rest);
      assert (set q | q in level :: TableItem(q)) == (set q | q in rest :: TableItem(q)) + {TableItem(p)};
    }
  }

  /** Items are the tables and the guards, counted once each. */
  lemma ItemCount(ram: Ram, t: Tree)
    requires TablesOk(ram, t)
    ensures |Items(ram, t)| == |t.level| + |Guards(ram, t)|
  {
    TableCount(t.level);
    assert Tables(t) !! Guards(ram, t);
  }

  /** The stack array holds the pointers of the items. */
  ghost predicate Holds(stack: seq<u64>, items: seq<Item>) {
    |stack| == |items| && forall k :: 0 <= k < |items| ==> stack[k] == Pointer(items[k])
  }

  lemma HoldsOne(p: u64)
    ensures Holds([p], [TableItem(p)])
  {
  }

  /** The top of the stack. */
  lemma HoldsLast(stack: seq<u64>, items: seq<Item>)
    requires Holds(stack, items)
    ensures |stack| == |items| && (stack == [] ==> items == [])
    ensures stack != [] ==>
              var n := |stack| - 1;
              && stack[n] == Pointer(items[n]) && Holds(stack[..n], items[..n]) && items == items[..n] + [items[n]]
  {
  }

  /** Lines 239-260: the loop over the entries of one table popped off the stack. */
  method ReadEntries(ram: Ram, ghost t: Tree, ptbp: u64, allocatedPtbs: array<u64>, top0: nat,
                     ghost items0: seq<Item>, ghost done: set<Item>, ghost cur: u64)
    returns (top: nat, ghost items: seq<Item>)
    requires Wf(ram, t) && GuardsPointToNull(ram, t) && |Items(ram, t)| <= 512
    requires allocatedPtbs.Length == 512 && top0 <= 512 && Holds(allocatedPtbs[..top0], items0)
    requires Visiting(ram, t, items0, done, cur, if ptbp == 0 then 512 else 0)
    requires ptbp != 0 ==> ptbp == cur && cur in t.level && TableItem(cur) in done
    modifies allocatedPtbs
    ensures top <= 512 && Holds(allocatedPtbs[..top], items)
    ensures Visiting(ram, t, items, done, cur, 512)
  {
    hide EntriesOk, Attached, GuardsPointToNull, Visiting, Items, PteValid, PteLeaf, PteNextPtb;
    top, items := top0, items0;
    var i := 0;
    while i < 512
      invariant 0 <= i <= 512 && top <= 512 && Holds(allocatedPtbs[..top], items)
      invariant Visiting(ram, t, items, done, cur, if ptbp == 0 then 512 else i)
    {
      if ptbp == 0 {
        i := i + 1;
        continue;
      }
      var pte := ram[ptbp][i];
      if !PteValid(pte) {
        SkipEntry(ram, t, items, done, cur, i);
        i := i + 1;
        continue;
      }
      if PteLeaf(pte) {
        SkipEntry(ram, t, items, done, cur, i);
      } else {
        ghost var found := ItemOfEntry(ram, t, cur, i);
        PushEntry(ram, t, items, done, cur, i, found);
        allocatedPtbs[top] := PteNextPtb(pte);
        top := top + 1;
        items := items + [found];
      }
      i := i + 1;
    }
  }

  /** Popping either kind of item: it is visited now, and was not before. */
  lemma PopItem(ram: Ram, t: Tree, stack: seq<Item>, done: set<Item>, cur: u64, item: Item, visited: seq<Item>)
    requires Wf(ram, t) && GuardsPointToNull(ram, t)
    requires Visiting(ram, t, stack + [item], done, cur, 512)
    requires ExactlyOnce(visited, done)
    ensures item !in done && |stack| + |done + {item}| <= |Items(ram, t)|
    ensures ExactlyOnce(visited + [item], done + {item})
    ensures item.TableItem? ==> item.page in t.level && Visiting(ram, t, stack, done + {item}, item.page, 0)
    ensures item.GuardItem? ==> Visiting(ram, t, stack, done + {item}, cur, 512)
  {
    hide EntriesOk, Attached, GuardsPointToNull, Items, Visiting, NoRepeats;
    Snoc(visited, item);
    if item.TableItem? {
      PopTable(ram, t, stack, done, cur, item.page);
      StackBound(ram, t, stack, done + {item}, item.page, 0);
    } else {
      PopGuard(ram, t, stack, done, cur, item.slot);
      StackBound(ram, t, stack, done + {item}, cur, 512);
    }
  }

  /** dump_ptbs(): visits every table and every guard exactly once, and counts them. */
  method DumpPtbs(ram: Ram, kernelRootPtb: u64, ghost t: Tree)
    returns (totalPtbs: nat, ghost visited: seq<Item>)
    requires Wf(ram, t) && kernelRootPtb == t.root && GuardsPointToNull(ram, t)
    requires |t.level| + |Guards(ram, t)| <= 512
    ensures ExactlyOnce(visited, Items(ram, t))
    ensures totalPtbs == |t.level| + |Guards(ram, t)|
  {
    hide EntriesOk, Attached, Visiting, Items, Guards, NoRepeats, ExactlyOnce, Holds;
    ItemCount(ram, t);
    NoneVisited();
    var allocatedPtbs := new u64[512];
    var top: nat := 0;
    totalPtbs, visited := 0, [];
    allocatedPtbs[top] := kernelRootPtb;
    top := top + 1;
    ghost var items: seq<Item>, done: set<Item>, cur: u64 := [TableItem(t.root)], {}, t.root;
    VisitStart(ram, t);
    HoldsOne(t.root);
    assert allocatedPtbs[..top] == [t.root];
    while top > 0
      invariant top <= 512 && Holds(allocatedPtbs[..top], items)
      invariant Visiting(ram, t, items, done, cur, 512)
      invariant totalPtbs == |visited| == |done|
      invariant ExactlyOnce(visited, done)
      decreases |Items(ram, t)| - |done|
    {
      totalPtbs := totalPtbs + 1;
      HoldsLast(allocatedPtbs[..top], items);
      assert allocatedPtbs[..top][..top - 1] == allocatedPtbs[..top - 1];
      top := top - 1;
      var ptbp := allocatedPtbs[top];
      ghost var item := items[top];
      items := items[..top];
      PopItem(ram, t, items, done, cur, item, visited);
      cur := if item.TableItem? then item.page else cur;
      done := done + {item};
      visited := visited + [item];
      top, items := ReadEntries(ram, t, ptbp, allocatedPtbs, top, items, done, cur);
    }
    HoldsLast(allocatedPtbs[..top], items);
    VisitComplete(ram, t, done, cur);
  }
}

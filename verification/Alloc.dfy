/** src/alloc.c: the physical page allocator, a stack of free page addresses in an array. */
module Alloc {
  import opened Bits64
  import opened Pgtable

  const ALLOC_LIST_SIZE := 4096 * 8

  /** Result of a C function that may run into BUG(), or access a page that does not exist.  Under
      BUG_PANIC the hart stops at a BugHit; under BUG_LOG the function returns its error value (0 or -1). */
  datatype Outcome<+T> = Done(value: T) | BugHit | AccessFault

  /** The fields of struct alloc_t. */
  datatype AllocState = AllocState(list: seq<u64>, next: nat, initialized: bool)

  ghost predicate WellSized(s: AllocState) {
    |s.list| == ALLOC_LIST_SIZE && s.next < ALLOC_LIST_SIZE
  }

  /** Entry i of the list that alloc_init() builds, with u64 wrap-around. */
  function PoolPage(start: u64, i: nat): u64 {
    (start + i * PAGE_SIZE) % WORD
  }

  function Pool(start: u64): (r: seq<u64>)
    ensures |r| == ALLOC_LIST_SIZE && forall i :: 0 <= i < ALLOC_LIST_SIZE ==> r[i] == PoolPage(start, i)
  {
    seq(ALLOC_LIST_SIZE, i requires 0 <= i => PoolPage(start, i))
  }

  function AfterGet(s: AllocState): (r: AllocState)
    requires WellSized(s)
  {
    var cleared: seq<u64> := s.list[s.next := 0];
    AllocState(cleared, s.next + 1, s.initialized)
  }

  function AfterFree(s: AllocState, pa: u64): AllocState
    requires WellSized(s) && s.next > 0
  {
    var pushed: seq<u64> := s.list[s.next - 1 := pa];
    AllocState(pushed, s.next - 1, s.initialized)
  }

  predicate CanGet(s: AllocState) {
    s.initialized && s.next != ALLOC_LIST_SIZE - 1
  }

  predicate CanFree(s: AllocState, pa: u64) {
    s.initialized && IsAligned(pa) && s.next != 0
  }

  class Allocator {
    const list: array<u64>
    var next: nat
    var initialized: bool

    ghost predicate Valid()
      reads this
    {
      list.Length == ALLOC_LIST_SIZE && next < ALLOC_LIST_SIZE
    }

    ghost function State(): AllocState
      reads this, list
    {
      AllocState(list[..], next, initialized)
    }

    /** The zero-initialised global. */
    constructor ()
      ensures Valid() && !initialized && next == 0 && fresh(list)
    {
      list := new u64[ALLOC_LIST_SIZE](_ => 0);
      next := 0;
      initialized := false;
    }

    method Init(start: u64) returns (r: Outcome<int>)
      requires Valid()
      modifies this, list
      ensures Valid()
      ensures r == if IsAligned(start) then Done(0) else BugHit
      ensures State() == if IsAligned(start) then AllocState(Pool(start), 0, true) else old(State())
      ensures r.Done? ==> forall i :: 0 <= i < 32768 ==> list[i] == (start + 4096 * i) % 0x1_0000_0000_0000_0000
    {
      if !IsAligned(start) {
        return BugHit;
      }
      var i := 0;
      while i < ALLOC_LIST_SIZE
        invariant 0 <= i <= ALLOC_LIST_SIZE
        invariant forall k :: 0 <= k < i ==> list[k] == PoolPage(start, k)
      {
        list[i] := (start + i * PAGE_SIZE) % WORD;
        i := i + 1;
      }
      next := 0;
      initialized := true;
      assert list[..] == Pool(start);
      return Done(0);
    }

    method GetPage() returns (r: Outcome<u64>)
      requires Valid()
      modifies this, list
      ensures Valid()
      ensures r == if CanGet(old(State())) then Done(old(list[next])) else BugHit
      ensures State() == if CanGet(old(State())) then AfterGet(old(State())) else old(State())
      ensures r.Done? <==> old(initialized) && old(next) < 32767
      ensures r.Done? ==> next == old(next) + 1 && list[old(next)] == 0
      ensures forall i :: 0 <= i < 32768 && (r.BugHit? || i != old(next)) ==> list[i] == old(list[i])
    {
      if !initialized {
        return BugHit;
      }
      if next == ALLOC_LIST_SIZE - 1 {
        return BugHit;
      }
      var pa := list[next];
      list[next] := 0;
      next := next + 1;
      return Done(pa);
    }

    method FreePage(pa: u64) returns (r: Outcome<int>)
      requires Valid()
      modifies this, list
      ensures Valid()
      ensures r == if CanFree(old(State()), pa) then Done(0) else BugHit
      ensures State() == if CanFree(old(State()), pa) then AfterFree(old(State()), pa) else old(State())
      ensures r.Done? <==> old(initialized) && pa % 4096 == 0 && old(next) > 0
      ensures r.Done? ==> next == old(next) - 1 && list[next] == pa
      ensures forall i :: 0 <= i < 32768 && (r.BugHit? || i != next) ==> list[i] == old(list[i])
    {
      if !initialized {
        return BugHit;
      }
      if !IsAligned(pa) {
        return BugHit;
      }
      if next == 0 {
        return BugHit;
      }
      next := next - 1;
      list[next] := pa;
      return Done(0);
    }
  }

  // ---- Conservation ----

  ghost predicate NoDuplicates(s: seq<u64>) {
    forall i, j :: 0 <= i < j < |s| ==> s[i] != s[j]
  }

  function Elements(s: seq<u64>): set<u64> {
    set x | x in s
  }

  /** Held pages and free pages split the pool: nothing is lost, doubled, or both free and held. */
  ghost predicate Conserved(pool: set<u64>, s: AllocState, held: set<u64>) {
    && WellSized(s) && s.initialized
    && var free := s.list[s.next..];
    && NoDuplicates(free)
    && Elements(free) !! held
    && Elements(free) + held == pool
    && |held| == s.next
    && forall p :: p in pool ==> p % PAGE_SIZE == 0
  }

  /** What callers may do: take a page, or give back a page they hold. */
  datatype Op = Get | Free(pa: u64)

  datatype Client = Client(alloc: AllocState, held: set<u64>)

  ghost predicate Allowed(c: Client, op: Op) {
    op.Free? ==> op.pa in c.held
  }

  /** Effect of one call; a call that runs into BUG() changes nothing. */
  function Effect(c: Client, op: Op): Client
    requires WellSized(c.alloc)
  {
    match op
    case Get =>
      if CanGet(c.alloc) then Client(AfterGet(c.alloc), c.held + {c.alloc.list[c.alloc.next]}) else c
    case Free(pa) =>
      if CanFree(c.alloc, pa) then Client(AfterFree(c.alloc, pa), c.held - {pa}) else c
  }

  /** c2 is reachable from c by the calls ops, each one allowed when it is made. */
  ghost predicate Run(c: Client, ops: seq<Op>, c2: Client)
    decreases |ops|
  {
    if ops == [] then c == c2
    else
      var last := ops[|ops| - 1];
      exists m: Client :: Run(c, ops[..|ops| - 1], m) && WellSized(m.alloc) && Allowed(m, last) && c2 == Effect(m, last)
  }

  lemma HeadOfFree(free: seq<u64>)
    requires |free| > 0 && NoDuplicates(free)
    ensures Elements(free) == {free[0]} + Elements(free[1..])
    ensures free[0] !in Elements(free[1..]) && NoDuplicates(free[1..])
  {
    assert free == [free[0]] + free[1..];
  }

  lemma PushOnFree(pa: u64, free: seq<u64>)
    requires NoDuplicates(free) && pa !in Elements(free)
    ensures NoDuplicates([pa] + free) && Elements([pa] + free) == {pa} + Elements(free)
  {
    forall i, j | 0 <= i < j < |free| + 1 ensures ([pa] + free)[i] != ([pa] + free)[j] {
      assert free[j - 1] in Elements(free);
    }
  }

  lemma FreeListAfterGet(s: AllocState)
    requires WellSized(s) && s.next != ALLOC_LIST_SIZE - 1
    ensures WellSized(AfterGet(s))
    ensures s.list[s.next..] == [s.list[s.next]] + AfterGet(s).list[s.next + 1..]
  {
  }

  lemma MoveOut(free: set<u64>, held: set<u64>, pa: u64)
    requires ({pa} + free) !! held && pa !in free
    ensures free !! (held + {pa}) && free + (held + {pa}) == {pa} + free + held
    ensures |held + {pa}| == |held| + 1
  {
  }

  /** A page handed out was free: aligned, in the pool, and held by nobody. */
  lemma GetConserves(pool: set<u64>, c: Client)
    requires Conserved(pool, c.alloc, c.held) && CanGet(c.alloc)
    ensures var page := c.alloc.list[c.alloc.next];
            page in pool && page !in c.held && page % PAGE_SIZE == 0
    ensures Conserved(pool, Effect(c, Get).alloc, Effect(c, Get).held)
  {
    var free := c.alloc.list[c.alloc.next..];
    FreeListAfterGet(c.alloc);
    HeadOfFree(free);
    assert free[1..] == AfterGet(c.alloc).list[c.alloc.next + 1..];
    assert free[0] in Elements(free);
    MoveOut(Elements(free[1..]), c.held, free[0]);
  }

  lemma MoveBack(free: set<u64>, held: set<u64>, pa: u64)
    requires free !! held && pa in held
    ensures ({pa} + free) !! (held - {pa})
    ensures ({pa} + free) + (held - {pa}) == free + held
    ensures |held - {pa}| == |held| - 1
  {
  }

  lemma FreeListAfterFree(s: AllocState, pa: u64)
    requires WellSized(s) && s.next > 0
    ensures WellSized(AfterFree(s, pa))
    ensures AfterFree(s, pa).list[s.next - 1..] == [pa] + s.list[s.next..]
  {
  }

  lemma FreeConserves(pool: set<u64>, c: Client, pa: u64)
    requires Conserved(pool, c.alloc, c.held) && pa in c.held
    ensures CanFree(c.alloc, pa)
    ensures Conserved(pool, Effect(c, Free(pa)).alloc, Effect(c, Free(pa)).held)
  {
    assert pa in pool;
    var free := c.alloc.list[c.alloc.next..];
    MoveBack(Elements(free), c.held, pa);
    PushOnFree(pa, free);
    FreeListAfterFree(c.alloc, pa);
  }

  /** Over every allowed sequence of calls the pool is conserved. */
  lemma {:induction false} RunConserves(pool: set<u64>, c: Client, ops: seq<Op>, c2: Client)
    requires Conserved(pool, c.alloc, c.held) && Run(c, ops, c2)
    ensures Conserved(pool, c2.alloc, c2.held)
    decreases |ops|
  {
    if ops != [] {
      var last := ops[|ops| - 1];
      var m: Client :| Run(c, ops[..|ops| - 1], m) && WellSized(m.alloc) && Allowed(m, last) && c2 == Effect(m, last);
      RunConserves(pool, c, ops[..|ops| - 1], m);
      match last
      case Get =>
        if CanGet(m.alloc) {
          GetConserves(pool, m);
        }
      case Free(pa) =>
        FreeConserves(pool, m, pa);
    }
  }

  /** The state after n successful calls. */
  function AfterGets(s: AllocState, n: nat): AllocState
    requires WellSized(s) && s.next + n < ALLOC_LIST_SIZE
    ensures WellSized(AfterGets(s, n)) && AfterGets(s, n).next == s.next + n
  {
    if n == 0 then s else AfterGet(AfterGets(s, n - 1))
  }

  lemma {:induction false} AfterGetsKeep(s: AllocState, n: nat, i: nat)
    requires WellSized(s) && s.next + n < ALLOC_LIST_SIZE && s.next + n <= i < ALLOC_LIST_SIZE
    ensures AfterGets(s, n).list[i] == s.list[i] && AfterGets(s, n).initialized == s.initialized
  {
    if n > 0 {
      AfterGetsKeep(s, n - 1, i);
    }
  }

  /** A new allocator hands out 32767 pages, not one less or more, and the n-th of them is start + 4096 * n. */
  lemma Capacity(start: u64, n: nat)
    requires n <= 32767
    ensures var s := AfterGets(AllocState(Pool(start), 0, true), n);
            && (CanGet(s) <==> n < 32767)
            && s.list[s.next] == (start + 4096 * n) % 0x1_0000_0000_0000_0000
  {
    AfterGetsKeep(AllocState(Pool(start), 0, true), n, n);
  }

  lemma PoolPagesDistinct(start: u64, i: nat, j: nat)
    requires i < j < ALLOC_LIST_SIZE
    ensures PoolPage(start, i) != PoolPage(start, j)
  {
  }

  lemma PoolPageAligned(start: u64, i: nat)
    requires IsAligned(start)
    ensures PoolPage(start, i) % PAGE_SIZE == 0
  {
    assert (start + i * 4096) % WORD % 4096 == 0;
  }

  /** A freshly initialised allocator satisfies conservation with nobody holding a page. */
  lemma InitConserves(start: u64)
    requires IsAligned(start)
    ensures Conserved(Elements(Pool(start)), AllocState(Pool(start), 0, true), {})
  {
    hide PoolPage, IsAligned;
    var list := Pool(start);
    assert list[0..] == list;
    forall i, j | 0 <= i < j < |list| ensures list[i] != list[j] {
      PoolPagesDistinct(start, i, j);
    }
    forall p | p in Elements(list) ensures p % PAGE_SIZE == 0 {
      var i :| 0 <= i < |list| && list[i] == p;
      PoolPageAligned(start, i);
    }
  }
}

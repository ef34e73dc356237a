/**
 Ranges of pages: the loop of `pageTable_addPage`, and the lookup the fault handler uses.
 */
module PageRange {
  import opened Arith
  import opened PageTable
  import opened PageMap

  /** Which page of the given size va lies in; translation looks at 48 bits. */
  function PageNo(target: nat, va: nat): nat {
    va % 0x1_0000_0000_0000 / EntrySize(target)
  }

  lemma PageNoSplits(va: nat)
    ensures PageNo(4, va) == Index(4, va)
    ensures PageNo(3, va) == PageNo(4, va) * 512 + Index(3, va)
    ensures PageNo(2, va) == PageNo(3, va) * 512 + Index(2, va)
    ensures PageNo(1, va) == PageNo(2, va) * 512 + Index(1, va)
  {
    PageNoTop(va);
    PageNoStep(va % 0x1_0000_0000_0000);
    SameLowIndices(va);
  }

  lemma PageNoTop(va: nat)
    ensures va % 0x1_0000_0000_0000 / 0x80_0000_0000 == va / 0x80_0000_0000 % 512
  {
  }

  lemma SameLowIndices(va: nat)
    ensures var a := va % 0x1_0000_0000_0000;
      a / 0x4000_0000 % 512 == va / 0x4000_0000 % 512 && a / 0x20_0000 % 512 == va / 0x20_0000 % 512
      && a / 0x1000 % 512 == va / 0x1000 % 512
  {
    SameLow(va, 0x4000_0000, 0x4_0000);
    SameLow(va, 0x20_0000, 0x800_0000);
    SameLow(va, 0x1000, 0x10_0000_0000);
  }

  lemma SameLow(va: nat, size: nat, pages: nat)
    requires (size == 0x4000_0000 && pages == 0x4_0000) || (size == 0x20_0000 && pages == 0x800_0000) || (size == 0x1000 && pages == 0x10_0000_0000)
    ensures va % 0x1_0000_0000_0000 / size % 512 == va / size % 512
  {
    assert pages * size == 0x1_0000_0000_0000;
    SameLowPages(va, 0x1_0000_0000_0000, size, pages);
    assert pages == pages / 512 * 512;
    WholeTables(va / 0x1_0000_0000_0000, pages / 512, va % 0x1_0000_0000_0000 / size);
  }

  lemma WholeTables(q: nat, h: nat, s: nat)
    ensures (q * (h * 512) + s) % 512 == s % 512
  {
    assert q * (h * 512) == (q * h) * 512;
    var k := q * h;
    assert (k * 512 + s) % 512 == s % 512;
  }

  lemma SameLowPages(va: nat, span: nat, size: nat, pages: nat)
    requires size > 0 && span == pages * size && span > 0
    ensures va / size == va / span * pages + va % span / size
  {
    var q, r := va / span, va % span;
    DivMod(va, span);
    DivMod(r, size);
    Associate(q, pages, size);
    Distribute(q * pages, r / size, size);
    Quotient(va, size, q * pages + r / size, r % size);
  }

  lemma Quotient(va: nat, size: nat, s: int, t: nat)
    requires size > 0 && t < size && s >= 0 && va == s * size + t
    ensures va / size == s
  {
    DivModUnique(va, size, s, t);
  }

  lemma PageNoStep(a: nat)
    ensures a / 0x4000_0000 == a / 0x80_0000_0000 * 512 + a / 0x4000_0000 % 512
    ensures a / 0x20_0000 == a / 0x4000_0000 * 512 + a / 0x20_0000 % 512
    ensures a / 0x1000 == a / 0x20_0000 * 512 + a / 0x1000 % 512
  {
    NestedIndex(a);
  }

  /** Two addresses take the same slots exactly when they lie in the same page. */
  lemma SlotsArePages(target: nat, va: nat, va': nat)
    requires 1 <= target <= 4
    ensures SameSlots(4, target, va, va') <==> PageNo(target, va) == PageNo(target, va')
  {
    PageNoSplits(va);
    PageNoSplits(va');
    assert SameSlots(4, target, va, va') <==> Index(4, va) == Index(4, va') && SameSlots(3, target, va, va');
    assert target <= 3 ==> (SameSlots(3, target, va, va') <==> Index(3, va) == Index(3, va') && SameSlots(2, target, va, va'));
    assert target <= 2 ==> (SameSlots(2, target, va, va') <==> Index(2, va) == Index(2, va') && SameSlots(1, target, va, va'));
    assert target <= 1 ==> (SameSlots(1, target, va, va') <==> Index(1, va) == Index(1, va'));
  }

  lemma PageNoAdvances(target: nat, va: nat, i: nat)
    requires 1 <= target <= 3 && va % 0x1_0000_0000_0000 + i * EntrySize(target) < 0x1_0000_0000_0000
    ensures PageNo(target, va + i * EntrySize(target)) == PageNo(target, va) + i
  {
    var size := EntrySize(target);
    var q, r := va / 0x1_0000_0000_0000, va % 0x1_0000_0000_0000;
    assert va + i * size == q * 0x1_0000_0000_0000 + (r + i * size);
    LowPart(q, r + i * size);
    if target == 3 {
      assert (r + i * 0x4000_0000) / 0x4000_0000 == r / 0x4000_0000 + i;
    } else if target == 2 {
      assert (r + i * 0x20_0000) / 0x20_0000 == r / 0x20_0000 + i;
    } else {
      assert (r + i * 0x1000) / 0x1000 == r / 0x1000 + i;
    }
  }

  lemma LowPart(q: nat, r: nat)
    requires r < 0x1_0000_0000_0000
    ensures (q * 0x1_0000_0000_0000 + r) % 0x1_0000_0000_0000 == r
  {
  }

  /** A number as a 64-bit word. */
  function Word(n: nat): bv64 {
    if n < 0x1_0000_0000_0000_0000 then n as bv64 else (n % 0x1_0000_0000_0000_0000) as bv64
  }

  lemma WordOfAddress(c: bv64)
    ensures Word(Addr(c)) == c
  {
  }

  /** `pageTable_find_entry` on a possibly absent root. */
  function Translate(mem: Memory, root: nat, top: nat, va: nat): Lookup {
    if root == 0 then Unmapped else Walk(mem, root, top, va)
  }

  ghost function RootTables(mem: Memory, root: nat, top: nat): set<nat> {
    if root == 0 then {} else Tables(mem, root, top)
  }

  /** A usable address space: no root yet, or a tree clear of the pool. */
  ghost predicate SpaceOk(mem: Memory, pool: seq<bv64>, root: nat, top: nat) {
    if root == 0 then PoolOk(mem, pool) else Ready(mem, pool, root, top)
  }

  /** Pages 0..count of the range translate to their frames; every other address as before. */
  ghost predicate MapsRange(mem: Memory, root: nat, mem': Memory, root': nat, top: nat, va: nat, target: nat,
                            pageNumber: nat, flags: bv64, count: nat) {
    forall va' :: Translate(mem', root', top, va') == RangeLookup(mem, root, top, va, target, pageNumber, flags, count, va')
  }

  function RangeLookup(mem: Memory, root: nat, top: nat, va: nat, target: nat,
                       pageNumber: nat, flags: bv64, count: nat, va': nat): Lookup {
    var k := PageNo(target, va') - PageNo(target, va);
    if 0 <= k < count then Leaf(LeafEntry(Word((pageNumber + k) * EntrySize(target)), target, flags), EntrySize(target))
    else Translate(mem, root, top, va')
  }

  /** Only the space's own tables and frames just taken were written or added. */
  ghost predicate OwnOnly(mem: Memory, pool: seq<bv64>, root: nat, mem': Memory, pool': seq<bv64>, root': nat, top: nat) {
    && pool' <= pool && mem'.Keys == mem.Keys
    && (forall a :: a in RootTables(mem', root', top) ==> a in RootTables(mem, root, top) || Popped(pool, pool', a))
    && (forall a :: a in mem && a !in RootTables(mem, root, top) && !Popped(pool, pool', a) ==> mem'[a] == mem[a])
  }

  lemma RangeStep(mem0: Memory, root0: nat, mem1: Memory, mem2: Memory, root: nat, top: nat, va: nat, target: nat,
                  pageNumber: nat, flags: bv64, i: nat, phys: bv64)
    requires phys == Word((pageNumber + i) * EntrySize(target)) && root != 0 && top == 4 && 1 <= target <= 3
    requires va % 0x1_0000_0000_0000 + i * EntrySize(target) < 0x1_0000_0000_0000
    requires MapsRange(mem0, root0, mem1, root, top, va, target, pageNumber, flags, i)
    requires MapsPage(mem1, mem2, root, top, va + i * EntrySize(target), target, LeafEntry(phys, target, flags))
    ensures MapsRange(mem0, root0, mem2, root, top, va, target, pageNumber, flags, i + 1)
  {
    hide Walk, SameSlots, LeafEntry, Word, EntrySize, PageNo;
    PageNoAdvances(target, va, i);
    forall va'
      ensures Translate(mem2, root, top, va') == RangeLookup(mem0, root0, top, va, target, pageNumber, flags, i + 1, va')
    {
      SlotsArePages(target, va + i * EntrySize(target), va');
      assert Translate(mem1, root, top, va') == RangeLookup(mem0, root0, top, va, target, pageNumber, flags, i, va');
    }
  }

  /** No page of the range lies inside a larger mapped page. */
  ghost predicate NoLargerLeaves(mem: Memory, root: nat, top: nat, va: nat, target: nat, count: nat) {
    forall i :: 0 <= i < count ==> NoLarger(mem, root, top, va + i * EntrySize(target), target)
  }

  predicate NoLarger(mem: Memory, root: nat, top: nat, va: nat, target: nat) {
    var l := Translate(mem, root, top, va);
    l.Leaf? ==> l.size <= EntrySize(target)
  }

  lemma StillNoLarger(mem0: Memory, root0: nat, mem1: Memory, root: nat, top: nat, va: nat, target: nat,
                      pageNumber: nat, flags: bv64, count: nat, i: nat)
    requires root != 0 && MapsRange(mem0, root0, mem1, root, top, va, target, pageNumber, flags, i)
    requires NoLargerLeaves(mem0, root0, top, va, target, count) && i < count
    ensures NoLargerLeaf(mem1, root, top, va + i * EntrySize(target), target)
  {
    hide Walk, LeafEntry, Word, EntrySize, PageNo;
    var cur := va + i * EntrySize(target);
    assert NoLarger(mem0, root0, top, cur, target);
    assert Translate(mem1, root, top, cur) == RangeLookup(mem0, root0, top, va, target, pageNumber, flags, i, cur);
  }

  /** A first, zeroed root is an address space that maps nothing. */
  lemma FreshRoot(mem: Memory, pool: seq<bv64>, top: nat, c: bv64)
    requires PoolOk(mem, pool) && |pool| > 0 && c == pool[|pool| - 1] && 1 <= top <= 4
    ensures c != 0 ==> Addr(c) != 0
    ensures var mem' := mem[Addr(c) := ZeroFrame()]; var pool' := pool[..|pool| - 1];
      && Ready(mem', pool', Addr(c), top) && Tables(mem', Addr(c), top) == {Addr(c)}
      && (forall va :: Walk(mem', Addr(c), top, va) == Unmapped)
      && Popped(pool, pool', Addr(c)) && mem'.Keys == mem.Keys
  {
    hide Aligned;
    EmptyTable(mem[Addr(c) := ZeroFrame()], Addr(c), top);
  }

  /** The next page of the range still translates as at the start. */
  lemma NotYetMapped(mem0: Memory, root0: nat, mem1: Memory, mem2: Memory, root: nat, top: nat, va: nat, target: nat,
                     pageNumber: nat, flags: bv64, i: nat)
    requires root != 0 && 1 <= target <= 3 && va % 0x1_0000_0000_0000 + i * EntrySize(target) < 0x1_0000_0000_0000
    requires MapsRange(mem0, root0, mem1, root, top, va, target, pageNumber, flags, i) && SameTranslation(mem1, mem2, root, top)
    ensures var cur := va + i * EntrySize(target); Translate(mem0, root0, top, cur) == Walk(mem2, root, top, cur)
  {
    hide Walk, LeafEntry, Word, EntrySize, PageNo;
    var cur := va + i * EntrySize(target);
    PageNoAdvances(target, va, i);
    assert Translate(mem1, root, top, cur) == RangeLookup(mem0, root0, top, va, target, pageNumber, flags, i, cur);
  }

  lemma NothingMapped(mem: Memory, pool: seq<bv64>, root: nat, top: nat, va: nat, target: nat, pageNumber: nat, flags: bv64)
    ensures OwnOnly(mem, pool, root, mem, pool, root, top)
    ensures MapsRange(mem, root, mem, root, top, va, target, pageNumber, flags, 0)
  {
    hide Walk, Tables;
  }

  /** The first step on a space without a root. */
  lemma StartRoot(mem: Memory, pool: seq<bv64>, top: nat, c: bv64, va: nat, target: nat, pageNumber: nat, flags: bv64)
    requires SpaceOk(mem, pool, 0, top) && |pool| > 0 && c == pool[|pool| - 1] && 1 <= top <= 4
    ensures var mem' := mem[Addr(c) := ZeroFrame()]; var pool' := pool[..|pool| - 1];
      && c != 0 && Addr(c) != 0 && Ready(mem', pool', Addr(c), top)
      && OwnOnly(mem, pool, 0, mem', pool', Addr(c), top)
      && MapsRange(mem, 0, mem', Addr(c), top, va, target, pageNumber, flags, 0)
  {
    hide Walk, Tables, Ready, TreeOk, Addr, ZeroFrame, LeafEntry, EntrySize;
    FreshRoot(mem, pool, top, c);
  }

  lemma StepOwnOnly(mem0: Memory, pool0: seq<bv64>, root0: nat, mem1: Memory, pool1: seq<bv64>, mem2: Memory, pool2: seq<bv64>, root: nat, top: nat)
    requires OwnOnly(mem0, pool0, root0, mem1, pool1, root, top) && root != 0
    requires OnlyOwn(mem1, pool1, root, top, mem2, pool2)
    ensures OwnOnly(mem0, pool0, root0, mem2, pool2, root, top)
  {
    hide Tables, Addr;
    forall a
      ensures Popped(pool0, pool1, a) || Popped(pool1, pool2, a) ==> Popped(pool0, pool2, a)
    {
      if Popped(pool1, pool2, a) {
        var k :| |pool2| <= k < |pool1| && Addr(pool1[k]) == a;
        assert pool0[k] == pool1[k];
      }
    }
  }

  lemma StillMaps(mem0: Memory, root0: nat, mem1: Memory, mem2: Memory, root: nat, top: nat, va: nat, target: nat,
                  pageNumber: nat, flags: bv64, i: nat)
    requires MapsRange(mem0, root0, mem1, root, top, va, target, pageNumber, flags, i) && SameTranslation(mem1, mem2, root, top)
    ensures MapsRange(mem0, root0, mem2, root, top, va, target, pageNumber, flags, i)
  {
    hide Walk, LeafEntry, Word, EntrySize, PageNo;
    forall va'
      ensures Translate(mem2, root, top, va') == RangeLookup(mem0, root0, top, va, target, pageNumber, flags, i, va')
    {
      assert Translate(mem1, root, top, va') == RangeLookup(mem0, root0, top, va, target, pageNumber, flags, i, va');
    }
  }

  lemma SpaceIsReady(mem: Memory, pool: seq<bv64>, root: nat, top: nat)
    ensures root != 0 ==> SpaceOk(mem, pool, root, top) == Ready(mem, pool, root, top)
    ensures root == 0 && pool == [] ==> SpaceOk(mem, pool, root, top)
  {
  }

  lemma RangeBound(va: nat, i: nat, count: nat, target: nat)
    requires (PageNo(target, va) + count) * EntrySize(target) <= 0x1_0000_0000_0000 && i < count
    ensures va % 0x1_0000_0000_0000 + i * EntrySize(target) < 0x1_0000_0000_0000
  {
    hide EntrySize;
    var low, size := va % 0x1_0000_0000_0000, EntrySize(target);
    DivMod(low, size);
    MulMonotone(low / size + i + 1, low / size + count, size);
    Distribute(low / size, i, size);
  }

  /** A process's `page_table`: the address of its root, or 0. */
  class RootRef {
    var root: nat
  }

  // ---------------------------------------------------------------- how many frames a range takes

  /** Is there a table of level k for va? */
  predicate HasTable(mem: Memory, root: nat, va: nat, k: nat) {
    root != 0 && OnPath(mem, root, 4, va, k)
  }

  /** Does one of the first i pages of the range go through the table of level k for va'? */
  ghost predicate Touched(va: nat, target: nat, i: nat, va': nat, k: nat) {
    exists j :: 0 <= j < i && PageNo(k + 1, va + j * EntrySize(target)) == PageNo(k + 1, va')
  }

  /** The tables of levels `level` to 3 that page i needs and neither the tree nor an earlier page of the range provides. */
  ghost function NewTables(mem: Memory, root: nat, va: nat, target: nat, i: nat, level: nat): nat
    decreases 4 - level
  {
    var cur := va + i * EntrySize(target);
    if level > 3 || HasTable(mem, root, cur, level) || Touched(va, target, i, cur, level) then 0
    else 1 + NewTables(mem, root, va, target, i, level + 1)
  }

  /** The frames the first i pages of the range take: a root if there is none, and the new tables. */
  ghost function Frames(mem: Memory, root: nat, va: nat, target: nat, i: nat): nat {
    if i == 0 then if root == 0 then 1 else 0 else Frames(mem, root, va, target, i - 1) + NewTables(mem, root, va, target, i - 1, target)
  }

  /** The tables there after i pages. */
  ghost predicate RangePaths(mem: Memory, root: nat, mem': Memory, root': nat, va: nat, target: nat, i: nat) {
    forall va', k: nat :: target <= k <= 3 ==>
      (OnPath(mem', root', 4, va', k) <==> HasTable(mem, root, va', k) || Touched(va, target, i, va', k))
  }

  lemma NoneTouched(mem: Memory, root: nat, va: nat, target: nat)
    requires root != 0
    ensures RangePaths(mem, root, mem, root, va, target, 0)
  {
    hide OnPath;
  }

  lemma FreshRootPaths(mem: Memory, mem': Memory, root': nat, va: nat, target: nat)
    requires root' in mem' && mem'[root'] == ZeroFrame() && target > 0
    ensures RangePaths(mem, 0, mem', root', va, target, 0)
  {
    hide OnPath;
    forall va', k: nat | target <= k <= 3
      ensures !OnPath(mem', root', 4, va', k)
    {
      ZeroPaths(mem', root', 4, va', k);
    }
  }

  lemma TouchedNext(va: nat, target: nat, i: nat, va': nat, k: nat)
    ensures Touched(va, target, i + 1, va', k)
        <==> Touched(va, target, i, va', k) || PageNo(k + 1, va + i * EntrySize(target)) == PageNo(k + 1, va')
  {
    hide PageNo, EntrySize;
    if Touched(va, target, i, va', k) {
      var j :| 0 <= j < i && PageNo(k + 1, va + j * EntrySize(target)) == PageNo(k + 1, va');
      assert 0 <= j < i + 1;
    }
  }

  lemma RangePathsStep(mem: Memory, root: nat, mem1: Memory, mem2: Memory, root': nat, va: nat, target: nat, i: nat)
    requires RangePaths(mem, root, mem1, root', va, target, i) && 1 <= target <= 3
    requires PathsMapped(mem1, mem2, root', va + i * EntrySize(target), target)
    ensures RangePaths(mem, root, mem2, root', va, target, i + 1)
  {
    hide OnPath, PageNo, SameSlots, Touched, EntrySize, HasTable;
    var cur := va + i * EntrySize(target);
    forall va', k: nat | target <= k <= 3
      ensures OnPath(mem2, root', 4, va', k) <==> HasTable(mem, root, va', k) || Touched(va, target, i + 1, va', k)
    {
      TouchedNext(va, target, i, va', k);
      SlotsArePages(k + 1, cur, va');
      assert OnPath(mem1, root', 4, va', k) <==> HasTable(mem, root, va', k) || Touched(va, target, i, va', k);
    }
  }

  /** What the next page lacks are its new tables. */
  lemma {:induction false} LacksAreNew(mem: Memory, root: nat, mem1: Memory, root': nat, va: nat, target: nat, i: nat, level: nat)
    requires RangePaths(mem, root, mem1, root', va, target, i) && target <= level
    ensures Lacks(mem1, root', 4, va + i * EntrySize(target), level) == NewTables(mem, root, va, target, i, level)
    decreases 4 - level
  {
    hide OnPath, PageNo, Touched, EntrySize, HasTable;
    if level <= 3 {
      var cur := va + i * EntrySize(target);
      assert OnPath(mem1, root', 4, cur, level) <==> HasTable(mem, root, cur, level) || Touched(va, target, i, cur, level);
      LacksAreNew(mem, root, mem1, root', va, target, i, level + 1);
    }
  }

  lemma {:induction false} FramesGrow(mem: Memory, root: nat, va: nat, target: nat, i: nat, j: nat)
    requires i <= j
    ensures Frames(mem, root, va, target, i) <= Frames(mem, root, va, target, j)
    ensures root == 0 ==> Frames(mem, root, va, target, j) > 0
    decreases j
  {
    hide NewTables;
    if i < j {
      FramesGrow(mem, root, va, target, i, j - 1);
    } else if j > 0 {
      FramesGrow(mem, root, va, target, j - 1, j - 1);
    }
  }

  lemma FramesStart(mem: Memory, root: nat, va: nat, target: nat)
    ensures Frames(mem, root, va, target, 0) == if root == 0 then 1 else 0
  {
  }

  /** Page i took its new tables, or could not. */
  lemma FramesStep(mem: Memory, root: nat, mem1: Memory, root': nat, va: nat, target: nat, i: nat, count: nat, free: int, left: nat)
    requires RangePaths(mem, root, mem1, root', va, target, i) && i < count && left == free - Frames(mem, root, va, target, i)
    ensures var lacks := Lacks(mem1, root', 4, va + i * EntrySize(target), target);
      && left - lacks == free - Frames(mem, root, va, target, i + 1)
      && (lacks > left ==> Frames(mem, root, va, target, count) > free)
  {
    hide OnPath, RangePaths, NewTables, Lacks, EntrySize;
    LacksAreNew(mem, root, mem1, root', va, target, i, target);
    FramesGrow(mem, root, va, target, i + 1, count);
  }

  // ---------------------------------------------------------------- the flags arrive

  /** Is va in one of the first i pages of the range? */
  predicate InRange(va: nat, target: nat, i: nat, va': nat) {
    0 <= PageNo(target, va') - PageNo(target, va) < i
  }

  /** All entries on the way to a page of the range are present and have the flags. */
  ghost predicate WaysCarry(mem: Memory, root: nat, va: nat, target: nat, i: nat, flags: bv64) {
    forall va' :: InRange(va, target, i, va') ==> WayCarries(mem, root, va', target, flags)
  }

  /** Down to the pages' level, every present entry but those of the pages themselves stayed as it was or gained the flags. */
  ghost predicate OldGain(mem: Memory, root: nat, mem': Memory, root': nat, va: nat, target: nat, i: nat, flags: bv64) {
    root != 0 ==> forall va', k: nat :: target <= k <= 4 && OnPath(mem, root, 4, va', k) && !(k == target && InRange(va, target, i, va')) ==>
      EntryGains(mem, mem', root', 4, va', k, flags)
  }

  /** The entries new tables hang from are present, writable and have the flags. */
  ghost predicate LinksOpen(mem: Memory, root: nat, mem': Memory, root': nat, target: nat, flags: bv64) {
    forall va', k: nat :: target <= k <= 3 && OnPath(mem', root', 4, va', k) && !HasTable(mem, root, va', k) ==>
      Carries(PathSlot(mem', root', 4, va', k + 1), flags | 0x003)
  }

  /** Everything about the flags of the entries after i pages. */
  ghost predicate RangeFlagged(mem: Memory, root: nat, mem': Memory, root': nat, va: nat, target: nat, i: nat, flags: bv64) {
    && WaysCarry(mem', root', va, target, i, flags) && OldGain(mem, root, mem', root', va, target, i, flags)
    && LinksOpen(mem, root, mem', root', target, flags)
  }

  lemma NoneFlagged(mem: Memory, root: nat, va: nat, target: nat, flags: bv64)
    requires root != 0
    ensures RangeFlagged(mem, root, mem, root, va, target, 0, flags)
  {
    hide OnPath, PathSlot, PageNo, Carries, Present;
  }

  lemma FreshRootFlagged(mem: Memory, mem': Memory, root': nat, va: nat, target: nat, flags: bv64)
    requires root' in mem' && mem'[root'] == ZeroFrame() && target > 0
    ensures RangeFlagged(mem, 0, mem', root', va, target, 0, flags)
  {
    hide OnPath, PathSlot, PageNo, Carries, Present, WayCarries;
    FreshRootPaths(mem, mem', root', va, target);
    forall va', k: nat | target <= k <= 3
      ensures !OnPath(mem', root', 4, va', k)
    {
      ZeroPaths(mem', root', 4, va', k);
    }
  }

  lemma {:induction false} SameAbove(level: nat, target: nat, k: nat, va: nat, va': nat)
    requires SameSlots(level, target, va, va') && target <= k
    ensures SameSlots(level, k, va, va')
    decreases level
  {
    if level > 0 && level >= k {
      SameAbove(level - 1, target, k, va, va');
    }
  }

  /** The whole page has the way of its first address. */
  lemma WholePage(mem: Memory, root: nat, va: nat, va': nat, target: nat, flags: bv64)
    requires WayCarries(mem, root, va, target, flags) && 1 <= target <= 3 && PageNo(target, va) == PageNo(target, va')
    ensures WayCarries(mem, root, va', target, flags)
  {
    hide OnPath, PathSlot, PageNo, Carries, Present, SameSlots;
    SlotsArePages(target, va, va');
    forall k: nat | target <= k <= 4
      ensures EntryCarries(mem, root, va', k, flags)
    {
      assert EntryCarries(mem, root, va, k, flags);
      SameAbove(4, target, k, va, va');
      SameSlotsSamePath(mem, root, 4, va, va', k);
    }
  }

  lemma CarriesStep(mem1: Memory, mem2: Memory, root: nat, va: nat, target: nat, i: nat, flags: bv64)
    requires 1 <= target <= 3 && va % 0x1_0000_0000_0000 + i * EntrySize(target) < 0x1_0000_0000_0000
    requires WaysCarry(mem1, root, va, target, i, flags)
    requires var cur := va + i * EntrySize(target); WayCarries(mem2, root, cur, target, flags) && OthersGain(mem1, mem2, root, cur, target, flags)
    ensures WaysCarry(mem2, root, va, target, i + 1, flags)
  {
    hide OnPath, PathSlot, PageNo, Carries, Present, SameSlots, EntrySize, Gained;
    var cur := va + i * EntrySize(target);
    PageNoAdvances(target, va, i);
    forall va' | InRange(va, target, i + 1, va')
      ensures WayCarries(mem2, root, va', target, flags)
    {
      if PageNo(target, va') == PageNo(target, cur) {
        WholePage(mem2, root, cur, va', target, flags);
      } else {
        SlotsArePages(target, cur, va');
        assert InRange(va, target, i, va');
        StillCarries(mem1, mem2, root, cur, va', target, flags);
      }
    }
  }

  /** A way keeps its flags when its own page is not the one mapped. */
  lemma StillCarries(mem1: Memory, mem2: Memory, root: nat, cur: nat, va: nat, target: nat, flags: bv64)
    requires WayCarries(mem1, root, va, target, flags) && OthersGain(mem1, mem2, root, cur, target, flags) && !SameSlots(4, target, cur, va)
    ensures WayCarries(mem2, root, va, target, flags)
  {
    hide OnPath, PathSlot, Carries, Present, SameSlots, Gained;
    forall k: nat | target <= k <= 4
      ensures EntryCarries(mem2, root, va, k, flags)
    {
      assert EntryCarries(mem1, root, va, k, flags);
      assert EntryGains(mem1, mem2, root, 4, va, k, flags);
      GainedCarries(PathSlot(mem1, root, 4, va, k), PathSlot(mem2, root, 4, va, k), flags);
    }
  }

  lemma OldGainStep(mem: Memory, root0: nat, mem1: Memory, mem2: Memory, root: nat, va: nat, target: nat, i: nat, flags: bv64)
    requires 1 <= target <= 3 && va % 0x1_0000_0000_0000 + i * EntrySize(target) < 0x1_0000_0000_0000
    requires OldGain(mem, root0, mem1, root, va, target, i, flags) && (root0 != 0 ==> root == root0)
    requires OthersGain(mem1, mem2, root, va + i * EntrySize(target), target, flags)
    ensures OldGain(mem, root0, mem2, root, va, target, i + 1, flags)
  {
    hide OnPath, PathSlot, PageNo, Present, SameSlots, EntrySize, Gained;
    var cur := va + i * EntrySize(target);
    PageNoAdvances(target, va, i);
    if root0 != 0 {
      forall va', k: nat | target <= k <= 4 && OnPath(mem, root0, 4, va', k) && !(k == target && InRange(va, target, i + 1, va'))
        ensures EntryGains(mem, mem2, root, 4, va', k, flags)
      {
        SlotsArePages(target, cur, va');
        assert EntryGains(mem, mem1, root, 4, va', k, flags);
        GainsOn(mem, mem1, mem2, root, va', k, flags);
      }
    }
  }

  lemma LinksOpenStep(mem: Memory, root0: nat, mem1: Memory, mem2: Memory, root: nat, cur: nat, target: nat, flags: bv64)
    requires LinksOpen(mem, root0, mem1, root, target, flags) && NewLinks(mem1, mem2, root, target, flags)
    requires OthersGain(mem1, mem2, root, cur, target, flags) || EntriesGain(mem1, mem2, root, 4, flags)
    ensures LinksOpen(mem, root0, mem2, root, target, flags)
  {
    hide OnPath, PathSlot, Present, SameSlots, Gained, Carries, HasTable;
    forall va', k: nat | target <= k <= 3 && OnPath(mem2, root, 4, va', k) && !HasTable(mem, root0, va', k)
      ensures Carries(PathSlot(mem2, root, 4, va', k + 1), flags | 0x003)
    {
      if OnPath(mem1, root, 4, va', k) {
        PathAbove(mem1, root, 4, va', k);
        LinkPresent(PathSlot(mem1, root, 4, va', k + 1), flags);
        assert EntryGains(mem1, mem2, root, 4, va', k + 1, flags);
        LinkGained(PathSlot(mem1, root, 4, va', k + 1), PathSlot(mem2, root, 4, va', k + 1), flags);
      }
    }
  }

  lemma FlaggedStep(mem: Memory, root0: nat, mem1: Memory, mem2: Memory, root: nat, va: nat, target: nat, i: nat, flags: bv64)
    requires 1 <= target <= 3 && va % 0x1_0000_0000_0000 + i * EntrySize(target) < 0x1_0000_0000_0000
    requires RangeFlagged(mem, root0, mem1, root, va, target, i, flags) && (root0 != 0 ==> root == root0)
    requires var cur := va + i * EntrySize(target);
      && WayCarries(mem2, root, cur, target, flags) && OthersGain(mem1, mem2, root, cur, target, flags)
      && NewLinks(mem1, mem2, root, target, flags)
    ensures RangeFlagged(mem, root0, mem2, root, va, target, i + 1, flags)
  {
    hide WaysCarry, OldGain, LinksOpen, WayCarries, OthersGain, NewLinks, EntrySize;
    CarriesStep(mem1, mem2, root, va, target, i, flags);
    OldGainStep(mem, root0, mem1, mem2, root, va, target, i, flags);
    LinksOpenStep(mem, root0, mem1, mem2, root, va + i * EntrySize(target), target, flags);
  }

  /** A page that could not be mapped leaves the flags of the earlier ones. */
  lemma FlaggedStuck(mem: Memory, root0: nat, mem1: Memory, mem2: Memory, root: nat, va: nat, target: nat, i: nat, flags: bv64)
    requires 1 <= target <= 3 && RangeFlagged(mem, root0, mem1, root, va, target, i, flags) && (root0 != 0 ==> root == root0)
    requires EntriesGain(mem1, mem2, root, 4, flags) && NewLinks(mem1, mem2, root, target, flags)
    ensures RangeFlagged(mem, root0, mem2, root, va, target, i, flags)
  {
    hide OnPath, PathSlot, PageNo, Present, SameSlots, EntrySize, Gained, LinksOpen, Carries, HasTable, InRange;
    LinksOpenStep(mem, root0, mem1, mem2, root, va, target, flags);
    forall va' | InRange(va, target, i, va')
      ensures WayCarries(mem2, root, va', target, flags)
    {
      forall k: nat | target <= k <= 4
        ensures EntryCarries(mem2, root, va', k, flags)
      {
        assert EntryCarries(mem1, root, va', k, flags);
        assert EntryGains(mem1, mem2, root, 4, va', k, flags);
        GainedCarries(PathSlot(mem1, root, 4, va', k), PathSlot(mem2, root, 4, va', k), flags);
      }
    }
    if root0 != 0 {
      forall va', k: nat | target <= k <= 4 && OnPath(mem, root0, 4, va', k) && !(k == target && InRange(va, target, i, va'))
        ensures EntryGains(mem, mem2, root, 4, va', k, flags)
      {
        assert EntryGains(mem, mem1, root, 4, va', k, flags);
        GainsOn(mem, mem1, mem2, root, va', k, flags);
      }
    }
  }

  lemma GainsOn(mem: Memory, mem1: Memory, mem2: Memory, root: nat, va: nat, k: nat, flags: bv64)
    requires EntryGains(mem, mem1, root, 4, va, k, flags) && OnPath(mem, root, 4, va, k)
    requires OnPath(mem1, root, 4, va, k) ==> EntryGains(mem1, mem2, root, 4, va, k, flags)
    ensures EntryGains(mem, mem2, root, 4, va, k, flags)
  {
    hide OnPath, PathSlot, Present, Gained;
    if Present(PathSlot(mem, root, 4, va, k)) {
      StillPresent(PathSlot(mem, root, 4, va, k), PathSlot(mem1, root, 4, va, k), flags);
      GainedTwice(PathSlot(mem, root, 4, va, k), PathSlot(mem1, root, 4, va, k), PathSlot(mem2, root, 4, va, k), flags);
    }
  }

  /** The entry the walk returns for a page of the range: outside the frame the caller's flags, present, writable and the size bit. */
  ghost predicate LeavesFlagged(mem: Memory, root: nat, va: nat, target: nat, i: nat, flags: bv64) {
    forall va' :: InRange(va, target, i, va') ==>
      var l := Walk(mem, root, 4, va'); l.Leaf? && OutsideFrame(l.entry) == flags | (if target > 1 then 0x083 else 0x003)
  }

  lemma MappedLeaves(mem0: Memory, root0: nat, mem: Memory, root: nat, top: nat, va: nat, target: nat, pageNumber: nat, flags: bv64, i: nat)
    requires MapsRange(mem0, root0, mem, root, top, va, target, pageNumber, flags, i) && top == 4 && PlainFlags(flags)
    ensures root != 0 ==> LeavesFlagged(mem, root, va, target, i, flags)
  {
    hide Walk, PageNo, LeafEntry, Word, EntrySize, OutsideFrame, PlainFlags;
    if root != 0 {
      forall va' | InRange(va, target, i, va')
        ensures var l := Walk(mem, root, 4, va'); l.Leaf? && OutsideFrame(l.entry) == flags | (if target > 1 then 0x083 else 0x003)
      {
        var k := PageNo(target, va') - PageNo(target, va);
        assert Translate(mem, root, top, va') == RangeLookup(mem0, root0, top, va, target, pageNumber, flags, i, va');
        LeafEntryFlags(Word((pageNumber + k) * EntrySize(target)), target, flags);
      }
    }
  }

  /** `pageTable_addPage`; -1 means that no frame was left for a table. */
  method AddPage(m: Machine, ref: RootRef, top: nat, va: nat, pageNumber: nat, count: nat, target: nat, flags: bv64)
    returns (r: int, ghost mapped: nat)
    requires SpaceOk(m.mem, m.pool, ref.root, top) && top == 4 && 1 <= target <= 3 && PlainFlags(flags)
    requires (PageNo(target, va) + count) * EntrySize(target) <= 0x1_0000_0000_0000
    requires NoLargerLeaves(m.mem, ref.root, top, va, target, count)
    modifies m, ref
    ensures SpaceOk(m.mem, m.pool, ref.root, top)
    ensures OwnOnly(old(m.mem), old(m.pool), old(ref.root), m.mem, m.pool, ref.root, top)
    ensures MapsRange(old(m.mem), old(ref.root), m.mem, ref.root, top, va, target, pageNumber, flags, mapped)
    ensures old(ref.root) != 0 ==> ref.root == old(ref.root)
    ensures if r == 0 then mapped == count && ref.root != 0 else r == -1 && m.pool == [] && mapped <= count
    ensures r == -1 && ref.root != 0 ==> Translate(old(m.mem), old(ref.root), top, va + mapped * EntrySize(target)) == Unmapped
    ensures r == 0 <==> Frames(old(m.mem), old(ref.root), va, target, count) <= |old(m.pool)|
    ensures r == 0 ==> |m.pool| == |old(m.pool)| - Frames(old(m.mem), old(ref.root), va, target, count)
    ensures ref.root != 0 ==> LeavesFlagged(m.mem, ref.root, va, target, mapped, flags)
    ensures ref.root != 0 ==> RangeFlagged(old(m.mem), old(ref.root), m.mem, ref.root, va, target, mapped, flags)
  {
    hide *;
    mapped := 0;
    NothingMapped(m.mem, m.pool, ref.root, top, va, target, pageNumber, flags);
    SpaceIsReady(m.mem, m.pool, ref.root, top);
    ghost var mem0, pool0, root0 := m.mem, m.pool, ref.root;
    FramesStart(mem0, root0, va, target);
    FramesGrow(mem0, root0, va, target, 0, count);
    if root0 != 0 {
      NoneTouched(mem0, root0, va, target);
      NoneFlagged(mem0, root0, va, target, flags);
    }
    if ref.root == 0 {
      if |m.pool| > 0 {
        StartRoot(m.mem, m.pool, top, m.pool[|m.pool| - 1], va, target, pageNumber, flags);
      }
      var c := m.AllocateFrame();
      if c == 0 {
        return -1, 0;
      }
      ref.root := Addr(c);
      m.mem := m.mem[ref.root := ZeroFrame()];
      FreshRootPaths(mem0, m.mem, ref.root, va, target);
      FreshRootFlagged(mem0, m.mem, ref.root, va, target, flags);
    }
    var i := 0;
    while i < count
      invariant i <= count && mapped == i
      invariant ref.root != 0 && (old(ref.root) != 0 ==> ref.root == old(ref.root))
      invariant Ready(m.mem, m.pool, ref.root, top)
      invariant OwnOnly(old(m.mem), old(m.pool), old(ref.root), m.mem, m.pool, ref.root, top)
      invariant MapsRange(old(m.mem), old(ref.root), m.mem, ref.root, top, va, target, pageNumber, flags, i)
      invariant RangePaths(mem0, root0, m.mem, ref.root, va, target, i) && |m.pool| == |pool0| - Frames(mem0, root0, va, target, i)
      invariant RangeFlagged(mem0, root0, m.mem, ref.root, va, target, i, flags)
    {
      StillNoLarger(old(m.mem), old(ref.root), m.mem, ref.root, top, va, target, pageNumber, flags, count, i);
      ghost var mem1, pool1 := m.mem, m.pool;
      FramesStep(mem0, root0, mem1, ref.root, va, target, i, count, |pool0|, |pool1|);
      var phys := Word(pageNumber * EntrySize(target) + i * EntrySize(target));
      var ok := m.MapPage(ref.root, top, va + i * EntrySize(target), phys, target, flags);
      StepOwnOnly(old(m.mem), old(m.pool), old(ref.root), mem1, pool1, m.mem, m.pool, ref.root, top);
      SpaceIsReady(m.mem, m.pool, ref.root, top);
      RangeBound(va, i, count, target);
      if !ok {
        NotYetMapped(old(m.mem), old(ref.root), mem1, m.mem, ref.root, top, va, target, pageNumber, flags, i);
        StillMaps(old(m.mem), old(ref.root), mem1, m.mem, ref.root, top, va, target, pageNumber, flags, i);
        FlaggedStuck(mem0, root0, mem1, m.mem, ref.root, va, target, i, flags);
        MappedLeaves(mem0, root0, m.mem, ref.root, top, va, target, pageNumber, flags, i);
        return -1, i;
      }
      assert (pageNumber + i) * EntrySize(target) == pageNumber * EntrySize(target) + i * EntrySize(target);
      RangeStep(old(m.mem), old(ref.root), mem1, m.mem, ref.root, top, va, target, pageNumber, flags, i, phys);
      RangePathsStep(mem0, root0, mem1, m.mem, ref.root, va, target, i);
      FlaggedStep(mem0, root0, mem1, m.mem, ref.root, va, target, i, flags);
      i, mapped := i + 1, i + 1;
    }
    SpaceIsReady(m.mem, m.pool, ref.root, top);
    MappedLeaves(mem0, root0, m.mem, ref.root, top, va, target, pageNumber, flags, count);
    return 0, count;
  }

  /** `pageTable_find_entry`: the walk written out level by level. */
  function FindEntry(mem: Memory, root: nat, va: nat): (r: Lookup)
    requires TreeOk(mem, root, 4)
    ensures r == Walk(mem, root, 4, va)
  {
    var x := ExtractIndices(va);
    var pml4e := mem[root][x.pml4];
    if !Present(pml4e) then Unmapped else
    var pdpte := Word8(mem, FrameOf(pml4e), x.pdpt);
    if !Present(pdpte) then Unmapped
    else if BigPage(pdpte) then Leaf(pdpte, 0x4000_0000)
    else
      var pde := Word8(mem, FrameOf(pdpte), x.pd);
      if !Present(pde) then Unmapped
      else if BigPage(pde) then Leaf(pde, 0x20_0000)
      else
        var pte := Word8(mem, FrameOf(pde), x.pt);
        if !Present(pte) then Unmapped else Leaf(pte, 0x1000)
  }

  /** Word i of the frame at address t. */
  function Word8(mem: Memory, t: nat, i: nat): Entry {
    if t in mem && i < |mem[t]| then mem[t][i] else 0
  }
}

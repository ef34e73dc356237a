/**
 Resolving a write to a copy-on-write page: the page-fault case of `exception_handler`.
 */
module CowFault {
  import opened Arith
  import opened Bytes
  import opened PageTable
  import opened PageMap
  import opened PageRange

  function OffsetIn(va: nat, size: nat): (o: nat)
    ensures size > 0 ==> o < size
  {
    if size > 0 then va % size else 0
  }

  /** Where an address reads its byte; -1 when it is not mapped. */
  function Physical(mem: Memory, root: nat, top: nat, va: nat): int {
    var l := Translate(mem, root, top, va);
    if l.Leaf? then FrameOf(l.entry) + OffsetIn(va, l.size) else -1
  }

  /** The byte an address reads. */
  function ByteSeen(mem: Memory, ram: seq<byte>, root: nat, top: nat, va: nat): byte {
    var p := Physical(mem, root, top, va);
    if 0 <= p < |ram| then ram[p] else 0
  }

  /** `kmemcpy(dst, src, n)` inside physical memory. */
  function CopyWithin(ram: seq<byte>, dst: nat, src: nat, n: nat): (r: seq<byte>)
    requires dst + n <= |ram| && src + n <= |ram|
    ensures |r| == |ram|
    ensures forall k :: 0 <= k < |r| ==> r[k] == if dst <= k < dst + n then ram[src + (k - dst)] else ram[k]
  {
    ram[..dst] + ram[src..src + n] + ram[dst + n..]
  }

  /** The level whose entries map a page of the given size. */
  function LevelOf(size: nat): nat {
    if size == 0x4000_0000 then 3 else if size == 0x20_0000 then 2 else 1
  }

  /** Addresses with the same slots down to a leaf meet the same leaf. */
  lemma {:induction false} SameLeaf(mem: Memory, t: nat, level: nat, target: nat, va: nat, va': nat)
    requires Walk(mem, t, level, va).Leaf? && Walk(mem, t, level, va).size == EntrySize(target) && 1 <= target <= level <= 4
    requires SameSlots(level, target, va, va')
    ensures Walk(mem, t, level, va') == Walk(mem, t, level, va)
    decreases level
  {
    var e := mem[t][Index(level, va)];
    if IsTable(e, level) {
      if level == target {
        LeafBelow(mem, FrameOf(e), level - 1, va);
      } else {
        SameLeaf(mem, FrameOf(e), level - 1, target, va, va');
      }
    }
  }

  /** Leaves found from a level's table are no larger than that level's entries. */
  lemma {:induction false} LeafBelow(mem: Memory, t: nat, level: nat, va: nat)
    requires Walk(mem, t, level, va).Leaf? && 1 <= level <= 3
    ensures exists target :: 1 <= target <= level && Walk(mem, t, level, va).size == EntrySize(target)
    ensures Walk(mem, t, level, va).size < EntrySize(level + 1)
    decreases level
  {
    var e := mem[t][Index(level, va)];
    if IsTable(e, level) {
      LeafBelow(mem, FrameOf(e), level - 1, va);
      assert EntrySize(level) < EntrySize(level + 1);
    } else {
      assert Walk(mem, t, level, va).size == EntrySize(level);
    }
  }

  /** Leaves come in the three page sizes. */
  lemma LeafSizes(mem: Memory, root: nat, top: nat, va: nat)
    requires top == 4 && Walk(mem, root, top, va).Leaf?
    ensures var size := Walk(mem, root, top, va).size;
      (size == 0x1000 || size == 0x20_0000 || size == 0x4000_0000) && size == EntrySize(LevelOf(size)) && 1 <= LevelOf(size) <= 3
  {
    LeafBelow(mem, FrameOf(mem[root][Index(top, va)]), top - 1, va);
  }

  /** The bytes of a mapped page are those of its frame, in order. */
  lemma PageBytes(mem: Memory, root: nat, top: nat, va: nat, k: nat)
    requires root != 0 && top == 4 && Walk(mem, root, top, va).Leaf?
    requires var size := Walk(mem, root, top, va).size; size > 0 && va % size == 0 && k < size
    ensures Physical(mem, root, top, va + k) == FrameOf(Walk(mem, root, top, va).entry) + k
  {
    hide Walk, FrameOf, PageNo, EntrySize;
    LeafSizes(mem, root, top, va);
    var size := Walk(mem, root, top, va).size;
    SamePage(LevelOf(size), va, k);
    SlotsArePages(LevelOf(size), va, va + k);
    SameLeaf(mem, root, top, LevelOf(size), va, va + k);
  }

  lemma SamePage(target: nat, va: nat, k: nat)
    requires 1 <= target <= 3 && va % EntrySize(target) == 0 && k < EntrySize(target)
    ensures PageNo(target, va + k) == PageNo(target, va) && (va + k) % EntrySize(target) == k
  {
    if target == 3 {
      SamePageOf(va, k, 0x4000_0000, 0x4_0000);
    } else if target == 2 {
      SamePageOf(va, k, 0x20_0000, 0x800_0000);
    } else {
      SamePageOf(va, k, 0x1000, 0x10_0000_0000);
    }
  }

  lemma SamePageOf(va: nat, k: nat, size: nat, pages: nat)
    requires size > 0 && pages > 0 && pages * size == 0x1_0000_0000_0000 && va % size == 0 && k < size
    ensures (va + k) % 0x1_0000_0000_0000 / size == va % 0x1_0000_0000_0000 / size && (va + k) % size == k
  {
    var n := va / size;
    DivMod(va, size);
    DivModUnique(va + k, size, n, k);
    DivMod(n, pages);
    var q, i := n / pages, n % pages;
    Associate(q, pages, size);
    Distribute(q * pages, i, size);
    MulMonotone(i + 1, pages, size);
    LowPart(q, i * size + k);
    LowPart(q, i * size);
    DivModUnique(i * size + k, size, i, k);
    DivModUnique(i * size, size, i, 0);
  }

  /** Free frames of both sizes lie inside memory at multiples of their size; so does the faulting page's frame. */
  ghost predicate FaultReady(mem: Memory, pool: seq<bv64>, ram: seq<byte>, big: seq<bv64>, root: nat, top: nat, va: nat) {
    && Ready(mem, pool, root, top) && root != 0 && top == 4
    && (forall k :: 0 <= k < |pool| ==> Addr(pool[k]) % 0x1000 == 0 && Addr(pool[k]) + 0x1000 <= |ram|)
    && (forall k :: 0 <= k < |big| ==> Aligned(big[k]) && big[k] != 0 && Addr(big[k]) % 0x20_0000 == 0 && Addr(big[k]) + 0x20_0000 <= |ram|)
    && var l := Walk(mem, root, top, va); l.Leaf? ==> FrameOf(l.entry) + l.size <= |ram|
  }

  /** The page of va now maps `page`, which holds a copy of its old frame; all other translations are as before. */
  ghost predicate Resolved(mem: Memory, ram: seq<byte>, root: nat, top: nat, va: nat, page: bv64, mem': Memory, ram': seq<byte>) {
    var l := Walk(mem, root, top, va);
    && l.Leaf? && Addr(page) + l.size <= |ram| && FrameOf(l.entry) + l.size <= |ram|
    && ram' == CopyWithin(ram, Addr(page), FrameOf(l.entry), l.size)
    && forall va' :: Walk(mem', root, top, va')
         == if PageNo(LevelOf(l.size), va') == PageNo(LevelOf(l.size), va) then Leaf(LeafEntry(page, LevelOf(l.size), 4), l.size)
            else Walk(mem, root, top, va')
  }

  /** Data memory, and the free 2 MiB pages `pages_allocatePage(PAGE_SIZE_2MB)` can still hand out. */
  class PhysicalMemory {
    var bytes: seq<byte>
    var big: seq<bv64>
  }

  /** `pages_allocatePage`; there are no 1 GiB pages. */
  method AllocateData(m: Machine, ram: PhysicalMemory, size: nat) returns (page: bv64)
    modifies m`pool, ram`big
    ensures page == if size == 0x1000 && old(m.pool) != [] then old(m.pool)[|old(m.pool)| - 1]
                    else if size == 0x20_0000 && old(ram.big) != [] then old(ram.big)[|old(ram.big)| - 1] else 0
    ensures m.pool == if size == 0x1000 && old(m.pool) != [] then old(m.pool)[..|old(m.pool)| - 1] else old(m.pool)
    ensures ram.big == if size == 0x20_0000 && old(ram.big) != [] then old(ram.big)[..|old(ram.big)| - 1] else old(ram.big)
  {
    if size == 0x1000 {
      page := m.AllocateFrame();
      return;
    }
    if size == 0x20_0000 && ram.big != [] {
      page, ram.big := ram.big[|ram.big| - 1], ram.big[..|ram.big| - 1];
      return;
    }
    return 0;
  }

  lemma PageFits(target: nat, va: nat)
    requires 1 <= target <= 3
    ensures (PageNo(target, va) + 1) * EntrySize(target) <= 0x1_0000_0000_0000
  {
    var low := va % 0x1_0000_0000_0000;
    if target == 3 {
      assert low / 0x4000_0000 < 0x4_0000;
    } else if target == 2 {
      assert low / 0x20_0000 < 0x800_0000;
    } else {
      assert low / 0x1000 < 0x10_0000_0000;
    }
  }

  lemma PageAddress(page: bv64, size: nat)
    requires size > 0 && Addr(page) % size == 0
    ensures Word((Addr(page) / size + 0) * size) == page
  {
    hide Word, Addr;
    WordOfAddress(page);
    assert Addr(page) / size * size == Addr(page);
  }

  lemma OnePage(mem: Memory, mem': Memory, root: nat, top: nat, va: nat, target: nat, pageNumber: nat, page: bv64)
    requires root != 0 && MapsRange(mem, root, mem', root, top, va, target, pageNumber, 4, 1)
    requires Word((pageNumber + 0) * EntrySize(target)) == page
    ensures forall va' :: (Walk(mem', root, top, va')
      == if PageNo(target, va') == PageNo(target, va) then Leaf(LeafEntry(page, target, 4), EntrySize(target)) else Walk(mem, root, top, va'))
  {
    hide Walk, Word, LeafEntry, PageNo, EntrySize;
    forall va'
      ensures Walk(mem', root, top, va')
        == if PageNo(target, va') == PageNo(target, va) then Leaf(LeafEntry(page, target, 4), EntrySize(target)) else Walk(mem, root, top, va')
    {
      assert Translate(mem', root, top, va') == RangeLookup(mem, root, top, va, target, pageNumber, 4, 1, va');
    }
  }

  lemma OneLeaf(mem: Memory, root: nat, top: nat, va: nat, target: nat)
    requires root != 0 && Walk(mem, root, top, va).Leaf? && Walk(mem, root, top, va).size == EntrySize(target)
    ensures NoLargerLeaves(mem, root, top, va, target, 1)
    ensures Translate(mem, root, top, va + 0 * EntrySize(target)) != Unmapped
  {
    assert va + 0 * EntrySize(target) == va;
  }

  lemma AllocatedOk(mem: Memory, pool: seq<bv64>, ram: seq<byte>, big: seq<bv64>, root: nat, top: nat, va: nat, size: nat, page: bv64)
    requires FaultReady(mem, pool, ram, big, root, top, va) && Walk(mem, root, top, va).Leaf? && size == Walk(mem, root, top, va).size
    requires page == if size == 0x1000 && pool != [] then pool[|pool| - 1] else if size == 0x20_0000 && big != [] then big[|big| - 1] else 0
    ensures size > 0 && Addr(page) % size == 0 && Addr(page) + size <= |ram| && FrameBits(page) == page
    ensures FrameOf(Walk(mem, root, top, va).entry) + size <= |ram|
    ensures SpaceOk(mem, if size == 0x1000 && pool != [] then pool[..|pool| - 1] else pool, root, top)
    ensures page == 0 <==> !(size == 0x1000 && pool != []) && !(size == 0x20_0000 && big != [])
  {
    hide Tables, Walk, TreeOk;
    LeafSizes(mem, root, top, va);
    assert Addr(0) == 0;
  }

  lemma FoundByWalk(mem: Memory, pool: seq<bv64>, ram: seq<byte>, big: seq<bv64>, root: nat, top: nat, va: nat)
    requires FaultReady(mem, pool, ram, big, root, top, va)
    ensures TreeOk(mem, root, 4) && FindEntry(mem, root, va) == Walk(mem, root, top, va) && root != 0 && top == 4
  {
    hide Tables, Walk, TreeOk;
  }

  lemma ResolvedNow(mem: Memory, ram: seq<byte>, root: nat, top: nat, va: nat, page: bv64, pageNumber: nat, mem': Memory)
    requires top == 4 && root != 0 && Walk(mem, root, top, va).Leaf?
    requires var l := Walk(mem, root, top, va);
      && l.size > 0 && Addr(page) + l.size <= |ram| && FrameOf(l.entry) + l.size <= |ram| && Word((pageNumber + 0) * l.size) == page
      && MapsRange(mem, root, mem', root, top, va, LevelOf(l.size), pageNumber, 4, 1)
    ensures var l := Walk(mem, root, top, va);
      Resolved(mem, ram, root, top, va, page, mem', CopyWithin(ram, Addr(page), FrameOf(l.entry), l.size))
  {
    hide Walk, Word, LeafEntry, PageNo, Addr, FrameBits, MapsRange, LevelOf, EntrySize, CopyWithin;
    LeafSizes(mem, root, top, va);
    OnePage(mem, mem', root, top, va, LevelOf(Walk(mem, root, top, va).size), pageNumber, page);
  }

  /** Above a leaf all tables are there. */
  lemma {:induction false} LeafHasTables(mem: Memory, t: nat, level: nat, va: nat, target: nat)
    requires Walk(mem, t, level, va).Leaf? && Walk(mem, t, level, va).size == EntrySize(target) && 1 <= target <= level <= 4
    ensures OnPath(mem, t, level, va, target)
    decreases level
  {
    var e := mem[t][Index(level, va)];
    if IsTable(e, level) {
      if level == target {
        LeafBelow(mem, FrameOf(e), level - 1, va);
      } else {
        LeafHasTables(mem, FrameOf(e), level - 1, va, target);
      }
    }
  }

  /** Mapping a page again takes no frame. */
  lemma NoNewTables(mem: Memory, root: nat, va: nat, target: nat)
    requires root != 0 && 1 <= target <= 3 && Walk(mem, root, 4, va).Leaf? && Walk(mem, root, 4, va).size == EntrySize(target)
    ensures Frames(mem, root, va, target, 1) == 0
  {
    hide Walk, OnPath;
    LeafHasTables(mem, root, 4, va, target);
    assert va + 0 * EntrySize(target) == va;
    assert NewTables(mem, root, va, target, 0, target) == 0;
    FramesStart(mem, root, va, target);
  }

  lemma SamePool(mem: Memory, pool: seq<bv64>, root: nat, mem': Memory, pool': seq<bv64>, top: nat)
    requires OwnOnly(mem, pool, root, mem', pool', root, top) && |pool'| == |pool|
    ensures pool' == pool
  {
  }

  lemma OwnAfterData(mem: Memory, pool: seq<bv64>, pool1: seq<bv64>, root: nat, mem': Memory, pool': seq<bv64>, top: nat)
    requires pool1 <= pool && OwnOnly(mem, pool1, root, mem', pool', root, top)
    ensures OwnOnly(mem, pool, root, mem', pool', root, top)
  {
    hide RootTables, Addr;
    forall a | Popped(pool1, pool', a)
      ensures Popped(pool, pool', a)
    {
      var k :| |pool'| <= k < |pool1| && Addr(pool1[k]) == a;
      assert pool[k] == pool1[k];
    }
  }

  lemma PlainUser()
    ensures PlainFlags(4)
  {
  }

  /**
   User code reaches the page of va: the user bit is set on every entry on the way, and outside the frame its leaf has
   present, writable, user, for the larger pages the size bit, and nothing else.
   */
  ghost predicate UserPage(mem: Memory, root: nat, va: nat, size: nat) {
    forall va' :: PageNo(LevelOf(size), va') == PageNo(LevelOf(size), va) ==>
      && WayCarries(mem, root, va', LevelOf(size), 0x004)
      && var l := Walk(mem, root, 4, va'); l.Leaf? && OutsideFrame(l.entry) == if size == 0x1000 then 0x007 else 0x087
  }

  lemma UserAfterwards(mem: Memory, mem': Memory, root: nat, va: nat, size: nat)
    requires size == 0x1000 || size == 0x20_0000 || size == 0x4000_0000
    requires LeavesFlagged(mem', root, va, LevelOf(size), 1, 4)
    requires RangeFlagged(mem, root, mem', root, va, LevelOf(size), 1, 4)
    ensures UserPage(mem', root, va, size)
  {
    hide Walk, PageNo, WayCarries, OutsideFrame, OldGain, LinksOpen;
    forall va' | PageNo(LevelOf(size), va') == PageNo(LevelOf(size), va)
      ensures WayCarries(mem', root, va', LevelOf(size), 0x004)
      ensures var l := Walk(mem', root, 4, va'); l.Leaf? && OutsideFrame(l.entry) == if size == 0x1000 then 0x007 else 0x087
    {
      assert InRange(va, LevelOf(size), 1, va');
    }
  }

  /** The page-fault case of `exception_handler`; `write` is bit 1 of the error code, va is CR2. */
  method WriteFault(m: Machine, ram: PhysicalMemory, ref: RootRef, top: nat, va: nat, write: bool)
    returns (handled: bool, ghost page: bv64)
    requires FaultReady(m.mem, m.pool, ram.bytes, ram.big, ref.root, top, va)
    modifies m, ram, ref
    ensures ref.root == old(ref.root)
    ensures var l := Walk(old(m.mem), ref.root, top, va);
      && (handled <==> write && l.Leaf? && CopyOnWrite(l.entry))
      && (handled ==>
            && Resolved(old(m.mem), old(ram.bytes), ref.root, top, va, page, m.mem, ram.bytes)
            && page == if l.size == 0x1000 && old(m.pool) != [] then old(m.pool)[|old(m.pool)| - 1]
                       else if l.size == 0x20_0000 && old(ram.big) != [] then old(ram.big)[|old(ram.big)| - 1] else 0)
    ensures handled ==> Ready(m.mem, m.pool, ref.root, top) && UserPage(m.mem, ref.root, va, Walk(old(m.mem), ref.root, top, va).size)
    ensures OwnOnly(old(m.mem), old(m.pool), ref.root, m.mem, m.pool, ref.root, top)
    ensures handled ==> m.pool == if Walk(old(m.mem), ref.root, top, va).size == 0x1000 && old(m.pool) != [] then old(m.pool)[..|old(m.pool)| - 1] else old(m.pool)
    ensures !handled ==> m.mem == old(m.mem) && m.pool == old(m.pool) && ram.bytes == old(ram.bytes) && ram.big == old(ram.big)
  {
    hide *;
    handled, page := false, 0;
    FoundByWalk(m.mem, m.pool, ram.bytes, ram.big, ref.root, top, va);
    NothingMapped(m.mem, m.pool, ref.root, top, va, 1, 0, 0);
    if !write {
      return;
    }
    var l := FindEntry(m.mem, ref.root, va);
    if l == Unmapped || !CopyOnWrite(l.entry) {
      return;
    }
    LeafSizes(m.mem, ref.root, top, va);
    var target := LevelOf(l.size);
    var taken := AllocateData(m, ram, l.size);
    ghost var pool1 := m.pool;
    AllocatedOk(m.mem, old(m.pool), ram.bytes, old(ram.big), ref.root, top, va, l.size, taken);
    OneLeaf(m.mem, ref.root, top, va, target);
    PageFits(target, va);
    PlainUser();
    ram.bytes := CopyWithin(ram.bytes, Addr(taken), FrameOf(l.entry), l.size);
    var r, mapped := AddPage(m, ref, top, va, Addr(taken) / l.size, 1, target, 4);
    SpaceIsReady(m.mem, m.pool, ref.root, top);
    NoNewTables(old(m.mem), ref.root, va, target);
    SamePool(old(m.mem), pool1, ref.root, m.mem, m.pool, top);
    OwnAfterData(old(m.mem), old(m.pool), pool1, ref.root, m.mem, m.pool, top);
    PageAddress(taken, l.size);
    ResolvedNow(old(m.mem), old(ram.bytes), ref.root, top, va, taken, Addr(taken) / l.size, m.mem);
    UserAfterwards(old(m.mem), m.mem, ref.root, va, l.size);
    handled, page := true, taken;
  }

  /** Is the physical byte p part of the page handed out? */
  predicate Within(p: int, page: bv64, size: nat) {
    Addr(page) <= p < Addr(page) + size
  }

  /** Both leaves an address of the faulting page meets, before and after. */
  lemma InFaultingPage(mem: Memory, ram: seq<byte>, root: nat, top: nat, va: nat, page: bv64, mem': Memory, ram': seq<byte>, va': nat)
    requires Resolved(mem, ram, root, top, va, page, mem', ram') && root != 0 && top == 4 && FrameBits(page) == page
    requires PageNo(LevelOf(Walk(mem, root, top, va).size), va') == PageNo(LevelOf(Walk(mem, root, top, va).size), va)
    ensures Walk(mem, root, top, va') == Walk(mem, root, top, va)
    ensures var l' := Walk(mem', root, top, va'); l'.Leaf? && FrameOf(l'.entry) == Addr(page) && l'.size == Walk(mem, root, top, va).size
  {
    hide Walk, Addr, PageNo, LeafEntry, EntrySize, LevelOf, FrameBits, PlainFlags, CopyWithin;
    var target := LevelOf(Walk(mem, root, top, va).size);
    LeafSizes(mem, root, top, va);
    SlotsArePages(target, va, va');
    SameLeaf(mem, root, top, target, va, va');
    PlainUser();
    LeafEntryBits(page, target, 4);
  }

  lemma CopiedByte(ram: seq<byte>, dst: nat, src: nat, size: nat, va: nat)
    requires dst + size <= |ram| && src + size <= |ram| && size > 0
    ensures var o := OffsetIn(va, size); o < size && CopyWithin(ram, dst, src, size)[dst + o] == ram[src + o]
  {
    hide OffsetIn;
  }

  lemma ByteInPage(mem: Memory, ram: seq<byte>, root: nat, top: nat, va: nat, page: bv64, mem': Memory, ram': seq<byte>, va': nat)
    requires Resolved(mem, ram, root, top, va, page, mem', ram') && root != 0 && top == 4 && FrameBits(page) == page
    requires PageNo(LevelOf(Walk(mem, root, top, va).size), va') == PageNo(LevelOf(Walk(mem, root, top, va).size), va)
    ensures ByteSeen(mem', ram', root, top, va') == ByteSeen(mem, ram, root, top, va')
  {
    hide Walk, Addr, PageNo, LeafEntry, EntrySize, LevelOf, FrameBits, PlainFlags, OffsetIn, CopyWithin;
    LeafSizes(mem, root, top, va);
    InFaultingPage(mem, ram, root, top, va, page, mem', ram', va');
    var l := Walk(mem, root, top, va);
    CopiedByte(ram, Addr(page), FrameOf(l.entry), l.size, va');
  }

  lemma CopyAt(ram: seq<byte>, dst: nat, src: nat, n: nat, p: int)
    requires dst + n <= |ram| && src + n <= |ram|
    ensures |CopyWithin(ram, dst, src, n)| == |ram|
    ensures 0 <= p < |ram| ==> CopyWithin(ram, dst, src, n)[p] == if dst <= p < dst + n then ram[src + (p - dst)] else ram[p]
  {
  }

  /** What va' reads after the fault at va. */
  lemma ByteAfterFault(mem: Memory, ram: seq<byte>, root: nat, top: nat, va: nat, page: bv64, mem': Memory, ram': seq<byte>, va': nat)
    requires Resolved(mem, ram, root, top, va, page, mem', ram') && root != 0 && top == 4 && FrameBits(page) == page
    ensures var l := Walk(mem, root, top, va); var p := Physical(mem, root, top, va');
      ByteSeen(mem', ram', root, top, va')
        == if PageNo(LevelOf(l.size), va') != PageNo(LevelOf(l.size), va) && Within(p, page, l.size)
           then ram[FrameOf(l.entry) + (p - Addr(page))] else ByteSeen(mem, ram, root, top, va')
  {
    hide Walk, Addr, PageNo, LeafEntry, EntrySize, LevelOf, FrameOf, PlainFlags, OffsetIn, CopyWithin, Physical;
    var l := Walk(mem, root, top, va);
    if PageNo(LevelOf(l.size), va') == PageNo(LevelOf(l.size), va) {
      ByteInPage(mem, ram, root, top, va, page, mem', ram', va');
    } else {
      assert Walk(mem', root, top, va') == Walk(mem, root, top, va');
      SamePhysical(mem, mem', root, top, va');
      CopyAt(ram, Addr(page), FrameOf(l.entry), l.size, Physical(mem, root, top, va'));
    }
  }

  lemma SamePhysical(mem: Memory, mem': Memory, root: nat, top: nat, va: nat)
    requires Walk(mem', root, top, va) == Walk(mem, root, top, va)
    ensures Physical(mem', root, top, va) == Physical(mem, root, top, va)
  {
  }

  /** A fault is invisible exactly when no other page reads, from the page handed out, a byte the copy replaces. */
  lemma FaultInvisible(mem: Memory, ram: seq<byte>, root: nat, top: nat, va: nat, page: bv64, mem': Memory, ram': seq<byte>)
    requires Resolved(mem, ram, root, top, va, page, mem', ram') && root != 0 && top == 4 && FrameBits(page) == page
    ensures (forall va' :: ByteSeen(mem', ram', root, top, va') == ByteSeen(mem, ram, root, top, va'))
      <==> (forall va' :: Undisturbed(mem, ram, root, top, va, page, va'))
  {
    hide *;
    forall va'
      ensures ByteSeen(mem', ram', root, top, va') == ByteSeen(mem, ram, root, top, va') <==> Undisturbed(mem, ram, root, top, va, page, va')
    {
      ByteKept(mem, ram, root, top, va, page, mem', ram', va');
    }
  }

  ghost predicate Undisturbed(mem: Memory, ram: seq<byte>, root: nat, top: nat, va: nat, page: bv64, va': nat) {
    var l, p := Walk(mem, root, top, va), Physical(mem, root, top, va');
    (l.Leaf? && PageNo(LevelOf(l.size), va') != PageNo(LevelOf(l.size), va) && Within(p, page, l.size)
     && p < |ram| && FrameOf(l.entry) + l.size <= |ram|)
      ==> ram[FrameOf(l.entry) + (p - Addr(page))] == ram[p]
  }

  lemma ByteKept(mem: Memory, ram: seq<byte>, root: nat, top: nat, va: nat, page: bv64, mem': Memory, ram': seq<byte>, va': nat)
    requires Resolved(mem, ram, root, top, va, page, mem', ram') && root != 0 && top == 4 && FrameBits(page) == page
    ensures ByteSeen(mem', ram', root, top, va') == ByteSeen(mem, ram, root, top, va') <==> Undisturbed(mem, ram, root, top, va, page, va')
  {
    hide Walk, Addr, PageNo, LeafEntry, EntrySize, LevelOf, FrameBits, CopyWithin;
    ByteAfterFault(mem, ram, root, top, va, page, mem', ram', va');
  }

  /**
   With a page nobody reads from, the fault changes no byte any address reads, leaves every other physical byte
   alone (the old frame above all), and the page becomes writable and loses its mark.
   */
  lemma FreshFault(mem: Memory, ram: seq<byte>, root: nat, top: nat, va: nat, page: bv64, mem': Memory, ram': seq<byte>)
    requires Resolved(mem, ram, root, top, va, page, mem', ram') && root != 0 && top == 4 && FrameBits(page) == page
    requires forall va' :: !Within(Physical(mem, root, top, va'), page, Walk(mem, root, top, va).size)
    ensures forall va' :: ByteSeen(mem', ram', root, top, va') == ByteSeen(mem, ram, root, top, va')
    ensures |ram'| == |ram| && forall p :: 0 <= p < |ram| && !Within(p, page, Walk(mem, root, top, va).size) ==> ram'[p] == ram[p]
    ensures var l' := Walk(mem', root, top, va);
      l'.Leaf? && l'.size == Walk(mem, root, top, va).size && FrameBits(l'.entry) == page && Writable(l'.entry) && !CopyOnWrite(l'.entry)
  {
    hide Walk, Addr, PageNo, LeafEntry, EntrySize, LevelOf, FrameBits;
    FaultInvisible(mem, ram, root, top, va, page, mem', ram');
    PlainUser();
    LeafEntryBits(page, LevelOf(Walk(mem, root, top, va).size), 4);
  }
}

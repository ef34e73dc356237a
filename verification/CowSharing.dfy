/**
 What parent and child see of each other's writes after a fork: byte for byte, over stores and write faults.
 Pages handed out on a fault come from the physical page allocator, so that they are fresh because of its live sets.
 */
module CowSharing {
  import opened Bytes
  import opened PageTable
  import opened PageMap
  import opened PageRange
  import opened PageFork
  import opened CowFault
  import P = PhysPages

  // ---------------------------------------------------------------- fresh pages

  /** Does physical byte b, if it is one, belong to a live page or block, or to a reserved block? */
  predicate LiveByte(reserved: set<nat>, l: P.Ledger, b: int) {
    b < 0 || P.InUse(reserved, l, b)
  }

  /** Every byte an address space reads is live or reserved. */
  ghost predicate ReadsLive(mem: Memory, root: nat, reserved: set<nat>, l: P.Ledger) {
    forall va :: LiveByte(reserved, l, Physical(mem, root, 4, va))
  }

  /** The address space reads nothing of the page. */
  ghost predicate Unread(mem: Memory, root: nat, page: bv64, size: nat) {
    forall va :: !Within(Physical(mem, root, 4, va), page, size)
  }

  /** `pages_allocatePage` of either size; there are no 1 GiB pages. */
  function Allocated(p: P.Pages, size: nat): (P.Pages, P.Option<nat>)
    requires P.Shape(p)
  {
    if size == 0x1000 then P.Alloc4(p) else if size == 0x20_0000 then P.Alloc2(p) else (p, P.None)
  }

  function WithAllocated(l: P.Ledger, size: nat, r: P.Option<nat>): P.Ledger {
    if size == 0x1000 then P.WithPage(l, r) else if size == 0x20_0000 then P.WithBlock(l, r) else l
  }

  /** Is page the one the allocator hands out for this size? */
  predicate HandsOut(p: P.Pages, size: nat, page: bv64) {
    P.Shape(p) && Allocated(p, size).1.Some? && Addr(page) == Allocated(p, size).1.value * size
  }

  /** A byte of a page just handed out was not live, and is now. */
  lemma HandedOutByte(reserved: set<nat>, p: P.Pages, l: P.Ledger, size: nat, page: bv64, b: nat)
    requires P.Sound(reserved, p, l) && HandsOut(p, size, page) && Within(b, page, size)
    ensures !LiveByte(reserved, l, b) && LiveByte(reserved, WithAllocated(l, size, Allocated(p, size).1), b)
  {
    hide P.Alloc2, P.Alloc4, Addr;
    var r := Allocated(p, size).1.value;
    if size == 0x1000 {
      P.Alloc4Sound(reserved, p, l);
      assert b / 0x1000 == r && b / 0x20_0000 == r / 512;
    } else {
      P.Alloc2Sound(reserved, p, l);
      assert b / 0x20_0000 == r && b / 0x1000 / 512 == r;
    }
  }

  /** A page the allocator hands out is read by no address space whose bytes are all live. */
  lemma HandedOutUnread(reserved: set<nat>, p: P.Pages, l: P.Ledger, size: nat, page: bv64, mem: Memory, root: nat)
    requires P.Sound(reserved, p, l) && HandsOut(p, size, page) && ReadsLive(mem, root, reserved, l)
    ensures Unread(mem, root, page, size)
  {
    hide P.Sound, HandsOut, Physical, LiveByte;
    forall va | Within(Physical(mem, root, 4, va), page, size)
      ensures false
    {
      HandedOutByte(reserved, p, l, size, page, Physical(mem, root, 4, va));
    }
  }

  lemma AllocatedSound(reserved: set<nat>, p: P.Pages, l: P.Ledger, size: nat)
    requires P.Sound(reserved, p, l)
    ensures P.Shape(p) && P.Sound(reserved, Allocated(p, size).0, WithAllocated(l, size, Allocated(p, size).1))
  {
    hide P.Alloc2, P.Alloc4;
    P.Alloc4Sound(reserved, p, l);
    P.Alloc2Sound(reserved, p, l);
  }

  /** A fault served by the allocator changes no byte the process reads and leaves the old frame alone. */
  lemma ServedFault(reserved: set<nat>, p: P.Pages, l: P.Ledger, mem: Memory, ram: seq<byte>, root: nat, va: nat, page: bv64,
                    mem': Memory, ram': seq<byte>)
    requires P.Sound(reserved, p, l) && ReadsLive(mem, root, reserved, l) && root != 0 && Aligned(page)
    requires Resolved(mem, ram, root, 4, va, page, mem', ram') && HandsOut(p, Walk(mem, root, 4, va).size, page)
    ensures forall va' :: ByteSeen(mem', ram', root, 4, va') == ByteSeen(mem, ram, root, 4, va')
    ensures |ram'| == |ram| && forall q :: 0 <= q < |ram| && !Within(q, page, Walk(mem, root, 4, va).size) ==> ram'[q] == ram[q]
    ensures var l' := Walk(mem', root, 4, va);
      l'.Leaf? && l'.size == Walk(mem, root, 4, va).size && FrameBits(l'.entry) == page && Writable(l'.entry) && !CopyOnWrite(l'.entry)
  {
    hide Walk, Physical, Addr, PageNo, LevelOf, LeafEntry, P.Sound, P.Alloc2, P.Alloc4, CopyWithin, FrameOf, FrameBits, ByteSeen, HandsOut, ReadsLive;
    AlignedPage(page);
    HandedOutUnread(reserved, p, l, Walk(mem, root, 4, va).size, page, mem, root);
    UnreadAll(mem, root, page, Walk(mem, root, 4, va).size);
    FreshFault(mem, ram, root, 4, va, page, mem', ram');
  }

  lemma AlignedPage(page: bv64)
    requires Aligned(page)
    ensures FrameBits(page) == page
  {
  }

  lemma UnreadAll(mem: Memory, root: nat, page: bv64, size: nat)
    requires Unread(mem, root, page, size)
    ensures forall va :: !Within(Physical(mem, root, 4, va), page, size)
  {
  }

  // ---------------------------------------------------------------- parent and child

  /** Two address spaces after a fork: their roots, memory as the fork left it, and the blocks boot reserved. */
  datatype Family = Family(parent: nat, child: nat, start: Memory, reserved: set<nat>)

  datatype State = State(mem: Memory, pool: seq<bv64>, ram: seq<byte>, pages: P.Pages, live: P.Ledger)

  /** The parent's translation of va, which never changes. */
  function Origin(f: Family, va: nat): Lookup {
    Walk(f.start, f.parent, 4, va)
  }

  /** Do va and the faulting address v lie in one page? */
  predicate InPage(f: Family, v: nat, va: nat) {
    var l := Origin(f, v);
    l.Leaf? && PageNo(LevelOf(l.size), va) == PageNo(LevelOf(l.size), v)
  }

  /** Has the child faulted on the page of va? */
  ghost predicate Faulted(f: Family, done: seq<nat>, va: nat) {
    exists i :: 0 <= i < |done| && InPage(f, done[i], va)
  }

  /** The child's page of va is writable, and the parent reads nothing of it. */
  ghost predicate Own(f: Family, s: State, va: nat) {
    var l := Walk(s.mem, f.child, 4, va);
    l.Leaf? && l.size > 0 && Writable(l.entry) && !CopyOnWrite(l.entry) && Unread(s.mem, f.parent, FrameBits(l.entry), l.size)
  }

  ghost predicate ChildLeaf(f: Family, s: State, done: seq<nat>, va: nat) {
    if Faulted(f, done, va) then Own(f, s, va) else Walk(s.mem, f.child, 4, va) == CopyOf(Origin(f, va))
  }

  ghost predicate Apart(f: Family, s: State) {
    && f.parent != 0 && f.child != 0 && Ready(s.mem, s.pool, f.parent, 4) && Ready(s.mem, s.pool, f.child, 4)
    && Tables(s.mem, f.parent, 4) !! Tables(s.mem, f.child, 4)
  }

  /** The parent translates as at the fork; the child has its own copy of every page it faulted on and shares the others. */
  ghost predicate Sharing(f: Family, s: State, done: seq<nat>) {
    && (forall va :: Walk(s.mem, f.parent, 4, va) == Origin(f, va))
    && forall va :: ChildLeaf(f, s, done, va)
  }

  ghost predicate Inv(f: Family, s: State, done: seq<nat>) {
    && Apart(f, s) && Sharing(f, s, done) && P.Sound(f.reserved, s.pages, s.live)
    && ReadsLive(s.mem, f.parent, f.reserved, s.live) && ReadsLive(s.mem, f.child, f.reserved, s.live)
  }

  /** A leaf that keeps its frame reads from the same place. */
  lemma CopyReads(mem: Memory, root: nat, mem': Memory, root': nat, va: nat)
    requires root != 0 && root' != 0 && Walk(mem', root', 4, va) == CopyOf(Walk(mem, root, 4, va))
    ensures Physical(mem', root', 4, va) == Physical(mem, root, 4, va)
  {
    hide Walk, Addr, CowMark, OffsetIn;
    var l := Walk(mem, root, 4, va);
    if l.Leaf? {
      CowMarkMeaning(l.entry);
    }
  }

  lemma OwnReads(mem: Memory, root: nat, va: nat)
    requires root != 0 && Walk(mem, root, 4, va).Leaf? && Walk(mem, root, 4, va).size > 0
    ensures var l := Walk(mem, root, 4, va); Within(Physical(mem, root, 4, va), FrameBits(l.entry), l.size)
  {
    hide Walk, FrameBits, Addr;
  }

  /** Where the child reads, compared with where the parent reads. */
  lemma WhereRead(f: Family, s: State, done: seq<nat>, va: nat)
    requires Inv(f, s, done)
    ensures !Faulted(f, done, va) ==> Physical(s.mem, f.child, 4, va) == Physical(s.mem, f.parent, 4, va)
    ensures Faulted(f, done, va) ==> forall va' :: Physical(s.mem, f.parent, 4, va') != Physical(s.mem, f.child, 4, va)
  {
    hide Walk, Physical, Tables, Ready, P.Sound, ReadsLive, Faulted, FrameBits, CowMark;
    assert ChildLeaf(f, s, done, va);
    if Faulted(f, done, va) {
      OwnReads(s.mem, f.child, va);
    } else {
      assert Walk(s.mem, f.parent, 4, va) == Origin(f, va);
      CopyReads(s.mem, f.parent, s.mem, f.child, va);
    }
  }

  /** After a fork nothing has been faulted on, and both read the same bytes. */
  lemma ForkShares(mem: Memory, pool: seq<bv64>, root: nat, mem': Memory, pool': seq<bv64>, child: nat, ram: seq<byte>,
                   reserved: set<nat>, p: P.Pages, l: P.Ledger)
    requires Forked(mem, pool, root, 4, mem', pool', child) && root != 0 && child != 0
    requires P.Sound(reserved, p, l) && ReadsLive(mem, root, reserved, l)
    ensures Inv(Family(root, child, mem', reserved), State(mem', pool', ram, p, l), [])
    ensures forall va :: ByteSeen(mem', ram, child, 4, va) == ByteSeen(mem, ram, root, 4, va)
  {
    hide Walk, Physical, Tables, Ready, P.Sound, LiveByte, CowMark;
    forall va
      ensures Walk(mem', root, 4, va) == Walk(mem, root, 4, va) && Walk(mem', child, 4, va) == CopyOf(Walk(mem', root, 4, va))
      ensures Physical(mem', root, 4, va) == Physical(mem, root, 4, va) == Physical(mem', child, 4, va)
    {
      SamePhysical(mem, mem', root, 4, va);
      CopyReads(mem', root, mem', child, va);
    }
  }

  // ---------------------------------------------------------------- stores

  /** The processor lets a store through to a present, writable page. */
  predicate CanWrite(mem: Memory, root: nat, va: nat) {
    var l := Translate(mem, root, 4, va);
    l.Leaf? && Writable(l.entry)
  }

  /** Data memory after a process stores byte b at va, or tries to. */
  function Stored(mem: Memory, ram: seq<byte>, root: nat, va: nat, b: byte): (r: seq<byte>)
    ensures |r| == |ram|
  {
    var x := Physical(mem, root, 4, va);
    if CanWrite(mem, root, va) && 0 <= x < |ram| then ram[x := b] else ram
  }

  /** Does the store change what lies at physical byte x? */
  predicate Hits(mem: Memory, ram: seq<byte>, root: nat, va: nat, b: byte, x: int) {
    CanWrite(mem, root, va) && 0 <= x < |ram| && x == Physical(mem, root, 4, va) && ram[x] != b
  }

  lemma StoreSeen(mem: Memory, ram: seq<byte>, root: nat, va: nat, b: byte, reader: nat, va': nat)
    ensures ByteSeen(mem, Stored(mem, ram, root, va, b), reader, 4, va') != ByteSeen(mem, ram, reader, 4, va')
        <==> Hits(mem, ram, root, va, b, Physical(mem, reader, 4, va'))
  {
    hide Physical, CanWrite;
  }

  /**
   A store by the parent changes a byte the child sees exactly when the page is writable, the byte is one both read, and the
   child has not faulted on its page.
   */
  lemma ParentStoreSeen(f: Family, s: State, done: seq<nat>, va: nat, b: byte, va': nat)
    requires Inv(f, s, done)
    ensures var ram' := Stored(s.mem, s.ram, f.parent, va, b);
      ByteSeen(s.mem, ram', f.child, 4, va') != ByteSeen(s.mem, s.ram, f.child, 4, va')
      <==> !Faulted(f, done, va') && Hits(s.mem, s.ram, f.parent, va, b, Physical(s.mem, f.parent, 4, va'))
  {
    hide Physical, CanWrite, Walk, Inv, Faulted, ByteSeen, Stored;
    StoreSeen(s.mem, s.ram, f.parent, va, b, f.child, va');
    WhereRead(f, s, done, va');
  }

  /**
   A store by the child changes a byte the parent sees exactly when the child has not faulted on the page, and it is a
   writable page at physical address 0: fork leaves that one writable in both.
   */
  lemma ChildStoreSeen(f: Family, s: State, done: seq<nat>, va: nat, b: byte, va': nat)
    requires Inv(f, s, done)
    ensures var ram' := Stored(s.mem, s.ram, f.child, va, b); var o := Origin(f, va); var x := Physical(s.mem, f.parent, 4, va);
      ByteSeen(s.mem, ram', f.parent, 4, va') != ByteSeen(s.mem, s.ram, f.parent, 4, va')
      <==> && !Faulted(f, done, va) && o.Leaf? && Writable(o.entry) && FrameBits(o.entry) == 0
           && 0 <= x < |s.ram| && s.ram[x] != b && Physical(s.mem, f.parent, 4, va') == x
  {
    hide Physical, Walk, Faulted, ByteSeen, Stored, Tables, Ready, P.Sound, ReadsLive, FrameBits, Writable, CowMark, Own;
    StoreSeen(s.mem, s.ram, f.child, va, b, f.parent, va');
    WhereRead(f, s, done, va);
    assert ChildLeaf(f, s, done, va);
    if !Faulted(f, done, va) && Origin(f, va).Leaf? {
      CowMarkMeaning(Origin(f, va).entry);
    }
  }

  // ---------------------------------------------------------------- faults

  /** `exception_handler` served the child's write fault at va with a page from the allocator. */
  ghost predicate FaultServed(f: Family, s: State, va: nat, page: bv64, s': State) {
    var l := Walk(s.mem, f.child, 4, va);
    && l.Leaf? && CopyOnWrite(l.entry) && Aligned(page) && HandsOut(s.pages, l.size, page)
    && Resolved(s.mem, s.ram, f.child, 4, va, page, s'.mem, s'.ram)
    && Ready(s'.mem, s'.pool, f.child, 4) && OwnOnly(s.mem, s.pool, f.child, s'.mem, s'.pool, f.child, 4)
    && s'.pages == Allocated(s.pages, l.size).0 && s'.live == WithAllocated(s.live, l.size, Allocated(s.pages, l.size).1)
  }

  /** Another process's tables are none of those a fault writes. */
  lemma OtherTables(f: Family, s: State, mem': Memory, pool': seq<bv64>)
    requires Apart(f, s) && Ready(mem', pool', f.child, 4) && OwnOnly(s.mem, s.pool, f.child, mem', pool', f.child, 4)
    ensures Ready(mem', pool', f.parent, 4) && Tables(mem', f.parent, 4) !! Tables(mem', f.child, 4)
    ensures SameTranslation(s.mem, mem', f.parent, 4)
  {
    hide TreeOk, Tables, Walk, Addr, Aligned;
    forall a | a in Tables(s.mem, f.parent, 4)
      ensures !Popped(s.pool, pool', a)
    {
    }
    SubtreeDependsOnTables(s.mem, mem', f.parent, 4);
    forall k | 0 <= k < |pool'|
      ensures pool'[k] == s.pool[k]
    {
    }
  }

  /** What another process reads after a fault: only bytes of the page handed out can have changed. */
  lemma OtherSees(mem: Memory, ram: seq<byte>, root: nat, va: nat, page: bv64, mem': Memory, ram': seq<byte>, reader: nat, va': nat)
    requires Resolved(mem, ram, root, 4, va, page, mem', ram') && SameTranslation(mem, mem', reader, 4)
    ensures var l, x := Walk(mem, root, 4, va), Physical(mem, reader, 4, va');
      ByteSeen(mem', ram', reader, 4, va')
        == if Within(x, page, l.size) then ram[FrameOf(l.entry) + (x - Addr(page))] else ByteSeen(mem, ram, reader, 4, va')
  {
    hide Walk, Addr, FrameOf, PageNo, LevelOf, LeafEntry, Physical, CopyWithin;
    var l := Walk(mem, root, 4, va);
    SamePhysical(mem, mem', reader, 4, va');
    CopyAt(ram, Addr(page), FrameOf(l.entry), l.size, Physical(mem, reader, 4, va'));
  }

  /** The child's leaf in the page it faulted on. */
  lemma OwnNow(f: Family, s: State, va: nat, page: bv64, s': State, va': nat)
    requires FaultServed(f, s, va, page, s') && f.child != 0 && Unread(s'.mem, f.parent, page, Walk(s.mem, f.child, 4, va).size)
    requires var n := LevelOf(Walk(s.mem, f.child, 4, va).size); PageNo(n, va') == PageNo(n, va)
    ensures Own(f, s', va')
  {
    hide Walk, Addr, PageNo, LevelOf, FrameBits, PlainFlags, EntrySize, Ready, OwnOnly, HandsOut, Unread, LeafEntry;
    LeafSizes(s.mem, f.child, 4, va);
    PlainUser();
    LeafEntryBits(page, LevelOf(Walk(s.mem, f.child, 4, va).size), 4);
    AlignedPage(page);
  }

  lemma FaultedNow(f: Family, done: seq<nat>, va: nat, va': nat)
    ensures Faulted(f, done + [va], va') <==> Faulted(f, done, va') || InPage(f, va, va')
  {
    hide InPage;
    var done' := done + [va];
    if Faulted(f, done, va') {
      var i :| 0 <= i < |done| && InPage(f, done[i], va');
      assert done'[i] == done[i];
    }
    if InPage(f, va, va') {
      assert done'[|done|] == va;
    }
  }

  /** The child's page before the fault is still the shared one. */
  lemma NotYetFaulted(f: Family, s: State, done: seq<nat>, va: nat)
    requires Inv(f, s, done) && Walk(s.mem, f.child, 4, va).Leaf? && CopyOnWrite(Walk(s.mem, f.child, 4, va).entry)
    ensures !Faulted(f, done, va) && Origin(f, va).Leaf? && Origin(f, va).size == Walk(s.mem, f.child, 4, va).size
  {
    hide Walk, Tables, Ready, P.Sound, ReadsLive, Faulted, CowMark, CopyOnWrite;
    assert ChildLeaf(f, s, done, va);
  }

  /** A fault of the child leaves both sharing, its own page apart. */
  lemma FaultKeepsSharing(f: Family, s: State, done: seq<nat>, va: nat, page: bv64, s': State)
    requires Inv(f, s, done) && FaultServed(f, s, va, page, s') && SameTranslation(s.mem, s'.mem, f.parent, 4)
    ensures Sharing(f, s', done + [va])
  {
    hide Walk, Tables, Ready, P.Sound, Faulted, Physical, LevelOf, PageNo, LeafEntry, CowMark, OwnOnly, HandsOut, LiveByte, FrameBits;
    NotYetFaulted(f, s, done, va);
    HandedOutUnread(f.reserved, s.pages, s.live, Walk(s.mem, f.child, 4, va).size, page, s.mem, f.parent);
    forall va' ensures Physical(s'.mem, f.parent, 4, va') == Physical(s.mem, f.parent, 4, va') {
      SamePhysical(s.mem, s'.mem, f.parent, 4, va');
    }
    forall va'
      ensures ChildLeaf(f, s', done + [va], va')
    {
      FaultedNow(f, done, va, va');
      assert ChildLeaf(f, s, done, va');
      if InPage(f, va, va') {
        OwnNow(f, s, va, page, s', va');
      } else {
        assert Walk(s'.mem, f.child, 4, va') == Walk(s.mem, f.child, 4, va');
      }
    }
  }

  lemma FaultReadsLive(f: Family, s: State, done: seq<nat>, va: nat, page: bv64, s': State)
    requires Inv(f, s, done) && FaultServed(f, s, va, page, s') && SameTranslation(s.mem, s'.mem, f.parent, 4)
    ensures ReadsLive(s'.mem, f.parent, f.reserved, s'.live) && ReadsLive(s'.mem, f.child, f.reserved, s'.live)
  {
    hide Walk, Tables, Ready, P.Sound, Faulted, LevelOf, PageNo, LeafEntry, OwnOnly, FrameBits, Sharing, Physical, P.Alloc2, P.Alloc4;
    forall va'
      ensures LiveByte(f.reserved, s'.live, Physical(s'.mem, f.parent, 4, va'))
      ensures LiveByte(f.reserved, s'.live, Physical(s'.mem, f.child, 4, va'))
    {
      SamePhysical(s.mem, s'.mem, f.parent, 4, va');
      assert LiveByte(f.reserved, s.live, Physical(s.mem, f.parent, 4, va'));
      assert LiveByte(f.reserved, s.live, Physical(s.mem, f.child, 4, va'));
      ChildReadsLive(f, s, va, page, s', va');
    }
  }

  lemma ChildReadsLive(f: Family, s: State, va: nat, page: bv64, s': State, va': nat)
    requires FaultServed(f, s, va, page, s') && f.child != 0 && P.Sound(f.reserved, s.pages, s.live)
    requires LiveByte(f.reserved, s.live, Physical(s.mem, f.child, 4, va'))
    ensures LiveByte(f.reserved, s'.live, Physical(s'.mem, f.child, 4, va'))
  {
    hide Walk, Tables, Ready, P.Sound, LevelOf, PageNo, LeafEntry, OwnOnly, FrameBits, HandsOut, Physical, P.Alloc2, P.Alloc4, Addr;
    var l := Walk(s.mem, f.child, 4, va);
    if PageNo(LevelOf(l.size), va') == PageNo(LevelOf(l.size), va) {
      LeafSizes(s.mem, f.child, 4, va);
      PlainUser();
      LeafEntryBits(page, LevelOf(l.size), 4);
      AlignedPage(page);
      OwnReads(s'.mem, f.child, va');
      HandedOutByte(f.reserved, s.pages, s.live, l.size, page, Physical(s'.mem, f.child, 4, va'));
    } else {
      SamePhysical(s.mem, s'.mem, f.child, 4, va');
    }
  }

  /** A fault of the child changes no byte that either of the two reads, and keeps the invariant. */
  lemma FaultUnseen(f: Family, s: State, done: seq<nat>, va: nat, page: bv64, s': State)
    requires Inv(f, s, done) && FaultServed(f, s, va, page, s')
    ensures Inv(f, s', done + [va])
    ensures forall va' :: ByteSeen(s'.mem, s'.ram, f.parent, 4, va') == ByteSeen(s.mem, s.ram, f.parent, 4, va')
    ensures forall va' :: ByteSeen(s'.mem, s'.ram, f.child, 4, va') == ByteSeen(s.mem, s.ram, f.child, 4, va')
  {
    hide Walk, Tables, P.Sound, Faulted, LevelOf, PageNo, LeafEntry, FrameBits, Sharing, Physical, P.Alloc2, P.Alloc4, Addr, ByteSeen,
         Resolved, Ready, OwnOnly, HandsOut, ReadsLive, Unread;
    OtherTables(f, s, s'.mem, s'.pool);
    FaultKeepsSharing(f, s, done, va, page, s');
    FaultReadsLive(f, s, done, va, page, s');
    AllocatedSound(f.reserved, s.pages, s.live, Walk(s.mem, f.child, 4, va).size);
    ServedFault(f.reserved, s.pages, s.live, s.mem, s.ram, f.child, va, page, s'.mem, s'.ram);
    HandedOutUnread(f.reserved, s.pages, s.live, Walk(s.mem, f.child, 4, va).size, page, s.mem, f.parent);
    UnreadAll(s.mem, f.parent, page, Walk(s.mem, f.child, 4, va).size);
    forall va'
      ensures ByteSeen(s'.mem, s'.ram, f.parent, 4, va') == ByteSeen(s.mem, s.ram, f.parent, 4, va')
    {
      OtherSees(s.mem, s.ram, f.child, va, page, s'.mem, s'.ram, f.parent, va');
    }
  }

  /** The page `WriteFault` takes for a size is the one the allocator hands out. */
  predicate Offers(p: P.Pages, pool: seq<bv64>, big: seq<bv64>, size: nat) {
    var page := if size == 0x1000 && pool != [] then pool[|pool| - 1] else if size == 0x20_0000 && big != [] then big[|big| - 1] else 0;
    Aligned(page) && HandsOut(p, size, page)
  }

  /** Does the parent's page of va make the child's copy fault on a write? */
  predicate Marked(f: Family, va: nat) {
    var o := Origin(f, va);
    o.Leaf? && ((Writable(o.entry) && FrameBits(o.entry) != 0) || CopyOnWrite(o.entry))
  }

  lemma MarkedLeaf(f: Family, s: State, done: seq<nat>, va: nat)
    requires Inv(f, s, done)
    ensures var l := Walk(s.mem, f.child, 4, va); l.Leaf? && CopyOnWrite(l.entry) <==> Marked(f, va) && !Faulted(f, done, va)
  {
    hide Walk, Tables, Ready, P.Sound, ReadsLive, Faulted, CowMark, FrameBits, Writable, CopyOnWrite, Unread;
    assert ChildLeaf(f, s, done, va);
    if Origin(f, va).Leaf? {
      CowMarkMeaning(Origin(f, va).entry);
    }
  }

  /** The child's page after it faulted on it. */
  lemma WritableNow(f: Family, s: State, done: seq<nat>, va: nat, s': State)
    requires Inv(f, s', done + [va]) && Marked(f, va)
    ensures Faulted(f, done + [va], va) && CanWrite(s'.mem, f.child, va)
  {
    hide Walk, Tables, Ready, P.Sound, ReadsLive, Faulted, CowMark, FrameBits, Writable, CopyOnWrite, Unread;
    FaultedNow(f, done, va, va);
    assert ChildLeaf(f, s', done + [va], va);
  }

  /**
   The page-fault case of `exception_handler` while the child runs: a write to a marked page it has not faulted on gives it a
   page of its own, and neither process reads a different byte.
   */
  method ChildFault(m: Machine, ram: PhysicalMemory, ref: RootRef, va: nat, ghost f: Family, ghost s: State, ghost done: seq<nat>)
    returns (handled: bool, ghost s': State)
    requires Inv(f, s, done) && s.mem == m.mem && s.pool == m.pool && s.ram == ram.bytes && ref.root == f.child
    requires FaultReady(m.mem, m.pool, ram.bytes, ram.big, ref.root, 4, va)
    requires Marked(f, va) && !Faulted(f, done, va) ==> Offers(s.pages, m.pool, ram.big, Origin(f, va).size)
    modifies m, ram, ref
    ensures s'.mem == m.mem && s'.pool == m.pool && s'.ram == ram.bytes && ref.root == f.child
    ensures handled <==> Marked(f, va) && !Faulted(f, done, va)
    ensures Inv(f, s', if handled then done + [va] else done)
    ensures forall va' :: ByteSeen(s'.mem, s'.ram, f.parent, 4, va') == ByteSeen(s.mem, s.ram, f.parent, 4, va')
    ensures forall va' :: ByteSeen(s'.mem, s'.ram, f.child, 4, va') == ByteSeen(s.mem, s.ram, f.child, 4, va')
    ensures handled ==> Faulted(f, done + [va], va) && CanWrite(m.mem, f.child, va)
  {
    hide Walk, Physical, Tables, Inv, Resolved, Ready, OwnOnly, HandsOut, ByteSeen, FaultReady, P.Alloc2, P.Alloc4, Faulted, CanWrite, Marked,
         Origin, CopyOnWrite, Aligned, PageNo;
    MarkedLeaf(f, s, done, va);
    ghost var page;
    handled, page := WriteFault(m, ram, ref, 4, va, true);
    if handled {
      ghost var size := Walk(s.mem, f.child, 4, va).size;
      NotYetFaulted(f, s, done, va);
      OfferedShape(s.pages, size, page);
      s' := State(m.mem, m.pool, ram.bytes, Allocated(s.pages, size).0, WithAllocated(s.live, size, Allocated(s.pages, size).1));
      FaultUnseen(f, s, done, va, page, s');
      WritableNow(f, s, done, va, s');
    } else {
      s' := s;
    }
  }

  lemma OfferedShape(p: P.Pages, size: nat, page: bv64)
    requires HandsOut(p, size, page)
    ensures P.Shape(p)
  {
  }

  // ---------------------------------------------------------------- runs

  datatype Op = Fault(va: nat) | ChildStore(va: nat, b: byte) | ParentStore(va: nat, b: byte)

  ghost predicate Step(f: Family, s: State, op: Op, s': State) {
    match op
    case Fault(va) => exists page :: FaultServed(f, s, va, page, s')
    case ChildStore(va, b) => s' == s.(ram := Stored(s.mem, s.ram, f.child, va, b))
    case ParentStore(va, b) => s' == s.(ram := Stored(s.mem, s.ram, f.parent, va, b))
  }

  /** The addresses faulted on, in order. */
  function Faults(done: seq<nat>, op: Op): seq<nat> {
    if op.Fault? then done + [op.va] else done
  }

  /** Successive steps of the two processes, with the faults so far. */
  ghost predicate IsRun(f: Family, states: seq<State>, ops: seq<Op>, dones: seq<seq<nat>>) {
    && |states| == |dones| == |ops| + 1
    && forall k :: 0 <= k < |ops| ==> Step(f, states[k], ops[k], states[k + 1]) && dones[k + 1] == Faults(dones[k], ops[k])
  }

  lemma StepKept(f: Family, s: State, done: seq<nat>, op: Op, s': State)
    requires Inv(f, s, done) && Step(f, s, op, s')
    ensures Inv(f, s', Faults(done, op))
  {
    hide Walk, Tables, P.Sound, Faulted, Ready, Sharing, ReadsLive, FaultServed, Stored;
    if op.Fault? {
      var page :| FaultServed(f, s, op.va, page, s');
      FaultUnseen(f, s, done, op.va, page, s');
    } else {
      StoredKept(f, s, done, s'.ram);
    }
  }

  lemma StoredKept(f: Family, s: State, done: seq<nat>, ram: seq<byte>)
    requires Inv(f, s, done)
    ensures Inv(f, s.(ram := ram), done)
  {
    hide Walk, Tables, P.Sound, Faulted, Ready, ReadsLive, Unread, CowMark;
    var s' := s.(ram := ram);
    forall va ensures ChildLeaf(f, s', done, va) {
      assert ChildLeaf(f, s, done, va);
    }
  }

  /** Every run keeps the invariant: a page is shared until the child faults on it, and the child's own from then on. */
  lemma {:induction false} RunKept(f: Family, states: seq<State>, ops: seq<Op>, dones: seq<seq<nat>>, k: nat)
    requires IsRun(f, states, ops, dones) && k < |states| && Inv(f, states[0], dones[0])
    ensures Inv(f, states[k], dones[k])
    decreases k
  {
    hide Inv, Step;
    if k > 0 {
      RunKept(f, states, ops, dones, k - 1);
      StepKept(f, states[k - 1], dones[k - 1], ops[k - 1], states[k]);
    }
  }

  /** Does the op write nothing for the parent to see: no store of its own, and none by the child to a writable page at address 0? */
  predicate SparesParent(f: Family, op: Op) {
    match op
    case Fault(va) => true
    case ChildStore(va, b) => var o := Origin(f, va); !(o.Leaf? && Writable(o.entry) && FrameBits(o.entry) == 0)
    case ParentStore(va, b) => false
  }

  lemma ParentSpared(f: Family, s: State, done: seq<nat>, op: Op, s': State, va: nat)
    requires Inv(f, s, done) && Step(f, s, op, s') && SparesParent(f, op)
    ensures ByteSeen(s'.mem, s'.ram, f.parent, 4, va) == ByteSeen(s.mem, s.ram, f.parent, 4, va)
  {
    hide Walk, Inv, FaultServed, Stored, ByteSeen, Faulted, FrameBits, Physical, Origin;
    if op.Fault? {
      var page :| FaultServed(f, s, op.va, page, s');
      FaultUnseen(f, s, done, op.va, page, s');
    } else {
      ChildStoreSeen(f, s, done, op.va, op.b, va);
    }
  }

  /** Whatever the child stores and faults on, the parent reads what it read before. */
  lemma {:induction false} ParentIsolated(f: Family, states: seq<State>, ops: seq<Op>, dones: seq<seq<nat>>, k: nat, va: nat)
    requires IsRun(f, states, ops, dones) && k < |states| && Inv(f, states[0], dones[0])
    requires forall i :: 0 <= i < k ==> SparesParent(f, ops[i])
    ensures ByteSeen(states[k].mem, states[k].ram, f.parent, 4, va) == ByteSeen(states[0].mem, states[0].ram, f.parent, 4, va)
    decreases k
  {
    hide Inv, Step, ByteSeen, SparesParent;
    if k > 0 {
      ParentIsolated(f, states, ops, dones, k - 1, va);
      RunKept(f, states, ops, dones, k - 1);
      ParentSpared(f, states[k - 1], dones[k - 1], ops[k - 1], states[k], va);
    }
  }

  lemma ChildSpared(f: Family, s: State, done: seq<nat>, op: Op, s': State, va: nat)
    requires Inv(f, s, done) && Step(f, s, op, s') && Faulted(f, done, va) && !op.ChildStore?
    ensures ByteSeen(s'.mem, s'.ram, f.child, 4, va) == ByteSeen(s.mem, s.ram, f.child, 4, va) && Faulted(f, Faults(done, op), va)
  {
    hide Walk, Inv, FaultServed, Stored, ByteSeen, Faulted, FrameBits, Physical, Origin, Hits;
    if op.Fault? {
      var page :| FaultServed(f, s, op.va, page, s');
      FaultUnseen(f, s, done, op.va, page, s');
      FaultedNow(f, done, op.va, va);
    } else {
      ParentStoreSeen(f, s, done, op.va, op.b, va);
    }
  }

  /** Once the child has faulted on a page, nothing but its own stores changes what it reads there. */
  lemma {:induction false} ChildIsolated(f: Family, states: seq<State>, ops: seq<Op>, dones: seq<seq<nat>>, k: nat, va: nat)
    requires IsRun(f, states, ops, dones) && k < |states| && Inv(f, states[0], dones[0]) && Faulted(f, dones[0], va)
    requires forall i :: 0 <= i < k ==> !ops[i].ChildStore?
    ensures ByteSeen(states[k].mem, states[k].ram, f.child, 4, va) == ByteSeen(states[0].mem, states[0].ram, f.child, 4, va)
    ensures Faulted(f, dones[k], va)
    decreases k
  {
    hide Inv, Step, ByteSeen, Faulted;
    if k > 0 {
      ChildIsolated(f, states, ops, dones, k - 1, va);
      RunKept(f, states, ops, dones, k - 1);
      ChildSpared(f, states[k - 1], dones[k - 1], ops[k - 1], states[k], va);
    }
  }
}

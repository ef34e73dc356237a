/**
 Copying an address space for fork: `pageTable_fork` and `copy_table_level`.
 */
module PageFork {
  import opened PageTable
  import opened PageMap

  /** What fork makes of a leaf: a writable page with a frame becomes copy-on-write. */
  function CowMark(e: Entry): Entry {
    if Writable(e) && FrameBits(e) != 0 then (e | 0x0010_0000_0000_0000) & 0xFFFF_FFFF_FFFF_FFFD else e
  }

  function CopyOf(l: Lookup): Lookup {
    if l.Leaf? then Leaf(CowMark(l.entry), l.size) else Unmapped
  }

  /** The entry of a copied table: its new frame under the low flags of the old entry. */
  function Relink(c: bv64, e: Entry): Entry { FrameBits(c) | (e & 0xFFF) }

  lemma CowMarkMeaning(e: Entry)
    ensures var c := CowMark(e);
      && Present(c) == Present(e) && BigPage(c) == BigPage(e) && FrameBits(c) == FrameBits(e)
      && (if Writable(e) && FrameBits(e) != 0 then !Writable(c) && CopyOnWrite(c) else c == e)
  {
  }

  lemma RelinkMeaning(c: bv64, e: Entry)
    requires Aligned(c)
    ensures Present(Relink(c, e)) == Present(e) && BigPage(Relink(c, e)) == BigPage(e) && FrameBits(Relink(c, e)) == c
  {
  }

  /** Besides the writable bit 1 and the copy-on-write bit 52 the two entries are the same, and those two change only together. */
  predicate SameButShared(e: Entry, c: Entry) {
    && c & 0xFFEF_FFFF_FFFF_FFFD == e & 0xFFEF_FFFF_FFFF_FFFD
    && if e & 0x002 != 0 && e & 0x000F_FFFF_FFFF_F000 != 0 then c & 0x0010_0000_0000_0002 == 0x0010_0000_0000_0000 else c == e
  }

  lemma CowMarkShares(e: Entry)
    ensures SameButShared(e, CowMark(e))
  {
  }

  /** Outside its frame a table entry's copy has the original's low twelve bits and nothing else. */
  predicate LowBitsKept(e: Entry, c: Entry) { c & 0xFFF0_0000_0000_0FFF == e & 0xFFF }

  lemma RelinkKeepsLowBits(c: bv64, e: Entry)
    requires Aligned(c)
    ensures LowBitsKept(e, Relink(c, e))
  {
  }

  /** Every table entry below o has its low bits in the copy below e. */
  ghost predicate SlotLinks(mem0: Memory, o: Entry, mem: Memory, e: Entry, level: nat)
    decreases level, 0
  {
    IsTable(o, level) ==> IsTable(e, level) && LowBitsKept(o, e) && TableLinks(mem0, FrameOf(o), mem, FrameOf(e), level - 1)
  }

  ghost predicate TableLinks(mem0: Memory, src: nat, mem: Memory, dst: nat, level: nat)
    decreases level, 1
  {
    && src in mem0 && |mem0[src]| == ENTRIES && dst in mem && |mem[dst]| == ENTRIES
    && forall i :: 0 <= i < ENTRIES ==> SlotLinks(mem0, mem0[src][i], mem, mem[dst][i], level)
  }

  lemma {:induction false} LinksDependOnTables(mem0: Memory, o: Entry, mem: Memory, e: Entry, mem': Memory, level: nat)
    requires SlotLinks(mem0, o, mem, e, level) && SlotOk(mem, e, level)
    requires forall a :: a in SlotTables(mem, e, level) && a in mem ==> a in mem' && mem'[a] == mem[a]
    ensures SlotLinks(mem0, o, mem', e, level)
    decreases level
  {
    hide Walk, Addr, FrameBits, LowBitsKept;
    if IsTable(o, level) {
      var src, dst := FrameOf(o), FrameOf(e);
      SourceRoot(mem, dst, level - 1);
      forall i | 0 <= i < ENTRIES
        ensures SlotLinks(mem0, mem0[src][i], mem', mem'[dst][i], level - 1)
      {
        assert SlotTables(mem, mem[dst][i], level - 1) <= Tables(mem, dst, level - 1);
        LinksDependOnTables(mem0, mem0[src][i], mem, mem[dst][i], mem', level - 1);
      }
    }
  }

  /** So the way to any address keeps the low bits of its table entries. */
  lemma {:induction false} LinksOnPath(mem0: Memory, src: nat, mem: Memory, dst: nat, level: nat, va: nat, k: nat)
    requires TableLinks(mem0, src, mem, dst, level) && OnPath(mem0, src, level, va, k)
    ensures OnPath(mem, dst, level, va, k)
    ensures IsTable(PathSlot(mem0, src, level, va, k), k) ==> LowBitsKept(PathSlot(mem0, src, level, va, k), PathSlot(mem, dst, level, va, k))
    decreases level
  {
    hide Addr, FrameBits, LowBitsKept;
    var i := Index(level, va);
    assert SlotLinks(mem0, mem0[src][i], mem, mem[dst][i], level);
    if k < level {
      LinksOnPath(mem0, FrameOf(mem0[src][i]), mem, FrameOf(mem[dst][i]), level - 1, va, k);
    }
  }

  /** How many tables below the first i slots of table t have to be allocated. */
  ghost function NeedUpTo(mem: Memory, t: nat, level: nat, i: nat): nat
    decreases level, 1, i
  {
    if i == 0 || t !in mem || i > |mem[t]| then 0 else NeedUpTo(mem, t, level, i - 1) + NeedSlot(mem, mem[t][i - 1], level)
  }

  ghost function NeedSlot(mem: Memory, e: Entry, level: nat): nat
    decreases level, 0
  {
    if IsTable(e, level) then 1 + NeedUpTo(mem, FrameOf(e), level - 1, ENTRIES) else 0
  }

  /** Is a one of the pool's frames number lo to hi? */
  ghost predicate InRange(pool: seq<bv64>, lo: int, hi: int, a: nat) {
    exists k :: 0 <= k < |pool| && lo <= k < hi && Addr(pool[k]) == a
  }

  /** The tables below src are as they stood in mem0; neither dst nor a free frame is one of them. */
  ghost predicate CopyBase(mem0: Memory, mem: Memory, pool: seq<bv64>, dst: nat, src: nat, level: nat) {
    && TreeOk(mem0, src, level) && mem.Keys == mem0.Keys && PoolOk(mem, pool)
    && (forall a :: a in Tables(mem0, src, level) && a in mem0 ==> mem[a] == mem0[a])
    && dst in mem && |mem[dst]| == ENTRIES && dst !in Tables(mem0, src, level)
    && forall k :: 0 <= k < |pool| ==> Addr(pool[k]) !in Tables(mem0, src, level) && Addr(pool[k]) != dst
  }

  /** Ready to copy the tables below src into the empty table dst, with enough free frames. */
  ghost predicate CopyReady(mem0: Memory, mem: Memory, pool: seq<bv64>, dst: nat, src: nat, level: nat) {
    CopyBase(mem0, mem, pool, dst, src, level) && NeedUpTo(mem0, src, level, ENTRIES) <= |pool|
  }

  /** Memory changed only in dst and in frames taken from the pool. */
  ghost predicate OnlyCopy(mem: Memory, pool: seq<bv64>, dst: nat, mem': Memory, pool': seq<bv64>) {
    && mem'.Keys == mem.Keys && dst in mem' && |mem'[dst]| == ENTRIES && pool' <= pool
    && forall a :: a in mem && a != dst && !InRange(pool, |pool'|, |pool|, a) ==> mem'[a] == mem[a]
  }

  /** Slot j of dst is the copy of slot j of src, built from the frames set aside for it. */
  ghost predicate SlotCopied(mem0: Memory, pool: seq<bv64>, dst: nat, src: nat, level: nat, mem': Memory, j: nat)
    requires dst in mem' && j < |mem'[dst]| && src in mem0 && j < |mem0[src]|
  {
    var e := mem'[dst][j];
    && SlotOk(mem', e, level)
    && (forall a :: a in SlotTables(mem', e, level)
          ==> InRange(pool, |pool| - NeedUpTo(mem0, src, level, j + 1), |pool| - NeedUpTo(mem0, src, level, j), a))
    && SlotLinks(mem0, mem0[src][j], mem', e, level)
    && forall va :: SlotWalk(mem', e, level, va) == CopyOf(SlotWalk(mem0, mem0[src][j], level, va))
  }

  ghost predicate CopiedUpTo(mem0: Memory, mem: Memory, pool: seq<bv64>, dst: nat, src: nat, level: nat,
                             mem': Memory, pool': seq<bv64>, i: nat) {
    && CopyReady(mem0, mem, pool, dst, src, level) && OnlyCopy(mem, pool, dst, mem', pool') && i <= ENTRIES
    && |pool'| == |pool| - NeedUpTo(mem0, src, level, i)
    && forall j :: 0 <= j < i ==> SlotCopied(mem0, pool, dst, src, level, mem', j)
  }

  /** dst is the root of a copy of src made of dst and frames from the pool. */
  ghost predicate Copied(mem0: Memory, mem: Memory, pool: seq<bv64>, dst: nat, src: nat, level: nat, mem': Memory, pool': seq<bv64>) {
    && OnlyCopy(mem, pool, dst, mem', pool') && |pool'| == |pool| - NeedUpTo(mem0, src, level, ENTRIES)
    && TreeOk(mem', dst, level)
    && (forall a :: a in Tables(mem', dst, level) ==> a == dst || InRange(pool, |pool'|, |pool|, a))
    && TableLinks(mem0, src, mem', dst, level)
    && forall va :: Walk(mem', dst, level, va) == CopyOf(Walk(mem0, src, level, va))
  }

  /** What one slot's copy has to deliver: memory memA with word e, built from the next frames of the pool. */
  ghost predicate SlotBuilt(mem0: Memory, mem: Memory, pool: seq<bv64>, dst: nat, src: nat, level: nat, i: nat,
                            memA: Memory, poolA: seq<bv64>, e: Entry)
    requires src in mem0 && i < |mem0[src]|
  {
    var o := mem0[src][i];
    && memA.Keys == mem.Keys && poolA <= pool && |poolA| == |pool| - NeedSlot(mem0, o, level)
    && (forall a :: a in mem && !InRange(pool, |poolA|, |pool|, a) ==> memA[a] == mem[a])
    && SlotOk(memA, e, level) && dst !in SlotTables(memA, e, level)
    && (forall a :: a in SlotTables(memA, e, level) ==> InRange(pool, |poolA|, |pool|, a))
    && SlotLinks(mem0, o, memA, e, level)
    && forall va :: SlotWalk(memA, e, level, va) == CopyOf(SlotWalk(mem0, o, level, va))
  }

  lemma {:induction false} NeedGrows(mem: Memory, t: nat, level: nat, i: nat, j: nat)
    requires i <= j
    requires t in mem && j <= |mem[t]|
    ensures NeedUpTo(mem, t, level, i) <= NeedUpTo(mem, t, level, j)
    decreases j
  {
    if i < j {
      NeedGrows(mem, t, level, i, j - 1);
    }
  }

  /** A slot already copied stays copied while other slots of dst and later frames of the pool are written. */
  lemma SlotStaysCopied(mem0: Memory, pool: seq<bv64>, dst: nat, src: nat, level: nat, mem1: Memory, mem2: Memory, j: nat, lo: int)
    requires dst in mem1 && |mem1[dst]| == ENTRIES && dst in mem2 && |mem2[dst]| == ENTRIES && src in mem0 && |mem0[src]| == ENTRIES && j < ENTRIES
    requires SlotCopied(mem0, pool, dst, src, level, mem1, j) && mem2[dst][j] == mem1[dst][j]
    requires mem2.Keys == mem1.Keys && lo <= |pool| - NeedUpTo(mem0, src, level, j + 1)
    requires forall k, l :: 0 <= k < l < |pool| ==> Addr(pool[k]) != Addr(pool[l])
    requires forall k :: 0 <= k < |pool| ==> Addr(pool[k]) != dst
    requires forall a :: a in mem1 && a != dst && !InRange(pool, 0, lo, a) ==> mem2[a] == mem1[a]
    ensures SlotCopied(mem0, pool, dst, src, level, mem2, j)
  {
    hide Addr, NeedUpTo, IsTable, Tables, CowMark, SlotLinks;
    var e := mem1[dst][j];
    forall a | a in SlotTables(mem1, e, level) && a in mem1
      ensures mem2[a] == mem1[a]
    {
      var lo', hi' := |pool| - NeedUpTo(mem0, src, level, j + 1), |pool| - NeedUpTo(mem0, src, level, j);
      assert InRange(pool, lo', hi', a);
    }
    SlotDependsOnTables(mem1, mem2, e, level);
    LinksDependOnTables(mem0, mem0[src][j], mem1, e, mem2, level);
  }

  lemma RangeWithin(pool: seq<bv64>, pool': seq<bv64>, lo: int, hi: int, a: nat)
    requires pool' <= pool && hi <= |pool'|
    ensures InRange(pool', lo, hi, a) == InRange(pool, lo, hi, a)
  {
    hide Addr;
    if InRange(pool, lo, hi, a) {
      var k :| 0 <= k < |pool| && lo <= k < hi && Addr(pool[k]) == a;
      assert pool'[k] == pool[k];
    }
    if InRange(pool', lo, hi, a) {
      var k :| 0 <= k < |pool'| && lo <= k < hi && Addr(pool'[k]) == a;
      assert pool[k] == pool'[k];
    }
  }

  /** dst is no frame of the pool, and the pool repeats none. */
  ghost predicate Distinct(pool: seq<bv64>, dst: nat) {
    && (forall k, l :: 0 <= k < l < |pool| ==> Addr(pool[k]) != Addr(pool[l]))
    && forall k :: 0 <= k < |pool| ==> Addr(pool[k]) != dst
  }

  lemma StepFrame(mem: Memory, pool: seq<bv64>, dst: nat, mem1: Memory, pool1: seq<bv64>, memA: Memory, poolA: seq<bv64>, i: nat, e: Entry)
    requires OnlyCopy(mem, pool, dst, mem1, pool1) && Distinct(pool, dst) && i < ENTRIES
    requires memA.Keys == mem1.Keys && poolA <= pool1
    requires forall a :: a in mem1 && !InRange(pool1, |poolA|, |pool1|, a) ==> memA[a] == mem1[a]
    ensures var mem2 := Store(memA, dst, i, e);
      && OnlyCopy(mem, pool, dst, mem2, poolA) && mem2[dst] == mem1[dst][i := e]
      && (forall a :: a in mem1 && a != dst && !InRange(pool, 0, |pool1|, a) ==> mem2[a] == mem1[a])
      && (forall a :: a in memA && a != dst ==> mem2[a] == memA[a])
  {
    hide Addr, InRange;
    StepReach(mem, pool, dst, mem1, pool1, memA, poolA);
  }

  lemma StepReach(mem: Memory, pool: seq<bv64>, dst: nat, mem1: Memory, pool1: seq<bv64>, memA: Memory, poolA: seq<bv64>)
    requires OnlyCopy(mem, pool, dst, mem1, pool1) && Distinct(pool, dst)
    requires memA.Keys == mem1.Keys && poolA <= pool1
    requires forall a :: a in mem1 && !InRange(pool1, |poolA|, |pool1|, a) ==> memA[a] == mem1[a]
    ensures dst in memA && memA[dst] == mem1[dst] && poolA <= pool
    ensures forall a :: a in mem && a != dst && !InRange(pool, |poolA|, |pool|, a) ==> memA[a] == mem[a]
    ensures forall a :: a in mem1 && !InRange(pool, 0, |pool1|, a) ==> memA[a] == mem1[a]
  {
    hide Addr;
    NoneOf(pool, dst);
    forall a
      ensures InRange(pool1, |poolA|, |pool1|, a) ==> InRange(pool, |poolA|, |pool|, a) && InRange(pool, 0, |pool1|, a)
    {
      RangeWithin(pool, pool1, |poolA|, |pool1|, a);
    }
    forall a | InRange(pool, |pool1|, |pool|, a)
      ensures InRange(pool, |poolA|, |pool|, a)
    {
    }
  }

  lemma NoneOf(pool: seq<bv64>, dst: nat)
    requires Distinct(pool, dst)
    ensures !InRange(pool, 0, |pool|, dst)
  {
  }

  lemma NewSlot(mem0: Memory, mem1: Memory, pool: seq<bv64>, pool1: seq<bv64>, dst: nat, src: nat, level: nat, i: nat,
                memA: Memory, poolA: seq<bv64>, e: Entry, mem2: Memory)
    requires src in mem0 && |mem0[src]| == ENTRIES && i < ENTRIES && pool1 <= pool
    requires SlotBuilt(mem0, mem1, pool1, dst, src, level, i, memA, poolA, e)
    requires |pool1| == |pool| - NeedUpTo(mem0, src, level, i) && |poolA| == |pool| - NeedUpTo(mem0, src, level, i + 1)
    requires mem2.Keys == memA.Keys && dst in mem2 && |mem2[dst]| == ENTRIES && mem2[dst][i] == e
    requires forall a :: a in memA && a != dst ==> mem2[a] == memA[a]
    ensures SlotCopied(mem0, pool, dst, src, level, mem2, i)
  {
    hide Addr, NeedUpTo, NeedSlot, IsTable, Tables, CowMark, SlotLinks;
    SlotDependsOnTables(memA, mem2, e, level);
    LinksDependOnTables(mem0, mem0[src][i], memA, e, mem2, level);
    forall a | a in SlotTables(mem2, e, level)
      ensures InRange(pool, |poolA|, |pool1|, a)
    {
      RangeWithin(pool, pool1, |poolA|, |pool1|, a);
    }
  }

  lemma CopyParts(mem0: Memory, mem: Memory, pool: seq<bv64>, dst: nat, src: nat, level: nat, mem1: Memory, pool1: seq<bv64>, i: nat)
    requires CopiedUpTo(mem0, mem, pool, dst, src, level, mem1, pool1, i)
    ensures Distinct(pool, dst) && OnlyCopy(mem, pool, dst, mem1, pool1) && i <= ENTRIES && src in mem0 && |mem0[src]| == ENTRIES
    ensures |pool1| == |pool| - NeedUpTo(mem0, src, level, i) && CopyReady(mem0, mem, pool, dst, src, level)
  {
    hide NeedUpTo, Tables, SlotCopied, Addr;
  }

  lemma StepNeed(mem: Memory, t: nat, level: nat, i: nat)
    requires t in mem && i < |mem[t]|
    ensures NeedUpTo(mem, t, level, i + 1) == NeedUpTo(mem, t, level, i) + NeedSlot(mem, mem[t][i], level)
  {
  }

  /** The word for slot i is stored: slots 0 to i are copied. */
  lemma SlotStep(mem0: Memory, mem: Memory, pool: seq<bv64>, dst: nat, src: nat, level: nat, mem1: Memory, pool1: seq<bv64>, i: nat,
                 memA: Memory, poolA: seq<bv64>, e: Entry)
    requires CopiedUpTo(mem0, mem, pool, dst, src, level, mem1, pool1, i) && i < ENTRIES && src in mem0 && |mem0[src]| == ENTRIES
    requires SlotBuilt(mem0, mem1, pool1, dst, src, level, i, memA, poolA, e)
    ensures CopiedUpTo(mem0, mem, pool, dst, src, level, Store(memA, dst, i, e), poolA, i + 1)
  {
    hide Addr, NeedUpTo, NeedSlot, IsTable, Tables, SlotTables, CowMark, SlotCopied, PoolOk, TreeOk, CopyReady, InRange;
    CopyParts(mem0, mem, pool, dst, src, level, mem1, pool1, i);
    StepNeed(mem0, src, level, i);
    StepFrame(mem, pool, dst, mem1, pool1, memA, poolA, i, e);
    var mem2 := Store(memA, dst, i, e);
    NewSlot(mem0, mem1, pool, pool1, dst, src, level, i, memA, poolA, e, mem2);
    forall j | 0 <= j < i
      ensures SlotCopied(mem0, pool, dst, src, level, mem2, j)
    {
      NeedGrows(mem0, src, level, j + 1, i);
      SlotStaysCopied(mem0, pool, dst, src, level, mem1, mem2, j, |pool1|);
    }
  }

  /** A slot without a table below it: absent, or a leaf. */
  lemma PlainSlot(mem0: Memory, mem1: Memory, pool1: seq<bv64>, dst: nat, src: nat, level: nat, i: nat, e: Entry)
    requires src in mem0 && i < |mem0[src]| && !IsTable(mem0[src][i], level)
    requires e == if Present(mem0[src][i]) then CowMark(mem0[src][i]) else 0
    ensures SlotBuilt(mem0, mem1, pool1, dst, src, level, i, mem1, pool1, e)
  {
    hide CowMark, InRange;
    CowMarkMeaning(mem0[src][i]);
  }

  lemma CopiedSlot(mem0: Memory, mem: Memory, pool: seq<bv64>, dst: nat, src: nat, level: nat, mem': Memory, pool': seq<bv64>, j: nat)
    requires CopiedUpTo(mem0, mem, pool, dst, src, level, mem', pool', ENTRIES) && j < ENTRIES
    ensures SlotCopied(mem0, pool, dst, src, level, mem', j) && SlotOk(mem', mem'[dst][j], level)
    ensures SlotLinks(mem0, mem0[src][j], mem', mem'[dst][j], level)
    ensures forall a :: a in SlotTables(mem', mem'[dst][j], level) ==> a != dst && InRange(pool, |pool'|, |pool|, a)
  {
    hide Addr, NeedUpTo, IsTable, CowMark, PoolOk, CopyReady, SlotTables, SlotLinks;
    CopyParts(mem0, mem, pool, dst, src, level, mem', pool', ENTRIES);
    NeedGrows(mem0, src, level, j + 1, ENTRIES);
    assert SlotCopied(mem0, pool, dst, src, level, mem', j);
    forall a | a in SlotTables(mem', mem'[dst][j], level)
      ensures a != dst && InRange(pool, |pool'|, |pool|, a)
    {
      assert InRange(pool, |pool| - NeedUpTo(mem0, src, level, j + 1), |pool| - NeedUpTo(mem0, src, level, j), a);
    }
  }

  lemma TreeOfSlots(mem: Memory, t: nat, level: nat)
    requires t in mem && |mem[t]| == ENTRIES && 1 <= level <= 4
    requires forall i :: 0 <= i < ENTRIES ==> SlotOk(mem, mem[t][i], level) && t !in SlotTables(mem, mem[t][i], level)
    requires forall i, j :: 0 <= i < j < ENTRIES ==> SlotTables(mem, mem[t][i], level) !! SlotTables(mem, mem[t][j], level)
    ensures TreeOk(mem, t, level)
  {
    hide SlotTables, SlotOk;
  }

  /** When all slots are copied, dst is the root of a copy. */
  lemma AllCopied(mem0: Memory, mem: Memory, pool: seq<bv64>, dst: nat, src: nat, level: nat, mem': Memory, pool': seq<bv64>)
    requires CopiedUpTo(mem0, mem, pool, dst, src, level, mem', pool', ENTRIES) && 1 <= level <= 4
    ensures Copied(mem0, mem, pool, dst, src, level, mem', pool')
  {
    hide Addr, NeedUpTo, IsTable, CowMark, PoolOk, CopyReady, TreeOk, SlotTables, SlotOk, SlotLinks;
    CopyParts(mem0, mem, pool, dst, src, level, mem', pool', ENTRIES);
    forall j | 0 <= j < ENTRIES
      ensures SlotOk(mem', mem'[dst][j], level)
      ensures forall a :: a in SlotTables(mem', mem'[dst][j], level) ==> a != dst && InRange(pool, |pool'|, |pool|, a)
    {
      CopiedSlot(mem0, mem, pool, dst, src, level, mem', pool', j);
    }
    forall j, k | 0 <= j < k < ENTRIES
      ensures SlotTables(mem', mem'[dst][j], level) !! SlotTables(mem', mem'[dst][k], level)
    {
      SlotsApart(mem0, pool, dst, src, level, mem', j, k);
    }
    TreeOfSlots(mem', dst, level);
    forall j | 0 <= j < ENTRIES
      ensures SlotLinks(mem0, mem0[src][j], mem', mem'[dst][j], level)
    {
      CopiedSlot(mem0, mem, pool, dst, src, level, mem', pool', j);
    }
    forall va
      ensures Walk(mem', dst, level, va) == CopyOf(Walk(mem0, src, level, va))
    {
      assert SlotCopied(mem0, pool, dst, src, level, mem', Index(level, va));
    }
  }

  lemma SlotsApart(mem0: Memory, pool: seq<bv64>, dst: nat, src: nat, level: nat, mem': Memory, j: nat, k: nat)
    requires dst in mem' && |mem'[dst]| == ENTRIES && src in mem0 && |mem0[src]| == ENTRIES && j < k < ENTRIES && Distinct(pool, dst)
    requires SlotCopied(mem0, pool, dst, src, level, mem', j) && SlotCopied(mem0, pool, dst, src, level, mem', k)
    ensures SlotTables(mem', mem'[dst][j], level) !! SlotTables(mem', mem'[dst][k], level)
  {
    hide Addr, NeedUpTo, SlotTables, CowMark;
    NeedGrows(mem0, src, level, j + 1, k);
    forall a | a in SlotTables(mem', mem'[dst][j], level)
      ensures a !in SlotTables(mem', mem'[dst][k], level)
    {
      assert InRange(pool, |pool| - NeedUpTo(mem0, src, level, j + 1), |pool| - NeedUpTo(mem0, src, level, j), a);
    }
  }

  /** The tables being copied have not changed. */
  lemma SourceKept(mem0: Memory, mem: Memory, pool: seq<bv64>, dst: nat, src: nat, level: nat, mem1: Memory, pool1: seq<bv64>, i: nat)
    requires CopiedUpTo(mem0, mem, pool, dst, src, level, mem1, pool1, i)
    ensures src in mem0 && |mem0[src]| == ENTRIES && src in mem1 && mem1[src] == mem0[src]
    ensures dst in mem1 && |mem1[dst]| == ENTRIES && mem1.Keys == mem0.Keys
    ensures forall a :: a in Tables(mem0, src, level) && a in mem0 ==> mem1[a] == mem0[a]
  {
    hide NeedUpTo, SlotCopied, Addr;
    assert src in Tables(mem0, src, level);
  }

  /** The frames still in the pool are untouched. */
  lemma PoolKept(mem0: Memory, mem: Memory, pool: seq<bv64>, dst: nat, src: nat, level: nat, mem1: Memory, pool1: seq<bv64>, i: nat)
    requires CopiedUpTo(mem0, mem, pool, dst, src, level, mem1, pool1, i)
    ensures PoolOk(mem1, pool1)
    ensures forall k :: 0 <= k < |pool1| ==> Addr(pool1[k]) !in Tables(mem0, src, level) && Addr(pool1[k]) != dst
  {
    hide NeedUpTo, SlotCopied, Addr, Aligned, Tables, TreeOk;
    forall k | 0 <= k < |pool1|
      ensures pool1[k] == pool[k] && Addr(pool1[k]) in mem1 && |mem1[Addr(pool1[k])]| == ENTRIES
    {
      assert pool1[k] == pool[k];
      assert !InRange(pool, |pool1|, |pool|, Addr(pool[k]));
    }
    forall k, l | 0 <= k < l < |pool1|
      ensures Addr(pool1[k]) != Addr(pool1[l])
    {
      assert pool1[k] == pool[k] && pool1[l] == pool[l];
    }
  }

  lemma EnoughForSlot(mem0: Memory, mem: Memory, pool: seq<bv64>, dst: nat, src: nat, level: nat, mem1: Memory, pool1: seq<bv64>, i: nat)
    requires CopiedUpTo(mem0, mem, pool, dst, src, level, mem1, pool1, i) && i < ENTRIES
    requires src in mem0 && |mem0[src]| == ENTRIES && IsTable(mem0[src][i], level)
    ensures 1 + NeedUpTo(mem0, FrameOf(mem0[src][i]), level - 1, ENTRIES) <= |pool1|
  {
    hide SlotCopied, Addr, Tables, TreeOk, OnlyCopy;
    NeedGrows(mem0, src, level, i + 1, ENTRIES);
    StepNeed(mem0, src, level, i);
  }

  /** The next table can be copied into the last frame of the pool. */
  lemma ChildReady(mem0: Memory, mem: Memory, pool: seq<bv64>, dst: nat, src: nat, level: nat, mem1: Memory, pool1: seq<bv64>, i: nat)
    requires CopiedUpTo(mem0, mem, pool, dst, src, level, mem1, pool1, i) && i < ENTRIES
    requires src in mem0 && |mem0[src]| == ENTRIES && IsTable(mem0[src][i], level)
    ensures |pool1| > 0
    ensures var c := pool1[|pool1| - 1];
      Aligned(c) && c != 0 && CopyReady(mem0, mem1[Addr(c) := ZeroFrame()], pool1[..|pool1| - 1], Addr(c), FrameOf(mem0[src][i]), level - 1)
  {
    hide NeedUpTo, SlotCopied, Addr, Tables, TreeOk, OnlyCopy, IsTable;
    EnoughForSlot(mem0, mem, pool, dst, src, level, mem1, pool1, i);
    ChildTree(mem0, src, level, i);
    SourceKept(mem0, mem, pool, dst, src, level, mem1, pool1, i);
    PoolKept(mem0, mem, pool, dst, src, level, mem1, pool1, i);
    OneTaken(mem1, pool1);
  }

  lemma OneTaken(mem: Memory, pool: seq<bv64>)
    requires PoolOk(mem, pool) && |pool| > 0
    ensures var c := pool[|pool| - 1]; var pool' := pool[..|pool| - 1]; var mem' := mem[Addr(c) := ZeroFrame()];
      && Addr(c) in mem && PoolOk(mem', pool') && mem'.Keys == mem.Keys
      && forall k :: 0 <= k < |pool'| ==> pool'[k] == pool[k] && Addr(pool'[k]) != Addr(c)
  {
    hide Addr, Aligned, ZeroFrame;
  }

  /** A copied child table makes up its slot. */
  lemma TableSlot(mem0: Memory, mem1: Memory, pool1: seq<bv64>, dst: nat, src: nat, level: nat, i: nat, memA: Memory, poolA: seq<bv64>)
    requires src in mem0 && i < |mem0[src]| && IsTable(mem0[src][i], level) && level <= 4
    requires PoolOk(mem1, pool1) && |pool1| > 0 && forall k :: 0 <= k < |pool1| ==> Addr(pool1[k]) != dst
    requires var c := pool1[|pool1| - 1];
      Copied(mem0, mem1[Addr(c) := ZeroFrame()], pool1[..|pool1| - 1], Addr(c), FrameOf(mem0[src][i]), level - 1, memA, poolA)
    ensures SlotBuilt(mem0, mem1, pool1, dst, src, level, i, memA, poolA, Relink(pool1[|pool1| - 1], mem0[src][i]))
  {
    hide Addr, NeedUpTo, Tables, TreeOk, Walk, CowMark, ZeroFrame, Aligned, TableLinks, LowBitsKept;
    var c, pool' := pool1[|pool1| - 1], pool1[..|pool1| - 1];
    RelinkMeaning(c, mem0[src][i]);
    RelinkKeepsLowBits(c, mem0[src][i]);
    forall a
      ensures InRange(pool', |poolA|, |pool'|, a) || a == Addr(c) ==> InRange(pool1, |poolA|, |pool1|, a)
    {
      RangeWithin(pool1, pool', |poolA|, |pool'|, a);
      assert InRange(pool1, |poolA|, |pool1|, Addr(pool1[|pool1| - 1]));
    }
    var e := Relink(c, mem0[src][i]);
    assert dst !in SlotTables(memA, e, level);
    forall va
      ensures SlotWalk(memA, e, level, va) == CopyOf(SlotWalk(mem0, mem0[src][i], level, va))
    {
      ThroughTable(memA, e, level, va);
      ThroughTable(mem0, mem0[src][i], level, va);
    }
  }

  lemma ThroughTable(mem: Memory, e: Entry, level: nat, va: nat)
    requires IsTable(e, level)
    ensures SlotWalk(mem, e, level, va) == Walk(mem, FrameOf(e), level - 1, va)
  {
  }

  lemma NothingCopied(mem0: Memory, mem: Memory, pool: seq<bv64>, dst: nat, src: nat, level: nat)
    requires CopyReady(mem0, mem, pool, dst, src, level)
    ensures CopiedUpTo(mem0, mem, pool, dst, src, level, mem, pool, 0)
  {
  }

  /** The source's test for a leaf. */
  lemma LeafTest(e: Entry, level: nat)
    requires Present(e) && 1 <= level <= 4
    ensures IsTable(e, level) <==> !((level == 3 && BigPage(e)) || (level == 2 && BigPage(e)) || level == 1)
  {
  }

  lemma AbsentIsNoTable(e: Entry, level: nat)
    requires !Present(e)
    ensures !IsTable(e, level)
  {
  }

  // ---------------------------------------------------------------- too few frames

  /**
   Too few free frames: `copy_table_level` does not notice and goes on with the null pointer as a table.
   There is memory at address 0, and it is none of the tables being copied.
   */
  ghost predicate ShortReady(mem0: Memory, mem: Memory, pool: seq<bv64>, dst: nat, src: nat, level: nat) {
    && CopyBase(mem0, mem, pool, dst, src, level) && NeedUpTo(mem0, src, level, ENTRIES) > |pool|
    && 0 in mem && |mem[0]| == ENTRIES && 0 !in Tables(mem0, src, level)
  }

  /** Do tables made of the pool's frames lead from t to address 0? */
  ghost predicate Leads(mem: Memory, pool: seq<bv64>, t: nat, level: nat)
    decreases level
  {
    t == 0 || (InRange(pool, 0, |pool|, t) && LeadsOn(mem, pool, t, level, ENTRIES))
  }

  /** Does one of the first n entries of t? */
  ghost predicate LeadsOn(mem: Memory, pool: seq<bv64>, t: nat, level: nat, n: nat)
    decreases level, 0
  {
    && t in mem && |mem[t]| == ENTRIES && level > 1
    && exists j :: 0 <= j < n && j < ENTRIES && IsTable(mem[t][j], level) && Leads(mem, pool, FrameOf(mem[t][j]), level - 1)
  }

  /** Memory changed only in dst, in frames taken from the pool and at address 0. */
  ghost predicate OnlyShort(mem: Memory, pool: seq<bv64>, dst: nat, mem': Memory, pool': seq<bv64>) {
    && mem'.Keys == mem.Keys && dst in mem' && |mem'[dst]| == ENTRIES && 0 in mem' && |mem'[0]| == ENTRIES && pool' <= pool
    && forall a :: a in mem && a != dst && a != 0 && !InRange(pool, |pool'|, |pool|, a) ==> mem'[a] == mem[a]
  }

  /** Frames left of n when `need` were asked for. */
  function Left(n: nat, need: nat): nat {
    if need <= n then n - need else 0
  }

  ghost predicate ShortUpTo(mem0: Memory, mem: Memory, pool: seq<bv64>, dst: nat, src: nat, level: nat,
                            mem': Memory, pool': seq<bv64>, i: nat) {
    && ShortReady(mem0, mem, pool, dst, src, level) && OnlyShort(mem, pool, dst, mem', pool') && i <= ENTRIES
    && |pool'| == Left(|pool|, NeedUpTo(mem0, src, level, i))
    && (dst != 0 && NeedUpTo(mem0, src, level, i) > |pool| ==> LeadsOn(mem', pool, dst, level, i))
  }

  /** The pool is used up and dst leads to address 0. */
  ghost predicate ShortCopied(mem: Memory, pool: seq<bv64>, dst: nat, level: nat, mem': Memory, pool': seq<bv64>) {
    OnlyShort(mem, pool, dst, mem', pool') && pool' == [] && (dst != 0 ==> LeadsOn(mem', pool, dst, level, ENTRIES))
  }

  lemma ShortStart(mem0: Memory, mem: Memory, pool: seq<bv64>, dst: nat, src: nat, level: nat)
    requires ShortReady(mem0, mem, pool, dst, src, level)
    ensures ShortUpTo(mem0, mem, pool, dst, src, level, mem, pool, 0)
  {
    hide Tables, TreeOk, Addr, Aligned;
  }

  lemma ShortEnd(mem0: Memory, mem: Memory, pool: seq<bv64>, dst: nat, src: nat, level: nat, mem1: Memory, pool1: seq<bv64>)
    requires ShortUpTo(mem0, mem, pool, dst, src, level, mem1, pool1, ENTRIES)
    ensures ShortCopied(mem, pool, dst, level, mem1, pool1)
  {
    hide CopyBase, NeedUpTo, Tables, LeadsOn, OnlyShort;
  }

  lemma ShortParts(mem0: Memory, mem: Memory, pool: seq<bv64>, dst: nat, src: nat, level: nat, mem1: Memory, pool1: seq<bv64>, i: nat)
    requires ShortUpTo(mem0, mem, pool, dst, src, level, mem1, pool1, i)
    ensures CopyBase(mem0, mem, pool, dst, src, level) && Distinct(pool, dst) && i <= ENTRIES && src in mem0 && |mem0[src]| == ENTRIES
    ensures OnlyShort(mem, pool, dst, mem1, pool1) && 0 !in Tables(mem0, src, level) && !InRange(pool, 0, |pool|, 0)
    ensures dst in mem1 && |mem1[dst]| == ENTRIES && mem1.Keys == mem0.Keys
  {
    hide NeedUpTo, Tables, LeadsOn, Addr, Aligned;
    assert forall k :: 0 <= k < |pool| ==> pool[k] != 0 && Addr(pool[k]) != 0 by { AddrOfZero(); }
  }

  lemma AddrOfZero()
    ensures forall c: bv64 {:trigger Addr(c)} :: Addr(c) == 0 <==> c == 0
  {
  }

  /** The tables being copied and the frames still free have not changed. */
  lemma ShortKept(mem0: Memory, mem: Memory, pool: seq<bv64>, dst: nat, src: nat, level: nat, mem1: Memory, pool1: seq<bv64>, i: nat)
    requires ShortUpTo(mem0, mem, pool, dst, src, level, mem1, pool1, i)
    ensures src in mem0 && |mem0[src]| == ENTRIES && src in mem1 && mem1[src] == mem0[src]
    ensures forall a :: a in Tables(mem0, src, level) && a in mem0 ==> mem1[a] == mem0[a]
    ensures PoolOk(mem1, pool1)
    ensures forall k :: 0 <= k < |pool1| ==> Addr(pool1[k]) !in Tables(mem0, src, level) && Addr(pool1[k]) != dst
  {
    hide NeedUpTo, LeadsOn, Addr, Aligned, TreeOk, Tables;
    ShortParts(mem0, mem, pool, dst, src, level, mem1, pool1, i);
    SourceRoot(mem0, src, level);
    forall k | 0 <= k < |pool1|
      ensures pool1[k] == pool[k] && Addr(pool1[k]) in mem1 && |mem1[Addr(pool1[k])]| == ENTRIES
    {
      assert pool1[k] == pool[k];
      assert InRange(pool, 0, |pool|, Addr(pool[k])) && !InRange(pool, |pool1|, |pool|, Addr(pool[k]));
    }
    forall k, l | 0 <= k < l < |pool1|
      ensures Addr(pool1[k]) != Addr(pool1[l])
    {
      assert pool1[k] == pool[k] && pool1[l] == pool[l];
    }
  }

  lemma SourceRoot(mem0: Memory, src: nat, level: nat)
    requires TreeOk(mem0, src, level)
    ensures src in Tables(mem0, src, level) && src in mem0 && |mem0[src]| == ENTRIES
  {
  }

  /** Memory that keeps the pool's frames keeps what they lead to. */
  lemma {:induction false} LeadsKept(mem: Memory, mem': Memory, pool: seq<bv64>, t: nat, level: nat)
    requires Leads(mem, pool, t, level) && mem'.Keys == mem.Keys
    requires forall a :: a in mem && InRange(pool, 0, |pool|, a) ==> mem'[a] == mem[a]
    ensures Leads(mem', pool, t, level)
    decreases level
  {
    hide Addr, FrameBits, IsTable, InRange;
    if t != 0 {
      var j :| 0 <= j < ENTRIES && IsTable(mem[t][j], level) && Leads(mem, pool, FrameOf(mem[t][j]), level - 1);
      LeadsKept(mem, mem', pool, FrameOf(mem[t][j]), level - 1);
      assert IsTable(mem'[t][j], level) && Leads(mem', pool, FrameOf(mem'[t][j]), level - 1);
    }
  }

  /** Frames of a shorter pool are frames of the longer one. */
  lemma {:induction false} LeadsMore(mem: Memory, pool: seq<bv64>, pool': seq<bv64>, t: nat, level: nat)
    requires Leads(mem, pool, t, level) && pool <= pool'
    ensures Leads(mem, pool', t, level)
    decreases level
  {
    hide Addr, FrameBits, IsTable;
    if t != 0 {
      LongerRange(pool, pool', t);
      var j :| 0 <= j < ENTRIES && IsTable(mem[t][j], level) && Leads(mem, pool, FrameOf(mem[t][j]), level - 1);
      LeadsMore(mem, pool, pool', FrameOf(mem[t][j]), level - 1);
    }
  }

  lemma LongerRange(pool: seq<bv64>, pool': seq<bv64>, a: nat)
    requires InRange(pool, 0, |pool|, a) && pool <= pool'
    ensures InRange(pool', 0, |pool'|, a)
  {
    hide Addr;
    var k :| 0 <= k < |pool| && Addr(pool[k]) == a;
    assert pool'[k] == pool[k];
  }

  /** Address 0 is then one of the tables. */
  lemma {:induction false} LeadsReach(mem: Memory, pool: seq<bv64>, t: nat, level: nat)
    requires Leads(mem, pool, t, level)
    ensures 0 in Tables(mem, t, level)
    decreases level
  {
    hide Addr, FrameBits, IsTable, InRange;
    if t != 0 {
      var j :| 0 <= j < ENTRIES && IsTable(mem[t][j], level) && Leads(mem, pool, FrameOf(mem[t][j]), level - 1);
      LeadsReach(mem, pool, FrameOf(mem[t][j]), level - 1);
      assert 0 in SlotTables(mem, mem[t][j], level);
    }
  }

  /** What became of slot i: memory memA and pool poolA, with word e still to be stored. */
  ghost predicate ShortBuilt(mem0: Memory, mem: Memory, pool: seq<bv64>, o: Entry, level: nat, memA: Memory, poolA: seq<bv64>, e: Entry) {
    && memA.Keys == mem.Keys && 0 in memA && |memA[0]| == ENTRIES && poolA <= pool
    && |poolA| == Left(|pool|, NeedSlot(mem0, o, level))
    && (forall a :: a in mem && a != 0 && !InRange(pool, |poolA|, |pool|, a) ==> memA[a] == mem[a])
    && (NeedSlot(mem0, o, level) > |pool| ==> IsTable(e, level) && level > 1 && Leads(memA, pool, FrameOf(e), level - 1))
  }

  lemma ShortFrame(mem: Memory, pool: seq<bv64>, dst: nat, mem1: Memory, pool1: seq<bv64>, memA: Memory, poolA: seq<bv64>, i: nat, e: Entry)
    requires OnlyShort(mem, pool, dst, mem1, pool1) && Distinct(pool, dst) && i < ENTRIES && !InRange(pool, 0, |pool|, 0)
    requires memA.Keys == mem1.Keys && 0 in memA && |memA[0]| == ENTRIES && poolA <= pool1
    requires forall a :: a in mem1 && a != 0 && !InRange(pool1, |poolA|, |pool1|, a) ==> memA[a] == mem1[a]
    ensures dst in memA && |memA[dst]| == ENTRIES
    ensures var mem2 := Store(memA, dst, i, e);
      && OnlyShort(mem, pool, dst, mem2, poolA) && mem2[dst][i] == e && mem2.Keys == mem1.Keys
      && (dst != 0 ==> forall j :: 0 <= j < ENTRIES && j != i ==> mem2[dst][j] == mem1[dst][j])
      && (forall a :: a in memA && InRange(pool, 0, |pool|, a) ==> mem2[a] == memA[a])
      && (pool1 == [] ==> forall a :: a in mem1 && InRange(pool, 0, |pool|, a) ==> mem2[a] == mem1[a])
  {
    hide Addr, InRange;
    ShortReach(mem, pool, dst, mem1, pool1, memA, poolA);
  }

  lemma ShortReach(mem: Memory, pool: seq<bv64>, dst: nat, mem1: Memory, pool1: seq<bv64>, memA: Memory, poolA: seq<bv64>)
    requires OnlyShort(mem, pool, dst, mem1, pool1) && Distinct(pool, dst) && !InRange(pool, 0, |pool|, 0)
    requires memA.Keys == mem1.Keys && 0 in memA && |memA[0]| == ENTRIES && poolA <= pool1
    requires forall a :: a in mem1 && a != 0 && !InRange(pool1, |poolA|, |pool1|, a) ==> memA[a] == mem1[a]
    ensures dst in memA && |memA[dst]| == ENTRIES && (dst != 0 ==> memA[dst] == mem1[dst]) && !InRange(pool, 0, |pool|, dst) && poolA <= pool
    ensures forall a :: a in mem && a != dst && a != 0 && !InRange(pool, |poolA|, |pool|, a) ==> memA[a] == mem[a]
    ensures pool1 == [] ==> forall a :: a in mem1 && InRange(pool, 0, |pool|, a) ==> memA[a] == mem1[a]
  {
    hide Addr;
    NoneOf(pool, dst);
    forall a
      ensures InRange(pool1, |poolA|, |pool1|, a) ==> InRange(pool, |poolA|, |pool|, a) && InRange(pool, 0, |pool|, a) && pool1 != []
    {
      RangeWithin(pool, pool1, |poolA|, |pool1|, a);
    }
    forall a | InRange(pool, |pool1|, |pool|, a)
      ensures InRange(pool, |poolA|, |pool|, a)
    {
    }
  }

  lemma LeftAfter(n: nat, a: nat, b: nat)
    ensures Left(Left(n, a), b) == Left(n, a + b)
    ensures a + b > n ==> a > n || b > Left(n, a)
    ensures a > n ==> Left(n, a) == 0
  {
  }

  /** The word for slot i is stored. */
  lemma ShortStep(mem0: Memory, mem: Memory, pool: seq<bv64>, dst: nat, src: nat, level: nat, mem1: Memory, pool1: seq<bv64>, i: nat,
                  memA: Memory, poolA: seq<bv64>, e: Entry)
    requires ShortUpTo(mem0, mem, pool, dst, src, level, mem1, pool1, i) && i < ENTRIES && src in mem0 && |mem0[src]| == ENTRIES
    requires ShortBuilt(mem0, mem1, pool1, mem0[src][i], level, memA, poolA, e)
    ensures ShortUpTo(mem0, mem, pool, dst, src, level, Store(memA, dst, i, e), poolA, i + 1)
  {
    hide NeedUpTo, NeedSlot, IsTable, Tables, Addr, Store, Leads, InRange, CopyBase, Left, FrameBits;
    ShortParts(mem0, mem, pool, dst, src, level, mem1, pool1, i);
    ShortFrame(mem, pool, dst, mem1, pool1, memA, poolA, i, e);
    StepNeed(mem0, src, level, i);
    LeftAfter(|pool|, NeedUpTo(mem0, src, level, i), NeedSlot(mem0, mem0[src][i], level));
    var mem2 := Store(memA, dst, i, e);
    if dst != 0 && NeedUpTo(mem0, src, level, i + 1) > |pool| {
      if NeedUpTo(mem0, src, level, i) > |pool| {
        var j :| 0 <= j < i && IsTable(mem1[dst][j], level) && Leads(mem1, pool, FrameOf(mem1[dst][j]), level - 1);
        LeadsKept(mem1, mem2, pool, FrameOf(mem1[dst][j]), level - 1);
        assert mem2[dst][j] == mem1[dst][j];
      } else {
        LeadsMore(memA, pool1, pool, FrameOf(e), level - 1);
        LeadsKept(memA, mem2, pool, FrameOf(e), level - 1);
      }
    }
  }

  /** A slot without a table below it. */
  lemma ShortPlain(mem0: Memory, mem: Memory, pool: seq<bv64>, dst: nat, src: nat, level: nat, mem1: Memory, pool1: seq<bv64>, i: nat, e: Entry)
    requires ShortUpTo(mem0, mem, pool, dst, src, level, mem1, pool1, i)
    requires src in mem0 && i < |mem0[src]| && !IsTable(mem0[src][i], level)
    ensures ShortBuilt(mem0, mem1, pool1, mem0[src][i], level, mem1, pool1, e)
  {
    hide CopyBase, NeedUpTo, Tables, LeadsOn, Leads, InRange, Addr, FrameBits;
  }

  /** The frame a table is copied into: the last of the pool, or null. */
  function LastOf(pool: seq<bv64>): bv64 {
    if pool == [] then 0 else pool[|pool| - 1]
  }

  function WithoutLast(pool: seq<bv64>): seq<bv64> {
    if pool == [] then [] else pool[..|pool| - 1]
  }

  /** The next table is copied into the last frame of the pool, or onto address 0. */
  lemma ShortChild(mem0: Memory, mem: Memory, pool: seq<bv64>, dst: nat, src: nat, level: nat, mem1: Memory, pool1: seq<bv64>, i: nat)
    requires ShortUpTo(mem0, mem, pool, dst, src, level, mem1, pool1, i) && i < ENTRIES
    requires src in mem0 && |mem0[src]| == ENTRIES && IsTable(mem0[src][i], level)
    ensures var c, pool' := LastOf(pool1), WithoutLast(pool1); var mem' := mem1[Addr(c) := ZeroFrame()];
      && Aligned(c) && Addr(c) in mem1 && 0 in mem' && |mem'[0]| == ENTRIES && mem'.Keys == mem1.Keys
      && CopyBase(mem0, mem', pool', Addr(c), FrameOf(mem0[src][i]), level - 1)
      && 0 !in Tables(mem0, FrameOf(mem0[src][i]), level - 1)
  {
    hide NeedUpTo, Addr, Tables, TreeOk, IsTable, LeadsOn, OnlyShort;
    ShortParts(mem0, mem, pool, dst, src, level, mem1, pool1, i);
    ShortKept(mem0, mem, pool, dst, src, level, mem1, pool1, i);
    ChildTree(mem0, src, level, i);
    ShortZero(mem0, mem, pool, dst, src, level, mem1, pool1, i);
    AddrOfZero();
    if pool1 != [] {
      OneTaken(mem1, pool1);
    }
  }

  lemma ShortZero(mem0: Memory, mem: Memory, pool: seq<bv64>, dst: nat, src: nat, level: nat, mem1: Memory, pool1: seq<bv64>, i: nat)
    requires ShortUpTo(mem0, mem, pool, dst, src, level, mem1, pool1, i)
    ensures 0 in mem1 && |mem1[0]| == ENTRIES && mem1.Keys == mem0.Keys && CopyBase(mem0, mem, pool, dst, src, level) && Aligned(0)
  {
    hide NeedUpTo, Addr, Tables, TreeOk, LeadsOn;
  }

  /** A copied child table, or what was made of one, in its slot. */
  lemma ShortTable(mem0: Memory, mem1: Memory, pool1: seq<bv64>, o: Entry, level: nat, memA: Memory, poolA: seq<bv64>)
    requires IsTable(o, level) && level <= 4 && PoolOk(mem1, pool1) && 0 in mem1 && |mem1[0]| == ENTRIES && Aligned(LastOf(pool1))
    requires var c, pool' := LastOf(pool1), WithoutLast(pool1); var mem' := mem1[Addr(c) := ZeroFrame()];
      && Addr(c) in mem1
      && if NeedUpTo(mem0, FrameOf(o), level - 1, ENTRIES) <= |pool'|
         then Copied(mem0, mem', pool', Addr(c), FrameOf(o), level - 1, memA, poolA)
         else ShortCopied(mem', pool', Addr(c), level - 1, memA, poolA)
    ensures ShortBuilt(mem0, mem1, pool1, o, level, memA, poolA, Relink(LastOf(pool1), o))
  {
    hide Addr, NeedUpTo, Tables, TreeOk, Walk, CowMark, Leads, LeadsOn, Aligned, FrameBits, IsTable, Relink;
    var c, pool' := LastOf(pool1), WithoutLast(pool1);
    AddrOfZero();
    LinkedSlot(c, o, level);
    ShortTableFrame(mem1, pool1, memA, poolA);
    if NeedSlot(mem0, o, level) > |pool1| {
      ShortTableLeads(mem1, pool1, level, memA, poolA);
    }
  }

  lemma LinkedSlot(c: bv64, o: Entry, level: nat)
    requires IsTable(o, level) && Aligned(c)
    ensures IsTable(Relink(c, o), level) && FrameOf(Relink(c, o)) == Addr(c) && level > 1
  {
    hide Addr;
    RelinkMeaning(c, o);
  }

  lemma ShortTableFrame(mem1: Memory, pool1: seq<bv64>, memA: Memory, poolA: seq<bv64>)
    requires Addr(LastOf(pool1)) in mem1 && 0 in mem1 && |mem1[0]| == ENTRIES && (LastOf(pool1) == 0 ==> pool1 == [])
    requires var c, pool' := LastOf(pool1), WithoutLast(pool1); var mem' := mem1[Addr(c) := ZeroFrame()];
      OnlyCopy(mem', pool', Addr(c), memA, poolA) || OnlyShort(mem', pool', Addr(c), memA, poolA)
    requires !InRange(WithoutLast(pool1), 0, |WithoutLast(pool1)|, 0)
    ensures memA.Keys == mem1.Keys && 0 in memA && |memA[0]| == ENTRIES && poolA <= pool1
    ensures forall a :: a in mem1 && a != 0 && !InRange(pool1, |poolA|, |pool1|, a) ==> memA[a] == mem1[a]
  {
    hide Addr;
    var c, pool' := LastOf(pool1), WithoutLast(pool1);
    AddrOfZero();
    assert poolA <= pool' <= pool1;
    assert !InRange(pool', |poolA|, |pool'|, 0);
    forall a | a in mem1 && a != 0 && !InRange(pool1, |poolA|, |pool1|, a)
      ensures memA[a] == mem1[a]
    {
      RangeWithin(pool1, pool', |poolA|, |pool'|, a);
      assert pool1 != [] ==> InRange(pool1, |poolA|, |pool1|, Addr(pool1[|pool1| - 1]));
    }
  }

  lemma ShortTableLeads(mem1: Memory, pool1: seq<bv64>, level: nat, memA: Memory, poolA: seq<bv64>)
    requires level > 1
    requires pool1 != [] ==>
        var c, pool' := LastOf(pool1), WithoutLast(pool1);
        Addr(c) in mem1 && c != 0 && ShortCopied(mem1[Addr(c) := ZeroFrame()], pool', Addr(c), level - 1, memA, poolA)
    ensures Leads(memA, pool1, Addr(LastOf(pool1)), level - 1)
  {
    hide Addr, IsTable, FrameBits, OnlyShort, ZeroFrame;
    AddrOfZero();
    if pool1 != [] {
      var c, pool' := LastOf(pool1), WithoutLast(pool1);
      var j :| 0 <= j < ENTRIES && IsTable(memA[Addr(c)][j], level - 1) && Leads(memA, pool', FrameOf(memA[Addr(c)][j]), level - 2);
      LeadsMore(memA, pool', pool1, FrameOf(memA[Addr(c)][j]), level - 2);
      assert InRange(pool1, 0, |pool1|, Addr(pool1[|pool1| - 1]));
    }
  }

  lemma AboveBottom(e: Entry, level: nat)
    requires IsTable(e, level)
    ensures level > 1
  {
  }

  // ---------------------------------------------------------------- one slot, with or without enough frames

  lemma WhichMode(mem0: Memory, mem: Memory, pool: seq<bv64>, dst: nat, src: nat, level: nat)
    requires CopyReady(mem0, mem, pool, dst, src, level) || ShortReady(mem0, mem, pool, dst, src, level)
    ensures UpTo(mem0, mem, pool, dst, src, level, mem, pool, 0, NeedUpTo(mem0, src, level, ENTRIES) <= |pool|)
  {
    hide CopyBase, NeedUpTo, Tables, CopiedUpTo, ShortUpTo;
    if NeedUpTo(mem0, src, level, ENTRIES) <= |pool| {
      NothingCopied(mem0, mem, pool, dst, src, level);
    } else {
      ShortStart(mem0, mem, pool, dst, src, level);
    }
  }

  /** How far the copy has come, either way. */
  ghost predicate UpTo(mem0: Memory, mem: Memory, pool: seq<bv64>, dst: nat, src: nat, level: nat,
                       mem1: Memory, pool1: seq<bv64>, i: nat, enough: bool) {
    if enough then CopiedUpTo(mem0, mem, pool, dst, src, level, mem1, pool1, i)
    else ShortUpTo(mem0, mem, pool, dst, src, level, mem1, pool1, i)
  }

  lemma SourceNow(mem0: Memory, mem: Memory, pool: seq<bv64>, dst: nat, src: nat, level: nat,
                  mem1: Memory, pool1: seq<bv64>, i: nat, enough: bool)
    requires UpTo(mem0, mem, pool, dst, src, level, mem1, pool1, i, enough)
    ensures src in mem0 && |mem0[src]| == ENTRIES && src in mem1 && mem1[src] == mem0[src] && PoolOk(mem1, pool1)
    ensures dst in mem1 && |mem1[dst]| == ENTRIES && forall k :: 0 <= k < |pool1| ==> Addr(pool1[k]) != dst
  {
    hide CopiedUpTo, ShortUpTo, PoolOk, Tables, CopyBase, OnlyShort, Addr;
    if enough {
      SourceKept(mem0, mem, pool, dst, src, level, mem1, pool1, i);
      PoolKept(mem0, mem, pool, dst, src, level, mem1, pool1, i);
    } else {
      ShortKept(mem0, mem, pool, dst, src, level, mem1, pool1, i);
      ShortParts(mem0, mem, pool, dst, src, level, mem1, pool1, i);
    }
  }

  lemma ChildNow(mem0: Memory, mem: Memory, pool: seq<bv64>, dst: nat, src: nat, level: nat,
                 mem1: Memory, pool1: seq<bv64>, i: nat, enough: bool)
    requires UpTo(mem0, mem, pool, dst, src, level, mem1, pool1, i, enough) && i < ENTRIES
    requires src in mem0 && |mem0[src]| == ENTRIES && IsTable(mem0[src][i], level)
    ensures var c, pool', t := LastOf(pool1), WithoutLast(pool1), FrameOf(mem0[src][i]); var mem' := mem1[Addr(c) := ZeroFrame()];
      && Aligned(c) && Addr(c) in mem1
      && (CopyReady(mem0, mem', pool', Addr(c), t, level - 1) || ShortReady(mem0, mem', pool', Addr(c), t, level - 1))
      && (enough ==> |pool1| > 0 && NeedUpTo(mem0, t, level - 1, ENTRIES) <= |pool'|)
      && (!enough ==> 0 in mem1 && |mem1[0]| == ENTRIES)
  {
    hide CopiedUpTo, ShortUpTo, Tables, CopyBase, Addr, Aligned, NeedUpTo, IsTable, FrameBits;
    if enough {
      ChildReady(mem0, mem, pool, dst, src, level, mem1, pool1, i);
      PoolKept(mem0, mem, pool, dst, src, level, mem1, pool1, i);
    } else {
      ShortChild(mem0, mem, pool, dst, src, level, mem1, pool1, i);
      ShortZero(mem0, mem, pool, dst, src, level, mem1, pool1, i);
    }
  }

  lemma AllDone(mem0: Memory, mem: Memory, pool: seq<bv64>, dst: nat, src: nat, level: nat, mem': Memory, pool': seq<bv64>, enough: bool)
    requires UpTo(mem0, mem, pool, dst, src, level, mem', pool', ENTRIES, enough) && 1 <= level <= 4
    ensures if enough then Copied(mem0, mem, pool, dst, src, level, mem', pool') else ShortCopied(mem, pool, dst, level, mem', pool')
  {
    hide CopiedUpTo, ShortUpTo, Copied, ShortCopied;
    if enough {
      AllCopied(mem0, mem, pool, dst, src, level, mem', pool');
    } else {
      ShortEnd(mem0, mem, pool, dst, src, level, mem', pool');
    }
  }

  lemma TakenNow(pool1: seq<bv64>, c: bv64, pool': seq<bv64>)
    requires if pool1 == [] then c == 0 && pool' == [] else c == pool1[|pool1| - 1] && pool' == pool1[..|pool1| - 1]
    ensures c == LastOf(pool1) && pool' == WithoutLast(pool1)
  {
  }

  /** What is stored in slot i brings the copy one slot further. */
  lemma SlotNow(mem0: Memory, mem: Memory, pool: seq<bv64>, dst: nat, src: nat, level: nat, mem1: Memory, pool1: seq<bv64>, i: nat,
                memA: Memory, poolA: seq<bv64>, copy: Entry, enough: bool)
    requires UpTo(mem0, mem, pool, dst, src, level, mem1, pool1, i, enough) && i < ENTRIES && 1 <= level <= 4
    requires src in mem0 && |mem0[src]| == ENTRIES && PoolOk(mem1, pool1) && forall k :: 0 <= k < |pool1| ==> Addr(pool1[k]) != dst
    requires Slotted(mem0, mem1, pool1, mem0[src][i], level, memA, poolA, copy, enough)
    ensures UpTo(mem0, mem, pool, dst, src, level, Store(memA, dst, i, copy), poolA, i + 1, enough)
  {
    hide CopiedUpTo, ShortUpTo, Tables, CopyBase, Addr, NeedUpTo, IsTable, FrameBits, SlotBuilt, ShortBuilt, PoolOk, Copied, ShortCopied,
         Aligned, Relink, CowMark;
    var o := mem0[src][i];
    if enough {
      if IsTable(o, level) {
        TableSlot(mem0, mem1, pool1, dst, src, level, i, memA, poolA);
      } else {
        PlainSlot(mem0, mem1, pool1, dst, src, level, i, copy);
      }
      SlotStep(mem0, mem, pool, dst, src, level, mem1, pool1, i, memA, poolA, copy);
    } else {
      if IsTable(o, level) {
        ShortTable(mem0, mem1, pool1, o, level, memA, poolA);
      } else {
        ShortPlain(mem0, mem, pool, dst, src, level, mem1, pool1, i, copy);
      }
      ShortStep(mem0, mem, pool, dst, src, level, mem1, pool1, i, memA, poolA, copy);
    }
  }

  lemma PlainSlotted(mem0: Memory, mem1: Memory, pool1: seq<bv64>, o: Entry, level: nat, copy: Entry, enough: bool)
    requires !IsTable(o, level) && copy == if Present(o) then CowMark(o) else 0
    ensures Slotted(mem0, mem1, pool1, o, level, mem1, pool1, copy, enough)
  {
  }

  lemma TableSlotted(mem0: Memory, mem1: Memory, pool1: seq<bv64>, o: Entry, level: nat, memA: Memory, poolA: seq<bv64>, enough: bool)
    requires IsTable(o, level)
    requires var c, pool' := LastOf(pool1), WithoutLast(pool1); var mem' := mem1[Addr(c) := ZeroFrame()];
      && Aligned(c) && Addr(c) in mem1
      && (enough ==> |pool1| > 0 && NeedUpTo(mem0, FrameOf(o), level - 1, ENTRIES) <= |pool'|)
      && (!enough ==> 0 in mem1 && |mem1[0]| == ENTRIES)
      && if NeedUpTo(mem0, FrameOf(o), level - 1, ENTRIES) <= |pool'|
         then Copied(mem0, mem', pool', Addr(c), FrameOf(o), level - 1, memA, poolA)
         else ShortCopied(mem', pool', Addr(c), level - 1, memA, poolA)
    ensures Slotted(mem0, mem1, pool1, o, level, memA, poolA, Relink(LastOf(pool1), o), enough)
  {
    hide Copied, ShortCopied, NeedUpTo, Addr, IsTable, Aligned, Relink, FrameBits;
  }

  /** What the loop body made of entry o. */
  ghost predicate Slotted(mem0: Memory, mem1: Memory, pool1: seq<bv64>, o: Entry, level: nat,
                          memA: Memory, poolA: seq<bv64>, copy: Entry, enough: bool) {
    if !IsTable(o, level) then memA == mem1 && poolA == pool1 && copy == if Present(o) then CowMark(o) else 0
    else
      var c, pool' := LastOf(pool1), WithoutLast(pool1);
      var mem' := mem1[Addr(c) := ZeroFrame()];
      && Aligned(c) && Addr(c) in mem1 && copy == Relink(c, o)
      && (enough ==> |pool1| > 0 && NeedUpTo(mem0, FrameOf(o), level - 1, ENTRIES) <= |pool'|)
      && (!enough ==> 0 in mem1 && |mem1[0]| == ENTRIES)
      && if NeedUpTo(mem0, FrameOf(o), level - 1, ENTRIES) <= |pool'|
         then Copied(mem0, mem', pool', Addr(c), FrameOf(o), level - 1, memA, poolA)
         else ShortCopied(mem', pool', Addr(c), level - 1, memA, poolA)
  }

  /**
   `copy_table_level`; mem0 is memory when the fork began.  With enough free frames dst roots a copy; with too few, it
   leads to address 0.
   */
  method CopyLevel(m: Machine, dst: nat, src: nat, level: nat, ghost mem0: Memory)
    requires CopyReady(mem0, m.mem, m.pool, dst, src, level) || ShortReady(mem0, m.mem, m.pool, dst, src, level)
    requires 1 <= level <= 4
    modifies m
    ensures if NeedUpTo(mem0, src, level, ENTRIES) <= |old(m.pool)|
            then Copied(mem0, old(m.mem), old(m.pool), dst, src, level, m.mem, m.pool)
            else ShortCopied(old(m.mem), old(m.pool), dst, level, m.mem, m.pool)
    decreases level
  {
    hide *;
    ghost var enough := NeedUpTo(mem0, src, level, ENTRIES) <= |m.pool|;
    WhichMode(mem0, m.mem, m.pool, dst, src, level);
    var i := 0;
    while i < ENTRIES
      invariant i <= ENTRIES && UpTo(mem0, old(m.mem), old(m.pool), dst, src, level, m.mem, m.pool, i, enough)
    {
      ghost var mem1, pool1 := m.mem, m.pool;
      SourceNow(mem0, old(m.mem), old(m.pool), dst, src, level, mem1, pool1, i, enough);
      var entry, copy := m.mem[src][i], 0;
      if !Present(entry) {
        AbsentIsNoTable(entry, level);
        PlainSlotted(mem0, mem1, pool1, entry, level, copy, enough);
      } else if (level == 3 && BigPage(entry)) || (level == 2 && BigPage(entry)) || level == 1 {
        LeafTest(entry, level);
        copy := CowMark(entry);
        PlainSlotted(mem0, mem1, pool1, entry, level, copy, enough);
      } else {
        LeafTest(entry, level);
        ChildNow(mem0, old(m.mem), old(m.pool), dst, src, level, mem1, pool1, i, enough);
        AboveBottom(entry, level);
        var next := m.AllocateFrame();
        TakenNow(pool1, next, m.pool);
        m.mem := m.mem[Addr(next) := ZeroFrame()];
        CopyLevel(m, Addr(next), FrameOf(entry), level - 1, mem0);
        copy := Relink(next, entry);
        TableSlotted(mem0, mem1, pool1, entry, level, m.mem, m.pool, enough);
      }
      SlotNow(mem0, old(m.mem), old(m.pool), dst, src, level, mem1, pool1, i, m.mem, m.pool, copy, enough);
      m.mem := Store(m.mem, dst, i, copy);
      i := i + 1;
    }
    AllDone(mem0, old(m.mem), old(m.pool), dst, src, level, m.mem, m.pool, enough);
  }

  /**
   The outcome of a fork: the parent's tables are untouched, the child's are frames that were free,
   and every address translates in the child to a copy of its page in the parent.
   */
  ghost predicate Forked(mem: Memory, pool: seq<bv64>, root: nat, top: nat, mem': Memory, pool': seq<bv64>, child: nat) {
    && Ready(mem', pool', root, top) && Ready(mem', pool', child, top) && pool' <= pool && mem'.Keys == mem.Keys
    && Tables(mem', root, top) == Tables(mem, root, top) && Tables(mem', child, top) !! Tables(mem', root, top)
    && (forall a :: a in Tables(mem', child, top) ==> InRange(pool, |pool'|, |pool|, a))
    && (forall a :: a in mem && !InRange(pool, |pool'|, |pool|, a) ==> mem'[a] == mem[a])
    && SameTranslation(mem, mem', root, top)
    && (forall va :: Walk(mem', child, top, va) == CopyOf(Walk(mem, root, top, va)))
    && BitsKept(mem, root, top, mem', child)
  }

  /**
   The bits of the two entries met at any address: the leaves are the same but for the sharing of a writable page, and
   every table entry on the way has its original's low bits.
   */
  ghost predicate BitsKept(mem: Memory, root: nat, top: nat, mem': Memory, child: nat) {
    && (forall va :: LeafKept(Walk(mem, root, top, va), Walk(mem', child, top, va)))
    && forall va, k: nat :: OnPath(mem, root, top, va, k) && IsTable(PathSlot(mem, root, top, va, k), k) ==>
        OnPath(mem', child, top, va, k) && LowBitsKept(PathSlot(mem, root, top, va, k), PathSlot(mem', child, top, va, k))
  }

  predicate LeafKept(l: Lookup, l': Lookup) {
    l.Leaf? == l'.Leaf? && (l.Leaf? ==> l'.size == l.size && SameButShared(l.entry, l'.entry))
  }

  lemma BitsCopied(mem: Memory, root: nat, top: nat, mem': Memory, child: nat)
    requires forall va :: Walk(mem', child, top, va) == CopyOf(Walk(mem, root, top, va))
    requires TableLinks(mem, root, mem', child, top)
    ensures BitsKept(mem, root, top, mem', child)
  {
    hide Walk, CowMark, SameButShared, LowBitsKept, TableLinks, OnPath, PathSlot, IsTable;
    forall va
      ensures LeafKept(Walk(mem, root, top, va), Walk(mem', child, top, va))
    {
      assert Walk(mem', child, top, va) == CopyOf(Walk(mem, root, top, va));
      if Walk(mem, root, top, va).Leaf? {
        CowMarkShares(Walk(mem, root, top, va).entry);
      }
    }
    forall va, k: nat | OnPath(mem, root, top, va, k) && IsTable(PathSlot(mem, root, top, va, k), k)
      ensures OnPath(mem', child, top, va, k) && LowBitsKept(PathSlot(mem, root, top, va, k), PathSlot(mem', child, top, va, k))
    {
      LinksOnPath(mem, root, mem', child, top, va, k);
    }
  }

  /** Enough frames for the root and every table below it; address 0 matters only if there are not. */
  ghost predicate ForkEnough(mem: Memory, pool: seq<bv64>, root: nat, top: nat) {
    NeedUpTo(mem, root, top, ENTRIES) < |pool|
  }

  ghost predicate NullAside(mem: Memory, root: nat, top: nat) {
    0 in mem && |mem[0]| == ENTRIES && 0 !in Tables(mem, root, top)
  }

  lemma ForkReady(mem: Memory, pool: seq<bv64>, root: nat, top: nat)
    requires Ready(mem, pool, root, top) && |pool| > 0 && (!ForkEnough(mem, pool, root, top) ==> NullAside(mem, root, top))
    ensures var c := pool[|pool| - 1]; var mem', pool' := mem[Addr(c) := mem[root]], pool[..|pool| - 1];
      && c != 0 && Addr(c) != 0 && Addr(c) in mem && root in mem && 1 <= top <= 4
      && (ForkEnough(mem, pool, root, top) <==> NeedUpTo(mem, root, top, ENTRIES) <= |pool'|)
      && (CopyReady(mem, mem', pool', Addr(c), root, top) || ShortReady(mem, mem', pool', Addr(c), root, top))
  {
    hide NeedUpTo, Tables, Aligned;
  }

  lemma ForkDone(mem: Memory, pool: seq<bv64>, root: nat, top: nat, mem': Memory, pool': seq<bv64>)
    requires Ready(mem, pool, root, top) && |pool| > 0 && 1 <= top <= 4
    requires var c := pool[|pool| - 1];
      Addr(c) in mem && root in mem && Copied(mem, mem[Addr(c) := mem[root]], pool[..|pool| - 1], Addr(c), root, top, mem', pool')
    ensures Forked(mem, pool, root, top, mem', pool', Addr(pool[|pool| - 1]))
  {
    hide Addr, NeedUpTo, Tables, TreeOk, CowMark, Aligned, TableLinks, BitsKept;
    var c, pool1 := pool[|pool| - 1], pool[..|pool| - 1];
    forall a
      ensures InRange(pool1, |pool'|, |pool1|, a) || a == Addr(c) ==> InRange(pool, |pool'|, |pool|, a)
    {
      RangeWithin(pool, pool1, |pool'|, |pool1|, a);
      assert InRange(pool, |pool'|, |pool|, Addr(pool[|pool| - 1]));
    }
    FreeUntouched(mem, pool, root, top, mem', pool');
    SubtreeDependsOnTables(mem, mem', root, top);
    BitsCopied(mem, root, top, mem', Addr(c));
  }

  /** Frames still free after only taken frames were written. */
  lemma FreeUntouched(mem: Memory, pool: seq<bv64>, root: nat, top: nat, mem': Memory, pool': seq<bv64>)
    requires Ready(mem, pool, root, top) && pool' <= pool && mem'.Keys == mem.Keys
    requires forall a :: a in mem && !InRange(pool, |pool'|, |pool|, a) ==> mem'[a] == mem[a]
    ensures PoolOk(mem', pool')
    ensures forall k :: 0 <= k < |pool'| ==> Addr(pool'[k]) !in Tables(mem, root, top) && !InRange(pool, |pool'|, |pool|, Addr(pool'[k]))
    ensures forall a :: a in Tables(mem, root, top) ==> !InRange(pool, |pool'|, |pool|, a)
  {
    hide Addr, Tables, TreeOk, Aligned;
    forall k | 0 <= k < |pool'|
      ensures pool'[k] == pool[k] && !InRange(pool, |pool'|, |pool|, Addr(pool'[k]))
    {
      assert pool'[k] == pool[k];
    }
  }

  /**
   The outcome of a fork with too few frames: the parent's tables are untouched, but the child's lead to address 0,
   as if the null pointer were a table.
   */
  ghost predicate ForkedShort(mem: Memory, pool: seq<bv64>, root: nat, top: nat, mem': Memory, pool': seq<bv64>, child: nat) {
    && TreeOk(mem', root, top) && Tables(mem', root, top) == Tables(mem, root, top) && SameTranslation(mem, mem', root, top)
    && pool' == [] && child != 0 && 0 in Tables(mem', child, top)
  }

  /** A child that leads to address 0 is no fork. */
  lemma ShortIsNoFork(mem: Memory, pool: seq<bv64>, root: nat, top: nat, mem': Memory, pool': seq<bv64>, child: nat)
    requires PoolOk(mem, pool) && ForkedShort(mem, pool, root, top, mem', pool', child)
    ensures !Forked(mem, pool, root, top, mem', pool', child)
  {
    hide Tables, TreeOk, Addr, Aligned, Walk, BitsKept;
    AddrOfZero();
    assert !InRange(pool, |pool'|, |pool|, 0);
  }

  lemma ForkShort(mem: Memory, pool: seq<bv64>, root: nat, top: nat, mem': Memory, pool': seq<bv64>)
    requires Ready(mem, pool, root, top) && |pool| > 0 && NullAside(mem, root, top) && top <= 4
    requires var c := pool[|pool| - 1];
      Addr(c) in mem && Addr(c) != 0 && root in mem && ShortCopied(mem[Addr(c) := mem[root]], pool[..|pool| - 1], Addr(c), top, mem', pool')
    ensures ForkedShort(mem, pool, root, top, mem', pool', Addr(pool[|pool| - 1]))
  {
    hide Addr, Tables, TreeOk, Aligned, IsTable, FrameBits, Leads;
    var c, pool1 := pool[|pool| - 1], pool[..|pool| - 1];
    forall a | a in Tables(mem, root, top) && a in mem
      ensures mem'[a] == mem[a]
    {
      NotFree(mem, pool, root, top, a);
    }
    SubtreeDependsOnTables(mem, mem', root, top);
    var child := Addr(c);
    var j :| 0 <= j < ENTRIES && IsTable(mem'[child][j], top) && Leads(mem', pool1, FrameOf(mem'[child][j]), top - 1);
    LeadsReach(mem', pool1, FrameOf(mem'[child][j]), top - 1);
    SlotInTables(mem', child, top, j);
    TableOfSlot(mem', mem'[child][j], top);
  }

  lemma TableOfSlot(mem: Memory, e: Entry, level: nat)
    requires IsTable(e, level)
    ensures SlotTables(mem, e, level) == Tables(mem, FrameOf(e), level - 1)
  {
  }

  lemma NotFree(mem: Memory, pool: seq<bv64>, root: nat, top: nat, a: nat)
    requires Ready(mem, pool, root, top) && a in Tables(mem, root, top) && |pool| > 0
    ensures a != Addr(pool[|pool| - 1]) && !InRange(pool[..|pool| - 1], 0, |pool| - 1, a)
  {
    hide Addr, Tables, TreeOk, Aligned;
    forall k | 0 <= k < |pool| - 1
      ensures pool[..|pool| - 1][k] == pool[k]
    {
    }
  }

  /** `pageTable_fork`.  Once it has a root it never reports failure; it has made a fork exactly when there were enough frames. */
  method Fork(m: Machine, root: nat, top: nat) returns (child: nat)
    requires Ready(m.mem, m.pool, root, top) && top == 4
    requires m.pool != [] && !ForkEnough(m.mem, m.pool, root, top) ==> NullAside(m.mem, root, top)
    modifies m
    ensures child == 0 <==> old(m.pool) == []
    ensures child == 0 ==> m.mem == old(m.mem) && m.pool == []
    ensures child != 0 ==>
        (Forked(old(m.mem), old(m.pool), root, top, m.mem, m.pool, child) <==> ForkEnough(old(m.mem), old(m.pool), root, top))
    ensures child != 0 && !ForkEnough(old(m.mem), old(m.pool), root, top) ==>
        ForkedShort(old(m.mem), old(m.pool), root, top, m.mem, m.pool, child)
  {
    hide *;
    if |m.pool| > 0 {
      ForkReady(m.mem, m.pool, root, top);
    }
    var table := m.AllocateFrame();
    if table == 0 {
      return 0;
    }
    child := Addr(table);
    m.mem := m.mem[child := m.mem[root]];
    CopyLevel(m, child, root, top, old(m.mem));
    ForkEnds(old(m.mem), old(m.pool), root, top, m.mem, m.pool);
  }

  lemma ForkEnds(mem: Memory, pool: seq<bv64>, root: nat, top: nat, mem': Memory, pool': seq<bv64>)
    requires Ready(mem, pool, root, top) && |pool| > 0 && 1 <= top <= 4
    requires !ForkEnough(mem, pool, root, top) ==> NullAside(mem, root, top)
    requires var c := pool[|pool| - 1]; var mem1, pool1 := mem[Addr(c) := mem[root]], pool[..|pool| - 1];
      && Addr(c) in mem && Addr(c) != 0 && root in mem
      && if NeedUpTo(mem, root, top, ENTRIES) <= |pool1| then Copied(mem, mem1, pool1, Addr(c), root, top, mem', pool')
         else ShortCopied(mem1, pool1, Addr(c), top, mem', pool')
    ensures var child := Addr(pool[|pool| - 1]);
      && (Forked(mem, pool, root, top, mem', pool', child) <==> ForkEnough(mem, pool, root, top))
      && (!ForkEnough(mem, pool, root, top) ==> ForkedShort(mem, pool, root, top, mem', pool', child))
  {
    hide Addr, NeedUpTo, Tables, Copied, ShortCopied, Forked, ForkedShort, NullAside, TreeOk, Aligned;
    if ForkEnough(mem, pool, root, top) {
      ForkDone(mem, pool, root, top, mem', pool');
    } else {
      ForkShort(mem, pool, root, top, mem', pool');
      ShortIsNoFork(mem, pool, root, top, mem', pool', Addr(pool[|pool| - 1]));
    }
  }

  // ---------------------------------------------------------------- an address space that needs two frames

  /** A frame with one entry. */
  function OneEntry(e: Entry): (f: Frame)
    ensures |f| == ENTRIES && f[0] == e && forall k :: 1 <= k < ENTRIES ==> f[k] == 0
  {
    [e] + seq(ENTRIES - 1, _ => 0)
  }

  lemma {:induction false} SparseNeed(mem: Memory, t: nat, level: nat, i: nat)
    requires t in mem && |mem[t]| == ENTRIES && i <= ENTRIES && forall k :: 1 <= k < ENTRIES ==> mem[t][k] == 0
    ensures NeedUpTo(mem, t, level, i) == if i == 0 then 0 else NeedSlot(mem, mem[t][0], level)
    decreases i
  {
    if i > 0 {
      SparseNeed(mem, t, level, i - 1);
      StepNeed(mem, t, level, i - 1);
      AbsentIsNoTable(0, level);
    }
  }

  /** A root at 0x1000 with one empty table at 0x2000. */
  function TwoTables(): Memory {
    map[0 := ZeroFrame(), 0x1000 := OneEntry(0x2003), 0x2000 := ZeroFrame(), 0x3000 := ZeroFrame(), 0x4000 := ZeroFrame()]
  }

  lemma TwoTablesTree()
    ensures TreeOk(TwoTables(), 0x1000, 4) && Tables(TwoTables(), 0x1000, 4) == {0x1000, 0x2000}
    ensures NeedUpTo(TwoTables(), 0x1000, 4, ENTRIES) == 1
  {
    hide ZeroFrame, OneEntry, Addr, TreeOk, Tables, NeedUpTo;
    var mem := TwoTables();
    var e := mem[0x1000][0];
    TableAt2000();
    EmptyTable(mem, 0x2000, 3);
    SparseNeed(mem, 0x2000, 3, ENTRIES);
    SparseNeed(mem, 0x1000, 4, ENTRIES);
    AbsentIsNoTable(0, 3);
    AbsentIsNoTable(0, 4);
    TreeOfSlots(mem, 0x1000, 4);
    SparseTables(mem, 0x1000, 4);
  }

  lemma SparseTables(mem: Memory, t: nat, level: nat)
    requires t in mem && |mem[t]| == ENTRIES && level > 0 && forall k :: 1 <= k < ENTRIES ==> mem[t][k] == 0
    ensures Tables(mem, t, level) == {t} + SlotTables(mem, mem[t][0], level)
  {
    hide SlotTables;
    AbsentIsNoTable(0, level);
    NoTables(mem, level);
  }

  lemma NoTables(mem: Memory, level: nat)
    ensures SlotTables(mem, 0, level) == {}
  {
  }

  lemma TableAt2000()
    ensures IsTable(0x2003, 4) && FrameOf(0x2003) == 0x2000
  {
  }

  /** With one frame free the fork goes wrong, with two it does not. */
  lemma OneFrameShort()
    ensures Ready(TwoTables(), [0x3000], 0x1000, 4) && NullAside(TwoTables(), 0x1000, 4)
    ensures !ForkEnough(TwoTables(), [0x3000], 0x1000, 4)
    ensures Ready(TwoTables(), [0x3000, 0x4000], 0x1000, 4) && ForkEnough(TwoTables(), [0x3000, 0x4000], 0x1000, 4)
  {
    hide TreeOk, Tables, NeedUpTo, ZeroFrame, OneEntry;
    TwoTablesTree();
    assert Addr(0x3000) == 0x3000 && Addr(0x4000) == 0x4000;
  }
}

/**
 Four-level page tables (Intel SDM Vol. 3A, section 4.5) over a heap of 512-entry frames.
 Entries are 64-bit words, virtual addresses are naturals below 2^64.
 */
module PageTable {

  type Entry = bv64
  type Frame = seq<Entry>
  /** Physical memory used for tables, by frame address. */
  type Memory = map<nat, Frame>

  const ENTRIES: nat := 512

  // The bits of an entry; the masks are written out so that the solver sees literals.

  /** `PAGE_PRESENT` */
  predicate Present(e: Entry) { e & 0x001 != 0 }
  /** `PAGE_WRITABLE` */
  predicate Writable(e: Entry) { e & 0x002 != 0 }
  /** `PAGE_PS` */
  predicate BigPage(e: Entry) { e & 0x080 != 0 }
  /** `PAGE_COW` */
  predicate CopyOnWrite(e: Entry) { e & 0x0010_0000_0000_0000 != 0 }
  /** `entry & PAGE_MASK` */
  function FrameBits(e: Entry): bv64 { e & 0x000F_FFFF_FFFF_F000 }
  function FrameOf(e: Entry): nat { Addr(FrameBits(e)) }

  /** A physical address as a number. */
  function Addr(a: bv64): nat { a as nat }

  /** Bytes one entry maps at each level. */
  function EntrySize(level: nat): (s: nat)
    ensures s > 0
  {
    if level == 4 then 0x80_0000_0000
    else if level == 3 then 0x4000_0000
    else if level == 2 then 0x20_0000
    else 0x1000
  }

  /** `PML4_INDEX`, `PDPT_INDEX`, `PD_INDEX`, `PT_INDEX` */
  function Index(level: nat, va: nat): (i: nat)
    ensures i < ENTRIES
  {
    va / EntrySize(level) % 512
  }

  datatype Indices = Indices(pml4: nat, pdpt: nat, pd: nat, pt: nat, offset: nat)

  function ExtractIndices(va: nat): Indices {
    Indices(Index(4, va), Index(3, va), Index(2, va), Index(1, va), va % 0x1000)
  }

  /** A canonical address repeats bit 47 above itself. */
  predicate Canonical(va: nat) {
    va < 0x8000_0000_0000 || 0xFFFF_8000_0000_0000 <= va < 0x1_0000_0000_0000_0000
  }

  function Recompose(x: Indices): nat {
    (if x.pml4 >= 256 then 0xFFFF_0000_0000_0000 else 0)
    + x.pml4 * 0x80_0000_0000 + x.pdpt * 0x4000_0000 + x.pd * 0x20_0000 + x.pt * 0x1000 + x.offset
  }

  lemma NestedIndex(va: nat)
    ensures va / 0x20_0000 == va / 0x1000 / 512
    ensures va / 0x4000_0000 == va / 0x20_0000 / 512
    ensures va / 0x80_0000_0000 == va / 0x4000_0000 / 512
  {
  }

  /** The index split of a canonical address loses nothing. */
  lemma IndicesLossless(va: nat)
    requires Canonical(va)
    ensures Recompose(ExtractIndices(va)) == va
  {
    var a, b, c, d := va / 0x1000, va / 0x20_0000, va / 0x4000_0000, va / 0x80_0000_0000;
    NestedIndex(va);
    assert va == a * 0x1000 + va % 0x1000;
    assert a == b * 512 + a % 512 && b == c * 512 + b % 512 && c == d * 512 + c % 512;
    TopIndex(va, d);
  }

  lemma TopIndex(va: nat, d: nat)
    requires Canonical(va) && d == va / 0x80_0000_0000
    ensures if d % 512 >= 256 then d == d % 512 + 0x1FF_FE00 else d == d % 512
  {
    if va < 0x8000_0000_0000 {
      assert d < 256;
    } else {
      assert 0x1FF_FF00 <= d < 0x200_0000;
      assert (d - 0x1FF_FE00) % 512 == d - 0x1FF_FE00;
    }
  }

  /** `page_lookup_result_t`; the source's {0, 0} is `Unmapped`. */
  datatype Lookup = Unmapped | Leaf(entry: Entry, size: nat)

  /** Does e point to a lower-level table? */
  predicate IsTable(e: Entry, level: nat) {
    level > 1 && Present(e) && (level == 4 || !BigPage(e))
  }

  /** What entry e of a level's table means for address va. */
  function SlotWalk(mem: Memory, e: Entry, level: nat, va: nat): Lookup
    decreases level, 0
  {
    if !Present(e) then Unmapped
    else if IsTable(e, level) then Walk(mem, FrameOf(e), level - 1, va)
    else Leaf(e, EntrySize(level))
  }

  function Walk(mem: Memory, t: nat, level: nat, va: nat): Lookup
    decreases level, 1
  {
    if t in mem && |mem[t]| == ENTRIES && level > 0 then SlotWalk(mem, mem[t][Index(level, va)], level, va) else Unmapped
  }

  /** The table frames reachable from a table of the given level. */
  ghost function Tables(mem: Memory, t: nat, level: nat): set<nat>
    decreases level, 1
  {
    {t} + if t in mem && |mem[t]| == ENTRIES && level > 0
          then set i, a | 0 <= i < ENTRIES && a in SlotTables(mem, mem[t][i], level) :: a
          else {}
  }

  ghost function SlotTables(mem: Memory, e: Entry, level: nat): set<nat>
    decreases level, 0
  {
    if IsTable(e, level) then Tables(mem, FrameOf(e), level - 1) else {}
  }

  /** Every table is a 512-entry frame and none is reached twice. */
  ghost predicate TreeOk(mem: Memory, t: nat, level: nat)
    decreases level, 1
  {
    && t in mem && |mem[t]| == ENTRIES && 1 <= level <= 4
    && (forall i :: 0 <= i < ENTRIES ==> SlotOk(mem, mem[t][i], level) && t !in SlotTables(mem, mem[t][i], level))
    && forall i, j :: 0 <= i < j < ENTRIES ==> SlotTables(mem, mem[t][i], level) !! SlotTables(mem, mem[t][j], level)
  }

  ghost predicate SlotOk(mem: Memory, e: Entry, level: nat)
    decreases level, 0
  {
    IsTable(e, level) ==> TreeOk(mem, FrameOf(e), level - 1)
  }

  /** A subtree only depends on its own tables. */
  lemma {:induction false} SubtreeDependsOnTables(mem: Memory, mem': Memory, t: nat, level: nat)
    requires forall a :: a in Tables(mem, t, level) && a in mem ==> a in mem' && mem'[a] == mem[a]
    requires TreeOk(mem, t, level)
    ensures Tables(mem', t, level) == Tables(mem, t, level) && TreeOk(mem', t, level)
    ensures forall va :: Walk(mem', t, level, va) == Walk(mem, t, level, va)
    decreases level, 1
  {
    forall i | 0 <= i < ENTRIES
      ensures SlotTables(mem', mem[t][i], level) == SlotTables(mem, mem[t][i], level)
      ensures SlotOk(mem', mem[t][i], level)
      ensures forall va :: SlotWalk(mem', mem[t][i], level, va) == SlotWalk(mem, mem[t][i], level, va)
    {
      assert forall a :: a in SlotTables(mem, mem[t][i], level) ==> a in Tables(mem, t, level);
      SlotDependsOnTables(mem, mem', mem[t][i], level);
    }
  }

  lemma {:induction false} SlotDependsOnTables(mem: Memory, mem': Memory, e: Entry, level: nat)
    requires forall a :: a in SlotTables(mem, e, level) && a in mem ==> a in mem' && mem'[a] == mem[a]
    requires SlotOk(mem, e, level)
    ensures SlotTables(mem', e, level) == SlotTables(mem, e, level) && SlotOk(mem', e, level)
    ensures forall va :: SlotWalk(mem', e, level, va) == SlotWalk(mem, e, level, va)
    decreases level, 0
  {
    if IsTable(e, level) {
      SubtreeDependsOnTables(mem, mem', FrameOf(e), level - 1);
    }
  }

  /** Are all slots for va from `level` down to just above `target` tables? */
  predicate OnPath(mem: Memory, t: nat, level: nat, va: nat, target: nat)
    decreases level
  {
    level >= target > 0 && t in mem && |mem[t]| == ENTRIES &&
    (level == target
     || (IsTable(mem[t][Index(level, va)], level) && OnPath(mem, FrameOf(mem[t][Index(level, va)]), level - 1, va, target)))
  }

  /** The table of level `target` that translates va. */
  function PathTable(mem: Memory, t: nat, level: nat, va: nat, target: nat): nat
    decreases level
  {
    if level <= target || t !in mem || |mem[t]| != ENTRIES then t else PathTable(mem, FrameOf(mem[t][Index(level, va)]), level - 1, va, target)
  }

  /** The slot of level `target` that translates va. */
  function PathSlot(mem: Memory, t: nat, level: nat, va: nat, target: nat): Entry
    decreases level
  {
    if t !in mem || |mem[t]| != ENTRIES then 0
    else if level <= target then mem[t][Index(level, va)]
    else PathSlot(mem, FrameOf(mem[t][Index(level, va)]), level - 1, va, target)
  }

  /** Do va and va' take the same slots from `level` down to `target`? */
  predicate SameSlots(level: nat, target: nat, va: nat, va': nat) {
    level < target || (Index(level, va) == Index(level, va') && (level == 0 || SameSlots(level - 1, target, va, va')))
  }

  /** Memory after one table word is stored. */
  function Store(mem: Memory, t: nat, i: nat, e: Entry): Memory {
    if t in mem && i < |mem[t]| then mem[t := mem[t][i := e]] else mem
  }

  lemma {:induction false} PathFacts(mem: Memory, t: nat, level: nat, va: nat, target: nat)
    requires OnPath(mem, t, level, va, target)
    ensures var a := PathTable(mem, t, level, va, target);
      && a in mem && |mem[a]| == ENTRIES && a in Tables(mem, t, level)
      && mem[a][Index(target, va)] == PathSlot(mem, t, level, va, target)
      && SlotTables(mem, mem[a][Index(target, va)], target) <= Tables(mem, t, level)
    decreases level
  {
    SlotInTables(mem, t, level, Index(level, va));
    if level > target {
      PathFacts(mem, FrameOf(mem[t][Index(level, va)]), level - 1, va, target);
    }
  }

  /** The slot that translates va now means e, its subtree `gone` became `added`, all else is as before. */
  ghost predicate Stored(mem: Memory, mem': Memory, t: nat, level: nat, va: nat, target: nat, e: Entry, gone: set<nat>, added: set<nat>) {
    && TreeOk(mem', t, level)
    && Tables(mem', t, level) == Tables(mem, t, level) - gone + added
    && forall va' :: Walk(mem', t, level, va') == if SameSlots(level, target, va, va') then SlotWalk(mem, e, target, va') else Walk(mem, t, level, va')
  }

  /**
   Storing a word in the table that translates va changes the meaning of exactly the addresses
   that use that slot, exchanges the slot's subtree, and leaves a tree.
   */
  lemma {:induction false} StoreOnPath(mem: Memory, t: nat, level: nat, va: nat, target: nat, e: Entry)
    requires TreeOk(mem, t, level) && OnPath(mem, t, level, va, target) && SlotOk(mem, e, target)
    requires var gone := SlotTables(mem, PathSlot(mem, t, level, va, target), target);
      SlotTables(mem, e, target) !! Tables(mem, t, level) - gone
    ensures var a := PathTable(mem, t, level, va, target);
      && a in mem && |mem[a]| == ENTRIES
      && Stored(mem, Store(mem, a, Index(target, va), e), t, level, va, target, e,
                SlotTables(mem, PathSlot(mem, t, level, va, target), target), SlotTables(mem, e, target))
    decreases level
  {
    hide Stored, TreeOk, Tables, Walk;
    PathFacts(mem, t, level, va, target);
    var a := PathTable(mem, t, level, va, target);
    if level == target {
      StoreAtTarget(mem, t, level, va, e);
    } else {
      var child := FrameOf(mem[t][Index(level, va)]);
      ChildTree(mem, t, level, Index(level, va));
      PathFacts(mem, child, level - 1, va, target);
      StoreOnPath(mem, child, level - 1, va, target, e);
      StoreKeepsOthers(mem, a, Index(target, va), e);
      StoreAbove(mem, Store(mem, a, Index(target, va), e), t, level, va, target, e,
                 SlotTables(mem, PathSlot(mem, t, level, va, target), target), SlotTables(mem, e, target));
    }
  }

  lemma ChildTree(mem: Memory, t: nat, level: nat, i: nat)
    requires TreeOk(mem, t, level) && i < ENTRIES && IsTable(mem[t][i], level)
    ensures TreeOk(mem, FrameOf(mem[t][i]), level - 1)
    ensures Tables(mem, FrameOf(mem[t][i]), level - 1) <= Tables(mem, t, level)
  {
    SlotInTables(mem, t, level, i);
  }

  lemma StoreAtTarget(mem: Memory, t: nat, level: nat, va: nat, e: Entry)
    requires TreeOk(mem, t, level) && SlotOk(mem, e, level)
    requires SlotTables(mem, e, level) !! Tables(mem, t, level) - SlotTables(mem, mem[t][Index(level, va)], level)
    ensures Stored(mem, Store(mem, t, Index(level, va), e), t, level, va, level, e,
                   SlotTables(mem, mem[t][Index(level, va)], level), SlotTables(mem, e, level))
  {
    StoreHere(mem, t, level, Index(level, va), e);
  }

  lemma StoreAbove(mem: Memory, mem': Memory, t: nat, level: nat, va: nat, target: nat, e: Entry, gone: set<nat>, added: set<nat>)
    requires TreeOk(mem, t, level) && level > target > 0 && IsTable(mem[t][Index(level, va)], level)
    requires var child := FrameOf(mem[t][Index(level, va)]);
      && Stored(mem, mem', child, level - 1, va, target, e, gone, added)
      && gone <= Tables(mem, child, level - 1)
      && forall a :: a in mem && a !in Tables(mem, child, level - 1) ==> a in mem' && mem'[a] == mem[a]
    requires added !! Tables(mem, t, level) - gone
    ensures Stored(mem, mem', t, level, va, target, e, gone, added)
  {
    StoreBelow(mem, mem', t, level, Index(level, va), gone, added);
  }

  lemma StoreKeepsOthers(mem: Memory, t: nat, i: nat, e: Entry)
    requires t in mem && i < |mem[t]|
    ensures t in Store(mem, t, i, e) && Store(mem, t, i, e)[t] == mem[t][i := e]
    ensures forall a :: a in mem && a != t ==> a in Store(mem, t, i, e) && Store(mem, t, i, e)[a] == mem[a]
  {
  }

  lemma SlotInTables(mem: Memory, t: nat, level: nat, i: nat)
    requires t in mem && |mem[t]| == ENTRIES && level > 0 && i < ENTRIES
    ensures SlotTables(mem, mem[t][i], level) <= Tables(mem, t, level)
  {
  }

  /** When one slot exchanges the subtree `gone` for `added`, so does the whole table. */
  lemma TablesExchange(mem: Memory, mem': Memory, t: nat, level: nat, i: nat, gone: set<nat>, added: set<nat>)
    requires TreeOk(mem, t, level) && i < ENTRIES && t in mem' && |mem'[t]| == ENTRIES
    requires forall k :: 0 <= k < ENTRIES && k != i ==> SlotTables(mem', mem'[t][k], level) == SlotTables(mem, mem[t][k], level)
    requires gone <= SlotTables(mem, mem[t][i], level)
    requires SlotTables(mem', mem'[t][i], level) == SlotTables(mem, mem[t][i], level) - gone + added
    ensures Tables(mem', t, level) == Tables(mem, t, level) - gone + added
  {
    forall a | a in Tables(mem', t, level)
      ensures a in Tables(mem, t, level) - gone + added
    {
      if a != t {
        var k :| 0 <= k < ENTRIES && a in SlotTables(mem', mem'[t][k], level);
        if k != i {
          assert a in SlotTables(mem, mem[t][k], level);
        }
      }
    }
    forall a | a in Tables(mem, t, level) - gone + added
      ensures a in Tables(mem', t, level)
    {
      if a in added {
        assert a in SlotTables(mem', mem'[t][i], level);
      } else if a != t {
        var k :| 0 <= k < ENTRIES && a in SlotTables(mem, mem[t][k], level);
        assert a in SlotTables(mem', mem'[t][k], level);
      }
    }
  }

  /** Slots other than i keep their subtrees when memory changes only inside slot i or in t itself. */
  lemma OtherSlotsKept(mem: Memory, mem': Memory, t: nat, level: nat, i: nat)
    requires TreeOk(mem, t, level) && i < ENTRIES
    requires forall a :: a in mem && a != t && a !in SlotTables(mem, mem[t][i], level) ==> a in mem' && mem'[a] == mem[a]
    ensures forall k :: 0 <= k < ENTRIES && k != i ==>
        && SlotTables(mem', mem[t][k], level) == SlotTables(mem, mem[t][k], level) && SlotOk(mem', mem[t][k], level)
        && forall va :: SlotWalk(mem', mem[t][k], level, va) == SlotWalk(mem, mem[t][k], level, va)
  {
    forall k | 0 <= k < ENTRIES && k != i
      ensures SlotTables(mem', mem[t][k], level) == SlotTables(mem, mem[t][k], level) && SlotOk(mem', mem[t][k], level)
      ensures forall va :: SlotWalk(mem', mem[t][k], level, va) == SlotWalk(mem, mem[t][k], level, va)
    {
      assert SlotTables(mem, mem[t][k], level) !! SlotTables(mem, mem[t][i], level);
      SlotDependsOnTables(mem, mem', mem[t][k], level);
    }
  }

  /** The store, seen from the table it hits. */
  lemma StoreHere(mem: Memory, t: nat, level: nat, i: nat, e: Entry)
    requires TreeOk(mem, t, level) && i < ENTRIES && SlotOk(mem, e, level)
    requires SlotTables(mem, e, level) !! Tables(mem, t, level) - SlotTables(mem, mem[t][i], level)
    ensures var mem' := Store(mem, t, i, e);
      && TreeOk(mem', t, level)
      && Tables(mem', t, level) == Tables(mem, t, level) - SlotTables(mem, mem[t][i], level) + SlotTables(mem, e, level)
      && forall va :: Walk(mem', t, level, va) == if Index(level, va) == i then SlotWalk(mem, e, level, va) else Walk(mem, t, level, va)
  {
    var mem' := Store(mem, t, i, e);
    StoreKeepsOthers(mem, t, i, e);
    assert t in Tables(mem, t, level) - SlotTables(mem, mem[t][i], level);
    SlotDependsOnTables(mem, mem', e, level);
    OtherSlotsKept(mem, mem', t, level, i);
    TablesExchange(mem, mem', t, level, i, SlotTables(mem, mem[t][i], level), SlotTables(mem, e, level));
    TreeAfterStore(mem, mem', t, level, i);
    forall va
      ensures Walk(mem', t, level, va) == if Index(level, va) == i then SlotWalk(mem, e, level, va) else Walk(mem, t, level, va)
    {
      var k := Index(level, va);
      if k != i {
        assert SlotWalk(mem', mem[t][k], level, va) == SlotWalk(mem, mem[t][k], level, va);
      }
    }
  }

  lemma TreeAfterStore(mem: Memory, mem': Memory, t: nat, level: nat, i: nat)
    requires TreeOk(mem, t, level) && i < ENTRIES && t in mem' && |mem'[t]| == ENTRIES
    requires forall k :: 0 <= k < ENTRIES && k != i ==>
        mem'[t][k] == mem[t][k] && SlotOk(mem', mem[t][k], level) && SlotTables(mem', mem[t][k], level) == SlotTables(mem, mem[t][k], level)
    requires SlotOk(mem', mem'[t][i], level) && t !in SlotTables(mem', mem'[t][i], level)
    requires SlotTables(mem', mem'[t][i], level) !! Tables(mem, t, level) - SlotTables(mem, mem[t][i], level)
    ensures TreeOk(mem', t, level)
  {
    forall k | 0 <= k < ENTRIES && k != i
      ensures SlotTables(mem', mem'[t][k], level) !! SlotTables(mem', mem'[t][i], level)
    {
      SlotInTables(mem, t, level, k);
      assert SlotTables(mem, mem[t][k], level) !! SlotTables(mem, mem[t][i], level);
    }
  }

  /** The store, seen from a table above it. */
  lemma StoreBelow(mem: Memory, mem': Memory, t: nat, level: nat, i: nat, gone: set<nat>, added: set<nat>)
    requires TreeOk(mem, t, level) && level > 1 && i < ENTRIES && IsTable(mem[t][i], level)
    requires t in mem' && mem'[t] == mem[t]
    requires forall a :: a in mem && a !in SlotTables(mem, mem[t][i], level) ==> a in mem' && mem'[a] == mem[a]
    requires SlotOk(mem', mem[t][i], level)
    requires gone <= SlotTables(mem, mem[t][i], level) && added !! Tables(mem, t, level) - gone
    requires SlotTables(mem', mem[t][i], level) == SlotTables(mem, mem[t][i], level) - gone + added
    ensures TreeOk(mem', t, level) && Tables(mem', t, level) == Tables(mem, t, level) - gone + added
    ensures forall va :: Walk(mem', t, level, va) == if Index(level, va) == i then SlotWalk(mem', mem[t][i], level, va) else Walk(mem, t, level, va)
  {
    assert t in Tables(mem, t, level) - gone;
    OtherSlotsKept(mem, mem', t, level, i);
    TablesExchange(mem, mem', t, level, i, gone, added);
    TreeAfterStore(mem, mem', t, level, i);
  }
}

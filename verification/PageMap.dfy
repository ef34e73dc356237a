/**
 Mapping pages: `pageTable_addPage` over a memory of table frames and a pool of free ones.
 */
module PageMap {
  import opened PageTable

  /** The flags leave an entry's frame and kind alone. */
  predicate PlainFlags(flags: bv64) { FrameBits(flags) == 0 && !BigPage(flags) }

  predicate Aligned(a: bv64) { FrameBits(a) == a }

  function TableEntry(c: bv64, flags: bv64): Entry { c | 0x001 | 0x002 | flags }

  /** `entry |= flags` */
  function WithFlags(e: Entry, flags: bv64): Entry { e | flags }

  /** The final entry: the page size bit is set on the two larger sizes. */
  function LeafEntry(phys: bv64, level: nat, flags: bv64): Entry {
    if level > 1 then FrameBits(phys) | 0x001 | 0x002 | 0x080 | flags else FrameBits(phys) | 0x001 | 0x002 | flags
  }

  lemma TableEntryBits(c: bv64, flags: bv64)
    requires Aligned(c) && PlainFlags(flags)
    ensures Present(TableEntry(c, flags)) && !BigPage(TableEntry(c, flags)) && FrameBits(TableEntry(c, flags)) == c
    ensures OutsideFrame(TableEntry(c, flags)) == flags | 0x003
  {
  }

  lemma FlaggedEntryBits(e: Entry, flags: bv64)
    requires PlainFlags(flags)
    ensures BigPage(WithFlags(e, flags)) == BigPage(e) && FrameBits(WithFlags(e, flags)) == FrameBits(e) && (Present(e) ==> Present(WithFlags(e, flags)))
  {
  }

  lemma LeafEntryBits(phys: bv64, level: nat, flags: bv64)
    requires PlainFlags(flags)
    ensures var e := LeafEntry(phys, level, flags);
      && Present(e) && Writable(e) && FrameBits(e) == FrameBits(phys) && BigPage(e) == (level > 1)
      && CopyOnWrite(e) == CopyOnWrite(flags)
  {
  }

  /** The bits of an entry besides its frame. */
  function OutsideFrame(e: Entry): bv64 { e & 0xFFF0_0000_0000_0FFF }

  /** Does the entry have all these bits? */
  predicate Carries(e: Entry, bits: bv64) { e & bits == bits }

  /** Outside the frame the final entry has the caller's flags, present, writable, for the larger pages the size bit, and nothing else. */
  lemma LeafEntryFlags(phys: bv64, level: nat, flags: bv64)
    requires PlainFlags(flags)
    ensures OutsideFrame(LeafEntry(phys, level, flags)) == flags | (if level > 1 then 0x083 else 0x003)
  {
    if level > 1 {
      BigLeafBits(phys, flags);
    } else {
      SmallLeafBits(phys, flags);
    }
  }

  lemma BigLeafBits(phys: bv64, flags: bv64)
    requires flags & 0x000F_FFFF_FFFF_F000 == 0
    ensures ((phys & 0x000F_FFFF_FFFF_F000) | 0x001 | 0x002 | 0x080 | flags) & 0xFFF0_0000_0000_0FFF == flags | 0x083
  {
  }

  lemma SmallLeafBits(phys: bv64, flags: bv64)
    requires flags & 0x000F_FFFF_FFFF_F000 == 0
    ensures ((phys & 0x000F_FFFF_FFFF_F000) | 0x001 | 0x002 | flags) & 0xFFF0_0000_0000_0FFF == flags | 0x003
  {
  }

  lemma LeafCarriesFlags(phys: bv64, level: nat, flags: bv64)
    requires PlainFlags(flags)
    ensures Carries(LeafEntry(phys, level, flags), flags)
  {
  }

  /** A table entry gets the flags: a new one over present and writable, an old one over what it has. */
  predicate Flagged(e: Entry, e': Entry, flags: bv64) {
    if Present(e) then e' == e | flags else OutsideFrame(e') == flags | 0x003
  }

  /** An entry stayed as it was or gained the flags. */
  predicate Gained(e: Entry, e': Entry, flags: bv64) { e' == e || e' == e | flags }

  lemma GainedTwice(a: Entry, b: Entry, c: Entry, flags: bv64)
    requires Gained(a, b, flags) && Gained(b, c, flags)
    ensures Gained(a, c, flags) && (Present(a) ==> Present(b))
  {
  }

  lemma FlaggedCarries(e: Entry, e': Entry, flags: bv64)
    requires Flagged(e, e', flags) && PlainFlags(flags)
    ensures Carries(e', flags) && Present(e')
  {
  }

  lemma GainedCarries(e: Entry, e': Entry, flags: bv64)
    requires Gained(e, e', flags) && Carries(e, flags) && Present(e)
    ensures Carries(e', flags) && Present(e')
  {
  }

  /** An intermediate entry leads to its table exactly when the flags spare the page-size and address bits. */
  lemma FlagsSparingTables(c: bv64, flags: bv64, level: nat)
    requires Aligned(c) && 2 <= level <= 4
    ensures IsTable(TableEntry(c, flags), level) && FrameBits(TableEntry(c, flags)) == c
        <==> (level == 4 || !BigPage(flags)) && c | FrameBits(flags) == c
  {
    TableWord(c, flags);
  }

  lemma TableWord(c: bv64, flags: bv64)
    requires Aligned(c)
    ensures var e := TableEntry(c, flags);
      && Present(e) && BigPage(e) == BigPage(flags) && FrameBits(e) == c | FrameBits(flags)
  {
  }

  // ---------------------------------------------------------------- paths

  /** A path extends through a slot that is a table. */
  lemma {:induction false} PathExtends(mem: Memory, t: nat, level: nat, va: nat, target: nat)
    requires OnPath(mem, t, level, va, target) && target > 1 && IsTable(PathSlot(mem, t, level, va, target), target)
    requires var c := FrameOf(PathSlot(mem, t, level, va, target)); c in mem && |mem[c]| == ENTRIES
    ensures OnPath(mem, t, level, va, target - 1)
    ensures PathTable(mem, t, level, va, target - 1) == FrameOf(PathSlot(mem, t, level, va, target))
    decreases level
  {
    if level > target {
      PathExtends(mem, FrameOf(mem[t][Index(level, va)]), level - 1, va, target);
    }
  }

  /** Translation starts over at the slot reached. */
  lemma {:induction false} WalkFromPath(mem: Memory, t: nat, level: nat, va: nat, target: nat)
    requires OnPath(mem, t, level, va, target)
    ensures Walk(mem, t, level, va) == SlotWalk(mem, PathSlot(mem, t, level, va, target), target, va)
    decreases level
  {
    if level > target {
      WalkFromPath(mem, FrameOf(mem[t][Index(level, va)]), level - 1, va, target);
    }
  }

  lemma RootNotBelow(mem: Memory, t: nat, level: nat, i: nat)
    requires TreeOk(mem, t, level) && i < ENTRIES && IsTable(mem[t][i], level)
    ensures t !in Tables(mem, FrameOf(mem[t][i]), level - 1)
  {
  }

  /** A store in the path's last table does not bend the path. */
  lemma {:induction false} PathAfterStore(mem: Memory, t: nat, level: nat, va: nat, target: nat, e: Entry)
    requires TreeOk(mem, t, level) && OnPath(mem, t, level, va, target)
    ensures var a := PathTable(mem, t, level, va, target);
      && a in mem && |mem[a]| == ENTRIES
      && var mem' := Store(mem, a, Index(target, va), e);
      && OnPath(mem', t, level, va, target)
      && PathTable(mem', t, level, va, target) == a && PathSlot(mem', t, level, va, target) == e
    decreases level
  {
    hide Tables;
    PathFacts(mem, t, level, va, target);
    if level > target {
      var child := FrameOf(mem[t][Index(level, va)]);
      PathFacts(mem, child, level - 1, va, target);
      RootNotBelow(mem, t, level, Index(level, va));
      PathAfterStore(mem, child, level - 1, va, target, e);
      StoreKeepsOthers(mem, PathTable(mem, t, level, va, target), Index(target, va), e);
    }
  }

  /** A zeroed frame is an empty table. */
  lemma EmptyTable(mem: Memory, c: nat, level: nat)
    requires c in mem && mem[c] == ZeroFrame() && 1 <= level <= 4
    ensures TreeOk(mem, c, level) && Tables(mem, c, level) == {c}
    ensures forall va :: Walk(mem, c, level, va) == Unmapped
  {
  }

  function ZeroFrame(): (f: Frame)
    ensures |f| == ENTRIES == 512 && forall i :: 0 <= i < ENTRIES ==> f[i] == 0
  {
    seq(ENTRIES, _ => 0)
  }

  /** A path only depends on the tables of the tree. */
  lemma {:induction false} PathDependsOnTables(mem: Memory, mem': Memory, t: nat, level: nat, va: nat, target: nat)
    requires TreeOk(mem, t, level) && OnPath(mem, t, level, va, target)
    requires forall a :: a in Tables(mem, t, level) ==> a in mem ==> a in mem' && mem'[a] == mem[a]
    ensures OnPath(mem', t, level, va, target)
    ensures PathTable(mem', t, level, va, target) == PathTable(mem, t, level, va, target)
    ensures PathSlot(mem', t, level, va, target) == PathSlot(mem, t, level, va, target)
    decreases level
  {
    if level > target {
      ChildTree(mem, t, level, Index(level, va));
      PathDependsOnTables(mem, mem', FrameOf(mem[t][Index(level, va)]), level - 1, va, target);
    }
  }

  /** Addresses with the same slots take the same path. */
  lemma {:induction false} SameSlotsSamePath(mem: Memory, t: nat, level: nat, va: nat, va': nat, target: nat)
    requires OnPath(mem, t, level, va, target) && SameSlots(level, target, va, va')
    ensures OnPath(mem, t, level, va', target)
    ensures PathSlot(mem, t, level, va', target) == PathSlot(mem, t, level, va, target)
    decreases level
  {
    if level > target {
      SameSlotsSamePath(mem, FrameOf(mem[t][Index(level, va)]), level - 1, va, va', target);
    }
  }

  ghost predicate SameTranslation(mem: Memory, mem': Memory, root: nat, top: nat) {
    forall va :: Walk(mem', root, top, va) == Walk(mem, root, top, va)
  }

  /** Storing a word that means what the old one meant changes no translation. */
  lemma EquivalentStore(mem: Memory, root: nat, top: nat, va: nat, level: nat, e: Entry)
    requires TreeOk(mem, root, top) && OnPath(mem, root, top, va, level) && SlotOk(mem, e, level)
    requires var slot := PathSlot(mem, root, top, va, level);
      && SlotTables(mem, e, level) !! Tables(mem, root, top) - SlotTables(mem, slot, level)
      && forall va' :: SlotWalk(mem, e, level, va') == SlotWalk(mem, slot, level, va')
    ensures var a := PathTable(mem, root, top, va, level);
      && a in mem && |mem[a]| == ENTRIES
      && var mem' := Store(mem, a, Index(level, va), e);
      && TreeOk(mem', root, top) && SameTranslation(mem, mem', root, top)
      && Tables(mem', root, top) == Tables(mem, root, top) - SlotTables(mem, PathSlot(mem, root, top, va, level), level) + SlotTables(mem, e, level)
  {
    StoreOnPath(mem, root, top, va, level, e);
    forall va' | SameSlots(top, level, va, va')
      ensures Walk(mem, root, top, va') == SlotWalk(mem, e, level, va')
    {
      SameSlotsSamePath(mem, root, top, va, va', level);
      WalkFromPath(mem, root, top, va', level);
    }
  }

  // ---------------------------------------------------------------- the pool of free frames

  /** Distinct, aligned, non-null frames. */
  ghost predicate PoolOk(mem: Memory, pool: seq<bv64>) {
    && (forall k :: 0 <= k < |pool| ==> Aligned(pool[k]) && pool[k] != 0 && Addr(pool[k]) in mem && |mem[Addr(pool[k])]| == ENTRIES)
    && forall k, l :: 0 <= k < l < |pool| ==> Addr(pool[k]) != Addr(pool[l])
  }

  /** A well-formed table tree that uses no free frame. */
  ghost predicate Ready(mem: Memory, pool: seq<bv64>, root: nat, top: nat) {
    && PoolOk(mem, pool) && TreeOk(mem, root, top)
    && forall k :: 0 <= k < |pool| ==> Addr(pool[k]) !in Tables(mem, root, top)
  }

  /** Was a one of the frames taken from the pool? */
  ghost predicate Popped(pool: seq<bv64>, pool': seq<bv64>, a: nat) {
    exists k :: |pool'| <= k < |pool| && Addr(pool[k]) == a
  }

  /** Only the tree's own tables and frames just taken were written, and the tree grew only by the latter. */
  ghost predicate OnlyOwn(mem: Memory, pool: seq<bv64>, root: nat, top: nat, mem': Memory, pool': seq<bv64>) {
    && pool' <= pool && mem'.Keys == mem.Keys
    && (forall a :: a in Tables(mem', root, top) ==> a in Tables(mem, root, top) || Popped(pool, pool', a))
    && (forall a :: a in mem && a !in Tables(mem, root, top) && !Popped(pool, pool', a) ==> mem'[a] == mem[a])
  }

  /** Hanging a fresh zeroed table into an empty slot. */
  lemma TableAdded(mem: Memory, pool: seq<bv64>, root: nat, top: nat, va: nat, level: nat, c: bv64, e: Entry)
    requires Ready(mem, pool, root, top) && OnPath(mem, root, top, va, level) && level > 1
    requires !Present(PathSlot(mem, root, top, va, level)) && |pool| > 0 && c == pool[|pool| - 1]
    requires IsTable(e, level) && FrameOf(e) == Addr(c)
    ensures var a := PathTable(mem, root, top, va, level); var mem1 := mem[Addr(c) := ZeroFrame()];
      var mem' := Store(mem1, a, Index(level, va), e); var pool' := pool[..|pool| - 1];
      && mem' == Store(mem, a, Index(level, va), e)[Addr(c) := ZeroFrame()]
      && Ready(mem', pool', root, top) && OnlyOwn(mem, pool, root, top, mem', pool')
      && Descended(mem, mem', root, top, va, level, Addr(c))
  {
    hide Tables, TreeOk, OnlyOwn, Ready, SameTranslation, PoolOk, Addr, OnPath, PathTable, PathSlot;
    var mem1, pool' := mem[Addr(c) := ZeroFrame()], pool[..|pool| - 1];
    var a := PathTable(mem, root, top, va, level);
    PopLast(mem, pool, root, top);
    PathFacts(mem, root, top, va, level);
    SubtreeDependsOnTables(mem, mem1, root, top);
    PathDependsOnTables(mem, mem1, root, top, va, level);
    var mem' := Store(mem1, a, Index(level, va), e);
    StoreKeepsOthers(mem1, a, Index(level, va), e);
    TableLinked(mem1, root, top, va, level, e);
    GrownByOne(mem, pool, root, top, mem1, mem', a);
    PathAfterStore(mem1, root, top, va, level, e);
    PathExtends(mem', root, top, va, level);
    Transitive(mem, mem1, mem', root, top);
    OneStepDown(mem, mem', root, top, va, level, Addr(c));
    StoresCommute(mem, a, Index(level, va), e, Addr(c));
  }

  lemma StoresCommute(mem: Memory, a: nat, i: nat, e: Entry, c: nat)
    requires a in mem && i < |mem[a]| && a != c
    ensures Store(mem[c := ZeroFrame()], a, i, e) == Store(mem, a, i, e)[c := ZeroFrame()]
  {
  }

  lemma PopLast(mem: Memory, pool: seq<bv64>, root: nat, top: nat)
    requires Ready(mem, pool, root, top) && |pool| > 0
    ensures var c := pool[|pool| - 1];
      && Aligned(c) && c != 0 && Addr(c) in mem && |mem[Addr(c)]| == ENTRIES && Addr(c) !in Tables(mem, root, top) && TreeOk(mem, root, top)
      && Ready(mem, pool[..|pool| - 1], root, top)
  {
  }

  lemma Transitive(mem: Memory, mem1: Memory, mem2: Memory, root: nat, top: nat)
    requires forall va :: Walk(mem1, root, top, va) == Walk(mem, root, top, va)
    requires SameTranslation(mem1, mem2, root, top)
    ensures SameTranslation(mem, mem2, root, top)
  {
  }

  /** Linking an empty table that is not yet part of the tree. */
  lemma TableLinked(mem: Memory, root: nat, top: nat, va: nat, level: nat, e: Entry)
    requires TreeOk(mem, root, top) && OnPath(mem, root, top, va, level) && 1 < level <= top <= 4
    requires !Present(PathSlot(mem, root, top, va, level)) && IsTable(e, level)
    requires FrameOf(e) in mem && mem[FrameOf(e)] == ZeroFrame() && FrameOf(e) !in Tables(mem, root, top)
    ensures var a := PathTable(mem, root, top, va, level);
      && a in mem && |mem[a]| == ENTRIES && a in Tables(mem, root, top)
      && var mem' := Store(mem, a, Index(level, va), e);
      && TreeOk(mem', root, top) && SameTranslation(mem, mem', root, top)
      && Tables(mem', root, top) == Tables(mem, root, top) + {FrameOf(e)}
  {
    hide Addr, FrameBits, OnPath, TreeOk, PathTable, PathSlot;
    PathFacts(mem, root, top, va, level);
    EmptyTable(mem, FrameOf(e), level - 1);
    EquivalentStore(mem, root, top, va, level, e);
  }

  /** The tree took in the last frame of the pool, and only table a and that frame were written. */
  ghost predicate TookLast(mem: Memory, pool: seq<bv64>, root: nat, top: nat, mem': Memory, a: nat) {
    && Ready(mem, pool, root, top) && |pool| > 0 && a in Tables(mem, root, top) && mem'.Keys == mem.Keys
    && TreeOk(mem', root, top) && Tables(mem', root, top) == Tables(mem, root, top) + {Addr(pool[|pool| - 1])}
    && forall b :: b in mem && b != a && b != Addr(pool[|pool| - 1]) ==> mem'[b] == mem[b]
  }

  lemma GrownByOne(mem: Memory, pool: seq<bv64>, root: nat, top: nat, mem1: Memory, mem': Memory, a: nat)
    requires Ready(mem, pool, root, top) && |pool| > 0 && a in Tables(mem, root, top) && TreeOk(mem', root, top)
    requires mem'.Keys == mem.Keys
    requires var c := pool[|pool| - 1];
      && mem1 == mem[Addr(c) := ZeroFrame()] && Tables(mem', root, top) == Tables(mem, root, top) + {Addr(c)}
      && forall b :: b in mem1 && b != a ==> b in mem' && mem'[b] == mem1[b]
    ensures Ready(mem', pool[..|pool| - 1], root, top) && OnlyOwn(mem, pool, root, top, mem', pool[..|pool| - 1])
  {
    hide TreeOk, Tables, Ready, OnlyOwn, Addr;
    assert TookLast(mem, pool, root, top, mem', a);
    StillReady(mem, pool, root, top, mem', a);
    TookOnlyOwn(mem, pool, root, top, mem', a);
  }

  lemma StillReady(mem: Memory, pool: seq<bv64>, root: nat, top: nat, mem': Memory, a: nat)
    requires TookLast(mem, pool, root, top, mem', a)
    ensures Ready(mem', pool[..|pool| - 1], root, top)
  {
    hide TreeOk, Tables, Aligned, Addr;
    var pool' := pool[..|pool| - 1];
    forall k | 0 <= k < |pool'|
      ensures Addr(pool'[k]) in mem' && mem'[Addr(pool'[k])] == mem[Addr(pool'[k])]
      ensures Addr(pool'[k]) !in Tables(mem', root, top)
    {
      assert pool'[k] == pool[k] && Addr(pool[k]) != Addr(pool[|pool| - 1]) && Addr(pool[k]) != a;
    }
  }

  lemma TookOnlyOwn(mem: Memory, pool: seq<bv64>, root: nat, top: nat, mem': Memory, a: nat)
    requires TookLast(mem, pool, root, top, mem', a)
    ensures OnlyOwn(mem, pool, root, top, mem', pool[..|pool| - 1])
  {
    hide TreeOk, Tables, Ready, Aligned, Addr;
    assert Popped(pool, pool[..|pool| - 1], Addr(pool[|pool| - 1]));
  }

  /** One step down the path: translation is as before and the next table is `child`. */
  ghost predicate Descended(mem: Memory, mem': Memory, root: nat, top: nat, va: nat, level: nat, child: nat) {
    && level > 1 && TreeOk(mem', root, top) && SameTranslation(mem, mem', root, top)
    && OnPath(mem', root, top, va, level - 1) && PathTable(mem', root, top, va, level - 1) == child
  }

  /** Adding flags to a table entry on the path. */
  lemma TableFlagged(mem: Memory, root: nat, top: nat, va: nat, level: nat, flags: bv64)
    requires TreeOk(mem, root, top) && OnPath(mem, root, top, va, level) && 1 < level <= top <= 4 && PlainFlags(flags)
    requires IsTable(PathSlot(mem, root, top, va, level), level)
    ensures var e := PathSlot(mem, root, top, va, level);
      var mem' := Store(mem, PathTable(mem, root, top, va, level), Index(level, va), WithFlags(e, flags));
      && Descended(mem, mem', root, top, va, level, FrameOf(WithFlags(e, flags))) && Tables(mem', root, top) == Tables(mem, root, top)
  {
    hide *;
    var a, e := PathTable(mem, root, top, va, level), PathSlot(mem, root, top, va, level);
    var mem' := Store(mem, a, Index(level, va), WithFlags(e, flags));
    PathFacts(mem, root, top, va, level);
    FlaggedTable(mem, e, level, flags);
    SlotOnPathOk(mem, root, top, va, level);
    EquivalentStore(mem, root, top, va, level, WithFlags(e, flags));
    PutBack(Tables(mem, root, top), SlotTables(mem, e, level));
    PathAfterStore(mem, root, top, va, level, WithFlags(e, flags));
    SubtreeRoot(mem', root, top, va, level);
    PathExtends(mem', root, top, va, level);
    OneStepDown(mem, mem', root, top, va, level, FrameOf(WithFlags(e, flags)));
  }

  lemma OneStepDown(mem: Memory, mem': Memory, root: nat, top: nat, va: nat, level: nat, child: nat)
    requires level > 1 && TreeOk(mem', root, top) && SameTranslation(mem, mem', root, top)
    requires OnPath(mem', root, top, va, level - 1) && PathTable(mem', root, top, va, level - 1) == child
    ensures Descended(mem, mem', root, top, va, level, child)
  {
  }

  lemma PutBack(s: set<nat>, part: set<nat>)
    requires part <= s
    ensures s - part + part == s && part !! s - part
  {
  }

  lemma FlaggedTable(mem: Memory, e: Entry, level: nat, flags: bv64)
    requires 1 < level <= 4 && IsTable(e, level) && PlainFlags(flags)
    ensures IsTable(WithFlags(e, flags), level) && FrameOf(WithFlags(e, flags)) == FrameOf(e)
    ensures SlotTables(mem, WithFlags(e, flags), level) == SlotTables(mem, e, level) && SlotOk(mem, WithFlags(e, flags), level) == SlotOk(mem, e, level)
    ensures forall va :: SlotWalk(mem, WithFlags(e, flags), level, va) == SlotWalk(mem, e, level, va)
  {
    FlaggedEntryBits(e, flags);
  }

  lemma {:induction false} SlotOnPathOk(mem: Memory, t: nat, level: nat, va: nat, target: nat)
    requires TreeOk(mem, t, level) && OnPath(mem, t, level, va, target)
    ensures SlotOk(mem, PathSlot(mem, t, level, va, target), target)
    decreases level
  {
    if level > target {
      ChildTree(mem, t, level, Index(level, va));
      SlotOnPathOk(mem, FrameOf(mem[t][Index(level, va)]), level - 1, va, target);
    }
  }

  lemma SubtreeRoot(mem: Memory, root: nat, top: nat, va: nat, level: nat)
    requires TreeOk(mem, root, top) && OnPath(mem, root, top, va, level) && IsTable(PathSlot(mem, root, top, va, level), level)
    ensures var c := FrameOf(PathSlot(mem, root, top, va, level)); c in mem && |mem[c]| == ENTRIES
  {
    SlotOnPathOk(mem, root, top, va, level);
  }

  /** Rewriting a table of the tree without changing the set of tables. */
  lemma RewrittenReady(mem: Memory, pool: seq<bv64>, root: nat, top: nat, a: nat, i: nat, e: Entry)
    requires Ready(mem, pool, root, top) && a in mem && |mem[a]| == ENTRIES && i < ENTRIES && a in Tables(mem, root, top)
    requires var mem' := Store(mem, a, i, e); TreeOk(mem', root, top) && Tables(mem', root, top) <= Tables(mem, root, top)
    ensures var mem' := Store(mem, a, i, e); Ready(mem', pool, root, top) && OnlyOwn(mem, pool, root, top, mem', pool)
  {
    hide TreeOk, Tables, Aligned, Addr;
    StoreKeepsOthers(mem, a, i, e);
  }

  lemma OnlyOwnTwice(mem0: Memory, pool0: seq<bv64>, root: nat, top: nat, mem1: Memory, pool1: seq<bv64>, mem2: Memory, pool2: seq<bv64>)
    requires OnlyOwn(mem0, pool0, root, top, mem1, pool1) && OnlyOwn(mem1, pool1, root, top, mem2, pool2)
    ensures OnlyOwn(mem0, pool0, root, top, mem2, pool2)
  {
    hide Tables, Addr;
    forall a
      ensures Popped(pool0, pool1, a) || Popped(pool1, pool2, a) ==> Popped(pool0, pool2, a)
    {
      if Popped(pool1, pool2, a) {
        var k :| |pool2| <= k < |pool1| && Addr(pool1[k]) == a;
        assert pool0[k] == pool1[k];
      }
    }
  }

  /** Is this the translation of one page, with everything else as before? */
  ghost predicate MapsPage(mem: Memory, mem': Memory, root: nat, top: nat, va: nat, target: nat, e: Entry) {
    forall va' :: Walk(mem', root, top, va')
        == if SameSlots(top, target, va, va') then Leaf(e, EntrySize(target)) else Walk(mem, root, top, va')
  }

  /** The final store of a leaf. */
  lemma LeafStored(mem: Memory, pool: seq<bv64>, root: nat, top: nat, va: nat, target: nat, e: Entry)
    requires Ready(mem, pool, root, top) && OnPath(mem, root, top, va, target) && Present(e) && !IsTable(e, target)
    ensures var mem' := Store(mem, PathTable(mem, root, top, va, target), Index(target, va), e);
      && Ready(mem', pool, root, top) && OnlyOwn(mem, pool, root, top, mem', pool) && MapsPage(mem, mem', root, top, va, target, e)
  {
    hide Addr, OnPath, PathTable, PathSlot, EntrySize, OnlyOwn, PoolOk;
    PathFacts(mem, root, top, va, target);
    StoreOnPath(mem, root, top, va, target, e);
    RewrittenReady(mem, pool, root, top, PathTable(mem, root, top, va, target), Index(target, va), e);
  }

  lemma NewTableEntry(c: bv64, level: nat, flags: bv64)
    requires Aligned(c) && PlainFlags(flags) && level > 1
    ensures IsTable(TableEntry(c, flags), level) && FrameOf(TableEntry(c, flags)) == Addr(c)
  {
    TableEntryBits(c, flags);
  }

  lemma ReadyTree(mem: Memory, pool: seq<bv64>, root: nat, top: nat)
    requires Ready(mem, pool, root, top)
    ensures TreeOk(mem, root, top)
  {
  }

  lemma DescendedTree(mem: Memory, mem': Memory, root: nat, top: nat, va: nat, level: nat, child: nat)
    requires Descended(mem, mem', root, top, va, level, child)
    ensures TreeOk(mem', root, top) && SameTranslation(mem, mem', root, top)
    ensures OnPath(mem', root, top, va, level - 1) && PathTable(mem', root, top, va, level - 1) == child
  {
  }

  /** The allocating branch of one step down. */
  lemma AddStep(mem: Memory, pool: seq<bv64>, root: nat, top: nat, t: nat, va: nat, level: nat, flags: bv64, c: bv64)
    requires Ready(mem, pool, root, top) && OnPath(mem, root, top, va, level) && t == PathTable(mem, root, top, va, level)
    requires 1 < level <= top <= 4 && PlainFlags(flags) && !Present(PathSlot(mem, root, top, va, level))
    requires |pool| > 0 && c == pool[|pool| - 1]
    ensures var mem' := Store(mem, t, Index(level, va), TableEntry(c, flags))[Addr(c) := ZeroFrame()];
      && Ready(mem', pool[..|pool| - 1], root, top) && OnlyOwn(mem, pool, root, top, mem', pool[..|pool| - 1])
      && Descended(mem, mem', root, top, va, level, Addr(c)) && PathsGrow(mem, mem', root, top, va, level)
      && EntriesGain(mem, mem', root, top, flags) && SlotFlagged(mem, mem', root, top, va, level, flags)
  {
    hide *;
    PopLast(mem, pool, root, top);
    NewTableEntry(c, level, flags);
    PathFacts(mem, root, top, va, level);
    PresentHasTable(mem, root, top, va, level);
    var mem' := Store(mem, t, Index(level, va), TableEntry(c, flags))[Addr(c) := ZeroFrame()];
    AddPaths(mem, mem', root, top, va, level, Addr(c), TableEntry(c, flags));
    AddEntries(mem, mem', root, top, va, level, Addr(c), TableEntry(c, flags), flags);
    NewEntryFlagged(mem, mem', root, top, va, level, c, flags);
    TableAdded(mem, pool, root, top, va, level, c, TableEntry(c, flags));
  }

  /** The branch of one step down that finds a table. */
  lemma FlagStep(mem: Memory, pool: seq<bv64>, root: nat, top: nat, t: nat, va: nat, level: nat, flags: bv64, slot: Entry)
    requires Ready(mem, pool, root, top) && OnPath(mem, root, top, va, level) && t == PathTable(mem, root, top, va, level)
    requires 1 < level <= top <= 4 && PlainFlags(flags) && slot == PathSlot(mem, root, top, va, level) && IsTable(slot, level)
    ensures var mem' := Store(mem, t, Index(level, va), WithFlags(slot, flags));
      && Ready(mem', pool, root, top) && OnlyOwn(mem, pool, root, top, mem', pool)
      && Descended(mem, mem', root, top, va, level, FrameOf(WithFlags(slot, flags))) && PathsGrow(mem, mem', root, top, va, level)
      && EntriesGain(mem, mem', root, top, flags) && SlotFlagged(mem, mem', root, top, va, level, flags)
  {
    hide *;
    FlaggedTable(mem, slot, level, flags);
    ReadyTree(mem, pool, root, top);
    PathFacts(mem, root, top, va, level);
    PresentHasTable(mem, root, top, va, level);
    TableFlagged(mem, root, top, va, level, flags);
    DescendedTree(mem, Store(mem, t, Index(level, va), WithFlags(slot, flags)), root, top, va, level, FrameOf(WithFlags(slot, flags)));
    RewrittenReady(mem, pool, root, top, t, Index(level, va), WithFlags(slot, flags));
    var mem' := Store(mem, t, Index(level, va), WithFlags(slot, flags));
    FlagPaths(mem, mem', root, top, va, level, WithFlags(slot, flags));
    FlagsGained(slot, flags);
    FlagEntries(mem, mem', root, top, va, level, WithFlags(slot, flags), flags);
    OldEntryFlagged(mem, mem', root, top, va, level, slot, flags);
  }

  /** The entry on the way to va, before and after one step down; it was present if there was a table below. */
  ghost predicate SlotFlagged(mem: Memory, mem': Memory, root: nat, top: nat, va: nat, level: nat, flags: bv64) {
    && OnPath(mem', root, top, va, level) && Flagged(PathSlot(mem, root, top, va, level), PathSlot(mem', root, top, va, level), flags)
    && level > 0 && TableIfPresent(mem, root, top, va, level)
  }

  /** The addresses going through the entry have a table below it exactly when it is present. */
  ghost predicate TableIfPresent(mem: Memory, root: nat, top: nat, va: nat, level: nat) {
    forall va' :: SameSlots(top, level, va, va') && level > 0 ==>
      (Present(PathSlot(mem, root, top, va, level)) <==> OnPath(mem, root, top, va', level - 1))
  }

  lemma PresentHasTable(mem: Memory, root: nat, top: nat, va: nat, level: nat)
    requires TreeOk(mem, root, top) && OnPath(mem, root, top, va, level) && level > 1
    requires var slot := PathSlot(mem, root, top, va, level); Present(slot) ==> IsTable(slot, level)
    ensures TableIfPresent(mem, root, top, va, level)
  {
    hide OnPath, PathSlot, Present, SameSlots, TreeOk, IsTable;
    forall va' | SameSlots(top, level, va, va')
      ensures Present(PathSlot(mem, root, top, va, level)) <==> OnPath(mem, root, top, va', level - 1)
    {
      SameSlotsSamePath(mem, root, top, va, va', level);
      PresentIsPath(mem, root, top, va', level);
    }
  }

  lemma NewEntryFlagged(mem: Memory, mem': Memory, root: nat, top: nat, va: nat, level: nat, c: bv64, flags: bv64)
    requires !Present(PathSlot(mem, root, top, va, level)) && Aligned(c) && PlainFlags(flags) && level > 0 && TableIfPresent(mem, root, top, va, level)
    requires OnPath(mem', root, top, va, level) && PathSlot(mem', root, top, va, level) == TableEntry(c, flags)
    ensures SlotFlagged(mem, mem', root, top, va, level, flags)
  {
    hide OnPath, PathSlot, Aligned, TableEntry, PlainFlags, TableIfPresent;
    TableEntryBits(c, flags);
  }

  lemma FlagsGained(e: Entry, flags: bv64)
    ensures Gained(e, WithFlags(e, flags), flags)
  {
  }

  lemma OldEntryFlagged(mem: Memory, mem': Memory, root: nat, top: nat, va: nat, level: nat, slot: Entry, flags: bv64)
    requires IsTable(slot, level) && slot == PathSlot(mem, root, top, va, level) && TableIfPresent(mem, root, top, va, level)
    requires OnPath(mem', root, top, va, level) && PathSlot(mem', root, top, va, level) == WithFlags(slot, flags)
    ensures SlotFlagged(mem, mem', root, top, va, level, flags)
  {
    hide OnPath, PathSlot;
  }

  /** Everything about a partially done walk: the tree is ready, means what it meant, and only its own frames changed. */
  ghost predicate Intact(mem: Memory, pool: seq<bv64>, root: nat, top: nat, mem': Memory, pool': seq<bv64>) {
    Ready(mem', pool', root, top) && SameTranslation(mem, mem', root, top) && OnlyOwn(mem, pool, root, top, mem', pool')
  }

  /** Nothing larger than the requested page is mapped at va. */
  predicate NoLargerLeaf(mem: Memory, root: nat, top: nat, va: nat, target: nat) {
    var l := Walk(mem, root, top, va);
    l.Leaf? ==> l.size <= EntrySize(target)
  }

  lemma IntactStart(mem: Memory, pool: seq<bv64>, root: nat, top: nat, va: nat)
    requires Ready(mem, pool, root, top)
    ensures Intact(mem, pool, root, top, mem, pool) && OnPath(mem, root, top, va, top) && PathTable(mem, root, top, va, top) == root
  {
  }

  lemma IntactStep(mem0: Memory, pool0: seq<bv64>, root: nat, top: nat, va: nat, level: nat,
                   mem1: Memory, pool1: seq<bv64>, mem2: Memory, pool2: seq<bv64>, child: nat)
    requires Intact(mem0, pool0, root, top, mem1, pool1) && OnlyOwn(mem1, pool1, root, top, mem2, pool2)
    requires Ready(mem2, pool2, root, top) && Descended(mem1, mem2, root, top, va, level, child)
    ensures Intact(mem0, pool0, root, top, mem2, pool2)
    ensures OnPath(mem2, root, top, va, level - 1) && PathTable(mem2, root, top, va, level - 1) == child
  {
    hide Walk, OnPath, PathTable, Ready, OnlyOwn, TreeOk;
    OnlyOwnTwice(mem0, pool0, root, top, mem1, pool1, mem2, pool2);
  }

  /** On the way down to `target`, a present slot is a table. */
  lemma SlotIsTable(mem: Memory, pool: seq<bv64>, root: nat, top: nat, mem': Memory, pool': seq<bv64>, va: nat, level: nat, target: nat)
    requires Intact(mem, pool, root, top, mem', pool') && NoLargerLeaf(mem, root, top, va, target) && 0 < target < level <= 4
    requires OnPath(mem', root, top, va, level)
    ensures var slot := PathSlot(mem', root, top, va, level); Present(slot) ==> IsTable(slot, level)
  {
    hide Ready, OnlyOwn, OnPath, PathSlot, Walk, Index, FrameBits, Present, BigPage;
    WalkFromPath(mem', root, top, va, level);
    var slot := PathSlot(mem', root, top, va, level);
    if Present(slot) && !IsTable(slot, level) {
      assert Walk(mem, root, top, va) == Leaf(slot, EntrySize(level));
      LargerAbove(target, level);
    }
  }

  lemma LargerAbove(target: nat, level: nat)
    requires target < level <= 4
    ensures target == 0 || EntrySize(target) < EntrySize(level)
  {
  }

  lemma MappedAfterWalk(mem0: Memory, pool0: seq<bv64>, root: nat, top: nat, va: nat, target: nat,
                        mem1: Memory, pool1: seq<bv64>, phys: bv64, flags: bv64)
    requires Intact(mem0, pool0, root, top, mem1, pool1) && OnPath(mem1, root, top, va, target) && 1 <= target <= 3 && PlainFlags(flags)
    ensures var e := LeafEntry(phys, target, flags); var mem2 := Store(mem1, PathTable(mem1, root, top, va, target), Index(target, va), e);
      && Ready(mem2, pool1, root, top) && OnlyOwn(mem0, pool0, root, top, mem2, pool1) && MapsPage(mem0, mem2, root, top, va, target, e)
  {
    hide Walk, OnPath, PathTable, Ready, OnlyOwn, TreeOk, FrameBits;
    LeafEntryBits(phys, target, flags);
    var e := LeafEntry(phys, target, flags);
    LeafStored(mem1, pool1, root, top, va, target, e);
    var mem2 := Store(mem1, PathTable(mem1, root, top, va, target), Index(target, va), e);
    OnlyOwnTwice(mem0, pool0, root, top, mem1, pool1, mem2, pool1);
  }

  lemma StuckUnmapped(mem: Memory, root: nat, top: nat, va: nat, level: nat)
    requires OnPath(mem, root, top, va, level) && !Present(PathSlot(mem, root, top, va, level))
    ensures Walk(mem, root, top, va) == Unmapped
  {
    WalkFromPath(mem, root, top, va, level);
  }

  // ---------------------------------------------------------------- which tables are there

  /** Is there a table of level k for va behind entry e of a level's table? */
  predicate SlotPath(mem: Memory, e: Entry, level: nat, va: nat, k: nat) {
    k < level && IsTable(e, level) && OnPath(mem, FrameOf(e), level - 1, va, k)
  }

  /** Whether a table is there depends on the tree's own tables only. */
  lemma PathsDependOnTables(mem: Memory, mem': Memory, t: nat, level: nat, va: nat, k: nat)
    requires TreeOk(mem, t, level)
    requires forall a :: a in Tables(mem, t, level) && a in mem ==> a in mem' && mem'[a] == mem[a]
    ensures OnPath(mem', t, level, va, k) <==> OnPath(mem, t, level, va, k)
  {
    hide Walk, TreeOk, Tables;
    SubtreeDependsOnTables(mem, mem', t, level);
    if OnPath(mem, t, level, va, k) {
      PathDependsOnTables(mem, mem', t, level, va, k);
    }
    if OnPath(mem', t, level, va, k) {
      TablesThere(mem, t, level);
      PathDependsOnTables(mem', mem, t, level, va, k);
    }
  }

  lemma {:induction false} TablesThere(mem: Memory, t: nat, level: nat)
    requires TreeOk(mem, t, level)
    ensures forall a :: a in Tables(mem, t, level) ==> a in mem
    decreases level
  {
    forall i | 0 <= i < ENTRIES
      ensures forall a :: a in SlotTables(mem, mem[t][i], level) ==> a in mem
    {
      if IsTable(mem[t][i], level) {
        TablesThere(mem, FrameOf(mem[t][i]), level - 1);
      }
    }
  }

  /** Storing entry e where va is translated: below, its own subtree counts for the addresses that go through it, and nothing else changes. */
  lemma {:induction false} StorePaths(mem: Memory, mem': Memory, t: nat, level: nat, va: nat, target: nat, e: Entry, va': nat, k: nat)
    requires TreeOk(mem, t, level) && OnPath(mem, t, level, va, target) && 0 < k
    requires var a := PathTable(mem, t, level, va, target);
      && a in mem && a in mem' && |mem[a]| == |mem'[a]| == ENTRIES && mem'[a] == mem[a][Index(target, va) := e]
      && forall b :: b in Tables(mem, t, level) && b != a && b in mem ==> b in mem' && mem'[b] == mem[b]
    ensures OnPath(mem', t, level, va', k)
        <==> if SameSlots(level, target, va, va') && k < target then SlotPath(mem', e, target, va', k) else OnPath(mem, t, level, va', k)
    decreases level
  {
    hide Tables, FrameBits, Addr, SlotTables, Walk;
    PathFacts(mem, t, level, va, target);
    if level > target {
      var child := FrameOf(mem[t][Index(level, va)]);
      ChildTree(mem, t, level, Index(level, va));
      PathFacts(mem, child, level - 1, va, target);
      RootNotBelow(mem, t, level, Index(level, va));
      RootThere(mem, t, level);
      if Index(level, va') == Index(level, va) {
        StorePaths(mem, mem', child, level - 1, va, target, e, va', k);
      } else {
        TableOf(mem, mem[t][Index(level, va)], level);
        OtherSlotPaths(mem, mem', t, level, PathTable(mem, t, level, va, target), Index(level, va), va', k);
      }
    } else if Index(level, va') != Index(level, va) {
      OtherSlotPaths(mem, mem', t, level, t, Index(level, va), va', k);
    }
  }

  lemma RootThere(mem: Memory, t: nat, level: nat)
    requires TreeOk(mem, t, level)
    ensures t in Tables(mem, t, level)
  {
  }

  /** Another slot of the same table is not concerned. */
  lemma OtherSlotPaths(mem: Memory, mem': Memory, t: nat, level: nat, a: nat, i: nat, va': nat, k: nat)
    requires TreeOk(mem, t, level) && i < ENTRIES && (a == t || a in SlotTables(mem, mem[t][i], level)) && Index(level, va') != i
    requires t in mem' && |mem'[t]| == ENTRIES && mem'[t][Index(level, va')] == mem[t][Index(level, va')]
    requires forall b :: b in Tables(mem, t, level) && b != a && b in mem ==> b in mem' && mem'[b] == mem[b]
    ensures OnPath(mem', t, level, va', k) <==> OnPath(mem, t, level, va', k)
  {
    hide Walk, FrameBits, Addr;
    var j := Index(level, va');
    if IsTable(mem[t][j], level) {
      ChildTree(mem, t, level, j);
      RootNotBelow(mem, t, level, j);
      TableOf(mem, mem[t][j], level);
      assert SlotTables(mem, mem[t][i], level) !! SlotTables(mem, mem[t][j], level);
      PathsDependOnTables(mem, mem', FrameOf(mem[t][j]), level - 1, va', k);
    }
  }

  lemma TableOf(mem: Memory, e: Entry, level: nat)
    requires IsTable(e, level)
    ensures SlotTables(mem, e, level) == Tables(mem, FrameOf(e), level - 1)
  {
  }

  lemma PathBelow(mem: Memory, t: nat, level: nat, va: nat, k: nat)
    requires OnPath(mem, t, level, va, k)
    ensures 0 < k <= level && t in mem && |mem[t]| == ENTRIES
    ensures k == level ==> PathTable(mem, t, level, va, k) == t
    ensures k < level ==> var e := mem[t][Index(level, va)];
      && IsTable(e, level) && OnPath(mem, FrameOf(e), level - 1, va, k)
      && PathTable(mem, t, level, va, k) == PathTable(mem, FrameOf(e), level - 1, va, k)
  {
  }

  lemma SlotBelow(mem: Memory, t: nat, level: nat, va: nat, k: nat)
    requires t in mem && |mem[t]| == ENTRIES && k <= level
    ensures var e := mem[t][Index(level, va)];
      PathSlot(mem, t, level, va, k) == if k == level then e else PathSlot(mem, FrameOf(e), level - 1, va, k)
  {
  }

  lemma SameBelow(level: nat, target: nat, va: nat, va': nat)
    requires 0 < target <= level
    ensures SameSlots(level, target, va, va') <==> Index(level, va) == Index(level, va') && (level == target || SameSlots(level - 1, target, va, va'))
  {
  }

  /** The entries passed after a store: the stored one where the path goes through it, its subtree's below, and else the old ones. */
  lemma {:induction false} StoreSlots(mem: Memory, mem': Memory, t: nat, level: nat, va: nat, target: nat, e: Entry, va': nat, k: nat)
    requires TreeOk(mem, t, level) && OnPath(mem, t, level, va, target) && OnPath(mem, t, level, va', k)
    requires var a := PathTable(mem, t, level, va, target);
      && a in mem && a in mem' && |mem[a]| == |mem'[a]| == ENTRIES && mem'[a] == mem[a][Index(target, va) := e]
      && forall b :: b in Tables(mem, t, level) && b != a && b in mem ==> b in mem' && mem'[b] == mem[b]
    ensures PathSlot(mem', t, level, va', k)
         == if SameSlots(level, target, va, va') && k <= target
            then if k == target then e else PathSlot(mem', FrameOf(e), target - 1, va', k)
            else PathSlot(mem, t, level, va', k)
    decreases level
  {
    hide Tables, FrameOf, SlotTables, Walk, TreeOk, Index, OnPath, PathSlot, PathTable, SameSlots, IsTable;
    PathFacts(mem, t, level, va, target);
    PathBelow(mem, t, level, va, target);
    PathBelow(mem, t, level, va', k);
    RootThere(mem, t, level);
    SlotBelow(mem, t, level, va', k);
    SameBelow(level, target, va, va');
    if level > target {
      var child := FrameOf(mem[t][Index(level, va)]);
      ChildTree(mem, t, level, Index(level, va));
      PathFacts(mem, child, level - 1, va, target);
      RootNotBelow(mem, t, level, Index(level, va));
      SlotBelow(mem', t, level, va', k);
      if k < level {
        if Index(level, va') == Index(level, va) {
          StoreSlots(mem, mem', child, level - 1, va, target, e, va', k);
        } else {
          TableOf(mem, mem[t][Index(level, va)], level);
          OtherSlotSlots(mem, mem', t, level, PathTable(mem, t, level, va, target), Index(level, va), va', k);
        }
      }
    } else {
      SlotBelow(mem', t, level, va', k);
      if Index(level, va') != Index(level, va) && k < level {
        OtherSlotSlots(mem, mem', t, level, t, Index(level, va), va', k);
      }
    }
  }

  lemma SlotsDisjoint(mem: Memory, t: nat, level: nat, i: nat, j: nat)
    requires TreeOk(mem, t, level) && i < ENTRIES && j < ENTRIES && i != j
    ensures SlotTables(mem, mem[t][i], level) !! SlotTables(mem, mem[t][j], level)
  {
    hide SlotTables, SlotOk;
  }

  lemma OtherSlotSlots(mem: Memory, mem': Memory, t: nat, level: nat, a: nat, i: nat, va': nat, k: nat)
    requires TreeOk(mem, t, level) && i < ENTRIES && (a == t || a in SlotTables(mem, mem[t][i], level)) && Index(level, va') != i
    requires OnPath(mem, t, level, va', k) && k < level
    requires t in mem' && |mem'[t]| == ENTRIES && mem'[t][Index(level, va')] == mem[t][Index(level, va')]
    requires forall b :: b in Tables(mem, t, level) && b != a && b in mem ==> b in mem' && mem'[b] == mem[b]
    ensures PathSlot(mem', t, level, va', k) == PathSlot(mem, t, level, va', k)
  {
    hide Walk, FrameBits, Addr, TreeOk, Tables, SlotTables, Index;
    var j := Index(level, va');
    ChildTree(mem, t, level, j);
    RootNotBelow(mem, t, level, j);
    TableOf(mem, mem[t][j], level);
    SlotsDisjoint(mem, t, level, i, j);
    PathDependsOnTables(mem, mem', FrameOf(mem[t][j]), level - 1, va', k);
  }

  /** Every present entry met on the way to any address stayed as it was or gained the flags. */
  ghost predicate EntriesGain(mem: Memory, mem': Memory, root: nat, top: nat, flags: bv64) {
    forall va', k: nat :: 0 < k && OnPath(mem, root, top, va', k) ==> EntryGains(mem, mem', root, top, va', k, flags)
  }

  ghost predicate EntryGains(mem: Memory, mem': Memory, root: nat, top: nat, va: nat, k: nat, flags: bv64) {
    Present(PathSlot(mem, root, top, va, k)) ==>
      OnPath(mem', root, top, va, k) && Gained(PathSlot(mem, root, top, va, k), PathSlot(mem', root, top, va, k), flags)
  }

  /** The entries after a fresh table was hung into an empty slot. */
  lemma AddEntries(mem: Memory, mem': Memory, root: nat, top: nat, va: nat, level: nat, c: nat, e: Entry, flags: bv64)
    requires TreeOk(mem, root, top) && OnPath(mem, root, top, va, level) && level > 1
    requires !Present(PathSlot(mem, root, top, va, level)) && c !in Tables(mem, root, top) && PathsGrow(mem, mem', root, top, va, level)
    requires var a := PathTable(mem, root, top, va, level);
      a in mem && |mem[a]| == ENTRIES && mem' == Store(mem, a, Index(level, va), e)[c := ZeroFrame()]
    ensures EntriesGain(mem, mem', root, top, flags) && OnPath(mem', root, top, va, level) && PathSlot(mem', root, top, va, level) == e
  {
    hide Walk, Tables, FrameBits, TreeOk, OnPath, PathSlot, PathTable, ZeroFrame;
    PathFacts(mem, root, top, va, level);
    SameAsSelf(top, level, va);
    LevelPositive(mem, root, top, va, level);
    StoreSlots(mem, mem', root, top, va, level, e, va, level);
    forall va', k: nat | 0 < k && OnPath(mem, root, top, va', k)
      ensures EntryGains(mem, mem', root, top, va', k, flags)
    {
      StoreSlots(mem, mem', root, top, va, level, e, va', k);
      if SameSlots(top, level, va, va') && k <= level {
        SameSlotsSamePath(mem, root, top, va, va', level);
        if k < level {
          SlotItself(mem, root, top, va, level, va', k);
        }
      }
    }
  }

  lemma LevelPositive(mem: Memory, t: nat, level: nat, va: nat, k: nat)
    requires OnPath(mem, t, level, va, k)
    ensures 0 < k <= level
  {
  }

  /** The entries after flags were added to a table entry. */
  lemma FlagEntries(mem: Memory, mem': Memory, root: nat, top: nat, va: nat, level: nat, e: Entry, flags: bv64)
    requires TreeOk(mem, root, top) && OnPath(mem, root, top, va, level) && level > 1 && PathsGrow(mem, mem', root, top, va, level)
    requires var slot := PathSlot(mem, root, top, va, level); IsTable(slot, level) && IsTable(e, level) && FrameOf(e) == FrameOf(slot) && Gained(slot, e, flags)
    requires var a := PathTable(mem, root, top, va, level); a in mem && |mem[a]| == ENTRIES && mem' == Store(mem, a, Index(level, va), e)
    ensures EntriesGain(mem, mem', root, top, flags) && OnPath(mem', root, top, va, level) && PathSlot(mem', root, top, va, level) == e
  {
    hide Walk, Tables, FrameBits, TreeOk, PathSlot, PathTable, OnPath;
    var a, slot := PathTable(mem, root, top, va, level), PathSlot(mem, root, top, va, level);
    PathFacts(mem, root, top, va, level);
    SlotOnPathOk(mem, root, top, va, level);
    PathTableNotBelow(mem, root, top, va, level);
    StoreKeepsOthers(mem, a, Index(level, va), e);
    SameAsSelf(top, level, va);
    StoreSlots(mem, mem', root, top, va, level, e, va, level);
    forall va', k: nat | 0 < k && OnPath(mem, root, top, va', k)
      ensures EntryGains(mem, mem', root, top, va', k, flags)
    {
      StoreSlots(mem, mem', root, top, va, level, e, va', k);
      if SameSlots(top, level, va, va') && k <= level {
        SameSlotsSamePath(mem, root, top, va, va', level);
        if k < level {
          SlotItself(mem, root, top, va, level, va', k);
          StoreSlots(mem, mem, root, top, va, level, slot, va', k);
          PathDependsOnTables(mem, mem', FrameOf(slot), level - 1, va', k);
        }
      }
    }
  }

  /** Going down one level at va put a table there for all addresses with the same slots, and no other. */
  ghost predicate PathsGrow(mem: Memory, mem': Memory, root: nat, top: nat, va: nat, level: nat) {
    forall va', k: nat :: 0 < k ==>
      (OnPath(mem', root, top, va', k) <==> OnPath(mem, root, top, va', k) || (k == level - 1 && SameSlots(top, level, va, va')))
  }

  /** Is the slot present exactly when the next table is there? */
  lemma PresentIsPath(mem: Memory, root: nat, top: nat, va: nat, level: nat)
    requires TreeOk(mem, root, top) && OnPath(mem, root, top, va, level) && level > 1
    requires var slot := PathSlot(mem, root, top, va, level); Present(slot) ==> IsTable(slot, level)
    ensures Present(PathSlot(mem, root, top, va, level)) <==> OnPath(mem, root, top, va, level - 1)
  {
    hide Walk, Tables, FrameBits;
    var slot := PathSlot(mem, root, top, va, level);
    PathFacts(mem, root, top, va, level);
    SlotItself(mem, root, top, va, level, va, level - 1);
    SameAsSelf(top, level, va);
    if Present(slot) {
      SubtreeRoot(mem, root, top, va, level);
    }
  }

  lemma {:induction false} SameAsSelf(level: nat, target: nat, va: nat)
    ensures SameSlots(level, target, va, va)
    decreases level
  {
    if level > 0 && level >= target {
      SameAsSelf(level - 1, target, va);
    }
  }

  /** Paths through a slot, in memory as it is. */
  lemma SlotItself(mem: Memory, root: nat, top: nat, va: nat, level: nat, va': nat, k: nat)
    requires TreeOk(mem, root, top) && OnPath(mem, root, top, va, level) && 0 < k < level
    ensures SameSlots(top, level, va, va') ==>
        (OnPath(mem, root, top, va', k) <==> SlotPath(mem, PathSlot(mem, root, top, va, level), level, va', k))
  {
    hide Walk, Tables, FrameBits, SlotPath, TreeOk, OnPath;
    PathFacts(mem, root, top, va, level);
    StorePaths(mem, mem, root, top, va, level, PathSlot(mem, root, top, va, level), va', k);
  }

  lemma {:induction false} PathTableNotBelow(mem: Memory, t: nat, level: nat, va: nat, target: nat)
    requires TreeOk(mem, t, level) && OnPath(mem, t, level, va, target) && IsTable(PathSlot(mem, t, level, va, target), target)
    ensures PathTable(mem, t, level, va, target) !in Tables(mem, FrameOf(PathSlot(mem, t, level, va, target)), target - 1)
    decreases level
  {
    hide Tables, Walk;
    if level > target {
      ChildTree(mem, t, level, Index(level, va));
      PathTableNotBelow(mem, FrameOf(mem[t][Index(level, va)]), level - 1, va, target);
    } else {
      RootNotBelow(mem, t, level, Index(level, va));
    }
  }

  lemma ZeroPaths(mem: Memory, c: nat, level: nat, va: nat, k: nat)
    requires c in mem && mem[c] == ZeroFrame() && 0 < k
    ensures OnPath(mem, c, level, va, k) <==> k == level
  {
    assert !IsTable(0, level);
  }

  /** A fresh zeroed table in an empty slot. */
  lemma AddPaths(mem: Memory, mem': Memory, root: nat, top: nat, va: nat, level: nat, c: nat, e: Entry)
    requires TreeOk(mem, root, top) && OnPath(mem, root, top, va, level) && level > 1
    requires !Present(PathSlot(mem, root, top, va, level)) && IsTable(e, level) && FrameOf(e) == c && c !in Tables(mem, root, top)
    requires var a := PathTable(mem, root, top, va, level);
      a in mem && |mem[a]| == ENTRIES && mem' == Store(mem, a, Index(level, va), e)[c := ZeroFrame()]
    ensures PathsGrow(mem, mem', root, top, va, level)
  {
    hide Walk, Tables, FrameBits, TreeOk, OnPath, PathSlot, PathTable, ZeroFrame;
    PathFacts(mem, root, top, va, level);
    forall va', k: nat | 0 < k
      ensures OnPath(mem', root, top, va', k) <==> OnPath(mem, root, top, va', k) || (k == level - 1 && SameSlots(top, level, va, va'))
    {
      StorePaths(mem, mem', root, top, va, level, e, va', k);
      if SameSlots(top, level, va, va') && k < level {
        SlotItself(mem, root, top, va, level, va', k);
        ZeroPaths(mem', c, level - 1, va', k);
      }
    }
  }

  /** Flags on a table entry. */
  lemma FlagPaths(mem: Memory, mem': Memory, root: nat, top: nat, va: nat, level: nat, e: Entry)
    requires TreeOk(mem, root, top) && OnPath(mem, root, top, va, level) && level > 1
    requires var slot := PathSlot(mem, root, top, va, level); IsTable(slot, level) && IsTable(e, level) && FrameOf(e) == FrameOf(slot)
    requires var a := PathTable(mem, root, top, va, level); a in mem && |mem[a]| == ENTRIES && mem' == Store(mem, a, Index(level, va), e)
    ensures PathsGrow(mem, mem', root, top, va, level)
  {
    hide Walk, Tables, FrameBits, TreeOk, PathSlot, PathTable, OnPath;
    var a, slot := PathTable(mem, root, top, va, level), PathSlot(mem, root, top, va, level);
    PathFacts(mem, root, top, va, level);
    SlotOnPathOk(mem, root, top, va, level);
    PathTableNotBelow(mem, root, top, va, level);
    StoreKeepsOthers(mem, a, Index(level, va), e);
    forall va', k: nat | 0 < k
      ensures OnPath(mem', root, top, va', k) <==> OnPath(mem, root, top, va', k) || (k == level - 1 && SameSlots(top, level, va, va'))
    {
      StorePaths(mem, mem', root, top, va, level, e, va', k);
      if SameSlots(top, level, va, va') && k < level {
        SlotItself(mem, root, top, va, level, va', k);
        PathsDependOnTables(mem, mem', FrameOf(slot), level - 1, va', k);
        FirstOnPath(mem, FrameOf(slot), level - 1, va');
      }
    }
  }

  lemma FirstOnPath(mem: Memory, t: nat, level: nat, va: nat)
    requires TreeOk(mem, t, level)
    ensures OnPath(mem, t, level, va, level)
  {
  }

  /** How many tables of levels `level` to 3 are missing for va. */
  function Lacks(mem: Memory, root: nat, top: nat, va: nat, level: nat): (n: nat)
    ensures level <= 4 ==> n <= 4 - level
    decreases 4 - level
  {
    if level > 3 || OnPath(mem, root, top, va, level) then 0 else 1 + Lacks(mem, root, top, va, level + 1)
  }

  lemma {:induction false} PathAbove(mem: Memory, t: nat, level: nat, va: nat, k: nat)
    requires OnPath(mem, t, level, va, k) && k < level
    ensures OnPath(mem, t, level, va, k + 1)
    decreases level
  {
    if k + 1 < level {
      PathAbove(mem, FrameOf(mem[t][Index(level, va)]), level - 1, va, k);
    }
  }

  /** One level further down. */
  lemma LacksStep(mem: Memory, root: nat, va: nat, level: nat)
    requires 2 <= level <= 4
    ensures Lacks(mem, root, 4, va, level - 1) == Lacks(mem, root, 4, va, level) + if OnPath(mem, root, 4, va, level - 1) then 0 else 1
  {
    if OnPath(mem, root, 4, va, level - 1) {
      PathAbove(mem, root, 4, va, level - 1);
    }
  }

  lemma {:induction false} LacksMore(mem: Memory, root: nat, va: nat, level: nat, level': nat)
    requires 1 <= level <= level' <= 4
    ensures Lacks(mem, root, 4, va, level') <= Lacks(mem, root, 4, va, level)
    decreases level' - level
  {
    if level < level' {
      LacksMore(mem, root, va, level + 1, level');
      LacksStep(mem, root, va, level + 1);
    }
  }

  /** The walk for va is down to `level`: it put there what was missing above, for all addresses with the same slots, and took as many frames. */
  ghost predicate WalkedTo(mem: Memory, pool: seq<bv64>, root: nat, va: nat, level: nat, mem': Memory, pool': seq<bv64>) {
    && 1 <= level <= 4 && |pool'| == |pool| - Lacks(mem, root, 4, va, level)
    && forall va', k: nat :: 0 < k ==>
        (OnPath(mem', root, 4, va', k) <==> OnPath(mem, root, 4, va', k) || (level <= k <= 3 && SameSlots(4, k + 1, va, va')))
  }

  lemma WalkStarts(mem: Memory, pool: seq<bv64>, root: nat, va: nat)
    ensures WalkedTo(mem, pool, root, va, 4, mem, pool)
  {
    hide OnPath, SameSlots;
  }

  lemma WalkStep(mem: Memory, pool: seq<bv64>, root: nat, va: nat, level: nat, mem1: Memory, pool1: seq<bv64>, mem2: Memory, pool2: seq<bv64>)
    requires WalkedTo(mem, pool, root, va, level, mem1, pool1) && 2 <= level && PathsGrow(mem1, mem2, root, 4, va, level)
    requires |pool2| == |pool1| - if OnPath(mem1, root, 4, va, level - 1) then 0 else 1
    ensures WalkedTo(mem, pool, root, va, level - 1, mem2, pool2)
  {
    hide OnPath, SameSlots, Lacks;
    assert OnPath(mem1, root, 4, va, level - 1) <==> OnPath(mem, root, 4, va, level - 1);
    LacksStep(mem, root, va, level);
  }

  /** Stuck at a level: more tables are missing than frames were free. */
  lemma WalkStuck(mem: Memory, pool: seq<bv64>, root: nat, va: nat, level: nat, mem1: Memory, target: nat)
    requires WalkedTo(mem, pool, root, va, level, mem1, []) && 1 <= target < level && !OnPath(mem1, root, 4, va, level - 1)
    ensures Lacks(mem, root, 4, va, target) > |pool|
  {
    hide OnPath, SameSlots, Lacks;
    assert OnPath(mem1, root, 4, va, level - 1) <==> OnPath(mem, root, 4, va, level - 1);
    LacksStep(mem, root, va, level);
    LacksMore(mem, root, va, target, level - 1);
  }

  /** On the way to va, all entries from the root's down to `level` are present and have the flags. */
  ghost predicate WayCarries(mem: Memory, root: nat, va: nat, level: nat, flags: bv64) {
    forall k: nat :: level <= k <= 4 ==> EntryCarries(mem, root, va, k, flags)
  }

  ghost predicate EntryCarries(mem: Memory, root: nat, va: nat, k: nat, flags: bv64) {
    OnPath(mem, root, 4, va, k) && Present(PathSlot(mem, root, 4, va, k)) && Carries(PathSlot(mem, root, 4, va, k), flags)
  }

  /** The entries new tables of levels `level` to 3 hang from are present, writable and have the flags. */
  ghost predicate NewLinks(mem: Memory, mem': Memory, root: nat, level: nat, flags: bv64) {
    forall va', k: nat :: level <= k <= 3 && OnPath(mem', root, 4, va', k) && !OnPath(mem, root, 4, va', k) ==>
      Carries(PathSlot(mem', root, 4, va', k + 1), flags | 0x003)
  }

  /** The walk so far: what was there gained at most the flags, and the entries passed have them. */
  ghost predicate WalkFlagged(mem: Memory, root: nat, va: nat, level: nat, flags: bv64, mem': Memory) {
    EntriesGain(mem, mem', root, 4, flags) && WayCarries(mem', root, va, level + 1, flags) && NewLinks(mem, mem', root, 1, flags)
  }

  lemma WalkUnflagged(mem: Memory, root: nat, va: nat, flags: bv64)
    ensures WalkFlagged(mem, root, va, 4, flags, mem)
  {
    hide OnPath, PathSlot, Present;
  }

  lemma WalkFlagStep(mem: Memory, root: nat, va: nat, level: nat, flags: bv64, mem1: Memory, mem2: Memory)
    requires WalkFlagged(mem, root, va, level, flags, mem1) && 1 <= level <= 4 && PlainFlags(flags) && PathsGrow(mem1, mem2, root, 4, va, level)
    requires EntriesGain(mem1, mem2, root, 4, flags) && SlotFlagged(mem1, mem2, root, 4, va, level, flags)
    ensures WalkFlagged(mem, root, va, level - 1, flags, mem2)
  {
    hide OnPath, PathSlot, Present, Gained, Carries, Flagged, PlainFlags, SameSlots, NewLinks;
    GainTwice(mem, mem1, mem2, root, flags);
    LinksStep(mem, root, va, level, flags, mem1, mem2);
    forall k: nat | level <= k <= 4
      ensures EntryCarries(mem2, root, va, k, flags)
    {
      if k == level {
        FlaggedCarries(PathSlot(mem1, root, 4, va, k), PathSlot(mem2, root, 4, va, k), flags);
      } else {
        assert EntryCarries(mem1, root, va, k, flags);
        assert EntryGains(mem1, mem2, root, 4, va, k, flags);
        GainedCarries(PathSlot(mem1, root, 4, va, k), PathSlot(mem2, root, 4, va, k), flags);
      }
    }
  }

  lemma LinksStep(mem: Memory, root: nat, va: nat, level: nat, flags: bv64, mem1: Memory, mem2: Memory)
    requires NewLinks(mem, mem1, root, 1, flags) && PathsGrow(mem1, mem2, root, 4, va, level)
    requires EntriesGain(mem1, mem2, root, 4, flags) && SlotFlagged(mem1, mem2, root, 4, va, level, flags)
    ensures NewLinks(mem, mem2, root, 1, flags)
  {
    hide OnPath, PathSlot, Present, Gained, Carries, Flagged, SameSlots;
    forall va', k: nat | 1 <= k <= 3 && OnPath(mem2, root, 4, va', k) && !OnPath(mem, root, 4, va', k)
      ensures Carries(PathSlot(mem2, root, 4, va', k + 1), flags | 0x003)
    {
      if OnPath(mem1, root, 4, va', k) {
        PathAbove(mem1, root, 4, va', k);
        LinkPresent(PathSlot(mem1, root, 4, va', k + 1), flags);
        assert EntryGains(mem1, mem2, root, 4, va', k + 1, flags);
        LinkGained(PathSlot(mem1, root, 4, va', k + 1), PathSlot(mem2, root, 4, va', k + 1), flags);
      } else {
        SameAsSelf(4, level, va);
        SameSlotsSamePath(mem2, root, 4, va, va', level);
        LinkNew(PathSlot(mem1, root, 4, va, level), PathSlot(mem2, root, 4, va, level), flags);
      }
    }
  }

  lemma LinkPresent(e: Entry, flags: bv64)
    requires Carries(e, flags | 0x003)
    ensures Present(e)
  {
  }

  lemma LinkGained(e: Entry, e': Entry, flags: bv64)
    requires Gained(e, e', flags) && Carries(e, flags | 0x003)
    ensures Carries(e', flags | 0x003)
  {
  }

  lemma LinkNew(e: Entry, e': Entry, flags: bv64)
    requires Flagged(e, e', flags) && !Present(e)
    ensures Carries(e', flags | 0x003)
  {
  }

  lemma GainTwice(mem: Memory, mem1: Memory, mem2: Memory, root: nat, flags: bv64)
    requires EntriesGain(mem, mem1, root, 4, flags) && EntriesGain(mem1, mem2, root, 4, flags)
    ensures EntriesGain(mem, mem2, root, 4, flags)
  {
    hide OnPath, PathSlot, Present, Gained;
    forall va', k: nat | 0 < k && OnPath(mem, root, 4, va', k)
      ensures EntryGains(mem, mem2, root, 4, va', k, flags)
    {
      assert EntryGains(mem, mem1, root, 4, va', k, flags);
      if Present(PathSlot(mem, root, 4, va', k)) {
        StillPresent(PathSlot(mem, root, 4, va', k), PathSlot(mem1, root, 4, va', k), flags);
        assert EntryGains(mem1, mem2, root, 4, va', k, flags);
        GainedTwice(PathSlot(mem, root, 4, va', k), PathSlot(mem1, root, 4, va', k), PathSlot(mem2, root, 4, va', k), flags);
      }
    }
  }

  lemma StillPresent(e: Entry, e': Entry, flags: bv64)
    requires Gained(e, e', flags) && Present(e)
    ensures Present(e')
  {
  }

  /** Down to the page's level, every present entry but the page's own stayed as it was or gained the flags. */
  ghost predicate OthersGain(mem: Memory, mem': Memory, root: nat, va: nat, target: nat, flags: bv64) {
    forall va', k: nat :: target <= k <= 4 && OnPath(mem, root, 4, va', k) && !(k == target && SameSlots(4, target, va, va')) ==>
      EntryGains(mem, mem', root, 4, va', k, flags)
  }

  lemma PartWayGains(mem: Memory, root: nat, va: nat, level: nat, target: nat, flags: bv64, mem': Memory)
    requires WalkFlagged(mem, root, va, level, flags, mem') && target > 0
    ensures OthersGain(mem, mem', root, va, target, flags) && NewLinks(mem, mem', root, target, flags) && EntriesGain(mem, mem', root, 4, flags)
  {
    hide OnPath, PathSlot, Present, Gained, EntryGains, SameSlots, Carries;
  }

  /** The final store completes the way. */
  lemma WayDone(mem: Memory, root: nat, va: nat, target: nat, flags: bv64, mem1: Memory, e: Entry)
    requires WalkFlagged(mem, root, va, target, flags, mem1) && 1 <= target <= 3 && TreeOk(mem1, root, 4) && OnPath(mem1, root, 4, va, target)
    requires Present(e) && Carries(e, flags)
    ensures var mem2 := Store(mem1, PathTable(mem1, root, 4, va, target), Index(target, va), e);
      WayCarries(mem2, root, va, target, flags) && OthersGain(mem, mem2, root, va, target, flags) && NewLinks(mem, mem2, root, target, flags)
  {
    hide OnPath, PathSlot, PathTable, Present, Carries, TreeOk, Walk, SameSlots, Gained, Tables, NewLinks;
    LinksDone(mem, root, va, target, flags, mem1, e);
    var a := PathTable(mem1, root, 4, va, target);
    PathFacts(mem1, root, 4, va, target);
    var mem2 := Store(mem1, a, Index(target, va), e);
    StoreKeepsOthers(mem1, a, Index(target, va), e);
    SameAsSelf(4, target, va);
    forall k: nat | target <= k <= 4
      ensures EntryCarries(mem2, root, va, k, flags)
    {
      if k > target {
        assert EntryCarries(mem1, root, va, k, flags);
      }
      StorePaths(mem1, mem2, root, 4, va, target, e, va, k);
      StoreSlots(mem1, mem2, root, 4, va, target, e, va, k);
    }
    forall va', k: nat | target <= k <= 4 && OnPath(mem, root, 4, va', k) && !(k == target && SameSlots(4, target, va, va'))
      ensures EntryGains(mem, mem2, root, 4, va', k, flags)
    {
      assert EntryGains(mem, mem1, root, 4, va', k, flags);
      if Present(PathSlot(mem, root, 4, va', k)) {
        StorePaths(mem1, mem2, root, 4, va, target, e, va', k);
        StoreSlots(mem1, mem2, root, 4, va, target, e, va', k);
      }
    }
  }

  lemma LinksDone(mem: Memory, root: nat, va: nat, target: nat, flags: bv64, mem1: Memory, e: Entry)
    requires NewLinks(mem, mem1, root, 1, flags) && 1 <= target <= 3 && TreeOk(mem1, root, 4) && OnPath(mem1, root, 4, va, target)
    ensures NewLinks(mem, Store(mem1, PathTable(mem1, root, 4, va, target), Index(target, va), e), root, target, flags)
  {
    hide OnPath, PathSlot, PathTable, Carries, TreeOk, Walk, SameSlots, Tables;
    var a := PathTable(mem1, root, 4, va, target);
    PathFacts(mem1, root, 4, va, target);
    var mem2 := Store(mem1, a, Index(target, va), e);
    StoreKeepsOthers(mem1, a, Index(target, va), e);
    forall va', k: nat | target <= k <= 3 && OnPath(mem2, root, 4, va', k) && !OnPath(mem, root, 4, va', k)
      ensures Carries(PathSlot(mem2, root, 4, va', k + 1), flags | 0x003)
    {
      StorePaths(mem1, mem2, root, 4, va, target, e, va', k);
      PathAbove(mem1, root, 4, va', k);
      StoreSlots(mem1, mem2, root, 4, va, target, e, va', k + 1);
    }
  }

  /** The tables down to the page's level that are there afterwards: those that were, and those the page goes through. */
  ghost predicate PathsMapped(mem: Memory, mem': Memory, root: nat, va: nat, target: nat) {
    forall va', k: nat :: target <= k <= 3 ==>
      (OnPath(mem', root, 4, va', k) <==> OnPath(mem, root, 4, va', k) || SameSlots(4, k + 1, va, va'))
  }

  /** The final store keeps them. */
  lemma WalkEnds(mem: Memory, pool: seq<bv64>, root: nat, va: nat, target: nat, mem1: Memory, pool1: seq<bv64>, e: Entry)
    requires WalkedTo(mem, pool, root, va, target, mem1, pool1) && 1 <= target <= 3
    requires TreeOk(mem1, root, 4) && OnPath(mem1, root, 4, va, target)
    ensures PathsMapped(mem, Store(mem1, PathTable(mem1, root, 4, va, target), Index(target, va), e), root, va, target)
  {
    hide OnPath, SameSlots, Lacks, TreeOk, Walk, PathTable, PathSlot;
    PathFacts(mem1, root, 4, va, target);
    var mem2 := Store(mem1, PathTable(mem1, root, 4, va, target), Index(target, va), e);
    forall va', k: nat | target <= k <= 3
      ensures OnPath(mem2, root, 4, va', k) <==> OnPath(mem, root, 4, va', k) || SameSlots(4, k + 1, va, va')
    {
      StorePaths(mem1, mem2, root, 4, va, target, e, va', k);
      assert OnPath(mem1, root, 4, va', k) <==> OnPath(mem, root, 4, va', k) || SameSlots(4, k + 1, va, va');
    }
  }

  // ---------------------------------------------------------------- the operation

  /** Table memory and the free frames `pages_allocatePage(PAGE_SIZE_4KB)` can still hand out. */
  class Machine {
    var mem: Memory
    var pool: seq<bv64>

    /** The physical allocator as its callers see it: a fresh frame, or null. */
    method AllocateFrame() returns (c: bv64)
      modifies this`pool
      ensures if old(pool) == [] then c == 0 && pool == [] else c == old(pool)[|old(pool)| - 1] && pool == old(pool)[..|old(pool)| - 1]
    {
      if pool == [] {
        return 0;
      }
      c, pool := pool[|pool| - 1], pool[..|pool| - 1];
    }

    /** One level of the walk in `pageTable_addPage`: follow the table, or allocate and link a zeroed one. */
    method Descend(root: nat, top: nat, t: nat, va: nat, level: nat, flags: bv64) returns (ok: bool, child: nat)
      requires Ready(mem, pool, root, top) && OnPath(mem, root, top, va, level) && t == PathTable(mem, root, top, va, level)
      requires 1 < level <= top <= 4 && PlainFlags(flags)
      requires var slot := PathSlot(mem, root, top, va, level); Present(slot) ==> IsTable(slot, level)
      modifies this
      ensures ok ==> Ready(mem, pool, root, top) && Descended(old(mem), mem, root, top, va, level, child)
      ensures ok ==> OnlyOwn(old(mem), old(pool), root, top, mem, pool) && PathsGrow(old(mem), mem, root, top, va, level)
      ensures ok ==> EntriesGain(old(mem), mem, root, top, flags) && SlotFlagged(old(mem), mem, root, top, va, level, flags)
      ensures ok ==> |pool| == |old(pool)| - if OnPath(old(mem), root, top, va, level - 1) then 0 else 1
      ensures !ok ==> mem == old(mem) && pool == old(pool) == [] && !Present(PathSlot(mem, root, top, va, level))
      ensures !ok ==> !OnPath(mem, root, top, va, level - 1)
    {
      hide *;
      ReadyTree(mem, pool, root, top);
      PathFacts(mem, root, top, va, level);
      PresentIsPath(mem, root, top, va, level);
      ok, child := true, 0;
      var i := Index(level, va);
      var slot := mem[t][i];
      if !Present(slot) {
        if |pool| > 0 {
          PopLast(mem, pool, root, top);
        }
        var c := AllocateFrame();
        if c == 0 {
          return false, 0;
        }
        mem := Store(mem, t, i, TableEntry(c, flags));
        mem := mem[Addr(c) := ZeroFrame()];
        child := Addr(c);
        AddStep(old(mem), old(pool), root, top, t, va, level, flags, c);
      } else {
        mem := Store(mem, t, i, WithFlags(slot, flags));
        child := FrameOf(WithFlags(slot, flags));
        FlagStep(old(mem), old(pool), root, top, t, va, level, flags, slot);
      }
    }

    /** The body of the mapping loop; `target` is 1, 2 or 3 for a 4 KiB, 2 MiB or 1 GiB page. */
    method MapPage(root: nat, top: nat, va: nat, phys: bv64, target: nat, flags: bv64) returns (ok: bool)
      requires Ready(mem, pool, root, top) && top == 4 && 1 <= target <= 3 && PlainFlags(flags)
      requires NoLargerLeaf(mem, root, top, va, target)
      modifies this
      ensures Ready(mem, pool, root, top) && OnlyOwn(old(mem), old(pool), root, top, mem, pool)
      ensures ok ==> MapsPage(old(mem), mem, root, top, va, target, LeafEntry(phys, target, flags))
      ensures !ok ==> SameTranslation(old(mem), mem, root, top) && pool == [] && Walk(mem, root, top, va) == Unmapped
      ensures !ok ==> EntriesGain(old(mem), mem, root, 4, flags)
      ensures ok <==> Lacks(old(mem), root, top, va, target) <= |old(pool)|
      ensures ok ==> |pool| == |old(pool)| - Lacks(old(mem), root, top, va, target) && PathsMapped(old(mem), mem, root, va, target)
      ensures ok ==> WayCarries(mem, root, va, target, flags)
      ensures OthersGain(old(mem), mem, root, va, target, flags) && NewLinks(old(mem), mem, root, target, flags)
    {
      hide *;
      WalkStarts(mem, pool, root, va);
      WalkUnflagged(mem, root, va, flags);
      IntactStart(mem, pool, root, top, va);
      SlotIsTable(old(mem), old(pool), root, top, mem, pool, va, 4, target);
      var pdpt;
      ok, pdpt := Descend(root, top, root, va, 4, flags);
      if !ok {
        IntactParts(old(mem), old(pool), root, top, mem, pool);
        StuckUnmapped(mem, root, top, va, 4);
        WalkStuck(old(mem), old(pool), root, va, 4, mem, target);
        PartWayGains(old(mem), root, va, 4, target, flags, mem);
        return;
      }
      IntactStep(old(mem), old(pool), root, top, va, 4, old(mem), old(pool), mem, pool, pdpt);
      WalkStep(old(mem), old(pool), root, va, 4, old(mem), old(pool), mem, pool);
      WalkFlagStep(old(mem), root, va, 4, flags, old(mem), mem);
      if target == 3 {
        MappedAfterWalk(old(mem), old(pool), root, top, va, target, mem, pool, phys, flags);
        WalkDone(old(mem), old(pool), root, va, target, mem, pool, phys, flags);
        mem := Store(mem, pdpt, Index(3, va), LeafEntry(phys, target, flags));
        return;
      }
      SlotIsTable(old(mem), old(pool), root, top, mem, pool, va, 3, target);
      ghost var mem1, pool1 := mem, pool;
      var pd;
      IntactParts(old(mem), old(pool), root, top, mem, pool);
      ok, pd := Descend(root, top, pdpt, va, 3, flags);
      if !ok {
        StuckUnmapped(mem, root, top, va, 3);
        WalkStuck(old(mem), old(pool), root, va, 3, mem, target);
        PartWayGains(old(mem), root, va, 3, target, flags, mem);
        return;
      }
      IntactStep(old(mem), old(pool), root, top, va, 3, mem1, pool1, mem, pool, pd);
      WalkStep(old(mem), old(pool), root, va, 3, mem1, pool1, mem, pool);
      WalkFlagStep(old(mem), root, va, 3, flags, mem1, mem);
      if target == 2 {
        MappedAfterWalk(old(mem), old(pool), root, top, va, target, mem, pool, phys, flags);
        WalkDone(old(mem), old(pool), root, va, target, mem, pool, phys, flags);
        mem := Store(mem, pd, Index(2, va), LeafEntry(phys, target, flags));
        return;
      }
      SlotIsTable(old(mem), old(pool), root, top, mem, pool, va, 2, target);
      ghost var mem2, pool2 := mem, pool;
      var pt;
      IntactParts(old(mem), old(pool), root, top, mem, pool);
      ok, pt := Descend(root, top, pd, va, 2, flags);
      if !ok {
        StuckUnmapped(mem, root, top, va, 2);
        WalkStuck(old(mem), old(pool), root, va, 2, mem, target);
        PartWayGains(old(mem), root, va, 2, target, flags, mem);
        return;
      }
      IntactStep(old(mem), old(pool), root, top, va, 2, mem2, pool2, mem, pool, pt);
      WalkStep(old(mem), old(pool), root, va, 2, mem2, pool2, mem, pool);
      WalkFlagStep(old(mem), root, va, 2, flags, mem2, mem);
      MappedAfterWalk(old(mem), old(pool), root, top, va, target, mem, pool, phys, flags);
      WalkDone(old(mem), old(pool), root, va, target, mem, pool, phys, flags);
      mem := Store(mem, pt, Index(1, va), LeafEntry(phys, target, flags));
    }
  }

  lemma WalkDone(mem: Memory, pool: seq<bv64>, root: nat, va: nat, target: nat, mem1: Memory, pool1: seq<bv64>, phys: bv64, flags: bv64)
    requires WalkedTo(mem, pool, root, va, target, mem1, pool1) && WalkFlagged(mem, root, va, target, flags, mem1) && 1 <= target <= 3
    requires Intact(mem, pool, root, 4, mem1, pool1) && OnPath(mem1, root, 4, va, target) && PlainFlags(flags)
    ensures var mem2 := Store(mem1, PathTable(mem1, root, 4, va, target), Index(target, va), LeafEntry(phys, target, flags));
      && PathsMapped(mem, mem2, root, va, target)
      && WayCarries(mem2, root, va, target, flags) && OthersGain(mem, mem2, root, va, target, flags) && NewLinks(mem, mem2, root, target, flags)
    ensures |pool1| == |pool| - Lacks(mem, root, 4, va, target)
  {
    hide OnPath, SameSlots, Lacks, TreeOk, Walk, PathTable, LeafEntry, PlainFlags, Carries, WalkFlagged, WayCarries, OthersGain, NewLinks;
    var e := LeafEntry(phys, target, flags);
    LeafEntryBits(phys, target, flags);
    LeafCarriesFlags(phys, target, flags);
    WalkEnds(mem, pool, root, va, target, mem1, pool1, e);
    WayDone(mem, root, va, target, flags, mem1, e);
  }

  lemma IntactParts(mem: Memory, pool: seq<bv64>, root: nat, top: nat, mem': Memory, pool': seq<bv64>)
    requires Intact(mem, pool, root, top, mem', pool')
    ensures Ready(mem', pool', root, top) && SameTranslation(mem, mem', root, top) && OnlyOwn(mem, pool, root, top, mem', pool')
  {
  }
}

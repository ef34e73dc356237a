/**
 The physical page allocator over its real tables: two bitmaps of 64-bit words and two array stacks.
 Every method is tied to a function of `PhysPages`.
 */
module PageAllocator {
  import opened Bits
  import opened PhysPages

  const SMALL: nat := 0x1000
  const BLOCK: nat := 0x20_0000

  // ---------------------------------------------------------------- bitmaps of words

  /** `bitmap_test` */
  predicate Test(words: seq<nat>, i: nat)
    requires i / 64 < |words|
  {
    Bit(words[i / 64], i % 64)
  }

  ghost predicate WordsOk(words: seq<nat>, n: nat) {
    n <= 64 * |words| && forall k :: 0 <= k < |words| ==> words[k] < PowerOfTwo(64)
  }

  /** The first n bits. */
  function Marks(words: seq<nat>, n: nat): (r: seq<bool>)
    requires n <= 64 * |words|
    ensures |r| == n
  {
    seq(n, i requires 0 <= i < n => Test(words, i))
  }

  lemma SetWord(words: seq<nat>, i: nat, n: nat)
    requires WordsOk(words, n) && i < n
    ensures var words' := words[i / 64 := SetBit(words[i / 64], i % 64)];
      WordsOk(words', n) && Marks(words', n) == Marks(words, n)[i := true]
  {
    SetBitMeaning(words[i / 64], i % 64, 64);
    var words' := words[i / 64 := SetBit(words[i / 64], i % 64)];
    forall j | 0 <= j < n
      ensures Test(words', j) == (j == i || Test(words, j))
    {
      if j / 64 == i / 64 {
        assert Bit(words'[i / 64], j % 64) == (j % 64 == i % 64 || Bit(words[i / 64], j % 64));
      }
    }
  }

  lemma ClearWord(words: seq<nat>, i: nat, n: nat)
    requires WordsOk(words, n) && i < n
    ensures var words' := words[i / 64 := ClearBit(words[i / 64], i % 64)];
      WordsOk(words', n) && Marks(words', n) == Marks(words, n)[i := false]
  {
    ClearBitMeaning(words[i / 64], i % 64);
    var words' := words[i / 64 := ClearBit(words[i / 64], i % 64)];
    forall j | 0 <= j < n
      ensures Test(words', j) == (j != i && Test(words, j))
    {
      if j / 64 == i / 64 {
        assert Bit(words'[i / 64], j % 64) == (j % 64 != i % 64 && Bit(words[i / 64], j % 64));
      }
    }
  }

  /** The table of 2 MiB bits ends where that of 4 KiB bits begins exactly when the number of blocks is a multiple of 64. */
  lemma BitmapsApart(n2: nat)
    ensures (forall i: nat :: i < n2 ==> i / 64 < n2 / 64) <==> n2 % 64 == 0
  {
    if n2 % 64 != 0 {
      assert (n2 - 1) / 64 == n2 / 64;
    }
  }

  /** Pages 512 * i up to 512 * i + n of a block marked b. */
  function FillPart(used4: seq<bool>, i: nat, n: nat, b: bool): (r: seq<bool>)
    ensures |r| == |used4|
  {
    seq(|used4|, j requires 0 <= j < |used4| => if 512 * i <= j < 512 * i + n then b else used4[j])
  }

  lemma FillSteps(used4: seq<bool>, i: nat, n: nat, b: bool)
    ensures FillPart(used4, i, 0, b) == used4 && FillPart(used4, i, 512, b) == FillBlock(used4, i, b)
    ensures 512 * i + n < |used4| ==> FillPart(used4, i, n, b)[512 * i + n := b] == FillPart(used4, i, n + 1, b)
  {
  }

  method BitmapSet(bitmap: array<nat>, i: nat, ghost n: nat)
    requires WordsOk(bitmap[..], n) && i < n
    modifies bitmap
    ensures WordsOk(bitmap[..], n) && Marks(bitmap[..], n) == Marks(old(bitmap[..]), n)[i := true]
  {
    SetWord(bitmap[..], i, n);
    bitmap[i / 64] := SetBit(bitmap[i / 64], i % 64);
    assert bitmap[..] == old(bitmap[..])[i / 64 := SetBit(old(bitmap[i / 64]), i % 64)];
  }

  method BitmapClear(bitmap: array<nat>, i: nat, ghost n: nat)
    requires WordsOk(bitmap[..], n) && i < n
    modifies bitmap
    ensures WordsOk(bitmap[..], n) && Marks(bitmap[..], n) == Marks(old(bitmap[..]), n)[i := false]
  {
    ClearWord(bitmap[..], i, n);
    bitmap[i / 64] := ClearBit(bitmap[i / 64], i % 64);
    assert bitmap[..] == old(bitmap[..])[i / 64 := ClearBit(old(bitmap[i / 64]), i % 64)];
  }

  /** The check that no small page of a block is in use. */
  method AllSmallFree(bitmap: array<nat>, idx: nat, ghost n: nat) returns (free: bool)
    requires WordsOk(bitmap[..], n) && 512 * idx + 512 <= n
    ensures free <==> BlockFree(Marks(bitmap[..], n), idx)
  {
    ghost var used4 := Marks(bitmap[..], n);
    for i := 0 to 512
      invariant forall j :: 512 * idx <= j < 512 * idx + i ==> !used4[j]
    {
      if Test(bitmap[..], 512 * idx + i) {
        assert used4[512 * idx + i] && (512 * idx + i) / 512 == idx;
        return false;
      }
    }
    return true;
  }

  /** Marks all small pages of a block. */
  method SetBlock(bitmap: array<nat>, idx: nat, ghost n: nat)
    requires WordsOk(bitmap[..], n) && 512 * idx + 512 <= n
    modifies bitmap
    ensures WordsOk(bitmap[..], n) && Marks(bitmap[..], n) == FillBlock(Marks(old(bitmap[..]), n), idx, true)
  {
    ghost var used4 := Marks(bitmap[..], n);
    FillSteps(used4, idx, 0, true);
    for k := 0 to 512
      invariant WordsOk(bitmap[..], n) && Marks(bitmap[..], n) == FillPart(used4, idx, k, true)
    {
      FillSteps(used4, idx, k, true);
      BitmapSet(bitmap, 512 * idx + k, n);
    }
  }

  /** Unmarks all small pages of a block. */
  method ClearBlock(bitmap: array<nat>, idx: nat, ghost n: nat)
    requires WordsOk(bitmap[..], n) && 512 * idx + 512 <= n
    modifies bitmap
    ensures WordsOk(bitmap[..], n) && Marks(bitmap[..], n) == FillBlock(Marks(old(bitmap[..]), n), idx, false)
  {
    ghost var used4 := Marks(bitmap[..], n);
    FillSteps(used4, idx, 0, false);
    for k := 0 to 512
      invariant WordsOk(bitmap[..], n) && Marks(bitmap[..], n) == FillPart(used4, idx, k, false)
    {
      FillSteps(used4, idx, k, false);
      BitmapClear(bitmap, 512 * idx + k, n);
    }
  }

  /** The loop that stacks the small pages of a freed block again. */
  method PushBlock(stack: array<nat>, top: nat, bitmap: array<nat>, idx: nat, ghost n: nat) returns (top': nat)
    requires stack != bitmap && WordsOk(bitmap[..], n) && 512 * idx + 512 <= n && top + 512 <= stack.Length
    requires BlockFree(Marks(bitmap[..], n), idx)
    modifies stack
    ensures top' == top + 512 && stack[..top'] == old(stack[..top]) + BlockPages(idx)
  {
    top' := top;
    ghost var used4 := Marks(bitmap[..], n);
    for i := 0 to 512
      invariant top' == top + i && bitmap[..] == old(bitmap[..])
      invariant forall k :: 0 <= k < top ==> stack[k] == old(stack[k])
      invariant forall k :: top <= k < top + i ==> stack[k] == 512 * idx + (k - top)
    {
      assert !used4[512 * idx + i] by { assert (512 * idx + i) / 512 == idx; }
      if !Test(bitmap[..], 512 * idx + i) {
        stack[top'] := 512 * idx + i;
        top' := top' + 1;
      }
    }
  }

  /** A bitmap after its first i entries went from `before` to `after`. */
  function Half(before: seq<bool>, after: seq<bool>, i: nat): (r: seq<bool>)
    requires |before| == |after|
    ensures |r| == |before|
  {
    seq(|before|, k requires 0 <= k < |before| => if k < i then after[k] else before[k])
  }

  lemma HalfStep(before: seq<bool>, after: seq<bool>, i: nat)
    requires |before| == |after|
    ensures Half(before, after, 0) == before && Half(before, after, |before|) == after
    ensures i < |before| ==> Half(before, after, i)[i] == before[i] && Half(before, after, i)[i := after[i]] == Half(before, after, i + 1)
    ensures i < |before| && before[i] == after[i] ==> Half(before, after, i) == Half(before, after, i + 1)
  {
  }

  lemma UnmarkedStep(used: seq<bool>, i: nat)
    requires i < |used|
    ensures Unmarked(used, i + 1) == if used[i] then Unmarked(used, i) else Unmarked(used, i) + [i]
  {
  }

  lemma TestIsMark(words: seq<nat>, i: nat, n: nat)
    requires WordsOk(words, n) && i < n
    ensures Test(words, i) == Marks(words, n)[i]
  {
  }

  method Push(stack: array<nat>, top: nat, x: nat) returns (top': nat)
    requires top < stack.Length
    modifies stack
    ensures top' == top + 1 && stack[..top'] == old(stack[..top]) + [x]
  {
    stack[top] := x;
    return top + 1;
  }

  /** The first loop of `pages_generateFreeStack` */
  method StackBlocks(bitmap2: array<nat>, bitmap4: array<nat>, stack2: array<nat>, n2: nat) returns (top: nat)
    requires bitmap2 != bitmap4 && bitmap2 != stack2 && bitmap4 != stack2
    requires WordsOk(bitmap2[..], n2) && WordsOk(bitmap4[..], 512 * n2) && n2 <= stack2.Length
    modifies bitmap2, stack2
    ensures WordsOk(bitmap2[..], n2) && top <= n2
    ensures var used2 := MarkedBlocks(Marks(old(bitmap2[..]), n2), Marks(old(bitmap4[..]), 512 * n2));
      Marks(bitmap2[..], n2) == used2 && stack2[..top] == Unmarked(used2, n2)
  {
    hide WordsOk, Unmarked, Marks, Half, Test, BlockFree;
    WordsReach(bitmap2[..], n2);
    WordsReach(bitmap4[..], 512 * n2);
    ghost var before, used4 := Marks(bitmap2[..], n2), Marks(bitmap4[..], 512 * n2);
    ghost var after := MarkedBlocks(before, used4);
    HalfStep(before, after, 0);
    UnmarkedNone(after);
    var i := 0;
    top := 0;
    while i < n2
      invariant i <= n2 && top <= i && bitmap4[..] == old(bitmap4[..])
      invariant WordsOk(bitmap2[..], n2) && Marks(bitmap2[..], n2) == Half(before, after, i)
      invariant stack2[..top] == Unmarked(after, i)
    {
      HalfStep(before, after, i);
      UnmarkedStep(after, i);
      WordsReach(bitmap2[..], n2);
      WordsReach(bitmap4[..], 512 * n2);
      TestIsMark(bitmap2[..], i, n2);
      if !Test(bitmap2[..], i) {
        var canUse := AllSmallFree(bitmap4, i, 512 * n2);
        if canUse {
          top := Push(stack2, top, i);
        } else {
          BitmapSet(bitmap2, i, n2);
        }
      }
      i := i + 1;
    }
    HalfStep(before, after, n2);
  }

  /** The second loop of `pages_generateFreeStack` */
  method StackSmall(bitmap2: array<nat>, bitmap4: array<nat>, stack4: array<nat>, n2: nat) returns (top: nat)
    requires bitmap2 != bitmap4 && bitmap2 != stack4 && bitmap4 != stack4
    requires WordsOk(bitmap2[..], n2) && WordsOk(bitmap4[..], 512 * n2) && 512 * n2 <= stack4.Length
    modifies bitmap4, stack4
    ensures WordsOk(bitmap4[..], 512 * n2) && top <= 512 * n2
    ensures var used4 := MarkedPages(Marks(old(bitmap2[..]), n2), Marks(old(bitmap4[..]), 512 * n2));
      Marks(bitmap4[..], 512 * n2) == used4 && stack4[..top] == Unmarked(used4, 512 * n2)
  {
    hide WordsOk, Unmarked, Half, Test, BlockFree, Shape, MarkedPages;
    WordsReach(bitmap2[..], n2);
    WordsReach(bitmap4[..], 512 * n2);
    ghost var used2, before := Marks(bitmap2[..], n2), Marks(bitmap4[..], 512 * n2);
    ghost var after := MarkedPages(used2, before);
    MarkedCount(used2, before);
    HalfStep(before, after, 0);
    UnmarkedNone(after);
    var i := 0;
    top := 0;
    while i < 512 * n2
      invariant i <= 512 * n2 && top <= i && bitmap2[..] == old(bitmap2[..])
      invariant WordsOk(bitmap4[..], 512 * n2) && Marks(bitmap4[..], 512 * n2) == Half(before, after, i)
      invariant stack4[..top] == Unmarked(after, i)
    {
      HalfStep(before, after, i);
      UnmarkedStep(after, i);
      MarkedAt(used2, before, i);
      WordThere(bitmap2[..], n2, i / 512);
      WordThere(bitmap4[..], 512 * n2, i);
      TestIsMark(bitmap4[..], i, 512 * n2);
      TestIsMark(bitmap2[..], i / 512, n2);
      if !Test(bitmap4[..], i) {
        if !Test(bitmap2[..], i / 512) {
          top := Push(stack4, top, i);
        } else {
          BitmapSet(bitmap4, i, 512 * n2);
        }
      }
      i := i + 1;
    }
    HalfStep(before, after, 512 * n2);
  }

  lemma WordsReach(words: seq<nat>, n: nat)
    requires WordsOk(words, n)
    ensures n <= 64 * |words|
    ensures forall i :: 0 <= i < n ==> i / 64 < |words|
  {
  }

  lemma WordThere(words: seq<nat>, n: nat, i: nat)
    requires WordsOk(words, n) && i < n
    ensures n <= 64 * |words| && i / 64 < |words|
  {
  }

  lemma MarkedAt(used2: seq<bool>, used4: seq<bool>, j: nat)
    requires |used4| == 512 * |used2| && j < |used4|
    ensures |MarkedPages(used2, used4)| == |used4| && j / 512 < |used2| && MarkedPages(used2, used4)[j] == (used4[j] || used2[j / 512])
  {
  }

  lemma MarkedCount(used2: seq<bool>, used4: seq<bool>)
    requires |used4| == 512 * |used2|
    ensures |MarkedPages(used2, used4)| == |used4|
  {
  }

  lemma UnmarkedNone(used: seq<bool>)
    ensures Unmarked(used, 0) == []
  {
  }

  // ---------------------------------------------------------------- the allocator

  class Allocator {
    /** `NUM_2MB_PAGES`; there are 512 times as many small pages. */
    const n2: nat
    const bitmap2: array<nat>
    const bitmap4: array<nat>
    const stack2: array<nat>
    const stack4: array<nat>
    var top2: nat
    var top4: nat

    ghost predicate Valid()
      reads this, bitmap2, bitmap4, stack2, stack4
    {
      && bitmap2 != bitmap4 && bitmap2 != stack2 && bitmap2 != stack4 && bitmap4 != stack2 && bitmap4 != stack4 && stack2 != stack4
      && WordsOk(bitmap2[..], n2) && WordsOk(bitmap4[..], 512 * n2)
      && top2 <= stack2.Length == n2 && top4 <= stack4.Length == 512 * n2
      && Shape(View())
    }

    function View(): Pages
      requires n2 <= 64 * bitmap2.Length && 512 * n2 <= 64 * bitmap4.Length && top2 <= stack2.Length && top4 <= stack4.Length
      reads this, bitmap2, bitmap4, stack2, stack4
    {
      Pages(Marks(bitmap2[..], n2), Marks(bitmap4[..], 512 * n2), stack2[..top2], stack4[..top4])
    }

    /** `pages_initAllocTable` */
    constructor (blocks: nat)
      requires blocks % 64 == 0
      ensures Valid() && n2 == blocks
      ensures View() == Pages(seq(blocks, _ => false), seq(512 * blocks, _ => false), [], [])
    {
      n2 := blocks;
      bitmap2 := new nat[blocks / 64](_ => 0);
      bitmap4 := new nat[blocks * 8](_ => 0);
      stack2 := new nat[blocks];
      stack4 := new nat[512 * blocks];
      top2, top4 := 0, 0;
      new;
      AllClear(bitmap2[..], n2);
      AllClear(bitmap4[..], 512 * n2);
    }

    /** `pages_reservePage` for 4 KiB pages */
    method ReserveSmall(start: nat, count: nat)
      requires Valid() && start + count <= 512 * n2
      modifies bitmap4
      ensures Valid() && View() == old(View()).(used4 := Reserve(old(View()).used4, start, count))
      ensures forall j :: 0 <= j < 512 * n2 ==> (View().used4[j] <==> old(View()).used4[j] || start <= j < start + count)
    {
      ghost var used4 := View().used4;
      assert Reserve(used4, start, 0) == used4;
      for i := 0 to count
        invariant WordsOk(bitmap4[..], 512 * n2) && Marks(bitmap4[..], 512 * n2) == Reserve(used4, start, i)
        invariant bitmap2[..] == old(bitmap2[..]) && stack2[..] == old(stack2[..]) && stack4[..] == old(stack4[..])
      {
        BitmapSet(bitmap4, start + i, 512 * n2);
        assert Reserve(used4, start, i)[start + i := true] == Reserve(used4, start, i + 1);
      }
    }

    /** `pages_generateFreeStack`, called once while both stacks are empty */
    method GenerateFreeStack()
      requires Valid() && top2 == 0 && top4 == 0
      modifies this, bitmap2, bitmap4, stack2, stack4
      ensures Valid() && View() == Generate(old(View()))
    {
      hide WordsOk, Unmarked, Marks, MarkedBlocks, MarkedPages;
      WordsReach(bitmap2[..], n2);
      WordsReach(bitmap4[..], 512 * n2);
      ghost var p := View();
      GenerateShape(p);
      top2 := StackBlocks(bitmap2, bitmap4, stack2, n2);
      top4 := StackSmall(bitmap2, bitmap4, stack4, n2);
      WordsReach(bitmap2[..], n2);
      WordsReach(bitmap4[..], 512 * n2);
      assert p.stack2 == [] && p.stack4 == [];
      assert View() == Generate(p);
    }

    /** `pages_allocatePage(PAGE_SIZE_2MB)`; the address is 0 when there is no page, and for page 0. */
    method AllocateBlock() returns (addr: nat, ghost r: Option<nat>)
      requires Valid()
      modifies this, bitmap2, bitmap4
      ensures Valid() && (View(), r) == Alloc2(old(View()))
      ensures addr == if r.Some? then r.value * 0x20_0000 else 0
      ensures r.Some? ==> forall reserved, l :: Sound(reserved, old(View()), l) ==> Gains(reserved, l, WithBlock(l, r), addr, 0x20_0000)
      decreases top2
    {
      if top2 == 0 {
        return 0, None;
      }
      ghost var p := View();
      top2 := top2 - 1;
      var idx := stack2[top2];
      assert View() == p.(stack2 := Pop(p.stack2)) && idx == Top(p.stack2);
      var free := AllSmallFree(bitmap4, idx, 512 * n2);
      if !free {
        addr, r := AllocateBlock();
        BlockBytes(p);
        return;
      }
      BitmapSet(bitmap2, idx, n2);
      SetBlock(bitmap4, idx, 512 * n2);
      assert View() == p.(used2 := p.used2[idx := true], used4 := FillBlock(p.used4, idx, true), stack2 := Pop(p.stack2));
      BlockBytes(p);
      return idx * BLOCK, Some(idx);
    }

    /** `pages_allocatePage(PAGE_SIZE_4KB)` */
    method AllocateSmall() returns (addr: nat, ghost r: Option<nat>)
      requires Valid()
      modifies this, bitmap4
      ensures Valid() && (View(), r) == Alloc4(old(View()))
      ensures addr == if r.Some? then r.value * 0x1000 else 0
      ensures r.Some? ==> forall reserved, l :: Sound(reserved, old(View()), l) ==> Gains(reserved, l, WithPage(l, r), addr, 0x1000)
      decreases top4
    {
      if top4 == 0 {
        return 0, None;
      }
      ghost var p := View();
      top4 := top4 - 1;
      var idx := stack4[top4];
      assert View() == p.(stack4 := Pop(p.stack4)) && idx == Top(p.stack4);
      if Test(bitmap2[..], idx / 512) {
        assert p.used2[idx / 512];
        addr, r := AllocateSmall();
        SmallBytes(p);
        return;
      }
      assert !p.used2[idx / 512];
      BitmapSet(bitmap4, idx, 512 * n2);
      SmallBytes(p);
      return idx * SMALL, Some(idx);
    }

    /**
     `pages_free(address, PAGE_SIZE_2MB)`, while the stacks have room.  A sound allocator stays sound exactly when no page of
     the block is still stacked.
     */
    method FreeBlock(addr: nat)
      requires Valid() && addr / 0x20_0000 < n2 && RoomToFree(View(), addr / 0x20_0000)
      modifies this, bitmap2, bitmap4, stack2, stack4
      ensures Valid() && View() == Free2(old(View()), addr / 0x20_0000)
      ensures forall reserved, l :: Sound(reserved, old(View()), l) && addr / 0x20_0000 in l.blocks ==>
          (Sound(reserved, View(), l.(blocks := l.blocks - {addr / 0x20_0000})) <==> Drained(old(View()), addr / 0x20_0000))
      ensures forall reserved, l :: Sound(reserved, old(View()), l) && addr / 0x20_0000 in l.blocks && addr % 0x20_0000 == 0 ==>
          Loses(reserved, l, l.(blocks := l.blocks - {addr / 0x20_0000}), addr, 0x20_0000)
    {
      hide Sound, Loses, Drained;
      ghost var p := View();
      var idx := addr / BLOCK;
      BlockFreed(p, addr);
      assert Test(bitmap2[..], idx) == p.used2[idx];
      if !Test(bitmap2[..], idx) {
        return;
      }
      BitmapClear(bitmap2, idx, n2);
      ClearBlock(bitmap4, idx, 512 * n2);
      stack2[top2] := idx;
      top2 := top2 + 1;
      top4 := PushBlock(stack4, top4, bitmap4, idx, 512 * n2);
      assert View() == Free2(p, idx);
    }

    /** `pages_free` of a 4 KiB page: the stack never overflows in a sound state. */
    method FreeSmall(addr: nat, ghost reserved: set<nat>, ghost l: Ledger)
      requires Valid() && addr / 0x1000 < 512 * n2 && Sound(reserved, View(), l)
      modifies this, bitmap4, stack4
      ensures Valid() && View() == Free4(old(View()), addr / 0x1000)
      ensures Sound(reserved, View(), l.(pages := l.pages - {addr / 0x1000}))
      ensures addr % 0x1000 == 0 && addr / 0x1000 in l.pages ==> Loses(reserved, l, l.(pages := l.pages - {addr / 0x1000}), addr, 0x1000)
    {
      ghost var p := View();
      var idx := addr / SMALL;
      Free4Sound(reserved, p, l, idx);
      if addr % 0x1000 == 0 && idx in l.pages {
        SmallLoses(reserved, p, l, addr);
      }
      assert Test(bitmap4[..], idx) == p.used4[idx] && Test(bitmap2[..], idx / 512) == p.used2[idx / 512];
      if !Test(bitmap4[..], idx) {
        return;
      }
      if Test(bitmap2[..], idx / 512) {
        return;
      }
      StackFits(reserved, Free4(p, idx), l.(pages := l.pages - {idx}));
      BitmapClear(bitmap4, idx, 512 * n2);
      stack4[top4] := idx;
      top4 := top4 + 1;
      assert View() == Free4(p, idx);
    }
  }

  /** The bytes of a small page handed out, for every reading of what is live. */
  lemma SmallBytes(p: Pages)
    requires Shape(p)
    ensures var r := Alloc4(p).1;
      r.Some? ==> forall reserved, l :: Sound(reserved, p, l) ==> Gains(reserved, l, WithPage(l, r), r.value * 0x1000, 0x1000)
  {
    hide Sound, Alloc4, Gains;
    forall reserved, l | Sound(reserved, p, l) && Alloc4(p).1.Some?
      ensures Gains(reserved, l, WithPage(l, Alloc4(p).1), Alloc4(p).1.value * 0x1000, 0x1000)
    {
      SmallGains(reserved, p, l);
    }
  }

  lemma BlockBytes(p: Pages)
    requires Shape(p)
    ensures var r := Alloc2(p).1;
      r.Some? ==> forall reserved, l :: Sound(reserved, p, l) ==> Gains(reserved, l, WithBlock(l, r), r.value * 0x20_0000, 0x20_0000)
  {
    hide Sound, Alloc2, Gains;
    forall reserved, l | Sound(reserved, p, l) && Alloc2(p).1.Some?
      ensures Gains(reserved, l, WithBlock(l, Alloc2(p).1), Alloc2(p).1.value * 0x20_0000, 0x20_0000)
    {
      BlockGains(reserved, p, l);
    }
  }

  /** What freeing a block does, for every reading of what is live. */
  lemma BlockFreed(p: Pages, addr: nat)
    requires Shape(p) && addr / 0x20_0000 < |p.used2|
    ensures var idx := addr / 0x20_0000;
      && (forall reserved, l :: Sound(reserved, p, l) && idx in l.blocks ==>
            (Sound(reserved, Free2(p, idx), l.(blocks := l.blocks - {idx})) <==> Drained(p, idx)))
      && forall reserved, l :: Sound(reserved, p, l) && idx in l.blocks && addr % 0x20_0000 == 0 ==>
            Loses(reserved, l, l.(blocks := l.blocks - {idx}), addr, 0x20_0000)
  {
    hide Sound, Loses, Drained, Free2;
    var idx := addr / 0x20_0000;
    forall reserved, l | Sound(reserved, p, l) && idx in l.blocks
      ensures Sound(reserved, Free2(p, idx), l.(blocks := l.blocks - {idx})) <==> Drained(p, idx)
    {
      Free2Sound(reserved, p, l, idx);
    }
    forall reserved, l | Sound(reserved, p, l) && idx in l.blocks && addr % 0x20_0000 == 0
      ensures Loses(reserved, l, l.(blocks := l.blocks - {idx}), addr, 0x20_0000)
    {
      BlockLoses(reserved, p, l, addr);
    }
  }

  function Reserve(used4: seq<bool>, start: nat, count: nat): (r: seq<bool>)
    ensures |r| == |used4|
  {
    seq(|used4|, j requires 0 <= j < |used4| => used4[j] || start <= j < start + count)
  }

  lemma AllClear(words: seq<nat>, n: nat)
    requires n <= 64 * |words| && forall k :: 0 <= k < |words| ==> words[k] == 0
    ensures WordsOk(words, n) && Marks(words, n) == seq(n, _ => false)
  {
    forall i | 0 <= i < n
      ensures !Test(words, i)
    {
      BitIsWorth(0, i % 64);
    }
  }

  lemma GenerateShape(p: Pages)
    requires Shape(p)
    ensures Shape(Generate(p))
  {
  }

  lemma StackFits(reserved: set<nat>, p: Pages, l: Ledger)
    requires Sound(reserved, p, l)
    ensures |p.stack2| <= |p.used2| && |p.stack4| <= |p.used4|
  {
    NoRepeatFits(p.stack2, |p.used2|);
    NoRepeatFits(p.stack4, |p.used4|);
  }
}

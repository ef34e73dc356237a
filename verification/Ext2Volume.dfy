/**
 The ext2 block allocator: one bitmap block per group, a free count per group
 descriptor, and the superblock's total.
 */
module Ext2Volume {
  import opened Arith
  import opened Bytes
  import opened Bits

  type Block = seq<byte>

  datatype GroupDesc = GroupDesc(blockBitmap: nat, freeBlocksCount: nat)

  /** The mount-time constants of `ext2_fs_t`. */
  datatype Geometry = Geometry(blockSize: nat, blocksPerGroup: nat, firstDataBlock: nat, totalBlocks: nat) {

    /** Block sizes are `1024 << log`; group counts are 16-bit fields. */
    predicate Wf() {
      && 1024 <= blockSize <= 0x1_0000 && blockSize % 1024 == 0
      && 0 < blocksPerGroup <= 8 * blockSize && blocksPerGroup <= 0xFFFF
      && firstDataBlock <= totalBlocks < 0x1_0000_0000
    }

    /** `ptrs_per_block` */
    function Ptrs(): (p: nat)
      ensures Wf() ==> 4 * p == blockSize && 256 <= p <= 0x4000
    {
      blockSize / 4
    }

    function GroupsCount(): nat
      requires Wf()
    {
      (totalBlocks + blocksPerGroup - 1) / blocksPerGroup
    }

    function BlocksInGroup(g: nat): int
      requires Wf()
    {
      if g == GroupsCount() - 1 then totalBlocks - g * blocksPerGroup else blocksPerGroup
    }

    function GroupOf(b: nat): nat
      requires Wf() && firstDataBlock <= b
    {
      (b - firstDataBlock) / blocksPerGroup
    }

    function IndexOf(b: nat): nat
      requires Wf() && firstDataBlock <= b
    {
      (b - firstDataBlock) % blocksPerGroup
    }

    function BlockOf(g: nat, i: nat): nat {
      g * blocksPerGroup + i + firstDataBlock
    }

    lemma Coordinates(b: nat)
      requires Wf() && firstDataBlock <= b < totalBlocks
      ensures GroupOf(b) < GroupsCount() && IndexOf(b) < BlocksInGroup(GroupOf(b)) <= blocksPerGroup
      ensures BlockOf(GroupOf(b), IndexOf(b)) == b == firstDataBlock + GroupOf(b) * blocksPerGroup + IndexOf(b)
    {
      var g, i := GroupOf(b), IndexOf(b);
      DivMod(b - firstDataBlock, blocksPerGroup);
      GroupRange(g);
    }

    /** The groups before the last are full; the last holds the remainder. */
    lemma GroupRange(g: nat)
      requires Wf()
      ensures g * blocksPerGroup < totalBlocks <==> g < GroupsCount()
      ensures g < GroupsCount() ==> 0 < BlocksInGroup(g) <= blocksPerGroup
    {
      var n := totalBlocks + blocksPerGroup - 1;
      var q := GroupsCount();
      DivMod(n, blocksPerGroup);
      if g < q {
        MulMonotone(g + 1, q, blocksPerGroup);
        if g == q - 1 {
          assert q * blocksPerGroup == g * blocksPerGroup + blocksPerGroup by { assert q == g + 1; }
        }
      } else {
        MulMonotone(q, g, blocksPerGroup);
      }
    }

    /** Each group ends where the next begins, and the last one at the end of the volume. */
    lemma GroupEnd(g: nat)
      requires Wf() && g < GroupsCount()
      ensures g * blocksPerGroup + BlocksInGroup(g) == if g + 1 < GroupsCount() then (g + 1) * blocksPerGroup else totalBlocks
    {
      Distribute(g, 1, blocksPerGroup);
    }

    lemma BlockCoordinates(g: nat, i: nat)
      requires Wf() && i < blocksPerGroup
      ensures GroupOf(BlockOf(g, i)) == g && IndexOf(BlockOf(g, i)) == i
    {
      DivModUnique(g * blocksPerGroup + i, blocksPerGroup, g, i);
    }

    /** Scan order, group by group and bit by bit, is block-number order. */
    lemma ScanOrder(g: nat, i: nat, h: nat, j: nat)
      requires Wf() && i < blocksPerGroup
      requires g < h || (g == h && i <= j)
      ensures BlockOf(g, i) <= BlockOf(h, j)
    {
      if g < h {
        MulMonotone(g + 1, h, blocksPerGroup);
      }
    }
  }

  /** `bitmap[i / 8] & (1 << (i % 8))` */
  predicate BitmapTest(bitmap: Block, i: nat)
    requires i / 8 < |bitmap|
  {
    Bit(bitmap[i / 8], i % 8)
  }

  /** Block 8q + r of a group is bit r of byte q of its bitmap, the least significant bit first. */
  lemma BitmapByte(bitmap: Block, q: nat, r: nat)
    requires q < |bitmap| && r < 8
    ensures BitmapTest(bitmap, 8 * q + r) <==> bitmap[q] / [1, 2, 4, 8, 16, 32, 64, 128][r] % 2 == 1
  {
    BitIsDigit(bitmap[q], r);
    Powers(r);
  }

  lemma Powers(r: nat)
    requires r < 8
    ensures PowerOfTwo(r) == [1, 2, 4, 8, 16, 32, 64, 128][r]
  {
    assert PowerOfTwo(3) == 8 && PowerOfTwo(5) == 4 * PowerOfTwo(3) && PowerOfTwo(7) == 4 * PowerOfTwo(5);
  }

  function BitmapSet(bitmap: Block, i: nat): (r: Block)
    requires i / 8 < |bitmap|
    ensures |r| == |bitmap|
    ensures forall j: nat :: j / 8 < |bitmap| ==> BitmapTest(r, j) == (j == i || BitmapTest(bitmap, j))
  {
    SetBitMeaning(bitmap[i / 8], i % 8, 8);
    assert PowerOfTwo(8) == 256;
    bitmap[i / 8 := SetBit(bitmap[i / 8], i % 8)]
  }

  function BitmapClear(bitmap: Block, i: nat): (r: Block)
    requires i / 8 < |bitmap|
    ensures |r| == |bitmap|
    ensures forall j: nat :: j / 8 < |bitmap| ==> BitmapTest(r, j) == (j != i && BitmapTest(bitmap, j))
  {
    ClearBitMeaning(bitmap[i / 8], i % 8);
    bitmap[i / 8 := ClearBit(bitmap[i / 8], i % 8)]
  }

  /** Sizes and places: every block has the block size and each group has its own bitmap block. */
  ghost predicate Shape(geo: Geometry, disk: seq<Block>, groups: seq<GroupDesc>) {
    && geo.Wf()
    && |disk| == geo.totalBlocks
    && (forall b :: 0 <= b < |disk| ==> |disk[b]| == geo.blockSize)
    && |groups| == geo.GroupsCount()
    && (forall g :: 0 <= g < |groups| ==> groups[g].blockBitmap < |disk|)
    && (forall g, h :: 0 <= g < h < |groups| ==> groups[g].blockBitmap != groups[h].blockBitmap)
  }

  ghost predicate IsFree(geo: Geometry, disk: seq<Block>, groups: seq<GroupDesc>, b: nat)
    requires Shape(geo, disk, groups)
  {
    && geo.firstDataBlock <= b < geo.totalBlocks
    && (geo.Coordinates(b);
        !BitmapTest(disk[groups[geo.GroupOf(b)].blockBitmap], geo.IndexOf(b)))
  }

  /** The abstract allocator state: the blocks whose bitmap bit is clear. */
  ghost function FreeBlocks(geo: Geometry, disk: seq<Block>, groups: seq<GroupDesc>): set<nat>
    requires Shape(geo, disk, groups)
  {
    set b: nat | b < geo.totalBlocks && IsFree(geo, disk, groups, b)
  }

  ghost function InGroup(geo: Geometry, s: set<nat>, g: nat): set<nat>
    requires geo.Wf() && forall b :: b in s ==> geo.firstDataBlock <= b
  {
    set b | b in s && geo.GroupOf(b) == g
  }

  /** Bitmaps, descriptors and superblock tell the same story. */
  ghost predicate CountsAgree(geo: Geometry, disk: seq<Block>, groups: seq<GroupDesc>, superFree: int)
    requires Shape(geo, disk, groups)
  {
    var free := FreeBlocks(geo, disk, groups);
    && superFree == |free|
    && forall g :: 0 <= g < |groups| ==> groups[g].freeBlocksCount == |InGroup(geo, free, g)|
  }

  /** The allocator's invariant; `bitmaps` are the blocks it keeps for itself. */
  ghost predicate Consistent(geo: Geometry, bitmaps: set<nat>, disk: seq<Block>, groups: seq<GroupDesc>, superFree: int) {
    match geo
    case Geometry(_, _, _, _) =>
      && Shape(geo, disk, groups)
      && CountsAgree(geo, disk, groups, superFree)
      && 0 !in FreeBlocks(geo, disk, groups)
      && FreeBlocks(geo, disk, groups) !! bitmaps
      && forall g :: 0 <= g < |groups| ==> groups[g].blockBitmap in bitmaps
  }

  /** One bitmap bit and its group's count changed, as taking or releasing block b does. */
  ghost predicate Flipped(geo: Geometry, disk: seq<Block>, groups: seq<GroupDesc>, b: nat,
                          disk': seq<Block>, groups': seq<GroupDesc>)
    requires Shape(geo, disk, groups) && geo.firstDataBlock <= b < geo.totalBlocks
  {
    var g, i := geo.GroupOf(b), geo.IndexOf(b);
    && g < |groups| && i / 8 < geo.blockSize &&
    var bm := groups[g].blockBitmap;
    var wasFree := !BitmapTest(disk[bm], i);
    && disk' == disk[bm := if wasFree then BitmapSet(disk[bm], i) else BitmapClear(disk[bm], i)]
    && |groups'| == |groups|
    && (forall h :: 0 <= h < |groups| ==> groups'[h].blockBitmap == groups[h].blockBitmap)
    && (forall h :: 0 <= h < |groups| ==>
          groups'[h].freeBlocksCount == groups[h].freeBlocksCount + (if h != g then 0 else if wasFree then -1 else 1))
  }

  /** Flipping one bitmap bit moves exactly one block in or out of the free set. */
  lemma FlipBit(geo: Geometry, disk: seq<Block>, groups: seq<GroupDesc>, b: nat, disk': seq<Block>, groups': seq<GroupDesc>)
    requires Shape(geo, disk, groups) && geo.firstDataBlock <= b < geo.totalBlocks
    requires Flipped(geo, disk, groups, b, disk', groups')
    ensures Shape(geo, disk', groups')
    ensures FreeBlocks(geo, disk', groups')
         == if IsFree(geo, disk, groups, b) then FreeBlocks(geo, disk, groups) - {b} else FreeBlocks(geo, disk, groups) + {b}
  {
    var g := geo.GroupOf(b);
    forall c: nat | geo.firstDataBlock <= c < geo.totalBlocks
      ensures IsFree(geo, disk', groups', c) == if c == b then !IsFree(geo, disk, groups, b) else IsFree(geo, disk, groups, c)
    {
      geo.Coordinates(b);
      geo.Coordinates(c);
    }
  }

  /** The counts follow when block b leaves or joins the free set. */
  lemma Retally(geo: Geometry, free: set<nat>, free': set<nat>, b: nat, groups: seq<GroupDesc>, groups': seq<GroupDesc>)
    requires geo.Wf() && (forall c :: c in free + free' ==> geo.firstDataBlock <= c) && b in free + free'
    requires (b in free && free' == free - {b}) || (b !in free && free' == free + {b})
    requires |groups'| == |groups| && geo.GroupOf(b) < |groups|
    requires forall g :: 0 <= g < |groups| ==> groups[g].freeBlocksCount == |InGroup(geo, free, g)|
    requires forall g :: 0 <= g < |groups| ==>
        groups'[g].freeBlocksCount == groups[g].freeBlocksCount + (if g != geo.GroupOf(b) then 0 else if b in free then -1 else 1)
    ensures |free'| == |free| + if b in free then -1 else 1
    ensures forall g :: 0 <= g < |groups| ==> groups'[g].freeBlocksCount == |InGroup(geo, free', g)|
  {
    forall g | 0 <= g < |groups|
      ensures groups'[g].freeBlocksCount == |InGroup(geo, free', g)|
    {
      if g != geo.GroupOf(b) {
        assert InGroup(geo, free', g) == InGroup(geo, free, g);
      } else if b in free {
        assert InGroup(geo, free', g) == InGroup(geo, free, g) - {b};
      } else {
        assert InGroup(geo, free', g) == InGroup(geo, free, g) + {b};
      }
    }
  }

  /** Bitmap bit, group count and superblock count move together when block b is taken or released. */
  lemma FlipConsistently(geo: Geometry, bitmaps: set<nat>, disk: seq<Block>, groups: seq<GroupDesc>, superFree: int, b: nat,
                         disk': seq<Block>, groups': seq<GroupDesc>, superFree': int)
    requires Consistent(geo, bitmaps, disk, groups, superFree)
    requires b != 0 && b !in bitmaps && geo.firstDataBlock <= b < geo.totalBlocks
    requires Flipped(geo, disk, groups, b, disk', groups')
    requires superFree' == superFree + if IsFree(geo, disk, groups, b) then -1 else 1
    ensures Consistent(geo, bitmaps, disk', groups', superFree')
    ensures FreeBlocks(geo, disk', groups')
         == if IsFree(geo, disk, groups, b) then FreeBlocks(geo, disk, groups) - {b} else FreeBlocks(geo, disk, groups) + {b}
  {
    FlipBit(geo, disk, groups, b, disk', groups');
    Retally(geo, FreeBlocks(geo, disk, groups), FreeBlocks(geo, disk', groups'), b, groups, groups');
  }

  /** Releasing what was just taken restores every bitmap byte and every count. */
  lemma FreeInvertsAllocate(geo: Geometry, disk: seq<Block>, groups: seq<GroupDesc>, b: nat,
                            disk1: seq<Block>, groups1: seq<GroupDesc>, disk2: seq<Block>, groups2: seq<GroupDesc>)
    requires Shape(geo, disk, groups) && geo.firstDataBlock <= b < geo.totalBlocks && IsFree(geo, disk, groups, b)
    requires Flipped(geo, disk, groups, b, disk1, groups1)
    requires Shape(geo, disk1, groups1) && Flipped(geo, disk1, groups1, b, disk2, groups2)
    ensures disk2 == disk && groups2 == groups
  {
    geo.Coordinates(b);
    var bm, i := groups[geo.GroupOf(b)].blockBitmap, geo.IndexOf(b);
    var x := disk[bm][i / 8];
    SetBitMeaning(x, i % 8, 8);
    assert ClearBit(SetBit(x, i % 8), i % 8) == x;
    assert BitmapClear(BitmapSet(disk[bm], i), i) == disk[bm];
    forall g | 0 <= g < |groups| ensures groups2[g] == groups[g] {}
  }

  function SumOfCounts(groups: seq<GroupDesc>): nat {
    if groups == [] then 0 else SumOfCounts(groups[..|groups| - 1]) + groups[|groups| - 1].freeBlocksCount
  }

  /** The superblock's total is the sum of the group descriptors' counts. */
  lemma SuperblockIsSumOfGroups(geo: Geometry, bitmaps: set<nat>, disk: seq<Block>, groups: seq<GroupDesc>, superFree: int)
    requires Consistent(geo, bitmaps, disk, groups, superFree)
    ensures superFree == SumOfCounts(groups)
  {
    var free := FreeBlocks(geo, disk, groups);
    forall b | b in free ensures geo.GroupOf(b) < |groups| { geo.Coordinates(b); }
    SumBelow(geo, free, groups, |groups|);
    assert groups[..|groups|] == groups;
    assert (set b | b in free && geo.GroupOf(b) < |groups|) == free;
  }

  lemma {:induction false} SumBelow(geo: Geometry, free: set<nat>, groups: seq<GroupDesc>, n: nat)
    requires geo.Wf() && (forall c :: c in free ==> geo.firstDataBlock <= c) && n <= |groups|
    requires forall g :: 0 <= g < |groups| ==> groups[g].freeBlocksCount == |InGroup(geo, free, g)|
    ensures SumOfCounts(groups[..n]) == |set b | b in free && geo.GroupOf(b) < n|
  {
    if n > 0 {
      SumBelow(geo, free, groups, n - 1);
      assert groups[..n][..n - 1] == groups[..n - 1];
      var below := set b | b in free && geo.GroupOf(b) < n - 1;
      assert (set b | b in free && geo.GroupOf(b) < n) == below + InGroup(geo, free, n - 1);
      assert below !! InGroup(geo, free, n - 1);
    }
  }

  // ---------------------------------------------------------------- runs

  /** What a mounted volume keeps: the disk's blocks, the descriptors and the superblock's count. */
  datatype Image = Image(disk: seq<Block>, groups: seq<GroupDesc>, superFree: int)

  datatype Op = Allocate | Release(b: nat) | Write(b: nat, data: Block)

  ghost predicate Good(geo: Geometry, bitmaps: set<nat>, v: Image) {
    Consistent(geo, bitmaps, v.disk, v.groups, v.superFree)
  }

  ghost function Free(geo: Geometry, v: Image): set<nat>
    requires Shape(geo, v.disk, v.groups)
  {
    FreeBlocks(geo, v.disk, v.groups)
  }

  /** One call, with the block number returned: the lowest free block, 0 for none, or 0 for a call that hands out nothing. */
  ghost predicate Call(geo: Geometry, bitmaps: set<nat>, v: Image, op: Op, r: nat, v': Image) {
    && Good(geo, bitmaps, v)
    && match op
       case Allocate =>
         if r == 0 then Free(geo, v) == {} && v' == v
         else r in Free(geo, v) && (forall b :: b in Free(geo, v) ==> r <= b) && Moved(geo, v, r, -1, v')
       case Release(b) =>
         && r == 0 && b != 0 && b !in bitmaps
         && if geo.firstDataBlock <= b < geo.totalBlocks && b !in Free(geo, v) then Moved(geo, v, b, 1, v') else v' == v
       case Write(b, data) =>
         r == 0 && b < geo.totalBlocks && b !in bitmaps && |data| == geo.blockSize && v' == v.(disk := v.disk[b := data])
  }

  /** Bit, group count and superblock count moved for block b. */
  ghost predicate Moved(geo: Geometry, v: Image, b: nat, step: int, v': Image)
    requires Shape(geo, v.disk, v.groups)
  {
    && geo.firstDataBlock <= b < geo.totalBlocks && Flipped(geo, v.disk, v.groups, b, v'.disk, v'.groups)
    && v'.superFree == v.superFree + step
  }

  lemma DataWritten(geo: Geometry, bitmaps: set<nat>, v: Image, b: nat, data: Block)
    requires Good(geo, bitmaps, v) && b < geo.totalBlocks && b !in bitmaps && |data| == geo.blockSize
    ensures var v' := v.(disk := v.disk[b := data]); Good(geo, bitmaps, v') && Free(geo, v') == Free(geo, v)
  {
    var disk' := v.disk[b := data];
    forall c | 0 <= c < |v.groups| ensures disk'[v.groups[c].blockBitmap] == v.disk[v.groups[c].blockBitmap] {}
    forall c: nat | geo.firstDataBlock <= c < geo.totalBlocks
      ensures IsFree(geo, disk', v.groups, c) == IsFree(geo, v.disk, v.groups, c)
    {
      geo.Coordinates(c);
    }
    assert FreeBlocks(geo, disk', v.groups) == FreeBlocks(geo, v.disk, v.groups);
  }

  /** Every call keeps the volume consistent; only a hand-out takes a block out of the free set, and only a release puts one in. */
  lemma CallKept(geo: Geometry, bitmaps: set<nat>, v: Image, op: Op, r: nat, v': Image)
    requires Call(geo, bitmaps, v, op, r, v')
    ensures Good(geo, bitmaps, v')
    ensures Free(geo, v') == match op
                             case Allocate => Free(geo, v) - {r}
                             case Release(b) => if geo.firstDataBlock <= b < geo.totalBlocks then Free(geo, v) + {b} else Free(geo, v)
                             case Write(_, _) => Free(geo, v)
  {
    hide Consistent;
    GoodParts(geo, bitmaps, v);
    match op
    case Allocate =>
      if r != 0 {
        FlipConsistently(geo, bitmaps, v.disk, v.groups, v.superFree, r, v'.disk, v'.groups, v'.superFree);
      }
    case Release(b) =>
      if geo.firstDataBlock <= b < geo.totalBlocks && b !in Free(geo, v) {
        FlipConsistently(geo, bitmaps, v.disk, v.groups, v.superFree, b, v'.disk, v'.groups, v'.superFree);
      }
    case Write(b, data) => DataWritten(geo, bitmaps, v, b, data);
  }

  lemma GoodParts(geo: Geometry, bitmaps: set<nat>, v: Image)
    requires Good(geo, bitmaps, v)
    ensures Shape(geo, v.disk, v.groups) && 0 !in Free(geo, v) && Free(geo, v) !! bitmaps
  {
  }

  datatype Moment = Moment(v: Image, op: Op, r: nat)

  /** Successive calls: each moment holds the volume before its call, the call and what it returned. */
  ghost predicate IsRun(geo: Geometry, bitmaps: set<nat>, run: seq<Moment>) {
    forall k :: 0 <= k < |run| - 1 ==> Call(geo, bitmaps, run[k].v, run[k].op, run[k].r, run[k + 1].v)
  }

  /** A block in use stays in use until it is released. */
  lemma {:induction false} UsedUntilReleased(geo: Geometry, bitmaps: set<nat>, run: seq<Moment>, a: nat, c: nat, b: nat)
    requires IsRun(geo, bitmaps, run) && a <= c < |run| && Good(geo, bitmaps, run[a].v) && b !in Free(geo, run[a].v)
    requires forall k :: a <= k < c ==> run[k].op != Release(b)
    ensures Good(geo, bitmaps, run[c].v) && b !in Free(geo, run[c].v)
    decreases c
  {
    hide Good, Free, Call;
    if a < c {
      UsedUntilReleased(geo, bitmaps, run, a, c - 1, b);
      CallKept(geo, bitmaps, run[c - 1].v, run[c - 1].op, run[c - 1].r, run[c].v);
    }
  }

  /** Between two hand-outs of the same block lies a call that releases it. */
  lemma NeverTwice(geo: Geometry, bitmaps: set<nat>, run: seq<Moment>, a: nat, c: nat, b: nat)
    requires IsRun(geo, bitmaps, run) && a < c < |run| - 1
    requires run[a].op == run[c].op == Allocate && run[a].r == run[c].r == b && b != 0
    ensures exists k :: a < k < c && run[k].op == Release(b)
  {
    hide Good, Free;
    assert Call(geo, bitmaps, run[a].v, run[a].op, run[a].r, run[a + 1].v);
    assert Call(geo, bitmaps, run[c].v, run[c].op, run[c].r, run[c + 1].v);
    CallKept(geo, bitmaps, run[a].v, run[a].op, run[a].r, run[a + 1].v);
    if forall k :: a < k < c ==> run[k].op != Release(b) {
      UsedUntilReleased(geo, bitmaps, run, a + 1, c, b);
    }
  }

  /** A mounted volume: the disk's blocks with the descriptor table and superblock decoded. */
  class Volume {
    const geo: Geometry
    ghost const bitmaps: set<nat>
    var disk: seq<Block>
    var groups: seq<GroupDesc>
    var superFree: int

    constructor (geo: Geometry, ghost bitmaps: set<nat>, disk: seq<Block>, groups: seq<GroupDesc>, superFree: int)
      requires Consistent(geo, bitmaps, disk, groups, superFree)
      ensures Valid() && this.geo == geo && this.bitmaps == bitmaps && this.disk == disk && this.groups == groups && this.superFree == superFree
    {
      this.geo, this.disk, this.groups, this.superFree := geo, disk, groups, superFree;
      this.bitmaps := bitmaps;
    }

    ghost predicate Valid()
      reads this
    {
      Consistent(geo, bitmaps, disk, groups, superFree)
    }

    ghost function Now(): Image
      reads this
    {
      Image(disk, groups, superFree)
    }

    ghost function Free(): set<nat>
      requires Valid()
      reads this
    {
      FreeBlocks(geo, disk, groups)
    }

    /** `write_block` */
    method WriteBlock(b: nat, data: Block)
      requires Valid() && b < geo.totalBlocks && b !in bitmaps && |data| == geo.blockSize
      modifies this
      ensures Valid() && disk == old(disk)[b := data]
      ensures Call(geo, bitmaps, old(Now()), Write(b, data), 0, Now())
      ensures groups == old(groups) && superFree == old(superFree) && Free() == old(Free())
    {
      DataWritten(geo, bitmaps, Now(), b, data);
      disk := disk[b := data];
    }

    /** The in-group scan of `allocate_block`. */
    static method FirstClearBit(bitmap: Block, count: nat) returns (i: nat)
      requires count <= 8 * |bitmap|
      ensures i <= count && forall j: nat :: j < i ==> BitmapTest(bitmap, j)
      ensures i < count ==> !BitmapTest(bitmap, i)
    {
      i := 0;
      while i < count && BitmapTest(bitmap, i)
        invariant i <= count && forall j: nat :: j < i ==> BitmapTest(bitmap, j)
      {
        i := i + 1;
      }
    }

    /** The marking half of `allocate_block`: bit, descriptor, superblock. */
    method Take(group: nat, i: nat) returns (r: nat)
      requires Valid() && group < |groups| && i < geo.blocksPerGroup && geo.BlockOf(group, i) in Free()
      modifies this
      ensures Valid()
      ensures r == geo.BlockOf(group, i) && Free() == old(Free()) - {r}
      ensures Flipped(geo, old(disk), old(groups), r, disk, groups) && superFree == old(superFree) - 1
      ensures forall b :: 0 <= b < geo.totalBlocks && b !in bitmaps ==> disk[b] == old(disk[b])
    {
      r := geo.BlockOf(group, i);
      geo.BlockCoordinates(group, i);
      var bgDesc := groups[group];
      assert r in InGroup(geo, Free(), group);
      disk := disk[bgDesc.blockBitmap := BitmapSet(disk[bgDesc.blockBitmap], i)];
      groups := groups[group := bgDesc.(freeBlocksCount := bgDesc.freeBlocksCount - 1)];
      superFree := superFree - 1;
      FlipConsistently(geo, bitmaps, old(disk), old(groups), old(superFree), r, disk, groups, superFree);
    }

    method AllocateBlock() returns (r: nat)
      requires Valid()
      modifies this
      ensures Valid() && Call(geo, bitmaps, old(Now()), Allocate, r, Now())
      ensures r == 0 ==> old(Free()) == {} && disk == old(disk) && groups == old(groups) && superFree == old(superFree)
      ensures r != 0 ==> r in old(Free()) && forall b :: b in old(Free()) ==> r <= b
      ensures r != 0 ==> Flipped(geo, old(disk), old(groups), r, disk, groups) && superFree == old(superFree) - 1
      ensures Free() == old(Free()) - {r}
      ensures forall b :: 0 <= b < geo.totalBlocks && b !in bitmaps ==> disk[b] == old(disk[b])
    {
      hide Flipped, CountsAgree;
      var group := 0;
      while group < geo.GroupsCount()
        invariant group <= |groups| && disk == old(disk) && groups == old(groups) && superFree == old(superFree)
        invariant forall b :: b in Free() ==> group <= geo.GroupOf(b)
      {
        var bgDesc := groups[group];
        if bgDesc.freeBlocksCount != 0 {
          var bitmap := disk[bgDesc.blockBitmap];
          geo.GroupRange(group);
          var i := FirstClearBit(bitmap, geo.BlocksInGroup(group));
          if i < geo.BlocksInGroup(group) {
            FirstClearBitIsLeast(group, i);
            r := Take(group, i);
            return;
          }
        }
        NoneFreeIn(group);
        group := group + 1;
      }
      NoneFree();
      r := 0;
    }

    lemma NoneFreeIn(group: nat)
      requires Valid() && group < |groups|
      requires groups[group].freeBlocksCount == 0
            || forall j: nat :: j < geo.BlocksInGroup(group) <= geo.blocksPerGroup ==> BitmapTest(disk[groups[group].blockBitmap], j)
      ensures forall b :: b in Free() ==> geo.GroupOf(b) != group
    {
      forall b | b in Free()
        ensures geo.GroupOf(b) != group
      {
        geo.Coordinates(b);
        assert b in InGroup(geo, Free(), geo.GroupOf(b));
      }
    }

    lemma NoneFree()
      requires Valid() && forall b :: b in Free() ==> |groups| <= geo.GroupOf(b)
      ensures Free() == {}
    {
      forall b | b in Free()
        ensures false
      {
        geo.Coordinates(b);
      }
    }

    /** The scan stops at the lowest-numbered free block. */
    lemma FirstClearBitIsLeast(group: nat, i: nat)
      requires Valid() && group < |groups| && i < geo.BlocksInGroup(group) <= geo.blocksPerGroup
      requires groups[group].freeBlocksCount != 0
      requires forall b :: b in Free() ==> group <= geo.GroupOf(b)
      requires var bitmap := disk[groups[group].blockBitmap];
        !BitmapTest(bitmap, i) && forall j: nat :: j < i ==> BitmapTest(bitmap, j)
      ensures geo.BlockOf(group, i) in Free()
      ensures forall b :: b in Free() ==> geo.BlockOf(group, i) <= b
    {
      geo.BlockCoordinates(group, i);
      forall b | b in Free()
        ensures geo.BlockOf(group, i) <= b
      {
        geo.Coordinates(b);
        geo.ScanOrder(group, i, geo.GroupOf(b), geo.IndexOf(b));
      }
      assert InGroup(geo, Free(), group) != {};
      var witnessBlock :| witnessBlock in InGroup(geo, Free(), group);
    }

    /** Returns false where the source returns -1.  Freeing a free block changes nothing. */
    method FreeBlock(b: nat) returns (ok: bool)
      requires Valid() && b != 0 && b !in bitmaps
      modifies this
      ensures Valid() && Call(geo, bitmaps, old(Now()), Release(b), 0, Now())
      ensures ok <==> geo.firstDataBlock <= b < geo.totalBlocks
      ensures !ok || b in old(Free()) ==> disk == old(disk) && groups == old(groups) && superFree == old(superFree)
      ensures ok && b !in old(Free()) ==>
          Flipped(geo, old(disk), old(groups), b, disk, groups) && superFree == old(superFree) + 1
      ensures Free() == if ok then old(Free()) + {b} else old(Free())
      ensures forall c :: 0 <= c < geo.totalBlocks && c !in bitmaps ==> disk[c] == old(disk[c])
    {
      if b < geo.firstDataBlock || b >= geo.totalBlocks {
        return false;
      }
      geo.Coordinates(b);
      var group, index := geo.GroupOf(b), geo.IndexOf(b);
      var bgDesc := groups[group];
      var bitmap := disk[bgDesc.blockBitmap];
      if !BitmapTest(bitmap, index) {
        return true;
      }
      disk := disk[bgDesc.blockBitmap := BitmapClear(bitmap, index)];
      groups := groups[group := bgDesc.(freeBlocksCount := bgDesc.freeBlocksCount + 1)];
      superFree := superFree + 1;
      FlipConsistently(geo, bitmaps, old(disk), old(groups), old(superFree), b, disk, groups, superFree);
      return true;
    }
  }
}

/**
 Byte-level files over the block-pointer map and the allocator.
 */
module Ext2File {
  import opened Arith
  import opened Bytes
  import opened Ext2Volume
  import opened Ext2Pointers

  /** `count_blocks_needed` */
  function BlocksNeeded(bs: nat, size: nat): nat
    requires bs > 0
  {
    (size + bs - 1) / bs
  }

  /** `pos / block_size` */
  function BlockIdx(bs: nat, x: nat): nat
    requires bs > 0
  {
    x / bs
  }

  /** `pos % block_size` */
  function Offset(bs: nat, x: nat): (r: nat)
    requires bs > 0
    ensures r < bs
  {
    x % bs
  }

  /** A byte lies in one block at one offset, and the blocks needed are those of the bytes below the size. */
  lemma BlocksCover(bs: nat, size: nat, x: nat)
    requires bs > 0
    ensures x == BlockIdx(bs, x) * bs + Offset(bs, x)
    ensures x < size ==> BlockIdx(bs, x) < BlocksNeeded(bs, size)
    ensures BlockIdx(bs, x) < BlocksNeeded(bs, size) ==> (BlockIdx(bs, x)) * bs < size
  {
    DivMod(size + bs - 1, bs);
    DivMod(x, bs);
    if x < size && BlockIdx(bs, x) >= BlocksNeeded(bs, size) {
      MulMonotone(BlocksNeeded(bs, size), BlockIdx(bs, x), bs);
    }
    if BlockIdx(bs, x) < BlocksNeeded(bs, size) {
      MulMonotone(BlockIdx(bs, x) + 1, BlocksNeeded(bs, size), bs);
    }
  }

  lemma BlocksMonotone(bs: nat, a: nat, b: nat)
    requires bs > 0 && a <= b
    ensures BlocksNeeded(bs, a) <= BlocksNeeded(bs, b)
  {
    DivMod(a + bs - 1, bs);
    DivMod(b + bs - 1, bs);
    if BlocksNeeded(bs, b) < BlocksNeeded(bs, a) {
      MulMonotone(BlocksNeeded(bs, b) + 1, BlocksNeeded(bs, a), bs);
    }
  }

  /** The data blocks behind the first n logical indices. */
  ghost function Data(p: nat, s: Snapshot, n: nat): set<nat>
    requires p > 0 && |s.ib| == 15
  {
    set i: nat | i < n :: Ptr(p, s.disk, s.ib, i) as nat
  }

  /** Every block that belongs to a file of n blocks. */
  ghost function Owned(p: nat, s: Snapshot, n: nat): set<nat>
    requires p > 0 && |s.ib| == 15
  {
    Tables(p, s.disk, s.ib) + Data(p, s, n)
  }

  /** Nobody else's block stands behind logical index i. */
  ghost predicate OwnBlock(p: nat, bitmaps: set<nat>, s: Snapshot, b: nat)
    requires p > 0 && |s.ib| == 15
  {
    0 < b < |s.disk| && b !in s.free && b !in bitmaps && b !in Tables(p, s.disk, s.ib)
  }

  /** The first n logical indices have distinct data blocks of their own: no holes, no sharing. */
  ghost predicate FileSound(p: nat, bitmaps: set<nat>, s: Snapshot, n: nat) {
    && p > 0 && |s.ib| == 15 && Sound(p, bitmaps, s)
    && (forall i: nat :: i < n ==> OwnBlock(p, bitmaps, s, Ptr(p, s.disk, s.ib, i)))
    && (forall i: nat, j: nat :: i < j < n ==> Ptr(p, s.disk, s.ib, i) != Ptr(p, s.disk, s.ib, j))
  }

  /** A step of one file: blocks move between the free set and the file, and nothing else is touched. */
  ghost predicate Evolved(p: nat, bitmaps: set<nat>, s: Snapshot, n: nat, s': Snapshot, n': nat) {
    && p > 0 && |s.ib| == 15 && FileSound(p, bitmaps, s', n')
    && Owned(p, s, n) <= Owned(p, s', n') <= Owned(p, s, n) + s.free
    && s'.free == s.free - (Owned(p, s', n') - Owned(p, s, n))
    && |s'.disk| == |s.disk|
    && forall b :: 0 <= b < |s.disk| && b !in Owned(p, s', n') && b !in bitmaps ==> s'.disk[b] == s.disk[b]
  }

  /** Only bitmap blocks changed on the disk, and the free set. */
  ghost predicate OnlyBitmaps(bitmaps: set<nat>, disk: seq<Block>, disk': seq<Block>) {
    && |disk'| == |disk|
    && (forall b :: 0 <= b < |disk| ==> |disk'[b]| == |disk[b]|)
    && forall b :: 0 <= b < |disk| && b !in bitmaps ==> disk'[b] == disk[b]
  }

  lemma SameData(p: nat, s: Snapshot, s': Snapshot, n: nat)
    requires p > 0 && |s.ib| == 15 && |s'.ib| == 15
    requires forall i: nat :: i < n ==> Ptr(p, s'.disk, s'.ib, i) == Ptr(p, s.disk, s.ib, i)
    ensures Data(p, s', n) == Data(p, s, n)
  {
    forall b | b in Data(p, s, n)
      ensures b in Data(p, s', n)
    {
      var i: nat :| i < n && Ptr(p, s.disk, s.ib, i) == b;
      assert Ptr(p, s'.disk, s'.ib, i) == b;
    }
    forall b | b in Data(p, s', n)
      ensures b in Data(p, s, n)
    {
      var i: nat :| i < n && Ptr(p, s'.disk, s'.ib, i) == b;
      assert Ptr(p, s.disk, s.ib, i) == b;
    }
  }

  /** Allocator traffic leaves the file's map alone. */
  lemma MapSurvives(p: nat, bitmaps: set<nat>, s: Snapshot, s': Snapshot)
    requires p > 0 && |s.ib| == 15 && Sound(p, bitmaps, s) && OnlyBitmaps(bitmaps, s.disk, s'.disk) && s'.ib == s.ib
    requires s'.free !! Tables(p, s.disk, s.ib)
    ensures Sound(p, bitmaps, s') && Tables(p, s'.disk, s'.ib) == Tables(p, s.disk, s.ib)
    ensures forall i: nat :: Ptr(p, s'.disk, s'.ib, i) == Ptr(p, s.disk, s.ib, i)
  {
    MapDependsOnTables(p, s.disk, s'.disk, s.ib);
  }

  /** ws are distinct blocks, in use in `free'` and free in `free`; the two sets agree otherwise. */
  ghost predicate Taken(free: set<nat>, ws: seq<word>, free': set<nat>) {
    && (forall k :: 0 <= k < |ws| ==> 0 != ws[k] && ws[k] as nat in free)
    && (forall k, l :: 0 <= k < l < |ws| ==> ws[k] != ws[l])
    && (forall b: nat :: b in free' <==> b in free && b !in ws)
  }

  lemma FreeRange(vol: Volume)
    requires vol.Valid()
    ensures forall b :: b in vol.Free() ==>
        0 != b < vol.geo.totalBlocks < 0x1_0000_0000 && vol.geo.firstDataBlock <= b && b !in vol.bitmaps
    ensures |vol.disk| == vol.geo.totalBlocks && forall b :: 0 <= b < |vol.disk| ==> |vol.disk[b]| == vol.geo.blockSize
  {
  }

  /** The allocation loop of `ensure_blocks_allocated`, with its rollback. */
  method AllocateBlocks(vol: Volume, count: nat) returns (ok: bool, blocks: seq<word>)
    requires vol.Valid()
    modifies vol
    ensures vol.Valid() && OnlyBitmaps(vol.bitmaps, old(vol.disk), vol.disk)
    ensures ok ==> |blocks| == count && Taken(old(vol.Free()), blocks, vol.Free()) && |vol.Free()| == |old(vol.Free())| - count
    ensures !ok ==> vol.Free() == old(vol.Free()) && |old(vol.Free())| < count
  {
    hide Consistent, Flipped, FreeBlocks, Taken;
    FreeRange(vol);
    ghost var free := vol.Free();
    TakenNone(free);
    blocks := [];
    while |blocks| < count
      invariant |blocks| <= count && vol.Valid() && OnlyBitmaps(vol.bitmaps, old(vol.disk), vol.disk)
      invariant Taken(free, blocks, vol.Free()) && |vol.Free()| == |free| - |blocks|
    {
      ghost var now := vol.Free();
      var b := vol.AllocateBlock();
      TakenFrom(free, blocks, now, vol.geo, vol.bitmaps);
      if b == 0 {
        ReleaseBlocks(vol, blocks);
        TakenBack(free, blocks, now, vol.Free());
        return false, blocks;
      }
      TakenMore(free, blocks, now, b);
      FreeRange(vol);
      blocks := blocks + [b];
    }
    ok := true;
  }

  lemma TakenNone(free: set<nat>)
    ensures Taken(free, [], free)
  {
  }

  lemma TakenMore(free: set<nat>, ws: seq<word>, now: set<nat>, b: nat)
    requires Taken(free, ws, now) && b in now && 0 != b < 0x1_0000_0000
    ensures Taken(free, ws + [b], now - {b}) && |now - {b}| == |now| - 1
  {
  }

  lemma TakenBack(free: set<nat>, ws: seq<word>, now: set<nat>, back: set<nat>)
    requires Taken(free, ws, now) && forall b: nat :: b in back <==> b in now || b in ws
    ensures back == free
  {
    forall b | b in back
      ensures b in free
    {
    }
  }

  lemma TakenFrom(free: set<nat>, ws: seq<word>, now: set<nat>, geo: Geometry, bitmaps: set<nat>)
    requires Taken(free, ws, now) && forall b :: b in free ==> 0 != b < geo.totalBlocks < 0x1_0000_0000 && geo.firstDataBlock <= b && b !in bitmaps
    ensures forall k :: 0 <= k < |ws| ==> 0 != ws[k] < geo.totalBlocks && geo.firstDataBlock <= ws[k] && ws[k] as nat !in bitmaps
    ensures forall b :: b in now ==> 0 != b < 0x1_0000_0000
  {
  }

  method ReleaseBlocks(vol: Volume, blocks: seq<word>)
    requires vol.Valid() && forall k :: 0 <= k < |blocks| ==> 0 != blocks[k] < vol.geo.totalBlocks && blocks[k] as nat !in vol.bitmaps
    requires forall k :: 0 <= k < |blocks| ==> vol.geo.firstDataBlock <= blocks[k]
    modifies vol
    ensures vol.Valid() && OnlyBitmaps(vol.bitmaps, old(vol.disk), vol.disk)
    ensures forall b: nat :: b in vol.Free() <==> b in old(vol.Free()) || b in blocks
  {
    hide Consistent, Flipped, FreeBlocks;
    FreeRange(vol);
    for j := 0 to |blocks|
      invariant vol.Valid() && OnlyBitmaps(vol.bitmaps, old(vol.disk), vol.disk) && |vol.disk| == vol.geo.totalBlocks
      invariant forall b: nat :: b in vol.Free() <==> b in old(vol.Free()) || b in blocks[..j]
    {
      var _ := vol.FreeBlock(blocks[j]);
      FreeRange(vol);
    }
    assert blocks[..|blocks|] == blocks;
  }

  /** The free set only names blocks that can hold data. */
  ghost predicate FreeUsable(bitmaps: set<nat>, s: Snapshot) {
    forall b :: b in s.free ==> 0 < b < |s.disk| && b !in bitmaps
  }

  /** The first n pointers read the same before and after. */
  ghost predicate SamePointers(p: nat, s: Snapshot, s': Snapshot, n: nat) {
    && p > 0 && |s.ib| == 15 && |s'.ib| == 15
    && forall i: nat :: i < n ==> Ptr(p, s'.disk, s'.ib, i) == Ptr(p, s.disk, s.ib, i)
  }

  /** The data blocks behind the first n pointers hold what they held. */
  ghost predicate SameBlocks(p: nat, s: Snapshot, s': Snapshot, n: nat)
    requires p > 0 && |s.ib| == 15
  {
    forall i: nat :: i < n ==> var b := Ptr(p, s.disk, s.ib, i); b < |s.disk| && b < |s'.disk| && s'.disk[b] == s.disk[b]
  }

  /** Allocating data blocks and then writing all their pointers extends the file by those blocks. */
  lemma Extended(p: nat, bitmaps: set<nat>, s0: Snapshot, n: nat, ws: seq<word>, s1: Snapshot, s2: Snapshot)
    requires FileSound(p, bitmaps, s0, n) && FreeUsable(bitmaps, s0)
    requires OnlyBitmaps(bitmaps, s0.disk, s1.disk) && s1.ib == s0.ib && Taken(s0.free, ws, s1.free)
    requires Wrote(p, bitmaps, s1, s2, n, ws)
    ensures Evolved(p, bitmaps, s0, n, s2, n + |ws|) && SamePointers(p, s0, s2, n) && SameBlocks(p, s0, s2, n)
  {
    MapSurvives(p, bitmaps, s0, s1);
    forall i: nat | i < n + |ws|
      ensures OwnBlock(p, bitmaps, s2, Ptr(p, s2.disk, s2.ib, i))
    {
      ExtendedPointer(p, bitmaps, s0, n, ws, s1, s2, i);
    }
    ExtendedDistinct(p, bitmaps, s0, n, ws, s1, s2);
    forall i: nat | i < n ensures OwnBlock(p, bitmaps, s0, Ptr(p, s0.disk, s0.ib, i)) {}
    ExtendedData(p, s0, n, ws, s2);
  }

  lemma ExtendedPointer(p: nat, bitmaps: set<nat>, s0: Snapshot, n: nat, ws: seq<word>, s1: Snapshot, s2: Snapshot, i: nat)
    requires FileSound(p, bitmaps, s0, n) && FreeUsable(bitmaps, s0)
    requires OnlyBitmaps(bitmaps, s0.disk, s1.disk) && s1.ib == s0.ib && Taken(s0.free, ws, s1.free)
    requires Wrote(p, bitmaps, s1, s2, n, ws) && i < n + |ws|
    requires Tables(p, s1.disk, s1.ib) == Tables(p, s0.disk, s0.ib)
    requires forall i: nat :: Ptr(p, s1.disk, s1.ib, i) == Ptr(p, s0.disk, s0.ib, i)
    ensures OwnBlock(p, bitmaps, s2, Ptr(p, s2.disk, s2.ib, i))
    ensures Ptr(p, s2.disk, s2.ib, i) == if i < n then Ptr(p, s0.disk, s0.ib, i) else ws[i - n]
    ensures i < n ==> Ptr(p, s0.disk, s0.ib, i) as nat !in s0.free
  {
    if i < n {
      assert OwnBlock(p, bitmaps, s0, Ptr(p, s0.disk, s0.ib, i));
    } else {
      assert ws[i - n] in ws;
    }
  }

  lemma ExtendedDistinct(p: nat, bitmaps: set<nat>, s0: Snapshot, n: nat, ws: seq<word>, s1: Snapshot, s2: Snapshot)
    requires FileSound(p, bitmaps, s0, n) && FreeUsable(bitmaps, s0)
    requires OnlyBitmaps(bitmaps, s0.disk, s1.disk) && s1.ib == s0.ib && Taken(s0.free, ws, s1.free)
    requires Wrote(p, bitmaps, s1, s2, n, ws)
    requires Tables(p, s1.disk, s1.ib) == Tables(p, s0.disk, s0.ib)
    requires forall i: nat :: Ptr(p, s1.disk, s1.ib, i) == Ptr(p, s0.disk, s0.ib, i)
    ensures forall i: nat, j: nat :: i < j < n + |ws| ==> Ptr(p, s2.disk, s2.ib, i) != Ptr(p, s2.disk, s2.ib, j)
    ensures SamePointers(p, s0, s2, n)
    ensures forall i: nat :: n <= i < n + |ws| ==> Ptr(p, s2.disk, s2.ib, i) == ws[i - n]
  {
    forall i: nat | i < n + |ws|
      ensures Ptr(p, s2.disk, s2.ib, i) == if i < n then Ptr(p, s0.disk, s0.ib, i) else ws[i - n]
      ensures i < n ==> Ptr(p, s0.disk, s0.ib, i) as nat !in s0.free
    {
      ExtendedPointer(p, bitmaps, s0, n, ws, s1, s2, i);
    }
  }

  lemma ExtendedData(p: nat, s0: Snapshot, n: nat, ws: seq<word>, s2: Snapshot)
    requires SamePointers(p, s0, s2, n)
    requires forall i: nat :: n <= i < n + |ws| ==> Ptr(p, s2.disk, s2.ib, i) == ws[i - n]
    ensures forall b: nat :: b in Data(p, s2, n + |ws|) <==> b in Data(p, s0, n) || b in ws
  {
    SameData(p, s0, s2, n);
    forall b: nat | b in ws
      ensures b in Data(p, s2, n + |ws|)
    {
      var k :| 0 <= k < |ws| && ws[k] == b;
      assert Ptr(p, s2.disk, s2.ib, n + k) == b;
    }
    forall b: nat | b in Data(p, s0, n)
      ensures b in Data(p, s2, n + |ws|)
    {
      var i: nat :| i < n && Ptr(p, s0.disk, s0.ib, i) == b;
      assert Ptr(p, s2.disk, s2.ib, i) == b;
    }
  }

  /** Allocating, writing some pointers beyond the end, and giving the blocks back leaves the file as it was. */
  lemma RolledBack(p: nat, bitmaps: set<nat>, s0: Snapshot, n: nat, ws: seq<word>, m: nat, s1: Snapshot, s2: Snapshot, s3: Snapshot)
    requires FileSound(p, bitmaps, s0, n) && FreeUsable(bitmaps, s0) && m <= |ws|
    requires OnlyBitmaps(bitmaps, s0.disk, s1.disk) && s1.ib == s0.ib && Taken(s0.free, ws, s1.free)
    requires Wrote(p, bitmaps, s1, s2, n, ws[..m])
    requires OnlyBitmaps(bitmaps, s2.disk, s3.disk) && s3.ib == s2.ib
    requires forall b: nat :: b in s3.free <==> b in s2.free || b in ws
    ensures Evolved(p, bitmaps, s0, n, s3, n) && SamePointers(p, s0, s3, n) && SameBlocks(p, s0, s3, n)
  {
    MapSurvives(p, bitmaps, s0, s1);
    assert s3.free !! Tables(p, s2.disk, s2.ib);
    MapSurvives(p, bitmaps, s2, s3);
    forall i: nat | i < n
      ensures Ptr(p, s3.disk, s3.ib, i) == Ptr(p, s0.disk, s0.ib, i)
      ensures OwnBlock(p, bitmaps, s3, Ptr(p, s3.disk, s3.ib, i))
    {
      assert OwnBlock(p, bitmaps, s0, Ptr(p, s0.disk, s0.ib, i));
    }
    SameData(p, s0, s3, n);
  }

  function Blocks(vol: Volume, inode: Inode): nat
    requires vol.geo.Wf()
    reads inode
  {
    BlocksNeeded(vol.geo.blockSize, inode.size)
  }

  /** The file invariant: allocator, pointer tables and data blocks are all in order. */
  ghost predicate FileOk(vol: Volume, inode: Inode)
    reads vol, inode
  {
    vol.Valid() && FileSound(vol.geo.Ptrs(), vol.bitmaps, Snap(vol, inode), Blocks(vol, inode))
  }

  lemma UsableNow(vol: Volume, inode: Inode)
    requires vol.Valid()
    ensures FreeUsable(vol.bitmaps, Snap(vol, inode))
  {
  }

  /** The blocks a file takes to grow to the required number of data blocks: these and the pointer tables that are missing. */
  function Wanted(vol: Volume, inode: Inode, required: nat): nat
    requires vol.geo.Wf() && vol.geo.Ptrs() > 0 && |inode.block| == 15 && required > Blocks(vol, inode)
    reads vol, inode
  {
    var n := Blocks(vol, inode);
    required - n + Missing(vol.geo.Ptrs(), vol.disk, inode.block, n, required - n)
  }

  /** The growth lies within the reach of one pointer write, and that many blocks are free. */
  ghost predicate Room(vol: Volume, inode: Inode, required: nat)
    requires vol.Valid() && vol.geo.Wf() && vol.geo.Ptrs() > 0 && |inode.block| == 15 && required > Blocks(vol, inode)
    reads vol, inode
  {
    && required - Blocks(vol, inode) <= Capacity(vol.geo.Ptrs(), Blocks(vol, inode))
    && Wanted(vol, inode, required) <= |vol.Free()|
  }

  /** Taking data blocks does not change which tables are missing. */
  lemma MissingSurvives(p: nat, bitmaps: set<nat>, s0: Snapshot, n: nat, s1: Snapshot, count: nat)
    requires FileSound(p, bitmaps, s0, n) && OnlyBitmaps(bitmaps, s0.disk, s1.disk) && s1.ib == s0.ib
    ensures p > 0 && |s0.ib| == 15 && Missing(p, s1.disk, s1.ib, n, count) == Missing(p, s0.disk, s0.ib, n, count)
  {
    assert s0.ib[13] != 0 ==> s0.ib[13] as nat in Tables(p, s0.disk, s0.ib);
  }

  /** `ensure_blocks_allocated` for a file that has to grow */
  method EnsureBlocksAllocated(vol: Volume, inode: Inode, requiredBlocks: nat) returns (ok: bool)
    requires FileOk(vol, inode) && requiredBlocks > Blocks(vol, inode)
    modifies vol, inode`block
    ensures vol.Valid()
    ensures var n := Blocks(vol, inode); var n' := if ok then requiredBlocks else n;
      && Evolved(vol.geo.Ptrs(), vol.bitmaps, old(Snap(vol, inode)), n, Snap(vol, inode), n')
      && SamePointers(vol.geo.Ptrs(), old(Snap(vol, inode)), Snap(vol, inode), n)
      && SameBlocks(vol.geo.Ptrs(), old(Snap(vol, inode)), Snap(vol, inode), n)
    ensures ok <==> old(Room(vol, inode, requiredBlocks))
    ensures ok ==> |vol.Free()| == |old(vol.Free())| - old(Wanted(vol, inode, requiredBlocks))
  {
    hide Consistent, Wrote, Evolved, SamePointers, SameBlocks, Taken, OnlyBitmaps, FreeUsable, Sound, FreeBlocks, Missing, Capacity, FileSound,
         HungRoot, Call, HowFar, Flipped;
    ghost var p, s0 := vol.geo.Ptrs(), Snap(vol, inode);
    PtrsPositive(vol);
    var currentBlocks := Blocks(vol, inode);
    UsableNow(vol, inode);
    FreeRange(vol);
    var blocksToAllocate := requiredBlocks - currentBlocks;
    var blocks;
    ok, blocks := AllocateBlocks(vol, blocksToAllocate);
    ghost var s1 := Snap(vol, inode);
    if !ok {
      NoneTaken(p, vol.bitmaps, s0, currentBlocks, s1);
      return;
    }
    TakenOk(vol, inode, s0, currentBlocks, blocks);
    MissingSurvives(p, vol.bitmaps, s0, currentBlocks, s1, blocksToAllocate);
    var written := WriteBlockPointers(vol, inode, currentBlocks, blocks);
    ghost var s2 := Snap(vol, inode);
    FarEnough(p, currentBlocks, blocksToAllocate, Missing(p, s1.disk, s1.ib, currentBlocks, blocksToAllocate), |s1.free|, written, |s2.free|);
    if written != blocksToAllocate {
      Releasable(vol, s0, blocks, s1);
      ReleaseBlocks(vol, blocks);
      RolledBack(p, vol.bitmaps, s0, currentBlocks, blocks, written, s1, s2, Snap(vol, inode));
      return false;
    }
    assert blocks[..written] == blocks;
    Extended(p, vol.bitmaps, s0, currentBlocks, blocks, s1, s2);
  }

  lemma FarEnough(p: nat, idx: nat, count: nat, missing: nat, free: nat, n: nat, free': nat)
    requires p > 0 && HowFar(p, idx, count, missing, free, n, free')
    ensures n == count <==> count <= Capacity(p, idx) && missing <= free
    ensures n == count ==> free' == free - missing
  {
  }

  lemma NoneTaken(p: nat, bitmaps: set<nat>, s0: Snapshot, n: nat, s1: Snapshot)
    requires FileSound(p, bitmaps, s0, n) && OnlyBitmaps(bitmaps, s0.disk, s1.disk) && s1.ib == s0.ib && s1.free == s0.free
    ensures Evolved(p, bitmaps, s0, n, s1, n) && SamePointers(p, s0, s1, n) && SameBlocks(p, s0, s1, n)
  {
    MapSurvives(p, bitmaps, s0, s1);
    SameData(p, s0, s1, n);
    forall i: nat | i < n ensures OwnBlock(p, bitmaps, s1, Ptr(p, s1.disk, s1.ib, i)) {
      assert OwnBlock(p, bitmaps, s0, Ptr(p, s0.disk, s0.ib, i));
    }
  }

  lemma TakenOk(vol: Volume, inode: Inode, s0: Snapshot, n: nat, blocks: seq<word>)
    requires vol.Valid() && FileSound(vol.geo.Ptrs(), vol.bitmaps, s0, n) && inode.block == s0.ib
    requires OnlyBitmaps(vol.bitmaps, s0.disk, vol.disk) && Taken(s0.free, blocks, vol.Free())
    ensures MapOk(vol, inode)
  {
    MapSurvives(vol.geo.Ptrs(), vol.bitmaps, s0, Snap(vol, inode));
  }

  lemma Releasable(vol: Volume, s0: Snapshot, blocks: seq<word>, s1: Snapshot)
    requires vol.Valid() && Taken(s0.free, blocks, s1.free)
    requires forall b :: b in s0.free ==> 0 != b < vol.geo.totalBlocks && vol.geo.firstDataBlock <= b && b !in vol.bitmaps
    ensures forall k :: 0 <= k < |blocks| ==> 0 != blocks[k] < vol.geo.totalBlocks && blocks[k] as nat !in vol.bitmaps
    ensures forall k :: 0 <= k < |blocks| ==> vol.geo.firstDataBlock <= blocks[k]
  {
  }

  /** The byte at file offset x: a hole reads as zero. */
  function ByteAt(bs: nat, s: Snapshot, x: nat): byte
    requires bs >= 4 && |s.ib| == 15
  {
    ByteIn(bs / 4, s, BlockIdx(bs, x), Offset(bs, x))
  }

  /** Byte r of logical block q. */
  function ByteIn(p: nat, s: Snapshot, q: nat, r: nat): byte
    requires p > 0 && |s.ib| == 15
  {
    var b := Ptr(p, s.disk, s.ib, q);
    if b == 0 || b >= |s.disk| || r >= |s.disk[b]| then 0 else s.disk[b][r]
  }

  /** The abstract file: its bytes up to its size. */
  ghost function Contents(vol: Volume, inode: Inode): (c: seq<byte>)
    requires FileOk(vol, inode)
    reads vol, inode
    ensures |c| == inode.size
  {
    BytesOf(vol.geo.blockSize, Snap(vol, inode), inode.size)
  }

  function BytesOf(bs: nat, s: Snapshot, size: nat): (c: seq<byte>)
    requires bs >= 4 && |s.ib| == 15
    ensures |c| == size && forall x :: 0 <= x < size ==> c[x] == ByteAt(bs, s, x)
  {
    seq<byte>(size, x requires 0 <= x < size => ByteAt(bs, s, x))
  }

  /** Offsets in one chunk of one block are the offsets of that chunk in the file. */
  lemma ChunkOffsets(bs: nat, pos: nat, len: nat, x: nat)
    requires bs > 0 && len <= bs - Offset(bs, pos)
    ensures pos <= x < pos + len <==> BlockIdx(bs, x) == BlockIdx(bs, pos) && Offset(bs, pos) <= Offset(bs, x) < Offset(bs, pos) + len
    ensures pos <= x < pos + len ==> Offset(bs, x) - Offset(bs, pos) == x - pos
  {
    DivMod(pos, bs);
    DivMod(x, bs);
    if BlockIdx(bs, x) < BlockIdx(bs, pos) {
      MulMonotone(BlockIdx(bs, x) + 1, BlockIdx(bs, pos), bs);
    } else if BlockIdx(bs, x) > BlockIdx(bs, pos) {
      MulMonotone(BlockIdx(bs, pos) + 1, BlockIdx(bs, x), bs);
    }
  }

  /** Overwriting a data block of the file keeps its structure. */
  lemma BlockWritten(p: nat, bitmaps: set<nat>, s: Snapshot, n: nat, k: nat, data: Block, s': Snapshot)
    requires FileSound(p, bitmaps, s, n) && k < n && Ptr(p, s.disk, s.ib, k) < |s.disk| && |data| == 4 * p
    requires s' == s.(disk := s.disk[Ptr(p, s.disk, s.ib, k) := data])
    ensures Evolved(p, bitmaps, s, n, s', n) && SamePointers(p, s, s', n)
  {
    var b := Ptr(p, s.disk, s.ib, k);
    assert OwnBlock(p, bitmaps, s, b);
    MapDependsOnTables(p, s.disk, s'.disk, s.ib);
    SameData(p, s, s', n);
    forall i: nat | i < n ensures OwnBlock(p, bitmaps, s', Ptr(p, s'.disk, s'.ib, i)) {
      assert OwnBlock(p, bitmaps, s, Ptr(p, s.disk, s.ib, i));
    }
    assert b as nat in Data(p, s, n);
  }

  /** One block write changes exactly the chunk's bytes of that logical block. */
  lemma ChunkBytes(p: nat, s: Snapshot, n: nat, k: nat, off: nat, chunk: seq<byte>, b: nat, s': Snapshot, q: nat, r: nat)
    requires p > 0 && |s.ib| == 15 && SamePointers(p, s, s', n) && k < n && q < n && r < 4 * p && off + |chunk| <= 4 * p
    requires q != k ==> Ptr(p, s.disk, s.ib, q) != Ptr(p, s.disk, s.ib, k)
    requires b == Ptr(p, s.disk, s.ib, k) && 0 != b < |s.disk| && |s.disk[b]| == 4 * p
    requires s' == s.(disk := s.disk[b := Splice(s.disk[b], off, chunk)])
    ensures ByteIn(p, s', q, r) == if q == k && off <= r < off + |chunk| then chunk[r - off] else ByteIn(p, s, q, r)
  {
    hide Ptr;
    assert Ptr(p, s'.disk, s'.ib, q) == Ptr(p, s.disk, s.ib, q);
  }

  /** Overwriting part of one data block changes exactly those bytes of the file, and nothing else. */
  lemma ChunkWritten(bs: nat, bitmaps: set<nat>, s: Snapshot, n: nat, pos: nat, chunk: seq<byte>, b: nat, s': Snapshot)
    requires bs >= 4 && bs % 4 == 0 && FileSound(bs / 4, bitmaps, s, n) && BlockIdx(bs, pos) < n && |chunk| <= bs - Offset(bs, pos)
    requires b == Ptr(bs / 4, s.disk, s.ib, BlockIdx(bs, pos)) && 0 != b < |s.disk| && |s.disk[b]| == bs
    requires s' == s.(disk := s.disk[b := Splice(s.disk[b], Offset(bs, pos), chunk)])
    ensures Evolved(bs / 4, bitmaps, s, n, s', n) && SamePointers(bs / 4, s, s', n)
    ensures forall x: nat :: BlockIdx(bs, x) < n ==>
        ByteAt(bs, s', x) == if pos <= x < pos + |chunk| then chunk[x - pos] else ByteAt(bs, s, x)
  {
    BlockWritten(bs / 4, bitmaps, s, n, BlockIdx(bs, pos), Splice(s.disk[b], Offset(bs, pos), chunk), s');
    forall x: nat | BlockIdx(bs, x) < n
      ensures ByteAt(bs, s', x) == if pos <= x < pos + |chunk| then chunk[x - pos] else ByteAt(bs, s, x)
    {
      ChunkByte(bs, bitmaps, s, n, pos, chunk, b, s', x);
    }
  }

  lemma ChunkByte(bs: nat, bitmaps: set<nat>, s: Snapshot, n: nat, pos: nat, chunk: seq<byte>, b: nat, s': Snapshot, x: nat)
    requires bs >= 4 && bs % 4 == 0 && FileSound(bs / 4, bitmaps, s, n) && |chunk| <= bs - Offset(bs, pos)
    requires BlockIdx(bs, pos) < n && BlockIdx(bs, x) < n && SamePointers(bs / 4, s, s', n)
    requires b == Ptr(bs / 4, s.disk, s.ib, BlockIdx(bs, pos)) && 0 != b < |s.disk| && |s.disk[b]| == bs
    requires s' == s.(disk := s.disk[b := Splice(s.disk[b], Offset(bs, pos), chunk)])
    ensures ByteAt(bs, s', x) == if pos <= x < pos + |chunk| then chunk[x - pos] else ByteAt(bs, s, x)
  {
    hide Ptr, ByteIn, SamePointers, Sound, OwnBlock, Splice;
    ChunkOffsets(bs, pos, |chunk|, x);
    ChunkBytes(bs / 4, s, n, BlockIdx(bs, pos), Offset(bs, pos), chunk, b, s', BlockIdx(bs, x), Offset(bs, x));
  }

  /** A data pointer of the file is always readable. */
  lemma PointerReadable(p: nat, bitmaps: set<nat>, s: Snapshot, n: nat, k: nat)
    requires FileSound(p, bitmaps, s, n) && k < n
    ensures Mapped(p, s.disk, s.ib, k) && Capacity(p, k) >= 1 && k < Limit(p)
    ensures OwnBlock(p, bitmaps, s, Ptr(p, s.disk, s.ib, k))
  {
    assert OwnBlock(p, bitmaps, s, Ptr(p, s.disk, s.ib, k));
    if k >= 12 + p {
      Slots(p, k);
    } else {
      assert p * p >= 0;
    }
  }

  /** `read_block_pointers(fs, inode, block_idx, &block_num, 1)`: 0 stands for a short read. */
  method LookupBlock(vol: Volume, inode: Inode, blockIdx: nat, ghost n: nat) returns (b: nat)
    requires vol.Valid() && FileSound(vol.geo.Ptrs(), vol.bitmaps, Snap(vol, inode), n)
    requires blockIdx < n && blockIdx + 1 < 0x1_0000_0000
    ensures b != 0 && b == Ptr(vol.geo.Ptrs(), vol.disk, inode.block, blockIdx)
    ensures b < vol.geo.totalBlocks && b !in vol.bitmaps
  {
    hide Consistent, Ptr, Tables, Mapped, Capacity, TablesOk;
    DiskSize(vol);
    PointerReadable(vol.geo.Ptrs(), vol.bitmaps, Snap(vol, inode), n, blockIdx);
    var ptrs := ReadBlockPointers(vol, inode, blockIdx, 1);
    b := 0;
    if |ptrs| == 1 {
      b := ptrs[0];
    }
  }

  lemma DiskSize(vol: Volume)
    requires vol.Valid()
    ensures |vol.disk| == vol.geo.totalBlocks && vol.geo.Wf()
    ensures forall b :: 0 <= b < |vol.disk| ==> |vol.disk[b]| == vol.geo.blockSize
  {
  }

  /** `file_descriptor_t`, as far as regular files use it. */
  class File {
    const inode: Inode
    var pos: nat

    constructor (inode: Inode)
      ensures this.inode == inode && pos == 0
    {
      this.inode, pos := inode, 0;
    }
  }

  /** One turn of the write loop: read the block, overlay the chunk, write it back. */
  method WriteChunk(vol: Volume, inode: Inode, pos: nat, chunk: seq<byte>, ghost n: nat) returns (ok: bool)
    requires vol.Valid() && FileSound(vol.geo.Ptrs(), vol.bitmaps, Snap(vol, inode), n)
    requires vol.geo.Wf() && BlockIdx(vol.geo.blockSize, pos) < n && |chunk| <= vol.geo.blockSize - Offset(vol.geo.blockSize, pos)
    requires BlockIdx(vol.geo.blockSize, pos) + 1 < 0x1_0000_0000
    modifies vol
    ensures ok && vol.Valid()
    ensures Evolved(vol.geo.Ptrs(), vol.bitmaps, old(Snap(vol, inode)), n, Snap(vol, inode), n)
    ensures SamePointers(vol.geo.Ptrs(), old(Snap(vol, inode)), Snap(vol, inode), n)
    ensures |inode.block| == 15 && forall x: nat :: BlockIdx(vol.geo.blockSize, x) < n ==>
        ByteAt(vol.geo.blockSize, Snap(vol, inode), x)
        == if pos <= x < pos + |chunk| then chunk[x - pos] else ByteAt(vol.geo.blockSize, old(Snap(vol, inode)), x)
  {
    hide Consistent, Ptr, ByteAt, Evolved, SamePointers, BlockIdx, Offset, OwnBlock, Sound, FreeBlocks;
    var bs := vol.geo.blockSize;
    DiskSize(vol);
    var b := LookupBlock(vol, inode, BlockIdx(bs, pos), n);
    if b == 0 {
      return false;
    }
    vol.WriteBlock(b, Splice(vol.disk[b], Offset(bs, pos), chunk));
    ChunkWritten(bs, vol.bitmaps, old(Snap(vol, inode)), n, pos, chunk, b, Snap(vol, inode));
    ok := true;
  }

  lemma EvolvedTwice(p: nat, bitmaps: set<nat>, s0: Snapshot, n0: nat, s1: Snapshot, n1: nat, s2: Snapshot, n2: nat)
    requires Evolved(p, bitmaps, s0, n0, s1, n1) && Evolved(p, bitmaps, s1, n1, s2, n2)
    ensures Evolved(p, bitmaps, s0, n0, s2, n2)
  {
  }

  lemma NotEvolved(p: nat, bitmaps: set<nat>, s: Snapshot, n: nat)
    requires FileSound(p, bitmaps, s, n)
    ensures Evolved(p, bitmaps, s, n, s, n)
  {
  }

  /** The byte sequence after buf is laid over c at pos. */
  function Overwritten(c: seq<byte>, pos: nat, buf: seq<byte>): seq<byte>
    requires pos <= |c|
  {
    c[..pos] + buf + if pos + |buf| < |c| then c[pos + |buf|..] else []
  }

  /** Is there room for a file of this size? */
  ghost predicate Fits(vol: Volume, inode: Inode, size: nat)
    requires vol.Valid() && |inode.block| == 15
    reads vol, inode
  {
    DiskSize(vol);
    PtrsPositive(vol);
    var required := BlocksNeeded(vol.geo.blockSize, size);
    required > Blocks(vol, inode) ==> Room(vol, inode, required)
  }

  /** Every byte of the first n blocks reads the same. */
  ghost predicate SameBytes(bs: nat, s: Snapshot, s': Snapshot, n: nat) {
    && bs >= 4 && |s.ib| == 15 && |s'.ib| == 15
    && forall x: nat :: BlockIdx(bs, x) < n ==> ByteAt(bs, s', x) == ByteAt(bs, s, x)
  }

  /** Blocks of the file once it can hold `size` bytes. */
  function FileBlocks(bs: nat, current: nat, size: nat): nat
    requires bs > 0
  {
    if BlocksNeeded(bs, size) > current then BlocksNeeded(bs, size) else current
  }

  /** The pre-allocation at the head of `ext2_file_write`. */
  method Reserve(vol: Volume, inode: Inode, size: nat) returns (ok: bool)
    requires FileOk(vol, inode)
    modifies vol, inode`block
    ensures vol.Valid() && vol.geo.Wf()
    ensures var n := Blocks(vol, inode); var n' := if ok then FileBlocks(vol.geo.blockSize, n, size) else n;
      && Evolved(vol.geo.Ptrs(), vol.bitmaps, old(Snap(vol, inode)), n, Snap(vol, inode), n')
      && SameBytes(vol.geo.blockSize, old(Snap(vol, inode)), Snap(vol, inode), n)
    ensures ok <==> old(Fits(vol, inode, size))
  {
    hide Consistent, Ptr, ByteAt, Evolved, SamePointers, SameBlocks, SameBytes, FreeBlocks, BlocksNeeded, Sound, OwnBlock;
    DiskSize(vol);
    ghost var p, bs, s0, n0 := vol.geo.Ptrs(), vol.geo.blockSize, Snap(vol, inode), Blocks(vol, inode);
    NotEvolved(p, vol.bitmaps, s0, n0);
    var requiredBlocks := BlocksNeeded(vol.geo.blockSize, size);
    var currentBlocks := Blocks(vol, inode);
    ok := true;
    if requiredBlocks > currentBlocks {
      ok := EnsureBlocksAllocated(vol, inode, requiredBlocks);
    }
    BytesKept(bs, vol.bitmaps, s0, Snap(vol, inode), n0);
  }

  /** The block loop of `ext2_file_write`; `n` is the number of blocks the file owns. */
  method WriteLoop(vol: Volume, file: File, buf: seq<byte>, ghost n: nat)
    requires vol.Valid() && FileSound(vol.geo.Ptrs(), vol.bitmaps, Snap(vol, file.inode), n)
    requires vol.geo.Wf() && BlocksNeeded(vol.geo.blockSize, file.pos + |buf|) <= n
    requires file.pos + |buf| + vol.geo.blockSize < 0x1_0000_0000
    modifies vol, file`pos
    ensures vol.Valid() && file.pos == old(file.pos) + |buf|
    ensures Evolved(vol.geo.Ptrs(), vol.bitmaps, old(Snap(vol, file.inode)), n, Snap(vol, file.inode), n)
    ensures |file.inode.block| == 15 && forall x: nat :: BlockIdx(vol.geo.blockSize, x) < n ==>
        ByteAt(vol.geo.blockSize, Snap(vol, file.inode), x)
        == if old(file.pos) <= x < old(file.pos) + |buf| then buf[x - old(file.pos)]
           else ByteAt(vol.geo.blockSize, old(Snap(vol, file.inode)), x)
  {
    hide Consistent, Ptr, ByteAt, Evolved, SamePointers, BlockIdx, Offset, FileSound, FreeBlocks, BlocksNeeded;
    var bs, inode := vol.geo.blockSize, file.inode;
    ghost var p, s0, pos0 := vol.geo.Ptrs(), Snap(vol, inode), file.pos;
    NotEvolved(p, vol.bitmaps, s0, n);
    var bytesWritten := 0;
    while bytesWritten < |buf|
      invariant bytesWritten <= |buf| && file.pos == pos0 + bytesWritten
      invariant vol.Valid() && FileSound(p, vol.bitmaps, Snap(vol, inode), n) && Evolved(p, vol.bitmaps, s0, n, Snap(vol, inode), n)
      invariant |inode.block| == 15 && forall x: nat :: BlockIdx(bs, x) < n ==>
          ByteAt(bs, Snap(vol, inode), x) == if pos0 <= x < pos0 + bytesWritten then buf[x - pos0] else ByteAt(bs, s0, x)
    {
      ghost var s := Snap(vol, inode);
      BlocksCover(bs, pos0 + |buf|, file.pos);
      BlocksSmall(bs, file.pos);
      var left := |buf| - bytesWritten;
      var toWrite := Min(left, bs - Offset(bs, file.pos));
      var ok := WriteChunk(vol, inode, file.pos, buf[bytesWritten..bytesWritten + toWrite], n);
      if !ok {
        break;
      }
      EvolvedTwice(p, vol.bitmaps, s0, n, s, n, Snap(vol, inode), n);
      EvolvedSound(p, vol.bitmaps, s0, n, Snap(vol, inode), n);
      bytesWritten := bytesWritten + toWrite;
      file.pos := file.pos + toWrite;
    }
  }

  /**
   A refused write changes no readable byte; an accepted one lays exactly buf over the contents
   at the position and advances it.  Either way the file keeps its invariant, and any block it
   gained came out of the free set.
   */
  method FileWrite(vol: Volume, file: File, buf: seq<byte>) returns (r: int)
    requires FileOk(vol, file.inode) && file.pos <= file.inode.size
    requires file.pos + |buf| + vol.geo.blockSize < 0x1_0000_0000
    modifies vol, file.inode, file`pos
    ensures FileOk(vol, file.inode)
    ensures Evolved(vol.geo.Ptrs(), vol.bitmaps, old(Snap(vol, file.inode)), old(Blocks(vol, file.inode)),
                    Snap(vol, file.inode), Blocks(vol, file.inode))
    ensures r == -1 || r == |buf|
    ensures r == -1 ==> Contents(vol, file.inode) == old(Contents(vol, file.inode)) && file.pos == old(file.pos)
    ensures r != -1 <==> old(Fits(vol, file.inode, file.pos + |buf|))
    ensures r != -1 ==> Contents(vol, file.inode) == Overwritten(old(Contents(vol, file.inode)), old(file.pos), buf)
    ensures r != -1 ==> file.pos == old(file.pos) + |buf|
  {
    hide Consistent, Ptr, ByteAt, Evolved, SameBytes, BlockIdx, FileSound, FreeBlocks, BlocksNeeded, Fits;
    DiskSize(vol);
    var bs, inode := vol.geo.blockSize, file.inode;
    ghost var p, s0, n0 := vol.geo.Ptrs(), Snap(vol, inode), Blocks(vol, inode);
    var ok := Reserve(vol, inode, file.pos + |buf|);
    ghost var s1, n1 := Snap(vol, inode), FileBlocks(bs, n0, file.pos + |buf|);
    EvolvedSound(p, vol.bitmaps, s0, n0, s1, if ok then n1 else n0);
    if !ok {
      SameContents(bs, s0, s1, n0, inode.size);
      return -1;
    }
    WriteLoop(vol, file, buf, n1);
    EvolvedTwice(p, vol.bitmaps, s0, n0, s1, n1, Snap(vol, inode), n1);
    EvolvedSound(p, vol.bitmaps, s0, n0, Snap(vol, inode), n1);
    WrittenContents(bs, s0, s1, Snap(vol, inode), inode.size, old(file.pos), buf);
    if file.pos > inode.size {
      inode.size := file.pos;
    }
    r := |buf|;
  }

  lemma BytesKept(bs: nat, bitmaps: set<nat>, s: Snapshot, s': Snapshot, n: nat)
    requires bs >= 4 && |s.ib| == 15 && FileSound(bs / 4, bitmaps, s, n)
    requires s' == s || (SamePointers(bs / 4, s, s', n) && SameBlocks(bs / 4, s, s', n))
    ensures SameBytes(bs, s, s', n)
  {
  }

  /** From bytes to the abstract file, and the new block count. */
  lemma WrittenContents(bs: nat, s: Snapshot, s1: Snapshot, s2: Snapshot, size: nat, pos: nat, buf: seq<byte>)
    requires bs > 0 && SameBytes(bs, s, s1, BlocksNeeded(bs, size)) && |s2.ib| == 15 && pos <= size
    requires forall x: nat :: BlockIdx(bs, x) < FileBlocks(bs, BlocksNeeded(bs, size), pos + |buf|) ==>
        ByteAt(bs, s2, x) == if pos <= x < pos + |buf| then buf[x - pos] else ByteAt(bs, s1, x)
    ensures var size' := if pos + |buf| > size then pos + |buf| else size;
      && BlocksNeeded(bs, size') == FileBlocks(bs, BlocksNeeded(bs, size), pos + |buf|)
      && BytesOf(bs, s2, size') == Overwritten(BytesOf(bs, s, size), pos, buf)
  {
    var size' := if pos + |buf| > size then pos + |buf| else size;
    if pos + |buf| > size {
      BlocksMonotone(bs, size, pos + |buf|);
    } else {
      BlocksMonotone(bs, pos + |buf|, size);
    }
    forall x: nat | x < size'
      ensures BytesOf(bs, s2, size')[x] == Overwritten(BytesOf(bs, s, size), pos, buf)[x]
    {
      BlocksCover(bs, size', x);
      BlocksCover(bs, size, x);
    }
  }

  lemma BlocksSmall(bs: nat, x: nat)
    requires bs > 0
    ensures BlockIdx(bs, x) <= x
  {
    var q := BlockIdx(bs, x);
    DivMod(x, bs);
    MulMonotone(1, bs, q);
    assert q * bs == bs * q;
  }

  lemma EvolvedSound(p: nat, bitmaps: set<nat>, s: Snapshot, n: nat, s': Snapshot, n': nat)
    requires Evolved(p, bitmaps, s, n, s', n')
    ensures FileSound(p, bitmaps, s', n')
  {
  }

  lemma SameContents(bs: nat, s: Snapshot, s': Snapshot, n: nat, size: nat)
    requires bs > 0 && SameBytes(bs, s, s', n) && n == BlocksNeeded(bs, size)
    ensures BytesOf(bs, s', size) == BytesOf(bs, s, size)
  {
    forall x: nat | x < size ensures ByteAt(bs, s', x) == ByteAt(bs, s, x) { BlocksCover(bs, size, x); }
  }

  // ---------------------------------------------------------------- reading and seeking

  /** What reading needs: sound tables, and data pointers that stay on the volume.  Blocks may lack a pointer, or even a table. */
  ghost predicate Readable(vol: Volume, inode: Inode)
    reads vol, inode
  {
    && MapOk(vol, inode) && inode.size + vol.geo.blockSize < 0x1_0000_0000
    && forall k: nat :: k < Blocks(vol, inode) ==> Ptr(vol.geo.Ptrs(), vol.disk, inode.block, k) < vol.geo.totalBlocks
  }

  /** Does the byte at file offset x lie in a block that has a table slot? */
  ghost predicate Slotted(vol: Volume, inode: Inode, x: nat)
    requires MapOk(vol, inode)
    reads vol, inode
  {
    DiskSize(vol);
    Mapped(vol.geo.Ptrs(), vol.disk, inode.block, BlockIdx(vol.geo.blockSize, x))
  }

  lemma SoundIsReadable(vol: Volume, inode: Inode)
    requires FileOk(vol, inode) && inode.size + vol.geo.blockSize < 0x1_0000_0000
    ensures Readable(vol, inode) && forall x: nat :: x < inode.size ==> Slotted(vol, inode, x)
  {
    forall k: nat | k < Blocks(vol, inode)
      ensures Mapped(vol.geo.Ptrs(), vol.disk, inode.block, k) && Ptr(vol.geo.Ptrs(), vol.disk, inode.block, k) < vol.geo.totalBlocks
    {
      PointerReadable(vol.geo.Ptrs(), vol.bitmaps, Snap(vol, inode), Blocks(vol, inode), k);
    }
    forall x: nat | x < inode.size
      ensures Slotted(vol, inode, x)
    {
      DiskSize(vol);
      BlocksCover(vol.geo.blockSize, inode.size, x);
    }
  }

  /** One turn of the read loop. */
  method ReadChunk(vol: Volume, inode: Inode, pos: nat, toRead: nat) returns (ok: bool, chunk: seq<byte>)
    requires Readable(vol, inode) && BlockIdx(vol.geo.blockSize, pos) < Blocks(vol, inode)
    requires 0 < toRead <= vol.geo.blockSize - Offset(vol.geo.blockSize, pos) && pos < inode.size
    ensures |chunk| == toRead && forall x: nat :: pos <= x < pos + toRead ==> (ok <==> Slotted(vol, inode, x))
    ensures ok ==> forall x :: pos <= x < pos + toRead ==> chunk[x - pos] == ByteAt(vol.geo.blockSize, Snap(vol, inode), x)
  {
    hide Consistent, Ptr, Mapped, Capacity, Sound, BlocksNeeded;
    DiskSize(vol);
    var bs := vol.geo.blockSize;
    BlocksSmall(bs, pos);
    ReachesOne(vol.geo.Ptrs(), vol.disk, inode.block, BlockIdx(bs, pos));
    assert Slotted(vol, inode, pos) == Mapped(vol.geo.Ptrs(), vol.disk, inode.block, BlockIdx(bs, pos));
    forall x: nat | pos <= x < pos + toRead
      ensures BlockIdx(bs, x) == BlockIdx(bs, pos) && Offset(bs, x) == Offset(bs, pos) + (x - pos)
    {
      ChunkOffsets(bs, pos, toRead, x);
    }
    var ptrs := ReadBlockPointers(vol, inode, BlockIdx(bs, pos), 1);
    assert ptrs != [] ==> ptrs[0] == Ptr(vol.geo.Ptrs(), vol.disk, inode.block, BlockIdx(bs, pos));
    ok, chunk := |ptrs| == 1, Zeros(toRead);
    if ok && ptrs[0] != 0 {
      chunk := vol.disk[ptrs[0]][Offset(bs, pos)..Offset(bs, pos) + toRead];
    }
  }

  lemma ReachesOne(p: nat, disk: seq<Block>, ib: seq<word>, k: nat)
    requires p > 0 && |ib| == 15
    ensures Mapped(p, disk, ib, k) ==> Capacity(p, k) >= 1
  {
    if k >= 12 + p {
      Slots(p, k);
    }
  }

  /** Reads up to the end of the request, the end of the file, or the first block without a table slot. */
  method FileRead(vol: Volume, file: File, count: nat) returns (buf: seq<byte>)
    requires Readable(vol, file.inode)
    modifies file`pos
    ensures var size, pos := file.inode.size, old(file.pos);
      var want := if pos >= size then 0 else Min(count, size - pos);
      && |buf| <= want && file.pos == pos + |buf|
      && (|buf| < want ==> !Slotted(vol, file.inode, pos + |buf|))
      && (forall x: nat :: pos <= x < pos + |buf| ==> Slotted(vol, file.inode, x))
      && forall x :: pos <= x < pos + |buf| ==> buf[x - pos] == ByteAt(vol.geo.blockSize, Snap(vol, file.inode), x)
  {
    hide Consistent, Sound, ByteAt, BlocksNeeded, Offset, BlockIdx, Mapped, Ptr, Slotted;
    DiskSize(vol);
    var bs, inode := vol.geo.blockSize, file.inode;
    buf := [];
    if file.pos >= inode.size {
      return;
    }
    var left := if file.pos + count > inode.size then inode.size - file.pos else count;
    while left > 0
      invariant file.pos == old(file.pos) + |buf| && |buf| + left == Min(count, inode.size - old(file.pos))
      invariant 0 <= left && forall x :: old(file.pos) <= x < file.pos ==> buf[x - old(file.pos)] == ByteAt(bs, Snap(vol, inode), x)
      invariant Readable(vol, inode) && forall x: nat :: old(file.pos) <= x < file.pos ==> Slotted(vol, inode, x)
    {
      BlocksCover(bs, inode.size, file.pos);
      var toRead := Min(left, bs - Offset(bs, file.pos));
      var ok, chunk := ReadChunk(vol, inode, file.pos, toRead);
      if !ok {
        break;
      }
      buf := buf + chunk;
      file.pos := file.pos + toRead;
      left := left - toRead;
    }
  }

  const SEEK_SET := 0
  const SEEK_CUR := 1
  const SEEK_END := 2

  /** Positions are 64-bit, so a negative target wraps to a huge one and is refused like any other. */
  method FileSeek(file: File, offset: int, whence: int) returns (ok: bool)
    requires -0x8000_0000_0000_0000 <= offset < 0x8000_0000_0000_0000
    requires file.pos <= file.inode.size < 0x1_0000_0000
    modifies file`pos
    ensures var base := if whence == 0 then 0 else if whence == 1 then old(file.pos) else file.inode.size;
      && (ok <==> 0 <= whence <= 2 && 0 <= base + offset <= file.inode.size)
      && file.pos == (if ok then base + offset else old(file.pos))
  {
    var newPos;
    if whence == SEEK_SET {
      newPos := offset % 0x1_0000_0000_0000_0000;
    } else if whence == SEEK_CUR {
      newPos := (file.pos + offset) % 0x1_0000_0000_0000_0000;
    } else if whence == SEEK_END {
      newPos := (file.inode.size + offset) % 0x1_0000_0000_0000_0000;
    } else {
      return false;
    }
    if newPos > file.inode.size {
      return false;
    }
    file.pos := newPos;
    ok := true;
  }

  /** What was written is what a seek back and a read of the same length return. */
  method WriteSeekRead(vol: Volume, file: File, buf: seq<byte>) returns (r: int, back: seq<byte>)
    requires FileOk(vol, file.inode) && file.pos <= file.inode.size
    requires file.pos + |buf| + vol.geo.blockSize < 0x1_0000_0000 && file.inode.size + vol.geo.blockSize < 0x1_0000_0000
    modifies vol, file.inode, file`pos
    ensures FileOk(vol, file.inode) && (r != -1 ==> back == buf)
  {
    hide Consistent, FileSound, ByteAt, Evolved, Fits, Readable, BlocksNeeded, Snap, Slotted;
    var pos := file.pos;
    back := [];
    r := FileWrite(vol, file, buf);
    if r != -1 {
      var _ := FileSeek(file, pos, SEEK_SET);
      SoundIsReadable(vol, file.inode);
      back := FileRead(vol, file, |buf|);
      ghost var c := Contents(vol, file.inode);
      assert c == Overwritten(old(Contents(vol, file.inode)), pos, buf);
      forall k | 0 <= k < |back|
        ensures back[k] == buf[k]
      {
        var x := pos + k;
        assert back[x - pos] == c[x];
      }
    }
  }

  // ---------------------------------------------------------------- many files

  /** Another file seen through the same disk and free set. */
  function SeenFrom(s: Snapshot, ib: seq<word>): Snapshot {
    Snapshot(s.free, s.disk, ib)
  }

  /** A step of one file leaves every disjoint file sound, disjoint and byte-for-byte unchanged. */
  lemma OtherFileUntouched(bs: nat, bitmaps: set<nat>, s: Snapshot, n: nat, s': Snapshot, n': nat, ib: seq<word>, m: nat)
    requires bs >= 4 && bs % 4 == 0 && FileSound(bs / 4, bitmaps, s, n) && Evolved(bs / 4, bitmaps, s, n, s', n')
    requires FileSound(bs / 4, bitmaps, SeenFrom(s, ib), m)
    requires Owned(bs / 4, s, n) !! Owned(bs / 4, SeenFrom(s, ib), m)
    ensures FileSound(bs / 4, bitmaps, SeenFrom(s', ib), m)
    ensures Owned(bs / 4, SeenFrom(s', ib), m) == Owned(bs / 4, SeenFrom(s, ib), m)
    ensures Owned(bs / 4, s', n') !! Owned(bs / 4, SeenFrom(s', ib), m)
    ensures SameBytes(bs, SeenFrom(s, ib), SeenFrom(s', ib), m)
  {
    var p, o, o' := bs / 4, SeenFrom(s, ib), SeenFrom(s', ib);
    OwnedKept(p, bitmaps, s, n, s', n', ib, m);
    MapDependsOnTables(p, o.disk, o'.disk, ib);
    SameData(p, o, o', m);
    forall i: nat | i < m
      ensures OwnBlock(p, bitmaps, o', Ptr(p, o'.disk, ib, i)) && o'.disk[Ptr(p, o.disk, ib, i)] == o.disk[Ptr(p, o.disk, ib, i)]
    {
      assert OwnBlock(p, bitmaps, o, Ptr(p, o.disk, ib, i));
      assert Ptr(p, o.disk, ib, i) as nat in Data(p, o, m);
    }
    BytesKept(bs, bitmaps, o, o', m);
  }

  /** No block of a disjoint file is written. */
  lemma OwnedKept(p: nat, bitmaps: set<nat>, s: Snapshot, n: nat, s': Snapshot, n': nat, ib: seq<word>, m: nat)
    requires FileSound(p, bitmaps, s, n) && Evolved(p, bitmaps, s, n, s', n')
    requires FileSound(p, bitmaps, SeenFrom(s, ib), m) && Owned(p, s, n) !! Owned(p, SeenFrom(s, ib), m)
    ensures forall b :: b in Owned(p, SeenFrom(s, ib), m) ==> b < |s.disk| && s'.disk[b] == s.disk[b]
    ensures Owned(p, s', n') !! Owned(p, SeenFrom(s, ib), m)
    ensures s'.free !! Owned(p, SeenFrom(s, ib), m)
  {
    var o := SeenFrom(s, ib);
    forall b | b in Owned(p, o, m)
      ensures b < |s.disk| && b !in s.free && b !in bitmaps
    {
      if b in Data(p, o, m) {
        var i: nat :| i < m && Ptr(p, o.disk, ib, i) == b;
        assert OwnBlock(p, bitmaps, o, Ptr(p, o.disk, ib, i));
      }
    }
  }

  /** All files of a volume: each in order, no block shared. */
  ghost predicate FilesOk(vol: Volume, inodes: set<Inode>)
    reads vol, inodes
  {
    && vol.Valid()
    && (forall f :: f in inodes ==> FileOk(vol, f))
    && forall f, g :: f in inodes && g in inodes && f != g ==> OwnedBy(vol, f) !! OwnedBy(vol, g)
  }

  ghost function OwnedBy(vol: Volume, inode: Inode): set<nat>
    requires FileOk(vol, inode)
    reads vol, inode
  {
    Owned(vol.geo.Ptrs(), Snap(vol, inode), Blocks(vol, inode))
  }

  /** Writing one file changes no byte of any other, and all files stay disjoint. */
  method WriteAmongFiles(vol: Volume, ghost inodes: set<Inode>, file: File, buf: seq<byte>) returns (r: int)
    requires FilesOk(vol, inodes) && file.inode in inodes && file.pos <= file.inode.size
    requires file.pos + |buf| + vol.geo.blockSize < 0x1_0000_0000
    modifies vol, file.inode, file`pos
    ensures FilesOk(vol, inodes)
    ensures forall g :: g in inodes && g != file.inode ==> Contents(vol, g) == old(Contents(vol, g))
    ensures r == -1 ==> Contents(vol, file.inode) == old(Contents(vol, file.inode))
    ensures r != -1 ==> r == |buf| && Contents(vol, file.inode) == Overwritten(old(Contents(vol, file.inode)), old(file.pos), buf)
    ensures vol.Free() + OwnedBy(vol, file.inode) == old(vol.Free() + OwnedBy(vol, file.inode))
  {
    hide Consistent, Ptr, ByteAt, Evolved, Fits, BlocksNeeded, FileSound, Tables, Data, Owned, SameBytes;
    DiskSize(vol);
    ghost var s, n := Snap(vol, file.inode), Blocks(vol, file.inode);
    r := FileWrite(vol, file, buf);
    ghost var s', n' := Snap(vol, file.inode), Blocks(vol, file.inode);
    BlocksConserved(vol.geo.Ptrs(), vol.bitmaps, s, n, s', n');
    forall g | g in inodes && g != file.inode
      ensures FileOk(vol, g) && OwnedBy(vol, g) == old(OwnedBy(vol, g)) && OwnedBy(vol, file.inode) !! OwnedBy(vol, g)
      ensures Contents(vol, g) == old(Contents(vol, g))
    {
      OtherFileUntouched(vol.geo.blockSize, vol.bitmaps, s, n, s', n', g.block, Blocks(vol, g));
      SameContents(vol.geo.blockSize, SeenFrom(s, g.block), SeenFrom(s', g.block), Blocks(vol, g), g.size);
    }
  }

  /** Free blocks and the file's blocks together are the same set before and after. */
  lemma BlocksConserved(p: nat, bitmaps: set<nat>, s: Snapshot, n: nat, s': Snapshot, n': nat)
    requires FileSound(p, bitmaps, s, n) && Evolved(p, bitmaps, s, n, s', n')
    ensures s'.free + Owned(p, s', n') == s.free + Owned(p, s, n)
  {
  }
}

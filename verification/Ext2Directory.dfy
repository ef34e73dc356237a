/**
 The driver's directory operations on a volume: `find_entry`, `add_entry` and `remove_entry` reach the directory's blocks
 through its inode's pointer map, and a directory grows by blocks taken from the allocator.
 */
module Ext2Directory {
  import opened Arith
  import opened Bytes
  import opened Ext2Volume
  import opened Ext2Pointers
  import opened Ext2File
  import D = Ext2Dir

  /** Data block k of a directory. */
  function DirBlock(p: nat, s: Snapshot, k: nat): D.Block
    requires p > 0 && |s.ib| == 15
  {
    var b := Ptr(p, s.disk, s.ib, k);
    if b < |s.disk| then s.disk[b] else []
  }

  function DirBlocks(p: nat, s: Snapshot, n: nat): (r: seq<D.Block>)
    requires p > 0 && |s.ib| == 15
    ensures |r| == n && forall k :: 0 <= k < n ==> r[k] == DirBlock(p, s, k)
  {
    seq(n, k requires 0 <= k < n => DirBlock(p, s, k))
  }

  /** The blocks of a directory on its volume. */
  ghost function BlocksOf(vol: Volume, inode: Inode): (r: seq<D.Block>)
    requires FileOk(vol, inode)
    reads vol, inode
    ensures |r| == Blocks(vol, inode)
  {
    DirBlocks(vol.geo.Ptrs(), Snap(vol, inode), Blocks(vol, inode))
  }

  /** A directory: a file without holes whose size is whole blocks, each tiled by records. */
  ghost predicate DirOk(vol: Volume, inode: Inode)
    reads vol, inode
  {
    && FileOk(vol, inode) && vol.geo.blockSize < 0x1_0000 && inode.size == Blocks(vol, inode) * vol.geo.blockSize
    && D.AllTiled(BlocksOf(vol, inode), vol.geo.blockSize)
  }

  /** The entries, in the order the driver meets them. */
  ghost function Entries(vol: Volume, inode: Inode): seq<D.Entry>
    requires DirOk(vol, inode)
    reads vol, inode
  {
    D.Contents(BlocksOf(vol, inode), vol.geo.blockSize)
  }

  // ---------------------------------------------------------------- one block of a directory

  lemma SameDirBlocks(p: nat, s: Snapshot, s': Snapshot, n: nat)
    requires p > 0 && |s.ib| == 15 && SamePointers(p, s, s', n) && SameBlocks(p, s, s', n)
    ensures DirBlocks(p, s', n) == DirBlocks(p, s, n)
  {
    hide Ptr;
    forall k | 0 <= k < n
      ensures DirBlock(p, s', k) == DirBlock(p, s, k)
    {
      assert Ptr(p, s'.disk, s'.ib, k) == Ptr(p, s.disk, s.ib, k);
    }
  }

  /** Writing data block k replaces that block of the directory and no other. */
  lemma DirBlockWritten(p: nat, bitmaps: set<nat>, s: Snapshot, n: nat, k: nat, data: D.Block, s': Snapshot)
    requires FileSound(p, bitmaps, s, n) && k < n && Ptr(p, s.disk, s.ib, k) < |s.disk| && |data| == 4 * p
    requires s' == s.(disk := s.disk[Ptr(p, s.disk, s.ib, k) := data])
    ensures Evolved(p, bitmaps, s, n, s', n) && |s'.ib| == 15 && DirBlocks(p, s', n) == DirBlocks(p, s, n)[k := data]
  {
    hide Ptr, OwnBlock, Sound;
    BlockWritten(p, bitmaps, s, n, k, data, s');
    forall i | 0 <= i < n
      ensures DirBlock(p, s', i) == DirBlocks(p, s, n)[k := data][i]
    {
      assert Ptr(p, s'.disk, s'.ib, i) == Ptr(p, s.disk, s.ib, i);
      if i != k {
        assert Ptr(p, s.disk, s.ib, i) != Ptr(p, s.disk, s.ib, k);
      }
    }
  }

  /** `read_block` of data block i, once its pointer was read. */
  method ReadDirBlock(vol: Volume, inode: Inode, i: nat) returns (b: nat, data: D.Block)
    requires FileOk(vol, inode) && i < Blocks(vol, inode) && i + 1 < 0x1_0000_0000
    ensures b != 0 && b == Ptr(vol.geo.Ptrs(), vol.disk, inode.block, i) && b < |vol.disk| && b < vol.geo.totalBlocks && b !in vol.bitmaps
    ensures data == BlocksOf(vol, inode)[i]
  {
    hide Consistent, Ptr, FileSound;
    DiskSize(vol);
    b := LookupBlock(vol, inode, i, Blocks(vol, inode));
    data := vol.disk[b];
  }

  /** `write_block` of data block i. */
  method WriteDirBlock(vol: Volume, inode: Inode, i: nat, b: nat, data: D.Block)
    requires FileOk(vol, inode) && i < Blocks(vol, inode) && |data| == vol.geo.blockSize
    requires b == Ptr(vol.geo.Ptrs(), vol.disk, inode.block, i) && b < |vol.disk| && b < vol.geo.totalBlocks && b !in vol.bitmaps
    modifies vol
    ensures FileOk(vol, inode) && vol.Free() == old(vol.Free()) && BlocksOf(vol, inode) == old(BlocksOf(vol, inode))[i := data]
    ensures Evolved(vol.geo.Ptrs(), vol.bitmaps, old(Snap(vol, inode)), Blocks(vol, inode), Snap(vol, inode), Blocks(vol, inode))
  {
    hide Consistent, Ptr, FileSound, FreeBlocks;
    DiskSize(vol);
    ghost var s, n, p := Snap(vol, inode), Blocks(vol, inode), vol.geo.Ptrs();
    vol.WriteBlock(b, data);
    DirBlockWritten(p, vol.bitmaps, s, n, i, data, Snap(vol, inode));
    EvolvedSound(p, vol.bitmaps, s, n, Snap(vol, inode), n);
  }

  // ---------------------------------------------------------------- one more block

  /** Only bitmaps and blocks that were free may hold something else, and some of those may be free no longer. */
  ghost predicate Scribbled(bitmaps: set<nat>, s: Snapshot, s': Snapshot) {
    && s'.free <= s.free && s'.ib == s.ib && |s'.disk| == |s.disk|
    && (forall b :: 0 <= b < |s.disk| ==> |s'.disk[b]| == |s.disk[b]|)
    && forall b :: 0 <= b < |s.disk| && b !in s.free && b !in bitmaps ==> s'.disk[b] == s.disk[b]
  }

  /** A step of one file that may also have written into blocks that were free, or lost them. */
  ghost predicate Stepped(p: nat, bitmaps: set<nat>, s: Snapshot, n: nat, s': Snapshot, n': nat) {
    exists via: Snapshot :: Scribbled(bitmaps, s, via) && Evolved(p, bitmaps, via, n, s', n')
  }

  lemma EvolvedIsStep(p: nat, bitmaps: set<nat>, s: Snapshot, n: nat, s': Snapshot, n': nat)
    requires Evolved(p, bitmaps, s, n, s', n')
    ensures Stepped(p, bitmaps, s, n, s', n')
  {
    assert Scribbled(bitmaps, s, s);
  }

  lemma StepVia(p: nat, bitmaps: set<nat>, s: Snapshot, via: Snapshot, n: nat, s': Snapshot, n': nat)
    requires Scribbled(bitmaps, s, via) && Evolved(p, bitmaps, via, n, s', n')
    ensures Stepped(p, bitmaps, s, n, s', n') && FileSound(p, bitmaps, s', n')
  {
  }

  /** What free blocks hold does not concern a file. */
  lemma ScribbledSound(p: nat, bitmaps: set<nat>, s: Snapshot, n: nat, s': Snapshot)
    requires FileSound(p, bitmaps, s, n) && Scribbled(bitmaps, s, s')
    ensures FileSound(p, bitmaps, s', n) && |s'.ib| == 15 && Owned(p, s', n) == Owned(p, s, n)
    ensures SamePointers(p, s, s', n) && SameBlocks(p, s, s', n)
  {
    hide Ptr, Entry;
    MapDependsOnTables(p, s.disk, s'.disk, s.ib);
    SameData(p, s, s', n);
    forall i: nat | i < n ensures OwnBlock(p, bitmaps, s', Ptr(p, s'.disk, s'.ib, i)) {
      assert OwnBlock(p, bitmaps, s, Ptr(p, s.disk, s.ib, i));
    }
    forall i: nat | i < n ensures Ptr(p, s.disk, s.ib, i) !in s.free && Ptr(p, s.disk, s.ib, i) < |s.disk| {
      assert OwnBlock(p, bitmaps, s, Ptr(p, s.disk, s.ib, i));
    }
  }

  /** A step of a directory leaves every disjoint file sound, disjoint and byte for byte unchanged. */
  lemma OtherFileAside(bs: nat, bitmaps: set<nat>, s: Snapshot, n: nat, s': Snapshot, n': nat, ib: seq<word>, m: nat)
    requires bs >= 4 && bs % 4 == 0 && FileSound(bs / 4, bitmaps, s, n) && Stepped(bs / 4, bitmaps, s, n, s', n')
    requires FileSound(bs / 4, bitmaps, SeenFrom(s, ib), m)
    requires Owned(bs / 4, s, n) !! Owned(bs / 4, SeenFrom(s, ib), m)
    ensures FileSound(bs / 4, bitmaps, SeenFrom(s', ib), m)
    ensures Owned(bs / 4, SeenFrom(s', ib), m) == Owned(bs / 4, SeenFrom(s, ib), m)
    ensures Owned(bs / 4, s', n') !! Owned(bs / 4, SeenFrom(s', ib), m)
    ensures SameBytes(bs, SeenFrom(s, ib), SeenFrom(s', ib), m)
  {
    hide FileSound, Evolved, Owned, ByteAt, Scribbled, SamePointers, SameBlocks, BlockIdx;
    var via: Snapshot :| Scribbled(bitmaps, s, via) && Evolved(bs / 4, bitmaps, via, n, s', n');
    ScribbledSound(bs / 4, bitmaps, s, n, via);
    ScribbledSeen(bitmaps, s, via, ib);
    ScribbledSound(bs / 4, bitmaps, SeenFrom(s, ib), m, SeenFrom(via, ib));
    FileParts(bs / 4, bitmaps, SeenFrom(s, ib), m);
    BytesKept(bs, bitmaps, SeenFrom(s, ib), SeenFrom(via, ib), m);
    OtherFileUntouched(bs, bitmaps, via, n, s', n', ib, m);
  }

  lemma ScribbledSeen(bitmaps: set<nat>, s: Snapshot, s': Snapshot, ib: seq<word>)
    requires Scribbled(bitmaps, s, s')
    ensures Scribbled(bitmaps, SeenFrom(s, ib), SeenFrom(s', ib))
  {
  }

  lemma FreeBlockWritten(bitmaps: set<nat>, s: Snapshot, t: nat, data: D.Block)
    requires FreeUsable(bitmaps, s) && t in s.free && t < |s.disk| && |data| == |s.disk[t]|
    ensures Scribbled(bitmaps, s, s.(disk := s.disk[t := data])) && FreeUsable(bitmaps, s.(disk := s.disk[t := data]))
  {
  }

  lemma SameRootTable(p: nat, bitmaps: set<nat>, s: Snapshot, n: nat, t: nat, data: D.Block)
    requires FileSound(p, bitmaps, s, n) && t in s.free && t < |s.disk|
    ensures |s.ib| == 15 && Missing(p, s.disk[t := data], s.ib, n, 1) == Missing(p, s.disk, s.ib, n, 1)
  {
    assert s.ib[13] != 0 ==> s.ib[13] as nat in Tables(p, s.disk, s.ib);
  }

  /** The pointer write did not touch the new data block. */
  lemma NewBlockKept(p: nat, bitmaps: set<nat>, s0: Snapshot, n: nat, t: nat, s1: Snapshot, s2: Snapshot, data: D.Block)
    requires FileSound(p, bitmaps, s0, n) && FreeUsable(bitmaps, s0) && t in s0.free && t < 0x1_0000_0000
    requires s1.free == s0.free - {t} && s1.ib == s0.ib && OnlyBitmaps(bitmaps, s0.disk, s1.disk)
    requires Wrote(p, bitmaps, s1, s2, n, [t]) && t < |s1.disk| && s1.disk[t] == data
    ensures |s2.ib| == 15 && Ptr(p, s2.disk, s2.ib, n) == t && t < |s2.disk| && s2.disk[t] == data
  {
    MapSurvives(p, bitmaps, s0, s1);
  }

  /** The directory can grow by one block. */
  ghost predicate RoomForOne(vol: Volume, inode: Inode)
    requires FileOk(vol, inode)
    reads vol, inode
  {
    PtrsPositive(vol);
    Room(vol, inode, Blocks(vol, inode) + 1)
  }

  lemma RoomForOneMeaning(vol: Volume, inode: Inode)
    requires FileOk(vol, inode)
    ensures vol.geo.Ptrs() > 0 && |inode.block| == 15
    ensures var p, n := vol.geo.Ptrs(), Blocks(vol, inode);
      RoomForOne(vol, inode) <==> 1 <= Capacity(p, n) && 1 + Missing(p, vol.disk, inode.block, n, 1) <= |vol.Free()|
  {
    PtrsPositive(vol);
  }

  lemma FileParts(p: nat, bitmaps: set<nat>, s: Snapshot, n: nat)
    requires FileSound(p, bitmaps, s, n)
    ensures p > 0 && |s.ib| == 15
  {
  }

  lemma AllocatedAndWritten(bitmaps: set<nat>, disk: seq<D.Block>, disk1: seq<D.Block>, disk2: seq<D.Block>, t: nat, data: D.Block)
    requires |disk1| == |disk| && (forall b :: 0 <= b < |disk| ==> |disk[b]| == |data|) && (forall b :: 0 <= b < |disk| ==> |disk1[b]| == |data|)
    requires forall b :: 0 <= b < |disk| && b !in bitmaps ==> disk1[b] == disk[b]
    requires t < |disk| && disk2 == disk1[t := data]
    ensures OnlyBitmaps(bitmaps, disk[t := data], disk2)
  {
  }

  lemma TakenThis(s: Snapshot, s1: Snapshot, t: nat)
    requires t in s.free && s1.free == s.free - {t} && 0 < t < 0x1_0000_0000
    ensures Taken(s.free, [t as word], s1.free) && |s1.free| == |s.free| - 1
  {
  }

  lemma OnlyBitmapsNow(bitmaps: set<nat>, disk: seq<D.Block>, disk': seq<D.Block>, size: nat)
    requires |disk'| == |disk| && (forall b :: 0 <= b < |disk| ==> |disk[b]| == size) && (forall b :: 0 <= b < |disk| ==> |disk'[b]| == size)
    requires forall b :: 0 <= b < |disk| && b !in bitmaps ==> disk'[b] == disk[b]
    ensures OnlyBitmaps(bitmaps, disk, disk')
  {
  }

  lemma HowFarOne(p: nat, n: nat, s0: Snapshot, s1: Snapshot, s2: Snapshot, written: nat)
    requires p > 0 && |s1.ib| == 15 && written <= 1 && |s1.free| == |s0.free| - 1
    requires HowFar(p, n, 1, Missing(p, s1.disk, s1.ib, n, 1), |s1.free|, written, |s2.free|)
    ensures written == 1 <==> 1 <= Capacity(p, n) && 1 + Missing(p, s1.disk, s1.ib, n, 1) <= |s0.free|
    ensures written == 1 ==> |s2.free| == |s0.free| - 1 - Missing(p, s1.disk, s1.ib, n, 1)
  {
    hide Missing, Capacity;
  }

  lemma OneMore(p: nat, s: Snapshot, n: nat, data: D.Block)
    requires p > 0 && |s.ib| == 15 && Ptr(p, s.disk, s.ib, n) < |s.disk| && s.disk[Ptr(p, s.disk, s.ib, n)] == data
    ensures DirBlocks(p, s, n + 1) == DirBlocks(p, s, n) + [data]
  {
    hide Ptr;
  }

  /** What is left when the new block's pointer could not be written: nothing but free blocks differ, and one may be lost. */
  lemma GivenBack(bitmaps: set<nat>, s0: Snapshot, t: nat, s1: Snapshot, s2: Snapshot, s3: Snapshot)
    requires OnlyBitmaps(bitmaps, s0.disk, s1.disk) && s1.ib == s0.ib && s1.free == s0.free - {t} && t in s0.free
    requires HungRoot(bitmaps, s1, s2) && OnlyBitmaps(bitmaps, s2.disk, s3.disk) && s3.free == s2.free + {t}
    ensures Scribbled(bitmaps, s0, s3.(ib := s0.ib))
    ensures |s2.free| == |s1.free| - (if s2.ib == s1.ib then 0 else 1)
    ensures |s3.free| == |s0.free| - (if s2.ib == s1.ib then 0 else 1)
  {
    if s2.ib == s1.ib {
      assert s3.free == s0.free;
    } else {
      assert s3.free == s0.free - {s2.ib[13] as nat};
    }
  }

  lemma HowMuchLost(p: nat, n: nat, missing: nat, s0: Snapshot, s1: Snapshot, s2: Snapshot)
    requires p > 0 && HowFar(p, n, 1, missing, |s1.free|, 0, |s2.free|) && |s1.free| == |s0.free| - 1
    requires |s2.free| == |s1.free| - (if s2.ib == s1.ib then 0 else 1) && (Capacity(p, n) == 0 ==> s2 == s1)
    ensures s2.ib != s1.ib <==> Capacity(p, n) > 0 && |s0.free| == 2
  {
    hide Capacity;
  }

  lemma ScribbledTwice(bitmaps: set<nat>, s: Snapshot, via: Snapshot, s': Snapshot)
    requires Scribbled(bitmaps, s, via) && Scribbled(bitmaps, via, s') && via.free == s.free
    ensures Scribbled(bitmaps, s, s')
  {
  }

  /**
   Does a failing `add_entry` lose a block?  With two blocks free it can take one for the entry and one for the first
   double-indirect table, but none for the second-level table; the inode with the pointer to the first is then dropped.
   */
  ghost predicate LosesBlock(vol: Volume, inode: Inode)
    requires FileOk(vol, inode)
    reads vol, inode
  {
    PtrsPositive(vol);
    Capacity(vol.geo.Ptrs(), Blocks(vol, inode)) > 0 && |vol.Free()| == 2
  }

  lemma LosesBlockMeaning(vol: Volume, inode: Inode)
    requires FileOk(vol, inode)
    ensures vol.geo.Ptrs() > 0 && (LosesBlock(vol, inode) <==> Capacity(vol.geo.Ptrs(), Blocks(vol, inode)) > 0 && |vol.Free()| == 2)
  {
    PtrsPositive(vol);
  }

  /** The pointer tables a new block needs. */
  ghost function TablesToo(vol: Volume, inode: Inode): nat
    requires FileOk(vol, inode)
    reads vol, inode
  {
    PtrsPositive(vol);
    Missing(vol.geo.Ptrs(), vol.disk, inode.block, Blocks(vol, inode), 1)
  }

  lemma TablesTooMeaning(vol: Volume, inode: Inode)
    requires FileOk(vol, inode)
    ensures vol.geo.Ptrs() > 0 && |inode.block| == 15
    ensures TablesToo(vol, inode) == Missing(vol.geo.Ptrs(), vol.disk, inode.block, Blocks(vol, inode), 1)
  {
    PtrsPositive(vol);
  }

  /**
   The end of `add_entry`: take a block, fill it, hang it into the map at the end of the directory, or give it back.
   The caller adds the block to the size.  On failure the inode as it was read stays in force.
   */
  method Grow(vol: Volume, inode: Inode, data: D.Block) returns (ok: bool)
    requires FileOk(vol, inode) && |data| == vol.geo.blockSize
    modifies vol, inode`block
    ensures vol.Valid() && vol.geo.Ptrs() > 0 && |inode.block| == 15
    ensures ok <==> old(RoomForOne(vol, inode))
    ensures var n := Blocks(vol, inode); var n' := if ok then n + 1 else n;
      && Stepped(vol.geo.Ptrs(), vol.bitmaps, old(Snap(vol, inode)), n, Snap(vol, inode), n')
      && FileSound(vol.geo.Ptrs(), vol.bitmaps, Snap(vol, inode), n')
      && DirBlocks(vol.geo.Ptrs(), Snap(vol, inode), n') == old(BlocksOf(vol, inode)) + if ok then [data] else []
    ensures !ok ==> inode.block == old(inode.block)
    ensures |vol.Free()| == |old(vol.Free())| - if ok then 1 + old(TablesToo(vol, inode)) else if old(LosesBlock(vol, inode)) then 1 else 0
  {
    hide Consistent, Wrote, Evolved, SamePointers, SameBlocks, Taken, OnlyBitmaps, FreeUsable, Sound, FreeBlocks, Missing, Capacity,
         FileSound, Ptr, DirBlock, Flipped, BlocksNeeded, RoomForOne, HowFar, Stepped, Scribbled, LosesBlock, TablesToo, HungRoot, Call,
         BlocksOf, DirBlocks, Moved;
    PtrsPositive(vol);
    UsableNow(vol, inode);
    FreeRange(vol);
    DiskSize(vol);
    ghost var p, s0, n := vol.geo.Ptrs(), Snap(vol, inode), Blocks(vol, inode);
    FileParts(p, vol.bitmaps, s0, n);
    RoomForOneMeaning(vol, inode);
    LosesBlockMeaning(vol, inode);
    TablesTooMeaning(vol, inode);
    BlocksOfMeaning(vol, inode);
    var asRead := inode.block;
    var t := vol.AllocateBlock();
    if t == 0 {
      assert Snap(vol, inode) == s0;
      NothingGrown(p, vol.bitmaps, s0, n);
      return false;
    }
    DiskSize(vol);
    ok := FillBlock(vol, inode, t, data, s0, n);
    if !ok {
      inode.block := asRead;
      Undone(p, vol.bitmaps, s0, n, Snap(vol, inode));
    }
  }

  lemma NothingGrown(p: nat, bitmaps: set<nat>, s: Snapshot, n: nat)
    requires FileSound(p, bitmaps, s, n)
    ensures p > 0 && |s.ib| == 15 && Stepped(p, bitmaps, s, n, s, n)
  {
    hide Evolved;
    NotEvolved(p, bitmaps, s, n);
    EvolvedIsStep(p, bitmaps, s, n, s, n);
  }

  lemma BlocksOfMeaning(vol: Volume, inode: Inode)
    requires FileOk(vol, inode)
    ensures vol.geo.Ptrs() > 0 && |inode.block| == 15 && BlocksOf(vol, inode) == DirBlocks(vol.geo.Ptrs(), Snap(vol, inode), Blocks(vol, inode))
  {
  }

  /** The inode as read goes with what is on the disk now. */
  lemma Undone(p: nat, bitmaps: set<nat>, s: Snapshot, n: nat, s': Snapshot)
    requires FileSound(p, bitmaps, s, n) && Scribbled(bitmaps, s, s')
    ensures p > 0 && |s.ib| == |s'.ib| == 15 && FileSound(p, bitmaps, s', n) && Stepped(p, bitmaps, s, n, s', n)
    ensures DirBlocks(p, s', n) == DirBlocks(p, s, n)
  {
    hide Evolved, FileSound, Scribbled, Ptr, SamePointers, SameBlocks, DirBlock;
    FileParts(p, bitmaps, s, n);
    ScribbledSound(p, bitmaps, s, n, s');
    SameDirBlocks(p, s, s', n);
    NotEvolved(p, bitmaps, s', n);
  }

  /** `write_block` of the new block, and what follows. */
  method FillBlock(vol: Volume, inode: Inode, t: nat, data: D.Block, ghost s0: Snapshot, ghost n: nat) returns (ok: bool)
    requires vol.Valid() && vol.geo.Wf() && vol.geo.Ptrs() > 0 && |s0.ib| == 15 && n == Blocks(vol, inode)
    requires FileSound(vol.geo.Ptrs(), vol.bitmaps, s0, n) && FreeUsable(vol.bitmaps, s0) && inode.block == s0.ib
    requires |data| == vol.geo.blockSize && |s0.disk| == |vol.disk|
    requires forall b :: 0 <= b < |vol.disk| && b !in vol.bitmaps ==> vol.disk[b] == s0.disk[b]
    requires 0 < t < vol.geo.totalBlocks < 0x1_0000_0000 && vol.geo.firstDataBlock <= t && t !in vol.bitmaps && t in s0.free
    requires vol.Free() == s0.free - {t} && (forall b :: 0 <= b < |s0.disk| ==> |s0.disk[b]| == |data|)
    modifies vol, inode`block
    ensures vol.Valid() && vol.geo.Ptrs() > 0 && |inode.block| == 15
    ensures ok <==> 1 <= Capacity(vol.geo.Ptrs(), n) && 1 + Missing(vol.geo.Ptrs(), s0.disk, s0.ib, n, 1) <= |s0.free|
    ensures ok ==> Stepped(vol.geo.Ptrs(), vol.bitmaps, s0, n, Snap(vol, inode), n + 1)
    ensures ok ==> FileSound(vol.geo.Ptrs(), vol.bitmaps, Snap(vol, inode), n + 1)
    ensures ok ==> DirBlocks(vol.geo.Ptrs(), Snap(vol, inode), n + 1) == DirBlocks(vol.geo.Ptrs(), s0, n) + [data]
    ensures !ok ==> Scribbled(vol.bitmaps, s0, Snap(vol, inode).(ib := s0.ib))
    ensures |vol.Free()| == |s0.free| - if ok then 1 + Missing(vol.geo.Ptrs(), s0.disk, s0.ib, n, 1)
                                        else if Capacity(vol.geo.Ptrs(), n) > 0 && |s0.free| == 2 then 1 else 0
  {
    hide Consistent, Wrote, Evolved, SamePointers, SameBlocks, Taken, OnlyBitmaps, FreeUsable, Sound, FreeBlocks, Missing, Capacity,
         FileSound, Ptr, DirBlock, Flipped, BlocksNeeded, RoomForOne, HowFar, Stepped, Scribbled, HungRoot, Call;
    ghost var disk1, p := vol.disk, vol.geo.Ptrs();
    DiskSize(vol);
    vol.WriteBlock(t, data);
    ghost var s1, s0' := Snap(vol, inode), s0.(disk := s0.disk[t := data]);
    AllocatedAndWritten(vol.bitmaps, s0.disk, disk1, vol.disk, t, data);
    FreeBlockWritten(vol.bitmaps, s0, t, data);
    ScribbledSound(p, vol.bitmaps, s0, n, s0');
    SameRootTable(p, vol.bitmaps, s0, n, t, data);
    SameDirBlocks(p, s0, s0', n);
    TakenThis(s0', s1, t);
    TakenOk(vol, inode, s0', n, [t]);
    MissingSurvives(p, vol.bitmaps, s0', n, s1, 1);
    ok := HangIn(vol, inode, t, data, s0', n, s1);
    if ok {
      StepVia(p, vol.bitmaps, s0, s0', n, Snap(vol, inode), n + 1);
    } else {
      ScribbledTwice(vol.bitmaps, s0, s0', Snap(vol, inode).(ib := s0.ib));
    }
  }

  /** `write_block_pointers` of the one new block, and `free_block` if it fails. */
  method HangIn(vol: Volume, inode: Inode, t: nat, data: D.Block, ghost s0: Snapshot, ghost n: nat, ghost s1: Snapshot) returns (ok: bool)
    requires MapOk(vol, inode) && vol.geo.Wf() && s1 == Snap(vol, inode) && vol.geo.Ptrs() > 0 && |s1.ib| == 15 && n == Blocks(vol, inode)
    requires FileSound(vol.geo.Ptrs(), vol.bitmaps, s0, n) && FreeUsable(vol.bitmaps, s0) && |s0.ib| == 15
    requires OnlyBitmaps(vol.bitmaps, s0.disk, s1.disk) && s1.ib == s0.ib && |data| == vol.geo.blockSize
    requires 0 < t < vol.geo.totalBlocks < 0x1_0000_0000 && vol.geo.firstDataBlock <= t && t !in vol.bitmaps && t in s0.free
    requires s1.free == s0.free - {t} && |s1.free| == |s0.free| - 1 && Taken(s0.free, [t as word], s1.free)
    requires t < |s1.disk| && s1.disk[t] == data
    modifies vol, inode`block
    ensures vol.Valid() && vol.geo.Ptrs() > 0 && |inode.block| == 15
    ensures ok <==> 1 <= Capacity(vol.geo.Ptrs(), n) && 1 + Missing(vol.geo.Ptrs(), s1.disk, s1.ib, n, 1) <= |s0.free|
    ensures ok ==> Evolved(vol.geo.Ptrs(), vol.bitmaps, s0, n, Snap(vol, inode), n + 1)
    ensures ok ==> DirBlocks(vol.geo.Ptrs(), Snap(vol, inode), n + 1) == DirBlocks(vol.geo.Ptrs(), s0, n) + [data]
    ensures !ok ==> Scribbled(vol.bitmaps, s0, Snap(vol, inode).(ib := s0.ib))
    ensures |vol.Free()| == |s0.free| - if ok then 1 + Missing(vol.geo.Ptrs(), s1.disk, s1.ib, n, 1)
                                        else if Capacity(vol.geo.Ptrs(), n) > 0 && |s0.free| == 2 then 1 else 0
  {
    hide Consistent, Wrote, Evolved, SamePointers, SameBlocks, Taken, OnlyBitmaps, FreeUsable, Sound, FreeBlocks, Missing, Capacity,
         FileSound, Ptr, DirBlock, Flipped, BlocksNeeded, HowFar, Scribbled, HungRoot, Call;
    ghost var p := vol.geo.Ptrs();
    var written := WriteBlockPointers(vol, inode, Blocks(vol, inode), [t]);
    ghost var s2 := Snap(vol, inode);
    HowFarOne(p, n, s0, s1, s2, written);
    if written != 1 {
      DiskSize(vol);
      var _ := vol.FreeBlock(t);
      DiskSize(vol);
      OnlyBitmapsNow(vol.bitmaps, s2.disk, vol.disk, |data|);
      GivenBack(vol.bitmaps, s0, t, s1, s2, Snap(vol, inode));
      HowMuchLost(p, n, Missing(p, s1.disk, s1.ib, n, 1), s0, s1, s2);
      return false;
    }
    assert [t as word][..1] == [t];
    Extended(p, vol.bitmaps, s0, n, [t], s1, s2);
    SameDirBlocks(p, s0, s2, n);
    NewBlockKept(p, vol.bitmaps, s0, n, t, s1, s2, data);
    OneMore(p, s2, n, data);
    return true;
  }

  // ---------------------------------------------------------------- the operations

  lemma DirParts(vol: Volume, inode: Inode)
    requires DirOk(vol, inode)
    ensures vol.geo.Wf() && 1024 <= vol.geo.blockSize < 0x1_0000 && vol.geo.blockSize % 4 == 0
    ensures vol.geo.Ptrs() > 0 && |inode.block| == 15 && vol.geo.blockSize == 4 * vol.geo.Ptrs()
    ensures Blocks(vol, inode) <= inode.size
  {
    ManyBlocks(vol.geo.blockSize, Blocks(vol, inode));
  }

  lemma ManyBlocks(bs: nat, n: nat)
    requires bs > 0
    ensures n <= n * bs && BlocksNeeded(bs, n * bs) == n && (n + 1) * bs == n * bs + bs
  {
    DivModUnique(n * bs + bs - 1, bs, n, bs - 1);
  }

  /** A directory whose blocks are tiled again is a directory again. */
  lemma DirAgain(vol: Volume, inode: Inode, size: nat)
    requires FileOk(vol, inode) && size < 0x1_0000 && size == vol.geo.blockSize && inode.size == Blocks(vol, inode) * size
    ensures DirOk(vol, inode) <==> D.AllTiled(BlocksOf(vol, inode), size)
  {
  }

  /** `find_entry` */
  method FindEntry(vol: Volume, inode: Inode, name: seq<byte>) returns (r: D.Option<D.Entry>)
    requires DirOk(vol, inode) && inode.size + vol.geo.blockSize < 0x1_0000_0000
    ensures r == D.Lookup(Entries(vol, inode), name)
  {
    hide FileOk, Ptr, D.Tiles, D.Listing, D.Lookup, D.Sized, D.FoundAt, D.Rec, D.Next, D.PrevOf, D.EntryAt, D.LastRec;
    DirParts(vol, inode);
    ghost var blocks, size := BlocksOf(vol, inode), vol.geo.blockSize;
    var n := Blocks(vol, inode);
    D.LookupEmpty(name);
    for i := 0 to n
      invariant D.AllTiled(blocks[..i], size) && D.Lookup(D.Contents(blocks[..i], size), name) == D.None
    {
      D.ContentsSplit(blocks, size, i);
      D.ContentsNext(blocks, size, i);
      var _, data := ReadDirBlock(vol, inode, i);
      var found, pos, _ := D.SearchBlock(data, name, D.None);
      D.LookupAppend(D.Contents(blocks[..i], size), D.Listing(data, 0), name);
      if found {
        D.FoundInside(data, pos, name);
        D.LookupAppend(D.Contents(blocks[..i], size), D.Listing(data, 0) + D.Contents(blocks[i + 1..], size), name);
        D.LookupAppend(D.Listing(data, 0), D.Contents(blocks[i + 1..], size), name);
        return D.Some(D.EntryAt(data, pos));
      }
    }
    assert blocks[..n] == blocks;
    return D.None;
  }

  /** A fresh block with just the one entry. */
  function NewDirBlock(size: nat, e: D.Entry): (b: D.Block)
    requires 1024 <= size && D.Writable(e)
    ensures |b| == size
  {
    D.PutEntry(Zeros(size), 0, e, size)
  }

  /** Block i is the first with room for the entry, or one behind the last. */
  predicate PlaceOf(blocks: seq<D.Block>, i: nat, need: nat)
    requires forall j :: 0 <= j < |blocks| ==> D.Tiles(blocks[j], 0)
  {
    i <= |blocks| && (i < |blocks| ==> !D.Full(blocks[i], need)) && forall j :: 0 <= j < i ==> D.Full(blocks[j], need)
  }

  /** What `add_entry` makes of the blocks. */
  function AddedTo(blocks: seq<D.Block>, size: nat, i: nat, e: D.Entry): seq<D.Block>
    requires 1024 <= size && D.Writable(e) && forall j :: 0 <= j < |blocks| ==> D.Tiles(blocks[j], 0)
  {
    if i < |blocks| then blocks[i := D.AddedBlock(blocks[i], e)] else blocks + [NewDirBlock(size, e)]
  }

  /** Four bytes to spare do no harm there; a new block has none. */
  predicate AddFine(blocks: seq<D.Block>, i: nat, need: nat)
    requires forall j :: 0 <= j < |blocks| ==> D.Tiles(blocks[j], 0)
  {
    i < |blocks| ==> D.SlackHarmless(blocks[i], D.FitPos(blocks[i], 0, need), need)
  }

  /** The end of `add_entry`, when no block has room. */
  method AppendEntry(vol: Volume, inode: Inode, e: D.Entry) returns (ok: bool)
    requires DirOk(vol, inode) && D.Writable(e) && inode.size + vol.geo.blockSize < 0x1_0000_0000
    modifies vol, inode
    ensures DirOk(vol, inode) && vol.geo.Wf() && 1024 <= vol.geo.blockSize
    ensures Stepped(vol.geo.Ptrs(), vol.bitmaps, old(Snap(vol, inode)), old(Blocks(vol, inode)), Snap(vol, inode), Blocks(vol, inode))
    ensures ok <==> old(RoomForOne(vol, inode))
    ensures BlocksOf(vol, inode) == old(BlocksOf(vol, inode)) + if ok then [NewDirBlock(vol.geo.blockSize, e)] else []
    ensures ok ==> D.Inserted(old(Entries(vol, inode)), Entries(vol, inode), e)
    ensures !ok ==> inode.block == old(inode.block) && inode.size == old(inode.size)
    ensures |vol.Free()| == |old(vol.Free())| - if ok then 1 + old(TablesToo(vol, inode)) else if old(LosesBlock(vol, inode)) then 1 else 0
  {
    hide Ptr, D.Tiles, D.Listing, D.Sized, D.Inserted, D.PutEntry, Stepped, Evolved, FileSound, RoomForOne, DirBlock, BlocksNeeded, Consistent,
         TablesToo, LosesBlock, FreeBlocks;
    DirParts(vol, inode);
    ghost var blocks, size, n := BlocksOf(vol, inode), vol.geo.blockSize, Blocks(vol, inode);
    var data := NewDirBlock(vol.geo.blockSize, e);
    ok := Grow(vol, inode, data);
    ManyBlocks(size, n);
    ManyBlocks(size, n + 1);
    if ok {
      inode.size := inode.size + vol.geo.blockSize;
      D.NewBlock(size, e);
      D.BlockAppended(blocks, size, data);
      D.InsertedLast(D.Contents(blocks, size), e);
    }
    assert BlocksOf(vol, inode) == blocks + if ok then [data] else [];
    DirAgain(vol, inode, size);
  }

  /**
   `add_entry`, with the place i it found.  It succeeds exactly when a block has room or the directory can grow by one, and
   exactly the entry was added when and only when four bytes to spare do no harm.  Failing, it leaves the directory as it was,
   but may lose a free block.
   */
  method AddEntry(vol: Volume, inode: Inode, e: D.Entry) returns (ok: bool, ghost i: nat)
    requires DirOk(vol, inode) && D.Writable(e) && inode.size + vol.geo.blockSize < 0x1_0000_0000
    modifies vol, inode
    ensures FileOk(vol, inode) && vol.geo.Wf() && 1024 <= vol.geo.blockSize
    ensures Stepped(vol.geo.Ptrs(), vol.bitmaps, old(Snap(vol, inode)), old(Blocks(vol, inode)), Snap(vol, inode), Blocks(vol, inode))
    ensures PlaceOf(old(BlocksOf(vol, inode)), i, D.Need(|e.name|))
    ensures ok <==> i < |old(BlocksOf(vol, inode))| || old(RoomForOne(vol, inode))
    ensures BlocksOf(vol, inode)
         == if ok then AddedTo(old(BlocksOf(vol, inode)), vol.geo.blockSize, i, e) else old(BlocksOf(vol, inode))
    ensures !ok ==> DirOk(vol, inode)
    ensures ok ==> ((DirOk(vol, inode) && D.Inserted(old(Entries(vol, inode)), Entries(vol, inode), e))
                    <==> AddFine(old(BlocksOf(vol, inode)), i, D.Need(|e.name|)))
    ensures !ok ==> inode.block == old(inode.block) && inode.size == old(inode.size)
    ensures |vol.Free()| == |old(vol.Free())| - if i < |old(BlocksOf(vol, inode))| then 0
                                                else if ok then 1 + old(TablesToo(vol, inode))
                                                else if old(LosesBlock(vol, inode)) then 1 else 0
  {
    hide Ptr, D.Tiles, D.Listing, D.Sized, D.Inserted, D.Full, D.Need, D.AddedExactly, D.AddedBlock, D.SlackHarmless, D.FitPos,
         Stepped, Evolved, FileSound, RoomForOne, DirBlock, BlocksNeeded, Consistent, FreeBlocks, TablesToo, LosesBlock;
    DirParts(vol, inode);
    ghost var blocks, size, need, s0 := BlocksOf(vol, inode), vol.geo.blockSize, D.Need(|e.name|), Snap(vol, inode);
    i := 0;
    var k, n := 0, Blocks(vol, inode);
    while k < n
      invariant k <= n && i == k && unchanged(vol) && unchanged(inode)
      invariant forall j :: 0 <= j < k ==> D.Full(blocks[j], need)
    {
      var b, data := ReadDirBlock(vol, inode, k);
      var fits, data' := D.AddInBlock(data, e);
      if fits {
        WriteDirBlock(vol, inode, k, b, data');
        EvolvedIsStep(vol.geo.Ptrs(), vol.bitmaps, s0, n, Snap(vol, inode), n);
        D.AddExact(blocks, size, k, data', e);
        DirAgain(vol, inode, size);
        return true, k;
      }
      k, i := k + 1, k + 1;
    }
    ok := AppendEntry(vol, inode, e);
  }

  /** The blocks after the record at pos of block i was dropped. */
  ghost predicate RemovedFrom(blocks: seq<D.Block>, size: nat, name: seq<byte>, i: nat, pos: nat, prev: D.Option<nat>, blocks': seq<D.Block>)
    requires D.AllTiled(blocks, size)
  {
    && D.RemovalAt(blocks, size, name, i, pos, prev)
    && pos + 8 <= |blocks[i]| && (prev.Some? ==> prev.value + 8 <= |blocks[i]|)
    && blocks' == blocks[i := D.RemovedBlock(blocks[i], prev, pos)]
  }

  /**
   `remove_entry`, with the record it found and the one it took to be the record before.  The first entry of the name, and
   nothing else, is gone when and only when merging into a stale record does no harm.
   */
  method RemoveEntry(vol: Volume, inode: Inode, name: seq<byte>) returns (ok: bool, ghost i: nat, ghost pos: nat, ghost prev: D.Option<nat>)
    requires DirOk(vol, inode) && inode.size + vol.geo.blockSize < 0x1_0000_0000
    modifies vol
    ensures FileOk(vol, inode)
    ensures Evolved(vol.geo.Ptrs(), vol.bitmaps, old(Snap(vol, inode)), Blocks(vol, inode), Snap(vol, inode), Blocks(vol, inode))
    ensures ok <==> D.Lookup(old(Entries(vol, inode)), name).Some?
    ensures !ok ==> vol.disk == old(vol.disk) && DirOk(vol, inode)
    ensures ok ==> RemovedFrom(old(BlocksOf(vol, inode)), vol.geo.blockSize, name, i, pos, prev, BlocksOf(vol, inode))
    ensures ok ==> ((DirOk(vol, inode) && D.Removed(old(Entries(vol, inode)), Entries(vol, inode), name))
                    <==> D.HarmlessAt(old(BlocksOf(vol, inode))[i], pos, prev))
  {
    hide Ptr, D.Tiles, D.Listing, D.Lookup, D.Sized, D.FoundAt, D.Removed, D.Rec, D.PrevOf, D.Merged, D.PutNoInode, D.Next, D.LastRec,
         D.Stale, D.HarmlessMerge, D.HarmlessAt, Evolved, FileSound, DirBlock, BlocksNeeded, Consistent, FreeBlocks;
    DirParts(vol, inode);
    ghost var blocks, size, s0 := BlocksOf(vol, inode), vol.geo.blockSize, Snap(vol, inode);
    ok, i, pos, prev := false, 0, 0, D.None;
    NotEvolved(vol.geo.Ptrs(), vol.bitmaps, s0, Blocks(vol, inode));
    D.LookupEmpty(name);
    D.NothingStale();
    assert blocks[..0] == [];
    var prevEntry, k, n := D.None, 0, Blocks(vol, inode);
    while k < n
      invariant k <= n && unchanged(vol) && D.AllTiled(blocks[..k], size)
      invariant D.Lookup(D.Contents(blocks[..k], size), name) == D.None && prevEntry == D.Stale(blocks[..k])
    {
      D.ContentsSplit(blocks, size, k);
      D.ContentsNext(blocks, size, k);
      var b, data := ReadDirBlock(vol, inode, k);
      var found, at, before := D.SearchBlock(data, name, prevEntry);
      D.LookupAppend(D.Contents(blocks[..k], size), D.Listing(data, 0), name);
      if found {
        D.LookupAppend(D.Contents(blocks[..k], size), D.Listing(data, 0) + D.Contents(blocks[k + 1..], size), name);
        D.LookupAppend(D.Listing(data, 0), D.Contents(blocks[k + 1..], size), name);
        assert D.RemovalAt(blocks, size, name, k, at, before);
        D.RemoveExact(blocks, size, name, k, at, before);
        WriteDirBlock(vol, inode, k, b, D.RemovedBlock(data, before, at));
        DirAgain(vol, inode, size);
        return true, k, at, before;
      }
      D.StaleNext(blocks, k);
      prevEntry := before;
      k := k + 1;
    }
    assert blocks[..n] == blocks;
  }
}

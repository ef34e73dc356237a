/**
 Linked-list directories: blocks tiled by records of inode, record length, name length, type and name.
 A record with inode 0 is unused; a record length of 0 ends its block.
 */
module Ext2Dir {
  import opened Bytes

  type Block = seq<byte>

  datatype Entry = Entry(inode: word, kind: byte, name: seq<byte>)

  // ---------------------------------------------------------------- one record

  function Inode(b: Block, pos: nat): word
    requires pos + 8 <= |b|
  {
    JoinBytes(b[pos], b[pos + 1], b[pos + 2], b[pos + 3])
  }

  function RecLen(b: Block, pos: nat): (n: nat)
    requires pos + 8 <= |b|
    ensures n < 0x1_0000
  {
    JoinBytes(b[pos + 4], b[pos + 5], 0, 0)
  }

  function NameLen(b: Block, pos: nat): byte
    requires pos + 8 <= |b|
  {
    b[pos + 6]
  }

  /** `sizeof(ext2_dirent_t) + ((name_len + 3) & ~3)` */
  function Need(nameLen: nat): (n: nat)
    ensures n >= 8 + nameLen && n % 4 == 0
  {
    8 + (nameLen + 3) / 4 * 4
  }

  /** A record lies inside its block and holds its own name. */
  predicate Rec(b: Block, pos: nat) {
    && pos + 8 <= |b| && RecLen(b, pos) >= 8 && RecLen(b, pos) % 4 == 0 && pos + RecLen(b, pos) <= |b|
    && (Inode(b, pos) != 0 ==> Need(NameLen(b, pos)) <= RecLen(b, pos))
  }

  /** Where the next record starts. */
  function Next(b: Block, pos: nat): (n: nat)
    requires Rec(b, pos)
    ensures pos + 8 <= n <= |b|
  {
    pos + RecLen(b, pos)
  }

  function EntryAt(b: Block, pos: nat): Entry
    requires Rec(b, pos) && Inode(b, pos) != 0
  {
    Entry(Inode(b, pos), b[pos + 7], b[pos + 8..pos + 8 + NameLen(b, pos)])
  }

  predicate Ends(b: Block, pos: nat) {
    pos + 8 <= |b| && RecLen(b, pos) == 0
  }

  // ---------------------------------------------------------------- the records of a block

  /** From pos on, records follow each other to the end of the block or to a zero length. */
  predicate Tiles(b: Block, pos: nat)
    decreases |b| - pos
  {
    pos == |b| || (pos < |b| && pos % 4 == 0 && (Ends(b, pos) || (Rec(b, pos) && Tiles(b, Next(b, pos)))))
  }

  /** The entry of the record at pos, if it is used. */
  function Used(b: Block, pos: nat): seq<Entry>
    requires Rec(b, pos)
  {
    if Inode(b, pos) != 0 then [EntryAt(b, pos)] else []
  }

  /** The entries from pos on, in order. */
  function Listing(b: Block, pos: nat): seq<Entry>
    requires Tiles(b, pos)
    decreases |b| - pos
  {
    if pos == |b| || Ends(b, pos) then [] else Used(b, pos) + Listing(b, Next(b, pos))
  }

  /** Do records lead from p exactly to q? */
  predicate Reaches(b: Block, p: nat, q: nat)
    decreases q - p
  {
    if p >= q then p == q else p % 4 == 0 && Rec(b, p) && Reaches(b, Next(b, p), q)
  }

  /** The entries from p up to q. */
  function Upto(b: Block, p: nat, q: nat): seq<Entry>
    requires Reaches(b, p, q)
    decreases q - p
  {
    if p >= q then [] else Used(b, p) + Upto(b, Next(b, p), q)
  }

  ghost predicate Agree(b: Block, b': Block, from: nat, to: nat) {
    |b'| == |b| && forall k :: 0 <= k < |b| && from <= k < to ==> b'[k] == b[k]
  }

  /** A record reads the same in blocks that agree on it. */
  lemma SameRecord(b: Block, b': Block, pos: nat)
    requires Rec(b, pos) && Agree(b, b', pos, Next(b, pos))
    ensures Rec(b', pos) && Next(b', pos) == Next(b, pos) && Used(b', pos) == Used(b, pos) && Ends(b', pos) == Ends(b, pos) == false
    ensures pos + 8 <= Next(b, pos) <= |b|
  {
    hide JoinBytes;
    if Inode(b, pos) != 0 {
      var n := NameLen(b, pos);
      assert b'[pos + 8..pos + 8 + n] == b[pos + 8..pos + 8 + n];
    }
  }

  lemma SameEnd(b: Block, b': Block, pos: nat)
    requires Ends(b, pos) && Agree(b, b', pos, |b|)
    ensures Ends(b', pos)
  {
  }

  /** Records before q are unchanged, so the listing is their entries followed by what is listed from q. */
  lemma {:induction false} PrefixKept(b: Block, b': Block, p: nat, q: nat)
    requires Reaches(b, p, q) && Agree(b, b', p, q) && Tiles(b', q)
    ensures Reaches(b', p, q) && Tiles(b', p) && Listing(b', p) == Upto(b, p, q) + Listing(b', q)
    decreases q - p
  {
    hide Rec, Next, Used, Ends;
    if p < q {
      ReachesWithin(b, Next(b, p), q);
      SameRecord(b, b', p);
      PrefixKept(b, b', Next(b, p), q);
      assert Listing(b', p) == Used(b', p) + Listing(b', Next(b', p));
    }
  }

  lemma {:induction false} ReachesWithin(b: Block, p: nat, q: nat)
    requires Reaches(b, p, q)
    ensures p <= q && (p < q ==> q <= |b|)
    decreases q - p
  {
    if p < q {
      ReachesWithin(b, Next(b, p), q);
    }
  }

  /** Records from pos on are unchanged. */
  lemma {:induction false} SuffixKept(b: Block, b': Block, pos: nat)
    requires Tiles(b, pos) && Agree(b, b', pos, |b|)
    ensures Tiles(b', pos) && Listing(b', pos) == Listing(b, pos)
    decreases |b| - pos
  {
    hide Rec, Next, Used, Ends;
    if pos < |b| {
      if Ends(b, pos) {
        SameEnd(b, b', pos);
      } else {
        SameRecord(b, b', pos);
        SuffixKept(b, b', Next(b, pos));
      }
    }
  }

  lemma NextAfter(b: Block, pos: nat)
    requires Rec(b, pos)
    ensures pos + 8 <= Next(b, pos) <= |b|
  {
  }

  /** One more record. */
  lemma {:induction false} ReachesNext(b: Block, p: nat, q: nat)
    requires Reaches(b, p, q) && q % 4 == 0 && Rec(b, q)
    ensures Reaches(b, p, Next(b, q)) && Upto(b, p, Next(b, q)) == Upto(b, p, q) + Used(b, q)
    decreases q - p
  {
    hide Rec, Used, Next;
    NextAfter(b, q);
    if p < q {
      NextAfter(b, p);
      ReachesNext(b, Next(b, p), q);
    } else {
      assert Upto(b, q, Next(b, q)) == Used(b, q) + Upto(b, Next(b, q), Next(b, q));
    }
  }

  // ---------------------------------------------------------------- writing records

  function Header(inode: word, recLen: nat, nameLen: nat, kind: byte): (h: seq<byte>)
    ensures |h| == 8
  {
    [ByteOf(inode, 0), ByteOf(inode, 1), ByteOf(inode, 2), ByteOf(inode, 3), recLen % 0x100, recLen / 0x100 % 0x100, nameLen % 0x100, kind]
  }

  /** The record of an entry, `recLen` bytes long, written at pos. */
  function PutEntry(b: Block, pos: nat, e: Entry, recLen: nat): (r: Block)
    requires pos + 8 + |e.name| <= |b|
    ensures |r| == |b|
  {
    Splice(b, pos, Header(e.inode, recLen, |e.name|, e.kind) + e.name)
  }

  /** `rec_len = n` */
  function PutRecLen(b: Block, pos: nat, n: nat): (r: Block)
    requires pos + 8 <= |b|
    ensures |r| == |b|
  {
    b[pos + 4 := n % 0x100][pos + 5 := n / 0x100 % 0x100]
  }

  /** `inode = 0` */
  function PutNoInode(b: Block, pos: nat): (r: Block)
    requires pos + 4 <= |b|
    ensures |r| == |b|
  {
    b[pos := 0][pos + 1 := 0][pos + 2 := 0][pos + 3 := 0]
  }

  /** The unused record written behind a reused one: inode, length and name length, but no type. */
  function PutUnused(b: Block, pos: nat, n: nat): (r: Block)
    requires pos + 8 <= |b|
    ensures |r| == |b|
  {
    PutRecLen(PutNoInode(b, pos), pos, n)[pos + 6 := 0]
  }

  lemma RecLenRoundTrip(n: nat)
    requires n < 0x1_0000
    ensures JoinBytes(n % 0x100, n / 0x100 % 0x100, 0, 0) == n
  {
  }

  /** A written entry reads back. */
  lemma PutEntryMeaning(b: Block, pos: nat, e: Entry, recLen: nat)
    requires Need(|e.name|) <= recLen < 0x1_0000 && pos + recLen <= |b| && recLen % 4 == 0 && e.inode != 0 && |e.name| < 0x100
    ensures var r := PutEntry(b, pos, e, recLen);
      && Rec(r, pos) && Next(r, pos) == pos + recLen && Used(r, pos) == [e] && Inode(r, pos) == e.inode
      && Agree(b, r, 0, pos) && Agree(b, r, pos + 8 + |e.name|, |b|)
  {
    hide JoinBytes, ByteOf, PutEntry, Splice, Need;
    NeedMeaning(|e.name|);
    var r := PutEntry(b, pos, e, recLen);
    PutBytes(b, pos, e, recLen);
    WordRoundTrip(e.inode);
    RecLenRoundTrip(recLen);
    assert r[pos + 8..pos + 8 + |e.name|] == e.name;
  }

  lemma NeedMeaning(n: nat)
    ensures Need(n) >= 8 + n && Need(n) % 4 == 0
  {
  }

  lemma PutBytes(b: Block, pos: nat, e: Entry, recLen: nat)
    requires pos + 8 + |e.name| <= |b|
    ensures var r := PutEntry(b, pos, e, recLen); var h := Header(e.inode, recLen, |e.name|, e.kind);
      && (forall k :: 0 <= k < 8 ==> r[pos + k] == h[k])
      && r[pos] == h[0] && r[pos + 1] == h[1] && r[pos + 2] == h[2] && r[pos + 3] == h[3]
      && r[pos + 4] == h[4] && r[pos + 5] == h[5] && r[pos + 6] == h[6] && r[pos + 7] == h[7]
      && (forall k :: 0 <= k < |e.name| ==> r[pos + 8 + k] == e.name[k])
      && (forall k :: 0 <= k < |b| && !(pos <= k < pos + 8 + |e.name|) ==> r[k] == b[k])
  {
    hide Header;
    var h := Header(e.inode, recLen, |e.name|, e.kind);
    var src := h + e.name;
    assert forall k :: 0 <= k < |src| ==> Splice(b, pos, src)[pos + k] == src[k];
  }

  // ---------------------------------------------------------------- adding to a block

  /** s' is s with e put in at one place. */
  ghost predicate Inserted(s: seq<Entry>, s': seq<Entry>, e: Entry) {
    exists before, after :: InsertedBetween(s, s', before, e, after)
  }

  ghost predicate InsertedBetween(s: seq<Entry>, s': seq<Entry>, before: seq<Entry>, e: Entry, after: seq<Entry>) {
    s == before + after && s' == before + ([e] + after)
  }

  lemma InsertBetween(before: seq<Entry>, after: seq<Entry>, e: Entry)
    ensures Inserted(before + after, before + ([e] + after), e)
  {
    assert InsertedBetween(before + after, before + ([e] + after), before, e, after);
  }

  /** What can be written into a directory: a used inode and a name that fits its length byte. */
  predicate Writable(e: Entry) {
    e.inode != 0 && |e.name| < 0x100
  }

  predicate Sized(b: Block) {
    |b| % 4 == 0 && 8 <= |b| < 0x1_0000
  }

  /** Does a new record of `need` bytes fit at pos: in the empty tail, an unused record, or behind a used one? */
  predicate FitsAt(b: Block, pos: nat, need: nat)
    requires Ends(b, pos) || Rec(b, pos)
  {
    if Ends(b, pos) then |b| - pos >= need
    else if Inode(b, pos) == 0 then RecLen(b, pos) >= need
    else RecLen(b, pos) - Need(NameLen(b, pos)) >= need
  }

  /** The first record from pos on where a new one fits, or the end of the block. */
  function FitPos(b: Block, pos: nat, need: nat): (p: nat)
    requires Tiles(b, pos)
    ensures p == |b| || (p < |b| && (Ends(b, p) || Rec(b, p)) && FitsAt(b, p, need))
    decreases |b| - pos
  {
    if pos == |b| then pos
    else if FitsAt(b, pos, need) then pos
    else if Ends(b, pos) then |b|
    else FitPos(b, Next(b, pos), need)
  }

  lemma ListRecord(b: Block, pos: nat)
    requires Rec(b, pos) && pos % 4 == 0 && Tiles(b, Next(b, pos))
    ensures Tiles(b, pos) && Listing(b, pos) == Used(b, pos) + Listing(b, Next(b, pos)) && !Ends(b, pos) && pos < |b|
  {
    hide Used;
  }

  lemma ListNothing(b: Block, pos: nat)
    requires pos == |b| || (Ends(b, pos) && pos % 4 == 0)
    ensures Tiles(b, pos) && Listing(b, pos) == []
  {
  }

  /** A change confined to what is listed from pos on, put back behind the records before it. */
  lemma GrownFrom(b: Block, b': Block, pos: nat, before: seq<Entry>, after: seq<Entry>, e: Entry)
    requires Reaches(b, 0, pos) && Agree(b, b', 0, pos) && Tiles(b, pos) && Tiles(b', pos)
    requires Listing(b, pos) == before + after && Listing(b', pos) == before + ([e] + after)
    ensures Tiles(b, 0) && Tiles(b', 0) && Inserted(Listing(b, 0), Listing(b', 0), e)
  {
    hide *;
    AgreeSelf(b, 0, pos);
    PrefixKept(b, b, 0, pos);
    PrefixKept(b, b', 0, pos);
    var u := Upto(b, 0, pos);
    assert u + (before + after) == (u + before) + after;
    assert u + (before + ([e] + after)) == (u + before) + ([e] + after);
    InsertBetween(u + before, after, e);
  }

  /** The tail of the block becomes the new record. */
  lemma AddAtEnd(b: Block, pos: nat, e: Entry)
    requires Sized(b) && Writable(e) && pos % 4 == 0 && Reaches(b, 0, pos) && Ends(b, pos) && Need(|e.name|) <= |b| - pos
    ensures var b' := PutEntry(b, pos, e, |b| - pos);
      Tiles(b, 0) && Tiles(b', 0) && Inserted(Listing(b, 0), Listing(b', 0), e)
  {
    hide PutEntry, Rec, Next, Used, Agree, Need, Tiles, Listing, Reaches, Ends;
    var b' := PutEntry(b, pos, e, |b| - pos);
    PutEntryMeaning(b, pos, e, |b| - pos);
    ListNothing(b, pos);
    ListNothing(b', |b|);
    ListRecord(b', pos);
    GrownFrom(b, b', pos, [], [], e);
  }

  lemma AgreeSelf(b: Block, p: nat, q: nat)
    ensures Agree(b, b, p, q)
  {
  }

  /** An unused record takes the new entry; what it has left over is either nothing or room for a header. */
  lemma AddAtUnused(b: Block, pos: nat, e: Entry, b': Block)
    requires Sized(b) && Writable(e) && pos % 4 == 0 && Reaches(b, 0, pos) && Rec(b, pos) && Inode(b, pos) == 0 && Tiles(b, Next(b, pos))
    requires Need(|e.name|) <= RecLen(b, pos) && RecLen(b, pos) != Need(|e.name|) + 4
    requires pos + 8 + |e.name| <= |b|
    requires b' == Reused(b, pos, e)
    ensures Tiles(b, 0) && Tiles(b', 0) && Inserted(Listing(b, 0), Listing(b', 0), e)
  {
    hide PutEntry, Rec, Next, Used, Need, RecLen, Inode, Tiles, Listing, Reaches;
    ReusedRecord(b, pos, e);
    SuffixKept(b, b', Next(b, pos));
    ListRecord(b, pos);
    ListRecord(b', pos);
    GrownFrom(b, b', pos, [], Listing(b, Next(b, pos)), e);
  }

  /** The reuse branch of `add_entry`; the new record keeps the whole length of the old one. */
  function Reused(b: Block, pos: nat, e: Entry): (r: Block)
    requires pos + 8 + |e.name| <= |b|
    ensures |r| == |b|
  {
    var n, need := RecLen(b, pos), Need(|e.name|);
    var b1 := PutEntry(b, pos, e, n);
    if n <= need then b1
    else if pos + need + 8 <= |b| then PutUnused(b1, pos + need, n - need)
    else if pos + need + 4 <= |b| then PutNoInode(b1, pos + need)
    else b1
  }

  /** The same writes in the memory the block's buffer is part of. */
  function ReusedIn(memory: seq<byte>, pos: nat, e: Entry): (r: seq<byte>)
    requires pos + 8 + |e.name| <= |memory| && (RecLen(memory, pos) > Need(|e.name|) ==> pos + Need(|e.name|) + 8 <= |memory|)
    ensures |r| == |memory|
  {
    var n, need := RecLen(memory, pos), Need(|e.name|);
    var m1 := PutEntry(memory, pos, e, n);
    if n > need then PutUnused(m1, pos + need, n - need) else m1
  }

  /** The header of the remainder stays inside the buffer unless four bytes are left at its very end: then the three bytes behind it are overwritten. */
  lemma BehindTheBuffer(b: Block, beyond: seq<byte>, pos: nat, e: Entry)
    requires Sized(b) && pos % 4 == 0 && Rec(b, pos) && Need(|e.name|) <= RecLen(b, pos) && |beyond| >= 8
    ensures pos + 8 + |e.name| <= |b| && RecLen(b + beyond, pos) == RecLen(b, pos) && pos + Need(|e.name|) + 8 <= |b + beyond|
    ensures ReusedIn(b + beyond, pos, e)
         == Reused(b, pos, e) + (if RecLen(b, pos) == Need(|e.name|) + 4 && Next(b, pos) == |b| then [4, 0, 0] + beyond[3..] else beyond)
  {
    hide JoinBytes, PutEntry, Need, PutUnused, PutNoInode, Inode, NameLen;
    NeedMeaning(|e.name|);
    var n, need, memory := RecLen(b, pos), Need(|e.name|), b + beyond;
    assert RecLen(memory, pos) == n;
    var b1, m1 := PutEntry(b, pos, e, n), PutEntry(memory, pos, e, n);
    PutBehind(b, beyond, pos, e, n);
    if n > need {
      if n == need + 4 {
        UnusedBehind(b1, beyond, pos + need, 4);
      } else {
        SlackRoom(n, need);
        UnusedInside(b1, beyond, pos + need, n - need);
      }
    }
  }

  lemma PutBehind(b: Block, beyond: seq<byte>, pos: nat, e: Entry, n: nat)
    requires pos + 8 + |e.name| <= |b|
    ensures PutEntry(b + beyond, pos, e, n) == PutEntry(b, pos, e, n) + beyond
  {
    hide Header, Splice;
    PutBytes(b, pos, e, n);
    PutBytes(b + beyond, pos, e, n);
    var l, r, h := PutEntry(b + beyond, pos, e, n), PutEntry(b, pos, e, n) + beyond, Header(e.inode, n, |e.name|, e.kind);
    forall k | 0 <= k < |l|
      ensures l[k] == r[k]
    {
      if pos <= k < pos + 8 {
        assert l[pos + (k - pos)] == h[k - pos] && PutEntry(b, pos, e, n)[pos + (k - pos)] == h[k - pos];
      } else if pos + 8 <= k < pos + 8 + |e.name| {
        assert l[pos + 8 + (k - pos - 8)] == e.name[k - pos - 8] == PutEntry(b, pos, e, n)[pos + 8 + (k - pos - 8)];
      }
    }
  }

  lemma UnusedInside(b: Block, beyond: seq<byte>, at: nat, n: nat)
    requires at + 8 <= |b|
    ensures PutUnused(b + beyond, at, n) == PutUnused(b, at, n) + beyond
  {
  }

  lemma UnusedBehind(b: Block, beyond: seq<byte>, at: nat, n: nat)
    requires |b| >= 4 && (at + 4 == |b| || at + 8 <= |b|) && |beyond| >= 4 && n == 4
    ensures PutUnused(b + beyond, at, n)
         == if at + 8 <= |b| then PutUnused(b, at, n) + beyond else PutNoInode(b, at) + ([4, 0, 0] + beyond[3..])
  {
  }

  lemma ReusedRecord(b: Block, pos: nat, e: Entry)
    requires Writable(e) && Rec(b, pos) && Inode(b, pos) == 0 && pos + 8 + |e.name| <= |b|
    requires Need(|e.name|) <= RecLen(b, pos) && RecLen(b, pos) != Need(|e.name|) + 4
    ensures var b' := Reused(b, pos, e);
      && Rec(b', pos) && Next(b', pos) == Next(b, pos) && Used(b', pos) == [e] && Used(b, pos) == []
      && Agree(b, b', 0, pos) && Agree(b, b', Next(b, pos), |b|) && pos + 8 <= Next(b, pos) <= |b|
  {
    hide PutEntry, JoinBytes;
    var n, need := RecLen(b, pos), Need(|e.name|);
    PutEntryMeaning(b, pos, e, n);
    var b1 := PutEntry(b, pos, e, n);
    if n > need {
      SlackRoom(n, need);
      SameRecordFront(b1, Reused(b, pos, e), pos, e);
    }
  }

  lemma SlackRoom(n: nat, need: nat)
    requires n % 4 == 0 && need % 4 == 0 && n > need && n != need + 4
    ensures n >= need + 8
  {
  }

  /** A record reads the same when only bytes behind its name change. */
  lemma SameRecordFront(b: Block, b': Block, pos: nat, e: Entry)
    requires Rec(b, pos) && Used(b, pos) == [e] && Agree(b, b', pos, pos + 8 + |e.name|)
    ensures Rec(b', pos) && Next(b', pos) == Next(b, pos) && Used(b', pos) == [e]
  {
    hide JoinBytes;
    assert b'[pos + 8..pos + 8 + NameLen(b, pos)] == b[pos + 8..pos + 8 + NameLen(b, pos)];
  }

  /** The split branch of `add_entry`. */
  function SplitRecord(b: Block, pos: nat, e: Entry): (r: Block)
    requires pos + 8 <= |b| && pos + Need(NameLen(b, pos)) + 8 + |e.name| <= |b| && RecLen(b, pos) >= Need(NameLen(b, pos))
    ensures |r| == |b|
  {
    var keep := Need(NameLen(b, pos));
    PutEntry(PutRecLen(b, pos, keep), pos + keep, e, RecLen(b, pos) - keep)
  }

  /** Shortening a used record to what it needs. */
  lemma Shortened(b: Block, pos: nat)
    requires Rec(b, pos) && Inode(b, pos) != 0
    ensures var keep := Need(NameLen(b, pos)); var b1 := PutRecLen(b, pos, keep);
      && Rec(b1, pos) && Next(b1, pos) == pos + keep && Used(b1, pos) == Used(b, pos) && Inode(b1, pos) != 0 && pos + 8 <= pos + keep <= Next(b, pos)
      && Agree(b, b1, 0, pos) && Agree(b, b1, pos + 6, |b|)
  {
    hide JoinBytes;
    var keep := Need(NameLen(b, pos));
    RecLenRoundTrip(keep);
    var b1 := PutRecLen(b, pos, keep);
    assert RecLen(b1, pos) == keep;
    assert b1[pos + 8..pos + 8 + NameLen(b, pos)] == b[pos + 8..pos + 8 + NameLen(b, pos)];
  }

  /** A used record gives the room behind its name to the new entry. */
  lemma AddBehindUsed(b: Block, pos: nat, e: Entry)
    requires Sized(b) && Writable(e) && pos % 4 == 0 && Reaches(b, 0, pos) && Rec(b, pos) && Inode(b, pos) != 0 && Tiles(b, Next(b, pos))
    requires RecLen(b, pos) >= Need(NameLen(b, pos)) + Need(|e.name|)
    ensures pos + Need(NameLen(b, pos)) + 8 + |e.name| <= |b|
    ensures var b' := SplitRecord(b, pos, e);
      Tiles(b, 0) && Tiles(b', 0) && Inserted(Listing(b, 0), Listing(b', 0), e)
  {
    hide PutEntry, PutRecLen, Inode, Used, Tiles, Listing, Reaches, Agree, JoinBytes, Header, Inserted;
    var keep := Need(NameLen(b, pos));
    Shortened(b, pos);
    var b1 := PutRecLen(b, pos, keep);
    PutEntryMeaning(b1, pos + keep, e, RecLen(b, pos) - keep);
    var b' := SplitRecord(b, pos, e);
    AgreeLess(b1, b', pos + keep + 8 + |e.name|, |b|, Next(b, pos), |b|);
    SplitRecords(b, b1, b', pos, keep, Next(b, pos), e);
    ListRecord(b, pos);
    ListRecord(b', pos + keep);
    ListRecord(b', pos);
    GrownFrom(b, b', pos, Used(b, pos), Listing(b, Next(b, pos)), e);
  }

  lemma SplitRecords(b: Block, b1: Block, b': Block, pos: nat, keep: nat, next: nat, e: Entry)
    requires pos % 4 == 0 && Rec(b1, pos) && Next(b1, pos) == pos + keep && 8 <= keep && pos + keep + 8 <= next <= |b|
    requires Agree(b, b1, 0, pos) && Agree(b, b1, pos + 6, |b|)
    requires Agree(b1, b', 0, pos + keep) && Agree(b1, b', next, |b1|)
    requires Tiles(b, next)
    ensures Rec(b', pos) && Next(b', pos) == pos + keep && Used(b', pos) == Used(b1, pos) && (pos + keep) % 4 == 0
    ensures Agree(b, b', 0, pos) && Tiles(b', next) && Listing(b', next) == Listing(b, next)
  {
    hide RecLen, Used, Inode, Tiles, Listing;
    SameRecord(b1, b', pos);
    SuffixKept(b, b', next);
    KeepsStep(b1, pos, keep);
  }

  lemma KeepsStep(b: Block, pos: nat, keep: nat)
    requires pos % 4 == 0 && Rec(b, pos) && Next(b, pos) == pos + keep
    ensures (pos + keep) % 4 == 0
  {
    hide RecLen, Inode, Need, NameLen;
    FourMore(pos, keep);
  }

  lemma FourMore(a: nat, c: nat)
    requires a % 4 == 0 && c % 4 == 0
    ensures (a + c) % 4 == 0
  {
  }

  lemma AgreeLess(b: Block, b': Block, from: nat, to: nat, from': nat, to': nat)
    requires Agree(b, b', from, to) && from <= from' && to' <= to
    ensures Agree(b, b', from', to')
  {
  }

  /** With four bytes left over, the header of the unused remainder runs into the next record's inode. */
  lemma SlackFourClobbers(b: Block, pos: nat, e: Entry)
    requires Writable(e) && Rec(b, pos) && Inode(b, pos) == 0 && RecLen(b, pos) == Need(|e.name|) + 4
    requires Next(b, pos) + 8 <= |b|
    ensures pos + 8 + |e.name| <= |b|
    ensures var b', n := Reused(b, pos, e), Next(b, pos);
      && Inode(b', n) == Inode(b, n) / 0x100_0000 * 0x100_0000 + 4
      && (Inode(b', n) == Inode(b, n) <==> Inode(b, n) % 0x100_0000 == 4)
      && Agree(b, b', n + 3, |b|) && (Inode(b, n) % 0x100_0000 == 4 ==> Agree(b, b', n, |b|))
  {
    hide JoinBytes, Reused, Need, RecLen;
    var n := Next(b, pos);
    SlackFourBytes(b, pos, e);
    NextAfter(b, pos);
    FourClobbered(b[n], b[n + 1], b[n + 2], b[n + 3]);
  }

  lemma SlackFourBytes(b: Block, pos: nat, e: Entry)
    requires Writable(e) && Rec(b, pos) && Inode(b, pos) == 0 && RecLen(b, pos) == Need(|e.name|) + 4
    requires Next(b, pos) + 8 <= |b|
    ensures pos + 8 + |e.name| <= |b|
    ensures var b', n := Reused(b, pos, e), Next(b, pos);
      b'[n] == 4 && b'[n + 1] == 0 && b'[n + 2] == 0 && forall k :: n + 3 <= k < |b| ==> b'[k] == b[k]
  {
    hide JoinBytes, Need, PutEntry, PutUnused, Inode;
    NeedMeaning(|e.name|);
    PutBytes(b, pos, e, RecLen(b, pos));
    UnusedBytes(PutEntry(b, pos, e, RecLen(b, pos)), pos + Need(|e.name|), 4);
  }

  /** The new record itself, whatever becomes of what is left over. */
  lemma SlackFourRecord(b: Block, pos: nat, e: Entry)
    requires Writable(e) && Rec(b, pos) && Inode(b, pos) == 0 && RecLen(b, pos) == Need(|e.name|) + 4
    ensures pos + 8 + |e.name| <= |b|
    ensures var b' := Reused(b, pos, e);
      && Rec(b', pos) && Next(b', pos) == Next(b, pos) && Used(b', pos) == [e] && Used(b, pos) == [] && Agree(b, b', 0, pos)
  {
    hide PutEntry, JoinBytes, Need;
    NeedMeaning(|e.name|);
    var need, n := Need(|e.name|), RecLen(b, pos);
    PutEntryMeaning(b, pos, e, n);
    var b1, b' := PutEntry(b, pos, e, n), Reused(b, pos, e);
    assert Agree(b1, b', 0, pos + need);
    SameRecordFront(b1, b', pos, e);
  }

  /** Does an unused record at p with four bytes to spare leave what follows as it is? */
  predicate SlackHarmless(b: Block, p: nat, need: nat) {
    Rec(b, p) && Inode(b, p) == 0 && RecLen(b, p) == need + 4 ==>
      var n := Next(b, p); n == |b| || Ends(b, n) || (n + 8 <= |b| && Inode(b, n) % 0x100_0000 == 4)
  }

  /** Reuse with four bytes to spare adds exactly the entry when and only when nothing follows or the next inode already has those bytes. */
  lemma SlackFourExact(b: Block, pos: nat, e: Entry)
    requires Sized(b) && Writable(e) && pos % 4 == 0 && Reaches(b, 0, pos) && Rec(b, pos) && Inode(b, pos) == 0 && Tiles(b, Next(b, pos))
    requires RecLen(b, pos) == Need(|e.name|) + 4
    ensures pos + 8 + |e.name| <= |b|
    ensures var b' := Reused(b, pos, e);
      && Tiles(b, 0)
      && (SlackHarmless(b, pos, Need(|e.name|)) ==> Tiles(b', 0) && Inserted(Listing(b, 0), Listing(b', 0), e))
      && (Tiles(b', 0) && multiset(Listing(b', 0)) == multiset(Listing(b, 0)) + multiset{e} ==> SlackHarmless(b, pos, Need(|e.name|)))
  {
    hide PutEntry, Used, Need, RecLen, Inode, Listing, Reused, Tiles, Reaches, Rec, Next, Inserted;
    SlackFourRecord(b, pos, e);
    var b', n := Reused(b, pos, e), Next(b, pos);
    ListRecord(b, pos);
    ListFrom(b, pos);
    if SlackHarmless(b, pos, Need(|e.name|)) {
      SlackTail(b, b', pos, e);
      ListRecord(b', pos);
      GrownFrom(b, b', pos, [], Listing(b, n), e);
    } else if Tiles(b', 0) {
      SlackHarms(b, b', pos, e);
    }
  }

  lemma SlackTail(b: Block, b': Block, pos: nat, e: Entry)
    requires Writable(e) && pos % 4 == 0 && Rec(b, pos) && Inode(b, pos) == 0 && Tiles(b, Next(b, pos)) && RecLen(b, pos) == Need(|e.name|) + 4
    requires pos + 8 + |e.name| <= |b| && b' == Reused(b, pos, e) && SlackHarmless(b, pos, Need(|e.name|))
    ensures Tiles(b', Next(b, pos)) && Listing(b', Next(b, pos)) == Listing(b, Next(b, pos))
  {
    hide PutEntry, Used, Need, Reused;
    var n := Next(b, pos);
    if n < |b| {
      SlackFourClobbers(b, pos, e);
      if !Ends(b, n) {
        SuffixKept(b, b', n);
      }
    }
  }

  lemma SlackHarms(b: Block, b': Block, pos: nat, e: Entry)
    requires Writable(e) && pos % 4 == 0 && Reaches(b, 0, pos) && Rec(b, pos) && Inode(b, pos) == 0 && Tiles(b, Next(b, pos))
    requires RecLen(b, pos) == Need(|e.name|) + 4 && pos + 8 + |e.name| <= |b| && b' == Reused(b, pos, e)
    requires !SlackHarmless(b, pos, Need(|e.name|)) && Tiles(b, 0) && Tiles(b', 0)
    ensures multiset(Listing(b', 0)) != multiset(Listing(b, 0)) + multiset{e}
  {
    hide PutEntry, Used, Need, Reused, Inserted, Reaches, Upto, Listing, JoinBytes, Header;
    var n := Next(b, pos);
    TileHere(b, n);
    SlackFourClobbers(b, pos, e);
    SlackFourRecord(b, pos, e);
    ListRecord(b, n);
    ListRecord(b, pos);
    ListFrom(b, pos);
    TilesReach(b, b', pos);
    TileHere(b', n);
    ListRecord(b', pos);
    SuffixKept(b, b', Next(b, n));
    ListRecord(b', n);
    UsedEntry(b', n);
    var u, x', r := Upto(b, 0, pos), EntryAt(b', n), Listing(b, Next(b, n));
    assert Listing(b', 0) == u + ([e] + ([x'] + r));
    assert Listing(b, 0) == u + ([] + (Used(b, n) + r));
    if Inode(b, n) != 0 {
      UsedEntry(b, n);
    } else {
      NotUsed(b, n);
    }
    OneTooMany(u, e, x', Used(b, n), r);
  }

  lemma NotUsed(b: Block, pos: nat)
    requires Rec(b, pos) && Inode(b, pos) == 0
    ensures Used(b, pos) == []
  {
  }

  /** A second entry that changed, or appeared, is more than one insertion. */
  lemma OneTooMany(u: seq<Entry>, e: Entry, x': Entry, was: seq<Entry>, r: seq<Entry>)
    requires was == [] || (|was| == 1 && was[0] != x')
    ensures multiset(u + ([e] + ([x'] + r))) != multiset(u + ([] + (was + r))) + multiset{e}
  {
    CountInThree(u, [], was, r, x');
    CountInThree(u, [e], [x'], r, x');
    assert was != [] ==> was == [was[0]];
  }

  lemma CountInThree(u: seq<Entry>, a: seq<Entry>, c: seq<Entry>, r: seq<Entry>, x: Entry)
    ensures multiset(u + (a + (c + r)))[x] == multiset(u)[x] + multiset(a)[x] + multiset(c)[x] + multiset(r)[x]
  {
  }

  lemma InsertedCount(s: seq<Entry>, s': seq<Entry>, e: Entry)
    requires Inserted(s, s', e)
    ensures multiset(s') == multiset(s) + multiset{e}
  {
    var before, after :| InsertedBetween(s, s', before, e, after);
    assert multiset(s') == multiset(before) + (multiset{e} + multiset(after));
  }

  /** Where the records up to pos are unchanged, the other block is tiled from pos on too. */
  lemma {:induction false} TilesReach(b: Block, b': Block, pos: nat)
    requires Reaches(b, 0, pos) && Agree(b, b', 0, pos) && Tiles(b', 0)
    ensures Tiles(b', pos) && Listing(b', 0) == Upto(b, 0, pos) + Listing(b', pos)
  {
    TilesReachFrom(b, b', 0, pos);
  }

  lemma {:induction false} TilesReachFrom(b: Block, b': Block, p: nat, q: nat)
    requires Reaches(b, p, q) && Agree(b, b', p, q) && Tiles(b', p)
    ensures Tiles(b', q) && Listing(b', p) == Upto(b, p, q) + Listing(b', q)
    decreases q - p
  {
    hide Rec, Next, Used, Ends;
    if p < q {
      var n, u := Next(b, p), Used(b, p);
      ReachesWithin(b, n, q);
      SameRecord(b, b', p);
      TilesReachFrom(b, b', n, q);
      assert u + (Upto(b, n, q) + Listing(b', q)) == (u + Upto(b, n, q)) + Listing(b', q);
    }
  }

  lemma UnusedBytes(b: Block, pos: nat, n: nat)
    requires pos + 8 <= |b|
    ensures var r := PutUnused(b, pos, n);
      && r[pos + 4] == n % 0x100 && r[pos + 5] == n / 0x100 % 0x100 && r[pos + 6] == 0
      && forall k :: 0 <= k < |b| && !(pos <= k < pos + 7) ==> r[k] == b[k]
  {
  }

  lemma FourClobbered(b0: byte, b1: byte, b2: byte, b3: byte)
    ensures JoinBytes(4, 0, 0, b3) == JoinBytes(b0, b1, b2, b3) / 0x100_0000 * 0x100_0000 + 4
    ensures JoinBytes(4, 0, 0, b3) == JoinBytes(b0, b1, b2, b3) <==> JoinBytes(b0, b1, b2, b3) % 0x100_0000 == 4
    ensures JoinBytes(b0, b1, b2, b3) % 0x100_0000 == 4 <==> b0 == 4 && b1 == 0 && b2 == 0
  {
    var low: nat := b0 + 0x100 * b1 + 0x1_0000 * b2;
    assert JoinBytes(b0, b1, b2, b3) == low + 0x100_0000 * b3 && low < 0x100_0000;
  }

  // ---------------------------------------------------------------- looking up and removing

  datatype Option<T> = None | Some(value: T)

  /** The first entry of the given name. */
  function Lookup(s: seq<Entry>, name: seq<byte>): Option<Entry> {
    if s == [] then None else if s[0].name == name then Some(s[0]) else Lookup(s[1..], name)
  }

  lemma {:induction false} LookupAppend(s: seq<Entry>, t: seq<Entry>, name: seq<byte>)
    ensures Lookup(s + t, name) == if Lookup(s, name).Some? then Lookup(s, name) else Lookup(t, name)
  {
    if s == [] {
      assert s + t == t;
    } else {
      assert (s + t)[1..] == s[1..] + t;
      LookupAppend(s[1..], t, name);
    }
  }

  lemma {:induction false} LookupNone(s: seq<Entry>, name: seq<byte>)
    ensures Lookup(s, name) == None <==> forall k :: 0 <= k < |s| ==> s[k].name != name
    ensures Lookup(s, name).Some? ==> Lookup(s, name).value.name == name && Lookup(s, name).value in s
  {
    if s != [] {
      LookupNone(s[1..], name);
      assert forall k :: 1 <= k < |s| ==> s[k] == s[1..][k - 1];
    }
  }

  /** s' is s without its first entry of the given name. */
  ghost predicate Removed(s: seq<Entry>, s': seq<Entry>, name: seq<byte>) {
    exists before, e, after :: RemovedBetween(s, s', before, e, after) && e.name == name
  }

  ghost predicate RemovedBetween(s: seq<Entry>, s': seq<Entry>, before: seq<Entry>, e: Entry, after: seq<Entry>) {
    s == before + ([e] + after) && s' == before + after && Lookup(before, e.name) == None
  }

  lemma RemoveBetween(before: seq<Entry>, e: Entry, after: seq<Entry>)
    requires Lookup(before, e.name) == None
    ensures Removed(before + ([e] + after), before + after, e.name)
  {
    assert RemovedBetween(before + ([e] + after), before + after, before, e, after);
  }

  /** The record at pos is the first one for this name. */
  predicate FoundAt(b: Block, pos: nat, name: seq<byte>) {
    && pos % 4 == 0 && Reaches(b, 0, pos) && Rec(b, pos) && Inode(b, pos) != 0 && EntryAt(b, pos).name == name
    && Lookup(Upto(b, 0, pos), name) == None
  }

  /** A change confined to what is listed from pos on, which drops entry e there. */
  lemma ShrunkFrom(b: Block, b': Block, pos: nat, before: seq<Entry>, e: Entry, after: seq<Entry>)
    requires Reaches(b, 0, pos) && Agree(b, b', 0, pos) && Tiles(b, pos) && Tiles(b', pos)
    requires Listing(b, pos) == before + ([e] + after) && Listing(b', pos) == before + after
    requires Lookup(Upto(b, 0, pos) + before, e.name) == None
    ensures Tiles(b, 0) && Tiles(b', 0) && Removed(Listing(b, 0), Listing(b', 0), e.name)
  {
    hide *;
    AgreeSelf(b, 0, pos);
    PrefixKept(b, b, 0, pos);
    PrefixKept(b, b', 0, pos);
    var u := Upto(b, 0, pos);
    assert u + (before + after) == (u + before) + after;
    assert u + (before + ([e] + after)) == (u + before) + ([e] + after);
    RemoveBetween(u + before, e, after);
  }

  /** Merging a used record into the one before it. */
  function Merged(b: Block, prev: nat, pos: nat): (r: Block)
    requires prev + 8 <= |b| && pos + 8 <= |b|
    ensures |r| == |b|
  {
    PutRecLen(PutNoInode(b, pos), prev, (RecLen(b, prev) + RecLen(b, pos)) % 0x1_0000)
  }

  lemma MergedRecord(b: Block, prev: nat, pos: nat)
    requires Sized(b) && Rec(b, prev) && Next(b, prev) == pos && Rec(b, pos)
    ensures var b' := Merged(b, prev, pos);
      && Rec(b', prev) && Next(b', prev) == Next(b, pos) && Used(b', prev) == Used(b, prev)
      && Agree(b, b', 0, prev) && Agree(b, b', Next(b, pos), |b|)
  {
    hide JoinBytes;
    var b' := Merged(b, prev, pos);
    MergedBytes(b, prev, pos);
    var n := RecLen(b, prev) + RecLen(b, pos);
    FourMore(RecLen(b, prev), RecLen(b, pos));
    SameUsed(b, b', prev);
  }

  lemma MergedBytes(b: Block, prev: nat, pos: nat)
    requires prev + 8 <= pos && pos + 8 <= |b| && RecLen(b, prev) + RecLen(b, pos) < 0x1_0000
    ensures var b' := Merged(b, prev, pos);
      && RecLen(b', prev) == RecLen(b, prev) + RecLen(b, pos)
      && forall k :: 0 <= k < |b| && k != prev + 4 && k != prev + 5 && !(pos <= k < pos + 4) ==> b'[k] == b[k]
  {
    hide RecLen;
    RecLenOfPut(PutNoInode(b, pos), prev, (RecLen(b, prev) + RecLen(b, pos)) % 0x1_0000);
  }

  /** A longer record with the same inode, type and name holds the same entry. */
  lemma SameUsed(b: Block, b': Block, pos: nat)
    requires Rec(b, pos) && |b'| == |b| && pos + RecLen(b', pos) <= |b| && RecLen(b', pos) % 4 == 0 && RecLen(b', pos) >= RecLen(b, pos)
    requires forall k :: pos <= k < pos + RecLen(b, pos) && k != pos + 4 && k != pos + 5 ==> b'[k] == b[k]
    ensures Rec(b', pos) && Next(b', pos) == pos + RecLen(b', pos) && Used(b', pos) == Used(b, pos)
  {
    hide JoinBytes, RecLen;
    RecHeader(b, pos);
    assert Inode(b', pos) == Inode(b, pos) && NameLen(b', pos) == NameLen(b, pos);
    if Inode(b, pos) != 0 {
      assert b'[pos + 8..pos + 8 + NameLen(b, pos)] == b[pos + 8..pos + 8 + NameLen(b, pos)];
    }
  }

  lemma RecHeader(b: Block, pos: nat)
    requires Rec(b, pos)
    ensures pos + 8 <= pos + RecLen(b, pos) <= |b|
  {
  }

  /** Removing a record by merging drops exactly its entry. */
  lemma MergeRemoves(b: Block, prev: nat, pos: nat, name: seq<byte>)
    requires Sized(b) && Tiles(b, 0) && FoundAt(b, pos, name) && prev % 4 == 0 && Reaches(b, 0, prev) && Rec(b, prev) && Next(b, prev) == pos
    requires Tiles(b, Next(b, pos))
    ensures Tiles(b, 0) && Tiles(Merged(b, prev, pos), 0) && Removed(Listing(b, 0), Listing(Merged(b, prev, pos), 0), name)
  {
    hide Merged, Rec, Next, Used, Tiles, Listing, Reaches, Upto, Inode, Agree, EntryAt;
    var b' := Merged(b, prev, pos);
    MergedRecord(b, prev, pos);
    ListRecord(b, pos);
    ListRecord(b, prev);
    SuffixKept(b, b', Next(b, pos));
    ListRecord(b', prev);
    ReachesNext(b, 0, prev);
    UsedEntry(b, pos);
    ShrunkFrom(b, b', prev, Used(b, prev), EntryAt(b, pos), Listing(b, Next(b, pos)));
  }

  lemma UsedEntry(b: Block, pos: nat)
    requires Rec(b, pos) && Inode(b, pos) != 0
    ensures Used(b, pos) == [EntryAt(b, pos)]
  {
  }

  lemma ClearedRecord(b: Block, pos: nat)
    requires Rec(b, pos)
    ensures var b' := PutNoInode(b, pos);
      Rec(b', pos) && Next(b', pos) == Next(b, pos) && Used(b', pos) == [] && Agree(b, b', 0, pos) && Agree(b, b', Next(b, pos), |b|)
  {
    hide JoinBytes;
    NoInode();
    assert Inode(PutNoInode(b, pos), pos) == 0;
  }

  lemma NoInode()
    ensures JoinBytes(0, 0, 0, 0) == 0
  {
  }

  /** Removing the first record of a block by clearing its inode. */
  lemma ClearRemoves(b: Block, name: seq<byte>)
    requires Sized(b) && FoundAt(b, 0, name) && Tiles(b, Next(b, 0))
    ensures Tiles(b, 0) && Tiles(PutNoInode(b, 0), 0) && Removed(Listing(b, 0), Listing(PutNoInode(b, 0), 0), name)
  {
    hide PutNoInode, Rec, Next, Used, Tiles, Listing, Inode, Agree, EntryAt;
    var b' := PutNoInode(b, 0);
    ClearedRecord(b, 0);
    ListRecord(b, 0);
    SuffixKept(b, b', Next(b, 0));
    ListRecord(b', 0);
    UsedEntry(b, 0);
    ShrunkFrom(b, b', 0, [], EntryAt(b, 0), Listing(b, Next(b, 0)));
  }

  // ---------------------------------------------------------------- merging into a stale record

  /** Does what is listed from x on equal what is listed from n on? */
  predicate Lands(b: Block, x: nat, n: nat)
    requires Tiles(b, n)
  {
    x <= |b| && Tiles(b, x) && Listing(b, x) == Listing(b, n)
  }

  /**
   `remove_entry` adds n to the 16-bit number at q + 4, which is a record's length only if q happens to be a record.
   From pos on this does no harm if the number lies behind the records, in the inode of the terminator, in an unused
   record behind its header, behind a used record's name, or is the length of a record that now skips only unused ones.
   */
  predicate Harmless(b: Block, pos: nat, q: nat, n: nat)
    requires Tiles(b, pos)
    decreases |b| - pos
  {
    if pos == |b| || q + 4 < pos then true
    else if Ends(b, pos) then q == pos ==> Inode(b, pos) == 0 && Lands(b, pos + n, pos)
    else if q + 4 >= Next(b, pos) then Harmless(b, Next(b, pos), q, n)
    else if q + 4 == pos then false
    else if q == pos then Lands(b, Next(b, pos) + n, Next(b, pos))
    else Inode(b, pos) == 0 || q + 4 >= pos + 8 + NameLen(b, pos) || (q + 5 == pos + 8 + NameLen(b, pos) && n % 0x100 == 0)
  }

  /** The same, of the first record of a block, which is itself the one removed: at q == 0 its own length doubles. */
  predicate HarmlessMerge(b: Block, q: nat)
    requires Rec(b, 0) && Tiles(b, Next(b, 0))
  {
    var n := RecLen(b, 0);
    if q == 0 then
      var x := 2 * n % 0x1_0000;
      if x == 0 then Listing(b, Next(b, 0)) == [] else x >= 8 && Lands(b, x, Next(b, 0))
    else Harmless(b, Next(b, 0), q, n)
  }

  /** What the addition does to the bytes. */
  ghost predicate Bumped(b: Block, b': Block, q: nat, n: nat) {
    && |b'| == |b| && q + 8 <= |b| && 8 <= n < 0x1_0000 && n % 4 == 0
    && (forall k :: 4 <= k < |b| && k != q + 4 && k != q + 5 ==> b'[k] == b[k])
    && RecLen(b', q) == (RecLen(b, q) + n) % 0x1_0000
  }

  lemma BumpedMerge(b: Block, q: nat)
    requires Sized(b) && Rec(b, 0) && q + 8 <= |b|
    ensures Bumped(b, Merged(b, q, 0), q, RecLen(b, 0))
    ensures Inode(Merged(b, q, 0), 0) == 0
  {
    hide JoinBytes;
    NoInode();
    RecLenOfPut(PutNoInode(b, 0), q, (RecLen(b, q) + RecLen(b, 0)) % 0x1_0000);
  }

  /** Adding n changes the low byte exactly when n is no multiple of 256, and always changes one of the two. */
  lemma BumpedBytes(b: Block, b': Block, q: nat, n: nat)
    requires Bumped(b, b', q, n)
    ensures b'[q + 4] == b[q + 4] <==> n % 0x100 == 0
    ensures b'[q + 4] != b[q + 4] || b'[q + 5] != b[q + 5]
  {
    hide RecLen;
    assert RecLen(b, q) == JoinBytes(b[q + 4], b[q + 5], 0, 0) && RecLen(b', q) == JoinBytes(b'[q + 4], b'[q + 5], 0, 0) by {
      LenBytes(b, q);
      LenBytes(b', q);
    }
    SumBytes(b[q + 4], b[q + 5], b'[q + 4], b'[q + 5], n);
  }

  lemma LenBytes(b: Block, q: nat)
    requires q + 8 <= |b|
    ensures RecLen(b, q) == JoinBytes(b[q + 4], b[q + 5], 0, 0)
  {
  }

  lemma SumBytes(lo: int, hi: int, lo': int, hi': int, n: nat)
    requires 0 <= lo < 0x100 && 0 <= hi < 0x100 && 0 <= lo' < 0x100 && 0 <= hi' < 0x100 && 0 < n < 0x1_0000
    requires lo' + 0x100 * hi' == (lo + 0x100 * hi + n) % 0x1_0000
    ensures lo' == lo <==> n % 0x100 == 0
    ensures lo' != lo || hi' != hi
  {
    var s := lo + 0x100 * hi + n;
    assert s % 0x1_0000 == (if s < 0x1_0000 then s else s - 0x1_0000);
    var m, r := n / 0x100, n % 0x100;
    assert n == 0x100 * m + r && 0 <= r < 0x100;
  }

  lemma SuffixSame(b: Block, b': Block, pos: nat)
    requires Agree(b, b', pos, |b|) && pos <= |b|
    ensures Tiles(b', pos) <==> Tiles(b, pos)
    ensures Tiles(b, pos) ==> Listing(b', pos) == Listing(b, pos)
  {
    if Tiles(b, pos) {
      SuffixKept(b, b', pos);
    }
    if Tiles(b', pos) {
      SuffixKept(b', b, pos);
    }
  }

  lemma Cancel(a: seq<Entry>, s: seq<Entry>, s': seq<Entry>)
    ensures a + s == a + s' <==> s == s'
  {
    if a + s == a + s' {
      assert s == (a + s)[|a|..] && s' == (a + s')[|a|..];
    }
  }

  /** From pos on, the block still lists what it did exactly when the addition does no harm there. */
  lemma {:induction false} HarmlessExact(b: Block, b': Block, pos: nat, q: nat, n: nat)
    requires Bumped(b, b', q, n) && Tiles(b, pos) && 8 <= pos && n <= pos && q % 4 == 0 && |b| < 0x1_0000
    ensures Tiles(b', pos) && Listing(b', pos) == Listing(b, pos) <==> Harmless(b, pos, q, n)
    decreases |b| - pos
  {
    hide JoinBytes, RecLen, Inode, Used, EntryAt, Lands;
    if pos == |b| {
      ListNothing(b', pos);
      ListNothing(b, pos);
    } else if q + 4 < pos {
      TileHere(b, pos);
      SuffixSame(b, b', pos);
    } else {
      TileHere(b, pos);
      if Ends(b, pos) {
        HarmlessEnd(b, b', pos, q, n);
      } else if q + 4 >= Next(b, pos) {
        SameRecord(b, b', pos);
        HarmlessExact(b, b', Next(b, pos), q, n);
        if Tiles(b', Next(b, pos)) {
          Cancel(Used(b, pos), Listing(b', Next(b, pos)), Listing(b, Next(b, pos)));
        }
      } else {
        HarmlessHere(b, b', pos, q, n);
      }
    }
  }

  lemma HarmlessEnd(b: Block, b': Block, pos: nat, q: nat, n: nat)
    requires Bumped(b, b', q, n) && Tiles(b, pos) && Ends(b, pos) && 8 <= pos && q % 4 == 0 && |b| < 0x1_0000 && pos <= q + 4
    ensures Tiles(b', pos) && Listing(b', pos) == Listing(b, pos)
        <==> (q == pos ==> Inode(b, pos) == 0 && Lands(b, pos + n, pos))
  {
    hide JoinBytes, Tiles, Listing, EntryAt;
    TilesHere4(b, pos);
    ListNothing(b, pos);
    if q == pos {
      EndBumped(b, b', pos, n);
    } else {
      assert Ends(b', pos);
      ListNothing(b', pos);
    }
  }

  /** The terminator got a length and became a record. */
  lemma EndBumped(b: Block, b': Block, pos: nat, n: nat)
    requires Bumped(b, b', pos, n) && Tiles(b, pos) && Ends(b, pos) && 8 <= pos && pos + 8 <= |b| && pos % 4 == 0 && |b| < 0x1_0000
    ensures Tiles(b', pos) && Listing(b', pos) == [] <==> Inode(b, pos) == 0 && Lands(b, pos + n, pos)
  {
    hide JoinBytes, Tiles, Listing, EntryAt, Need, NameLen;
    assert RecLen(b', pos) == n && Inode(b', pos) == Inode(b, pos);
    EndsNot(b', pos);
    ListNothing(b, pos);
    if Tiles(b', pos) && Listing(b', pos) == [] {
      TileHere(b', pos);
      ListRecord(b', pos);
      NoneUsed(b', pos, Listing(b', Next(b', pos)));
      SuffixSame(b, b', pos + n);
    } else if Inode(b, pos) == 0 && Lands(b, pos + n, pos) {
      SuffixSame(b, b', pos + n);
      FourMore(pos, n);
      ListRecord(b', pos);
      NotUsed(b', pos);
    }
  }

  lemma TilesHere4(b: Block, pos: nat)
    requires Tiles(b, pos) && pos < |b|
    ensures pos % 4 == 0 && pos + 8 <= |b|
  {
  }

  lemma EndsNot(b: Block, pos: nat)
    requires pos + 8 <= |b| && RecLen(b, pos) != 0
    ensures !Ends(b, pos)
  {
  }

  lemma NoneUsed(b: Block, pos: nat, s: seq<Entry>)
    requires Rec(b, pos) && Used(b, pos) + s == []
    ensures Inode(b, pos) == 0 && s == []
  {
  }

  /** The addition hits record pos. */
  lemma HarmlessHere(b: Block, b': Block, pos: nat, q: nat, n: nat)
    requires Bumped(b, b', q, n) && Tiles(b, pos) && pos < |b| && !Ends(b, pos) && Rec(b, pos) && 8 <= pos && n <= pos && q % 4 == 0
    requires |b| < 0x1_0000 && pos <= q + 4 < Next(b, pos)
    ensures Tiles(b', pos) && Listing(b', pos) == Listing(b, pos)
        <==> q + 4 != pos && if q == pos then Tiles(b, Next(b, pos)) && Lands(b, Next(b, pos) + n, Next(b, pos))
                             else Inode(b, pos) == 0 || q + 4 >= pos + 8 + NameLen(b, pos)
                                  || (q + 5 == pos + 8 + NameLen(b, pos) && n % 0x100 == 0)
  {
    hide JoinBytes, Tiles, Listing, EntryAt, Lands, Inode, NameLen, Need, Used, RecLen;
    TileHere(b, pos);
    ListRecord(b, pos);
    if q == pos {
      HitLength(b, b', pos, n);
    } else {
      var next := Next(b, pos);
      BumpedOutside(b, b', q, n, next);
      SuffixSame(b, b', next);
      if q + 4 == pos {
        HitInode(b, b', pos, q, n);
      } else {
        HitBody(b, b', pos, q, n);
      }
      if Tiles(b', pos) {
        EndsNot(b', pos);
        TileHere(b', pos);
        ListRecord(b', pos);
        SameTail(Used(b', pos), Used(b, pos), Listing(b, next));
      } else if Rec(b', pos) {
        ListRecord(b', pos);
      }
    }
  }

  lemma SameTail(a: seq<Entry>, a': seq<Entry>, s: seq<Entry>)
    ensures a + s == a' + s <==> a == a'
  {
    if a + s == a' + s {
      assert |a| == |a'|;
      assert a == (a + s)[..|a|] && a' == (a' + s)[..|a|];
    }
  }

  lemma BumpedOutside(b: Block, b': Block, q: nat, n: nat, next: nat)
    requires Bumped(b, b', q, n) && q % 4 == 0 && next % 4 == 0 && q + 4 < next && next >= 4
    ensures Agree(b, b', next, |b|)
  {
    hide RecLen;
    NextWord(q, next);
  }

  lemma NextWord(q: nat, next: nat)
    requires q % 4 == 0 && next % 4 == 0 && q + 4 < next
    ensures q + 8 <= next
  {
  }

  lemma HitLength(b: Block, b': Block, pos: nat, n: nat)
    requires Bumped(b, b', pos, n) && Rec(b, pos) && !Ends(b, pos) && 8 <= pos && n <= pos && pos % 4 == 0 && |b| < 0x1_0000
    requires Tiles(b, Next(b, pos)) && Tiles(b, pos) && Listing(b, pos) == Used(b, pos) + Listing(b, Next(b, pos))
    ensures Tiles(b', pos) && Listing(b', pos) == Listing(b, pos) <==> Lands(b, Next(b, pos) + n, Next(b, pos))
  {
    hide JoinBytes, Tiles, Listing, EntryAt, Used;
    var x := Next(b, pos) + n;
    assert RecLen(b', pos) == RecLen(b, pos) + n;
    FourMore(RecLen(b, pos), n);
    FourMore(pos, RecLen(b, pos) + n);
    EndsNot(b', pos);
    if x <= |b| {
      SameUsed(b, b', pos);
      SuffixSame(b, b', x);
      Cancel(Used(b, pos), Listing(b, Next(b, pos)), if Tiles(b, x) then Listing(b, x) else []);
      if Tiles(b', pos) {
        TileHere(b', pos);
        ListRecord(b', pos);
      } else if Tiles(b, x) {
        ListRecord(b', pos);
      }
    } else if Tiles(b', pos) {
      TileHere(b', pos);
    }
  }

  lemma HitInode(b: Block, b': Block, pos: nat, q: nat, n: nat)
    requires Bumped(b, b', q, n) && Rec(b, pos) && q + 4 == pos && 8 <= pos
    ensures RecLen(b', pos) == RecLen(b, pos) && (Rec(b', pos) ==> Next(b', pos) == Next(b, pos) && Used(b', pos) != Used(b, pos))
  {
    BumpedBytes(b, b', q, n);
    assert Inode(b', pos) != Inode(b, pos) by {
      DifferentWord(b'[pos], b'[pos + 1], b[pos], b[pos + 1], b[pos + 2], b[pos + 3]);
    }
    hide JoinBytes;
  }

  lemma DifferentWord(a0: byte, a1: byte, b0: byte, b1: byte, c: byte, d: byte)
    requires a0 != b0 || a1 != b1
    ensures JoinBytes(a0, a1, c, d) != JoinBytes(b0, b1, c, d)
  {
  }

  lemma HitBody(b: Block, b': Block, pos: nat, q: nat, n: nat)
    requires Bumped(b, b', q, n) && Rec(b, pos) && q % 4 == 0 && pos % 4 == 0 && pos < q && 8 <= pos && q + 4 < Next(b, pos)
    ensures RecLen(b', pos) == RecLen(b, pos) && Rec(b', pos) && Next(b', pos) == Next(b, pos)
    ensures Used(b', pos) == Used(b, pos)
        <==> Inode(b, pos) == 0 || q + 4 >= pos + 8 + NameLen(b, pos) || (q + 5 == pos + 8 + NameLen(b, pos) && n % 0x100 == 0)
  {
    hide JoinBytes;
    BumpedBytes(b, b', q, n);
    assert Inode(b', pos) == Inode(b, pos) && NameLen(b', pos) == NameLen(b, pos);
    if Inode(b, pos) != 0 {
      var from, to := pos + 8, pos + 8 + NameLen(b, pos);
      SameName(b, b', from, to, q);
      UsedEntry(b, pos);
      UsedEntry(b', pos);
    }
  }

  lemma SameName(b: Block, b': Block, from: nat, to: nat, q: nat)
    requires |b'| == |b| && from <= to <= |b| && from <= q + 4 && q + 5 < |b|
    requires forall k :: from <= k < to && k != q + 4 && k != q + 5 ==> b'[k] == b[k]
    ensures b'[from..to] == b[from..to] <==> (q + 4 < to ==> b'[q + 4] == b[q + 4]) && (q + 5 < to ==> b'[q + 5] == b[q + 5])
  {
    if b'[from..to] == b[from..to] {
      assert q + 4 < to ==> b'[from..to][q + 4 - from] == b[from..to][q + 4 - from];
      assert q + 5 < to ==> b'[from..to][q + 5 - from] == b[from..to][q + 5 - from];
    }
  }

  /** Merging the first record of a block into whatever stands at a stale offset removes exactly its entry when and only when that does no harm. */
  lemma MergeExact(b: Block, q: nat, name: seq<byte>)
    requires Sized(b) && Tiles(b, 0) && FoundAt(b, 0, name) && q % 4 == 0 && q + 8 <= |b| && (q == 0 || q >= 8)
    ensures Tiles(b, Next(b, 0))
    ensures var b' := Merged(b, q, 0);
      Tiles(b', 0) && Removed(Listing(b, 0), Listing(b', 0), name) <==> HarmlessMerge(b, q)
  {
    hide JoinBytes, Tiles, Listing, Used, EntryAt, Lookup, Removed, Reaches, Harmless;
    var b', n, next := Merged(b, q, 0), RecLen(b, 0), Next(b, 0);
    TileFirst(b);
    ListRecord(b, 0);
    UsedEntry(b, 0);
    BumpedMerge(b, q);
    var e, s := EntryAt(b, 0), Listing(b, next);
    assert Listing(b, 0) == [e] + s;
    if q == 0 {
      MergeSelf(b, b', n);
    } else {
      HarmlessExact(b, b', next, q, n);
      assert RecLen(b', 0) == n;
      EndsNot(b', 0);
      NotUsed(b', 0);
      if Tiles(b', next) {
        ListRecord(b', 0);
        RemovedFirst(e, s, Listing(b', next));
      } else if Tiles(b', 0) {
        TileHere(b', 0);
      }
    }
    if Tiles(b', 0) {
      RemovedFirst(e, s, Listing(b', 0));
    }
  }

  lemma TileFirst(b: Block)
    requires Tiles(b, 0) && Rec(b, 0)
    ensures Tiles(b, Next(b, 0)) && !Ends(b, 0)
  {
  }

  /** Doubling the length of the removed record itself. */
  lemma MergeSelf(b: Block, b': Block, n: nat)
    requires Sized(b) && Rec(b, 0) && Bumped(b, b', 0, n) && n == RecLen(b, 0) && Inode(b', 0) == 0 && Tiles(b, Next(b, 0))
    ensures Tiles(b', 0) && Listing(b', 0) == Listing(b, Next(b, 0)) <==> HarmlessMerge(b, 0)
  {
    hide JoinBytes, Tiles, Listing, Used, RecLen, Inode, Need, NameLen;
    var x := 2 * n % 0x1_0000;
    assert RecLen(b', 0) == x;
    Doubled(n);
    assert Agree(b, b', 8, |b|);
    if x == 0 {
      ListNothing(b', 0);
    } else {
      EndsNot(b', 0);
      if 8 <= x <= |b| {
        assert Rec(b', 0);
        NotUsed(b', 0);
        SuffixSame(b, b', x);
        if Tiles(b', x) {
          ListRecord(b', 0);
        } else if Tiles(b', 0) {
          TileHere(b', 0);
        }
      } else if Tiles(b', 0) {
        TileHere(b', 0);
      }
    }
  }

  lemma Doubled(n: nat)
    requires n % 4 == 0
    ensures 2 * n % 0x1_0000 % 4 == 0
  {
  }

  lemma RemovedFirst(e: Entry, s: seq<Entry>, s': seq<Entry>)
    ensures Removed([e] + s, s', e.name) <==> s' == s
  {
    hide Lookup;
    if s' == s {
      LookupEmpty(e.name);
      RemoveBetween([], e, s);
      assert [] + ([e] + s) == [e] + s && [] + s == s;
    }
    if Removed([e] + s, s', e.name) {
      var before, x, after :| RemovedBetween([e] + s, s', before, x, after) && x.name == e.name;
      if before != [] {
        StartsWith(before, [x] + after, e, s);
      }
      assert after == ([e] + s)[1..];
    }
  }

  lemma StartsWith(before: seq<Entry>, rest: seq<Entry>, e: Entry, s: seq<Entry>)
    requires before != [] && before + rest == [e] + s
    ensures Lookup(before, e.name).Some?
  {
    assert before[0] == (before + rest)[0] == e;
    LookupNone(before, e.name);
  }

  // ---------------------------------------------------------------- whole directories

  ghost predicate AllTiled(blocks: seq<Block>, size: nat) {
    forall i :: 0 <= i < |blocks| ==> |blocks[i]| == size && Sized(blocks[i]) && Tiles(blocks[i], 0)
  }

  /** All entries of a directory, block by block. */
  ghost function Contents(blocks: seq<Block>, size: nat): seq<Entry>
    requires AllTiled(blocks, size)
  {
    if blocks == [] then [] else Listing(blocks[0], 0) + Contents(blocks[1..], size)
  }

  lemma {:induction false} ContentsSplit(blocks: seq<Block>, size: nat, i: nat)
    requires AllTiled(blocks, size) && i < |blocks|
    ensures AllTiled(blocks[..i], size) && AllTiled(blocks[i + 1..], size)
    ensures Contents(blocks, size) == Contents(blocks[..i], size) + (Listing(blocks[i], 0) + Contents(blocks[i + 1..], size))
  {
    hide Tiles, Listing, Sized;
    if i > 0 {
      var rest := blocks[1..];
      assert blocks[..i][1..] == rest[..i - 1] && rest[i - 1 + 1..] == blocks[i + 1..];
      ContentsSplit(rest, size, i - 1);
    } else {
      assert blocks[1..] == blocks[i + 1..];
    }
  }

  lemma ContentsNext(blocks: seq<Block>, size: nat, i: nat)
    requires AllTiled(blocks, size) && i < |blocks|
    ensures AllTiled(blocks[..i], size) && AllTiled(blocks[..i + 1], size)
    ensures Contents(blocks[..i + 1], size) == Contents(blocks[..i], size) + Listing(blocks[i], 0)
  {
    var front := blocks[..i + 1];
    ContentsSplit(front, size, i);
    assert front[..i] == blocks[..i] && front[i + 1..] == [];
  }

  /** A change in one block is a change of its stretch of the contents. */
  lemma BlockChanged(blocks: seq<Block>, size: nat, i: nat, b': Block)
    requires AllTiled(blocks, size) && i < |blocks| && |b'| == size && Tiles(b', 0)
    ensures AllTiled(blocks[i := b'], size) && AllTiled(blocks[..i], size) && AllTiled(blocks[i + 1..], size)
    ensures Contents(blocks, size) == Contents(blocks[..i], size) + (Listing(blocks[i], 0) + Contents(blocks[i + 1..], size))
    ensures Contents(blocks[i := b'], size) == Contents(blocks[..i], size) + (Listing(b', 0) + Contents(blocks[i + 1..], size))
  {
    hide Tiles, Listing;
    var blocks' := blocks[i := b'];
    assert blocks'[..i] == blocks[..i] && blocks'[i + 1..] == blocks[i + 1..];
    ContentsSplit(blocks, size, i);
    ContentsSplit(blocks', size, i);
  }

  lemma Regroup(u: seq<Entry>, before: seq<Entry>, after: seq<Entry>, v: seq<Entry>)
    ensures u + ((before + after) + v) == (u + before) + (after + v)
  {
  }

  lemma RegroupWith(u: seq<Entry>, before: seq<Entry>, e: Entry, after: seq<Entry>, v: seq<Entry>)
    ensures u + ((before + ([e] + after)) + v) == (u + before) + ([e] + (after + v))
  {
    Regroup(u, before, [e] + after, v);
    assert ([e] + after) + v == [e] + (after + v);
  }

  lemma InsertedWithin(u: seq<Entry>, s: seq<Entry>, s': seq<Entry>, v: seq<Entry>, e: Entry)
    requires Inserted(s, s', e)
    ensures Inserted(u + (s + v), u + (s' + v), e)
  {
    var before, after :| InsertedBetween(s, s', before, e, after);
    Regroup(u, before, after, v);
    RegroupWith(u, before, e, after, v);
    InsertBetween(u + before, after + v, e);
  }

  lemma RemovedWithin(u: seq<Entry>, s: seq<Entry>, s': seq<Entry>, v: seq<Entry>, name: seq<byte>)
    requires Removed(s, s', name) && Lookup(u, name) == None
    ensures Removed(u + (s + v), u + (s' + v), name)
  {
    hide Lookup;
    var before, e, after :| RemovedBetween(s, s', before, e, after) && e.name == name;
    Regroup(u, before, after, v);
    RegroupWith(u, before, e, after, v);
    LookupAppend(u, before, name);
    RemoveBetween(u + before, e, after + v);
  }

  // ---------------------------------------------------------------- a directory as a map from names

  /** No name occurs again behind its entry. */
  predicate NamesDistinct(s: seq<Entry>) {
    s == [] || (Lookup(s[1..], s[0].name) == None && NamesDistinct(s[1..]))
  }

  lemma LookupCons(e: Entry, after: seq<Entry>, name: seq<byte>)
    ensures Lookup([e] + after, name) == if e.name == name then Some(e) else Lookup(after, name)
  {
    assert ([e] + after)[1..] == after;
  }

  lemma DistinctCons(e: Entry, after: seq<Entry>)
    ensures NamesDistinct([e] + after) <==> Lookup(after, e.name) == None && NamesDistinct(after)
  {
    assert ([e] + after)[1..] == after;
  }

  /** Names stay distinct with one entry more, if its name is new, or one less. */
  lemma {:induction false} DistinctAround(before: seq<Entry>, e: Entry, after: seq<Entry>)
    ensures NamesDistinct(before + ([e] + after))
      <==> NamesDistinct(before + after) && Lookup(before, e.name) == None && Lookup(after, e.name) == None
  {
    hide Lookup, NamesDistinct;
    LookupCons(e, after, e.name);
    if before == [] {
      assert before + after == after && before + ([e] + after) == [e] + after;
      DistinctCons(e, after);
      LookupNone(before, e.name);
    } else {
      var h, t := before[0], before[1..];
      assert before == [h] + t;
      assert before + after == [h] + (t + after) && before + ([e] + after) == [h] + (t + ([e] + after));
      DistinctAround(t, e, after);
      DistinctCons(h, t + after);
      DistinctCons(h, t + ([e] + after));
      LookupAppend(t, after, h.name);
      LookupAppend(t, [e] + after, h.name);
      LookupCons(e, after, h.name);
      LookupCons(h, t, e.name);
    }
  }

  /** Adding an absent name maps it to the new entry and changes no other name. */
  lemma AddIsMapUpdate(s: seq<Entry>, s': seq<Entry>, e: Entry, name: seq<byte>)
    requires NamesDistinct(s) && Inserted(s, s', e) && Lookup(s, e.name) == None
    ensures NamesDistinct(s')
    ensures Lookup(s', name) == if name == e.name then Some(e) else Lookup(s, name)
  {
    hide Lookup, NamesDistinct;
    var before, after :| InsertedBetween(s, s', before, e, after);
    LookupAppend(before, after, e.name);
    DistinctAround(before, e, after);
    LookupAppend(before, after, name);
    LookupAppend(before, [e] + after, name);
    LookupCons(e, after, name);
  }

  /** Removing a name unmaps it and changes no other name. */
  lemma RemoveIsMapRemoval(s: seq<Entry>, s': seq<Entry>, gone: seq<byte>, name: seq<byte>)
    requires NamesDistinct(s) && Removed(s, s', gone)
    ensures NamesDistinct(s')
    ensures Lookup(s', name) == if name == gone then None else Lookup(s, name)
  {
    hide Lookup, NamesDistinct;
    var before, e, after :| RemovedBetween(s, s', before, e, after) && e.name == gone;
    DistinctAround(before, e, after);
    LookupAppend(before, after, name);
    LookupAppend(before, [e] + after, name);
    LookupCons(e, after, name);
  }

  // ---------------------------------------------------------------- the driver's loops

  lemma TileHere(b: Block, pos: nat)
    requires Tiles(b, pos) && pos < |b|
    ensures pos % 4 == 0 && pos + 8 <= |b| && (RecLen(b, pos) == 0 <==> Ends(b, pos))
    ensures !Ends(b, pos) ==> Rec(b, pos) && Next(b, pos) == pos + RecLen(b, pos) && Tiles(b, Next(b, pos)) && pos + 8 <= Next(b, pos) <= |b|
  {
  }

  lemma ListFrom(b: Block, pos: nat)
    requires Reaches(b, 0, pos) && Tiles(b, pos)
    ensures Tiles(b, 0) && Listing(b, 0) == Upto(b, 0, pos) + Listing(b, pos)
  {
    AgreeSelf(b, 0, pos);
    PrefixKept(b, b, 0, pos);
  }

  /** Is prev the record before pos? */
  predicate PrevOf(b: Block, prev: nat, pos: nat) {
    prev % 4 == 0 && Reaches(b, 0, prev) && Rec(b, prev) && Next(b, prev) == pos
  }

  /** `entry->inode != 0 && entry->name_len == name_len && kmemcmp(entry->name, name, name_len) == 0` */
  predicate Matches(b: Block, pos: nat, name: seq<byte>)
    requires Rec(b, pos)
  {
    Inode(b, pos) != 0 && NameLen(b, pos) == |name| && b[pos + 8..pos + 8 + NameLen(b, pos)] == name
  }

  lemma MatchIsEntry(b: Block, pos: nat, name: seq<byte>)
    requires Rec(b, pos)
    ensures Matches(b, pos, name) <==> Inode(b, pos) != 0 && EntryAt(b, pos).name == name
    ensures Lookup(Used(b, pos), name) == if Matches(b, pos, name) then Some(EntryAt(b, pos)) else None
  {
    hide Rec, JoinBytes;
    RecNameInside(b, pos);
    if Inode(b, pos) != 0 {
      LookupCons(EntryAt(b, pos), [], name);
      assert Used(b, pos) == [EntryAt(b, pos)] + [];
    }
  }

  lemma RecNameInside(b: Block, pos: nat)
    requires Rec(b, pos)
    ensures pos + 8 <= |b| && (Inode(b, pos) != 0 ==> pos + 8 + NameLen(b, pos) <= |b|)
  {
  }

  /** The inner loop of `find_entry` and `remove_entry`; prev is the record seen last, possibly in an earlier block. */
  method SearchBlock(b: Block, name: seq<byte>, prev: Option<nat>) returns (found: bool, pos: nat, prev': Option<nat>)
    requires Tiles(b, 0) && Sized(b)
    ensures found ==> FoundAt(b, pos, name) && Tiles(b, Next(b, pos))
    ensures found ==> Lookup(Listing(b, 0), name) == Some(EntryAt(b, pos))
    ensures found ==> if pos == 0 then prev' == prev else prev'.Some? && PrevOf(b, prev'.value, pos)
    ensures !found ==> Lookup(Listing(b, 0), name) == None && prev' == if LastRec(b, 0).Some? then LastRec(b, 0) else prev
  {
    hide Tiles, Listing, Reaches, Upto, Rec, Next, Used, Matches, Inode, RecLen, Lookup, EntryAt, Ends, LastRec;
    found, pos, prev' := false, 0, prev;
    NothingBefore(b, name);
    while pos < |b|
      invariant pos <= |b| && Reaches(b, 0, pos) && Tiles(b, pos) && Lookup(Upto(b, 0, pos), name) == None
      invariant if pos == 0 then prev' == prev else prev'.Some? && PrevOf(b, prev'.value, pos)
    {
      TileHere(b, pos);
      ListFrom(b, pos);
      if RecLen(b, pos) == 0 {
        ListNothing(b, pos);
        LookupAppend(Upto(b, 0, pos), Listing(b, pos), name);
        LookupEmpty(name);
        LastSeen(b, pos, prev, prev');
        return;
      }
      MatchIsEntry(b, pos, name);
      ListRecord(b, pos);
      if Matches(b, pos, name) {
        LookupAppend(Upto(b, 0, pos), Listing(b, pos), name);
        LookupAppend(Used(b, pos), Listing(b, Next(b, pos)), name);
        found := true;
        return;
      }
      ReachesNext(b, 0, pos);
      LookupAppend(Upto(b, 0, pos), Used(b, pos), name);
      prev' := Some(pos);
      pos := pos + RecLen(b, pos);
    }
    ListFrom(b, pos);
    ListNothing(b, pos);
    LookupAppend(Upto(b, 0, pos), Listing(b, pos), name);
    LookupEmpty(name);
    LastSeen(b, pos, prev, prev');
  }

  lemma LastSeen(b: Block, pos: nat, prev: Option<nat>, prev': Option<nat>)
    requires Tiles(b, 0) && Tiles(b, pos) && (pos == |b| || Ends(b, pos)) && |b| > 0
    requires if pos == 0 then prev' == prev else prev'.Some? && PrevOf(b, prev'.value, pos)
    ensures prev' == if LastRec(b, 0).Some? then LastRec(b, 0) else prev
  {
    if pos > 0 {
      PrevInside(b, prev'.value, pos);
      LastIs(b, 0, prev'.value, pos);
    }
  }

  lemma NothingBefore(b: Block, name: seq<byte>)
    ensures Reaches(b, 0, 0) && Upto(b, 0, 0) == [] && Lookup([], name) == None
  {
  }

  lemma LookupEmpty(name: seq<byte>)
    ensures Lookup([], name) == None
  {
  }

  lemma NoRecord(b: Block, pos: nat)
    requires pos + 8 <= |b| && RecLen(b, pos) == 0
    ensures !Rec(b, pos)
  {
  }

  /** The last record from pos on. */
  function LastRec(b: Block, pos: nat): (r: Option<nat>)
    requires Tiles(b, pos)
    ensures r.Some? ==> pos <= r.value && (r.value == pos || r.value >= pos + 8) && r.value % 4 == 0 && r.value + 8 <= |b|
    decreases |b| - pos
  {
    if pos == |b| || Ends(b, pos) then None
    else
      var r := LastRec(b, Next(b, pos));
      if r.Some? then r else Some(pos)
  }

  lemma {:induction false} LastIs(b: Block, p: nat, prev: nat, pos: nat)
    requires Tiles(b, p) && Reaches(b, p, prev) && Rec(b, prev) && prev % 4 == 0 && Next(b, prev) == pos && Tiles(b, pos)
    requires pos == |b| || Ends(b, pos)
    ensures LastRec(b, p) == Some(prev)
    decreases prev - p
  {
    hide RecLen, Inode;
    ReachesWithin(b, p, prev);
    TileHere(b, p);
    if p < prev {
      LastIs(b, Next(b, p), prev, pos);
    }
  }

  /** `prev_entry` when a block's search begins: the offset of the last record of the last block that had one. */
  function Stale(blocks: seq<Block>): (r: Option<nat>)
    requires forall i :: 0 <= i < |blocks| ==> Tiles(blocks[i], 0)
  {
    if blocks == [] then None
    else
      var r := LastRec(blocks[|blocks| - 1], 0);
      if r.Some? then r else Stale(blocks[..|blocks| - 1])
  }

  lemma NothingStale()
    ensures Stale([]) == None
  {
  }

  lemma {:induction false} StaleFits(blocks: seq<Block>, size: nat)
    requires AllTiled(blocks, size)
    ensures Stale(blocks).Some? ==> var q := Stale(blocks).value; q % 4 == 0 && q + 8 <= size && (q == 0 || q >= 8)
  {
    hide Tiles, Sized;
    if blocks != [] {
      StaleFits(blocks[..|blocks| - 1], size);
    }
  }

  lemma StaleNext(blocks: seq<Block>, i: nat)
    requires i < |blocks| && forall j :: 0 <= j < |blocks| ==> Tiles(blocks[j], 0)
    ensures Stale(blocks[..i + 1]) == if LastRec(blocks[i], 0).Some? then LastRec(blocks[i], 0) else Stale(blocks[..i])
  {
    hide Tiles, LastRec;
    assert blocks[..i + 1][..i] == blocks[..i];
  }

  predicate Full(b: Block, need: nat)
    requires Tiles(b, 0)
  {
    FitPos(b, 0, need) == |b|
  }

  /** The block after `add_entry` put an entry where it first fits. */
  function AddedBlock(b: Block, e: Entry): (r: Block)
    requires Tiles(b, 0)
    ensures |r| == |b|
  {
    var need := Need(|e.name|);
    var p := FitPos(b, 0, need);
    if p == |b| then b
    else if Ends(b, p) then PutEntry(b, p, e, |b| - p)
    else if Inode(b, p) == 0 then Reused(b, p, e)
    else SplitRecord(b, p, e)
  }

  /**
   An entry put into a block: exactly it was added when four bytes to spare do no harm, and only then does the block
   hold, in any order, the old entries and the new one.
   */
  ghost predicate AddedExactly(b: Block, b': Block, e: Entry)
    requires Tiles(b, 0)
  {
    var harmless := SlackHarmless(b, FitPos(b, 0, Need(|e.name|)), Need(|e.name|));
    && (harmless ==> Tiles(b', 0) && Inserted(Listing(b, 0), Listing(b', 0), e))
    && (Tiles(b', 0) && multiset(Listing(b', 0)) == multiset(Listing(b, 0)) + multiset{e} ==> harmless)
  }

  /** The inner loop of `add_entry`: where there is room, exactly the entry is added unless four bytes to spare do harm. */
  method AddInBlock(b: Block, e: Entry) returns (ok: bool, b': Block)
    requires Sized(b) && Tiles(b, 0) && Writable(e)
    ensures ok <==> !Full(b, Need(|e.name|))
    ensures |b'| == |b| && b' == AddedBlock(b, e) && (!ok ==> b' == b)
    ensures ok ==> AddedExactly(b, b', e)
  {
    hide Tiles, Listing, Reaches, Upto, Rec, Next, Used, Inode, RecLen, EntryAt, Ends, Inserted, Need, PutEntry, Reused, SplitRecord;
    ok, b' := false, b;
    var need := Need(|e.name|);
    NeedMeaning(|e.name|);
    NothingBefore(b, []);
    var pos := 0;
    while pos < |b|
      invariant pos <= |b| && Reaches(b, 0, pos) && Tiles(b, pos) && FitPos(b, 0, need) == FitPos(b, pos, need)
    {
      TileHere(b, pos);
      FitStep(b, pos, need);
      if RecLen(b, pos) == 0 {
        if |b| - pos >= need {
          AddAtEnd(b, pos, e);
          NoRecord(b, pos);
          ok, b' := true, PutEntry(b, pos, e, |b| - pos);
        }
        return;
      }
      if Inode(b, pos) == 0 {
        if RecLen(b, pos) >= need {
          SpareInside(b, pos, need, |e.name|);
          ok, b' := true, Reused(b, pos, e);
          if RecLen(b, pos) == need + 4 {
            SlackFourExact(b, pos, e);
          } else {
            AddAtUnused(b, pos, e, b');
          }
          return;
        }
      } else if RecLen(b, pos) - Need(NameLen(b, pos)) >= need {
        AddBehindUsed(b, pos, e);
        ok, b' := true, SplitRecord(b, pos, e);
        return;
      }
      ReachesNext(b, 0, pos);
      pos := pos + RecLen(b, pos);
    }
    FitEnd(b, pos, need);
  }

  lemma FitStep(b: Block, pos: nat, need: nat)
    requires Tiles(b, pos) && pos < |b|
    ensures Ends(b, pos) ==> FitPos(b, pos, need) == if |b| - pos >= need then pos else |b|
    ensures !Ends(b, pos) ==> Rec(b, pos)
    ensures !Ends(b, pos) ==> (FitPos(b, pos, need)
      == if (Inode(b, pos) == 0 && RecLen(b, pos) >= need) || (Inode(b, pos) != 0 && RecLen(b, pos) - Need(NameLen(b, pos)) >= need)
         then pos else FitPos(b, Next(b, pos), need))
  {
    hide Need, Inode;
  }

  lemma FitEnd(b: Block, pos: nat, need: nat)
    requires pos == |b|
    ensures Tiles(b, pos) && FitPos(b, pos, need) == |b|
  {
  }

  lemma SpareInside(b: Block, pos: nat, need: nat, n: nat)
    requires Rec(b, pos) && RecLen(b, pos) >= need >= 8 + n
    ensures pos + 8 + n <= |b|
  {
  }

  lemma SizedLike(b: Block, b': Block)
    requires |b'| == |b| && Sized(b)
    ensures Sized(b')
  {
  }

  lemma FoundInside(b: Block, pos: nat, name: seq<byte>)
    requires FoundAt(b, pos, name)
    ensures pos + 8 <= |b| && pos % 4 == 0 && Rec(b, pos) && Inode(b, pos) != 0 && Reaches(b, 0, pos)
  {
  }

  lemma PrevInside(b: Block, prev: nat, pos: nat)
    requires PrevOf(b, prev, pos)
    ensures prev + 8 <= |b| && prev < pos && prev % 4 == 0 && Reaches(b, 0, prev) && Rec(b, prev) && Next(b, prev) == pos
  {
  }

  // ---------------------------------------------------------------- what the driver makes of a directory

  /** The block after `remove_entry` dropped the record at pos. */
  function RemovedBlock(b: Block, prev: Option<nat>, pos: nat): (r: Block)
    requires pos + 8 <= |b| && (prev.Some? ==> prev.value + 8 <= |b|)
    ensures |r| == |b|
  {
    if prev.Some? then Merged(b, prev.value, pos) else PutNoInode(b, pos)
  }

  /** Where `remove_entry` finds a name: block i, record pos, with prev as the record it takes to be the one before. */
  ghost predicate RemovalAt(blocks: seq<Block>, size: nat, name: seq<byte>, i: nat, pos: nat, prev: Option<nat>)
    requires AllTiled(blocks, size)
  {
    && i < |blocks| && AllTiled(blocks[..i], size) && Lookup(Contents(blocks[..i], size), name) == None
    && FoundAt(blocks[i], pos, name) && Tiles(blocks[i], Next(blocks[i], pos))
    && (if pos == 0 then prev == Stale(blocks[..i]) else prev.Some? && PrevOf(blocks[i], prev.value, pos))
  }

  /** A true predecessor takes over the record; a stale one must do no harm. */
  predicate HarmlessAt(b: Block, pos: nat, prev: Option<nat>) {
    pos == 0 && prev.Some? && Rec(b, 0) && Tiles(b, Next(b, 0)) ==> HarmlessMerge(b, prev.value)
  }

  lemma RemovalFits(blocks: seq<Block>, size: nat, name: seq<byte>, i: nat, pos: nat, prev: Option<nat>)
    requires AllTiled(blocks, size) && RemovalAt(blocks, size, name, i, pos, prev)
    ensures |blocks[i]| == size && pos + 8 <= size && (prev.Some? ==> prev.value + 8 <= size && prev.value % 4 == 0 && (prev.value == 0 || prev.value >= 8 || pos > 0))
  {
    hide Tiles, Sized, Lookup, Stale;
    FoundInside(blocks[i], pos, name);
    if pos == 0 {
      StaleFits(blocks[..i], size);
    } else {
      PrevInside(blocks[i], prev.value, pos);
    }
  }

  /** The removal drops exactly the first entry of the name, and leaves a directory, when and only when it does no harm. */
  lemma RemoveExact(blocks: seq<Block>, size: nat, name: seq<byte>, i: nat, pos: nat, prev: Option<nat>)
    requires AllTiled(blocks, size) && RemovalAt(blocks, size, name, i, pos, prev)
    ensures |blocks[i]| == size && pos + 8 <= size && (prev.Some? ==> prev.value + 8 <= size)
    ensures var blocks' := blocks[i := RemovedBlock(blocks[i], prev, pos)];
      AllTiled(blocks', size) && Removed(Contents(blocks, size), Contents(blocks', size), name) <==> HarmlessAt(blocks[i], pos, prev)
  {
    hide Tiles, Listing, Lookup, Sized, FoundAt, Removed, Rec, PrevOf, Merged, PutNoInode, Next, Stale, HarmlessMerge, Contents;
    RemovalFits(blocks, size, name, i, pos, prev);
    var b := blocks[i];
    var b' := RemovedBlock(b, prev, pos);
    BlockRemoval(b, name, pos, prev);
    FoundListed(b, pos, name);
    SizedLike(b, b');
    ContentsSplit(blocks, size, i);
    if Tiles(b', 0) {
      BlockChanged(blocks, size, i, b');
      RemovedWithinExact(Contents(blocks[..i], size), Listing(b, 0), Listing(b', 0), Contents(blocks[i + 1..], size), name);
    } else {
      assert blocks[i := b'][i] == b';
    }
  }

  lemma BlockRemoval(b: Block, name: seq<byte>, pos: nat, prev: Option<nat>)
    requires Sized(b) && Tiles(b, 0) && FoundAt(b, pos, name) && Tiles(b, Next(b, pos)) && pos + 8 <= |b|
    requires prev.Some? ==> prev.value + 8 <= |b| && prev.value % 4 == 0
    requires if pos == 0 then prev.Some? ==> prev.value == 0 || prev.value >= 8 else prev.Some? && PrevOf(b, prev.value, pos)
    ensures var b' := RemovedBlock(b, prev, pos);
      Tiles(b', 0) && Removed(Listing(b, 0), Listing(b', 0), name) <==> HarmlessAt(b, pos, prev)
  {
    hide Tiles, Listing, Lookup, Removed, Merged, PutNoInode, Next, HarmlessMerge, Inode, Reaches, EntryAt;
    if pos > 0 {
      PrevInside(b, prev.value, pos);
      MergeRemoves(b, prev.value, pos, name);
    } else if prev.None? {
      ClearRemoves(b, name);
    } else {
      MergeExact(b, prev.value, name);
    }
  }

  lemma FoundListed(b: Block, pos: nat, name: seq<byte>)
    requires Tiles(b, 0) && FoundAt(b, pos, name) && Tiles(b, Next(b, pos))
    ensures Lookup(Listing(b, 0), name).Some?
  {
    hide Tiles, Listing, Lookup, Reaches, Upto, Next, Rec, Inode;
    ListRecord(b, pos);
    ListFrom(b, pos);
    MatchIsEntry(b, pos, name);
    LookupAppend(Upto(b, 0, pos), Listing(b, pos), name);
    LookupAppend(Used(b, pos), Listing(b, Next(b, pos)), name);
  }

  /** There is only one way to remove the first entry of a name. */
  lemma RemovedUnique(s: seq<Entry>, t: seq<Entry>, t': seq<Entry>, name: seq<byte>)
    requires Removed(s, t, name) && Removed(s, t', name)
    ensures t == t'
  {
    hide Lookup;
    var u, x, v :| RemovedBetween(s, t, u, x, v) && x.name == name;
    var u', x', v' :| RemovedBetween(s, t', u', x', v') && x'.name == name;
    SameFront(u, x, v, u', x', v', name);
    SameFront(u', x', v', u, x, v, name);
    assert u == s[..|u|] && u' == s[..|u'|];
    assert v == s[|u| + 1..] && v' == s[|u'| + 1..];
  }

  lemma SameFront(u: seq<Entry>, x: Entry, v: seq<Entry>, u': seq<Entry>, x': Entry, v': seq<Entry>, name: seq<byte>)
    requires u + ([x] + v) == u' + ([x'] + v') && x.name == name && Lookup(u', name) == None
    ensures |u'| <= |u|
  {
    LookupNone(u', name);
    assert (u + ([x] + v))[|u|] == x;
  }

  lemma RemovedWithinExact(u: seq<Entry>, s: seq<Entry>, s': seq<Entry>, v: seq<Entry>, name: seq<byte>)
    requires Lookup(u, name) == None && Lookup(s, name).Some?
    ensures Removed(u + (s + v), u + (s' + v), name) <==> Removed(s, s', name)
  {
    hide Lookup, Removed;
    if Removed(s, s', name) {
      RemovedWithin(u, s, s', v, name);
    }
    if Removed(u + (s + v), u + (s' + v), name) {
      var t := FirstDropped(s, name);
      RemovedWithin(u, s, t, v, name);
      RemovedUnique(u + (s + v), u + (s' + v), u + (t + v), name);
      Cancel(u, s' + v, t + v);
      SameTail(s', t, v);
    }
  }

  /** The sequence without its first entry of the name. */
  ghost function FirstDropped(s: seq<Entry>, name: seq<byte>): (t: seq<Entry>)
    requires Lookup(s, name).Some?
    ensures Removed(s, t, name)
  {
    if s[0].name == name then
      (RemoveBetween([], s[0], s[1..]); assert [] + ([s[0]] + s[1..]) == s && [] + s[1..] == s[1..]; s[1..])
    else
      (RemovedWithin([s[0]], s[1..], FirstDropped(s[1..], name), [], name);
       assert [s[0]] + (s[1..] + []) == s && [s[0]] + (FirstDropped(s[1..], name) + []) == [s[0]] + FirstDropped(s[1..], name);
       [s[0]] + FirstDropped(s[1..], name))
  }

  /** An entry put into a block with room is all that was added to the directory when and only when four bytes to spare do no harm. */
  lemma AddExact(blocks: seq<Block>, size: nat, i: nat, b': Block, e: Entry)
    requires AllTiled(blocks, size) && i < |blocks| && |b'| == size && AddedExactly(blocks[i], b', e)
    ensures var blocks' := blocks[i := b']; var need := Need(|e.name|);
      (AllTiled(blocks', size) && Inserted(Contents(blocks, size), Contents(blocks', size), e))
      <==> SlackHarmless(blocks[i], FitPos(blocks[i], 0, need), need)
  {
    hide Tiles, Listing, Sized, Inserted, Contents, SlackHarmless, Need, FitPos;
    SizedLike(blocks[i], b');
    if Tiles(b', 0) {
      BlockChanged(blocks, size, i, b');
      var u, v := Contents(blocks[..i], size), Contents(blocks[i + 1..], size);
      var s, s' := Listing(blocks[i], 0), Listing(b', 0);
      if Inserted(s, s', e) {
        InsertedWithin(u, s, s', v, e);
      }
      if Inserted(u + (s + v), u + (s' + v), e) {
        InsertedCount(u + (s + v), u + (s' + v), e);
        MiddleCount(u, s, s', v, e);
      }
    } else {
      assert blocks[i := b'][i] == b';
    }
  }

  lemma MiddleCount(u: seq<Entry>, s: seq<Entry>, s': seq<Entry>, v: seq<Entry>, e: Entry)
    requires multiset(u + (s' + v)) == multiset(u + (s + v)) + multiset{e}
    ensures multiset(s') == multiset(s) + multiset{e}
  {
    assert multiset(u + (s' + v)) == multiset(u) + (multiset(s') + multiset(v));
    assert multiset(u + (s + v)) == multiset(u) + (multiset(s) + multiset(v));
    Cancelled(multiset(u), multiset(s'), multiset(v), multiset(s) + multiset{e});
  }

  lemma Cancelled(u: multiset<Entry>, x: multiset<Entry>, v: multiset<Entry>, y: multiset<Entry>)
    requires u + (x + v) == u + (y + v)
    ensures x == y
  {
    forall e ensures x[e] == y[e] {
      assert (u + (x + v))[e] == (u + (y + v))[e];
    }
  }

  /** A fresh block holds the one entry. */
  lemma NewBlock(size: nat, e: Entry)
    requires 512 <= size < 0x1_0000 && size % 4 == 0 && Writable(e)
    ensures 8 + |e.name| <= size
    ensures var b := PutEntry(Zeros(size), 0, e, size);
      |b| == size && Sized(b) && Tiles(b, 0) && Listing(b, 0) == [e]
  {
    hide PutEntry, Rec, Next, Used, Tiles, Listing;
    var b := PutEntry(Zeros(size), 0, e, size);
    PutEntryMeaning(Zeros(size), 0, e, size);
    ListNothing(b, size);
    ListRecord(b, 0);
  }

  lemma BlockAppended(blocks: seq<Block>, size: nat, b: Block)
    requires AllTiled(blocks, size) && |b| == size && Sized(b) && Tiles(b, 0)
    ensures AllTiled(blocks + [b], size) && Contents(blocks + [b], size) == Contents(blocks, size) + Listing(b, 0)
  {
    hide Tiles, Listing, Sized;
    var all := blocks + [b];
    assert all[..|blocks|] == blocks && all[|blocks| + 1..] == [];
    ContentsSplit(all, size, |blocks|);
  }

  lemma InsertedLast(s: seq<Entry>, e: Entry)
    ensures Inserted(s, s + [e], e)
  {
    InsertBetween(s, [], e);
    assert s + [] == s && s + ([e] + []) == s + [e];
  }

  lemma DoubledLength(b: Block)
    requires 8 <= |b| && 2 * RecLen(b, 0) < 0x1_0000
    ensures RecLen(Merged(b, 0, 0), 0) == 2 * RecLen(b, 0)
  {
    hide JoinBytes, PutRecLen, PutNoInode, RecLen;
    assert Merged(b, 0, 0) == PutRecLen(PutNoInode(b, 0), 0, 2 * RecLen(b, 0));
    RecLenOfPut(PutNoInode(b, 0), 0, 2 * RecLen(b, 0));
  }

  lemma RecLenOfPut(b: Block, pos: nat, n: nat)
    requires pos + 8 <= |b| && n < 0x1_0000
    ensures RecLen(PutRecLen(b, pos, n), pos) == n
  {
    hide JoinBytes;
    RecLenRoundTrip(n);
  }

  // ---------------------------------------------------------------- two directories where it goes wrong

  /** A block of the given size with up to three records: 16 bytes for x, 16 bytes for y, the rest for z. */
  function Records(x: Entry, y: Option<Entry>, z: Entry): (b: Block)
    requires |x.name| <= 8 && (y.Some? ==> |y.value.name| <= 8) && |z.name| < 0x100
    ensures |b| == 1024
  {
    var b := PutEntry(Zeros(1024), 0, x, 16);
    if y.Some? then PutEntry(PutEntry(b, 16, y.value, 16), 32, z, 992) else PutEntry(b, 16, z, 1008)
  }

  lemma NeedUpTo8(n: nat)
    requires n <= 8
    ensures Need(n) <= 16 && (5 <= n ==> Need(n) == 16) && (1 <= n <= 4 ==> Need(n) == 12)
  {
  }

  lemma NeedUpTo255(n: nat)
    requires n < 0x100
    ensures Need(n) <= 264
  {
  }

  lemma TwoRecords(x: Entry, z: Entry)
    requires Writable(x) && Writable(z) && |x.name| <= 8
    ensures var b := Records(x, None, z);
      && Tiles(b, 0) && Listing(b, 0) == [x, z] && Rec(b, 0) && Rec(b, 16) && RecLen(b, 0) == 16 && Next(b, 16) == 1024
      && Used(b, 0) == [x] && Used(b, 16) == [z] && Inode(b, 16) == z.inode
  {
    hide PutEntry, Used, Tiles, Listing, Need;
    NeedUpTo8(|x.name|);
    NeedUpTo255(|z.name|);
    PutEntryMeaning(Zeros(1024), 0, x, 16);
    var b1, b := PutEntry(Zeros(1024), 0, x, 16), Records(x, None, z);
    PutEntryMeaning(b1, 16, z, 1008);
    SameRecord(b1, b, 0);
    ListNothing(b, 1024);
    ListRecord(b, 16);
    ListRecord(b, 0);
  }

  predicate Lists(b: Block, s: seq<Entry>) {
    Tiles(b, 0) && Listing(b, 0) == s
  }

  /** The entry whose inode lost its low three bytes. */
  function Clobbered(x: Entry): Entry {
    x.(inode := x.inode / 0x100_0000 * 0x100_0000 + 4)
  }

  /** What is left of two records after the first was removed. */
  lemma FirstRemoved(x: Entry, z: Entry)
    requires Writable(x) && Writable(z) && |x.name| <= 8
    ensures var b := PutNoInode(Records(x, None, z), 0);
      && |b| == 1024 && Lists(b, [z]) && Rec(b, 0) && Rec(b, 16) && RecLen(b, 0) == 16 && Next(b, 16) == 1024
      && Inode(b, 0) == 0 && Used(b, 16) == [z]
  {
    hide PutEntry, Used, Tiles, Listing, Need, Records, PutNoInode;
    TwoRecords(x, z);
    var b0 := Records(x, None, z);
    var b := PutNoInode(b0, 0);
    ClearedRecord(b0, 0);
    SameRecord(b0, b, 16);
    assert Inode(b, 0) == 0 by {
      BumpedMerge(b0, 0);
      assert Agree(Merged(b0, 0, 0), b, 0, 4);
    }
    ListNothing(b, 1024);
    ListRecord(b, 16);
    ListRecord(b, 0);
  }

  /** The reuse of 16 bytes for a name of up to four letters, seen from the block. */
  lemma ReuseShort(b: Block, z: Entry, e: Entry)
    requires |b| == 1024 && Writable(e) && 1 <= |e.name| <= 4 && Tiles(b, 0) && Rec(b, 0) && Rec(b, 16) && RecLen(b, 0) == 16
    requires Inode(b, 0) == 0 && Used(b, 16) == [z] && Next(b, 16) == 1024
    ensures 8 + |e.name| <= 1024 && Lists(Reused(b, 0, e), [e, Clobbered(z)])
  {
    hide PutEntry, Used, Tiles, Listing, Need, Reused, JoinBytes, Inode;
    NeedUpTo8(|e.name|);
    var b' := Reused(b, 0, e);
    UsedInode(b, 16, z);
    SlackFourRecord(b, 0, e);
    SlackFourClobbers(b, 0, e);
    ClobberedEntry(b, b', 16, z);
    ListNothing(b', 1024);
    ListRecord(b', 16);
    ListRecord(b', 0);
  }

  lemma UsedInode(b: Block, pos: nat, x: Entry)
    requires Rec(b, pos) && Used(b, pos) == [x]
    ensures Inode(b, pos) == x.inode
  {
  }

  /**
   Removing a first entry of five to eight letters leaves an unused record of 16 bytes; adding a name of up to four then
   has four bytes to spare, and the entry behind it is no longer the one it was unless its inode ends in those bytes.
   */
  lemma RemoveThenAdd(x: Entry, next: Entry, e: Entry)
    requires Writable(x) && Writable(next) && Writable(e) && 5 <= |x.name| <= 8 && 1 <= |e.name| <= 4
    ensures Lists(Records(x, None, next), [x, next])
    ensures var b := PutNoInode(Records(x, None, next), 0);
      Lists(b, [next]) && Tiles(b, 0) && Lists(AddedBlock(b, e), [e, Clobbered(next)])
  {
    hide PutEntry, Used, Listing, Need, Records, PutNoInode, Reused, Tiles, Rec, Inode, RecLen, Next, FitPos;
    TwoRecords(x, next);
    FirstRemoved(x, next);
    var b := PutNoInode(Records(x, None, next), 0);
    NeedUpTo8(|e.name|);
    FitsFirst(b, 12);
    ReuseShort(b, next, e);
  }

  lemma FitsFirst(b: Block, need: nat)
    requires Tiles(b, 0) && |b| > 0 && Rec(b, 0) && Inode(b, 0) == 0 && RecLen(b, 0) >= need
    ensures FitPos(b, 0, need) == 0 && !Ends(b, 0)
  {
  }

  lemma ClobberedEntry(b: Block, b': Block, pos: nat, x: Entry)
    requires Rec(b, pos) && Used(b, pos) == [x] && Agree(b, b', pos + 3, |b|) && Inode(b', pos) == x.inode / 0x100_0000 * 0x100_0000 + 4
    ensures Rec(b', pos) && Next(b', pos) == Next(b, pos) && Used(b', pos) == [x.(inode := x.inode / 0x100_0000 * 0x100_0000 + 4)]
  {
    hide JoinBytes;
    assert RecLen(b', pos) == RecLen(b, pos) && NameLen(b', pos) == NameLen(b, pos);
    assert Inode(b, pos) != 0;
    assert b'[pos + 8..pos + 8 + NameLen(b, pos)] == b[pos + 8..pos + 8 + NameLen(b, pos)];
  }

  /**
   Behind a block left with a single record, removing the first of three entries of a block doubles its length: the
   second entry, which nobody asked to remove, is gone too.
   */
  lemma RemoveTakesNeighbour(w: Entry, x: Entry, y: Entry, z: Entry)
    requires Writable(w) && Writable(x) && Writable(y) && Writable(z) && |x.name| <= 8 && |y.name| <= 8
    ensures var first, b := PutEntry(Zeros(1024), 0, w, 1024), Records(x, Some(y), z);
      && Tiles(first, 0) && Stale([first]) == Some(0)
      && Tiles(b, 0) && Listing(b, 0) == [x, y, z] && Tiles(Merged(b, 0, 0), 0) && Listing(Merged(b, 0, 0), 0) == [z]
  {
    hide PutEntry, Used, Tiles, Listing, Need, Records, Merged, JoinBytes, LastRec;
    NewBlock(1024, w);
    NeedUpTo255(|w.name|);
    PutEntryMeaning(Zeros(1024), 0, w, 1024);
    OnlyRecord(PutEntry(Zeros(1024), 0, w, 1024));
    ThreeRecords(x, y, z);
    var b := Records(x, Some(y), z);
    var b' := Merged(b, 0, 0);
    BumpedMerge(b, 0);
    DoubledLength(b);
    EndsNot(b', 0);
    assert Rec(b', 0);
    NotUsed(b', 0);
    SuffixSame(b, b', 32);
    ListRecord(b', 0);
  }

  lemma OnlyRecord(b: Block)
    requires Tiles(b, 0) && Rec(b, 0) && Next(b, 0) == |b|
    ensures LastRec(b, 0) == Some(0) && Stale([b]) == Some(0)
  {
  }

  lemma ThreeRecords(x: Entry, y: Entry, z: Entry)
    requires Writable(x) && Writable(y) && Writable(z) && |x.name| <= 8 && |y.name| <= 8
    ensures var b := Records(x, Some(y), z);
      && Tiles(b, 0) && Listing(b, 0) == [x, y, z] && Rec(b, 0) && RecLen(b, 0) == 16 && Tiles(b, 32) && Listing(b, 32) == [z]
  {
    hide PutEntry, Used, Tiles, Listing, Need;
    NeedUpTo8(|x.name|);
    NeedUpTo8(|y.name|);
    NeedUpTo255(|z.name|);
    var b0 := PutEntry(Zeros(1024), 0, x, 16);
    var b1, b := PutEntry(b0, 16, y, 16), Records(x, Some(y), z);
    PutEntryMeaning(Zeros(1024), 0, x, 16);
    PutEntryMeaning(b0, 16, y, 16);
    PutEntryMeaning(b1, 32, z, 992);
    SameRecord(b0, b1, 0);
    SameRecord(b1, b, 0);
    SameRecord(b1, b, 16);
    ListNothing(b, 1024);
    ListRecord(b, 32);
    ListRecord(b, 16);
    ListRecord(b, 0);
  }
}

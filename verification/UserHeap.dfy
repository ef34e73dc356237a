/**
 The user heap of the C library: a list of blocks in address order, each with its header in front of it.
 Memory is counted in cells of four bytes. A header is six cells; `size`, `next` and `free` stand in the
 first, third and fifth. 0 is the null pointer.
 */
module UserHeap {

  /** `heap_start` */
  const START: nat := 0x1000_0000
  /** `PAGE_SIZE` */
  const PAGE: nat := 1024

  datatype Block = Block(at: nat, size: nat, free: bool)

  function End(b: Block): nat { b.at + 6 + b.size }

  // ---------------------------------------------------------------- lists of blocks

  /** Each block ends where the next begins, wherever the first one starts. */
  ghost predicate Contiguous(s: seq<Block>) {
    && (forall k :: 0 <= k < |s| ==> s[k].size >= 1)
    && forall k :: 0 <= k < |s| - 1 ==> s[k + 1].at == End(s[k])
  }

  /** The blocks of the heap: contiguous from its start. */
  ghost predicate Chain(s: seq<Block>) {
    Contiguous(s) && (s != [] ==> s[0].at == START)
  }

  /** The end of the used heap. */
  function Top(s: seq<Block>): nat {
    if s == [] then START else End(s[|s| - 1])
  }

  /** No two neighbours are both free. */
  ghost predicate Coalesced(s: seq<Block>) {
    forall k :: 0 <= k < |s| - 1 ==> !(s[k].free && s[k + 1].free)
  }

  function Joined(a: Block, b: Block): Block {
    Block(a.at, a.size + 6 + b.size, true)
  }

  /** The loop of `free`: neighbours that are both free become one block. */
  function Merge(s: seq<Block>): (r: seq<Block>)
    ensures s != [] ==> r != [] && r[0].at == s[0].at && (r[0].free ==> s[0].free)
    decreases |s|
  {
    if |s| < 2 then s
    else if s[0].free && s[1].free then Merge([Joined(s[0], s[1])] + s[2..])
    else [s[0]] + Merge(s[1..])
  }

  lemma ContiguousTail(s: seq<Block>)
    requires Contiguous(s) && s != []
    ensures Contiguous(s[1..])
  {
  }

  lemma ContiguousJoin(s: seq<Block>)
    requires Contiguous(s) && |s| >= 2
    ensures Contiguous([Joined(s[0], s[1])] + s[2..])
    ensures Top(s) == Top([Joined(s[0], s[1])] + s[2..])
  {
    var t := [Joined(s[0], s[1])] + s[2..];
    assert forall k :: 1 <= k < |t| ==> t[k] == s[k + 1];
  }

  lemma ContiguousCons(b: Block, t: seq<Block>)
    requires Contiguous(t) && b.size >= 1 && (t != [] ==> t[0].at == End(b))
    ensures Contiguous([b] + t)
    ensures t != [] ==> Top([b] + t) == Top(t)
  {
    var s := [b] + t;
    assert forall k :: 1 <= k < |s| ==> s[k] == t[k - 1];
  }

  lemma CoalescedCons(b: Block, t: seq<Block>)
    requires Coalesced(t) && (t != [] ==> !(b.free && t[0].free))
    ensures Coalesced([b] + t)
  {
    var s := [b] + t;
    assert forall k :: 1 <= k < |s| ==> s[k] == t[k - 1];
  }

  /** Merging keeps the blocks contiguous over the same stretch and leaves no free neighbours. */
  lemma {:induction false} MergeMeaning(s: seq<Block>)
    requires Contiguous(s)
    ensures Contiguous(Merge(s)) && Coalesced(Merge(s)) && (s != [] ==> Top(Merge(s)) == Top(s))
    decreases |s|
  {
    hide Contiguous, Coalesced, Top;
    if |s| < 2 {
      ShortCoalesced(s);
    } else if s[0].free && s[1].free {
      ContiguousJoin(s);
      MergeMeaning([Joined(s[0], s[1])] + s[2..]);
    } else {
      ContiguousTail(s);
      MergeMeaning(s[1..]);
      HeadFacts(s);
      ContiguousCons(s[0], Merge(s[1..]));
      CoalescedCons(s[0], Merge(s[1..]));
    }
  }

  lemma ShortCoalesced(s: seq<Block>)
    requires |s| < 2
    ensures Coalesced(s)
  {
  }

  lemma HeadFacts(s: seq<Block>)
    requires Contiguous(s) && |s| >= 2
    ensures s[0].size >= 1 && s[1].at == End(s[0]) && Top(s) == Top(s[1..])
  {
  }

  /** Live blocks survive merging untouched, and no others appear. */
  lemma {:induction false} MergeKeepsLive(s: seq<Block>, b: Block)
    requires !b.free
    ensures b in Merge(s) <==> b in s
    decreases |s|
  {
    if |s| >= 2 {
      if s[0].free && s[1].free {
        var t := [Joined(s[0], s[1])] + s[2..];
        MergeKeepsLive(t, b);
        assert s == [s[0], s[1]] + s[2..];
      } else {
        MergeKeepsLive(s[1..], b);
        assert s == [s[0]] + s[1..];
      }
    }
  }

  /** List order is address order: an earlier block ends before a later one begins. */
  lemma {:induction false} InOrder(s: seq<Block>, j: nat, k: nat)
    requires Contiguous(s) && j < k < |s|
    ensures End(s[j]) <= s[k].at
    decreases k
  {
    if j < k - 1 {
      InOrder(s, j, k - 1);
    }
    assert s[k - 1 + 1].at == End(s[k - 1]);
  }

  // ---------------------------------------------------------------- headers in memory

  /** The address of the k-th block, or null. */
  function NthAt(s: seq<Block>, k: nat): nat {
    if k < |s| then s[k].at else 0
  }

  function Flag(free: bool): nat { if free then 1 else 0 }

  /** The header of b is in memory and links to `next`. */
  predicate HeaderOk(mem: seq<nat>, b: Block, next: nat) {
    End(b) <= |mem| && mem[b.at] == b.size && mem[b.at + 2] == next && mem[b.at + 4] == Flag(b.free)
  }

  /** Memory up to `heap_end` holds the list with its headers. */
  ghost predicate Stored(mem: seq<nat>, head: nat, s: seq<Block>) {
    head == NthAt(s, 0) && START <= |mem| && forall k :: 0 <= k < |s| ==> HeaderOk(mem, s[k], NthAt(s, k + 1))
  }

  /** Everything between calls: the stored list is a chain without free neighbours. */
  ghost predicate Sound(mem: seq<nat>, head: nat, s: seq<Block>) {
    Stored(mem, head, s) && Chain(s) && Coalesced(s)
  }

  /** Whenever everything is free, one free block is left and covers the whole used heap. */
  lemma AllFreeIsOne(mem: seq<nat>, head: nat, s: seq<Block>)
    requires Sound(mem, head, s) && s != [] && forall k :: 0 <= k < |s| ==> s[k].free
    ensures |s| == 1 && s[0].at == START == head && End(s[0]) == Top(s) <= |mem|
  {
    assert HeaderOk(mem, s[0], NthAt(s, 1));
  }

  /** The payloads of live blocks hold what they held. */
  ghost predicate LiveKept(mem: seq<nat>, s: seq<Block>, mem': seq<nat>) {
    && |mem| <= |mem'|
    && forall b, c: nat :: b in s && !b.free && b.at + 6 <= c < End(b) && c < |mem| ==> mem'[c] == mem[c]
  }

  /** What a free block becomes when `req` cells of it are taken. */
  function Cut(b: Block, req: nat): (r: seq<Block>)
    requires b.size >= req
    ensures |r| >= 1 && r[0].at == b.at && !r[0].free && req <= r[0].size <= req + 6
  {
    if b.size >= req + 7 then [Block(b.at, req, false), Block(b.at + 6 + req, b.size - req - 6, true)] else [Block(b.at, b.size, false)]
  }

  /** The list after `malloc` reused its k-th block. */
  function Reused(s: seq<Block>, k: nat, req: nat): seq<Block>
    requires k < |s| && s[k].size >= req
  {
    s[..k] + Cut(s[k], req) + s[k + 1..]
  }

  /** `split_block`, then `block->free = 0` */
  function ReuseMem(mem: seq<nat>, at: nat, req: nat): (r: seq<nat>)
    requires at + 5 < |mem| && (mem[at] >= req + 7 ==> at + 6 + req + 5 < |mem|)
    ensures |r| == |mem|
  {
    var n := at + 6 + req;
    var split := if mem[at] >= req + 7 then mem[n := mem[at] - req - 6][n + 2 := mem[at + 2]][n + 4 := 1][at := req][at + 2 := n] else mem;
    split[at + 4 := 0]
  }

  lemma ReuseCells(mem: seq<nat>, at: nat, req: nat)
    requires at + 5 < |mem| && (mem[at] >= req + 7 ==> at + 6 + req + 5 < |mem|)
    ensures var r, n := ReuseMem(mem, at, req), at + 6 + req;
      && r[at + 4] == 0
      && (if mem[at] >= req + 7 then r[at] == req && r[at + 2] == n && r[n] == mem[at] - req - 6 && r[n + 2] == mem[at + 2] && r[n + 4] == 1
          else r[at] == mem[at] && r[at + 2] == mem[at + 2])
      && forall c :: 0 <= c < |mem| && !(at <= c < at + 6) && !(mem[at] >= req + 7 && n <= c < n + 6) ==> r[c] == mem[c]
  {
  }

  /** Headers outside the cells written stay as they are. */
  lemma HeaderFrame(mem: seq<nat>, mem': seq<nat>, b: Block, next: nat)
    requires HeaderOk(mem, b, next) && |mem| <= |mem'| && forall c :: b.at <= c < b.at + 6 ==> mem'[c] == mem[c]
    ensures HeaderOk(mem', b, next)
  {
  }

  lemma ReusedAt(s: seq<Block>, k: nat, req: nat, j: nat)
    requires k < |s| && s[k].size >= req && j < |Reused(s, k, req)|
    ensures var s', d := Reused(s, k, req), |Cut(s[k], req)|;
      && |s'| == |s| + d - 1
      && s'[j] == (if j < k then s[j] else if j < k + d then Cut(s[k], req)[j - k] else s[j - d + 1])
      && NthAt(s', j + 1) == (if j < k then NthAt(s, j + 1) else if j + 1 < k + d then Cut(s[k], req)[j + 1 - k].at else NthAt(s, j + 2 - d))
  {
  }

  lemma ReusedShape(s: seq<Block>, k: nat, req: nat)
    requires k < |s| && s[k].size >= req
    ensures |Reused(s, k, req)| == |s| + |Cut(s[k], req)| - 1 && |Cut(s[k], req)| >= 1 && Reused(s, k, req)[0].at == s[0].at
  {
  }

  lemma StoredAt(mem: seq<nat>, head: nat, s: seq<Block>, k: nat)
    requires Stored(mem, head, s) && k < |s|
    ensures HeaderOk(mem, s[k], NthAt(s, k + 1)) && head == s[0].at && End(s[k]) <= |mem|
  {
  }

  /** The two headers a cut leaves. */
  lemma CutHeaders(mem: seq<nat>, b: Block, req: nat, next: nat)
    requires HeaderOk(mem, b, next) && 1 <= req <= b.size
    ensures b.at + 5 < |mem| && mem[b.at] == b.size && (mem[b.at] >= req + 7 ==> b.at + 6 + req + 5 < |mem|)
    ensures var mem', cut := ReuseMem(mem, b.at, req), Cut(b, req);
      if |cut| == 2 then HeaderOk(mem', cut[0], cut[1].at) && HeaderOk(mem', cut[1], next) else HeaderOk(mem', cut[0], next)
  {
    hide ReuseMem;
    ReuseCells(mem, b.at, req);
  }

  lemma ReuseStoredAt(mem: seq<nat>, head: nat, s: seq<Block>, k: nat, req: nat, j: nat)
    requires Stored(mem, head, s) && Contiguous(s) && k < |s| && 1 <= req <= s[k].size && j < |Reused(s, k, req)|
    requires s[k].at + 5 < |mem| && mem[s[k].at] == s[k].size && (mem[s[k].at] >= req + 7 ==> s[k].at + 6 + req + 5 < |mem|)
    ensures HeaderOk(ReuseMem(mem, s[k].at, req), Reused(s, k, req)[j], NthAt(Reused(s, k, req), j + 1))
  {
    hide ReuseMem, Stored, Contiguous, Reused, NthAt, HeaderOk;
    var d := |Cut(s[k], req)|;
    ReusedAt(s, k, req, j);
    StoredAt(mem, head, s, k);
    CutHeaders(mem, s[k], req, NthAt(s, k + 1));
    ReuseCells(mem, s[k].at, req);
    if j < k {
      StoredAt(mem, head, s, j);
      InOrder(s, j, k);
      HeaderFrame(mem, ReuseMem(mem, s[k].at, req), s[j], NthAt(s, j + 1));
    } else if j >= k + d {
      var i := j - d + 1;
      StoredAt(mem, head, s, i);
      InOrder(s, k, i);
      HeaderFrame(mem, ReuseMem(mem, s[k].at, req), s[i], NthAt(s, i + 1));
    }
  }

  /** Taking a free block stores the new list. */
  lemma ReuseStored(mem: seq<nat>, head: nat, s: seq<Block>, k: nat, req: nat)
    requires Stored(mem, head, s) && Contiguous(s) && k < |s| && 1 <= req <= s[k].size
    ensures var at := s[k].at; at + 5 < |mem| && mem[at] == s[k].size && (mem[at] >= req + 7 ==> at + 6 + req + 5 < |mem|)
    ensures Stored(ReuseMem(mem, s[k].at, req), head, Reused(s, k, req))
  {
    hide ReuseMem, HeaderOk, Contiguous;
    StoredAt(mem, head, s, k);
    CutHeaders(mem, s[k], req, NthAt(s, k + 1));
    forall j | 0 <= j < |Reused(s, k, req)|
      ensures HeaderOk(ReuseMem(mem, s[k].at, req), Reused(s, k, req)[j], NthAt(Reused(s, k, req), j + 1))
    {
      ReuseStoredAt(mem, head, s, k, req, j);
    }
  }

  lemma ReusedContiguous(s: seq<Block>, k: nat, req: nat)
    requires Contiguous(s) && k < |s| && 1 <= req <= s[k].size
    ensures Contiguous(Reused(s, k, req)) && Top(Reused(s, k, req)) == Top(s)
  {
    hide Reused, NthAt;
    var s', d := Reused(s, k, req), |Cut(s[k], req)|;
    ReusedShape(s, k, req);
    ReusedAt(s, k, req, |s'| - 1);
    forall j | 0 <= j < |s'|
      ensures s'[j].size >= 1 && (j < |s'| - 1 ==> s'[j + 1].at == End(s'[j]))
    {
      ReusedAt(s, k, req, j);
      if j < |s'| - 1 {
        ReusedAt(s, k, req, j + 1);
      }
    }
  }

  lemma ReusedCoalesced(s: seq<Block>, k: nat, req: nat)
    requires Coalesced(s) && k < |s| && s[k].free && 1 <= req <= s[k].size
    ensures Coalesced(Reused(s, k, req))
  {
    hide Reused, NthAt;
    var s' := Reused(s, k, req);
    forall j | 0 <= j < |s'| - 1
      ensures !(s'[j].free && s'[j + 1].free)
    {
      ReusedAt(s, k, req, j);
      ReusedAt(s, k, req, j + 1);
    }
  }

  /** Taking a free block leaves a sound heap in which exactly that block became live, with room for the request. */
  lemma ReuseSound(mem: seq<nat>, head: nat, s: seq<Block>, k: nat, req: nat)
    requires Sound(mem, head, s) && k < |s| && s[k].free && 1 <= req <= s[k].size
    ensures var at := s[k].at; at + 5 < |mem| && mem[at] == s[k].size && (mem[at] >= req + 7 ==> at + 6 + req + 5 < |mem|)
    ensures var mem', s' := ReuseMem(mem, s[k].at, req), Reused(s, k, req);
      && Sound(mem', head, s') && LiveKept(mem, s, mem') && Top(s') == Top(s)
      && s'[k] == Cut(s[k], req)[0] && forall b: Block :: !b.free ==> (b in s' <==> b in s || b == Cut(s[k], req)[0])
  {
    hide Reused, ReuseMem, HeaderOk, Contiguous, Coalesced, Stored, Top, Cut;
    ReuseStored(mem, head, s, k, req);
    ReusedContiguous(s, k, req);
    ReusedCoalesced(s, k, req);
    ReusedShape(s, k, req);
    ReusedLive(s, k, req);
    ReuseKeepsLive(mem, head, s, k, req);
  }

  lemma ReusedLive(s: seq<Block>, k: nat, req: nat)
    requires k < |s| && s[k].free && 1 <= req <= s[k].size
    ensures var s' := Reused(s, k, req);
      |s'| > k && s'[k] == Cut(s[k], req)[0] && forall b: Block :: !b.free ==> (b in s' <==> b in s || b == Cut(s[k], req)[0])
  {
    var cut, s' := Cut(s[k], req), Reused(s, k, req);
    assert s == s[..k] + [s[k]] + s[k + 1..];
    assert cut == [cut[0]] + cut[1..];
    assert s'[k] == cut[0];
  }

  lemma ReuseKeepsLive(mem: seq<nat>, head: nat, s: seq<Block>, k: nat, req: nat)
    requires Stored(mem, head, s) && Contiguous(s) && k < |s| && s[k].free && 1 <= req <= s[k].size
    requires s[k].at + 5 < |mem| && mem[s[k].at] == s[k].size && (mem[s[k].at] >= req + 7 ==> s[k].at + 6 + req + 5 < |mem|)
    ensures LiveKept(mem, s, ReuseMem(mem, s[k].at, req))
  {
    hide ReuseMem, Stored, Contiguous;
    ReuseCells(mem, s[k].at, req);
    forall b | b in s && !b.free
      ensures End(b) <= s[k].at || End(s[k]) <= b.at
    {
      var j :| 0 <= j < |s| && s[j] == b;
      if j < k {
        InOrder(s, j, k);
      } else {
        InOrder(s, k, j);
      }
    }
  }

  // ---------------------------------------------------------------- growing the heap

  /** The cells of the new last block: its header, and the link from the block before it. */
  function AppendMem(mem: seq<nat>, at: nat, req: nat, prev: nat): (r: seq<nat>)
    requires at + 5 < |mem| && prev + 2 < |mem|
    ensures |r| == |mem|
  {
    var header := mem[at := req][at + 4 := 0][at + 2 := 0];
    if prev != 0 then header[prev + 2 := at] else header
  }

  /** The last block of the list, or null. */
  function LastAt(s: seq<Block>): nat {
    if s == [] then 0 else s[|s| - 1].at
  }

  lemma TopInMemory(mem: seq<nat>, head: nat, s: seq<Block>)
    requires Stored(mem, head, s) && Chain(s)
    ensures START <= Top(s) <= |mem| && (s != [] ==> START <= LastAt(s) && End(s[|s| - 1]) == Top(s))
  {
    hide Contiguous;
    if s != [] {
      StoredAt(mem, head, s, |s| - 1);
      if |s| > 1 {
        InOrder(s, 0, |s| - 1);
      }
    }
  }

  /** A block added at the end of the used heap. */
  lemma AppendStored(mem: seq<nat>, head: nat, s: seq<Block>, mem1: seq<nat>, req: nat)
    requires Stored(mem, head, s) && Chain(s) && req >= 1 && Top(s) + 6 + req <= |mem1| && |mem| <= |mem1| && mem1[..|mem|] == mem
    ensures LastAt(s) + 2 < |mem1| && Top(s) >= START
    ensures Stored(AppendMem(mem1, Top(s), req, LastAt(s)), if s == [] then Top(s) else head, s + [Block(Top(s), req, false)])
  {
    hide Contiguous, AppendMem, HeaderOk, LastAt;
    TopInMemory(mem, head, s);
    AppendHeader(mem, head, s, mem1, req);
    var mem', s' := AppendMem(mem1, Top(s), req, LastAt(s)), s + [Block(Top(s), req, false)];
    forall j | 0 <= j < |s'|
      ensures HeaderOk(mem', s'[j], NthAt(s', j + 1))
    {
      if j < |s| {
        AppendKeepsHeader(mem, head, s, mem1, req, j);
      }
    }
  }

  lemma AppendHeader(mem: seq<nat>, head: nat, s: seq<Block>, mem1: seq<nat>, req: nat)
    requires Stored(mem, head, s) && Chain(s) && req >= 1 && Top(s) + 6 + req <= |mem1| && |mem| <= |mem1|
    ensures LastAt(s) + 2 < |mem1|
    ensures |AppendMem(mem1, Top(s), req, LastAt(s))| == |mem1|
    ensures HeaderOk(AppendMem(mem1, Top(s), req, LastAt(s)), Block(Top(s), req, false), 0)
  {
    hide Contiguous, Stored;
    TopInMemory(mem, head, s);
  }

  lemma AppendKeepsHeader(mem: seq<nat>, head: nat, s: seq<Block>, mem1: seq<nat>, req: nat, j: nat)
    requires Stored(mem, head, s) && Chain(s) && Top(s) + 6 + req <= |mem1| && |mem| <= |mem1| && mem1[..|mem|] == mem && j < |s|
    ensures LastAt(s) + 2 < |mem1|
    ensures HeaderOk(AppendMem(mem1, Top(s), req, LastAt(s)), s[j], if j + 1 < |s| then s[j + 1].at else Top(s))
  {
    hide Contiguous, Stored;
    TopInMemory(mem, head, s);
    StoredAt(mem, head, s, j);
    assert forall c :: 0 <= c < |mem| ==> mem1[c] == mem1[..|mem|][c];
    if j < |s| - 1 {
      InOrder(s, j, |s| - 1);
    }
  }

  /** The list with a block added stays a chain; live payloads keep their cells. */
  lemma AppendSound(mem: seq<nat>, head: nat, s: seq<Block>, mem1: seq<nat>, req: nat)
    requires Sound(mem, head, s) && req >= 1 && Top(s) + 6 + req <= |mem1| && |mem| <= |mem1| && mem1[..|mem|] == mem
    ensures LastAt(s) + 2 < |mem1|
    ensures var mem', s' := AppendMem(mem1, Top(s), req, LastAt(s)), s + [Block(Top(s), req, false)];
      Sound(mem', if s == [] then Top(s) else head, s') && LiveKept(mem, s, mem')
  {
    hide Stored, HeaderOk, AppendMem;
    AppendStored(mem, head, s, mem1, req);
    AppendChain(s, req);
    AppendKeepsLive(mem, head, s, mem1, req);
  }

  lemma AppendChain(s: seq<Block>, req: nat)
    requires Chain(s) && Coalesced(s) && req >= 1
    ensures Chain(s + [Block(Top(s), req, false)]) && Coalesced(s + [Block(Top(s), req, false)])
  {
  }

  lemma AppendKeepsLive(mem: seq<nat>, head: nat, s: seq<Block>, mem1: seq<nat>, req: nat)
    requires Stored(mem, head, s) && Chain(s) && Top(s) + 6 + req <= |mem1| && |mem| <= |mem1| && mem1[..|mem|] == mem
    requires LastAt(s) + 2 < |mem1|
    ensures LiveKept(mem, s, AppendMem(mem1, Top(s), req, LastAt(s)))
  {
    hide Stored, Contiguous;
    TopInMemory(mem, head, s);
    assert forall c :: 0 <= c < |mem| ==> mem1[c] == mem1[..|mem|][c];
    forall b | b in s
      ensures End(b) <= Top(s) && (End(b) <= LastAt(s) || b.at == LastAt(s))
    {
      var j :| 0 <= j < |s| && s[j] == b;
      if j < |s| - 1 {
        InOrder(s, j, |s| - 1);
      }
    }
  }

  // ---------------------------------------------------------------- freeing

  /** The list after the k-th block was marked free. */
  function Marked(s: seq<Block>, k: nat): seq<Block>
    requires k < |s|
  {
    s[k := s[k].(free := true)]
  }

  lemma MarkStored(mem: seq<nat>, head: nat, s: seq<Block>, k: nat)
    requires Stored(mem, head, s) && Contiguous(s) && k < |s|
    ensures s[k].at + 4 < |mem| && Stored(mem[s[k].at + 4 := 1], head, Marked(s, k)) && Contiguous(Marked(s, k))
    ensures LiveKept(mem, Marked(s, k), mem[s[k].at + 4 := 1])
  {
    hide Contiguous, HeaderOk, LiveKept;
    StoredAt(mem, head, s, k);
    HeaderFits(mem, s[k], NthAt(s, k + 1));
    forall j | 0 <= j < |s|
      ensures HeaderOk(mem[s[k].at + 4 := 1], Marked(s, k)[j], NthAt(Marked(s, k), j + 1))
    {
      MarkHeader(mem, head, s, k, j);
    }
    MarkContiguous(s, k);
    MarkKeepsLive(mem, s, k);
  }

  lemma HeaderFits(mem: seq<nat>, b: Block, next: nat)
    requires HeaderOk(mem, b, next)
    ensures b.at + 4 < |mem|
  {
  }

  lemma MarkHeader(mem: seq<nat>, head: nat, s: seq<Block>, k: nat, j: nat)
    requires Stored(mem, head, s) && Contiguous(s) && k < |s| && j < |s| && s[k].at + 4 < |mem|
    ensures HeaderOk(mem[s[k].at + 4 := 1], Marked(s, k)[j], NthAt(Marked(s, k), j + 1))
  {
    hide Contiguous, Stored;
    StoredAt(mem, head, s, j);
    if j < k {
      InOrder(s, j, k);
    } else if j > k {
      InOrder(s, k, j);
    }
  }

  lemma MarkContiguous(s: seq<Block>, k: nat)
    requires Contiguous(s) && k < |s|
    ensures Contiguous(Marked(s, k)) && Top(Marked(s, k)) == Top(s) && Marked(s, k)[0].at == s[0].at
  {
  }

  lemma MarkKeepsLive(mem: seq<nat>, s: seq<Block>, k: nat)
    requires Contiguous(s) && k < |s| && s[k].at + 4 < |mem|
    ensures LiveKept(mem, Marked(s, k), mem[s[k].at + 4 := 1])
  {
    hide Contiguous;
    forall b | b in Marked(s, k) && !b.free
      ensures End(b) <= s[k].at || End(s[k]) <= b.at
    {
      var j :| 0 <= j < |s| && Marked(s, k)[j] == b;
      if j < k {
        InOrder(s, j, k);
      } else if j > k {
        InOrder(s, k, j);
      }
    }
  }

  /** The list after the i-th and the next block became one. */
  function Join(s: seq<Block>, i: nat): (r: seq<Block>)
    requires i + 1 < |s|
    ensures |r| == |s| - 1
    ensures forall j :: 0 <= j < |r| ==> r[j] == if j < i then s[j] else if j == i then Joined(s[i], s[i + 1]) else s[j + 1]
  {
    s[..i] + [Joined(s[i], s[i + 1])] + s[i + 2..]
  }

  /** `curr->size += BLOCK_SIZE + curr->next->size; curr->next = curr->next->next` */
  function JoinMem(mem: seq<nat>, at: nat, next: nat): (r: seq<nat>)
    requires at + 2 < |mem| && next + 2 < |mem|
    ensures |r| == |mem|
  {
    mem[at := mem[at] + 6 + mem[next]][at + 2 := mem[next + 2]]
  }

  lemma JoinStored(mem: seq<nat>, head: nat, s: seq<Block>, i: nat)
    requires Stored(mem, head, s) && Contiguous(s) && i + 1 < |s| && s[i].free && s[i + 1].free
    ensures s[i].at + 2 < |mem| && s[i + 1].at + 2 < |mem|
    ensures Stored(JoinMem(mem, s[i].at, s[i + 1].at), head, Join(s, i)) && LiveKept(mem, s, JoinMem(mem, s[i].at, s[i + 1].at))
  {
    hide Contiguous, Stored, JoinMem;
    StoredAt(mem, head, s, i);
    StoredAt(mem, head, s, i + 1);
    JoinedHeads(mem, head, s, i);
    forall j | 0 <= j < |s| - 1
      ensures HeaderOk(JoinMem(mem, s[i].at, s[i + 1].at), Join(s, i)[j], NthAt(Join(s, i), j + 1))
    {
      JoinHeader(mem, head, s, i, j);
    }
    JoinIsStored(mem, head, s, i);
    JoinKeepsLive(mem, head, s, i);
  }

  lemma JoinedHeads(mem: seq<nat>, head: nat, s: seq<Block>, i: nat)
    requires Stored(mem, head, s) && i + 1 < |s|
    ensures head == NthAt(Join(s, i), 0) && START <= |mem|
  {
  }

  lemma JoinIsStored(mem: seq<nat>, head: nat, s: seq<Block>, i: nat)
    requires i + 1 < |s| && s[i].at + 2 < |mem| && s[i + 1].at + 2 < |mem| && head == NthAt(Join(s, i), 0) && START <= |mem|
    requires forall j :: 0 <= j < |s| - 1 ==> HeaderOk(JoinMem(mem, s[i].at, s[i + 1].at), Join(s, i)[j], NthAt(Join(s, i), j + 1))
    ensures Stored(JoinMem(mem, s[i].at, s[i + 1].at), head, Join(s, i))
  {
    hide HeaderOk;
  }

  lemma JoinHeader(mem: seq<nat>, head: nat, s: seq<Block>, i: nat, j: nat)
    requires Stored(mem, head, s) && Contiguous(s) && i + 1 < |s| && s[i].free && s[i + 1].free && j < |s| - 1
    requires s[i].at + 2 < |mem| && s[i + 1].at + 2 < |mem|
    ensures HeaderOk(JoinMem(mem, s[i].at, s[i + 1].at), Join(s, i)[j], NthAt(Join(s, i), j + 1))
  {
    hide Contiguous, Stored, JoinMem, HeaderOk, Join;
    JoinAt(s, i, j);
    JoinCells(mem, s[i].at, s[i + 1].at);
    StoredAt(mem, head, s, i);
    StoredAt(mem, head, s, i + 1);
    NextStart(s, i);
    var k := if j <= i then j else j + 1;
    StoredAt(mem, head, s, k);
    if j < i {
      InOrder(s, j, i);
      HeaderFrame(mem, JoinMem(mem, s[i].at, s[i + 1].at), s[k], NthAt(s, k + 1));
    } else if j > i {
      InOrder(s, i, j + 1);
      HeaderFrame(mem, JoinMem(mem, s[i].at, s[i + 1].at), s[k], NthAt(s, k + 1));
    } else {
      JoinedHeader(mem, s[i], s[i + 1], NthAt(s, i + 2));
    }
  }

  lemma NextStart(s: seq<Block>, i: nat)
    requires Contiguous(s) && i + 1 < |s|
    ensures s[i + 1].at == End(s[i])
  {
  }

  lemma JoinAt(s: seq<Block>, i: nat, j: nat)
    requires i + 1 < |s| && j < |s| - 1
    ensures Join(s, i)[j] == if j < i then s[j] else if j == i then Joined(s[i], s[i + 1]) else s[j + 1]
    ensures NthAt(Join(s, i), j + 1) == if j < i then NthAt(s, j + 1) else NthAt(s, j + 2)
  {
  }

  lemma JoinCells(mem: seq<nat>, at: nat, next: nat)
    requires at + 2 < |mem| && next + 2 < |mem|
    ensures var r := JoinMem(mem, at, next);
      r[at] == mem[at] + 6 + mem[next] && r[at + 2] == mem[next + 2] && forall c :: 0 <= c < |mem| && c != at && c != at + 2 ==> r[c] == mem[c]
  {
  }

  lemma JoinedHeader(mem: seq<nat>, a: Block, b: Block, next: nat)
    requires HeaderOk(mem, a, b.at) && HeaderOk(mem, b, next) && b.at == End(a) && a.free
    ensures a.at + 2 < |mem| && b.at + 2 < |mem| && HeaderOk(JoinMem(mem, a.at, b.at), Joined(a, b), next)
  {
  }

  lemma JoinKeepsLive(mem: seq<nat>, head: nat, s: seq<Block>, i: nat)
    requires Stored(mem, head, s) && Contiguous(s) && i + 1 < |s| && s[i].free
    requires s[i].at + 2 < |mem| && s[i + 1].at + 2 < |mem|
    ensures LiveKept(mem, s, JoinMem(mem, s[i].at, s[i + 1].at))
  {
    hide Stored, Contiguous;
    forall b | b in s && !b.free
      ensures End(b) <= s[i].at || End(s[i]) <= b.at
    {
      var j :| 0 <= j < |s| && s[j] == b;
      if j < i {
        InOrder(s, j, i);
      } else {
        InOrder(s, i, j);
      }
    }
  }

  // ---------------------------------------------------------------- the heap

  /** `find_free_block`, as a position in the list */
  function FirstFree(s: seq<Block>, req: nat): (k: nat)
    ensures k <= |s| && (k < |s| ==> s[k].free && s[k].size >= req)
    ensures forall j :: 0 <= j < k ==> !(s[j].free && s[j].size >= req)
  {
    if s == [] || (s[0].free && s[0].size >= req) then 0 else 1 + FirstFree(s[1..], req)
  }

  lemma FirstFreeIs(s: seq<Block>, req: nat, k: nat)
    requires k <= |s| && forall j :: 0 <= j < k ==> !(s[j].free && s[j].size >= req)
    requires k < |s| ==> s[k].free && s[k].size >= req
    ensures FirstFree(s, req) == k
  {
  }

  /** `ALIGN4(size)`, in cells */
  function Rounded(size: nat): nat {
    (size + 3) / 4
  }

  /** A request was served with block b: it is live and was not, has room, and no other live block came, went or changed. */
  ghost predicate Served(mem: seq<nat>, s: seq<Block>, req: nat, mem': seq<nat>, s': seq<Block>, b: Block) {
    && LiveKept(mem, s, mem') && b in s' && !b.free && b !in s && req <= b.size <= req + 6
    && forall c: Block :: !c.free ==> (c in s' <==> c in s || c == b)
  }

  /** Has block b room for `size` bytes, and for fewer than 28 more? */
  predicate HasRoom(b: Block, size: nat) {
    size <= 4 * b.size < size + 28
  }

  lemma RoundedRoom(b: Block, size: nat)
    requires Rounded(size) <= b.size <= Rounded(size) + 6
    ensures HasRoom(b, size)
  {
  }

  /** Is no block free that has room for `size` bytes? */
  ghost predicate NoneFree(s: seq<Block>, size: nat) {
    forall j :: 0 <= j < |s| && s[j].free ==> 4 * s[j].size < size
  }

  /** A request of `size` bytes is served at the first free block with the room, or else at the end of the used heap. */
  ghost predicate FirstPlace(s: seq<Block>, size: nat, at: nat) {
    && (forall j :: 0 <= j < |s| && s[j].free && size <= 4 * s[j].size ==> at <= s[j].at)
    && ((NoneFree(s, size) && at == Top(s)) || exists j :: 0 <= j < |s| && s[j].at == at && s[j].free && size <= 4 * s[j].size)
  }

  lemma FirstFreePlace(s: seq<Block>, size: nat)
    requires Contiguous(s)
    ensures var k := FirstFree(s, Rounded(size));
      FirstPlace(s, size, if k < |s| then s[k].at else Top(s)) && (k == |s| <==> NoneFree(s, size))
  {
    hide Contiguous, FirstFree;
    var k := FirstFree(s, Rounded(size));
    forall j | 0 <= j < |s| && s[j].free && size <= 4 * s[j].size
      ensures k < |s| && s[k].at <= s[j].at
    {
      assert s[j].size >= Rounded(size);
      if k < j {
        InOrder(s, k, j);
      }
    }
    if k < |s| {
      assert s[k].free && size <= 4 * s[k].size;
    }
  }

  lemma ReuseServed(mem: seq<nat>, head: nat, s: seq<Block>, k: nat, req: nat)
    requires Sound(mem, head, s) && k < |s| && s[k].free && 1 <= req <= s[k].size
    ensures var at := s[k].at; at + 5 < |mem| && mem[at] == s[k].size && (mem[at] >= req + 7 ==> at + 6 + req + 5 < |mem|)
    ensures var mem', s' := ReuseMem(mem, s[k].at, req), Reused(s, k, req);
      && Sound(mem', head, s') && Served(mem, s, req, mem', s', Cut(s[k], req)[0]) && Top(s') == Top(s)
      && Cut(s[k], req)[0].at == s[k].at
  {
    hide Sound, LiveKept, Reused, ReuseMem;
    ReuseSound(mem, head, s, k, req);
    SoundChain(mem, head, s);
    NoSuchLive(s, k, Cut(s[k], req)[0]);
  }

  lemma ServedRoom(mem: seq<nat>, s: seq<Block>, size: nat, mem': seq<nat>, s': seq<Block>, b: Block)
    requires Served(mem, s, Rounded(size), mem', s', b)
    ensures HasRoom(b, size)
  {
    hide LiveKept;
    RoundedRoom(b, size);
  }

  lemma SoundChain(mem: seq<nat>, head: nat, s: seq<Block>)
    requires Sound(mem, head, s)
    ensures Chain(s) && Contiguous(s) && Stored(mem, head, s)
  {
  }

  /** The block now live at a free block's address is not a block of the old list. */
  lemma NoSuchLive(s: seq<Block>, k: nat, b: Block)
    requires Contiguous(s) && k < |s| && s[k].free && b.at == s[k].at && !b.free
    ensures b !in s
  {
    hide Contiguous;
    if b in s {
      var j :| 0 <= j < |s| && s[j] == b;
      if j < k {
        InOrder(s, j, k);
      } else {
        InOrder(s, k, j);
      }
    }
  }

  lemma AppendServed(mem: seq<nat>, head: nat, s: seq<Block>, mem1: seq<nat>, req: nat)
    requires Sound(mem, head, s) && req >= 1 && Top(s) + 6 + req <= |mem1| && |mem| <= |mem1| && mem1[..|mem|] == mem
    ensures LastAt(s) + 2 < |mem1|
    ensures var mem', s' := AppendMem(mem1, Top(s), req, LastAt(s)), s + [Block(Top(s), req, false)];
      && Sound(mem', if s == [] then Top(s) else head, s') && Served(mem, s, req, mem', s', Block(Top(s), req, false))
      && Top(s') == Top(s) + 6 + req
  {
    hide Sound, LiveKept, AppendMem, Contiguous;
    AppendSound(mem, head, s, mem1, req);
    SoundChain(mem, head, s);
    BelowTop(s);
  }

  lemma BelowTop(s: seq<Block>)
    requires Contiguous(s)
    ensures forall b :: b in s ==> b.at < Top(s)
  {
    forall b | b in s
      ensures b.at < Top(s)
    {
      var j :| 0 <= j < |s| && s[j] == b;
      if j < |s| - 1 {
        InOrder(s, j, |s| - 1);
      }
    }
  }

  lemma WalkStep(mem: seq<nat>, head: nat, s: seq<Block>, k: nat)
    requires Stored(mem, head, s) && Chain(s) && k <= |s|
    ensures NthAt(s, k) == 0 <==> k == |s|
    ensures head == NthAt(s, 0)
    ensures k < |s| ==> s[k].at + 5 < |mem| && mem[s[k].at] == s[k].size && mem[s[k].at + 2] == NthAt(s, k + 1)
                        && (mem[s[k].at + 4] == 1 <==> s[k].free) && NthAt(s, k) == s[k].at
  {
    hide Contiguous;
    if k < |s| {
      StoredAt(mem, head, s, k);
      if k > 0 {
        InOrder(s, 0, k);
      }
    }
  }

  class Heap {
    /** Memory up to `heap_end`. */
    var mem: seq<nat>
    var head: nat
    ghost var blocks: seq<Block>

    ghost predicate Valid()
      reads this
    {
      Sound(mem, head, blocks)
    }

    constructor (below: seq<nat>)
      requires |below| == START
      ensures Valid() && blocks == [] && mem == below
    {
      mem, head, blocks := below, 0, [];
    }

    /** `find_free_block` */
    method FindFreeBlock(req: nat) returns (p: nat)
      requires Valid()
      ensures p == NthAt(blocks, FirstFree(blocks, req))
    {
      hide Contiguous, Coalesced, Stored;
      p := head;
      ghost var k := 0;
      WalkStep(mem, head, blocks, 0);
      while p != 0
        invariant k <= |blocks| && p == NthAt(blocks, k)
        invariant forall j :: 0 <= j < k ==> !(blocks[j].free && blocks[j].size >= req)
        decreases |blocks| - k
      {
        WalkStep(mem, head, blocks, k);
        if mem[p + 4] == 1 && mem[p] >= req {
          FirstFreeIs(blocks, req, k);
          return;
        }
        p, k := mem[p + 2], k + 1;
      }
      WalkStep(mem, head, blocks, k);
      FirstFreeIs(blocks, req, k);
    }

    /** The walk to the last block in `get_heap_free_start` and `malloc` */
    method LastBlock() returns (p: nat)
      requires Valid()
      ensures p == LastAt(blocks)
    {
      hide Contiguous, Coalesced, Stored;
      WalkStep(mem, head, blocks, 0);
      if head == 0 {
        return 0;
      }
      p := head;
      ghost var k := 0;
      WalkStep(mem, head, blocks, 0);
      while mem[p + 2] != 0
        invariant k < |blocks| && p == NthAt(blocks, k) && p + 5 < |mem| && mem[p + 2] == NthAt(blocks, k + 1)
        decreases |blocks| - k
      {
        WalkStep(mem, head, blocks, k + 1);
        p, k := mem[p + 2], k + 1;
      }
      WalkStep(mem, head, blocks, k + 1);
    }

    /** `get_heap_free_start` */
    method HeapFreeStart() returns (p: nat)
      requires Valid()
      ensures p == Top(blocks) && (blocks == [] ==> p == 0x1000_0000)
    {
      hide Contiguous, Coalesced, Stored;
      p := LastBlock();
      WalkStep(mem, head, blocks, 0);
      if head == 0 {
        return START;
      }
      WalkStep(mem, head, blocks, |blocks| - 1);
      p := p + 6 + mem[p];
    }

    /** `heap_extend` */
    method HeapExtend(pages: nat)
      modifies this`mem
      ensures |mem| == |old(mem)| + pages * PAGE && mem[..|old(mem)|] == old(mem)
    {
      mem := mem + seq(pages * PAGE, _ => 0);
    }

    /** `split_block`, then `block->free = 0` */
    method TakeBlock(at: nat, req: nat)
      requires at + 5 < |mem| && (mem[at] >= req + 7 ==> at + 6 + req + 5 < |mem|)
      modifies this`mem
      ensures mem == ReuseMem(old(mem), at, req)
    {
      if mem[at] >= req + 7 {
        var n := at + 6 + req;
        mem := mem[n := mem[at] - req - 6][n + 2 := mem[at + 2]][n + 4 := 1];
        mem := mem[at := req][at + 2 := n];
      }
      mem := mem[at + 4 := 0];
    }

    /** `malloc`; the heap grows by whole pages and only when no free block fits and the rest is too short. */
    method Malloc(size: nat) returns (p: nat, ghost b: Block)
      requires Valid()
      modifies this
      ensures Valid()
      ensures p == 0 <==> size == 0
      ensures p == 0 ==> mem == old(mem) && blocks == old(blocks)
      ensures p != 0 ==> p == b.at + 6 && Served(old(mem), old(blocks), Rounded(size), mem, blocks, b)
      ensures p != 0 ==> HasRoom(b, size) && FirstPlace(old(blocks), size, b.at)
      ensures |mem| == |old(mem)| || (NoneFree(old(blocks), size) && |old(mem)| < |mem| < Top(blocks) + 1024 && (|mem| - |old(mem)|) % 1024 == 0)
    {
      hide Sound, Served, Reused, ReuseMem, AppendMem, Top, LastAt, Cut, Contiguous, Stored, Coalesced, LiveKept, FirstPlace, NoneFree, HasRoom;
      b := Block(0, 0, false);
      if size == 0 {
        return 0, b;
      }
      var req := Rounded(size);
      var block := FindFreeBlock(req);
      SoundChain(mem, head, blocks);
      ghost var k := FirstFree(blocks, req);
      FirstFreePlace(blocks, size);
      WalkStep(mem, head, blocks, k);
      if block != 0 {
        ReuseServed(mem, head, blocks, k, req);
        b := Cut(blocks[k], req)[0];
        ServedRoom(mem, blocks, size, ReuseMem(mem, block, req), Reused(blocks, k, req), b);
        TakeBlock(block, req);
        blocks := Reused(blocks, k, req);
        return block + 6, b;
      }
      var freeStart := HeapFreeStart();
      // The source walks to the last block after writing the new header, none of whose cells the walk reads.
      var last := LastBlock();
      var total := req + 6;
      ghost var mem0, head0, blocks0 := mem, head, blocks;
      if freeStart + total > |mem| {
        var pages := (freeStart + total - |mem| + PAGE - 1) / PAGE;
        EnoughPages(freeStart + total, |mem|);
        HeapExtend(pages);
      }
      assert mem[..|mem0|] == mem0;
      LastNull(mem0, head0, blocks0);
      AppendServed(mem0, head0, blocks0, mem, req);
      AppendBySteps(mem, freeStart, req, last);
      b := Block(freeStart, req, false);
      RoundedRoom(b, size);
      ghost var after := AppendMem(mem, freeStart, req, last);
      mem := mem[freeStart := req][freeStart + 4 := 0][freeStart + 2 := 0];
      if head == 0 {
        head := freeStart;
      } else {
        mem := mem[last + 2 := freeStart];
      }
      assert mem == after;
      blocks := blocks0 + [b];
      return freeStart + 6, b;
    }

    /** `curr->size += BLOCK_SIZE + curr->next->size; curr->next = curr->next->next` */
    method JoinBlocks(curr: nat, next: nat)
      requires curr + 2 < |mem| && next + 2 < |mem| && curr != next + 2
      modifies this`mem
      ensures mem == JoinMem(old(mem), curr, next)
    {
      mem := mem[curr := mem[curr] + 6 + mem[next]];
      mem := mem[curr + 2 := mem[next + 2]];
    }

    /** The coalescing loop of `free`. */
    method CoalesceAll()
      requires Stored(mem, head, blocks) && Chain(blocks)
      modifies this
      ensures Sound(mem, head, blocks) && blocks == Merge(old(blocks)) && LiveKept(old(mem), old(blocks), mem) && |mem| == |old(mem)|
    {
      hide Contiguous, Coalesced, Stored, LiveKept, Merge, JoinMem, Join;
      ghost var i := 0;
      var curr := head;
      WalkStep(mem, head, blocks, 0);
      NothingMerged(mem, blocks);
      while curr != 0 && mem[curr + 2] != 0
        invariant i <= |blocks| && Stored(mem, head, blocks) && Chain(blocks) && |mem| == |old(mem)|
        invariant curr == NthAt(blocks, i) && (curr != 0 ==> curr + 5 < |mem|)
        invariant blocks[..i] + Merge(blocks[i..]) == Merge(old(blocks)) && LiveKept(old(mem), old(blocks), mem)
        invariant forall b: Block :: !b.free ==> (b in blocks <==> b in old(blocks))
        decreases |blocks| - i
      {
        WalkStep(mem, head, blocks, i);
        WalkStep(mem, head, blocks, i + 1);
        MergeStep(blocks, i);
        ghost var mem1, blocks1 := mem, blocks;
        var next := mem[curr + 2];
        if mem[curr + 4] == 1 && mem[next + 4] == 1 {
          JoinStored(mem, head, blocks, i);
          JoinChain(blocks, i);
          JoinLive(blocks, i);
          NextStart(blocks, i);
          JoinBlocks(curr, next);
          blocks := Join(blocks, i);
          LiveKeptTwice(old(mem), old(blocks), mem1, blocks1, mem);
          WalkStep(mem, head, blocks, i);
        } else {
          curr, i := next, i + 1;
        }
      }
      LoopEnd(mem, head, blocks, i, curr);
      MergeDone(blocks, i);
      ChainMerges(old(blocks));
    }

    /** `free` */
    method Free(p: nat, ghost k: nat)
      requires Valid() && (p != 0 ==> k < |blocks| && p == blocks[k].at + 6)
      modifies this
      ensures Valid() && |mem| == |old(mem)|
      ensures p == 0 ==> mem == old(mem) && blocks == old(blocks)
      ensures p != 0 ==> blocks == Merge(Marked(old(blocks), k)) && LiveKept(old(mem), Marked(old(blocks), k), mem)
    {
      hide Contiguous, Coalesced, Stored, LiveKept, Merge;
      if p == 0 {
        return;
      }
      SoundChain(mem, head, blocks);
      MarkStored(mem, head, blocks, k);
      MarkContiguous(blocks, k);
      ghost var mem0, blocks0, marked := mem, blocks, Marked(blocks, k);
      mem := mem[p - 6 + 4 := 1];
      blocks := marked;
      ghost var mem1 := mem;
      CoalesceAll();
      LiveKeptTwice(mem0, marked, mem1, marked, mem);
    }

    /** `realloc` */
    method Realloc(p: nat, size: nat, ghost k: nat) returns (p': nat, ghost b: Block)
      requires Valid() && (p != 0 ==> k < |blocks| && p == blocks[k].at + 6 && !blocks[k].free)
      modifies this
      ensures Valid()
      ensures p == 0 && size == 0 ==> p' == 0 && mem == old(mem) && blocks == old(blocks)
      ensures p == 0 && size > 0 ==> p' == b.at + 6 && Served(old(mem), old(blocks), Rounded(size), mem, blocks, b) && HasRoom(b, size)
      ensures p != 0 && size == 0 ==> p' == 0 && blocks == Merge(Marked(old(blocks), k)) && LiveKept(old(mem), Marked(old(blocks), k), mem)
      ensures p != 0 && size > 0 ==>
        p' == b.at + 6 && b in blocks && !b.free && Moved(old(mem), old(blocks), old(blocks)[k], Rounded(size), mem, blocks, b)
      ensures p != 0 && size > 0 ==> size <= 4 * b.size
      ensures p != 0 && 0 < size <= 4 * old(blocks)[k].size ==> p' == p && mem == old(mem) && blocks == old(blocks)
      ensures p != 0 && size > 4 * old(blocks)[k].size ==> HasRoom(b, size) && FirstPlace(old(blocks), size, b.at)
    {
      hide Sound, LiveKept, Served, Merge, Moved, Stored, Contiguous, Coalesced, Marked;
      b := Block(0, 0, false);
      if p == 0 {
        p', b := Malloc(size);
        return;
      }
      if size == 0 {
        Free(p, k);
        return 0, b;
      }
      SoundChain(mem, head, blocks);
      WalkStep(mem, head, blocks, k);
      ghost var a, mem0, blocks0 := blocks[k], mem, blocks;
      var req := Rounded(size);
      if mem[p - 6] >= req {
        StayedPut(mem, head, blocks, k, req);
        p', b := p, a;
        return;
      }
      p', b := Malloc(size);
      Move(p, p', mem0, old(head), blocks0, k, req, b);
    }

    /** The end of `realloc`: copy the payload into the new block b, then free the old one. */
    method Move(p: nat, p': nat, ghost mem0: seq<nat>, ghost head0: nat, ghost blocks0: seq<Block>, ghost k: nat, ghost req: nat, ghost b: Block)
      requires Valid() && Sound(mem0, head0, blocks0) && k < |blocks0| && !blocks0[k].free && blocks0[k].size < req
      requires p == blocks0[k].at + 6 && p' == b.at + 6 && Served(mem0, blocks0, req, mem, blocks, b)
      modifies this
      ensures Valid() && b in blocks && !b.free && Moved(mem0, blocks0, blocks0[k], req, mem, blocks, b)
    {
      hide Sound, LiveKept, Served, Merge, Moved, Stored, Contiguous, Coalesced, Marked;
      ghost var a, mem1, head1, blocks1 := blocks0[k], mem, head, blocks;
      MoveBlocks(mem0, head0, blocks0, k, req, mem, head, blocks, b);
      CopyCells(p', p, mem[p - 6]);
      CopySound(mem1, head, blocks, a, b, mem);
      ghost var j := PositionOf(blocks, a);
      ghost var mem2 := mem;
      Free(p, j);
      MovedNow(mem0, head0, blocks0, k, req, mem1, head1, blocks1, b, mem2, j, mem, blocks);
    }

    /** The copying loop of `realloc` between two blocks */
    method CopyCells(dst: nat, src: nat, n: nat)
      requires dst + n <= |mem| && src + n <= |mem| && (dst + n <= src || src + n <= dst)
      modifies this`mem
      ensures mem == CopiedCells(old(mem), dst, src, n)
    {
      ghost var mem0 := mem;
      for i := 0 to n
        invariant |mem| == |mem0|
        invariant forall c :: 0 <= c < |mem| && dst <= c < dst + i ==> mem[c] == mem0[src + (c - dst)]
        invariant forall c :: 0 <= c < |mem| && !(dst <= c < dst + i) ==> mem[c] == mem0[c]
      {
        mem := mem[dst + i := mem[src + i]];
      }
    }
  }

  /** Block a became b: b has room for `req` cells and starts with a's cells; every other live block is as before. */
  ghost predicate Moved(mem: seq<nat>, s: seq<Block>, a: Block, req: nat, mem': seq<nat>, s': seq<Block>, b: Block) {
    && req <= b.size && a.size <= b.size && End(a) <= |mem| <= |mem'| && b.at + 6 + a.size <= |mem'|
    && mem'[b.at + 6..b.at + 6 + a.size] == mem[a.at + 6..End(a)]
    && (forall c: Block :: !c.free ==> (c in s' <==> (c in s && c != a) || c == b))
    && forall c: Block, x: nat :: c in s && !c.free && c != a && c.at + 6 <= x < End(c) && x < |mem| ==> mem'[x] == mem[x]
  }

  function CopiedCells(mem: seq<nat>, dst: nat, src: nat, n: nat): (r: seq<nat>)
    requires dst + n <= |mem| && src + n <= |mem|
    ensures |r| == |mem|
    ensures forall c :: 0 <= c < |mem| ==> r[c] == if dst <= c < dst + n then mem[src + (c - dst)] else mem[c]
  {
    mem[..dst] + mem[src..src + n] + mem[dst + n..]
  }

  function PositionOf(s: seq<Block>, b: Block): (j: nat)
    requires b in s
    ensures j < |s| && s[j] == b
  {
    if s[0] == b then 0 else 1 + PositionOf(s[1..], b)
  }

  /** Live blocks are in memory and apart. */
  lemma LiveApart(mem: seq<nat>, head: nat, s: seq<Block>, a: Block, b: Block)
    requires Sound(mem, head, s) && a in s && b in s
    ensures End(a) <= |mem| && End(b) <= |mem| && (a == b || End(a) <= b.at || End(b) <= a.at) && a.size >= 1
  {
    hide Contiguous, Stored, Coalesced;
    SoundChain(mem, head, s);
    var i, j := PositionOf(s, a), PositionOf(s, b);
    StoredAt(mem, head, s, i);
    StoredAt(mem, head, s, j);
    SizeAt(s, i);
    if i < j {
      InOrder(s, i, j);
    } else if j < i {
      InOrder(s, j, i);
    }
  }

  lemma SizeAt(s: seq<Block>, i: nat)
    requires Contiguous(s) && i < |s|
    ensures s[i].size >= 1
  {
  }

  /** The two blocks of a move. */
  lemma MoveBlocks(mem: seq<nat>, head: nat, s: seq<Block>, k: nat, req: nat, mem1: seq<nat>, head1: nat, s1: seq<Block>, b: Block)
    requires Sound(mem, head, s) && k < |s| && !s[k].free && s[k].size < req
    requires Sound(mem1, head1, s1) && Served(mem, s, req, mem1, s1, b)
    ensures var a := s[k];
      && a in s1 && b in s1 && !b.free && a != b && End(a) <= |mem| <= |mem1| && End(b) <= |mem1| && (End(a) <= b.at || End(b) <= a.at)
      && mem1[a.at] == a.size && b.size >= req
      && mem1[a.at + 6..End(a)] == mem[a.at + 6..End(a)]
  {
    hide Sound;
    var a := s[k];
    assert a in s;
    LiveApart(mem, head, s, a, a);
    LiveApart(mem1, head1, s1, a, b);
    HeaderOf(mem1, head1, s1, a);
  }

  lemma HeaderOf(mem: seq<nat>, head: nat, s: seq<Block>, b: Block)
    requires Sound(mem, head, s) && b in s
    ensures End(b) <= |mem| && mem[b.at] == b.size
  {
    hide Contiguous, Coalesced;
    StoredAt(mem, head, s, PositionOf(s, b));
  }

  /** Copying into the payload of a live block touches no header and no other payload. */
  lemma CopySound(mem: seq<nat>, head: nat, s: seq<Block>, a: Block, b: Block, mem': seq<nat>)
    requires Sound(mem, head, s) && a in s && b in s && !b.free && a.size <= b.size && End(a) <= |mem| && End(b) <= |mem|
    requires mem' == CopiedCells(mem, b.at + 6, a.at + 6, a.size)
    ensures Sound(mem', head, s)
  {
    hide Contiguous, Coalesced, CopiedCells, HeaderOk;
    CopiedOutside(mem, b.at + 6, a.at + 6, a.size);
    forall j | 0 <= j < |s|
      ensures HeaderOk(mem', s[j], NthAt(s, j + 1))
    {
      CopyKeepsHeader(mem, head, s, a, b, mem', j);
    }
  }

  lemma CopyKeepsHeader(mem: seq<nat>, head: nat, s: seq<Block>, a: Block, b: Block, mem': seq<nat>, j: nat)
    requires Sound(mem, head, s) && a in s && b in s && a.size <= b.size && End(a) <= |mem| && End(b) <= |mem| && j < |s|
    requires |mem'| == |mem| && forall c :: 0 <= c < |mem| && !(b.at + 6 <= c < b.at + 6 + a.size) ==> mem'[c] == mem[c]
    ensures HeaderOk(mem', s[j], NthAt(s, j + 1))
  {
    hide Sound, HeaderOk, Stored, Contiguous;
    SoundChain(mem, head, s);
    StoredAt(mem, head, s, j);
    LiveApart(mem, head, s, s[j], b);
    HeaderFrame(mem, mem', s[j], NthAt(s, j + 1));
  }

  lemma CopiedOutside(mem: seq<nat>, dst: nat, src: nat, n: nat)
    requires dst + n <= |mem| && src + n <= |mem|
    ensures |CopiedCells(mem, dst, src, n)| == |mem|
    ensures forall c :: 0 <= c < |mem| && !(dst <= c < dst + n) ==> CopiedCells(mem, dst, src, n)[c] == mem[c]
    ensures CopiedCells(mem, dst, src, n)[dst..dst + n] == mem[src..src + n]
  {
  }

  /** What a move amounts to: payload copied, old block freed and merged away. */
  lemma MovedNow(mem: seq<nat>, head: nat, s: seq<Block>, k: nat, req: nat, mem1: seq<nat>, head1: nat, s1: seq<Block>, b: Block,
                 mem2: seq<nat>, j: nat, mem3: seq<nat>, s3: seq<Block>)
    requires Sound(mem, head, s) && k < |s| && !s[k].free && s[k].size < req
    requires Sound(mem1, head1, s1) && Served(mem, s, req, mem1, s1, b) && End(s[k]) <= |mem1| && End(b) <= |mem1| && s[k].size <= b.size
    requires mem2 == CopiedCells(mem1, b.at + 6, s[k].at + 6, s[k].size) && j < |s1| && s1[j] == s[k]
    requires s3 == Merge(Marked(s1, j)) && LiveKept(mem2, Marked(s1, j), mem3)
    ensures b in s3 && Moved(mem, s, s[k], req, mem3, s3, b)
  {
    hide Sound, Merge, Marked, CopiedCells, LiveKept, Served, Contiguous, Moved, Stored, Coalesced;
    var a := s[k];
    MoveBlocks(mem, head, s, k, req, mem1, head1, s1, b);
    SoundChain(mem1, head1, s1);
    MovedLive(s, s1, a, b, j, mem, req, mem1);
    MovedPayload(mem1, s1, a, b, mem2, j, mem3);
    MovedOthers(mem, s, req, mem1, head1, s1, a, b, mem2, j, mem3);
    MovedParts(mem, s, a, req, mem3, s3, b);
  }

  lemma MovedParts(mem: seq<nat>, s: seq<Block>, a: Block, req: nat, mem': seq<nat>, s': seq<Block>, b: Block)
    requires req <= b.size && a.size <= b.size && End(a) <= |mem| <= |mem'| && b.at + 6 + a.size <= |mem'|
    requires mem'[b.at + 6..b.at + 6 + a.size] == mem[a.at + 6..End(a)]
    requires forall c: Block :: !c.free ==> (c in s' <==> (c in s && c != a) || c == b)
    requires forall c: Block, x: nat :: c in s && !c.free && c != a && c.at + 6 <= x < End(c) && x < |mem| ==> mem'[x] == mem[x]
    ensures Moved(mem, s, a, req, mem', s', b)
  {
  }

  lemma MovedOthers(mem: seq<nat>, s: seq<Block>, req: nat, mem1: seq<nat>, head1: nat, s1: seq<Block>, a: Block, b: Block,
                    mem2: seq<nat>, j: nat, mem3: seq<nat>)
    requires Sound(mem1, head1, s1) && Served(mem, s, req, mem1, s1, b) && b in s1 && j < |s1| && s1[j] == a && !a.free && a.size <= b.size
    requires End(a) <= |mem1| && End(b) <= |mem1| && mem2 == CopiedCells(mem1, b.at + 6, a.at + 6, a.size) && a in s && a != b
    requires LiveKept(mem2, Marked(s1, j), mem3) && |mem| <= |mem1| <= |mem3|
    ensures forall c: Block, x: nat :: c in s && !c.free && c != a && c.at + 6 <= x < End(c) && x < |mem| ==> mem3[x] == mem[x]
  {
    hide Sound, Marked, CopiedCells, LiveKept, Contiguous, Merge, Stored;
    SoundChain(mem1, head1, s1);
    MovedLive(s, s1, a, b, j, mem, req, mem1);
    forall c: Block, x: nat | c in s && !c.free && c != a && c.at + 6 <= x < End(c) && x < |mem|
      ensures mem3[x] == mem[x]
    {
      MovedOther(mem, s, req, mem1, head1, s1, a, b, mem2, j, mem3, c, x);
    }
  }

  lemma MovedLive(s: seq<Block>, s1: seq<Block>, a: Block, b: Block, j: nat, mem: seq<nat>, req: nat, mem1: seq<nat>)
    requires Served(mem, s, req, mem1, s1, b) && Contiguous(s1) && j < |s1| && s1[j] == a && !a.free && a in s && a != b
    ensures b in Merge(Marked(s1, j)) && b in Marked(s1, j) && !b.free
    ensures forall c: Block :: !c.free ==> (c in Merge(Marked(s1, j)) <==> (c in s && c != a) || c == b)
    ensures forall c: Block :: !c.free ==> (c in Marked(s1, j) <==> (c in s && c != a) || c == b)
  {
    hide Merge, Marked, LiveKept, Contiguous;
    MarkedLive(s1, j);
    forall c: Block | !c.free
      ensures c in Merge(Marked(s1, j)) <==> c in Marked(s1, j)
    {
      MergeKeepsLive(Marked(s1, j), c);
    }
  }

  lemma MovedPayload(mem1: seq<nat>, s1: seq<Block>, a: Block, b: Block, mem2: seq<nat>, j: nat, mem3: seq<nat>)
    requires End(a) <= |mem1| && End(b) <= |mem1| && a.size <= b.size && mem2 == CopiedCells(mem1, b.at + 6, a.at + 6, a.size)
    requires j < |s1| && b in Marked(s1, j) && !b.free && LiveKept(mem2, Marked(s1, j), mem3)
    ensures |mem3| >= |mem1| && mem3[b.at + 6..b.at + 6 + a.size] == mem1[a.at + 6..End(a)]
  {
    hide Marked, CopiedCells;
    CopiedOutside(mem1, b.at + 6, a.at + 6, a.size);
    assert mem3[b.at + 6..b.at + 6 + a.size] == mem2[b.at + 6..b.at + 6 + a.size];
  }

  lemma MovedOther(mem: seq<nat>, s: seq<Block>, req: nat, mem1: seq<nat>, head1: nat, s1: seq<Block>, a: Block, b: Block,
                   mem2: seq<nat>, j: nat, mem3: seq<nat>, c: Block, x: nat)
    requires Sound(mem1, head1, s1) && Served(mem, s, req, mem1, s1, b) && b in s1 && j < |s1| && a.size <= b.size
    requires End(a) <= |mem1| && End(b) <= |mem1| && mem2 == CopiedCells(mem1, b.at + 6, a.at + 6, a.size)
    requires LiveKept(mem2, Marked(s1, j), mem3)
    requires c in s && !c.free && c in s1 && c in Marked(s1, j) && c.at + 6 <= x < End(c) && x < |mem|
    ensures x < |mem3| && mem3[x] == mem[x]
  {
    hide Sound, Marked, CopiedCells;
    CopiedOutside(mem1, b.at + 6, a.at + 6, a.size);
    LiveApart(mem1, head1, s1, c, b);
    NotServed(mem, s, req, mem1, s1, b, c);
  }

  lemma NotServed(mem: seq<nat>, s: seq<Block>, req: nat, mem1: seq<nat>, s1: seq<Block>, b: Block, c: Block)
    requires Served(mem, s, req, mem1, s1, b) && c in s
    ensures c != b
  {
  }

  /** Marking a block free takes exactly it out of the live ones. */
  lemma MarkedLive(s: seq<Block>, j: nat)
    requires Contiguous(s) && j < |s| && !s[j].free
    ensures forall c: Block :: !c.free ==> (c in Marked(s, j) <==> c in s && c != s[j])
  {
    var s' := Marked(s, j);
    forall c: Block | !c.free
      ensures c in s' <==> c in s && c != s[j]
    {
      if c in s && c != s[j] {
        var i := PositionOf(s, c);
        assert s'[i] == c;
      }
      if c in s' {
        var i := PositionOf(s', c);
        assert i != j && s[i] == c;
        if i < j {
          InOrder(s, i, j);
        } else {
          InOrder(s, j, i);
        }
      }
    }
  }

  /** The block already has the room. */
  lemma StayedPut(mem: seq<nat>, head: nat, s: seq<Block>, k: nat, req: nat)
    requires Stored(mem, head, s) && k < |s| && !s[k].free && req <= s[k].size
    ensures Moved(mem, s, s[k], req, mem, s, s[k]) && s[k] in s
  {
    StoredAt(mem, head, s, k);
  }

  lemma NothingMerged(mem: seq<nat>, s: seq<Block>)
    ensures s[..0] + Merge(s[0..]) == Merge(s) && LiveKept(mem, s, mem)
  {
    assert s[0..] == s && s[..0] == [];
  }

  /** One step of the loop leaves the merged list to come the same. */
  lemma MergeStep(s: seq<Block>, i: nat)
    requires i < |s|
    ensures i + 1 < |s| && s[i].free && s[i + 1].free ==> Join(s, i)[..i] + Merge(Join(s, i)[i..]) == s[..i] + Merge(s[i..])
    ensures i + 1 < |s| && !(s[i].free && s[i + 1].free) ==> s[..i + 1] + Merge(s[i + 1..]) == s[..i] + Merge(s[i..])
  {
    if i + 1 < |s| {
      var t := s[i..];
      assert t[0] == s[i] && t[1] == s[i + 1] && t[2..] == s[i + 2..] && t[1..] == s[i + 1..];
      if s[i].free && s[i + 1].free {
        assert Join(s, i)[i..] == [Joined(s[i], s[i + 1])] + s[i + 2..];
        assert Join(s, i)[..i] == s[..i];
      } else {
        assert s[..i + 1] == s[..i] + [s[i]];
      }
    }
  }

  lemma LoopEnd(mem: seq<nat>, head: nat, s: seq<Block>, i: nat, curr: nat)
    requires Stored(mem, head, s) && Chain(s) && i <= |s| && curr == NthAt(s, i)
    requires curr != 0 ==> curr + 2 < |mem| && mem[curr + 2] == 0
    ensures i <= |s| <= i + 1
  {
    hide Contiguous, Stored;
    WalkStep(mem, head, s, i);
    if i < |s| {
      WalkStep(mem, head, s, i + 1);
    }
  }

  lemma MergeDone(s: seq<Block>, i: nat)
    requires i <= |s| <= i + 1
    ensures s[..i] + Merge(s[i..]) == s
  {
    assert s == s[..i] + s[i..];
  }

  lemma ChainMerges(s: seq<Block>)
    requires Chain(s)
    ensures Chain(Merge(s)) && Coalesced(Merge(s)) && Top(Merge(s)) == Top(s)
  {
    hide Contiguous, Coalesced;
    MergeMeaning(s);
  }

  lemma JoinChain(s: seq<Block>, i: nat)
    requires Chain(s) && i + 1 < |s|
    ensures Chain(Join(s, i))
  {
  }

  lemma JoinLive(s: seq<Block>, i: nat)
    requires i + 1 < |s| && s[i].free && s[i + 1].free
    ensures forall b: Block :: !b.free ==> (b in Join(s, i) <==> b in s)
  {
    assert s == s[..i] + [s[i], s[i + 1]] + s[i + 2..];
  }

  lemma LiveKeptTwice(mem: seq<nat>, s: seq<Block>, mem1: seq<nat>, s1: seq<Block>, mem2: seq<nat>)
    requires LiveKept(mem, s, mem1) && LiveKept(mem1, s1, mem2) && forall b: Block :: !b.free ==> (b in s1 <==> b in s)
    ensures LiveKept(mem, s, mem2)
  {
  }

  lemma LastNull(mem: seq<nat>, head: nat, s: seq<Block>)
    requires Stored(mem, head, s) && Chain(s)
    ensures head == 0 <==> s == []
    ensures LastAt(s) == 0 <==> s == []
  {
    TopInMemory(mem, head, s);
  }

  lemma EnoughPages(need: nat, used: nat)
    requires need > used
    ensures var pages := (need - used + PAGE - 1) / PAGE; need <= used + pages * PAGE < need + PAGE
  {
  }

  lemma AppendBySteps(mem: seq<nat>, at: nat, req: nat, prev: nat)
    requires at + 5 < |mem| && prev + 2 < |mem|
    ensures AppendMem(mem, at, req, prev)
      == if prev != 0 then mem[at := req][at + 4 := 0][at + 2 := 0][prev + 2 := at] else mem[at := req][at + 4 := 0][at + 2 := 0]
  {
  }
}

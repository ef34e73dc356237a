/**
 The kernel heap: a first-fit free list of headers inside the memory it manages.
 Memory, pointers and sizes are counted in words of eight bytes; a header is two words, `size` and `next`.
 A block's `size` leaves its header out, except for the block at the end of the heap, whose `size` counts it.
 */
module KernelHeap {
  import opened Arith

  /** The heap occupies words start to end of memory; 0 is the null pointer. */
  datatype Region = Region(start: nat, end: nat)

  type Lengths = map<nat, nat>

  /** Block a lies in the heap and has room for its header. */
  predicate Within(r: Region, len: Lengths, a: nat)
    requires a in len
  {
    r.start <= a && len[a] >= 2 && a + len[a] <= r.end
  }

  /** Block a ends where another begins, or at the end of the heap. */
  predicate Meets(r: Region, len: Lengths, a: nat)
    requires a in len
  {
    a + len[a] == r.end || a + len[a] in len
  }

  /** Blocks, by first word, with their lengths: they cover the heap from start to end and none overlap. */
  ghost predicate Tiled(r: Region, len: Lengths) {
    && 0 < r.start && r.start in len
    && (forall a :: a in len ==> Within(r, len, a))
    && (forall a {:trigger Meets(r, len, a)} :: a in len ==> Meets(r, len, a))
    && Apart(len)
  }

  predicate Final(r: Region, len: Lengths, a: nat)
    requires a in len
  {
    a + len[a] == r.end
  }

  /** What the word `size` of block a holds. */
  function SizeWord(r: Region, len: Lengths, a: nat): int
    requires a in len
  {
    len[a] as int - (if Final(r, len, a) then 0 else 2)
  }

  /** The word `size` of every block. */
  ghost predicate Sizes(r: Region, mem: seq<nat>, len: Lengths) {
    && r.end <= |mem|
    && forall a :: a in len && a < |mem| ==> mem[a] == SizeWord(r, len, a)
  }

  /** The k-th block of a list, or null. */
  function Nth(list: seq<nat>, k: nat): nat {
    if k < |list| then list[k] else 0
  }

  /** The words `next` link the list from its head to null. */
  ghost predicate Linked(mem: seq<nat>, head: nat, list: seq<nat>) {
    && head == Nth(list, 0)
    && forall k :: 0 <= k < |list| ==> 0 < list[k] && list[k] + 1 < |mem| && mem[list[k] + 1] == Nth(list, k + 1)
  }

  ghost predicate NoRepeat(list: seq<nat>) {
    forall k, l :: 0 <= k < l < |list| ==> list[k] != list[l]
  }

  /** The heap is tiled by blocks with true headers, and the free list visits some of them once each. */
  ghost predicate Sound(r: Region, mem: seq<nat>, head: nat, len: Lengths, list: seq<nat>) {
    && Tiled(r, len) && Sizes(r, mem, len) && Linked(mem, head, list) && NoRepeat(list)
    && forall k :: 0 <= k < |list| ==> list[k] in len
  }

  /** A block handed out and not yet freed. */
  predicate Live(len: Lengths, list: seq<nat>, a: nat) {
    a in len && a !in list
  }

  /** Words of live blocks, headers included, are as they were. */
  ghost predicate LiveKept(mem: seq<nat>, len: Lengths, list: seq<nat>, mem': seq<nat>) {
    && |mem'| == |mem|
    && forall a: nat, w: nat :: Live(len, list, a) && a <= w < a + len[a] && w < |mem| ==> mem'[w] == mem[w]
  }

  /** Is w a word of block a? */
  predicate Holds(len: Lengths, a: nat, w: nat) {
    a in len && a <= w < a + len[a]
  }

  /** Every word of the heap belongs to exactly one block. */
  lemma BlocksPartition(r: Region, len: Lengths, w: nat)
    requires Tiled(r, len)
    ensures r.start <= w < r.end <==> exists a :: Holds(len, a, w)
    ensures forall a, b :: Holds(len, a, w) && Holds(len, b, w) ==> a == b
  {
    if r.start <= w < r.end {
      HoldsFrom(r, len, r.start, w);
    } else {
      forall a | a in len ensures !Holds(len, a, w) {
        assert Within(r, len, a);
      }
    }
  }

  lemma {:induction false} HoldsFrom(r: Region, len: Lengths, a: nat, w: nat)
    requires Tiled(r, len) && a in len && a <= w < r.end
    ensures exists b :: Holds(len, b, w)
    decreases r.end - a
  {
    assert Within(r, len, a) && Meets(r, len, a);
    if w < a + len[a] {
      assert Holds(len, a, w);
    } else {
      HoldsFrom(r, len, a + len[a], w);
    }
  }

  // ---------------------------------------------------------------- taking a block off the list

  /** Is there no room behind the payload for the header of what is left? Only the final block can be that tight. */
  predicate Sliver(r: Region, mem: seq<nat>, len: Lengths, a: nat, take: nat) {
    a in len && a < |mem| && Final(r, len, a) && mem[a] == take + 3
  }

  /** The list after entry k was replaced by what is left of its block, or dropped. */
  function ListAfter(list: seq<nat>, k: nat, split: bool, rest: nat): seq<nat>
    requires k < |list|
  {
    if split then list[k := rest] else list[..k] + list[k + 1..]
  }

  function LengthsAfter(len: Lengths, a: nat, split: bool, take: nat): Lengths
    requires a in len && (split ==> take + 2 <= len[a])
  {
    if split then len[a := take + 2][a + take + 2 := len[a] - take - 2] else len
  }

  /** The split of `kmalloc` and `kaligned_alloc`: header for the rest, then the new header of block a. */
  function Split(mem: seq<nat>, a: nat, take: nat): (r: seq<nat>)
    requires a + 1 < |mem| && a + take + 3 < |mem| && mem[a] >= take + 2
    ensures |r| == |mem|
  {
    var rest := a + take + 2;
    mem[rest := mem[a] - take - 2][rest + 1 := mem[a + 1]][a := take][a + 1 := rest]
  }

  /** Unlinking the k-th block: its predecessor's `next`, or the head, skips it. */
  function Unlink(mem: seq<nat>, head: nat, prev: nat, a: nat): (seq<nat>, nat)
    requires a + 1 < |mem| && prev + 1 < |mem|
  {
    if prev != 0 then (mem[prev + 1 := mem[a + 1]], head) else (mem, mem[a + 1])
  }

  lemma InHeap(r: Region, mem: seq<nat>, head: nat, len: Lengths, list: seq<nat>, a: nat)
    requires Sound(r, mem, head, len, list) && a in len
    ensures 0 < a && a + len[a] <= r.end <= |mem| && len[a] >= 2 && mem[a] == SizeWord(r, len, a)
  {
  }

  /** Blocks do not overlap. */
  ghost predicate Apart(len: Lengths) {
    forall a, b :: a in len && b in len && a < b ==> a + len[a] <= b
  }

  lemma CutApart(len: Lengths, a: nat, take: nat)
    requires Apart(len) && a in len && take + 4 <= len[a]
    ensures a + take + 2 !in len && Apart(len[a := take + 2][a + take + 2 := len[a] - take - 2])
  {
    assert a + len[a] > a + take + 2;
  }

  lemma CutMeets(r: Region, len: Lengths, a: nat, take: nat, b: nat)
    requires a in len && take + 4 <= len[a] && a + take + 2 !in len && b in len && Meets(r, len, b) && Meets(r, len, a)
    ensures var len' := len[a := take + 2][a + take + 2 := len[a] - take - 2]; Meets(r, len', b) && Meets(r, len', a + take + 2)
  {
  }

  /** The tiling after block a was cut in two. */
  lemma CutTiled(r: Region, len: Lengths, a: nat, take: nat)
    requires Tiled(r, len) && a in len && take + 4 <= len[a]
    ensures Tiled(r, LengthsAfter(len, a, true, take)) && a + take + 2 !in len
  {
    hide Meets, Apart;
    var len' := LengthsAfter(len, a, true, take);
    assert Within(r, len, a) && Meets(r, len, a);
    CutApart(len, a, take);
    forall b | b in len'
      ensures Within(r, len', b) && Meets(r, len', b)
    {
      if b in len {
        assert Within(r, len, b) && Meets(r, len, b);
        CutMeets(r, len, a, take, b);
      } else {
        CutMeets(r, len, a, take, a);
      }
    }
  }

  /** Another block's header lies outside block a. */
  lemma OutsideBlock(r: Region, len: Lengths, a: nat, b: nat)
    requires Tiled(r, len) && a in len && b in len && a != b
    ensures b + 2 <= a || a + len[a] <= b
  {
    assert Within(r, len, b);
  }

  /** The final block, and only it, can be too tight to split. */
  lemma RoomToSplit(r: Region, mem: seq<nat>, len: Lengths, a: nat, take: nat)
    requires Tiled(r, len) && Sizes(r, mem, len) && a in len && a < |mem| && mem[a] > take + 2
    ensures Sliver(r, mem, len, a, take) <==> len[a] < take + 4
  {
    assert Within(r, len, a);
  }

  /** `prev` in the search loops: the block before the k-th of the list. */
  function Before(list: seq<nat>, k: nat): nat {
    if 0 < k <= |list| then list[k - 1] else 0
  }

  /** Two blocks on the list are apart by at least a header. */
  lemma ListedApart(r: Region, mem: seq<nat>, head: nat, len: Lengths, list: seq<nat>, j: nat, k: nat)
    requires Sound(r, mem, head, len, list) && j < |list| && k < |list| && j != k
    ensures list[j] in len && list[k] in len && list[j] != list[k]
    ensures list[j] + 2 <= list[k] || list[k] + len[list[k]] <= list[j]
    ensures list[k] + 2 <= list[j] || list[j] + len[list[j]] <= list[k]
  {
    hide Final, SizeWord, Meets, Sizes, Linked;
    assert list[j] != list[k];
    OutsideBlock(r, len, list[k], list[j]);
    OutsideBlock(r, len, list[j], list[k]);
  }

  lemma ListedInHeap(r: Region, mem: seq<nat>, head: nat, len: Lengths, list: seq<nat>, k: nat)
    requires Sound(r, mem, head, len, list) && k < |list|
    ensures var a := list[k]; 0 < a && a in len && len[a] >= 2 && a + len[a] <= r.end <= |mem| && mem[a + 1] == Nth(list, k + 1)
  {
    InHeap(r, mem, head, len, list, list[k]);
  }

  /** Was word w left alone by cutting `take` words off block a and linking past it from prev? */
  predicate Aside(prev: nat, a: nat, take: nat, w: nat) {
    w != a && w != a + 1 && w != a + take + 2 && w != a + take + 3 && (prev == 0 || w != prev + 1)
  }

  lemma SplitWords(mem: seq<nat>, head: nat, prev: nat, a: nat, take: nat)
    requires 0 < a && a + take + 3 < |mem| && mem[a] >= take + 2 && prev + 1 < |mem|
    requires prev == 0 || prev + 2 <= a || a + take + 4 <= prev
    ensures var (mem', head') := Unlink(Split(mem, a, take), head, prev, a); var rest := a + take + 2;
      && |mem'| == |mem| && mem'[a] == take && mem'[rest] == mem[a] - take - 2 && mem'[rest + 1] == mem[a + 1]
      && (if prev == 0 then head' == rest else head' == head && mem'[prev + 1] == rest)
      && forall w :: 0 <= w < |mem| && Aside(prev, a, take, w) ==> mem'[w] == mem[w]
  {
  }

  lemma SplitLinked(r: Region, mem: seq<nat>, head: nat, len: Lengths, list: seq<nat>, k: nat, take: nat)
    requires Sound(r, mem, head, len, list) && k < |list| && list[k] in len && list[k] + take + 3 < |mem|
    requires mem[list[k]] > take + 2 && (take + 4 <= len[list[k]] || (Final(r, len, list[k]) && take + 3 <= len[list[k]]))
    ensures Before(list, k) + 1 < |mem|
    ensures var a := list[k]; var (mem', head') := Unlink(Split(mem, a, take), head, Before(list, k), a);
      Linked(mem', head', list[k := a + take + 2])
  {
    hide Sound, Tiled, Sizes, NoRepeat, SizeWord, Split, Unlink;
    ListedInHeap(r, mem, head, len, list, k);
    var a, rest := list[k], list[k] + take + 2;
    if k > 0 {
      ListedInHeap(r, mem, head, len, list, k - 1);
      ListedApart(r, mem, head, len, list, k - 1, k);
    }
    SplitWords(mem, head, Before(list, k), a, take);
    var (mem', head') := Unlink(Split(mem, a, take), head, Before(list, k), a);
    var list' := list[k := rest];
    SoundHead(r, mem, head, len, list);
    forall j | 0 <= j < |list'|
      ensures 0 < list'[j] && list'[j] + 1 < |mem'| && mem'[list'[j] + 1] == Nth(list', j + 1)
    {
      ListedInHeap(r, mem, head, len, list, j);
      if j != k && j + 1 != k {
        LinkAside(r, mem, head, len, list, k, take, j);
      }
    }
  }

  /** The links of the other listed blocks are no words the split touches. */
  lemma LinkAside(r: Region, mem: seq<nat>, head: nat, len: Lengths, list: seq<nat>, k: nat, take: nat, j: nat)
    requires Sound(r, mem, head, len, list) && k < |list| && j < |list| && j != k && j + 1 != k && list[k] in len
    requires take + 4 <= len[list[k]] || (Final(r, len, list[k]) && take + 3 <= len[list[k]])
    ensures list[j] + 1 < |mem| && Aside(Before(list, k), list[k], take, list[j] + 1)
  {
    hide Sound, Meets;
    ListedInHeap(r, mem, head, len, list, j);
    ListedInHeap(r, mem, head, len, list, k);
    ListedApart(r, mem, head, len, list, j, k);
    if k > 0 {
      ListedApart(r, mem, head, len, list, j, k - 1);
    }
  }

  lemma SoundHead(r: Region, mem: seq<nat>, head: nat, len: Lengths, list: seq<nat>)
    requires Sound(r, mem, head, len, list)
    ensures head == Nth(list, 0)
  {
  }

  /** What `kmalloc` and `kaligned_alloc` do to memory and the head once they settle on block a. */
  function Carved(mem: seq<nat>, head: nat, prev: nat, a: nat, take: nat): (seq<nat>, nat)
    requires a + 1 < |mem| && prev + 1 < |mem| && mem[a] >= take + 2 && (mem[a] > take + 2 ==> a + take + 3 < |mem|)
  {
    Unlink(if mem[a] > take + 2 then Split(mem, a, take) else mem, head, prev, a)
  }

  lemma UnlinkLinked(r: Region, mem: seq<nat>, head: nat, len: Lengths, list: seq<nat>, k: nat)
    requires Sound(r, mem, head, len, list) && k < |list|
    ensures list[k] + 1 < |mem| && Before(list, k) + 1 < |mem|
    ensures var (mem', head') := Unlink(mem, head, Before(list, k), list[k]);
      && Linked(mem', head', list[..k] + list[k + 1..]) && |mem'| == |mem|
      && forall w :: 0 <= w < |mem| && (Before(list, k) == 0 || w != Before(list, k) + 1) ==> mem'[w] == mem[w]
  {
    hide Sound, Tiled, Sizes, NoRepeat, Final, SizeWord;
    ListedInHeap(r, mem, head, len, list, k);
    if k > 0 {
      ListedInHeap(r, mem, head, len, list, k - 1);
    }
    var (mem', head') := Unlink(mem, head, Before(list, k), list[k]);
    var list' := list[..k] + list[k + 1..];
    SoundHead(r, mem, head, len, list);
    forall j | 0 <= j < |list'|
      ensures 0 < list'[j] && list'[j] + 1 < |mem'| && mem'[list'[j] + 1] == Nth(list', j + 1)
    {
      var i := if j < k then j else j + 1;
      ListedInHeap(r, mem, head, len, list, i);
      if k > 0 && i != k - 1 {
        ListedApart(r, mem, head, len, list, i, k - 1);
      }
    }
  }

  /** The word `next` of a listed block is no block's `size`, and lies in no other block. */
  lemma NextWord(r: Region, mem: seq<nat>, head: nat, len: Lengths, list: seq<nat>, k: nat)
    requires Sound(r, mem, head, len, list) && k < |list|
    ensures forall b :: b in len && b != list[k] ==> list[k] + 1 < b || b + len[b] <= list[k]
    ensures list[k] + 1 !in len
  {
    hide SizeWord, Meets, Sizes, Linked, NoRepeat;
    forall b | b in len && b != list[k]
      ensures list[k] + 1 < b || b + len[b] <= list[k]
    {
      OutsideBlock(r, len, b, list[k]);
      OutsideBlock(r, len, list[k], b);
    }
    assert Within(r, len, list[k]);
  }

  /** Taking a block whole. */
  lemma TakeWhole(r: Region, mem: seq<nat>, head: nat, len: Lengths, list: seq<nat>, k: nat)
    requires Sound(r, mem, head, len, list) && k < |list|
    ensures list[k] + 1 < |mem| && Before(list, k) + 1 < |mem|
    ensures var (mem', head') := Unlink(mem, head, Before(list, k), list[k]); var list' := list[..k] + list[k + 1..];
      && Sound(r, mem', head', len, list') && LiveKept(mem, len, list, mem')
      && forall b :: Live(len, list', b) <==> Live(len, list, b) || b == list[k]
  {
    hide Unlink, Linked, Tiled, SizeWord;
    UnlinkLinked(r, mem, head, len, list, k);
    if k > 0 {
      NextWord(r, mem, head, len, list, k - 1);
    }
    Dropped(list, k);
  }

  lemma Dropped(list: seq<nat>, k: nat)
    requires NoRepeat(list) && k < |list|
    ensures var list' := list[..k] + list[k + 1..];
      && NoRepeat(list') && forall b :: b in list' <==> b in list && b != list[k]
  {
    var list' := list[..k] + list[k + 1..];
    forall b
      ensures b in list' <==> b in list && b != list[k]
    {
      if b in list && b != list[k] {
        var j :| 0 <= j < |list| && list[j] == b;
        assert list'[if j < k then j else j - 1] == b;
      }
    }
  }

  lemma Replaced(list: seq<nat>, k: nat, x: nat)
    requires NoRepeat(list) && k < |list| && x !in list
    ensures NoRepeat(list[k := x]) && forall b :: b in list[k := x] <==> b == x || (b in list && b != list[k])
  {
    forall b
      ensures b in list[k := x] <==> b == x || (b in list && b != list[k])
    {
      if b in list && b != list[k] {
        var j :| 0 <= j < |list| && list[j] == b;
        assert list[k := x][j] == b;
      }
      assert list[k := x][k] == x;
    }
  }

  /** Taking the front of a block and leaving the rest on the list. */
  lemma TakeFront(r: Region, mem: seq<nat>, head: nat, len: Lengths, list: seq<nat>, k: nat, take: nat)
    requires Sound(r, mem, head, len, list) && k < |list| && list[k] in len && list[k] < |mem|
    requires mem[list[k]] > take + 2 && take + 4 <= len[list[k]]
    ensures var a := list[k]; a + take + 3 < |mem| && Before(list, k) + 1 < |mem|
    ensures var a := list[k]; var (mem', head') := Unlink(Split(mem, a, take), head, Before(list, k), a);
      var len', list' := LengthsAfter(len, a, true, take), list[k := a + take + 2];
      && Sound(r, mem', head', len', list') && LiveKept(mem, len, list, mem')
      && forall b :: Live(len', list', b) <==> Live(len, list, b) || b == a
  {
    hide Unlink, Split, Linked, Tiled, SizeWord, NoRepeat, Final, Sizes;
    var a := list[k];
    ListedInHeap(r, mem, head, len, list, k);
    CutTiled(r, len, a, take);
    SplitLinked(r, mem, head, len, list, k, take);
    Replaced(list, k, a + take + 2);
    if k > 0 {
      ListedApart(r, mem, head, len, list, k - 1, k);
    }
    FrontSizes(r, mem, head, len, list, k, take);
    FrontKept(r, mem, head, len, list, k, take);
  }

  /** Where the words written by a split lie: in block a, and at the `next` of the block before it on the list. */
  lemma FrontWords(r: Region, mem: seq<nat>, head: nat, len: Lengths, list: seq<nat>, k: nat, take: nat)
    requires Sound(r, mem, head, len, list) && k < |list| && list[k] in len && list[k] < |mem|
    requires mem[list[k]] > take + 2 && take + 4 <= len[list[k]]
    ensures var a := list[k]; var prev := Before(list, k);
      && 0 < a && a + take + 3 < |mem| && prev + 1 < |mem| && (prev == 0 || prev + 2 <= a || a + take + 4 <= prev)
      && (forall b :: b in len && b != a ==> b + 2 <= a || a + len[a] <= b)
      && (forall b :: b in len && b != a ==> b + len[b] <= a || a + len[a] <= b)
      && (prev != 0 ==> prev + 1 !in len && prev in list && forall b :: b in len && b != prev ==> prev + 1 < b || b + len[b] <= prev)
  {
    hide Linked, NoRepeat, Meets, Sizes, SizeWord;
    var a := list[k];
    if k > 0 {
      ListedApart(r, mem, head, len, list, k - 1, k);
      NextWord(r, mem, head, len, list, k - 1);
      ListedInHeap(r, mem, head, len, list, k - 1);
    }
    ListedInHeap(r, mem, head, len, list, k);
    forall b | b in len && b != a
      ensures b + len[b] <= a || a + len[a] <= b
      ensures b + 2 <= a || a + len[a] <= b
    {
      OutsideBlock(r, len, a, b);
      OutsideBlock(r, len, b, a);
    }
  }

  lemma FrontKept(r: Region, mem: seq<nat>, head: nat, len: Lengths, list: seq<nat>, k: nat, take: nat)
    requires Sound(r, mem, head, len, list) && k < |list| && list[k] in len && list[k] < |mem|
    requires mem[list[k]] > take + 2 && take + 4 <= len[list[k]]
    requires list[k] + take + 3 < |mem| && Before(list, k) + 1 < |mem|
    ensures LiveKept(mem, len, list, Unlink(Split(mem, list[k], take), head, Before(list, k), list[k]).0)
  {
    hide Unlink, Split, Sound, Before;
    FrontWords(r, mem, head, len, list, k, take);
    SplitWords(mem, head, Before(list, k), list[k], take);
  }

  lemma FrontSizes(r: Region, mem: seq<nat>, head: nat, len: Lengths, list: seq<nat>, k: nat, take: nat)
    requires Sound(r, mem, head, len, list) && k < |list| && list[k] in len && list[k] < |mem|
    requires mem[list[k]] > take + 2 && take + 4 <= len[list[k]]
    requires list[k] + take + 3 < |mem| && Before(list, k) + 1 < |mem|
    ensures Sizes(r, Unlink(Split(mem, list[k], take), head, Before(list, k), list[k]).0, LengthsAfter(len, list[k], true, take))
  {
    hide Unlink, Split, Sound, Before;
    var a := list[k];
    FrontWords(r, mem, head, len, list, k, take);
    SplitWords(mem, head, Before(list, k), a, take);
    SoundSizes(r, mem, head, len, list);
    var mem', len' := Unlink(Split(mem, a, take), head, Before(list, k), a).0, LengthsAfter(len, a, true, take);
    forall b | b in len' && b < |mem'|
      ensures mem'[b] == SizeWord(r, len', b)
    {
      if b != a && b != a + take + 2 {
        assert Aside(Before(list, k), a, take, b);
      }
    }
  }

  lemma SoundSizes(r: Region, mem: seq<nat>, head: nat, len: Lengths, list: seq<nat>)
    requires Sound(r, mem, head, len, list)
    ensures Sizes(r, mem, len) && forall a :: a in len ==> a + len[a] <= r.end
  {
    hide Meets;
  }

  /** Carving `take` words off the k-th listed block keeps the heap sound unless that leaves a sliver. */
  lemma CarveSound(r: Region, mem: seq<nat>, head: nat, len: Lengths, list: seq<nat>, k: nat, take: nat)
    requires Sound(r, mem, head, len, list) && k < |list|
    requires list[k] < |mem| && mem[list[k]] >= take + 2 && !Sliver(r, mem, len, list[k], take)
    ensures var a := list[k]; a + 1 < |mem| && Before(list, k) + 1 < |mem| && (mem[a] > take + 2 ==> a + take + 3 < |mem|)
    ensures var a := list[k]; a in len && (mem[a] > take + 2 ==> take + 2 <= len[a])
    ensures var a := list[k]; var (mem', head') := Carved(mem, head, Before(list, k), a, take);
      var len', list' := LengthsAfter(len, a, mem[a] > take + 2, take), ListAfter(list, k, mem[a] > take + 2, a + take + 2);
      && Sound(r, mem', head', len', list') && LiveKept(mem, len, list, mem')
      && (forall b :: Live(len', list', b) <==> Live(len, list, b) || b == a)
      && (forall b :: b in len && b != a ==> b in len' && len'[b] == len[b])
      && a in len' && len'[a] >= take + 2
  {
    hide Linked, Tiled, NoRepeat, Unlink, Split, LiveKept;
    ListedInHeap(r, mem, head, len, list, k);
    InHeap(r, mem, head, len, list, list[k]);
    var a := list[k];
    if mem[a] > take + 2 {
      RoomToSplit(r, mem, len, a, take);
      TakeFront(r, mem, head, len, list, k, take);
      CutTiled(r, len, a, take);
    } else {
      TakeWhole(r, mem, head, len, list, k);
    }
  }

  /** Following the same words from the same head gives the same list. */
  lemma {:induction false} ListsAgree(mem: seq<nat>, head: nat, list: seq<nat>, list': seq<nat>, n: nat)
    requires Linked(mem, head, list) && Linked(mem, head, list') && n <= |list|
    ensures n <= |list'| && list'[..n] == list[..n] && Nth(list', n) == Nth(list, n)
  {
    if n > 0 {
      ListsAgree(mem, head, list, list', n - 1);
      assert list'[n - 1] == Nth(list', n - 1) == Nth(list, n - 1) == list[n - 1];
    }
  }

  /** A list that reaches a header crossing the end of the heap belongs to no sound heap. */
  lemma CrossingNeverSound(r: Region, mem: seq<nat>, head: nat, list: seq<nat>, k: nat)
    requires Linked(mem, head, list) && k < |list| && list[k] + 2 > r.end
    ensures forall len', list' :: !Sound(r, mem, head, len', list')
  {
    hide Tiled, NoRepeat, Sizes;
    forall len', list'
      ensures !Sound(r, mem, head, len', list')
    {
      if Sound(r, mem, head, len', list') {
        ListsAgree(mem, head, list, list', |list|);
        assert list'[..|list|][k] == list[k];
        ListedInHeap(r, mem, head, len', list', k);
      }
    }
  }

  /** A sliver breaks the heap: the header of what is left crosses the end, and no reading of the result is sound. */
  lemma SliverBreaks(r: Region, mem: seq<nat>, head: nat, len: Lengths, list: seq<nat>, k: nat, take: nat)
    requires Sound(r, mem, head, len, list) && k < |list| && Sliver(r, mem, len, list[k], take) && r.end < |mem|
    ensures var a := list[k]; a + take + 3 < |mem| && Before(list, k) + 1 < |mem| && mem[a] > take + 2
    ensures var a := list[k]; var (mem', head') := Carved(mem, head, Before(list, k), a, take);
      forall len', list' :: !Sound(r, mem', head', len', list')
  {
    hide Unlink, Split, Tiled, NoRepeat, Sound, Linked;
    ListedInHeap(r, mem, head, len, list, k);
    InHeap(r, mem, head, len, list, list[k]);
    var a := list[k];
    SplitLinked(r, mem, head, len, list, k, take);
    var (mem', head') := Carved(mem, head, Before(list, k), a, take);
    CrossingNeverSound(r, mem', head', list[k := a + take + 2], k);
  }

  // ---------------------------------------------------------------- requests

  /** `(size + 7) & ~7`, in words. */
  function Rounded(size: nat): nat {
    (size + 7) / 8
  }

  lemma RoundedBytes(size: nat)
    ensures size <= 8 * Rounded(size) < size + 8
  {
  }

  /** From word p on, live block a has room for `size` bytes, and fewer than 24 more. */
  ghost predicate HasRoom(len: Lengths, list: seq<nat>, a: int, p: nat, size: nat) {
    a >= 0 && Live(len, list, a) && a + 2 <= p && size <= 8 * (a + len[a] - p) < size + 24
  }

  /** The payload at p is that of a live block and has room for `size` bytes. */
  ghost predicate RoomAt(len: Lengths, list: seq<nat>, p: nat, size: nat) {
    p >= 2 && Live(len, list, p - 2) && size + 16 <= 8 * len[p - 2]
  }

  /** No listed block has room for `size` bytes and another header. */
  ghost predicate NoneWithRoom(mem: seq<nat>, list: seq<nat>, size: nat) {
    forall j :: 0 <= j < |list| && list[j] < |mem| ==> 8 * mem[list[j]] < size + 16
  }

  /** What is asked of the free list: a payload of `words`, at an address that is a multiple of `alignment` bytes. */
  datatype Request = Plain(words: nat) | Aligned(words: nat, alignment: nat)

  /** `(x + alignment - 1) & ~(alignment - 1)` for a power of two */
  function AlignUp(x: nat, alignment: nat): nat
    requires alignment > 0
  {
    (x + alignment - 1) / alignment * alignment
  }

  /** `padding` of `kaligned_alloc`, in words. */
  function Padding(a: nat, alignment: nat): nat
    requires alignment > 0
  {
    (AlignUp(8 * a + 16, alignment) - (8 * a + 16)) / 8
  }

  predicate PowerOfTwo(n: nat) {
    n == 1 || (n > 0 && n % 2 == 0 && PowerOfTwo(n / 2))
  }

  predicate WellFormed(q: Request) {
    q.Aligned? ==> PowerOfTwo(q.alignment)
  }

  /** Words taken off block a behind its header. */
  function Take(q: Request, a: nat): nat
    requires WellFormed(q)
  {
    match q
    case Plain(words) => words
    case Aligned(words, alignment) => Padding(a, alignment) + words
  }

  /** Does the search settle on block a? */
  predicate Fits(mem: seq<nat>, q: Request, a: nat)
    requires a < |mem| && WellFormed(q)
  {
    match q
    case Plain(words) => mem[a] >= words + 2
    case Aligned(words, alignment) => 8 * mem[a] >= 8 * words + alignment + 8 && mem[a] >= Padding(a, alignment) + words + 2
  }

  predicate ListInMemory(mem: seq<nat>, list: seq<nat>) {
    forall j :: 0 <= j < |list| ==> list[j] < |mem|
  }

  /** The first listed block the search settles on, or the length of the list. */
  function FirstFit(mem: seq<nat>, list: seq<nat>, q: Request, from: nat): (k: nat)
    requires WellFormed(q) && from <= |list| && ListInMemory(mem, list)
    ensures from <= k <= |list|
    ensures k < |list| ==> Fits(mem, q, list[k])
    ensures forall j :: from <= j < k ==> !Fits(mem, q, list[j])
    decreases |list| - from
  {
    if from == |list| || Fits(mem, q, list[from]) then from else FirstFit(mem, list, q, from + 1)
  }

  /** Aligning an address: the next multiple of the alignment, which for words keeps it a word. */
  lemma AlignUpMeaning(a: nat, alignment: nat)
    requires PowerOfTwo(alignment)
    ensures alignment > 0
    ensures var x := AlignUp(8 * a, alignment);
      && 8 * a <= x < 8 * a + alignment && x % alignment == 0 && x % 8 == 0
  {
    DivMod(8 * a + alignment - 1, alignment);
    DivModUnique(AlignUp(8 * a, alignment), alignment, (8 * a + alignment - 1) / alignment, 0);
    if alignment < 8 {
      SmallAlignment(a, alignment);
    } else {
      EightDivides(alignment);
      var q := (8 * a + alignment - 1) / alignment;
      Associate(q, alignment / 8, 8);
      DivModUnique(q * alignment, 8, q * (alignment / 8), 0);
    }
  }

  lemma SmallAlignment(a: nat, alignment: nat)
    requires PowerOfTwo(alignment) && alignment < 8
    ensures AlignUp(8 * a, alignment) == 8 * a
  {
    if alignment == 1 {
      DivModUnique(8 * a, 1, 8 * a, 0);
    } else if alignment == 2 {
      DivModUnique(8 * a + 1, 2, 4 * a, 1);
    } else {
      assert alignment == 4;
      DivModUnique(8 * a + 3, 4, 2 * a, 3);
    }
  }

  lemma {:induction false} EightDivides(alignment: nat)
    requires PowerOfTwo(alignment) && alignment >= 8
    ensures alignment % 8 == 0
  {
    if alignment >= 16 {
      EightDivides(alignment / 2);
    } else {
      assert PowerOfTwo(alignment / 2) && PowerOfTwo(alignment / 4);
    }
  }

  /** An aligned payload starts at a multiple of the alignment inside its block. */
  lemma PaddingMeaning(a: nat, alignment: nat)
    requires PowerOfTwo(alignment)
    ensures alignment > 0 && 8 * (a + 2 + Padding(a, alignment)) == AlignUp(8 * a + 16, alignment)
    ensures 8 * (a + 2 + Padding(a, alignment)) % alignment == 0
  {
    hide AlignUp, PowerOfTwo;
    AlignUpMeaning(a + 2, alignment);
    assert 8 * (a + 2) == 8 * a + 16;
    var x := AlignUp(8 * a + 16, alignment);
    assert x == 8 * (x / 8);
  }

  /**
   A request was served from the first listed block that fits: the heap is sound, exactly that block became live,
   the words of live blocks are as before, and the payload lies in the block at the alignment asked for.
   */
  ghost predicate Served(r: Region, mem: seq<nat>, len: Lengths, list: seq<nat>, q: Request,
                         mem': seq<nat>, head': nat, len': Lengths, list': seq<nat>, p: nat)
    requires WellFormed(q) && ListInMemory(mem, list)
  {
    var k := FirstFit(mem, list, q, 0);
    && k < |list| && Sound(r, mem', head', len', list') && LiveKept(mem, len, list, mem')
    && (forall b :: Live(len', list', b) <==> Live(len, list, b) || b == list[k])
    && (forall b :: Live(len, list, b) ==> len'[b] == len[b])
    && list[k] in len' && list[k] + 2 <= p && p + q.words <= list[k] + len'[list[k]] <= p + q.words + 2
    && (if q.Plain? then p == list[k] + 2 else q.alignment > 0 && 8 * p % q.alignment == 0)
  }

  /** Of a cut block the payload is all that is kept; a block that is not cut has at most two words more. */
  lemma CarvedLength(r: Region, mem: seq<nat>, head: nat, len: Lengths, list: seq<nat>, a: nat, take: nat)
    requires Sound(r, mem, head, len, list) && a in len && a < |mem| && mem[a] >= take + 2
    requires mem[a] > take + 2 ==> take + 2 <= len[a]
    ensures var len' := LengthsAfter(len, a, mem[a] > take + 2, take); a in len' && len'[a] <= take + 4
  {
    hide Tiled, Linked, NoRepeat;
    InHeap(r, mem, head, len, list, a);
  }

  /** Would the block the search settles on leave a sliver? */
  predicate TooTight(r: Region, mem: seq<nat>, len: Lengths, list: seq<nat>, q: Request)
    requires WellFormed(q) && ListInMemory(mem, list)
  {
    var k := FirstFit(mem, list, q, 0);
    k < |list| && Sliver(r, mem, len, list[k], Take(q, list[k]))
  }

  lemma ServedNow(r: Region, mem: seq<nat>, head: nat, len: Lengths, list: seq<nat>, q: Request, k: nat)
    requires Sound(r, mem, head, len, list) && WellFormed(q) && ListInMemory(mem, list)
    requires k < |list| && k == FirstFit(mem, list, q, 0) && !TooTight(r, mem, len, list, q)
    ensures var a := list[k]; var take := Take(q, a);
      && a + 1 < |mem| && Before(list, k) + 1 < |mem| && mem[a] >= take + 2 && (mem[a] > take + 2 ==> a + take + 3 < |mem|)
      && a in len && (mem[a] > take + 2 ==> take + 2 <= len[a])
      && var (mem', head') := Carved(mem, head, Before(list, k), a, take);
      Served(r, mem, len, list, q, mem', head', LengthsAfter(len, a, mem[a] > take + 2, take),
             ListAfter(list, k, mem[a] > take + 2, a + take + 2), a + 2 + take - q.words)
  {
    hide Sound, LiveKept, Carved, LengthsAfter, ListAfter, Padding, PowerOfTwo, Sliver;
    var a := list[k];
    CarveSound(r, mem, head, len, list, k, Take(q, a));
    CarvedLength(r, mem, head, len, list, a, Take(q, a));
    if q.Aligned? {
      PaddingMeaning(a, q.alignment);
    }
  }

  lemma SearchStart(r: Region, mem: seq<nat>, head: nat, len: Lengths, list: seq<nat>)
    requires Sound(r, mem, head, len, list)
    ensures head == Nth(list, 0) && Before(list, 0) == 0 && ListInMemory(mem, list)
  {
  }

  lemma PlainFits(mem: seq<nat>, req: nat, a: nat)
    requires a < |mem|
    ensures WellFormed(Plain(req)) && Take(Plain(req), a) == req && (Fits(mem, Plain(req), a) <==> mem[a] >= req + 2)
  {
  }

  lemma ServedParts(r: Region, mem: seq<nat>, len: Lengths, list: seq<nat>, q: Request,
                    mem': seq<nat>, head': nat, len': Lengths, list': seq<nat>, p: nat)
    requires WellFormed(q) && ListInMemory(mem, list) && Served(r, mem, len, list, q, mem', head', len', list', p)
    ensures Sound(r, mem', head', len', list') && FirstFit(mem, list, q, 0) < |list| && p >= 2
  {
  }

  /** A served request, in bytes: a block that was free now has the room asked for behind p. */
  lemma ServedBytes(r: Region, mem: seq<nat>, len: Lengths, list: seq<nat>, q: Request, size: nat,
                    mem': seq<nat>, head': nat, len': Lengths, list': seq<nat>, p: nat)
    requires WellFormed(q) && ListInMemory(mem, list) && q.words == Rounded(size)
    requires Served(r, mem, len, list, q, mem', head', len', list', p)
    ensures var a := list[FirstFit(mem, list, q, 0)]; HasRoom(len', list', a, p, size) && !Live(len, list, a) && (q.Plain? ==> a == p - 2)
  {
    hide Sound, LiveKept, Rounded, PowerOfTwo, Fits;
    RoundedBytes(size);
  }

  /** The search of `kmalloc` fails exactly when no listed block has the room. */
  lemma NoneFits(mem: seq<nat>, list: seq<nat>, size: nat)
    requires ListInMemory(mem, list)
    ensures WellFormed(Plain(Rounded(size)))
    ensures FirstFit(mem, list, Plain(Rounded(size)), 0) == |list| <==> NoneWithRoom(mem, list, size)
  {
    hide FirstFit;
    var k := FirstFit(mem, list, Plain(Rounded(size)), 0);
    if k < |list| {
      assert Fits(mem, Plain(Rounded(size)), list[k]);
    } else {
      forall j | 0 <= j < |list|
        ensures 8 * mem[list[j]] < size + 16
      {
        assert !Fits(mem, Plain(Rounded(size)), list[j]);
      }
    }
  }

  /**
   No listed block has room for the rounded request, the alignment and eight bytes, and from its first aligned address on
   for `size` bytes and a header.
   */
  ghost predicate NoneAligned(mem: seq<nat>, list: seq<nat>, size: nat, alignment: nat) {
    forall j :: 0 <= j < |list| && list[j] < |mem| && alignment > 0 ==>
      || 8 * mem[list[j]] < (size + 7) / 8 * 8 + alignment + 8
      || 8 * (list[j] + mem[list[j]]) < AlignUp(8 * list[j] + 16, alignment) + size
  }

  lemma NoneFitsAligned(mem: seq<nat>, list: seq<nat>, size: nat, alignment: nat)
    requires ListInMemory(mem, list) && PowerOfTwo(alignment)
    ensures WellFormed(Aligned(Rounded(size), alignment))
    ensures FirstFit(mem, list, Aligned(Rounded(size), alignment), 0) == |list| <==> NoneAligned(mem, list, size, alignment)
  {
    hide FirstFit, AlignUp, Padding, PowerOfTwo, Fits;
    var q := Aligned(Rounded(size), alignment);
    RoundedBytes(size);
    var k := FirstFit(mem, list, q, 0);
    forall j | 0 <= j < |list| && list[j] < |mem|
      ensures alignment > 0
      ensures Fits(mem, q, list[j]) <==>
        (8 * mem[list[j]] >= (size + 7) / 8 * 8 + alignment + 8 && 8 * (list[j] + mem[list[j]]) >= AlignUp(8 * list[j] + 16, alignment) + size)
    {
      AlignedFits(mem, Rounded(size), alignment, list[j]);
      PaddingMeaning(list[j], alignment);
    }
    if k < |list| {
      assert Fits(mem, q, list[k]);
    }
  }

  /** One step of the search: block k does not fit. */
  lemma SearchStep(r: Region, mem: seq<nat>, head: nat, len: Lengths, list: seq<nat>, q: Request, k: nat)
    requires Sound(r, mem, head, len, list) && WellFormed(q) && ListInMemory(mem, list) && k <= |list|
    ensures Nth(list, k) == 0 <==> k == |list|
    ensures k < |list| ==> Nth(list, k) == list[k] && list[k] + 1 < |mem| && mem[list[k] + 1] == Nth(list, k + 1) && Before(list, k + 1) == list[k]
    ensures k < |list| && !Fits(mem, q, list[k]) ==> FirstFit(mem, list, q, k) == FirstFit(mem, list, q, k + 1)
    ensures k < |list| && Fits(mem, q, list[k]) ==> FirstFit(mem, list, q, k) == k
    ensures k == |list| ==> FirstFit(mem, list, q, k) == k
  {
    hide Tiled, Sizes, NoRepeat, Fits;
  }

  lemma AlignedFits(mem: seq<nat>, req: nat, alignment: nat, a: nat)
    requires a < |mem| && PowerOfTwo(alignment)
    ensures var q := Aligned(req, alignment);
      && WellFormed(q) && alignment > 0 && Take(q, a) == Padding(a, alignment) + req
      && (Fits(mem, q, a) <==> 8 * mem[a] >= 8 * req + alignment + 8 && mem[a] >= Padding(a, alignment) + req + 2)
  {
  }

  /** Exactly block a left the live blocks, whose words are as before except for its own `next`. */
  ghost predicate Freed(mem: seq<nat>, len: Lengths, list: seq<nat>, mem': seq<nat>, list': seq<nat>, a: nat) {
    && (forall b :: Live(len, list', b) <==> Live(len, list, b) && b != a)
    && LiveKept(mem, len, list', mem')
  }

  lemma FreeLinked(r: Region, mem: seq<nat>, head: nat, len: Lengths, list: seq<nat>, a: nat)
    requires Sound(r, mem, head, len, list) && Live(len, list, a)
    ensures 0 < a && a + 1 < |mem| && Linked(mem[a + 1 := head], a, [a] + list)
  {
    hide SizeWord, Tiled, Sizes, NoRepeat;
    InHeap(r, mem, head, len, list, a);
    var mem', list' := mem[a + 1 := head], [a] + list;
    forall j | 0 <= j < |list'|
      ensures 0 < list'[j] && list'[j] + 1 < |mem'| && mem'[list'[j] + 1] == Nth(list', j + 1)
    {
      if j > 0 {
        assert list'[j] == list[j - 1] && Nth(list', j + 1) == Nth(list, j);
        assert list[j - 1] != a;
      }
    }
  }

  /** Freeing a live block puts it at the head of a sound list. */
  lemma FreeSound(r: Region, mem: seq<nat>, head: nat, len: Lengths, list: seq<nat>, a: nat)
    requires Sound(r, mem, head, len, list) && Live(len, list, a)
    ensures a + 1 < |mem| && Sound(r, mem[a + 1 := head], a, len, [a] + list)
    ensures Freed(mem, len, list, mem[a + 1 := head], [a] + list, a)
  {
    hide Tiled, SizeWord, Linked;
    FreeLinked(r, mem, head, len, list, a);
    FreeWords(r, mem, head, len, list, a);
    var list' := [a] + list;
    assert forall j :: 1 <= j < |list'| ==> list'[j] == list[j - 1];
    assert forall b :: b in list' <==> b == a || b in list;
  }

  lemma LinkAt(mem: seq<nat>, head: nat, list: seq<nat>, k: nat)
    requires Linked(mem, head, list)
    ensures k < |list| ==> 0 < list[k] == Nth(list, k) && list[k] + 1 < |mem| && mem[list[k] + 1] == Nth(list, k + 1)
    ensures Nth(list, k) != 0 ==> k < |list|
    ensures head == Nth(list, 0)
  {
  }

  /** Once block list[k] links back to the head, a list starting there runs through the old list up to it. */
  lemma {:induction false} RunsInto(mem: seq<nat>, head: nat, list: seq<nat>, k: nat, mem': seq<nat>, list': seq<nat>, j: nat)
    requires Linked(mem, head, list) && j <= k < |list| && NoRepeat(list) && |mem'| == |mem|
    requires list[k] + 1 < |mem| && mem'[list[k] + 1] == head
    requires forall w :: 0 <= w < |mem| && w != list[k] + 1 ==> mem'[w] == mem[w]
    requires Linked(mem', list[k], list')
    ensures j + 1 < |list'| && list'[0] == list[k] && list'[j + 1] == list[j]
  {
    hide Linked;
    LinkAt(mem', list[k], list', 0);
    LinkAt(mem', list[k], list', 1);
    LinkAt(mem, head, list, k);
    LinkAt(mem, head, list, j);
    LinkAt(mem, head, list, 0);
    if j > 0 {
      RunsInto(mem, head, list, k, mem', list', j - 1);
      LinkAt(mem, head, list, j - 1);
      LinkAt(mem', list[k], list', j);
      LinkAt(mem', list[k], list', j + 1);
    }
  }

  ghost predicate SomeList(r: Region, mem: seq<nat>, head: nat, len: Lengths) {
    exists list :: Sound(r, mem, head, len, list)
  }

  /** Freeing a block keeps the heap sound exactly when it was live: a second free ties the list into a ring. */
  lemma FreeExact(r: Region, mem: seq<nat>, head: nat, len: Lengths, list: seq<nat>, a: nat)
    requires Sound(r, mem, head, len, list) && a in len
    ensures a + 1 < |mem|
    ensures SomeList(r, mem[a + 1 := head], a, len) <==> Live(len, list, a)
  {
    hide Tiled, Sizes, Linked;
    InHeap(r, mem, head, len, list, a);
    var mem' := mem[a + 1 := head];
    if Live(len, list, a) {
      FreeSound(r, mem, head, len, list, a);
    } else if SomeList(r, mem', a, len) {
      var k :| 0 <= k < |list| && list[k] == a;
      var list' :| Sound(r, mem', a, len, list');
      RunsInto(mem, head, list, k, mem', list', k);
    }
  }

  lemma FreeWords(r: Region, mem: seq<nat>, head: nat, len: Lengths, list: seq<nat>, a: nat)
    requires Sound(r, mem, head, len, list) && a in len
    ensures forall b :: b in len && b != a ==> a + 1 < b || b + len[b] <= a
    ensures a + 1 !in len
  {
    hide SizeWord, Linked, NoRepeat, Sizes, Meets;
    assert Within(r, len, a);
    forall b | b in len && b != a
      ensures a + 1 < b || b + len[b] <= a
    {
      FreeOutside(r, len, a, b);
    }
  }

  /** Writing inside the payload of a live block touches no header. */
  lemma PayloadWrite(r: Region, mem: seq<nat>, head: nat, len: Lengths, list: seq<nat>, a: nat, mem': seq<nat>)
    requires Sound(r, mem, head, len, list) && Live(len, list, a) && |mem'| == |mem|
    requires forall w :: 0 <= w < |mem| && !(a + 2 <= w < a + len[a]) ==> mem'[w] == mem[w]
    ensures Sound(r, mem', head, len, list)
    ensures forall b: nat, w: nat :: b in len && b != a && b <= w < b + len[b] && w < |mem| ==> mem'[w] == mem[w]
  {
    hide Tiled, SizeWord, Meets;
    SoundTiled(r, mem, head, len, list);
    forall b | b in len && b != a
      ensures b + len[b] <= a || a + len[a] <= b
      ensures b + 2 <= a || a + len[a] <= b
    {
      OutsideBlock(r, len, a, b);
      OutsideBlock(r, len, b, a);
    }
    InHeap(r, mem, head, len, list, a);
  }

  lemma SoundTiled(r: Region, mem: seq<nat>, head: nat, len: Lengths, list: seq<nat>)
    requires Sound(r, mem, head, len, list)
    ensures Tiled(r, len)
  {
  }

  lemma FreeOutside(r: Region, len: Lengths, a: nat, b: nat)
    requires Tiled(r, len) && a in len && b in len && a != b
    ensures a + 1 < b || b + len[b] <= a
    ensures b < a || a + len[a] <= b
  {
    OutsideBlock(r, len, a, b);
    OutsideBlock(r, len, b, a);
  }

  /** Block a became b: b has room for `req` words and starts with a's payload; every other live block kept its words. */
  ghost predicate Resized(mem: seq<nat>, len: Lengths, list: seq<nat>, mem': seq<nat>, len': Lengths, list': seq<nat>, a: nat, b: int, req: nat) {
    && a in len && b >= 0 && b in len' && 2 <= len[a] <= len'[b] && req + 2 <= len'[b]
    && a + len[a] <= |mem| == |mem'| && b + len[a] <= |mem|
    && mem'[b + 2..b + len[a]] == mem[a + 2..a + len[a]]
    && (forall c :: Live(len', list', c) <==> (Live(len, list, c) && c != a) || c == b)
    && forall c: nat, w: nat :: Live(len, list, c) && c != a && c <= w < c + len[c] && w < |mem| ==> mem'[w] == mem[w]
  }

  /** `kmemcpy(dst, src, n)`, in words. */
  function CopiedWords(mem: seq<nat>, dst: nat, src: nat, n: nat): (r: seq<nat>)
    requires dst + n <= |mem| && src + n <= |mem|
    ensures |r| == |mem|
    ensures forall w :: 0 <= w < |mem| ==> r[w] == if dst <= w < dst + n then mem[src + (w - dst)] else mem[w]
  {
    mem[..dst] + mem[src..src + n] + mem[dst + n..]
  }

  /** Does `krealloc` go on to call `kmalloc`? */
  predicate Allocates(mem: seq<nat>, p: nat, size: nat) {
    p == 0 || (size > 0 && p >= 2 && p - 2 < |mem| && 8 * mem[p - 2] < size)
  }

  /**
   The pointer is null or leads to a live block.  Where `kmalloc` is called no sliver threatens, and the words behind the
   heap exist: moving the last block of the heap copies two words more than it has.
   */
  ghost predicate ReallocReady(r: Region, mem: seq<nat>, len: Lengths, list: seq<nat>, p: nat, size: nat) {
    && ListInMemory(mem, list) && (p == 0 || (p >= 2 && Live(len, list, p - 2)))
    && (Allocates(mem, p, size) ==>
        !TooTight(r, mem, len, list, Plain(Rounded(size))) && (p != 0 && Final(r, len, p - 2) ==> r.end + 2 <= |mem|))
  }

  /** Is a block at the end of the heap taken to have room that it lacks by one or two words? */
  predicate Misjudged(r: Region, mem: seq<nat>, len: Lengths, p: nat, size: nat) {
    && size > 0 && p >= 2 && p - 2 < |mem| && p - 2 in len && Final(r, len, p - 2)
    && size <= 8 * mem[p - 2] < size + 16
  }

  /** What `krealloc` promises its caller. */
  ghost predicate Reallocated(r: Region, mem: seq<nat>, len: Lengths, list: seq<nat>, p: nat, size: nat,
                              mem': seq<nat>, head': nat, len': Lengths, list': seq<nat>, p': nat)
    requires p == 0 || p >= 2
  {
    if p != 0 && size == 0 then p' == 0 && Freed(mem, len, list, mem', list', p - 2)
    else if p' == 0 then mem' == mem && len' == len && list' == list
    else if p == 0 then ListInMemory(mem, list) && Served(r, mem, len, list, Plain(Rounded(size)), mem', head', len', list', p')
    else Resized(mem, len, list, mem', len', list', p - 2, p' - 2, Rounded(size))
  }

  /** For the last block of the heap, the test on `size` promises two words more than there are. */
  lemma InPlaceExact(r: Region, mem: seq<nat>, head: nat, len: Lengths, list: seq<nat>, a: nat, req: nat)
    requires Sound(r, mem, head, len, list) && Live(len, list, a) && a < |mem| && mem[a] >= req
    ensures Resized(mem, len, list, mem, len, list, a, a, req) <==> !Final(r, len, a) || mem[a] >= req + 2
  {
    hide Tiled, Linked, NoRepeat;
    InHeap(r, mem, head, len, list, a);
  }

  /** A block kept in place that is not misjudged has room for the new size. */
  lemma KeptRoom(r: Region, mem: seq<nat>, head: nat, len: Lengths, list: seq<nat>, p: nat, size: nat)
    requires Sound(r, mem, head, len, list) && p >= 2 && Live(len, list, p - 2) && p - 2 < |mem| && 8 * mem[p - 2] >= size > 0
    ensures !Misjudged(r, mem, len, p, size) ==> RoomAt(len, list, p, size)
  {
    hide Tiled, Linked, NoRepeat;
    InHeap(r, mem, head, len, list, p - 2);
  }

  lemma RoomParts(len: Lengths, list: seq<nat>, p: nat, size: nat)
    ensures HasRoom(len, list, p - 2, p, size) ==> RoomAt(len, list, p, size)
  {
  }

  lemma ResizedRoom(mem: seq<nat>, len: Lengths, list: seq<nat>, mem': seq<nat>, len': Lengths, list': seq<nat>, a: nat, p: nat, size: nat)
    requires Resized(mem, len, list, mem', len', list', a, p - 2, Rounded(size))
    ensures RoomAt(len', list', p, size)
  {
    hide Rounded;
    RoundedBytes(size);
    assert Live(len', list', p - 2);
  }

  /** No other reading of the heap lends a misjudged block the room it lacks. */
  lemma NoRoomToFind(r: Region, mem: seq<nat>, head: nat, len: Lengths, list: seq<nat>, p: nat, size: nat)
    requires Sound(r, mem, head, len, list) && Misjudged(r, mem, len, p, size)
    ensures forall len', list' | Sound(r, mem, head, len', list') :: !Resized(mem, len, list, mem, len', list', p - 2, p - 2, Rounded(size))
  {
    hide Linked, NoRepeat, Rounded;
    InHeap(r, mem, head, len, list, p - 2);
    RoundedBytes(size);
    forall len', list' | Sound(r, mem, head, len', list')
      ensures !Resized(mem, len, list, mem, len', list', p - 2, p - 2, Rounded(size))
    {
      if p - 2 in len' {
        InHeap(r, mem, head, len', list', p - 2);
      }
    }
  }

  /** The blocks involved in a move: the old one is still live beside the new one, which can hold its payload. */
  lemma MoveBlocks(r: Region, mem: seq<nat>, head: nat, len: Lengths, list: seq<nat>, req: nat, a: nat,
                   mem1: seq<nat>, head1: nat, len1: Lengths, list1: seq<nat>, p': nat)
    requires Sound(r, mem, head, len, list) && Live(len, list, a) && ListInMemory(mem, list)
    requires a < |mem| && mem[a] < req
    requires Served(r, mem, len, list, Plain(req), mem1, head1, len1, list1, p')
    ensures p' >= 2 && Sound(r, mem1, head1, len1, list1) && |mem1| == |mem| && a in len1 && p' - 2 in len1
    ensures var b := p' - 2;
      && a != b && Live(len1, list1, a) && Live(len1, list1, b) && len1[a] == len[a] && mem1[a] == mem[a]
      && mem[a] == SizeWord(r, len, a) && len[a] >= 2 && r.end <= |mem|
      && a + len[a] <= |mem| && b + len1[b] <= |mem| && req + 2 <= len1[b] && len[a] <= len1[b]
      && mem1[a + 2..a + len[a]] == mem[a + 2..a + len[a]] && !Live(len, list, b)
  {
    hide Tiled, Linked, NoRepeat;
    InHeap(r, mem, head, len, list, a);
    InHeap(r, mem1, head1, len1, list1, p' - 2);
  }

  /** The words copied lie in memory, and those written in the new block's payload. */
  lemma MoveFits(r: Region, mem: seq<nat>, head: nat, len: Lengths, list: seq<nat>, req: nat, a: nat,
                 mem1: seq<nat>, head1: nat, len1: Lengths, list1: seq<nat>, p': nat)
    requires Sound(r, mem, head, len, list) && Live(len, list, a) && ListInMemory(mem, list)
    requires a < |mem| && mem[a] < req && (Final(r, len, a) ==> r.end + 2 <= |mem|)
    requires Served(r, mem, len, list, Plain(req), mem1, head1, len1, list1, p')
    ensures p' >= 2 && p' - 2 in len1 && |mem1| == |mem| && a in len && mem1[a] == mem[a]
    ensures a + 2 + mem[a] <= |mem1| && p' + mem[a] <= p' - 2 + len1[p' - 2] <= |mem1|
    ensures a + 2 + mem[a] <= p' || p' + mem[a] <= a + 2
  {
    hide Sound, Served, ListInMemory;
    MoveBlocks(r, mem, head, len, list, req, a, mem1, head1, len1, list1, p');
    MoveApart(r, mem1, head1, len1, list1, a, p' - 2, mem[a]);
  }

  /** The move: copy as many words as the old header says, free the old block. */
  lemma Moved(r: Region, mem: seq<nat>, head: nat, len: Lengths, list: seq<nat>, req: nat, a: nat,
              mem1: seq<nat>, head1: nat, len1: Lengths, list1: seq<nat>, p': nat)
    requires Sound(r, mem, head, len, list) && Live(len, list, a) && ListInMemory(mem, list)
    requires a < |mem| && mem[a] < req && (Final(r, len, a) ==> r.end + 2 <= |mem|)
    requires Served(r, mem, len, list, Plain(req), mem1, head1, len1, list1, p')
    ensures a + 2 + mem[a] <= |mem1| && p' + mem[a] <= |mem1| && a in len && p' >= 2
    ensures var mem2 := CopiedWords(mem1, p', a + 2, mem[a]);
      && Sound(r, mem2, head1, len1, list1) && Live(len1, list1, a)
      && a + 1 < |mem2| && Resized(mem, len, list, mem2[a + 1 := head1], len1, [a] + list1, a, p' - 2, req)
  {
    hide Sound, Served, Final, Resized, ListInMemory, SizeWord;
    MoveFits(r, mem, head, len, list, req, a, mem1, head1, len1, list1, p');
    MoveBlocks(r, mem, head, len, list, req, a, mem1, head1, len1, list1, p');
    InHeap(r, mem, head, len, list, a);
    var mem2 := CopiedWords(mem1, p', a + 2, mem[a]);
    PayloadWrite(r, mem1, head1, len1, list1, p' - 2, mem2);
    FreeSound(r, mem2, head1, len1, list1, a);
    MovedWords(r, mem, head, len, list, req, a, mem1, head1, len1, list1, p');
  }

  lemma MovedWords(r: Region, mem: seq<nat>, head: nat, len: Lengths, list: seq<nat>, req: nat, a: nat,
                   mem1: seq<nat>, head1: nat, len1: Lengths, list1: seq<nat>, p': nat)
    requires Sound(r, mem, head, len, list) && Live(len, list, a) && ListInMemory(mem, list)
    requires a < |mem| && mem[a] < req
    requires Served(r, mem, len, list, Plain(req), mem1, head1, len1, list1, p')
    requires a + 2 + mem[a] <= |mem1| && 2 <= p' && p' + mem[a] <= |mem1|
    ensures var mem2 := CopiedWords(mem1, p', a + 2, mem[a]);
      a + 1 < |mem2| && Resized(mem, len, list, mem2[a + 1 := head1], len1, [a] + list1, a, p' - 2, req)
  {
    hide Sound, ListInMemory, Final, SizeWord, FirstFit, CopiedWords, Freed, LiveKept, Fits;
    MoveBlocks(r, mem, head, len, list, req, a, mem1, head1, len1, list1, p');
    CopyFrame(mem1, p', a + 2, mem[a]);
    var mem2 := CopiedWords(mem1, p', a + 2, mem[a]);
    PayloadWrite(r, mem1, head1, len1, list1, p' - 2, mem2);
    FreeSound(r, mem2, head1, len1, list1, a);
    SoundTiled(r, mem1, head1, len1, list1);
    FreeOutside(r, len1, a, p' - 2);
    HeaderSize(r, len, a);
    PayloadMoved(mem, mem1, a, len[a], p', mem[a], head1);
    OthersMoved(mem, len, list, mem1, len1, list1, mem2, mem2[a + 1 := head1], a, p' - 2);
  }

  lemma CopyFrame(mem: seq<nat>, dst: nat, src: nat, n: nat)
    requires dst + n <= |mem| && src + n <= |mem|
    ensures |CopiedWords(mem, dst, src, n)| == |mem|
    ensures forall w :: 0 <= w < |mem| && !(dst <= w < dst + n) ==> CopiedWords(mem, dst, src, n)[w] == mem[w]
  {
  }

  /** The other live blocks through a move: the allocation, the copy and the free. */
  lemma OthersMoved(mem: seq<nat>, len: Lengths, list: seq<nat>, mem1: seq<nat>, len1: Lengths, list1: seq<nat>,
                    mem2: seq<nat>, mem3: seq<nat>, a: nat, b: nat)
    requires (forall c :: Live(len1, list1, c) <==> Live(len, list, c) || c == b) && LiveKept(mem, len, list, mem1)
    requires forall c :: Live(len, list, c) ==> c in len1 && len1[c] == len[c]
    requires |mem2| == |mem1| && forall c: nat, w: nat :: c in len1 && c != b && c <= w < c + len1[c] && w < |mem1| ==> mem2[w] == mem1[w]
    requires Freed(mem2, len1, list1, mem3, [a] + list1, a) && !Live(len, list, b) && a != b
    ensures forall c :: Live(len1, [a] + list1, c) <==> (Live(len, list, c) && c != a) || c == b
    ensures forall c: nat, w: nat :: Live(len, list, c) && c != a && c <= w < c + len[c] && w < |mem| ==> mem3[w] == mem[w]
  {
    forall c: nat, w: nat | Live(len, list, c) && c != a && c <= w < c + len[c] && w < |mem|
      ensures mem3[w] == mem[w]
    {
      assert Live(len1, [a] + list1, c) && len1[c] == len[c];
      assert mem1[w] == mem[w] && mem2[w] == mem1[w];
    }
  }

  lemma HeaderSize(r: Region, len: Lengths, a: nat)
    requires a in len
    ensures SizeWord(r, len, a) + 2 >= len[a]
  {
  }

  /** The payload of a block of n words after m words were copied and the block's `next` was set. */
  lemma PayloadMoved(mem: seq<nat>, mem1: seq<nat>, a: nat, n: nat, p: nat, m: nat, next: nat)
    requires 2 <= n <= m + 2 && a + n <= |mem| == |mem1| && a + 2 + m <= |mem1| && 2 <= p && p + m <= |mem1|
    requires mem1[a + 2..a + n] == mem[a + 2..a + n] && (a + 1 < p - 2 || p - 2 + n <= a)
    ensures CopiedWords(mem1, p, a + 2, m)[a + 1 := next][p..p + (n - 2)] == mem[a + 2..a + n]
  {
    var mem3 := CopiedWords(mem1, p, a + 2, m)[a + 1 := next];
    forall w | p <= w < p + (n - 2)
      ensures mem3[w] == mem[a + 2 + (w - p)]
    {
      assert mem1[a + 2..a + n][w - p] == mem[a + 2..a + n][w - p];
    }
  }

  // ---------------------------------------------------------------- the heap

  class Heap {
    const r: Region
    /** Physical memory, in words. */
    const words: array<nat>
    /** `HEAP_DATA->free_list` */
    var head: nat
    ghost var len: Lengths
    ghost var list: seq<nat>

    ghost predicate Valid()
      reads this, words
    {
      Sound(r, words[..], head, len, list)
    }

    /** `kinitHeap` */
    constructor (memory: array<nat>, start: nat, size: nat)
      requires 0 < start && 2 <= size && start + size <= memory.Length
      modifies memory
      ensures Valid() && words == memory && r == Region(start, start + size)
      ensures len == map[start := size] && list == [start]
    {
      r, words, head := Region(start, start + size), memory, start;
      len, list := map[start := size], [start];
      new;
      words[start] := size;
      words[start + 1] := 0;
    }

    /** The tail of both allocators: split block `curr` if more than `take` words and a header fit, then unlink it. */
    method Carve(prev: nat, curr: nat, take: nat)
      requires curr + 1 < words.Length && prev + 1 < words.Length && words[curr] >= take + 2
      requires words[curr] > take + 2 ==> curr + take + 3 < words.Length
      modifies this`head, words
      ensures (words[..], head) == Carved(old(words[..]), old(head), prev, curr, take)
    {
      ghost var mem := words[..];
      if words[curr] > take + 2 {
        var next := curr + take + 2;
        words[next] := words[curr] - take - 2;
        words[next + 1] := words[curr + 1];
        words[curr] := take;
        words[curr + 1] := next;
        assert words[..] == Split(mem, curr, take);
      }
      ghost var mem1 := words[..];
      if prev != 0 {
        words[prev + 1] := words[curr + 1];
        assert words[..] == mem1[prev + 1 := mem1[curr + 1]];
      } else {
        head := words[curr + 1];
      }
    }

    /** `kmalloc` */
    method Kmalloc(size: nat) returns (p: nat)
      requires Valid() && ListInMemory(words[..], list) && !TooTight(r, words[..], len, list, Plain(Rounded(size)))
      modifies this, words
      ensures Valid()
      ensures p == 0 <==> NoneWithRoom(old(words[..]), old(list), size)
      ensures p != 0 ==> HasRoom(len, list, p - 2, p, size) && !Live(old(len), old(list), p - 2)
      ensures p == 0 ==> words[..] == old(words[..]) && head == old(head) && len == old(len) && list == old(list)
      ensures p != 0 ==> Served(r, old(words[..]), old(len), old(list), Plain(Rounded(size)), words[..], head, len, list, p)
    {
      hide Sound, Served, FirstFit, Fits, Carved, ListInMemory, TooTight, Nth, Before, LengthsAfter, ListAfter, Take, HasRoom, NoneWithRoom, NoneAligned, Live;
      var req := Rounded(size);
      ghost var q := Plain(req);
      ghost var mem, k := words[..], 0;
      var prev, curr := 0, head;
      SearchStart(r, mem, head, len, list);
      NoneFits(mem, list, size);
      while curr != 0
        invariant k <= |list| && curr == Nth(list, k) && prev == Before(list, k) && words[..] == mem
        invariant Valid() && head == old(head) && len == old(len) && list == old(list) && ListInMemory(mem, list)
        invariant FirstFit(mem, list, q, 0) == FirstFit(mem, list, q, k)
        decreases |list| - k
      {
        SearchStep(r, mem, head, len, list, q, k);
        if words[curr] >= req + 2 {
          PlainFits(mem, req, curr);
          ServedNow(r, mem, head, len, list, q, k);
          Carve(prev, curr, req);
          len, list := LengthsAfter(len, curr, mem[curr] > req + 2, req), ListAfter(list, k, mem[curr] > req + 2, curr + req + 2);
          ServedParts(r, mem, old(len), old(list), q, words[..], head, len, list, curr + 2);
          ServedBytes(r, mem, old(len), old(list), q, size, words[..], head, len, list, curr + 2);
          return curr + 2;
        }
        PlainFits(mem, req, curr);
        prev, curr, k := curr, words[curr + 1], k + 1;
      }
      SearchStep(r, mem, head, len, list, q, k);
      return 0;
    }

    /** `kaligned_alloc` */
    method KalignedAlloc(size: nat, alignment: nat) returns (p: nat)
      requires Valid() && ListInMemory(words[..], list)
      requires PowerOfTwo(alignment) ==> !TooTight(r, words[..], len, list, Aligned(Rounded(size), alignment))
      modifies this, words
      ensures Valid()
      ensures p == 0 <==> !PowerOfTwo(alignment) || NoneAligned(old(words[..]), old(list), size, alignment)
      ensures p != 0 ==> alignment > 0 && 8 * p % alignment == 0 && exists a :: HasRoom(len, list, a, p, size) && !Live(old(len), old(list), a)
      ensures p == 0 ==> words[..] == old(words[..]) && head == old(head) && len == old(len) && list == old(list)
      ensures p != 0 ==> Served(r, old(words[..]), old(len), old(list), Aligned(Rounded(size), alignment), words[..], head, len, list, p)
    {
      hide Sound, Served, FirstFit, Fits, Carved, ListInMemory, TooTight, Nth, Before, LengthsAfter, ListAfter, Take, HasRoom, NoneWithRoom, NoneAligned, Live, AlignUp, Padding, PowerOfTwo;
      if !PowerOfTwo(alignment) {
        return 0;
      }
      var req := Rounded(size);
      var total := 8 * req + alignment + 8;
      ghost var q := Aligned(req, alignment);
      ghost var mem, k := words[..], 0;
      var prev, curr := 0, head;
      SearchStart(r, mem, head, len, list);
      NoneFitsAligned(mem, list, size, alignment);
      while curr != 0
        invariant k <= |list| && curr == Nth(list, k) && prev == Before(list, k) && words[..] == mem
        invariant Valid() && head == old(head) && len == old(len) && list == old(list) && ListInMemory(mem, list)
        invariant FirstFit(mem, list, q, 0) == FirstFit(mem, list, q, k)
        decreases |list| - k
      {
        SearchStep(r, mem, head, len, list, q, k);
        PaddingMeaning(curr, alignment);
        var alignedAddress := AlignUp(8 * curr + 16, alignment);
        var padding := Padding(curr, alignment);
        AlignedFits(mem, req, alignment, curr);
        if 8 * words[curr] >= total {
          if words[curr] >= padding + req + 2 {
            ServedNow(r, mem, head, len, list, q, k);
            Carve(prev, curr, padding + req);
            len := LengthsAfter(len, curr, mem[curr] > padding + req + 2, padding + req);
            list := ListAfter(list, k, mem[curr] > padding + req + 2, curr + padding + req + 2);
            ServedParts(r, mem, old(len), old(list), q, words[..], head, len, list, alignedAddress / 8);
            ServedBytes(r, mem, old(len), old(list), q, size, words[..], head, len, list, alignedAddress / 8);
            return alignedAddress / 8;
          }
        }
        prev, curr, k := curr, words[curr + 1], k + 1;
      }
      SearchStep(r, mem, head, len, list, q, k);
      return 0;
    }

    /** `kfree` of a pointer the allocator returned for an unaligned request, or of null */
    method Kfree(p: nat)
      requires Valid() && (p != 0 ==> p >= 2 && Live(len, list, p - 2))
      modifies this, words
      ensures Valid() && len == old(len)
      ensures list == if p == 0 then old(list) else [p - 2] + old(list)
      ensures p == 0 ==> words[..] == old(words[..]) && head == old(head)
      ensures p != 0 ==> words[..] == old(words[..])[p - 1 := old(head)] && Freed(old(words[..]), old(len), old(list), words[..], list, p - 2)
    {
      hide Sound, Freed, Live;
      if p == 0 {
        return;
      }
      FreeSound(r, words[..], head, len, list, p - 2);
      words[p - 1] := head;
      assert words[..] == old(words[..])[p - 2 + 1 := old(head)];
      head := p - 2;
      list := [p - 2] + list;
    }

    /** `kmemcpy` of whole words between two disjoint ranges, or to a lower address */
    method CopyWords(dst: nat, src: nat, n: nat)
      requires dst + n <= words.Length && src + n <= words.Length && (dst + n <= src || src + n <= dst)
      modifies words
      ensures words[..] == CopiedWords(old(words[..]), dst, src, n)
    {
      ghost var mem := words[..];
      for i := 0 to n
        invariant forall w :: dst <= w < dst + i ==> words[w] == mem[src + (w - dst)]
        invariant forall w :: 0 <= w < words.Length && !(dst <= w < dst + i) ==> words[w] == mem[w]
      {
        words[dst + i] := words[src + i];
      }
    }

    /** `krealloc`.  It keeps its promise exactly when it does not misjudge the block at the end of the heap, and then nothing happens. */
    method Krealloc(p: nat, size: nat) returns (p': nat)
      requires Valid() && ReallocReady(r, words[..], len, list, p, size)
      modifies this, words
      ensures Valid()
      ensures Reallocated(r, old(words[..]), old(len), old(list), p, size, words[..], head, len, list, p')
         <==> !Misjudged(r, old(words[..]), old(len), p, size)
      ensures Misjudged(r, old(words[..]), old(len), p, size) ==>
          p' == p && words[..] == old(words[..]) && head == old(head) && len == old(len) && list == old(list)
      ensures p' == 0 <==> (p != 0 && size == 0) || (Allocates(old(words[..]), p, size) && NoneWithRoom(old(words[..]), old(list), size))
      ensures p' != 0 && !Allocates(old(words[..]), p, size) ==> p' == p && words[..] == old(words[..]) && list == old(list)
      ensures p' != 0 && !Misjudged(r, old(words[..]), old(len), p, size) ==>
          RoomAt(len, list, p', size)
    {
      hide Sound, Served, FirstFit, ListInMemory, TooTight, Freed, Resized, Final, NoneWithRoom, Rounded,
           HasRoom, RoomAt;
      RoundedBytes(size);
      if p == 0 {
        p' := Kmalloc(size);
        RoomParts(len, list, p', size);
        return;
      }
      if size == 0 {
        Kfree(p);
        return 0;
      }
      ghost var mem := words[..];
      var block := p - 2;
      BlockInMemory(r, mem, head, len, list, block);
      var req := Rounded(size);
      if words[block] >= req {
        InPlaceExact(r, mem, head, len, list, block, req);
        KeptRoom(r, mem, head, len, list, p, size);
        return p;
      }
      p' := Kmalloc(size);
      if p' != 0 {
        MoveFits(r, mem, old(head), old(len), old(list), req, block, words[..], head, len, list, p');
        Moved(r, mem, old(head), old(len), old(list), req, block, words[..], head, len, list, p');
        CopyWords(p', p, words[block]);
        Kfree(p);
        ResizedRoom(mem, old(len), old(list), words[..], len, list, block, p', size);
      }
    }
  }

  lemma BlockInMemory(r: Region, mem: seq<nat>, head: nat, len: Lengths, list: seq<nat>, a: nat)
    requires Sound(r, mem, head, len, list) && Live(len, list, a)
    ensures a < |mem| && a in len
  {
    hide Tiled, Linked, NoRepeat;
    InHeap(r, mem, head, len, list, a);
  }

  /** A copy of block a's words, as its header counts them, into block b does not overlap its source. */
  lemma MoveApart(r: Region, mem: seq<nat>, head: nat, len: Lengths, list: seq<nat>, a: nat, b: nat, n: nat)
    requires Sound(r, mem, head, len, list) && a in len && b in len && a != b && n == SizeWord(r, len, a) && n + 2 <= len[b]
    ensures a + 2 + n <= b + 2 || b + 2 + n <= a + 2
  {
    SoundTiled(r, mem, head, len, list);
    OutsideBlock(r, len, a, b);
    OutsideBlock(r, len, b, a);
  }
}

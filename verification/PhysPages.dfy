/**
 The physical page allocator: two bitmaps and two stacks of free pages, 4 KiB and 2 MiB.
 This module states what the operations do on values; `PageAllocator` runs them.
 */
module PhysPages {

  datatype Option<T> = None | Some(value: T)

  /** used2[i] and used4[j] are the bitmaps, the stacks grow at their end. */
  datatype Pages = Pages(used2: seq<bool>, used4: seq<bool>, stack2: seq<nat>, stack4: seq<nat>)

  predicate Shape(p: Pages) {
    && |p.used4| == 512 * |p.used2|
    && (forall k :: 0 <= k < |p.stack2| ==> p.stack2[k] < |p.used2|)
    && forall k :: 0 <= k < |p.stack4| ==> p.stack4[k] < |p.used4|
  }

  predicate BlockFree(used4: seq<bool>, i: nat) {
    forall j :: 0 <= j < |used4| && j / 512 == i ==> !used4[j]
  }

  /** All 512 small pages of block i marked b. */
  function FillBlock(used4: seq<bool>, i: nat, b: bool): (r: seq<bool>)
    ensures |r| == |used4|
    ensures forall j :: 0 <= j < |used4| ==> r[j] == if j / 512 == i then b else used4[j]
  {
    seq(|used4|, j requires 0 <= j < |used4| => if j / 512 == i then b else used4[j])
  }

  function Pop<T>(s: seq<T>): seq<T>
    requires s != []
  {
    s[..|s| - 1]
  }

  function Top<T>(s: seq<T>): T
    requires s != []
  {
    s[|s| - 1]
  }

  /** `pages_allocatePage(PAGE_SIZE_2MB)`, which retries past blocks that hold small pages. */
  function Alloc2(p: Pages): (Pages, Option<nat>)
    requires Shape(p)
    decreases |p.stack2|
  {
    if p.stack2 == [] then (p, None)
    else
      var idx, rest := Top(p.stack2), Pop(p.stack2);
      if !BlockFree(p.used4, idx) then Alloc2(p.(stack2 := rest))
      else (p.(used2 := p.used2[idx := true], used4 := FillBlock(p.used4, idx, true), stack2 := rest), Some(idx))
  }

  /** `pages_allocatePage(PAGE_SIZE_4KB)`, which retries past pages of allocated blocks. */
  function Alloc4(p: Pages): (Pages, Option<nat>)
    requires Shape(p)
    decreases |p.stack4|
  {
    if p.stack4 == [] then (p, None)
    else
      var idx, rest := Top(p.stack4), Pop(p.stack4);
      if p.used2[idx / 512] then Alloc4(p.(stack4 := rest))
      else (p.(used4 := p.used4[idx := true], stack4 := rest), Some(idx))
  }

  /** `pages_free` of a small page. */
  function Free4(p: Pages, idx: nat): Pages
    requires Shape(p) && idx < |p.used4|
  {
    if !p.used4[idx] || p.used2[idx / 512] then p else p.(used4 := p.used4[idx := false], stack4 := p.stack4 + [idx])
  }

  /** The small pages of block i in order. */
  function BlockPages(i: nat): (s: seq<nat>)
    ensures |s| == 512 && forall k :: 0 <= k < 512 ==> s[k] == 512 * i + k
  {
    seq(512, k requires 0 <= k < 512 => 512 * i + k)
  }

  /** `pages_free` of a block. */
  function Free2(p: Pages, idx: nat): Pages
    requires Shape(p) && idx < |p.used2|
  {
    if !p.used2[idx] then p
    else Pages(p.used2[idx := false], FillBlock(p.used4, idx, false), p.stack2 + [idx], p.stack4 + BlockPages(idx))
  }

  /** The unmarked indices below n, in order. */
  function Unmarked(used: seq<bool>, n: nat): (s: seq<nat>)
    requires n <= |used|
    ensures |s| <= n
    ensures forall k :: 0 <= k < |s| ==> s[k] < n && !used[s[k]]
    ensures forall k, l :: 0 <= k < l < |s| ==> s[k] < s[l]
    ensures forall j :: 0 <= j < n && !used[j] ==> j in s
  {
    if n == 0 then [] else if used[n - 1] then Unmarked(used, n - 1) else Unmarked(used, n - 1) + [n - 1]
  }

  /** A block is marked when it or any of its pages was. */
  function MarkedBlocks(used2: seq<bool>, used4: seq<bool>): (r: seq<bool>)
    ensures |r| == |used2| && forall i :: 0 <= i < |used2| ==> r[i] == (used2[i] || !BlockFree(used4, i))
  {
    seq(|used2|, i requires 0 <= i < |used2| => used2[i] || !BlockFree(used4, i))
  }

  /** A page is marked when it or its block is. */
  function MarkedPages(used2: seq<bool>, used4: seq<bool>): (r: seq<bool>)
    requires |used4| == 512 * |used2|
    ensures |r| == |used4| && forall j :: 0 <= j < |used4| ==> r[j] == (used4[j] || used2[j / 512])
  {
    seq(|used4|, j requires 0 <= j < |used4| => used4[j] || used2[j / 512])
  }

  /** `pages_generateFreeStack` */
  function Generate(p: Pages): Pages
    requires Shape(p)
  {
    var used2 := MarkedBlocks(p.used2, p.used4);
    var used4 := MarkedPages(used2, p.used4);
    Pages(used2, used4, p.stack2 + Unmarked(used2, |used2|), p.stack4 + Unmarked(used4, |used4|))
  }

  // ---------------------------------------------------------------- what every run keeps

  /** The pages now handed out. */
  datatype Ledger = Ledger(blocks: set<nat>, pages: set<nat>)

  ghost predicate NoRepeat(s: seq<nat>) {
    forall k, l :: 0 <= k < l < |s| ==> s[k] != s[l]
  }

  /** The bitmaps say which blocks are reserved or live and which pages are live or inside such a block. */
  ghost predicate BitmapsOk(reserved: set<nat>, p: Pages, l: Ledger) {
    && (forall i :: 0 <= i < |p.used2| ==> (p.used2[i] <==> i in reserved || i in l.blocks))
    && (forall j :: 0 <= j < |p.used4| ==> (p.used4[j] <==> j / 512 in reserved || j / 512 in l.blocks || j in l.pages))
  }

  /** Live blocks and pages exist, do not overlap and are not reserved. */
  ghost predicate LiveOk(reserved: set<nat>, p: Pages, l: Ledger) {
    && (forall i :: i in l.blocks ==> i < |p.used2| && i !in reserved)
    && (forall j :: j in l.pages ==> j < |p.used4| && j / 512 !in reserved && j / 512 !in l.blocks)
  }

  /** Both stacks hold free pages once each, and every free small page is on its stack. */
  ghost predicate StacksOk(reserved: set<nat>, p: Pages, l: Ledger) {
    && NoRepeat(p.stack2) && NoRepeat(p.stack4)
    && (forall k :: 0 <= k < |p.stack2| ==> p.stack2[k] !in reserved && p.stack2[k] !in l.blocks)
    && (forall k :: 0 <= k < |p.stack4| ==> p.stack4[k] / 512 !in reserved && p.stack4[k] !in l.pages)
    && forall j :: 0 <= j < |p.used4| && !p.used4[j] ==> j in p.stack4
  }

  ghost predicate Sound(reserved: set<nat>, p: Pages, l: Ledger) {
    Shape(p) && BitmapsOk(reserved, p, l) && LiveOk(reserved, p, l) && StacksOk(reserved, p, l)
  }

  /** The blocks boot code marked, wholly or in part. */
  ghost function Reserved(p: Pages): set<nat> {
    set i | 0 <= i < |p.used2| && (p.used2[i] || !BlockFree(p.used4, i))
  }

  /** After generation each block's bit agrees with all 512 of its pages, and nothing is live. */
  lemma GenerateSound(p: Pages)
    requires Shape(p) && p.stack2 == [] && p.stack4 == []
    ensures Sound(Reserved(p), Generate(p), Ledger({}, {}))
    ensures var g := Generate(p); forall j :: 0 <= j < |g.used4| ==> g.used4[j] == g.used2[j / 512]
  {
    var g := Generate(p);
    forall j | 0 <= j < |g.used4|
      ensures g.used4[j] == g.used2[j / 512]
    {
      if p.used4[j] {
        assert !BlockFree(p.used4, j / 512);
      }
    }
  }

  function WithBlock(l: Ledger, r: Option<nat>): Ledger {
    if r.Some? then l.(blocks := l.blocks + {r.value}) else l
  }

  function WithPage(l: Ledger, r: Option<nat>): Ledger {
    if r.Some? then l.(pages := l.pages + {r.value}) else l
  }

  lemma PopSound2(reserved: set<nat>, p: Pages, l: Ledger)
    requires Sound(reserved, p, l) && p.stack2 != []
    ensures Sound(reserved, p.(stack2 := Pop(p.stack2)), l)
    ensures Top(p.stack2) < |p.used2| && Top(p.stack2) !in reserved && Top(p.stack2) !in l.blocks && Top(p.stack2) !in Pop(p.stack2)
  {
  }

  /** A block handed out was free and unreserved in all its pages; none is handed out only when every stacked block holds a page. */
  lemma {:induction false} Alloc2Sound(reserved: set<nat>, p: Pages, l: Ledger)
    requires Sound(reserved, p, l)
    ensures var (p', r) := Alloc2(p);
      && Sound(reserved, p', WithBlock(l, r)) && p'.stack2 <= p.stack2 && p'.stack4 == p.stack4
      && (r.Some? ==> r.value < |p.used2| && r.value !in l.blocks && r.value !in reserved && BlockFree(p.used4, r.value))
      && (r.None? <==> forall k :: 0 <= k < |p.stack2| ==> !BlockFree(p.used4, p.stack2[k]))
    decreases |p.stack2|
  {
    hide Sound;
    SoundShape(reserved, p, l);
    if p.stack2 != [] {
      PopSound2(reserved, p, l);
      var idx, rest := Top(p.stack2), Pop(p.stack2);
      if BlockFree(p.used4, idx) {
        TakeBlock(reserved, p.(stack2 := rest), l, idx);
        assert p.stack2[|p.stack2| - 1] == idx;
      } else {
        Alloc2Sound(reserved, p.(stack2 := rest), l);
        assert forall k :: 0 <= k < |p.stack2| ==> p.stack2[k] == if k < |rest| then rest[k] else idx;
      }
    }
  }

  lemma SoundShape(reserved: set<nat>, p: Pages, l: Ledger)
    requires Sound(reserved, p, l)
    ensures Shape(p)
  {
  }

  lemma TakeBlock(reserved: set<nat>, p: Pages, l: Ledger, idx: nat)
    requires Sound(reserved, p, l) && idx < |p.used2| && BlockFree(p.used4, idx)
    requires idx !in reserved && idx !in l.blocks && idx !in p.stack2
    ensures Sound(reserved, p.(used2 := p.used2[idx := true], used4 := FillBlock(p.used4, idx, true)), l.(blocks := l.blocks + {idx}))
  {
    forall j | j in l.pages
      ensures j / 512 != idx
    {
      assert p.used4[j];
    }
  }

  lemma PopStale4(reserved: set<nat>, p: Pages, l: Ledger)
    requires Sound(reserved, p, l) && p.stack4 != [] && p.used2[Top(p.stack4) / 512]
    ensures Sound(reserved, p.(stack4 := Pop(p.stack4)), l)
  {
    var rest := Pop(p.stack4);
    forall j | 0 <= j < |p.used4| && !p.used4[j]
      ensures j in rest
    {
      var k :| 0 <= k < |p.stack4| && p.stack4[k] == j;
      assert k < |rest| && rest[k] == j;
    }
  }

  lemma TakePage(reserved: set<nat>, p: Pages, l: Ledger)
    requires Sound(reserved, p, l) && p.stack4 != [] && !p.used2[Top(p.stack4) / 512]
    ensures var idx := Top(p.stack4);
      && Sound(reserved, p.(used4 := p.used4[idx := true], stack4 := Pop(p.stack4)), l.(pages := l.pages + {idx}))
      && !p.used4[idx] && idx !in l.pages && idx / 512 !in l.blocks && idx / 512 !in reserved
  {
    var idx, rest := Top(p.stack4), Pop(p.stack4);
    forall j | 0 <= j < |p.used4| && !p.used4[j] && j != idx
      ensures j in rest
    {
      var k :| 0 <= k < |p.stack4| && p.stack4[k] == j;
      assert k < |rest| && rest[k] == j;
    }
  }

  /** A small page handed out was free, in no live or reserved block; none is handed out only when every page is in use. */
  lemma {:induction false} Alloc4Sound(reserved: set<nat>, p: Pages, l: Ledger)
    requires Sound(reserved, p, l)
    ensures var (p', r) := Alloc4(p);
      && Sound(reserved, p', WithPage(l, r)) && p'.stack4 <= p.stack4 && p'.stack2 == p.stack2 && p'.used2 == p.used2
      && (r.Some? ==> r.value < |p.used4| && !p.used4[r.value] && r.value !in l.pages && r.value / 512 !in l.blocks && r.value / 512 !in reserved)
      && (r.None? <==> forall j :: 0 <= j < |p.used4| ==> p.used4[j])
    decreases |p.stack4|
  {
    hide Sound;
    SoundShape(reserved, p, l);
    if p.stack4 == [] {
      AllStacked(reserved, p, l);
    } else if p.used2[Top(p.stack4) / 512] {
      PopStale4(reserved, p, l);
      Alloc4Sound(reserved, p.(stack4 := Pop(p.stack4)), l);
    } else {
      TakePage(reserved, p, l);
    }
  }

  lemma AllStacked(reserved: set<nat>, p: Pages, l: Ledger)
    requires Sound(reserved, p, l)
    ensures forall j :: 0 <= j < |p.used4| && !p.used4[j] ==> j in p.stack4
  {
  }

  /** Freeing a small page takes exactly a live one out of use and does nothing for any other index. */
  lemma Free4Sound(reserved: set<nat>, p: Pages, l: Ledger, idx: nat)
    requires Sound(reserved, p, l) && idx < |p.used4|
    ensures Sound(reserved, Free4(p, idx), l.(pages := l.pages - {idx}))
    ensures Free4(p, idx) == p <==> idx !in l.pages
  {
    var p' := Free4(p, idx);
    if idx in l.pages {
      assert p.used4[idx] && !p.used2[idx / 512];
      assert forall j :: 0 <= j < |p.used4| && j in p.stack4 ==> j in p'.stack4;
      assert p'.stack4[|p.stack4|] == idx;
    } else {
      assert l.pages - {idx} == l.pages;
    }
  }

  /** No page of block idx is still on the small-page stack. */
  ghost predicate Drained(p: Pages, idx: nat) {
    forall k :: 0 <= k < |p.stack4| ==> p.stack4[k] / 512 != idx
  }

  /** Freeing a live block keeps the allocator sound exactly when none of its pages is still stacked. */
  lemma Free2Sound(reserved: set<nat>, p: Pages, l: Ledger, idx: nat)
    requires Sound(reserved, p, l) && idx in l.blocks
    ensures Sound(reserved, Free2(p, idx), l.(blocks := l.blocks - {idx})) <==> Drained(p, idx)
  {
    hide BitmapsOk, LiveOk, StacksOk;
    Free2Frees(reserved, p, l, idx);
    if Drained(p, idx) {
      Free2Drained(reserved, p, l, idx);
    } else {
      Free2Repeats(reserved, p, l, idx);
    }
  }

  lemma Free2Frees(reserved: set<nat>, p: Pages, l: Ledger, idx: nat)
    requires Sound(reserved, p, l) && idx in l.blocks
    ensures idx < |p.used2| && p.used2[idx] && Shape(Free2(p, idx))
    ensures BitmapsOk(reserved, Free2(p, idx), l.(blocks := l.blocks - {idx})) && LiveOk(reserved, Free2(p, idx), l.(blocks := l.blocks - {idx}))
  {
  }

  lemma Free2Drained(reserved: set<nat>, p: Pages, l: Ledger, idx: nat)
    requires Sound(reserved, p, l) && idx in l.blocks && Drained(p, idx)
    ensures idx < |p.used2| && StacksOk(reserved, Free2(p, idx), l.(blocks := l.blocks - {idx}))
  {
    var p' := Free2(p, idx);
    var n := |p.stack4|;
    assert forall k :: n <= k < |p'.stack4| ==> p'.stack4[k] == 512 * idx + (k - n);
    forall j | 0 <= j < |p'.used4| && !p'.used4[j]
      ensures j in p'.stack4
    {
      if j / 512 == idx {
        assert p'.stack4[n + j % 512] == j;
      } else {
        var k :| 0 <= k < n && p.stack4[k] == j;
        assert p'.stack4[k] == j;
      }
    }
  }

  lemma Free2Repeats(reserved: set<nat>, p: Pages, l: Ledger, idx: nat)
    requires Sound(reserved, p, l) && idx in l.blocks && !Drained(p, idx)
    ensures idx < |p.used2| && !StacksOk(reserved, Free2(p, idx), l.(blocks := l.blocks - {idx}))
    ensures exists k, k' :: 0 <= k < k' < |Free2(p, idx).stack4| && Free2(p, idx).stack4[k] == Free2(p, idx).stack4[k'] && Free2(p, idx).stack4[k] / 512 == idx
  {
    var p' := Free2(p, idx);
    var n := |p.stack4|;
    var k :| 0 <= k < n && p.stack4[k] / 512 == idx;
    var k' := n + p.stack4[k] % 512;
    assert p'.stack4[k] == p.stack4[k] && p'.stack4[k'] == p.stack4[k];
    assert 0 <= k < k' < |p'.stack4|;
  }

  // ---------------------------------------------------------------- runs

  /** A page is named by its index among the small pages or among the blocks. */
  datatype Op = AllocPage | AllocBlock | FreePage(idx: nat) | FreeBlock(idx: nat)

  /** One call, with the index handed out; a block is freed only while live and drained. */
  ghost predicate Call(p: Pages, l: Ledger, op: Op, p': Pages, l': Ledger, r: Option<nat>) {
    Shape(p) &&
    match op
    case AllocPage => (p', r) == Alloc4(p) && l' == WithPage(l, r)
    case AllocBlock => (p', r) == Alloc2(p) && l' == WithBlock(l, r)
    case FreePage(i) => i < |p.used4| && p' == Free4(p, i) && l' == l.(pages := l.pages - {i}) && r == None
    case FreeBlock(i) => i in l.blocks && i < |p.used2| && Drained(p, i) && p' == Free2(p, i) && l' == l.(blocks := l.blocks - {i}) && r == None
  }

  datatype Moment = Moment(p: Pages, l: Ledger, op: Op, r: Option<nat>)

  /** Successive calls: each moment holds the state before its call, the call and its result. */
  ghost predicate IsRun(run: seq<Moment>) {
    forall k :: 0 <= k < |run| - 1 ==> Call(run[k].p, run[k].l, run[k].op, run[k + 1].p, run[k + 1].l, run[k].r)
  }

  lemma CallSound(reserved: set<nat>, p: Pages, l: Ledger, op: Op, p': Pages, l': Ledger, r: Option<nat>)
    requires Sound(reserved, p, l) && Call(p, l, op, p', l', r)
    ensures Sound(reserved, p', l')
    ensures op.AllocPage? && r.Some? ==> r.value !in l.pages && r.value / 512 !in reserved && r.value / 512 !in l.blocks
    ensures op.AllocBlock? && r.Some? ==> r.value !in l.blocks && r.value !in reserved
  {
    hide Sound, Alloc2, Alloc4, Free2, Free4, Drained;
    match op
    case AllocPage => Alloc4Sound(reserved, p, l);
    case AllocBlock => Alloc2Sound(reserved, p, l);
    case FreePage(i) => Free4Sound(reserved, p, l, i);
    case FreeBlock(i) => Free2Sound(reserved, p, l, i);
  }

  /** Every run from a sound state stays sound: live pages never overlap each other or a reserved block. */
  lemma {:induction false} RunSound(reserved: set<nat>, run: seq<Moment>, k: nat)
    requires IsRun(run) && k < |run| && Sound(reserved, run[0].p, run[0].l)
    ensures Sound(reserved, run[k].p, run[k].l)
    decreases k
  {
    if k > 0 {
      RunSound(reserved, run, k - 1);
      CallSound(reserved, run[k - 1].p, run[k - 1].l, run[k - 1].op, run[k].p, run[k].l, run[k - 1].r);
    }
  }

  /** A live page stays live until it is freed. */
  lemma {:induction false} LiveUntilFreed(run: seq<Moment>, a: nat, b: nat, i: nat)
    requires IsRun(run) && a <= b < |run|
    ensures i in run[a].l.pages && (forall c :: a <= c < b ==> run[c].op != FreePage(i)) ==> i in run[b].l.pages
    ensures i in run[a].l.blocks && (forall c :: a <= c < b ==> run[c].op != FreeBlock(i)) ==> i in run[b].l.blocks
    decreases b
  {
    if a < b {
      LiveUntilFreed(run, a, b - 1, i);
      assert Call(run[b - 1].p, run[b - 1].l, run[b - 1].op, run[b].p, run[b].l, run[b - 1].r);
    }
  }

  /** Between two hand-outs of the same page or block lies a call that frees it. */
  lemma NeverTwice(reserved: set<nat>, run: seq<Moment>, a: nat, b: nat, i: nat)
    requires IsRun(run) && a < b < |run| - 1 && Sound(reserved, run[0].p, run[0].l)
    requires run[a].op == run[b].op && run[a].r == run[b].r == Some(i) && (run[a].op.AllocPage? || run[a].op.AllocBlock?)
    ensures exists c :: a < c < b && run[c].op == if run[a].op.AllocPage? then FreePage(i) else FreeBlock(i)
  {
    hide Sound, Alloc2, Alloc4, Free2, Free4, Drained;
    RunSound(reserved, run, b);
    CallSound(reserved, run[b].p, run[b].l, run[b].op, run[b + 1].p, run[b + 1].l, run[b].r);
    assert Call(run[a].p, run[a].l, run[a].op, run[a + 1].p, run[a + 1].l, run[a].r);
    LiveUntilFreed(run, a + 1, b, i);
  }

  /** A byte of physical memory belongs to at most one live page, and to none if its block is reserved. */
  lemma LiveBytesApart(reserved: set<nat>, p: Pages, l: Ledger, byte: nat)
    requires Sound(reserved, p, l)
    ensures !(byte / 0x1000 in l.pages && byte / 0x20_0000 in l.blocks)
    ensures byte / 0x20_0000 in reserved ==> byte / 0x1000 !in l.pages && byte / 0x20_0000 !in l.blocks
  {
    assert byte / 0x20_0000 == byte / 0x1000 / 512;
  }

  // ---------------------------------------------------------------- bytes

  /** Does byte b of physical memory belong to a live page or block, or to a reserved block? */
  predicate InUse(reserved: set<nat>, l: Ledger, b: nat) {
    b / 0x1000 in l.pages || b / 0x20_0000 in l.blocks || b / 0x20_0000 in reserved
  }

  /** The `size` bytes from addr on, none of them in use, came into use, and no others. */
  ghost predicate Gains(reserved: set<nat>, l: Ledger, l': Ledger, addr: nat, size: nat) {
    forall b: nat ::
      && (addr <= b < addr + size ==> !InUse(reserved, l, b))
      && (InUse(reserved, l', b) <==> InUse(reserved, l, b) || addr <= b < addr + size)
  }

  /** The `size` bytes from addr on, and no others, went out of use. */
  ghost predicate Loses(reserved: set<nat>, l: Ledger, l': Ledger, addr: nat, size: nat) {
    forall b: nat :: InUse(reserved, l', b) <==> InUse(reserved, l, b) && !(addr <= b < addr + size)
  }

  /** The 4096 bytes at the address of a page handed out come into use; they overlap nothing live or reserved. */
  lemma SmallGains(reserved: set<nat>, p: Pages, l: Ledger)
    requires Sound(reserved, p, l) && Alloc4(p).1.Some?
    ensures var r := Alloc4(p).1; Gains(reserved, l, WithPage(l, r), Address(r, 0x1000), 0x1000)
  {
    hide Sound, Alloc4;
    Alloc4Sound(reserved, p, l);
    forall b: nat
      ensures b / 0x20_0000 == b / 0x1000 / 512
    {
    }
  }

  /** Likewise the 2 MiB of a block. */
  lemma BlockGains(reserved: set<nat>, p: Pages, l: Ledger)
    requires Sound(reserved, p, l) && Alloc2(p).1.Some?
    ensures var r := Alloc2(p).1; Gains(reserved, l, WithBlock(l, r), Address(r, 0x20_0000), 0x20_0000)
  {
    hide Alloc2;
    Alloc2Sound(reserved, p, l);
    forall b: nat
      ensures b / 0x20_0000 == b / 0x1000 / 512
    {
    }
  }

  /** Freeing the address of a live page ends the use of its 4096 bytes. */
  lemma SmallLoses(reserved: set<nat>, p: Pages, l: Ledger, addr: nat)
    requires Sound(reserved, p, l) && addr % 0x1000 == 0 && addr / 0x1000 in l.pages
    ensures Loses(reserved, l, l.(pages := l.pages - {addr / 0x1000}), addr, 0x1000)
  {
    forall b: nat
      ensures b / 0x20_0000 == b / 0x1000 / 512 && (addr <= b < addr + 0x1000 <==> b / 0x1000 == addr / 0x1000)
    {
    }
  }

  /** Likewise of a live block. */
  lemma BlockLoses(reserved: set<nat>, p: Pages, l: Ledger, addr: nat)
    requires Sound(reserved, p, l) && addr % 0x20_0000 == 0 && addr / 0x20_0000 in l.blocks
    ensures Loses(reserved, l, l.(blocks := l.blocks - {addr / 0x20_0000}), addr, 0x20_0000)
  {
    forall b: nat
      ensures b / 0x20_0000 == b / 0x1000 / 512 && (addr <= b < addr + 0x20_0000 <==> b / 0x20_0000 == addr / 0x20_0000)
    {
    }
  }

  // ---------------------------------------------------------------- the null address

  /** The address returned: null is also the address of page 0. */
  function Address(r: Option<nat>, size: nat): nat {
    if r.Some? then r.value * size else 0
  }

  /** A small page is refused with null exactly when all are in use, but null is also returned for page 0. */
  lemma NullSmall(reserved: set<nat>, p: Pages, l: Ledger)
    requires Sound(reserved, p, l)
    ensures var r := Alloc4(p).1;
      && (Address(r, 0x1000) == 0 <==> (forall j :: 0 <= j < |p.used4| ==> p.used4[j]) || r == Some(0))
      && (0 in reserved ==> r != Some(0))
  {
    hide Sound, Alloc4;
    Alloc4Sound(reserved, p, l);
  }

  /** Likewise for a block. */
  lemma NullBlock(reserved: set<nat>, p: Pages, l: Ledger)
    requires Sound(reserved, p, l)
    ensures var r := Alloc2(p).1;
      && (Address(r, 0x20_0000) == 0 <==> (forall k :: 0 <= k < |p.stack2| ==> !BlockFree(p.used4, p.stack2[k])) || r == Some(0))
      && (0 in reserved ==> r != Some(0))
  {
    hide Sound, Alloc2;
    Alloc2Sound(reserved, p, l);
  }

  /** The stacks at boot: exactly what lies in blocks boot left alone. */
  lemma BootStacks(p: Pages)
    requires Shape(p) && p.stack2 == [] && p.stack4 == []
    ensures var g := Generate(p);
      && Shape(g) && |g.used2| == |p.used2| && NoRepeat(g.stack2) && NoRepeat(g.stack4)
      && (forall i :: 0 <= i < |p.used2| ==> (i in g.stack2 <==> i !in Reserved(p)) && (g.used2[i] <==> i in Reserved(p)))
      && (forall j :: 0 <= j < |g.used4| ==> (j in g.stack4 <==> j / 512 !in Reserved(p)) && (g.used4[j] <==> j / 512 in Reserved(p)))
      && (forall i :: 0 <= i < |p.used2| && i !in Reserved(p) ==> BlockFree(g.used4, i))
  {
    GenerateSound(p);
  }

  /** From boot on, repeated allocation comes to return null for page 0, which it thereby marks, exactly when boot left block 0 unreserved. */
  lemma NullAfterBoot(p: Pages)
    requires Shape(p) && p.stack2 == [] && p.stack4 == [] && |p.used2| > 0
    ensures 0 in Handouts(Generate(p)) <==> 0 !in Reserved(p)
    ensures 0 in BlockHandouts(Generate(p)) <==> 0 !in Reserved(p)
  {
    hide Reserved, Generate, BlockFree, NoRepeat;
    var g := Generate(p);
    BootStacks(p);
    assert 0 / 512 == 0;
    if 0 !in Reserved(p) {
      var k :| 0 <= k < |g.stack4| && g.stack4[k] == 0;
      StackedIsHandedOut(g, k);
      var m :| 0 <= m < |g.stack2| && g.stack2[m] == 0;
      BlockIsHandedOut(g, m);
    } else {
      HandedOutWasStacked(g, 0);
      BlockWasStacked(g, 0);
    }
  }

  /** What repeated block allocation hands out until nothing is left. */
  function BlockHandouts(p: Pages): seq<nat>
    requires Shape(p)
    decreases |p.stack2|
  {
    if p.stack2 == [] then []
    else
      var idx, rest := Top(p.stack2), p.(stack2 := Pop(p.stack2));
      if !BlockFree(p.used4, idx) then BlockHandouts(rest)
      else [idx] + BlockHandouts(rest.(used2 := p.used2[idx := true], used4 := FillBlock(p.used4, idx, true)))
  }

  lemma {:induction false} BlockHandoutsAreAllocations(p: Pages)
    requires Shape(p)
    ensures var (p', r) := Alloc2(p);
      Shape(p') && BlockHandouts(p) == if r.Some? then [r.value] + BlockHandouts(p') else []
    decreases |p.stack2|
  {
    if p.stack2 != [] && !BlockFree(p.used4, Top(p.stack2)) {
      BlockHandoutsAreAllocations(p.(stack2 := Pop(p.stack2)));
    }
  }

  lemma {:induction false} BlockIsHandedOut(p: Pages, k: nat)
    requires Shape(p) && k < |p.stack2| && NoRepeat(p.stack2) && BlockFree(p.used4, p.stack2[k])
    ensures p.stack2[k] in BlockHandouts(p)
    decreases |p.stack2|
  {
    var idx, rest := Top(p.stack2), p.(stack2 := Pop(p.stack2));
    if k < |p.stack2| - 1 {
      assert rest.stack2[k] == p.stack2[k] && p.stack2[k] != idx;
      if !BlockFree(p.used4, idx) {
        BlockIsHandedOut(rest, k);
      } else {
        BlockIsHandedOut(rest.(used2 := p.used2[idx := true], used4 := FillBlock(p.used4, idx, true)), k);
      }
    }
  }

  lemma {:induction false} BlockWasStacked(p: Pages, i: nat)
    requires Shape(p) && i !in p.stack2
    ensures i !in BlockHandouts(p)
    decreases |p.stack2|
  {
    if p.stack2 != [] {
      var idx, rest := Top(p.stack2), p.(stack2 := Pop(p.stack2));
      assert forall x :: x in rest.stack2 ==> x in p.stack2;
      if !BlockFree(p.used4, idx) {
        BlockWasStacked(rest, i);
      } else {
        BlockWasStacked(rest.(used2 := p.used2[idx := true], used4 := FillBlock(p.used4, idx, true)), i);
      }
    }
  }

  lemma {:induction false} HandedOutWasStacked(p: Pages, j: nat)
    requires Shape(p) && j !in p.stack4
    ensures j !in Handouts(p)
    decreases |p.stack4|
  {
    if p.stack4 != [] {
      var rest := Pop(p.stack4);
      assert forall x :: x in rest ==> x in p.stack4;
      if p.used2[Top(p.stack4) / 512] {
        HandedOutWasStacked(p.(stack4 := rest), j);
      } else {
        HandedOutWasStacked(p.(used4 := p.used4[Top(p.stack4) := true], stack4 := rest), j);
      }
    }
  }

  // ---------------------------------------------------------------- freeing a block too early

  /** What repeated small-page allocation hands out until nothing is left. */
  function Handouts(p: Pages): seq<nat>
    requires Shape(p)
    decreases |p.stack4|
  {
    if p.stack4 == [] then []
    else if p.used2[Top(p.stack4) / 512] then Handouts(p.(stack4 := Pop(p.stack4)))
    else [Top(p.stack4)] + Handouts(p.(used4 := p.used4[Top(p.stack4) := true], stack4 := Pop(p.stack4)))
  }

  lemma {:induction false} HandoutsAreAllocations(p: Pages)
    requires Shape(p)
    ensures var (p', r) := Alloc4(p);
      Shape(p') && Handouts(p) == if r.Some? then [r.value] + Handouts(p') else []
    decreases |p.stack4|
  {
    if p.stack4 != [] && p.used2[Top(p.stack4) / 512] {
      HandoutsAreAllocations(p.(stack4 := Pop(p.stack4)));
    }
  }

  lemma {:induction false} StackedIsHandedOut(p: Pages, k: nat)
    requires Shape(p) && k < |p.stack4| && !p.used2[p.stack4[k] / 512]
    ensures p.stack4[k] in Handouts(p)
    decreases |p.stack4|
  {
    if k < |p.stack4| - 1 {
      var rest := Pop(p.stack4);
      assert rest[k] == p.stack4[k];
      if p.used2[Top(p.stack4) / 512] {
        StackedIsHandedOut(p.(stack4 := rest), k);
      } else {
        StackedIsHandedOut(p.(used4 := p.used4[Top(p.stack4) := true], stack4 := rest), k);
      }
    }
  }

  /** A page stacked twice is handed out twice with no free between. */
  lemma {:induction false} StackedTwiceHandedOutTwice(p: Pages, k: nat, k': nat)
    requires Shape(p) && k < k' < |p.stack4| && p.stack4[k] == p.stack4[k'] && !p.used2[p.stack4[k] / 512]
    ensures exists a, b :: 0 <= a < b < |Handouts(p)| && Handouts(p)[a] == Handouts(p)[b] == p.stack4[k]
    decreases |p.stack4|
  {
    var rest := Pop(p.stack4);
    assert rest[k] == p.stack4[k];
    if k' == |p.stack4| - 1 {
      var next := p.(used4 := p.used4[Top(p.stack4) := true], stack4 := rest);
      StackedIsHandedOut(next, k);
      var b :| 0 <= b < |Handouts(next)| && Handouts(next)[b] == p.stack4[k];
      assert Handouts(p)[0] == Handouts(p)[b + 1] == p.stack4[k];
    } else {
      assert rest[k'] == p.stack4[k'];
      if p.used2[Top(p.stack4) / 512] {
        StackedTwiceHandedOutTwice(p.(stack4 := rest), k, k');
        assert Handouts(p) == Handouts(p.(stack4 := rest));
      } else {
        var next := p.(used4 := p.used4[Top(p.stack4) := true], stack4 := rest);
        StackedTwiceHandedOutTwice(next, k, k');
        var a, b :| 0 <= a < b < |Handouts(next)| && Handouts(next)[a] == Handouts(next)[b] == p.stack4[k];
        assert Handouts(p)[a + 1] == Handouts(p)[b + 1] == p.stack4[k];
      }
    }
  }

  /** Freeing a block that is not drained makes some page come out of the allocator twice while live. */
  lemma EarlyFreeHandsOutTwice(reserved: set<nat>, p: Pages, l: Ledger, idx: nat)
    requires Sound(reserved, p, l) && idx in l.blocks && !Drained(p, idx)
    ensures idx < |p.used2| && Shape(Free2(p, idx))
    ensures exists a, b :: 0 <= a < b < |Handouts(Free2(p, idx))| && Handouts(Free2(p, idx))[a] == Handouts(Free2(p, idx))[b]
  {
    Free2Frees(reserved, p, l, idx);
    Free2Repeats(reserved, p, l, idx);
    var p' := Free2(p, idx);
    var k, k' :| 0 <= k < k' < |p'.stack4| && p'.stack4[k] == p'.stack4[k'] && p'.stack4[k] / 512 == idx;
    StackedTwiceHandedOutTwice(p', k, k');
  }

  /** That state is reached at once: boot, allocate a block, free it. */
  lemma EarlyFreeIsReachable(p: Pages)
    requires Shape(p) && p.stack2 == [] && p.stack4 == [] && Alloc2(Generate(p)).1.Some?
    ensures var (p', r) := Alloc2(Generate(p)); !Drained(p', r.value)
  {
    var g := Generate(p);
    GenerateSound(p);
    Alloc2Sound(Reserved(p), g, Ledger({}, {}));
    var (p', r) := Alloc2(g);
    var j := 512 * r.value;
    assert !g.used4[j];
    assert j in p'.stack4 && j / 512 == r.value;
  }

  // ---------------------------------------------------------------- capacity

  /** A stack that repeats nothing below n holds at most n entries. */
  lemma {:induction false} NoRepeatFits(s: seq<nat>, n: nat)
    requires NoRepeat(s) && forall k :: 0 <= k < |s| ==> s[k] < n
    ensures |s| <= n
    decreases n
  {
    if s != [] {
      assert s[0] < n;
      if n - 1 in s {
        var k :| 0 <= k < |s| && s[k] == n - 1;
        NoRepeatFits(s[..k] + s[k + 1..], n - 1);
      } else {
        NoRepeatFits(s, n - 1);
      }
    }
  }

  /** Does the small-page stack, as large as there are pages, have room for the pages of one more block? */
  predicate RoomToFree(p: Pages, idx: nat)
    requires Shape(p) && idx < |p.used2|
  {
    p.used2[idx] ==> |p.stack2| < |p.used2| && |p.stack4| + 512 <= |p.used4|
  }

  lemma AvoidingFits(s: seq<nat>, idx: nat, n: nat)
    requires NoRepeat(s) && (forall k :: 0 <= k < |s| ==> s[k] < n && s[k] / 512 != idx) && 512 * idx + 512 <= n
    ensures |s| + 512 <= n
  {
    var t := s + BlockPages(idx);
    forall k | |s| <= k < |t| ensures t[k] / 512 == idx {
      assert t[k] == 512 * idx + (k - |s|);
    }
    NoRepeatFits(t, n);
  }

  /** A drained live block can always be freed without overflowing a stack. */
  lemma DrainedHasRoom(reserved: set<nat>, p: Pages, l: Ledger, idx: nat)
    requires Sound(reserved, p, l) && idx in l.blocks && Drained(p, idx)
    ensures idx < |p.used2| && RoomToFree(p, idx)
  {
    AvoidingFits(p.stack4, idx, |p.used4|);
    NoRepeatFits(p.stack2 + [idx], |p.used2|);
  }

  /** The first block allocated after boot can be freed again without overflowing the stack exactly when boot reserved something. */
  lemma FirstFreeHasRoom(p: Pages)
    requires Shape(p) && p.stack2 == [] && p.stack4 == [] && Alloc2(Generate(p)).1.Some?
    ensures var (p', r) := Alloc2(Generate(p)); Shape(p') && r.value < |p'.used2| && (RoomToFree(p', r.value) <==> Reserved(p) != {})
  {
    hide Generate, Alloc2, BlockFree, Reserved;
    var g := Generate(p);
    BootStacks(p);
    TakenBlock(g);
    var (p', r) := Alloc2(g);
    NoRepeatFits(p'.stack2 + [r.value], |p.used2|);
    if Reserved(p) != {} {
      var i :| i in Reserved(p);
      ReservedInside(p, i);
      AvoidingFits(g.stack4, i, |g.used4|);
    } else {
      FullAtBoot(p);
    }
  }

  lemma ReservedInside(p: Pages, i: nat)
    requires Shape(p) && i in Reserved(p)
    ensures i < |p.used2|
  {
  }

  lemma {:induction false} AllUnmarked(used: seq<bool>, n: nat)
    requires n <= |used| && forall i :: 0 <= i < n ==> !used[i]
    ensures |Unmarked(used, n)| == n
  {
    if n > 0 {
      AllUnmarked(used, n - 1);
    }
  }

  lemma FullAtBoot(p: Pages)
    requires Shape(p) && p.stack2 == [] && p.stack4 == [] && Reserved(p) == {}
    ensures |Generate(p).stack4| == |p.used4|
  {
    BootStacks(p);
    AllUnmarked(Generate(p).used4, |p.used4|);
  }

  lemma {:induction false} TakenBlock(p: Pages)
    requires Shape(p) && NoRepeat(p.stack2)
    ensures var (p', r) := Alloc2(p);
      && Shape(p') && p'.stack4 == p.stack4 && |p'.used4| == |p.used4| && |p'.used2| == |p.used2|
      && (r.Some? ==> r.value < |p.used2| && p'.used2 == p.used2[r.value := true] && NoRepeat(p'.stack2 + [r.value]))
    decreases |p.stack2|
  {
    if p.stack2 != [] && !BlockFree(p.used4, Top(p.stack2)) {
      TakenBlock(p.(stack2 := Pop(p.stack2)));
    }
  }
}

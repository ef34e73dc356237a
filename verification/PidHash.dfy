/**
 The chained pid table: bucket heads, nodes carved from pages, and a free list of nodes.
 Nodes live in one growing area; a node pointer is its number in that area from 1 on, 0 is null.
 */
module PidHash {

  const BUCKETS: nat := 1024
  /** `PAGE_SIZE_4KB / sizeof(pid_hash_node_t)` */
  const NODES_PER_PAGE: nat := 170

  datatype Option<T> = None | Some(value: T)

  datatype Node = Node(pid: nat, proc: nat, next: nat)

  datatype Pair = Pair(pid: nat, proc: nat)

  /** `pid_hash` */
  function Hash(pid: nat): (b: nat)
    ensures b < BUCKETS
  {
    pid % 1024
  }

  // ---------------------------------------------------------------- what a chain stores

  /** The process stored for a pid. */
  function Find(s: seq<Pair>, pid: nat): Option<nat> {
    if s == [] then None else if s[0].pid == pid then Some(s[0].proc) else Find(s[1..], pid)
  }

  /** No pid occurs again behind its pair. */
  predicate Distinct(s: seq<Pair>) {
    s == [] || (Find(s[1..], s[0].pid) == None && Distinct(s[1..]))
  }

  lemma {:induction false} FindAppend(s: seq<Pair>, t: seq<Pair>, pid: nat)
    ensures Find(s + t, pid) == if Find(s, pid).Some? then Find(s, pid) else Find(t, pid)
  {
    if s == [] {
      assert s + t == t;
    } else {
      assert (s + t)[1..] == s[1..] + t;
      FindAppend(s[1..], t, pid);
    }
  }

  lemma FindCons(x: Pair, s: seq<Pair>, pid: nat)
    ensures Find([x] + s, pid) == if x.pid == pid then Some(x.proc) else Find(s, pid)
    ensures Distinct([x] + s) <==> Find(s, x.pid) == None && Distinct(s)
  {
    assert ([x] + s)[1..] == s;
  }

  /** Dropping one pair of distinct ones drops its pid and no other. */
  lemma {:induction false} DropDistinct(u: seq<Pair>, x: Pair, v: seq<Pair>)
    requires Distinct(u + ([x] + v))
    ensures Distinct(u + v) && Find(u, x.pid) == None && Find(v, x.pid) == None
    ensures forall pid :: Find(u + v, pid) == if pid == x.pid then None else Find(u + ([x] + v), pid)
  {
    hide Find, Distinct;
    if u == [] {
      assert u + v == v && u + ([x] + v) == [x] + v;
      FindNothing(x.pid);
      forall pid
        ensures Find(u + v, pid) == if pid == x.pid then None else Find(u + ([x] + v), pid)
      {
        FindCons(x, v, pid);
      }
      FindCons(x, v, 0);
    } else {
      var h, t := u[0], u[1..];
      assert u == [h] + t && u + ([x] + v) == [h] + (t + ([x] + v)) && u + v == [h] + (t + v);
      FindCons(h, t + ([x] + v), 0);
      DropDistinct(t, x, v);
      FindCons(h, t + v, 0);
      FindCons(h, t, x.pid);
      FindAppend(t, [x] + v, h.pid);
      FindAppend(t, v, h.pid);
      FindCons(x, v, h.pid);
      forall pid
        ensures Find(u + v, pid) == if pid == x.pid then None else Find(u + ([x] + v), pid)
      {
        FindCons(h, t + v, pid);
        FindCons(h, t + ([x] + v), pid);
      }
    }
  }

  lemma FindNothing(pid: nat)
    ensures Find([], pid) == None
  {
  }

  // ---------------------------------------------------------------- nodes and lists of nodes

  predicate InArea(nodes: seq<Node>, list: seq<nat>) {
    forall k :: 0 <= k < |list| ==> 1 <= list[k] <= |nodes|
  }

  function PairAt(nodes: seq<Node>, id: nat): Pair
    requires 1 <= id <= |nodes|
  {
    Pair(nodes[id - 1].pid, nodes[id - 1].proc)
  }

  function Pairs(nodes: seq<Node>, list: seq<nat>): (s: seq<Pair>)
    requires InArea(nodes, list)
    ensures |s| == |list| && forall k :: 0 <= k < |s| ==> s[k] == PairAt(nodes, list[k])
  {
    seq(|list|, k requires 0 <= k < |list| => PairAt(nodes, list[k]))
  }

  /** The k-th node of a list, or null. */
  function Nth(list: seq<nat>, k: nat): nat {
    if k < |list| then list[k] else 0
  }

  /** The k-th node links to the one behind it. */
  predicate LinkAt(nodes: seq<Node>, list: seq<nat>, k: nat) {
    k < |list| && 1 <= list[k] <= |nodes| && nodes[list[k] - 1].next == Nth(list, k + 1)
  }

  ghost predicate Linked(nodes: seq<Node>, head: nat, list: seq<nat>) {
    && head == Nth(list, 0) && InArea(nodes, list)
    && forall k {:trigger LinkAt(nodes, list, k)} :: 0 <= k < |list| ==> LinkAt(nodes, list, k)
  }

  ghost predicate NoRepeat(list: seq<nat>) {
    forall i, j :: 0 <= i < j < |list| ==> list[i] != list[j]
  }

  /** The list holds exactly the nodes owned by b, once each. */
  ghost predicate Placed(owner: seq<nat>, list: seq<nat>, b: nat) {
    && NoRepeat(list)
    && forall id :: id in list <==> 1 <= id <= |owner| && owner[id - 1] == b
  }

  /** The chain of bucket b: linked, holding its own nodes, with distinct pids of that bucket. */
  ghost predicate ChainOk(nodes: seq<Node>, head: nat, owner: seq<nat>, list: seq<nat>, b: nat) {
    && Linked(nodes, head, list) && Placed(owner, list, b) && Distinct(Pairs(nodes, list))
    && forall k :: 0 <= k < |list| ==> Hash(nodes[list[k] - 1].pid) == b
  }

  /** Writing nodes outside a list leaves it as it was. */
  lemma ListFrame(nodes: seq<Node>, nodes': seq<Node>, head: nat, list: seq<nat>)
    requires Linked(nodes, head, list) && |nodes| <= |nodes'|
    requires forall id :: id in list ==> 1 <= id <= |nodes| && nodes'[id - 1] == nodes[id - 1]
    ensures Linked(nodes', head, list) && Pairs(nodes', list) == Pairs(nodes, list)
  {
    forall k | 0 <= k < |list|
      ensures LinkAt(nodes', list, k) && nodes'[list[k] - 1] == nodes[list[k] - 1]
    {
      assert list[k] in list && LinkAt(nodes, list, k);
    }
  }

  lemma ChainFrame(nodes: seq<Node>, nodes': seq<Node>, head: nat, owner: seq<nat>, owner': seq<nat>, list: seq<nat>, b: nat)
    requires ChainOk(nodes, head, owner, list, b) && |owner| == |nodes| <= |nodes'| == |owner'|
    requires forall i :: 0 <= i < |nodes| && owner[i] == b ==> nodes'[i] == nodes[i] && owner'[i] == b
    requires forall i :: 0 <= i < |owner'| && owner'[i] == b ==> i < |owner| && owner[i] == b
    ensures ChainOk(nodes', head, owner', list, b) && Pairs(nodes', list) == Pairs(nodes, list)
  {
    hide Distinct, Pairs, Hash;
    ListFrame(nodes, nodes', head, list);
    assert forall k :: 0 <= k < |list| ==> list[k] in list;
  }

  /** A node put in front of a list. */
  lemma PushList(nodes: seq<Node>, head: nat, list: seq<nat>, id: nat, nodes': seq<Node>)
    requires Linked(nodes, head, list) && 1 <= id <= |nodes| == |nodes'| && id !in list && nodes'[id - 1].next == head
    requires forall i :: 0 <= i < |nodes| && i != id - 1 ==> nodes'[i] == nodes[i]
    ensures Linked(nodes', id, [id] + list) && Pairs(nodes', [id] + list) == [PairAt(nodes', id)] + Pairs(nodes, list)
  {
    hide Linked, Pairs;
    PushFrame(nodes, head, list, id, nodes');
    FrontLinked(nodes', head, list, id);
    FrontPairs(nodes', list, id);
  }

  lemma PushFrame(nodes: seq<Node>, head: nat, list: seq<nat>, id: nat, nodes': seq<Node>)
    requires Linked(nodes, head, list) && 1 <= id <= |nodes| == |nodes'| && id !in list
    requires forall i :: 0 <= i < |nodes| && i != id - 1 ==> nodes'[i] == nodes[i]
    ensures Linked(nodes', head, list) && InArea(nodes, list) && InArea(nodes', list) && Pairs(nodes', list) == Pairs(nodes, list)
  {
    ListFrame(nodes, nodes', head, list);
  }

  lemma FrontLinked(nodes: seq<Node>, head: nat, list: seq<nat>, id: nat)
    requires Linked(nodes, head, list) && 1 <= id <= |nodes| && nodes[id - 1].next == head
    ensures Linked(nodes, id, [id] + list)
  {
    forall k | 0 <= k < |list| + 1
      ensures LinkAt(nodes, [id] + list, k)
    {
      assert k > 0 ==> LinkAt(nodes, list, k - 1);
    }
  }

  lemma FrontPairs(nodes: seq<Node>, list: seq<nat>, id: nat)
    requires InArea(nodes, list) && 1 <= id <= |nodes|
    ensures InArea(nodes, [id] + list) && Pairs(nodes, [id] + list) == [PairAt(nodes, id)] + Pairs(nodes, list)
  {
  }

  lemma PushPlaced(owner: seq<nat>, list: seq<nat>, b: nat, id: nat)
    requires Placed(owner, list, b) && 1 <= id <= |owner| && owner[id - 1] != b
    ensures id !in list && Placed(owner[id - 1 := b], [id] + list, b)
  {
    var list' := [id] + list;
    assert forall x :: x in list' <==> x == id || x in list;
    assert forall k :: 1 <= k < |list'| ==> list'[k] == list[k - 1];
  }

  /** A new node at the head of its chain. */
  lemma PushChain(nodes: seq<Node>, head: nat, owner: seq<nat>, list: seq<nat>, b: nat, id: nat, nodes': seq<Node>)
    requires ChainOk(nodes, head, owner, list, b) && |owner| == |nodes| == |nodes'| && 1 <= id <= |nodes| && owner[id - 1] != b
    requires forall i :: 0 <= i < |nodes| && i != id - 1 ==> nodes'[i] == nodes[i]
    requires nodes'[id - 1].next == head && Hash(nodes'[id - 1].pid) == b && Find(Pairs(nodes, list), nodes'[id - 1].pid) == None
    ensures ChainOk(nodes', id, owner[id - 1 := b], [id] + list, b)
    ensures Pairs(nodes', [id] + list) == [PairAt(nodes', id)] + Pairs(nodes, list)
  {
    hide Find, Distinct, Pairs, Hash;
    PushPlaced(owner, list, b, id);
    PushList(nodes, head, list, id, nodes');
    FindCons(PairAt(nodes', id), Pairs(nodes, list), 0);
    var list' := [id] + list;
    forall k | 0 <= k < |list'|
      ensures Hash(nodes'[list'[k] - 1].pid) == b
    {
      if k > 0 {
        assert list'[k] == list[k - 1] && list[k - 1] in list;
      }
    }
  }

  /** The list without its k-th node. */
  function Dropped(list: seq<nat>, k: nat): (r: seq<nat>)
    requires k < |list|
    ensures |r| == |list| - 1 && forall j :: 0 <= j < |r| ==> r[j] == if j < k then list[j] else list[j + 1]
  {
    list[..k] + list[k + 1..]
  }

  lemma DropMembers(list: seq<nat>, k: nat)
    requires NoRepeat(list) && k < |list|
    ensures NoRepeat(Dropped(list, k)) && forall x :: x in Dropped(list, k) <==> x in list && x != list[k]
  {
    var r := Dropped(list, k);
    forall x
      ensures x in r <==> x in list && x != list[k]
    {
      if x in list && x != list[k] {
        var i :| 0 <= i < |list| && list[i] == x;
        assert r[if i < k then i else i - 1] == x;
      }
    }
  }

  lemma DropPlaced(owner: seq<nat>, list: seq<nat>, b: nat, k: nat, other: nat)
    requires Placed(owner, list, b) && k < |list| && other != b
    ensures 1 <= list[k] <= |owner| && Placed(owner[list[k] - 1 := other], Dropped(list, k), b)
  {
    assert list[k] in list;
    DropMembers(list, k);
  }

  /** What unlinking the k-th node does: the node before it, or the head, skips it; pids and processes stay. */
  ghost predicate Unlinked(nodes: seq<Node>, head: nat, list: seq<nat>, k: nat, nodes': seq<Node>, head': nat)
    requires InArea(nodes, list) && k < |list|
  {
    && |nodes'| == |nodes|
    && (if k == 0 then head' == nodes[list[0] - 1].next else head' == head && nodes'[list[k - 1] - 1] == nodes[list[k - 1] - 1].(next := nodes[list[k] - 1].next))
    && forall i :: 0 <= i < |nodes| && i != list[k] - 1 && (k > 0 ==> i != list[k - 1] - 1) ==> nodes'[i] == nodes[i]
  }

  lemma DropNode(nodes: seq<Node>, head: nat, list: seq<nat>, k: nat, nodes': seq<Node>, head': nat, j: nat)
    requires InArea(nodes, list) && k < |list| && Unlinked(nodes, head, list, k, nodes', head') && NoRepeat(list) && j < |list| && j != k
    ensures nodes'[list[j] - 1] == if j + 1 == k then nodes[list[j] - 1].(next := nodes[list[k] - 1].next) else nodes[list[j] - 1]
  {
    assert list[j] != list[k];
    if k > 0 && j != k - 1 {
      assert list[j] != list[k - 1];
    }
  }

  lemma DropList(nodes: seq<Node>, head: nat, list: seq<nat>, k: nat, nodes': seq<Node>, head': nat)
    requires Linked(nodes, head, list) && NoRepeat(list) && k < |list| && Unlinked(nodes, head, list, k, nodes', head')
    ensures Linked(nodes', head', Dropped(list, k))
    ensures Pairs(nodes', Dropped(list, k)) == Pairs(nodes, list)[..k] + Pairs(nodes, list)[k + 1..]
  {
    hide Unlinked, NoRepeat, LinkAt;
    HeadAfter(nodes, head, list, k, nodes', head');
    forall j | 0 <= j < |list| - 1
      ensures LinkAt(nodes', Dropped(list, k), j) && 1 <= Dropped(list, k)[j] <= |nodes'|
      ensures PairAt(nodes', Dropped(list, k)[j]) == PairAt(nodes, list[if j < k then j else j + 1])
    {
      DropLink(nodes, head, list, k, nodes', head', j);
    }
  }

  lemma DropLink(nodes: seq<Node>, head: nat, list: seq<nat>, k: nat, nodes': seq<Node>, head': nat, j: nat)
    requires Linked(nodes, head, list) && NoRepeat(list) && k < |list| && Unlinked(nodes, head, list, k, nodes', head') && j < |list| - 1
    ensures LinkAt(nodes', Dropped(list, k), j)
    ensures PairAt(nodes', Dropped(list, k)[j]) == PairAt(nodes, list[if j < k then j else j + 1])
  {
    hide NoRepeat, Unlinked;
    HeadAfter(nodes, head, list, k, nodes', head');
    var i := if j < k then j else j + 1;
    DropNode(nodes, head, list, k, nodes', head', i);
    assert LinkAt(nodes, list, i) && LinkAt(nodes, list, k);
  }

  lemma HeadAfter(nodes: seq<Node>, head: nat, list: seq<nat>, k: nat, nodes': seq<Node>, head': nat)
    requires Linked(nodes, head, list) && k < |list| && Unlinked(nodes, head, list, k, nodes', head')
    ensures head' == Nth(Dropped(list, k), 0) && |nodes'| == |nodes|
  {
    assert LinkAt(nodes, list, k);
  }

  /** A chain without its k-th node stores everything but that node's pid. */
  lemma DropChain(nodes: seq<Node>, head: nat, owner: seq<nat>, list: seq<nat>, b: nat, k: nat, nodes': seq<Node>, head': nat, other: nat)
    requires ChainOk(nodes, head, owner, list, b) && k < |list| && Unlinked(nodes, head, list, k, nodes', head') && other != b
    ensures 1 <= list[k] <= |owner| && ChainOk(nodes', head', owner[list[k] - 1 := other], Dropped(list, k), b)
    ensures forall pid :: Find(Pairs(nodes', Dropped(list, k)), pid) == if pid == nodes[list[k] - 1].pid then None else Find(Pairs(nodes, list), pid)
  {
    hide Find, Distinct, Hash, Unlinked, Pairs, Linked, NoRepeat, Placed;
    PlacedOnce(owner, list, b);
    LinkedInArea(nodes, head, list);
    var s := Pairs(nodes, list);
    DropPlaced(owner, list, b, k, other);
    DropList(nodes, head, list, k, nodes', head');
    PairsLength(nodes, list, k);
    assert s == s[..k] + ([s[k]] + s[k + 1..]);
    DropDistinct(s[..k], s[k], s[k + 1..]);
    LinkedInArea(nodes', head', Dropped(list, k));
    assert |nodes'| == |nodes| by { HeadAfter(nodes, head, list, k, nodes', head'); }
    forall j | 0 <= j < |Dropped(list, k)|
      ensures Hash(nodes'[Dropped(list, k)[j] - 1].pid) == b
    {
      DropNode(nodes, head, list, k, nodes', head', if j < k then j else j + 1);
    }
  }

  lemma PairsLength(nodes: seq<Node>, list: seq<nat>, k: nat)
    requires InArea(nodes, list) && k < |list|
    ensures |Pairs(nodes, list)| == |list| && Pairs(nodes, list)[k] == PairAt(nodes, list[k])
  {
  }

  lemma PlacedOnce(owner: seq<nat>, list: seq<nat>, b: nat)
    requires Placed(owner, list, b)
    ensures NoRepeat(list)
  {
  }

  lemma LinkedInArea(nodes: seq<Node>, head: nat, list: seq<nat>)
    requires Linked(nodes, head, list)
    ensures InArea(nodes, list)
  {
  }

  // ---------------------------------------------------------------- the table

  /** Who owns each node, and the lists it makes up; the owner of a free node is BUCKETS. */
  datatype Layout = Layout(owner: seq<nat>, chains: seq<seq<nat>>, free: seq<nat>)

  /** Every node is in exactly one chain, or on the free list. */
  ghost predicate Sound(nodes: seq<Node>, buckets: seq<nat>, free: nat, y: Layout) {
    && |buckets| == |y.chains| == BUCKETS && |y.owner| == |nodes|
    && (forall b {:trigger ChainOk(nodes, buckets[b], y.owner, y.chains[b], b)} :: 0 <= b < BUCKETS ==> ChainOk(nodes, buckets[b], y.owner, y.chains[b], b))
    && Linked(nodes, free, y.free) && Placed(y.owner, y.free, BUCKETS)
    && forall i :: 0 <= i < |y.owner| ==> y.owner[i] <= BUCKETS
  }

  /** What the table stores for a pid. */
  ghost function Get(nodes: seq<Node>, y: Layout, pid: nat): Option<nat>
  {
    if |y.chains| == BUCKETS && InArea(nodes, y.chains[Hash(pid)]) then Find(Pairs(nodes, y.chains[Hash(pid)]), pid) else None
  }

  ghost predicate AllInArea(nodes: seq<Node>, y: Layout) {
    |y.chains| == BUCKETS && forall b :: 0 <= b < BUCKETS ==> InArea(nodes, y.chains[b])
  }

  lemma SoundInArea(nodes: seq<Node>, buckets: seq<nat>, free: nat, y: Layout)
    requires Sound(nodes, buckets, free, y)
    ensures AllInArea(nodes, y)
  {
    forall b | 0 <= b < BUCKETS
      ensures InArea(nodes, y.chains[b])
    {
      assert ChainOk(nodes, buckets[b], y.owner, y.chains[b], b);
    }
  }

  /** The layout after a free node went to the front of a chain. */
  function Taken(y: Layout, b: nat): Layout
    requires b < |y.chains| && y.free != [] && 1 <= y.free[0] <= |y.owner|
  {
    Layout(y.owner[y.free[0] - 1 := b], y.chains[b := [y.free[0]] + y.chains[b]], y.free[1..])
  }

  /** The rest of a list after its first node. */
  lemma PopList(nodes: seq<Node>, owner: seq<nat>, head: nat, list: seq<nat>, b: nat, other: nat)
    requires Linked(nodes, head, list) && Placed(owner, list, b) && list != [] && other != b && |owner| == |nodes|
    ensures head == list[0] && 1 <= head <= |nodes| && owner[head - 1] == b
    ensures Linked(nodes, nodes[head - 1].next, list[1..]) && Placed(owner[head - 1 := other], list[1..], b) && head !in list[1..]
  {
    hide Linked;
    LinkedInArea(nodes, head, list);
    HeadLink(nodes, head, list);
    DropPlaced(owner, list, b, 0, other);
    DropMembers(list, 0);
    assert Dropped(list, 0) == list[1..];
    assert list[0] in list;
  }

  lemma HeadLink(nodes: seq<Node>, head: nat, list: seq<nat>)
    requires Linked(nodes, head, list) && list != []
    ensures head == list[0] && 1 <= head <= |nodes| && Linked(nodes, nodes[head - 1].next, list[1..])
  {
    var rest := list[1..];
    assert LinkAt(nodes, list, 0);
    forall k | 0 <= k < |rest|
      ensures LinkAt(nodes, rest, k)
    {
      assert LinkAt(nodes, list, k + 1);
    }
  }

  /** Putting a free node into a chain with a new pid stores that pid and nothing else. */
  lemma InsertSound(nodes: seq<Node>, buckets: seq<nat>, free: nat, y: Layout, pid: nat, proc: nat)
    requires Sound(nodes, buckets, free, y) && y.free != [] && AllInArea(nodes, y) && Get(nodes, y, pid) == None
    ensures 1 <= free <= |nodes| && free == y.free[0]
    ensures var b := Hash(pid); var nodes' := nodes[free - 1 := Node(pid, proc, buckets[b])];
      && Sound(nodes', buckets[b := free], nodes[free - 1].next, Taken(y, b)) && AllInArea(nodes', Taken(y, b))
      && forall p :: Get(nodes', Taken(y, b), p) == if p == pid then Some(proc) else Get(nodes, y, p)
  {
    hide ChainOk, Find, Pairs, Linked, Placed, Hash;
    var b := Hash(pid);
    PopList(nodes, y.owner, free, y.free, BUCKETS, b);
    var id, nodes', y' := free, nodes[free - 1 := Node(pid, proc, buckets[b])], Taken(y, b);
    assert ChainOk(nodes, buckets[b], y.owner, y.chains[b], b);
    PushChain(nodes, buckets[b], y.owner, y.chains[b], b, id, nodes');
    ListFrameTail(nodes, nodes', nodes[id - 1].next, y.free[1..], id);
    forall c | 0 <= c < BUCKETS
      ensures ChainOk(nodes', buckets[b := free][c], y'.owner, y'.chains[c], c)
      ensures c != b ==> Pairs(nodes', y.chains[c]) == Pairs(nodes, y.chains[c])
    {
      assert ChainOk(nodes, buckets[c], y.owner, y.chains[c], c);
      if c != b {
        ChainFrame(nodes, nodes', buckets[c], y.owner, y'.owner, y.chains[c], c);
      }
    }
    SoundInArea(nodes', buckets[b := free], nodes[free - 1].next, y');
    forall p
      ensures Get(nodes', y', p) == if p == pid then Some(proc) else Get(nodes, y, p)
    {
      if Hash(p) == b {
        FindCons(PairAt(nodes', id), Pairs(nodes, y.chains[b]), p);
      }
    }
  }

  lemma ListFrameTail(nodes: seq<Node>, nodes': seq<Node>, head: nat, list: seq<nat>, id: nat)
    requires Linked(nodes, head, list) && id !in list && 1 <= id <= |nodes| == |nodes'|
    requires forall i :: 0 <= i < |nodes| && i != id - 1 ==> nodes'[i] == nodes[i]
    ensures Linked(nodes', head, list)
  {
    PushFrame(nodes, head, list, id, nodes');
  }

  /** One more free node at the end of the area. */
  lemma AppendFreeSound(nodes: seq<Node>, buckets: seq<nat>, free: nat, y: Layout, fresh': Node)
    requires Sound(nodes, buckets, free, y) && AllInArea(nodes, y) && fresh'.next == free
    ensures var nodes', y' := nodes + [fresh'], Layout(y.owner + [BUCKETS], y.chains, [|nodes| + 1] + y.free);
      && Sound(nodes', buckets, |nodes| + 1, y') && AllInArea(nodes', y')
      && forall p :: Get(nodes', y', p) == Get(nodes, y, p)
  {
    hide ChainOk, Find, Pairs, Linked, Hash;
    var id, nodes' := |nodes| + 1, nodes + [fresh'];
    var y' := Layout(y.owner + [BUCKETS], y.chains, [id] + y.free);
    forall c | 0 <= c < BUCKETS
      ensures ChainOk(nodes', buckets[c], y'.owner, y'.chains[c], c)
      ensures Pairs(nodes', y.chains[c]) == Pairs(nodes, y.chains[c])
    {
      assert ChainOk(nodes, buckets[c], y.owner, y.chains[c], c);
      ChainFrame(nodes, nodes', buckets[c], y.owner, y'.owner, y.chains[c], c);
    }
    FreeGrows(nodes, free, y.owner, y.free, nodes');
    SoundInArea(nodes', buckets, id, y');
  }

  lemma FreeGrows(nodes: seq<Node>, free: nat, owner: seq<nat>, list: seq<nat>, nodes': seq<Node>)
    requires Linked(nodes, free, list) && Placed(owner, list, BUCKETS) && |owner| == |nodes|
    requires |nodes'| == |nodes| + 1 && nodes'[..|nodes|] == nodes && nodes'[|nodes|].next == free
    ensures Linked(nodes', |nodes| + 1, [|nodes| + 1] + list) && Placed(owner + [BUCKETS], [|nodes| + 1] + list, BUCKETS)
  {
    hide Linked;
    assert forall i :: 0 <= i < |nodes| ==> nodes'[i] == nodes'[..|nodes|][i];
    ListFrame(nodes, nodes', free, list);
    FrontLinked(nodes', free, list, |nodes| + 1);
    var list' := [|nodes| + 1] + list;
    assert forall x :: x in list' <==> x == |nodes| + 1 || x in list;
    assert forall k :: 1 <= k < |list'| ==> list'[k] == list[k - 1] && list[k - 1] in list;
  }

  /** The layout after the k-th node of chain b became free. */
  function Released(y: Layout, b: nat, k: nat): Layout
    requires b < |y.chains| && k < |y.chains[b]| && 1 <= y.chains[b][k] <= |y.owner|
  {
    var id := y.chains[b][k];
    Layout(y.owner[id - 1 := BUCKETS], y.chains[b := Dropped(y.chains[b], k)], [id] + y.free)
  }

  /** Memory after the k-th node of a chain was unlinked and put on the free list. */
  function Unhooked(nodes: seq<Node>, list: seq<nat>, k: nat, free: nat): (r: seq<Node>)
    requires InArea(nodes, list) && k < |list|
    ensures |r| == |nodes|
  {
    var id := list[k];
    var skipped := if k > 0 then nodes[list[k - 1] - 1 := nodes[list[k - 1] - 1].(next := nodes[id - 1].next)] else nodes;
    skipped[id - 1 := skipped[id - 1].(next := free)]
  }

  lemma UnhookedMeaning(nodes: seq<Node>, head: nat, list: seq<nat>, k: nat, free: nat)
    requires InArea(nodes, list) && k < |list| && NoRepeat(list) && Linked(nodes, head, list)
    ensures var nodes' := Unhooked(nodes, list, k, free);
      && Unlinked(nodes, head, list, k, nodes', if k == 0 then nodes[list[0] - 1].next else head)
      && nodes'[list[k] - 1].next == free
      && forall i :: 0 <= i < |nodes| && i != list[k] - 1 && (k > 0 ==> i != list[k - 1] - 1) ==> nodes'[i] == nodes[i]
  {
    hide Linked;
    assert k > 0 ==> list[k - 1] != list[k];
  }

  /** Deleting the k-th node of a chain forgets its pid and nothing else, and frees the node. */
  lemma DeleteSound(nodes: seq<Node>, buckets: seq<nat>, free: nat, y: Layout, b: nat, k: nat)
    requires Sound(nodes, buckets, free, y) && AllInArea(nodes, y) && b < BUCKETS && k < |y.chains[b]|
    ensures 1 <= y.chains[b][k] <= |y.owner| == |nodes|
    ensures var id := y.chains[b][k];
      var nodes', buckets' := Unhooked(nodes, y.chains[b], k, free), if k == 0 then buckets[b := nodes[id - 1].next] else buckets;
      && Sound(nodes', buckets', id, Released(y, b, k)) && AllInArea(nodes', Released(y, b, k))
      && forall p :: Get(nodes', Released(y, b, k), p) == if p == nodes[id - 1].pid then None else Get(nodes, y, p)
  {
    hide ChainOk, Find, Pairs, Linked, Hash, Unhooked, Unlinked, Placed;
    var list, id := y.chains[b], y.chains[b][k];
    var nodes', y' := Unhooked(nodes, list, k, free), Released(y, b, k);
    var buckets' := if k == 0 then buckets[b := nodes[id - 1].next] else buckets;
    assert ChainOk(nodes, buckets[b], y.owner, list, b);
    ChainParts(nodes, buckets[b], y.owner, list, b, k);
    UnhookedMeaning(nodes, buckets[b], list, k, free);
    DropChain(nodes, buckets[b], y.owner, list, b, k, nodes', buckets'[b], BUCKETS);
    forall c | 0 <= c < BUCKETS
      ensures ChainOk(nodes', buckets'[c], y'.owner, y'.chains[c], c)
      ensures c != b ==> Pairs(nodes', y.chains[c]) == Pairs(nodes, y.chains[c])
    {
      assert ChainOk(nodes, buckets[c], y.owner, y.chains[c], c);
      if c != b {
        ChainFrame(nodes, nodes', buckets[c], y.owner, y'.owner, y.chains[c], c);
      }
    }
    FreeTakes(nodes, free, y.owner, y.free, b, id, nodes', if k > 0 then list[k - 1] else id);
    SoundInArea(nodes', buckets', id, y');
    forall p
      ensures Get(nodes', y', p) == if p == nodes[id - 1].pid then None else Get(nodes, y, p)
    {
    }
  }

  lemma ChainParts(nodes: seq<Node>, head: nat, owner: seq<nat>, list: seq<nat>, b: nat, k: nat)
    requires ChainOk(nodes, head, owner, list, b) && k < |list| && |owner| == |nodes|
    ensures NoRepeat(list) && Linked(nodes, head, list) && 1 <= list[k] <= |nodes| && Hash(nodes[list[k] - 1].pid) == b
    ensures owner[list[k] - 1] == b && (k > 0 ==> 1 <= list[k - 1] <= |nodes| && owner[list[k - 1] - 1] == b)
  {
    hide Hash, Distinct, Pairs;
    assert list[k] in list && (k > 0 ==> list[k - 1] in list);
  }

  /** The free list takes a node of chain b while one other node of that chain may be rewritten. */
  lemma FreeTakes(nodes: seq<Node>, free: nat, owner: seq<nat>, list: seq<nat>, b: nat, id: nat, nodes': seq<Node>, prev: nat)
    requires Linked(nodes, free, list) && Placed(owner, list, BUCKETS) && |owner| == |nodes| == |nodes'| && b < BUCKETS
    requires 1 <= id <= |nodes| && owner[id - 1] == b && 1 <= prev <= |nodes| && owner[prev - 1] == b && nodes'[id - 1].next == free
    requires forall i :: 0 <= i < |nodes| && i != id - 1 && i != prev - 1 ==> nodes'[i] == nodes[i]
    ensures Linked(nodes', id, [id] + list) && Placed(owner[id - 1 := BUCKETS], [id] + list, BUCKETS)
  {
    hide Linked;
    PushPlaced(owner, list, BUCKETS, id);
    assert prev !in list;
    ListFrame(nodes, nodes', free, list);
    FrontLinked(nodes', free, list, id);
  }

  /** One step along a chain in search of a pid. */
  lemma ChainStep(nodes: seq<Node>, head: nat, owner: seq<nat>, list: seq<nat>, b: nat, k: nat, pid: nat)
    requires ChainOk(nodes, head, owner, list, b) && k <= |list|
    ensures InArea(nodes, list) && |Pairs(nodes, list)| == |list| && head == Nth(list, 0)
    ensures Nth(list, k) == 0 <==> k == |list|
    ensures k == |list| ==> Find(Pairs(nodes, list)[k..], pid) == None
    ensures k < |list| ==> 1 <= list[k] <= |nodes| && Nth(list, k) == list[k] && nodes[list[k] - 1].next == Nth(list, k + 1)
    ensures k < |list| ==> (Find(Pairs(nodes, list)[k..], pid)
      == if nodes[list[k] - 1].pid == pid then Some(nodes[list[k] - 1].proc) else Find(Pairs(nodes, list)[k + 1..], pid))
  {
    hide Hash, Distinct, Placed;
    if k < |list| {
      assert LinkAt(nodes, list, k);
      var s := Pairs(nodes, list);
      assert s[k..] == [s[k]] + s[k + 1..];
      FindCons(s[k], s[k + 1..], pid);
    }
  }

  class PidTable {
    const buckets: array<nat>
    /** The node area. */
    var nodes: seq<Node>
    var freeNodes: nat
    var pagesAllocated: nat
    ghost var layout: Layout

    ghost predicate Valid()
      reads this, buckets
    {
      && buckets.Length == BUCKETS && Sound(nodes, buckets[..], freeNodes, layout) && AllInArea(nodes, layout)
      && |nodes| == pagesAllocated * NODES_PER_PAGE
    }

    /** The table as a finite map. */
    ghost function Stored(pid: nat): Option<nat>
      requires Valid()
      reads this, buckets
    {
      Get(nodes, layout, pid)
    }

    /** `pid_hash_init` */
    constructor ()
      ensures Valid() && buckets.Length == 1024 && pagesAllocated == 0 && forall pid :: Stored(pid) == None
    {
      buckets := new nat[BUCKETS](_ => 0);
      nodes, freeNodes, pagesAllocated := [], 0, 0;
      layout := Layout([], seq(BUCKETS, _ => []), []);
      new;
      assert forall b :: 0 <= b < BUCKETS ==> ChainOk(nodes, buckets[..][b], layout.owner, layout.chains[b], b);
    }

    /** `alloc_nodes_page`; `granted` says whether a page could be had. */
    method AllocNodesPage(granted: bool)
      requires Valid()
      modifies this
      ensures Valid() && pagesAllocated == old(pagesAllocated) + (if granted then 1 else 0)
      ensures forall pid :: Stored(pid) == old(Stored(pid))
      ensures freeNodes == 0 <==> !granted && old(freeNodes) == 0
      ensures granted ==> |nodes| == |old(nodes)| + 170 && |layout.free| == |old(layout.free)| + 170 && layout.chains == old(layout.chains)
      ensures !granted ==> nodes == old(nodes) && freeNodes == old(freeNodes) && layout == old(layout)
    {
      hide Sound, Get, AllInArea;
      if !granted {
        return;
      }
      ghost var nodes0, layout0 := nodes, layout;
      for i := 0 to NODES_PER_PAGE
        invariant Sound(nodes, buckets[..], freeNodes, layout) && AllInArea(nodes, layout)
        invariant |nodes| == pagesAllocated * NODES_PER_PAGE + i && pagesAllocated == old(pagesAllocated)
        invariant forall pid :: Get(nodes, layout, pid) == Get(nodes0, layout0, pid)
        invariant i > 0 ==> freeNodes != 0
        invariant |layout.free| == |layout0.free| + i && layout.chains == layout0.chains && |nodes| == |nodes0| + i
      {
        var node := Node(0, 0, freeNodes);
        AppendFreeSound(nodes, buckets[..], freeNodes, layout, node);
        layout := Layout(layout.owner + [BUCKETS], layout.chains, [|nodes| + 1] + layout.free);
        nodes, freeNodes := nodes + [node], |nodes| + 1;
      }
      pagesAllocated := pagesAllocated + 1;
    }

    /** `pid_hash_insert`; a pid already stored changes nothing. */
    method Insert(pid: nat, proc: nat, granted: bool) returns (ok: bool)
      requires Valid()
      modifies this, buckets
      ensures Valid()
      ensures ok <==> old(Stored(pid)) == None && (old(freeNodes) != 0 || granted)
      ensures forall p :: Stored(p) == if ok && p == pid then Some(proc) else old(Stored(p))
    {
      hide Sound, AllInArea, ChainOk, Find, Pairs, InArea, Taken;
      var hash := Hash(pid);
      ChainOfBucket(nodes, buckets[..], freeNodes, layout, pid);
      ghost var list, k := layout.chains[hash], 0;
      var current := buckets[hash];
      while current != 0
        invariant unchanged(this) && unchanged(buckets)
        invariant k <= |list| && current == Nth(list, k) && InArea(nodes, list) && |Pairs(nodes, list)| == |list|
        invariant Find(Pairs(nodes, list)[k..], pid) == old(Stored(pid))
        decreases |list| - k
      {
        ChainStep(nodes, buckets[hash], layout.owner, list, hash, k, pid);
        if nodes[current - 1].pid == pid {
          return false;
        }
        current, k := nodes[current - 1].next, k + 1;
      }
      ChainStep(nodes, buckets[hash], layout.owner, list, hash, k, pid);
      if freeNodes == 0 {
        AllocNodesPage(granted);
        if freeNodes == 0 {
          return false;
        }
      }
      assert Valid() && Stored(pid) == None;
      ghost var nodes1, layout1 := nodes, layout;
      assert forall p :: Get(nodes1, layout1, p) == old(Stored(p)) by {
        assert forall p :: Stored(p) == old(Stored(p));
      }
      FreeIsThere(nodes, buckets[..], freeNodes, layout);
      var node := freeNodes;
      InsertSound(nodes, buckets[..], freeNodes, layout, pid, proc);
      ghost var heads := buckets[..];
      freeNodes, layout := nodes[node - 1].next, Taken(layout, hash);
      nodes := nodes[node - 1 := Node(pid, proc, buckets[hash])];
      buckets[hash] := node;
      assert buckets[..] == heads[hash := node];
      return true;
    }

    /** `pid_hash_lookup`: the process, or 0 */
    method Lookup(pid: nat) returns (proc: nat)
      requires Valid()
      ensures proc == match Stored(pid) case Some(p) => p case None => 0
    {
      hide Sound, AllInArea, ChainOk, Find, Pairs, InArea;
      var hash := Hash(pid);
      ChainOfBucket(nodes, buckets[..], freeNodes, layout, pid);
      ghost var list, k := layout.chains[hash], 0;
      var current := buckets[hash];
      while current != 0
        invariant k <= |list| && current == Nth(list, k) && InArea(nodes, list) && |Pairs(nodes, list)| == |list|
        invariant Find(Pairs(nodes, list)[k..], pid) == Stored(pid)
        decreases |list| - k
      {
        ChainStep(nodes, buckets[hash], layout.owner, list, hash, k, pid);
        if nodes[current - 1].pid == pid {
          return nodes[current - 1].proc;
        }
        current, k := nodes[current - 1].next, k + 1;
      }
      ChainStep(nodes, buckets[hash], layout.owner, list, hash, k, pid);
      return 0;
    }

    /** `free_node` */
    method FreeNode(node: nat)
      requires 1 <= node <= |nodes|
      modifies this`nodes, this`freeNodes
      ensures nodes == old(nodes)[node - 1 := old(nodes)[node - 1].(next := old(freeNodes))] && freeNodes == node
    {
      nodes := nodes[node - 1 := nodes[node - 1].(next := freeNodes)];
      freeNodes := node;
    }

    /** `pid_hash_delete` */
    method Delete(pid: nat) returns (ok: bool)
      requires Valid()
      modifies this, buckets
      ensures Valid() && |nodes| == |old(nodes)|
      ensures ok <==> old(Stored(pid)).Some?
      ensures forall p :: Stored(p) == if p == pid then None else old(Stored(p))
    {
      hide Sound, AllInArea, ChainOk, Find, Pairs, InArea, Released, Unhooked;
      var hash := Hash(pid);
      ChainOfBucket(nodes, buckets[..], freeNodes, layout, pid);
      ghost var list, k := layout.chains[hash], 0;
      var current, prev := buckets[hash], 0;
      while current != 0
        invariant unchanged(this) && unchanged(buckets)
        invariant k <= |list| && current == Nth(list, k) && InArea(nodes, list) && |Pairs(nodes, list)| == |list|
        invariant Valid() && prev == (if k == 0 then 0 else list[k - 1])
        invariant Find(Pairs(nodes, list)[k..], pid) == old(Stored(pid))
        decreases |list| - k
      {
        ChainStep(nodes, buckets[hash], layout.owner, list, hash, k, pid);
        if nodes[current - 1].pid == pid {
          DeleteSound(nodes, buckets[..], freeNodes, layout, hash, k);
          ghost var after, heads := Unhooked(nodes, list, k, freeNodes), buckets[..];
          UnhookedBySteps(nodes, list, k, freeNodes);
          ghost var next := nodes[current - 1].next;
          layout := Released(layout, hash, k);
          if prev != 0 {
            nodes := nodes[prev - 1 := nodes[prev - 1].(next := nodes[current - 1].next)];
          } else {
            buckets[hash] := nodes[current - 1].next;
          }
          FreeNode(current);
          assert nodes == after && buckets[..] == if k == 0 then heads[hash := next] else heads;
          return true;
        }
        prev, current, k := current, nodes[current - 1].next, k + 1;
      }
      ChainStep(nodes, buckets[hash], layout.owner, list, hash, k, pid);
      return false;
    }
  }

  lemma ChainOfBucket(nodes: seq<Node>, buckets: seq<nat>, free: nat, y: Layout, pid: nat)
    requires Sound(nodes, buckets, free, y)
    ensures |buckets| == BUCKETS == |y.chains| && ChainOk(nodes, buckets[Hash(pid)], y.owner, y.chains[Hash(pid)], Hash(pid))
    ensures InArea(nodes, y.chains[Hash(pid)]) && buckets[Hash(pid)] == Nth(y.chains[Hash(pid)], 0)
    ensures |Pairs(nodes, y.chains[Hash(pid)])| == |y.chains[Hash(pid)]|
    ensures Pairs(nodes, y.chains[Hash(pid)])[0..] == Pairs(nodes, y.chains[Hash(pid)])
  {
    assert ChainOk(nodes, buckets[Hash(pid)], y.owner, y.chains[Hash(pid)], Hash(pid));
  }

  lemma UnhookedBySteps(nodes: seq<Node>, list: seq<nat>, k: nat, free: nat)
    requires InArea(nodes, list) && k < |list|
    ensures 1 <= list[k] <= |nodes| && (k > 0 ==> 1 <= list[k - 1] <= |nodes|)
    ensures var id := list[k];
      var skipped := if k > 0 then nodes[list[k - 1] - 1 := nodes[list[k - 1] - 1].(next := nodes[id - 1].next)] else nodes;
      Unhooked(nodes, list, k, free) == skipped[id - 1 := skipped[id - 1].(next := free)]
  {
  }

  lemma FreeIsThere(nodes: seq<Node>, buckets: seq<nat>, free: nat, y: Layout)
    requires Sound(nodes, buckets, free, y)
    ensures free != 0 <==> y.free != []
    ensures |y.chains| == BUCKETS && (free != 0 ==> y.free[0] == free && 1 <= free <= |y.owner| == |nodes|)
  {
    assert y.free != [] ==> LinkAt(nodes, y.free, 0);
  }
}

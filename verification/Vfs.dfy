/**
 The entry tree of `vfs.c`: intrusive child lists, path lookup and path printing.
 An entry is its number in allocation order, 0 is `ROOT`. A list head is a number too: 2 * e is the `children` head
 of entry e and 2 * e + 1 its `sibling` node, so that `container_of` is division by two.
 All directories are loaded.
 */
module Vfs {

  const COMPONENT_SIZE: nat := 256
  const PATH_SIZE: nat := 4096
  const NUL: char := '\0'

  datatype Option<T> = None | Some(value: T)

  /** What the pointers stand for: the children of every entry in list order. */
  datatype Tree = Tree(names: seq<string>, parents: seq<Option<nat>>, kids: seq<seq<nat>>)

  // ---------------------------------------------------------------- lookup

  /** The first of some entries that bears a name. */
  function First(names: seq<string>, kids: seq<nat>, name: string): (r: Option<nat>)
    requires forall i :: 0 <= i < |kids| ==> kids[i] < |names|
    ensures r.Some? ==> r.value in kids && names[r.value] == name
    ensures r.None? ==> forall i :: 0 <= i < |kids| ==> names[kids[i]] != name
  {
    if kids == [] then None
    else if names[kids[0]] == name then Some(kids[0])
    else First(names, kids[1..], name)
  }

  /** Every entry but the root stands once in the list of its parent, which is older. */
  ghost predicate Sound(t: Tree) {
    && |t.names| == |t.parents| == |t.kids| > 0
    && t.names[0] == "" && t.parents[0] == None
    && (forall e :: 0 <= e < |t.names| ==> NUL !in t.names[e])
    && (forall e :: 0 < e < |t.names| ==> Placed(t, e))
    && (forall p :: 0 <= p < |t.names| ==> Listed(t, p))
  }

  ghost predicate Placed(t: Tree, e: nat)
    requires |t.parents| == |t.kids| && e < |t.kids|
  {
    t.parents[e].Some? && t.parents[e].value < e && e in t.kids[t.parents[e].value]
  }

  ghost predicate Listed(t: Tree, p: nat)
    requires |t.parents| == |t.kids| && p < |t.kids|
  {
    && (forall i :: 0 <= i < |t.kids[p]| ==> 0 < t.kids[p][i] < |t.kids| && t.parents[t.kids[p][i]] == Some(p))
    && (forall i, j :: 0 <= i < j < |t.kids[p]| ==> t.kids[p][i] != t.kids[p][j])
  }

  ghost function Parent(t: Tree, e: nat): (p: nat)
    requires Sound(t) && 0 < e < |t.names|
    ensures p < e && t.parents[e] == Some(p)
  {
    assert Placed(t, e);
    t.parents[e].value
  }

  /** `vfs_find_child` */
  ghost function Child(t: Tree, e: nat, name: string): (r: Option<nat>)
    requires Sound(t) && e < |t.names|
    ensures r.Some? ==> 0 < r.value < |t.names| && t.parents[r.value] == Some(e) && t.names[r.value] == name
  {
    assert Listed(t, e);
    First(t.names, t.kids[e], name)
  }

  /** One path component. */
  ghost function Step(t: Tree, at: nat, component: string): (r: Option<nat>)
    requires Sound(t) && at < |t.names|
    ensures r.Some? ==> r.value < |t.names|
  {
    if component == "." then Some(at)
    else if component == ".." then Some(if t.parents[at].Some? then Parent(t, at) else at)
    else Child(t, at, component)
  }

  /** Where the first component ends. */
  function SlashAt(path: string): (n: nat)
    ensures n <= |path| && '/' !in path[..n] && (n < |path| ==> path[n] == '/')
  {
    if path == "" || path[0] == '/' then 0
    else
      assert forall c :: c in path[..1 + SlashAt(path[1..])] ==> c == path[0] || c in path[1..][..SlashAt(path[1..])];
      1 + SlashAt(path[1..])
  }

  /** What is left of a path behind a component of n characters. */
  function After(path: string, n: nat): (rest: string)
    requires n <= |path|
    ensures path != "" ==> |rest| < |path|
  {
    if n < |path| then path[n + 1..] else if path == "" then path else ""
  }

  /** Component by component. */
  ghost function Walk(t: Tree, at: nat, path: string): (r: Option<nat>)
    requires Sound(t) && at < |t.names|
    ensures r.Some? ==> r.value < |t.names|
    decreases |path|
  {
    if path == "" then Some(at)
    else if SlashAt(path) >= COMPONENT_SIZE then None
    else
      var next := Step(t, at, path[..SlashAt(path)]);
      if next.None? then None else Walk(t, next.value, After(path, SlashAt(path)))
  }

  /** `vfs_find_entry` */
  ghost function Find(t: Tree, current: nat, path: string): (r: Option<nat>)
    requires Sound(t) && current < |t.names|
    ensures r.Some? ==> r.value < |t.names|
  {
    if path == "" then None
    else if path[0] == '/' then Walk(t, 0, path[1..])
    else Walk(t, current, path)
  }

  // ---------------------------------------------------------------- printing

  /** `vfs_path` */
  ghost function Printed(t: Tree, e: nat): (path: string)
    requires Sound(t) && e < |t.names|
    decreases e
  {
    (if t.parents[e].Some? then Printed(t, Parent(t, e)) else "") + t.names[e] + "/"
  }

  /** A name that path lookup takes as the name of a child. */
  predicate Proper(name: string) {
    |name| < 256 && '/' !in name && name != "." && name != ".."
  }

  /** From the root down, every name is proper and no older sibling bears it. */
  ghost predicate Addressable(t: Tree, e: nat)
    requires Sound(t) && e < |t.names|
    decreases e
  {
    e == 0 || (Proper(t.names[e]) && Child(t, Parent(t, e), t.names[e]) == Some(e) && Addressable(t, Parent(t, e)))
  }

  lemma {:induction false} PrintedStarts(t: Tree, e: nat)
    requires Sound(t) && e < |t.names|
    ensures Printed(t, e) != "" && Printed(t, e)[0] == '/' && Printed(t, e)[|Printed(t, e)| - 1] == '/'
    decreases e
  {
    if e > 0 {
      PrintedStarts(t, Parent(t, e));
    }
  }

  lemma {:induction false} SlashOfConcat(name: string, rest: string)
    requires '/' !in name
    ensures SlashAt(name + ['/'] + rest) == |name|
    ensures (name + ['/'] + rest)[..|name|] == name && After(name + ['/'] + rest, |name|) == rest
  {
    var path := name + ['/'] + rest;
    if name != "" {
      assert path[1..] == name[1..] + ['/'] + rest;
      SlashOfConcat(name[1..], rest);
    }
  }

  lemma {:induction false} SlashInside(p: string)
    requires p != "" && p[|p| - 1] == '/'
    ensures SlashAt(p) < |p|
  {
    if p[0] != '/' {
      SlashInside(p[1..]);
    }
  }

  lemma CutAt(p: string, n: nat)
    requires n < |p|
    ensures p == p[..n] + [p[n]] + p[n + 1..]
  {
  }

  /** A path that ends in a slash has a first component and a rest that, if there is any, ends in a slash again. */
  lemma SlashThere(p: string)
    requires p != "" && p[|p| - 1] == '/'
    ensures SlashAt(p) < |p| && p == p[..SlashAt(p)] + ['/'] + After(p, SlashAt(p))
    ensures After(p, SlashAt(p)) == "" || After(p, SlashAt(p))[|After(p, SlashAt(p))| - 1] == '/'
  {
    SlashInside(p);
    CutAt(p, SlashAt(p));
  }

  lemma SlashInFront(p: string, q: string)
    requires p != "" && p[|p| - 1] == '/'
    ensures SlashAt(p + q) == SlashAt(p) < |p|
    ensures (p + q)[..SlashAt(p)] == p[..SlashAt(p)] && After(p + q, SlashAt(p)) == After(p, SlashAt(p)) + q
    ensures After(p, SlashAt(p)) == "" || After(p, SlashAt(p))[|After(p, SlashAt(p))| - 1] == '/'
  {
    SlashThere(p);
    FrontOfConcat(p, p[..SlashAt(p)], After(p, SlashAt(p)), q);
  }

  lemma FrontOfConcat(p: string, name: string, rest: string, q: string)
    requires '/' !in name && p == name + ['/'] + rest
    ensures SlashAt(p + q) == |name| && (p + q)[..|name|] == name && After(p + q, |name|) == rest + q
  {
    SlashOfConcat(name, rest + q);
    assert p + q == name + ['/'] + (rest + q);
  }

  /** A path may be walked in two parts, cut behind a slash. */
  lemma {:induction false} WalkInParts(t: Tree, at: nat, p: string, q: string)
    requires Sound(t) && at < |t.names| && (p == "" || p[|p| - 1] == '/')
    ensures Walk(t, at, p + q) == if Walk(t, at, p).None? then None else Walk(t, Walk(t, at, p).value, q)
    decreases |p|
  {
    hide Sound, First;
    if p == "" {
      assert p + q == q;
    } else {
      SlashInFront(p, q);
      var n := SlashAt(p);
      if n < COMPONENT_SIZE {
        var next := Step(t, at, p[..n]);
        if next.Some? {
          WalkInParts(t, next.value, After(p, n), q);
        }
      }
    }
  }

  lemma WalkOne(t: Tree, at: nat, name: string)
    requires Sound(t) && at < |t.names| && Proper(name)
    ensures Walk(t, at, name + "/") == Child(t, at, name)
  {
    hide Sound, First;
    assert name + "/" == name + ['/'] + "";
    SlashOfConcat(name, "");
    if Child(t, at, name).Some? {
      assert Walk(t, Child(t, at, name).value, "") == Child(t, at, name);
    }
  }

  /** The printed path of an addressable entry leads to it, from wherever one starts. */
  lemma {:induction false} PrintedLeadsBack(t: Tree, current: nat, e: nat)
    requires Sound(t) && current < |t.names| && e < |t.names| && Addressable(t, e)
    ensures Find(t, current, Printed(t, e)) == Some(e)
    decreases e
  {
    hide First, Walk, SlashAt;
    PrintedStarts(t, e);
    if e == 0 {
      WalkNothing(t, 0);
      assert Printed(t, e) == "/";
    } else {
      var p, name := Parent(t, e), t.names[e];
      PrintedLeadsBack(t, current, p);
      PrintedStarts(t, p);
      var front := Printed(t, p)[1..];
      assert Printed(t, e)[1..] == front + (name + "/");
      WalkInParts(t, 0, front, name + "/");
      WalkOne(t, p, name);
    }
  }

  lemma WalkNothing(t: Tree, at: nat)
    requires Sound(t) && at < |t.names|
    ensures Walk(t, at, "") == Some(at)
  {
  }

  /** From an addressable place a path leads to addressable entries only. */
  lemma {:induction false} WalkStaysAddressable(t: Tree, at: nat, path: string)
    requires Sound(t) && at < |t.names| && Addressable(t, at) && Walk(t, at, path).Some?
    ensures Addressable(t, Walk(t, at, path).value)
    decreases |path|
  {
    hide First;
    if path != "" {
      var n := SlashAt(path);
      var next := Step(t, at, path[..n]);
      assert Addressable(t, next.value);
      WalkStaysAddressable(t, next.value, After(path, n));
    }
  }

  /** Printing and looking up are inverse exactly for the addressable entries. */
  lemma RoundTrip(t: Tree, current: nat, e: nat)
    requires Sound(t) && current < |t.names| && e < |t.names|
    ensures Find(t, current, Printed(t, e)) == Some(e) <==> Addressable(t, e)
  {
    PrintedStarts(t, e);
    if Addressable(t, e) {
      PrintedLeadsBack(t, current, e);
    } else if Find(t, current, Printed(t, e)) == Some(e) {
      WalkStaysAddressable(t, 0, Printed(t, e)[1..]);
    }
  }

  /** If any absolute path finds an entry, then its printed path does. */
  lemma SomePathMeansPrintedPath(t: Tree, current: nat, e: nat, path: string)
    requires Sound(t) && current < |t.names| && path != "" && path[0] == '/' && Find(t, current, path) == Some(e)
    ensures Find(t, current, Printed(t, e)) == Some(e)
  {
    WalkStaysAddressable(t, 0, path[1..]);
    RoundTrip(t, current, e);
  }

  /** A doubled slash is an empty component: it is walked as the name of a child, and means the same as one slash only where both lead nowhere. */
  lemma DoubledSlash(t: Tree, at: nat, rest: string)
    requires Sound(t) && at < |t.names|
    ensures Walk(t, at, "/" + rest) == if Child(t, at, "").Some? then Walk(t, Child(t, at, "").value, rest) else None
    ensures Child(t, at, "").None? ==> (Walk(t, at, "/" + rest) == Walk(t, at, rest) <==> Walk(t, at, rest).None?)
  {
    hide First, Sound;
    SlashOfConcat("", rest);
    assert "" + ['/'] + rest == "/" + rest;
  }

  // ---------------------------------------------------------------- a new entry

  /** The tree with a new entry at the end of a directory's list. */
  function Created(t: Tree, dir: nat, name: string): (r: Tree)
    requires dir < |t.kids|
  {
    Tree(t.names + [name], t.parents + [Some(dir)], t.kids[dir := t.kids[dir] + [|t.names|]] + [[]])
  }

  lemma CreatedSound(t: Tree, dir: nat, name: string)
    requires Sound(t) && dir < |t.names| && NUL !in name
    ensures Sound(Created(t, dir, name))
  {
    var r := Created(t, dir, name);
    forall e | 0 < e < |r.names|
      ensures Placed(r, e)
    {
      if e == |t.names| {
        assert r.kids[dir][|t.kids[dir]|] == e;
      } else {
        assert Placed(t, e);
        var p := t.parents[e].value;
        var i :| 0 <= i < |t.kids[p]| && t.kids[p][i] == e;
        assert r.kids[p][i] == e;
      }
    }
    forall p | 0 <= p < |r.names|
      ensures Listed(r, p)
    {
      assert p < |t.names| ==> Listed(t, p);
    }
  }

  lemma {:induction false} FirstAppend(names: seq<string>, more: string, kids: seq<nat>, name: string)
    requires forall i :: 0 <= i < |kids| ==> kids[i] < |names|
    ensures First(names + [more], kids + [|names|], name)
         == if First(names, kids, name).Some? then First(names, kids, name) else if more == name then Some(|names|) else None
    ensures First(names + [more], kids, name) == First(names, kids, name)
  {
    if kids != [] {
      assert (kids + [|names|])[1..] == kids[1..] + [|names|];
      FirstAppend(names, more, kids[1..], name);
    }
  }

  /** A new entry is found under its name in its directory unless an older one bears it; all else is found as before. */
  lemma CreatedChild(t: Tree, dir: nat, name: string, e: nat, wanted: string)
    requires Sound(t) && dir < |t.names| && NUL !in name && e < |t.names|
    ensures Sound(Created(t, dir, name))
    ensures Child(Created(t, dir, name), e, wanted)
         == if Child(t, e, wanted).None? && e == dir && wanted == name then Some(|t.names|) else Child(t, e, wanted)
  {
    CreatedSound(t, dir, name);
    assert Listed(t, e);
    FirstAppend(t.names, name, t.kids[e], wanted);
  }

  /** No path that led somewhere leads elsewhere after an entry was added. */
  lemma {:induction false} WalkKept(t: Tree, dir: nat, name: string, at: nat, path: string)
    requires Sound(t) && dir < |t.names| && NUL !in name && at < |t.names|
    ensures Sound(Created(t, dir, name))
    ensures Walk(t, at, path).Some? ==> Walk(Created(t, dir, name), at, path) == Walk(t, at, path)
    decreases |path|
  {
    hide First, Sound;
    CreatedSound(t, dir, name);
    if path != "" {
      var n := SlashAt(path);
      CreatedChild(t, dir, name, at, path[..n]);
      CreatedParents(t, dir, name, at);
      var next := Step(t, at, path[..n]);
      if next.Some? {
        WalkKept(t, dir, name, next.value, After(path, n));
      }
    }
  }

  lemma CreatedParents(t: Tree, dir: nat, name: string, e: nat)
    requires Sound(t) && dir < |t.names| && e < |t.names|
    ensures Created(t, dir, name).parents[e] == t.parents[e] && Created(t, dir, name).names[e] == t.names[e]
  {
  }

  lemma {:induction false} AddressableKept(t: Tree, dir: nat, name: string, e: nat)
    requires Sound(t) && dir < |t.names| && NUL !in name && e < |t.names|
    ensures Sound(Created(t, dir, name))
    ensures Addressable(Created(t, dir, name), e) <==> Addressable(t, e)
    ensures Printed(Created(t, dir, name), e) == Printed(t, e)
    decreases e
  {
    hide First;
    CreatedSound(t, dir, name);
    CreatedParents(t, dir, name, e);
    if e > 0 {
      var p := Parent(t, e);
      CreatedChild(t, dir, name, p, t.names[e]);
      AddressableKept(t, dir, name, p);
    }
  }

  /**
   Creating an entry disturbs no path that was found, and the new entry is found under its printed path exactly when
   its directory is addressable, its name is proper, and no entry of the directory had that name.
   */
  lemma CreateMeaning(t: Tree, dir: nat, name: string, current: nat)
    requires Sound(t) && dir < |t.names| && NUL !in name && current < |t.names|
    ensures var r := Created(t, dir, name);
      && Sound(r)
      && (forall path :: Find(t, current, path).Some? ==> Find(r, current, path) == Find(t, current, path))
      && Printed(r, |t.names|) == Printed(t, dir) + name + "/"
      && (Find(r, current, Printed(r, |t.names|)) == Some(|t.names|)
          <==> Addressable(t, dir) && Proper(name) && Child(t, dir, name).None?)
  {
    hide First, Walk;
    var r := Created(t, dir, name);
    CreatedSound(t, dir, name);
    forall path | Find(t, current, path).Some?
      ensures Find(r, current, path) == Find(t, current, path)
    {
      if path[0] == '/' {
        WalkKept(t, dir, name, 0, path[1..]);
      } else {
        WalkKept(t, dir, name, current, path);
      }
    }
    AddressableKept(t, dir, name, dir);
    CreatedChild(t, dir, name, dir, name);
    RoundTrip(r, current, |t.names|);
  }

  // ---------------------------------------------------------------- intrusive lists

  /** The i-th head of a directory's ring: the `children` head, the `sibling` node of each child, the head again. */
  function At(p: nat, kids: seq<nat>, i: nat): (h: nat)
    requires i <= |kids| + 1
  {
    if 0 < i <= |kids| then 2 * kids[i - 1] + 1 else 2 * p
  }

  /** Head i and head i + 1 of a ring point at each other. */
  predicate Linked(next: seq<nat>, prev: seq<nat>, p: nat, kids: seq<nat>, i: nat)
    requires i <= |kids|
  {
    && At(p, kids, i) < |next| && next[At(p, kids, i)] == At(p, kids, i + 1)
    && At(p, kids, i + 1) < |prev| && prev[At(p, kids, i + 1)] == At(p, kids, i)
  }

  /** `next` and `prev` go round the ring, and are inverse on it. */
  ghost predicate Ring(next: seq<nat>, prev: seq<nat>, p: nat, kids: seq<nat>) {
    forall i :: 0 <= i <= |kids| ==> Linked(next, prev, p, kids, i)
  }

  ghost predicate Rings(next: seq<nat>, prev: seq<nat>, t: Tree) {
    |next| == |prev| == 2 * |t.kids| && forall p :: 0 <= p < |t.kids| ==> Ring(next, prev, p, t.kids[p])
  }

  /** `init_list_head` for both heads of a new entry */
  function Grown(links: seq<nat>): (r: seq<nat>) {
    links + [|links|, |links| + 1]
  }

  /** `list_add_tail` on the next pointers, then on the prev pointers */
  function NextAdded(next: seq<nat>, prev: seq<nat>, node: nat, head: nat): (r: seq<nat>)
    requires node < |next| == |prev| && head < |prev| && prev[head] < |next|
  {
    next[node := head][prev[head] := node]
  }

  function PrevAdded(prev: seq<nat>, node: nat, head: nat): (r: seq<nat>)
    requires node < |prev| && head < |prev|
  {
    prev[node := prev[head]][head := node]
  }

  lemma RingGrows(next: seq<nat>, prev: seq<nat>, p: nat, kids: seq<nat>)
    requires Ring(next, prev, p, kids) && |next| == |prev|
    ensures Ring(Grown(next), Grown(prev), p, kids)
  {
    forall i | 0 <= i <= |kids|
      ensures Linked(Grown(next), Grown(prev), p, kids, i)
    {
      assert Linked(next, prev, p, kids, i);
    }
  }

  /** Where the new node goes: between the last child and the head. */
  lemma LastOf(next: seq<nat>, prev: seq<nat>, p: nat, kids: seq<nat>)
    requires Ring(next, prev, p, kids) && |next| == |prev|
    ensures 2 * p < |prev| && prev[2 * p] == At(p, kids, |kids|) < |next|
  {
    assert Linked(next, prev, p, kids, |kids|);
  }

  lemma LinkAdded(next: seq<nat>, prev: seq<nat>, p: nat, kids: seq<nat>, c: nat, i: nat)
    requires Ring(next, prev, p, kids) && |next| == |prev| && 2 * c + 1 < |next| && c !in kids && i <= |kids| + 1
    requires forall k :: 0 <= k < |kids| - 1 ==> kids[k] != kids[|kids| - 1]
    ensures 2 * p < |prev| && prev[2 * p] < |next|
    ensures Linked(NextAdded(next, prev, 2 * c + 1, 2 * p), PrevAdded(prev, 2 * c + 1, 2 * p), p, kids + [c], i)
  {
    LastOf(next, prev, p, kids);
    var last := |kids|;
    var more, node, head := kids + [c], 2 * c + 1, 2 * p;
    if i < last {
      assert Linked(next, prev, p, kids, i);
      assert At(p, more, i) == At(p, kids, i) && At(p, more, i + 1) == At(p, kids, i + 1);
      assert At(p, kids, i) != At(p, kids, last);
      assert At(p, kids, i) != node && At(p, kids, i + 1) != node;
    } else if i == last {
      assert At(p, more, i) == At(p, kids, last) && At(p, more, i + 1) == node;
      assert At(p, kids, last) != node;
    } else {
      assert At(p, more, i) == node && At(p, more, i + 1) == head;
      assert At(p, kids, last) != node;
    }
  }

  lemma RingAdded(next: seq<nat>, prev: seq<nat>, p: nat, kids: seq<nat>, c: nat)
    requires Ring(next, prev, p, kids) && |next| == |prev| && 2 * c + 1 < |next| && c !in kids
    requires forall i, j :: 0 <= i < j < |kids| ==> kids[i] != kids[j]
    ensures 2 * p < |prev| && prev[2 * p] < |next|
    ensures Ring(NextAdded(next, prev, 2 * c + 1, 2 * p), PrevAdded(prev, 2 * c + 1, 2 * p), p, kids + [c])
  {
    hide Linked, NextAdded, PrevAdded;
    LastOf(next, prev, p, kids);
    var next', prev', more := NextAdded(next, prev, 2 * c + 1, 2 * p), PrevAdded(prev, 2 * c + 1, 2 * p), kids + [c];
    forall i | 0 <= i <= |more|
      ensures Linked(next', prev', p, more, i)
    {
      LinkAdded(next, prev, p, kids, c, i);
    }
  }

  /** The other rings do not notice. */
  lemma RingApart(next: seq<nat>, prev: seq<nat>, q: nat, others: seq<nat>, p: nat, kids: seq<nat>, c: nat)
    requires Ring(next, prev, q, others) && Ring(next, prev, p, kids) && |next| == |prev| && 2 * c + 1 < |next|
    requires p != q && c !in others && forall k :: k in kids ==> k !in others
    ensures 2 * p < |prev| && prev[2 * p] < |next|
    ensures Ring(NextAdded(next, prev, 2 * c + 1, 2 * p), PrevAdded(prev, 2 * c + 1, 2 * p), q, others)
  {
    LastOf(next, prev, p, kids);
    var next', prev' := NextAdded(next, prev, 2 * c + 1, 2 * p), PrevAdded(prev, 2 * c + 1, 2 * p);
    forall i | 0 <= i <= |others|
      ensures Linked(next', prev', q, others, i)
    {
      assert Linked(next, prev, q, others, i);
      NodeApart(q, others, i, p, kids, c);
      NodeApart(q, others, i + 1, p, kids, c);
    }
  }

  lemma NodeApart(q: nat, others: seq<nat>, i: nat, p: nat, kids: seq<nat>, c: nat)
    requires p != q && c !in others && (forall k :: k in kids ==> k !in others) && i <= |others| + 1
    ensures At(q, others, i) != 2 * c + 1 && At(q, others, i) != 2 * p && At(q, others, i) != At(p, kids, |kids|)
  {
    assert kids != [] ==> kids[|kids| - 1] in kids;
  }

  /** All rings after a new entry went to the end of a directory's list. */
  lemma RingsAdded(next: seq<nat>, prev: seq<nat>, t: Tree, dir: nat, name: string)
    requires Sound(t) && Rings(next, prev, t) && dir < |t.kids|
    ensures var c, g := |t.kids|, Grown(prev);
      && g[2 * dir] < |Grown(next)|
      && Rings(NextAdded(Grown(next), g, 2 * c + 1, 2 * dir), PrevAdded(g, 2 * c + 1, 2 * dir), Created(t, dir, name))
  {
    hide Ring, NextAdded, PrevAdded;
    var c := |t.kids|;
    var next1, prev1, r := Grown(next), Grown(prev), Created(t, dir, name);
    forall p | 0 <= p < |t.kids|
      ensures Ring(next1, prev1, p, t.kids[p]) && c !in t.kids[p]
    {
      assert Listed(t, p);
      RingGrows(next, prev, p, t.kids[p]);
    }
    EmptyRing(next, prev, c);
    assert Listed(t, dir);
    RingAdded(next1, prev1, dir, t.kids[dir], c);
    AddedLengths(next1, prev1, 2 * c + 1, 2 * dir);
    forall q | 0 <= q <= c
      ensures Ring(NextAdded(next1, prev1, 2 * c + 1, 2 * dir), PrevAdded(prev1, 2 * c + 1, 2 * dir), q, r.kids[q])
    {
      if q == dir {
        assert r.kids[q] == t.kids[dir] + [c];
      } else {
        if q < c {
          assert Listed(t, q);
        }
        assert r.kids[q] == if q == c then [] else t.kids[q];
        RingApart(next1, prev1, q, r.kids[q], dir, t.kids[dir], c);
      }
    }
  }

  lemma EmptyRing(next: seq<nat>, prev: seq<nat>, c: nat)
    requires |next| == |prev| == 2 * c
    ensures Ring(Grown(next), Grown(prev), c, [])
  {
  }

  lemma AddedLengths(next: seq<nat>, prev: seq<nat>, node: nat, head: nat)
    requires node < |next| == |prev| && head < |prev| && prev[head] < |next|
    ensures |NextAdded(next, prev, node, head)| == |PrevAdded(prev, node, head)| == |next|
  {
  }

  /** The first entry that bears the name, or none if i is behind the last. */
  lemma {:induction false} FirstIs(names: seq<string>, kids: seq<nat>, i: nat, name: string)
    requires (forall k :: 0 <= k < |kids| ==> kids[k] < |names|) && i <= |kids|
    requires (forall k :: 0 <= k < i ==> names[kids[k]] != name) && (i < |kids| ==> names[kids[i]] == name)
    ensures First(names, kids, name) == if i < |kids| then Some(kids[i]) else None
  {
    if i > 0 {
      FirstIs(names, kids[1..], i - 1, name);
    }
  }

  lemma LinkedAt(next: seq<nat>, prev: seq<nat>, p: nat, kids: seq<nat>, i: nat)
    requires Ring(next, prev, p, kids) && i <= |kids|
    ensures At(p, kids, i) < |next| && next[At(p, kids, i)] == At(p, kids, i + 1)
    ensures 0 < i ==> At(p, kids, i) / 2 == kids[i - 1]
  {
    assert Linked(next, prev, p, kids, i);
  }

  // ---------------------------------------------------------------- the entries in memory

  /** A buffer with a text and its terminator written over it from `at` on. */
  function Appended(buffer: string, at: nat, text: string): (r: string)
    requires at + |text| < |buffer|
    ensures |r| == |buffer| && r[at + |text|] == NUL
  {
    buffer[..at] + text + [NUL] + buffer[at + |text| + 1..]
  }

  lemma AppendedTwice(buffer: string, at: nat, one: string, two: string)
    requires at + |one| + |two| < |buffer|
    ensures Appended(Appended(buffer, at, one), at + |one|, two) == Appended(buffer, at, one + two)
  {
    var b := Appended(buffer, at, one);
    assert b[..at + |one|] == buffer[..at] + one;
    assert b[at + |one| + |two| + 1..] == buffer[at + |one| + |two| + 1..];
    assert buffer[..at] + (one + two) == buffer[..at] + one + two;
  }

  lemma AppendedNothing(buffer: string, at: nat)
    requires at < |buffer| && buffer[at] == NUL
    ensures Appended(buffer, at, "") == buffer
  {
  }

  /** Follows `kernel_strcat`: the terminator is looked for from `at` on; it is at z. */
  method StrCat(buffer: array<char>, at: nat, src: string, ghost z: nat)
    requires at <= z && z + |src| < buffer.Length && buffer[z] == NUL && NUL !in src
    requires forall k :: at <= k < z ==> buffer[k] != NUL
    modifies buffer
    ensures buffer[..] == Appended(old(buffer[..]), z, src)
  {
    ghost var was := buffer[..];
    var i, j := at, 0;
    while buffer[i] != NUL
      invariant at <= i <= z && buffer[..] == was
      decreases z - i
    {
      i := i + 1;
    }
    assert i == z;
    while j < |src|
      invariant j <= |src| && i == z + j && buffer[..] == was[..z] + src[..j] + was[z + j..]
    {
      buffer[i] := src[j];
      i, j := i + 1, j + 1;
    }
    buffer[i] := NUL;
  }

  class Entries {
    var names: seq<string>
    var parents: seq<Option<nat>>
    var next: seq<nat>
    var prev: seq<nat>
    ghost var kids: seq<seq<nat>>
    /** `PATH` */
    const path: array<char>

    ghost function View(): Tree
      reads this
    {
      Tree(names, parents, kids)
    }

    ghost predicate Valid()
      reads this
    {
      path.Length == PATH_SIZE && Sound(View()) && Rings(next, prev, View())
    }

    /** The tree part of `vfs_init`: the root and `dev` below it. */
    constructor ()
      ensures Valid() && fresh(path) && path.Length == 4096
      ensures View() == Created(Tree([""], [None], [[]]), 0, "dev")
    {
      path := new char[PATH_SIZE];
      names, parents, next, prev, kids := [""], [None], [0, 1], [0, 1], [[]];
      new;
      assert Ring(next, prev, 0, kids[0]);
      var dev := CreateEntry(0, "dev");
    }

    /** `vfs_create_entry`: `vfs_entry_init`, then `vfs_add_child` with `list_add_tail` */
    method CreateEntry(dir: nat, name: string) returns (e: nat)
      requires Valid() && dir < |names| && NUL !in name
      modifies this
      ensures Valid() && e == |old(names)| && View() == Created(old(View()), dir, name)
    {
      hide Sound, Rings;
      ghost var t := View();
      SoundRings(next, prev, t);
      RingsAdded(next, prev, t, dir, name);
      CreatedSound(t, dir, name);
      e := |names|;
      names := names + [name];
      parents := parents + [Some(dir)];
      next := next + [2 * e, 2 * e + 1];
      prev := prev + [2 * e, 2 * e + 1];
      var node, head := 2 * e + 1, 2 * dir;
      prev := prev[node := prev[head]];
      next := next[node := head];
      next := next[prev[head] := node];
      prev := prev[head := node];
      kids := kids[dir := kids[dir] + [e]] + [[]];
    }

    /** `vfs_find_child` */
    method FindChild(parent: nat, name: string) returns (r: Option<nat>)
      requires Valid() && parent < |names|
      ensures r == Child(View(), parent, name)
    {
      hide Sound, First, Linked;
      ghost var t := View();
      SoundRings(next, prev, t);
      ghost var list := kids[parent];
      SoundList(t, parent);
      LinkedAt(next, prev, parent, list, 0);
      var pos := next[2 * parent];
      ghost var i := 0;
      while pos != 2 * parent
        invariant 0 <= i <= |list| && pos == At(parent, list, i + 1)
        invariant forall k :: 0 <= k < i ==> names[list[k]] != name
        decreases |list| - i
      {
        LinkedAt(next, prev, parent, list, i + 1);
        var child := pos / 2;
        assert child == list[i];
        if names[child] == name {
          FirstIs(names, list, i, name);
          return Some(child);
        }
        pos := next[pos];
        i := i + 1;
      }
      FirstIs(names, list, i, name);
      return None;
    }

    /** `vfs_find_entry` */
    method FindEntry(current: nat, wanted: string) returns (r: Option<nat>)
      requires Valid() && current < |names| && |wanted| < path.Length && NUL !in wanted
      modifies path
      ensures r == Find(View(), current, wanted)
    {
      hide Sound, Rings, Walk, SlashAt, Step, Child;
      if wanted == "" {
        return None;
      }
      ghost var t := View();
      StrCpy(wanted);
      var at: nat, i: nat := current, 0;
      if path[0] == '/' {
        at, i := 0, 1;
      }
      SoundRings(next, prev, t);
      while path[i] != NUL
        invariant i <= |wanted| && at < |names| && Valid() && Holds(path[..], wanted)
        invariant Walk(t, at, wanted[i..]) == Find(t, current, wanted)
        decreases |wanted| - i
      {
        ghost var rest := wanted[i..];
        var slash := NextSlash(i, wanted);
        WalkTurn(t, at, rest);
        if slash - i >= COMPONENT_SIZE {
          return None;
        }
        var component := path[i..slash];
        assert component == rest[..SlashAt(rest)];
        var after := Follow(at, component);
        if after.None? {
          return None;
        }
        at := after.value;
        i := if path[slash] != NUL then slash + 1 else slash;
        assert wanted[i..] == After(rest, SlashAt(rest));
      }
      WalkNothing(t, at);
      assert wanted[i..] == "";
      return Some(at);
    }

    /** One turn of the loop in `vfs_find_entry`. */
    method Follow(at: nat, component: string) returns (r: Option<nat>)
      requires Valid() && at < |names|
      ensures r == Step(View(), at, component)
    {
      if component == "." {
        return Some(at);
      } else if component == ".." {
        return if parents[at].Some? then parents[at] else Some(at);
      }
      r := FindChild(at, component);
    }

    /** `kernel_strcpy` into `PATH` */
    method StrCpy(wanted: string)
      requires |wanted| < path.Length && NUL !in wanted
      modifies path
      ensures Holds(path[..], wanted)
    {
      var i := 0;
      while i < |wanted|
        invariant 0 <= i <= |wanted| && path[..i] == wanted[..i]
      {
        path[i] := wanted[i];
        i := i + 1;
      }
      path[i] := NUL;
    }

    /** The inner scan: up to the next slash or the terminator. */
    method NextSlash(i: nat, wanted: string) returns (slash: nat)
      requires Holds(path[..], wanted) && i <= |wanted|
      ensures slash == i + SlashAt(wanted[i..])
    {
      slash := i;
      ghost var rest := wanted[i..];
      while path[slash] != NUL && path[slash] != '/'
        invariant i <= slash <= |wanted|
        invariant SlashAt(rest) == slash - i + SlashAt(wanted[slash..])
        decreases |wanted| - slash
      {
        assert wanted[slash..][1..] == wanted[slash + 1..];
        slash := slash + 1;
      }
    }

    /** `vfs_path`: appends the path of an entry at the offset, which holds the terminator. */
    method PrintPath(dir: nat, buffer: array<char>, offset: nat) returns (end: nat)
      requires Valid() && dir < |names| && buffer != path
      requires offset + |Printed(View(), dir)| < buffer.Length && buffer[offset] == NUL
      modifies buffer
      ensures end == offset + |Printed(View(), dir)| && buffer[end] == NUL
      ensures buffer[..] == Appended(old(buffer[..]), offset, Printed(View(), dir))
      decreases dir
    {
      hide Sound, Rings, Appended;
      ghost var t := View();
      ghost var was := buffer[..];
      SoundRings(next, prev, t);
      end := offset;
      ghost var front := "";
      AppendedNothing(was, offset);
      if parents[dir].Some? {
        front := Printed(t, Parent(t, dir));
        end := PrintPath(parents[dir].value, buffer, offset);
      }
      ghost var b := buffer[..];
      assert b[end] == NUL;
      StrCat(buffer, end, names[dir], end);
      AppendedTwice(was, offset, front, names[dir]);
      end := end + |names[dir]|;
      b := buffer[..];
      assert b[end] == NUL;
      buffer[end] := NUL;
      assert buffer[..] == b;
      StrCat(buffer, end, "/", end);
      AppendedTwice(was, offset, front + names[dir], "/");
      end := end + 1;
      b := buffer[..];
      assert b[end] == NUL;
      buffer[end] := NUL;
      assert buffer[..] == b;
    }
  }

  /** A C string in a buffer. */
  ghost predicate Holds(buffer: string, text: string) {
    |text| < |buffer| && buffer[..|text|] == text && buffer[|text|] == NUL && NUL !in text
  }

  lemma SoundRings(next: seq<nat>, prev: seq<nat>, t: Tree)
    requires Sound(t) && Rings(next, prev, t)
    ensures |t.names| == |t.parents| == |t.kids| > 0 && |next| == |prev| == 2 * |t.names|
    ensures forall e :: 0 <= e < |t.names| ==> NUL !in t.names[e]
  {
  }

  lemma SoundList(t: Tree, p: nat)
    requires Sound(t) && p < |t.kids|
    ensures forall i :: 0 <= i < |t.kids[p]| ==> t.kids[p][i] < |t.names|
  {
    assert Listed(t, p);
  }

  lemma WalkTurn(t: Tree, at: nat, path: string)
    requires Sound(t) && at < |t.names| && path != ""
    ensures Walk(t, at, path)
         == if SlashAt(path) >= COMPONENT_SIZE || Step(t, at, path[..SlashAt(path)]).None? then None
            else Walk(t, Step(t, at, path[..SlashAt(path)]).value, After(path, SlashAt(path)))
  {
  }
}

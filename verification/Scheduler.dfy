/**
 The round-robin scheduler: a circular doubly-linked ring of processes whose head is the current one.
 A ring is written as the sequence met by following `next` from the head.
 */
module Scheduler {

  type Pid = nat

  // ---------------------------------------------------------------- rings as sequences

  ghost predicate NoRepeat(s: seq<Pid>) {
    forall i, j :: 0 <= i < j < |s| ==> s[i] != s[j]
  }

  /** The order in which `scheduler_nextProcess` looks at the processes: the head comes last. */
  function Turn(ring: seq<Pid>): (t: seq<Pid>)
    requires ring != []
    ensures |t| == |ring|
  {
    ring[1..] + [ring[0]]
  }

  /** The members not in `blocked`, in order. */
  function Runnable(s: seq<Pid>, blocked: set<Pid>): (r: seq<Pid>)
    ensures forall x :: x in r <==> x in s && x !in blocked
  {
    if s == [] then [] else (if s[0] in blocked then [] else [s[0]]) + Runnable(s[1..], blocked)
  }

  /** How many blocked members come first. */
  function Skip(s: seq<Pid>, blocked: set<Pid>): (k: nat)
    ensures k <= |s| && (forall i :: 0 <= i < k ==> s[i] in blocked) && (k < |s| ==> s[k] !in blocked)
  {
    if s == [] || s[0] !in blocked then 0 else 1 + Skip(s[1..], blocked)
  }

  /** Turning a sequence so that position k comes first. */
  function Rotate(s: seq<Pid>, k: nat): (r: seq<Pid>)
    requires k <= |s|
    ensures |r| == |s|
  {
    s[k..] + s[..k]
  }

  /** The ring after `scheduler_nextProcess`: the first runnable process behind the head becomes the head. */
  function NextRing(ring: seq<Pid>, blocked: set<Pid>): (r: seq<Pid>)
    requires ring != []
    ensures |r| == |ring|
  {
    Rotate(Turn(ring), Skip(Turn(ring), blocked))
  }

  /** What happens to a ring when a new process is scheduled: it comes behind the head and becomes the head. */
  function AddRing(ring: seq<Pid>, x: Pid): (r: seq<Pid>) {
    if ring == [] then [x] else [x] + Turn(ring)
  }

  lemma {:induction false} RunnableAppend(s: seq<Pid>, t: seq<Pid>, blocked: set<Pid>)
    ensures Runnable(s + t, blocked) == Runnable(s, blocked) + Runnable(t, blocked)
  {
    if s == [] {
      assert s + t == t;
    } else {
      assert (s + t)[1..] == s[1..] + t;
      RunnableAppend(s[1..], t, blocked);
    }
  }

  lemma {:induction false} RunnableNone(s: seq<Pid>, blocked: set<Pid>)
    requires forall x :: x in s ==> x in blocked
    ensures Runnable(s, blocked) == []
  {
    if s != [] {
      RunnableNone(s[1..], blocked);
    }
  }

  lemma RunnableOne(x: Pid, blocked: set<Pid>)
    requires x !in blocked
    ensures Runnable([x], blocked) == [x]
  {
    assert [x][1..] == [];
  }

  /** Turning past blocked members to the first runnable one puts that one at the end of the order. */
  lemma RotateRunnable(a: seq<Pid>, x: Pid, b: seq<Pid>, blocked: set<Pid>)
    requires (forall y :: y in a ==> y in blocked) && x !in blocked
    ensures Runnable(a + ([x] + b), blocked) == [x] + Runnable(b, blocked)
    ensures Runnable((b + a) + [x], blocked) == Runnable(b, blocked) + [x]
  {
    hide Runnable;
    RunnableAppend(a, [x] + b, blocked);
    RunnableAppend([x], b, blocked);
    RunnableNone(a, blocked);
    RunnableOne(x, blocked);
    RunnableAppend(b + a, [x], blocked);
    RunnableAppend(b, a, blocked);
  }

  lemma TurnOf(a: seq<Pid>, x: Pid, b: seq<Pid>)
    ensures Turn(([x] + b) + a) == (b + a) + [x]
  {
  }

  lemma SplitAt(t: seq<Pid>, k: nat)
    requires k < |t|
    ensures t == t[..k] + ([t[k]] + t[k + 1..]) && Rotate(t, k) == ([t[k]] + t[k + 1..]) + t[..k]
  {
  }

  /** One call picks the first runnable process in turn, which then waits longest. */
  lemma NextIsFirst(ring: seq<Pid>, blocked: set<Pid>)
    requires ring != [] && Runnable(Turn(ring), blocked) != []
    ensures var order, ring' := Runnable(Turn(ring), blocked), NextRing(ring, blocked);
      ring' != [] && ring'[0] == order[0] && Runnable(Turn(ring'), blocked) == order[1..] + [order[0]]
  {
    hide Runnable, Turn, Rotate;
    var t := Turn(ring);
    var k := Skip(t, blocked);
    if k == |t| {
      RunnableNone(t, blocked);
    }
    var a, x, b := t[..k], t[k], t[k + 1..];
    SplitAt(t, k);
    TurnOf(a, x, b);
    RotateRunnable(a, x, b, blocked);
    assert ([x] + Runnable(b, blocked))[1..] == Runnable(b, blocked);
  }

  /** The heads after n calls. */
  function Picks(ring: seq<Pid>, blocked: set<Pid>, n: nat): (p: seq<Pid>)
    requires ring != []
    ensures |p| == n
    decreases n
  {
    if n == 0 then [] else var ring' := NextRing(ring, blocked); [ring'[0]] + Picks(ring', blocked, n - 1)
  }

  lemma {:induction false} PicksFollowOrder(ring: seq<Pid>, blocked: set<Pid>, n: nat)
    requires ring != [] && Runnable(Turn(ring), blocked) != [] && n <= |Runnable(Turn(ring), blocked)|
    ensures Picks(ring, blocked, n) == Runnable(Turn(ring), blocked)[..n]
    decreases n
  {
    hide Runnable, Turn, NextRing;
    if n > 0 {
      var order, ring' := Runnable(Turn(ring), blocked), NextRing(ring, blocked);
      NextIsFirst(ring, blocked);
      PicksFollowOrder(ring', blocked, n - 1);
      assert (order[1..] + [order[0]])[..n - 1] == order[1..][..n - 1];
      assert order[..n] == [order[0]] + order[1..][..n - 1];
    }
  }

  /** With fixed flags, as many calls as there are runnable processes pick each of them once, in ring order. */
  lemma RoundRobin(ring: seq<Pid>, blocked: set<Pid>)
    requires ring != [] && Runnable(ring, blocked) != [] && NoRepeat(ring)
    ensures var order := Runnable(Turn(ring), blocked);
      && Picks(ring, blocked, |order|) == order && NoRepeat(order)
      && forall x :: x in order <==> x in ring && x !in blocked
  {
    var order := Runnable(Turn(ring), blocked);
    assert ring == [ring[0]] + ring[1..];
    assert Runnable(ring, blocked)[0] in order;
    PicksFollowOrder(ring, blocked, |order|);
    assert order[..|order|] == order;
    TurnNoRepeat(ring);
    RunnableNoRepeat(Turn(ring), blocked);
  }

  lemma TurnNoRepeat(ring: seq<Pid>)
    requires ring != [] && NoRepeat(ring)
    ensures NoRepeat(Turn(ring))
    ensures forall x :: x in Turn(ring) <==> x in ring
  {
    assert ring == [ring[0]] + ring[1..];
  }

  lemma {:induction false} RunnableNoRepeat(s: seq<Pid>, blocked: set<Pid>)
    requires NoRepeat(s)
    ensures NoRepeat(Runnable(s, blocked))
  {
    if s != [] {
      RunnableNoRepeat(s[1..], blocked);
      assert s[0] !in s[1..];
    }
  }

  // ---------------------------------------------------------------- links

  /** The member behind position i of the ring, and the one before it. */
  function After(ring: seq<Pid>, i: nat): Pid
    requires i < |ring|
  {
    if i + 1 == |ring| then ring[0] else ring[i + 1]
  }

  function Prior(ring: seq<Pid>, i: nat): Pid
    requires i < |ring|
  {
    if i == 0 then ring[|ring| - 1] else ring[i - 1]
  }

  ghost predicate LinkOf(ring: seq<Pid>, nxt: map<Pid, Pid>, lst: map<Pid, Pid>, i: nat)
    requires i < |ring|
  {
    ring[i] in nxt && ring[i] in lst && nxt[ring[i]] == After(ring, i) && lst[ring[i]] == Prior(ring, i)
  }

  /** Following nxt from any member runs through the ring and back to it; lst runs the other way. */
  ghost predicate Linked(ring: seq<Pid>, nxt: map<Pid, Pid>, lst: map<Pid, Pid>) {
    forall i :: 0 <= i < |ring| ==> LinkOf(ring, nxt, lst, i)
  }

  lemma LinkedRotate(ring: seq<Pid>, nxt: map<Pid, Pid>, lst: map<Pid, Pid>, k: nat)
    requires Linked(ring, nxt, lst) && k <= |ring|
    ensures Linked(Rotate(ring, k), nxt, lst)
  {
    hide LinkOf;
    forall i | 0 <= i < |ring|
      ensures LinkOf(Rotate(ring, k), nxt, lst, i)
    {
      LinkRotated(ring, nxt, lst, k, i);
    }
  }

  lemma LinkRotated(ring: seq<Pid>, nxt: map<Pid, Pid>, lst: map<Pid, Pid>, k: nat, i: nat)
    requires Linked(ring, nxt, lst) && k <= |ring| && i < |ring|
    ensures LinkOf(Rotate(ring, k), nxt, lst, i)
  {
    var r, n := Rotate(ring, k), |ring|;
    var j := if i < n - k then k + i else i - (n - k);
    assert r[i] == ring[j];
    assert LinkOf(ring, nxt, lst, j);
  }

  lemma MembersRotate(ring: seq<Pid>, k: nat)
    requires k <= |ring|
    ensures forall x :: x in Rotate(ring, k) <==> x in ring
    ensures NoRepeat(ring) ==> NoRepeat(Rotate(ring, k))
  {
    var r, n := Rotate(ring, k), |ring|;
    assert ring == ring[..k] + ring[k..];
    assert forall i :: 0 <= i < n ==> r[i] == ring[if i < n - k then k + i else i - (n - k)];
  }

  /** `next` and `last` after `scheduler_schedule` on a non-empty ring. */
  lemma LinkedAdd(ring: seq<Pid>, nxt: map<Pid, Pid>, lst: map<Pid, Pid>, x: Pid)
    requires Linked(ring, nxt, lst) && NoRepeat(ring) && ring != [] && x !in ring
    ensures ring[0] in nxt && nxt[ring[0]] in ring
    ensures var head, second := ring[0], nxt[ring[0]];
      Linked(AddRing(ring, x), nxt[x := second][head := x], lst[second := x][x := head])
  {
    assert LinkOf(ring, nxt, lst, 0);
    var r, n := AddRing(ring, x), |ring|;
    var nxt', lst' := nxt[x := nxt[ring[0]]][ring[0] := x], lst[nxt[ring[0]] := x][x := ring[0]];
    forall i | 0 <= i < |r|
      ensures LinkOf(r, nxt', lst', i)
    {
      if 0 < i < n {
        assert LinkOf(ring, nxt, lst, i);
      }
    }
  }

  lemma MembersAdd(ring: seq<Pid>, x: Pid)
    requires NoRepeat(ring) && x !in ring
    ensures NoRepeat(AddRing(ring, x))
    ensures forall y :: y in AddRing(ring, x) <==> y in ring || y == x
  {
    if ring != [] {
      TurnNoRepeat(ring);
    }
  }

  /** The ring without its member at position j. */
  function Without(ring: seq<Pid>, j: nat): (r: seq<Pid>)
    requires j < |ring|
    ensures |r| == |ring| - 1
    ensures forall i :: 0 <= i < |r| ==> r[i] == if i < j then ring[i] else ring[i + 1]
  {
    ring[..j] + ring[j + 1..]
  }

  /** `next` and `last` after the unlinking in `schedule_end`. */
  lemma LinkedRemove(ring: seq<Pid>, nxt: map<Pid, Pid>, lst: map<Pid, Pid>, j: nat)
    requires Linked(ring, nxt, lst) && NoRepeat(ring) && j < |ring| && |ring| > 1
    ensures ring[j] in nxt && ring[j] in lst && nxt[ring[j]] in ring && lst[ring[j]] in ring && nxt[ring[j]] != ring[j] && lst[ring[j]] != ring[j]
    ensures var x := ring[j]; Linked(Without(ring, j), nxt[lst[x] := nxt[x]], lst[nxt[x] := lst[x]])
  {
    assert LinkOf(ring, nxt, lst, j);
    var x := ring[j];
    var nxt', lst' := nxt[lst[x] := nxt[x]], lst[nxt[x] := lst[x]];
    forall i | 0 <= i < |ring| - 1
      ensures LinkOf(Without(ring, j), nxt', lst', i)
    {
      assert LinkOf(ring, nxt, lst, if i < j then i else i + 1);
    }
  }

  lemma MembersRemove(ring: seq<Pid>, j: nat)
    requires NoRepeat(ring) && j < |ring|
    ensures NoRepeat(Without(ring, j))
    ensures forall y :: y in Without(ring, j) <==> y in ring && y != ring[j]
  {
    var r := Without(ring, j);
    forall y
      ensures y in r <==> y in ring && y != ring[j]
    {
      if y in ring && y != ring[j] {
        var i :| 0 <= i < |ring| && ring[i] == y;
        assert r[if i < j then i else i - 1] == y;
      }
    }
  }
}

/**
 Fork, exit, waitpid and timer ticks as steps of one machine: the scheduler's ring and the processes by pid.
 A process that exited with nobody waiting stays as a zombie; one with a waiter is freed at once.
 */
module WaitProtocol {
  import opened Scheduler

  /** The fields of `process_t` the protocol uses; `waiter` is `waiting_parent_pid`, 0 for none. */
  datatype Proc = Proc(blocked: bool, zombie: bool, waiter: Pid, rax: nat, status: nat)

  /** The ring starts with the current process; nextPid is the pid counter. */
  datatype State = State(ring: seq<Pid>, procs: map<Pid, Proc>, nextPid: nat)

  datatype Op = Tick | Fork | Exit(status: nat) | Wait(pid: Pid)

  function Blocked(procs: map<Pid, Proc>): (b: set<Pid>)
    ensures forall p :: p in b <==> p in procs && procs[p].blocked
  {
    set p | p in procs && procs[p].blocked
  }

  predicate Known(s: State) {
    s.ring != [] && forall i :: 0 <= i < |s.ring| ==> s.ring[i] in s.procs
  }

  function Current(s: State): (c: Pid)
    requires Known(s)
    ensures c in s.ring && c in s.procs
  {
    s.ring[0]
  }

  /** `launch_system_processes`: the pid counter starts at 0, so the first process has pid 0. */
  function Boot(status: nat): State {
    State([0], map[0 := Proc(false, false, 0, 0, status)], 1)
  }

  /** The timer case of `interrupt_handler` */
  function TickStep(s: State): State
    requires Known(s)
  {
    s.(ring := NextRing(s.ring, Blocked(s.procs)))
  }

  /** `process_fork`: the child runs next and sees 0, the parent sees the child's pid. */
  function ForkStep(s: State): State
    requires Known(s)
  {
    var c, child := Current(s), s.nextPid;
    State(AddRing(s.ring, child),
          s.procs[c := s.procs[c].(rax := child)][child := Proc(false, false, 0, 0, s.procs[c].status)],
          s.nextPid + 1)
  }

  /** Where x stands in the sequence, or its length. */
  function IndexOf(s: seq<Pid>, x: Pid): (j: nat)
    ensures j <= |s| && (j < |s| ==> s[j] == x) && (x in s ==> j < |s|)
  {
    if s == [] then 0 else if s[0] == x then 0 else 1 + IndexOf(s[1..], x)
  }

  /** `schedule_end` of the current process: turn to the next one, then unlink. */
  function EndRing(ring: seq<Pid>, blocked: set<Pid>): seq<Pid>
    requires ring != []
  {
    var turned := NextRing(ring, blocked);
    var j := IndexOf(turned, ring[0]);
    if j < |turned| then Without(turned, j) else turned
  }

  /** `process_exit` */
  function ExitStep(s: State, status: nat): State
    requires Known(s)
  {
    var c := Current(s);
    var w := s.procs[c].waiter;
    var ring := EndRing(s.ring, Blocked(s.procs));
    if w == 0 then s.(ring := ring, procs := s.procs[c := s.procs[c].(status := status, zombie := true)])
    else if w in s.procs then s.(ring := ring, procs := s.procs[w := s.procs[w].(rax := c, blocked := false)] - {c})
    else s.(ring := ring)
  }

  /** `sys_waitpid` */
  function WaitStep(s: State, pid: Pid): State
    requires Known(s) && pid in s.procs
  {
    var c := Current(s);
    if s.procs[pid].zombie then s.(procs := s.procs[c := s.procs[c].(rax := pid)])
    else
      var named := s.procs[pid := s.procs[pid].(waiter := c)];
      var procs := named[c := named[c].(blocked := true)];
      s.(ring := NextRing(s.ring, Blocked(procs)), procs := procs)
  }

  // ---------------------------------------------------------------- what every run keeps

  /** The ring holds each live process once, and the current one runs. */
  ghost predicate RingOk(s: State) {
    && s.ring != [] && NoRepeat(s.ring)
    && (forall p :: p in s.procs ==> p < s.nextPid && (p in s.ring <==> !s.procs[p].zombie))
    && (forall p :: p in s.ring ==> p in s.procs)
    && !s.procs[s.ring[0]].blocked
  }

  /** q names p as the process waiting for it; the name 0 stands for nobody. */
  predicate Awaits(procs: map<Pid, Proc>, p: Pid, q: Pid) {
    p != 0 && q in procs && procs[q].waiter == p
  }

  ghost predicate SomeChild(procs: map<Pid, Proc>, p: Pid) {
    exists q :: Awaits(procs, p, q)
  }

  /** A process named as waiter is blocked, and no two children name the same one. */
  ghost predicate NamesOk(procs: map<Pid, Proc>) {
    && (forall p, q :: Awaits(procs, p, q) ==> !procs[q].zombie && p in procs && procs[p].blocked && !procs[p].zombie)
    && forall p, q, q' :: Awaits(procs, p, q) && Awaits(procs, p, q') ==> q == q'
  }

  /** p is blocked and no exit will ever wake it. */
  ghost predicate Lost(procs: map<Pid, Proc>, p: Pid) {
    p in procs && procs[p].blocked && !SomeChild(procs, p)
  }

  /** What every run keeps, whatever its processes ask for. */
  ghost predicate Kept(s: State) {
    RingOk(s) && NamesOk(s.procs)
  }

  /** ... and no wakeup has been lost: a process is blocked exactly while one child names it. */
  ghost predicate Sound(s: State) {
    Kept(s) && forall p :: p in s.procs && s.procs[p].blocked ==> SomeChild(s.procs, p)
  }

  lemma KeptKnown(s: State)
    requires Kept(s)
    ensures Known(s)
  {
  }

  /** Some process other than the current one can run. */
  ghost predicate Another(s: State)
    requires Known(s)
  {
    exists x :: x in s.ring && x != Current(s) && x !in Blocked(s.procs)
  }

  /** What the kernel needs of its callers: whoever exits or blocks leaves another process to run, and a wait names a process that still exists. */
  ghost predicate Legal(s: State, op: Op)
    requires Known(s)
  {
    match op
    case Exit(_) => Another(s)
    case Wait(pid) => pid in s.procs && (s.procs[pid].zombie || Another(s))
    case _ => true
  }

  /** What a wakeup needs: process 0 does not wait for a running process, and nobody else waits for the same one. */
  predicate Careful(s: State, op: Op)
    requires Known(s)
  {
    match op
    case Wait(pid) => pid in s.procs && (s.procs[pid].zombie || (s.procs[pid].waiter == 0 && Current(s) != 0))
    case _ => true
  }

  function Step(s: State, op: Op): State
    requires Known(s) && (op.Wait? ==> op.pid in s.procs)
  {
    match op
    case Tick => TickStep(s)
    case Fork => ForkStep(s)
    case Exit(status) => ExitStep(s, status)
    case Wait(pid) => WaitStep(s, pid)
  }

  /** Turning the ring finds a runnable process if there is one. */
  lemma NextRuns(ring: seq<Pid>, blocked: set<Pid>, x: Pid)
    requires ring != [] && x in ring && x !in blocked
    ensures var r := NextRing(ring, blocked);
      && r != [] && r[0] !in blocked && (forall y :: y in r <==> y in ring) && (NoRepeat(ring) ==> NoRepeat(r))
  {
    TurnMembers(ring);
    NextIsFirst(ring, blocked);
    var t := Turn(ring);
    assert x in Runnable(t, blocked);
    assert Runnable(t, blocked)[0] in Runnable(t, blocked);
    MembersRotate(t, Skip(t, blocked));
    if NoRepeat(ring) {
      TurnNoRepeat(ring);
    }
  }

  lemma TurnMembers(ring: seq<Pid>)
    requires ring != []
    ensures forall x :: x in Turn(ring) <==> x in ring
  {
    assert ring == [ring[0]] + ring[1..];
  }

  lemma AddHead(ring: seq<Pid>, x: Pid)
    ensures AddRing(ring, x) != [] && AddRing(ring, x)[0] == x && |AddRing(ring, x)| == |ring| + 1
  {
  }

  /** With another runnable process the ring turns to it and loses its head. */
  lemma EndRingMeaning(ring: seq<Pid>, blocked: set<Pid>, other: Pid)
    requires ring != [] && NoRepeat(ring) && other in ring && other !in blocked && other != ring[0] && ring[0] !in blocked
    ensures var r := EndRing(ring, blocked);
      && r != [] && r[0] !in blocked && r[0] != ring[0] && NoRepeat(r)
      && forall x :: x in r <==> x in ring && x != ring[0]
  {
    hide NextRing, Runnable;
    NextRuns(ring, blocked, other);
    var turned := NextRing(ring, blocked);
    HeadMoves(ring, blocked, other);
    MembersRemove(turned, IndexOf(turned, ring[0]));
  }

  /** `scheduler_nextProcess` leaves the head only when another process can run. */
  lemma HeadMoves(ring: seq<Pid>, blocked: set<Pid>, other: Pid)
    requires ring != [] && NoRepeat(ring) && other in ring && other !in blocked && other != ring[0]
    ensures NextRing(ring, blocked) != [] && NextRing(ring, blocked)[0] != ring[0]
  {
    var t := Turn(ring);
    var k := Skip(t, blocked);
    TurnMembers(ring);
    var j :| 0 <= j < |ring| && ring[j] == other;
    assert t[j - 1] == other;
    assert t[k] == ring[k + 1];
  }

  /** `schedule_end` gives up the ending process exactly when another one can run; alone, it comes back as the current one. */
  lemma EndNeedsAnother(ring: seq<Pid>, blocked: set<Pid>)
    requires ring != [] && NoRepeat(ring) && ring[0] !in blocked
    ensures NextRing(ring, blocked) != []
    ensures NextRing(ring, blocked)[0] != ring[0] <==> exists x :: x in ring && x !in blocked && x != ring[0]
  {
    if x :| x in ring && x !in blocked && x != ring[0] {
      HeadMoves(ring, blocked, x);
    } else {
      var t := Turn(ring);
      TurnMembers(ring);
      var n := |t| - 1;
      assert t[n] == ring[0];
      var k := Skip(t, blocked);
      assert forall i :: 0 <= i < n ==> t[i] == ring[i + 1] && ring[i + 1] != ring[0];
      assert forall i :: 0 <= i < n ==> t[i] in blocked;
      assert k == n;
    }
  }

  /** The ring after the end of its head: the runnable process that comes first behind it, and the rest in order. */
  lemma EndOrder(ring: seq<Pid>, blocked: set<Pid>, k: nat)
    requires NoRepeat(ring) && 1 <= k < |ring| && ring[0] !in blocked && ring[k] !in blocked
    requires forall i :: 1 <= i < k ==> ring[i] in blocked
    ensures EndRing(ring, blocked) == ring[k..] + ring[1..k]
  {
    hide Skip, NoRepeat;
    TurnedTo(ring, blocked, k);
    var turned := ring[k..] + ring[..k];
    assert turned[|ring| - k] == ring[0];
    OnlyIndex(turned, |ring| - k, ring);
    assert Without(turned, |ring| - k) == ring[k..] + ring[1..k];
  }

  /** The ring after `scheduler_nextProcess`, when position k holds the first runnable process behind the head. */
  lemma TurnedTo(ring: seq<Pid>, blocked: set<Pid>, k: nat)
    requires 1 <= k < |ring| && ring[k] !in blocked && forall i :: 1 <= i < k ==> ring[i] in blocked
    ensures NextRing(ring, blocked) == ring[k..] + ring[..k]
  {
    var t := Turn(ring);
    assert forall i :: 0 <= i < |ring| - 1 ==> t[i] == ring[i + 1];
    SkipsTo(t, blocked, k - 1);
    assert t[k - 1..] + t[..k - 1] == ring[k..] + ring[..k];
  }

  lemma OnlyIndex(turned: seq<Pid>, j: nat, ring: seq<Pid>)
    requires NoRepeat(ring) && 0 < j < |ring| && turned == ring[|ring| - j..] + ring[..|ring| - j]
    ensures IndexOf(turned, ring[0]) == j
  {
    hide IndexOf;
    assert turned[j] == ring[0];
    forall l | 0 <= l < |turned| && l != j
      ensures turned[l] != ring[0]
    {
      var m := if l < j then |ring| - j + l else l - j;
      assert turned[l] == ring[m] && 0 < m < |ring|;
    }
  }

  lemma SkipsTo(s: seq<Pid>, blocked: set<Pid>, k: nat)
    requires k < |s| && s[k] !in blocked && forall i :: 0 <= i < k ==> s[i] in blocked
    ensures Skip(s, blocked) == k
  {
    hide Skip;
    assert Skip(s, blocked) <= k;
  }

  // ---------------------------------------------------------------- what each step does

  /**
   After a fork the child is the current process: it sees 0, runs, and nobody waits for it.  The parent, now last in turn,
   sees the child's pid, and nothing else changed.
   */
  lemma ForkMeaning(s: State)
    requires Kept(s) && Known(s)
    ensures var c, n, s' := Current(s), s.nextPid, ForkStep(s);
      && n !in s.procs && s'.nextPid == n + 1 && s'.ring == [n] + s.ring[1..] + [c] && s'.procs.Keys == s.procs.Keys + {n}
      && s'.procs[n].rax == 0 && !s'.procs[n].blocked && !s'.procs[n].zombie && s'.procs[n].waiter == 0
      && s'.procs[n].status == s.procs[c].status
      && s'.procs[c] == s.procs[c].(rax := n)
      && forall p :: p in s.procs && p != c ==> s'.procs[p] == s.procs[p]
  {
    hide NoRepeat, NamesOk;
    assert s.nextPid !in s.procs;
  }

  /**
   A wait for a running process names the caller in it and blocks the caller; no other field of any process changes, and the
   runnable process that comes first behind the caller takes its turn.
   */
  lemma WaitMeaning(s: State, pid: Pid, k: nat)
    requires Known(s) && pid in s.procs && !s.procs[pid].zombie
    requires 1 <= k < |s.ring| && NoRepeat(s.ring) && !s.procs[s.ring[k]].blocked && forall i :: 1 <= i < k ==> s.procs[s.ring[i]].blocked
    ensures var c, s' := Current(s), WaitStep(s, pid);
      && s'.nextPid == s.nextPid && s'.procs.Keys == s.procs.Keys && s'.ring == s.ring[k..] + s.ring[..k]
      && s'.procs[pid].waiter == c && s'.procs[c].blocked
      && forall p :: p in s.procs ==>
          && s'.procs[p].rax == s.procs[p].rax && s'.procs[p].zombie == s.procs[p].zombie && s'.procs[p].status == s.procs[p].status
          && (p != pid ==> s'.procs[p].waiter == s.procs[p].waiter) && (p != c ==> s'.procs[p].blocked == s.procs[p].blocked)
  {
    hide NextRing;
    assert forall i :: 1 <= i < |s.ring| ==> s.ring[i] != s.ring[0];
    TurnedTo(s.ring, Blocked(WaitStep(s, pid).procs), k);
  }

  // ---------------------------------------------------------------- every step keeps what runs keep

  lemma TickKept(s: State)
    requires Kept(s) && Known(s)
    ensures Kept(TickStep(s))
  {
    hide NextRing, NamesOk;
    NextRuns(s.ring, Blocked(s.procs), Current(s));
  }

  lemma ForkKept(s: State)
    requires Kept(s) && Known(s)
    ensures Kept(ForkStep(s))
  {
    hide NamesOk, AddRing;
    MembersAdd(s.ring, s.nextPid);
    AddHead(s.ring, s.nextPid);
    ForkNames(s);
  }

  lemma ForkNames(s: State)
    requires Kept(s) && Known(s)
    ensures forall p, q :: Awaits(ForkStep(s).procs, p, q) <==> Awaits(s.procs, p, q)
    ensures NamesOk(ForkStep(s).procs)
  {
    hide NoRepeat, AddRing;
  }

  lemma ExitKept(s: State, status: nat)
    requires Kept(s) && Known(s) && Another(s)
    ensures Kept(ExitStep(s, status))
  {
    hide EndRing, NamesOk;
    var x :| x in s.ring && x != Current(s) && x !in Blocked(s.procs);
    EndRingMeaning(s.ring, Blocked(s.procs), x);
    ExitNames(s, status);
    ExitBlocks(s, status);
  }

  lemma ExitNames(s: State, status: nat)
    requires Kept(s) && Known(s)
    ensures forall p, q :: Awaits(ExitStep(s, status).procs, p, q) <==> Awaits(s.procs, p, q) && q != Current(s)
    ensures NamesOk(ExitStep(s, status).procs)
  {
    hide EndRing, NoRepeat;
    var c, procs' := Current(s), ExitStep(s, status).procs;
    var w := s.procs[c].waiter;
    assert w != 0 ==> Awaits(s.procs, w, c);
    forall p, q
      ensures Awaits(procs', p, q) <==> Awaits(s.procs, p, q) && q != c
    {
    }
    forall p, q | Awaits(procs', p, q)
      ensures !procs'[q].zombie && p in procs' && procs'[p].blocked && !procs'[p].zombie
    {
      assert Awaits(s.procs, p, q);
      assert p != c;
    }
  }

  lemma ExitBlocks(s: State, status: nat)
    requires Kept(s) && Known(s)
    ensures var c, procs' := Current(s), ExitStep(s, status).procs;
      && (forall p :: p in procs' ==>
            p in s.procs && (procs'[p].blocked ==> s.procs[p].blocked) && (p != c ==> procs'[p].zombie == s.procs[p].zombie))
      && (c in procs' ==> procs'[c].zombie && !procs'[c].blocked) && (forall p :: p in s.procs && p != c ==> p in procs')
      && forall p :: p in s.procs && p != c && s.procs[c].waiter != p ==> procs'[p] == s.procs[p]
  {
    hide EndRing, NoRepeat;
    var c := Current(s);
    assert s.procs[c].waiter != 0 ==> Awaits(s.procs, s.procs[c].waiter, c);
  }

  lemma WaitKept(s: State, pid: Pid)
    requires Kept(s) && Known(s) && Legal(s, Wait(pid))
    ensures Kept(WaitStep(s, pid))
  {
    hide NextRing, NamesOk;
    WaitNames(s, pid);
    if !s.procs[pid].zombie {
      var x :| x in s.ring && x != Current(s) && x !in Blocked(s.procs);
      NextRuns(s.ring, Blocked(WaitStep(s, pid).procs), x);
    }
  }

  lemma WaitNames(s: State, pid: Pid)
    requires Kept(s) && Known(s) && pid in s.procs
    ensures s.procs[pid].zombie ==> forall p, q :: Awaits(WaitStep(s, pid).procs, p, q) <==> Awaits(s.procs, p, q)
    ensures !s.procs[pid].zombie ==>
        forall p, q :: Awaits(WaitStep(s, pid).procs, p, q)
          <==> if q == pid then p == Current(s) && p != 0 else Awaits(s.procs, p, q)
    ensures NamesOk(WaitStep(s, pid).procs)
  {
    hide NextRing, NoRepeat;
    var c, procs' := Current(s), WaitStep(s, pid).procs;
    assert forall q :: !Awaits(s.procs, c, q);
  }

  /** Whatever a legal step asks for, the ring and the names stay in order. */
  lemma StepKept(s: State, op: Op)
    requires Kept(s) && Known(s) && Legal(s, op)
    ensures Kept(Step(s, op)) && Known(Step(s, op))
  {
    hide Kept, TickStep, ForkStep, ExitStep, WaitStep, Known;
    match op {
      case Tick => TickKept(s);
      case Fork => ForkKept(s);
      case Exit(status) => ExitKept(s, status);
      case Wait(pid) => WaitKept(s, pid);
    }
    KeptKnown(Step(s, op));
  }

  // ---------------------------------------------------------------- when wakeups are lost

  /** A legal step loses no wakeup exactly when it is careful. */
  lemma StepExact(s: State, op: Op)
    requires Sound(s) && Known(s) && Legal(s, op)
    ensures Sound(Step(s, op)) <==> Careful(s, op)
  {
    hide Kept, NextRing, EndRing, AddRing;
    StepKept(s, op);
    if Careful(s, op) {
      forall p | p in Step(s, op).procs && Step(s, op).procs[p].blocked
        ensures SomeChild(Step(s, op).procs, p)
      {
        NotLost(s, op, p);
      }
    } else {
      CarelessLoses(s, op.pid);
    }
  }

  lemma NotLost(s: State, op: Op, p: Pid)
    requires Sound(s) && Known(s) && Legal(s, op) && Careful(s, op) && p in Step(s, op).procs && Step(s, op).procs[p].blocked
    ensures SomeChild(Step(s, op).procs, p)
  {
    hide NextRing, EndRing, AddRing, NoRepeat, NamesOk;
    var procs' := Step(s, op).procs;
    if op.Wait? && !s.procs[op.pid].zombie && p == Current(s) {
      assert Awaits(procs', p, op.pid);
    } else {
      if op.Exit? {
        ExitBlocks(s, op.status);
      }
      assert p in s.procs && s.procs[p].blocked;
      var q :| Awaits(s.procs, p, q);
      match op {
        case Tick =>
        case Fork => ForkNames(s);
        case Exit(status) => ExitNames(s, status); ExitWokeOther(s, status, p, q);
        case Wait(pid) => WaitNames(s, pid);
      }
      assert Awaits(procs', p, q);
    }
  }

  lemma ExitWokeOther(s: State, status: nat, p: Pid, q: Pid)
    requires Kept(s) && Known(s) && Awaits(s.procs, p, q) && p in ExitStep(s, status).procs && ExitStep(s, status).procs[p].blocked
    ensures q != Current(s)
  {
    hide EndRing, NoRepeat;
  }

  /** A careless wait loses the process that waited before, or, if nobody did, process 0 itself. */
  lemma CarelessLoses(s: State, pid: Pid)
    requires Kept(s) && Known(s) && Legal(s, Wait(pid)) && !Careful(s, Wait(pid))
    ensures Lost(WaitStep(s, pid).procs, if s.procs[pid].waiter != 0 then s.procs[pid].waiter else 0)
  {
    hide NextRing, NoRepeat;
    WaitNames(s, pid);
    var w, procs' := s.procs[pid].waiter, WaitStep(s, pid).procs;
    if w != 0 {
      assert Awaits(s.procs, w, pid);
      forall q
        ensures !Awaits(procs', w, q)
      {
        assert Awaits(s.procs, w, q) ==> q == pid;
      }
    }
  }

  /** Waiting for a running process loses no wakeup exactly when nobody waits for it yet and the caller is not process 0. */
  lemma OneWaiterExact(s: State, pid: Pid)
    requires Sound(s) && Known(s) && Legal(s, Wait(pid)) && !s.procs[pid].zombie
    ensures Sound(WaitStep(s, pid)) <==> s.procs[pid].waiter == 0 && Current(s) != 0
  {
    hide WaitStep, Sound;
    StepExact(s, Wait(pid));
  }

  /** A lost process stays lost, whatever happens. */
  lemma LostStep(s: State, op: Op, p: Pid)
    requires Kept(s) && Known(s) && Legal(s, op) && Lost(s.procs, p)
    ensures Lost(Step(s, op).procs, p)
  {
    hide NextRing, EndRing, AddRing, NoRepeat, NamesOk;
    assert p != Current(s);
    match op {
      case Tick =>
      case Fork => ForkNames(s);
      case Exit(status) =>
        ExitNames(s, status);
        ExitBlocks(s, status);
        assert !Awaits(s.procs, p, Current(s));
        ExitSparesZero(s, status, p);
      case Wait(pid) => WaitNames(s, pid);
    }
  }

  lemma ExitSparesZero(s: State, status: nat, p: Pid)
    requires Kept(s) && Known(s) && p in s.procs && p != Current(s) && (s.procs[Current(s)].waiter == p ==> p == 0)
    ensures p in ExitStep(s, status).procs && ExitStep(s, status).procs[p] == s.procs[p]
  {
    hide EndRing, NoRepeat;
    var c := Current(s);
    assert s.procs[c].waiter != 0 ==> Awaits(s.procs, s.procs[c].waiter, c);
  }

  // ---------------------------------------------------------------- exits and waits

  /** The exit of a child somebody waits for frees it and wakes exactly that process, with the child's pid as the result. */
  lemma ExitWakesWaiter(s: State, status: nat)
    requires Kept(s) && Known(s) && Another(s) && s.procs[Current(s)].waiter != 0
    ensures var c, s' := Current(s), ExitStep(s, status); var w := s.procs[c].waiter;
      && s'.procs.Keys == s.procs.Keys - {c} && w in s'.ring && w in s'.procs && !s'.procs[w].blocked && s'.procs[w].rax == c
      && s'.procs[w].zombie == s.procs[w].zombie && s'.procs[w].waiter == s.procs[w].waiter && s'.procs[w].status == s.procs[w].status
      && forall p :: p in s.procs && p != c && p != w ==> p in s'.procs && s'.procs[p] == s.procs[p]
  {
    hide EndRing;
    assert Awaits(s.procs, s.procs[Current(s)].waiter, Current(s));
    var x :| x in s.ring && x != Current(s) && x !in Blocked(s.procs);
    EndRingMeaning(s.ring, Blocked(s.procs), x);
  }

  /** An exit nobody waits for leaves a zombie with its status. */
  lemma ExitLeavesZombie(s: State, status: nat)
    requires Kept(s) && Known(s) && Another(s) && s.procs[Current(s)].waiter == 0
    ensures var c, s' := Current(s), ExitStep(s, status);
      && c in s'.procs && s'.procs[c].zombie && s'.procs[c].status == status && c !in s'.ring && s'.procs - {c} == s.procs - {c}
      && !s'.procs[c].blocked && s'.procs[c].waiter == 0 && s'.procs[c].rax == s.procs[c].rax
  {
    hide EndRing;
    var x :| x in s.ring && x != Current(s) && x !in Blocked(s.procs);
    EndRingMeaning(s.ring, Blocked(s.procs), x);
  }

  /** A wait on a zombie returns at once: the caller stays current and gets the pid, and that is all. */
  lemma ZombieWaitReturns(s: State, pid: Pid)
    requires Kept(s) && Known(s) && pid in s.procs && s.procs[pid].zombie
    ensures var s' := WaitStep(s, pid);
      && s'.ring == s.ring && Known(s') && Current(s') == Current(s) && Woken(s', Current(s), pid)
      && s'.nextPid == s.nextPid && s'.procs.Keys == s.procs.Keys && s'.procs[Current(s)] == s.procs[Current(s)].(rax := pid)
      && forall p :: p in s.procs && p != Current(s) ==> s'.procs[p] == s.procs[p]
  {
  }

  // ---------------------------------------------------------------- runs

  ghost predicate IsRun(run: seq<State>, ops: seq<Op>) {
    && |run| == |ops| + 1
    && forall i :: 0 <= i < |ops| ==> Known(run[i]) && Legal(run[i], ops[i]) && run[i + 1] == Step(run[i], ops[i])
  }

  /** No wait from moment i up to moment j is careless. */
  ghost predicate AllCareful(run: seq<State>, ops: seq<Op>, i: nat, j: nat) {
    j < |run| == |ops| + 1 && forall m :: i <= m < j ==> Known(run[m]) && Careful(run[m], ops[m])
  }

  lemma {:induction false} RunKept(run: seq<State>, ops: seq<Op>, j: nat)
    requires IsRun(run, ops) && j < |run| && Kept(run[0])
    ensures Kept(run[j]) && Known(run[j])
  {
    hide Kept, Step, Legal, Known;
    if j > 0 {
      RunKept(run, ops, j - 1);
      StepKept(run[j - 1], ops[j - 1]);
    } else {
      KeptKnown(run[0]);
    }
  }

  /** A run without careless waits loses no wakeup. */
  lemma {:induction false} RunSound(run: seq<State>, ops: seq<Op>, j: nat)
    requires IsRun(run, ops) && j < |run| && Sound(run[0]) && AllCareful(run, ops, 0, j)
    ensures Sound(run[j]) && Known(run[j])
  {
    RunKept(run, ops, j);
    if j > 0 {
      hide Kept, Step, Legal, Known, Careful;
      RunKept(run, ops, j - 1);
      RunSound(run, ops, j - 1);
      StepExact(run[j - 1], ops[j - 1]);
    }
  }

  /** The kernel starts in a sound state. */
  lemma BootSound(status: nat)
    ensures Sound(Boot(status)) && Known(Boot(status))
  {
  }

  /** A lost process stays blocked over every run. */
  lemma {:induction false} LostForever(run: seq<State>, ops: seq<Op>, i: nat, j: nat, p: Pid)
    requires IsRun(run, ops) && Kept(run[0]) && i <= j < |run| && Lost(run[i].procs, p)
    ensures Lost(run[j].procs, p)
    decreases j
  {
    hide Kept, Step, Legal, Known, Lost;
    if i < j {
      LostForever(run, ops, i, j - 1, p);
      RunKept(run, ops, j - 1);
      LostStep(run[j - 1], ops[j - 1], p);
    }
  }

  /** Process p runs again, and its wait returned q. */
  predicate Woken(s: State, p: Pid, q: Pid) {
    p in s.procs && !s.procs[p].blocked && s.procs[p].rax == q && p in s.ring
  }

  /** In one step a waiting process goes on waiting for the same child, is woken by that child's exit, or is lost to a careless wait for that child. */
  lemma StepOfWaiter(s: State, op: Op, p: Pid, q: Pid)
    requires Kept(s) && Known(s) && Legal(s, op) && Awaits(s.procs, p, q)
    ensures var s' := Step(s, op);
      || Awaits(s'.procs, p, q) || (op.Exit? && Current(s) == q && Woken(s', p, q))
      || (op == Wait(q) && !Careful(s, op) && Lost(s'.procs, p))
  {
    hide EndRing, NextRing, AddRing;
    match op {
      case Tick =>
      case Fork =>
      case Exit(status) =>
        if Current(s) == q {
          ExitWakesWaiter(s, status);
        } else {
          assert Awaits(ExitStep(s, status).procs, p, q);
        }
      case Wait(pid) =>
        if pid == q {
          CarelessLoses(s, pid);
        } else {
          assert Awaits(WaitStep(s, pid).procs, p, q);
        }
    }
  }

  /** No wakeup is lost without a careless wait: a waiting process waits on until its child exits, and that exit wakes it. */
  lemma {:induction false} NoLostWakeup(run: seq<State>, ops: seq<Op>, i: nat, j: nat, p: Pid, q: Pid)
    requires IsRun(run, ops) && Kept(run[0]) && i <= j < |run| && Awaits(run[i].procs, p, q) && AllCareful(run, ops, i, j)
    ensures Awaits(run[j].procs, p, q) || exists m :: i <= m < j && WokenAt(run, ops, p, q, m)
    decreases j
  {
    hide Kept, Step, Legal, Known, Awaits, Careful, Lost;
    if i < j {
      NoLostWakeup(run, ops, i, j - 1, p, q);
      RunKept(run, ops, j - 1);
      if Awaits(run[j - 1].procs, p, q) {
        StepOfWaiter(run[j - 1], ops[j - 1], p, q);
        if !Awaits(run[j].procs, p, q) {
          ExitAt(run, ops, p, q, j - 1);
        }
      }
    }
  }

  /** At step m process q exits, which wakes p. */
  ghost predicate WokenAt(run: seq<State>, ops: seq<Op>, p: Pid, q: Pid, m: nat) {
    m < |ops| && m + 1 < |run| && ops[m].Exit? && run[m].ring != [] && run[m].ring[0] == q && Woken(run[m + 1], p, q)
  }

  lemma ExitAt(run: seq<State>, ops: seq<Op>, p: Pid, q: Pid, m: nat)
    requires IsRun(run, ops) && m < |ops| && ops[m].Exit? && Known(run[m]) && Current(run[m]) == q && Woken(run[m + 1], p, q)
    ensures WokenAt(run, ops, p, q, m)
  {
  }

  /** A process that exited unwaited stays to be waited for, with its status. */
  lemma {:induction false} ZombieStays(run: seq<State>, ops: seq<Op>, i: nat, j: nat, q: Pid)
    requires IsRun(run, ops) && Kept(run[0]) && i <= j < |run| && q in run[i].procs && run[i].procs[q].zombie
    ensures q in run[j].procs && run[j].procs[q].zombie && run[j].procs[q].status == run[i].procs[q].status
    decreases j
  {
    if i < j {
      ZombieStays(run, ops, i, j - 1, q);
      RunKept(run, ops, j - 1);
      ZombieStep(run[j - 1], ops[j - 1], q);
    }
  }

  lemma ZombieStep(s: State, op: Op, q: Pid)
    requires Kept(s) && Known(s) && Legal(s, op) && q in s.procs && s.procs[q].zombie
    ensures var s' := Step(s, op); q in s'.procs && s'.procs[q].zombie && s'.procs[q].status == s.procs[q].status
  {
    hide EndRing, NextRing, AddRing;
    assert q != Current(s);
    if op.Exit? && s.procs[Current(s)].waiter != 0 {
      assert Awaits(s.procs, s.procs[Current(s)].waiter, Current(s));
    }
  }

  /** A wait at any time after an unwaited exit returns at once with the pid. */
  lemma LateWaitReturns(run: seq<State>, ops: seq<Op>, i: nat, j: nat, q: Pid)
    requires IsRun(run, ops) && Kept(run[0]) && i < j < |ops| && ops[i].Exit? && ops[j] == Wait(q)
    requires Known(run[i]) && Current(run[i]) == q && run[i].procs[q].waiter == 0
    ensures Known(run[j]) && Known(run[j + 1]) && Current(run[j + 1]) == Current(run[j]) && Woken(run[j + 1], Current(run[j]), q)
  {
    hide ExitStep, Kept, Awaits, Woken;
    RunKept(run, ops, i);
    RunKept(run, ops, j);
    ExitLeavesZombie(run[i], ops[i].status);
    ZombieStays(run, ops, i + 1, j, q);
    ZombieWaitReturns(run[j], q);
  }

  // ---------------------------------------------------------------- process 0

  /** Process 0 runs, its shell 2 and the idle process 1 can run. */
  function BeforeWait(status: nat): State {
    State([0, 2, 1], map[0 := Proc(false, false, 0, 2, status), 1 := Proc(false, false, 0, 0, status),
                         2 := Proc(false, false, 0, 0, status)], 3)
  }

  /** Process 0 is blocked, but its pid names nobody. */
  function BeforeExit(status: nat): State {
    State([2, 1, 0], map[0 := Proc(true, false, 0, 2, status), 1 := Proc(false, false, 0, 0, status),
                         2 := Proc(false, false, 0, 0, status)], 3)
  }

  function AfterExit(status: nat, exit: nat): State {
    State([1, 0], map[0 := Proc(true, false, 0, 2, status), 1 := Proc(false, false, 0, 0, status),
                      2 := Proc(false, true, 0, 0, exit)], 3)
  }

  /** The states from boot to the exit of the process that process 0 waited for. */
  function BootRun(status: nat, exit: nat): (run: seq<State>)
    ensures |run| == 8
  {
    var one, later := State([0, 1], map[0 := Proc(false, false, 0, 1, status), 1 := Proc(false, false, 0, 0, status)], 2), BeforeWait(status);
    [Boot(status), one.(ring := [1, 0]), one, later.(ring := [2, 1, 0]), later.(ring := [1, 0, 2]), later,
     BeforeExit(status), AfterExit(status, exit)]
  }

  function BootOps(exit: nat): (ops: seq<Op>)
    ensures |ops| == 7
  {
    [Fork, Tick, Fork, Tick, Tick, Wait(2), Exit(exit)]
  }

  /**
   What the first processes of this kernel do: systemd, process 0, forks an idle process and becomes getty, which forks a
   shell and waits for it.  The wait of process 0 is careless, so the shell's exit leaves it a zombie and 0 blocked ...
   */
  lemma BootRunIsRun(status: nat, exit: nat)
    ensures IsRun(BootRun(status, exit), BootOps(exit))
    ensures var run := BootRun(status, exit);
      Sound(run[5]) && !Careful(run[5], Wait(2)) && run[7].procs[2].zombie && Lost(run[7].procs, 0)
  {
    hide Step, Careful, Sound, Lost, BootRun, BootOps, Known, Another;
    var run, ops := BootRun(status, exit), BootOps(exit);
    forall k | 0 <= k < |ops|
      ensures Known(run[k]) && Legal(run[k], ops[k]) && run[k + 1] == Step(run[k], ops[k])
    {
      BootSteps(status, exit, k);
    }
    BootEnds(status, exit);
    BootWait(status);
    BootExit(status, exit);
  }

  lemma BootEnds(status: nat, exit: nat)
    ensures BootRun(status, exit)[5] == BeforeWait(status) && BootRun(status, exit)[7] == AfterExit(status, exit)
    ensures AfterExit(status, exit).procs[2].zombie
  {
  }

  lemma BootSteps(status: nat, exit: nat, k: nat)
    requires k < 7
    ensures var run, ops := BootRun(status, exit), BootOps(exit);
      Known(run[k]) && Legal(run[k], ops[k]) && run[k + 1] == Step(run[k], ops[k])
  {
    hide Step, Legal, Careful, Sound, Lost, ExitStep, WaitStep;
    if k == 6 {
      BootExit(status, exit);
    } else if k == 5 {
      BootWait(status);
    } else if k == 0 || k == 2 {
      BootFork(status, exit, k);
    } else {
      BootTick(status, exit, k);
    }
  }

  lemma NextAtOnce(ring: seq<Pid>, blocked: set<Pid>)
    requires |ring| > 1 && ring[1] !in blocked
    ensures NextRing(ring, blocked) == Turn(ring)
  {
  }

  lemma BootFork(status: nat, exit: nat, k: nat)
    requires k == 0 || k == 2
    ensures var run, ops := BootRun(status, exit), BootOps(exit);
      Known(run[k]) && Legal(run[k], ops[k]) && run[k + 1] == Step(run[k], ops[k])
  {
  }

  lemma BootTick(status: nat, exit: nat, k: nat)
    requires k == 1 || k == 3 || k == 4
    ensures var run, ops := BootRun(status, exit), BootOps(exit);
      Known(run[k]) && Legal(run[k], ops[k]) && run[k + 1] == Step(run[k], ops[k])
  {
    hide NextRing;
    var s := BootRun(status, exit)[k];
    NextAtOnce(s.ring, Blocked(s.procs));
  }

  lemma BootWait(status: nat)
    ensures var s := BeforeWait(status);
      && Known(s) && Legal(s, Wait(2)) && Sound(s) && !Careful(s, Wait(2)) && BeforeExit(status) == Step(s, Wait(2))
  {
    hide NextRing;
    var s := BeforeWait(status);
    assert 1 in s.ring && 1 != Current(s) && 1 !in Blocked(s.procs);
    var named := s.procs[2 := s.procs[2].(waiter := 0)];
    assert named == s.procs && named[0 := named[0].(blocked := true)] == BeforeExit(status).procs;
    NextAtOnce(s.ring, Blocked(BeforeExit(status).procs));
  }

  lemma BootExit(status: nat, exit: nat)
    ensures var s := BeforeExit(status);
      && Known(s) && Legal(s, Exit(exit)) && AfterExit(status, exit) == Step(s, Exit(exit)) && Lost(AfterExit(status, exit).procs, 0)
  {
    hide NextRing, EndRing;
    var s := BeforeExit(status);
    assert 1 in s.ring && 1 != Current(s) && 1 !in Blocked(s.procs);
    BootEnd(Blocked(s.procs));
  }

  lemma BootEnd(blocked: set<Pid>)
    requires 1 !in blocked
    ensures EndRing([2, 1, 0], blocked) == [1, 0]
  {
    NextAtOnce([2, 1, 0], blocked);
    var turned := [1, 0, 2];
    assert Turn([2, 1, 0]) == turned;
    assert IndexOf(turned, 2) == 2 by {
      assert turned[1..][1..] == [2];
    }
    assert Without(turned, 2) == [1, 0];
  }

  /** ... and over every continuation process 0 never runs again. */
  lemma GettyNeverReturns(run: seq<State>, ops: seq<Op>, status: nat, exit: nat, j: nat)
    requires IsRun(run, ops) && BootRun(status, exit) <= run && 7 <= j < |run|
    ensures 0 in run[j].procs && run[j].procs[0].blocked && Known(run[j]) && Current(run[j]) != 0
  {
    BootSound(status);
    BootRunIsRun(status, exit);
    assert run[0] == BootRun(status, exit)[0] && run[7] == BootRun(status, exit)[7];
    LostForever(run, ops, 7, j, 0);
    RunKept(run, ops, j);
  }
}

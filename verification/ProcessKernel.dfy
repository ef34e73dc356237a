/**
 The scheduler and the process entry points on process objects linked in a ring, tied step by step to `WaitProtocol`.
 The pid table is used through the finite map it implements; see `PidHash`.
 */
module ProcessKernel {
  import opened Scheduler
  import opened WaitProtocol

  /** `process_t` */
  class Process {
    const pid: Pid
    var next: Process?
    var last: Process?
    /** `PROCESS_BLOCKING` and `PROCESS_ZOMBIE` of `flags` */
    var blocking: bool
    var zombie: bool
    /** `waiting_parent_pid` */
    var waiter: Pid
    /** `process_stack_signature.rax` */
    var rax: nat
    var status: nat

    constructor (pid: Pid, status: nat)
      ensures this.pid == pid && this.status == status && rax == 0 && waiter == 0 && !blocking && !zombie
    {
      this.pid, this.status, rax, waiter, blocking, zombie := pid, status, 0, 0, false, false;
      next, last := null, null;
    }

    function Fields(): Proc
      reads this`blocking, this`zombie, this`waiter, this`rax, this`status
    {
      Proc(blocking, zombie, waiter, rax, status)
    }
  }

  type Table = map<Pid, Process>

  /** The pid of a neighbour; a process on the ring always has one. */
  function PidOf(p: Process?): Pid {
    if p == null then 0 else p.pid
  }

  /** The fields `next` and `last` of all processes, by pid. */
  function Nexts(table: Table): map<Pid, Pid>
    reads table.Values`next
  {
    map p | p in table :: PidOf(table[p].next)
  }

  function Lasts(table: Table): map<Pid, Pid>
    reads table.Values`last
  {
    map p | p in table :: PidOf(table[p].last)
  }

  /** The table names each process by its own pid. */
  ghost predicate Named(table: Table) {
    forall p :: p in table ==> table[p].pid == p
  }

  /** p and its neighbours are the objects the table names. */
  ghost predicate Proper(table: Table, p: Pid)
    reads table.Values`next, table.Values`last
  {
    && p in table && table[p].next != null && table[p].last != null
    && table[p].next.pid in table && table[table[p].next.pid] == table[p].next
    && table[p].last.pid in table && table[table[p].last.pid] == table[p].last
  }

  ghost predicate AllProper(table: Table, ring: seq<Pid>)
    reads table.Values`next, table.Values`last
  {
    forall p {:trigger Proper(table, p)} :: p in ring ==> Proper(table, p)
  }

  /** The four assignments that put a process behind another. */
  method InsertBehind(head: Process, process: Process)
    requires head.next != null && process != head && process != head.next
    modifies head`next, head.next`last, process`next, process`last
    ensures head.next == process && process.next == old(head.next) && process.last == head && old(head.next).last == process
  {
    head.next.last := process;
    process.next := head.next;
    head.next := process;
    process.last := head;
  }

  /** Linking a new process into a ring of objects. */
  method LinkIn(ghost table: Table, ghost ring: seq<Pid>, head: Process, process: Process)
    requires Named(table) && ring != [] && NoRepeat(ring) && AllProper(table, ring) && Linked(ring, Nexts(table), Lasts(table))
    requires ring[0] in table && head == table[ring[0]] && head.next != null && process.pid in table && table[process.pid] == process && process.pid !in ring
    modifies head`next, head.next`last, process`next, process`last
    ensures AllProper(table, AddRing(ring, process.pid)) && Linked(AddRing(ring, process.pid), Nexts(table), Lasts(table))
  {
    hide Linked, NoRepeat, AddRing;
    ghost var x: Pid, nxt: map<Pid, Pid>, lst: map<Pid, Pid> := process.pid, Nexts(table), Lasts(table);
    LinkedAdd(ring, nxt, lst, x);
    assert Proper(table, ring[0]);
    ghost var second := nxt[ring[0]];
    InsertBehind(head, process);
    assert Nexts(table) == nxt[x := second][ring[0] := x];
    assert Lasts(table) == lst[second := x][x := ring[0]];
    MembersAdd(ring, x);
    forall p | p in AddRing(ring, x)
      ensures Proper(table, p)
    {
      if p != x {
        assert old(Proper(table, p));
      }
    }
  }

  /** Linking the first process. */
  method LinkAlone(ghost table: Table, process: Process)
    requires process.pid in table && table[process.pid] == process
    modifies process`next, process`last
    ensures AllProper(table, AddRing([], process.pid)) && Linked(AddRing([], process.pid), Nexts(table), Lasts(table))
  {
    process.next := process;
    process.last := process;
    AloneLinked(process.pid, Nexts(table), Lasts(table));
  }

  /** The object behind p is the one its pid link names. */
  lemma NextNamed(table: Table, p: Pid)
    requires Proper(table, p)
    ensures p in Nexts(table) && Nexts(table)[p] in table && table[Nexts(table)[p]] == table[p].next
  {
  }

  /** The unlinking of `schedule_end`. */
  method LinkOut(ghost table: Table, ghost ring: seq<Pid>, ghost j: nat, process: Process)
    requires Named(table) && |ring| > 1 && NoRepeat(ring) && AllProper(table, ring) && Linked(ring, Nexts(table), Lasts(table))
    requires j < |ring| && ring[j] in table && process == table[ring[j]] && process.next != null && process.last != null
    modifies process.next`last, process.last`next
    ensures AllProper(table, Without(ring, j)) && Linked(Without(ring, j), Nexts(table), Lasts(table))
  {
    hide Linked, NoRepeat, Without;
    ghost var x: Pid, nxt: map<Pid, Pid>, lst: map<Pid, Pid> := process.pid, Nexts(table), Lasts(table);
    LinkedRemove(ring, nxt, lst, j);
    assert Proper(table, ring[j]);
    process.next.last := process.last;
    process.last.next := process.next;
    assert Nexts(table) == nxt[lst[x] := nxt[x]];
    assert Lasts(table) == lst[nxt[x] := lst[x]];
    MembersRemove(ring, j);
    forall p | p in Without(ring, j)
      ensures Proper(table, p)
    {
      assert old(Proper(table, p));
    }
  }

  /** The fields of the processes not yet given back. */
  ghost function Procs(table: Table, reaped: set<Pid>): map<Pid, Proc>
    reads table.Values`blocking, table.Values`zombie, table.Values`waiter, table.Values`rax, table.Values`status
  {
    map p | p in table && p !in reaped :: table[p].Fields()
  }

  /** The globals `PROCESSES`, `PROCESS_COUNT`, `CURRENT_PROCESS`, `PID` and `PID_MAP`. */
  class Kernel {
    var processes: Process?
    var count: int
    var current: Process?
    var nextPid: nat
    var pidMap: Table
    /** Pids whose process was given back to its pool while the table still names it. */
    ghost var reaped: set<Pid>
    ghost var ring: seq<Pid>

    ghost predicate Valid()
      reads this`processes, this`count, this`nextPid, this`pidMap, this`reaped, this`ring, pidMap.Values`next, pidMap.Values`last
    {
      && Named(pidMap) && (forall p :: p in ring ==> p in pidMap && p !in reaped)
      && NoRepeat(ring) && AllProper(pidMap, ring) && Linked(ring, Nexts(pidMap), Lasts(pidMap))
      && count == |ring| && processes == (if ring == [] then null else pidMap[ring[0]])
      && forall p :: p in pidMap || p in reaped ==> p < nextPid
    }

    ghost function View(): State
      reads this, pidMap.Values
    {
      State(ring, Procs(pidMap, reaped), nextPid)
    }

    /** The zeroed globals: no process, and pids are counted from 0. */
    constructor ()
      ensures Valid() && ring == [] && pidMap == map[] && reaped == {} && nextPid == 0
    {
      processes, count, current, nextPid, pidMap := null, 0, null, 0, map[];
      reaped, ring := {}, [];
    }

    /** `elfLoader_systemd` and `launch_system_processes`: the first process, with its status word as the pool left it. */
    method Launch(status: nat)
      requires Valid() && ring == [] && pidMap == map[] && reaped == {} && nextPid == 0
      modifies this
      ensures Ready() && View() == Boot(status)
    {
      hide Linked, NoRepeat, Nexts, Lasts, Named, AddRing, NextRing, AllProper, Procs, Valid;
      NothingListed();
      FirstAlone();
      var pid := GenPid();
      var process := new Process(pid, status);
      Enlist(process);
      Link(process);
      ListedBlocked();
      NoneBlocked(status);
      ghost var procs := Procs(pidMap, reaped);
      assert procs == map[0 := Proc(false, false, 0, 0, status)];
      assert ring == [0] && 0 in ring;
      current := NextProcess({});
    }

    /** After boot the first process is current, runs, and has no result and no waiter. */
    lemma BootObjects(status: nat)
      requires Ready() && View() == Boot(status)
      ensures ring == [0] && nextPid == 1 && 0 in pidMap && current == pidMap[0]
      ensures var p := pidMap[0]; p.rax == 0 && p.status == status && p.waiter == 0 && !p.blocking && !p.zombie
    {
      hide Linked, NoRepeat, Nexts, Lasts, AllProper;
      assert 0 in Boot(status).procs;
      ListedNamed(0);
    }

    lemma NothingListed()
      requires pidMap == map[] && reaped == {}
      ensures Procs(pidMap, reaped) == map[]
    {
    }

    /** `scheduler_nextProcess`: terminates because some process of the ring can run; `blocked` is the set of those that cannot. */
    method NextProcess(ghost blocked: set<Pid>) returns (p: Process?)
      requires Valid() && forall x :: x in ring ==> (x in blocked <==> pidMap[x].blocking)
      requires ring != [] ==> exists x :: x in ring && x !in blocked
      modifies this`processes, this`ring
      ensures Valid() && p == processes
      ensures ring == if old(ring) == [] then [] else NextRing(old(ring), blocked)
    {
      hide Turn, Skip, NextRing, Linked, NoRepeat, Nexts, Lasts, Named;
      if processes == null {
        return null;
      }
      assert Proper(pidMap, ring[0]);
      NextNamed(pidMap, ring[0]);
      var current := processes.next;
      ghost var turn, k := Turn(ring), 0;
      NextInTurn(ring, Nexts(pidMap), Lasts(pidMap), blocked);
      SkipTurn(turn, blocked, 0);
      while current.blocking
        invariant Valid() && ring == old(ring)
        invariant k <= Skip(turn, blocked) < |turn| && turn[k] in ring && current == pidMap[turn[k]]
        decreases |turn| - k
      {
        SkipTurn(turn, blocked, k);
        assert Proper(pidMap, turn[k]);
        NextNamed(pidMap, turn[k]);
        current, k := current.next, k + 1;
      }
      SkipTurn(turn, blocked, k);
      ring := NextRing(ring, blocked);
      processes := current;
      return processes;
    }

    /** `pid_hash_insert` of a new pid */
    method Enlist(process: Process)
      requires Valid() && process.pid !in pidMap && process.pid !in reaped && process.pid < nextPid
      modifies this`pidMap
      ensures Valid() && pidMap == old(pidMap)[process.pid := process]
      ensures Procs(pidMap, reaped) == old(Procs(pidMap, reaped))[process.pid := process.Fields()]
    {
      hide Linked, NoRepeat, AllProper, Nexts, Lasts;
      TableGrows(pidMap, process, ring);
      pidMap := pidMap[process.pid := process];
    }

    /** The rest of `scheduler_schedule`: the process comes behind the current one and becomes the current one. */
    method Link(process: Process)
      requires Valid() && process.pid in pidMap && pidMap[process.pid] == process && process.pid !in ring && process.pid !in reaped
      modifies this`processes, this`count, this`ring, pidMap.Values`next, pidMap.Values`last
      ensures Valid() && ring == AddRing(old(ring), process.pid) && Procs(pidMap, reaped) == old(Procs(pidMap, reaped))
      ensures processes == process
    {
      hide Linked, NoRepeat, AddRing, Nexts, Lasts, Named;
      MembersAdd(ring, process.pid);
      AddHead(ring, process.pid);
      assert ring != [] ==> Proper(pidMap, ring[0]);
      if processes == null {
        LinkAlone(pidMap, process);
      } else {
        LinkIn(pidMap, ring, processes, process);
      }
      processes, count, ring := process, count + 1, AddRing(ring, process.pid);
    }

    /**
     `schedule_end` of the current process, while another one can run. The test for the last process compares a truth
     value with a pointer and never holds, so the source always takes the branch modelled here.
     */
    method ScheduleEnd(ghost blocked: set<Pid>) returns (p: Process?)
      requires Valid() && ring != [] && forall x :: x in ring ==> (x in blocked <==> pidMap[x].blocking)
      requires ring[0] !in blocked && exists x :: x in ring && x !in blocked && x != ring[0]
      modifies this`processes, this`count, this`ring, pidMap.Values`next, pidMap.Values`last
      ensures Valid() && ring == EndRing(old(ring), blocked) && ring != [] && p == processes
    {
      hide Linked, NoRepeat, Nexts, Lasts, Named, NextRing, Without, EndRing;
      ghost var ring0 := ring;
      var process := processes;
      var next := NextProcess(blocked);
      EndIndex(ring0, blocked);
      ghost var j := IndexOf(ring, ring0[0]);
      assert Proper(pidMap, ring[j]);
      LinkOut(pidMap, ring, j, process);
      MembersRemove(ring, j);
      count, ring := count - 1, Without(ring, j);
      return processes;
    }

    /** Before and after every entry point: the current process is the head of the ring. */
    ghost predicate Ready()
      reads this, pidMap.Values`next, pidMap.Values`last
    {
      Valid() && ring != [] && current == processes
    }

    /** The timer case of `interrupt_handler` */
    method Tick()
      requires Ready() && Kept(View())
      modifies this`processes, this`ring, this`current
      ensures Ready() && old(Known(View())) && View() == TickStep(old(View()))
    {
      hide Linked, NoRepeat, Nexts, Lasts, Named, NextRing, Kept;
      KeptKnown(View());
      KeptRuns(View());
      current := NextProcess(Blocked(View().procs));
    }

    /** `process_stack_signature.rax = value` */
    method SetRax(p: Process, value: nat)
      requires Valid() && p.pid in pidMap && p.pid !in reaped && pidMap[p.pid] == p
      modifies p`rax
      ensures Valid() && p.Fields() == old(p.Fields()).(rax := value)
      ensures Procs(pidMap, reaped) == old(Procs(pidMap, reaped))[p.pid := p.Fields()]
    {
      hide Linked, NoRepeat, Nexts, Lasts, AllProper;
      p.rax := value;
    }

    /** `process_genPID` */
    method GenPid() returns (pid: Pid)
      requires Valid()
      modifies this`nextPid
      ensures Valid() && pid == old(nextPid) && nextPid == pid + 1
    {
      hide Linked, NoRepeat, Nexts, Lasts, AllProper, Named;
      pid := nextPid;
      nextPid := nextPid + 1;
    }

    /** `process_fork`; memory and descriptors are copied elsewhere. */
    method Fork()
      requires Ready() && Kept(View())
      modifies this`processes, this`count, this`ring, this`current, this`nextPid, this`pidMap
      modifies current`rax, pidMap.Values`next, pidMap.Values`last
      ensures Ready() && old(Known(View())) && View() == ForkStep(old(View()))
      ensures var parent := old(current);
        && old(Ready()) && current != null && fresh(current) && current.pid == old(nextPid) && pidMap == old(pidMap)[current.pid := current]
        && current.rax == 0 && !current.blocking && !current.zombie && current.waiter == 0 && current.status == parent.status
        && parent.rax == current.pid && forall p :: p in old(pidMap) && old(pidMap)[p] != parent ==> old(pidMap)[p].rax == old(pidMap[p].rax)
    {
      hide Linked, NoRepeat, Nexts, Lasts, Named, AddRing, Kept, AllProper, Procs, Valid;
      KeptKnown(View());
      CurrentNamed();
      NotListed();
      AddHead(ring, nextPid);
      ghost var after := ForkStep(View());
      var status := current.status;
      var pid := GenPid();
      SetRax(current, pid);
      var child := new Process(pid, status);
      Enlist(child);
      assert Procs(pidMap, reaped) == after.procs;
      Link(child);
      current := processes;
    }

    /** `schedule_block` and `schedule_unblock` */
    method SetBlocking(p: Process, value: bool)
      requires Valid() && p.pid in pidMap && p.pid !in reaped && pidMap[p.pid] == p
      modifies p`blocking
      ensures Valid() && p.Fields() == old(p.Fields()).(blocked := value)
      ensures Procs(pidMap, reaped) == old(Procs(pidMap, reaped))[p.pid := p.Fields()]
    {
      hide Linked, NoRepeat, Nexts, Lasts, AllProper;
      p.blocking := value;
    }

    /** `waiting_parent_pid = value` */
    method SetWaiter(p: Process, value: Pid)
      requires Valid() && p.pid in pidMap && p.pid !in reaped && pidMap[p.pid] == p
      modifies p`waiter
      ensures Valid() && p.Fields() == old(p.Fields()).(waiter := value)
      ensures Procs(pidMap, reaped) == old(Procs(pidMap, reaped))[p.pid := p.Fields()]
    {
      hide Linked, NoRepeat, Nexts, Lasts, AllProper;
      p.waiter := value;
    }

    /** `status = value` */
    method SetStatus(p: Process, value: nat)
      requires Valid() && p.pid in pidMap && p.pid !in reaped && pidMap[p.pid] == p
      modifies p`status
      ensures Valid() && p.Fields() == old(p.Fields()).(status := value)
      ensures Procs(pidMap, reaped) == old(Procs(pidMap, reaped))[p.pid := p.Fields()]
    {
      hide Linked, NoRepeat, Nexts, Lasts, AllProper;
      p.status := value;
    }

    /** `flags |= PROCESS_ZOMBIE` */
    method SetZombie(p: Process)
      requires Valid() && p.pid in pidMap && p.pid !in reaped && pidMap[p.pid] == p
      modifies p`zombie
      ensures Valid() && p.Fields() == old(p.Fields()).(zombie := true)
      ensures Procs(pidMap, reaped) == old(Procs(pidMap, reaped))[p.pid := p.Fields()]
    {
      hide Linked, NoRepeat, Nexts, Lasts, AllProper;
      p.zombie := true;
    }

    /** `process_cleanup`: the object goes back to its pool, the table goes on naming it. */
    method Cleanup(p: Process)
      requires Valid() && p.pid in pidMap && p.pid !in ring
      modifies this`reaped
      ensures reaped == old(reaped) + {p.pid}
      ensures Valid() && Procs(pidMap, reaped) == old(Procs(pidMap, reaped)) - {p.pid}
    {
      hide Linked, NoRepeat, Nexts, Lasts, AllProper;
      reaped := reaped + {p.pid};
    }

    /** `sys_exit` and `process_exit` of the current process, while another one can run. */
    method Exit(status: nat)
      requires Ready() && Kept(View()) && Known(View()) && Another(View())
      modifies this`processes, this`count, this`ring, this`current, this`reaped
      modifies pidMap.Values
      ensures Ready() && old(Known(View())) && View() == ExitStep(old(View()), status)
    {
      hide Linked, NoRepeat, Nexts, Lasts, Named, AddRing, Kept, AllProper, Procs, Valid, EndRing;
      ghost var before := View();
      KeptKnown(before);
      KeptRuns(before);
      CurrentNamed();
      ghost var after := ExitStep(before, status);
      var process := current;
      BlockedIs();
      WaiterKnown();
      ghost var other :| other in ring && other !in Blocked(before.procs) && other != ring[0];
      EndRingMeaning(ring, Blocked(before.procs), other);
      SetStatus(process, status);
      forall x | x in ring
        ensures x in Blocked(before.procs) <==> pidMap[x].blocking
      {
        assert old(pidMap[x].blocking) == pidMap[x].blocking;
      }
      current := ScheduleEnd(Blocked(before.procs));
      assert Procs(pidMap, reaped) == before.procs[process.pid := before.procs[process.pid].(status := status)];
      Settle(process);
      SettledIsExit(before, status);
      assert ring == after.ring && Procs(pidMap, reaped) == after.procs && nextPid == after.nextPid;
    }

    /** `sys_waitpid`; the pid is that of a process which still exists, and a caller that blocks leaves another to run. */
    method Waitpid(pid: Pid)
      requires Ready() && Kept(View()) && Known(View()) && Legal(View(), Wait(pid))
      modifies this`processes, this`ring, this`current
      modifies pidMap.Values`rax, pidMap.Values`waiter, pidMap.Values`blocking
      ensures Ready() && old(Known(View()) && pid in View().procs) && View() == WaitStep(old(View()), pid)
    {
      hide Linked, NoRepeat, Nexts, Lasts, Named, Kept, AllProper, Procs, Valid, NextRing;
      ghost var before := View();
      CurrentNamed();
      ListedNamed(pid);
      ListedNamed(ring[0]);
      ghost var after := WaitStep(before, pid);
      var process := pidMap[pid];
      if process.zombie {
        SetRax(current, process.pid);
        return;
      }
      SetWaiter(process, current.pid);
      assert Procs(pidMap, reaped) == before.procs[pid := before.procs[pid].(waiter := ring[0])];
      SetBlocking(current, true);
      assert Procs(pidMap, reaped) == after.procs;
      StillRuns(before, pid);
      ListedBlocked();
      current := NextProcess(Blocked(after.procs));
    }

    lemma ListedNamed(pid: Pid)
      requires Valid() && pid in Procs(pidMap, reaped)
      ensures pid in pidMap && pid !in reaped && pidMap[pid].pid == pid && Procs(pidMap, reaped)[pid] == pidMap[pid].Fields()
    {
    }

    lemma InTable(pid: Pid)
      requires pid in pidMap && pid !in reaped
      ensures pid in Procs(pidMap, reaped) && Procs(pidMap, reaped)[pid] == pidMap[pid].Fields()
    {
    }

    lemma ListedBlocked()
      requires Valid()
      ensures forall x :: x in ring ==> x in pidMap && (x in Blocked(Procs(pidMap, reaped)) <==> pidMap[x].blocking)
    {
    }

    /** The end of `process_exit`: wake the waiter and free the process, or keep it as a zombie. */
    method Settle(process: Process)
      requires Valid() && process.pid in pidMap && process.pid !in reaped && pidMap[process.pid] == process && process.pid !in ring
      requires process.waiter != 0 ==> process.waiter in pidMap && process.waiter !in reaped && process.waiter != process.pid && pidMap[process.waiter].pid == process.waiter
      modifies this`reaped, pidMap.Values`rax, pidMap.Values`blocking, process`zombie
      ensures Valid() && Procs(pidMap, reaped) == Settled(old(Procs(pidMap, reaped)), process.pid)
    {
      hide Linked, NoRepeat, Nexts, Lasts, Named, AllProper, Valid, Procs;
      InTable(process.pid);
      if process.waiter != 0 {
        InTable(process.waiter);
        var waitingParent := pidMap[process.waiter];
        SetRax(waitingParent, process.pid);
        Cleanup(process);
        SetBlocking(waitingParent, false);
      } else {
        SetZombie(process);
      }
    }

    lemma BlockedIs()
      requires Ready() && Kept(View())
      ensures forall x :: x in ring ==> x in pidMap && (x in Blocked(View().procs) <==> pidMap[x].blocking)
      ensures NoRepeat(ring) && ring[0] !in Blocked(View().procs)
      ensures Known(View()) && (Another(View()) ==> exists x :: x in ring && x !in Blocked(View().procs) && x != ring[0])
    {
    }

    /** The process waiting for the current one exists and is another. */
    lemma WaiterKnown()
      requires Ready() && Kept(View())
      ensures View().procs[ring[0]] == pidMap[ring[0]].Fields()
      ensures var w := pidMap[ring[0]].waiter; w != 0 ==> w in pidMap && w !in reaped && w != ring[0] && w in View().procs && View().procs[w] == pidMap[w].Fields() && pidMap[w].pid == w
    {
      var w := pidMap[ring[0]].waiter;
      if w != 0 {
        assert Awaits(View().procs, w, ring[0]);
      }
    }

    lemma NotListed()
      requires Ready() && Kept(View())
      ensures nextPid !in pidMap && nextPid !in reaped && nextPid !in ring && Named(pidMap)
      ensures View().procs[ring[0]] == pidMap[ring[0]].Fields()
    {
    }

    lemma CurrentNamed()
      requires Ready()
      ensures ring != [] && ring[0] in pidMap && current == pidMap[ring[0]] && current.pid == ring[0] && ring[0] !in reaped
    {
    }
  }

  /** The processes after the end of `process_exit` of c. */
  function Settled(procs: map<Pid, Proc>, c: Pid): map<Pid, Proc>
    requires c in procs
  {
    var w := procs[c].waiter;
    if w == 0 then procs[c := procs[c].(zombie := true)]
    else if w in procs then procs[w := procs[w].(rax := c, blocked := false)] - {c}
    else procs
  }

  lemma SettledIsExit(s: State, status: nat)
    requires Known(s)
    ensures var c := Current(s); var w := s.procs[c].waiter;
      w == 0 || (w in s.procs && w != c) ==> Settled(s.procs[c := s.procs[c].(status := status)], c) == ExitStep(s, status).procs
  {
  }

  lemma StillRuns(s: State, pid: Pid)
    requires Kept(s) && Known(s) && Legal(s, Wait(pid)) && !s.procs[pid].zombie
    ensures exists x :: x in s.ring && x !in Blocked(WaitStep(s, pid).procs)
  {
    var x :| x in s.ring && x != Current(s) && x !in Blocked(s.procs);
    assert x !in Blocked(WaitStep(s, pid).procs);
  }

  /** The ring of the first process. */
  lemma FirstAlone()
    ensures AddRing([], 0) == [0] && forall blocked: set<Pid> :: 0 !in blocked ==> NextRing([0], blocked) == [0]
  {
    assert Turn([0]) == [0];
  }

  lemma NoneBlocked(status: nat)
    ensures forall p :: p !in Blocked(map[0 := Proc(false, false, 0, 0, status)])
  {
  }

  lemma KeptRuns(s: State)
    requires Kept(s)
    ensures s.ring != [] && s.ring[0] !in Blocked(s.procs)
    ensures exists x :: x in s.ring && x !in Blocked(s.procs)
  {
    assert s.ring[0] in s.ring && s.ring[0] !in Blocked(s.procs);
  }

  /** Where the ending process stands after the turn. */
  lemma EndIndex(ring: seq<Pid>, blocked: set<Pid>)
    requires ring != [] && NoRepeat(ring) && ring[0] !in blocked && exists x :: x in ring && x !in blocked && x != ring[0]
    ensures var turned := NextRing(ring, blocked); var j := IndexOf(turned, ring[0]);
      && 0 < j < |turned| && turned[j] == ring[0] && EndRing(ring, blocked) == Without(turned, j)
      && |Without(turned, j)| == |turned| - 1 && Without(turned, j) != [] && Without(turned, j)[0] == turned[0] && |turned| == |ring|
  {
    var x :| x in ring && x !in blocked && x != ring[0];
    HeadMoves(ring, blocked, x);
    NextRuns(ring, blocked, x);
  }

  lemma AloneLinked(x: Pid, nxt: map<Pid, Pid>, lst: map<Pid, Pid>)
    ensures AddRing([], x) == [x]
    ensures x in nxt && x in lst && nxt[x] == lst[x] == x ==> Linked([x], nxt, lst)
  {
  }

  /** A larger table says the same about the ring. */
  lemma TableGrows(table: Table, process: Process, ring: seq<Pid>)
    requires Named(table) && AllProper(table, ring) && Linked(ring, Nexts(table), Lasts(table)) && process.pid !in table
    requires forall p :: p in ring ==> p in table
    ensures var table' := table[process.pid := process];
      Named(table') && AllProper(table', ring) && Linked(ring, Nexts(table'), Lasts(table'))
  {
    var table' := table[process.pid := process];
    forall p | p in ring
      ensures Proper(table', p)
    {
      assert Proper(table, p);
    }
    forall i | 0 <= i < |ring|
      ensures LinkOf(ring, Nexts(table'), Lasts(table'), i)
    {
      assert LinkOf(ring, Nexts(table), Lasts(table), i);
    }
  }

  /** The order of turns, read off the links. */
  lemma NextInTurn(ring: seq<Pid>, nxt: map<Pid, Pid>, lst: map<Pid, Pid>, blocked: set<Pid>)
    requires Linked(ring, nxt, lst) && NoRepeat(ring) && ring != [] && exists x :: x in ring && x !in blocked
    ensures var turn := Turn(ring);
      && Skip(turn, blocked) < |turn| && (forall x :: x in turn <==> x in ring)
      && ring[0] in nxt && nxt[ring[0]] == turn[0]
    ensures var turn := Turn(ring);
      forall k :: 0 <= k < |turn| - 1 ==> turn[k] in nxt && nxt[turn[k]] == turn[k + 1]
    ensures Linked(NextRing(ring, blocked), nxt, lst) && NoRepeat(NextRing(ring, blocked))
    ensures NextRing(ring, blocked) != [] && NextRing(ring, blocked)[0] == Turn(ring)[Skip(Turn(ring), blocked)]
    ensures forall x :: x in NextRing(ring, blocked) <==> x in ring
  {
    var turn := Turn(ring);
    TurnMembers(ring);
    assert turn == Rotate(ring, 1);
    LinkedRotate(ring, nxt, lst, 1);
    MembersRotate(ring, 1);
    LinkedRotate(turn, nxt, lst, Skip(turn, blocked));
    MembersRotate(turn, Skip(turn, blocked));
    assert LinkOf(ring, nxt, lst, 0);
    forall k | 0 <= k < |turn| - 1
      ensures turn[k] in nxt && nxt[turn[k]] == turn[k + 1]
    {
      assert LinkOf(turn, nxt, lst, k);
    }
    var x :| x in ring && x !in blocked;
    assert x in turn;
  }

  /** The search stops at the first member that is not blocked. */
  lemma SkipTurn(turn: seq<Pid>, blocked: set<Pid>, k: nat)
    requires k <= Skip(turn, blocked) < |turn|
    ensures turn[k] in turn && (turn[k] in blocked <==> k < Skip(turn, blocked))
    ensures k + 1 < |turn| ==> turn[k + 1] in turn
  {
  }
}

/** The steps of the kernel, what each keeps, and what holds on every run. */
module KernelSteps {
  import opened Kernel
  import opened Lists

  datatype Step =
    | Tick(ms: nat)
    | AddCpu
    | InitProc(caller: int, size: int)
    | Admit(pid: int)
    | TakeSuspended(pid: int)
    | MakeReady(pid: int)
    | Swap(list: nat, i: nat, j: nat)
    | FreeCpu(cpu: nat)
    | Dispatch(cpu: nat, pid: int)
    | Interrupt(cpu: nat, pid: int)
    | Reply(samePid: bool)
    | IoSyscall(pid: int, device: nat)
    | Serve(device: nat)
    | Complete(device: nat)
    | Disconnect(device: nat)
    | Connect(device: nat)
    | Suspend(pid: int)
    | Rollback(pid: int)
    | DumpBegin(pid: int)
    | DumpEnd(pid: int, ok: bool)
    | ExitSyscall(pid: int)

  predicate Connected(k: State, d: nat) {
    d < |k.devices| && k.devices[d].connected
  }

  predicate InAnyBlocked(k: State, pid: int)
    requires |k.lists| == 8
  {
    Has(k.lists[BLOCKED], pid) || Has(k.lists[SUSP_BLOCKED], pid)
  }

  // --- Effects -------------------------------------------------------------

  /** Hands a ready process to a CPU. */
  function Dispatched(k: State, cpu: nat, pid: int): State
    requires Fits(k) && cpu < |k.cpus|
  {
    Moved(k, READY, EXEC, pid).(cpus := k.cpus[cpu := pid], wait := Idle)
  }

  /** A CPU's answer to an interrupt: the process it stopped goes back to READY, if it was
      the one asked for and is still executing; then the waiting process is dispatched. */
  function Replied(k: State, samePid: bool): State
    requires Fits(k) && k.wait.Interrupting? && k.wait.cpu < |k.cpus|
  {
    var stopped := if samePid then Moved(k, EXEC, READY, k.cpus[k.wait.cpu]) else k;
    Dispatched(stopped, k.wait.cpu, k.wait.pid)
  }

  /** An IO request: without a connected device the process ends, else it blocks and queues. */
  function IoRequested(k: State, pid: int, d: nat): State
    requires Fits(k)
  {
    if !Connected(k, d) then Moved(k, EXEC, EXIT, pid)
    else if !Has(k.lists[EXEC], pid) then k
    else
      var device := k.devices[d];
      Moved(k, EXEC, BLOCKED, pid).(
        devices := k.devices[d := device.(queue := device.queue + [pid], enqueued := device.enqueued + [pid])],
        due := k.due + {d})
  }

  /** Serving a device: unless it works for a process still blocked, the first request is sent. */
  function Served(k: State, d: nat): State
    requires Fits(k)
  {
    if !Connected(k, d) then k.(due := k.due - {d})
    else
      var device := k.devices[d];
      if (device.current != -1 && InAnyBlocked(k, device.current)) || device.queue == [] then k.(due := k.due - {d})
      else
        k.(devices := k.devices[d := device.(current := device.queue[0], queue := device.queue[1..], sent := device.sent + [device.queue[0]])],
           due := k.due - {d})
  }

  /** Unblocks a process, or ends it, from whichever blocked list it is in. */
  function Unblocked(k: State, pid: int, fromBlocked: nat, fromSuspended: nat): State
    requires Fits(k) && fromBlocked < 7 && fromSuspended < 7 && fromBlocked != BLOCKED && fromSuspended != SUSP_BLOCKED
  {
    if Has(k.lists[BLOCKED], pid) then Moved(k, BLOCKED, fromBlocked, pid)
    else Moved(k, SUSP_BLOCKED, fromSuspended, pid)
  }

  function Completed(k: State, d: nat): State
    requires Fits(k) && d < |k.devices|
  {
    Unblocked(k, k.devices[d].current, READY, SUSP_READY).(
      devices := k.devices[d := k.devices[d].(current := -1)], due := k.due + {d})
  }

  function Disconnected(k: State, d: nat): State
    requires Fits(k) && d < |k.devices|
  {
    var ended := if k.devices[d].current != -1 then Unblocked(k, k.devices[d].current, EXIT, EXIT) else k;
    ended.(devices := k.devices[d := k.devices[d].(connected := false, current := -1)])
  }

  function NewlyConnected(k: State, d: nat): State
    requires d <= |k.devices|
  {
    if d == |k.devices| then k.(devices := k.devices + [Device(true, -1, [], [], [])])
    else k.(devices := k.devices[d := k.devices[d].(connected := true, current := -1)], due := k.due + {d})
  }

  /** A dump ends: the block goes to READY or EXIT even when it is no longer in BLOCKED. */
  function DumpEnded(k: State, pid: int, ok: bool): State
    requires Fits(k)
  {
    var to := if ok then READY else EXIT;
    var ended := if Has(k.lists[BLOCKED], pid) then Moved(k, BLOCKED, to, pid) else AddedTwice(k, to, pid);
    ended.(dumping := k.dumping - {pid})
  }

  function Created(k: State, size: int): State
    requires |k.lists| == 8
  {
    k.(lists := k.lists[NEW := k.lists[NEW] + [NewPcb(k.lastPid + 1, size, k.clock)]], lastPid := k.lastPid + 1)
  }

  function Apply(k: State, step: Step): State
    requires Fits(k) && Legal(k, step)
  {
    match step
    case Tick(ms) => k.(clock := k.clock + ms)
    case AddCpu => k.(cpus := k.cpus + [-1])
    case InitProc(caller, size) => if Has(k.lists[EXEC], caller) then Created(k, size) else k
    case Admit(pid) => Moved(k, NEW, READY, pid)
    case TakeSuspended(pid) => Moved(k, SUSP_READY, HELD, pid)
    case MakeReady(pid) => Moved(k, HELD, READY, pid)
    case Swap(list, i, j) => k.(lists := k.lists[list := Swapped(k.lists[list], i, j)])
    case FreeCpu(cpu) => k.(cpus := k.cpus[cpu := -1])
    case Dispatch(cpu, pid) => Dispatched(k, cpu, pid)
    case Interrupt(cpu, pid) => k.(wait := Interrupting(cpu, pid))
    case Reply(samePid) => Replied(k, samePid)
    case IoSyscall(pid, d) => IoRequested(k, pid, d)
    case Serve(d) => Served(k, d)
    case Complete(d) => Completed(k, d)
    case Disconnect(d) => Disconnected(k, d)
    case Connect(d) => NewlyConnected(k, d)
    case Suspend(pid) => Moved(k, BLOCKED, SUSP_BLOCKED, pid)
    case Rollback(pid) => Moved(k, SUSP_BLOCKED, BLOCKED, pid)
    case DumpBegin(pid) => if Has(k.lists[EXEC], pid) then Moved(k, EXEC, BLOCKED, pid).(dumping := k.dumping + {pid}) else k
    case DumpEnd(pid, ok) => DumpEnded(k, pid, ok)
    case ExitSyscall(pid) => Moved(k, EXEC, EXIT, pid)
  }

  /** The pid is also the one another CPU was last given. */
  predicate OnAnotherCpu(k: State, cpu: nat, pid: int) {
    exists other: nat :: other < |k.cpus| && other != cpu && k.cpus[other] == pid
  }

  /** When a step can happen. The READY list is locked while the short-term scheduler waits
      for a reply, so steps that need it wait too. A CPU that answers for another process
      no longer runs the one it was last given, or another CPU does. No process is
      suspended while it waits for its dump; how long a process must have been in BLOCKED
      before it is suspended is left open, which allows more runs than the guard on it. */
  predicate Legal(k: State, step: Step)
    requires Fits(k)
  {
    match step
    case Tick(ms) => true
    case AddCpu => true
    case InitProc(caller, size) => true
    case Admit(pid) => k.wait.Idle? && Has(k.lists[NEW], pid)
    case TakeSuspended(pid) => Has(k.lists[SUSP_READY], pid)
    case MakeReady(pid) => k.wait.Idle? && Has(k.lists[HELD], pid)
    case Swap(list, i, j) => list < 8 && i < |k.lists[list]| && j < |k.lists[list]|
    case FreeCpu(cpu) => k.wait.Idle? && cpu < |k.cpus| && !Has(k.lists[EXEC], k.cpus[cpu])
    case Dispatch(cpu, pid) => k.wait.Idle? && cpu < |k.cpus| && !Has(k.lists[EXEC], k.cpus[cpu]) && Has(k.lists[READY], pid)
    case Interrupt(cpu, pid) => k.wait.Idle? && cpu < |k.cpus| && Has(k.lists[READY], pid)
    case Reply(samePid) =>
      && k.wait.Interrupting? && k.wait.cpu < |k.cpus|
      && (samePid || !Has(k.lists[EXEC], k.cpus[k.wait.cpu]) || OnAnotherCpu(k, k.wait.cpu, k.cpus[k.wait.cpu]))
    case IoSyscall(pid, d) => Connected(k, d) || Has(k.lists[EXEC], pid)
    case Serve(d) => true
    case Complete(d) => k.wait.Idle? && Connected(k, d) && k.devices[d].current != -1
    case Disconnect(d) => Connected(k, d)
    case Connect(d) => d <= |k.devices| && !Connected(k, d)
    case Suspend(pid) => pid !in k.dumping
    case Rollback(pid) => true
    case DumpBegin(pid) => true
    case DumpEnd(pid, ok) => k.wait.Idle? && pid in k.dumping
    case ExitSyscall(pid) => Has(k.lists[EXEC], pid)
  }

  // --- Moves ---------------------------------------------------------------

  /** What one move does to the counts of every list. */
  lemma MovedCounts(k: State, from: nat, to: nat, pid: int, list: nat, q: int)
    requires Fits(k) && from < 8 && to < 8 && from != to && list < 8 && Has(k.lists[from], pid)
    ensures Count(Moved(k, from, to, pid).lists[list], q)
         == Count(k.lists[list], q) + (if list == to && q == pid then 1 else 0) - (if list == from && q == pid then 1 else 0)
  {
    var i := Find(k.lists[from], pid);
    CountWithout(k.lists[from], i, q);
    var p := k.lists[from][i];
    CountAppend(k.lists[to], if to == HELD then p else ChangeState(p, to, k.clock), q);
  }

  lemma HasCount(list: seq<Pcb>, pid: int)
    ensures Has(list, pid) <==> Count(list, pid) > 0
  {
    HasIsCounted(list, pid, 0);
  }

  /** The occurrences in one list, and in all others. */
  lemma TakenApart(lists: seq<seq<Pcb>>, a: nat, pid: int)
    requires |lists| == 8 && a < 8
    ensures Occurrences(lists, pid) == Count(lists[a], pid) + Occurrences(lists[a := []], pid)
  {
    assert Count([], pid) == 0;
  }

  /** A process in one list is in no other. */
  lemma OneList(k: State, a: nat, b: nat, pid: int)
    requires Partitioned(k) && a < 8 && b < 8 && a != b && Has(k.lists[a], pid)
    ensures !Has(k.lists[b], pid) && Count(k.lists[a], pid) == 1 && 0 <= pid <= k.lastPid
  {
    HasCount(k.lists[a], pid);
    HasCount(k.lists[b], pid);
    TakenApart(k.lists, a, pid);
    TakenApart(k.lists[a := []], b, pid);
    assert Occurrences(k.lists, pid) <= 1;
  }

  predicate Allowed(from: nat, to: nat) {
    from < 8 && to < 8 && from != to && ((from == SUSP_READY && to == HELD) || (to != HELD && Transition(PhaseOf(from), to)))
  }

  /** A move along a transition keeps the partition and the books. */
  lemma MovedPartition(k: State, from: nat, to: nat, pid: int)
    requires Partitioned(k) && Fits(k) && Allowed(from, to)
    ensures Partitioned(Moved(k, from, to, pid))
  {
    var k' := Moved(k, from, to, pid);
    if Has(k.lists[from], pid) {
      forall q: int
        ensures Occurrences(k'.lists, q) == Occurrences(k.lists, q)
      {
        MovedOccurrences(k, from, to, pid, q);
      }
      MovedBooks(k, from, to, pid);
    }
  }

  lemma MovedOccurrences(k: State, from: nat, to: nat, pid: int, q: int)
    requires Fits(k) && from < 8 && to < 8 && from != to && Has(k.lists[from], pid)
    ensures Occurrences(Moved(k, from, to, pid).lists, q) == Occurrences(k.lists, q)
  {
    MovedCounts(k, from, to, pid, 0, q);
    MovedCounts(k, from, to, pid, 1, q);
    MovedCounts(k, from, to, pid, 2, q);
    MovedCounts(k, from, to, pid, 3, q);
    MovedCounts(k, from, to, pid, 4, q);
    MovedCounts(k, from, to, pid, 5, q);
    MovedCounts(k, from, to, pid, 6, q);
    MovedCounts(k, from, to, pid, 7, q);
  }

  lemma MovedBooks(k: State, from: nat, to: nat, pid: int)
    requires Partitioned(k) && Fits(k) && Allowed(from, to) && Has(k.lists[from], pid)
    ensures var k' := Moved(k, from, to, pid);
            forall i: nat, j: nat | i < 8 && j < |k'.lists[i]| :: Bookkept(k'.lists[i][j]) && k'.lists[i][j].phase == PhaseOf(i)
  {
    var k', at := Moved(k, from, to, pid), Find(k.lists[from], pid);
    var p := k.lists[from][at];
    assert Bookkept(p) && p.phase == PhaseOf(from);
    if to != HELD {
      ChangeStateKeepsBooks(p, to, k.clock);
    }
    forall i: nat, j: nat | i < 8 && j < |k'.lists[i]|
      ensures Bookkept(k'.lists[i][j]) && k'.lists[i][j].phase == PhaseOf(i)
    {
      if i == from {
        assert k'.lists[i][j] == k.lists[i][if j < at then j else j + 1];
      } else if i == to && j == |k.lists[to]| {
      } else {
        assert k'.lists[i][j] == k.lists[i][j];
      }
    }
  }

  // --- Each step keeps the invariant ---------------------------------------

  /** What a move of one process leaves of the rest of the invariant. */
  lemma MovedExecuting(k: State, from: nat, to: nat, pid: int)
    requires Partitioned(k) && Fits(k) && ExecutingOnCpus(k) && Allowed(from, to) && to != EXEC
    ensures ExecutingOnCpus(Moved(k, from, to, pid))
  {
    var k' := Moved(k, from, to, pid);
    if Has(k.lists[from], pid) {
      forall q: int | Has(k'.lists[EXEC], q)
        ensures q in k.cpus
      {
        MovedCounts(k, from, to, pid, EXEC, q);
        HasCount(k'.lists[EXEC], q);
        HasCount(k.lists[EXEC], q);
      }
    }
  }

  /** Blocked counts before and after a move. */
  lemma MovedBlocked(k: State, from: nat, to: nat, pid: int, q: int)
    requires Fits(k) && from < 8 && to < 8 && from != to && Has(k.lists[from], pid)
    ensures BlockedFor(Moved(k, from, to, pid).lists, q)
         == BlockedFor(k.lists, q) + (if q == pid && (to == BLOCKED || to == SUSP_BLOCKED) then 1 else 0)
                             - (if q == pid && (from == BLOCKED || from == SUSP_BLOCKED) then 1 else 0)
  {
    MovedCounts(k, from, to, pid, BLOCKED, q);
    MovedCounts(k, from, to, pid, SUSP_BLOCKED, q);
  }

  lemma MovedHas(k: State, from: nat, to: nat, pid: int, list: nat, q: int)
    requires Partitioned(k) && Fits(k) && from < 8 && to < 8 && from != to && list < 8
    ensures Has(k.lists[from], pid) ==>
              (Has(Moved(k, from, to, pid).lists[list], q) <==> if q == pid then list == to else Has(k.lists[list], q))
    ensures !Has(k.lists[from], pid) ==> Moved(k, from, to, pid) == k
  {
    if Has(k.lists[from], pid) {
      MovedCounts(k, from, to, pid, list, q);
      HasCount(Moved(k, from, to, pid).lists[list], q);
      HasCount(k.lists[list], q);
      if q == pid {
        HasCount(k.lists[from], pid);
        if list != from {
          OneList(k, from, list, pid);
        } else {
          OneList(k, from, to, pid);
        }
      }
    }
  }

  /** The dumping processes stay in BLOCKED when another process moves. */
  lemma MovedDumping(k: State, from: nat, to: nat, pid: int)
    requires Partitioned(k) && Fits(k) && IoMatched(k) && from < 8 && to < 8 && from != to
    requires from == BLOCKED ==> pid !in k.dumping
    ensures forall q: int | q in k.dumping :: q >= 0 && Has(Moved(k, from, to, pid).lists[BLOCKED], q)
  {
    forall q: int | q in k.dumping
      ensures Has(Moved(k, from, to, pid).lists[BLOCKED], q)
    {
      MovedHas(k, from, to, pid, BLOCKED, q);
      if q == pid && Has(k.lists[from], pid) {
        OneList(k, from, BLOCKED, pid);
      }
    }
  }

  /** A move among lists that are both blocked ones, or both not, leaves the IO books alone. */
  lemma MovedIo(k: State, from: nat, to: nat, pid: int)
    requires Partitioned(k) && Fits(k) && IoMatched(k) && from < 8 && to < 8 && from != to
    requires (from == BLOCKED || from == SUSP_BLOCKED) == (to == BLOCKED || to == SUSP_BLOCKED)
    requires from == BLOCKED ==> pid !in k.dumping
    ensures IoMatched(Moved(k, from, to, pid))
  {
    MovedDumping(k, from, to, pid);
    if Has(k.lists[from], pid) {
      forall q: int | q >= 0
        ensures BlockedFor(Moved(k, from, to, pid).lists, q) == BlockedFor(k.lists, q)
      {
        MovedBlocked(k, from, to, pid, q);
      }
    }
  }

  /** The process the short-term scheduler holds ready stays ready. */
  lemma MovedWaiting(k: State, from: nat, to: nat, pid: int)
    requires Partitioned(k) && Fits(k) && from < 8 && to < 8 && from != to
    requires k.wait.Interrupting? ==> Has(k.lists[READY], k.wait.pid) && from != READY
    ensures k.wait.Interrupting? ==> Has(Moved(k, from, to, pid).lists[READY], k.wait.pid)
  {
    if k.wait.Interrupting? {
      MovedHas(k, from, to, pid, READY, k.wait.pid);
      if k.wait.pid == pid && Has(k.lists[from], pid) {
        OneList(k, from, READY, pid);
      }
    }
  }

  /** Moves that involve neither blocked lists nor EXEC's growth keep the whole invariant. */
  lemma PlainMoveKeeps(k: State, from: nat, to: nat, pid: int)
    requires Inv(k) && Fits(k) && Allowed(from, to) && to != EXEC && from != READY
    requires (from == BLOCKED || from == SUSP_BLOCKED) == (to == BLOCKED || to == SUSP_BLOCKED)
    requires from == BLOCKED ==> pid !in k.dumping
    ensures Inv(Moved(k, from, to, pid))
  {
    MovedPartition(k, from, to, pid);
    MovedExecuting(k, from, to, pid);
    MovedIo(k, from, to, pid);
    MovedWaiting(k, from, to, pid);
    assert forall d: nat | d < |k.devices| :: DeviceFits(k, d) ==> DeviceFits(Moved(k, from, to, pid), d);
  }

  // Clock, sorting, creation.

  lemma {:induction false} CountUpdateUpTo(list: seq<Pcb>, i: nat, p: Pcb, n: nat, pid: int)
    requires i < |list| && n <= |list|
    ensures CountUpTo(list[i := p], n, pid)
         == CountUpTo(list, n, pid) + (if i < n && p.pid == pid then 1 else 0) - (if i < n && list[i].pid == pid then 1 else 0)
  {
    if n > 0 {
      CountUpdateUpTo(list, i, p, n - 1, pid);
    }
  }

  lemma CountSwapped(list: seq<Pcb>, i: nat, j: nat, pid: int)
    requires i < |list| && j < |list|
    ensures Count(Swapped(list, i, j), pid) == Count(list, pid)
  {
    CountUpdateUpTo(list, i, list[j], |list|, pid);
    CountUpdateUpTo(list[i := list[j]], j, list[i], |list|, pid);
  }

  lemma SwapHas(k: State, list: nat, i: nat, j: nat, l: nat, pid: int)
    requires Fits(k) && Legal(k, Swap(list, i, j)) && l < 8
    ensures Count(Apply(k, Swap(list, i, j)).lists[l], pid) == Count(k.lists[l], pid)
    ensures Has(Apply(k, Swap(list, i, j)).lists[l], pid) <==> Has(k.lists[l], pid)
  {
    CountSwapped(k.lists[list], i, j, pid);
    HasCount(k.lists[l], pid);
    HasCount(Apply(k, Swap(list, i, j)).lists[l], pid);
  }

  lemma SwapOccurrences(k: State, list: nat, i: nat, j: nat, pid: int)
    requires Fits(k) && Legal(k, Swap(list, i, j))
    ensures Occurrences(Apply(k, Swap(list, i, j)).lists, pid) == Occurrences(k.lists, pid)
    ensures BlockedFor(Apply(k, Swap(list, i, j)).lists, pid) == BlockedFor(k.lists, pid)
  {
    CountSwapped(k.lists[list], i, j, pid);
  }

  lemma SwapBooks(k: State, list: nat, i: nat, j: nat)
    requires Partitioned(k) && Fits(k) && Legal(k, Swap(list, i, j))
    ensures Partitioned(Apply(k, Swap(list, i, j)))
  {
    var k' := Apply(k, Swap(list, i, j));
    forall pid: int
      ensures Occurrences(k'.lists, pid) == Occurrences(k.lists, pid)
    {
      SwapOccurrences(k, list, i, j, pid);
    }
    forall l: nat, m: nat | l < 8 && m < |k'.lists[l]|
      ensures Bookkept(k'.lists[l][m]) && k'.lists[l][m].phase == PhaseOf(l)
    {
      assert k'.lists[l][m] == k.lists[l][if l != list then m else if m == i then j else if m == j then i else m];
    }
  }

  lemma SwapKeepsEveryPlace(k: State, list: nat, i: nat, j: nat)
    requires Fits(k) && Legal(k, Swap(list, i, j))
    ensures forall l: nat, pid: int | l < 8 :: Has(Apply(k, Swap(list, i, j)).lists[l], pid) <==> Has(k.lists[l], pid)
    ensures forall pid: int :: BlockedFor(Apply(k, Swap(list, i, j)).lists, pid) == BlockedFor(k.lists, pid)
  {
    var k' := Apply(k, Swap(list, i, j));
    forall l: nat, pid: int | l < 8
      ensures Has(k'.lists[l], pid) <==> Has(k.lists[l], pid)
    {
      SwapHas(k, list, i, j, l, pid);
    }
    forall pid: int
      ensures BlockedFor(k'.lists, pid) == BlockedFor(k.lists, pid)
    {
      SwapOccurrences(k, list, i, j, pid);
    }
  }

  lemma SwapKeeps(k: State, list: nat, i: nat, j: nat)
    requires Inv(k) && Fits(k) && Legal(k, Swap(list, i, j))
    ensures Inv(Apply(k, Swap(list, i, j)))
  {
    var k' := Apply(k, Swap(list, i, j));
    SwapBooks(k, list, i, j);
    SwapKeepsEveryPlace(k, list, i, j);
    assert forall d: nat | d < |k.devices| :: DeviceFits(k, d) ==> DeviceFits(k', d);
  }

  lemma CreatedCounts(k: State, size: int, l: nat, pid: int)
    requires |k.lists| == 8 && l < 8
    ensures Count(Created(k, size).lists[l], pid) == Count(k.lists[l], pid) + (if l == NEW && pid == k.lastPid + 1 then 1 else 0)
    ensures l != NEW ==> Created(k, size).lists[l] == k.lists[l]
  {
    CountAppend(k.lists[NEW], NewPcb(k.lastPid + 1, size, k.clock), pid);
  }

  lemma CreatedPartition(k: State, size: int)
    requires Partitioned(k) && k.lastPid >= 0
    ensures Partitioned(Created(k, size))
  {
    var k' := Created(k, size);
    forall pid: int
      ensures Occurrences(k'.lists, pid) == if 0 <= pid <= k'.lastPid then 1 else 0
    {
      CreatedCounts(k, size, NEW, pid);
      assert Occurrences(k'.lists, pid) == Occurrences(k.lists, pid) + (if pid == k.lastPid + 1 then 1 else 0);
    }
    assert Bookkept(NewPcb(k.lastPid + 1, size, k.clock));
  }

  lemma CreatedKeeps(k: State, size: int)
    requires Inv(k)
    ensures Inv(Created(k, size))
  {
    CreatedPartition(k, size);
    forall pid: int
      ensures BlockedFor(Created(k, size).lists, pid) == BlockedFor(k.lists, pid)
    {
    }
    assert forall d: nat | d < |k.devices| :: DeviceFits(k, d) ==> DeviceFits(Created(k, size), d);
  }

  lemma QuietKeeps(k: State, step: Step)
    requires Inv(k) && Fits(k) && Legal(k, step) && (step.Tick? || step.AddCpu? || step.Interrupt?)
    ensures Inv(Apply(k, step))
  {
    assert forall d: nat | d < |k.devices| :: DeviceFits(k, d) ==> DeviceFits(Apply(k, step), d);
  }

  // Dispatching.

  /** A CPU may take a ready process when what it was last given left EXEC or is on another CPU. */
  lemma DispatchKeeps(k: State, cpu: nat, pid: int)
    requires Inv(k) && Fits(k) && cpu < |k.cpus| && Has(k.lists[READY], pid)
    requires !Has(k.lists[EXEC], k.cpus[cpu]) || OnAnotherCpu(k, cpu, k.cpus[cpu])
    ensures Inv(Dispatched(k, cpu, pid))
  {
    var k' := Dispatched(k, cpu, pid);
    MovedPartition(k, READY, EXEC, pid);
    MovedIo(k, READY, EXEC, pid);
    forall q: int | Has(k'.lists[EXEC], q)
      ensures q in k'.cpus
    {
      MovedHas(k, READY, EXEC, pid, EXEC, q);
      if q == pid {
        assert k'.cpus[cpu] == q;
      } else {
        StaysOnCpu(k, cpu, pid, q);
      }
    }
    assert forall d: nat | d < |k.devices| :: DeviceFits(k, d) ==> DeviceFits(k', d);
  }

  /** A CPU whose process left EXEC is marked free. */
  lemma FreeCpuKeeps(k: State, cpu: nat)
    requires Inv(k) && Fits(k) && Legal(k, FreeCpu(cpu))
    ensures Inv(Apply(k, FreeCpu(cpu)))
  {
    var k' := Apply(k, FreeCpu(cpu));
    forall pid: int | Has(k'.lists[EXEC], pid)
      ensures pid in k'.cpus
    {
      var other: nat :| other < |k.cpus| && k.cpus[other] == pid;
      assert k'.cpus[other] == pid;
    }
    DevicesStillFit(k, k');
  }

  lemma StaysOnCpu(k: State, cpu: nat, pid: int, q: int)
    requires |k.lists| == 8 && ExecutingOnCpus(k) && cpu < |k.cpus| && Has(k.lists[EXEC], q)
    requires !Has(k.lists[EXEC], k.cpus[cpu]) || OnAnotherCpu(k, cpu, k.cpus[cpu])
    ensures q in k.cpus[cpu := pid]
  {
    assert q in k.cpus;
    var c: nat :| c < |k.cpus| && k.cpus[c] == q;
    if c == cpu {
      var other: nat :| other < |k.cpus| && other != cpu && k.cpus[other] == q;
      assert k.cpus[cpu := pid][other] == q;
    } else {
      assert k.cpus[cpu := pid][c] == q;
    }
  }

  lemma ReplyKeeps(k: State, samePid: bool)
    requires Inv(k) && Fits(k) && Legal(k, Reply(samePid))
    ensures Inv(Replied(k, samePid))
  {
    var cpu := k.wait.cpu;
    if samePid {
      var current := k.cpus[cpu];
      var stopped := Moved(k, EXEC, READY, current);
      PlainMoveKeeps(k, EXEC, READY, current);
      MovedHas(k, EXEC, READY, current, EXEC, current);
      DispatchKeeps(stopped, cpu, k.wait.pid);
    } else {
      DispatchKeeps(k, cpu, k.wait.pid);
    }
  }

  // IO.

  lemma {:induction false} RequestsReplaceUpTo(devices: seq<Device>, d: nat, device: Device, n: nat, pid: int)
    requires d < |devices| && n <= |devices|
    ensures RequestsUpTo(devices[d := device], n, pid)
         == RequestsUpTo(devices, n, pid) + (if d < n then RequestsAt(device, pid) - RequestsAt(devices[d], pid) else 0)
  {
    if n > 0 {
      RequestsReplaceUpTo(devices, d, device, n - 1, pid);
    }
  }

  lemma RequestsReplace(devices: seq<Device>, d: nat, device: Device, pid: int)
    requires d < |devices|
    ensures RequestsUpTo(devices[d := device], |devices|, pid)
         == RequestsUpTo(devices, |devices|, pid) + RequestsAt(device, pid) - RequestsAt(devices[d], pid)
  {
    RequestsReplaceUpTo(devices, d, device, |devices|, pid);
  }

  lemma {:induction false} RequestsAreCounted(devices: seq<Device>, d: nat, n: nat, pid: int)
    requires d < n <= |devices|
    ensures RequestsUpTo(devices, n, pid) >= RequestsAt(devices[d], pid)
  {
    if d < n - 1 {
      RequestsAreCounted(devices, d, n - 1, pid);
    }
  }

  /** The process a device works for is in a blocked list, waits for no dump, and has no
      other request. */
  lemma InWorkIsBlocked(k: State, d: nat)
    requires Inv(k) && d < |k.devices| && k.devices[d].current != -1
    ensures var pid := k.devices[d].current;
            && pid >= 0 && InAnyBlocked(k, pid) && pid !in k.dumping
            && BlockedFor(k.lists, pid) == 1 && pid !in multiset(k.devices[d].queue)
  {
    var pid := k.devices[d].current;
    assert DeviceFits(k, d);
    RequestsAreCounted(k.devices, d, |k.devices|, pid);
    HasCount(k.lists[BLOCKED], pid);
    HasCount(k.lists[SUSP_BLOCKED], pid);
    assert Occurrences(k.lists, pid) <= 1;
  }

  lemma OtherDevicesFit(k: State, k': State, d: nat)
    requires |k'.devices| >= |k.devices| && k.due - {d} <= k'.due
    requires forall e: nat | e < |k.devices| && e != d :: k'.devices[e] == k.devices[e] && DeviceFits(k, e)
    ensures forall e: nat | e < |k.devices| && e != d :: DeviceFits(k', e)
  {
    forall e: nat | e < |k.devices| && e != d
      ensures DeviceFits(k', e)
    {
      assert DeviceFits(k, e);
    }
  }

  lemma QueueGrows(queue: seq<int>, pid: int, q: int)
    ensures multiset(queue + [pid])[q] == multiset(queue)[q] + (if q == pid then 1 else 0)
  {
  }

  lemma IoRequestMatched(k: State, pid: int, d: nat)
    requires Partitioned(k) && IoMatched(k) && Fits(k) && Connected(k, d) && Has(k.lists[EXEC], pid) && pid !in k.dumping
    requires k.devices[d].current >= -1
    ensures IoMatched(IoRequested(k, pid, d))
  {
    var k' := IoRequested(k, pid, d);
    MovedDumping(k, EXEC, BLOCKED, pid);
    forall q: int | q >= 0
      ensures BlockedFor(k'.lists, q) == RequestsUpTo(k'.devices, |k'.devices|, q) + (if q in k'.dumping then 1 else 0)
    {
      MovedBlocked(k, EXEC, BLOCKED, pid, q);
      RequestsReplace(k.devices, d, k'.devices[d], q);
      QueueGrows(k.devices[d].queue, pid, q);
    }
  }

  /** A process blocks for IO with one request more. */
  lemma IoRequestKeeps(k: State, pid: int, d: nat)
    requires Inv(k) && Fits(k) && Connected(k, d) && Has(k.lists[EXEC], pid)
    ensures Inv(IoRequested(k, pid, d))
  {
    var k' := IoRequested(k, pid, d);
    assert DeviceFits(k, d);
    OneList(k, EXEC, BLOCKED, pid);
    IoRequestMatched(k, pid, d);
    MovedPartition(k, EXEC, BLOCKED, pid);
    MovedExecuting(k, EXEC, BLOCKED, pid);
    MovedWaiting(k, EXEC, BLOCKED, pid);
    OtherDevicesFit(k, k', d);
    RequestedDeviceFits(k, pid, d);
  }

  lemma RequestedDeviceFits(k: State, pid: int, d: nat)
    requires Fits(k) && Connected(k, d) && Has(k.lists[EXEC], pid) && DeviceFits(k, d) && pid >= 0
    ensures d < |IoRequested(k, pid, d).devices| && DeviceFits(IoRequested(k, pid, d), d)
  {
    var device := k.devices[d];
    assert device.sent + device.queue + [pid] == device.sent + (device.queue + [pid]);
  }

  lemma QueueShrinks(queue: seq<int>, q: int)
    requires queue != []
    ensures multiset(queue)[q] == multiset(queue[1..])[q] + (if q == queue[0] then 1 else 0)
  {
    assert queue == [queue[0]] + queue[1..];
  }

  /** Serving sends the oldest request; it stays accounted for. */
  lemma ServeKeeps(k: State, d: nat)
    requires Inv(k) && Fits(k)
    ensures Inv(Served(k, d))
  {
    var k' := Served(k, d);
    if Connected(k, d) {
      assert DeviceFits(k, d);
      if k.devices[d].current != -1 {
        InWorkIsBlocked(k, d);
      }
      if k'.devices == k.devices {
        assert forall e: nat | e < |k.devices| :: DeviceFits(k, e) ==> DeviceFits(k', e);
      } else {
        ServeSends(k, d);
      }
    } else {
      assert forall e: nat | e < |k.devices| :: DeviceFits(k, e) ==> DeviceFits(k', e);
    }
  }

  lemma ServeSends(k: State, d: nat)
    requires Inv(k) && Fits(k) && Connected(k, d) && k.devices[d].current == -1 && k.devices[d].queue != []
    ensures Inv(Served(k, d))
  {
    var k', device := Served(k, d), k.devices[d];
    assert DeviceFits(k, d);
    forall q: int | q >= 0
      ensures RequestsUpTo(k'.devices, |k'.devices|, q) == RequestsUpTo(k.devices, |k.devices|, q)
    {
      RequestsReplace(k.devices, d, k'.devices[d], q);
      QueueShrinks(device.queue, q);
    }
    OtherDevicesFit(k, k', d);
    assert k'.devices[d].enqueued == k'.devices[d].sent + k'.devices[d].queue;
  }

  /** A state in which a device has let go of its process: unblocked or ended. */
  ghost predicate LetGo(k: State, k': State, d: nat, a: nat, b: nat)
    requires Fits(k)
  {
    && d < |k.devices| == |k'.devices| && a < 7 && b < 7 && a != BLOCKED && b != SUSP_BLOCKED
    && k'.lists == Unblocked(k, k.devices[d].current, a, b).lists
    && k'.devices == k.devices[d := k'.devices[d]]
    && k'.devices[d].current == -1 && k'.devices[d].queue == k.devices[d].queue
    && k'.dumping == k.dumping && k'.lastPid == k.lastPid && k'.cpus == k.cpus && k'.wait == k.wait
  }

  lemma LetGoMatched(k: State, k': State, d: nat, a: nat, b: nat)
    requires Inv(k) && Fits(k) && LetGo(k, k', d, a, b) && k.devices[d].current != -1
    requires a != SUSP_BLOCKED && b != BLOCKED
    ensures |k'.lists| == 8 && IoMatched(k')
  {
    var pid := k.devices[d].current;
    InWorkIsBlocked(k, d);
    var from, to := if Has(k.lists[BLOCKED], pid) then BLOCKED else SUSP_BLOCKED, if Has(k.lists[BLOCKED], pid) then a else b;
    MovedDumping(k, from, to, pid);
    forall q: int | q >= 0
      ensures BlockedFor(k'.lists, q) == RequestsUpTo(k'.devices, |k'.devices|, q) + (if q in k'.dumping then 1 else 0)
    {
      MovedBlocked(k, from, to, pid, q);
      RequestsReplace(k.devices, d, k'.devices[d], q);
    }
  }

  lemma LetGoPartition(k: State, k': State, d: nat, a: nat, b: nat)
    requires Inv(k) && Fits(k) && LetGo(k, k', d, a, b)
    requires Allowed(BLOCKED, a) && Allowed(SUSP_BLOCKED, b)
    ensures Partitioned(k') && ExecutingOnCpus(k')
    ensures k'.wait.Interrupting? ==> k'.wait.cpu < |k'.cpus| && Has(k'.lists[READY], k'.wait.pid)
  {
    var pid := k.devices[d].current;
    var from, to := if Has(k.lists[BLOCKED], pid) then BLOCKED else SUSP_BLOCKED, if Has(k.lists[BLOCKED], pid) then a else b;
    MovedPartition(k, from, to, pid);
    MovedExecuting(k, from, to, pid);
    MovedWaiting(k, from, to, pid);
    assert forall q: int :: Occurrences(k'.lists, q) == Occurrences(Moved(k, from, to, pid).lists, q);
  }

  lemma CompleteKeeps(k: State, d: nat)
    requires Inv(k) && Fits(k) && Legal(k, Complete(d))
    ensures Inv(Completed(k, d))
  {
    var k' := Completed(k, d);
    assert DeviceFits(k, d);
    LetGoMatched(k, k', d, READY, SUSP_READY);
    LetGoPartition(k, k', d, READY, SUSP_READY);
    OtherDevicesFit(k, k', d);
  }

  lemma DisconnectKeeps(k: State, d: nat)
    requires Inv(k) && Fits(k) && Legal(k, Disconnect(d))
    ensures Inv(Disconnected(k, d))
  {
    var k' := Disconnected(k, d);
    assert DeviceFits(k, d);
    OtherDevicesFit(k, k', d);
    if k.devices[d].current != -1 {
      LetGoMatched(k, k', d, EXIT, EXIT);
      LetGoPartition(k, k', d, EXIT, EXIT);
    } else {
      DeviceQuietlyChanges(k, k', d);
    }
  }

  /** Changing a device that works for nobody, and nothing else. */
  lemma DeviceQuietlyChanges(k: State, k': State, d: nat)
    requires Inv(k) && d < |k.devices| == |k'.devices| && k'.devices == k.devices[d := k'.devices[d]]
    requires k.devices[d].current == -1 == k'.devices[d].current && k'.devices[d].queue == k.devices[d].queue
    requires k'.lists == k.lists && k'.dumping == k.dumping && k'.lastPid == k.lastPid && k'.cpus == k.cpus && k'.wait == k.wait
    ensures Partitioned(k') && ExecutingOnCpus(k') && IoMatched(k')
    ensures k'.wait.Interrupting? ==> k'.wait.cpu < |k'.cpus| && Has(k'.lists[READY], k'.wait.pid)
  {
    forall q: int | q >= 0
      ensures RequestsUpTo(k'.devices, |k'.devices|, q) == RequestsUpTo(k.devices, |k.devices|, q)
    {
      RequestsReplace(k.devices, d, k'.devices[d], q);
    }
  }

  lemma {:induction false} RequestsSame(devices: seq<Device>, devices': seq<Device>, n: nat, pid: int)
    requires n <= |devices| && n <= |devices'| && forall e: nat | e < n :: devices[e] == devices'[e]
    ensures RequestsUpTo(devices, n, pid) == RequestsUpTo(devices', n, pid)
  {
    if n > 0 {
      RequestsSame(devices, devices', n - 1, pid);
    }
  }

  /** A name seen for the first time. */
  lemma FirstConnectKeeps(k: State)
    requires Inv(k)
    ensures Inv(NewlyConnected(k, |k.devices|))
  {
    var k' := NewlyConnected(k, |k.devices|);
    forall q: int | q >= 0
      ensures RequestsUpTo(k'.devices, |k'.devices|, q) == RequestsUpTo(k.devices, |k.devices|, q)
    {
      RequestsSame(k.devices, k'.devices, |k.devices|, q);
    }
    forall d: nat | d < |k'.devices|
      ensures DeviceFits(k', d)
    {
      assert d < |k.devices| ==> DeviceFits(k, d);
    }
  }

  lemma ConnectKeeps(k: State, d: nat)
    requires Inv(k) && Fits(k) && Legal(k, Connect(d))
    ensures Inv(NewlyConnected(k, d))
  {
    if d < |k.devices| {
      var k' := NewlyConnected(k, d);
      assert DeviceFits(k, d);
      OtherDevicesFit(k, k', d);
      DeviceQuietlyChanges(k, k', d);
    } else {
      FirstConnectKeeps(k);
    }
  }

  // Dumps.

  lemma DumpBeginMatched(k: State, pid: int)
    requires Partitioned(k) && IoMatched(k) && Fits(k) && Has(k.lists[EXEC], pid)
    ensures IoMatched(Apply(k, DumpBegin(pid)))
  {
    var k' := Apply(k, DumpBegin(pid));
    OneList(k, EXEC, BLOCKED, pid);
    MovedDumping(k, EXEC, BLOCKED, pid);
    MovedHas(k, EXEC, BLOCKED, pid, BLOCKED, pid);
    forall q: int | q >= 0
      ensures BlockedFor(k'.lists, q) == RequestsUpTo(k'.devices, |k'.devices|, q) + (if q in k'.dumping then 1 else 0)
    {
      MovedBlocked(k, EXEC, BLOCKED, pid, q);
    }
  }

  lemma DevicesStillFit(k: State, k': State)
    requires k'.devices == k.devices && k'.due == k.due && forall d: nat | d < |k.devices| :: DeviceFits(k, d)
    ensures forall d: nat | d < |k'.devices| :: DeviceFits(k', d)
  {
    forall d: nat | d < |k'.devices|
      ensures DeviceFits(k', d)
    {
      assert DeviceFits(k, d);
    }
  }

  lemma DumpBeginKeeps(k: State, pid: int)
    requires Inv(k) && Fits(k) && Has(k.lists[EXEC], pid)
    ensures Inv(Apply(k, DumpBegin(pid)))
  {
    DumpBeginMatched(k, pid);
    MovedPartition(k, EXEC, BLOCKED, pid);
    MovedExecuting(k, EXEC, BLOCKED, pid);
    MovedWaiting(k, EXEC, BLOCKED, pid);
    DevicesStillFit(k, Apply(k, DumpBegin(pid)));
  }

  lemma DumpEndMatched(k: State, pid: int, ok: bool)
    requires Partitioned(k) && IoMatched(k) && Fits(k) && pid in k.dumping
    ensures IoMatched(DumpEnded(k, pid, ok))
  {
    var k', to := DumpEnded(k, pid, ok), if ok then READY else EXIT;
    forall q: int | q >= 0
      ensures BlockedFor(k'.lists, q) == RequestsUpTo(k'.devices, |k'.devices|, q) + (if q in k'.dumping then 1 else 0)
    {
      MovedBlocked(k, BLOCKED, to, pid, q);
    }
    forall q: int | q in k'.dumping
      ensures Has(k'.lists[BLOCKED], q)
    {
      MovedHas(k, BLOCKED, to, pid, BLOCKED, q);
    }
  }

  lemma DumpEndKeeps(k: State, pid: int, ok: bool)
    requires Inv(k) && Fits(k) && Legal(k, DumpEnd(pid, ok))
    ensures Inv(DumpEnded(k, pid, ok))
  {
    var to := if ok then READY else EXIT;
    DumpEndMatched(k, pid, ok);
    MovedPartition(k, BLOCKED, to, pid);
    MovedExecuting(k, BLOCKED, to, pid);
    DevicesStillFit(k, DumpEnded(k, pid, ok));
  }

  // --- Runs ----------------------------------------------------------------

  /** The steps of the IO handlers and of the dump. */
  predicate IoStep(step: Step) {
    step.IoSyscall? || step.Serve? || step.Complete? || step.Disconnect? || step.Connect? || step.DumpBegin? || step.DumpEnd?
  }

  lemma IoStepKeepsInv(k: State, step: Step)
    requires Inv(k) && Fits(k) && Legal(k, step) && IoStep(step)
    ensures Inv(Apply(k, step))
  {
    match step {
      case IoSyscall(pid, d) =>
        if !Connected(k, d) {
          PlainMoveKeeps(k, EXEC, EXIT, pid);
        } else if Has(k.lists[EXEC], pid) {
          IoRequestKeeps(k, pid, d);
        }
      case Serve(d) => ServeKeeps(k, d);
      case Complete(d) => CompleteKeeps(k, d);
      case Disconnect(d) => DisconnectKeeps(k, d);
      case Connect(d) => ConnectKeeps(k, d);
      case DumpBegin(pid) =>
        if Has(k.lists[EXEC], pid) {
          DumpBeginKeeps(k, pid);
        }
      case DumpEnd(pid, ok) => DumpEndKeeps(k, pid, ok);
    }
  }

  lemma StepKeepsInv(k: State, step: Step)
    requires Inv(k) && Fits(k) && Legal(k, step)
    ensures Inv(Apply(k, step))
  {
    if IoStep(step) {
      IoStepKeepsInv(k, step);
      return;
    }
    match step {
      case Tick(ms) => QuietKeeps(k, step);
      case AddCpu => QuietKeeps(k, step);
      case InitProc(caller, size) => CreatedKeeps(k, size);
      case Admit(pid) => PlainMoveKeeps(k, NEW, READY, pid);
      case TakeSuspended(pid) => PlainMoveKeeps(k, SUSP_READY, HELD, pid);
      case MakeReady(pid) => PlainMoveKeeps(k, HELD, READY, pid);
      case Swap(list, i, j) => SwapKeeps(k, list, i, j);
      case FreeCpu(cpu) => FreeCpuKeeps(k, cpu);
      case Dispatch(cpu, pid) => DispatchKeeps(k, cpu, pid);
      case Interrupt(cpu, pid) => QuietKeeps(k, step);
      case Reply(samePid) => ReplyKeeps(k, samePid);
      case Suspend(pid) => PlainMoveKeeps(k, BLOCKED, SUSP_BLOCKED, pid);
      case Rollback(pid) => PlainMoveKeeps(k, SUSP_BLOCKED, BLOCKED, pid);
      case ExitSyscall(pid) => PlainMoveKeeps(k, EXEC, EXIT, pid);
    }
  }

  /** The state after a run of legal steps. */
  ghost predicate Reaches(k: State, steps: seq<Step>, k': State)
    decreases |steps|
  {
    if steps == [] then k' == k
    else Fits(k) && Legal(k, steps[0]) && Reaches(Apply(k, steps[0]), steps[1..], k')
  }

  lemma {:induction false} RunsJoin(k: State, steps: seq<Step>, k': State, more: seq<Step>, k'': State)
    requires Reaches(k, steps, k') && Reaches(k', more, k'')
    ensures Reaches(k, steps + more, k'')
    decreases |steps|
  {
    if steps == [] {
      assert steps + more == more;
    } else {
      RunsJoin(Apply(k, steps[0]), steps[1..], k', more, k'');
      assert (steps + more)[1..] == steps[1..] + more;
    }
  }

  lemma InitialInv(size: int)
    ensures Inv(Initial(size))
  {
    var k := Initial(size);
    assert Bookkept(NewPcb(0, size, 0));
    forall pid: int
      ensures Occurrences(k.lists, pid) == if pid == 0 then 1 else 0
    {
      CountAppend([], NewPcb(0, size, 0), pid);
      assert [] + [NewPcb(0, size, 0)] == k.lists[NEW];
    }
  }

  /** In every reachable state each process is in exactly one list, with its state naming
      the list and its books right; the processes blocked for IO are those queued or in
      work, each once; and idle connected devices with requests are about to be served. */
  lemma {:induction false} RunKeepsInv(k: State, steps: seq<Step>, k': State)
    requires Inv(k) && Reaches(k, steps, k')
    ensures Inv(k')
    decreases |steps|
  {
    if steps != [] {
      StepKeepsInv(k, steps[0]);
      RunKeepsInv(Apply(k, steps[0]), steps[1..], k');
    }
  }

  lemma ReachableInv(size: int, steps: seq<Step>, k': State)
    requires Reaches(Initial(size), steps, k')
    ensures Inv(k')
  {
    InitialInv(size);
    RunKeepsInv(Initial(size), steps, k');
  }

  // --- Consequences --------------------------------------------------------

  ghost function PidsOf(list: seq<Pcb>, n: nat): set<int>
    requires n <= |list|
  {
    set j: nat | j < n :: list[j].pid
  }

  lemma {:induction false} PidsAreAsMany(list: seq<Pcb>, n: nat)
    requires n <= |list| && forall i: nat, j: nat | i < j < n :: list[i].pid != list[j].pid
    ensures |PidsOf(list, n)| == n
  {
    if n > 0 {
      PidsAreAsMany(list, n - 1);
      assert PidsOf(list, n) == PidsOf(list, n - 1) + {list[n - 1].pid};
      assert list[n - 1].pid !in PidsOf(list, n - 1);
    } else {
      assert PidsOf(list, 0) == {};
    }
  }

  ghost function ValuesOf(cpus: seq<int>, n: nat): set<int>
    requires n <= |cpus|
  {
    set c: nat | c < n :: cpus[c]
  }

  lemma {:induction false} FewValues(cpus: seq<int>, n: nat)
    requires n <= |cpus|
    ensures |ValuesOf(cpus, n)| <= n
  {
    if n > 0 {
      FewValues(cpus, n - 1);
      assert ValuesOf(cpus, n) == ValuesOf(cpus, n - 1) + {cpus[n - 1]};
    } else {
      assert ValuesOf(cpus, 0) == {};
    }
  }

  lemma SubsetSize(a: set<int>, b: set<int>)
    requires a <= b
    ensures |a| <= |b|
  {
    assert b == a + (b - a);
  }

  lemma TwiceIsCountedTwice(list: seq<Pcb>, i: nat, j: nat)
    requires i < j < |list|
    ensures list[i].pid == list[j].pid ==> Count(list, list[i].pid) >= 2
  {
    CountWithout(list, j, list[i].pid);
    CountWithout(Without(list, j), i, list[i].pid);
  }

  lemma ExecutingPidsDiffer(k: State, i: nat, j: nat)
    requires Partitioned(k) && i < j < |k.lists[EXEC]|
    ensures k.lists[EXEC][i].pid != k.lists[EXEC][j].pid
  {
    TwiceIsCountedTwice(k.lists[EXEC], i, j);
    assert Occurrences(k.lists, k.lists[EXEC][i].pid) <= 1;
  }

  lemma MemberIsCounted(list: seq<Pcb>, j: nat)
    requires j < |list|
    ensures Has(list, list[j].pid)
  {
    CountWithout(list, j, list[j].pid);
    HasCount(list, list[j].pid);
  }

  /** No more processes execute than there are CPUs. */
  lemma ExecutingFitsCpus(k: State)
    requires Inv(k)
    ensures |k.lists[EXEC]| <= |k.cpus|
  {
    var list, n := k.lists[EXEC], |k.lists[EXEC]|;
    forall i: nat, j: nat | i < j < n
      ensures list[i].pid != list[j].pid
    {
      ExecutingPidsDiffer(k, i, j);
    }
    PidsAreAsMany(list, n);
    forall pid | pid in PidsOf(list, n)
      ensures pid in ValuesOf(k.cpus, |k.cpus|)
    {
      var j: nat :| j < n && list[j].pid == pid;
      MemberIsCounted(list, j);
    }
    SubsetSize(PidsOf(list, n), ValuesOf(k.cpus, |k.cpus|));
    FewValues(k.cpus, |k.cpus|);
  }

  /** Outside dumps, a process is blocked exactly when it has a request, and then just one. */
  lemma BlockedHasOneRequest(k: State, pid: int)
    requires Inv(k) && pid >= 0 && pid !in k.dumping
    ensures InAnyBlocked(k, pid) <==> RequestsUpTo(k.devices, |k.devices|, pid) > 0
    ensures RequestsUpTo(k.devices, |k.devices|, pid) <= 1
  {
    HasCount(k.lists[BLOCKED], pid);
    HasCount(k.lists[SUSP_BLOCKED], pid);
    assert Occurrences(k.lists, pid) <= 1;
  }

  /** With no handler mid-way, a connected device with requests works for a blocked
      process; and what it was sent is the front of what was enqueued for it. */
  lemma QuietDevicesWork(k: State, d: nat)
    requires Inv(k) && d < |k.devices|
    ensures k.devices[d].sent <= k.devices[d].enqueued
    ensures k.due == {} && k.devices[d].connected && k.devices[d].queue != [] ==>
              k.devices[d].current != -1 && InAnyBlocked(k, k.devices[d].current)
  {
    assert DeviceFits(k, d);
    if k.devices[d].current != -1 {
      InWorkIsBlocked(k, d);
    }
  }

  // --- Order within a list -------------------------------------------------

  /** A list keeps its order: at most one block left, others joined at the end. */
  ghost predicate KeepsOrder(list: seq<Pcb>, list': seq<Pcb>) {
    exists i: nat :: i <= |list| && Left(list, i) <= list'
  }

  /** A list without the block at a position, whole when there is none. */
  function Left(list: seq<Pcb>, i: nat): seq<Pcb> {
    if i < |list| then Without(list, i) else list
  }

  lemma KeptWhole(list: seq<Pcb>, list': seq<Pcb>)
    requires list <= list'
    ensures KeepsOrder(list, list')
  {
    assert Left(list, |list|) <= list';
  }

  lemma MovedKeepsOrder(k: State, from: nat, to: nat, pid: int, l: nat)
    requires Fits(k) && from < 8 && to < 8 && from != to && l < 8
    ensures KeepsOrder(k.lists[l], Moved(k, from, to, pid).lists[l])
  {
    var i := Find(k.lists[from], pid);
    if l == from && i < |k.lists[from]| {
      assert Left(k.lists[l], i) <= Moved(k, from, to, pid).lists[l];
    } else {
      KeptWhole(k.lists[l], Moved(k, from, to, pid).lists[l]);
    }
  }

  lemma {:induction false} FindInLonger(list: seq<Pcb>, p: Pcb, pid: int, from: nat)
    requires from <= |list| && FindFrom(list, pid, from) < |list|
    ensures FindFrom(list + [p], pid, from) == FindFrom(list, pid, from)
    decreases |list| - from
  {
    if list[from].pid != pid {
      FindInLonger(list, p, pid, from + 1);
    }
  }

  lemma StopKeepsFirst(k: State, stopped: State, pid: int)
    requires Fits(k) && Has(k.lists[READY], pid) && |stopped.lists| == 8
    requires stopped.lists[READY] == k.lists[READY] || exists p: Pcb :: stopped.lists[READY] == k.lists[READY] + [p]
    ensures Find(stopped.lists[READY], pid) == Find(k.lists[READY], pid)
  {
    if stopped.lists[READY] != k.lists[READY] {
      var p: Pcb :| stopped.lists[READY] == k.lists[READY] + [p];
      FindInLonger(k.lists[READY], p, pid, 0);
    }
  }

  /** READY around a preemption: the stopped process joins at the end, the waiting one leaves. */
  lemma ReadyAfterReply(k: State, samePid: bool)
    requires Fits(k) && Legal(k, Reply(samePid)) && Has(k.lists[READY], k.wait.pid)
    ensures KeepsOrder(k.lists[READY], Replied(k, samePid).lists[READY])
  {
    var stopped := if samePid then Moved(k, EXEC, READY, k.cpus[k.wait.cpu]) else k;
    var ready, i := k.lists[READY], Find(k.lists[READY], k.wait.pid);
    if stopped.lists[READY] != ready {
      assert stopped.lists[READY] == ready + [stopped.lists[READY][|ready|]];
    }
    StopKeepsFirst(k, stopped, k.wait.pid);
    assert Left(ready, i) <= Without(stopped.lists[READY], i);
  }

  lemma ReplyKeepsOrder(k: State, samePid: bool, l: nat)
    requires Inv(k) && Fits(k) && Legal(k, Reply(samePid)) && l < 8
    ensures KeepsOrder(k.lists[l], Replied(k, samePid).lists[l])
  {
    if l == READY {
      ReadyAfterReply(k, samePid);
    } else if l == EXEC {
      ExecAfterReply(k, samePid);
    } else {
      KeptWhole(k.lists[l], Replied(k, samePid).lists[l]);
    }
  }

  lemma ExecAfterReply(k: State, samePid: bool)
    requires Inv(k) && Fits(k) && Legal(k, Reply(samePid))
    ensures KeepsOrder(k.lists[EXEC], Replied(k, samePid).lists[EXEC])
  {
    var exec, i := k.lists[EXEC], Find(k.lists[EXEC], k.cpus[k.wait.cpu]);
    if samePid && i < |exec| {
      assert Left(exec, i) <= Replied(k, samePid).lists[EXEC];
    } else {
      KeptWhole(exec, Replied(k, samePid).lists[EXEC]);
    }
  }

  /** Every list is a queue but for sorting: whatever the step, processes that stay in a
      list keep their order and those that enter come last. So without sorting READY is
      served in the order processes became ready. */
  lemma ListsAreQueues(k: State, step: Step, l: nat)
    requires Inv(k) && Fits(k) && Legal(k, step) && !step.Swap? && l < 8
    ensures KeepsOrder(k.lists[l], Apply(k, step).lists[l])
  {
    match step {
      case Tick(ms) => KeptWhole(k.lists[l], k.lists[l]);
      case AddCpu => KeptWhole(k.lists[l], k.lists[l]);
      case InitProc(caller, size) => KeptWhole(k.lists[l], Apply(k, step).lists[l]);
      case Admit(pid) => MovedKeepsOrder(k, NEW, READY, pid, l);
      case TakeSuspended(pid) => MovedKeepsOrder(k, SUSP_READY, HELD, pid, l);
      case MakeReady(pid) => MovedKeepsOrder(k, HELD, READY, pid, l);
      case FreeCpu(cpu) => KeptWhole(k.lists[l], k.lists[l]);
      case Dispatch(cpu, pid) => MovedKeepsOrder(k, READY, EXEC, pid, l);
      case Interrupt(cpu, pid) => KeptWhole(k.lists[l], k.lists[l]);
      case Reply(samePid) => ReplyKeepsOrder(k, samePid, l);
      case IoSyscall(pid, d) => IoKeepsOrder(k, pid, d, l);
      case Serve(d) => KeptWhole(k.lists[l], k.lists[l]);
      case Complete(d) => UnblockedKeepsOrder(k, k.devices[d].current, READY, SUSP_READY, l);
      case Disconnect(d) =>
        UnblockedKeepsOrder(k, k.devices[d].current, EXIT, EXIT, l);
        KeptWhole(k.lists[l], k.lists[l]);
      case Connect(d) => KeptWhole(k.lists[l], k.lists[l]);
      case Suspend(pid) => MovedKeepsOrder(k, BLOCKED, SUSP_BLOCKED, pid, l);
      case Rollback(pid) => MovedKeepsOrder(k, SUSP_BLOCKED, BLOCKED, pid, l);
      case DumpBegin(pid) => MovedKeepsOrder(k, EXEC, BLOCKED, pid, l);
      case DumpEnd(pid, ok) => MovedKeepsOrder(k, BLOCKED, if ok then READY else EXIT, pid, l);
      case ExitSyscall(pid) => MovedKeepsOrder(k, EXEC, EXIT, pid, l);
    }
  }

  lemma IoKeepsOrder(k: State, pid: int, d: nat, l: nat)
    requires Fits(k) && l < 8
    ensures KeepsOrder(k.lists[l], IoRequested(k, pid, d).lists[l])
  {
    MovedKeepsOrder(k, EXEC, EXIT, pid, l);
    MovedKeepsOrder(k, EXEC, BLOCKED, pid, l);
    KeptWhole(k.lists[l], k.lists[l]);
  }

  lemma UnblockedKeepsOrder(k: State, pid: int, a: nat, b: nat, l: nat)
    requires Fits(k) && a < 7 && b < 7 && a != BLOCKED && b != SUSP_BLOCKED && l < 8
    ensures KeepsOrder(k.lists[l], Unblocked(k, pid, a, b).lists[l])
  {
    MovedKeepsOrder(k, BLOCKED, a, pid, l);
    MovedKeepsOrder(k, SUSP_BLOCKED, b, pid, l);
  }

  // --- A dump overtaken by the medium-term scheduler ------------------------

  lemma MarkedOccurrences(lists: seq<seq<Pcb>>, l: nat, i: nat, p: Pcb, pid: int)
    requires |lists| == 8 && l < 8 && i < |lists[l]| && lists[l][i].pid == p.pid
    ensures Occurrences(lists[l := lists[l][i := p]], pid) == Occurrences(lists, pid)
  {
    CountUpdateUpTo(lists[l], i, p, |lists[l]|, pid);
  }

  lemma AppendedOccurrences(lists: seq<seq<Pcb>>, to: nat, p: Pcb)
    requires |lists| == 8 && to < 8
    ensures Occurrences(lists[to := lists[to] + [p]], p.pid) == Occurrences(lists, p.pid) + 1
  {
    CountAppend(lists[to], p, p.pid);
  }

  lemma AddedTwiceCounts(k: State, to: nat, pid: int)
    requires Fits(k) && to < 7 && Occurrences(k.lists, pid) == 1
    ensures Occurrences(AddedTwice(k, to, pid).lists, pid) == 2
  {
    SomewhereOccurs(k, pid, 0);
    var from := Whereabouts(k, pid, 0);
    var i := Find(k.lists[from], pid);
    var p := ChangeState(k.lists[from][i], to, k.clock);
    MarkedOccurrences(k.lists, from, i, p, pid);
    AppendedOccurrences(k.lists[from := k.lists[from][i := p]], to, p);
  }

  lemma SomewhereOccurs(k: State, pid: int, from: nat)
    requires |k.lists| == 8 && Occurrences(k.lists, pid) > 0 && from <= 8
    requires forall l: nat | l < from :: !Has(k.lists[l], pid)
    ensures Whereabouts(k, pid, from) < 8
    decreases 8 - from
  {
    if from < 8 {
      if !Has(k.lists[from], pid) {
        SomewhereOccurs(k, pid, from + 1);
      }
    } else {
      NowhereIsNone(k, pid);
    }
  }

  lemma NowhereIsNone(k: State, pid: int)
    requires |k.lists| == 8 && forall l: nat | l < 8 :: !Has(k.lists[l], pid)
    ensures Occurrences(k.lists, pid) == 0
  {
    forall l: nat | l < 8
      ensures Count(k.lists[l], pid) == 0
    {
      HasCount(k.lists[l], pid);
    }
  }

  /** The end of a dump keeps each process in one list exactly when the process is still in
      BLOCKED: the removal from BLOCKED is not checked before the block is added elsewhere. */
  lemma DumpEndIsExact(k: State, pid: int, ok: bool)
    requires Partitioned(k) && Fits(k) && 0 <= pid <= k.lastPid
    ensures Partitioned(DumpEnded(k, pid, ok)) <==> Has(k.lists[BLOCKED], pid)
  {
    var to := if ok then READY else EXIT;
    if Has(k.lists[BLOCKED], pid) {
      MovedPartition(k, BLOCKED, to, pid);
      assert forall q: int :: Occurrences(DumpEnded(k, pid, ok).lists, q) == Occurrences(Moved(k, BLOCKED, to, pid).lists, q);
    } else {
      AddedTwiceCounts(k, to, pid);
      assert Occurrences(DumpEnded(k, pid, ok).lists, pid) == 2;
    }
  }

  /** So a medium-term step during the dump wait puts the process into two lists. */
  lemma SuspendDuringDumpDuplicates(k: State, pid: int, ok: bool)
    requires Inv(k) && Fits(k) && pid in k.dumping
    ensures Occurrences(DumpEnded(Moved(k, BLOCKED, SUSP_BLOCKED, pid), pid, ok).lists, pid) == 2
  {
    var suspended := Moved(k, BLOCKED, SUSP_BLOCKED, pid);
    MovedPartition(k, BLOCKED, SUSP_BLOCKED, pid);
    MovedHas(k, BLOCKED, SUSP_BLOCKED, pid, BLOCKED, pid);
    OneList(k, BLOCKED, SUSP_BLOCKED, pid);
    AddedTwiceCounts(suspended, if ok then READY else EXIT, pid);
  }

  // --- ...and a run that gets there -----------------------------------------

  /** Process 0 alone in the system, in one list, with nobody waiting for a CPU's answer. */
  ghost predicate Solo(k: State, list: nat) {
    && list < 8 && |k.lists| == 8 && k.wait.Idle?
    && (forall i: nat | i < 8 && i != list :: k.lists[i] == [])
    && |k.lists[list]| == 1 && k.lists[list][0].pid == 0 && PcbFits(k.lists[list][0])
  }

  lemma SoloHas(k: State, list: nat)
    requires Solo(k, list)
    ensures Fits(k) && Has(k.lists[list], 0) && forall i: nat, pid: int | i < 8 && i != list :: !Has(k.lists[i], pid)
  {
  }

  lemma SoloMoves(k: State, from: nat, to: nat)
    requires Solo(k, from) && to < 7 && from < 7 && from != to
    ensures Fits(k) && Solo(Moved(k, from, to, 0), to) && Moved(k, from, to, 0).lists[to][0].since == k.clock
    ensures Moved(k, from, to, 0).lists[to][0].size == k.lists[from][0].size
    ensures Moved(k, from, to, 0) == k.(lists := Moved(k, from, to, 0).lists)
  {
    SoloHas(k, from);
    assert Find(k.lists[from], 0) == 0;
  }

  lemma ReachesNext(k: State, steps: seq<Step>, k': State, step: Step)
    requires Reaches(k, steps, k') && Fits(k') && Legal(k', step)
    ensures Reaches(k, steps + [step], Apply(k', step))
  {
    assert [step][1..] == [];
    RunsJoin(k, steps, k', [step], Apply(k', step));
  }

  /** The block has been in BLOCKED for as long as the medium-term scheduler asks for. */
  ghost predicate LongBlocked(k: State, pid: int, sleep: int) {
    |k.lists| == 8 && Has(k.lists[BLOCKED], pid) && k.clock - k.lists[BLOCKED][Find(k.lists[BLOCKED], pid)].since >= sleep
  }

  lemma FirstDispatchRun(size: int) returns (steps: seq<Step>, k: State)
    ensures Reaches(Initial(size), steps, k) && Solo(k, EXEC)
    ensures k.clock == 0 && k.cpus == [0] && k.dumping == {} && k.devices == []
  {
    k := Initial(size);
    steps := [];
    assert Solo(k, NEW);
    steps, k := NextOf(Initial(size), steps, k, AddCpu);
    SoloMoves(k, NEW, READY);
    steps, k := NextOf(Initial(size), steps, k, Admit(0));
    SoloMoves(k, READY, EXEC);
    steps, k := NextOf(Initial(size), steps, k, Dispatch(0, 0));
  }

  /** From the start to the first IO request: the medium-term scheduler begins its wait for
      process 0 here. */
  lemma FirstRequestRun(size: int) returns (steps: seq<Step>, k: State)
    ensures Reaches(Initial(size), steps, k) && Solo(k, BLOCKED)
    ensures k.clock == 0 && k.cpus == [0] && k.dumping == {} && k.devices == [Device(true, -1, [0], [0], [])]
  {
    steps, k := FirstDispatchRun(size);
    SoloHas(k, EXEC);
    steps, k := NextOf(Initial(size), steps, k, Connect(0));
    SoloMoves(k, EXEC, BLOCKED);
    steps, k := NextOf(Initial(size), steps, k, IoSyscall(0, 0));
    assert [] + [0] == [0];
    assert k.devices[0] == Device(true, -1, [0], [0], []);
  }

  /** The request is served and completed at once, and the process dispatched again. */
  lemma ServedAtOnceRun(start: State, steps: seq<Step>, k: State) returns (steps': seq<Step>, k': State)
    requires Reaches(start, steps, k) && Solo(k, BLOCKED)
    requires k.clock == 0 && k.cpus == [0] && k.dumping == {} && k.devices == [Device(true, -1, [0], [0], [])]
    ensures Reaches(start, steps', k') && Solo(k', EXEC) && k'.clock == 0 && k'.dumping == {}
  {
    SoloHas(k, BLOCKED);
    steps', k' := NextOf(start, steps, k, Serve(0));
    SoloMoves(k', BLOCKED, READY);
    steps', k' := NextOf(start, steps', k', Complete(0));
    SoloMoves(k', READY, EXEC);
    steps', k' := NextOf(start, steps', k', Dispatch(0, 0));
  }

  lemma NextOf(start: State, steps: seq<Step>, k: State, step: Step) returns (steps': seq<Step>, k': State)
    requires Reaches(start, steps, k) && Fits(k) && Legal(k, step)
    ensures steps' == steps + [step] && k' == Apply(k, step) && Reaches(start, steps', k')
  {
    ReachesNext(start, steps, k, step);
    steps', k' := steps + [step], Apply(k, step);
  }

  /** A suspension that respects the guard on the time in BLOCKED can come during a dump:
      the process asks for IO, which starts the wait of the medium-term scheduler, gets it
      at once, works for a while and asks for a dump. The scheduler, awake `late`
      milliseconds after its time, finds the process in BLOCKED for long enough exactly when
      it is at least as late as the process worked; suspended then, the process is in two
      lists at the end of the dump. */
  lemma LateSuspensionDuplicates(size: int, sleep: nat, late: nat, worked: nat, ok: bool) returns (steps: seq<Step>, k: State)
    requires worked <= sleep + late
    ensures Reaches(Initial(size), steps, k) && 0 in k.dumping && k.clock == sleep + late && Fits(k)
    ensures LongBlocked(k, 0, sleep) <==> worked <= late
    ensures Occurrences(DumpEnded(Moved(k, BLOCKED, SUSP_BLOCKED, 0), 0, ok).lists, 0) == 2
  {
    var start := Initial(size);
    steps, k := FirstRequestRun(size);
    steps, k := ServedAtOnceRun(start, steps, k);
    SoloHas(k, EXEC);
    steps, k := NextOf(start, steps, k, Tick(worked));
    SoloMoves(k, EXEC, BLOCKED);
    SoloHas(k, EXEC);
    steps, k := NextOf(start, steps, k, DumpBegin(0));
    SoloHas(k, BLOCKED);
    steps, k := NextOf(start, steps, k, Tick(sleep + late - worked));
    SoloHas(k, BLOCKED);
    ReachableInv(size, steps, k);
    SuspendDuringDumpDuplicates(k, 0, ok);
  }
}

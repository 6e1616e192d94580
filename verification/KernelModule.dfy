/** The kernel's handlers and schedulers as they run: lists, CPUs and devices updated in
    place. Each critical section is the step of the same name. */
module KernelModule {
  import opened Kernel
  import opened KernelOutcomes
  import opened KernelSteps
  import opened Lists
  import opened Exchanges

  class Processes {
    var lists: seq<seq<Pcb>>
    var lastPid: int
    var clock: int
    var cpus: seq<int>
    var devices: seq<Device>
    var dumping: set<int>
    var wait: Wait
    var due: set<nat>

    constructor (size: int)
      ensures Value() == Initial(size) && Inv(Value())
    {
      InitialInv(size);
      var start := Initial(size);
      lists, lastPid, clock, cpus := start.lists, start.lastPid, start.clock, start.cpus;
      devices, dumping, wait, due := start.devices, start.dumping, start.wait, start.due;
    }

    ghost function Value(): State
      reads this
    {
      State(lists, lastPid, clock, cpus, devices, dumping, wait, due)
    }

    // --- List repositories -------------------------------------------------

    method FindPcb(list: nat, pid: int) returns (i: nat)
      requires list < |lists|
      ensures i == Find(lists[list], pid)
    {
      i := 0;
      while i < |lists[list]| && lists[list][i].pid != pid
        invariant i <= |lists[list]| && FindFrom(lists[list], pid, i) == Find(lists[list], pid)
      {
        i := i + 1;
      }
    }

    /** Takes the first block with a pid out of a list and puts it, in its new state, at the
        end of another; `found` is whether there was one. */
    method Move(from: nat, to: nat, pid: int) returns (found: bool)
      requires Fits(Value()) && from < 8 && to < 8 && from != to
      modifies this`lists
      ensures found == Has(old(lists)[from], pid)
      ensures Value() == Moved(old(Value()), from, to, pid) && Fits(Value())
      ensures MoveOutcome(old(Value()), Value(), from, to, pid)
    {
      MoveIsOutcome(Value(), from, to, pid);
      var i := FindPcb(from, pid);
      if i == |lists[from]| {
        return false;
      }
      var pcb := lists[from][i];
      var rest := lists[from][..i] + lists[from][i + 1..];
      lists := lists[from := rest];
      if to != HELD {
        pcb := ChangeState(pcb, to, clock);
      }
      lists := lists[to := lists[to] + [pcb]];
      found := true;
    }

    // --- Syscalls ----------------------------------------------------------

    /** Creates a process in NEW, under a pid nobody has, for a caller that executes. */
    method InitProcSyscall(caller: int, size: int) returns (ok: bool)
      requires Fits(Value())
      modifies this
      ensures Value() == Apply(old(Value()), InitProc(caller, size))
      ensures Inv(old(Value())) ==> Inv(Value())
      ensures CreationOutcome(old(Value()), Value(), caller, size)
      ensures ok <==> Has(old(lists)[EXEC], caller)
      ensures ok ==> lastPid == old(lastPid) + 1 && Has(lists[NEW], lastPid)
      ensures ok && Inv(old(Value())) ==> Occurrences(old(lists), lastPid) == 0
    {
      KeepsInv(Value(), InitProc(caller, size));
      CreationIsOutcome(Value(), caller, size);
      CreatedIsNew(Value(), size);
      var i := FindPcb(EXEC, caller);
      if i == |lists[EXEC]| {
        return false;
      }
      lastPid := lastPid + 1;
      lists := lists[NEW := lists[NEW] + [NewPcb(lastPid, size, clock)]];
      ok := true;
    }

    /** Blocks the process and queues its request, or ends it when the device is not there. */
    method IoProcessSyscall(pid: int, device: nat)
      requires Fits(Value()) && Legal(Value(), IoSyscall(pid, device))
      modifies this
      ensures Value() == Apply(old(Value()), IoSyscall(pid, device))
      ensures Inv(old(Value())) ==> Inv(Value())
      ensures IoOutcome(old(Value()), Value(), pid, device)
    {
      KeepsInv(Value(), IoSyscall(pid, device));
      IoIsOutcome(Value(), pid, device);
      if device >= |devices| || !devices[device].connected {
        var found := Move(EXEC, EXIT, pid);
        return;
      }
      var found := Move(EXEC, BLOCKED, pid);
      if !found {
        return;
      }
      var link := devices[device];
      devices := devices[device := link.(queue := link.queue + [pid], enqueued := link.enqueued + [pid])];
      due := due + {device};
    }

    method ExitProcessSyscall(pid: int)
      requires Fits(Value()) && Legal(Value(), ExitSyscall(pid))
      modifies this
      ensures Value() == Apply(old(Value()), ExitSyscall(pid))
      ensures Inv(old(Value())) ==> Inv(Value())
      ensures MoveOutcome(old(Value()), Value(), EXEC, EXIT, pid)
    {
      KeepsInv(Value(), ExitSyscall(pid));
      MoveIsOutcome(Value(), EXEC, EXIT, pid);
      var found := Move(EXEC, EXIT, pid);
    }

    method DumpMemoryBegin(pid: int)
      requires Fits(Value())
      modifies this
      ensures Value() == Apply(old(Value()), DumpBegin(pid))
      ensures Inv(old(Value())) ==> Inv(Value())
      ensures DumpBeginOutcome(old(Value()), Value(), pid)
    {
      KeepsInv(Value(), DumpBegin(pid));
      DumpBeginIsOutcome(Value(), pid);
      var found := Move(EXEC, BLOCKED, pid);
      if found {
        dumping := dumping + {pid};
      }
    }

    /** Adds the block with a pid to a list without taking it out of the one it is in. */
    method AddAgain(to: nat, pid: int)
      requires Fits(Value()) && to < 7
      modifies this`lists
      ensures Value() == AddedTwice(old(Value()), to, pid)
    {
      var from := 0;
      var i := FindPcb(0, pid);
      while from < 8 && i == |lists[from]|
        invariant Value() == old(Value()) && from <= 8 && (from < 8 ==> i == Find(lists[from], pid))
        invariant Whereabouts(Value(), pid, from) == Whereabouts(Value(), pid, 0)
      {
        from := from + 1;
        if from < 8 {
          i := FindPcb(from, pid);
        }
      }
      if from < 8 {
        var pcb := ChangeState(lists[from][i], to, clock);
        lists := lists[from := lists[from][i := pcb]];
        lists := lists[to := lists[to] + [pcb]];
      }
    }

    /** The end of a dump. The handler still has the block, so it adds it to READY or EXIT
        whether or not it was in BLOCKED. */
    method DumpMemoryEnd(pid: int, confirmation: bool)
      requires Fits(Value()) && Legal(Value(), DumpEnd(pid, confirmation))
      modifies this
      ensures Value() == Apply(old(Value()), DumpEnd(pid, confirmation))
      ensures Inv(old(Value())) ==> Inv(Value())
      ensures DumpEndOutcome(old(Value()), Value(), pid, confirmation)
      ensures Inv(old(Value())) && Has(old(lists)[BLOCKED], pid) ==> |lists| == 8 && Has(lists[if confirmation then READY else EXIT], pid)
    {
      KeepsInv(Value(), DumpEnd(pid, confirmation));
      DumpEndIsOutcome(Value(), pid, confirmation);
      if Inv(Value()) && Has(lists[BLOCKED], pid) {
        DumpEndsIn(Value(), pid, confirmation, pid, READY);
      }
      var to := if confirmation then READY else EXIT;
      var found := Move(BLOCKED, to, pid);
      if !found {
        AddAgain(to, pid);
      }
      dumping := dumping - {pid};
    }

    // --- IO handlers -------------------------------------------------------

    /** Sends a device its oldest request unless it works for a process that is still blocked. */
    method ProcessPendingIo(device: nat)
      requires Fits(Value())
      modifies this
      ensures Value() == Apply(old(Value()), Serve(device))
      ensures Inv(old(Value())) ==> Inv(Value())
      ensures ServeOutcome(old(Value()), Value(), device)
    {
      KeepsInv(Value(), Serve(device));
      ServeIsOutcome(Value(), device);
      due := due - {device};
      if device >= |devices| || !devices[device].connected {
        return;
      }
      var link := devices[device];
      var trulyBusy := false;
      if link.current != -1 {
        var inBlocked := FindPcb(BLOCKED, link.current);
        var inSuspBlocked := FindPcb(SUSP_BLOCKED, link.current);
        trulyBusy := inBlocked < |lists[BLOCKED]| || inSuspBlocked < |lists[SUSP_BLOCKED]|;
      }
      if trulyBusy || link.queue == [] {
        return;
      }
      devices := devices[device := link.(current := link.queue[0], queue := link.queue[1..], sent := link.sent + [link.queue[0]])];
    }

    method IoCompletion(device: nat)
      requires Fits(Value()) && Legal(Value(), Complete(device))
      modifies this
      ensures Value() == Apply(old(Value()), Complete(device))
      ensures Inv(old(Value())) ==> Inv(Value())
      ensures CompletionOutcome(old(Value()), Value(), device)
    {
      KeepsInv(Value(), Complete(device));
      CompletionIsOutcome(Value(), device);
      var pid := devices[device].current;
      var found := Move(BLOCKED, READY, pid);
      if !found {
        found := Move(SUSP_BLOCKED, SUSP_READY, pid);
      }
      devices := devices[device := devices[device].(current := -1)];
      due := due + {device};
    }

    method IoDisconnected(device: nat)
      requires Fits(Value()) && Legal(Value(), Disconnect(device))
      modifies this
      ensures Value() == Apply(old(Value()), Disconnect(device))
      ensures Inv(old(Value())) ==> Inv(Value())
      ensures DisconnectionOutcome(old(Value()), Value(), device)
    {
      KeepsInv(Value(), Disconnect(device));
      DisconnectionIsOutcome(Value(), device);
      var pid := devices[device].current;
      if pid != -1 {
        var found := Move(BLOCKED, EXIT, pid);
        if !found {
          found := Move(SUSP_BLOCKED, EXIT, pid);
        }
      }
      devices := devices[device := devices[device].(connected := false, current := -1)];
    }

    method ProcessNewDevice(device: nat)
      requires Fits(Value()) && Legal(Value(), Connect(device))
      modifies this
      ensures Value() == Apply(old(Value()), Connect(device))
      ensures Inv(old(Value())) ==> Inv(Value())
      ensures ConnectionOutcome(old(Value()), Value(), device)
    {
      KeepsInv(Value(), Connect(device));
      ConnectionIsOutcome(Value(), device);
      if device == |devices| {
        devices := devices + [Device(true, -1, [], [], [])];
      } else {
        devices := devices[device := devices[device].(connected := true, current := -1)];
        due := due + {device};
      }
    }

    // --- Schedulers --------------------------------------------------------

    /** The first CPU without process or with one that left EXEC is marked free. */
    method FindFreeCpu() returns (cpu: nat)
      requires Fits(Value())
      modifies this`cpus
      ensures cpu == FirstFree(old(Value()), 0)
      ensures Value() == if cpu < |old(cpus)| then old(Value()).(cpus := old(cpus)[cpu := -1]) else old(Value())
    {
      cpu := 0;
      while cpu < |cpus|
        invariant Value() == old(Value()) && cpu <= |cpus| && FirstFree(Value(), cpu) == FirstFree(Value(), 0)
      {
        var i := FindPcb(EXEC, cpus[cpu]);
        if cpus[cpu] == -1 || i == |lists[EXEC]| {
          cpus := cpus[cpu := -1];
          return;
        }
        cpu := cpu + 1;
      }
    }

    method DispatchTo(cpu: nat, pid: int)
      requires Fits(Value()) && cpu < |cpus|
      modifies this
      ensures Value() == Dispatched(old(Value()), cpu, pid)
    {
      var found := Move(READY, EXEC, pid);
      cpus := cpus[cpu := pid];
      wait := Idle;
    }

    /** The scheduler's choice of a free CPU, as steps. */
    method ChooseCpu() returns (cpu: nat, ghost steps: seq<Step>)
      requires Inv(Value()) && Fits(Value()) && wait.Idle?
      modifies this`cpus
      ensures Reaches(old(Value()), steps, Value()) && Inv(Value()) && |cpus| == |old(cpus)|
      ensures cpu == FirstFree(old(Value()), 0) && steps == if cpu < |cpus| then [FreeCpu(cpu)] else []
      ensures cpu < |cpus| ==> !Has(lists[EXEC], cpus[cpu])
    {
      ghost var k := Value();
      FirstFreeIsFirst(k, 0);
      cpu := FindFreeCpu();
      steps := [];
      if cpu < |cpus| {
        FreedRun(k, cpu);
        steps := [FreeCpu(cpu)];
      }
    }

    /** Sorts a list in place. Which blocks change places, one pair after another, is what
        the comparisons of the estimates lead to. */
    method SortList(list: nat, swaps: seq<(nat, nat)>)
      requires list < |lists| && SwapsFit(swaps, |lists[list]|)
      modifies this`lists
      ensures lists == old(lists)[list := Exchanged(old(lists)[list], swaps, |swaps|)]
    {
      var n := 0;
      while n < |swaps|
        invariant n <= |swaps| && lists == old(lists)[list := Exchanged(old(lists)[list], swaps, n)]
      {
        var items, i, j := lists[list], swaps[n].0, swaps[n].1;
        lists := lists[list := items[i := items[j]][j := items[i]]];
        n := n + 1;
      }
    }

    /** The same as steps. */
    method SortSteps(list: nat, swaps: seq<(nat, nat)>) returns (ghost steps: seq<Step>)
      requires Inv(Value()) && Fits(Value()) && list < 8 && SwapsFit(swaps, |lists[list]|)
      modifies this`lists
      ensures Value() == Sorted(old(Value()), list, swaps) && steps == SwapSteps(list, swaps, |swaps|)
      ensures Reaches(old(Value()), steps, Value()) && Inv(Value())
    {
      SortedRun(Value(), list, swaps, |swaps|);
      SortList(list, swaps);
      steps := SwapSteps(list, swaps, |swaps|);
    }

    /** The CPU to interrupt when none is free: with SJF the one of the last process in
        EXEC, else the first. */
    method BusyCpu(sjf: bool) returns (cpu: nat)
      requires Inv(Value()) && |cpus| > 0
      ensures cpu == Busy(Value(), sjf) && cpu < |cpus|
    {
      cpu := 0;
      if sjf && lists[EXEC] != [] {
        var pid := lists[EXEC][|lists[EXEC]| - 1].pid;
        LastExecutes(Value());
        while cpu < |cpus| && cpus[cpu] != pid
          invariant cpu <= |cpus| && IndexFrom(cpus, pid, cpu) == IndexFrom(cpus, pid, 0)
        {
          cpu := cpu + 1;
        }
      }
    }

    /** The scheduler's use of a ready process, as steps. */
    method UseReady(cpu: nat, preemption: bool, preempts: bool, busy: nat) returns (ghost steps: seq<Step>)
      requires Inv(Value()) && Fits(Value()) && wait.Idle? && busy < |cpus|
      requires cpu <= |cpus| && (cpu < |cpus| ==> !Has(lists[EXEC], cpus[cpu]))
      modifies this
      ensures Reaches(old(Value()), steps, Value()) && Inv(Value())
      ensures steps == UseSteps(old(Value()), cpu, busy, preemption && preempts)
      ensures Value() == Used(old(Value()), cpu, busy, preemption && preempts)
    {
      ghost var k := Value();
      steps := [];
      if lists[READY] == [] {
        return;
      }
      var pid := lists[READY][0].pid;
      MemberIsCounted(lists[READY], 0);
      if cpu < |cpus| {
        DispatchedRun(k, cpu, pid);
        steps := [Dispatch(cpu, pid)];
        DispatchTo(cpu, pid);
      } else if preemption && preempts {
        InterruptedRun(k, busy, pid);
        steps := [Interrupt(busy, pid)];
        wait := Interrupting(busy, pid);
      }
    }

    /** The choice of a CPU, free or to interrupt. With SJF and no free CPU, EXEC is sorted. */
    method GetCpuToDispatch(sjf: bool, execSwaps: seq<(nat, nat)>) returns (cpu: nat, busy: nat, ghost steps: seq<Step>)
      requires Inv(Value()) && Fits(Value()) && wait.Idle? && SwapsFit(execSwaps, |lists[EXEC]|)
      modifies this`cpus, this`lists
      ensures Reaches(old(Value()), steps, Value()) && Inv(Value()) && |cpus| == |old(cpus)|
      ensures cpu == FirstFree(old(Value()), 0) && steps == CpuSteps(old(Value()), sjf, execSwaps)
      ensures cpu < |cpus| ==> !Has(lists[EXEC], cpus[cpu])
      ensures |cpus| > 0 ==> busy < |cpus| && (cpu == |cpus| ==> busy == Busy(Value(), sjf))
      ensures Value() == CpuChosen(old(Value()), sjf, execSwaps)
    {
      cpu, steps := ChooseCpu();
      busy := 0;
      if cpu == |cpus| {
        if sjf {
          steps := SortSteps(EXEC, execSwaps);
        }
        if |cpus| > 0 {
          busy := BusyCpu(sjf);
        }
      }
    }

    /** READY as its head is chosen from, after an earlier run. */
    method GetNextProcessToDispatch(sjf: bool, readySwaps: seq<(nat, nat)>, ghost start: State, ghost before: seq<Step>)
      returns (ghost steps: seq<Step>)
      requires Inv(Value()) && Fits(Value()) && SwapsFit(readySwaps, |lists[READY]|) && Reaches(start, before, Value())
      modifies this`lists
      ensures Reaches(start, steps, Value()) && Inv(Value())
      ensures Value() == if sjf then Sorted(old(Value()), READY, readySwaps) else old(Value())
      ensures steps == before + (if sjf then SwapSteps(READY, readySwaps, |readySwaps|) else [])
    {
      steps := before;
      if sjf {
        ghost var more := SortSteps(READY, readySwaps);
        RunsJoin(start, before, old(Value()), more, Value());
        steps := before + more;
      }
    }

    method UseNext(cpu: nat, sjf: bool, readySwaps: seq<(nat, nat)>, preemption: bool, preempts: bool, busy: nat,
                   ghost start: State, ghost before: seq<Step>)
      returns (ghost steps: seq<Step>)
      requires Inv(Value()) && Fits(Value()) && SwapsFit(readySwaps, |lists[READY]|) && Reaches(start, before, Value())
      requires wait.Idle? && busy < |cpus| && cpu <= |cpus| && (cpu < |cpus| ==> !Has(lists[EXEC], cpus[cpu]))
      modifies this
      ensures Reaches(start, steps, Value()) && Inv(Value())
      ensures var k := old(Value());
              steps == before + (if sjf then SwapSteps(READY, readySwaps, |readySwaps|) else [])
                     + UseSteps(if sjf then Sorted(k, READY, readySwaps) else k, cpu, busy, preemption && preempts)
      ensures Fits(ReadySorted(old(Value()), sjf, readySwaps))
      ensures Value() == Used(ReadySorted(old(Value()), sjf, readySwaps), cpu, busy, preemption && preempts)
    {
      ghost var more;
      steps := GetNextProcessToDispatch(sjf, readySwaps, start, before);
      ghost var sorted := Value();
      more := UseReady(cpu, preemption, preempts, busy);
      RunsJoin(start, steps, sorted, more, Value());
      steps := steps + more;
    }

    /** The run from the choice of the CPU on. */
    method RunOn(cpu: nat, busy: nat, sjf: bool, ghost execSwaps: seq<(nat, nat)>, readySwaps: seq<(nat, nat)>, preemption: bool, preempts: bool,
                 ghost k: State, ghost before: seq<Step>)
      returns (ghost steps: seq<Step>)
      requires Inv(k) && Fits(k) && k.wait.Idle? && k.cpus != []
      requires SwapsFit(execSwaps, |k.lists[EXEC]|) && SwapsFit(readySwaps, |k.lists[READY]|)
      requires Value() == CpuChosen(k, sjf, execSwaps) && cpu == FirstFree(k, 0) && before == CpuSteps(k, sjf, execSwaps)
      requires Inv(Value()) && Fits(Value()) && Reaches(k, before, Value())
      requires busy < |cpus| && (cpu == |cpus| ==> busy == Busy(Value(), sjf)) && (cpu < |cpus| ==> !Has(lists[EXEC], cpus[cpu]))
      modifies this
      ensures Reaches(k, steps, Value()) && Inv(Value())
      ensures steps == RunSteps(k, sjf, execSwaps, readySwaps, preemption && preempts)
      ensures ShortRun(k, Value(), sjf, execSwaps, readySwaps, preemption && preempts, cpu)
    {
      ghost var chosen := Value();
      steps := UseNext(cpu, sjf, readySwaps, preemption, preempts, if cpu < |cpus| then 0 else busy, k, before);
      ShortRunHolds(k, chosen, sjf, execSwaps, readySwaps, preemption && preempts, if cpu < |k.cpus| then 0 else busy);
    }

    /** One run of the short-term scheduler up to its end or to the wait for a CPU's answer,
        as steps: the CPU is chosen first, then READY sorted under SJF and its head used.
        `execSwaps` and `readySwaps` are what sorting by estimates leads to, `preempts` what
        the comparison with the process on the busy CPU says. */
    method RunShortScheduler(sjf: bool, execSwaps: seq<(nat, nat)>, readySwaps: seq<(nat, nat)>, preemption: bool, preempts: bool)
      returns (ghost steps: seq<Step>)
      requires Inv(Value()) && Fits(Value()) && wait.Idle?
      requires SwapsFit(execSwaps, |lists[EXEC]|) && SwapsFit(readySwaps, |lists[READY]|)
      modifies this
      ensures Reaches(old(Value()), steps, Value()) && Inv(Value())
      ensures steps == RunSteps(old(Value()), sjf, execSwaps, readySwaps, preemption && preempts)
      ensures ShortRun(old(Value()), Value(), sjf, execSwaps, readySwaps, preemption && preempts, FirstFree(old(Value()), 0))
    {
      var cpu, busy;
      cpu, busy, steps := GetCpuToDispatch(sjf, execSwaps);
      if |cpus| > 0 {
        steps := RunOn(cpu, busy, sjf, execSwaps, readySwaps, preemption, preempts, old(Value()), steps);
      } else {
        FirstFreeIsFree(old(Value()));
      }
    }

    /** The rest of the run after a CPU's answer. */
    method FinishShortScheduler(samePid: bool)
      requires Fits(Value()) && Legal(Value(), Reply(samePid))
      modifies this
      ensures Value() == Apply(old(Value()), Reply(samePid))
      ensures Inv(old(Value())) ==> Inv(Value())
      ensures ReplyOutcome(old(Value()), Value(), samePid)
    {
      KeepsInv(Value(), Reply(samePid));
      ReplyIsOutcome(Value(), samePid);
      var cpu, pid := wait.cpu, wait.pid;
      if samePid {
        var found := Move(EXEC, READY, cpus[cpu]);
      }
      DispatchTo(cpu, pid);
    }

    /** The medium-term scheduler does not look whether the process waits for a dump. */
    method SuspendBlocked(pid: int)
      requires Fits(Value())
      modifies this
      ensures Value() == Moved(old(Value()), BLOCKED, SUSP_BLOCKED, pid)
      ensures MoveOutcome(old(Value()), Value(), BLOCKED, SUSP_BLOCKED, pid)
      ensures Inv(old(Value())) && pid !in dumping ==> Inv(Value())
    {
      MoveIsOutcome(Value(), BLOCKED, SUSP_BLOCKED, pid);
      if Inv(Value()) && pid !in dumping {
        StepKeepsInv(Value(), Suspend(pid));
      }
      var found := Move(BLOCKED, SUSP_BLOCKED, pid);
    }

    method RollBackSuspension(pid: int)
      requires Fits(Value())
      modifies this
      ensures Value() == Apply(old(Value()), Rollback(pid))
      ensures Inv(old(Value())) ==> Inv(Value())
      ensures MoveOutcome(old(Value()), Value(), SUSP_BLOCKED, BLOCKED, pid)
    {
      KeepsInv(Value(), Rollback(pid));
      MoveIsOutcome(Value(), SUSP_BLOCKED, BLOCKED, pid);
      var found := Move(SUSP_BLOCKED, BLOCKED, pid);
    }
  }

  // --- Sorting and choosing --------------------------------------------------

  ghost function SortedUpTo(k: State, list: nat, swaps: seq<(nat, nat)>, n: nat): State
    requires list < |k.lists| && SwapsFit(swaps, |k.lists[list]|) && n <= |swaps|
  {
    k.(lists := k.lists[list := Exchanged(k.lists[list], swaps, n)])
  }

  ghost function Sorted(k: State, list: nat, swaps: seq<(nat, nat)>): State
    requires list < |k.lists| && SwapsFit(swaps, |k.lists[list]|)
  {
    SortedUpTo(k, list, swaps, |swaps|)
  }

  ghost function SwapSteps(list: nat, swaps: seq<(nat, nat)>, n: nat): (steps: seq<Step>)
    requires n <= |swaps|
    ensures |steps| == n
  {
    if n == 0 then [] else SwapSteps(list, swaps, n - 1) + [Step.Swap(list, swaps[n - 1].0, swaps[n - 1].1)]
  }

  lemma NextExchange(k: State, list: nat, swaps: seq<(nat, nat)>, n: nat)
    requires list < |k.lists| && SwapsFit(swaps, |k.lists[list]|) && n < |swaps|
    ensures var before := SortedUpTo(k, list, swaps, n);
            SortedUpTo(k, list, swaps, n + 1)
            == before.(lists := before.lists[list := Swapped(before.lists[list], swaps[n].0, swaps[n].1)])
  {
    UpdatedTwice(k.lists, list, Exchanged(k.lists[list], swaps, n), Exchanged(k.lists[list], swaps, n + 1));
  }

  /** A sort is a run, so it keeps the invariant. */
  lemma {:induction false} SortedRun(k: State, list: nat, swaps: seq<(nat, nat)>, n: nat)
    requires Inv(k) && Fits(k) && list < 8 && SwapsFit(swaps, |k.lists[list]|) && n <= |swaps|
    ensures var k' := SortedUpTo(k, list, swaps, n);
            Reaches(k, SwapSteps(list, swaps, n), k') && Inv(k') && Fits(k')
  {
    if n > 0 {
      SortedRun(k, list, swaps, n - 1);
      NextExchange(k, list, swaps, n - 1);
      SwappedRun(k, SwapSteps(list, swaps, n - 1), SortedUpTo(k, list, swaps, n - 1), list, swaps[n - 1].0, swaps[n - 1].1);
    } else {
      assert k == SortedUpTo(k, list, swaps, 0);
    }
  }

  lemma SwappedRun(k: State, steps: seq<Step>, k': State, list: nat, i: nat, j: nat)
    requires Reaches(k, steps, k') && Inv(k') && Fits(k') && list < 8 && i < |k'.lists[list]| && j < |k'.lists[list]|
    ensures var k'' := k'.(lists := k'.lists[list := Swapped(k'.lists[list], i, j)]);
            Reaches(k, steps + [Step.Swap(list, i, j)], k'') && Inv(k'') && Fits(k'')
  {
    StepKeepsInv(k', Step.Swap(list, i, j));
    ReachesNext(k, steps, k', Step.Swap(list, i, j));
  }

  function IndexFrom(cpus: seq<int>, pid: int, from: nat): (cpu: nat)
    requires from <= |cpus|
    ensures from <= cpu <= |cpus| && (cpu < |cpus| ==> cpus[cpu] == pid)
    decreases |cpus| - from
  {
    if from == |cpus| || cpus[from] == pid then from else IndexFrom(cpus, pid, from + 1)
  }

  lemma {:induction false} IndexOfMember(cpus: seq<int>, pid: int, from: nat)
    requires from <= |cpus| && exists c: nat :: from <= c < |cpus| && cpus[c] == pid
    ensures IndexFrom(cpus, pid, from) < |cpus|
    decreases |cpus| - from
  {
    if cpus[from] != pid {
      IndexOfMember(cpus, pid, from + 1);
    }
  }

  /** The CPU an algorithm interrupts. */
  function Busy(k: State, sjf: bool): nat
    requires |k.lists| == 8
  {
    var exec := k.lists[EXEC];
    if sjf && exec != [] then IndexFrom(k.cpus, exec[|exec| - 1].pid, 0) else 0
  }

  /** The last process in EXEC runs on a CPU. */
  lemma LastExecutes(k: State)
    requires Inv(k)
    ensures k.cpus != [] ==> Busy(k, true) < |k.cpus|
  {
    var exec := k.lists[EXEC];
    if exec != [] {
      MemberIsCounted(exec, |exec| - 1);
      IndexOfMember(k.cpus, exec[|exec| - 1].pid, 0);
    }
  }

  ghost function CpuChosen(k: State, sjf: bool, execSwaps: seq<(nat, nat)>): (k': State)
    requires Fits(k) && SwapsFit(execSwaps, |k.lists[EXEC]|)
    ensures |k'.cpus| == |k.cpus| && |k'.lists| == 8 && k'.lists[READY] == k.lists[READY]
  {
    var cpu := FirstFree(k, 0);
    if cpu < |k.cpus| then k.(cpus := k.cpus[cpu := -1])
    else if sjf then Sorted(k, EXEC, execSwaps)
    else k
  }

  ghost function CpuSteps(k: State, sjf: bool, execSwaps: seq<(nat, nat)>): seq<Step>
    requires Fits(k)
  {
    var cpu := FirstFree(k, 0);
    if cpu < |k.cpus| then [FreeCpu(cpu)]
    else if sjf then SwapSteps(EXEC, execSwaps, |execSwaps|)
    else []
  }

  ghost function ReadySorted(k: State, sjf: bool, readySwaps: seq<(nat, nat)>): State
    requires |k.lists| == 8 && SwapsFit(readySwaps, |k.lists[READY]|)
  {
    if sjf then Sorted(k, READY, readySwaps) else k
  }

  /** The state after the head of READY was used. */
  ghost function Used(k: State, cpu: nat, busy: nat, preempts: bool): State
    requires Fits(k)
  {
    if k.lists[READY] == [] then k
    else if cpu < |k.cpus| then Dispatched(k, cpu, k.lists[READY][0].pid)
    else if preempts then k.(wait := Interrupting(busy, k.lists[READY][0].pid))
    else k
  }

  ghost function UseSteps(k: State, cpu: nat, busy: nat, preempts: bool): seq<Step>
    requires |k.lists| == 8
  {
    if k.lists[READY] == [] then []
    else if cpu < |k.cpus| then [Dispatch(cpu, k.lists[READY][0].pid)]
    else if preempts then [Interrupt(busy, k.lists[READY][0].pid)]
    else []
  }

  /** The steps of one run of the short-term scheduler. */
  ghost function RunSteps(k: State, sjf: bool, execSwaps: seq<(nat, nat)>, readySwaps: seq<(nat, nat)>, preempts: bool): seq<Step>
    requires Fits(k) && SwapsFit(execSwaps, |k.lists[EXEC]|) && SwapsFit(readySwaps, |k.lists[READY]|)
  {
    var cpu, chosen := FirstFree(k, 0), CpuChosen(k, sjf, execSwaps);
    if k.cpus == [] then CpuSteps(k, sjf, execSwaps)
    else
      CpuSteps(k, sjf, execSwaps)
      + (if sjf then SwapSteps(READY, readySwaps, |readySwaps|) else [])
      + UseSteps(if sjf then Sorted(chosen, READY, readySwaps) else chosen, cpu,
                 if cpu < |k.cpus| then 0 else Busy(chosen, sjf), preempts)
  }

  // --- What a run of the short-term scheduler does ----------------------------

  /** The CPU given to no executing process. */
  ghost predicate IsFree(k: State, cpu: nat)
    requires |k.lists| == 8
  {
    cpu < |k.cpus| && !Has(k.lists[EXEC], k.cpus[cpu])
  }

  /** The first free CPU; the number of CPUs when none is free. */
  ghost predicate IsFirstFree(k: State, cpu: nat)
    requires |k.lists| == 8
  {
    cpu <= |k.cpus| && (cpu < |k.cpus| ==> IsFree(k, cpu)) && forall c: nat | c < cpu :: !IsFree(k, c)
  }

  lemma FirstFreeIsFree(k: State)
    requires Inv(k) && Fits(k)
    ensures IsFirstFree(k, FirstFree(k, 0))
  {
    FirstFreeIsFirst(k, 0);
  }

  /** The first of a list of ready processes left it for a CPU: it stands last in EXEC. */
  ghost predicate HeadRuns(k: State, k': State, ready: seq<Pcb>, cpu: nat) {
    && ready != [] && cpu < |k.cpus| && |k.lists| == 8 == |k'.lists|
    && k' == k.(lists := k'.lists, cpus := k.cpus[cpu := ready[0].pid], wait := Idle)
    && k'.lists[READY] == ready[1..]
    && |k'.lists[EXEC]| == |k.lists[EXEC]| + 1 && k'.lists[EXEC][..|k.lists[EXEC]|] == k.lists[EXEC]
    && Entered(ready[0], k'.lists[EXEC][|k.lists[EXEC]|], EXEC, k.clock)
    && forall l: nat | l < 8 && l != READY && l != EXEC :: k'.lists[l] == k.lists[l]
  }

  /** The CPU an algorithm interrupts: with SJF the first one the last process in EXEC was
      given to, else the first of all. */
  ghost predicate Interrupted(cpus: seq<int>, exec: seq<Pcb>, sjf: bool, cpu: nat) {
    && cpu < |cpus|
    && if sjf && exec != [] then cpus[cpu] == exec[|exec| - 1].pid && forall c: nat | c < cpu :: cpus[c] != exec[|exec| - 1].pid
       else cpu == 0
  }

  /** One run, in terms of lists and CPUs. With a free CPU the first process of READY, sorted
      with SJF, runs on the first such CPU. Else, if the comparison says so, the CPU to
      interrupt is asked to make room for it. Else nothing happens but the sorting, and a
      free CPU without ready process is marked free. */
  ghost predicate ShortRun(k: State, k': State, sjf: bool, execSwaps: seq<(nat, nat)>, readySwaps: seq<(nat, nat)>, preempts: bool, cpu: nat)
    requires Fits(k) && SwapsFit(execSwaps, |k.lists[EXEC]|) && SwapsFit(readySwaps, |k.lists[READY]|)
  {
    var exec := if sjf then Exchanged(k.lists[EXEC], execSwaps, |execSwaps|) else k.lists[EXEC];
    var ready := if sjf then Exchanged(k.lists[READY], readySwaps, |readySwaps|) else k.lists[READY];
    && IsFirstFree(k, cpu)
    && if k.cpus == [] then k' == k.(lists := k.lists[EXEC := exec])
       else if cpu < |k.cpus| then
         if ready == [] then k' == k.(cpus := k.cpus[cpu := -1]) else HeadRuns(k, k', ready, cpu)
       else
         && k' == k.(lists := k.lists[EXEC := exec][READY := ready], wait := k'.wait)
         && if ready != [] && preempts then k'.wait.Interrupting? && k'.wait.pid == ready[0].pid && Interrupted(k.cpus, exec, sjf, k'.wait.cpu)
            else k'.wait == k.wait
  }

  lemma DispatchedHead(k: State, cpu: nat)
    requires Fits(k) && cpu < |k.cpus| && k.lists[READY] != []
    ensures HeadRuns(k, Dispatched(k, cpu, k.lists[READY][0].pid), k.lists[READY], cpu)
  {
    assert Find(k.lists[READY], k.lists[READY][0].pid) == 0;
    assert Without(k.lists[READY], 0) == k.lists[READY][1..];
    ChangedIsEntered(k.lists[READY][0], EXEC, k.clock);
  }

  lemma {:induction false} IndexIsFirst(cpus: seq<int>, pid: int, from: nat, c: nat)
    requires from <= |cpus| && from <= c < IndexFrom(cpus, pid, from)
    ensures cpus[c] != pid
    decreases |cpus| - from
  {
    if from < c {
      IndexIsFirst(cpus, pid, from + 1, c);
    }
  }

  lemma BusyIsInterrupted(k: State, sjf: bool)
    requires Inv(k) && k.cpus != []
    ensures Interrupted(k.cpus, k.lists[EXEC], sjf, Busy(k, sjf))
  {
    var exec := k.lists[EXEC];
    if sjf && exec != [] {
      LastExecutes(k);
      forall c: nat | c < Busy(k, sjf)
        ensures k.cpus[c] != exec[|exec| - 1].pid
      {
        IndexIsFirst(k.cpus, exec[|exec| - 1].pid, 0, c);
      }
    }
  }

  lemma FreeCpuRun(k: State, chosen: State, sjf: bool, execSwaps: seq<(nat, nat)>, readySwaps: seq<(nat, nat)>, preempts: bool, busy: nat)
    requires Inv(k) && Fits(k) && k.wait.Idle? && FirstFree(k, 0) < |k.cpus|
    requires SwapsFit(execSwaps, |k.lists[EXEC]|) && SwapsFit(readySwaps, |k.lists[READY]|)
    requires chosen == k.(cpus := k.cpus[FirstFree(k, 0) := -1]) && Fits(ReadySorted(chosen, sjf, readySwaps))
    ensures ShortRun(k, Used(ReadySorted(chosen, sjf, readySwaps), FirstFree(k, 0), busy, preempts), sjf, execSwaps, readySwaps, preempts, FirstFree(k, 0))
  {
    var cpu, sorted := FirstFree(k, 0), ReadySorted(chosen, sjf, readySwaps);
    FirstFreeIsFree(k);
    if sorted.lists[READY] != [] {
      DispatchedHead(sorted, cpu);
      UpdatedTwice(k.cpus, cpu, -1, sorted.lists[READY][0].pid);
    } else {
      assert sorted.lists == k.lists;
    }
  }

  lemma BusyCpusRun(k: State, chosen: State, sjf: bool, execSwaps: seq<(nat, nat)>, readySwaps: seq<(nat, nat)>, preempts: bool, busy: nat)
    requires Inv(k) && Fits(k) && k.wait.Idle? && k.cpus != [] && FirstFree(k, 0) == |k.cpus|
    requires SwapsFit(execSwaps, |k.lists[EXEC]|) && SwapsFit(readySwaps, |k.lists[READY]|)
    requires chosen == (if sjf then Sorted(k, EXEC, execSwaps) else k) && Inv(chosen) && busy == Busy(chosen, sjf)
    requires Fits(ReadySorted(chosen, sjf, readySwaps))
    ensures ShortRun(k, Used(ReadySorted(chosen, sjf, readySwaps), FirstFree(k, 0), busy, preempts), sjf, execSwaps, readySwaps, preempts, FirstFree(k, 0))
  {
    FirstFreeIsFree(k);
    BusyIsInterrupted(chosen, sjf);
    assert k.lists == k.lists[EXEC := k.lists[EXEC]][READY := k.lists[READY]];
  }

  lemma ShortRunHolds(k: State, chosen: State, sjf: bool, execSwaps: seq<(nat, nat)>, readySwaps: seq<(nat, nat)>, preempts: bool, busy: nat)
    requires Inv(k) && Fits(k) && k.wait.Idle? && k.cpus != []
    requires SwapsFit(execSwaps, |k.lists[EXEC]|) && SwapsFit(readySwaps, |k.lists[READY]|)
    requires chosen == CpuChosen(k, sjf, execSwaps) && Inv(chosen) && (FirstFree(k, 0) == |k.cpus| ==> busy == Busy(chosen, sjf))
    requires SwapsFit(readySwaps, |chosen.lists[READY]|) && Fits(ReadySorted(chosen, sjf, readySwaps))
    ensures ShortRun(k, Used(ReadySorted(chosen, sjf, readySwaps), FirstFree(k, 0), busy, preempts), sjf, execSwaps, readySwaps, preempts, FirstFree(k, 0))
  {
    if FirstFree(k, 0) < |k.cpus| {
      FreeCpuRun(k, chosen, sjf, execSwaps, readySwaps, preempts, busy);
    } else {
      BusyCpusRun(k, chosen, sjf, execSwaps, readySwaps, preempts, busy);
    }
  }

  /** When the exchanges order READY by a key, as the comparison by estimates or by last
      bursts does for weight 0 or 1, the process that runs has the least key of all. */
  lemma ShortestRuns(k: State, k': State, readySwaps: seq<(nat, nat)>, execSwaps: seq<(nat, nat)>, preempts: bool, cpu: nat, key: int -> int, p: Pcb)
    requires Fits(k) && SwapsFit(execSwaps, |k.lists[EXEC]|) && SwapsFit(readySwaps, |k.lists[READY]|)
    requires ShortRun(k, k', true, execSwaps, readySwaps, preempts, cpu) && cpu < |k.cpus| && p in k.lists[READY]
    requires var ready := Exchanged(k.lists[READY], readySwaps, |readySwaps|);
             forall i: nat, j: nat | i < j < |ready| :: key(ready[i].pid) <= key(ready[j].pid)
    ensures |k'.cpus| == |k.cpus| && key(k'.cpus[cpu]) <= key(p.pid)
  {
    var ready := Exchanged(k.lists[READY], readySwaps, |readySwaps|);
    ExchangesKeepItems(k.lists[READY], readySwaps, |readySwaps|);
    assert p in multiset(ready);
    var i: nat :| i < |ready| && ready[i] == p;
  }

  lemma KeepsInv(k: State, step: Step)
    requires Fits(k) && Legal(k, step)
    ensures Inv(k) ==> Inv(Apply(k, step))
  {
    if Inv(k) {
      StepKeepsInv(k, step);
    }
  }

  /** The first CPU without process or with one that left EXEC; the number of CPUs when
      all are busy. */
  function FirstFree(k: State, from: nat): (cpu: nat)
    requires Fits(k) && from <= |k.cpus|
    ensures from <= cpu <= |k.cpus|
    decreases |k.cpus| - from
  {
    if from == |k.cpus| || k.cpus[from] == -1 || !Has(k.lists[EXEC], k.cpus[from]) then from else FirstFree(k, from + 1)
  }

  lemma {:induction false} FirstFreeIsFirst(k: State, from: nat)
    requires Inv(k) && Fits(k) && from <= |k.cpus|
    ensures var cpu := FirstFree(k, from);
            && (cpu < |k.cpus| ==> !Has(k.lists[EXEC], k.cpus[cpu]))
            && forall c: nat | from <= c < cpu :: Has(k.lists[EXEC], k.cpus[c])
    decreases |k.cpus| - from
  {
    NobodyExecutes(k, -1);
    if from < |k.cpus| && k.cpus[from] != -1 && Has(k.lists[EXEC], k.cpus[from]) {
      FirstFreeIsFirst(k, from + 1);
    }
  }

  lemma FreedRun(k: State, cpu: nat)
    requires Inv(k) && Fits(k) && Legal(k, FreeCpu(cpu))
    ensures var k' := Apply(k, FreeCpu(cpu));
            Reaches(k, [FreeCpu(cpu)], k') && Inv(k') && Fits(k') && !Has(k'.lists[EXEC], -1)
  {
    StepKeepsInv(k, FreeCpu(cpu));
    NobodyExecutes(k, -1);
    assert [FreeCpu(cpu)][1..] == [];
  }

  lemma DispatchedRun(k: State, cpu: nat, pid: int)
    requires Inv(k) && Fits(k) && Legal(k, Dispatch(cpu, pid))
    ensures Reaches(k, [Dispatch(cpu, pid)], Dispatched(k, cpu, pid)) && Inv(Dispatched(k, cpu, pid))
  {
    StepKeepsInv(k, Dispatch(cpu, pid));
    assert [Dispatch(cpu, pid)][1..] == [];
  }

  lemma InterruptedRun(k: State, cpu: nat, pid: int)
    requires Inv(k) && Fits(k) && Legal(k, Interrupt(cpu, pid))
    ensures Reaches(k, [Interrupt(cpu, pid)], k.(wait := Interrupting(cpu, pid))) && Inv(k.(wait := Interrupting(cpu, pid)))
  {
    StepKeepsInv(k, Interrupt(cpu, pid));
    assert [Interrupt(cpu, pid)][1..] == [];
  }

  /** The pid of a new process was nobody's. */
  lemma CreatedIsNew(k: State, size: int)
    requires Fits(k)
    ensures Inv(k) ==> Occurrences(k.lists, k.lastPid + 1) == 0
    ensures Has(Created(k, size).lists[NEW], k.lastPid + 1)
  {
    MemberIsCounted(Created(k, size).lists[NEW], |k.lists[NEW]|);
  }

  lemma NobodyExecutes(k: State, pid: int)
    requires Inv(k) && pid < 0
    ensures !Has(k.lists[EXEC], pid)
  {
    HasCount(k.lists[EXEC], pid);
    assert Occurrences(k.lists, pid) == 0;
  }
}

/** What each step of the kernel does, in terms of lists, CPUs and devices: which block leaves
    which list, where it comes to stand and in what state, and that nothing else changes. */
module KernelOutcomes {
  import opened Kernel
  import opened KernelSteps
  import opened Lists

  /** A block is the first of a list with a pid. */
  ghost predicate FirstWith(list: seq<Pcb>, pid: int, i: nat) {
    i < |list| && list[i].pid == pid && forall h: nat | h < i :: list[h].pid != pid
  }

  /** A block entered a state: it is the same process with the time booked to the state left
      and one visit more of the one entered. */
  ghost predicate Entered(p: Pcb, p': Pcb, phase: nat, now: int) {
    && PcbFits(p) && PcbFits(p') && phase < 7
    && p'.pid == p.pid && p'.size == p.size && p'.created == p.created && p'.phase == phase && p'.since == now
    && forall q: nat | q < 7 ::
         && p'.times[q] == p.times[q] + (if q == p.phase then now - p.since else 0)
         && p'.visits[q] == p.visits[q] + (if q == phase then 1 else 0)
  }

  /** The first block with a pid left one list and stands last in another, in its state; on
      its way from SUSP_READY to READY it is held as it is. The order of the others and all
      other lists are as before. */
  ghost predicate Goes(lists: seq<seq<Pcb>>, lists': seq<seq<Pcb>>, from: nat, to: nat, pid: int, now: int) {
    && |lists| == 8 == |lists'| && from < 8 && to < 8 && from != to
    && |lists'[to]| == |lists[to]| + 1 && lists'[to][..|lists[to]|] == lists[to]
    && (forall l: nat | l < 8 && l != from && l != to :: lists'[l] == lists[l])
    && exists i: nat :: FirstWith(lists[from], pid, i) && lists'[from] == Without(lists[from], i)
         && if to == HELD then lists'[to][|lists[to]|] == lists[from][i] else Entered(lists[from][i], lists'[to][|lists[to]|], to, now)
  }

  lemma FoundIsFirst(list: seq<Pcb>, pid: int)
    requires Has(list, pid)
    ensures FirstWith(list, pid, Find(list, pid))
  {
    forall h: nat | h < Find(list, pid)
      ensures list[h].pid != pid
    {
      FoundFirst(list, pid, 0, h);
    }
  }

  lemma ChangedIsEntered(p: Pcb, phase: nat, now: int)
    requires PcbFits(p) && phase < 7
    ensures Entered(p, ChangeState(p, phase, now), phase, now)
  {
    forall q: nat | q < 7
      ensures ChangeState(p, phase, now).times[q] == p.times[q] + (if q == p.phase then now - p.since else 0)
      ensures ChangeState(p, phase, now).visits[q] == p.visits[q] + (if q == phase then 1 else 0)
    {
      ChangeStateIsExact(p, phase, now, q);
    }
  }

  /** A move: the block goes, or there is none and nothing happens. */
  lemma MovedGoes(k: State, from: nat, to: nat, pid: int)
    requires Fits(k) && from < 8 && to < 8 && from != to
    ensures Has(k.lists[from], pid) ==> Goes(k.lists, Moved(k, from, to, pid).lists, from, to, pid, k.clock)
    ensures !Has(k.lists[from], pid) ==> Moved(k, from, to, pid) == k
    ensures Moved(k, from, to, pid) == k.(lists := Moved(k, from, to, pid).lists)
  {
    if Has(k.lists[from], pid) {
      var i := Find(k.lists[from], pid);
      FoundIsFirst(k.lists[from], pid);
      if to != HELD {
        ChangedIsEntered(k.lists[from][i], to, k.clock);
      }
      assert FirstWith(k.lists[from], pid, i) && Moved(k, from, to, pid).lists[from] == Without(k.lists[from], i);
    }
  }

  // --- Moves ---------------------------------------------------------------

  /** Only the lists changed, by one block that goes; without such a block nothing did. */
  ghost predicate MoveOutcome(k: State, k': State, from: nat, to: nat, pid: int) {
    && |k.lists| == 8 && from < 8 && k' == k.(lists := k'.lists)
    && if Has(k.lists[from], pid) then Goes(k.lists, k'.lists, from, to, pid, k.clock) else k'.lists == k.lists
  }

  lemma MoveIsOutcome(k: State, from: nat, to: nat, pid: int)
    requires Fits(k) && from < 8 && to < 8 && from != to
    ensures MoveOutcome(k, Moved(k, from, to, pid), from, to, pid)
  {
    MovedGoes(k, from, to, pid);
  }

  /** Admission, resumption, suspension and its undoing, and the end of a process, each by
      the lists its block goes between. */
  lemma MovingStepIsOutcome(k: State, step: Step)
    requires Fits(k) && Legal(k, step)
    ensures match step
            case Admit(pid) => MoveOutcome(k, Apply(k, step), NEW, READY, pid)
            case TakeSuspended(pid) => MoveOutcome(k, Apply(k, step), SUSP_READY, HELD, pid)
            case MakeReady(pid) => MoveOutcome(k, Apply(k, step), HELD, READY, pid)
            case Suspend(pid) => MoveOutcome(k, Apply(k, step), BLOCKED, SUSP_BLOCKED, pid)
            case Rollback(pid) => MoveOutcome(k, Apply(k, step), SUSP_BLOCKED, BLOCKED, pid)
            case ExitSyscall(pid) => MoveOutcome(k, Apply(k, step), EXEC, EXIT, pid)
            case _ => true
  {
    match step {
      case Admit(pid) => MoveIsOutcome(k, NEW, READY, pid);
      case TakeSuspended(pid) => MoveIsOutcome(k, SUSP_READY, HELD, pid);
      case MakeReady(pid) => MoveIsOutcome(k, HELD, READY, pid);
      case Suspend(pid) => MoveIsOutcome(k, BLOCKED, SUSP_BLOCKED, pid);
      case Rollback(pid) => MoveIsOutcome(k, SUSP_BLOCKED, BLOCKED, pid);
      case ExitSyscall(pid) => MoveIsOutcome(k, EXEC, EXIT, pid);
      case _ =>
    }
  }

  /** A new process stands last in NEW with the size asked for, under the next pid, if the
      caller executes. */
  ghost predicate CreationOutcome(k: State, k': State, caller: int, size: int) {
    && |k.lists| == 8
    && if !Has(k.lists[EXEC], caller) then k' == k
       else
         && k' == k.(lists := k'.lists, lastPid := k.lastPid + 1) && |k'.lists| == 8
         && (forall l: nat | l < 8 && l != NEW :: k'.lists[l] == k.lists[l])
         && k'.lists[NEW] == k.lists[NEW] + [Pcb(k.lastPid + 1, size, NEW, k.clock, k.clock, [1, 0, 0, 0, 0, 0, 0], [0, 0, 0, 0, 0, 0, 0])]
  }

  lemma CreationIsOutcome(k: State, caller: int, size: int)
    requires Fits(k)
    ensures CreationOutcome(k, Apply(k, InitProc(caller, size)), caller, size)
  {
  }

  // --- Dumps ---------------------------------------------------------------

  ghost predicate DumpBeginOutcome(k: State, k': State, pid: int) {
    && |k.lists| == 8
    && if Has(k.lists[EXEC], pid)
       then k' == k.(lists := k'.lists, dumping := k.dumping + {pid}) && Goes(k.lists, k'.lists, EXEC, BLOCKED, pid, k.clock)
       else k' == k
  }

  lemma DumpBeginIsOutcome(k: State, pid: int)
    requires Fits(k)
    ensures DumpBeginOutcome(k, Apply(k, DumpBegin(pid)), pid)
  {
    MovedGoes(k, EXEC, BLOCKED, pid);
  }

  /** A block is added to a list, its state noted, and stays where it first occurs, too. */
  ghost predicate StandsTwice(lists: seq<seq<Pcb>>, lists': seq<seq<Pcb>>, l: nat, i: nat, to: nat, pid: int, now: int) {
    && |lists| == 8 == |lists'| && l < 8 && to < 8 && FirstWith(lists[l], pid, i) && (forall h: nat | h < l :: !Has(lists[h], pid))
    && lists'[to] != [] && var p' := lists'[to][|lists'[to]| - 1];
    && Entered(lists[l][i], p', to, now) && lists' == lists[l := lists[l][i := p']][to := lists[l := lists[l][i := p']][to] + [p']]
  }

  /** A confirmed dump sends the process from BLOCKED to READY, a failed one to EXIT. A
      process no longer in BLOCKED is added there all the same. */
  ghost predicate DumpEndOutcome(k: State, k': State, pid: int, ok: bool) {
    && |k.lists| == 8 && k' == k.(lists := k'.lists, dumping := k.dumping - {pid})
    && var to := if ok then READY else EXIT;
    && (Has(k.lists[BLOCKED], pid) ==> Goes(k.lists, k'.lists, BLOCKED, to, pid, k.clock))
    && (!Has(k.lists[BLOCKED], pid) ==>
          if exists l: nat :: l < 8 && Has(k.lists[l], pid)
          then exists l: nat, i: nat :: StandsTwice(k.lists, k'.lists, l, i, to, pid, k.clock)
          else k'.lists == k.lists)
  }

  lemma WhereaboutsIsFirst(k: State, pid: int, from: nat, h: nat)
    requires |k.lists| == 8 && from <= 8 && from <= h < Whereabouts(k, pid, from)
    ensures !Has(k.lists[h], pid)
    decreases 8 - from
  {
    if from < h {
      WhereaboutsIsFirst(k, pid, from + 1, h);
    }
  }

  lemma AddedStandsTwice(k: State, to: nat, pid: int)
    requires Fits(k) && to < 7
    ensures AddedTwice(k, to, pid) == k.(lists := AddedTwice(k, to, pid).lists)
    ensures if exists l: nat :: l < 8 && Has(k.lists[l], pid)
            then exists l: nat, i: nat :: StandsTwice(k.lists, AddedTwice(k, to, pid).lists, l, i, to, pid, k.clock)
            else AddedTwice(k, to, pid) == k
  {
    var l := Whereabouts(k, pid, 0);
    forall h: nat | h < l
      ensures !Has(k.lists[h], pid)
    {
      WhereaboutsIsFirst(k, pid, 0, h);
    }
    if l < 8 {
      var i := Find(k.lists[l], pid);
      FoundIsFirst(k.lists[l], pid);
      ChangedIsEntered(k.lists[l][i], to, k.clock);
      assert StandsTwice(k.lists, AddedTwice(k, to, pid).lists, l, i, to, pid, k.clock);
    }
  }

  lemma DumpEndIsOutcome(k: State, pid: int, ok: bool)
    requires Fits(k) && Legal(k, DumpEnd(pid, ok))
    ensures DumpEndOutcome(k, Apply(k, DumpEnd(pid, ok)), pid, ok)
  {
    var to := if ok then READY else EXIT;
    MovedGoes(k, BLOCKED, to, pid);
    AddedStandsTwice(k, to, pid);
  }

  /** After a dump the process is in READY if it was confirmed and in EXIT if not, and every
      other process is in the list it was in. */
  lemma DumpEndsIn(k: State, pid: int, ok: bool, q: int, l: nat)
    requires Inv(k) && Fits(k) && Legal(k, DumpEnd(pid, ok)) && Has(k.lists[BLOCKED], pid) && l < 8
    ensures var k' := Apply(k, DumpEnd(pid, ok));
            && |k'.lists| == 8
            && (Has(k'.lists[READY], pid) <==> ok) && (Has(k'.lists[EXIT], pid) <==> !ok) && !Has(k'.lists[BLOCKED], pid)
            && (q != pid ==> (Has(k'.lists[l], q) <==> Has(k.lists[l], q)))
  {
    var to := if ok then READY else EXIT;
    MovedHas(k, BLOCKED, to, pid, READY, pid);
    MovedHas(k, BLOCKED, to, pid, EXIT, pid);
    MovedHas(k, BLOCKED, to, pid, BLOCKED, pid);
    MovedHas(k, BLOCKED, to, pid, l, q);
  }

  // --- Devices -------------------------------------------------------------

  /** A request for a device that is not there ends the process; else it goes to BLOCKED and
      its pid joins the end of the device's queue. */
  ghost predicate IoOutcome(k: State, k': State, pid: int, d: nat) {
    && |k.lists| == 8
    && if !(d < |k.devices| && k.devices[d].connected) then MoveOutcome(k, k', EXEC, EXIT, pid)
       else if !Has(k.lists[EXEC], pid) then k' == k
       else
         && Goes(k.lists, k'.lists, EXEC, BLOCKED, pid, k.clock) && |k'.devices| == |k.devices|
         && k' == k.(lists := k'.lists, due := k.due + {d}, devices := k.devices[d := k'.devices[d]])
         && var device, device' := k.devices[d], k'.devices[d];
         && device' == device.(queue := device'.queue, enqueued := device'.enqueued)
         && device'.queue == device.queue + [pid] && device'.enqueued == device.enqueued + [pid]
  }

  lemma IoIsOutcome(k: State, pid: int, d: nat)
    requires Fits(k) && Legal(k, IoSyscall(pid, d))
    ensures IoOutcome(k, Apply(k, IoSyscall(pid, d)), pid, d)
  {
    MovedGoes(k, EXEC, EXIT, pid);
    MovedGoes(k, EXEC, BLOCKED, pid);
  }

  /** A connected device that works for nobody, or for a process in neither blocked list,
      gets the request at the head of its queue; no list changes. */
  ghost predicate ServeOutcome(k: State, k': State, d: nat) {
    && |k.lists| == 8 && k' == k.(due := k.due - {d}, devices := k'.devices)
    && if && d < |k.devices| && k.devices[d].connected && k.devices[d].queue != []
          && (k.devices[d].current == -1 || !(Has(k.lists[BLOCKED], k.devices[d].current) || Has(k.lists[SUSP_BLOCKED], k.devices[d].current)))
       then
         && |k'.devices| == |k.devices| && k'.devices == k.devices[d := k'.devices[d]]
         && var device, device' := k.devices[d], k'.devices[d];
         && device'.connected && device'.current == device.queue[0] && device'.queue == device.queue[1..]
         && device'.enqueued == device.enqueued && device'.sent == device.sent + [device.queue[0]]
       else k'.devices == k.devices
  }

  lemma ServeIsOutcome(k: State, d: nat)
    requires Fits(k)
    ensures ServeOutcome(k, Apply(k, Serve(d)), d)
  {
  }

  /** A process unblocked, or ended: from BLOCKED it goes to one list, from SUSP_BLOCKED to
      another, and from nowhere to nowhere. */
  ghost predicate UnblockOutcome(k: State, lists': seq<seq<Pcb>>, pid: int, to: nat, toSuspended: nat) {
    && |k.lists| == 8
    && if Has(k.lists[BLOCKED], pid) then Goes(k.lists, lists', BLOCKED, to, pid, k.clock)
       else if Has(k.lists[SUSP_BLOCKED], pid) then Goes(k.lists, lists', SUSP_BLOCKED, toSuspended, pid, k.clock)
       else lists' == k.lists
  }

  lemma UnblockIsOutcome(k: State, pid: int, to: nat, toSuspended: nat)
    requires Fits(k) && to < 7 && toSuspended < 7 && to != BLOCKED && toSuspended != SUSP_BLOCKED
    ensures UnblockOutcome(k, Unblocked(k, pid, to, toSuspended).lists, pid, to, toSuspended)
    ensures Unblocked(k, pid, to, toSuspended) == k.(lists := Unblocked(k, pid, to, toSuspended).lists)
  {
    MovedGoes(k, BLOCKED, to, pid);
    MovedGoes(k, SUSP_BLOCKED, toSuspended, pid);
  }

  /** A completed request sends its process from BLOCKED to READY or from SUSP_BLOCKED to
      SUSP_READY; the device works for nobody and is about to be served. */
  ghost predicate CompletionOutcome(k: State, k': State, d: nat) {
    && d < |k.devices| && UnblockOutcome(k, k'.lists, k.devices[d].current, READY, SUSP_READY)
    && k' == k.(lists := k'.lists, due := k.due + {d}, devices := k.devices[d := k.devices[d].(current := -1)])
  }

  lemma CompletionIsOutcome(k: State, d: nat)
    requires Fits(k) && Legal(k, Complete(d))
    ensures CompletionOutcome(k, Apply(k, Complete(d)), d)
  {
    UnblockIsOutcome(k, k.devices[d].current, READY, SUSP_READY);
  }

  /** A disconnection ends the process the device worked for; its queue stays. */
  ghost predicate DisconnectionOutcome(k: State, k': State, d: nat) {
    && d < |k.devices| && |k.lists| == 8
    && (if k.devices[d].current == -1 then k'.lists == k.lists else UnblockOutcome(k, k'.lists, k.devices[d].current, EXIT, EXIT))
    && k' == k.(lists := k'.lists, devices := k.devices[d := k.devices[d].(connected := false, current := -1)])
  }

  lemma DisconnectionIsOutcome(k: State, d: nat)
    requires Fits(k) && Legal(k, Disconnect(d))
    ensures DisconnectionOutcome(k, Apply(k, Disconnect(d)), d)
  {
    UnblockIsOutcome(k, k.devices[d].current, EXIT, EXIT);
  }

  /** A device seen for the first time has no requests; one seen again keeps its queue and is
      about to be served. */
  ghost predicate ConnectionOutcome(k: State, k': State, d: nat) {
    if d < |k.devices|
    then k' == k.(due := k.due + {d}, devices := k.devices[d := k.devices[d].(connected := true, current := -1)])
    else k' == k.(devices := k.devices + [Device(true, -1, [], [], [])])
  }

  lemma ConnectionIsOutcome(k: State, d: nat)
    requires Fits(k) && Legal(k, Connect(d))
    ensures ConnectionOutcome(k, Apply(k, Connect(d)), d)
  {
  }

  // --- CPUs ----------------------------------------------------------------

  /** A CPU gets a ready process. */
  ghost predicate DispatchOutcome(k: State, k': State, cpu: nat, pid: int) {
    && cpu < |k.cpus| && k' == k.(lists := k'.lists, cpus := k.cpus[cpu := pid], wait := Idle)
    && MoveOutcome(k, k.(lists := k'.lists), READY, EXEC, pid)
  }

  lemma DispatchIsOutcome(k: State, cpu: nat, pid: int)
    requires Fits(k) && cpu < |k.cpus|
    ensures DispatchOutcome(k, Dispatched(k, cpu, pid), cpu, pid)
  {
    MovedGoes(k, READY, EXEC, pid);
  }

  /** A CPU's answer: the process it stopped, if it is the one asked for, goes from EXEC to
      READY; then the CPU gets the one that waited. */
  ghost predicate ReplyOutcome(k: State, k': State, samePid: bool) {
    && k.wait.Interrupting? && k.wait.cpu < |k.cpus|
    && exists between: State ::
         && DispatchOutcome(between, k', k.wait.cpu, k.wait.pid)
         && if samePid then MoveOutcome(k, between, EXEC, READY, k.cpus[k.wait.cpu]) else between == k
  }

  lemma ReplyIsOutcome(k: State, samePid: bool)
    requires Fits(k) && Legal(k, Reply(samePid))
    ensures ReplyOutcome(k, Apply(k, Reply(samePid)), samePid)
  {
    var between := if samePid then Moved(k, EXEC, READY, k.cpus[k.wait.cpu]) else k;
    MoveIsOutcome(k, EXEC, READY, k.cpus[k.wait.cpu]);
    DispatchIsOutcome(between, k.wait.cpu, k.wait.pid);
  }

  /** Of two different processes, one stopped and one waiting, each of which has one block,
      the stopped one is in READY after the answer and the waiting one in EXEC. */
  lemma ReplyEndsIn(k: State)
    requires Inv(k) && Fits(k) && Legal(k, Reply(true)) && Has(k.lists[EXEC], k.cpus[k.wait.cpu])
    ensures var k', stopped := Apply(k, Reply(true)), k.cpus[k.wait.cpu];
            && |k'.lists| == 8 && Has(k'.lists[READY], stopped) && !Has(k'.lists[EXEC], stopped)
            && Has(k'.lists[EXEC], k.wait.pid) && !Has(k'.lists[READY], k.wait.pid)
            && |k'.cpus| == |k.cpus| && k'.cpus[k.wait.cpu] == k.wait.pid
  {
    var stopped, waiting := k.cpus[k.wait.cpu], k.wait.pid;
    var between := Moved(k, EXEC, READY, stopped);
    OneList(k, EXEC, READY, stopped);
    MovedPartition(k, EXEC, READY, stopped);
    MovedHas(k, EXEC, READY, stopped, READY, stopped);
    MovedHas(k, EXEC, READY, stopped, EXEC, stopped);
    MovedHas(k, EXEC, READY, stopped, READY, waiting);
    MovedHas(between, READY, EXEC, waiting, READY, stopped);
    MovedHas(between, READY, EXEC, waiting, EXEC, stopped);
    MovedHas(between, READY, EXEC, waiting, EXEC, waiting);
    MovedHas(between, READY, EXEC, waiting, READY, waiting);
  }
}

/** The kernel's lists and the memory module together: who is in SUSP_BLOCKED or SUSP_READY
    and whom the memory module suspends. The medium-term scheduler moves a process to
    SUSP_BLOCKED first and asks the memory module afterwards, with no list locked, so other
    steps come between. */
module Swapping {
  import opened Kernel
  import opened KernelOutcomes
  import opened KernelSteps
  import opened Lists
  import FrameAllocator
  import Store
  import StoreRuns

  /** `leaving` holds the processes whose suspension was asked for and not served yet,
      `refused` those whose suspension failed and is to be taken back, `kept` those for which
      that came too late: they had gone on to SUSP_READY. */
  datatype Joint = Joint(kernel: State, memory: Store.State, leaving: set<int>, refused: set<int>, kept: set<int>)

  datatype Event =
    | Ordinary(step: Step)
    | Admitted(pid: int)
    | SuspensionBegins(pid: int)
    | SuspensionServed(pid: int, writes: nat, partial: nat)
    | SuspensionUndone(pid: int)
    | Resumed(pid: int)
    | Destroyed(pid: int)

  /** Neither an admission nor part of a suspension or resumption. */
  predicate IsOrdinary(step: Step) {
    !step.Admit? && !step.Suspend? && !step.Rollback? && !step.TakeSuspended?
  }

  predicate Away(k: State, pid: int)
    requires |k.lists| == 8
  {
    Has(k.lists[SUSP_BLOCKED], pid) || Has(k.lists[SUSP_READY], pid)
  }

  /** When an event can happen. A process is resumed from SUSP_READY only when no suspension
      of it is under way, which is what the code does not check. */
  predicate Allowed(j: Joint, e: Event)
    requires Fits(j.kernel)
  {
    match e
    case Ordinary(step) => IsOrdinary(step) && Legal(j.kernel, step)
    case Admitted(pid) => Legal(j.kernel, Admit(pid))
    case SuspensionBegins(pid) => Legal(j.kernel, Suspend(pid))
    case SuspensionServed(pid, writes, partial) => pid in j.leaving
    case SuspensionUndone(pid) => pid in j.refused
    case Resumed(pid) => Legal(j.kernel, TakeSuspended(pid)) && pid !in j.leaving + j.refused
    case Destroyed(pid) => Has(j.kernel.lists[EXIT], pid)
  }

  function AfterAdmission(c: Store.Config, j: Joint, pid: int): Joint
    requires Fits(j.kernel) && c.pageSize > 0 && Legal(j.kernel, Admit(pid))
  {
    var (memory, ok) := Store.Create(c, j.memory, pid, BlockOf(j.kernel, NEW, pid).size);
    j.(memory := memory, kernel := if ok then Apply(j.kernel, Admit(pid)) else j.kernel)
  }

  /** The block moves at once; only a process with pages is then suspended in memory. */
  function AfterBeginning(j: Joint, pid: int): Joint
    requires Fits(j.kernel)
  {
    if Has(j.kernel.lists[BLOCKED], pid) then
      j.(kernel := Moved(j.kernel, BLOCKED, SUSP_BLOCKED, pid),
         leaving := if BlockOf(j.kernel, BLOCKED, pid).size != 0 then j.leaving + {pid} else j.leaving)
    else j
  }

  /** The process goes to SUSP_BLOCKED, whatever its size; its suspension is asked for exactly
      if it has a size. */
  lemma BeginningIsExact(j: Joint, pid: int)
    requires Fits(j.kernel)
    ensures var j' := AfterBeginning(j, pid);
            && MoveOutcome(j.kernel, j'.kernel, BLOCKED, SUSP_BLOCKED, pid)
            && j' == j.(kernel := j'.kernel, leaving := j'.leaving)
            && j'.leaving == if Has(j.kernel.lists[BLOCKED], pid) && BlockOf(j.kernel, BLOCKED, pid).size != 0 then j.leaving + {pid} else j.leaving
  {
    MoveIsOutcome(j.kernel, BLOCKED, SUSP_BLOCKED, pid);
  }

  function AfterService(c: Store.Config, j: Joint, pid: int, writes: nat, partial: nat): Joint {
    var (memory, ok) := Store.SwapOut(c, j.memory, pid, writes, partial);
    j.(memory := memory, leaving := j.leaving - {pid}, refused := if ok then j.refused else j.refused + {pid})
  }

  function AfterUndoing(j: Joint, pid: int): Joint
    requires Fits(j.kernel)
  {
    j.(kernel := Moved(j.kernel, SUSP_BLOCKED, BLOCKED, pid), refused := j.refused - {pid},
       kept := if Has(j.kernel.lists[SUSP_BLOCKED], pid) then j.kept else j.kept + {pid})
  }

  function AfterResumption(c: Store.Config, j: Joint, pid: int): Joint
    requires Fits(j.kernel)
  {
    var (memory, ok) := Store.SwapIn(c, j.memory, pid);
    if ok then j.(memory := memory, kernel := Moved(j.kernel, SUSP_READY, HELD, pid), kept := j.kept - {pid})
    else j.(memory := memory)
  }

  function Next(c: Store.Config, j: Joint, e: Event): Joint
    requires Fits(j.kernel) && c.pageSize > 0 && Allowed(j, e)
  {
    match e
    case Ordinary(step) => j.(kernel := Apply(j.kernel, step))
    case Admitted(pid) => AfterAdmission(c, j, pid)
    case SuspensionBegins(pid) => AfterBeginning(j, pid)
    case SuspensionServed(pid, writes, partial) => AfterService(c, j, pid, writes, partial)
    case SuspensionUndone(pid) => AfterUndoing(j, pid)
    case Resumed(pid) => AfterResumption(c, j, pid)
    case Destroyed(pid) => j.(memory := Store.Kill(j.memory, pid).0)
  }

  function BlockOf(k: State, list: nat, pid: int): Pcb
    requires list < |k.lists| && Has(k.lists[list], pid)
  {
    k.lists[list][Find(k.lists[list], pid)]
  }

  // --- Agreement -----------------------------------------------------------

  /** Every block with the pid has the size. */
  ghost predicate HasSize(k: State, pid: int, size: int)
    requires |k.lists| == 8
  {
    forall l: nat, m: nat | l < 8 && m < |k.lists[l]| && k.lists[l][m].pid == pid :: k.lists[l][m].size == size
  }

  /** The memory module suspends only processes in the two suspended lists (or ended there);
      and those it does not suspend there have no pages, are about to be suspended, or their
      suspension failed. */
  ghost predicate Agrees(j: Joint, p: Store.Process)
    requires |j.kernel.lists| == 8
  {
    && (p.suspended ==> Away(j.kernel, p.pid) || Has(j.kernel.lists[EXIT], p.pid))
    && (Away(j.kernel, p.pid) && !p.suspended ==> p.size == 0 || p.pid in j.leaving + j.refused + j.kept)
  }

  /** The record is of an admitted process of that size, resident while its suspension is
      under way. */
  ghost predicate Known(j: Joint, p: Store.Process)
    requires |j.kernel.lists| == 8
  {
    && 0 <= p.pid <= j.kernel.lastPid && !Has(j.kernel.lists[NEW], p.pid) && HasSize(j.kernel, p.pid, p.size)
    && (p.pid in j.leaving + j.refused ==> !p.suspended)
  }

  /** Processes whose suspension is under way stay in the suspended lists or end there. */
  ghost predicate Underway(j: Joint)
    requires |j.kernel.lists| == 8
  {
    && j.leaving !! j.refused
    && forall pid: int | pid in j.leaving + j.refused :: Away(j.kernel, pid) || Has(j.kernel.lists[EXIT], pid)
  }

  ghost predicate Sound(j: Joint) {
    && Inv(j.kernel) && Fits(j.kernel) && Underway(j) && Store.UniquePids(j.memory.procs)
    && forall i: nat | i < |j.memory.procs| :: Known(j, j.memory.procs[i]) && Agrees(j, j.memory.procs[i])
  }

  // --- What a step of the kernel does to one process ------------------------

  /** What a step leaves of one process's places: nobody enters NEW or the suspended lists,
      and whoever leaves the latter ended. */
  ghost predicate PlacesKept(k: State, k': State, pid: int, size: int) {
    && |k.lists| == 8 && |k'.lists| == 8 && k.lastPid <= k'.lastPid
    && (!Has(k.lists[NEW], pid) ==> !Has(k'.lists[NEW], pid))
    && (Away(k', pid) ==> Away(k, pid))
    && (Away(k, pid) ==> Away(k', pid) || Has(k'.lists[EXIT], pid))
    && (Has(k.lists[EXIT], pid) ==> Has(k'.lists[EXIT], pid))
    && (HasSize(k, pid, size) ==> HasSize(k', pid, size))
  }

  lemma MovedKeepsSizes(k: State, from: nat, to: nat, pid: int, q: int, size: int)
    requires Fits(k) && from < 8 && to < 8 && from != to && HasSize(k, q, size)
    ensures HasSize(Moved(k, from, to, pid), q, size)
  {
    var k', at := Moved(k, from, to, pid), Find(k.lists[from], pid);
    if at < |k.lists[from]| {
      forall l: nat, m: nat | l < 8 && m < |k'.lists[l]| && k'.lists[l][m].pid == q
        ensures k'.lists[l][m].size == size
      {
        if l == from {
          assert k'.lists[l][m] == k.lists[l][if m < at then m else m + 1];
        } else if l == to && m == |k.lists[to]| {
          assert k'.lists[l][m].size == k.lists[from][at].size;
        } else {
          assert k'.lists[l][m] == k.lists[l][m];
        }
      }
    }
  }

  /** Moves that neither start nor end in one of these lists, except between the suspended
      ones or from there to EXIT. */
  lemma MovedKeepsPlaces(k: State, from: nat, to: nat, pid: int, q: int, size: int)
    requires Partitioned(k) && Fits(k) && from < 8 && to < 8 && from != to && to != NEW && from != EXIT
    requires to == SUSP_BLOCKED || to == SUSP_READY ==> from == SUSP_BLOCKED || from == SUSP_READY
    requires from == SUSP_BLOCKED || from == SUSP_READY ==> to == SUSP_BLOCKED || to == SUSP_READY || to == EXIT
    ensures PlacesKept(k, Moved(k, from, to, pid), q, size)
  {
    if HasSize(k, q, size) {
      MovedKeepsSizes(k, from, to, pid, q, size);
    }
    MovedHas(k, from, to, pid, NEW, q);
    MovedHas(k, from, to, pid, SUSP_BLOCKED, q);
    MovedHas(k, from, to, pid, SUSP_READY, q);
    MovedHas(k, from, to, pid, EXIT, q);
  }

  lemma SwapKeepsSizes(k: State, list: nat, i: nat, m: nat, pid: int, size: int)
    requires Fits(k) && Legal(k, Swap(list, i, m)) && HasSize(k, pid, size)
    ensures HasSize(k.(lists := k.lists[list := Swapped(k.lists[list], i, m)]), pid, size)
  {
    var items := Swapped(k.lists[list], i, m);
    forall n: nat | n < |items| && items[n].pid == pid
      ensures items[n].size == size
    {
      assert items[n] == k.lists[list][if n == i then m else if n == m then i else n];
    }
  }

  lemma SwapKeepsPlaces(k: State, list: nat, i: nat, m: nat, pid: int, size: int)
    requires Fits(k) && Legal(k, Swap(list, i, m))
    ensures PlacesKept(k, Apply(k, Swap(list, i, m)), pid, size)
  {
    SwapHas(k, list, i, m, NEW, pid);
    SwapHas(k, list, i, m, SUSP_BLOCKED, pid);
    SwapHas(k, list, i, m, SUSP_READY, pid);
    SwapHas(k, list, i, m, EXIT, pid);
    if HasSize(k, pid, size) {
      SwapKeepsSizes(k, list, i, m, pid, size);
    }
  }

  lemma CreatedKeepsPlaces(k: State, newSize: int, pid: int, size: int)
    requires Fits(k) && pid <= k.lastPid
    ensures PlacesKept(k, Created(k, newSize), pid, size)
  {
    CountAppend(k.lists[NEW], NewPcb(k.lastPid + 1, newSize, k.clock), pid);
    HasCount(k.lists[NEW], pid);
    HasCount(Created(k, newSize).lists[NEW], pid);
  }

  lemma ReplyKeepsPlaces(k: State, samePid: bool, pid: int, size: int)
    requires Inv(k) && Fits(k) && Legal(k, Reply(samePid))
    ensures PlacesKept(k, Replied(k, samePid), pid, size)
  {
    var stopped := if samePid then Moved(k, EXEC, READY, k.cpus[k.wait.cpu]) else k;
    if samePid {
      MovedPartition(k, EXEC, READY, k.cpus[k.wait.cpu]);
      MovedKeepsPlaces(k, EXEC, READY, k.cpus[k.wait.cpu], pid, size);
    }
    MovedKeepsPlaces(stopped, READY, EXEC, k.wait.pid, pid, size);
  }

  lemma UnblockedKeepsPlaces(k: State, current: int, to: nat, toSuspended: nat, pid: int, size: int)
    requires Partitioned(k) && Fits(k)
    requires (to == READY && toSuspended == SUSP_READY) || (to == EXIT && toSuspended == EXIT)
    ensures PlacesKept(k, Unblocked(k, current, to, toSuspended), pid, size)
  {
    MovedKeepsPlaces(k, BLOCKED, to, current, pid, size);
    MovedKeepsPlaces(k, SUSP_BLOCKED, toSuspended, current, pid, size);
  }

  lemma RequestKeepsPlaces(k: State, other: int, d: nat, pid: int, size: int)
    requires Partitioned(k) && Fits(k)
    ensures PlacesKept(k, IoRequested(k, other, d), pid, size)
  {
    MovedKeepsPlaces(k, EXEC, EXIT, other, pid, size);
    MovedKeepsPlaces(k, EXEC, BLOCKED, other, pid, size);
  }

  lemma IoKeepsPlaces(k: State, step: Step, pid: int, size: int)
    requires Inv(k) && Fits(k) && Legal(k, step) && (step.IoSyscall? || step.Complete? || step.Disconnect?)
    ensures PlacesKept(k, Apply(k, step), pid, size)
  {
    match step {
      case IoSyscall(other, d) => RequestKeepsPlaces(k, other, d, pid, size);
      case Complete(d) => UnblockedKeepsPlaces(k, k.devices[d].current, READY, SUSP_READY, pid, size);
      case Disconnect(d) => UnblockedKeepsPlaces(k, k.devices[d].current, EXIT, EXIT, pid, size);
      case _ =>
    }
  }

  lemma DumpKeepsPlaces(k: State, step: Step, pid: int, size: int)
    requires Inv(k) && Fits(k) && Legal(k, step) && (step.DumpBegin? || step.DumpEnd?)
    ensures PlacesKept(k, Apply(k, step), pid, size)
  {
    match step {
      case DumpBegin(other) => MovedKeepsPlaces(k, EXEC, BLOCKED, other, pid, size);
      case DumpEnd(other, ok) => MovedKeepsPlaces(k, BLOCKED, if ok then READY else EXIT, other, pid, size);
      case _ =>
    }
  }

  lemma DispatchKeepsPlaces(k: State, cpu: nat, other: int, pid: int, size: int)
    requires Partitioned(k) && Fits(k) && cpu < |k.cpus|
    ensures PlacesKept(k, Dispatched(k, cpu, other), pid, size)
  {
    MovedKeepsPlaces(k, READY, EXEC, other, pid, size);
  }

  lemma SchedulerKeepsPlaces(k: State, step: Step, pid: int, size: int)
    requires Inv(k) && Fits(k) && Legal(k, step)
    requires step.MakeReady? || step.Dispatch? || step.ExitSyscall?
    ensures PlacesKept(k, Apply(k, step), pid, size)
  {
    match step {
      case MakeReady(other) => MovedKeepsPlaces(k, HELD, READY, other, pid, size);
      case Dispatch(cpu, other) => DispatchKeepsPlaces(k, cpu, other, pid, size);
      case ExitSyscall(other) => MovedKeepsPlaces(k, EXEC, EXIT, other, pid, size);
      case _ =>
    }
  }

  predicate Quiet(step: Step) {
    step.Tick? || step.AddCpu? || step.FreeCpu? || step.Interrupt? || step.Serve? || step.Connect?
  }

  lemma QuietKeepsPlaces(k: State, step: Step, pid: int, size: int)
    requires Fits(k) && Legal(k, step) && Quiet(step)
    ensures PlacesKept(k, Apply(k, step), pid, size)
  {
    assert Apply(k, step).lists == k.lists;
  }

  lemma OrdinaryKeepsPlaces(k: State, step: Step, pid: int, size: int)
    requires Inv(k) && Fits(k) && Legal(k, step) && IsOrdinary(step) && pid <= k.lastPid
    ensures PlacesKept(k, Apply(k, step), pid, size)
  {
    if Quiet(step) {
      QuietKeepsPlaces(k, step, pid, size);
    } else if step.IoSyscall? || step.Complete? || step.Disconnect? {
      IoKeepsPlaces(k, step, pid, size);
    } else if step.DumpBegin? || step.DumpEnd? {
      DumpKeepsPlaces(k, step, pid, size);
    } else if step.MakeReady? || step.Dispatch? || step.ExitSyscall? {
      SchedulerKeepsPlaces(k, step, pid, size);
    } else if step.Swap? {
      SwapKeepsPlaces(k, step.list, step.i, step.j, pid, size);
    } else if step.Reply? {
      ReplyKeepsPlaces(k, step.samePid, pid, size);
    } else {
      CreatedKeepsPlaces(k, step.size, pid, size);
    }
  }

  /** Any move, seen by another process. */
  lemma OthersKeepPlaces(k: State, from: nat, to: nat, pid: int, q: int, size: int)
    requires Partitioned(k) && Fits(k) && from < 8 && to < 8 && from != to && q != pid
    ensures PlacesKept(k, Moved(k, from, to, pid), q, size)
  {
    if HasSize(k, q, size) {
      MovedKeepsSizes(k, from, to, pid, q, size);
    }
    MovedHas(k, from, to, pid, NEW, q);
    MovedHas(k, from, to, pid, SUSP_BLOCKED, q);
    MovedHas(k, from, to, pid, SUSP_READY, q);
    MovedHas(k, from, to, pid, EXIT, q);
  }

  // --- What a request does to the records -----------------------------------

  lemma CreateRecords(c: Store.Config, s: Store.State, pid: int, size: int)
    requires c.pageSize > 0
    ensures var (s', ok) := Store.Create(c, s, pid, size);
            if ok then |s'.procs| == |s.procs| + 1 && s'.procs[..|s.procs|] == s.procs
                       && s'.procs[|s.procs|].pid == pid && s'.procs[|s.procs|].size == size && !s'.procs[|s.procs|].suspended
            else s'.procs == s.procs
  {
  }

  lemma SwapOutRecords(c: Store.Config, s: Store.State, pid: int, writes: nat, partial: nat)
    ensures var (s', ok), at := Store.SwapOut(c, s, pid, writes, partial), Store.Find(s.procs, pid);
            if ok then at < |s.procs| && exists p: Store.Process ::
                         p.pid == pid && p.size == s.procs[at].size && p.suspended && s'.procs == s.procs[at := p]
            else s'.procs == s.procs
  {
    var (s', ok) := Store.SwapOut(c, s, pid, writes, partial);
    var at := Store.Find(s.procs, pid);
    if ok {
      assert s'.procs == s.procs[at := s'.procs[at]];
    }
  }

  lemma SwapInRecords(c: Store.Config, s: Store.State, pid: int)
    ensures var (s', ok), at := Store.SwapIn(c, s, pid), Store.Find(s.procs, pid);
            if ok then at < |s.procs| && exists p: Store.Process ::
                         p.pid == pid && p.size == s.procs[at].size && !p.suspended && s'.procs == s.procs[at := p]
            else s'.procs == s.procs
  {
    var (s', ok) := Store.SwapIn(c, s, pid);
    var at := Store.Find(s.procs, pid);
    if ok {
      assert s'.procs == s.procs[at := s'.procs[at]];
    }
  }

  // --- Each event keeps the agreement ---------------------------------------

  lemma RecordKept(j: Joint, j': Joint, p: Store.Process)
    requires PlacesKept(j.kernel, j'.kernel, p.pid, p.size) && Known(j, p) && Agrees(j, p)
    requires p.pid in j'.leaving + j'.refused <==> p.pid in j.leaving + j.refused
    requires p.pid in j.kept ==> p.pid in j'.kept
    ensures Known(j', p) && Agrees(j', p)
  {
  }

  lemma PlaceIsKnown(k: State, pid: int)
    requires Partitioned(k) && (Away(k, pid) || Has(k.lists[EXIT], pid))
    ensures 0 <= pid <= k.lastPid
  {
    if Has(k.lists[SUSP_BLOCKED], pid) {
      OneList(k, SUSP_BLOCKED, NEW, pid);
    } else if Has(k.lists[SUSP_READY], pid) {
      OneList(k, SUSP_READY, NEW, pid);
    } else {
      OneList(k, EXIT, NEW, pid);
    }
  }

  lemma OrdinaryKeeps(j: Joint, step: Step)
    requires Sound(j) && IsOrdinary(step) && Legal(j.kernel, step)
    ensures Sound(j.(kernel := Apply(j.kernel, step)))
  {
    var j' := j.(kernel := Apply(j.kernel, step));
    StepKeepsInv(j.kernel, step);
    forall i: nat | i < |j.memory.procs|
      ensures Known(j', j.memory.procs[i]) && Agrees(j', j.memory.procs[i])
    {
      OrdinaryKeepsPlaces(j.kernel, step, j.memory.procs[i].pid, j.memory.procs[i].size);
      RecordKept(j, j', j.memory.procs[i]);
    }
    forall pid: int | pid in j'.leaving + j'.refused
      ensures Away(j'.kernel, pid) || Has(j'.kernel.lists[EXIT], pid)
    {
      PlaceIsKnown(j.kernel, pid);
      OrdinaryKeepsPlaces(j.kernel, step, pid, 0);
    }
  }

  /** In a partition a process has one block. */
  lemma OneBlock(k: State, list: nat, pid: int, l: nat, m: nat)
    requires Partitioned(k) && list < 8 && Has(k.lists[list], pid) && l < 8 && m < |k.lists[l]| && k.lists[l][m].pid == pid
    ensures k.lists[l][m] == BlockOf(k, list, pid)
  {
    MemberIsCounted(k.lists[l], m);
    if l != list {
      OneList(k, list, l, pid);
    } else {
      var at := Find(k.lists[list], pid);
      OneList(k, list, if list == NEW then READY else NEW, pid);
      if at < m {
        TwiceIsCountedTwice(k.lists[list], at, m);
      } else if m < at {
        TwiceIsCountedTwice(k.lists[list], m, at);
      }
    }
  }

  lemma BlockHasSize(k: State, list: nat, pid: int)
    requires Partitioned(k) && list < 8 && Has(k.lists[list], pid)
    ensures HasSize(k, pid, BlockOf(k, list, pid).size)
  {
    forall l: nat, m: nat | l < 8 && m < |k.lists[l]| && k.lists[l][m].pid == pid
      ensures k.lists[l][m].size == BlockOf(k, list, pid).size
    {
      OneBlock(k, list, pid, l, m);
    }
  }

  lemma AdmittedFits(j: Joint, j': Joint, pid: int, p: Store.Process)
    requires Sound(j) && Legal(j.kernel, Admit(pid)) && j'.kernel == Moved(j.kernel, NEW, READY, pid)
    requires p.pid == pid && p.size == BlockOf(j.kernel, NEW, pid).size && !p.suspended
    ensures Known(j', p) && Agrees(j', p)
  {
    var k := j.kernel;
    BlockHasSize(k, NEW, pid);
    MovedKeepsSizes(k, NEW, READY, pid, pid, p.size);
    MovedHas(k, NEW, READY, pid, NEW, pid);
    MovedHas(k, NEW, READY, pid, SUSP_BLOCKED, pid);
    MovedHas(k, NEW, READY, pid, SUSP_READY, pid);
    OneList(k, NEW, READY, pid);
  }

  lemma RecordAdded(procs: seq<Store.Process>, procs': seq<Store.Process>)
    requires Store.UniquePids(procs) && |procs'| == |procs| + 1 && procs'[..|procs|] == procs
    requires forall i: nat | i < |procs| :: procs[i].pid != procs'[|procs|].pid
    ensures Store.UniquePids(procs') && forall i: nat | i < |procs| :: procs'[i] == procs[i]
  {
    assert forall i: nat | i < |procs| :: procs'[i] == procs'[..|procs|][i];
  }

  /** A new process: the pid is new to the memory module as well. */
  lemma AdmissionKeeps(c: Store.Config, j: Joint, pid: int)
    requires Sound(j) && c.pageSize > 0 && Legal(j.kernel, Admit(pid))
    ensures Sound(AfterAdmission(c, j, pid)) && !StoreRuns.Alive(j.memory, pid)
  {
    var j' := AfterAdmission(c, j, pid);
    CreateRecords(c, j.memory, pid, BlockOf(j.kernel, NEW, pid).size);
    if Store.Create(c, j.memory, pid, BlockOf(j.kernel, NEW, pid).size).1 {
      StepKeepsInv(j.kernel, Admit(pid));
      PlacesAfterMove(j, j', NEW, READY, pid);
      AdmittedFits(j, j', pid, j'.memory.procs[|j.memory.procs|]);
      RecordAdded(j.memory.procs, j'.memory.procs);
      forall i: nat | i < |j'.memory.procs|
        ensures Known(j', j'.memory.procs[i]) && Agrees(j', j'.memory.procs[i])
      {
        if i < |j.memory.procs| {
          assert j'.memory.procs[i] == j.memory.procs[i];
        }
      }
    }
  }

  /** After a move, records of other processes fit as before, and other suspensions under
      way are where they were. */
  lemma PlacesAfterMove(j: Joint, j': Joint, from: nat, to: nat, pid: int)
    requires Sound(j) && from < 8 && to < 8 && from != to && j'.kernel == Moved(j.kernel, from, to, pid)
    requires forall q: int | q != pid :: (q in j.leaving <==> q in j'.leaving) && (q in j.refused <==> q in j'.refused) && (q in j.kept <==> q in j'.kept)
    ensures forall i: nat | i < |j.memory.procs| && j.memory.procs[i].pid != pid :: Known(j', j.memory.procs[i]) && Agrees(j', j.memory.procs[i])
    ensures forall q: int | q != pid && q in j.leaving + j.refused :: Away(j'.kernel, q) || Has(j'.kernel.lists[EXIT], q)
  {
    forall i: nat | i < |j.memory.procs| && j.memory.procs[i].pid != pid
      ensures Known(j', j.memory.procs[i]) && Agrees(j', j.memory.procs[i])
    {
      OthersKeepPlaces(j.kernel, from, to, pid, j.memory.procs[i].pid, j.memory.procs[i].size);
      RecordKept(j, j', j.memory.procs[i]);
    }
    forall q: int | q != pid && q in j.leaving + j.refused
      ensures Away(j'.kernel, q) || Has(j'.kernel.lists[EXIT], q)
    {
      OthersKeepPlaces(j.kernel, from, to, pid, q, 0);
    }
  }

  lemma BlockedIsNotAway(j: Joint, pid: int)
    requires Sound(j) && Has(j.kernel.lists[BLOCKED], pid)
    ensures pid !in j.leaving + j.refused && !Away(j.kernel, pid) && !Has(j.kernel.lists[EXIT], pid)
  {
    OneList(j.kernel, BLOCKED, SUSP_BLOCKED, pid);
    OneList(j.kernel, BLOCKED, SUSP_READY, pid);
    OneList(j.kernel, BLOCKED, EXIT, pid);
  }

  lemma BeginningKeeps(j: Joint, pid: int)
    requires Sound(j) && Legal(j.kernel, Suspend(pid))
    ensures Sound(AfterBeginning(j, pid))
  {
    var k, j' := j.kernel, AfterBeginning(j, pid);
    if Has(k.lists[BLOCKED], pid) {
      StepKeepsInv(k, Suspend(pid));
      BlockedIsNotAway(j, pid);
      PlacesAfterMove(j, j', BLOCKED, SUSP_BLOCKED, pid);
      MovedHas(k, BLOCKED, SUSP_BLOCKED, pid, SUSP_BLOCKED, pid);
      MovedHas(k, BLOCKED, SUSP_BLOCKED, pid, NEW, pid);
      forall i: nat | i < |j.memory.procs| && j.memory.procs[i].pid == pid
        ensures Known(j', j.memory.procs[i]) && Agrees(j', j.memory.procs[i])
      {
        MovedKeepsSizes(k, BLOCKED, SUSP_BLOCKED, pid, pid, j.memory.procs[i].size);
        assert BlockOf(k, BLOCKED, pid).size == j.memory.procs[i].size;
      }
    }
  }

  lemma RecordsReplaced(procs: seq<Store.Process>, at: nat, p: Store.Process)
    requires Store.UniquePids(procs) && at < |procs| && p.pid == procs[at].pid
    ensures Store.UniquePids(procs[at := p])
    ensures forall i: nat | i < |procs| && i != at :: procs[at := p][i] == procs[i] && procs[i].pid != p.pid
  {
  }

  lemma ServiceKeeps(c: Store.Config, j: Joint, pid: int, writes: nat, partial: nat)
    requires Sound(j) && pid in j.leaving
    ensures Sound(AfterService(c, j, pid, writes, partial))
  {
    var j', at := AfterService(c, j, pid, writes, partial), Store.Find(j.memory.procs, pid);
    SwapOutRecords(c, j.memory, pid, writes, partial);
    if Store.SwapOut(c, j.memory, pid, writes, partial).1 {
      RecordsReplaced(j.memory.procs, at, j'.memory.procs[at]);
    }
    forall i: nat | i < |j.memory.procs|
      ensures Known(j', j'.memory.procs[i]) && Agrees(j', j'.memory.procs[i])
    {
      assert Known(j, j.memory.procs[i]) && Agrees(j, j.memory.procs[i]);
    }
  }

  lemma UndoingKeeps(j: Joint, pid: int)
    requires Sound(j) && pid in j.refused
    ensures Sound(AfterUndoing(j, pid))
  {
    var k, j' := j.kernel, AfterUndoing(j, pid);
    StepKeepsInv(k, Rollback(pid));
    PlacesAfterMove(j, j', SUSP_BLOCKED, BLOCKED, pid);
    MovedHas(k, SUSP_BLOCKED, BLOCKED, pid, SUSP_BLOCKED, pid);
    MovedHas(k, SUSP_BLOCKED, BLOCKED, pid, SUSP_READY, pid);
    MovedHas(k, SUSP_BLOCKED, BLOCKED, pid, NEW, pid);
    forall i: nat | i < |j.memory.procs| && j.memory.procs[i].pid == pid
      ensures Known(j', j.memory.procs[i]) && Agrees(j', j.memory.procs[i])
    {
      MovedKeepsSizes(k, SUSP_BLOCKED, BLOCKED, pid, pid, j.memory.procs[i].size);
    }
  }

  lemma SameRecords(j: Joint, memory: Store.State)
    requires Sound(j) && memory.procs == j.memory.procs
    ensures Sound(j.(memory := memory))
  {
    var j' := j.(memory := memory);
    forall i: nat | i < |memory.procs|
      ensures Known(j', memory.procs[i]) && Agrees(j', memory.procs[i])
    {
      assert Known(j, memory.procs[i]) && Agrees(j, memory.procs[i]);
    }
  }

  lemma ResumedFits(j: Joint, j': Joint, at: nat, p: Store.Process)
    requires Sound(j) && at < |j.memory.procs| && p.pid == j.memory.procs[at].pid && p.size == j.memory.procs[at].size && !p.suspended
    requires Has(j.kernel.lists[SUSP_READY], p.pid) && j'.kernel == Moved(j.kernel, SUSP_READY, HELD, p.pid)
    ensures Known(j', p) && Agrees(j', p)
  {
    var k := j.kernel;
    assert Known(j, j.memory.procs[at]);
    MovedHas(k, SUSP_READY, HELD, p.pid, SUSP_BLOCKED, p.pid);
    MovedHas(k, SUSP_READY, HELD, p.pid, SUSP_READY, p.pid);
    MovedHas(k, SUSP_READY, HELD, p.pid, NEW, p.pid);
    MovedKeepsSizes(k, SUSP_READY, HELD, p.pid, p.pid, p.size);
  }

  lemma ResumptionKeeps(c: Store.Config, j: Joint, pid: int)
    requires Sound(j) && Legal(j.kernel, TakeSuspended(pid)) && pid !in j.leaving + j.refused
    ensures Sound(AfterResumption(c, j, pid))
  {
    var k, j', at := j.kernel, AfterResumption(c, j, pid), Store.Find(j.memory.procs, pid);
    SwapInRecords(c, j.memory, pid);
    if Store.SwapIn(c, j.memory, pid).1 {
      RecordsReplaced(j.memory.procs, at, j'.memory.procs[at]);
      StepKeepsInv(k, TakeSuspended(pid));
      PlacesAfterMove(j, j', SUSP_READY, HELD, pid);
      ResumedFits(j, j', at, j'.memory.procs[at]);
    } else {
      SameRecords(j, j'.memory);
    }
  }

  lemma RecordRemoved(procs: seq<Store.Process>, at: nat)
    requires Store.UniquePids(procs) && at < |procs|
    ensures Store.UniquePids(Without(procs, at))
  {
  }

  lemma DestructionKeeps(j: Joint, pid: int)
    requires Sound(j)
    ensures Sound(j.(memory := Store.Kill(j.memory, pid).0))
  {
    var j', at := j.(memory := Store.Kill(j.memory, pid).0), Store.Find(j.memory.procs, pid);
    if at < |j.memory.procs| {
      RecordRemoved(j.memory.procs, at);
      forall i: nat | i < |j'.memory.procs|
        ensures Known(j', j'.memory.procs[i]) && Agrees(j', j'.memory.procs[i])
      {
        var p := j.memory.procs[if i < at then i else i + 1];
        assert j'.memory.procs[i] == p && Known(j, p) && Agrees(j, p);
      }
    }
  }

  lemma EventKeeps(c: Store.Config, j: Joint, e: Event)
    requires Sound(j) && c.pageSize > 0 && Allowed(j, e)
    ensures Sound(Next(c, j, e))
  {
    match e
    case Ordinary(step) => OrdinaryKeeps(j, step);
    case Admitted(pid) => AdmissionKeeps(c, j, pid);
    case SuspensionBegins(pid) => BeginningKeeps(j, pid);
    case SuspensionServed(pid, writes, partial) => ServiceKeeps(c, j, pid, writes, partial);
    case SuspensionUndone(pid) => UndoingKeeps(j, pid);
    case Resumed(pid) => ResumptionKeeps(c, j, pid);
    case Destroyed(pid) => DestructionKeeps(j, pid);
  }

  // --- Runs ----------------------------------------------------------------

  ghost function Start(c: Store.Config, size: int): Joint
    requires c.Valid()
  {
    Joint(Initial(size), Store.Initial(c), {}, {}, {})
  }

  ghost predicate Leads(c: Store.Config, j: Joint, events: seq<Event>, j': Joint)
    requires c.pageSize > 0
    decreases |events|
  {
    if events == [] then j' == j
    else Fits(j.kernel) && Allowed(j, events[0]) && Leads(c, Next(c, j, events[0]), events[1..], j')
  }

  lemma {:induction false} RunsKeepSound(c: Store.Config, j: Joint, events: seq<Event>, j': Joint)
    requires Sound(j) && c.pageSize > 0 && Leads(c, j, events, j')
    ensures Sound(j')
    decreases |events|
  {
    if events != [] {
      EventKeeps(c, j, events[0]);
      RunsKeepSound(c, Next(c, j, events[0]), events[1..], j');
    }
  }

  /** On every run the two modules agree: a process the memory module suspends is in
      SUSP_BLOCKED or SUSP_READY or has ended; so nobody in READY, EXEC, BLOCKED or held on
      the way to READY is suspended. And a process with pages in a suspended list is
      suspended, unless its suspension is under way or failed. */
  lemma ListsAgreeWithMemory(c: Store.Config, size: int, events: seq<Event>, j: Joint, pid: int)
    requires c.Valid() && Leads(c, Start(c, size), events, j) && StoreRuns.Alive(j.memory, pid)
    ensures var k, suspended := j.kernel, StoreRuns.Lookup(j.memory, pid).suspended;
            && Fits(k)
            && (Has(k.lists[READY], pid) || Has(k.lists[EXEC], pid) || Has(k.lists[BLOCKED], pid) || Has(k.lists[HELD], pid) ==> !suspended)
            && (StoreRuns.Lookup(j.memory, pid).size != 0 && pid !in j.leaving + j.refused + j.kept && !Has(k.lists[EXIT], pid) ==>
                  (suspended <==> Away(k, pid)))
  {
    InitialInv(size);
    RunsKeepSound(c, Start(c, size), events, j);
    var at := Store.Find(j.memory.procs, pid);
    assert Agrees(j, j.memory.procs[at]);
    if Away(j.kernel, pid) || Has(j.kernel.lists[EXIT], pid) {
      AwakeLists(j, pid);
    }
  }

  lemma AwakeLists(j: Joint, pid: int)
    requires Sound(j) && (Away(j.kernel, pid) || Has(j.kernel.lists[EXIT], pid))
    ensures var lists := j.kernel.lists;
            !Has(lists[READY], pid) && !Has(lists[EXEC], pid) && !Has(lists[BLOCKED], pid) && !Has(lists[HELD], pid)
  {
    var l := if Has(j.kernel.lists[EXIT], pid) then EXIT else if Has(j.kernel.lists[SUSP_BLOCKED], pid) then SUSP_BLOCKED else SUSP_READY;
    OneList(j.kernel, l, READY, pid);
    OneList(j.kernel, l, EXEC, pid);
    OneList(j.kernel, l, BLOCKED, pid);
    OneList(j.kernel, l, HELD, pid);
  }

  /** The whole system's requests to the memory module, seen from there: ownership and
      conservation of frames survive every event, except the destruction of a process with
      pages in swap and a suspension whose write fails. In particular a new process's pid is
      always new. */
  lemma MemoryKeptExactly(c: Store.Config, j: Joint, e: Event)
    requires Sound(j) && c.Valid() && Store.Inv(c, j.memory) && Allowed(j, e)
    ensures Store.Inv(c, Next(c, j, e).memory) <==>
              && (e.Destroyed? && StoreRuns.Alive(j.memory, e.pid) ==> !PagesInSwap(StoreRuns.Lookup(j.memory, e.pid)))
              && (e.SuspensionServed? ==> !StoreRuns.WriteFails(j.memory, e.pid, e.writes))
  {
    match e
    case Ordinary(step) =>
    case Admitted(pid) =>
      AdmissionKeeps(c, j, pid);
      StoreRuns.CreateKeeps(c, j.memory, pid, BlockOf(j.kernel, NEW, pid).size);
    case SuspensionBegins(pid) =>
    case SuspensionServed(pid, writes, partial) => StoreRuns.SwapOutIsExact(c, j.memory, pid, writes, partial);
    case SuspensionUndone(pid) =>
    case Resumed(pid) => StoreRuns.SwapInKeeps(c, j.memory, pid);
    case Destroyed(pid) => StoreRuns.KillKeepsExactly(c, j.memory, pid);
  }

  ghost predicate PagesInSwap(p: Store.Process) {
    p.suspended && p.frames.Some? && p.frames.value != []
  }

  // --- Resumed too early -----------------------------------------------------

  /** What the code does when nobody checks: a process whose suspension is under way has
      reached SUSP_READY, and the long-term scheduler asks to resume it. The memory module
      finds nothing to do and says yes; the process becomes ready; and then the suspension
      is served. The process is ready and suspended exactly when that succeeds. */
  lemma OvertakenExactly(c: Store.Config, j: Joint, pid: int, writes: nat, partial: nat)
    requires Sound(j) && c.pageSize > 0 && j.kernel.wait.Idle?
    requires pid in j.leaving && Has(j.kernel.lists[SUSP_READY], pid) && StoreRuns.Alive(j.memory, pid)
    ensures Legal(j.kernel, TakeSuspended(pid))
    ensures var early := AfterResumption(c, j, pid);
            && early.memory == j.memory && Fits(early.kernel) && Legal(early.kernel, MakeReady(pid))
            && var ready := early.(kernel := Apply(early.kernel, MakeReady(pid)));
            && |ready.kernel.lists| == 8 && Has(ready.kernel.lists[READY], pid)
            && var served := AfterService(c, ready, pid, writes, partial);
            && served.kernel == ready.kernel && StoreRuns.Alive(served.memory, pid)
            && (StoreRuns.Lookup(served.memory, pid).suspended <==> Store.SwapOut(c, j.memory, pid, writes, partial).1)
  {
    var k, at := j.kernel, Store.Find(j.memory.procs, pid);
    assert Known(j, j.memory.procs[at]);
    var early := AfterResumption(c, j, pid);
    assert early.kernel == Moved(k, SUSP_READY, HELD, pid);
    StepKeepsInv(k, TakeSuspended(pid));
    MovedHas(k, SUSP_READY, HELD, pid, HELD, pid);
    MovedHas(early.kernel, HELD, READY, pid, READY, pid);
    SwapOutRecords(c, j.memory, pid, writes, partial);
    var memory := Store.SwapOut(c, j.memory, pid, writes, partial).0;
    if Store.SwapOut(c, j.memory, pid, writes, partial).1 {
      RecordsReplaced(j.memory.procs, at, memory.procs[at]);
      StoreRuns.FoundAt(memory, pid, at);
    }
  }

  lemma {:induction false} RunsJoin(c: Store.Config, j: Joint, events: seq<Event>, j': Joint, e: Event)
    requires c.pageSize > 0 && Leads(c, j, events, j') && Fits(j'.kernel) && Allowed(j', e)
    ensures Leads(c, j, events + [e], Next(c, j', e))
    decreases |events|
  {
    if events == [] {
      assert [e][1..] == [] && events + [e] == [e];
    } else {
      RunsJoin(c, Next(c, j, events[0]), events[1..], j', e);
      assert (events + [e])[1..] == events[1..] + [e];
    }
  }

  lemma Then(c: Store.Config, start: Joint, events: seq<Event>, j: Joint, e: Event) returns (events': seq<Event>, j': Joint)
    requires c.pageSize > 0 && Leads(c, start, events, j) && Fits(j.kernel) && Allowed(j, e)
    ensures events' == events + [e] && j' == Next(c, j, e) && Leads(c, start, events', j')
  {
    RunsJoin(c, start, events, j, e);
    events', j' := events + [e], Next(c, j, e);
  }

  /** Process 0 alone in both modules, with one page in user space. */
  ghost predicate Single(c: Store.Config, j: Joint, list: nat)
    requires c.Valid()
  {
    && Solo(j.kernel, list) && j.kernel.lists[list][0].size == 1 && j.kernel.dumping == {}
    && Store.Inv(c, j.memory) && |j.memory.procs| == 1 && j.memory.procs[0].pid == 0 && j.memory.swapFree == Store.SWAP_FRAMES
    && !j.memory.procs[0].suspended && j.memory.procs[0].frames.Some? && |j.memory.procs[0].frames.value| == 1
  }

  lemma CreatedAlone(c: Store.Config)
    requires c.Valid() && c.pageSize <= c.memorySize
    ensures var (s, ok) := Store.Create(c, Store.Initial(c), 0, 1);
            && ok && Store.Inv(c, s) && |s.procs| == 1 && s.procs[0].pid == 0 && s.swapFree == Store.SWAP_FRAMES
            && !s.procs[0].suspended && s.procs[0].frames.Some? && |s.procs[0].frames.value| == 1
  {
    StoreRuns.InitialIsClear(c);
    Store.InitialInv(c);
    StoreRuns.CreateIsExact(c, Store.Initial(c), 0, 1);
    StoreRuns.CreateKeeps(c, Store.Initial(c), 0, 1);
  }

  lemma AdmittedRun(c: Store.Config) returns (events: seq<Event>, j: Joint)
    requires c.Valid() && c.pageSize <= c.memorySize
    ensures Leads(c, Start(c, 1), events, j) && Single(c, j, READY)
    ensures j.kernel.cpus == [-1] && j.kernel.devices == [] && j.leaving == {}
  {
    j := Start(c, 1);
    events := [];
    assert Solo(j.kernel, NEW);
    events, j := Then(c, Start(c, 1), events, j, Ordinary(AddCpu));
    SoloMoves(j.kernel, NEW, READY);
    CreatedAlone(c);
    events, j := Then(c, Start(c, 1), events, j, Admitted(0));
  }

  lemma ExecutingRun(c: Store.Config) returns (events: seq<Event>, j: Joint)
    requires c.Valid() && c.pageSize <= c.memorySize
    ensures Leads(c, Start(c, 1), events, j) && Single(c, j, EXEC) && j.kernel.devices == [] && j.leaving == {}
  {
    events, j := AdmittedRun(c);
    SoloMoves(j.kernel, READY, EXEC);
    SoloHas(j.kernel, READY);
    events, j := Then(c, Start(c, 1), events, j, Ordinary(Dispatch(0, 0)));
  }

  lemma ConnectedRun(c: Store.Config) returns (events: seq<Event>, j: Joint)
    requires c.Valid() && c.pageSize <= c.memorySize
    ensures Leads(c, Start(c, 1), events, j) && Single(c, j, EXEC) && j.leaving == {}
    ensures j.kernel.devices == [Device(true, -1, [], [], [])]
  {
    events, j := ExecutingRun(c);
    SoloHas(j.kernel, EXEC);
    events, j := Then(c, Start(c, 1), events, j, Ordinary(Connect(0)));
  }

  lemma BlockedRun(c: Store.Config) returns (events: seq<Event>, j: Joint)
    requires c.Valid() && c.pageSize <= c.memorySize
    ensures Leads(c, Start(c, 1), events, j) && Single(c, j, BLOCKED) && j.leaving == {}
    ensures j.kernel.devices == [Device(true, -1, [0], [0], [])]
  {
    events, j := ConnectedRun(c);
    SoloHas(j.kernel, EXEC);
    SoloMoves(j.kernel, EXEC, BLOCKED);
    events, j := Then(c, Start(c, 1), events, j, Ordinary(IoSyscall(0, 0)));
    assert [] + [0] == [0];
    assert j.kernel.devices[0] == Device(true, -1, [0], [0], []);
  }

  ghost predicate WorksForFirst(j: Joint) {
    |j.kernel.devices| == 1 && j.kernel.devices[0].connected && j.kernel.devices[0].current == 0
  }

  lemma SentRun(c: Store.Config) returns (events: seq<Event>, j: Joint)
    requires c.Valid() && c.pageSize <= c.memorySize
    ensures Leads(c, Start(c, 1), events, j) && Single(c, j, BLOCKED) && WorksForFirst(j) && j.leaving == {}
  {
    events, j := BlockedRun(c);
    SoloHas(j.kernel, BLOCKED);
    events, j := Then(c, Start(c, 1), events, j, Ordinary(Serve(0)));
  }

  /** The device works for the process when its suspension begins. */
  lemma LeavingRun(c: Store.Config) returns (events: seq<Event>, j: Joint)
    requires c.Valid() && c.pageSize <= c.memorySize
    ensures Leads(c, Start(c, 1), events, j) && Single(c, j, SUSP_BLOCKED) && WorksForFirst(j) && 0 in j.leaving
  {
    events, j := SentRun(c);
    SoloHas(j.kernel, BLOCKED);
    SoloMoves(j.kernel, BLOCKED, SUSP_BLOCKED);
    events, j := Then(c, Start(c, 1), events, j, SuspensionBegins(0));
  }

  /** A run to there: the device completes the request before the suspension is served, and
      the process is in SUSP_READY with its suspension under way. Resumed now, it ends up
      in READY and suspended. */
  lemma OvertakenRun(c: Store.Config) returns (events: seq<Event>, j: Joint)
    requires c.Valid() && c.pageSize <= c.memorySize
    ensures Leads(c, Start(c, 1), events, j) && Sound(j) && j.kernel.wait.Idle?
    ensures 0 in j.leaving && Has(j.kernel.lists[SUSP_READY], 0) && StoreRuns.Alive(j.memory, 0)
    ensures Store.SwapOut(c, j.memory, 0, 1, 0).1
  {
    events, j := LeavingRun(c);
    SoloHas(j.kernel, SUSP_BLOCKED);
    SoloMoves(j.kernel, SUSP_BLOCKED, SUSP_READY);
    events, j := Then(c, Start(c, 1), events, j, Ordinary(Complete(0)));
    SoloHas(j.kernel, SUSP_READY);
    StoreRuns.SwapOutIsExact(c, j.memory, 0, 1, 0);
    InitialInv(1);
    RunsKeepSound(c, Start(c, 1), events, j);
  }

  lemma SuspendedAlone(c: Store.Config, s: Store.State)
    requires c.Valid() && Store.Inv(c, s) && |s.procs| == 1 && s.procs[0].pid == 0 && s.swapFree == Store.SWAP_FRAMES
    requires !s.procs[0].suspended && s.procs[0].frames.Some? && |s.procs[0].frames.value| == 1
    ensures var s' := Store.SwapOut(c, s, 0, 1, 0).0;
            Store.Inv(c, s') && |s'.procs| == 1 && s'.procs[0].pid == 0 && PagesInSwap(s'.procs[0])
  {
    StoreRuns.SwapOutIsExact(c, s, 0, 1, 0);
    FrameAllocator.GrantedFrames(s.swapBits, s.swapFree, 1);
  }

  lemma AsleepRun(c: Store.Config) returns (events: seq<Event>, j: Joint)
    requires c.Valid() && c.pageSize <= c.memorySize
    ensures Leads(c, Start(c, 1), events, j) && Solo(j.kernel, SUSP_BLOCKED) && WorksForFirst(j)
    ensures Store.Inv(c, j.memory) && |j.memory.procs| == 1 && j.memory.procs[0].pid == 0 && PagesInSwap(j.memory.procs[0])
  {
    events, j := LeavingRun(c);
    SuspendedAlone(c, j.memory);
    SoloHas(j.kernel, SUSP_BLOCKED);
    events, j := Then(c, Start(c, 1), events, j, SuspensionServed(0, 1, 0));
  }

  /** And a run without anything too early that breaks the memory module's books: the
      process is suspended, its device disconnects, and the process ends with its page in
      swap. */
  lemma DisconnectedAsleepRun(c: Store.Config) returns (events: seq<Event>, j: Joint)
    requires c.Valid() && c.pageSize <= c.memorySize
    ensures Leads(c, Start(c, 1), events, j) && Fits(j.kernel) && Allowed(j, Destroyed(0))
    ensures Store.Inv(c, j.memory) && !Store.Inv(c, Next(c, j, Destroyed(0)).memory)
  {
    events, j := AsleepRun(c);
    SoloMoves(j.kernel, SUSP_BLOCKED, EXIT);
    SoloHas(j.kernel, SUSP_BLOCKED);
    events, j := Then(c, Start(c, 1), events, j, Ordinary(Disconnect(0)));
    SoloHas(j.kernel, EXIT);
    StoreRuns.KillKeepsExactly(c, j.memory, 0);
  }
}

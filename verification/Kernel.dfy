/** The kernel as a step system: process control blocks move among seven lists under the
    schedulers, the syscalls and the IO handlers. A step is one critical section. */
module Kernel {
  import opened Lists

  // --- Process control blocks ----------------------------------------------

  const NEW := 0
  const READY := 1
  const EXEC := 2
  const BLOCKED := 3
  const SUSP_BLOCKED := 4
  const SUSP_READY := 5
  const EXIT := 6

  /** Blocks the long-term scheduler holds between SUSP_READY and READY. */
  const HELD := 7

  /** `visits` counts how often each state was entered, `times` how long it was held. */
  datatype Pcb = Pcb(pid: int, size: int, phase: nat, created: int, since: int, visits: seq<nat>, times: seq<int>)

  predicate PcbFits(p: Pcb) {
    |p.visits| == 7 && |p.times| == 7 && p.phase < 7
  }

  function NewPcb(pid: int, size: int, now: int): Pcb {
    Pcb(pid, size, NEW, now, now, [1, 0, 0, 0, 0, 0, 0], [0, 0, 0, 0, 0, 0, 0])
  }

  /** Accounts for the time in the old state and enters the new one. */
  function ChangeState(p: Pcb, phase: nat, now: int): (p': Pcb)
    requires PcbFits(p) && phase < 7
    ensures PcbFits(p')
  {
    p.(phase := phase, since := now,
       times := p.times[p.phase := p.times[p.phase] + (now - p.since)],
       visits := p.visits[phase := p.visits[phase] + 1])
  }

  function Total(times: seq<int>): int
    requires |times| == 7
  {
    times[0] + times[1] + times[2] + times[3] + times[4] + times[5] + times[6]
  }

  /** READY was entered as often as EXEC, once more while in READY; NEW was entered once;
      the times of all states add up to the age at the last change. */
  ghost predicate Bookkept(p: Pcb) {
    && PcbFits(p)
    && p.visits[READY] == p.visits[EXEC] + (if p.phase == READY then 1 else 0)
    && p.visits[NEW] == 1
    && Total(p.times) == p.since - p.created
  }

  /** The moves between states the kernel makes. */
  predicate Transition(from: nat, to: nat) {
    || (from == NEW && to == READY)
    || (from == READY && to == EXEC)
    || (from == EXEC && (to == READY || to == BLOCKED || to == EXIT))
    || (from == BLOCKED && (to == READY || to == SUSP_BLOCKED || to == EXIT))
    || (from == SUSP_BLOCKED && (to == BLOCKED || to == SUSP_READY || to == EXIT))
    || (from == SUSP_READY && to == READY)
  }

  lemma ChangeStateKeepsBooks(p: Pcb, phase: nat, now: int)
    requires Bookkept(p) && Transition(p.phase, phase)
    ensures Bookkept(ChangeState(p, phase, now))
  {
  }

  /** The time since the last change is booked to the state left, the visit to the state
      entered, and nothing to any other state. */
  lemma ChangeStateIsExact(p: Pcb, phase: nat, now: int, q: nat)
    requires PcbFits(p) && phase < 7 && q < 7
    ensures var p' := ChangeState(p, phase, now);
            && p'.pid == p.pid && p'.size == p.size && p'.created == p.created && p'.phase == phase && p'.since == now
            && p'.times[q] == p.times[q] + (if q == p.phase then now - p.since else 0)
            && p'.visits[q] == p.visits[q] + (if q == phase then 1 else 0)
  {
  }

  // --- Lists ---------------------------------------------------------------

  function FindFrom(list: seq<Pcb>, pid: int, from: nat): (i: nat)
    requires from <= |list|
    ensures from <= i <= |list| && (i < |list| ==> list[i].pid == pid)
    decreases |list| - from
  {
    if from == |list| || list[from].pid == pid then from else FindFrom(list, pid, from + 1)
  }

  lemma {:induction false} FoundFirst(list: seq<Pcb>, pid: int, from: nat, i: nat)
    requires from <= |list| && from <= i < FindFrom(list, pid, from)
    ensures list[i].pid != pid
    decreases |list| - from
  {
    if from < i {
      FoundFirst(list, pid, from + 1, i);
    }
  }

  function Find(list: seq<Pcb>, pid: int): (i: nat)
    ensures i <= |list| && (i < |list| ==> list[i].pid == pid)
  {
    FindFrom(list, pid, 0)
  }

  predicate Has(list: seq<Pcb>, pid: int) {
    Find(list, pid) < |list|
  }

  ghost function CountUpTo(list: seq<Pcb>, n: nat, pid: int): nat
    requires n <= |list|
  {
    if n == 0 then 0 else CountUpTo(list, n - 1, pid) + (if list[n - 1].pid == pid then 1 else 0)
  }

  ghost function Count(list: seq<Pcb>, pid: int): nat {
    CountUpTo(list, |list|, pid)
  }

  lemma {:induction false} CountSame(list: seq<Pcb>, list': seq<Pcb>, n: nat, pid: int)
    requires n <= |list| && n <= |list'| && forall k: nat | k < n :: list[k] == list'[k]
    ensures CountUpTo(list, n, pid) == CountUpTo(list', n, pid)
  {
    if n > 0 {
      CountSame(list, list', n - 1, pid);
    }
  }

  lemma CountAppend(list: seq<Pcb>, p: Pcb, pid: int)
    ensures Count(list + [p], pid) == Count(list, pid) + (if p.pid == pid then 1 else 0)
  {
    CountSame(list, list + [p], |list|, pid);
  }

  lemma {:induction false} CountWithoutUpTo(list: seq<Pcb>, i: nat, n: nat, pid: int)
    requires i < n <= |list|
    ensures CountUpTo(list, n, pid) == CountUpTo(Without(list, i), n - 1, pid) + (if list[i].pid == pid then 1 else 0)
  {
    if n == i + 1 {
      CountSame(list, Without(list, i), i, pid);
    } else {
      CountWithoutUpTo(list, i, n - 1, pid);
    }
  }

  lemma CountWithout(list: seq<Pcb>, i: nat, pid: int)
    requires i < |list|
    ensures Count(list, pid) == Count(Without(list, i), pid) + (if list[i].pid == pid then 1 else 0)
  {
    CountWithoutUpTo(list, i, |list|, pid);
  }

  lemma {:induction false} HasIsCounted(list: seq<Pcb>, pid: int, from: nat)
    requires from <= |list|
    ensures FindFrom(list, pid, from) < |list| <==> CountUpTo(list, |list|, pid) > CountUpTo(list, from, pid)
    decreases |list| - from
  {
    if from < |list| {
      HasIsCounted(list, pid, from + 1);
      CountGrows(list, from, from + 1, pid);
      CountGrows(list, from + 1, |list|, pid);
    }
  }

  lemma {:induction false} CountGrows(list: seq<Pcb>, m: nat, n: nat, pid: int)
    requires m <= n <= |list|
    ensures CountUpTo(list, m, pid) <= CountUpTo(list, n, pid)
  {
    if m < n {
      CountGrows(list, m, n - 1, pid);
    }
  }

  // --- State ---------------------------------------------------------------

  /** An IO device by name: whether it is connected, the process it works for (or -1), its
      request queue, and the history of requests enqueued and sent. */
  datatype Device = Device(connected: bool, current: int, queue: seq<int>, enqueued: seq<int>, sent: seq<int>)

  /** The short-term scheduler may be waiting for the reply to an interrupt. */
  datatype Wait = Idle | Interrupting(cpu: nat, pid: int)

  /** `cpus` holds the process each CPU was last given; `dumping` the processes waiting for
      a memory dump; `due` the devices whose queue some handler is about to serve. Devices
      are numbered in the order their names first connect. */
  datatype State = State(lists: seq<seq<Pcb>>, lastPid: int, clock: int, cpus: seq<int>, devices: seq<Device>,
                         dumping: set<int>, wait: Wait, due: set<nat>)

  predicate Fits(k: State) {
    |k.lists| == 8 && forall i: nat, j: nat | i < 8 && j < |k.lists[i]| :: PcbFits(k.lists[i][j])
  }

  function Initial(size: int): State {
    State([[NewPcb(0, size, 0)], [], [], [], [], [], [], []], 0, 0, [], [], {}, Idle, {})
  }

  /** The first list a pid is in, 8 if it is in none. */
  function Whereabouts(k: State, pid: int, from: nat): (list: nat)
    requires |k.lists| == 8 && from <= 8
    ensures list <= 8 && (list < 8 ==> Has(k.lists[list], pid))
    decreases 8 - from
  {
    if from == 8 || Has(k.lists[from], pid) then from else Whereabouts(k, pid, from + 1)
  }

  /** Adds a block to a list without removing it from the one it is in; both show its new state. */
  function AddedTwice(k: State, to: nat, pid: int): (k': State)
    requires Fits(k) && to < 7
    ensures Fits(k')
  {
    var from := Whereabouts(k, pid, 0);
    if from == 8 then k
    else
      var i := Find(k.lists[from], pid);
      var p := ChangeState(k.lists[from][i], to, k.clock);
      var marked := k.lists[from := k.lists[from][i := p]];
      k.(lists := marked[to := marked[to] + [p]])
  }

  /** Moves the first block with a pid between lists and changes its state; no such block, no change. */
  function Moved(k: State, from: nat, to: nat, pid: int): (k': State)
    requires Fits(k) && from < 8 && to < 8 && from != to
    ensures Fits(k')
  {
    var i := Find(k.lists[from], pid);
    if i == |k.lists[from]| then k
    else
      var p := k.lists[from][i];
      var p' := if to == HELD then p else ChangeState(p, to, k.clock);
      k.(lists := k.lists[from := Without(k.lists[from], i)][to := k.lists[to] + [p']])
  }

  // --- Invariant -----------------------------------------------------------

  function PhaseOf(list: nat): nat {
    if list == HELD then SUSP_READY else list
  }

  /** How often a pid occurs in all lists together. */
  ghost function Occurrences(lists: seq<seq<Pcb>>, pid: int): nat
    requires |lists| == 8
  {
    Count(lists[0], pid) + Count(lists[1], pid) + Count(lists[2], pid) + Count(lists[3], pid)
    + Count(lists[4], pid) + Count(lists[5], pid) + Count(lists[6], pid) + Count(lists[7], pid)
  }

  /** Each process is in exactly one list, its state names the list, its books are right. */
  ghost predicate Partitioned(k: State) {
    && |k.lists| == 8
    && (forall pid: int :: Occurrences(k.lists, pid) == if 0 <= pid <= k.lastPid then 1 else 0)
    && (forall i: nat, j: nat | i < 8 && j < |k.lists[i]| :: Bookkept(k.lists[i][j]) && k.lists[i][j].phase == PhaseOf(i))
  }

  /** Every executing process is the one some CPU was last given. */
  ghost predicate ExecutingOnCpus(k: State)
    requires |k.lists| == 8
  {
    forall pid: int | Has(k.lists[EXEC], pid) :: pid in k.cpus
  }

  /** How often a pid is queued for or in work at the first `n` devices. */
  ghost function RequestsUpTo(devices: seq<Device>, n: nat, pid: int): nat
    requires n <= |devices|
  {
    if n == 0 then 0
    else RequestsUpTo(devices, n - 1, pid) + RequestsAt(devices[n - 1], pid)
  }

  ghost function RequestsAt(d: Device, pid: int): nat {
    multiset(d.queue)[pid] + (if d.current == pid then 1 else 0)
  }

  ghost function BlockedFor(lists: seq<seq<Pcb>>, pid: int): nat
    requires |lists| == 8
  {
    Count(lists[BLOCKED], pid) + Count(lists[SUSP_BLOCKED], pid)
  }

  /** The processes blocked for IO are those queued or in work, each once; dumping processes
      are blocked without a request. */
  ghost predicate IoMatched(k: State)
    requires |k.lists| == 8
  {
    && (forall pid: int | pid >= 0 :: BlockedFor(k.lists, pid) == RequestsUpTo(k.devices, |k.devices|, pid) + (if pid in k.dumping then 1 else 0))
    && (forall pid: int | pid in k.dumping :: pid >= 0 && Has(k.lists[BLOCKED], pid))
  }

  /** Requests are sent in the order they were enqueued, and an idle connected device with
      requests is about to be served. */
  ghost predicate DeviceFits(k: State, d: nat)
    requires d < |k.devices|
  {
    var device := k.devices[d];
    && device.enqueued == device.sent + device.queue
    && (forall j: nat | j < |device.queue| :: device.queue[j] >= 0)
    && device.current >= -1 && (!device.connected ==> device.current == -1)
    && (device.connected && device.current == -1 && device.queue != [] ==> d in k.due)
  }

  ghost predicate Inv(k: State) {
    && Partitioned(k) && ExecutingOnCpus(k) && IoMatched(k)
    && k.lastPid >= 0
    && (forall d: nat | d < |k.devices| :: DeviceFits(k, d))
    && (k.wait.Interrupting? ==> k.wait.cpu < |k.cpus| && Has(k.lists[READY], k.wait.pid))
  }
}

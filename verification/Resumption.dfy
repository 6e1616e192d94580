/** The long-term scheduler's first loop: suspended processes that became ready are resumed,
    smallest first, before anybody is admitted from NEW. */
module Resumption {
  import opened Arithmetic
  import opened FrameAllocator
  import opened Lists
  import opened PageTables
  import opened Memoria
  import opened Store
  import opened StoreRuns
  import opened Admission

  /** The frames a process has, none when it has no list of them. */
  function Held(p: Process): nat {
    if p.frames.None? then 0 else |p.frames.value|
  }

  /** Every process has as many frames as its size has pages. */
  ghost predicate Sized(c: Config, procs: seq<Process>)
    requires c.pageSize > 0
  {
    forall i: nat | i < |procs| :: procs[i].size >= 0 && Held(procs[i]) == PagesNeeded(procs[i].size, c.pageSize)
  }

  lemma SameImageHeld(c: Config, s: State, s': State, j: nat)
    requires ImagesKept(c, s, s') && j < |s.procs|
    ensures Held(s'.procs[j]) == Held(s.procs[j])
  {
    assert |Image(c, s', s'.procs[j])| == |Image(c, s, s.procs[j])|;
  }

  lemma CreateKeepsSized(c: Config, s: State, pid: int, size: int)
    requires c.Valid() && Inv(c, s) && Sized(c, s.procs)
    ensures Sized(c, Create(c, s, pid, size).0.procs)
  {
    CreateIsExact(c, s, pid, size);
    CeilDivLeast(0, c.pageSize, 0);
  }

  lemma StepKeepsSized(c: Config, s: State, step: StoreRuns.Step)
    requires c.Valid() && Inv(c, s) && Legal(c, s, step) && Sized(c, s.procs)
    ensures Sized(c, StoreRuns.Apply(c, s, step).procs)
  {
    match step
    case CreateStep(pid, size) => CreateKeepsSized(c, s, pid, size);
    case KillStep(pid) =>
    case SwapOutStep(pid, writes) =>
      SwapOutKeeps(c, s, pid, writes, 0);
      MovedKeepsSized(c, s, step);
    case SwapInStep(pid) =>
      SwapInKeeps(c, s, pid);
      MovedKeepsSized(c, s, step);
    case WriteStep(pid, page, offset, data) =>
  }

  lemma MovedKeepsSized(c: Config, s: State, step: StoreRuns.Step)
    requires c.Valid() && Legal(c, s, step) && Sized(c, s.procs) && !step.KillStep? && !step.CreateStep?
    requires ImagesKept(c, s, StoreRuns.Apply(c, s, step))
    ensures Sized(c, StoreRuns.Apply(c, s, step).procs)
  {
    forall j: nat | j < |s.procs|
      ensures StoreRuns.Apply(c, s, step).procs[j].size == s.procs[j].size && Held(StoreRuns.Apply(c, s, step).procs[j]) == Held(s.procs[j])
    {
      MovesKeepRecords(c, s, step, j);
      SameImageHeld(c, s, StoreRuns.Apply(c, s, step), j);
    }
  }

  /** On every run a process has as many frames as its size has pages, wherever they are. */
  lemma {:induction false} RunKeepsSized(c: Config, s: State, steps: seq<StoreRuns.Step>)
    requires c.Valid() && Inv(c, s) && Sized(c, s.procs) && LegalRun(c, s, steps)
    ensures Sized(c, Run(c, s, steps).procs)
    decreases |steps|
  {
    if steps != [] {
      var front := steps[..|steps| - 1];
      RunKeepsSized(c, s, front);
      RunKeepsInv(c, s, front);
      StepKeepsSized(c, Run(c, s, front), steps[|steps| - 1]);
    }
  }

  // --- The loop ------------------------------------------------------------

  /** Processes of SUSP_READY: different ones, suspended, listed with their sizes. */
  ghost predicate Waiting(s: State, list: seq<Request>) {
    && (forall i: nat | i < |list| :: WaitsIn(s, list[i]))
    && (forall i: nat, j: nat | i < j < |list| :: list[i].pid != list[j].pid)
  }

  ghost predicate WaitsIn(s: State, r: Request) {
    Alive(s, r.pid) && Lookup(s, r.pid).suspended && Lookup(s, r.pid).size == r.size
  }

  /** The store after the first `n` processes were resumed. */
  function ResumedUpTo(c: Config, s: State, list: seq<Request>, n: nat): State
    requires n <= |list|
  {
    if n == 0 then s else SwapIn(c, ResumedUpTo(c, s, list, n - 1), list[n - 1].pid).0
  }

  /** How many processes the loop resumes from position `from` on: up to the first refusal. */
  function ResumedFrom(c: Config, s: State, list: seq<Request>, from: nat): (n: nat)
    requires from <= |list|
    ensures from <= n <= |list|
    decreases |list| - from
  {
    if from == |list| || !SwapIn(c, ResumedUpTo(c, s, list, from), list[from].pid).1 then from
    else ResumedFrom(c, s, list, from + 1)
  }

  /** A suspended process is resumed exactly when its pages are free, and takes them. */
  lemma ResumeTakes(c: Config, s: State, r: Request)
    requires c.Valid() && Inv(c, s) && Sized(c, s.procs) && WaitsIn(s, r)
    ensures var (s', ok) := SwapIn(c, s, r.pid);
            (ok <==> Pages(c, r) <= s.userFree) && (ok ==> s'.userFree == s.userFree - Pages(c, r))
  {
    var p := Lookup(s, r.pid);
    assert Held(p) == Pages(c, r);
    SwapInKeeps(c, s, r.pid);
    GrantedFrames(s.userBits, s.userFree, Held(p));
    if p.frames.Some? && p.frames.value != [] && Held(p) <= s.userFree {
      ReadableAll(c, s, Find(s.procs, r.pid));
    }
  }

  lemma ReadableAll(c: Config, s: State, i: nat)
    requires c.Valid() && Inv(c, s) && i < |s.procs| && s.procs[i].suspended && s.procs[i].frames.Some?
    ensures Readable(s.swap, c.pageSize, s.procs[i].frames.value, 0) == |s.procs[i].frames.value|
  {
    assert ProcessFits(c, s, s.procs[i]);
  }

  lemma ResumeKeepsWaiting(c: Config, s: State, pid: int, r: Request)
    requires c.Valid() && Inv(c, s) && WaitsIn(s, r) && r.pid != pid
    ensures WaitsIn(SwapIn(c, s, pid).0, r)
  {
    SwapInAny(c, s, pid, r.pid);
  }

  /** Along the loop the store stays sound, images are kept, and each process resumed takes
      its pages. */
  lemma {:induction false} LoopTakes(c: Config, s: State, list: seq<Request>, n: nat)
    requires c.Valid() && Inv(c, s) && Sized(c, s.procs) && Waiting(s, list) && n <= ResumedFrom(c, s, list, 0)
    ensures var t := ResumedUpTo(c, s, list, n);
            && Inv(c, t) && Sized(c, t.procs) && ImagesKept(c, s, t) && t.userFree == s.userFree - PagesUpTo(c, list, n)
            && forall j: nat | n <= j < |list| :: WaitsIn(t, list[j])
  {
    if n > 0 {
      var t, r := ResumedUpTo(c, s, list, n - 1), list[n - 1];
      LoopTakes(c, s, list, n - 1);
      ResumedMeansGranted(c, s, list, 0, n - 1);
      ResumeTakes(c, t, r);
      SwapInKeeps(c, t, r.pid);
      StepKeepsSized(c, t, SwapInStep(r.pid));
      forall j: nat | n <= j < |list|
        ensures WaitsIn(SwapIn(c, t, r.pid).0, list[j])
      {
        ResumeKeepsWaiting(c, t, r.pid, list[j]);
      }
    }
  }

  lemma {:induction false} ResumedMeansGranted(c: Config, s: State, list: seq<Request>, from: nat, i: nat)
    requires from <= |list| && from <= i < ResumedFrom(c, s, list, from)
    ensures i < |list| && SwapIn(c, ResumedUpTo(c, s, list, i), list[i].pid).1
    decreases i - from
  {
    if from < i {
      ResumedMeansGranted(c, s, list, from + 1, i);
    }
  }

  lemma {:induction false} PassedResumed(c: Config, s: State, list: seq<Request>, from: nat, done: nat)
    requires from <= |list| && from <= done <= ResumedFrom(c, s, list, from)
    ensures done <= |list| && ResumedFrom(c, s, list, done) == ResumedFrom(c, s, list, from)
    decreases done - from
  {
    if from < done {
      PassedResumed(c, s, list, from + 1, done);
    }
  }

  lemma RefusedIsShort(c: Config, s: State, list: seq<Request>, n: nat)
    requires c.Valid() && n < |list| && ResumedFrom(c, s, list, n) == n
    requires var t := ResumedUpTo(c, s, list, n); Inv(c, t) && Sized(c, t.procs) && WaitsIn(t, list[n])
    ensures Pages(c, list[n]) > ResumedUpTo(c, s, list, n).userFree
  {
    ResumeTakes(c, ResumedUpTo(c, s, list, n), list[n]);
  }

  lemma ResumedFits(c: Config, s: State, list: seq<Request>, n: nat)
    requires c.Valid() && Inv(c, s) && Sized(c, s.procs) && Waiting(s, list) && n <= ResumedFrom(c, s, list, 0)
    ensures n <= |list| && PagesUpTo(c, list, n) <= s.userFree
  {
    LoopTakes(c, s, list, n);
  }

  lemma PagesNext(c: Config, list: seq<Request>, n: nat)
    requires c.pageSize > 0 && n < |list|
    ensures PagesUpTo(c, list, n + 1) == PagesUpTo(c, list, n) + Pages(c, list[n])
  {
  }

  lemma StopsShort(c: Config, s: State, list: seq<Request>, n: nat)
    requires c.Valid() && Inv(c, s) && Sized(c, s.procs) && Waiting(s, list)
    requires n < |list| && n == ResumedFrom(c, s, list, 0)
    ensures PagesUpTo(c, list, n + 1) > s.userFree
  {
    LoopTakes(c, s, list, n);
    PassedResumed(c, s, list, 0, n);
    RefusedIsShort(c, s, list, n);
    PagesNext(c, list, n);
  }

  /** The loop stops exactly where the pages no longer fit the free frames. */
  lemma LoopStops(c: Config, s: State, list: seq<Request>)
    requires c.Valid() && Inv(c, s) && Sized(c, s.procs) && Waiting(s, list)
    ensures var n := ResumedFrom(c, s, list, 0);
            PagesUpTo(c, list, n) <= s.userFree && (n < |list| ==> PagesUpTo(c, list, n + 1) > s.userFree)
  {
    var n := ResumedFrom(c, s, list, 0);
    ResumedFits(c, s, list, n);
    if n < |list| {
      StopsShort(c, s, list, n);
    }
  }

  lemma WaitingIsNonNegative(c: Config, s: State, list: seq<Request>)
    requires c.pageSize > 0 && Sized(c, s.procs) && Waiting(s, list)
    ensures NonNegative(list)
  {
    forall i: nat | i < |list|
      ensures list[i].size >= 0
    {
      assert WaitsIn(s, list[i]);
    }
  }

  /** A choice can be resumed, one after the other, exactly when its pages fit the free frames. */
  lemma FitsMeansResumed(c: Config, s: State, chosen: seq<Request>)
    requires c.Valid() && Inv(c, s) && Sized(c, s.procs) && Waiting(s, chosen)
    ensures PagesUpTo(c, chosen, |chosen|) <= s.userFree <==> ResumedFrom(c, s, chosen, 0) == |chosen|
  {
    LoopStops(c, s, chosen);
    WaitingIsNonNegative(c, s, chosen);
    if ResumedFrom(c, s, chosen, 0) < |chosen| {
      PagesGrow(c, chosen, ResumedFrom(c, s, chosen, 0) + 1, |chosen|);
    }
  }

  /** A choice longer than a prefix that does not fit with the next one does not fit either. */
  lemma LongerNeedsMore(c: Config, list: seq<Request>, chosen: seq<Request>, n: nat, free: int)
    requires c.pageSize > 0 && Ordered(list) && NonNegative(list) && multiset(chosen) <= multiset(list) && n < |chosen|
    requires n < |list| && PagesUpTo(c, list, n + 1) > free
    ensures PagesUpTo(c, chosen, |chosen|) > free
  {
    FirstNeedFewest(c, list, chosen);
    PagesGrow(c, list, n + 1, |chosen|);
  }

  /** Smallest first resumes the most: no choice from SUSP_READY whose pages fit the free
      frames is larger than the prefix the loop resumes. */
  lemma SmallestFirstResumesMost(c: Config, s: State, list: seq<Request>, chosen: seq<Request>)
    requires c.Valid() && Inv(c, s) && Sized(c, s.procs) && Waiting(s, list) && Ordered(list)
    requires multiset(chosen) <= multiset(list) && PagesUpTo(c, chosen, |chosen|) <= s.userFree
    ensures |chosen| <= ResumedFrom(c, s, list, 0)
  {
    var n := ResumedFrom(c, s, list, 0);
    LoopStops(c, s, list);
    WaitingIsNonNegative(c, s, list);
    FirstNeedFewest(c, list, chosen);
    if n < |chosen| {
      LongerNeedsMore(c, list, chosen, n, s.userFree);
    }
  }

  // --- The loop as it runs -------------------------------------------------

  /** Nobody outside the first `n` of a list could have been resumed in a larger choice. */
  ghost predicate MostResumed(c: Config, s: State, list: seq<Request>, n: nat)
    requires c.pageSize > 0
  {
    forall chosen: seq<Request> | multiset(chosen) <= multiset(list) && PagesUpTo(c, chosen, |chosen|) <= s.userFree :: |chosen| <= n
  }

  lemma MostWhenOrdered(c: Config, s: State, list: seq<Request>)
    requires c.Valid() && Inv(c, s) && Sized(c, s.procs) && Waiting(s, list)
    ensures Ordered(list) ==> MostResumed(c, s, list, ResumedFrom(c, s, list, 0))
  {
    if Ordered(list) {
      forall chosen: seq<Request> | multiset(chosen) <= multiset(list) && PagesUpTo(c, chosen, |chosen|) <= s.userFree
        ensures |chosen| <= ResumedFrom(c, s, list, 0)
      {
        SmallestFirstResumesMost(c, s, list, chosen);
      }
    }
  }

  /** A list of waiting processes whose first ones were resumed. */
  ghost predicate Resuming(c: Config, s: State, t: State, list: seq<Request>, done: nat) {
    && done <= ResumedFrom(c, s, list, 0) && t == ResumedUpTo(c, s, list, done)
  }

  /** The next resumption decides whether the loop goes on. */
  lemma NextResumed(c: Config, s: State, t: State, list: seq<Request>, done: nat)
    requires Resuming(c, s, t, list, done) && done < |list|
    ensures var (t', ok) := SwapIn(c, t, list[done].pid);
            if ok then Resuming(c, s, t', list, done + 1) else done == ResumedFrom(c, s, list, 0)
  {
    PassedResumed(c, s, list, 0, done);
  }

  /** One resumption of the loop; a refused one changes nothing. */
  method ResumeNext(memory: Memory, next: Request, ghost s: State, ghost list: seq<Request>, ghost done: nat) returns (ok: bool)
    requires memory.Valid() && Resuming(memory.c, s, memory.Value(), list, done) && done < |list| && list[done] == next
    modifies memory.user.bytes, memory.userFrames, memory.userFrames.bits, memory.swapFrames, memory.swapFrames.bits, memory.processes
    ensures memory.Valid() && Resuming(memory.c, s, memory.Value(), list, if ok then done + 1 else done)
    ensures !ok ==> done == ResumedFrom(memory.c, s, list, 0)
  {
    NextResumed(memory.c, s, memory.Value(), list, done);
    SwapInKeeps(memory.c, memory.Value(), next.pid);
    ok := memory.ResumeProcess(next.pid);
  }

  /** The loop over SUSP_READY, up to the first refusal. */
  method ResumeLoop(memory: Memory, list: seq<Request>) returns (resumed: nat)
    requires memory.Valid() && Sized(memory.c, memory.Value().procs) && Waiting(memory.Value(), list)
    modifies memory.user.bytes, memory.userFrames, memory.userFrames.bits, memory.swapFrames, memory.swapFrames.bits, memory.processes
    ensures memory.Valid() && Resuming(memory.c, old(memory.Value()), memory.Value(), list, resumed)
    ensures resumed == ResumedFrom(memory.c, old(memory.Value()), list, 0)
  {
    ghost var s := memory.Value();
    resumed := 0;
    var going := true;
    while resumed < |list| && going
      invariant memory.Valid() && Resuming(memory.c, s, memory.Value(), list, resumed)
      invariant going || resumed == ResumedFrom(memory.c, s, list, 0)
      decreases |list| - resumed, going
    {
      going := ResumeNext(memory, list[resumed], s, list, resumed);
      if going {
        resumed := resumed + 1;
      }
    }
  }

  /** Resumes processes of SUSP_READY, in the order the scheduler takes them, until one is
      refused. */
  method ResumeFromSuspReady(memory: Memory, list: seq<Request>) returns (resumed: nat)
    requires memory.Valid() && Sized(memory.c, memory.Value().procs) && Waiting(memory.Value(), list)
    modifies memory.user.bytes, memory.userFrames, memory.userFrames.bits, memory.swapFrames, memory.swapFrames.bits, memory.processes
    ensures memory.Valid() && Resuming(memory.c, old(memory.Value()), memory.Value(), list, resumed)
    ensures resumed == ResumedFrom(memory.c, old(memory.Value()), list, 0)
    ensures Ordered(list) ==> MostResumed(memory.c, old(memory.Value()), list, resumed)
  {
    MostWhenOrdered(memory.c, memory.Value(), list);
    resumed := ResumeLoop(memory, list);
  }
}

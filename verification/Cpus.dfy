/** Several CPUs with caches on one memory module, instruction by instruction, while the
    module serves requests: what every process's memory is at any moment. */
module Cpus {
  import opened Arithmetic
  import opened Bytes
  import opened FrameAllocator
  import opened Lists
  import opened PageTables
  import opened Store
  import opened StoreRuns
  import opened CachedProcess
  import ClockCache
  import WriteBack

  /** A CPU. `owner` is the process whose pages its cache may hold: from a dispatch behind a
      flush up to the next flush. A process that leaves by a system call stays the owner. */
  datatype Cpu = Cpu(owner: Option<int>, tlb: bool, algorithm: ClockCache.Algorithm, slots: seq<ClockCache.Slot>, pointer: nat)

  datatype System = System(store: State, cpus: seq<Cpu>)

  datatype Event =
    | Serve(step: Step)
    | Dispatch(cpu: nat, pid: int)
    | Instruction(cpu: nat, op: WriteBack.Op)
    | Interrupt(cpu: nat)

  /** A process of the store a CPU may own: its page table names the frames it has. */
  ghost predicate Ownable(c: Config, s: State, pid: int) {
    Alive(s, pid) && Mapped(c, Lookup(s, pid))
  }

  ghost function EnvAt(c: Config, s: State, u: Cpu): WriteBack.Env
    requires u.owner.Some? && Ownable(c, s, u.owner.value)
  {
    EnvOf(c, s, Find(s.procs, u.owner.value), u.tlb, u.algorithm)
  }

  function CacheAt(s: State, u: Cpu): WriteBack.State {
    WriteBack.State(s.user, u.slots, u.pointer)
  }

  /** A cache nobody owns is empty; an owned one fits its owner. */
  ghost predicate CpuFits(c: Config, s: State, u: Cpu) {
    match u.owner
    case None => u.pointer < |u.slots| && forall i: nat | i < |u.slots| :: !u.slots[i].valid && |u.slots[i].content| == c.pageSize
    case Some(pid) => Ownable(c, s, pid) && WriteBack.Sane(EnvAt(c, s, u), CacheAt(s, u))
  }

  ghost predicate Booked(c: Config, s: State) {
    c.Valid() && Inv(c, s) && TablesNamed(c, s)
  }

  ghost predicate Fine(c: Config, y: System) {
    && Booked(c, y.store)
    && (forall k: nat | k < |y.cpus| :: CpuFits(c, y.store, y.cpus[k]))
    && (forall k: nat, l: nat | k < l < |y.cpus| && y.cpus[k].owner.Some? :: y.cpus[k].owner != y.cpus[l].owner)
  }

  /** The CPU that owns a process; the number of CPUs when none does. */
  function OwnerOf(cpus: seq<Cpu>, pid: int, from: nat): (k: nat)
    requires from <= |cpus|
    ensures from <= k <= |cpus| && (k < |cpus| ==> cpus[k].owner == Some(pid))
    decreases |cpus| - from
  {
    if from == |cpus| || cpus[from].owner == Some(pid) then from else OwnerOf(cpus, pid, from + 1)
  }

  lemma {:induction false} OwnerIs(cpus: seq<Cpu>, pid: int, from: nat, k: nat)
    requires from <= k < |cpus| && cpus[k].owner == Some(pid)
    requires forall l: nat | l < k :: cpus[l].owner != Some(pid)
    ensures OwnerOf(cpus, pid, from) == k
    decreases k - from
  {
    if from < k {
      OwnerIs(cpus, pid, from + 1, k);
    }
  }

  lemma {:induction false} NoOwner(cpus: seq<Cpu>, pid: int, from: nat, k: nat)
    requires from <= |cpus| && from <= k < OwnerOf(cpus, pid, from)
    ensures k < |cpus| && cpus[k].owner != Some(pid)
    decreases k - from
  {
    if from < k {
      NoOwner(cpus, pid, from + 1, k);
    }
  }

  // --- What a process has in memory now ------------------------------------

  /** The pages of a CPU's owner with the bytes its cache still owes to memory. */
  ghost function PendingImage(env: WriteBack.Env, w: WriteBack.State): (pages: seq<seq<byte>>)
    requires WriteBack.Sane(env, w)
    ensures |pages| == |env.frames|
  {
    seq(|env.frames|, p requires 0 <= p < |env.frames| => PendingPage(env, w, p))
  }

  ghost function PendingPage(env: WriteBack.Env, w: WriteBack.State, p: nat): (page: seq<byte>)
    requires WriteBack.Sane(env, w) && p < |env.frames|
    ensures |page| == env.pageSize
  {
    seq(env.pageSize, b requires 0 <= b < env.pageSize => WriteBack.PendingIn(env, w, p, b))
  }

  /** A process's image, with what the CPU that owns it still owes. */
  ghost function ImageNow(c: Config, y: System, pid: int): seq<seq<byte>>
    requires Fine(c, y) && Alive(y.store, pid)
  {
    var k := OwnerOf(y.cpus, pid, 0);
    if k < |y.cpus| then PendingImage(EnvAt(c, y.store, y.cpus[k]), CacheAt(y.store, y.cpus[k])) else Image(c, y.store, Lookup(y.store, pid))
  }

  // --- Events --------------------------------------------------------------

  /** Requests concern processes no CPU owns, a CPU is given a process only behind a flush, a
      process has one owner, and instructions sweep nothing wrong into a modified part. */
  ghost predicate Allowed(c: Config, y: System, e: Event)
    requires Fine(c, y)
  {
    match e
    case Serve(step) => Legal(c, y.store, step) && OwnerOf(y.cpus, step.pid, 0) == |y.cpus|
    case Dispatch(k, pid) => k < |y.cpus| && y.cpus[k].owner.None? && Ownable(c, y.store, pid) && OwnerOf(y.cpus, pid, 0) == |y.cpus|
    case Instruction(k, op) =>
      && k < |y.cpus| && y.cpus[k].owner.Some?
      && CpuFits(c, y.store, y.cpus[k]) && WriteBack.InPage(EnvAt(c, y.store, y.cpus[k]), op)
      && WriteBack.SweepsRight(EnvAt(c, y.store, y.cpus[k]), CacheAt(y.store, y.cpus[k]), op)
    case Interrupt(k) => k < |y.cpus| && y.cpus[k].owner.Some? && CpuFits(c, y.store, y.cpus[k])
  }

  /** The system after a CPU's cache and the user space changed. */
  function Changed(y: System, k: nat, owner: Option<int>, w: WriteBack.State): System
    requires k < |y.cpus|
  {
    System(y.store.(user := w.mem), y.cpus[k := y.cpus[k].(owner := owner, slots := w.slots, pointer := w.pointer)])
  }

  ghost function Next(c: Config, y: System, e: Event): System
    requires Fine(c, y) && Allowed(c, y, e)
  {
    match e
    case Serve(step) => y.(store := StoreRuns.Apply(c, y.store, step))
    case Dispatch(k, pid) => y.(cpus := y.cpus[k := y.cpus[k].(owner := Some(pid))])
    case Instruction(k, op) =>
      Changed(y, k, y.cpus[k].owner, WriteBack.Execute(EnvAt(c, y.store, y.cpus[k]), CacheAt(y.store, y.cpus[k]), op).0)
    case Interrupt(k) =>
      Changed(y, k, None, WriteBack.Flush(EnvAt(c, y.store, y.cpus[k]), CacheAt(y.store, y.cpus[k])))
  }

  /** The write an event shows, if it is one: a request's, or an instruction's that is not refused. */
  ghost function Shown(c: Config, y: System, e: Event): Option<Step>
    requires Fine(c, y) && Allowed(c, y, e)
  {
    match e
    case Serve(step) => Some(step)
    case Instruction(k, op) =>
      if op.Write? && WriteBack.Execute(EnvAt(c, y.store, y.cpus[k]), CacheAt(y.store, y.cpus[k]), op).1
      then Some(WriteStep(y.cpus[k].owner.value, op.page, op.offset, op.data)) else None
    case _ => None
  }

  ghost function WithShown(image: seq<seq<byte>>, shown: Option<Step>, pid: int): seq<seq<byte>> {
    if shown.Some? then ImageAfter(image, shown.value, pid) else image
  }

  // --- Caches over a changing store ----------------------------------------

  lemma OwnerIsSeen(c: Config, s: State, u: Cpu)
    requires Booked(c, s) && u.owner.Some? && Ownable(c, s, u.owner.value)
    ensures var i := Find(s.procs, u.owner.value);
            Seen(c, s, i, EnvAt(c, s, u)) && NobodyElseHas(s, i) && EnvAt(c, s, u).frames == s.procs[i].frames.value
  {
    var i := Find(s.procs, u.owner.value);
    assert TableNamed(c, s, s.procs[i]);
    MappedMeansNamed(c, s, s.procs[i]);
    MappedIsApart(c, s, i);
  }

  /** A CPU's cache still fits when its owner's record is the same. */
  lemma CpuStillFits(c: Config, s: State, s': State, u: Cpu)
    requires Booked(c, s) && Booked(c, s') && CpuFits(c, s, u)
    requires u.owner.Some? ==> Alive(s', u.owner.value) && Lookup(s', u.owner.value) == Lookup(s, u.owner.value)
    ensures CpuFits(c, s', u)
    ensures u.owner.Some? ==> EnvAt(c, s', u) == EnvAt(c, s, u)
  {
    if u.owner.Some? {
      OwnerIsSeen(c, s', u);
      NamedAreGood(c, s', Find(s'.procs, u.owner.value), EnvAt(c, s', u));
    }
  }

  /** What is owed is owed on the same bytes when the owner's image is the same. */
  lemma PendingFollowsImage(c: Config, s: State, s': State, u: Cpu)
    requires Booked(c, s) && Booked(c, s') && u.owner.Some? && CpuFits(c, s, u) && CpuFits(c, s', u)
    requires Lookup(s', u.owner.value) == Lookup(s, u.owner.value)
    requires Image(c, s', Lookup(s', u.owner.value)) == Image(c, s, Lookup(s, u.owner.value))
    ensures PendingImage(EnvAt(c, s', u), CacheAt(s', u)) == PendingImage(EnvAt(c, s, u), CacheAt(s, u))
  {
    OwnerIsSeen(c, s, u);
    OwnerIsSeen(c, s', u);
    var env, p := EnvAt(c, s, u), Lookup(s, u.owner.value);
    forall k: nat | k < |env.frames|
      ensures PendingPage(env, CacheAt(s', u), k) == PendingPage(env, CacheAt(s, u), k)
    {
      assert HasFrame(s.user, env.pageSize, env.frames[k]) && HasFrame(s'.user, env.pageSize, env.frames[k]);
      assert Image(c, s, p)[k] == Image(c, s', p)[k];
      assert Frame(s.user, env.pageSize, env.frames[k]) == Frame(s'.user, env.pageSize, env.frames[k]);
    }
  }

  // --- Requests and dispatches ---------------------------------------------

  lemma ServeKeepsFine(c: Config, y: System, step: Step)
    requires Fine(c, y) && Allowed(c, y, Serve(step))
    ensures Fine(c, Next(c, y, Serve(step)))
  {
    StepKeepsInv(c, y.store, step);
    StepKeepsNamed(c, y.store, step);
    forall k: nat | k < |y.cpus|
      ensures CpuFits(c, StoreRuns.Apply(c, y.store, step), y.cpus[k])
    {
      if y.cpus[k].owner.Some? {
        NoOwner(y.cpus, step.pid, 0, k);
        StepKeepsProcess(c, y.store, step, y.cpus[k].owner.value);
      }
      CpuStillFits(c, y.store, StoreRuns.Apply(c, y.store, step), y.cpus[k]);
    }
  }

  lemma ServeShows(c: Config, y: System, step: Step, pid: int)
    requires Fine(c, y) && Allowed(c, y, Serve(step)) && Fine(c, Next(c, y, Serve(step)))
    requires Alive(y.store, pid) && step != KillStep(pid)
    ensures var y' := Next(c, y, Serve(step));
            Alive(y'.store, pid) && ImageNow(c, y', pid) == ImageAfter(ImageNow(c, y, pid), step, pid)
  {
    StepKeepsProcess(c, y.store, step, pid);
    var k := OwnerOf(y.cpus, pid, 0);
    if k < |y.cpus| {
      NoOwner(y.cpus, step.pid, 0, k);
      PendingFollowsImage(c, y.store, StoreRuns.Apply(c, y.store, step), y.cpus[k]);
    }
  }

  /** A page of an empty cache owes nothing. */
  lemma EmptyOwesNothing(c: Config, s: State, u: Cpu)
    requires Booked(c, s) && u.owner.Some? && CpuFits(c, s, u) && WriteBack.NothingCached(CacheAt(s, u))
    ensures PendingImage(EnvAt(c, s, u), CacheAt(s, u)) == Image(c, s, Lookup(s, u.owner.value))
  {
    OwnerIsSeen(c, s, u);
    var env, p := EnvAt(c, s, u), Lookup(s, u.owner.value);
    forall k: nat | k < |env.frames|
      ensures PendingPage(env, CacheAt(s, u), k) == Image(c, s, p)[k]
    {
      forall b: nat | b < env.pageSize
        ensures WriteBack.PendingIn(env, CacheAt(s, u), k, b) == Frame(s.user, env.pageSize, env.frames[k])[b]
      {
        WriteBack.PendingWithoutCache(env, s.user, u.slots, k, b);
      }
      assert PendingPage(env, CacheAt(s, u), k) == Frame(s.user, env.pageSize, env.frames[k]);
    }
  }

  lemma DispatchFits(c: Config, s: State, u: Cpu, pid: int)
    requires Booked(c, s) && u.owner.None? && CpuFits(c, s, u) && Ownable(c, s, pid)
    ensures CpuFits(c, s, u.(owner := Some(pid)))
  {
    var u' := u.(owner := Some(pid));
    OwnerIsSeen(c, s, u');
    NamedAreGood(c, s, Find(s.procs, pid), EnvAt(c, s, u'));
  }

  lemma DispatchKeepsFine(c: Config, y: System, k: nat, pid: int)
    requires Fine(c, y) && Allowed(c, y, Dispatch(k, pid))
    ensures Fine(c, Next(c, y, Dispatch(k, pid)))
  {
    DispatchFits(c, y.store, y.cpus[k], pid);
    forall l: nat | l < |y.cpus|
      ensures y.cpus[l].owner != Some(pid)
    {
      NoOwner(y.cpus, pid, 0, l);
    }
  }

  lemma {:induction false} OwnerSame(cpus: seq<Cpu>, cpus': seq<Cpu>, pid: int, from: nat)
    requires |cpus| == |cpus'| && from <= |cpus|
    requires forall k: nat | k < |cpus| :: cpus[k].owner == Some(pid) <==> cpus'[k].owner == Some(pid)
    ensures OwnerOf(cpus', pid, from) == OwnerOf(cpus, pid, from)
    decreases |cpus| - from
  {
    if from < |cpus| {
      OwnerSame(cpus, cpus', pid, from + 1);
    }
  }

  lemma DispatchShows(c: Config, y: System, k: nat, pid': int, pid: int)
    requires Fine(c, y) && Allowed(c, y, Dispatch(k, pid')) && Fine(c, Next(c, y, Dispatch(k, pid'))) && Alive(y.store, pid)
    ensures ImageNow(c, Next(c, y, Dispatch(k, pid')), pid) == ImageNow(c, y, pid)
  {
    var y' := Next(c, y, Dispatch(k, pid'));
    if pid == pid' {
      forall l: nat | l < k
        ensures y'.cpus[l].owner != Some(pid)
      {
        NoOwner(y.cpus, pid, 0, l);
      }
      OwnerIs(y'.cpus, pid, 0, k);
      EmptyOwesNothing(c, y.store, y'.cpus[k]);
    } else {
      OwnerSame(y.cpus, y'.cpus, pid, 0);
    }
  }

  // --- Instructions and flushes --------------------------------------------

  /** A change by a CPU inside its owner's frames. */
  ghost predicate InsideOwner(c: Config, y: System, k: nat, owner: Option<int>, w: WriteBack.State) {
    && k < |y.cpus| && y.cpus[k].owner.Some? && CpuFits(c, y.store, y.cpus[k])
    && WriteBack.SameOutside(EnvAt(c, y.store, y.cpus[k]), y.store.user, w.mem)
    && (owner.None? || owner == y.cpus[k].owner)
    && WriteBack.Sane(EnvAt(c, y.store, y.cpus[k]), w) && (owner.None? ==> WriteBack.NothingCached(w))
  }

  lemma UserChangeIsBooked(c: Config, s: State, user: seq<byte>)
    requires Booked(c, s) && |user| == |s.user|
    ensures Booked(c, s.(user := user))
  {
    UserChangeKeepsInv(c, s, user);
    forall i: nat | i < |s.procs|
      ensures TableNamed(c, s.(user := user), s.procs[i])
    {
      assert TableNamed(c, s, s.procs[i]);
    }
  }

  lemma ChangedKeepsFine(c: Config, y: System, k: nat, owner: Option<int>, w: WriteBack.State)
    requires Fine(c, y) && InsideOwner(c, y, k, owner, w)
    ensures Fine(c, Changed(y, k, owner, w))
  {
    var y' := Changed(y, k, owner, w);
    UserChangeIsBooked(c, y.store, w.mem);
    forall l: nat | l < |y.cpus|
      ensures CpuFits(c, y'.store, y'.cpus[l])
    {
      if l == k {
        ChangedFits(c, y, k, owner, w);
      } else {
        CpuStillFits(c, y.store, y'.store, y.cpus[l]);
      }
    }
  }

  lemma ChangedFits(c: Config, y: System, k: nat, owner: Option<int>, w: WriteBack.State)
    requires Fine(c, y) && InsideOwner(c, y, k, owner, w)
    ensures CpuFits(c, Changed(y, k, owner, w).store, Changed(y, k, owner, w).cpus[k])
  {
    if owner.None? {
      forall i: nat | i < |w.slots|
        ensures !w.slots[i].valid && |w.slots[i].content| == c.pageSize
      {
        assert WriteBack.SlotFits(EnvAt(c, y.store, y.cpus[k]), w.slots[i]);
      }
    }
  }

  /** It shows in no other process's memory. */
  lemma ChangedHidden(c: Config, y: System, k: nat, owner: Option<int>, w: WriteBack.State, pid: int)
    requires Fine(c, y) && InsideOwner(c, y, k, owner, w) && Fine(c, Changed(y, k, owner, w))
    requires Alive(y.store, pid) && y.cpus[k].owner != Some(pid)
    ensures ImageNow(c, Changed(y, k, owner, w), pid) == ImageNow(c, y, pid)
  {
    var y', u := Changed(y, k, owner, w), y.cpus[k];
    OwnerIsSeen(c, y.store, u);
    OutsideKeepsImage(c, y.store, Find(y.store.procs, u.owner.value), EnvAt(c, y.store, u), w.mem, Find(y.store.procs, pid));
    OwnerSame(y.cpus, y'.cpus, pid, 0);
    var l := OwnerOf(y.cpus, pid, 0);
    if l < |y.cpus| {
      PendingFollowsImage(c, y.store, y'.store, y.cpus[l]);
    }
  }

  lemma OwnerAlone(c: Config, y: System, k: nat)
    requires Fine(c, y) && k < |y.cpus| && y.cpus[k].owner.Some?
    ensures OwnerOf(y.cpus, y.cpus[k].owner.value, 0) == k
  {
    OwnerIs(y.cpus, y.cpus[k].owner.value, 0, k);
  }

  /** One page under an instruction that leaves every byte like a CPU without cache. */
  lemma ExecutedPage(env: WriteBack.Env, w: WriteBack.State, op: WriteBack.Op, w': WriteBack.State, ok: bool, p: nat)
    requires WriteBack.Sane(env, w) && WriteBack.Sane(env, w') && WriteBack.InPage(env, op) && p < |env.frames|
    requires WriteBack.LikeDirect(env, w, op, w', ok)
    ensures PendingPage(env, w', p) == if op.Write? && ok && p == op.page then Splice(PendingPage(env, w, p), op.offset, op.data) else PendingPage(env, w, p)
  {
    forall b: nat | b < env.pageSize
      ensures WriteBack.PendingIn(env, w', p, b) == if ok && WriteBack.Stores(op, p, b) then op.data[b - op.offset] else WriteBack.PendingIn(env, w, p, b)
    {
    }
  }

  /** An instruction that sweeps nothing wrong in, on its owner's pages. */
  lemma ExecutedPages(env: WriteBack.Env, w: WriteBack.State, op: WriteBack.Op, pid: int)
    requires WriteBack.Sane(env, w) && WriteBack.InPage(env, op) && WriteBack.SweepsRight(env, w, op)
    ensures var (w', ok) := WriteBack.Execute(env, w, op);
            && WriteBack.Sane(env, w')
            && PendingImage(env, w') == if op.Write? && ok then ImageAfter(PendingImage(env, w), WriteStep(pid, op.page, op.offset, op.data), pid)
                                        else PendingImage(env, w)
  {
    var (w', ok) := WriteBack.Execute(env, w, op);
    WriteBack.StepIsExact(env, w, op);
    forall p: nat | p < |env.frames|
      ensures PendingPage(env, w', p) == if op.Write? && ok && p == op.page then Splice(PendingPage(env, w, p), op.offset, op.data) else PendingPage(env, w, p)
    {
      ExecutedPage(env, w, op, w', ok, p);
    }
  }

  lemma FlushedPages(env: WriteBack.Env, w: WriteBack.State)
    requires WriteBack.Sane(env, w)
    ensures WriteBack.Sane(env, WriteBack.Flush(env, w)) && WriteBack.NothingCached(WriteBack.Flush(env, w))
    ensures WriteBack.SameOutside(env, w.mem, WriteBack.Flush(env, w).mem)
    ensures forall p: nat | p < |env.frames| :: Frame(WriteBack.Flush(env, w).mem, env.pageSize, env.frames[p]) == PendingPage(env, w, p)
  {
    WriteBack.FlushEmpties(env, w);
    WriteBack.FlushStaysInside(env, w, |w.slots|);
    forall p: nat | p < |env.frames|
      ensures Frame(WriteBack.Flush(env, w).mem, env.pageSize, env.frames[p]) == PendingPage(env, w, p)
    {
      forall b: nat | b < env.pageSize
        ensures Frame(WriteBack.Flush(env, w).mem, env.pageSize, env.frames[p])[b] == WriteBack.PendingIn(env, w, p, b)
      {
        WriteBack.FlushedPending(env, w, p, b);
      }
    }
  }

  lemma InstructionIsInside(c: Config, y: System, k: nat, op: WriteBack.Op)
    requires Fine(c, y) && Allowed(c, y, Instruction(k, op))
    ensures var w := WriteBack.Execute(EnvAt(c, y.store, y.cpus[k]), CacheAt(y.store, y.cpus[k]), op).0;
            InsideOwner(c, y, k, y.cpus[k].owner, w)
  {
    var env, w := EnvAt(c, y.store, y.cpus[k]), CacheAt(y.store, y.cpus[k]);
    WriteBack.StepIsExact(env, w, op);
    WriteBack.ExecuteStaysInside(env, w, op);
  }

  lemma InterruptIsInside(c: Config, y: System, k: nat)
    requires Fine(c, y) && Allowed(c, y, Interrupt(k))
    ensures InsideOwner(c, y, k, None, WriteBack.Flush(EnvAt(c, y.store, y.cpus[k]), CacheAt(y.store, y.cpus[k])))
  {
    FlushedPages(EnvAt(c, y.store, y.cpus[k]), CacheAt(y.store, y.cpus[k]));
  }

  lemma InstructionShows(c: Config, y: System, k: nat, op: WriteBack.Op)
    requires Fine(c, y) && Allowed(c, y, Instruction(k, op)) && Fine(c, Next(c, y, Instruction(k, op)))
    ensures var y', pid := Next(c, y, Instruction(k, op)), y.cpus[k].owner.value;
            Alive(y'.store, pid) && ImageNow(c, y', pid) == WithShown(ImageNow(c, y, pid), Shown(c, y, Instruction(k, op)), pid)
  {
    var y', u := Next(c, y, Instruction(k, op)), y.cpus[k];
    OwnerAlone(c, y, k);
    OwnerAlone(c, y', k);
    ExecutedPages(EnvAt(c, y.store, u), CacheAt(y.store, u), op, u.owner.value);
    assert EnvAt(c, y'.store, y'.cpus[k]) == EnvAt(c, y.store, u);
  }

  lemma InterruptShows(c: Config, y: System, k: nat)
    requires Fine(c, y) && Allowed(c, y, Interrupt(k)) && Fine(c, Next(c, y, Interrupt(k)))
    ensures var y', pid := Next(c, y, Interrupt(k)), y.cpus[k].owner.value;
            Alive(y'.store, pid) && ImageNow(c, y', pid) == ImageNow(c, y, pid)
  {
    var y', u := Next(c, y, Interrupt(k)), y.cpus[k];
    var env, pid := EnvAt(c, y.store, u), u.owner.value;
    OwnerAlone(c, y, k);
    OwnerIsSeen(c, y.store, u);
    FlushedPages(env, CacheAt(y.store, u));
    NobodyOwns(c, y, k);
    var image := Image(c, y'.store, Lookup(y'.store, pid));
    forall p: nat | p < |env.frames|
      ensures image[p] == PendingPage(env, CacheAt(y.store, u), p)
    {
      assert HasFrame(y'.store.user, c.pageSize, env.frames[p]);
    }
    assert image == PendingImage(env, CacheAt(y.store, u));
  }

  /** After the flush nobody owns the process. */
  lemma NobodyOwns(c: Config, y: System, k: nat)
    requires Fine(c, y) && Allowed(c, y, Interrupt(k))
    ensures var y' := Next(c, y, Interrupt(k)); OwnerOf(y'.cpus, y.cpus[k].owner.value, 0) == |y'.cpus|
  {
    var l := OwnerOf(Next(c, y, Interrupt(k)).cpus, y.cpus[k].owner.value, 0);
  }

  // --- Runs ----------------------------------------------------------------

  /** An event keeps the system sound. */
  lemma NextIsFine(c: Config, y: System, e: Event)
    requires Fine(c, y) && Allowed(c, y, e)
    ensures Fine(c, Next(c, y, e))
  {
    match e {
      case Serve(step) => ServeKeepsFine(c, y, step);
      case Dispatch(k, pid) => DispatchKeepsFine(c, y, k, pid);
      case Instruction(k, op) =>
        InstructionIsInside(c, y, k, op);
        ChangedKeepsFine(c, y, k, y.cpus[k].owner, WriteBack.Execute(EnvAt(c, y.store, y.cpus[k]), CacheAt(y.store, y.cpus[k]), op).0);
      case Interrupt(k) =>
        InterruptIsInside(c, y, k);
        ChangedKeepsFine(c, y, k, None, WriteBack.Flush(EnvAt(c, y.store, y.cpus[k]), CacheAt(y.store, y.cpus[k])));
    }
  }

  /** An event shows in a process's memory only when it is the process's own write. */
  lemma NextShows(c: Config, y: System, e: Event, pid: int)
    requires Fine(c, y) && Allowed(c, y, e) && Fine(c, Next(c, y, e)) && Alive(y.store, pid) && e != Serve(KillStep(pid))
    ensures Alive(Next(c, y, e).store, pid)
    ensures ImageNow(c, Next(c, y, e), pid) == WithShown(ImageNow(c, y, pid), Shown(c, y, e), pid)
  {
    match e {
      case Serve(step) => ServeShows(c, y, step, pid);
      case Dispatch(k, other) => DispatchShows(c, y, k, other, pid);
      case Instruction(k, op) =>
        if y.cpus[k].owner == Some(pid) {
          InstructionShows(c, y, k, op);
        } else {
          InstructionIsInside(c, y, k, op);
          ChangedHidden(c, y, k, y.cpus[k].owner, WriteBack.Execute(EnvAt(c, y.store, y.cpus[k]), CacheAt(y.store, y.cpus[k]), op).0, pid);
        }
      case Interrupt(k) =>
        if y.cpus[k].owner == Some(pid) {
          InterruptShows(c, y, k);
        } else {
          InterruptIsInside(c, y, k);
          ChangedHidden(c, y, k, None, WriteBack.Flush(EnvAt(c, y.store, y.cpus[k]), CacheAt(y.store, y.cpus[k])), pid);
        }
    }
  }

  ghost predicate AllowedRun(c: Config, y: System, events: seq<Event>)
    requires Fine(c, y)
    decreases |events|, 0
  {
    events == [] ||
    (var front := events[..|events| - 1];
     AllowedRun(c, y, front) && Allowed(c, After(c, y, front), events[|events| - 1]))
  }

  ghost function After(c: Config, y: System, events: seq<Event>): (y': System)
    requires Fine(c, y) && AllowedRun(c, y, events)
    ensures Fine(c, y')
    decreases |events|, 1
  {
    if events == [] then y
    else
      var before := After(c, y, events[..|events| - 1]);
      NextIsFine(c, before, events[|events| - 1]);
      Next(c, before, events[|events| - 1])
  }

  /** The image a process's own writes of a run lead to, by request or by instruction. */
  ghost function WrittenImage(c: Config, y: System, events: seq<Event>, image: seq<seq<byte>>, pid: int): seq<seq<byte>>
    requires Fine(c, y) && AllowedRun(c, y, events)
  {
    if events == [] then image
    else
      var front := events[..|events| - 1];
      WithShown(WrittenImage(c, y, front, image, pid), Shown(c, After(c, y, front), events[|events| - 1]), pid)
  }

  /** On every run of any number of CPUs with caches, instructions and requests in any order,
      a living process's memory, with what its CPU still owes, changes by its own writes
      alone. */
  lemma {:induction false} MemorySurvivesRun(c: Config, y: System, events: seq<Event>, pid: int)
    requires Fine(c, y) && AllowedRun(c, y, events) && Alive(y.store, pid) && Serve(KillStep(pid)) !in events
    ensures var y' := After(c, y, events);
            Alive(y'.store, pid) && ImageNow(c, y', pid) == WrittenImage(c, y, events, ImageNow(c, y, pid), pid)
    decreases |events|
  {
    if events != [] {
      var front, last := events[..|events| - 1], events[|events| - 1];
      assert last in events;
      MemorySurvivesRun(c, y, front, pid);
      NextIsFine(c, After(c, y, front), last);
      NextShows(c, After(c, y, front), last, pid);
    }
  }

  // --- Turns that end without the flush ------------------------------------

  /** The image in memory is complete exactly when the cache owes nothing. */
  lemma OwedExactly(c: Config, s: State, u: Cpu)
    requires Booked(c, s) && u.owner.Some? && CpuFits(c, s, u)
    ensures PendingImage(EnvAt(c, s, u), CacheAt(s, u)) == Image(c, s, Lookup(s, u.owner.value))
            <==> WriteBack.NothingOwed(EnvAt(c, s, u), CacheAt(s, u))
  {
    OwnerIsSeen(c, s, u);
    var env, w, image := EnvAt(c, s, u), CacheAt(s, u), Image(c, s, Lookup(s, u.owner.value));
    assert forall p: nat | p < |env.frames| :: HasFrame(w.mem, env.pageSize, env.frames[p]) && image[p] == Frame(w.mem, env.pageSize, env.frames[p]);
    if PendingImage(env, w) == image {
      forall p: nat, b: nat | p < |env.frames| && b < env.pageSize
        ensures WriteBack.PendingIn(env, w, p, b) == Frame(w.mem, env.pageSize, env.frames[p])[b]
      {
        assert PendingImage(env, w)[p] == image[p];
        assert PendingPage(env, w, p)[b] == image[p][b];
      }
    }
    if WriteBack.NothingOwed(env, w) {
      forall p: nat | p < |env.frames|
        ensures PendingPage(env, w, p) == image[p]
      {
      }
    }
  }

  /** A process that left its CPU by a system call and is suspended: what goes to swap is its
      memory if and only if the CPU's cache owes nothing. */
  lemma SuspendedWhileOwned(c: Config, y: System, k: nat, writes: nat)
    requires Fine(c, y) && k < |y.cpus| && y.cpus[k].owner.Some? && CpuFits(c, y.store, y.cpus[k])
    requires Legal(c, y.store, SwapOutStep(y.cpus[k].owner.value, writes))
    ensures var pid, s' := y.cpus[k].owner.value, SwapOut(c, y.store, y.cpus[k].owner.value, writes, 0).0;
            && Alive(s', pid)
            && (Image(c, s', Lookup(s', pid)) == ImageNow(c, y, pid) <==> WriteBack.NothingOwed(EnvAt(c, y.store, y.cpus[k]), CacheAt(y.store, y.cpus[k])))
  {
    SwapOutAny(c, y.store, y.cpus[k].owner.value, writes, y.cpus[k].owner.value);
    OwnerAlone(c, y, k);
    OwedExactly(c, y.store, y.cpus[k]);
  }

  lemma HitIgnoresProcess(env: WriteBack.Env, other: WriteBack.Env, w: WriteBack.State, op: WriteBack.Op)
    requires WriteBack.WellFormed(env, w) && WriteBack.WellFormed(other, w) && WriteBack.InPage(env, op) && WriteBack.InPage(other, op)
    requires WriteBack.SlotOf(w.slots, op.page, 0) < |w.slots|
    ensures WriteBack.Execute(other, w, op) == WriteBack.Execute(env, w, op)
  {
  }

  /** The cache is searched by page number alone. The next process on a CPU left without the
      flush hits the pages of the one before: its write goes to that one's memory, and its
      own does not get it. */
  lemma NextProcessHits(c: Config, y: System, k: nat, next: int, other: WriteBack.Env, op: WriteBack.Op)
    requires Fine(c, y) && Allowed(c, y, Instruction(k, op)) && op.Write?
    requires Alive(y.store, next) && y.cpus[k].owner != Some(next)
    requires WriteBack.WellFormed(other, CacheAt(y.store, y.cpus[k])) && WriteBack.InPage(other, op)
    requires WriteBack.SlotOf(y.cpus[k].slots, op.page, 0) < |y.cpus[k].slots|
    ensures var env, w, before := EnvAt(c, y.store, y.cpus[k]), CacheAt(y.store, y.cpus[k]), y.cpus[k].owner.value;
            var y' := Next(c, y, Instruction(k, op));
            && WriteBack.Execute(other, w, op) == WriteBack.Execute(env, w, op)
            && Fine(c, y') && Alive(y'.store, before) && Alive(y'.store, next)
            && ImageNow(c, y', before) == ImageAfter(ImageNow(c, y, before), WriteStep(before, op.page, op.offset, op.data), before)
            && ImageNow(c, y', next) == ImageNow(c, y, next)
  {
    HitIgnoresProcess(EnvAt(c, y.store, y.cpus[k]), other, CacheAt(y.store, y.cpus[k]), op);
    NextIsFine(c, y, Instruction(k, op));
    NextShows(c, y, Instruction(k, op), y.cpus[k].owner.value);
    NextShows(c, y, Instruction(k, op), next);
  }

  /** A module at its start and one CPU with a cache of one slot. */
  ghost function OneCpu(c: Config, tlb: bool, algorithm: ClockCache.Algorithm): System
    requires c.Valid()
  {
    System(Initial(c), [Cpu(None, tlb, algorithm, [ClockCache.Slot(false, 0, Zeros(c.pageSize), false, false, 0, 0)], 0)])
  }

  const ONE_WRITE := [Serve(CreateStep(1, 1)), Dispatch(0, 1), Instruction(0, WriteBack.Write(0, 0, [7]))]

  lemma EventAdded(c: Config, y: System, front: seq<Event>, e: Event)
    requires Fine(c, y) && AllowedRun(c, y, front) && Allowed(c, After(c, y, front), e)
    ensures AllowedRun(c, y, front + [e]) && After(c, y, front + [e]) == Next(c, After(c, y, front), e)
  {
    assert (front + [e])[..|front|] == front;
  }

  lemma OneCpuIsFine(c: Config, tlb: bool, algorithm: ClockCache.Algorithm)
    requires c.Valid()
    ensures Fine(c, OneCpu(c, tlb, algorithm))
  {
    InitialInv(c);
  }

  /** The first process, dispatched on the empty CPU, with its one page of zeros. */
  lemma BornAndDispatched(c: Config, tlb: bool, algorithm: ClockCache.Algorithm)
    requires c.Valid() && c.pageSize <= c.memorySize
    ensures var y, events := OneCpu(c, tlb, algorithm), [Serve(CreateStep(1, 1)), Dispatch(0, 1)];
            && Fine(c, y) && AllowedRun(c, y, events)
            && var y' := After(c, y, events);
            && y'.cpus == [y.cpus[0].(owner := Some(1))] && y'.store.user == Zeros(c.memorySize) && y'.store.swapFree == SWAP_FRAMES
            && Alive(y'.store, 1) && Lookup(y'.store, 1).frames.Some? && |Lookup(y'.store, 1).frames.value| == 1 && !Lookup(y'.store, 1).suspended
  {
    var y, create := OneCpu(c, tlb, algorithm), Serve(CreateStep(1, 1));
    OneCpuIsFine(c, tlb, algorithm);
    InitialIsClear(c);
    BornRun(c);
    RunOneMore(c, Initial(c), [], CreateStep(1, 1));
    assert [] + [CreateStep(1, 1)] == BORN;
    CreateKeeps(c, Initial(c), 1, 1);
    EventAdded(c, y, [], create);
    assert [] + [create] == [create];
    var born := After(c, y, [create]);
    FoundAt(born.store, 1, 0);
    assert TableNamed(c, born.store, born.store.procs[0]);
    EventAdded(c, y, [create], Dispatch(0, 1));
    assert [create] + [Dispatch(0, 1)] == [create, Dispatch(0, 1)];
  }

  /** A store of zeros whose process 1 has one resident page. */
  ghost predicate OnePageOfZeros(c: Config, s: State) {
    && Booked(c, s) && s.user == Zeros(c.memorySize) && Ownable(c, s, 1) && |Lookup(s, 1).frames.value| == 1
  }

  lemma ZeroImage(c: Config, s: State)
    requires OnePageOfZeros(c, s)
    ensures Image(c, s, Lookup(s, 1)) == [Zeros(c.pageSize)]
  {
    OwnedFrame(c, s, Find(s.procs, 1), 0);
    assert Frame(s.user, c.pageSize, Lookup(s, 1).frames.value[0]) == Zeros(c.pageSize);
  }

  /** A write into an empty cache reaches no memory. */
  lemma FirstWriteStays(env: WriteBack.Env, w: WriteBack.State, b: byte)
    requires WriteBack.Sane(env, w) && |w.slots| == 1 && !w.slots[0].valid && |env.frames| == 1 && env.pageSize > 0
    ensures var op := WriteBack.Write(0, 0, [b]);
            && WriteBack.InPage(env, op) && WriteBack.SweepsRight(env, w, op)
            && WriteBack.Execute(env, w, op).1 && WriteBack.Execute(env, w, op).0.mem == w.mem
  {
    assert WriteBack.SlotOf(w.slots, 0, 1) == 1;
    assert w.slots == [w.slots[0]];
    FreshIsChosen(w.slots[0], env.algorithm);
  }

  /** In every configuration with a frame: a process writes a 7, leaves its CPU by a system
      call and is suspended; what goes to swap still has the 0. */
  lemma WriteMissesSwap(c: Config, tlb: bool, algorithm: ClockCache.Algorithm)
    requires c.Valid() && c.pageSize <= c.memorySize
    ensures var y := OneCpu(c, tlb, algorithm);
            && Fine(c, y) && AllowedRun(c, y, ONE_WRITE)
            && var y' := After(c, y, ONE_WRITE);
            && var (s', ok) := SwapOut(c, y'.store, 1, 1, 0);
            && Alive(y'.store, 1) && ok && Alive(s', 1) && ImageNow(c, y', 1) == [Zeros(c.pageSize)[0 := 7]]
            && Image(c, s', Lookup(s', 1)) == [Zeros(c.pageSize)]
  {
    var y, front, op := OneCpu(c, tlb, algorithm), [Serve(CreateStep(1, 1)), Dispatch(0, 1)], WriteBack.Write(0, 0, [7]);
    BornAndDispatched(c, tlb, algorithm);
    var before := After(c, y, front);
    assert CpuFits(c, before.store, before.cpus[0]);
    FirstWriteStays(EnvAt(c, before.store, before.cpus[0]), CacheAt(before.store, before.cpus[0]), 7);
    EventAdded(c, y, front, Instruction(0, op));
    assert front + [Instruction(0, op)] == ONE_WRITE;
    OneWriteShows(c, before);
    ZeroImageSwapped(c, before.store);
  }

  lemma ZeroImageSwapped(c: Config, s: State)
    requires OnePageOfZeros(c, s) && s.swapFree > 0
    ensures var (s', ok) := SwapOut(c, s, 1, 1, 0);
            ok && Alive(s', 1) && Image(c, s', Lookup(s', 1)) == [Zeros(c.pageSize)]
  {
    ZeroImage(c, s);
    SwapOutKeeps(c, s, 1, 1, 0);
    SwapOutAny(c, s, 1, 1, 1);
  }

  lemma EmptyImageNow(c: Config, y: System)
    requires Fine(c, y) && |y.cpus| == 1 && y.cpus[0].owner == Some(1) && |y.cpus[0].slots| == 1 && !y.cpus[0].slots[0].valid
    requires OnePageOfZeros(c, y.store)
    ensures ImageNow(c, y, 1) == [Zeros(c.pageSize)]
  {
    OwnerAlone(c, y, 0);
    EmptyOwesNothing(c, y.store, y.cpus[0]);
    ZeroImage(c, y.store);
  }

  lemma SevenShown(c: Config)
    requires c.pageSize > 0
    ensures ImageAfter([Zeros(c.pageSize)], WriteStep(1, 0, 0, [7]), 1) == [Zeros(c.pageSize)[0 := 7]]
  {
    assert Splice(Zeros(c.pageSize), 0, [7]) == Zeros(c.pageSize)[0 := 7];
  }

  lemma OneWriteShows(c: Config, y: System)
    requires Fine(c, y) && |y.cpus| == 1 && y.cpus[0].owner == Some(1) && |y.cpus[0].slots| == 1 && !y.cpus[0].slots[0].valid
    requires OnePageOfZeros(c, y.store) && y.store.swapFree > 0
    requires var op := WriteBack.Write(0, 0, [7]);
             Allowed(c, y, Instruction(0, op)) && WriteBack.Execute(EnvAt(c, y.store, y.cpus[0]), CacheAt(y.store, y.cpus[0]), op).1
             && WriteBack.Execute(EnvAt(c, y.store, y.cpus[0]), CacheAt(y.store, y.cpus[0]), op).0.mem == y.store.user
    ensures var y' := Next(c, y, Instruction(0, WriteBack.Write(0, 0, [7])));
            Fine(c, y') && y'.store == y.store && ImageNow(c, y', 1) == [Zeros(c.pageSize)[0 := 7]]
  {
    var e := Instruction(0, WriteBack.Write(0, 0, [7]));
    NextIsFine(c, y, e);
    NextShows(c, y, e, 1);
    EmptyImageNow(c, y);
    SevenShown(c);
  }
}

/** Address translation over the whole system: the CPU's look-aside buffer and page walk
    against the memory module's page tables, while other processes come and go. */
module Translation {
  import opened Arithmetic
  import opened Lists
  import opened PageTables
  import opened Store
  import opened StoreRuns
  import opened Memoria
  import Tlb

  // --- What a walk answers -------------------------------------------------

  /** What the page table of a process says about a page; pages beyond the table wrap
      around, and a process without table or unknown has no pages. */
  ghost function Answer(c: Config, s: State, key: Tlb.Key): int
    requires c.Valid()
  {
    PagesPositive(c);
    var i, at := Find(s.procs, key.pid), key.page % c.g.Pages();
    if i < |s.procs| && at < |s.procs[i].mapped| then s.procs[i].mapped[at] else INVALID_FRAME_NUMBER
  }

  ghost function WalkIn(c: Config, s: State): Tlb.Key -> int
    requires c.Valid()
  {
    key => Answer(c, s, key)
  }

  ghost function TableOf(memory: Memory, pid: int): PageTable?
    reads memory, memory.processes
  {
    var i := Find(memory.Processes(), pid);
    if i < |memory.processes| then memory.processes[i].pageTable else null
  }

  /** The page tables the memory module serves, by pid. */
  ghost function Roots(memory: Memory): map<int, PageTable>
    reads memory, memory.processes
  {
    map pid: int | pid in (set i: nat | i < |memory.processes| :: memory.processes[i].pid) && TableOf(memory, pid) != null
      :: TableOf(memory, pid)
  }

  lemma RootsAreTables(memory: Memory, pid: int)
    ensures pid in Roots(memory) <==> TableOf(memory, pid) != null
  {
    var i := Find(memory.Processes(), pid);
    if i < |memory.processes| {
      assert memory.Processes()[i].pid == memory.processes[i].pid;
    }
  }

  /** A process's page table among all tables of the module. */
  lemma TableInModule(memory: Memory, i: nat)
    requires memory.Valid() && i < |memory.processes| && memory.processes[i].pageTable != null
    ensures var g, m, root := memory.c.g, Snapshot(memory.tables), memory.processes[i].pageTable;
            Shape(g.entriesPerTable, m, root, g.Height(), 1) && Contents(m, root, g.Height()) == memory.processes[i].mapped
  {
    var proc := memory.processes[i];
    assert proc.TableValid(memory.c.g);
    ContentsKept(memory.c.g, Snapshot(proc.tables), Snapshot(memory.tables), proc.pageTable);
  }

  lemma ModuleServes(memory: Memory)
    requires memory.Valid()
    ensures Tlb.Served(memory.c.g, Snapshot(memory.tables), Roots(memory))
  {
    forall pid | pid in Roots(memory)
      ensures Shape(memory.c.g.entriesPerTable, Snapshot(memory.tables), Roots(memory)[pid], memory.c.g.Height(), 1)
    {
      RootsAreTables(memory, pid);
      TableInModule(memory, Find(memory.Processes(), pid));
    }
  }

  /** In every valid state of the memory module the CPU's walk of any page of any process
      answers what the process's page table says. */
  lemma WalkAnswers(memory: Memory, key: Tlb.Key)
    requires memory.Valid()
    ensures Tlb.Served(memory.c.g, Snapshot(memory.tables), Roots(memory))
    ensures Tlb.WalkOf(memory.c.g, Snapshot(memory.tables), Roots(memory), key) == Answer(memory.c, memory.Value(), key)
  {
    PagesPositive(memory.c);
    ModuleServes(memory);
    RootsAreTables(memory, key.pid);
    var i := Find(memory.Processes(), key.pid);
    if i < |memory.processes| {
      var proc := memory.processes[i];
      assert memory.Value().procs[i] == proc.Value();
      assert proc.TableValid(memory.c.g);
      if proc.pageTable != null {
        TableInModule(memory, i);
        IdWalkFindsEntry(memory.c.g, Snapshot(memory.tables), proc.pageTable, key.page);
      }
    }
  }

  // --- CPU and memory together ---------------------------------------------

  /** The CPU translates or flushes, or the memory module serves a request. */
  datatype Event = Cpu(event: Tlb.Event) | Module(step: StoreRuns.Step)

  /** What the kernel guarantees about creation: the pid is not one the buffer has entries
      of. A process may end while the buffer still holds its entries: a CPU whose process
      leaves it by a system call does not flush. */
  ghost predicate Allowed(c: Config, s: State, t: Tlb.State, e: Event) {
    match e
    case Cpu(_) => true
    case Module(step) =>
      && Legal(c, s, step)
      && (step.CreateStep? ==> forall i: nat | i < |t.entries| :: t.entries[i].key.pid != step.pid)
  }

  ghost function Next(c: Config, capacity: nat, algorithm: Tlb.Algorithm, s: State, t: Tlb.State, e: Event): (r: (State, Tlb.State))
    requires c.Valid() && Tlb.WellFormed(capacity, t) && Allowed(c, s, t, e)
    ensures Tlb.WellFormed(capacity, r.1)
  {
    match e
    case Cpu(event) => (s, Tlb.Step(capacity, algorithm, t, event, WalkIn(c, s)))
    case Module(step) => (StoreRuns.Apply(c, s, step), t)
  }

  ghost predicate AllowedRun(c: Config, capacity: nat, algorithm: Tlb.Algorithm, events: seq<Event>)
    requires c.Valid()
    decreases |events|, 0
  {
    events == [] ||
    (var front := events[..|events| - 1];
     && AllowedRun(c, capacity, algorithm, front)
     && Allowed(c, After(c, capacity, algorithm, front).0, After(c, capacity, algorithm, front).1, events[|events| - 1]))
  }

  /** Memory module and buffer after a run from their start. */
  ghost function After(c: Config, capacity: nat, algorithm: Tlb.Algorithm, events: seq<Event>): (r: (State, Tlb.State))
    requires c.Valid() && AllowedRun(c, capacity, algorithm, events)
    ensures Tlb.WellFormed(capacity, r.1)
    decreases |events|, 1
  {
    if events == [] then (Initial(c), Tlb.State([], 0, 0))
    else
      var (s, t) := After(c, capacity, algorithm, events[..|events| - 1]);
      Next(c, capacity, algorithm, s, t, events[|events| - 1])
  }

  /** No key is kept twice, and every entry of a living process holds what its page table
      says; entries of processes that ended are never asked for again. */
  ghost predicate Current(c: Config, s: State, t: Tlb.State)
    requires c.Valid()
  {
    && Tlb.UniqueKeys(t.entries)
    && forall i: nat | i < |t.entries| && Alive(s, t.entries[i].key.pid) :: t.entries[i].frame == Answer(c, s, t.entries[i].key)
  }

  /** A living process's page table changes only when it is created. */
  lemma StepKeepsAnswer(c: Config, s: State, step: StoreRuns.Step, key: Tlb.Key)
    requires c.Valid() && Inv(c, s) && Legal(c, s, step) && Alive(StoreRuns.Apply(c, s, step), key.pid)
    requires step.CreateStep? ==> step.pid != key.pid
    ensures Alive(s, key.pid) && Answer(c, StoreRuns.Apply(c, s, step), key) == Answer(c, s, key)
  {
    if !Alive(s, key.pid) {
      StepKeepsAbsent(c, s, step, key.pid);
    } else if step == KillStep(key.pid) {
      KilledIsGone(c, s, key.pid);
    } else {
      StepKeepsMapped(c, s, step, key.pid);
    }
  }

  lemma StepKeepsMapped(c: Config, s: State, step: StoreRuns.Step, pid: int)
    requires c.Valid() && Inv(c, s) && Legal(c, s, step) && Alive(s, pid)
    requires step.pid == pid ==> !step.KillStep? && !step.CreateStep?
    ensures Alive(StoreRuns.Apply(c, s, step), pid) && Lookup(StoreRuns.Apply(c, s, step), pid).mapped == Lookup(s, pid).mapped
  {
    if step.pid == pid {
      MovesKeepRecords(c, s, step, Find(s.procs, pid));
      StepKeepsInv(c, s, step);
      FoundAt(StoreRuns.Apply(c, s, step), pid, Find(s.procs, pid));
    } else {
      StepKeepsProcess(c, s, step, pid);
    }
  }

  /** Only creation brings a pid. */
  lemma PidsAfter(c: Config, s: State, step: StoreRuns.Step, j: nat) returns (i: nat)
    requires c.Valid() && Legal(c, s, step) && !step.CreateStep? && j < |StoreRuns.Apply(c, s, step).procs|
    ensures i < |s.procs| && StoreRuns.Apply(c, s, step).procs[j].pid == s.procs[i].pid
  {
    i := if step.KillStep? && j >= Find(s.procs, step.pid) && Alive(s, step.pid) then j + 1 else j;
  }

  lemma StepKeepsAbsent(c: Config, s: State, step: StoreRuns.Step, pid: int)
    requires c.Valid() && Inv(c, s) && Legal(c, s, step) && !Alive(s, pid) && !(step.CreateStep? && step.pid == pid)
    ensures !Alive(StoreRuns.Apply(c, s, step), pid)
  {
    NewPid(s.procs, pid, 0);
    var s' := StoreRuns.Apply(c, s, step);
    if step.CreateStep? {
      CreateKeeps(c, s, step.pid, step.size);
      assert forall j: nat | j < |s.procs| :: s'.procs[..|s.procs|] == s.procs ==> s'.procs[j] == s.procs[j];
    } else {
      forall j: nat | j < |s'.procs|
        ensures s'.procs[j].pid != pid
      {
        var i := PidsAfter(c, s, step, j);
      }
    }
    NobodyHas(s'.procs, pid, 0);
  }

  /** On every run of the CPU and the memory module together the buffer holds, for every
      living process, what its page table says now. */
  lemma {:induction false} BufferFollowsTables(c: Config, capacity: nat, algorithm: Tlb.Algorithm, events: seq<Event>)
    requires c.Valid() && AllowedRun(c, capacity, algorithm, events)
    ensures var (s, t) := After(c, capacity, algorithm, events);
            Inv(c, s) && Current(c, s, t)
    decreases |events|
  {
    if events == [] {
      InitialInv(c);
    } else {
      var front := events[..|events| - 1];
      var (s, t) := After(c, capacity, algorithm, front);
      BufferFollowsTables(c, capacity, algorithm, front);
      NextKeeps(c, capacity, algorithm, s, t, events[|events| - 1]);
    }
  }

  /** A translation, of a living process or not, keeps the buffer current. */
  lemma AccessKeepsCurrent(c: Config, capacity: nat, algorithm: Tlb.Algorithm, s: State, t: Tlb.State, key: Tlb.Key)
    requires c.Valid() && Tlb.WellFormed(capacity, t) && Current(c, s, t)
    ensures var (t', frame) := Tlb.Access(capacity, algorithm, t, key, Answer(c, s, key));
            Current(c, s, t') && (Alive(s, key.pid) ==> frame == Answer(c, s, key))
  {
  }

  lemma NextKeeps(c: Config, capacity: nat, algorithm: Tlb.Algorithm, s: State, t: Tlb.State, e: Event)
    requires c.Valid() && Inv(c, s) && Tlb.WellFormed(capacity, t) && Current(c, s, t) && Allowed(c, s, t, e)
    ensures var (s', t') := Next(c, capacity, algorithm, s, t, e);
            Inv(c, s') && Current(c, s', t')
  {
    match e
    case Cpu(event) =>
      if event.Translate? {
        AccessKeepsCurrent(c, capacity, algorithm, s, t, event.key);
      }
    case Module(step) =>
      StepKeepsInv(c, s, step);
      forall i: nat | i < |t.entries| && Alive(StoreRuns.Apply(c, s, step), t.entries[i].key.pid)
        ensures t.entries[i].frame == Answer(c, StoreRuns.Apply(c, s, step), t.entries[i].key)
      {
        StepKeepsAnswer(c, s, step, t.entries[i].key);
      }
  }

  // --- Translated addresses ------------------------------------------------

  /** The address a translation with the buffer gives. */
  ghost function Translated(c: Config, capacity: nat, algorithm: Tlb.Algorithm, s: State, t: Tlb.State, pid: int, page: nat, offset: nat): int
    requires c.Valid() && Tlb.WellFormed(capacity, t)
  {
    var key := Tlb.Key(page, pid);
    Tlb.Access(capacity, algorithm, t, key, Answer(c, s, key)).1 * c.pageSize + offset
  }

  /** Hit or miss, an allocated address goes into the frame the process has for the page. */
  lemma TranslatedIsPhysical(c: Config, capacity: nat, algorithm: Tlb.Algorithm, s: State, t: Tlb.State, i: nat, page: nat, offset: nat)
    requires c.Valid() && Inv(c, s) && Tlb.WellFormed(capacity, t) && Current(c, s, t) && Allocated(c, s, i, page, offset)
    ensures Translated(c, capacity, algorithm, s, t, s.procs[i].pid, page, offset) == Physical(c, s.procs[i], page, offset)
  {
    var key := Tlb.Key(page, s.procs[i].pid);
    FoundAt(s, key.pid, i);
    SmallModulo(page, c.g.Pages());
    AccessKeepsCurrent(c, capacity, algorithm, s, t, key);
  }

  /** After every run of the CPU and the memory module together, with either algorithm and
      any capacity, translating an allocated address gives a place inside the memory... */
  lemma TranslatedStaysInMemory(c: Config, capacity: nat, algorithm: Tlb.Algorithm, events: seq<Event>, i: nat, page: nat, offset: nat)
    requires c.Valid() && AllowedRun(c, capacity, algorithm, events)
    requires Allocated(c, After(c, capacity, algorithm, events).0, i, page, offset)
    ensures var (s, t) := After(c, capacity, algorithm, events);
            && Translated(c, capacity, algorithm, s, t, s.procs[i].pid, page, offset) == s.procs[i].frames.value[page] * c.pageSize + offset
            && 0 <= Translated(c, capacity, algorithm, s, t, s.procs[i].pid, page, offset) < c.memorySize
  {
    var (s, t) := After(c, capacity, algorithm, events);
    BufferFollowsTables(c, capacity, algorithm, events);
    TranslatedIsPhysical(c, capacity, algorithm, s, t, i, page, offset);
    TranslationStaysInMemory(c, s, i, page, offset);
  }

  /** ...and different allocated addresses, of one process or of two, go to different places. */
  lemma TranslatedIsInjective(c: Config, capacity: nat, algorithm: Tlb.Algorithm, events: seq<Event>,
                              i: nat, page: nat, offset: nat, j: nat, page': nat, offset': nat)
    requires c.Valid() && AllowedRun(c, capacity, algorithm, events)
    requires var s := After(c, capacity, algorithm, events).0;
             Allocated(c, s, i, page, offset) && Allocated(c, s, j, page', offset')
    requires var (s, t) := After(c, capacity, algorithm, events);
             Translated(c, capacity, algorithm, s, t, s.procs[i].pid, page, offset) == Translated(c, capacity, algorithm, s, t, s.procs[j].pid, page', offset')
    ensures i == j && page == page' && offset == offset'
  {
    var (s, t) := After(c, capacity, algorithm, events);
    BufferFollowsTables(c, capacity, algorithm, events);
    TranslatedIsPhysical(c, capacity, algorithm, s, t, i, page, offset);
    TranslatedIsPhysical(c, capacity, algorithm, s, t, j, page', offset');
    TranslationIsInjective(c, s, i, page, offset, j, page', offset');
  }

  /** One translation of an allocated address. */
  lemma AccessIsPhysical(c: Config, capacity: nat, algorithm: Tlb.Algorithm, s: State, t: Tlb.State, i: nat, page: nat, offset: nat)
    requires c.Valid() && Inv(c, s) && Tlb.WellFormed(capacity, t) && Current(c, s, t) && Allocated(c, s, i, page, offset)
    ensures var key := Tlb.Key(page, s.procs[i].pid);
            var (t', frame) := Tlb.Access(capacity, algorithm, t, key, Answer(c, s, key));
            && Current(c, s, t') && frame * c.pageSize + offset == Physical(c, s.procs[i], page, offset)
            && 0 <= Physical(c, s.procs[i], page, offset) < c.memorySize
  {
    AccessKeepsCurrent(c, capacity, algorithm, s, t, Tlb.Key(page, s.procs[i].pid));
    TranslatedIsPhysical(c, capacity, algorithm, s, t, i, page, offset);
    TranslationStaysInMemory(c, s, i, page, offset);
  }

  /** The running unit against the running module: the address of an allocated place is the
      one the process's frame gives, and the buffer stays current. */
  method TranslateAllocated(mmu: Tlb.Mmu, memory: Memory, processes: map<int, PageTable>, logicalAddress: nat, pid: int, ghost i: nat) returns (physicalAddress: int)
    requires memory.Valid() && mmu.Valid() && mmu.g == memory.c.g && mmu.pageSize == memory.c.pageSize && processes == Roots(memory)
    requires Current(memory.c, memory.Value(), mmu.Value())
    requires Allocated(memory.c, memory.Value(), i, logicalAddress / mmu.pageSize, logicalAddress % mmu.pageSize)
    requires memory.Value().procs[i].pid == pid
    modifies mmu
    ensures mmu.Valid() && Current(memory.c, old(memory.Value()), mmu.Value())
    ensures physicalAddress == Physical(memory.c, old(memory.Value()).procs[i], logicalAddress / mmu.pageSize, logicalAddress % mmu.pageSize)
    ensures 0 <= physicalAddress < memory.c.memorySize
  {
    ghost var page, offset := logicalAddress / mmu.pageSize, logicalAddress % mmu.pageSize;
    WalkAnswers(memory, Tlb.Key(page, pid));
    AccessIsPhysical(memory.c, mmu.entryCount, mmu.algorithm, memory.Value(), mmu.Value(), i, page, offset);
    physicalAddress := mmu.TranslateAddress(processes, logicalAddress, pid, memory.tables);
  }
}

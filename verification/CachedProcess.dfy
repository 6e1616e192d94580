/** The CPU's write-back cache against the memory module: what a cached run of one process
    leaves in its own image and in everybody else's. */
module CachedProcess {
  import opened Arithmetic
  import opened Bytes
  import opened FrameAllocator
  import opened Lists
  import opened PageTables
  import opened Store
  import opened StoreRuns
  import ClockCache
  import Tlb
  import Translation
  import WriteBack

  ghost predicate Resident(s: State, i: nat) {
    i < |s.procs| && s.procs[i].frames.Some? && !s.procs[i].suspended
  }

  /** How the CPU sees a resident process: through the frames its page table names. After a
      resumption these need not be the frames it has. */
  ghost function EnvOf(c: Config, s: State, i: nat, tlb: bool, algorithm: ClockCache.Algorithm): WriteBack.Env
    requires Resident(s, i)
  {
    WriteBack.Env(c.pageSize, NamedFrames(s.procs[i]), tlb, algorithm)
  }

  /** The frames it sees are those translation answers. */
  lemma FramesAreTranslated(c: Config, s: State, i: nat, page: nat, tlb: bool, algorithm: ClockCache.Algorithm)
    requires c.Valid() && Inv(c, s) && Resident(s, i) && TableNamed(c, s, s.procs[i]) && page < |s.procs[i].frames.value|
    ensures EnvOf(c, s, i, tlb, algorithm).frames[page] == Translation.Answer(c, s, Tlb.Key(page, s.procs[i].pid))
  {
    FoundAt(s, s.procs[i].pid, i);
    SmallModulo(page, c.g.Pages());
  }

  /** A resident process as a CPU sees it. */
  ghost predicate Seen(c: Config, s: State, i: nat, env: WriteBack.Env) {
    && c.Valid() && Inv(c, s) && Resident(s, i) && TableNamed(c, s, s.procs[i])
    && env == EnvOf(c, s, i, env.tlb, env.algorithm)
  }

  lemma NamedAreGood(c: Config, s: State, i: nat, env: WriteBack.Env)
    requires Seen(c, s, i, env)
    ensures WriteBack.GoodFrames(env, s.user)
  {
    forall p: nat | p < |env.frames|
      ensures HasFrame(s.user, env.pageSize, env.frames[p])
    {
      FramesFit(s.user, c.pageSize, |s.userBits|, env.frames[p]);
    }
  }

  /** A cached run of the process from an empty cache over the user space. */
  ghost predicate CachedRun(c: Config, s: State, i: nat, env: WriteBack.Env, w: WriteBack.State, ops: seq<WriteBack.Op>) {
    && Seen(c, s, i, env)
    && w.mem == s.user && WriteBack.Sane(env, w) && WriteBack.NothingCached(w) && WriteBack.AllInPage(env, ops)
  }

  /** An empty cache over the user space is a proper start. */
  lemma StartIsSane(c: Config, s: State, i: nat, env: WriteBack.Env, w: WriteBack.State)
    requires Seen(c, s, i, env)
    requires w.mem == s.user && WriteBack.WellFormed(env, w) && WriteBack.NothingCached(w)
    ensures WriteBack.Sane(env, w)
  {
    NamedAreGood(c, s, i, env);
  }

  /** The process's own writes of a run that were not refused, as requests to the memory module. */
  ghost function WritesOf(env: WriteBack.Env, w: WriteBack.State, ops: seq<WriteBack.Op>, pid: int): seq<Step>
    requires WriteBack.Sane(env, w) && WriteBack.AllInPage(env, ops)
  {
    if ops == [] then []
    else
      var front, op := ops[..|ops| - 1], ops[|ops| - 1];
      WritesOf(env, w, front, pid)
      + if op.Write? && WriteBack.Execute(env, WriteBack.RunCached(env, w, front), op).1 then [WriteStep(pid, op.page, op.offset, op.data)] else []
  }

  lemma {:induction false} OnlyOwnWrites(env: WriteBack.Env, w: WriteBack.State, ops: seq<WriteBack.Op>, pid: int)
    requires WriteBack.Sane(env, w) && WriteBack.AllInPage(env, ops)
    ensures KillStep(pid) !in WritesOf(env, w, ops, pid)
  {
    if ops != [] {
      OnlyOwnWrites(env, w, ops[..|ops| - 1], pid);
    }
  }

  lemma WriteIsStep(c: Config, t: State, i: nat, env: WriteBack.Env, op: WriteBack.Op)
    requires Seen(c, t, i, env) && Mapped(c, t.procs[i])
    requires op.Write? && WriteBack.InPage(env, op)
    ensures var step := WriteStep(t.procs[i].pid, op.page, op.offset, op.data);
            Legal(c, t, step) && StoreRuns.Apply(c, t, step) == t.(user := WriteBack.Direct(env, t.user, op))
  {
    FoundAt(t, t.procs[i].pid, i);
    MappedMeansNamed(c, t, t.procs[i]);
  }

  /** A state of the memory module that only differs in the user space. */
  ghost predicate Written(c: Config, s: State, steps: seq<Step>, user: seq<byte>)
    requires c.Valid()
  {
    LegalRun(c, s, steps) && Inv(c, Run(c, s, steps)) && Run(c, s, steps) == s.(user := user)
  }

  lemma WrittenFurther(c: Config, s: State, i: nat, env: WriteBack.Env, steps: seq<Step>, user: seq<byte>, op: WriteBack.Op)
    requires Seen(c, s, i, env) && Mapped(c, s.procs[i]) && Written(c, s, steps, user)
    requires op.Write? && WriteBack.InPage(env, op)
    ensures Written(c, s, steps + [WriteStep(s.procs[i].pid, op.page, op.offset, op.data)], WriteBack.Direct(env, user, op))
  {
    WriteIsStep(c, Run(c, s, steps), i, env, op);
    RunExtended(c, s, steps, WriteStep(s.procs[i].pid, op.page, op.offset, op.data));
  }

  /** Without cache the run is these requests to the memory module. */
  lemma {:induction false} DirectIsRun(c: Config, s: State, i: nat, env: WriteBack.Env, w: WriteBack.State, ops: seq<WriteBack.Op>)
    requires CachedRun(c, s, i, env, w, ops) && Mapped(c, s.procs[i])
    ensures Written(c, s, WritesOf(env, w, ops, s.procs[i].pid), WriteBack.RunDirect(env, w, ops))
  {
    if ops == [] {
      assert s.(user := w.mem) == s;
    } else {
      var front, op := ops[..|ops| - 1], ops[|ops| - 1];
      var steps := WritesOf(env, w, front, s.procs[i].pid);
      DirectIsRun(c, s, i, env, w, front);
      assert WriteBack.InPage(env, op);
      if op.Write? && WriteBack.Execute(env, WriteBack.RunCached(env, w, front), op).1 {
        WrittenFurther(c, s, i, env, steps, WriteBack.RunDirect(env, w, front), op);
      } else {
        assert WritesOf(env, w, ops, s.procs[i].pid) == steps;
      }
    }
  }

  /** The memory module after a cached run and its flush. */
  ghost function AfterFlush(s: State, env: WriteBack.Env, w: WriteBack.State, ops: seq<WriteBack.Op>): State
    requires WriteBack.Sane(env, w) && WriteBack.AllInPage(env, ops)
  {
    s.(user := WriteBack.Flush(env, WriteBack.RunCached(env, w, ops)).mem)
  }

  /** No other resident process has a frame this one's page table names. */
  ghost predicate NobodyElseHas(s: State, i: nat)
    requires Resident(s, i)
  {
    forall j: nat, k: nat | Resident(s, j) && j != i && k < |s.procs[j].frames.value| :: s.procs[j].frames.value[k] !in NamedFrames(s.procs[i])
  }

  /** While the table names the process's own frames, nobody else has them. */
  lemma MappedIsApart(c: Config, s: State, i: nat)
    requires c.Valid() && Inv(c, s) && Resident(s, i) && TableNamed(c, s, s.procs[i]) && Mapped(c, s.procs[i])
    ensures NobodyElseHas(s, i)
  {
    MappedMeansNamed(c, s, s.procs[i]);
    forall j: nat, k: nat | Resident(s, j) && j != i && k < |s.procs[j].frames.value|
      ensures s.procs[j].frames.value[k] !in NamedFrames(s.procs[i])
    {
      forall p: nat | p < |s.procs[i].frames.value|
        ensures s.procs[i].frames.value[p] != s.procs[j].frames.value[k]
      {
        FramesApart(c, s, i, p, j, k);
      }
    }
  }

  /** A page of another process lies outside the frames this one's table names. */
  lemma OtherPageOutside(c: Config, s: State, i: nat, env: WriteBack.Env, j: nat, k: nat, a: nat)
    requires Seen(c, s, i, env) && NobodyElseHas(s, i)
    requires Resident(s, j) && j != i && k < |s.procs[j].frames.value|
    requires var at := Times(s.procs[j].frames.value[k], c.pageSize); at <= a < at + c.pageSize
    ensures !WriteBack.InProcess(env, a)
  {
    var g := s.procs[j].frames.value[k];
    forall p: nat | p < |env.frames|
      ensures !(WriteBack.AddressOf(env, p, 0) <= a < WriteBack.AddressOf(env, p, 0) + c.pageSize)
    {
      assert env.frames[p] in NamedFrames(s.procs[i]);
      TimesGap(env.frames[p], g, c.pageSize);
      TimesGap(g, env.frames[p], c.pageSize);
    }
  }

  lemma SamePage(c: Config, mem: seq<byte>, mem': seq<byte>, g: nat)
    requires |mem| == |mem'|
    requires var at := Times(g, c.pageSize); forall a: nat | at <= a < at + c.pageSize && a < |mem| :: mem'[a] == mem[a]
    ensures PageAt(mem', c.pageSize, g) == PageAt(mem, c.pageSize, g)
  {
    if HasFrame(mem, c.pageSize, g) {
      forall b: nat | b < c.pageSize
        ensures Frame(mem', c.pageSize, g)[b] == Frame(mem, c.pageSize, g)[b]
      {
        var a := Times(g, c.pageSize) + b;
        assert mem'[a] == mem[a];
      }
    }
  }

  /** Whatever changes inside the frames a table names, no other image changes if nobody else
      has one of them. */
  lemma OutsideKeepsImage(c: Config, s: State, i: nat, env: WriteBack.Env, user: seq<byte>, j: nat)
    requires Seen(c, s, i, env) && NobodyElseHas(s, i) && WriteBack.SameOutside(env, s.user, user) && j < |s.procs| && j != i
    ensures Image(c, s.(user := user), s.procs[j]) == Image(c, s, s.procs[j])
  {
    if Resident(s, j) {
      forall k: nat | k < |s.procs[j].frames.value|
        ensures PageAt(user, c.pageSize, s.procs[j].frames.value[k]) == PageAt(s.user, c.pageSize, s.procs[j].frames.value[k])
      {
        var at := Times(s.procs[j].frames.value[k], c.pageSize);
        forall a: nat | at <= a < at + c.pageSize
          ensures !WriteBack.InProcess(env, a)
        {
          OtherPageOutside(c, s, i, env, j, k, a);
        }
        SamePage(c, s.user, user, s.procs[j].frames.value[k]);
      }
    }
  }

  /** Whatever the instructions, the cached run and its flush leave the image of every other
      process as it was, if nobody else has a frame the table names... */
  lemma OtherImagesKept(c: Config, s: State, i: nat, env: WriteBack.Env, w: WriteBack.State, ops: seq<WriteBack.Op>, j: nat)
    requires CachedRun(c, s, i, env, w, ops) && NobodyElseHas(s, i) && j < |s.procs| && j != i
    ensures Image(c, AfterFlush(s, env, w, ops), s.procs[j]) == Image(c, s, s.procs[j])
  {
    WriteBack.FlushedRunAgrees(env, w, ops);
    OutsideKeepsImage(c, s, i, env, AfterFlush(s, env, w, ops).user, j);
  }

  lemma UserChangeKeepsInv(c: Config, s: State, user: seq<byte>)
    requires c.Valid() && Inv(c, s) && |user| == |s.user|
    ensures Inv(c, s.(user := user))
  {
    forall l: nat | l < |s.procs|
      ensures ProcessFits(c, s.(user := user), s.procs[l])
    {
      assert ProcessFits(c, s, s.procs[l]);
    }
  }

  /** ...and ownership, conservation and sizes hold. */
  lemma FlushKeepsInv(c: Config, s: State, i: nat, env: WriteBack.Env, w: WriteBack.State, ops: seq<WriteBack.Op>)
    requires CachedRun(c, s, i, env, w, ops)
    ensures Inv(c, AfterFlush(s, env, w, ops))
  {
    UserChangeKeepsInv(c, s, AfterFlush(s, env, w, ops).user);
  }

  /** The cached run and its flush of a process whose page table names the frames it has are,
      for the memory module, the process's own writes, if and only if every byte swept into a modified part was right; so in particular when
      every write touches the modified part of its page. */
  lemma CachedRunIsWrites(c: Config, s: State, i: nat, env: WriteBack.Env, w: WriteBack.State, ops: seq<WriteBack.Op>)
    requires CachedRun(c, s, i, env, w, ops) && Mapped(c, s.procs[i])
    ensures var steps := WritesOf(env, w, ops, s.procs[i].pid);
            && LegalRun(c, s, steps)
            && (AfterFlush(s, env, w, ops) == Run(c, s, steps) <==> WriteBack.SweptRight(env, w, ops))
            && (WriteBack.AllTouch(env, w, ops) ==> AfterFlush(s, env, w, ops) == Run(c, s, steps))
  {
    DirectIsRun(c, s, i, env, w, ops);
    WriteBack.FlushedRunIsExact(env, w, ops);
    WriteBack.FlushedRunAgrees(env, w, ops);
  }

  /** The process's own image after a cached run whose writes touch: its writes on top of what
      it was, nothing else. */
  lemma OwnImageIsWrites(c: Config, s: State, i: nat, env: WriteBack.Env, w: WriteBack.State, ops: seq<WriteBack.Op>)
    requires CachedRun(c, s, i, env, w, ops) && Mapped(c, s.procs[i]) && (WriteBack.SweptRight(env, w, ops) || WriteBack.AllTouch(env, w, ops))
    ensures Image(c, AfterFlush(s, env, w, ops), s.procs[i])
         == ImageAfterRun(Image(c, s, s.procs[i]), WritesOf(env, w, ops, s.procs[i].pid), s.procs[i].pid)
  {
    var pid := s.procs[i].pid;
    CachedRunIsWrites(c, s, i, env, w, ops);
    OnlyOwnWrites(env, w, ops, pid);
    FoundAt(s, pid, i);
    ImageSurvivesRun(c, s, WritesOf(env, w, ops, pid), pid);
  }

  // --- When the page table is stale ----------------------------------------

  /** Whatever the process executes with cache, every other image stays. */
  ghost predicate LeavesOthersAlone(c: Config, s: State, i: nat, env: WriteBack.Env) {
    forall w: WriteBack.State, ops: seq<WriteBack.Op>, j: nat | CachedRun(c, s, i, env, w, ops) && j < |s.procs| && j != i ::
      Image(c, AfterFlush(s, env, w, ops), s.procs[j]) == Image(c, s, s.procs[j])
  }

  /** Whatever the process executes with cache, as long as its writes touch, its own image
      gets its writes. */
  ghost predicate GetsOwnWrites(c: Config, s: State, i: nat, env: WriteBack.Env)
    requires i < |s.procs|
  {
    forall w: WriteBack.State, ops: seq<WriteBack.Op> | CachedRun(c, s, i, env, w, ops) && WriteBack.AllTouch(env, w, ops) ::
      Image(c, AfterFlush(s, env, w, ops), s.procs[i])
      == ImageAfterRun(Image(c, s, s.procs[i]), WritesOf(env, w, ops, s.procs[i].pid), s.procs[i].pid)
  }

  /** A cache of one slot, empty. */
  function FreshCache(env: WriteBack.Env, user: seq<byte>): WriteBack.State {
    WriteBack.State(user, [ClockCache.Slot(false, 0, Zeros(env.pageSize), false, false, 0, 0)], 0)
  }

  lemma FreshIsChosen(e: ClockCache.Slot, algorithm: ClockCache.Algorithm)
    requires !e.valid
    ensures ClockCache.Search(algorithm, [e], 0).0 == 0
  {
  }

  /** The turn that writes one byte at the start of a page. */
  lemma OneWrite(c: Config, s: State, i: nat, env: WriteBack.Env, page: nat, b: byte)
    requires Seen(c, s, i, env) && page < |env.frames|
    ensures var w, ops := FreshCache(env, s.user), [WriteBack.Write(page, 0, [b])];
            && CachedRun(c, s, i, env, w, ops) && WriteBack.AllTouch(env, w, ops)
            && AfterFlush(s, env, w, ops) == s.(user := UserWrite(s.user, c.pageSize, Times(env.frames[page], c.pageSize), [b]))
            && WritesOf(env, w, ops, s.procs[i].pid) == [WriteStep(s.procs[i].pid, page, 0, [b])]
  {
    var w, op := FreshCache(env, s.user), WriteBack.Write(page, 0, [b]);
    StartIsSane(c, s, i, env, w);
    FreshIsChosen(w.slots[0], env.algorithm);
    assert [op][..0] == [];
    assert WriteBack.SlotOf(w.slots, page, 1) == 1;
    assert WriteBack.Execute(env, w, op).1;
    WriteBack.FlushedRunAgrees(env, w, [op]);
    assert WriteBack.RunDirect(env, w, [op]) == WriteBack.Direct(env, w.mem, op);
  }

  /** The value a byte is changed to when it must differ. */
  function Other(b: byte): byte {
    if b == 255 then 0 else b + 1
  }

  /** A turn of a process leaves every other image alone, whatever it executes, if and only if
      nobody else has a frame its page table names. */
  lemma OthersAreSafeExactly(c: Config, s: State, i: nat, env: WriteBack.Env)
    requires Seen(c, s, i, env)
    ensures LeavesOthersAlone(c, s, i, env) <==> NobodyElseHas(s, i)
  {
    if NobodyElseHas(s, i) {
      forall w: WriteBack.State, ops: seq<WriteBack.Op>, j: nat | CachedRun(c, s, i, env, w, ops) && j < |s.procs| && j != i
        ensures Image(c, AfterFlush(s, env, w, ops), s.procs[j]) == Image(c, s, s.procs[j])
      {
        OtherImagesKept(c, s, i, env, w, ops, j);
      }
    } else {
      var j: nat, k: nat :| Resident(s, j) && j != i && k < |s.procs[j].frames.value| && s.procs[j].frames.value[k] in NamedFrames(s.procs[i]);
      var page: nat :| page < |env.frames| && env.frames[page] == s.procs[j].frames.value[k];
      OtherIsHit(c, s, i, env, page, j, k);
    }
  }

  /** The byte written through the table's name for a page of another process shows there. */
  lemma OtherIsHit(c: Config, s: State, i: nat, env: WriteBack.Env, page: nat, j: nat, k: nat)
    requires Seen(c, s, i, env) && page < |env.frames|
    requires Resident(s, j) && j != i && k < |s.procs[j].frames.value| && s.procs[j].frames.value[k] == env.frames[page]
    ensures !LeavesOthersAlone(c, s, i, env)
  {
    var f := env.frames[page];
    OwnedFrame(c, s, j, k);
    var b := Other(Frame(s.user, c.pageSize, f)[0]);
    var w, ops := FreshCache(env, s.user), [WriteBack.Write(page, 0, [b])];
    OneWrite(c, s, i, env, page, b);
    WriteInFrame(s.user, c.pageSize, f, 0, [b], f);
    assert Image(c, AfterFlush(s, env, w, ops), s.procs[j])[k][0] == b;
    assert Image(c, s, s.procs[j])[k][0] != b;
  }

  /** A turn of a process gets its writes into its own image, whatever it executes, if and only
      if its page table names the frames it has. */
  lemma OwnWritesArriveExactly(c: Config, s: State, i: nat, env: WriteBack.Env)
    requires Seen(c, s, i, env)
    ensures GetsOwnWrites(c, s, i, env) <==> Mapped(c, s.procs[i])
  {
    MappedMeansNamed(c, s, s.procs[i]);
    if Mapped(c, s.procs[i]) {
      forall w: WriteBack.State, ops: seq<WriteBack.Op> | CachedRun(c, s, i, env, w, ops) && WriteBack.AllTouch(env, w, ops)
        ensures Image(c, AfterFlush(s, env, w, ops), s.procs[i])
             == ImageAfterRun(Image(c, s, s.procs[i]), WritesOf(env, w, ops, s.procs[i].pid), s.procs[i].pid)
      {
        OwnImageIsWrites(c, s, i, env, w, ops);
      }
    } else {
      var page: nat :| page < |env.frames| && env.frames[page] != s.procs[i].frames.value[page];
      OwnIsMissed(c, s, i, env, page);
    }
  }

  lemma OwnIsMissed(c: Config, s: State, i: nat, env: WriteBack.Env, page: nat)
    requires Seen(c, s, i, env) && page < |env.frames| && env.frames[page] != s.procs[i].frames.value[page]
    ensures !GetsOwnWrites(c, s, i, env)
  {
    var f, g, pid := env.frames[page], s.procs[i].frames.value[page], s.procs[i].pid;
    OwnedFrame(c, s, i, page);
    NamedAreGood(c, s, i, env);
    var b := Other(Frame(s.user, c.pageSize, g)[0]);
    var w, ops := FreshCache(env, s.user), [WriteBack.Write(page, 0, [b])];
    OneWrite(c, s, i, env, page, b);
    WriteInFrame(s.user, c.pageSize, f, 0, [b], g);
    var image, after := Image(c, s, s.procs[i]), Image(c, AfterFlush(s, env, w, ops), s.procs[i]);
    assert after[page] == image[page] && image[page][0] != b;
    OneWriteAfter(image, pid, page, b);
  }

  lemma OneWriteAfter(image: seq<seq<byte>>, pid: int, page: nat, b: byte)
    requires page < |image| && image[page] != []
    ensures var after := ImageAfterRun(image, [WriteStep(pid, page, 0, [b])], pid);
            |after| == |image| && after[page] != [] && after[page][0] == b
  {
    assert [WriteStep(pid, page, 0, [b])][..0] == [];
    assert ImageAfterRun(image, [], pid) == image;
  }

  lemma StaleTurnHits(c: Config, s: State, i: nat, j: nat, env: WriteBack.Env)
    requires Seen(c, s, i, env) && j < |s.procs| && j != i && TableNamed(c, s, s.procs[j])
    requires Mapped(c, s.procs[j]) && !Mapped(c, s.procs[i]) && s.procs[i].mapped == s.procs[j].mapped
    requires |s.procs[i].frames.value| == |s.procs[j].frames.value| > 0
    ensures !LeavesOthersAlone(c, s, i, env) && !GetsOwnWrites(c, s, i, env)
  {
    MappedMeansNamed(c, s, s.procs[j]);
    assert NamedFrames(s.procs[i]) == NamedFrames(s.procs[j]);
    OtherIsHit(c, s, i, env, 0, j, 0);
    OwnWritesArriveExactly(c, s, i, env);
  }

  lemma StaleTurn(c: Config, s: State, env: WriteBack.Env)
    requires c.Valid() && Inv(c, s) && TablesNamed(c, s) && TwoNameOneFrame(c, s)
    requires env == EnvOf(c, s, Find(s.procs, 1), env.tlb, env.algorithm)
    ensures !LeavesOthersAlone(c, s, Find(s.procs, 1), env) && !GetsOwnWrites(c, s, Find(s.procs, 1), env)
  {
    StaleTurnHits(c, s, Find(s.procs, 1), Find(s.procs, 2), env);
  }

  /** In every configuration with two frames: after create, suspend, create, resume a turn of
      the first process changes the second one's image, and its own image misses the write. */
  lemma StaleTurnReaches(c: Config, tlb: bool, algorithm: ClockCache.Algorithm)
    requires c.Valid() && 2 * c.pageSize <= c.memorySize
    ensures var steps := ASLEEP + [CreateStep(2, 1)] + [SwapInStep(1)];
            && LegalRun(c, Initial(c), steps)
            && var s := Run(c, Initial(c), steps);
            && Alive(s, 1) && Alive(s, 2) && Resident(s, Find(s.procs, 1))
            && var env := EnvOf(c, s, Find(s.procs, 1), tlb, algorithm);
            !LeavesOthersAlone(c, s, Find(s.procs, 1), env) && !GetsOwnWrites(c, s, Find(s.procs, 1), env)
  {
    var steps := ASLEEP + [CreateStep(2, 1)] + [SwapInStep(1)];
    ResumeReachesStale(c);
    InitialInv(c);
    RunKeepsInv(c, Initial(c), steps);
    RunKeepsNamed(c, Initial(c), steps);
    var s := Run(c, Initial(c), steps);
    StaleTurn(c, s, EnvOf(c, s, Find(s.procs, 1), tlb, algorithm));
  }

  // --- Turns and requests --------------------------------------------------

  /** The memory module serves a request, or a process has a turn on a CPU that ends by an
      interrupt: a cached run from an empty cache up to the flush. */
  datatype Action =
    | Request(step: Step)
    | Turn(pid: int, env: WriteBack.Env, w: WriteBack.State, ops: seq<WriteBack.Op>)

  /** A turn is of a process whose page table names its frames, as until its first suspension,
      and sweeps nothing wrong in. */
  ghost predicate Proper(c: Config, s: State, a: Action) {
    match a
    case Request(step) => Legal(c, s, step)
    case Turn(pid, env, w, ops) =>
      && Alive(s, pid) && CachedRun(c, s, Find(s.procs, pid), env, w, ops) && Mapped(c, Lookup(s, pid))
      && (WriteBack.AllTouch(env, w, ops) || WriteBack.SweptRight(env, w, ops))
  }

  ghost function Acted(c: Config, s: State, a: Action): State
    requires c.Valid() && Proper(c, s, a)
  {
    match a
    case Request(step) => StoreRuns.Apply(c, s, step)
    case Turn(pid, env, w, ops) => AfterFlush(s, env, w, ops)
  }

  /** An action as requests to the memory module. */
  ghost function StepsOf(c: Config, s: State, a: Action): seq<Step>
    requires c.Valid() && Proper(c, s, a)
  {
    match a
    case Request(step) => [step]
    case Turn(pid, env, w, ops) => WritesOf(env, w, ops, pid)
  }

  lemma ActedIsRun(c: Config, s: State, a: Action)
    requires c.Valid() && Inv(c, s) && Proper(c, s, a)
    ensures LegalRun(c, s, StepsOf(c, s, a)) && Acted(c, s, a) == Run(c, s, StepsOf(c, s, a)) && Inv(c, Acted(c, s, a))
  {
    match a {
      case Request(step) =>
        RunExtended(c, s, [], step);
        assert [] + [step] == [step];
      case Turn(pid, env, w, ops) =>
        CachedRunIsWrites(c, s, Find(s.procs, pid), env, w, ops);
        FlushKeepsInv(c, s, Find(s.procs, pid), env, w, ops);
    }
  }

  ghost predicate ProperRun(c: Config, s: State, actions: seq<Action>)
    requires c.Valid()
    decreases |actions|, 0
  {
    actions == [] ||
    (ProperRun(c, s, actions[..|actions| - 1]) && Proper(c, ActedUpTo(c, s, actions[..|actions| - 1]), actions[|actions| - 1]))
  }

  ghost function ActedUpTo(c: Config, s: State, actions: seq<Action>): State
    requires c.Valid() && ProperRun(c, s, actions)
    decreases |actions|, 1
  {
    if actions == [] then s else Acted(c, ActedUpTo(c, s, actions[..|actions| - 1]), actions[|actions| - 1])
  }

  /** All requests and writes of a run of actions, in order. */
  ghost function AllSteps(c: Config, s: State, actions: seq<Action>): seq<Step>
    requires c.Valid() && ProperRun(c, s, actions)
  {
    if actions == [] then []
    else
      var front := actions[..|actions| - 1];
      AllSteps(c, s, front) + StepsOf(c, ActedUpTo(c, s, front), actions[|actions| - 1])
  }

  lemma {:induction false} RunsFollow(c: Config, s: State, steps: seq<Step>, more: seq<Step>)
    requires c.Valid() && LegalRun(c, s, steps) && LegalRun(c, Run(c, s, steps), more)
    ensures LegalRun(c, s, steps + more) && Run(c, s, steps + more) == Run(c, Run(c, s, steps), more)
    decreases |more|
  {
    if more == [] {
      assert steps + more == steps;
    } else {
      var front, last := more[..|more| - 1], more[|more| - 1];
      RunsFollow(c, s, steps, front);
      RunOneMore(c, s, steps + front, last);
      LastApart(steps, more);
    }
  }

  /** Such turns, mixed with requests, are a run of requests and single writes to the memory
      module. */
  lemma {:induction false} ActionsAreRun(c: Config, s: State, actions: seq<Action>)
    requires c.Valid() && Inv(c, s) && ProperRun(c, s, actions)
    ensures var steps := AllSteps(c, s, actions);
            LegalRun(c, s, steps) && Run(c, s, steps) == ActedUpTo(c, s, actions) && Inv(c, ActedUpTo(c, s, actions))
    decreases |actions|
  {
    if actions != [] {
      var front := actions[..|actions| - 1];
      ActionsAreRun(c, s, front);
      ActedIsRun(c, ActedUpTo(c, s, front), actions[|actions| - 1]);
      RunsFollow(c, s, AllSteps(c, s, front), StepsOf(c, ActedUpTo(c, s, front), actions[|actions| - 1]));
    }
  }

  /** So through these turns and all requests a process's image changes by its own writes
      alone. */
  lemma ImageSurvivesTurns(c: Config, s: State, actions: seq<Action>, pid: int)
    requires c.Valid() && Inv(c, s) && ProperRun(c, s, actions) && Alive(s, pid) && KillStep(pid) !in AllSteps(c, s, actions)
    ensures var s' := ActedUpTo(c, s, actions);
            Alive(s', pid) && Image(c, s', Lookup(s', pid)) == ImageAfterRun(Image(c, s, Lookup(s, pid)), AllSteps(c, s, actions), pid)
  {
    ActionsAreRun(c, s, actions);
    ImageSurvivesRun(c, s, AllSteps(c, s, actions), pid);
  }
}

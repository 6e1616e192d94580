/** The memory module's store: user space, swap file, both frame bitmaps and the process
    list, with creation, destruction, suspension, resumption and writes as functions. */
module Store {
  import opened Arithmetic
  import opened Bytes
  import opened FrameAllocator
  import opened Lists
  import opened PageTables

  const SWAP_FRAMES := 4096

  datatype Config = Config(g: Geometry, pageSize: nat, memorySize: nat) {
    ghost predicate Valid() {
      g.Valid() && pageSize > 0
    }

    function TotalFrames(): nat
      requires pageSize > 0
    {
      memorySize / pageSize
    }

    /** As many frames as fit the memory: a rest shorter than a page is not used. */
    ghost predicate WholeFrames(total: nat) {
      Times(total, pageSize) <= memorySize < Times(total, pageSize) + pageSize
    }
  }

  /** A process: the frames it has, in user space or in swap, and what its page table holds
      (one frame number per page of the address space). */
  datatype Process = Process(pid: int, size: int, suspended: bool, frames: Option<seq<nat>>, mapped: seq<int>)

  datatype State = State(user: seq<byte>, swap: seq<byte>,
                         userBits: seq<bool>, userFree: int, swapBits: seq<bool>, swapFree: int,
                         procs: seq<Process>)

  /** The position of the first process with a pid from `from` on; the list's length if there is none. */
  function FindFrom(procs: seq<Process>, pid: int, from: nat): (i: nat)
    requires from <= |procs|
    ensures from <= i <= |procs| && (i < |procs| ==> procs[i].pid == pid)
    decreases |procs| - from
  {
    if from == |procs| || procs[from].pid == pid then from else FindFrom(procs, pid, from + 1)
  }

  function Find(procs: seq<Process>, pid: int): (i: nat)
    ensures i <= |procs| && (i < |procs| ==> procs[i].pid == pid)
  {
    FindFrom(procs, pid, 0)
  }

  // --- Operations ----------------------------------------------------------

  /** The size rounded up to pages, as `ceil` does: towards zero for a negative size. */
  function PagesNeeded(size: int, pageSize: nat): int
    requires pageSize > 0
  {
    if size >= 0 then CeilDiv(size, pageSize) else -(-size / pageSize)
  }

  function WithoutFrames(total: nat, frames: seq<nat>): seq<int> {
    frames + seq(if total < |frames| then 0 else total - |frames|, _ => INVALID_FRAME_NUMBER)
  }

  function Create(c: Config, s: State, pid: int, size: int): (State, bool)
    requires c.pageSize > 0
  {
    var pages := PagesNeeded(size, c.pageSize);
    if size == 0 then (s.(procs := s.procs + [Process(pid, 0, false, None, [])]), true)
    else if s.userFree < pages then (s, false)
    else
      var granted := Granted(s.userBits, s.userFree, pages);
      if granted.None? || !Within(granted.value, |s.userBits|) then (s, false)
      else
        var frames := granted.value;
        var taken := s.(userBits := Marked(s.userBits, frames, true), userFree := s.userFree - |frames|);
        if |frames| != pages then (taken, false)
        else if pages > 0 && AssignedCount(c.g.Pages(), |frames|, pages) == pages then
          (taken.(procs := s.procs + [Process(pid, size, false, Some(frames), WithoutFrames(c.g.Pages(), frames))]), true)
        else
          (taken.(userBits := Marked(taken.userBits, frames, false), userFree := s.userFree), false)
  }

  function Kill(s: State, pid: int): (State, bool) {
    var i := Find(s.procs, pid);
    if i == |s.procs| then (s, false)
    else
      var p, rest := s.procs[i], s.(procs := Without(s.procs, i));
      if p.size == 0 || p.frames.None? then (rest, true)
      else
        (rest.(userBits := if Within(p.frames.value, |s.userBits|) then Marked(s.userBits, p.frames.value, false) else s.userBits,
               userFree := s.userFree + |p.frames.value|), true)
  }

  /** The swap file after the first `k` pages were copied out of the user space. */
  function CopyOut(user: seq<byte>, file: seq<byte>, pageSize: nat, from: seq<nat>, to: seq<nat>, k: nat): seq<byte>
    requires k <= |from| && k <= |to|
  {
    if k == 0 then file
    else FileWrite(CopyOut(user, file, pageSize, from, to, k - 1), Times(to[k - 1], pageSize),
                   UserRead(user, Times(from[k - 1], pageSize), pageSize))
  }

  /** The user space after the first `k` pages were copied in from the swap file. */
  function CopyIn(file: seq<byte>, user: seq<byte>, pageSize: nat, from: seq<nat>, to: seq<nat>, k: nat): (user': seq<byte>)
    requires k <= |from| && k <= |to| && forall i: nat | i < k :: HasFrame(file, pageSize, from[i])
    ensures |user'| == |user|
  {
    if k == 0 then user
    else UserWrite(CopyIn(file, user, pageSize, from, to, k - 1), pageSize, Times(to[k - 1], pageSize), Frame(file, pageSize, from[k - 1]))
  }

  /** How many pages of a list can be read before the file ends. */
  function Readable(file: seq<byte>, pageSize: nat, frames: seq<nat>, from: nat): (k: nat)
    requires from <= |frames|
    ensures from <= k <= |frames|
    ensures forall i: nat | from <= i < k :: HasFrame(file, pageSize, frames[i])
    ensures k < |frames| ==> !HasFrame(file, pageSize, frames[k])
    decreases |frames| - from
  {
    if from == |frames| || !HasFrame(file, pageSize, frames[from]) then from
    else Readable(file, pageSize, frames, from + 1)
  }

  /** The swap file after `k` pages were copied out and the write of the next one failed with
      only its first bytes written. */
  function CopyOutCut(user: seq<byte>, file: seq<byte>, pageSize: nat, from: seq<nat>, to: seq<nat>, k: nat, partial: nat): seq<byte>
    requires k < |from| && k < |to|
  {
    FileWrite(CopyOut(user, file, pageSize, from, to, k), Times(to[k], pageSize),
              UserRead(user, Times(from[k], pageSize), pageSize)[..Min(partial, pageSize)])
  }

  /** Moves a resident process's pages to swap. `writes` is how many page writes the file
      takes before one fails, `partial` how many bytes the failing one still writes. */
  function MoveOut(c: Config, s: State, i: nat, writes: nat, partial: nat): (State, bool)
    requires i < |s.procs| && s.procs[i].frames.Some?
  {
    var p, frames := s.procs[i], s.procs[i].frames.value;
    var granted := Granted(s.swapBits, s.swapFree, |frames|);
    if granted.None? || !Within(granted.value, |s.swapBits|) then (s, false)
    else
      var to := granted.value;
      var taken := s.(swapBits := Marked(s.swapBits, to, true), swapFree := s.swapFree - |to|);
      if |to| < |frames| then (taken, false)
      else if writes < |frames| then (taken.(swap := CopyOutCut(s.user, s.swap, c.pageSize, frames, to, writes, partial)), false)
      else
        (taken.(swap := CopyOut(s.user, s.swap, c.pageSize, frames, to, |frames|),
                userBits := if Within(frames, |s.userBits|) then Marked(s.userBits, frames, false) else s.userBits,
                userFree := s.userFree + |frames|,
                procs := s.procs[i := p.(suspended := true, frames := Some(to))]), true)
  }

  function SwapOut(c: Config, s: State, pid: int, writes: nat, partial: nat): (State, bool) {
    var i := Find(s.procs, pid);
    if i == |s.procs| then (s, false)
    else if s.procs[i].suspended then (s, true)
    else if s.procs[i].frames.None? then (s.(procs := s.procs[i := s.procs[i].(suspended := true)]), true)
    else MoveOut(c, s, i, writes, partial)
  }

  /** Moves a suspended process's pages back to the user space. The page table is not written. */
  function MoveIn(c: Config, s: State, i: nat): (State, bool)
    requires i < |s.procs| && s.procs[i].frames.Some?
  {
    var p, frames := s.procs[i], s.procs[i].frames.value;
    var granted := Granted(s.userBits, s.userFree, |frames|);
    if granted.None? || !Within(granted.value, |s.userBits|) then (s, false)
    else
      var to := granted.value;
      var taken := s.(userBits := Marked(s.userBits, to, true), userFree := s.userFree - |to|);
      if |to| < |frames| then (taken, false)
      else
        var k := Readable(s.swap, c.pageSize, frames, 0);
        var copied := taken.(user := CopyIn(s.swap, s.user, c.pageSize, frames, to, k));
        if k < |frames| then (copied.(userBits := Marked(taken.userBits, to, false), userFree := s.userFree), false)
        else
          (copied.(swapBits := if Within(frames, |s.swapBits|) then Marked(s.swapBits, frames, false) else s.swapBits,
                   swapFree := s.swapFree + |frames|,
                   procs := s.procs[i := p.(suspended := false, frames := Some(to))]), true)
  }

  function SwapIn(c: Config, s: State, pid: int): (State, bool) {
    var i := Find(s.procs, pid);
    if i == |s.procs| then (s, false)
    else if !s.procs[i].suspended then (s, true)
    else if s.procs[i].frames.None? || s.procs[i].frames.value == [] then
      (s.(procs := s.procs[i := s.procs[i].(suspended := false)]), true)
    else MoveIn(c, s, i)
  }

  // --- Invariant -----------------------------------------------------------

  /** Stands for every frame in the counts below. */
  const ANY := -1

  /** How often a frame is among those a process has on one side: in user space, or in
      swap when it is suspended. */
  ghost function Count(p: Process, swapped: bool, f: int): nat {
    if p.frames.None? || p.suspended != swapped then 0 else CountIn(p.frames.value, f)
  }

  ghost function CountIn(frames: seq<nat>, f: int): nat {
    if f == ANY then |frames| else if f < 0 then 0 else multiset(frames)[f]
  }

  ghost function CountUpTo(procs: seq<Process>, n: nat, swapped: bool, f: int): nat
    requires n <= |procs|
  {
    if n == 0 then 0 else CountUpTo(procs, n - 1, swapped, f) + Count(procs[n - 1], swapped, f)
  }

  ghost function Owned(procs: seq<Process>, swapped: bool, f: int): nat {
    CountUpTo(procs, |procs|, swapped, f)
  }

  /** Every used frame of a bitmap has one owner, every free one none, and the counter
      and the owned frames add up to all frames. */
  ghost predicate Accounted(procs: seq<Process>, swapped: bool, bits: seq<bool>, free: int) {
    && free == |Clear(bits)|
    && free + Owned(procs, swapped, ANY) == |bits|
    && forall f: nat :: Owned(procs, swapped, f) == if f < |bits| && bits[f] then 1 else 0
  }

  ghost predicate UniquePids(procs: seq<Process>) {
    forall i: nat, j: nat | i < j < |procs| :: procs[i].pid != procs[j].pid
  }

  /** The pages of suspended processes are within the swap file, and a process without
      pages has no frames. */
  ghost predicate ProcessFits(c: Config, s: State, p: Process) {
    && (p.frames.Some? && p.suspended ==> forall i: nat | i < |p.frames.value| :: HasFrame(s.swap, c.pageSize, p.frames.value[i]))
    && (p.size == 0 ==> p.frames.None?)
  }

  ghost predicate Inv(c: Config, s: State)
    requires c.Valid()
  {
    && |s.user| == c.memorySize && c.WholeFrames(|s.userBits|) && |s.swapBits| == SWAP_FRAMES
    && Accounted(s.procs, false, s.userBits, s.userFree)
    && Accounted(s.procs, true, s.swapBits, s.swapFree)
    && UniquePids(s.procs)
    && forall i: nat | i < |s.procs| :: ProcessFits(c, s, s.procs[i])
  }

  ghost function Initial(c: Config): State
    requires c.Valid()
  {
    State(Zeros(c.memorySize), [], seq(c.TotalFrames(), _ => false), c.TotalFrames(), seq(SWAP_FRAMES, _ => false), SWAP_FRAMES, [])
  }

  lemma TotalFits(c: Config)
    requires c.Valid()
    ensures c.WholeFrames(c.TotalFrames())
  {
    TimesIsProduct(c.TotalFrames(), c.pageSize);
    assert c.memorySize == c.pageSize * c.TotalFrames() + c.memorySize % c.pageSize;
  }

  lemma InitialInv(c: Config)
    requires c.Valid()
    ensures Inv(c, Initial(c))
  {
    var s := Initial(c);
    assert SetBits(s.userBits) == {} && SetBits(s.swapBits) == {};
    TotalFits(c);
    ClearCount(s.userBits);
    ClearCount(s.swapBits);
  }
  // --- Ownership under changes of the list ---------------------------------

  lemma {:induction false} CountSame(procs: seq<Process>, procs': seq<Process>, n: nat, swapped: bool, f: int)
    requires n <= |procs| && n <= |procs'| && forall k: nat | k < n :: procs[k] == procs'[k]
    ensures CountUpTo(procs', n, swapped, f) == CountUpTo(procs, n, swapped, f)
  {
    if n > 0 {
      CountSame(procs, procs', n - 1, swapped, f);
    }
  }

  lemma OwnedAppend(procs: seq<Process>, p: Process, swapped: bool, f: int)
    ensures Owned(procs + [p], swapped, f) == Owned(procs, swapped, f) + Count(p, swapped, f)
  {
    CountSame(procs, procs + [p], |procs|, swapped, f);
  }

  lemma {:induction false} CountRemove(procs: seq<Process>, i: nat, n: nat, swapped: bool, f: int)
    requires i < n <= |procs|
    ensures CountUpTo(procs, n, swapped, f) == CountUpTo(Without(procs, i), n - 1, swapped, f) + Count(procs[i], swapped, f)
  {
    if n == i + 1 {
      CountSame(procs, Without(procs, i), i, swapped, f);
    } else {
      CountRemove(procs, i, n - 1, swapped, f);
    }
  }

  lemma OwnedReplace(procs: seq<Process>, i: nat, p: Process, swapped: bool, f: int)
    requires i < |procs|
    ensures Owned(procs[i := p], swapped, f) == Owned(procs, swapped, f) - Count(procs[i], swapped, f) + Count(p, swapped, f)
    ensures Owned(Without(procs, i), swapped, f) == Owned(procs, swapped, f) - Count(procs[i], swapped, f)
    ensures Owned(procs, swapped, f) >= Count(procs[i], swapped, f)
  {
    CountRemove(procs, i, |procs|, swapped, f);
    CountRemove(procs[i := p], i, |procs|, swapped, f);
    assert Without(procs[i := p], i) == Without(procs, i);
  }

  /** Two processes own their frames separately. */
  lemma OwnedPair(procs: seq<Process>, i: nat, j: nat, swapped: bool, f: int)
    requires i < j < |procs|
    ensures Owned(procs, swapped, f) >= Count(procs[i], swapped, f) + Count(procs[j], swapped, f)
  {
    CountRemove(procs, j, |procs|, swapped, f);
    CountRemove(Without(procs, j), i, |procs| - 1, swapped, f);
  }

  lemma {:induction false} FindUnique(procs: seq<Process>, i: nat, from: nat)
    requires UniquePids(procs) && from <= i < |procs|
    ensures FindFrom(procs, procs[i].pid, from) == i
    decreases i - from
  {
    if from < i {
      FindUnique(procs, i, from + 1);
    }
  }

  // --- Bitmap against ownership --------------------------------------------

  lemma CountOnce(frames: seq<nat>, f: nat)
    requires NoDuplicates(frames)
    ensures CountIn(frames, f) == if f in frames then 1 else 0
  {
    DistinctCount(frames);
  }

  /** Frames just granted become a process's. */
  lemma AccountTaken(procs: seq<Process>, procs': seq<Process>, swapped: bool, bits: seq<bool>, free: int, frames: seq<nat>)
    requires Accounted(procs, swapped, bits, free)
    requires NoDuplicates(frames) && Within(frames, |bits|) && forall i: nat | i < |frames| :: !bits[frames[i]]
    requires forall f: int :: Owned(procs', swapped, f) == Owned(procs, swapped, f) + CountIn(frames, f)
    ensures Accounted(procs', swapped, Marked(bits, frames, true), free - |frames|)
  {
    MarkUsed(bits, frames);
    MarkedAt(bits, frames, true);
    forall f: nat {
      CountOnce(frames, f);
    }
    assert CountIn(frames, ANY) == |frames|;
  }

  /** A process's frames become free. */
  lemma AccountReleased(procs: seq<Process>, procs': seq<Process>, swapped: bool, bits: seq<bool>, free: int, frames: seq<nat>)
    requires Accounted(procs, swapped, bits, free)
    requires forall f: int :: Owned(procs', swapped, f) + CountIn(frames, f) == Owned(procs, swapped, f)
    ensures NoDuplicates(frames) && Within(frames, |bits|)
    ensures Accounted(procs', swapped, Marked(bits, frames, false), free + |frames|)
  {
    forall f: nat
      ensures multiset(frames)[f] <= multiset(SetBits(bits))[f]
    {
      assert CountIn(frames, f) == multiset(frames)[f] <= Owned(procs, swapped, f);
    }
    MarkFree(bits, frames);
    MarkedAt(bits, frames, false);
    forall f: nat {
      CountOnce(frames, f);
    }
    assert CountIn(frames, ANY) == |frames|;
  }

  /** A used frame of a process: its bit is set and its page is in the memory it lies in. */
  lemma OwnedFrame(c: Config, s: State, i: nat, k: nat)
    requires c.Valid() && Inv(c, s) && i < |s.procs| && s.procs[i].frames.Some? && k < |s.procs[i].frames.value|
    ensures var bits := if s.procs[i].suspended then s.swapBits else s.userBits;
            var f := s.procs[i].frames.value[k];
            f < |bits| && bits[f] && HasFrame(if s.procs[i].suspended then s.swap else s.user, c.pageSize, f)
  {
    var p := s.procs[i];
    var f := p.frames.value[k];
    OwnedReplace(s.procs, i, p, p.suspended, f);
    assert f in multiset(p.frames.value);
    assert ProcessFits(c, s, p);
    if !p.suspended {
      FramesFit(s.user, c.pageSize, |s.userBits|, f);
    }
  }

  /** Frames of two processes on the same side are different, and so are a process's own. */
  lemma FramesApart(c: Config, s: State, i: nat, k: nat, j: nat, l: nat)
    requires c.Valid() && Inv(c, s) && i < |s.procs| && j < |s.procs|
    requires s.procs[i].frames.Some? && k < |s.procs[i].frames.value|
    requires s.procs[j].frames.Some? && l < |s.procs[j].frames.value|
    requires s.procs[i].suspended == s.procs[j].suspended && (i != j || k != l)
    ensures s.procs[i].frames.value[k] != s.procs[j].frames.value[l]
  {
    var p, q := s.procs[i], s.procs[j];
    var f := p.frames.value[k];
    OwnedReplace(s.procs, i, p, p.suspended, f);
    if i == j {
      OwnFramesDistinct(c, s, i);
    } else {
      OwnedPair(s.procs, if i < j then i else j, if i < j then j else i, p.suspended, f);
      assert f in multiset(p.frames.value);
      assert q.frames.value[l] in multiset(q.frames.value);
    }
  }

  lemma OwnFramesDistinct(c: Config, s: State, i: nat)
    requires c.Valid() && Inv(c, s) && i < |s.procs| && s.procs[i].frames.Some?
    ensures NoDuplicates(s.procs[i].frames.value)
  {
    var p := s.procs[i];
    forall f | f in p.frames.value
      ensures multiset(p.frames.value)[f] == 1
    {
      OwnedReplace(s.procs, i, p, p.suspended, f);
      assert CountIn(p.frames.value, f) == multiset(p.frames.value)[f];
    }
    OncePerFrame(p.frames.value);
  }

  // --- Copies --------------------------------------------------------------

  /** Suspending puts every page into its swap frame... */
  lemma {:induction false} CopyOutAt(user: seq<byte>, file: seq<byte>, pageSize: nat, from: seq<nat>, to: seq<nat>, k: nat, i: nat)
    requires pageSize > 0 && i < k <= |from| && k <= |to| && NoDuplicates(to) && HasFrame(user, pageSize, from[i])
    ensures HasFrame(CopyOut(user, file, pageSize, from, to, k), pageSize, to[i])
    ensures Frame(CopyOut(user, file, pageSize, from, to, k), pageSize, to[i]) == Frame(user, pageSize, from[i])
    decreases k
  {
    var page := UserRead(user, Times(from[k - 1], pageSize), pageSize);
    var before := CopyOut(user, file, pageSize, from, to, k - 1);
    if i < k - 1 {
      CopyOutAt(user, file, pageSize, from, to, k - 1, i);
      FileWriteElsewhere(before, pageSize, to[k - 1], page, to[i]);
    } else {
      UserReadFrame(user, pageSize, from[i]);
      FileWriteFrame(before, pageSize, to[i], page);
    }
  }

  /** ...and no other frame changes. */
  lemma {:induction false} CopyOutElsewhere(user: seq<byte>, file: seq<byte>, pageSize: nat, from: seq<nat>, to: seq<nat>, k: nat, g: nat)
    requires k <= |from| && k <= |to| && HasFrame(file, pageSize, g) && forall j: nat | j < k :: to[j] != g
    ensures HasFrame(CopyOut(user, file, pageSize, from, to, k), pageSize, g)
    ensures Frame(CopyOut(user, file, pageSize, from, to, k), pageSize, g) == Frame(file, pageSize, g)
  {
    if k > 0 {
      CopyOutElsewhere(user, file, pageSize, from, to, k - 1, g);
      var page := UserRead(user, Times(from[k - 1], pageSize), pageSize);
      FileWriteElsewhere(CopyOut(user, file, pageSize, from, to, k - 1), pageSize, to[k - 1], page, g);
    }
  }

  /** Resuming puts every page into its user frame... */
  lemma {:induction false} CopyInAt(file: seq<byte>, user: seq<byte>, pageSize: nat, from: seq<nat>, to: seq<nat>, k: nat, i: nat)
    requires i < k <= |from| && k <= |to| && NoDuplicates(to) && HasFrame(user, pageSize, to[i])
    requires forall j: nat | j < k :: HasFrame(file, pageSize, from[j]) && HasFrame(user, pageSize, to[j])
    ensures Frame(CopyIn(file, user, pageSize, from, to, k), pageSize, to[i]) == Frame(file, pageSize, from[i])
    decreases k
  {
    UserWriteFrame(CopyIn(file, user, pageSize, from, to, k - 1), pageSize, to[k - 1], Frame(file, pageSize, from[k - 1]), to[i]);
    if i < k - 1 {
      CopyInAt(file, user, pageSize, from, to, k - 1, i);
    }
  }

  /** ...and no other frame changes. */
  lemma {:induction false} CopyInElsewhere(file: seq<byte>, user: seq<byte>, pageSize: nat, from: seq<nat>, to: seq<nat>, k: nat, g: nat)
    requires k <= |from| && k <= |to| && HasFrame(user, pageSize, g)
    requires forall j: nat | j < k :: HasFrame(file, pageSize, from[j]) && HasFrame(user, pageSize, to[j]) && to[j] != g
    ensures Frame(CopyIn(file, user, pageSize, from, to, k), pageSize, g) == Frame(user, pageSize, g)
  {
    if k > 0 {
      CopyInElsewhere(file, user, pageSize, from, to, k - 1, g);
      UserWriteFrame(CopyIn(file, user, pageSize, from, to, k - 1), pageSize, to[k - 1], Frame(file, pageSize, from[k - 1]), g);
    }
  }
}

/** What every operation of the memory module keeps, and what survives whole runs: frame
    ownership, conservation of frames, and each process's logical image. */
module StoreRuns {
  import opened Arithmetic
  import opened Bytes
  import opened FrameAllocator
  import opened Lists
  import opened PageTables
  import opened Store

  // --- Logical images ------------------------------------------------------

  function PageAt(mem: seq<byte>, pageSize: nat, f: nat): seq<byte> {
    if HasFrame(mem, pageSize, f) then Frame(mem, pageSize, f) else []
  }

  /** A process's pages in order, read from wherever they are. */
  ghost function Image(c: Config, s: State, p: Process): (pages: seq<seq<byte>>)
    ensures |pages| == if p.frames.Some? then |p.frames.value| else 0
  {
    if p.frames.None? then []
    else seq(|p.frames.value|, i requires 0 <= i < |p.frames.value| =>
               PageAt(if p.suspended then s.swap else s.user, c.pageSize, p.frames.value[i]))
  }

  /** The same processes in the same order, each with the image it had. */
  ghost predicate ImagesKept(c: Config, s: State, s': State) {
    && |s'.procs| == |s.procs|
    && forall j: nat | j < |s.procs| :: s'.procs[j].pid == s.procs[j].pid && Image(c, s', s'.procs[j]) == Image(c, s, s.procs[j])
  }

  // --- Creation ------------------------------------------------------------

  /** Creation succeeds for size 0 always, and for a positive size exactly when the pages,
      rounded up, are free and fit the page table. It takes the lowest free frames, in
      ascending order, and puts them into the first pages of the table. A refused
      creation changes nothing. */
  lemma CreateIsExact(c: Config, s: State, pid: int, size: int)
    requires c.Valid() && Inv(c, s)
    ensures var (s', ok) := Create(c, s, pid, size);
            && (ok <==> size == 0 || (size > 0 && CeilDiv(size, c.pageSize) <= s.userFree && CeilDiv(size, c.pageSize) <= c.g.Pages()))
            && (!ok ==> s' == s)
            && (ok && size != 0 ==>
                  var n := CeilDiv(size, c.pageSize);
                  n <= |Clear(s.userBits)| && Created(c, s, s', pid, size, Clear(s.userBits)[..n]))
  {
    if size < 0 {
      CreateNegative(c, s, pid, size);
    } else if size > 0 {
      CreatePositive(c, s, pid, size);
    }
  }

  lemma CreateNegative(c: Config, s: State, pid: int, size: int)
    requires c.Valid() && Inv(c, s) && size < 0
    ensures Create(c, s, pid, size) == (s, false)
  {
    var pages := PagesNeeded(size, c.pageSize);
    assert pages <= 0;
    GrantedFrames(s.userBits, s.userFree, pages);
    RollbackRestores(s.userBits, []);
  }

  lemma CreatePositive(c: Config, s: State, pid: int, size: int)
    requires c.Valid() && Inv(c, s) && size > 0
    ensures var (s', ok) := Create(c, s, pid, size);
            var n := CeilDiv(size, c.pageSize);
            && n > 0 && (ok <==> n <= s.userFree && n <= c.g.Pages())
            && (!ok ==> s' == s)
            && (ok ==> n <= |Clear(s.userBits)| && Created(c, s, s', pid, size, Clear(s.userBits)[..n]))
  {
    var n := CeilDiv(size, c.pageSize);
    CeilDivLeast(size, c.pageSize, 0);
    GrantedFrames(s.userBits, s.userFree, n);
    if n <= s.userFree {
      var frames := Granted(s.userBits, s.userFree, n).value;
      RollbackRestores(s.userBits, frames);
    }
  }

  /** The state after a process was given the frames of a list. */
  ghost predicate Created(c: Config, s: State, s': State, pid: int, size: int, frames: seq<nat>) {
    && Within(frames, |s.userBits|)
    && s' == s.(userBits := Marked(s.userBits, frames, true), userFree := s.userFree - |frames|,
                procs := s.procs + [Process(pid, size, false, Some(frames), WithoutFrames(c.g.Pages(), frames))])
  }

  /** Returning frames that were free before restores the bitmap. */
  lemma RollbackRestores(bits: seq<bool>, frames: seq<nat>)
    requires Within(frames, |bits|) && forall i: nat | i < |frames| :: !bits[frames[i]]
    ensures Marked(Marked(bits, frames, true), frames, false) == bits
  {
    MarkedAt(bits, frames, true);
    MarkedAt(Marked(bits, frames, true), frames, false);
  }

  lemma CreateKeeps(c: Config, s: State, pid: int, size: int)
    requires c.Valid() && Inv(c, s) && Find(s.procs, pid) == |s.procs|
    ensures var (s', ok) := Create(c, s, pid, size);
            && Inv(c, s')
            && (ok ==> |s'.procs| == |s.procs| + 1 && s'.procs[..|s.procs|] == s.procs && s'.procs[|s.procs|].pid == pid)
            && s'.user == s.user && s'.swap == s.swap
  {
    var (s', ok) := Create(c, s, pid, size);
    CreateIsExact(c, s, pid, size);
    if ok {
      var p := s'.procs[|s.procs|];
      assert s'.procs == s.procs + [p];
      forall swapped: bool, f: int
        ensures Owned(s'.procs, swapped, f) == Owned(s.procs, swapped, f) + Count(p, swapped, f)
      {
        OwnedAppend(s.procs, p, swapped, f);
      }
      NewPid(s.procs, pid, 0);
      if size > 0 {
        GrantedFrames(s.userBits, s.userFree, CeilDiv(size, c.pageSize));
        AccountTaken(s.procs, s'.procs, false, s.userBits, s.userFree, p.frames.value);
      }
      forall i: nat | i < |s'.procs|
        ensures ProcessFits(c, s', s'.procs[i])
      {
        assert i < |s.procs| ==> ProcessFits(c, s, s.procs[i]);
      }
    }
  }

  lemma {:induction false} NewPid(procs: seq<Process>, pid: int, from: nat)
    requires from <= |procs| && FindFrom(procs, pid, from) == |procs|
    ensures forall i: nat | from <= i < |procs| :: procs[i].pid != pid
    decreases |procs| - from
  {
    if from < |procs| {
      NewPid(procs, pid, from + 1);
    }
  }

  // --- Destruction ---------------------------------------------------------

  /** Destroying a process keeps the invariant exactly when the process has no pages in
      swap: its frame numbers are always released in the user space. */
  lemma KillKeepsExactly(c: Config, s: State, pid: int)
    requires c.Valid() && Inv(c, s)
    ensures var i := Find(s.procs, pid);
            var (s', ok) := Kill(s, pid);
            && (ok <==> i < |s.procs|) && (!ok ==> s' == s)
            && (ok ==> (Inv(c, s') <==> !(s.procs[i].suspended && s.procs[i].frames.Some? && s.procs[i].frames.value != [])))
  {
    var i := Find(s.procs, pid);
    var (s', ok) := Kill(s, pid);
    if ok {
      var p := s.procs[i];
      forall swapped: bool, f: int
        ensures Owned(s'.procs, swapped, f) + Count(p, swapped, f) == Owned(s.procs, swapped, f)
      {
        OwnedReplace(s.procs, i, p, swapped, f);
      }
      forall j: nat | j < |s'.procs|
        ensures ProcessFits(c, s', s'.procs[j])
      {
        assert ProcessFits(c, s, s.procs[if j < i then j else j + 1]);
      }
      assert ProcessFits(c, s, p);
      if p.frames.Some? && !p.suspended {
        AccountReleased(s.procs, s'.procs, false, s.userBits, s.userFree, p.frames.value);
      } else if p.frames.Some? && p.frames.value != [] {
        assert Count(p, true, ANY) > 0;
        assert s'.swapFree + Owned(s'.procs, true, ANY) != SWAP_FRAMES;
      } else if p.frames.Some? {
        assert forall f: int :: Count(p, true, f) == 0;
      }
    }
  }

  /** Destroying a process clears the bits of its frame numbers in the user bitmap, whether
      they are user frames or swap frames, and adds as many to the free user frames. */
  lemma KillReleasesNumbers(c: Config, s: State, pid: int)
    requires c.Valid() && Inv(c, s)
    requires var i := Find(s.procs, pid); i < |s.procs| && s.procs[i].frames.Some? && Within(s.procs[i].frames.value, |s.userBits|)
    ensures var i, s' := Find(s.procs, pid), Kill(s, pid).0;
            var numbers := s.procs[i].frames.value;
            && s'.procs == s.procs[..i] + s.procs[i + 1..] && s'.userFree == s.userFree + |numbers|
            && |s'.userBits| == |s.userBits|
            && forall f: nat | f < |s.userBits| :: s'.userBits[f] == (s.userBits[f] && f !in numbers)
  {
    var i := Find(s.procs, pid);
    assert ProcessFits(c, s, s.procs[i]);
    MarkedAt(s.userBits, s.procs[i].frames.value, false);
  }

  /** A destroyed process is gone, and nothing but its own frames changed hands. */
  lemma {:induction false} KilledIsGone(c: Config, s: State, pid: int)
    requires c.Valid() && Inv(c, s)
    ensures var (s', ok) := Kill(s, pid);
            && Find(s'.procs, pid) == |s'.procs|
            && s'.user == s.user && s'.swap == s.swap && s'.swapBits == s.swapBits && s'.swapFree == s.swapFree
  {
    var i, s' := Find(s.procs, pid), Kill(s, pid).0;
    if i < |s.procs| {
      NobodyHas(s'.procs, pid, 0);
    }
  }

  lemma {:induction false} NobodyHas(procs: seq<Process>, pid: int, from: nat)
    requires from <= |procs| && forall j: nat | from <= j < |procs| :: procs[j].pid != pid
    ensures FindFrom(procs, pid, from) == |procs|
    decreases |procs| - from
  {
    if from < |procs| {
      NobodyHas(procs, pid, from + 1);
    }
  }

  // --- Suspension ----------------------------------------------------------

  /** Suspending a process: refused, without change, exactly when it is unknown or swap
      lacks frames; otherwise its image moves to swap and everybody else's stays. */
  lemma SwapOutKeeps(c: Config, s: State, pid: int, writes: nat, partial: nat)
    requires c.Valid() && Inv(c, s)
    requires var i := Find(s.procs, pid); i < |s.procs| && s.procs[i].frames.Some? ==> |s.procs[i].frames.value| <= writes
    ensures var i := Find(s.procs, pid);
            var (s', ok) := SwapOut(c, s, pid, writes, partial);
            && (ok <==> i < |s.procs| && (s.procs[i].suspended || s.procs[i].frames.None? || |s.procs[i].frames.value| <= s.swapFree))
            && (!ok ==> s' == s)
            && (ok ==> |s'.procs| == |s.procs| && s'.procs[i].suspended)
            && Inv(c, s') && ImagesKept(c, s, s')
  {
    var i := Find(s.procs, pid);
    var (s', ok) := SwapOut(c, s, pid, writes, partial);
    if i < |s.procs| && !s.procs[i].suspended {
      var p := s.procs[i];
      if p.frames.None? {
        Relabelled(c, s, s', i);
      } else {
        GrantedFrames(s.swapBits, s.swapFree, |p.frames.value|);
        if |p.frames.value| <= s.swapFree {
          SwapOutMoves(c, s, i, Granted(s.swapBits, s.swapFree, |p.frames.value|).value, s');
        }
      }
    }
  }

  /** Changing the flag of a process without frames. */
  lemma Relabelled(c: Config, s: State, s': State, i: nat)
    requires c.Valid() && Inv(c, s) && i < |s.procs| && (s.procs[i].frames.None? || s.procs[i].frames.value == [])
    requires |s'.procs| == |s.procs| && s' == s.(procs := s.procs[i := s'.procs[i]])
    requires s'.procs[i] == s.procs[i].(suspended := s'.procs[i].suspended)
    ensures Inv(c, s') && ImagesKept(c, s, s')
  {
    forall swapped: bool, f: int
      ensures Owned(s'.procs, swapped, f) == Owned(s.procs, swapped, f)
    {
      OwnedReplace(s.procs, i, s'.procs[i], swapped, f);
    }
    assert forall j: nat | j < |s.procs| :: ProcessFits(c, s, s.procs[j]) ==> ProcessFits(c, s', s'.procs[j]);
  }

  /** A process gives its frames on one side back and has new ones on the other. */
  lemma MoveAccounts(procs: seq<Process>, i: nat, to: seq<nat>, side: bool, bits: seq<bool>, free: int, otherBits: seq<bool>, otherFree: int)
    requires i < |procs| && procs[i].frames.Some? && procs[i].suspended == side
    requires Accounted(procs, side, bits, free) && Accounted(procs, !side, otherBits, otherFree)
    requires NoDuplicates(to) && Within(to, |otherBits|) && forall k: nat | k < |to| :: !otherBits[to[k]]
    ensures var procs' := procs[i := procs[i].(suspended := !side, frames := Some(to))];
            var frames := procs[i].frames.value;
            && Within(frames, |bits|) && Accounted(procs', side, Marked(bits, frames, false), free + |frames|)
            && Accounted(procs', !side, Marked(otherBits, to, true), otherFree - |to|)
  {
    var p, p' := procs[i], procs[i].(suspended := !side, frames := Some(to));
    var procs' := procs[i := p'];
    forall f: int
      ensures Owned(procs', side, f) + CountIn(p.frames.value, f) == Owned(procs, side, f)
      ensures Owned(procs', !side, f) == Owned(procs, !side, f) + CountIn(to, f)
    {
      OwnedReplace(procs, i, p', side, f);
      OwnedReplace(procs, i, p', !side, f);
    }
    AccountTaken(procs, procs', !side, otherBits, otherFree, to);
    AccountReleased(procs, procs', side, bits, free, p.frames.value);
  }

  /** The state after the pages of a process moved to the other side. */
  ghost predicate Moved(s: State, s': State, i: nat, to: seq<nat>) {
    && i < |s.procs| && s.procs[i].frames.Some? && |to| == |s.procs[i].frames.value|
    && s'.procs == s.procs[i := s.procs[i].(suspended := !s.procs[i].suspended, frames := Some(to))]
  }

  /** Frames an allocator may hand out. */
  ghost predicate Available(bits: seq<bool>, frames: seq<nat>) {
    NoDuplicates(frames) && Within(frames, |bits|) && forall k: nat | k < |frames| :: !bits[frames[k]]
  }

  /** Collects what the two sides of a move keep. */
  lemma MovedInv(c: Config, s: State, s': State, i: nat, to: seq<nat>)
    requires c.Valid() && Inv(c, s) && Moved(s, s', i, to)
    requires Accounted(s'.procs, false, s'.userBits, s'.userFree) && Accounted(s'.procs, true, s'.swapBits, s'.swapFree)
    requires |s'.user| == |s.user| && |s'.userBits| == |s.userBits| && |s'.swapBits| == |s.swapBits|
    requires forall j: nat | j < |s.procs| :: ProcessFits(c, s', s'.procs[j])
    ensures Inv(c, s')
  {
  }

  lemma SwapOutMoves(c: Config, s: State, i: nat, to: seq<nat>, s': State)
    requires c.Valid() && Inv(c, s) && Moved(s, s', i, to) && !s.procs[i].suspended && Available(s.swapBits, to)
    requires var frames := s.procs[i].frames.value;
             && s'.user == s.user && s'.swap == CopyOut(s.user, s.swap, c.pageSize, frames, to, |to|)
             && s'.swapBits == Marked(s.swapBits, to, true) && s'.swapFree == s.swapFree - |to|
             && s'.userBits == (if Within(frames, |s.userBits|) then Marked(s.userBits, frames, false) else s.userBits)
             && s'.userFree == s.userFree + |frames|
    ensures Inv(c, s') && ImagesKept(c, s, s')
  {
    MoveAccounts(s.procs, i, to, false, s.userBits, s.userFree, s.swapBits, s.swapFree);
    forall j: nat | j < |s.procs|
      ensures ProcessFits(c, s', s'.procs[j]) && Image(c, s', s'.procs[j]) == Image(c, s, s.procs[j])
    {
      SwapOutImage(c, s, i, to, s', j);
    }
    MovedInv(c, s, s', i, to);
  }

  lemma SwapOutImage(c: Config, s: State, i: nat, to: seq<nat>, s': State, j: nat)
    requires c.Valid() && Inv(c, s) && Moved(s, s', i, to) && !s.procs[i].suspended && Available(s.swapBits, to) && j < |s.procs|
    requires s'.user == s.user && s'.swap == CopyOut(s.user, s.swap, c.pageSize, s.procs[i].frames.value, to, |to|)
    ensures ProcessFits(c, s', s'.procs[j]) && Image(c, s', s'.procs[j]) == Image(c, s, s.procs[j])
  {
    var frames, q := s.procs[i].frames.value, s.procs[j];
    assert ProcessFits(c, s, q);
    forall k: nat | k < |frames|
      ensures HasFrame(s.user, c.pageSize, frames[k])
    {
      OwnedFrame(c, s, i, k);
    }
    if q.frames.Some? {
      forall k: nat | k < |q.frames.value|
        ensures PageAt(if s'.procs[j].suspended then s'.swap else s'.user, c.pageSize, s'.procs[j].frames.value[k])
             == PageAt(if q.suspended then s.swap else s.user, c.pageSize, q.frames.value[k])
        ensures s'.procs[j].suspended ==> HasFrame(s'.swap, c.pageSize, s'.procs[j].frames.value[k])
      {
        OwnedFrame(c, s, j, k);
        if j == i {
          CopyOutAt(s.user, s.swap, c.pageSize, frames, to, |to|, k);
        } else if q.suspended {
          CopyOutElsewhere(s.user, s.swap, c.pageSize, frames, to, |to|, q.frames.value[k]);
        }
      }
    }
  }

  /** A suspension during which a write fails. */
  ghost predicate WriteFails(s: State, pid: int, writes: nat) {
    var i := Find(s.procs, pid);
    && i < |s.procs| && !s.procs[i].suspended && s.procs[i].frames.Some?
    && writes < |s.procs[i].frames.value| <= s.swapFree
  }

  /** A failed write to the swap file, whatever it still wrote: the suspension is refused,
      all images are kept, but the swap frames stay taken without an owner. */
  lemma FailedSwapOutLeaks(c: Config, s: State, pid: int, writes: nat, partial: nat)
    requires c.Valid() && Inv(c, s) && WriteFails(s, pid, writes)
    ensures var (s', ok) := SwapOut(c, s, pid, writes, partial);
            && !ok && s'.procs == s.procs && s'.user == s.user && s'.userBits == s.userBits && s'.userFree == s.userFree
            && s'.swapFree + Owned(s'.procs, true, ANY) == SWAP_FRAMES - |s.procs[Find(s.procs, pid)].frames.value|
            && !Inv(c, s') && ImagesKept(c, s, s')
  {
    var i, s' := Find(s.procs, pid), SwapOut(c, s, pid, writes, partial).0;
    var frames := s.procs[i].frames.value;
    GrantedFrames(s.swapBits, s.swapFree, |frames|);
    var to := Granted(s.swapBits, s.swapFree, |frames|).value;
    forall j: nat | j < |s.procs|
      ensures Image(c, s', s'.procs[j]) == Image(c, s, s.procs[j])
    {
      CutImage(c, s, i, to, writes, partial, s', j);
    }
  }

  lemma CutImage(c: Config, s: State, i: nat, to: seq<nat>, writes: nat, partial: nat, s': State, j: nat)
    requires c.Valid() && Inv(c, s) && i < |s.procs| && s.procs[i].frames.Some? && j < |s.procs|
    requires Available(s.swapBits, to) && writes < |to| == |s.procs[i].frames.value|
    requires s'.procs == s.procs && s'.user == s.user
    requires s'.swap == CopyOutCut(s.user, s.swap, c.pageSize, s.procs[i].frames.value, to, writes, partial)
    ensures Image(c, s', s'.procs[j]) == Image(c, s, s.procs[j]) && ProcessFits(c, s', s'.procs[j])
  {
    var frames, q := s.procs[i].frames.value, s.procs[j];
    assert ProcessFits(c, s, q);
    if q.frames.Some? && q.suspended {
      forall k: nat | k < |q.frames.value|
        ensures PageAt(s'.swap, c.pageSize, q.frames.value[k]) == PageAt(s.swap, c.pageSize, q.frames.value[k])
        ensures HasFrame(s'.swap, c.pageSize, q.frames.value[k])
      {
        OwnedFrame(c, s, j, k);
        var copied := CopyOut(s.user, s.swap, c.pageSize, frames, to, writes);
        CopyOutElsewhere(s.user, s.swap, c.pageSize, frames, to, writes, q.frames.value[k]);
        FileWriteElsewhere(copied, c.pageSize, to[writes], UserRead(s.user, Times(frames[writes], c.pageSize), c.pageSize)[..Min(partial, c.pageSize)], q.frames.value[k]);
      }
    }
  }

  /** Suspension in full: refused exactly when the process is unknown, swap lacks frames or a
      write fails; every image is kept in all cases; ownership and conservation are kept
      exactly when no write fails. */
  lemma SwapOutIsExact(c: Config, s: State, pid: int, writes: nat, partial: nat)
    requires c.Valid() && Inv(c, s)
    ensures var i := Find(s.procs, pid);
            var (s', ok) := SwapOut(c, s, pid, writes, partial);
            && (ok <==> i < |s.procs| && (s.procs[i].suspended || s.procs[i].frames.None? || |s.procs[i].frames.value| <= s.swapFree) && !WriteFails(s, pid, writes))
            && ImagesKept(c, s, s')
            && (Inv(c, s') <==> !WriteFails(s, pid, writes))
            && (!ok && Inv(c, s') ==> s' == s)
  {
    var i := Find(s.procs, pid);
    if WriteFails(s, pid, writes) {
      FailedSwapOutLeaks(c, s, pid, writes, partial);
    } else if i < |s.procs| && s.procs[i].frames.Some? && writes < |s.procs[i].frames.value| {
      SwapOutUnchanged(c, s, pid, writes, partial);
    } else {
      SwapOutKeeps(c, s, pid, writes, partial);
    }
  }

  lemma SwapOutUnchanged(c: Config, s: State, pid: int, writes: nat, partial: nat)
    requires c.Valid() && Inv(c, s)
    requires var i := Find(s.procs, pid); i < |s.procs| && s.procs[i].frames.Some? && (s.procs[i].suspended || s.swapFree < |s.procs[i].frames.value|)
    ensures SwapOut(c, s, pid, writes, partial) == (s, s.procs[Find(s.procs, pid)].suspended)
  {
    GrantedFrames(s.swapBits, s.swapFree, |s.procs[Find(s.procs, pid)].frames.value|);
  }

  /** A suspended process's pages go to the lowest free swap frames, in ascending order, and
      its user frames are free again. */
  lemma SwapOutTakesLowest(c: Config, s: State, pid: int, writes: nat, partial: nat)
    requires c.Valid() && Inv(c, s) && SwapOut(c, s, pid, writes, partial).1
    requires var i := Find(s.procs, pid); i < |s.procs| && !s.procs[i].suspended && s.procs[i].frames.Some?
    ensures var s', p := SwapOut(c, s, pid, writes, partial).0, s.procs[Find(s.procs, pid)];
            var n := |p.frames.value|;
            && n <= |Clear(s.swapBits)|
            && s'.procs == s.procs[Find(s.procs, pid) := p.(suspended := true, frames := Some(Clear(s.swapBits)[..n]))]
            && |s'.userBits| == |s.userBits| && s'.user == s.user
            && forall f: nat | f < |s.userBits| :: s'.userBits[f] == (s.userBits[f] && f !in p.frames.value)
  {
    var i := Find(s.procs, pid);
    GrantedFrames(s.swapBits, s.swapFree, |s.procs[i].frames.value|);
    SwapOutIsExact(c, s, pid, writes, partial);
    MarkedAt(s.userBits, s.procs[i].frames.value, false);
    OwnFramesWithin(c, s, i);
  }

  lemma OwnFramesWithin(c: Config, s: State, i: nat)
    requires c.Valid() && Inv(c, s) && i < |s.procs| && !s.procs[i].suspended && s.procs[i].frames.Some?
    ensures Within(s.procs[i].frames.value, |s.userBits|)
  {
    forall k: nat | k < |s.procs[i].frames.value|
      ensures s.procs[i].frames.value[k] < |s.userBits|
    {
      OwnedFrame(c, s, i, k);
    }
  }

  // --- Resumption ----------------------------------------------------------

  /** Resuming a process: refused, without change, exactly when it is unknown or user
      frames are short (reading back never fails); otherwise its image moves back. */
  lemma SwapInKeeps(c: Config, s: State, pid: int)
    requires c.Valid() && Inv(c, s)
    ensures var i := Find(s.procs, pid);
            var (s', ok) := SwapIn(c, s, pid);
            && (ok <==> i < |s.procs| && (!s.procs[i].suspended || s.procs[i].frames.None? || |s.procs[i].frames.value| <= s.userFree))
            && (!ok ==> s' == s)
            && (ok ==> |s'.procs| == |s.procs| && !s'.procs[i].suspended)
            && Inv(c, s') && ImagesKept(c, s, s')
  {
    var i := Find(s.procs, pid);
    var (s', ok) := SwapIn(c, s, pid);
    if i < |s.procs| && s.procs[i].suspended {
      var p := s.procs[i];
      if p.frames.None? || p.frames.value == [] {
        Relabelled(c, s, s', i);
      } else {
        GrantedFrames(s.userBits, s.userFree, |p.frames.value|);
        assert ProcessFits(c, s, p);
        if |p.frames.value| <= s.userFree {
          SwapInMoves(c, s, i, Granted(s.userBits, s.userFree, |p.frames.value|).value, s');
        }
      }
    }
  }

  lemma SwapInMoves(c: Config, s: State, i: nat, to: seq<nat>, s': State)
    requires c.Valid() && Inv(c, s) && Moved(s, s', i, to) && s.procs[i].suspended && Available(s.userBits, to)
    requires forall k: nat | k < |to| :: HasFrame(s.swap, c.pageSize, s.procs[i].frames.value[k])
    requires var frames := s.procs[i].frames.value;
             && s'.swap == s.swap && s'.user == CopyIn(s.swap, s.user, c.pageSize, frames, to, |to|)
             && s'.userBits == Marked(s.userBits, to, true) && s'.userFree == s.userFree - |to|
             && s'.swapBits == (if Within(frames, |s.swapBits|) then Marked(s.swapBits, frames, false) else s.swapBits)
             && s'.swapFree == s.swapFree + |frames|
    ensures Inv(c, s') && ImagesKept(c, s, s')
  {
    MoveAccounts(s.procs, i, to, true, s.swapBits, s.swapFree, s.userBits, s.userFree);
    forall j: nat | j < |s.procs|
      ensures ProcessFits(c, s', s'.procs[j]) && Image(c, s', s'.procs[j]) == Image(c, s, s.procs[j])
    {
      SwapInImage(c, s, i, to, s', j);
    }
    MovedInv(c, s, s', i, to);
  }

  lemma SwapInImage(c: Config, s: State, i: nat, to: seq<nat>, s': State, j: nat)
    requires c.Valid() && Inv(c, s) && Moved(s, s', i, to) && s.procs[i].suspended && Available(s.userBits, to) && j < |s.procs|
    requires forall k: nat | k < |to| :: HasFrame(s.swap, c.pageSize, s.procs[i].frames.value[k])
    requires s'.swap == s.swap && s'.user == CopyIn(s.swap, s.user, c.pageSize, s.procs[i].frames.value, to, |to|)
    ensures ProcessFits(c, s', s'.procs[j]) && Image(c, s', s'.procs[j]) == Image(c, s, s.procs[j])
  {
    var frames, q := s.procs[i].frames.value, s.procs[j];
    assert ProcessFits(c, s, q);
    forall k: nat | k < |to|
      ensures HasFrame(s.user, c.pageSize, to[k])
    {
      FramesFit(s.user, c.pageSize, |s.userBits|, to[k]);
    }
    if q.frames.Some? {
      forall k: nat | k < |q.frames.value|
        ensures PageAt(if s'.procs[j].suspended then s'.swap else s'.user, c.pageSize, s'.procs[j].frames.value[k])
             == PageAt(if q.suspended then s.swap else s.user, c.pageSize, q.frames.value[k])
      {
        OwnedFrame(c, s, j, k);
        if j == i {
          CopyInAt(s.swap, s.user, c.pageSize, frames, to, |to|, k);
        } else if !q.suspended {
          CopyInElsewhere(s.swap, s.user, c.pageSize, frames, to, |to|, q.frames.value[k]);
        }
      }
    }
  }

  // --- Writes --------------------------------------------------------------

  /** A write at an offset of one of a process's own resident pages. */
  ghost function WritePage(c: Config, s: State, i: nat, page: nat, offset: nat, data: seq<byte>): State
    requires i < |s.procs| && s.procs[i].frames.Some? && page < |s.procs[i].frames.value|
  {
    s.(user := UserWrite(s.user, c.pageSize, Times(s.procs[i].frames.value[page], c.pageSize) + offset, data))
  }

  ghost predicate OwnResidentPage(c: Config, s: State, i: nat, page: nat, offset: nat, data: seq<byte>) {
    && i < |s.procs| && s.procs[i].frames.Some? && !s.procs[i].suspended
    && page < |s.procs[i].frames.value| && offset + |data| <= c.pageSize
  }

  lemma WriteKeepsInv(c: Config, s: State, i: nat, page: nat, offset: nat, data: seq<byte>)
    requires c.Valid() && Inv(c, s) && OwnResidentPage(c, s, i, page, offset, data)
    ensures Inv(c, WritePage(c, s, i, page, offset, data))
  {
    var s' := WritePage(c, s, i, page, offset, data);
    forall l: nat | l < |s'.procs|
      ensures ProcessFits(c, s', s'.procs[l])
    {
      assert ProcessFits(c, s, s.procs[l]);
    }
  }

  /** A write inside one frame of a memory, as seen in any frame. */
  lemma WriteInFrame(user: seq<byte>, pageSize: nat, f: nat, offset: nat, data: seq<byte>, g: nat)
    requires HasFrame(user, pageSize, f) && HasFrame(user, pageSize, g) && offset + |data| <= pageSize
    ensures var user' := UserWrite(user, pageSize, Times(f, pageSize) + offset, data);
            && |PageAt(user, pageSize, f)| == pageSize
            && PageAt(user', pageSize, g) == if g == f then Splice(PageAt(user, pageSize, f), offset, data) else PageAt(user, pageSize, g)
  {
    if g == f {
      SpliceInFrame(user, pageSize, f, offset, data);
    } else {
      SpliceElsewhere(user, pageSize, f, offset, data, g);
    }
  }

  lemma WriteShows(c: Config, s: State, i: nat, page: nat, offset: nat, data: seq<byte>)
    requires c.Valid() && Inv(c, s) && OwnResidentPage(c, s, i, page, offset, data)
    ensures var s' := WritePage(c, s, i, page, offset, data);
            && |Image(c, s, s.procs[i])[page]| == c.pageSize
            && Image(c, s', s.procs[i])[page] == Splice(Image(c, s, s.procs[i])[page], offset, data)
  {
    var f := s.procs[i].frames.value[page];
    OwnedFrame(c, s, i, page);
    WriteInFrame(s.user, c.pageSize, f, offset, data, f);
  }

  lemma WriteHidden(c: Config, s: State, i: nat, page: nat, offset: nat, data: seq<byte>, j: nat, k: nat)
    requires c.Valid() && Inv(c, s) && OwnResidentPage(c, s, i, page, offset, data)
    requires j < |s.procs| && s.procs[j].frames.Some? && k < |s.procs[j].frames.value| && (j != i || k != page)
    ensures Image(c, WritePage(c, s, i, page, offset, data), s.procs[j])[k] == Image(c, s, s.procs[j])[k]
  {
    if !s.procs[j].suspended {
      OwnedFrame(c, s, i, page);
      OwnedFrame(c, s, j, k);
      FramesApart(c, s, i, page, j, k);
      WriteElsewhere(c, s, i, page, offset, data, s.procs[j], k);
    }
  }

  lemma WriteElsewhere(c: Config, s: State, i: nat, page: nat, offset: nat, data: seq<byte>, q: Process, k: nat)
    requires OwnResidentPage(c, s, i, page, offset, data) && HasFrame(s.user, c.pageSize, s.procs[i].frames.value[page])
    requires q.frames.Some? && !q.suspended && k < |q.frames.value| && HasFrame(s.user, c.pageSize, q.frames.value[k])
    requires q.frames.value[k] != s.procs[i].frames.value[page]
    ensures Image(c, WritePage(c, s, i, page, offset, data), q)[k] == Image(c, s, q)[k]
  {
    WriteInFrame(s.user, c.pageSize, s.procs[i].frames.value[page], offset, data, q.frames.value[k]);
  }

  lemma WriteKeeps(c: Config, s: State, i: nat, page: nat, offset: nat, data: seq<byte>, j: nat)
    requires c.Valid() && Inv(c, s) && OwnResidentPage(c, s, i, page, offset, data) && j < |s.procs|
    ensures var s' := WritePage(c, s, i, page, offset, data);
            && page < |Image(c, s, s.procs[i])| && |Image(c, s, s.procs[i])[page]| == c.pageSize
            && Image(c, s', s.procs[j])
               == if j == i then Image(c, s, s.procs[i])[page := Splice(Image(c, s, s.procs[i])[page], offset, data)]
                  else Image(c, s, s.procs[j])
  {
    WriteShows(c, s, i, page, offset, data);
    var s' := WritePage(c, s, i, page, offset, data);
    forall k: nat | k < |Image(c, s, s.procs[j])| && (j != i || k != page)
      ensures Image(c, s', s.procs[j])[k] == Image(c, s, s.procs[j])[k]
    {
      WriteHidden(c, s, i, page, offset, data, j, k);
    }
  }

  // --- Runs ----------------------------------------------------------------

  datatype Step =
    | CreateStep(pid: int, size: int)
    | KillStep(pid: int)
    | SwapOutStep(pid: int, writes: nat)
    | SwapInStep(pid: int)
    | WriteStep(pid: int, page: nat, offset: nat, data: seq<byte>)

  /** What the rest of the system guarantees about a request: new pids are new, processes
      are destroyed while they have no pages in swap, and writes go to the process's own
      resident pages. The swap file takes every write. */
  ghost predicate Legal(c: Config, s: State, step: Step) {
    var i := Find(s.procs, step.pid);
    match step
    case CreateStep(pid, size) => i == |s.procs|
    case KillStep(pid) => i < |s.procs| && s.procs[i].suspended ==> s.procs[i].frames.None?
    case SwapOutStep(pid, writes) => i < |s.procs| && s.procs[i].frames.Some? ==> |s.procs[i].frames.value| <= writes
    case SwapInStep(pid) => true
    case WriteStep(pid, page, offset, data) => OwnResidentPage(c, s, i, page, offset, data)
  }

  ghost function Apply(c: Config, s: State, step: Step): State
    requires c.Valid() && Legal(c, s, step)
  {
    match step
    case CreateStep(pid, size) => Create(c, s, pid, size).0
    case KillStep(pid) => Kill(s, pid).0
    case SwapOutStep(pid, writes) => SwapOut(c, s, pid, writes, 0).0
    case SwapInStep(pid) => SwapIn(c, s, pid).0
    case WriteStep(pid, page, offset, data) => WritePage(c, s, Find(s.procs, pid), page, offset, data)
  }

  lemma StepKeepsInv(c: Config, s: State, step: Step)
    requires c.Valid() && Inv(c, s) && Legal(c, s, step)
    ensures Inv(c, Apply(c, s, step))
  {
    match step
    case CreateStep(pid, size) => CreateKeeps(c, s, pid, size);
    case KillStep(pid) => KillKeepsExactly(c, s, pid);
    case SwapOutStep(pid, writes) => SwapOutKeeps(c, s, pid, writes, 0);
    case SwapInStep(pid) => SwapInKeeps(c, s, pid);
    case WriteStep(pid, page, offset, data) => WriteKeepsInv(c, s, Find(s.procs, pid), page, offset, data);
  }

  /** Suspension, resumption and writes keep every process's pid, size and page table. */
  lemma MovesKeepRecords(c: Config, s: State, step: Step, j: nat)
    requires c.Valid() && Legal(c, s, step) && !step.KillStep? && !step.CreateStep? && j < |s.procs|
    ensures var procs' := Apply(c, s, step).procs;
            |procs'| == |s.procs| && procs'[j].pid == s.procs[j].pid && procs'[j].size == s.procs[j].size && procs'[j].mapped == s.procs[j].mapped
            && (procs'[j].frames.Some? <==> s.procs[j].frames.Some?)
    ensures |Apply(c, s, step).userBits| == |s.userBits|
  {
  }

  ghost predicate Alive(s: State, pid: int) {
    Find(s.procs, pid) < |s.procs|
  }

  ghost function Lookup(s: State, pid: int): (p: Process)
    requires Alive(s, pid)
    ensures p.pid == pid
  {
    s.procs[Find(s.procs, pid)]
  }

  /** An image after one step of the run: only the process's own writes show. */
  ghost function ImageAfter(image: seq<seq<byte>>, step: Step, pid: int): seq<seq<byte>> {
    if step.WriteStep? && step.pid == pid && step.page < |image| && step.offset + |step.data| <= |image[step.page]|
    then image[step.page := Splice(image[step.page], step.offset, step.data)]
    else image
  }

  lemma FoundAt(s: State, pid: int, i: nat)
    requires UniquePids(s.procs) && i < |s.procs| && s.procs[i].pid == pid
    ensures Alive(s, pid) && Find(s.procs, pid) == i
  {
    FindUnique(s.procs, i, 0);
  }

  /** A process nobody kills stays alive; only its own suspension or resumption changes its
      record, and its image changes only by its own writes. */
  lemma StepKeepsProcess(c: Config, s: State, step: Step, pid: int)
    requires c.Valid() && Inv(c, s) && Legal(c, s, step) && Alive(s, pid) && step != KillStep(pid)
    ensures var s' := Apply(c, s, step);
            && Alive(s', pid)
            && (step.pid != pid || step.WriteStep? ==> Lookup(s', pid) == Lookup(s, pid))
            && Image(c, s', Lookup(s', pid)) == ImageAfter(Image(c, s, Lookup(s, pid)), step, pid)
  {
    StepKeepsInv(c, s, step);
    match step {
      case CreateStep(other, size) => CreateOther(c, s, other, size, pid);
      case KillStep(other) => KillOther(c, s, other, pid);
      case SwapOutStep(other, writes) => SwapOutAny(c, s, other, writes, pid);
      case SwapInStep(other) => SwapInAny(c, s, other, pid);
      case WriteStep(other, page, offset, data) =>
        WriteKeeps(c, s, Find(s.procs, other), page, offset, data, Find(s.procs, pid));
    }
  }

  ghost predicate SameProcess(c: Config, s: State, s': State, pid: int) {
    Alive(s, pid) && Alive(s', pid) && Lookup(s', pid) == Lookup(s, pid) && Image(c, s', Lookup(s', pid)) == Image(c, s, Lookup(s, pid))
  }

  lemma CreateOther(c: Config, s: State, other: int, size: int, pid: int)
    requires c.Valid() && Inv(c, s) && Alive(s, pid) && Find(s.procs, other) == |s.procs|
    ensures SameProcess(c, s, Create(c, s, other, size).0, pid)
  {
    var s', i := Create(c, s, other, size).0, Find(s.procs, pid);
    CreateKeeps(c, s, other, size);
    CreateIsExact(c, s, other, size);
    if s' != s {
      assert s'.procs[i] == s'.procs[..|s.procs|][i];
      FoundAt(s', pid, i);
    }
  }

  lemma SwapOutAny(c: Config, s: State, other: int, writes: nat, pid: int)
    requires c.Valid() && Inv(c, s) && Alive(s, pid) && Legal(c, s, SwapOutStep(other, writes))
    ensures var s' := SwapOut(c, s, other, writes, 0).0;
            && Alive(s', pid) && Image(c, s', Lookup(s', pid)) == Image(c, s, Lookup(s, pid))
            && (other != pid ==> Lookup(s', pid) == Lookup(s, pid))
  {
    SwapOutKeeps(c, s, other, writes, 0);
    FoundAt(SwapOut(c, s, other, writes, 0).0, pid, Find(s.procs, pid));
  }

  lemma SwapInAny(c: Config, s: State, other: int, pid: int)
    requires c.Valid() && Inv(c, s) && Alive(s, pid)
    ensures var s' := SwapIn(c, s, other).0;
            && Alive(s', pid) && Image(c, s', Lookup(s', pid)) == Image(c, s, Lookup(s, pid))
            && (other != pid ==> Lookup(s', pid) == Lookup(s, pid))
  {
    SwapInKeeps(c, s, other);
    FoundAt(SwapIn(c, s, other).0, pid, Find(s.procs, pid));
  }

  lemma KillOther(c: Config, s: State, other: int, pid: int)
    requires c.Valid() && Inv(c, s) && Inv(c, Kill(s, other).0) && Alive(s, pid) && other != pid
    ensures SameProcess(c, s, Kill(s, other).0, pid)
  {
    var s', i, k := Kill(s, other).0, Find(s.procs, pid), Find(s.procs, other);
    if k < |s.procs| {
      var at := if i < k then i else i - 1;
      assert s'.procs[at] == s.procs[i];
      FoundAt(s', pid, at);
    }
  }

  ghost predicate LegalRun(c: Config, s: State, steps: seq<Step>)
    requires c.Valid()
    decreases |steps|, 0
  {
    steps == [] || (LegalRun(c, s, steps[..|steps| - 1]) && Legal(c, Run(c, s, steps[..|steps| - 1]), steps[|steps| - 1]))
  }

  ghost function Run(c: Config, s: State, steps: seq<Step>): State
    requires c.Valid() && LegalRun(c, s, steps)
    decreases |steps|, 1
  {
    if steps == [] then s else Apply(c, Run(c, s, steps[..|steps| - 1]), steps[|steps| - 1])
  }

  lemma RunOneMore(c: Config, s: State, front: seq<Step>, step: Step)
    requires c.Valid() && LegalRun(c, s, front) && Legal(c, Run(c, s, front), step)
    ensures LegalRun(c, s, front + [step]) && Run(c, s, front + [step]) == Apply(c, Run(c, s, front), step)
  {
    assert (front + [step])[..|front|] == front;
  }

  lemma RunExtended(c: Config, s: State, front: seq<Step>, step: Step)
    requires c.Valid() && LegalRun(c, s, front) && Inv(c, Run(c, s, front)) && Legal(c, Run(c, s, front), step)
    ensures LegalRun(c, s, front + [step]) && Run(c, s, front + [step]) == Apply(c, Run(c, s, front), step)
    ensures Inv(c, Run(c, s, front + [step]))
  {
    RunOneMore(c, s, front, step);
    StepKeepsInv(c, Run(c, s, front), step);
  }

  /** Ownership and conservation on every run: each used frame has exactly one owner on its
      side, free counters equal the clear bits, and free and owned frames add up. */
  lemma {:induction false} RunKeepsInv(c: Config, s: State, steps: seq<Step>)
    requires c.Valid() && Inv(c, s) && LegalRun(c, s, steps)
    ensures Inv(c, Run(c, s, steps))
    decreases |steps|
  {
    if steps != [] {
      RunKeepsInv(c, s, steps[..|steps| - 1]);
      StepKeepsInv(c, Run(c, s, steps[..|steps| - 1]), steps[|steps| - 1]);
    }
  }

  /** The image a process's own writes of a run lead to. */
  ghost function ImageAfterRun(image: seq<seq<byte>>, steps: seq<Step>, pid: int): seq<seq<byte>>
    decreases |steps|
  {
    if steps == [] then image
    else ImageAfter(ImageAfterRun(image, steps[..|steps| - 1], pid), steps[|steps| - 1], pid)
  }

  /** On every run a living process's image is the one it started with, changed by its own
      writes alone: not by suspensions and resumptions, its own or others', not by refused
      requests, and not by any other process. */
  lemma {:induction false} ImageSurvivesRun(c: Config, s: State, steps: seq<Step>, pid: int)
    requires c.Valid() && Inv(c, s) && LegalRun(c, s, steps) && Alive(s, pid) && KillStep(pid) !in steps
    ensures var s' := Run(c, s, steps);
            Alive(s', pid) && Image(c, s', Lookup(s', pid)) == ImageAfterRun(Image(c, s, Lookup(s, pid)), steps, pid)
    decreases |steps|
  {
    if steps != [] {
      var front, last := steps[..|steps| - 1], steps[|steps| - 1];
      assert last in steps;
      ImageSurvivesRun(c, s, front, pid);
      RunKeepsInv(c, s, front);
      StepKeepsProcess(c, Run(c, s, front), last, pid);
    }
  }

  // --- Page tables and translation -----------------------------------------

  /** A resident process whose page table names the frames it has. */
  ghost predicate Mapped(c: Config, p: Process) {
    p.frames.Some? && !p.suspended && |p.frames.value| <= c.g.Pages() && p.mapped == WithoutFrames(c.g.Pages(), p.frames.value)
  }

  /** The frames a process's page table names for its pages. */
  function NamedFrames(p: Process): (named: seq<nat>)
    ensures |named| == if p.frames.Some? then |p.frames.value| else 0
  {
    if p.frames.None? then []
    else seq(|p.frames.value|, k requires 0 <= k < |p.frames.value| => if k < |p.mapped| && p.mapped[k] >= 0 then p.mapped[k] else 0)
  }

  /** The page table names one frame for each page, different ones, and none behind. */
  ghost predicate TableNamed(c: Config, s: State, p: Process) {
    p.frames.Some? ==>
      && |p.frames.value| <= c.g.Pages() && p.mapped == WithoutFrames(c.g.Pages(), NamedFrames(p))
      && Within(NamedFrames(p), |s.userBits|) && NoDuplicates(NamedFrames(p))
  }

  ghost predicate TablesNamed(c: Config, s: State) {
    forall i: nat | i < |s.procs| :: TableNamed(c, s, s.procs[i])
  }

  /** A resident process is mapped exactly when its table names the frames it has. */
  lemma MappedMeansNamed(c: Config, s: State, p: Process)
    requires TableNamed(c, s, p) && p.frames.Some? && !p.suspended
    ensures Mapped(c, p) <==> NamedFrames(p) == p.frames.value
  {
    if Mapped(c, p) {
      assert forall k: nat | k < |p.frames.value| :: p.mapped[k] == p.frames.value[k];
    }
  }

  lemma GrantNamesTable(c: Config, s: State, p: Process, frames: seq<nat>)
    requires |frames| <= c.g.Pages() && Within(frames, |s.userBits|) && NoDuplicates(frames)
    requires p.frames == Some(frames) && p.mapped == WithoutFrames(c.g.Pages(), frames)
    ensures TableNamed(c, s, p)
  {
    assert forall k: nat | k < |frames| :: p.mapped[k] == frames[k];
    assert NamedFrames(p) == frames;
  }

  lemma CreateKeepsNamed(c: Config, s: State, pid: int, size: int)
    requires c.Valid() && Inv(c, s) && TablesNamed(c, s)
    ensures TablesNamed(c, Create(c, s, pid, size).0)
  {
    var (s', ok) := Create(c, s, pid, size);
    CreateIsExact(c, s, pid, size);
    if ok && size != 0 {
      var n := CeilDiv(size, c.pageSize);
      GrantedFrames(s.userBits, s.userFree, n);
      GrantNamesTable(c, s', s'.procs[|s.procs|], Clear(s.userBits)[..n]);
    }
    forall i: nat | i < |s'.procs|
      ensures TableNamed(c, s', s'.procs[i])
    {
      assert i < |s.procs| ==> TableNamed(c, s, s.procs[i]);
    }
  }

  lemma SameTableNamed(c: Config, s: State, s': State, p: Process, p': Process)
    requires TableNamed(c, s, p) && |s'.userBits| == |s.userBits| && p'.mapped == p.mapped
    requires p'.frames.Some? <==> p.frames.Some?
    requires p.frames.Some? ==> |p'.frames.value| == |p.frames.value|
    ensures TableNamed(c, s', p') && NamedFrames(p') == NamedFrames(p)
  {
    assert NamedFrames(p') == NamedFrames(p);
  }

  lemma MoveKeepsNamed(c: Config, s: State, step: Step)
    requires c.Valid() && Legal(c, s, step) && TablesNamed(c, s) && !step.KillStep? && !step.CreateStep?
    requires step.WriteStep? || ImagesKept(c, s, Apply(c, s, step))
    ensures TablesNamed(c, Apply(c, s, step))
  {
    var s' := Apply(c, s, step);
    forall j: nat | j < |s'.procs|
      ensures TableNamed(c, s', s'.procs[j])
    {
      MoveKeepsOneNamed(c, s, step, s', j);
    }
  }

  lemma MoveKeepsOneNamed(c: Config, s: State, step: Step, s': State, j: nat)
    requires c.Valid() && Legal(c, s, step) && !step.KillStep? && !step.CreateStep? && s' == Apply(c, s, step)
    requires j < |s.procs| == |s'.procs| && TableNamed(c, s, s.procs[j])
    requires step.WriteStep? || ImagesKept(c, s, s')
    ensures TableNamed(c, s', s'.procs[j])
  {
    MovesKeepRecords(c, s, step, j);
    var p, p' := s.procs[j], s'.procs[j];
    if !step.WriteStep? {
      assert |Image(c, s', p')| == |Image(c, s, p)|;
    }
    SameTableNamed(c, s, s', p, p');
  }

  lemma StepKeepsNamed(c: Config, s: State, step: Step)
    requires c.Valid() && Inv(c, s) && Legal(c, s, step) && TablesNamed(c, s)
    ensures TablesNamed(c, Apply(c, s, step))
  {
    match step {
      case CreateStep(pid, size) => CreateKeepsNamed(c, s, pid, size);
      case KillStep(pid) =>
        var s' := Apply(c, s, step);
        forall i: nat | i < |s'.procs|
          ensures TableNamed(c, s', s'.procs[i])
        {
          assert TableNamed(c, s, s.procs[if i < Find(s.procs, pid) then i else if |s'.procs| < |s.procs| then i + 1 else i]);
        }
      case SwapOutStep(pid, writes) =>
        SwapOutKeeps(c, s, pid, writes, 0);
        MoveKeepsNamed(c, s, step);
      case SwapInStep(pid) =>
        SwapInKeeps(c, s, pid);
        MoveKeepsNamed(c, s, step);
      case WriteStep(_, _, _, _) => MoveKeepsNamed(c, s, step);
    }
  }

  /** On every run from the start each page table names as many different frames as its
      process has pages: the ones it was created with. */
  lemma {:induction false} RunKeepsNamed(c: Config, s: State, steps: seq<Step>)
    requires c.Valid() && Inv(c, s) && TablesNamed(c, s) && LegalRun(c, s, steps)
    ensures TablesNamed(c, Run(c, s, steps))
    decreases |steps|
  {
    if steps != [] {
      RunKeepsNamed(c, s, steps[..|steps| - 1]);
      RunKeepsInv(c, s, steps[..|steps| - 1]);
      StepKeepsNamed(c, Run(c, s, steps[..|steps| - 1]), steps[|steps| - 1]);
    }
  }

  ghost predicate NotSuspendedIn(steps: seq<Step>, pid: int) {
    forall k: nat | k < |steps| :: steps[k].pid == pid ==> steps[k].WriteStep? || steps[k].CreateStep?
  }

  /** From its creation until its first suspension a process's page table names its frames. */
  lemma {:induction false} MappedUntilSuspended(c: Config, s: State, pid: int, size: int, steps: seq<Step>)
    requires c.Valid() && Inv(c, s) && Find(s.procs, pid) == |s.procs| && size > 0 && Create(c, s, pid, size).1
    requires LegalRun(c, Create(c, s, pid, size).0, steps) && NotSuspendedIn(steps, pid)
    ensures var s' := Run(c, Create(c, s, pid, size).0, steps);
            Inv(c, s') && Alive(s', pid) && Mapped(c, Lookup(s', pid)) && |Lookup(s', pid).frames.value| == CeilDiv(size, c.pageSize)
    decreases |steps|
  {
    var born := Create(c, s, pid, size).0;
    if steps == [] {
      CreateKeeps(c, s, pid, size);
      CreateIsExact(c, s, pid, size);
      FoundAt(born, pid, |s.procs|);
    } else {
      var front, last := steps[..|steps| - 1], steps[|steps| - 1];
      assert NotSuspendedIn(front, pid);
      MappedUntilSuspended(c, s, pid, size, front);
      StepKeepsProcess(c, Run(c, born, front), last, pid);
      StepKeepsInv(c, Run(c, born, front), last);
    }
  }

  /** Where an offset of a page of a process lies, by its page table. */
  function Physical(c: Config, p: Process, page: nat, offset: nat): int {
    (if page < |p.mapped| then p.mapped[page] else INVALID_FRAME_NUMBER) * c.pageSize + offset
  }

  /** A place of a mapped process's own pages. */
  ghost predicate Allocated(c: Config, s: State, i: nat, page: nat, offset: nat) {
    i < |s.procs| && Mapped(c, s.procs[i]) && page < |s.procs[i].frames.value| && offset < c.pageSize
  }

  /** Translation of allocated addresses stays in the memory. */
  lemma TranslationStaysInMemory(c: Config, s: State, i: nat, page: nat, offset: nat)
    requires c.Valid() && Inv(c, s) && Allocated(c, s, i, page, offset)
    ensures Physical(c, s.procs[i], page, offset) == s.procs[i].frames.value[page] * c.pageSize + offset
    ensures 0 <= Physical(c, s.procs[i], page, offset) < c.memorySize
  {
    OwnedFrame(c, s, i, page);
    TimesIsProduct(s.procs[i].frames.value[page], c.pageSize);
    assert s.procs[i].mapped[page] == s.procs[i].frames.value[page];
  }

  /** Different allocated addresses, of one process or of two, go to different places. */
  lemma TranslationIsInjective(c: Config, s: State, i: nat, page: nat, offset: nat, j: nat, page': nat, offset': nat)
    requires c.Valid() && Inv(c, s) && Allocated(c, s, i, page, offset) && Allocated(c, s, j, page', offset')
    requires Physical(c, s.procs[i], page, offset) == Physical(c, s.procs[j], page', offset')
    ensures i == j && page == page' && offset == offset'
  {
    TranslationStaysInMemory(c, s, i, page, offset);
    TranslationStaysInMemory(c, s, j, page', offset');
    PlaceUnique(s.procs[i].frames.value[page], offset, s.procs[j].frames.value[page'], offset', c.pageSize);
    if i != j || page != page' {
      FramesApart(c, s, i, page, j, page');
    }
  }

  /** Resumption does not write the page table: afterwards the table names the process's
      frames exactly when the lowest free frames happen to be the ones named before. */
  lemma ResumedTableIsStale(c: Config, s: State, pid: int, named: seq<nat>)
    requires c.Valid() && Inv(c, s) && Alive(s, pid)
    requires var p := Lookup(s, pid);
             p.suspended && p.frames.Some? && 0 < |p.frames.value| == |named| <= s.userFree
             && |named| <= c.g.Pages() && p.mapped == WithoutFrames(c.g.Pages(), named)
    ensures var (s', ok) := SwapIn(c, s, pid);
            && ok && Alive(s', pid) && |named| <= |Clear(s.userBits)|
            && (Mapped(c, Lookup(s', pid)) <==> Clear(s.userBits)[..|named|] == named)
  {
    var i := Find(s.procs, pid);
    var (s', ok) := SwapIn(c, s, pid);
    SwapInKeeps(c, s, pid);
    GrantedFrames(s.userBits, s.userFree, |named|);
    assert ProcessFits(c, s, s.procs[i]);
    var to := Clear(s.userBits)[..|named|];
    assert s'.procs[i] == s.procs[i].(suspended := false, frames := Some(to));
    FoundAt(s', pid, i);
    var rest := c.g.Pages() - |named|;
    if WithoutFrames(c.g.Pages(), to) == WithoutFrames(c.g.Pages(), named) {
      assert forall k: nat | k < |named| :: WithoutFrames(c.g.Pages(), to)[k] == to[k] && WithoutFrames(c.g.Pages(), named)[k] == named[k];
      assert to == named;
    }
  }

  // --- The failing cases are reached ---------------------------------------

  lemma InitialIsClear(c: Config)
    requires c.Valid() && c.pageSize <= c.memorySize
    ensures c.TotalFrames() >= 1 && |Clear(Initial(c).userBits)| == Initial(c).userFree == c.TotalFrames()
    ensures Find(Initial(c).procs, 1) == 0 && CeilDiv(1, c.pageSize) == 1 <= c.g.Pages()
  {
    InitialInv(c);
    CeilDivLeast(1, c.pageSize, 1);
    CeilDivLeast(1, c.pageSize, 0);
    PowPositive(c.g.entriesPerTable, c.g.levels);
    assert c.memorySize / c.pageSize >= 1;
  }

  /** A process of one page that was created and one that was created and suspended. */
  const BORN := [CreateStep(1, 1)]
  const ASLEEP := [CreateStep(1, 1), SwapOutStep(1, 1)]

  /** A process alone in the list, with one frame named by its page table. */
  ghost predicate Alone(c: Config, s: State, suspended: bool, f: nat) {
    && |s.procs| == 1 && s.procs[0].pid == 1 && s.procs[0].suspended == suspended
    && s.procs[0].frames.Some? && |s.procs[0].frames.value| == 1 && (!suspended ==> s.procs[0].frames.value == [f])
    && s.procs[0].mapped == WithoutFrames(c.g.Pages(), [f])
  }

  lemma BornRun(c: Config)
    requires c.Valid() && c.pageSize <= c.memorySize
    ensures LegalRun(c, Initial(c), BORN) && |Clear(Initial(c).userBits)| > 0
    ensures var s, f := Run(c, Initial(c), BORN), Clear(Initial(c).userBits)[0];
            && Inv(c, s) && Alone(c, s, false, f) && s.swapFree == SWAP_FRAMES
            && Within([f], |Initial(c).userBits|) && s.userBits == Marked(Initial(c).userBits, [f], true)
            && s.userFree == Initial(c).userFree - 1
  {
    InitialIsClear(c);
    InitialInv(c);
    CreateIsExact(c, Initial(c), 1, 1);
    RunExtended(c, Initial(c), [], CreateStep(1, 1));
    assert [] + [CreateStep(1, 1)] == BORN;
    assert Clear(Initial(c).userBits)[..1] == [Clear(Initial(c).userBits)[0]];
  }

  lemma SuspendAlone(c: Config, s: State, f: nat)
    requires c.Valid() && Inv(c, s) && Alone(c, s, false, f) && s.swapFree > 0
    ensures var s' := SwapOut(c, s, 1, 1, 0).0;
            && Alone(c, s', true, f) && Within([f], |s.userBits|)
            && s'.userBits == Marked(s.userBits, [f], false) && s'.userFree == s.userFree + 1
  {
    OwnedFrame(c, s, 0, 0);
    GrantedFrames(s.swapBits, s.swapFree, 1);
  }

  lemma AsleepRun(c: Config)
    requires c.Valid() && c.pageSize <= c.memorySize
    ensures LegalRun(c, Initial(c), ASLEEP) && |Clear(Initial(c).userBits)| > 0
    ensures var s, f := Run(c, Initial(c), ASLEEP), Clear(Initial(c).userBits)[0];
            && Inv(c, s) && Alone(c, s, true, f)
            && s.userBits == Initial(c).userBits && s.userFree == Initial(c).userFree
  {
    BornRun(c);
    var s, f := Run(c, Initial(c), BORN), Clear(Initial(c).userBits)[0];
    SuspendAlone(c, s, f);
    RunExtended(c, Initial(c), BORN, SwapOutStep(1, 1));
    assert BORN + [SwapOutStep(1, 1)] == ASLEEP;
    ClearFromAscends(Initial(c).userBits, 0);
    RollbackRestores(Initial(c).userBits, [f]);
  }

  /** In every configuration with a frame: create a process, suspend it, destroy it, and its
      swap frame is released in the user space instead. */
  lemma KillReachesBroken(c: Config)
    requires c.Valid() && c.pageSize <= c.memorySize
    ensures LegalRun(c, Initial(c), ASLEEP) && Kill(Run(c, Initial(c), ASLEEP), 1).1
    ensures !Inv(c, Kill(Run(c, Initial(c), ASLEEP), 1).0)
  {
    AsleepRun(c);
    KillKeepsExactly(c, Run(c, Initial(c), ASLEEP), 1);
  }

  /** In every configuration with a frame: create a process and suspend it while the swap
      file takes no write, and a swap frame is lost. */
  lemma FailedWriteReachesLeak(c: Config, partial: nat)
    requires c.Valid() && c.pageSize <= c.memorySize
    ensures LegalRun(c, Initial(c), BORN) && !Inv(c, SwapOut(c, Run(c, Initial(c), BORN), 1, 0, partial).0)
  {
    BornRun(c);
    FailedSwapOutLeaks(c, Run(c, Initial(c), BORN), 1, 0, partial);
  }

  /** A second process takes the frame the suspended one had. */
  lemma SecondTakesFrame(c: Config, s: State, f: nat)
    requires c.Valid() && Inv(c, s) && Alone(c, s, true, f) && s.userFree > 1 && |Clear(s.userBits)| > 0 && Clear(s.userBits)[0] == f
    requires CeilDiv(1, c.pageSize) == 1 <= c.g.Pages()
    ensures Find(s.procs, 2) == |s.procs|
    ensures var s' := Create(c, s, 2, 1).0;
            && |s'.procs| == 2 && s'.procs[0] == s.procs[0] && s'.procs[1] == Process(2, 1, false, Some([f]), WithoutFrames(c.g.Pages(), [f]))
            && s'.userFree >= 1
  {
    CreateIsExact(c, s, 2, 1);
    assert Clear(s.userBits)[..1] == [f];
  }

  /** Two resident processes of one page whose page tables are the same; only the second has
      the frame they name. */
  ghost predicate TwoNameOneFrame(c: Config, s: State) {
    && Alive(s, 1) && Alive(s, 2) && Mapped(c, Lookup(s, 2)) && |Lookup(s, 2).frames.value| == 1
    && Lookup(s, 1).frames.Some? && |Lookup(s, 1).frames.value| == 1 && !Lookup(s, 1).suspended
    && !Mapped(c, Lookup(s, 1)) && Lookup(s, 1).mapped == Lookup(s, 2).mapped
  }

  lemma ResumedNextToOther(c: Config, s: State, f: nat)
    requires c.Valid() && Inv(c, s) && |s.procs| == 2 && s.userFree >= 1 && 1 <= c.g.Pages()
    requires Alone(c, s.(procs := s.procs[..1]), true, f)
    requires s.procs[1] == Process(2, 1, false, Some([f]), WithoutFrames(c.g.Pages(), [f]))
    ensures TwoNameOneFrame(c, SwapIn(c, s, 1).0)
  {
    assert s.procs[0] == s.procs[..1][0];
    FoundAt(s, 1, 0);
    FoundAt(s, 2, 1);
    OwnedFrame(c, s, 1, 0);
    GrantedFrames(s.userBits, s.userFree, 1);
    ResumedTableIsStale(c, s, 1, [f]);
    ClearFromAscends(s.userBits, 0);
    SwapInAny(c, s, 1, 2);
  }

  /** In every configuration with two frames: create a process, suspend it, create another
      one, resume the first, and its page table names the other one's frame. */
  lemma ResumeReachesStale(c: Config)
    requires c.Valid() && 2 * c.pageSize <= c.memorySize
    ensures var steps := ASLEEP + [CreateStep(2, 1)] + [SwapInStep(1)];
            LegalRun(c, Initial(c), steps) && TwoNameOneFrame(c, Run(c, Initial(c), steps))
  {
    AsleepRun(c);
    InitialIsClear(c);
    assert c.memorySize / c.pageSize >= 2;
    var s, f := Run(c, Initial(c), ASLEEP), Clear(Initial(c).userBits)[0];
    SecondTakesFrame(c, s, f);
    RunExtended(c, Initial(c), ASLEEP, CreateStep(2, 1));
    var s2 := Run(c, Initial(c), ASLEEP + [CreateStep(2, 1)]);
    RunExtended(c, Initial(c), ASLEEP + [CreateStep(2, 1)], SwapInStep(1));
    ResumedNextToOther(c, s2, f);
  }
}

/** Runs of the memory module on which writes to the swap file fail: which frames are lost,
    and that images survive all the same. */
module SwapFailures {
  import opened Arithmetic
  import opened Bytes
  import opened FrameAllocator
  import opened Lists
  import opened Store
  import opened StoreRuns

  /** The state with lost swap frames given back. */
  ghost function GivenBack(s: State, lost: seq<nat>): State
    requires Within(lost, |s.swapBits|)
  {
    s.(swapBits := Marked(s.swapBits, lost, false), swapFree := s.swapFree + |lost|)
  }

  /** All but the lost swap frames are owned or free: each used frame has at most one owner. */
  ghost predicate Kept(c: Config, s: State, lost: seq<nat>) {
    && c.Valid() && NoDuplicates(lost) && Within(lost, |s.swapBits|)
    && (forall k: nat | k < |lost| :: s.swapBits[lost[k]])
    && Inv(c, GivenBack(s, lost))
  }

  /** A request that needs no swap write, or a suspension; the file takes `writes` page writes
      and `partial` bytes of the next one. */
  datatype Request =
    | Ordinary(step: Step)
    | Suspend(pid: int, writes: nat, partial: nat)

  ghost predicate Allowed(c: Config, s: State, r: Request) {
    r.Ordinary? ==> !r.step.SwapOutStep? && Legal(c, s, r.step)
  }

  ghost function Done(c: Config, s: State, r: Request): State
    requires c.Valid() && Allowed(c, s, r)
  {
    match r
    case Ordinary(step) => StoreRuns.Apply(c, s, step)
    case Suspend(pid, writes, partial) => SwapOut(c, s, pid, writes, partial).0
  }

  /** The frames a request loses. */
  ghost function Lost(c: Config, s: State, r: Request): seq<nat> {
    if r.Suspend? && WriteFails(s, r.pid, r.writes) && Granted(s.swapBits, s.swapFree, |s.procs[Find(s.procs, r.pid)].frames.value|).Some?
    then Granted(s.swapBits, s.swapFree, |s.procs[Find(s.procs, r.pid)].frames.value|).value
    else []
  }

  // --- Bitmaps with lost frames --------------------------------------------

  /** What is free is free, lost frames given back or not. */
  lemma LostAreUsed(c: Config, s: State, lost: seq<nat>)
    requires Kept(c, s, lost)
    ensures s.swapFree == |Clear(s.swapBits)| && |s.swapBits| == SWAP_FRAMES
  {
    var back := Marked(s.swapBits, lost, false);
    MarkedAt(s.swapBits, lost, false);
    forall f: nat
      ensures multiset(lost)[f] <= multiset(SetBits(s.swapBits))[f]
    {
      DistinctCount(lost);
      if f in lost {
        var k: nat :| k < |lost| && lost[k] == f;
      }
    }
    MarkFree(s.swapBits, lost);
  }

  lemma TakenApart(bits: seq<bool>, lost: seq<nat>, to: seq<nat>)
    requires Within(lost, |bits|) && Within(to, |bits|)
    requires (forall k: nat | k < |lost| :: bits[lost[k]]) && (forall k: nat | k < |to| :: !bits[to[k]])
    ensures Marked(Marked(bits, to, true), lost, false) == Marked(Marked(bits, lost, false), to, true)
    ensures Within(lost + to, |bits|) && Marked(Marked(bits, to, true), lost + to, false) == Marked(bits, lost, false)
    ensures forall k: nat | k < |to| :: !Marked(bits, lost, false)[to[k]]
    ensures forall k: nat | k < |lost + to| :: Marked(bits, to, true)[(lost + to)[k]]
  {
    MarkedAt(bits, to, true);
    MarkedAt(bits, lost, false);
    MarkedAt(Marked(bits, to, true), lost, false);
    MarkedAt(Marked(bits, lost, false), to, true);
    MarkedAt(Marked(bits, to, true), lost + to, false);
    forall k: nat | k < |lost|
      ensures lost[k] !in to
    {
    }
  }

  lemma FreedBoth(bits: seq<bool>, lost: seq<nat>, frames: seq<nat>)
    requires Within(lost, |bits|) && Within(frames, |bits|)
    ensures Marked(Marked(bits, frames, false), lost, false) == Marked(Marked(bits, lost, false), frames, false)
  {
    MarkedAt(bits, frames, false);
    MarkedAt(bits, lost, false);
    MarkedAt(Marked(bits, frames, false), lost, false);
    MarkedAt(Marked(bits, lost, false), frames, false);
  }

  // --- One request ---------------------------------------------------------

  /** The frames of a process in swap are not lost. */
  lemma OwnedNotLost(c: Config, s: State, lost: seq<nat>, i: nat)
    requires Kept(c, s, lost) && i < |s.procs| && s.procs[i].suspended && s.procs[i].frames.Some?
    ensures Within(s.procs[i].frames.value, |s.swapBits|)
    ensures forall k: nat | k < |lost| :: lost[k] !in s.procs[i].frames.value
  {
    MarkedAt(s.swapBits, lost, false);
    forall k: nat | k < |s.procs[i].frames.value|
      ensures s.procs[i].frames.value[k] < |s.swapBits| && s.procs[i].frames.value[k] !in lost
    {
      OwnedFrame(c, GivenBack(s, lost), i, k);
    }
  }

  lemma SwapInCommutes(c: Config, s: State, lost: seq<nat>, pid: int)
    requires Kept(c, s, lost)
    ensures var s' := SwapIn(c, s, pid).0;
            && |s'.swapBits| == |s.swapBits| && (forall k: nat | k < |lost| :: s'.swapBits[lost[k]])
            && SwapIn(c, GivenBack(s, lost), pid).0 == GivenBack(s', lost)
  {
    var i := Find(s.procs, pid);
    if i < |s.procs| && s.procs[i].suspended && s.procs[i].frames.Some? {
      var frames := s.procs[i].frames.value;
      OwnedNotLost(c, s, lost, i);
      FreedBoth(s.swapBits, lost, frames);
      MarkedAt(s.swapBits, frames, false);
    }
  }

  /** Requests that need no swap write do the same with and without the lost frames. */
  lemma OrdinaryCommutes(c: Config, s: State, lost: seq<nat>, step: Step)
    requires Kept(c, s, lost) && Allowed(c, s, Ordinary(step))
    ensures Legal(c, GivenBack(s, lost), step)
    ensures var s' := StoreRuns.Apply(c, s, step);
            && |s'.swapBits| == |s.swapBits| && (forall k: nat | k < |lost| :: s'.swapBits[lost[k]])
            && StoreRuns.Apply(c, GivenBack(s, lost), step) == GivenBack(s', lost)
  {
    match step
    case CreateStep(pid, size) =>
    case KillStep(pid) =>
    case SwapInStep(pid) => SwapInCommutes(c, s, lost, pid);
    case WriteStep(_, _, _, _) =>
  }

  lemma NothingLost(c: Config, s: State, lost: seq<nat>)
    requires Kept(c, s, lost)
    ensures Kept(c, s, lost + [])
  {
    assert lost + [] == lost;
  }

  lemma ImagesGivenBack(c: Config, s: State, lost: seq<nat>, s': State, lost': seq<nat>)
    requires Within(lost, |s.swapBits|) && Within(lost', |s'.swapBits|)
    requires ImagesKept(c, GivenBack(s, lost), GivenBack(s', lost'))
    ensures ImagesKept(c, s, s')
  {
    forall j: nat | j < |s.procs|
      ensures s'.procs[j].pid == s.procs[j].pid && Image(c, s', s'.procs[j]) == Image(c, s, s.procs[j])
    {
      assert Image(c, GivenBack(s', lost'), s'.procs[j]) == Image(c, s', s'.procs[j]);
      assert Image(c, GivenBack(s, lost), s.procs[j]) == Image(c, s, s.procs[j]);
    }
  }

  /** A suspension that moves its process. */
  lemma SuspensionMoves(c: Config, s: State, lost: seq<nat>, i: nat, to: seq<nat>, s': State)
    requires Kept(c, s, lost) && Moved(s, s', i, to) && !s.procs[i].suspended && Available(s.swapBits, to)
    requires var frames := s.procs[i].frames.value;
             && s'.user == s.user && s'.swap == CopyOut(s.user, s.swap, c.pageSize, frames, to, |to|)
             && s'.swapBits == Marked(s.swapBits, to, true) && s'.swapFree == s.swapFree - |to|
             && s'.userBits == (if Within(frames, |s.userBits|) then Marked(s.userBits, frames, false) else s.userBits)
             && s'.userFree == s.userFree + |frames|
    ensures Kept(c, s', lost) && ImagesKept(c, s, s')
  {
    var back := GivenBack(s, lost);
    TakenApart(s.swapBits, lost, to);
    MarkedAt(s.swapBits, to, true);
    SwapOutMoves(c, back, i, to, GivenBack(s', lost));
    ImagesGivenBack(c, s, lost, s', lost);
  }

  /** A suspension during which a write fails: the frames taken are lost, all images stay. */
  lemma SuspensionLoses(c: Config, s: State, lost: seq<nat>, i: nat, to: seq<nat>, writes: nat, partial: nat, s': State)
    requires Kept(c, s, lost) && i < |s.procs| && s.procs[i].frames.Some? && Available(s.swapBits, to) && writes < |to| == |s.procs[i].frames.value|
    requires s' == s.(swapBits := Marked(s.swapBits, to, true), swapFree := s.swapFree - |to|,
                      swap := CopyOutCut(s.user, s.swap, c.pageSize, s.procs[i].frames.value, to, writes, partial))
    ensures Kept(c, s', lost + to) && ImagesKept(c, s, s')
  {
    TakenApart(s.swapBits, lost, to);
    var back := GivenBack(s, lost);
    assert Available(back.swapBits, to);
    assert GivenBack(s', lost + to) == back.(swap := s'.swap);
    forall j: nat | j < |s.procs|
      ensures Image(c, s', s'.procs[j]) == Image(c, s, s.procs[j]) && ProcessFits(c, back.(swap := s'.swap), s.procs[j])
    {
      CutImage(c, back, i, to, writes, partial, back.(swap := s'.swap), j);
      assert Image(c, back, s.procs[j]) == Image(c, s, s.procs[j]);
      assert Image(c, back.(swap := s'.swap), s.procs[j]) == Image(c, s', s.procs[j]);
    }
    LostApart(s.swapBits, lost, to);
  }

  lemma LostApart(bits: seq<bool>, lost: seq<nat>, to: seq<nat>)
    requires NoDuplicates(lost) && NoDuplicates(to) && Within(lost, |bits|) && Within(to, |bits|)
    requires (forall k: nat | k < |lost| :: bits[lost[k]]) && (forall k: nat | k < |to| :: !bits[to[k]])
    ensures NoDuplicates(lost + to)
  {
  }

  /** A suspension, whatever the swap file does. */
  lemma SuspensionKeeps(c: Config, s: State, lost: seq<nat>, pid: int, writes: nat, partial: nat)
    requires Kept(c, s, lost)
    ensures var s' := SwapOut(c, s, pid, writes, partial).0;
            Kept(c, s', lost + Lost(c, s, Suspend(pid, writes, partial))) && ImagesKept(c, s, s')
  {
    var i, s' := Find(s.procs, pid), SwapOut(c, s, pid, writes, partial).0;
    NothingLost(c, s, lost);
    if i < |s.procs| && !s.procs[i].suspended {
      if s.procs[i].frames.None? {
        Relabelled(c, GivenBack(s, lost), GivenBack(s', lost), i);
        ImagesGivenBack(c, s, lost, s', lost);
        NothingLost(c, s', lost);
      } else {
        SuspensionOfFrames(c, s, lost, pid, writes, partial);
      }
    }
  }

  lemma SuspensionOfFrames(c: Config, s: State, lost: seq<nat>, pid: int, writes: nat, partial: nat)
    requires Kept(c, s, lost)
    requires var i := Find(s.procs, pid); i < |s.procs| && !s.procs[i].suspended && s.procs[i].frames.Some?
    ensures var s' := SwapOut(c, s, pid, writes, partial).0;
            Kept(c, s', lost + Lost(c, s, Suspend(pid, writes, partial))) && ImagesKept(c, s, s')
  {
    var i, s' := Find(s.procs, pid), SwapOut(c, s, pid, writes, partial).0;
    var n := |s.procs[i].frames.value|;
    LostAreUsed(c, s, lost);
    GrantedFrames(s.swapBits, s.swapFree, n);
    if n > s.swapFree {
      NothingLost(c, s, lost);
    } else if writes < n {
      SuspensionLoses(c, s, lost, i, Granted(s.swapBits, s.swapFree, n).value, writes, partial, s');
    } else {
      SuspensionSucceeds(c, s, lost, i, n, writes, partial);
      NothingLost(c, s', lost);
    }
  }

  lemma SuspensionSucceeds(c: Config, s: State, lost: seq<nat>, i: nat, n: nat, writes: nat, partial: nat)
    requires Kept(c, s, lost) && i < |s.procs| && !s.procs[i].suspended && s.procs[i].frames.Some?
    requires n == |s.procs[i].frames.value| <= writes && n <= s.swapFree == |Clear(s.swapBits)|
    ensures Kept(c, MoveOut(c, s, i, writes, partial).0, lost) && ImagesKept(c, s, MoveOut(c, s, i, writes, partial).0)
  {
    GrantedFrames(s.swapBits, s.swapFree, n);
    SuspensionMoves(c, s, lost, i, Granted(s.swapBits, s.swapFree, n).value, MoveOut(c, s, i, writes, partial).0);
  }

  /** What a request shows in the image of a process. */
  ghost function Shown(image: seq<seq<byte>>, r: Request, pid: int): seq<seq<byte>> {
    if r.Ordinary? then ImageAfter(image, r.step, pid) else image
  }

  /** One request: what is lost is what the failing suspension took, and a living process's
      image changes by its own writes alone. */
  lemma RequestKeeps(c: Config, s: State, lost: seq<nat>, r: Request)
    requires Kept(c, s, lost) && Allowed(c, s, r)
    ensures Kept(c, Done(c, s, r), lost + Lost(c, s, r))
  {
    match r
    case Ordinary(step) =>
      OrdinaryCommutes(c, s, lost, step);
      StepKeepsInv(c, GivenBack(s, lost), step);
      NothingLost(c, Done(c, s, r), lost);
    case Suspend(pid, writes, partial) => SuspensionKeeps(c, s, lost, pid, writes, partial);
  }

  lemma RequestShows(c: Config, s: State, lost: seq<nat>, r: Request, pid: int)
    requires Kept(c, s, lost) && Allowed(c, s, r) && Alive(s, pid) && r != Ordinary(KillStep(pid))
    ensures var s' := Done(c, s, r);
            Alive(s', pid) && Image(c, s', Lookup(s', pid)) == Shown(Image(c, s, Lookup(s, pid)), r, pid)
  {
    var s' := Done(c, s, r);
    match r {
      case Ordinary(step) =>
        OrdinaryCommutes(c, s, lost, step);
        StepKeepsProcess(c, GivenBack(s, lost), step, pid);
        assert Image(c, GivenBack(s', lost), Lookup(s', pid)) == Image(c, s', Lookup(s', pid));
        assert Image(c, GivenBack(s, lost), Lookup(s, pid)) == Image(c, s, Lookup(s, pid));
      case Suspend(other, writes, partial) =>
        SuspensionKeeps(c, s, lost, other, writes, partial);
        FoundAt(s', pid, Find(s.procs, pid));
    }
  }

  // --- Runs ----------------------------------------------------------------

  ghost predicate AllowedRun(c: Config, s: State, requests: seq<Request>)
    requires c.Valid()
    decreases |requests|, 0
  {
    requests == [] ||
    (var front := requests[..|requests| - 1];
     AllowedRun(c, s, front) && Allowed(c, After(c, s, front), requests[|requests| - 1]))
  }

  ghost function After(c: Config, s: State, requests: seq<Request>): State
    requires c.Valid() && AllowedRun(c, s, requests)
    decreases |requests|, 1
  {
    if requests == [] then s else Done(c, After(c, s, requests[..|requests| - 1]), requests[|requests| - 1])
  }

  /** The swap frames a run loses. */
  ghost function LostInRun(c: Config, s: State, requests: seq<Request>): seq<nat>
    requires c.Valid() && AllowedRun(c, s, requests)
  {
    if requests == [] then []
    else
      var front := requests[..|requests| - 1];
      LostInRun(c, s, front) + Lost(c, After(c, s, front), requests[|requests| - 1])
  }

  ghost function ShownInRun(image: seq<seq<byte>>, requests: seq<Request>, pid: int): seq<seq<byte>> {
    if requests == [] then image else Shown(ShownInRun(image, requests[..|requests| - 1], pid), requests[|requests| - 1], pid)
  }

  /** On every run, with failing swap writes, exactly the frames of the failed suspensions are
      without owner: given back, ownership and conservation hold. */
  lemma {:induction false} FailuresLoseExactly(c: Config, s: State, requests: seq<Request>)
    requires c.Valid() && Inv(c, s) && AllowedRun(c, s, requests)
    ensures Kept(c, After(c, s, requests), LostInRun(c, s, requests))
    decreases |requests|
  {
    if requests == [] {
      assert GivenBack(s, []) == s;
    } else {
      var front := requests[..|requests| - 1];
      FailuresLoseExactly(c, s, front);
      RequestKeeps(c, After(c, s, front), LostInRun(c, s, front), requests[|requests| - 1]);
    }
  }

  /** And a living process's image changes by its own writes alone. */
  lemma {:induction false} ImageSurvivesFailures(c: Config, s: State, requests: seq<Request>, pid: int)
    requires c.Valid() && Inv(c, s) && AllowedRun(c, s, requests) && Alive(s, pid) && Ordinary(KillStep(pid)) !in requests
    ensures var s' := After(c, s, requests);
            Alive(s', pid) && Image(c, s', Lookup(s', pid)) == ShownInRun(Image(c, s, Lookup(s, pid)), requests, pid)
    decreases |requests|
  {
    if requests != [] {
      var front, last := requests[..|requests| - 1], requests[|requests| - 1];
      assert last in requests;
      ImageSurvivesFailures(c, s, front, pid);
      FailuresLoseExactly(c, s, front);
      RequestShows(c, After(c, s, front), LostInRun(c, s, front), last, pid);
    }
  }
}

/** The frame bitmap with its free counter: one for the user space, one for swap. */
module FrameAllocator {
  import opened Lists

  /** The clear positions of a bitmap from `from` on. */
  function ClearFrom(bits: seq<bool>, from: nat): seq<nat>
    requires from <= |bits|
    decreases |bits| - from
  {
    if from == |bits| then []
    else if bits[from] then ClearFrom(bits, from + 1)
    else [from] + ClearFrom(bits, from + 1)
  }

  /** They come in ascending order. */
  lemma {:induction false} ClearFromAscends(bits: seq<bool>, from: nat)
    requires from <= |bits|
    ensures forall i: nat | i < |ClearFrom(bits, from)| :: from <= ClearFrom(bits, from)[i] < |bits| && !bits[ClearFrom(bits, from)[i]]
    ensures forall i: nat, j: nat | i < j < |ClearFrom(bits, from)| :: ClearFrom(bits, from)[i] < ClearFrom(bits, from)[j]
    decreases |bits| - from
  {
    if from < |bits| {
      ClearFromAscends(bits, from + 1);
    }
  }

  /** None is missing. */
  lemma {:induction false} ClearFromFinds(bits: seq<bool>, from: nat, f: nat) returns (at: nat)
    requires from <= f < |bits| && !bits[f]
    ensures at < |ClearFrom(bits, from)| && ClearFrom(bits, from)[at] == f
    decreases f - from
  {
    if from == f {
      at := 0;
    } else {
      at := ClearFromFinds(bits, from + 1, f);
      if !bits[from] {
        at := at + 1;
      }
    }
  }

  function Clear(bits: seq<bool>): seq<nat> {
    ClearFrom(bits, 0)
  }

  /** The set positions of a bitmap. */
  ghost function SetBits(bits: seq<bool>): set<nat> {
    set f: nat | f < |bits| && bits[f]
  }

  /** Every frame of a list is below a bound. */
  predicate Within(frames: seq<nat>, total: nat) {
    forall i: nat | i < |frames| :: frames[i] < total
  }

  function Marked(bits: seq<bool>, frames: seq<nat>, value: bool): (bits': seq<bool>)
    requires Within(frames, |bits|)
    ensures |bits'| == |bits|
    decreases |frames|
  {
    if frames == [] then bits
    else Marked(bits, frames[..|frames| - 1], value)[frames[|frames| - 1] := value]
  }

  lemma {:induction false} MarkedAt(bits: seq<bool>, frames: seq<nat>, value: bool)
    requires Within(frames, |bits|)
    ensures forall f: nat | f < |bits| :: Marked(bits, frames, value)[f] == if f in frames then value else bits[f]
    decreases |frames|
  {
    if frames != [] {
      MarkedAt(bits, frames[..|frames| - 1], value);
      assert frames == frames[..|frames| - 1] + [frames[|frames| - 1]];
    }
  }

  lemma MarkedPrefix(bits: seq<bool>, frames: seq<nat>, i: nat, value: bool)
    requires Within(frames, |bits|) && i < |frames|
    ensures Marked(bits, frames[..i + 1], value) == Marked(bits, frames[..i], value)[frames[i] := value]
  {
    assert frames[..i + 1][..i] == frames[..i];
  }

  /** What the allocator hands out: the lowest free frames, or nothing when they do not
      suffice by its counter. */
  function Granted(bits: seq<bool>, freeCount: int, pagesNeeded: int): (granted: Option<seq<nat>>) {
    var clear := Clear(bits);
    if pagesNeeded > freeCount then None
    else Some(clear[..if pagesNeeded < 0 then 0 else if pagesNeeded < |clear| then pagesNeeded else |clear|])
  }

  ghost function SetBitsFrom(bits: seq<bool>, from: nat): set<nat> {
    set f: nat | from <= f < |bits| && bits[f]
  }

  lemma {:induction false} ClearFromCount(bits: seq<bool>, from: nat)
    requires from <= |bits|
    ensures |ClearFrom(bits, from)| + |SetBitsFrom(bits, from)| == |bits| - from
    decreases |bits| - from
  {
    if from < |bits| {
      ClearFromCount(bits, from + 1);
      assert SetBitsFrom(bits, from) == if bits[from] then SetBitsFrom(bits, from + 1) + {from} else SetBitsFrom(bits, from + 1);
    }
  }

  /** Free frames and set bits add up to all frames. */
  lemma ClearCount(bits: seq<bool>)
    ensures |Clear(bits)| + |SetBits(bits)| == |bits|
  {
    ClearFromCount(bits, 0);
    assert SetBits(bits) == SetBitsFrom(bits, 0);
  }

  /** No frame twice. */
  ghost predicate NoDuplicates(frames: seq<nat>) {
    forall i: nat, j: nat | i < j < |frames| :: frames[i] != frames[j]
  }

  ghost function Elements(frames: seq<nat>): set<nat> {
    set f | f in frames
  }

  lemma {:induction false} DistinctCount(frames: seq<nat>)
    requires NoDuplicates(frames)
    ensures |frames| == |Elements(frames)|
    ensures multiset(frames) == multiset(Elements(frames))
  {
    if frames != [] {
      var front, last := frames[..|frames| - 1], frames[|frames| - 1];
      DistinctCount(front);
      assert frames == front + [last];
      assert last !in Elements(front);
      assert Elements(frames) == Elements(front) + {last};
    }
  }

  /** Marking free frames as used moves them from the clear to the set bits. */
  lemma MarkUsed(bits: seq<bool>, frames: seq<nat>)
    requires NoDuplicates(frames) && Within(frames, |bits|) && forall i: nat | i < |frames| :: !bits[frames[i]]
    ensures var bits' := Marked(bits, frames, true);
            && multiset(SetBits(bits')) == multiset(SetBits(bits)) + multiset(frames)
            && |Clear(bits')| == |Clear(bits)| - |frames|
  {
    MarkedAt(bits, frames, true);
    var bits', before, added := Marked(bits, frames, true), SetBits(bits), Elements(frames);
    assert SetBits(bits') == before + added && before !! added;
    DistinctCount(frames);
    DisjointUnion(before, added);
    ClearCount(bits);
    ClearCount(bits');
  }

  lemma DisjointUnion(a: set<nat>, b: set<nat>)
    requires a !! b
    ensures |a + b| == |a| + |b| && multiset(a + b) == multiset(a) + multiset(b)
  {
  }

  /** Frames counted among the set bits are different set positions. */
  lemma UsedFrames(bits: seq<bool>, frames: seq<nat>)
    requires multiset(frames) <= multiset(SetBits(bits))
    ensures Within(frames, |bits|) && NoDuplicates(frames) && forall i: nat | i < |frames| :: bits[frames[i]]
  {
    forall f | f in frames
      ensures f < |bits| && bits[f] && multiset(frames)[f] == 1
    {
      assert f in multiset(frames);
    }
    OncePerFrame(frames);
    assert forall i: nat | i < |frames| :: frames[i] in frames;
  }

  /** Marking used frames as free is the inverse. */
  lemma MarkFree(bits: seq<bool>, frames: seq<nat>)
    requires multiset(frames) <= multiset(SetBits(bits))
    ensures Within(frames, |bits|)
    ensures NoDuplicates(frames)
    ensures var bits' := Marked(bits, frames, false);
            && multiset(SetBits(bits')) == multiset(SetBits(bits)) - multiset(frames)
            && |Clear(bits')| == |Clear(bits)| + |frames|
  {
    UsedFrames(bits, frames);
    MarkedAt(bits, frames, false);
    var bits', removed := Marked(bits, frames, false), Elements(frames);
    var after := SetBits(bits');
    assert SetBits(bits) == after + removed && after !! removed;
    DistinctCount(frames);
    DisjointUnion(after, removed);
    ClearCount(bits);
    ClearCount(bits');
  }

  lemma OncePerFrame(frames: seq<nat>)
    requires forall f | f in frames :: multiset(frames)[f] == 1
    ensures NoDuplicates(frames)
  {
    forall i: nat, j: nat | i < j < |frames|
      ensures frames[i] != frames[j]
    {
      assert frames == frames[..j] + frames[j..];
      assert frames[..j][i] in multiset(frames[..j]) && frames[j..][0] in multiset(frames[j..]);
      assert frames[i] in frames;
    }
  }

  lemma {:induction false} ClearIsLowest(bits: seq<bool>, from: nat, f: nat, k: nat)
    requires from <= f < |bits| && !bits[f] && k <= |ClearFrom(bits, from)|
    requires forall i: nat | i < k :: ClearFrom(bits, from)[i] != f
    ensures forall i: nat | i < k :: ClearFrom(bits, from)[i] < f
  {
    ClearFromAscends(bits, from);
    var at := ClearFromFinds(bits, from, f);
    assert k <= at;
  }

  /** A grant within the counter is met in full: as many frames as asked for, the lowest
      ones in ascending order, all free and within the bitmap. */
  lemma GrantedFrames(bits: seq<bool>, freeCount: int, pagesNeeded: int)
    requires freeCount == |Clear(bits)|
    ensures Granted(bits, freeCount, pagesNeeded).Some? <==> pagesNeeded <= freeCount
    ensures Granted(bits, freeCount, pagesNeeded).Some? ==>
              var frames := Granted(bits, freeCount, pagesNeeded).value;
              && |frames| == (if pagesNeeded < 0 then 0 else pagesNeeded)
              && NoDuplicates(frames) && Within(frames, |bits|)
              && (forall i: nat, j: nat | i < j < |frames| :: frames[i] < frames[j])
              && (forall i: nat | i < |frames| :: !bits[frames[i]])
              && (forall f: nat | f < |bits| && !bits[f] && f !in frames :: Below(frames, f))
  {
    ClearFromAscends(bits, 0);
    if pagesNeeded <= freeCount {
      var frames := Granted(bits, freeCount, pagesNeeded).value;
      forall f: nat | f < |bits| && !bits[f] && f !in frames
        ensures Below(frames, f)
      {
        ClearIsLowest(bits, 0, f, |frames|);
      }
    }
  }

  ghost predicate Below(frames: seq<nat>, f: nat) {
    forall i: nat | i < |frames| :: frames[i] < f
  }

  lemma AppendFirst(list: seq<nat>, f: nat, rest: seq<nat>)
    ensures list + ([f] + rest) == (list + [f]) + rest
  {
  }

  /** A scan up to `index`: the clear positions before it are in the list and now set. */
  ghost predicate Scanned(was: seq<bool>, bits: seq<bool>, list: seq<nat>, index: nat) {
    && index <= |was| == |bits| && Within(list, index)
    && Clear(was) == list + ClearFrom(was, index)
    && bits == Marked(was, list, true)
    && forall f: nat | index <= f < |was| :: bits[f] == was[f]
  }

  lemma ScanTakes(was: seq<bool>, bits: seq<bool>, list: seq<nat>, index: nat)
    requires index < |was| && Scanned(was, bits, list, index) && !bits[index]
    ensures Scanned(was, bits[index := true], list + [index], index + 1)
  {
    assert (list + [index])[..|list|] == list;
    AppendFirst(list, index, ClearFrom(was, index + 1));
  }

  lemma ScanSkips(was: seq<bool>, bits: seq<bool>, list: seq<nat>, index: nat)
    requires index < |was| && Scanned(was, bits, list, index) && bits[index]
    ensures Scanned(was, bits, list, index + 1)
  {
  }

  /** A scan that ends with enough frames or at the end of the bitmap has the grant. */
  lemma ScanGrants(was: seq<bool>, bits: seq<bool>, list: seq<nat>, index: nat, freeCount: int, pagesNeeded: int)
    requires Scanned(was, bits, list, index) && pagesNeeded <= freeCount
    requires |list| <= if pagesNeeded < 0 then 0 else pagesNeeded
    requires index == |was| || |list| >= pagesNeeded
    ensures Granted(was, freeCount, pagesNeeded) == Some(list) && Within(list, |was|) && bits == Marked(was, list, true)
  {
    assert Clear(was)[..|list|] == list;
  }

  class Allocator {
    const bits: array<bool>
    var freeCount: int

    constructor (total: nat)
      ensures fresh(bits) && bits.Length == total && freeCount == total
      ensures bits[..] == seq(total, _ => false)
    {
      bits := new bool[total](_ => false);
      freeCount := total;
    }

    /** Takes the lowest free frames. */
    method Allocate(pagesNeeded: int) returns (frames: Option<seq<nat>>)
      modifies this, bits
      ensures frames == Granted(old(bits[..]), old(freeCount), pagesNeeded)
      ensures frames.Some? ==>
                && Within(frames.value, bits.Length)
                && bits[..] == Marked(old(bits[..]), frames.value, true)
                && freeCount == old(freeCount) - |frames.value|
      ensures frames.None? ==> bits[..] == old(bits[..]) && freeCount == old(freeCount)
    {
      if pagesNeeded > freeCount {
        return None;
      }
      var list: seq<nat> := [];
      var frameIndex: nat := 0;
      ghost var was := bits[..];
      while frameIndex < bits.Length && |list| < pagesNeeded
        invariant |list| <= if pagesNeeded < 0 then 0 else pagesNeeded
        invariant freeCount == old(freeCount) && Scanned(was, bits[..], list, frameIndex)
      {
        if !bits[frameIndex] {
          ScanTakes(was, bits[..], list, frameIndex);
          ghost var before := bits[..];
          bits[frameIndex] := true;
          assert bits[..] == before[frameIndex := true];
          list := list + [frameIndex];
        } else {
          ScanSkips(was, bits[..], list, frameIndex);
        }
        frameIndex := frameIndex + 1;
      }
      ScanGrants(was, bits[..], list, frameIndex, freeCount, pagesNeeded);
      freeCount := freeCount - |list|;
      frames := Some(list);
    }

    method Release(frames: seq<nat>)
      requires Within(frames, bits.Length)
      modifies this, bits
      ensures bits[..] == Marked(old(bits[..]), frames, false) && freeCount == old(freeCount) + |frames|
    {
      ghost var was := bits[..];
      for i := 0 to |frames|
        invariant freeCount == old(freeCount) && Within(frames[..i], bits.Length) && bits[..] == Marked(was, frames[..i], false)
      {
        MarkedPrefix(was, frames, i, false);
        bits[frames[i]] := false;
      }
      assert frames[..|frames|] == frames;
      freeCount := freeCount + |frames|;
    }
  }
}

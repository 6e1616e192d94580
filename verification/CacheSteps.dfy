/** What one instruction, and the flush, leave in the cache and in memory: slot by slot, bit
    by bit, byte by byte. */
module CacheSteps {
  import opened Arithmetic
  import opened Bytes
  import opened ClockCache
  import opened WriteBack

  /** The slot at a position is the first valid one of a page. */
  ghost predicate HitAt(slots: seq<Slot>, page: nat, i: nat) {
    && i < |slots| && slots[i].valid && slots[i].page == page
    && forall h: nat | h < i :: !(slots[h].valid && slots[h].page == page)
  }

  ghost predicate NotCached(slots: seq<Slot>, page: nat) {
    forall h: nat | h < |slots| :: !(slots[h].valid && slots[h].page == page)
  }

  lemma {:induction false} HitIsFound(slots: seq<Slot>, page: nat, i: nat, from: nat)
    requires HitAt(slots, page, i) && from <= i
    ensures SlotOf(slots, page, from) == i
    decreases i - from
  {
    if from < i {
      HitIsFound(slots, page, i, from + 1);
    }
  }

  /** A hit: memory, pointer and all other slots stay, the slot's use bit is set. A read
      changes nothing else. */
  lemma ReadHitIsExact(env: Env, s: State, op: Op, i: nat)
    requires WellFormed(env, s) && InPage(env, op) && op.Read? && HitAt(s.slots, op.page, i)
    ensures Execute(env, s, op) == (State(s.mem, s.slots[i := s.slots[i].(use := true)], s.pointer), true)
  {
    HitIsFound(s.slots, op.page, i, 0);
  }

  /** A write puts its bytes into the slot's content and marks it modified. The modified part
      becomes the write's, or, of a slot modified before, is widened at both ends to take the
      write in. */
  lemma WriteHitIsExact(env: Env, s: State, op: Op, i: nat, b: nat)
    requires WellFormed(env, s) && InPage(env, op) && op.Write? && HitAt(s.slots, op.page, i) && b < env.pageSize
    ensures var (s', ok), e := Execute(env, s, op), s.slots[i];
            && ok && s'.mem == s.mem && s'.pointer == s.pointer && |s'.slots| == |s.slots|
            && (forall h: nat | h < |s.slots| && h != i :: s'.slots[h] == s.slots[h])
            && var e' := s'.slots[i];
            && e'.valid && e'.page == e.page && e'.use && e'.modified && |e'.content| == env.pageSize
            && e'.content[b] == (if op.offset <= b < op.offset + |op.data| then op.data[b - op.offset] else e.content[b])
            && (!e.modified ==> e'.start == op.offset && e'.end == op.offset + |op.data|)
            && (e.modified ==> e'.start == Least(e.start, op.offset) && e'.end == Greatest(e.end, op.offset + |op.data|))
  {
    HitIsFound(s.slots, op.page, i, 0);
  }

  function Least(x: nat, y: nat): nat {
    if x <= y then x else y
  }

  function Greatest(x: nat, y: nat): nat {
    if x <= y then y else x
  }

  // --- Misses --------------------------------------------------------------

  /** The victim of a miss as the search leaves it. */
  ghost predicate VictimIs(env: Env, s: State, v: nat, e: Slot) {
    && WellFormed(env, s) && v == Search(env.algorithm, s.slots, s.pointer).0 && e == Search(env.algorithm, s.slots, s.pointer).1[v]
    && SlotFits(env, e)
  }

  lemma MissIsMiss(env: Env, s: State, page: nat)
    requires NotCached(s.slots, page)
    ensures SlotOf(s.slots, page, 0) == |s.slots|
  {
    SlotOfNone(s.slots, page, 0);
  }

  /** A byte of memory after a victim was written back: the modified part of its content in
      its frame, all else as it was. */
  lemma WrittenBackByte(env: Env, mem: seq<byte>, e: Slot, a: nat)
    requires SlotFits(env, e) && a < |mem| && (e.valid ==> HasFrame(mem, env.pageSize, env.frames[e.page]))
    ensures WrittenBack(env, mem, e)[a]
         == if e.valid && e.modified && env.frames[e.page] * env.pageSize + e.start <= a < env.frames[e.page] * env.pageSize + e.end
            then e.content[a - env.frames[e.page] * env.pageSize] else mem[a]
  {
    if e.valid {
      TimesIsProduct(env.frames[e.page], env.pageSize);
    }
  }

  /** A miss whose victim is dirty, lies in frame 0 and is looked up with the TLB on is
      refused: use bits and pointer are as the search left them, nothing else happens. Every
      other miss writes the victim back and gives its slot to the page; the other slots are
      as the search left them. */
  lemma MissIsExact(env: Env, s: State, op: Op, v: nat, e: Slot, i: nat)
    requires WellFormed(env, s) && InPage(env, op) && NotCached(s.slots, op.page) && VictimIs(env, s, v, e) && i < |s.slots|
    ensures var (s', ok), (_, slots, pointer) := Execute(env, s, op), Search(env.algorithm, s.slots, s.pointer);
            && |s'.slots| == |s.slots| && s'.pointer == pointer && (i != v || !ok ==> s'.slots[i] == slots[i])
            && (ok <==> !(e.valid && e.modified && env.tlb && env.frames[e.page] * env.pageSize == 0))
            && s'.mem == (if ok then WrittenBack(env, s.mem, e) else s.mem)
  {
    MissIsMiss(env, s, op.page);
    if e.valid {
      TimesIsProduct(env.frames[e.page], env.pageSize);
    }
  }

  /** A write miss leaves the slot zero but for the bytes written, which are the modified part. */
  lemma WriteMissIsExact(env: Env, s: State, op: Op, v: nat, e: Slot, b: nat)
    requires WellFormed(env, s) && InPage(env, op) && op.Write? && NotCached(s.slots, op.page) && VictimIs(env, s, v, e)
    requires Execute(env, s, op).1 && b < env.pageSize
    ensures |Execute(env, s, op).0.slots| == |s.slots|
    ensures var e' := Execute(env, s, op).0.slots[v];
            && e'.valid && e'.page == op.page && e'.use && e'.modified && e'.start == op.offset && e'.end == op.offset + |op.data|
            && |e'.content| == env.pageSize
            && e'.content[b] == if op.offset <= b < op.offset + |op.data| then op.data[b - op.offset] else 0
  {
    MissIsMiss(env, s, op.page);
  }

  /** A read miss loads a page's worth of bytes from the very address read, after the victim
      was written back: behind an offset the slot holds the page's bytes that many places
      too early and at its end bytes of the frame behind it, or only zeros when they would
      leave the memory. */
  lemma ReadMissIsExact(env: Env, s: State, op: Op, v: nat, e: Slot, b: nat)
    requires WellFormed(env, s) && InPage(env, op) && op.Read? && NotCached(s.slots, op.page) && VictimIs(env, s, v, e)
    requires Execute(env, s, op).1 && b < env.pageSize
    ensures |Execute(env, s, op).0.slots| == |s.slots|
    ensures var mem, from := Execute(env, s, op).0.mem, env.frames[op.page] * env.pageSize + op.offset;
            var e' := Execute(env, s, op).0.slots[v];
            && e'.valid && e'.page == op.page && e'.use && !e'.modified && e'.start == e'.end == 0
            && |e'.content| == env.pageSize
            && e'.content[b] == if 0 <= from && from + env.pageSize <= |mem| then mem[from + b] else 0
  {
    MissIsMiss(env, s, op.page);
    TimesIsProduct(env.frames[op.page], env.pageSize);
  }

  /** So the slot holds the page's own bytes if and only if memory has the same bytes from the
      address read as from the page's start, as it has for offset 0. */
  lemma LoadedRight(env: Env, s: State, op: Op, v: nat, e: Slot)
    requires WellFormed(env, s) && InPage(env, op) && op.Read? && NotCached(s.slots, op.page) && VictimIs(env, s, v, e)
    requires Execute(env, s, op).1 && HasFrame(s.mem, env.pageSize, env.frames[op.page])
    requires env.frames[op.page] * env.pageSize + op.offset + env.pageSize <= |s.mem|
    ensures v < |Execute(env, s, op).0.slots| && HasFrame(Execute(env, s, op).0.mem, env.pageSize, env.frames[op.page])
    ensures var mem, from := Execute(env, s, op).0.mem, env.frames[op.page] * env.pageSize + op.offset;
            var page := Frame(mem, env.pageSize, env.frames[op.page]);
            |mem| == |s.mem| && (Execute(env, s, op).0.slots[v].content == page <==> forall b: nat | b < env.pageSize :: page[b] == mem[from + b])
  {
    var s', from := Execute(env, s, op).0, env.frames[op.page] * env.pageSize + op.offset;
    var page, content := Frame(s'.mem, env.pageSize, env.frames[op.page]), s'.slots[v].content;
    TimesIsProduct(env.frames[op.page], env.pageSize);
    ReadMissIsExact(env, s, op, v, e, op.offset);
    forall b: nat | b < env.pageSize
      ensures content[b] == s'.mem[from + b]
    {
      ReadMissIsExact(env, s, op, v, e, b);
    }
    if content != page {
      var b: nat :| b < env.pageSize && content[b] != page[b];
    }
  }

  /** The flush leaves every slot invalid, not modified, without modified part; page, content,
      use bit and the pointer stay. */
  lemma FlushedSlotIsExact(env: Env, s: State, i: nat)
    requires WellFormed(env, s) && i < |s.slots|
    ensures var s' := Flush(env, s);
            && |s'.slots| == |s.slots| && s'.pointer == s.pointer
            && s'.slots[i] == Slot(false, s.slots[i].page, s.slots[i].content, s.slots[i].use, false, 0, 0)
  {
  }
}

/** The CPU's write-back page cache: WRITE and READ instructions, eviction with dirty-interval
    write-back, and the flush after an interrupt, compared with a CPU that writes to memory
    directly. A run here is of one process from one flush to the next; a turn that a system
    call ends has no flush at its end. */
module WriteBack {
  import opened Arithmetic
  import opened Bytes
  import opened ClockCache

  /** `frames[page]` is what translation answers for a page of the running process. */
  datatype Env = Env(pageSize: nat, frames: seq<nat>, tlb: bool, algorithm: Algorithm)

  datatype State = State(mem: seq<byte>, slots: seq<Slot>, pointer: nat)

  datatype Op =
    | Write(page: nat, offset: nat, data: seq<byte>)
    | Read(page: nat, offset: nat)

  predicate SlotFits(env: Env, e: Slot) {
    |e.content| == env.pageSize && (e.valid ==> e.page < |env.frames| && e.start <= e.end <= env.pageSize)
  }

  predicate AllFit(env: Env, slots: seq<Slot>) {
    forall i: nat | i < |slots| :: SlotFits(env, slots[i])
  }

  predicate WellFormed(env: Env, s: State) {
    s.pointer < |s.slots| && AllFit(env, s.slots)
  }

  predicate InPage(env: Env, op: Op) {
    op.page < |env.frames| && op.offset < env.pageSize && (op.Write? ==> op.offset + |op.data| <= env.pageSize)
  }

  // --- Instructions --------------------------------------------------------

  /** The valid slot of a page; the number of slots if it is not cached. */
  function SlotOf(slots: seq<Slot>, page: nat, from: nat): (i: nat)
    requires from <= |slots|
    ensures from <= i <= |slots| && (i < |slots| ==> slots[i].valid && slots[i].page == page)
    decreases |slots| - from
  {
    if from == |slots| || (slots[from].valid && slots[from].page == page) then from else SlotOf(slots, page, from + 1)
  }

  function AddressOf(env: Env, page: nat, offset: nat): nat
    requires page < |env.frames|
  {
    Times(env.frames[page], env.pageSize) + offset
  }

  predicate Dirty(e: Slot) {
    e.valid && e.modified
  }

  /** Writes the modified part of a dirty slot to memory. */
  function WrittenBack(env: Env, mem: seq<byte>, e: Slot): (mem': seq<byte>)
    requires SlotFits(env, e)
    ensures |mem'| == |mem|
  {
    if Dirty(e) && e.start < e.end then UserWrite(mem, env.pageSize, AddressOf(env, e.page, e.start), e.content[e.start..e.end])
    else mem
  }

  /** With the TLB on, a dirty victim at address 0 is taken for a failed translation. */
  predicate Refused(env: Env, e: Slot)
    requires SlotFits(env, e)
  {
    Dirty(e) && env.tlb && AddressOf(env, e.page, 0) == 0
  }

  function Evicted(env: Env, e: Slot): Slot {
    if Dirty(e) then e.(content := Zeros(env.pageSize), start := 0, end := 0) else e
  }

  /** Widens the modified part to take in a write; a slot not modified starts afresh. */
  function Updated(e: Slot, offset: nat, data: seq<byte>): Slot
    requires offset + |data| <= |e.content|
  {
    var end := offset + |data|;
    var start' := if e.modified && e.start <= offset then e.start else offset;
    var end' := if e.modified && e.end >= end then e.end else end;
    e.(start := start', end := end', content := Splice(e.content, offset, data), modified := true)
  }

  /** The slot after a write miss, before the write itself; the modified bit is left as it was. */
  function InstalledForWrite(env: Env, e: Slot, op: Op): Slot
    requires op.Write?
  {
    Slot(true, op.page, Zeros(env.pageSize), true, Evicted(env, e).modified, op.offset, op.offset + |op.data|)
  }

  /** The slot after a read miss. It is loaded from the address read, not from its page's start. */
  function Loaded(env: Env, mem: seq<byte>, op: Op): Slot
    requires op.page < |env.frames|
  {
    Slot(true, op.page, UserRead(mem, AddressOf(env, op.page, op.offset), env.pageSize), true, false, 0, 0)
  }

  function Execute(env: Env, s: State, op: Op): (r: (State, bool))
    requires WellFormed(env, s) && InPage(env, op)
    ensures |r.0.mem| == |s.mem|
  {
    var i := SlotOf(s.slots, op.page, 0);
    if i < |s.slots| then
      var e := s.slots[i].(use := true);
      (s.(slots := s.slots[i := if op.Write? then Updated(e, op.offset, op.data) else e]), true)
    else
      var (victim, slots, pointer) := Search(env.algorithm, s.slots, s.pointer);
      var e := slots[victim];
      SearchKeeps(env.algorithm, s.slots, s.pointer, victim);
      if Refused(env, e) then (State(s.mem, slots, pointer), false)
      else
        var mem := WrittenBack(env, s.mem, e);
        var e' := if op.Write? then Updated(InstalledForWrite(env, e, op), op.offset, op.data) else Loaded(env, mem, op);
        (State(mem, slots[victim := e'], pointer), true)
  }

  /** Memory after the first `n` slots were flushed. */
  function FlushedUpTo(env: Env, mem: seq<byte>, slots: seq<Slot>, n: nat): (mem': seq<byte>)
    requires n <= |slots| && AllFit(env, slots)
    ensures |mem'| == |mem|
  {
    if n == 0 then mem else WrittenBack(env, FlushedUpTo(env, mem, slots, n - 1), slots[n - 1])
  }

  /** The slots after the first `n` were flushed. */
  function Emptied(slots: seq<Slot>, n: nat): seq<Slot> {
    seq(|slots|, i requires 0 <= i < |slots| =>
          if i < n then slots[i].(valid := false, modified := false, start := 0, end := 0) else slots[i])
  }

  function Flush(env: Env, s: State): State
    requires WellFormed(env, s)
  {
    State(FlushedUpTo(env, s.mem, s.slots, |s.slots|), Emptied(s.slots, |s.slots|), s.pointer)
  }

  // --- What the process would see ------------------------------------------

  /** Different pages lie in different frames of the memory. */
  ghost predicate GoodFrames(env: Env, mem: seq<byte>) {
    && (forall p: nat | p < |env.frames| :: HasFrame(mem, env.pageSize, env.frames[p]))
    && (forall p: nat, q: nat | p < q < |env.frames| :: env.frames[p] != env.frames[q])
  }

  ghost predicate UniquePages(slots: seq<Slot>) {
    forall i: nat, j: nat | i < j < |slots| && slots[i].valid && slots[j].valid :: slots[i].page != slots[j].page
  }

  /** The cached byte of a page is to be written back. */
  predicate Covers(e: Slot, b: nat) {
    Dirty(e) && e.start <= b < e.end
  }

  /** A byte of a page as it will be in memory after a flush. */
  ghost function Pending(env: Env, mem: seq<byte>, slots: seq<Slot>, page: nat, b: nat): byte
    requires page < |env.frames| && b < env.pageSize && HasFrame(mem, env.pageSize, env.frames[page]) && AllFit(env, slots)
  {
    var i := SlotOf(slots, page, 0);
    if i < |slots| && SlotFits(env, slots[i]) && Covers(slots[i], b) then slots[i].content[b] else Frame(mem, env.pageSize, env.frames[page])[b]
  }

  lemma {:induction false} SlotOfUnique(slots: seq<Slot>, i: nat, from: nat)
    requires UniquePages(slots) && from <= i < |slots| && slots[i].valid
    ensures SlotOf(slots, slots[i].page, from) == i
    decreases i - from
  {
    if from < i {
      SlotOfUnique(slots, i, from + 1);
    }
  }

  /** Slots that are not a page's before or after a change do not matter to its look-up. */
  lemma {:induction false} SlotOfSame(slots: seq<Slot>, slots': seq<Slot>, page: nat, from: nat)
    requires |slots| == |slots'| && from <= |slots|
    requires forall i: nat | i < |slots| :: (slots[i].valid && slots[i].page == page) == (slots'[i].valid && slots'[i].page == page)
    ensures SlotOf(slots', page, from) == SlotOf(slots, page, from)
    decreases |slots| - from
  {
    if from < |slots| {
      SlotOfSame(slots, slots', page, from + 1);
    }
  }

  lemma {:induction false} SlotOfNone(slots: seq<Slot>, page: nat, from: nat)
    requires from <= |slots| && forall i: nat | from <= i < |slots| :: !(slots[i].valid && slots[i].page == page)
    ensures SlotOf(slots, page, from) == |slots|
    decreases |slots| - from
  {
    if from < |slots| {
      SlotOfNone(slots, page, from + 1);
    }
  }

  lemma {:induction false} NotBefore(slots: seq<Slot>, page: nat, from: nat, i: nat)
    requires from <= |slots| && from <= i < |slots| && i < SlotOf(slots, page, from)
    ensures !(slots[i].valid && slots[i].page == page)
    decreases |slots| - from
  {
    if from < i {
      NotBefore(slots, page, from + 1, i);
    }
  }

  // --- Steps on pending bytes ----------------------------------------------

  /** Use bits do not matter. */
  lemma PendingUnderSearch(env: Env, s: State, page: nat, b: nat)
    requires WellFormed(env, s) && page < |env.frames| && b < env.pageSize && HasFrame(s.mem, env.pageSize, env.frames[page])
    ensures var slots := Search(env.algorithm, s.slots, s.pointer).1;
            AllFit(env, slots) && Pending(env, s.mem, slots, page, b) == Pending(env, s.mem, s.slots, page, b)
  {
    var slots := Search(env.algorithm, s.slots, s.pointer).1;
    forall i: nat | i < |slots|
      ensures slots[i].(use := s.slots[i].use) == s.slots[i]
    {
      SearchKeeps(env.algorithm, s.slots, s.pointer, i);
    }
    SlotOfSame(s.slots, slots, page, 0);
  }

  /** The memory after a write-back, in the frame of the slot's own page and elsewhere. */
  lemma WrittenBackFrame(env: Env, mem: seq<byte>, e: Slot, page: nat, b: nat)
    requires SlotFits(env, e) && GoodFrames(env, mem) && page < |env.frames| && b < env.pageSize
    ensures GoodFrames(env, WrittenBack(env, mem, e))
    ensures Frame(WrittenBack(env, mem, e), env.pageSize, env.frames[page])[b]
         == if Covers(e, b) && e.page == page then e.content[b] else Frame(mem, env.pageSize, env.frames[page])[b]
  {
    if Dirty(e) && e.start < e.end {
      var part := e.content[e.start..e.end];
      WriteSeen(env, mem, e.page, e.start, part, page, b);
    }
  }

  /** A write inside a page of the process, as seen in any page. */
  lemma WriteSeen(env: Env, mem: seq<byte>, page: nat, offset: nat, data: seq<byte>, seen: nat, b: nat)
    requires GoodFrames(env, mem) && page < |env.frames| && offset + |data| <= env.pageSize && seen < |env.frames| && b < env.pageSize
    ensures var mem' := UserWrite(mem, env.pageSize, AddressOf(env, page, offset), data);
            && GoodFrames(env, mem')
            && Frame(mem', env.pageSize, env.frames[seen])[b]
               == if seen == page && offset <= b < offset + |data| then data[b - offset] else Frame(mem, env.pageSize, env.frames[seen])[b]
  {
    assert HasFrame(mem, env.pageSize, env.frames[page]) && HasFrame(mem, env.pageSize, env.frames[seen]);
    if seen == page {
      SpliceInFrame(mem, env.pageSize, env.frames[page], offset, data);
    } else {
      SpliceElsewhere(mem, env.pageSize, env.frames[page], offset, data, env.frames[seen]);
    }
  }

  function Dropped(slots: seq<Slot>, v: nat): seq<Slot>
    requires v < |slots|
  {
    slots[v := slots[v].(valid := false)]
  }

  /** Writing a slot back and dropping it leaves every pending byte as it is. */
  lemma PendingUnderEviction(env: Env, mem: seq<byte>, slots: seq<Slot>, v: nat, page: nat, b: nat)
    requires AllFit(env, slots) && UniquePages(slots) && GoodFrames(env, mem) && v < |slots| && page < |env.frames| && b < env.pageSize
    ensures AllFit(env, Dropped(slots, v)) && UniquePages(Dropped(slots, v))
    ensures HasFrame(mem, env.pageSize, env.frames[page]) && HasFrame(WrittenBack(env, mem, slots[v]), env.pageSize, env.frames[page])
    ensures Pending(env, WrittenBack(env, mem, slots[v]), Dropped(slots, v), page, b) == Pending(env, mem, slots, page, b)
  {
    WrittenBackFrame(env, mem, slots[v], page, b);
    if slots[v].valid && slots[v].page == page {
      SlotOfUnique(slots, v, 0);
      SlotOfNone(Dropped(slots, v), page, 0);
    } else {
      SlotOfSame(slots, Dropped(slots, v), page, 0);
    }
  }

  /** Putting a slot for a page not cached into an invalid one. */
  lemma PendingUnderInstall(env: Env, mem: seq<byte>, slots: seq<Slot>, v: nat, e: Slot, page: nat, b: nat)
    requires AllFit(env, slots) && UniquePages(slots) && v < |slots| && !slots[v].valid
    requires e.valid && SlotFits(env, e) && SlotOf(slots, e.page, 0) == |slots|
    requires page < |env.frames| && b < env.pageSize && HasFrame(mem, env.pageSize, env.frames[page])
    ensures AllFit(env, slots[v := e]) && UniquePages(slots[v := e])
    ensures Pending(env, mem, slots[v := e], page, b)
         == if page != e.page then Pending(env, mem, slots, page, b)
            else if Covers(e, b) then e.content[b] else Frame(mem, env.pageSize, env.frames[page])[b]
  {
    forall i: nat | i < |slots|
      ensures !(slots[i].valid && slots[i].page == e.page)
    {
      NotBefore(slots, e.page, 0, i);
    }
    if page == e.page {
      SlotOfUnique(slots[v := e], v, 0);
    } else {
      SlotOfSame(slots, slots[v := e], page, 0);
    }
  }

  /** Replacing a cached page's slot by another for the same page. */
  lemma PendingUnderUpdate(env: Env, mem: seq<byte>, slots: seq<Slot>, i: nat, e: Slot, page: nat, b: nat)
    requires AllFit(env, slots) && UniquePages(slots) && i < |slots| && slots[i].valid
    requires e.valid && SlotFits(env, e) && e.page == slots[i].page
    requires page < |env.frames| && b < env.pageSize && HasFrame(mem, env.pageSize, env.frames[page])
    ensures AllFit(env, slots[i := e]) && UniquePages(slots[i := e])
    ensures Pending(env, mem, slots[i := e], page, b)
         == if page != e.page then Pending(env, mem, slots, page, b)
            else if Covers(e, b) then e.content[b] else Frame(mem, env.pageSize, env.frames[page])[b]
  {
    if page == e.page {
      SlotOfUnique(slots[i := e], i, 0);
    } else {
      SlotOfSame(slots, slots[i := e], page, 0);
    }
  }

  // --- Gaps ----------------------------------------------------------------

  /** Bytes `lo..hi` of a page. */
  ghost function Span(page: nat, lo: int, hi: int): set<(nat, nat)> {
    set b: nat | lo <= b < hi :: (page, b)
  }

  lemma InSpan(page: nat, lo: int, hi: int, p: nat, b: nat)
    ensures (p, b) in Span(page, lo, hi) <==> p == page && lo <= b < hi
  {
  }

  /** The bytes a write brings into the modified part of its slot without writing them:
      what lies between the old modified part and the write. */
  ghost function Gap(env: Env, s: State, op: Op): set<(nat, nat)>
    requires WellFormed(env, s)
  {
    var i := SlotOf(s.slots, op.page, 0);
    if op.Write? && i < |s.slots| && s.slots[i].modified then
      Span(op.page, s.slots[i].end, op.offset) + Span(op.page, op.offset + |op.data|, s.slots[i].start)
    else {}
  }

  /** The write overlaps or touches the modified part of its page's slot, if there is one. */
  predicate Touches(env: Env, s: State, op: Op) {
    var i := SlotOf(s.slots, op.page, 0);
    op.Write? && i < |s.slots| && s.slots[i].modified ==> op.offset <= s.slots[i].end && s.slots[i].start <= op.offset + |op.data|
  }

  /** A write leaves no gap exactly when it touches the modified part. */
  lemma TouchingLeavesNoGap(env: Env, s: State, op: Op)
    requires WellFormed(env, s)
    ensures Gap(env, s, op) == {} <==> Touches(env, s, op)
  {
    var i := SlotOf(s.slots, op.page, 0);
    if op.Write? && i < |s.slots| && s.slots[i].modified {
      var e := s.slots[i];
      if op.offset > e.end {
        assert (op.page, e.end) in Span(op.page, e.end, op.offset);
      }
      if op.offset + |op.data| < e.start {
        assert (op.page, op.offset + |op.data|) in Span(op.page, op.offset + |op.data|, e.start);
      }
    }
  }

  // --- One instruction -----------------------------------------------------

  /** What keeps a state meaningful: slots fit, pages are cached once, frames are apart. */
  ghost predicate Sane(env: Env, s: State) {
    WellFormed(env, s) && UniquePages(s.slots) && GoodFrames(env, s.mem)
  }

  ghost function PendingIn(env: Env, s: State, page: nat, b: nat): byte
    requires Sane(env, s) && page < |env.frames| && b < env.pageSize
  {
    Pending(env, s.mem, s.slots, page, b)
  }

  /** The byte an instruction stores at a place, if it does. */
  predicate Stores(op: Op, page: nat, b: nat) {
    op.Write? && page == op.page && op.offset <= b < op.offset + |op.data|
  }

  /** A hit: the pending bytes are the old ones with the write on top, outside the gap. */
  lemma HitPending(env: Env, s: State, op: Op, page: nat, b: nat)
    requires Sane(env, s) && InPage(env, op) && SlotOf(s.slots, op.page, 0) < |s.slots|
    requires page < |env.frames| && b < env.pageSize
    ensures Sane(env, Execute(env, s, op).0)
    ensures (page, b) !in Gap(env, s, op) ==>
              PendingIn(env, Execute(env, s, op).0, page, b) == if Stores(op, page, b) then op.data[b - op.offset] else PendingIn(env, s, page, b)
  {
    var i := SlotOf(s.slots, op.page, 0);
    var e := Execute(env, s, op).0.slots[i];
    PendingUnderUpdate(env, s.mem, s.slots, i, e, page, b);
    if op.Write? && s.slots[i].modified {
      InSpan(op.page, s.slots[i].end, op.offset, page, b);
      InSpan(op.page, op.offset + |op.data|, s.slots[i].start, page, b);
    }
  }

  /** A miss, refused or not: no gap. */
  lemma MissPending(env: Env, s: State, op: Op, page: nat, b: nat)
    requires Sane(env, s) && InPage(env, op) && SlotOf(s.slots, op.page, 0) == |s.slots|
    requires page < |env.frames| && b < env.pageSize
    ensures Sane(env, Execute(env, s, op).0)
    ensures PendingIn(env, Execute(env, s, op).0, page, b)
         == if Execute(env, s, op).1 && Stores(op, page, b) then op.data[b - op.offset] else PendingIn(env, s, page, b)
  {
    var (victim, slots, pointer) := Search(env.algorithm, s.slots, s.pointer);
    SearchSane(env, s, op.page);
    PendingUnderSearch(env, s, page, b);
    var e := slots[victim];
    if !Refused(env, e) {
      MissReplaces(env, s.mem, slots, victim, op, page, b);
    }
  }

  lemma SearchSane(env: Env, s: State, page: nat)
    requires Sane(env, s)
    ensures var slots := Search(env.algorithm, s.slots, s.pointer).1;
            AllFit(env, slots) && UniquePages(slots) && SlotOf(slots, page, 0) == SlotOf(s.slots, page, 0)
  {
    var slots := Search(env.algorithm, s.slots, s.pointer).1;
    forall i: nat | i < |slots|
      ensures slots[i].(use := s.slots[i].use) == s.slots[i]
    {
      SearchKeeps(env.algorithm, s.slots, s.pointer, i);
    }
    SlotOfSame(s.slots, slots, page, 0);
  }

  ghost function Replacement(env: Env, mem: seq<byte>, e: Slot, op: Op): Slot
    requires InPage(env, op)
  {
    if op.Write? then Updated(InstalledForWrite(env, e, op), op.offset, op.data) else Loaded(env, mem, op)
  }

  lemma MissReplaces(env: Env, mem: seq<byte>, slots: seq<Slot>, v: nat, op: Op, page: nat, b: nat)
    requires AllFit(env, slots) && UniquePages(slots) && GoodFrames(env, mem) && v < |slots| && InPage(env, op)
    requires SlotOf(slots, op.page, 0) == |slots| && page < |env.frames| && b < env.pageSize
    ensures var mem' := WrittenBack(env, mem, slots[v]);
            var slots' := slots[v := Replacement(env, mem', slots[v], op)];
            && AllFit(env, slots') && UniquePages(slots') && GoodFrames(env, mem')
            && HasFrame(mem, env.pageSize, env.frames[page]) && HasFrame(mem', env.pageSize, env.frames[page])
            && Pending(env, mem', slots', page, b)
               == if Stores(op, page, b) then op.data[b - op.offset] else Pending(env, mem, slots, page, b)
  {
    var mem' := WrittenBack(env, mem, slots[v]);
    var e := Replacement(env, mem', slots[v], op);
    var dropped := Dropped(slots, v);
    PendingUnderEviction(env, mem, slots, v, page, b);
    WrittenBackFrame(env, mem, slots[v], page, b);
    forall i: nat | i < |dropped|
      ensures !(dropped[i].valid && dropped[i].page == op.page)
    {
      NotBefore(slots, op.page, 0, i);
    }
    SlotOfNone(dropped, op.page, 0);
    PendingUnderInstall(env, mem', dropped, v, e, page, b);
    assert dropped[v := e] == slots[v := e];
  }

  /** One instruction: every byte outside the gap it leaves is pending as a direct CPU would
      have it, whatever modified bit the slot it uses carried before. */
  lemma StepPending(env: Env, s: State, op: Op, page: nat, b: nat)
    requires Sane(env, s) && InPage(env, op) && page < |env.frames| && b < env.pageSize
    ensures Sane(env, Execute(env, s, op).0)
    ensures (page, b) !in Gap(env, s, op) ==>
              PendingIn(env, Execute(env, s, op).0, page, b)
              == if Execute(env, s, op).1 && Stores(op, page, b) then op.data[b - op.offset] else PendingIn(env, s, page, b)
  {
    if SlotOf(s.slots, op.page, 0) < |s.slots| {
      HitPending(env, s, op, page, b);
    } else {
      MissPending(env, s, op, page, b);
    }
  }

  // --- The memory outside the process --------------------------------------

  /** The address lies in a page of the running process. */
  ghost predicate InProcess(env: Env, a: nat) {
    exists p: nat :: p < |env.frames| && AddressOf(env, p, 0) <= a < AddressOf(env, p, 0) + env.pageSize
  }

  ghost predicate SameOutside(env: Env, mem: seq<byte>, mem': seq<byte>) {
    |mem| == |mem'| && forall a: nat | a < |mem| && !InProcess(env, a) :: mem'[a] == mem[a]
  }

  lemma WriteStaysInside(env: Env, mem: seq<byte>, page: nat, offset: nat, data: seq<byte>)
    requires page < |env.frames| && offset + |data| <= env.pageSize
    ensures SameOutside(env, mem, UserWrite(mem, env.pageSize, AddressOf(env, page, offset), data))
  {
    var at := AddressOf(env, page, offset);
    forall a: nat | at <= a < at + |data|
      ensures InProcess(env, a)
    {
      assert AddressOf(env, page, 0) <= a < AddressOf(env, page, 0) + env.pageSize;
    }
  }

  lemma WrittenBackStaysInside(env: Env, mem: seq<byte>, e: Slot)
    requires SlotFits(env, e)
    ensures SameOutside(env, mem, WrittenBack(env, mem, e))
  {
    if Dirty(e) && e.start < e.end {
      WriteStaysInside(env, mem, e.page, e.start, e.content[e.start..e.end]);
    }
  }

  // --- Runs ----------------------------------------------------------------

  ghost predicate AllInPage(env: Env, ops: seq<Op>) {
    forall k: nat | k < |ops| :: InPage(env, ops[k])
  }

  ghost function RunCached(env: Env, s: State, ops: seq<Op>): (s': State)
    requires Sane(env, s) && AllInPage(env, ops)
    ensures Sane(env, s') && |s'.mem| == |s.mem|
  {
    if ops == [] then s
    else
      var before, op := RunCached(env, s, ops[..|ops| - 1]), ops[|ops| - 1];
      StepPending(env, before, op, op.page, op.offset);
      Execute(env, before, op).0
  }

  /** What an instruction does to memory on a CPU without cache. */
  function Direct(env: Env, mem: seq<byte>, op: Op): (mem': seq<byte>)
    requires InPage(env, op)
    ensures |mem'| == |mem|
  {
    if op.Write? then UserWrite(mem, env.pageSize, AddressOf(env, op.page, op.offset), op.data) else mem
  }

  /** The memory of a CPU without cache that executes the instructions of a run that the
      cached one did not refuse. */
  ghost function RunDirect(env: Env, s: State, ops: seq<Op>): (mem: seq<byte>)
    requires Sane(env, s) && AllInPage(env, ops)
    ensures |mem| == |s.mem|
  {
    if ops == [] then s.mem
    else
      var front, op := ops[..|ops| - 1], ops[|ops| - 1];
      var before := RunDirect(env, s, front);
      if Execute(env, RunCached(env, s, front), op).1 then Direct(env, before, op) else before
  }

  /** The bytes that came into a modified part without being written, and were not written since. */
  ghost function Gaps(env: Env, s: State, ops: seq<Op>): set<(nat, nat)>
    requires Sane(env, s) && AllInPage(env, ops)
  {
    if ops == [] then {}
    else
      var front, op := ops[..|ops| - 1], ops[|ops| - 1];
      var before := RunCached(env, s, front);
      if op.Write? && Execute(env, before, op).1
      then (Gaps(env, s, front) + Gap(env, before, op)) - Span(op.page, op.offset, op.offset + |op.data|)
      else Gaps(env, s, front)
  }

  ghost predicate AllTouch(env: Env, s: State, ops: seq<Op>)
    requires Sane(env, s) && AllInPage(env, ops)
  {
    ops == [] || (AllTouch(env, s, ops[..|ops| - 1]) && Touches(env, RunCached(env, s, ops[..|ops| - 1]), ops[|ops| - 1]))
  }

  ghost predicate NothingCached(s: State) {
    forall i: nat | i < |s.slots| :: !s.slots[i].valid
  }

  lemma PendingWithoutCache(env: Env, mem: seq<byte>, slots: seq<Slot>, page: nat, b: nat)
    requires AllFit(env, slots) && page < |env.frames| && b < env.pageSize && HasFrame(mem, env.pageSize, env.frames[page])
    requires forall i: nat | i < |slots| :: !slots[i].valid
    ensures Pending(env, mem, slots, page, b) == Frame(mem, env.pageSize, env.frames[page])[b]
  {
    SlotOfNone(slots, page, 0);
  }

  lemma DirectSeen(env: Env, mem: seq<byte>, op: Op, page: nat, b: nat)
    requires InPage(env, op) && GoodFrames(env, mem) && page < |env.frames| && b < env.pageSize
    ensures GoodFrames(env, Direct(env, mem, op))
    ensures HasFrame(mem, env.pageSize, env.frames[page]) && HasFrame(Direct(env, mem, op), env.pageSize, env.frames[page])
    ensures Frame(Direct(env, mem, op), env.pageSize, env.frames[page])[b]
         == if Stores(op, page, b) then op.data[b - op.offset] else Frame(mem, env.pageSize, env.frames[page])[b]
  {
    if op.Write? {
      WriteSeen(env, mem, op.page, op.offset, op.data, page, b);
    }
  }

  /** A byte not in the gaps after a run was in no gap before its last instruction, unless
      this instruction wrote it. */
  lemma GapsBefore(env: Env, s: State, ops: seq<Op>, page: nat, b: nat)
    requires Sane(env, s) && AllInPage(env, ops) && ops != [] && (page, b) !in Gaps(env, s, ops)
    ensures var front, op := ops[..|ops| - 1], ops[|ops| - 1];
            (Stores(op, page, b) && Execute(env, RunCached(env, s, front), op).1)
            || ((page, b) !in Gaps(env, s, front) && (page, b) !in Gap(env, RunCached(env, s, front), op))
  {
    var op := ops[|ops| - 1];
    if op.Write? {
      InSpan(op.page, op.offset, op.offset + |op.data|, page, b);
    }
  }

  lemma StoredIsNoGap(env: Env, s: State, op: Op, page: nat, b: nat)
    requires WellFormed(env, s) && Stores(op, page, b)
    ensures (page, b) !in Gap(env, s, op)
  {
    var i := SlotOf(s.slots, op.page, 0);
    if i < |s.slots| {
      InSpan(op.page, s.slots[i].end, op.offset, page, b);
      InSpan(op.page, op.offset + |op.data|, s.slots[i].start, page, b);
    }
  }

  lemma {:induction false} DirectIsGood(env: Env, s: State, ops: seq<Op>)
    requires Sane(env, s) && AllInPage(env, ops)
    ensures GoodFrames(env, RunDirect(env, s, ops))
  {
    if ops != [] {
      DirectIsGood(env, s, ops[..|ops| - 1]);
    }
  }

  /** Along a run, what is pending is what the direct CPU has in memory, outside the gaps. */
  lemma {:induction false} RunAgrees(env: Env, s: State, ops: seq<Op>, page: nat, b: nat)
    requires Sane(env, s) && NothingCached(s) && AllInPage(env, ops) && page < |env.frames| && b < env.pageSize
    requires (page, b) !in Gaps(env, s, ops)
    ensures HasFrame(RunDirect(env, s, ops), env.pageSize, env.frames[page])
    ensures PendingIn(env, RunCached(env, s, ops), page, b) == Frame(RunDirect(env, s, ops), env.pageSize, env.frames[page])[b]
  {
    if ops == [] {
      PendingWithoutCache(env, s.mem, s.slots, page, b);
    } else {
      var front, op := ops[..|ops| - 1], ops[|ops| - 1];
      DirectIsGood(env, s, front);
      DirectSeen(env, RunDirect(env, s, front), op, page, b);
      GapsBefore(env, s, ops, page, b);
      if Stores(op, page, b) {
        StoredIsNoGap(env, RunCached(env, s, front), op, page, b);
      }
      StepPending(env, RunCached(env, s, front), op, page, b);
      if !(Stores(op, page, b) && Execute(env, RunCached(env, s, front), op).1) {
        RunAgrees(env, s, front, page, b);
      }
    }
  }

  lemma {:induction false} TouchingRunHasNoGaps(env: Env, s: State, ops: seq<Op>)
    requires Sane(env, s) && AllInPage(env, ops) && AllTouch(env, s, ops)
    ensures Gaps(env, s, ops) == {}
  {
    if ops != [] {
      var front := ops[..|ops| - 1];
      TouchingRunHasNoGaps(env, s, front);
      TouchingLeavesNoGap(env, RunCached(env, s, front), ops[|ops| - 1]);
    }
  }

  /** One instruction touches no memory outside the process. */
  lemma ExecuteStaysInside(env: Env, s: State, op: Op)
    requires Sane(env, s) && InPage(env, op)
    ensures SameOutside(env, s.mem, Execute(env, s, op).0.mem)
  {
    SearchSane(env, s, op.page);
    var (victim, slots, pointer) := Search(env.algorithm, s.slots, s.pointer);
    WrittenBackStaysInside(env, s.mem, slots[victim]);
  }

  lemma {:induction false} RunStaysInside(env: Env, s: State, ops: seq<Op>)
    requires Sane(env, s) && AllInPage(env, ops)
    ensures SameOutside(env, s.mem, RunCached(env, s, ops).mem) && SameOutside(env, s.mem, RunDirect(env, s, ops))
  {
    if ops != [] {
      var front, op := ops[..|ops| - 1], ops[|ops| - 1];
      RunStaysInside(env, s, front);
      ExecuteStaysInside(env, RunCached(env, s, front), op);
      if op.Write? {
        WriteStaysInside(env, RunDirect(env, s, front), op.page, op.offset, op.data);
      }
    }
  }

  // --- The flush -----------------------------------------------------------

  /** Only valid slots matter. */
  lemma PendingByValidSlots(env: Env, mem: seq<byte>, slots: seq<Slot>, slots': seq<Slot>, page: nat, b: nat)
    requires AllFit(env, slots) && AllFit(env, slots') && |slots| == |slots'|
    requires forall i: nat | i < |slots| :: if slots'[i].valid then slots[i] == slots'[i] else !slots[i].valid
    requires page < |env.frames| && b < env.pageSize && HasFrame(mem, env.pageSize, env.frames[page])
    ensures Pending(env, mem, slots', page, b) == Pending(env, mem, slots, page, b)
  {
    SlotOfSame(slots, slots', page, 0);
  }

  lemma EmptiedFits(env: Env, slots: seq<Slot>, n: nat)
    requires AllFit(env, slots) && UniquePages(slots) && n <= |slots|
    ensures AllFit(env, Emptied(slots, n)) && UniquePages(Emptied(slots, n))
  {
    forall i: nat | i < |slots|
      ensures SlotFits(env, Emptied(slots, n)[i])
    {
      assert SlotFits(env, slots[i]);
    }
  }

  lemma {:induction false} FlushedIsGood(env: Env, s: State, n: nat)
    requires Sane(env, s) && n <= |s.slots|
    ensures GoodFrames(env, FlushedUpTo(env, s.mem, s.slots, n))
  {
    if n > 0 {
      FlushedIsGood(env, s, n - 1);
    }
  }

  /** Flushing slot by slot leaves every pending byte as it is. */
  lemma {:induction false} FlushPending(env: Env, s: State, n: nat, page: nat, b: nat)
    requires Sane(env, s) && n <= |s.slots| && page < |env.frames| && b < env.pageSize
    ensures var mem, slots := FlushedUpTo(env, s.mem, s.slots, n), Emptied(s.slots, n);
            && AllFit(env, slots) && HasFrame(mem, env.pageSize, env.frames[page])
            && Pending(env, mem, slots, page, b) == PendingIn(env, s, page, b)
  {
    EmptiedFits(env, s.slots, n);
    FlushedIsGood(env, s, n);
    if n == 0 {
      assert Emptied(s.slots, 0) == s.slots;
    } else {
      FlushPending(env, s, n - 1, page, b);
      FlushedIsGood(env, s, n - 1);
      EmptiedFits(env, s.slots, n - 1);
      var mem, slots := FlushedUpTo(env, s.mem, s.slots, n - 1), Emptied(s.slots, n - 1);
      PendingUnderEviction(env, mem, slots, n - 1, page, b);
      PendingByValidSlots(env, WrittenBack(env, mem, slots[n - 1]), Dropped(slots, n - 1), Emptied(s.slots, n), page, b);
    }
  }

  lemma {:induction false} FlushStaysInside(env: Env, s: State, n: nat)
    requires Sane(env, s) && n <= |s.slots|
    ensures SameOutside(env, s.mem, FlushedUpTo(env, s.mem, s.slots, n))
  {
    if n > 0 {
      FlushStaysInside(env, s, n - 1);
      WrittenBackStaysInside(env, FlushedUpTo(env, s.mem, s.slots, n - 1), s.slots[n - 1]);
    }
  }

  lemma FlushedByte(env: Env, s: State, ops: seq<Op>, page: nat, b: nat)
    requires Sane(env, s) && NothingCached(s) && AllInPage(env, ops) && page < |env.frames| && b < env.pageSize
    requires (page, b) !in Gaps(env, s, ops)
    ensures var mem, direct := Flush(env, RunCached(env, s, ops)).mem, RunDirect(env, s, ops);
            && HasFrame(mem, env.pageSize, env.frames[page]) && HasFrame(direct, env.pageSize, env.frames[page])
            && Frame(mem, env.pageSize, env.frames[page])[b] == Frame(direct, env.pageSize, env.frames[page])[b]
  {
    var end := RunCached(env, s, ops);
    RunAgrees(env, s, ops, page, b);
    FlushPending(env, end, |end.slots|, page, b);
    PendingWithoutCache(env, Flush(env, end).mem, Flush(env, end).slots, page, b);
  }

  lemma ByteOfPage(env: Env, mem: seq<byte>, page: nat, b: nat)
    requires page < |env.frames| && b < env.pageSize && HasFrame(mem, env.pageSize, env.frames[page])
    ensures AddressOf(env, page, b) < |mem| && mem[AddressOf(env, page, b)] == Frame(mem, env.pageSize, env.frames[page])[b]
  {
  }

  lemma FlushedOutside(env: Env, s: State, ops: seq<Op>, a: nat)
    requires Sane(env, s) && NothingCached(s) && AllInPage(env, ops) && a < |s.mem| && !InProcess(env, a)
    ensures Flush(env, RunCached(env, s, ops)).mem[a] == RunDirect(env, s, ops)[a] == s.mem[a]
  {
    RunStaysInside(env, s, ops);
    FlushStaysInside(env, RunCached(env, s, ops), |RunCached(env, s, ops).slots|);
  }

  lemma GapInPage(env: Env, s: State, op: Op, page: nat, b: nat)
    requires WellFormed(env, s) && InPage(env, op) && (page, b) in Gap(env, s, op)
    ensures page == op.page && b < env.pageSize && SlotOf(s.slots, op.page, 0) < |s.slots| && !Stores(op, page, b)
  {
    var e := s.slots[SlotOf(s.slots, op.page, 0)];
    InSpan(op.page, e.end, op.offset, page, b);
    InSpan(op.page, op.offset + |op.data|, e.start, page, b);
    assert SlotFits(env, e);
  }

  /** A hit leaves the bytes of its gap pending with what the cache held. */
  lemma GapPends(env: Env, s: State, op: Op, page: nat, b: nat)
    requires Sane(env, s) && InPage(env, op) && (page, b) in Gap(env, s, op)
    ensures Sane(env, Execute(env, s, op).0) && page < |env.frames| && b < env.pageSize && SlotOf(s.slots, op.page, 0) < |s.slots|
    ensures var e := s.slots[SlotOf(s.slots, op.page, 0)];
            SlotFits(env, e) && PendingIn(env, Execute(env, s, op).0, page, b) == e.content[b]
  {
    GapInPage(env, s, op, page, b);
    var i := SlotOf(s.slots, op.page, 0);
    InSpan(op.page, s.slots[i].end, op.offset, page, b);
    InSpan(op.page, op.offset + |op.data|, s.slots[i].start, page, b);
    PendingUnderUpdate(env, s.mem, s.slots, i, Execute(env, s, op).0.slots[i], page, b);
  }

  /** A hit that leaves a gap: the bytes of the gap are pending with what the cache happens
      to hold, so the step is exact there only where that is what memory holds. */
  lemma GapIsExactWhereCacheAndMemoryAgree(env: Env, s: State, op: Op, page: nat, b: nat)
    requires Sane(env, s) && InPage(env, op) && page < |env.frames| && b < env.pageSize && (page, b) in Gap(env, s, op)
    ensures Sane(env, Execute(env, s, op).0)
    ensures var e := s.slots[SlotOf(s.slots, op.page, 0)];
            && SlotFits(env, e)
            && (PendingIn(env, Execute(env, s, op).0, page, b) == PendingIn(env, s, page, b)
                <==> e.content[b] == Frame(s.mem, env.pageSize, env.frames[page])[b])
  {
    GapPends(env, s, op, page, b);
    GapInPage(env, s, op, page, b);
    var e := s.slots[SlotOf(s.slots, op.page, 0)];
    InSpan(op.page, e.end, op.offset, page, b);
    InSpan(op.page, op.offset + |op.data|, e.start, page, b);
    assert !Covers(e, b);
  }

  /** After one instruction every byte is pending as a CPU without cache would have it. */
  ghost predicate LikeDirect(env: Env, s: State, op: Op, s': State, ok: bool)
    requires Sane(env, s) && Sane(env, s')
  {
    forall page: nat, b: nat | page < |env.frames| && b < env.pageSize ::
      PendingIn(env, s', page, b) == if ok && Stores(op, page, b) then op.data[b - op.offset] else PendingIn(env, s, page, b)
  }

  /** Where an instruction leaves a gap the cache holds what memory holds. */
  ghost predicate SweepsRight(env: Env, s: State, op: Op)
    requires Sane(env, s) && InPage(env, op)
  {
    var i := SlotOf(s.slots, op.page, 0);
    forall b: nat | b < env.pageSize && (op.page, b) in Gap(env, s, op) ::
      i < |s.slots| && SlotFits(env, s.slots[i]) && s.slots[i].content[b] == Frame(s.mem, env.pageSize, env.frames[op.page])[b]
  }

  /** One instruction, exactly: it leaves every byte as a CPU without cache would, if and
      only if in the gap it leaves, if any, the cache holds what memory holds. */
  lemma StepIsExact(env: Env, s: State, op: Op)
    requires Sane(env, s) && InPage(env, op)
    ensures var (s', ok) := Execute(env, s, op);
            Sane(env, s') && (LikeDirect(env, s, op, s', ok) <==> SweepsRight(env, s, op))
  {
    var (s', ok) := Execute(env, s, op);
    StepPending(env, s, op, op.page, op.offset);
    forall b: nat | b < env.pageSize && (op.page, b) in Gap(env, s, op)
      ensures !Stores(op, op.page, b)
      ensures PendingIn(env, s', op.page, b) == PendingIn(env, s, op.page, b)
              <==> s.slots[SlotOf(s.slots, op.page, 0)].content[b] == Frame(s.mem, env.pageSize, env.frames[op.page])[b]
    {
      GapInPage(env, s, op, op.page, b);
      GapIsExactWhereCacheAndMemoryAgree(env, s, op, op.page, b);
    }
    forall page: nat, b: nat | page < |env.frames| && b < env.pageSize && (page, b) !in Gap(env, s, op)
      ensures PendingIn(env, s', page, b) == if ok && Stores(op, page, b) then op.data[b - op.offset] else PendingIn(env, s, page, b)
    {
      StepPending(env, s, op, page, b);
    }
  }

  /** A byte of the gaps left by a run is either in the gap of the last instruction or was in
      the gaps before it and the last instruction did not store it. */
  lemma GapsSince(env: Env, s: State, ops: seq<Op>, page: nat, b: nat)
    requires Sane(env, s) && AllInPage(env, ops) && ops != [] && (page, b) in Gaps(env, s, ops)
    ensures var front, op := ops[..|ops| - 1], ops[|ops| - 1];
            var before := RunCached(env, s, front);
            (page, b) in Gap(env, before, op) || ((page, b) in Gaps(env, s, front) && !(Execute(env, before, op).1 && Stores(op, page, b)))
  {
    var op := ops[|ops| - 1];
    if op.Write? {
      InSpan(op.page, op.offset, op.offset + |op.data|, page, b);
    }
  }

  lemma {:induction false} GapsInPages(env: Env, s: State, ops: seq<Op>, page: nat, b: nat)
    requires Sane(env, s) && AllInPage(env, ops) && (page, b) in Gaps(env, s, ops)
    ensures page < |env.frames| && b < env.pageSize
  {
    var front, op := ops[..|ops| - 1], ops[|ops| - 1];
    GapsSince(env, s, ops, page, b);
    if (page, b) in Gap(env, RunCached(env, s, front), op) {
      GapInPage(env, RunCached(env, s, front), op, page, b);
    } else {
      GapsInPages(env, s, front, page, b);
    }
  }

  /** What the cache held in a byte of the gaps when an instruction last swept over it. */
  ghost function Swept(env: Env, s: State, ops: seq<Op>, page: nat, b: nat): byte
    requires Sane(env, s) && AllInPage(env, ops) && (page, b) in Gaps(env, s, ops)
  {
    var front, op := ops[..|ops| - 1], ops[|ops| - 1];
    var before := RunCached(env, s, front);
    GapsSince(env, s, ops, page, b);
    if (page, b) in Gap(env, before, op) then
      GapInPage(env, before, op, page, b);
      var e := before.slots[SlotOf(before.slots, op.page, 0)];
      assert SlotFits(env, e);
      e.content[b]
    else Swept(env, s, front, page, b)
  }

  /** Along a run every byte of the gaps is pending with what was last swept in. */
  lemma {:induction false} SweptPends(env: Env, s: State, ops: seq<Op>, page: nat, b: nat)
    requires Sane(env, s) && AllInPage(env, ops) && (page, b) in Gaps(env, s, ops)
    ensures page < |env.frames| && b < env.pageSize
    ensures PendingIn(env, RunCached(env, s, ops), page, b) == Swept(env, s, ops, page, b)
  {
    var front, op := ops[..|ops| - 1], ops[|ops| - 1];
    var before := RunCached(env, s, front);
    GapsSince(env, s, ops, page, b);
    if (page, b) in Gap(env, before, op) {
      GapPends(env, before, op, page, b);
    } else {
      SweptPends(env, s, front, page, b);
      StepPending(env, before, op, page, b);
    }
  }

  lemma SweptByte(env: Env, s: State, ops: seq<Op>, page: nat, b: nat)
    requires Sane(env, s) && AllInPage(env, ops) && (page, b) in Gaps(env, s, ops)
    ensures page < |env.frames| && b < env.pageSize
    ensures var mem := Flush(env, RunCached(env, s, ops)).mem;
            HasFrame(mem, env.pageSize, env.frames[page]) && Frame(mem, env.pageSize, env.frames[page])[b] == Swept(env, s, ops, page, b)
  {
    var end := RunCached(env, s, ops);
    SweptPends(env, s, ops, page, b);
    FlushPending(env, end, |end.slots|, page, b);
    PendingWithoutCache(env, Flush(env, end).mem, Flush(env, end).slots, page, b);
  }

  /** Every byte of the gaps was last swept in with what a CPU without cache has there. */
  ghost predicate SweptRight(env: Env, s: State, ops: seq<Op>)
    requires Sane(env, s) && AllInPage(env, ops)
  {
    var direct := RunDirect(env, s, ops);
    forall page: nat, b: nat | (page, b) in Gaps(env, s, ops) ::
      && page < |env.frames| && b < env.pageSize && HasFrame(direct, env.pageSize, env.frames[page])
      && Swept(env, s, ops, page, b) == Frame(direct, env.pageSize, env.frames[page])[b]
  }

  /** A byte of the process after run and flush, in or out of the gaps. */
  lemma FlushedByteExactly(env: Env, s: State, ops: seq<Op>, page: nat, b: nat)
    requires Sane(env, s) && NothingCached(s) && AllInPage(env, ops) && page < |env.frames| && b < env.pageSize
    ensures var mem, direct, a := Flush(env, RunCached(env, s, ops)).mem, RunDirect(env, s, ops), AddressOf(env, page, b);
            && HasFrame(direct, env.pageSize, env.frames[page]) && a < |mem| == |direct|
            && (mem[a] == direct[a] <==> (page, b) in Gaps(env, s, ops) ==> Swept(env, s, ops, page, b) == Frame(direct, env.pageSize, env.frames[page])[b])
  {
    var mem, direct := Flush(env, RunCached(env, s, ops)).mem, RunDirect(env, s, ops);
    DirectIsGood(env, s, ops);
    FlushedIsGood(env, RunCached(env, s, ops), |RunCached(env, s, ops).slots|);
    ByteOfPage(env, mem, page, b);
    ByteOfPage(env, direct, page, b);
    if (page, b) in Gaps(env, s, ops) {
      SweptByte(env, s, ops, page, b);
    } else {
      FlushedByte(env, s, ops, page, b);
    }
  }

  /** A whole run, exactly: after the flush memory is as a CPU without cache leaves it, if and
      only if every byte of the gaps was last swept in with what that CPU has there. */
  lemma FlushedRunIsExact(env: Env, s: State, ops: seq<Op>)
    requires Sane(env, s) && NothingCached(s) && AllInPage(env, ops)
    ensures Flush(env, RunCached(env, s, ops)).mem == RunDirect(env, s, ops) <==> SweptRight(env, s, ops)
  {
    var mem, direct := Flush(env, RunCached(env, s, ops)).mem, RunDirect(env, s, ops);
    if mem == direct {
      forall page: nat, b: nat | (page, b) in Gaps(env, s, ops)
        ensures page < |env.frames| && b < env.pageSize && HasFrame(direct, env.pageSize, env.frames[page])
        ensures Swept(env, s, ops, page, b) == Frame(direct, env.pageSize, env.frames[page])[b]
      {
        GapsInPages(env, s, ops, page, b);
        FlushedByteExactly(env, s, ops, page, b);
      }
    }
    if SweptRight(env, s, ops) {
      forall a: nat | a < |mem|
        ensures a < |direct| && mem[a] == direct[a]
      {
        FlushedPlace(env, s, ops, a);
      }
    }
  }

  lemma FlushedRight(env: Env, s: State, ops: seq<Op>, page: nat, b: nat)
    requires Sane(env, s) && NothingCached(s) && AllInPage(env, ops) && SweptRight(env, s, ops) && page < |env.frames| && b < env.pageSize
    ensures var mem, direct, a := Flush(env, RunCached(env, s, ops)).mem, RunDirect(env, s, ops), AddressOf(env, page, b);
            a < |mem| == |direct| && mem[a] == direct[a]
  {
    FlushedByteExactly(env, s, ops, page, b);
  }

  /** The page and the byte an address of the process belongs to. */
  lemma PlaceOf(env: Env, a: nat) returns (page: nat, b: nat)
    requires InProcess(env, a)
    ensures page < |env.frames| && b < env.pageSize && a == AddressOf(env, page, b)
  {
    page :| page < |env.frames| && AddressOf(env, page, 0) <= a < AddressOf(env, page, 0) + env.pageSize;
    b := a - AddressOf(env, page, 0);
  }

  lemma FlushedPlace(env: Env, s: State, ops: seq<Op>, a: nat)
    requires Sane(env, s) && NothingCached(s) && AllInPage(env, ops) && SweptRight(env, s, ops) && a < |s.mem|
    ensures Flush(env, RunCached(env, s, ops)).mem[a] == RunDirect(env, s, ops)[a]
  {
    if InProcess(env, a) {
      var page, b := PlaceOf(env, a);
      FlushedRight(env, s, ops, page, b);
    } else {
      FlushedOutside(env, s, ops, a);
    }
  }

  /** A run of instructions from an empty cache, ended by the flush. Everything outside the
      process is untouched. If every write touches what its page has modified so far, the
      whole memory is exactly as a CPU without cache leaves it. */
  lemma FlushedRunAgrees(env: Env, s: State, ops: seq<Op>)
    requires Sane(env, s) && NothingCached(s) && AllInPage(env, ops)
    ensures SameOutside(env, s.mem, Flush(env, RunCached(env, s, ops)).mem)
    ensures AllTouch(env, s, ops) ==> Flush(env, RunCached(env, s, ops)).mem == RunDirect(env, s, ops)
  {
    forall a: nat | a < |s.mem| && !InProcess(env, a)
      ensures Flush(env, RunCached(env, s, ops)).mem[a] == s.mem[a]
    {
      FlushedOutside(env, s, ops, a);
    }
    if AllTouch(env, s, ops) {
      TouchingRunHasNoGaps(env, s, ops);
      FlushedRunIsExact(env, s, ops);
    }
  }

  // --- Where the content of a slot came from --------------------------------

  /** Outside what was modified a slot holds its page as memory has it. */
  ghost predicate Mirrors(env: Env, mem: seq<byte>, e: Slot) {
    SlotFits(env, e) && e.valid && HasFrame(mem, env.pageSize, env.frames[e.page]) ==>
      forall b: nat | b < env.pageSize && !Covers(e, b) :: e.content[b] == Frame(mem, env.pageSize, env.frames[e.page])[b]
  }

  /** The pages whose slot was last filled from the start of the page: by a read miss at
      offset 0. A CPU can tell from its own instructions. */
  ghost function WholePages(env: Env, s: State, ops: seq<Op>): set<nat>
    requires Sane(env, s) && AllInPage(env, ops)
  {
    if ops == [] then {}
    else
      var front, op := ops[..|ops| - 1], ops[|ops| - 1];
      var before, pages := RunCached(env, s, front), WholePages(env, s, front);
      if SlotOf(before.slots, op.page, 0) < |before.slots| || !Execute(env, before, op).1 then pages
      else PagesAfterMiss(op, pages)
  }

  ghost predicate AllMirror(env: Env, mem: seq<byte>, slots: seq<Slot>, pages: set<nat>) {
    forall i: nat | i < |slots| && slots[i].valid && slots[i].page in pages :: Mirrors(env, mem, slots[i])
  }

  lemma UpdatedMirrors(env: Env, mem: seq<byte>, e: Slot, offset: nat, data: seq<byte>)
    requires SlotFits(env, e) && e.valid && offset + |data| <= env.pageSize && Mirrors(env, mem, e)
    ensures SlotFits(env, Updated(e, offset, data)) && Mirrors(env, mem, Updated(e, offset, data))
  {
  }

  lemma LoadedMirrors(env: Env, mem: seq<byte>, op: Op)
    requires InPage(env, op) && op.offset == 0 && GoodFrames(env, mem)
    ensures Mirrors(env, mem, Loaded(env, mem, op))
  {
    UserReadFrame(mem, env.pageSize, env.frames[op.page]);
  }

  /** Writing another page's slot back changes nothing about a slot. */
  lemma WriteBackMirrors(env: Env, mem: seq<byte>, v: Slot, e: Slot)
    requires SlotFits(env, v) && SlotFits(env, e) && GoodFrames(env, mem) && e.valid && (v.valid ==> v.page != e.page) && Mirrors(env, mem, e)
    ensures Mirrors(env, WrittenBack(env, mem, v), e)
  {
    forall b: nat | b < env.pageSize && !Covers(e, b)
      ensures HasFrame(WrittenBack(env, mem, v), env.pageSize, env.frames[e.page])
      ensures e.content[b] == Frame(WrittenBack(env, mem, v), env.pageSize, env.frames[e.page])[b]
    {
      WrittenBackFrame(env, mem, v, e.page, b);
      assert HasFrame(mem, env.pageSize, env.frames[e.page]);
    }
  }

  lemma HitMirrors(env: Env, s: State, op: Op, pages: set<nat>)
    requires Sane(env, s) && InPage(env, op) && AllMirror(env, s.mem, s.slots, pages) && SlotOf(s.slots, op.page, 0) < |s.slots|
    ensures AllMirror(env, Execute(env, s, op).0.mem, Execute(env, s, op).0.slots, pages)
  {
    var i := SlotOf(s.slots, op.page, 0);
    if s.slots[i].page in pages && op.Write? {
      UpdatedMirrors(env, s.mem, s.slots[i].(use := true), op.offset, op.data);
    }
  }

  lemma SearchMirrors(env: Env, s: State, pages: set<nat>)
    requires WellFormed(env, s) && AllMirror(env, s.mem, s.slots, pages)
    ensures AllMirror(env, s.mem, Search(env.algorithm, s.slots, s.pointer).1, pages)
  {
    var slots := Search(env.algorithm, s.slots, s.pointer).1;
    forall i: nat | i < |slots| && slots[i].valid && slots[i].page in pages
      ensures Mirrors(env, s.mem, slots[i])
    {
      SearchKeeps(env.algorithm, s.slots, s.pointer, i);
      assert Mirrors(env, s.mem, s.slots[i]);
    }
  }

  /** After a miss the page read has the slot, whole if it was read from the start. */
  function PagesAfterMiss(op: Op, pages: set<nat>): set<nat> {
    if op.Read? && op.offset == 0 then pages + {op.page} else pages - {op.page}
  }

  lemma ReplacedMirrors(env: Env, mem: seq<byte>, slots: seq<Slot>, v: nat, op: Op, pages: set<nat>)
    requires AllFit(env, slots) && UniquePages(slots) && GoodFrames(env, mem) && v < |slots| && InPage(env, op) && AllMirror(env, mem, slots, pages)
    requires SlotOf(slots, op.page, 0) == |slots|
    ensures var mem' := WrittenBack(env, mem, slots[v]);
            AllMirror(env, mem', slots[v := Replacement(env, mem', slots[v], op)], PagesAfterMiss(op, pages))
  {
    var mem' := WrittenBack(env, mem, slots[v]);
    var slots' := slots[v := Replacement(env, mem', slots[v], op)];
    forall i: nat | i < |slots'| && slots'[i].valid && slots'[i].page in PagesAfterMiss(op, pages)
      ensures Mirrors(env, mem', slots'[i])
    {
      if i == v {
        WrittenBackFrame(env, mem, slots[v], op.page, op.offset);
        LoadedMirrors(env, mem', op);
      } else {
        NotBefore(slots, op.page, 0, i);
        WriteBackMirrors(env, mem, slots[v], slots[i]);
      }
    }
  }

  lemma MissMirrors(env: Env, s: State, op: Op, pages: set<nat>)
    requires Sane(env, s) && InPage(env, op) && AllMirror(env, s.mem, s.slots, pages) && SlotOf(s.slots, op.page, 0) == |s.slots|
    ensures var (s', ok) := Execute(env, s, op);
            AllMirror(env, s'.mem, s'.slots, if ok then PagesAfterMiss(op, pages) else pages)
  {
    SearchSane(env, s, op.page);
    SearchMirrors(env, s, pages);
    var (victim, slots, pointer) := Search(env.algorithm, s.slots, s.pointer);
    ReplacedMirrors(env, s.mem, slots, victim, op, pages);
  }

  /** Along a run the slots of these pages hold what memory holds, outside what was modified. */
  lemma {:induction false} WholePagesMirror(env: Env, s: State, ops: seq<Op>)
    requires Sane(env, s) && NothingCached(s) && AllInPage(env, ops)
    ensures AllMirror(env, RunCached(env, s, ops).mem, RunCached(env, s, ops).slots, WholePages(env, s, ops))
  {
    if ops != [] {
      var front, op := ops[..|ops| - 1], ops[|ops| - 1];
      var before, pages := RunCached(env, s, front), WholePages(env, s, front);
      WholePagesMirror(env, s, front);
      if SlotOf(before.slots, op.page, 0) < |before.slots| {
        HitMirrors(env, before, op, pages);
      } else {
        MissMirrors(env, before, op, pages);
      }
    }
  }

  /** Every write touches what its page has modified, or its page was read from the start. */
  ghost predicate AllKnown(env: Env, s: State, ops: seq<Op>)
    requires Sane(env, s) && AllInPage(env, ops)
  {
    ops == [] ||
    (var front, op := ops[..|ops| - 1], ops[|ops| - 1];
     AllKnown(env, s, front) && (Touches(env, RunCached(env, s, front), op) || op.page in WholePages(env, s, front)))
  }

  lemma MirrorSweepsRight(env: Env, s: State, op: Op, pages: set<nat>)
    requires Sane(env, s) && InPage(env, op) && AllMirror(env, s.mem, s.slots, pages) && op.page in pages
    ensures SweepsRight(env, s, op)
  {
    var i := SlotOf(s.slots, op.page, 0);
    forall b: nat | b < env.pageSize && (op.page, b) in Gap(env, s, op)
      ensures i < |s.slots| && SlotFits(env, s.slots[i]) && s.slots[i].content[b] == Frame(s.mem, env.pageSize, env.frames[op.page])[b]
    {
      GapInPage(env, s, op, op.page, b);
      InSpan(op.page, s.slots[i].end, op.offset, op.page, b);
      InSpan(op.page, op.offset + |op.data|, s.slots[i].start, op.page, b);
      assert Mirrors(env, s.mem, s.slots[i]) && !Covers(s.slots[i], b);
    }
  }

  lemma KnownSweepsRight(env: Env, s: State, ops: seq<Op>, op: Op)
    requires Sane(env, s) && NothingCached(s) && AllInPage(env, ops) && InPage(env, op)
    requires Touches(env, RunCached(env, s, ops), op) || op.page in WholePages(env, s, ops)
    ensures SweepsRight(env, RunCached(env, s, ops), op)
  {
    if op.page in WholePages(env, s, ops) {
      WholePagesMirror(env, s, ops);
      MirrorSweepsRight(env, RunCached(env, s, ops), op, WholePages(env, s, ops));
    } else {
      TouchingLeavesNoGap(env, RunCached(env, s, ops), op);
    }
  }

  lemma RightStepPends(env: Env, s: State, op: Op, page: nat, b: nat)
    requires Sane(env, s) && InPage(env, op) && SweepsRight(env, s, op) && page < |env.frames| && b < env.pageSize
    ensures var (s', ok) := Execute(env, s, op);
            Sane(env, s') && PendingIn(env, s', page, b) == if ok && Stores(op, page, b) then op.data[b - op.offset] else PendingIn(env, s, page, b)
  {
    StepIsExact(env, s, op);
  }

  /** Along such a run every byte is pending as a CPU without cache has it in memory. */
  lemma {:induction false} KnownRunPends(env: Env, s: State, ops: seq<Op>, page: nat, b: nat)
    requires Sane(env, s) && NothingCached(s) && AllInPage(env, ops) && AllKnown(env, s, ops) && page < |env.frames| && b < env.pageSize
    ensures HasFrame(RunDirect(env, s, ops), env.pageSize, env.frames[page])
    ensures PendingIn(env, RunCached(env, s, ops), page, b) == Frame(RunDirect(env, s, ops), env.pageSize, env.frames[page])[b]
  {
    if ops == [] {
      PendingWithoutCache(env, s.mem, s.slots, page, b);
    } else {
      var front, op := ops[..|ops| - 1], ops[|ops| - 1];
      KnownRunPends(env, s, front, page, b);
      KnownSweepsRight(env, s, front, op);
      RightStepPends(env, RunCached(env, s, front), op, page, b);
      DirectIsGood(env, s, front);
      DirectSeen(env, RunDirect(env, s, front), op, page, b);
    }
  }

  lemma KnownByte(env: Env, s: State, ops: seq<Op>, page: nat, b: nat)
    requires Sane(env, s) && NothingCached(s) && AllInPage(env, ops) && AllKnown(env, s, ops) && page < |env.frames| && b < env.pageSize
    ensures var mem, direct, a := Flush(env, RunCached(env, s, ops)).mem, RunDirect(env, s, ops), AddressOf(env, page, b);
            a < |mem| == |direct| && mem[a] == direct[a]
  {
    KnownRunPends(env, s, ops, page, b);
    FlushedPending(env, RunCached(env, s, ops), page, b);
    ByteOfPage(env, RunDirect(env, s, ops), page, b);
  }

  lemma KnownPlace(env: Env, s: State, ops: seq<Op>, a: nat)
    requires Sane(env, s) && NothingCached(s) && AllInPage(env, ops) && AllKnown(env, s, ops) && a < |s.mem|
    ensures Flush(env, RunCached(env, s, ops)).mem[a] == RunDirect(env, s, ops)[a]
  {
    if InProcess(env, a) {
      var page, b := PlaceOf(env, a);
      KnownByte(env, s, ops, page, b);
    } else {
      FlushedOutside(env, s, ops, a);
    }
  }

  /** If every write touches what its page has modified or is to a page that was read from its
      start, memory ends as without cache. */
  lemma KnownRunAgrees(env: Env, s: State, ops: seq<Op>)
    requires Sane(env, s) && NothingCached(s) && AllInPage(env, ops) && AllKnown(env, s, ops)
    ensures Flush(env, RunCached(env, s, ops)).mem == RunDirect(env, s, ops)
  {
    forall a: nat | a < |s.mem|
      ensures Flush(env, RunCached(env, s, ops)).mem[a] == RunDirect(env, s, ops)[a]
    {
      KnownPlace(env, s, ops, a);
    }
  }

  /** The flush empties the cache. */
  lemma FlushEmpties(env: Env, s: State)
    requires Sane(env, s)
    ensures Sane(env, Flush(env, s)) && NothingCached(Flush(env, s))
  {
    EmptiedFits(env, s.slots, |s.slots|);
    FlushedIsGood(env, s, |s.slots|);
  }

  /** Memory already holds every byte of the process as a flush would leave it. */
  ghost predicate NothingOwed(env: Env, s: State)
    requires Sane(env, s)
  {
    forall page: nat, b: nat | page < |env.frames| && b < env.pageSize :: PendingIn(env, s, page, b) == Frame(s.mem, env.pageSize, env.frames[page])[b]
  }

  lemma FlushedPending(env: Env, s: State, page: nat, b: nat)
    requires Sane(env, s) && page < |env.frames| && b < env.pageSize
    ensures var mem, a := Flush(env, s).mem, AddressOf(env, page, b);
            && HasFrame(mem, env.pageSize, env.frames[page]) && Frame(mem, env.pageSize, env.frames[page])[b] == PendingIn(env, s, page, b)
            && a < |mem| == |s.mem| && mem[a] == PendingIn(env, s, page, b) && s.mem[a] == Frame(s.mem, env.pageSize, env.frames[page])[b]
  {
    FlushPending(env, s, |s.slots|, page, b);
    PendingWithoutCache(env, Flush(env, s).mem, Flush(env, s).slots, page, b);
    ByteOfPage(env, Flush(env, s).mem, page, b);
    ByteOfPage(env, s.mem, page, b);
  }

  /** A turn that ends by a system call ends without the flush. Memory is then as the flush
      would have left it if and only if no cached byte is still owed to it. */
  lemma UnflushedIsExact(env: Env, s: State)
    requires Sane(env, s)
    ensures Flush(env, s).mem == s.mem <==> NothingOwed(env, s)
  {
    forall page: nat, b: nat | page < |env.frames| && b < env.pageSize
      ensures Flush(env, s).mem == s.mem ==> PendingIn(env, s, page, b) == Frame(s.mem, env.pageSize, env.frames[page])[b]
    {
      FlushedPending(env, s, page, b);
    }
    if NothingOwed(env, s) {
      FlushStaysInside(env, s, |s.slots|);
      forall a: nat | a < |s.mem|
        ensures Flush(env, s).mem[a] == s.mem[a]
      {
        if InProcess(env, a) {
          var p: nat :| p < |env.frames| && AddressOf(env, p, 0) <= a < AddressOf(env, p, 0) + env.pageSize;
          FlushedPending(env, s, p, a - AddressOf(env, p, 0));
        }
      }
    }
  }

  /** An instruction is refused exactly when the TLB is on and the page it misses would
      replace a dirty page in frame 0; then memory stays and only use bits and pointer move. */
  lemma RefusalIsFrameZero(env: Env, s: State, op: Op)
    requires Sane(env, s) && InPage(env, op) && env.pageSize > 0
    ensures var (s', ok) := Execute(env, s, op);
            var (victim, slots, pointer) := Search(env.algorithm, s.slots, s.pointer);
            && (!ok <==> env.tlb && SlotOf(s.slots, op.page, 0) == |s.slots| && Dirty(slots[victim])
                         && slots[victim].page < |env.frames| && env.frames[slots[victim].page] == 0)
            && (!ok ==> s' == State(s.mem, slots, pointer))
  {
    var (victim, slots, pointer) := Search(env.algorithm, s.slots, s.pointer);
    SearchSane(env, s, op.page);
    if slots[victim].valid {
      TimesIsProduct(env.frames[slots[victim].page], env.pageSize);
    }
  }

  // --- Refused instructions ------------------------------------------------

  /** The same instruction tried again and again: the CPU does not go on to the next one
      before it is executed. */
  ghost function Retried(env: Env, s: State, op: Op, n: nat): (s': State)
    requires Sane(env, s) && InPage(env, op)
    ensures Sane(env, s')
    decreases n
  {
    if n == 0 then s
    else
      StepPending(env, s, op, op.page, op.offset);
      Retried(env, Execute(env, s, op).0, op, n - 1)
  }

  /** The slot a refusal is about: dirty, of the page in frame 0, and chosen as the victim. */
  ghost predicate RefusedFor(env: Env, s: State, op: Op, v: nat)
    requires Sane(env, s) && InPage(env, op)
  {
    && v < |s.slots| && env.tlb && SlotOf(s.slots, op.page, 0) == |s.slots| && Dirty(s.slots[v])
    && s.slots[v].page < |env.frames| && env.frames[s.slots[v].page] == 0
  }

  lemma RefusedVictim(env: Env, s: State, op: Op) returns (v: nat)
    requires Sane(env, s) && InPage(env, op) && env.pageSize > 0 && !Execute(env, s, op).1
    ensures RefusedFor(env, s, op, v) && v == Search(env.algorithm, s.slots, s.pointer).0
    ensures var s' := Execute(env, s, op).0;
            Sane(env, s') && RefusedFor(env, s', op, v) && |s'.slots| == |s.slots| && s'.mem == s.mem
            && s'.slots == Search(env.algorithm, s.slots, s.pointer).1 && s'.pointer == Turn(v, 1, |s.slots|)
            && !s'.slots[v].use
  {
    RefusalIsFrameZero(env, s, op);
    SearchSane(env, s, op.page);
    VictimIsUnused(env.algorithm, s.slots, s.pointer);
    v := Search(env.algorithm, s.slots, s.pointer).0;
    SearchKeeps(env.algorithm, s.slots, s.pointer, v);
  }

  /** Only one slot can be refused for: one page is in frame 0, and it is cached once. */
  lemma RefusedForOne(env: Env, s: State, op: Op, v: nat)
    requires Sane(env, s) && InPage(env, op) && env.pageSize > 0 && RefusedFor(env, s, op, v)
    ensures Execute(env, s, op).1 <==> Search(env.algorithm, s.slots, s.pointer).0 != v
  {
    RefusalIsFrameZero(env, s, op);
    var (victim, slots, _) := Search(env.algorithm, s.slots, s.pointer);
    SearchKeeps(env.algorithm, s.slots, s.pointer, victim);
    if victim != v && Dirty(s.slots[victim]) {
      assert s.slots[victim].page != s.slots[v].page;
    }
  }

  /** A refused instruction on a cache of one slot. */
  ghost predicate Stuck(env: Env, s: State, op: Op) {
    Sane(env, s) && InPage(env, op) && env.pageSize > 0 && |s.slots| == 1 && !Execute(env, s, op).1
  }

  lemma StuckAgain(env: Env, s: State, op: Op, s': State)
    requires Stuck(env, s, op) && s' == Execute(env, s, op).0
    ensures Stuck(env, s', op) && s'.mem == s.mem
  {
    var v := RefusedVictim(env, s, op);
    RefusedForOne(env, s', op, v);
  }

  /** With a cache of one slot an instruction refused once is refused at every further try,
      until something flushes the cache. */
  lemma {:induction false} RefusedForever(env: Env, s: State, op: Op, n: nat)
    requires Stuck(env, s, op)
    ensures Stuck(env, Retried(env, s, op, n), op) && Retried(env, s, op, n).mem == s.mem
    decreases n
  {
    if n > 0 {
      var s' := Execute(env, s, op).0;
      StuckAgain(env, s, op, s');
      RefusedForever(env, s', op, n - 1);
    }
  }

  /** With two slots or more an instruction is executed at the third try at the latest. */
  lemma ThreeTriesSuffice(env: Env, s: State, op: Op)
    requires Sane(env, s) && InPage(env, op) && env.pageSize > 0 && |s.slots| > 1
    ensures || Execute(env, s, op).1
            || Execute(env, Retried(env, s, op, 1), op).1
            || Execute(env, Retried(env, s, op, 2), op).1
  {
    if !Execute(env, s, op).1 {
      var v := RefusedVictim(env, s, op);
      var once := Retried(env, s, op, 1);
      if !Execute(env, once, op).1 {
        TwiceRefused(env, once, op, v);
        assert Retried(env, s, op, 2) == Retried(env, once, op, 1);
      }
    }
  }

  lemma TwiceRefused(env: Env, s: State, op: Op, v: nat)
    requires Sane(env, s) && InPage(env, op) && env.pageSize > 0 && |s.slots| > 1
    requires RefusedFor(env, s, op, v) && s.pointer == Turn(v, 1, |s.slots|) && !s.slots[v].use && !Execute(env, s, op).1
    ensures var s' := Execute(env, s, op).0; Sane(env, s') && Execute(env, s', op).1
  {
    RefusedForOne(env, s, op, v);
    var u := RefusedVictim(env, s, op);
    var s' := Execute(env, s, op).0;
    forall i: nat | i < |s.slots|
      ensures s'.slots[i].valid && !s'.slots[i].use
    {
      if i != v {
        ChosenLast(env.algorithm, s.slots, v, i);
      }
    }
    NotChosenAgain(env.algorithm, s'.slots, v);
    RefusedForOne(env, s', op, v);
  }

  // --- The unit itself -----------------------------------------------------

  class CachedCpu {
    const env: Env
    const cache: PageCache
    const memory: UserSpace

    constructor (env: Env, cache: PageCache, memory: UserSpace)
      ensures this.env == env && this.cache == cache && this.memory == memory
    {
      this.env, this.cache, this.memory := env, cache, memory;
    }

    ghost function Value(): State
      reads cache, memory.bytes
    {
      State(memory.bytes[..], cache.slots, cache.pointer)
    }

    ghost predicate Valid()
      reads cache, memory.bytes
    {
      WellFormed(env, Value()) && memory.pageSize == env.pageSize
    }

    /** Looks a page up; a hit sets the use bit. */
    method FindEntry(page: nat) returns (i: nat)
      requires Valid()
      modifies cache
      ensures i == SlotOf(old(cache.slots), page, 0)
      ensures Valid() && Value() == if i < |old(cache.slots)| then old(Value()).(slots := old(cache.slots)[i := old(cache.slots)[i].(use := true)]) else old(Value())
    {
      i := 0;
      while i < |cache.slots| && !(cache.slots[i].valid && cache.slots[i].page == page)
        invariant i <= |cache.slots| && SlotOf(cache.slots, page, i) == SlotOf(cache.slots, page, 0)
      {
        i := i + 1;
      }
      if i < |cache.slots| {
        cache.slots := cache.slots[i := cache.slots[i].(use := true)];
      }
    }

    method WriteBackSlot(i: nat)
      requires Valid() && i < |cache.slots|
      modifies memory.bytes
      ensures Valid() && Value() == old(Value()).(mem := WrittenBack(env, old(Value()).mem, cache.slots[i]))
    {
      var e := cache.slots[i];
      if e.valid && e.modified && e.start < e.end {
        TimesIsProduct(env.frames[e.page], env.pageSize);
        var physical := env.frames[e.page] * env.pageSize;
        memory.Write(physical + e.start, e.content[e.start..e.end]);
      }
    }

    /** Chooses a victim and writes it back if it is dirty. */
    method SelectVictim() returns (ok: bool, victim: nat)
      requires Valid()
      modifies cache, memory.bytes
      ensures var (chosen, slots, pointer) := Search(env.algorithm, old(cache.slots), old(cache.pointer));
              && victim == chosen && cache.pointer == pointer && |slots| == |old(cache.slots)|
              && SlotFits(env, slots[chosen])
              && ok == !Refused(env, slots[chosen])
              && cache.slots == (if ok then slots[chosen := Evicted(env, slots[chosen])] else slots)
              && memory.bytes[..] == (if ok then WrittenBack(env, old(memory.bytes[..]), slots[chosen]) else old(memory.bytes[..]))
      ensures Valid()
    {
      ghost var s := Value();
      if env.algorithm.Clock? {
        var inspections;
        victim, inspections := cache.FindVictimClock();
      } else {
        var rounds;
        victim, rounds := cache.FindVictimClockM();
      }
      SearchFits(env, s);
      var e := cache.slots[victim];
      if e.valid && e.modified {
        if env.tlb && env.frames[e.page] * env.pageSize == 0 {
          TimesIsProduct(env.frames[e.page], env.pageSize);
          return false, victim;
        }
        TimesIsProduct(env.frames[e.page], env.pageSize);
        WriteBackSlot(victim);
        cache.slots := cache.slots[victim := e.(content := Zeros(env.pageSize), start := 0, end := 0)];
      }
      ok := true;
    }

    /** Widens the modified part and stores the bytes. */
    method StoreInSlot(i: nat, offset: nat, data: seq<byte>)
      requires Valid() && i < |cache.slots| && cache.slots[i].valid && offset + |data| <= env.pageSize
      modifies cache
      ensures Valid() && cache.pointer == old(cache.pointer)
      ensures cache.slots == old(cache.slots)[i := Updated(old(cache.slots)[i], offset, data)]
    {
      var e := cache.slots[i];
      if !e.modified {
        e := e.(start := offset, end := offset + |data|);
      } else {
        if offset < e.start {
          e := e.(start := offset);
        }
        if offset + |data| > e.end {
          e := e.(end := offset + |data|);
        }
      }
      cache.slots := cache.slots[i := e.(content := Splice(e.content, offset, data), modified := true)];
    }

    /** Gives a slot to a page about to be written; the modified bit stays. */
    method Install(i: nat, page: nat, offset: nat, data: seq<byte>)
      requires Valid() && i < |cache.slots| && InPage(env, Write(page, offset, data))
      modifies cache
      ensures Valid() && cache.pointer == old(cache.pointer)
      ensures cache.slots == old(cache.slots)[i := Slot(true, page, Zeros(env.pageSize), true, old(cache.slots)[i].modified, offset, offset + |data|)]
    {
      cache.slots := cache.slots[i := Slot(true, page, Zeros(env.pageSize), true, cache.slots[i].modified, offset, offset + |data|)];
    }

    method WriteInstruction(page: nat, offset: nat, data: seq<byte>) returns (ok: bool)
      requires Valid() && InPage(env, Write(page, offset, data))
      modifies cache, memory.bytes
      ensures Valid() && Value() == Execute(env, old(Value()), Write(page, offset, data)).0
      ensures ok == Execute(env, old(Value()), Write(page, offset, data)).1
    {
      var i := FindEntry(page);
      if i == |cache.slots| {
        ok, i := SelectVictim();
        if !ok {
          return;
        }
        Install(i, page, offset, data);
      }
      StoreInSlot(i, offset, data);
      ok := true;
    }

    method ReadInstruction(page: nat, offset: nat) returns (ok: bool)
      requires Valid() && InPage(env, Read(page, offset))
      modifies cache, memory.bytes
      ensures Valid() && Value() == Execute(env, old(Value()), Read(page, offset)).0
      ensures ok == Execute(env, old(Value()), Read(page, offset)).1
    {
      var i := FindEntry(page);
      if i < |cache.slots| {
        return true;
      }
      ok, i := SelectVictim();
      if ok {
        LoadSlot(i, page, offset);
      }
    }

    method LoadSlot(i: nat, page: nat, offset: nat)
      requires Valid() && i < |cache.slots| && InPage(env, Read(page, offset))
      modifies cache
      ensures Valid() && Value() == old(Value()).(slots := old(Value()).slots[i := Loaded(env, old(Value()).mem, Read(page, offset))])
    {
      TimesIsProduct(env.frames[page], env.pageSize);
      var content := memory.Read(env.frames[page] * env.pageSize + offset, env.pageSize);
      cache.slots := cache.slots[i := Slot(true, page, content, true, false, 0, 0)];
    }

    /** The flush at the end of a process's turn. */
    method Cleanup()
      requires Valid()
      modifies cache, memory.bytes
      ensures Valid() && Value() == Flush(env, old(Value()))
    {
      ghost var s := Value();
      for i := 0 to |cache.slots|
        invariant Valid() && cache.pointer == s.pointer && |cache.slots| == |s.slots|
        invariant cache.slots == Emptied(s.slots, i) && memory.bytes[..] == FlushedUpTo(env, s.mem, s.slots, i)
      {
        WriteBackSlot(i);
        cache.slots := cache.slots[i := cache.slots[i].(valid := false, modified := false, start := 0, end := 0)];
      }
    }
  }

  lemma SearchFits(env: Env, s: State)
    requires WellFormed(env, s)
    ensures AllFit(env, Search(env.algorithm, s.slots, s.pointer).1)
  {
    var slots := Search(env.algorithm, s.slots, s.pointer).1;
    forall i: nat | i < |slots|
      ensures SlotFits(env, slots[i])
    {
      SearchKeeps(env.algorithm, s.slots, s.pointer, i);
      assert SlotFits(env, s.slots[i]);
    }
  }

  // --- A lost write --------------------------------------------------------

  /** One slot, two pages of five bytes, no TLB. */
  const SMALL := Env(5, [0, 1], false, Clock)

  const LOSING_RUN := [Write(0, 2, [7]), Write(1, 0, [1]), Write(0, 0, [5]), Write(0, 4, [6])]

  function SmallStart(): State {
    State(Zeros(10), [Slot(false, 0, Zeros(5), false, false, 0, 0)], 0)
  }

  function Cached(page: nat, content: seq<byte>, start: nat, end: nat): Slot {
    Slot(true, page, content, true, true, start, end)
  }

  /** A cache of one slot always chooses it. */
  lemma OnlySlot(e: Slot)
    ensures Search(Clock, [e], 0) == (0, [if Spared(e) then e.(use := false) else e], 0)
  {
    var k := if Spared(e) then 1 else 0;
    assert ClockStop([e], 0, 1) == 1;
    assert ClockStop([e], 0, 0) == k;
    assert Passed([e], 0, k) == [if Spared(e) then e.(use := false) else e];
  }

  lemma MissOfOnlySlot(mem: seq<byte>, e: Slot, op: Op)
    requires SlotFits(SMALL, e) && InPage(SMALL, op) && op.Write? && !(e.valid && e.page == op.page)
    ensures WellFormed(SMALL, State(mem, [e], 0))
    ensures Execute(SMALL, State(mem, [e], 0), op)
         == (State(WrittenBack(SMALL, mem, e), [Updated(InstalledForWrite(SMALL, e, op), op.offset, op.data)], 0), true)
  {
    OnlySlot(e);
    assert SlotOf([e], op.page, 1) == 1;
    assert SlotOf([e], op.page, 0) == 1;
    var unused := if Spared(e) then e.(use := false) else e;
    assert WrittenBack(SMALL, mem, unused) == WrittenBack(SMALL, mem, e);
    var e' := Updated(InstalledForWrite(SMALL, e, op), op.offset, op.data);
    assert [unused][0 := e'] == [e'];
  }

  lemma LosingFirst()
    ensures WellFormed(SMALL, SmallStart())
    ensures Execute(SMALL, SmallStart(), LOSING_RUN[0]) == (State(Zeros(10), [Cached(0, [0, 0, 7, 0, 0], 2, 3)], 0), true)
  {
    MissOfOnlySlot(Zeros(10), SmallStart().slots[0], LOSING_RUN[0]);
    assert Splice(Zeros(5), 2, [7]) == [0, 0, 7, 0, 0];
  }

  lemma LosingSecond()
    ensures Execute(SMALL, State(Zeros(10), [Cached(0, [0, 0, 7, 0, 0], 2, 3)], 0), LOSING_RUN[1])
         == (State([0, 0, 7, 0, 0, 0, 0, 0, 0, 0], [Cached(1, [1, 0, 0, 0, 0], 0, 1)], 0), true)
  {
    MissOfOnlySlot(Zeros(10), Cached(0, [0, 0, 7, 0, 0], 2, 3), LOSING_RUN[1]);
    assert [0, 0, 7, 0, 0][2..3] == [7];
    assert Splice(Zeros(10), 2, [7]) == [0, 0, 7, 0, 0, 0, 0, 0, 0, 0];
    assert Splice(Zeros(5), 0, [1]) == [1, 0, 0, 0, 0];
  }

  lemma LosingThird()
    ensures Execute(SMALL, State([0, 0, 7, 0, 0, 0, 0, 0, 0, 0], [Cached(1, [1, 0, 0, 0, 0], 0, 1)], 0), LOSING_RUN[2])
         == (State([0, 0, 7, 0, 0, 1, 0, 0, 0, 0], [Cached(0, [5, 0, 0, 0, 0], 0, 1)], 0), true)
  {
    MissOfOnlySlot([0, 0, 7, 0, 0, 0, 0, 0, 0, 0], Cached(1, [1, 0, 0, 0, 0], 0, 1), LOSING_RUN[2]);
    assert [1, 0, 0, 0, 0][0..1] == [1];
    assert Times(1, 5) == 5;
    assert Splice([0, 0, 7, 0, 0, 0, 0, 0, 0, 0], 5, [1]) == [0, 0, 7, 0, 0, 1, 0, 0, 0, 0];
    assert Splice(Zeros(5), 0, [5]) == [5, 0, 0, 0, 0];
  }

  lemma LosingFourth()
    ensures Execute(SMALL, State([0, 0, 7, 0, 0, 1, 0, 0, 0, 0], [Cached(0, [5, 0, 0, 0, 0], 0, 1)], 0), LOSING_RUN[3])
         == (State([0, 0, 7, 0, 0, 1, 0, 0, 0, 0], [Cached(0, [5, 0, 0, 0, 6], 0, 5)], 0), true)
  {
    var e := Cached(0, [5, 0, 0, 0, 0], 0, 1);
    assert SlotOf([e], 0, 0) == 0;
    assert [e][0 := Cached(0, [5, 0, 0, 0, 6], 0, 5)] == [Cached(0, [5, 0, 0, 0, 6], 0, 5)];
    assert Splice([5, 0, 0, 0, 0], 4, [6]) == [5, 0, 0, 0, 6];
  }

  lemma LosingEnd()
    requires Sane(SMALL, SmallStart()) && AllInPage(SMALL, LOSING_RUN)
    ensures RunCached(SMALL, SmallStart(), LOSING_RUN) == State([0, 0, 7, 0, 0, 1, 0, 0, 0, 0], [Cached(0, [5, 0, 0, 0, 6], 0, 5)], 0)
    ensures forall k: nat | k < 4 :: Execute(SMALL, RunCached(SMALL, SmallStart(), LOSING_RUN[..k]), LOSING_RUN[k]).1
  {
    LosingFirst();
    LosingSecond();
    LosingThird();
    LosingFourth();
    assert LOSING_RUN[..1][..0] == LOSING_RUN[..0] && LOSING_RUN[..2][..1] == LOSING_RUN[..1];
    assert LOSING_RUN[..3][..2] == LOSING_RUN[..2] && LOSING_RUN[..4][..3] == LOSING_RUN[..3] && LOSING_RUN[..4] == LOSING_RUN;
    assert RunCached(SMALL, SmallStart(), LOSING_RUN[..0]) == SmallStart();
    assert RunCached(SMALL, SmallStart(), LOSING_RUN[..1]) == State(Zeros(10), [Cached(0, [0, 0, 7, 0, 0], 2, 3)], 0);
    assert RunCached(SMALL, SmallStart(), LOSING_RUN[..2]) == State([0, 0, 7, 0, 0, 0, 0, 0, 0, 0], [Cached(1, [1, 0, 0, 0, 0], 0, 1)], 0);
    assert RunCached(SMALL, SmallStart(), LOSING_RUN[..3]) == State([0, 0, 7, 0, 0, 1, 0, 0, 0, 0], [Cached(0, [5, 0, 0, 0, 0], 0, 1)], 0);
  }

  lemma SmallIsSane()
    ensures Sane(SMALL, SmallStart()) && NothingCached(SmallStart()) && AllInPage(SMALL, LOSING_RUN)
  {
    assert Times(1, 5) == 5;
  }

  /** Without touching writes even a byte already written to memory can be lost: the 7 of
      the first instruction is gone after the flush, while the direct CPU keeps it. */
  lemma WriteCanBeLost()
    ensures Sane(SMALL, SmallStart()) && NothingCached(SmallStart()) && AllInPage(SMALL, LOSING_RUN)
    ensures Flush(SMALL, RunCached(SMALL, SmallStart(), LOSING_RUN)).mem == [5, 0, 0, 0, 6, 1, 0, 0, 0, 0]
    ensures RunDirect(SMALL, SmallStart(), LOSING_RUN) == [5, 0, 7, 0, 6, 1, 0, 0, 0, 0]
  {
    SmallIsSane();
    LosingEnd();
    LosingFlush();
    LosingDirect();
  }

  lemma LosingFlush()
    ensures var s := State([0, 0, 7, 0, 0, 1, 0, 0, 0, 0], [Cached(0, [5, 0, 0, 0, 6], 0, 5)], 0);
            WellFormed(SMALL, s) && Flush(SMALL, s).mem == [5, 0, 0, 0, 6, 1, 0, 0, 0, 0]
  {
    var slots := [Cached(0, [5, 0, 0, 0, 6], 0, 5)];
    assert FlushedUpTo(SMALL, [0, 0, 7, 0, 0, 1, 0, 0, 0, 0], slots, 0) == [0, 0, 7, 0, 0, 1, 0, 0, 0, 0];
    assert [5, 0, 0, 0, 6][0..5] == [5, 0, 0, 0, 6];
    assert Splice([0, 0, 7, 0, 0, 1, 0, 0, 0, 0], 0, [5, 0, 0, 0, 6]) == [5, 0, 0, 0, 6, 1, 0, 0, 0, 0];
  }

  lemma DirectStep(ops: seq<Op>, k: nat, before: seq<byte>, after: seq<byte>)
    requires Sane(SMALL, SmallStart()) && AllInPage(SMALL, ops) && k < |ops| && ops[k].Write? && |before| == 10
    requires Execute(SMALL, RunCached(SMALL, SmallStart(), ops[..k]), ops[k]).1
    requires RunDirect(SMALL, SmallStart(), ops[..k]) == before && Direct(SMALL, before, ops[k]) == after
    ensures RunDirect(SMALL, SmallStart(), ops[..k + 1]) == after
  {
    assert ops[..k + 1][..k] == ops[..k];
  }

  lemma LosingWrites()
    ensures Direct(SMALL, Zeros(10), LOSING_RUN[0]) == [0, 0, 7, 0, 0, 0, 0, 0, 0, 0]
    ensures Direct(SMALL, [0, 0, 7, 0, 0, 0, 0, 0, 0, 0], LOSING_RUN[1]) == [0, 0, 7, 0, 0, 1, 0, 0, 0, 0]
    ensures Direct(SMALL, [0, 0, 7, 0, 0, 1, 0, 0, 0, 0], LOSING_RUN[2]) == [5, 0, 7, 0, 0, 1, 0, 0, 0, 0]
    ensures Direct(SMALL, [5, 0, 7, 0, 0, 1, 0, 0, 0, 0], LOSING_RUN[3]) == [5, 0, 7, 0, 6, 1, 0, 0, 0, 0]
  {
    assert Times(1, 5) == 5;
  }

  lemma LosingDirect()
    requires Sane(SMALL, SmallStart()) && AllInPage(SMALL, LOSING_RUN)
    requires forall k: nat | k < 4 :: Execute(SMALL, RunCached(SMALL, SmallStart(), LOSING_RUN[..k]), LOSING_RUN[k]).1
    ensures RunDirect(SMALL, SmallStart(), LOSING_RUN) == [5, 0, 7, 0, 6, 1, 0, 0, 0, 0]
  {
    LosingWrites();
    assert LOSING_RUN[..4] == LOSING_RUN;
    DirectStep(LOSING_RUN, 0, Zeros(10), [0, 0, 7, 0, 0, 0, 0, 0, 0, 0]);
    DirectStep(LOSING_RUN, 1, [0, 0, 7, 0, 0, 0, 0, 0, 0, 0], [0, 0, 7, 0, 0, 1, 0, 0, 0, 0]);
    DirectStep(LOSING_RUN, 2, [0, 0, 7, 0, 0, 1, 0, 0, 0, 0], [5, 0, 7, 0, 0, 1, 0, 0, 0, 0]);
    DirectStep(LOSING_RUN, 3, [5, 0, 7, 0, 0, 1, 0, 0, 0, 0], [5, 0, 7, 0, 6, 1, 0, 0, 0, 0]);
  }
}

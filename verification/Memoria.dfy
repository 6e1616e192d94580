/** The memory module as it runs: byte array, swap file, frame allocators, page tables and
    process records updated in place. Every operation is its counterpart in Store. */
module Memoria {
  import opened Arithmetic
  import opened Bytes
  import opened FrameAllocator
  import opened Lists
  import opened PageTables
  import opened Store
  import opened StoreRuns

  class ProcessInfo {
    const pid: int
    const processSize: int
    var isSuspended: bool
    var allocatedFrames: Option<seq<nat>>
    var pageTable: PageTable?
    ghost var tables: set<PageTable>
    ghost var mapped: seq<int>

    constructor (pid: int, size: int)
      ensures this.pid == pid && processSize == size && !isSuspended && allocatedFrames == None
      ensures pageTable == null && tables == {} && mapped == []
    {
      this.pid, processSize, isSuspended, allocatedFrames := pid, size, false, None;
      pageTable, tables, mapped := null, {}, [];
    }

    method SetPageTable(g: Geometry, frames: seq<nat>, root: PageTable, ghost ts: set<PageTable>, ghost mapped: seq<int>)
      requires g.Valid() && Shape(g.entriesPerTable, Snapshot(ts), root, g.Height(), 1)
      requires Contents(Snapshot(ts), root, g.Height()) == mapped
      modifies this
      ensures TableValid(g) && tables == ts
      ensures Value() == old(Value()).(frames := Some(frames), mapped := mapped)
    {
      allocatedFrames, pageTable := Some(frames), root;
      tables, this.mapped := ts, mapped;
    }

    ghost function Value(): Process
      reads this
    {
      Process(pid, processSize, isSuspended, allocatedFrames, mapped)
    }

    /** The page table is complete and holds what `mapped` says; without one nothing is mapped. */
    ghost predicate TableValid(g: Geometry)
      requires g.Valid()
      reads this, tables
    {
      if pageTable == null then mapped == []
      else
        && Shape(g.entriesPerTable, Snapshot(tables), pageTable, g.Height(), 1)
        && Contents(Snapshot(tables), pageTable, g.Height()) == mapped
    }
  }

  class SwapFile {
    var contents: seq<byte>
    const pageSize: nat

    constructor (pageSize: nat)
      ensures contents == [] && this.pageSize == pageSize
    {
      contents, this.pageSize := [], pageSize;
    }

    /** Writes one frame; `taken` is how many of its bytes the file system takes. */
    method WriteFrame(frame: nat, data: seq<byte>, taken: nat) returns (ok: bool)
      requires |data| == pageSize
      modifies this
      ensures ok <==> taken >= |data|
      ensures contents == FileWrite(old(contents), Times(frame, pageSize), data[..Min(taken, |data|)])
    {
      TimesIsProduct(frame, pageSize);
      var position := frame * pageSize;
      var written := Min(taken, |data|);
      contents := FileWrite(contents, position, data[..written]);
      ok := written == |data|;
    }

    /** Reads one frame; a file that ends before the frame's end cannot be read there. */
    method ReadFrame(frame: nat) returns (data: Option<seq<byte>>)
      ensures data == if HasFrame(contents, pageSize, frame) then Some(Frame(contents, pageSize, frame)) else None
    {
      TimesIsProduct(frame, pageSize);
      var position := frame * pageSize;
      if position + pageSize > |contents| {
        return None;
      }
      assert contents[position..position + pageSize] == Frame(contents, pageSize, frame);
      data := Some(contents[position..position + pageSize]);
    }
  }

  class Memory {
    const c: Config
    const user: UserSpace
    const file: SwapFile
    const userFrames: Allocator
    const swapFrames: Allocator
    const factory: TableFactory
    var processes: seq<ProcessInfo>
    ghost var tables: set<PageTable>

    constructor (c: Config)
      requires c.Valid()
      ensures Valid() && Value() == Initial(c) && this.c == c
    {
      this.c := c;
      user := new UserSpace(c.memorySize, c.pageSize);
      file := new SwapFile(c.pageSize);
      userFrames := new Allocator(c.memorySize / c.pageSize);
      swapFrames := new Allocator(SWAP_FRAMES);
      factory := new TableFactory();
      processes, tables := [], {};
      new;
      InitialInv(c);
    }

    ghost function Processes(): seq<Process>
      reads this, processes
    {
      seq(|processes|, i requires 0 <= i < |processes| reads this, processes => processes[i].Value())
    }

    ghost function Value(): State
      reads this, user.bytes, file, userFrames, userFrames.bits, swapFrames, swapFrames.bits, processes
    {
      State(user.bytes[..], file.contents, userFrames.bits[..], userFrames.freeCount, swapFrames.bits[..], swapFrames.freeCount, Processes())
    }

    /** The parts are different objects. */
    ghost predicate Separate()
      reads this
    {
      && userFrames != swapFrames && userFrames.bits != swapFrames.bits
      && user.pageSize == c.pageSize && file.pageSize == c.pageSize
      && forall i: nat, j: nat | i < j < |processes| :: processes[i] != processes[j]
    }

    ghost predicate TablesValid()
      requires c.Valid()
      reads this, factory, processes, tables
    {
      && factory.nextTableId == 1
      && forall i: nat | i < |processes| :: processes[i].tables <= tables && processes[i].TableValid(c.g)
    }

    ghost predicate Valid()
      reads this, user.bytes, file, userFrames, userFrames.bits, swapFrames, swapFrames.bits, factory, processes, tables
    {
      c.Valid() && Separate() && TablesValid() && Inv(c, Value())
    }

    method FindProcess(pid: int) returns (i: nat)
      ensures i == Find(Processes(), pid)
    {
      i := 0;
      while i < |processes| && processes[i].pid != pid
        invariant i <= |processes| && FindFrom(Processes(), pid, i) == Find(Processes(), pid)
      {
        assert Processes()[i].pid == processes[i].pid;
        i := i + 1;
      }
      assert i < |processes| ==> Processes()[i].pid == processes[i].pid;
    }

    /** All but the invariant on values: what every single change of a part keeps. */
    ghost predicate Sound()
      reads this, factory, processes, tables
    {
      c.Valid() && Separate() && TablesValid()
    }

    method RemoveProcess(i: nat)
      requires Sound() && i < |processes|
      modifies this
      ensures Sound() && Value() == old(Value()).(procs := Without(old(Value()).procs, i))
    {
      ghost var was := Processes();
      processes := processes[..i] + processes[i + 1..];
      assert Processes() == Without(was, i);
    }

    method ReleaseUserFrames(frames: seq<nat>)
      requires Sound() && Within(frames, userFrames.bits.Length)
      modifies userFrames, userFrames.bits
      ensures Sound()
      ensures Value() == old(Value()).(userBits := Marked(old(Value()).userBits, frames, false), userFree := old(Value()).userFree + |frames|)
    {
      userFrames.Release(frames);
    }

    /** Frames to be released in the user space are numbers of its bitmap. */
    ghost predicate Releasable(pid: int)
      reads this, userFrames.bits, processes
    {
      var i := Find(Processes(), pid);
      i < |processes| && processes[i].allocatedFrames.Some? ==> Within(processes[i].allocatedFrames.value, userFrames.bits.Length)
    }

    /** Removes a process and releases its frames in the user space. */
    method DestroyProcess(pid: int) returns (ok: bool)
      requires Sound() && Releasable(pid)
      modifies this, userFrames, userFrames.bits
      ensures Sound() && (Value(), ok) == Kill(old(Value()), pid)
    {
      var i := FindProcess(pid);
      if i == |processes| {
        return false;
      }
      var proc := processes[i];
      RemoveProcess(i);
      if proc.processSize != 0 && proc.allocatedFrames.Some? {
        ReleaseUserFrames(proc.allocatedFrames.value);
      }
      ok := true;
    }

    /** The process has pages in swap. */
    ghost predicate InSwap(pid: int)
      reads this, processes
    {
      var i := Find(Processes(), pid);
      i < |processes| && processes[i].isSuspended && processes[i].allocatedFrames.Some? && processes[i].allocatedFrames.value != []
    }

    /** Destroys a process. One with pages in swap has their frame numbers released in the
        user space, and the module is not valid any more. */
    method KillProcess(pid: int) returns (ok: bool)
      requires Valid() && (InSwap(pid) ==> Releasable(pid))
      modifies this, userFrames, userFrames.bits
      ensures Sound() && (Value(), ok) == Kill(old(Value()), pid)
      ensures Valid() <==> !old(InSwap(pid))
    {
      KillKeepsExactly(c, Value(), pid);
      ResidentFramesWithin(c, Value(), Find(Processes(), pid));
      ok := DestroyProcess(pid);
    }

    // --- Creation ----------------------------------------------------------

    /** A page table with a process's frames in its first pages. */
    method BuildPageTable(frames: seq<nat>, pagesNeeded: int) returns (ok: bool, root: PageTable, ghost ts: set<PageTable>)
      requires c.Valid() && factory.nextTableId == 1
      modifies factory
      ensures fresh(ts) && factory.nextTableId == 1
      ensures ok <==> pagesNeeded > 0 && AssignedCount(c.g.Pages(), |frames|, pagesNeeded) == pagesNeeded
      ensures Shape(c.g.entriesPerTable, Snapshot(ts), root, c.g.Height(), 1)
      ensures ok && |frames| == pagesNeeded ==> Contents(Snapshot(ts), root, c.g.Height()) == WithoutFrames(c.g.Pages(), frames)
    {
      root, ts := factory.InitPageTable(c.g);
      ok := AssignFrames(c.g, root, frames, pagesNeeded, ts);
      if ok && |frames| == pagesNeeded {
        assert frames[..pagesNeeded] == frames;
      }
    }

    method AddProcess(proc: ProcessInfo)
      requires Sound() && proc !in processes && proc.TableValid(c.g)
      modifies this
      ensures Sound() && Value() == old(Value()).(procs := old(Value()).procs + [proc.Value()])
      ensures tables == old(tables) + proc.tables
    {
      ghost var was := Processes();
      processes := processes + [proc];
      tables := tables + proc.tables;
      assert Processes() == was + [proc.Value()];
    }

    method TakeUserFrames(pagesNeeded: int) returns (frames: Option<seq<nat>>)
      requires Sound()
      modifies userFrames, userFrames.bits
      ensures Sound() && frames == Granted(old(Value()).userBits, old(Value()).userFree, pagesNeeded)
      ensures frames.Some? ==>
                && Within(frames.value, |old(Value()).userBits|) && (pagesNeeded >= 0 ==> |frames.value| <= pagesNeeded)
                && Value() == old(Value()).(userBits := Marked(old(Value()).userBits, frames.value, true), userFree := old(Value()).userFree - |frames.value|)
      ensures frames.None? ==> Value() == old(Value())
    {
      frames := userFrames.Allocate(pagesNeeded);
      TakenCount(old(Value()).userBits, old(Value()).userFree, pagesNeeded);
    }

    /** Gives a new process its page table. */
    method AttachPageTable(proc: ProcessInfo, frames: seq<nat>) returns (ok: bool)
      requires c.Valid() && factory.nextTableId == 1
      modifies proc, factory
      ensures factory.nextTableId == 1
      ensures ok <==> |frames| > 0 && AssignedCount(c.g.Pages(), |frames|, |frames|) == |frames|
      ensures ok ==>
                && fresh(proc.tables) && proc.TableValid(c.g)
                && proc.Value() == old(proc.Value()).(frames := Some(frames), mapped := WithoutFrames(c.g.Pages(), frames))
    {
      var root;
      ghost var ts;
      ok, root, ts := BuildPageTable(frames, |frames|);
      if ok {
        proc.SetPageTable(c.g, frames, root, ts, WithoutFrames(c.g.Pages(), frames));
      }
    }

    /** Frames and page table for a new process; all given back on failure. */
    method FillProcess(proc: ProcessInfo) returns (ok: bool)
      requires Sound() && proc !in processes && proc.processSize != 0
      requires proc.Value() == Process(proc.pid, proc.processSize, false, None, [])
      modifies proc, userFrames, userFrames.bits, factory
      ensures Sound()
      ensures var (after, done) := Create(c, old(Value()), proc.pid, proc.processSize);
              && ok == done
              && (ok ==> fresh(proc.tables) && proc.TableValid(c.g) && after == Value().(procs := Value().procs + [proc.Value()]))
              && (!ok ==> after == Value())
    {
      var pagesNeeded := PagesNeeded(proc.processSize, c.pageSize);
      if userFrames.freeCount < pagesNeeded {
        return false;
      }
      var frames := TakeUserFrames(pagesNeeded);
      if frames.None? || |frames.value| != pagesNeeded {
        return false;
      }
      ok := AttachPageTable(proc, frames.value);
      if !ok {
        ReleaseUserFrames(frames.value);
      }
    }

    method NewProcess(pid: int, size: int) returns (ok: bool)
      requires Sound()
      modifies this, userFrames, userFrames.bits, factory
      ensures Sound() && fresh(tables - old(tables)) && old(tables) <= tables
      ensures (Value(), ok) == Create(c, old(Value()), pid, size)
    {
      var proc := new ProcessInfo(pid, size);
      if size != 0 {
        var filled := FillProcess(proc);
        if !filled {
          return false;
        }
      }
      AddProcess(proc);
      ok := true;
    }

    /** Creates a process; `scriptLoaded` is whether its script could be read. */
    method CreateProcess(pid: int, size: int, scriptLoaded: bool) returns (ok: bool)
      requires Valid() && Legal(c, Value(), CreateStep(pid, size))
      modifies this, userFrames, userFrames.bits, factory
      ensures Valid() && fresh(tables - old(tables)) && old(tables) <= tables
      ensures (Value(), ok) == if scriptLoaded then Create(c, old(Value()), pid, size) else (old(Value()), false)
      ensures ok ==> |processes| == |old(processes)| + 1
      ensures ok && size != 0 ==> processes[|old(processes)|].pageTable != null && Mapped(c, processes[|old(processes)|].Value())
    {
      if !scriptLoaded {
        return false;
      }
      ghost var s := Value();
      CreateKeeps(c, s, pid, size);
      CreateIsExact(c, s, pid, size);
      ok := NewProcess(pid, size);
      if ok && size != 0 {
        CreatedHasTable(s);
      }
    }

    /** A process just created with pages has a page table that names its frames. */
    lemma CreatedHasTable(s: State)
      requires Sound() && Inv(c, s) && |Processes()| == |s.procs| + 1
      requires var p := Processes()[|s.procs|];
               p.size > 0 && CeilDiv(p.size, c.pageSize) <= c.g.Pages() && CeilDiv(p.size, c.pageSize) <= |Clear(s.userBits)|
               && Created(c, s, Value(), p.pid, p.size, Clear(s.userBits)[..CeilDiv(p.size, c.pageSize)])
      ensures processes[|s.procs|].pageTable != null && Mapped(c, processes[|s.procs|].Value())
    {
      var proc := processes[|s.procs|];
      assert proc.Value() == Processes()[|s.procs|];
      PagesPositive(c);
      assert proc.TableValid(c.g);
    }

    // --- Suspension and resumption -----------------------------------------

    /** The store after a copy that ends at the first write that fails. */
    ghost function Copied(s: State, frames: seq<nat>, to: seq<nat>, writes: nat, partial: nat): State
      requires |frames| == |to|
    {
      s.(swap := CopiedUpTo(s.user, s.swap, c.pageSize, frames, to, writes, partial, |frames|))
    }

    /** Copies one page to swap. */
    method CopyPageOut(from: nat, to: nat, taken: nat) returns (success: bool)
      requires c.pageSize == user.pageSize == file.pageSize
      modifies file
      ensures success == (taken >= c.pageSize)
      ensures file.contents == FileWrite(old(file.contents), Times(to, c.pageSize),
                                         UserRead(user.bytes[..], Times(from, c.pageSize), c.pageSize)[..Min(taken, c.pageSize)])
    {
      TimesIsProduct(from, c.pageSize);
      var page := user.Read(from * c.pageSize, c.pageSize);
      success := file.WriteFrame(to, page, taken);
    }

    /** Copies a process's pages to swap until one write fails; the failing one writes
        `partial` bytes, fewer than a page. */
    method CopyPagesOut(frames: seq<nat>, to: seq<nat>, writes: nat, partial: nat) returns (success: bool)
      requires Sound() && |frames| == |to| && partial < c.pageSize
      modifies file
      ensures Sound() && success == (|frames| <= writes)
      ensures Value() == Copied(old(Value()), frames, to, writes, partial)
    {
      ghost var was := file.contents;
      success := true;
      var i := 0;
      while i < |frames| && success
        invariant i <= |frames| && success == (i <= writes)
        invariant file.contents == CopiedUpTo(user.bytes[..], was, c.pageSize, frames, to, writes, partial, i)
        invariant !success ==> i == writes + 1
      {
        CopiedNext(user.bytes[..], was, c.pageSize, frames, to, writes, partial, i);
        success := CopyPageOut(frames[i], to[i], if i < writes then c.pageSize else partial);
        i := i + 1;
      }
    }

    /** Copies a process's pages back until one cannot be read. */
    method CopyPagesIn(frames: seq<nat>, to: seq<nat>) returns (success: bool)
      requires Sound() && |frames| == |to|
      modifies user.bytes
      ensures Sound() && success == (Readable(Value().swap, c.pageSize, frames, 0) == |frames|)
      ensures Value() == old(Value()).(user := CopyIn(old(Value()).swap, old(Value()).user, c.pageSize, frames, to, Readable(old(Value()).swap, c.pageSize, frames, 0)))
    {
      ghost var was, k := user.bytes[..], Readable(file.contents, c.pageSize, frames, 0);
      success := true;
      var i := 0;
      while i < |frames| && success
        invariant i <= |frames| && success == (i <= k) && i <= k + 1
        invariant user.bytes[..] == CopyIn(file.contents, was, c.pageSize, frames, to, if success then i else k)
      {
        var page := file.ReadFrame(frames[i]);
        if page.None? {
          success := false;
        } else {
          TimesIsProduct(to[i], c.pageSize);
          user.Write(to[i] * c.pageSize, page.value);
        }
        i := i + 1;
      }
    }

    method Relabel(i: nat, suspended: bool, frames: Option<seq<nat>>)
      requires Sound() && i < |processes|
      modifies processes[i]
      ensures Sound() && Value() == old(Value()).(procs := old(Value()).procs[i := old(Value()).procs[i].(suspended := suspended, frames := frames)])
    {
      ghost var was := Processes();
      processes[i].isSuspended := suspended;
      processes[i].allocatedFrames := frames;
      assert Processes() == was[i := was[i].(suspended := suspended, frames := frames)];
    }

    method TakeSwapFrames(pagesNeeded: int) returns (frames: Option<seq<nat>>)
      requires Sound()
      modifies swapFrames, swapFrames.bits
      ensures Sound() && frames == Granted(old(Value()).swapBits, old(Value()).swapFree, pagesNeeded)
      ensures frames.Some? ==>
                && Within(frames.value, |old(Value()).swapBits|) && (pagesNeeded >= 0 ==> |frames.value| <= pagesNeeded)
                && Value() == old(Value()).(swapBits := Marked(old(Value()).swapBits, frames.value, true), swapFree := old(Value()).swapFree - |frames.value|)
      ensures frames.None? ==> Value() == old(Value())
    {
      frames := swapFrames.Allocate(pagesNeeded);
      TakenCount(old(Value()).swapBits, old(Value()).swapFree, pagesNeeded);
    }

    method ReleaseSwapFrames(frames: seq<nat>)
      requires Sound() && Within(frames, swapFrames.bits.Length)
      modifies swapFrames, swapFrames.bits
      ensures Sound()
      ensures Value() == old(Value()).(swapBits := Marked(old(Value()).swapBits, frames, false), swapFree := old(Value()).swapFree + |frames|)
    {
      swapFrames.Release(frames);
    }

    /** Gives up the user frames of a process whose pages are in swap now. */
    method LeaveUserSpace(i: nat, frames: seq<nat>, to: seq<nat>)
      requires Sound() && i < |processes| && Within(frames, userFrames.bits.Length)
      modifies userFrames, userFrames.bits, processes[i]
      ensures Sound()
      ensures Value() == old(Value()).(userBits := Marked(old(Value()).userBits, frames, false), userFree := old(Value()).userFree + |frames|,
                                       procs := old(Value()).procs[i := old(Value()).procs[i].(suspended := true, frames := Some(to))])
    {
      ReleaseUserFrames(frames);
      Relabel(i, true, Some(to));
    }

    /** Moves the pages of a resident process to swap. */
    method MovePagesOut(i: nat, writes: nat, partial: nat) returns (ok: bool)
      requires Sound() && partial < c.pageSize && i < |processes| && processes[i].allocatedFrames.Some? && Within(processes[i].allocatedFrames.value, userFrames.bits.Length)
      modifies file, userFrames, userFrames.bits, swapFrames, swapFrames.bits, processes[i]
      ensures Sound() && Value() == MoveOut(c, old(Value()), i, writes, partial).0 && ok == MoveOut(c, old(Value()), i, writes, partial).1
    {
      var frames := processes[i].allocatedFrames.value;
      var swapTo := TakeSwapFrames(|frames|);
      if swapTo.None? || |swapTo.value| < |frames| {
        return false;
      }
      ok := FillSwapFrames(i, frames, swapTo.value, writes, partial);
    }

    method FillSwapFrames(i: nat, frames: seq<nat>, to: seq<nat>, writes: nat, partial: nat) returns (ok: bool)
      requires Sound() && partial < c.pageSize && i < |processes| && Within(frames, userFrames.bits.Length) && |frames| == |to|
      modifies file, userFrames, userFrames.bits, processes[i]
      ensures Sound() && ok == (|frames| <= writes)
      ensures var s := old(Value());
              ok ==> Value() == s.(swap := CopyOut(s.user, s.swap, c.pageSize, frames, to, |frames|),
                                   userBits := Marked(s.userBits, frames, false), userFree := s.userFree + |frames|,
                                   procs := s.procs[i := s.procs[i].(suspended := true, frames := Some(to))])
      ensures !ok ==> Value() == Copied(old(Value()), frames, to, writes, partial)
    {
      ok := CopyPagesOut(frames, to, writes, partial);
      if ok {
        LeaveUserSpace(i, frames, to);
      }
    }

    method Suspend(pid: int, writes: nat, partial: nat) returns (ok: bool)
      requires Sound() && partial < c.pageSize && SuspendsWithin(pid)
      modifies file, userFrames, userFrames.bits, swapFrames, swapFrames.bits, processes
      ensures Sound() && (Value(), ok) == SwapOut(c, old(Value()), pid, writes, partial)
    {
      var i := FindProcess(pid);
      if i == |processes| {
        return false;
      }
      if processes[i].isSuspended {
        return true;
      }
      if processes[i].allocatedFrames.None? {
        Relabel(i, true, None);
        return true;
      }
      ok := MovePagesOut(i, writes, partial);
    }

    ghost predicate SuspendsWithin(pid: int)
      reads this, userFrames.bits, processes
    {
      var i := Find(Processes(), pid);
      i < |processes| && !processes[i].isSuspended && processes[i].allocatedFrames.Some? ==> Within(processes[i].allocatedFrames.value, userFrames.bits.Length)
    }

    /** Suspends a process; `writes` is how many page writes the swap file takes, `partial`
        how many bytes the first failing one still writes. Images are kept in any case; the
        module stays valid exactly when no write fails. */
    method SuspendProcess(pid: int, writes: nat, partial: nat) returns (ok: bool)
      requires Valid() && partial < c.pageSize
      modifies file, userFrames, userFrames.bits, swapFrames, swapFrames.bits, processes
      ensures Sound() && (Value(), ok) == SwapOut(c, old(Value()), pid, writes, partial)
      ensures ImagesKept(c, old(Value()), Value())
      ensures Valid() <==> !WriteFails(old(Value()), pid, writes)
    {
      SwapOutIsExact(c, Value(), pid, writes, partial);
      ResidentFramesWithin(c, Value(), Find(Processes(), pid));
      ok := Suspend(pid, writes, partial);
    }

    /** Gives up the swap frames of a process whose pages are back. */
    method LeaveSwap(i: nat, frames: seq<nat>, to: seq<nat>)
      requires Sound() && i < |processes| && Within(frames, swapFrames.bits.Length)
      modifies swapFrames, swapFrames.bits, processes[i]
      ensures Sound()
      ensures Value() == old(Value()).(swapBits := Marked(old(Value()).swapBits, frames, false), swapFree := old(Value()).swapFree + |frames|,
                                       procs := old(Value()).procs[i := old(Value()).procs[i].(suspended := false, frames := Some(to))])
    {
      ReleaseSwapFrames(frames);
      Relabel(i, false, Some(to));
    }

    /** Moves the pages of a suspended process back. */
    method MovePagesIn(i: nat) returns (ok: bool)
      requires Sound() && i < |processes| && processes[i].allocatedFrames.Some? && Within(processes[i].allocatedFrames.value, swapFrames.bits.Length)
      modifies user.bytes, userFrames, userFrames.bits, swapFrames, swapFrames.bits, processes[i]
      ensures Sound() && Value() == MoveIn(c, old(Value()), i).0 && ok == MoveIn(c, old(Value()), i).1
    {
      var frames := processes[i].allocatedFrames.value;
      var userTo := TakeUserFrames(|frames|);
      if userTo.None? || |userTo.value| < |frames| {
        return false;
      }
      ok := CopyPagesIn(frames, userTo.value);
      if !ok {
        ReleaseUserFrames(userTo.value);
      } else {
        LeaveSwap(i, frames, userTo.value);
      }
    }

    method Resume(pid: int) returns (ok: bool)
      requires Sound() && Resumable(pid)
      modifies user.bytes, userFrames, userFrames.bits, swapFrames, swapFrames.bits, processes
      ensures Sound() && (Value(), ok) == SwapIn(c, old(Value()), pid)
    {
      var i := FindProcess(pid);
      if i == |processes| {
        return false;
      }
      if !processes[i].isSuspended {
        return true;
      }
      if processes[i].allocatedFrames.None? || processes[i].allocatedFrames.value == [] {
        Relabel(i, false, processes[i].allocatedFrames);
        return true;
      }
      ok := MovePagesIn(i);
    }

    ghost predicate Resumable(pid: int)
      reads this, swapFrames.bits, processes
    {
      var i := Find(Processes(), pid);
      i < |processes| && processes[i].isSuspended && processes[i].allocatedFrames.Some? ==> Within(processes[i].allocatedFrames.value, swapFrames.bits.Length)
    }

    /** Resumes a process; refused when the user space lacks frames. */
    method ResumeProcess(pid: int) returns (ok: bool)
      requires Valid()
      modifies user.bytes, userFrames, userFrames.bits, swapFrames, swapFrames.bits, processes
      ensures Valid() && (Value(), ok) == SwapIn(c, old(Value()), pid)
      ensures ImagesKept(c, old(Value()), Value())
    {
      SwapInKeeps(c, Value(), pid);
      SwappedFramesWithin(c, Value(), Find(Processes(), pid));
      ok := Resume(pid);
    }
  }

  /** The swap file after the first `i` pages of a copy, or up to the first write that fails. */
  ghost function CopiedUpTo(user: seq<byte>, file: seq<byte>, pageSize: nat, from: seq<nat>, to: seq<nat>, writes: nat, partial: nat, i: nat): seq<byte>
    requires i <= |from| == |to|
  {
    if i <= writes then CopyOut(user, file, pageSize, from, to, i) else CopyOutCut(user, file, pageSize, from, to, writes, partial)
  }

  lemma CopiedNext(user: seq<byte>, file: seq<byte>, pageSize: nat, from: seq<nat>, to: seq<nat>, writes: nat, partial: nat, i: nat)
    requires i < |from| == |to| && i <= writes
    ensures CopiedUpTo(user, file, pageSize, from, to, writes, partial, i + 1)
         == FileWrite(CopiedUpTo(user, file, pageSize, from, to, writes, partial, i), Times(to[i], pageSize),
                      UserRead(user, Times(from[i], pageSize), pageSize)[..Min(if i < writes then pageSize else partial, pageSize)])
  {
    var page := UserRead(user, Times(from[i], pageSize), pageSize);
    assert page[..pageSize] == page;
  }

  lemma PagesPositive(c: Config)
    requires c.Valid()
    ensures c.g.Pages() > 0
  {
    PowPositive(c.g.entriesPerTable, c.g.levels);
  }

  lemma TakenCount(bits: seq<bool>, free: int, pagesNeeded: int)
    ensures pagesNeeded >= 0 && Granted(bits, free, pagesNeeded).Some? ==> |Granted(bits, free, pagesNeeded).value| <= pagesNeeded
  {
  }

  lemma SwappedFramesWithin(c: Config, s: State, i: nat)
    requires c.Valid() && Inv(c, s)
    ensures i < |s.procs| && s.procs[i].frames.Some? && s.procs[i].suspended ==> Within(s.procs[i].frames.value, |s.swapBits|)
  {
    if i < |s.procs| && s.procs[i].frames.Some? && s.procs[i].suspended {
      forall k: nat | k < |s.procs[i].frames.value|
        ensures s.procs[i].frames.value[k] < |s.swapBits|
      {
        OwnedFrame(c, s, i, k);
      }
    }
  }

  lemma ResidentFramesWithin(c: Config, s: State, i: nat)
    requires c.Valid() && Inv(c, s)
    ensures i < |s.procs| && s.procs[i].frames.Some? && !s.procs[i].suspended ==> Within(s.procs[i].frames.value, |s.userBits|)
  {
    if i < |s.procs| && s.procs[i].frames.Some? && !s.procs[i].suspended {
      forall k: nat | k < |s.procs[i].frames.value|
        ensures s.procs[i].frames.value[k] < |s.userBits|
      {
        OwnedFrame(c, s, i, k);
      }
    }
  }

  /** The walk of the CPU over a process's tables finds the frames the process has, page by
      page, and -1 behind the last one, as long as the page table still names them. */
  lemma WalkFindsFrames(memory: Memory, i: nat, page: nat)
    requires memory.Valid() && i < |memory.processes|
    requires Mapped(memory.c, memory.processes[i].Value()) && page < memory.c.g.Pages()
    ensures memory.processes[i].pageTable != null
    ensures Shape(memory.c.g.entriesPerTable, Snapshot(memory.processes[i].tables), memory.processes[i].pageTable, memory.c.g.Height(), 1)
    ensures var frames := memory.processes[i].allocatedFrames.value;
            IdWalk(memory.c.g, Snapshot(memory.processes[i].tables), memory.processes[i].pageTable, 1, 1, page)
            == if page < |frames| then frames[page] else INVALID_FRAME_NUMBER
  {
    var proc := memory.processes[i];
    assert proc.TableValid(memory.c.g);
    assert |proc.mapped| >= memory.c.g.Pages() > page;
    WalkFollowsFrames(memory.c.g, Snapshot(proc.tables), proc.pageTable, proc.allocatedFrames.value, page);
  }
}

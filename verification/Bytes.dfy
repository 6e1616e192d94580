/** Flat byte memories cut into frames: the user space and the swap file. */
module Bytes {
  import opened Arithmetic

  type byte = x: int | 0 <= x < 256

  /** The frame lies inside the memory: `f` copies of the page size are before it. */
  predicate HasFrame(mem: seq<byte>, pageSize: nat, f: nat) {
    Times(f, pageSize) + pageSize <= |mem|
  }

  /** The bytes of a frame. */
  function Frame(mem: seq<byte>, pageSize: nat, f: nat): (page: seq<byte>)
    requires HasFrame(mem, pageSize, f)
    ensures |page| == pageSize
  {
    var start := Times(f, pageSize);
    seq(pageSize, i requires 0 <= i < pageSize && start + pageSize <= |mem| => mem[start + i])
  }

  /** A memory with some bytes replaced. */
  function Splice(mem: seq<byte>, at: nat, data: seq<byte>): (mem': seq<byte>)
    requires at + |data| <= |mem|
    ensures |mem'| == |mem|
  {
    seq(|mem|, i requires 0 <= i < |mem| => if at <= i < at + |data| then data[i - at] else mem[i])
  }

  /** A write to the user space: nothing happens when it is longer than a page or leaves
      the memory. */
  function UserWrite(mem: seq<byte>, pageSize: nat, address: int, data: seq<byte>): (mem': seq<byte>)
    ensures |mem'| == |mem|
  {
    if |data| > pageSize || address < 0 || address + |data| > |mem| then mem else Splice(mem, address, data)
  }

  /** A read from the user space: zeros when it leaves the memory. */
  function UserRead(mem: seq<byte>, address: int, size: nat): (data: seq<byte>)
    ensures |data| == size
  {
    if address < 0 || address + size > |mem| then Zeros(size) else mem[address..address + size]
  }

  function Zeros(n: nat): seq<byte> {
    seq(n, _ => 0)
  }

  /** A file extended with zeros to a length. */
  function FileRoom(file: seq<byte>, length: nat): (file': seq<byte>)
    ensures |file'| == if length > |file| then length else |file|
  {
    seq(if length > |file| then length else |file|, i requires 0 <= i => if i < |file| then file[i] else 0)
  }

  /** A write to the swap file at a position: the file grows when it is too short. */
  function FileWrite(file: seq<byte>, at: nat, data: seq<byte>): (file': seq<byte>)
    ensures |file'| == if data != [] && at + |data| > |file| then at + |data| else |file|
  {
    if data == [] then file else Splice(FileRoom(file, at + |data|), at, data)
  }

  /** Writing inside a frame shows in this frame... */
  lemma SpliceInFrame(mem: seq<byte>, pageSize: nat, f: nat, offset: nat, data: seq<byte>)
    requires HasFrame(mem, pageSize, f) && offset + |data| <= pageSize
    ensures Frame(Splice(mem, Times(f, pageSize) + offset, data), pageSize, f) == Splice(Frame(mem, pageSize, f), offset, data)
  {
  }

  /** ...and in no other one. */
  lemma SpliceElsewhere(mem: seq<byte>, pageSize: nat, f: nat, offset: nat, data: seq<byte>, g: nat)
    requires HasFrame(mem, pageSize, f) && HasFrame(mem, pageSize, g) && offset + |data| <= pageSize && g != f
    ensures Frame(Splice(mem, Times(f, pageSize) + offset, data), pageSize, g) == Frame(mem, pageSize, g)
  {
    TimesGap(f, g, pageSize);
    TimesGap(g, f, pageSize);
  }

  lemma SpliceWhole(page: seq<byte>, data: seq<byte>)
    requires |page| == |data|
    ensures Splice(page, 0, data) == data
  {
  }

  /** Writing a whole page into its frame. */
  lemma UserWriteFrame(mem: seq<byte>, pageSize: nat, f: nat, page: seq<byte>, g: nat)
    requires |page| == pageSize && HasFrame(mem, pageSize, f) && HasFrame(mem, pageSize, g)
    ensures Frame(UserWrite(mem, pageSize, Times(f, pageSize), page), pageSize, g) == if g == f then page else Frame(mem, pageSize, g)
  {
    if g == f {
      SpliceInFrame(mem, pageSize, f, 0, page);
      SpliceWhole(Frame(mem, pageSize, f), page);
    } else {
      SpliceElsewhere(mem, pageSize, f, 0, page, g);
    }
  }

  lemma UserReadFrame(mem: seq<byte>, pageSize: nat, f: nat)
    requires HasFrame(mem, pageSize, f)
    ensures UserRead(mem, Times(f, pageSize), pageSize) == Frame(mem, pageSize, f)
  {
  }

  /** A read of any size from any address, after a write at any other: the bytes just written
      where the two overlap, elsewhere what memory held; zeros when the read leaves the
      memory, nothing new when the write was refused. */
  lemma ReadAfterWrite(mem: seq<byte>, pageSize: nat, at: int, data: seq<byte>, address: int, size: nat, i: nat)
    requires i < size
    ensures UserRead(UserWrite(mem, pageSize, at, data), address, size)[i]
         == if address < 0 || address + size > |mem| then 0
            else if |data| <= pageSize && 0 <= at && at + |data| <= |mem| && at <= address + i < at + |data| then data[address + i - at]
            else mem[address + i]
  {
    var read := UserRead(UserWrite(mem, pageSize, at, data), address, size);
    if 0 <= address && address + size <= |mem| {
      assert read[i] == UserWrite(mem, pageSize, at, data)[address + i];
    }
  }

  /** What was written is read back. */
  lemma WrittenIsRead(mem: seq<byte>, pageSize: nat, address: int, data: seq<byte>)
    requires |data| <= pageSize && 0 <= address && address + |data| <= |mem|
    ensures UserRead(UserWrite(mem, pageSize, address, data), address, |data|) == data
  {
    forall i: nat | i < |data|
      ensures UserRead(UserWrite(mem, pageSize, address, data), address, |data|)[i] == data[i]
    {
      ReadAfterWrite(mem, pageSize, address, data, address, |data|, i);
    }
  }

  /** A byte of the swap file after a write: the data, what was there, or the zeros the file
      grew by. */
  lemma FileByteAfterWrite(file: seq<byte>, at: nat, data: seq<byte>, a: nat)
    requires a < |FileWrite(file, at, data)|
    ensures FileWrite(file, at, data)[a] == if at <= a < at + |data| then data[a - at] else if a < |file| then file[a] else 0
  {
    if data != [] {
      assert FileRoom(file, at + |data|)[a] == if a < |file| then file[a] else 0;
    }
  }

  /** Writing a whole page to its frame of the swap file. */
  lemma FileWriteFrame(file: seq<byte>, pageSize: nat, f: nat, page: seq<byte>)
    requires |page| == pageSize > 0
    ensures HasFrame(FileWrite(file, Times(f, pageSize), page), pageSize, f)
    ensures Frame(FileWrite(file, Times(f, pageSize), page), pageSize, f) == page
  {
    var room := FileRoom(file, Times(f, pageSize) + pageSize);
    SpliceInFrame(room, pageSize, f, 0, page);
    SpliceWhole(Frame(room, pageSize, f), page);
  }

  /** Writing a page or only its first bytes leaves every other frame of the swap file. */
  lemma FileWriteElsewhere(file: seq<byte>, pageSize: nat, f: nat, data: seq<byte>, g: nat)
    requires |data| <= pageSize && HasFrame(file, pageSize, g) && g != f
    ensures HasFrame(FileWrite(file, Times(f, pageSize), data), pageSize, g)
    ensures Frame(FileWrite(file, Times(f, pageSize), data), pageSize, g) == Frame(file, pageSize, g)
  {
    TimesGap(f, g, pageSize);
    TimesGap(g, f, pageSize);
  }

  /** All frames below `total` lie inside a memory of at least `total` pages. */
  lemma FramesFit(mem: seq<byte>, pageSize: nat, total: nat, f: nat)
    requires f < total && Times(total, pageSize) <= |mem|
    ensures HasFrame(mem, pageSize, f)
  {
    TimesGap(f, total, pageSize);
  }

  class UserSpace {
    const bytes: array<byte>
    const pageSize: nat

    constructor (size: nat, pageSize: nat)
      ensures fresh(bytes) && bytes[..] == Zeros(size) && this.pageSize == pageSize
    {
      bytes := new byte[size](_ => 0);
      this.pageSize := pageSize;
    }

    /** Copies into the user space; refused when longer than a page or out of bounds. */
    method Write(address: int, data: seq<byte>)
      modifies bytes
      ensures bytes[..] == UserWrite(old(bytes[..]), pageSize, address, data)
      ensures forall a: nat | a < bytes.Length ::
                bytes[a] == if |data| <= pageSize && 0 <= address <= a < address + |data| <= bytes.Length then data[a - address] else old(bytes[a])
    {
      if |data| > pageSize || address < 0 || address + |data| > bytes.Length {
        return;
      }
      ghost var was := bytes[..];
      for i := 0 to |data|
        invariant bytes[..] == Splice(was, address, data[..i])
      {
        bytes[address + i] := data[i];
      }
      assert data[..|data|] == data;
    }

    /** Copies out of the user space; zeros when out of bounds. */
    method Read(address: int, size: nat) returns (data: seq<byte>)
      ensures data == UserRead(bytes[..], address, size)
      ensures |data| == size
      ensures forall i: nat | i < size :: data[i] == if 0 <= address && address + size <= bytes.Length then bytes[address + i] else 0
    {
      if address < 0 || address + size > bytes.Length {
        return Zeros(size);
      }
      data := bytes[address..address + size];
    }
  }
}

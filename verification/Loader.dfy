/** The ELF32 loader: validate everything, then copy the PT_LOAD segments in order. */
module Loader {
  import opened Words
  import opened Isa
  import opened Machine
  import opened History
  import opened Cache
  import opened VirtualMachine

  const ELF_HEADER_LEN: nat := 52
  const PROGRAM_HEADER_LEN: nat := 32
  const ET_EXEC: nat := 2
  const EM_RISCV: nat := 243
  const PT_LOAD: nat := 1
  const ELF_MAGIC: seq<Byte> := [0x7F, 0x45, 0x4C, 0x46]

  /** `filesz` bytes at `offset` in the file go to `vaddr`; the rest of `memsz` is zero. */
  datatype Segment = Segment(offset: Word, vaddr: Word, filesz: Word, memsz: Word, flags: Word) {
    predicate FitsFile(image: seq<Byte>) { offset + filesz <= |image| && filesz <= memsz }
    predicate FitsMemory(size: nat) { vaddr + memsz <= size }
    predicate Covers(i: nat) { vaddr <= i < vaddr + memsz }

    /** What the segment says byte `i` of memory is. */
    function ByteAt(image: seq<Byte>, i: nat): Byte
      requires FitsFile(image) && Covers(i)
    {
      if i < vaddr + filesz then image[offset + (i - vaddr)] else 0
    }
  }

  /** The PT_LOAD segment described at `ph`, or None for other segment types. */
  function SegmentAt(image: seq<Byte>, ph: nat): Option<Segment>
    requires ph + PROGRAM_HEADER_LEN <= |image|
  {
    if U32(image, ph) != PT_LOAD then None
    else Some(Segment(U32(image, ph + 4), U32(image, ph + 8), U32(image, ph + 16), U32(image, ph + 20), U32(image, ph + 24)))
  }

  /** The program header table: where it starts, its entry size and its entry count. */
  datatype HeaderTable = HeaderTable(phoff: nat, phentsize: nat, phnum: nat) {
    predicate Fits(image: seq<Byte>) {
      && (phnum != 0 ==> phentsize >= PROGRAM_HEADER_LEN)
      && phoff + phentsize * phnum <= |image|
    }
  }

  /** Every program header lies inside the image, whatever the entry size. */
  lemma HeaderInside(t: HeaderTable, image: seq<Byte>, i: nat)
    requires t.Fits(image) && i < t.phnum
    ensures t.phoff + i * t.phentsize + PROGRAM_HEADER_LEN <= |image|
  {
    assert (i + 1) * t.phentsize <= t.phnum * t.phentsize;
  }

  /** The PT_LOAD segments from header `i` on, in order. */
  function SegmentsFrom(image: seq<Byte>, t: HeaderTable, i: nat): seq<Segment>
    requires t.Fits(image) && i <= t.phnum
    decreases t.phnum - i
  {
    if i == t.phnum then []
    else
      HeaderInside(t, image, i);
      match SegmentAt(image, t.phoff + i * t.phentsize)
      case None => SegmentsFrom(image, t, i + 1)
      case Some(s) => [s] + SegmentsFrom(image, t, i + 1)
  }

  /** An iterator over the segments. */
  class Segments {
    const image: seq<Byte>
    const table: HeaderTable
    var index: nat

    ghost predicate Valid()
      reads this
    {
      table.Fits(image) && index <= table.phnum
    }

    ghost function Rest(): seq<Segment>
      requires Valid()
      reads this
    {
      SegmentsFrom(image, table, index)
    }

    constructor (image: seq<Byte>, table: HeaderTable)
      requires table.Fits(image)
      ensures Valid() && this.image == image && this.table == table && Rest() == SegmentsFrom(image, table, 0)
    {
      this.image, this.table, index := image, table, 0;
    }

    /** Skip to the next PT_LOAD header; None when there is none left. */
    method Next() returns (s: Option<Segment>)
      requires Valid()
      modifies this
      ensures Valid()
      ensures old(Rest()) == (if s.None? then [] else [s.value] + Rest())
      ensures index >= old(index) && (s.Some? ==> index > old(index))
    {
      while index < table.phnum
        invariant Valid() && Rest() == old(Rest()) && index >= old(index)
      {
        HeaderInside(table, image, index);
        var ph := table.phoff + index * table.phentsize;
        index := index + 1;
        s := SegmentAt(image, ph);
        if s.Some? { return; }
      }
      return None;
    }
  }

  // ----- Parsing -----

  datatype Elf = Elf(entry: Word, table: HeaderTable)

  predicate IsElf(image: seq<Byte>) {
    |image| >= 4 && image[..4] == ELF_MAGIC
  }

  /** The file header says: 32-bit little-endian RISC-V executable, current version. */
  predicate GoodHeader(image: seq<Byte>) {
    && |image| >= ELF_HEADER_LEN
    && IsElf(image)
    && image[4] == 1 && image[5] == 1 && image[6] == 1
    && U16(image, 16) == ET_EXEC && U16(image, 18) == EM_RISCV && U32(image, 20) == 1
    && U32(image, 24) % 2 == 0
  }

  function TableOf(image: seq<Byte>): HeaderTable
    requires |image| >= ELF_HEADER_LEN
  {
    HeaderTable(U32(image, 28), U16(image, 42), U16(image, 44))
  }

  /** Everything the loader requires of the file. */
  predicate WellFormed(image: seq<Byte>) {
    && GoodHeader(image)
    && TableOf(image).Fits(image)
    && forall s | s in SegmentsFrom(image, TableOf(image), 0) :: s.FitsFile(image)
  }

  function SegmentsOf(image: seq<Byte>): seq<Segment>
    requires WellFormed(image)
  {
    SegmentsFrom(image, TableOf(image), 0)
  }

  method Parse(image: seq<Byte>) returns (elf: Option<Elf>)
    ensures elf == if WellFormed(image) then Some(Elf(U32(image, 24), TableOf(image))) else None
  {
    if |image| < ELF_HEADER_LEN || !IsElf(image) { return None; }
    if image[4] != 1 || image[5] != 1 || image[6] != 1 { return None; }
    if U16(image, 16) != ET_EXEC || U16(image, 18) != EM_RISCV || U32(image, 20) != 1 { return None; }
    var entry := U32(image, 24);
    var table := HeaderTable(U32(image, 28), U16(image, 42), U16(image, 44));
    if entry % 2 != 0 { return None; }
    if table.phnum != 0 && table.phentsize < PROGRAM_HEADER_LEN { return None; }
    if table.phoff + table.phentsize * table.phnum > |image| { return None; }
    var it := new Segments(image, table);
    ghost var all := it.Rest();
    ghost var seen: seq<Segment> := [];
    while true
      invariant it.Valid() && it.image == image && it.table == table
      invariant all == seen + it.Rest()
      invariant forall s | s in seen :: s.FitsFile(image)
      decreases table.phnum - it.index
    {
      var s := it.Next();
      if s.None? { break; }
      if !s.value.FitsFile(image) {
        assert s.value in all;
        return None;
      }
      seen := seen + [s.value];
    }
    return Some(Elf(entry, table));
  }

  // ----- Loading -----

  /** The architectural state after one segment. */
  function LoadSegment(a: Arch, image: seq<Byte>, s: Segment): (b: Arch)
    requires s.FitsFile(image) && s.FitsMemory(|a.mem|)
    ensures |b.mem| == |a.mem|
    ensures b == a.(mem := b.mem, res := b.res)
  {
    var file := image[s.offset..s.offset + s.filesz];
    Zeroed(StoreBytes(a, s.vaddr, file), s.vaddr + s.filesz, s.memsz - s.filesz)
  }

  /** The architectural state after the segments, in order. */
  function LoadSegments(a: Arch, image: seq<Byte>, segs: seq<Segment>): (b: Arch)
    requires forall s | s in segs :: s.FitsFile(image) && s.FitsMemory(|a.mem|)
    ensures |b.mem| == |a.mem|
    ensures b == a.(mem := b.mem, res := b.res)
    decreases segs
  {
    if segs == [] then a else LoadSegments(LoadSegment(a, image, segs[0]), image, segs[1..])
  }

  lemma SegmentBytes(a: Arch, image: seq<Byte>, s: Segment, i: nat)
    requires s.FitsFile(image) && s.FitsMemory(|a.mem|) && i < |a.mem|
    ensures LoadSegment(a, image, s).mem[i] == if s.Covers(i) then s.ByteAt(image, i) else a.mem[i]
  {
  }

  /** Segment `k` is the last one that covers byte `i`. */
  predicate LastCover(segs: seq<Segment>, i: nat, k: nat)
    requires k < |segs|
  {
    segs[k].Covers(i) && forall j | k < j < |segs| :: !segs[j].Covers(i)
  }

  /** Each byte of memory is what the last segment that covers it says, and is unchanged if
      none does. */
  lemma {:induction false} LoadedBytes(a: Arch, image: seq<Byte>, segs: seq<Segment>, i: nat)
    requires forall s | s in segs :: s.FitsFile(image) && s.FitsMemory(|a.mem|)
    requires i < |a.mem|
    ensures forall k: nat | k < |segs| && LastCover(segs, i, k) ::
              LoadSegments(a, image, segs).mem[i] == segs[k].ByteAt(image, i)
    ensures (forall k | 0 <= k < |segs| :: !segs[k].Covers(i)) ==> LoadSegments(a, image, segs).mem[i] == a.mem[i]
    decreases segs
  {
    if segs != [] {
      var b, rest := LoadSegment(a, image, segs[0]), segs[1..];
      SegmentBytes(a, image, segs[0], i);
      LoadedBytes(b, image, rest, i);
      forall k: nat | k < |segs| && LastCover(segs, i, k)
        ensures LoadSegments(b, image, rest).mem[i] == segs[k].ByteAt(image, i)
      {
        if k == 0 {
          assert forall j | 0 <= j < |rest| :: !rest[j].Covers(i);
        } else {
          assert LastCover(rest, i, k - 1);
        }
      }
    }
  }

  /** The VM actions that load one segment: its file bytes, then zeroes. */
  function SegmentActions(image: seq<Byte>, s: Segment): seq<Action>
    requires s.FitsFile(image)
  {
    [LoadProgram(image[s.offset..s.offset + s.filesz], s.vaddr), ZeroFill(s.vaddr + s.filesz, s.memsz - s.filesz)]
  }

  function LoadActions(image: seq<Byte>, segs: seq<Segment>): seq<Action>
    requires forall s | s in segs :: s.FitsFile(image)
  {
    if segs == [] then [] else SegmentActions(image, segs[0]) + LoadActions(image, segs[1..])
  }

  lemma {:induction false} SegmentIsActions(decode: DecodeFn, a: Arch, image: seq<Byte>, s: Segment)
    requires s.FitsFile(image) && s.FitsMemory(|a.mem|)
    ensures LoadSegment(a, image, s) == Final(decode, a, SegmentActions(image, s))
  {
    var acts := SegmentActions(image, s);
    var st := Trace(decode, a, acts);
    assert st[1] == Do(decode, a, acts[0]).arch && st[2] == Do(decode, st[1], acts[1]).arch;
  }

  /** Loading is a history of host writes, so what is proved of every history (the
      reservation, parity, the cache) holds across it. */
  lemma {:induction false} LoadIsHistory(decode: DecodeFn, a: Arch, image: seq<Byte>, segs: seq<Segment>)
    requires forall s | s in segs :: s.FitsFile(image) && s.FitsMemory(|a.mem|)
    ensures LoadSegments(a, image, segs) == Final(decode, a, LoadActions(image, segs))
    decreases segs
  {
    if segs != [] {
      var acts, more := SegmentActions(image, segs[0]), LoadActions(image, segs[1..]);
      SegmentIsActions(decode, a, image, segs[0]);
      LoadIsHistory(decode, LoadSegment(a, image, segs[0]), image, segs[1..]);
      FinalOfConcat(decode, a, acts, more, acts + more);
    }
  }

  datatype LoadResult = Loaded(entry: Word) | InvalidElf | OutOfBounds

  /** What loading an image does: nothing unless the image is well-formed and every segment
      fits the VM's memory. */
  function LoadElfSpec(a: Arch, image: seq<Byte>): (Arch, LoadResult) {
    if !WellFormed(image) then (a, InvalidElf)
    else if exists s | s in SegmentsOf(image) :: !s.FitsMemory(|a.mem|) then (a, OutOfBounds)
    else (LoadSegments(a, image, SegmentsOf(image)), Loaded(U32(image, 24)))
  }

  /** Two passes: check that every segment fits, then load them. The load of a checked
      segment cannot fail. */
  method LoadElf(vm: Vm, image: seq<Byte>) returns (r: LoadResult)
    requires vm.Valid()
    modifies vm`reservation, vm.memory
    ensures vm.Valid()
    ensures vm.State() == old(vm.State()).(arch := LoadElfSpec(old(vm.Arch()), image).0)
    ensures r == LoadElfSpec(old(vm.Arch()), image).1
  {
    var elf := Parse(image);
    if elf.None? { return InvalidElf; }
    var ok := AllFit(image, elf.value.table, vm.memory.Length);
    if !ok { return OutOfBounds; }
    LoadAll(vm, image, elf.value.table);
    return Loaded(elf.value.entry);
  }

  method AllFit(image: seq<Byte>, table: HeaderTable, size: nat) returns (ok: bool)
    requires table.Fits(image)
    ensures ok <==> forall s | s in SegmentsFrom(image, table, 0) :: s.FitsMemory(size)
  {
    var check := new Segments(image, table);
    ghost var all, seen := check.Rest(), [];
    while true
      invariant check.Valid() && check.image == image && check.table == table
      invariant all == seen + check.Rest()
      invariant forall s | s in seen :: s.FitsMemory(size)
      decreases table.phnum - check.index
    {
      var s := check.Next();
      if s.None? { return true; }
      if s.value.vaddr + s.value.memsz > size {
        assert s.value in all;
        return false;
      }
      seen := seen + [s.value];
    }
  }

  method LoadOne(vm: Vm, image: seq<Byte>, s: Segment)
    requires vm.Valid() && s.FitsFile(image) && s.FitsMemory(vm.memory.Length)
    modifies vm`reservation, vm.memory
    ensures vm.Valid()
    ensures vm.State() == old(vm.State()).(arch := LoadSegment(old(vm.Arch()), image, s))
  {
    ghost var was := vm.State();
    ghost var b := StoreBytes(was.arch, s.vaddr, image[s.offset..s.offset + s.filesz]);
    ghost var c := Zeroed(b, s.vaddr + s.filesz, s.memsz - s.filesz);
    assert c == LoadSegment(was.arch, image, s);
    var r := vm.LoadProgram(image[s.offset..s.offset + s.filesz], s.vaddr);
    assert vm.State() == was.(arch := b);
    vm.ZeroFill(s.vaddr + s.filesz, s.memsz - s.filesz);
    assert vm.State() == was.(arch := c);
  }

  method LoadAll(vm: Vm, image: seq<Byte>, table: HeaderTable)
    requires vm.Valid() && table.Fits(image)
    requires forall s | s in SegmentsFrom(image, table, 0) :: s.FitsFile(image) && s.FitsMemory(vm.memory.Length)
    modifies vm`reservation, vm.memory
    ensures vm.Valid()
    ensures vm.State() == old(vm.State()).(arch := LoadSegments(old(vm.Arch()), image, SegmentsFrom(image, table, 0)))
  {
    var load := new Segments(image, table);
    while true
      invariant load.Valid() && load.image == image && load.table == table && vm.Valid()
      invariant forall s | s in load.Rest() :: s.FitsFile(image) && s.FitsMemory(vm.memory.Length)
      invariant LoadSegments(vm.Arch(), image, load.Rest()) == LoadSegments(old(vm.Arch()), image, SegmentsFrom(image, table, 0))
      invariant vm.State() == old(vm.State()).(arch := vm.Arch())
      decreases table.phnum - load.index
    {
      ghost var rest := load.Rest();
      var s := load.Next();
      if s.None? { return; }
      assert rest[0] == s.value && rest[1..] == load.Rest();
      LoadOne(vm, image, s.value);
    }
  }
}

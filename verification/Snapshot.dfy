/** Snapshots: the canonical little-endian encoding of the architectural state. */
module Snapshot {
  import opened Words
  import opened Isa
  import opened Machine
  import opened History
  import opened Cache
  import opened VirtualMachine

  const HEADER_LEN: nat := 164
  /** "DTRM", as bytes and as the word they spell. */
  const MAGIC: seq<Byte> := [0x44, 0x54, 0x52, 0x4D]
  const MAGIC_WORD: Word := 0x4D52_5444
  const VERSION: Word := 1

  // ----- Words and bytes -----

  /** A four-byte code for words. */
  type WordCode = Word -> seq<Byte>

  ghost predicate FourBytes(code: WordCode) {
    forall w: Word :: |code(w)| == 4
  }

  function LeCode(): (code: WordCode)
    ensures FourBytes(code)
  {
    (w: Word) => ToLe(w, 4)
  }

  function EncodeWith(code: WordCode, ws: seq<Word>): (s: seq<Byte>)
    requires FourBytes(code)
    ensures |s| == 4 * |ws|
  {
    if ws == [] then [] else EncodeWith(code, ws[..|ws| - 1]) + code(ws[|ws| - 1])
  }

  function EncodeWords(ws: seq<Word>): (s: seq<Byte>)
    ensures |s| == 4 * |ws|
  {
    EncodeWith(LeCode(), ws)
  }

  lemma {:induction false} CodeAtOffset(code: WordCode, ws: seq<Word>, i: nat)
    requires FourBytes(code) && i < |ws|
    ensures EncodeWith(code, ws)[4 * i..4 * i + 4] == code(ws[i])
  {
    var n, k := |ws| - 1, 4 * i;
    var init := EncodeWith(code, ws[..n]);
    assert EncodeWith(code, ws) == init + code(ws[n]);
    if i < n {
      CodeAtOffset(code, ws[..n], i);
      assert (init + code(ws[n]))[k..k + 4] == init[k..k + 4];
    }
  }

  /** A code that reproduces each group of four bytes reproduces all of them. */
  lemma SliceOfPrefix(s: seq<Byte>, k: nat, i: nat)
    requires i + 4 <= k <= |s|
    ensures s[..k][i..i + 4] == s[i..i + 4]
  {
  }

  lemma {:induction false} EncodeGroups(code: WordCode, ws: seq<Word>, s: seq<Byte>)
    requires FourBytes(code) && |s| == 4 * |ws|
    requires forall i | 0 <= i < |ws| :: code(ws[i]) == s[4 * i..4 * i + 4]
    ensures EncodeWith(code, ws) == s
  {
    if ws != [] {
      var n := |ws| - 1;
      var k := 4 * n;
      forall i | 0 <= i < n
        ensures code(ws[..n][i]) == s[..k][4 * i..4 * i + 4]
      {
        SliceOfPrefix(s, k, 4 * i);
      }
      EncodeGroups(code, ws[..n], s[..k]);
      assert s == s[..k] + s[k..k + 4];
    }
  }

  function DecodeWords(s: seq<Byte>, n: nat): (ws: seq<Word>)
    requires 4 * n <= |s|
    ensures |ws| == n
  {
    seq(n, i requires 0 <= i < n => U32(s, 4 * i))
  }

  lemma WordAtOffset(ws: seq<Word>, i: nat)
    requires i < |ws|
    ensures U32(EncodeWords(ws), 4 * i) == ws[i]
  {
    CodeAtOffset(LeCode(), ws, i);
    PowersOf256();
    LeRoundTrip(ws[i], 4);
  }

  lemma DecodeEncodedWords(ws: seq<Word>)
    ensures DecodeWords(EncodeWords(ws), |ws|) == ws
  {
    forall i | 0 <= i < |ws|
      ensures U32(EncodeWords(ws), 4 * i) == ws[i]
    {
      WordAtOffset(ws, i);
    }
  }

  lemma EncodeDecodedWords(s: seq<Byte>, n: nat)
    requires 4 * n == |s|
    ensures EncodeWords(DecodeWords(s, n)) == s
  {
    var code, ws := LeCode(), DecodeWords(s, n);
    forall i | 0 <= i < n
      ensures code(ws[i]) == s[4 * i..4 * i + 4]
    {
      LeBytesRoundTrip(s[4 * i..4 * i + 4]);
    }
    EncodeGroups(code, ws, s);
  }

  // ----- The state as words -----

  function Flag(res: Option<Word>): Word { if res.Some? then 1 else 0 }
  function Address(res: Option<Word>): Word { match res case None => 0 case Some(addr) => addr }

  /** The header's words: magic, version, memory size, pc, the registers, the two halves of
      the cycle count, the reservation's flag and address, and mscratch. */
  function HeaderWords(a: Arch): (ws: seq<Word>)
    ensures |ws| == 41
  {
    [MAGIC_WORD, VERSION, |a.mem|, a.pc] + a.regs +
    [a.cycles % 0x1_0000_0000, a.cycles / 0x1_0000_0000, Flag(a.res), Address(a.res), a.mscratch]
  }

  function Encode(a: Arch): (s: seq<Byte>)
    ensures |s| == HEADER_LEN + |a.mem|
  {
    EncodeWords(HeaderWords(a)) + a.mem
  }

  /** Where everything is in a snapshot: "DTRM" and version 1, the memory size, pc, the
      registers from offset 16 on, the cycle count in eight bytes at 144, whether there is a
      reservation at 152 and of which word at 156, mscratch at 160, and the memory from 164
      on. */
  lemma {:induction false} Layout(a: Arch)
    ensures var s := Encode(a);
            && s[0..4] == [0x44, 0x54, 0x52, 0x4D] && U32(s, 4) == 1 && U32(s, 8) == |a.mem| && U32(s, 12) == a.pc
            && (forall r: Reg :: U32(s, 16 + 4 * r) == a.regs[r])
            && U32(s, 144) + 0x1_0000_0000 * U32(s, 148) == a.cycles
            && U32(s, 152) == (if a.res.Some? then 1 else 0) && U32(s, 156) == (if a.res.Some? then a.res.value else 0)
            && U32(s, 160) == a.mscratch && s[164..] == a.mem
  {
    var ws, s := HeaderWords(a), Encode(a);
    forall i: nat | i < 41 ensures U32(s, 4 * i) == ws[i] {
      WordInSnapshot(a, i);
    }
    WordInSnapshot(a, 0);
    MagicSpelled(s[0..4]);
    forall r: Reg ensures U32(s, 16 + 4 * r) == a.regs[r] {
      assert U32(s, 4 * (4 + r)) == ws[4 + r];
    }
    assert U32(s, 4 * 1) == ws[1] && U32(s, 4 * 2) == ws[2] && U32(s, 4 * 3) == ws[3];
    assert U32(s, 4 * 36) == ws[36] && U32(s, 4 * 37) == ws[37] && U32(s, 4 * 38) == ws[38];
    assert U32(s, 4 * 39) == ws[39] && U32(s, 4 * 40) == ws[40];
  }

  lemma WordInSnapshot(a: Arch, i: nat)
    requires i < 41
    ensures U32(Encode(a), 4 * i) == HeaderWords(a)[i]
  {
    WordAtOffset(HeaderWords(a), i);
    assert Encode(a)[4 * i..4 * i + 4] == EncodeWords(HeaderWords(a))[4 * i..4 * i + 4];
  }

  lemma MagicSpelled(s: seq<Byte>)
    requires |s| == 4 && FromLe(s) == 0x4D52_5444
    ensures s == [0x44, 0x54, 0x52, 0x4D]
  {
    LeValues(s);
  }

  /** What a restore checks before it changes anything. */
  predicate Acceptable(size: nat, ws: seq<Word>)
    requires |ws| == 41
  {
    && ws[0] == MAGIC_WORD
    && ws[1] == VERSION
    && ws[2] == size
    && ws[4] == 0
    && (ws[38] == 0 || ws[38] == 1)
    && (ws[38] == 0 ==> ws[39] == 0)
    && (ws[38] == 1 ==> ws[39] % 4 == 0 && ws[39] + 4 <= size)
  }

  function Join64(low: int, high: int): int {
    low + 0x1_0000_0000 * high
  }

  /** The state that accepted header words and a memory image describe. */
  function StateOf(ws: seq<Word>, mem: seq<Byte>): Arch
    requires |ws| == 41 && ValidMemorySize(|mem|) && Acceptable(|mem|, ws)
  {
    Arch(ws[3], ws[4..36], mem, Join64(ws[36], ws[37]), if ws[38] == 1 then Some(ws[39]) else None, ws[40])
  }

  datatype Reply = Done | InvalidSnapshot | EndOfStream
  datatype Restored = Restored(arch: Arch, reply: Reply)

  /** Restore a VM whose state is `a` from a stream. A short header or a malformed one
      changes nothing; a stream that ends inside the memory image leaves the header's state
      and as much of the image as there was. */
  function Restore(a: Arch, s: seq<Byte>): Restored {
    var size := |a.mem|;
    if |s| < HEADER_LEN then Restored(a, EndOfStream)
    else
      var ws := DecodeWords(s[..HEADER_LEN], 41);
      if !Acceptable(size, ws) then Restored(a, InvalidSnapshot)
      else
        var n := |s| - HEADER_LEN;
        if n < size then Restored(StateOf(ws, s[HEADER_LEN..] + a.mem[n..]), EndOfStream)
        else Restored(StateOf(ws, s[HEADER_LEN..HEADER_LEN + size]), Done)
  }

  lemma WordsOfState(a: Arch)
    ensures Acceptable(|a.mem|, HeaderWords(a)) && StateOf(HeaderWords(a), a.mem) == a
  {
    var ws := HeaderWords(a);
    assert ws[4..36] == a.regs;
    assert ws[36] == a.cycles % 0x1_0000_0000 && ws[37] == a.cycles / 0x1_0000_0000;
    assert ws[38] == Flag(a.res) && ws[39] == Address(a.res) && ws[40] == a.mscratch;
  }

  lemma StateOfWords(ws: seq<Word>, mem: seq<Byte>)
    requires |ws| == 41 && ValidMemorySize(|mem|) && Acceptable(|mem|, ws)
    ensures HeaderWords(StateOf(ws, mem)) == ws
  {
    var a := StateOf(ws, mem);
    assert a.cycles % 0x1_0000_0000 == ws[36] && a.cycles / 0x1_0000_0000 == ws[37];
  }

  /** Restoring what was written, into any VM of the same size and whatever follows it in
      the stream, gives the same state. */
  lemma RestoreAfterWrite(a: Arch, into: Arch, tail: seq<Byte>)
    requires |into.mem| == |a.mem|
    ensures Restore(into, Encode(a) + tail) == Restored(a, Done)
  {
    var s := Encode(a) + tail;
    DecodeEncodedWords(HeaderWords(a));
    WordsOfState(a);
    assert s[..HEADER_LEN] == EncodeWords(HeaderWords(a));
    assert s[HEADER_LEN..HEADER_LEN + |a.mem|] == a.mem;
  }

  /** Writing what was restored gives the same bytes: every accepted snapshot is the
      encoding of the state it restores. With `RestoreAfterWrite`, states of a given size
      and accepted snapshots correspond one to one. */
  lemma WriteAfterRestore(into: Arch, s: seq<Byte>)
    requires |s| == HEADER_LEN + |into.mem| && Restore(into, s).reply == Done
    ensures Encode(Restore(into, s).arch) == s
  {
    var h, mem := s[..HEADER_LEN], s[HEADER_LEN..HEADER_LEN + |into.mem|];
    var ws := DecodeWords(h, 41);
    StateOfWords(ws, mem);
    EncodeDecodedWords(h, 41);
    assert s == h + mem;
  }

  /** A rejected header changes nothing, and no header is rejected that a VM of this size
      could have written. */
  lemma RejectedSnapshots(into: Arch, s: seq<Byte>)
    ensures Restore(into, s).reply == InvalidSnapshot ==> Restore(into, s).arch == into
    ensures Restore(into, s).reply == InvalidSnapshot ==>
              forall a: Arch, tail: seq<Byte> | |a.mem| == |into.mem| :: Encode(a) + tail != s
  {
    forall a: Arch, tail: seq<Byte> | |a.mem| == |into.mem| && Encode(a) + tail == s
      ensures Restore(into, s).reply == Done
    {
      RestoreAfterWrite(a, into, tail);
    }
  }

  /** Memory, of which the first bytes come from the stream. */
  function Overwritten(bytes: seq<Byte>, mem: seq<Byte>): seq<Byte>
    requires |bytes| <= |mem|
  {
    bytes + mem[|bytes|..]
  }

  /** A snapshot that breaks off: inside the header it changes nothing; behind it, all but
      the memory is as in the snapshot, and of the memory as much as there was. */
  lemma CutSnapshot(a: Arch, into: Arch, k: nat)
    requires |into.mem| == |a.mem| && k < |Encode(a)|
    ensures Restore(into, Encode(a)[..k])
            == Restored(if k < 164 then into else a.(mem := Overwritten(a.mem[..k - 164], into.mem)), EndOfStream)
  {
    if k >= 164 {
      var s := Encode(a)[..k];
      DecodeEncodedWords(HeaderWords(a));
      WordsOfState(a);
      assert s[..HEADER_LEN] == EncodeWords(HeaderWords(a)) && s[HEADER_LEN..] == a.mem[..k - 164];
    }
  }

  /** A header is rejected exactly if no state of this size has it. */
  lemma RejectedHeaders(into: Arch, s: seq<Byte>)
    requires |s| >= 164
    ensures Restore(into, s).reply == InvalidSnapshot
            <==> forall a: Arch :: |a.mem| == |into.mem| ==> Encode(a)[..164] != s[..164]
  {
    var h := s[..HEADER_LEN];
    var ws := DecodeWords(h, 41);
    if Acceptable(|into.mem|, ws) {
      var a := StateOf(ws, into.mem);
      StateOfWords(ws, into.mem);
      EncodeDecodedWords(h, 41);
      assert Encode(a)[..164] == s[..164];
    } else {
      forall a: Arch | |a.mem| == |into.mem| ensures Encode(a)[..164] != h {
        DecodeEncodedWords(HeaderWords(a));
        WordsOfState(a);
        assert Encode(a)[..164] == EncodeWords(HeaderWords(a));
      }
    }
  }

  /** Different states have different snapshots, so their digests hash different bytes. */
  lemma EncodingInjective(a: Arch, b: Arch)
    requires Encode(a) == Encode(b)
    ensures a == b
  {
    assert |Encode(a)| == |Encode(b)|;
    RestoreAfterWrite(a, a, []);
    RestoreAfterWrite(b, a, []);
    assert Encode(a) + [] == Encode(b) + [];
  }

  /** The memory size in the first bytes of a snapshot, if they are a valid header's. */
  function MemorySize(start: seq<Byte>): Option<Word> {
    if |start| < 12 || start[..4] != MAGIC || U32(start, 4) != VERSION then None
    else
      var size := U32(start, 8);
      if size < 4 || size % 4 != 0 then None else Some(size)
  }

  lemma MagicBytes()
    ensures ToLe(MAGIC_WORD, 4) == MAGIC
  {
    LeBytes(MAGIC_WORD);
  }

  lemma SameSlice(s: seq<Byte>, n: nat, h: seq<Byte>, i: nat)
    requires i + 4 <= n <= |s| && i + 4 <= |h| <= |s| && s[..|h|] == h
    ensures s[..n][i..i + 4] == h[i..i + 4]
  {
    SliceOfPrefix(s, n, i);
    SliceOfPrefix(s, |h|, i);
  }

  /** Twelve bytes of a snapshot are enough to size a VM for it. */
  lemma MemorySizeOfSnapshot(a: Arch, n: nat)
    requires 12 <= n <= |Encode(a)|
    ensures MemorySize(Encode(a)[..n]) == Some(|a.mem|)
  {
    var ws := HeaderWords(a);
    var h := EncodeWords(ws);
    var start := Encode(a)[..n];
    MagicBytes();
    CodeAtOffset(LeCode(), ws, 0);
    WordAtOffset(ws, 1);
    WordAtOffset(ws, 2);
    assert Encode(a)[..HEADER_LEN] == h;
    SameSlice(Encode(a), n, h, 0);
    SameSlice(Encode(a), n, h, 4);
    SameSlice(Encode(a), n, h, 8);
    assert start[..4] == start[0..4];
  }

  /** A VM restored from a snapshot, with an empty cache of any size and stop_pc 0, replies
      to every history as the VM that wrote it, and reaches the same states. */
  lemma RestoredRunsAlike(decode: DecodeFn, v: VmState, into: Arch, entries: nat, acts: seq<Action>)
    requires StoresRaw(decode) && Consistent(decode, v.cache) && |into.mem| == |v.arch.mem|
    ensures var w := VmState(Restore(into, Encode(v.arch)).arch, EmptyCache(entries), 0);
            && RunCached(decode, w, acts).replies == RunCached(decode, v, acts).replies
            && RunCached(decode, w, acts).vm.arch == RunCached(decode, v, acts).vm.arch
  {
    RestoreAfterWrite(v.arch, into, []);
    assert Encode(v.arch) + [] == Encode(v.arch);
    CacheIsInvisible(decode, VmState(v.arch, EmptyCache(entries), 0), v, acts);
  }

  // ----- The VM's methods -----

  /** Put one little-endian word in its place. */
  method PutWord(buf: array<Byte>, offset: nat, v: Word)
    requires offset + 4 <= buf.Length
    modifies buf
    ensures buf[..] == old(buf[..offset]) + LeCode()(v) + old(buf[offset + 4..])
  {
    LeBytes(v);
    buf[offset] := v % 256;
    buf[offset + 1] := v / 0x100 % 256;
    buf[offset + 2] := v / 0x1_0000 % 256;
    buf[offset + 3] := v / 0x100_0000 % 256;
  }

  /** Everything except the memory, field by field into a buffer. */
  method EncodeHeader(vm: Vm) returns (buf: array<Byte>)
    requires vm.Valid()
    ensures fresh(buf) && buf[..] == EncodeWords(HeaderWords(vm.Arch()))
  {
    var valid := if vm.reservation.Some? then 1 else 0;
    var addr := match vm.reservation case Some(addr) => addr case None => 0;
    var low, high := vm.cycleCount % 0x1_0000_0000, vm.cycleCount / 0x1_0000_0000;
    var ws := [MAGIC_WORD, VERSION, vm.memory.Length, vm.pc] + vm.regs[..] + [low, high, valid, addr, vm.mscratch];
    assert ws == HeaderWords(vm.Arch());
    buf := PutWords(ws);
  }

  method PutWords(ws: seq<Word>) returns (buf: array<Byte>)
    ensures fresh(buf) && buf[..] == EncodeWords(ws)
  {
    buf := new Byte[4 * |ws|](_ => 0);
    ghost var code := LeCode();
    for k := 0 to |ws|
      invariant buf[..4 * k] == EncodeWith(code, ws[..k])
    {
      PutWord(buf, 4 * k, ws[k]);
      assert ws[..k + 1][..k] == ws[..k];
      assert buf[..4 * (k + 1)] == EncodeWith(code, ws[..k]) + code(ws[k]);
    }
    assert ws[..|ws|] == ws && buf[..4 * |ws|] == buf[..];
  }

  method WriteSnapshot(vm: Vm) returns (s: seq<Byte>)
    requires vm.Valid()
    ensures s == Encode(vm.Arch())
  {
    var header := EncodeHeader(vm);
    s := header[..] + vm.memory[..];
  }

  /** Validate the header before changing anything, then overwrite the VM's fields and its
      memory. Only a complete restore empties the decode cache and forgets the last stop. */
  method RestoreSnapshot(vm: Vm, s: seq<Byte>) returns (reply: Reply)
    requires vm.Valid()
    modifies vm, vm.regs, vm.memory, vm.decodeCache
    ensures vm.Valid()
    ensures Restored(vm.Arch(), reply) == Restore(old(vm.Arch()), s)
    ensures vm.State() == if reply == Done then VmState(vm.Arch(), EmptyCache(vm.decodeCache.Length), 0)
                          else VmState(vm.Arch(), old(vm.decodeCache[..]), old(vm.stopPc))
  {
    if |s| < HEADER_LEN { return EndOfStream; }
    var hdr := s[..HEADER_LEN];
    var ws := DecodeWords(hdr, 41);
    if ws[0] != MAGIC_WORD { return InvalidSnapshot; }
    if ws[1] != VERSION { return InvalidSnapshot; }
    if ws[2] != vm.memory.Length { return InvalidSnapshot; }
    if ws[4] != 0 { return InvalidSnapshot; }
    var valid, addr := ws[38], ws[39];
    if valid == 0 {
      if addr != 0 { return InvalidSnapshot; }
    } else if valid == 1 {
      if addr % 4 != 0 || addr > vm.memory.Length - 4 { return InvalidSnapshot; }
    } else {
      return InvalidSnapshot;
    }
    Overwrite(vm, ws, s[HEADER_LEN..]);
    if |s| < HEADER_LEN + vm.memory.Length { return EndOfStream; }
    EmptyTheCache(vm);
    return Done;
  }

  /** Take the state from accepted words, and as much of the memory as `image` holds. */
  method Overwrite(vm: Vm, ws: seq<Word>, image: seq<Byte>)
    requires vm.Valid() && |ws| == 41 && Acceptable(vm.memory.Length, ws)
    modifies vm, vm.regs, vm.memory
    ensures vm.Valid()
    ensures var n := vm.memory.Length;
            var mem := if |image| < n then image + old(vm.memory[..])[|image|..] else image[..n];
            vm.State() == VmState(StateOf(ws, mem), old(vm.decodeCache[..]), old(vm.stopPc))
  {
    vm.pc := ws[3];
    forall i | 0 <= i < vm.regs.Length { vm.regs[i] := ws[4 + i]; }
    vm.cycleCount := Join64(ws[36], ws[37]);
    vm.reservation := if ws[38] == 1 then Some(ws[39]) else None;
    vm.mscratch := ws[40];
    forall i | 0 <= i < vm.memory.Length && i < |image| { vm.memory[i] := image[i]; }
    assert vm.regs[..] == ws[4..36];
    assert vm.memory[..] == if |image| < vm.memory.Length then image + old(vm.memory[..])[|image|..] else image[..vm.memory.Length];
  }

  method EmptyTheCache(vm: Vm)
    requires vm.Valid()
    modifies vm`stopPc, vm.decodeCache
    ensures vm.Valid()
    ensures vm.State() == VmState(old(vm.Arch()), EmptyCache(vm.decodeCache.Length), 0)
  {
    forall i | 0 <= i < vm.decodeCache.Length { vm.decodeCache[i] := EMPTY_SLOT; }
    assert vm.decodeCache[..] == EmptyCache(vm.decodeCache.Length);
    vm.stopPc := 0;
  }
}

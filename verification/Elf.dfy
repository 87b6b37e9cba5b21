/** ELF32 executables written field by field (figures 1-3 and 2-1 of the System V ABI), and
    what the loader makes of them: every header field is read where it was written, and an
    image built from program headers loads just the segments they describe. */
module Elf {
  import opened Words
  import opened Machine
  import opened Loader

  // ----- Pieces of bytes, one after the other -----

  function OffsetOf(pieces: seq<seq<Byte>>, i: nat): nat
    requires i <= |pieces|
  {
    |Joined(pieces[..i])|
  }

  ghost predicate Here(image: seq<Byte>, at: nat, part: seq<Byte>) {
    at + |part| <= |image| && image[at..at + |part|] == part
  }

  lemma {:induction false} PieceHere(image: seq<Byte>, at: nat, pieces: seq<seq<Byte>>, i: nat)
    requires Here(image, at, Joined(pieces)) && i < |pieces|
    ensures Here(image, at + OffsetOf(pieces, i), pieces[i])
    ensures OffsetOf(pieces, i + 1) == OffsetOf(pieces, i) + |pieces[i]| <= |Joined(pieces)|
  {
    var n := |pieces| - 1;
    var init, whole := Joined(pieces[..n]), Joined(pieces);
    assert whole == init + pieces[n];
    HereSplits(image, at, init, pieces[n], whole);
    if i < n {
      PieceHere(image, at, pieces[..n], i);
      assert pieces[..n][..i] == pieces[..i] && pieces[..n][..i + 1] == pieces[..i + 1];
    } else {
      assert pieces[..i + 1] == pieces;
    }
  }

  lemma HereSplits(image: seq<Byte>, at: nat, a: seq<Byte>, b: seq<Byte>, both: seq<Byte>)
    requires both == a + b && Here(image, at, both)
    ensures Here(image, at, a) && Here(image, at + |a|, b)
  {
    assert image[at..at + |a|] == both[..|a|];
    assert image[at + |a|..at + |both|] == both[|a|..];
  }

  lemma ReadsWord(image: seq<Byte>, at: nat, v: Word)
    requires Here(image, at, ToLe(v, 4))
    ensures U32(image, at) == v
  {
    PowersOf256();
    LeRoundTrip(v, 4);
  }

  lemma ReadsHalf(image: seq<Byte>, at: nat, v: Half)
    requires Here(image, at, ToLe(v, 2))
    ensures U16(image, at) == v
  {
    PowersOf256();
    LeRoundTrip(v, 2);
  }

  // ----- Program headers -----

  datatype ProgramHeader = ProgramHeader(
    kind: Word, offset: Word, vaddr: Word, paddr: Word, filesz: Word, memsz: Word, flags: Word, align: Word)

  /** The eight words of a program header. */
  function HeaderWords(p: ProgramHeader): seq<Word> {
    [p.kind, p.offset, p.vaddr, p.paddr, p.filesz, p.memsz, p.flags, p.align]
  }

  function WordPieces(ws: seq<Word>): (pieces: seq<seq<Byte>>)
    ensures |pieces| == |ws| && forall i :: 0 <= i < |ws| ==> pieces[i] == ToLe(ws[i], 4)
  {
    seq(|ws|, i requires 0 <= i < |ws| => ToLe(ws[i], 4))
  }

  function HeaderBytes(p: ProgramHeader): seq<Byte> {
    Joined(WordPieces(HeaderWords(p)))
  }

  lemma {:induction false} FixedOffsets(pieces: seq<seq<Byte>>, size: nat, i: nat)
    requires i <= |pieces| && forall k :: 0 <= k < |pieces| ==> |pieces[k]| == size
    ensures OffsetOf(pieces, i) == size * i
    decreases i
  {
    if i > 0 {
      FixedOffsets(pieces, size, i - 1);
      assert pieces[..i][..i - 1] == pieces[..i - 1];
      Distribute(size, i - 1, 1);
    }
  }

  lemma {:induction false} WordHere(image: seq<Byte>, at: nat, ws: seq<Word>, i: nat)
    requires Here(image, at, Joined(WordPieces(ws))) && i < |ws|
    ensures at + 4 * i + 4 <= |image| && U32(image, at + 4 * i) == ws[i]
  {
    FixedPiece(image, at, WordPieces(ws), 4, i, at + 4 * i);
    ReadsWord(image, at + 4 * i, ws[i]);
  }

  lemma {:induction false} HeaderLength(p: ProgramHeader)
    ensures |HeaderBytes(p)| == PROGRAM_HEADER_LEN
  {
    var pieces := WordPieces(HeaderWords(p));
    FixedOffsets(pieces, 4, 8);
    assert pieces[..8] == pieces;
  }

  /** What a program header says to load, if anything. */
  function Described(p: ProgramHeader): Option<Segment> {
    if p.kind == 1 then Some(Segment(p.offset, p.vaddr, p.filesz, p.memsz, p.flags)) else None
  }

  /** A program header is read back as what it describes. */
  lemma {:induction false} HeaderReads(image: seq<Byte>, ph: nat, p: ProgramHeader)
    requires Here(image, ph, HeaderBytes(p))
    ensures ph + PROGRAM_HEADER_LEN <= |image| && SegmentAt(image, ph) == Described(p)
  {
    HeaderLength(p);
    WordsRead(image, ph, HeaderWords(p));
  }

  lemma {:induction false} WordsRead(image: seq<Byte>, at: nat, ws: seq<Word>)
    requires Here(image, at, Joined(WordPieces(ws))) && |ws| == 8 && at + 32 <= |image|
    ensures U32(image, at) == ws[0] && U32(image, at + 4) == ws[1] && U32(image, at + 8) == ws[2]
    ensures U32(image, at + 16) == ws[4] && U32(image, at + 20) == ws[5] && U32(image, at + 24) == ws[6]
  {
    WordHere(image, at, ws, 0);
    WordHere(image, at, ws, 1);
    WordHere(image, at, ws, 2);
    WordHere(image, at, ws, 4);
    WordHere(image, at, ws, 5);
    WordHere(image, at, ws, 6);
  }

  // ----- The file header -----

  /** The fields of the file header that the loader looks at are fixed or given; `padding`
      and the section fields may be anything. */
  datatype FileHeader = FileHeader(
    padding: seq<Byte>, entry: Word, shoff: Word, flags: Word, shentsize: Half, shnum: Half, shstrndx: Half)

  predicate Padded(h: FileHeader) {
    |h.padding| == 9
  }

  // The groups of fields of the file header.

  function Identity(h: FileHeader): seq<Byte> {
    [0x7F, 0x45, 0x4C, 0x46] + ([1, 1, 1] + h.padding)
  }

  function Kind(): seq<Byte> {
    ToLe(2, 2) + (ToLe(243, 2) + ToLe(1, 4))
  }

  function Places(h: FileHeader, phoff: Word): seq<Byte> {
    ToLe(h.entry, 4) + (ToLe(phoff, 4) + (ToLe(h.shoff, 4) + ToLe(h.flags, 4)))
  }

  function Sizes(h: FileHeader, phnum: Half): seq<Byte> {
    ToLe(52, 2) + (ToLe(32, 2) + (ToLe(phnum, 2) + (ToLe(h.shentsize, 2) + (ToLe(h.shnum, 2) + ToLe(h.shstrndx, 2)))))
  }

  function FileBytes(h: FileHeader, phoff: Word, phnum: Half): seq<Byte> {
    Identity(h) + (Kind() + (Places(h, phoff) + Sizes(h, phnum)))
  }

  lemma IdentityReads(image: seq<Byte>, h: FileHeader)
    requires Padded(h) && Here(image, 0, Identity(h))
    ensures 16 <= |image| && IsElf(image) && image[4] == 1 && image[5] == 1 && image[6] == 1
  {
    var id := Identity(h);
    assert image[..4] == id[..4] == [0x7F, 0x45, 0x4C, 0x46];
    assert image[4] == image[0..16][4] && image[5] == image[0..16][5] && image[6] == image[0..16][6];
  }

  lemma KindReads(image: seq<Byte>)
    requires Here(image, 16, Kind())
    ensures 24 <= |image| && U16(image, 16) == 2 && U16(image, 18) == 243 && U32(image, 20) == 1
  {
    HereSplits(image, 16, ToLe(2, 2), ToLe(243, 2) + ToLe(1, 4), Kind());
    HereSplits(image, 18, ToLe(243, 2), ToLe(1, 4), ToLe(243, 2) + ToLe(1, 4));
    ReadsHalf(image, 16, 2);
    ReadsHalf(image, 18, 243);
    ReadsWord(image, 20, 1);
  }

  lemma PlacesRead(image: seq<Byte>, h: FileHeader, phoff: Word)
    requires Here(image, 24, Places(h, phoff))
    ensures 40 <= |image| && U32(image, 24) == h.entry && U32(image, 28) == phoff
  {
    var rest := ToLe(h.shoff, 4) + ToLe(h.flags, 4);
    HereSplits(image, 24, ToLe(h.entry, 4), ToLe(phoff, 4) + rest, Places(h, phoff));
    HereSplits(image, 28, ToLe(phoff, 4), rest, ToLe(phoff, 4) + rest);
    assert Here(image, 28, ToLe(phoff, 4));
    ReadsWord(image, 24, h.entry);
    ReadsWord(image, 28, phoff);
  }

  lemma SizesRead(image: seq<Byte>, h: FileHeader, phnum: Half)
    requires Here(image, 40, Sizes(h, phnum))
    ensures 52 <= |image| && U16(image, 42) == 32 && U16(image, 44) == phnum
  {
    var rest := ToLe(h.shentsize, 2) + (ToLe(h.shnum, 2) + ToLe(h.shstrndx, 2));
    HereSplits(image, 40, ToLe(52, 2), ToLe(32, 2) + (ToLe(phnum, 2) + rest), Sizes(h, phnum));
    HereSplits(image, 42, ToLe(32, 2), ToLe(phnum, 2) + rest, ToLe(32, 2) + (ToLe(phnum, 2) + rest));
    HereSplits(image, 44, ToLe(phnum, 2), rest, ToLe(phnum, 2) + rest);
    ReadsHalf(image, 42, 32);
    ReadsHalf(image, 44, phnum);
  }

  lemma GroupsHere(image: seq<Byte>, h: FileHeader, phoff: Word, phnum: Half)
    requires Padded(h) && Here(image, 0, FileBytes(h, phoff, phnum))
    ensures |FileBytes(h, phoff, phnum)| == 52
    ensures Here(image, 0, Identity(h)) && Here(image, 16, Kind()) && Here(image, 24, Places(h, phoff)) && Here(image, 40, Sizes(h, phnum))
  {
    var places, sizes := Places(h, phoff), Sizes(h, phnum);
    HereSplits(image, 0, Identity(h), Kind() + (places + sizes), FileBytes(h, phoff, phnum));
    HereSplits(image, 16, Kind(), places + sizes, Kind() + (places + sizes));
    HereSplits(image, 24, places, sizes, places + sizes);
  }

  /** The file header is read back: it is good if the entry point is even, and gives the entry
      point and the table. */
  lemma {:induction false} FileReads(image: seq<Byte>, h: FileHeader, phoff: Word, phnum: Half)
    requires Padded(h) && Here(image, 0, FileBytes(h, phoff, phnum))
    ensures |FileBytes(h, phoff, phnum)| == ELF_HEADER_LEN <= |image|
    ensures GoodHeader(image) <==> h.entry % 2 == 0
    ensures U32(image, 24) == h.entry && TableOf(image) == HeaderTable(phoff, 32, phnum)
  {
    GroupsHere(image, h, phoff, phnum);
    IdentityReads(image, h);
    KindReads(image);
    PlacesRead(image, h, phoff);
    SizesRead(image, h, phnum);
  }

  // ----- Whole images -----

  function TablePieces(phs: seq<ProgramHeader>): (pieces: seq<seq<Byte>>)
    ensures |pieces| == |phs| && forall i :: 0 <= i < |phs| ==> pieces[i] == HeaderBytes(phs[i])
  {
    seq(|phs|, i requires 0 <= i < |phs| => HeaderBytes(phs[i]))
  }

  /** An image: the file header, the program headers right behind it, and any bytes. */
  function Image(h: FileHeader, phs: seq<ProgramHeader>, data: seq<Byte>): seq<Byte>
    requires |phs| < 0x1_0000
  {
    FileBytes(h, 52, |phs|) + (Joined(TablePieces(phs)) + data)
  }

  /** The segments that the headers describe, in order. */
  function Segments(phs: seq<ProgramHeader>): seq<Segment> {
    if phs == [] then []
    else (match Described(phs[0]) case None => [] case Some(s) => [s]) + Segments(phs[1..])
  }

  lemma {:induction false} ImageParts(h: FileHeader, phs: seq<ProgramHeader>, data: seq<Byte>)
    requires |phs| < 0x1_0000 && Padded(h)
    ensures var image := Image(h, phs, data);
            && |FileBytes(h, 52, |phs|)| == 52 && Here(image, 0, FileBytes(h, 52, |phs|))
            && Here(image, 52, Joined(TablePieces(phs))) && |Joined(TablePieces(phs))| == 32 * |phs|
  {
    var file, table, image := FileBytes(h, 52, |phs|), Joined(TablePieces(phs)), Image(h, phs, data);
    ThreeHere(file, table, data, image);
    FileReads(image, h, 52, |phs|);
    TableLength(phs);
  }

  lemma ThreeHere(a: seq<Byte>, b: seq<Byte>, c: seq<Byte>, all: seq<Byte>)
    requires all == a + (b + c)
    ensures Here(all, 0, a) && Here(all, |a|, b)
  {
    assert all[..|a|] == a;
    assert all[|a|..|a| + |b|] == b;
  }

  lemma {:induction false} TableLength(phs: seq<ProgramHeader>)
    ensures |Joined(TablePieces(phs))| == 32 * |phs|
  {
    EntryLengths(phs);
    FixedOffsets(TablePieces(phs), 32, |phs|);
    assert TablePieces(phs)[..|phs|] == TablePieces(phs);
  }

  lemma {:induction false} TableReads(image: seq<Byte>, phs: seq<ProgramHeader>, t: HeaderTable, i: nat)
    requires t == HeaderTable(52, 32, |phs|) && t.Fits(image) && i <= |phs|
    requires Here(image, 52, Joined(TablePieces(phs)))
    ensures SegmentsFrom(image, t, i) == Segments(phs[i..])
    decreases |phs| - i
  {
    if i < |phs| {
      TableReads(image, phs, t, i + 1);
      EntryReads(image, phs, i);
      FromStep(image, t, i);
      SuffixStep(phs, i);
    }
  }

  lemma SuffixStep(phs: seq<ProgramHeader>, i: nat)
    requires i < |phs|
    ensures Segments(phs[i..]) == (match Described(phs[i]) case None => [] case Some(s) => [s]) + Segments(phs[i + 1..])
  {
    assert phs[i..] == [phs[i]] + phs[i + 1..];
    SegmentsStep(phs[i..], phs[i + 1..], phs[i]);
  }

  lemma FromStep(image: seq<Byte>, t: HeaderTable, i: nat)
    requires t.phoff == 52 && t.phentsize == 32 && t.Fits(image) && i < t.phnum
    ensures 52 + i * 32 + 32 <= |image|
    ensures SegmentsFrom(image, t, i)
            == (match SegmentAt(image, 52 + i * 32) case None => [] case Some(s) => [s]) + SegmentsFrom(image, t, i + 1)
  {
    HeaderInside(t, image, i);
  }

  lemma SegmentsStep(phs: seq<ProgramHeader>, rest: seq<ProgramHeader>, p: ProgramHeader)
    requires phs == [p] + rest
    ensures Segments(phs) == (match Described(p) case None => [] case Some(s) => [s]) + Segments(rest)
  {
    assert phs[1..] == rest;
  }

  /** One entry of the table. */
  lemma {:induction false} EntryReads(image: seq<Byte>, phs: seq<ProgramHeader>, i: nat)
    requires Here(image, 52, Joined(TablePieces(phs))) && i < |phs|
    ensures 52 + i * 32 + PROGRAM_HEADER_LEN <= |image| && SegmentAt(image, 52 + i * 32) == Described(phs[i])
  {
    EntryHere(image, phs, i, 52 + i * 32);
    HeaderReads(image, 52 + i * 32, phs[i]);
  }

  lemma {:induction false} EntryHere(image: seq<Byte>, phs: seq<ProgramHeader>, i: nat, k: nat)
    requires Here(image, 52, Joined(TablePieces(phs))) && i < |phs| && k == 52 + 32 * i
    ensures Here(image, k, HeaderBytes(phs[i]))
  {
    EntryLengths(phs);
    FixedPiece(image, 52, TablePieces(phs), 32, i, k);
  }

  lemma {:induction false} FixedPiece(image: seq<Byte>, at: nat, pieces: seq<seq<Byte>>, size: nat, i: nat, k: nat)
    requires Here(image, at, Joined(pieces)) && i < |pieces| && forall j :: 0 <= j < |pieces| ==> |pieces[j]| == size
    requires k == at + size * i
    ensures Here(image, k, pieces[i])
  {
    PieceHere(image, at, pieces, i);
    FixedOffsets(pieces, size, i);
  }

  lemma EntryLengths(phs: seq<ProgramHeader>)
    ensures forall k :: 0 <= k < |phs| ==> |TablePieces(phs)[k]| == 32
  {
    forall k | 0 <= k < |phs| ensures |TablePieces(phs)[k]| == 32 {
      HeaderLength(phs[k]);
    }
  }

  /** Every segment lies in the file. */
  predicate InFile(phs: seq<ProgramHeader>, size: nat) {
    forall p :: p in phs && p.kind == 1 ==> p.offset + p.filesz <= size && p.filesz <= p.memsz
  }

  /** ... and in memory. */
  predicate InMemory(phs: seq<ProgramHeader>, size: nat) {
    forall p :: p in phs && p.kind == 1 ==> p.vaddr + p.memsz <= size
  }

  lemma {:induction false} SegmentOrigin(phs: seq<ProgramHeader>)
    ensures forall s :: s in Segments(phs) <==> exists p :: p in phs && Described(p) == Some(s)
  {
    if phs != [] {
      SegmentOrigin(phs[1..]);
      assert phs == [phs[0]] + phs[1..];
    }
  }

  /** An image built this way is read as it was written, and accepted exactly if its entry
      point is even and its segments lie in the file. */
  lemma {:induction false} ImageReads(h: FileHeader, phs: seq<ProgramHeader>, data: seq<Byte>)
    requires |phs| < 0x1_0000 && Padded(h)
    ensures var image := Image(h, phs, data);
            && (WellFormed(image) <==> h.entry % 2 == 0 && InFile(phs, |image|))
            && (WellFormed(image) ==> SegmentsOf(image) == Segments(phs) && U32(image, 24) == h.entry)
  {
    var image := Image(h, phs, data);
    ImageParts(h, phs, data);
    FileReads(image, h, 52, |phs|);
    WholeTableReads(image, phs, TableOf(image));
    SegmentsInFile(phs, image);
  }

  lemma {:induction false} WholeTableReads(image: seq<Byte>, phs: seq<ProgramHeader>, t: HeaderTable)
    requires t == HeaderTable(52, 32, |phs|) && |Joined(TablePieces(phs))| == 32 * |phs|
    requires Here(image, 52, Joined(TablePieces(phs)))
    ensures t.Fits(image) && SegmentsFrom(image, t, 0) == Segments(phs)
  {
    TableReads(image, phs, t, 0);
    assert phs[0..] == phs;
  }

  lemma DescribedListed(phs: seq<ProgramHeader>, p: ProgramHeader)
    requires p in phs && p.kind == 1
    ensures Segment(p.offset, p.vaddr, p.filesz, p.memsz, p.flags) in Segments(phs)
  {
    SegmentOrigin(phs);
    assert Described(p) == Some(Segment(p.offset, p.vaddr, p.filesz, p.memsz, p.flags));
  }

  lemma SegmentsInFile(phs: seq<ProgramHeader>, image: seq<Byte>)
    ensures InFile(phs, |image|) <==> forall s | s in Segments(phs) :: s.FitsFile(image)
  {
    if InFile(phs, |image|) {
      SegmentOrigin(phs);
      forall s | s in Segments(phs) ensures s.FitsFile(image) {
        var p :| p in phs && Described(p) == Some(s);
      }
    } else {
      var p :| p in phs && p.kind == 1 && !(p.offset + p.filesz <= |image| && p.filesz <= p.memsz);
      DescribedListed(phs, p);
      assert !Segment(p.offset, p.vaddr, p.filesz, p.memsz, p.flags).FitsFile(image);
    }
  }

  lemma SegmentsInMemory(phs: seq<ProgramHeader>, size: nat)
    ensures InMemory(phs, size) <==> forall s | s in Segments(phs) :: s.FitsMemory(size)
  {
    if InMemory(phs, size) {
      SegmentOrigin(phs);
      forall s | s in Segments(phs) ensures s.FitsMemory(size) {
        var p :| p in phs && Described(p) == Some(s);
      }
    } else {
      var p :| p in phs && p.kind == 1 && p.vaddr + p.memsz > size;
      DescribedListed(phs, p);
      assert !Segment(p.offset, p.vaddr, p.filesz, p.memsz, p.flags).FitsMemory(size);
    }
  }

  /** Loading it: refused if it is not well formed or does not fit memory, and otherwise the
      memory is what the segments say, the last one that covers a byte deciding, with zeros
      behind the bytes of the file, and every other byte as before. */
  lemma {:induction false} ImageLoads(a: Arch, h: FileHeader, phs: seq<ProgramHeader>, data: seq<Byte>)
    requires |phs| < 0x1_0000 && Padded(h)
    ensures var image := Image(h, phs, data);
            LoadElfSpec(a, image).1
            == if h.entry % 2 != 0 || !InFile(phs, |image|) then InvalidElf
               else if !InMemory(phs, |a.mem|) then OutOfBounds
               else Loaded(h.entry)
    ensures var image := Image(h, phs, data);
            h.entry % 2 == 0 && InFile(phs, |image|) && InMemory(phs, |a.mem|) ==>
              forall i: nat :: i < |a.mem| ==> ByteLoaded(LoadElfSpec(a, image).0.mem, a.mem, image, Segments(phs), i)
  {
    var image := Image(h, phs, data);
    ImageReads(h, phs, data);
    SegmentsInMemory(phs, |a.mem|);
    if WellFormed(image) && InMemory(phs, |a.mem|) {
      SegmentsInFile(phs, image);
      assert LoadElfSpec(a, image).0 == LoadSegments(a, image, Segments(phs));
      forall i: nat | i < |a.mem| ensures ByteLoaded(LoadElfSpec(a, image).0.mem, a.mem, image, Segments(phs), i) {
        SegmentsLoad(a, image, Segments(phs), i);
      }
    }
  }

  lemma {:induction false} SegmentsLoad(a: Arch, image: seq<Byte>, segs: seq<Segment>, i: nat)
    requires (forall s | s in segs :: s.FitsFile(image) && s.FitsMemory(|a.mem|)) && i < |a.mem|
    ensures ByteLoaded(LoadSegments(a, image, segs).mem, a.mem, image, segs, i)
  {
    LoadedBytes(a, image, segs, i);
    var now := LoadSegments(a, image, segs).mem;
    forall k: nat | k < |segs| && LastCover(segs, i, k) ensures ByteOf(now, image, segs[k], i) {
      var s := segs[k];
      assert s in segs && s.Covers(i);
      assert now[i] == s.ByteAt(image, i);
    }
    if forall k :: 0 <= k < |segs| ==> !(segs[k].vaddr <= i < segs[k].vaddr + segs[k].memsz) {
      assert forall k | 0 <= k < |segs| :: !segs[k].Covers(i);
    }
  }

  /** Byte `i` is the segment's byte of the file, or zero. */
  predicate ByteOf(now: seq<Byte>, image: seq<Byte>, s: Segment, i: nat)
    requires i < |now| && s.vaddr <= i
  {
    if i < s.vaddr + s.filesz then s.offset + i - s.vaddr < |image| && now[i] == image[s.offset + i - s.vaddr]
    else now[i] == 0
  }

  /** Byte `i` after loading: from the file, zero, or as before. */
  ghost predicate ByteLoaded(now: seq<Byte>, was: seq<Byte>, image: seq<Byte>, segs: seq<Segment>, i: nat) {
    && |now| == |was| && i < |was|
    && (forall k: nat :: k < |segs| && LastCover(segs, i, k) ==> ByteOf(now, image, segs[k], i))
    && ((forall k :: 0 <= k < |segs| ==> !(segs[k].vaddr <= i < segs[k].vaddr + segs[k].memsz)) ==> now[i] == was[i])
  }

  // ----- Every image -----

  lemma {:induction false} ReadAt(image: seq<Byte>, at: nat)
    ensures at + 2 <= |image| ==> U16(image, at) == HalfAt(image, at)
    ensures at + 4 <= |image| ==> U32(image, at) == WordAt(image, at)
  {
    if at + 2 <= |image| {
      LeValues(image[at..at + 2]);
    }
    if at + 4 <= |image| {
      LeValues(image[at..at + 4]);
    }
  }

  /** The fixed bytes of the file header: magic number, 32-bit, little-endian, version 1,
      executable for RISC-V. */
  predicate FixedBytes(image: seq<Byte>) {
    && |image| >= 52
    && image[..7] == [0x7F, 0x45, 0x4C, 0x46, 1, 1, 1]
    && image[16..24] == [2, 0, 243, 0, 1, 0, 0, 0]
  }

  /** The program header at `ph`, if it is of type 1, has its bytes inside the file and no
      more of them than it needs. */
  predicate EntryFits(image: seq<Byte>, ph: nat) {
    && ph + 32 <= |image|
    && (WordAt(image, ph) == 1 ==>
          WordAt(image, ph + 4) + WordAt(image, ph + 16) <= |image| && WordAt(image, ph + 16) <= WordAt(image, ph + 20))
  }

  /** `n` program headers of `size` bytes at `at`. */
  predicate TableFits(image: seq<Byte>, at: nat, size: nat, n: nat) {
    && (n > 0 ==> size >= 32)
    && at + size * n <= |image|
    && forall i: nat :: i < n ==> EntryFits(image, at + i * size)
  }

  lemma {:induction false} FixedBytesRead(image: seq<Byte>)
    requires |image| >= 52
    ensures GoodHeader(image) <==> FixedBytes(image) && image[24] % 2 == 0
  {
    ReadAt(image, 16);
    ReadAt(image, 18);
    ReadAt(image, 20);
    ReadAt(image, 24);
    FirstBytes(image);
    KindBytes(image[16..24]);
    EvenWord(image[24], image[25], image[26], image[27]);
  }

  lemma FirstBytes(image: seq<Byte>)
    requires |image| >= 52
    ensures IsElf(image) && image[4] == 1 && image[5] == 1 && image[6] == 1
            <==> image[..7] == [0x7F, 0x45, 0x4C, 0x46, 1, 1, 1]
  {
    assert image[..7] == image[..4] + [image[4], image[5], image[6]];
  }

  lemma KindBytes(s: seq<Byte>)
    requires |s| == 8
    ensures Join2(s[0], s[1]) == 2 && Join2(s[2], s[3]) == 243 && Join4(s[4], s[5], s[6], s[7]) == 1
            <==> s == [2, 0, 243, 0, 1, 0, 0, 0]
  {
  }

  lemma EvenWord(b0: Byte, b1: Byte, b2: Byte, b3: Byte)
    ensures Join4(b0, b1, b2, b3) % 2 == b0 % 2
  {
    DivModUnique(Join4(b0, b1, b2, b3), 2, b0 / 2 + 0x80 * b1 + 0x8000 * b2 + 0x80_0000 * b3, b0 % 2);
  }

  lemma {:induction false} TableFitsFrom(image: seq<Byte>, t: HeaderTable, i: nat)
    requires t.Fits(image) && i <= t.phnum
    ensures (forall s | s in SegmentsFrom(image, t, i) :: s.FitsFile(image))
            <==> forall k: nat :: i <= k < t.phnum ==> EntryFits(image, t.phoff + k * t.phentsize)
    decreases t.phnum - i
  {
    if i < t.phnum {
      var ph := t.phoff + i * t.phentsize;
      HeaderInside(t, image, i);
      TableFitsFrom(image, t, i + 1);
      EntryRead(image, ph);
    }
  }

  lemma {:induction false} EntryRead(image: seq<Byte>, ph: nat)
    requires ph + 32 <= |image|
    ensures match SegmentAt(image, ph)
            case None => EntryFits(image, ph)
            case Some(s) => s.FitsFile(image) <==> EntryFits(image, ph)
  {
    ReadAt(image, ph);
    ReadAt(image, ph + 4);
    ReadAt(image, ph + 16);
    ReadAt(image, ph + 20);
  }

  /** Of all byte strings, those are accepted that have the fixed bytes, an even entry point
      and a table of program headers inside the file whose segments fit it. */
  lemma {:induction false} AcceptedImages(image: seq<Byte>)
    ensures WellFormed(image)
            <==> FixedBytes(image) && image[24] % 2 == 0
                 && TableFits(image, WordAt(image, 28), HalfAt(image, 42), HalfAt(image, 44))
    ensures FixedBytes(image) ==> U32(image, 24) == WordAt(image, 24)
  {
    if |image| >= 52 {
      FixedBytesRead(image);
      ReadAt(image, 24);
      ReadAt(image, 28);
      ReadAt(image, 42);
      ReadAt(image, 44);
      var t := TableOf(image);
      if t.Fits(image) {
        TableFitsFrom(image, t, 0);
      }
    }
  }
}

/** The ELF file format, and a linker for it: what the loader reads is what was written. */
module ElfFormat {
  import opened Basics
  import opened LittleEndian
  import opened PageTree
  import opened Elf

  /** The header of a 64-bit ELF file, field by field in the order of the format. */
  datatype FileHeader = FileHeader(
    ident: seq<byte>,
    elfType: nat,
    machine: nat,
    version: nat,
    entry: nat,
    phoff: nat,
    shoff: nat,
    flags: nat,
    ehsize: nat,
    phentsize: nat,
    phnum: nat,
    shentsize: nat,
    shnum: nat,
    shstrndx: nat
  )

  /** What follows the 16 identification bytes. */
  function HeaderRecord(h: FileHeader): seq<Field> {
    [Field(h.elfType, 2), Field(h.machine, 2), Field(h.version, 4), Field(h.entry, 8), Field(h.phoff, 8),
     Field(h.shoff, 8), Field(h.flags, 4), Field(h.ehsize, 2), Field(h.phentsize, 2), Field(h.phnum, 2),
     Field(h.shentsize, 2), Field(h.shnum, 2), Field(h.shstrndx, 2)]
  }

  /** These 64 bytes are this header. */
  predicate IsHeader(b: seq<byte>, h: FileHeader) {
    |h.ident| == 16 && Fit(HeaderRecord(h)) && b == h.ident + Record(HeaderRecord(h))
  }

  /** A program header, with the two fields that the loader does not look at. */
  function ProgramRecord(ph: ProgramHeader, paddr: nat, align: nat): seq<Field> {
    [Field(ph.progType, 4), Field(ph.flags, 4), Field(ph.offset, 8), Field(ph.vaddr, 8), Field(paddr, 8),
     Field(ph.filesz, 8), Field(ph.memsz, 8), Field(align, 8)]
  }

  /** These 56 bytes are this program header. */
  ghost predicate IsProgramHeader(b: seq<byte>, ph: ProgramHeader) {
    exists paddr: nat, align: nat ::
      Fit(ProgramRecord(ph, paddr, align)) && b == Record(ProgramRecord(ph, paddr, align))
  }

  // ---- Reading

  lemma ProgramOffsets(ph: ProgramHeader, paddr: nat, align: nat)
    ensures var r := ProgramRecord(ph, paddr, align);
      && Offset(r, 1) == 4 && Offset(r, 2) == 8 && Offset(r, 3) == 16 && Offset(r, 4) == 24
      && Offset(r, 5) == 32 && Offset(r, 6) == 40 && Offset(r, 7) == 48 && Offset(r, 8) == 56
  {
    var r := ProgramRecord(ph, paddr, align);
    assert Offset(r, 1) == 4 && Offset(r, 2) == 8 && Offset(r, 3) == 16 && Offset(r, 4) == 24;
    assert Offset(r, 5) == 32 && Offset(r, 6) == 40 && Offset(r, 7) == 48;
  }

  /** Each part of the bytes is a number of its own. */
  lemma ProgramParts(b: seq<byte>, ph: ProgramHeader, paddr: nat, align: nat)
    requires |b| == 56
    ensures var r := ProgramRecord(ph, paddr, align);
      b == Record(r) && Fit(r) <==>
        && Little(b[0..4]) == ph.progType && Little(b[4..8]) == ph.flags && Little(b[8..16]) == ph.offset
        && Little(b[16..24]) == ph.vaddr && Little(b[24..32]) == paddr && Little(b[32..40]) == ph.filesz
        && Little(b[40..48]) == ph.memsz && Little(b[48..56]) == align
  {
    hide Little, Record, Part, Fit;
    var r := ProgramRecord(ph, paddr, align);
    ProgramOffsets(ph, paddr, align);
    RecordReads(b, r);
    PartIs(b, r, 0);
    PartIs(b, r, 1);
    PartIs(b, r, 2);
    PartIs(b, r, 3);
    PartIs(b, r, 4);
    PartIs(b, r, 5);
    PartIs(b, r, 6);
    PartIs(b, r, 7);
  }

  /** The loader reads a program header exactly as the format lays it out. */
  lemma ProgramHeaderRead(b: seq<byte>, ph: ProgramHeader)
    requires |b| == 56
    ensures ReadProgramHeader(b) == ph <==> IsProgramHeader(b, ph)
  {
    hide Little, Record, Fit;
    if ReadProgramHeader(b) == ph {
      ProgramParts(b, ph, Little(b[24..32]), Little(b[48..56]));
    }
    if paddr: nat, align: nat :| Fit(ProgramRecord(ph, paddr, align)) && b == Record(ProgramRecord(ph, paddr, align)) {
      ProgramParts(b, ph, paddr, align);
    }
  }

  lemma HeaderOffsets(h: FileHeader)
    ensures var r := HeaderRecord(h);
      && Offset(r, 1) == 2 && Offset(r, 2) == 4 && Offset(r, 3) == 8 && Offset(r, 4) == 16 && Offset(r, 5) == 24
      && Offset(r, 6) == 32 && Offset(r, 7) == 36 && Offset(r, 8) == 38 && Offset(r, 9) == 40 && Offset(r, 10) == 42
      && Offset(r, 11) == 44 && Offset(r, 12) == 46 && Offset(r, 13) == 48
  {
    var r := HeaderRecord(h);
    assert Offset(r, 1) == 2 && Offset(r, 2) == 4 && Offset(r, 3) == 8 && Offset(r, 4) == 16 && Offset(r, 5) == 24;
    assert Offset(r, 6) == 32 && Offset(r, 7) == 36 && Offset(r, 8) == 38 && Offset(r, 9) == 40;
    assert Offset(r, 10) == 42 && Offset(r, 11) == 44 && Offset(r, 12) == 46;
  }

  lemma HeaderParts(b: seq<byte>, h: FileHeader)
    requires |b| == 48
    ensures var r := HeaderRecord(h);
      b == Record(r) && Fit(r) <==>
        && Little(b[0..2]) == h.elfType && Little(b[2..4]) == h.machine && Little(b[4..8]) == h.version
        && Little(b[8..16]) == h.entry && Little(b[16..24]) == h.phoff && Little(b[24..32]) == h.shoff
        && Little(b[32..36]) == h.flags && Little(b[36..38]) == h.ehsize && Little(b[38..40]) == h.phentsize
        && Little(b[40..42]) == h.phnum && Little(b[42..44]) == h.shentsize && Little(b[44..46]) == h.shnum
        && Little(b[46..48]) == h.shstrndx
  {
    hide Little, Record, Part, Fit;
    var r := HeaderRecord(h);
    HeaderOffsets(h);
    RecordReads(b, r);
    PartIs(b, r, 0);
    PartIs(b, r, 1);
    PartIs(b, r, 2);
    PartIs(b, r, 3);
    PartIs(b, r, 4);
    PartIs(b, r, 5);
    PartIs(b, r, 6);
    PartIs(b, r, 7);
    PartIs(b, r, 8);
    PartIs(b, r, 9);
    PartIs(b, r, 10);
    PartIs(b, r, 11);
    PartIs(b, r, 12);
  }

  /** An executable for this machine: magic number, 64 bits, little-endian, type EXEC, x86-64, version 1. */
  predicate Executable(h: FileHeader) {
    && |h.ident| == 16 && h.ident[..6] == [0x7F, 0x45, 0x4C, 0x46, 2, 1]
    && h.elfType == 2 && h.machine == 0x3E && h.version == 1
  }

  /** What the loader takes from a header. */
  function Taken(h: FileHeader): ElfHeader {
    ElfHeader(h.entry, h.phoff, h.phentsize, h.phnum)
  }

  /** The header that 64 bytes spell out. */
  function HeaderOf(b: seq<byte>): FileHeader
    requires |b| == 64
  {
    FileHeader(b[..16], Little(b[16..18]), Little(b[18..20]), Little(b[20..24]), Little(b[24..32]), Little(b[32..40]),
      Little(b[40..48]), Little(b[48..52]), Little(b[52..54]), Little(b[54..56]), Little(b[56..58]), Little(b[58..60]),
      Little(b[60..62]), Little(b[62..64]))
  }

  lemma Resliced(b: seq<byte>, k: nat, i: nat, j: nat)
    requires k <= |b| && i <= j && k + j <= |b|
    ensures b[k..][i..j] == b[k + i..k + j]
  {}

  /** Any 64 bytes are one header, and only one. */
  lemma OneHeader(b: seq<byte>, h: FileHeader)
    requires |b| == 64
    ensures IsHeader(b, h) <==> h == HeaderOf(b)
  {
    hide Little, Record, Fit;
    HeaderParts(b[16..], h);
    Resliced(b, 16, 0, 2);
    Resliced(b, 16, 2, 4);
    Resliced(b, 16, 4, 8);
    Resliced(b, 16, 8, 16);
    Resliced(b, 16, 16, 24);
    Resliced(b, 16, 24, 32);
    Resliced(b, 16, 32, 36);
    Resliced(b, 16, 36, 38);
    Resliced(b, 16, 38, 40);
    Resliced(b, 16, 40, 42);
    Resliced(b, 16, 42, 44);
    Resliced(b, 16, 44, 46);
    Resliced(b, 16, 46, 48);
    HeaderOffsets(h);
    if IsHeader(b, h) {
      assert b[..16] == h.ident && b[16..] == Record(HeaderRecord(h));
    }
    if h == HeaderOf(b) {
      assert b == b[..16] + b[16..];
    }
  }

  /** The loader accepts a file exactly if its first 64 bytes are the header of an executable, and reads the
    * header as the format lays it out. */
  lemma ElfHeaderRead(image: seq<byte>, elf: ElfHeader)
    ensures ReadElfHeader(image) == Ok(elf) <==>
      |image| >= 64 && exists h :: IsHeader(image[..64], h) && Executable(h) && elf == Taken(h)
    ensures |image| >= 64 ==> exists h :: IsHeader(image[..64], h)
  {
    hide Little, IsHeader;
    if |image| >= 64 {
      var h := HeaderOf(image[..64]);
      OneHeader(image[..64], h);
      HeaderSlices(image);
      forall h' | IsHeader(image[..64], h') ensures h' == h {
        OneHeader(image[..64], h');
      }
    }
  }

  lemma HeaderSlices(image: seq<byte>)
    requires |image| >= 64
    ensures var h := HeaderOf(image[..64]);
      && Executable(h) <==>
        && image[0..4] == [0x7F, 0x45, 0x4C, 0x46] && image[4] == 2 && image[5] == 1
        && Little(image[16..18]) == 2 && Little(image[18..20]) == 0x3E && Little(image[20..24]) == 1
    ensures var h := HeaderOf(image[..64]);
      && h.entry == Little(image[24..32]) && h.phoff == Little(image[32..40])
      && h.phentsize == Little(image[54..56]) && h.phnum == Little(image[56..58])
  {
    hide Little;
    var b := image[..64];
    assert b[16..18] == image[16..18] && b[18..20] == image[18..20] && b[20..24] == image[20..24];
    assert b[24..32] == image[24..32] && b[32..40] == image[32..40];
    assert b[54..56] == image[54..56] && b[56..58] == image[56..58];
    assert b[..16][..6] == b[..6] == image[0..4] + [image[4], image[5]];
  }

  /** Why a file is refused: it is too short, or the first of these that is wrong in its header. */
  lemma HeaderRefused(image: seq<byte>, h: FileHeader)
    ensures ReadElfHeader(image) == Err(TruncatedHeader) <==> |image| < 64
    ensures |image| >= 64 && IsHeader(image[..64], h) ==>
      ReadElfHeader(image) ==
        if h.ident[..4] != [0x7F, 0x45, 0x4C, 0x46] then Err(BadMagic)
        else if h.ident[4..6] != [2, 1] then Err(BadClass)
        else if !Executable(h) then Err(BadTarget)
        else Ok(Taken(h))
  {
    hide Little, Record, Fit;
    if |image| >= 64 {
      OneHeader(image[..64], h);
      HeaderSlices(image);
      var b := image[..64];
      assert b[..16][..4] == image[0..4] && b[..16][4..6] == [image[4], image[5]];
    }
  }

  // ---- Program headers in a file

  /** The file holds these program headers, one after the other from the place that its header names. */
  ghost predicate Describes(image: seq<byte>, elf: ElfHeader, phs: seq<ProgramHeader>) {
    && elf.phentsize == 56 && elf.phnum == |phs| && elf.phoff + 56 * |phs| <= |image|
    && forall i: nat | i < |phs| :: IsProgramHeader(image[elf.phoff + 56 * i..elf.phoff + 56 * i + 56], phs[i])
  }

  /** A program header that asks for memory. */
  predicate Wanted(ph: ProgramHeader) {
    ph.progType == 1 && ph.memsz > 0
  }

  /** What the loader demands of a LOAD header: no more bytes in the file than in memory, bytes that are in the
    * file, and an end that is an address. */
  predicate Sound(ph: ProgramHeader, fileSize: nat) {
    ph.progType == 1 ==>
      && ph.filesz <= ph.memsz
      && (ph.memsz > 0 ==>
            && ph.offset + ph.filesz <= fileSize && ph.offset + ph.filesz < WORD && ph.vaddr + ph.memsz < WORD)
  }

  /** The memory that a program header asks for; 2 is the flag for writing. */
  function MemoryOf(image: seq<byte>, ph: ProgramHeader): Segment
    requires Wanted(ph) && Sound(ph, |image|)
  {
    Segment(ph.vaddr, ph.memsz, image[ph.offset..][..ph.filesz], Flags(true, ph.flags % 4 >= 2, true, false, {}))
  }

  function MemoryOfAll(image: seq<byte>, phs: seq<ProgramHeader>): seq<Segment>
    requires forall ph | ph in phs :: Sound(ph, |image|)
  {
    if phs == [] then []
    else
      var k := |phs| - 1;
      MemoryOfAll(image, phs[..k]) + if Wanted(phs[k]) then [MemoryOf(image, phs[k])] else []
  }

  lemma HeaderSegmentRead(image: seq<byte>, elf: ElfHeader, phs: seq<ProgramHeader>, i: nat)
    requires Describes(image, elf, phs) && i < |phs|
    ensures HeaderSegment(image, elf, i).Ok? <==> Sound(phs[i], |image|)
    ensures Sound(phs[i], |image|) ==>
      HeaderSegment(image, elf, i) == Ok(if Wanted(phs[i]) then Some(MemoryOf(image, phs[i])) else None)
  {
    hide Little, IsProgramHeader;
    var at := elf.phoff + 56 * i;
    assert elf.phoff + i * elf.phentsize == at && at + 56 <= |image|;
    ProgramHeaderRead(image[at..at + 56], phs[i]);
    var ph := phs[i];
    if Wanted(ph) && Sound(ph, |image|) {
      assert image[ph.offset..][..ph.filesz] == image[ph.offset..ph.offset + ph.filesz];
    }
  }

  /** Of the first k program headers of a file, the loader accepts all exactly if all are sound, and then takes
    * the memory they ask for, in their order. */
  lemma {:induction false} SegmentsRead(image: seq<byte>, elf: ElfHeader, phs: seq<ProgramHeader>, k: nat)
    requires Describes(image, elf, phs) && k <= |phs|
    ensures HeadersOk(image, elf, k) <==> forall i: nat | i < k :: Sound(phs[i], |image|)
    ensures HeadersOk(image, elf, k) ==>
      (forall ph | ph in phs[..k] :: Sound(ph, |image|)) && Segments(image, elf, k) == MemoryOfAll(image, phs[..k])
  {
    hide HeaderSegment, Sound, Wanted, MemoryOf, IsProgramHeader;
    forall i: nat | i < k ensures HeaderSegment(image, elf, i).Ok? <==> Sound(phs[i], |image|) {
      HeaderSegmentRead(image, elf, phs, i);
    }
    if k > 0 {
      SegmentsRead(image, elf, phs, k - 1);
      HeaderSegmentRead(image, elf, phs, k - 1);
      assert phs[..k][..k - 1] == phs[..k - 1];
    }
  }

  // ---- A linker

  /** Segments that can be written to a file: the loader's flags, and sizes that fit. */
  predicate Linkable(entry: nat, segments: seq<Segment>) {
    && entry < WORD && |segments| < 0x1_0000
    && 64 + 56 * |segments| + |Data(segments, |segments|)| < WORD
    && forall i | 0 <= i < |segments| ::
         var s := segments[i];
         && 0 < s.size && |s.data| <= s.size && s.vaddr + s.size < WORD
         && s.flags == Flags(true, s.flags.writable, true, false, {})
  }

  /** The bytes of the first n segments. */
  function Data(segments: seq<Segment>, n: nat): seq<byte>
    requires n <= |segments|
  {
    if n == 0 then [] else Data(segments, n - 1) + segments[n - 1].data
  }

  /** Segment i as a program header: flags read and execute, and write if it is writable. */
  function Described(segments: seq<Segment>, i: nat): ProgramHeader
    requires i < |segments|
  {
    var s := segments[i];
    ProgramHeader(1, if s.flags.writable then 7 else 5, 64 + 56 * |segments| + |Data(segments, i)|, s.vaddr, |s.data|,
      s.size)
  }

  /** The first n program headers. */
  function Headers(segments: seq<Segment>, n: nat): seq<byte>
    requires n <= |segments|
  {
    if n == 0 then [] else Headers(segments, n - 1) + Record(ProgramRecord(Described(segments, n - 1), 0, 0))
  }

  function LinkedHeader(entry: nat, segments: seq<Segment>): FileHeader {
    FileHeader([0x7F, 0x45, 0x4C, 0x46, 2, 1, 1, 0, 0, 0, 0, 0, 0, 0, 0, 0], 2, 0x3E, 1, entry, 64, 0, 0, 64, 56,
      |segments|, 0, 0, 0)
  }

  /** An executable file with these segments. */
  function Link(entry: nat, segments: seq<Segment>): seq<byte> {
    var h := LinkedHeader(entry, segments);
    h.ident + Record(HeaderRecord(h)) + Headers(segments, |segments|) + Data(segments, |segments|)
  }

  lemma {:induction false} HeadersAt(segments: seq<Segment>, n: nat, i: nat)
    requires i < n <= |segments|
    ensures |Headers(segments, n)| == 56 * n
    ensures Headers(segments, n)[56 * i..56 * i + 56] == Record(ProgramRecord(Described(segments, i), 0, 0))
    decreases n
  {
    hide Record, Described;
    ProgramOffsets(Described(segments, n - 1), 0, 0);
    if i < n - 1 {
      HeadersAt(segments, n - 1, i);
    } else if n > 1 {
      HeadersAt(segments, n - 1, 0);
    }
  }

  lemma {:induction false} DataAt(segments: seq<Segment>, n: nat, i: nat)
    requires i < n <= |segments|
    ensures var at, size := |Data(segments, i)|, |segments[i].data|;
      at + size <= |Data(segments, n)| && Data(segments, n)[at..at + size] == segments[i].data
    decreases n
  {
    if i < n - 1 {
      DataAt(segments, n - 1, i);
    }
  }

  lemma LinkedFits(entry: nat, segments: seq<Segment>, i: nat)
    requires Linkable(entry, segments)
    ensures Fit(HeaderRecord(LinkedHeader(entry, segments)))
    ensures i < |segments| ==> Fit(ProgramRecord(Described(segments, i), 0, 0))
  {
    Powers();
    if i < |segments| {
      hide Data;
      DataAt(segments, |segments|, i);
    }
  }

  lemma LinkedDescribes(entry: nat, segments: seq<Segment>, phs: seq<ProgramHeader>)
    requires Linkable(entry, segments) && |phs| == |segments|
    requires forall i: nat | i < |phs| :: phs[i] == Described(segments, i)
    ensures var image, h := Link(entry, segments), LinkedHeader(entry, segments);
      && |image| >= 64 && IsHeader(image[..64], h) && Describes(image, Taken(h), phs)
      && |image| == 64 + 56 * |segments| + |Data(segments, |segments|)|
      && image[64 + 56 * |segments|..] == Data(segments, |segments|)
  {
    hide Record, Fit, Data, Headers, Described, Linkable, HeaderRecord;
    var image, h := Link(entry, segments), LinkedHeader(entry, segments);
    LinkedFits(entry, segments, 0);
    HeaderLength(h);
    TableLength(segments);
    assert image[..64] == h.ident + Record(HeaderRecord(h));
    assert image[64..64 + 56 * |segments|] == Headers(segments, |segments|);
    forall i: nat | i < |phs| ensures IsProgramHeader(image[64 + 56 * i..64 + 56 * i + 56], phs[i]) {
      LinkedFits(entry, segments, i);
      HeadersAt(segments, |segments|, i);
      TableSlice(image, segments, i);
    }
  }

  lemma HeaderLength(h: FileHeader)
    ensures |Record(HeaderRecord(h))| == 48
  {
    HeaderOffsets(h);
  }

  lemma TableLength(segments: seq<Segment>)
    ensures |Headers(segments, |segments|)| == 56 * |segments|
  {
    if segments != [] {
      HeadersAt(segments, |segments|, 0);
    }
  }

  lemma SliceOfSlice(b: seq<byte>, lo: nat, hi: nat, i: nat, j: nat)
    requires lo <= hi <= |b| && i <= j && lo + j <= hi
    ensures b[lo..hi][i..j] == b[lo + i..lo + j]
  {
    var s, part := b[lo..hi], b[lo + i..lo + j];
    forall k | 0 <= k < j - i ensures s[i..j][k] == part[k] {
      assert s[i + k] == b[lo + i + k];
    }
  }

  lemma TableSlice(image: seq<byte>, segments: seq<Segment>, i: nat)
    requires i < |segments| && 64 + 56 * |segments| <= |image|
    requires image[64..64 + 56 * |segments|] == Headers(segments, |segments|)
    ensures |Headers(segments, |segments|)| == 56 * |segments|
    ensures image[64 + 56 * i..64 + 56 * i + 56] == Headers(segments, |segments|)[56 * i..56 * i + 56]
  {
    hide Headers;
    assert 56 * i + 56 <= 56 * |segments|;
    SliceOfSlice(image, 64, 64 + 56 * |segments|, 56 * i, 56 * i + 56);
  }

  lemma LinkedMemory(entry: nat, segments: seq<Segment>, i: nat)
    requires Linkable(entry, segments) && i < |segments|
    requires |Link(entry, segments)| == 64 + 56 * |segments| + |Data(segments, |segments|)|
    requires Link(entry, segments)[64 + 56 * |segments|..] == Data(segments, |segments|)
    ensures var image, ph := Link(entry, segments), Described(segments, i);
      Wanted(ph) && Sound(ph, |image|) && MemoryOf(image, ph) == segments[i]
  {
    hide Link, Data;
    DataAt(segments, |segments|, i);
    var image, k := Link(entry, segments), 64 + 56 * |segments|;
    var at, size := |Data(segments, i)|, |segments[i].data|;
    assert image[k + at..][..size] == image[k..][at..at + size];
  }

  lemma {:induction false} LinkedMemories(entry: nat, segments: seq<Segment>, phs: seq<ProgramHeader>, n: nat)
    requires Linkable(entry, segments) && |phs| == |segments| && n <= |segments|
    requires forall i: nat | i < |phs| :: phs[i] == Described(segments, i)
    requires |Link(entry, segments)| == 64 + 56 * |segments| + |Data(segments, |segments|)|
    requires Link(entry, segments)[64 + 56 * |segments|..] == Data(segments, |segments|)
    ensures forall i: nat | i < n :: Sound(phs[i], |Link(entry, segments)|)
    ensures (forall ph | ph in phs[..n] :: Sound(ph, |Link(entry, segments)|))
      && MemoryOfAll(Link(entry, segments), phs[..n]) == segments[..n]
    decreases n
  {
    hide Link, Data, Linkable, Described, Wanted, Sound, MemoryOf;
    if n > 0 {
      LinkedMemories(entry, segments, phs, n - 1);
      LinkedMemory(entry, segments, n - 1);
      assert phs[..n][..n - 1] == phs[..n - 1];
      assert segments[..n] == segments[..n - 1] + [segments[n - 1]];
    }
  }

  /** What was linked is loaded: the entry point, and exactly the segments, in their order. */
  lemma LinkedIsLoaded(entry: nat, segments: seq<Segment>)
    requires Linkable(entry, segments)
    ensures var image := Link(entry, segments);
      && ReadElfHeader(image).Ok? && ReadElfHeader(image).value.entry == entry
      && ReadElfHeader(image).value.phentsize == ENTRY_SIZE && ReadElfHeader(image).value.phnum == |segments|
      && HeadersOk(image, ReadElfHeader(image).value, |segments|)
      && Segments(image, ReadElfHeader(image).value, |segments|) == segments
  {
    hide Link, Data, Linkable, Described, Wanted, Sound, MemoryOf, MemoryOfAll, IsHeader, Describes, Segments,
      HeadersOk;
    var image, h := Link(entry, segments), LinkedHeader(entry, segments);
    var phs := seq(|segments|, i requires 0 <= i < |segments| => Described(segments, i));
    LinkedDescribes(entry, segments, phs);
    HeaderRefused(image, h);
    LinkedMemories(entry, segments, phs, |segments|);
    SegmentsRead(image, Taken(h), phs, |segments|);
    assert phs[..|segments|] == phs && segments[..|segments|] == segments;
  }
}

/** The parts of a 64-bit ELF image that exec reads, and what a list of LOAD segments means. */
module Elf {
  import opened Basics
  import opened LittleEndian
  import opened PageTree
  import opened AddressSpace

  datatype ExecError =
    | TruncatedHeader | BadMagic | BadClass | BadTarget | BadEntrySize | TruncatedProgramHeader
    | BadSegmentSizes | TruncatedSegment | SegmentOverflow | HeapOverflow | StackOverflow
    | MapFailed | CopyFailed | NoFrames

  const HEADER_SIZE: nat := 64
  const ENTRY_SIZE: nat := 56
  const PROG_LOAD: nat := 1

  datatype ElfHeader = ElfHeader(entry: nat, phoff: nat, phentsize: nat, phnum: nat)

  /** The header, if the image is a little-endian 64-bit x86-64 executable of version 1. */
  function ReadElfHeader(image: seq<byte>): Result<ElfHeader, ExecError> {
    if |image| < HEADER_SIZE then Err(TruncatedHeader)
    else if image[0..4] != [0x7F, 0x45, 0x4C, 0x46] then Err(BadMagic)
    else if image[4] != 2 || image[5] != 1 then Err(BadClass)
    else if Little(image[16..18]) != 2 || Little(image[18..20]) != 0x3E || Little(image[20..24]) != 1 then
      Err(BadTarget)
    else Ok(ElfHeader(Little(image[24..32]), Little(image[32..40]), Little(image[54..56]), Little(image[56..58])))
  }

  datatype ProgramHeader = ProgramHeader(progType: nat, flags: nat, offset: nat, vaddr: nat, filesz: nat, memsz: nat)

  function ReadProgramHeader(b: seq<byte>): ProgramHeader
    requires |b| == ENTRY_SIZE
  {
    ProgramHeader(Little(b[0..4]), Little(b[4..8]), Little(b[8..16]), Little(b[16..24]), Little(b[32..40]),
      Little(b[40..48]))
  }

  /** A LOAD segment: size bytes at vaddr, the first of which come from the file and the rest are zero. */
  datatype Segment = Segment(vaddr: nat, size: nat, data: seq<byte>, flags: Flags) {
    predicate Covers(va: nat) {
      vaddr <= va < vaddr + size
    }

    function ByteAt(va: nat): byte
      requires Covers(va)
    {
      if va - vaddr < |data| then data[va - vaddr] else 0
    }

    /** Page n holds some byte of the segment. */
    predicate Touches(n: nat) {
      size > 0 && vaddr / PAGE_SIZE <= n <= (vaddr + size - 1) / PAGE_SIZE
    }
  }

  /** Segments are user-readable, and writable when the header's write bit is set. */
  function SegmentFlags(flags: nat): Flags {
    Flags(true, flags / 2 % 2 == 1, true, false, {})
  }

  /** What the checks on program header i say: skip it, load a segment, or reject the image. */
  function HeaderSegment(image: seq<byte>, elf: ElfHeader, i: nat): Result<Option<Segment>, ExecError> {
    var start := elf.phoff + i * elf.phentsize;
    if elf.phentsize != ENTRY_SIZE then Err(BadEntrySize)
    else if start + ENTRY_SIZE > |image| then Err(TruncatedProgramHeader)
    else
      var ph := ReadProgramHeader(image[start..start + ENTRY_SIZE]);
      if ph.progType != PROG_LOAD then Ok(None)
      else if ph.memsz < ph.filesz then Err(BadSegmentSizes)
      else if ph.memsz == 0 then Ok(None)
      else if ph.offset + ph.filesz >= WORD then Err(SegmentOverflow)
      else if ph.offset + ph.filesz > |image| then Err(TruncatedSegment)
      else if ph.vaddr + ph.memsz >= WORD then Err(SegmentOverflow)
      else Ok(Some(Segment(ph.vaddr, ph.memsz, image[ph.offset..ph.offset + ph.filesz], SegmentFlags(ph.flags))))
  }

  /** The segments of the first k program headers. */
  function Segments(image: seq<byte>, elf: ElfHeader, k: nat): seq<Segment> {
    if k == 0 then []
    else
      var rest := Segments(image, elf, k - 1);
      var s := HeaderSegment(image, elf, k - 1);
      if s.Ok? && s.value.Some? then rest + [s.value.value] else rest
  }

  /** The first k headers pass every check. */
  predicate HeadersOk(image: seq<byte>, elf: ElfHeader, k: nat) {
    forall i: nat | i < k :: HeaderSegment(image, elf, i).Ok?
  }

  /** Every segment lies in the user half, and so does the address of its end, which is checked too. */
  predicate InUserHalf(segments: seq<Segment>) {
    forall s | s in segments :: s.size > 0 && |s.data| <= s.size && s.vaddr + s.size < USER_TOP
  }

  // ---- The flat memory that a list of segments describes, loaded in order

  function FlagsOf(segments: seq<Segment>, n: nat): Option<Flags> {
    if segments == [] then None
    else
      var s, before := segments[|segments| - 1], FlagsOf(segments[..|segments| - 1], n);
      if !s.Touches(n) then before
      else if before.Some? then Some(before.value.Union(s.flags))
      else Some(s.flags)
  }

  function ByteOf(segments: seq<Segment>, va: nat): Option<byte> {
    if segments == [] then None
    else
      var s, before := segments[|segments| - 1], ByteOf(segments[..|segments| - 1], va);
      if s.Covers(va) then Some(s.ByteAt(va))
      else if before.None? && s.Touches(va / PAGE_SIZE) then Some(0)
      else before
  }

  function MaxEnd(segments: seq<Segment>): nat {
    if segments == [] then 0
    else
      var s, before := segments[|segments| - 1], MaxEnd(segments[..|segments| - 1]);
      if s.vaddr + s.size > before then s.vaddr + s.size else before
  }

  // ---- Closed forms

  predicate Disjoint(segments: seq<Segment>) {
    forall i, j | 0 <= i < j < |segments| ::
      || segments[i].vaddr + segments[i].size <= segments[j].vaddr
      || segments[j].vaddr + segments[j].size <= segments[i].vaddr
  }

  /** A page is mapped exactly if some segment touches it, and its flags are the union over those segments. */
  lemma {:induction false} FlagsAreUnion(segments: seq<Segment>, n: nat)
    ensures FlagsOf(segments, n).Some? <==> exists i :: 0 <= i < |segments| && segments[i].Touches(n)
    ensures FlagsOf(segments, n).Some? ==>
      var fl := FlagsOf(segments, n).value;
      && (fl.present <==> exists i :: 0 <= i < |segments| && segments[i].Touches(n) && segments[i].flags.present)
      && (fl.writable <==> exists i :: 0 <= i < |segments| && segments[i].Touches(n) && segments[i].flags.writable)
      && (fl.user <==> exists i :: 0 <= i < |segments| && segments[i].Touches(n) && segments[i].flags.user)
  {
    if segments != [] {
      var k := |segments| - 1;
      var rest := segments[..k];
      FlagsAreUnion(rest, n);
      assert forall i | 0 <= i < k :: rest[i] == segments[i];
      if segments[k].Touches(n) {
        assert 0 <= k < |segments| && segments[k].Touches(n);
      }
    }
  }

  lemma {:induction false} BytesTouched(segments: seq<Segment>, va: nat)
    ensures ByteOf(segments, va).Some? <==> exists i :: 0 <= i < |segments| && segments[i].Touches(va / PAGE_SIZE)
  {
    if segments != [] {
      var k := |segments| - 1;
      var rest := segments[..k];
      BytesTouched(rest, va);
      assert forall i | 0 <= i < k :: rest[i] == segments[i];
      if segments[k].Covers(va) {
        CoveredTouched(segments[k], va);
      }
      if segments[k].Touches(va / PAGE_SIZE) {
        assert 0 <= k < |segments| && segments[k].Touches(va / PAGE_SIZE);
      }
    }
  }

  lemma CoveredTouched(s: Segment, va: nat)
    requires s.Covers(va)
    ensures s.Touches(va / PAGE_SIZE)
  {
    assert s.vaddr <= va <= s.vaddr + s.size - 1;
  }

  /** The end of the segment that ends highest. */
  lemma {:induction false} MaxEndIs(segments: seq<Segment>)
    ensures forall i | 0 <= i < |segments| :: segments[i].vaddr + segments[i].size <= MaxEnd(segments)
    ensures segments != [] ==>
      exists i :: 0 <= i < |segments| && segments[i].vaddr + segments[i].size == MaxEnd(segments)
    ensures segments == [] ==> MaxEnd(segments) == 0
  {
    if segments != [] {
      var k := |segments| - 1;
      var rest := segments[..k];
      MaxEndIs(rest);
      assert forall i | 0 <= i < k :: rest[i] == segments[i];
      if segments[k].vaddr + segments[k].size >= MaxEnd(rest) {
        assert 0 <= k < |segments| && segments[k].vaddr + segments[k].size == MaxEnd(segments);
      } else {
        var i :| 0 <= i < |rest| && rest[i].vaddr + rest[i].size == MaxEnd(rest);
        assert segments[i].vaddr + segments[i].size == MaxEnd(segments);
      }
    }
  }

  /** A segment touches exactly the pages that hold some byte of it. */
  lemma TouchedCovered(s: Segment, n: nat)
    ensures s.Touches(n) <==> exists va: nat {:trigger s.Covers(va)} :: s.Covers(va) && va / PAGE_SIZE == n
  {
    if s.Touches(n) {
      var va := if s.vaddr < n * PAGE_SIZE then n * PAGE_SIZE else s.vaddr;
      assert s.Covers(va) && va / PAGE_SIZE == n;
    }
    forall va: nat | s.Covers(va) ensures s.Touches(va / PAGE_SIZE) {
      CoveredTouched(s, va);
    }
  }

  /** For disjoint segments the image is the one the headers describe, in whatever order they are loaded:
    * file bytes, then zeros up to the segment's size, and zeros in the rest of every touched page. */
  lemma {:induction false} ImageBytes(segments: seq<Segment>, va: nat)
    requires Disjoint(segments)
    ensures forall i | 0 <= i < |segments| && segments[i].Covers(va) ::
      ByteOf(segments, va) == Some(segments[i].ByteAt(va))
    ensures (forall i | 0 <= i < |segments| :: !segments[i].Covers(va)) ==>
      ByteOf(segments, va) ==
        if exists i :: 0 <= i < |segments| && segments[i].Touches(va / PAGE_SIZE) then Some(0) else None
  {
    CoveredBytes(segments, va);
    if forall i | 0 <= i < |segments| :: !segments[i].Covers(va) {
      BytesTouched(segments, va);
      UncoveredBytes(segments, va);
    }
  }

  lemma {:induction false} CoveredBytes(segments: seq<Segment>, va: nat)
    requires Disjoint(segments)
    ensures forall i | 0 <= i < |segments| && segments[i].Covers(va) ::
      ByteOf(segments, va) == Some(segments[i].ByteAt(va))
  {
    if segments != [] {
      var k := |segments| - 1;
      var rest := segments[..k];
      assert forall i | 0 <= i < k :: rest[i] == segments[i];
      CoveredBytes(rest, va);
    }
  }

  lemma {:induction false} UncoveredBytes(segments: seq<Segment>, va: nat)
    requires forall i | 0 <= i < |segments| :: !segments[i].Covers(va)
    ensures ByteOf(segments, va).Some? ==> ByteOf(segments, va).value == 0
  {
    if segments != [] {
      UncoveredBytes(segments[..|segments| - 1], va);
    }
  }
}

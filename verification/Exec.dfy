/** Building a new program image in a fresh address space. */
module Exec {
  import opened Basics
  import opened PageTree
  import opened AddressSpace
  import opened FrameAlloc
  import opened TableEntries
  import opened Walker
  import opened TreeNodes
  import opened TableRights
  import opened Mapper
  import opened UserBytes
  import opened Elf
  import opened ElfFormat
  import opened Syscalls
  import opened Argv
  import opened TreeCopy
  import opened UserMemory
  import opened HeapGrowth

  // ---- Pages of a segment

  /** A page was made available with these flags: kept with more flags, or new and full of zeros. */
  predicate Ensured(before: Option<UserPage>, after: Option<UserPage>, flags: Flags) {
    if before.Some? then after == Some(before.value.(flags := before.value.flags.Union(flags)))
    else NewPage(before, after, flags)
  }

  ghost predicate AllEnsured(m: Mem, m': Mem, root: nat, lo: nat, hi: nat, flags: Flags) {
    forall n: nat {:trigger View(m', root, n)} | n < USER_PAGES ::
      if lo <= n < hi then Ensured(View(m, root, n), View(m', root, n), flags)
      else View(m', root, n) == View(m, root, n)
  }

  /** The pages that are not mapped yet: those for which tables are made or extended. */
  ghost function Lacking(m: Mem, root: nat, pages: set<nat>): set<nat> {
    set n | n in pages && View(m, root, n) == None
  }

  /** Makes a page available.  It fails exactly when frames run out: the page and the tables it lacks need more. */
  method EnsureUserPageMapping(pm: PhysMem, fa: FrameAllocator, root: nat, page: nat,
                               flags: Flags) returns (r: Result<(), MapError>)
    requires fa.Valid() && Owns(pm.mem, fa.out, root) && page < USER_PAGES && flags.present && !flags.huge
    modifies pm, fa
    ensures fa.Valid() && Leaking(old(pm.mem), pm.mem, root, old(fa.out), fa.out)
    ensures r.Ok? ==>
      && Within(old(pm.mem), pm.mem, root, old(fa.out), fa.out)
      && Ensured(View(old(pm.mem), root, page), View(pm.mem, root, page), flags)
      && SameViewExcept(old(pm.mem), pm.mem, root, page)
      && Took(old(pm.mem), pm.mem, root, old(fa.out), fa.out, {page})
      && TablesFor(old(pm.mem), pm.mem, root, Lacking(old(pm.mem), root, {page}), AtLeast(ParentFlags(flags)))
    ensures r.Ok? <==> |Missing(old(pm.mem), root, {page})| <= |fa.all - old(fa.out)|
    ensures r.Err? ==> fa.out == fa.all
  {
    hide Tree, Frames, View, FrameAllocator.Valid, Took, Missing, Within, Owns, Leaking, SameViewExcept, SameView,
      NewPage, Agree, KernelHalf, TablesFor, TablesAdded, Lacking;
    ghost var m := pm.mem;
    PageStart(page);
    var pte := WalkPagetable(pm, fa, root, page * PAGE_SIZE, false);
    LeakingNothing(m, root, fa.out);
    if pte.Some? {
      EntryIsThere(m, root, fa.out, page, pte.value);
      var Slot(table, index) := pte.value;
      var entry := pm.mem[table].entries[index];
      if entry.flags.present {
        pm.SetEntry(table, index, Entry(entry.frame, entry.flags.Union(flags)));
        PageReflagged(m, pm.mem, root, fa.out, page, pte.value, flags, |fa.all - fa.out|);
        return Ok(());
      }
    }
    NotMappedYet(m, root, fa.out, page, pte);
    r := MapPage(pm, fa, root, page, flags);
    EnsuredNew(m, pm.mem, root, page, flags);
    if r.Ok? {
      TablesForOne(m, pm.mem, root, page, AtLeast(ParentFlags(flags)));
    }
    assert r.Err? ==> r.error.MapToFailed? || r.error == MapError.FrameAllocFailed;
  }

  /** The page has no entry in use: mapping it is a matter of frames only. */
  lemma NotMappedYet(m: Mem, root: nat, out: set<nat>, n: nat, s: Option<Slot>)
    requires Owns(m, out, root) && n < USER_PAGES
    requires
      if s.Some? then PteSlot(m, root, n, s.value) && !EntryAt(m, s.value.table, s.value.index).flags.present
      else View(m, root, n) == None
    ensures View(m, root, n) == None && Lacking(m, root, {n}) == {n}
    ensures forall free: nat :: CanMap(m, root, {n}, free) <==> |Missing(m, root, {n})| <= free
  {
    hide View, Missing;
    if s.Some? {
      SlotView(m, root, n, s.value);
    }
  }

  lemma EnsuredNew(m: Mem, m': Mem, root: nat, n: nat, flags: Flags)
    ensures NewPage(View(m, root, n), View(m', root, n), flags) ==> Ensured(View(m, root, n), View(m', root, n), flags)
  {
    hide View;
  }

  /** A page that is mapped gets more flags; nothing else changes and no frame is taken. */
  lemma PageReflagged(m: Mem, m': Mem, root: nat, out: set<nat>, n: nat, s: Slot, flags: Flags, free: nat)
    requires Owns(m, out, root) && n < USER_PAGES && PteSlot(m, root, n, s) && IsTable(m, s.table) && s.index < ENTRIES
    requires !flags.huge
    requires m[s.table].entries[s.index].flags.present
    requires var e := m[s.table].entries[s.index];
      m' == Written(m, s.table, s.index, Entry(e.frame, e.flags.Union(flags)))
    ensures Within(m, m', root, out, out) && Leaking(m, m', root, out, out)
    ensures Ensured(View(m, root, n), View(m', root, n), flags) && SameViewExcept(m, m', root, n)
    ensures Took(m, m', root, out, out, {n}) && |Missing(m, root, {n})| <= free
    ensures TablesFor(m, m', root, Lacking(m, root, {n}), AtLeast(ParentFlags(flags)))
  {
    hide View, Tree, Frames, Nodes, NodesOver, Took, Missing, SamePaths, TablesFor;
    var e := Entry(m[s.table].entries[s.index].frame, m[s.table].entries[s.index].flags.Union(flags));
    SlotView(m, root, n, s);
    PteSlotEntry(m, root, n, s);
    RewriteView(m, m', root, n, s, e);
    RewriteWithin(m, m', root, out, n, s, e);
    assert Lacking(m, root, {n}) == {};
    TablesForNone(m, m', root, AtLeast(ParentFlags(flags)));
    WithinLeaks(m, m', root, out, out);
    forall k: nat | k < USER_PAGES ensures View(m', root, k).Some? == View(m, root, k).Some? {
      assert k != n ==> View(m', root, k) == View(m, root, k);
    }
    NodesKept(m, m', root);
    NothingMissing(m, root, {n});
    TookKept(m, m', root, out, {n});
  }

  lemma PageStart(page: nat)
    requires page < USER_PAGES
    ensures page * PAGE_SIZE < USER_TOP && page * PAGE_SIZE / PAGE_SIZE == page
  {}

  lemma RewriteWithin(m: Mem, m': Mem, root: nat, out: set<nat>, n: nat, s: Slot, e: Entry)
    requires Owns(m, out, root) && n < USER_PAGES && Rewritten(m, m', root, n, s, e) && e != UNUSED
    ensures Within(m, m', root, out, out)
  {
    hide View;
    RewriteView(m, m', root, n, s, e);
    PteSlotEntry(m, root, n, s);
  }

  /** Makes every page from first to last available. */
  method EnsurePages(pm: PhysMem, fa: FrameAllocator, root: nat, first: nat, last: nat,
                     flags: Flags) returns (r: Result<(), MapError>)
    requires fa.Valid() && Owns(pm.mem, fa.out, root) && first <= last < USER_PAGES && flags.present && !flags.huge
    modifies pm, fa
    ensures fa.Valid() && Leaking(old(pm.mem), pm.mem, root, old(fa.out), fa.out)
    ensures r.Ok? ==>
      && Within(old(pm.mem), pm.mem, root, old(fa.out), fa.out)
      && AllEnsured(old(pm.mem), pm.mem, root, first, last + 1, flags)
      && Took(old(pm.mem), pm.mem, root, old(fa.out), fa.out, PageRange(first, last + 1))
      && TablesFor(old(pm.mem), pm.mem, root, Lacking(old(pm.mem), root, PageRange(first, last + 1)),
           AtLeast(ParentFlags(flags)))
    ensures r.Ok? <==> |Missing(old(pm.mem), root, PageRange(first, last + 1))| <= |fa.all - old(fa.out)|
    ensures r.Err? ==> fa.out == fa.all
  {
    hide Tree, Frames, View, FrameAllocator.Valid, SameViewExcept, SameView, Took, Missing, Leaking, Within, Owns,
      AllEnsured, Ensured, PageRange, Agree, KernelHalf, TablesFor, Lacking;
    ghost var m0, out0 := pm.mem, fa.out;
    EnsuringNothing(m0, root, out0, first, flags);
    OutInAll(fa);
    for page := first to last + 1
      invariant fa.Valid() && Owns(pm.mem, fa.out, root) && fa.out <= fa.all
      invariant Ensuring(m0, pm.mem, root, out0, fa.out, first, page, flags)
    {
      ghost var m, out := pm.mem, fa.out;
      r := EnsureUserPageMapping(pm, fa, root, page, flags);
      OutInAll(fa);
      EnsuringMeans(m0, m, root, out0, out, first, page, flags);
      LeaksMore(m0, m, pm.mem, root, out0, out, fa.out);
      if r.Err? {
        TookTooMuch(m0, m, root, fa.all, out0, out, PageRange(first, page), {page}, PageRange(first, last + 1));
        return;
      }
      EnsuringStep(m0, m, pm.mem, root, fa.all, out0, out, fa.out, first, page, flags);
    }
    EnsuringMeans(m0, pm.mem, root, out0, fa.out, first, last + 1, flags);
    TookMore(m0, pm.mem, pm.mem, root, fa.all, out0, fa.out, fa.out, PageRange(first, last + 1), {});
    r := Ok(());
  }

  /** The state of the loop over a segment's pages: pages lo..n are available. */
  ghost predicate Ensuring(m0: Mem, m: Mem, root: nat, out0: set<nat>, out: set<nat>, lo: nat, n: nat, flags: Flags) {
    && Within(m0, m, root, out0, out) && Leaking(m0, m, root, out0, out)
    && AllEnsured(m0, m, root, lo, n, flags) && Took(m0, m, root, out0, out, PageRange(lo, n))
    && TablesFor(m0, m, root, Lacking(m0, root, PageRange(lo, n)), AtLeast(ParentFlags(flags)))
  }

  lemma EnsuringMeans(m0: Mem, m: Mem, root: nat, out0: set<nat>, out: set<nat>, lo: nat, n: nat, flags: Flags)
    requires Ensuring(m0, m, root, out0, out, lo, n, flags)
    ensures Within(m0, m, root, out0, out) && Leaking(m0, m, root, out0, out)
    ensures AllEnsured(m0, m, root, lo, n, flags) && Took(m0, m, root, out0, out, PageRange(lo, n))
    ensures TablesFor(m0, m, root, Lacking(m0, root, PageRange(lo, n)), AtLeast(ParentFlags(flags)))
  {}

  lemma EnsuringNothing(m: Mem, root: nat, out: set<nat>, lo: nat, flags: Flags)
    requires Owns(m, out, root)
    ensures Ensuring(m, m, root, out, out, lo, lo, flags)
  {
    hide View, Took, TablesFor, SamePaths;
    TookNothing(m, root, out, lo);
    LeakingNothing(m, root, out);
    PathsSame(m, root);
    TablesForNone(m, m, root, AtLeast(ParentFlags(flags)));
    assert Lacking(m, root, PageRange(lo, lo)) == {};
  }

  lemma EnsuringStep(m0: Mem, m: Mem, m': Mem, root: nat, all: set<nat>, out0: set<nat>, out: set<nat>, out': set<nat>,
                     lo: nat, n: nat, flags: Flags)
    requires Ensuring(m0, m, root, out0, out, lo, n, flags) && lo <= n < USER_PAGES && out0 <= all && out <= all
    requires Within(m0, m', root, out0, out') && Leaking(m0, m', root, out0, out')
    requires SameViewExcept(m, m', root, n) && Ensured(View(m, root, n), View(m', root, n), flags)
    requires Took(m, m', root, out, out', {n})
    requires TablesFor(m, m', root, Lacking(m, root, {n}), AtLeast(ParentFlags(flags)))
    ensures Ensuring(m0, m', root, out0, out', lo, n + 1, flags) && Owns(m', out', root)
  {
    hide View, Took, Within, Leaking, AllEnsured, Ensured, SameViewExcept, Missing, PageRange, TablesFor, Lacking;
    EnsuringMeans(m0, m, root, out0, out, lo, n, flags);
    EnsuredStep(m0, m, m', root, lo, n, flags);
    TookMore(m0, m, m', root, all, out0, out, out', PageRange(lo, n), {n});
    TablesForMore(m0, m, m', root, Lacking(m0, root, PageRange(lo, n)), Lacking(m, root, {n}),
      AtLeast(ParentFlags(flags)));
    LackingStep(m0, m, root, lo, n, flags);
    PageRangeStep(lo, n);
    OwnsAfter(m0, m', root, out0, out');
  }

  lemma LackingStep(m0: Mem, m: Mem, root: nat, lo: nat, n: nat, flags: Flags)
    requires AllEnsured(m0, m, root, lo, n, flags) && lo <= n < USER_PAGES
    ensures Lacking(m0, root, PageRange(lo, n)) + Lacking(m, root, {n}) == Lacking(m0, root, PageRange(lo, n + 1))
  {
    hide View;
    assert View(m, root, n) == View(m0, root, n);
  }

  /** After the pages a there were not frames enough for b, so there never were for any set that holds both. */
  lemma TookTooMuch(m0: Mem, m: Mem, root: nat, all: set<nat>, out0: set<nat>, out: set<nat>, a: set<nat>, b: set<nat>,
                    pages: set<nat>)
    requires Took(m0, m, root, out0, out, a) && out0 <= all && out <= all && a + b <= pages
    requires |Missing(m, root, b)| > |all - out|
    ensures |Missing(m0, root, pages)| > |all - out0|
  {
    hide Took, Missing;
    TookMore(m0, m, m, root, all, out0, out, out, a, b);
    MissingGrows(m0, root, a + b, pages);
  }

  lemma EnsuredStep(m0: Mem, m: Mem, m': Mem, root: nat, lo: nat, n: nat, flags: Flags)
    requires AllEnsured(m0, m, root, lo, n, flags) && lo <= n < USER_PAGES && SameViewExcept(m, m', root, n)
    requires Ensured(View(m, root, n), View(m', root, n), flags)
    ensures AllEnsured(m0, m', root, lo, n + 1, flags)
  {
    hide View, Ensured;
    forall k: nat | k < USER_PAGES
      ensures
        if lo <= k < n + 1 then Ensured(View(m0, root, k), View(m', root, k), flags)
        else View(m', root, k) == View(m0, root, k)
    {
      assert View(m, root, k) == View(m, root, k);
    }
  }

  // ---- Segments

  /** The address space holds exactly what these segments describe. */
  ghost predicate Loaded(m: Mem, root: nat, segments: seq<Segment>) {
    && (forall n: nat {:trigger View(m, root, n)} | n < USER_PAGES ::
          && View(m, root, n).Some? == FlagsOf(segments, n).Some?
          && (View(m, root, n).Some? ==> View(m, root, n).value.flags == FlagsOf(segments, n).value))
    && (forall va: nat {:trigger ByteAt(m, root, va)} | va < USER_TOP :: ByteAt(m, root, va) == ByteOf(segments, va))
  }

  /** Pages were made available (m1), the segment's range cleared (m2), and its file bytes stored (m3). */
  ghost predicate SegmentSteps(m0: Mem, m1: Mem, m2: Mem, m3: Mem, root: nat, s: Segment) {
    && AllEnsured(m0, m1, root, s.vaddr / PAGE_SIZE, (s.vaddr + s.size - 1) / PAGE_SIZE + 1, s.flags)
    && Stored(m1, m2, root, s.vaddr, Zeros(s.size), s.size)
    && Stored(m2, m3, root, s.vaddr, s.data, |s.data|)
  }

  lemma SegmentFlagsLoaded(m0: Mem, m1: Mem, m2: Mem, m3: Mem, root: nat, segments: seq<Segment>, s: Segment, n: nat)
    requires Loaded(m0, root, segments) && s.size > 0 && SegmentSteps(m0, m1, m2, m3, root, s) && n < USER_PAGES
    ensures View(m3, root, n).Some? == FlagsOf(segments + [s], n).Some?
    ensures View(m3, root, n).Some? ==> View(m3, root, n).value.flags == FlagsOf(segments + [s], n).value
  {
    hide View, Stored;
    assert (segments + [s])[..|segments|] == segments;
    StoredMapping(m1, m2, root, s.vaddr, Zeros(s.size), s.size, n);
    StoredMapping(m2, m3, root, s.vaddr, s.data, |s.data|, n);
    var u0, u1 := View(m0, root, n), View(m1, root, n);
  }

  lemma StoredMapping(m: Mem, m': Mem, root: nat, dst: nat, data: seq<byte>, k: nat, n: nat)
    requires Stored(m, m', root, dst, data, k) && n < USER_PAGES
    ensures View(m', root, n).Some? == View(m, root, n).Some?
    ensures View(m, root, n).Some? ==> View(m', root, n).value.flags == View(m, root, n).value.flags
  {
    hide View;
    var u := View(m', root, n);
  }

  lemma SegmentByteLoaded(m0: Mem, m1: Mem, m2: Mem, m3: Mem, root: nat, segments: seq<Segment>, s: Segment, va: nat)
    requires Tree(m0, root, 4) && Tree(m1, root, 4)
    requires Loaded(m0, root, segments) && s.size > 0 && |s.data| <= s.size && s.vaddr + s.size <= USER_TOP
    requires SegmentSteps(m0, m1, m2, m3, root, s) && va < USER_TOP
    ensures ByteAt(m3, root, va) == ByteOf(segments + [s], va)
  {
    hide View, Tree, AllEnsured, Zeros;
    assert (segments + [s])[..|segments|] == segments;
    var b3, b2 := ByteAt(m3, root, va), ByteAt(m2, root, va);
    EnsuredByte(m0, m1, root, s, va);
    assert ByteAt(m0, root, va) == ByteOf(segments, va);
  }

  /** Making pages available changes no byte; the bytes of new pages are zero. */
  lemma EnsuredByte(m0: Mem, m1: Mem, root: nat, s: Segment, va: nat)
    requires Tree(m0, root, 4) && Tree(m1, root, 4)
    requires s.size > 0 && va < USER_TOP
    requires AllEnsured(m0, m1, root, s.vaddr / PAGE_SIZE, (s.vaddr + s.size - 1) / PAGE_SIZE + 1, s.flags)
    ensures ByteAt(m1, root, va) ==
      if ByteAt(m0, root, va).None? && s.Touches(va / PAGE_SIZE) then Some(0) else ByteAt(m0, root, va)
  {
    hide View, Tree;
    var n := va / PAGE_SIZE;
    var u1 := View(m1, root, n);
    if View(m0, root, n).Some? {
      ViewFrames(m0, root, n);
    }
  }

  lemma SegmentLoaded(m0: Mem, m1: Mem, m2: Mem, m3: Mem, root: nat, segments: seq<Segment>, s: Segment)
    requires Tree(m0, root, 4) && Tree(m1, root, 4)
    requires Loaded(m0, root, segments) && s.size > 0 && |s.data| <= s.size && s.vaddr + s.size <= USER_TOP
    requires SegmentSteps(m0, m1, m2, m3, root, s)
    ensures Loaded(m3, root, segments + [s])
  {
    hide View, Tree, ByteAt, SegmentSteps, FlagsOf, ByteOf;
    forall n: nat | n < USER_PAGES
      ensures View(m3, root, n).Some? == FlagsOf(segments + [s], n).Some?
      ensures View(m3, root, n).Some? ==> View(m3, root, n).value.flags == FlagsOf(segments + [s], n).value
    {
      SegmentFlagsLoaded(m0, m1, m2, m3, root, segments, s, n);
    }
    forall va: nat | va < USER_TOP ensures ByteAt(m3, root, va) == ByteOf(segments + [s], va) {
      SegmentByteLoaded(m0, m1, m2, m3, root, segments, s, va);
    }
  }

  lemma EnsuredAllowed(m0: Mem, m1: Mem, root: nat, s: Segment)
    requires s.size > 0 && s.vaddr + s.size <= USER_TOP
    requires AllEnsured(m0, m1, root, s.vaddr / PAGE_SIZE, (s.vaddr + s.size - 1) / PAGE_SIZE + 1, s.flags)
    ensures AllAllowed(m1, root, Kernel, s.vaddr, s.size)
  {
    hide View;
    forall va: nat | s.vaddr <= va < s.vaddr + s.size ensures Allowed(Kernel, View(m1, root, va / PAGE_SIZE)) {
      CoveredTouched(s, va);
      var u := View(m1, root, va / PAGE_SIZE);
    }
  }

  lemma StoredAllowed(m: Mem, m': Mem, root: nat, dst: nat, data: seq<byte>, len: nat)
    requires Stored(m, m', root, dst, data, |data|) && AllAllowed(m, root, Kernel, dst, |data|) && len <= |data|
    requires dst + |data| <= USER_TOP
    ensures AllAllowed(m', root, Kernel, dst, len)
  {
    hide View, Allowed;
    forall va: nat | dst <= va < dst + len ensures Allowed(Kernel, View(m', root, va / PAGE_SIZE)) {
      AllowedKept(m, m', root, Kernel, va / PAGE_SIZE);
    }
  }

  lemma OnlyPagesWithin(m: Mem, m': Mem, root: nat, out: set<nat>)
    requires Owns(m, out, root) && OnlyPages(m, m', root, out)
    ensures Within(m, m', root, out, out) && Leaking(m, m', root, out, out) && SamePaths(m, m', root)
  {}

  /** The pages that hold some byte of the segment. */
  ghost function SegmentPages(s: Segment): (r: set<nat>)
    ensures forall n: nat :: n in r <==> s.Touches(n)
  {
    if s.size == 0 then {} else PageRange(s.vaddr / PAGE_SIZE, (s.vaddr + s.size - 1) / PAGE_SIZE + 1)
  }

  /** The pages that a writable segment was the first to need: above them the tables get the write bit. */
  ghost function FirstWritten(segments: seq<Segment>): set<nat> {
    if segments == [] then {}
    else
      var before, s := segments[..|segments| - 1], segments[|segments| - 1];
      FirstWritten(before) + if s.flags.writable then SegmentPages(s) - ImagePages(before) else {}
  }

  ghost function ImagePages(segments: seq<Segment>): set<nat> {
    if segments == [] then {} else ImagePages(segments[..|segments| - 1]) + SegmentPages(segments[|segments| - 1])
  }

  /** One LOAD segment: its pages, then zeros over its range, then its file bytes.  Only the pages can fail. */
  method LoadSegment(pm: PhysMem, fa: FrameAllocator, root: nat, s: Segment,
                     ghost before: seq<Segment>) returns (r: Result<(), ExecError>)
    requires fa.Valid() && Owns(pm.mem, fa.out, root)
    requires s.size > 0 && |s.data| <= s.size && s.vaddr + s.size <= USER_TOP && s.flags.present && !s.flags.huge
    modifies pm, fa
    ensures fa.Valid() && Leaking(old(pm.mem), pm.mem, root, old(fa.out), fa.out)
    ensures r.Ok? ==>
      && Within(old(pm.mem), pm.mem, root, old(fa.out), fa.out)
      && Took(old(pm.mem), pm.mem, root, old(fa.out), fa.out, SegmentPages(s))
      && TablesFor(old(pm.mem), pm.mem, root, Lacking(old(pm.mem), root, SegmentPages(s)),
           AtLeast(ParentFlags(s.flags)))
    ensures r.Ok? && Loaded(old(pm.mem), root, before) ==> Loaded(pm.mem, root, before + [s])
    ensures r.Ok? <==> |Missing(old(pm.mem), root, SegmentPages(s))| <= |fa.all - old(fa.out)|
    ensures r.Err? ==> r.error == MapFailed && fa.out == fa.all
  {
    hide Tree, Frames, View, FrameAllocator.Valid, Stored, Loaded, AllEnsured, AllAllowed, Zeros, Took, Missing,
      Leaking, Within, OnlyPages, PageRange, Agree, KernelHalf, Nodes, NodesOver, TablesFor, Lacking, SamePaths;
    ghost var m0, out0 := pm.mem, fa.out;
    PagesOf(s);
    var pages := EnsurePages(pm, fa, root, s.vaddr / PAGE_SIZE, (s.vaddr + s.size - 1) / PAGE_SIZE, s.flags);
    if pages.Err? {
      return Err(MapFailed);
    }
    ghost var m1 := pm.mem;
    OwnsAfter(m0, m1, root, out0, fa.out);
    EnsuredAllowed(m0, m1, root, s);
    var zeroed := ZeroUserRange(pm, fa, root, s.vaddr, s.size);
    ghost var m2 := pm.mem;
    StoredAllowed(m1, m2, root, s.vaddr, Zeros(s.size), |s.data|);
    StoredKeeps(m1, m2, root, fa.out, s.vaddr, Zeros(s.size), s.size);
    var copied := CopyToUserPagetable(pm, fa, root, s.vaddr, s.data);
    StoredKeeps(m2, pm.mem, root, fa.out, s.vaddr, s.data, |s.data|);
    LeaksMore(m0, m1, m2, root, out0, fa.out, fa.out);
    LeaksMore(m0, m2, pm.mem, root, out0, fa.out, fa.out);
    TookSame(m0, m1, pm.mem, root, out0, fa.out, SegmentPages(s));
    PathsAgain(m1, m2, pm.mem, root);
    TablesForSame(m0, m1, pm.mem, root, Lacking(m0, root, SegmentPages(s)), AtLeast(ParentFlags(s.flags)));
    if Loaded(m0, root, before) {
      SegmentLoads(m0, m1, m2, pm.mem, root, out0, fa.out, before, s);
    }
    r := Ok(());
  }

  /** Storing bytes takes no frame and makes no table. */
  lemma StoredKeeps(m: Mem, m': Mem, root: nat, out: set<nat>, dst: nat, data: seq<byte>, k: nat)
    requires Owns(m, out, root) && OnlyPages(m, m', root, out) && Stored(m, m', root, dst, data, k)
    ensures Within(m, m', root, out, out) && Leaking(m, m', root, out, out) && Owns(m', out, root)
    ensures Nodes(m', root) == Nodes(m, root) && SamePaths(m, m', root)
  {
    hide View, Tree, Frames, Nodes, ByteAt, SamePaths;
    NodesKept(m, m', root);
  }

  lemma SegmentLoads(m0: Mem, m1: Mem, m2: Mem, m3: Mem, root: nat, out0: set<nat>, out1: set<nat>,
                     segments: seq<Segment>, s: Segment)
    requires Owns(m0, out0, root) && Owns(m1, out1, root)
    requires Loaded(m0, root, segments) && s.size > 0 && |s.data| <= s.size && s.vaddr + s.size <= USER_TOP
    requires AllEnsured(m0, m1, root, s.vaddr / PAGE_SIZE, (s.vaddr + s.size - 1) / PAGE_SIZE + 1, s.flags)
    requires Stored(m1, m2, root, s.vaddr, Zeros(s.size), s.size) && Stored(m2, m3, root, s.vaddr, s.data, |s.data|)
    ensures Loaded(m3, root, segments + [s])
  {
    hide Tree, Frames, View, Stored, Loaded, AllEnsured, Zeros;
    SegmentLoaded(m0, m1, m2, m3, root, segments, s);
  }

  lemma PagesOf(s: Segment)
    requires s.size > 0 && s.vaddr + s.size <= USER_TOP
    ensures s.vaddr / PAGE_SIZE <= (s.vaddr + s.size - 1) / PAGE_SIZE < USER_PAGES
  {}

  // ---- The whole image

  lemma SegmentsStep(image: seq<byte>, elf: ElfHeader, i: nat)
    requires HeadersOk(image, elf, i)
    ensures HeaderSegment(image, elf, i).Ok? ==> HeadersOk(image, elf, i + 1)
    ensures var s := HeaderSegment(image, elf, i);
      && Segments(image, elf, i + 1) ==
         (if s.Ok? && s.value.Some? then Segments(image, elf, i) + [s.value.value] else Segments(image, elf, i))
      && (s.Ok? && s.value.Some? ==>
           s.value.value.flags.present && s.value.value.flags.user && !s.value.value.flags.huge
           && s.value.value.size > 0 && |s.value.value.data| <= s.value.value.size)
  {}

  lemma {:induction false} SegmentsGrow(image: seq<byte>, elf: ElfHeader, i: nat, k: nat)
    requires i <= k && InUserHalf(Segments(image, elf, k))
    ensures InUserHalf(Segments(image, elf, i))
    decreases k
  {
    if i < k {
      var rest := Segments(image, elf, k - 1);
      assert forall s | s in rest :: s in Segments(image, elf, k);
      SegmentsGrow(image, elf, i, k - 1);
    }
  }

  lemma MaxEndStep(segments: seq<Segment>, s: Segment)
    ensures MaxEnd(segments + [s]) == if s.vaddr + s.size > MaxEnd(segments) then s.vaddr + s.size else MaxEnd(segments)
  {
    assert (segments + [s])[..|segments|] == segments;
  }

  lemma {:induction false} MaxEndBound(segments: seq<Segment>)
    requires InUserHalf(segments)
    ensures MaxEnd(segments) <= USER_TOP
    ensures forall s | s in segments :: s.vaddr + s.size <= MaxEnd(segments)
  {
    if segments != [] {
      var k := |segments| - 1;
      assert forall s | s in segments :: s in segments[..k] || s == segments[k];
      assert forall s | s in segments[..k] :: s in segments;
      MaxEndBound(segments[..k]);
      assert segments[k] in segments;
    }
  }

  /** The headers of this image are accepted, and the frames suffice for its pages and the tables above them. */
  ghost predicate CanLoad(m: Mem, root: nat, image: seq<byte>, elf: ElfHeader, free: nat) {
    && elf.phentsize == ENTRY_SIZE && HeadersOk(image, elf, elf.phnum)
    && |Missing(m, root, ImagePages(Segments(image, elf, elf.phnum)))| <= free
  }

  /** Checks every program header and loads its segment, in order. */
  method LoadElfSegments(pm: PhysMem, fa: FrameAllocator, root: nat, image: seq<byte>,
                         elf: ElfHeader) returns (r: Result<nat, ExecError>)
    requires fa.Valid() && Owns(pm.mem, fa.out, root) && Loaded(pm.mem, root, [])
    requires InUserHalf(Segments(image, elf, elf.phnum))
    modifies pm, fa
    ensures fa.Valid() && Leaking(old(pm.mem), pm.mem, root, old(fa.out), fa.out)
    ensures r.Ok? ==>
      && Within(old(pm.mem), pm.mem, root, old(fa.out), fa.out)
      && Took(old(pm.mem), pm.mem, root, old(fa.out), fa.out, ImagePages(Segments(image, elf, elf.phnum)))
      && Loaded(pm.mem, root, Segments(image, elf, elf.phnum))
      && r.value == PagesFor(MaxEnd(Segments(image, elf, elf.phnum))) * PAGE_SIZE
    ensures r.Ok? && ImageTables(old(pm.mem), root, {}, {}) ==>
      var segments := Segments(image, elf, elf.phnum);
      ImageTables(pm.mem, root, ImagePages(segments), FirstWritten(segments))
    ensures r.Ok? <==> CanLoad(old(pm.mem), root, image, elf, |fa.all - old(fa.out)|)
    ensures r.Err? ==> r.error !in {StackOverflow, CopyFailed}
    ensures r.Err? ==>
      if r.error == MapFailed then fa.out == fa.all
      else elf.phentsize != ENTRY_SIZE || !HeadersOk(image, elf, elf.phnum)
  {
    hide Tree, Frames, View, FrameAllocator.Valid, Loaded, HeaderSegment, Segments, HeadersOk, InUserHalf, MaxEnd, Took,
      Missing, Leaking, Within, ImagePages, SegmentPages, Agree, KernelHalf, Owns, ImageTables, FirstWritten, TablesFor,
      Lacking;
    ghost var m0, out0 := pm.mem, fa.out;
    LoadingNothing(m0, root, out0);
    if elf.phentsize != ENTRY_SIZE {
      return Err(BadEntrySize);
    }
    var maxLoadEnd := 0;
    NoSegments(image, elf);
    OutInAll(fa);
    for i := 0 to elf.phnum
      invariant fa.Valid() && Owns(pm.mem, fa.out, root) && fa.out <= fa.all
      invariant Within(m0, pm.mem, root, out0, fa.out) && Leaking(m0, pm.mem, root, out0, fa.out)
      invariant Took(m0, pm.mem, root, out0, fa.out, ImagePages(Segments(image, elf, i)))
      invariant ImageTables(m0, root, {}, {}) ==>
        ImageTables(pm.mem, root, ImagePages(Segments(image, elf, i)), FirstWritten(Segments(image, elf, i)))
      invariant HeadersOk(image, elf, i) && Loaded(pm.mem, root, Segments(image, elf, i))
      invariant maxLoadEnd == MaxEnd(Segments(image, elf, i))
    {
      ghost var m, out, before := pm.mem, fa.out, Segments(image, elf, i);
      SegmentsStep(image, elf, i);
      var header := HeaderSegment(image, elf, i);
      if header.Err? {
        HeaderRejected(image, elf, i, elf.phnum);
        return Err(header.error);
      }
      if header.value.Some? {
        var s := header.value.value;
        SegmentsGrow(image, elf, i + 1, elf.phnum);
        LastInUserHalf(before, s);
        MaxEndStep(before, s);
        maxLoadEnd := if s.vaddr + s.size > maxLoadEnd then s.vaddr + s.size else maxLoadEnd;
        var loaded := LoadSegment(pm, fa, root, s, before);
        OutInAll(fa);
        LeaksMore(m0, m, pm.mem, root, out0, out, fa.out);
        ImagePagesStep(before, s);
        if loaded.Err? {
          ImagePagesGrow(image, elf, i + 1, elf.phnum);
          TookTooMuch(m0, m, root, fa.all, out0, out, ImagePages(before), SegmentPages(s),
            ImagePages(Segments(image, elf, elf.phnum)));
          return Err(MapFailed);
        }
        OwnsAfter(m, pm.mem, root, out, fa.out);
        SegmentTables(m, pm.mem, root, before, s);
        TookMore(m0, m, pm.mem, root, fa.all, out0, out, fa.out, ImagePages(before), SegmentPages(s));
      }
    }
    MaxEndBound(Segments(image, elf, elf.phnum));
    TookMore(m0, pm.mem, pm.mem, root, fa.all, out0, fa.out, fa.out, ImagePages(Segments(image, elf, elf.phnum)), {});
    r := Ok(PageRoundUp(maxLoadEnd).value);
  }

  /** The tables above a segment's new pages get the write bit if the segment has it. */
  lemma SegmentTables(m: Mem, m': Mem, root: nat, before: seq<Segment>, s: Segment)
    requires Loaded(m, root, before) && s.vaddr + s.size <= USER_TOP && s.flags.present && s.flags.user
    requires TablesFor(m, m', root, Lacking(m, root, SegmentPages(s)), AtLeast(ParentFlags(s.flags)))
    ensures ImageTables(m, root, ImagePages(before), FirstWritten(before)) ==>
      ImageTables(m', root, ImagePages(before + [s]), FirstWritten(before + [s]))
  {
    hide View, FlagsOf, TablesFor, ImageTables;
    var added := SegmentPages(s) - ImagePages(before);
    forall n | n in SegmentPages(s) ensures n in Lacking(m, root, SegmentPages(s)) <==> n in added {
      ImagePagesFlags(before, n);
      var u := View(m, root, n);
    }
    assert Lacking(m, root, SegmentPages(s)) == added;
    assert (before + [s])[..|before|] == before;
    assert ImagePages(before) + added == ImagePages(before + [s]);
    assert FirstWritten(before) + {} == FirstWritten(before);
    if ImageTables(m, root, ImagePages(before), FirstWritten(before)) {
      ImageTablesStep(m, m', root, ImagePages(before), FirstWritten(before), added, s.flags.writable);
    }
  }

  lemma LoadingNothing(m: Mem, root: nat, out: set<nat>)
    requires Owns(m, out, root)
    ensures Within(m, m, root, out, out) && Leaking(m, m, root, out, out) && Took(m, m, root, out, out, ImagePages([]))
    ensures ImagePages([]) == FirstWritten([]) == {}
  {
    hide Took, PageRange;
    TookNothing(m, root, out, 0);
  }

  lemma ImagePagesStep(segments: seq<Segment>, s: Segment)
    ensures ImagePages(segments + [s]) == ImagePages(segments) + SegmentPages(s)
  {
    assert (segments + [s])[..|segments|] == segments;
  }

  lemma {:induction false} ImagePagesGrow(image: seq<byte>, elf: ElfHeader, i: nat, k: nat)
    requires i <= k
    ensures ImagePages(Segments(image, elf, i)) <= ImagePages(Segments(image, elf, k))
    decreases k
  {
    hide HeaderSegment, SegmentPages;
    if i < k {
      ImagePagesGrow(image, elf, i, k - 1);
      var s := HeaderSegment(image, elf, k - 1);
      if s.Ok? && s.value.Some? {
        ImagePagesStep(Segments(image, elf, k - 1), s.value.value);
      }
    }
  }

  lemma {:induction false} ImagePagesFlags(segments: seq<Segment>, n: nat)
    ensures n in ImagePages(segments) <==> FlagsOf(segments, n).Some?
  {
    if segments != [] {
      ImagePagesFlags(segments[..|segments| - 1], n);
    }
  }

  lemma NoSegments(image: seq<byte>, elf: ElfHeader)
    ensures Segments(image, elf, 0) == [] && HeadersOk(image, elf, 0) && MaxEnd([]) == 0
  {}

  lemma LastInUserHalf(before: seq<Segment>, s: Segment)
    requires InUserHalf(before + [s])
    ensures s.vaddr + s.size <= USER_TOP
  {
    assert (before + [s])[|before|] == s;
  }

  lemma HeaderRejected(image: seq<byte>, elf: ElfHeader, i: nat, k: nat)
    requires i < k && HeaderSegment(image, elf, i).Err?
    ensures HeaderSegment(image, elf, i).error !in {MapFailed, StackOverflow, CopyFailed}
    ensures !HeadersOk(image, elf, k)
  {}

  const USER_STACK_TOP: nat := 0x2000_0000_0000
  const STACK_PAGES: nat := 8
  const STACK_END: nat := 0x2_0000_0000
  const STACK_START: nat := STACK_END - STACK_PAGES
  const GUARD: nat := STACK_START - 1
  const GUARD_FLAGS := Flags(true, true, false, false, {})

  datatype ExecImage = ExecImage(pageTable: nat, entry: nat, userSp: nat, argc: nat, argvPtr: nat, heapSize: nat)

  /** Page n is the guard page, a stack page, or what the segments say. */
  ghost predicate PageAsBuilt(m: Mem, root: nat, segments: seq<Segment>, n: nat) {
    var page, flags := View(m, root, n), FlagsOf(segments, n);
    if GUARD <= n < STACK_END then
      flags.None? && page.Some? && page.value.flags == if n == GUARD then GUARD_FLAGS else USER_FLAGS
    else
      page.Some? == flags.Some? && (page.Some? ==> page.value.flags == flags.value)
  }

  /** All that was pushed lies in the stack pages, so that nothing reached the guard page. */
  predicate StackFits(e: ExecImage) {
    USER_STACK_TOP - STACK_BYTES <= e.userSp
  }

  /** Segments as described, one guard page the user may not touch, eight stack pages with argv on top,
    * and nothing else. */
  ghost predicate ImageBuilt(m: Mem, segments: seq<Segment>, argv: seq<seq<byte>>, strings: seq<nat>, e: ExecImage) {
    var root := e.pageTable;
    && (forall n: nat {:trigger View(m, root, n)} | n < USER_PAGES :: PageAsBuilt(m, root, segments, n))
    && (forall va: nat {:trigger ByteAt(m, root, va)} | va < USER_TOP && !(GUARD <= va / PAGE_SIZE < STACK_END) ::
          ByteAt(m, root, va) == ByteOf(segments, va))
    && StackBuilt(m, root, strings, argv, e.userSp, e.argvPtr, USER_STACK_TOP)
    && e.argc == |argv| && e.userSp % 16 == 8
    && e.heapSize == PagesFor(MaxEnd(segments)) * PAGE_SIZE
  }

  /** The tables are those above the pages of the image.  Those above the stack and above the pages that a writable
    * segment was the first to need have the write bit. */
  ghost predicate BuiltTables(m: Mem, root: nat, segments: seq<Segment>) {
    var stack := PageRange(GUARD, STACK_END);
    ImageTables(m, root, ImagePages(segments) + stack, FirstWritten(segments) + stack)
  }

  lemma StackPath(n: nat, q: seq<nat>)
    requires GUARD <= n < STACK_END && |q| <= 3
    ensures q <= PathOf(n * PAGE_SIZE) <==> q <= PathOf(GUARD * PAGE_SIZE)
  {
    hide PathOf;
    PageIndices(n);
    PageIndices(GUARD);
    assert n / 0x200 == GUARD / 0x200 && n / 0x4_0000 == GUARD / 0x4_0000 && n / 0x800_0000 == GUARD / 0x800_0000;
    var a, b := PathOf(n * PAGE_SIZE), PathOf(GUARD * PAGE_SIZE);
    assert |a| == |b| == 4 && a[0] == b[0] && a[1] == b[1] && a[2] == b[2];
  }

  /** The guard page and the stack pages share their tables: what the guard page withheld, the stack grants. */
  lemma StackPaths(q: seq<nat>)
    requires 1 <= |q| <= 3
    ensures OnPaths(q, {GUARD}) <==> OnPaths(q, PageRange(GUARD, STACK_END))
    ensures OnPaths(q, PageRange(STACK_START, STACK_END)) <==> OnPaths(q, PageRange(GUARD, STACK_END))
  {
    hide PathOf;
    forall n | n in PageRange(GUARD, STACK_END)
      ensures q <= PathOf(n * PAGE_SIZE) <==> q <= PathOf(GUARD * PAGE_SIZE)
    {
      StackPath(n, q);
    }
    assert GUARD in {GUARD} && GUARD in PageRange(GUARD, STACK_END) && STACK_START in PageRange(STACK_START, STACK_END);
  }

  lemma StackTables(m1: Mem, m2: Mem, m3: Mem, m4: Mem, root: nat, segments: seq<Segment>)
    requires ImageTables(m1, root, ImagePages(segments), FirstWritten(segments))
    requires TablesAdded(m1, m2, root, PathOf(GUARD * PAGE_SIZE), 3, AtLeast(ParentFlags(GUARD_FLAGS)))
    requires TablesFor(m2, m3, root, PageRange(STACK_START, STACK_END), AtLeast(ParentFlags(USER_FLAGS)))
    requires SamePaths(m3, m4, root)
    ensures BuiltTables(m4, root, segments)
  {
    hide EntryTo, OnPaths, ImagePages, FirstWritten;
    TablesForOne(m1, m2, root, GUARD, AtLeast(ParentFlags(GUARD_FLAGS)));
    var pages, written, stack := ImagePages(segments), FirstWritten(segments), PageRange(GUARD, STACK_END);
    forall q: seq<nat> | 1 <= |q| <= 3
      ensures EntryTo(m4, root, q) ==
        if OnPaths(q, pages + stack) then Some(TableFlags(OnPaths(q, written + stack))) else None
    {
      StackPaths(q);
      OnPathsUnion(q, pages, stack);
      OnPathsUnion(q, written, stack);
      var e3, e2, e1 := EntryTo(m3, root, q), EntryTo(m2, root, q), EntryTo(m1, root, q);
      assert e3.Some? ==> e3.value.other == {};
    }
  }

  lemma BuiltOpen(m: Mem, root: nat, segments: seq<Segment>)
    requires BuiltTables(m, root, segments)
    ensures TablesOpen(m, root)
  {
    hide ImageTables, PageRange, ImagePages, FirstWritten, TablesOpen;
    var stack := PageRange(GUARD, STACK_END);
    ImageTablesOpen(m, root, ImagePages(segments) + stack, FirstWritten(segments) + stack);
  }

  lemma NoTables(m: Mem, root: nat)
    requires forall i: nat | i < USER_ENTRIES :: EntryAt(m, root, i) == UNUSED
    ensures ImageTables(m, root, {}, {})
  {
    forall q: seq<nat> | 1 <= |q| <= 3 ensures EntryTo(m, root, q) == None {
      assert !Present(m, root, 4, q[0]);
    }
  }

  /** An image was loaded (m1), the guard page added (m2), the stack pages added (m3), the stack filled (m4). */
  ghost predicate ImageSteps(m1: Mem, m2: Mem, m3: Mem, m4: Mem, root: nat, segments: seq<Segment>, sp: nat) {
    && Loaded(m1, root, segments)
    && NewPage(View(m1, root, GUARD), View(m2, root, GUARD), GUARD_FLAGS) && SameViewExcept(m1, m2, root, GUARD)
    && Mapped(m2, m3, root, STACK_START, STACK_END, USER_FLAGS)
    && ChangedOnly(m3, m4, root, sp, USER_STACK_TOP)
  }

  lemma ImagePage(m1: Mem, m2: Mem, m3: Mem, m4: Mem, root: nat, segments: seq<Segment>, sp: nat, n: nat)
    requires ImageSteps(m1, m2, m3, m4, root, segments, sp) && n < USER_PAGES
    ensures PageAsBuilt(m4, root, segments, n)
    ensures !(GUARD <= n < STACK_END) ==> View(m3, root, n) == View(m1, root, n)
  {
    hide View, ByteAt, FlagsOf;
    var u4, u3, u2, u1 := View(m4, root, n), View(m3, root, n), View(m2, root, n), View(m1, root, n);
  }

  lemma ImageByte(m1: Mem, m2: Mem, m3: Mem, m4: Mem, root: nat, segments: seq<Segment>, sp: nat, va: nat)
    requires ImageSteps(m1, m2, m3, m4, root, segments, sp) && USER_STACK_TOP - STACK_BYTES <= sp
    requires va < USER_TOP && !(GUARD <= va / PAGE_SIZE < STACK_END)
    ensures ByteAt(m4, root, va) == ByteOf(segments, va)
  {
    hide View, FlagsOf, ByteOf;
    ImagePage(m1, m2, m3, m4, root, segments, sp, va / PAGE_SIZE);
    assert !(sp <= va < USER_STACK_TOP);
    assert ByteAt(m4, root, va) == ByteAt(m3, root, va);
    assert ByteAt(m1, root, va) == ByteOf(segments, va);
  }

  lemma ImageFinished(m1: Mem, m2: Mem, m3: Mem, m4: Mem, segments: seq<Segment>, argv: seq<seq<byte>>,
                      strings: seq<nat>, e: ExecImage)
    requires ImageSteps(m1, m2, m3, m4, e.pageTable, segments, e.userSp) && USER_STACK_TOP - STACK_BYTES <= e.userSp
    requires StackBuilt(m4, e.pageTable, strings, argv, e.userSp, e.argvPtr, USER_STACK_TOP)
    requires e.argc == |argv| && e.userSp % 16 == 8 && e.heapSize == PagesFor(MaxEnd(segments)) * PAGE_SIZE
    ensures ImageBuilt(m4, segments, argv, strings, e)
  {
    hide View, ByteAt, ByteOf, StackBuilt, ImageSteps, MaxEnd, PagesFor, PageAsBuilt;
    forall n: nat | n < USER_PAGES ensures PageAsBuilt(m4, e.pageTable, segments, n) {
      ImagePage(m1, m2, m3, m4, e.pageTable, segments, e.userSp, n);
    }
    forall va: nat | va < USER_TOP && !(GUARD <= va / PAGE_SIZE < STACK_END)
      ensures ByteAt(m4, e.pageTable, va) == ByteOf(segments, va)
    {
      ImageByte(m1, m2, m3, m4, e.pageTable, segments, e.userSp, va);
    }
  }

  lemma StackPagesMapped(m2: Mem, m3: Mem, root: nat)
    requires Mapped(m2, m3, root, STACK_START, STACK_END, USER_FLAGS)
    ensures StackMapped(m3, root, USER_STACK_TOP)
  {
    hide View;
    forall va: nat | USER_STACK_TOP - STACK_BYTES <= va < USER_STACK_TOP
      ensures Allowed(Kernel, View(m3, root, va / PAGE_SIZE)) {
      var u := View(m3, root, va / PAGE_SIZE);
    }
  }

  lemma NothingLoaded(m: Mem, root: nat)
    requires forall i: nat | i < USER_ENTRIES :: EntryAt(m, root, i) == UNUSED
    ensures Loaded(m, root, [])
  {
    hide FlagsOf, ByteOf;
    EmptySpec();
    forall n: nat | n < USER_PAGES ensures View(m, root, n) == None {
      PageIndices(n);
      assert !Present(m, root, 4, PathOf(n * PAGE_SIZE)[0]);
    }
    forall va: nat | va < USER_TOP ensures ByteAt(m, root, va) == None {
      assert View(m, root, va / PAGE_SIZE) == None;
    }
  }

  lemma EmptySpec()
    ensures forall n :: FlagsOf([], n) == None
    ensures forall va :: ByteOf([], va) == None
  {}

  // ---- When an image can be built

  ghost predicate StackClear(pages: set<nat>) {
    forall n: nat | GUARD <= n < STACK_END :: n !in pages
  }

  /** Header and program headers are accepted, no segment reaches into the guard page or the stack, and there
    * are frames for the PML4, all pages, and the tables above them. */
  ghost predicate CanBuild(image: seq<byte>, free: nat) {
    var header := ReadElfHeader(image);
    header.Ok? && Buildable(image, header.value, free)
  }

  ghost predicate Buildable(image: seq<byte>, elf: ElfHeader, free: nat) {
    var pages := ImagePages(Segments(image, elf, elf.phnum));
    && elf.phentsize == ENTRY_SIZE && HeadersOk(image, elf, elf.phnum)
    && StackClear(pages)
    && 1 + |NodesOver(pages + PageRange(GUARD, STACK_END))| <= free
  }

  ghost predicate Bare(m: Mem, root: nat) {
    forall pages :: Missing(m, root, pages) == NodesOver(pages)
  }

  lemma LoadRefused(m: Mem, root: nat, image: seq<byte>, elf: ElfHeader, free: nat)
    requires Bare(m, root) && !CanLoad(m, root, image, elf, free)
    ensures !Buildable(image, elf, free + 1)
  {
    hide NodesOver, Missing, HeadersOk, ImagePages, Segments;
    var pages := ImagePages(Segments(image, elf, elf.phnum));
    MissingGrows(m, root, pages, pages + PageRange(GUARD, STACK_END));
  }

  lemma GuardRefused(m: Mem, m1: Mem, root: nat, image: seq<byte>, elf: ElfHeader, all: set<nat>, out: set<nat>,
                     out1: set<nat>)
    requires var segments := Segments(image, elf, elf.phnum);
      Took(m, m1, root, out, out1, ImagePages(segments)) && Loaded(m1, root, segments)
    requires Bare(m, root) && out <= all && out1 <= all && !CanMap(m1, root, {GUARD}, |all - out1|)
    ensures !Buildable(image, elf, |all - out| + 1)
  {
    hide NodesOver, Missing, HeadersOk, ImagePages, Segments, View, FlagsOf, Took, PageRange;
    var segments := Segments(image, elf, elf.phnum);
    var pages := ImagePages(segments);
    if View(m1, root, GUARD) == None {
      TookTooMuch(m, m1, root, all, out, out1, pages, {GUARD}, pages + PageRange(GUARD, STACK_END));
    } else {
      ImagePagesFlags(segments, GUARD);
    }
  }

  lemma StackRefused(m: Mem, m1: Mem, m2: Mem, root: nat, image: seq<byte>, elf: ElfHeader, all: set<nat>,
                     out: set<nat>, out1: set<nat>, out2: set<nat>)
    requires var segments := Segments(image, elf, elf.phnum);
      Took(m, m1, root, out, out1, ImagePages(segments)) && Loaded(m1, root, segments)
    requires Took(m1, m2, root, out1, out2, {GUARD}) && SameViewExcept(m1, m2, root, GUARD)
    requires Bare(m, root) && out <= all && out1 <= all && out2 <= all
    requires !CanMap(m2, root, PageRange(STACK_START, STACK_END), |all - out2|)
    ensures !Buildable(image, elf, |all - out| + 1)
  {
    hide NodesOver, Missing, HeadersOk, ImagePages, Segments, View, FlagsOf, Took, PageRange;
    var segments := Segments(image, elf, elf.phnum);
    var pages, stack := ImagePages(segments), PageRange(STACK_START, STACK_END);
    TookMore(m, m1, m2, root, all, out, out1, out2, pages, {GUARD});
    if n :| n in stack && n < USER_PAGES && View(m2, root, n) != None {
      ImagePagesFlags(segments, n);
      assert View(m1, root, n).Some?;
    } else {
      TookTooMuch(m, m2, root, all, out, out2, pages + {GUARD}, stack, pages + PageRange(GUARD, STACK_END));
    }
  }

  lemma StackAdded(m: Mem, m1: Mem, m2: Mem, m3: Mem, root: nat, image: seq<byte>, elf: ElfHeader,
                   all: set<nat>, out: set<nat>, out1: set<nat>, out2: set<nat>, out3: set<nat>)
    requires var segments := Segments(image, elf, elf.phnum);
      Took(m, m1, root, out, out1, ImagePages(segments)) && Loaded(m1, root, segments)
    requires Took(m1, m2, root, out1, out2, {GUARD}) && SameViewExcept(m1, m2, root, GUARD)
    requires Took(m2, m3, root, out2, out3, PageRange(STACK_START, STACK_END))
    requires elf.phentsize == ENTRY_SIZE && HeadersOk(image, elf, elf.phnum)
    requires Bare(m, root) && out <= all && out1 <= all && out2 <= all && out3 <= all
    requires View(m1, root, GUARD) == None && forall n: nat | STACK_START <= n < STACK_END :: View(m2, root, n) == None
    ensures Buildable(image, elf, |all - out| + 1)
  {
    hide NodesOver, Missing, HeadersOk, ImagePages, Segments, View, FlagsOf, Took, PageRange;
    var segments := Segments(image, elf, elf.phnum);
    var pages, stack := ImagePages(segments), PageRange(STACK_START, STACK_END);
    TookMore(m, m1, m2, root, all, out, out1, out2, pages, {GUARD});
    TookMore(m, m2, m3, root, all, out, out2, out3, pages + {GUARD}, stack);
    TookMore(m, m3, m3, root, all, out, out3, out3, pages + {GUARD} + stack, {});
    assert pages + {GUARD} + stack == pages + PageRange(GUARD, STACK_END);
    forall n: nat | GUARD <= n < STACK_END ensures n !in pages {
      ImagePagesFlags(segments, n);
      assert n != GUARD ==> View(m2, root, n) == View(m1, root, n);
    }
  }

  /** Builds the image of an ELF file with its arguments in a fresh address space.  On failure every frame
    * taken is lost; nothing that was outstanding before has changed. */
  method PrepareExecImage(pm: PhysMem, fa: FrameAllocator, active: nat, image: seq<byte>, argv: seq<seq<byte>>)
    returns (r: Result<ExecImage, ExecError>, ghost strings: seq<nat>)
    requires fa.Valid() && IsTable(pm.mem, active) && active !in fa.all - fa.out
    requires ReadElfHeader(image).Ok? ==>
      InUserHalf(Segments(image, ReadElfHeader(image).value, ReadElfHeader(image).value.phnum))
    modifies pm, fa
    ensures fa.Valid() && old(fa.out) <= fa.out && Agree(old(pm.mem), pm.mem, old(fa.out))
    ensures r.Ok? ==>
      var e, elf := r.value, ReadElfHeader(image);
      && elf.Ok? && HeadersOk(image, elf.value, elf.value.phnum) && e.entry == elf.value.entry
      && Tree(pm.mem, e.pageTable, 4) && Frames(pm.mem, e.pageTable, 4) == fa.out - old(fa.out)
      && KernelHalf(pm.mem, e.pageTable) == KernelHalf(old(pm.mem), active)
      && e.heapSize == PagesFor(MaxEnd(Segments(image, elf.value, elf.value.phnum))) * PAGE_SIZE
      && BuiltTables(pm.mem, e.pageTable, Segments(image, elf.value, elf.value.phnum))
      && (WithinLimits(argv) ==> StackFits(e))
      && (StackFits(e) ==> ImageBuilt(pm.mem, Segments(image, elf.value, elf.value.phnum), argv, strings, e))
    ensures r.Ok? ==> CanBuild(image, |fa.all - old(fa.out)|)
    ensures WithinLimits(argv) && CanBuild(image, |fa.all - old(fa.out)|) ==> r.Ok?
    ensures r.Err? && r.error in {StackOverflow, CopyFailed} ==> !WithinLimits(argv)
    ensures ReadElfHeader(image).Err? ==>
      r.Err? && r.error == ReadElfHeader(image).error && pm.mem == old(pm.mem) && unchanged(fa)
  {
    hide Tree, Frames, View, FrameAllocator.Valid, Loaded, HeaderSegment, Segments, HeadersOk, InUserHalf, MaxEnd,
      Mapped, StackBuilt, ChangedOnly, StackMapped, ImageBuilt, WithinLimits, PagesFor, OnlyPages, Took, Missing,
      Within, Leaking, Owns, ImagePages, CanMap, Buildable, Bare, NewPage, SameViewExcept, SameView, PageRange,
      KernelHalf, Agree, SamePaths, Nodes, NodesOver, ImageTables, BuiltTables, TablesAdded, TablesFor, FirstWritten,
      PathOf;
    strings := [];
    var header := ReadElfHeader(image);
    if header.Err? {
      Unchanged(pm.mem, fa.out);
      return Err(header.error), strings;
    }
    var elf := header.value;
    ghost var m0, out0, free := pm.mem, fa.out, |fa.all - fa.out|;
    OutInAll(fa);
    var pml4 := NewUvm(pm, fa, active);
    if pml4.None? {
      NoRoot(image, elf, fa.all, out0);
      Unchanged(m0, out0);
      return Err(NoFrames), strings;
    }
    var root := pml4.value;
    ghost var m, out := pm.mem, fa.out;
    RootTaken(m0, m, root, fa.all, out0, out);
    var heapSize := LoadElfSegments(pm, fa, root, image, elf);
    ghost var m1, out1 := pm.mem, fa.out;
    OutInAll(fa);
    ImageSoFar(m0, m, m1, root, out0, out, out1);
    if heapSize.Err? {
      LoadRefused(m, root, image, elf, free - 1);
      return Err(heapSize.error), strings;
    }
    var guardPage := MapPage(pm, fa, root, GUARD, GUARD_FLAGS);
    ghost var m2, out2 := pm.mem, fa.out;
    OutInAll(fa);
    LeaksMore(m, m1, m2, root, out, out1, out2);
    ImageSoFar(m0, m, m2, root, out0, out, out2);
    if guardPage.Err? {
      GuardRefused(m, m1, root, image, elf, fa.all, out, out1);
      return Err(MapFailed), strings;
    }
    var stack := MapPages(pm, fa, root, STACK_START, STACK_PAGES, USER_FLAGS);
    ghost var m3, out3 := pm.mem, fa.out;
    OutInAll(fa);
    LeaksMore(m, m2, m3, root, out, out2, out3);
    ImageSoFar(m0, m, m3, root, out0, out, out3);
    if stack.Err? {
      StackRefused(m, m1, m2, root, image, elf, fa.all, out, out1, out2);
      return Err(MapFailed), strings;
    }
    NothingThere(m1, m2, m3, root);
    StackAdded(m, m1, m2, m3, root, image, elf, fa.all, out, out1, out2, out3);
    StackPagesMapped(m2, m3, root);
    var built;
    built, strings := SetupUserStack(pm, fa, root, argv, USER_STACK_TOP);
    OnlyPagesWithin(m3, pm.mem, root, out3);
    LeaksMore(m, m3, pm.mem, root, out, out3, out3);
    ImageSoFar(m0, m, pm.mem, root, out0, out, out3);
    StackTables(m1, m2, m3, pm.mem, root, Segments(image, elf, elf.phnum));
    if built.Err? {
      return Err(if built.error == CopyFailed then CopyFailed else StackOverflow), strings;
    }
    var (sp, argc, argvPtr) := built.value;
    var e := ExecImage(root, elf.entry, sp, argc, argvPtr, heapSize.value);
    FreshImage(m0, m, pm.mem, root, active, out0, out3);
    if StackFits(e) {
      ImageDone(m1, m2, m3, pm.mem, Segments(image, elf, elf.phnum), argv, strings, e);
    }
    r := Ok(e);
  }

  lemma Unchanged(m: Mem, out: set<nat>)
    ensures Agree(m, m, out)
  {}

  lemma NoRoot(image: seq<byte>, elf: ElfHeader, all: set<nat>, out: set<nat>)
    requires out == all
    ensures !Buildable(image, elf, |all - out|)
  {
    hide NodesOver, ImagePages, PageRange, HeadersOk, Segments;
    assert all - out == {};
  }

  lemma RootTaken(m0: Mem, m: Mem, root: nat, all: set<nat>, out0: set<nat>, out: set<nat>)
    requires root !in out0 && root in all && out == out0 + {root} && out0 <= all
    requires Tree(m, root, 4) && Frames(m, root, 4) == {root}
    requires forall i: nat | i < USER_ENTRIES :: EntryAt(m, root, i) == UNUSED
    ensures Owns(m, out, root) && Bare(m, root) && Loaded(m, root, []) && out <= all
    ensures |all - out0| == |all - out| + 1 && ImageTables(m, root, {}, {})
  {
    hide Tree, Frames, View, Missing, NodesOver, Loaded, ImageTables;
    NoTables(m, root);
    BareTree(m, root);
    NothingLoaded(m, root);
    assert all - out0 == (all - out) + {root};
  }

  /** What was in use before the image was begun is in use and as it was. */
  lemma ImageSoFar(m0: Mem, m: Mem, m': Mem, root: nat, out0: set<nat>, out: set<nat>, out': set<nat>)
    requires root !in out0 && out == out0 + {root} && root in m && m == m0[root := m[root]]
    requires Frames(m, root, 4) == {root}
    requires Leaking(m, m', root, out, out')
    ensures out0 <= out' && Agree(m0, m', out0) && Owns(m', out', root)
  {
    hide Tree, Frames, KernelHalf;
    assert out - {root} == out0;
  }

  lemma NothingThere(m1: Mem, m2: Mem, m3: Mem, root: nat)
    requires NewPage(View(m1, root, GUARD), View(m2, root, GUARD), GUARD_FLAGS)
    requires Mapped(m2, m3, root, STACK_START, STACK_END, USER_FLAGS)
    ensures View(m1, root, GUARD) == None && forall n: nat | STACK_START <= n < STACK_END :: View(m2, root, n) == None
  {
    hide View;
    forall n: nat | STACK_START <= n < STACK_END ensures View(m2, root, n) == None {
      var u := View(m3, root, n);
    }
  }

  /** All frames of a tree that started as one fresh PML4 were taken since. */
  lemma FreshImage(m0: Mem, m: Mem, m': Mem, root: nat, active: nat, out0: set<nat>, out': set<nat>)
    requires root !in out0 && Frames(m, root, 4) == {root} && Within(m, m', root, out0 + {root}, out')
    requires Leaking(m, m', root, out0 + {root}, out') && KernelHalf(m, root) == KernelHalf(m0, active)
    ensures Tree(m', root, 4) && Frames(m', root, 4) == out' - out0 && KernelHalf(m', root) == KernelHalf(m0, active)
  {
    hide Tree, Frames, KernelHalf;
    assert out0 + {root} - {root} == out0;
  }

  lemma ImageDone(m1: Mem, m2: Mem, m3: Mem, m4: Mem, segments: seq<Segment>, argv: seq<seq<byte>>, strings: seq<nat>,
                  e: ExecImage)
    requires Loaded(m1, e.pageTable, segments)
    requires NewPage(View(m1, e.pageTable, GUARD), View(m2, e.pageTable, GUARD), GUARD_FLAGS)
    requires SameViewExcept(m1, m2, e.pageTable, GUARD)
    requires Mapped(m2, m3, e.pageTable, STACK_START, STACK_END, USER_FLAGS)
    requires ChangedOnly(m3, m4, e.pageTable, e.userSp, USER_STACK_TOP)
    requires StackFits(e) && StackBuilt(m4, e.pageTable, strings, argv, e.userSp, e.argvPtr, USER_STACK_TOP)
    requires e.argc == |argv| && e.userSp % 16 == 8 && e.heapSize == PagesFor(MaxEnd(segments)) * PAGE_SIZE
    ensures ImageBuilt(m4, segments, argv, strings, e)
  {
    hide View, Loaded, Mapped, ChangedOnly, StackBuilt, ImageBuilt, MaxEnd, PagesFor, NewPage, SameViewExcept;
    ImageFinished(m1, m2, m3, m4, segments, argv, strings, e);
  }

  /** A linked file can be built exactly if its segments keep away from guard page and stack and there are frames for
    * them, the stack, and the tables above; and it is these segments that are built. */
  lemma LinkedImage(entry: nat, segments: seq<Segment>, free: nat)
    requires Linkable(entry, segments)
    ensures CanBuild(Link(entry, segments), free) <==>
      && (forall s, n: nat | s in segments && GUARD <= n < STACK_END :: !s.Touches(n))
      && 1 + |NodesOver(ImagePages(segments) + PageRange(GUARD, STACK_END))| <= free
  {
    hide Link, NodesOver, PageRange, Linkable, HeadersOk, Segments, ReadElfHeader, ImagePages;
    LinkedIsLoaded(entry, segments);
    var elf := ReadElfHeader(Link(entry, segments)).value;
    assert Segments(Link(entry, segments), elf, elf.phnum) == segments;
    ClearOfSegments(segments);
  }

  lemma ClearOfSegments(segments: seq<Segment>)
    ensures StackClear(ImagePages(segments)) <==>
      forall s, n: nat | s in segments && GUARD <= n < STACK_END :: !s.Touches(n)
  {
    hide ImagePages;
    if StackClear(ImagePages(segments)) {
      forall s, n: nat | s in segments && GUARD <= n < STACK_END ensures !s.Touches(n) {
        PageOfSegment(segments, n);
      }
    } else {
      var n: nat :| GUARD <= n < STACK_END && n in ImagePages(segments);
      PageOfSegment(segments, n);
    }
  }

  lemma {:induction false} PageOfSegment(segments: seq<Segment>, n: nat)
    ensures n in ImagePages(segments) <==> exists s :: s in segments && s.Touches(n)
  {
    if segments != [] {
      var k := |segments| - 1;
      PageOfSegment(segments[..k], n);
      assert forall s | s in segments :: s in segments[..k] || s == segments[k];
      assert segments[k] in segments && forall s | s in segments[..k] :: s in segments;
    }
  }

  /** No segment touches a page at or above the end of all segments. */
  lemma {:induction false} AboveAllSegments(segments: seq<Segment>, n: nat)
    requires InUserHalf(segments) && n >= PagesFor(MaxEnd(segments))
    ensures FlagsOf(segments, n) == None
  {
    if segments != [] {
      var s := segments[|segments| - 1];
      assert s in segments && s.vaddr + s.size <= MaxEnd(segments);
      RoundUpMonotone(MaxEnd(segments[..|segments| - 1]), MaxEnd(segments));
      AboveAllSegments(segments[..|segments| - 1], n);
    }
  }

  /** A new image that ends below the guard page has an empty heap, ready to grow up to the guard page. */
  lemma HeapReady(m: Mem, segments: seq<Segment>, argv: seq<seq<byte>>, strings: seq<nat>, e: ExecImage)
    requires ImageBuilt(m, segments, argv, strings, e) && InUserHalf(segments) && e.heapSize <= GUARD * PAGE_SIZE
    ensures HeapInv(m, e.pageTable, e.heapSize, e.heapSize, GUARD)
  {
    hide View, FlagsOf, ByteAt, ByteOf, StackBuilt, MaxEnd, InUserHalf;
    PageBound(PagesFor(MaxEnd(segments)), 0);
    PageBound(GUARD, 0);
    RoundUpMonotone(e.heapSize, GUARD * PAGE_SIZE);
    assert PageAsBuilt(m, e.pageTable, segments, GUARD) by { var u := View(m, e.pageTable, GUARD); }
    forall n: nat | PagesFor(e.heapSize) <= n < GUARD ensures View(m, e.pageTable, n).None? {
      AboveAllSegments(segments, n);
      assert PageAsBuilt(m, e.pageTable, segments, n) by { var u := View(m, e.pageTable, n); }
    }
  }
}

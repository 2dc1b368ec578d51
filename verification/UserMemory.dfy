/** Growing, shrinking, copying and freeing the user half of an address space. */
module UserMemory {
  import opened Basics
  import opened PageTree
  import opened AddressSpace
  import opened FrameAlloc
  import opened TableEntries
  import opened Walker
  import opened TreeNodes

  datatype UvmError =
    | SizeOverflow | OutsideUserSpace | FrameAllocFailed | TableAllocFailed | AlreadyMapped


  /** Rounds up to a page boundary; the addition is checked at 64 bits. */
  function PageRoundUp(value: nat): (r: Result<nat, UvmError>)
    ensures r.Ok? <==> value + PAGE_SIZE - 1 < WORD
    ensures r.Ok? ==> r.value % PAGE_SIZE == 0 && value <= r.value < value + PAGE_SIZE
    ensures r.Ok? ==> r.value == PagesFor(value) * PAGE_SIZE
  {
    if value + (PAGE_SIZE - 1) >= WORD then Err(SizeOverflow)
    else Ok((value + (PAGE_SIZE - 1)) / PAGE_SIZE * PAGE_SIZE)
  }

  /** The number of pages that hold the first size bytes. */
  function PagesFor(size: nat): nat {
    (size + (PAGE_SIZE - 1)) / PAGE_SIZE
  }

  /** The data frames behind pages lo..hi. */
  ghost function DataFrames(m: Mem, root: nat, lo: nat, hi: nat): set<nat> {
    set n | lo <= n < hi && View(m, root, n).Some? :: View(m, root, n).value.frame
  }

  // ---- Single steps

  lemma FreshPage(m: Mem, m': Mem, root: nat, out: set<nat>, c: nat)
    requires Owns(m, out, root) && c !in out
    requires c in m' && m' == m[c := m'[c]]
    ensures Owns(m', out + {c}, root) && Frames(m', root, 4) == Frames(m, root, 4)
    ensures SameView(m, m', root) && KernelHalf(m', root) == KernelHalf(m, root)
    ensures Agree(m, m', out) && SamePaths(m, m', root)
  {
    hide SamePaths;
    TreeFrame(m, m', root, 4);
    EntriesFrame(m, m', root);
    assert root in Frames(m, root, 4);
    forall n: nat | n < USER_PAGES ensures View(m', root, n) == View(m, root, n) {
      if Pte(m, root, n).Some? {
        LeafFrame(m, root, 4, PathOf(n * PAGE_SIZE));
      }
    }
  }

  lemma UnmapStep(m: Mem, m': Mem, root: nat, out: set<nat>, n: nat, s: Slot)
    requires Owns(m, out, root) && n < USER_PAGES && Rewritten(m, m', root, n, s, UNUSED)
    ensures View(m, root, n).Some?
    ensures var x := View(m, root, n).value.frame;
      x == EntryAt(m, s.table, s.index).frame && x in out && Within(m, m', root, out, out - {x})
    ensures View(m', root, n) == None && SameViewExcept(m, m', root, n) && SamePaths(m, m', root)
  {
    RewriteView(m, m', root, n, s, UNUSED);
    PteSlotEntry(m, root, n, s);
    ViewFrames(m, root, n);
  }

  /** From m0, frame c was filled (m1), a walk found the slot of page n (m2), and the slot was set (m3). */
  lemma MapStep(m0: Mem, m1: Mem, m2: Mem, m3: Mem, root: nat, out0: set<nat>, out2: set<nat>, c: nat, n: nat, s: Slot,
                fl: Flags)
    requires Owns(m0, out0, root) && c !in out0 && n < USER_PAGES
    requires c in m1 && IsPage(m1, c) && m1 == m0[c := m1[c]]
    requires Within(m1, m2, root, out0 + {c}, out2) && SameView(m1, m2, root)
    requires PteSlot(m2, root, n, s) && IsTable(m2, s.table) && s.index < ENTRIES
    requires !EntryAt(m2, s.table, s.index).flags.present
    requires fl.present && !fl.huge
    requires m3 == Written(m2, s.table, s.index, Entry(c, fl))
    ensures Within(m0, m3, root, out0, out2)
    ensures View(m0, root, n) == None && View(m3, root, n) == Some(UserPage(c, fl, m1[c].bytes))
    ensures SameViewExcept(m0, m3, root, n)
    ensures forall g | TablesAdded(m1, m2, root, PathOf(n * PAGE_SIZE), 3, g) ::
      TablesAdded(m0, m3, root, PathOf(n * PAGE_SIZE), 3, g)
  {
    hide TablesAdded, SamePaths;
    FreshPage(m0, m1, root, out0, c);
    PteSlotEntry(m2, root, n, s);
    PageIndices(n);
    assert c in (out0 + {c}) - Frames(m1, root, 4);
    var p := PathOf(n * PAGE_SIZE);
    assert Attached(m2, m3, root, p[..3], s.table, s.index, c, Entry(c, fl));
    MapView(m2, m3, root, n, s, c, Entry(c, fl));
    assert m3[c] == m1[c];
    assert View(m2, root, n) == View(m1, root, n);
    forall g | TablesAdded(m1, m2, root, p, 3, g) ensures TablesAdded(m0, m3, root, p, 3, g) {
      PathsJoin(m0, m1, m2, m3, root, p, 3, g);
    }
    MapStepWithin(m0, m1, m2, m3, root, out0, out2, c, s);
  }

  lemma MapStepWithin(m0: Mem, m1: Mem, m2: Mem, m3: Mem, root: nat, out0: set<nat>, out2: set<nat>, c: nat, s: Slot)
    requires Owns(m0, out0, root) && c !in out0
    requires Agree(m0, m1, out0) && Frames(m1, root, 4) == Frames(m0, root, 4)
    requires KernelHalf(m1, root) == KernelHalf(m0, root)
    requires Within(m1, m2, root, out0 + {c}, out2)
    requires s.table in Frames(m2, root, 4)
    requires Agree(m2, m3, out2 - {s.table})
    requires Tree(m3, root, 4) && Frames(m3, root, 4) == Frames(m2, root, 4) + {c}
    requires KernelHalf(m3, root) == KernelHalf(m2, root)
    ensures Within(m0, m3, root, out0, out2)
  {
    var a := out0 - Frames(m0, root, 4);
    assert out2 - Frames(m2, root, 4) == a + {c} by {
      assert c !in Frames(m0, root, 4);
    }
    assert c in out2 && s.table !in a;
  }

  // ---- Shrinking

  /** The loop body of rollback_alloc_uvm and dealloc_uvm: unmaps the page at addr if it is mapped. */
  method UnmapPage(pm: PhysMem, fa: FrameAllocator, root: nat, addr: nat)
    requires fa.Valid() && Owns(pm.mem, fa.out, root) && addr < USER_TOP
    modifies pm, fa
    ensures fa.Valid() && Within(old(pm.mem), pm.mem, root, old(fa.out), fa.out)
    ensures View(pm.mem, root, addr / PAGE_SIZE) == None
    ensures SameViewExcept(old(pm.mem), pm.mem, root, addr / PAGE_SIZE) && SamePaths(old(pm.mem), pm.mem, root)
    ensures fa.out == old(fa.out) - FrameOf(old(pm.mem), root, addr / PAGE_SIZE)
  {
    ghost var n, m, out := addr / PAGE_SIZE, pm.mem, fa.out;
    var slot := WalkPagetable(pm, fa, root, addr, false);
    if slot.Some? {
      var Slot(table, index) := slot.value;
      PteSlotEntry(m, root, n, slot.value);
      var pte := pm.mem[table].entries[index];
      if pte.flags.present {
        assert Rewritten(m, Written(m, table, index, UNUSED), root, n, slot.value, UNUSED);
        UnmapStep(m, Written(m, table, index, UNUSED), root, out, n, slot.value);
        fa.DeallocateFrame(pte.frame);
        pm.SetEntry(table, index, UNUSED);
      }
    }
  }

  /** Unmaps the pages from start up to end and frees their frames; tables stay. */
  method RollbackAllocUvm(pm: PhysMem, fa: FrameAllocator, root: nat, start: nat, end: nat)
    requires fa.Valid() && Owns(pm.mem, fa.out, root)
    requires start % PAGE_SIZE == 0 && end <= USER_TOP
    modifies pm, fa
    ensures fa.Valid() && Within(old(pm.mem), pm.mem, root, old(fa.out), fa.out)
    ensures Unmapped(old(pm.mem), pm.mem, root, start / PAGE_SIZE, PagesFor(end))
    ensures fa.out == old(fa.out) - DataFrames(old(pm.mem), root, start / PAGE_SIZE, PagesFor(end))
    ensures SamePaths(old(pm.mem), pm.mem, root)
  {
    hide View, Tree, Frames, FrameAllocator.Valid, DataFrames, SamePaths;
    ghost var m0, out0 := pm.mem, fa.out;
    ghost var lo, hi, n := start / PAGE_SIZE, PagesFor(end), start / PAGE_SIZE;
    var addr := start;
    PageBound(n, end);
    DataFramesEmpty(m0, root, lo, lo);
    PathsSame(m0, root);
    while addr < end
      invariant addr == n * PAGE_SIZE && lo <= n && (addr < end <==> n < hi) && (n == lo || n <= hi)
      invariant fa.Valid() && Within(m0, pm.mem, root, out0, fa.out)
      invariant Unmapped(m0, pm.mem, root, lo, n) && SamePaths(m0, pm.mem, root)
      invariant fa.out == out0 - DataFrames(m0, root, lo, n)
      decreases end - addr
    {
      ghost var m := pm.mem;
      assert View(m, root, n) == View(m0, root, n);
      UnmapPage(pm, fa, root, addr);
      PathsAgain(m0, m, pm.mem, root);
      DataFramesStep(m0, root, lo, n);
      addr := addr + PAGE_SIZE;
      n := n + 1;
      PageBound(n, end);
    }
    if n > hi {
      DataFramesEmpty(m0, root, lo, hi);
    }
  }

  lemma DataFramesEmpty(m: Mem, root: nat, lo: nat, hi: nat)
    requires lo >= hi
    ensures DataFrames(m, root, lo, hi) == {}
  {}

  lemma PageBound(n: nat, size: nat)
    ensures n * PAGE_SIZE < size <==> n < PagesFor(size)
    ensures n * PAGE_SIZE / PAGE_SIZE == n && PagesFor(n * PAGE_SIZE) == n
  {}

  /** The data frame behind page n, if it is mapped. */
  ghost function FrameOf(m: Mem, root: nat, n: nat): set<nat> {
    if View(m, root, n).Some? then {View(m, root, n).value.frame} else {}
  }

  lemma DataFramesStep(m: Mem, root: nat, lo: nat, n: nat)
    requires lo <= n
    ensures DataFrames(m, root, lo, n + 1) == DataFrames(m, root, lo, n) + FrameOf(m, root, n)
  {}

  // ---- Growing

  /** The loop body of alloc_uvm: maps one zeroed page at addr; on failure the new frame is given back. */
  method GrowPage(pm: PhysMem, fa: FrameAllocator, root: nat, addr: nat) returns (r: Result<(), UvmError>)
    requires fa.Valid() && Owns(pm.mem, fa.out, root) && addr < USER_TOP
    modifies pm, fa
    ensures fa.Valid() && Within(old(pm.mem), pm.mem, root, old(fa.out), fa.out)
    ensures Frames(old(pm.mem), root, 4) <= Frames(pm.mem, root, 4)
    ensures r.Ok? ==>
      var n := addr / PAGE_SIZE;
      && NewPage(View(old(pm.mem), root, n), View(pm.mem, root, n), USER_FLAGS)
      && View(pm.mem, root, n).value.frame !in old(fa.out)
      && SameViewExcept(old(pm.mem), pm.mem, root, n)
      && old(fa.out) <= fa.out
    ensures r.Err? ==> SameView(old(pm.mem), pm.mem, root)
    ensures r.Err? ==> r.error in {FrameAllocFailed, TableAllocFailed, AlreadyMapped}
    ensures r.Err? && r.error != AlreadyMapped ==> exists c :: fa.all - fa.out <= {c}
    ensures r == Err(AlreadyMapped) ==> View(old(pm.mem), root, addr / PAGE_SIZE).Some?
    ensures r.Ok? ==> Took(old(pm.mem), pm.mem, root, old(fa.out), fa.out, {addr / PAGE_SIZE})
    ensures TablesKept(old(pm.mem), pm.mem, root)
    ensures r.Ok? <==> CanMap(old(pm.mem), root, {addr / PAGE_SIZE}, |fa.all - old(fa.out)|)
  {
    hide Tree, Frames, View, FrameAllocator.Valid, Nodes, Missing, NodesOver, TablesAdded, TablesKept, StoppedAt,
      CanMap, Took, SamePaths, Resolve, KernelHalf, SameView, SameViewExcept, PathOf, Within, Owns, Agree, PteSlot,
      NewPage;
    ghost var n, m0, out0 := addr / PAGE_SIZE, pm.mem, fa.out;
    OutInAll(fa);
    PathOfPage(addr);
    var frame := fa.AllocateFrame();
    if frame.None? {
      assert fa.all - fa.out <= {0};
      NoFrameLeft(m0, root, n, fa.all, out0);
      PathsSame(m0, root);
      SameKeepsTables(m0, m0, root);
      RootResolves(m0, root, out0);
      return Err(FrameAllocFailed);
    }
    var c := frame.value;
    pm.mem := pm.mem[c := ZeroPage()];
    ghost var m1 := pm.mem;
    FreshPage(m0, m1, root, out0, c);
    var pte := WalkPagetable(pm, fa, root, addr, true);
    ghost var m2 := pm.mem;
    GiveBack(m0, m1, m2, root, out0, fa.out, c);
    OutInAll(fa);
    if pte.None? {
      StoppedJoin(m0, m1, m2, root, PathOf(addr), Fresh(USER_FLAGS));
      Starved(m0, m2, root, n, fa.all, out0, fa.out, c, Fresh(USER_FLAGS));
      WalkKeepsTables(m0, m2, root, PathOf(addr));
      fa.DeallocateFrame(c);
      assert fa.all - fa.out <= {c};
      return Err(TableAllocFailed);
    }
    var Slot(table, index) := pte.value;
    EntryIsThere(m2, root, fa.out, n, pte.value);
    if pm.mem[table].entries[index].flags.present {
      PathsSame(m2, root);
      PathsJoin(m0, m1, m2, m2, root, PathOf(addr), 3, Fresh(USER_FLAGS));
      WalkKeepsTables(m0, m2, root, PathOf(addr));
      Blocked(m0, m2, root, n, pte.value, |fa.all - out0|, fa.out);
      fa.DeallocateFrame(c);
      return Err(AlreadyMapped);
    }
    pm.SetEntry(table, index, Entry(c, USER_FLAGS));
    PageGrown(m0, m1, m2, pm.mem, root, fa.all, out0, fa.out, c, n, pte.value, USER_FLAGS, Fresh(USER_FLAGS));
    WalkKeepsTables(m0, pm.mem, root, PathOf(addr));
    r := Ok(());
  }

  lemma EntryIsThere(m: Mem, root: nat, out: set<nat>, n: nat, s: Slot)
    requires Owns(m, out, root) && n < USER_PAGES && PteSlot(m, root, n, s)
    ensures IsTable(m, s.table) && s.index < ENTRIES
  {
    PteSlotEntry(m, root, n, s);
  }

  /** The page's entry is in use, so the page was mapped before. */
  lemma Blocked(m0: Mem, m2: Mem, root: nat, n: nat, s: Slot, free: nat, out2: set<nat>)
    requires n < USER_PAGES && SameView(m0, m2, root) && Owns(m2, out2, root) && PteSlot(m2, root, n, s)
    requires IsTable(m2, s.table) && s.index < ENTRIES && m2[s.table].entries[s.index].flags.present
    ensures View(m0, root, n).Some? && !CanMap(m0, root, {n}, free)
  {
    hide View;
    MappedView(m2, root, n, s);
    assert View(m2, root, n) == View(m0, root, n);
    CannotRemap(m0, root, n, free);
  }

  lemma PageGrown(m0: Mem, m1: Mem, m2: Mem, m3: Mem, root: nat, all: set<nat>, out0: set<nat>, out2: set<nat>, c: nat,
                  n: nat, s: Slot, fl: Flags, g: Grant)
    requires Owns(m0, out0, root) && c !in out0 && n < USER_PAGES && m1 == m0[c := ZeroPage()] && out0 <= out2
    requires fl.present && !fl.huge
    requires Within(m1, m2, root, out0 + {c}, out2) && SameView(m1, m2, root)
    requires Frames(m0, root, 4) <= Frames(m1, root, 4)
    requires Frames(m1, root, 4) <= Frames(m2, root, 4)
    requires PteSlot(m2, root, n, s) && IsTable(m2, s.table) && s.index < ENTRIES
    requires !m2[s.table].entries[s.index].flags.present
    requires TablesAdded(m1, m2, root, PathOf(n * PAGE_SIZE), 3, g)
    requires m3 == Written(m2, s.table, s.index, Entry(c, fl)) && out0 <= all && out2 <= all
    ensures Within(m0, m3, root, out0, out2) && Frames(m0, root, 4) <= Frames(m3, root, 4)
    ensures NewPage(View(m0, root, n), View(m3, root, n), fl) && View(m3, root, n).value.frame !in out0
    ensures SameViewExcept(m0, m3, root, n)
    ensures Took(m0, m3, root, out0, out2, {n}) && CanMap(m0, root, {n}, |all - out0|)
    ensures TablesAdded(m0, m3, root, PathOf(n * PAGE_SIZE), 3, g)
  {
    hide Tree, Frames, Nodes, Missing, NodesOver, TablesAdded, CanMap;
    MapStep(m0, m1, m2, m3, root, out0, out2, c, n, s, fl);
    PageMapped(m0, m3, root, n, all, out0, out2, g);
    forall f | f in Frames(m0, root, 4) ensures f in Frames(m3, root, 4) {
      assert f in out0 && f in out2;
    }
  }

  /** None of these pages is mapped, and there are frames enough for them and the tables that they lack. */
  ghost predicate CanMap(m: Mem, root: nat, pages: set<nat>, free: nat) {
    (forall n | n in pages && n < USER_PAGES :: View(m, root, n) == None) && |Missing(m, root, pages)| <= free
  }

  lemma NoFrameLeft(m: Mem, root: nat, n: nat, all: set<nat>, out: set<nat>)
    requires n < USER_PAGES && out == all
    ensures !CanMap(m, root, {n}, |all - out|)
  {
    hide View, Missing;
    if View(m, root, n) == None {
      PageMissing(m, root, {n}, n);
    }
  }

  lemma CannotRemap(m: Mem, root: nat, n: nat, free: nat)
    requires n < USER_PAGES && View(m, root, n).Some?
    ensures !CanMap(m, root, {n}, free)
  {
    assert n in {n};
  }

  /** Page n was mapped: it took the frames that were missing for it. */
  lemma PageMapped(m: Mem, m': Mem, root: nat, n: nat, all: set<nat>, out: set<nat>, out': set<nat>,
                   g: Grant)
    requires n < USER_PAGES && Owns(m, out, root) && Within(m, m', root, out, out') && out <= all && out' <= all
    requires TablesAdded(m, m', root, PathOf(n * PAGE_SIZE), 3, g) && SameViewExcept(m, m', root, n)
    requires View(m, root, n) == None && View(m', root, n).Some?
    ensures Took(m, m', root, out, out', {n}) && CanMap(m, root, {n}, |all - out|)
  {
    hide View, Missing, Nodes, NodesOver, TablesAdded, Within, Owns;
    PageAdded(m, m', root, n, g);
    NodesTaken(m, m', root, out, out');
    MissingSplit(m, m', root, {n}, {});
    SplitCount(all, out);
    SubsetSize(out', all);
  }

  /** The walk for page n ran out of frames after c was set aside: there were too few. */
  lemma Starved(m: Mem, m': Mem, root: nat, n: nat, all: set<nat>, out: set<nat>, out': set<nat>, c: nat,
                g: Grant)
    requires n < USER_PAGES && Owns(m, out, root) && out <= all && out' == all && c in out'
    requires Within(m, m', root, out, out' - {c}) && SameView(m, m', root)
    requires StoppedAt(m, m', root, PathOf(n * PAGE_SIZE), g)
    ensures !CanMap(m, root, {n}, |all - out|) && View(m, root, n) == None
  {
    hide View, Missing, Nodes, NodesOver, StoppedAt, Within, Owns, SameView;
    WalkStopped(m, m', root, n, g);
    NodesTaken(m, m', root, out, out' - {c});
    SplitCount(all, out);
    assert |out' - {c}| == |out'| - 1;
  }

  lemma MappedView(m: Mem, root: nat, n: nat, s: Slot)
    requires Tree(m, root, 4) && n < USER_PAGES && PteSlot(m, root, n, s)
    requires EntryAt(m, s.table, s.index).flags.present && s.index < ENTRIES
    ensures View(m, root, n).Some?
  {
    PteSlotEntry(m, root, n, s);
  }

  /** After filling frame c and walking, giving c back leaves a state that only gained tables. */
  lemma GiveBack(m0: Mem, m1: Mem, m2: Mem, root: nat, out0: set<nat>, out2: set<nat>, c: nat)
    requires Owns(m0, out0, root) && c !in out0
    requires Agree(m0, m1, out0) && Frames(m1, root, 4) == Frames(m0, root, 4) && SameView(m0, m1, root)
    requires KernelHalf(m1, root) == KernelHalf(m0, root)
    requires Within(m1, m2, root, out0 + {c}, out2) && SameView(m1, m2, root)
    requires Frames(m1, root, 4) <= Frames(m2, root, 4)
    ensures c in out2 && out0 <= out2 && Owns(m2, out2, root)
    ensures Within(m0, m2, root, out0, out2 - {c}) && SameView(m0, m2, root)
  {
    hide Tree, Frames, View, FrameAllocator.Valid;
    var a := out0 - Frames(m0, root, 4);
    assert out2 - Frames(m2, root, 4) == a + {c};
  }

  /** Extends the mapped range from oldsz to newsz, or leaves the program's view as it was. */
  method AllocUvm(pm: PhysMem, fa: FrameAllocator, root: nat, oldsz: nat, newsz: nat) returns (r: Result<nat, UvmError>)
    requires fa.Valid() && Owns(pm.mem, fa.out, root) && oldsz < WORD && newsz < WORD
    modifies pm, fa
    ensures fa.Valid() && Within(old(pm.mem), pm.mem, root, old(fa.out), fa.out)
    ensures Frames(old(pm.mem), root, 4) <= Frames(pm.mem, root, 4)
    ensures newsz >= USER_TOP || newsz < oldsz ==> pm.mem == old(pm.mem) && unchanged(fa)
    ensures r == Err(OutsideUserSpace) <==> newsz >= USER_TOP
    ensures newsz < USER_TOP && newsz < oldsz ==> r == Ok(oldsz)
    ensures newsz < USER_TOP && newsz >= oldsz ==>
      (r.Ok? <==> CanMap(old(pm.mem), root, PageRange(PagesFor(oldsz), PagesFor(newsz)), |fa.all - old(fa.out)|))
    ensures newsz >= oldsz && r.Ok? ==>
      r.value == newsz && Mapped(old(pm.mem), pm.mem, root, PagesFor(oldsz), PagesFor(newsz), USER_FLAGS)
    ensures r.Err? ==> SameView(old(pm.mem), pm.mem, root)
    ensures r == Err(AlreadyMapped) ==>
      exists n :: PagesFor(oldsz) <= n < PagesFor(newsz) && View(old(pm.mem), root, n).Some?
    ensures r.Err? && r.error in {FrameAllocFailed, TableAllocFailed} ==>
      |fa.all - fa.out| <= PagesFor(newsz) - PagesFor(oldsz)
    ensures r.Err? ==> r.error in {OutsideUserSpace, FrameAllocFailed, TableAllocFailed, AlreadyMapped}
    ensures TablesKept(old(pm.mem), pm.mem, root)
  {
    hide Tree, Frames, View, Growing, Grown, Mapped, SameView, SameViewExcept, Unmapped, DataFrames, KernelHalf,
      PagesFor, NewPage, Within, Owns, Agree, FrameAllocator.Valid, TablesKept, SamePaths, CanMap, Took, PageRange,
      Nodes, Missing, NodesOver;
    ghost var m0, out0 := pm.mem, fa.out;
    GrowingStart(m0, root, out0, PagesFor(oldsz));
    GrowingDone(m0, m0, root, out0, out0, PagesFor(oldsz), PagesFor(oldsz));
    if newsz >= USER_TOP {
      return Err(OutsideUserSpace);
    }
    if newsz < oldsz {
      return Ok(oldsz);
    }
    var start := PageRoundUp(oldsz).value;
    var addr := start;
    ghost var lo, hi, n := PagesFor(oldsz), PagesFor(newsz), PagesFor(oldsz);
    PageBound(n, newsz);
    OutInAll(fa);
    while addr < newsz
      invariant addr == n * PAGE_SIZE && lo <= n && (addr < newsz <==> n < hi) && (n == lo || n <= hi)
      invariant fa.Valid() && Owns(pm.mem, fa.out, root) && fa.out <= fa.all
      invariant Growing(m0, pm.mem, root, out0, fa.out, lo, n)
      decreases newsz - addr
    {
      ghost var m1, out1 := pm.mem, fa.out;
      PageBound(n, addr);
      var page := GrowPage(pm, fa, root, addr);
      ghost var m2, out2 := pm.mem, fa.out;
      OutInAll(fa);
      if page.Err? {
        GrowingFailed(m0, m1, m2, root, out0, out1, out2, lo, n);
        GrowingDone(m0, m1, root, out0, out1, lo, n);
        NotAllMapped(m0, m1, root, fa.all, out0, out1, lo, n, hi, USER_FLAGS);
        PageBound(lo, addr);
        RollbackAllocUvm(pm, fa, root, start, addr);
        RolledBack(m0, m2, pm.mem, root, out0, out2, fa.out, lo, n);
        if page.error != AlreadyMapped {
          FreeAfterRollback(m2, root, fa.all, out2, fa.out, lo, n);
        }
        return Err(page.error);
      }
      GrowingStep(m0, m1, m2, root, fa.all, out0, out1, out2, lo, n);
      addr := addr + PAGE_SIZE;
      n := n + 1;
      PageBound(n, newsz);
    }
    RoundUpMonotone(oldsz, newsz);
    GrowingDone(m0, pm.mem, root, out0, fa.out, lo, n);
    AllMapped(m0, pm.mem, root, fa.all, out0, fa.out, lo, n, USER_FLAGS);
    r := Ok(newsz);
  }

  /** The state of alloc_uvm's loop: pages lo..n are new and backed by frames that were free. */
  ghost predicate Growing(m0: Mem, m: Mem, root: nat, out0: set<nat>, out: set<nat>, lo: nat, n: nat) {
    Grown(m0, m, root, out0, out, lo, n) && Took(m0, m, root, out0, out, PageRange(lo, n))
  }

  ghost predicate Grown(m0: Mem, m: Mem, root: nat, out0: set<nat>, out: set<nat>, lo: nat, n: nat) {
    && Within(m0, m, root, out0, out)
    && Frames(m0, root, 4) <= Frames(m, root, 4) && out0 <= out && TablesKept(m0, m, root)
    && Mapped(m0, m, root, lo, n, USER_FLAGS)
    && (forall k: nat {:trigger View(m, root, k)} | lo <= k < n && View(m, root, k).Some? ::
          View(m, root, k).value.frame !in out0)
  }

  lemma GrowingStart(m0: Mem, root: nat, out0: set<nat>, lo: nat)
    requires Owns(m0, out0, root)
    ensures Growing(m0, m0, root, out0, out0, lo, lo)
  {
    hide View, Took, PageRange, TablesKept, SamePaths;
    TookNothing(m0, root, out0, lo);
    PathsSame(m0, root);
    SameKeepsTables(m0, m0, root);
  }

  lemma GrowingDone(m0: Mem, m: Mem, root: nat, out0: set<nat>, out: set<nat>, lo: nat, n: nat)
    requires Growing(m0, m, root, out0, out, lo, n)
    ensures Within(m0, m, root, out0, out) && Mapped(m0, m, root, lo, n, USER_FLAGS)
    ensures Frames(m0, root, 4) <= Frames(m, root, 4)
    ensures lo == n ==> SameView(m0, m, root)
    ensures Took(m0, m, root, out0, out, PageRange(lo, n)) && TablesKept(m0, m, root)
  {
    hide View, Took, PageRange, TablesKept;
  }

  /** All pages could be mapped, so there were frames for them. */
  lemma AllMapped(m0: Mem, m: Mem, root: nat, all: set<nat>, out0: set<nat>, out: set<nat>, lo: nat, n: nat, fl: Flags)
    requires Mapped(m0, m, root, lo, n, fl) && Took(m0, m, root, out0, out, PageRange(lo, n)) && out0 <= all
    requires out <= all
    ensures CanMap(m0, root, PageRange(lo, n), |all - out0|)
  {
    hide View, Took, Missing;
    TookMore(m0, m, m, root, all, out0, out, out, PageRange(lo, n), {});
    forall k | k in PageRange(lo, n) && k < USER_PAGES ensures View(m0, root, k) == None {
      var u := View(m, root, k);
    }
  }

  /** Page n could not be mapped after the pages before it, so the range could not be mapped. */
  lemma NotAllMapped(m0: Mem, m: Mem, root: nat, all: set<nat>, out0: set<nat>, out: set<nat>, lo: nat, n: nat, hi: nat,
                     fl: Flags)
    requires Mapped(m0, m, root, lo, n, fl) && Took(m0, m, root, out0, out, PageRange(lo, n)) && out0 <= all
    requires out <= all
    requires lo <= n < hi && n < USER_PAGES && !CanMap(m, root, {n}, |all - out|)
    ensures !CanMap(m0, root, PageRange(lo, hi), |all - out0|)
  {
    hide View, Took, Missing;
    TookMore(m0, m, m, root, all, out0, out, out, PageRange(lo, n), {n});
    assert PageRange(lo, n) + {n} <= PageRange(lo, hi);
    MissingGrows(m0, root, PageRange(lo, n) + {n}, PageRange(lo, hi));
    assert View(m, root, n) == View(m0, root, n);
  }

  lemma RoundUpMonotone(a: nat, b: nat)
    requires a <= b
    ensures PagesFor(a) <= PagesFor(b)
  {}

  lemma GrowingStep(m0: Mem, m1: Mem, m2: Mem, root: nat, all: set<nat>, out0: set<nat>, out1: set<nat>, out2: set<nat>,
                    lo: nat, n: nat)
    requires Growing(m0, m1, root, out0, out1, lo, n) && lo <= n < USER_PAGES && out0 <= all && out1 <= all
    requires Within(m1, m2, root, out1, out2) && Frames(m1, root, 4) <= Frames(m2, root, 4) && out1 <= out2
    requires NewPage(View(m1, root, n), View(m2, root, n), USER_FLAGS)
    requires View(m2, root, n).value.frame !in out1 && SameViewExcept(m1, m2, root, n) && TablesKept(m1, m2, root)
    requires Took(m1, m2, root, out1, out2, {n})
    ensures Growing(m0, m2, root, out0, out2, lo, n + 1) && Owns(m2, out2, root)
  {
    hide View, Tree, Frames, Took, Grown, SameViewExcept, NewPage, Missing, Agree, KernelHalf, TablesKept;
    GrownStep(m0, m1, m2, root, out0, out1, out2, lo, n);
    TookMore(m0, m1, m2, root, all, out0, out1, out2, PageRange(lo, n), {n});
    PageRangeStep(lo, n);
  }

  lemma GrownStep(m0: Mem, m1: Mem, m2: Mem, root: nat, out0: set<nat>, out1: set<nat>, out2: set<nat>, lo: nat, n: nat)
    requires Grown(m0, m1, root, out0, out1, lo, n) && lo <= n < USER_PAGES
    requires Within(m1, m2, root, out1, out2) && Frames(m1, root, 4) <= Frames(m2, root, 4) && out1 <= out2
    requires NewPage(View(m1, root, n), View(m2, root, n), USER_FLAGS)
    requires View(m2, root, n).value.frame !in out1 && SameViewExcept(m1, m2, root, n) && TablesKept(m1, m2, root)
    ensures Grown(m0, m2, root, out0, out2, lo, n + 1)
  {
    hide View, Tree, Frames, TablesKept;
    KeptAgain(m0, m1, m2, root);
    forall k: nat | k < USER_PAGES
      ensures
        if lo <= k < n + 1 then NewPage(View(m0, root, k), View(m2, root, k), USER_FLAGS)
        else View(m2, root, k) == View(m0, root, k)
    {
      assert View(m1, root, k) == View(m1, root, k);
    }
    assert Mapped(m0, m2, root, lo, n + 1, USER_FLAGS);
    assert Within(m0, m2, root, out0, out2);
  }

  /** The page n failed; the walk may have left new tables. */
  lemma GrowingFailed(m0: Mem, m1: Mem, m2: Mem, root: nat, out0: set<nat>, out1: set<nat>, out2: set<nat>, lo: nat,
                      n: nat)
    requires Growing(m0, m1, root, out0, out1, lo, n) && lo <= n < USER_PAGES
    requires Within(m1, m2, root, out1, out2) && Frames(m1, root, 4) <= Frames(m2, root, 4)
    requires SameView(m1, m2, root) && TablesKept(m1, m2, root)
    ensures Grown(m0, m2, root, out0, out2, lo, n) && Owns(m2, out2, root)
    ensures View(m1, root, n) == View(m0, root, n)
  {
    hide View, Tree, Frames, Took, TablesKept;
    KeptAgain(m0, m1, m2, root);
    forall k: nat | k < USER_PAGES
      ensures
        if lo <= k < n then NewPage(View(m0, root, k), View(m2, root, k), USER_FLAGS)
        else View(m2, root, k) == View(m0, root, k)
    {
      assert View(m1, root, k) == View(m1, root, k);
    }
    forall g | g in out1 ensures g in out2 {
      assert g in Frames(m1, root, 4) || g in out1 - Frames(m1, root, 4);
    }
    assert Mapped(m0, m2, root, lo, n, USER_FLAGS);
    assert Within(m0, m2, root, out0, out2);
  }

  lemma RolledBack(m0: Mem, m2: Mem, m3: Mem, root: nat, out0: set<nat>, out2: set<nat>, out3: set<nat>, lo: nat,
                   n: nat)
    requires lo <= n < USER_PAGES && Owns(m0, out0, root)
    requires Grown(m0, m2, root, out0, out2, lo, n)
    requires Unmapped(m2, m3, root, lo, n) && SamePaths(m2, m3, root)
    requires Within(m2, m3, root, out2, out3) && out3 == out2 - DataFrames(m2, root, lo, n)
    ensures Within(m0, m3, root, out0, out3)
    ensures SameView(m0, m3, root) && Frames(m0, root, 4) <= Frames(m3, root, 4) && TablesKept(m0, m3, root)
  {
    hide View, Tree, Frames, TablesKept, SamePaths;
    SameKeepsTables(m2, m3, root);
    KeptAgain(m0, m2, m3, root);
    forall k: nat | k < USER_PAGES ensures View(m3, root, k) == View(m0, root, k) {
      assert View(m2, root, k) == View(m2, root, k);
    }
    forall g | g in Frames(m0, root, 4) ensures g in Frames(m3, root, 4) {
      assert g in out0 && g in out3;
    }
  }

  /** Memory ran out at page n: after the rollback at most n - lo + 1 frames are free. */
  lemma FreeAfterRollback(m: Mem, root: nat, all: set<nat>, out2: set<nat>, out3: set<nat>, lo: nat, n: nat)
    requires lo <= n && out3 == out2 - DataFrames(m, root, lo, n)
    requires exists c :: all - out2 <= {c}
    ensures |all - out3| <= n - lo + 1
  {
    hide View, DataFrames;
    var c :| all - out2 <= {c};
    var d := DataFrames(m, root, lo, n);
    DataFramesCount(m, root, lo, n);
    assert all - out3 <= d + {c};
    SubsetSize(all - out3, d + {c});
  }

  lemma {:induction false} DataFramesCount(m: Mem, root: nat, lo: nat, hi: nat)
    requires lo <= hi
    ensures |DataFrames(m, root, lo, hi)| <= hi - lo
    decreases hi
  {
    hide View;
    if lo < hi {
      DataFramesCount(m, root, lo, hi - 1);
      DataFramesStep(m, root, lo, hi - 1);
    }
  }
}

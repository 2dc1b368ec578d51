/** Mapping fresh zeroed pages, through the mapper of the x86_64 crate. */
module Mapper {
  import opened Basics
  import opened PageTree
  import opened AddressSpace
  import opened FrameAlloc
  import opened TableEntries
  import opened Walker
  import opened TreeNodes
  import opened TableRights
  import opened UserMemory

  datatype MapError = FrameAllocFailed | MapToFailed

  predicate Contains(fl: Flags, part: Flags) {
    fl.Union(part) == fl
  }

  /** The flags a mapping asks of the tables above it. */
  function ParentFlags(fl: Flags): Flags {
    Flags(fl.present, fl.writable, fl.user, false, {})
  }

  /** More flags on the entry of a table: the tree and the leaf map stay. */
  lemma Reflag(m: Mem, m': Mem, root: nat, out: set<nat>, q: seq<nat>, t: nat, i: nat, e: Entry, insert: Flags)
    requires Owns(m, out, root) && |q| < 3 && Resolve(m, root, 4, q) == Some(t) && Present(m, t, 4 - |q|, i)
    requires IsTable(m, t) && i < ENTRIES && m' == Written(m, t, i, e)
    requires e.frame == EntryAt(m, t, i).frame && e.flags.present && !e.flags.huge
    requires e.flags == EntryAt(m, t, i).flags.Union(insert)
    ensures Within(m, m', root, out, out) && SameView(m, m', root)
    ensures Frames(m', root, 4) == Frames(m, root, 4)
    ensures Resolve(m', root, 4, q + [i]) == Some(e.frame)
    ensures TableAdded(m, m', root, q + [i], AtLeast(insert))
  {
    hide View, TableAdded, Frames, Sub, Subs, Leaf;
    var k := 4 - |q|;
    ResolveTree(m, root, 4, q);
    ReflagSpliced(m, m', root, q, t, i, e);
    Splice(m, m', root, 4, q, t, i);
    SlotKept(m, m', root, q, t, i);
    SubInFrames(m, t, k, i);
    RootInFrames(m, t, k);
    ReflagLeaves(m, m', root, q, t, i, e);
    ReflagTables(m, m', root, q, t, i, e, insert);
    forall n: nat | n < USER_PAGES ensures View(m', root, n) == View(m, root, n) {
      ViewKept(m, m', root, t, n);
    }
  }

  /** Only the entry that was written has other flags. */
  lemma ReflagTables(m: Mem, m': Mem, root: nat, q: seq<nat>, t: nat, i: nat, e: Entry, insert: Flags)
    requires Tree(m, root, 4) && |q| < 3 && Resolve(m, root, 4, q) == Some(t) && Present(m, t, 4 - |q|, i)
    requires IsTable(m, t) && i < ENTRIES && m' == Written(m, t, i, e)
    requires e.frame == EntryAt(m, t, i).frame && e.flags.present && !e.flags.huge
    requires e.flags == EntryAt(m, t, i).flags.Union(insert)
    ensures TableAdded(m, m', root, q + [i], AtLeast(insert))
  {
    hide Tree, Frames, Sub, Subs, Resolve, EntryTo;
    ReflagSpliced(m, m', root, q, t, i, e);
    ReflagLeaves(m, m', root, q, t, i, e);
    forall p: seq<nat> | 1 <= |p| <= 3
      ensures EntryTo(m', root, p) ==
        if p == q + [i] then Some(Granted(EntryTo(m, root, p), AtLeast(insert))) else EntryTo(m, root, p)
    {
      if p == q + [i] {
        EntryThere(m, root, q, t, i);
        EntryThere(m', root, q, t, i);
      } else {
        EntryOutside(m, m', root, q, t, i, p);
      }
    }
  }

  lemma EntryThere(m: Mem, root: nat, q: seq<nat>, t: nat, i: nat)
    requires |q| < 4 && Resolve(m, root, 4, q) == Some(t) && Present(m, t, 4 - |q|, i)
    ensures EntryTo(m, root, q + [i]) == Some(EntryAt(m, t, i).flags)
  {
    assert (q + [i])[..|q|] == q;
  }

  lemma ReflagSpliced(m: Mem, m': Mem, root: nat, q: seq<nat>, t: nat, i: nat, e: Entry)
    requires Tree(m, root, 4) && |q| < 3 && Resolve(m, root, 4, q) == Some(t) && Present(m, t, 4 - |q|, i)
    requires IsTable(m, t) && i < ENTRIES && m' == Written(m, t, i, e)
    requires e.frame == EntryAt(m, t, i).frame && e.flags.present && !e.flags.huge
    ensures Spliced(m, m', root, 4, q, t, i)
    ensures Sub(m', t, 4 - |q|, i) == Sub(m, t, 4 - |q|, i)
    ensures forall p {:trigger Leaf(m', e.frame, 3 - |q|, p)} ::
      Leaf(m', e.frame, 3 - |q|, p) == Leaf(m, e.frame, 3 - |q|, p)
    ensures forall p {:trigger Resolve(m', e.frame, 3 - |q|, p)} ::
      Resolve(m', e.frame, 3 - |q|, p) == Resolve(m, e.frame, 3 - |q|, p)
  {
    var k := 4 - |q|;
    ResolveTree(m, root, 4, q);
    assert Tree(m, t, k);
    assert t !in Sub(m, t, k, i);
    TreeFrame(m, m', e.frame, k - 1);
  }

  lemma ReflagLeaves(m: Mem, m': Mem, root: nat, q: seq<nat>, t: nat, i: nat, e: Entry)
    requires Tree(m, root, 4) && |q| < 3 && Resolve(m, root, 4, q) == Some(t) && Present(m, t, 4 - |q|, i)
    requires IsTable(m, t) && i < ENTRIES && m' == Written(m, t, i, e)
    requires e.frame == EntryAt(m, t, i).frame && e.flags.present && !e.flags.huge
    requires Spliced(m, m', root, 4, q, t, i)
    ensures forall p {:trigger Leaf(m', root, 4, p)} | |p| == 4 :: Leaf(m', root, 4, p) == Leaf(m, root, 4, p)
    ensures forall p {:trigger Resolve(m', root, 4, p)} :: Resolve(m', root, 4, p) == Resolve(m, root, 4, p)
    ensures Resolve(m', root, 4, q + [i]) == Some(e.frame)
  {
    hide Tree, Frames, Sub, Subs;
    ReflagSpliced(m, m', root, q, t, i, e);
    Splice(m, m', root, 4, q, t, i);
    assert Resolve(m', root, 4, q) == Some(t);
    ResolveSplit(m', root, 4, q, q + [i]);
    assert (q + [i])[|q|..] == [i];
    forall p
      ensures Leaf(m', root, 4, p) == Leaf(m, root, 4, p)
      ensures Resolve(m', root, 4, p) == Resolve(m, root, 4, p)
    {
      if q + [i] <= p {
        ResolveSplit(m, root, 4, q, p);
        ResolveSplit(m', root, 4, q, p);
        assert p[|q|..][0] == p[|q|] == (q + [i])[|q|] == i;
      }
    }
  }

  /** The mapper's step to the next level: an unused entry gets a new table, a used one at least the flags. */
  method CreateNextTable(pm: PhysMem, fa: FrameAllocator, ghost root: nat, ghost q: seq<nat>, table: nat, index: nat,
                         insert: Flags)
    returns (r: Option<nat>)
    requires fa.Valid() && Owns(pm.mem, fa.out, root) && insert.present && !insert.huge
    requires |q| < 3 && Resolve(pm.mem, root, 4, q) == Some(table) && index < Limit(4 - |q|)
    modifies pm, fa
    ensures fa.Valid() && Within(old(pm.mem), pm.mem, root, old(fa.out), fa.out)
    ensures SameView(old(pm.mem), pm.mem, root)
    ensures Frames(old(pm.mem), root, 4) <= Frames(pm.mem, root, 4)
    ensures r.Some? ==> Resolve(pm.mem, root, 4, q + [index]) == r
    ensures r.Some? ==>
      EntryAt(pm.mem, table, index).frame == r.value && Contains(EntryAt(pm.mem, table, index).flags, insert)
    ensures r.Some? ==> TableAdded(old(pm.mem), pm.mem, root, q + [index], AtLeast(insert))
    ensures r.None? ==> fa.out == fa.all && pm.mem == old(pm.mem) && Resolve(pm.mem, root, 4, q + [index]) == None
  {
    hide Tree, Frames, View, FrameAllocator.Valid, Within, TableAdded;
    ghost var m0, out0, h := pm.mem, fa.out, 4 - |q|;
    TableSlot(m0, root, q, table, index);
    var entry := pm.mem[table].entries[index];
    if !entry.flags.present {
      var frame := fa.AllocateFrame();
      if frame.None? {
        WithinReflexive(m0, root, out0);
        return None;
      }
      pm.mem := pm.mem[frame.value := EmptyTable()];
      pm.SetEntry(table, index, Entry(frame.value, insert));
      NotInTree(m0, root, out0, frame.value);
      AttachTableWithin(m0, pm.mem, root, out0, q, table, index, frame.value, Entry(frame.value, insert));
      AttachTables(m0, pm.mem, root, q, table, index, frame.value, Entry(frame.value, insert));
      r := frame;
    } else {
      if !Contains(entry.flags, insert) {
        pm.SetEntry(table, index, Entry(entry.frame, entry.flags.Union(insert)));
      } else {
        assert m0[table].entries[index := entry] == m0[table].entries;
      }
      Reflag(m0, pm.mem, root, out0, q, table, index, pm.mem[table].entries[index], insert);
      r := Some(entry.frame);
    }
  }

  lemma NotInTree(m: Mem, root: nat, out: set<nat>, f: nat)
    requires Owns(m, out, root) && f !in out
    ensures f !in Frames(m, root, 4)
  {}

  lemma WithinReflexive(m: Mem, root: nat, out: set<nat>)
    requires Owns(m, out, root)
    ensures Within(m, m, root, out, out)
  {}

  lemma TableSlot(m: Mem, root: nat, q: seq<nat>, t: nat, i: nat)
    requires Tree(m, root, 4) && |q| < 4 && Resolve(m, root, 4, q) == Some(t) && i < Limit(4 - |q|)
    ensures IsTable(m, t) && i < ENTRIES && t in Frames(m, root, 4)
    ensures m[t].entries[i].flags.present ==> Present(m, t, 4 - |q|, i) && !m[t].entries[i].flags.huge
    ensures !m[t].entries[i].flags.present ==> !Present(m, t, 4 - |q|, i) && Resolve(m, root, 4, q + [i]) == None
  {
    ResolveSplit(m, root, 4, q, q + [i]);
    assert (q + [i])[|q|..] == [i];
    ResolveTree(m, root, 4, q);
    RootInFrames(m, t, 4 - |q|);
    assert Tree(m, t, 4 - |q|);
    assert EntryOk(EntryAt(m, t, i));
  }

  /** map_to up to its last write: makes the tables above and finds the entry, which must be unused. */
  method MapToSlot(pm: PhysMem, fa: FrameAllocator, root: nat, page: nat, flags: Flags) returns (r: Option<Slot>)
    requires fa.Valid() && Owns(pm.mem, fa.out, root) && page < USER_PAGES && flags.present && !flags.huge
    modifies pm, fa
    ensures fa.Valid() && Within(old(pm.mem), pm.mem, root, old(fa.out), fa.out)
    ensures SameView(old(pm.mem), pm.mem, root)
    ensures Frames(old(pm.mem), root, 4) <= Frames(pm.mem, root, 4)
    ensures r.Some? ==> PteSlot(pm.mem, root, page, r.value) && View(pm.mem, root, page) == None
    ensures r.Some? ==> 
      TablesAdded(old(pm.mem), pm.mem, root, PathOf(page * PAGE_SIZE), 3, AtLeast(ParentFlags(flags)))
    ensures r.None? ==>
      || View(pm.mem, root, page).Some?
      || (fa.out == fa.all
          && StoppedAt(old(pm.mem), pm.mem, root, PathOf(page * PAGE_SIZE), AtLeast(ParentFlags(flags))))
  {
    hide Tree, Frames, View, FrameAllocator.Valid, SamePaths, TableAdded, TablesAdded, StoppedAt, Resolve, Within, Owns,
      SameView, Agree;
    var va := page * PAGE_SIZE;
    ghost var p, m0, out0 := PathOf(va), pm.mem, fa.out;
    PageIndices(page);
    assert [] + [p[0]] == p[..1] && p[..1] + [p[1]] == p[..2] && p[..2] + [p[2]] == p[..3];
    ghost var g := AtLeast(ParentFlags(flags));
    NoTablesAdded(m0, root, p, g);
    RootResolves(m0, root, out0);
    var insert := ParentFlags(flags);
    var pdpt := CreateNextTable(pm, fa, root, [], root, Pml4Index(va), insert);
    ghost var m1, out1 := pm.mem, fa.out;
    OnlyGrown(m0, m0, m1, root, out0, out0, out1);
    if pdpt.None? {
      StoppedHere(m0, m1, root, p, 0, g, true);
      return None;
    }
    NextTableAdded(m0, m0, m1, root, p, 0, g);
    var pd := CreateNextTable(pm, fa, root, p[..1], pdpt.value, PdptIndex(va), insert);
    ghost var m2, out2 := pm.mem, fa.out;
    OnlyGrown(m0, m1, m2, root, out0, out1, out2);
    if pd.None? {
      StoppedHere(m0, m2, root, p, 1, g, true);
      return None;
    }
    NextTableAdded(m0, m1, m2, root, p, 1, g);
    var pt := CreateNextTable(pm, fa, root, p[..2], pd.value, PdIndex(va), insert);
    OnlyGrown(m0, m2, pm.mem, root, out0, out2, fa.out);
    if pt.None? {
      StoppedHere(m0, pm.mem, root, p, 2, g, true);
      return None;
    }
    NextTableAdded(m0, m2, pm.mem, root, p, 2, g);
    r := Some(Slot(pt.value, PtIndex(va)));
    SlotFound(pm.mem, root, fa.out, page, r.value);
    if pm.mem[pt.value].entries[PtIndex(va)].flags.present {
      r := None;
    }
  }

  lemma SlotFound(m: Mem, root: nat, out: set<nat>, page: nat, s: Slot)
    requires Owns(m, out, root) && page < USER_PAGES
    requires Resolve(m, root, 4, PathOf(page * PAGE_SIZE)[..3]) == Some(s.table) && s.index == PtIndex(page * PAGE_SIZE)
    ensures PteSlot(m, root, page, s) && IsTable(m, s.table) && s.index < ENTRIES
    ensures View(m, root, page).Some? <==> m[s.table].entries[s.index].flags.present
  {
    hide View;
    SlotView(m, root, page, s);
  }

  /** Like Within, but frames may have been lost: taken from the allocator and put into no tree. */
  ghost predicate Leaking(m: Mem, m': Mem, root: nat, out: set<nat>, out': set<nat>) {
    && Owns(m', out', root)
    && out <= out'
    && out - Frames(m, root, 4) <= out' - Frames(m', root, 4)
    && Agree(m, m', out - Frames(m, root, 4))
    && KernelHalf(m', root) == KernelHalf(m, root)
  }

  /** Maps page to a new zeroed frame.  If the mapping fails, the frame is lost. */
  method MapPage(pm: PhysMem, fa: FrameAllocator, root: nat, page: nat, flags: Flags) returns (r: Result<(), MapError>)
    requires fa.Valid() && Owns(pm.mem, fa.out, root) && page < USER_PAGES && flags.present && !flags.huge
    modifies pm, fa
    ensures fa.Valid() && Leaking(old(pm.mem), pm.mem, root, old(fa.out), fa.out)
    ensures r.Ok? ==>
      && Within(old(pm.mem), pm.mem, root, old(fa.out), fa.out)
      && NewPage(View(old(pm.mem), root, page), View(pm.mem, root, page), flags)
      && SameViewExcept(old(pm.mem), pm.mem, root, page)
      && Took(old(pm.mem), pm.mem, root, old(fa.out), fa.out, {page})
      && TablesAdded(old(pm.mem), pm.mem, root, PathOf(page * PAGE_SIZE), 3, AtLeast(ParentFlags(flags)))
    ensures r.Err? ==> SameView(old(pm.mem), pm.mem, root)
    ensures r.Ok? <==> CanMap(old(pm.mem), root, {page}, |fa.all - old(fa.out)|)
    ensures r == Err(MapError.FrameAllocFailed) ==> fa.out == fa.all
    ensures r == Err(MapToFailed) ==> fa.out == fa.all || View(old(pm.mem), root, page).Some?
  {
    hide Tree, Frames, View, FrameAllocator.Valid, Nodes, Missing, NodesOver, TablesAdded, StoppedAt, CanMap, Took,
      SamePaths, Resolve, KernelHalf, SameView, SameViewExcept, PathOf, Within, Owns, Agree, PteSlot, NewPage, Leaking;
    ghost var m0, out0 := pm.mem, fa.out;
    OutInAll(fa);
    LeakingNothing(m0, root, out0);
    var frame := fa.AllocateFrame();
    if frame.None? {
      NoFrameLeft(m0, root, page, fa.all, out0);
      RootResolves(m0, root, out0);
      return Err(MapError.FrameAllocFailed);
    }
    var c := frame.value;
    pm.mem := pm.mem[c := ZeroPage()];
    ghost var m1 := pm.mem;
    FreshPage(m0, m1, root, out0, c);
    var pte := MapToSlot(pm, fa, root, page, flags);
    ghost var m2 := pm.mem;
    GiveBack(m0, m1, m2, root, out0, fa.out, c);
    OutInAll(fa);
    if pte.None? {
      FrameLost(m0, m2, root, out0, fa.out, c);
      MapRefused(m0, m1, m2, root, page, fa.all, out0, fa.out, c, AtLeast(ParentFlags(flags)));
      return Err(MapToFailed);
    }
    EntryIsThere(m2, root, fa.out, page, pte.value);
    EntryUnused(m2, root, fa.out, page, pte.value);
    pm.SetEntry(pte.value.table, pte.value.index, Entry(c, flags));
    PageGrown(m0, m1, m2, pm.mem, root, fa.all, out0, fa.out, c, page, pte.value, flags,
      AtLeast(ParentFlags(flags)));
    WithinLeaks(m0, pm.mem, root, out0, fa.out);
    r := Ok(());
  }

  lemma EntryUnused(m: Mem, root: nat, out: set<nat>, page: nat, s: Slot)
    requires Owns(m, out, root) && page < USER_PAGES && PteSlot(m, root, page, s) && View(m, root, page) == None
    requires IsTable(m, s.table) && s.index < ENTRIES
    ensures !m[s.table].entries[s.index].flags.present
  {
    hide View;
    SlotView(m, root, page, s);
  }

  lemma LeakingNothing(m: Mem, root: nat, out: set<nat>)
    requires Owns(m, out, root)
    ensures Leaking(m, m, root, out, out)
  {}

  lemma WithinLeaks(m: Mem, m': Mem, root: nat, out: set<nat>, out': set<nat>)
    requires Within(m, m', root, out, out') && Frames(m, root, 4) <= Frames(m', root, 4) && Owns(m, out, root)
    ensures Leaking(m, m', root, out, out')
  {
    hide Tree, Frames, KernelHalf;
    forall g | g in out ensures g in out' {
      assert g in Frames(m, root, 4) || g in out - Frames(m, root, 4);
    }
    assert Agree(m, m', out - Frames(m, root, 4));
  }

  /** The frame c belongs to no tree and is not given back. */
  lemma FrameLost(m: Mem, m': Mem, root: nat, out: set<nat>, out': set<nat>, c: nat)
    requires Owns(m, out, root) && Within(m, m', root, out, out' - {c}) && out <= out' && Owns(m', out', root)
    ensures Leaking(m, m', root, out, out')
  {
    hide Tree, Frames, KernelHalf;
    assert out' - {c} - Frames(m', root, 4) <= out' - Frames(m', root, 4);
    assert Agree(m, m', out - Frames(m, root, 4)) && KernelHalf(m', root) == KernelHalf(m, root);
  }

  lemma MapRefused(m0: Mem, m1: Mem, m2: Mem, root: nat, page: nat, all: set<nat>, out: set<nat>, out2: set<nat>,
                   c: nat, g: Grant)
    requires page < USER_PAGES && Owns(m0, out, root) && out <= all && out2 <= all && c in out2
    requires SamePaths(m0, m1, root) && Within(m0, m2, root, out, out2 - {c}) && SameView(m0, m2, root)
    requires View(m2, root, page).Some? || (out2 == all && StoppedAt(m1, m2, root, PathOf(page * PAGE_SIZE), g))
    ensures !CanMap(m0, root, {page}, |all - out|) && (out2 == all || View(m0, root, page).Some?)
  {
    hide View, Missing, Nodes, NodesOver, StoppedAt, Within, Owns, SamePaths, CanMap;
    if View(m2, root, page).Some? {
      assert View(m2, root, page) == View(m0, root, page);
      CannotRemap(m0, root, page, |all - out|);
    } else {
      StoppedJoin(m0, m1, m2, root, PathOf(page * PAGE_SIZE), g);
      Starved(m0, m2, root, page, all, out, out2, c, g);
    }
  }

  /** Maps num pages from start on, one by one. */
  method MapPages(pm: PhysMem, fa: FrameAllocator, root: nat, start: nat, num: nat,
                  flags: Flags) returns (r: Result<(), MapError>)
    requires fa.Valid() && Owns(pm.mem, fa.out, root) && start + num <= USER_PAGES && flags.present && !flags.huge
    modifies pm, fa
    ensures fa.Valid() && Leaking(old(pm.mem), pm.mem, root, old(fa.out), fa.out)
    ensures r.Ok? ==>
      && Within(old(pm.mem), pm.mem, root, old(fa.out), fa.out)
      && Mapped(old(pm.mem), pm.mem, root, start, start + num, flags)
      && Took(old(pm.mem), pm.mem, root, old(fa.out), fa.out, PageRange(start, start + num))
      && TablesFor(old(pm.mem), pm.mem, root, PageRange(start, start + num), AtLeast(ParentFlags(flags)))
    ensures r.Ok? <==> CanMap(old(pm.mem), root, PageRange(start, start + num), |fa.all - old(fa.out)|)
  {
    hide Tree, Frames, View, FrameAllocator.Valid, SameViewExcept, SameView, Took, CanMap, Leaking, Within, Owns,
      Mapped, Mapping, PageRange, NewPage, Agree, KernelHalf, TablesAdded, TablesFor;
    ghost var m0, out0 := pm.mem, fa.out;
    MappingNothing(m0, root, out0, start, flags);
    OutInAll(fa);
    for i := 0 to num
      invariant fa.Valid() && Owns(pm.mem, fa.out, root) && fa.out <= fa.all
      invariant Mapping(m0, pm.mem, root, out0, fa.out, start, start + i, flags)
    {
      ghost var m, out := pm.mem, fa.out;
      r := MapPage(pm, fa, root, start + i, flags);
      OutInAll(fa);
      MappingMeans(m0, m, root, out0, out, start, start + i, flags);
      if r.Err? {
        NotAllMapped(m0, m, root, fa.all, out0, out, start, start + i, start + num, flags);
        LeaksMore(m0, m, pm.mem, root, out0, out, fa.out);
        return;
      }
      LeaksMore(m0, m, pm.mem, root, out0, out, fa.out);
      TablesForOne(m, pm.mem, root, start + i, AtLeast(ParentFlags(flags)));
      MappingStep(m0, m, pm.mem, root, fa.all, out0, out, fa.out, start, start + i, flags);
    }
    MappingMeans(m0, pm.mem, root, out0, fa.out, start, start + num, flags);
    AllMapped(m0, pm.mem, root, fa.all, out0, fa.out, start, start + num, flags);
    r := Ok(());
  }

  /** The state of a loop that maps new pages: pages lo..n are done. */
  ghost predicate Mapping(m0: Mem, m: Mem, root: nat, out0: set<nat>, out: set<nat>, lo: nat, n: nat, flags: Flags) {
    && Within(m0, m, root, out0, out) && Leaking(m0, m, root, out0, out)
    && Mapped(m0, m, root, lo, n, flags) && Took(m0, m, root, out0, out, PageRange(lo, n))
    && TablesFor(m0, m, root, PageRange(lo, n), AtLeast(ParentFlags(flags)))
  }

  lemma MappingMeans(m0: Mem, m: Mem, root: nat, out0: set<nat>, out: set<nat>, lo: nat, n: nat, flags: Flags)
    requires Mapping(m0, m, root, out0, out, lo, n, flags)
    ensures Within(m0, m, root, out0, out) && Leaking(m0, m, root, out0, out)
    ensures Mapped(m0, m, root, lo, n, flags) && Took(m0, m, root, out0, out, PageRange(lo, n))
    ensures TablesFor(m0, m, root, PageRange(lo, n), AtLeast(ParentFlags(flags)))
  {}

  lemma MappingNothing(m: Mem, root: nat, out: set<nat>, lo: nat, flags: Flags)
    requires Owns(m, out, root)
    ensures Mapping(m, m, root, out, out, lo, lo, flags)
  {
    hide View, Took, TablesFor, SamePaths;
    TookNothing(m, root, out, lo);
    PathsSame(m, root);
    TablesForNone(m, m, root, AtLeast(ParentFlags(flags)));
    LeakingNothing(m, root, out);
  }

  lemma LeaksMore(m0: Mem, m: Mem, m': Mem, root: nat, out0: set<nat>, out: set<nat>, out': set<nat>)
    requires Leaking(m0, m, root, out0, out) && Leaking(m, m', root, out, out')
    ensures Leaking(m0, m', root, out0, out')
    ensures Within(m0, m, root, out0, out) && Within(m, m', root, out, out') ==> Within(m0, m', root, out0, out')
  {
    hide Tree, Frames, KernelHalf;
  }

  lemma MappingStep(m0: Mem, m: Mem, m': Mem, root: nat, all: set<nat>, out0: set<nat>, out: set<nat>, out': set<nat>,
                    lo: nat, n: nat, flags: Flags)
    requires Mapping(m0, m, root, out0, out, lo, n, flags) && lo <= n < USER_PAGES && out0 <= all && out <= all
    requires Within(m0, m', root, out0, out') && Leaking(m0, m', root, out0, out')
    requires SameViewExcept(m, m', root, n) && NewPage(View(m, root, n), View(m', root, n), flags)
    requires Took(m, m', root, out, out', {n}) && TablesFor(m, m', root, {n}, AtLeast(ParentFlags(flags)))
    ensures Mapping(m0, m', root, out0, out', lo, n + 1, flags) && Owns(m', out', root)
  {
    hide View, Took, Within, Leaking, Mapped, NewPage, SameViewExcept, Missing, PageRange, TablesFor;
    MappingMeans(m0, m, root, out0, out, lo, n, flags);
    MappedStep(m0, m, m', root, lo, n, flags);
    TookMore(m0, m, m', root, all, out0, out, out', PageRange(lo, n), {n});
    TablesForMore(m0, m, m', root, PageRange(lo, n), {n}, AtLeast(ParentFlags(flags)));
    PageRangeStep(lo, n);
    OwnsAfter(m0, m', root, out0, out');
  }

  lemma OwnsAfter(m: Mem, m': Mem, root: nat, out: set<nat>, out': set<nat>)
    requires Within(m, m', root, out, out')
    ensures Owns(m', out', root)
  {}

  lemma MappedStep(m0: Mem, m: Mem, m': Mem, root: nat, lo: nat, n: nat, flags: Flags)
    requires Mapped(m0, m, root, lo, n, flags) && lo <= n < USER_PAGES && SameViewExcept(m, m', root, n)
    requires NewPage(View(m, root, n), View(m', root, n), flags)
    ensures Mapped(m0, m', root, lo, n + 1, flags)
  {
    hide View;
    forall k: nat | k < USER_PAGES
      ensures
        if lo <= k < n + 1 then NewPage(View(m0, root, k), View(m', root, k), flags)
        else View(m', root, k) == View(m0, root, k)
    {
      assert View(m, root, k) == View(m, root, k);
    }
  }
}

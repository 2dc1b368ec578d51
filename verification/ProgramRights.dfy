/** What programs may do with the pages that exec, sbrk and fork give them. */
module ProgramRights {
  import opened Basics
  import opened PageTree
  import opened AddressSpace
  import opened FrameAlloc
  import opened TableEntries
  import opened Walker
  import opened TreeNodes
  import opened TableRights
  import opened UserMemory
  import opened Mapper
  import opened UserBytes
  import opened TreeCopy
  import opened HeapGrowth
  import opened Elf
  import opened Argv
  import opened Exec
  import opened Tables
  import opened FrameLedger

  /** In every process a program may use exactly the pages whose own entry says so; it never may write to a page
    * whose own entry has no write bit. */
  lemma ProcessRights(s: State, m: Mem, out: set<nat>, owner: map<nat, Owner>, kernel: seq<Entry>, p: nat, n: nat)
    requires Ledger(s, m, out, owner, kernel) && InUse(s, p) && n < USER_PAGES
    ensures var page, rights := View(m, TableOf(s, p), n), Effective(m, TableOf(s, p), n);
      && (rights.Some? <==> page.Some?)
      && (page.Some? ==> rights.value.user == page.value.flags.user)
      && (page.Some? && rights.value.writable ==> page.value.flags.writable)
  {
    hide View, Effective, Tree, Frames, KernelHalf, TablesOpen;
    assert SpaceOk(s, m, owner, kernel, p);
    EffectiveRights(m, TableOf(s, p), n);
  }

  /** A forked child may do with each page what its parent may. */
  lemma CopyRights(m: Mem, parent: nat, m': Mem, child: nat, n: nat)
    requires SameTree(m, parent, m', child, 4)
    ensures Effective(m', child, n) == Effective(m, parent, n)
  {
    hide EntryTo, SameTree;
    SameTreeEntries(m, parent, m', child);
  }

  /** The pages of an image, with the guard page and the stack. */
  ghost function ImageAndStack(segments: seq<Segment>): set<nat> {
    ImagePages(segments) + PageRange(GUARD, STACK_END)
  }

  /** The pages of an image that brought the write bit to the tables above them. */
  ghost function Writers(segments: seq<Segment>): set<nat> {
    FirstWritten(segments) + PageRange(GUARD, STACK_END)
  }

  lemma {:induction false} ImageInUserHalf(segments: seq<Segment>)
    requires InUserHalf(segments)
    ensures forall n | n in ImagePages(segments) :: n < USER_PAGES
  {
    if segments != [] {
      var k := |segments| - 1;
      assert segments[k] in segments && forall s | s in segments[..k] :: s in segments;
      ImageInUserHalf(segments[..k]);
    }
  }

  /** In a new image the flags of a page decide whether the program may use it.  It may write to the page exactly
    * if its flags say so and one of the 512 pages of its page table is a stack page or was first needed by a
    * writable segment. */
  lemma ImageRights(m: Mem, segments: seq<Segment>, argv: seq<seq<byte>>, strings: seq<nat>, e: ExecImage, n: nat)
    requires ImageBuilt(m, segments, argv, strings, e) && BuiltTables(m, e.pageTable, segments) && InUserHalf(segments)
    requires n in ImageAndStack(segments)
    ensures var page, rights := View(m, e.pageTable, n), Effective(m, e.pageTable, n);
      && page.Some? && rights.Some? && rights.value.user == page.value.flags.user && (n == GUARD ==> !rights.value.user)
      && (rights.value.writable <==>
            page.value.flags.writable && exists x :: x in Writers(segments) && x / 512 == n / 512)
  {
    hide View, Effective, ImageTables, FlagsOf, ByteAt, ByteOf, StackBuilt, ImagePages, FirstWritten;
    ImageInUserHalf(segments);
    ImagePagesFlags(segments, n);
    var page := View(m, e.pageTable, n);
    ImageMayWrite(m, e.pageTable, ImageAndStack(segments), Writers(segments), n);
  }

  /** After any growth and shrinking of the heap: of the tables above a page, those that the image came with decide
    * together with the page's own entry, for later ones have the write bit. */
  lemma HeapRights(m0: Mem, m: Mem, root: nat, segments: seq<Segment>, n: nat)
    requires BuiltTables(m0, root, segments) && TablesKept(m0, m, root) && InUserHalf(segments)
    requires n < USER_PAGES && View(m, root, n).Some?
    ensures Effective(m, root, n).Some? && Effective(m, root, n).value.user == View(m, root, n).value.flags.user
    ensures Effective(m, root, n).value.writable <==>
      && View(m, root, n).value.flags.writable
      && forall k | 1 <= k <= 3 ::
           NodeOf(n, k) in Above(ImageAndStack(segments), k) ==> NodeOf(n, k) in Above(Writers(segments), k)
  {
    hide View, Effective, ImageTables, ImagePages, FirstWritten, TablesKept, NodeOf, Above;
    ImageInUserHalf(segments);
    ProgramMayWrite(m0, m, root, ImageAndStack(segments), Writers(segments), n);
  }

  /** A new heap page next to read-only pages: the kernel's copies store in it, the program cannot. */
  lemma HeapBesideReadOnly(m0: Mem, m: Mem, root: nat, segments: seq<Segment>, lo: nat, hi: nat, n: nat, x: nat)
    requires BuiltTables(m0, root, segments) && TablesKept(m0, m, root) && InUserHalf(segments)
    requires Mapped(m0, m, root, lo, hi, USER_FLAGS) && lo <= n < hi && n < USER_PAGES
    requires x in ImageAndStack(segments) && x / 512 == n / 512
    requires forall y | y in Writers(segments) :: y / 512 != n / 512
    ensures Allowed(UserWrite, View(m, root, n)) && Effective(m, root, n) == Some(Rights(true, false))
  {
    hide View, Effective, BuiltTables, ImagePages, FirstWritten, TablesKept, PageRange;
    var page := View(m, root, n);
    HeapRights(m0, m, root, segments, n);
    assert NodeOf(x, 3) == NodeOf(n, 3);
    assert NodeOf(n, 3) in Above(ImageAndStack(segments), 3) && NodeOf(n, 3) !in Above(Writers(segments), 3);
  }

  const READ_ONLY := Flags(true, false, true, false, {})

  /** A read-only page and a growth to the page after it, in a new address space: the second page has all flags,
    * and copy_to_user may store in it, but the program may not. */
  method ReadOnlyNeighbour() returns (pm: PhysMem, root: nat)
    ensures Allowed(UserWrite, View(pm.mem, root, 1)) && Effective(pm.mem, root, 1) == Some(Rights(true, false))
  {
    hide Tree, Frames, View, FrameAllocator.Valid, CanMap, Missing, Nodes, NodesOver, KernelHalf, UsableFrames, Agree,
      PagesFor, PageRange, Took, TablesFor, TablesAdded, TablesKept, SamePaths, ImageTables, Leaking, Within, Effective,
      CanGrow, PathOf;
    HundredFrames();
    pm := new PhysMem(map[0 := EmptyTable()]);
    var fa := new FrameAllocator([Region(4096, 4096 * 101, true)], {0});
    ManyFree(fa);
    var made := NewUvm(pm, fa, 0);
    root := made.value;
    ghost var m0, out0 := pm.mem, fa.out;
    NewSpace(m0, root, |fa.all - fa.out|);
    var first := MapPage(pm, fa, root, 0, READ_ONLY);
    ghost var m1, out1 := pm.mem, fa.out;
    OutInAll(fa);
    OwnsAfter(m0, m1, root, out0, out1);
    ReadOnlyMapped(m0, m1, root, fa.all, out0, out1);
    var second := AllocUvm(pm, fa, root, 4096, 8192);
    GrownBeside(m1, pm.mem, root);
  }

  lemma NewSpace(m: Mem, root: nat, free: nat)
    requires (forall i: nat | i < USER_ENTRIES :: EntryAt(m, root, i) == UNUSED) && free >= 4
    ensures ImageTables(m, root, {}, {}) && CanMap(m, root, {0}, free)
    ensures View(m, root, 1) == None
  {
    hide View, Missing, Nodes, NodesOver, ImageTables;
    NoTables(m, root);
    BareTree(m, root);
    OnePage(m, root, 0);
  }

  lemma ReadOnlyMapped(m0: Mem, m1: Mem, root: nat, all: set<nat>, out0: set<nat>, out1: set<nat>)
    requires ImageTables(m0, root, {}, {}) && Took(m0, m1, root, out0, out1, {0}) && SameViewExcept(m0, m1, root, 0)
    requires TablesAdded(m0, m1, root, PathOf(0 * PAGE_SIZE), 3, AtLeast(ParentFlags(READ_ONLY)))
    requires out0 <= all && out1 <= all && |all - out0| >= 8 && View(m0, root, 1) == None
    ensures ImageTables(m1, root, {0}, {})
    ensures PagesFor(4096) == 1 && PagesFor(8192) == 2 && CanMap(m1, root, PageRange(1, 2), |all - out1|)
  {
    hide View, Missing, Nodes, NodesOver, ImageTables, TablesAdded, TablesFor, PathOf, Took;
    TablesForOne(m0, m1, root, 0, AtLeast(ParentFlags(READ_ONLY)));
    ImageTablesStep(m0, m1, root, {}, {}, {0}, false);
    assert {} + {0} == {0};
    assert PageRange(1, 2) == {1};
    assert View(m1, root, 1) == None;
    OnePage(m0, root, 0);
    OnePage(m1, root, 1);
    FramesLeft(m0, m1, root, all, out0, out1);
  }

  lemma FramesLeft(m0: Mem, m1: Mem, root: nat, all: set<nat>, out0: set<nat>, out1: set<nat>)
    requires Took(m0, m1, root, out0, out1, {0}) && out0 <= all && out1 <= all && |Missing(m0, root, {0})| <= 4
    ensures |all - out1| >= |all - out0| - 4
  {
    hide Nodes, NodesOver;
    SplitCount(all, out0);
    SplitCount(all, out1);
    assert Nodes(m1, root) == Nodes(m0, root) + Missing(m0, root, {0});
  }

  lemma GrownBeside(m1: Mem, m2: Mem, root: nat)
    requires ImageTables(m1, root, {0}, {}) && TablesKept(m1, m2, root) && Mapped(m1, m2, root, 1, 2, USER_FLAGS)
    ensures Allowed(UserWrite, View(m2, root, 1)) && Effective(m2, root, 1) == Some(Rights(true, false))
  {
    hide View, Effective, ImageTables, TablesKept;
    var page := View(m2, root, 1);
    ProgramMayWrite(m1, m2, root, {0}, {}, 1);
    assert NodeOf(0, 3) == NodeOf(1, 3) && 0 in {0};
    assert NodeOf(1, 3) in Above({0}, 3) && NodeOf(1, 3) !in Above({}, 3);
  }
}

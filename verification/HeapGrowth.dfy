/** The user heap: what a run of grow_process_heap calls keeps. */
module HeapGrowth {
  import opened Basics
  import opened PageTree
  import opened AddressSpace
  import opened FrameAlloc
  import opened TableEntries
  import opened Walker
  import opened TreeNodes
  import opened UserMemory
  import opened TreeCopy
  import opened Processes

  /** Gives back the pages between newsz and oldsz; a newsz that is not smaller changes nothing. */
  method DeallocUvm(pm: PhysMem, fa: FrameAllocator, root: nat, oldsz: nat,
                    newsz: nat) returns (r: Result<nat, UvmError>)
    requires fa.Valid() && Owns(pm.mem, fa.out, root) && oldsz <= USER_TOP
    modifies pm, fa
    ensures fa.Valid() && Within(old(pm.mem), pm.mem, root, old(fa.out), fa.out)
    ensures newsz >= oldsz ==> r == Ok(oldsz) && pm.mem == old(pm.mem) && unchanged(fa)
    ensures newsz < oldsz ==>
      && r == Ok(newsz)
      && Unmapped(old(pm.mem), pm.mem, root, PagesFor(newsz), PagesFor(oldsz))
      && fa.out == old(fa.out) - DataFrames(old(pm.mem), root, PagesFor(newsz), PagesFor(oldsz))
    ensures SamePaths(old(pm.mem), pm.mem, root)
  {
    hide Tree, Frames, View, FrameAllocator.Valid, DataFrames, SamePaths;
    PathsSame(pm.mem, root);
    if newsz >= oldsz {
      return Ok(oldsz);
    }
    PageBound(PagesFor(newsz), oldsz);
    RollbackAllocUvm(pm, fa, root, PageRoundUp(newsz).value, oldsz);
    r := Ok(newsz);
  }

  /** One heap request: the new size and what it did to the address space.  For a negative request
    * larger than the heap the 64-bit sum is a huge size, which dealloc_uvm ignores. */
  ghost predicate HeapStep(m: Mem, size: nat, m': Mem, size': nat, root: nat, n: int) {
    if n > 0 && size' != size then
      size' == size + n && size' < USER_TOP && Mapped(m, m', root, PagesFor(size), PagesFor(size'), USER_FLAGS)
    else if n < 0 && -n <= size then
      size' == size + n && Unmapped(m, m', root, PagesFor(size'), PagesFor(size))
    else
      size' == size && SameView(m, m', root)
  }

  /** A growth can succeed: it stays in the user half, its pages are not mapped yet, and there are frames
    * enough for them and the tables above them. */
  ghost predicate CanGrow(m: Mem, root: nat, size: nat, n: nat, free: nat) {
    size + n < USER_TOP && CanMap(m, root, PageRange(PagesFor(size), PagesFor(size + n)), free)
  }

  /** Why a growth is refused; free counts the frames that are left afterwards. */
  ghost predicate GrowthRefused(m: Mem, root: nat, size: nat, n: int, free: nat, e: UvmError) {
    n > 0 &&
    match e
    case OutsideUserSpace => size + n >= USER_TOP
    case AlreadyMapped => exists k :: PagesFor(size) <= k < PagesFor(size + n) && View(m, root, k).Some?
    case FrameAllocFailed => free <= PagesFor(size + n) - PagesFor(size)
    case TableAllocFailed => free <= PagesFor(size + n) - PagesFor(size)
    case SizeOverflow => false
  }

  method GrowProcessHeap(pm: PhysMem, fa: FrameAllocator, n: int, process: Process)
    returns (r: Result<(), UvmError>, process': Process)
    requires fa.Valid() && process.pageTable.Some? && Owns(pm.mem, fa.out, process.pageTable.value)
    requires process.heapSize <= USER_TOP && -0x8000_0000_0000_0000 <= n < 0x8000_0000_0000_0000
    modifies pm, fa
    ensures fa.Valid() && Within(old(pm.mem), pm.mem, process.pageTable.value, old(fa.out), fa.out)
    ensures process' == process.(heapSize := process'.heapSize) && process'.heapSize <= USER_TOP
    ensures HeapStep(old(pm.mem), process.heapSize, pm.mem, process'.heapSize, process.pageTable.value, n)
    ensures n > 0 ==> (r.Ok? <==> process'.heapSize != process.heapSize)
    ensures n > 0 ==>
      (r.Ok? <==> CanGrow(old(pm.mem), process.pageTable.value, process.heapSize, n, |fa.all - old(fa.out)|))
    ensures r.Err? ==>
      GrowthRefused(old(pm.mem), process.pageTable.value, process.heapSize, n, |fa.all - fa.out|, r.error)
    ensures n <= 0 ==> r.Ok?
    ensures TablesKept(old(pm.mem), pm.mem, process.pageTable.value)
  {
    hide Tree, Frames, View, FrameAllocator.Valid, DataFrames, CanMap, PageRange, SamePaths, TablesKept;
    ghost var m := pm.mem;
    var oldSize := process.heapSize;
    var root := process.pageTable.value;
    PathsSame(m, root);
    SameKeepsTables(m, m, root);
    if n > 0 {
      var grown := AllocUvm(pm, fa, root, oldSize, oldSize + n);
      if grown.Err? {
        return Err(grown.error), process;
      }
      return Ok(()), process.(heapSize := grown.value);
    } else if n < 0 {
      var shrunk := DeallocUvm(pm, fa, root, oldSize, (oldSize + n) % WORD);
      SameKeepsTables(m, pm.mem, root);
      if shrunk.Err? {
        return Err(shrunk.error), process;
      }
      return Ok(()), process.(heapSize := shrunk.value);
    }
    return Ok(()), process;
  }

  // ---- Runs

  /** Between the initial break and the guard page exactly the pages below the current size are mapped. */
  ghost predicate HeapInv(m: Mem, root: nat, brk: nat, size: nat, guard: nat) {
    && PagesFor(brk) <= PagesFor(size) <= guard < USER_PAGES
    && View(m, root, guard).Some?
    && (forall n: nat {:trigger View(m, root, n)} | PagesFor(brk) <= n < guard ::
          View(m, root, n).Some? <==> n < PagesFor(size))
  }

  /** Program, guard and stack pages: all that is not heap. */
  ghost predicate SameOutsideHeap(m: Mem, m': Mem, root: nat, brk: nat, guard: nat) {
    forall n: nat {:trigger View(m', root, n)} | n < USER_PAGES && !(PagesFor(brk) <= n < guard) ::
      View(m', root, n) == View(m, root, n)
  }

  datatype HeapState = HeapState(m: Mem, size: nat)

  /** A run of heap requests, none of which takes the size below the initial break. */
  ghost predicate HeapRun(s: seq<HeapState>, requests: seq<int>, root: nat, brk: nat) {
    && |s| == |requests| + 1
    && (forall i | 0 <= i < |requests| ::
          HeapStep(s[i].m, s[i].size, s[i + 1].m, s[i + 1].size, root, requests[i]))
    && (forall i | 0 <= i < |s| :: brk <= s[i].size)
  }

  lemma HeapStepInv(m: Mem, size: nat, m': Mem, size': nat, root: nat, n: int, brk: nat, guard: nat)
    requires HeapInv(m, root, brk, size, guard) && HeapStep(m, size, m', size', root, n) && brk <= size'
    ensures HeapInv(m', root, brk, size', guard) && SameOutsideHeap(m, m', root, brk, guard)
  {
    hide View;
    RoundUpMonotone(brk, size');
    if n > 0 && size' != size {
      RoundUpMonotone(size, size');
      var guardPage := View(m', root, guard);
      assert PagesFor(size') <= guard;
    } else if n < 0 && -n <= size {
      RoundUpMonotone(size', size);
    }
    assert View(m', root, guard) == View(m, root, guard);
    forall k: nat | k < USER_PAGES && !(PagesFor(brk) <= k < guard) ensures View(m', root, k) == View(m, root, k) {}
    forall k: nat | PagesFor(brk) <= k < guard ensures View(m', root, k).Some? <==> k < PagesFor(size') {
      assert View(m, root, k) == View(m, root, k);
    }
  }

  /** After any sequence of heap requests that stays at or above the initial break, the mapped pages
    * between the break and the guard page are those of the current size, and no other page changed. */
  lemma {:induction false} HeapRunInv(s: seq<HeapState>, requests: seq<int>, root: nat, brk: nat, guard: nat)
    requires HeapRun(s, requests, root, brk) && HeapInv(s[0].m, root, brk, s[0].size, guard)
    ensures HeapInv(s[|requests|].m, root, brk, s[|requests|].size, guard)
    ensures SameOutsideHeap(s[0].m, s[|requests|].m, root, brk, guard)
    decreases |requests|
  {
    hide View, HeapStep, HeapInv;
    var k := |requests|;
    if k > 0 {
      assert HeapRun(s[..k], requests[..k - 1], root, brk);
      HeapRunInv(s[..k], requests[..k - 1], root, brk, guard);
      HeapStepInv(s[k - 1].m, s[k - 1].size, s[k].m, s[k].size, root, requests[k - 1], brk, guard);
      forall n: nat | n < USER_PAGES && !(PagesFor(brk) <= n < guard)
        ensures View(s[k].m, root, n) == View(s[0].m, root, n)
      {
        assert View(s[k].m, root, n) == View(s[k - 1].m, root, n);
      }
    }
  }

  /** A successful growth undone by the opposite request leaves the program's view as it was. */
  lemma GrowThenShrink(m0: Mem, m1: Mem, m2: Mem, root: nat, size: nat, n: int)
    requires n > 0
    requires HeapStep(m0, size, m1, size + n, root, n) && HeapStep(m1, size + n, m2, size, root, -n)
    ensures SameView(m0, m2, root)
  {
    hide View;
    forall k: nat | k < USER_PAGES ensures View(m2, root, k) == View(m0, root, k) {
      assert View(m1, root, k) == View(m1, root, k);
    }
  }

  /** The code does not check for shrinking below the initial break.  If the last program page is mapped, a
    * shrink keeps everything outside the heap exactly if the new size stays in or above that page's end. */
  lemma ShrinkKeepsProgram(m: Mem, m': Mem, root: nat, size: nat, size': nat, n: int, brk: nat, guard: nat)
    requires n < 0 && -n <= size && HeapStep(m, size, m', size', root, n)
    requires 0 < PagesFor(brk) <= PagesFor(size) <= guard < USER_PAGES && View(m, root, PagesFor(brk) - 1).Some?
    ensures SameOutsideHeap(m, m', root, brk, guard) <==> PagesFor(brk) <= PagesFor(size')
  {
    hide View;
    var last := View(m', root, PagesFor(brk) - 1);
    forall k: nat | k < USER_PAGES && !(PagesFor(brk) <= k < guard) && PagesFor(brk) <= PagesFor(size')
      ensures View(m', root, k) == View(m, root, k) {}
  }

  /** sbrk does not record the new size: it asks from the same recorded size every time.  Once the first page
    * above that size is mapped, whatever the program stored meanwhile and however many frames are free, a
    * growth succeeds exactly if it stays in the user half and needs no page. */
  lemma SecondGrowth(m: Mem, root: nat, size: nat, k: nat, free: nat)
    requires PagesFor(size) < USER_PAGES && View(m, root, PagesFor(size)).Some?
    ensures CanGrow(m, root, size, k, free) <==> size + k < USER_TOP && PagesFor(size + k) == PagesFor(size)
  {
    hide View, Nodes, NodesOver;
    RoundUpMonotone(size, size + k);
    if PagesFor(size + k) == PagesFor(size) {
      NothingMissing(m, root, PageRange(PagesFor(size), PagesFor(size + k)));
    } else {
      assert PagesFor(size) in PageRange(PagesFor(size), PagesFor(size + k));
    }
  }

  /** Two requests for one page each in a new address space, with frames to spare, each made from the recorded
    * size: the first succeeds and the second fails. */
  method GrowTwice() returns (first: Result<(), UvmError>, second: Result<(), UvmError>)
    ensures first.Ok? && second.Err?
  {
    hide Tree, Frames, View, FrameAllocator.Valid, CanMap, Missing, Nodes, NodesOver, KernelHalf, UsableFrames,
      HeapStep, GrowthRefused, CanGrow, Agree, PagesFor, PageRange;
    HundredFrames();
    var pm := new PhysMem(map[0 := EmptyTable()]);
    var fa := new FrameAllocator([Region(4096, 4096 * 101, true)], {0});
    ManyFree(fa);
    var root := NewUvm(pm, fa, 0);
    var process := Process(0, None, Alive, [], 0, root, 0, false, 0);
    FirstFits(pm.mem, root.value, |fa.all - fa.out|);
    ghost var m := pm.mem;
    var process' := process;
    first, process' := GrowProcessHeap(pm, fa, 4096, process);
    FirstMapped(m, pm.mem, root.value, process'.heapSize);
    SecondGrowth(pm.mem, root.value, 0, 4096, |fa.all - fa.out|);
    second, process' := GrowProcessHeap(pm, fa, 4096, process);
  }

  lemma FirstPage()
    ensures PagesFor(0) == 0 && PagesFor(4096) == 1 && PageRange(0, 1) == {0}
  {
    assert PageRange(0, 0) == {};
  }

  lemma FirstFits(m: Mem, root: nat, free: nat)
    requires (forall i: nat | i < USER_ENTRIES :: EntryAt(m, root, i) == UNUSED) && free >= 4
    ensures CanGrow(m, root, 0, 4096, free)
  {
    hide View, Nodes, NodesOver, Missing;
    FirstPage();
    BareTree(m, root);
    OnePage(m, root, 0);
  }

  lemma FirstMapped(m: Mem, m': Mem, root: nat, size: nat)
    requires HeapStep(m, 0, m', size, root, 4096) && size != 0
    ensures PagesFor(0) == 0 && PagesFor(4096) == 1 && View(m', root, 0).Some?
  {
    hide View;
    FirstPage();
    var u := View(m', root, 0);
  }

  lemma ManyFree(fa: FrameAllocator)
    requires fa.Valid() && fa.memoryMap == [Region(4096, 4096 * 101, true)] && fa.out == fa.reserved == {0}
    ensures |fa.all - fa.out| == 100
  {
    HundredFrames();
    assert fa.all - fa.out == Elems(UsableFrames(fa.memoryMap));
  }

  lemma HundredFrames()
    ensures var frames := UsableFrames([Region(4096, 4096 * 101, true)]);
      |Elems(frames)| == 100 && 0 !in frames && WellFormedMap([Region(4096, 4096 * 101, true)])
  {
    var r := Region(4096, 4096 * 101, true);
    StepFramesAre(r);
    assert UsableFrames([r]) == StepFrames(r.start, r.end) + UsableFrames([]);
    DistinctCount(UsableFrames([r]));
  }
}

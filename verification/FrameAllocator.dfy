/** The physical frame allocator: bootloader frames in order, recycled frames first. */
module FrameAlloc {
  import opened Basics

  /** A region of the bootloader's memory map; only usable ones are handed out. */
  datatype Region = Region(start: nat, end: nat, usable: bool)

  /** The frames that contain the addresses start, start + 4096, ... below end. */
  function StepFrames(start: nat, end: nat): seq<nat>
    decreases end - start
  {
    if start >= end then [] else [start / PAGE_SIZE] + StepFrames(start + PAGE_SIZE, end)
  }

  function UsableFrames(regions: seq<Region>): seq<nat> {
    if regions == [] then []
    else (if regions[0].usable then StepFrames(regions[0].start, regions[0].end) else []) + UsableFrames(regions[1..])
  }

  ghost predicate Distinct(s: seq<nat>) {
    forall i, j | 0 <= i < j < |s| :: s[i] != s[j]
  }

  ghost function Elems(s: seq<nat>): set<nat> {
    set x | x in s
  }

  /** The frames of a region are consecutive: this many, starting here. */
  function FirstFrame(r: Region): nat {
    r.start / PAGE_SIZE
  }

  function FrameCount(r: Region): nat {
    if r.start >= r.end then 0 else (r.end - r.start + PAGE_SIZE - 1) / PAGE_SIZE
  }

  predicate Shares(r: Region, f: nat) {
    FirstFrame(r) <= f < FirstFrame(r) + FrameCount(r)
  }

  predicate FramesApart(r: Region, s: Region) {
    FirstFrame(r) + FrameCount(r) <= FirstFrame(s) || FirstFrame(s) + FrameCount(s) <= FirstFrame(r)
    || FrameCount(r) == 0 || FrameCount(s) == 0
  }

  /** No two usable regions reach into the same frame. */
  predicate WellFormedMap(regions: seq<Region>) {
    forall i, j | 0 <= i < j < |regions| && regions[i].usable && regions[j].usable ::
      FramesApart(regions[i], regions[j])
  }

  /** Page-aligned regions that do not overlap are well-formed. */
  lemma AlignedMapIsWellFormed(regions: seq<Region>)
    requires forall i | 0 <= i < |regions| && regions[i].usable :: regions[i].start % PAGE_SIZE == 0
    requires forall i, j | 0 <= i < j < |regions| && regions[i].usable && regions[j].usable ::
      regions[i].end <= regions[j].start || regions[j].end <= regions[i].start
    ensures WellFormedMap(regions)
  {
    forall i, j | 0 <= i < j < |regions| && regions[i].usable && regions[j].usable
      ensures FramesApart(regions[i], regions[j]) {
      AlignedApart(regions[i], regions[j]);
      AlignedApart(regions[j], regions[i]);
    }
  }

  lemma AlignedApart(r: Region, s: Region)
    requires r.start % PAGE_SIZE == 0 && s.start % PAGE_SIZE == 0
    ensures r.end <= s.start ==> FrameCount(r) == 0 || FirstFrame(r) + FrameCount(r) <= FirstFrame(s)
  {}

  lemma {:induction false} StepFramesAre(r: Region)
    ensures |StepFrames(r.start, r.end)| == FrameCount(r)
    ensures forall k | 0 <= k < FrameCount(r) :: StepFrames(r.start, r.end)[k] == FirstFrame(r) + k
    decreases r.end - r.start
  {
    if r.start < r.end {
      var rest := Region(r.start + PAGE_SIZE, r.end, r.usable);
      StepFramesAre(rest);
      assert FirstFrame(rest) == FirstFrame(r) + 1;
      assert FrameCount(rest) == FrameCount(r) - 1;
    }
  }

  lemma StepFramesHave(r: Region, f: nat)
    ensures f in StepFrames(r.start, r.end) <==> Shares(r, f)
  {
    StepFramesAre(r);
    if Shares(r, f) {
      assert StepFrames(r.start, r.end)[f - FirstFrame(r)] == f;
    }
  }

  lemma DistinctConcat(a: seq<nat>, b: seq<nat>)
    ensures Distinct(a + b) <==> Distinct(a) && Distinct(b) && forall x | x in a :: x !in b
  {
    if Distinct(a + b) {
      assert forall i | 0 <= i < |a| :: (a + b)[i] == a[i];
      assert forall j | 0 <= j < |b| :: (a + b)[|a| + j] == b[j];
    }
    if Distinct(a) && Distinct(b) && forall x | x in a :: x !in b {
      forall i, j | 0 <= i < j < |a + b| ensures (a + b)[i] != (a + b)[j] {
        if i < |a| <= j {
          assert a[i] in a && b[j - |a|] in b;
        }
      }
    }
  }

  /** A frame is usable exactly if some usable region reaches into it. */
  lemma {:induction false} UsableFramesHave(regions: seq<Region>, f: nat)
    ensures f in UsableFrames(regions) <==> exists i :: 0 <= i < |regions| && regions[i].usable && Shares(regions[i], f)
  {
    if regions != [] {
      var rest := regions[1..];
      UsableFramesHave(rest, f);
      StepFramesHave(regions[0], f);
      assert forall i | 0 < i < |regions| :: regions[i] == rest[i - 1];
      if i :| 0 <= i < |rest| && rest[i].usable && Shares(rest[i], f) {
        assert regions[i + 1].usable && Shares(regions[i + 1], f);
      }
    }
  }

  lemma NoSharedFrame(r: Region, s: Region)
    ensures FramesApart(r, s) <==> forall f: nat :: !(Shares(r, f) && Shares(s, f))
  {
    if !FramesApart(r, s) {
      var f := if FirstFrame(r) < FirstFrame(s) then FirstFrame(s) else FirstFrame(r);
      assert Shares(r, f) && Shares(s, f);
    }
  }

  /** No frame occurs twice in the usable frames exactly if no two usable regions share a frame. */
  lemma {:induction false} UsableFramesDistinct(regions: seq<Region>)
    ensures Distinct(UsableFrames(regions)) <==> WellFormedMap(regions)
  {
    if regions != [] {
      var r, rest := regions[0], regions[1..];
      UsableFramesDistinct(rest);
      assert forall i | 0 < i < |regions| :: regions[i] == rest[i - 1];
      MapSplit(regions);
      if r.usable {
        StepFramesAre(r);
        assert Distinct(StepFrames(r.start, r.end));
        DistinctConcat(StepFrames(r.start, r.end), UsableFrames(rest));
        FirstRegionApart(r, rest);
      } else {
        assert UsableFrames(regions) == UsableFrames(rest);
      }
    }
  }

  lemma MapSplit(regions: seq<Region>)
    requires regions != []
    ensures WellFormedMap(regions) <==>
      && WellFormedMap(regions[1..])
      && (regions[0].usable ==> forall s | s in regions[1..] && s.usable :: FramesApart(regions[0], s))
  {
    var rest := regions[1..];
    assert forall i | 0 < i < |regions| :: regions[i] == rest[i - 1];
    if WellFormedMap(regions) {
      forall i, j | 0 <= i < j < |rest| && rest[i].usable && rest[j].usable ensures FramesApart(rest[i], rest[j]) {
        assert FramesApart(regions[i + 1], regions[j + 1]);
      }
    }
  }

  lemma FirstRegionApart(r: Region, rest: seq<Region>)
    ensures (forall f | f in StepFrames(r.start, r.end) :: f !in UsableFrames(rest)) <==>
      forall s | s in rest && s.usable :: FramesApart(r, s)
  {
    hide FramesApart, StepFrames, UsableFrames, Shares;
    if forall f | f in StepFrames(r.start, r.end) :: f !in UsableFrames(rest) {
      forall s | s in rest && s.usable ensures FramesApart(r, s) {
        NewFramesApart(r, rest, s);
      }
    }
    if forall s | s in rest && s.usable :: FramesApart(r, s) {
      forall f | f in StepFrames(r.start, r.end) ensures f !in UsableFrames(rest) {
        ApartFrameIsNew(r, rest, f);
      }
    }
  }

  lemma NewFramesApart(r: Region, rest: seq<Region>, s: Region)
    requires forall f | f in StepFrames(r.start, r.end) :: f !in UsableFrames(rest)
    requires s in rest && s.usable
    ensures FramesApart(r, s)
  {
    hide FramesApart, StepFrames, UsableFrames, Shares;
    NoSharedFrame(r, s);
    var i :| 0 <= i < |rest| && rest[i] == s;
    forall f: nat ensures !(Shares(r, f) && Shares(s, f)) {
      StepFramesHave(r, f);
      UsableFramesHave(rest, f);
      assert rest[i].usable && (Shares(s, f) ==> Shares(rest[i], f));
    }
  }

  lemma ApartFrameIsNew(r: Region, rest: seq<Region>, f: nat)
    requires forall s | s in rest && s.usable :: FramesApart(r, s)
    requires f in StepFrames(r.start, r.end)
    ensures f !in UsableFrames(rest)
  {
    hide FramesApart, StepFrames, UsableFrames, Shares;
    StepFramesHave(r, f);
    UsableFramesHave(rest, f);
    if i :| 0 <= i < |rest| && rest[i].usable && Shares(rest[i], f) {
      assert rest[i] in rest;
      NoSharedFrame(r, rest[i]);
    }
  }

  /** Two usable regions inside one frame make the allocator hand that frame out twice. */
  lemma UnalignedMapRepeatsAFrame()
    ensures UsableFrames([Region(0, 10, true), Region(10, 20, true)]) == [0, 0]
  {
    assert StepFrames(0, 10) == [0];
    assert StepFrames(10, 20) == [0];
    assert UsableFrames([Region(10, 20, true)]) == [0];
  }

  class FrameAllocator {
    const memoryMap: seq<Region>
    var next: nat
    var recycled: seq<nat>
    /** Frames that are in use from the start and that the memory map does not offer: the kernel's own. */
    ghost const reserved: set<nat>
    /** The reserved frames and those the memory map offers; and of these, the frames in use. */
    ghost const all: set<nat>
    ghost var out: set<nat>

    ghost predicate Valid()
      reads this
    {
      var usable := UsableFrames(memoryMap);
      && Distinct(usable)
      && reserved !! Elems(usable) && all == reserved + Elems(usable)
      && Distinct(recycled)
      && out !! Elems(recycled)
      && out + Elems(recycled) == reserved + Elems(usable[..Min(next, |usable|)])
    }

    constructor (regions: seq<Region>, ghost kernel: set<nat>)
      requires WellFormedMap(regions) && kernel !! Elems(UsableFrames(regions))
      ensures Valid() && memoryMap == regions && next == 0 && recycled == [] && out == reserved == kernel
    {
      memoryMap := regions;
      next := 0;
      recycled := [];
      reserved := kernel;
      all := kernel + Elems(UsableFrames(regions));
      out := kernel;
      UsableFramesDistinct(regions);
    }

    /** The most recently freed frame, else the next one of the memory map, else None. */
    method AllocateFrame() returns (r: Option<nat>)
      requires Valid()
      modifies this
      ensures Valid()
      ensures |old(recycled)| > 0 ==>
        && r == Some(old(recycled)[|old(recycled)| - 1])
        && recycled == old(recycled)[..|old(recycled)| - 1]
        && next == old(next)
      ensures |old(recycled)| == 0 ==> recycled == [] && next == old(next) + 1
      ensures r.None? <==> old(out) == all
      ensures r.None? ==> out == old(out)
      ensures r.Some? ==> r.value in all && r.value !in old(out) && out == old(out) + {r.value}
    {
      ghost var usable := UsableFrames(memoryMap);
      if |recycled| > 0 {
        r := Some(recycled[|recycled| - 1]);
        out := out + {r.value};
        assert recycled == recycled[..|recycled| - 1] + [r.value];
        recycled := recycled[..|recycled| - 1];
        TakeInAll(usable, next);
      } else {
        var frames := UsableFrames(memoryMap);
        if next < |frames| {
          r := Some(frames[next]);
          TakeNext(frames, next);
          out := out + {frames[next]};
        } else {
          assert frames[..|frames|] == frames;
          r := None;
        }
        next := next + 1;
      }
    }

    /** The caller gives back a frame it holds; this is what the source's safety contract asks for. */
    method DeallocateFrame(frame: nat)
      requires Valid() && frame in out
      modifies this
      ensures Valid()
      ensures recycled == old(recycled) + [frame] && next == old(next)
      ensures out == old(out) - {frame}
    {
      recycled := recycled + [frame];
      out := out - {frame};
      assert Elems(recycled) == Elems(old(recycled)) + {frame};
    }
  }

  lemma TakeInAll(s: seq<nat>, n: nat)
    ensures Elems(s[..Min(n, |s|)]) <= Elems(s)
  {}

  lemma TakeNext(s: seq<nat>, n: nat)
    requires Distinct(s) && n < |s|
    ensures s[n] !in Elems(s[..n])
    ensures Elems(s[..n + 1]) == Elems(s[..n]) + {s[n]}
    ensures Elems(s[..n + 1]) <= Elems(s)
  {
    assert s[..n + 1] == s[..n] + [s[n]];
  }

  lemma {:induction false} DistinctCount(s: seq<nat>)
    requires Distinct(s)
    ensures |Elems(s)| == |s|
  {
    if s == [] {
      assert Elems(s) == {};
    } else {
      var k := |s| - 1;
      DistinctCount(s[..k]);
      TakeNext(s, k);
      assert s[..k + 1] == s;
    }
  }

  lemma OutInAll(fa: FrameAllocator)
    requires fa.Valid()
    ensures fa.out <= fa.all
  {
    TakeInAll(UsableFrames(fa.memoryMap), fa.next);
  }

  lemma Counting(all: set<nat>, out0: set<nat>, out: set<nat>)
    requires out0 <= out <= all
    ensures |all - out0| == |all| - |out0| && |out| <= |all|
  {
    assert all == (all - out0) + out0;
    assert all == (all - out) + out;
  }
}

/** Copying a user tree for fork, and giving one back. */
module TreeCopy {
  import opened Basics
  import opened PageTree
  import opened AddressSpace
  import opened FrameAlloc
  import opened TableEntries
  import opened Walker

  // ---- The number of frames of a tree

  ghost function Size(m: Mem, f: nat, h: nat): nat
    decreases h, 2, f
  {
    if h == 0 then 1 else 1 + SizeUpTo(m, f, h, Limit(h))
  }

  ghost function SlotSize(m: Mem, f: nat, h: nat, i: nat): nat
    decreases h, 0, f
  {
    if h > 0 && Present(m, f, h, i) then Size(m, Child(m, f, i), h - 1) else 0
  }

  ghost function SizeUpTo(m: Mem, f: nat, h: nat, k: nat): nat
    decreases h, 1, k, f
  {
    if k == 0 then 0 else SizeUpTo(m, f, h, k - 1) + SlotSize(m, f, h, k - 1)
  }

  lemma {:induction false} SizeBefore(m: Mem, f: nat, h: nat, i: nat, k: nat)
    requires i < k
    ensures SizeUpTo(m, f, h, i) + SlotSize(m, f, h, i) <= SizeUpTo(m, f, h, k)
  {
    if i < k - 1 {
      SizeBefore(m, f, h, i, k - 1);
    }
  }

  /** Every frame of a tree is counted once. */
  lemma {:induction false} SizeCountsFrames(m: Mem, f: nat, h: nat)
    requires Tree(m, f, h)
    ensures |Frames(m, f, h)| == Size(m, f, h)
    decreases h, 1, 0
  {
    if h > 0 {
      SizeCountsSubs(m, f, h, Limit(h));
      forall i: nat | i < Limit(h) ensures f !in Sub(m, f, h, i) {}
      if f in Subs(m, f, h, Limit(h)) {
        var i := SlotUpTo(m, f, h, Limit(h), f);
      }
    }
  }

  lemma {:induction false} SizeCountsSubs(m: Mem, f: nat, h: nat, k: nat)
    requires Tree(m, f, h) && h > 0 && k <= Limit(h)
    ensures |Subs(m, f, h, k)| == SizeUpTo(m, f, h, k)
    decreases h, 0, k
  {
    hide Tree, Frames, Sub, Size;
    if k > 0 {
      SizeCountsSubs(m, f, h, k - 1);
      NextSubApart(m, f, h, k - 1);
      if Present(m, f, h, k - 1) {
        SizeCountsFrames(m, Child(m, f, k - 1), h - 1);
      }
      assert |Subs(m, f, h, k)| == |Subs(m, f, h, k - 1)| + |Sub(m, f, h, k - 1)|;
    }
  }

  /** What hangs in slot k is not among what hangs in the slots before it. */
  lemma NextSubApart(m: Mem, f: nat, h: nat, k: nat)
    requires Tree(m, f, h) && h > 0 && k < Limit(h)
    ensures Subs(m, f, h, k) !! Sub(m, f, h, k)
    ensures
      if Present(m, f, h, k) then Tree(m, Child(m, f, k), h - 1) && Sub(m, f, h, k) == Frames(m, Child(m, f, k), h - 1)
      else Sub(m, f, h, k) == {}
  {
    hide Frames, Subs;
    forall g | g in Subs(m, f, h, k) ensures g !in Sub(m, f, h, k) {
      var i := SlotUpTo(m, f, h, k, g);
    }
  }

  // ---- Equal trees in different frames

  /** Same shape, same flags at every level, same bytes at the leaves. */
  ghost predicate SameTree(m: Mem, f: nat, m': Mem, f': nat, h: nat)
    decreases h, 1, f
  {
    if h == 0 then IsPage(m, f) && IsPage(m', f') && m[f].bytes == m'[f'].bytes
    else forall i: nat | i < Limit(h) :: SameSlot(m, f, m', f', h, i)
  }

  ghost predicate SameSlot(m: Mem, f: nat, m': Mem, f': nat, h: nat, i: nat)
    requires h > 0
    decreases h, 0, f
  {
    && Present(m', f', h, i) == Present(m, f, h, i)
    && (Present(m, f, h, i) ==>
          && EntryAt(m', f', i).flags == EntryAt(m, f, i).flags
          && SameTree(m, Child(m, f, i), m', Child(m', f', i), h - 1))
  }

  lemma {:induction false} SameTreeFrame(m: Mem, n: Mem, f: nat, m': Mem, n': Mem, f': nat, h: nat)
    requires Tree(m, f, h) && Agree(m, n, Frames(m, f, h))
    requires Tree(m', f', h) && Agree(m', n', Frames(m', f', h))
    requires SameTree(m, f, m', f', h)
    ensures SameTree(n, f, n', f', h)
    decreases h
  {
    assert f in Frames(m, f, h) && f' in Frames(m', f', h);
    if h > 0 {
      forall i: nat | i < Limit(h) ensures SameSlot(n, f, n', f', h, i) {
        assert SameSlot(m, f, m', f', h, i);
        if Present(m, f, h, i) {
          SubInFrames(m, f, h, i);
          SubInFrames(m', f', h, i);
          SameTreeFrame(m, n, Child(m, f, i), m', n', Child(m', f', i), h - 1);
        }
      }
    }
  }

  lemma {:induction false} SizeFrame(m: Mem, n: Mem, f: nat, h: nat)
    requires Tree(m, f, h) && Agree(m, n, Frames(m, f, h))
    ensures Size(n, f, h) == Size(m, f, h)
  {
    TreeFrame(m, n, f, h);
    SizeCountsFrames(m, f, h);
    SizeCountsFrames(n, f, h);
  }

  /** The copy maps the same pages, with the same flags and bytes. */
  lemma {:induction false} SameTreeLeaf(m: Mem, f: nat, m': Mem, f': nat, h: nat, p: seq<nat>)
    requires SameTree(m, f, m', f', h)
    ensures Leaf(m, f, h, p).Some? == Leaf(m', f', h, p).Some?
    ensures Leaf(m, f, h, p).Some? ==>
      var e, e' := Leaf(m, f, h, p).value, Leaf(m', f', h, p).value;
      e.flags == e'.flags && IsPage(m, e.frame) && IsPage(m', e'.frame) && m[e.frame].bytes == m'[e'.frame].bytes
    decreases p
  {
    if p != [] && h > 0 && p[0] < Limit(h) {
      assert SameSlot(m, f, m', f', h, p[0]);
      if Present(m, f, h, p[0]) {
        if h == 1 {
          assert SameTree(m, Child(m, f, p[0]), m', Child(m', f', p[0]), 0);
        } else {
          SameTreeLeaf(m, Child(m, f, p[0]), m', Child(m', f', p[0]), h - 1, p[1..]);
        }
      }
    }
  }

  /** Equal trees have the same entries on all paths. */
  lemma SameTreeEntries(m: Mem, f: nat, m': Mem, f': nat)
    requires SameTree(m, f, m', f', 4)
    ensures SameEntries(m, f, m', f')
  {
    hide SameTree, SameSlot, Resolve;
    forall q: seq<nat> | 1 <= |q| <= 4 ensures EntryTo(m', f', q) == EntryTo(m, f, q) {
      var r := q[..|q| - 1];
      SameTreeResolve(m, f, m', f', 4, r);
      if Resolve(m, f, 4, r).Some? {
        SameTreeSlot(m, Resolve(m, f, 4, r).value, m', Resolve(m', f', 4, r).value, 5 - |q|, q[|q| - 1]);
      }
    }
  }

  lemma SameTreeSlot(m: Mem, f: nat, m': Mem, f': nat, h: nat, i: nat)
    requires h > 0 && SameTree(m, f, m', f', h)
    ensures Present(m', f', h, i) == Present(m, f, h, i)
    ensures Present(m, f, h, i) ==>
      EntryAt(m', f', i).flags == EntryAt(m, f, i).flags && SameTree(m, Child(m, f, i), m', Child(m', f', i), h - 1)
  {
    if i < Limit(h) {
      assert SameSlot(m, f, m', f', h, i);
    }
  }

  lemma {:induction false} SameTreeResolve(m: Mem, f: nat, m': Mem, f': nat, h: nat, q: seq<nat>)
    requires SameTree(m, f, m', f', h) && |q| <= h
    ensures var t, t' := Resolve(m, f, h, q), Resolve(m', f', h, q);
      t'.Some? == t.Some? && (t.Some? ==> SameTree(m, t.value, m', t'.value, h - |q|))
    decreases q
  {
    if q != [] {
      SameTreeSlot(m, f, m', f', h, q[0]);
      if Present(m, f, h, q[0]) {
        SameTreeResolve(m, Child(m, f, q[0]), m', Child(m', f', q[0]), h - 1, q[1..]);
      }
    }
  }

  // ---- Copying

  /** The loop state of a copy: the first i slots of cf are copies, the others are unused. */
  ghost predicate Copying(m0: Mem, m: Mem, pf: nat, cf: nat, h: nat, out0: set<nat>, out: set<nat>, i: nat) {
    && h > 0 && i <= Limit(h)
    && out0 <= out && cf in out0 && Agree(m0, m, out0 - {cf})
    && Tree(m, cf, h) && Frames(m, cf, h) == {cf} + (out - out0)
    && (forall j: nat | j < i :: SameSlot(m0, pf, m, cf, h, j))
    && (forall j: nat | i <= j < Limit(h) :: EntryAt(m, cf, j) == UNUSED)
    && (forall j: nat | Limit(h) <= j < ENTRIES :: EntryAt(m, cf, j) == EntryAt(m0, cf, j))
    && |out| == |out0| + SizeUpTo(m0, pf, h, i)
  }

  /** A parent table whose copy can start: the child table is empty and not part of the parent's tree. */
  ghost predicate CanCopy(m: Mem, pf: nat, cf: nat, h: nat, out: set<nat>) {
    && 1 <= h <= 4
    && Tree(m, pf, h) && Frames(m, pf, h) <= out
    && IsTable(m, cf) && cf in out && cf !in Frames(m, pf, h)
    && (forall i: nat | i < Limit(h) :: EntryAt(m, cf, i) == UNUSED)
  }

  lemma CopyStart(m: Mem, pf: nat, cf: nat, h: nat, out: set<nat>)
    requires CanCopy(m, pf, cf, h, out)
    ensures Copying(m, m, pf, cf, h, out, out, 0)
  {
    assert forall i: nat {:trigger Present(m, cf, h, i)} | i < Limit(h) :: !Present(m, cf, h, i);
    BareTable(m, cf, h);
  }

  lemma CopySkip(m0: Mem, m: Mem, pf: nat, cf: nat, h: nat, out0: set<nat>, out: set<nat>, i: nat)
    requires Copying(m0, m, pf, cf, h, out0, out, i) && i < Limit(h) && !Present(m0, pf, h, i)
    ensures Copying(m0, m, pf, cf, h, out0, out, i + 1)
  {
    hide Tree, Frames;
    assert EntryAt(m, cf, i) == UNUSED;
    assert SameSlot(m0, pf, m, cf, h, i);
    assert SizeUpTo(m0, pf, h, i + 1) == SizeUpTo(m0, pf, h, i) + SlotSize(m0, pf, h, i);
  }

  /** Slot i of the child got the frame nf, below which a copy of the parent's subtree was built. */
  ghost predicate SlotCopied(m0: Mem, m: Mem, m': Mem, pf: nat, cf: nat, h: nat, i: nat, out: set<nat>, out': set<nat>,
                             nf: nat) {
    && h > 0 && i < Limit(h) && Present(m0, pf, h, i)
    && nf !in out && nf in out' && out <= out'
    && Agree(m, m', out - {cf})
    && IsTable(m', cf) && EntryAt(m', cf, i) == Entry(nf, EntryAt(m0, pf, i).flags)
    && (forall j: nat | j != i :: EntryAt(m', cf, j) == EntryAt(m, cf, j))
    && Tree(m', nf, h - 1) && Frames(m', nf, h - 1) == out' - out
    && SameTree(m0, Child(m0, pf, i), m', nf, h - 1)
    && |out'| == |out| + Size(m0, Child(m0, pf, i), h - 1)
  }

  lemma CopySpliced(m0: Mem, m: Mem, m': Mem, pf: nat, cf: nat, h: nat, out0: set<nat>, out: set<nat>, out': set<nat>,
                    i: nat, nf: nat)
    requires Tree(m0, pf, h) && Copying(m0, m, pf, cf, h, out0, out, i)
    requires SlotCopied(m0, m, m', pf, cf, h, i, out, out', nf)
    ensures Spliced(m, m', cf, h, [], cf, i)
    ensures Sub(m, cf, h, i) == {} && Sub(m', cf, h, i) == out' - out
  {
    assert EntryAt(m, cf, i) == UNUSED;
    assert EntryOk(EntryAt(m0, pf, i));
  }

  lemma CopyStep(m0: Mem, m: Mem, m': Mem, pf: nat, cf: nat, h: nat, out0: set<nat>, out: set<nat>, out': set<nat>,
                 i: nat, nf: nat)
    requires CanCopy(m0, pf, cf, h, out0) && Copying(m0, m, pf, cf, h, out0, out, i)
    requires SlotCopied(m0, m, m', pf, cf, h, i, out, out', nf)
    ensures Copying(m0, m', pf, cf, h, out0, out', i + 1)
  {
    hide Tree, Frames, Subs;
    CopySpliced(m0, m, m', pf, cf, h, out0, out, out', i, nf);
    SpliceHere(m, m', cf, h, i);
    forall j: nat | j < i ensures SameSlot(m0, pf, m', cf, h, j) {
      CopiedSlotKept(m0, m, m', pf, cf, h, out0, out, out', i, nf, j);
    }
    assert SameSlot(m0, pf, m', cf, h, i);
    assert SizeUpTo(m0, pf, h, i + 1) == SizeUpTo(m0, pf, h, i) + SlotSize(m0, pf, h, i);
  }

  lemma CopiedSlotKept(m0: Mem, m: Mem, m': Mem, pf: nat, cf: nat, h: nat, out0: set<nat>, out: set<nat>,
                       out': set<nat>, i: nat, nf: nat, j: nat)
    requires CanCopy(m0, pf, cf, h, out0) && Copying(m0, m, pf, cf, h, out0, out, i)
    requires SlotCopied(m0, m, m', pf, cf, h, i, out, out', nf)
    requires j < i
    ensures SameSlot(m0, pf, m', cf, h, j)
  {
    assert SameSlot(m0, pf, m, cf, h, j);
    assert EntryAt(m', cf, j) == EntryAt(m, cf, j);
    if Present(m0, pf, h, j) {
      SubInFrames(m, cf, h, j);
      SubInFrames(m0, pf, h, j);
      assert cf !in Sub(m, cf, h, j);
      SameTreeFrame(m0, m0, Child(m0, pf, j), m, m', Child(m, cf, j), h - 1);
    }
  }

  lemma CopyDone(m0: Mem, m: Mem, pf: nat, cf: nat, h: nat, out0: set<nat>, out: set<nat>)
    requires Copying(m0, m, pf, cf, h, out0, out, Limit(h))
    ensures SameTree(m0, pf, m, cf, h)
    ensures |out| == |out0| + Size(m0, pf, h) - 1
  {}

  /** What the loop body may rely on at a present slot of the parent. */
  lemma CopySlotFacts(m0: Mem, m: Mem, pf: nat, cf: nat, h: nat, out0: set<nat>, out: set<nat>, i: nat)
    requires CanCopy(m0, pf, cf, h, out0) && Copying(m0, m, pf, cf, h, out0, out, i) && i < Limit(h)
    ensures IsTable(m, pf) && IsTable(m, cf) && i < ENTRIES && EntryAt(m, pf, i) == EntryAt(m0, pf, i)
    ensures EntryAt(m0, pf, i).flags.present ==> Present(m0, pf, h, i) && EntryOk(EntryAt(m0, pf, i))
    ensures Present(m0, pf, h, i) && h == 1 ==>
      IsPage(m0, Child(m0, pf, i)) && IsPage(m, Child(m0, pf, i)) && m[Child(m0, pf, i)] == m0[Child(m0, pf, i)]
    ensures Present(m0, pf, h, i) ==>
      |out| + Size(m0, Child(m0, pf, i), h - 1) <= |out0| + Size(m0, pf, h) - 1
    ensures Size(m0, Child(m0, pf, i), h - 1) >= 1
  {
    assert pf in Frames(m0, pf, h);
    SubInFrames(m0, pf, h, i);
    SizeBefore(m0, pf, h, i, Limit(h));
    if Present(m0, pf, h, i) && h == 1 {
      assert Tree(m0, Child(m0, pf, i), 0);
      assert Child(m0, pf, i) in Sub(m0, pf, h, i);
    }
  }

  lemma PageCopied(m0: Mem, m: Mem, m': Mem, pf: nat, cf: nat, h: nat, out0: set<nat>, out: set<nat>, i: nat, nf: nat)
    requires CanCopy(m0, pf, cf, h, out0) && Copying(m0, m, pf, cf, h, out0, out, i) && nf !in out
    requires h == 1 && i < Limit(h) && Present(m0, pf, h, i) && IsPage(m0, Child(m0, pf, i))
    requires IsTable(m, cf)
    requires m' == Written(m[nf := m0[Child(m0, pf, i)]], cf, i, Entry(nf, EntryAt(m0, pf, i).flags))
    ensures SlotCopied(m0, m, m', pf, cf, h, i, out, out + {nf}, nf)
  {
    assert Frames(m', nf, 0) == {nf};
  }

  /** A table frame nf was made and hung into slot i: what is below the parent's slot can now be copied to it. */
  lemma TableReady(m0: Mem, m: Mem, m1: Mem, pf: nat, cf: nat, h: nat, out0: set<nat>, out: set<nat>, i: nat, nf: nat)
    requires CanCopy(m0, pf, cf, h, out0) && Copying(m0, m, pf, cf, h, out0, out, i) && nf !in out
    requires h > 1 && i < Limit(h) && Present(m0, pf, h, i) && IsTable(m, cf)
    requires m1 == Written(m[nf := EmptyTable()], cf, i, Entry(nf, EntryAt(m0, pf, i).flags))
    ensures CanCopy(m1, Child(m0, pf, i), nf, h - 1, out + {nf})
    ensures Size(m1, Child(m0, pf, i), h - 1) == Size(m0, Child(m0, pf, i), h - 1)
    ensures Agree(m0, m1, Frames(m0, Child(m0, pf, i), h - 1)) && Tree(m0, Child(m0, pf, i), h - 1)
  {
    SubInFrames(m0, pf, h, i);
    TreeFrame(m0, m1, Child(m0, pf, i), h - 1);
    SizeFrame(m0, m1, Child(m0, pf, i), h - 1);
    assert forall j: nat | j < ENTRIES :: EntryAt(m1, nf, j) == UNUSED;
  }

  lemma TableCopied(m0: Mem, m: Mem, m1: Mem, m': Mem, pf: nat, cf: nat, h: nat, out0: set<nat>, out: set<nat>,
                    out': set<nat>, i: nat, nf: nat)
    requires CanCopy(m0, pf, cf, h, out0) && Copying(m0, m, pf, cf, h, out0, out, i) && nf !in out
    requires h > 1 && i < Limit(h) && Present(m0, pf, h, i) && IsTable(m, cf)
    requires m1 == Written(m[nf := EmptyTable()], cf, i, Entry(nf, EntryAt(m0, pf, i).flags))
    requires CanCopy(m1, Child(m0, pf, i), nf, h - 1, out + {nf})
    requires Size(m1, Child(m0, pf, i), h - 1) == Size(m0, Child(m0, pf, i), h - 1)
    requires Agree(m0, m1, Frames(m0, Child(m0, pf, i), h - 1)) && Tree(m0, Child(m0, pf, i), h - 1)
    requires Copying(m1, m', Child(m0, pf, i), nf, h - 1, out + {nf}, out', Limit(h - 1))
    ensures SlotCopied(m0, m, m', pf, cf, h, i, out, out', nf)
  {
    hide Frames, Size, Subs, Sub, Tree, SameTree;
    var c := Child(m0, pf, i);
    CopyDone(m1, m', c, nf, h - 1, out + {nf}, out');
    AgreeBack(m0, m1, c, h - 1);
    SameTreeFrame(m1, m0, c, m', m', nf, h - 1);
    assert m1[cf] == m'[cf];
    assert forall j: nat | j != i :: EntryAt(m', cf, j) == EntryAt(m1, cf, j) == EntryAt(m, cf, j);
  }

  lemma AgreeBack(m0: Mem, m1: Mem, f: nat, h: nat)
    requires Tree(m0, f, h) && Agree(m0, m1, Frames(m0, f, h))
    ensures Tree(m1, f, h) && Agree(m1, m0, Frames(m1, f, h))
  {
    TreeFrame(m0, m1, f, h);
    forall g | g in Frames(m0, f, h) ensures g in m0 {
      FramesInMem(m0, f, h, g);
    }
  }

  lemma CopyingMeans(m0: Mem, m: Mem, pf: nat, cf: nat, h: nat, out0: set<nat>, out: set<nat>, i: nat)
    requires Copying(m0, m, pf, cf, h, out0, out, i)
    ensures out0 <= out && Agree(m0, m, out0 - {cf})
  {}

  /** The loop body for a page: a frame of its own with the same bytes. */
  lemma PageSlot(m0: Mem, m: Mem, m': Mem, pf: nat, cf: nat, out0: set<nat>, out: set<nat>, i: nat, nf: nat)
    requires CanCopy(m0, pf, cf, 1, out0) && Copying(m0, m, pf, cf, 1, out0, out, i) && nf !in out
    requires i < Limit(1) && Present(m0, pf, 1, i) && IsPage(m0, Child(m0, pf, i)) && IsTable(m, cf)
    requires m' == Written(m[nf := m0[Child(m0, pf, i)]], cf, i, Entry(nf, EntryAt(m0, pf, i).flags))
    ensures Copying(m0, m', pf, cf, 1, out0, out + {nf}, i + 1)
  {
    hide CanCopy, Copying, SlotCopied;
    PageCopied(m0, m, m', pf, cf, 1, out0, out, i, nf);
    CopyStep(m0, m, m', pf, cf, 1, out0, out, out + {nf}, i, nf);
  }

  /** The loop body for a table: a new table in the slot (m1), and below it a copy of all that the parent has. */
  lemma TableSlot(m0: Mem, m: Mem, m1: Mem, m': Mem, pf: nat, cf: nat, h: nat, out0: set<nat>, out: set<nat>,
                  out': set<nat>, i: nat, nf: nat)
    requires CanCopy(m0, pf, cf, h, out0) && Copying(m0, m, pf, cf, h, out0, out, i) && nf !in out
    requires h > 1 && i < Limit(h) && Present(m0, pf, h, i) && IsTable(m, cf)
    requires m1 == Written(m[nf := EmptyTable()], cf, i, Entry(nf, EntryAt(m0, pf, i).flags))
    requires Copying(m1, m', Child(m0, pf, i), nf, h - 1, out + {nf}, out', Limit(h - 1))
    ensures Copying(m0, m', pf, cf, h, out0, out', i + 1)
  {
    hide CanCopy, Copying, SlotCopied, Tree, Frames, Size;
    TableReady(m0, m, m1, pf, cf, h, out0, out, i, nf);
    TableCopied(m0, m, m1, m', pf, cf, h, out0, out, out', i, nf);
    CopyStep(m0, m, m', pf, cf, h, out0, out, out', i, nf);
  }

  /** The copy of a subtree ran out of frames: what was in use before the whole copy is as it was. */
  lemma CopyAborted(m0: Mem, m: Mem, m1: Mem, m': Mem, pf: nat, cf: nat, h: nat, out0: set<nat>, out: set<nat>, i: nat,
                    nf: nat, e: Entry)
    requires Copying(m0, m, pf, cf, h, out0, out, i) && nf !in out && IsTable(m, cf) && i < ENTRIES
    requires m1 == Written(m[nf := EmptyTable()], cf, i, e)
    requires Agree(m1, m', out + {nf} - {nf})
    ensures Agree(m0, m', out0 - {cf})
  {
    hide Tree, Frames, SizeUpTo;
    assert out + {nf} - {nf} == out;
  }

  /** Copies everything below the level-h table pf to the empty table cf, over fresh frames: one level of
    * the source's four nested loops.  Reports failure when the frames run out. */
  method CopyTable(pm: PhysMem, fa: FrameAllocator, pf: nat, cf: nat, h: nat) returns (ok: bool)
    requires fa.Valid() && CanCopy(pm.mem, pf, cf, h, fa.out)
    modifies pm, fa
    ensures fa.Valid() && old(fa.out) <= fa.out
    ensures Agree(old(pm.mem), pm.mem, old(fa.out) - {cf})
    ensures ok ==> Copying(old(pm.mem), pm.mem, pf, cf, h, old(fa.out), fa.out, Limit(h))
    ensures !ok ==> fa.out == fa.all && |fa.all| < |old(fa.out)| + Size(old(pm.mem), pf, h) - 1
    decreases h
  {
    hide Tree, Frames, Subs, Sub, Size, SizeUpTo, FrameAllocator.Valid, SameTree, SameSlot, SlotCopied, Copying,
      CanCopy, Agree;
    ghost var m0, out0 := pm.mem, fa.out;
    CopyStart(m0, pf, cf, h, out0);
    HeightOk(m0, pf, cf, h, out0);
    for i := 0 to Limit(h)
      invariant fa.Valid() && Copying(m0, pm.mem, pf, cf, h, out0, fa.out, i)
    {
      ghost var m, out := pm.mem, fa.out;
      CopyingMeans(m0, m, pf, cf, h, out0, out, i);
      CopySlotFacts(m0, m, pf, cf, h, out0, out, i);
      var entry := pm.mem[pf].entries[i];
      if entry.flags.present {
        var frame := fa.AllocateFrame();
        if frame.None? {
          return false;
        }
        var nf := frame.value;
        if h == 1 {
          pm.mem := pm.mem[nf := pm.mem[entry.frame]];
          pm.SetEntry(cf, i, Entry(nf, entry.flags));
          PageSlot(m0, m, pm.mem, pf, cf, out0, out, i, nf);
        } else {
          pm.mem := pm.mem[nf := EmptyTable()];
          pm.SetEntry(cf, i, Entry(nf, entry.flags));
          ghost var m1 := pm.mem;
          TableReady(m0, m, m1, pf, cf, h, out0, out, i, nf);
          ok := CopyTable(pm, fa, entry.frame, nf, h - 1);
          if !ok {
            CopyAborted(m0, m, m1, pm.mem, pf, cf, h, out0, out, i, nf, Entry(nf, entry.flags));
            return false;
          }
          TableSlot(m0, m, m1, pm.mem, pf, cf, h, out0, out, fa.out, i, nf);
        }
      } else {
        CopySkip(m0, m, pf, cf, h, out0, out, i);
      }
    }
    CopyingMeans(m0, pm.mem, pf, cf, h, out0, fa.out, Limit(h));
    ok := true;
  }

  lemma HeightOk(m: Mem, pf: nat, cf: nat, h: nat, out: set<nat>)
    requires CanCopy(m, pf, cf, h, out)
    ensures 1 <= h <= 4
  {}

  // ---- Freeing

  /** Nothing outside s changed. */
  ghost predicate OnlyIn(m: Mem, m': Mem, s: set<nat>) {
    forall g | g in m && g !in s :: g in m' && m'[g] == m[g]
  }

  /** The loop state of a free: the first i slots are cleared, and what they held was given back. */
  ghost predicate Freeing(m0: Mem, m: Mem, f: nat, h: nat, out0: set<nat>, out: set<nat>, i: nat) {
    && h > 0 && i <= Limit(h)
    && Tree(m, f, h) && Frames(m, f, h) <= Frames(m0, f, h)
    && out == out0 - (Frames(m0, f, h) - Frames(m, f, h))
    && OnlyIn(m0, m, Frames(m0, f, h))
    && (forall j: nat | j < i :: EntryAt(m, f, j) == UNUSED)
    && (forall j: nat | Limit(h) <= j < ENTRIES :: EntryAt(m, f, j) == EntryAt(m0, f, j))
  }

  lemma FreeSlotFacts(m0: Mem, m: Mem, f: nat, h: nat, out0: set<nat>, out: set<nat>, i: nat)
    requires Freeing(m0, m, f, h, out0, out, i) && i < Limit(h) && Frames(m0, f, h) <= out0
    ensures IsTable(m, f) && i < ENTRIES && Frames(m, f, h) <= out
    ensures m[f].entries[i].flags.present ==>
      var c := m[f].entries[i].frame;
      && Present(m, f, h, i) && Tree(m, c, h - 1)
      && Sub(m, f, h, i) == Frames(m, c, h - 1) && Sub(m, f, h, i) <= Frames(m, f, h)
      && c in Frames(m, c, h - 1) && (h == 1 ==> Frames(m, c, h - 1) == {c})
    ensures !m[f].entries[i].flags.present ==> m[f].entries[i] == UNUSED
  {
    SubInFrames(m, f, h, i);
    assert EntryOk(EntryAt(m, f, i));
  }

  lemma FreeStep(m0: Mem, m: Mem, m1: Mem, m': Mem, f: nat, h: nat, out0: set<nat>, out: set<nat>, i: nat)
    requires Freeing(m0, m, f, h, out0, out, i) && i < Limit(h) && Frames(m0, f, h) <= out0
    requires OnlyIn(m, m1, Sub(m, f, h, i)) && IsTable(m1, f) && m' == Written(m1, f, i, UNUSED)
    ensures Freeing(m0, m', f, h, out0, out - Sub(m, f, h, i), i + 1)
  {
    hide Frames, Subs, Sub;
    assert f !in Sub(m, f, h, i);
    assert m1[f] == m[f];
    FreeSpliced(m, m1, m', f, h, i);
    SpliceHere(m, m', f, h, i);
    SubInFrames(m, f, h, i);
    RootInFrames(m, f, h);
  }

  lemma FreeSpliced(m: Mem, m1: Mem, m': Mem, f: nat, h: nat, i: nat)
    requires Tree(m, f, h) && h > 0 && i < Limit(h)
    requires OnlyIn(m, m1, Sub(m, f, h, i)) && IsTable(m1, f) && m1[f] == m[f] && m' == Written(m1, f, i, UNUSED)
    ensures Spliced(m, m', f, h, [], f, i) && Sub(m', f, h, i) == {}
  {}

  lemma FreeDone(m0: Mem, m: Mem, f: nat, h: nat, out0: set<nat>, out: set<nat>)
    requires Freeing(m0, m, f, h, out0, out, Limit(h)) && Frames(m0, f, h) <= out0
    ensures Frames(m, f, h) == {f} && out == out0 - Frames(m0, f, h) + {f}
  {
    BareTable(m, f, h);
  }

  /** Gives back every frame below the table f, each once, and clears its user entries: one level of the
    * source's four nested loops. */
  method FreeTable(pm: PhysMem, fa: FrameAllocator, f: nat, h: nat)
    requires fa.Valid() && 1 <= h <= 4 && Tree(pm.mem, f, h) && Frames(pm.mem, f, h) <= fa.out
    modifies pm, fa
    ensures fa.Valid() && fa.out == old(fa.out) - Frames(old(pm.mem), f, h) + {f}
    ensures Freeing(old(pm.mem), pm.mem, f, h, old(fa.out), fa.out, Limit(h))
    decreases h
  {
    hide Tree, Frames, Subs, Sub, FrameAllocator.Valid;
    ghost var m0, out0 := pm.mem, fa.out;
    for i := 0 to Limit(h)
      invariant fa.Valid() && Freeing(m0, pm.mem, f, h, out0, fa.out, i)
    {
      ghost var m, out := pm.mem, fa.out;
      FreeSlotFacts(m0, m, f, h, out0, out, i);
      var entry := pm.mem[f].entries[i];
      if entry.flags.present {
        if h > 1 {
          FreeTable(pm, fa, entry.frame, h - 1);
        }
        fa.DeallocateFrame(entry.frame);
        ghost var m1 := pm.mem;
        TableOutsideSub(m, m1, f, h, i);
        pm.SetEntry(f, i, UNUSED);
        FreeStep(m0, m, m1, pm.mem, f, h, out0, out, i);
      } else {
        FreeSkip(m0, m, f, h, out0, out, i);
      }
    }
    FreeDone(m0, pm.mem, f, h, out0, fa.out);
  }

  lemma TableOutsideSub(m: Mem, m1: Mem, f: nat, h: nat, i: nat)
    requires Tree(m, f, h) && h > 0 && i < Limit(h) && OnlyIn(m, m1, Sub(m, f, h, i))
    ensures IsTable(m1, f) && m1[f] == m[f]
  {}

  lemma FreeSkip(m0: Mem, m: Mem, f: nat, h: nat, out0: set<nat>, out: set<nat>, i: nat)
    requires Freeing(m0, m, f, h, out0, out, i) && i < Limit(h) && EntryAt(m, f, i) == UNUSED
    ensures Freeing(m0, m, f, h, out0, out, i + 1)
  {}

  // ---- Whole address spaces

  const PML4_CODE: nat := 32
  const PML4_STACK: nat := 64

  /** Makes a PML4 whose kernel half is that of the active table. */
  method SetupKvm(pm: PhysMem, fa: FrameAllocator, active: nat) returns (r: Option<nat>)
    requires fa.Valid() && IsTable(pm.mem, active) && active !in fa.all - fa.out
    modifies pm, fa
    ensures fa.Valid()
    ensures r.None? ==> fa.out == fa.all && fa.out == old(fa.out) && pm.mem == old(pm.mem)
    ensures r.Some? ==>
      && r.value !in old(fa.out) && fa.out == old(fa.out) + {r.value} && r.value in fa.all
      && IsTable(pm.mem, r.value) && pm.mem == old(pm.mem)[r.value := pm.mem[r.value]]
      && (forall i: nat | i < USER_ENTRIES :: EntryAt(pm.mem, r.value, i) == UNUSED)
      && KernelHalf(pm.mem, r.value) == KernelHalf(old(pm.mem), active)
  {
    hide FrameAllocator.Valid;
    r := fa.AllocateFrame();
    if r.None? {
      return;
    }
    var f := r.value;
    pm.mem := pm.mem[f := EmptyTable()];
    ghost var m0 := pm.mem;
    for i := USER_ENTRIES to ENTRIES
      modifies pm
      invariant IsTable(pm.mem, f) && pm.mem == m0[f := pm.mem[f]] && IsTable(pm.mem, active)
      invariant forall j: nat | j < USER_ENTRIES :: EntryAt(pm.mem, f, j) == UNUSED
      invariant forall j: nat | USER_ENTRIES <= j < i :: EntryAt(pm.mem, f, j) == EntryAt(m0, active, j)
    {
      pm.SetEntry(f, i, pm.mem[active].entries[i]);
    }
    assert forall j | 0 <= j < 256 :: KernelHalf(pm.mem, f)[j] == EntryAt(pm.mem, f, j + 256);
    assert forall j | 0 <= j < 256 :: KernelHalf(m0, active)[j] == EntryAt(m0, active, j + 256);
  }

  /** A user address space with nothing in it. */
  method NewUvm(pm: PhysMem, fa: FrameAllocator, active: nat) returns (r: Option<nat>)
    requires fa.Valid() && IsTable(pm.mem, active) && active !in fa.all - fa.out
    modifies pm, fa
    ensures fa.Valid()
    ensures r.None? ==> fa.out == fa.all && fa.out == old(fa.out) && pm.mem == old(pm.mem)
    ensures r.Some? ==>
      && r.value !in old(fa.out) && fa.out == old(fa.out) + {r.value} && r.value in fa.all
      && IsTable(pm.mem, r.value) && pm.mem == old(pm.mem)[r.value := pm.mem[r.value]]
      && Tree(pm.mem, r.value, 4) && Frames(pm.mem, r.value, 4) == {r.value}
      && (forall i: nat | i < USER_ENTRIES :: EntryAt(pm.mem, r.value, i) == UNUSED)
      && KernelHalf(pm.mem, r.value) == KernelHalf(old(pm.mem), active)
  {
    hide FrameAllocator.Valid;
    r := SetupKvm(pm, fa, active);
    if r.Some? {
      ghost var kernel := KernelHalf(pm.mem, r.value);
      pm.SetEntry(r.value, PML4_CODE, UNUSED);
      pm.SetEntry(r.value, PML4_STACK, UNUSED);
      assert KernelHalf(pm.mem, r.value) == kernel;
      assert forall i: nat {:trigger Present(pm.mem, r.value, 4, i)} | i < Limit(4) :: !Present(pm.mem, r.value, 4, i);
      BareTable(pm.mem, r.value, 4);
    }
  }

  /** Two address spaces hold the same program: the same pages mapped, with the same flags and bytes. */
  ghost predicate SameProgram(m: Mem, a: nat, m': Mem, b: nat) {
    forall n: nat {:trigger View(m', b, n)} | n < USER_PAGES ::
      && View(m', b, n).Some? == View(m, a, n).Some?
      && (View(m, a, n).Some? ==>
            && View(m', b, n).value.flags == View(m, a, n).value.flags
            && View(m', b, n).value.bytes == View(m, a, n).value.bytes)
  }

  lemma SameTreeProgram(m: Mem, a: nat, m': Mem, b: nat)
    requires SameTree(m, a, m', b, 4)
    ensures SameProgram(m, a, m', b)
  {
    forall n: nat | n < USER_PAGES
      ensures View(m', b, n).Some? == View(m, a, n).Some?
      ensures View(m, a, n).Some? ==>
        && View(m', b, n).value.flags == View(m, a, n).value.flags
        && View(m', b, n).value.bytes == View(m, a, n).value.bytes
    {
      SameTreeLeaf(m, a, m', b, 4, PathOf(n * PAGE_SIZE));
    }
  }

  /** Fork's copy: a new address space over fresh frames.  It fails exactly when there are fewer free
    * frames than the parent's tree has; then the frames taken so far stay outstanding. */
  method CopyUvm(pm: PhysMem, fa: FrameAllocator, active: nat, parent: nat) returns (r: Option<nat>)
    requires fa.Valid() && IsTable(pm.mem, active) && active !in fa.all - fa.out
    requires Owns(pm.mem, fa.out, parent)
    modifies pm, fa
    ensures fa.Valid() && old(fa.out) <= fa.out && Agree(old(pm.mem), pm.mem, old(fa.out))
    ensures Owns(pm.mem, fa.out, parent) && SameView(old(pm.mem), pm.mem, parent)
    ensures SamePaths(old(pm.mem), pm.mem, parent)
    ensures r.Some? <==> |Frames(old(pm.mem), parent, 4)| <= |fa.all - old(fa.out)|
    ensures r.None? ==> fa.out == fa.all
    ensures r.Some? ==>
      && Tree(pm.mem, r.value, 4)
      && Frames(pm.mem, r.value, 4) == fa.out - old(fa.out)
      && SameTree(old(pm.mem), parent, pm.mem, r.value, 4)
      && SameProgram(old(pm.mem), parent, pm.mem, r.value)
      && SameEntries(old(pm.mem), parent, pm.mem, r.value)
      && KernelHalf(pm.mem, r.value) == KernelHalf(old(pm.mem), active)
  {
    hide Tree, Frames, Subs, Size, View, FrameAllocator.Valid, SameTree, SamePaths, SameEntries;
    ghost var m0, out0 := pm.mem, fa.out;
    SizeCountsFrames(m0, parent, 4);
    OutInAll(fa);
    RootInFrames(m0, parent, 4);
    r := NewUvm(pm, fa, active);
    ghost var m1 := pm.mem;
    if r.None? {
      SameViewFrame(m0, m1, parent, out0);
      return;
    }
    SizeFrame(m0, m1, parent, 4);
    TreeFrame(m0, m1, parent, 4);
    var ok := CopyTable(pm, fa, parent, r.value, 4);
    SameViewFrame(m0, pm.mem, parent, out0);
    OutInAll(fa);
    Counting(fa.all, out0, fa.out);
    if !ok {
      return None;
    }
    CopyDone(m1, pm.mem, parent, r.value, 4, out0 + {r.value}, fa.out);
    AgreeBack(m0, m1, parent, 4);
    RootInFrames(pm.mem, r.value, 4);
    SameTreeFrame(m1, m0, parent, pm.mem, pm.mem, r.value, 4);
    SameTreeProgram(m0, parent, pm.mem, r.value);
    SameTreeEntries(m0, parent, pm.mem, r.value);
    KernelHalfEntries(m1, pm.mem, r.value);
  }

  lemma KernelHalfEntries(m: Mem, m': Mem, f: nat)
    requires IsTable(m, f) && Tree(m', f, 4)
    requires forall j: nat | Limit(4) <= j < ENTRIES :: EntryAt(m', f, j) == EntryAt(m, f, j)
    ensures KernelHalf(m', f) == KernelHalf(m, f)
  {
    assert forall j | 0 <= j < 256 :: KernelHalf(m', f)[j] == EntryAt(m', f, j + 256);
    assert forall j | 0 <= j < 256 :: KernelHalf(m, f)[j] == EntryAt(m, f, j + 256);
  }

  lemma SameViewFrame(m: Mem, m': Mem, root: nat, out: set<nat>)
    requires Owns(m, out, root) && Agree(m, m', out)
    ensures Owns(m', out, root) && Frames(m', root, 4) == Frames(m, root, 4) && SameView(m, m', root)
    ensures KernelHalf(m', root) == KernelHalf(m, root) && SamePaths(m, m', root)
  {
    hide SamePaths;
    TreeFrame(m, m', root, 4);
    EntriesFrame(m, m', root);
    assert root in Frames(m, root, 4);
    forall n: nat | n < USER_PAGES ensures View(m', root, n) == View(m, root, n) {
      if Pte(m, root, n).Some? {
        LeafFrame(m, root, 4, PathOf(n * PAGE_SIZE));
      }
    }
  }

  /** Frees an address space that is not active: every frame of its user half once, then the PML4. */
  method FreeUvm(pm: PhysMem, fa: FrameAllocator, root: nat)
    requires fa.Valid() && Owns(pm.mem, fa.out, root)
    modifies pm, fa
    ensures fa.Valid() && fa.out == old(fa.out) - Frames(old(pm.mem), root, 4)
    ensures OnlyIn(old(pm.mem), pm.mem, Frames(old(pm.mem), root, 4))
  {
    hide Tree, Frames, FrameAllocator.Valid;
    RootInFrames(pm.mem, root, 4);
    FreeTable(pm, fa, root, 4);
    fa.DeallocateFrame(root);
  }

  /** A copy that is freed again leaves the same frames available as before, and the parent as it was. */
  method CopyThenFree(pm: PhysMem, fa: FrameAllocator, active: nat, parent: nat) returns (copied: bool)
    requires fa.Valid() && IsTable(pm.mem, active) && active !in fa.all - fa.out
    requires Owns(pm.mem, fa.out, parent)
    modifies pm, fa
    ensures fa.Valid() && (copied ==> fa.out == old(fa.out))
    ensures copied <==> |Frames(old(pm.mem), parent, 4)| <= |fa.all - old(fa.out)|
    ensures Owns(pm.mem, fa.out, parent) && SameView(old(pm.mem), pm.mem, parent)
  {
    hide Tree, Frames, View, SameTree, SameProgram, KernelHalf, FrameAllocator.Valid;
    ghost var m0, out0 := pm.mem, fa.out;
    var child := CopyUvm(pm, fa, active, parent);
    copied := child.Some?;
    if copied {
      ghost var m1 := pm.mem;
      FreeUvm(pm, fa, child.value);
      assert Agree(m0, pm.mem, out0);
      SameViewFrame(m0, pm.mem, parent, out0);
    }
  }

  /** Whatever happens inside one tree, a disjoint tree keeps its view: parent and child do not see
    * each other's later writes, growth or release. */
  lemma Isolation(m: Mem, m': Mem, a: nat, b: nat)
    requires Tree(m, b, 4) && Frames(m, a, 4) !! Frames(m, b, 4)
    requires OnlyIn(m, m', Frames(m, a, 4))
    ensures Tree(m', b, 4) && Frames(m', b, 4) == Frames(m, b, 4) && SameView(m, m', b)
  {
    SameViewFrame(m, m', b, Frames(m, b, 4));
  }
}

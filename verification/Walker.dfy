/** Walking and extending a page table in place. */
module Walker {
  import opened Basics
  import opened PageTree
  import opened AddressSpace
  import opened TableEntries
  import opened FrameAlloc

  /** Physical memory: the content of every frame written so far. */
  class PhysMem {
    var mem: Mem

    constructor (initial: Mem)
      ensures mem == initial
    {
      mem := initial;
    }

    /** Overwrites one entry of a table in place. */
    method SetEntry(table: nat, index: nat, e: Entry)
      requires IsTable(mem, table) && index < ENTRIES
      modifies this
      ensures mem == Written(old(mem), table, index, e)
    {
      mem := mem[table := Table(mem[table].entries[index := e])];
    }
  }

  function Written(m: Mem, table: nat, index: nat, e: Entry): (m': Mem)
    requires IsTable(m, table) && index < ENTRIES
    ensures IsTable(m', table) && EntryAt(m', table, index) == e
    ensures forall j: nat | j != index :: EntryAt(m', table, j) == EntryAt(m, table, j)
  {
    m[table := Table(m[table].entries[index := e])]
  }

  /** The place of a page-table entry. */
  datatype Slot = Slot(table: nat, index: nat)

  // ---- Hanging something new into an unused slot

  ghost predicate NoLeaves(m: Mem, f: nat, h: nat) {
    forall p {:trigger Leaf(m, f, h, p)} :: Leaf(m, f, h, p) == None
  }

  lemma EmptyTree(m: Mem, f: nat, h: nat)
    requires h > 0 && f in m && m[f] == EmptyTable()
    ensures Tree(m, f, h) && Frames(m, f, h) == {f}
    ensures NoLeaves(m, f, h)
  {
    assert forall i: nat | i < ENTRIES :: EntryAt(m, f, i) == UNUSED;
    assert forall i: nat {:trigger Present(m, f, h, i)} :: !Present(m, f, h, i);
    BareTable(m, f, h);
  }

  /** Entry e, whose target c is a new table or page, was written to an unused slot. */
  ghost predicate Attached(m: Mem, m': Mem, root: nat, q: seq<nat>, t: nat, i: nat, c: nat, e: Entry) {
    && |q| < 4 && Resolve(m, root, 4, q) == Some(t)
    && i < Limit(4 - |q|) && !Present(m, t, 4 - |q|, i)
    && c !in Frames(m, root, 4) && e.frame == c && e.flags.present && !e.flags.huge
    && c in m' && (if |q| < 3 then m'[c] == EmptyTable() else IsPage(m', c))
    && IsTable(m, t) && IsTable(m', t) && EntryAt(m', t, i) == e
    && (forall j: nat | j != i :: EntryAt(m', t, j) == EntryAt(m, t, j))
    && Agree(m, m', Frames(m, root, 4) - {t})
  }

  lemma AttachedSpliced(m: Mem, m': Mem, root: nat, q: seq<nat>, t: nat, i: nat, c: nat, e: Entry)
    requires Tree(m, root, 4) && Attached(m, m', root, q, t, i, c, e)
    ensures Spliced(m, m', root, 4, q, t, i)
    ensures Sub(m, t, 4 - |q|, i) == {} && Sub(m', t, 4 - |q|, i) == {c}
    ensures |q| < 3 ==> NoLeaves(m', c, 3 - |q|)
  {
    if |q| < 3 {
      EmptyTree(m', c, 3 - |q|);
    }
  }

  lemma AttachTree(m: Mem, m': Mem, root: nat, q: seq<nat>, t: nat, i: nat, c: nat, e: Entry)
    requires Tree(m, root, 4) && Attached(m, m', root, q, t, i, c, e)
    ensures Tree(m', root, 4) && Frames(m', root, 4) == Frames(m, root, 4) + {c}
    ensures Resolve(m', root, 4, q) == Some(t) && Resolve(m', root, 4, q + [i]) == Some(c)
    ensures KernelHalf(m', root) == KernelHalf(m, root)
  {
    AttachedSpliced(m, m', root, q, t, i, c, e);
    Splice(m, m', root, 4, q, t, i);
    SlotKept(m, m', root, q, t, i);
    assert Resolve(m', root, 4, q) == Some(t);
    assert (q + [i])[|q|..] == [i];
    ResolveSplit(m', root, 4, q, q + [i]);
  }

  lemma AttachPath(m: Mem, m': Mem, root: nat, q: seq<nat>, t: nat, i: nat, c: nat, e: Entry, p: seq<nat>)
    requires Tree(m, root, 4) && Attached(m, m', root, q, t, i, c, e) && 1 <= |p| <= 3
    ensures EntryTo(m', root, p) == if p == q + [i] then Some(e.flags) else EntryTo(m, root, p)
    ensures p == q + [i] ==> EntryTo(m, root, p) == None
  {
    hide Tree, Frames, Sub, Subs;
    var r := p[..|p| - 1];
    AttachedSpliced(m, m', root, q, t, i, c, e);
    Splice(m, m', root, 4, q, t, i);
    assert Resolve(m', root, 4, q) == Some(t);
    if p == q + [i] {
      assert r == q && p[|p| - 1] == i;
    } else if q + [i] <= r {
      BelowAttached(m, m', root, q, t, i, c, e, p);
    } else {
      EntryOutside(m, m', root, q, t, i, p);
    }
  }

  /** Below the new table nothing is in use. */
  lemma BelowAttached(m: Mem, m': Mem, root: nat, q: seq<nat>, t: nat, i: nat, c: nat, e: Entry, p: seq<nat>)
    requires Tree(m, root, 4) && Attached(m, m', root, q, t, i, c, e) && |p| <= 4 && |q| < 3
    requires q + [i] <= p && p != q + [i] && Resolve(m', root, 4, q) == Some(t)
    ensures EntryTo(m', root, p) == EntryTo(m, root, p) == None
  {
    hide Tree, Frames, Sub, Subs;
    ResolveSplit(m, root, 4, q, p);
    ResolveSplit(m', root, 4, q, p);
    assert p[|q|..][0] == p[|q|] == (q + [i])[|q|] == i;
    assert p[|q|..][1..] == p[|q| + 1..];
    BelowEmpty(m', c, 3 - |q|, p[|q| + 1..]);
    EntryResolves(m, root, p);
    EntryResolves(m', root, p);
  }

  lemma BelowEmpty(m: Mem, f: nat, h: nat, p: seq<nat>)
    requires h > 0 && f in m && m[f] == EmptyTable() && p != []
    ensures Resolve(m, f, h, p) == None
  {
    assert EntryAt(m, f, p[0]) == UNUSED;
  }

  lemma AttachTables(m: Mem, m': Mem, root: nat, q: seq<nat>, t: nat, i: nat, c: nat, e: Entry)
    requires Tree(m, root, 4) && Attached(m, m', root, q, t, i, c, e)
    ensures |q| < 3 ==> forall g: Grant | g.flags == e.flags :: TableAdded(m, m', root, q + [i], g)
    ensures |q| == 3 ==> SamePaths(m, m', root)
  {
    hide Tree, Attached, EntryTo;
    forall p: seq<nat> | 1 <= |p| <= 3
      ensures EntryTo(m', root, p) == if p == q + [i] then Some(e.flags) else EntryTo(m, root, p)
      ensures p == q + [i] ==> EntryTo(m, root, p) == None
    {
      AttachPath(m, m', root, q, t, i, c, e, p);
    }
  }

  lemma AttachLeaf(m: Mem, m': Mem, root: nat, q: seq<nat>, t: nat, i: nat, c: nat, e: Entry, p: seq<nat>)
    requires Tree(m, root, 4) && Attached(m, m', root, q, t, i, c, e) && |p| == 4
    ensures !(q + [i] <= p) ==> Leaf(m', root, 4, p) == Leaf(m, root, 4, p)
    ensures q + [i] <= p ==> Leaf(m, root, 4, p) == None && Leaf(m', root, 4, p) == if |q| == 3 then Some(e) else None
  {
    AttachedSpliced(m, m', root, q, t, i, c, e);
    Splice(m, m', root, 4, q, t, i);
    if q + [i] <= p {
      assert Resolve(m', root, 4, q) == Some(t);
      ResolveSplit(m, root, 4, q, p);
      ResolveSplit(m', root, 4, q, p);
      assert p[|q|..][0] == p[|q|] == (q + [i])[|q|] == i;
    }
  }

  lemma Attach(m: Mem, m': Mem, root: nat, q: seq<nat>, t: nat, i: nat, c: nat, e: Entry)
    requires Tree(m, root, 4) && Attached(m, m', root, q, t, i, c, e)
    ensures Tree(m', root, 4) && Frames(m', root, 4) == Frames(m, root, 4) + {c}
    ensures Resolve(m', root, 4, q) == Some(t) && Resolve(m', root, 4, q + [i]) == Some(c)
    ensures forall p {:trigger Leaf(m', root, 4, p)} | |p| == 4 && !(|q| == 3 && p == q + [i]) ::
      Leaf(m', root, 4, p) == Leaf(m, root, 4, p)
    ensures |q| == 3 ==> Leaf(m', root, 4, q + [i]) == Some(e) && Leaf(m, root, 4, q + [i]) == None
    ensures KernelHalf(m', root) == KernelHalf(m, root)
  {
    AttachTree(m, m', root, q, t, i, c, e);
    forall p | |p| == 4 && !(|q| == 3 && p == q + [i])
      ensures Leaf(m', root, 4, p) == Leaf(m, root, 4, p)
    {
      AttachLeaf(m, m', root, q, t, i, c, e, p);
    }
    if |q| == 3 {
      AttachLeaf(m, m', root, q, t, i, c, e, q + [i]);
    }
  }

  /** User slots lie below the kernel half. */
  lemma SlotKept(m: Mem, m': Mem, root: nat, q: seq<nat>, t: nat, i: nat)
    requires Tree(m, root, 4) && Spliced(m, m', root, 4, q, t, i)
    ensures KernelHalf(m', root) == KernelHalf(m, root)
  {
    ResolveTree(m, root, 4, q);
    assert root in Frames(m, root, 4);
    if t == root {
      assert q == [];
      forall j | 0 <= j < 256 ensures KernelHalf(m', root)[j] == KernelHalf(m, root)[j] {
        assert EntryAt(m', root, j + 256) == EntryAt(m, root, j + 256);
      }
    } else {
      RootOutsideSub(m, root, q, t, i);
      assert m'[root] == m[root];
    }
  }

  lemma {:induction false} RootOutsideSub(m: Mem, root: nat, q: seq<nat>, t: nat, i: nat)
    requires Tree(m, root, 4) && |q| < 4 && Resolve(m, root, 4, q) == Some(t) && i < Limit(4 - |q|)
    ensures root !in Sub(m, t, 4 - |q|, i)
  {
    if q != [] && Present(m, t, 4 - |q|, i) {
      var r := q[1..];
      var c := Child(m, root, q[0]);
      ResolveTree(m, c, 3, r);
      SubInFrames(m, t, 4 - |q|, i);
      assert Sub(m, root, 4, q[0]) == Frames(m, c, 3);
    }
  }

  // ---- Changing the entry of one page

  /** Where the entry of page n lives: the page table that its upper indices lead to. */
  ghost predicate PteSlot(m: Mem, root: nat, n: nat, s: Slot) {
    var p := PathOf(n * PAGE_SIZE);
    Resolve(m, root, 4, p[..3]) == Some(s.table) && s.index == p[3]
  }

  lemma PteSlotEntry(m: Mem, root: nat, n: nat, s: Slot)
    requires Tree(m, root, 4) && n < USER_PAGES && PteSlot(m, root, n, s)
    ensures IsTable(m, s.table) && s.index < ENTRIES && s.table in Frames(m, root, 4)
    ensures EntryOk(EntryAt(m, s.table, s.index))
    ensures Pte(m, root, n) == if Present(m, s.table, 1, s.index) then Some(EntryAt(m, s.table, s.index)) else None
  {
    var p := PathOf(n * PAGE_SIZE);
    ResolveTree(m, root, 4, p[..3]);
    ResolveSplit(m, root, 4, p[..3], p);
    assert p[3..] == [s.index];
    assert s.table in Frames(m, s.table, 1);
  }

  /** What the entry of a page says about the page. */
  lemma SlotView(m: Mem, root: nat, n: nat, s: Slot)
    requires Tree(m, root, 4) && n < USER_PAGES && PteSlot(m, root, n, s)
    ensures IsTable(m, s.table) && s.index < ENTRIES
    ensures var e := m[s.table].entries[s.index];
      if e.flags.present then
        && IsPage(m, e.frame) && View(m, root, n) == Some(UserPage(e.frame, e.flags, m[e.frame].bytes))
        && |m[e.frame].bytes| == PAGE_SIZE
      else View(m, root, n) == None
  {
    PteSlotEntry(m, root, n, s);
    if m[s.table].entries[s.index].flags.present {
      ViewFrames(m, root, n);
    }
  }

  /** Pages whose entry is untouched look as before, when only the table t changed. */
  lemma ViewKept(m: Mem, m': Mem, root: nat, t: nat, n: nat)
    requires Tree(m, root, 4) && IsTable(m, t) && Agree(m, m', Frames(m, root, 4) - {t})
    requires Pte(m', root, n) == Pte(m, root, n)
    ensures View(m', root, n) == View(m, root, n)
  {
    if Pte(m, root, n).Some? {
      LeafFrame(m, root, 4, PathOf(n * PAGE_SIZE));
    }
  }

  lemma MapView(m: Mem, m': Mem, root: nat, n: nat, s: Slot, c: nat, e: Entry)
    requires Tree(m, root, 4) && n < USER_PAGES && PteSlot(m, root, n, s)
    requires Attached(m, m', root, PathOf(n * PAGE_SIZE)[..3], s.table, s.index, c, e)
    ensures Tree(m', root, 4) && Frames(m', root, 4) == Frames(m, root, 4) + {c}
    ensures KernelHalf(m', root) == KernelHalf(m, root)
    ensures View(m, root, n) == None && View(m', root, n) == Some(UserPage(c, e.flags, m'[c].bytes))
    ensures SameViewExcept(m, m', root, n) && SamePaths(m, m', root)
  {
    hide SamePaths;
    var p := PathOf(n * PAGE_SIZE);
    AttachTables(m, m', root, p[..3], s.table, s.index, c, e);
    Attach(m, m', root, p[..3], s.table, s.index, c, e);
    assert p[..3] + [s.index] == p;
    forall n': nat | n' < USER_PAGES && n' != n ensures View(m', root, n') == View(m, root, n') {
      if PathOf(n' * PAGE_SIZE) == p {
        PathInjective(n, n');
      }
      ViewKept(m, m', root, s.table, n');
    }
  }

  /** The present entry of page n becomes e, which is unused or still points to the same frame. */
  ghost predicate Rewritten(m: Mem, m': Mem, root: nat, n: nat, s: Slot, e: Entry) {
    && PteSlot(m, root, n, s) && IsTable(m, s.table) && s.index < ENTRIES
    && EntryAt(m, s.table, s.index).flags.present
    && (e == UNUSED || (e.flags.present && !e.flags.huge && e.frame == EntryAt(m, s.table, s.index).frame))
    && m' == Written(m, s.table, s.index, e)
  }

  lemma RewrittenSpliced(m: Mem, m': Mem, root: nat, n: nat, s: Slot, e: Entry)
    requires Tree(m, root, 4) && n < USER_PAGES && Rewritten(m, m', root, n, s, e)
    ensures Spliced(m, m', root, 4, PathOf(n * PAGE_SIZE)[..3], s.table, s.index)
    ensures Sub(m, s.table, 1, s.index) == {EntryAt(m, s.table, s.index).frame}
    ensures Sub(m', s.table, 1, s.index) == if e == UNUSED then {} else {e.frame}
  {
    ResolveTree(m, root, 4, PathOf(n * PAGE_SIZE)[..3]);
    assert Tree(m, s.table, 1);
    assert Present(m, s.table, 1, s.index);
  }

  lemma RewriteView(m: Mem, m': Mem, root: nat, n: nat, s: Slot, e: Entry)
    requires Tree(m, root, 4) && n < USER_PAGES && Rewritten(m, m', root, n, s, e)
    ensures Tree(m', root, 4) && KernelHalf(m', root) == KernelHalf(m, root)
    ensures View(m, root, n).Some? && View(m, root, n).value.frame == EntryAt(m, s.table, s.index).frame
    ensures Frames(m', root, 4) ==
      if e == UNUSED then Frames(m, root, 4) - {View(m, root, n).value.frame} else Frames(m, root, 4)
    ensures View(m', root, n) == if e == UNUSED then None else Some(View(m, root, n).value.(flags := e.flags))
    ensures SameViewExcept(m, m', root, n) && SamePaths(m, m', root)
  {
    hide SamePaths;
    RewritePaths(m, m', root, n, s, e);
    var p := PathOf(n * PAGE_SIZE);
    RewrittenSpliced(m, m', root, n, s, e);
    Splice(m, m', root, 4, p[..3], s.table, s.index);
    SlotKept(m, m', root, p[..3], s.table, s.index);
    PteSlotEntry(m, root, n, s);
    assert PteSlot(m', root, n, s);
    PteSlotEntry(m', root, n, s);
    LeafFrame(m, root, 4, p);
    assert p[..3] + [s.index] == p;
    forall n': nat | n' < USER_PAGES && n' != n ensures View(m', root, n') == View(m, root, n') {
      if p <= PathOf(n' * PAGE_SIZE) {
        PathInjective(n, n');
      }
      ViewKept(m, m', root, s.table, n');
    }
  }

  /** The entry of a page is no table's entry. */
  lemma RewritePaths(m: Mem, m': Mem, root: nat, n: nat, s: Slot, e: Entry)
    requires Tree(m, root, 4) && n < USER_PAGES && Rewritten(m, m', root, n, s, e)
    ensures SamePaths(m, m', root)
  {
    hide Tree, Frames, Sub, Subs, EntryTo;
    var p := PathOf(n * PAGE_SIZE);
    RewrittenSpliced(m, m', root, n, s, e);
    Splice(m, m', root, 4, p[..3], s.table, s.index);
    forall q: seq<nat> | 1 <= |q| <= 3 ensures EntryTo(m', root, q) == EntryTo(m, root, q) {
      EntryOutside(m, m', root, p[..3], s.table, s.index, q);
    }
  }

  // ---- The walk

  lemma AttachTableWithin(m: Mem, m': Mem, root: nat, out: set<nat>, q: seq<nat>, t: nat, i: nat, c: nat, e: Entry)
    requires Owns(m, out, root) && |q| < 3 && c !in out
    requires Attached(m, m', root, q, t, i, c, e)
    requires Agree(m, m', out - {t})
    ensures Within(m, m', root, out, out + {c}) && SameView(m, m', root)
    ensures Frames(m', root, 4) == Frames(m, root, 4) + {c}
    ensures Resolve(m', root, 4, q + [i]) == Some(c)
  {
    Attach(m, m', root, q, t, i, c, e);
    ResolveTree(m, root, 4, q);
    assert t in Frames(m, t, 4 - |q|);
    forall n: nat | n < USER_PAGES ensures View(m', root, n) == View(m, root, n) {
      ViewKept(m, m', root, t, n);
    }
  }

  /** The table that an entry leads to; the walk looks at nothing but the present bit. */
  function Down(m: Mem, table: nat, index: nat): Option<nat> {
    if EntryAt(m, table, index).flags.present then Some(EntryAt(m, table, index).frame) else None
  }

  /** Steps from a table to the next level, making an empty table there if asked to.  For a user address the
    * table is the one at path q of the tree; the kernel half is only read. */
  method NextTable(pm: PhysMem, fa: FrameAllocator, ghost root: nat, ghost user: bool, ghost q: seq<nat>, table: nat,
                   index: nat, alloc: bool)
    returns (r: Option<nat>)
    requires fa.Valid() && Owns(pm.mem, fa.out, root)
    requires if user then |q| < 3 && Resolve(pm.mem, root, 4, q) == Some(table) && index < Limit(4 - |q|)
             else !alloc && IsTable(pm.mem, table) && index < ENTRIES
    modifies pm, fa
    ensures fa.Valid() && Within(old(pm.mem), pm.mem, root, old(fa.out), fa.out)
    ensures SameView(old(pm.mem), pm.mem, root)
    ensures Frames(old(pm.mem), root, 4) <= Frames(pm.mem, root, 4)
    ensures !alloc ==> pm.mem == old(pm.mem) && unchanged(fa) && r == Down(pm.mem, table, index)
    ensures user && r.Some? ==> Resolve(pm.mem, root, 4, q + [index]) == r
    ensures user && r.None? ==>
      pm.mem == old(pm.mem) && Resolve(pm.mem, root, 4, q + [index]) == None && (alloc ==> fa.out == fa.all)
    ensures Down(old(pm.mem), table, index).Some? ==>
      pm.mem == old(pm.mem) && unchanged(fa) && r == Down(old(pm.mem), table, index)
    ensures Down(old(pm.mem), table, index).None? && r.Some? ==>
      && EntryAt(pm.mem, table, index) == Entry(r.value, USER_FLAGS)
      && fa.out == old(fa.out) + {r.value} && r.value !in old(fa.out)
    ensures user && r.Some? ==> TableAdded(old(pm.mem), pm.mem, root, q + [index], Fresh(USER_FLAGS))
  {
    hide FrameAllocator.Valid, TableAdded;
    ghost var h := 4 - |q|;
    if user {
      ResolveTree(pm.mem, root, 4, q);
      assert Tree(pm.mem, table, h);
      ResolveSplit(pm.mem, root, 4, q, q + [index]);
      assert (q + [index])[|q|..] == [index];
      assert table in Frames(pm.mem, table, h);
    }
    var entry := pm.mem[table].entries[index];
    if !entry.flags.present {
      if !alloc {
        return None;
      }
      var frame := fa.AllocateFrame();
      if frame.None? {
        return None;
      }
      ghost var m0 := pm.mem;
      pm.mem := pm.mem[frame.value := EmptyTable()];
      pm.SetEntry(table, index, Entry(frame.value, USER_FLAGS));
      AttachTableWithin(m0, pm.mem, root, old(fa.out), q, table, index, frame.value, Entry(frame.value, USER_FLAGS));
      AttachTables(m0, pm.mem, root, q, table, index, frame.value, Entry(frame.value, USER_FLAGS));
    } else if user {
      UsedTable(pm.mem, root, q, table, index);
    }
    r := Some(pm.mem[table].entries[index].frame);
  }

  /** An entry in use stays as it is when only new ones are given flags. */
  lemma UsedTable(m: Mem, root: nat, q: seq<nat>, t: nat, i: nat)
    requires |q| < 3 && Resolve(m, root, 4, q) == Some(t) && i < Limit(4 - |q|) && EntryAt(m, t, i).flags.present
    ensures TableAdded(m, m, root, q + [i], Fresh(USER_FLAGS))
  {
    assert (q + [i])[..|q|] == q;
  }

  /** The tables that a walk in the kernel half meets; pages larger than 4096 bytes do not occur among them. */
  ghost predicate KernelTables(m: Mem, root: nat, va: nat) {
    && IsTable(m, root)
    && (forall t | Down(m, root, Pml4Index(va)) == Some(t) :: IsTable(m, t)
          && (forall u | Down(m, t, PdptIndex(va)) == Some(u) :: IsTable(m, u)
                && (forall v | Down(m, u, PdIndex(va)) == Some(v) :: IsTable(m, v))))
  }

  lemma KernelRoot(m: Mem, root: nat, va: nat)
    requires KernelTables(m, root, va)
    ensures IsTable(m, root)
  {}

  lemma KernelLevel3(m: Mem, root: nat, va: nat, pdpt: nat)
    requires KernelTables(m, root, va) && Down(m, root, Pml4Index(va)) == Some(pdpt)
    ensures IsTable(m, pdpt)
  {}

  lemma KernelLevel2(m: Mem, root: nat, va: nat, pdpt: nat, pd: nat)
    requires KernelTables(m, root, va) && Down(m, root, Pml4Index(va)) == Some(pdpt)
    requires Down(m, pdpt, PdptIndex(va)) == Some(pd)
    ensures IsTable(m, pd)
  {}

  /** Where a walk ends that only follows present entries, in either half. */
  function RawSlot(m: Mem, root: nat, va: nat): Option<Slot> {
    match Down(m, root, Pml4Index(va))
    case None => None
    case Some(pdpt) =>
      match Down(m, pdpt, PdptIndex(va))
      case None => None
      case Some(pd) =>
        match Down(m, pd, PdIndex(va))
        case None => None
        case Some(pt) => Some(Slot(pt, PtIndex(va)))
  }

  /** A kernel address that user code may not touch: no present entry for it has the user bit. */
  ghost predicate KernelShut(m: Mem, root: nat, va: nat) {
    && KernelTables(m, root, va)
    && forall s | RawSlot(m, root, va) == Some(s) ::
         !(EntryAt(m, s.table, s.index).flags.present && EntryAt(m, s.table, s.index).flags.user)
  }

  /** Finds the page-table entry of va; with alloc, missing tables on the way are made.  If frames run out on
    * the way, the tables made so far stay. */
  method WalkPagetable(pm: PhysMem, fa: FrameAllocator, root: nat, va: nat, alloc: bool) returns (r: Option<Slot>)
    requires fa.Valid() && Owns(pm.mem, fa.out, root)
    requires va < USER_TOP || (KernelAddress(va) && !alloc && KernelTables(pm.mem, root, va))
    modifies pm, fa
    ensures fa.Valid() && Within(old(pm.mem), pm.mem, root, old(fa.out), fa.out)
    ensures SameView(old(pm.mem), pm.mem, root)
    ensures Frames(old(pm.mem), root, 4) <= Frames(pm.mem, root, 4)
    ensures !alloc ==> pm.mem == old(pm.mem) && unchanged(fa) && r == RawSlot(pm.mem, root, va)
    ensures r.Some? && va < USER_TOP ==> PteSlot(pm.mem, root, va / PAGE_SIZE, r.value)
    ensures !alloc && r.None? && va < USER_TOP ==>
      Resolve(pm.mem, root, 4, PathOf(va)[..3]) == None && View(pm.mem, root, va / PAGE_SIZE) == None
    ensures alloc && r.Some? ==> TablesAdded(old(pm.mem), pm.mem, root, PathOf(va), 3, Fresh(USER_FLAGS))
    ensures alloc && r.None? ==> fa.out == fa.all && StoppedAt(old(pm.mem), pm.mem, root, PathOf(va), Fresh(USER_FLAGS))
  {
    hide FrameAllocator.Valid, TablesAdded, TableAdded, Tree, View, KernelHalf, Resolve, StoppedAt, Within, Owns,
      SameView, Agree, KernelTables, EntryAt, Down, Frames;
    ghost var p, user, m0, out0 := PathOf(va), va < USER_TOP, pm.mem, fa.out;
    PathOfPage(va);
    if user {
      PageIndices(va / PAGE_SIZE);
    }
    assert [] + [p[0]] == p[..1] && p[..1] + [p[1]] == p[..2] && p[..2] + [p[2]] == p[..3];
    NoTablesAdded(m0, root, p, Fresh(USER_FLAGS));
    RootResolves(m0, root, out0);
    if !user {
      KernelRoot(m0, root, va);
    }
    var pdpt := NextTable(pm, fa, root, user, [], root, Pml4Index(va), alloc);
    ghost var m1, out1 := pm.mem, fa.out;
    OnlyGrown(m0, m0, m1, root, out0, out0, out1);
    if pdpt.None? {
      NoTableNoPage(pm.mem, root, va, 1, alloc);
      StoppedHere(m0, m1, root, p, 0, Fresh(USER_FLAGS), alloc);
      return None;
    }
    if !user {
      KernelLevel3(m1, root, va, pdpt.value);
    }
    var pd := NextTable(pm, fa, root, user, p[..1], pdpt.value, PdptIndex(va), alloc);
    ghost var m2, out2 := pm.mem, fa.out;
    OnlyGrown(m0, m1, m2, root, out0, out1, out2);
    if alloc {
      NextTableAdded(m0, m0, m1, root, p, 0, Fresh(USER_FLAGS));
    }
    if pd.None? {
      NoTableNoPage(pm.mem, root, va, 2, alloc);
      StoppedHere(m0, m2, root, p, 1, Fresh(USER_FLAGS), alloc);
      return None;
    }
    if !user {
      KernelLevel2(m2, root, va, pdpt.value, pd.value);
    }
    var pt := NextTable(pm, fa, root, user, p[..2], pd.value, PdIndex(va), alloc);
    OnlyGrown(m0, m2, pm.mem, root, out0, out2, fa.out);
    if alloc {
      NextTableAdded(m0, m1, m2, root, p, 1, Fresh(USER_FLAGS));
    }
    if pt.None? {
      NoTableNoPage(pm.mem, root, va, 3, alloc);
      StoppedHere(m0, pm.mem, root, p, 2, Fresh(USER_FLAGS), alloc);
      return None;
    }
    if alloc {
      NextTableAdded(m0, m2, pm.mem, root, p, 2, Fresh(USER_FLAGS));
    }
    r := Some(Slot(pt.value, PtIndex(va)));
  }

  lemma RootResolves(m: Mem, root: nat, out: set<nat>)
    requires Owns(m, out, root)
    ensures Resolve(m, root, 4, []) == Some(root) && Within(m, m, root, out, out) && SameView(m, m, root)
  {}

  lemma OnlyGrown(m0: Mem, m1: Mem, m2: Mem, root: nat, out0: set<nat>, out1: set<nat>, out2: set<nat>)
    requires Within(m0, m1, root, out0, out1) && SameView(m0, m1, root) && Frames(m0, root, 4) <= Frames(m1, root, 4)
    requires Within(m1, m2, root, out1, out2) && SameView(m1, m2, root) && Frames(m1, root, 4) <= Frames(m2, root, 4)
    ensures Within(m0, m2, root, out0, out2) && SameView(m0, m2, root) && Frames(m0, root, 4) <= Frames(m2, root, 4)
    ensures Owns(m2, out2, root)
  {
    hide Tree, Frames, KernelHalf, View;
  }

  lemma {:induction false} MissingTable(m: Mem, f: nat, h: nat, q: seq<nat>, p: seq<nat>)
    requires |q| < h && q <= p && Resolve(m, f, h, q) == None
    ensures Leaf(m, f, h, p) == None && forall r: seq<nat> | q <= r && |r| < h :: Resolve(m, f, h, r) == None
    decreases q
  {
    if Present(m, f, h, q[0]) {
      MissingTable(m, Child(m, f, q[0]), h - 1, q[1..], p[1..]);
    }
    forall r: seq<nat> | q <= r && |r| < h ensures Resolve(m, f, h, r) == None {
      if Present(m, f, h, q[0]) {
        MissingTable(m, Child(m, f, q[0]), h - 1, q[1..], r[1..]);
      }
    }
  }

  lemma NoTableNoPage(m: Mem, root: nat, va: nat, k: nat, alloc: bool)
    requires 1 <= k <= 3
    requires !alloc && va < USER_TOP ==> Resolve(m, root, 4, PathOf(va)[..k]) == None
    ensures !alloc && va < USER_TOP ==>
      Resolve(m, root, 4, PathOf(va)[..3]) == None && View(m, root, va / PAGE_SIZE) == None
  {
    if !alloc && va < USER_TOP {
      PathOfPage(va);
      MissingTable(m, root, 4, PathOf(va)[..k], PathOf(va));
    }
  }
}

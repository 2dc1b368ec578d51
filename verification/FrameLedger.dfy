/** Who owns each physical frame that was handed out, over the whole machine. */
module FrameLedger {
  import opened Basics
  import opened PageTree
  import opened AddressSpace
  import opened TreeCopy
  import opened UserBytes
  import opened TableEntries
  import opened TableRights
  import opened Walker
  import opened KernelHalves
  import opened Processes
  import opened Tables

  /** A frame in use is the kernel's, or one process's, or lost: nobody will ever give it back. */
  datatype Owner = Kernels | Owned(pid: nat) | Lost

  ghost function OwnedBy(owner: map<nat, Owner>, p: nat): set<nat> {
    set f | f in owner && owner[f] == Owned(p)
  }

  ghost function LostFrames(owner: map<nat, Owner>): set<nat> {
    set f | f in owner && owner[f] == Lost
  }

  ghost function KernelFrames(owner: map<nat, Owner>): set<nat> {
    set f | f in owner && owner[f] == Kernels
  }

  ghost function TableOf(s: State, p: nat): nat
    requires InUse(s, p)
  {
    if s.procs[p].value.pageTable.Some? then s.procs[p].value.pageTable.value else 0
  }

  /** The tree of process p consists of exactly the frames that p owns, its kernel half is the shared one, and
    * the program can pass all its tables. */
  ghost predicate SpaceOk(s: State, m: Mem, owner: map<nat, Owner>, kernel: seq<Entry>, p: nat) {
    if InUse(s, p) then
      && Tree(m, TableOf(s, p), 4)
      && Frames(m, TableOf(s, p), 4) == OwnedBy(owner, p)
      && KernelHalf(m, TableOf(s, p)) == kernel && TablesOpen(m, TableOf(s, p))
      && s.procs[p].value.heapSize <= USER_TOP
    else OwnedBy(owner, p) == {}
  }

  /** Every frame in use has one owner, and every process owns exactly its address space.  The kernel owns its
    * PML4 and all tables of the shared kernel half, which is shut to user code. */
  ghost predicate Ledger(s: State, m: Mem, out: set<nat>, owner: map<nat, Owner>, kernel: seq<Entry>) {
    && owner.Keys == out
    && s.kernelTable in KernelFrames(owner) && Shut(m, KernelFrames(owner), kernel)
    && (forall p: nat {:trigger SpaceOk(s, m, owner, kernel, p)} :: SpaceOk(s, m, owner, kernel, p))
  }

  /** The owners after an operation on process p's memory: p now has the frames mine, a frame that was p's
    * or was handed out meanwhile and is not among them is lost, everything else keeps its owner. */
  ghost function Reowned(owner: map<nat, Owner>, out: set<nat>, p: nat, mine: set<nat>): map<nat, Owner> {
    map f | f in out :: if f in owner && owner[f] != Owned(p) then owner[f] else if f in mine then Owned(p) else Lost
  }

  lemma ReownedOwners(owner: map<nat, Owner>, out: set<nat>, p: nat, mine: set<nat>)
    requires mine <= out && owner.Keys - OwnedBy(owner, p) <= out
    requires forall f | f in mine && f in owner :: owner[f] == Owned(p)
    ensures Reowned(owner, out, p, mine).Keys == out
    ensures OwnedBy(Reowned(owner, out, p, mine), p) == mine
    ensures KernelFrames(Reowned(owner, out, p, mine)) == KernelFrames(owner) <= owner.Keys - OwnedBy(owner, p)
    ensures forall q | q != p :: OwnedBy(Reowned(owner, out, p, mine), q) == OwnedBy(owner, q)
    ensures LostFrames(Reowned(owner, out, p, mine)) ==
      LostFrames(owner) + (out - (owner.Keys - OwnedBy(owner, p)) - mine)
  {
    var after := Reowned(owner, out, p, mine);
    forall q | q != p ensures OwnedBy(after, q) == OwnedBy(owner, q) {}
  }

  /** Nobody else's process was touched. */
  ghost predicate OthersKeep(s: State, s': State, p: nat) {
    s'.kernelTable == s.kernelTable &&
    forall q: nat {:trigger InUse(s', q)} | q != p ::
      && InUse(s', q) == InUse(s, q)
      && (InUse(s, q) ==> TableOf(s', q) == TableOf(s, q) && s'.procs[q].value.heapSize == s.procs[q].value.heapSize)
  }

  /** The ledger after an operation that changed only process p, its frames, and free frames. */
  lemma LedgerStep(s: State, m: Mem, out: set<nat>, owner: map<nat, Owner>, kernel: seq<Entry>,
                   s': State, m': Mem, out': set<nat>, p: nat, mine: set<nat>)
    requires Ledger(s, m, out, owner, kernel) && OthersKeep(s, s', p)
    requires out - OwnedBy(owner, p) <= out' && Agree(m, m', out - OwnedBy(owner, p))
    requires mine <= out' && forall f | f in mine && f in owner :: owner[f] == Owned(p)
    requires if InUse(s', p) then
        && Tree(m', TableOf(s', p), 4) && Frames(m', TableOf(s', p), 4) == mine
        && KernelHalf(m', TableOf(s', p)) == kernel && TablesOpen(m', TableOf(s', p))
        && s'.procs[p].value.heapSize <= USER_TOP
      else mine == {}
    ensures Ledger(s', m', out', Reowned(owner, out', p, mine), kernel)
  {
    hide Tree, Frames, View, SameView, Reowned, KernelHalf, Shut, KernelFrames, TablesOpen, SamePaths;
    ReownedOwners(owner, out', p, mine);
    var after := Reowned(owner, out', p, mine);
    ShutKept(m, m', KernelFrames(owner), kernel);
    forall q: nat ensures SpaceOk(s', m', after, kernel, q) {
      if q != p {
        assert SpaceOk(s, m, owner, kernel, q);
        assert InUse(s', q) == InUse(s, q);
        if InUse(s, q) {
          assert OwnedBy(owner, q) <= out - OwnedBy(owner, p);
          SameViewFrame(m, m', TableOf(s, q), out - OwnedBy(owner, p));
          SameOpen(m, m', TableOf(s, q));
        }
      }
    }
  }

  /** No two processes share a frame, so no user page of one is ever backed by a frame of the other. */
  lemma NoSharing(s: State, m: Mem, out: set<nat>, owner: map<nat, Owner>, kernel: seq<Entry>, p: nat, q: nat)
    requires Ledger(s, m, out, owner, kernel) && InUse(s, p) && InUse(s, q) && p != q
    ensures Frames(m, TableOf(s, p), 4) !! Frames(m, TableOf(s, q), 4)
    ensures forall n: nat, k: nat
      | n < USER_PAGES && k < USER_PAGES && View(m, TableOf(s, p), n).Some? && View(m, TableOf(s, q), k).Some? ::
      View(m, TableOf(s, p), n).value.frame != View(m, TableOf(s, q), k).value.frame
  {
    hide Tree, Frames, View;
    assert SpaceOk(s, m, owner, kernel, p) && SpaceOk(s, m, owner, kernel, q);
    forall n: nat, k: nat
      | n < USER_PAGES && k < USER_PAGES && View(m, TableOf(s, p), n).Some? && View(m, TableOf(s, q), k).Some?
      ensures View(m, TableOf(s, p), n).value.frame != View(m, TableOf(s, q), k).value.frame
    {
      ViewFrames(m, TableOf(s, p), n);
      ViewFrames(m, TableOf(s, q), k);
    }
  }

  /** No frame of an address space, and so no mapped frame, is free. */
  lemma NoMappedFrameIsFree(s: State, m: Mem, out: set<nat>, owner: map<nat, Owner>, kernel: seq<Entry>, p: nat, n: nat)
    requires Ledger(s, m, out, owner, kernel) && InUse(s, p)
    ensures Frames(m, TableOf(s, p), 4) <= out
    ensures n < USER_PAGES && View(m, TableOf(s, p), n).Some? ==> View(m, TableOf(s, p), n).value.frame in out
  {
    hide Tree, Frames, View;
    assert SpaceOk(s, m, owner, kernel, p);
    if n < USER_PAGES && View(m, TableOf(s, p), n).Some? {
      ViewFrames(m, TableOf(s, p), n);
    }
  }

  /** Address spaces of different processes have different roots. */
  lemma NewRoot(s: State, m: Mem, out: set<nat>, owner: map<nat, Owner>, kernel: seq<Entry>, p: nat)
    requires Ledger(s, m, out, owner, kernel) && InUse(s, p)
    ensures TableOf(s, p) in out
  {
    assert SpaceOk(s, m, owner, kernel, p);
    RootInFrames(m, TableOf(s, p), 4);
  }

  /** Whatever changes only process p's frames and free ones is not seen by any other process. */
  lemma Unseen(s: State, m: Mem, out: set<nat>, owner: map<nat, Owner>, kernel: seq<Entry>, m': Mem, p: nat, q: nat)
    requires Ledger(s, m, out, owner, kernel) && InUse(s, q) && p != q && Agree(m, m', out - OwnedBy(owner, p))
    ensures SameView(m, m', TableOf(s, q)) && SamePaths(m, m', TableOf(s, q))
  {
    hide Tree, Frames, View, SameView, KernelHalf, SamePaths, TablesOpen;
    assert SpaceOk(s, m, owner, kernel, q);
    assert OwnedBy(owner, q) <= out - OwnedBy(owner, p);
    SameViewFrame(m, m', TableOf(s, q), out - OwnedBy(owner, p));
  }

  /** Writes to process p's data pages leave all ownership as it is. */
  lemma PageWritesLedger(s: State, m: Mem, out: set<nat>, owner: map<nat, Owner>, kernel: seq<Entry>, m': Mem, p: nat)
    requires Ledger(s, m, out, owner, kernel) && InUse(s, p) && OnlyPages(m, m', TableOf(s, p), out)
    ensures Ledger(s, m', out, owner, kernel)
  {
    hide Tree, Frames, View, SameView, KernelHalf, OwnedBy, Shut, KernelFrames, SamePaths, TablesOpen;
    assert SpaceOk(s, m, owner, kernel, p);
    SameOpen(m, m', TableOf(s, p));
    KernelsApart(owner, p);
    ShutKept(m, m', KernelFrames(owner), kernel);
    forall q: nat ensures SpaceOk(s, m', owner, kernel, q) {
      assert SpaceOk(s, m, owner, kernel, q);
      if q != p && InUse(s, q) {
        OthersFrames(owner, p, q);
        SameViewFrame(m, m', TableOf(s, q), out - OwnedBy(owner, p));
        SameOpen(m, m', TableOf(s, q));
      }
    }
  }

  lemma KernelsApart(owner: map<nat, Owner>, p: nat)
    ensures KernelFrames(owner) <= owner.Keys - OwnedBy(owner, p)
  {}

  lemma OthersFrames(owner: map<nat, Owner>, p: nat, q: nat)
    requires p != q
    ensures OwnedBy(owner, q) <= owner.Keys - OwnedBy(owner, p)
  {}

  lemma NothingOwned(s: State, m: Mem, out: set<nat>, owner: map<nat, Owner>, kernel: seq<Entry>, p: nat)
    requires Ledger(s, m, out, owner, kernel) && !InUse(s, p)
    ensures OwnedBy(owner, p) == {} && owner.Keys == out
  {
    assert SpaceOk(s, m, owner, kernel, p);
  }
}

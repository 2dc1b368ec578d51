/** System-call arguments: copies between the kernel and the current process. */
module Syscalls {
  import opened Basics
  import opened PageTree
  import opened AddressSpace
  import opened FrameAlloc
  import opened Walker
  import opened UserBytes

  const MAX_ARGC: nat := 16
  const MAX_ARG_LEN: nat := 256

  // ---- Checked copies, a chunk at a time

  /** What the walk for a system call finds: the entry of a user page, or one of the kernel half. */
  lemma EntryFound(m: Mem, root: nat, out: set<nat>, va: nat, s: Slot)
    requires Owns(m, out, root) && RawSlot(m, root, va) == Some(s)
    requires if va < USER_TOP then PteSlot(m, root, va / PAGE_SIZE, s) else KernelShut(m, root, va)
    ensures IsTable(m, s.table) && s.index < ENTRIES
    ensures var e := m[s.table].entries[s.index];
      if va >= USER_TOP then !(e.flags.present && e.flags.user)
      else if e.flags.present then
        && IsPage(m, e.frame) && View(m, root, va / PAGE_SIZE) == Some(UserPage(e.frame, e.flags, m[e.frame].bytes))
        && |m[e.frame].bytes| == PAGE_SIZE
      else View(m, root, va / PAGE_SIZE) == None
  {
    hide View, Tree, Frames;
    if va < USER_TOP {
      SlotView(m, root, va / PAGE_SIZE, s);
    }
  }

  /** Where a copy of len bytes first reaches the kernel half, user code may not touch it: at the pointer itself,
    * or at the end of the user half, after which the kernel half follows by sign extension. */
  ghost predicate KernelPartShut(m: Mem, root: nat, ptr: nat, len: nat) {
    && (len > 0 && KernelAddress(ptr) ==> KernelShut(m, root, ptr))
    && (ptr < USER_TOP < ptr + len ==> KernelShut(m, root, USER_TOP))
  }

  /** Copies bytes into the current process; every page must be writable by the user.  A pointer into the
    * kernel half is walked like any other; it is refused if its entry is not one that user code may use. */
  method CopyToUser(pm: PhysMem, fa: FrameAllocator, root: nat, ptr: nat,
                    bytes: seq<byte>) returns (r: Result<(), CopyError>)
    requires fa.Valid() && Owns(pm.mem, fa.out, root) && ptr < WORD
    requires KernelPartShut(pm.mem, root, ptr, |bytes|)
    modifies pm, fa
    ensures fa.Valid() && unchanged(fa) && OnlyPages(old(pm.mem), pm.mem, root, fa.out)
    ensures r.Ok? <==> |bytes| == 0 || (ptr != 0 && AllAllowed(old(pm.mem), root, UserWrite, ptr, |bytes|))
    ensures r.Ok? ==> Stored(old(pm.mem), pm.mem, root, ptr, bytes, |bytes|)
    ensures r == Err(NullPointer) <==> |bytes| > 0 && ptr == 0
    ensures r == Err(NullPointer) ==> pm.mem == old(pm.mem)
    ensures r.Err? && ptr != 0 ==> StoredUntilRefused(old(pm.mem), pm.mem, root, UserWrite, ptr, bytes, r.error)
    ensures |bytes| > 0 && ptr >= USER_TOP ==> r.Err? && pm.mem == old(pm.mem)
  {
    hide View, Tree, Frames, Patched, FrameAllocator.Valid, Stored, OnlyPages, KernelShut, RawSlot, AllAllowed, Allowed,
      Within, SameView, Agree, KernelHalf, SameViewExcept;
    ghost var m0 := pm.mem;
    StoredStart(m0, root, ptr, bytes);
    NothingAllowed(m0, root, UserWrite, ptr);
    OnlyPagesReflexive(m0, root, fa.out);
    if |bytes| == 0 {
      return Ok(());
    }
    if ptr == 0 {
      return Err(NullPointer);
    }
    var copied := 0;
    while copied < |bytes|
      invariant 0 <= copied <= |bytes| && fa.Valid() && unchanged(fa) && Owns(pm.mem, fa.out, root)
      invariant OnlyPages(m0, pm.mem, root, fa.out) && Stored(m0, pm.mem, root, ptr, bytes, copied)
      invariant AllAllowed(m0, root, UserWrite, ptr, copied)
      invariant (if copied == 0 then pm.mem == m0 else ptr + copied <= USER_TOP)
    {
      var va := ptr + copied;
      var pageOffset := va % PAGE_SIZE;
      var toCopy := Min(PAGE_SIZE - pageOffset, |bytes| - copied);
      ghost var m, n := pm.mem, va / PAGE_SIZE;
      if !Accepted(va) {
        RefusedHere(m0, root, UserWrite, ptr, copied, |bytes|, NotCanonical);
        return Err(NotCanonical);
      }
      if va < USER_TOP {
        AccessKept(m0, m, root, UserWrite, ptr, bytes, copied);
      } else {
        KernelWalkKept(m0, m, root, fa.out, va);
      }
      var pte := WalkPagetable(pm, fa, root, va, false);
      if pte.None? {
        NoEntry(m0, m, root, UserWrite, va);
        RefusedHere(m0, root, UserWrite, ptr, copied, |bytes|, NotMapped);
        return Err(NotMapped);
      }
      EntryFound(m, root, fa.out, va, pte.value);
      var entry := pm.mem[pte.value.table].entries[pte.value.index];
      EntrySays(m0, m, root, UserWrite, va, pte.value);
      if !entry.flags.present || !entry.flags.user || !entry.flags.writable {
        r := Err(
          if !entry.flags.present then NotPresent
          else if !entry.flags.user then NotUserAccessible else NotWritable);
        RefusedHere(m0, root, UserWrite, ptr, copied, |bytes|, r.error);
        return;
      }
      WriteChunk(pm, root, fa.out, entry.frame, n, pageOffset, bytes[copied..copied + toCopy]);
      StoredChunk(m0, m, pm.mem, root, ptr, bytes, copied, toCopy);
      OnlyPagesStep(m0, m, pm.mem, root, fa.out);
      AllowedChunk(m0, root, UserWrite, ptr, copied, toCopy);
      copied := copied + toCopy;
    }
    r := Ok(());
  }

  lemma NothingAllowed(m: Mem, root: nat, a: Access, ptr: nat)
    ensures AllAllowed(m, root, a, ptr, 0)
  {}

  /** A walk in the kernel half ends where it did before bytes were stored in user pages. */
  lemma KernelWalkKept(m0: Mem, m: Mem, root: nat, out: set<nat>, va: nat)
    requires OnlyPages(m0, m, root, out) && KernelShut(m0, root, va)
    ensures KernelShut(m, root, va) && KernelTables(m, root, va) && RawSlot(m, root, va) == RawSlot(m0, root, va)
    ensures forall s | RawSlot(m, root, va) == Some(s) ::
      EntryAt(m, s.table, s.index) == EntryAt(m0, s.table, s.index)
  {
    hide Tree, Frames, KernelHalf;
  }

  lemma ShutTables(m: Mem, root: nat, va: nat)
    requires KernelShut(m, root, va)
    ensures KernelTables(m, root, va)
  {}

  /** The walk found no table for va: the address is refused, in the memory before the copy as in the one now. */
  lemma NoEntry(m0: Mem, m: Mem, root: nat, a: Access, va: nat)
    requires
      var u := View(m, root, va / PAGE_SIZE);
      if va < USER_TOP then u == None && SameFlags(u, View(m0, root, va / PAGE_SIZE))
      else KernelAddress(va) && RawSlot(m0, root, va) == None
    ensures Refused(m0, root, a, va, NotMapped)
  {
    hide View, RawSlot;
  }

  /** What an entry that is not good enough says about the address. */
  lemma EntrySays(m0: Mem, m: Mem, root: nat, a: Access, va: nat, s: Slot)
    requires IsTable(m, s.table) && s.index < ENTRIES && a != Kernel
    requires var fl := m[s.table].entries[s.index].flags;
      if va < USER_TOP then
        && SameFlags(View(m, root, va / PAGE_SIZE), View(m0, root, va / PAGE_SIZE))
        && View(m, root, va / PAGE_SIZE).Some? == fl.present
        && (fl.present ==> View(m, root, va / PAGE_SIZE).value.flags == fl)
      else
        && KernelAddress(va) && RawSlot(m0, root, va) == Some(s)
        && EntryAt(m0, s.table, s.index).flags == fl && !(fl.present && fl.user)
    ensures var fl := m[s.table].entries[s.index].flags;
      if !fl.present then Refused(m0, root, a, va, NotPresent)
      else if !fl.user then Refused(m0, root, a, va, NotUserAccessible)
      else
        && va < USER_TOP
        && (if a.UserWrite? && !fl.writable then Refused(m0, root, a, va, NotWritable)
            else Allowed(a, View(m0, root, va / PAGE_SIZE)))
  {
    hide View, RawSlot;
  }

  /** User memory from ptr on starts with these bytes. */
  ghost predicate Holds(m: Mem, root: nat, ptr: nat, bytes: seq<byte>) {
    forall va: nat {:trigger ByteAt(m, root, va)} | ptr <= va < ptr + |bytes| ::
      ByteAt(m, root, va) == Some(bytes[va - ptr])
  }

  lemma HoldsChunk(m: Mem, root: nat, ptr: nat, bytes: seq<byte>, page: seq<byte>, len: nat)
    requires Holds(m, root, ptr, bytes) && |page| == PAGE_SIZE
    requires var n := (ptr + |bytes|) / PAGE_SIZE;
      View(m, root, n).Some? && View(m, root, n).value.bytes == page && ptr + |bytes| < USER_TOP
    requires len <= PAGE_SIZE - (ptr + |bytes|) % PAGE_SIZE
    ensures var o := (ptr + |bytes|) % PAGE_SIZE; Holds(m, root, ptr, bytes + page[o..o + len])
  {
    hide View;
    var va0 := ptr + |bytes|;
    var o := va0 % PAGE_SIZE;
    forall va: nat | ptr <= va < va0 + len
      ensures ByteAt(m, root, va) == Some((bytes + page[o..o + len])[va - ptr])
    {
      if va >= va0 {
        SamePage(va0, va - va0, len);
        assert (bytes + page[o..o + len])[va - ptr] == page[o + (va - va0)];
      } else {
        assert ByteAt(m, root, va) == Some(bytes[va - ptr]);
      }
    }
  }

  lemma SamePage(va: nat, k: nat, len: nat)
    requires k < len <= PAGE_SIZE - va % PAGE_SIZE && va < USER_TOP
    ensures (va + k) / PAGE_SIZE == va / PAGE_SIZE && (va + k) % PAGE_SIZE == va % PAGE_SIZE + k && va + k < USER_TOP
  {
    assert va + k == va / PAGE_SIZE * PAGE_SIZE + (va % PAGE_SIZE + k);
  }

  /** Copies len bytes out of the current process; every page must be accessible to the user. */
  method CopyBytesFromUser(pm: PhysMem, fa: FrameAllocator, root: nat, ptr: nat,
                           len: nat) returns (r: Result<seq<byte>, CopyError>)
    requires fa.Valid() && Owns(pm.mem, fa.out, root) && ptr < WORD
    requires KernelPartShut(pm.mem, root, ptr, len)
    modifies pm, fa
    ensures fa.Valid() && pm.mem == old(pm.mem) && unchanged(fa)
    ensures r.Ok? <==> ptr != 0 && AllAllowed(pm.mem, root, UserRead, ptr, len)
    ensures r.Ok? ==> |r.value| == len && Holds(pm.mem, root, ptr, r.value)
    ensures r == Err(NullPointer) <==> ptr == 0
    ensures r.Err? && ptr != 0 ==> exists k: nat :: k < len && FirstRefused(pm.mem, root, UserRead, ptr, k, r.error)
    ensures len > 0 && ptr >= USER_TOP ==> r.Err?
  {
    hide View, Tree, Frames, FrameAllocator.Valid, Holds, KernelShut, RawSlot, AllAllowed, Allowed, Within, SameView,
      Agree, KernelHalf, Owns;
    if ptr == 0 {
      return Err(NullPointer);
    }
    ghost var m := pm.mem;
    var bytes := [];
    var copied := 0;
    HoldsNothing(m, root, ptr);
    NothingAllowed(m, root, UserRead, ptr);
    while copied < len
      invariant 0 <= copied <= len && fa.Valid() && unchanged(fa) && pm.mem == m
      invariant |bytes| == copied && Holds(m, root, ptr, bytes)
      invariant AllAllowed(m, root, UserRead, ptr, copied) && (copied > 0 ==> ptr + copied <= USER_TOP)
    {
      var va := ptr + copied;
      var pageOffset := va % PAGE_SIZE;
      var toCopy := Min(PAGE_SIZE - pageOffset, len - copied);
      ghost var n := va / PAGE_SIZE;
      if !Accepted(va) {
        RefusedHere(m, root, UserRead, ptr, copied, len, NotCanonical);
        return Err(NotCanonical);
      }
      if va >= USER_TOP {
        ShutTables(m, root, va);
      }
      var pte := WalkPagetable(pm, fa, root, va, false);
      if pte.None? {
        NoEntry(m, m, root, UserRead, va);
        RefusedHere(m, root, UserRead, ptr, copied, len, NotMapped);
        return Err(NotMapped);
      }
      EntryFound(m, root, fa.out, va, pte.value);
      var entry := pm.mem[pte.value.table].entries[pte.value.index];
      EntrySays(m, m, root, UserRead, va, pte.value);
      if !entry.flags.present || !entry.flags.user {
        r := Err(if !entry.flags.present then NotPresent else NotUserAccessible);
        RefusedHere(m, root, UserRead, ptr, copied, len, r.error);
        return;
      }
      var page := pm.mem[entry.frame].bytes;
      HoldsChunk(m, root, ptr, bytes, page, toCopy);
      AllowedChunk(m, root, UserRead, ptr, copied, toCopy);
      bytes := bytes + page[pageOffset..pageOffset + toCopy];
      copied := copied + toCopy;
    }
    r := Ok(bytes);
  }

  lemma HoldsNothing(m: Mem, root: nat, ptr: nat)
    ensures Holds(m, root, ptr, [])
  {}

  lemma HoldsUnique(m: Mem, root: nat, ptr: nat, a: seq<byte>, b: seq<byte>)
    requires Holds(m, root, ptr, a) && Holds(m, root, ptr, b) && |a| == |b|
    ensures a == b
  {
    hide ByteAt;
    forall i | 0 <= i < |a| ensures a[i] == b[i] {
      assert ByteAt(m, root, ptr + i) == Some(a[i]);
    }
  }

  /** What was copied to a user range that may be written comes back from it: m is the memory before
    * copy_to_user, m' the memory after it, back the result of copy_bytes_from_user. */
  lemma CopyRoundTrip(m: Mem, m': Mem, root: nat, ptr: nat, bytes: seq<byte>, back: seq<byte>)
    requires AllAllowed(m, root, UserWrite, ptr, |bytes|) && Stored(m, m', root, ptr, bytes, |bytes|)
    ensures AllAllowed(m', root, UserRead, ptr, |bytes|)
    ensures |back| == |bytes| && Holds(m', root, ptr, back) ==> back == bytes
  {
    hide View, Stored, Holds, AllAllowed;
    StillReadable(m, m', root, ptr, bytes);
    StoredThere(m, m', root, ptr, bytes);
    if |back| == |bytes| && Holds(m', root, ptr, back) {
      HoldsUnique(m', root, ptr, bytes, back);
    }
  }

  lemma StillReadable(m: Mem, m': Mem, root: nat, ptr: nat, bytes: seq<byte>)
    requires AllAllowed(m, root, UserWrite, ptr, |bytes|) && Stored(m, m', root, ptr, bytes, |bytes|)
    ensures AllAllowed(m', root, UserRead, ptr, |bytes|)
  {
    hide View, ByteAt, Allowed;
    forall va: nat | ptr <= va < ptr + |bytes|
      ensures va < USER_TOP && Allowed(UserRead, View(m', root, va / PAGE_SIZE)) {
      assert Allowed(UserWrite, View(m, root, va / PAGE_SIZE));
      AllowedKept(m, m', root, UserWrite, va / PAGE_SIZE);
      WriteImpliesRead(View(m', root, va / PAGE_SIZE));
    }
  }

  lemma StoredThere(m: Mem, m': Mem, root: nat, ptr: nat, bytes: seq<byte>)
    requires AllAllowed(m, root, UserWrite, ptr, |bytes|) && Stored(m, m', root, ptr, bytes, |bytes|)
    ensures Holds(m', root, ptr, bytes)
  {
    hide View, ByteAt, Allowed;
    forall va: nat | ptr <= va < ptr + |bytes| ensures ByteAt(m', root, va) == Some(bytes[va - ptr]) {
      assert va < USER_TOP by { var u := View(m, root, va / PAGE_SIZE); }
    }
  }

  lemma WriteImpliesRead(page: Option<UserPage>)
    ensures Allowed(UserWrite, page) ==> Allowed(UserRead, page)
  {}
}

/** Moving bytes between the kernel and a user address space, a page-sized chunk at a time. */
module UserBytes {
  import opened Basics
  import opened PageTree
  import opened AddressSpace
  import opened FrameAlloc
  import opened TableEntries
  import opened Walker

  /** NotCanonical stands for the panic with which the x86_64 crate answers an address that it does not accept. */
  datatype CopyError = NotMapped | NotPresent | NotUserAccessible | NotWritable | NullPointer | NotCanonical

  /** Flat user memory: the byte at a virtual address. */
  function ByteAt(m: Mem, root: nat, va: nat): Option<byte> {
    var u := View(m, root, va / PAGE_SIZE);
    if va < USER_TOP && u.Some? && |u.value.bytes| == PAGE_SIZE then Some(u.value.bytes[va % PAGE_SIZE]) else None
  }

  /** The same pages are mapped to the same frames with the same flags; bytes may differ. */
  ghost predicate SameMapping(m: Mem, m': Mem, root: nat) {
    forall n: nat {:trigger View(m', root, n)} | n < USER_PAGES ::
      && View(m', root, n).Some? == View(m, root, n).Some?
      && (View(m, root, n).Some? ==>
            View(m', root, n).value.frame == View(m, root, n).value.frame
            && View(m', root, n).value.flags == View(m, root, n).value.flags)
  }

  /** The first k bytes of data were stored from dst on, and no other byte of user memory changed. */
  ghost predicate Stored(m: Mem, m': Mem, root: nat, dst: nat, data: seq<byte>, k: nat) {
    && k <= |data|
    && SameMapping(m, m', root)
    && (forall va: nat {:trigger ByteAt(m', root, va)} | va < USER_TOP ::
          ByteAt(m', root, va) == if dst <= va < dst + k then Some(data[va - dst]) else ByteAt(m, root, va))
  }

  /** Tables are as before, whoever they belong to. */
  ghost predicate TablesStay(m: Mem, m': Mem) {
    forall g | IsTable(m, g) :: g in m' && m'[g] == m[g]
  }

  /** Only data pages of this tree changed. */
  ghost predicate OnlyPages(m: Mem, m': Mem, root: nat, out: set<nat>) {
    && Tree(m', root, 4) && Frames(m', root, 4) == Frames(m, root, 4) && SamePaths(m, m', root)
    && TablesStay(m, m')
    && Agree(m, m', out - Frames(m, root, 4))
    && KernelHalf(m', root) == KernelHalf(m, root)
  }

  /** New bytes in the frame of page n change that page's view and nothing else. */
  lemma PageWritten(m: Mem, m': Mem, root: nat, n: nat, bytes: seq<byte>)
    requires Tree(m, root, 4) && n < USER_PAGES && View(m, root, n).Some? && |bytes| == PAGE_SIZE
    requires m' == m[View(m, root, n).value.frame := Page(bytes)]
    ensures Tree(m', root, 4) && Frames(m', root, 4) == Frames(m, root, 4)
    ensures KernelHalf(m', root) == KernelHalf(m, root)
    ensures SamePaths(m, m', root) && TablesStay(m, m')
    ensures View(m', root, n) == Some(View(m, root, n).value.(bytes := bytes))
    ensures SameViewExcept(m, m', root, n)
  {
    var x := View(m, root, n).value.frame;
    ViewFrames(m, root, n);
    hide SamePaths;
    TreeFrame(m, m', root, 4);
    EntriesFrame(m, m', root);
    assert IsTable(m, root);
    forall n': nat | n' < USER_PAGES && n' != n ensures View(m', root, n') == View(m, root, n') {
      assert Pte(m', root, n') == Pte(m, root, n');
    }
  }

  /** A page with some bytes from offset o on replaced. */
  function Patched(bytes: seq<byte>, o: nat, chunk: seq<byte>): (r: seq<byte>)
    requires o + |chunk| <= |bytes|
    ensures |r| == |bytes|
    ensures forall i | 0 <= i < |bytes| :: r[i] == if o <= i < o + |chunk| then chunk[i - o] else bytes[i]
  {
    bytes[..o] + chunk + bytes[o + |chunk|..]
  }

  lemma StoredChunk(m0: Mem, m: Mem, m': Mem, root: nat, dst: nat, data: seq<byte>, k: nat, len: nat)
    requires Tree(m, root, 4) && Stored(m0, m, root, dst, data, k) && dst + k < USER_TOP
    requires k < |data| && len == Min(PAGE_SIZE - (dst + k) % PAGE_SIZE, |data| - k)
    requires var n := (dst + k) / PAGE_SIZE;
      && View(m, root, n).Some? && |View(m, root, n).value.bytes| == PAGE_SIZE
      && View(m', root, n) ==
           Some(View(m, root, n).value.(bytes :=
             Patched(View(m, root, n).value.bytes, (dst + k) % PAGE_SIZE, data[k..k + len])))
      && SameViewExcept(m, m', root, n)
    ensures Stored(m0, m', root, dst, data, k + len)
  {
    hide View, Tree, Patched;
    var va0 := dst + k;
    var n, o := va0 / PAGE_SIZE, va0 % PAGE_SIZE;
    forall va: nat | va < USER_TOP
      ensures ByteAt(m', root, va) == if dst <= va < dst + k + len then Some(data[va - dst]) else ByteAt(m0, root, va)
    {
      assert ByteAt(m, root, va) == if dst <= va < dst + k then Some(data[va - dst]) else ByteAt(m0, root, va);
      if va / PAGE_SIZE == n {
        assert va == n * PAGE_SIZE + va % PAGE_SIZE && va0 == n * PAGE_SIZE + o;
        if o <= va % PAGE_SIZE < o + len {
          assert data[k..k + len][va - va0] == data[va - dst];
        }
      } else {
        assert !(va0 <= va < va0 + len);
      }
    }
    forall n': nat | n' < USER_PAGES
      ensures View(m', root, n').Some? == View(m0, root, n').Some?
      ensures View(m0, root, n').Some? ==>
        View(m', root, n').value.frame == View(m0, root, n').value.frame
        && View(m', root, n').value.flags == View(m0, root, n').value.flags
    {
      assert View(m, root, n') == View(m, root, n');
    }
  }

  // ---- Who may touch a page

  /** The kernel needs the page mapped; a copy for the user also needs the user and writable bits. */
  datatype Access = Kernel | UserRead | UserWrite

  predicate Allowed(a: Access, page: Option<UserPage>) {
    page.Some? && (a.Kernel? || page.value.flags.user) && (a.UserWrite? ==> page.value.flags.writable)
  }

  /** Every address of the range is a user address that may be touched. */
  ghost predicate AllAllowed(m: Mem, root: nat, a: Access, ptr: nat, len: nat) {
    forall va: nat {:trigger View(m, root, va / PAGE_SIZE)} | ptr <= va < ptr + len ::
      va < USER_TOP && Allowed(a, View(m, root, va / PAGE_SIZE))
  }

  /** Why a page is refused: it is not mapped, else the user may not touch it, else it is read-only. */
  predicate RefusedAs(page: Option<UserPage>, e: CopyError) {
    match page
    case None => e == NotMapped || e == NotPresent
    case Some(u) => e == if u.flags.user then NotWritable else NotUserAccessible
  }

  predicate SameFlags(a: Option<UserPage>, b: Option<UserPage>) {
    a.Some? == b.Some? && (a.Some? ==> a.value.flags == b.value.flags)
  }

  /** Why an address is refused: a user address by its page, a kernel address by its entry. */
  ghost predicate Refused(m: Mem, root: nat, a: Access, va: nat, e: CopyError) {
    if va < USER_TOP then !Allowed(a, View(m, root, va / PAGE_SIZE)) && RefusedAs(View(m, root, va / PAGE_SIZE), e)
    else if KernelAddress(va) then
      match RawSlot(m, root, va)
      case None => e == NotMapped
      case Some(s) => e == if EntryAt(m, s.table, s.index).flags.present then NotUserAccessible else NotPresent
    else e == NotCanonical
  }

  /** The first k addresses are allowed and the next one is refused with error e. */
  ghost predicate FirstRefused(m: Mem, root: nat, a: Access, ptr: nat, k: nat, e: CopyError) {
    AllAllowed(m, root, a, ptr, k) && Refused(m, root, a, ptr + k, e)
  }

  /** The copy stopped at the first address that is not allowed; exactly the bytes before it were stored. */
  ghost predicate StoredUntilRefused(m: Mem, m': Mem, root: nat, a: Access, dst: nat, src: seq<byte>, e: CopyError) {
    exists k: nat :: k < |src| && FirstRefused(m, root, a, dst, k, e) && Stored(m, m', root, dst, src, k)
  }

  lemma AllowedChunk(m: Mem, root: nat, a: Access, ptr: nat, k: nat, len: nat)
    requires AllAllowed(m, root, a, ptr, k) && Allowed(a, View(m, root, (ptr + k) / PAGE_SIZE)) && ptr + k < USER_TOP
    requires len <= PAGE_SIZE - (ptr + k) % PAGE_SIZE
    ensures AllAllowed(m, root, a, ptr, k + len) && ptr + k + len <= USER_TOP
  {
    hide View, Allowed;
    forall va: nat | ptr <= va < ptr + k + len ensures va < USER_TOP && Allowed(a, View(m, root, va / PAGE_SIZE)) {
      if va >= ptr + k {
        assert va / PAGE_SIZE == (ptr + k) / PAGE_SIZE;
      }
    }
  }

  lemma AllowedKept(m: Mem, m': Mem, root: nat, a: Access, n: nat)
    requires SameMapping(m, m', root) && n < USER_PAGES
    ensures Allowed(a, View(m', root, n)) == Allowed(a, View(m, root, n))
    ensures SameFlags(View(m', root, n), View(m, root, n))
  {
    hide View;
    var u := View(m', root, n);
  }

  // ---- Kernel to user

  /** One chunk: the bytes go into the frame behind the page. */
  method WriteChunk(pm: PhysMem, ghost root: nat, ghost out: set<nat>, frame: nat, ghost n: nat, o: nat,
                    chunk: seq<byte>)
    requires Owns(pm.mem, out, root) && n < USER_PAGES && o + |chunk| <= PAGE_SIZE
    requires IsPage(pm.mem, frame) && View(pm.mem, root, n).Some? && View(pm.mem, root, n).value.frame == frame
    requires View(pm.mem, root, n).value.bytes == pm.mem[frame].bytes
    modifies pm
    ensures OnlyPages(old(pm.mem), pm.mem, root, out)
    ensures View(pm.mem, root, n) ==
      Some(View(old(pm.mem), root, n).value.(bytes := Patched(old(pm.mem)[frame].bytes, o, chunk)))
    ensures SameViewExcept(old(pm.mem), pm.mem, root, n)
  {
    hide View, Tree, Frames, Patched;
    ghost var m := pm.mem;
    pm.mem := pm.mem[frame := Page(Patched(pm.mem[frame].bytes, o, chunk))];
    PageWritten(m, pm.mem, root, n, Patched(m[frame].bytes, o, chunk));
    ViewFrames(m, root, n);
  }

  lemma StoredStart(m: Mem, root: nat, dst: nat, data: seq<byte>)
    ensures Stored(m, m, root, dst, data, 0) && AllAllowed(m, root, Kernel, dst, 0)
  {
    hide View;
  }

  /** Stores data at a user address of an image under construction. */
  method CopyToUserPagetable(pm: PhysMem, fa: FrameAllocator, root: nat, dst: nat,
                             src: seq<byte>) returns (r: Result<(), CopyError>)
    requires fa.Valid() && Owns(pm.mem, fa.out, root) && dst + |src| <= USER_TOP
    modifies pm, fa
    ensures fa.Valid() && unchanged(fa) && OnlyPages(old(pm.mem), pm.mem, root, fa.out)
    ensures r.Ok? <==> AllAllowed(old(pm.mem), root, Kernel, dst, |src|)
    ensures r.Ok? ==> Stored(old(pm.mem), pm.mem, root, dst, src, |src|)
    ensures r.Err? ==> StoredUntilRefused(old(pm.mem), pm.mem, root, Kernel, dst, src, r.error)
  {
    hide View, Tree, Frames, Patched, FrameAllocator.Valid, Stored, OnlyPages;
    ghost var m0 := pm.mem;
    StoredStart(m0, root, dst, src);
    var written := 0;
    OnlyPagesReflexive(m0, root, fa.out);
    while written < |src|
      invariant 0 <= written <= |src| && fa.Valid() && unchanged(fa) && Owns(pm.mem, fa.out, root)
      invariant OnlyPages(m0, pm.mem, root, fa.out) && Stored(m0, pm.mem, root, dst, src, written)
      invariant AllAllowed(m0, root, Kernel, dst, written)
    {
      var va := dst + written;
      var pageOffset := va % PAGE_SIZE;
      var toCopy := Min(PAGE_SIZE - pageOffset, |src| - written);
      ghost var m, n := pm.mem, va / PAGE_SIZE;
      AccessKept(m0, m, root, Kernel, dst, src, written);
      var pte := WalkPagetable(pm, fa, root, va, false);
      if pte.None? {
        RefusedHere(m0, root, Kernel, dst, written, |src|, NotMapped);
        return Err(NotMapped);
      }
      SlotView(m, root, n, pte.value);
      var entry := pm.mem[pte.value.table].entries[pte.value.index];
      if !entry.flags.present {
        RefusedHere(m0, root, Kernel, dst, written, |src|, NotPresent);
        return Err(NotPresent);
      }
      WriteChunk(pm, root, fa.out, entry.frame, n, pageOffset, src[written..written + toCopy]);
      StoredChunk(m0, m, pm.mem, root, dst, src, written, toCopy);
      OnlyPagesStep(m0, m, pm.mem, root, fa.out);
      AllowedChunk(m0, root, Kernel, dst, written, toCopy);
      written := written + toCopy;
    }
    r := Ok(());
  }

  lemma OnlyPagesReflexive(m: Mem, root: nat, out: set<nat>)
    requires Owns(m, out, root)
    ensures OnlyPages(m, m, root, out)
  {
    hide SamePaths;
    PathsSame(m, root);
  }

  lemma OnlyPagesStep(m0: Mem, m1: Mem, m2: Mem, root: nat, out: set<nat>)
    requires Owns(m1, out, root) && OnlyPages(m0, m1, root, out) && OnlyPages(m1, m2, root, out)
    ensures OnlyPages(m0, m2, root, out) && Owns(m2, out, root)
  {
    hide SamePaths;
    PathsAgain(m0, m1, m2, root);
  }

  lemma AccessKept(m0: Mem, m: Mem, root: nat, a: Access, dst: nat, src: seq<byte>, k: nat)
    requires Stored(m0, m, root, dst, src, k) && dst + k < USER_TOP
    ensures Allowed(a, View(m, root, (dst + k) / PAGE_SIZE)) == Allowed(a, View(m0, root, (dst + k) / PAGE_SIZE))
    ensures SameFlags(View(m, root, (dst + k) / PAGE_SIZE), View(m0, root, (dst + k) / PAGE_SIZE))
  {
    AllowedKept(m0, m, root, a, (dst + k) / PAGE_SIZE);
  }

  lemma RefusedHere(m0: Mem, root: nat, a: Access, dst: nat, k: nat, len: nat, e: CopyError)
    requires AllAllowed(m0, root, a, dst, k) && k < len && Refused(m0, root, a, dst + k, e)
    ensures FirstRefused(m0, root, a, dst, k, e) && !AllAllowed(m0, root, a, dst, len)
  {
    hide View, Allowed;
    assert dst <= dst + k < dst + len && View(m0, root, (dst + k) / PAGE_SIZE) == View(m0, root, (dst + k) / PAGE_SIZE);
  }

  ghost function Zeros(len: nat): (z: seq<byte>)
    ensures |z| == len && forall i | 0 <= i < len :: z[i] == 0
  {
    seq(len, _ => 0)
  }

  /** Clears a range of an image under construction. */
  method ZeroUserRange(pm: PhysMem, fa: FrameAllocator, root: nat, start: nat,
                       len: nat) returns (r: Result<(), CopyError>)
    requires fa.Valid() && Owns(pm.mem, fa.out, root) && start + len <= USER_TOP
    modifies pm, fa
    ensures fa.Valid() && unchanged(fa) && OnlyPages(old(pm.mem), pm.mem, root, fa.out)
    ensures r.Ok? <==> AllAllowed(old(pm.mem), root, Kernel, start, len)
    ensures r.Ok? ==> Stored(old(pm.mem), pm.mem, root, start, Zeros(len), len)
    ensures r.Err? ==> StoredUntilRefused(old(pm.mem), pm.mem, root, Kernel, start, Zeros(len), r.error)
  {
    hide View, Tree, Frames, Patched, FrameAllocator.Valid, Stored, OnlyPages, Zeros;
    ghost var m0, zeros := pm.mem, Zeros(len);
    StoredStart(m0, root, start, zeros);
    var cleared := 0;
    OnlyPagesReflexive(m0, root, fa.out);
    while cleared < len
      invariant 0 <= cleared <= len && fa.Valid() && unchanged(fa) && Owns(pm.mem, fa.out, root)
      invariant OnlyPages(m0, pm.mem, root, fa.out) && Stored(m0, pm.mem, root, start, zeros, cleared)
      invariant AllAllowed(m0, root, Kernel, start, cleared)
    {
      var va := start + cleared;
      var pageOffset := va % PAGE_SIZE;
      var toZero := Min(PAGE_SIZE - pageOffset, len - cleared);
      ghost var m, n := pm.mem, va / PAGE_SIZE;
      AccessKept(m0, m, root, Kernel, start, zeros, cleared);
      var pte := WalkPagetable(pm, fa, root, va, false);
      if pte.None? {
        RefusedHere(m0, root, Kernel, start, cleared, len, NotMapped);
        return Err(NotMapped);
      }
      SlotView(m, root, n, pte.value);
      var entry := pm.mem[pte.value.table].entries[pte.value.index];
      if !entry.flags.present {
        RefusedHere(m0, root, Kernel, start, cleared, len, NotPresent);
        return Err(NotPresent);
      }
      var chunk: seq<byte> := seq(toZero, _ => 0);
      assert chunk == zeros[cleared..cleared + toZero];
      WriteChunk(pm, root, fa.out, entry.frame, n, pageOffset, chunk);
      StoredChunk(m0, m, pm.mem, root, start, zeros, cleared, toZero);
      OnlyPagesStep(m0, m, pm.mem, root, fa.out);
      AllowedChunk(m0, root, Kernel, start, cleared, toZero);
      cleared := cleared + toZero;
    }
    r := Ok(());
  }
}

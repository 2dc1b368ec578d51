/** What a user tree means to the program that runs in it: a flat map from pages to data pages. */
module AddressSpace {
  import opened Basics
  import opened PageTree

  /** User addresses lie below 2^47, in 2^35 pages. */
  const USER_TOP: nat := 0x8000_0000_0000
  const USER_PAGES: nat := 0x8_0000_0000

  /** The kernel half is the upper 2^47 of the 64-bit addresses. */
  const KERNEL_BASE: nat := 0xFFFF_8000_0000_0000

  /** Addresses from 2^47 up to 2^48 are sign-extended. */
  const EXTENDED_TOP: nat := 0x1_0000_0000_0000

  /** An address of the kernel half, written out or to be sign-extended: both have the same table indices. */
  predicate KernelAddress(va: nat) {
    USER_TOP <= va < EXTENDED_TOP || KERNEL_BASE <= va < WORD
  }

  /** The addresses that version 0.14 of the x86_64 crate accepts; it panics on all others. */
  predicate Accepted(va: nat) {
    va < USER_TOP || KernelAddress(va)
  }

  function Pml4Index(va: nat): nat { va / 0x80_0000_0000 % ENTRIES }
  function PdptIndex(va: nat): nat { va / 0x4000_0000 % ENTRIES }
  function PdIndex(va: nat): nat { va / 0x20_0000 % ENTRIES }
  function PtIndex(va: nat): nat { va / 0x1000 % ENTRIES }

  function PathOf(va: nat): seq<nat> {
    [Pml4Index(va), PdptIndex(va), PdIndex(va), PtIndex(va)]
  }

  /** The present level-1 entry of page n. */
  function Pte(m: Mem, root: nat, n: nat): Option<Entry> {
    Leaf(m, root, 4, PathOf(n * PAGE_SIZE))
  }

  datatype UserPage = UserPage(frame: nat, flags: Flags, bytes: seq<byte>)

  /** Page n as the program sees it: its frame, its flags and its bytes. */
  function View(m: Mem, root: nat, n: nat): Option<UserPage> {
    match Pte(m, root, n)
    case None => None
    case Some(e) => Some(UserPage(e.frame, e.flags, if IsPage(m, e.frame) then m[e.frame].bytes else []))
  }

  ghost predicate SameView(m: Mem, m': Mem, root: nat) {
    forall n: nat {:trigger View(m', root, n)} | n < USER_PAGES :: View(m', root, n) == View(m, root, n)
  }

  ghost predicate SameViewExcept(m: Mem, m': Mem, root: nat, page: nat) {
    forall n: nat {:trigger View(m', root, n)} | n < USER_PAGES && n != page :: View(m', root, n) == View(m, root, n)
  }

  /** A page that was unmapped is now mapped with these flags and full of zeros. */
  predicate NewPage(before: Option<UserPage>, after: Option<UserPage>, flags: Flags) {
    before == None && after.Some? && after.value.flags == flags && after.value.bytes == ZeroPage().bytes
  }

  /** Pages lo..hi are new zeroed pages; all others are as before. */
  ghost predicate Mapped(m: Mem, m': Mem, root: nat, lo: nat, hi: nat, flags: Flags) {
    forall n: nat {:trigger View(m', root, n)} | n < USER_PAGES ::
      if lo <= n < hi then NewPage(View(m, root, n), View(m', root, n), flags)
      else View(m', root, n) == View(m, root, n)
  }

  /** Pages lo..hi are unmapped; all others are as before. */
  ghost predicate Unmapped(m: Mem, m': Mem, root: nat, lo: nat, hi: nat) {
    forall n: nat {:trigger View(m', root, n)} | n < USER_PAGES ::
      View(m', root, n) == if lo <= n < hi then None else View(m, root, n)
  }

  /** The entries of a PML4 that all processes share. */
  function KernelHalf(m: Mem, root: nat): seq<Entry> {
    if IsTable(m, root) then m[root].entries[USER_ENTRIES..] else []
  }

  /** The caller holds every frame of a well-formed tree. */
  ghost predicate Owns(m: Mem, out: set<nat>, root: nat) {
    Tree(m, root, 4) && Frames(m, root, 4) <= out
  }

  /** Only this tree and free frames were touched: every other outstanding frame is as it was,
    * and the frames outside the tree are the same before and after. */
  ghost predicate Within(m: Mem, m': Mem, root: nat, out: set<nat>, out': set<nat>) {
    && Owns(m', out', root)
    && out' - Frames(m', root, 4) == out - Frames(m, root, 4)
    && Agree(m, m', out - Frames(m, root, 4))
    && KernelHalf(m', root) == KernelHalf(m, root)
  }

  // ---- Addresses and index paths

  lemma PathOfPage(va: nat)
    ensures PathOf(va) == PathOf(va / PAGE_SIZE * PAGE_SIZE)
  {
    var n := va / PAGE_SIZE;
    var o := va % PAGE_SIZE;
    assert va == n * 4096 + o;
    assert va / 0x80_0000_0000 == n / 0x800_0000 == n * 4096 / 0x80_0000_0000;
    assert va / 0x4000_0000 == n / 0x4_0000 == n * 4096 / 0x4000_0000;
    assert va / 0x20_0000 == n / 0x200 == n * 4096 / 0x20_0000;
    assert va / 0x1000 == n == n * 4096 / 0x1000;
  }

  lemma PageIndices(n: nat)
    requires n < USER_PAGES
    ensures PathOf(n * PAGE_SIZE) == [n / 0x800_0000, n / 0x4_0000 % 512, n / 0x200 % 512, n % 512]
    ensures n / 0x800_0000 < USER_ENTRIES
    ensures n == ((n / 0x800_0000 * 512 + n / 0x4_0000 % 512) * 512 + n / 0x200 % 512) * 512 + n % 512
  {
    assert n * 4096 / 0x80_0000_0000 == n / 0x800_0000 < 256;
    assert n * 4096 / 0x4000_0000 == n / 0x4_0000;
    assert n * 4096 / 0x20_0000 == n / 0x200;
    assert n * 4096 / 0x1000 == n;
    assert n / 0x200 == n / 512;
    assert n / 0x4_0000 == n / 512 / 512;
    assert n / 0x800_0000 == n / 512 / 512 / 512;
  }

  /** Two user pages never share an index path. */
  lemma PathInjective(n: nat, n': nat)
    requires n < USER_PAGES && n' < USER_PAGES && PathOf(n * PAGE_SIZE) <= PathOf(n' * PAGE_SIZE)
    ensures n == n'
  {
    PageIndices(n);
    PageIndices(n');
    var p, p' := PathOf(n * PAGE_SIZE), PathOf(n' * PAGE_SIZE);
    assert p[0] == p'[0] && p[1] == p'[1] && p[2] == p'[2] && p[3] == p'[3];
  }

  /** Distinct pages are backed by distinct data frames, which belong to the tree. */
  lemma ViewFrames(m: Mem, root: nat, n: nat)
    requires Tree(m, root, 4) && n < USER_PAGES && View(m, root, n).Some?
    ensures var u := View(m, root, n).value;
      && IsPage(m, u.frame) && u.frame in Frames(m, root, 4) && u.bytes == m[u.frame].bytes
      && u.flags.present && !u.flags.huge
    ensures forall n': nat | n' < USER_PAGES && n' != n && View(m, root, n').Some? ::
      View(m, root, n').value.frame != View(m, root, n).value.frame
  {
    LeafFrame(m, root, 4, PathOf(n * PAGE_SIZE));
    forall n': nat | n' < USER_PAGES && n' != n && View(m, root, n').Some?
      ensures View(m, root, n').value.frame != View(m, root, n).value.frame
    {
      if View(m, root, n').value.frame == View(m, root, n).value.frame {
        LeafInjective(m, root, 4, PathOf(n * PAGE_SIZE), PathOf(n' * PAGE_SIZE));
        PathInjective(n, n');
      }
    }
  }
}

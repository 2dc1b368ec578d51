/** What the processor lets a program do: the entries on all four levels above a page count, not the last one alone. */
module TableRights {
  import opened Basics
  import opened PageTree
  import opened AddressSpace
  import opened TableEntries
  import opened Walker
  import opened TreeNodes

  datatype Rights = Rights(user: bool, writable: bool)

  /** A program may use a page, or write to it, if every entry on the way to it says so. */
  function Effective(m: Mem, root: nat, n: nat): Option<Rights> {
    var p := PathOf(n * PAGE_SIZE);
    var a, b, c := EntryTo(m, root, p[..1]), EntryTo(m, root, p[..2]), EntryTo(m, root, p[..3]);
    var d := EntryTo(m, root, p);
    if a.None? || b.None? || c.None? || d.None? then None
    else
      Some(Rights(
        a.value.user && b.value.user && c.value.user && d.value.user,
        a.value.writable && b.value.writable && c.value.writable && d.value.writable))
  }

  /** Every table in use can be passed by the program. */
  ghost predicate TablesOpen(m: Mem, root: nat) {
    forall q: seq<nat> {:trigger EntryTo(m, root, q)} | 1 <= |q| <= 3 && EntryTo(m, root, q).Some? ::
      EntryTo(m, root, q).value.user
  }

  /** The entry at depth k on the way to page n, if there is one. */
  function TableEntry(m: Mem, root: nat, n: nat, k: nat): Option<Flags>
    requires 1 <= k <= 3
  {
    EntryTo(m, root, PathOf(n * PAGE_SIZE)[..k])
  }

  /** The last entry on the way to a page is what its view shows. */
  lemma LastEntry(m: Mem, root: nat, n: nat)
    requires n < USER_PAGES
    ensures EntryTo(m, root, PathOf(n * PAGE_SIZE)) ==
      if View(m, root, n).Some? then Some(View(m, root, n).value.flags) else None
  {
    var p := PathOf(n * PAGE_SIZE);
    PageIndices(n);
    if Resolve(m, root, 4, p[..3]).Some? {
      ResolveSplit(m, root, 4, p[..3], p);
      assert p[3..] == [p[3]];
    } else {
      MissingTable(m, root, 4, p[..3], p);
    }
  }

  /** A mapped page has an entry at every depth. */
  lemma TablesAbove(m: Mem, root: nat, n: nat, k: nat)
    requires n < USER_PAGES && View(m, root, n).Some? && 1 <= k <= 3
    ensures TableEntry(m, root, n, k).Some?
  {
    hide View, EntryTo, Resolve;
    var p := PathOf(n * PAGE_SIZE);
    LastEntry(m, root, n);
    EntryResolves(m, root, p);
    EntryResolves(m, root, p[..k]);
    if Resolve(m, root, 4, p[..k]) == None {
      NoFurther(m, root, 4, p[..k], p);
    }
  }

  /** Where all tables can be passed, the last entry decides whether a program may use a page; to write to it,
    * it also needs the write bit of every table above. */
  lemma EffectiveRights(m: Mem, root: nat, n: nat)
    requires n < USER_PAGES && TablesOpen(m, root)
    ensures Effective(m, root, n).Some? <==> View(m, root, n).Some?
    ensures View(m, root, n).Some? ==>
      var r, flags := Effective(m, root, n).value, View(m, root, n).value.flags;
      && r.user == flags.user
      && (r.writable <==>
            && flags.writable
            && forall k | 1 <= k <= 3 :: TableEntry(m, root, n, k).Some? && TableEntry(m, root, n, k).value.writable)
  {
    hide View, EntryTo;
    LastEntry(m, root, n);
    if View(m, root, n).Some? {
      TablesAbove(m, root, n, 1);
      TablesAbove(m, root, n, 2);
      TablesAbove(m, root, n, 3);
      assert TableEntry(m, root, n, 1).value.user && TableEntry(m, root, n, 2).value.user &&
        TableEntry(m, root, n, 3).value.user;
      forall k | 1 <= k <= 3
        ensures Effective(m, root, n).value.writable ==> TableEntry(m, root, n, k).value.writable {
        assert k == 1 || k == 2 || k == 3;
      }
    }
  }

  // ---- Tables that new pages bring with them

  /** Path q leads towards one of these pages. */
  ghost predicate OnPaths(q: seq<nat>, pages: set<nat>) {
    exists n :: n in pages && q <= PathOf(n * PAGE_SIZE)
  }

  /** Mapping these pages granted g to the entries on their paths and to no others. */
  ghost predicate TablesFor(m: Mem, m': Mem, root: nat, pages: set<nat>, g: Grant) {
    forall q: seq<nat> {:trigger EntryTo(m', root, q)} | 1 <= |q| <= 3 ::
      EntryTo(m', root, q) == if OnPaths(q, pages) then Some(Granted(EntryTo(m, root, q), g)) else EntryTo(m, root, q)
  }

  lemma TablesForNone(m: Mem, m': Mem, root: nat, g: Grant)
    requires SamePaths(m, m', root)
    ensures TablesFor(m, m', root, {}, g)
  {
    hide EntryTo;
  }

  lemma TablesForOne(m: Mem, m': Mem, root: nat, n: nat, g: Grant)
    requires TablesAdded(m, m', root, PathOf(n * PAGE_SIZE), 3, g)
    ensures TablesFor(m, m', root, {n}, g)
  {
    hide EntryTo, Granted, PathOf;
    forall q: seq<nat> | 1 <= |q| <= 3
      ensures EntryTo(m', root, q) ==
        if OnPaths(q, {n}) then Some(Granted(EntryTo(m, root, q), g)) else EntryTo(m, root, q)
    {
      assert n in {n};
    }
  }

  lemma GrantedTwice(e: Option<Flags>, g: Grant)
    ensures Granted(Some(Granted(e, g)), g) == Granted(e, g)
  {
    if e.Some? && g.AtLeast? {
      assert e.value.other + g.flags.other + g.flags.other == e.value.other + g.flags.other;
    } else if g.AtLeast? {
      assert g.flags.other + g.flags.other == g.flags.other;
    }
  }

  lemma OnPathsUnion(q: seq<nat>, a: set<nat>, b: set<nat>)
    ensures OnPaths(q, a + b) <==> OnPaths(q, a) || OnPaths(q, b)
  {
    hide PathOf;
    if n :| n in a && q <= PathOf(n * PAGE_SIZE) {
      assert n in a + b;
    } else if n :| n in b && q <= PathOf(n * PAGE_SIZE) {
      assert n in a + b;
    }
  }

  lemma TablesForMore(m0: Mem, m1: Mem, m2: Mem, root: nat, a: set<nat>, b: set<nat>, g: Grant)
    requires TablesFor(m0, m1, root, a, g) && TablesFor(m1, m2, root, b, g)
    ensures TablesFor(m0, m2, root, a + b, g)
  {
    hide EntryTo, OnPaths, Granted;
    forall q: seq<nat> | 1 <= |q| <= 3
      ensures EntryTo(m2, root, q) ==
        if OnPaths(q, a + b) then Some(Granted(EntryTo(m0, root, q), g)) else EntryTo(m0, root, q)
    {
      OnPathsUnion(q, a, b);
      GrantedTwice(EntryTo(m0, root, q), g);
      var e := EntryTo(m1, root, q);
    }
  }

  lemma TablesForSame(m0: Mem, m1: Mem, m2: Mem, root: nat, pages: set<nat>, g: Grant)
    requires TablesFor(m0, m1, root, pages, g) && SamePaths(m1, m2, root)
    ensures TablesFor(m0, m2, root, pages, g)
  {
    hide EntryTo, OnPaths, Granted;
  }

  /** The node above page n at depth k is one above these pages exactly if its entry lies on one of their paths. */
  lemma PathsAbove(n: nat, pages: set<nat>, k: nat)
    requires n < USER_PAGES && 1 <= k <= 3 && forall x | x in pages :: x < USER_PAGES
    ensures OnPaths(PathOf(n * PAGE_SIZE)[..k], pages) <==> NodeOf(n, k) in Above(pages, k)
  {
    hide NodePath, Span, Width;
    forall x | x in pages
      ensures PathOf(n * PAGE_SIZE)[..k] <= PathOf(x * PAGE_SIZE) <==> NodeOf(n, k) == NodeOf(x, k)
    {
      SharedPrefix(n, x, k);
    }
  }

  lemma SharedPrefix(n: nat, x: nat, k: nat)
    requires n < USER_PAGES && x < USER_PAGES && k <= 4
    ensures PathOf(n * PAGE_SIZE)[..k] <= PathOf(x * PAGE_SIZE) <==> NodeOf(n, k) == NodeOf(x, k)
  {
    hide Span, Width;
    PathPrefix(n, k);
    OnPath(NodeOf(n, k), x);
  }

  // ---- The tables of an image

  /** The flags of the tables that map_page makes or extends for user pages. */
  function TableFlags(writable: bool): Flags {
    Flags(true, writable, true, false, {})
  }

  lemma TableFlagsUnion(a: bool, b: bool)
    ensures TableFlags(a).Union(TableFlags(b)) == TableFlags(a || b)
  {
    assert TableFlags(a).other + TableFlags(b).other == {};
  }

  /** The tables are those above the mapped pages; only those above the unlocked pages have the write bit. */
  ghost predicate ImageTables(m: Mem, root: nat, mapped: set<nat>, unlocked: set<nat>) {
    && unlocked <= mapped
    && forall q: seq<nat> {:trigger EntryTo(m, root, q)} | 1 <= |q| <= 3 ::
         EntryTo(m, root, q) == if OnPaths(q, mapped) then Some(TableFlags(OnPaths(q, unlocked))) else None
  }

  lemma OnPathsSubset(q: seq<nat>, a: set<nat>, b: set<nat>)
    requires a <= b
    ensures OnPaths(q, a) ==> OnPaths(q, b)
  {
    hide PathOf;
    if n :| n in a && q <= PathOf(n * PAGE_SIZE) {
      assert n in b;
    }
  }

  /** New pages were mapped, writable or not. */
  lemma ImageTablesStep(m: Mem, m': Mem, root: nat, mapped: set<nat>, unlocked: set<nat>, pages: set<nat>,
                        writable: bool)
    requires ImageTables(m, root, mapped, unlocked)
    requires TablesFor(m, m', root, pages, AtLeast(TableFlags(writable)))
    ensures ImageTables(m', root, mapped + pages, if writable then unlocked + pages else unlocked)
  {
    hide EntryTo, OnPaths;
    var unlocked' := if writable then unlocked + pages else unlocked;
    forall q: seq<nat> | 1 <= |q| <= 3
      ensures EntryTo(m', root, q) ==
        if OnPaths(q, mapped + pages) then Some(TableFlags(OnPaths(q, unlocked'))) else None
    {
      OnPathsUnion(q, mapped, pages);
      OnPathsUnion(q, unlocked, pages);
      OnPathsSubset(q, unlocked, mapped);
      TableFlagsUnion(OnPaths(q, unlocked), writable);
      var e := EntryTo(m, root, q);
    }
  }

  lemma ImageTablesOpen(m: Mem, root: nat, mapped: set<nat>, unlocked: set<nat>)
    requires ImageTables(m, root, mapped, unlocked)
    ensures TablesOpen(m, root)
  {
    hide EntryTo, OnPaths;
  }

  lemma KeptOpen(m: Mem, m': Mem, root: nat)
    requires TablesOpen(m, root) && TablesKept(m, m', root)
    ensures TablesOpen(m', root)
  {
    hide EntryTo;
    forall q: seq<nat> | 1 <= |q| <= 3 && EntryTo(m', root, q).Some? ensures EntryTo(m', root, q).value.user {
      var e := EntryTo(m, root, q);
    }
  }

  lemma SameOpen(m: Mem, m': Mem, root: nat)
    requires TablesOpen(m, root) && SamePaths(m, m', root)
    ensures TablesOpen(m', root)
  {
    hide EntryTo;
  }

  lemma CopyOpen(m: Mem, root: nat, m': Mem, root': nat)
    requires TablesOpen(m, root) && SameEntries(m, root, m', root')
    ensures TablesOpen(m', root')
  {
    hide EntryTo;
  }

  // ---- What the program may write

  /** After any growth and shrinking of the heap of an image, a program may write to a page exactly if its own
    * entry has the write bit and every table above it that the image came with lies above an unlocked page. */
  lemma ProgramMayWrite(m0: Mem, m: Mem, root: nat, mapped: set<nat>, unlocked: set<nat>, n: nat)
    requires ImageTables(m0, root, mapped, unlocked) && TablesKept(m0, m, root)
    requires n < USER_PAGES && View(m, root, n).Some? && forall x | x in mapped :: x < USER_PAGES
    ensures Effective(m, root, n).Some? && Effective(m, root, n).value.user == View(m, root, n).value.flags.user
    ensures Effective(m, root, n).value.writable <==>
      && View(m, root, n).value.flags.writable
      && forall k | 1 <= k <= 3 :: NodeOf(n, k) in Above(mapped, k) ==> NodeOf(n, k) in Above(unlocked, k)
  {
    hide View, EntryTo, OnPaths, Effective, NodeOf, Above;
    ImageTablesOpen(m0, root, mapped, unlocked);
    KeptOpen(m0, m, root);
    EffectiveRights(m, root, n);
    forall k | 1 <= k <= 3
      ensures TableEntry(m, root, n, k).Some?
      ensures TableEntry(m, root, n, k).value.writable <==>
        (NodeOf(n, k) in Above(mapped, k) ==> NodeOf(n, k) in Above(unlocked, k))
    {
      TablesAbove(m, root, n, k);
      PathsAbove(n, mapped, k);
      PathsAbove(n, unlocked, k);
      var q := PathOf(n * PAGE_SIZE)[..k];
      var e, e0 := EntryTo(m, root, q), EntryTo(m0, root, q);
    }
  }

  /** In a new image the program may write to a page exactly if its own entry has the write bit and one of the 512
    * pages of its page table was unlocked. */
  lemma ImageMayWrite(m: Mem, root: nat, mapped: set<nat>, unlocked: set<nat>, n: nat)
    requires ImageTables(m, root, mapped, unlocked) && n in mapped && forall x | x in mapped :: x < USER_PAGES
    requires View(m, root, n).Some?
    ensures Effective(m, root, n).Some? && Effective(m, root, n).value.user == View(m, root, n).value.flags.user
    ensures Effective(m, root, n).value.writable <==>
      View(m, root, n).value.flags.writable && exists x :: x in unlocked && x / 512 == n / 512
  {
    hide View, Effective, ImageTables;
    PathsSame(m, root);
    SameKeepsTables(m, m, root);
    ProgramMayWrite(m, m, root, mapped, unlocked, n);
    assert NodeOf(n, 3) in Above(mapped, 3);
    if x :| x in unlocked && x / 512 == n / 512 {
      forall k | 1 <= k <= 3 ensures NodeOf(x, k) == NodeOf(n, k) {
        SameTableAbove(x, n, k);
      }
    }
  }

  lemma SameTableAbove(x: nat, n: nat, k: nat)
    requires x / 512 == n / 512 && 1 <= k <= 3
    ensures NodeOf(x, k) == NodeOf(n, k)
  {
    assert x / 0x4_0000 == x / 512 / 512 && n / 0x4_0000 == n / 512 / 512;
    assert x / 0x800_0000 == x / 512 / 0x4_0000 && n / 0x800_0000 == n / 512 / 0x4_0000;
  }
}

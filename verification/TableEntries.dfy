/** The entries on the way to a page: which tables a tree has, and what their entries allow. */
module TableEntries {
  import opened Basics
  import opened PageTree

  /** The flags of the entry that path q ends in, if that entry is in use. */
  function EntryTo(m: Mem, root: nat, q: seq<nat>): Option<Flags> {
    if q == [] || |q| > 4 then None
    else
      match Resolve(m, root, 4, q[..|q| - 1])
      case None => None
      case Some(t) =>
        if Present(m, t, 5 - |q|, q[|q| - 1]) then Some(EntryAt(m, t, q[|q| - 1]).flags) else None
  }

  /** What a walk that makes tables gives to the entries on its way: flags for new ones only, or at least these
    * flags to all. */
  datatype Grant = Fresh(flags: Flags) | AtLeast(flags: Flags)

  function Granted(before: Option<Flags>, g: Grant): Flags {
    match before
    case None => g.flags
    case Some(fl) => if g.AtLeast? then fl.Union(g.flags) else fl
  }

  /** The tree has the same tables, with the same flags. */
  ghost predicate SamePaths(m: Mem, m': Mem, root: nat) {
    forall q: seq<nat> {:trigger EntryTo(m', root, q)} | 1 <= |q| <= 3 :: EntryTo(m', root, q) == EntryTo(m, root, q)
  }

  /** Two trees have the same entries, up to the frames they point to. */
  ghost predicate SameEntries(m: Mem, root: nat, m': Mem, root': nat) {
    forall q: seq<nat> {:trigger EntryTo(m', root', q)} | 1 <= |q| <= 4 ::
      EntryTo(m', root', q) == EntryTo(m, root, q)
  }

  /** The entry at path p was granted g; the tree has no other new table and no other new flag on one. */
  ghost predicate TableAdded(m: Mem, m': Mem, root: nat, p: seq<nat>, g: Grant) {
    forall q: seq<nat> {:trigger EntryTo(m', root, q)} | 1 <= |q| <= 3 ::
      EntryTo(m', root, q) == if q == p then Some(Granted(EntryTo(m, root, q), g)) else EntryTo(m, root, q)
  }

  /** The same for the entries on the first k indices of p. */
  ghost predicate TablesAdded(m: Mem, m': Mem, root: nat, p: seq<nat>, k: nat, g: Grant) {
    forall q: seq<nat> {:trigger EntryTo(m', root, q)} | 1 <= |q| <= 3 ::
      EntryTo(m', root, q) ==
      if |q| <= k && q <= p then Some(Granted(EntryTo(m, root, q), g)) else EntryTo(m, root, q)
  }

  /** Every table is still there with its flags, and new ones have those of a walk. */
  ghost predicate TablesKept(m: Mem, m': Mem, root: nat) {
    forall q: seq<nat> {:trigger EntryTo(m', root, q)} | 1 <= |q| <= 3 ::
      || EntryTo(m', root, q) == EntryTo(m, root, q)
      || (EntryTo(m, root, q) == None && EntryTo(m', root, q) == Some(USER_FLAGS))
  }

  /** The tables on k indices of p were made, and the next one is still missing. */
  ghost predicate StoppedAt(m: Mem, m': Mem, root: nat, p: seq<nat>, g: Grant) {
    exists k: nat :: k < 3 <= |p| && TablesAdded(m, m', root, p, k, g) && Resolve(m', root, 4, p[..k + 1]) == None
  }

  /** A path of the tree goes on exactly through an entry in use. */
  lemma EntryResolves(m: Mem, root: nat, q: seq<nat>)
    requires 1 <= |q| <= 4
    ensures Resolve(m, root, 4, q).Some? <==> EntryTo(m, root, q).Some?
    ensures Resolve(m, root, 4, q).Some? ==> Resolve(m, root, 4, q[..|q| - 1]).Some?
  {
    var r := q[..|q| - 1];
    if Resolve(m, root, 4, r).Some? {
      ResolveSplit(m, root, 4, r, q);
      assert q[|r|..] == [q[|q| - 1]];
    } else {
      NoFurther(m, root, 4, r, q);
    }
  }

  lemma {:induction false} NoFurther(m: Mem, f: nat, h: nat, r: seq<nat>, q: seq<nat>)
    requires r <= q && Resolve(m, f, h, r) == None
    ensures Resolve(m, f, h, q) == None
    decreases r
  {
    if h > 0 && Present(m, f, h, q[0]) {
      NoFurther(m, Child(m, f, q[0]), h - 1, r[1..], q[1..]);
    }
  }

  /** A table in the tree is where one path leads, and only that one. */
  lemma TableOnPath(m: Mem, root: nat, q: seq<nat>)
    requires Tree(m, root, 4) && |q| <= 3 && Resolve(m, root, 4, q).Some?
    ensures var t := Resolve(m, root, 4, q).value;
      && IsTable(m, t) && t in Frames(m, root, 4)
      && forall r {:trigger Resolve(m, root, 4, r)} | |r| <= 3 && Resolve(m, root, 4, r) == Some(t) :: r == q
  {
    var t := Resolve(m, root, 4, q).value;
    ResolveTree(m, root, 4, q);
    RootInFrames(m, t, 4 - |q|);
    forall r | |r| <= 3 && Resolve(m, root, 4, r) == Some(t) ensures r == q {
      ResolveInjective(m, root, 4, q, r);
    }
  }

  /** Slot i of the table at path q was written: no other entry of the tree is affected, as far as the paths
    * to the entries are. */
  lemma EntryOutside(m: Mem, m': Mem, root: nat, q: seq<nat>, t: nat, i: nat, p: seq<nat>)
    requires Tree(m, root, 4) && |q| <= 3 && Resolve(m, root, 4, q) == Some(t) && 1 <= |p| <= 4 && p != q + [i]
    requires Agree(m, m', Frames(m, root, 4) - {t}) && IsTable(m', t)
    requires forall j: nat | j != i && j < ENTRIES :: EntryAt(m', t, j) == EntryAt(m, t, j)
    requires Resolve(m', root, 4, p[..|p| - 1]) == Resolve(m, root, 4, p[..|p| - 1])
    ensures EntryTo(m', root, p) == EntryTo(m, root, p)
  {
    hide Tree, Frames;
    var r, x := p[..|p| - 1], p[|p| - 1];
    assert p == r + [x];
    if Resolve(m, root, 4, r).Some? {
      TableOnPath(m, root, r);
      if Resolve(m, root, 4, r).value == t {
        assert r == q && x != i;
      } else {
        assert m'[Resolve(m, root, 4, r).value] == m[Resolve(m, root, 4, r).value];
      }
    }
  }

  /** The entries depend on the tree's own tables and on nothing else. */
  lemma EntriesFrame(m: Mem, m': Mem, root: nat)
    requires Tree(m, root, 4) && SameTables(m, m', Frames(m, root, 4))
    ensures SamePaths(m, m', root)
  {
    hide Tree, Frames;
    TreeFrame(m, m', root, 4);
    forall q: seq<nat> | 1 <= |q| <= 3 ensures EntryTo(m', root, q) == EntryTo(m, root, q) {
      var r := q[..|q| - 1];
      if Resolve(m, root, 4, r).Some? {
        TableOnPath(m, root, r);
      }
      assert Resolve(m', root, 4, r) == Resolve(m, root, 4, r);
    }
  }

  lemma PathsAgain(m0: Mem, m1: Mem, m2: Mem, root: nat)
    requires SamePaths(m0, m1, root) && SamePaths(m1, m2, root)
    ensures SamePaths(m0, m2, root)
  {
    hide EntryTo;
    forall q: seq<nat> | 1 <= |q| <= 3 ensures EntryTo(m2, root, q) == EntryTo(m0, root, q) {
      var e := EntryTo(m1, root, q);
    }
  }

  lemma PathsSame(m: Mem, root: nat)
    ensures SamePaths(m, m, root)
  {}

  lemma NoTablesAdded(m: Mem, root: nat, p: seq<nat>, g: Grant)
    ensures TablesAdded(m, m, root, p, 0, g)
  {}

  lemma NextTableAdded(m0: Mem, m1: Mem, m2: Mem, root: nat, p: seq<nat>, k: nat, g: Grant)
    requires |p| == 4 && k < 3 && TablesAdded(m0, m1, root, p, k, g) && TableAdded(m1, m2, root, p[..k + 1], g)
    ensures TablesAdded(m0, m2, root, p, k + 1, g)
  {
    hide EntryTo, Granted;
    forall q: seq<nat> | 1 <= |q| <= 3
      ensures EntryTo(m2, root, q) ==
        if |q| <= k + 1 && q <= p then Some(Granted(EntryTo(m0, root, q), g)) else EntryTo(m0, root, q)
    {
      var e1 := EntryTo(m1, root, q);
      if q <= p {
        assert q == p[..|q|];
      }
    }
  }

  lemma StoppedHere(m: Mem, m': Mem, root: nat, p: seq<nat>, k: nat, g: Grant, alloc: bool)
    requires alloc ==> k < 3 <= |p| && TablesAdded(m, m', root, p, k, g) && Resolve(m', root, 4, p[..k + 1]) == None
    ensures alloc ==> StoppedAt(m, m', root, p, g)
  {}

  /** Tables stay as they are before and after the walk. */
  lemma PathsJoin(m0: Mem, m1: Mem, m2: Mem, m3: Mem, root: nat, p: seq<nat>, k: nat, g: Grant)
    requires SamePaths(m0, m1, root) && TablesAdded(m1, m2, root, p, k, g) && SamePaths(m2, m3, root)
    ensures TablesAdded(m0, m3, root, p, k, g)
  {
    hide EntryTo, Granted;
    forall q: seq<nat> | 1 <= |q| <= 3
      ensures EntryTo(m3, root, q) ==
        if |q| <= k && q <= p then Some(Granted(EntryTo(m0, root, q), g)) else EntryTo(m0, root, q)
    {
      var e1, e2 := EntryTo(m1, root, q), EntryTo(m2, root, q);
    }
  }

  lemma StoppedJoin(m0: Mem, m1: Mem, m2: Mem, root: nat, p: seq<nat>, g: Grant)
    requires SamePaths(m0, m1, root) && StoppedAt(m1, m2, root, p, g)
    ensures StoppedAt(m0, m2, root, p, g)
  {
    hide TablesAdded, SamePaths, Resolve;
    var k: nat :| k < 3 <= |p| && TablesAdded(m1, m2, root, p, k, g) && Resolve(m2, root, 4, p[..k + 1]) == None;
    PathsSame(m2, root);
    PathsJoin(m0, m1, m2, m2, root, p, k, g);
  }

  /** A walk that only makes what is missing, also one that was stopped, keeps all tables as they are. */
  lemma WalkKeepsTables(m: Mem, m': Mem, root: nat, p: seq<nat>)
    requires TablesAdded(m, m', root, p, 3, Fresh(USER_FLAGS)) || StoppedAt(m, m', root, p, Fresh(USER_FLAGS))
    ensures TablesKept(m, m', root)
  {
    hide EntryTo;
  }

  lemma SameKeepsTables(m: Mem, m': Mem, root: nat)
    requires SamePaths(m, m', root)
    ensures TablesKept(m, m', root)
  {
    hide EntryTo;
  }

  lemma KeptAgain(m0: Mem, m1: Mem, m2: Mem, root: nat)
    requires TablesKept(m0, m1, root) && TablesKept(m1, m2, root)
    ensures TablesKept(m0, m2, root)
  {
    hide EntryTo;
    forall q: seq<nat> | 1 <= |q| <= 3
      ensures EntryTo(m2, root, q) == EntryTo(m0, root, q) ||
        (EntryTo(m0, root, q) == None && EntryTo(m2, root, q) == Some(USER_FLAGS))
    {
      var e := EntryTo(m1, root, q);
    }
  }
}

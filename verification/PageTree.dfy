/** Four-level page tables as a tree of physical frames.
  *
  * A frame is known by its number.  Its content is a table of 512 entries or a page of 4096 bytes.
  * Level 4 is the PML4, level 1 a page table, level 0 a data page.  A user tree hangs below the
  * first 256 entries of a PML4; the other 256 are the kernel half, which belongs to nobody's tree.
  */
module PageTree {
  import opened Basics

  datatype Flags = Flags(present: bool, writable: bool, user: bool, huge: bool, other: set<nat>) {
    function Union(o: Flags): Flags {
      Flags(present || o.present, writable || o.writable, user || o.user, huge || o.huge, other + o.other)
    }
  }

  datatype Entry = Entry(frame: nat, flags: Flags)

  datatype Content = Table(entries: seq<Entry>) | Page(bytes: seq<byte>)

  type Mem = map<nat, Content>

  const ENTRIES: nat := 512
  const USER_ENTRIES: nat := 256
  const UNUSED := Entry(0, Flags(false, false, false, false, {}))
  function EmptyTable(): Content { Table(seq(ENTRIES, _ => UNUSED)) }
  function ZeroPage(): Content { Page(seq(PAGE_SIZE, _ => 0)) }
  const USER_FLAGS := Flags(true, true, true, false, {})

  /** How many entries of a level-h table lead to user frames. */
  function Limit(h: nat): nat {
    if h == 4 then USER_ENTRIES else ENTRIES
  }

  predicate IsTable(m: Mem, f: nat) {
    f in m && m[f].Table? && |m[f].entries| == ENTRIES
  }

  predicate IsPage(m: Mem, f: nat) {
    f in m && m[f].Page? && |m[f].bytes| == PAGE_SIZE
  }

  function EntryAt(m: Mem, f: nat, i: nat): Entry {
    if IsTable(m, f) && i < ENTRIES then m[f].entries[i] else UNUSED
  }

  predicate Present(m: Mem, f: nat, h: nat, i: nat) {
    i < Limit(h) && EntryAt(m, f, i).flags.present
  }

  function Child(m: Mem, f: nat, i: nat): nat {
    EntryAt(m, f, i).frame
  }

  /** The frames of the tree of height h whose root is f. */
  ghost function Frames(m: Mem, f: nat, h: nat): set<nat>
    decreases h, 2, f
  {
    if h == 0 then {f} else {f} + Subs(m, f, h, Limit(h))
  }

  /** What hangs in the first k slots of the level-h table f. */
  ghost function Subs(m: Mem, f: nat, h: nat, k: nat): set<nat>
    decreases h, 1, k, f
  {
    if k == 0 then {} else Subs(m, f, h, k - 1) + Sub(m, f, h, k - 1)
  }

  /** What hangs in slot i of the level-h table f. */
  ghost function Sub(m: Mem, f: nat, h: nat, i: nat): set<nat>
    decreases h, 0, f
  {
    if h > 0 && Present(m, f, h, i) then Frames(m, Child(m, f, i), h - 1) else {}
  }

  /** An entry is unused, or it points to the next level; huge pages do not occur in a user tree. */
  predicate EntryOk(e: Entry) {
    e == UNUSED || (e.flags.present && !e.flags.huge)
  }

  /** The separation invariant: tables above pages, and every frame below f has exactly one parent slot. */
  ghost predicate Tree(m: Mem, f: nat, h: nat)
    decreases h, f
  {
    if h == 0 then IsPage(m, f)
    else
      && IsTable(m, f)
      && (forall i: nat | i < Limit(h) :: EntryOk(EntryAt(m, f, i)))
      && (forall i: nat | Present(m, f, h, i) :: Tree(m, Child(m, f, i), h - 1))
      && (forall i: nat | i < Limit(h) :: f !in Sub(m, f, h, i))
      && (forall i: nat, j: nat | i < Limit(h) && j < Limit(h) && i != j :: Sub(m, f, h, i) !! Sub(m, f, h, j))
  }

  /** The table that the first |q| indices of an address lead to. */
  function Resolve(m: Mem, f: nat, h: nat, q: seq<nat>): Option<nat>
    decreases q
  {
    if q == [] then Some(f)
    else if h == 0 || !Present(m, f, h, q[0]) then None
    else Resolve(m, Child(m, f, q[0]), h - 1, q[1..])
  }

  /** The leaf map: the present level-1 entry that a full index path leads to. */
  function Leaf(m: Mem, f: nat, h: nat, p: seq<nat>): Option<Entry>
    decreases p
  {
    if p == [] || h == 0 || !Present(m, f, h, p[0]) then None
    else if h == 1 then (if |p| == 1 then Some(EntryAt(m, f, p[0])) else None)
    else Leaf(m, Child(m, f, p[0]), h - 1, p[1..])
  }

  ghost predicate Agree(m: Mem, m': Mem, s: set<nat>) {
    forall g | g in s && g in m :: g in m' && m'[g] == m[g]
  }

  /** Tables are equal; a data page is still a data page, with any bytes. */
  ghost predicate SameTables(m: Mem, m': Mem, s: set<nat>) {
    forall g | g in s && g in m :: g in m' && (m'[g] == m[g] || (IsPage(m, g) && IsPage(m', g)))
  }

  // ---- Frames of subtrees

  lemma {:induction false} InSubs(m: Mem, f: nat, h: nat, i: nat, k: nat)
    requires i < k
    ensures Sub(m, f, h, i) <= Subs(m, f, h, k)
  {
    if i < k - 1 {
      InSubs(m, f, h, i, k - 1);
    }
  }

  lemma RootInFrames(m: Mem, f: nat, h: nat)
    ensures f in Frames(m, f, h)
  {}

  lemma SubInFrames(m: Mem, f: nat, h: nat, i: nat)
    requires i < Limit(h)
    ensures Sub(m, f, h, i) <= Frames(m, f, h)
  {
    if h > 0 {
      InSubs(m, f, h, i, Limit(h));
    }
  }

  lemma {:induction false} SlotUpTo(m: Mem, f: nat, h: nat, k: nat, g: nat) returns (i: nat)
    requires g in Subs(m, f, h, k)
    ensures i < k && g in Sub(m, f, h, i)
    decreases k
  {
    if g in Sub(m, f, h, k - 1) {
      i := k - 1;
    } else {
      i := SlotUpTo(m, f, h, k - 1, g);
    }
  }

  lemma Slot(m: Mem, f: nat, h: nat, g: nat) returns (i: nat)
    requires g in Frames(m, f, h) && g != f
    ensures h > 0 && i < Limit(h) && g in Sub(m, f, h, i)
  {
    i := SlotUpTo(m, f, h, Limit(h), g);
  }

  lemma BareTable(m: Mem, f: nat, h: nat)
    requires forall i: nat {:trigger Present(m, f, h, i)} | i < Limit(h) :: !Present(m, f, h, i)
    ensures Frames(m, f, h) == {f}
  {
    forall g | g in Frames(m, f, h) && g != f ensures false {
      var i := Slot(m, f, h, g);
    }
  }

  lemma SubsInSubs(m: Mem, m': Mem, f: nat, h: nat)
    requires forall i: nat {:trigger Sub(m, f, h, i)} | i < Limit(h) :: Sub(m, f, h, i) <= Sub(m', f, h, i)
    ensures Frames(m, f, h) <= Frames(m', f, h)
  {
    forall g | g in Frames(m, f, h) && g != f ensures g in Frames(m', f, h) {
      var i := Slot(m, f, h, g);
      SubInFrames(m', f, h, i);
    }
  }

  lemma SameSubs(m: Mem, m': Mem, f: nat, h: nat)
    requires forall i: nat {:trigger Sub(m', f, h, i)} | i < Limit(h) :: Sub(m, f, h, i) == Sub(m', f, h, i)
    ensures Frames(m, f, h) == Frames(m', f, h)
  {
    SubsInSubs(m, m', f, h);
    SubsInSubs(m', m, f, h);
  }

  lemma {:induction false} FramesInMem(m: Mem, f: nat, h: nat, g: nat)
    requires Tree(m, f, h) && g in Frames(m, f, h)
    ensures g in m
    decreases h
  {
    if h > 0 && g != f {
      var i := Slot(m, f, h, g);
      FramesInMem(m, Child(m, f, i), h - 1, g);
    }
  }

  /** Shape and leaf map depend on the tree's own tables and on nothing else. */
  lemma {:induction false} TreeFrame(m: Mem, m': Mem, f: nat, h: nat)
    requires Tree(m, f, h) && SameTables(m, m', Frames(m, f, h))
    ensures Tree(m', f, h) && Frames(m', f, h) == Frames(m, f, h)
    ensures forall p {:trigger Leaf(m', f, h, p)} :: Leaf(m', f, h, p) == Leaf(m, f, h, p)
    ensures forall q {:trigger Resolve(m', f, h, q)} :: Resolve(m', f, h, q) == Resolve(m, f, h, q)
    decreases h
  {
    assert f in Frames(m, f, h);
    if h > 0 {
      assert m'[f] == m[f];
      forall i: nat | i < Limit(h) && Present(m, f, h, i)
        ensures Tree(m', Child(m, f, i), h - 1) && Frames(m', Child(m, f, i), h - 1) == Frames(m, Child(m, f, i), h - 1)
        ensures forall p {:trigger Leaf(m', Child(m, f, i), h - 1, p)} ::
          Leaf(m', Child(m, f, i), h - 1, p) == Leaf(m, Child(m, f, i), h - 1, p)
        ensures forall q {:trigger Resolve(m', Child(m, f, i), h - 1, q)} ::
          Resolve(m', Child(m, f, i), h - 1, q) == Resolve(m, Child(m, f, i), h - 1, q)
      {
        SubInFrames(m, f, h, i);
        TreeFrame(m, m', Child(m, f, i), h - 1);
      }
      assert forall i: nat {:trigger EntryAt(m', f, i)} :: EntryAt(m', f, i) == EntryAt(m, f, i);
      assert forall i: nat {:trigger Present(m', f, h, i)} :: Present(m', f, h, i) == Present(m, f, h, i);
      assert forall i: nat {:trigger Sub(m', f, h, i)} | i < Limit(h) :: Sub(m', f, h, i) == Sub(m, f, h, i);
      SameSubs(m, m', f, h);
    }
  }

  // ---- Descending along an index path

  /** A resolved path leads to a tree inside the tree, and the leaf map below it is that tree's own. */
  lemma {:induction false} ResolveTree(m: Mem, f: nat, h: nat, q: seq<nat>)
    requires Tree(m, f, h) && |q| <= h && Resolve(m, f, h, q).Some?
    ensures var t := Resolve(m, f, h, q).value;
      && Tree(m, t, h - |q|)
      && Frames(m, t, h - |q|) <= Frames(m, f, h)
      && (q != [] ==> t != f)
    decreases q
  {
    if q != [] {
      var c := Child(m, f, q[0]);
      ResolveTree(m, c, h - 1, q[1..]);
      var t := Resolve(m, c, h - 1, q[1..]).value;
      SubInFrames(m, f, h, q[0]);
      assert t in Frames(m, t, h - |q|);
      assert t in Sub(m, f, h, q[0]);
    }
  }

  lemma {:induction false} ResolveSplit(m: Mem, f: nat, h: nat, q: seq<nat>, p: seq<nat>)
    requires |q| < h && q <= p && Resolve(m, f, h, q).Some?
    ensures Leaf(m, f, h, p) == Leaf(m, Resolve(m, f, h, q).value, h - |q|, p[|q|..])
    ensures Resolve(m, f, h, p) == Resolve(m, Resolve(m, f, h, q).value, h - |q|, p[|q|..])
    decreases q
  {
    if q == [] {
      assert p[0..] == p;
    } else {
      ResolveSplit(m, Child(m, f, q[0]), h - 1, q[1..], p[1..]);
      assert p[1..][|q[1..]|..] == p[|q|..];
    }
  }

  /** Two paths never lead to the same frame. */
  lemma {:induction false} ResolveInjective(m: Mem, f: nat, h: nat, p: seq<nat>, q: seq<nat>)
    requires Tree(m, f, h) && |p| <= h && |q| <= h
    requires Resolve(m, f, h, p).Some? && Resolve(m, f, h, p) == Resolve(m, f, h, q)
    ensures p == q
    decreases |p|
  {
    if p == [] && q != [] {
      ResolveTree(m, f, h, q);
    } else if p != [] && q == [] {
      ResolveTree(m, f, h, p);
    } else if p != [] {
      ResolveTree(m, Child(m, f, p[0]), h - 1, p[1..]);
      ResolveTree(m, Child(m, f, q[0]), h - 1, q[1..]);
      var t := Resolve(m, f, h, p).value;
      RootInFrames(m, t, h - |p|);
      RootInFrames(m, t, h - |q|);
      assert t in Sub(m, f, h, p[0]) && t in Sub(m, f, h, q[0]);
      assert p[0] == q[0];
      ResolveInjective(m, Child(m, f, p[0]), h - 1, p[1..], q[1..]);
      assert p == [p[0]] + p[1..] && q == [q[0]] + q[1..];
    }
  }

  // ---- The one structural update

  /** Slot i of the table t at path q changes, together with what hangs in it; all else stays. */
  ghost predicate Spliced(m: Mem, m': Mem, f: nat, h: nat, q: seq<nat>, t: nat, i: nat) {
    && |q| < h
    && Resolve(m, f, h, q) == Some(t)
    && i < Limit(h - |q|)
    && Agree(m, m', Frames(m, f, h) - Sub(m, t, h - |q|, i) - {t})
    && IsTable(m', t)
    && (forall j: nat | j != i && j < ENTRIES :: EntryAt(m', t, j) == EntryAt(m, t, j))
    && EntryOk(EntryAt(m', t, i))
    && (Present(m', t, h - |q|, i) ==> Tree(m', Child(m', t, i), h - |q| - 1))
    && Sub(m', t, h - |q|, i) !! (Frames(m, f, h) - Sub(m, t, h - |q|, i))
  }

  lemma SpliceSibling(m: Mem, m': Mem, f: nat, h: nat, i: nat, j: nat)
    requires Tree(m, f, h) && Spliced(m, m', f, h, [], f, i)
    requires j < Limit(h) && j != i
    ensures Present(m', f, h, j) == Present(m, f, h, j) && EntryAt(m', f, j) == EntryAt(m, f, j)
    ensures Sub(m', f, h, j) == Sub(m, f, h, j)
    ensures Present(m, f, h, j) ==> Tree(m', Child(m, f, j), h - 1)
    ensures forall p {:trigger Leaf(m', Child(m, f, j), h - 1, p)} | Present(m, f, h, j) ::
      Leaf(m', Child(m, f, j), h - 1, p) == Leaf(m, Child(m, f, j), h - 1, p)
    ensures forall p {:trigger Resolve(m', Child(m, f, j), h - 1, p)} | Present(m, f, h, j) ::
      Resolve(m', Child(m, f, j), h - 1, p) == Resolve(m, Child(m, f, j), h - 1, p)
  {
    if Present(m, f, h, j) {
      SubInFrames(m, f, h, j);
      assert f !in Sub(m, f, h, j) && Sub(m, f, h, i) !! Sub(m, f, h, j);
      TreeFrame(m, m', Child(m, f, j), h - 1);
    }
  }

  lemma SpliceHere(m: Mem, m': Mem, f: nat, h: nat, i: nat)
    requires Tree(m, f, h) && Spliced(m, m', f, h, [], f, i)
    ensures Tree(m', f, h)
    ensures Frames(m', f, h) == Frames(m, f, h) - Sub(m, f, h, i) + Sub(m', f, h, i)
  {
    forall j: nat | j < Limit(h) && j != i
      ensures Sub(m', f, h, j) == Sub(m, f, h, j) && EntryAt(m', f, j) == EntryAt(m, f, j)
      ensures Present(m, f, h, j) ==> Tree(m', Child(m, f, j), h - 1)
    {
      SpliceSibling(m, m', f, h, i, j);
    }
    SpliceFrames(m, m', f, h, i);
    SubInFrames(m, f, h, i);
    forall j: nat | j < Limit(h) && j != i ensures Sub(m', f, h, j) !! Sub(m', f, h, i) {
      SubInFrames(m, f, h, j);
    }
  }

  lemma SpliceFrames(m: Mem, m': Mem, f: nat, h: nat, i: nat)
    requires Tree(m, f, h) && h > 0 && i < Limit(h)
    requires forall j: nat {:trigger Sub(m', f, h, j)} | j < Limit(h) && j != i :: Sub(m', f, h, j) == Sub(m, f, h, j)
    ensures Frames(m', f, h) == Frames(m, f, h) - Sub(m, f, h, i) + Sub(m', f, h, i)
  {
    forall g | g in Frames(m, f, h) && g !in Sub(m, f, h, i) && g != f ensures g in Frames(m', f, h) {
      var j := Slot(m, f, h, g);
      SubInFrames(m', f, h, j);
    }
    forall g | g in Frames(m', f, h) && g !in Sub(m', f, h, i) && g != f
      ensures g in Frames(m, f, h) && g !in Sub(m, f, h, i)
    {
      var j := Slot(m', f, h, g);
      SubInFrames(m, f, h, j);
    }
    SubInFrames(m', f, h, i);
  }

  /** The splice seen from one level up: in slot q[0] of f hangs a tree that changed at path q[1..]. */
  lemma SpliceUp(m: Mem, m': Mem, f: nat, h: nat, q: seq<nat>, t: nat, i: nat)
    requires Tree(m, f, h) && Spliced(m, m', f, h, q, t, i) && q != []
    ensures Present(m, f, h, q[0]) && Tree(m, Child(m, f, q[0]), h - 1)
    ensures Spliced(m, m', Child(m, f, q[0]), h - 1, q[1..], t, i)
    ensures t in Sub(m, f, h, q[0]) && Sub(m, t, h - |q|, i) <= Sub(m, f, h, q[0]) && t != f
  {
    hide Frames, Subs;
    ResolveTree(m, Child(m, f, q[0]), h - 1, q[1..]);
    SubInFrames(m, f, h, q[0]);
    SubInFrames(m, t, h - |q|, i);
    RootInFrames(m, t, h - |q|);
  }

  lemma SpliceParent(m: Mem, m': Mem, f: nat, h: nat, q: seq<nat>, t: nat, i: nat)
    requires Tree(m, f, h) && Spliced(m, m', f, h, q, t, i) && q != [] && Present(m, f, h, q[0])
    requires t in Sub(m, f, h, q[0]) && Sub(m, t, h - |q|, i) <= Sub(m, f, h, q[0]) && t != f
    requires Tree(m', Child(m, f, q[0]), h - 1)
    requires Frames(m', Child(m, f, q[0]), h - 1) == Sub(m, f, h, q[0]) - Sub(m, t, h - |q|, i) + Sub(m', t, h - |q|, i)
    ensures m'[f] == m[f]
    ensures Sub(m', f, h, q[0]) == Frames(m', Child(m, f, q[0]), h - 1)
    ensures Spliced(m, m', f, h, [], f, q[0])
  {
    assert f in Frames(m, f, h) && f !in Sub(m, f, h, q[0]);
    assert m'[f] == m[f];
    SubInFrames(m, f, h, q[0]);
  }

  lemma {:induction false} SpliceTree(m: Mem, m': Mem, f: nat, h: nat, q: seq<nat>, t: nat, i: nat)
    requires Tree(m, f, h) && Spliced(m, m', f, h, q, t, i)
    ensures Tree(m', f, h)
    ensures Frames(m', f, h) == Frames(m, f, h) - Sub(m, t, h - |q|, i) + Sub(m', t, h - |q|, i)
    ensures q != [] ==> Spliced(m, m', f, h, [], f, q[0]) && m'[f] == m[f]
    decreases q
  {
    hide Tree, Frames, Subs;
    if q == [] {
      SpliceHere(m, m', f, h, i);
    } else {
      SpliceUp(m, m', f, h, q, t, i);
      SpliceTree(m, m', Child(m, f, q[0]), h - 1, q[1..], t, i);
      SpliceParent(m, m', f, h, q, t, i);
      SpliceHere(m, m', f, h, q[0]);
      SubInFrames(m, f, h, q[0]);
    }
  }

  /** A path looks the same if its first entry does, and what is below that. */
  lemma SameBelow(m: Mem, m': Mem, f: nat, h: nat, p: seq<nat>)
    requires h > 0 && p != [] ==>
      && Present(m', f, h, p[0]) == Present(m, f, h, p[0])
      && (Present(m, f, h, p[0]) ==>
            var c := Child(m, f, p[0]);
            && EntryAt(m', f, p[0]) == EntryAt(m, f, p[0])
            && Leaf(m', c, h - 1, p[1..]) == Leaf(m, c, h - 1, p[1..])
            && Resolve(m', c, h - 1, p[1..]) == Resolve(m, c, h - 1, p[1..]))
    ensures Leaf(m', f, h, p) == Leaf(m, f, h, p) && Resolve(m', f, h, p) == Resolve(m, f, h, p)
  {}

  lemma {:induction false} SpliceLeaf(m: Mem, m': Mem, f: nat, h: nat, q: seq<nat>, t: nat, i: nat, p: seq<nat>)
    requires Tree(m, f, h) && Spliced(m, m', f, h, q, t, i) && !(q + [i] <= p)
    ensures Leaf(m', f, h, p) == Leaf(m, f, h, p) && Resolve(m', f, h, p) == Resolve(m, f, h, p)
    decreases q
  {
    hide Tree, Frames, Subs, Leaf;
    SpliceTree(m, m', f, h, q, t, i);
    if p != [] && p[0] < Limit(h) {
      if q == [] {
        assert q + [i] == [i];
        SpliceSibling(m, m', f, h, i, p[0]);
      } else if p[0] != q[0] {
        SpliceSibling(m, m', f, h, q[0], p[0]);
      } else {
        PrefixTail(q[0], q[1..] + [i], p);
        assert q + [i] == [q[0]] + (q[1..] + [i]);
        SpliceUp(m, m', f, h, q, t, i);
        SpliceLeaf(m, m', Child(m, f, q[0]), h - 1, q[1..], t, i, p[1..]);
      }
    }
    SameBelow(m, m', f, h, p);
  }

  lemma Splice(m: Mem, m': Mem, f: nat, h: nat, q: seq<nat>, t: nat, i: nat)
    requires Tree(m, f, h) && Spliced(m, m', f, h, q, t, i)
    ensures Tree(m', f, h)
    ensures Frames(m', f, h) == Frames(m, f, h) - Sub(m, t, h - |q|, i) + Sub(m', t, h - |q|, i)
    ensures forall p {:trigger Leaf(m', f, h, p)} | !(q + [i] <= p) :: Leaf(m', f, h, p) == Leaf(m, f, h, p)
    ensures forall p {:trigger Resolve(m', f, h, p)} | !(q + [i] <= p) :: Resolve(m', f, h, p) == Resolve(m, f, h, p)
  {
    SpliceTree(m, m', f, h, q, t, i);
    forall p | !(q + [i] <= p)
      ensures Leaf(m', f, h, p) == Leaf(m, f, h, p) && Resolve(m', f, h, p) == Resolve(m, f, h, p)
    {
      SpliceLeaf(m, m', f, h, q, t, i, p);
    }
  }

  lemma PrefixTail(a: nat, s: seq<nat>, p: seq<nat>)
    requires p != [] && p[0] == a
    ensures s <= p[1..] <==> [a] + s <= p
  {
    assert p == [a] + p[1..];
    if [a] + s <= p {
      assert ([a] + s)[1..] == s;
    }
  }

  // ---- Leaves

  lemma {:induction false} LeafFrame(m: Mem, f: nat, h: nat, p: seq<nat>)
    requires Tree(m, f, h) && Leaf(m, f, h, p).Some?
    ensures var e := Leaf(m, f, h, p).value;
      && e.flags.present && !e.flags.huge && IsPage(m, e.frame)
      && e.frame in Frames(m, f, h) && e.frame in Sub(m, f, h, p[0])
    decreases p
  {
    SubInFrames(m, f, h, p[0]);
    if h > 1 {
      LeafFrame(m, Child(m, f, p[0]), h - 1, p[1..]);
    } else {
      assert Tree(m, Child(m, f, p[0]), 0);
    }
  }

  /** Two paths never lead to the same data frame. */
  lemma {:induction false} LeafInjective(m: Mem, f: nat, h: nat, p: seq<nat>, p': seq<nat>)
    requires Tree(m, f, h) && Leaf(m, f, h, p).Some? && Leaf(m, f, h, p').Some?
    requires Leaf(m, f, h, p).value.frame == Leaf(m, f, h, p').value.frame
    ensures p == p'
    decreases p
  {
    LeafFrame(m, f, h, p);
    LeafFrame(m, f, h, p');
    assert p[0] == p'[0];
    if h > 1 {
      LeafInjective(m, Child(m, f, p[0]), h - 1, p[1..], p'[1..]);
      assert p == [p[0]] + p[1..] && p' == [p'[0]] + p'[1..];
    }
  }
}

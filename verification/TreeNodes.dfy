/** The frames of a user tree, counted: one for every table and page that some mapped page needs. */
module TreeNodes {
  import opened Basics
  import opened PageTree
  import opened AddressSpace
  import opened TableEntries
  import opened Walker

  /** A place in the tree: the first depth indices of an address, read as one number in base 512. */
  datatype Node = Node(depth: nat, index: nat)

  /** How many pages lie below a node. */
  function Span(depth: nat): nat {
    if depth == 0 then 0x10_0000_0000 else if depth == 1 then 0x800_0000 else if depth == 2 then 0x4_0000
    else if depth == 3 then 0x200 else 1
  }

  /** How many nodes the user half has at a depth. */
  function Width(depth: nat): nat {
    if depth == 0 then 1 else if depth == 1 then 256 else if depth == 2 then 0x2_0000 else if depth == 3 then 0x400_0000
    else USER_PAGES
  }

  /** The node above page n at this depth; at depth 4 the page itself. */
  function NodeOf(n: nat, depth: nat): Node {
    Node(depth, n / Span(depth))
  }

  function NodePath(x: Node): seq<nat>
    decreases x.depth
  {
    if x.depth == 0 then [] else NodePath(Node(x.depth - 1, x.index / 512)) + [x.index % 512]
  }

  ghost predicate Here(m: Mem, root: nat, x: Node) {
    x.depth <= 4 && x.index < Width(x.depth) && Resolve(m, root, 4, NodePath(x)).Some?
  }

  /** The tables and pages of a tree. */
  ghost function Nodes(m: Mem, root: nat): set<Node> {
    set d: nat, i: nat | d <= 4 && i < USER_PAGES && Here(m, root, Node(d, i)) :: Node(d, i)
  }

  ghost function Above(pages: set<nat>, depth: nat): set<Node> {
    set n | n in pages :: NodeOf(n, depth)
  }

  /** Everything that these pages need below the PML4: themselves and the tables above them. */
  ghost function NodesOver(pages: set<nat>): set<Node> {
    Above(pages, 1) + Above(pages, 2) + Above(pages, 3) + Above(pages, 4)
  }

  /** The frames it takes to map these pages: what they need and the tree does not have. */
  ghost function Missing(m: Mem, root: nat, pages: set<nat>): set<Node> {
    NodesOver(pages) - Nodes(m, root)
  }

  // ---- Paths and nodes

  lemma {:induction false} NodePathIs(x: Node)
    ensures |NodePath(x)| == x.depth
    ensures forall j | 0 <= j < x.depth :: NodePath(x)[j] < 512
    decreases x.depth
  {
    if x.depth > 0 {
      NodePathIs(Node(x.depth - 1, x.index / 512));
    }
  }

  lemma PathPrefix(n: nat, d: nat)
    requires n < USER_PAGES && d <= 4
    ensures PathOf(n * PAGE_SIZE)[..d] == NodePath(NodeOf(n, d)) && n / Span(d) < Width(d)
  {
    PageIndices(n);
    var p := PathOf(n * PAGE_SIZE);
    if d > 0 {
      PathPrefix(n, d - 1);
      SpanStep(n, d);
      assert p[..d] == p[..d - 1] + [p[d - 1]];
    }
  }

  lemma SpanStep(n: nat, d: nat)
    requires n < USER_PAGES && 1 <= d <= 4
    ensures n / Span(d) / 512 == n / Span(d - 1) && n / Span(d) < Width(d)
    ensures n / Span(d) % 512 ==
      if d == 1 then n / 0x800_0000 else if d == 2 then n / 0x4_0000 % 512
      else if d == 3 then n / 0x200 % 512 else n % 512
  {}

  lemma {:induction false} NodePathInjective(x: Node, y: Node)
    requires x.depth <= 4 && x.index < Width(x.depth) && y.index < Width(y.depth) && NodePath(x) == NodePath(y)
    ensures x == y
    decreases x.depth
  {
    NodePathIs(x);
    NodePathIs(y);
    if x.depth > 0 {
      var a, b := Node(x.depth - 1, x.index / 512), Node(y.depth - 1, y.index / 512);
      var p := NodePath(x);
      assert NodePath(a) == p[..x.depth - 1] == NodePath(b) && x.index % 512 == p[x.depth - 1] == y.index % 512;
      NodePathInjective(a, b);
    }
  }

  /** Every index path inside the user half is that of a node. */
  lemma {:induction false} PathNode(p: seq<nat>) returns (x: Node)
    requires |p| <= 4 && (p != [] ==> p[0] < 256) && forall j | 0 <= j < |p| :: p[j] < 512
    ensures NodePath(x) == p && x.depth == |p| && x.index < Width(x.depth)
    decreases |p|
  {
    if p == [] {
      x := Node(0, 0);
    } else {
      var k := |p| - 1;
      var y := PathNode(p[..k]);
      x := Node(|p|, y.index * 512 + p[k]);
      assert x.index / 512 == y.index && x.index % 512 == p[k];
      assert p == p[..k] + [p[k]];
    }
  }

  // ---- One frame for every node

  /** Every frame of a tree lies at the end of a path. */
  lemma {:induction false} PathTo(m: Mem, f: nat, h: nat, g: nat) returns (p: seq<nat>)
    requires Tree(m, f, h) && h <= 4 && g in Frames(m, f, h)
    ensures |p| <= h && Resolve(m, f, h, p) == Some(g)
    ensures (forall j | 0 <= j < |p| :: p[j] < 512) && (h == 4 && p != [] ==> p[0] < 256)
    decreases h
  {
    if g == f {
      p := [];
    } else {
      var i := PageTree.Slot(m, f, h, g);
      var q := PathTo(m, Child(m, f, i), h - 1, g);
      p := [i] + q;
      assert p[1..] == q;
    }
  }

  lemma {:induction false} CountBijection<A, B>(g: map<A, B>, image: set<B>)
    requires forall a | a in g :: g[a] in image
    requires forall a, b | a in g && b in g && g[a] == g[b] :: a == b
    requires forall y | y in image :: exists a :: a in g && g[a] == y
    ensures |g| == |image|
    decreases |g|
  {
    if g == map[] {
      assert image == {};
    } else {
      var a :| a in g;
      var rest := g - {a};
      assert rest.Keys == g.Keys - {a};
      forall y | y in image - {g[a]} ensures exists b :: b in rest && rest[b] == y {
        var b :| b in g && g[b] == y;
        assert b in rest && rest[b] == y;
      }
      CountBijection(rest, image - {g[a]});
    }
  }

  lemma NodeHere(m: Mem, root: nat, x: Node)
    ensures x in Nodes(m, root) <==> Here(m, root, x)
  {
    if Here(m, root, x) {
      assert x == Node(x.depth, x.index) && x.index < USER_PAGES;
    }
  }

  /** A tree has one frame for every node, and no others. */
  lemma FramesAreNodes(m: Mem, root: nat)
    requires Tree(m, root, 4)
    ensures |Frames(m, root, 4)| == |Nodes(m, root)|
  {
    hide Tree, Frames, Nodes, Width, NodePath;
    forall x | x in Nodes(m, root) ensures Here(m, root, x) {
      NodeHere(m, root, x);
    }
    var g := map x | x in Nodes(m, root) :: Resolve(m, root, 4, NodePath(x)).value;
    forall x | x in g ensures g[x] in Frames(m, root, 4) {
      NodePathIs(x);
      ResolveTree(m, root, 4, NodePath(x));
      RootInFrames(m, g[x], 4 - x.depth);
    }
    forall x, y | x in g && y in g && g[x] == g[y] ensures x == y {
      NodePathIs(x);
      NodePathIs(y);
      ResolveInjective(m, root, 4, NodePath(x), NodePath(y));
      NodePathInjective(x, y);
    }
    forall f | f in Frames(m, root, 4) ensures exists x :: x in g && g[x] == f {
      var p := PathTo(m, root, 4, f);
      var x := PathNode(p);
      NodeHere(m, root, x);
      assert x in g && g[x] == f;
    }
    CountBijection(g, Frames(m, root, 4));
    assert g.Keys == Nodes(m, root);
    assert |g| == |g.Keys|;
  }

  /** Frames are taken from the allocator exactly as nodes are added to the tree. */
  lemma NodesTaken(m: Mem, m': Mem, root: nat, out: set<nat>, out': set<nat>)
    requires Owns(m, out, root) && Within(m, m', root, out, out')
    ensures |out'| - |out| == |Nodes(m', root)| - |Nodes(m, root)|
  {
    hide Tree, Frames, Nodes;
    FramesAreNodes(m, root);
    FramesAreNodes(m', root);
    SplitCount(out, Frames(m, root, 4));
    SplitCount(out', Frames(m', root, 4));
  }

  lemma SplitCount<T>(all: set<T>, part: set<T>)
    requires part <= all
    ensures |all| == |all - part| + |part|
  {
    assert all == (all - part) + part;
  }

  // ---- What the operations add

  lemma OverPage(pages: set<nat>, n: nat, d: nat)
    requires n in pages && 1 <= d <= 4
    ensures NodeOf(n, d) in NodesOver(pages)
  {}

  lemma PageNode(n: nat)
    ensures NodeOf(n, 4) == Node(4, n)
  {}

  lemma PageUnder(pages: set<nat>, x: Node) returns (n: nat)
    requires x in NodesOver(pages)
    ensures n in pages && 1 <= x.depth <= 4 && x == NodeOf(n, x.depth) && NodeOf(n, x.depth).index == n / Span(x.depth)
  {
    n :| n in pages && 1 <= x.depth <= 4 && x == NodeOf(n, x.depth);
  }

  lemma {:induction false} ResolveLeaf(m: Mem, f: nat, h: nat, p: seq<nat>)
    requires |p| == h && h > 0
    ensures Resolve(m, f, h, p).Some? == Leaf(m, f, h, p).Some?
    decreases h
  {
    if h > 1 {
      ResolveLeaf(m, Child(m, f, p[0]), h - 1, p[1..]);
    }
  }

  lemma PageHere(m: Mem, root: nat, n: nat)
    requires n < USER_PAGES
    ensures Node(4, n) in Nodes(m, root) <==> View(m, root, n).Some?
  {
    hide Nodes, Resolve, Leaf, NodePath, IsPage;
    NodeHere(m, root, Node(4, n));
    PathPrefix(n, 4);
    PageNode(n);
    assert PathOf(n * PAGE_SIZE)[..4] == PathOf(n * PAGE_SIZE);
    ResolveLeaf(m, root, 4, PathOf(n * PAGE_SIZE));
  }

  /** A node above page n is the one on the page's path. */
  lemma OnPath(x: Node, n: nat)
    requires x.depth <= 4 && x.index < Width(x.depth) && n < USER_PAGES
    ensures NodePath(x) <= PathOf(n * PAGE_SIZE) <==> x == NodeOf(n, x.depth)
  {
    PathPrefix(n, x.depth);
    NodePathIs(x);
    if NodePath(x) <= PathOf(n * PAGE_SIZE) {
      assert NodePath(x) == PathOf(n * PAGE_SIZE)[..x.depth];
      NodePathInjective(x, NodeOf(n, x.depth));
    }
  }

  /** The nodes after a walk made the tables on the first k indices of page n's path, and page n may have
    * been mapped. */
  lemma NodesAdded(m: Mem, m': Mem, root: nat, n: nat, k: nat, g: Grant, x: Node)
    requires n < USER_PAGES && k <= 3 && TablesAdded(m, m', root, PathOf(n * PAGE_SIZE), k, g)
    requires SameViewExcept(m, m', root, n)
    ensures x != Node(4, n) ==>
      (x in Nodes(m', root) <==> x in Nodes(m, root) || (1 <= x.depth <= k && x == NodeOf(n, x.depth)))
  {
    hide View, TablesAdded, Nodes, Resolve;
    NodeHere(m, root, x);
    NodeHere(m', root, x);
    if x.depth <= 4 && x.index < Width(x.depth) {
      NodePathIs(x);
      OnPath(x, n);
      if x.depth <= 3 {
        TablesAddedAt(m, m', root, PathOf(n * PAGE_SIZE), k, g, NodePath(x));
        if x.depth == 0 {
          RootThere(m, m', root);
        }
      } else {
        PageHere(m, root, x.index);
        PageHere(m', root, x.index);
        if x.index != n {
          var u := View(m', root, x.index);
        }
      }
    } else if 1 <= x.depth <= k {
      PathPrefix(n, x.depth);
    }
  }

  lemma RootThere(m: Mem, m': Mem, root: nat)
    ensures Resolve(m, root, 4, []).Some? && Resolve(m', root, 4, []).Some?
  {}

  lemma TablesAddedAt(m: Mem, m': Mem, root: nat, p: seq<nat>, k: nat, g: Grant, q: seq<nat>)
    requires TablesAdded(m, m', root, p, k, g) && |q| <= 3
    ensures Resolve(m', root, 4, q).Some? <==> Resolve(m, root, 4, q).Some? || (|q| <= k && q <= p)
  {
    hide EntryTo;
    if q != [] {
      EntryResolves(m, root, q);
      EntryResolves(m', root, q);
      var e := EntryTo(m', root, q);
    }
  }

  /** Page n was mapped. */
  lemma PageAdded(m: Mem, m': Mem, root: nat, n: nat, g: Grant)
    requires n < USER_PAGES && TablesAdded(m, m', root, PathOf(n * PAGE_SIZE), 3, g) && SameViewExcept(m, m', root, n)
    requires View(m', root, n).Some?
    ensures Nodes(m', root) == Nodes(m, root) + NodesOver({n})
  {
    hide View, TablesAdded, Nodes, Resolve, NodesOver, SameViewExcept;
    PageHere(m', root, n);
    forall x | x in Nodes(m', root) ensures x in Nodes(m, root) + NodesOver({n}) {
      NodesAdded(m, m', root, n, 3, g, x);
      OverPage({n}, n, if 1 <= x.depth <= 4 then x.depth else 4);
    }
    forall x | x in Nodes(m, root) + NodesOver({n}) ensures x in Nodes(m', root) {
      NodesAdded(m, m', root, n, 3, g, x);
      if x in NodesOver({n}) {
        var n' := PageUnder({n}, x);
      }
    }
  }

  lemma SamePathsAt(m: Mem, m': Mem, root: nat, q: seq<nat>)
    requires SamePaths(m, m', root) && |q| <= 3
    ensures Resolve(m', root, 4, q).Some? == Resolve(m, root, 4, q).Some?
  {
    hide EntryTo;
    if q != [] {
      EntryResolves(m, root, q);
      EntryResolves(m', root, q);
      var e := EntryTo(m', root, q);
    }
  }

  /** The same tables and the same pages mapped. */
  lemma NodesKept(m: Mem, m': Mem, root: nat)
    requires SamePaths(m, m', root)
    requires forall n: nat {:trigger View(m', root, n)} | n < USER_PAGES ::
      View(m', root, n).Some? == View(m, root, n).Some?
    ensures Nodes(m', root) == Nodes(m, root)
  {
    hide View, Resolve, Nodes, EntryTo;
    forall x ensures x in Nodes(m', root) <==> x in Nodes(m, root) {
      NodeHere(m, root, x);
      NodeHere(m', root, x);
      if x.depth <= 4 && x.index < Width(x.depth) {
        NodePathIs(x);
        if x.depth == 4 {
          PageHere(m, root, x.index);
          PageHere(m', root, x.index);
          var u := View(m', root, x.index);
        } else {
          SamePathsAt(m, m', root, NodePath(x));
        }
      }
    }
  }

  /** A walk for page n ran out of frames: at least two nodes that the page needs are still missing. */
  lemma WalkStopped(m: Mem, m': Mem, root: nat, n: nat, g: Grant)
    requires n < USER_PAGES && StoppedAt(m, m', root, PathOf(n * PAGE_SIZE), g) && SameView(m, m', root)
    ensures View(m, root, n) == None
    ensures |Missing(m, root, {n})| >= |Nodes(m', root)| - |Nodes(m, root)| + 2
  {
    hide View, TablesAdded, Nodes, Resolve, NodesOver, NodeOf, NodePath, PathOf, Span, Width;
    var p := PathOf(n * PAGE_SIZE);
    var k: nat :| k < 3 <= |p| && TablesAdded(m, m', root, p, k, g) && Resolve(m', root, 4, p[..k + 1]) == None;
    StoppedMissing(m, m', root, n, k, g);
    var gap, page := NodeOf(n, k + 1), Node(4, n);
    forall x | x in Nodes(m', root) - Nodes(m, root) ensures x in Missing(m, root, {n}) && x != gap && x != page {
      NodesAdded(m, m', root, n, k, g, x);
      OverPage({n}, n, x.depth);
    }
    PageNode(n);
    OverPage({n}, n, k + 1);
    OverPage({n}, n, 4);
    var created := Nodes(m', root) - Nodes(m, root);
    CreatedCount(Nodes(m, root), Nodes(m', root));
    SubsetSize(created + {gap, page}, Missing(m, root, {n}));
    TwoMore(created, gap, page);
  }

  lemma TwoMore<T>(s: set<T>, x: T, y: T)
    requires x !in s && y !in s && x != y
    ensures |s + {x, y}| == |s| + 2
  {
    assert s + {x, y} == s + {x} + {y};
  }

  /** Where a walk stopped the page is not mapped, before and after, and the next table is missing. */
  lemma StoppedMissing(m: Mem, m': Mem, root: nat, n: nat, k: nat, g: Grant)
    requires n < USER_PAGES && k < 3 && TablesAdded(m, m', root, PathOf(n * PAGE_SIZE), k, g) && SameView(m, m', root)
    requires Resolve(m', root, 4, PathOf(n * PAGE_SIZE)[..k + 1]) == None
    ensures View(m, root, n) == None && View(m', root, n) == None
    ensures NodeOf(n, k + 1) !in Nodes(m, root) && NodeOf(n, k + 1) !in Nodes(m', root)
    ensures NodeOf(n, k + 1) != Node(4, n)
    ensures Node(4, n) !in Nodes(m, root) && Node(4, n) !in Nodes(m', root)
    ensures SameViewExcept(m, m', root, n)
  {
    hide View, TablesAdded, Nodes, Resolve, NodesOver, Span, Width;
    var p := PathOf(n * PAGE_SIZE);
    MissingTable(m', root, 4, p[..k + 1], p);
    ResolveNoPage(m', root, n);
    var u := View(m', root, n);
    PathPrefix(n, k + 1);
    TablesAddedAt(m, m', root, p, k, g, p[..k + 1]);
    NodeHere(m, root, NodeOf(n, k + 1));
    NodeHere(m', root, NodeOf(n, k + 1));
    PageHere(m, root, n);
    PageHere(m', root, n);
  }

  lemma ResolveNoPage(m: Mem, root: nat, n: nat)
    requires n < USER_PAGES && Leaf(m, root, 4, PathOf(n * PAGE_SIZE)) == None
    ensures View(m, root, n) == None
  {}

  lemma CreatedCount<T>(a: set<T>, b: set<T>)
    ensures |b - a| >= |b| - |a|
  {
    SplitCount(b, b * a);
    assert b - a == b - b * a;
    SubsetSize(b * a, a);
  }

  lemma SubsetSize<T>(a: set<T>, b: set<T>)
    requires a <= b
    ensures |a| <= |b|
  {
    SplitCount(b, a);
  }

  // ---- Ranges of pages

  ghost function PageRange(lo: nat, hi: nat): (r: set<nat>)
    ensures forall n: nat {:trigger n in r} :: n in r <==> lo <= n < hi
  {
    if lo >= hi then {} else PageRange(lo, hi - 1) + {hi - 1}
  }

  lemma PageRangeStep(lo: nat, n: nat)
    requires lo <= n
    ensures PageRange(lo, n) + {n} == PageRange(lo, n + 1)
  {}

  lemma NodesOverUnion(a: set<nat>, b: set<nat>)
    ensures NodesOver(a + b) == NodesOver(a) + NodesOver(b)
  {
    hide NodesOver;
    forall x | x in NodesOver(a + b) ensures x in NodesOver(a) + NodesOver(b) {
      var n := PageUnder(a + b, x);
      if n in a {
        OverPage(a, n, x.depth);
      } else {
        OverPage(b, n, x.depth);
      }
    }
    forall x | x in NodesOver(a) + NodesOver(b) ensures x in NodesOver(a + b) {
      var n := PageUnder(if x in NodesOver(a) then a else b, x);
      OverPage(a + b, n, x.depth);
    }
  }

  /** Mapping first a and then b takes as many frames as mapping both. */
  lemma MissingSplit(m: Mem, m1: Mem, root: nat, a: set<nat>, b: set<nat>)
    requires Nodes(m1, root) == Nodes(m, root) + NodesOver(a)
    ensures |Missing(m, root, a)| == |Nodes(m1, root)| - |Nodes(m, root)|
    ensures |Missing(m, root, a + b)| == |Missing(m, root, a)| + |Missing(m1, root, b)|
    ensures Nodes(m1, root) + NodesOver(b) == Nodes(m, root) + NodesOver(a + b)
  {
    hide Nodes, NodesOver;
    NodesOverUnion(a, b);
    SplitCount(Nodes(m1, root), Nodes(m, root));
    assert Nodes(m1, root) - Nodes(m, root) == Missing(m, root, a);
    SplitCount(Missing(m, root, a + b), Missing(m, root, a));
    assert Missing(m, root, a + b) - Missing(m, root, a) == Missing(m1, root, b);
  }

  /** These pages were mapped: the tree has what they need, and took one frame for everything that it lacked. */
  ghost predicate Took(m: Mem, m': Mem, root: nat, out: set<nat>, out': set<nat>, pages: set<nat>) {
    && Nodes(m', root) == Nodes(m, root) + NodesOver(pages)
    && |out'| - |out| == |Nodes(m', root)| - |Nodes(m, root)|
  }

  lemma TookNothing(m: Mem, root: nat, out: set<nat>, lo: nat)
    ensures Took(m, m, root, out, out, PageRange(lo, lo)) && PageRange(lo, lo) == {}
  {
    hide Nodes;
    assert NodesOver({}) == {};
  }

  /** Mapping first a and then b succeeds exactly if there are frames for both. */
  lemma TookMore(m: Mem, m1: Mem, m2: Mem, root: nat, all: set<nat>, out: set<nat>, out1: set<nat>, out2: set<nat>,
                 a: set<nat>, b: set<nat>)
    requires Took(m, m1, root, out, out1, a) && out <= all && out1 <= all
    ensures |Missing(m, root, a)| <= |all - out|
    ensures |Missing(m, root, a + b)| <= |all - out| <==> |Missing(m1, root, b)| <= |all - out1|
    ensures Took(m1, m2, root, out1, out2, b) ==> Took(m, m2, root, out, out2, a + b)
  {
    hide Nodes, NodesOver, Missing;
    MissingSplit(m, m1, root, a, b);
    SplitCount(all, out);
    SplitCount(all, out1);
  }

  /** Nothing had to be mapped for these pages. */
  lemma TookKept(m: Mem, m': Mem, root: nat, out: set<nat>, pages: set<nat>)
    requires Nodes(m', root) == Nodes(m, root) && Missing(m, root, pages) == {}
    ensures Took(m, m', root, out, out, pages)
  {
    hide Nodes, NodesOver;
    forall x | x in NodesOver(pages) ensures x in Nodes(m, root) {
      assert x !in Missing(m, root, pages);
    }
  }

  /** What was mapped stays counted while the tree keeps its nodes. */
  lemma TookSame(m: Mem, m1: Mem, m2: Mem, root: nat, out: set<nat>, out': set<nat>, pages: set<nat>)
    requires Took(m, m1, root, out, out', pages) && Nodes(m2, root) == Nodes(m1, root)
    ensures Took(m, m2, root, out, out', pages)
  {
    hide Nodes, NodesOver;
  }

  /** A mapped page needs nothing more. */
  lemma NothingMissing(m: Mem, root: nat, pages: set<nat>)
    requires forall n | n in pages :: n < USER_PAGES && View(m, root, n).Some?
    ensures Missing(m, root, pages) == {}
  {
    hide View, Resolve, Nodes, NodesOver, Span, NodeOf, NodePath;
    forall x | x in NodesOver(pages) ensures x in Nodes(m, root) {
      var n := PageUnder(pages, x);
      PageHere(m, root, n);
      NodeHere(m, root, Node(4, n));
      PathPrefix(n, 4);
      PageNode(n);
      PathPrefix(n, x.depth);
      NodeHere(m, root, x);
      var p := PathOf(n * PAGE_SIZE);
      assert p[..4] == p;
      if x.depth < 4 {
        PrefixResolves(m, root, 4, p[..x.depth], p);
      }
    }
  }

  lemma {:induction false} PrefixResolves(m: Mem, f: nat, h: nat, q: seq<nat>, p: seq<nat>)
    requires q <= p && Resolve(m, f, h, p).Some?
    ensures Resolve(m, f, h, q).Some?
    decreases |q|
  {
    if q != [] {
      PrefixResolves(m, Child(m, f, q[0]), h - 1, q[1..], p[1..]);
    }
  }

  /** An unmapped page needs at least its own frame. */
  lemma PageMissing(m: Mem, root: nat, pages: set<nat>, n: nat)
    requires n in pages && n < USER_PAGES && View(m, root, n) == None
    ensures |Missing(m, root, pages)| >= 1
  {
    hide View, Nodes, NodesOver, NodeOf;
    PageHere(m, root, n);
    PageNode(n);
    OverPage(pages, n, 4);
    SubsetSize({Node(4, n)}, Missing(m, root, pages));
  }

  lemma MissingGrows(m: Mem, root: nat, a: set<nat>, b: set<nat>)
    requires a <= b
    ensures |Missing(m, root, a)| <= |Missing(m, root, b)|
  {
    hide Nodes;
    NodesOverUnion(a, b);
    assert a + b == b;
    SubsetSize(Missing(m, root, a), Missing(m, root, b));
  }

  /** In a tree that is a bare PML4 no page is mapped, and every node but the root is missing. */
  lemma BareTree(m: Mem, root: nat)
    requires forall i: nat | i < USER_ENTRIES :: EntryAt(m, root, i) == UNUSED
    ensures forall n: nat | n < USER_PAGES :: View(m, root, n) == None
    ensures forall pages :: Missing(m, root, pages) == NodesOver(pages)
  {
    hide NodesOver, NodePath;
    forall n: nat | n < USER_PAGES ensures View(m, root, n) == None {
      PageIndices(n);
      assert !Present(m, root, 4, PathOf(n * PAGE_SIZE)[0]);
    }
    forall pages, x | x in NodesOver(pages) ensures x !in Nodes(m, root) {
      var n := PageUnder(pages, x);
      NodeHere(m, root, x);
      NodePathIs(x);
      assert !Present(m, root, 4, NodePath(x)[0]);
    }
  }

  /** A single page needs at most four frames: three tables and its own. */
  lemma OnePage(m: Mem, root: nat, n: nat)
    ensures |Missing(m, root, {n})| <= 4
  {
    hide Nodes, NodeOf;
    var four := {NodeOf(n, 1), NodeOf(n, 2), NodeOf(n, 3), NodeOf(n, 4)};
    assert NodesOver({n}) == four;
    assert four == {NodeOf(n, 1)} + {NodeOf(n, 2)} + {NodeOf(n, 3)} + {NodeOf(n, 4)};
    SubsetSize(Missing(m, root, {n}), four);
  }
}

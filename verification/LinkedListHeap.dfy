/** The linked-list heap: free regions linked through nodes that lie in the free memory itself. */
module LinkedListHeap {
  import opened Basics
  import opened Layouts

  const NODE_SIZE: nat := 16
  const NODE_ALIGN: nat := 8

  datatype Region = Region(addr: nat, size: nat) {
    function End(): nat { addr + size }

    predicate Has(a: nat) { addr <= a < addr + size }
  }

  datatype ListNode = ListNode(size: nat, next: Option<nat>)

  /** A request is padded so that a list node fits in the block when it is freed; an overflow panics. */
  predicate Adjustable(layout: Layout) {
    IsPow2(layout.align) && AlignUp(layout.size, Max(layout.align, NODE_ALIGN)) <= ISIZE_MAX
  }

  function Max(a: nat, b: nat): nat {
    if a < b then b else a
  }

  function SizeAlign(layout: Layout): (r: (nat, nat))
    requires Adjustable(layout)
    ensures r.0 >= layout.size && r.0 >= NODE_SIZE && r.0 % NODE_ALIGN == 0
    ensures r.1 > 0 && r.1 % NODE_ALIGN == 0 && r.1 % layout.align == 0
  {
    var align := Max(layout.align, NODE_ALIGN);
    Pow2Divides(layout.align, align);
    Pow2Divides(NODE_ALIGN, align);
    MultipleTransitive(AlignUp(layout.size, align), align, NODE_ALIGN);
    (Max(AlignUp(layout.size, align), NODE_SIZE), align)
  }

  /** No more than that is asked for: the alignment is the layout's own or that of a node, and a size above a node's
    * is the least multiple of the alignment that holds the layout. */
  lemma SizeAlignLeast(layout: Layout)
    requires Adjustable(layout)
    ensures var (size, align) := SizeAlign(layout);
      && (if layout.align < 8 then align == 8 else align == layout.align)
      && (size > 16 ==> size % align == 0 && size < layout.size + align)
  {}

  /** Where a request would start in a region, if it fits: what is left over must be nothing or hold a node. */
  function AllocFromRegion(region: Region, size: nat, align: nat): (r: Option<nat>)
    requires align > 0
    ensures r.Some? ==>
      && r.value % align == 0 && region.addr <= r.value && r.value + size <= region.End()
      && (r.value + size == region.End() || r.value + size + NODE_SIZE <= region.End())
  {
    var start := AlignUp(region.addr, align);
    var end := start + size;
    if end >= WORD || end > region.End() then None
    else if 0 < region.End() - end < NODE_SIZE then None
    else Some(start)
  }

  /** A block at start would fit: aligned, inside the region, and the rest is nothing or holds a node. */
  predicate Acceptable(region: Region, size: nat, align: nat, start: nat)
    requires align > 0
  {
    && start % align == 0 && region.addr <= start && start + size <= region.End()
    && (start + size == region.End() || start + size + NODE_SIZE <= region.End())
  }

  /** The accepted start is the lowest aligned one. */
  lemma LowestStart(region: Region, size: nat, align: nat, start: nat)
    requires align > 0 && start % align == 0 && region.addr <= start
    requires AllocFromRegion(region, size, align).Some?
    ensures AllocFromRegion(region, size, align).value <= start
  {
    AlignUpLeast(region.addr, align, start);
  }

  /** Only the lowest aligned start is tried.  So a region that has room for a block is refused in exactly one
    * case: the least alignment, with eight bytes too many. */
  lemma RefusedWithRoom(region: Region, size: nat, align: nat)
    requires align > 0 && align % NODE_ALIGN == 0 && region.End() < WORD
    ensures (AllocFromRegion(region, size, align).None? &&
         exists start: nat :: Acceptable(region, size, align, start)) <==>
      align == NODE_ALIGN && AlignUp(region.addr, align) + size + 8 == region.End()
  {
    var lowest := AlignUp(region.addr, align);
    if AllocFromRegion(region, size, align).None? && exists start: nat :: Acceptable(region, size, align, start) {
      var start: nat :| Acceptable(region, size, align, start);
      AlignUpLeast(region.addr, align, start);
      NextMultiple(lowest, align, start);
    }
    if align == NODE_ALIGN && lowest + size + 8 == region.End() {
      assert (lowest + 8) % 8 == 0;
      assert Acceptable(region, size, align, lowest + 8);
    }
  }

  lemma NextMultiple(a: nat, align: nat, b: nat)
    requires align > 0 && a % align == 0 && b % align == 0 && a <= b
    ensures a == b || a + align <= b
  {
    var k, j := a / align, b / align;
    assert a == k * align && b == j * align;
    assert (j - k) * align == b - a by { assert (j - k) * align == j * align - k * align; }
    if b - a < align {
      SmallMultiple(j - k, align);
    }
  }

  /** To whom a byte of the heap belongs. */
  datatype Owner = Free(region: nat) | Live(block: nat) | Lost

  /** These are exactly the bytes that belong to o. */
  ghost predicate Owns(owner: map<nat, Owner>, o: Owner, r: Region) {
    forall a: nat {:trigger r.Has(a)} {:trigger owner[a]} {:trigger a in owner} ::
      r.Has(a) <==> a in owner && owner[a] == o
  }

  ghost predicate FreeOk(free: map<nat, nat>, owner: map<nat, Owner>) {
    && (forall p | p in free :: p % NODE_ALIGN == 0 && free[p] >= NODE_SIZE && Owns(owner, Free(p), Region(p, free[p])))
    && (forall a | a in owner && owner[a].Free? :: owner[a].region in free)
  }

  ghost predicate LiveOk(live: map<nat, nat>, owner: map<nat, Owner>) {
    && (forall p | p in live :: p % NODE_ALIGN == 0 && live[p] >= NODE_SIZE && Owns(owner, Live(p), Region(p, live[p])))
    && (forall a | a in owner && owner[a].Live? :: owner[a].block in live)
  }

  /** The list holds each free region once. */
  ghost predicate Listed(regions: seq<Region>, free: map<nat, nat>) {
    && (forall i, j | 0 <= i < j < |regions| :: regions[i].addr != regions[j].addr)
    && (forall i | 0 <= i < |regions| :: regions[i].addr in free && free[regions[i].addr] == regions[i].size)
    && (forall p | p in free :: Region(p, free[p]) in regions)
  }

  /** The heap's bytes after a request took [start, start + size) of a region. */
  ghost function Carved(owner: map<nat, Owner>, region: Region, start: nat, size: nat): map<nat, Owner> {
    map a | a in owner ::
      if !region.Has(a) then owner[a]
      else if a < start then Lost
      else if a < start + size then Live(start)
      else Free(start + size)
  }

  ghost function Returned(owner: map<nat, Owner>, block: nat): map<nat, Owner> {
    map a | a in owner :: if owner[a] == Live(block) then Free(block) else owner[a]
  }

  function Link(regions: seq<Region>, i: nat): Option<nat> {
    if i < |regions| then Some(regions[i].addr) else None
  }

  /** The node of region i is in memory and points to the next one. */
  ghost predicate NodeOk(nodes: map<nat, ListNode>, regions: seq<Region>, i: nat)
    requires i < |regions|
  {
    regions[i].addr in nodes && nodes[regions[i].addr] == ListNode(regions[i].size, Link(regions, i + 1))
  }

  /** The nodes in memory spell out this list of regions. */
  ghost predicate Linked(head: Option<nat>, nodes: map<nat, ListNode>, regions: seq<Region>) {
    head == Link(regions, 0) && forall i: nat | i < |regions| :: NodeOk(nodes, regions, i)
  }

  class LinkedListAllocator {
    var head: Option<nat>
    var nodes: map<nat, ListNode>
    /** The list that the nodes spell out, the free and the live blocks with their sizes, every byte's owner. */
    ghost var regions: seq<Region>
    ghost var free: map<nat, nat>
    ghost var live: map<nat, nat>
    ghost var owner: map<nat, Owner>

    ghost predicate ListOk()
      reads this
    {
      Linked(head, nodes, regions) && Listed(regions, free)
    }

    ghost predicate Valid()
      reads this
    {
      ListOk() && FreeOk(free, owner) && LiveOk(live, owner)
    }

    constructor ()
      ensures Valid() && regions == [] && live == map[] && owner == map[]
    {
      head, nodes, regions, free, live, owner := None, map[], [], map[], map[], map[];
    }

    /** The caller promises an unused heap, whose bounds the node's own checks accept. */
    method Init(heapStart: nat, heapSize: nat)
      requires Valid() && owner == map[] && heapStart % NODE_ALIGN == 0 && heapSize >= NODE_SIZE
      modifies this
      ensures Valid() && regions == [Region(heapStart, heapSize)] && live == map[]
      ensures forall a: nat {:trigger a in owner} :: a in owner <==> Region(heapStart, heapSize).Has(a)
    {
      NothingFree(free, live, owner);
      assert free == map[];
      AddFreeRegion(heapStart, heapSize);
      owner := AllFree(heapStart, heapSize);
    }

    /** Puts a region at the front of the list; alignment and size are what the source asserts. */
    method AddFreeRegion(addr: nat, size: nat)
      requires ListOk() && addr % NODE_ALIGN == 0 && size >= NODE_SIZE && addr !in free
      modifies this`head, this`nodes, this`regions, this`free
      ensures ListOk() && regions == [Region(addr, size)] + old(regions) && free == old(free)[addr := size]
    {
      hide Linked, Listed;
      var node := ListNode(size, head);
      PushListed(regions, free, addr, size);
      PushLinked(head, nodes, regions, addr, size);
      nodes := nodes[addr := node];
      head := Some(addr);
      regions := [Region(addr, size)] + regions;
      free := free[addr := size];
    }

    /** Takes the first region that fits out of the list; None if no region fits. */
    method FindRegion(size: nat, align: nat) returns (r: Option<(Region, nat)>, ghost i: nat)
      requires ListOk() && align > 0
      modifies this`head, this`nodes, this`regions, this`free
      ensures ListOk()
      ensures r.None? ==> regions == old(regions) && free == old(free) && NoneFits(regions, |regions|, size, align)
      ensures r.Some? ==>
        && FirstFit(old(regions), i, size, align, r.value.1) && r.value.0 == old(regions)[i]
        && regions == old(regions)[..i] + old(regions)[i + 1..] && free == old(free) - {r.value.0.addr}
        && r.value.0.addr in old(free) && old(free)[r.value.0.addr] == r.value.0.size
    {
      hide Listed, Linked, AlignUp;
      var previous: Option<nat> := None;
      var current := head;
      i := 0;
      HeadOk(head, nodes, regions);
      while current.Some?
        invariant unchanged(this) && ListOk()
        invariant i <= |regions| && current == Link(regions, i)
        invariant if i == 0 then previous == None else previous == Some(regions[i - 1].addr)
        invariant NoneFits(regions, i, size, align)
        decreases |regions| - i
      {
        NodeAt(head, nodes, regions, i);
        var region := Region(current.value, nodes[current.value].size);
        var start := AllocFromRegion(region, size, align);
        if start.Some? {
          var next := nodes[current.value].next;
          NodeAt(head, nodes, regions, if i > 0 then i - 1 else i);
          RemoveLinked(head, nodes, regions, free, i);
          if previous.None? {
            head := next;
          } else {
            nodes := nodes[previous.value := nodes[previous.value].(next := next)];
          }
          RemoveListed(regions, free, i);
          regions := regions[..i] + regions[i + 1..];
          free := free - {region.addr};
          return Some((region, start.value)), i;
        }
        previous := current;
        current := nodes[current.value].next;
        i := i + 1;
      }
      r := None;
    }

    /** The first region that fits is cut: padding in front of the block is lost, the rest is free again.
      * Null is returned only if no region fits. */
    method Alloc(layout: Layout) returns (ptr: Option<nat>, ghost i: nat)
      requires Valid() && Adjustable(layout)
      modifies this
      ensures Valid() && owner.Keys == old(owner.Keys)
      ensures var (size, align) := SizeAlign(layout);
        if ptr.None? then
          && regions == old(regions) && live == old(live) && owner == old(owner)
          && NoneFits(regions, |regions|, size, align)
        else
          && FirstFit(old(regions), i, size, align, ptr.value)
          && regions == CarvedRegions(old(regions), i, ptr.value, size)
          && owner == Carved(old(owner), old(regions)[i], ptr.value, size)
          && ptr.value !in old(live) && live == old(live)[ptr.value := size] && ptr.value % layout.align == 0
    {
      hide Linked, Listed, FreeOk, LiveOk, AlignUp;
      var (size, align) := SizeAlign(layout);
      ghost var before, frees := regions, free;
      var found;
      found, i := FindRegion(size, align);
      if found.None? {
        return None, i;
      }
      var (region, start) := found.value;
      var end := start + size;
      var excess := region.End() - end;
      MultipleTransitive(start, align, NODE_ALIGN);
      assert IsPow2(layout.align) && layout.align > 0;
      MultipleTransitive(start, align, layout.align);
      CarveFacts(frees, live, owner, region, start, size);
      if excess > 0 {
        AddFreeRegion(end, excess);
      }
      owner := Carved(owner, region, start, size);
      live := live[start := size];
      ptr := Some(start);
    }

    /** The block goes back to the list whole; ptr and layout must be those of an allocation. */
    method Dealloc(ptr: nat, layout: Layout)
      requires Valid() && Adjustable(layout) && ptr in live && live[ptr] == SizeAlign(layout).0
      modifies this
      ensures Valid() && owner == Returned(old(owner), ptr)
      ensures live == old(live) - {ptr} && regions == [Region(ptr, SizeAlign(layout).0)] + old(regions)
    {
      hide Linked, Listed;
      var size := SizeAlign(layout).0;
      ReturnFacts(free, live, owner, ptr);
      AddFreeRegion(ptr, size);
      owner := Returned(owner, ptr);
      live := live - {ptr};
    }
  }

  ghost predicate NoneFits(regions: seq<Region>, n: nat, size: nat, align: nat)
    requires align > 0
  {
    forall j | 0 <= j < n && j < |regions| :: AllocFromRegion(regions[j], size, align).None?
  }

  ghost predicate FirstFit(regions: seq<Region>, i: nat, size: nat, align: nat, start: nat)
    requires align > 0
  {
    i < |regions| && AllocFromRegion(regions[i], size, align) == Some(start) && NoneFits(regions, i, size, align)
  }

  /** What null means: no region has room for the block, apart from regions with eight bytes too many. */
  lemma NoneFitsMeans(regions: seq<Region>, size: nat, align: nat)
    requires align > 0 && align % NODE_ALIGN == 0 && forall r | r in regions :: r.End() < WORD
    ensures NoneFits(regions, |regions|, size, align) <==>
      forall r | r in regions ::
        (forall start: nat :: !Acceptable(r, size, align, start)) ||
        (align == NODE_ALIGN && AlignUp(r.addr, align) + size + 8 == r.End())
  {
    forall r | r in regions
      ensures AllocFromRegion(r, size, align).None? <==>
        (forall start: nat :: !Acceptable(r, size, align, start)) ||
        (align == NODE_ALIGN && AlignUp(r.addr, align) + size + 8 == r.End())
    {
      RefusedWithRoom(r, size, align);
      if AllocFromRegion(r, size, align).Some? {
        assert Acceptable(r, size, align, AllocFromRegion(r, size, align).value);
      }
    }
    forall r | r in regions ensures exists j :: 0 <= j < |regions| && regions[j] == r {}
  }

  /** The list after region i was cut: what is left behind the block moves to the front. */
  ghost function CarvedRegions(regions: seq<Region>, i: nat, start: nat, size: nat): seq<Region>
    requires i < |regions|
  {
    var rest := regions[..i] + regions[i + 1..];
    if regions[i].End() > start + size then [Region(start + size, regions[i].End() - (start + size))] + rest else rest
  }

  ghost function AllFree(start: nat, size: nat): map<nat, Owner> {
    map a: nat {:trigger Region(start, size).Has(a)} | start <= a < start + size :: Free(start)
  }

  lemma NothingFree(free: map<nat, nat>, live: map<nat, nat>, owner: map<nat, Owner>)
    requires FreeOk(free, owner) && LiveOk(live, owner) && owner == map[]
    ensures free == map[] && live == map[]
  {
    forall p: nat | p in free ensures false {
      var held := Region(p, free[p]).Has(p);
    }
    forall p: nat | p in live ensures false {
      var held := Region(p, live[p]).Has(p);
    }
  }

  lemma HeadOk(head: Option<nat>, nodes: map<nat, ListNode>, regions: seq<Region>)
    requires Linked(head, nodes, regions)
    ensures head == Link(regions, 0)
  {}

  lemma NodeAt(head: Option<nat>, nodes: map<nat, ListNode>, regions: seq<Region>, i: nat)
    requires Linked(head, nodes, regions) && i < |regions|
    ensures NodeOk(nodes, regions, i)
  {}

  lemma PushLinked(head: Option<nat>, nodes: map<nat, ListNode>, regions: seq<Region>, addr: nat, size: nat)
    requires Linked(head, nodes, regions) && (forall i | 0 <= i < |regions| :: regions[i].addr != addr)
    ensures Linked(Some(addr), nodes[addr := ListNode(size, head)], [Region(addr, size)] + regions)
  {
    var after, list := nodes[addr := ListNode(size, head)], [Region(addr, size)] + regions;
    forall i: nat | i < |list| ensures NodeOk(after, list, i) {
      if i > 0 {
        assert NodeOk(nodes, regions, i - 1);
      }
    }
  }

  lemma PushListed(regions: seq<Region>, free: map<nat, nat>, addr: nat, size: nat)
    requires Listed(regions, free) && addr !in free
    ensures Listed([Region(addr, size)] + regions, free[addr := size])
    ensures forall i | 0 <= i < |regions| :: regions[i].addr != addr
  {
    var after := [Region(addr, size)] + regions;
    assert after[0] == Region(addr, size);
    forall p | p in free ensures Region(p, free[p]) in after {
      assert Region(p, free[p]) in regions;
    }
  }

  lemma RemoveLinked(head: Option<nat>, nodes: map<nat, ListNode>, regions: seq<Region>, free: map<nat, nat>, i: nat)
    requires Linked(head, nodes, regions) && Listed(regions, free) && i < |regions|
    requires NodeOk(nodes, regions, i) && NodeOk(nodes, regions, if i > 0 then i - 1 else i)
    ensures var rest := regions[..i] + regions[i + 1..];
      if i == 0 then Linked(nodes[regions[0].addr].next, nodes, rest)
      else Linked(head,
        nodes[regions[i - 1].addr := nodes[regions[i - 1].addr].(next := nodes[regions[i].addr].next)],
        rest)
  {
    var rest := regions[..i] + regions[i + 1..];
    var after := if i == 0 then nodes
      else nodes[regions[i - 1].addr := nodes[regions[i - 1].addr].(next := nodes[regions[i].addr].next)];
    forall j: nat | j < |rest| ensures NodeOk(after, rest, j) {
      RemovedNode(nodes, regions, free, i, j);
    }
  }

  lemma RemovedNode(nodes: map<nat, ListNode>, regions: seq<Region>, free: map<nat, nat>, i: nat, j: nat)
    requires Listed(regions, free) && i < |regions| && j + 1 < |regions|
    requires NodeOk(nodes, regions, i) && NodeOk(nodes, regions, if i > 0 then i - 1 else i)
    requires NodeOk(nodes, regions, if j < i then j else j + 1)
    ensures var rest := regions[..i] + regions[i + 1..];
      var after := if i == 0 then nodes
      else nodes[regions[i - 1].addr := nodes[regions[i - 1].addr].(next := nodes[regions[i].addr].next)];
      NodeOk(after, rest, j)
  {
    var k := if j < i then j else j + 1;
    assert i > 0 && k != i - 1 ==> regions[k].addr != regions[i - 1].addr;
  }

  lemma RemoveListed(regions: seq<Region>, free: map<nat, nat>, i: nat)
    requires Listed(regions, free) && i < |regions|
    ensures Listed(regions[..i] + regions[i + 1..], free - {regions[i].addr})
    ensures regions[i].addr in free && free[regions[i].addr] == regions[i].size
  {
    var rest := regions[..i] + regions[i + 1..];
    assert forall j | 0 <= j < |rest| :: rest[j] == regions[if j < i then j else j + 1];
    forall p | p in free && p != regions[i].addr ensures Region(p, free[p]) in rest {
      var j :| 0 <= j < |regions| && regions[j] == Region(p, free[p]);
      assert rest[if j < i then j else j - 1] == regions[j];
    }
  }

  /** Every other block keeps its bytes when a region is cut. */
  lemma CarvedOther(owner: map<nat, Owner>, region: Region, start: nat, size: nat, o: Owner, r: Region)
    requires Owns(owner, Free(region.addr), region) && Owns(owner, o, r)
    requires o !in {Free(region.addr), Live(start), Lost} && (o == Free(start + size) ==> start + size >= region.End())
    ensures Owns(Carved(owner, region, start, size), o, r)
  {}

  lemma CarvedOwners(owner: map<nat, Owner>, region: Region, start: nat, size: nat)
    requires Owns(owner, Free(region.addr), region)
    ensures forall a | a in owner && !region.Has(a) :: owner[a] != Free(region.addr)
    ensures Carved(owner, region, start, size).Keys == owner.Keys
  {}

  lemma CarvedParts(owner: map<nat, Owner>, region: Region, start: nat, size: nat)
    requires Owns(owner, Free(region.addr), region) && region.addr <= start && start + size <= region.End() && size > 0
    requires forall a | a in owner ::
      owner[a] != Live(start) && (owner[a] == Free(start + size) ==> start + size == region.End())
    ensures Owns(Carved(owner, region, start, size), Live(start), Region(start, size))
    ensures start + size < region.End() ==>
      Owns(Carved(owner, region, start, size), Free(start + size), Region(start + size, region.End() - (start + size)))
  {}

  /** A byte has one owner, so blocks do not overlap. */
  lemma OneOwner(owner: map<nat, Owner>, o1: Owner, r1: Region, o2: Owner, r2: Region, a: nat)
    requires Owns(owner, o1, r1) && Owns(owner, o2, r2) && o1 != o2 && r1.Has(a)
    ensures !r2.Has(a)
  {}

  lemma CarveFacts(free: map<nat, nat>, live: map<nat, nat>, owner: map<nat, Owner>, region: Region, start: nat,
                   size: nat)
    requires FreeOk(free, owner) && LiveOk(live, owner) && size >= NODE_SIZE && region.addr in free
    requires free[region.addr] == region.size
    requires region.addr <= start && start % NODE_ALIGN == 0 && size % NODE_ALIGN == 0
    requires start + size == region.End() || start + size + NODE_SIZE <= region.End()
    ensures start !in live
    ensures var (rest, end, after) := (free - {region.addr}, start + size, Carved(owner, region, start, size));
      if region.End() > end then end !in rest && FreeOk(rest[end := region.End() - end], after)
      else FreeOk(rest, after)
    ensures LiveOk(live[start := size], Carved(owner, region, start, size))
  {
    hide Owns;
    var end := start + size;
    assert region == Region(region.addr, free[region.addr]);
    if start in live {
      OneOwner(owner, Free(region.addr), region, Live(start), Region(start, live[start]), start);
    }
    if end in free && region.End() > end {
      OneOwner(owner, Free(region.addr), region, Free(end), Region(end, free[end]), end);
    }
    CarvedParts(owner, region, start, size);
    CarveFree(free, owner, region, start, size);
    CarveLive(live, owner, region, start, size);
  }

  lemma CarveFree(free: map<nat, nat>, owner: map<nat, Owner>, region: Region, start: nat, size: nat)
    requires FreeOk(free, owner) && region.addr in free && free[region.addr] == region.size
    requires region.addr <= start && start % NODE_ALIGN == 0 && size % NODE_ALIGN == 0 && size > 0
    requires start + size == region.End() || start + size + NODE_SIZE <= region.End()
    requires start + size in free ==> start + size == region.End()
    requires start + size < region.End() ==>
      Owns(Carved(owner, region, start, size), Free(start + size), Region(start + size, region.End() - (start + size)))
    ensures var (rest, end, after) := (free - {region.addr}, start + size, Carved(owner, region, start, size));
      FreeOk(if region.End() > end then rest[end := region.End() - end] else rest, after)
  {
    hide Owns;
    assert region == Region(region.addr, free[region.addr]);
    CarvedOwners(owner, region, start, size);
    forall p | p in free && p != region.addr
      ensures Owns(Carved(owner, region, start, size), Free(p), Region(p, free[p])) {
      CarvedOther(owner, region, start, size, Free(p), Region(p, free[p]));
    }
  }

  lemma CarveLive(live: map<nat, nat>, owner: map<nat, Owner>, region: Region, start: nat, size: nat)
    requires LiveOk(live, owner) && Owns(owner, Free(region.addr), region) && start !in live && start % NODE_ALIGN == 0
    requires size >= NODE_SIZE
    requires Owns(Carved(owner, region, start, size), Live(start), Region(start, size))
    ensures LiveOk(live[start := size], Carved(owner, region, start, size))
  {
    hide Owns;
    forall p | p in live ensures Owns(Carved(owner, region, start, size), Live(p), Region(p, live[p])) {
      CarvedOther(owner, region, start, size, Live(p), Region(p, live[p]));
    }
  }

  lemma ReturnedOther(owner: map<nat, Owner>, block: nat, o: Owner, r: Region)
    requires Owns(owner, o, r) && o != Live(block) && o != Free(block)
    ensures Owns(Returned(owner, block), o, r)
  {}

  lemma ReturnFacts(free: map<nat, nat>, live: map<nat, nat>, owner: map<nat, Owner>, ptr: nat)
    requires FreeOk(free, owner) && LiveOk(live, owner) && ptr in live
    ensures ptr !in free
    ensures FreeOk(free[ptr := live[ptr]], Returned(owner, ptr)) && LiveOk(live - {ptr}, Returned(owner, ptr))
  {
    hide Owns;
    var block := Region(ptr, live[ptr]);
    if ptr in free {
      OneOwner(owner, Live(ptr), block, Free(ptr), Region(ptr, free[ptr]), ptr);
    }
    var after := Returned(owner, ptr);
    forall p | p in free ensures Owns(after, Free(p), Region(p, free[p])) {
      ReturnedOther(owner, ptr, Free(p), Region(p, free[p]));
    }
    forall p | p in live && p != ptr ensures Owns(after, Live(p), Region(p, live[p])) {
      ReturnedOther(owner, ptr, Live(p), Region(p, live[p]));
    }
    ReturnedBlock(owner, ptr, block, free);
  }

  lemma ReturnedBlock(owner: map<nat, Owner>, ptr: nat, block: Region, free: map<nat, nat>)
    requires Owns(owner, Live(ptr), block) && ptr !in free
    requires forall a | a in owner && owner[a].Free? :: owner[a].region in free
    ensures Owns(Returned(owner, ptr), Free(ptr), block)
  {}

  // ---- What the invariant means

  ghost predicate Apart(r1: Region, r2: Region) {
    r1.End() <= r2.addr || r2.End() <= r1.addr
  }

  ghost predicate AllApart(blocks: map<nat, nat>) {
    forall p, q | p in blocks && q in blocks && p != q :: Apart(Region(p, blocks[p]), Region(q, blocks[q]))
  }

  lemma OwnersApart(owner: map<nat, Owner>, o1: Owner, r1: Region, o2: Owner, r2: Region)
    requires Owns(owner, o1, r1) && Owns(owner, o2, r2) && o1 != o2 && r1.size > 0 && r2.size > 0
    ensures Apart(r1, r2)
  {
    if !Apart(r1, r2) {
      OneOwner(owner, o1, r1, o2, r2, Max(r1.addr, r2.addr));
    }
  }

  /** Free regions and live blocks never overlap, and all of them lie in the heap. */
  lemma HeapApart(free: map<nat, nat>, live: map<nat, nat>, owner: map<nat, Owner>)
    requires FreeOk(free, owner) && LiveOk(live, owner)
    ensures AllApart(free) && AllApart(live)
    ensures forall p, q | p in free && q in live :: Apart(Region(p, free[p]), Region(q, live[q]))
    ensures forall p, a: nat | p in live && Region(p, live[p]).Has(a) :: a in owner
    ensures forall p, a: nat | p in free && Region(p, free[p]).Has(a) :: a in owner
  {
    forall p, q | p in free && q in free && p != q ensures Apart(Region(p, free[p]), Region(q, free[q])) {
      OwnersApart(owner, Free(p), Region(p, free[p]), Free(q), Region(q, free[q]));
    }
    forall p, q | p in live && q in live && p != q ensures Apart(Region(p, live[p]), Region(q, live[q])) {
      OwnersApart(owner, Live(p), Region(p, live[p]), Live(q), Region(q, live[q]));
    }
    forall p, q | p in free && q in live ensures Apart(Region(p, free[p]), Region(q, live[q])) {
      OwnersApart(owner, Free(p), Region(p, free[p]), Live(q), Region(q, live[q]));
    }
  }

  /** The sizes of these blocks, added up. */
  ghost function Total(blocks: map<nat, nat>): nat {
    if blocks == map[] then 0
    else
      var p :| p in blocks;
      blocks[p] + Total(blocks - {p})
  }

  ghost function Interval(p: nat, size: nat): (r: set<nat>)
    ensures forall a: nat {:trigger a in r} :: a in r <==> p <= a < p + size
    ensures |r| == size
  {
    if size == 0 then {} else Interval(p, size - 1) + {p + size - 1}
  }

  ghost function Bytes(blocks: map<nat, nat>): set<nat> {
    set p, a | p in blocks && a in Interval(p, blocks[p]) :: a
  }

  lemma BlockOfByte(blocks: map<nat, nat>, a: nat) returns (p: nat)
    requires a in Bytes(blocks)
    ensures p in blocks && p <= a < p + blocks[p]
  {
    p :| p in blocks && a in Interval(p, blocks[p]);
  }

  lemma ByteOfBlock(blocks: map<nat, nat>, p: nat, a: nat)
    requires p in blocks && p <= a < p + blocks[p]
    ensures a in Bytes(blocks)
  {
    assert a in Interval(p, blocks[p]);
  }

  lemma ByteElsewhere(blocks: map<nat, nat>, p: nat, a: nat)
    requires AllApart(blocks) && p in blocks && a in Bytes(blocks - {p})
    ensures a in Bytes(blocks) && !(p <= a < p + blocks[p])
  {
    hide Bytes;
    var q := BlockOfByte(blocks - {p}, a);
    ByteOfBlock(blocks, q, a);
    assert Apart(Region(p, blocks[p]), Region(q, blocks[q]));
  }

  lemma BytesSplit(blocks: map<nat, nat>, p: nat)
    requires AllApart(blocks) && p in blocks
    ensures Bytes(blocks) == Bytes(blocks - {p}) + Interval(p, blocks[p])
    ensures Bytes(blocks - {p}) !! Interval(p, blocks[p])
  {
    hide Bytes, AllApart;
    var rest := blocks - {p};
    forall a | a in Bytes(blocks) && a !in Interval(p, blocks[p]) ensures a in Bytes(rest) {
      var q := BlockOfByte(blocks, a);
      ByteOfBlock(rest, q, a);
    }
    forall a | a in Interval(p, blocks[p]) ensures a in Bytes(blocks) {
      ByteOfBlock(blocks, p, a);
    }
    forall a | a in Bytes(rest) ensures a in Bytes(blocks) && a !in Interval(p, blocks[p]) {
      ByteElsewhere(blocks, p, a);
    }
  }

  lemma {:induction false} TotalCounts(blocks: map<nat, nat>)
    requires AllApart(blocks)
    ensures |Bytes(blocks)| == Total(blocks)
    decreases |blocks|
  {
    if blocks == map[] {
      assert Bytes(blocks) == {};
    } else {
      var p :| p in blocks && Total(blocks) == blocks[p] + Total(blocks - {p});
      var rest := blocks - {p};
      assert |rest| < |blocks| by { assert rest.Keys == blocks.Keys - {p}; }
      assert AllApart(rest);
      hide AllApart, Bytes;
      BytesSplit(blocks, p);
      TotalCounts(rest);
    }
  }

  ghost function LostBytes(owner: map<nat, Owner>): set<nat> {
    set a | a in owner && owner[a] == Lost
  }

  /** Conservation: the free, the live and the lost bytes add up to the heap. */
  lemma BytesAddUp(free: map<nat, nat>, live: map<nat, nat>, owner: map<nat, Owner>)
    requires FreeOk(free, owner) && LiveOk(live, owner)
    ensures Total(free) + Total(live) + |LostBytes(owner)| == |owner|
  {
    HeapApart(free, live, owner);
    TotalCounts(free);
    TotalCounts(live);
    AllBytes(free, live, owner);
    assert |owner| == |owner.Keys|;
    assert |Bytes(free) + Bytes(live)| == |Bytes(free)| + |Bytes(live)|;
  }

  lemma AllBytes(free: map<nat, nat>, live: map<nat, nat>, owner: map<nat, Owner>)
    requires FreeOk(free, owner) && LiveOk(live, owner)
    ensures owner.Keys == (Bytes(free) + Bytes(live)) + LostBytes(owner)
    ensures Bytes(free) !! Bytes(live) && (Bytes(free) + Bytes(live)) !! LostBytes(owner)
  {
    hide Bytes;
    forall a | a in Bytes(free) ensures a in owner && owner[a].Free? {
      var p := BlockOfByte(free, a);
      assert Region(p, free[p]).Has(a);
    }
    forall a | a in Bytes(live) ensures a in owner && owner[a].Live? {
      var p := BlockOfByte(live, a);
      assert Region(p, live[p]).Has(a);
    }
    forall a | a in owner && owner[a].Free? ensures a in Bytes(free) {
      var p := owner[a].region;
      assert Region(p, free[p]).Has(a);
      ByteOfBlock(free, p, a);
    }
    forall a | a in owner && owner[a].Live? ensures a in Bytes(live) {
      var p := owner[a].block;
      assert Region(p, live[p]).Has(a);
      ByteOfBlock(live, p, a);
    }
  }

  /** What a cut loses is exactly the padding in front of the block. */
  lemma LostPadding(owner: map<nat, Owner>, region: Region, start: nat, size: nat)
    requires Owns(owner, Free(region.addr), region) && region.addr <= start && start + size <= region.End()
    ensures LostBytes(Carved(owner, region, start, size)) ==
      LostBytes(owner) + Interval(region.addr, start - region.addr)
  {
    var after := Carved(owner, region, start, size);
    forall a | a in LostBytes(after) ensures a in LostBytes(owner) + Interval(region.addr, start - region.addr) {}
    forall a | a in LostBytes(owner) ensures a in LostBytes(after) {
      assert !region.Has(a);
    }
    forall a | a in Interval(region.addr, start - region.addr) ensures a in LostBytes(after) {
      assert region.Has(a);
    }
  }
}

/** The size-class heap: freed blocks are kept in nine lists, one for each block size. */
module FixedSizeBlocks {
  import opened Basics
  import opened Layouts

  const CLASSES: nat := 9

  /** 8, 16, ... 2048. */
  function BlockSize(index: nat): nat {
    if index == 0 then 8 else 2 * BlockSize(index - 1)
  }

  lemma BlockSizesAre()
    ensures BlockSize(0) == 8 && BlockSize(1) == 16 && BlockSize(2) == 32 && BlockSize(3) == 64 && BlockSize(4) == 128
    ensures BlockSize(5) == 256 && BlockSize(6) == 512 && BlockSize(7) == 1024 && BlockSize(8) == 2048
  {}

  /** Every block size is a power of two, as the source demands. */
  lemma {:induction false} BlockSizes(index: nat)
    ensures IsPow2(BlockSize(index)) && BlockSize(index) >= 8
  {
    if index == 0 {
      assert IsPow2(1) && IsPow2(2) && IsPow2(4);
    } else {
      BlockSizes(index - 1);
    }
  }

  function Required(layout: Layout): nat {
    if layout.size < layout.align then layout.align else layout.size
  }

  /** The first, and so the smallest, block size that holds the request; None if it is larger than all. */
  function ListIndexFrom(layout: Layout, i: nat): (r: Option<nat>)
    ensures r.Some? ==> i <= r.value < CLASSES && BlockSize(r.value) >= Required(layout)
    ensures r.Some? ==> forall j | i <= j < r.value :: BlockSize(j) < Required(layout)
    ensures r.None? ==> forall j | i <= j < CLASSES :: BlockSize(j) < Required(layout)
    decreases CLASSES - i
  {
    if i >= CLASSES then None else if BlockSize(i) >= Required(layout) then Some(i) else ListIndexFrom(layout, i + 1)
  }

  function ListIndex(layout: Layout): Option<nat> {
    ListIndexFrom(layout, 0)
  }

  /** The layout that a request is served with: that of its class, or its own. */
  function Served(layout: Layout): Layout {
    var index := ListIndex(layout);
    if index.Some? then ClassLayout(index.value) else layout
  }

  /** What is served meets the request. */
  lemma ServedMeetsRequest(layout: Layout, p: nat)
    requires layout.Valid() && IsPow2(layout.align) && Served(layout).align > 0 && p % Served(layout).align == 0
    ensures layout.align > 0 && p % layout.align == 0 && Served(layout).size >= layout.size
    ensures IsPow2(Served(layout).align)
  {
    var index := ListIndex(layout);
    if index.Some? {
      BlockSizes(index.value);
      Pow2Divides(layout.align, BlockSize(index.value));
      MultipleTransitive(p, BlockSize(index.value), layout.align);
    }
  }

  /** Up to 2048 bytes and that alignment a request is served with the smallest block size that holds both, in size
    * and in alignment; beyond, with what it asks for. */
  lemma ServedExactly(layout: Layout)
    ensures layout.size > 2048 || layout.align > 2048 ==> Served(layout) == layout
    ensures layout.size <= 2048 && layout.align <= 2048 ==>
      exists i: nat :: i < CLASSES && Served(layout) == Layout(BlockSize(i), BlockSize(i))
        && layout.size <= BlockSize(i) && layout.align <= BlockSize(i)
        && forall j: nat | j < i :: BlockSize(j) < layout.size || BlockSize(j) < layout.align
  {
    BlockSizesAre();
    var index := ListIndex(layout);
    if index.Some? {
      Ascending(index.value);
      assert index.value < CLASSES && Served(layout) == Layout(BlockSize(index.value), BlockSize(index.value));
    } else {
      assert BlockSize(8) < Required(layout);
    }
  }

  lemma NoClass(layout: Layout)
    ensures ListIndex(layout).None? <==> layout.size > 2048 || layout.align > 2048
  {
    BlockSizesAre();
    var index := ListIndex(layout);
    if index.Some? {
      Ascending(index.value);
    }
  }

  lemma {:induction false} Ascending(i: nat)
    requires i < CLASSES
    ensures BlockSize(i) <= 2048
  {
    BlockSizesAre();
    assert i == 0 || i == 1 || i == 2 || i == 3 || i == 4 || i == 5 || i == 6 || i == 7 || i == 8;
  }

  /** A block taken from the fallback heap and not given back: its layout there, and its list while it is free. */
  datatype Block = Block(layout: Layout, listed: Option<nat>)

  function ClassLayout(index: nat): Layout
    requires index < CLASSES
  {
    Layout(BlockSize(index), BlockSize(index))
  }

  ghost predicate Apart(p: nat, psize: nat, q: nat, qsize: nat) {
    p + psize <= q || q + qsize <= p
  }

  ghost predicate AllApart(blocks: map<nat, Block>) {
    forall p, q | p in blocks && q in blocks && p != q :: Apart(p, blocks[p].layout.size, q, blocks[q].layout.size)
  }

  /** What the fallback heap promises: null, or an aligned block that overlaps none of those it has given. */
  ghost predicate FallbackOk(blocks: map<nat, Block>, layout: Layout, ptr: Option<nat>) {
    ptr.Some? ==>
      && layout.align > 0 && ptr.value % layout.align == 0 && ptr.value !in blocks
      && forall p | p in blocks :: Apart(p, blocks[p].layout.size, ptr.value, layout.size)
  }

  /** A list holds exactly the free blocks of its class, each once, in size and alignment those of the class. */
  ghost predicate ListOk(blocks: map<nat, Block>, list: seq<nat>, index: nat)
    requires index < CLASSES
  {
    && (forall i, j | 0 <= i < j < |list| :: list[i] != list[j])
    && (forall p | p in list :: p in blocks && blocks[p] == Block(ClassLayout(index), Some(index)))
    && (forall p | p in blocks && blocks[p].listed == Some(index) :: p in list)
  }

  /** The next pointers stored in the free blocks spell out this list. */
  ghost predicate Linked(head: Option<nat>, next: map<nat, Option<nat>>, list: seq<nat>)
    decreases |list|
  {
    if list == [] then head == None
    else head == Some(list[0]) && list[0] in next && Linked(next[list[0]], next, list[1..])
  }

  class FixedSizeBlockAllocator {
    var listHeads: array<Option<nat>>
    var next: map<nat, Option<nat>>
    ghost var lists: seq<seq<nat>>
    ghost var blocks: map<nat, Block>

    ghost predicate Valid()
      reads this, listHeads
    {
      && listHeads.Length == CLASSES && ListsOk(blocks, lists)
      && (forall i: nat | i < CLASSES :: Linked(listHeads[i], next, lists[i]))
    }

    constructor ()
      ensures Valid() && blocks == map[] && fresh(listHeads)
    {
      listHeads := new Option<nat>[CLASSES](_ => None);
      next, lists, blocks := map[], seq(CLASSES, _ => []), map[];
    }

    /** A listed block of the right class, or a block from the fallback heap. */
    method Alloc(layout: Layout, fallback: Option<nat>) returns (ptr: Option<nat>)
      requires Valid() && layout.Valid() && FallbackOk(blocks, Served(layout), fallback)
      modifies this, listHeads
      ensures Valid()
      ensures var index := ListIndex(layout);
        if index.Some? && old(lists)[index.value] != [] then
          ptr == Some(old(lists)[index.value][0]) && lists == old(lists)[index.value := old(lists)[index.value][1..]]
        else ptr == fallback && lists == old(lists)
      ensures ptr.Some? ==>
        && layout.align > 0 && ptr.value % layout.align == 0
        && (ptr.value in old(blocks) ==> old(blocks)[ptr.value].listed.Some?)
        && blocks == old(blocks)[ptr.value := Block(Served(layout), None)] && Served(layout).size >= layout.size
      ensures ptr.None? ==> blocks == old(blocks)
      ensures layout.size > 2048 || layout.align > 2048 ==>
        && ptr == fallback && lists == old(lists)
        && (ptr.Some? ==> blocks == old(blocks)[ptr.value := Block(layout, None)])
    {
      hide ListIndexFrom, BlockSize;
      ServedExactly(layout);
      NoClass(layout);
      var index := ListIndex(layout);
      if index.Some? {
        if listHeads[index.value].Some? {
          var node := listHeads[index.value].value;
          ghost var list := lists[index.value];
          PopOk(blocks, lists, index.value);
          ServedMeetsRequest(layout, node);
          assert Linked(listHeads[index.value], next, list);
          listHeads[index.value] := next[node];
          lists := lists[index.value := list[1..]];
          blocks := blocks[node := Block(ClassLayout(index.value), None)];
          return Some(node);
        }
      }
      if fallback.Some? {
        ServedMeetsRequest(layout, fallback.value);
        NewBlockOk(blocks, lists, fallback.value, Served(layout));
        blocks := blocks[fallback.value := Block(Served(layout), None)];
      }
      ptr := fallback;
    }

    /** The block goes to the list of its class, or back to the fallback heap; ptr and layout must be those
      * of an allocation. */
    method Dealloc(ptr: nat, layout: Layout)
      requires Valid() && layout.Valid() && ptr in blocks && blocks[ptr] == Block(Served(layout), None)
      modifies this, listHeads
      ensures Valid()
      ensures blocks ==
        if ListIndex(layout).Some? then old(blocks)[ptr := Block(Served(layout), ListIndex(layout))]
        else old(blocks) - {ptr}
    {
      hide ListIndexFrom, IsPow2, BlockSize, AllApart;
      var index := ListIndex(layout);
      if index.Some? {
        PushOk(blocks, lists, index.value, ptr);
        BlockSizes(index.value);
        // the source asserts that a node of 8 bytes, aligned to 8, fits in the block
        assert 8 <= BlockSize(index.value);
        forall i: nat | i < CLASSES ensures Linked(listHeads[i], next[ptr := listHeads[index.value]], lists[i]) {
          assert ListOk(blocks, lists[i], i);
          LinkedElsewhere(listHeads[i], next, lists[i], ptr, listHeads[index.value]);
        }
        assert ([ptr] + lists[index.value])[1..] == lists[index.value];
        next := next[ptr := listHeads[index.value]];
        listHeads[index.value] := Some(ptr);
        lists := lists[index.value := [ptr] + lists[index.value]];
        blocks := blocks[ptr := Block(ClassLayout(index.value), index)];
      } else {
        RemoveOk(blocks, lists, ptr);
        blocks := blocks - {ptr};
      }
    }
  }

  ghost predicate ListsOk(blocks: map<nat, Block>, lists: seq<seq<nat>>) {
    && |lists| == CLASSES && AllApart(blocks)
    && (forall p | p in blocks :: blocks[p].layout.align > 0 && p % blocks[p].layout.align == 0)
    && (forall i: nat | i < CLASSES :: ListOk(blocks, lists[i], i))
    && (forall p | p in blocks && blocks[p].listed.Some? :: blocks[p].listed.value < CLASSES)
  }

  lemma PopOk(blocks: map<nat, Block>, lists: seq<seq<nat>>, index: nat)
    requires ListsOk(blocks, lists) && index < CLASSES && lists[index] != []
    ensures var p := lists[index][0];
      && p in blocks && blocks[p] == Block(ClassLayout(index), Some(index)) && p % BlockSize(index) == 0
      && ListsOk(blocks[p := Block(ClassLayout(index), None)], lists[index := lists[index][1..]])
  {
    hide BlockSize, Apart;
    var p, list := lists[index][0], lists[index];
    assert ListOk(blocks, list, index) && list[0] in list;
    var blocks', lists' := blocks[p := Block(ClassLayout(index), None)], lists[index := list[1..]];
    forall i: nat | i < CLASSES ensures ListOk(blocks', lists'[i], i) {
      assert ListOk(blocks, lists[i], i);
    }
    assert forall a, b | a in blocks' && b in blocks' && a != b ::
      Apart(a, blocks[a].layout.size, b, blocks[b].layout.size);
  }

  lemma PushOk(blocks: map<nat, Block>, lists: seq<seq<nat>>, index: nat, p: nat)
    requires ListsOk(blocks, lists) && index < CLASSES
    requires p in blocks && blocks[p] == Block(ClassLayout(index), None)
    ensures ListsOk(blocks[p := Block(ClassLayout(index), Some(index))], lists[index := [p] + lists[index]])
  {
    hide BlockSize, Apart;
    var blocks', lists' := blocks[p := Block(ClassLayout(index), Some(index))], lists[index := [p] + lists[index]];
    forall i: nat | i < CLASSES ensures ListOk(blocks', lists'[i], i) {
      assert ListOk(blocks, lists[i], i);
    }
    assert forall a, b | a in blocks' && b in blocks' && a != b ::
      Apart(a, blocks[a].layout.size, b, blocks[b].layout.size);
  }

  lemma NewBlockOk(blocks: map<nat, Block>, lists: seq<seq<nat>>, p: nat, layout: Layout)
    requires ListsOk(blocks, lists) && FallbackOk(blocks, layout, Some(p))
    ensures ListsOk(blocks[p := Block(layout, None)], lists)
  {
    hide BlockSize;
    forall i: nat | i < CLASSES ensures ListOk(blocks[p := Block(layout, None)], lists[i], i) {
      assert ListOk(blocks, lists[i], i);
    }
  }

  lemma RemoveOk(blocks: map<nat, Block>, lists: seq<seq<nat>>, p: nat)
    requires ListsOk(blocks, lists) && p in blocks && blocks[p].listed == None
    ensures ListsOk(blocks - {p}, lists)
  {
    hide BlockSize, Apart;
    forall i: nat | i < CLASSES ensures ListOk(blocks - {p}, lists[i], i) {
      assert ListOk(blocks, lists[i], i);
    }
  }

  lemma {:induction false} LinkedElsewhere(head: Option<nat>, next: map<nat, Option<nat>>, list: seq<nat>, p: nat,
      to: Option<nat>)
    requires Linked(head, next, list) && p !in list
    ensures Linked(head, next[p := to], list)
    decreases |list|
  {
    if list != [] {
      LinkedElsewhere(next[list[0]], next, list[1..], p, to);
    }
  }
}

/**
  The virtual address space allocator: two linked lists of nodes, free and used, each sorted by
  base. `Cover(list, p)` counts the nodes of a list that contain the byte at `p`; the two lists
  partition a region when every byte of it is covered once, over both lists together.

  A list is a sequence here. Where the source links a node into an empty list without clearing
  the node's own `next`, whatever that link still leads to joins the list; `stale` stands for it.
  */
module Vasa {
  import opened Arithmetic
  import opened Word32

  datatype MemType = Ram | Mmio | Pci

  datatype Node = Node(base: int, length: nat, flags: nat, memType: MemType) {
    function End(): int {
      base + length
    }

    predicate Has(p: int) {
      base <= p < base + length
    }
  }

  // ---------------------------------------------------------------- covering

  function NodeCover(node: Node, p: int): nat {
    if node.Has(p) then 1 else 0
  }

  function Cover(list: seq<Node>, p: int): nat {
    if list == [] then 0 else NodeCover(list[0], p) + Cover(list[1..], p)
  }

  lemma {:induction false} CoverConcat(a: seq<Node>, b: seq<Node>, p: int)
    ensures Cover(a + b, p) == Cover(a, p) + Cover(b, p)
  {
    if a == [] {
      assert a + b == b;
    } else {
      assert (a + b)[1..] == a[1..] + b;
      CoverConcat(a[1..], b, p);
    }
  }

  function Removed(list: seq<Node>, i: nat): seq<Node>
    requires i < |list|
  {
    list[..i] + list[i + 1..]
  }

  lemma CoverRemoved(list: seq<Node>, i: nat, p: int)
    requires i < |list|
    ensures Cover(list, p) == NodeCover(list[i], p) + Cover(Removed(list, i), p)
  {
    assert list == list[..i] + ([list[i]] + list[i + 1..]);
    CoverConcat(list[..i], [list[i]] + list[i + 1..], p);
    CoverConcat(list[..i], list[i + 1..], p);
  }

  lemma CoverUpdated(list: seq<Node>, i: nat, node: Node, p: int)
    requires i < |list|
    ensures Cover(list[i := node], p) + NodeCover(list[i], p) == Cover(list, p) + NodeCover(node, p)
  {
    CoverRemoved(list, i, p);
    CoverRemoved(list[i := node], i, p);
    assert Removed(list[i := node], i) == Removed(list, i);
  }

  lemma CoverOfTwo(list: seq<Node>, i: nat, j: nat, p: int)
    requires i < j < |list|
    ensures NodeCover(list[i], p) + NodeCover(list[j], p) <= Cover(list, p)
  {
    CoverRemoved(list, j, p);
    assert Removed(list, j)[i] == list[i];
    CoverRemoved(Removed(list, j), i, p);
  }

  // ---------------------------------------------------------------- adding a node

  predicate Congruent(a: Node, b: Node) {
    if b.base > a.base then a.End() == b.base else b.End() == a.base
  }

  /** The merged node keeps the first node's flags and type. */
  function Merge(a: Node, b: Node): Node {
    a.(base := Min(a.base, b.base), length := a.length + b.length)
  }

  /** A node added to a list: merged into the first neighbour when freeing, else put in order. */
  function Place(list: seq<Node>, node: Node, used: bool): seq<Node> {
    if list == [] then [node]
    else if !used && Congruent(node, list[0]) then [Merge(list[0], node)] + list[1..]
    else if list[0].base > node.base then [node] + list
    else [list[0]] + Place(list[1..], node, used)
  }

  function AddNode(list: seq<Node>, node: Node, used: bool, stale: seq<Node>): seq<Node> {
    var node := if used then node else node.(flags := 0);
    if list == [] then [node] + stale else Place(list, node, used)
  }

  lemma MergeCover(a: Node, b: Node, p: int)
    requires Congruent(b, a)
    ensures NodeCover(Merge(a, b), p) == NodeCover(a, p) + NodeCover(b, p)
  {
  }

  /** Nodes that are not empty are congruent exactly when one starts where the other ends. */
  lemma CongruentIsTouching(a: Node, b: Node)
    requires a.length > 0 && b.length > 0
    ensures Congruent(a, b) <==> a.base + a.length == b.base || b.base + b.length == a.base
  {
  }

  lemma {:induction false} PlaceCover(list: seq<Node>, node: Node, used: bool, p: int)
    ensures Cover(Place(list, node, used), p) == Cover(list, p) + NodeCover(node, p)
  {
    if list == [] {
    } else if !used && Congruent(node, list[0]) {
      MergeCover(list[0], node, p);
    } else if list[0].base > node.base {
    } else {
      PlaceCover(list[1..], node, used, p);
      assert Place(list, node, used)[1..] == Place(list[1..], node, used);
    }
  }

  /** Adding a node to a list adds its bytes, and those of the stale tail if the list was empty. */
  lemma AddNodeCover(list: seq<Node>, node: Node, used: bool, stale: seq<Node>, p: int)
    ensures Cover(AddNode(list, node, used, stale), p)
         == Cover(list, p) + NodeCover(node, p) + if list == [] then Cover(stale, p) else 0
  {
    var node := if used then node else node.(flags := 0);
    if list == [] {
      CoverConcat([node], stale, p);
    } else {
      PlaceCover(list, node, used, p);
    }
  }

  /** A used list gains the node as it is, and keeps every other. */
  lemma {:induction false} UsedGains(list: seq<Node>, node: Node)
    ensures multiset(Place(list, node, true)) == multiset(list) + multiset{node}
  {
    if list != [] && list[0].base <= node.base {
      UsedGains(list[1..], node);
      assert list == [list[0]] + list[1..];
    }
  }

  /** What is freed loses its flags: a free list without flags stays without flags. */
  lemma {:induction false} FlagsCleared(list: seq<Node>, node: Node)
    requires forall n :: n in list ==> n.flags == 0
    ensures forall n :: n in AddNode(list, node, false, []) ==> n.flags == 0
  {
    var bare := node.(flags := 0);
    if list != [] && !Congruent(bare, list[0]) && list[0].base <= bare.base {
      FlagsCleared(list[1..], node);
      assert list[1..] != [] ==> AddNode(list[1..], node, false, []) == Place(list[1..], bare, false);
      assert list[1..] == [] ==> Place(list[1..], bare, false) == [bare];
    }
  }

  predicate Sorted(list: seq<Node>) {
    forall i, j :: 0 <= i < j < |list| ==> list[i].base <= list[j].base
  }

  /** No node is empty. */
  predicate Positive(list: seq<Node>) {
    forall i :: 0 <= i < |list| ==> list[i].length > 0
  }

  lemma {:induction false} PlaceSorted(list: seq<Node>, node: Node, used: bool)
    requires Sorted(list)
    ensures Sorted(Place(list, node, used))
    ensures list != [] ==> Place(list, node, used)[0].base == Min(list[0].base, node.base)
  {
    if list == [] || (!used && Congruent(node, list[0])) || list[0].base > node.base {
    } else {
      PlaceSorted(list[1..], node, used);
    }
  }

  lemma {:induction false} PlacePositive(list: seq<Node>, node: Node, used: bool)
    requires Positive(list) && node.length > 0
    ensures Positive(Place(list, node, used))
  {
    if list == [] || (!used && Congruent(node, list[0])) || list[0].base > node.base {
    } else {
      PlacePositive(list[1..], node, used);
    }
  }

  // ---------------------------------------------------------------- the two lists

  datatype Space = Space(free: seq<Node>, used: seq<Node>)

  function SpaceCover(s: Space, p: int): nat {
    Cover(s.free, p) + Cover(s.used, p)
  }

  /** The free and used nodes together cover every byte of the region once, and no other byte. */
  ghost predicate Partitions(s: Space, start: int, length: nat) {
    forall p :: SpaceCover(s, p) == if start <= p < start + length then 1 else 0
  }

  /** `vasa_init`. The node's flags and type are left as the allocator's memory had them. */
  function Init(start: int, length: nat, flags: nat, memType: MemType): Space {
    Space([Node(start, length, flags, memType)], [])
  }

  lemma InitPartitions(start: int, length: nat, flags: nat, memType: MemType)
    ensures Partitions(Init(start, length, flags, memType), start, length)
  {
    var s := Init(start, length, flags, memType);
    forall p
      ensures SpaceCover(s, p) == if start <= p < start + length then 1 else 0
    {
      assert Cover(s.free[1..], p) == 0;
    }
  }

  // ---------------------------------------------------------------- allocating

  /** The padding the flags ask for: bit 5 is MMAP_PG_ALIGN, bit 6 is MMAP_2PG_ALIGN. */
  function Pad(flags: nat): nat {
    if (flags / 32) % 2 == 1 then 0x1000 else if (flags / 64) % 2 == 1 then 0x2000 else 0
  }

  /** `APPLY_PAD` for a power of two: the mask clears what is left over of a multiple. */
  function AlignUp(x: int, pad: nat): int
    requires pad > 0
  {
    var y := x + pad - 1;
    y - y % pad
  }

  lemma AlignUpIsLeastMultiple(x: int, pad: nat)
    requires pad > 0
    ensures AlignUp(x, pad) % pad == 0 && x <= AlignUp(x, pad) < x + pad
    ensures forall m :: m % pad == 0 && x <= m ==> AlignUp(x, pad) <= m
    ensures AlignUp(x, pad) == x <==> x % pad == 0
  {
    var a, q := AlignUp(x, pad), (x + pad - 1) / pad;
    assert a == q * pad;
    MultipleMod(q, pad);
    forall m | m % pad == 0 && x <= m
      ensures a <= m
    {
      assert m == (m / pad) * pad;
      if m / pad < q {
        MultipleStep(m / pad, q, pad);
      } else {
        MultipleOrder(q, m / pad, pad);
      }
    }
  }

  lemma MultipleMod(q: int, pad: nat)
    requires pad > 0
    ensures (q * pad) % pad == 0
  {
    var r := (q * pad) % pad;
    var k := (q * pad) / pad;
    assert r == q * pad - k * pad;
    if k < q {
      MultipleStep(k, q, pad);
    } else {
      MultipleOrder(q, k, pad);
    }
  }

  /** The position of the first node with at least `search` bytes, or the list's length. */
  function FirstFit(list: seq<Node>, search: nat): (i: nat)
    ensures i <= |list|
    ensures i < |list| ==> list[i].length >= search
    ensures forall j :: 0 <= j < i ==> list[j].length < search
  {
    if list == [] || list[0].length >= search then 0 else 1 + FirstFit(list[1..], search)
  }

  predicate Fits(free: seq<Node>, size: nat, flags: nat) {
    size > 0 && FirstFit(free, size + Pad(flags)) < |free|
  }

  /** The node an allocation is cut from. */
  function Chosen(free: seq<Node>, size: nat, flags: nat): Node
    requires Fits(free, size, flags)
  {
    free[FirstFit(free, size + Pad(flags))]
  }

  function AllocBase(free: seq<Node>, size: nat, flags: nat): int
    requires Fits(free, size, flags)
  {
    var base := Chosen(free, size, flags).base;
    if Pad(flags) > 0 then AlignUp(base, Pad(flags)) else base
  }

  /** The bytes skipped to reach an aligned base. */
  function Waste(free: seq<Node>, size: nat, flags: nat): int
    requires Fits(free, size, flags)
  {
    AllocBase(free, size, flags) - Chosen(free, size, flags).base
  }

  /**
    The chosen node after an allocation: as in the source, the waste is taken off its length but
    its base only moves by the size.
    */
  function Cut(node: Node, size: nat, waste: nat): Node
    requires size + waste < node.length
  {
    node.(base := node.base + size, length := node.length - waste - size)
  }

  /** Both lists after a successful allocation. */
  function AfterAlloc(s: Space, memType: MemType, size: nat, flags: nat): Space
    requires Fits(s.free, size, flags)
  {
    AllocGeometry(s.free, size, flags);
    var i := FirstFit(s.free, size + Pad(flags));
    var waste := Waste(s.free, size, flags);
    var node := Node(AllocBase(s.free, size, flags), size, flags, memType);
    var used := AddNode(s.used, node, true, []);
    if s.free[i].length == size then Space(Removed(s.free, i), used)
    else
      var free := s.free[i := Cut(s.free[i], size, waste)];
      var skipped := Node(s.free[i].base, waste, flags, memType);
      Space(if waste > 0 then AddNode(free, skipped, false, free[i..]) else free, used)
  }

  /** A padded allocation wastes less than the padding, lies in the chosen node and never uses it up. */
  lemma AllocGeometry(free: seq<Node>, size: nat, flags: nat)
    requires Fits(free, size, flags)
    ensures var node, ptr, waste := Chosen(free, size, flags), AllocBase(free, size, flags), Waste(free, size, flags);
            && 0 <= waste
            && node.base <= ptr && ptr + size <= node.End()
            && (Pad(flags) > 0 ==>
                  && ptr % Pad(flags) == 0 && waste < Pad(flags)
                  && waste + size < node.length
                  && (forall m :: m % Pad(flags) == 0 && node.base <= m ==> ptr <= m))
            && (Pad(flags) == 0 ==> waste == 0)
  {
    if Pad(flags) > 0 {
      AlignUpIsLeastMultiple(Chosen(free, size, flags).base, Pad(flags));
    }
  }

  /** When an allocation is possible, bit by bit of the flags. */
  lemma FitsExactly(free: seq<Node>, size: nat, flags: nat)
    ensures var search := size + if (flags / 0x20) % 2 == 1 then 0x1000 else if (flags / 0x40) % 2 == 1 then 0x2000 else 0;
            Fits(free, size, flags) <==> size > 0 && exists i :: 0 <= i < |free| && free[i].length >= search
  {
  }

  /** Which node it is cut from, and where it starts: on the boundary asked for, one page before two. */
  lemma AlignedAsAsked(free: seq<Node>, size: nat, flags: nat, i: nat)
    requires size > 0 && i < |free|
    requires var search := size + if (flags / 0x20) % 2 == 1 then 0x1000 else if (flags / 0x40) % 2 == 1 then 0x2000 else 0;
             free[i].length >= search && forall j :: 0 <= j < i ==> free[j].length < search
    ensures Fits(free, size, flags)
    ensures var ptr := AllocBase(free, size, flags);
            && free[i].base <= ptr && ptr + size <= free[i].base + free[i].length
            && ((flags / 0x20) % 2 == 1 ==> ptr % 0x1000 == 0 && ptr < free[i].base + 0x1000)
            && ((flags / 0x20) % 2 == 0 && (flags / 0x40) % 2 == 1 ==> ptr % 0x2000 == 0 && ptr < free[i].base + 0x2000)
            && ((flags / 0x20) % 2 == 0 && (flags / 0x40) % 2 == 0 ==> ptr == free[i].base)
  {
    FitsExactly(free, size, flags);
    assert FirstFit(free, size + Pad(flags)) == i;
    AllocGeometry(free, size, flags);
  }

  /** The used list gains one node, with the address, size, flags and type of the allocation. */
  lemma AllocRecords(s: Space, memType: MemType, size: nat, flags: nat)
    requires Fits(s.free, size, flags)
    ensures multiset(AfterAlloc(s, memType, size, flags).used)
         == multiset(s.used) + multiset{Node(AllocBase(s.free, size, flags), size, flags, memType)}
  {
    AllocGeometry(s.free, size, flags);
    UsedGains(s.used, Node(AllocBase(s.free, size, flags), size, flags, memType));
  }

  /** Where the allocation lies and what happens to each byte of the region. */
  lemma AllocCover(s: Space, memType: MemType, size: nat, flags: nat, p: int)
    requires Fits(s.free, size, flags)
    ensures var node, waste := Chosen(s.free, size, flags), Waste(s.free, size, flags);
            waste >= 0 &&
            var t := AfterAlloc(s, memType, size, flags);
            var ptr := AllocBase(s.free, size, flags);
            && Cover(t.used, p) == Cover(s.used, p) + (if ptr <= p < ptr + size then 1 else 0)
            && Cover(t.free, p) == Cover(s.free, p) - NodeCover(node, p)
                                 + (if node.base <= p < ptr then 1 else 0)
                                 + (if node.base + size <= p < node.End() - waste then 1 else 0)
  {
    AllocGeometry(s.free, size, flags);
    var i := FirstFit(s.free, size + Pad(flags));
    var node, waste := s.free[i], Waste(s.free, size, flags);
    AddNodeCover(s.used, Node(AllocBase(s.free, size, flags), size, flags, memType), true, [], p);
    if node.length == size {
      CoverRemoved(s.free, i, p);
    } else {
      CoverUpdated(s.free, i, Cut(node, size, waste), p);
      var free := s.free[i := Cut(node, size, waste)];
      AddNodeCover(free, Node(node.base, waste, flags, memType), false, free[i..], p);
    }
  }

  /**
    An allocation keeps the partition exactly when nothing is wasted, that is, when the first
    node that fits already starts on the alignment.
    */
  lemma AllocPartitionsExactly(s: Space, memType: MemType, size: nat, flags: nat, start: int, length: nat)
    requires Partitions(s, start, length) && Fits(s.free, size, flags)
    ensures Partitions(AfterAlloc(s, memType, size, flags), start, length)
       <==> Pad(flags) == 0 || Chosen(s.free, size, flags).base % Pad(flags) == 0
  {
    AllocGeometry(s.free, size, flags);
    var node, waste := Chosen(s.free, size, flags), Waste(s.free, size, flags);
    if Pad(flags) > 0 {
      AlignUpIsLeastMultiple(node.base, Pad(flags));
    }
    var t := AfterAlloc(s, memType, size, flags);
    if waste == 0 {
      forall p
        ensures SpaceCover(t, p) == SpaceCover(s, p)
      {
        AllocCover(s, memType, size, flags, p);
      }
    } else {
      var p := node.End() - 1;
      AllocCover(s, memType, size, flags, p);
      assert SpaceCover(t, p) == SpaceCover(s, p) - 1;
    }
  }

  /** With the base moved past the waste, the three pieces tile the node whatever is wasted. */
  lemma MovedBaseTiles(node: Node, size: nat, waste: nat, p: int)
    requires size + waste < node.length
    ensures var cut := node.(base := node.base + waste + size, length := node.length - waste - size);
            NodeCover(node.(length := waste), p)
            + NodeCover(node.(base := node.base + waste, length := size), p)
            + NodeCover(cut, p) == NodeCover(node, p)
  {
  }

  // ---------------------------------------------------------------- freeing

  /** The first used node with the pointer in it or at its end. */
  function FirstHolding(used: seq<Node>, ptr: int): (i: nat)
    ensures i <= |used|
    ensures i < |used| ==> used[i].base <= ptr <= used[i].End()
    ensures forall j :: 0 <= j < i ==> !(used[j].base <= ptr <= used[j].End())
  {
    if used == [] || used[0].base <= ptr <= used[0].End() then 0 else 1 + FirstHolding(used[1..], ptr)
  }

  function AfterDealloc(s: Space, ptr: int): Space {
    var i := FirstHolding(s.used, ptr);
    if i == |s.used| then s
    else Space(AddNode(s.free, s.used[i], false, s.used[i + 1..]), Removed(s.used, i))
  }

  /** The free list is not empty, or the node that is freed has no stale successors. */
  predicate DeallocGuard(s: Space, ptr: int) {
    s.free != [] || FirstHolding(s.used, ptr) + 1 >= |s.used|
  }

  lemma DeallocCover(s: Space, ptr: int, p: int)
    ensures SpaceCover(AfterDealloc(s, ptr), p) >= SpaceCover(s, p)
    ensures DeallocGuard(s, ptr) ==> SpaceCover(AfterDealloc(s, ptr), p) == SpaceCover(s, p)
    ensures !DeallocGuard(s, ptr) ==>
      SpaceCover(AfterDealloc(s, ptr), p)
      == SpaceCover(s, p) + Cover(s.used[FirstHolding(s.used, ptr) + 1..], p)
  {
    var i := FirstHolding(s.used, ptr);
    if i < |s.used| {
      CoverRemoved(s.used, i, p);
      AddNodeCover(s.free, s.used[i], false, s.used[i + 1..], p);
    }
  }

  /**
    The first used node with the pointer in it or at its end leaves the used list and joins the
    free one, with what its old link leads to if that was empty. Nothing else moves.
    */
  lemma DeallocMoves(s: Space, ptr: int, k: nat, p: int)
    requires k < |s.used| && s.used[k].base <= ptr <= s.used[k].base + s.used[k].length
    requires forall j :: 0 <= j < k ==> !(s.used[j].base <= ptr <= s.used[j].base + s.used[j].length)
    ensures var t := AfterDealloc(s, ptr);
            && t.used == s.used[..k] + s.used[k + 1..]
            && Cover(t.used, p) == Cover(s.used, p) - NodeCover(s.used[k], p)
            && Cover(t.free, p)
            == Cover(s.free, p) + NodeCover(s.used[k], p) + if s.free == [] then Cover(s.used[k + 1..], p) else 0
  {
    assert FirstHolding(s.used, ptr) == k;
    CoverRemoved(s.used, k, p);
    AddNodeCover(s.free, s.used[k], false, s.used[k + 1..], p);
  }

  /** With no such node, nothing happens. */
  lemma DeallocOfStranger(s: Space, ptr: int)
    requires forall j :: 0 <= j < |s.used| ==> !(s.used[j].base <= ptr <= s.used[j].base + s.used[j].length)
    ensures AfterDealloc(s, ptr) == s
  {
  }

  /** Freeing keeps the partition exactly when the freed node's stale link cannot be followed. */
  lemma DeallocPartitionsExactly(s: Space, ptr: int, start: int, length: nat)
    requires Partitions(s, start, length) && Positive(s.used)
    ensures Partitions(AfterDealloc(s, ptr), start, length) <==> DeallocGuard(s, ptr)
  {
    if DeallocGuard(s, ptr) {
      forall p
        ensures SpaceCover(AfterDealloc(s, ptr), p) == SpaceCover(s, p)
      {
        DeallocCover(s, ptr, p);
      }
    } else {
      var i := FirstHolding(s.used, ptr);
      var p := s.used[i + 1].base;
      DeallocCover(s, ptr, p);
      CoverRemoved(s.used[i + 1..], 0, p);
      assert SpaceCover(AfterDealloc(s, ptr), p) > SpaceCover(s, p);
      CoverRemoved(s.used, i + 1, p);
    }
  }

  /** The block around a pointer is the one freed exactly when no earlier block ends at the pointer. */
  lemma DeallocFindsOwner(s: Space, k: nat, ptr: int, start: int, length: nat)
    requires Partitions(s, start, length) && Sorted(s.used) && Positive(s.used)
    requires k < |s.used| && s.used[k].Has(ptr)
    ensures FirstHolding(s.used, ptr) == k <==> forall j :: 0 <= j < k ==> s.used[j].End() != ptr
  {
    var i := FirstHolding(s.used, ptr);
    assert i <= k;
    var owners := SpaceCover(s, ptr);
    if i < k && s.used[i].End() != ptr {
      CoverOfTwo(s.used, i, k, ptr);
    }
  }

  // ---------------------------------------------------------------- marking

  /**
    The first node that contains [base, end), or the list's length. An empty node ends the
    search: the source takes it for having gone past the range.
    */
  function FirstAround(list: seq<Node>, base: int, end: int): (i: nat)
    ensures i <= |list|
    ensures i < |list| ==> list[i].base <= base && end <= list[i].End() && list[i].length > 0
  {
    if list == [] then 0
    else if list[0].length == 0 then |list|
    else if list[0].base <= base && end <= list[0].End() then 0
    else 1 + FirstAround(list[1..], base, end)
  }

  /** With no empty node in the way, the search fails exactly when no node contains the range. */
  lemma {:induction false} FirstAroundComplete(list: seq<Node>, base: int, end: int)
    requires Positive(list)
    ensures FirstAround(list, base, end) < |list|
       <==> exists j :: 0 <= j < |list| && list[j].base <= base && end <= list[j].End()
  {
    if list != [] && !(list[0].base <= base && end <= list[0].End()) {
      FirstAroundComplete(list[1..], base, end);
      if FirstAround(list[1..], base, end) < |list[1..]| {
        var j :| 0 <= j < |list[1..]| && list[1..][j].base <= base && end <= list[1..][j].End();
        assert list[j + 1] == list[1..][j];
      }
      if j :| 0 <= j < |list| && list[j].base <= base && end <= list[j].End() {
        assert list[1..][j - 1] == list[j];
      }
    }
  }

  function Source(s: Space, used: bool): seq<Node> {
    if used then s.free else s.used
  }

  function Target(s: Space, used: bool): seq<Node> {
    if used then s.used else s.free
  }

  function Lists(source: seq<Node>, target: seq<Node>, used: bool): Space {
    if used then Space(source, target) else Space(target, source)
  }

  predicate Found(s: Space, base: int, length: nat, used: bool) {
    FirstAround(Source(s, used), base, base + length) < |Source(s, used)|
  }

  /** The node found is exactly the range asked for. */
  predicate Exact(s: Space, base: int, length: nat, used: bool) {
    Found(s, base, length, used) &&
    var node := Source(s, used)[FirstAround(Source(s, used), base, base + length)];
    node.base == base && node.length == length
  }

  /** The source unlinks an exact match at the head of its list from the other list instead. */
  predicate ExactFirst(s: Space, base: int, length: nat, used: bool) {
    Exact(s, base, length, used) && FirstAround(Source(s, used), base, base + length) == 0
  }

  /** A whole node moves to the other list, its link still leading to its old successors. */
  function AfterMove(s: Space, i: nat, used: bool, flags: nat): Space
    requires i < |Source(s, used)|
  {
    var source, target := Source(s, used), Target(s, used);
    Lists(Removed(source, i), AddNode(target, source[i].(flags := flags), used, source[i + 1..]), used)
  }

  /** A range is cut out of a node; `stale` is where the uninitialised link of the new node leads. */
  function AfterSplit(s: Space, i: nat, middle: Node, used: bool, stale: seq<Node>): Space
    requires i < |Source(s, used)|
    requires Source(s, used)[i].base <= middle.base && middle.End() <= Source(s, used)[i].End()
  {
    var source, target := Source(s, used), Target(s, used);
    Lists(AddNode(source[i := Before(source[i], middle)], After(source[i], middle), !used, []),
          AddNode(target, middle, used, stale), used)
  }

  function Before(node: Node, middle: Node): Node
    requires node.base <= middle.base
  {
    node.(length := middle.base - node.base)
  }

  function After(node: Node, middle: Node): Node
    requires middle.End() <= node.End()
  {
    Node(middle.End(), node.End() - middle.End(), node.flags, middle.memType)
  }

  function AfterMark(s: Space, middle: Node, used: bool, stale: seq<Node>): Space
    requires !ExactFirst(s, middle.base, middle.length, used)
  {
    var i := FirstAround(Source(s, used), middle.base, middle.End());
    if i == |Source(s, used)| then s
    else if Exact(s, middle.base, middle.length, used) then AfterMove(s, i, used, middle.flags)
    else AfterSplit(s, i, middle, used, stale)
  }

  /** The list a range moves to is not empty, or the link that then survives leads nowhere. */
  predicate MarkGuard(s: Space, base: int, length: nat, used: bool, stale: seq<Node>) {
    var i := FirstAround(Source(s, used), base, base + length);
    || i == |Source(s, used)|
    || Target(s, used) != []
    || (if Exact(s, base, length, used) then i + 1 == |Source(s, used)| else stale == [])
  }

  /** What a link that survives in an empty target list brings along. */
  function MarkTail(s: Space, middle: Node, used: bool, stale: seq<Node>): seq<Node> {
    var i := FirstAround(Source(s, used), middle.base, middle.End());
    if Target(s, used) != [] || i == |Source(s, used)| then []
    else if Exact(s, middle.base, middle.length, used) then Source(s, used)[i + 1..]
    else stale
  }

  /** A successful mark moves exactly the range asked for to the other list. */
  lemma MarkMoves(s: Space, middle: Node, used: bool, stale: seq<Node>, p: int)
    requires !ExactFirst(s, middle.base, middle.length, used) && Found(s, middle.base, middle.length, used)
    ensures var t := AfterMark(s, middle, used, stale);
            && Cover(Source(t, used), p) == Cover(Source(s, used), p) - NodeCover(middle, p)
            && Cover(Target(t, used), p)
            == Cover(Target(s, used), p) + NodeCover(middle, p) + Cover(MarkTail(s, middle, used, stale), p)
  {
    hide FirstAround, Place, AddNode;
    var source, target := Source(s, used), Target(s, used);
    var i := FirstAround(source, middle.base, middle.End());
    if Exact(s, middle.base, middle.length, used) {
      CoverRemoved(source, i, p);
      AddNodeCover(target, source[i].(flags := middle.flags), used, source[i + 1..], p);
    } else {
      CoverUpdated(source, i, Before(source[i], middle), p);
      AddNodeCover(source[i := Before(source[i], middle)], After(source[i], middle), !used, [], p);
      AddNodeCover(target, middle, used, stale, p);
    }
  }

  lemma MarkNotFound(s: Space, middle: Node, used: bool, stale: seq<Node>)
    requires !Found(s, middle.base, middle.length, used)
    ensures AfterMark(s, middle, used, stale) == s
  {
  }

  /** Marking keeps the partition exactly when no stale link can be followed. */
  lemma MarkPartitionsExactly(s: Space, middle: Node, used: bool, stale: seq<Node>, start: int, length: nat)
    requires Partitions(s, start, length) && Positive(Source(s, used)) && Positive(stale)
    requires !ExactFirst(s, middle.base, middle.length, used)
    ensures Partitions(AfterMark(s, middle, used, stale), start, length)
       <==> MarkGuard(s, middle.base, middle.length, used, stale)
  {
    hide AfterMark, FirstAround;
    var t := AfterMark(s, middle, used, stale);
    var tail := MarkTail(s, middle, used, stale);
    if Found(s, middle.base, middle.length, used) {
      forall p
        ensures SpaceCover(t, p) == SpaceCover(s, p) + Cover(tail, p)
      {
        MarkMoves(s, middle, used, stale, p);
      }
      if tail != [] {
        var p := tail[0].base;
        assert SpaceCover(t, p) > SpaceCover(s, p);
        MarkMoves(s, middle, used, stale, p);
        var i := FirstAround(Source(s, used), middle.base, middle.End());
        assert !MarkGuard(s, middle.base, middle.length, used, stale);
        assert !Partitions(t, start, length);
      }
    } else {
      MarkNotFound(s, middle, used, stale);
    }
  }

  /**
    The excluded case, when the first free node is marked used as a whole. The used list is
    replaced by the tail of the free list, the node is put in front of it, and the free list
    still starts with the node: both lists are now one and the same.
    */
  function AfterExactFirst(s: Space, flags: nat): Space
    requires s.free != []
  {
    var node := s.free[0].(flags := flags);
    Space([node] + s.free[1..], AddNode(s.free[1..], node, true, []))
  }

  /** It never keeps the partition, and it loses every allocation. */
  lemma ExactFirstBreaksPartition(s: Space, flags: nat, start: int, length: nat)
    requires Partitions(s, start, length) && Sorted(s.free) && Positive(s.free) && s.free != []
    ensures !Partitions(AfterExactFirst(s, flags), start, length)
    ensures AfterExactFirst(s, flags).used == AfterExactFirst(s, flags).free
  {
    var t := AfterExactFirst(s, flags);
    var p := s.free[0].base;
    var owners := SpaceCover(s, p);
    if |s.free| > 1 && s.free[1].base == p {
      CoverOfTwo(s.free, 0, 1, p);
    }
    assert t.used == t.free;
    assert NodeCover(t.free[0], p) == 1;
    assert SpaceCover(t, p) >= 2;
  }

  /**
    And when the first used node is marked free as a whole, the free list is replaced by the tail
    of the used list and the node is added to that: all of the free space is lost to what was in
    use. A node merged into its neighbour is given back to the heap while the used list still
    starts with it; otherwise both lists are again one and the same.
    */
  lemma ExactFirstUsedLosesFree(s: Space, start: int, length: nat)
    requires Partitions(s, start, length) && Sorted(s.used) && Positive(s.used) && s.used != []
    ensures var node := s.used[0].(flags := 0);
            var free := AddNode(s.used[1..], s.used[0], false, []);
            && (forall p :: Cover(free, p) == Cover(s.used, p))
            && (if |s.used| > 1 && Congruent(node, s.used[1])
                then free == [Merge(s.used[1], node)] + s.used[2..]
                else free == [node] + s.used[1..] && !Partitions(Space(free, free), start, length))
  {
    var node := s.used[0].(flags := 0);
    var free := AddNode(s.used[1..], s.used[0], false, []);
    forall p
      ensures Cover(free, p) == Cover(s.used, p)
    {
      AddNodeCover(s.used[1..], s.used[0], false, [], p);
    }
    var p := node.base;
    var owners := SpaceCover(s, p);
    if |s.used| > 1 && s.used[1].base == p {
      CoverOfTwo(s.used, 0, 1, p);
    }
    assert SpaceCover(Space(free, free), p) >= 2;
  }

  // ---------------------------------------------------------------- bounds

  /** Every node lies within [low, high). */
  predicate Bounded(list: seq<Node>, low: int, high: int) {
    forall i :: 0 <= i < |list| ==> low <= list[i].base && list[i].End() <= high
  }

  lemma {:induction false} PlaceBounded(list: seq<Node>, node: Node, used: bool, low: int, high: int)
    requires Bounded(list, low, high) && low <= node.base && node.End() <= high
    ensures Bounded(Place(list, node, used), low, high)
  {
    if list == [] || (!used && Congruent(node, list[0])) || list[0].base > node.base {
    } else {
      PlaceBounded(list[1..], node, used, low, high);
    }
  }

  lemma AddNodeBounded(list: seq<Node>, node: Node, used: bool, stale: seq<Node>, low: int, high: int)
    requires Bounded(list, low, high) && low <= node.base && node.End() <= high
    requires list == [] ==> Bounded(stale, low, high)
    ensures Bounded(AddNode(list, node, used, stale), low, high)
  {
    if list != [] {
      PlaceBounded(list, if used then node else node.(flags := 0), used, low, high);
    }
  }

  /** An allocation, even one that wastes bytes, stays within the bounds of the free list. */
  lemma AllocBounded(s: Space, memType: MemType, size: nat, flags: nat, low: int, high: int)
    requires Fits(s.free, size, flags) && Bounded(s.free, low, high) && Bounded(s.used, low, high)
    ensures low <= AllocBase(s.free, size, flags) && AllocBase(s.free, size, flags) + size <= high
    ensures var t := AfterAlloc(s, memType, size, flags); Bounded(t.free, low, high) && Bounded(t.used, low, high)
  {
    AllocGeometry(s.free, size, flags);
    var i := FirstFit(s.free, size + Pad(flags));
    var waste := Waste(s.free, size, flags);
    AddNodeBounded(s.used, Node(AllocBase(s.free, size, flags), size, flags, memType), true, [], low, high);
    if s.free[i].length != size {
      var free := s.free[i := Cut(s.free[i], size, waste)];
      AddNodeBounded(free, Node(s.free[i].base, waste, flags, memType), false, free[i..], low, high);
    }
  }

  // ---------------------------------------------------------------- the allocator

  /**
    Where a walk that has passed the first `head` nodes puts a node: at the end of the list, into
    the node it meets if that touches and the list is free, else in front of it.
    */
  lemma {:induction false} PlaceAt(list: seq<Node>, node: Node, used: bool, head: nat)
    requires head <= |list|
    requires forall j :: 0 <= j < head ==> (used || !Congruent(node, list[j])) && list[j].base <= node.base
    ensures head == |list| ==> Place(list, node, used) == list + [node]
    ensures head < |list| && !used && Congruent(node, list[head]) ==>
      Place(list, node, used)
      == list[..head]
       + [list[head].(base := Min(list[head].base, node.base), length := list[head].length + node.length)]
       + list[head + 1..]
    ensures head < |list| && (used || !Congruent(node, list[head])) && list[head].base > node.base ==>
      Place(list, node, used) == list[..head] + [node] + list[head..]
  {
    if head > 0 {
      PlaceAt(list[1..], node, used, head - 1);
    }
  }

  /** A search that has passed the first `i` nodes. */
  lemma {:induction false} FirstAroundAt(list: seq<Node>, base: int, end: int, i: nat)
    requires i <= |list|
    requires forall j :: 0 <= j < i ==> list[j].length > 0 && !(list[j].base <= base && end <= list[j].End())
    ensures i == |list| || list[i].length == 0 ==> FirstAround(list, base, end) == |list|
    ensures i < |list| && list[i].length > 0 && list[i].base <= base && end <= list[i].End() ==>
      FirstAround(list, base, end) == i
  {
    if i > 0 {
      FirstAroundAt(list[1..], base, end, i - 1);
    }
  }

  class AddressSpace {
    var free: seq<Node>
    var used: seq<Node>

    ghost function Contents(): Space
      reads this
    {
      Space(free, used)
    }

    ghost predicate Valid()
      reads this
    {
      Bounded(free, 0, U32 - 1) && Bounded(used, 0, U32 - 1)
    }

    /** `vasa_init` */
    constructor (start: int, length: nat, flags: nat, memType: MemType)
      requires 0 <= start && start + length < U32
      ensures Valid() && Contents() == Init(start, length, flags, memType)
    {
      free, used := [Node(start, length, flags, memType)], [];
    }

    /** `vasa_add_node`: walk the list for a neighbour to merge with, or for the place in the order. */
    method Add(node: Node, toUsed: bool, stale: seq<Node>)
      requires Valid() && 0 <= node.base && node.End() < U32
      requires (if toUsed then used else free) == [] ==> Bounded(stale, 0, U32 - 1)
      modifies this
      ensures Valid()
      ensures free == if toUsed then old(free) else AddNode(old(free), node, false, stale)
      ensures used == if toUsed then AddNode(old(used), node, true, stale) else old(used)
    {
      var list := if toUsed then used else free;
      AddNodeBounded(list, node, toUsed, stale, 0, U32 - 1);
      var placed := if toUsed then node else node.(flags := 0);
      var head := 0;
      while head < |list| && (toUsed || !Congruent(placed, list[head])) && list[head].base <= placed.base
        invariant 0 <= head <= |list|
        invariant forall j :: 0 <= j < head ==> (toUsed || !Congruent(placed, list[j])) && list[j].base <= placed.base
      {
        head := head + 1;
      }
      PlaceAt(list, placed, toUsed, head);
      if head == |list| {
        list := if list == [] then [placed] + stale else list + [placed];
      } else if !toUsed && Congruent(placed, list[head]) {
        list := list[..head] + [Merge(list[head], placed)] + list[head + 1..];
      } else {
        list := list[..head] + [placed] + list[head..];
      }
      if toUsed {
        used := list;
      } else {
        free := list;
      }
    }

    /** `vasa_alloc`: the base of the allocation, or 0 if nothing fits. */
    method Alloc(memType: MemType, size: nat, flags: nat) returns (ptr: int)
      requires Valid() && size + Pad(flags) < U32
      modifies this
      ensures Valid()
      ensures if Fits(old(free), size, flags)
              then ptr == AllocBase(old(free), size, flags) && Contents() == AfterAlloc(old(Contents()), memType, size, flags)
              else ptr == 0 && Contents() == old(Contents())
    {
      if size == 0 {
        return 0;
      }
      var pad := Pad(flags);
      var search := Wrap(size + pad);
      var i := 0;
      while i < |free|
        invariant 0 <= i <= |free|
        invariant forall j :: 0 <= j < i ==> free[j].length < search
        invariant Contents() == old(Contents())
      {
        if free[i].length >= search {
          ptr := Carve(i, memType, size, flags);
          return;
        }
        i := i + 1;
      }
      return 0;
    }

    /** The body of `vasa_alloc` once a node is found. */
    method Carve(i: nat, memType: MemType, size: nat, flags: nat) returns (ptr: int)
      requires Valid() && Fits(free, size, flags) && i == FirstFit(free, size + Pad(flags))
      modifies this
      ensures Valid() && ptr == AllocBase(old(free), size, flags)
      ensures Contents() == AfterAlloc(old(Contents()), memType, size, flags)
    {
      hide AddNode, FirstFit, Cover;
      AllocGeometry(free, size, flags);
      AllocBounded(Contents(), memType, size, flags, 0, U32 - 1);
      var pad := Pad(flags);
      var head, wasteBase, waste := free[i], free[i].base, 0;
      ptr := head.base;
      if pad > 0 {
        ptr := Wrap(head.base + pad - 1) - Wrap(head.base + pad - 1) % pad;
        waste := ptr - head.base;
        head := head.(length := head.length - waste);
      }
      if head.length > size {
        head := head.(length := head.length - size, base := head.base + size);
        free := free[i := head];
      } else {
        free := free[..i] + free[i + 1..];
      }
      Add(Node(ptr, size, flags, memType), true, []);
      if waste > 0 {
        Add(Node(wasteBase, waste, flags, memType), false, free[i..]);
      }
    }

    /** `vasa_dealloc` */
    method Dealloc(ptr: int)
      requires Valid()
      modifies this
      ensures Valid() && Contents() == AfterDealloc(old(Contents()), ptr)
    {
      var i := 0;
      while i < |used|
        invariant 0 <= i <= |used|
        invariant forall j :: 0 <= j < i ==> !(used[j].base <= ptr <= used[j].End())
        invariant Contents() == old(Contents())
      {
        if used[i].base <= ptr <= used[i].End() {
          var node, stale := used[i], used[i + 1..];
          used := used[..i] + used[i + 1..];
          Add(node, false, stale);
          return;
        }
        i := i + 1;
      }
    }

    /** The body of `vasa_mark` for a range that is the whole of a node. */
    method Move(i: nat, toUsed: bool, flags: nat)
      requires Valid() && i < |Source(Contents(), toUsed)|
      modifies this
      ensures Valid() && Contents() == AfterMove(old(Contents()), i, toUsed, flags)
    {
      if toUsed {
        var head, stale := free[i], free[i + 1..];
        free := free[..i] + free[i + 1..];
        Add(head.(flags := flags), true, stale);
      } else {
        var head, stale := used[i], used[i + 1..];
        used := used[..i] + used[i + 1..];
        Add(head.(flags := flags), false, stale);
      }
    }

    /** The body of `vasa_mark` for a range that is only part of a node. */
    method Split(i: nat, middle: Node, toUsed: bool, stale: seq<Node>)
      requires Valid() && Bounded(stale, 0, U32 - 1) && i < |Source(Contents(), toUsed)|
      requires Source(Contents(), toUsed)[i].base <= middle.base
      requires middle.End() <= Source(Contents(), toUsed)[i].End()
      modifies this
      ensures Valid() && Contents() == AfterSplit(old(Contents()), i, middle, toUsed, stale)
    {
      if toUsed {
        var head := free[i];
        free := free[i := Before(head, middle)];
        Add(middle, true, stale);
        Add(After(head, middle), false, []);
      } else {
        var head := used[i];
        used := used[i := Before(head, middle)];
        Add(middle, false, stale);
        Add(After(head, middle), true, []);
      }
    }

    /** `vasa_mark`, except for an exact match at the head of a list. */
    method Mark(base: int, length: nat, toUsed: bool, flags: nat, memType: MemType, stale: seq<Node>) returns (done: bool)
      requires Valid() && 0 <= base && base + length < U32 && Bounded(stale, 0, U32 - 1)
      requires !ExactFirst(Contents(), base, length, toUsed)
      modifies this
      ensures Valid() && done == Found(old(Contents()), base, length, toUsed)
      ensures Contents() == AfterMark(old(Contents()), Node(base, length, flags, memType), toUsed, stale)
    {
      hide AfterMove, AfterSplit, FirstAround;
      var list := if toUsed then free else used;
      var i := Search(list, base, base + length);
      if i == |list| {
        return false;
      }
      if base == list[i].base && base + length == list[i].End() {
        Move(i, toUsed, flags);
      } else {
        Split(i, Node(base, length, flags, memType), toUsed, stale);
      }
      return true;
    }
  }

  /** The walk of `vasa_mark` down one list. */
  method Search(list: seq<Node>, base: int, end: int) returns (i: nat)
    ensures i == FirstAround(list, base, end)
  {
    i := 0;
    while i < |list|
      invariant 0 <= i <= |list|
      invariant forall j :: 0 <= j < i ==> list[j].length > 0 && !(list[j].base <= base && end <= list[j].End())
    {
      FirstAroundAt(list, base, end, i);
      if list[i].base >= list[i].End() {
        return |list|;
      }
      if base >= list[i].base && end <= list[i].End() {
        return;
      }
      i := i + 1;
    }
    FirstAroundAt(list, base, end, i);
  }
}

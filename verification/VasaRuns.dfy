/** What every run of the address space allocator keeps: the partition and the order of its lists. */
module VasaRuns {
  import opened Word32
  import opened Vasa

  datatype Op =
    | Alloc(memType: MemType, size: nat, flags: nat)
    | Dealloc(ptr: int)
    | Mark(middle: Node, used: bool, stale: seq<Node>)

  /**
    What a caller has to check before each call: an allocation wastes nothing, and no list is
    empty at the moment a node with a live link is put into it. Marking the whole of the first
    node of a list is ruled out altogether.
    */
  predicate Guard(s: Space, op: Op) {
    match op
    case Alloc(memType, size, flags) =>
      Fits(s.free, size, flags) && Pad(flags) > 0 ==> Chosen(s.free, size, flags).base % Pad(flags) == 0
    case Dealloc(ptr) => DeallocGuard(s, ptr)
    case Mark(middle, used, stale) =>
      && !ExactFirst(s, middle.base, middle.length, used)
      && MarkGuard(s, middle.base, middle.length, used, stale)
  }

  function Step(s: Space, op: Op): Space
    requires Guard(s, op)
  {
    match op
    case Alloc(memType, size, flags) => if Fits(s.free, size, flags) then AfterAlloc(s, memType, size, flags) else s
    case Dealloc(ptr) => AfterDealloc(s, ptr)
    case Mark(middle, used, stale) => AfterMark(s, middle, used, stale)
  }

  ghost predicate Guarded(s: Space, ops: seq<Op>)
    decreases |ops|
  {
    ops == [] || (Guard(s, ops[0]) && Guarded(Step(s, ops[0]), ops[1..]))
  }

  ghost function Run(s: Space, ops: seq<Op>): Space
    requires Guarded(s, ops)
    decreases |ops|
  {
    if ops == [] then s else Run(Step(s, ops[0]), ops[1..])
  }

  lemma AllocKeepsCover(s: Space, memType: MemType, size: nat, flags: nat, p: int)
    requires Fits(s.free, size, flags) && Guard(s, Alloc(memType, size, flags))
    ensures SpaceCover(AfterAlloc(s, memType, size, flags), p) == SpaceCover(s, p)
  {
    hide AfterAlloc, FirstFit, AlignUp, Cover;
    AllocCover(s, memType, size, flags, p);
    if Pad(flags) > 0 {
      AlignUpIsLeastMultiple(Chosen(s.free, size, flags).base, Pad(flags));
    }
  }

  lemma MarkKeepsCover(s: Space, middle: Node, used: bool, stale: seq<Node>, p: int)
    requires Guard(s, Mark(middle, used, stale))
    ensures SpaceCover(AfterMark(s, middle, used, stale), p) == SpaceCover(s, p)
  {
    hide AfterMark, FirstAround;
    if Found(s, middle.base, middle.length, used) {
      MarkMoves(s, middle, used, stale, p);
    } else {
      MarkNotFound(s, middle, used, stale);
    }
  }

  lemma StepCover(s: Space, op: Op, p: int)
    requires Guard(s, op)
    ensures SpaceCover(Step(s, op), p) == SpaceCover(s, p)
  {
    hide AfterAlloc, AfterDealloc, AfterMark, SpaceCover, Fits;
    match op
    case Alloc(memType, size, flags) =>
      if Fits(s.free, size, flags) {
        AllocKeepsCover(s, memType, size, flags, p);
      }
    case Dealloc(ptr) => DeallocCover(s, ptr, p);
    case Mark(middle, used, stale) => MarkKeepsCover(s, middle, used, stale, p);
  }

  /** Over every guarded run, free and used nodes are disjoint and together make up the region. */
  lemma {:induction false} RunPartitions(s: Space, ops: seq<Op>, start: int, length: nat)
    requires Partitions(s, start, length) && Guarded(s, ops)
    ensures Partitions(Run(s, ops), start, length)
    decreases |ops|
  {
    if ops != [] {
      forall p
        ensures SpaceCover(Step(s, ops[0]), p) == SpaceCover(s, p)
      {
        StepCover(s, ops[0], p);
      }
      RunPartitions(Step(s, ops[0]), ops[1..], start, length);
    }
  }

  lemma BootRunPartitions(start: int, length: nat, flags: nat, memType: MemType, ops: seq<Op>)
    requires Guarded(Init(start, length, flags, memType), ops)
    ensures Partitions(Run(Init(start, length, flags, memType), ops), start, length)
  {
    InitPartitions(start, length, flags, memType);
    RunPartitions(Init(start, length, flags, memType), ops, start, length);
  }

  // ---------------------------------------------------------------- order

  /** Both lists are sorted by base and hold no empty node. */
  predicate Ordered(s: Space) {
    Sorted(s.free) && Sorted(s.used) && Positive(s.free) && Positive(s.used)
  }

  /** A mark that takes a whole node, or leaves bytes on both sides of the range. */
  predicate StrictMark(s: Space, middle: Node, used: bool) {
    Found(s, middle.base, middle.length, used) ==>
      var node := Source(s, used)[FirstAround(Source(s, used), middle.base, middle.End())];
      middle.length > 0
      && (Exact(s, middle.base, middle.length, used) || (node.base < middle.base && middle.End() < node.End()))
  }

  predicate Strict(s: Space, op: Op) {
    op.Mark? ==> StrictMark(s, op.middle, op.used)
  }

  /** In a partition, sorted nodes that are not empty follow each other without overlapping. */
  lemma NextStartsAfter(s: Space, start: int, length: nat, i: nat, j: nat)
    requires Partitions(s, start, length) && Ordered(s) && i < j < |s.free|
    ensures s.free[i].End() <= s.free[j].base
  {
    var p := s.free[j].base;
    CoverOfTwo(s.free, i, j, p);
    var owners := SpaceCover(s, p);
  }

  lemma AddNodeOrdered(list: seq<Node>, node: Node, used: bool)
    requires Sorted(list) && Positive(list) && node.length > 0
    ensures var l := AddNode(list, node, used, []); Sorted(l) && Positive(l)
  {
    var node := if used then node else node.(flags := 0);
    if list != [] {
      PlaceSorted(list, node, used);
      PlacePositive(list, node, used);
    }
  }

  lemma AllocOrdered(s: Space, memType: MemType, size: nat, flags: nat, start: int, length: nat)
    requires Partitions(s, start, length) && Ordered(s)
    requires Fits(s.free, size, flags) && Guard(s, Alloc(memType, size, flags))
    ensures Ordered(AfterAlloc(s, memType, size, flags))
  {
    AllocGeometry(s.free, size, flags);
    if Pad(flags) > 0 {
      AlignUpIsLeastMultiple(Chosen(s.free, size, flags).base, Pad(flags));
    }
    var i := FirstFit(s.free, size + Pad(flags));
    AddNodeOrdered(s.used, Node(AllocBase(s.free, size, flags), size, flags, memType), true);
    if s.free[i].length != size {
      forall j | i < j < |s.free|
        ensures s.free[i].base + size <= s.free[j].base
      {
        NextStartsAfter(s, start, length, i, j);
      }
    }
  }

  lemma DeallocOrdered(s: Space, ptr: int)
    requires Ordered(s) && DeallocGuard(s, ptr)
    ensures Ordered(AfterDealloc(s, ptr))
  {
    var i := FirstHolding(s.used, ptr);
    if i < |s.used| {
      AddNodeOrdered(s.free, s.used[i], false);
      assert s.free == [] ==> s.used[i + 1..] == [];
    }
  }

  lemma SourceOrdered(source: seq<Node>, i: nat, middle: Node, used: bool)
    requires Sorted(source) && Positive(source) && i < |source|
    requires source[i].base < middle.base && middle.End() < source[i].End() && middle.length > 0
    ensures var l := AddNode(source[i := Before(source[i], middle)], After(source[i], middle), used, []);
            Sorted(l) && Positive(l)
  {
    var cut := source[i := Before(source[i], middle)];
    assert Sorted(cut) && Positive(cut);
    AddNodeOrdered(cut, After(source[i], middle), used);
  }

  lemma MoveOrdered(source: seq<Node>, target: seq<Node>, i: nat, used: bool, flags: nat)
    requires Sorted(source) && Positive(source) && Sorted(target) && Positive(target) && i < |source|
    requires target != [] || i + 1 == |source|
    ensures var l := AddNode(target, source[i].(flags := flags), used, source[i + 1..]); Sorted(l) && Positive(l)
    ensures Sorted(Removed(source, i)) && Positive(Removed(source, i))
  {
    AddNodeOrdered(target, source[i].(flags := flags), used);
    if target == [] {
      assert source[i + 1..] == [];
    }
  }

  lemma MarkOrdered(s: Space, middle: Node, used: bool, stale: seq<Node>)
    requires Ordered(s) && Guard(s, Mark(middle, used, stale)) && StrictMark(s, middle, used)
    ensures Ordered(AfterMark(s, middle, used, stale))
  {
    hide FirstAround, Place, Sorted, Positive;
    var source, target := Source(s, used), Target(s, used);
    var i := FirstAround(source, middle.base, middle.End());
    if Exact(s, middle.base, middle.length, used) {
      MoveOrdered(source, target, i, used, middle.flags);
    } else if i < |source| {
      AddNodeOrdered(target, middle, used);
      SourceOrdered(source, i, middle, !used);
      assert AddNode(target, middle, used, stale) == AddNode(target, middle, used, []);
    }
  }

  lemma {:induction false} PlaceKeeps(list: seq<Node>, node: Node, used: bool, i: nat)
    requires i < |list| && (used || !Congruent(node, list[i]))
    ensures list[i] in Place(list, node, used)
  {
    if (!used && Congruent(node, list[0])) || list[0].base > node.base {
      assert i > 0 ==> list[i] == list[1..][i - 1];
    } else if i > 0 {
      PlaceKeeps(list[1..], node, used, i - 1);
    }
  }

  lemma {:induction false} PlaceStores(list: seq<Node>, node: Node, used: bool)
    requires used || forall j :: 0 <= j < |list| ==> !Congruent(node, list[j])
    ensures node in Place(list, node, used)
  {
    if list == [] || list[0].base > node.base {
    } else {
      PlaceStores(list[1..], node, used);
    }
  }

  lemma NoOtherEndsThere(s: Space, used: bool, i: nat, j: nat, start: int, length: nat)
    requires Partitions(s, start, length) && Ordered(s)
    requires i < |Source(s, used)| && j < |Source(s, used)| && i != j
    ensures Source(s, used)[j].End() != Source(s, used)[i].End()
  {
    var source := Source(s, used);
    var p := source[i].End() - 1;
    var owners := SpaceCover(s, p);
    if source[j].End() == source[i].End() {
      CoverOfTwo(source, if i < j then i else j, if i < j then j else i, p);
    }
  }

  /** A mark that cuts a node in two keeps the order exactly when bytes are left on both sides. */
  lemma SplitOrderedExactly(s: Space, middle: Node, used: bool, stale: seq<Node>, start: int, length: nat)
    requires Partitions(s, start, length) && Ordered(s) && Guard(s, Mark(middle, used, stale))
    requires Found(s, middle.base, middle.length, used) && !Exact(s, middle.base, middle.length, used)
    requires middle.length > 0
    ensures Ordered(AfterMark(s, middle, used, stale)) <==> StrictMark(s, middle, used)
  {
    var source := Source(s, used);
    var i := FirstAround(source, middle.base, middle.End());
    var before, after := Before(source[i], middle), After(source[i], middle);
    var cut := source[i := before];
    var placed := if used then after.(flags := 0) else after;
    var t := AfterMark(s, middle, used, stale);
    if StrictMark(s, middle, used) {
      MarkOrdered(s, middle, used, stale);
    } else if before.length == 0 {
      PlaceKeeps(cut, placed, !used, i);
      assert before in Source(t, used);
    } else {
      assert after.length == 0;
      forall j | 0 <= j < |cut| && used
        ensures !Congruent(placed, cut[j])
      {
        if j != i {
          NoOtherEndsThere(s, used, i, j, start, length);
        }
      }
      PlaceStores(cut, placed, !used);
      assert placed in Source(t, used);
    }
  }

  /** A range marked used is recorded with its flags. */
  lemma MarkRecords(s: Space, middle: Node, stale: seq<Node>)
    requires !ExactFirst(s, middle.base, middle.length, true) && Found(s, middle.base, middle.length, true)
    ensures exists n :: n in AfterMark(s, middle, true, stale).used
                        && n.base == middle.base && n.length == middle.length && n.flags == middle.flags
  {
    var i := FirstAround(s.free, middle.base, middle.End());
    var node := if Exact(s, middle.base, middle.length, true) then s.free[i].(flags := middle.flags) else middle;
    PlaceStores(s.used, node, true);
    assert node in AfterMark(s, middle, true, stale).used;
  }

  /** Cutting a range out of a used node leaves the rest behind it used, with the flags of the node. */
  lemma UnmarkKeepsRest(s: Space, middle: Node, stale: seq<Node>)
    requires Found(s, middle.base, middle.length, false) && !Exact(s, middle.base, middle.length, false)
    ensures var node := s.used[FirstAround(s.used, middle.base, middle.base + middle.length)];
            exists n :: n in AfterMark(s, middle, false, stale).used
                        && n.base == middle.base + middle.length && n.base + n.length == node.base + node.length
                        && n.flags == node.flags
  {
    var i := FirstAround(s.used, middle.base, middle.End());
    var rest := After(s.used[i], middle);
    PlaceStores(s.used[i := Before(s.used[i], middle)], rest, true);
    assert rest in AfterMark(s, middle, false, stale).used;
  }

  const TWO_NEIGHBOURS := Space([Node(0x1000, 0x1000, 0, Ram), Node(0x2000, 0x2000, 0, Ram)], [Node(0x4000, 0x1000, 0, Ram)])
  const EDGE := Node(0x1800, 0x800, 0, Ram)
  const EMPTY_NODE := Node(0x2000, 0, 0, Ram)

  /** Marking up to the edge of a node leaves an empty node, here behind the neighbour it starts with. */
  lemma EdgeMarkLeavesEmptyNode()
    ensures Ordered(TWO_NEIGHBOURS) && Guard(TWO_NEIGHBOURS, Mark(EDGE, true, []))
    ensures Step(TWO_NEIGHBOURS, Mark(EDGE, true, [])).free
         == [Node(0x1000, 0x800, 0, Ram), Node(0x2000, 0x2000, 0, Ram), EMPTY_NODE]
  {
    var s := TWO_NEIGHBOURS;
    assert FirstAround(s.free, 0x1800, 0x2000) == 0;
    var cut := [Node(0x1000, 0x800, 0, Ram), Node(0x2000, 0x2000, 0, Ram)];
    assert s.free[0 := Before(s.free[0], EDGE)] == cut;
    PlaceAt(cut, EMPTY_NODE, false, 2);
  }

  /** An allocation from the neighbour then moves its base past the empty node, and the order is lost. */
  lemma EmptyNodeUnsorts(s: Space)
    requires s.free == [Node(0x1000, 0x800, 0, Ram), Node(0x2000, 0x2000, 0, Ram), EMPTY_NODE]
    ensures Guard(s, Alloc(Ram, 0x1000, 0)) && Sorted(s.free) && !Sorted(Step(s, Alloc(Ram, 0x1000, 0)).free)
  {
    assert FirstFit(s.free, 0x1000) == 1;
    var t := Step(s, Alloc(Ram, 0x1000, 0));
    assert t.free[1].base == 0x3000 && t.free[2].base == 0x2000;
  }

  ghost predicate AllStrict(s: Space, ops: seq<Op>)
    requires Guarded(s, ops)
    decreases |ops|
  {
    ops == [] || (Strict(s, ops[0]) && AllStrict(Step(s, ops[0]), ops[1..]))
  }

  /** Over every guarded run whose marks are strict, the lists stay sorted and free of empty nodes. */
  lemma {:induction false} RunOrdered(s: Space, ops: seq<Op>, start: int, length: nat)
    requires Partitions(s, start, length) && Ordered(s) && Guarded(s, ops) && AllStrict(s, ops)
    ensures Ordered(Run(s, ops))
    decreases |ops|
  {
    if ops != [] {
      match ops[0] {
        case Alloc(memType, size, flags) =>
          if Fits(s.free, size, flags) {
            AllocOrdered(s, memType, size, flags, start, length);
          }
        case Dealloc(ptr) => DeallocOrdered(s, ptr);
        case Mark(middle, used, stale) => MarkOrdered(s, middle, used, stale);
      }
      RunPartitions(s, [ops[0]], start, length);
      assert Run(s, [ops[0]]) == Step(s, ops[0]);
      RunOrdered(Step(s, ops[0]), ops[1..], start, length);
    }
  }
}

/**
  Objects as byte ranges. The last slot of a slab reaches past its end, into the header of the slab
  behind it and, if the overhang is larger than that, into its first object.
  */
module SlubBytes {
  import opened Arithmetic
  import opened Slub
  import opened SlubCache

  /** The slots of a slab, the topmost included, take no more bytes than a slab has. */
  predicate SlotsFit(objectSize: nat)
    requires objectSize > 0
  {
    (ObjectCount(objectSize) + 1) * objectSize <= SLAB_SIZE
  }

  /** No two objects share a byte. */
  ghost predicate Apart(objects: set<nat>, objectSize: nat) {
    forall x, y :: x in objects && y in objects && x < y ==> x + objectSize <= y
  }

  lemma SameSlabApart(slab: nat, objectSize: nat, x: nat, y: nat)
    requires objectSize > 0 && x in AllSlots(slab, objectSize) && y in AllSlots(slab, objectSize) && x < y
    ensures x + objectSize <= y
  {
    var list := AllSlots(slab, objectSize);
    var i :| 0 <= i < |list| && list[i] == x;
    var j :| 0 <= j < |list| && list[j] == y;
    if i < j {
      MultipleStep(i, j, objectSize);
    } else {
      MultipleOrder(j, i, objectSize);
    }
  }

  lemma TopEnds(slab: nat, objectSize: nat)
    requires objectSize > 0
    ensures Top(slab, objectSize) + objectSize == slab + HEADER + (ObjectCount(objectSize) + 1) * objectSize
  {
    var n := ObjectCount(objectSize);
    assert (n + 1) * objectSize == n * objectSize + objectSize;
  }

  lemma OtherSlabApart(a: nat, b: nat, objectSize: nat, x: nat, y: nat)
    requires objectSize > 0 && SlotsFit(objectSize) && IsSlab(a) && IsSlab(b) && a != b
    requires x in AllSlots(a, objectSize) && y in AllSlots(b, objectSize) && x < y
    ensures x + objectSize <= y
  {
    AllSlotsAscend(a, objectSize);
    AllSlotsAscend(b, objectSize);
    TopEnds(a, objectSize);
    assert a < b;
    assert a + SLAB_SIZE <= b;
  }

  /** Where the slots fit, live objects share no byte. */
  lemma LiveApart(s: Cache, objectSize: nat)
    requires objectSize > 0 && Sound(s, objectSize) && SlotsFit(objectSize)
    ensures Apart(s.live, objectSize)
  {
    hide SlotsFit, AllSlots, Complement;
    forall x, y | x in s.live && y in s.live && x < y
      ensures x + objectSize <= y
    {
      var a, b := SlabOf(x), SlabOf(y);
      assert a in Slabs(s.lists) && b in Slabs(s.lists);
      if a == b {
        SameSlabApart(a, objectSize, x, y);
      } else {
        OtherSlabApart(a, b, objectSize, x, y);
      }
    }
  }

  // ---------------------------------------------------------------- using up a slab

  /** A new cache after `k` objects of its one slab are taken. */
  function Drained(objectSize: nat, slab: nat, k: nat): Cache
    requires objectSize > 0 && k <= ObjectCount(objectSize) + 1
  {
    var all := AllSlots(slab, objectSize);
    var free := map[slab := all[k..]];
    Cache(if k == 0 then Lists([], [], [slab], free)
          else if k <= ObjectCount(objectSize) then Lists([], [slab], [], free)
          else Lists([slab], [], [], free),
          ToSet(all[..k]))
  }

  const TAKE := SlubCache.Op.Alloc(0, 0)

  lemma DrainedShelved(objectSize: nat, slab: nat, k: nat)
    requires objectSize > 0 && IsSlab(slab) && k <= ObjectCount(objectSize) + 1
    ensures Shelved(Drained(objectSize, slab, k).lists, objectSize)
  {
    var all := AllSlots(slab, objectSize);
    assert all[0..] == all;
    hide AllSlots, ObjectCount, IsSlab;
  }

  lemma TakeOne(objectSize: nat, slab: nat, k: nat)
    requires objectSize > 0 && IsSlab(slab) && k <= ObjectCount(objectSize)
    requires Shelved(Drained(objectSize, slab, k).lists, objectSize)
    ensures SlubCache.Step(Drained(objectSize, slab, k), TAKE, objectSize, 0) == Drained(objectSize, slab, k + 1)
  {
    var s, all := Drained(objectSize, slab, k), AllSlots(slab, objectSize);
    assert |all| == ObjectCount(objectSize) + 1;
    hide AllSlots, ObjectCount, IsSlab, Shelved;
    assert all[k..][1..] == all[k + 1..] && all[k..][0] == all[k];
    assert all[..k + 1] == all[..k] + [all[k]];
    assert ToSet(all[..k + 1]) == ToSet(all[..k]) + {all[k]};
    var t := SlubCache.Step(s, TAKE, objectSize, 0);
    assert t.lists.free == map[slab := all[k + 1..]];
  }

  /** The run that uses up one slab and then takes an object of another. */
  function DrainAndTake(left: nat, other: nat): seq<SlubCache.Op> {
    if left == 0 then [SlubCache.Op.Alloc(other, 0)] else [TAKE] + DrainAndTake(left - 1, other)
  }

  /** A run can be made, and leaves two objects live. */
  ghost predicate BothLive(s: Cache, ops: seq<SlubCache.Op>, objectSize: nat, x: nat, y: nat)
    requires objectSize > 0
  {
    SlubCache.Runnable(s, ops, objectSize, 0)
    && x in SlubCache.Run(s, ops, objectSize, 0).live && y in SlubCache.Run(s, ops, objectSize, 0).live
  }

  lemma TakeOther(objectSize: nat, slab: nat, other: nat)
    requires objectSize > 0 && IsSlab(slab) && IsSlab(other) && slab != other
    ensures var s := Drained(objectSize, slab, ObjectCount(objectSize) + 1);
            BothLive(s, [SlubCache.Op.Alloc(other, 0)], objectSize, Top(slab, objectSize), other + HEADER)
  {
    var n := ObjectCount(objectSize);
    var s, all, ops := Drained(objectSize, slab, n + 1), AllSlots(slab, objectSize), [SlubCache.Op.Alloc(other, 0)];
    DrainedShelved(objectSize, slab, n + 1);
    assert all[n] == Top(slab, objectSize) && all[..n + 1] == all;
    assert all[n] in s.live;
    assert AllSlots(other, objectSize)[0] == other + HEADER;
    assert Allocated(s.lists, objectSize, other) == other + HEADER;
    AllocShelved(s.lists, objectSize, 0, other, 0);
    var t := SlubCache.Step(s, ops[0], objectSize, 0);
    assert ops[1..] == [];
    hide AllSlots, ObjectCount, IsSlab, Shelved, Drained, SlubCache.Step, Top;
    assert SlubCache.Runnable(t, [], objectSize, 0);
    assert SlubCache.Run(s, ops, objectSize, 0) == SlubCache.Run(t, [], objectSize, 0) == t;
  }

  lemma RunFirst(s: Cache, op: SlubCache.Op, rest: seq<SlubCache.Op>, objectSize: nat, x: nat, y: nat)
    requires objectSize > 0 && Shelved(s.lists, objectSize) && SlubCache.Enabled(s, op, objectSize)
    requires BothLive(SlubCache.Step(s, op, objectSize, 0), rest, objectSize, x, y)
    ensures BothLive(s, [op] + rest, objectSize, x, y)
  {
    hide Shelved, SlubCache.Step, SlubCache.Enabled;
    assert ([op] + rest)[0] == op && ([op] + rest)[1..] == rest;
  }

  lemma {:induction false} DrainRuns(objectSize: nat, slab: nat, other: nat, total: nat, left: nat)
    requires objectSize > 0 && IsSlab(slab) && IsSlab(other) && slab != other
    requires left <= total == ObjectCount(objectSize) + 1
    ensures BothLive(Drained(objectSize, slab, total - left), DrainAndTake(left, other), objectSize,
                     Top(slab, objectSize), other + HEADER)
    decreases left
  {
    hide ObjectCount, Drained, Shelved, Top, IsSlab, BothLive, SlubCache.Step;
    if left == 0 {
      TakeOther(objectSize, slab, other);
    } else {
      DrainedShelved(objectSize, slab, total - left);
      TakeOne(objectSize, slab, total - left);
      DrainRuns(objectSize, slab, other, total, left - 1);
      RunFirst(Drained(objectSize, slab, total - left), TAKE, DrainAndTake(left - 1, other), objectSize,
               Top(slab, objectSize), other + HEADER);
    }
  }

  /** Over all runs of all new caches, wherever their slabs lie, live objects share no byte. */
  ghost predicate AlwaysApart(objectSize: nat)
    requires objectSize > 0
  {
    forall slab: nat, ops: seq<SlubCache.Op>, min: nat ::
      IsSlab(slab) && SlubCache.Runnable(NewCache(objectSize, slab), ops, objectSize, min)
      ==> Apart(SlubCache.Run(NewCache(objectSize, slab), ops, objectSize, min).live, objectSize)
  }

  /** They do exactly if the slots take no more bytes than a slab. */
  lemma LiveApartExactly(objectSize: nat)
    requires objectSize > 0
    ensures AlwaysApart(objectSize) <==> SlotsFit(objectSize)
  {
    hide SlubCache.Run, SlubCache.Runnable, NewCache, Sound, Top, ObjectCount;
    if SlotsFit(objectSize) {
      forall slab: nat, ops: seq<SlubCache.Op>, min: nat |
        IsSlab(slab) && SlubCache.Runnable(NewCache(objectSize, slab), ops, objectSize, min)
        ensures Apart(SlubCache.Run(NewCache(objectSize, slab), ops, objectSize, min).live, objectSize)
      {
        NewCacheRunSound(objectSize, slab, ops, min);
        LiveApart(SlubCache.Run(NewCache(objectSize, slab), ops, objectSize, min), objectSize);
      }
    } else {
      var slab, other := SLAB_SIZE, 2 * SLAB_SIZE;
      var total := ObjectCount(objectSize) + 1;
      DrainRuns(objectSize, slab, other, total, total);
      DrainedNew(objectSize, slab);
      TopEnds(slab, objectSize);
      TopBelow(slab, objectSize);
      var ops := DrainAndTake(ObjectCount(objectSize) + 1, other);
      var live := SlubCache.Run(NewCache(objectSize, slab), ops, objectSize, 0).live;
      assert !Apart(live, objectSize);
    }
  }

  lemma DrainedNew(objectSize: nat, slab: nat)
    requires objectSize > 0 && slab != 0
    ensures Drained(objectSize, slab, 0) == NewCache(objectSize, slab)
  {
    var all := AllSlots(slab, objectSize);
    assert all[0..] == all;
  }

  lemma TopBelow(slab: nat, objectSize: nat)
    requires objectSize > 0
    ensures Top(slab, objectSize) < slab + SLAB_SIZE
  {
    AllSlotsAscend(slab, objectSize);
  }

  /** The topmost object can reach into the header behind its slab without meeting an object there. */
  lemma HeaderOverrunWithoutOverlap(slab: nat)
    ensures SlotsFit(5) && Top(slab, 5) + 5 > slab + SLAB_SIZE
  {
    assert ObjectCount(5) == 1636;
  }

  // ---------------------------------------------------------------- the word that ends a list

  /** The word that ends the list of a fresh slab is stored inside the slab exactly if enough bytes are left over. */
  lemma EndWordInsideExactly(slab: nat, objectSize: nat)
    requires objectSize > 0
    ensures Top(slab, objectSize) + 4 <= slab + SLAB_SIZE <==> (SLAB_SIZE - HEADER - 1) % objectSize >= 3
  {
    var n := ObjectCount(objectSize);
    assert SLAB_SIZE - HEADER - 1 == n * objectSize + (SLAB_SIZE - HEADER - 1) % objectSize;
  }

  /** For objects of 49 bytes it is not. */
  lemma EndWordOutside(slab: nat)
    ensures Top(slab, 49) + 4 > slab + SLAB_SIZE
  {
    EndWordInsideExactly(slab, 49);
  }
}

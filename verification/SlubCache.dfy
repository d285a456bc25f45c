/**
  The slabs of one cache on one processor: a full, a semi and an empty list. The lists are
  linked through the first header word of a slab, which also carries the slab's object count in
  its low twelve bits. The free list inside each slab is the one of module Slub.
  */
module SlubCache {
  import opened Slub

  const COUNT_LIMIT := 4096

  // ---------------------------------------------------------------- packed words

  /** `SLAB_CREATE_NEXT`: for an aligned address and a small count the bits are disjoint. */
  function Pack(next: nat, count: nat): nat {
    next + count
  }

  function NextOf(word: nat): nat {
    word - word % COUNT_LIMIT
  }

  function CountOf(word: nat): nat {
    word % COUNT_LIMIT
  }

  /** Both halves of a packed word survive exactly when the count is below 4096. */
  lemma PackUnpack(next: nat, count: nat)
    requires next % COUNT_LIMIT == 0
    ensures NextOf(Pack(next, count)) == next && CountOf(Pack(next, count)) == count <==> count < COUNT_LIMIT
  {
  }

  /** The object count of a slab can be packed for every object size but one. */
  lemma ObjectCountPacks(objectSize: nat)
    requires 0 < objectSize
    ensures ObjectCount(objectSize) < COUNT_LIMIT <==> objectSize >= 2
  {
    var n := ObjectCount(objectSize);
    assert n * objectSize <= 8183 < n * objectSize + objectSize;
    hide ObjectCount;
    if objectSize >= 2 {
      assert n * 2 <= n * objectSize;
    }
  }

  // ---------------------------------------------------------------- the lists

  /** The three lists, and the free list of every slab. */
  datatype Lists = Lists(full: seq<nat>, semi: seq<nat>, empty: seq<nat>, free: map<nat, seq<nat>>)

  function Slabs(l: Lists): seq<nat> {
    l.full + l.semi + l.empty
  }

  predicate IsSlab(slab: nat) {
    slab != 0 && slab % SLAB_SIZE == 0
  }

  predicate NoRepeats(list: seq<nat>) {
    forall i, j :: 0 <= i < j < |list| ==> list[i] != list[j]
  }

  /** Every slab is on one list only, and on the right one. */
  ghost predicate Shelved(l: Lists, objectSize: nat)
    requires objectSize > 0
  {
    && NoRepeats(l.full) && NoRepeats(l.empty) && |l.semi| <= 1
    && (forall s :: s in l.full ==> s !in l.semi && s !in l.empty)
    && (forall s :: s in l.semi ==> s !in l.empty)
    && (forall s :: s in Slabs(l) ==> IsSlab(s) && s in l.free)
    && (forall s :: s in l.full ==> l.free[s] == [])
    && (forall s :: s in l.semi ==> l.free[s] != [])
    && (forall s :: s in l.empty ==> l.free[s] == AllSlots(s, objectSize))
  }

  // ---------------------------------------------------------------- allocation

  /** A slab to allocate from is put on the semi list: an empty one, else a new one. */
  function Ready(l: Lists, objectSize: nat, newSlab: nat): Lists
    requires objectSize > 0
  {
    if l.semi != [] then l
    else if l.empty != [] then l.(semi := [l.empty[0]], empty := l.empty[1..])
    else if newSlab == 0 then l
    else l.(semi := [newSlab], free := l.free[newSlab := AllSlots(newSlab, objectSize)])
  }

  /** The first object of the semi slab is taken; a slab that is used up moves to the full list. */
  function Pop(l: Lists): Lists
    requires l.semi != [] && l.semi[0] in l.free && l.free[l.semi[0]] != []
  {
    var slab := l.semi[0];
    var rest := l.free[slab][1..];
    if rest == [] then l.(full := [slab] + l.full, semi := l.semi[1..], free := l.free[slab := rest])
    else l.(free := l.free[slab := rest])
  }

  function FreeOf(l: Lists, list: seq<nat>): nat {
    if list == [] then 0
    else (if list[0] in l.free then |l.free[list[0]]| else 0) + FreeOf(l, list[1..])
  }

  /** `mem_cache_free_count`: semi slabs are counted, empty ones taken at their object count. */
  function FreeCount(l: Lists, objectSize: nat): nat
    requires objectSize > 0
  {
    FreeOf(l, l.semi) + |l.empty| * ObjectCount(objectSize)
  }

  /** A spare slab is added when fewer than `min` objects are free. */
  function Refill(l: Lists, objectSize: nat, min: nat, spare: nat): Lists
    requires objectSize > 0
  {
    if min > 0 && FreeCount(l, objectSize) < min && spare != 0
    then l.(empty := [spare] + l.empty, free := l.free[spare := AllSlots(spare, objectSize)])
    else l
  }

  predicate CanAlloc(l: Lists, newSlab: nat) {
    l.semi != [] || l.empty != [] || newSlab != 0
  }

  function Allocated(l: Lists, objectSize: nat, newSlab: nat): nat
    requires objectSize > 0 && Shelved(l, objectSize) && CanAlloc(l, newSlab)
  {
    var r := Ready(l, objectSize, newSlab);
    r.free[r.semi[0]][0]
  }

  function AfterAlloc(l: Lists, objectSize: nat, min: nat, newSlab: nat, spare: nat): Lists
    requires objectSize > 0 && Shelved(l, objectSize) && CanAlloc(l, newSlab)
  {
    Refill(Pop(Ready(l, objectSize, newSlab)), objectSize, min, spare)
  }

  /** New slabs come from `memmap`: aligned, and none that the cache has. */
  predicate New(l: Lists, slab: nat) {
    slab != 0 ==> IsSlab(slab) && slab !in l.free && slab !in Slabs(l)
  }

  lemma ReadyShelved(l: Lists, objectSize: nat, newSlab: nat)
    requires objectSize > 0 && Shelved(l, objectSize) && New(l, newSlab)
    ensures Shelved(Ready(l, objectSize, newSlab), objectSize)
  {
    if l.semi == [] && l.empty != [] {
      assert l.empty == [l.empty[0]] + l.empty[1..];
    }
  }

  lemma PopShelved(l: Lists, objectSize: nat)
    requires objectSize > 0 && Shelved(l, objectSize) && l.semi != []
    ensures Shelved(Pop(l), objectSize)
    ensures forall s :: s in Slabs(Pop(l)) <==> s in Slabs(l)
  {
    assert l.semi == [l.semi[0]];
  }

  /** Once a slab is ready, taking an object from it is possible and makes no slab known or unknown. */
  lemma ReadyKnows(l: Lists, objectSize: nat, newSlab: nat, spare: nat)
    requires objectSize > 0 && Shelved(l, objectSize) && New(l, newSlab) && CanAlloc(l, newSlab)
    requires New(Ready(l, objectSize, newSlab), spare)
    ensures var r := Ready(l, objectSize, newSlab);
            r.semi != [] && r.semi[0] in r.free && r.free[r.semi[0]] != [] && New(Pop(r), spare)
  {
    ReadyShelved(l, objectSize, newSlab);
    PopShelved(Ready(l, objectSize, newSlab), objectSize);
  }

  lemma RefillShelved(l: Lists, objectSize: nat, min: nat, spare: nat)
    requires objectSize > 0 && Shelved(l, objectSize) && New(l, spare)
    ensures Shelved(Refill(l, objectSize, min, spare), objectSize)
  {
  }

  lemma AllocShelved(l: Lists, objectSize: nat, min: nat, newSlab: nat, spare: nat)
    requires objectSize > 0 && Shelved(l, objectSize) && CanAlloc(l, newSlab)
    requires New(l, newSlab) && New(Ready(l, objectSize, newSlab), spare)
    ensures Shelved(AfterAlloc(l, objectSize, min, newSlab, spare), objectSize)
  {
    ReadyShelved(l, objectSize, newSlab);
    PopShelved(Ready(l, objectSize, newSlab), objectSize);
    RefillShelved(Pop(Ready(l, objectSize, newSlab)), objectSize, min, spare);
  }

  // ---------------------------------------------------------------- freeing

  /** `SLAB_FROM_OBJ` */
  function SlabOf(item: nat): nat {
    item - item % SLAB_SIZE
  }

  /** The slab of a live object can take it back: its list is not empty. */
  predicate CanFree(l: Lists, item: nat) {
    SlabOf(item) in l.free && l.free[SlabOf(item)] != []
  }

  /** The walk of `mem_cache_dealloc` finds a place for the object before it runs off the end. */
  predicate Insertable(l: Lists, item: nat) {
    CanFree(l, item) &&
    var free := l.free[SlabOf(item)];
    item !in free && item < free[|free| - 1]
  }

  function AfterFree(l: Lists, item: nat): Lists
    requires CanFree(l, item)
  {
    l.(free := l.free[SlabOf(item) := Insert(l.free[SlabOf(item)], item)])
  }

  // ---------------------------------------------------------------- objects

  datatype Cache = Cache(lists: Lists, live: set<nat>)

  ghost predicate Complement(free: seq<nat>, slab: nat, objectSize: nat, live: set<nat>)
    requires objectSize > 0
  {
    && Ascending(free)
    && (free != [] ==> free[|free| - 1] == Top(slab, objectSize))
    && forall x :: x in free <==> x in AllSlots(slab, objectSize) && x !in live
  }

  /**
    In every slab, the free list holds exactly the slots that are not live, in ascending order,
    and unless it is empty it ends with the topmost slot.
    */
  ghost predicate Sound(s: Cache, objectSize: nat)
    requires objectSize > 0
  {
    && Shelved(s.lists, objectSize)
    && (forall slab :: slab in s.lists.free ==> slab in Slabs(s.lists))
    && (forall x :: x in s.live ==> SlabOf(x) in s.lists.free && x in AllSlots(SlabOf(x), objectSize))
    && (forall slab :: slab in s.lists.free ==> Complement(s.lists.free[slab], slab, objectSize, s.live))
  }

  lemma SlotsFindSlab(slab: nat, objectSize: nat)
    requires objectSize > 0 && IsSlab(slab)
    ensures Ascending(AllSlots(slab, objectSize)) && forall x :: x in AllSlots(slab, objectSize) ==> SlabOf(x) == slab
  {
    AllSlotsAscend(slab, objectSize);
  }

  /** A new slab is sound whichever list it joins: nothing in it is live. */
  lemma NewSlabComplement(s: Cache, objectSize: nat, slab: nat)
    requires objectSize > 0 && Sound(s, objectSize) && New(s.lists, slab) && slab != 0
    ensures Complement(AllSlots(slab, objectSize), slab, objectSize, s.live)
  {
    SlotsFindSlab(slab, objectSize);
  }

  lemma ReadySound(s: Cache, objectSize: nat, newSlab: nat)
    requires objectSize > 0 && Sound(s, objectSize) && New(s.lists, newSlab)
    ensures Sound(s.(lists := Ready(s.lists, objectSize, newSlab)), objectSize)
  {
    ReadyShelved(s.lists, objectSize, newSlab);
    if newSlab != 0 {
      NewSlabComplement(s, objectSize, newSlab);
    }
    if s.lists.semi == [] && s.lists.empty != [] {
      assert s.lists.empty == [s.lists.empty[0]] + s.lists.empty[1..];
    }
  }

  lemma ComplementTaken(free: seq<nat>, slab: nat, objectSize: nat, live: set<nat>)
    requires objectSize > 0 && free != [] && Complement(free, slab, objectSize, live)
    ensures free[0] in AllSlots(slab, objectSize) && free[0] !in live
    ensures Complement(free[1..], slab, objectSize, live + {free[0]})
  {
    hide AllSlots;
    var rest := free[1..];
    assert free[0] in free;
    forall x
      ensures x in rest <==> x in free && x != free[0]
    {
      if x in free && x != free[0] {
        var i :| 0 <= i < |free| && free[i] == x;
        assert rest[i - 1] == x;
      }
    }
  }

  lemma ComplementElsewhere(free: seq<nat>, slab: nat, objectSize: nat, live: set<nat>, item: nat)
    requires objectSize > 0 && IsSlab(slab) && Complement(free, slab, objectSize, live) && SlabOf(item) != slab
    ensures Complement(free, slab, objectSize, live + {item}) && Complement(free, slab, objectSize, live - {item})
  {
    SlotsFindSlab(slab, objectSize);
    hide AllSlots, SlabOf;
  }

  lemma PopComplements(s: Cache, objectSize: nat)
    requires objectSize > 0 && Sound(s, objectSize) && s.lists.semi != []
    ensures var slab := s.lists.semi[0];
            && slab in s.lists.free && s.lists.free[slab] != [] && slab in Slabs(s.lists)
            && var item := s.lists.free[slab][0];
            && item !in s.live && SlabOf(item) == slab && item in AllSlots(slab, objectSize)
            && Complement(s.lists.free[slab][1..], slab, objectSize, s.live + {item})
            && forall other :: other in s.lists.free && other != slab ==>
                 Complement(s.lists.free[other], other, objectSize, s.live + {item})
  {
    var slab := s.lists.semi[0];
    assert slab in Slabs(s.lists) && slab in s.lists.semi;
    assert forall other :: other in s.lists.free ==> IsSlab(other);
    hide Shelved, Slabs, IsSlab, Complement, AllSlots, SlabOf;
    ComplementTaken(s.lists.free[slab], slab, objectSize, s.live);
    SlotsFindSlab(slab, objectSize);
    forall other | other in s.lists.free && other != slab
      ensures Complement(s.lists.free[other], other, objectSize, s.live + {s.lists.free[slab][0]})
    {
      ComplementElsewhere(s.lists.free[other], other, objectSize, s.live, s.lists.free[slab][0]);
    }
  }

  /** The object taken was not live; now it is. */
  lemma PopSound(s: Cache, objectSize: nat)
    requires objectSize > 0 && Sound(s, objectSize) && s.lists.semi != []
    ensures var item := s.lists.free[s.lists.semi[0]][0];
            && item !in s.live && SlabOf(item) == s.lists.semi[0] && item in AllSlots(SlabOf(item), objectSize)
            && Sound(Cache(Pop(s.lists), s.live + {item}), objectSize)
  {
    PopShelved(s.lists, objectSize);
    PopComplements(s, objectSize);
    hide Shelved, Slabs, Complement, AllSlots, SlabOf;
  }

  lemma RefillSound(s: Cache, objectSize: nat, min: nat, spare: nat)
    requires objectSize > 0 && Sound(s, objectSize) && New(s.lists, spare)
    ensures Sound(s.(lists := Refill(s.lists, objectSize, min, spare)), objectSize)
  {
    RefillShelved(s.lists, objectSize, min, spare);
    if spare != 0 {
      NewSlabComplement(s, objectSize, spare);
    }
  }

  /** A live object lies below the topmost slot as long as that one is free. */
  lemma LiveBelowTop(free: seq<nat>, slab: nat, objectSize: nat, live: set<nat>, item: nat)
    requires objectSize > 0 && free != [] && Complement(free, slab, objectSize, live)
    requires item in live && item in AllSlots(slab, objectSize)
    ensures item !in free && item < free[|free| - 1]
  {
    AllSlotsAscend(slab, objectSize);
    assert free[|free| - 1] in free;
  }

  lemma ComplementGiven(free: seq<nat>, slab: nat, objectSize: nat, live: set<nat>, item: nat)
    requires objectSize > 0 && Complement(free, slab, objectSize, live) && free != []
    requires item in AllSlots(slab, objectSize) && item in live && item < free[|free| - 1]
    ensures Complement(Insert(free, item), slab, objectSize, live - {item})
  {
    hide AllSlots, Insert, Top;
    InsertKeepsOrder(free, item);
    InsertKeepsLast(free, item);
  }

  lemma FreeComplements(s: Cache, objectSize: nat, item: nat)
    requires objectSize > 0 && Sound(s, objectSize) && item in s.live && CanFree(s.lists, item)
    ensures SlabOf(item) in s.lists.semi && Insertable(s.lists, item)
    ensures Complement(Insert(s.lists.free[SlabOf(item)], item), SlabOf(item), objectSize, s.live - {item})
    ensures forall other :: other in s.lists.free && other != SlabOf(item) ==>
      Complement(s.lists.free[other], other, objectSize, s.live - {item})
  {
    var slab := SlabOf(item);
    assert slab in Slabs(s.lists);
    assert forall other :: other in s.lists.free ==> other in Slabs(s.lists) && IsSlab(other);
    assert item !in s.lists.free[slab] && item in AllSlots(slab, objectSize);
    assert slab in s.lists.semi;
    hide Shelved, Slabs, IsSlab, Complement, AllSlots, SlabOf, Insert;
    LiveBelowTop(s.lists.free[slab], slab, objectSize, s.live, item);
    ComplementGiven(s.lists.free[slab], slab, objectSize, s.live, item);
    forall other | other in s.lists.free && other != slab
      ensures Complement(s.lists.free[other], other, objectSize, s.live - {item})
    {
      ComplementElsewhere(s.lists.free[other], other, objectSize, s.live, item);
    }
  }

  /**
    Freeing a live object keeps all that. Its slab is the semi one, and it lies below the last free
    object there, so the walk never runs off the end.
    */
  lemma FreeSound(s: Cache, objectSize: nat, item: nat)
    requires objectSize > 0 && Sound(s, objectSize) && item in s.live && CanFree(s.lists, item)
    ensures Sound(Cache(AfterFree(s.lists, item), s.live - {item}), objectSize)
    ensures SlabOf(item) in s.lists.semi && Insertable(s.lists, item)
  {
    FreeComplements(s, objectSize, item);
    FreeShelved(s.lists, objectSize, item);
    hide Shelved, Slabs, Complement, AllSlots, SlabOf, Insert;
  }

  lemma FreeShelved(l: Lists, objectSize: nat, item: nat)
    requires objectSize > 0 && Shelved(l, objectSize) && SlabOf(item) in l.semi && CanFree(l, item)
    ensures Shelved(AfterFree(l, item), objectSize)
    ensures Slabs(AfterFree(l, item)) == Slabs(l)
  {
  }

  // ---------------------------------------------------------------- runs

  datatype Op = Alloc(newSlab: nat, spare: nat) | Free(item: nat)

  predicate Enabled(s: Cache, op: Op, objectSize: nat)
    requires objectSize > 0
  {
    match op
    case Alloc(newSlab, spare) => New(s.lists, newSlab) && New(Ready(s.lists, objectSize, newSlab), spare)
    case Free(item) => item in s.live && CanFree(s.lists, item)
  }

  function Step(s: Cache, op: Op, objectSize: nat, min: nat): Cache
    requires objectSize > 0 && Shelved(s.lists, objectSize) && Enabled(s, op, objectSize)
  {
    match op
    case Alloc(newSlab, spare) =>
      if CanAlloc(s.lists, newSlab)
      then Cache(AfterAlloc(s.lists, objectSize, min, newSlab, spare), s.live + {Allocated(s.lists, objectSize, newSlab)})
      else s
    case Free(item) => Cache(AfterFree(s.lists, item), s.live - {item})
  }

  /** A step keeps the lists and objects in order, and an object handed out was not live. */
  lemma StepSound(s: Cache, op: Op, objectSize: nat, min: nat)
    requires objectSize > 0 && Sound(s, objectSize) && Enabled(s, op, objectSize)
    ensures Sound(Step(s, op, objectSize, min), objectSize)
    ensures op.Alloc? && CanAlloc(s.lists, op.newSlab) ==> Allocated(s.lists, objectSize, op.newSlab) !in s.live
    ensures op.Free? ==> Insertable(s.lists, op.item)
  {
    match op
    case Alloc(newSlab, spare) =>
      if CanAlloc(s.lists, newSlab) {
        ReadySound(s, objectSize, newSlab);
        var r := s.(lists := Ready(s.lists, objectSize, newSlab));
        PopSound(r, objectSize);
        var p := Cache(Pop(r.lists), s.live + {Allocated(s.lists, objectSize, newSlab)});
        assert New(p.lists, spare);
        RefillSound(p, objectSize, min, spare);
      }
    case Free(item) =>
      FreeSound(s, objectSize, item);
  }

  ghost predicate Runnable(s: Cache, ops: seq<Op>, objectSize: nat, min: nat)
    requires objectSize > 0
    decreases |ops|
  {
    Shelved(s.lists, objectSize)
    && (ops == []
        || (Enabled(s, ops[0], objectSize) && Runnable(Step(s, ops[0], objectSize, min), ops[1..], objectSize, min)))
  }

  ghost function Run(s: Cache, ops: seq<Op>, objectSize: nat, min: nat): Cache
    requires objectSize > 0 && Runnable(s, ops, objectSize, min)
    decreases |ops|
  {
    if ops == [] then s else Run(Step(s, ops[0], objectSize, min), ops[1..], objectSize, min)
  }

  /** Over every run, each slab is on one list, the right one, and no live object is free. */
  lemma {:induction false} RunSound(s: Cache, ops: seq<Op>, objectSize: nat, min: nat)
    requires objectSize > 0 && Sound(s, objectSize) && Runnable(s, ops, objectSize, min)
    ensures Sound(Run(s, ops, objectSize, min), objectSize)
    decreases |ops|
  {
    if ops != [] {
      StepSound(s, ops[0], objectSize, min);
      RunSound(Step(s, ops[0], objectSize, min), ops[1..], objectSize, min);
    }
  }

  /** A cache starts with one empty slab, or none if that could not be had. */
  function NewCache(objectSize: nat, slab: nat): Cache
    requires objectSize > 0
  {
    Cache(if slab == 0 then Lists([], [], [], map[])
          else Lists([], [], [slab], map[slab := AllSlots(slab, objectSize)]), {})
  }

  lemma FreshComplement(objectSize: nat, slab: nat)
    requires objectSize > 0
    ensures Complement(AllSlots(slab, objectSize), slab, objectSize, {})
  {
    AllSlotsAscend(slab, objectSize);
  }

  lemma FirstSlabSound(objectSize: nat, slab: nat)
    requires objectSize > 0 && (slab == 0 || IsSlab(slab))
    ensures Sound(NewCache(objectSize, slab), objectSize)
  {
    FreshComplement(objectSize, slab);
    hide AllSlots, Complement, IsSlab;
  }

  /** Over every run of a new cache all that holds, and no object given back makes the walk run off the end. */
  lemma NewCacheRunSound(objectSize: nat, slab: nat, ops: seq<Op>, min: nat)
    requires objectSize > 0 && (slab == 0 || IsSlab(slab))
    requires Runnable(NewCache(objectSize, slab), ops, objectSize, min)
    ensures var s := Run(NewCache(objectSize, slab), ops, objectSize, min);
            && Sound(s, objectSize)
            && forall item: nat :: Enabled(s, Free(item), objectSize) ==>
                 SlabOf(item) in s.lists.semi && Insertable(s.lists, item)
  {
    FirstSlabSound(objectSize, slab);
    RunSound(NewCache(objectSize, slab), ops, objectSize, min);
    var s := Run(NewCache(objectSize, slab), ops, objectSize, min);
    hide Sound, Run, Runnable, NewCache, Insertable;
    forall item: nat | Enabled(s, Free(item), objectSize)
      ensures SlabOf(item) in s.lists.semi && Insertable(s.lists, item)
    {
      FreeSound(s, objectSize, item);
    }
  }

  // ---------------------------------------------------------------- counting

  predicate AllAreSlabs(list: seq<nat>) {
    forall i :: 0 <= i < |list| ==> IsSlab(list[i])
  }

  /** The slots of some slabs that are not live. */
  ghost function FreeSlots(slabs: seq<nat>, objectSize: nat, live: set<nat>): set<nat>
    requires objectSize > 0
  {
    set i, x | 0 <= i < |slabs| && x in AllSlots(slabs[i], objectSize) && x !in live :: x
  }

  lemma {:induction false} SizeOfAscending(list: seq<nat>)
    requires Ascending(list)
    ensures |ToSet(list)| == |list|
  {
    if list != [] {
      var front, last := list[..|list| - 1], list[|list| - 1];
      SizeOfAscending(front);
      assert ToSet(list) == ToSet(front) + {last};
      assert last !in ToSet(front);
    }
  }

  lemma FreeSlotsOfOne(s: Cache, objectSize: nat, slab: nat)
    requires objectSize > 0 && Sound(s, objectSize) && slab in s.lists.free
    ensures |FreeSlots([slab], objectSize, s.live)| == |s.lists.free[slab]|
  {
    var free := s.lists.free[slab];
    assert Complement(free, slab, objectSize, s.live);
    hide AllSlots, Shelved;
    SizeOfAscending(free);
    forall x
      ensures x in FreeSlots([slab], objectSize, s.live) <==> x in ToSet(free)
    {
      if x in free {
        assert [slab][0] == slab && x in AllSlots([slab][0], objectSize);
      }
    }
    assert FreeSlots([slab], objectSize, s.live) == ToSet(free);
  }

  lemma FreeSlotsFirst(slabs: seq<nat>, objectSize: nat, live: set<nat>)
    requires objectSize > 0 && slabs != [] && AllAreSlabs(slabs) && NoRepeats(slabs)
    ensures FreeSlots(slabs, objectSize, live)
         == FreeSlots([slabs[0]], objectSize, live) + FreeSlots(slabs[1..], objectSize, live)
    ensures FreeSlots([slabs[0]], objectSize, live) !! FreeSlots(slabs[1..], objectSize, live)
  {
    forall i | 0 <= i < |slabs|
      ensures forall x :: x in AllSlots(slabs[i], objectSize) ==> SlabOf(x) == slabs[i]
    {
      SlotsFindSlab(slabs[i], objectSize);
    }
    hide AllSlots, SlabOf;
    var first, rest := FreeSlots([slabs[0]], objectSize, live), FreeSlots(slabs[1..], objectSize, live);
    forall x | x in FreeSlots(slabs, objectSize, live)
      ensures x in first + rest
    {
      var i :| 0 <= i < |slabs| && x in AllSlots(slabs[i], objectSize);
      if i == 0 {
        assert [slabs[0]][0] == slabs[0];
      } else {
        assert slabs[1..][i - 1] == slabs[i];
      }
    }
    forall x | x in first + rest
      ensures x in FreeSlots(slabs, objectSize, live)
    {
      if x in rest {
        var i :| 0 <= i < |slabs[1..]| && x in AllSlots(slabs[1..][i], objectSize);
        assert slabs[i + 1] == slabs[1..][i];
      }
    }
    forall x | x in rest
      ensures x !in first
    {
      var i :| 0 <= i < |slabs[1..]| && x in AllSlots(slabs[1..][i], objectSize);
      assert slabs[i + 1] == slabs[1..][i] && slabs[0] != slabs[i + 1];
    }
  }

  lemma {:induction false} FreeOfCounts(s: Cache, objectSize: nat, slabs: seq<nat>)
    requires objectSize > 0 && Sound(s, objectSize) && AllAreSlabs(slabs) && NoRepeats(slabs)
    requires forall slab :: slab in slabs ==> slab in s.lists.free
    ensures FreeOf(s.lists, slabs) == |FreeSlots(slabs, objectSize, s.live)|
  {
    if slabs == [] {
      assert FreeSlots(slabs, objectSize, s.live) == {};
    } else {
      FreeSlotsOfOne(s, objectSize, slabs[0]);
      FreeSlotsFirst(slabs, objectSize, s.live);
      FreeOfCounts(s, objectSize, slabs[1..]);
    }
  }

  lemma {:induction false} FreeOfConcat(l: Lists, a: seq<nat>, b: seq<nat>)
    ensures FreeOf(l, a + b) == FreeOf(l, a) + FreeOf(l, b)
  {
    if a == [] {
      assert a + b == b;
    } else {
      assert (a + b)[1..] == a[1..] + b;
      FreeOfConcat(l, a[1..], b);
    }
  }

  lemma {:induction false} FreeOfEmpty(l: Lists, objectSize: nat, slabs: seq<nat>)
    requires objectSize > 0
    requires forall slab :: slab in slabs ==> slab in l.free && l.free[slab] == AllSlots(slab, objectSize)
    ensures FreeOf(l, slabs) == |slabs| * ObjectCount(objectSize) + |slabs|
  {
    if slabs != [] {
      FreeOfEmpty(l, objectSize, slabs[1..]);
    }
  }

  /**
    What the free count of a cache means: the slots of the semi and empty slabs that nobody holds,
    less one for each empty slab, whose header counts one object too few.
    */
  lemma FreeCountMeans(s: Cache, objectSize: nat)
    requires objectSize > 0 && Sound(s, objectSize)
    ensures FreeCount(s.lists, objectSize)
         == |FreeSlots(s.lists.semi + s.lists.empty, objectSize, s.live)| - |s.lists.empty|
  {
    var l, some := s.lists, s.lists.semi + s.lists.empty;
    assert forall slab :: slab in some ==> slab in Slabs(l);
    assert AllAreSlabs(some) && NoRepeats(some);
    FreeOfEmpty(l, objectSize, l.empty);
    FreeOfConcat(l, l.semi, l.empty);
    hide Shelved, AllSlots, ObjectCount;
    FreeOfCounts(s, objectSize, some);
  }

  /** A spare slab is put in front exactly when fewer than `min` objects are free by that count. */
  lemma RefillExactly(s: Cache, objectSize: nat, min: nat, spare: nat)
    requires objectSize > 0 && Sound(s, objectSize)
    ensures var count := |FreeSlots(s.lists.semi + s.lists.empty, objectSize, s.live)| - |s.lists.empty|;
            var t := Refill(s.lists, objectSize, min, spare);
            && t.full == s.lists.full && t.semi == s.lists.semi
            && t.empty == if count < min && spare != 0 then [spare] + s.lists.empty else s.lists.empty
  {
    FreeCountMeans(s, objectSize);
  }

  /** Which slab is made ready, and what that leaves of the empty list. */
  lemma ReadyExactly(l: Lists, objectSize: nat, newSlab: nat)
    requires objectSize > 0 && Shelved(l, objectSize) && CanAlloc(l, newSlab)
    ensures var r := Ready(l, objectSize, newSlab);
            && r.semi == [if l.semi != [] then l.semi[0] else if l.empty != [] then l.empty[0] else newSlab]
            && r.empty == (if l.semi == [] && l.empty != [] then l.empty[1..] else l.empty)
            && r.full == l.full
  {
    assert |l.semi| <= 1;
    hide Shelved, AllSlots;
  }

  lemma PopExactly(l: Lists, from: nat)
    requires l.semi == [from] && from in l.free && l.free[from] != []
    ensures var t, usedUp := Pop(l), l.free[from][1..] == [];
            && t.semi == (if usedUp then [] else [from]) && t.empty == l.empty
            && t.full == if usedUp then [from] + l.full else l.full
  {
  }

  /**
    An allocation takes the lowest slot that nobody holds: of the semi slab, else of the first empty
    one, else of a new one.
    */
  lemma AllocTakesLowest(s: Cache, objectSize: nat, min: nat, newSlab: nat, spare: nat)
    requires objectSize > 0 && Sound(s, objectSize) && Enabled(s, Alloc(newSlab, spare), objectSize)
    requires CanAlloc(s.lists, newSlab)
    ensures var item := Allocated(s.lists, objectSize, newSlab);
            var from := if s.lists.semi != [] then s.lists.semi[0]
                        else if s.lists.empty != [] then s.lists.empty[0] else newSlab;
            && item in AllSlots(from, objectSize) && item !in s.live
            && (forall x :: x in AllSlots(from, objectSize) && x !in s.live ==> item <= x)
            && Step(s, Alloc(newSlab, spare), objectSize, min).live == s.live + {item}
  {
    ReadySound(s, objectSize, newSlab);
    ReadyExactly(s.lists, objectSize, newSlab);
    var r := s.(lists := Ready(s.lists, objectSize, newSlab));
    hide Ready, Shelved, AllSlots, New, AfterAlloc, Complement;
    PopComplements(r, objectSize);
    TakenIsLowest(r, objectSize);
  }

  /**
    What it does to the lists: the slab stays semi, or joins the full ones when all of its slots are
    held. The empty list is left as it is, without the slab that was taken, exactly when the slabs
    then there have `min` free objects by the count, or there is no spare one.
    */
  lemma AllocMovesSlabs(s: Cache, objectSize: nat, min: nat, newSlab: nat, spare: nat)
    requires objectSize > 0 && Sound(s, objectSize) && Enabled(s, Alloc(newSlab, spare), objectSize)
    requires CanAlloc(s.lists, newSlab)
    ensures var from := if s.lists.semi != [] then s.lists.semi[0]
                        else if s.lists.empty != [] then s.lists.empty[0] else newSlab;
            var left := if s.lists.semi == [] && s.lists.empty != [] then s.lists.empty[1..] else s.lists.empty;
            var t := Step(s, Alloc(newSlab, spare), objectSize, min);
            var usedUp := forall x :: x in AllSlots(from, objectSize) ==> x in t.live;
            var count := |FreeSlots(t.lists.semi + left, objectSize, t.live)| - |left|;
            && t.lists.semi == (if usedUp then [] else [from])
            && t.lists.full == (if usedUp then [from] + s.lists.full else s.lists.full)
            && t.lists.empty == if count < min && spare != 0 then [spare] + left else left
  {
    ReadySound(s, objectSize, newSlab);
    ReadyExactly(s.lists, objectSize, newSlab);
    var r := s.(lists := Ready(s.lists, objectSize, newSlab));
    var from := r.lists.semi[0];
    PopSound(r, objectSize);
    TakenIsLowest(r, objectSize);
    PopExactly(r.lists, from);
    var p := Cache(Pop(r.lists), s.live + {Allocated(s.lists, objectSize, newSlab)});
    hide Ready, Pop, Refill, Sound, Shelved, AllSlots, New, FreeSlots;
    RefillExactly(p, objectSize, min, spare);
  }

  lemma TakenIsLowest(s: Cache, objectSize: nat)
    requires objectSize > 0 && Sound(s, objectSize) && s.lists.semi != []
    ensures var from := s.lists.semi[0];
            && from in s.lists.free && s.lists.free[from] != []
            && var item := s.lists.free[from][0];
            && (forall x :: x in AllSlots(from, objectSize) && x !in s.live ==> item <= x)
            && (s.lists.free[from][1..] == []
                <==> forall x :: x in AllSlots(from, objectSize) ==> x in s.live + {item})
  {
    PopComplements(s, objectSize);
    var from := s.lists.semi[0];
    var free := s.lists.free[from];
    assert Complement(free, from, objectSize, s.live);
    var rest := free[1..];
    assert Complement(rest, from, objectSize, s.live + {free[0]});
    hide AllSlots, Shelved;
    if rest != [] {
      assert rest[0] in rest;
    }
  }

  // ---------------------------------------------------------------- the lists in memory

  /** Following the packed words from `head` visits exactly `list`, each word carrying the count. */
  ghost predicate LinkedSlabs(words: map<nat, nat>, head: nat, list: seq<nat>, count: nat) {
    && head == NextIn(list, 0)
    && forall i :: 0 <= i < |list| ==> list[i] in words && words[list[i]] == Pack(NextIn(list, i + 1), count)
  }

  lemma ListsAreSlabs(l: Lists, objectSize: nat)
    requires objectSize > 0 && Shelved(l, objectSize)
    ensures AllAreSlabs(l.full) && AllAreSlabs(l.semi) && AllAreSlabs(l.empty)
    ensures forall s :: s in l.full || s in l.semi || s in l.empty ==> s in l.free
  {
  }

  /** A packed list starts with its first slab, and each word leads on to the next. */
  lemma Walk(words: map<nat, nat>, head: nat, list: seq<nat>, count: nat, i: nat)
    requires LinkedSlabs(words, head, list, count) && AllAreSlabs(list) && count < COUNT_LIMIT && i <= |list|
    ensures head == NextIn(list, 0) && (NextIn(list, i) == 0 <==> i == |list|)
    ensures i < |list| ==> list[i] == NextIn(list, i) && list[i] in list && list[i] in words
    ensures i < |list| ==> NextOf(words[list[i]]) == NextIn(list, i + 1) && CountOf(words[list[i]]) == count
  {
    if i < |list| {
      NextAligned(list, i + 1);
      PackUnpack(NextIn(list, i + 1), count);
    }
    assert i < |list| ==> list[i] != 0;
    hide NextOf, CountOf, IsSlab, Pack;
  }

  lemma NextAligned(list: seq<nat>, i: nat)
    requires AllAreSlabs(list)
    ensures NextIn(list, i) % COUNT_LIMIT == 0
  {
    if i < |list| {
      assert IsSlab(list[i]) && list[i] % 0x2000 == 0;
      TwoPages(list[i]);
    }
  }

  lemma TwoPages(x: nat)
    requires x % 0x2000 == 0
    ensures x % 0x1000 == 0
  {
    var k, q := x / 0x2000, x / 0x1000;
    assert x == 0x2000 * k;
    assert x % 0x1000 == 0x1000 * (2 * k - q);
  }

  lemma LinkedTail(words: map<nat, nat>, head: nat, list: seq<nat>, count: nat)
    requires LinkedSlabs(words, head, list, count) && list != []
    ensures LinkedSlabs(words, NextIn(list, 1), list[1..], count)
  {
  }

  lemma LinkedOne(words: map<nat, nat>, slab: nat, count: nat)
    requires slab in words && words[slab] == Pack(0, count)
    ensures LinkedSlabs(words, slab, [slab], count)
  {
  }

  lemma LinkedNone(words: map<nat, nat>, count: nat)
    ensures LinkedSlabs(words, 0, [], count)
  {
  }

  lemma LinkedCons(words: map<nat, nat>, head: nat, list: seq<nat>, count: nat, slab: nat)
    requires LinkedSlabs(words, head, list, count) && slab !in list
    ensures LinkedSlabs(words[slab := Pack(head, count)], slab, [slab] + list, count)
  {
    var longer := [slab] + list;
    forall i | 0 <= i < |longer|
      ensures longer[i] in words[slab := Pack(head, count)]
      ensures words[slab := Pack(head, count)][longer[i]] == Pack(NextIn(longer, i + 1), count)
    {
      assert i > 0 ==> longer[i] == list[i - 1];
    }
  }

  lemma LinkedElsewhere(words: map<nat, nat>, head: nat, list: seq<nat>, count: nat, slab: nat, word: nat)
    requires LinkedSlabs(words, head, list, count) && slab !in list
    ensures LinkedSlabs(words[slab := word], head, list, count)
  {
  }

  /** The slabs are on the right lists, and these are linked in memory. */
  ghost predicate Wired(words: map<nat, nat>, full: nat, semi: nat, empty: nat, l: Lists, objectSize: nat)
    requires objectSize > 0
  {
    && Shelved(l, objectSize)
    && LinkedSlabs(words, full, l.full, ObjectCount(objectSize))
    && LinkedSlabs(words, semi, l.semi, ObjectCount(objectSize))
    && LinkedSlabs(words, empty, l.empty, ObjectCount(objectSize))
  }

  lemma WiredHeads(words: map<nat, nat>, full: nat, semi: nat, empty: nat, l: Lists, objectSize: nat)
    requires 2 <= objectSize && Wired(words, full, semi, empty, l, objectSize)
    ensures (semi == 0 <==> l.semi == []) && (empty == 0 <==> l.empty == [])
    ensures semi != 0 ==> semi == l.semi[0]
  {
    ObjectCountPacks(objectSize);
    ListsAreSlabs(l, objectSize);
    Walk(words, semi, l.semi, ObjectCount(objectSize), 0);
    Walk(words, empty, l.empty, ObjectCount(objectSize), 0);
  }

  /** Following the semi list, and the empty list, from the slab reached after `i` steps. */
  lemma WalkSemi(words: map<nat, nat>, full: nat, semi: nat, empty: nat, l: Lists, objectSize: nat, i: nat)
    requires 2 <= objectSize && Wired(words, full, semi, empty, l, objectSize) && i <= |l.semi|
    ensures semi == NextIn(l.semi, 0) && (NextIn(l.semi, i) == 0 <==> i == |l.semi|)
    ensures i < |l.semi| ==>
      var head := NextIn(l.semi, i);
      && head in l.free && head in words && NextOf(words[head]) == NextIn(l.semi, i + 1)
      && FreeOf(l, l.semi[i..]) == |l.free[head]| + FreeOf(l, l.semi[i + 1..])
    ensures i == |l.semi| ==> FreeOf(l, l.semi[i..]) == 0
  {
    ObjectCountPacks(objectSize);
    ListsAreSlabs(l, objectSize);
    Walk(words, semi, l.semi, ObjectCount(objectSize), i);
    if i < |l.semi| {
      assert l.semi[i] in l.semi && l.semi[i..][1..] == l.semi[i + 1..];
    }
  }

  lemma WalkEmpty(words: map<nat, nat>, full: nat, semi: nat, empty: nat, l: Lists, objectSize: nat, i: nat)
    requires 2 <= objectSize && Wired(words, full, semi, empty, l, objectSize) && i <= |l.empty|
    ensures empty == NextIn(l.empty, 0) && (NextIn(l.empty, i) == 0 <==> i == |l.empty|)
    ensures i < |l.empty| ==>
      var head := NextIn(l.empty, i);
      head in words && NextOf(words[head]) == NextIn(l.empty, i + 1) && CountOf(words[head]) == ObjectCount(objectSize)
  {
    ObjectCountPacks(objectSize);
    ListsAreSlabs(l, objectSize);
    Walk(words, empty, l.empty, ObjectCount(objectSize), i);
  }

  lemma FirstSlabWired(words: map<nat, nat>, slab: nat, objectSize: nat)
    requires objectSize > 0 && (slab == 0 || IsSlab(slab))
    requires words == if slab == 0 then map[] else map[slab := Pack(0, ObjectCount(objectSize))]
    ensures var l := NewCache(objectSize, slab).lists;
            && Wired(words, 0, 0, slab, l, objectSize)
            && l.full == [] && l.semi == [] && l.empty == (if slab == 0 then [] else [slab])
            && l.free == if slab == 0 then map[] else map[slab := AllSlots(slab, objectSize)]
  {
  }

  lemma AllocWired(words: map<nat, nat>, full: nat, semi: nat, empty: nat, l: Lists, objectSize: nat,
                   newSlab: nat, spare: nat)
    requires objectSize > 0 && Wired(words, full, semi, empty, l, objectSize) && New(l, newSlab)
    requires New(Ready(l, objectSize, newSlab), spare)
    ensures Shelved(l, objectSize)
    ensures CanAlloc(l, newSlab) ==>
      var r := Ready(l, objectSize, newSlab);
      r.semi != [] && r.semi[0] in r.free && r.free[r.semi[0]] != [] && New(Pop(r), spare)
  {
    if CanAlloc(l, newSlab) {
      ReadyKnows(l, objectSize, newSlab, spare);
    }
  }

  /** Moving the first empty slab to the semi list. */
  lemma StartEmptyWired(words: map<nat, nat>, full: nat, semi: nat, empty: nat, l: Lists, objectSize: nat, newSlab: nat)
    requires 2 <= objectSize && Wired(words, full, semi, empty, l, objectSize) && New(l, newSlab)
    requires l.semi == [] && l.empty != []
    ensures empty in words
    ensures Wired(words[empty := Pack(0, CountOf(words[empty]))], full, empty, NextOf(words[empty]),
                  Ready(l, objectSize, newSlab), objectSize)
    ensures Ready(l, objectSize, newSlab).free == l.free
  {
    var count := ObjectCount(objectSize);
    ReadyShelved(l, objectSize, newSlab);
    ObjectCountPacks(objectSize);
    ListsAreSlabs(l, objectSize);
    Walk(words, empty, l.empty, count, 0);
    assert empty in l.empty && empty !in l.empty[1..];
    LinkedElsewhere(words, full, l.full, count, empty, Pack(0, count));
    LinkedTail(words, empty, l.empty, count);
    LinkedElsewhere(words, NextIn(l.empty, 1), l.empty[1..], count, empty, Pack(0, count));
    LinkedOne(words[empty := Pack(0, count)], empty, count);
    hide Shelved, LinkedSlabs, Pack, ObjectCount, AllSlots;
  }

  /** Starting a new slab. */
  lemma StartNewWired(words: map<nat, nat>, full: nat, semi: nat, empty: nat, l: Lists, objectSize: nat, newSlab: nat)
    requires 2 <= objectSize && Wired(words, full, semi, empty, l, objectSize) && New(l, newSlab)
    requires l.semi == [] && l.empty == [] && newSlab != 0
    ensures Wired(words[newSlab := Pack(0, ObjectCount(objectSize))], full, newSlab, empty,
                  Ready(l, objectSize, newSlab), objectSize)
    ensures Ready(l, objectSize, newSlab).free == l.free[newSlab := AllSlots(newSlab, objectSize)]
  {
    var count := ObjectCount(objectSize);
    ReadyShelved(l, objectSize, newSlab);
    LinkedElsewhere(words, full, l.full, count, newSlab, Pack(0, count));
    LinkedElsewhere(words, empty, l.empty, count, newSlab, Pack(0, count));
    LinkedOne(words[newSlab := Pack(0, count)], newSlab, count);
    hide Shelved, LinkedSlabs, Pack, ObjectCount, AllSlots;
  }

  /** Taking the first object, and moving a slab that is used up to the full list. */
  lemma TakeWired(words: map<nat, nat>, full: nat, semi: nat, empty: nat, l: Lists, objectSize: nat)
    requires 2 <= objectSize && Wired(words, full, semi, empty, l, objectSize) && l.semi != []
    ensures semi == l.semi[0] && semi in words && semi in l.free && l.free[semi] != []
    ensures Pop(l).free == l.free[semi := l.free[semi][1..]]
    ensures l.free[semi][1..] != [] ==> Wired(words, full, semi, empty, Pop(l), objectSize)
    ensures l.free[semi][1..] == [] ==>
      Wired(words[semi := Pack(full, CountOf(words[semi]))], semi, NextOf(words[semi]), empty, Pop(l), objectSize)
  {
    var count := ObjectCount(objectSize);
    PopShelved(l, objectSize);
    ObjectCountPacks(objectSize);
    ListsAreSlabs(l, objectSize);
    Walk(words, semi, l.semi, count, 0);
    assert semi in l.semi && l.semi[1..] == [] && NextIn(l.semi, 1) == 0;
    LinkedCons(words, full, l.full, count, semi);
    LinkedElsewhere(words, empty, l.empty, count, semi, Pack(full, count));
    LinkedNone(words[semi := Pack(full, count)], count);
    hide Shelved, LinkedSlabs, Pack, ObjectCount, AllSlots;
  }

  /** Adding a spare slab to the empty list. */
  lemma AddSpareWired(words: map<nat, nat>, full: nat, semi: nat, empty: nat, l: Lists, objectSize: nat,
                      min: nat, spare: nat)
    requires 2 <= objectSize && Wired(words, full, semi, empty, l, objectSize) && New(l, spare)
    requires min > 0 && FreeCount(l, objectSize) < min && spare != 0
    ensures Wired(words[spare := Pack(empty, ObjectCount(objectSize))], full, semi, spare,
                  Refill(l, objectSize, min, spare), objectSize)
    ensures Refill(l, objectSize, min, spare).free == l.free[spare := AllSlots(spare, objectSize)]
  {
    var count := ObjectCount(objectSize);
    RefillShelved(l, objectSize, min, spare);
    LinkedElsewhere(words, full, l.full, count, spare, Pack(empty, count));
    LinkedElsewhere(words, semi, l.semi, count, spare, Pack(empty, count));
    LinkedCons(words, empty, l.empty, count, spare);
    hide Shelved, LinkedSlabs, Pack, ObjectCount, AllSlots, FreeCount;
  }

  /** Putting an object back. */
  lemma FreeWired(words: map<nat, nat>, full: nat, semi: nat, empty: nat, l: Lists, objectSize: nat, item: nat)
    requires objectSize > 0 && Wired(words, full, semi, empty, l, objectSize)
    requires SlabOf(item) in l.semi && CanFree(l, item)
    ensures Wired(words, full, semi, empty, AfterFree(l, item), objectSize)
  {
    hide LinkedSlabs;
  }

  class CpuCache {
    const objectSize: nat
    const min: nat
    var full: nat
    var semi: nat
    var empty: nat
    var nextSlab: map<nat, nat>
    /** The slabs by their addresses. */
    var slabs: map<nat, Slab>
    ghost var lists: Lists

    /** The slabs are those of the lists, each with its free list in memory. */
    ghost predicate Backed()
      reads this`slabs, this`lists, slabs.Values
    {
      && slabs.Keys == lists.free.Keys
      && forall s :: s in slabs ==>
           && slabs[s].Valid() && slabs[s].address == s && slabs[s].objectSize == objectSize
           && slabs[s].free == lists.free[s]
    }

    ghost predicate Valid()
      reads this, slabs.Values
    {
      4 <= objectSize && Backed() && Wired(nextSlab, full, semi, empty, lists, objectSize)
    }

    /** The part of `mem_cache_new` for one processor: a first slab on the empty list, if there is one. */
    constructor (objectSize: nat, min: nat, slab: nat)
      requires 4 <= objectSize && (slab == 0 || IsSlab(slab))
      ensures Valid() && this.objectSize == objectSize && this.min == min && fresh(slabs.Values)
      ensures lists == NewCache(objectSize, slab).lists
      ensures lists.full == [] && lists.semi == [] && lists.empty == if slab == 0 then [] else [slab]
    {
      this.objectSize, this.min := objectSize, min;
      full, semi, empty := 0, 0, 0;
      nextSlab, slabs := map[], map[];
      lists := Lists([], [], [], map[]);
      new;
      FirstSlabWired(map[], 0, objectSize);
      hide Wired, NewCache, AllSlots, Linked;
      if slab != 0 {
        Begin(slab);
      }
    }

    /** A first slab goes on the empty list. */
    method Begin(slab: nat)
      requires 4 <= objectSize && IsSlab(slab) && slabs == map[] && lists == NewCache(objectSize, 0).lists
      requires full == semi == 0 && Backed()
      modifies this
      ensures Valid() && fresh(slabs.Values) && lists == NewCache(objectSize, slab).lists
    {
      ghost var words := map[slab := Pack(0, ObjectCount(objectSize))];
      FirstSlabWired(map[], 0, objectSize);
      FirstSlabWired(words, slab, objectSize);
      assert slab != 0;
      assert slabs.Values == {};
      hide Wired, NewCache, AllSlots, Linked, Pack, ObjectCount, IsSlab, Backed;
      NewSlab(slab, NewCache(objectSize, slab).lists);
      nextSlab := map[slab := Pack(0, ObjectCount(objectSize))];
      empty := slab;
    }

    /** `mem_slab_new`: a slab with a free list of all its slots. */
    method NewSlab(slab: nat, ghost with: Lists)
      requires Backed() && 4 <= objectSize && 0 < slab
      requires with.free == lists.free[slab := AllSlots(slab, objectSize)]
      modifies this`slabs, this`lists
      ensures Backed() && lists == with && fresh(slabs.Values - old(slabs.Values))
    {
      hide AllSlots, Linked, Ascending;
      var begin := new Slab(slab, objectSize);
      slabs := slabs[slab := begin];
      lists := with;
    }

    /** `mem_cache_free_count` */
    method CountFree() returns (count: nat)
      requires Valid()
      ensures count == FreeCount(lists, objectSize)
    {
      hide Wired, FreeOf, NextIn, NextOf, CountOf, ObjectCount;
      count := CountSemi();
      var head := empty;
      ghost var i := 0;
      WalkEmpty(nextSlab, full, semi, empty, lists, objectSize, 0);
      while head != 0
        invariant 0 <= i <= |lists.empty| && head == NextIn(lists.empty, i) && (head == 0 <==> i == |lists.empty|)
        invariant count == FreeOf(lists, lists.semi) + i * ObjectCount(objectSize)
        decreases |lists.empty| - i
      {
        WalkEmpty(nextSlab, full, semi, empty, lists, objectSize, i);
        count := count + CountOf(nextSlab[head]);
        head := NextOf(nextSlab[head]);
        i := i + 1;
        WalkEmpty(nextSlab, full, semi, empty, lists, objectSize, i);
      }
    }

    /** The walk over the semi list. */
    method CountSemi() returns (count: nat)
      requires Valid()
      ensures count == FreeOf(lists, lists.semi)
    {
      hide Wired, FreeOf, NextIn, NextOf, Linked, Ascending;
      count := 0;
      var head := semi;
      ghost var i := 0;
      WalkSemi(nextSlab, full, semi, empty, lists, objectSize, 0);
      assert lists.semi[0..] == lists.semi;
      while head != 0
        invariant 0 <= i <= |lists.semi| && head == NextIn(lists.semi, i) && (head == 0 <==> i == |lists.semi|)
        invariant count + FreeOf(lists, lists.semi[i..]) == FreeOf(lists, lists.semi)
        decreases |lists.semi| - i
      {
        WalkSemi(nextSlab, full, semi, empty, lists, objectSize, i);
        var free := slabs[head].FreeCount();
        count := count + free;
        head := NextOf(nextSlab[head]);
        i := i + 1;
        WalkSemi(nextSlab, full, semi, empty, lists, objectSize, i);
      }
      WalkSemi(nextSlab, full, semi, empty, lists, objectSize, i);
    }

    /** The first part of `mem_cache_alloc`: have a slab on the semi list. */
    method MakeReady(newSlab: nat) returns (ok: bool)
      requires Valid() && New(lists, newSlab)
      modifies this
      ensures Valid() && ok == CanAlloc(old(lists), newSlab)
      ensures lists == Ready(old(lists), objectSize, newSlab)
      ensures fresh(slabs.Values - old(slabs.Values))
    {
      hide Wired, Backed, AllSlots, New;
      WiredHeads(nextSlab, full, semi, empty, lists, objectSize);
      if semi != 0 {
        return true;
      }
      if empty != 0 {
        StartEmpty(newSlab);
        return true;
      }
      if newSlab == 0 {
        return false;
      }
      StartNew(newSlab);
      return true;
    }

    /** The first empty slab becomes the semi slab. */
    method StartEmpty(ghost newSlab: nat)
      requires Valid() && lists.semi == [] && lists.empty != [] && New(lists, newSlab)
      modifies this
      ensures Valid() && lists == Ready(old(lists), objectSize, newSlab) && slabs == old(slabs)
    {
      hide Wired, Pack, CountOf, NextOf, Ready, New, Linked;
      StartEmptyWired(nextSlab, full, semi, empty, lists, objectSize, newSlab);
      var slab := empty;
      empty := NextOf(nextSlab[slab]);
      nextSlab := nextSlab[slab := Pack(0, CountOf(nextSlab[slab]))];
      semi := slab;
      lists := Ready(lists, objectSize, newSlab);
    }

    /** A new slab becomes the semi slab. */
    method StartNew(newSlab: nat)
      requires Valid() && lists.semi == [] && lists.empty == [] && newSlab != 0 && New(lists, newSlab)
      modifies this
      ensures Valid() && lists == Ready(old(lists), objectSize, newSlab)
      ensures fresh(slabs.Values - old(slabs.Values))
    {
      hide Wired, Backed, Pack, Ready, ObjectCount, AllSlots;
      StartNewWired(nextSlab, full, semi, empty, lists, objectSize, newSlab);
      NewSlab(newSlab, Ready(lists, objectSize, newSlab));
      nextSlab := nextSlab[newSlab := Pack(0, ObjectCount(objectSize))];
      semi := newSlab;
    }

    /** The second part: take the first object, and move the slab to the full list if it was the last. */
    method Take() returns (item: nat)
      requires Valid() && lists.semi != [] && lists.semi[0] in lists.free && lists.free[lists.semi[0]] != []
      modifies this, slabs.Values
      ensures Valid() && item == old(lists).free[old(lists).semi[0]][0] && lists == Pop(old(lists))
      ensures slabs == old(slabs)
    {
      hide Wired, Pop, Pack, CountOf, NextOf, Linked, Ascending;
      TakeWired(nextSlab, full, semi, empty, lists, objectSize);
      var slab := semi;
      item := slabs[slab].Alloc();
      if slabs[slab].freeHead == 0 {
        semi := NextOf(nextSlab[slab]);
        nextSlab := nextSlab[slab := Pack(full, CountOf(nextSlab[slab]))];
        full := slab;
      }
      lists := Pop(lists);
    }

    /** A spare slab is put in front of the empty list. */
    method AddSpare(spare: nat)
      requires Valid() && spare != 0 && New(lists, spare)
      requires min > 0 && FreeCount(lists, objectSize) < min
      modifies this
      ensures Valid() && lists == Refill(old(lists), objectSize, min, spare)
      ensures fresh(slabs.Values - old(slabs.Values))
    {
      hide Wired, Backed, Pack, Refill, ObjectCount, AllSlots;
      AddSpareWired(nextSlab, full, semi, empty, lists, objectSize, min, spare);
      NewSlab(spare, Refill(lists, objectSize, min, spare));
      nextSlab := nextSlab[spare := Pack(empty, ObjectCount(objectSize))];
      empty := spare;
    }

    /** The last part: a spare slab when the free objects fall below the minimum. */
    method Replenish(spare: nat)
      requires Valid() && New(lists, spare)
      modifies this
      ensures Valid() && lists == Refill(old(lists), objectSize, min, spare)
      ensures fresh(slabs.Values - old(slabs.Values))
    {
      hide Wired, Backed, FreeCount, AllSlots, New;
      if min > 0 {
        var freeCount := CountFree();
        if freeCount < min && spare != 0 {
          AddSpare(spare);
        }
      }
    }

    /** `mem_cache_alloc`, given the slabs `memmap` would return: the object, or 0. */
    method Alloc(newSlab: nat, spare: nat) returns (item: nat)
      requires Valid() && New(lists, newSlab) && New(Ready(lists, objectSize, newSlab), spare)
      modifies this, slabs.Values
      ensures Valid() && fresh(slabs.Values - old(slabs.Values))
      ensures if CanAlloc(old(lists), newSlab)
              then item == Allocated(old(lists), objectSize, newSlab)
                && lists == AfterAlloc(old(lists), objectSize, min, newSlab, spare)
              else item == 0 && lists == old(lists)
    {
      hide Wired, Backed, AllSlots, New, Pop, Refill;
      AllocWired(nextSlab, full, semi, empty, lists, objectSize, newSlab, spare);
      var ok := MakeReady(newSlab);
      if !ok {
        return 0;
      }
      item := Take();
      Replenish(spare);
    }

    /** `mem_cache_dealloc`: the slab is found by masking the address. */
    method Dealloc(item: nat)
      requires Valid() && item != 0 && SlabOf(item) in lists.semi && Insertable(lists, item)
      modifies this, slabs.Values
      ensures Valid() && lists == AfterFree(old(lists), item) && slabs == old(slabs)
    {
      FreeWired(nextSlab, full, semi, empty, lists, objectSize, item);
      hide Wired, Backed, AfterFree;
      PutBack(SlabOf(item), item);
    }

    /** The walk of its list. */
    method PutBack(slab: nat, item: nat)
      requires Backed() && item != 0 && slab == SlabOf(item) && Insertable(lists, item)
      modifies this`lists, slabs.Values
      ensures Backed() && lists == AfterFree(old(lists), item)
    {
      hide Linked, Insert, Ascending, SlabOf;
      var freeCount := slabs[slab].Dealloc(item);
      lists := AfterFree(lists, item);
    }
  }
}

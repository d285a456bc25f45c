/**
  A slab: 8 KiB of memory with an 8-byte header, cut into objects. The free objects form a list
  that is threaded through their own first words; zero ends it. `free` is what that list holds.
  */
module Slub {
  import opened Arithmetic

  const SLAB_SIZE := 0x2000
  const HEADER := 8

  /** The object count a slab is packed with; the list of a fresh slab has one slot more. */
  function ObjectCount(objectSize: nat): nat
    requires objectSize > 0
  {
    (SLAB_SIZE - HEADER - 1) / objectSize
  }

  function Slot(slab: nat, objectSize: nat, i: nat): nat {
    slab + HEADER + i * objectSize
  }

  /** The list of a fresh slab. */
  function AllSlots(slab: nat, objectSize: nat): (list: seq<nat>)
    requires objectSize > 0
    ensures |list| == ObjectCount(objectSize) + 1
  {
    seq(ObjectCount(objectSize) + 1, i requires 0 <= i => Slot(slab, objectSize, i))
  }

  function Top(slab: nat, objectSize: nat): nat
    requires objectSize > 0
  {
    Slot(slab, objectSize, ObjectCount(objectSize))
  }

  predicate Ascending(list: seq<nat>) {
    forall i, j :: 0 <= i < j < |list| ==> list[i] < list[j]
  }

  function ToSet(list: seq<nat>): set<nat> {
    set x | x in list
  }

  /** A fresh slab has one slot more than objects, the first behind the header. They ascend, all start within the slab, and masking a slot's address gives its slab. */
  lemma AllSlotsAscend(slab: nat, objectSize: nat)
    requires objectSize > 0
    ensures |AllSlots(slab, objectSize)| == 8183 / objectSize + 1
    ensures forall i :: 0 <= i < |AllSlots(slab, objectSize)| ==> AllSlots(slab, objectSize)[i] == slab + 8 + i * objectSize
    ensures Ascending(AllSlots(slab, objectSize))
    ensures forall x :: x in AllSlots(slab, objectSize) ==> slab + HEADER <= x <= Top(slab, objectSize) < slab + SLAB_SIZE
    ensures slab % SLAB_SIZE == 0 ==> forall x :: x in AllSlots(slab, objectSize) ==> x - x % SLAB_SIZE == slab
  {
    var list := AllSlots(slab, objectSize);
    forall i, j | 0 <= i < j < |list|
      ensures list[i] < list[j]
    {
      MultipleStep(i, j, objectSize);
    }
    var n := ObjectCount(objectSize);
    assert n * objectSize <= SLAB_SIZE - HEADER - 1;
    forall x | x in list
      ensures slab + HEADER <= x <= Top(slab, objectSize) < slab + SLAB_SIZE
      ensures slab % SLAB_SIZE == 0 ==> x - x % SLAB_SIZE == slab
    {
      var i :| 0 <= i < |list| && list[i] == x;
      MultipleOrder(i, n, objectSize);
      hide ObjectCount;
    }
  }

  /**
    The list has one slot too many: the top slot's object fits in the slab exactly when the
    object size divides the space behind the header.
    */
  lemma TopSlotFitsExactly(slab: nat, objectSize: nat)
    requires 0 < objectSize < SLAB_SIZE - HEADER
    ensures Top(slab, objectSize) + objectSize <= slab + SLAB_SIZE <==> (SLAB_SIZE - HEADER) % objectSize == 0
    ensures Top(slab, objectSize) + objectSize >= slab + SLAB_SIZE
  {
    var t, n := SLAB_SIZE - HEADER, ObjectCount(objectSize);
    var r := (t - 1) % objectSize;
    assert t - 1 == n * objectSize + r;
    var q := t / objectSize;
    assert t == q * objectSize + t % objectSize;
    assert (n + 1) * objectSize == n * objectSize + objectSize;
    if t % objectSize == 0 {
      if q <= n {
        MultipleStep(q, n + 1, objectSize);
      } else {
        MultipleStep(n, q, objectSize);
      }
    }
    if Top(slab, objectSize) + objectSize <= slab + SLAB_SIZE {
      assert t == (n + 1) * objectSize;
      if q < n + 1 {
        MultipleStep(q, n + 1, objectSize);
      } else if q > n + 1 {
        MultipleStep(n + 1, q, objectSize);
      }
    }
  }

  lemma AscendingLast(list: seq<nat>, k: nat)
    requires Ascending(list) && k < |list|
    ensures list[k] <= list[|list| - 1]
  {
  }

  /** Putting an object into an ascending list. */
  function Insert(list: seq<nat>, x: nat): seq<nat> {
    if list == [] || x < list[0] then [x] + list else [list[0]] + Insert(list[1..], x)
  }

  lemma {:induction false} InsertAt(list: seq<nat>, x: nat, k: nat)
    requires k <= |list|
    requires forall j :: 0 <= j < k ==> list[j] <= x
    requires k < |list| ==> x < list[k]
    ensures Insert(list, x) == list[..k] + [x] + list[k..]
  {
    if k > 0 {
      InsertAt(list[1..], x, k - 1);
    }
  }

  lemma {:induction false} InsertKeepsOrder(list: seq<nat>, x: nat)
    requires Ascending(list) && x !in list
    ensures Ascending(Insert(list, x)) && |Insert(list, x)| == |list| + 1
    ensures forall y :: y in Insert(list, x) <==> y == x || y in list
  {
    if list != [] && x >= list[0] {
      InsertKeepsOrder(list[1..], x);
      var rest := Insert(list[1..], x);
      forall j | 0 <= j < |rest|
        ensures list[0] < rest[j]
      {
        assert rest[j] in rest;
      }
      assert x !in list[1..] && list[0] in list;
    }
  }

  // ---------------------------------------------------------------- the list in memory

  function NextIn(list: seq<nat>, i: nat): nat {
    if i < |list| then list[i] else 0
  }

  ghost predicate LinkedAt(memory: map<nat, nat>, list: seq<nat>, i: nat)
    requires i < |list|
  {
    list[i] != 0 && list[i] in memory && memory[list[i]] == NextIn(list, i + 1)
  }

  /** Following the words in memory from `head` visits exactly `list`. */
  ghost predicate Linked(memory: map<nat, nat>, head: nat, list: seq<nat>) {
    && head == NextIn(list, 0)
    && forall i :: 0 <= i < |list| ==> list[i] != 0 && list[i] in memory && memory[list[i]] == NextIn(list, i + 1)
  }

  /** After running off the end the list is intact exactly when the object's first word happened to be 0. */
  lemma RunOffEndIntactExactly(memory: map<nat, nat>, head: nat, list: seq<nat>, item: nat)
    requires Linked(memory, head, list) && list != [] && item !in list && item != 0 && item in memory
    requires Ascending(list)
    ensures Linked(memory[list[|list| - 1] := item], head, list + [item]) <==> memory[item] == 0
  {
    var words, longer := memory[list[|list| - 1] := item], list + [item];
    assert longer[|list|] == item;
    assert words[item] == memory[item];
  }

  /** Whatever callers write into objects they hold, the list stays the same. */
  lemma WritesToLiveObjectsKeepList(memory: map<nat, nat>, head: nat, list: seq<nat>, item: nat, word: nat)
    requires Linked(memory, head, list) && item !in list
    ensures Linked(memory[item := word], head, list)
  {
  }

  /** The words after an object is linked in behind the first `k` objects of a list. */
  function LinkIn(memory: map<nat, nat>, list: seq<nat>, item: nat, k: nat): map<nat, nat>
    requires k <= |list|
  {
    (if k == 0 then memory else memory[list[k - 1] := item])[item := NextIn(list, k)]
  }

  lemma InsertedAt(list: seq<nat>, item: nat, k: nat, i: nat)
    requires k <= |list| && i <= |list|
    requires forall j :: 0 <= j < k ==> list[j] < item
    requires k < |list| ==> item < list[k]
    ensures |Insert(list, item)| == |list| + 1
    ensures Insert(list, item)[i] == if i < k then list[i] else if i == k then item else list[i - 1]
  {
    hide Insert;
    InsertAt(list, item, k);
  }

  lemma LinkedInsertAt(memory: map<nat, nat>, list: seq<nat>, item: nat, k: nat, i: nat)
    requires item != 0 && item !in list && k <= |list| && i <= |list|
    requires forall j :: 0 <= j < k ==> list[j] < item
    requires k < |list| ==> item < list[k]
    requires i < k ==> LinkedAt(memory, list, i)
    requires i > k ==> LinkedAt(memory, list, i - 1)
    requires k > 0 && i < k - 1 ==> list[i] != list[k - 1]
    requires k > 0 && i > k ==> list[i - 1] != list[k - 1]
    ensures |Insert(list, item)| == |list| + 1 && LinkedAt(LinkIn(memory, list, item, k), Insert(list, item), i)
  {
    hide Insert;
    InsertedAt(list, item, k, i);
    if i < |list| {
      InsertedAt(list, item, k, i + 1);
    }
    if i < k {
      assert list[i] in list;
    } else if i > k {
      assert list[i - 1] in list;
    }
  }

  lemma LinkInKeepsRest(memory: map<nat, nat>, list: seq<nat>, item: nat, k: nat)
    requires Ascending(list) && item !in list && k <= |list|
    requires forall j :: k <= j < |list| ==> list[j] in memory
    ensures forall j :: k <= j < |list| ==>
      list[j] in LinkIn(memory, list, item, k) && LinkIn(memory, list, item, k)[list[j]] == memory[list[j]]
  {
  }

  lemma LinkedInsert(memory: map<nat, nat>, head: nat, list: seq<nat>, item: nat, k: nat)
    requires Linked(memory, head, list) && Ascending(list) && item !in list && item != 0 && k <= |list|
    requires forall j :: 0 <= j < k ==> list[j] < item
    requires k < |list| ==> item < list[k]
    ensures Linked(LinkIn(memory, list, item, k), if k == 0 then item else head, Insert(list, item))
    ensures forall j :: k <= j < |list| ==>
      list[j] in LinkIn(memory, list, item, k) && LinkIn(memory, list, item, k)[list[j]] == memory[list[j]]
  {
    LinkInKeepsRest(memory, list, item, k);
    hide Insert, LinkIn;
    var result := Insert(list, item);
    InsertedAt(list, item, k, 0);
    forall i | 0 <= i < |result|
      ensures var words := LinkIn(memory, list, item, k);
              result[i] != 0 && result[i] in words && words[result[i]] == NextIn(result, i + 1)
    {
      if k > 0 && i < k - 1 {
        assert list[i] < list[k - 1];
      } else if k > 0 && i > k {
        assert list[k - 1] < list[i - 1];
      }
      LinkedInsertAt(memory, list, item, k, i);
    }
  }

  class Slab {
    const address: nat
    const objectSize: nat
    var freeHead: nat
    var memory: map<nat, nat>
    ghost var free: seq<nat>

    ghost predicate Valid()
      reads this
    {
      0 < address && 4 <= objectSize && Linked(memory, freeHead, free) && Ascending(free)
    }

    /** `mem_slab_new` */
    constructor (address: nat, objectSize: nat)
      requires 0 < address && 4 <= objectSize
      ensures Valid() && free == AllSlots(address, objectSize)
      ensures this.address == address && this.objectSize == objectSize
    {
      this.address, this.objectSize := address, objectSize;
      var count := ObjectCount(objectSize);
      var end := address + HEADER;
      freeHead := end;
      var words: map<nat, nat> := map[];
      AllSlotsAscend(address, objectSize);
      ghost var list := AllSlots(address, objectSize);
      for i := 0 to count
        invariant end == list[i]
        invariant forall j :: 0 <= j < i ==> list[j] in words && words[list[j]] == list[j + 1]
      {
        var next := end + objectSize;
        assert next == list[i + 1] by {
          assert (i + 1) * objectSize == i * objectSize + objectSize;
        }
        words := words[end := next];
        end := next;
      }
      words := words[end := 0];
      memory := words;
      free := list;
    }

    /** Take the first free object. */
    method Alloc() returns (item: nat)
      requires Valid() && free != []
      modifies this
      ensures Valid() && item == old(free)[0] && free == old(free)[1..]
      ensures freeHead == 0 <==> free == []
      ensures memory == old(memory)
    {
      item := freeHead;
      freeHead := memory[item];
      free := free[1..];
    }

    /**
      `mem_cache_dealloc`: walk the whole list, putting the object in its place and counting.
      On an empty list the source writes through a null pointer. Running off the end, it links
      the object in without ending the list there.
      */
    method Dealloc(item: nat) returns (freeCount: nat)
      requires Valid() && free != [] && item != 0 && item !in free
      modifies this
      ensures freeCount == |old(free)| + 1
      ensures item < old(free)[|old(free)| - 1] ==> Valid() && free == Insert(old(free), item)
      ensures item > old(free)[|old(free)| - 1] ==>
        memory == old(memory)[old(free)[|old(free)| - 1] := item] && freeHead == old(freeHead)
    {
      hide Insert, Ascending, LinkIn;
      ghost var list, words := free, memory;
      InsertKeepsOrder(list, item);
      freeCount := 1;
      var pending := true;
      var freePrev, freeObj := 0, freeHead;
      ghost var k := 0;
      while freeObj != 0
        invariant 0 <= k <= |list| && freeCount == k + 1
        invariant freeObj == NextIn(list, k)
        invariant if k == 0 then freePrev == 0 else freePrev == list[k - 1]
        invariant free == list && Linked(words, NextIn(list, 0), list)
        invariant forall j :: k <= j < |list| ==> list[j] in memory && memory[list[j]] == words[list[j]]
        invariant pending ==> memory == words && freeHead == NextIn(list, 0)
        invariant pending ==> forall j :: 0 <= j < k ==> list[j] < item
        invariant !pending ==> Linked(memory, freeHead, Insert(list, item)) && item < list[|list| - 1]
        decreases |list| - k
      {
        if pending && item < freeObj {
          LinkedInsert(words, freeHead, list, item, k);
          assert list[k] <= list[|list| - 1] by {
            AscendingLast(list, k);
          }
          LinkBehind(freePrev, item, freeObj, k);
          pending := false;
        }
        freeCount := freeCount + 1;
        freePrev := freeObj;
        freeObj := memory[freeObj];
        k := k + 1;
      }
      if pending {
        memory := memory[freePrev := item];
      } else {
        free := Insert(list, item);
      }
    }

    /** Store the two links that put an object between its neighbours. */
    method LinkBehind(freePrev: nat, item: nat, freeObj: nat, ghost k: nat)
      requires k <= |free| && freeObj == NextIn(free, k)
      requires if k == 0 then freePrev == 0 else freePrev != 0 && freePrev == free[k - 1]
      modifies this`memory, this`freeHead
      ensures memory == LinkIn(old(memory), free, item, k)
      ensures freeHead == if k == 0 then item else old(freeHead)
    {
      if freePrev != 0 {
        memory := memory[freePrev := item];
      } else {
        freeHead := item;
      }
      memory := memory[item := freeObj];
    }

    /** `mem_slab_free_count` */
    method FreeCount() returns (count: nat)
      requires Valid()
      ensures count == |free|
    {
      count := 0;
      var item := freeHead;
      while item != 0
        invariant count <= |free| && item == NextIn(free, count)
        decreases |free| - count
      {
        count := count + 1;
        item := memory[item];
      }
    }
  }

  // ---------------------------------------------------------------- runs of one slab

  datatype State = State(free: seq<nat>, live: set<nat>)

  datatype Op = Take | Give(item: nat)

  /** A live object can only be given back while the list is not empty. */
  predicate Enabled(s: State, op: Op) {
    s.free != [] && (op.Give? ==> op.item in s.live)
  }

  function Step(s: State, op: Op): State
    requires Enabled(s, op)
  {
    match op
    case Take => State(s.free[1..], s.live + {s.free[0]})
    case Give(item) => State(Insert(s.free, item), s.live - {item})
  }

  ghost predicate Runnable(s: State, ops: seq<Op>)
    decreases |ops|
  {
    ops == [] || (Enabled(s, ops[0]) && Runnable(Step(s, ops[0]), ops[1..]))
  }

  ghost function Run(s: State, ops: seq<Op>): State
    requires Runnable(s, ops)
    decreases |ops|
  {
    if ops == [] then s else Run(Step(s, ops[0]), ops[1..])
  }

  /**
    The list is the ascending sequence of the slots not handed out, and unless it is empty it
    ends with the topmost slot of the slab.
    */
  ghost predicate Refines(s: State, slots: set<nat>, top: nat) {
    && Ascending(s.free) && s.live <= slots
    && (forall x :: x in s.free <==> x in slots && x !in s.live)
    && (s.free != [] ==> s.free[|s.free| - 1] == top)
  }

  lemma {:induction false} InsertKeepsLast(list: seq<nat>, x: nat)
    requires list != [] && Ascending(list) && x < list[|list| - 1]
    ensures |Insert(list, x)| == |list| + 1 && Insert(list, x)[|list|] == list[|list| - 1]
  {
    if x >= list[0] {
      InsertKeepsLast(list[1..], x);
    }
  }

  lemma StepRefines(s: State, op: Op, slots: set<nat>, top: nat)
    requires Refines(s, slots, top) && Enabled(s, op) && (forall x :: x in slots ==> x <= top)
    ensures Refines(Step(s, op), slots, top)
    ensures op.Take? ==> s.free[0] !in s.live && forall x :: x in slots && x !in s.live ==> s.free[0] <= x
    ensures op.Give? ==> op.item < s.free[|s.free| - 1]
  {
    match op
    case Take =>
      var t := Step(s, op);
      forall x
        ensures x in t.free <==> x in slots && x !in t.live
      {
        if x in s.free && x != s.free[0] {
          var i :| 0 <= i < |s.free| && s.free[i] == x;
          assert t.free[i - 1] == x;
        }
      }
    case Give(item) =>
      assert top in s.free;
      assert item !in s.free;
      InsertKeepsOrder(s.free, item);
      InsertKeepsLast(s.free, item);
  }

  lemma {:induction false} RunRefines(s: State, ops: seq<Op>, slots: set<nat>, top: nat)
    requires Refines(s, slots, top) && Runnable(s, ops) && (forall x :: x in slots ==> x <= top)
    ensures Refines(Run(s, ops), slots, top)
    decreases |ops|
  {
    if ops != [] {
      StepRefines(s, ops[0], slots, top);
      RunRefines(Step(s, ops[0]), ops[1..], slots, top);
    }
  }

  /**
    Over every run of a fresh slab: the list is the ascending sequence of the slots not handed
    out, and a free never runs off its end, since the topmost slot is still there.
    */
  lemma FreshRunRefines(slab: nat, objectSize: nat, ops: seq<Op>)
    requires objectSize > 0
    requires Runnable(State(AllSlots(slab, objectSize), {}), ops)
    ensures var s := Run(State(AllSlots(slab, objectSize), {}), ops);
            Refines(s, ToSet(AllSlots(slab, objectSize)), Top(slab, objectSize))
            && forall item: nat :: Enabled(s, Give(item)) ==> item < Top(slab, objectSize) && Top(slab, objectSize) in s.free
  {
    AllSlotsAscend(slab, objectSize);
    var list := AllSlots(slab, objectSize);
    assert list[|list| - 1] == Top(slab, objectSize);
    RunRefines(State(list, {}), ops, ToSet(list), Top(slab, objectSize));
    var s := Run(State(list, {}), ops);
    forall item: nat | Enabled(s, Give(item))
      ensures item < Top(slab, objectSize)
    {
      StepRefines(s, Give(item), ToSet(list), Top(slab, objectSize));
    }
  }
}

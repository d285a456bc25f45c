/**
  The physical frame allocator: twenty free lists, list `count - 1` holding the addresses of the
  free chunks of `count` frames.

  Chunks are weighed rather than enumerated. `Total(lists, f)` adds up a weight `f(address, count)`
  over every free chunk, and three weights give everything that is stated here: `CoverAt(p)`
  (how many free chunks contain the byte at `p`), `FrameWeight` (how many frames are free) and
  `ChunkWeight` (how many chunks there are).
  */
module Frame {
  import opened Word32

  const MAX_FRAMES := 20
  const PAGE_SIZE := 0x1000

  type FreeLists = lists: seq<seq<nat>> | |lists| == MAX_FRAMES witness seq(MAX_FRAMES, _ => [])

  type Weight = (int, nat) -> int

  const EMPTY: FreeLists := [[], [], [], [], [], [], [], [], [], [], [], [], [], [], [], [], [], [], [], []]

  function FreeList(lists: FreeLists, count: nat): seq<nat>
    requires 1 <= count <= MAX_FRAMES
  {
    lists[count - 1]
  }

  /** Replacing one free list leaves every other as it is. */
  function WithList(lists: FreeLists, count: nat, list: seq<nat>): (r: FreeLists)
    requires 1 <= count <= MAX_FRAMES
    ensures FreeList(r, count) == list
    ensures forall c :: 1 <= c <= MAX_FRAMES && c != count ==> FreeList(r, c) == FreeList(lists, c)
  {
    lists[count - 1 := list]
  }

  // ---------------------------------------------------------------- weights

  function ListTotal(list: seq<nat>, count: nat, f: Weight): int {
    if list == [] then 0 else f(list[0], count) + ListTotal(list[1..], count, f)
  }

  /** The weight of the first `n` free lists. */
  function TotalUpTo(lists: FreeLists, n: nat, f: Weight): int
    requires n <= MAX_FRAMES
  {
    if n == 0 then 0 else TotalUpTo(lists, n - 1, f) + ListTotal(lists[n - 1], n, f)
  }

  function Total(lists: FreeLists, f: Weight): int {
    TotalUpTo(lists, MAX_FRAMES, f)
  }

  function CoverAt(p: int): Weight {
    (address: int, count: nat) => if address <= p < address + count * PAGE_SIZE then 1 else 0
  }

  function FrameWeight(): Weight {
    (address: int, count: nat) => count
  }

  function ChunkWeight(): Weight {
    (address: int, count: nat) => 1
  }

  lemma {:induction false} ListTotalConcat(a: seq<nat>, b: seq<nat>, count: nat, f: Weight)
    ensures ListTotal(a + b, count, f) == ListTotal(a, count, f) + ListTotal(b, count, f)
  {
    if a == [] {
      assert a + b == b;
    } else {
      assert (a + b)[1..] == a[1..] + b;
      ListTotalConcat(a[1..], b, count, f);
    }
  }

  lemma ListTotalRemove(list: seq<nat>, i: nat, count: nat, f: Weight)
    requires i < |list|
    ensures ListTotal(list, count, f) == f(list[i], count) + ListTotal(list[..i] + list[i + 1..], count, f)
  {
    assert list == list[..i] + ([list[i]] + list[i + 1..]);
    ListTotalConcat(list[..i], [list[i]] + list[i + 1..], count, f);
    ListTotalConcat(list[..i], list[i + 1..], count, f);
  }

  lemma {:induction false} TotalUpdate(lists: FreeLists, k: nat, list: seq<nat>, n: nat, f: Weight)
    requires k < MAX_FRAMES && n <= MAX_FRAMES
    ensures TotalUpTo(lists[k := list], n, f)
         == TotalUpTo(lists, n, f)
          + (if k < n then ListTotal(list, k + 1, f) - ListTotal(lists[k], k + 1, f) else 0)
  {
    if n > 0 {
      TotalUpdate(lists, k, list, n - 1, f);
    }
  }

  // ---------------------------------------------------------------- adding a free chunk

  /** The buddy test, on 32-bit words and relative to the allocator's base. */
  predicate BuddyCheck(a: int, b: int, size: int, base: int) {
    var lower := Wrap(Min(a, b) - base);
    var upper := Wrap(Max(a, b) - base);
    Wrap(lower + size) == upper
  }

  predicate Adjacent(a: int, b: int, size: int) {
    Min(a, b) + size == Max(a, b)
  }

  /** Neither the base nor wrapping around matters: buddies are exactly the chunks that touch. */
  lemma BuddyCheckIsAdjacency(a: int, b: int, size: int, base: int)
    requires 0 <= a < U32 && 0 <= b < U32 && 0 <= size < U32
    ensures BuddyCheck(a, b, size, base) <==> Adjacent(a, b, size)
  {
    var lower, upper := Wrap(Min(a, b) - base), Wrap(Max(a, b) - base);
    var k := (Min(a, b) - base) / U32;
    var m := (Max(a, b) - base) / U32;
    var n := (lower + size) / U32;
    assert lower == Min(a, b) - base - k * U32;
    assert upper == Max(a, b) - base - m * U32;
    assert Wrap(lower + size) == Min(a, b) - base + size - (k + n) * U32;
    if BuddyCheck(a, b, size, base) {
      var d := Min(a, b) + size - Max(a, b);
      assert d == (k + n - m) * U32;
      assert -U32 < d < U32;
      assert k + n - m == 0;
    }
    if Adjacent(a, b, size) {
      var w := Wrap(lower + size);
      assert w - upper == (m - k - n) * U32;
      assert -U32 < w - upper < U32;
      assert m - k - n == 0;
    }
  }

  /** The position of the first buddy in a free list, or its length if there is none. */
  function FirstBuddy(list: seq<nat>, address: nat, size: int): (i: nat)
    ensures i <= |list|
    ensures i < |list| ==> Adjacent(list[i], address, size)
    ensures forall j :: 0 <= j < i ==> !Adjacent(list[j], address, size)
  {
    if list == [] || Adjacent(list[0], address, size) then 0
    else 1 + FirstBuddy(list[1..], address, size)
  }

  /** Where in the list of `count`-frame chunks a freed chunk finds the partner it merges with. */
  function Partner(lists: FreeLists, address: nat, count: nat): (i: nat)
    requires 1 <= count <= MAX_FRAMES
    ensures i <= |FreeList(lists, count)|
  {
    if count < MAX_FRAMES
    then FirstBuddy(FreeList(lists, count), address, count * PAGE_SIZE)
    else |FreeList(lists, count)|
  }

  predicate HasPartner(lists: FreeLists, address: nat, count: nat)
    requires 1 <= count <= MAX_FRAMES
  {
    Partner(lists, address, count) < |FreeList(lists, count)|
  }

  /** The lists once that partner is unlinked. */
  function WithoutPartner(lists: FreeLists, address: nat, count: nat): FreeLists
    requires 1 <= count <= MAX_FRAMES && HasPartner(lists, address, count)
  {
    var list, i := FreeList(lists, count), Partner(lists, address, count);
    WithList(lists, count, list[..i] + list[i + 1..])
  }

  function MergedAddress(lists: FreeLists, address: nat, count: nat): nat
    requires 1 <= count <= MAX_FRAMES && HasPartner(lists, address, count)
  {
    Min(FreeList(lists, count)[Partner(lists, address, count)], address)
  }

  /**
    The lists after a chunk is given back. Two merged chunks of `count` frames go on as one
    chunk of `count + 1`, as in the source, however large `count` is.
    */
  function AddFree(lists: FreeLists, address: nat, count: nat, newItem: bool): FreeLists
    requires 1 <= count
    decreases MAX_FRAMES + 1 - count
  {
    if count > MAX_FRAMES then lists
    else
      var list := FreeList(lists, count);
      if newItem || list == [] then WithList(lists, count, [address] + list)
      else if HasPartner(lists, address, count) then
        AddFree(WithoutPartner(lists, address, count), MergedAddress(lists, address, count), count + 1, false)
      else WithList(lists, count, list + [address])
  }

  lemma AddFreeCases(lists: FreeLists, address: nat, count: nat, newItem: bool)
    requires 1 <= count
    ensures var r := AddFree(lists, address, count, newItem);
            if count > MAX_FRAMES then r == lists
            else
              var list := FreeList(lists, count);
              if newItem || list == [] then r == WithList(lists, count, [address] + list)
              else if !HasPartner(lists, address, count) then r == WithList(lists, count, list + [address])
              else r == AddFree(WithoutPartner(lists, address, count), MergedAddress(lists, address, count), count + 1, false)
  {
  }

  /** How many merges giving back a chunk sets off. */
  function Merges(lists: FreeLists, address: nat, count: nat): nat
    requires 1 <= count
    decreases MAX_FRAMES + 1 - count
  {
    if count > MAX_FRAMES || !HasPartner(lists, address, count) then 0
    else 1 + Merges(WithoutPartner(lists, address, count), MergedAddress(lists, address, count), count + 1)
  }

  /** What `merges` merges starting at chunks of `count` frames lose: the sum of count + i - 1. */
  function Loss(count: nat, merges: nat): nat
    requires 1 <= count
    decreases merges
  {
    if merges == 0 then 0 else count - 1 + Loss(count + 1, merges - 1)
  }

  // One step of AddFree on any weight: the chunk is either stored as it is, or its partner leaves.

  lemma StoreTotal(lists: FreeLists, address: nat, count: nat, newItem: bool, f: Weight)
    requires 1 <= count <= MAX_FRAMES
    requires newItem || !HasPartner(lists, address, count)
    ensures Total(AddFree(lists, address, count, newItem), f) == Total(lists, f) + f(address, count)
  {
    var list := FreeList(lists, count);
    ListTotalConcat([address], list, count, f);
    ListTotalConcat(list, [address], count, f);
    TotalUpdate(lists, count - 1, [address] + list, MAX_FRAMES, f);
    TotalUpdate(lists, count - 1, list + [address], MAX_FRAMES, f);
  }

  lemma UnlinkTotal(lists: FreeLists, address: nat, count: nat, f: Weight)
    requires 1 <= count <= MAX_FRAMES && HasPartner(lists, address, count)
    ensures Total(lists, f)
         == Total(WithoutPartner(lists, address, count), f)
          + f(FreeList(lists, count)[Partner(lists, address, count)], count)
  {
    var list, i := FreeList(lists, count), Partner(lists, address, count);
    ListTotalRemove(list, i, count, f);
    TotalUpdate(lists, count - 1, list[..i] + list[i + 1..], MAX_FRAMES, f);
  }

  /** No byte becomes free that was not free before or given back now, through any cascade. */
  lemma {:induction false} AddFreeCover(lists: FreeLists, address: nat, count: nat, newItem: bool, p: int)
    requires 1 <= count
    ensures Total(AddFree(lists, address, count, newItem), CoverAt(p))
         <= Total(lists, CoverAt(p)) + CoverAt(p)(address, count)
    decreases MAX_FRAMES + 1 - count
  {
    if count <= MAX_FRAMES {
      if newItem || !HasPartner(lists, address, count) {
        StoreTotal(lists, address, count, newItem, CoverAt(p));
      } else {
        UnlinkTotal(lists, address, count, CoverAt(p));
        var merged := MergedAddress(lists, address, count);
        AddFreeCover(WithoutPartner(lists, address, count), merged, count + 1, false, p);
      }
    }
  }

  /** Exact accounting of a freed chunk: a cascade of k merges loses the sum of count + i - 1, i < k. */
  lemma {:induction false} AddFreeFrames(lists: FreeLists, address: nat, count: nat)
    requires 1 <= count <= MAX_FRAMES
    ensures Total(AddFree(lists, address, count, false), FrameWeight())
         == Total(lists, FrameWeight()) + count - Loss(count, Merges(lists, address, count))
    decreases MAX_FRAMES - count
  {
    if !HasPartner(lists, address, count) {
      StoreTotal(lists, address, count, false, FrameWeight());
    } else {
      UnlinkTotal(lists, address, count, FrameWeight());
      AddFreeFrames(WithoutPartner(lists, address, count), MergedAddress(lists, address, count), count + 1);
    }
  }

  lemma {:induction false} LossClosedForm(count: nat, merges: nat)
    requires 1 <= count
    decreases merges
    ensures 2 * Loss(count, merges) == merges * (2 * count + merges - 3)
    ensures Loss(count, merges) == 0 <==> merges == 0 || (count == 1 && merges == 1)
  {
    if merges > 0 {
      LossClosedForm(count + 1, merges - 1);
    }
  }

  /**
    Giving chunks back should conserve frames; it does exactly when no merge happens above
    single frames, which a caller can read off two free lists.
    */
  lemma FreeConservesExactly(lists: FreeLists, address: nat, count: nat)
    requires 1 <= count <= MAX_FRAMES
    ensures Total(AddFree(lists, address, count, false), FrameWeight()) == Total(lists, FrameWeight()) + count
       <==> !HasPartner(lists, address, count)
            || (count == 1
                && !HasPartner(WithoutPartner(lists, address, 1), MergedAddress(lists, address, 1), 2))
  {
    AddFreeFrames(lists, address, count);
    LossClosedForm(count, Merges(lists, address, count));
  }

  lemma OneMerge()
    ensures var lists := EMPTY[1 := [0x10_0000]]; Merges(lists, 0x10_2000, 2) == 1
  {
    var lists := EMPTY[1 := [0x10_0000]];
    assert HasPartner(lists, 0x10_2000, 2);
    assert !HasPartner(WithoutPartner(lists, 0x10_2000, 2), 0x10_0000, 3);
  }

  /** A concrete leak: giving back two frames beside two free ones leaves three. */
  lemma FreeLeaksAFrame()
    ensures var lists := EMPTY[1 := [0x10_0000]];
            Total(lists, FrameWeight()) == 2
            && Total(AddFree(lists, 0x10_2000, 2, false), FrameWeight()) == 3
  {
    hide AddFree, Merges, HasPartner, FirstBuddy;
    var lists := EMPTY[1 := [0x10_0000]];
    TotalEmpty(MAX_FRAMES, FrameWeight());
    TotalUpdate(EMPTY, 1, [0x10_0000], MAX_FRAMES, FrameWeight());
    OneMerge();
    hide TotalUpTo;
    AddFreeFrames(lists, 0x10_2000, 2);
  }

  lemma {:induction false} TotalEmpty(n: nat, f: Weight)
    requires n <= MAX_FRAMES
    ensures TotalUpTo(EMPTY, n, f) == 0
  {
    if n > 0 {
      TotalEmpty(n - 1, f);
    }
  }

  // ---------------------------------------------------------------- cascades of merges

  /** The chunks that a freed chunk merges with, one after the other. */
  function Partners(lists: FreeLists, address: nat, count: nat): seq<nat>
    requires 1 <= count
    decreases MAX_FRAMES + 1 - count
  {
    if count > MAX_FRAMES || !HasPartner(lists, address, count) then []
    else
      [FreeList(lists, count)[Partner(lists, address, count)]]
      + Partners(WithoutPartner(lists, address, count), MergedAddress(lists, address, count), count + 1)
  }

  /** The lowest of an address and the first `n` partners: where the merged chunk starts by then. */
  function Lowest(address: nat, partners: seq<nat>, n: nat): (low: nat)
    requires n <= |partners|
    ensures low <= address && forall i :: 0 <= i < n ==> low <= partners[i]
    ensures low == address || exists i :: 0 <= i < n && partners[i] == low
  {
    if n == 0 then address else Min(Lowest(address, partners, n - 1), partners[n - 1])
  }

  lemma {:induction false} LowestShift(address: nat, b: nat, rest: seq<nat>, n: nat)
    requires n <= |rest|
    ensures Lowest(address, [b] + rest, n + 1) == Lowest(Min(b, address), rest, n)
  {
    if n > 0 {
      LowestShift(address, b, rest, n - 1);
    }
  }

  /** One list is the other without the first chunk that touches `address`, which is `b`. */
  predicate Unlinked(before: seq<nat>, after: seq<nat>, b: nat, address: nat, size: int) {
    exists i :: 0 <= i < |before| && before[i] == b && Adjacent(b, address, size)
                && after == before[..i] + before[i + 1..]
                && forall j :: 0 <= j < i ==> !Adjacent(before[j], address, size)
  }

  /** The merge with the partner at an index takes it off the list for its count. */
  predicate StepUnlinks(lists: FreeLists, t: FreeLists, address: nat, count: nat, partners: seq<nat>, j: nat)
    requires 1 <= count && count + |partners| <= MAX_FRAMES && j < |partners|
  {
    Unlinked(FreeList(lists, count + j), FreeList(t, count + j), partners[j],
             Lowest(address, partners, j), (count + j) * PAGE_SIZE)
  }

  ghost predicate StepsUnlink(lists: FreeLists, t: FreeLists, address: nat, count: nat, partners: seq<nat>)
    requires 1 <= count && count + |partners| <= MAX_FRAMES
  {
    forall j :: 0 <= j < |partners| ==> StepUnlinks(lists, t, address, count, partners, j)
  }

  /** No chunk of `count` frames touches a chunk at an address, or there is no larger count to merge to. */
  predicate Settled(lists: FreeLists, address: nat, count: nat)
    requires 1 <= count <= MAX_FRAMES
  {
    count == MAX_FRAMES
    || forall i :: 0 <= i < |FreeList(lists, count)| ==> !Adjacent(FreeList(lists, count)[i], address, count * PAGE_SIZE)
  }

  /** Lists below `count` and above `top` are the same. */
  predicate SameOutside(lists: FreeLists, t: FreeLists, count: nat, top: nat) {
    forall c :: 1 <= c <= MAX_FRAMES && !(count <= c <= top) ==> FreeList(t, c) == FreeList(lists, c)
  }

  /**
    What becomes of every list when a chunk is given back: each list on the way loses the first
    chunk that touches what has been merged so far, and the list above them gains, at its end, one
    chunk that starts at the lowest address of all. It goes on until no chunk there touches.
    */
  ghost predicate Cascaded(lists: FreeLists, t: FreeLists, address: nat, count: nat, partners: seq<nat>)
    requires 1 <= count
  {
    var top := count + |partners|;
    && top <= MAX_FRAMES
    && StepsUnlink(lists, t, address, count, partners)
    && FreeList(t, top) == FreeList(lists, top) + [Lowest(address, partners, |partners|)]
    && Settled(lists, Lowest(address, partners, |partners|), top)
    && SameOutside(lists, t, count, top)
  }

  lemma StepShift(lists: FreeLists, rest: FreeLists, t: FreeLists, address: nat, b: nat, count: nat, more: seq<nat>, i: nat)
    requires 1 <= count && count + 1 + |more| <= MAX_FRAMES && i < |more|
    requires StepUnlinks(rest, t, Min(b, address), count + 1, more, i)
    requires FreeList(rest, count + 1 + i) == FreeList(lists, count + 1 + i)
    ensures StepUnlinks(lists, t, address, count, [b] + more, i + 1)
  {
    hide Unlinked, Lowest;
    LowestShift(address, b, more, i);
    assert count + (i + 1) == count + 1 + i;
  }

  lemma StepsPrepend(lists: FreeLists, rest: FreeLists, t: FreeLists, address: nat, b: nat, count: nat, more: seq<nat>)
    requires 1 <= count && count + 1 + |more| <= MAX_FRAMES
    requires StepsUnlink(rest, t, Min(b, address), count + 1, more)
    requires forall c :: count < c <= MAX_FRAMES ==> FreeList(rest, c) == FreeList(lists, c)
    requires Unlinked(FreeList(lists, count), FreeList(t, count), b, address, count * PAGE_SIZE)
    ensures StepsUnlink(lists, t, address, count, [b] + more)
  {
    var partners := [b] + more;
    LowestOfNone(address, partners);
    assert StepUnlinks(lists, t, address, count, partners, 0);
    hide StepUnlinks;
    forall j | 0 <= j < |partners|
      ensures StepUnlinks(lists, t, address, count, partners, j)
    {
      if j > 0 {
        StepShift(lists, rest, t, address, b, count, more, j - 1);
      }
    }
  }

  lemma CascadePrepend(lists: FreeLists, rest: FreeLists, t: FreeLists, address: nat, b: nat, count: nat, more: seq<nat>)
    requires 1 <= count && Cascaded(rest, t, Min(b, address), count + 1, more)
    requires forall c :: 1 <= c <= MAX_FRAMES && c != count ==> FreeList(rest, c) == FreeList(lists, c)
    requires Unlinked(FreeList(lists, count), FreeList(rest, count), b, address, count * PAGE_SIZE)
    ensures Cascaded(lists, t, address, count, [b] + more)
  {
    hide Unlinked, Lowest, FreeList, StepsUnlink;
    assert FreeList(t, count) == FreeList(rest, count);
    StepsPrepend(lists, rest, t, address, b, count, more);
    LowestShift(address, b, more, |more|);
  }

  lemma {:induction false} CascadeExactly(lists: FreeLists, address: nat, count: nat)
    requires 1 <= count <= MAX_FRAMES
    ensures Cascaded(lists, AddFree(lists, address, count, false), address, count, Partners(lists, address, count))
    decreases MAX_FRAMES - count
  {
    AddFreeCases(lists, address, count, false);
    if !HasPartner(lists, address, count) {
      CascadeEnds(lists, address, count);
    } else {
      var b := FreeList(lists, count)[Partner(lists, address, count)];
      var rest, low := WithoutPartner(lists, address, count), MergedAddress(lists, address, count);
      assert low == Min(b, address);
      CascadeExactly(rest, low, count + 1);
      FirstUnlinked(lists, address, count);
      assert Partners(lists, address, count) == [b] + Partners(rest, low, count + 1);
      hide AddFree, Unlinked, Partners, Lowest, Cascaded;
      CascadePrepend(lists, rest, AddFree(rest, low, count + 1, false), address, b, count, Partners(rest, low, count + 1));
    }
  }

  lemma CascadeEnds(lists: FreeLists, address: nat, count: nat)
    requires 1 <= count <= MAX_FRAMES && !HasPartner(lists, address, count)
    ensures Cascaded(lists, AddFree(lists, address, count, false), address, count, Partners(lists, address, count))
  {
    var list := FreeList(lists, count);
    assert list == [] ==> [address] + list == list + [address];
    assert AddFree(lists, address, count, false) == WithList(lists, count, list + [address]);
    hide AddFree;
  }

  lemma {:induction false} PartnersAreMerges(lists: FreeLists, address: nat, count: nat)
    requires 1 <= count
    ensures |Partners(lists, address, count)| == Merges(lists, address, count)
    decreases MAX_FRAMES + 1 - count
  {
    if count <= MAX_FRAMES && HasPartner(lists, address, count) {
      PartnersAreMerges(WithoutPartner(lists, address, count), MergedAddress(lists, address, count), count + 1);
    }
  }

  lemma LowestOfNone(address: nat, partners: seq<nat>)
    ensures Lowest(address, partners, 0) == address
  {
  }

  lemma FirstUnlinked(lists: FreeLists, address: nat, count: nat)
    requires 1 <= count <= MAX_FRAMES && HasPartner(lists, address, count)
    ensures Unlinked(FreeList(lists, count), FreeList(WithoutPartner(lists, address, count), count),
                     FreeList(lists, count)[Partner(lists, address, count)], address, count * PAGE_SIZE)
  {
    var i := Partner(lists, address, count);
    assert FreeList(lists, count)[i] == FreeList(lists, count)[i];
  }

  /** How often the byte at `p` is dropped by merging chunks of `count` frames and more with these partners. */
  function Dropped(address: nat, count: nat, partners: seq<nat>, p: int): nat
    decreases |partners|
  {
    if partners == [] then 0
    else
      var low := Min(address, partners[0]);
      (if low + (count + 1) * PAGE_SIZE <= p < low + 2 * count * PAGE_SIZE then 1 else 0)
      + Dropped(low, count + 1, partners[1..], p)
  }

  /** Exactly the bytes given back become free, less those that merging drops from the ends. */
  lemma {:induction false} CascadeCover(lists: FreeLists, address: nat, count: nat, p: int)
    requires 1 <= count <= MAX_FRAMES
    ensures Total(AddFree(lists, address, count, false), CoverAt(p)) + Dropped(address, count, Partners(lists, address, count), p)
         == Total(lists, CoverAt(p)) + CoverAt(p)(address, count)
    decreases MAX_FRAMES - count
  {
    if !HasPartner(lists, address, count) {
      StoreTotal(lists, address, count, false, CoverAt(p));
    } else {
      UnlinkTotal(lists, address, count, CoverAt(p));
      AddFreeCases(lists, address, count, false);
      var i, list := Partner(lists, address, count), FreeList(lists, count);
      var rest, low := WithoutPartner(lists, address, count), MergedAddress(lists, address, count);
      CascadeCover(rest, low, count + 1, p);
      var more := Partners(rest, low, count + 1);
      assert Partners(lists, address, count) == [list[i]] + more && ([list[i]] + more)[1..] == more;
      TwoAreOneLess(address, list[i], count, p);
    }
  }

  /** Two chunks that touch cover what the chunk of one frame more does, and what that leaves out. */
  lemma TwoAreOneLess(a: nat, b: nat, count: nat, p: int)
    requires 1 <= count && Adjacent(b, a, count * PAGE_SIZE)
    ensures var low := Min(a, b);
            CoverAt(p)(a, count) + CoverAt(p)(b, count)
            == CoverAt(p)(low, count + 1)
             + if low + (count + 1) * PAGE_SIZE <= p < low + 2 * count * PAGE_SIZE then 1 else 0
  {
  }

  /** A single merge: the free bytes grow by those given back, less the end of the two chunks from count + 1 frames on. */
  lemma OneMergeCover(lists: FreeLists, a: nat, b: nat, count: nat, p: int)
    requires 1 <= count < MAX_FRAMES && Partners(lists, a, count) == [b]
    ensures Total(AddFree(lists, a, count, false), CoverAt(p))
          + (if Min(a, b) + (count + 1) * PAGE_SIZE <= p < Min(a, b) + 2 * count * PAGE_SIZE then 1 else 0)
         == Total(lists, CoverAt(p)) + (if a <= p < a + count * PAGE_SIZE then 1 else 0)
  {
    CascadeCover(lists, a, count, p);
    assert [b][1..] == [];
    assert Dropped(Min(a, b), count + 1, [], p) == 0;
  }

  // ---------------------------------------------------------------- allocation

  /** The smallest count, from `count` on, whose free list is not empty; above MAX_FRAMES if none is. */
  function FirstStocked(lists: FreeLists, count: nat): (c: nat)
    requires 1 <= count
    ensures count <= c
    ensures c <= MAX_FRAMES ==> FreeList(lists, c) != []
    ensures forall k :: count <= k < c && k <= MAX_FRAMES ==> FreeList(lists, k) == []
    decreases MAX_FRAMES + 1 - count
  {
    if count > MAX_FRAMES || FreeList(lists, count) != [] then count else FirstStocked(lists, count + 1)
  }

  predicate CanAlloc(lists: FreeLists, want: nat)
    requires 1 <= want
  {
    FirstStocked(lists, want) <= MAX_FRAMES
  }

  function AllocAddress(lists: FreeLists, want: nat): nat
    requires 1 <= want && CanAlloc(lists, want)
  {
    FreeList(lists, FirstStocked(lists, want))[0]
  }

  function Popped(lists: FreeLists, count: nat): FreeLists
    requires 1 <= count <= MAX_FRAMES && FreeList(lists, count) != []
  {
    WithList(lists, count, FreeList(lists, count)[1..])
  }

  /** The address behind a chunk. */
  function ChunkEnd(address: nat, count: nat): nat {
    address + count * PAGE_SIZE
  }

  /** The lists once a chunk of the best fitting count is popped and its tail is given back. */
  function AfterAlloc(lists: FreeLists, want: nat): FreeLists
    requires 1 <= want && CanAlloc(lists, want)
  {
    var count := FirstStocked(lists, want);
    var rest := Popped(lists, count);
    if count == want then rest
    else AddFree(rest, ChunkEnd(AllocAddress(lists, want), want), count - want, false)
  }

  /** The frames that merging the tail of an allocation loses. */
  function AllocLoss(lists: FreeLists, want: nat): nat
    requires 1 <= want && CanAlloc(lists, want)
  {
    var count := FirstStocked(lists, want);
    if count == want then 0
    else
      var tail := ChunkEnd(AllocAddress(lists, want), want);
      Loss(count - want, Merges(Popped(lists, count), tail, count - want))
  }

  lemma PoppedTotal(lists: FreeLists, count: nat, f: Weight)
    requires 1 <= count <= MAX_FRAMES && FreeList(lists, count) != []
    ensures Total(lists, f) == Total(Popped(lists, count), f) + f(FreeList(lists, count)[0], count)
  {
    TotalUpdate(lists, count - 1, FreeList(lists, count)[1..], MAX_FRAMES, f);
  }

  /** An allocation comes out of the free chunks byte for byte. */
  lemma AllocCover(lists: FreeLists, want: nat, p: int)
    requires 1 <= want && CanAlloc(lists, want)
    ensures Total(AfterAlloc(lists, want), CoverAt(p)) + CoverAt(p)(AllocAddress(lists, want), want)
         <= Total(lists, CoverAt(p))
  {
    hide Total, AddFree, FirstStocked;
    var count := FirstStocked(lists, want);
    PoppedTotal(lists, count, CoverAt(p));
    if count > want {
      var tail := ChunkEnd(AllocAddress(lists, want), want);
      AddFreeCover(Popped(lists, count), tail, count - want, false, p);
    }
  }

  /** Which chunk an allocation is cut from: the head of the smallest list that has one; the rest of it is given back. */
  lemma AllocExactly(lists: FreeLists, want: nat, count: nat)
    requires 1 <= want <= count <= MAX_FRAMES
    requires FreeList(lists, count) != [] && forall c :: want <= c < count ==> FreeList(lists, c) == []
    ensures CanAlloc(lists, want) && AllocAddress(lists, want) == FreeList(lists, count)[0]
    ensures var rest := WithList(lists, count, FreeList(lists, count)[1..]);
            AfterAlloc(lists, want)
            == if count == want then rest
               else AddFree(rest, FreeList(lists, count)[0] + want * PAGE_SIZE, count - want, false)
  {
    hide AddFree, FirstStocked;
    var c := FirstStocked(lists, want);
    assert c == count;
  }

  /** It fails exactly when no list from the wanted count on has a chunk. */
  lemma CanAllocExactly(lists: FreeLists, want: nat)
    requires 1 <= want
    ensures CanAlloc(lists, want) <==> exists c :: want <= c <= MAX_FRAMES && FreeList(lists, c) != []
  {
    var c := FirstStocked(lists, want);
    if c <= MAX_FRAMES {
      assert FreeList(lists, c) != [];
    }
  }

  /** Exactly the bytes handed out stop being free, and those that merging the rest drops. */
  lemma AllocCoverExactly(lists: FreeLists, want: nat, p: int)
    requires 1 <= want && CanAlloc(lists, want)
    ensures var count := FirstStocked(lists, want);
            var at := AllocAddress(lists, want);
            var dropped := if count == want then 0
                           else Dropped(ChunkEnd(at, want), count - want,
                                        Partners(Popped(lists, count), ChunkEnd(at, want), count - want), p);
            Total(AfterAlloc(lists, want), CoverAt(p)) + CoverAt(p)(at, want) + dropped == Total(lists, CoverAt(p))
  {
    hide Total, AddFree, FirstStocked, Dropped, Partners;
    var count := FirstStocked(lists, want);
    PoppedTotal(lists, count, CoverAt(p));
    if count > want {
      CascadeCover(Popped(lists, count), ChunkEnd(AllocAddress(lists, want), want), count - want, p);
    }
  }

  lemma AllocFrames(lists: FreeLists, want: nat)
    requires 1 <= want && CanAlloc(lists, want)
    ensures Total(AfterAlloc(lists, want), FrameWeight()) + want + AllocLoss(lists, want)
         == Total(lists, FrameWeight())
  {
    hide Total, AddFree, FirstStocked, Merges, Loss;
    var count := FirstStocked(lists, want);
    PoppedTotal(lists, count, FrameWeight());
    if count > want {
      AddFreeFrames(Popped(lists, count), ChunkEnd(AllocAddress(lists, want), want), count - want);
    }
  }

  // ---------------------------------------------------------------- carving up a memory region

  /** The lists after `frames` frames from `address` on are added in the largest possible chunks. */
  function Tiled(lists: FreeLists, address: nat, frames: nat): FreeLists
    decreases frames
  {
    if frames == 0 then lists
    else
      var count := Min(frames, MAX_FRAMES);
      Tiled(AddFree(lists, address, count, true), address + count * PAGE_SIZE, frames - count)
  }

  /** The tiles are disjoint and cover precisely the frames of the region. */
  lemma {:induction false} TiledCover(lists: FreeLists, address: nat, frames: nat, p: int)
    ensures Total(Tiled(lists, address, frames), CoverAt(p))
         == Total(lists, CoverAt(p)) + CoverAt(p)(address, frames)
    decreases frames
  {
    if frames > 0 {
      var count := Min(frames, MAX_FRAMES);
      StoreTotal(lists, address, count, true, CoverAt(p));
      TiledCover(AddFree(lists, address, count, true), address + count * PAGE_SIZE, frames - count, p);
    }
  }

  lemma {:induction false} TiledFrames(lists: FreeLists, address: nat, frames: nat)
    ensures Total(Tiled(lists, address, frames), FrameWeight()) == Total(lists, FrameWeight()) + frames
    decreases frames
  {
    if frames > 0 {
      var count := Min(frames, MAX_FRAMES);
      StoreTotal(lists, address, count, true, FrameWeight());
      TiledFrames(AddFree(lists, address, count, true), address + count * PAGE_SIZE, frames - count);
    }
  }

  /** How many new chunks of `count` frames a region of `frames` frames is cut into. */
  function TileCount(frames: nat, count: nat): nat {
    if count == MAX_FRAMES then frames / MAX_FRAMES
    else if 0 < count == frames % MAX_FRAMES then 1
    else 0
  }

  lemma TileCountStep(frames: nat, count: nat)
    requires 1 <= count <= MAX_FRAMES
    ensures TileCount(0, count) == 0
    ensures var step := Min(frames, MAX_FRAMES);
            TileCount(frames, count) == TileCount(frames - step, count) + if count == step then 1 else 0
  {
  }

  /** The tiles are chunks of the maximal size and at most one remainder, pushed before what was there. */
  lemma {:induction false} TiledShape(lists: FreeLists, address: nat, frames: nat, count: nat)
    requires 1 <= count <= MAX_FRAMES
    ensures var list := FreeList(Tiled(lists, address, frames), count);
            |list| == TileCount(frames, count) + |FreeList(lists, count)|
            && list[TileCount(frames, count)..] == FreeList(lists, count)
    decreases frames
  {
    TileCountStep(frames, count);
    hide TileCount;
    if frames > 0 {
      var step := Min(frames, MAX_FRAMES);
      var pushed := AddFree(lists, address, step, true);
      TiledShape(pushed, address + step * PAGE_SIZE, frames - step, count);
      AddFreeCases(lists, address, step, true);
      assert count == step ==> FreeList(pushed, count) == [address] + FreeList(lists, count);
    }
  }

  // ---------------------------------------------------------------- coalescing

  /** No two free chunks of the same count below the maximum touch. */
  predicate Coalesced(lists: FreeLists) {
    forall c :: 1 <= c < MAX_FRAMES ==> Apart(FreeList(lists, c), c * PAGE_SIZE)
  }

  predicate Apart(list: seq<nat>, size: int) {
    forall i, j :: 0 <= i < |list| && 0 <= j < |list| ==> list[i] + size != list[j]
  }

  lemma {:induction false} AddFreeCoalesced(lists: FreeLists, address: nat, count: nat)
    requires 1 <= count && Coalesced(lists)
    ensures Coalesced(AddFree(lists, address, count, false))
    decreases MAX_FRAMES + 1 - count
  {
    if count <= MAX_FRAMES && HasPartner(lists, address, count) {
      AddFreeCoalesced(WithoutPartner(lists, address, count), MergedAddress(lists, address, count), count + 1);
    }
  }

  lemma AllocCoalesced(lists: FreeLists, want: nat)
    requires 1 <= want && CanAlloc(lists, want) && Coalesced(lists)
    ensures Coalesced(AfterAlloc(lists, want))
  {
    var count := FirstStocked(lists, want);
    if count > want {
      AddFreeCoalesced(Popped(lists, count), ChunkEnd(AllocAddress(lists, want), want), count - want);
    }
  }

  /** Where the remainder of a region lies, behind its tiles of the maximal size. */
  function RemainderAt(address: nat, frames: nat): nat {
    address + (frames - frames % MAX_FRAMES) * PAGE_SIZE
  }

  lemma RemainderStays(address: nat, frames: nat)
    requires frames >= MAX_FRAMES
    ensures (frames - MAX_FRAMES) % MAX_FRAMES == frames % MAX_FRAMES
    ensures RemainderAt(address + MAX_FRAMES * PAGE_SIZE, frames - MAX_FRAMES) == RemainderAt(address, frames)
  {
  }

  /** Adding a region puts its remainder, if there is one, in front of one list below the maximum. */
  lemma {:induction false} TiledBelowMax(lists: FreeLists, address: nat, frames: nat, count: nat)
    requires 1 <= count < MAX_FRAMES
    ensures FreeList(Tiled(lists, address, frames), count)
         == if count == frames % MAX_FRAMES then [RemainderAt(address, frames)] + FreeList(lists, count)
            else FreeList(lists, count)
    decreases frames
  {
    if frames >= MAX_FRAMES {
      RemainderStays(address, frames);
    }
    assert frames < MAX_FRAMES ==> frames % MAX_FRAMES == frames && RemainderAt(address, frames) == address;
    hide RemainderAt;
    if frames > 0 {
      var step := Min(frames, MAX_FRAMES);
      TiledBelowMax(AddFree(lists, address, step, true), address + step * PAGE_SIZE, frames - step, count);
    }
  }

  /** The remainder of a region touches no free chunk of its own count. */
  predicate Detached(lists: FreeLists, address: nat, frames: nat) {
    var count := frames % MAX_FRAMES;
    count == 0 || forall i :: 0 <= i < |FreeList(lists, count)| ==>
      !Adjacent(FreeList(lists, count)[i], RemainderAt(address, frames), count * PAGE_SIZE)
  }

  /** A region is not merged with what is free already: the lists stay coalesced exactly when it is detached. */
  lemma TiledCoalescedExactly(lists: FreeLists, address: nat, frames: nat)
    requires Coalesced(lists)
    ensures Coalesced(Tiled(lists, address, frames)) <==> Detached(lists, address, frames)
  {
    var t, count := Tiled(lists, address, frames), frames % MAX_FRAMES;
    forall c | 1 <= c < MAX_FRAMES && c != count
      ensures Apart(FreeList(t, c), c * PAGE_SIZE)
    {
      TiledBelowMax(lists, address, frames, c);
    }
    if count > 0 {
      TiledBelowMax(lists, address, frames, count);
      PushedApart(FreeList(lists, count), RemainderAt(address, frames), count * PAGE_SIZE);
    }
  }

  lemma PushedApart(list: seq<nat>, address: nat, size: int)
    requires Apart(list, size) && size > 0
    ensures Apart([address] + list, size) <==> forall i :: 0 <= i < |list| ==> !Adjacent(list[i], address, size)
  {
    var longer := [address] + list;
    if Apart(longer, size) {
      forall i | 0 <= i < |list|
        ensures !Adjacent(list[i], address, size)
      {
        assert longer[0] == address && longer[i + 1] == list[i];
      }
    } else {
      var i, j :| 0 <= i < |longer| && 0 <= j < |longer| && longer[i] + size == longer[j];
      var k := Max(i, j) - 1;
      assert i == 0 || j == 0;
      assert Adjacent(list[k], address, size);
    }
  }

  /** So one region alone is coalesced. */
  lemma FreshPoolCoalesced(address: nat, frames: nat)
    ensures Coalesced(Tiled(EMPTY, address, frames))
  {
    assert forall c :: 1 <= c <= MAX_FRAMES ==> FreeList(EMPTY, c) == [];
    TiledCoalescedExactly(EMPTY, address, frames);
  }

  // ---------------------------------------------------------------- the allocator

  /** Every free chunk lies within the 32-bit address space. */
  predicate InRange(lists: FreeLists) {
    forall c :: 1 <= c <= MAX_FRAMES ==> ListInRange(FreeList(lists, c), c)
  }

  predicate ListInRange(list: seq<nat>, count: nat) {
    forall i :: 0 <= i < |list| ==> list[i] + count * PAGE_SIZE <= U32
  }

  lemma UnlinkInRange(lists: FreeLists, address: nat, count: nat)
    requires 1 <= count <= MAX_FRAMES && HasPartner(lists, address, count) && InRange(lists)
    requires address + count * PAGE_SIZE <= U32
    ensures InRange(WithoutPartner(lists, address, count))
    ensures MergedAddress(lists, address, count) + (count + 1) * PAGE_SIZE <= U32
    ensures Partner(lists, address, count) < |FreeList(lists, count)|
  {
    assert ListInRange(FreeList(lists, count), count);
  }

  lemma {:induction false} AddFreeInRange(lists: FreeLists, address: nat, count: nat, newItem: bool)
    requires 1 <= count && InRange(lists)
    requires count <= MAX_FRAMES ==> address + count * PAGE_SIZE <= U32
    ensures InRange(AddFree(lists, address, count, newItem))
    decreases MAX_FRAMES + 1 - count
  {
    if count <= MAX_FRAMES && !newItem && HasPartner(lists, address, count) {
      UnlinkInRange(lists, address, count);
      AddFreeInRange(WithoutPartner(lists, address, count), MergedAddress(lists, address, count), count + 1, false);
    }
  }

  lemma StockedInRange(lists: FreeLists, want: nat)
    requires 1 <= want && CanAlloc(lists, want) && InRange(lists)
    ensures InRange(Popped(lists, FirstStocked(lists, want)))
    ensures AllocAddress(lists, want) + FirstStocked(lists, want) * PAGE_SIZE <= U32
  {
    assert ListInRange(FreeList(lists, FirstStocked(lists, want)), FirstStocked(lists, want));
  }

  lemma CutEnd(lists: FreeLists, want: nat)
    requires 1 <= want && CanAlloc(lists, want)
    requires AllocAddress(lists, want) + FirstStocked(lists, want) * PAGE_SIZE <= U32
    ensures var count, tail := FirstStocked(lists, want), ChunkEnd(AllocAddress(lists, want), want);
            && count <= MAX_FRAMES && FreeList(lists, count) != [] && AllocAddress(lists, want) == FreeList(lists, count)[0]
            && Popped(lists, count) == WithList(lists, count, FreeList(lists, count)[1..])
            && (count > want ==> tail < U32 && ChunkEnd(tail, count - want) <= U32)
            && AfterAlloc(lists, want)
            == if count == want then Popped(lists, count) else AddFree(Popped(lists, count), tail, count - want, false)
  {
    hide AddFree, FirstStocked;
  }

  lemma StockedNext(lists: FreeLists, count: nat)
    requires 1 <= count
    ensures FirstStocked(lists, count)
         == if count <= MAX_FRAMES && FreeList(lists, count) == [] then FirstStocked(lists, count + 1) else count
  {
  }

  class FrameAllocator {
    var base: int
    var lists: FreeLists

    ghost predicate Valid()
      reads this
    {
      0 <= base < U32 && InRange(lists)
    }

    constructor ()
      ensures Valid() && lists == EMPTY
    {
      base, lists := 0, EMPTY;
    }

    /** `frame_add_free_item`: walk the list, merge with the first buddy and go on, or append. */
    method AddFreeItem(address: nat, count: nat, newItem: bool)
      requires Valid() && 1 <= count && address < U32
      requires count <= MAX_FRAMES ==> ChunkEnd(address, count) <= U32
      modifies this`lists
      ensures Valid() && lists == AddFree(old(lists), address, count, newItem)
      decreases MAX_FRAMES + 1 - count
    {
      AddFreeInRange(lists, address, count, newItem);
      AddFreeCases(lists, address, count, newItem);
      assert count <= MAX_FRAMES ==> ListInRange(FreeList(lists, count), count);
      hide AddFree, InRange, ListInRange, Adjacent, BuddyCheck, FirstBuddy, HasPartner;
      if count > MAX_FRAMES {
        return;
      }
      var list := FreeList(lists, count);
      if !newItem && list != [] {
        var head := 0;
        while true
          invariant 0 <= head < |list|
          invariant lists == old(lists) && list == FreeList(lists, count)
          invariant count < MAX_FRAMES
            ==> forall j :: 0 <= j < head ==> !Adjacent(list[j], address, count * PAGE_SIZE)
          decreases |list| - head
        {
          BuddyCheckIsAdjacency(list[head], address, count * PAGE_SIZE, base);
          if count < MAX_FRAMES && BuddyCheck(list[head], address, count * PAGE_SIZE, base) {
            assert head == Partner(lists, address, count);
            UnlinkInRange(lists, address, count);
            lists := WithList(lists, count, list[..head] + list[head + 1..]);
            AddFreeItem(Min(list[head], address), count + 1, false);
            return;
          }
          if head + 1 == |list| {
            assert !HasPartner(lists, address, count);
            lists := WithList(lists, count, list + [address]);
            return;
          }
          head := head + 1;
        }
      } else {
        lists := WithList(lists, count, [address] + list);
      }
    }

    /** `frame_alloc`: the address of `want` contiguous frames, or 0 if no free chunk is large enough. */
    method Alloc(want: nat) returns (address: nat)
      requires Valid() && 1 <= want < 0x8000_0000
      modifies this`lists
      ensures Valid()
      ensures if CanAlloc(old(lists), want)
              then address == AllocAddress(old(lists), want) && lists == AfterAlloc(old(lists), want)
              else address == 0 && lists == old(lists)
    {
      hide FirstStocked, AddFree, InRange, AfterAlloc, AllocAddress;
      var count := want;
      while count <= MAX_FRAMES
        invariant want <= count
        invariant lists == old(lists)
        invariant FirstStocked(lists, want) == FirstStocked(lists, count)
      {
        StockedNext(lists, count);
        if FreeList(lists, count) != [] {
          address := Cut(want, count);
          return;
        }
        count := count + 1;
      }
      StockedNext(lists, count);
      address := 0;
    }

    /** The address behind `want` frames, in a machine word. */
    method Behind(address: nat, want: nat) returns (end: nat)
      ensures end < U32
      ensures ChunkEnd(address, want) < U32 ==> end == ChunkEnd(address, want)
    {
      end := Wrap(address + want * PAGE_SIZE);
    }

    /** Pop the head of a free list and give back what was not asked for. */
    method Cut(want: nat, count: nat) returns (address: nat)
      requires Valid() && 1 <= want && CanAlloc(lists, want) && count == FirstStocked(lists, want)
      modifies this`lists
      ensures Valid() && address == AllocAddress(old(lists), want) && lists == AfterAlloc(old(lists), want)
    {
      StockedInRange(lists, want);
      CutEnd(lists, want);
      hide *;
      address := FreeList(lists, count)[0];
      lists := WithList(lists, count, FreeList(lists, count)[1..]);
      var chunkEnd := Behind(address, want);
      var returnCount := count - want;
      if returnCount > 0 {
        AddFreeItem(chunkEnd, returnCount, false);
      }
    }

    /** `frame_dealloc` */
    method Dealloc(address: nat, count: nat)
      requires Valid() && 1 <= count && address < U32
      requires count <= MAX_FRAMES ==> ChunkEnd(address, count) <= U32
      modifies this`lists
      ensures Valid() && lists == AddFree(old(lists), address, count, false)
    {
      AddFreeItem(address, count, false);
    }

    /** `frame_free_count`: its list index starts at zero, so every chunk is counted a page short. */
    method FreeCount() returns (total: int)
      requires Valid()
      ensures total == Wrap(PAGE_SIZE * (Total(lists, FrameWeight()) - Total(lists, ChunkWeight())))
    {
      total := 0;
      ghost var sum := 0;
      for count := 0 to MAX_FRAMES
        invariant sum == TotalUpTo(lists, count, FrameWeight()) - TotalUpTo(lists, count, ChunkWeight())
        invariant total == Wrap(PAGE_SIZE * sum)
      {
        var list := lists[count];
        var head := 0;
        while head < |list|
          invariant 0 <= head <= |list|
          invariant total == Wrap(PAGE_SIZE * sum)
          invariant sum + ListTotal(list[head..], count + 1, FrameWeight()) - ListTotal(list[head..], count + 1, ChunkWeight())
                 == TotalUpTo(lists, count + 1, FrameWeight()) - TotalUpTo(lists, count + 1, ChunkWeight())
        {
          WrapSum(PAGE_SIZE * sum, PAGE_SIZE * count);
          total := Wrap(total + PAGE_SIZE * count);
          sum := sum + count;
          head := head + 1;
        }
      }
    }

    /** `frame_add_chunk`: cut a region into chunks, the largest first. */
    method AddChunk(address: nat, size: nat)
      requires Valid() && address < U32 && address + size <= U32
      modifies this
      ensures Valid()
      ensures if size <= PAGE_SIZE then lists == old(lists) && base == old(base)
              else lists == Tiled(old(lists), address, size / PAGE_SIZE) && base == address
    {
      if size <= PAGE_SIZE {
        return;
      }
      base := address;
      var at, left := address, size;
      while left >= PAGE_SIZE
        invariant 0 <= left && address <= at && at + left == address + size
        invariant base == address && Valid()
        invariant Tiled(lists, at, left / PAGE_SIZE) == Tiled(old(lists), address, size / PAGE_SIZE)
        decreases left
      {
        var count := MAX_FRAMES;
        while left < count * PAGE_SIZE
          invariant 1 <= count <= MAX_FRAMES
          invariant count < MAX_FRAMES ==> left < (count + 1) * PAGE_SIZE
        {
          count := count - 1;
        }
        assert count == Min(left / PAGE_SIZE, MAX_FRAMES);
        AddFreeItem(at, count, true);
        at, left := at + count * PAGE_SIZE, left - count * PAGE_SIZE;
      }
    }
  }

  lemma WrapSum(x: int, y: int)
    ensures Wrap(Wrap(x) + y) == Wrap(x + y)
  {
    var k := x / U32;
    assert Wrap(x) == x - k * U32;
    var m := (x + y) / U32;
    assert Wrap(x + y) == x + y - m * U32;
    var d := Wrap(Wrap(x) + y) - Wrap(x + y);
    var n := (Wrap(x) + y) / U32;
    assert d == (m - k - n) * U32;
    assert -U32 < d < U32;
    assert m - k - n == 0;
  }
}

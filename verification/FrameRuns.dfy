/** What every run of the frame allocator keeps: ownership, accounting and coalescing. */
module FrameRuns {
  import opened Word32
  import opened Frame

  datatype Chunk = Chunk(address: nat, count: nat)

  /** The free lists, the allocations that callers still hold, and the regions added so far. */
  datatype State = State(lists: FreeLists, live: seq<Chunk>, pool: seq<Chunk>)

  /**
    `Add` hands the allocator a region of memory; `Free(which)` gives back the whole of one live
    allocation, as its caller got it.
    */
  datatype Op = Add(address: nat, size: nat) | Alloc(want: nat) | Free(which: nat)

  /** A region is only added once: it has no byte in common with what was added before. */
  predicate Enabled(s: State, op: Op) {
    match op
    case Add(address, size) =>
      forall i :: 0 <= i < |s.pool| ==> !Overlap(s.pool[i], Chunk(address, size / PAGE_SIZE))
    case Alloc(want) => 1 <= want
    case Free(which) => which < |s.live|
  }

  predicate Holds(a: Chunk, p: int) {
    a.address <= p < a.address + a.count * PAGE_SIZE
  }

  predicate Overlap(a: Chunk, b: Chunk) {
    a.address < b.address + b.count * PAGE_SIZE && b.address < a.address + a.count * PAGE_SIZE
  }

  const NOTHING := State(EMPTY, [], [])

  function Step(s: State, op: Op): State
    requires Sized(s) && Enabled(s, op)
  {
    match op
    case Add(address, size) =>
      if size <= PAGE_SIZE then s
      else
        var frames := size / PAGE_SIZE;
        s.(lists := Tiled(s.lists, address, frames), pool := s.pool + [Chunk(address, frames)])
    case Alloc(want) =>
      if CanAlloc(s.lists, want)
      then s.(lists := AfterAlloc(s.lists, want), live := s.live + [Chunk(AllocAddress(s.lists, want), want)])
      else s
    case Free(i) =>
      s.(lists := AddFree(s.lists, s.live[i].address, s.live[i].count, false),
         live := s.live[..i] + s.live[i + 1..])
  }

  predicate Sized(s: State) {
    forall chunk :: chunk in s.live ==> 1 <= chunk.count <= MAX_FRAMES
  }

  lemma StepSized(s: State, op: Op)
    requires Sized(s) && Enabled(s, op)
    ensures Sized(Step(s, op))
  {
  }

  ghost predicate WellMatched(s: State, ops: seq<Op>)
    requires Sized(s)
    decreases |ops|
  {
    ops == [] || (Enabled(s, ops[0]) && (StepSized(s, ops[0]); WellMatched(Step(s, ops[0]), ops[1..])))
  }

  ghost function Run(s: State, ops: seq<Op>): (t: State)
    requires Sized(s) && WellMatched(s, ops)
    ensures Sized(t)
    decreases |ops|
  {
    if ops == [] then s else StepSized(s, ops[0]); Run(Step(s, ops[0]), ops[1..])
  }

  function LiveTotal(live: seq<Chunk>, f: Weight): int {
    if live == [] then 0 else f(live[0].address, live[0].count) + LiveTotal(live[1..], f)
  }

  lemma {:induction false} LiveTotalConcat(a: seq<Chunk>, b: seq<Chunk>, f: Weight)
    ensures LiveTotal(a + b, f) == LiveTotal(a, f) + LiveTotal(b, f)
  {
    if a == [] {
      assert a + b == b;
    } else {
      assert (a + b)[1..] == a[1..] + b;
      LiveTotalConcat(a[1..], b, f);
    }
  }

  lemma LiveTotalFirst(chunk: Chunk, rest: seq<Chunk>, f: Weight)
    ensures LiveTotal([chunk] + rest, f) == f(chunk.address, chunk.count) + LiveTotal(rest, f)
  {
    assert ([chunk] + rest)[1..] == rest;
  }

  lemma LiveTotalRemove(live: seq<Chunk>, i: nat, f: Weight)
    requires i < |live|
    ensures LiveTotal(live, f) == f(live[i].address, live[i].count) + LiveTotal(live[..i] + live[i + 1..], f)
  {
    hide LiveTotal;
    assert live == live[..i] + ([live[i]] + live[i + 1..]);
    LiveTotalConcat(live[..i], [live[i]] + live[i + 1..], f);
    LiveTotalFirst(live[i], live[i + 1..], f);
    LiveTotalConcat(live[..i], live[i + 1..], f);
  }

  // ---------------------------------------------------------------- ownership

  /** How many free chunks and live allocations contain the byte at `p`. */
  function Owners(s: State, p: int): int {
    Total(s.lists, CoverAt(p)) + LiveTotal(s.live, CoverAt(p))
  }

  /** How many of the regions added so far contain the byte at `p`. */
  function PoolCover(s: State, p: int): int {
    LiveTotal(s.pool, CoverAt(p))
  }

  /** Every byte of the pool has at most one owner, and no byte outside the pool has any. */
  ghost predicate Safe(s: State) {
    Sized(s) && forall p :: Owners(s, p) <= PoolCover(s, p) <= 1
  }

  lemma {:induction false} CoveredSomewhere(chunks: seq<Chunk>, p: int)
    ensures LiveTotal(chunks, CoverAt(p)) > 0 <==> exists i :: 0 <= i < |chunks| && Holds(chunks[i], p)
  {
    if chunks != [] {
      CoveredSomewhere(chunks[1..], p);
      LiveCoverNonnegative(chunks[1..], p);
      if Holds(chunks[0], p) {
        assert 0 <= 0 < |chunks| && Holds(chunks[0], p);
      } else if i :| 0 <= i < |chunks| && Holds(chunks[i], p) {
        assert Holds(chunks[1..][i - 1], p);
      } else {
        forall i | 0 <= i < |chunks[1..]|
          ensures !Holds(chunks[1..][i], p)
        {
          assert chunks[1..][i] == chunks[i + 1];
        }
      }
    }
  }

  lemma AddSafe(s: State, address: nat, size: nat, p: int)
    requires Safe(s) && Enabled(s, Add(address, size))
    ensures var t := Step(s, Add(address, size)); Owners(t, p) <= PoolCover(t, p) <= 1
  {
    var frames := size / PAGE_SIZE;
    assert Owners(s, p) <= PoolCover(s, p) <= 1;
    if size > PAGE_SIZE {
      TiledCover(s.lists, address, frames, p);
      LiveTotalConcat(s.pool, [Chunk(address, frames)], CoverAt(p));
      CoveredSomewhere(s.pool, p);
      LiveCoverNonnegative(s.pool, p);
    }
  }

  lemma StepSafe(s: State, op: Op)
    requires Safe(s) && Enabled(s, op)
    ensures Safe(Step(s, op))
  {
    forall p
      ensures Owners(Step(s, op), p) <= PoolCover(Step(s, op), p) <= 1
    {
      assert Owners(s, p) <= PoolCover(s, p) <= 1;
      match op
      case Add(address, size) => AddSafe(s, address, size, p);
      case Alloc(want) =>
        if CanAlloc(s.lists, want) {
          AllocCover(s.lists, want, p);
          LiveTotalConcat(s.live, [Chunk(AllocAddress(s.lists, want), want)], CoverAt(p));
        }
      case Free(i) =>
        LiveTotalRemove(s.live, i, CoverAt(p));
        AddFreeCover(s.lists, s.live[i].address, s.live[i].count, false, p);
    }
  }

  /** Safety over whole runs, through any cascade of merges. */
  lemma {:induction false} RunSafe(s: State, ops: seq<Op>)
    requires Safe(s) && WellMatched(s, ops)
    ensures Safe(Run(s, ops))
    decreases |ops|
  {
    if ops != [] {
      StepSafe(s, ops[0]);
      RunSafe(Step(s, ops[0]), ops[1..]);
    }
  }

  /** Every run that starts from empty free lists is safe. */
  lemma BootRunSafe(ops: seq<Op>)
    requires WellMatched(NOTHING, ops)
    ensures Safe(Run(NOTHING, ops))
  {
    forall p
      ensures Owners(NOTHING, p) == PoolCover(NOTHING, p) == 0
    {
      TotalEmpty(MAX_FRAMES, CoverAt(p));
    }
    RunSafe(NOTHING, ops);
  }

  // What safety says about individual chunks.

  function FreeChunk(lists: FreeLists, c: nat, i: nat): Chunk
    requires 1 <= c <= MAX_FRAMES && i < |FreeList(lists, c)|
  {
    Chunk(FreeList(lists, c)[i], c)
  }

  /** The lists without one chunk. */
  function Without(lists: FreeLists, c: nat, i: nat): FreeLists
    requires 1 <= c <= MAX_FRAMES && i < |FreeList(lists, c)|
  {
    var list := FreeList(lists, c);
    WithList(lists, c, list[..i] + list[i + 1..])
  }

  lemma WithoutTotal(lists: FreeLists, c: nat, i: nat, f: Weight)
    requires 1 <= c <= MAX_FRAMES && i < |FreeList(lists, c)|
    ensures Total(lists, f) == Total(Without(lists, c, i), f) + f(FreeList(lists, c)[i], c)
  {
    var list := FreeList(lists, c);
    ListTotalRemove(list, i, c, f);
    TotalUpdate(lists, c - 1, list[..i] + list[i + 1..], MAX_FRAMES, f);
  }

  lemma {:induction false} ListCoverNonnegative(list: seq<nat>, c: nat, p: int)
    ensures ListTotal(list, c, CoverAt(p)) >= 0
  {
    if list != [] {
      ListCoverNonnegative(list[1..], c, p);
    }
  }

  lemma {:induction false} CoverNonnegative(lists: FreeLists, n: nat, p: int)
    requires n <= MAX_FRAMES
    ensures TotalUpTo(lists, n, CoverAt(p)) >= 0
  {
    if n > 0 {
      ListCoverNonnegative(lists[n - 1], n, p);
      CoverNonnegative(lists, n - 1, p);
    }
  }

  lemma {:induction false} LiveCoverNonnegative(live: seq<Chunk>, p: int)
    ensures LiveTotal(live, CoverAt(p)) >= 0
  {
    if live != [] {
      LiveCoverNonnegative(live[1..], p);
    }
  }

  /** A byte two chunks share. */
  function Shared(a: Chunk, b: Chunk): int {
    Max(a.address, b.address)
  }

  lemma TwoLiveDisjoint(s: State, i: nat, j: nat)
    requires Safe(s) && i < j < |s.live|
    ensures !Overlap(s.live[i], s.live[j])
  {
    if Overlap(s.live[i], s.live[j]) {
      var p := Shared(s.live[i], s.live[j]);
      var owners := Owners(s, p);
      LiveTotalRemove(s.live, j, CoverAt(p));
      var rest := s.live[..j] + s.live[j + 1..];
      LiveTotalRemove(rest, i, CoverAt(p));
      LiveCoverNonnegative(rest[..i] + rest[i + 1..], p);
      CoverNonnegative(s.lists, MAX_FRAMES, p);
    }
  }

  lemma LiveAndFreeDisjoint(s: State, i: nat, c: nat, j: nat)
    requires Safe(s) && i < |s.live|
    requires 1 <= c <= MAX_FRAMES && j < |FreeList(s.lists, c)|
    ensures !Overlap(s.live[i], FreeChunk(s.lists, c, j))
  {
    var free := FreeChunk(s.lists, c, j);
    if Overlap(s.live[i], free) {
      var p := Shared(s.live[i], free);
      var owners := Owners(s, p);
      LiveTotalRemove(s.live, i, CoverAt(p));
      LiveCoverNonnegative(s.live[..i] + s.live[i + 1..], p);
      WithoutTotal(s.lists, c, j, CoverAt(p));
      CoverNonnegative(Without(s.lists, c, j), MAX_FRAMES, p);
    }
  }

  lemma TwoFreeDisjoint(s: State, c: nat, i: nat, d: nat, j: nat)
    requires Safe(s)
    requires 1 <= c <= MAX_FRAMES && i < |FreeList(s.lists, c)|
    requires 1 <= d <= MAX_FRAMES && j < |FreeList(s.lists, d)|
    requires c < d || (c == d && i < j)
    ensures !Overlap(FreeChunk(s.lists, c, i), FreeChunk(s.lists, d, j))
  {
    var a, b := FreeChunk(s.lists, c, i), FreeChunk(s.lists, d, j);
    if Overlap(a, b) {
      var p := Shared(a, b);
      var owners := Owners(s, p);
      WithoutTotal(s.lists, d, j, CoverAt(p));
      var rest := Without(s.lists, d, j);
      assert FreeList(rest, c)[i] == a.address;
      WithoutTotal(rest, c, i, CoverAt(p));
      CoverNonnegative(Without(rest, c, i), MAX_FRAMES, p);
      LiveCoverNonnegative(s.live, p);
    }
  }

  /** Every byte of a live allocation lies in a region that was added. */
  lemma LiveInsidePool(s: State, i: nat, p: int)
    requires Safe(s) && i < |s.live| && Holds(s.live[i], p)
    ensures exists r :: 0 <= r < |s.pool| && Holds(s.pool[r], p)
  {
    LiveTotalRemove(s.live, i, CoverAt(p));
    LiveCoverNonnegative(s.live[..i] + s.live[i + 1..], p);
    CoverNonnegative(s.lists, MAX_FRAMES, p);
    assert Owners(s, p) >= 1;
    CoveredSomewhere(s.pool, p);
  }

  lemma FreeInsidePool(s: State, c: nat, i: nat, p: int)
    requires Safe(s) && 1 <= c <= MAX_FRAMES && i < |FreeList(s.lists, c)|
    requires Holds(FreeChunk(s.lists, c, i), p)
    ensures exists r :: 0 <= r < |s.pool| && Holds(s.pool[r], p)
  {
    WithoutTotal(s.lists, c, i, CoverAt(p));
    CoverNonnegative(Without(s.lists, c, i), MAX_FRAMES, p);
    LiveCoverNonnegative(s.live, p);
    assert Owners(s, p) >= 1;
    CoveredSomewhere(s.pool, p);
  }

  // ---------------------------------------------------------------- accounting

  /** The frames of the pool that are neither free nor held. */
  function Missing(s: State): int {
    LiveTotal(s.pool, FrameWeight()) - Total(s.lists, FrameWeight()) - LiveTotal(s.live, FrameWeight())
  }

  /** The frames that one step loses to merges. */
  function StepLoss(s: State, op: Op): nat
    requires Sized(s) && Enabled(s, op)
  {
    match op
    case Add(address, size) => 0
    case Alloc(want) => if CanAlloc(s.lists, want) then AllocLoss(s.lists, want) else 0
    case Free(i) => Loss(s.live[i].count, Merges(s.lists, s.live[i].address, s.live[i].count))
  }

  ghost function RunLoss(s: State, ops: seq<Op>): nat
    requires Sized(s) && WellMatched(s, ops)
    decreases |ops|
  {
    if ops == [] then 0
    else StepLoss(s, ops[0]) + (StepSized(s, ops[0]); RunLoss(Step(s, ops[0]), ops[1..]))
  }

  lemma StepAccounts(s: State, op: Op)
    requires Sized(s) && Enabled(s, op)
    ensures Missing(Step(s, op)) == Missing(s) + StepLoss(s, op)
  {
    match op
    case Add(address, size) =>
      TiledFrames(s.lists, address, size / PAGE_SIZE);
      LiveTotalConcat(s.pool, [Chunk(address, size / PAGE_SIZE)], FrameWeight());
    case Alloc(want) =>
      if CanAlloc(s.lists, want) {
        AllocFrames(s.lists, want);
        LiveTotalConcat(s.live, [Chunk(AllocAddress(s.lists, want), want)], FrameWeight());
      }
    case Free(i) =>
      LiveTotalRemove(s.live, i, FrameWeight());
      AddFreeFrames(s.lists, s.live[i].address, s.live[i].count);
  }

  /** Over every run, the frames that go missing are exactly those that the merges lost. */
  lemma {:induction false} RunAccounts(s: State, ops: seq<Op>)
    requires Sized(s) && WellMatched(s, ops)
    ensures Missing(Run(s, ops)) == Missing(s) + RunLoss(s, ops)
    decreases |ops|
  {
    if ops != [] {
      StepSized(s, ops[0]);
      StepAccounts(s, ops[0]);
      RunAccounts(Step(s, ops[0]), ops[1..]);
    }
  }

  // ---------------------------------------------------------------- coalescing

  /** Every region that is added is detached from what is free at that moment. */
  ghost predicate AllDetached(s: State, ops: seq<Op>)
    requires Sized(s) && WellMatched(s, ops)
    decreases |ops|
  {
    ops == []
    || ((ops[0].Add? && ops[0].size > PAGE_SIZE ==> Detached(s.lists, ops[0].address, ops[0].size / PAGE_SIZE))
        && (StepSized(s, ops[0]); AllDetached(Step(s, ops[0]), ops[1..])))
  }

  lemma {:induction false} RunCoalesced(s: State, ops: seq<Op>)
    requires Sized(s) && Coalesced(s.lists) && WellMatched(s, ops) && AllDetached(s, ops)
    ensures Coalesced(Run(s, ops).lists)
    decreases |ops|
  {
    if ops != [] {
      match ops[0] {
        case Add(address, size) =>
          TiledCoalescedExactly(s.lists, address, size / PAGE_SIZE);
        case Alloc(want) =>
          if CanAlloc(s.lists, want) {
            AllocCoalesced(s.lists, want);
          }
        case Free(i) =>
          AddFreeCoalesced(s.lists, s.live[i].address, s.live[i].count);
      }
      StepSized(s, ops[0]);
      RunCoalesced(Step(s, ops[0]), ops[1..]);
    }
  }

  predicate NothingAdded(ops: seq<Op>) {
    forall i :: 0 <= i < |ops| ==> !ops[i].Add?
  }

  lemma {:induction false} NothingAddedDetached(s: State, ops: seq<Op>)
    requires Sized(s) && WellMatched(s, ops) && NothingAdded(ops)
    ensures AllDetached(s, ops)
    decreases |ops|
  {
    if ops != [] {
      StepSized(s, ops[0]);
      NothingAddedDetached(Step(s, ops[0]), ops[1..]);
    }
  }

  lemma NothingCoalesced()
    ensures Coalesced(NOTHING.lists) && forall address, frames :: Detached(NOTHING.lists, address, frames)
  {
    assert forall c :: 1 <= c <= MAX_FRAMES ==> FreeList(NOTHING.lists, c) == [];
  }

  /** Every state reached after adding one region is coalesced. */
  lemma BootRunCoalesced(address: nat, size: nat, ops: seq<Op>)
    requires WellMatched(NOTHING, [Add(address, size)] + ops) && NothingAdded(ops)
    ensures Coalesced(Run(NOTHING, [Add(address, size)] + ops).lists)
  {
    var all := [Add(address, size)] + ops;
    assert all[0] == Add(address, size) && all[1..] == ops;
    NothingCoalesced();
    NothingAddedDetached(Step(NOTHING, all[0]), ops);
    RunCoalesced(NOTHING, all);
  }

  /** Two regions added side by side are not coalesced. */
  lemma TwoRegionsStayApart()
    ensures WellMatched(NOTHING, [Add(0x10_0000, 0x2000), Add(0x10_2000, 0x2000)])
    ensures !Coalesced(Run(NOTHING, [Add(0x10_0000, 0x2000), Add(0x10_2000, 0x2000)]).lists)
  {
    var first, second := Add(0x10_0000, 0x2000), Add(0x10_2000, 0x2000);
    var s := Step(NOTHING, first);
    var t := Step(s, second);
    assert FreeList(s.lists, 2) == [0x10_0000];
    assert Adjacent(FreeList(s.lists, 2)[0], 0x10_2000, 2 * PAGE_SIZE);
    FreshPoolCoalesced(0x10_0000, 2);
    TiledCoalescedExactly(s.lists, 0x10_2000, 2);
    assert [first, second][1..] == [second] && [second][1..] == [];
    assert Run(s, [second]) == t;
  }
}

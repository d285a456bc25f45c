/** What runs of `memmap` calls mean for the pages they hand out. */
module MemmapRuns {
  import opened Word32
  import opened Frame
  import opened Paging
  import opened Memmap
  import FrameRuns
  import Vasa

  // ---------------------------------------------------------------- what soundness says

  predicate Overlap(frame: nat, address: nat, count: nat) {
    frame < address + count * PAGE_SIZE && address < frame + PAGE_SIZE
  }

  /** A frame that backs a page or serves as a page table is on no free list. */
  lemma HeldNotFree(c: Core, l: Ledger, f: nat, count: nat, i: nat, low: nat, high: nat)
    requires Sound(c, l, low, high) && f in l.held
    requires 1 <= count <= MAX_FRAMES && i < |FreeList(c.lists, count)|
    ensures !Overlap(f, FreeList(c.lists, count)[i], count)
  {
    var address := FreeList(c.lists, count)[i];
    if Overlap(f, address, count) {
      var p := Max(f, address);
      assert p - p % PAGE_SIZE == f by {
        HeldAtOne(f, p);
      }
      var owners := Total(c.lists, CoverAt(p)) + HeldAt(l.held, p);
      FrameRuns.WithoutTotal(c.lists, count, i, CoverAt(p));
      FrameRuns.CoverNonnegative(FrameRuns.Without(c.lists, count, i), MAX_FRAMES, p);
    }
  }

  /** The lookup of every page finds the frame the ledger has for it. */
  lemma LookupFindsPlaced(c: Core, l: Ledger, virt: nat, low: nat, high: nat)
    requires Sound(c, l, low, high) && virt < U32 && PageOf(virt) in l.placed
    ensures FindPhysical(c.mmu, virt) == l.placed[PageOf(virt)]
  {
    assert l.placed[PageOf(virt)] in l.placed.Values;
  }

  const NO_LEDGER := Ledger({}, map[], map[])

  function BootSystem(address: nat, frames: nat, mmu: Mmu, start: int, length: nat, flags: nat, memType: Vasa.MemType): System {
    System(Core(Tiled(EMPTY, address, frames), mmu), Vasa.Init(start, length, flags, memType))
  }

  lemma {:induction false} TiledAligned(lists: FreeLists, address: nat, frames: nat)
    requires AlignedLists(lists) && Aligned(address)
    ensures AlignedLists(Tiled(lists, address, frames))
    decreases frames
  {
    if frames > 0 {
      var count := Min(frames, MAX_FRAMES);
      AddFreeAligned(lists, address, count, true);
      TiledAligned(AddFree(lists, address, count, true), address + count * PAGE_SIZE, frames - count);
    }
  }

  /**
    From boot on, with one region of frames above the first megabyte and any page tables: over
    every run of calls that finds its frames, no frame backs two pages or a page and a table,
    every page is looked up to the last frame placed there, and no frame in use is free.
    */
  lemma BootRunSound(address: nat, frames: nat, mmu: Mmu, start: int, length: nat, flags: nat,
                     memType: Vasa.MemType, calls: seq<Call>)
    requires 0x10_0000 <= address && Aligned(address) && address + frames * PAGE_SIZE <= U32
    requires 0 <= start && start + length <= TABLE_WINDOW
    requires var s := BootSystem(address, frames, mmu, start, length, flags, memType);
             InWindow(s.space) && AllSupplied(s, calls)
    ensures var s := BootSystem(address, frames, mmu, start, length, flags, memType);
            var t, l := Run(s, calls), NoteRun(NO_LEDGER, s, calls);
            && Sound(t.core, l, address, address + frames * PAGE_SIZE)
            && (forall a, b :: a in l.placed && b in l.placed && a != b ==> l.placed[a] != l.placed[b])
            && l.placed.Values !! l.tables.Values
            && (forall virt: nat :: virt < U32 && PageOf(virt) in l.placed
                  ==> FindPhysical(t.core.mmu, virt) == l.placed[PageOf(virt)])
            && (forall f, count, i :: f in l.held && 1 <= count <= MAX_FRAMES && 0 <= i < |FreeList(t.core.lists, count)|
                  ==> !Overlap(f, FreeList(t.core.lists, count)[i], count))
  {
    var s := BootSystem(address, frames, mmu, start, length, flags, memType);
    var low, high := address, address + frames * PAGE_SIZE;
    forall p
      ensures Total(s.core.lists, CoverAt(p)) + HeldAt({}, p) <= if low <= p < high then 1 else 0
    {
      TotalEmpty(MAX_FRAMES, CoverAt(p));
      TiledCover(EMPTY, address, frames, p);
    }
    forall c | 1 <= c <= MAX_FRAMES
      ensures AlignedList(FreeList(EMPTY, c))
    {
    }
    TiledAligned(EMPTY, address, frames);
    RunSound(s, NO_LEDGER, calls, low, high);
    var t, l := Run(s, calls), NoteRun(NO_LEDGER, s, calls);
    forall virt: nat | virt < U32 && PageOf(virt) in l.placed
      ensures FindPhysical(t.core.mmu, virt) == l.placed[PageOf(virt)]
    {
      LookupFindsPlaced(t.core, l, virt, low, high);
    }
    forall f, count, i | f in l.held && 1 <= count <= MAX_FRAMES && 0 <= i < |FreeList(t.core.lists, count)|
      ensures !Overlap(f, FreeList(t.core.lists, count)[i], count)
    {
      HeldNotFree(t.core, l, f, count, i, low, high);
    }
  }

  // ---------------------------------------------------------------- pages are never handed out twice

  predicate PageNode(node: Vasa.Node) {
    node.base % PAGE_SIZE == 0 && node.length % PAGE_SIZE == 0
  }

  predicate PageNodes(list: seq<Vasa.Node>) {
    forall i :: 0 <= i < |list| ==> PageNode(list[i])
  }

  /**
    The address space is partitioned into whole pages, and every page in the ledger is used.
    */
  ghost predicate Tidy(s: System, l: Ledger, start: int, length: nat) {
    && InWindow(s.space) && Vasa.Partitions(s.space, start, length)
    && PageNodes(s.space.free)
    && (forall page :: page in l.placed ==> Vasa.Cover(s.space.used, page * PAGE_SIZE) >= 1)
  }

  /** The loop notes pages of its own range only. */
  lemma {:induction false} NoteAllRange(l: Ledger, c: Core, virt: nat, count: nat, ram: int -> Words)
    requires virt + count * PAGE_SIZE <= U32
    ensures forall page :: page in l.placed && !(PageOf(virt) <= page < PageOf(virt) + count) ==>
      page in NoteAll(l, c, virt, count, ram).placed && NoteAll(l, c, virt, count, ram).placed[page] == l.placed[page]
    ensures forall page :: page in NoteAll(l, c, virt, count, ram).placed ==>
      page in l.placed || PageOf(virt) <= page < PageOf(virt) + count
    decreases count
  {
    hide PlacePage, FrameFor, ListsAfterFrame, Present;
    if count > 0 {
      var r := PlacePage(c, virt, ram);
      assert PageOf(virt + PAGE_SIZE) == PageOf(virt) + 1;
      if r.ok {
        NoteAllRange(Note(l, c, virt, ram), r.core, virt + PAGE_SIZE, count - 1, ram);
      }
    }
  }

  /** The first free node that fits already lies where the padding wants it, if there is one and any padding. */
  predicate Wasteless(s: System, length: nat, flags: nat) {
    var bytes, all := WholePages(length) * PAGE_SIZE, MarkAllocated(flags);
    Fits(s, length, flags) && Vasa.Pad(all) > 0 ==> Vasa.Chosen(s.space.free, bytes, all).base % Vasa.Pad(all) == 0
  }

  lemma NothingSkipped(s: System, length: nat, flags: nat)
    requires Fits(s, length, flags) && Wasteless(s, length, flags) && PageNodes(s.space.free)
    ensures var bytes, all := WholePages(length) * PAGE_SIZE, MarkAllocated(flags);
            && Vasa.AllocBase(s.space.free, bytes, all) == Vasa.Chosen(s.space.free, bytes, all).base
            && PageNode(Vasa.Chosen(s.space.free, bytes, all))
            && Vasa.Chosen(s.space.free, bytes, all).length >= bytes
  {
    var bytes, all := WholePages(length) * PAGE_SIZE, MarkAllocated(flags);
    var node := Vasa.Chosen(s.space.free, bytes, all);
    hide Vasa.AlignUp;
    if Vasa.Pad(all) > 0 {
      Vasa.AlignUpIsLeastMultiple(node.base, Vasa.Pad(all));
    }
  }

  /** Such a call takes whole pages that no used node covers. */
  lemma WastelessTakesFreePages(s: System, l: Ledger, length: nat, flags: nat, page: nat, start: int, size: nat)
    requires Tidy(s, l, start, size) && Fits(s, length, flags) && Wasteless(s, length, flags)
    requires PageOf(Base(s, length, flags)) <= page < PageOf(Base(s, length, flags)) + WholePages(length)
    ensures page !in l.placed
    ensures Vasa.Cover(SpaceAfter(s, length, flags).used, page * PAGE_SIZE) >= 1
  {
    var p := page * PAGE_SIZE;
    var bytes, all := WholePages(length) * PAGE_SIZE, MarkAllocated(flags);
    NothingSkipped(s, length, flags);
    Vasa.AllocCover(s.space, Vasa.Ram, bytes, all, p);
    var i := Vasa.FirstFit(s.space.free, bytes + Vasa.Pad(all));
    Vasa.CoverRemoved(s.space.free, i, p);
    hide Vasa.AllocBase, Vasa.AfterAlloc, Vasa.FirstFit, Vasa.Cover, Vasa.Pad;
    var owners := Vasa.SpaceCover(s.space, p);
  }

  lemma PagesStay(s: System, length: nat, flags: nat)
    requires Fits(s, length, flags) && Wasteless(s, length, flags) && PageNodes(s.space.free)
    ensures PageNodes(SpaceAfter(s, length, flags).free)
  {
    NothingSkipped(s, length, flags);
    hide Vasa.AllocBase, Vasa.FirstFit, Vasa.AddNode;
  }

  lemma CallTidy(s: System, l: Ledger, call: Call, start: int, length: nat)
    requires Tidy(s, l, start, length) && Wasteless(s, call.length, call.flags)
    ensures Tidy(MapCall(s, call).1, NoteCall(l, s, call), start, length)
    ensures forall page :: page in l.placed ==>
      page in NoteCall(l, s, call).placed && NoteCall(l, s, call).placed[page] == l.placed[page]
  {
    hide PlacePage, PlacePages, NoteAll, Vasa.AfterAlloc, Vasa.AllocBase, Vasa.FirstFit;
    CallInWindow(s, call);
    if Fits(s, call.length, call.flags) {
      var space, noted := SpaceAfter(s, call.length, call.flags), NoteCall(l, s, call);
      var bytes, all := WholePages(call.length) * PAGE_SIZE, MarkAllocated(call.flags);
      Vasa.AllocPartitionsExactly(s.space, Vasa.Ram, bytes, all, start, length);
      PagesStay(s, call.length, call.flags);
      var base := Base(s, call.length, call.flags);
      if Maps(s, call) {
        NoteAllRange(l, s.core, base, WholePages(call.length), call.ram);
      }
      forall page | page in noted.placed
        ensures Vasa.Cover(space.used, page * PAGE_SIZE) >= 1
      {
        if page in l.placed {
          Vasa.AllocCover(s.space, Vasa.Ram, bytes, all, page * PAGE_SIZE);
        } else {
          WastelessTakesFreePages(s, l, call.length, call.flags, page, start, length);
        }
      }
      forall page | page in l.placed
        ensures page in noted.placed && noted.placed[page] == l.placed[page]
      {
        if PageOf(base) <= page < PageOf(base) + WholePages(call.length) {
          WastelessTakesFreePages(s, l, call.length, call.flags, page, start, length);
        }
      }
    }
  }

  /** A call leaves the address space tidy exactly when it wastes nothing. */
  lemma CallTidyExactly(s: System, l: Ledger, call: Call, start: int, length: nat)
    requires Tidy(s, l, start, length)
    ensures Tidy(MapCall(s, call).1, NoteCall(l, s, call), start, length) <==> Wasteless(s, call.length, call.flags)
  {
    hide PlacePage, PlacePages, NoteCall, Vasa.AfterAlloc, Vasa.AllocBase, Vasa.FirstFit;
    if Wasteless(s, call.length, call.flags) {
      CallTidy(s, l, call, start, length);
    } else {
      var bytes, all := WholePages(call.length) * PAGE_SIZE, MarkAllocated(call.flags);
      Vasa.AllocPartitionsExactly(s.space, Vasa.Ram, bytes, all, start, length);
    }
  }

  /** In a tidy address space a call that does not ask for a two-page boundary wastes nothing. */
  lemma OnePageWasteless(s: System, l: Ledger, call: Call, start: int, length: nat)
    requires Tidy(s, l, start, length) && Vasa.Pad(MarkAllocated(call.flags)) <= PAGE_SIZE
    ensures Wasteless(s, call.length, call.flags)
  {
    if Fits(s, call.length, call.flags) {
      var bytes, all := WholePages(call.length) * PAGE_SIZE, MarkAllocated(call.flags);
      assert PageNode(s.space.free[Vasa.FirstFit(s.space.free, bytes + Vasa.Pad(all))]);
    }
  }

  ghost predicate AllWasteless(s: System, calls: seq<Call>)
    requires InWindow(s.space)
    decreases |calls|
  {
    calls == []
    || (Wasteless(s, calls[0].length, calls[0].flags)
        && (CallInWindow(s, calls[0]); AllWasteless(MapCall(s, calls[0]).1, calls[1..])))
  }

  lemma {:induction false} OnePageCallsWasteless(s: System, l: Ledger, calls: seq<Call>, start: int, length: nat)
    requires Tidy(s, l, start, length)
    requires forall i :: 0 <= i < |calls| ==> Vasa.Pad(MarkAllocated(calls[i].flags)) <= PAGE_SIZE
    ensures AllWasteless(s, calls)
    decreases |calls|
  {
    hide MapCall, NoteCall, Wasteless, Vasa.Pad;
    if calls != [] {
      OnePageWasteless(s, l, calls[0], start, length);
      CallTidy(s, l, calls[0], start, length);
      CallInWindow(s, calls[0]);
      OnePageCallsWasteless(MapCall(s, calls[0]).1, NoteCall(l, s, calls[0]), calls[1..], start, length);
    }
  }

  /** Over every run of calls that waste nothing, a page once placed keeps its frame to the end. */
  lemma {:induction false} RunKeepsPages(s: System, l: Ledger, calls: seq<Call>, start: int, length: nat)
    requires Tidy(s, l, start, length) && AllWasteless(s, calls)
    ensures Tidy(Run(s, calls), NoteRun(l, s, calls), start, length)
    ensures forall page :: page in l.placed ==>
      page in NoteRun(l, s, calls).placed && NoteRun(l, s, calls).placed[page] == l.placed[page]
    decreases |calls|
  {
    hide MapCall, NoteCall, Tidy, Wasteless;
    TidyInWindow(s, l, start, length);
    if calls != [] {
      CallTidy(s, l, calls[0], start, length);
      CallInWindow(s, calls[0]);
      RunKeepsPages(MapCall(s, calls[0]).1, NoteCall(l, s, calls[0]), calls[1..], start, length);
    }
  }

  lemma TidyInWindow(s: System, l: Ledger, start: int, length: nat)
    requires Tidy(s, l, start, length)
    ensures InWindow(s.space)
  {
  }

  lemma {:induction false} RunInWindow(s: System, calls: seq<Call>)
    requires InWindow(s.space)
    ensures InWindow(Run(s, calls).space)
    decreases |calls|
  {
    hide MapCall;
    if calls != [] {
      CallInWindow(s, calls[0]);
      RunInWindow(MapCall(s, calls[0]).1, calls[1..]);
    }
  }

  lemma {:induction false} PartsWasteless(s: System, first: seq<Call>, rest: seq<Call>)
    requires InWindow(s.space) && AllWasteless(s, first + rest)
    ensures AllWasteless(s, first) && InWindow(Run(s, first).space) && AllWasteless(Run(s, first), rest)
    decreases |first|
  {
    hide MapCall, Wasteless;
    RunInWindow(s, first);
    if first == [] {
      assert first + rest == rest;
    } else {
      assert (first + rest)[0] == first[0] && (first + rest)[1..] == first[1..] + rest;
      CallInWindow(s, first[0]);
      PartsWasteless(MapCall(s, first[0]).1, first[1..], rest);
    }
  }

  /** A run of two parts is the run of the second from where the first ends. */
  lemma {:induction false} RunOfTwo(s: System, l: Ledger, first: seq<Call>, rest: seq<Call>)
    requires InWindow(s.space) && AllSupplied(s, first + rest)
    ensures AllSupplied(s, first) && InWindow(Run(s, first).space)
    ensures Run(s, first + rest) == Run(Run(s, first), rest)
    ensures NoteRun(l, s, first + rest) == NoteRun(NoteRun(l, s, first), Run(s, first), rest)
    decreases |first|
  {
    hide MapCall, NoteCall, Supplied;
    RunInWindow(s, first);
    if first == [] {
      assert first + rest == rest;
    } else {
      assert (first + rest)[0] == first[0] && (first + rest)[1..] == first[1..] + rest;
      CallInWindow(s, first[0]);
      RunOfTwo(MapCall(s, first[0]).1, NoteCall(l, s, first[0]), first[1..], rest);
    }
  }

  lemma BootTidy(address: nat, frames: nat, mmu: Mmu, start: nat, length: nat, flags: nat, memType: Vasa.MemType)
    requires start % PAGE_SIZE == 0 && length % PAGE_SIZE == 0 && start + length <= TABLE_WINDOW
    ensures Tidy(BootSystem(address, frames, mmu, start, length, flags, memType), NO_LEDGER, start, length)
  {
    Vasa.InitPartitions(start, length, flags, memType);
  }

  /**
    From boot on, with address space in whole pages: over every run of calls that waste nothing and
    find their frames, the lookup of a page that has been placed returns the same frame ever after.
    */
  lemma BootRunKeepsLookups(address: nat, frames: nat, mmu: Mmu, start: nat, length: nat, flags: nat,
                            memType: Vasa.MemType, first: seq<Call>, rest: seq<Call>, virt: nat)
    requires 0x10_0000 <= address && Aligned(address) && address + frames * PAGE_SIZE <= U32
    requires start % PAGE_SIZE == 0 && length % PAGE_SIZE == 0 && start + length <= TABLE_WINDOW
    requires var s := BootSystem(address, frames, mmu, start, length, flags, memType);
             InWindow(s.space) && AllSupplied(s, first + rest) && AllWasteless(s, first + rest)
             && virt < U32 && PageOf(virt) in NoteRun(NO_LEDGER, s, first).placed
    ensures var s := BootSystem(address, frames, mmu, start, length, flags, memType);
            FindPhysical(Run(s, first + rest).core.mmu, virt) == FindPhysical(Run(s, first).core.mmu, virt)
  {
    var s := BootSystem(address, frames, mmu, start, length, flags, memType);
    BootTidy(address, frames, mmu, start, length, flags, memType);
    RunOfTwo(s, NO_LEDGER, first, rest);
    PartsWasteless(s, first, rest);
    hide Run, NoteRun, AllSupplied, Tidy, BootSystem, InWindow, FindPhysical, Sound, AllWasteless;
    BootRunSound(address, frames, mmu, start, length, flags, memType, first);
    BootRunSound(address, frames, mmu, start, length, flags, memType, first + rest);
    RunKeepsPages(s, NO_LEDGER, first, start, length);
    RunKeepsPages(Run(s, first), NoteRun(NO_LEDGER, s, first), rest, start, length);
  }

  // ---------------------------------------------------------------- what one call gives its caller

  /** A loop that goes through notes every page of its range. */
  lemma {:induction false} NoteAllPlaces(l: Ledger, c: Core, virt: nat, count: nat, ram: int -> Words)
    requires virt + count * PAGE_SIZE <= U32 && PlacePages(c, virt, count, ram).ok
    ensures forall page :: PageOf(virt) <= page < PageOf(virt) + count ==> page in NoteAll(l, c, virt, count, ram).placed
    decreases count
  {
    hide PlacePage, FrameFor, ListsAfterFrame, Present;
    if count > 0 {
      var r, noted := PlacePage(c, virt, ram), Note(l, c, virt, ram);
      assert PageOf(virt + PAGE_SIZE) == PageOf(virt) + 1;
      assert PageOf(virt) in noted.placed;
      NoteAllPlaces(noted, r.core, virt + PAGE_SIZE, count - 1, ram);
      NoteAllRange(noted, r.core, virt + PAGE_SIZE, count - 1, ram);
    }
  }

  lemma PagesOfLength(length: nat)
    ensures WholePages(length) * PAGE_SIZE == length - length % 0x1000 && WholePages(length) == length / 0x1000
  {
  }

  /** What the call hands to the address space allocator: the length in whole pages, and the flags. */
  lemma CallAsks(s: System, call: Call)
    requires InWindow(s.space) && MapCall(s, call).0 != 0
    ensures var bytes := call.length - call.length % 0x1000;
            var flags := call.flags + if (call.flags / 4) % 2 == 1 && (call.flags / 16) % 2 == 0 then 16 else 0;
            && Vasa.Fits(s.space.free, bytes, flags)
            && MapCall(s, call).0 == Vasa.AllocBase(s.space.free, bytes, flags)
            && MapCall(s, call).1.space == Vasa.AfterAlloc(s.space, Vasa.Ram, bytes, flags)
            && MapCall(s, call).0 + bytes <= TABLE_WINDOW
  {
    MapCallCases(s, call);
    PagesOfLength(call.length);
    hide MapCall, PlacePages, Vasa.AfterAlloc, Vasa.AllocBase, Vasa.FirstFit, WholePages;
  }

  /**
    An address that a call returns starts exactly the whole pages of the length asked for, urgent or
    not: the used list gains these bytes, in one node that carries the flags, with bit 4 set on
    urgent calls.
    */
  lemma CallReserves(s: System, call: Call)
    requires InWindow(s.space) && MapCall(s, call).0 != 0
    ensures var (v, t) := MapCall(s, call);
            var bytes := call.length - call.length % 0x1000;
            var flags := call.flags + if (call.flags / 4) % 2 == 1 && (call.flags / 16) % 2 == 0 then 16 else 0;
            && v + bytes <= TABLE_WINDOW && bytes > 0
            && multiset(t.space.used) == multiset(s.space.used) + multiset{Vasa.Node(v, bytes, flags, Vasa.Ram)}
            && forall p :: Vasa.Cover(t.space.used, p) == Vasa.Cover(s.space.used, p) + if v <= p < v + bytes then 1 else 0
  {
    CallAsks(s, call);
    hide MapCall, Vasa.AfterAlloc, Vasa.AllocBase, Vasa.FirstFit, Vasa.Cover, InWindow;
    var bytes := call.length - call.length % 0x1000;
    var flags := call.flags + if (call.flags / 4) % 2 == 1 && (call.flags / 16) % 2 == 0 then 16 else 0;
    Vasa.AllocRecords(s.space, Vasa.Ram, bytes, flags);
    forall p
      ensures Vasa.Cover(MapCall(s, call).1.space.used, p)
           == Vasa.Cover(s.space.used, p)
            + if MapCall(s, call).0 <= p < MapCall(s, call).0 + bytes then 1 else 0
    {
      Vasa.AllocCover(s.space, Vasa.Ram, bytes, flags, p);
    }
  }

  /** No address space is found for lengths below a page or beyond every free node; then nothing changes. */
  lemma CallRefused(s: System, call: Call)
    requires InWindow(s.space)
    requires var bytes, flags := call.length - call.length % 0x1000, call.flags;
             var pad := if (flags / 0x20) % 2 == 1 then 0x1000 else if (flags / 0x40) % 2 == 1 then 0x2000 else 0;
             bytes == 0 || (forall i :: 0 <= i < |s.space.free| ==> s.space.free[i].length < bytes + pad)
    ensures MapCall(s, call).0 == 0 && MapCall(s, call).1 == s
  {
    MapCallCases(s, call);
    PagesOfLength(call.length);
    PadOfMarked(call.flags);
    var bytes := WholePages(call.length) * PAGE_SIZE;
    Vasa.FitsExactly(s.space.free, bytes, MarkAllocated(call.flags));
    hide MapCall, PlacePages, Vasa.AfterAlloc, Vasa.FirstFit, WholePages, MarkAllocated;
  }

  lemma PadOfMarked(flags: nat)
    ensures (MarkAllocated(flags) / 0x20) % 2 == (flags / 0x20) % 2
    ensures (MarkAllocated(flags) / 0x40) % 2 == (flags / 0x40) % 2
  {
    if MarkAllocated(flags) != flags {
      BitFourClear(flags);
    }
    hide Urgent;
  }

  lemma BitFourClear(flags: nat)
    requires (flags / 16) % 2 == 0
    ensures (flags + 16) / 0x20 == flags / 0x20 && (flags + 16) / 0x40 == flags / 0x40
  {
    var q := flags / 0x20;
    var r := flags - 0x20 * q;
    assert flags / 16 == 2 * q + r / 16;
    assert r < 16;
    SameUpperBits(q, r);
    SameUpperBits(q, r + 16);
  }

  lemma SameUpperBits(q: nat, r: nat)
    requires r < 0x20
    ensures (0x20 * q + r) / 0x20 == q && (0x20 * q + r) / 0x40 == q / 2
  {
  }

  /** The page of an address is placed, in its word and for the lookup. */
  predicate Backed(m: Mmu, l: Ledger, virt: int) {
    && 0 <= virt < U32 && virt / 0x1000 in l.placed
    && m.window[virt / 0x1000] == l.placed[virt / 0x1000] + 3
    && FindPhysical(m, virt) == l.placed[virt / 0x1000]
  }

  lemma UrgentCallLoops(s: System, l: Ledger, call: Call)
    requires InWindow(s.space) && Supplied(s, call) && MapCall(s, call).0 != 0 && (call.flags / 4) % 2 == 1
    ensures var (v, t) := MapCall(s, call);
            var count := call.length / 0x1000;
            && v + count * PAGE_SIZE <= U32
            && NeverDry(s.core, v, count, call.ram) && PlacePages(s.core, v, count, call.ram).ok
            && t.core == PlacePages(s.core, v, count, call.ram).core
            && NoteCall(l, s, call) == NoteAll(l, s.core, v, count, call.ram)
  {
    MapCallCases(s, call);
    PagesOfLength(call.length);
    hide MapCall, PlacePages, NoteAll, Vasa.AllocBase, Vasa.FirstFit, Vasa.AfterAlloc, NeverDry, WholePages;
    assert Maps(s, call) && MapCall(s, call).0 == Base(s, call.length, call.flags);
  }

  lemma LoopBacksAll(c: Core, l: Ledger, v: nat, length: nat, ram: int -> Words, low: nat, high: nat)
    requires v + (length / 0x1000) * PAGE_SIZE <= U32 && Sound(c, l, low, high)
    requires NeverDry(c, v, length / 0x1000, ram) && PlacePages(c, v, length / 0x1000, ram).ok
    ensures var t, noted := PlacePages(c, v, length / 0x1000, ram).core, NoteAll(l, c, v, length / 0x1000, ram);
            && Sound(t, noted, low, high)
            && (forall a :: v <= a && a + 0x1000 <= v + length && (a - v) % 0x1000 == 0 ==> Backed(t.mmu, noted, a))
            && forall page :: page in noted.placed ==> page in l.placed || v / 0x1000 <= page < v / 0x1000 + length / 0x1000
  {
    var count := length / 0x1000;
    PlacePagesSound(c, l, v, count, ram, low, high);
    NoteAllPlaces(l, c, v, count, ram);
    NoteAllRange(l, c, v, count, ram);
    var t, noted := PlacePages(c, v, count, ram).core, NoteAll(l, c, v, count, ram);
    hide PlacePages, NoteAll, Sound, NeverDry, Backed;
    forall a | v <= a && a + 0x1000 <= v + length && (a - v) % 0x1000 == 0
      ensures Backed(t.mmu, noted, a)
    {
      PageInRange(v, a, length);
      PlacedIsBacked(t, noted, a, low, high);
    }
  }

  /**
    An urgent call that returns an address has backed every whole page of the length: each is in
    the ledger, its word is the frame with the two lowest bits set, and the lookup finds the frame.
    No other page is placed.
    */
  lemma CallBacksAll(s: System, l: Ledger, call: Call, low: nat, high: nat)
    requires InWindow(s.space) && Sound(s.core, l, low, high) && Supplied(s, call)
    requires MapCall(s, call).0 != 0 && (call.flags / 4) % 2 == 1
    ensures var (v, t) := MapCall(s, call);
            var noted := NoteCall(l, s, call);
            && Sound(t.core, noted, low, high)
            && (forall a :: v <= a && a + 0x1000 <= v + call.length && (a - v) % 0x1000 == 0 ==> Backed(t.core.mmu, noted, a))
            && forall page :: page in noted.placed ==>
                 page in l.placed || v / 0x1000 <= page < v / 0x1000 + call.length / 0x1000
  {
    hide MapCall, PlacePages, NoteAll, NoteCall, Sound, NeverDry, Supplied, InWindow, Backed;
    UrgentCallLoops(s, l, call);
    LoopBacksAll(s.core, l, MapCall(s, call).0, call.length, call.ram, low, high);
  }

  lemma PageInRange(v: nat, a: int, length: nat)
    requires v <= a && a + 0x1000 <= v + length && (a - v) % 0x1000 == 0
    ensures v / 0x1000 <= a / 0x1000 < v / 0x1000 + length / 0x1000
  {
    var k := (a - v) / 0x1000;
    assert a == v + 0x1000 * k;
    assert a / 0x1000 == v / 0x1000 + k;
    assert 0x1000 * (k + 1) <= length;
  }

  /** A call that is not urgent backs nothing. */
  lemma LazyCallBacksNothing(s: System, l: Ledger, call: Call)
    requires InWindow(s.space) && (call.flags / 4) % 2 == 0
    ensures MapCall(s, call).1.core == s.core && NoteCall(l, s, call) == l
  {
    MapCallCases(s, call);
    hide MapCall, PlacePages, Vasa.AllocBase, Vasa.FirstFit, Vasa.AfterAlloc;
  }

  lemma PlacedIsBacked(c: Core, l: Ledger, virt: nat, low: nat, high: nat)
    requires Sound(c, l, low, high) && virt < U32 && PageOf(virt) in l.placed
    ensures Backed(c.mmu, l, virt)
  {
    LookupFindsPlaced(c, l, virt, low, high);
  }
}

/**
  `memmap` without a start address: address space from the allocator, then one frame after the
  other mapped into it. A ledger remembers, for the proofs, which frame was placed at which page
  and which frames became page tables.
  */
module Memmap {
  import opened Word32
  import opened Frame
  import Vasa
  import opened Paging
  import FrameRuns

  const MAP_FLAGS := 3

  datatype Core = Core(lists: FreeLists, mmu: Mmu)

  datatype Placed = Placed(ok: bool, core: Core)

  // ---------------------------------------------------------------- one page

  /** One round of the mapping loop: a frame is allocated and mapped, or given back. */
  function PlacePage(c: Core, virt: nat, ram: int -> Words): Placed
    requires virt < U32
  {
    var frame, lists := FrameFor(c.lists), ListsAfterFrame(c.lists);
    if frame == 0 then Placed(false, c.(lists := AddFree(lists, frame, 1, false)))
    else
      var r := MapPage(lists, c.mmu, frame, virt, MAP_FLAGS, ram);
      if r.ok then Placed(true, Core(r.lists, r.mmu))
      else Placed(false, Core(AddFree(r.lists, frame, 1, false), r.mmu))
  }

  /** The frame's entry is written. */
  function Written(lists: FreeLists, m: Mmu, virt: nat, frame: nat): Core
    requires virt < U32
  {
    Core(lists, Write(m, PageOf(virt), frame + MAP_FLAGS))
  }

  /** The frame is given back, mapped or not. */
  function Returned(lists: FreeLists, m: Mmu, frame: nat): Core {
    Core(AddFree(lists, frame, 1, false), m)
  }

  function PlacePages(c: Core, virt: nat, count: nat, ram: int -> Words): Placed
    requires virt + count * PAGE_SIZE <= U32
    decreases count
  {
    if count == 0 then Placed(true, c)
    else
      var r := PlacePage(c, virt, ram);
      if r.ok then PlacePages(r.core, virt + PAGE_SIZE, count - 1, ram) else r
  }

  /** Some `frame_alloc` of the round finds no frame. */
  predicate RunsDry(c: Core, virt: nat)
    requires virt < U32
  {
    !CanAlloc(c.lists, 1)
    || (!Present(c.mmu.dir[DirOf(virt)]) && !CanAlloc(ListsAfterFrame(c.lists), 1))
  }

  predicate NeverDry(c: Core, virt: nat, count: nat, ram: int -> Words)
    requires virt + count * PAGE_SIZE <= U32
    decreases count
  {
    count == 0
    || (!RunsDry(c, virt)
        && var r := PlacePage(c, virt, ram);
           r.ok ==> NeverDry(r.core, virt + PAGE_SIZE, count - 1, ram))
  }

  // ---------------------------------------------------------------- the ledger

  /** The frames held, the last frame placed at each page, and the frame of each table installed. */
  datatype Ledger = Ledger(held: set<nat>, placed: map<nat, nat>, tables: map<nat, nat>)

  function Note(l: Ledger, c: Core, virt: nat, ram: int -> Words): Ledger
    requires virt < U32
  {
    var l := NoteTable(l, c.mmu, virt, FrameFor(ListsAfterFrame(c.lists)));
    if PlacePage(c, virt, ram).ok then AddPage(l, PageOf(virt), FrameFor(c.lists)) else l
  }

  function NoteTable(l: Ledger, m: Mmu, virt: nat, frame: nat): Ledger
    requires virt < U32
  {
    if Present(m.dir[DirOf(virt)]) then l else AddTable(l, DirOf(virt), frame)
  }

  function NoteAll(l: Ledger, c: Core, virt: nat, count: nat, ram: int -> Words): Ledger
    requires virt + count * PAGE_SIZE <= U32
    decreases count
  {
    if count == 0 then l
    else
      var r := PlacePage(c, virt, ram);
      var noted := Note(l, c, virt, ram);
      if r.ok then NoteAll(noted, r.core, virt + PAGE_SIZE, count - 1, ram) else noted
  }

  predicate Aligned(address: nat) {
    address % PAGE_SIZE == 0
  }

  predicate AlignedLists(lists: FreeLists) {
    forall c :: 1 <= c <= MAX_FRAMES ==> AlignedList(FreeList(lists, c))
  }

  predicate AlignedList(list: seq<nat>) {
    forall i :: 0 <= i < |list| ==> Aligned(list[i])
  }

  lemma {:induction false} AddFreeAligned(lists: FreeLists, address: nat, count: nat, newItem: bool)
    requires 1 <= count && AlignedLists(lists) && Aligned(address)
    ensures AlignedLists(AddFree(lists, address, count, newItem))
    decreases MAX_FRAMES + 1 - count
  {
    if count <= MAX_FRAMES && !newItem && HasPartner(lists, address, count) {
      AddFreeAligned(WithoutPartner(lists, address, count), MergedAddress(lists, address, count), count + 1, false);
    }
  }

  lemma EndAligned(address: nat, count: nat)
    requires Aligned(address)
    ensures Aligned(ChunkEnd(address, count))
  {
  }

  lemma AllocAligned(lists: FreeLists, want: nat)
    requires 1 <= want && CanAlloc(lists, want) && AlignedLists(lists)
    ensures Aligned(AllocAddress(lists, want)) && AlignedLists(AfterAlloc(lists, want))
  {
    hide AddFree, FirstStocked, ChunkEnd, Aligned;
    var count := FirstStocked(lists, want);
    assert AlignedList(FreeList(lists, count));
    assert AlignedLists(Popped(lists, count));
    EndAligned(AllocAddress(lists, want), want);
    hide AlignedLists, Popped;
    if count > want {
      AddFreeAligned(Popped(lists, count), ChunkEnd(AllocAddress(lists, want), want), count - want, false);
    }
  }

  /** Whether a held frame contains the byte at `p`. */
  function HeldAt(held: set<nat>, p: int): int {
    if p >= 0 && p - p % PAGE_SIZE in held then 1 else 0
  }

  /** Held frames and free chunks own every byte of the pool at most once, and no other byte. */
  ghost predicate Owned(lists: FreeLists, held: set<nat>, low: nat, high: nat) {
    && 0x10_0000 <= low && high <= U32
    && AlignedLists(lists)
    && (forall f :: f in held ==> Aligned(f))
    && (forall p :: Total(lists, CoverAt(p)) + HeldAt(held, p) <= if low <= p < high then 1 else 0)
  }

  lemma HeldAtOne(f: nat, p: int)
    requires Aligned(f)
    ensures HeldAt({f}, p) == CoverAt(p)(f, 1)
  {
    if p >= 0 {
      assert p == (p / PAGE_SIZE) * PAGE_SIZE + p % PAGE_SIZE;
      assert f == (f / PAGE_SIZE) * PAGE_SIZE;
    }
  }

  /** Taking a single frame from the allocator: it was held by nobody, and now is. */
  lemma Take(lists: FreeLists, held: set<nat>, low: nat, high: nat)
    requires Owned(lists, held, low, high) && CanAlloc(lists, 1)
    ensures var f := AllocAddress(lists, 1);
            && f !in held && Aligned(f) && low <= f && f + PAGE_SIZE <= high
            && Owned(AfterAlloc(lists, 1), held + {f}, low, high)
  {
    var f := AllocAddress(lists, 1);
    AllocAligned(lists, 1);
    forall p
      ensures Total(AfterAlloc(lists, 1), CoverAt(p)) + HeldAt(held + {f}, p)
           <= Total(lists, CoverAt(p)) + HeldAt(held, p)
    {
      AllocCover(lists, 1, p);
      HeldAtOne(f, p);
    }
    FrameInPool(lists, held, f, low, high);
    FrameInPool(lists, held, f + PAGE_SIZE - 1, low, high);
  }

  lemma FrameInPool(lists: FreeLists, held: set<nat>, p: nat, low: nat, high: nat)
    requires Owned(lists, held, low, high) && CanAlloc(lists, 1)
    requires AllocAddress(lists, 1) <= p < AllocAddress(lists, 1) + PAGE_SIZE
    ensures low <= p < high && HeldAt(held, p) == 0
  {
    AllocCover(lists, 1, p);
    FrameRuns.CoverNonnegative(AfterAlloc(lists, 1), MAX_FRAMES, p);
    assert Total(lists, CoverAt(p)) >= 1;
  }

  lemma GiveBack(lists: FreeLists, held: set<nat>, f: nat, low: nat, high: nat)
    requires Owned(lists, held, low, high) && f in held
    ensures Owned(AddFree(lists, f, 1, false), held - {f}, low, high)
  {
    AddFreeAligned(lists, f, 1, false);
    forall p
      ensures Total(AddFree(lists, f, 1, false), CoverAt(p)) + HeldAt(held - {f}, p)
           <= Total(lists, CoverAt(p)) + HeldAt(held, p)
    {
      AddFreeCover(lists, f, 1, false, p);
      HeldAtOne(f, p);
    }
  }

  /** Every use of a frame is held, and no frame has two uses. */
  ghost predicate Distinct(l: Ledger) {
    && l.placed.Values <= l.held && l.tables.Values <= l.held
    && l.placed.Values !! l.tables.Values
    && (forall a, b :: a in l.placed && b in l.placed && a != b ==> l.placed[a] != l.placed[b])
    && (forall d, e :: d in l.tables && e in l.tables && d != e ==> l.tables[d] != l.tables[e])
  }

  /** The words in the page tables are those the ledger says. */
  ghost predicate Agrees(m: Mmu, l: Ledger) {
    && (forall a :: a in l.placed ==>
          a < PAGES && Present(m.dir[a / ENTRIES]) && m.window[a] == l.placed[a] + MAP_FLAGS)
    && (forall d :: d in l.tables ==> d < ENTRIES && Present(m.dir[d]) && m.dir[d] == l.tables[d] + 3)
  }

  ghost predicate Sound(c: Core, l: Ledger, low: nat, high: nat) {
    Owned(c.lists, l.held, low, high) && Distinct(l) && Agrees(c.mmu, l)
  }

  function AddTable(l: Ledger, d: nat, frame: nat): Ledger {
    l.(held := l.held + {frame}, tables := l.tables[d := frame])
  }

  function AddPage(l: Ledger, page: nat, frame: nat): Ledger {
    l.(held := l.held + {frame}, placed := l.placed[page := frame])
  }

  function Hold(l: Ledger, frame: nat): Ledger {
    l.(held := l.held + {frame})
  }

  function Release(l: Ledger, frame: nat): Ledger {
    l.(held := l.held - {frame})
  }

  predicate Unused(l: Ledger, frame: nat) {
    frame !in l.placed.Values && frame !in l.tables.Values
  }

  lemma AddTableDistinct(l: Ledger, d: nat, frame: nat)
    requires Distinct(l) && Unused(l, frame)
    ensures Distinct(AddTable(l, d, frame))
  {
  }

  lemma AddPageDistinct(l: Ledger, page: nat, frame: nat)
    requires Distinct(l) && Unused(l, frame)
    ensures Distinct(AddPage(l, page, frame))
  {
  }

  lemma InstallAgrees(m: Mmu, l: Ledger, d: nat, frame: nat, ram: Words)
    requires Agrees(m, l) && d < ENTRIES && !Present(m.dir[d]) && Aligned(frame)
    ensures Agrees(Install(m, d, frame, ram), AddTable(l, d, frame))
    ensures Present(Install(m, d, frame, ram).dir[d])
  {
    forall a | a in l.placed
      ensures Install(m, d, frame, ram).window[a] == m.window[a]
    {
      InstallAt(m, d, frame, ram, a);
    }
    assert frame % 4 == 0;
  }

  lemma WriteAgrees(m: Mmu, l: Ledger, page: nat, frame: nat)
    requires Agrees(m, l) && page < PAGES && Present(m.dir[page / ENTRIES])
    ensures Agrees(Write(m, page, frame + MAP_FLAGS), AddPage(l, page, frame))
  {
  }

  /** With the directory entry there or a table installed for it, the ledger is still sound. */
  lemma TableSound(lists: FreeLists, m: Mmu, l: Ledger, virt: nat, frame: nat, ram: int -> Words, low: nat, high: nat)
      returns (lists': FreeLists, m': Mmu, l': Ledger)
    requires virt < U32 && Sound(Core(lists, m), l, low, high)
    requires Present(m.dir[DirOf(virt)]) || CanAlloc(lists, 1)
    requires frame in l.held && Unused(l, frame)
    ensures (lists', m') == WithTable(lists, m, virt, ram) && l' == NoteTable(l, m, virt, FrameFor(lists))
    ensures Sound(Core(lists', m'), l', low, high) && Present(m'.dir[DirOf(virt)])
    ensures !Present(m.dir[DirOf(virt)]) ==> FrameFor(lists) != frame
    ensures frame in l'.held && Unused(l', frame)
  {
    if Present(m.dir[DirOf(virt)]) {
      return lists, m, l;
    }
    var table := FrameFor(lists);
    Take(lists, l.held, low, high);
    AddTableDistinct(l, DirOf(virt), table);
    InstallAgrees(m, l, DirOf(virt), table, ram(table));
    lists', m' := ListsAfterFrame(lists), Install(m, DirOf(virt), table, ram(table));
    l' := AddTable(l, DirOf(virt), table);
    assert l'.tables.Values <= l.tables.Values + {table};
  }

  /** Writing the entry, or giving the frame back when that is refused. */
  lemma EntrySound(lists: FreeLists, m: Mmu, l: Ledger, virt: nat, frame: nat, low: nat, high: nat)
    requires virt < U32 && Sound(Core(lists, m), l, low, high) && Present(m.dir[DirOf(virt)])
    requires frame in l.held && Unused(l, frame)
    ensures Sound(Written(lists, m, virt, frame), AddPage(l, PageOf(virt), frame), low, high)
    ensures Sound(Returned(lists, m, frame), Release(l, frame), low, high)
  {
    assert l.held + {frame} == l.held;
    AddPageDistinct(l, PageOf(virt), frame);
    WriteAgrees(m, l, PageOf(virt), frame);
    GiveBack(lists, l.held, frame, low, high);
  }

  lemma TakeSound(c: Core, l: Ledger, low: nat, high: nat)
    requires Sound(c, l, low, high) && CanAlloc(c.lists, 1)
    ensures var f := FrameFor(c.lists);
            && Sound(Core(ListsAfterFrame(c.lists), c.mmu), Hold(l, f), low, high)
            && f !in l.held && Unused(Hold(l, f), f) && 0x10_0000 <= f < U32 && Aligned(f)
  {
    Take(c.lists, l.held, low, high);
  }

  /** Holding the new frame first and recording its use later comes to the same ledger. */
  lemma NoteHeld(l: Ledger, c: Core, virt: nat, ram: int -> Words)
    requires virt < U32
    ensures var frame := FrameFor(c.lists);
            var noted := NoteTable(Hold(l, frame), c.mmu, virt, FrameFor(ListsAfterFrame(c.lists)));
            && (PlacePage(c, virt, ram).ok ==> Note(l, c, virt, ram) == AddPage(noted, PageOf(virt), frame))
            && (!PlacePage(c, virt, ram).ok && frame !in l.held
                && (Present(c.mmu.dir[DirOf(virt)]) || frame != FrameFor(ListsAfterFrame(c.lists)))
                ==> Note(l, c, virt, ram) == Release(noted, frame))
  {
    var frame, table := FrameFor(c.lists), FrameFor(ListsAfterFrame(c.lists));
    var noted := NoteTable(Hold(l, frame), c.mmu, virt, table);
    if PlacePage(c, virt, ram).ok {
      assert Note(l, c, virt, ram).held == AddPage(noted, PageOf(virt), frame).held;
    } else if frame !in l.held && (Present(c.mmu.dir[DirOf(virt)]) || frame != table) {
      assert Note(l, c, virt, ram).held == noted.held - {frame};
    }
  }

  /** What one round leaves behind, once it got a frame of the pool. */
  lemma PlacePageShape(c: Core, virt: nat, ram: int -> Words)
    requires virt < U32 && 0x10_0000 <= FrameFor(c.lists) && Aligned(FrameFor(c.lists))
    ensures var frame := FrameFor(c.lists);
            var (lists, m) := WithTable(ListsAfterFrame(c.lists), c.mmu, virt, ram);
            var r := PlacePage(c, virt, ram);
            && (r.ok <==> MapPage(ListsAfterFrame(c.lists), c.mmu, frame, virt, 3, ram).ok)
            && (r.ok ==> r.core == Written(lists, m, virt, frame))
            && (!r.ok ==> r.core == Returned(lists, m, frame))
  {
    MapHighFrame(ListsAfterFrame(c.lists), c.mmu, FrameFor(c.lists), virt, MAP_FLAGS, ram);
  }

  /** Whatever holds both after writing the entry and after giving the frame back holds after one round. */
  lemma PlacePageKeeps(keeps: (Core, Ledger) -> bool, c: Core, l: Ledger, virt: nat, ram: int -> Words,
                       lists: FreeLists, m: Mmu, noted: Ledger)
    requires virt < U32 && 0x10_0000 <= FrameFor(c.lists) && Aligned(FrameFor(c.lists))
    requires FrameFor(c.lists) !in l.held
    requires Present(c.mmu.dir[DirOf(virt)]) || FrameFor(c.lists) != FrameFor(ListsAfterFrame(c.lists))
    requires (lists, m) == WithTable(ListsAfterFrame(c.lists), c.mmu, virt, ram)
    requires noted == NoteTable(Hold(l, FrameFor(c.lists)), c.mmu, virt, FrameFor(ListsAfterFrame(c.lists)))
    requires keeps(Written(lists, m, virt, FrameFor(c.lists)), AddPage(noted, PageOf(virt), FrameFor(c.lists)))
    requires keeps(Returned(lists, m, FrameFor(c.lists)), Release(noted, FrameFor(c.lists)))
    ensures keeps(PlacePage(c, virt, ram).core, Note(l, c, virt, ram))
  {
    PlacePageShape(c, virt, ram);
    NoteHeld(l, c, virt, ram);
  }

  lemma BothOutcomesSound(c: Core, l: Ledger, virt: nat, ram: int -> Words, low: nat, high: nat)
      returns (lists: FreeLists, m: Mmu, noted: Ledger)
    requires virt < U32 && Sound(c, l, low, high) && !RunsDry(c, virt)
    ensures 0x10_0000 <= FrameFor(c.lists) && Aligned(FrameFor(c.lists)) && FrameFor(c.lists) !in l.held
    ensures Present(c.mmu.dir[DirOf(virt)]) || FrameFor(c.lists) != FrameFor(ListsAfterFrame(c.lists))
    ensures (lists, m) == WithTable(ListsAfterFrame(c.lists), c.mmu, virt, ram)
    ensures noted == NoteTable(Hold(l, FrameFor(c.lists)), c.mmu, virt, FrameFor(ListsAfterFrame(c.lists)))
    ensures Sound(Written(lists, m, virt, FrameFor(c.lists)),
                  AddPage(noted, PageOf(virt), FrameFor(c.lists)), low, high)
    ensures Sound(Returned(lists, m, FrameFor(c.lists)), Release(noted, FrameFor(c.lists)), low, high)
  {
    var frame, after := FrameFor(c.lists), ListsAfterFrame(c.lists);
    TakeSound(c, l, low, high);
    lists, m, noted := TableSound(after, c.mmu, Hold(l, frame), virt, frame, ram, low, high);
    EntrySound(lists, m, noted, virt, frame, low, high);
  }

  /** One round that does not run dry keeps every frame to a single use, whether or not it succeeds. */
  lemma PlacePageSound(c: Core, l: Ledger, virt: nat, ram: int -> Words, low: nat, high: nat)
    requires virt < U32 && Sound(c, l, low, high) && !RunsDry(c, virt)
    ensures Sound(PlacePage(c, virt, ram).core, Note(l, c, virt, ram), low, high)
  {
    var lists, m, noted := BothOutcomesSound(c, l, virt, ram, low, high);
    PlacePageKeeps((d: Core, k: Ledger) => Sound(d, k, low, high), c, l, virt, ram, lists, m, noted);
  }

  /**
    And only such a round does: without a frame for the page, frame 0 goes on a free list;
    without one for the table, frame 0 becomes the table.
    */
  lemma PlacePageSoundExactly(c: Core, l: Ledger, virt: nat, ram: int -> Words, low: nat, high: nat)
    requires virt < U32 && Sound(c, l, low, high)
    ensures Sound(PlacePage(c, virt, ram).core, Note(l, c, virt, ram), low, high) <==> !RunsDry(c, virt)
  {
    if !RunsDry(c, virt) {
      PlacePageSound(c, l, virt, ram, low, high);
    } else {
      var t, noted := PlacePage(c, virt, ram).core, Note(l, c, virt, ram);
      FrameRuns.CoverNonnegative(t.lists, MAX_FRAMES, 0);
      if !CanAlloc(c.lists, 1) {
        FrameRuns.CoverNonnegative(c.lists, MAX_FRAMES, 0);
        assert FreeList(c.lists, 1) == [];
        StoreTotal(c.lists, 0, 1, false, CoverAt(0));
      }
      var owners := Total(t.lists, CoverAt(0)) + HeldAt(noted.held, 0);
      assert owners >= 1;
      assert !Owned(t.lists, noted.held, low, high);
    }
  }

  /** Whatever one round keeps, the loop keeps. */
  lemma {:induction false} PlacePagesKeeps(
      keeps: (Core, Ledger) -> bool, c: Core, l: Ledger, virt: nat, count: nat, ram: int -> Words)
    requires virt + count * PAGE_SIZE <= U32
    requires keeps(c, l) && NeverDry(c, virt, count, ram)
    requires forall d: Core, m: Ledger, v: nat ::
      v < U32 && keeps(d, m) && !RunsDry(d, v) ==> keeps(PlacePage(d, v, ram).core, Note(m, d, v, ram))
    ensures keeps(PlacePages(c, virt, count, ram).core, NoteAll(l, c, virt, count, ram))
    decreases count
  {
    hide PlacePage, Note, RunsDry;
    if count > 0 {
      var r := PlacePage(c, virt, ram);
      if r.ok {
        PlacePagesKeeps(keeps, r.core, Note(l, c, virt, ram), virt + PAGE_SIZE, count - 1, ram);
      }
    }
  }

  lemma PlacePagesSound(c: Core, l: Ledger, virt: nat, count: nat, ram: int -> Words, low: nat, high: nat)
    requires virt + count * PAGE_SIZE <= U32
    requires Sound(c, l, low, high) && NeverDry(c, virt, count, ram)
    ensures Sound(PlacePages(c, virt, count, ram).core, NoteAll(l, c, virt, count, ram), low, high)
  {
    var keeps := (d: Core, m: Ledger) => Sound(d, m, low, high);
    forall d: Core, m: Ledger, v: nat | v < U32 && keeps(d, m) && !RunsDry(d, v)
      ensures keeps(PlacePage(d, v, ram).core, Note(m, d, v, ram))
    {
      PlacePageSound(d, m, v, ram, low, high);
    }
    PlacePagesKeeps(keeps, c, l, virt, count, ram);
  }

  // ---------------------------------------------------------------- calls

  datatype System = System(core: Core, space: Vasa.Space)

  predicate Urgent(flags: nat) {
    (flags / 4) % 2 == 1
  }

  predicate Continuous(flags: nat) {
    (flags / 8) % 2 == 1
  }

  /** MMAP_ALLOCATED, bit 4, is set on memory that is backed at once. */
  function MarkAllocated(flags: nat): nat {
    if Urgent(flags) && (flags / 16) % 2 == 0 then flags + 16 else flags
  }

  /** The whole pages of a length, rounded down as in the source. */
  function WholePages(length: nat): nat {
    length / PAGE_SIZE
  }

  predicate InWindow(space: Vasa.Space) {
    Vasa.Bounded(space.free, 0, TABLE_WINDOW) && Vasa.Bounded(space.used, 0, TABLE_WINDOW)
  }

  /** `memmap(NULL, length, flags)` finds address space. */
  predicate Fits(s: System, length: nat, flags: nat) {
    Vasa.Fits(s.space.free, WholePages(length) * PAGE_SIZE, MarkAllocated(flags))
  }

  function Base(s: System, length: nat, flags: nat): (base: nat)
    requires InWindow(s.space) && Fits(s, length, flags)
    ensures base + WholePages(length) * PAGE_SIZE <= TABLE_WINDOW
  {
    Vasa.AllocBounded(s.space, Vasa.Ram, WholePages(length) * PAGE_SIZE, MarkAllocated(flags), 0, TABLE_WINDOW);
    Vasa.AllocBase(s.space.free, WholePages(length) * PAGE_SIZE, MarkAllocated(flags))
  }

  function SpaceAfter(s: System, length: nat, flags: nat): Vasa.Space
    requires Fits(s, length, flags)
  {
    Vasa.AfterAlloc(s.space, Vasa.Ram, WholePages(length) * PAGE_SIZE, MarkAllocated(flags))
  }

  datatype Call = Call(length: nat, flags: nat, ram: int -> Words)

  /** The call finds address space, and goes on to map frames there. */
  predicate Maps(s: System, call: Call)
    requires InWindow(s.space)
  {
    Fits(s, call.length, call.flags) && Urgent(call.flags) && Base(s, call.length, call.flags) != 0
  }

  /** The result of a call, 0 if it fails, and the system after it. */
  function MapCall(s: System, call: Call): (nat, System)
    requires InWindow(s.space)
  {
    if !Fits(s, call.length, call.flags) then (0, s)
    else
      var base := Base(s, call.length, call.flags);
      var space := SpaceAfter(s, call.length, call.flags);
      if !Maps(s, call) then (base, System(s.core, space))
      else
        var r := PlacePages(s.core, base, WholePages(call.length), call.ram);
        (if r.ok then base else 0, System(r.core, space))
  }

  lemma MapCallCases(s: System, call: Call)
    requires InWindow(s.space)
    ensures var r := MapCall(s, call);
            if !Fits(s, call.length, call.flags) then r.0 == 0 && r.1.core == s.core && r.1.space == s.space
            else
              var base := Base(s, call.length, call.flags);
              && r.1.space == SpaceAfter(s, call.length, call.flags)
              && (!Maps(s, call) ==> r.0 == base && r.1.core == s.core)
              && (Maps(s, call) ==>
                    var p := PlacePages(s.core, base, WholePages(call.length), call.ram);
                    r.0 == (if p.ok then base else 0) && r.1.core == p.core)
  {
    hide PlacePage, PlacePages, Vasa.AfterAlloc, Vasa.AllocBase, Vasa.FirstFit;
  }

  function NoteCall(l: Ledger, s: System, call: Call): Ledger
    requires InWindow(s.space)
  {
    if Maps(s, call)
    then NoteAll(l, s.core, Base(s, call.length, call.flags), WholePages(call.length), call.ram)
    else l
  }

  lemma CallInWindow(s: System, call: Call)
    requires InWindow(s.space)
    ensures InWindow(MapCall(s, call).1.space)
  {
    if Fits(s, call.length, call.flags) {
      Vasa.AllocBounded(s.space, Vasa.Ram, WholePages(call.length) * PAGE_SIZE, MarkAllocated(call.flags), 0, TABLE_WINDOW);
    }
  }

  /** The call asks for separate frames, and there are enough of them. */
  predicate Supplied(s: System, call: Call)
    requires InWindow(s.space)
  {
    && (Urgent(call.flags) ==> !Continuous(call.flags))
    && (Maps(s, call) ==>
          NeverDry(s.core, Base(s, call.length, call.flags), WholePages(call.length), call.ram))
  }

  ghost predicate AllSupplied(s: System, calls: seq<Call>)
    requires InWindow(s.space)
    decreases |calls|
  {
    calls == [] ||
    (Supplied(s, calls[0]) && (CallInWindow(s, calls[0]); AllSupplied(MapCall(s, calls[0]).1, calls[1..])))
  }

  ghost function Run(s: System, calls: seq<Call>): System
    requires InWindow(s.space)
    decreases |calls|
  {
    if calls == [] then s
    else CallInWindow(s, calls[0]); Run(MapCall(s, calls[0]).1, calls[1..])
  }

  ghost function NoteRun(l: Ledger, s: System, calls: seq<Call>): Ledger
    requires InWindow(s.space)
    decreases |calls|
  {
    if calls == [] then l
    else CallInWindow(s, calls[0]); NoteRun(NoteCall(l, s, calls[0]), MapCall(s, calls[0]).1, calls[1..])
  }

  /** Every run of calls that finds its frames keeps every frame to a single use. */
  lemma {:induction false} RunSound(s: System, l: Ledger, calls: seq<Call>, low: nat, high: nat)
    requires InWindow(s.space) && Sound(s.core, l, low, high) && AllSupplied(s, calls)
    ensures Sound(Run(s, calls).core, NoteRun(l, s, calls), low, high)
    decreases |calls|
  {
    if calls != [] {
      var call := calls[0];
      CallInWindow(s, call);
      if Maps(s, call) {
        PlacePagesSound(s.core, l, Base(s, call.length, call.flags), WholePages(call.length), call.ram, low, high);
      }
      RunSound(MapCall(s, call).1, NoteCall(l, s, call), calls[1..], low, high);
    }
  }

  // ---------------------------------------------------------------- the loop, round by round

  /** Successive states of the loop, every round between them successful. */
  predicate Rounds(trace: seq<Core>, virt: nat, ram: int -> Words)
    requires |trace| > 0 && virt + (|trace| - 1) * PAGE_SIZE <= U32
  {
    forall j :: 0 <= j < |trace| - 1 ==>
      PlacePage(trace[j], virt + j * PAGE_SIZE, ram).ok && PlacePage(trace[j], virt + j * PAGE_SIZE, ram).core == trace[j + 1]
  }

  /** The round that follows a trace. */
  function LastRound(trace: seq<Core>, virt: nat, ram: int -> Words): Placed
    requires |trace| > 0 && virt + |trace| * PAGE_SIZE <= U32
  {
    PlacePage(trace[|trace| - 1], virt + (|trace| - 1) * PAGE_SIZE, ram)
  }

  lemma RoundsTail(trace: seq<Core>, virt: nat, ram: int -> Words)
    requires |trace| > 1 && virt + (|trace| - 1) * PAGE_SIZE <= U32 && Rounds(trace, virt, ram)
    ensures Rounds(trace[1..], virt + PAGE_SIZE, ram)
  {
    hide PlacePage;
    forall j | 0 <= j < |trace| - 2
      ensures PlacePage(trace[1..][j], virt + PAGE_SIZE + j * PAGE_SIZE, ram).ok
      ensures PlacePage(trace[1..][j], virt + PAGE_SIZE + j * PAGE_SIZE, ram).core == trace[1..][j + 1]
    {
      assert trace[1..][j] == trace[j + 1];
      assert virt + PAGE_SIZE + j * PAGE_SIZE == virt + (j + 1) * PAGE_SIZE;
    }
  }

  lemma {:induction false} RoundsArePlacePages(trace: seq<Core>, virt: nat, count: nat, ram: int -> Words)
    requires 0 < |trace| <= count + 1 && virt + count * PAGE_SIZE <= U32
    requires Rounds(trace, virt, ram)
    ensures |trace| == count + 1 ==> PlacePages(trace[0], virt, count, ram) == Placed(true, trace[count])
    ensures |trace| <= count && !LastRound(trace, virt, ram).ok ==>
      PlacePages(trace[0], virt, count, ram) == LastRound(trace, virt, ram)
    decreases count
  {
    hide PlacePage;
    if |trace| > 1 {
      assert PlacePage(trace[0], virt + 0 * PAGE_SIZE, ram).ok;
      RoundsTail(trace, virt, ram);
      RoundsArePlacePages(trace[1..], virt + PAGE_SIZE, count - 1, ram);
    }
  }

  // ---------------------------------------------------------------- the memory map

  class MemoryMap {
    const frames: FrameAllocator
    const space: Vasa.AddressSpace
    const pages: PageTables

    ghost predicate Valid()
      reads this, frames, space, pages
    {
      && frames.Valid() && space.Valid() && pages.Valid()
      && InWindow(space.Contents())
    }

    ghost function CoreContents(): Core
      reads frames, space, pages, pages.dir, pages.window
      requires pages.Valid()
    {
      Core(frames.lists, pages.Contents())
    }

    constructor (frames: FrameAllocator, space: Vasa.AddressSpace, pages: PageTables)
      requires frames.Valid() && space.Valid() && pages.Valid() && InWindow(space.Contents())
      ensures Valid() && this.frames == frames && this.space == space && this.pages == pages
    {
      this.frames, this.space, this.pages := frames, space, pages;
    }

    /** `memmap` with a NULL start: the address of the mapping, or 0 on failure. */
    method Memmap(length: nat, flags: nat, ram: int -> Words) returns (virt: nat)
      requires Valid() && length + 0x2000 < U32
      requires Urgent(flags) ==> !Continuous(flags)
      modifies frames`lists, space, pages.dir, pages.window
      ensures Valid()
      ensures var result := MapCall(old(System(CoreContents(), space.Contents())), Call(length, flags, ram));
              && virt == result.0
              && CoreContents() == result.1.core && space.Contents() == result.1.space
    {
      hide MapCall, PlacePages, Vasa.AfterAlloc, Vasa.AllocBase, Vasa.FirstFit, Vasa.Pad;
      ghost var before := System(CoreContents(), space.Contents());
      MapCallCases(before, Call(length, flags, ram));
      CallInWindow(before, Call(length, flags, ram));
      var size := length - length % PAGE_SIZE;
      assert size == WholePages(length) * PAGE_SIZE;
      var allFlags := MarkAllocated(flags);
      AllocatedIsUrgent(flags);
      SmallPad(allFlags);
      virt := space.Alloc(Vasa.Ram, size, allFlags);
      if virt == 0 {
        return;
      }
      assert virt == Base(before, length, flags);
      var pageCount := Max(1, size / PAGE_SIZE);
      assert pageCount == WholePages(length);
      if Urgent(allFlags) {
        var ok := Back(before.core, virt, pageCount, ram);
        if !ok {
          virt := 0;
        }
      }
    }

    /** The urgent part of `memmap`. */
    method Back(ghost c: Core, virt: nat, count: nat, ram: int -> Words) returns (ok: bool)
      requires frames.Valid() && pages.Valid() && virt + count * PAGE_SIZE <= TABLE_WINDOW && CoreContents() == c
      modifies frames`lists, pages.dir, pages.window
      ensures frames.Valid() && CoreContents() == PlacePages(c, virt, count, ram).core
      ensures ok == PlacePages(c, virt, count, ram).ok
    {
      hide PlacePage, PlacePages;
      ghost var trace;
      ok, trace := PlaceAll(c, virt, count, ram);
      RoundsArePlacePages(trace, virt, count, ram);
    }

    /** The mapping loop of `memmap`; the trace holds the states between its rounds. */
    method PlaceAll(ghost c: Core, virt: nat, count: nat, ram: int -> Words) returns (ok: bool, ghost trace: seq<Core>)
      requires frames.Valid() && pages.Valid() && virt + count * PAGE_SIZE <= TABLE_WINDOW && CoreContents() == c
      modifies frames`lists, pages.dir, pages.window
      ensures frames.Valid() && 1 <= |trace| <= count + 1 && trace[0] == c && Rounds(trace, virt, ram)
      ensures ok ==> |trace| == count + 1 && CoreContents() == trace[count]
      ensures !ok ==> |trace| <= count && !LastRound(trace, virt, ram).ok && CoreContents() == LastRound(trace, virt, ram).core
    {
      hide PlacePage;
      var i := 0;
      trace := [c];
      while i < count
        invariant 0 <= i <= count && |trace| == i + 1 && trace[0] == c
        invariant frames.Valid() && CoreContents() == trace[i]
        invariant Rounds(trace, virt, ram)
      {
        ok := PlaceOne(trace[i], virt + i * PAGE_SIZE, ram);
        if !ok {
          return;
        }
        trace := trace + [PlacePage(trace[i], virt + i * PAGE_SIZE, ram).core];
        i := i + 1;
      }
      return true, trace;
    }

    /** One round of the loop. */
    method PlaceOne(ghost c: Core, virt: nat, ram: int -> Words) returns (ok: bool)
      requires frames.Valid() && pages.Valid() && virt < TABLE_WINDOW && CoreContents() == c
      modifies frames`lists, pages.dir, pages.window
      ensures frames.Valid()
      ensures ok == PlacePage(c, virt, ram).ok && CoreContents() == PlacePage(c, virt, ram).core
    {
      FrameInRange(frames.lists);
      var frame := frames.Alloc(1);
      if frame == 0 {
        frames.Dealloc(frame, 1);
        return false;
      }
      ok := pages.Map(frames, frame, virt, MAP_FLAGS, ram);
      if !ok {
        frames.Dealloc(frame, 1);
      }
    }
  }

  lemma SmallPad(flags: nat)
    ensures Vasa.Pad(flags) <= 0x2000
  {
  }

  lemma AllocatedIsUrgent(flags: nat)
    ensures Urgent(MarkAllocated(flags)) == Urgent(flags)
  {
    assert (flags + 16) / 4 == flags / 4 + 4;
  }

  lemma FrameInRange(lists: FreeLists)
    requires InRange(lists)
    ensures FrameFor(lists) + PAGE_SIZE <= U32
  {
  }
}

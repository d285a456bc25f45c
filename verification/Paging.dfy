/**
  The two-level page tables. The directory's last slot maps the directory itself, so all page
  table entries appear as one window of words indexed by page number; installing a page table
  makes whatever its frame held before appear in that window.

  The source declares the fields of an entry in the wrong order, so its present test looks at
  bit 23 of the word, inside the frame address, and its address test at the low twenty bits.
  Entries are written and looked up as whole words, correctly.
  */
module Paging {
  import opened Word32
  import opened Frame

  const ENTRIES := 1024
  const PAGES := 1024 * 1024
  const TABLE_WINDOW := 0xFFC0_0000

  type Words = w: seq<nat> | |w| == ENTRIES witness seq(ENTRIES, _ => 0)
  type Window = w: seq<nat> | |w| == PAGES witness seq(PAGES, _ => 0)

  datatype Mmu = Mmu(dir: Words, window: Window)

  function PageOf(virt: nat): (page: nat)
    ensures virt < U32 ==> page < PAGES
  {
    virt / PAGE_SIZE
  }

  function DirOf(virt: nat): (d: nat)
    requires virt < U32
    ensures d == PageOf(virt) / ENTRIES
  {
    virt / (PAGE_SIZE * ENTRIES)
  }

  predicate Present(dirEntry: nat) {
    dirEntry % 2 == 1
  }

  predicate Pse(dirEntry: nat) {
    (dirEntry / 0x80) % 2 == 1
  }

  /** The nine bits that the source's `flags` field really covers. */
  function FlagsField(word: nat): nat {
    word / 0x80_0000
  }

  /** The twenty bits that its `address` field covers. */
  function AddressField(word: nat): nat {
    word % 0x10_0000
  }

  function PageAddress(word: nat): nat {
    word - word % PAGE_SIZE
  }

  /** A new page table in a frame: the entry is `frame | 3`, and the frame's old words show. */
  function Install(m: Mmu, d: nat, frame: nat, ram: Words): Mmu
    requires d < ENTRIES
  {
    Mmu(m.dir[d := frame - frame % 4 + 3], Expose(m.window, d, ram))
  }

  function Expose(window: Window, d: nat, ram: Words): Window {
    seq(PAGES, page requires 0 <= page < PAGES => if page / ENTRIES == d then ram[page % ENTRIES] else window[page])
  }

  lemma InstallAt(m: Mmu, d: nat, frame: nat, ram: Words, page: nat)
    requires d < ENTRIES && page < PAGES
    ensures Install(m, d, frame, ram).window[page]
         == if page / ENTRIES == d then ram[page % ENTRIES] else m.window[page]
  {
  }

  function Write(m: Mmu, page: nat, word: nat): Mmu
    requires page < PAGES
  {
    m.(window := m.window[page := word])
  }

  datatype MapResult = MapResult(ok: bool, lists: FreeLists, mmu: Mmu)

  /** What `frame_alloc(1)` hands out, 0 when it fails. */
  function FrameFor(lists: FreeLists): nat {
    if CanAlloc(lists, 1) then AllocAddress(lists, 1) else 0
  }

  function ListsAfterFrame(lists: FreeLists): FreeLists {
    if CanAlloc(lists, 1) then AfterAlloc(lists, 1) else lists
  }

  /** The directory has a table for the address, allocated now if need be. */
  function WithTable(lists: FreeLists, m: Mmu, virt: nat, ram: int -> Words): (FreeLists, Mmu)
    requires virt < U32
  {
    if Present(m.dir[DirOf(virt)]) then (lists, m)
    else (ListsAfterFrame(lists), Install(m, DirOf(virt), FrameFor(lists), ram(FrameFor(lists))))
  }

  function MapPage(lists: FreeLists, m: Mmu, physical: nat, virt: nat, flags: nat, ram: int -> Words): MapResult
    requires virt < U32
  {
    var (lists, m) := WithTable(lists, m, virt, ram);
    var word := m.window[PageOf(virt)];
    if Pse(m.dir[DirOf(virt)]) then MapResult(false, lists, m)
    else if FlagsField(word) % 2 == 1 then
      MapResult(AddressField(word) == PageAddress(physical) && FlagsField(word) == flags, lists, m)
    else
      MapResult(true, lists, Write(m, PageOf(virt), PageAddress(physical) + flags))
  }

  /** `paging_find_physical` */
  function FindPhysical(m: Mmu, virt: nat): nat
    requires virt < U32
  {
    PageAddress(m.window[PageOf(virt)])
  }

  /** The word found in a page entry is taken for the mapping asked for, by the mis-ordered fields. */
  predicate LooksMapped(word: nat, physical: nat, flags: nat) {
    AddressField(word) == PageAddress(physical) && FlagsField(word) == flags
  }

  /** A word taken for that mapping is never one of it: bit 23 is set, where the frame has none. */
  lemma LooksMappedIsNot(word: nat, physical: nat, flags: nat)
    requires LooksMapped(word, physical, flags) && FlagsField(word) % 2 == 1
    ensures PageAddress(word) != PageAddress(physical)
  {
  }

  /**
    A directory entry without its lowest bit gets the next frame as a page table, with the two
    lowest bits set; its part of the window then shows what was in that frame, and no other does.
    An entry with that bit is left alone.
    */
  lemma TableInstalled(lists: FreeLists, m: Mmu, virt: nat, ram: int -> Words)
    requires virt < U32
    ensures var (rest, t) := WithTable(lists, m, virt, ram);
            var d, frame := virt / 0x40_0000, FrameFor(lists);
            if m.dir[d] % 2 == 1 then rest == lists && t == m
            else
              && rest == ListsAfterFrame(lists)
              && t.dir[d] == frame - frame % 4 + 3
              && (forall e :: 0 <= e < 1024 && e != d ==> t.dir[e] == m.dir[e])
              && (forall page :: 0 <= page < 1024 * 1024 ==>
                    t.window[page] == if page / 1024 == d then ram(frame)[page % 1024] else m.window[page])
  {
  }

  /**
    Mapping succeeds exactly when bit 7 of the directory entry is clear, so that it is no large
    page, and bit 23 of the word found is clear or that word looks like the mapping already. The
    lookup then returns the frame exactly if bit 23 was clear. Every page outside a table that was
    installed for this one keeps its word.
    */
  lemma MapThenFind(lists: FreeLists, m: Mmu, physical: nat, virt: nat, flags: nat, ram: int -> Words)
    requires virt < U32 && flags < PAGE_SIZE
    ensures var r := MapPage(lists, m, physical, virt, flags, ram);
            var (rest, before) := WithTable(lists, m, virt, ram);
            var frame, word := physical - physical % 0x1000, before.window[virt / 0x1000];
            var clear := (word / 0x80_0000) % 2 == 0;
            && (r.ok <==> (before.dir[virt / 0x40_0000] / 0x80) % 2 == 0
                          && (clear || (word % 0x10_0000 == frame && word / 0x80_0000 == flags)))
            && (r.ok ==> (FindPhysical(r.mmu, virt) == frame <==> clear))
            && r.lists == rest && r.mmu.dir == before.dir
            && r.mmu.window == (if r.ok && clear then before.window[virt / 0x1000 := frame + flags] else before.window)
            && forall page :: 0 <= page < PAGES && page != PageOf(virt)
                 && (m.dir[virt / 0x40_0000] % 2 == 1 || page / 1024 != virt / 0x40_0000)
                 ==> r.mmu.window[page] == m.window[page]
  {
    assert (PageAddress(physical) + flags) % PAGE_SIZE == flags;
    var r := MapPage(lists, m, physical, virt, flags, ram);
    var (_, before) := WithTable(lists, m, virt, ram);
    var word := before.window[PageOf(virt)];
    if LooksMapped(word, physical, flags) && FlagsField(word) % 2 == 1 {
      LooksMappedIsNot(word, physical, flags);
    }
    TableInstalled(lists, m, virt, ram);
  }

  /** What the lookup returns, once a frame is mapped by its word. */
  lemma FindIsWord(m: Mmu, virt: nat)
    requires virt < U32
    ensures FindPhysical(m, virt) % 0x1000 == 0
    ensures FindPhysical(m, virt) <= m.window[virt / 0x1000] < FindPhysical(m, virt) + 0x1000
  {
  }

  /** A frame above the first megabyte never looks mapped: it is mapped exactly when bit 23 is clear. */
  lemma MapHighFrame(lists: FreeLists, m: Mmu, physical: nat, virt: nat, flags: nat, ram: int -> Words)
    requires virt < U32 && 0x10_0000 <= physical && physical % PAGE_SIZE == 0 && flags < PAGE_SIZE
    ensures var r := MapPage(lists, m, physical, virt, flags, ram);
            var (_, before) := WithTable(lists, m, virt, ram);
            && (r.ok <==> !Pse(before.dir[DirOf(virt)]) && FlagsField(before.window[PageOf(virt)]) % 2 == 0)
            && r.mmu == if r.ok then Write(before, PageOf(virt), physical + flags) else before
  {
    hide MapPage, WithTable;
    MapThenFind(lists, m, physical, virt, flags, ram);
  }

  /**
    The source means to refuse to map a page twice. It does exactly when bit 23 of the frame
    already mapped there is set; otherwise the new frame silently takes the page over.
    */
  lemma RemapRefusedExactly(lists: FreeLists, m: Mmu, mapped: nat, physical: nat, virt: nat, ram: int -> Words)
    requires virt < U32
    requires Present(m.dir[DirOf(virt)]) && !Pse(m.dir[DirOf(virt)])
    requires mapped % PAGE_SIZE == 0 && m.window[PageOf(virt)] == mapped + 3
    ensures MapPage(lists, m, physical, virt, 3, ram).ok <==> (mapped / 0x80_0000) % 2 == 0
    ensures (mapped / 0x80_0000) % 2 == 0 ==>
      FindPhysical(MapPage(lists, m, physical, virt, 3, ram).mmu, virt) == PageAddress(physical)
  {
    MappedWord(mapped, physical);
    hide MapPage, Install, FlagsField, AddressField, PageAddress, Pse;
    MapThenFind(lists, m, physical, virt, 3, ram);
  }

  lemma MappedWord(mapped: nat, physical: nat)
    requires mapped % PAGE_SIZE == 0
    ensures FlagsField(mapped + 3) == mapped / 0x80_0000 && AddressField(mapped + 3) != PageAddress(physical)
  {
    MappedFlags(mapped / PAGE_SIZE);
    MappedAddress(mapped / PAGE_SIZE);
    var k := physical / PAGE_SIZE;
    assert PageAddress(physical) == 0x1000 * k;
  }

  lemma MappedFlags(p: nat)
    ensures (0x1000 * p + 3) / 0x80_0000 == p / 0x800 == (0x1000 * p) / 0x80_0000
  {
  }

  lemma MappedAddress(p: nat)
    ensures (0x1000 * p + 3) % 0x10_0000 == 0x1000 * (p % 0x100) + 3
  {
    var q, r := p / 0x100, p % 0x100;
    assert 0x1000 * p + 3 == 0x10_0000 * q + (0x1000 * r + 3);
  }

  class PageTables {
    const dir: array<nat>
    const window: array<nat>

    ghost predicate Valid()
      reads this
    {
      dir.Length == ENTRIES && window.Length == PAGES && dir != window
    }

    ghost function Contents(): Mmu
      reads this, dir, window
      requires Valid()
    {
      Mmu(dir[..], window[..])
    }

    constructor ()
      ensures Valid() && fresh(dir) && fresh(window)
    {
      dir := new nat[ENTRIES](_ => 0);
      window := new nat[PAGES](_ => 0);
      new;
      assert dir.Length != window.Length;
    }

    /** `paging_map` */
    method Map(frames: FrameAllocator, physical: nat, virt: nat, flags: nat, ram: int -> Words) returns (ok: bool)
      requires Valid() && frames.Valid()
      requires virt < TABLE_WINDOW && physical < U32 && flags < PAGE_SIZE
      modifies frames`lists, dir, window
      ensures frames.Valid()
      ensures var r := MapPage(old(frames.lists), old(Contents()), physical, virt, flags, ram);
              ok == r.ok && frames.lists == r.lists && Contents() == r.mmu
    {
      hide FlagsField, AddressField, PageAddress, Pse, WithTable;
      NeedTable(frames, virt, ram);
      var d, page := virt / (PAGE_SIZE * ENTRIES), virt / PAGE_SIZE;
      if Pse(dir[d]) {
        return false;
      }
      if FlagsField(window[page]) % 2 == 1 {
        return AddressField(window[page]) == PageAddress(physical) && FlagsField(window[page]) == flags;
      }
      window[page] := PageAddress(physical) + flags;
      return true;
    }

    /** The first part of it: allocate a page table if there is none. */
    method NeedTable(frames: FrameAllocator, virt: nat, ram: int -> Words)
      requires Valid() && frames.Valid() && virt < TABLE_WINDOW
      modifies frames`lists, dir, window
      ensures frames.Valid() && (frames.lists, Contents()) == WithTable(old(frames.lists), old(Contents()), virt, ram)
    {
      hide Present, Expose;
      var d := virt / (PAGE_SIZE * ENTRIES);
      if !Present(dir[d]) {
        var table := frames.Alloc(1);
        dir[d] := table - table % 4 + 3;
        Show(d, ram(table));
      }
    }

    /** What the processor does when a directory entry starts to point at a frame. */
    method Show(d: nat, words: Words)
      requires Valid() && d < ENTRIES
      modifies window
      ensures window[..] == Expose(old(window[..]), d, words)
    {
      for i := 0 to ENTRIES
        invariant forall page :: 0 <= page < PAGES ==>
          window[page] == if d * ENTRIES <= page < d * ENTRIES + i then words[page % ENTRIES] else old(window[page])
      {
        assert (d * ENTRIES + i) % ENTRIES == i;
        window[d * ENTRIES + i] := words[i];
      }
      assert forall page :: 0 <= page < PAGES ==> (page / ENTRIES == d <==> d * ENTRIES <= page < d * ENTRIES + ENTRIES);
    }

    /** `paging_find_physical` */
    method Find(virt: nat) returns (physical: nat)
      requires Valid() && virt < U32
      ensures physical == FindPhysical(Contents(), virt)
    {
      physical := window[virt / PAGE_SIZE] - window[virt / PAGE_SIZE] % PAGE_SIZE;
    }
  }
}

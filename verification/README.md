# brackos: a verified model of its allocators and state machines

brackos is a small i386 kernel. This project models its memory stack (physical frames, virtual
address space, page tables, `memmap`, slabs), its file tree, its text screen, its event clock, its
scheduler ring and its interrupt table parser in Dafny, and proves what they keep over every run.

## How to read it

One module per source file, with a second module where whole runs are treated. The code that
changes state is a class whose methods have the loops of the source; each method is proved equal
to a function of the old state, and the promises are lemmas about those functions.

| modules | source | main results |
|---|---|---|
| `Frame`, `FrameRuns` | `src/kernel/mem/frame.c` | ownership, exact accounting and coalescing over every run |
| `Vasa`, `VasaRuns` | `src/kernel/mem/vasa.c` | free and used nodes partition the region; sorted lists; exact conditions |
| `Paging`, `Memmap`, `MemmapRuns` | `src/arch/i386/mem/paging.c`, `map.c` | no frame has two uses over every run of `memmap` |
| `Slub`, `SlubCache`, `SlubBytes`, `Kmalloc` | `src/kernel/mem/slub.c` | a slab refines a set of slots; the lists of slabs; size classes |
| `FileTree`, `Vfs`, `VfsCreate` | `src/kernel/fs/file.c`, `vfs.c` | path walk is component-wise lookup; create, then find |
| `Memory`, `Screen`, `ScreenLayout` | `src/std/string.c`, `src/drivers/vga.c` | the screen is a window onto an unbounded layout |
| `Clock` | `src/kernel/time/clock.c` | firing laws over every trace |
| `Scheduler` | `src/kernel/tasks/scheduler.c` | one cycle, whose turn it is, whose context is saved |
| `Madt` | `src/arch/i386/interrupts/acpi.c` | the record walk on every byte string and on well-formed tables |
| `Word32`, `Arithmetic` | | machine words, products |

Two devices carry most of the memory proofs. A free list is weighed: `Total(lists, f)` adds a
weight over all chunks, and with the weight "contains byte p" it counts the owners of a byte. Being
disjoint and inside the pool then is one statement, that no byte has more owners than regions
that were added; the same count makes "partition" the statement that every byte is covered
once. `FrameRuns` and `MemmapRuns` turn that back into statements about pairs of chunks and frames.

Conventions:

- Linked lists whose cells are plain records (free frames, address space nodes, events) are
  sequences. Where the aliasing of links is the point, it is modelled: the links of files and tasks
  are heap pointers, those of slab objects and slabs are words in a memory map, and a stale
  `next` of an address space node is the explicit parameter `stale`.
- Integers are unbounded, and `Word32.Wrap` and `WrapSigned` put back the 32-bit wrap-around
  where the code depends on it (buddy test, chunk ends, byte totals, alignment, event counters).
- Locks make each operation atomic. Allocating a list cell always succeeds.
- What a frame held before it becomes a page table is the parameter `ram`, any function; the slab
  that `memmap` would return is a parameter of the cache operations; the registers an interrupt
  finds are a parameter of the scheduler.

Two memory errors are repaired, and stated where they occur: frame.c:71 reads the address of a node
that line 70 has freed, so it is read first; clock.c:56 writes through a null `prev` and clock.c:10
reads `next` of a freed event, so the write is skipped and `next` is taken first.

## Where the code departs from its intent

Each is kept as the code has it. The lemmas named give the exact condition under which the promise
holds, or state what the code does instead.

- Two merged chunks of `count` frames become one of `count + 1` (frame.c:71). `FreeConservesExactly`: frames are
  conserved exactly when no merge happens above single frames. `FreeLeaksAFrame` is an instance.
- `frame_free_count` counts every chunk a page short (frame.c:177): `Frame.FrameAllocator.FreeCount`.
- A region added to the frame allocator is not merged with what is free (frame.c:90-97). `TiledCoalescedExactly`: the
  lists stay coalesced exactly when its remainder touches no free chunk of the same count.
- A padded `vasa_alloc` does not move the node's base past the waste (vasa.c:339). `AllocPartitionsExactly`: the
  partition survives exactly when the node's base already is aligned. `MovedBaseTiles`: moving the base mends it.
- A node put into an empty list keeps its old `next` (vasa.c:95-102): `DeallocPartitionsExactly`, `MarkPartitionsExactly`.
- An exact match at the head is unlinked from the wrong list (vasa.c:144-151): `ExactFirstBreaksPartition`,
  `ExactFirstUsedLosesFree`.
- A mark up to the edge of a node leaves an empty node (vasa.c:158-187): `SplitOrderedExactly`, `EmptyNodeUnsorts`.
- `vasa_dealloc` accepts a pointer at the end of a block (vasa.c:267): `DeallocFindsOwner`.
- The present test of a page entry looks at bit 23 (paging.h:17-21): `MapThenFind`, `RemapRefusedExactly`.
- Without frames, `memmap` gives back frame 0 or installs it as a page table (map.c:130-132,
  paging.c:136-138): `PlacePageSoundExactly`.
- A fresh slab has one slot too many (slub.c:140-150). `TopSlotFitsExactly`: its object stays in the slab exactly for
  sizes that divide the space; `LiveApartExactly`: live objects of different slabs share no byte exactly for sizes
  whose slots take no more than a slab; `EndWordInsideExactly` says when the word
  that ends the list is stored inside.
- A free that runs off the end does not end the list (slub.c:366-369): `RunOffEndIntactExactly`; `FreshRunRefines`
  and `NewCacheRunSound` show that it cannot happen before the slab is full.
- The class of 4096-byte objects is not recovered (slub.c:401-415): `MallocFreeAgreeExactly`.
- The first file of a directory can get a wrong name (file.c:150-160): `MissingName`, `CreateThenFind`, `FirstFileMisnamed`.
- A file is created under the last ancestor that is there, even if that is not its parent, and an empty path creates a
  file without a name (vfs.c:28-47): `CreateFindsExactly`, `CreateKeepsOthersExactly`, `StrayFileShadows`.
- A path of one component is looked for beside the root, but created below it (vfs.c:47): `OneComponentCreatedBelowRoot`.
- A time that does not fit the signed counter (clock.c:67) can fire too early. `CountdownLawExactly`,
  `SteadyCallbacksExactly`, `OnceOffExactly`: the laws hold exactly for the times below 2^31 plus the least amount
  that the clock is advanced by.
- A short type 7 record is overrun (acpi.c:215): `StoreStaysInsideExactly`, `TableVisitedExactly`.
- An override of a source from 16 on is written behind the array (acpi.c:142): `OverridesStayInsideExactly`; an
  override to 0xFFFFFFFF reads as none (acpi.c:331): `RemapsToLastExactly`.

## Model

| member | source | states |
|---|---|---|
| Frame.BuddyCheckIsAdjacency | src/kernel/mem/frame.c:35-41 | the 32-bit buddy test accepts exactly the chunks that touch, whatever the base and however the subtraction wraps |
| Frame.FrameAllocator.AddFreeItem | src/kernel/mem/frame.c:44-98 | the loop with its recursion leaves the lists of `AddFree`: merge with the first touching chunk and go on, else append; a new item is pushed |
| Frame.AddFreeCover | src/kernel/mem/frame.c:44-98 | through any cascade of merges no byte becomes free that was not free or given back now |
| Frame.AddFreeFrames | src/kernel/mem/frame.c:60-72 | the free total changes by the count given back less the sum of count + i - 1 over the merges |
| Frame.CascadeExactly | src/kernel/mem/frame.c:44-98 | what becomes of every list when a chunk is given back: each list on the way loses the first chunk that touches what is merged so far, the list above them gains at its end one chunk at the lowest address of all, the others stay; it ends where no chunk touches |
| Frame.CascadeCover | src/kernel/mem/frame.c:60-72 | exactly the bytes given back become free, less those that each merge drops from the end of its two chunks |
| Frame.OneMergeCover | src/kernel/mem/frame.c:60-72 | for a single merge at a and b, the bytes dropped are [min(a, b) + (count + 1) pages, min(a, b) + 2 count pages) |
| Frame.PartnersAreMerges | src/kernel/mem/frame.c:60-72 | the accounting counts as many merges as the cascade has partners |
| Frame.LossClosedForm | src/kernel/mem/frame.c:71 | closed form of that loss; it is zero exactly for no merge, or one merge of single frames |
| Frame.FreeConservesExactly | src/kernel/mem/frame.c:60-72 | giving back conserves frames if and only if no merge happens above count 1, read off two free lists |
| Frame.FreeLeaksAFrame | src/kernel/mem/frame.c:71 | two frames given back beside two free ones leave three: an instance of the leak |
| Frame.AddFreeCoalesced | src/kernel/mem/frame.c:53-89 | giving back keeps every list below the maximal count free of touching chunks |
| Frame.AddFreeInRange | src/kernel/mem/frame.c:44-98 | every free chunk stays within the 32-bit address space |
| Frame.FrameAllocator.Alloc | src/kernel/mem/frame.c:101-135 | returns the head of the first stocked list from the wanted count on and gives its tail back, or returns 0 and changes nothing |
| Frame.FrameAllocator.Behind | src/kernel/mem/frame.c:118 | the end of the wanted frames, exact unless it is the end of the address space |
| Frame.FrameAllocator.Cut | src/kernel/mem/frame.c:112-127 | the popping of a chunk and the return of its tail |
| Frame.AllocCover | src/kernel/mem/frame.c:111-123 | the bytes handed out were free, are no longer, and no other byte becomes free |
| Frame.AllocExactly | src/kernel/mem/frame.c:110-128 | the address is the head of the smallest list that has a chunk; that list loses it, and the rest of the chunk is given back |
| Frame.CanAllocExactly | src/kernel/mem/frame.c:110-134 | an allocation fails if and only if no list from the wanted count on has a chunk |
| Frame.AllocCoverExactly | src/kernel/mem/frame.c:110-128 | exactly the bytes handed out stop being free, and those that merging the rest drops |
| Frame.AllocFrames | src/kernel/mem/frame.c:111-123 | exact accounting of an allocation, with the frames that merging its tail loses |
| Frame.AllocCoalesced | src/kernel/mem/frame.c:121-123 | an allocation keeps the lists coalesced |
| Frame.FrameAllocator.Dealloc | src/kernel/mem/frame.c:140-144 | a freed chunk goes through the same coalescing |
| Frame.FrameAllocator.FreeCount | src/kernel/mem/frame.c:169-184 | the result is PAGE_SIZE times (free frames less number of chunks), modulo 2^32, in every state |
| Frame.FrameAllocator.AddChunk | src/kernel/mem/frame.c:187-211 | both loops end; a region above one page is tiled, one page or less is ignored |
| Frame.TiledCover | src/kernel/mem/frame.c:197-210 | the new chunks are disjoint and cover precisely the first size / PAGE_SIZE frames |
| Frame.TiledFrames | src/kernel/mem/frame.c:197-210 | adding a region adds exactly its frames |
| Frame.TiledShape | src/kernel/mem/frame.c:197-210 | the new chunks are of the maximal count and at most one remainder, put in front of what was there |
| Frame.TiledBelowMax | src/kernel/mem/frame.c:197-210 | below the maximal count, adding a region changes one list only, by its remainder |
| Frame.TiledCoalescedExactly | src/kernel/mem/frame.c:90-97 | adding a region keeps the lists coalesced if and only if its remainder touches no free chunk of the same count, which can be checked before the call |
| Frame.FreshPoolCoalesced | src/kernel/mem/frame.c:187-211 | one region added to empty lists is coalesced |
| FrameRuns.StepSafe | src/kernel/mem/frame.c:101-211 | each operation keeps every byte of the pool to one owner, free chunk or live allocation, and every byte outside to none |
| FrameRuns.RunSafe | src/kernel/mem/frame.c:101-211 | the same over every run of well-matched frees, allocations and additions |
| FrameRuns.BootRunSafe | src/kernel/mem/frame.c:101-211 | every run from empty lists is safe |
| FrameRuns.TwoLiveDisjoint | src/kernel/mem/frame.c:101-135 | in a safe state two outstanding allocations do not overlap |
| FrameRuns.LiveAndFreeDisjoint | src/kernel/mem/frame.c:101-144 | nor does an allocation overlap a free chunk |
| FrameRuns.TwoFreeDisjoint | src/kernel/mem/frame.c:44-98 | nor do two free chunks of any counts |
| FrameRuns.LiveInsidePool | src/kernel/mem/frame.c:101-135 | every byte of an allocation lies in a region that was added |
| FrameRuns.FreeInsidePool | src/kernel/mem/frame.c:44-98 | so does every byte of a free chunk |
| FrameRuns.StepAccounts | src/kernel/mem/frame.c:44-211 | each operation makes exactly the frames go missing that its merges lose |
| FrameRuns.RunAccounts | src/kernel/mem/frame.c:44-211 | over every run, frames of the pool that are neither free nor held are exactly those the merges lost |
| FrameRuns.RunCoalesced | src/kernel/mem/frame.c:53-211 | over every run of additions, allocations and frees coalesced lists stay coalesced, if each region added is detached from what is free |
| FrameRuns.BootRunCoalesced | src/arch/i386/mem/map.c:55-58 | every state reached after the one region that boot adds is coalesced |
| FrameRuns.TwoRegionsStayApart | src/kernel/mem/frame.c:90-97 | an instance that is not detached: a second region added beside the first is not coalesced with it |
| Vasa.MergeCover | src/kernel/mem/vasa.c:18-34 | two congruent nodes merged cover what both covered |
| Vasa.CongruentIsTouching | src/kernel/mem/vasa.c:18-26 | nodes that are not empty are congruent if and only if one starts where the other ends |
| Vasa.PlaceCover | src/kernel/mem/vasa.c:63-108 | placing a node, merged or in order, adds exactly its bytes |
| Vasa.AddNodeCover | src/kernel/mem/vasa.c:47-109 | adding a node adds its bytes, and in an empty list those its old link leads to |
| Vasa.PlaceSorted | src/kernel/mem/vasa.c:63-108 | placing keeps a list sorted by base |
| Vasa.PlacePositive | src/kernel/mem/vasa.c:63-108 | placing keeps a list free of empty nodes |
| Vasa.PlaceAt | src/kernel/mem/vasa.c:63-108 | where a node goes: to the end, into the first node it touches if the list is free, with the lower base and both lengths, or in front of the first with a larger base |
| Vasa.UsedGains | src/kernel/mem/vasa.c:63-108 | a used list gains the node as it is and keeps every other |
| Vasa.FlagsCleared | src/kernel/mem/vasa.c:52-55 | a free list without flags stays without flags |
| Vasa.AddressSpace.constructor | src/kernel/mem/vasa.c:397-405 | the region becomes one free node, nothing is used |
| Vasa.InitPartitions | src/kernel/mem/vasa.c:397-405 | the initial lists partition the region |
| Vasa.AddressSpace.Add | src/kernel/mem/vasa.c:47-109 | the walk of vasa_add_node is `AddNode`, on the list named and on no other |
| Vasa.AlignUpIsLeastMultiple | src/kernel/mem/vasa.c:13 | the padding macro gives the least multiple at or above, and the value itself exactly for multiples |
| Vasa.AddressSpace.Alloc | src/kernel/mem/vasa.c:293-394 | NULL and no change exactly when the size is 0 or no free node has size + pad bytes; else the first such node is cut |
| Vasa.AddressSpace.Carve | src/kernel/mem/vasa.c:309-384 | the cutting of a node, with the base moved by the size only |
| Vasa.AllocGeometry | src/kernel/mem/vasa.c:304-346 | the result is the least multiple of the padding in the node, the waste is below the padding, the result lies in the node, and a padded request never uses the node up |
| Vasa.FitsExactly | src/kernel/mem/vasa.c:294-309 | there is room if and only if the size is not 0 and some node has the size and the padding that bits 5 and 6 of the flags ask for |
| Vasa.AlignedAsAsked | src/kernel/mem/vasa.c:304-346 | the first such node is used, and the result lies in it, on the one-page boundary for bit 5, else the two-page one for bit 6, else at its base |
| Vasa.AllocRecords | src/kernel/mem/vasa.c:369-380 | the used list gains one node, with the address, size, flags and type of the allocation |
| Vasa.AllocCover | src/kernel/mem/vasa.c:304-384 | what happens to every byte of the region: to the used list exactly [ptr, ptr + size) |
| Vasa.AllocPartitionsExactly | src/kernel/mem/vasa.c:304-384 | an allocation keeps the partition if and only if nothing is wasted, that is, the chosen base is aligned |
| Vasa.MovedBaseTiles | src/kernel/mem/vasa.c:335-339 | with the base moved past the waste, waste, result and rest tile the node |
| Vasa.AllocBounded | src/kernel/mem/vasa.c:293-394 | an allocation stays within the bounds of the free list |
| Vasa.AddressSpace.Dealloc | src/kernel/mem/vasa.c:254-289 | the first used node with the pointer in it or at its end moves to the free list, else nothing changes |
| Vasa.DeallocCover | src/kernel/mem/vasa.c:254-289 | freeing keeps the cover of every byte, plus that of a stale tail when it joins an empty list |
| Vasa.DeallocMoves | src/kernel/mem/vasa.c:262-281 | the first used node with the pointer in it or at its end leaves the used list, and its bytes join the free one, with what a stale link brings along if that was empty |
| Vasa.DeallocOfStranger | src/kernel/mem/vasa.c:284-288 | with no such node nothing happens |
| Vasa.DeallocPartitionsExactly | src/kernel/mem/vasa.c:254-289 | freeing keeps the partition if and only if the free list is not empty or the freed node is the last |
| Vasa.DeallocFindsOwner | src/kernel/mem/vasa.c:262-278 | the node around a pointer is the one freed if and only if no earlier node ends at the pointer |
| Vasa.AddressSpace.Mark | src/kernel/mem/vasa.c:112-195 | moves a contained range to the other list and reports whether one was found, outside an exact match at the head |
| Vasa.AddressSpace.Move | src/kernel/mem/vasa.c:139-157 | a whole node moves across |
| Vasa.AddressSpace.Split | src/kernel/mem/vasa.c:158-187 | a range is cut out of a node, the rests stay on its side |
| Vasa.Search | src/kernel/mem/vasa.c:127-194 | the walk finds the first node around the range, and stops at an empty node |
| Vasa.FirstAroundComplete | src/kernel/mem/vasa.c:127-194 | without empty nodes it fails if and only if no node contains the range |
| Vasa.FirstAroundAt | src/kernel/mem/vasa.c:127-137 | a search that has passed some nodes ends at an empty one without a result, and at one around the range with it |
| Vasa.MarkNotFound | src/kernel/mem/vasa.c:194 | a mark that finds no node changes nothing |
| Vasa.MarkMoves | src/kernel/mem/vasa.c:139-187 | a mark takes exactly [base, base + length) off one list and puts it on the other, with what a surviving link brings along |
| Vasa.MarkPartitionsExactly | src/kernel/mem/vasa.c:112-195 | a mark keeps the partition if and only if no stale link can be followed |
| Vasa.ExactFirstBreaksPartition | src/kernel/mem/vasa.c:144-151 | an exact match of the first free node makes both lists one and never keeps the partition |
| Vasa.ExactFirstUsedLosesFree | src/kernel/mem/vasa.c:139-157 | an exact match of the first used node turns all that was used into the free list and loses all that was free; the node heads both lists, or is freed while it heads the used one |
| VasaRuns.StepCover | src/kernel/mem/vasa.c:112-394 | a guarded operation keeps the cover of every byte |
| VasaRuns.RunPartitions | src/kernel/mem/vasa.c:112-394 | over every guarded run all nodes are disjoint and their union is exactly the region |
| VasaRuns.BootRunPartitions | src/kernel/mem/vasa.c:112-405 | the same from the initial state |
| VasaRuns.AllocOrdered | src/kernel/mem/vasa.c:293-394 | allocating keeps both lists sorted and free of empty nodes, though a base moves in place |
| VasaRuns.DeallocOrdered | src/kernel/mem/vasa.c:254-289 | so does freeing |
| VasaRuns.MarkOrdered | src/kernel/mem/vasa.c:112-195 | so does a mark that takes a whole node or leaves bytes on both sides |
| VasaRuns.MarkRecords | src/kernel/mem/vasa.c:153-175 | a range marked used is recorded with its flags |
| VasaRuns.UnmarkKeepsRest | src/kernel/mem/vasa.c:177-183 | cutting a range out of a used node leaves the rest behind it used, with its flags |
| VasaRuns.SplitOrderedExactly | src/kernel/mem/vasa.c:158-187 | a splitting mark keeps order and non-emptiness if and only if bytes are left on both sides |
| VasaRuns.EdgeMarkLeavesEmptyNode | src/kernel/mem/vasa.c:178-187 | a mark up to a node's edge leaves an empty node behind its neighbour |
| VasaRuns.EmptyNodeUnsorts | src/kernel/mem/vasa.c:335-339 | from there one allocation leaves the free list unsorted |
| VasaRuns.RunOrdered | src/kernel/mem/vasa.c:112-394 | over every guarded run with strict marks both lists stay sorted and free of empty nodes |
| Paging.PageTables.Map | src/arch/i386/mem/paging.c:122-169 | the entry, the directory, the free lists and the result, with the mis-ordered present test |
| Paging.PageTables.NeedTable | src/arch/i386/mem/paging.c:134-139 | the part that installs a page table where there is none |
| Paging.TableInstalled | src/arch/i386/mem/paging.c:134-139 | a directory entry without its lowest bit gets the next frame and the bits 3, and its part of the window shows that frame; any other is left alone |
| Paging.PageTables.Show | src/arch/i386/mem/paging.c:134-139 | what the processor makes visible in the table window when a directory entry changes |
| Paging.PageTables.Find | src/arch/i386/mem/paging.c:217-224 | the raw word of the page, without its low twelve bits |
| Paging.MapThenFind | src/arch/i386/mem/paging.c:122-224 | for every frame: mapping succeeds if and only if the directory entry is no large page and bit 23 of the old word is clear, or the word looks mapped by the mis-ordered fields; the lookup then returns the frame if and only if bit 23 was clear; no other page outside a new table changes |
| Paging.FindIsWord | src/arch/i386/mem/paging.c:217-224 | the lookup is the page boundary at or below the word of the page |
| Paging.LooksMappedIsNot | src/arch/i386/mem/paging.c:151-155 | a word that passes for the mapping already made never is one of that frame |
| Paging.RemapRefusedExactly | src/include/arch/i386/paging.h:17-21 | mapping a page twice is refused if and only if bit 23 of the frame mapped there is set |
| Memmap.Take | src/arch/i386/mem/map.c:128 | a frame taken was held by nobody, lies in the pool, and is on no free list afterwards |
| Memmap.GiveBack | src/arch/i386/mem/map.c:141 | a held frame given back keeps single ownership |
| Memmap.PlacePageSound | src/arch/i386/mem/map.c:127-146 | one round keeps every frame to a single use, whether or not the mapping succeeds |
| Memmap.PlacePageSoundExactly | src/arch/i386/mem/map.c:127-146 | it does if and only if both of its frame allocations find a frame |
| Memmap.PlacePageShape | src/arch/i386/mem/map.c:127-146 | a round takes the first frame for the page and the next for a table; it writes the entry if the mapping succeeds, and gives the frame back if not |
| Memmap.PlacePagesSound | src/arch/i386/mem/map.c:127-146 | the whole loop keeps every frame to a single use, also when it stops half way |
| Memmap.RoundsArePlacePages | src/arch/i386/mem/map.c:127-146 | any chain of successful rounds, ended by the count or a failed round, is the recursive loop |
| Memmap.RunSound | src/arch/i386/mem/map.c:64-157 | over every run of calls that find their frames, no frame has two uses and no frame in use is free |
| Memmap.MemoryMap.Memmap | src/arch/i386/mem/map.c:64-157 | with a NULL start, the address and the state of frames, address space and tables after the call |
| Memmap.MemoryMap.Back | src/arch/i386/mem/map.c:124-147 | the urgent branch |
| Memmap.MemoryMap.PlaceAll | src/arch/i386/mem/map.c:127-146 | the mapping loop, state by state |
| Memmap.MemoryMap.PlaceOne | src/arch/i386/mem/map.c:127-146 | one round, both failure paths included |
| MemmapRuns.HeldNotFree | src/arch/i386/mem/map.c:124-147 | a frame that backs a page or serves as a page table overlaps no free chunk |
| MemmapRuns.LookupFindsPlaced | src/arch/i386/mem/paging.c:217-224 | the lookup of a placed page returns the frame placed there |
| MemmapRuns.BootRunSound | src/arch/i386/mem/map.c:40-157 | from boot, over every run: no frame backs two pages, or a page and a table; lookups find the frames placed; no frame in use is free |
| MemmapRuns.WastelessTakesFreePages | src/arch/i386/mem/map.c:75-84 | a call that wastes nothing, padded or not, takes pages that were not handed out before |
| MemmapRuns.CallTidy | src/arch/i386/mem/map.c:64-157 | a call that wastes nothing keeps the address space partitioned into whole pages, every placed page used and at its frame |
| MemmapRuns.CallTidyExactly | src/arch/i386/mem/map.c:64-157 | a call keeps it so if and only if it wastes nothing: no padding, or the first free node that fits is aligned already |
| MemmapRuns.OnePageWasteless | src/kernel/mem/vasa.c:304-315 | in a tidy address space only a two-page boundary can waste anything |
| MemmapRuns.OnePageCallsWasteless | src/arch/i386/mem/map.c:64-157 | so runs of calls that never ask for one waste nothing |
| MemmapRuns.RunKeepsPages | src/arch/i386/mem/map.c:64-157 | over every run of calls that waste nothing a page once placed keeps its frame, and the address space stays tidy |
| MemmapRuns.RunOfTwo | src/arch/i386/mem/map.c:64-157 | a run of two parts is the run of the second from where the first ends, in state and ledger |
| MemmapRuns.BootRunKeepsLookups | src/arch/i386/mem/paging.c:217-224 | from boot, over every run of calls that waste nothing and find their frames, the lookup of a placed page returns the same frame ever after |
| MemmapRuns.CallReserves | src/arch/i386/mem/map.c:66-84 | an address returned, by an urgent call or a lazy one, starts length - length mod 4096 bytes that join the used list in one node with the flags, bit 4 set on urgent calls |
| MemmapRuns.CallRefused | src/arch/i386/mem/map.c:75-82 | for less than a page, or more than every free node has, the call fails and changes nothing |
| MemmapRuns.CallBacksAll | src/arch/i386/mem/map.c:95-149 | an urgent call that returns an address has backed every whole page of the length, in the word of the page and for the lookup, and no other page |
| MemmapRuns.LazyCallBacksNothing | src/arch/i386/mem/map.c:152-156 | a call that is not urgent backs nothing |
| Slub.AllSlotsAscend | src/kernel/mem/slub.c:131-147 | a fresh slab has 8183 / size + 1 slots from the header on, size apart; they ascend, all start within the slab, and masking an object's address gives its slab |
| Slub.TopSlotFitsExactly | src/kernel/mem/slub.c:131-150 | the object of the extra slot fits if and only if the object size divides the space behind the header |
| Slub.Slab.constructor | src/kernel/mem/slub.c:122-153 | the loop threads a zero-terminated list through all object_count + 1 slots |
| Slub.Slab.FreeCount | src/kernel/mem/slub.c:156-168 | following the words counts exactly the free slots |
| Slub.Slab.Alloc | src/kernel/mem/slub.c:235-237 | the first free object is taken, the others stay linked |
| Slub.Slab.Dealloc | src/kernel/mem/slub.c:335-369 | an object below the last free one is linked in at its place in order, and counted; above it, its address is stored in the last one only |
| Slub.Slab.LinkBehind | src/kernel/mem/slub.c:348-355 | the two link writes |
| Slub.InsertKeepsOrder | src/kernel/mem/slub.c:343-363 | inserting keeps the list ascending and adds exactly the object |
| Slub.RunOffEndIntactExactly | src/kernel/mem/slub.c:366-369 | after running off the end the list is intact if and only if the object's first word was 0 |
| Slub.WritesToLiveObjectsKeepList | src/kernel/mem/slub.c:235-245 | what callers write into objects they hold does not disturb the list |
| Slub.StepRefines | src/kernel/mem/slub.c:235-369 | a step keeps the list the ascending sequence of slots not handed out; alloc returns the lowest; a free never runs off the end |
| Slub.RunRefines | src/kernel/mem/slub.c:235-369 | the same over every run |
| Slub.FreshRunRefines | src/kernel/mem/slub.c:122-369 | from a fresh slab, until it is full, the topmost slot stays free, so the run-off-the-end branch is unreachable |
| SlubCache.PackUnpack | src/kernel/mem/slub.c:15-17 | both halves of a packed word survive if and only if the count is below 4096 |
| SlubCache.ObjectCountPacks | src/kernel/mem/slub.c:131-138 | the object count can be packed if and only if the object size is at least 2 |
| SlubCache.CpuCache.constructor | src/kernel/mem/slub.c:97-103 | a first slab on the empty list, or none |
| SlubCache.CpuCache.Begin | src/kernel/mem/slub.c:98-102 | the first slab becomes the empty list |
| SlubCache.CpuCache.CountFree | src/kernel/mem/slub.c:171-191 | both walks through memory: free objects of semi slabs plus object count times empty slabs |
| SlubCache.CpuCache.CountSemi | src/kernel/mem/slub.c:174-180 | the walk over the semi list, counting the list inside each slab |
| SlubCache.CpuCache.NewSlab | src/kernel/mem/slub.c:122-153 | a slab is created with a list of all its slots, the others are kept |
| SlubCache.CpuCache.MakeReady | src/kernel/mem/slub.c:211-231 | a semi slab is found, taken from the empty list, or new, in that order |
| SlubCache.CpuCache.StartEmpty | src/kernel/mem/slub.c:223-230 | the move from the empty to the semi list keeps all three linked lists and the packed count |
| SlubCache.CpuCache.StartNew | src/kernel/mem/slub.c:213-220 | a new slab becomes the semi slab |
| SlubCache.CpuCache.Take | src/kernel/mem/slub.c:233-245 | the first object is taken, and a used-up slab moves to the full list with its count |
| SlubCache.CpuCache.AddSpare | src/kernel/mem/slub.c:257-263 | a new slab is put in front of the empty list with its count, the other lists as they were |
| SlubCache.CpuCache.Replenish | src/kernel/mem/slub.c:252-265 | a spare slab is added exactly when the free count is below the minimum |
| SlubCache.CpuCache.Alloc | src/kernel/mem/slub.c:194-268 | the object and the lists after an allocation, or 0 and no change without any slab |
| SlubCache.CpuCache.Dealloc | src/kernel/mem/slub.c:311-377 | the walk through the list of the slab that the address names puts the object in its place; no slab changes lists, every other slab keeps its list |
| SlubCache.CpuCache.PutBack | src/kernel/mem/slub.c:335-369 | that walk, in one of many slabs in memory |
| SlubCache.AllocShelved | src/kernel/mem/slub.c:211-265 | each slab stays on exactly one list, semi holds at most one, full ones have no free object, empty ones all |
| SlubCache.PopSound | src/kernel/mem/slub.c:233-245 | the object handed out was not live |
| SlubCache.FreeSound | src/kernel/mem/slub.c:327-369 | freeing a live object keeps all that; its slab is the semi one, and it lies below the last free object there, so the walk never runs off the end |
| SlubCache.StepSound | src/kernel/mem/slub.c:194-377 | every step keeps lists and objects in order, hands out no live object and never runs off the end of a list |
| SlubCache.RunSound | src/kernel/mem/slub.c:194-377 | over every run: each slab on one list, each free list the ascending slots not handed out, ending with the topmost unless empty |
| SlubCache.NewCacheRunSound | src/kernel/mem/slub.c:59-377 | the same from a new cache, with every object given back below the last free one |
| SlubCache.FirstSlabSound | src/kernel/mem/slub.c:89-103 | a new cache is in order |
| SlubCache.FreeCountMeans | src/kernel/mem/slub.c:171-191 | the free count is the number of slots of the semi and empty slabs that are not live, less one for each empty slab |
| SlubCache.RefillExactly | src/kernel/mem/slub.c:252-265 | a spare slab is put in front of the empty list if and only if fewer than min objects are free by that count, and nothing else changes |
| SlubCache.AllocTakesLowest | src/kernel/mem/slub.c:211-237 | an allocation takes the lowest slot not live, of the semi slab, else of the first empty one, else of a new one |
| SlubCache.AllocMovesSlabs | src/kernel/mem/slub.c:211-265 | the slab stays semi or joins the full ones when all its slots are live; the empty list keeps its other slabs and gains a spare one only below min |
| SlubBytes.LiveApart | src/kernel/mem/slub.c:131-150 | where the slots take no more bytes than a slab, live objects share no byte |
| SlubBytes.LiveApartExactly | src/kernel/mem/slub.c:131-268 | over all runs of new caches, wherever their slabs lie, live objects share no byte if and only if (count + 1) * size is at most the slab size |
| SlubBytes.DrainRuns | src/kernel/mem/slub.c:194-268 | the run that hands out every slot of one slab and the first of the next |
| SlubBytes.HeaderOverrunWithoutOverlap | src/kernel/mem/slub.c:131-150 | for 5-byte objects the topmost one reaches into the header behind its slab, but into no object |
| SlubBytes.EndWordInsideExactly | src/kernel/mem/slub.c:149-150 | the word that ends a fresh list is stored inside the slab if and only if (slab size - header - 1) mod size is 3 or more |
| SlubBytes.EndWordOutside | src/kernel/mem/slub.c:149-150 | for 49-byte objects it is not |
| Kmalloc.BlockForSize | src/kernel/mem/slub.c:419-435 | the first class above the size, or none |
| Kmalloc.GetBlock | src/kernel/mem/slub.c:387-416 | the last class not above the average object |
| Kmalloc.ClassIsLeast | src/kernel/mem/slub.c:419-435 | a request gets the smallest class above its size |
| Kmalloc.GuessIsGreatest | src/kernel/mem/slub.c:394-415 | the class guessed is the greatest one not above the average object, 16 below that, none from 4096 on |
| Kmalloc.EstimateBounds | src/kernel/mem/slub.c:131-398 | for every object size s with c objects, the estimate lies between s and s + s / c |
| Kmalloc.RecoveredExactly | src/kernel/mem/slub.c:387-416 | in any increasing table a class is recovered if and only if there is a next class above the estimate |
| Kmalloc.RecoveredWhenSpaced | src/kernel/mem/slub.c:387-416 | hence whenever the next class exceeds s + s / c |
| Kmalloc.TableSpaced | src/kernel/mem/slub.c:41-56 | the kernel's table leaves that room after every class but the last |
| Kmalloc.TableRecovered | src/kernel/mem/slub.c:41-416 | every class but the last is recovered, the last gives none |
| Kmalloc.LastClassLost | src/kernel/mem/slub.c:55-415 | the 4096 class holds one object a slab and is not recovered |
| Kmalloc.MallocFreeAgreeExactly | src/kernel/mem/slub.c:387-450 | kmalloc and kfree agree on the class if and only if the request is below 2048 bytes |
| Kmalloc.NoLargeClass | src/kernel/mem/slub.c:419-450 | there is no class if and only if the request has 4096 bytes or more |
| FileTree.Strcmp | src/std/string.c:46-53 | zero if and only if both terminated strings are equal |
| FileTree.Resolve | src/kernel/fs/file.c:104-163 | result, prev_file and last_file of the nested loops are those of the walk, on every tree and path |
| FileTree.CopyName | src/kernel/fs/file.c:110-120 | the first component is copied and terminated |
| FileTree.Store | src/kernel/fs/file.c:150-160 | the rest of the path is copied without a terminator |
| FileTree.WalkIsLookup | src/kernel/fs/file.c:104-148 | the walk is lookup by components, one trailing slash adding none, and prev_file is the last matched ancestor |
| FileTree.ComponentsJoin | src/kernel/fs/file.c:110-120 | the components of a path hold no slash and, joined by slashes, are the path, but for one slash at its end |
| FileTree.FindIsFirst | src/kernel/fs/file.c:122-132 | the sibling found is the first of its name, and none is found only if there is none |
| FileTree.AddChild | src/kernel/fs/file.c:39-47 | the pointer writes make exactly the tree with a new first child, still a tree |
| FileTree.RelinkInserts | src/kernel/fs/file.c:39-47 | the two writes, on any heap, represent the inserted tree |
| FileTree.InsertFiles | src/kernel/fs/file.c:39-47 | adding a child adds that one file and keeps all distinct |
| FileTree.CountFriends | src/kernel/fs/file.c:49-58 | the number of files in a sibling chain |
| FileTree.SiblingsAreFiles | src/kernel/fs/file.c:49-58 | the count of a chain is the number of its files, 0 exactly for the empty one |
| Vfs.FileSystem.constructor | src/kernel/fs/vfs.c:212-222 | a root file with an empty name |
| Vfs.FileSystem.Open | src/kernel/fs/vfs.c:11-61 | when a file is created, under which parent and with which name; else what is returned and that nothing changes |
| Vfs.FileSystem.Count | src/kernel/fs/vfs.c:174-189 | the number of files in the directory that component-wise lookup reaches, 0 exactly if there is no such file or it has no children |
| Vfs.FlagBits | src/kernel/fs/vfs.c:22-57 | bit 0, 1 or 3 of the flags opens a file, bit 1 creates it |
| Vfs.WalkLeavesName | src/kernel/fs/file.c:104-163 | the buffer stays terminated, so the name in it is never too long |
| VfsCreate.InsertLookup | src/kernel/fs/vfs.c:28-48 | a file added under a parent is found by its path, and every other path finds what it did |
| VfsCreate.InsertCounts | src/kernel/fs/vfs.c:187-189 | the parent lists exactly one child more |
| VfsCreate.InsertUnique | src/kernel/fs/vfs.c:28-48 | sibling names stay distinct in the whole tree |
| VfsCreate.InsertUniqueExactly | src/kernel/fs/vfs.c:28-48 | they do if and only if the parent had no child of that name |
| VfsCreate.InsertFound | src/kernel/fs/vfs.c:28-48 | an added file is found by the path of its parent and its name, even beside an older one of that name |
| VfsCreate.AddedIsEmpty | src/kernel/fs/vfs.c:42-47 | a file just created has no children, so that it lists none |
| VfsCreate.InsertedChildren | src/kernel/fs/file.c:39-47 | the children of the parent are the new file, in front, and those that were there |
| VfsCreate.FoundBelow | src/kernel/fs/vfs.c:28-48 | a path that finds an added file ends with its name, and leads over a path that was there |
| VfsCreate.AncestorPath | src/kernel/fs/file.c:134-139 | prev_file is reached by the longest proper part of the path that reaches anything, or is the file the walk started from |
| VfsCreate.ReachLast | src/kernel/fs/file.c:108-142 | what a path leads to is the first child of its last name under what the rest leads to |
| VfsCreate.WalkToMissing | src/kernel/fs/file.c:104-163 | the walk to a missing file stops at its parent, and what it leaves in the buffer |
| VfsCreate.MissingName | src/kernel/fs/vfs.c:28-48 | the name created is the right one if the parent has children; else exactly if it reaches a NUL among the ancestors' names |
| VfsCreate.CreateThenFind | src/kernel/fs/vfs.c:11-61 | create, then find: the path finds the new file if and only if it got the right name; all other paths, the count and uniqueness |
| VfsCreate.CreateInPopulatedDirectory | src/kernel/fs/vfs.c:11-61 | with at least one child in the parent, O_WRT on a missing file always creates it and makes its path resolve |
| VfsCreate.OneComponentCreatedBelowRoot | src/kernel/fs/vfs.c:11-61 | a path of one component is looked for beside the root and created below it: it still finds nothing, and names stay distinct if and only if the root had no such child |
| VfsCreate.CreateFindsExactly | src/kernel/fs/vfs.c:11-61 | for every path that creates a file: it resolves to that file if and only if its parent was there, reached by a path of its own, and the name came out right |
| VfsCreate.CreateKeepsOthersExactly | src/kernel/fs/vfs.c:11-61 | for every path that creates a file: the paths that found a file still find the same one, and sibling names stay distinct, if and only if the directory it went to had no file of that name; that directory lists one more |
| VfsCreate.EmptyPathCreates | src/kernel/fs/vfs.c:11-48 | an empty path creates a file without a name below the root |
| VfsCreate.StrayFileShadows | src/kernel/fs/vfs.c:28-48 | with "/y" but no "/x", opening "/x/y" creates a second "y" below the root that shadows the first, and "/x/y" still finds nothing |
| VfsCreate.FirstFileMisnamed | src/kernel/fs/file.c:150-160 | in every tree with an empty directory "/asdf", opening "/asdf/a" to write creates a file "asdf" |
| Memory.ForwardCopyMoves | src/std/string.c:59-68 | a copy from the front is a move when it goes down or the ranges do not meet |
| Memory.ForwardCopyMovesExactly | src/std/string.c:59-68 | it is one for all contents if and only if that holds |
| Memory.Memcpy | src/std/string.c:59-68 | the byte loop is the forward copy |
| Memory.StoreWord | src/std/string.c:80-88 | a word store changes one word |
| Memory.Memsetw | src/std/string.c:80-88 | the words of the range are set, all others kept |
| Screen.Terminal.constructor | src/drivers/vga.c:21-33 | the screen starts blank |
| Screen.EntryBytes | src/drivers/vga.c:12-14 | of the two bytes of a cell the first is the character, the second its colour |
| Screen.Terminal.SetColor | src/drivers/vga.c:35-37 | only the colour of later characters changes |
| Screen.Terminal.SetChar | src/drivers/vga.c:39-41 | one cell changes |
| Screen.Terminal.Scroll | src/drivers/vga.c:43-56 | the rows move up by one and the last is blank, exactly when the row is past the screen |
| Screen.Terminal.PutChar | src/drivers/vga.c:58-71 | the buffer shows the last 25 rows of the unbounded layout; row below 25, column below 80 |
| Screen.Terminal.Write | src/drivers/vga.c:73-79 | the same for every character stream |
| Screen.CharShows | src/drivers/vga.c:58-61 | a stored character appears at its place in the window |
| Screen.Scrolled | src/drivers/vga.c:43-70 | scrolling moves the window along with the cursor |
| ScreenLayout.PutOnLine | src/drivers/vga.c:58-71 | a character lengthens the last line of the text |
| ScreenLayout.PutNewline | src/drivers/vga.c:65-68 | a newline opens the next line, after a full row too |
| ScreenLayout.StreamLaidOut | src/drivers/vga.c:58-79 | for every stream, each character stands where cutting the text into lines of 80 columns puts it, and all other cells are blank |
| ScreenLayout.CutIsText | src/drivers/vga.c:65-68 | the lines, joined by newlines, are the stream, and hold none |
| ScreenLayout.RowOfHeights | src/drivers/vga.c:65-68 | a line of n characters takes n / 80 + 1 rows |
| ScreenLayout.BufferHoldsText | src/drivers/vga.c:43-79 | for every stream, each character of the last 25 rows is in the first byte of its cell, 80 cells a row, light grey on black, and the rest is spaces |
| Clock.EventClock.Add | src/kernel/time/clock.c:46-95 | the event is put in front, its counter the time as a signed word |
| Clock.EventClock.Advance | src/kernel/time/clock.c:9-44 | the list and the callbacks, in order, after an advance |
| Clock.RunConcat | src/kernel/time/clock.c:9-44 | events do not disturb each other, and their order is kept, over every trace |
| Clock.CountdownLaw | src/kernel/time/clock.c:9-83 | a countdown fires exactly at the advances where the amount since its last reset reaches its time |
| Clock.CountdownLawExactly | src/kernel/time/clock.c:9-83 | where the clock is advanced by at least a given amount, that law holds on all traces if and only if the time is below 2^31 plus that amount |
| Clock.DueWhenReached | src/kernel/time/clock.c:11-13 | an advance makes an event due if and only if it takes all that is left, while what is left after it fits the signed counter |
| Clock.AdvanceSeenExactly | src/kernel/time/clock.c:11-13 | with c to go, an advance is seen for what it is if and only if it is at most c + 2^31 |
| Clock.LongEventFiresEarly | src/kernel/time/clock.c:11-67 | an event of a longer time, of either kind, calls back at the first such advance, before its time |
| Clock.MadeCounts | src/kernel/time/clock.c:9-44 | over every trace a countdown calls back as often as the amounts reach its time |
| Clock.SteadyCallbacksExactly | src/kernel/time/clock.c:9-83 | with a constant amount a, the callbacks made in n advances are n / ceil(T / a) for every n, if and only if T is below 2^31 + a |
| Clock.OnceOffLaw | src/kernel/time/clock.c:22-95 | a once-off fires at the advance that brings the total to its time, is unlinked, and never fires again |
| Clock.OnceOffMade | src/kernel/time/clock.c:9-44 | over every trace it calls back once if the total reaches its time, else not |
| Clock.OnceOffExactly | src/kernel/time/clock.c:9-95 | that holds on all traces if and only if the time is below 2^31 plus the least amount |
| Clock.OnceOffLeavesOthers | src/kernel/time/clock.c:22-38 | in any list it leaves all other events and their order as they would be without it |
| Scheduler.RoundRobin.constructor | src/kernel/tasks/scheduler.c:46-49 | the first task is a cycle of one |
| Scheduler.RoundRobin.Add | src/kernel/tasks/scheduler.c:40-43 | the task comes right behind the current one, and the tasks still form one cycle |
| Scheduler.RoundRobin.Advance | src/kernel/tasks/scheduler.c:12-37 | the cycle turns by one; a switch saves the registers into the task that was on the processor and into no other |
| Scheduler.TurnedRing | src/kernel/tasks/scheduler.c:18-19 | turned by one, the pointers still form the same cycle |
| Scheduler.TurnComes | src/kernel/tasks/scheduler.c:12-43 | a task at distance d runs after exactly d advances plus one for each task added meanwhile |
| Scheduler.RunKeepsTasks | src/kernel/tasks/scheduler.c:12-43 | no task ever leaves the ring |
| Madt.Acpi.constructor | src/arch/i386/interrupts/acpi.c:23-40 | no interrupt is overridden at first, and anything may lie behind the array |
| Madt.Acpi.ParseMadt | src/arch/i386/interrupts/acpi.c:87-236 | on every byte string the cursor loop ends with the counts, overrides, visits and memory of the walk |
| Madt.Acpi.Read | src/arch/i386/interrupts/acpi.c:101-220 | what is done for one record |
| Madt.RemapsToLastExactly | src/arch/i386/interrupts/acpi.c:330-336 | after a table is parsed, an interrupt below 16 is remapped to the last override given for it, or to itself, if and only if that is not an override to 0xFFFFFFFF |
| Madt.SourcesAreLast | src/arch/i386/interrupts/acpi.c:142 | overriding from the front leaves the last override of each source |
| Madt.WalkRecords | src/arch/i386/interrupts/acpi.c:97-235 | on the concatenation of well-formed records, type 7 ones before the last of 20 bytes, the walk visits exactly those, in order |
| Madt.TableParsed | src/arch/i386/interrupts/acpi.c:87-236 | cpu_count is the number of type 0 records, the records are visited in order, and each source has the last override given |
| Madt.OverrideReadsNumber | src/arch/i386/interrupts/acpi.c:142 | an override encoded as four little-endian bytes redirects its source to that number |
| Madt.StoredAddress | src/arch/i386/interrupts/acpi.c:215 | the address of offset 16 of a type 7 record is stored there in the same order, and nothing else changes |
| Madt.WalkStops | src/arch/i386/interrupts/acpi.c:104-228 | types 8 to 10 and records of length 0 end the walk where they are |
| Madt.WalkSkipsJunk | src/arch/i386/interrupts/acpi.c:230-233 | bytes above 10 are skipped one by one |
| Madt.TableVisitedExactly | src/arch/i386/interrupts/acpi.c:97-235 | wherever a well-formed table lies in the kernel's address space, the walk visits exactly its records, if and only if every type 7 record before the last has 20 bytes |
| Madt.ShortRecordMisleads | src/arch/i386/interrupts/acpi.c:205-220 | a shorter one hides the type of the record behind it where no upper byte of the stored address is a type |
| Madt.OverridesStayInsideExactly | src/arch/i386/interrupts/acpi.c:142 | what lies behind the override array is left alone if and only if all sources of the table are below 16 |
| Madt.StoreStaysInsideExactly | src/arch/i386/interrupts/acpi.c:215 | the address stored for a type 7 record stays inside it if and only if the record has 20 bytes |
| Madt.ShortRecordLosesProcessor | src/arch/i386/interrupts/acpi.c:205-220 | after a 17-byte type 7 record a processor is not counted |

## Left out

Where a contract is weaker than the code:

- Frame.FrameAllocator.Alloc: does not cover a request for 0 frames, which reads before the array since the guard of line 103 never holds, nor for 2^31 and more, where the loop variable turns negative.
- Frame.FrameAllocator.AddFreeItem: chunks end at or below 2^32, so addresses do not wrap.
- Frame.FrameAllocator.Dealloc: the same; and a count of 0, for which the source uses the list before the first.
- Frame.FrameAllocator.AddChunk: the same for regions.
- Vasa.AddressSpace.Mark: does not cover an exact match at the head of a list, after which both lists are tangled; what it then does is `Vasa.ExactFirstBreaksPartition` and `Vasa.ExactFirstUsedLosesFree`.
- Vasa.AddressSpace.Alloc: does not cover sizes for which size + pad wraps around 2^32.
- Vasa.AddNodeCover: the tail behind a stale link is given its value once; that both lists then share cells and change together is not modelled. The guards of `VasaRuns` exclude it.
- VasaRuns.RunOrdered: a mark at the edge of a node is excluded, with `SplitOrderedExactly` giving the exact condition.
- Paging.PageTables.Map: does not cover addresses inside the table window itself.
- Memmap.MemoryMap.Memmap: covers a NULL start only, not the continuous branch, and no length within 8 KiB of 4 GiB.
- Memmap.RunSound: runs that exhaust the frame pool are excluded; `PlacePageSoundExactly` shows why.
- MemmapRuns.RunKeepsPages: calls that waste address space are excluded; `MemmapRuns.CallTidyExactly` gives the exact condition.
- Slub.Slab.Dealloc: does not cover a slab with an empty free list, where the source writes through a null pointer.
- Slub.Slab.constructor: objects have at least the 4 bytes of a link.
- SlubCache.CpuCache.Dealloc: does not cover an object of a slab without free objects, where the source writes through a null pointer.
- SlubCache.CpuCache.Alloc: whether `memmap` finds the slabs it is given as parameters is not decided here.
- Vfs.FileSystem.Open: the file is returned in place of a reference to it; reference tables are not modelled. Paths of 128 characters and more, for which the source writes beyond its buffer, are not covered.
- Vfs.FileSystem.Count: the branch that fills an array of references is not modelled, nor are paths of 128 characters and more.
- VfsCreate.CreateThenFind: the parent is there and has a path of its own; all paths are treated in `VfsCreate.CreateFindsExactly` and `VfsCreate.CreateKeepsOthersExactly`.
- VfsCreate.MissingName: the same.
- Clock.CountdownLaw: amounts are at most 2^31 per advance; `Clock.AdvanceSeenExactly` says when a larger one is missed.
- Clock.EventClock.Advance: callbacks are recorded, not run; one that adds events meanwhile is not modelled.
- Scheduler.RoundRobin.Advance: a context is one value, and the switch itself is atomic.
- Madt.Acpi.ParseMadt: what overrides write behind the array is taken not to be used by the walk itself. I/O APIC setup is not modelled.
- Madt.RemapsToLastExactly: interrupts below 16 only, the size of the array.
- Madt.TableVisitedExactly: memory of at most 992 MB around the table, in the 1020 MB of the kernel below the page tables.

Parts of the repository that are not modelled:

- Hardware access, inline assembly and boot code: ports, APIC, PIC, PIT, PS/2, serial, network card, PCI, GDT and TSS; their meaning lies in the devices.
- src/kernel/net/net_buf.c: its split and wrap branches do not implement the queue its comments describe.
- src/kernel/mem/large.c with its compare-and-swap assembly: callers disagree on what it returns.
- src/std/list.c and src/kernel/fs/ref.c: growth and removal count bytes where they mean elements.
- src/kernel/fs/mount.c: node setup writes into the root node.
- `memunmap`, `paging_unmap` and page directory copies: they depend on the mis-ordered entry fields and the exact match of `vasa_mark`.
- src/kernel/mem/slab.c: compiled out in favour of slub.c.
- Caches found by name, constructors of objects, and the allocators' use of their own caches for list cells.
- `vfs_read`, `vfs_write`, file statistics: writing is a stub, so contents are always empty.
- Number printing, `ipow`, the early bump allocator, ELF and DWARF headers: easy or unfinished.
- Locks, log output, and failures to allocate a list cell.

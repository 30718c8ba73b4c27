# AurorOS kernel core: a Dafny model with proofs

AurorOS is a small freestanding C kernel. This project models the parts of it that
are data structures, text formats and state machines, and proves what they promise:

- **Kernel heap** (`KernelHeap`): the first-fit allocator whose doubly linked block
  list lives inside the pool it hands out. The C-like level is a memory in which
  header records and payload bytes share addresses and any overlapping write destroys
  what it overlaps; the abstract level is the sequence of blocks. The class `Heap`
  performs the header writes of the C code and is proved to follow the abstract level.
- **Physical pages** (`PhysicalPages`, `BootMemoryMap`): the packed bitmap, the
  skip-ahead search for aligned runs, whole runs of requests, and the bitmap's
  construction from the Multiboot memory map.
- **File tree** (`FileTree`, `Paths`): nodes with parent pointers and child arrays,
  recursive deletion, the character-loop path resolver, the path printer, tinypad's
  own resolver, and the `mkdir` and `rm` commands.
- **Arithmetic and text** (`Bits`, `RawMemory`, `Numbers`, `Text`, `TextReplace`,
  `Hexdump`, `UserFile`): shift-subtract division, number text, in-place tokenising,
  replacement, the hexdump printer and parser, and the `/etc/users` parser.
- **Two state machines** (`Console`, `Syscalls`): the VGA console as a window on an
  unbounded terminal, and the system calls over the descriptor list.

Each imperative routine is a method with loops proved against a specification
function; what the kernel relies on is then proved of that function for all inputs or
all runs. Machine words are natural numbers with the width written out (`% WORD`,
`Add64`, `And`, `Or`, `Not`); the word operators are defined bit by bit in `Bits`.

## Where the code and its promise part

These follow the code as it is. Each has a lemma saying exactly when it behaves, and
a second one showing an input on which it does not.

- `phys_alloc_contiguous` may grant page 0, whose address is also its failure value:
  the pages are then taken though the caller is told nothing was
  (`PhysicalPages.ZeroMeansUnchangedIff`; one free page, `PageZeroLost`).
- A bitmap that boot places at address 0 reads as "no bitmap": every request is
  refused from then on (`BootMemoryMap.PlacedAtZeroIff`). An ordinary 128 MiB map
  ends there (`OrdinaryMapRefused`).
- A bitmap placed by the fallback need not start on a page boundary; its first page
  may be handed out (`BootMemoryMap.BitmapPageFreeIff`, `FallbackExposed`).
- A map entry of any kind that ends in the last page of the address space makes the
  machine look as if it had no memory (`BootMemoryMap.NoMemoryIff`,
  `NoMemoryLeft`).
- An available entry whose end wraps can free pages it does not hold or leave out
  pages it does. It is harmless if it starts in the last page of the address space and
  wraps by less than a page, or starts behind all memory (`BootMemoryMap.EntryExactIff`;
  page by page `FreeIffInside`; `PageGained`, `PageMissed`).
- `malloc_aligned` adds up its request at 64 bits; once that wraps, or for alignment 0,
  what it promises does not fit the block (`KernelHeap.AlignedFitsIff`,
  `WrappedRequest`). Only powers of two are aligned to (`RawMemory.AlignsIff`).
- `mkdir /x` puts the directory into the current one (`Paths.LeadingSlashOnly`), and
  in general names stay unique only if the name is new where it lands
  (`Paths.MkdirNamesIff`; two x in one directory, `SecondX`). Where the last slash lies
  past 255 characters the parent is found by a truncated path (`LongPathIff`,
  `LongPathStrays`).
- `fs_read` with a maximum of 0 would copy about four gigabytes from a non-empty file
  (`Syscalls.ReadSafeIff`, `ReadOfNothing`).
- `parse_users` stores characters of a ninth group outside the record
  (`UserFile.OverfullIff`, `NinthGroup`).
- A line of the user file that ends inside its name leaves the name unterminated in
  memory that need not be clear (`UserFile.UnterminatedIff`, `LeftoverName`).
- READ asks for the write bit, and the group digit never counts
  (`Syscalls.OctalPermissions`; with 0444 even the owner cannot read,
  `UsualPermissions`).
- `is_valid_int` accepts -2^63, which `str_to_int64` cannot read without overflow
  (`Numbers.ReadsInt`, `LeastOverflows`).
- Characters from 128 on lose their colour (`Console.CellParts`, `GreyLost`).
- `memcpy` differs from `memmove` on most overlaps (`RawMemory.MemcpyExactIff`,
  `OverlapByOne`).

## Model

| member | source | states |
|---|---|---|
| KernelHeap.RunSafe | src/drivers/misc/memory.c:23-72 | After any sequence of malloc and legal free calls the list is address-ordered, inside the pool, without two free neighbours, and its live blocks are exactly what the callers were given and have not returned |
| KernelHeap.RunConserves | src/drivers/misc/memory.c:31-72 | Over any run, pool size = headers + sizes + slack, where slack is the sum of what unsplit mallocs left over, at most one header for each malloc |
| KernelHeap.EverythingFreed | src/drivers/misc/memory.c:57-72 | Once every allocation of a run has been freed, the list is one free block of pool size minus header minus accumulated slack |
| KernelHeap.LivePayloadsDisjoint | src/drivers/misc/memory.c:31-55 | Live payloads lie in the pool and any two are at least a header apart |
| KernelHeap.MallocEffect | src/drivers/misc/memory.c:31-55 | malloc adds exactly one new live range of the requested size, at an address not live before, and fails only for size 0 or when every free block has fewer bytes than asked for |
| KernelHeap.MallocTakes | src/drivers/misc/memory.c:34-49 | The block taken is the first that is free and has the bytes asked for, one of exactly that size included; the answer is the address behind its header; it is cut, the rest staying free, exactly if more than a header is left, and no other block changes |
| KernelHeap.WholePool | src/drivers/misc/memory.c:23-49 | On a fresh heap any size up to the pool less one header is granted, at its very start, and no larger one |
| KernelHeap.FreedIsReusable | src/drivers/misc/memory.c:31-72 | The size of a block just freed can be had again at once, at the freed address or below it |
| KernelHeap.FreeNothing | src/drivers/misc/memory.c:57-61 | Freeing NULL, or a listed block that is free already, leaves the list as it is |
| KernelHeap.FreeEffect | src/drivers/misc/memory.c:57-72 | A legal free removes exactly the freed range from the live set and creates no slack |
| KernelHeap.CarveKeeps | src/drivers/misc/memory.c:36-50 | Splitting or taking a whole block keeps order, bounds and the absence of free neighbours |
| KernelHeap.ReleaseKeeps | src/drivers/misc/memory.c:61-71 | Freeing with coalescing on both sides keeps order and bounds and never leaves two free neighbours |
| KernelHeap.SlackIsGaps | src/drivers/misc/memory.c:47 | The slack is the total length of the gaps between block ends and following headers, and never negative |
| KernelHeap.CallSlack | src/drivers/misc/memory.c:37-47 | One call adds to the slack only if it is an unsplit malloc, and at most one header |
| KernelHeap.FirstFit | src/drivers/misc/memory.c:34-36 | The index chosen fits and none before it does; MallocTakes says what fitting is |
| KernelHeap.HeaderWriteSpares | src/drivers/misc/memory.c:38-48 | A header written at any block of an ordered list touches no byte of any live payload |
| KernelHeap.StoreKeeps | src/drivers/misc/memory.c:6-16 | A client's store inside its own payload leaves every header of the list readable and unchanged |
| KernelHeap.SplitSound | src/drivers/misc/memory.c:37-48 | The four header writes of a split turn records describing the old list into records describing the new one, next and prev links included |
| KernelHeap.AbsorbSound | src/drivers/misc/memory.c:62-71 | The writes of one coalescing step yield records of the list with the two blocks joined, back link of the successor included |
| KernelHeap.MallocSound | src/drivers/misc/memory.c:36-49 | The memory writes of malloc implement the abstract step and spare every payload that was live before |
| KernelHeap.ReleaseSound | src/drivers/misc/memory.c:61-71 | The memory writes of free implement the abstract step and spare every payload that stays live |
| KernelHeap.Heap.InitMemoryHeap | src/drivers/misc/memory.c:23-29 | The pool becomes one free block of pool size minus a header, by one header write; it is the start of the runs of BytesKept |
| KernelHeap.BytesKept | src/drivers/misc/memory.c:23-72 | From any memory, after any sequence of malloc, legal free and client stores inside live payloads: the headers describe a well-formed list, and every byte a client stored and has not freed lies in a live payload and holds what was last stored there |
| KernelHeap.StoresMoveNothing | src/drivers/misc/memory.c:31-72 | The list of such a run is the one of its calls alone, so RunSafe, RunConserves and EverythingFreed hold of it |
| KernelHeap.Heap.Malloc | src/drivers/misc/memory.c:31-55 | Memory, list and result are those of one first-fit step of a run; NULL before initialisation; panics exactly if a non-zero request is larger than every free block; bytes of live payloads survive |
| KernelHeap.Heap.Free | src/drivers/misc/memory.c:57-72 | Memory and list are those of one step of a run, the block released and coalesced; NULL, an uninitialised heap and a block already free change nothing; bytes of payloads that stay live survive |
| KernelHeap.Heap.Store | src/drivers/misc/memory.c:49 | Writing to a returned payload changes that byte and no header |
| KernelHeap.Heap.MallocAligned | src/drivers/misc/memory.c:74-82 | For every size and alignment: the list and block of malloc for the 64-bit sum, and the masked address. If the alignment is not 0 and the sum does not wrap, that address is inside the block with the bytes asked for behind it and the original pointer saved, byte for byte, in front, and a multiple of the alignment if that is a power of two; otherwise a flag says whether the pointer was saved outside the block. Payloads live before keep their bytes |
| KernelHeap.ResultIsLive | src/drivers/misc/memory.c:31-49 | The block returned is live with the size asked for, and none of its bytes was in a payload live before |
| KernelHeap.AlignedFitsIff | src/drivers/misc/memory.c:75-79 | The saved pointer and the bytes asked for both fit in the block around the masked address if and only if the alignment is not 0 and the sum of size, alignment and pointer does not wrap |
| KernelHeap.WrappedRequest | src/drivers/misc/memory.c:75-78 | An input on which the sum wraps and they do not fit |
| PhysicalPages.WithBitEffect | src/drivers/misc/memory.c:128-136 | Setting or clearing a bit changes the mark of that page and of no other |
| PhysicalPages.UsedIs | src/drivers/misc/memory.c:128-136 | The mark of page i is bit i mod 8, counted from the low end, of byte i / 8 |
| PhysicalPages.SameMarks | src/drivers/misc/memory.c:128-136 | Bitmaps with the same page marks are equal byte for byte |
| PhysicalPages.MarkPagesEffect | src/drivers/misc/memory.c:138-145 | Marking a range changes exactly the pages of the range below the total |
| PhysicalPages.LeastRun | src/drivers/misc/memory.c:268-278 | The run found is aligned, free and in range and no smaller index qualifies; none is reported only if no index qualifies |
| PhysicalPages.SkipIsSafe | src/drivers/misc/memory.c:277 | No start inside a run that broke off can qualify, so skipping it loses nothing |
| PhysicalPages.MaskOfPow2 | src/drivers/misc/memory.c:269 | The mask test with a power of two is divisibility |
| PhysicalPages.CountWraps | src/drivers/misc/memory.c:264 | The 64-bit page count is the true one, or wraps to 0 for a size no machine has pages for |
| PhysicalPages.NeededIs | src/drivers/misc/memory.c:264 | The true count is the least number of pages that holds the bytes |
| PhysicalPages.PageAllocator.PageIsFree | src/drivers/misc/memory.c:146-149 | A page is free exactly when it is below the total and its bit is clear |
| PhysicalPages.PageAllocator.MarkPageUsed | src/drivers/misc/memory.c:138-141 | Sets the page's bit, and nothing for a page out of range |
| PhysicalPages.PageAllocator.CountFree | src/drivers/misc/memory.c:271-272 | Counts the free pages from an index, at most as many as wanted |
| PhysicalPages.PageAllocator.FindRun | src/drivers/misc/memory.c:268-278 | The skipping search returns the least qualifying index, or nothing when there is none |
| PhysicalPages.PageAllocator.PhysAllocContiguous | src/drivers/misc/memory.c:259-280 | For every bitmap, size and alignment: the address of the least aligned run that is free, exactly that run marked; 0 and no change if there is none, if the alignment is no power of two or the size is 0 |
| PhysicalPages.AnswerInBytes | src/drivers/misc/memory.c:259-280 | The same in bytes: the answer is the least page-aligned multiple of the alignment with all bytes asked for in free pages of memory, and exactly the pages with a byte of that range are marked besides; 0 and no change exactly without a bitmap, for size 0, for an alignment that is no power of two, or if no address suits |
| PhysicalPages.PageAllocator.PhysFreeContiguous | src/drivers/misc/memory.c:282-290 | Clears exactly the pages of the range below the total; nothing for address or size 0 |
| PhysicalPages.FreeInBytes | src/drivers/misc/memory.c:282-290 | The same in bytes: the pages of memory with a byte of the range are cleared, the range taken from the start of its first page; nothing for address or size 0, or a size whose rounding up wraps |
| PhysicalPages.AlignedAddress | src/drivers/misc/memory.c:265-275 | Alignment in pages gives alignment in bytes, also for alignments below a page |
| PhysicalPages.AllocKeeps | src/drivers/misc/memory.c:259-280 | A grant that is not at page 0 is page-aligned, aligned as asked, inside memory, disjoint from all others, and taken from pages free at the start; a refusal changes nothing |
| PhysicalPages.FreeKeeps | src/drivers/misc/memory.c:282-290 | Returning a grant gives back its pages and no other's |
| PhysicalPages.RunKeeps | src/drivers/misc/memory.c:259-290 | Over any run from any bitmap: used pages = initially used pages plus outstanding ranges, which are pairwise disjoint and well aligned, plus the first n pages, which were free and went to the one allocation that found its run at page 0 and was told it failed; n is 0 if page 0 was in use |
| PhysicalPages.HeldInBytes | src/drivers/misc/memory.c:259-290 | After any run from any bitmap each range held is aligned as asked, shares no byte with any other, and has every byte below the end of memory in a page that was free at the start and is in use now |
| PhysicalPages.MarksInBytes | src/drivers/misc/memory.c:259-290 | And the pages in use are exactly those used at the start, those with a byte that is held, and the pages, just enough for one request, lost at page 0 |
| PhysicalPages.LostAtZero | src/drivers/misc/memory.c:259-280 | From that allocation on everything is as if its pages had been in use at the start |
| PhysicalPages.AllReturned | src/drivers/misc/memory.c:259-290 | Any run that hands back all it was granted, in any order, ends with the initial bitmap bit for bit but for those n pages |
| PhysicalPages.FreeUndoesAlloc | src/drivers/misc/memory.c:259-290 | A free right after its alloc restores the bitmap, for every bitmap |
| PhysicalPages.ZeroMeansUnchangedIff | src/drivers/misc/memory.c:260-279 | The answer 0 leaves the bitmap unchanged if and only if a good request does not find its run at page 0 |
| PhysicalPages.PageZeroLost | src/drivers/misc/memory.c:260-279 | With one free page, one byte asked for answers 0 and takes the page |
| BootMemoryMap.RoundDownIs | src/drivers/misc/memory.c:154-156 | Masking is rounding down to a multiple of the page size |
| BootMemoryMap.RoundUpIs | src/drivers/misc/memory.c:151-153 | Rounds up to the next multiple, except in the last page of the address space where it wraps to 0 |
| BootMemoryMap.HighestEnd | src/drivers/misc/memory.c:176-183 | The loop's maximum is at least the 64-bit end of every entry, and is the value Highest gives |
| BootMemoryMap.Highest | src/drivers/misc/memory.c:176-183 | No entry ends above it, and it is 0 or the end of some entry |
| BootMemoryMap.FindRoom | src/drivers/misc/memory.c:193-209 | The start of the first entry of kind 1 with room between its page boundaries for the bitmap and one page more, or nothing if no entry has that |
| BootMemoryMap.PlaceIs | src/drivers/misc/memory.c:193-216 | On the fields of the map: the bitmap starts at the first page boundary of the first available entry with that room; only if there is none it goes a page and its own length below the end of memory, and nowhere if memory is no larger |
| BootMemoryMap.OfferInside | src/drivers/misc/memory.c:198-205 | In such an entry, if it does not wrap, the whole bitmap and a page behind it are available memory |
| BootMemoryMap.ReservedSkipped | src/drivers/misc/memory.c:198 | A reserved area with room in front of memory is passed over |
| BootMemoryMap.BitmapBytesIs | src/drivers/misc/memory.c:186 | The bitmap has a bit for every page and no byte more than that takes |
| BootMemoryMap.TotalPagesIs | src/drivers/misc/memory.c:184-185 | The pages end with the page in which the highest entry ends |
| BootMemoryMap.BitmapPagesIff | src/drivers/misc/memory.c:219-231 | A bitmap that starts on a page keeps exactly the pages it has a byte in; any other keeps all of those but the first, and besides at most the page behind the last |
| BootMemoryMap.FillBitmap | src/drivers/misc/memory.c:219-222 | Every bit of the bitmap is set, tail bits included |
| BootMemoryMap.ClearRange | src/drivers/misc/memory.c:227-234 | Clears exactly the pages of memory in the range that are not the bitmap's |
| BootMemoryMap.ClearAvailable | src/drivers/misc/memory.c:223-237 | After all entries a page is free exactly if some available entry covers it and it is not the bitmap's |
| BootMemoryMap.PhysmemInit | src/drivers/misc/memory.c:193-237 | The first call places the bitmap and leaves the marks above, with all bits past the last page used; no room means no pages at all |
| BootMemoryMap.FreeIffInside | src/drivers/misc/memory.c:223-237 | For every map and page of memory, "free if and only if wholly inside an available entry and not the bitmap's" holds if and only if the page is the bitmap's, or wholly inside an available entry that does not wrap, or gained by some wrapping entry exactly when missed by some wrapping entry (gained: that entry starts in the last page of the address space and its wrapped end lies behind the page; missed: it starts at or below the page) |
| BootMemoryMap.NoneWrapsAllRight | src/drivers/misc/memory.c:223-237 | So on a map whose available entries do not wrap every mark is right |
| BootMemoryMap.LastPageLosesAll | src/drivers/misc/memory.c:176-186 | An entry of any kind that ends in the last page of the address space leaves no pages at all |
| BootMemoryMap.NoMemoryIff | src/drivers/misc/memory.c:176-186 | There are no pages exactly if some entry ends there or none ends above 0 |
| BootMemoryMap.NoMemoryLeft | src/drivers/misc/memory.c:176-186 | A map with 128 MiB of memory and a reserved entry in the last page has none |
| BootMemoryMap.BootThenRun | src/drivers/misc/memory.c:174-290 | After boot on any map, every page held at the end of any legal run was free after boot, shares no byte with the bitmap unless the bitmap starts inside it, and lies wholly inside an available entry unless a wrapping entry gained it |
| BootMemoryMap.PlainEntry | src/drivers/misc/memory.c:227-233 | For an entry that neither wraps nor starts in the last page, the rounded range holds exactly the pages wholly inside it |
| BootMemoryMap.EntryExactIff | src/drivers/misc/memory.c:227-233 | On a map with memory an available entry counts on exactly the pages wholly inside it if and only if it does not wrap, or starts in the last page of the address space and wraps by less than a page, or starts elsewhere with its rounded start behind all memory |
| BootMemoryMap.PageGained | src/drivers/misc/memory.c:223-237 | A map on which page 1 is free after boot and lies in no entry |
| BootMemoryMap.PageMissed | src/drivers/misc/memory.c:223-237 | A map on which page 1 lies inside an available entry, away from the bitmap, and stays used |
| BootMemoryMap.BitmapPageFreeIff | src/drivers/misc/memory.c:219-234 | No page under the bitmap is free, except the first when the bitmap starts inside it and the map covers it |
| BootMemoryMap.FallbackExposed | src/drivers/misc/memory.c:210-234 | A map on which the fallback puts the bitmap into the last byte of a page that stays free |
| BootMemoryMap.RoomyIsAligned | src/drivers/misc/memory.c:193-209 | A bitmap placed in an available region starts on a page boundary |
| BootMemoryMap.PlacedAtZeroIff | src/drivers/misc/memory.c:198-260 | The bitmap ends up at address 0 exactly when the first roomy region's start rounds to 0, and then every request on every bitmap answers 0 and takes nothing |
| BootMemoryMap.OrdinaryMapRefused | src/drivers/misc/memory.c:198-260 | On a 128 MiB map with conventional memory from 0, page 1 is free after boot and every request is refused |
| RawMemory.Memmove | src/drivers/misc/memory.c:92-102 | The target holds the source's old bytes for every overlap, and nothing else changes |
| RawMemory.Memcpy | src/drivers/misc/memory.c:85-90 | The byte-by-byte ascending copy, whatever the overlap |
| RawMemory.AscendingRepeats | src/drivers/misc/memory.c:85-90 | An ascending copy onto a higher overlapping target repeats the first bytes between the two |
| RawMemory.MemcpyExactIff | src/drivers/misc/memory.c:85-102 | memcpy does what memmove does if and only if the target is not above the source or the source already repeats with that period |
| RawMemory.OverlapByOne | src/drivers/misc/memory.c:85-102 | Three bytes on which an overlap by one makes memcpy smear the first |
| RawMemory.AlignedFits | src/drivers/misc/memory.c:78-79 | For every alignment but 0 the address has room below it for a pointer, the size asked for fits behind it in the sum, and for a power of two it is aligned |
| RawMemory.AlignsIff | src/drivers/misc/memory.c:78 | The mask turns every address into a multiple of the alignment if and only if the alignment is a power of two |
| FileTree.FileSystem.FsCreateDirNode | src/drivers/fs/fs_emulated.c:10-19 | A fresh empty directory record at an unused address |
| FileTree.FileSystem.FsAddChild | src/drivers/fs/fs_emulated.c:32-36 | The child becomes the directory's last child and points back; nothing for a file |
| FileTree.FileSystem.FsRemoveChild | src/drivers/fs/fs_general.c:32-45 | The in-place shift removes the first occurrence and keeps the order of the rest; an absent child, a file or NULL changes nothing |
| FileTree.DetachMembers | src/drivers/fs/fs_general.c:35-44 | What is listed after a removal is what was listed, less that child |
| FileTree.FileSystem.FsDelete | src/drivers/fs/fs_general.c:47-61 | Ends on every tree and removes exactly the subtree of its argument; every other node is unchanged but for the parent's loss of that child; the tree invariant is kept |
| FileTree.FileSystem.DrainChildren | src/drivers/fs/fs_general.c:50-54 | The loop that always deletes the first child removes exactly the children's subtrees |
| FileTree.FileSystem.UnlinkAndFree | src/drivers/fs/fs_general.c:56-60 | The childless node leaves its parent's array and the store |
| FileTree.FileSystem.EmulatedFsDelete | src/drivers/fs/fs_emulated.c:124-139 | The loop over children frees exactly the subtree of its argument and changes no other node, not even the parent's array, and no record already freed is read |
| FileTree.FileSystem.Remove | src/apps/shell/commands/commands.c:237-243 | Removing the child first and deleting then leaves what deleting alone leaves; the root is refused |
| FileTree.PrunedUnique | src/drivers/fs/fs_general.c:47-61 | The description of a deletion's outcome determines it completely |
| FileTree.PrunedTree | src/drivers/fs/fs_general.c:47-61 | Taking out a subtree keeps parent pointers and child arrays in agreement and acyclic |
| FileTree.DetachThenPrune | src/apps/shell/commands/commands.c:242-243 | The extra removal in rm makes no difference to the outcome |
| FileTree.WithChildTree | src/drivers/fs/fs_emulated.c:32-36 | Adding a fresh child keeps the tree invariant |
| Paths.EmulatedFsFindIn | src/drivers/fs/fs_emulated.c:38-46 | The loop computes the lookup of FindInIs |
| Paths.FindInIs | src/drivers/fs/fs_emulated.c:38-46 | A lookup gives the first child of that name, and NULL exactly for a file or a name no child has |
| Paths.ResolveRelative | src/drivers/fs/fs_emulated.c:58-88 | The character loop with its 32-byte token buffer walks the path's components in order |
| Paths.OneComponent | src/drivers/fs/fs_emulated.c:67-78 | From any node ".." leads to the parent and stays at the top, "." and the empty path stay, and any other name leads to the first child of that name or nowhere |
| Paths.ThenOneComponent | src/drivers/fs/fs_emulated.c:58-88 | And so at the end of any path that leads to a node: "/..", "/.", "/" and a slash with a name |
| Paths.FromTheRoot | src/drivers/fs/fs_emulated.c:48-57 | A leading slash starts at the root, wherever one is |
| Paths.EmulatedFsResolve | src/drivers/fs/fs_emulated.c:48-89 | An absolute path walks from the root, any other from the current directory |
| Paths.ResolveComposes | src/drivers/fs/fs_emulated.c:48-89 | For non-empty p and q not absolute, resolving p/q is resolving q from the result of p, failure included |
| Paths.WalkJoin | src/drivers/fs/fs_emulated.c:58-88 | Walking two paths joined by a slash is walking one after the other |
| Paths.ShcPwd | src/apps/shell/commands/commands.c:246-260 | The buffer filled backwards holds "/name" for each node from below the root down, "/" for the root |
| Paths.PrintThenResolve | src/apps/shell/commands/commands.c:246-260 | The printed path of any attached node resolves, from anywhere, to that node, and fits the resolver's token buffer |
| Paths.PrintedInjective | src/apps/shell/commands/commands.c:246-260 | Different nodes print differently |
| Paths.PrintedUp | src/apps/shell/commands/commands.c:246-260 | A printed path with "/.." behind it leads to the parent |
| Paths.PrintedShortest | src/apps/shell/commands/commands.c:246-260 | No absolute path to a node is shorter than its printed path |
| Paths.ResolveFolder | src/apps/tinypad/tinypad.c:13-31 | The strtok resolver gives what the kernel's resolver gives for "/" + path, cut off after 255 characters |
| Paths.BasenameMeans | src/apps/shell/commands/commands.c:179-187 | The name behind the last slash that has a name behind it, followed by the slashes that end the path; a path of slashes only is its own basename |
| Paths.FsBasename | src/apps/shell/commands/commands.c:179-187 | The two backward loops compute that basename, and nothing is read outside the path |
| Paths.ShcMkdir | src/apps/shell/commands/commands.c:189-219 | Which error or success each path gives, nothing changed on error, and on success one fresh last child of the parent found, one level below it |
| Paths.MkdirOutcomeIs | src/apps/shell/commands/commands.c:189-216 | Which fault gives which error: a path that leads anywhere exists already, one with a slash not behind a directory has an invalid parent, and no path has an invalid name |
| Paths.ParentIs | src/apps/shell/commands/commands.c:203-211 | The parent is where what precedes the last slash leads, cut off after 255 characters; the current directory for a path without a slash |
| Paths.MkdirKeepsNames | src/apps/shell/commands/commands.c:189-219 | For a path whose last slash does not lead it and fits the parent buffer, a successful mkdir keeps names good and unique and its path then leads to the new directory |
| Paths.LongPathIff | src/apps/shell/commands/commands.c:203-216 | For every path with a slash behind its first character, past index 255 too: the path leads to the new directory if and only if what precedes the last slash then leads to the parent and the name was new there; where that prefix led somewhere before, if and only if it led to the parent, which is where the truncated prefix leads |
| Paths.LongPathStrays | src/apps/shell/commands/commands.c:203-216 | 256 slashes and d/y make y in the root; the path does not lead to it |
| Paths.MkdirNamesIff | src/apps/shell/commands/commands.c:203-218 | A new directory keeps names good and unique if and only if its name is good and new in the directory it is entered in; for mkdir, whatever the path, that is the parent it settled on |
| Paths.LeadingSlashOnly | src/apps/shell/commands/commands.c:203-216 | For "/x" the directory lands in the current one; names stay unique iff x is new there, and the path leads to it iff that is the root |
| Paths.SecondX | src/apps/shell/commands/commands.c:203-216 | In /d, where there is an x, mkdir /x goes through and leaves two |
| Paths.CreatedStep | src/apps/shell/commands/commands.c:189-216 | The name of a mkdir that goes through is good and new where it lands, for every path whose last slash fits the parent buffer and does not lead |
| Paths.RootNameIsNew | src/apps/shell/commands/commands.c:189-216 | So it is for a lone leading slash from the root |
| Paths.ShcRm | src/apps/shell/commands/commands.c:221-244 | Which refusal or success each path and answer gives, nothing changed on refusal, and on success exactly the subtree gone |
| Paths.RmOutcomeIs | src/apps/shell/commands/commands.c:221-241 | Which fault gives which refusal: a file goes without a question, a directory only on "yes", the top never |
| Paths.RmKeeps | src/apps/shell/commands/commands.c:221-244 | rm keeps a well-named tree with every node attached to the root |
| Paths.MadeKeeps | src/apps/shell/commands/commands.c:189-219 | A mkdir whose name is good and new where it lands keeps a well-named tree with every node attached to the root |
| Paths.RunKeepsTree | src/apps/shell/commands/commands.c:189-260 | After any run of rm and mkdir, names clashing or not, all nodes hang in one tree under the root, and each node's printed path leads back to it if and only if it and every node above it are the first of their names |
| Paths.PrintsBackIff | src/apps/shell/commands/commands.c:246-260 | The same of any attached tree |
| Paths.RmKeepsTree | src/apps/shell/commands/commands.c:221-244 | rm keeps all nodes attached, names clashing or not |
| Paths.MadeKeepsTree | src/apps/shell/commands/commands.c:189-219 | So does a mkdir with a good name, new where it lands or not |
| Paths.RunKeepsPaths | src/apps/shell/commands/commands.c:189-260 | After any run of rm and of mkdir with paths whose last slash fits the parent buffer and does not lead, or else with names new where they land, every node's printed path leads back to it |
| Text.Strtok | src/lib/string.c:215-231 | Returns the first token of what is left, terminated in place, and leaves the remaining tokens; NULL exactly when nothing is left; one character of the buffer changes at most |
| Text.SplitStr | src/lib/string.c:28-48 | The starts of exactly the tokens strtok would give, each terminated in place, or -1 if and only if there are more tokens than slots |
| Text.TokensJoin | src/lib/string.c:28-48 | Joining the tokens with the separator restores the string up to one trailing separator |
| Text.TokensClean | src/lib/string.c:37-38 | No token contains the separator |
| TextReplace.FirstMatchIs | src/lib/string.c:126-133 | The first match is a match and no earlier position is |
| TextReplace.ReplacedJoins | src/lib/string.c:106-166 | Replacing is cutting the string at its leftmost non-overlapping occurrences and joining the pieces, unaltered, with the replacement; the count is one less than the pieces |
| TextReplace.CountMatches | src/lib/string.c:124-141 | The counting pass counts the leftmost non-overlapping occurrences |
| TextReplace.Matches | src/lib/string.c:127-133 | The comparison accepts exactly the positions where the pattern occurs and never reads past the terminator |
| TextReplace.StepAt | src/lib/string.c:126-162 | At every position both passes advance alike: by the pattern on a match, by one character otherwise |
| TextReplace.Build | src/lib/string.c:147-164 | The building pass ends at exactly the precomputed length with the replaced text and its terminator |
| TextReplace.StrReplace | src/lib/string.c:106-166 | Every leftmost non-overlapping occurrence replaced, in a buffer of exactly that length; a copy for an empty pattern |
| TextReplace.ReplacedLength | src/lib/string.c:143 | The output length formula is exact, also when the replacement is shorter |
| TextReplace.ReplaceBySelf | src/lib/string.c:106-166 | Replacing a pattern by itself changes nothing |
| Numbers.UDiv64 | src/lib/number.c:3-17 | The quotient, for every 64-bit n and d > 0 |
| Numbers.UMod64 | src/lib/number.c:19-30 | The remainder, for every 64-bit n and d > 0 |
| Numbers.ShiftKeepsBits | src/lib/number.c:7 | Shifting the remainder left never loses a bit, even for divisors above 2^63 |
| Numbers.NumeralSound | src/lib/conversions.c:21-35 | The digit string has no leading zero, uses only digits of the base, and its value is the number |
| Numbers.DigitIs | src/lib/conversions.c:4 | Digits are 0 to 9, then capital A to Z |
| Numbers.Numerals | src/lib/conversions.c:3-37 | 0xBEEF in base 16 is BEEF, 5 in base 2 is 101, 35 in base 36 is Z |
| Numbers.NumeralUnique | src/lib/conversions.c:21-35 | It is the only such string |
| Numbers.NumeralLength | src/lib/conversions.c:21-25 | A number of k bits has at most k digits |
| Numbers.BackwardsReversed | src/lib/conversions.c:21-34 | The digits emitted, reversed, are the numeral |
| Numbers.ReverseInPlace | src/lib/conversions.c:29-34 | The swap loop reverses the characters and touches nothing behind them |
| Numbers.EmitDigits | src/lib/conversions.c:21-25 | At most 64 digits are written, least significant first |
| Numbers.Utoa | src/lib/conversions.c:3-37 | The terminated numeral in every base from 2 to 36, the empty string for any other |
| Numbers.IsValidInt | src/lib/number.c:32-52 | Accepts exactly an optional minus sign followed by at least one digit |
| Numbers.IsIntIff | src/lib/number.c:32-52 | A text is accepted if and only if it is one or more digits, alone or behind one minus sign; the empty text, a lone minus sign and two of them are refused |
| Numbers.StrToInt64 | src/lib/number.c:54-69 | For every text, digits or not, on which no step overflows: the decimal accumulation of its characters, negated behind a minus |
| Numbers.ReadsInt | src/lib/number.c:32-69 | A text is_valid_int accepts is read as the number it denotes, and can be read without overflow if and only if its magnitude is below 2^63 |
| Numbers.LeastOverflows | src/lib/number.c:32-69 | -2^63 is accepted but overflows |
| Numbers.DecimalRoundTrip | src/lib/number.c:32-69 | What utoa writes in base 10 is accepted and read back, with a minus sign too |
| Numbers.ReadThenWrite | src/lib/conversions.c:3-37 | Unsigned decimal text without leading zeros is what utoa writes for its value |
| Hexdump.HexValues | src/apps/hexedit/hexedit.c:9-20 | is_hex holds exactly of the characters with a value below 16, and 0xFF is no digit's value |
| Hexdump.PrintHexdump | src/apps/hexedit/hexedit.c:46-60 | The terminated dump of as many leading bytes as fit, for every capacity of at least one |
| Hexdump.DumpAt | src/apps/hexedit/hexedit.c:50-57 | Byte k stands at 3k as two capital digits, the high one first, and a blank |
| Hexdump.OneDump | src/apps/hexedit/hexedit.c:22-60 | 0A F5, printed and parsed, and an odd digit 7 parsed as 0x70 |
| Hexdump.ParseHexdumpToBytes | src/apps/hexedit/hexedit.c:22-44 | The first bytes, up to the maximum, of the text's hex digits paired in order, an odd last one padded with 0 |
| Hexdump.Combine | src/apps/hexedit/hexedit.c:34-40 | High nibble and low nibble joined, 0 if either is no digit |
| Hexdump.PrintedParses | src/apps/hexedit/hexedit.c:22-60 | Parsing the printed dump of any bytes gives them back |
| Hexdump.ParseThenPrint | src/apps/hexedit/hexedit.c:22-60 | Printing what a text parses to gives its hex digits in upper case, padded; two texts parse alike if and only if those agree |
| Hexdump.SaveUnmodified | src/apps/hexedit/hexedit.c:62-66 | Parsing an unmodified dump of a file, with the buffer sizes of hexedit, yields the file's own bytes, all of them |
| UserFile.ReadChar | src/apps/terminal/tty.c:33-68 | One character's effect on record and counters, every store inside its array but the one behind the eighth group; until that one is noted the record is what C leaves |
| UserFile.ParseUsers | src/apps/terminal/tty.c:16-80 | For every text: at most sixteen records, and whether a store went past one, which is so exactly if one of the first sixteen lines has something behind the eighth comma of its group field; if not, the records are those of the lines in order |
| UserFile.LineMeans | src/apps/terminal/tty.c:21-74 | What any line with three colons and at most eight groups is parsed to: the digits before the first colon as a number modulo 2^64, the next two fields as name and password, the field behind the third cut at its commas as groups, each text cut off after 31 characters and terminated, whatever the memory held; what follows a fourth colon is ignored |
| UserFile.LineRoundTrip | src/apps/terminal/tty.c:21-74 | A formatted line, parsed into whatever the record memory held, gives the user back |
| UserFile.NameUnterminated | src/apps/terminal/tty.c:57-62 | A line that ends inside the name does not terminate it: what the memory held shows behind it |
| UserFile.UnterminatedIff | src/apps/terminal/tty.c:57-62 | The name read is then the one written if and only if a NUL happened to follow |
| UserFile.LeftoverName | src/apps/terminal/tty.c:57-62 | Memory in which it does not |
| UserFile.FileRoundTrip | src/apps/terminal/tty.c:16-80 | A file of storable users parses to the same users in order, as many as there are slots, with every store in bounds |
| UserFile.ReadBack | src/drivers/fs/fs_general.c:97-100 | Up to sixteen users written in the format of /etc/users are all read back |
| UserFile.Streql | src/lib/string.c:19-26 | True exactly for equal strings |
| UserFile.FindUser | src/apps/terminal/tty.c:82-89 | The first user of that name in the list the records were parsed from, NULL exactly when none has it |
| UserFile.OverflowIff | src/apps/terminal/tty.c:47-56 | A group field is stored past the eighth group if and only if something follows its eighth comma |
| UserFile.NineTokens | src/apps/terminal/tty.c:47-56 | Which is the same as having more than eight groups |
| UserFile.LineOverflowIff | src/apps/terminal/tty.c:32-69 | The same for a line cut at its colons: only its group field matters |
| UserFile.OverfullIff | src/apps/terminal/tty.c:32-69 | The same for any line at all, its group field being what stands between its third colon and the next |
| UserFile.FileOverflowIff | src/apps/terminal/tty.c:16-80 | A whole file is parsed with every store in bounds if and only if none of the lines read is overfull in that way |
| UserFile.NinthGroup | src/apps/terminal/tty.c:47-56 | A line with one character behind its eighth comma overflows |
| UserFile.ShortLineSafe | src/apps/terminal/tty.c:32-69 | A line without a group field stores nothing out of bounds |
| Console.CellParts | src/drivers/vga/screen.c:38 | A cell keeps code and colour for codes below 128; from 128 on the colour reads 0xFF |
| Console.BlankIs | src/drivers/vga/screen.c:28 | A blank cell is 0x0720, a space in light grey |
| Console.GreyLost | src/drivers/vga/screen.c:38 | Character 128 in grey has 0xFF for its colour |
| Console.Screen.ClearScreen | src/drivers/vga/screen.c:81-87 | Every cell is 0x0720 and the cursor 0, so the screen shows an empty terminal |
| Console.Screen.Scroll | src/drivers/vga/screen.c:20-32 | Rows move up by one, the last is blank, the cursor is at its start |
| Console.Screen.PrintChar | src/drivers/vga/screen.c:34-46 | The screen shows the terminal with one more character or row. By positions: the cursor goes on by one, or to the next multiple of 80 on a newline; the cell it stood on and no other is written; from 2000 on all rows move up and it is 1920 |
| Console.Screen.DelChar | src/drivers/vga/screen.c:71-79 | The screen shows the terminal with its last character dropped. By positions: the cursor goes back by one, at 0 it stays, and the cell it then stands on is blank |
| Console.Type | src/drivers/vga/screen.c:20-87 | After a clear and any sequence of characters and backspaces the cursor is on the screen and the 80x25 cells are a window of the terminal that received them |
| Console.TypedText | src/drivers/vga/screen.c:34-46 | After any sequence of characters, however far it scrolled, the terminal's text is the cells of all that were printed, in order |
| Console.PutKeepsText | src/drivers/vga/screen.c:34-46 | One character joins the text at its end, a newline adds nothing |
| Console.DropUndoesPut | src/drivers/vga/screen.c:34-79 | A backspace takes back the last character, also across the end of a row |
| Console.WindowPosition | src/drivers/vga/screen.c:41-43 | Without backspaces the window has moved down one row for each row past the 25th |
| Syscalls.FdTable.GetFdFromId | src/exec/file_descriptor.c:13-27 | The first record with that id, NULL exactly when there is none |
| Syscalls.FdTable.Append | src/exec/file_descriptor.c:29-54 | The new record with the next id stands at the end of the linked list, all others where they were |
| Syscalls.FdTable.CreateNewFsnodeFd | src/exec/file_descriptor.c:29-54 | A file record for that node and opener is appended under the next id |
| Syscalls.FdTable.CreateNewIofuncFd | src/exec/file_descriptor.c:56-82 | A record of the two functions for that opener is appended under the next id |
| Syscalls.FsRead | src/drivers/fs/fs_emulated.c:102-118 | The file's first bytes, at most max - 1, followed by a terminator |
| Syscalls.ReadSafeIff | src/drivers/fs/fs_emulated.c:106-115 | The copy stays inside file and buffer exactly when the file is empty or max is not 0 |
| Syscalls.ReadOfNothing | src/drivers/fs/fs_emulated.c:111-113 | A one-byte file and a maximum of 0 give a copy of 2^32 - 1 bytes |
| Syscalls.Kernel.HandleSyscall | src/exec/syscall.c:11-108 | Each call's result and new state, and for a READ the file's bytes and a terminator in the buffer |
| Syscalls.MayWriteIs | src/exec/syscall.c:34-39 | The test is for the write bit of one octal digit of the permissions: the owner's for the owner, the last for everyone else, the group's for nobody |
| Syscalls.OctalPermissions | include/fs/permissions/check.h:3-6 | With permissions ogu the owner may write exactly if o has the bit 2, anyone else exactly if u has |
| Syscalls.UsualPermissions | src/exec/syscall.c:34-39 | With 0755, the default, and with 0644 only the owner may READ or WRITE; with 0444 nobody may |
| Syscalls.GrantedIff | src/exec/syscall.c:21-43 | READ and WRITE get through to a file if and only if the first descriptor of that id belongs to the caller's user and process and its node is a stored file with the write bit in the digit for that user |
| Syscalls.RefusedIff | src/exec/syscall.c:21-43 | Which fault gives which code, the first that applies |
| Syscalls.UnknownId | src/exec/syscall.c:22-24 | The code for an unknown id is given exactly if no descriptor has it |
| Syscalls.FailuresAre | src/exec/syscall.c:11-108 | Which call fails with which code, and that nothing changes then |
| Syscalls.AppendOnly | src/exec/file_descriptor.c:29-54 | Over any run the descriptor list only grows at its end |
| Syscalls.RunKeepsIds | src/exec/file_descriptor.c:34-51 | Without wrap-around of the counter, ids strictly increase along the list |
| Syscalls.OpenedIdIsStable | src/exec/syscall.c:88-103 | An id returned by OPEN names that same record after any further run |
| Syscalls.ChangedOnlyByOpener | src/exec/syscall.c:54-85 | From any state, a file's contents differ after a run only if some call in it was a WRITE by the pair recorded in the descriptor, with the write bit in the permission digit for its user; nothing else of the tree changes |
| Syscalls.DescriptorOrigin | src/exec/syscall.c:88-103 | Starting without descriptors, each one was made by an OPEN of the run: its node is where that path led, its owner the caller, its id the one returned |
| Syscalls.ChangedOnlyAfterOpen | src/exec/syscall.c:54-103 | Starting without descriptors, a changed file was opened by some caller who in a later event wrote to the id that OPEN returned, with the write bit in the permission digit for its user |
| Syscalls.AccessLasts | src/exec/syscall.c:21-43 | Access to a file through a descriptor, once granted, is granted after any further run, for the same node |
| Syscalls.PathsKeepMeaning | src/exec/syscall.c:88-91 | Any path leads to the same node before and after any run |
| Syscalls.WriteThenRead | src/drivers/fs/fs_emulated.c:91-118 | A READ after a WRITE of s bytes through the same descriptor delivers the first min(s, m - 1) of those bytes, whatever came in between so long as nobody wrote to that file |
| Syscalls.DataKeepsTree | src/drivers/fs/fs_emulated.c:91-100 | Writing contents keeps the tree invariant |
| Bits.Pow2Test | src/drivers/misc/memory.c:263 | x & (x - 1) is 0 exactly for the powers of two |
| Bits.HighMask | src/drivers/misc/memory.c:154-156 | Masking with the complement of 2^k - 1 clears the low k bits |

## Left out

- Port I/O, descriptor tables, interrupts, speaker, power and panic screens: hardware plumbing. `update_cursor` is not part of the model.
- Interactive loops, menus, calculator, `printct`, `paintline`, `clearline`, `chmod`: input and drawing around the routines modelled here.
- `kernelpanic` halts; `Malloc` reports it as a flag.
- Raw pointer reinterpretation: header records are keyed by address with a symbolic header size, and any overlapping write makes a record unreadable.
- KernelHeap.Heap.Free: a pointer that is neither NULL nor the payload of a listed block is outside its precondition; the header in front of such a pointer is whatever happens to be there.
- KernelHeap.RunSafe: a block freed twice after it was coalesced away is not a legal call, because its header is no longer in the list.
- KernelHeap.Heap.MallocAligned: a store outside the block is reported by a flag and not carried out. `memset` is left out.
- `uint64_t` masks are modelled at 64 bits; on x86 `PM_PAGE_SIZE` is 32 bits wide.
- BootMemoryMap.PhysmemInit: the map is a list of entries, not a byte range walked by entry size; the early bump allocator (lines 158-172, 189-192, 238-256) is left out, so this is the first call only.
- FileTree.FileSystem: nodes are records in a map from addresses instead of one object each, because deletion frees records at arbitrary depth; updates go through the map one field at a time as in the source, but aliasing between raw pointers and freed memory is not modelled.
- FileTree.FileSystem.EmulatedFsDelete: that `free(node->children)` releases an array inside the node, and what this does to the heap, is not modelled.
- File nodes are created like directory nodes and have no method of their own.
- Paths.ShcMkdir: assumes a free slot in the parent it finds, no component over 31 characters, and an address from malloc that is not in use; it does not model a failed malloc.
- Paths.MkdirKeepsNames: paths whose only slash is the first character, or whose last slash is past the 255 characters the parent buffer holds, need not keep names or lead to the new directory; `LeadingSlashOnly`, `LongPathIff` and `MkdirNamesIff` say exactly when they do.
- Paths.ShcPwd: the path must fit the 256-byte buffer; that the buffer is static and shared by all callers is not modelled.
- Paths.ResolveFolder: components over 31 characters are excluded, as they overrun the resolver's token buffer.
- Dangling `current_dir` or descriptors after `rm`: a descriptor whose node is gone answers like a missing node.
- TextReplace.StrReplace: lengths must fit a 32-bit int, and malloc succeeds.
- Numbers.StrToInt64: texts on which a step overflows are undefined in C and outside its precondition; `ReadsInt` says which valid integers those are.
- UserFile.ParseUsers: what memory holds after a store past the eighth group is not modelled, only that it happened; the records are then not promised. The C `int` length is the length of the text.
- Console.Screen: printing starts from a cleared screen; the 16-bit cursor never exceeds 2000, so its width is not modelled.
- Syscalls.Kernel.HandleSyscall: user memory is passed as values and a buffer, a function descriptor's read answers an abstract value, registers are 64 bits wide, malloc succeeds, and READ tests the same permission bit as WRITE exactly as coded.
- Hexdump.SaveUnmodified: `read_str` and the final `fs_write` are not part of it.
- Paths.RunKeepsTree: a mkdir into a full parent, or one whose basename is no good name (over 31 characters, or ending in a slash behind a truncated prefix), is not a command of its runs.
- Paths.RunKeepsPaths: a name already taken where it lands is excluded only for the paths that are no ordinary ones; `RunKeepsTree` says what holds then.
- Syscalls.RunKeepsIds: assumes the 64-bit id counter does not wrap.

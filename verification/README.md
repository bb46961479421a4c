# Verification of the BL boot loader's algorithmic core

A Dafny model of the parts of the BL boot loader that compute rather than drive hardware, with
proofs of what they promise. Memory is an array, the disk is a sequence of bytes or a function
from block numbers to nodes, the USB controllers are steps that may change any field the
controller owns.

Check everything with `dafny verify dfyconfig.toml`.

| files | modelled |
|---|---|
| `Bits`, `Division`, `DivMod64`, `Memory`, `Wrappers` | 32-bit rounding and masks, division by a variable, 64-bit division, byte memory, `bl_memcpy` and `bl_memset` |
| `Heap`, `HeapRuns`, `HeapClients` | the first-fit allocator with its headers in memory; safety over every history; what string copies and loaded modules do to the heap |
| `ElfObject`, `Relocation`, `ElfLoad`, `ElfLink`, `ElfOrder`, `ElfStray` | the module linker: layout, symbol resolution, relocation, meaning, change of base, relocations that miss the object |
| `Symbols` | the SysV hash lookup and the linear lookup of exports |
| `ModuleList` | the module packer and both walks over its output |
| `NtfsIndex` | the descend-and-scan search of a directory index |
| `UsbPackets`, `UhciToken`, `PoolOwners`, `UhciPool`, `UhciDriver`, `OhciPool`, `OhciDriver` | packets and toggles, descriptor pools, chains and rings |
| `FrameBuffer`, `GuiApp`, `ShellScreen` | dirty-area drawing, the incremental repaint of the shell window, and both together |
| `PathTokens`, `PathResolution`, `PathWalk`, `PathHeap` | the in-place tokeniser, path resolution with its clean-up, and what it makes of the heap byte behind the path |
| `FatChain` | byte-range reads of a device and reads along a cluster chain |
| `UsbTraversal` | the bounded queue and the breadth-first device walk |

Code that changes state in place is a class or a method over arrays, proved against functions
over values; the properties are lemmas about those functions. Whole-history results (heap, UHCI,
OHCI) are stated over sequences of steps. Automatic induction is switched off for every lemma:
inductive proofs call themselves.

Where the code does less than one might expect, the model keeps the code's behaviour and a lemma
says exactly when it is right:

- The alignment of the very first heap block is met only up to 16 (`HeapRuns.AlignmentMet`), and a
  request reuses a block exactly if one before the last serves it, so a free last block is never
  used again (`HeapRuns.ReusedExactly`, `HeapRuns.LastBlockNeverReused`).
- `bl_strndup` stores a NUL behind its allocation, which in one case breaks the heap's list
  (`HeapClients.CopyDamagesExactly`), and copies a character too many when it cuts a string
  (`PathTokens.DuplicateMeaning`).
- Path resolution reads that byte again after callbacks have run and may take it for one more
  component (`PathHeap.WalkIsFoldExactly`, `PathHeap.MenuListRunsOn`).
- The linear symbol lookup compares 64 characters only (`Symbols.LookupsAgreeExactly`).
- The size pass of the ELF loader reserves enough for all section sizes exactly under a condition
  on the alignments (`ElfObject.FitsForAllSizes`), and a relocation for a section that is not loaded
  patches memory elsewhere (`ElfStray.LinkKeepsOutsideExactly`).
- `bl_ntfs_strcmp` takes a stored proper prefix for the sought name (`NtfsIndex.CompareSign`,
  `NtfsIndex.SearchRightExactly`).
- A cluster-chain read uses the same offset in every cluster (`FatChain.ReadRightExactly`).
- The UHCI token word mixes the direction bit of an IN endpoint into the length field
  (`UhciToken.TokenLengthExactly`, `UhciToken.TransferLengthsExactly`).
- OHCI bulk transfers repeat a toggle from one transfer to the next (`OhciDriver.BulkToggleRepeats`).
- The traversal queue drops pushes beyond 126 hubs (`UsbTraversal.VisitsAllExactly`,
  `UsbTraversal.DumpedCompletelyExactly`).
- `bl_memset` writes one byte less than asked (`Memory.Memset`), so the last byte of a loaded NOBITS
  section is not cleared (`ElfLink.LinkClears`).

## Model

| member | source | states |
|---|---|---|
| `Heap.FirstFit` | boot-loader/core/memory/heap.c:59-66 | a block is reused only if it is free, its payload meets the alignment and it is large enough; every earlier block fails that; the last block is never considered |
| `Heap.FreshPayload` | boot-loader/core/memory/heap.c:68-72 | the payload address of a new block lies at least a header behind the last block and is aligned to 16 and to the requested power of two |
| `Heap.FirstHeader` | boot-loader/core/memory/heap.c:103-104 | the first header lies at or above the heap start, aligned to 16 and to the requested power of two |
| `Heap.Release` | boot-loader/core/memory/heap.c:128-132 | freeing clears the used mark of the block with that payload and changes no other block |
| `Heap.MarkList` | boot-loader/core/memory/heap.c:62 | rewriting one magic word in memory is setting one flag in the list; headers still spell out the list, payload bytes are kept |
| `Heap.AppendList` | boot-loader/core/memory/heap.c:74-78 | writing a new header and linking it from the old last block spells out the list with one more block; payload bytes are kept |
| `Heap.PayloadList` | boot-loader/core/memory/heap.c:17-22 | a store inside any payload leaves every header of the list as it is |
| `Heap.Heap.constructor` | boot-loader/core/memory/heap.c:28-52 | the heap starts empty at the chosen address |
| `Heap.Heap.AllocAlign` | boot-loader/core/memory/heap.c:83-112 | null, with nothing changed, exactly without a heap or for an alignment that is neither 0 nor a power of two; for a power of two the list in memory and the address are those of the first-fit request with that alignment, for 0 those with alignment 1; the address is a multiple of 16 and, unless the heap was empty, of the alignment; no payload byte changes |
| `Heap.Heap.Walk` | boot-loader/core/memory/heap.c:59-66 | the walk over the links in memory stops at the first reusable block, or at the last block |
| `Heap.Heap.AllocFrom` | boot-loader/core/memory/heap.c:54-81 | reuses that block or appends one behind the last, as the request specifies |
| `Heap.Heap.Free` | boot-loader/core/memory/heap.c:121-133 | a misaligned address changes nothing; otherwise exactly the block of that payload is marked free, and a free block stays free |
| `Heap.Heap.WritePayload` | boot-loader/core/memory/heap.c:54-81 | a client store inside a payload keeps the heap valid |
| `HeapRuns.AllocateTouchesOneBlock` | boot-loader/core/memory/heap.c:54-112 | a request takes over one free block unchanged in place and size, or adds one last block with room for the request; the list stays ascending and inside the memory |
| `HeapRuns.AlignmentMet` | boot-loader/core/memory/heap.c:83-112 | the answer is 16-byte aligned, and meets the requested power of two if and only if the heap was not empty or the alignment is at most 16 |
| `HeapRuns.StepKeepsInv` | boot-loader/core/memory/heap.c:54-133 | every request and every valid free keeps the invariant, and a request never returns an address somebody holds |
| `HeapRuns.RunKeepsInv` | boot-loader/core/memory/heap.c:54-133 | the invariant holds after every history of requests and valid frees |
| `HeapRuns.RunSafety` | boot-loader/core/memory/heap.c:54-133 | at every moment of every history each held payload is 16-byte aligned, inside the memory, as large as requested, and disjoint from all other held payloads and from every header |
| `HeapRuns.RunReturnsFresh` | boot-loader/core/memory/heap.c:83-112 | no request of a history returns an address that is still held |
| `HeapRuns.RequestsAreSteps` | boot-loader/core/memory/heap.c:54-112 | histories leave out no request that is covered |
| `HeapRuns.FreesAreSteps` | boot-loader/core/memory/heap.c:121-133 | and no free of a misaligned address or of any block, used or not |
| `HeapRuns.ReusedExactly` | boot-loader/core/memory/heap.c:59-66 | a request on a heap in use is served without a new block if and only if some block before the last is free, has at least the size, and has a multiple of the alignment behind its 16-byte header |
| `HeapRuns.FirstReused` | boot-loader/core/memory/heap.c:59-66 | the first such block is taken: its payload is the answer, it keeps place and size and becomes used, and nothing else changes |
| `HeapRuns.NewBlockLeast` | boot-loader/core/memory/heap.c:68-81 | without one a block of exactly the size asked for is added, its payload at the least address with room for a header behind the last block that is a multiple of 16 and of the alignment |
| `HeapRuns.FirstBlockLeast` | boot-loader/core/memory/heap.c:95-108 | the very first header lies at the least address at or above the heap start that is a multiple of 16 and of the alignment |
| `HeapRuns.RoomSuffices` | boot-loader/core/memory/heap.c:54-112 | requests are covered whenever the memory behind the last block has room for two headers, the padding and the payload |
| `HeapRuns.LastBlockNeverReused` | boot-loader/core/memory/heap.c:59-66 | whatever the list, size and alignment, no request hands out or changes the last block; one that it alone could serve is answered behind it |
| `HeapClients.CopyDamagesExactly` | boot-loader/core/utils/string.c:224-242 | the NUL that bl_strndup stores behind its allocation leaves the list of blocks alone, unless it reuses a block of exactly the size asked for, the next block lies directly behind, and that block's link does not end in a zero byte |
| `HeapClients.CopyOfFifteenDamages` | boot-loader/core/utils/string.c:224-242 | such a case: three 16-byte blocks in a row, the first free, and a copy of 15 characters |
| `HeapClients.LoadStaysInImage` | boot-loader/core/loader/elf/elf.c:36-97 | loading an object whose layout is covered, at the address the heap returned for its image size and alignment, changes no byte outside that payload that no relocation reaches |
| `HeapClients.LoadKeepsHeld` | boot-loader/core/loader/elf/elf.c:36-97 | so whatever else clients hold keeps its bytes, unless a relocation reaches it |
| `HeapClients.LoadKeepsHeaders` | boot-loader/core/loader/elf/elf.c:36-97 | and every header of the heap keeps its bytes, unless a relocation reaches it |
| `HeapClients.LinkableKeepsHeap` | boot-loader/core/loader/elf/elf.c:219-262 | relocations that are all for loaded sections reach neither |
| `Bits.AlignUpSpec` | boot-loader/core/include/memory/heap.h:7-8 | on 32-bit values the macro gives the multiple at or above the address, when the sum does not wrap |
| `Bits.AlignUpToZero` | boot-loader/core/loader/elf/elf.c:65-66 | an alignment of 0 makes the macro return address 0 for every address |
| `Bits.PowerOfTwoTest` | boot-loader/core/memory/heap.c:92-93 | n & (n - 1) is zero for exactly the powers of two and zero |
| `DivMod64.DivMod` | boot-loader/core/utils/divmod64.c:3-28 | for every 64-bit n and non-zero d the exact floor quotient and remainder, also for d above 2^63; for d = 0 all ones and n |
| `Memory.Memcpy` | boot-loader/core/utils/string.c:138-162 | the destination holds the old source bytes also when the two ranges overlap; all else is kept |
| `Memory.Memset` | boot-loader/core/utils/string.c:122-136 | writes n - 1 bytes, so the last byte of the range is kept; a count of 0 wraps around to 2^32 - 1 bytes |
| `ElfObject.Segments` | boot-loader/core/loader/elf/elf.c:63-87 | each entry of the table is a loaded non-empty section with its aligned address and its size |
| `ElfObject.SegmentsInOrder` | boot-loader/core/loader/elf/elf.c:63-87 | the table is in section order, so no section has two entries |
| `ElfObject.SegmentCount` | boot-loader/core/loader/elf/elf.c:49-50 | the count of the first pass is the number of segments of the second |
| `ElfObject.SegmentsComplete` | boot-loader/core/loader/elf/elf.c:63-87 | each loaded section has its segment: its index, its aligned address, its size |
| `ElfObject.SegmentsDisjoint` | boot-loader/core/loader/elf/elf.c:63-87 | segments of two loaded sections lie in section order without overlap |
| `ElfObject.AdmissibleFits` | boot-loader/core/loader/elf/elf.c:41-53 | if each loaded non-empty section is no more aligned than some section before it, or no section before it is loaded and non-empty, all segments lie inside the size computed by the first pass |
| `ElfObject.FitsForAllSizes` | boot-loader/core/loader/elf/elf.c:41-87 | for given flags and alignments the image holds the segments for every choice of sizes if and only if each allocatable section is no more aligned than some section before it, or no section before it is allocatable |
| `ElfObject.LayoutShift` | boot-loader/core/loader/elf/elf.c:63-87 | moving the base by a multiple of the alignments of all placed sections moves every segment by that amount |
| `ElfLoad.Loader.Measure` | boot-loader/core/loader/elf/elf.c:41-53 | size, alignment and segment count of the first pass; the alignment is the largest of all sections' alignments and 1 |
| `ElfLoad.Loader.Place` | boot-loader/core/loader/elf/elf.c:63-87 | segments and memory after the second pass: PROGBITS bytes copied, NOBITS cleared but for the last byte, all else kept |
| `ElfLoad.Loader.ResolveSymbol` | boot-loader/core/loader/elf/elf.c:128-185 | one symbol entry is updated in place as `ElfLink.SymbolMeaning` spells out, an unexported import or an unknown type leaves it and fails, function names set the entry points |
| `ElfLoad.Loader.LoadSymbols` | boot-loader/core/loader/elf/elf.c:187-217 | all tables resolved entry by entry, or resolved up to the first entry that fails |
| `ElfLoad.Loader.RelocateSection` | boot-loader/core/loader/elf/elf.c:219-262 | memory after the entries of one relocation section are applied one by one |
| `ElfLoad.Loader.Relocate` | boot-loader/core/loader/elf/elf.c:264-282 | memory after all relocation sections |
| `ElfLoad.Loader.Load` | boot-loader/core/loader/elf/elf.c:317-343 | succeeds exactly when every symbol resolves and an initialise function is found; the memory is then the linked image |
| `ElfLink.LookupPlaced` | boot-loader/core/loader/elf/elf.c:117-126 | looking a section up gives the address of its segment if it is loaded, 0 otherwise |
| `ElfLink.SymbolMeaning` | boot-loader/core/loader/elf/elf.c:128-185 | functions, and data that is nameless or has a section, move by their section's address (0 when it is not loaded), whatever is exported; undefined data names take the export's address and become functions if it is one; section and file symbols; UNKNOWN_SYMBOL exactly for an undefined data name without export, INVALID_ELF exactly for other types; nothing else in the entry changes |
| `ElfLink.LinkMeaning` | boot-loader/core/loader/elf/elf.c:219-262 | the four bytes at P hold A + S for R_386_32 and A + S - P for R_386_PC32, modulo 2^32, A being the bytes of the object file and P the offset in the section the entry is for |
| `ElfLink.LinkMeaning16` | boot-loader/core/loader/elf/elf.c:219-262 | the same for the two bytes of R_386_16 and R_386_PC16, modulo 2^16 |
| `ElfLink.LinkKeepsBytes` | boot-loader/core/loader/elf/elf.c:219-282 | every byte of a loaded PROGBITS section that is none of the four or two at an entry's offset is the byte of the object file; other types patch nothing |
| `ElfLink.LinkClears` | boot-loader/core/loader/elf/elf.c:69-75 | a loaded NOBITS section is zero but for its last byte, which keeps what the memory held; sections of other kinds are not written |
| `ElfLink.EntryIsLast` | boot-loader/core/loader/elf/elf.c:128-140 | an entry point is the resolved address of the last function of its name, tables being taken in section order |
| `ElfLink.NoEntry` | boot-loader/core/loader/elf/elf.c:128-140 | and 0 when no table has such a function |
| `ElfLink.LinkKeepsOutside` | boot-loader/core/loader/elf/elf.c:219-262 | whatever the relocations are for, memory outside the loaded sections that none of them reaches is not changed |
| `ElfStray.LinkKeepsOutsideExactly` | boot-loader/core/loader/elf/elf.c:219-262 | when patched words do not overlap and each lies inside or outside the loaded sections, memory outside is unchanged if and only if nothing but 0 modulo its width is added to a word there; an entry for a section that is not loaded patches its offset taken as an address |
| `ElfLink.SymbolShift` | boot-loader/core/loader/elf/elf.c:117-185 | moving the base by d moves S by d for symbols of loaded sections and by nothing for all others |
| `ElfLink.ShiftedWords` | boot-loader/core/loader/elf/elf.c:219-262 | at two bases that differ by d each relocated word differs by d if its symbol is in a loaded section, less d if it is PC-relative, modulo its width |
| `ElfLink.ShiftedBytes` | boot-loader/core/loader/elf/elf.c:63-87 | every unrelocated PROGBITS byte is the same at both bases |
| `ElfOrder.EntryOrderIrrelevant` | boot-loader/core/loader/elf/elf.c:231-259 | permuting the entries of a relocation section leaves the linked image as it is |
| `Relocation.OrderIrrelevant` | boot-loader/core/loader/elf/elf.c:235-255 | in-place additions at non-overlapping words give the same memory in every order |
| `Relocation.SiteValue` | boot-loader/core/loader/elf/elf.c:235-255 | a word patched once holds its old value plus the addend, cut to its width |
| `Relocation.Untouched` | boot-loader/core/loader/elf/elf.c:235-255 | a byte no patch covers is kept |
| `Symbols.HashBelow28Bits` | boot-loader/core/loader/symbols.c:35-48 | the hash of every string is below 2^28, with 32-bit wrap-around |
| `Symbols.ComputeHash` | boot-loader/core/loader/symbols.c:35-48 | the loop computes that hash |
| `Symbols.HashMeaning` | boot-loader/core/loader/symbols.c:40-45 | one character more shifts the hash by four bits and adds it; the bits above the 28th are exclusive-ored into bits 4 to 7 and cleared (Hash Table section, chapter 5 of the System V gABI) |
| `Symbols.HashOfShort` | boot-loader/core/loader/symbols.c:40-45 | so while nothing reaches those bits the hash is the number whose hexadecimal digits are the characters |
| `Symbols.BucketIsRemainder` | boot-loader/core/loader/symbols.c:61-63 | the bucket is the remainder of the hash by the number of buckets |
| `Symbols.WalkChain` | boot-loader/core/loader/symbols.c:65-69 | on a chain of a well-formed table the walk ends, at the first symbol of the name or at index 0 |
| `Symbols.FindSymbol` | boot-loader/core/loader/symbols.c:56-70 | the lookup walks the chain of the name's bucket |
| `Symbols.WalkIsComplete` | boot-loader/core/loader/symbols.c:56-70 | it finds a symbol of the name exactly when one exists at a non-zero index (Hash Table section, chapter 5 of the System V gABI) |
| `Symbols.SymbolsFindLinear` | boot-loader/core/loader/symbols.c:10-31 | the first entry whose name agrees in 64 characters |
| `Symbols.SymbolsFindHash` | boot-loader/core/loader/symbols.c:72-105 | the symbol of the chain walk, if it is a function or an object |
| `Symbols.HashFindMeaning` | boot-loader/core/loader/symbols.c:72-105 | a name that one symbol has gives that symbol's value, as a function or a variable, if it is a function or an object; otherwise, and for a name no symbol has, the lookup fails |
| `Symbols.LinearFinds` | boot-loader/core/loader/symbols.c:10-31 | the linear lookup answers with the export of another name exactly when an entry of another name agrees in 64 characters and none before it has the name; otherwise it finds the name if it is listed |
| `Symbols.LookupsAgreeExactly` | boot-loader/core/loader/symbols.c:10-105 | when the table lists exactly the functions and objects among the dynamic symbols, and nothing else has a listed name, both lookups give the same result for a name if and only if no such entry is there |
| `Symbols.LookupsAgree` | boot-loader/core/loader/symbols.c:10-105 | so they agree on every name when all listed names have less than 64 characters, whatever other symbols there are |
| `Symbols.StrNCmp` | boot-loader/core/utils/string.c:62-75 | equality up to n characters |
| `ModuleList.Pack` | tools/bl-modules.py:24-33 | the packed image, or an exception exactly when the count or the size of all modules together exceeds 32 bits |
| `ModuleList.WalkModules` | boot-loader/core/loader/loader.c:53-65 | hands over module bodies in order until a wrong magic or a module that does not load |
| `ModuleList.LoaderInit` | boot-loader/core/loader/loader.c:42-71 | a wrong list magic hands over nothing; otherwise the walk from behind the header |
| `ModuleList.FindEnd` | boot-loader/core/memory/heap.c:43-46 | the position behind the last module, or none at a wrong magic |
| `ModuleList.HeapStart` | boot-loader/core/memory/heap.c:41-50 | the heap start: the rounded end of the walk, unset at a wrong module magic, the rounded list address at a wrong list magic |
| `ModuleList.RoundTrip` | boot-loader/core/loader/loader.c:42-71 | walking the packer's output, whatever follows it, accepts every magic and hands over exactly the packed byte strings in order, up to the first that does not load; it ends behind the image |
| `ModuleList.HeaderFields` | tools/bl-modules.py:33 | the list header holds magic, count and the size of all modules without their headers |
| `ModuleList.ModuleFields` | tools/bl-modules.py:28-31 | each module lies behind the image of those before it: magic, size, its bytes |
| `ModuleList.WrongMagicStops` | boot-loader/core/loader/loader.c:53-57 | behind packed modules a wrong magic ends the loader's walk with INVALID_MODULE, all before it handed over, and leaves the heap's walk without an end |
| `ModuleList.WalkEndsBehindImage` | boot-loader/core/memory/heap.c:43-46 | the heap's walk over the packer's output ends behind it |
| `ModuleList.HeapStartIsLeast` | boot-loader/core/memory/heap.c:48 | the heap start is the least 16-byte boundary at or above that end |
| `ModuleList.WalkAcceptsOnlyPacked` | boot-loader/core/loader/loader.c:53-65 | conversely, what a complete walk accepts is byte for byte the packed form of what it handed over |
| `NtfsIndex.StrCmp` | boot-loader/modules/fs/ntfs/ntfs.c:123-134 | the loop gives the difference at the first mismatch or at the last stored character |
| `NtfsIndex.CompareMeaning` | boot-loader/modules/fs/ntfs/ntfs.c:123-134 | on ASCII stored names zero means: the stored name is a prefix of the sought one, ignoring case; any other answer has the sign of the true order |
| `NtfsIndex.CompareSign` | boot-loader/modules/fs/ntfs/ntfs.c:123-134 | the sign is that of the true order if and only if the stored name is not a proper prefix of the sought one |
| `NtfsIndex.CompareDifference` | boot-loader/modules/fs/ntfs/ntfs.c:123-134 | the answer is the difference of the first two characters that are not alike, or of those at the last stored one, letters taken as capitals and the sought name ended by a NUL |
| `NtfsIndex.CaseIgnored` | boot-loader/modules/fs/ntfs/ntfs.c:123-134 | names are the same, and one is a prefix of the other, exactly when their characters are the same but for ASCII case |
| `NtfsIndex.OrderMeaning` | boot-loader/modules/fs/ntfs/ntfs.c:123-134 | the true order is that of the first characters that are not alike, letters taken as capitals, a name coming behind its prefixes |
| `NtfsIndex.IterateDirectory` | boot-loader/modules/fs/ntfs/ntfs.c:321-467 | on every finite index the descend-and-scan loop ends where the recursive search does; for a parent that is a directory FILE_NOT_FOUND exactly when the search stops nowhere, INVALID_FILE_TYPE exactly when it stops at a file and a directory is asked for, otherwise the very entry it stops at; INVALID_FILE_TYPE for any other parent |
| `NtfsIndex.SearchIsSound` | boot-loader/modules/fs/ntfs/ntfs.c:355-405 | on every sorted index, for every name, the search stops only at a stored prefix of the name, and if it stops nowhere no stored name equals it |
| `NtfsIndex.HitIsStored` | boot-loader/modules/fs/ntfs/ntfs.c:355-405 | on any index, sorted and readable or not, the search stops only at a stored entry whose name is a prefix of the sought one |
| `NtfsIndex.SearchIsRight` | boot-loader/modules/fs/ntfs/ntfs.c:355-405 | when no stored name is a proper prefix of the sought one, it stops exactly when the in-order listing has an equal name, and then at one |
| `NtfsIndex.SearchRightExactly` | boot-loader/modules/fs/ntfs/ntfs.c:355-405 | for a sorted listing, every index tree holding it is searched rightly if and only if no stored name is a proper prefix of the sought one |
| `NtfsIndex.FlatGoesWrong` | boot-loader/modules/fs/ntfs/ntfs.c:401-405 | in a single-node index a stored proper prefix is taken for the sought name |
| `UhciPool.ChainsDisjoint` | boot-loader/modules/usb/uhci/uhci.c:131-159 | chains of queue heads in flight are acyclic and pairwise disjoint |
| `UhciPool.ChainIsWalk` | boot-loader/modules/usb/uhci/uhci.c:161-171 | the links in memory from a queue head's original element on are exactly its chain |
| `UhciPool.ChainsCoverUsed` | boot-loader/modules/usb/uhci/uhci.c:105-129 | chains in flight, under construction or lost to a failed construction cover exactly the descriptors marked used |
| `UhciPool.StepKeeps` | boot-loader/modules/usb/uhci/uhci.c:105-368 | taking a queue head, appending, starting, giving up, finishing, and any move of the controller keep the pool invariant |
| `UhciPool.ControllerIsFree` | boot-loader/modules/usb/uhci/uhci.c:161-226 | among the steps is every move of a controller that writes status words and element pointers |
| `UhciPool.RunKeeps` | boot-loader/modules/usb/uhci/uhci.c:105-368 | the pool invariant holds after every interleaving of such steps |
| `UhciPool.GivesBackWhatItTook` | boot-loader/modules/usb/uhci/uhci.c:213-226 | whatever happens between, a completed transfer unmarks exactly its queue head and the descriptors of its chain |
| `UhciDriver.Uhci.constructor` | boot-loader/modules/usb/uhci/uhci.c:428-461 | all descriptors free; the last queue head's mark is left to what the memory held |
| `UhciDriver.Uhci.AllocQh` | boot-loader/modules/usb/uhci/uhci.c:105-116 | takes a free queue head, or finds all in use |
| `UhciDriver.Uhci.AllocTd` | boot-loader/modules/usb/uhci/uhci.c:118-129 | takes a free descriptor, or finds all in use |
| `UhciDriver.Uhci.InitTd` | boot-loader/modules/usb/uhci/uhci.c:131-159 | a free descriptor with the wanted work, link terminated, status active |
| `UhciDriver.Uhci.ControlSubmit` | boot-loader/modules/usb/uhci/uhci.c:260-315 | a new chain over free descriptors holding SETUP, data and STATUS packets, its head in the queue head; without a free descriptor no chain is added |
| `UhciDriver.Uhci.BulkInterruptSubmit` | boot-loader/modules/usb/uhci/uhci.c:320-368 | a new chain holding the data packets; the endpoint's toggle moves on exactly when the transfer is started |
| `UhciDriver.Uhci.FreeTdList` | boot-loader/modules/usb/uhci/uhci.c:161-171 | following the links clears the marks of exactly the chain |
| `UhciDriver.Uhci.TransferFinished` | boot-loader/modules/usb/uhci/uhci.c:213-226 | finished exactly when the element pointer is terminated and zero, and then everything is given back; otherwise nothing changes |
| `UhciDriver.Uhci.WaitForTransfer` | boot-loader/modules/usb/uhci/uhci.c:242-258 | polling with the controller moving in between either gives the transfer back or leaves it in flight |
| `UhciDriver.Uhci.ControlTransfer` | boot-loader/modules/usb/uhci/uhci.c:260-318 | a control transfer that finishes leaves both pools marked as before it |
| `UsbPackets.PacketsAreRight` | boot-loader/modules/usb/uhci/uhci.c:337-360 | data packets tile the buffer without gap or overlap, all of full size but the last, with strictly alternating toggles |
| `UsbPackets.PacketsSameTarget` | boot-loader/modules/usb/uhci/uhci.c:342-346 | all data packets carry the transfer's pid, address and endpoint |
| `UsbPackets.ToggleGoesOn` | boot-loader/modules/usb/uhci/uhci.c:339-362 | the toggle saved for the endpoint is the opposite of the last packet's |
| `UsbPackets.ControlPacketsAreRight` | boot-loader/modules/usb/uhci/uhci.c:281-312 | SETUP carries the eight bytes at the setup pointer with toggle 0; the data stage goes in the data's direction, tiles the buffer in packets of the packet size, 8 for 0, with toggles 1, 0, 1, ...; STATUS is empty, with toggle 1 in the opposite direction; all go to the device's address, endpoint and speed (sections 8.5.3 and 8.6 of USB 2.0) |
| `UsbPackets.TogglesAlternateOverRuns` | boot-loader/modules/usb/uhci/uhci.c:333-362 | over any run of bulk or interrupt transfers on one endpoint the concatenated toggles strictly alternate |
| `UhciToken.TokenLengthExactly` | boot-loader/modules/usb/uhci/uhci.c:150-154 | the length field the controller reads is the wanted one if and only if the endpoint is an OUT endpoint or bit 1 of the length less one is set: the direction bit of the endpoint address is not masked |
| `UhciToken.TokenFields` | boot-loader/modules/usb/uhci/uhci.c:150-154 | packet id, device address, endpoint number and toggle lie in their fields whatever the endpoint's direction |
| `UhciToken.TransferLengthsExactly` | boot-loader/modules/usb/uhci/uhci.c:337-360 | the controller reads the sizes that tile the buffer from the tokens of a transfer if and only if the transfer is empty, its endpoint is an OUT endpoint, or that bit is set for the last packet and, when there are more, for the packet size |
| `OhciPool.RingsDisjoint` | boot-loader/modules/usb/ohci/ohci.c:343-384 | rings in flight are disjoint and hold no descriptor twice |
| `OhciPool.RingsCoverUsed` | boot-loader/modules/usb/ohci/ohci.c:142-154 | rings in flight, under construction or lost cover exactly the descriptors marked used |
| `OhciPool.StepKeeps` | boot-loader/modules/usb/ohci/ohci.c:142-454 | every step of driver or controller keeps the pool invariant |
| `OhciPool.ControllerIsFree` | boot-loader/modules/usb/ohci/ohci.c:202-284 | among the steps is every move of a controller that writes the links it follows, what descriptors ask for, head pointers and halted bits |
| `OhciPool.RunKeeps` | boot-loader/modules/usb/ohci/ohci.c:142-454 | the pool invariant holds after every interleaving of such steps |
| `OhciPool.GivesBackWhatItTook` | boot-loader/modules/usb/ohci/ohci.c:270-284 | whatever happens between, a transfer that ends clears exactly the descriptors of its ring |
| `OhciDriver.RingFromTail` | boot-loader/modules/usb/ohci/ohci.c:202-214 | whatever the controller wrote, the driver-owned links lead from the tail once round the ring |
| `OhciDriver.Ohci.InitTd` | boot-loader/modules/usb/ohci/ohci.c:142-200 | a free descriptor with the wanted work, or none |
| `OhciDriver.Ohci.ControlSubmit` | boot-loader/modules/usb/ohci/ohci.c:343-388 | a new ring over free descriptors holding the packets of a control transfer, the endpoint's head and tail pointers at its ends, neither halted nor skipped |
| `OhciDriver.ControlWorkIsRight` | boot-loader/modules/usb/ohci/ohci.c:340-384 | what a control transfer puts on the ring: SETUP with the eight bytes at the setup pointer and toggle 0; the data stage, or without data an empty STATUS packet; an empty STATUS packet in the opposite direction under the tail; all for the device's address, endpoint and speed |
| `OhciDriver.Ohci.BulkPrepare` | boot-loader/modules/usb/ohci/ohci.c:399-463 | a new ring holding the data packets and the packet the tail rests on; the saved toggle |
| `OhciDriver.BulkWorkIsRight` | boot-loader/modules/usb/ohci/ohci.c:417-441 | what a bulk transfer puts on the ring: packets that tile the buffer with alternating toggles, and under the tail an empty packet in the other direction with the toggle of the last of them |
| `OhciDriver.Ohci.FreeTdList` | boot-loader/modules/usb/ohci/ohci.c:202-214 | the loop ends and clears every descriptor of the ring exactly once, from the given one on |
| `OhciDriver.Ohci.TransferFinished` | boot-loader/modules/usb/ohci/ohci.c:270-284 | finished exactly when not halted and head equals tail, and then the ring is freed; otherwise nothing changes |
| `OhciDriver.Ohci.ControlTransfer` | boot-loader/modules/usb/ohci/ohci.c:320-397 | a control transfer that finishes restores the pool's used set |
| `OhciDriver.BulkToggleRepeats` | boot-loader/modules/usb/ohci/ohci.c:433-453 | the first packet of the next bulk transfer always repeats the toggle of the last data packet of this one |
| `FrameBuffer.DirtyBoxIsBounding` | boot-loader/core/video/fb.c:85-128 | the area kept is the least box around everything drawn since the last flush, and there is one exactly when something was |
| `FrameBuffer.LastDrawnMeaning` | boot-loader/core/video/fb.c:85-424 | what counts as drawn at a pixel is the picture of the last operation whose rectangle holds it |
| `FrameBuffer.NeverDrawn` | boot-loader/core/video/fb.c:85-424 | and nothing where no rectangle holds it |
| `FrameBuffer.FrameBuffer.UpdateDirtyArea` | boot-loader/core/video/fb.c:85-128 | x, y, w and h after the update are those of the least box around the old area and the rectangle |
| `FrameBuffer.FrameBuffer.FillRectangle` | boot-loader/core/video/fb.c:336-424 | the rectangle is painted in the colour, cut down to the bytes of a pixel, and remembered; every drawn pixel outside the dirty area stays the same in back buffer and screen |
| `FrameBuffer.FrameBuffer.BlitGlyph` | boot-loader/core/video/fb.c:136-248 | a character below 0x20 draws nothing; any other draws an 8x16 rectangle, keeping the same invariant |
| `FrameBuffer.FrameBuffer.Flush` | boot-loader/core/video/fb.c:309-334 | afterwards every pixel ever drawn shows its last drawn value, and the area kept is empty |
| `FrameBuffer.FrameBuffer.Paint` | boot-loader/core/video/fb.c:336-410 | exactly the pixels of the rectangle change |
| `FrameBuffer.FrameBuffer.CopyArea` | boot-loader/core/video/fb.c:324-331 | exactly the pixels of the dirty area are copied |
| `GuiApp.PutAllConcat` | boot-loader/core/gui/gui-app.c:41-56 | printing two strings is printing their concatenation |
| `GuiApp.PutAllFits` | boot-loader/core/gui/gui-app.c:41-56 | the cursor stays inside rows x cols and the last column is never used |
| `GuiApp.PageIsLayout` | boot-loader/core/gui/gui-app.c:41-56 | the active page holds the last page of the text cut into lines at newlines and before the last column |
| `GuiApp.Page.Reset` | boot-loader/core/gui/bitmap.c:107-117 | the page is empty again although bl_memset leaves its last byte |
| `GuiApp.Gui.SwapPages` | boot-loader/core/gui/gui-app.c:21-29 | the other page becomes active and empty, the one that was active is kept as it is |
| `GuiApp.Gui.UpdatePages` | boot-loader/core/gui/gui-app.c:31-57 | the page buffers hold the text, and pages swapped are noted |
| `GuiApp.Gui.CleanScreen` | boot-loader/core/gui/gui-app.c:59-83 | every cell is blank, though the last one is not drawn |
| `GuiApp.Gui.Repaint` | boot-loader/core/gui/gui-app.c:98-114 | from the last updated position on, skipping line ends, the window comes to show the whole page |
| `GuiApp.Gui.Flush` | boot-loader/core/gui/gui-app.c:85-115 | after a flush the window is a full rendering of the active page |
| `GuiApp.Gui.Print` | boot-loader/core/gui/gui-app.c:119-122 | after every print of any string the window is a full rendering of the active page, made by the glyphs sent to the frame buffer |
| `ShellScreen.Print` | boot-loader/core/gui/gui-app.c:119-126 | after a print and the update of the display every pixel of every cell that is not blank, or that a glyph was ever sent to, shows the character of the active page |
| `GuiApp.PrintRun` | boot-loader/core/gui/gui-app.c:31-57 | however a text is cut into prints, the page in the end is that of printing it at once, with the cursor inside the window |
| `PathTokens.TokensAreComponents` | boot-loader/core/utils/string.c:256-293 | the tokens are exactly the non-empty components of the path |
| `PathTokens.StrNDup` | boot-loader/core/utils/string.c:224-242 | the allocation holds n + 1 characters, or the string and its NUL if that is shorter; the byte behind it becomes a NUL and the memory behind that is kept |
| `PathTokens.DuplicateMeaning` | boot-loader/core/utils/string.c:224-242 | as a C string the copy is one character longer than asked for; it is right if and only if the whole string was asked for |
| `PathTokens.Tokeniser.Next` | boot-loader/core/utils/string.c:267-293 | the token, the memory and the cursor are those of skipping delimiters, ending at the next NUL or delimiter and writing a NUL there, whatever the memory holds |
| `PathTokens.NextInPath` | boot-loader/core/utils/string.c:267-293 | in a copied path the next token is the next component, cut off by a NUL; behind the last one the cursor stands one byte behind the copy, unless the path ends in a delimiter |
| `PathResolution.Resolve` | boot-loader/core/fs/file.c:31-64 | the stack of files never loses its root |
| `PathResolution.ResolveMeaning` | boot-loader/core/fs/file.c:33-57 | wherever the walk stands and whatever follows, `.` does nothing, `..` goes up but not above the root, and any other name is looked up in the directory on top, as a directory unless it ends the path; its error ends the walk |
| `PathResolution.ResolveInParts` | boot-loader/core/fs/file.c:31-64 | resolving a longer path is resolving its beginning as a directory and the rest from there |
| `PathResolution.UpUndoesDown` | boot-loader/core/fs/file.c:42-57 | going down into a directory and up again changes nothing; up from the root stays at the root |
| `PathResolution.Component` | boot-loader/core/fs/file.c:42-57 | one component takes the stack of files one step of the fold; the memory behind the copy is left as others left it exactly when a callback or a close has run: not for `.`, and for `..` below the root only |
| `PathResolution.CleanUp` | boot-loader/core/fs/file.c:66-74 | nodes below the top are closed and freed, the top is only freed |
| `PathResolution.IteratePath` | boot-loader/core/fs/file.c:23-79 | the file reached or the error is that of the walk over the copy in memory, whatever others do to the memory behind it; on every exit the root and each node made are freed exactly once, and the data of all but the final top closed exactly once |
| `PathWalk.WalkIsFold` | boot-loader/core/fs/file.c:31-64 | that walk is the fold of the path's components when the path ends in a delimiter, no name comes before the last component, or the byte behind the copy stays a NUL |
| `PathWalk.WalkRunsOn` | boot-loader/core/fs/file.c:31-64 | if others leave a token behind the copy, the path's last component is asked for as a directory and the token is resolved as a further one |
| `PathHeap.StoreBegins` | boot-loader/core/utils/string.c:224-242 | the NUL stored behind the copy leaves the heap whole, so that a history can go on from there, exactly when it does not damage the list of blocks |
| `PathHeap.UnalignedStaysNul` | boot-loader/core/fs/file.c:31-64 | behind a copy whose length is no multiple of 16 the NUL stays, whatever callbacks request, free and write |
| `PathHeap.MenuListRunsOn` | boot-loader/core/fs/file.c:31-64 | with one 16-byte block before the copy and requests of 16 and 8 bytes by a callback, /boot/menu.list is walked as boot, menu.list and p, in every file system |
| `PathHeap.WalkIsFoldExactly` | boot-loader/core/fs/file.c:31-64 | for every file system and everything callbacks do with the heap the walk is the fold of the path's components, if and only if the copy's length is no multiple of 16, the path ends in a delimiter, or no name comes before its last component |
| `FatChain.StorageRead` | boot-loader/core/storage/storage.c:106-142 | bytes [offset, offset + size) behind the sector go to the buffer, nothing else changes; an error exactly if the disk lacks one of the sectors that cover them |
| `FatChain.ReadChain` | boot-loader/modules/fs/fat/fat.c:158-203 | status and bytes of the chain read: every cluster is read from the same offset on |
| `FatChain.DataRegion` | boot-loader/modules/fs/fat/fat.c:116-120 | cluster 2 begins the data region and clusters follow one another without a gap while sector numbers do not wrap |
| `FatChain.ChainMeaning` | boot-loader/modules/fs/fat/fat.c:134-156 | cluster number k of a file is the k-th of the chain its FAT entries spell out up to a 0 or the end mark, and there is none behind it |
| `FatChain.PieceDecides` | boot-loader/modules/fs/fat/fat.c:167-200 | how a read ends is decided by the first piece that is missing: FILE_NOT_FOUND without its cluster, an error without its sectors; without one it succeeds |
| `FatChain.ReadRightExactly` | boot-loader/modules/fs/fat/fat.c:158-203 | whatever the disk holds the read delivers the bytes of the file, if and only if no piece of it runs beyond its cluster, save into one that lies behind it on the disk |
| `FatChain.SimpleReadsContiguous` | boot-loader/modules/fs/fat/fat.c:158-203 | reads from a cluster boundary and reads within one cluster meet that condition |
| `FatChain.ReadIsSlice` | boot-loader/modules/fs/fat/fat.c:158-203 | such a read of positive size gives bytes [offset, offset + size) of the concatenated clusters if the chain is long enough and FILE_NOT_FOUND otherwise |
| `UsbTraversal.Traversal.Push` | boot-loader/core/bus/usb/usb-traversal.c:9-13 | a hub is appended, or dropped when 126 have been pushed |
| `UsbTraversal.Traversal.Pop` | boot-loader/core/bus/usb/usb-traversal.c:15-21 | hubs come back in the order they were pushed |
| `UsbTraversal.QueueIsLevelOrder` | boot-loader/core/bus/usb/usb.c:297-315 | emptying an unbounded queue visits a forest level by level |
| `UsbTraversal.VisitsEachHubOnce` | boot-loader/core/bus/usb/usb.c:297-315 | level order holds each hub as often as the tree does |
| `UsbTraversal.DumpsEachDeviceOnce` | boot-loader/core/bus/usb/usb.c:300-314 | what level order dumps is each attached device of the tree exactly once |
| `UsbTraversal.DumpDevices` | boot-loader/core/bus/usb/usb.c:287-318 | the walk ends and dumps what hangs off the first 126 hubs in breadth-first order |
| `UsbTraversal.VisitsAllExactly` | boot-loader/core/bus/usb/usb-traversal.c:9-13 | the walk visits every hub if and only if the tree has at most 126 |
| `UsbTraversal.DumpLacks` | boot-loader/core/bus/usb/usb.c:287-318 | the dump lacks exactly what hangs off the hubs that were dropped |
| `UsbTraversal.DumpedCompletelyExactly` | boot-loader/core/bus/usb/usb.c:287-318 | every device is dumped as often as it hangs in the tree if and only if nothing is attached to the hubs beyond the 126th |
| `UsbTraversal.SmallTreeDumpedCompletely` | boot-loader/core/bus/usb/usb.c:287-318 | with at most 126 hubs every attached device is dumped as often as it hangs in the tree |

## Left out

- Heap.Heap.AllocAlign: memory is an array of aligned 32-bit words, the width of the header fields, and payload stores are word stores; requests whose addresses wrap or leave the memory are outside the contract, as the code does not check for them.
- Heap.Heap.Free: an aligned address must belong to a block; the code reads a header wherever it points.
- HeapClients.LoadStaysInImage: the heap's words and the linker's bytes are two views of one memory, joined by addresses; the two requests before the image (module record and segment table) are summed up as a heap that is in use. Every patched word lies inside the memory. `Linkable` names the objects whose relocations are all for loaded sections and do not overlap.
- ElfObject.AdmissibleFits: alignments are powers of two, or 0 where nothing is loaded; the code accepts others, and 0 sends a loaded section to address 0 (`Bits.AlignUpToZero`).
- Memory.Memset: the bytes written lie in the memory, also the 2^32 - 1 of a zero count.
- ElfLoad.Loader.Load: the ELF header check, the module name and already-loaded checks, the module record and the allocation of the image are not modelled; the memory the allocator returned is a parameter.
- ElfStray.LinkKeepsOutsideExactly: patched words that overlap each other, or that lie across the edge of a section, are left out.
- ElfLink.LinkMeaning: content is stated for PROGBITS sections only, and for patched words that lie inside loaded sections and do not overlap.
- ElfLoad.Loader.Relocate: relocation entries are given decoded, the object file and the symbol tables being separate from the memory that is patched.
- Symbols.SymbolsFindHash: the static result buffer, which the next lookup overwrites, is returned as a value.
- ModuleList.LoaderInit: whether a module loads is a parameter, the position of the first that does not.
- NtfsIndex.StrCmp: a stored name is not empty; for an empty one the code's byte counter wraps and the loop reads on behind the entry.
- NtfsIndex.IterateDirectory: nodes are finite, given as decoded entries, and read by an abstract function of their VCN that may fail; data runs, the read of the found file's record, allocations and the release of index nodes are not modelled. Stored names are non-empty and ASCII, since a negative char would sort before the end of the sought name.
- UhciDriver.Uhci.WaitForTransfer: the status made of an unfinished transfer's error bits is not modelled, nor are the times waited.
- UhciDriver.Uhci.BulkInterruptSubmit: the packet size is positive and the transfer not empty, as its callers have it; the use of a null queue head after a failed bulk transfer is not modelled.
- UhciDriver.Uhci.TransferFinished: a finished queue head is not polled again.
- OhciDriver.Ohci.ControlSubmit: which endpoint descriptor serves an address, its flags other than skip, and the lists that link endpoint descriptors are not modelled.
- OhciDriver.Ohci.BulkPrepare: no continuity of toggles is claimed, because the code does not have it.
- FrameBuffer.FrameBuffer.FillRectangle: buffers are two-dimensional arrays of pixels, so pitch and the split of a pixel into bytes are not modelled; rectangles lie on the screen and no renderer is set.
- FrameBuffer.FrameBuffer.BlitGlyph: the merge of glyph and background is an arbitrary picture inside the 8x16 rectangle; `bl_fb_set_pixel`, which bypasses the dirty area, is not among the steps.
- GuiApp.Gui.Print: a cell holds a character instead of pixels; the prompt is not modelled.
- ShellScreen.Print: nothing but the shell draws on its window, and the display is updated after every print, as it is once the shell is prepared.
- PathTokens.StrNDup: null strings are left out and the allocation always succeeds.
- PathTokens.Tokeniser.Next: positions behind the end of the memory read as NUL, and a NUL written there is lost.
- PathResolution.IteratePath: allocation of the copy always succeeds; what a callback answers depends on the name, the flag and the directory only; the clean-up reads a node's link after freeing it, which the model allows.
- PathHeap.WalkIsFoldExactly: histories begin in heaps that the NUL behind the copy leaves whole (`PathHeap.StoreBegins`), and what a NUL cut into a header by `bl_strtok` does to the heap afterwards is not modelled; a path has less than 2^31 characters, since it and its copy lie in a 32-bit memory.
- FatChain.ReadChain: the FAT is an abstract successor function; sectors have 512 bytes.
- FatChain.StorageRead: allocation of the bounce buffer always succeeds.
- UsbTraversal.DumpDevices: allocation of the queue always succeeds; printing is the sequence of devices dumped.
- xHCI and EHCI: ring wrap-around is unfinished in the one, the page loop does not advance in the other.
- ext, ACPI, decimal printing, NTFS `ls` and FAT12 packing: unfinished, disabled or without a clean promise.
- Port I/O, PCI, firmware calls, timers, keyboards, video modes and shell commands: hardware and firmware plumbing.

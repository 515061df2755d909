# Nachos user address spaces and the FIFO scheduler, in Dafny

This project models two parts of the Nachos teaching kernel (the MP2 version with a
frame allocator).

**The address-space manager** (`code/userprog/addrspace.cc`):

- **Load** reads the NOFF header of an executable. It byte-swaps the header when the magic
  number matches only after swapping.
- It sizes the address space as the segment sizes plus the user stack. Then it builds a page
  table, mapping virtual page `i` to a frame from the kernel's allocator, and clears each frame.
- It copies the code, initialised-data and read-only-data segments from the file into
  physical memory. Each copy loop works in chunks that never cross a page boundary
  (`calChunkSize`). Each chunk goes to the physical address that `Translate` gives for the
  chunk's first byte.
- **Translate** maps a virtual address to a physical one, raising an address-error,
  read-only or bus-error exception. On success it sets the page's use bit, and its dirty bit
  on a write.
- **The destructor** frees the frames in the frame-usage table. **InitRegisters** sets up the
  user registers. **RestoreState** installs the page table in the machine.

**The scheduler** (`code/threads/scheduler.cc`):

- A FIFO ready list: `ReadyToRun` appends and `FindNextToRun` removes the front.
- **Run** dispatches the CPU. It is split at the machine-dependent context switch (`SWITCH`)
  into `RunBeforeSwitch` and `RunAfterResume`.
- **CheckToBeDestroyed** deletes, after the switch, a thread that finished.

Layout:

| file | module | contents |
|---|---|---|
| `wrappers.dfy` | `Wrappers` | `Option` |
| `noff.dfy` | `Noff` | header words, `WordToHost`, `SwapHeader` and the byte-order check (`HostHeader`) |
| `paging.dfy` | `Paging` | memory constants, page-table entries, translation as a function, `calChunkSize`, the chunk sequence, the unchunked segment copy, the loaded image, the virtual-to-physical map |
| `addrspace.dfy` | `UserProg` | register constants and the initial register file, the `Machine`, the frame-usage table and the `AddrSpace` class with its methods |
| `scheduler.dfy` | `Threads` | `Thread`, `Kernel`, the ready list as a queue value, and the `Scheduler` class |

Physical memory is an `array<bv8>` of `MEMORY_SIZE` bytes. The executable is a `seq<bv8>`.

**The allocator.** `setPhyAddr` is not part of this model. It is represented by `supply`:
the frames it hands out in order, before it starts returning -1. Each frame is in range and
none appears twice (`FrameSupply`); that is an assumption about the allocator, not something
proved here.

**What Load promises.** Load is proved against `LoadedImage`, a function of the header and
the file: the virtual image that results from zero-filling the pages and then copying the
three segments unchunked. On success, physical memory at `PhysOf(frames, v)` holds
`LoadedImage(h, file)[v]` for every virtual address `v` of the space (`Maps`). No byte
outside the new frames changes.

**The copy loop.** `LoadSegment` is proved chunk by chunk against the unchunked copy
`CopySegment`. Its loop invariant is `CopyProgress`. `CopyProgressStep` covers one pass of
the loop: `MarkStep` covers the chunk's `Translate`, and `ChunkCopied` covers the `ReadAt`
that follows it.

**The chunk sequence.** `Chunks`, the chunks that `calChunkSize` cuts a segment into, is a
separate value-level statement of the same chunking. The loop proof does not use it.
`ChunksTile` shows that the chunks tile the segment page by page. `ChunkedCopyIsUnchunked`
shows that copying them one by one gives the unchunked copy, with `CopySegmentSplit` joining
consecutive chunks.

**Deviations.** Where the C code has a fatal `ASSERT` on data read from the file, the model
returns `Aborted(...)`: a bad magic number, or the allocator running out of frames. An
`ASSERT` on the caller's state (the interrupt level, an empty `toBeDestroyed`) is a
precondition.

**Build configuration.** The model follows the `RDATA` build: the header has a read-only-data
segment, which is swapped, counted in the size and copied.

**Constants.** `machine.h`, `addrspace.h`, `noff.h`, `thread.cc` and `list.h` are not part of
this model. Their constants are taken to be the standard Nachos values:

- `PageSize` 128, `NumPhysPages` 128, `UserStackSize` 1024;
- `NumTotalRegs` 40, `StackReg` 29, `PCReg` 34, `NextPCReg` 35;
- `NOFFMAGIC` 0xbadfad.

Header words are little-endian in the file, in the order: magic; code, initData,
readonlyData, uninitData; each segment as `virtualAddr, inFileAddr, size`.

## Model

| member | source | states |
|---|---|---|
| `Noff.WordToHost` | code/userprog/addrspace.cc:34 | the swapped word has the four bytes of the original in reverse order |
| `Noff.WordToHostInvolution` | code/userprog/addrspace.cc:112 | swapping a word twice gives it back |
| `Noff.WordAt` | code/userprog/addrspace.cc:111 | each header word is assembled from the four file bytes at its offset, least significant first |
| `Noff.ReadHeader` | code/userprog/addrspace.cc:111 | header word i (magic, then each segment's virtualAddr, inFileAddr, size) is the little-endian word at file offset 4*i |
| `Noff.SwapHeader` | code/userprog/addrspace.cc:31-50 | every one of the 13 header words, the magic number included, has its bytes reversed |
| `Noff.SwapHeaderInvolution` | code/userprog/addrspace.cc:31-50 | SwapHeader reverses every word of the header, so applying it twice restores the header |
| `Noff.HostHeader` | code/userprog/addrspace.cc:112-115 | the header is kept when its magic matches and swapped when only the swapped magic matches; the result carries NOFFMAGIC exactly when one of the two byte orders matches |
| `Noff.ForeignHeaderRestored` | code/userprog/addrspace.cc:112-115 | a valid header written in the other byte order is recognised and restored exactly |
| `Noff.AcceptedMagic` | code/userprog/addrspace.cc:112-115 | the ASSERT after the check passes exactly when the raw magic is NOFFMAGIC or its byte reversal |
| `Paging.Translation` | code/userprog/addrspace.cc:363-401 | address error iff vpn >= numPages; read-only exception iff a write hits a read-only page; bus error iff the frame is >= NumPhysPages; on any exception the table is unchanged; on success paddr = frame*PageSize + offset < MemorySize, the entry's mapping is kept, use is set, dirty is set by a write and otherwise kept, and no other entry changes |
| `Paging.TranslationIdempotent` | code/userprog/addrspace.cc:389-394 | translating the same address twice yields the same outcome and address, and the second call changes no entry |
| `Paging.ReadOfReadOnlyPage` | code/userprog/addrspace.cc:376-391 | reading a read-only page succeeds and leaves its dirty bit alone; writing it raises a read-only exception |
| `Paging.TranslationIsPhysOf` | code/userprog/addrspace.cc:380-394 | for a page table over distinct in-range frames, every address of the space translates without exception to PhysOf of the frames |
| `Paging.DivRoundUp` | code/userprog/addrspace.cc:129 | numPages is the least page count whose bytes cover size |
| `Paging.NumPages` | code/userprog/addrspace.cc:117-129 | numPages is the least page count covering `size`, the 32-bit sum of the four segment sizes and UserStackSize (`SpaceSize`) |
| `Paging.CalChunkSize` | code/userprog/addrspace.cc:404-410 | for a non-negative start and something left to read, the chunk is 1..unReadSize bytes, no larger than the room left in the page, ends either the segment or the page, and lies within one page |
| `Paging.InChunkPage` | code/userprog/addrspace.cc:404-410 | every byte of a chunk lies in the chunk's first page, at its first byte's offset plus its distance |
| `Paging.Chunks` | code/userprog/addrspace.cc:194-203 | the chunk sequence is empty exactly for a non-positive size, and otherwise starts at the segment's address |
| `Paging.ChunksTile` | code/userprog/addrspace.cc:194-203 | the chunks' sizes add up to the segment size; the first starts at the segment's address; each starts where the previous ended, so file offsets advance contiguously; each fits its page |
| `Paging.ChunksSum` | code/userprog/addrspace.cc:194-203 | the chunk sizes add up to the segment size |
| `Paging.ChunksFit` | code/userprog/addrspace.cc:194-203 | every chunk starts at or after the segment's address and fits the rest of its page |
| `Paging.ChunksContiguous` | code/userprog/addrspace.cc:194-203 | the first chunk starts at the segment's address, each next one where the previous ended, and the last ends with the segment |
| `Paging.UnalignedTenBytes` | code/userprog/addrspace.cc:404-410 | a 10-byte segment 5 bytes before a page boundary is copied as two 5-byte chunks |
| `Paging.ReadCount` | code/userprog/addrspace.cc:199 | ReadAt delivers at most the bytes asked for and never reads past the end of the file |
| `Paging.CopySegment` | code/userprog/addrspace.cc:182-206 | the unchunked copy keeps the image's length |
| `Paging.CopySegmentSplit` | code/userprog/addrspace.cc:194-203 | copying done bytes and then the next c bytes equals copying done + c bytes |
| `Paging.CopyChunks` | code/userprog/addrspace.cc:194-203 | a chunk-by-chunk copy keeps the image's length |
| `Paging.ChunkedCopyIsUnchunked` | code/userprog/addrspace.cc:194-203 | copying the segment chunk by chunk, each chunk from the file offset matching its address, gives exactly the unchunked copy |
| `Paging.ChunkedCopyFrom` | code/userprog/addrspace.cc:194-203 | after done bytes, copying the remaining chunks completes the unchunked copy |
| `Paging.FramesOf` | code/userprog/addrspace.cc:136-140 | the frames of a page table, in virtual-page order |
| `Paging.PhysOf` | code/userprog/addrspace.cc:394 | the physical address of a virtual one lies in memory, in the frame of its page, at the same offset |
| `Paging.PhysOfInjective` | code/userprog/addrspace.cc:136-151 | with distinct frames, no two virtual addresses share a physical byte |
| `Paging.ChunkCopied` | code/userprog/addrspace.cc:197-199 | reading a chunk into memory at its translated address extends the copied part of the segment by that chunk, and writes only into the space's frames |
| `Paging.PagesGrow` | code/userprog/addrspace.cc:196-198 | the pages a copy has translated grow by exactly the page of the next chunk |
| `Paging.Zeros` | code/userprog/addrspace.cc:149-150 | the cleared image is all zero bytes |
| `Paging.ImageVisible` | code/userprog/addrspace.cc:363-401 | once memory shows an image through a page table, reading any virtual byte translates without exception to a physical byte holding the image's byte |
| `Paging.LoadedImage` | code/userprog/addrspace.cc:182-258 | the loaded image spans exactly numPages pages |
| `Paging.LoadedImageAt` | code/userprog/addrspace.cc:182-258 | each loaded byte is the file byte of the last segment covering it (code, then initData, then readonlyData) that has a byte in the file there, and zero otherwise |
| `Paging.MarkStep` | code/userprog/addrspace.cc:198 | the loop's write translation succeeds, lands on PhysOf, keeps every frame, and marks the page of the next chunk used and dirty |
| `Paging.LoadMarks` | code/userprog/addrspace.cc:182-258 | after the three segment copies, a page is used and dirty exactly when some copied segment spans it, and nothing else in the table changes |
| `UserProg.InitialRegisters` | code/userprog/addrspace.cc:308-324 | 40 registers; PCReg is 0, NextPCReg is 4, StackReg is the stack top, and every other register is 0 |
| `UserProg.StackInsideSpace` | code/userprog/addrspace.cc:324 | for 1..NumPhysPages pages, the initial stack pointer is numPages*PageSize - 16: inside the space and word-aligned |
| `UserProg.Bzero` | code/userprog/addrspace.cc:149-150 | exactly the PageSize bytes of the frame become zero |
| `UserProg.ReadAt` | code/userprog/addrspace.cc:199 | exactly the bytes ReadAt delivers are written, at the target address, from the file position on; memory elsewhere is unchanged |
| `UserProg.AddrSpace.constructor` | code/userprog/addrspace.cc:69-70 | a new address space has no pages |
| `UserProg.AddrSpace.Translate` | code/userprog/addrspace.cc:363-401 | the exception, physical address and new page table are those of Translation on the old table |
| `UserProg.AddrSpace.BuildPageTable` | code/userprog/addrspace.cc:135-151 | succeeds iff the allocator has a frame for every page; entry i maps page i to the i-th frame, valid, writable, unused and clean; every frame is zero; no byte outside the frames changes |
| `Paging.CopyProgressStep` | code/userprog/addrspace.cc:194-203 | one loop pass (write translation of the chunk's first byte, then ReadAt of the chunk there) advances the loop state from done to done + chunkSize copied bytes: frames kept, the chunk's page marked, memory showing the longer copy, nothing outside the frames changed |
| `Paging.SegmentImageAt` | code/userprog/addrspace.cc:182-258 | one segment's copy holds, at each virtual address, the segment's file byte where the segment has one there, and the old byte elsewhere |
| `UserProg.AddrSpace.CopyChunk` | code/userprog/addrspace.cc:197-203 | one pass of the copy loop keeps the loop state, advanced by the chunk's size |
| `UserProg.AddrSpace.LoadSegment` | code/userprog/addrspace.cc:182-206 | memory then shows the segment copied into the image; the pages it spans are marked used and dirty; no byte outside the frames changes |
| `UserProg.AddrSpace.CopySegmentIn` | code/userprog/addrspace.cc:209-231 | a segment is copied only when its size is positive |
| `UserProg.AddrSpace.CopySegments` | code/userprog/addrspace.cc:182-258 | after the three copies, the frames show LoadedImage; each entry is used and dirty exactly when a segment spans its page |
| `UserProg.AddrSpace.LoadWithHeader` | code/userprog/addrspace.cc:117-258 | for a header whose segments lie inside the space whenever the frames suffice: fails exactly when the allocator has fewer frames than the header's page count; on success the space is LoadedAs the header: numPages = divRoundUp(size, PageSize), page i maps to the i-th frame and is used and dirty exactly when a segment spans it, memory shows LoadedImage, and no other frame changes |
| `UserProg.OutOfFramesUnrestricted` | code/userprog/addrspace.cc:136-148 | Load's precondition never excludes a file whose pages outnumber the frames, so every such file reaches the out-of-frames abort |
| `UserProg.AddrSpace.Load` | code/userprog/addrspace.cc:97-263 | FALSE iff the file cannot be opened; aborts on a bad magic or when frames run out, each iff its condition holds; on success numPages = divRoundUp(size, PageSize), the table maps page i to the i-th allocated frame, memory at every virtual address holds LoadedImage, and no other frame changes |
| `UserProg.AddrSpace.Deallocate` | code/userprog/addrspace.cc:77-82 | every frame of the page table is marked free; no other entry of the usage table changes |
| `UserProg.AddrSpace.InitRegisters` | code/userprog/addrspace.cc:303-325 | every register is 0 except NextPCReg = 4 and StackReg = numPages*PageSize - 16 (as a 32-bit value) |
| `UserProg.AddrSpace.SaveState` | code/userprog/addrspace.cc:336-337 | nothing of the address space changes |
| `UserProg.AddrSpace.RestoreState` | code/userprog/addrspace.cc:347-351 | the machine's page table and its size become this space's |
| `UserProg.ZeroedFrameAdded` | code/userprog/addrspace.cc:148-150 | clearing the next allocated frame extends the all-zero image by one page and touches no other frame |
| `Threads.Thread.SaveUserState` | code/threads/scheduler.cc:142 | the thread's saved registers become the machine's registers |
| `Threads.Thread.RestoreUserState` | code/threads/scheduler.cc:210 | the machine's registers become the thread's saved registers |
| `Threads.Enqueue` | code/threads/scheduler.cc:69 | the list grows by one; the old list is its prefix and the new thread is last |
| `Threads.Dequeue` | code/threads/scheduler.cc:92-100 | NULL exactly on an empty list, which stays unchanged; otherwise the list is the returned front followed by the rest |
| `Threads.EnqueueAllAppends` | code/threads/scheduler.cc:69 | appending threads one at a time queues them behind the list in order |
| `Threads.DrainYieldsInOrder` | code/threads/scheduler.cc:92-100 | removing from a list returns its elements front first, then NULL on every further call |
| `Threads.FifoOrder` | code/threads/scheduler.cc:14-15 | after ReadyToRun of t1..tn on an empty list, n calls of FindNextToRun return t1..tn in order, then NULL |
| `Threads.Scheduler.constructor` | code/threads/scheduler.cc:32-36 | the ready list is empty and toBeDestroyed is NULL |
| `Threads.Scheduler.ReadyToRun` | code/threads/scheduler.cc:56-69 | requires interrupts off; the thread becomes READY and is appended; the all-READY, duplicate-free list invariant is kept for a thread not yet queued |
| `Threads.Scheduler.FindNextToRun` | code/threads/scheduler.cc:87-101 | requires interrupts off; the result and new list are Dequeue of the old list; the returned thread's status is untouched and the list invariant is kept |
| `Threads.Scheduler.RunBeforeSwitch` | code/threads/scheduler.cc:121-157 | requires interrupts off, and an empty toBeDestroyed when finishing; toBeDestroyed becomes the old thread exactly when finishing; user registers are saved only for a thread with an address space; the next thread becomes current and RUNNING; the ready list is unchanged and, when the next thread is not on it, keeps its invariant |
| `Threads.Scheduler.CheckToBeDestroyed` | code/threads/scheduler.cc:223-230 | the slot ends empty; the waiting thread, if any, is destroyed once; on an empty slot nothing happens |
| `Threads.Scheduler.RunAfterResume` | code/threads/scheduler.cc:195-212 | the finished thread is destroyed; the resumed thread's registers and page table are reinstalled exactly when it has an address space |

## Left out

- `SWITCH` itself is not modelled: it is the boundary between `RunBeforeSwitch` and
  `RunAfterResume`. So are `CheckOverflow`, `AddrSpace::Execute` and `machine->Run()`,
  which never returns.
- File-system I/O is not modelled:
  - `Open` becomes an `Option` argument of `Load`, where `None` means the file cannot be opened.
  - `ReadAt` is a slice copy from an immutable byte sequence.
  - `delete executable` is left out.
- `setPhyAddr` is represented by the `supply` argument; its internals are not part of this
  model. That the frames it hands out are distinct and in range (`FrameSupply`) is assumed.
- `DEBUG` output, `cerr`, `Print` and `ThreadPrint` are left out.
- `WordToHost` is modelled as an unconditional byte reversal; the host-endianness test is left out.
- `SaveState` has no effect, as in the source. `delete pageTable` in the destructor and
  `~Scheduler` are not modelled: Dafny memory is not freed explicitly.
- `UserProg.AddrSpace.constructor`: the source leaves `numPages` and `pageTable`
  uninitialised; the model starts with an empty table.
- `UserProg.AddrSpace.Load` requires `Loadable`. When the magic number matches and the
  allocator has enough frames, every segment Load copies must lie inside the space and start
  at a non-negative file offset. A file whose frames run out is not restricted: the model
  aborts there, as the source does at its `ASSERT` on the frame number. The source ignores
  the result of `Translate` in the copy loops, and its comment assumes a well-formed NOFF
  file. Two behaviours of ill-placed segments are not modelled:
  - when the first `Translate` of a `Load` fails, `ReadAt` writes through an unwritten
    `physicalAddr`, which is undefined behaviour;
  - when a later `Translate` fails, `physicalAddr` still holds the previous chunk's physical
    address, and `ReadAt` overwrites that chunk's bytes.
- `Paging.Translation`: a page whose frame is negative passes the signed frame check and
  then fails the `ASSERT(*paddr < MemorySize)`. Such a table is excluded by the precondition
  `NoNegativeFrame`; Load aborts before it can build one.
- `Paging.Translation`: `*paddr` is left unwritten on an exception; the model reports 0 there.
- `Noff.WordAt`: a header read past the end of a short file sees zero bytes, where the C
  header keeps whatever the stack held.
- `UserProg.AddrSpace.LoadSegment`: `chunkStart` and the file position are C `int`s. The
  model uses unbounded integers, which is exact for segments inside an address space of at
  most 128 pages.
- `Threads.Scheduler.RunAfterResume`: deleting a thread is recorded in the ghost `destroyed`
  log. What `Thread::~Thread` frees (its stack and address space) is not part of this model.
- `Threads.Thread.SaveUserState` and `Threads.Thread.RestoreUserState` stand in for the
  routines of `thread.cc`, which is not part of this model: a copy of the machine's
  registers, one way and the other.

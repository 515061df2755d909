/**
 * The address-space manager of user programs: the simulated machine state it
 * writes (main memory, registers, the installed page table), the frame-usage
 * table it clears on teardown, and the AddrSpace object whose page table it
 * builds, loads through, and translates with.
 */
module UserProg {
  import opened Wrappers
  import opened Noff
  import opened Paging

  const NUM_TOTAL_REGS: nat := 40
  const STACK_REG: nat := 29
  const PC_REG: nat := 34
  const NEXT_PC_REG: nat := 35

  /** numPages * PageSize - 16 computed in unsigned 32-bit arithmetic and stored in an int register. */
  function StackTop(numPages: nat): int {
    var u := (numPages * PAGE_SIZE - 16) % 0x1_0000_0000;
    if u < 0x8000_0000 then u else u - 0x1_0000_0000
  }

  /** The register file InitRegisters leaves: all zero but the next PC and the stack pointer. */
  function InitialRegisters(numPages: nat): (regs: seq<int>)
    ensures |regs| == NUM_TOTAL_REGS
    ensures regs[PC_REG] == 0 && regs[NEXT_PC_REG] == 4 && regs[STACK_REG] == StackTop(numPages)
    ensures forall r :: 0 <= r < NUM_TOTAL_REGS && r != NEXT_PC_REG && r != STACK_REG ==> regs[r] == 0
  {
    seq(NUM_TOTAL_REGS, r => if r == NEXT_PC_REG then 4 else if r == STACK_REG then StackTop(numPages) else 0)
  }

  /** For any address space that fits physical memory the stack pointer is 16 bytes below its top. */
  lemma StackInsideSpace(numPages: nat)
    requires 1 <= numPages <= NUM_PHYS_PAGES
    ensures StackTop(numPages) == numPages * PAGE_SIZE - 16
    ensures 0 <= StackTop(numPages) < numPages * PAGE_SIZE
    ensures StackTop(numPages) % 4 == 0
  {
  }

  /** The parts of the simulated MIPS machine an address space touches. */
  class Machine {
    const mainMemory: array<bv8>
    const registers: array<int>
    var pageTable: array<TranslationEntry>
    var pageTableSize: nat

    ghost predicate Valid() {
      mainMemory.Length == MEMORY_SIZE && registers.Length == NUM_TOTAL_REGS
    }

    constructor ()
      ensures Valid() && fresh(mainMemory) && fresh(registers)
      ensures pageTableSize == 0
    {
      mainMemory := new bv8[MEMORY_SIZE];
      registers := new int[NUM_TOTAL_REGS];
      pageTable := new TranslationEntry[0];
      pageTableSize := 0;
    }
  }

  /** The kernel's frame-usage table: pages[f] is non-zero while frame f is allocated. */
  class UsedPhyPage {
    const pages: array<int>

    constructor ()
      ensures pages.Length == NUM_PHYS_PAGES && fresh(pages)
    {
      pages := new int[NUM_PHYS_PAGES];
    }
  }

  /** Why the kernel stops inside Load: one of its ASSERTs fails. */
  datatype AbortReason =
    | BadMagic     // the magic number matches in neither byte order
    | OutOfFrames  // the frame allocator returned -1

  /** The outcome of Load: TRUE, FALSE (the file cannot be opened), or a failed ASSERT. */
  datatype LoadResult = Loaded | OpenFailed | Aborted(reason: AbortReason)

  /**
   * A file Load can copy with `frames` frames available: once its header
   * passes the byte-order check and the frames suffice for its pages, every
   * segment it copies lies inside the address space the header asks for.
   */
  predicate Loadable(file: seq<bv8>, frames: nat) {
    var h := HostHeader(ReadHeader(file));
    h.noffMagic == NOFFMAGIC && NumPages(h) <= frames ==> WellPlaced(h)
  }

  /** Any file whose pages outnumber the frames is Loadable: Load reaches the out-of-frames abort for it. */
  lemma OutOfFramesUnrestricted(file: seq<bv8>, frames: nat)
    requires NumPages(HostHeader(ReadHeader(file))) > frames
    ensures Loadable(file, frames)
  {
  }

  /** bzero: clears n bytes of mem from start on. */
  method Bzero(mem: array<bv8>, start: nat, n: nat)
    requires start + n <= mem.Length
    modifies mem
    ensures mem[..] == Overlay(old(mem[..]), start, Zeros(n), 0, n)
  {
    forall p | start <= p < start + n {
      mem[p] := 0;
    }
  }

  /**
   * OpenFile::ReadAt into memory: copies the bytes of the file from offset
   * position on, at most numBytes of them and none past the end of the file,
   * to into[at..], and returns how many it copied.
   */
  method ReadAt(file: seq<bv8>, into: array<bv8>, at: nat, numBytes: int, position: int) returns (n: int)
    requires 0 <= position
    requires at + ReadCount(|file|, numBytes, position) <= into.Length
    modifies into
    ensures n == ReadCount(|file|, numBytes, position)
    ensures into[..] == Overlay(old(into[..]), at, file, position, n)
  {
    n := ReadCount(|file|, numBytes, position);
    forall p | at <= p < at + n {
      into[p] := file[position + (p - at)];
    }
  }

  class AddrSpace {
    const machine: Machine
    var numPages: nat
    var pageTable: array<TranslationEntry>

    ghost predicate Valid()
      reads this
    {
      pageTable.Length == numPages && machine.Valid()
    }

    /** A new, empty address space; Load gives it its pages. */
    constructor (machine: Machine)
      requires machine.Valid()
      ensures Valid() && this.machine == machine && numPages == 0 && fresh(pageTable)
    {
      this.machine := machine;
      numPages := 0;
      pageTable := new TranslationEntry[0];
    }

    /**
     * Translate: the physical address of vaddr, or the exception the access
     * raises; sets the use bit (and the dirty bit of a write) of the page it
     * translates through.
     */
    method Translate(vaddr: Uint32, isReadWrite: bool) returns (ex: ExceptionType, paddr: nat)
      requires pageTable.Length == numPages && NoNegativeFrame(pageTable[..], vaddr, isReadWrite)
      modifies pageTable
      ensures Translated(ex, paddr, pageTable[..]) == Translation(old(pageTable[..]), vaddr, isReadWrite)
    {
      var vpn := vaddr / PAGE_SIZE;
      var offset := vaddr % PAGE_SIZE;
      if vpn >= numPages {
        return AddressErrorException, 0;
      }
      var pte := pageTable[vpn];
      if isReadWrite && pte.readOnly {
        return ReadOnlyException, 0;
      }
      var pfn := pte.physicalPage;
      if pfn >= NUM_PHYS_PAGES {
        return BusErrorException, 0;
      }
      pageTable[vpn] := pte.(use := true);
      if isReadWrite {
        pageTable[vpn] := pageTable[vpn].(dirty := true);
      }
      paddr := pfn * PAGE_SIZE + offset;
      assert paddr < MEMORY_SIZE;
      ex := NoException;
    }

    /**
     * The page-table build of Load: one entry per virtual page, each mapped to
     * the next frame of the allocator, valid, unused, clean and writable, and
     * each frame cleared; it stops at the first page the allocator has no
     * frame for.  `supply` lists the frames setPhyAddr hands out, in order,
     * before it returns -1.
     */
    method BuildPageTable(supply: seq<int>) returns (ok: bool)
      requires machine.Valid() && FrameSupply(supply)
      modifies this`pageTable, machine.mainMemory
      ensures fresh(pageTable) && pageTable.Length == numPages
      ensures ok <==> numPages <= |supply|
      ensures ok ==> forall i :: 0 <= i < numPages ==>
                pageTable[i] == TranslationEntry(i, supply[i], true, false, false, false)
      ensures ok ==> Maps(machine.mainMemory[..], supply[..numPages], Zeros(numPages * PAGE_SIZE))
      ensures ok ==> SameOutside(old(machine.mainMemory[..]), machine.mainMemory[..], supply[..numPages])
    {
      var table := new TranslationEntry[numPages];
      pageTable := table;
      var i := 0;
      while i < numPages
        invariant pageTable == table
        invariant 0 <= i <= numPages && i <= |supply|
        invariant forall k :: 0 <= k < i ==> pageTable[k] == TranslationEntry(k, supply[k], true, false, false, false)
        invariant ZeroedSoFar(old(machine.mainMemory[..]), machine.mainMemory[..], supply, i)
      {
        // kernel->usedPhyPage->setPhyAddr()
        var frame := if i < |supply| then supply[i] else -1;
        table[i] := TranslationEntry(i, frame, true, false, false, false);
        if frame == -1 {
          return false;
        }
        ghost var before := machine.mainMemory[..];
        Bzero(machine.mainMemory, frame * PAGE_SIZE, PAGE_SIZE);
        ZeroedFrameAdded(old(machine.mainMemory[..]), before, machine.mainMemory[..], supply, i);
        i := i + 1;
      }
      return true;
    }

    /**
     * One pass of the segment-copy loop: translate the chunk's first virtual
     * address for writing and read the chunk from the file into physical
     * memory there.
     */
    method CopyChunk(file: seq<bv8>, chunkStart: int, chunkSize: int,
                     ghost table0: seq<TranslationEntry>, ghost mem0: seq<bv8>, ghost frames: seq<int>, ghost img: seq<bv8>,
                     ghost virtualAddr: nat, inFileAddr: nat, inFilePosition: nat)
      requires machine.Valid() && pageTable.Length == numPages
      requires CopyProgress(table0, mem0, pageTable[..], machine.mainMemory[..], frames, img, file,
                            virtualAddr, inFileAddr, inFilePosition)
      requires chunkStart == virtualAddr + inFilePosition && chunkStart + chunkSize <= numPages * PAGE_SIZE
      requires 1 <= chunkSize <= PAGE_SIZE - chunkStart % PAGE_SIZE
      modifies pageTable, machine.mainMemory
      ensures CopyProgress(table0, mem0, pageTable[..], machine.mainMemory[..], frames, img, file,
                           virtualAddr, inFileAddr, inFilePosition + chunkSize)
    {
      ghost var table := pageTable[..];
      MarkStep(table0, table, frames, virtualAddr, inFilePosition, chunkSize);
      var ex, physicalAddr := Translate(chunkStart, true);
      ghost var mem := machine.mainMemory[..];
      InChunkPage(chunkStart, chunkSize, chunkSize - 1);
      var n := ReadAt(file, machine.mainMemory, physicalAddr, chunkSize, inFileAddr + inFilePosition);
      CopyProgressStep(table0, mem0, table, mem, pageTable[..], machine.mainMemory[..], frames, img, file,
                       virtualAddr, inFileAddr, inFilePosition, chunkSize, n);
    }

    /**
     * One segment-copy loop of Load: while bytes remain, copy the chunk up to
     * the next page boundary from the file into the physical bytes that
     * translation gives for the chunk's first virtual address.  Physical memory
     * then shows the segment copied into the virtual image, the pages the
     * segment spans are marked used and dirty, and no byte outside this
     * address space's frames changes.
     */
    method LoadSegment(file: seq<bv8>, virtualAddr: int, inFileAddr: int, size: int,
                       ghost frames: seq<int>, ghost img: seq<bv8>)
      requires machine.Valid() && pageTable.Length == numPages && Backs(pageTable[..], frames)
      requires Maps(machine.mainMemory[..], frames, img)
      requires 0 < size && 0 <= virtualAddr && virtualAddr + size <= numPages * PAGE_SIZE && 0 <= inFileAddr
      modifies pageTable, machine.mainMemory
      ensures Backs(pageTable[..], frames) && MarkedSince(old(pageTable[..]), pageTable[..], virtualAddr, size)
      ensures Maps(machine.mainMemory[..], frames, CopySegment(img, virtualAddr, inFileAddr, size, file))
      ensures SameOutside(old(machine.mainMemory[..]), machine.mainMemory[..], frames)
    {
      ghost var table0 := pageTable[..];
      ghost var mem0 := machine.mainMemory[..];
      var unReadSize := size;
      var chunkStart := virtualAddr;
      var inFilePosition := 0;
      while unReadSize > 0
        invariant 0 <= unReadSize <= size
        invariant inFilePosition == size - unReadSize && chunkStart == virtualAddr + inFilePosition
        invariant CopyProgress(table0, mem0, pageTable[..], machine.mainMemory[..], frames, img, file,
                               virtualAddr, inFileAddr, inFilePosition)
        decreases unReadSize
      {
        var chunkSize := CalChunkSize(chunkStart, unReadSize);
        CopyChunk(file, chunkStart, chunkSize, table0, mem0, frames, img, virtualAddr, inFileAddr, inFilePosition);
        unReadSize := unReadSize - chunkSize;
        chunkStart := chunkStart + chunkSize;
        inFilePosition := inFilePosition + chunkSize;
      }
    }

    /**
     * One `if (noffH.x.size > 0)` block of Load: the segment is copied when its
     * size is positive, so memory shows LoadSegmentImage and the pages the
     * segment spans are marked.
     */
    method CopySegmentIn(file: seq<bv8>, s: Segment, ghost frames: seq<int>, ghost img: seq<bv8>)
      requires machine.Valid() && pageTable.Length == numPages && Backs(pageTable[..], frames)
      requires Maps(machine.mainMemory[..], frames, img)
      requires Placed(s, numPages)
      modifies pageTable, machine.mainMemory
      ensures Backs(pageTable[..], frames)
      ensures MarkedSince(old(pageTable[..]), pageTable[..], Int32(s.virtualAddr), Int32(s.size))
      ensures Maps(machine.mainMemory[..], frames, LoadSegmentImage(img, s, file))
      ensures SameOutside(old(machine.mainMemory[..]), machine.mainMemory[..], frames)
    {
      if Int32(s.size) > 0 {
        LoadSegment(file, Int32(s.virtualAddr), Int32(s.inFileAddr), Int32(s.size), frames, img);
      }
    }

    /**
     * The segment copies of Load, on a freshly built page table: the frames
     * then show LoadedImage, the pages the segments span are marked used and
     * dirty, and no byte outside the frames changes.
     */
    method CopySegments(file: seq<bv8>, h: NoffHeader, supply: seq<int>)
      requires machine.Valid() && FrameSupply(supply) && WellPlaced(h)
      requires pageTable.Length == numPages == NumPages(h) && numPages <= |supply|
      requires forall i :: 0 <= i < numPages ==>
                 pageTable[i] == TranslationEntry(i, supply[i], true, false, false, false)
      requires Maps(machine.mainMemory[..], supply[..numPages], Zeros(numPages * PAGE_SIZE))
      modifies pageTable, machine.mainMemory
      ensures forall i :: 0 <= i < numPages ==>
                pageTable[i] == TranslationEntry(i, supply[i], true, false, Touched(h, i), Touched(h, i))
      ensures Maps(machine.mainMemory[..], supply[..numPages], LoadedImage(h, file))
      ensures SameOutside(old(machine.mainMemory[..]), machine.mainMemory[..], supply[..numPages])
    {
      ghost var frames := supply[..numPages];
      ghost var t0 := pageTable[..];
      assert Backs(t0, frames);
      ghost var img0 := Zeros(numPages * PAGE_SIZE);
      CopySegmentIn(file, h.code, frames, img0);
      ghost var t1 := pageTable[..];
      ghost var img1 := LoadSegmentImage(img0, h.code, file);
      CopySegmentIn(file, h.initData, frames, img1);
      ghost var t2 := pageTable[..];
      ghost var img2 := LoadSegmentImage(img1, h.initData, file);
      CopySegmentIn(file, h.readonlyData, frames, img2);
      LoadMarks(t0, t1, t2, pageTable[..], h);
    }

    /**
     * The state a successful Load leaves for header h: numPages pages, page i
     * mapped to the i-th allocated frame, valid and writable, and used and
     * dirty exactly when a segment spans it; the frames show LoadedImage of
     * the file; memory outside the frames is as it was in mem0.
     */
    ghost predicate LoadedAs(h: NoffHeader, file: seq<bv8>, supply: seq<int>, mem0: seq<bv8>)
      reads this, pageTable, machine.mainMemory
    {
      && Valid()
      && numPages == NumPages(h) <= |supply|
      && FramesOf(pageTable[..]) == supply[..numPages]
      && (forall i :: 0 <= i < numPages ==>
            pageTable[i] == TranslationEntry(i, supply[i], true, false, Touched(h, i), Touched(h, i)))
      && Maps(machine.mainMemory[..], supply[..numPages], LoadedImage(h, file))
      && SameOutside(mem0, machine.mainMemory[..], supply[..numPages])
    }

    /**
     * The part of Load after the header check: size the address space, build
     * and clear its page table, and copy the segments.  It fails exactly when
     * the allocator runs out of frames.
     */
    method LoadWithHeader(file: seq<bv8>, noffH: NoffHeader, supply: seq<int>) returns (ok: bool)
      requires machine.Valid() && FrameSupply(supply)
      requires NumPages(noffH) <= |supply| ==> WellPlaced(noffH)
      modifies this, machine.mainMemory
      ensures ok <==> NumPages(noffH) <= |supply|
      ensures ok ==> fresh(pageTable) && LoadedAs(noffH, file, supply, old(machine.mainMemory[..]))
    {
      var size := SpaceSize(noffH);
      numPages := DivRoundUp(size as nat, PAGE_SIZE);
      ok := BuildPageTable(supply);
      if !ok {
        return;
      }
      CopySegments(file, noffH, supply);
      assert FramesOf(pageTable[..]) == supply[..numPages];
    }

    /**
     * Load: read the NOFF header of the executable (swapping it if it was
     * written in the other byte order), then size, build and fill the address
     * space.  `executable` is None when the file cannot be opened.
     */
    method Load(executable: Option<seq<bv8>>, supply: seq<int>) returns (r: LoadResult)
      requires machine.Valid() && FrameSupply(supply)
      requires executable.Some? ==> Loadable(executable.value, |supply|)
      modifies this, machine.mainMemory
      ensures r == OpenFailed <==> executable.None?
      ensures r == OpenFailed ==>
                numPages == old(numPages) && pageTable == old(pageTable) && unchanged(machine.mainMemory)
      ensures r == Aborted(BadMagic) <==>
                executable.Some? && HostHeader(ReadHeader(executable.value)).noffMagic != NOFFMAGIC
      ensures r == Aborted(OutOfFrames) <==>
                && executable.Some?
                && HostHeader(ReadHeader(executable.value)).noffMagic == NOFFMAGIC
                && NumPages(HostHeader(ReadHeader(executable.value))) > |supply|
      ensures r == Loaded ==>
                && fresh(pageTable)
                && LoadedAs(HostHeader(ReadHeader(executable.value)), executable.value, supply, old(machine.mainMemory[..]))
    {
      if executable.None? {
        return OpenFailed;
      }
      var file := executable.value;
      var noffH := ReadHeader(file);
      if noffH.noffMagic != NOFFMAGIC && WordToHost(noffH.noffMagic) == NOFFMAGIC {
        noffH := SwapHeader(noffH);
      }
      if noffH.noffMagic != NOFFMAGIC {
        return Aborted(BadMagic);
      }
      var ok := LoadWithHeader(file, noffH, supply);
      r := if ok then Loaded else Aborted(OutOfFrames);
    }

    /**
     * The destructor: every frame of the page table is marked free in the
     * frame-usage table; no other entry of that table changes.
     */
    method Deallocate(used: UsedPhyPage)
      requires pageTable.Length == numPages
      requires forall i :: 0 <= i < numPages ==> 0 <= pageTable[i].physicalPage < used.pages.Length
      modifies used.pages
      ensures forall i :: 0 <= i < numPages ==> used.pages[pageTable[i].physicalPage] == 0
      ensures forall p :: 0 <= p < used.pages.Length && p !in FramesOf(pageTable[..]) ==>
                used.pages[p] == old(used.pages[p])
    {
      for i := 0 to numPages
        invariant forall k :: 0 <= k < i ==> used.pages[pageTable[k].physicalPage] == 0
        invariant forall p :: 0 <= p < used.pages.Length && p !in FramesOf(pageTable[..i]) ==>
                    used.pages[p] == old(used.pages[p])
      {
        used.pages[pageTable[i].physicalPage] := 0;
      }
    }

    /**
     * InitRegisters: every register cleared, then the PC at 0, the next PC at
     * 4 (branch delay) and the stack pointer 16 bytes below the top of the
     * address space.
     */
    method InitRegisters()
      requires machine.Valid()
      modifies machine.registers
      ensures machine.registers[..] == InitialRegisters(numPages)
    {
      var i := 0;
      while i < NUM_TOTAL_REGS
        invariant 0 <= i <= NUM_TOTAL_REGS
        invariant forall r :: 0 <= r < i ==> machine.registers[r] == 0
      {
        machine.registers[i] := 0;
        i := i + 1;
      }
      machine.registers[PC_REG] := 0;
      machine.registers[NEXT_PC_REG] := 4;
      machine.registers[STACK_REG] := StackTop(numPages);
    }

    /** SaveState: nothing of an address space needs saving on a context switch. */
    method SaveState()
      ensures numPages == old(numPages) && pageTable == old(pageTable) && pageTable[..] == old(pageTable[..])
    {
    }

    /** RestoreState: installs this page table as the machine's translation context. */
    method RestoreState()
      modifies machine`pageTable, machine`pageTableSize
      ensures machine.pageTable == pageTable && machine.pageTableSize == numPages
    {
      machine.pageTable := pageTable;
      machine.pageTableSize := numPages;
    }
  }

  /**
   * The zero-fill loop of Load after i pages: memory shows an all-zero image
   * through the first i frames of the supply, and nothing outside them has
   * changed since mem0.
   */
  ghost predicate ZeroedSoFar(mem0: seq<bv8>, mem: seq<bv8>, supply: seq<int>, i: nat)
    requires i <= |supply|
  {
    Maps(mem, supply[..i], Zeros(i * PAGE_SIZE)) && SameOutside(mem0, mem, supply[..i])
  }

  /** Clearing frame supply[i] extends the all-zero image by page i. */
  lemma {:induction false} ZeroedFrameAdded(mem0: seq<bv8>, before: seq<bv8>, after: seq<bv8>, supply: seq<int>, i: nat)
    requires FrameSupply(supply) && i < |supply|
    requires ZeroedSoFar(mem0, before, supply, i)
    requires after == Overlay(before, supply[i] * PAGE_SIZE, Zeros(PAGE_SIZE), 0, PAGE_SIZE)
    ensures ZeroedSoFar(mem0, after, supply, i + 1)
  {
    var frames := supply[..i + 1];
    forall v | 0 <= v < (i + 1) * PAGE_SIZE
      ensures after[PhysOf(frames, v)] == 0
    {
      if v < i * PAGE_SIZE {
        assert PhysOf(frames, v) == PhysOf(supply[..i], v);
      }
    }
    forall p | 0 <= p < |after| && p / PAGE_SIZE !in frames
      ensures after[p] == mem0[p]
    {
      assert supply[i] in frames;
    }
  }
}

/**
 * The value-level part of the address-space manager: machine constants,
 * page-table entries, address translation as a function, the page-bounded
 * chunking of a segment copy, and the virtual image a successful load leaves
 * behind.  The class in module UserProg is proved against these functions.
 */
module Paging {
  import opened Noff

  /** Bytes per page (and per disk sector). */
  const PAGE_SIZE: nat := 128
  /** Frames of simulated physical memory. */
  const NUM_PHYS_PAGES: nat := 128
  /** Bytes of simulated physical memory. */
  const MEMORY_SIZE: nat := 16384
  /** Bytes reserved above the segments for the user stack. */
  const USER_STACK_SIZE: nat := 1024

  /** An unsigned 32-bit machine word. */
  type Uint32 = x: int | 0 <= x < 0x1_0000_0000

  datatype TranslationEntry = TranslationEntry(
    virtualPage: int,
    physicalPage: int,
    valid: bool,
    readOnly: bool,
    use: bool,
    dirty: bool)

  datatype ExceptionType =
    | NoException
    | ReadOnlyException
    | BusErrorException
    | AddressErrorException

  /** An entry with its use and dirty bits cleared: what translation never changes. */
  function Mapping(e: TranslationEntry): TranslationEntry {
    e.(use := false, dirty := false)
  }

  // ---------------------------------------------------------------------
  // Translation
  // ---------------------------------------------------------------------

  /**
   * The frame check of Translate is a signed comparison, so a negative frame
   * passes it and then fails the ASSERT that the physical address lies inside
   * memory.  Translate is only ever meant to see tables whose reachable
   * entries have non-negative frames; Load aborts before it can build any
   * other.
   */
  predicate NoNegativeFrame(pt: seq<TranslationEntry>, vaddr: Uint32, isReadWrite: bool) {
    var vpn := vaddr / PAGE_SIZE;
    vpn < |pt| && !(isReadWrite && pt[vpn].readOnly) ==> 0 <= pt[vpn].physicalPage
  }

  /** What one call of Translate produces: the exception, *paddr, and the page table afterwards. */
  datatype Translated = Translated(ex: ExceptionType, paddr: nat, table: seq<TranslationEntry>)

  /**
   * Translation of vaddr through page table pt.  On failure the table is
   * untouched and no physical address is produced (the model reports 0 where
   * the source leaves *paddr unwritten); on success exactly the entry of the
   * page is marked used, and dirty as well for a write access.
   */
  function Translation(pt: seq<TranslationEntry>, vaddr: Uint32, isReadWrite: bool): (r: Translated)
    requires NoNegativeFrame(pt, vaddr, isReadWrite)
    ensures r.ex == AddressErrorException <==> vaddr / PAGE_SIZE >= |pt|
    ensures r.ex == ReadOnlyException <==>
              vaddr / PAGE_SIZE < |pt| && isReadWrite && pt[vaddr / PAGE_SIZE].readOnly
    ensures r.ex == BusErrorException <==>
              vaddr / PAGE_SIZE < |pt| && !(isReadWrite && pt[vaddr / PAGE_SIZE].readOnly)
              && pt[vaddr / PAGE_SIZE].physicalPage >= NUM_PHYS_PAGES
    ensures r.ex != NoException ==> r.table == pt && r.paddr == 0
    ensures r.ex == NoException ==>
              var vpn := vaddr / PAGE_SIZE;
              && r.paddr < MEMORY_SIZE
              && r.paddr / PAGE_SIZE == pt[vpn].physicalPage
              && r.paddr % PAGE_SIZE == vaddr % PAGE_SIZE
              && |r.table| == |pt|
              && (forall i :: 0 <= i < |pt| && i != vpn ==> r.table[i] == pt[i])
              && Mapping(r.table[vpn]) == Mapping(pt[vpn])
              && r.table[vpn].use
              && r.table[vpn].dirty == (pt[vpn].dirty || isReadWrite)
  {
    var vpn := vaddr / PAGE_SIZE;
    var offset := vaddr % PAGE_SIZE;
    if vpn >= |pt| then Translated(AddressErrorException, 0, pt)
    else
      var pte := pt[vpn];
      if isReadWrite && pte.readOnly then Translated(ReadOnlyException, 0, pt)
      else
        var pfn := pte.physicalPage;
        if pfn >= NUM_PHYS_PAGES then Translated(BusErrorException, 0, pt)
        else
          var pte' := pte.(use := true, dirty := if isReadWrite then true else pte.dirty);
          Translated(NoException, pfn * PAGE_SIZE + offset, pt[vpn := pte'])
  }

  /** Translating the same address again finds the same frame and changes nothing more. */
  lemma TranslationIdempotent(pt: seq<TranslationEntry>, vaddr: Uint32, isReadWrite: bool)
    requires NoNegativeFrame(pt, vaddr, isReadWrite)
    ensures var r := Translation(pt, vaddr, isReadWrite);
            var r' := Translation(r.table, vaddr, isReadWrite);
            r'.ex == r.ex && r'.paddr == r.paddr && r'.table == r.table
  {
  }

  /** A read of a read-only page succeeds (given a frame in range) and leaves its dirty bit alone. */
  lemma ReadOfReadOnlyPage(pt: seq<TranslationEntry>, vaddr: Uint32)
    requires vaddr / PAGE_SIZE < |pt| && pt[vaddr / PAGE_SIZE].readOnly
    requires 0 <= pt[vaddr / PAGE_SIZE].physicalPage < NUM_PHYS_PAGES
    ensures Translation(pt, vaddr, false).ex == NoException
    ensures Translation(pt, vaddr, false).table[vaddr / PAGE_SIZE].dirty == pt[vaddr / PAGE_SIZE].dirty
    ensures Translation(pt, vaddr, true).ex == ReadOnlyException
  {
  }

  // ---------------------------------------------------------------------
  // Sizing the address space
  // ---------------------------------------------------------------------

  /** divRoundUp(n, s): the number of s-sized units needed to hold n. */
  function DivRoundUp(n: nat, s: nat): (r: nat)
    requires s > 0
    ensures r * s >= n
    ensures r > 0 ==> (r - 1) * s < n
  {
    n / s + (if n % s > 0 then 1 else 0)
  }

  /** A header word read as a signed 32-bit int. */
  function Int32(w: bv32): int {
    if w < 0x8000_0000 then w as int else w as int - 0x1_0000_0000
  }

  /** size in Load: the segment sizes plus the stack, summed in 32-bit arithmetic. */
  function SpaceSize(h: NoffHeader): bv32 {
    h.code.size + h.readonlyData.size + h.initData.size + h.uninitData.size + (USER_STACK_SIZE as bv32)
  }

  /** numPages in Load. */
  function NumPages(h: NoffHeader): (n: nat)
    ensures n * PAGE_SIZE >= SpaceSize(h) as int
    ensures n > 0 ==> (n - 1) * PAGE_SIZE < SpaceSize(h) as int
  {
    DivRoundUp(SpaceSize(h) as nat, PAGE_SIZE)
  }

  /**
   * A segment that is copied (positive size) lies inside an address space of
   * numPages pages and starts at a non-negative file offset.
   */
  predicate Placed(s: Segment, numPages: nat) {
    Int32(s.size) > 0 ==>
      && 0 <= Int32(s.virtualAddr)
      && Int32(s.virtualAddr) + Int32(s.size) <= numPages * PAGE_SIZE
      && 0 <= Int32(s.inFileAddr)
  }

  /** Every segment Load copies lies inside the address space the header asks for. */
  predicate WellPlaced(h: NoffHeader) {
    && Placed(h.code, NumPages(h))
    && Placed(h.initData, NumPages(h))
    && Placed(h.readonlyData, NumPages(h))
  }

  // ---------------------------------------------------------------------
  // Chunking a segment at page boundaries
  // ---------------------------------------------------------------------

  /** Division as C computes it on int: the quotient is truncated toward zero. */
  function CDiv(a: int, b: int): int
    requires b > 0
  {
    if a >= 0 then a / b else -((-a) / b)
  }

  /**
   * calChunkSize: the bytes from chunkStart to the end of its page, but no
   * more than remain to be read.  For a non-negative start and something left
   * to read the chunk is non-empty, fits what is left and what the page has
   * room for, and either finishes the segment or ends exactly at a page
   * boundary.
   */
  function CalChunkSize(chunkStart: int, unReadSize: int): (c: int)
    ensures chunkStart >= 0 && unReadSize > 0 ==>
              && 1 <= c <= unReadSize
              && c <= PAGE_SIZE - chunkStart % PAGE_SIZE
              && (c == unReadSize || (chunkStart + c) % PAGE_SIZE == 0)
              && (chunkStart + c - 1) / PAGE_SIZE == chunkStart / PAGE_SIZE
  {
    var chunkSize := (CDiv(chunkStart, PAGE_SIZE) + 1) * PAGE_SIZE - chunkStart;
    if chunkSize > unReadSize then unReadSize else chunkSize
  }

  /** Every byte of a chunk lies in the chunk's first page, at the matching offset. */
  lemma {:induction false} InChunkPage(chunkStart: nat, c: nat, j: nat)
    requires j < c <= PAGE_SIZE - chunkStart % PAGE_SIZE
    ensures (chunkStart + j) / PAGE_SIZE == chunkStart / PAGE_SIZE
    ensures (chunkStart + j) % PAGE_SIZE == chunkStart % PAGE_SIZE + j
  {
    var q := chunkStart / PAGE_SIZE;
    var o := chunkStart % PAGE_SIZE;
    assert chunkStart + j == q * PAGE_SIZE + (o + j);
    assert 0 <= o + j < PAGE_SIZE;
  }

  /** One iteration of a segment-copy loop: copy `size` bytes to virtual `start`. */
  datatype Chunk = Chunk(start: int, size: int)

  /** The chunks the loop of Load visits for a segment of `size` bytes at virtual address `start`. */
  function Chunks(start: nat, size: int): (cs: seq<Chunk>)
    ensures cs == [] <==> size <= 0
    decreases size
  {
    if size <= 0 then []
    else
      var c := CalChunkSize(start, size);
      [Chunk(start, c)] + Chunks(start + c, size - c)
  }

  function SizeSum(cs: seq<Chunk>): int {
    if cs == [] then 0 else cs[0].size + SizeSum(cs[1..])
  }

  /**
   * The chunks tile the segment: their sizes add up to its size, each one
   * starts where the previous one ended (so the file offsets advance
   * contiguously from the segment's file address), and each lies within a
   * single page.
   */
  lemma {:induction false} ChunksTile(start: nat, size: nat)
    ensures var cs := Chunks(start, size);
            && SizeSum(cs) == size
            && (size > 0 ==> cs[0].start == start)
            && (forall k :: 0 <= k < |cs| ==>
                  && cs[k].start >= start
                  && 1 <= cs[k].size <= PAGE_SIZE - cs[k].start % PAGE_SIZE)
            && (forall k :: 0 <= k < |cs| - 1 ==> cs[k + 1].start == cs[k].start + cs[k].size)
            && (size > 0 ==> cs[|cs| - 1].start + cs[|cs| - 1].size == start + size)
  {
    ChunksSum(start, size);
    ChunksFit(start, size);
    ChunksContiguous(start, size);
  }

  /** The chunk sizes add up to the segment size. */
  lemma {:induction false} ChunksSum(start: nat, size: nat)
    ensures SizeSum(Chunks(start, size)) == size
    decreases size
  {
    if size > 0 {
      var c := CalChunkSize(start, size);
      var cs := Chunks(start, size);
      ChunksSum(start + c, size - c);
      assert cs == [Chunk(start, c)] + Chunks(start + c, size - c);
      assert cs[1..] == Chunks(start + c, size - c);
    }
  }

  /** A chunk that starts at or after `start` and fits the rest of its page. */
  predicate FitsPage(ch: Chunk, start: int) {
    ch.start >= start && 1 <= ch.size <= PAGE_SIZE - ch.start % PAGE_SIZE
  }

  /** Every chunk starts at or after the segment and fits the rest of its page. */
  lemma {:induction false} ChunksFit(start: nat, size: nat)
    ensures forall k :: 0 <= k < |Chunks(start, size)| ==> FitsPage(Chunks(start, size)[k], start)
    decreases size
  {
    if size > 0 {
      var c := CalChunkSize(start, size);
      var rest := Chunks(start + c, size - c);
      ChunksFit(start + c, size - c);
      var cs := Chunks(start, size);
      assert cs == [Chunk(start, c)] + rest;
      forall k | 0 <= k < |cs|
        ensures FitsPage(cs[k], start)
      {
        if k > 0 {
          assert cs[k] == rest[k - 1] && FitsPage(rest[k - 1], start + c);
        }
      }
    }
  }


  /** Each chunk starts where the previous one ended, the first at the segment, the last ending with it. */
  lemma {:induction false} ChunksContiguous(start: nat, size: nat)
    ensures var cs := Chunks(start, size);
            && (size > 0 ==> cs[0].start == start)
            && (forall k :: 0 <= k < |cs| - 1 ==> cs[k + 1].start == cs[k].start + cs[k].size)
            && (size > 0 ==> cs[|cs| - 1].start + cs[|cs| - 1].size == start + size)
    decreases size
  {
    if size > 0 {
      var c := CalChunkSize(start, size);
      var rest := Chunks(start + c, size - c);
      ChunksContiguous(start + c, size - c);
      var cs := Chunks(start, size);
      assert cs == [Chunk(start, c)] + rest;
      forall k | 0 <= k < |cs| - 1
        ensures cs[k + 1].start == cs[k].start + cs[k].size
      {
        if k > 0 { assert cs[k] == rest[k - 1] && cs[k + 1] == rest[k]; }
        else if size - c > 0 { assert cs[1] == rest[0]; }
      }
      if size - c > 0 {
        assert cs[|cs| - 1] == rest[|rest| - 1];
      }
    }
  }


  /** A 10-byte segment that starts 5 bytes before a page boundary is copied in two 5-byte chunks. */
  lemma UnalignedTenBytes()
    ensures Chunks(PAGE_SIZE - 5, 10) == [Chunk(PAGE_SIZE - 5, 5), Chunk(PAGE_SIZE, 5)]
  {
    assert Chunks(PAGE_SIZE + 5, 0) == [];
    assert Chunks(PAGE_SIZE, 5) == [Chunk(PAGE_SIZE, 5)];
  }

  // ---------------------------------------------------------------------
  // Copying file bytes into a virtual image
  // ---------------------------------------------------------------------

  /** mem with the n bytes of src from position on written at address at. */
  function Overlay(mem: seq<bv8>, at: int, src: seq<bv8>, position: int, n: int): (r: seq<bv8>)
    requires 0 <= at && 0 <= n && at + n <= |mem| && 0 <= position && (n == 0 || position + n <= |src|)
    ensures |r| == |mem|
    ensures forall p :: 0 <= p < |mem| ==> r[p] == if at <= p < at + n then src[position + (p - at)] else mem[p]
  {
    seq(|mem|, p requires 0 <= p < |mem| => if at <= p < at + n then src[position + (p - at)] else mem[p])
  }

  /** Bytes OpenFile::ReadAt delivers: at most numBytes, and none past the end of the file. */
  function ReadCount(fileLength: nat, numBytes: int, position: int): (n: int)
    ensures 0 <= n
    ensures n <= numBytes || n == 0
    ensures 0 <= position ==> position + n <= fileLength || n == 0
  {
    if numBytes <= 0 || position >= fileLength then 0
    else if numBytes < fileLength - position then numBytes else fileLength - position
  }

  /** Whether copying `size` bytes from file offset inFileAddr to virtual address va writes virtual byte v. */
  predicate Copies(va: int, inFileAddr: int, size: int, fileLength: nat, v: int) {
    va <= v < va + size && 0 <= inFileAddr + (v - va) < fileLength
  }

  /**
   * The virtual image after `size` bytes of the file, starting at offset
   * inFileAddr, are copied to virtual address va in one piece: the unchunked
   * copy that the chunked loop must reproduce.
   */
  function CopySegment(img: seq<bv8>, va: int, inFileAddr: int, size: int, file: seq<bv8>): (r: seq<bv8>)
    ensures |r| == |img|
  {
    seq(|img|, v requires 0 <= v < |img| =>
      if Copies(va, inFileAddr, size, |file|, v) then file[inFileAddr + (v - va)] else img[v])
  }

  /** Copying `done` bytes and then the next `c` bytes is copying `done + c` bytes. */
  lemma {:induction false} CopySegmentSplit(img: seq<bv8>, va: int, inFileAddr: int, done: nat, c: nat, file: seq<bv8>)
    requires 0 <= inFileAddr
    ensures CopySegment(CopySegment(img, va, inFileAddr, done, file), va + done, inFileAddr + done, c, file)
            == CopySegment(img, va, inFileAddr, done + c, file)
  {
    var a := CopySegment(img, va, inFileAddr, done, file);
    var b := CopySegment(a, va + done, inFileAddr + done, c, file);
    var whole := CopySegment(img, va, inFileAddr, done + c, file);
    forall v | 0 <= v < |img| ensures b[v] == whole[v] {
      if va + done <= v < va + done + c {
        assert Copies(va + done, inFileAddr + done, c, |file|, v) == Copies(va, inFileAddr, done + c, |file|, v);
      }
    }
  }

  /** The image after copying chunk by chunk, each chunk reading from the file offset that matches its virtual address. */
  function CopyChunks(img: seq<bv8>, cs: seq<Chunk>, va: int, inFileAddr: int, file: seq<bv8>): (r: seq<bv8>)
    ensures |r| == |img|
    decreases cs
  {
    if cs == [] then img
    else
      var c := cs[0];
      CopyChunks(CopySegment(img, c.start, inFileAddr + (c.start - va), c.size, file), cs[1..], va, inFileAddr, file)
  }

  /**
   * Chunked load correctness: copying a segment chunk by chunk, as the loop
   * of Load does, leaves exactly the bytes a single unchunked copy would.
   */
  lemma {:induction false} ChunkedCopyIsUnchunked(img: seq<bv8>, va: nat, inFileAddr: nat, size: nat, file: seq<bv8>)
    ensures CopyChunks(img, Chunks(va, size), va, inFileAddr, file) == CopySegment(img, va, inFileAddr, size, file)
  {
    ChunkedCopyFrom(img, va, inFileAddr, 0, size, file);
    assert CopySegment(img, va, inFileAddr, 0, file) == img;
  }

  lemma {:induction false} ChunkedCopyFrom(img: seq<bv8>, va: nat, inFileAddr: nat, done: nat, size: nat, file: seq<bv8>)
    requires done <= size
    ensures CopyChunks(CopySegment(img, va, inFileAddr, done, file), Chunks(va + done, size - done), va, inFileAddr, file)
            == CopySegment(img, va, inFileAddr, size, file)
    decreases size - done
  {
    if done < size {
      var c := CalChunkSize(va + done, size - done);
      var cs := Chunks(va + done, size - done);
      assert cs[0] == Chunk(va + done, c) && cs[1..] == Chunks(va + done + c, size - done - c);
      CopySegmentSplit(img, va, inFileAddr, done, c, file);
      ChunkedCopyFrom(img, va, inFileAddr, done + c, size, file);
    }
  }

  // ---------------------------------------------------------------------
  // From virtual to physical memory
  // ---------------------------------------------------------------------

  /** The frames the allocator hands out: each inside physical memory, none handed out twice. */
  predicate FrameSupply(frames: seq<int>) {
    && |frames| <= NUM_PHYS_PAGES
    && (forall k :: 0 <= k < |frames| ==> 0 <= frames[k] < NUM_PHYS_PAGES)
    && (forall k, l :: 0 <= k < l < |frames| ==> frames[k] != frames[l])
  }

  /** The frames a page table maps its virtual pages to, in virtual-page order. */
  function FramesOf(pt: seq<TranslationEntry>): (frames: seq<int>)
    ensures |frames| == |pt| && forall i :: 0 <= i < |pt| ==> frames[i] == pt[i].physicalPage
  {
    seq(|pt|, i requires 0 <= i < |pt| => pt[i].physicalPage)
  }

  /** The physical address of virtual address v when virtual page i lives in frame frames[i]. */
  function PhysOf(frames: seq<int>, v: nat): (p: nat)
    requires FrameSupply(frames) && v < |frames| * PAGE_SIZE
    ensures p < MEMORY_SIZE
    ensures p / PAGE_SIZE == frames[v / PAGE_SIZE] && p % PAGE_SIZE == v % PAGE_SIZE
  {
    frames[v / PAGE_SIZE] * PAGE_SIZE + v % PAGE_SIZE
  }

  /** Distinct virtual addresses of one address space never share a physical byte. */
  lemma {:induction false} PhysOfInjective(frames: seq<int>, v: nat, w: nat)
    requires FrameSupply(frames) && v < |frames| * PAGE_SIZE && w < |frames| * PAGE_SIZE
    requires v != w
    ensures PhysOf(frames, v) != PhysOf(frames, w)
  {
    if v / PAGE_SIZE == w / PAGE_SIZE {
      assert v % PAGE_SIZE != w % PAGE_SIZE;
    } else {
      assert frames[v / PAGE_SIZE] != frames[w / PAGE_SIZE];
    }
  }

  /** Successful translation lands on PhysOf: the page table's frames are the mapping. */
  lemma TranslationIsPhysOf(pt: seq<TranslationEntry>, frames: seq<int>, vaddr: Uint32, isReadWrite: bool)
    requires FrameSupply(frames) && |pt| == |frames|
    requires forall i :: 0 <= i < |pt| ==> pt[i].physicalPage == frames[i] && !pt[i].readOnly
    requires vaddr < |pt| * PAGE_SIZE
    ensures Translation(pt, vaddr, isReadWrite).ex == NoException
    ensures Translation(pt, vaddr, isReadWrite).paddr == PhysOf(frames, vaddr)
  {
  }

  /**
   * What Load leaves is what the program sees: once memory shows img through
   * the frames of a page table, a read of any virtual byte of the space
   * translates without exception to a physical byte holding img's byte.
   */
  lemma {:induction false} ImageVisible(mem: seq<bv8>, pt: seq<TranslationEntry>, frames: seq<int>, img: seq<bv8>, v: Uint32)
    requires Maps(mem, frames, img) && Backs(pt, frames) && v < |img|
    ensures Translation(pt, v, false).ex == NoException
    ensures mem[Translation(pt, v, false).paddr] == img[v]
  {
    TranslationIsPhysOf(pt, frames, v, false);
  }

  /** mem is mem0 except inside the given frames. */
  predicate SameOutside(mem0: seq<bv8>, mem: seq<bv8>, frames: seq<int>) {
    |mem| == |mem0| && forall p :: 0 <= p < |mem| && p / PAGE_SIZE !in frames ==> mem[p] == mem0[p]
  }

  /** Physical memory shows virtual image img through the frames. */
  ghost predicate Maps(mem: seq<bv8>, frames: seq<int>, img: seq<bv8>) {
    && FrameSupply(frames)
    && |mem| == MEMORY_SIZE
    && |img| == |frames| * PAGE_SIZE
    && forall v :: 0 <= v < |img| ==> mem[PhysOf(frames, v)] == img[v]
  }

  /**
   * One pass of the segment-copy loop, seen through the frames: after the
   * chunk at virtual address va + done is read from the file into the
   * physical bytes that translation gives for it, physical memory shows the
   * image with done + c bytes of the segment copied, and every byte written
   * belongs to a frame of this address space.
   */
  lemma {:induction false} ChunkCopied(mem: seq<bv8>, mem': seq<bv8>, frames: seq<int>, img: seq<bv8>,
                                       file: seq<bv8>, va: nat, inFileAddr: nat, done: nat, c: nat, n: nat)
    requires Maps(mem, frames, CopySegment(img, va, inFileAddr, done, file))
    requires va + done + c <= |frames| * PAGE_SIZE
    requires 1 <= c <= PAGE_SIZE - (va + done) % PAGE_SIZE
    requires n == ReadCount(|file|, c, inFileAddr + done)
    requires PhysOf(frames, va + done) + n <= |mem| && (n == 0 || inFileAddr + done + n <= |file|)
    requires mem' == Overlay(mem, PhysOf(frames, va + done), file, inFileAddr + done, n)
    ensures Maps(mem', frames, CopySegment(img, va, inFileAddr, done + c, file))
    ensures forall p :: PhysOf(frames, va + done) <= p < PhysOf(frames, va + done) + n ==> p / PAGE_SIZE in frames
  {
    var start := va + done;
    var p0 := PhysOf(frames, start);
    var before := CopySegment(img, va, inFileAddr, done, file);
    var after := CopySegment(img, va, inFileAddr, done + c, file);
    forall w | start <= w < start + c
      ensures PhysOf(frames, w) == p0 + (w - start)
    {
      InChunkPage(start, c, w - start);
    }
    forall v | 0 <= v < |img|
      ensures mem'[PhysOf(frames, v)] == after[v]
    {
      if start <= v < start + c {
        var j := v - start;
        assert PhysOf(frames, v) == p0 + j;
        if j >= n {
          assert !Copies(va, inFileAddr, done + c, |file|, v);
        }
      } else {
        var q := PhysOf(frames, v);
        assert !(p0 <= q < p0 + n);
        assert Copies(va, inFileAddr, done + c, |file|, v) == Copies(va, inFileAddr, done, |file|, v);
      }
    }
    forall p | p0 <= p < p0 + n ensures p / PAGE_SIZE in frames {
      assert PhysOf(frames, start + (p - p0)) == p;
    }
  }

  /**
   * The state of a segment-copy loop after `done` bytes, over page table pt
   * and memory mem: the table keeps its frames and has marked the pages of
   * those bytes (since pt0), memory shows them copied, and nothing outside
   * the frames has changed since mem0.
   */
  ghost predicate CopyProgress(pt0: seq<TranslationEntry>, mem0: seq<bv8>, pt: seq<TranslationEntry>, mem: seq<bv8>,
                               frames: seq<int>, img: seq<bv8>, file: seq<bv8>, va: int, inFileAddr: int, done: int)
  {
    && Backs(pt, frames) && MarkedSince(pt0, pt, va, done)
    && Maps(mem, frames, CopySegment(img, va, inFileAddr, done, file))
    && SameOutside(mem0, mem, frames)
  }

  /**
   * One iteration of a segment-copy loop keeps CopyProgress: translating the
   * chunk's first address for writing and reading the chunk into memory there
   * advances the state from `done` bytes to done + c bytes.
   */
  lemma {:induction false} CopyProgressStep(pt0: seq<TranslationEntry>, mem0: seq<bv8>,
                                            pt: seq<TranslationEntry>, mem: seq<bv8>,
                                            pt': seq<TranslationEntry>, mem': seq<bv8>,
                                            frames: seq<int>, img: seq<bv8>, file: seq<bv8>,
                                            va: nat, inFileAddr: nat, done: nat, c: nat, n: nat)
    requires CopyProgress(pt0, mem0, pt, mem, frames, img, file, va, inFileAddr, done)
    requires va + done + c <= |pt| * PAGE_SIZE
    requires 1 <= c <= PAGE_SIZE - (va + done) % PAGE_SIZE
    requires pt' == Translation(pt, va + done, true).table
    requires n == ReadCount(|file|, c, inFileAddr + done)
    requires PhysOf(frames, va + done) + n <= |mem| && (n == 0 || inFileAddr + done + n <= |file|)
    requires mem' == Overlay(mem, PhysOf(frames, va + done), file, inFileAddr + done, n)
    ensures CopyProgress(pt0, mem0, pt', mem', frames, img, file, va, inFileAddr, done + c)
  {
    MarkStep(pt0, pt, frames, va, done, c);
    ChunkCopied(mem, mem', frames, img, file, va, inFileAddr, done, c, n);
  }

  /** The pages a copy has touched grow by exactly the page of the next chunk. */
  lemma {:induction false} PagesGrow(va: nat, done: nat, c: nat, i: int)
    requires 1 <= c <= PAGE_SIZE - (va + done) % PAGE_SIZE
    ensures InPages(va, done + c, i) <==> InPages(va, done, i) || i == (va + done) / PAGE_SIZE
  {
    InChunkPage(va + done, c, c - 1);
    if done > 0 {
      assert (va + done - 1) / PAGE_SIZE <= (va + done) / PAGE_SIZE <= (va + done - 1) / PAGE_SIZE + 1;
    }
  }

  function Zeros(n: nat): (z: seq<bv8>)
    ensures |z| == n && forall v :: 0 <= v < n ==> z[v] == 0
  {
    seq(n, _ => 0)
  }

  /** A copied segment: only segments of positive size are copied. */
  function LoadSegmentImage(img: seq<bv8>, s: Segment, file: seq<bv8>): seq<bv8> {
    if Int32(s.size) > 0 then CopySegment(img, Int32(s.virtualAddr), Int32(s.inFileAddr), Int32(s.size), file)
    else img
  }

  /**
   * The virtual image a successful Load leaves: all zero, then the code,
   * initialised-data and read-only-data segments copied in that order.
   */
  function LoadedImage(h: NoffHeader, file: seq<bv8>): (img: seq<bv8>)
    ensures |img| == NumPages(h) * PAGE_SIZE
  {
    var zeros := Zeros(NumPages(h) * PAGE_SIZE);
    LoadSegmentImage(LoadSegmentImage(LoadSegmentImage(zeros, h.code, file), h.initData, file), h.readonlyData, file)
  }

  predicate SegmentCopies(s: Segment, fileLength: nat, v: int) {
    Int32(s.size) > 0 && Copies(Int32(s.virtualAddr), Int32(s.inFileAddr), Int32(s.size), fileLength, v)
  }

  /** The file byte segment s puts at virtual address v. */
  function SegmentByte(s: Segment, file: seq<bv8>, v: int): bv8
    requires SegmentCopies(s, |file|, v)
  {
    file[Int32(s.inFileAddr) + (v - Int32(s.virtualAddr))]
  }

  /**
   * Each byte of the loaded image: the file byte of the last segment (in the
   * order code, initialised data, read-only data) that covers it and has a
   * byte in the file there; zero if there is none (uninitialised data, the
   * stack, and the slack of the last page).
   */
  lemma LoadedImageAt(h: NoffHeader, file: seq<bv8>, v: nat)
    requires v < NumPages(h) * PAGE_SIZE
    ensures LoadedImage(h, file)[v] ==
      if SegmentCopies(h.readonlyData, |file|, v) then SegmentByte(h.readonlyData, file, v)
      else if SegmentCopies(h.initData, |file|, v) then SegmentByte(h.initData, file, v)
      else if SegmentCopies(h.code, |file|, v) then SegmentByte(h.code, file, v)
      else 0
  {
    var img0 := Zeros(NumPages(h) * PAGE_SIZE);
    var img1 := LoadSegmentImage(img0, h.code, file);
    var img2 := LoadSegmentImage(img1, h.initData, file);
    SegmentImageAt(img0, h.code, file, v);
    SegmentImageAt(img1, h.initData, file, v);
    SegmentImageAt(img2, h.readonlyData, file, v);
  }

  /** One segment's copy, byte by byte: the segment's file byte where it has one, the old byte elsewhere. */
  lemma SegmentImageAt(img: seq<bv8>, s: Segment, file: seq<bv8>, v: nat)
    requires v < |img|
    ensures |LoadSegmentImage(img, s, file)| == |img|
    ensures LoadSegmentImage(img, s, file)[v] == if SegmentCopies(s, |file|, v) then SegmentByte(s, file, v) else img[v]
  {
  }

  /** Pages a segment copy touches (translates), for a copy that has covered `size` bytes from va. */
  predicate InPages(va: int, size: int, i: int) {
    size > 0 && va / PAGE_SIZE <= i <= (va + size - 1) / PAGE_SIZE
  }

  /** Whether Load's segment copies translate virtual page i, setting its use and dirty bits. */
  predicate Touched(h: NoffHeader, i: int) {
    SegmentTouched(h.code, i) || SegmentTouched(h.initData, i) || SegmentTouched(h.readonlyData, i)
  }

  /** Whether copying segment s translates virtual page i. */
  predicate SegmentTouched(s: Segment, i: int) {
    Int32(s.size) > 0 && InPages(Int32(s.virtualAddr), Int32(s.size), i)
  }

  /** Page table pt maps each virtual page i to frame frames[i], writable. */
  predicate Backs(pt: seq<TranslationEntry>, frames: seq<int>) {
    |pt| == |frames| && forall i :: 0 <= i < |pt| ==> pt[i].physicalPage == frames[i] && !pt[i].readOnly
  }

  /**
   * pt is pt0 with the use and dirty bits set on exactly the pages a copy of
   * `size` bytes from va has translated, and nothing else changed.
   */
  predicate MarkedSince(pt0: seq<TranslationEntry>, pt: seq<TranslationEntry>, va: int, size: int) {
    && |pt| == |pt0|
    && forall i :: 0 <= i < |pt| ==>
         && Mapping(pt[i]) == Mapping(pt0[i])
         && pt[i].use == (pt0[i].use || InPages(va, size, i))
         && pt[i].dirty == (pt0[i].dirty || InPages(va, size, i))
  }

  /**
   * One write translation of the segment-copy loop: it succeeds, keeps the
   * frames, and marks the page of the next chunk, so the marked pages grow
   * from those of `done` bytes to those of done + c bytes.
   */
  lemma {:induction false} MarkStep(pt0: seq<TranslationEntry>, pt: seq<TranslationEntry>, frames: seq<int>,
                                    va: nat, done: nat, c: nat)
    requires FrameSupply(frames) && Backs(pt, frames) && MarkedSince(pt0, pt, va, done)
    requires va + done < |pt| * PAGE_SIZE
    requires 1 <= c <= PAGE_SIZE - (va + done) % PAGE_SIZE
    ensures Translation(pt, va + done, true).ex == NoException
    ensures Translation(pt, va + done, true).paddr == PhysOf(frames, va + done)
    ensures Backs(Translation(pt, va + done, true).table, frames)
    ensures MarkedSince(pt0, Translation(pt, va + done, true).table, va, done + c)
  {
    TranslationIsPhysOf(pt, frames, va + done, true);
    var t := Translation(pt, va + done, true).table;
    forall i | 0 <= i < |t|
      ensures t[i].physicalPage == frames[i] && !t[i].readOnly
      ensures Mapping(t[i]) == Mapping(pt0[i])
      ensures t[i].use == (pt0[i].use || InPages(va, done + c, i))
      ensures t[i].dirty == (pt0[i].dirty || InPages(va, done + c, i))
    {
      PagesGrow(va, done, c, i);
    }
  }

  /**
   * The three segment copies of Load, starting from a table with every use
   * and dirty bit clear, leave each page marked used and dirty exactly when
   * one of the segments spans it, and change nothing else in the table.
   */
  lemma {:induction false} LoadMarks(pt0: seq<TranslationEntry>, pt1: seq<TranslationEntry>, pt2: seq<TranslationEntry>,
                                     pt3: seq<TranslationEntry>, h: NoffHeader)
    requires forall i :: 0 <= i < |pt0| ==> !pt0[i].use && !pt0[i].dirty
    requires MarkedSince(pt0, pt1, Int32(h.code.virtualAddr), Int32(h.code.size))
    requires MarkedSince(pt1, pt2, Int32(h.initData.virtualAddr), Int32(h.initData.size))
    requires MarkedSince(pt2, pt3, Int32(h.readonlyData.virtualAddr), Int32(h.readonlyData.size))
    ensures |pt3| == |pt0|
    ensures forall i :: 0 <= i < |pt0| ==> pt3[i] == pt0[i].(use := Touched(h, i), dirty := Touched(h, i))
  {
    forall i | 0 <= i < |pt0|
      ensures pt3[i] == pt0[i].(use := Touched(h, i), dirty := Touched(h, i))
    {
      assert Mapping(pt3[i]) == Mapping(pt2[i]) == Mapping(pt1[i]) == Mapping(pt0[i]);
    }
  }
}

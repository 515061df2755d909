/**
 * The NOFF object-file header as the address-space loader sees it: thirteen
 * 32-bit words read from offset 0 of the executable, the byte-order check on
 * the magic number, and the header swap performed by SwapHeader.
 */
module Noff {

  /** The magic number every NOFF file starts with. */
  const NOFFMAGIC: bv32 := 0xbadfad

  /** Byte k (0 = least significant) of a 32-bit word. */
  function ByteOf(w: bv32, k: nat): bv8
    requires k < 4
  {
    if k == 0 then (w & 0xff) as bv8
    else if k == 1 then ((w >> 8) & 0xff) as bv8
    else if k == 2 then ((w >> 16) & 0xff) as bv8
    else (w >> 24) as bv8
  }

  /** WordToHost: reverses the order of the four bytes of a word. */
  function WordToHost(w: bv32): (r: bv32)
    ensures ByteOf(r, 0) == ByteOf(w, 3) && ByteOf(r, 1) == ByteOf(w, 2)
    ensures ByteOf(r, 2) == ByteOf(w, 1) && ByteOf(r, 3) == ByteOf(w, 0)
  {
    (w << 24) | ((w << 8) & 0x00ff_0000) | ((w >> 8) & 0x0000_ff00) | (w >> 24)
  }

  /** Reversing the bytes twice gives the word back. */
  lemma WordToHostInvolution(w: bv32)
    ensures WordToHost(WordToHost(w)) == w
  {
  }

  datatype Segment = Segment(virtualAddr: bv32, inFileAddr: bv32, size: bv32)

  datatype NoffHeader = NoffHeader(
    noffMagic: bv32,
    code: Segment,
    initData: Segment,
    readonlyData: Segment,
    uninitData: Segment)

  /** The byte at offset i of the file; a header read past the end of the file sees 0. */
  function ByteAt(file: seq<bv8>, i: nat): bv8 {
    if i < |file| then file[i] else 0
  }

  /** The i-th 32-bit word of the file, assembled least-significant byte first. */
  function WordAt(file: seq<bv8>, i: nat): (w: bv32)
    ensures ByteOf(w, 0) == ByteAt(file, 4 * i) && ByteOf(w, 1) == ByteAt(file, 4 * i + 1)
    ensures ByteOf(w, 2) == ByteAt(file, 4 * i + 2) && ByteOf(w, 3) == ByteAt(file, 4 * i + 3)
  {
    (ByteAt(file, 4 * i) as bv32)
    | ((ByteAt(file, 4 * i + 1) as bv32) << 8)
    | ((ByteAt(file, 4 * i + 2) as bv32) << 16)
    | ((ByteAt(file, 4 * i + 3) as bv32) << 24)
  }

  function SegmentAt(file: seq<bv8>, i: nat): Segment {
    Segment(WordAt(file, i), WordAt(file, i + 1), WordAt(file, i + 2))
  }

  /** Words in a header: the magic number and three per segment. */
  const HEADER_WORDS: nat := 13

  /** Word i of a header, in the order the fields are laid out in the file. */
  function HeaderWord(h: NoffHeader, i: nat): bv32
    requires i < HEADER_WORDS
  {
    if i == 0 then h.noffMagic
    else
      var s := [h.code, h.initData, h.readonlyData, h.uninitData][(i - 1) / 3];
      [s.virtualAddr, s.inFileAddr, s.size][(i - 1) % 3]
  }

  /** The header exactly as ReadAt(&noffH, sizeof(noffH), 0) leaves it, before any byte-order check. */
  function ReadHeader(file: seq<bv8>): (h: NoffHeader)
    ensures forall i :: 0 <= i < HEADER_WORDS ==> HeaderWord(h, i) == WordAt(file, i)
  {
    NoffHeader(WordAt(file, 0), SegmentAt(file, 1), SegmentAt(file, 4), SegmentAt(file, 7), SegmentAt(file, 10))
  }

  function SwapSegment(s: Segment): Segment {
    Segment(WordToHost(s.virtualAddr), WordToHost(s.inFileAddr), WordToHost(s.size))
  }

  /** SwapHeader: every word of the header, magic included, has its bytes reversed. */
  function SwapHeader(h: NoffHeader): (r: NoffHeader)
    ensures forall i :: 0 <= i < HEADER_WORDS ==> HeaderWord(r, i) == WordToHost(HeaderWord(h, i))
  {
    NoffHeader(
      WordToHost(h.noffMagic),
      SwapSegment(h.code),
      SwapSegment(h.initData),
      SwapSegment(h.readonlyData),
      SwapSegment(h.uninitData))
  }

  /** Swapping a header twice gives it back. */
  lemma {:induction false} SwapHeaderInvolution(h: NoffHeader)
    ensures SwapHeader(SwapHeader(h)) == h
  {
    WordToHostInvolution(h.noffMagic);
    forall s | s in {h.code, h.initData, h.readonlyData, h.uninitData}
      ensures SwapSegment(SwapSegment(s)) == s
    {
      WordToHostInvolution(s.virtualAddr);
      WordToHostInvolution(s.inFileAddr);
      WordToHostInvolution(s.size);
    }
  }

  /**
   * The byte-order check of Load: the header is swapped only when its magic
   * number is wrong as read but right once its bytes are reversed.  The
   * result carries NOFFMAGIC exactly when the raw magic matched in one of the
   * two byte orders; otherwise the ASSERT that follows the check fails.
   */
  function HostHeader(raw: NoffHeader): (h: NoffHeader)
    ensures raw.noffMagic == NOFFMAGIC ==> h == raw
    ensures raw.noffMagic != NOFFMAGIC && WordToHost(raw.noffMagic) == NOFFMAGIC ==> h == SwapHeader(raw)
    ensures h.noffMagic == NOFFMAGIC <==> raw.noffMagic == NOFFMAGIC || WordToHost(raw.noffMagic) == NOFFMAGIC
  {
    if raw.noffMagic != NOFFMAGIC && WordToHost(raw.noffMagic) == NOFFMAGIC then SwapHeader(raw) else raw
  }

  /** A valid header written in the other byte order is recognised and restored exactly. */
  lemma {:induction false} ForeignHeaderRestored(h: NoffHeader)
    requires h.noffMagic == NOFFMAGIC
    ensures HostHeader(SwapHeader(h)) == h
  {
    SwapHeaderInvolution(h);
    assert WordToHost(NOFFMAGIC) != NOFFMAGIC;
  }

  /** A header is accepted (possibly after a swap) exactly when its magic matches in one byte order. */
  lemma AcceptedMagic(raw: NoffHeader)
    ensures HostHeader(raw).noffMagic == NOFFMAGIC <==>
            raw.noffMagic == NOFFMAGIC || raw.noffMagic == WordToHost(NOFFMAGIC)
  {
    WordToHostInvolution(raw.noffMagic);
    WordToHostInvolution(NOFFMAGIC);
  }
}

// The LPN driver of the JPEG decoder (`driver.hpp`): it is handed the image
// in DMA batches (`UpdateLpnState`), walks its marker segments with the
// rollback buffer catching segments that straddle two batches, and decodes
// the scan six blocks at a time (`DecodeImage`), painting the R, G and B
// planes and handing the timing net one latency and one task token per
// block.
module JpegDriver {
  import opened Arith
  import opened MemReqs
  import opened Wrappers
  import opened LpnEngine
  import opened JpegNet
  import opened JpegFrame
  import opened JpegOutput
  import opened JpegSegments
  import opened JpegScan
  import opened JpegBitBuffer
  import opened RollbackBuf
  import JpegFuncSim

  /** How a `DecodeImage` call ends: it returns `ok` after `mcus` MCUs, or
      loops for ever, or ends in a division by zero or a store or load
      outside its buffers; or the entropy decoder is asked for more MCUs
      than it was scheduled to yield. */
  datatype DecodeRun = Ran(ok: bool, mcus: nat) | Spins | Crashes | Unscheduled

  /** The bits the entropy decoder reads for one MCU. */
  function BitsOf(o: McuOutcome): nat {
    match o
    case Decoded(m) => m.bits
    case DecodeFailed(n) => n
  }

  /** The bits the entropy decoder reads for the first `k` MCUs of `avail`. */
  function ReadBits(avail: seq<McuOutcome>, k: nat): nat
    requires k <= |avail|
  {
    if k == 0 then 0 else ReadBits(avail, k - 1) + BitsOf(avail[k - 1])
  }

  /** What `CheckPointIdx(global_buf_idx + m_rd_offset / 8)` records: the
      batch index of the byte the next MCU starts in, passed as an `int`
      and kept as a `size_t`. */
  function CheckpointOf(idx: int, rd: int): nat {
    ToU64(ToI32(idx + rd / 8))
  }

  /** The last byte before a checkpoint as `global_m_last`: a `0xFF` would
      make the first pushed byte look like a marker or stuffing, so it is
      kept as 0. */
  function LastBefore(b: Byte): (r: Byte)
    ensures r != 0xFF && (b != 0xFF ==> r == b)
  {
    if b == 0xFF then 0 else b
  }

  /** `rgb_cur_len` after an MCU at cursor `c`: one past the offset of the
      last pixel of its fourth block, the last pixel `ConvertYUV2RGB` sets it
      for. */
  function McuEnd(c: McuCursor, w: nat): nat
    requires w > 0 && c.blockNum >= 0
  {
    PixelOffset(McuBlocks(c, XBlocks(w))[3], 63, w) + 1
  }

  /** Whether the first `k` MCUs of `avail` decoded, the bits not at their
      end before any of them, reading from offset `rd0`. */
  predicate DecodedBefore(marker: int, wr: int, rd0: int, avail: seq<McuOutcome>, k: nat)
    requires k <= |avail|
  {
    k == 0 ||
    (&& DecodedBefore(marker, wr, rd0, avail, k - 1)
     && avail[k - 1].Decoded? && !EofAt(marker, rd0 + ReadBits(avail, k - 1), wr))
  }

  /** How far a `DecodeImage` call from read offset `rd0` went: the first
      `n` MCUs of `avail` decoded, the bits not at their end before any of
      them; then either the end of the bits (`ok`) or an MCU that failed. */
  predicate RanFor(marker: int, wr: int, rd0: int, avail: seq<McuOutcome>, n: nat, ok: bool) {
    && n <= |avail|
    && DecodedBefore(marker, wr, rd0, avail, n)
    && (ok <==> EofAt(marker, rd0 + ReadBits(avail, n), wr))
    && (!ok ==> n < |avail| && avail[n].DecodeFailed?)
  }

  /** A run that reached MCU `k` went through every MCU before it. */
  lemma {:induction false} DecodedBeforeAll(marker: int, wr: int, rd0: int, avail: seq<McuOutcome>, k: nat, j: nat)
    requires k <= |avail| && DecodedBefore(marker, wr, rd0, avail, k) && j < k
    ensures avail[j].Decoded? && !EofAt(marker, rd0 + ReadBits(avail, j), wr)
  {
    if j < k - 1 {
      DecodedBeforeAll(marker, wr, rd0, avail, k - 1, j);
    }
  }

  /** `RunAt` on values: after the first `k` MCUs of `avail`, on a `w` by
      `h` image at time `ts` with the bit buffer's marker flag and write
      offset `marker` and `wr`, the read offset is `rd`, the cursor
      `cursor`, the counter `finished`, the RGB offset `rgbCurLen` and the
      planes and net `snap`. */
  ghost predicate RunState(avail: seq<McuOutcome>, k: nat, toRgb: ColourFn, s0: ScanState, c0: McuCursor, rd0: int,
                           f0: int, r0: int, w: nat, h: nat, ts: int, marker: int, wr: int,
                           rd: int, cursor: McuCursor, finished: int, rgbCurLen: nat, snap: ScanState)
  {
    && k <= |avail| && |s0.tokens| == NPlaces && c0.blockNum >= 0
    && DecodedBefore(marker, wr, rd0, avail, k)
    && rd == rd0 + ReadBits(avail, k)
    && cursor == Advance(c0, XBlocks(w), k) && finished == f0 + 6 * k
    && snap == AfterScan(s0, c0, w, h, avail, k, toRgb, ts)
    && (k == 0 ==> rgbCurLen == r0)
    && (k > 0 ==> w > 0 && rgbCurLen == McuEnd(Advance(c0, XBlocks(w), k - 1), w))
  }

  /** Decoding MCU `k` when the bits are not at their end, painting it at
      the cursor and handing it to the net takes the loop's state one MCU
      further. */
  lemma RunStateNext(avail: seq<McuOutcome>, k: nat, toRgb: ColourFn, s0: ScanState, c0: McuCursor, rd0: int,
                     f0: int, r0: int, w: nat, h: nat, ts: int, marker: int, wr: int,
                     rd: int, cursor: McuCursor, finished: int, rgbCurLen: nat, snap: ScanState,
                     rd1: int, cursor1: McuCursor, finished1: int, rgbCurLen1: nat, snap1: ScanState)
    requires RunState(avail, k, toRgb, s0, c0, rd0, f0, r0, w, h, ts, marker, wr, rd, cursor, finished, rgbCurLen, snap)
    requires k < |avail| && avail[k].Decoded? && !EofAt(marker, rd, wr) && w > 0
    requires rd1 == rd + avail[k].mcu.bits && cursor1 == NextMcu(cursor, XBlocks(w)) && finished1 == finished + 6
    requires rgbCurLen1 == McuEnd(cursor, w) && snap1 == McuStep(snap, cursor, w, h, avail[k], toRgb, ts)
    ensures RunState(avail, k + 1, toRgb, s0, c0, rd0, f0, r0, w, h, ts, marker, wr, rd1, cursor1, finished1, rgbCurLen1, snap1)
  {
    AfterScanNext(s0, c0, w, h, avail, k, toRgb, ts);
  }

  /** The MCUs a call goes through and how it ends are determined by the
      decoder's answers and the bit buffer. */
  lemma RanForUnique(marker: int, wr: int, rd0: int, avail: seq<McuOutcome>, n1: nat, ok1: bool, n2: nat, ok2: bool)
    requires RanFor(marker, wr, rd0, avail, n1, ok1) && RanFor(marker, wr, rd0, avail, n2, ok2)
    ensures n1 == n2 && ok1 == ok2
  {
    if n1 < n2 {
      DecodedBeforeAll(marker, wr, rd0, avail, n2, n1);
    } else if n2 < n1 {
      DecodedBeforeAll(marker, wr, rd0, avail, n1, n2);
    }
  }

  /** What one marker branch of `UpdateLpnState` makes of the bytes
      `data[..n]` from `seg_start = s` on. */
  datatype Parse =
    | Rolls                                                   // a `CHECK_ENOUGH_BUF` returns 0: the tail is saved
    | Overruns                                                // saving the tail runs past the global buffer
    | TooManyComps                                            // SOF0's `assert(num_comps <= 3)` fails
    | Frame(next: int, height: nat, width: nat, mode: Mode)   // SOF0
    | Resume(next: int)                                       // go on at `next`
    | ScanFrom(next: int)                                     // SOS: scan data from `next`
    | Ends                                                    // EOI, SOF2, SOS in an unsupported mode

  /** How the parse loop leaves on a segment's outcome, or `None` when it
      goes on at the outcome's `next`. */
  function Exit(r: Parse): (e: Option<Update>)
    ensures e.None? <==> (r.Frame? || r.Resume? || r.ScanFrom?)
  {
    match r
    case Rolls => Some(RolledBack)
    case Overruns => Some(Crashed)
    case TooManyComps => Some(Crashed)
    case Ends => Some(Stopped)
    case _ => None
  }

  /** A shortfall: with the checkpoint at `lastIdx`, the tail of an
      `n`-byte batch is saved unless it is longer than the global buffer. */
  function Fall(lastIdx: nat, n: nat): Parse {
    if lastIdx < n && n - lastIdx > Capacity then Overruns else Rolls
  }

  /** The batches `UpdateLpnState` parses: its `int` indices, up to a
      segment length past the end, stay below `INT_MAX`. */
  const MaxBatch: nat := 0x7FFF_0000

  /** The segment length word at `s`. */
  function SegLen(data: seq<Byte>, s: nat): nat
    requires s + 2 <= |data|
  {
    Be16(data[s], data[s + 1])
  }

  /** Whether `CHECK_ENOUGH_BUF(seg_start + seg_len - 1)` fails: the last
      byte of the segment is past the batch, or the index is `-1`. */
  predicate SegmentShort(data: seq<Byte>, n: nat, s: nat)
    requires s + 2 <= |data|
  {
    s + SegLen(data, s) == 0 || s + SegLen(data, s) > n
  }

  /** The marker branches of `UpdateLpnState` for byte `b` after `lastB`
      outside the scan data, from `seg_start = s` over the `n` bytes of
      `data`, with the checkpoint at `lastIdx`. Every read is guarded by
      `CHECK_ENOUGH_BUF`; consecutive guards with nothing assigned between
      them fail together, so only the furthest index of each run is checked. */
  function DriverParse(lastB: Byte, b: Byte, data: seq<Byte>, n: nat, s: nat, mode: Mode, lastIdx: nat): (r: Parse)
    requires n <= |data|
  {
    match SegmentOf(lastB, b, false)
    case Sof0 => Sof0Parse(data, n, s, lastIdx)
    case Dqt => Table(data, n, s, lastIdx)
    case Dht => Table(data, n, s, lastIdx)
    case Eoi => Ends
    case Sos =>
      if mode == Unsupported then Ends
      else if s + 2 >= n || s + 5 + 2 * data[s + 2] as nat >= n || SegmentShort(data, n, s) then Fall(lastIdx, n)
      else ScanFrom(s + SegLen(data, s))
    case Sof2 => if s + 1 >= n then Fall(lastIdx, n) else Ends
    case Dri => Skip(data, n, s, lastIdx)
    case Rst => Skip(data, n, s, lastIdx)
    case App => Skip(data, n, s, lastIdx)
    case Com => Skip(data, n, s, lastIdx)
    case _ => Resume(s)
  }

  /** SOF0: the header up to the component count, at most three
      components, all of them and the whole segment; then the frame. */
  function Sof0Parse(data: seq<Byte>, n: nat, s: nat, lastIdx: nat): Parse
    requires n <= |data|
  {
    if s + 7 >= n then Fall(lastIdx, n)
    else
      var nc := data[s + 7] as nat;
      if nc > 3 then TooManyComps
      else if s + 7 + 3 * nc >= n || SegmentShort(data, n, s) then Fall(lastIdx, n)
      else Frame(s + SegLen(data, s), Sof0Height(data, s), Sof0Width(data, s), Classify(Sof0Comps(data, s, nc)))
  }

  /** DQT and DHT: the length word, then the whole segment is checked. */
  function Table(data: seq<Byte>, n: nat, s: nat, lastIdx: nat): Parse
    requires n <= |data|
  {
    if s + 1 >= n || SegmentShort(data, n, s) then Fall(lastIdx, n) else Resume(s + SegLen(data, s))
  }

  /** DRI, RST, APP and COM: the length word only. */
  function Skip(data: seq<Byte>, n: nat, s: nat, lastIdx: nat): Parse
    requires n <= |data|
  {
    if s + 1 >= n then Fall(lastIdx, n) else Resume(s + SegLen(data, s))
  }

  /** How an `UpdateLpnState` call ends. It returns 0 in the first three
      cases: the loop ran past the batch, a branch broke out of it, or a
      `CHECK_ENOUGH_BUF` saved the tail. It crashes on a failing `assert`, a
      store past the global buffer or a fault in `DecodeImage`; it never
      returns if `DecodeImage` spins. The last two cases are the model's
      own: the scan was decoded more often than `scans` has answers for,
      or the loop ran for more iterations than the fuel allows. */
  datatype Update = Consumed | Stopped | RolledBack | Crashed | NeverReturns | ScansExhausted | OutOfFuel

  /** The batch `AugmentBufWithLast` hands the parser: the bytes saved from
      the previous batch, if any, then the new ones. */
  function Joined(saved: seq<Byte>, size: nat, incoming: seq<Byte>): seq<Byte>
    requires size <= |saved|
  {
    if size == 0 then incoming else saved[..size] + incoming
  }

  /** A `func_sim.cc` segment step from `seg_start = s`, in the driver's
      terms: a DQT or DHT fetch is a plain move past the segment. */
  function Lift(t: JpegFuncSim.SegStep, s: nat): Parse {
    match t
    case Resume(k) => Resume(s + k)
    case Frame(k, h, w, m) => Frame(s + k, h, w, m)
    case TooManyComps => TooManyComps
    case Table(_, len) => Resume(s + len)
    case Scan(k) => ScanFrom(s + k)
    case Stop => Ends
  }

  /** Whether the segment the driver reads from `s` runs past the batch:
      SOF0 (when its component count passes the `assert`), DQT, DHT and a
      supported SOS check their last byte; SOS also its header. */
  predicate Straddles(lastB: Byte, b: Byte, data: seq<Byte>, n: nat, s: nat, mode: Mode)
    requires n <= |data| && s + JpegFuncSim.WinLen <= n
  {
    match SegmentOf(lastB, b, false)
    case Sof0 => data[s + 7] <= 3 && SegmentShort(data, n, s)
    case Dqt => SegmentShort(data, n, s)
    case Dht => SegmentShort(data, n, s)
    case Sos => mode != Unsupported && (s + 5 + 2 * data[s + 2] as nat >= n || SegmentShort(data, n, s))
    case _ => false
  }

  /** With the 31 bytes from `seg_start` in the batch, the driver's marker
      branches do what `func_sim.cc`'s chain does on the same bytes, except
      that a segment running past the batch is rolled back. */
  lemma ParseAgreesWithFuncSim(lastB: Byte, b: Byte, data: seq<Byte>, n: nat, s: nat, mode: Mode, lastIdx: nat)
    requires n <= |data| && s + JpegFuncSim.WinLen <= n
    ensures DriverParse(lastB, b, data, n, s, mode, lastIdx)
            == if Straddles(lastB, b, data, n, s, mode) then Fall(lastIdx, n)
               else Lift(JpegFuncSim.SegmentAt(lastB, b, data[s..s + JpegFuncSim.WinLen], mode), s)
  {
    var win := data[s..s + JpegFuncSim.WinLen];
    if SegmentOf(lastB, b, false) == Sof0 && data[s + 7] <= 3 {
      var nc := data[s + 7] as nat;
      assert Sof0Comps(data, s, nc) == Sof0Comps(win, 0, nc);
    }
  }

  /** A marker branch falls back on the rollback only when a byte it
      needs is past the batch: with the whole segment in the batch it
      never does. */
  lemma FallsOnlyPastBatch(lastB: Byte, b: Byte, data: seq<Byte>, n: nat, s: nat, mode: Mode, lastIdx: nat)
    requires n <= |data| && s + JpegFuncSim.WinLen <= n && !Straddles(lastB, b, data, n, s, mode)
    ensures var r := DriverParse(lastB, b, data, n, s, mode, lastIdx);
      !r.Rolls? && !r.Overruns? && (r.Resume? || r.Frame? || r.ScanFrom? ==> s <= r.next)
  {
    ParseAgreesWithFuncSim(lastB, b, data, n, s, mode, lastIdx);
  }

  /** The width in blocks of a `16k`-pixel-wide image is `2k`. */
  lemma XBlocksOf16(k: nat)
    ensures XBlocks(16 * k) == 2 * k
  {
    DivModUnique(16 * k + 7, 2 * k, 8, 7);
  }

  /** For a picture of whole 4:2:0 MCUs, `16k` by `16r` pixels, the last
      MCU leaves `rgb_cur_len` at the pixel count: the whole picture is
      reported ready. */
  lemma LastMcuEnd(k: nat, r: nat)
    requires k >= 1 && r >= 1
    ensures CursorAfter(k * r - 1, 2 * k).blockNum >= 0
    ensures McuEnd(CursorAfter(k * r - 1, 2 * k), 16 * k) == (16 * k) * (16 * r)
  {
    var n, w := k * r - 1, 2 * k;
    assert n == (r - 1) * k + (k - 1) by {
      MulDistrib(r - 1, 1, k);
    }
    DivModUnique(n, r - 1, k, k - 1);
    CursorClosedForm(n, k);
    assert CursorAfter(n, w).blockNum == (8 * k) * (r - 1) + 4 * (k - 1);
    NatProduct(8 * k, r - 1);
    McuBlockAt(n, k, 3);
    assert McuBlocks(CursorAfter(n, w), w)[3] == LastBlock(k, r);
    XBlocksOf16(k);
    LastPixel(k, r);
  }

  lemma NatProduct(a: nat, b: nat)
    ensures a * b >= 0
  {
  }

  /** The bottom right block of a picture `2k` blocks wide and `2r` high. */
  function LastBlock(k: nat, r: nat): nat
    requires k >= 1 && r >= 1
  {
    (2 * (r - 1) + 1) * (2 * k) + 2 * (k - 1) + 1
  }

  /** The last pixel of the bottom right block of a `16k` by `16r`
      picture is its last pixel. */
  lemma LastPixel(k: nat, r: nat)
    requires k >= 1 && r >= 1
    ensures PixelOffset(LastBlock(k, r), 63, 16 * k) + 1 == (16 * k) * (16 * r)
  {
    var blk := LastBlock(k, r);
    XBlocksOf16(k);
    DivModUnique(blk, 2 * r - 1, 2 * k, 2 * k - 1);
    assert PixelX(blk, 63, 16 * k) == 16 * k - 1;
    assert PixelY(blk, 63, 16 * k) == 16 * r - 1;
    MulDistrib(16 * r - 1, 1, 16 * k);
  }

  /** `rgb_cur_len = offset + 1` stores into a `uint16_t`: for a 256 by 256
      picture the last MCU leaves it at 0 instead of 65536. */
  lemma RgbCurLenWraps()
    ensures CursorAfter(255, 32).blockNum >= 0
    ensures McuEnd(CursorAfter(255, 32), 256) == 0x1_0000
    ensures ToU16(McuEnd(CursorAfter(255, 32), 256)) == 0
  {
    LastMcuEnd(16, 16);
  }

  /** `block_num` and `loop` are statics of `DecodeImage` that `Reset()`
      does not clear: after a `16k` by `16r` picture they stand at MCU
      `k * r`, so the first MCU of the next picture of that size lands in
      pixel row `16r`, below its last row, and none of it is painted. */
  lemma StaleCursorOffImage(k: nat, r: nat)
    requires k >= 1 && r >= 1
    ensures McuBlocks(CursorAfter(k * r, 2 * k), 2 * k)[0] == 4 * k * r
    ensures PixelY(4 * k * r, 0, 16 * k) == 16 * r
  {
    DivModUnique(k * r, r, k, 0);
    McuBlockAt(k * r, k, 0);
    XBlocksOf16(k);
    DivModUnique(4 * k * r, 2 * r, 2 * k, 0);
  }

  /** The static state of `driver.hpp`, the three planes, the bit buffer,
      the rollback buffer and the net. */
  class Driver {
    var timestamp: int
    var finished: int
    var mWidth: nat
    var mHeight: nat
    var rgbCurLen: nat
    var rgbConsumedLen: nat
    var numTokens: int
    var lastB: Byte
    var b: Byte
    var decodeDone: bool
    var state: int
    var mcuStart: int
    var mode: Mode
    /** `block_num` and `loop`, the statics of `DecodeImage`. */
    var cursor: McuCursor
    const planes: Planes
    const net: Lpn<JpegTok>
    /** `m_bit_buffer` */
    const bits: BitBuffer
    /** `last_idx`, `last_buf_size` and the global buffer of the rollback. */
    const rb: Rollback

    ghost predicate Valid()
      reads this`mWidth, this`mHeight, this`cursor, this`mcuStart, planes, net, bits, rb
    {
      && planes.Valid() && net.Valid() && net.nPlaces == NPlaces
      && bits.Valid() && bits.globalMRdOffset < 0x8000_0000 && rb.Valid()
      && planes.r != rb.buf && planes.g != rb.buf && planes.b != rb.buf
      && mWidth < U16 && mHeight < U16 && cursor.blockNum >= 0 && (mcuStart == 0 || mcuStart == 1)
    }

    /** The bit-buffer fields `DecodeImage` reads but does not write. */
    function Source(): (int, int, nat, nat, seq<Byte>, int, array<Byte>, int)
      reads bits
    {
      (bits.markerDetected, bits.mWrOffset, bits.globalBufIdx, bits.globalBufLen, bits.globalBuf,
       bits.lastIsPadding, bits.mBuffer, bits.mMaxSize)
    }

    /** Static storage: all zero, no planes, mode unsupported. */
    constructor (net: Lpn<JpegTok>)
      requires net.Valid() && net.nPlaces == NPlaces
      ensures Valid() && this.net == net && fresh(planes) && fresh(bits) && fresh(rb) && fresh(rb.buf)
      ensures planes.r == null && planes.g == null && planes.b == null
      ensures timestamp == 0 && finished == 0 && mWidth == 0 && mHeight == 0 && rgbCurLen == 0 && rgbConsumedLen == 0
      ensures numTokens == 0 && cursor == McuCursor(0, 0) && lastB == 0 && b == 0 && !decodeDone
      ensures state == 0 && mcuStart == 0 && mode == Unsupported
      ensures rb.lastIdx == 0 && rb.lastBufSize == 0
    {
      timestamp, finished, mWidth, mHeight, rgbCurLen, rgbConsumedLen, numTokens := 0, 0, 0, 0, 0, 0, 0;
      cursor := McuCursor(0, 0);
      lastB, b, decodeDone, state, mcuStart, mode := 0, 0, false, 0, 0, Unsupported;
      planes := new Planes();
      this.net := net;
      bits := new BitBuffer();
      rb := new Rollback();
    }

    /** `IsCurImgFinished()`: never before a frame header has set a token
        target; afterwards exactly when `pdone` holds that many tokens. */
    function IsCurImgFinished(): (r: bool)
      requires net.Valid() && net.nPlaces == NPlaces
      reads this`numTokens, net
      ensures r <==> numTokens != 0 && |net.tokens[Pdone]| == numTokens
    {
      if numTokens == 0 then false else net.TokensLen(Pdone) == numTokens
    }

    /** `GetSizeOfRGB()`: one byte per pixel, at most the 64 bytes per
        token of the whole 8x8 blocks. */
    function GetSizeOfRGB(): (r: nat)
      reads this`mWidth, this`mHeight
      ensures r == PixelCount(mWidth, mHeight) && r <= TokenTarget(mWidth, mHeight) * 64
    {
      BlockAreaCovers(mWidth, mHeight);
      mHeight * mWidth
    }

    function GetCurRGBOffset(): nat
      reads this`rgbCurLen
    {
      rgbCurLen
    }

    function GetConsumedRGBOffset(): nat
      reads this`rgbConsumedLen
    {
      rgbConsumedLen
    }

    /** `UpdateConsumedRGBOffset(len)` */
    method UpdateConsumedRGBOffset(len: nat)
      modifies this`rgbConsumedLen
      ensures GetConsumedRGBOffset() == len
    {
      rgbConsumedLen := len;
    }

    /** `Reset()`: every counter and flag back to 0 or false, the bit
        buffer reset to its default size, the planes freed, `ptasks` and
        `pdone` emptied, and the MCU cursor back at the first block;
        `m_mode` and the rollback buffer keep their values. */
    method Reset()
      requires Valid()
      modifies this, planes, net`tokens, bits
      ensures Valid() && bits.mMaxSize == DefaultSize && bits.mWrOffset == 0 && fresh(bits.mBuffer)
      ensures mWidth == 0 && mHeight == 0 && rgbCurLen == 0 && rgbConsumedLen == 0 && numTokens == 0
      ensures lastB == 0 && b == 0 && !decodeDone && state == 0 && mcuStart == 0
      ensures cursor == McuCursor(0, 0) && timestamp == 0 && finished == 0 && mode == old(mode)
      ensures planes.r == null && planes.g == null && planes.b == null
      ensures net.tokens == old(net.tokens)[Ptasks := []][Pdone := []]
    {
      net.Reset(Ptasks);
      net.Reset(Pdone);
      planes.Release();
      bits.Reset(-1);
      ClearStatics();
    }

    /** The counter and flag assignments of `Reset()`. */
    method ClearStatics()
      modifies this`mWidth, this`mHeight, this`rgbCurLen, this`rgbConsumedLen, this`numTokens, this`lastB, this`b
      modifies this`decodeDone, this`state, this`mcuStart, this`cursor, this`timestamp, this`finished
      ensures mWidth == 0 && mHeight == 0 && rgbCurLen == 0 && rgbConsumedLen == 0 && numTokens == 0
      ensures lastB == 0 && b == 0 && !decodeDone && state == 0 && mcuStart == 0
      ensures cursor == McuCursor(0, 0) && timestamp == 0 && finished == 0
    {
      ClearSizes();
      ClearParse();
    }

    /** The image size and the counters of `Reset()`. */
    method ClearSizes()
      modifies this`mWidth, this`mHeight, this`rgbCurLen, this`rgbConsumedLen, this`numTokens, this`timestamp, this`finished
      ensures mWidth == 0 && mHeight == 0 && rgbCurLen == 0 && rgbConsumedLen == 0 && numTokens == 0
      ensures timestamp == 0 && finished == 0
    {
      mWidth, mHeight, rgbCurLen, rgbConsumedLen, numTokens := 0, 0, 0, 0, 0;
      timestamp, finished := 0, 0;
    }

    /** The parser and scan state of `Reset()`. */
    method ClearParse()
      modifies this`lastB, this`b, this`decodeDone, this`state, this`mcuStart, this`cursor
      ensures lastB == 0 && b == 0 && !decodeDone && state == 0 && mcuStart == 0
      ensures cursor == McuCursor(0, 0)
    {
      lastB, b, decodeDone, state, mcuStart := 0, 0, false, 0, 0;
      cursor := McuCursor(0, 0);
    }

    /** Whether saving the batch tail from the checkpoint would overrun the
        8 KiB global buffer, or read past the `avail` bytes of the batch. */
    predicate TailOverruns(n: nat, avail: nat)
      reads rb
    {
      rb.lastIdx < n && (n > avail || n - rb.lastIdx > Capacity)
    }

    /** `eof()` of the bit buffer; a rollback save that overruns memory is
        a `fault`. */
    method SafeEof() returns (ans: bool, fault: bool)
      requires bits.Valid() && rb.Valid()
      modifies rb, rb.buf
      ensures rb.Valid() && rb.lastIdx == old(rb.lastIdx)
      ensures fault <==> Rollback.Short(bits.EofProbe(), bits.EofLen()) && old(TailOverruns(bits.EofLen(), |bits.globalBuf|))
      ensures !fault ==> ans == bits.EofSpec()
      ensures !Rollback.Short(bits.EofProbe(), bits.EofLen()) ==> rb.lastBufSize == old(rb.lastBufSize) && rb.buf[..] == old(rb.buf[..])
    {
      if Rollback.Short(bits.EofProbe(), bits.EofLen()) && TailOverruns(bits.EofLen(), |bits.globalBuf|) {
        return false, true;
      }
      ans := bits.Eof(rb);
      fault := false;
    }

    /** `CHECK_ENOUGH_BUF(x, len, buf, 0)` over the `n` bytes of `buf`:
        `short` when index `x` is past them; saving a tail longer than the
        global buffer writes past it (`fault`). */
    method Need(buf: array<Byte>, n: nat, x: int) returns (short: bool, fault: bool)
      requires rb.Valid() && n <= buf.Length && n < MaxBatch && -1 <= x < U32
      modifies rb, rb.buf
      ensures rb.Valid() && rb.lastIdx == old(rb.lastIdx)
      ensures short == Rollback.Short(x, n) && (short <==> x < 0 || x >= n)
      ensures fault <==> short && Fall(rb.lastIdx, n) == Overruns
      ensures !short ==> rb.lastBufSize == old(rb.lastBufSize) && rb.buf[..] == old(rb.buf[..]) && buf[..] == old(buf[..])
      ensures short && !fault ==> Saved(old(buf[..]), n)
    {
      ShortIff(x, n);
      short := Rollback.Short(x, n);
      if short && TailOverruns(n, buf.Length) {
        return true, true;
      }
      var _ := rb.CheckNotEnoughBuf(x, n, buf[..]);
      fault := false;
    }

    /** The rollback buffer after a shortfall in an `n`-byte batch `data`:
        the bytes from the checkpoint on are at its front. */
    ghost predicate Saved(data: seq<Byte>, n: nat)
      requires n <= |data|
      reads rb, rb.buf
    {
      && rb.lastBufSize == ToU64(n - rb.lastIdx)
      && (rb.lastIdx < n ==> n - rb.lastIdx <= rb.buf.Length && rb.buf[..n - rb.lastIdx] == data[rb.lastIdx..n])
    }

    /** The rollback buffer is as it was. */
    twostate predicate RbKept()
      reads rb, rb.buf
    {
      rb.lastIdx == old(rb.lastIdx) && rb.lastBufSize == old(rb.lastBufSize) && rb.buf[..] == old(rb.buf[..])
    }

    /** What a shortfall leaves in the rollback buffer, for `Parse` `r`. */
    twostate predicate RbAfter(r: Parse, data: seq<Byte>, n: nat)
      requires n <= |data|
      reads rb, rb.buf
    {
      && rb.lastIdx == old(rb.lastIdx)
      && (r == Rolls ==> Saved(data, n))
      && (r != Rolls && r != Overruns ==> rb.lastBufSize == old(rb.lastBufSize) && rb.buf[..] == old(rb.buf[..]))
    }

    /** The SOF0 branch: the height and the width are stored as soon as
        they are read, and with them the token target and (if not yet
        there) the planes, of `m_height * m_width` bytes; the mode once the
        components are read. A shortfall anywhere returns with what has been
        stored so far. */
    method Sof0Segment(buf: array<Byte>, n: nat, s: nat) returns (r: Parse)
      requires Valid() && n <= buf.Length && n < MaxBatch && s <= n && lastB == 0xFF && b == 0xC0
      modifies this`mHeight, this`mWidth, this`numTokens, this`mode, planes, rb, rb.buf
      ensures Valid() && r == DriverParse(lastB, b, old(buf[..]), n, s, old(mode), rb.lastIdx)
      ensures RbAfter(r, old(buf[..]), n)
      ensures FrameRead(old(buf[..]), n, s)
      ensures s + 6 < n ==> PlanesHeld()
      ensures old(PlanesHeld()) ==> planes.r == old(planes.r) && planes.g == old(planes.g) && planes.b == old(planes.b)
      ensures planes.r != old(planes.r) ==> fresh(planes.r) && planes.r[..] == ZeroPlane(GetSizeOfRGB())
      ensures planes.g != old(planes.g) ==> fresh(planes.g) && planes.g[..] == ZeroPlane(GetSizeOfRGB())
      ensures planes.b != old(planes.b) ==> fresh(planes.b) && planes.b[..] == ZeroPlane(GetSizeOfRGB())
    {
      var ok := Sof0Size(buf, n, s);
      if !ok {
        return Fall(rb.lastIdx, n);
      }
      r := Sof0Tail(buf, n, s);
    }

    /** What the SOF0 branch leaves in the frame statics: each field is
        read from the segment when its bytes are in the batch. */
    twostate predicate FrameRead(data: seq<Byte>, n: nat, s: nat)
      requires n <= |data|
      reads this`mHeight, this`mWidth, this`numTokens, this`mode
    {
      && mHeight == (if s + 4 < n then Be16(data[s + 3], data[s + 4]) else old(mHeight))
      && mWidth == (if s + 6 < n then Be16(data[s + 5], data[s + 6]) else old(mWidth))
      && numTokens == (if s + 6 < n then TokenTarget(mWidth, mHeight) else old(numTokens))
      && mode == (if s + 7 < n && data[s + 7] <= 3 && (data[s + 7] == 0 || s + 7 + 3 * data[s + 7] as nat < n)
                  then Classify(Sof0Comps(data, s, data[s + 7] as nat)) else old(mode))
    }

    /** Every other branch leaves the frame statics and the planes alone. */
    twostate predicate FrameKept()
      reads this`mHeight, this`mWidth, this`numTokens, this`mode, planes
    {
      && mHeight == old(mHeight) && mWidth == old(mWidth) && numTokens == old(numTokens) && mode == old(mode)
      && planes.r == old(planes.r) && planes.g == old(planes.g) && planes.b == old(planes.b)
    }

    /** The SOF0 header up to the width: a `false` answer is a shortfall. */
    method Sof0Size(buf: array<Byte>, n: nat, s: nat) returns (ok: bool)
      requires Valid() && n <= buf.Length && n < MaxBatch && s <= n
      modifies this`mHeight, this`mWidth, this`numTokens, planes, rb, rb.buf
      ensures Valid() && rb.lastIdx == old(rb.lastIdx)
      ensures ok <==> s + 6 < n
      ensures !ok ==> (Fall(rb.lastIdx, n) == Rolls ==> Saved(old(buf[..]), n))
      ensures ok ==> rb.lastBufSize == old(rb.lastBufSize) && rb.buf[..] == old(rb.buf[..])
      ensures var data := old(buf[..]);
        && mHeight == (if s + 4 < n then Be16(data[s + 3], data[s + 4]) else old(mHeight))
        && mWidth == (if s + 6 < n then Be16(data[s + 5], data[s + 6]) else old(mWidth))
        && numTokens == (if s + 6 < n then TokenTarget(mWidth, mHeight) else old(numTokens))
      ensures ok ==> PlanesHeld()
      ensures old(PlanesHeld()) ==> planes.r == old(planes.r) && planes.g == old(planes.g) && planes.b == old(planes.b)
      ensures planes.r != old(planes.r) ==> fresh(planes.r) && planes.r[..] == ZeroPlane(GetSizeOfRGB())
      ensures planes.g != old(planes.g) ==> fresh(planes.g) && planes.g[..] == ZeroPlane(GetSizeOfRGB())
      ensures planes.b != old(planes.b) ==> fresh(planes.b) && planes.b[..] == ZeroPlane(GetSizeOfRGB())
    {
      var short, fault := Need(buf, n, s + 4);
      if short {
        return false;
      }
      mHeight := Be16(buf[s + 3], buf[s + 4]);
      short, fault := Need(buf, n, s + 6);
      if short {
        return false;
      }
      mWidth := Be16(buf[s + 5], buf[s + 6]);
      numTokens := TokenTarget(mWidth, mHeight);
      FetchPlanes(GetSizeOfRGB());
      return true;
    }

    /** The rest of the SOF0 header once the width is read: the component
        count, its `assert`, the components and the mode, then the check of
        the whole segment. */
    method Sof0Tail(buf: array<Byte>, n: nat, s: nat) returns (r: Parse)
      requires Valid() && n <= buf.Length && n < MaxBatch && s + 6 < n && lastB == 0xFF && b == 0xC0
      requires mHeight == Be16(buf[s + 3], buf[s + 4]) && mWidth == Be16(buf[s + 5], buf[s + 6])
      modifies this`mode, rb, rb.buf
      ensures Valid() && r == Sof0Parse(old(buf[..]), n, s, rb.lastIdx)
      ensures RbAfter(r, old(buf[..]), n)
      ensures var data := old(buf[..]);
        mode == (if s + 7 < n && data[s + 7] <= 3 && (data[s + 7] == 0 || s + 7 + 3 * data[s + 7] as nat < n)
                 then Classify(Sof0Comps(data, s, data[s + 7] as nat)) else old(mode))
    {
      var short, fault := Need(buf, n, s + 7);
      if short {
        return Fall(rb.lastIdx, n);
      }
      var nc := buf[s + 7] as nat;
      if nc > 3 {
        return TooManyComps;
      }
      if nc > 0 {
        short, fault := Need(buf, n, s + 7 + 3 * nc);
        if short {
          return Fall(rb.lastIdx, n);
        }
      }
      mode := Classify(Sof0Comps(buf[..], s, nc));
      var segLen := Be16(buf[s], buf[s + 1]);
      short, fault := Need(buf, n, s + segLen - 1);
      if short {
        return Fall(rb.lastIdx, n);
      }
      return Frame(s + segLen, mHeight, mWidth, mode);
    }

    /** DQT and DHT: the length word, then the whole segment is checked
        before the table is processed; parsing goes on after the segment. */
    method TableSegment(buf: array<Byte>, n: nat, s: nat) returns (r: Parse)
      requires rb.Valid() && n <= buf.Length && n < MaxBatch && s <= n && SegmentOf(lastB, b, false) in {Dqt, Dht}
      modifies rb, rb.buf
      ensures rb.Valid() && r == DriverParse(lastB, b, old(buf[..]), n, s, mode, rb.lastIdx) && RbAfter(r, old(buf[..]), n)
    {
      var short, fault := Need(buf, n, s + 1);
      if short {
        return Fall(rb.lastIdx, n);
      }
      var segLen := Be16(buf[s], buf[s + 1]);
      short, fault := Need(buf, n, s + segLen - 1);
      if short {
        return Fall(rb.lastIdx, n);
      }
      return Resume(s + segLen);
    }

    /** DRI, RST, APP and COM: only the length word is read; parsing goes
        on after the segment. */
    method SkipSegment(buf: array<Byte>, n: nat, s: nat) returns (r: Parse)
      requires rb.Valid() && n <= buf.Length && n < MaxBatch && s <= n && SegmentOf(lastB, b, false) in {Dri, Rst, App, Com}
      modifies rb, rb.buf
      ensures rb.Valid() && r == DriverParse(lastB, b, old(buf[..]), n, s, mode, rb.lastIdx) && RbAfter(r, old(buf[..]), n)
    {
      var short, fault := Need(buf, n, s + 1);
      if short {
        return Fall(rb.lastIdx, n);
      }
      return Resume(s + Be16(buf[s], buf[s + 1]));
    }

    /** SOF2: the length word is read and parsing stops. */
    method Sof2Segment(buf: array<Byte>, n: nat, s: nat) returns (r: Parse)
      requires rb.Valid() && n <= buf.Length && n < MaxBatch && s <= n && lastB == 0xFF && b == 0xC2
      modifies rb, rb.buf
      ensures rb.Valid() && r == DriverParse(lastB, b, old(buf[..]), n, s, mode, rb.lastIdx) && RbAfter(r, old(buf[..]), n)
    {
      var short, fault := Need(buf, n, s + 1);
      if short {
        return Fall(rb.lastIdx, n);
      }
      return Ends;
    }

    /** SOS: in an unsupported mode parsing stops; otherwise the header is
        read, the whole segment checked, and the scan begins after it, with
        `mcu_start` set and `b`, `last_b` cleared. */
    method SosSegment(buf: array<Byte>, n: nat, s: nat) returns (r: Parse)
      requires rb.Valid() && n <= buf.Length && n < MaxBatch && s <= n && lastB == 0xFF && b == 0xDA
      modifies this`mcuStart, this`b, this`lastB, rb, rb.buf
      ensures rb.Valid() && r == DriverParse(old(lastB), old(b), old(buf[..]), n, s, mode, rb.lastIdx)
      ensures RbAfter(r, old(buf[..]), n)
      ensures r.ScanFrom? ==> mcuStart == 1 && b == 0 && lastB == 0
      ensures !r.ScanFrom? ==> mcuStart == old(mcuStart) && b == old(b) && lastB == old(lastB)
    {
      if mode == Unsupported {
        return Ends;
      }
      var short, fault := Need(buf, n, s + 2);
      if short {
        return Fall(rb.lastIdx, n);
      }
      var compCount := buf[s + 2] as nat;
      short, fault := Need(buf, n, s + 5 + 2 * compCount);
      if short {
        return Fall(rb.lastIdx, n);
      }
      var segLen := Be16(buf[s], buf[s + 1]);
      short, fault := Need(buf, n, s + segLen - 1);
      if short {
        return Fall(rb.lastIdx, n);
      }
      mcuStart, b, lastB := 1, 0, 0;
      return ScanFrom(s + segLen);
    }

    /** What the parse loop needs of a marker branch: the loop only ends
        at EOI, SOF2 or an SOS in an unsupported mode, and never goes back
        before `seg_start`. */
    method Segment(buf: array<Byte>, n: nat, s: nat) returns (r: Parse)
      requires Valid() && n <= buf.Length && n < MaxBatch && s <= n
      requires SegmentOf(lastB, b, mcuStart == 1) != ScanData
      modifies this`mHeight, this`mWidth, this`numTokens, this`mode, this`mcuStart, this`b, this`lastB
      modifies planes, rb, rb.buf
      ensures Valid() && RbAfter(r, old(buf[..]), n)
      ensures r.Ends? ==> lastB == 0xFF && (b == 0xD9 || b == 0xC2 || (b == 0xDA && mode == Unsupported))
      ensures (r.Frame? || r.Resume? || r.ScanFrom?) ==> r.next >= s
      ensures planes.r != old(planes.r) ==> fresh(planes.r)
      ensures planes.g != old(planes.g) ==> fresh(planes.g)
      ensures planes.b != old(planes.b) ==> fresh(planes.b)
    {
      r := ParseSegment(buf, n, s);
    }

    /** One marker branch of `UpdateLpnState` outside the scan data, for
        the byte pair `(last_b, b)`, from `seg_start = s`. */
    method ParseSegment(buf: array<Byte>, n: nat, s: nat) returns (r: Parse)
      requires Valid() && n <= buf.Length && n < MaxBatch && s <= n
      requires SegmentOf(lastB, b, mcuStart == 1) != ScanData
      modifies this`mHeight, this`mWidth, this`numTokens, this`mode, this`mcuStart, this`b, this`lastB
      modifies planes, rb, rb.buf
      ensures Valid() && r == DriverParse(old(lastB), old(b), old(buf[..]), n, s, old(mode), rb.lastIdx)
      ensures RbAfter(r, old(buf[..]), n)
      ensures r.ScanFrom? ==> mcuStart == 1 && b == 0 && lastB == 0
      ensures !r.ScanFrom? ==> mcuStart == old(mcuStart) && b == old(b) && lastB == old(lastB)
      ensures old(SegmentOf(lastB, b, false)) != Sof0 ==> FrameKept()
      ensures old(SegmentOf(lastB, b, false)) == Sof0 ==> FrameRead(old(buf[..]), n, s)
      ensures planes.r != old(planes.r) ==> fresh(planes.r)
      ensures planes.g != old(planes.g) ==> fresh(planes.g)
      ensures planes.b != old(planes.b) ==> fresh(planes.b)
    {
      var seg := SegmentOf(lastB, b, false);
      if seg == Sof0 {
        r := Sof0Segment(buf, n, s);
      } else if seg == Sos {
        r := SosSegment(buf, n, s);
      } else {
        r := OtherSegment(buf, n, s);
      }
    }

    /** The branches that touch neither the frame statics nor `mcu_start`. */
    method OtherSegment(buf: array<Byte>, n: nat, s: nat) returns (r: Parse)
      requires rb.Valid() && n <= buf.Length && n < MaxBatch && s <= n && SegmentOf(lastB, b, false) !in {Sof0, Sos}
      modifies rb, rb.buf
      ensures rb.Valid() && r == DriverParse(lastB, b, old(buf[..]), n, s, mode, rb.lastIdx) && RbAfter(r, old(buf[..]), n)
      ensures !r.ScanFrom?
    {
      match SegmentOf(lastB, b, false)
      case Dqt => r := TableSegment(buf, n, s);
      case Dht => r := TableSegment(buf, n, s);
      case Eoi => r := Ends;
      case Sof2 => r := Sof2Segment(buf, n, s);
      case Dri => r := SkipSegment(buf, n, s);
      case Rst => r := SkipSegment(buf, n, s);
      case App => r := SkipSegment(buf, n, s);
      case Com => r := SkipSegment(buf, n, s);
      case _ => r := Resume(s);
    }

    /** The scan-data branch of `UpdateLpnState` up to `copy_out`: the bit
        buffer is reset to the batch length and pointed at `buf` from `i0`,
        the bytes are pushed (`ScanLoop`), and the bytes it kept are copied
        back over `buf` from `i0`. */
    method ScanPush(buf: array<Byte>, n: nat, i0: nat) returns (i: int, aborted: bool)
      requires Valid() && n <= buf.Length && n < MaxBatch && i0 < n && mcuStart == 1
      modifies this`mcuStart, this`b, bits, buf
      ensures Valid()
      ensures !aborted ==>
        && Pushed(old(buf[..]), n, i0, i, old(bits.markerDetected))
        && bits.mRdOffset == old(bits.globalMRdOffset) && bits.globalBuf == buf[..]
        && bits.globalBufLen == ToU64(i0 + bits.mWrOffset) && i0 + bits.mWrOffset <= n
        && (bits.mWrOffset > 0 ==>
              && buf[i0..i0 + bits.mWrOffset] == bits.mBuffer[..bits.mWrOffset]
              && buf[..i0] == old(buf[..])[..i0] && buf[i0 + bits.mWrOffset..] == old(buf[..])[i0 + bits.mWrOffset..])
        && (bits.mWrOffset <= 0 ==> buf[..] == old(buf[..]))
    {
      ScanReset(buf, n, i0);
      i, aborted := ScanLoop(buf, n, i0);
      if !aborted {
        bits.CopyOut(buf);
        bits.globalBuf := buf[..];
      }
    }

    /** `m_bit_buffer.reset(len)` and `set_global_buf(buf, i, len)`: an
        empty bit buffer of the batch's length, reading from `buf` at `i0`. */
    method ScanReset(buf: array<Byte>, n: nat, i0: nat)
      requires Valid() && n <= buf.Length && n < MaxBatch && i0 < n
      modifies bits
      ensures Valid() && fresh(bits.mBuffer) && bits.mMaxSize == n && bits.mWrOffset == 0
      ensures bits.globalBuf == buf[..] && bits.globalBufIdx == i0 && bits.globalBufLen == n
      ensures bits.mRdOffset == old(bits.globalMRdOffset) && bits.globalMRdOffset == 0
      ensures bits.markerDetected == old(bits.markerDetected)
    {
      bits.Reset(n);
      bits.globalBuf := buf[..];
      bits.globalBufIdx := i0;
      bits.globalBufLen := n;
    }

    /** Where the push loop of the scan branch, over the bytes `data[..n]`
        from `i0` with the bit buffer fresh, leaves `i`, `mcu_start`, `b`
        and the bit buffer: either every byte went in (`i == n`), or the
        byte at `i + 1` was refused as a marker. */
    ghost predicate Pushed(data: seq<Byte>, n: nat, i0: nat, i: int, marker0: int)
      requires n <= |data|
      reads this`mcuStart, this`b, bits
    {
      && i0 - 1 <= i <= n && bits.mMaxSize == n && bits.globalBufIdx == i0
      && (mcuStart == 0 <==> i < n)
      && (i < n ==> i + 1 < n && bits.markerDetected == 1 && b == data[i + 1])
      && (i == n && n > i0 ==> bits.markerDetected == marker0 && b == data[n - 1])
      && bits.mWrOffset <= (if i < n then i + 1 else n) - i0
    }

    /** `while (i < len) { b = buf[i]; if (push(b)) i++; else { i--;
        mcu_start = 0; break; } }` */
    method ScanLoop(buf: array<Byte>, n: nat, i0: nat) returns (i: int, aborted: bool)
      requires bits.Valid() && n <= buf.Length && i0 < n && mcuStart == 1
      requires bits.mBuffer != buf && bits.mMaxSize == n && bits.mWrOffset == 0 && bits.globalBufIdx == i0
      modifies this`mcuStart, this`b, bits, bits.mBuffer
      ensures bits.Valid() && bits.mBuffer == old(bits.mBuffer) && (mcuStart == 0 || mcuStart == 1)
      ensures bits.mRdOffset == old(bits.mRdOffset) && bits.globalBuf == old(bits.globalBuf)
      ensures bits.globalMRdOffset == old(bits.globalMRdOffset)
      ensures !aborted ==> Pushed(buf[..], n, i0, i, old(bits.markerDetected))
    {
      ghost var m0 := bits.markerDetected;
      i := i0;
      aborted := false;
      while i < n
        invariant i0 <= i <= n && mcuStart == 1
        invariant bits.Valid() && bits.mBuffer == old(bits.mBuffer) && bits.mMaxSize == n && bits.globalBufIdx == i0
        invariant bits.mRdOffset == old(bits.mRdOffset) && bits.globalBuf == old(bits.globalBuf)
        invariant bits.globalMRdOffset == old(bits.globalMRdOffset)
        invariant bits.mWrOffset <= i - i0 && bits.markerDetected == m0
        invariant i > i0 ==> b == buf[i - 1]
        decreases n - i
      {
        b := buf[i];
        var ok;
        ok, aborted := bits.Push(b);
        if aborted {
          return;
        }
        if ok {
          i := i + 1;
        } else {
          i := i - 1;
          mcuStart := 0;
          break;
        }
      }
    }

    /** The scan-data branch of `UpdateLpnState`: `ScanPush`, then
        `decode_done = DecodeImage()` over the batch's scan data. The
        decoding starts from the read offset the bit buffer's reset took
        over, and from the planes and the net as they were. */
    method ScanBytes(buf: array<Byte>, n: nat, i0: nat, avail: seq<McuOutcome>, toRgb: ColourFn)
      returns (i: int, res: DecodeRun)
      requires Valid() && AvailShaped(avail) && n <= buf.Length && n < MaxBatch && i0 < n && mcuStart == 1
      requires buf != planes.r && buf != planes.g && buf != planes.b
      modifies this`mcuStart, this`b, this`decodeDone, this`cursor, this`finished, this`rgbCurLen
      modifies planes, planes.r, planes.g, planes.b, net`tokens, bits, rb, rb.buf, buf
      ensures Valid()
      ensures planes.r != old(planes.r) ==> fresh(planes.r)
      ensures planes.g != old(planes.g) ==> fresh(planes.g)
      ensures planes.b != old(planes.b) ==> fresh(planes.b)
      ensures !res.Crashes? ==> i0 - 1 <= i <= n && (mcuStart == 0 <==> i < n) && decodeDone == (res.Ran? && res.ok)
      ensures mode == YCbCr420 ==> !res.Spins?
      ensures mode == YCbCr420 && res.Ran? ==>
        RanFor(bits.markerDetected, bits.mWrOffset, old(bits.globalMRdOffset), avail, res.mcus, res.ok)
    {
      var aborted;
      i, aborted := ScanPush(buf, n, i0);
      if aborted {
        return i, Crashes;
      }
      res := DecodeScan(avail, toRgb);
    }

    /** `decode_done = DecodeImage()` */
    method DecodeScan(avail: seq<McuOutcome>, toRgb: ColourFn) returns (res: DecodeRun)
      requires Valid() && AvailShaped(avail)
      modifies this`decodeDone, this`cursor, this`finished, this`rgbCurLen
      modifies planes, planes.r, planes.g, planes.b, net`tokens, bits, rb, rb.buf
      ensures Valid() && decodeDone == (res.Ran? && res.ok) && mcuStart == old(mcuStart)
      ensures planes.r != old(planes.r) ==> fresh(planes.r)
      ensures planes.g != old(planes.g) ==> fresh(planes.g)
      ensures planes.b != old(planes.b) ==> fresh(planes.b)
      ensures mode == YCbCr420 ==> !res.Spins?
      ensures mode == YCbCr420 && res.Ran? ==>
        RanFor(bits.markerDetected, bits.mWrOffset, old(bits.mRdOffset), avail, res.mcus, res.ok)
    {
      res := DecodeImage(avail, toRgb);
      decodeDone := res.Ran? && res.ok;
    }

    /** `UpdateLpnState(buf, len, ts)`: the saved tail, if any, is joined
        to the batch, which is parsed byte by byte from 0. Outside the scan
        data each byte seen is checkpointed; the marker branches and the
        scan branch (`DecodeImage` over the next entry of `scans`) move the
        index on, and `last_b` follows `b` except where a branch breaks
        out of the loop. */
    method UpdateLpnState(src: array<Byte>, len0: nat, ts: int, scans: seq<seq<McuOutcome>>, toRgb: ColourFn, fuel: nat)
      returns (res: Update, calls: nat, ghost batch: seq<Byte>)
      requires Valid() && len0 <= src.Length && len0 < MaxBatch
      requires src != rb.buf && src != planes.r && src != planes.g && src != planes.b
      requires forall j :: 0 <= j < |scans| ==> AvailShaped(scans[j])
      modifies this`timestamp, this`mHeight, this`mWidth, this`numTokens, this`mode, this`mcuStart, this`b, this`lastB
      modifies this`decodeDone, this`cursor, this`finished, this`rgbCurLen
      modifies planes, planes.r, planes.g, planes.b, net`tokens, bits, rb, rb.buf, src
      ensures Valid() && timestamp == ts && calls <= |scans|
      ensures old(rb.lastBufSize) != 0 && old(rb.lastBufSize) + len0 > Capacity ==> res == Crashed && calls == 0
      ensures res == Stopped ==> lastB == 0xFF && (b == 0xD9 || b == 0xC2 || (b == 0xDA && mode == Unsupported))
      ensures res == RolledBack ==> |batch| > 0 && Saved(batch, |batch|)
      ensures res == RolledBack && calls == 0 ==>
        batch == Joined(old(rb.buf[..]), old(rb.lastBufSize), old(src[..len0]))
    {
      timestamp := ts;
      batch := [];
      calls := 0;
      if rb.lastBufSize != 0 && rb.lastBufSize + len0 > Capacity {
        return Crashed, 0, batch;
      }
      var fromLast, n := rb.AugmentBufWithLast(src[..len0], len0);
      var buf := if fromLast then rb.buf else src;
      assert buf[..n] == Joined(old(rb.buf[..]), old(rb.lastBufSize), old(src[..len0]));
      res, calls, batch := ParseLoop(buf, n, scans, toRgb, fuel);
    }

    /** The parse loop of `UpdateLpnState` over the `n` bytes of `buf`,
        for at most `fuel` iterations. */
    method ParseLoop(buf: array<Byte>, n: nat, scans: seq<seq<McuOutcome>>, toRgb: ColourFn, fuel: nat)
      returns (res: Update, calls: nat, ghost batch: seq<Byte>)
      requires Valid() && n <= buf.Length && n < MaxBatch
      requires buf != planes.r && buf != planes.g && buf != planes.b
      requires forall j :: 0 <= j < |scans| ==> AvailShaped(scans[j])
      modifies this`mHeight, this`mWidth, this`numTokens, this`mode, this`mcuStart, this`b, this`lastB
      modifies this`decodeDone, this`cursor, this`finished, this`rgbCurLen
      modifies planes, planes.r, planes.g, planes.b, net`tokens, bits, rb, rb.buf, buf
      ensures Valid() && calls <= |scans|
      ensures res == Stopped ==> lastB == 0xFF && (b == 0xD9 || b == 0xC2 || (b == 0xDA && mode == Unsupported))
      ensures res == RolledBack ==> n > 0 && |batch| == n && Saved(batch, n)
      ensures res == RolledBack && calls == 0 ==> batch == old(buf[..n])
    {
      batch := buf[..n];
      calls := 0;
      var i: int := 0;
      var f := fuel;
      while 0 <= i < n
        invariant Valid() && calls <= |scans|
        invariant buf != planes.r && buf != planes.g && buf != planes.b
        invariant planes.r == old(planes.r) || fresh(planes.r)
        invariant planes.g == old(planes.g) || fresh(planes.g)
        invariant planes.b == old(planes.b) || fresh(planes.b)
        invariant calls == 0 ==> buf[..n] == old(buf[..n])
        invariant -1 <= i
        decreases f
      {
        if f == 0 {
          return OutOfFuel, calls, batch;
        }
        f := f - 1;
        batch := buf[..n];
        var stop;
        i, calls, stop := ParseStep(buf, n, i, scans, calls, toRgb);
        if stop.Some? {
          return stop.value, calls, batch;
        }
      }
      return Consumed, calls, batch;
    }

    /** One iteration of the parse loop of `UpdateLpnState` at `i`:
        `Some` when it leaves the loop. */
    method ParseStep(buf: array<Byte>, n: nat, i0: int, scans: seq<seq<McuOutcome>>, calls0: nat, toRgb: ColourFn)
      returns (i: int, calls: nat, stop: Option<Update>)
      requires Valid() && n <= buf.Length && n < MaxBatch && 0 <= i0 < n && calls0 <= |scans|
      requires buf != planes.r && buf != planes.g && buf != planes.b
      requires forall j :: 0 <= j < |scans| ==> AvailShaped(scans[j])
      modifies this`mHeight, this`mWidth, this`numTokens, this`mode, this`mcuStart, this`b, this`lastB
      modifies this`decodeDone, this`cursor, this`finished, this`rgbCurLen
      modifies planes, planes.r, planes.g, planes.b, net`tokens, bits, rb, rb.buf, buf
      ensures Valid() && calls0 <= calls <= |scans|
      ensures planes.r != old(planes.r) ==> fresh(planes.r)
      ensures planes.g != old(planes.g) ==> fresh(planes.g)
      ensures planes.b != old(planes.b) ==> fresh(planes.b)
      ensures calls == calls0 && stop.None? ==> buf[..] == old(buf[..])
      ensures stop.None? ==> -1 <= i && lastB == b
      ensures stop.Some? ==> !stop.value.Consumed? && !stop.value.OutOfFuel?
      ensures stop == Some(Stopped) ==> lastB == 0xFF && (b == 0xD9 || b == 0xC2 || (b == 0xDA && mode == Unsupported))
      ensures stop == Some(RolledBack) ==> calls == calls0 && Saved(old(buf[..]), n)
    {
      i, calls := i0, calls0;
      if mcuStart == 0 {
        i := NextByte(buf, i);
      }
      if SegmentOf(lastB, b, mcuStart == 1) == ScanData {
        i, calls, stop := ScanStep(buf, n, i, scans, calls, toRgb);
      } else {
        i, stop := MarkerStep(buf, n, i);
      }
    }

    /** The head of the parse loop outside a scan: `CheckPointIdx(i)`, then
        `b = buf[i++]`; `CHECK_ENOUGH_BUF(i)` with `i < len` always passes. */
    method NextByte(buf: array<Byte>, i: nat) returns (next: nat)
      requires rb.Valid() && i < buf.Length
      modifies rb, this`b
      ensures rb.Valid() && rb.lastIdx == ToU64(i) && rb.lastBufSize == old(rb.lastBufSize)
      ensures b == buf[i] && next == i + 1
    {
      rb.CheckPointIdx(i);
      b := buf[i];
      next := i + 1;
    }

    /** The scan-data branch inside the parse loop, over the next entry of
        `scans`. */
    method ScanStep(buf: array<Byte>, n: nat, i0: int, scans: seq<seq<McuOutcome>>, calls0: nat, toRgb: ColourFn)
      returns (i: int, calls: nat, stop: Option<Update>)
      requires Valid() && n <= buf.Length && n < MaxBatch && 0 <= i0 < n && calls0 <= |scans| && mcuStart == 1
      requires buf != planes.r && buf != planes.g && buf != planes.b
      requires forall j :: 0 <= j < |scans| ==> AvailShaped(scans[j])
      modifies this`mcuStart, this`b, this`lastB, this`decodeDone, this`cursor, this`finished, this`rgbCurLen
      modifies planes, planes.r, planes.g, planes.b, net`tokens, bits, rb, rb.buf, buf
      ensures Valid() && (calls == calls0 + 1 <= |scans| || (calls == calls0 == |scans| && stop == Some(ScansExhausted)))
      ensures planes.r != old(planes.r) ==> fresh(planes.r)
      ensures planes.g != old(planes.g) ==> fresh(planes.g)
      ensures planes.b != old(planes.b) ==> fresh(planes.b)
      ensures stop.None? ==> -1 <= i && lastB == b
      ensures stop.Some? ==> (stop.value.Crashed? || stop.value.NeverReturns? || stop.value.ScansExhausted?)
    {
      i, calls, stop := i0, calls0, None;
      if calls == |scans| {
        return i, calls, Some(ScansExhausted);
      }
      var run;
      i, run := ScanBytes(buf, n, i, scans[calls], toRgb);
      calls := calls + 1;
      match run
      case Crashes => stop := Some(Crashed);
      case Spins => stop := Some(NeverReturns);
      case Unscheduled => stop := Some(ScansExhausted);
      case Ran(_, _) => lastB := b;
    }

    /** A marker branch inside the parse loop: `Some` when it returns or
        breaks out of the loop. */
    method MarkerStep(buf: array<Byte>, n: nat, s: nat) returns (i: int, stop: Option<Update>)
      requires Valid() && n <= buf.Length && n < MaxBatch && s <= n
      requires SegmentOf(lastB, b, mcuStart == 1) != ScanData
      modifies this`mHeight, this`mWidth, this`numTokens, this`mode, this`mcuStart, this`b, this`lastB
      modifies planes, rb, rb.buf
      ensures Valid()
      ensures planes.r != old(planes.r) ==> fresh(planes.r)
      ensures planes.g != old(planes.g) ==> fresh(planes.g)
      ensures planes.b != old(planes.b) ==> fresh(planes.b)
      ensures stop.None? ==> buf[..] == old(buf[..])
      ensures stop.None? ==> s <= i && lastB == b
      ensures stop.Some? ==> (stop.value.Stopped? || stop.value.RolledBack? || stop.value.Crashed?)
      ensures stop == Some(Stopped) ==> lastB == 0xFF && (b == 0xD9 || b == 0xC2 || (b == 0xDA && mode == Unsupported))
      ensures stop == Some(RolledBack) ==> Saved(old(buf[..]), n)
    {
      ghost var data := buf[..];
      var r := Segment(buf, n, s);
      i, stop := s, Exit(r);
      if stop.None? {
        i, lastB := r.next, b;
      }
    }

    /** The checkpoint `DecodeImage` takes before each 4:2:0 MCU: the
        rollback index at the byte the MCU starts in, the distance from
        there to the end of the data as `last_detect_marker`, the bit
        within that byte, and the byte before it as `global_m_last`. The
        `size_t` test for a negative index never holds, so at index 0 the
        byte before is read from outside the batch, as is one past it
        (`fault`). */
    method CheckPoint() returns (fault: bool)
      requires bits.Valid() && rb.Valid()
      modifies rb, bits
      ensures bits.Valid() && rb.Valid() && Source() == old(Source()) && bits.mRdOffset == old(bits.mRdOffset)
      ensures rb.lastIdx == CheckpointOf(bits.globalBufIdx, bits.mRdOffset) && rb.lastBufSize == old(rb.lastBufSize)
      ensures var idx := bits.globalBufIdx + bits.mRdOffset / 8;
        && (fault <==> idx == 0 || idx > |bits.globalBuf|)
        && bits.lastDetectMarker == ToI32(bits.globalBufLen + bits.lastIsPadding - idx)
        && bits.globalMRdOffset == bits.mRdOffset % 8
        && (!fault ==> bits.globalMLast == LastBefore(bits.globalBuf[idx - 1]))
    {
      var idx := bits.globalBufIdx + bits.mRdOffset / 8;
      rb.CheckPointIdx(ToI32(idx));
      bits.lastDetectMarker := ToI32(bits.globalBufLen + bits.lastIsPadding - idx);
      bits.globalMRdOffset := bits.mRdOffset % 8;
      if idx == 0 || idx > |bits.globalBuf| {
        return true;
      }
      bits.globalMLast := LastBefore(bits.globalBuf[idx - 1]);
      return false;
    }
    /** The part of `DecodeImage` for one decoded 4:2:0 MCU once its six
        blocks are decoded: the four `ConvertYUV2RGB` calls at the cursor,
        which fetch the planes (`m_height * m_width` bytes each) on first
        use, set `rgb_cur_len`, and divide by zero for a zero width; the
        cursor step; `finished += 6`; and the six latency and task tokens. */
    method ConvertMcu(m: Mcu, toRgb: ColourFn) returns (fault: bool)
      requires Valid() && McuShaped(m)
      modifies this`cursor, this`finished, this`rgbCurLen, planes, planes.r, planes.g, planes.b, net`tokens
      ensures Valid()
      ensures planes.r != old(planes.r) ==> fresh(planes.r)
      ensures planes.g != old(planes.g) ==> fresh(planes.g)
      ensures planes.b != old(planes.b) ==> fresh(planes.b)
      ensures old(PlanesHeld()) ==> planes.r == old(planes.r) && planes.g == old(planes.g) && planes.b == old(planes.b)
      ensures fault ==> mWidth == 0 || !old(PlanesFit(planes, mWidth, mHeight))
      ensures mWidth == 0 ==> fault
      ensures !fault ==>
        && cursor == NextMcu(old(cursor), XBlocks(mWidth)) && finished == old(finished) + 6
        && rgbCurLen == McuEnd(old(cursor), mWidth)
        && Snapshot(planes, net, GetSizeOfRGB())
           == McuStep(old(Snapshot(planes, net, GetSizeOfRGB())), old(cursor), mWidth, mHeight, Decoded(m), toRgb, timestamp)
    {
      FetchPlanes(GetSizeOfRGB());
      fault := ConvertHeld(m, toRgb);
    }

    /** `ConvertYUV2RGB` once the planes exist. */
    method ConvertHeld(m: Mcu, toRgb: ColourFn) returns (fault: bool)
      requires Valid() && PlanesHeld() && McuShaped(m)
      modifies this`cursor, this`finished, this`rgbCurLen, planes, planes.r, planes.g, planes.b, net`tokens
      ensures Valid() && planes.r == old(planes.r) && planes.g == old(planes.g) && planes.b == old(planes.b)
      ensures fault ==> mWidth == 0 || !PlanesFit(planes, mWidth, mHeight)
      ensures mWidth == 0 ==> fault
      ensures !fault ==>
        && cursor == NextMcu(old(cursor), XBlocks(mWidth)) && finished == old(finished) + 6
        && rgbCurLen == McuEnd(old(cursor), mWidth)
        && Snapshot(planes, net, GetSizeOfRGB())
           == McuStep(old(Snapshot(planes, net, GetSizeOfRGB())), old(cursor), mWidth, mHeight, Decoded(m), toRgb, timestamp)
    {
      var size := GetSizeOfRGB();
      var next;
      next, fault := StepMcu(planes, net, size, mWidth, mHeight, timestamp, cursor, m, toRgb);
      if fault {
        return;
      }
      rgbCurLen := McuEnd(cursor, mWidth);
      cursor := next;
      finished := finished + 6;
    }

    /** Whether all three planes have been allocated. */
    ghost predicate PlanesHeld()
      reads planes
    {
      planes.r != null && planes.g != null && planes.b != null
    }

    /** `GetMOutputR/G/B()`: the planes, allocated zeroed on first use;
        what they hold, with an unallocated plane read as zeros, is the same. */
    method FetchPlanes(size: nat)
      requires planes.Valid() && size == PixelCount(mWidth, mHeight)
      modifies planes
      ensures planes.Valid() && planes.r != null && planes.g != null && planes.b != null
      ensures old(planes.r) != null ==> planes.r == old(planes.r)
      ensures old(planes.g) != null ==> planes.g == old(planes.g)
      ensures old(planes.b) != null ==> planes.b == old(planes.b)
      ensures planes.r != old(planes.r) ==> fresh(planes.r)
      ensures planes.g != old(planes.g) ==> fresh(planes.g)
      ensures planes.b != old(planes.b) ==> fresh(planes.b)
      ensures Contents(planes.r, size) == old(Contents(planes.r, size))
      ensures Contents(planes.g, size) == old(Contents(planes.g, size))
      ensures Contents(planes.b, size) == old(Contents(planes.b, size))
      ensures Snapshot(planes, net, size) == old(Snapshot(planes, net, size))
      ensures old(PlanesFit(planes, mWidth, mHeight)) ==> PlanesFit(planes, mWidth, mHeight)
    {
      var _ := planes.Get(Red, size);
      var _ := planes.Get(Green, size);
      var _ := planes.Get(Blue, size);
    }

    /** `DecodeImage` outside 4:2:0 mode: nothing is decoded, but while the
        bit buffer is not at its end every iteration hands the net six
        tokens, so the loop never stops. */
    method DecodeOther() returns (res: DecodeRun)
      requires Valid()
      modifies rb, rb.buf
      ensures Valid()
      ensures res.Crashes? <==> Rollback.Short(bits.EofProbe(), bits.EofLen()) && old(TailOverruns(bits.EofLen(), |bits.globalBuf|))
      ensures !res.Crashes? ==> (if bits.EofSpec() then res == Ran(true, 0) else res == Spins)
    {
      var e, fault := SafeEof();
      if fault {
        return Crashes;
      }
      return if e then Ran(true, 0) else Spins;
    }
    /** The top of a 4:2:0 iteration for MCU `k`: the `eof()` test, the
        checkpoint, and the entropy decoder's answer. */
    method McuHead(avail: seq<McuOutcome>, k: nat) returns (stop: Option<DecodeRun>)
      requires Valid() && k <= |avail|
      modifies rb, rb.buf, bits
      ensures Valid() && Source() == old(Source()) && bits.mRdOffset == old(bits.mRdOffset)
      ensures stop.Some? ==> (stop.value.Ran? && stop.value.mcus == k) || stop.value.Unscheduled? || stop.value.Crashes?
      ensures stop == Some(Ran(true, k)) ==> bits.EofSpec()
      ensures stop == Some(Ran(false, k)) ==> !bits.EofSpec() && k < |avail| && avail[k].DecodeFailed?
      ensures stop == Some(Unscheduled) ==> !bits.EofSpec() && k == |avail|
      ensures stop.None? ==> !bits.EofSpec() && k < |avail| && avail[k].Decoded?
      ensures stop.None? || stop == Some(Ran(false, k)) ==> rb.lastIdx == CheckpointOf(bits.globalBufIdx, bits.mRdOffset)
    {
      var e, fault := SafeEof();
      if fault {
        return Some(Crashes);
      }
      if e {
        return Some(Ran(true, k));
      }
      if k == |avail| {
        return Some(Unscheduled);
      }
      fault := CheckPoint();
      if fault {
        return Some(Crashes);
      }
      if avail[k].DecodeFailed? {
        return Some(Ran(false, k));
      }
      return None;
    }

    /** `DecodeImage()` over the MCUs `avail` the entropy decoder yields:
        in 4:2:0 mode the MCU loop; in any other mode nothing is decoded
        and the loop never ends unless the bits are already at their end. */
    method DecodeImage(avail: seq<McuOutcome>, toRgb: ColourFn) returns (res: DecodeRun)
      requires Valid() && AvailShaped(avail)
      modifies this`cursor, this`finished, this`rgbCurLen, planes, planes.r, planes.g, planes.b, net`tokens
      modifies bits, rb, rb.buf
      ensures Valid() && Source() == old(Source())
      ensures planes.r != old(planes.r) ==> fresh(planes.r)
      ensures planes.g != old(planes.g) ==> fresh(planes.g)
      ensures planes.b != old(planes.b) ==> fresh(planes.b)
      ensures mode != YCbCr420 ==>
        && (res.Spins? || res.Crashes? || res == Ran(true, 0))
        && (res == Ran(true, 0) <==> bits.EofSpec() && !res.Crashes?)
        && cursor == old(cursor) && finished == old(finished)
      ensures mode == YCbCr420 ==> !res.Spins?
      ensures mode == YCbCr420 && res.Ran? ==>
        RanFor(bits.markerDetected, bits.mWrOffset, old(bits.mRdOffset), avail, res.mcus, res.ok)
    {
      if mode == YCbCr420 {
        res := Decode420(avail, toRgb);
      } else {
        res := DecodeOther();
      }
    }

    /** `DecodeImage` in 4:2:0 mode, over the MCUs `avail` the entropy
        decoder yields: until the bit buffer is at its end, each MCU is
        checkpointed, decoded (reading its bits), painted at the cursor
        and handed to the net; a failing one ends the call with false. */
    method Decode420(avail: seq<McuOutcome>, toRgb: ColourFn) returns (res: DecodeRun)
      requires Valid() && mode == YCbCr420 && AvailShaped(avail)
      modifies this`cursor, this`finished, this`rgbCurLen, planes, planes.r, planes.g, planes.b, net`tokens
      modifies bits, rb, rb.buf
      ensures Valid() && Source() == old(Source()) && !res.Spins?
      ensures planes.r != old(planes.r) ==> fresh(planes.r)
      ensures planes.g != old(planes.g) ==> fresh(planes.g)
      ensures planes.b != old(planes.b) ==> fresh(planes.b)
      ensures res.Ran? ==>
        && RanFor(bits.markerDetected, bits.mWrOffset, old(bits.mRdOffset), avail, res.mcus, res.ok)
        && RunAt(avail, res.mcus, toRgb, old(Snapshot(planes, net, GetSizeOfRGB())), old(cursor),
                 old(bits.mRdOffset), old(finished), old(rgbCurLen))
    {
      FetchPlanes(GetSizeOfRGB());
      RunStarts(avail, toRgb);
      res := Loop420(avail, 0, toRgb, Snapshot(planes, net, GetSizeOfRGB()), cursor, bits.mRdOffset, finished, rgbCurLen);
    }

    /** The loop of `Decode420` from MCU `k` on, once the planes exist,
        from the state `s0`, `c0`, `rd0`, `f0`, `r0` it started in. */
    method Loop420(avail: seq<McuOutcome>, k: nat, toRgb: ColourFn,
                   ghost s0: ScanState, ghost c0: McuCursor, ghost rd0: int, ghost f0: int, ghost r0: int)
      returns (res: DecodeRun)
      requires Valid() && PlanesHeld() && AvailShaped(avail) && RunAt(avail, k, toRgb, s0, c0, rd0, f0, r0)
      modifies this`cursor, this`finished, this`rgbCurLen, planes, planes.r, planes.g, planes.b, net`tokens
      modifies bits, rb, rb.buf
      ensures Valid() && Source() == old(Source()) && !res.Spins?
      ensures planes.r == old(planes.r) && planes.g == old(planes.g) && planes.b == old(planes.b)
      ensures res.Ran? ==>
        && RanFor(bits.markerDetected, bits.mWrOffset, rd0, avail, res.mcus, res.ok)
        && RunAt(avail, res.mcus, toRgb, s0, c0, rd0, f0, r0)
      decreases |avail| - k
    {
      var stop := Iteration(avail, k, toRgb, s0, c0, rd0, f0, r0);
      if stop.Some? {
        return stop.value;
      }
      res := Loop420(avail, k + 1, toRgb, s0, c0, rd0, f0, r0);
    }

    /** The state of the 4:2:0 loop after its first `k` MCUs, from read
        offset `rd0`, cursor `c0`, counter `f0`, offset `r0` and planes
        and net `s0`. */
    ghost predicate RunAt(avail: seq<McuOutcome>, k: nat, toRgb: ColourFn,
                          s0: ScanState, c0: McuCursor, rd0: int, f0: int, r0: int)
      reads this`cursor, this`finished, this`mWidth, this`mHeight, this`timestamp, this`rgbCurLen
      reads planes, planes.r, planes.g, planes.b, net, bits`markerDetected, bits`mWrOffset, bits`mRdOffset
    {
      RunState(avail, k, toRgb, s0, c0, rd0, f0, r0, mWidth, mHeight, timestamp, bits.markerDetected, bits.mWrOffset,
               bits.mRdOffset, cursor, finished, rgbCurLen, Snapshot(planes, net, GetSizeOfRGB()))
    }

    /** Before its first MCU the loop has been nowhere. */
    lemma RunStarts(avail: seq<McuOutcome>, toRgb: ColourFn)
      requires Valid()
      ensures RunAt(avail, 0, toRgb, Snapshot(planes, net, GetSizeOfRGB()), cursor, bits.mRdOffset, finished, rgbCurLen)
    {
    }

    /** One iteration of the 4:2:0 loop, for MCU `k`: it stops the loop, or
        it takes the run one MCU further. */
    method Iteration(avail: seq<McuOutcome>, k: nat, toRgb: ColourFn,
                     ghost s0: ScanState, ghost c0: McuCursor, ghost rd0: int, ghost f0: int, ghost r0: int)
      returns (stop: Option<DecodeRun>)
      requires Valid() && PlanesHeld() && AvailShaped(avail) && RunAt(avail, k, toRgb, s0, c0, rd0, f0, r0)
      modifies this`cursor, this`finished, this`rgbCurLen, planes, planes.r, planes.g, planes.b, net`tokens
      modifies bits, rb, rb.buf
      ensures Valid() && Source() == old(Source())
      ensures planes.r == old(planes.r) && planes.g == old(planes.g) && planes.b == old(planes.b)
      ensures stop.None? ==> RunAt(avail, k + 1, toRgb, s0, c0, rd0, f0, r0)
      ensures stop.Some? ==> !stop.value.Spins?
      ensures stop.Some? && stop.value.Ran? ==>
        && stop.value.mcus == k
        && RunAt(avail, k, toRgb, s0, c0, rd0, f0, r0)
        && RanFor(bits.markerDetected, bits.mWrOffset, rd0, avail, k, stop.value.ok)
    {
      stop := McuHead(avail, k);
      if stop.Some? {
        return;
      }
      var fault := Step(avail, k, toRgb, s0, c0, rd0, f0, r0);
      if fault {
        return Some(Crashes);
      }
    }

    /** The decoding part of an iteration whose MCU `k` decoded. */
    method Step(avail: seq<McuOutcome>, k: nat, toRgb: ColourFn,
                ghost s0: ScanState, ghost c0: McuCursor, ghost rd0: int, ghost f0: int, ghost r0: int)
      returns (fault: bool)
      requires Valid() && PlanesHeld() && AvailShaped(avail) && RunAt(avail, k, toRgb, s0, c0, rd0, f0, r0)
      requires k < |avail| && avail[k].Decoded? && !bits.EofSpec()
      modifies this`cursor, this`finished, this`rgbCurLen, planes, planes.r, planes.g, planes.b, net`tokens, bits
      ensures Valid() && Source() == old(Source())
      ensures planes.r == old(planes.r) && planes.g == old(planes.g) && planes.b == old(planes.b)
      ensures !fault ==> RunAt(avail, k + 1, toRgb, s0, c0, rd0, f0, r0)
    {
      ghost var rd, c, f, r, snap := bits.mRdOffset, cursor, finished, rgbCurLen, Snapshot(planes, net, GetSizeOfRGB());
      fault := DecodeMcu(avail[k].mcu, toRgb);
      if !fault {
        RunStateNext(avail, k, toRgb, s0, c0, rd0, f0, r0, mWidth, mHeight, timestamp, bits.markerDetected, bits.mWrOffset,
                     rd, c, f, r, snap, bits.mRdOffset, cursor, finished, rgbCurLen, Snapshot(planes, net, GetSizeOfRGB()));
      }
    }

    /** One decoded 4:2:0 MCU: its bits read (an `int` read offset past
        `INT_MAX` is a `fault`), then painted and handed to the net. */
    method DecodeMcu(m: Mcu, toRgb: ColourFn) returns (fault: bool)
      requires Valid() && PlanesHeld() && McuShaped(m)
      modifies this`cursor, this`finished, this`rgbCurLen, planes, planes.r, planes.g, planes.b, net`tokens, bits
      ensures Valid() && Source() == old(Source())
      ensures planes.r == old(planes.r) && planes.g == old(planes.g) && planes.b == old(planes.b)
      ensures !fault ==>
        && bits.mRdOffset == old(bits.mRdOffset) + m.bits
        && cursor == NextMcu(old(cursor), XBlocks(mWidth)) && finished == old(finished) + 6
        && mWidth > 0 && rgbCurLen == McuEnd(old(cursor), mWidth)
        && Snapshot(planes, net, GetSizeOfRGB())
           == McuStep(old(Snapshot(planes, net, GetSizeOfRGB())), old(cursor), mWidth, mHeight, Decoded(m), toRgb, timestamp)
    {
      if bits.mRdOffset + m.bits >= 0x8000_0000 {
        return true;
      }
      bits.Advance(m.bits);
      fault := ConvertMcu(m, toRgb);
    }
  }
}

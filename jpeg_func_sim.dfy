// The functional simulator of the JPEG decoder (`func_sim.cc`): it fetches
// the image over DMA, walks its marker segments, and decodes the scan six
// blocks at a time, painting the R, G and B planes and handing the timing
// net one latency token and one task token per block.
module JpegFuncSim {
  import opened Arith
  import opened MemReqs
  import opened LpnEngine
  import opened JpegNet
  import opened JpegFrame
  import opened JpegOutput
  import opened JpegSegments
  import opened JpegScan
  import opened JpegBitBuffer
  import opened Wrappers

  /** `EXTRA_BYTES` and `BLOCK6BYTES`: six blocks of 64 four-byte samples. */
  const ExtraBytes: nat := 6 * 64 * 4
  /** `DMA_BLOCK_SIZE` */
  const DmaBlockSize: nat := 32

  /** How `jpeg_decode_funcsim` ends: after its byte loop, the scan's
      `DecodeImage` calls numbering `calls`; or at the SOF0 assertion; or in
      a fault or a hanging `DecodeImage`; or when the step bound runs out. */
  datatype RunResult = Finished(calls: nat) | AssertFails | RunFaults | RunHangs | OutOfSteps

  /** The MCUs the entropy decoder yields for the `c`-th `DecodeImage` call
      of a run: `scans[c]`, or none past the end of `scans`. */
  function Scheduled(scans: seq<seq<McuOutcome>>, c: nat): seq<McuOutcome> {
    if c < |scans| then scans[c] else []
  }

  /** How a `DecodeImage` call ends the run: a hang or a fault does. */
  function StopOf(res: ScanResult): (r: Option<RunResult>)
    ensures r.None? <==> res.Done?
  {
    match res
    case Hangs => Some(RunHangs)
    case Faults => Some(RunFaults)
    case Done(_, _) => None
  }

  /** Every decoded MCU the decoder yields has six 64-sample blocks. */
  predicate ScansShaped(scans: seq<seq<McuOutcome>>) {
    forall c, k :: 0 <= c < |scans| && 0 <= k < |scans[c]| && scans[c][k].Decoded? ==> McuShaped(scans[c][k].mcu)
  }

  /** The six tokens a non-4:2:0 iteration hands the net: no block was
      decoded, so every count is 0. */
  const NoCounts: seq<int> := [0, 0, 0, 0, 0, 0]

  /** Byte `k` of host memory from `src_addr` on, as the DMA returns it:
      `mem`, then zeros. */
  function MemAt(mem: seq<Byte>, k: int): Byte {
    if 0 <= k < |mem| then mem[k] else 0
  }

  /** `size` bytes of host memory from offset `k`. */
  function MemRange(mem: seq<Byte>, k: nat, size: nat): (r: seq<Byte>)
    ensures |r| == size
  {
    seq<Byte>(size, x => MemAt(mem, k + x))
  }

  /** `GETDATA(offset, size)`: the `size` bytes the DMA returns from
      `src_addr + offset` are copied into `buf` at `offset`. Copying past
      the end of `buf` overflows the heap (`fault`); nothing is copied. */
  method Fetch(buf: array<Byte>, mem: seq<Byte>, offset: nat, size: nat) returns (fault: bool)
    modifies buf
    ensures fault <==> offset + size > buf.Length
    ensures fault ==> buf[..] == old(buf[..])
    ensures !fault ==> buf[..] == old(buf[..offset]) + MemRange(mem, offset, size) + old(buf[offset + size..])
  {
    if offset + size > buf.Length {
      return true;
    }
    forall k | offset <= k < offset + size {
      buf[k] := MemAt(mem, k);
    }
    assert buf[..] == old(buf[..offset]) + MemRange(mem, offset, size) + old(buf[offset + size..]);
    return false;
  }

  /** What one pass of `jpeg_decode_funcsim`'s byte loop makes of a segment.
      Positions are relative to `seg_start`, the byte after the marker. */
  datatype SegStep =
    | Resume(next: nat)                                     // go on at `next`
    | Frame(next: nat, height: nat, width: nat, mode: Mode) // SOF0
    | TooManyComps                                          // SOF0's `assert(num_comps <= 3)` fails
    | Table(at: nat, len: nat)                              // DQT, DHT: `GETDATA(at, len)`, go on at `len`
    | Scan(next: nat)                                       // SOS: scan data from `next`
    | Stop                                                  // EOI, SOF2, SOS in an unsupported mode

  /** The bytes fetched with the marker byte: `seg_start` and the 30 after it. */
  const WinLen: nat := DmaBlockSize - 1

  /** The `if`/`else if` chain of `jpeg_decode_funcsim` for byte `b` after
      `lastB`, with `win` the bytes from `seg_start` on: every handled
      segment but EOI and SOF2 continues at `seg_start + seg_len`, where
      `seg_len` is the segment's first word. */
  function SegmentAt(lastB: Byte, b: Byte, win: seq<Byte>, mode: Mode): (r: SegStep)
    requires |win| == WinLen
    ensures r.Frame? ==> r.height < U16 && r.width < U16
  {
    var segLen := Be16(win[0], win[1]);
    match SegmentOf(lastB, b, false)
    case Sof0 =>
      var nc := win[7] as nat;
      if nc > 3 then TooManyComps
      else Frame(segLen, Sof0Height(win, 0), Sof0Width(win, 0), Classify(Sof0Comps(win, 0, nc)))
    case Dqt => Table(2, segLen)
    case Dht => Table(2, segLen)
    case Eoi => Stop
    case Sof2 => Stop
    case Sos => if mode == Unsupported then Stop else Scan(segLen)
    case Dri => Resume(segLen)
    case Rst => Resume(segLen)
    case App => Resume(segLen)
    case Com => Resume(segLen)
    case _ => Resume(0)
  }

  /** The chain in terms of the bytes: the loop stops exactly at EOI, SOF2
      and an SOS in an unsupported mode; SOF0 asserts exactly for more than
      three components; a plain byte or SOI goes on with the next byte, and
      every other handled marker at `seg_start + seg_len`. */
  lemma SegmentAtBytes(lastB: Byte, b: Byte, win: seq<Byte>, mode: Mode)
    requires |win| == WinLen
    ensures var r := SegmentAt(lastB, b, win, mode);
      && (r.Stop? <==> lastB == 0xFF && (b == 0xD9 || b == 0xC2 || (b == 0xDA && mode == Unsupported)))
      && (r.TooManyComps? <==> lastB == 0xFF && b == 0xC0 && win[7] > 3)
      && (r.Table? <==> lastB == 0xFF && (b == 0xDB || b == 0xC4))
      && (r.Scan? <==> lastB == 0xFF && b == 0xDA && mode != Unsupported)
      && (r.Resume? && !(lastB == 0xFF && KnownMarker(b) && b != 0xD8) ==> r.next == 0)
      && (!r.Stop? && !r.TooManyComps? && !(r.Resume? && r.next == 0) ==>
            lastB == 0xFF && KnownMarker(b) && b != 0xD8 && NextAt(r) == Be16(win[0], win[1]))
  {
  }

  /** Where parsing goes on after a step, relative to `seg_start`. */
  function NextAt(r: SegStep): nat {
    match r
    case Resume(n) => n
    case Frame(n, _, _, _) => n
    case Table(_, n) => n
    case Scan(n) => n
    case _ => 0
  }

  /** SOF0 reads the frame header and its mode from the bytes. */
  lemma SegmentAtFrame(lastB: Byte, b: Byte, win: seq<Byte>, mode: Mode)
    requires |win| == WinLen && lastB == 0xFF && b == 0xC0 && win[7] <= 3
    ensures var r := SegmentAt(lastB, b, win, mode);
      && r.Frame? && r.height == Be16(win[3], win[4]) && r.width == Be16(win[5], win[6])
      && (r.mode == Monochrome <==> win[7] == 1)
      && (r.mode == YCbCr420 <==>
           (&& win[7] == 3 && win[8] == 1 && win[11] == 2 && win[14] == 3
            && win[9] == 0x22 && win[12] == 0x11 && win[15] == 0x11))
  {
    Sof0Mode(win, 0, win[7] as nat);
  }

  /** The static state of `func_sim.cc`, the three planes and the net. */
  class FuncSim {
    var timestamp: int
    var finished: int
    var mWidth: nat
    var mHeight: nat
    var rgbConsumedLen: nat
    var numTokens: int
    /** `block_num` and the `loop` counter of the MCU walk. */
    var cursor: McuCursor
    var lastB: Byte
    var b: Byte
    var decodeDone: bool
    var state: int
    var mcuStart: int
    var mode: Mode
    const planes: Planes
    const net: Lpn<JpegTok>
    /** `m_bit_buffer` */
    const bits: BitBuffer

    ghost predicate Valid()
      reads this`mWidth, this`mHeight, this`rgbConsumedLen, this`cursor, this`mcuStart, planes, net, bits
    {
      && planes.Valid() && net.Valid() && net.nPlaces == NPlaces
      && bits.Valid() && bits.globalMRdOffset < 0x8000_0000 && mcuStart == 0
      && mWidth < U16 && mHeight < U16 && rgbConsumedLen < U64 && cursor.blockNum >= 0
    }

    /** The parser statics `DecodeImage` leaves alone. */
    function Parser(): (int, nat, nat, nat, int, Byte, Byte, bool, int, int, Mode)
      reads this`timestamp, this`mWidth, this`mHeight, this`rgbConsumedLen, this`numTokens, this`lastB, this`b, this`decodeDone, this`state, this`mcuStart, this`mode
    {
      (timestamp, mWidth, mHeight, rgbConsumedLen, numTokens, lastB, b, decodeDone, state, mcuStart, mode)
    }

    /** Static storage: all zero, no planes, mode unsupported. */
    constructor (net: Lpn<JpegTok>)
      requires net.Valid() && net.nPlaces == NPlaces
      ensures Valid() && this.net == net && fresh(planes) && fresh(bits)
      ensures planes.r == null && planes.g == null && planes.b == null
      ensures timestamp == 0 && finished == 0 && mWidth == 0 && mHeight == 0 && rgbConsumedLen == 0
      ensures numTokens == 0 && cursor == McuCursor(0, 0) && lastB == 0 && b == 0 && !decodeDone
      ensures state == 0 && mcuStart == 0 && mode == Unsupported
    {
      timestamp, finished, mWidth, mHeight, rgbConsumedLen, numTokens := 0, 0, 0, 0, 0, 0;
      cursor := McuCursor(0, 0);
      lastB, b, decodeDone, state, mcuStart, mode := 0, 0, false, 0, 0, Unsupported;
      planes := new Planes();
      this.net := net;
      bits := new BitBuffer();
    }

    /** `Reset()`: every counter and flag back to 0 or false, the bit buffer
        reset to its default size, the planes freed, `ptasks` and `pdone`
        emptied; `m_mode` keeps its value. */
    method Reset()
      requires Valid()
      modifies this, planes, net`tokens, bits
      ensures Valid() && bits.mMaxSize == DefaultSize && bits.mWrOffset == 0
      ensures mWidth == 0 && mHeight == 0 && rgbConsumedLen == 0 && numTokens == 0
      ensures lastB == 0 && b == 0 && !decodeDone && state == 0 && mcuStart == 0
      ensures cursor == McuCursor(0, 0) && timestamp == 0 && finished == 0 && mode == old(mode)
      ensures planes.r == null && planes.g == null && planes.b == null
      ensures net.tokens == old(net.tokens)[Ptasks := []][Pdone := []]
    {
      net.Reset(Ptasks);
      net.Reset(Pdone);
      planes.Release();
      bits.Reset(-1);
      ClearStatics();
    }

    /** The counter and flag assignments of `Reset()`. */
    method ClearStatics()
      modifies this`mWidth, this`mHeight, this`rgbConsumedLen, this`numTokens, this`lastB, this`b
      modifies this`decodeDone, this`state, this`mcuStart, this`cursor, this`timestamp, this`finished
      ensures mWidth == 0 && mHeight == 0 && rgbConsumedLen == 0 && numTokens == 0
      ensures lastB == 0 && b == 0 && !decodeDone && state == 0 && mcuStart == 0
      ensures cursor == McuCursor(0, 0) && timestamp == 0 && finished == 0
    {
      ClearSizes();
      ClearParse();
    }

    /** The image size and the counters of `Reset()`. */
    method ClearSizes()
      modifies this`mWidth, this`mHeight, this`rgbConsumedLen, this`numTokens, this`timestamp, this`finished
      ensures mWidth == 0 && mHeight == 0 && rgbConsumedLen == 0 && numTokens == 0
      ensures timestamp == 0 && finished == 0
    {
      mWidth, mHeight, rgbConsumedLen, numTokens := 0, 0, 0, 0;
      timestamp, finished := 0, 0;
    }

    /** The parser and scan state of `Reset()`. */
    method ClearParse()
      modifies this`lastB, this`b, this`decodeDone, this`state, this`mcuStart, this`cursor
      ensures lastB == 0 && b == 0 && !decodeDone && state == 0 && mcuStart == 0
      ensures cursor == McuCursor(0, 0)
    {
      lastB, b, decodeDone, state, mcuStart := 0, 0, false, 0, 0;
      cursor := McuCursor(0, 0);
    }

    /** `GetSizeOfRGB()`: whole 8x8 blocks, one byte per pixel. */
    function GetSizeOfRGB(): (r: nat)
      reads this`mWidth, this`mHeight
      ensures r == TokenTarget(mWidth, mHeight) * 64 && r >= PixelCount(mWidth, mHeight)
    {
      BlockAreaCovers(mWidth, mHeight);
      BlockAreaSize(mWidth, mHeight)
    }

    /** `GetCurRGBOffset()`: 256 bytes per `pdone` token, capped at the
        plane size, in `int` arithmetic; 0 with no token. */
    function GetCurRGBOffset(): (r: nat)
      requires net.Valid() && net.nPlaces == NPlaces
      reads this`mWidth, this`mHeight, net
      ensures net.tokens[Pdone] == [] ==> r == 0
      ensures |net.tokens[Pdone]| * 256 < 0x8000_0000 && GetSizeOfRGB() < 0x8000_0000 ==>
        r == (if net.tokens[Pdone] == [] then 0 else Min(|net.tokens[Pdone]| * 256, GetSizeOfRGB()))
    {
      var lpnSize := ToI32(net.TokensLen(Pdone) * 64 * 4);
      SmallInt(net.TokensLen(Pdone) * 64 * 4);
      if lpnSize == 0 then 0
      else
        var rgbSize := ToI32(GetSizeOfRGB());
        SmallInt(GetSizeOfRGB());
        SmallInt(Min(lpnSize, rgbSize));
        ToU64(Min(lpnSize, rgbSize))
    }

    function GetConsumedRGBOffset(): nat
      reads this`rgbConsumedLen
    {
      rgbConsumedLen
    }

    /** `UpdateConsumedRGBOffset(len)` */
    method UpdateConsumedRGBOffset(len: nat)
      requires Valid() && len < U64
      modifies this`rgbConsumedLen
      ensures Valid() && GetConsumedRGBOffset() == len
    {
      rgbConsumedLen := len;
    }

    /** `DecodeImage(till_end)`. `avail` is what the entropy decoder yields
        for the bytes pushed so far; the bit buffer is at its end once all of
        them are taken. In 4:2:0 mode each MCU that decodes paints its four
        blocks at the cursor, advances it, and hands the net six tokens;
        `till_end == 0` stops after one. Any other mode decodes nothing and
        hands the net six tokens with count 0 per iteration, so with
        `till_end != 0` and input left it never stops. The cursor persists
        across calls. */
    method DecodeImage(tillEnd: int, avail: seq<McuOutcome>, toRgb: ColourFn) returns (res: ScanResult)
      requires Valid()
      requires AvailShaped(avail)
      modifies this`cursor, this`finished, planes, planes.r, planes.g, planes.b, net`tokens
      ensures Valid()
      ensures res.Hangs? <==> mode != YCbCr420 && tillEnd != 0 && |avail| > 0
      ensures res.Faults? ==> mode == YCbCr420 && (mWidth == 0 || !old(PlanesFit(planes, mWidth, mHeight)))
      ensures mode == YCbCr420 && mWidth == 0 && Taken(avail, tillEnd) > 0 ==> res.Faults?
      ensures mode != YCbCr420 ==>
        && cursor == old(cursor) && planes.r == old(planes.r) && planes.g == old(planes.g) && planes.b == old(planes.b)
        && (planes.r != null ==> planes.r[..] == old(planes.r[..])) && (planes.g != null ==> planes.g[..] == old(planes.g[..]))
        && (planes.b != null ==> planes.b[..] == old(planes.b[..]))
      ensures mode != YCbCr420 && |avail| == 0 ==>
        res == Done(true, 0) && finished == old(finished) && net.tokens == old(net.tokens)
      ensures mode != YCbCr420 && |avail| > 0 && tillEnd == 0 ==>
        && res == Done(true, 0) && finished == old(finished) + 6
        && net.tokens == old(net.tokens)[Pvarlatency := old(net.tokens[Pvarlatency]) + LatencyTokens(NoCounts, timestamp)]
                                        [Ptasks := old(net.tokens[Ptasks]) + TaskTokens(6, timestamp)]
      ensures mode == YCbCr420 && res.Done? ==>
        && res == Done(TakenOk(avail, tillEnd), Taken(avail, tillEnd))
        && cursor == Advance(old(cursor), XBlocks(mWidth), res.mcus) && finished == old(finished) + 6 * res.mcus
      ensures planes.r != old(planes.r) ==> fresh(planes.r)
      ensures planes.g != old(planes.g) ==> fresh(planes.g)
      ensures planes.b != old(planes.b) ==> fresh(planes.b)
    {
      if mode != YCbCr420 {
        res := DecodeOther(tillEnd, avail);
      } else {
        res := Decode420(tillEnd, avail, toRgb);
      }
    }

    /** `DecodeImage` outside 4:2:0 mode: nothing is decoded or painted. */
    method DecodeOther(tillEnd: int, avail: seq<McuOutcome>) returns (res: ScanResult)
      requires Valid() && mode != YCbCr420
      modifies this`finished, net`tokens
      ensures Valid()
      ensures res.Hangs? <==> tillEnd != 0 && |avail| > 0
      ensures |avail| == 0 ==> res == Done(true, 0) && finished == old(finished) && net.tokens == old(net.tokens)
      ensures |avail| > 0 && tillEnd == 0 ==>
        && res == Done(true, 0) && finished == old(finished) + 6
        && net.tokens == old(net.tokens)[Pvarlatency := old(net.tokens[Pvarlatency]) + LatencyTokens(NoCounts, timestamp)]
                                        [Ptasks := old(net.tokens[Ptasks]) + TaskTokens(6, timestamp)]
    {
      if |avail| == 0 {
        return Done(true, 0);
      }
      if tillEnd != 0 {
        return Hangs;
      }
      finished := finished + 6;
      EmitTokens(net, NoCounts, timestamp);
      return Done(true, 0);
    }

    /** `DecodeImage` in 4:2:0 mode: the scan loop over `avail` from the
        persistent cursor. */
    method Decode420(tillEnd: int, avail: seq<McuOutcome>, toRgb: ColourFn) returns (res: ScanResult)
      requires Valid() && mode == YCbCr420
      requires AvailShaped(avail)
      modifies this`cursor, this`finished, planes, planes.r, planes.g, planes.b, net`tokens
      ensures Valid() && !res.Hangs?
      ensures res.Faults? ==> mWidth == 0 || !old(PlanesFit(planes, mWidth, mHeight))
      ensures mWidth == 0 && Taken(avail, tillEnd) > 0 ==> res.Faults?
      ensures res.Done? ==>
        var n := Taken(avail, tillEnd);
        && res == Done(TakenOk(avail, tillEnd), n)
        && cursor == Advance(old(cursor), XBlocks(mWidth), n) && finished == old(finished) + 6 * n
        && Snapshot(planes, net, GetSizeOfRGB())
           == AfterScan(old(Snapshot(planes, net, GetSizeOfRGB())), old(cursor), mWidth, mHeight, avail, n, toRgb, timestamp)
      ensures planes.r != old(planes.r) ==> fresh(planes.r)
      ensures planes.g != old(planes.g) ==> fresh(planes.g)
      ensures planes.b != old(planes.b) ==> fresh(planes.b)
    {
      var n;
      res, n := Scan420(planes, net, GetSizeOfRGB(), mWidth, mHeight, timestamp, cursor, tillEnd, avail, toRgb);
      if res.Done? {
        cursor := n;
        finished := finished + 6 * res.mcus;
      }
    }


    /** The inner loop of the scan: the 1536 bytes at `i` go to the bit
        buffer one at a time until it refuses one, which is a marker; `j`
        then ends one short of that byte's offset, and `b` is that byte,
        which is not a stuffing zero. Storing past the bit buffer is its
        failing `assert` (`aborted`). */
    method PushChunk(buf: array<Byte>, i: nat) returns (j: int, marker: bool, aborted: bool)
      requires Valid() && i + ExtraBytes <= buf.Length && buf != bits.mBuffer
      modifies this`b, bits, bits.mBuffer
      ensures Valid() && bits.mBuffer == old(bits.mBuffer) && !(marker && aborted)
      ensures !aborted && !marker ==> j == ExtraBytes
      ensures marker ==> -1 <= j < ExtraBytes - 1 && b == buf[i + j + 1] && b != 0 && bits.markerDetected == 1
    {
      j, marker, aborted := 0, false, false;
      while j < ExtraBytes
        invariant Valid() && bits.mBuffer == old(bits.mBuffer) && 0 <= j <= ExtraBytes && !aborted
        decreases ExtraBytes - j
      {
        b := buf[i + j];
        var ok;
        ok, aborted := bits.Push(b);
        if aborted {
          return;
        }
        if ok {
          j := j + 1;
        } else {
          j := j - 1;
          marker := true;
          return;
        }
      }
    }

    /** `GETDATA(i, BLOCK6BYTES)` and the pushes of those bytes. */
    method FillChunk(buf: array<Byte>, mem: seq<Byte>, i: nat) returns (j: int, marker: bool, aborted: bool)
      requires Valid() && i + ExtraBytes <= buf.Length && buf != bits.mBuffer
      modifies this`b, bits, bits.mBuffer, buf
      ensures Valid() && bits.mBuffer == old(bits.mBuffer) && !(marker && aborted)
      ensures !aborted && !marker ==> j == ExtraBytes
      ensures marker ==> -1 <= j < ExtraBytes - 1 && bits.markerDetected == 1
    {
      var _ := Fetch(buf, mem, i, ExtraBytes);
      j, marker, aborted := PushChunk(buf, i);
    }

    /** One pass of the scan loop: fetch 1536 bytes at `i`, push them, and
        decode one MCU after a full chunk, everything left (`till_end`
        set) once a marker ends the scan; `i` moves past the bytes taken. */
    method ScanChunk(buf: array<Byte>, mem: seq<Byte>, i: nat, scans: seq<seq<McuOutcome>>, calls: nat, toRgb: ColourFn)
      returns (next: int, marker: bool, stop: Option<RunResult>)
      requires Valid() && ScansShaped(scans) && i + ExtraBytes <= buf.Length && buf != bits.mBuffer
      modifies this`b, this`decodeDone, this`cursor, this`finished, planes, planes.r, planes.g, planes.b, net`tokens
      modifies bits, bits.mBuffer, buf
      ensures Valid() && bits.mBuffer == old(bits.mBuffer) && next >= i - 1
      ensures stop.None? ==> (if marker then -1 <= next - i < ExtraBytes - 1 && bits.markerDetected == 1 else next == i + ExtraBytes)
      ensures stop.Some? ==> (stop.value.AssertFails? || stop.value.RunHangs? || stop.value.RunFaults?)
      ensures planes.r != old(planes.r) ==> fresh(planes.r)
      ensures planes.g != old(planes.g) ==> fresh(planes.g)
      ensures planes.b != old(planes.b) ==> fresh(planes.b)
    {
      var j, aborted;
      j, marker, aborted := FillChunk(buf, mem, i);
      if aborted {
        return i, false, Some(AssertFails);
      }
      next := i + j;
      stop := DecodeChunk(if marker then 1 else 0, scans, calls, toRgb);
    }

    /** `decode_done = DecodeImage(till_end)` over the MCUs of the
        `calls`-th call. */
    method DecodeChunk(tillEnd: int, scans: seq<seq<McuOutcome>>, calls: nat, toRgb: ColourFn) returns (stop: Option<RunResult>)
      requires Valid() && ScansShaped(scans)
      modifies this`decodeDone, this`cursor, this`finished, planes, planes.r, planes.g, planes.b, net`tokens
      ensures Valid() && (stop.Some? ==> (stop.value.RunHangs? || stop.value.RunFaults?))
      ensures planes.r != old(planes.r) ==> fresh(planes.r)
      ensures planes.g != old(planes.g) ==> fresh(planes.g)
      ensures planes.b != old(planes.b) ==> fresh(planes.b)
    {
      var res := DecodeImage(tillEnd, Scheduled(scans, calls), toRgb);
      stop := StopOf(res);
      if res.Done? {
        decodeDone := res.ok;
      }
    }

    /** The scan data after an SOS segment: the bit buffer is reset to hold
        the whole input, then chunks are pushed and decoded until the input
        or the scan ends. */
    method ScanData(buf: array<Byte>, mem: seq<Byte>, i0: int, len: nat, scans: seq<seq<McuOutcome>>, calls0: nat, toRgb: ColourFn)
      returns (i: int, calls: nat, stop: Option<RunResult>)
      requires Valid() && ScansShaped(scans) && i0 >= 1 && buf.Length == len + ExtraBytes && len + ExtraBytes < 0x8000_0000
      modifies this`b, this`decodeDone, this`cursor, this`finished, planes, planes.r, planes.g, planes.b, net`tokens, bits, buf
      ensures Valid() && bits.mBuffer != buf && calls >= calls0 && i >= 0
      ensures stop.None? ==> i >= len || (bits.markerDetected == 1 && i >= i0 - 1)
      ensures stop.Some? ==> (stop.value.AssertFails? || stop.value.RunHangs? || stop.value.RunFaults?)
      ensures planes.r != old(planes.r) ==> fresh(planes.r)
      ensures planes.g != old(planes.g) ==> fresh(planes.g)
      ensures planes.b != old(planes.b) ==> fresh(planes.b)
    {
      bits.Reset(len + ExtraBytes);
      i, calls := i0, calls0;
      while i < len
        invariant Valid() && bits.mBuffer != buf && fresh(bits.mBuffer) && calls >= calls0 && i >= i0
        invariant planes.r != old(planes.r) ==> fresh(planes.r)
        invariant planes.g != old(planes.g) ==> fresh(planes.g)
        invariant planes.b != old(planes.b) ==> fresh(planes.b)
        decreases len - i
      {
        var marker;
        i, marker, stop := ScanChunk(buf, mem, i, scans, calls, toRgb);
        calls := calls + 1;
        if stop.Some? || marker {
          return;
        }
      }
      return i, calls, None;
    }

    /** SOF0: the frame size and its token target are recorded, the three
        planes fetched at the new size, and the mode set. */
    method StartFrame(height: nat, width: nat, m: Mode)
      requires Valid() && height < U16 && width < U16
      modifies this`mHeight, this`mWidth, this`numTokens, this`mode, planes
      ensures Valid() && mHeight == height && mWidth == width && mode == m && numTokens == TokenTarget(width, height)
      ensures planes.r != null && planes.g != null && planes.b != null
      ensures planes.r != old(planes.r) ==> fresh(planes.r)
      ensures planes.g != old(planes.g) ==> fresh(planes.g)
      ensures planes.b != old(planes.b) ==> fresh(planes.b)
    {
      mHeight, mWidth := height, width;
      numTokens := TokenTarget(width, height);
      var _ := planes.Get(Red, GetSizeOfRGB());
      var _ := planes.Get(Green, GetSizeOfRGB());
      var _ := planes.Get(Blue, GetSizeOfRGB());
      mode := m;
    }

    /** One segment of `jpeg_decode_funcsim`, as `SegmentAt` classified it,
        from `seg_start` `i`: SOF0 records the frame size, its token target
        and its mode and fetches the three planes; DQT and DHT fetch their
        tables; SOS runs the scan data; EOI, SOF2 and an unsupported SOS
        end the run. `next` is where the byte loop goes on. */
    method Segment(buf: array<Byte>, mem: seq<Byte>, i: int, len: nat, step: SegStep, scans: seq<seq<McuOutcome>>,
                   calls0: nat, toRgb: ColourFn)
      returns (next: int, calls: nat, stop: Option<RunResult>)
      requires Valid() && ScansShaped(scans) && i >= 1 && buf.Length == len + ExtraBytes && len + ExtraBytes < 0x8000_0000
      requires buf != bits.mBuffer && (step.Frame? ==> step.height < U16 && step.width < U16)
      modifies this`mHeight, this`mWidth, this`numTokens, this`mode, this`b, this`decodeDone, this`cursor, this`finished
      modifies planes, planes.r, planes.g, planes.b, net`tokens, bits, buf
      ensures Valid() && bits.mBuffer != buf && next >= 0 && calls >= calls0
      ensures step.Resume? ==> stop.None? && next == i + step.next && calls == calls0
      ensures step.Frame? ==>
        && stop.None? && next == i + step.next && calls == calls0
        && mHeight == step.height && mWidth == step.width && mode == step.mode && numTokens == TokenTarget(step.width, step.height)
        && planes.r != null && planes.g != null && planes.b != null
      ensures step.TooManyComps? ==> stop == Some(AssertFails)
      ensures step.Table? ==> (stop == Some(RunFaults) <==> i + step.at + step.len > buf.Length)
      ensures step.Table? && stop.None? ==> next == i + step.len && calls == calls0
      ensures step.Stop? ==> stop == Some(Finished(calls0))
      ensures step.Scan? && stop.Some? ==> (stop.value.AssertFails? || stop.value.RunHangs? || stop.value.RunFaults?)
      ensures planes.r != old(planes.r) ==> fresh(planes.r)
      ensures planes.g != old(planes.g) ==> fresh(planes.g)
      ensures planes.b != old(planes.b) ==> fresh(planes.b)
    {
      next, calls, stop := i, calls0, None;
      match step {
        case Resume(n) =>
          next := i + n;
        case Frame(n, height, width, m) =>
          StartFrame(height, width, m);
          next := i + n;
        case TooManyComps =>
          stop := Some(AssertFails);
        case Table(at, n) =>
          var fault := Fetch(buf, mem, i + at, n);
          if fault {
            stop := Some(RunFaults);
          }
          next := i + n;
        case Scan(n) =>
          next, calls, stop := ScanData(buf, mem, i + n, len, scans, calls0, toRgb);
        case Stop =>
          stop := Some(Finished(calls0));
      }
    }

    /** One pass of the byte loop from `i`: fetch 32 bytes, take the next
        byte as `b` (`mcu_start` is never set here), handle the segment it
        starts, and remember `b` as `last_b` unless the run ends. `step` is
        the segment, read off host memory: the marker byte at `i` and the
        bytes after it. */
    method Pass(buf: array<Byte>, mem: seq<Byte>, i: int, len: nat, scans: seq<seq<McuOutcome>>, calls0: nat, toRgb: ColourFn)
      returns (next: int, calls: nat, stop: Option<RunResult>, step: SegStep)
      requires Valid() && ScansShaped(scans) && 0 <= i < len && buf.Length == len + ExtraBytes && len + ExtraBytes < 0x8000_0000
      requires buf != bits.mBuffer
      modifies this`mHeight, this`mWidth, this`numTokens, this`mode, this`b, this`lastB, this`decodeDone, this`cursor
      modifies this`finished, planes, planes.r, planes.g, planes.b, net`tokens, bits, buf
      ensures Valid() && bits.mBuffer != buf && next >= 0
      ensures step == SegmentAt(old(lastB), MemAt(mem, i), MemRange(mem, i + 1, WinLen), old(mode))
      ensures stop.None? ==> lastB == b
      ensures step.Resume? || step.Frame? ==> stop.None? && next == i + 1 + step.next
      ensures step.Stop? ==> stop == Some(Finished(calls0))
      ensures step.TooManyComps? ==> stop == Some(AssertFails)
      ensures planes.r != old(planes.r) ==> fresh(planes.r)
      ensures planes.g != old(planes.g) ==> fresh(planes.g)
      ensures planes.b != old(planes.b) ==> fresh(planes.b)
    {
      var at;
      at, step := SegmentStart(buf, mem, i, len);
      next, calls, stop := Segment(buf, mem, at, len, step, scans, calls0, toRgb);
      if stop.None? {
        lastB := b;
      }
    }

    /** The head of a pass: `GETDATA(i, 32)`, `b = data[i++]`, and the
        segment that `b` after `last_b` starts. */
    method SegmentStart(buf: array<Byte>, mem: seq<Byte>, i: int, len: nat) returns (at: int, step: SegStep)
      requires mcuStart == 0 && 0 <= i < len && buf.Length == len + ExtraBytes
      modifies this`b, buf
      ensures at == i + 1 && b == MemAt(mem, i)
      ensures step == SegmentAt(lastB, MemAt(mem, i), MemRange(mem, i + 1, WinLen), mode)
    {
      var _ := Fetch(buf, mem, i, DmaBlockSize);
      at := i;
      if mcuStart == 0 {
        b := buf[at];
        at := at + 1;
      }
      assert buf[at..at + WinLen] == MemRange(mem, i + 1, WinLen);
      step := SegmentAt(lastB, b, buf[at..at + WinLen], mode);
    }

    /** `jpeg_decode_funcsim(src_addr, src_len, dst_addr, ts)`: the image is
        read, 32 bytes at a time, into a zeroed buffer with 1536 spare
        bytes, and walked byte by byte; the byte after `last_b` picks the
        segment. `mem` is host memory from `src_addr` on and `scans[c]` what
        the entropy decoder yields for the `c`-th `DecodeImage` call. The
        loop is bounded by `fuel` passes, since a scan that ends in a marker
        right at its start steps back over the SOS marker. */
    method DecodeFuncSim(srcLen: nat, mem: seq<Byte>, ts: int, scans: seq<seq<McuOutcome>>, toRgb: ColourFn, fuel: nat)
      returns (r: RunResult)
      requires Valid() && ScansShaped(scans) && srcLen + ExtraBytes < 0x8000_0000
      modifies this, planes, planes.r, planes.g, planes.b, net`tokens, bits
      ensures Valid() && timestamp == ts
      ensures srcLen == 0 ==> r == Finished(0)
    {
      timestamp := ts;
      var buf := new Byte[srcLen + ExtraBytes](_ => 0);
      var len: int := srcLen;
      var i: int := 0;
      var calls: nat := 0;
      var steps: nat := fuel;
      while i < len
        invariant Valid()
        invariant timestamp == ts
        invariant i >= 0
        invariant len == 0 ==> calls == 0
        invariant buf.Length == len + ExtraBytes && bits.mBuffer != buf
        invariant planes.r != old(planes.r) ==> fresh(planes.r)
        invariant planes.g != old(planes.g) ==> fresh(planes.g)
        invariant planes.b != old(planes.b) ==> fresh(planes.b)
        decreases steps
      {
        if steps == 0 {
          return OutOfSteps;
        }
        steps := steps - 1;
        var stop, step;
        i, calls, stop, step := Pass(buf, mem, i, len, scans, calls, toRgb);
        if stop.Some? {
          return stop.value;
        }
      }
      return Finished(calls);
    }
  }
}
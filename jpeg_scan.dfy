// What one `DecodeImage(till_end)` call of the JPEG front end achieves,
// stated over the MCUs the entropy decoder hands it. The decoder itself
// (`jpeg_mcu_block::decode`, the quantisation and the IDCT) is not part of
// this model: its answer for each MCU, six coefficient counts and the
// luma/chroma samples, or -1, is an `McuOutcome`.
module JpegScan {
  import opened Arith
  import opened MemReqs
  import opened LpnEngine
  import opened JpegNet
  import opened JpegFrame
  import opened JpegOutput

  /** The MCUs before the first one the decoder fails on. */
  function Leading(avail: seq<McuOutcome>): (r: nat)
    ensures r <= |avail|
    ensures forall k :: 0 <= k < r ==> avail[k].Decoded?
    ensures r < |avail| ==> avail[r].DecodeFailed?
  {
    if |avail| == 0 || avail[0].DecodeFailed? then 0
    else
      var t := Leading(avail[1..]);
      assert forall k :: 1 <= k < t + 1 ==> avail[k] == avail[1..][k - 1];
      t + 1
  }

  /** The MCUs one call turns into pixels: with `till_end == 0` the loop
      breaks after the first one. */
  function Taken(avail: seq<McuOutcome>, tillEnd: int): (r: nat)
    ensures r <= Leading(avail)
    ensures tillEnd == 0 ==> r <= 1
  {
    if tillEnd == 0 then Min(Leading(avail), 1) else Leading(avail)
  }

  /** The value a call returns: false exactly when the loop went on to an
      MCU the decoder failed on. */
  function TakenOk(avail: seq<McuOutcome>, tillEnd: int): bool {
    var n := Taken(avail, tillEnd);
    !(n < |avail| && (tillEnd != 0 || n == 0) && avail[n].DecodeFailed?)
  }

  /** The call fails exactly when a failing MCU comes before the end of the
      input and, with `till_end == 0`, is the first one. */
  lemma TakenOkIff(avail: seq<McuOutcome>, tillEnd: int)
    ensures !TakenOk(avail, tillEnd) <==> Leading(avail) < |avail| && (tillEnd != 0 || Leading(avail) == 0)
  {
  }

  /** The block cursor after `k` more MCUs. */
  function Advance(c: McuCursor, mcuWidth: nat, k: nat): (r: McuCursor)
    ensures r.blockNum >= c.blockNum
  {
    if k == 0 then c else NextMcu(Advance(c, mcuWidth, k - 1), mcuWidth)
  }

  /** A cursor kept across calls is the cursor of the MCU count so far,
      whatever the calls were; this is what `McusDisjoint` is about. */
  lemma {:induction false} AdvanceAfter(n: nat, k: nat, mcuWidth: nat)
    ensures Advance(CursorAfter(n, mcuWidth), mcuWidth, k) == CursorAfter(n + k, mcuWidth)
  {
    if k > 0 {
      AdvanceAfter(n, k - 1, mcuWidth);
    }
  }

  /** The cursor as `func_sim.cc` writes it: `DecodeImage` declares its
      own `loop`, which hides the file's static one, so every call starts
      its column count at 0 while `block_num` carries on. This is where the
      next call starts after calls that decoded `calls[0], calls[1], ...`
      MCUs. A single call agrees with the cursor kept across calls. */
  function CursorAsWritten(calls: seq<nat>, mcuWidth: nat): (r: McuCursor)
    ensures |calls| == 1 ==> r == CursorAfter(calls[0], mcuWidth)
  {
    if |calls| == 0 then McuCursor(0, 0)
    else
      var c := CursorAsWritten(calls[..|calls| - 1], mcuWidth);
      AdvanceAfter(0, calls[|calls| - 1], mcuWidth);
      Advance(NextCallStart(c), mcuWidth, calls[|calls| - 1])
  }

  /** A call to `DecodeImage` as written: `block_num` kept, `loop` at 0. */
  function NextCallStart(c: McuCursor): McuCursor {
    McuCursor(c.blockNum, 0)
  }

  /** Three calls of one MCU each on an image 32 pixels wide (4 blocks):
      the third MCU is drawn over block 4, which the first MCU drew, and
      not one MCU row further down where the kept cursor puts it. */
  lemma ShadowedLoopOverdraws()
    ensures var third := NextCallStart(CursorAsWritten([1, 1], 4));
      && McuBlocks(third, 4)[0] == McuBlocks(CursorAfter(0, 4), 4)[2] == 4
      && McuBlocks(CursorAfter(2, 4), 4)[0] == 8
  {
  }

  /** The `pvarlatency` tokens of a run of decoded MCUs, in order (an MCU
      that failed to decode has none). */
  function ScanLatency(mcus: seq<McuOutcome>, ts: int): (r: seq<Tok>)
  {
    if |mcus| == 0 then []
    else
      var last := mcus[|mcus| - 1];
      ScanLatency(mcus[..|mcus| - 1], ts) + (if last.Decoded? then LatencyTokens(last.mcu.counts, ts) else [])
  }

  /** Each MCU adds six latency tokens. */
  lemma {:induction false} ScanLatencyLength(mcus: seq<McuOutcome>, ts: int)
    requires forall k :: 0 <= k < |mcus| ==> mcus[k].Decoded? && |mcus[k].mcu.counts| == 6
    ensures |ScanLatency(mcus, ts)| == 6 * |mcus|
  {
    if |mcus| > 0 {
      ScanLatencyLength(mcus[..|mcus| - 1], ts);
    }
  }

  predicate AllShaped(mcus: seq<McuOutcome>) {
    forall k :: 0 <= k < |mcus| ==> mcus[k].Decoded? && McuShaped(mcus[k].mcu)
  }

  /** What the 4:2:0 loop changes: the contents of the three planes and
      the net's queues. */
  datatype ScanState = ScanState(r: seq<Byte>, g: seq<Byte>, b: seq<Byte>, tokens: seq<seq<Tok>>)

  ghost function Snapshot(planes: Planes, net: Lpn<JpegTok>, size: nat): ScanState
    reads planes, planes.r, planes.g, planes.b, net
  {
    ScanState(Contents(planes.r, size), Contents(planes.g, size), Contents(planes.b, size), net.tokens)
  }

  /** Whether the loop gets to paint outcome `o` at cursor `c`: it never
      gets to paint an MCU that failed to decode, or any MCU with a zero
      width. */
  predicate Paints(w: nat, c: McuCursor, o: McuOutcome) {
    w > 0 && c.blockNum >= 0 && o.Decoded? && McuShaped(o.mcu)
  }

  /** One plane after one MCU at cursor `c`: its four blocks painted over it. */
  function PaintMcu(p: seq<Byte>, c: McuCursor, w: nat, h: nat, o: McuOutcome, toRgb: ColourFn, ch: Channel): (r: seq<Byte>)
    ensures |r| == |p|
  {
    if Paints(w, c, o) then PaintBlocks(p, McuBlocks(c, XBlocks(w)), w, h, BlockRaws(o.mcu, toRgb, ch), 4) else p
  }

  /** The queues after one MCU: its six latency tokens appended to
      `pvarlatency` and six task tokens to `ptasks`. */
  function McuTokens(t: seq<seq<Tok>>, c: McuCursor, w: nat, o: McuOutcome, ts: int): (r: seq<seq<Tok>>)
    requires |t| == NPlaces
    ensures |r| == NPlaces
  {
    if Paints(w, c, o) then t[Pvarlatency := t[Pvarlatency] + LatencyTokens(o.mcu.counts, ts)][Ptasks := t[Ptasks] + TaskTokens(6, ts)]
    else t
  }

  /** One MCU at cursor `c`, on the planes and the queues. */
  function McuStep(a: ScanState, c: McuCursor, w: nat, h: nat, o: McuOutcome, toRgb: ColourFn, ts: int): ScanState
    requires |a.tokens| == NPlaces
  {
    ScanState(PaintMcu(a.r, c, w, h, o, toRgb, Red), PaintMcu(a.g, c, w, h, o, toRgb, Green),
              PaintMcu(a.b, c, w, h, o, toRgb, Blue), McuTokens(a.tokens, c, w, o, ts))
  }

  /** One plane after the first `k` MCUs of `avail`, from cursor `c0`. */
  function PaintRun(p: seq<Byte>, c0: McuCursor, w: nat, h: nat, avail: seq<McuOutcome>, k: nat, toRgb: ColourFn, ch: Channel): (r: seq<Byte>)
    requires k <= |avail|
    ensures |r| == |p|
  {
    if k == 0 then p
    else PaintMcu(PaintRun(p, c0, w, h, avail, k - 1, toRgb, ch), Advance(c0, XBlocks(w), k - 1), w, h, avail[k - 1], toRgb, ch)
  }

  /** The queues after the first `k` MCUs of `avail`, from cursor `c0`. */
  function RunTokens(t0: seq<seq<Tok>>, c0: McuCursor, w: nat, avail: seq<McuOutcome>, k: nat, ts: int): (r: seq<seq<Tok>>)
    requires k <= |avail| && |t0| == NPlaces
    ensures |r| == NPlaces
  {
    if k == 0 then t0
    else McuTokens(RunTokens(t0, c0, w, avail, k - 1, ts), Advance(c0, XBlocks(w), k - 1), w, avail[k - 1], ts)
  }

  /** The state once the first `k` MCUs of `avail` have been painted from
      cursor `c0` and handed to the net, starting from `s0`. */
  function AfterScan(s0: ScanState, c0: McuCursor, w: nat, h: nat, avail: seq<McuOutcome>, k: nat, toRgb: ColourFn, ts: int): (r: ScanState)
    requires k <= |avail| && |s0.tokens| == NPlaces
    ensures |r.r| == |s0.r| && |r.g| == |s0.g| && |r.b| == |s0.b| && |r.tokens| == NPlaces
  {
    ScanState(PaintRun(s0.r, c0, w, h, avail, k, toRgb, Red), PaintRun(s0.g, c0, w, h, avail, k, toRgb, Green),
              PaintRun(s0.b, c0, w, h, avail, k, toRgb, Blue), RunTokens(s0.tokens, c0, w, avail, k, ts))
  }

  /** The task queue after a run of decoded MCUs: six task tokens per MCU;
      every place but the two queues keeps its tokens. */
  lemma {:induction false} RunTasks(t0: seq<seq<Tok>>, c0: McuCursor, w: nat, avail: seq<McuOutcome>, k: nat, ts: int)
    requires k <= |avail| && AllShaped(avail[..k]) && |t0| == NPlaces && w > 0 && c0.blockNum >= 0
    ensures var t := RunTokens(t0, c0, w, avail, k, ts);
      && t[Ptasks] == t0[Ptasks] + TaskTokens(6 * k, ts)
      && forall p :: 0 <= p < NPlaces && p != Ptasks && p != Pvarlatency ==> t[p] == t0[p]
  {
    if k > 0 {
      assert avail[..k][k - 1] == avail[k - 1];
      assert AllShaped(avail[..k - 1]) by {
        assert forall j :: 0 <= j < k - 1 ==> avail[..k - 1][j] == avail[..k][j];
      }
      RunTasks(t0, c0, w, avail, k - 1, ts);
      RepeatJoin(Token(ts, EmptyTok), 6 * (k - 1), 6);
    }
  }

  /** The latency queue after a run of decoded MCUs: each MCU's six latency
      tokens, in the order the MCUs were decoded. */
  lemma {:induction false} RunLatency(t0: seq<seq<Tok>>, c0: McuCursor, w: nat, avail: seq<McuOutcome>, k: nat, ts: int)
    requires k <= |avail| && AllShaped(avail[..k]) && |t0| == NPlaces && w > 0 && c0.blockNum >= 0
    ensures RunTokens(t0, c0, w, avail, k, ts)[Pvarlatency] == t0[Pvarlatency] + ScanLatency(avail[..k], ts)
  {
    if k > 0 {
      var done, o := avail[..k - 1], avail[k - 1];
      assert done == avail[..k][..k - 1] && avail[..k][k - 1] == o;
      assert AllShaped(done) by {
        assert forall j :: 0 <= j < k - 1 ==> done[j] == avail[..k][j];
      }
      RunLatency(t0, c0, w, avail, k - 1, ts);
      var prev := RunTokens(t0, c0, w, avail, k - 1, ts);
      assert Paints(w, Advance(c0, XBlocks(w), k - 1), o);
      assert RunTokens(t0, c0, w, avail, k, ts)[Pvarlatency] == prev[Pvarlatency] + LatencyTokens(o.mcu.counts, ts);
      assert ScanLatency(avail[..k], ts) == ScanLatency(done, ts) + LatencyTokens(o.mcu.counts, ts);
      AppendAssoc(t0[Pvarlatency], ScanLatency(done, ts), LatencyTokens(o.mcu.counts, ts));
    }
  }

  /** Planes of at least `w * h` bytes take every colour pixel of an MCU. */
  lemma McuFits(blocks: seq<int>, w: nat, h: nat, lr: nat, lg: nat, lb: nat)
    requires w > 0 && |blocks| == 4 && forall t :: 0 <= t < 4 ==> blocks[t] >= 0
    requires lr >= w * h && lg >= w * h && lb >= w * h
    ensures !McuOverruns(blocks, w, h, lr, lg, lb, 4)
  {
    forall t | 0 <= t < 4
      ensures !Overruns(blocks[t], w, h, false, lr, 64) && !Overruns(blocks[t], w, h, false, lg, 64)
      ensures !Overruns(blocks[t], w, h, false, lb, 64)
    {
      ColourFits(blocks[t], w, h, lr, 64);
      ColourFits(blocks[t], w, h, lg, 64);
      ColourFits(blocks[t], w, h, lb, 64);
    }
  }

  /** Two runs of copies make one. */
  lemma RepeatJoin<T>(x: T, a: nat, b: nat)
    ensures Repeat(x, a) + Repeat(x, b) == Repeat(x, a + b)
  {
    assert forall i :: 0 <= i < a + b ==> (Repeat(x, a) + Repeat(x, b))[i] == x;
  }

  /** A `DecodeImage` call returns `ok` after `mcus` MCUs, or loops for
      ever, or ends in a division by zero or a store past a plane. */
  datatype ScanResult = Done(ok: bool, mcus: nat) | Hangs | Faults

  /** Every allocated plane holds the whole `w` by `h` image. */
  ghost predicate PlanesFit(planes: Planes, w: nat, h: nat)
    reads planes
  {
    && (planes.r == null || planes.r.Length >= PixelCount(w, h))
    && (planes.g == null || planes.g.Length >= PixelCount(w, h))
    && (planes.b == null || planes.b.Length >= PixelCount(w, h))
  }

  /** One decoded MCU of the 4:2:0 loop, once the planes exist: its four
      blocks painted at the cursor, the cursor moved on, and its tokens
      handed to the net. */
  method StepMcu(planes: Planes, net: Lpn<JpegTok>, size: nat, w: nat, h: nat, ts: int, cursor: McuCursor,
                 m: Mcu, toRgb: ColourFn)
    returns (next: McuCursor, fault: bool)
    requires planes.Valid() && planes.r != null && planes.g != null && planes.b != null
    requires net.Valid() && net.nPlaces == NPlaces && McuShaped(m) && cursor.blockNum >= 0
    modifies planes, planes.r, planes.g, planes.b, net`tokens
    ensures planes.Valid() && planes.r == old(planes.r) && planes.g == old(planes.g) && planes.b == old(planes.b)
    ensures net.Valid() && next == NextMcu(cursor, XBlocks(w))
    ensures fault ==> w == 0 || !PlanesFit(planes, w, h)
    ensures w == 0 ==> fault
    ensures !fault ==> Snapshot(planes, net, size) == McuStep(old(Snapshot(planes, net, size)), cursor, w, h, Decoded(m), toRgb, ts)
  {
    var cbx2, crx2 := ExpandChroma(m.cb, m.cr);
    var mcuWidth := XBlocks(w);
    var blocks := McuBlocks(cursor, mcuWidth);
    next := NextMcu(cursor, mcuWidth);
    if w == 0 {
      return next, true;
    }
    fault := ConvertBlocks(planes, size, w, h, blocks, m, toRgb, cbx2, crx2);
    if fault {
      if PlanesFit(planes, w, h) {
        McuFits(blocks, w, h, planes.r.Length, planes.g.Length, planes.b.Length);
      }
      return;
    }
    EmitTokens(net, m.counts, ts);
  }

  /** One more decoded MCU is one more `McuStep` at the cursor reached so far. */
  lemma AfterScanNext(s0: ScanState, c0: McuCursor, w: nat, h: nat, avail: seq<McuOutcome>, k: nat, toRgb: ColourFn, ts: int)
    requires k < |avail| && |s0.tokens| == NPlaces
    ensures AfterScan(s0, c0, w, h, avail, k + 1, toRgb, ts)
            == McuStep(AfterScan(s0, c0, w, h, avail, k, toRgb, ts), Advance(c0, XBlocks(w), k), w, h, avail[k], toRgb, ts)
  {
  }

  /** A decoded MCU right after the leading run extends it. */
  lemma LeadingNext(avail: seq<McuOutcome>, k: nat)
    requires k < |avail| && avail[k].Decoded? && k <= Leading(avail)
    ensures k + 1 <= Leading(avail)
  {
  }

  /** Where the 4:2:0 loop stops is the number of MCUs `Taken` counts. */
  lemma ScanExit(avail: seq<McuOutcome>, tillEnd: int, k: nat)
    requires k <= Leading(avail) && (tillEnd == 0 ==> k <= 1)
    requires k == |avail| || (tillEnd == 0 && k != 0) || avail[k].DecodeFailed?
    ensures k == Taken(avail, tillEnd)
    ensures TakenOk(avail, tillEnd) <==> !(k < |avail| && (tillEnd != 0 || k == 0) && avail[k].DecodeFailed?)
  {
  }

  /** Every MCU the entropy decoder yields has its four luma and two
      chroma blocks of 64 coefficients. */
  predicate AvailShaped(avail: seq<McuOutcome>) {
    forall k :: 0 <= k < |avail| && avail[k].Decoded? ==> McuShaped(avail[k].mcu)
  }

  /** The 4:2:0 loop once the planes exist. */
  method ScanMcus(planes: Planes, net: Lpn<JpegTok>, size: nat, w: nat, h: nat, ts: int, cursor0: McuCursor,
                  tillEnd: int, avail: seq<McuOutcome>, toRgb: ColourFn)
    returns (res: ScanResult, cursor: McuCursor)
    requires planes.Valid() && planes.r != null && planes.g != null && planes.b != null
    requires net.Valid() && net.nPlaces == NPlaces && cursor0.blockNum >= 0
    requires forall k :: 0 <= k < |avail| && avail[k].Decoded? ==> McuShaped(avail[k].mcu)
    modifies planes, planes.r, planes.g, planes.b, net`tokens
    ensures planes.Valid() && net.Valid() && planes.r == old(planes.r) && planes.g == old(planes.g) && planes.b == old(planes.b)
    ensures !res.Hangs? && (res.Faults? ==> w == 0 || !PlanesFit(planes, w, h))
    ensures w == 0 && Taken(avail, tillEnd) > 0 ==> res.Faults?
    ensures res.Done? ==> res == Done(TakenOk(avail, tillEnd), Taken(avail, tillEnd))
    ensures res.Done? ==> cursor == Advance(cursor0, XBlocks(w), res.mcus)
    ensures res.Done? ==> Snapshot(planes, net, size) == AfterScan(old(Snapshot(planes, net, size)), cursor0, w, h, avail, res.mcus, toRgb, ts)
  {
    ghost var s0 := Snapshot(planes, net, size);
    cursor := cursor0;
    var k: nat := 0;
    while k < |avail| && (tillEnd != 0 || k == 0)
      invariant planes.Valid() && net.Valid() && planes.r == old(planes.r) && planes.g == old(planes.g) && planes.b == old(planes.b)
      invariant k <= Leading(avail) && (tillEnd == 0 ==> k <= 1)
      invariant cursor == Advance(cursor0, XBlocks(w), k) && (k > 0 ==> w > 0)
      invariant Snapshot(planes, net, size) == AfterScan(s0, cursor0, w, h, avail, k, toRgb, ts)
      decreases |avail| - k
    {
      if avail[k].DecodeFailed? {
        ScanExit(avail, tillEnd, k);
        return Done(false, k), cursor;
      }
      LeadingNext(avail, k);
      var fault;
      cursor, fault := StepMcu(planes, net, size, w, h, ts, cursor, avail[k].mcu, toRgb);
      if fault {
        return Faults, cursor;
      }
      AfterScanNext(s0, cursor0, w, h, avail, k, toRgb, ts);
      k := k + 1;
    }
    ScanExit(avail, tillEnd, k);
    return Done(true, k), cursor;
  }

  /** The 4:2:0 loop of `DecodeImage(till_end)` over the MCUs `avail` the
      entropy decoder yields before the bit buffer runs dry: each decoded
      MCU is painted and handed to the net, a failed one ends the call with
      false, and `till_end == 0` stops after one MCU. */
  method Scan420(planes: Planes, net: Lpn<JpegTok>, size: nat, w: nat, h: nat, ts: int, cursor0: McuCursor,
                 tillEnd: int, avail: seq<McuOutcome>, toRgb: ColourFn)
    returns (res: ScanResult, cursor: McuCursor)
    requires planes.Valid() && net.Valid() && net.nPlaces == NPlaces && size >= PixelCount(w, h) && cursor0.blockNum >= 0
    requires AvailShaped(avail)
    modifies planes, planes.r, planes.g, planes.b, net`tokens
    ensures planes.Valid() && net.Valid()
    ensures !res.Hangs? && (res.Faults? ==> w == 0 || !old(PlanesFit(planes, w, h)))
    ensures w == 0 && Taken(avail, tillEnd) > 0 ==> res.Faults?
    ensures res.Done? ==> res == Done(TakenOk(avail, tillEnd), Taken(avail, tillEnd))
    ensures res.Done? ==> cursor == Advance(cursor0, XBlocks(w), res.mcus)
    ensures res.Done? ==> Snapshot(planes, net, size) == AfterScan(old(Snapshot(planes, net, size)), cursor0, w, h, avail, res.mcus, toRgb, ts)
    ensures planes.r != old(planes.r) ==> fresh(planes.r)
    ensures planes.g != old(planes.g) ==> fresh(planes.g)
    ensures planes.b != old(planes.b) ==> fresh(planes.b)
  {
    if |avail| == 0 || avail[0].DecodeFailed? {
      ScanExit(avail, tillEnd, 0);
      return Done(|avail| == 0, 0), cursor0;
    }
    // The first `ConvertYUV2RGB` fetches the three planes; later calls get the same ones.
    var pr := planes.Get(Red, size);
    var pg := planes.Get(Green, size);
    var pb := planes.Get(Blue, size);
    res, cursor := ScanMcus(planes, net, size, w, h, ts, cursor0, tillEnd, avail, toRgb);
  }
}

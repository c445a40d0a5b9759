// The JPEG decoder behavioural model on the PCIe base: four 32-bit
// registers the host programs over BAR 0, a read of the compressed image in
// DMA chunks of at most 16 bytes, and the write-back of the decoded pixels
// as RGB565 in chunks of at most 16 bytes.
//
// The calls out of these handlers are boundaries of the model:
// `UpdateLpnState`, `GetCurRGBOffset`, `GetConsumedRGBOffset`,
// `UpdateConsumedRGBOffset`, `IsCurImgFinished`, `GetSizeOfRGB` and `Reset`
// belong to the decoder front end (`JpegDriver`), `CommitAtTime` and
// `NextCommitTime` to the `LpnEngine`, `EventNext` to `PcieBm`; their
// results are parameters.
module JpegBm {
  import opened Arith
  import opened MemReqs
  import opened Wrappers
  import opened RegisterFile
  import PcieBm

  /** `sizeof(JpegDecoderRegs)`: `ctrl`, `isBusy`, `src`, `dst`. */
  const RegsSize: nat := 16
  const CtrlOff: nat := 0
  const BusyOff: nat := 4
  const SrcOff: nat := 8
  const DstOff: nat := 12
  /** `CTRL_REG_START_BIT`, bit 31 of `ctrl`. */
  const StartBit: nat := 0x8000_0000
  /** `CTRL_REG_LEN_MASK` keeps the low 24 bits of `ctrl`. */
  const LenMod: nat := 0x100_0000
  /** `DMA_BLOCK_SIZE` of the JPEG model. */
  const DmaBlock: nat := 16

  /** A DMA handed to `IssueDma`: direction, host address, length, the bytes
      a write carries, and a write's `last_block` flag. */
  datatype Dma = Dma(write: bool, addr: nat, len: nat, data: seq<Byte>, lastBlock: bool)

  /** The image length field of a `ctrl` value. */
  function TotalLen(ctrl: nat): (r: nat)
    ensures r < LenMod && (ctrl < LenMod ==> r == ctrl)
  {
    ctrl % LenMod
  }

  /** Whether the start bit of a 32-bit `ctrl` value is set. */
  predicate Started(ctrl: nat) {
    ctrl % U32 >= StartBit
  }

  // ---------------------------------------------------------------------
  // Chunk plans

  /** The chunks `(offset, length)` that cover `[done, total)` in steps of at
      most 16 bytes, each as long as the block or the rest allows. */
  function Chunks(total: nat, done: nat): (r: seq<(nat, nat)>)
    decreases total - done
  {
    if done >= total then []
    else [(done, Min(total - done, DmaBlock))] + Chunks(total, done + Min(total - done, DmaBlock))
  }

  /** `p` covers `[from, to)` exactly: each chunk starts where the previous
      one ended, holds between 1 and 16 bytes, and the last ends at `to`. */
  ghost predicate Tiles(p: seq<(nat, nat)>, from: nat, to: nat)
    decreases |p|
  {
    if p == [] then from == to
    else p[0].0 == from && 0 < p[0].1 <= DmaBlock && Tiles(p[1..], from + p[0].1, to)
  }

  /** The byte count of a plan. */
  function Covered(p: seq<(nat, nat)>): nat {
    if p == [] then 0 else p[0].1 + Covered(p[1..])
  }

  /** Reading on from any point up to the image length covers the rest of
      the image exactly, in chunks the 16-byte buffer holds. */
  lemma {:induction false} ChunksTile(total: nat, done: nat)
    requires done <= total
    ensures Tiles(Chunks(total, done), done, total)
    ensures Covered(Chunks(total, done)) == total - done
    decreases total - done
  {
    if done < total {
      var len := Min(total - done, DmaBlock);
      ChunksTile(total, done + len);
      assert Chunks(total, done)[1..] == Chunks(total, done + len);
    }
  }

  /** A plan that tiles a range ends inside it. */
  lemma {:induction false} TilesWithin(p: seq<(nat, nat)>, from: nat, to: nat)
    requires Tiles(p, from, to)
    ensures from <= to && Covered(p) == to - from
    ensures forall k :: 0 <= k < |p| ==> from <= p[k].0 && p[k].0 + p[k].1 <= to
    decreases |p|
  {
    if p != [] {
      TilesWithin(p[1..], from + p[0].1, to);
      forall k | 0 <= k < |p|
        ensures from <= p[k].0 && p[k].0 + p[k].1 <= to
      {
        if k > 0 {
          assert p[k] == p[1..][k - 1];
        }
      }
    }
  }

  /** The write chunks of `ExecuteEvent` as written: offsets `i` from 0 in
      steps of 16 while `i < bytes_to_write`, of length
      `min(rgb_cur_len - i, 16)`. */
  function AsWrittenChunks(cur: nat, btw: nat, i: nat): (r: seq<(nat, nat)>)
    requires btw <= cur
    decreases btw - i
  {
    if i >= btw then [] else [(i, Min(cur - i, DmaBlock))] + AsWrittenChunks(cur, btw, i + DmaBlock)
  }

  /** Every chunk of a plan lies inside a buffer of `size` bytes. */
  predicate FitsIn(p: seq<(nat, nat)>, size: nat) {
    forall k :: 0 <= k < |p| ==> p[k].0 + p[k].1 <= size
  }

  /** The DMA write of one chunk over `bytes`, at `base` plus its offset. */
  function ChunkDma(base: nat, bytes: seq<Byte>, c: (nat, nat)): (d: Dma)
    ensures d.write && d.addr == ToU64(base + c.0) && d.len == c.1 && !d.lastBlock
    ensures c.0 + c.1 <= |bytes| ==> d.data == bytes[c.0..c.0 + c.1]
  {
    Dma(true, ToU64(base + c.0), c.1, if c.0 + c.1 <= |bytes| then bytes[c.0..c.0 + c.1] else [], false)
  }

  /** The DMA writes of a plan over `bytes`, one per chunk, in order. */
  function WriteDmas(base: nat, bytes: seq<Byte>, p: seq<(nat, nat)>): (r: seq<Dma>)
    ensures |r| == |p|
  {
    if p == [] then [] else [ChunkDma(base, bytes, p[0])] + WriteDmas(base, bytes, p[1..])
  }

  /** A plan fits if its first chunk and the rest do. */
  lemma FitsCons(c: (nat, nat), rest: seq<(nat, nat)>, size: nat)
    ensures FitsIn([c] + rest, size) <==> c.0 + c.1 <= size && FitsIn(rest, size)
  {
    var p := [c] + rest;
    if c.0 + c.1 <= size && FitsIn(rest, size) {
      forall k | 0 <= k < |p|
        ensures p[k].0 + p[k].1 <= size
      {
        if k > 0 { assert p[k] == rest[k - 1]; }
      }
    }
    if FitsIn(p, size) {
      assert p[0] == c;
      forall k | 0 <= k < |rest|
        ensures rest[k].0 + rest[k].1 <= size
      {
        assert rest[k] == p[k + 1];
      }
    }
  }

  /** The chunks of a fresh image (nothing consumed yet) are the plan that
      covers `[0, bytes_to_write)`: `bytes_to_write` bytes, though the packed
      pixels take twice as many (see Findings). */
  lemma {:induction false} FreshImageHalfWritten(btw: nat, i: nat)
    requires i % DmaBlock == 0
    ensures AsWrittenChunks(btw, btw, i) == Chunks(btw, i)
    decreases btw - i
  {
    if i < btw {
      FreshImageHalfWritten(btw, i + DmaBlock);
      if btw - i > DmaBlock {
        assert Chunks(btw, i) == [(i, DmaBlock)] + Chunks(btw, i + DmaBlock);
      } else {
        assert Chunks(btw, i + (btw - i)) == [];
        assert AsWrittenChunks(btw, btw, i + DmaBlock) == [];
      }
    }
  }

  /** For a fresh image of `n` pixels the chunks carry `n` bytes in all,
      the first half of the `2 * n` packed bytes. */
  lemma FreshImageWritesHalf(n: nat)
    requires n > 0
    ensures Covered(AsWrittenChunks(n, n, 0)) == n < |PixelBytes(seq(n, _ => 0))|
  {
    FreshImageHalfWritten(n, 0);
    ChunksTile(n, 0);
  }

  /** After 256 pixels consumed, 4 more ready: the one chunk written is 16
      bytes long, past the 4 new bytes and past the 8-byte pixel buffer
      the `memcpy` reads from. */
  lemma LastChunkOverruns()
    ensures AsWrittenChunks(260, 4, 0) == [(0, 16)]
    ensures !FitsIn(AsWrittenChunks(260, 4, 0), 2 * 4)
    ensures !Tiles(AsWrittenChunks(260, 4, 0), 0, 4)
  {
    assert AsWrittenChunks(260, 4, 16) == [];
    assert AsWrittenChunks(260, 4, 0)[0] == (0, 16);
  }

  /** The write-back as intended: every byte of the packed pixels once,
      at `dst` plus twice the pixels already consumed. */
  function IntendedWriteDmas(dst: nat, consumed: nat, pixels: seq<nat>): (r: seq<Dma>)
    ensures var bytes := PixelBytes(pixels);
      |bytes| == 2 * |pixels| && Tiles(Chunks(|bytes|, 0), 0, |bytes|) &&
      r == WriteDmas(dst + 2 * consumed, bytes, Chunks(|bytes|, 0)) &&
      FitsIn(Chunks(|bytes|, 0), |bytes|)
  {
    var bytes := PixelBytes(pixels);
    ChunksTile(|bytes|, 0);
    TilesWithin(Chunks(|bytes|, 0), 0, |bytes|);
    WriteDmas(dst + 2 * consumed, bytes, Chunks(|bytes|, 0))
  }

  // ---------------------------------------------------------------------
  // Pixels

  /** The RGB565 packing of one pixel: red in bits 0-4, green in bits 5-10,
      blue in bits 11-15, each the high bits of its channel. */
  function Pack565(r: Byte, g: Byte, b: Byte): (p: nat)
    ensures p < U16
    ensures p % 32 == r / 8 && (p / 32) % 64 == g / 4 && p / 2048 == b / 8
  {
    var p := (r / 8) % 32 + ((g / 4) % 64) * 32 + ((b / 8) % 32) * 2048;
    DivModUnique(p, ((g / 4) % 64) + ((b / 8) % 32) * 64, 32, r / 8);
    DivModUnique(p / 32, (b / 8) % 32, 64, g / 4);
    DivModUnique(p, (b / 8) % 32, 2048, (r / 8) % 32 + ((g / 4) % 64) * 32);
    p
  }

  /** The pixels `[from, from + n)` of the three output planes, packed. */
  function Packed(r: seq<Byte>, g: seq<Byte>, b: seq<Byte>, from: nat, n: nat): (px: seq<nat>)
    requires from + n <= |r| && from + n <= |g| && from + n <= |b|
    ensures |px| == n
    ensures forall i :: 0 <= i < n ==> px[i] == Pack565(r[from + i], g[from + i], b[from + i])
    decreases n
  {
    if n == 0 then [] else Packed(r, g, b, from, n - 1) + [Pack565(r[from + n - 1], g[from + n - 1], b[from + n - 1])]
  }

  /** The bytes of a `uint16_t` array on a little-endian host. */
  function PixelBytes(px: seq<nat>): (r: seq<Byte>)
    ensures |r| == 2 * |px|
  {
    if px == [] then [] else [px[0] % 256, (px[0] / 256) % 256] + PixelBytes(px[1..])
  }

  /** Pixel `k` is stored low byte first at bytes `2k` and `2k + 1`. */
  lemma {:induction false} PixelBytesLayout(px: seq<nat>)
    ensures var r := PixelBytes(px);
      forall k :: 0 <= k < |px| ==> r[2 * k] == px[k] % 256 && r[2 * k + 1] == (px[k] / 256) % 256
    decreases |px|
  {
    if px != [] {
      var rest := PixelBytes(px[1..]);
      PixelBytesLayout(px[1..]);
      var r := PixelBytes(px);
      assert r == [px[0] % 256, (px[0] / 256) % 256] + rest;
      forall k | 1 <= k < |px|
        ensures r[2 * k] == px[k] % 256 && r[2 * k + 1] == (px[k] / 256) % 256
      {
        var j := k - 1;
        assert r[2 * k] == rest[2 * j] && r[2 * k + 1] == rest[2 * j + 1];
        assert px[1..][j] == px[k];
      }
    }
  }

  /** Prepending a chunk prepends its DMA. */
  lemma WriteDmasCons(base: nat, bytes: seq<Byte>, c: (nat, nat), rest: seq<(nat, nat)>)
    ensures WriteDmas(base, bytes, [c] + rest) == [ChunkDma(base, bytes, c)] + WriteDmas(base, bytes, rest)
  {
    assert ([c] + rest)[1..] == rest;
  }

  /** The packing loop of `ExecuteEvent`: the `n` pixels from `from` of the
      three planes, packed into a fresh `uint16_t` array. */
  method PackPixels(r: seq<Byte>, g: seq<Byte>, b: seq<Byte>, from: nat, n: nat) returns (px: seq<nat>)
    requires from + n <= |r| && from + n <= |g| && from + n <= |b|
    ensures px == Packed(r, g, b, from, n)
    ensures forall i :: 0 <= i < n ==> px[i] < U16
  {
    var img := new nat[n];
    var i := 0;
    while i < n
      invariant 0 <= i <= n
      invariant forall k :: 0 <= k < i ==> img[k] == Pack565(r[from + k], g[from + k], b[from + k])
    {
      img[i] := Pack565(r[from + i], g[from + i], b[from + i]);
      i := i + 1;
    }
    px := img[..];
  }

  /**
   * The split loop of `ExecuteEvent`: one DMA write per chunk of
   * `AsWrittenChunks`, carrying those bytes of the packed pixels. A chunk
   * past the end of the packed bytes is an out-of-bounds `memcpy`; the loop
   * then stops (`ok` false).
   */
  method SplitWrites(cur: nat, btw: nat, base: nat, bytes: seq<Byte>) returns (ok: bool, dmas: seq<Dma>)
    requires btw <= cur
    ensures ok <==> FitsIn(AsWrittenChunks(cur, btw, 0), |bytes|)
    ensures ok ==> dmas == WriteDmas(base, bytes, AsWrittenChunks(cur, btw, 0))
  {
    ghost var all := AsWrittenChunks(cur, btw, 0);
    dmas := [];
    var i := 0;
    while i < btw
      invariant 0 <= i
      invariant FitsIn(all, |bytes|) <==> FitsIn(AsWrittenChunks(cur, btw, i), |bytes|)
      invariant dmas + WriteDmas(base, bytes, AsWrittenChunks(cur, btw, i)) == WriteDmas(base, bytes, all)
      decreases btw - i
    {
      var len := Min(cur - i, DmaBlock);
      ghost var rest := AsWrittenChunks(cur, btw, i + DmaBlock);
      assert AsWrittenChunks(cur, btw, i) == [(i, len)] + rest;
      FitsCons((i, len), rest, |bytes|);
      if i + len > |bytes| {
        return false, dmas;
      }
      WriteDmasCons(base, bytes, (i, len), rest);
      dmas := dmas + [ChunkDma(base, bytes, (i, len))];
      i := i + DmaBlock;
    }
    assert AsWrittenChunks(cur, btw, i) == [];
    return true, dmas;
  }

  /** The new pixels `consumed..cur` packed, and the DMA writes of the
      plan over their bytes; `fits` tells whether the plan stays inside. */
  method PackAndSplit(cur: nat, consumed: nat, r: seq<Byte>, g: seq<Byte>, b: seq<Byte>, base: nat)
    returns (fits: bool, dmas: seq<Dma>)
    requires consumed < cur && cur <= |r| && cur <= |g| && cur <= |b|
    ensures var btw := cur - consumed; var p := AsWrittenChunks(cur, btw, 0);
      (fits <==> FitsIn(p, 2 * btw)) &&
      (fits ==> dmas == WriteDmas(base, PixelBytes(Packed(r, g, b, consumed, btw)), p)) &&
      |WriteDmas(base, PixelBytes(Packed(r, g, b, consumed, btw)), p)| > 0
  {
    var btw := cur - consumed;
    var px := PackPixels(r, g, b, consumed, btw);
    var bytes := PixelBytes(px);
    fits, dmas := SplitWrites(cur, btw, base, bytes);
    assert AsWrittenChunks(cur, btw, 0) != [];
  }

  /** The DMAs with the last one marked as the last block. */
  function MarkLast(d: seq<Dma>): (r: seq<Dma>)
    ensures |r| == |d| && r[..|r| - (if d == [] then 0 else 1)] == d[..|d| - (if d == [] then 0 else 1)]
    ensures d != [] ==> r[|r| - 1] == d[|d| - 1].(lastBlock := true)
  {
    if d == [] then [] else d[..|d| - 1] + [d[|d| - 1].(lastBlock := true)]
  }

  /** Whether a register write starts decoding: the device was idle, the
      start bit was clear, and the write sets it. */
  predicate StartsDecode(before: seq<Byte>, after: seq<Byte>)
    requires |before| == RegsSize && |after| == RegsSize
  {
    LeU32(before, BusyOff) == 0 && !Started(LeU32(before, CtrlOff)) && Started(LeU32(after, CtrlOff))
  }

  /** The registers after a write that does not start decoding: the start
      bit cleared and `isBusy` as before the write; `src` and `dst` as written. */
  function Settle(before: seq<Byte>, after: seq<Byte>): (r: seq<Byte>)
    requires |before| == RegsSize && |after| == RegsSize
    ensures |r| == RegsSize
    ensures LeU32(r, CtrlOff) == LeU32(after, CtrlOff) % StartBit && !Started(LeU32(r, CtrlOff))
    ensures LeU32(r, BusyOff) == LeU32(before, BusyOff)
    ensures forall i :: SrcOff <= i < RegsSize ==> r[i] == after[i]
  {
    var c := SetLeU32(after, CtrlOff, LeU32(after, CtrlOff) % StartBit);
    var r := SetLeU32(c, BusyOff, LeU32(before, BusyOff));
    assert LeU32(r, CtrlOff) == LeU32(c, CtrlOff);
    DivModUnique(LeU32(after, CtrlOff) % StartBit, 0, U32, LeU32(after, CtrlOff) % StartBit);
    DivModUnique(LeU32(before, BusyOff), 0, U32, LeU32(before, BusyOff));
    DivModUnique(LeU32(after, CtrlOff) % StartBit, 0, StartBit, LeU32(after, CtrlOff) % StartBit);
    r
  }

  // ---------------------------------------------------------------------
  // The device

  class JpegDecoderBm {
    /** `Registers_`, as the bytes of the packed `JpegDecoderRegs`. */
    var regs: seq<Byte>
    /** `BytesRead_`: the image bytes requested so far. */
    var bytesRead: nat
    /** The DMAs handed to `IssueDma`, oldest first. */
    var issued: seq<Dma>
    /** The events handed to `EventSchedule`, oldest first. */
    var scheduled: seq<PcieBm.TimedEvent>

    ghost predicate Valid()
      reads this`regs
    {
      |regs| == RegsSize
    }

    /** The zero-initialised static `JpegDecoderBm`. */
    constructor ()
      ensures Valid() && bytesRead == 0 && issued == [] && scheduled == []
      ensures forall i :: 0 <= i < RegsSize ==> regs[i] == 0
    {
      regs := seq(RegsSize, _ => 0);
      bytesRead := 0;
      issued, scheduled := [], [];
    }

    function Ctrl(): (r: nat)
      requires Valid()
      reads this`regs
      ensures r < U32
    {
      LeU32(regs, CtrlOff)
    }

    function IsBusy(): (r: nat)
      requires Valid()
      reads this`regs
      ensures r < U32
    {
      LeU32(regs, BusyOff)
    }

    function Src(): (r: nat)
      requires Valid()
      reads this`regs
      ensures r < U32
    {
      LeU32(regs, SrcOff)
    }

    function Dst(): (r: nat)
      requires Valid()
      reads this`regs
      ensures r < U32
    {
      LeU32(regs, DstOff)
    }

    /** `RegRead(bar, addr, dest, len)`: the register bytes, or nothing for
        another BAR or an access past the 16 bytes. */
    function RegRead(bar: nat, addr: nat, len: nat): (r: Option<seq<Byte>>)
      requires Valid()
      reads this`regs
      ensures r.Some? <==> bar == 0 && addr + len <= RegsSize
      ensures r.Some? ==> r.value == regs[addr..addr + len]
    {
      Read(regs, bar, addr, len)
    }

    /**
     * `RegWrite(bar, addr, src, len)`. Another BAR or an access past the
     * end is ignored (`accepted` false). Otherwise the bytes are copied in;
     * if the write starts decoding (`started`), `isBusy = 1` and the first
     * chunk of the image is read: `min(len, 16)` bytes at `src`. Any other
     * write clears the start bit again and puts back the previous `isBusy`.
     */
    method RegWrite(bar: nat, addr: nat, src: seq<Byte>) returns (accepted: bool, started: bool)
      requires Valid()
      modifies this`regs, this`bytesRead, this`issued
      ensures Valid()
      ensures accepted <==> bar == 0 && addr + |src| <= RegsSize
      ensures !accepted ==> !started && regs == old(regs) && bytesRead == old(bytesRead) && issued == old(issued)
      ensures accepted ==>
        var w := Write(old(regs), bar, addr, src).value;
        started == StartsDecode(old(regs), w) &&
        (started ==>
          regs == SetLeU32(w, BusyOff, 1) &&
          bytesRead == Min(TotalLen(LeU32(w, CtrlOff)), DmaBlock) &&
          issued == old(issued) + [Dma(false, LeU32(w, SrcOff), bytesRead, [], false)]) &&
        (!started ==> regs == Settle(old(regs), w) && bytesRead == old(bytesRead) && issued == old(issued))
      ensures accepted && started ==> IsBusy() == 1 && Started(Ctrl())
      ensures accepted && started && TotalLen(Ctrl()) > 0 ==>
        Chunks(TotalLen(Ctrl()), 0) == [(0, bytesRead)] + Chunks(TotalLen(Ctrl()), bytesRead)
      ensures accepted && !started ==> !Started(Ctrl()) && IsBusy() == old(IsBusy())
    {
      var w := Write(regs, bar, addr, src);
      if w.None? {
        return false, false;
      }
      accepted := true;
      started := StartsDecode(regs, w.value);
      if started {
        var before := regs;
        regs := SetLeU32(w.value, BusyOff, 1);
        assert LeU32(regs, CtrlOff) == LeU32(w.value, CtrlOff) && LeU32(regs, SrcOff) == LeU32(w.value, SrcOff);
        bytesRead := Min(TotalLen(Ctrl()), DmaBlock);
        issued := issued + [Dma(false, Src(), bytesRead, [], false)];
        DivModUnique(1, 0, U32, 1);
      } else {
        regs := Settle(regs, w.value);
      }
    }

    /**
     * The tail of `DmaComplete` for a read: while fewer than the image's
     * `ctrl & LEN_MASK` bytes have been requested, one more read of
     * `min(total - BytesRead_, 16)` bytes at `src + BytesRead_` (a 64-bit
     * sum), and `BytesRead_` grows by that much. The chunk is the head of
     * the plan from `BytesRead_` and the rest of the plan goes on from the
     * new value, so successive completions read the plan of `ChunksTile`.
     */
    method FetchNext() returns (more: bool)
      requires Valid()
      modifies this`bytesRead, this`issued
      ensures var total := TotalLen(Ctrl());
        (more <==> old(bytesRead) < total) &&
        (more ==>
          var len := Min(total - old(bytesRead), DmaBlock);
          bytesRead == old(bytesRead) + len && bytesRead <= total &&
          issued == old(issued) + [Dma(false, ToU64(Src() + old(bytesRead)), len, [], false)] &&
          Chunks(total, old(bytesRead)) == [(old(bytesRead), len)] + Chunks(total, bytesRead)) &&
        (!more ==> bytesRead == old(bytesRead) && issued == old(issued) && Chunks(total, bytesRead) == [])
    {
      var total := TotalLen(Ctrl());
      if bytesRead < total {
        var len := Min(total - bytesRead, DmaBlock);
        issued := issued + [Dma(false, ToU64(Src() + bytesRead), len, [], false)];
        bytesRead := bytesRead + len;
        return true;
      }
      return false;
    }

    /** The scheduling step of both handlers: the LPN's next commit time may
        not lie before `now` (the source asserts it; `ok` false), and an
        event at `nextTs` is scheduled exactly when `ShouldSchedule` holds. */
    method MaybeSchedule(nextTs: int, nextScheduled: Option<nat>, now: nat) returns (ok: bool)
      modifies this`scheduled
      ensures ok <==> nextTs >= now
      ensures ok && PcieBm.ShouldSchedule(nextTs, nextScheduled) ==> scheduled == old(scheduled) + [PcieBm.TimedEvent(nextTs, 0)]
      ensures !(ok && PcieBm.ShouldSchedule(nextTs, nextScheduled)) ==> scheduled == old(scheduled)
    {
      if nextTs < now {
        return false;
      }
      if PcieBm.ShouldSchedule(nextTs, nextScheduled) {
        scheduled := scheduled + [PcieBm.TimedEvent(nextTs, 0)];
      }
      return true;
    }

    /** `DmaComplete` for a write: the completion of the block marked last
        tells the host decoding is over, `isBusy = 0`. */
    method WriteComplete(lastBlock: bool)
      requires Valid()
      modifies this`regs
      ensures Valid()
      ensures lastBlock ==> regs == SetLeU32(old(regs), BusyOff, 0) && IsBusy() == 0
      ensures !lastBlock ==> regs == old(regs)
    {
      if lastBlock {
        regs := SetLeU32(regs, BusyOff, 0);
        DivModUnique(0, 0, U32, 0);
      }
    }

    /**
     * The write-back of `ExecuteEvent`, after the scheduling step. With
     * `cur = GetCurRGBOffset()` positive and past `consumed`, the
     * `cur - consumed` new pixels are packed as RGB565 and written in the
     * chunks of `AsWrittenChunks` at `dst + consumed + i`; a chunk that
     * reaches past the packed bytes is an out-of-bounds `memcpy` (`ok`
     * false). Then the front end's consumed offset is to become `cur`
     * (`wrote`). If the image is finished the last DMA is marked as the
     * last block, `cur` must equal the image size (the source asserts it)
     * and the front end is to be reset (`reset`). The three output planes
     * are `GetMOutputR/G/B()`, which hold at least `cur` pixels.
     */
    method WriteBack(cur: nat, consumed: nat, r: seq<Byte>, g: seq<Byte>, b: seq<Byte>, finished: bool, rgbSize: nat)
      returns (ok: bool, wrote: bool, reset: bool)
      requires Valid()
      requires cur <= |r| && cur <= |g| && cur <= |b|
      modifies this`issued
      ensures wrote <==> 0 < cur && consumed < cur
      ensures !wrote ==> ok && !reset && issued == old(issued)
      ensures wrote ==>
        var btw := cur - consumed;
        var p := AsWrittenChunks(cur, btw, 0);
        var dmas := WriteDmas(old(Dst()) + consumed, PixelBytes(Packed(r, g, b, consumed, btw)), p);
        |dmas| > 0 &&
        (FitsIn(p, 2 * btw) ==>
          ok == (!finished || cur == rgbSize) && reset == (ok && finished) &&
          issued == old(issued) + (if finished then MarkLast(dmas) else dmas)) &&
        (!FitsIn(p, 2 * btw) ==> !ok && !reset && issued == old(issued))
    {
      if cur == 0 || cur <= consumed {
        return true, false, false;
      }
      wrote := true;
      ok, reset := WriteNewPixels(cur, consumed, r, g, b, finished, rgbSize, Dst() + consumed);
    }

    /** `WriteBack` when there are new pixels, written from `base`. */
    method WriteNewPixels(cur: nat, consumed: nat, r: seq<Byte>, g: seq<Byte>, b: seq<Byte>, finished: bool, rgbSize: nat, base: nat)
      returns (ok: bool, reset: bool)
      requires Valid()
      requires consumed < cur && cur <= |r| && cur <= |g| && cur <= |b|
      modifies this`issued
      ensures
        var btw := cur - consumed;
        var p := AsWrittenChunks(cur, btw, 0);
        var dmas := WriteDmas(base, PixelBytes(Packed(r, g, b, consumed, btw)), p);
        |dmas| > 0 &&
        (FitsIn(p, 2 * btw) ==>
          ok == (!finished || cur == rgbSize) && reset == (ok && finished) &&
          issued == old(issued) + (if finished then MarkLast(dmas) else dmas)) &&
        (!FitsIn(p, 2 * btw) ==> !ok && !reset && issued == old(issued))
    {
      var fits, dmas := PackAndSplit(cur, consumed, r, g, b, base);
      if !fits {
        return false, false;
      }
      issued := issued + (if finished then MarkLast(dmas) else dmas);
      ok := !finished || cur == rgbSize;
      reset := ok && finished;
    }
  }
}

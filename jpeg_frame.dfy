// The pure parts of the JPEG front end, shared by the LPN driver
// (`driver.hpp`) and the functional simulator (`func_sim.cc`): segment
// words, the SOF0 mode decision, pixel saturation, the raster of 8x8
// blocks, 4:2:0 chroma upsampling, the MCU cursor and the LPN tokens
// produced for each MCU.
module JpegFrame {
  import opened Arith
  import opened MemReqs
  import opened LpnEngine
  import opened JpegNet

  /** `t_jpeg_mode` */
  datatype Mode = Monochrome | YCbCr444 | YCbCr420 | Unsupported

  // --- segment words -----------------------------------------------------

  /** `get_word`: two bytes, the first one most significant. */
  function Be16(hi: Byte, lo: Byte): (r: nat)
    ensures r < U16
  {
    (hi as int) * 256 + lo
  }

  /** The word gives back both bytes. */
  lemma Be16Bytes(hi: Byte, lo: Byte)
    ensures Be16(hi, lo) / 256 == hi && Be16(hi, lo) % 256 == lo
  {
    DivModUnique(Be16(hi, lo), hi, 256, lo);
  }

  // --- SOF0 ----------------------------------------------------------------

  /** A frame component: its id and its sampling-factor byte. */
  datatype Component = Component(id: Byte, sampling: Byte)

  /** `comp_sample_factor >> 4` */
  function Horiz(c: Component): nat {
    c.sampling / 16
  }

  /** `comp_sample_factor & 0xF` */
  function Vert(c: Component): nat {
    c.sampling % 16
  }

  predicate Factors(c: Component, h: nat, v: nat) {
    Horiz(c) == h && Vert(c) == v
  }

  /** The mode SOF0 selects from the frame's components. */
  function Classify(comps: seq<Component>): Mode {
    if |comps| == 1 then Monochrome
    else if |comps| == 3 && comps[0].id == 1 && comps[1].id == 2 && comps[2].id == 3 then
      if Factors(comps[0], 1, 1) && Factors(comps[1], 1, 1) && Factors(comps[2], 1, 1) then YCbCr444
      else if Factors(comps[0], 2, 2) && Factors(comps[1], 1, 1) && Factors(comps[2], 1, 1) then YCbCr420
      else Unsupported
    else Unsupported
  }

  /** The factors are the two nibbles of the sampling byte. */
  lemma FactorsByte(c: Component, h: nat, v: nat)
    requires h < 16 && v < 16
    ensures Factors(c, h, v) <==> c.sampling == 16 * h + v
  {
    if c.sampling == 16 * h + v {
      DivModUnique(c.sampling, h, 16, v);
    }
  }

  /** The mode in terms of the raw header bytes: one component is
      monochrome; components 1, 2, 3 with sampling bytes `0x11` are 4:4:4,
      with `0x22, 0x11, 0x11` they are 4:2:0; anything else is unsupported. */
  lemma ClassifyBytes(comps: seq<Component>)
    ensures Classify(comps) == Monochrome <==> |comps| == 1
    ensures Classify(comps) == YCbCr444 <==>
      && |comps| == 3 && comps[0].id == 1 && comps[1].id == 2 && comps[2].id == 3
      && comps[0].sampling == 0x11 && comps[1].sampling == 0x11 && comps[2].sampling == 0x11
    ensures Classify(comps) == YCbCr420 <==>
      && |comps| == 3 && comps[0].id == 1 && comps[1].id == 2 && comps[2].id == 3
      && comps[0].sampling == 0x22 && comps[1].sampling == 0x11 && comps[2].sampling == 0x11
  {
    if |comps| == 3 {
      FactorsByte(comps[0], 1, 1);
      FactorsByte(comps[1], 1, 1);
      FactorsByte(comps[2], 1, 1);
      FactorsByte(comps[0], 2, 2);
    }
  }

  // --- pixels --------------------------------------------------------------

  /** `r = (r & 0xffffff00) ? (r >> 24) ^ 0xff : r` on a C `int`, then
      stored into a byte: values outside 0..255 have a bit above the low
      byte set and become the low byte of the arithmetic shift, inverted. */
  function Saturate(r: int): Byte {
    var s := ToI32(r);
    if 0 <= s < 256 then s else 255 - ToU8(s / 0x100_0000)
  }

  /** For values within 24 bits the step is a clamp to 0..255. */
  lemma SaturateClamps(r: int)
    requires -0x100_0000 <= r < 0x100_0000
    ensures Saturate(r) == if r < 0 then 0 else if r > 255 then 255 else r
  {
    assert ToI32(r) == r;
    if r < 0 {
      DivModUnique(r, -1, 0x100_0000, r + 0x100_0000);
    } else if r > 255 {
      DivModUnique(r, 0, 0x100_0000, r);
    }
  }

  /** `x_blocks` (and `mcu_width`): the width in blocks, `w / 8` plus one
      for a partial block. */
  function XBlocks(w: nat): (r: nat)
    ensures r == CeilDiv(w, 8)
  {
    var q := w / 8;
    DivModUnique(w + 7, q + (if w % 8 != 0 then 1 else 0), 8, if w % 8 != 0 then w % 8 - 1 else 7);
    q + (if w % 8 != 0 then 1 else 0)
  }

  /** Column of pixel `i` of block `n`: `x_start + i % 8`. */
  function PixelX(n: nat, i: nat, w: nat): nat
    requires w > 0
  {
    (n % XBlocks(w)) * 8 + i % 8
  }

  /** Row of pixel `i` of block `n`: `y_start + i / 8`. */
  function PixelY(n: nat, i: nat, w: nat): nat
    requires w > 0
  {
    (n / XBlocks(w)) * 8 + i / 8
  }

  /** `offset = (_y * m_width) + _x` */
  function PixelOffset(n: nat, i: nat, w: nat): nat
    requires w > 0
  {
    PixelY(n, i, w) * w + PixelX(n, i, w)
  }

  predicate InImage(n: nat, i: nat, w: nat, h: nat)
    requires w > 0
  {
    PixelX(n, i, w) < w && PixelY(n, i, w) < h
  }

  /** A pixel inside the image lands inside the `h * w` plane. */
  lemma InImageOffset(n: nat, i: nat, w: nat, h: nat)
    requires w > 0 && InImage(n, i, w, h)
    ensures PixelOffset(n, i, w) < w * h
  {
    PartBound(PixelY(n, i, w), PixelX(n, i, w), h, w);
  }

  /** Pixels inside the image row have distinct offsets: no two pixels of
      any two blocks share a byte of the plane. */
  lemma PixelsDistinct(n: nat, i: nat, m: nat, j: nat, w: nat)
    requires w > 0 && i < 64 && j < 64
    requires PixelX(n, i, w) < w && PixelX(m, j, w) < w
    requires PixelOffset(n, i, w) == PixelOffset(m, j, w)
    ensures n == m && i == j
  {
    var xb := XBlocks(w);
    DigitsUnique(PixelY(n, i, w), PixelX(n, i, w), PixelY(m, j, w), PixelX(m, j, w), w);
    DigitsUnique(n % xb, i % 8, m % xb, j % 8, 8);
    DigitsUnique(n / xb, i / 8, m / xb, j / 8, 8);
    DivNat(n, xb);
    DivNat(m, xb);
    DivNat(i, 8);
    DivNat(j, 8);
  }

  // --- plane sizes and token targets ----------------------------------------

  /** `GetSizeOfRGB` of the LPN driver: one byte per pixel. */
  function PixelCount(w: nat, h: nat): nat {
    h * w
  }

  /** `GetSizeOfRGB` of the functional simulator: whole 8x8 blocks,
      `ceil(h / 8) * ceil(w / 8) * 64`. */
  function BlockAreaSize(w: nat, h: nat): nat {
    CeilDiv(h, 8) * CeilDiv(w, 8) * 64
  }

  /** `num_tokens_for_cur_img`: `ceil(w / 8) * ceil(h / 8)`, one per block. */
  function TokenTarget(w: nat, h: nat): nat {
    CeilDiv(w, 8) * CeilDiv(h, 8)
  }

  /** The block area is 64 bytes per token and holds every pixel. */
  lemma BlockAreaCovers(w: nat, h: nat)
    ensures BlockAreaSize(w, h) == TokenTarget(w, h) * 64
    ensures BlockAreaSize(w, h) >= PixelCount(w, h)
  {
    var bw, bh := CeilDiv(w, 8), CeilDiv(h, 8);
    assert BlockAreaSize(w, h) == bh * bw * 64;
    assert TokenTarget(w, h) == bw * bh;
    MulLe(h, w, bh * 8, bw * 8);
    assert (bh * 8) * (bw * 8) == bh * bw * 64;
  }

  /** A block number inside the raster is in one of its `ceil(h / 8)` rows. */
  lemma BlockRow(n: nat, xb: nat, yb: nat)
    requires xb > 0 && n < xb * yb
    ensures n / xb < yb
  {
    DivNat(n, xb);
    if n / xb >= yb {
      MulLe(yb, xb, n / xb, xb);
    }
  }

  /** `y * w + x < X * Y` for `x < X`, `y < Y` and a row length `w <= X`. */
  lemma OffsetBound(x: nat, y: nat, w: nat, cols: nat, rows: nat)
    requires x < cols && y < rows && w <= cols
    ensures y * w + x < cols * rows
  {
    MulLe(y, w, y, cols);
    PartBound(y, x, rows, cols);
  }

  /** The column of a block pixel is inside the block raster's width. */
  lemma BlockColumnFits(n: nat, i: nat, w: nat)
    requires w > 0 && i < 64
    ensures PixelX(n, i, w) < 8 * XBlocks(w)
  {
    DivNat(n, XBlocks(w));
    PartBound(n % XBlocks(w), i % 8, XBlocks(w), 8);
  }

  /** The row of a pixel of a block inside the raster is inside its height. */
  lemma BlockRowFits(n: nat, i: nat, w: nat, h: nat)
    requires w > 0 && i < 64 && n < TokenTarget(w, h)
    ensures PixelY(n, i, w) < 8 * CeilDiv(h, 8)
  {
    BlockRow(n, XBlocks(w), CeilDiv(h, 8));
    PartBound(n / XBlocks(w), i / 8, CeilDiv(h, 8), 8);
  }

  /** Every pixel of a block inside the block raster, in the image or
      not, lands inside the block-area plane. */
  lemma BlockPixelFits(n: nat, i: nat, w: nat, h: nat)
    requires w > 0 && i < 64 && n < TokenTarget(w, h)
    ensures PixelOffset(n, i, w) < BlockAreaSize(w, h)
  {
    var cols, rows := 8 * XBlocks(w), 8 * CeilDiv(h, 8);
    BlockColumnFits(n, i, w);
    BlockRowFits(n, i, w, h);
    OffsetBound(PixelX(n, i, w), PixelY(n, i, w), w, cols, rows);
    RasterArea(w, h);
  }

  /** The block raster, in pixels, is the block area. */
  lemma RasterArea(w: nat, h: nat)
    ensures (8 * XBlocks(w)) * (8 * CeilDiv(h, 8)) == BlockAreaSize(w, h)
  {
    var xb, yb := CeilDiv(w, 8), CeilDiv(h, 8);
    assert (8 * xb) * (8 * yb) == yb * xb * 64;
  }

  // --- 4:2:0 chroma ----------------------------------------------------------

  /** The first chroma sample of each quadrant of the MCU. */
  const QuadBase: seq<nat> := [0, 4, 32, 36]

  /** `cb_dct_out_x2[q * 64 + i] = cb_dct_out[QuadBase[q] + (i / 16) * 8 + (i % 8) / 2]` */
  function UpsampleAt(src: seq<int>, k: nat): int
    requires |src| == 64 && k < 256
  {
    var q, i := k / 64, k % 64;
    src[QuadBase[q] + (i / 16) * 8 + (i % 8) / 2]
  }

  /** The four expansion loops of one chroma block. */
  function Upsample(src: seq<int>): (r: seq<int>)
    requires |src| == 64
    ensures |r| == 256
  {
    seq(256, k requires 0 <= k < 256 => UpsampleAt(src, k))
  }

  /** Nearest-neighbour upsampling: pixel `(x, y)` of the 16x16 MCU,
      which is pixel `i` of luma block `q`, takes chroma sample
      `(x / 2, y / 2)` of the 8x8 chroma block. */
  lemma UpsampleSpatial(src: seq<int>, q: nat, i: nat)
    requires |src| == 64 && q < 4 && i < 64
    ensures var x, y := 8 * (q % 2) + i % 8, 8 * (q / 2) + i / 8;
      Upsample(src)[q * 64 + i] == src[(y / 2) * 8 + x / 2]
  {
    DivModUnique(q * 64 + i, q, 64, i);
    assert Upsample(src)[q * 64 + i] == src[QuadBase[q] + (i / 16) * 8 + (i % 8) / 2];
    QuadrantSample(q, i);
  }

  /** The chroma index the expansion loops read for pixel `i` of luma
      block `q` is that of the sample at half its MCU coordinates. */
  lemma QuadrantSample(q: nat, i: nat)
    requires q < 4 && i < 64
    ensures var x, y := 8 * (q % 2) + i % 8, 8 * (q / 2) + i / 8;
      QuadBase[q] + (i / 16) * 8 + (i % 8) / 2 == (y / 2) * 8 + x / 2
  {
    var x, y := 8 * (q % 2) + i % 8, 8 * (q / 2) + i / 8;
    DivDiv(i, 8, 2);
    DivAddMultiple(4 * (q / 2), 2, i / 8);
    DivAddMultiple(4 * (q % 2), 2, i % 8);
    assert y / 2 == 4 * (q / 2) + i / 16;
    assert x / 2 == 4 * (q % 2) + (i % 8) / 2;
    assert QuadBase[q] == 32 * (q / 2) + 4 * (q % 2);
  }

  // --- the MCU cursor --------------------------------------------------------

  /** `block_num` and `loop` of `DecodeImage`. */
  datatype McuCursor = McuCursor(blockNum: int, loop: int)

  /** After an MCU: `block_num += 4`; when `++loop` reaches
      `mcu_width / 2`, the second block row is skipped and `loop` restarts. */
  function NextMcu(c: McuCursor, mcuWidth: int): McuCursor {
    var bn, l := c.blockNum + 4, c.loop + 1;
    if l == mcuWidth / 2 then McuCursor(bn + mcuWidth * 2, 0) else McuCursor(bn, l)
  }

  /** The block numbers `ConvertYUV2RGB` is called with for Y0..Y3. */
  function McuBlocks(c: McuCursor, mcuWidth: int): seq<int> {
    var b := c.blockNum / 2;
    [b, b + 1, b + mcuWidth, b + mcuWidth + 1]
  }

  /** The cursor after `n` MCUs when `block_num` and `loop` persist. */
  function CursorAfter(n: nat, mcuWidth: int): McuCursor {
    if n == 0 then McuCursor(0, 0) else NextMcu(CursorAfter(n - 1, mcuWidth), mcuWidth)
  }

  /** One MCU step of the closed form: from MCU `a * k + b`, the next
      cursor moves one MCU right, or to the start of the next MCU row. */
  lemma NextClosedForm(k: nat, a: nat, b: nat)
    requires k >= 1 && b < k
    ensures var w := 2 * k;
      var n' := a * k + b + 1;
      NextMcu(McuCursor(8 * k * a + 4 * b, b), w)
        == McuCursor(8 * k * (n' / k) + 4 * (n' % k), n' % k)
  {
    var w, n' := 2 * k, a * k + b + 1;
    assert w / 2 == k;
    if b + 1 == k {
      MulDistrib(a, 1, k);
      DivModUnique(n', a + 1, k, 0);
      MulDistrib(a, 1, 8 * k);
    } else {
      DivModUnique(n', a, k, b + 1);
    }
  }

  /** With an even block width `2k`, after `n` MCUs the cursor is at MCU
      row `n / k`, column `n % k`. */
  lemma {:induction false} CursorClosedForm(n: nat, k: nat)
    requires k >= 1
    ensures CursorAfter(n, 2 * k) == McuCursor(8 * k * (n / k) + 4 * (n % k), n % k)
  {
    if n > 0 {
      CursorClosedForm(n - 1, k);
      DivNat(n - 1, k);
      NextClosedForm(k, (n - 1) / k, (n - 1) % k);
    }
  }

  /** Block `s` (0..3) of MCU `n` with an even block width `2k`: block row
      `2 * (n / k) + s / 2`, block column `2 * (n % k) + s % 2`. */
  lemma McuBlockAt(n: nat, k: nat, s: nat)
    requires k >= 1 && s < 4
    ensures var w := 2 * k;
      var row, col := 2 * (n / k) + s / 2, 2 * (n % k) + s % 2;
      && col < w
      && McuBlocks(CursorAfter(n, w), w)[s] == row * w + col
  {
    var w := 2 * k;
    CursorClosedForm(n, k);
    DivNat(n, k);
    CursorBlocks(CursorAfter(n, w), w, s);
    HalfBlockNum(n / k, n % k, k);
    MulDistrib(2 * (n / k), s / 2, w);
  }

  /** Block `s` of the MCU at cursor `c`: `s / 2` block rows and `s % 2`
      block columns past `block_num / 2`. */
  lemma CursorBlocks(c: McuCursor, w: int, s: nat)
    requires s < 4
    ensures McuBlocks(c, w)[s] == c.blockNum / 2 + (s / 2) * w + s % 2
  {
  }

  /** `block_num / 2` at MCU row `a`, column `b` of an even block width `2k`. */
  lemma HalfBlockNum(a: nat, b: nat, k: nat)
    ensures (8 * k * a + 4 * b) / 2 == (2 * a) * (2 * k) + 2 * b
  {
    DivModUnique(8 * k * a + 4 * b, (2 * a) * (2 * k) + 2 * b, 2, 0);
  }

  /** With an even block width the MCUs tile the image row by row:
      different MCUs write different blocks. */
  lemma McusDisjoint(n: nat, m: nat, k: nat, s: nat, t: nat)
    requires k >= 1 && n != m && s < 4 && t < 4
    ensures McuBlocks(CursorAfter(n, 2 * k), 2 * k)[s] != McuBlocks(CursorAfter(m, 2 * k), 2 * k)[t]
  {
    var w := 2 * k;
    McuBlockAt(n, k, s);
    McuBlockAt(m, k, t);
    var rn, cn := 2 * (n / k) + s / 2, 2 * (n % k) + s % 2;
    var rm, cm := 2 * (m / k) + t / 2, 2 * (m % k) + t % 2;
    if rn * w + cn == rm * w + cm {
      DigitsUnique(rn, cn, rm, cm, w);
      DigitsUnique(n / k, s / 2, m / k, t / 2, 2);
      DigitsUnique(n % k, s % 2, m % k, t % 2, 2);
      DivNat(n, k);
      DivNat(m, k);
    }
  }

  // --- tokens ---------------------------------------------------------------

  /** The `pvarlatency` tokens of one MCU: one `mcu_token` per block with
      delay `3 * cnt + 6`, stamped with the current timestamp. */
  function LatencyTokens(counts: seq<int>, ts: int): (r: seq<Tok>) {
    seq(|counts|, k requires 0 <= k < |counts| => Token(ts, McuTok(3 * counts[k] + 6)))
  }

  /** The `ptasks` tokens of one MCU: one empty token per block. */
  function TaskTokens(n: nat, ts: int): (r: seq<Tok>) {
    Repeat(Token(ts, EmptyTok), n)
  }

  /** Appending an MCU's tokens keeps the latency queue in order: the
      latency `t0` reads next is the old front one, or, on an empty queue,
      the first block's `3 * cnt + 6`; each token's delay gives back its
      coefficient count. */
  lemma LatencyFeedsNet(m: M, counts: seq<int>, ts: int)
    requires |m| == NPlaces && |counts| > 0
    ensures var m' := m[Pvarlatency := m[Pvarlatency] + LatencyTokens(counts, ts)];
      FrontLatency(m') == if m[Pvarlatency] == [] then 3 * counts[0] + 6 else FrontLatency(m)
    ensures forall k :: 0 <= k < |counts| ==>
      (LatencyTokens(counts, ts)[k].data.delay - 6) / 3 == counts[k]
  {
    var m' := m[Pvarlatency := m[Pvarlatency] + LatencyTokens(counts, ts)];
    if m[Pvarlatency] != [] {
      assert m'[Pvarlatency][0] == m[Pvarlatency][0];
    }
    forall k | 0 <= k < |counts|
      ensures (LatencyTokens(counts, ts)[k].data.delay - 6) / 3 == counts[k]
    {
      DivModUnique(3 * counts[k], counts[k], 3, 0);
    }
  }
}

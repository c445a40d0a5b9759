// Pixel output of the JPEG front end, shared by the LPN driver
// (`driver.hpp`) and the functional simulator (`func_sim.cc`), which carry
// the same code: the lazily allocated R, G and B planes,
// `ConvertYUV2RGB`, the chroma expansion of a 4:2:0 MCU and the tokens one
// MCU hands to the net.
module JpegOutput {
  import opened Arith
  import opened MemReqs
  import opened LpnEngine
  import opened JpegNet
  import opened JpegFrame

  /** The floating-point colour conversion `(y, cb, cr) -> (r, g, b)` of
      `ConvertYUV2RGB`, already truncated to `int`; it is passed in. */
  type ColourFn = (int, int, int) -> (int, int, int)

  datatype Channel = Red | Green | Blue

  /** Pixel `i` of one channel before the overflow clamp: `128 + y[i]` in
      monochrome, the colour conversion otherwise. */
  function RawPixel(mono: bool, y: seq<int>, cb: seq<int>, cr: seq<int>, toRgb: ColourFn, c: Channel, i: nat): int
    requires |y| == 64 && |cb| == 64 && |cr| == 64 && i < 64
  {
    if mono then 128 + y[i]
    else
      var rgb := toRgb(y[i], cb[i], cr[i]);
      match c
      case Red => rgb.0
      case Green => rgb.1
      case Blue => rgb.2
  }

  function RawChannel(mono: bool, y: seq<int>, cb: seq<int>, cr: seq<int>, toRgb: ColourFn, c: Channel): (r: seq<int>)
    requires |y| == 64 && |cb| == 64 && |cr| == 64
    ensures |r| == 64 && forall i :: 0 <= i < 64 ==> r[i] == RawPixel(mono, y, cb, cr, toRgb, c, i)
  {
    seq(64, i requires 0 <= i < 64 => RawPixel(mono, y, cb, cr, toRgb, c, i))
  }

  /** Whether pixel `i` of block `n` is stored: every pixel in monochrome,
      only those inside the image in colour. */
  predicate Writes(n: nat, i: nat, w: nat, h: nat, mono: bool)
    requires w > 0
  {
    mono || InImage(n, i, w, h)
  }

  /** A plane after the first `k` pixels of block `n` have been stored as
      the clamp of `raw`; a store past the end of the plane is dropped. */
  function Painted(p: seq<Byte>, n: nat, w: nat, h: nat, mono: bool, raw: seq<int>, k: nat): (r: seq<Byte>)
    requires w > 0 && |raw| == 64 && k <= 64
    ensures |r| == |p|
  {
    if k == 0 then p
    else
      var q := Painted(p, n, w, h, mono, raw, k - 1);
      var off := PixelOffset(n, k - 1, w);
      if Writes(n, k - 1, w, h, mono) && off < |q| then q[off := Saturate(raw[k - 1])] else q
  }

  /** Whether one of the first `k` stored pixels of block `n` lies past the
      end of a plane of `len` bytes. */
  predicate Overruns(n: nat, w: nat, h: nat, mono: bool, len: nat, k: nat)
    requires w > 0
  {
    exists i :: 0 <= i < k && Writes(n, i, w, h, mono) && PixelOffset(n, i, w) >= len
  }

  lemma OverrunsStep(n: nat, w: nat, h: nat, mono: bool, len: nat, k: nat)
    requires w > 0
    ensures Overruns(n, w, h, mono, len, k + 1) <==>
      Overruns(n, w, h, mono, len, k) || (Writes(n, k, w, h, mono) && PixelOffset(n, k, w) >= len)
  {
  }

  /** In colour a plane of `w * h` bytes holds every stored pixel. */
  lemma ColourFits(n: nat, w: nat, h: nat, len: nat, k: nat)
    requires w > 0 && len >= w * h
    ensures !Overruns(n, w, h, false, len, k)
  {
    forall i | 0 <= i < k && InImage(n, i, w, h)
      ensures PixelOffset(n, i, w) < len
    {
      InImageOffset(n, i, w, h);
    }
  }

  /** Distinct pixels inside the image row never share an offset. */
  lemma OffsetsDiffer(n: nat, i: nat, m: nat, j: nat, w: nat)
    requires w > 0 && i < 64 && j < 64 && (n != m || i != j)
    requires PixelX(n, i, w) < w && PixelX(m, j, w) < w
    ensures PixelOffset(n, i, w) != PixelOffset(m, j, w)
  {
    if PixelOffset(n, i, w) == PixelOffset(m, j, w) {
      PixelsDistinct(n, i, m, j, w);
    }
  }

  /** In colour, block `n` sets exactly its pixels inside the image: each
      gets the clamp of its value and every other byte keeps its old one. */
  lemma {:induction false} PaintedColour(p: seq<Byte>, n: nat, w: nat, h: nat, raw: seq<int>, k: nat)
    requires w > 0 && |raw| == 64 && k <= 64
    ensures forall i :: 0 <= i < k && InImage(n, i, w, h) && PixelOffset(n, i, w) < |p| ==>
      Painted(p, n, w, h, false, raw, k)[PixelOffset(n, i, w)] == Saturate(raw[i])
    ensures forall j :: 0 <= j < |p| && (forall i :: 0 <= i < k && InImage(n, i, w, h) ==> PixelOffset(n, i, w) != j) ==>
      Painted(p, n, w, h, false, raw, k)[j] == p[j]
  {
    if k > 0 {
      PaintedColour(p, n, w, h, raw, k - 1);
      if InImage(n, k - 1, w, h) {
        forall i | 0 <= i < k - 1 && InImage(n, i, w, h)
          ensures PixelOffset(n, i, w) != PixelOffset(n, k - 1, w)
        {
          OffsetsDiffer(n, i, n, k - 1, w);
        }
      }
    }
  }

  /** Monochrome stores all 64 pixels of a block, also those right of the
      image, which land on the start of the next pixel row. */
  lemma MonoWraps(n: nat, i: nat, w: nat, h: nat)
    requires w > 0 && i < 64 && PixelX(n, i, w) >= w
    ensures Writes(n, i, w, h, true) && !Writes(n, i, w, h, false)
    ensures PixelOffset(n, i, w) == (PixelY(n, i, w) + 1) * w + (PixelX(n, i, w) - w)
  {
  }

  // --- the three planes ------------------------------------------------------

  function ZeroPlane(n: nat): (r: seq<Byte>)
    ensures |r| == n && forall k :: 0 <= k < n ==> r[k] == 0
  {
    seq(n, _ => 0)
  }

  /** What a plane holds: its bytes, or the zeroed `size` bytes it gets on
      first use. */
  function Contents(a: array?<Byte>, size: nat): seq<Byte>
    reads a
  {
    if a == null then ZeroPlane(size) else a[..]
  }

  /** `m_output_r`, `m_output_g`, `m_output_b`: null until first asked for. */
  class Planes {
    var r: array?<Byte>
    var g: array?<Byte>
    var b: array?<Byte>

    ghost predicate Valid()
      reads this
    {
      && (r != null && g != null ==> r != g)
      && (r != null && b != null ==> r != b)
      && (g != null && b != null ==> g != b)
    }

    function Plane(c: Channel): array?<Byte>
      reads this
    {
      match c
      case Red => r
      case Green => g
      case Blue => b
    }

    constructor ()
      ensures Valid() && r == null && g == null && b == null
    {
      r, g, b := null, null, null;
    }

    /** `GetMOutputR/G/B()`: the plane, allocated and zeroed with `size`
        bytes (the current `GetSizeOfRGB()`) on first use. */
    method Get(c: Channel, size: nat) returns (a: array<Byte>)
      requires Valid()
      modifies this
      ensures Valid() && a == Plane(c)
      ensures old(Plane(c)) == null ==> fresh(a) && a[..] == ZeroPlane(size)
      ensures old(Plane(c)) != null ==> a == old(Plane(c))
      ensures forall d :: d != c ==> Plane(d) == old(Plane(d))
    {
      var cur := Plane(c);
      if cur != null {
        return cur;
      }
      a := new Byte[size](_ => 0);
      match c {
        case Red => r := a;
        case Green => g := a;
        case Blue => b := a;
      }
    }

    /** The `free` and `nullptr` of `Reset()`. */
    method Release()
      modifies this
      ensures Valid() && r == null && g == null && b == null
    {
      r, g, b := null, null, null;
    }

    /** `ConvertYUV2RGB(n, y, cb, cr)`: places the 64 pixels of block `n`
        at row `(n / x_blocks) * 8 + i / 8`, column `(n % x_blocks) * 8 +
        i % 8` of the `w`-wide planes, clamping each value into a byte.
        The planes are fetched first; a zero width then divides by zero
        (`fault`, nothing stored), and a store past a plane is reported
        as `fault` too. */
    method Convert(size: nat, n: nat, w: nat, h: nat, mono: bool, y: seq<int>, cb: seq<int>, cr: seq<int>, toRgb: ColourFn)
      returns (fault: bool)
      requires Valid() && |y| == 64 && |cb| == 64 && |cr| == 64
      modifies this, r, g, b
      ensures Valid() && r != null && g != null && b != null
      ensures old(r) != null ==> r == old(r)
      ensures old(g) != null ==> g == old(g)
      ensures old(b) != null ==> b == old(b)
      ensures old(r) == null ==> fresh(r)
      ensures old(g) == null ==> fresh(g)
      ensures old(b) == null ==> fresh(b)
      ensures w == 0 ==> fault && r[..] == old(Contents(r, size)) && g[..] == old(Contents(g, size)) && b[..] == old(Contents(b, size))
      ensures w > 0 ==>
        && (fault <==> Overruns(n, w, h, mono, r.Length, 64) || Overruns(n, w, h, mono, g.Length, 64) || Overruns(n, w, h, mono, b.Length, 64))
        && r[..] == Painted(old(Contents(r, size)), n, w, h, mono, RawChannel(mono, y, cb, cr, toRgb, Red), 64)
        && g[..] == Painted(old(Contents(g, size)), n, w, h, mono, RawChannel(mono, y, cb, cr, toRgb, Green), 64)
        && b[..] == Painted(old(Contents(b, size)), n, w, h, mono, RawChannel(mono, y, cb, cr, toRgb, Blue), 64)
    {
      var pr := Get(Red, size);
      var pg := Get(Green, size);
      var pb := Get(Blue, size);
      if w == 0 {
        return true;
      }
      fault := PaintBlock(pr, pg, pb, n, w, h, mono, y, cb, cr, toRgb);
    }

    /** The pixel loop of `ConvertYUV2RGB` over the three fetched planes. */
    static method PaintBlock(pr: array<Byte>, pg: array<Byte>, pb: array<Byte>, n: nat, w: nat, h: nat, mono: bool,
                             y: seq<int>, cb: seq<int>, cr: seq<int>, toRgb: ColourFn) returns (fault: bool)
      requires w > 0 && pr != pg && pr != pb && pg != pb && |y| == 64 && |cb| == 64 && |cr| == 64
      modifies pr, pg, pb
      ensures fault <==> (Overruns(n, w, h, mono, pr.Length, 64) || Overruns(n, w, h, mono, pg.Length, 64) || Overruns(n, w, h, mono, pb.Length, 64))
      ensures pr[..] == Painted(old(pr[..]), n, w, h, mono, RawChannel(mono, y, cb, cr, toRgb, Red), 64)
      ensures pg[..] == Painted(old(pg[..]), n, w, h, mono, RawChannel(mono, y, cb, cr, toRgb, Green), 64)
      ensures pb[..] == Painted(old(pb[..]), n, w, h, mono, RawChannel(mono, y, cb, cr, toRgb, Blue), 64)
    {
      ghost var r0, g0, b0 := pr[..], pg[..], pb[..];
      ghost var rawR := RawChannel(mono, y, cb, cr, toRgb, Red);
      ghost var rawG := RawChannel(mono, y, cb, cr, toRgb, Green);
      ghost var rawB := RawChannel(mono, y, cb, cr, toRgb, Blue);
      fault := false;
      for i := 0 to 64
        invariant pr[..] == Painted(r0, n, w, h, mono, rawR, i)
        invariant pg[..] == Painted(g0, n, w, h, mono, rawG, i)
        invariant pb[..] == Painted(b0, n, w, h, mono, rawB, i)
        invariant fault <==>
          (Overruns(n, w, h, mono, pr.Length, i) || Overruns(n, w, h, mono, pg.Length, i) || Overruns(n, w, h, mono, pb.Length, i))
      {
        OverrunsStep(n, w, h, mono, pr.Length, i);
        OverrunsStep(n, w, h, mono, pg.Length, i);
        OverrunsStep(n, w, h, mono, pb.Length, i);
        var missR := PaintPixel(pr, r0, n, w, h, mono, rawR, i, Saturate(RawPixel(mono, y, cb, cr, toRgb, Red, i)));
        var missG := PaintPixel(pg, g0, n, w, h, mono, rawG, i, Saturate(RawPixel(mono, y, cb, cr, toRgb, Green, i)));
        var missB := PaintPixel(pb, b0, n, w, h, mono, rawB, i, Saturate(RawPixel(mono, y, cb, cr, toRgb, Blue, i)));
        fault := fault || missR || missG || missB;
      }
    }

    /** `m_output_x[offset] = v` for pixel `i` of block `n` when that pixel
        is stored; a store past the plane is dropped and reported. */
    static method PaintPixel(a: array<Byte>, ghost p0: seq<Byte>, n: nat, w: nat, h: nat, mono: bool,
                             ghost raw: seq<int>, i: nat, v: Byte) returns (missed: bool)
      requires w > 0 && |raw| == 64 && i < 64 && v == Saturate(raw[i])
      requires a[..] == Painted(p0, n, w, h, mono, raw, i)
      modifies a
      ensures a[..] == Painted(p0, n, w, h, mono, raw, i + 1)
      ensures missed <==> Writes(n, i, w, h, mono) && PixelOffset(n, i, w) >= a.Length
    {
      if !Writes(n, i, w, h, mono) {
        return false;
      }
      var off := PixelOffset(n, i, w);
      if off < a.Length {
        a[off] := v;
        return false;
      }
      return true;
    }
  }

  // --- one 4:2:0 MCU ----------------------------------------------------------

  /** A decoded 4:2:0 MCU: the coefficient count of each of its six blocks,
      the bits its decoding read, the four luma blocks and the two chroma
      blocks after the inverse DCT. */
  datatype Mcu = Mcu(counts: seq<int>, bits: nat, y: seq<int>, cb: seq<int>, cr: seq<int>)

  predicate McuShaped(m: Mcu) {
    |m.counts| == 6 && |m.y| == 256 && |m.cb| == 64 && |m.cr| == 64
  }

  /** What the decoder yields for the next MCU: the MCU, or `-1` from one
      of its six `decode` calls after `bits` bits. */
  datatype McuOutcome = Decoded(mcu: Mcu) | DecodeFailed(bits: nat)

  /** The four chroma expansion loops: `cb_dct_out_x2` and `cr_dct_out_x2`. */
  method ExpandChroma(cb: seq<int>, cr: seq<int>) returns (cbx2: array<int>, crx2: array<int>)
    requires |cb| == 64 && |cr| == 64
    ensures fresh(cbx2) && fresh(crx2) && cbx2 != crx2
    ensures cbx2[..] == Upsample(cb) && crx2[..] == Upsample(cr)
  {
    cbx2 := new int[256];
    crx2 := new int[256];
    ExpandQuad(cb, cr, cbx2, crx2, 0);
    ExpandQuad(cb, cr, cbx2, crx2, 1);
    ExpandQuad(cb, cr, cbx2, crx2, 2);
    ExpandQuad(cb, cr, cbx2, crx2, 3);
  }

  /** Loop `q` of the expansion: entry `q * 64 + i` takes chroma sample
      `QuadBase[q] + (i / 16) * 8 + (i % 8) / 2` (the loops' `sub_idx`
      with its `+ 4` and `32 +` offsets). */
  method ExpandQuad(cb: seq<int>, cr: seq<int>, cbx2: array<int>, crx2: array<int>, q: nat)
    requires |cb| == 64 && |cr| == 64 && cbx2.Length == 256 && crx2.Length == 256 && cbx2 != crx2 && q < 4
    requires forall k :: 0 <= k < 64 * q ==> cbx2[k] == UpsampleAt(cb, k) && crx2[k] == UpsampleAt(cr, k)
    modifies cbx2, crx2
    ensures forall k :: 0 <= k < 64 * (q + 1) ==> cbx2[k] == UpsampleAt(cb, k) && crx2[k] == UpsampleAt(cr, k)
  {
    for i := 0 to 64
      invariant forall k :: 0 <= k < 64 * q + i ==> cbx2[k] == UpsampleAt(cb, k) && crx2[k] == UpsampleAt(cr, k)
    {
      var x, y := i % 8, i / 16;
      var sub := QuadBase[q] + y * 8 + x / 2;
      DivModUnique(64 * q + i, q, 64, i);
      cbx2[64 * q + i] := cb[sub];
      crx2[64 * q + i] := cr[sub];
    }
  }

  /** The raw values of one channel for the four blocks of an MCU. */
  function BlockRaws(m: Mcu, toRgb: ColourFn, c: Channel): (r: seq<seq<int>>)
    requires McuShaped(m)
    ensures |r| == 4 && forall q :: 0 <= q < 4 ==> |r[q]| == 64
  {
    var cbx2, crx2 := Upsample(m.cb), Upsample(m.cr);
    seq(4, q requires 0 <= q < 4 =>
      RawChannel(false, m.y[q * 64..q * 64 + 64], cbx2[q * 64..q * 64 + 64], crx2[q * 64..q * 64 + 64], toRgb, c))
  }

  /** A plane after the first `k` of the colour blocks `blocks` are placed. */
  function PaintBlocks(p: seq<Byte>, blocks: seq<int>, w: nat, h: nat, raws: seq<seq<int>>, k: nat): (r: seq<Byte>)
    requires w > 0 && k <= |blocks| == |raws|
    requires forall q :: 0 <= q < |blocks| ==> blocks[q] >= 0 && |raws[q]| == 64
    ensures |r| == |p|
  {
    if k == 0 then p
    else Painted(PaintBlocks(p, blocks, w, h, raws, k - 1), blocks[k - 1], w, h, false, raws[k - 1], 64)
  }

  /** With distinct block numbers every in-image pixel of the placed blocks
      ends up holding its own clamped value, and no other byte changes. */
  lemma {:induction false} PaintBlocksPixels(p: seq<Byte>, blocks: seq<int>, w: nat, h: nat, raws: seq<seq<int>>, k: nat)
    requires w > 0 && k <= |blocks| == |raws|
    requires forall q :: 0 <= q < |blocks| ==> blocks[q] >= 0 && |raws[q]| == 64
    requires forall q, t :: 0 <= q < t < |blocks| ==> blocks[q] != blocks[t]
    ensures forall q, i :: 0 <= q < k && 0 <= i < 64 && InImage(blocks[q], i, w, h) && PixelOffset(blocks[q], i, w) < |p| ==>
      PaintBlocks(p, blocks, w, h, raws, k)[PixelOffset(blocks[q], i, w)] == Saturate(raws[q][i])
    ensures forall j :: 0 <= j < |p| && (forall q, i :: 0 <= q < k && 0 <= i < 64 && InImage(blocks[q], i, w, h) ==> PixelOffset(blocks[q], i, w) != j) ==>
      PaintBlocks(p, blocks, w, h, raws, k)[j] == p[j]
  {
    if k > 0 {
      var prev := PaintBlocks(p, blocks, w, h, raws, k - 1);
      var last := blocks[k - 1];
      PaintBlocksPixels(p, blocks, w, h, raws, k - 1);
      PaintedColour(prev, last, w, h, raws[k - 1], 64);
      forall q, i, i' | 0 <= q < k - 1 && 0 <= i < 64 && 0 <= i' < 64 && InImage(blocks[q], i, w, h) && InImage(last, i', w, h)
        ensures PixelOffset(blocks[q], i, w) != PixelOffset(last, i', w)
      {
        OffsetsDiffer(blocks[q], i, last, i', w);
      }
    }
  }

  /** Decoding an MCU: the chroma blocks are expanded and the four luma
      blocks placed at `block_num / 2 + {0, 1, mcu_width, mcu_width + 1}`,
      after which the cursor moves on. A zero width stops at the first
      block with a division by zero. */
  method OutputMcu(planes: Planes, size: nat, w: nat, h: nat, cursor: McuCursor, m: Mcu, toRgb: ColourFn)
    returns (next: McuCursor, fault: bool)
    requires planes.Valid() && McuShaped(m) && cursor.blockNum >= 0
    modifies planes, planes.r, planes.g, planes.b
    ensures planes.Valid() && planes.r != null && planes.g != null && planes.b != null
    ensures old(planes.r) != null ==> planes.r == old(planes.r)
    ensures old(planes.g) != null ==> planes.g == old(planes.g)
    ensures old(planes.b) != null ==> planes.b == old(planes.b)
    ensures old(planes.r) == null ==> fresh(planes.r)
    ensures old(planes.g) == null ==> fresh(planes.g)
    ensures old(planes.b) == null ==> fresh(planes.b)
    ensures old(planes.r) == null ==> planes.r.Length == size
    ensures old(planes.g) == null ==> planes.g.Length == size
    ensures old(planes.b) == null ==> planes.b.Length == size
    ensures next == NextMcu(cursor, XBlocks(w))
    ensures w == 0 ==> fault
    ensures w > 0 ==>
      var blocks := McuBlocks(cursor, XBlocks(w));
      && (fault <==> McuOverruns(blocks, w, h, planes.r.Length, planes.g.Length, planes.b.Length, 4))
      && planes.r[..] == PaintBlocks(old(Contents(planes.r, size)), blocks, w, h, BlockRaws(m, toRgb, Red), 4)
      && planes.g[..] == PaintBlocks(old(Contents(planes.g, size)), blocks, w, h, BlockRaws(m, toRgb, Green), 4)
      && planes.b[..] == PaintBlocks(old(Contents(planes.b, size)), blocks, w, h, BlockRaws(m, toRgb, Blue), 4)
  {
    var cbx2, crx2 := ExpandChroma(m.cb, m.cr);
    var mcuWidth := XBlocks(w);
    var blocks := McuBlocks(cursor, mcuWidth);
    next := NextMcu(cursor, mcuWidth);
    // The first `ConvertYUV2RGB` fetches the three planes; later calls get the same ones.
    var pr := planes.Get(Red, size);
    var pg := planes.Get(Green, size);
    var pb := planes.Get(Blue, size);
    if w == 0 {
      return next, true;
    }
    fault := ConvertBlocks(planes, size, w, h, blocks, m, toRgb, cbx2, crx2);
  }

  /** The four `ConvertYUV2RGB` calls of an MCU, once the planes exist. */
  method ConvertBlocks(planes: Planes, size: nat, w: nat, h: nat, blocks: seq<int>, m: Mcu, toRgb: ColourFn,
                       cbx2: array<int>, crx2: array<int>) returns (fault: bool)
    requires planes.Valid() && planes.r != null && planes.g != null && planes.b != null
    requires w > 0 && McuShaped(m) && |blocks| == 4 && forall t :: 0 <= t < 4 ==> blocks[t] >= 0
    requires cbx2[..] == Upsample(m.cb) && crx2[..] == Upsample(m.cr)
    modifies planes, planes.r, planes.g, planes.b
    ensures planes.Valid() && planes.r == old(planes.r) && planes.g == old(planes.g) && planes.b == old(planes.b)
    ensures fault <==> McuOverruns(blocks, w, h, planes.r.Length, planes.g.Length, planes.b.Length, 4)
    ensures planes.r[..] == PaintBlocks(old(planes.r[..]), blocks, w, h, BlockRaws(m, toRgb, Red), 4)
    ensures planes.g[..] == PaintBlocks(old(planes.g[..]), blocks, w, h, BlockRaws(m, toRgb, Green), 4)
    ensures planes.b[..] == PaintBlocks(old(planes.b[..]), blocks, w, h, BlockRaws(m, toRgb, Blue), 4)
  {
    var pr, pg, pb := planes.r, planes.g, planes.b;
    ghost var r0, g0, b0 := pr[..], pg[..], pb[..];
    fault := false;
    for q := 0 to 4
      invariant planes.Valid() && planes.r == pr && planes.g == pg && planes.b == pb
      invariant cbx2[..] == Upsample(m.cb) && crx2[..] == Upsample(m.cr)
      invariant fault <==> McuOverruns(blocks, w, h, pr.Length, pg.Length, pb.Length, q)
      invariant pr[..] == PaintBlocks(r0, blocks, w, h, BlockRaws(m, toRgb, Red), q)
      invariant pg[..] == PaintBlocks(g0, blocks, w, h, BlockRaws(m, toRgb, Green), q)
      invariant pb[..] == PaintBlocks(b0, blocks, w, h, BlockRaws(m, toRgb, Blue), q)
    {
      McuOverrunsStep(blocks, w, h, pr.Length, pg.Length, pb.Length, q);
      var f := ConvertQuad(planes, size, w, h, blocks, q, m, toRgb, cbx2, crx2, r0, g0, b0);
      fault := fault || f;
    }
  }

  /** Whether one of the first `k` blocks stores a pixel past a plane. */
  predicate McuOverruns(blocks: seq<int>, w: nat, h: nat, lr: nat, lg: nat, lb: nat, k: nat)
    requires w > 0 && k <= |blocks| && forall t :: 0 <= t < |blocks| ==> blocks[t] >= 0
  {
    exists t :: 0 <= t < k && (Overruns(blocks[t], w, h, false, lr, 64) || Overruns(blocks[t], w, h, false, lg, 64)
                               || Overruns(blocks[t], w, h, false, lb, 64))
  }

  lemma McuOverrunsStep(blocks: seq<int>, w: nat, h: nat, lr: nat, lg: nat, lb: nat, k: nat)
    requires w > 0 && k < |blocks| && forall t :: 0 <= t < |blocks| ==> blocks[t] >= 0
    ensures McuOverruns(blocks, w, h, lr, lg, lb, k + 1) <==> (McuOverruns(blocks, w, h, lr, lg, lb, k)
      || Overruns(blocks[k], w, h, false, lr, 64) || Overruns(blocks[k], w, h, false, lg, 64) || Overruns(blocks[k], w, h, false, lb, 64))
  {
  }

  /** The `ConvertYUV2RGB` call for luma block `q` of an MCU, with its
      quarter of the expanded chroma. */
  method ConvertQuad(planes: Planes, size: nat, w: nat, h: nat, blocks: seq<int>, q: nat, m: Mcu, toRgb: ColourFn,
                     cbx2: array<int>, crx2: array<int>, ghost r0: seq<Byte>, ghost g0: seq<Byte>, ghost b0: seq<Byte>)
    returns (f: bool)
    requires planes.Valid() && planes.r != null && planes.g != null && planes.b != null
    requires w > 0 && McuShaped(m) && q < 4 && |blocks| == 4 && forall t :: 0 <= t < 4 ==> blocks[t] >= 0
    requires cbx2[..] == Upsample(m.cb) && crx2[..] == Upsample(m.cr)
    requires planes.r[..] == PaintBlocks(r0, blocks, w, h, BlockRaws(m, toRgb, Red), q)
    requires planes.g[..] == PaintBlocks(g0, blocks, w, h, BlockRaws(m, toRgb, Green), q)
    requires planes.b[..] == PaintBlocks(b0, blocks, w, h, BlockRaws(m, toRgb, Blue), q)
    modifies planes, planes.r, planes.g, planes.b
    ensures planes.Valid() && planes.r == old(planes.r) && planes.g == old(planes.g) && planes.b == old(planes.b)
    ensures planes.r[..] == PaintBlocks(r0, blocks, w, h, BlockRaws(m, toRgb, Red), q + 1)
    ensures planes.g[..] == PaintBlocks(g0, blocks, w, h, BlockRaws(m, toRgb, Green), q + 1)
    ensures planes.b[..] == PaintBlocks(b0, blocks, w, h, BlockRaws(m, toRgb, Blue), q + 1)
    ensures f <==> (Overruns(blocks[q], w, h, false, planes.r.Length, 64) || Overruns(blocks[q], w, h, false, planes.g.Length, 64)
      || Overruns(blocks[q], w, h, false, planes.b.Length, 64))
  {
    var yq := m.y[q * 64..q * 64 + 64];
    var cbq := cbx2[q * 64..q * 64 + 64];
    var crq := crx2[q * 64..q * 64 + 64];
    assert cbq == Upsample(m.cb)[q * 64..q * 64 + 64];
    assert crq == Upsample(m.cr)[q * 64..q * 64 + 64];
    f := planes.Convert(size, blocks[q], w, h, false, yq, cbq, crq, toRgb);
  }

  /** The tokens of one MCU: for each block count, `mcu_token` with delay
      `3 * cnt + 6` into `pvarlatency` and an empty token into `ptasks`,
      all stamped `ts`. */
  method EmitTokens(net: Lpn<JpegTok>, counts: seq<int>, ts: int)
    requires net.Valid() && net.nPlaces == NPlaces
    modifies net`tokens
    ensures net.Valid()
    ensures net.tokens == old(net.tokens)[Pvarlatency := old(net.tokens[Pvarlatency]) + LatencyTokens(counts, ts)]
                                         [Ptasks := old(net.tokens[Ptasks]) + TaskTokens(|counts|, ts)]
  {
    for k := 0 to |counts|
      invariant net.Valid()
      invariant net.tokens[Pvarlatency] == old(net.tokens[Pvarlatency]) + LatencyTokens(counts[..k], ts)
      invariant net.tokens[Ptasks] == old(net.tokens[Ptasks]) + TaskTokens(k, ts)
      invariant forall p :: 0 <= p < NPlaces && p != Pvarlatency && p != Ptasks ==> net.tokens[p] == old(net.tokens[p])
    {
      net.PushToken(Pvarlatency, Token(ts, McuTok(3 * counts[k] + 6)));
      net.PushToken(Ptasks, Token(ts, EmptyTok));
      assert LatencyTokens(counts[..k + 1], ts) == LatencyTokens(counts[..k], ts) + [Token(ts, McuTok(3 * counts[k] + 6))];
    }
    assert counts[..|counts|] == counts;
    assert forall p :: 0 <= p < NPlaces ==> (net.tokens[p] ==
      old(net.tokens)[Pvarlatency := old(net.tokens[Pvarlatency]) + LatencyTokens(counts, ts)]
                     [Ptasks := old(net.tokens[Ptasks]) + TaskTokens(|counts|, ts)][p]);
  }
}

// `SRAM<kBits, kLane, kMaxNumElem>` of the VTA functional simulator: the
// `Load` that fills a padded two-dimensional block of elements and the
// `TruncStore` that narrows accumulator lanes into the store buffer. An
// SRAM is an array of `kMaxNumElem` elements; DRAM, addressed in elements,
// is a sequence. The element type is left generic for `Load`, which only
// moves whole elements.
module VtaSram {
  import opened Arith
  import opened VtaIsa
  import opened VtaBitPacker

  function XTotal(op: MemInsn): nat {
    op.xSize + op.xPad0 + op.xPad1
  }

  function YTotal(op: MemInsn): nat {
    op.ySize + op.yPad0 + op.yPad1
  }

  /** Where row `r` of the loaded block starts: rows are `XTotal` elements apart from `sram_base`. */
  function RowBase(op: MemInsn, r: nat): (p: nat)
    ensures p >= op.sramBase
  {
    if r == 0 then op.sramBase else RowBase(op, r - 1) + XTotal(op)
  }

  /** The SRAM index of row `r`, column `c` of the loaded block. */
  function Pos(op: MemInsn, r: nat, c: nat): nat {
    RowBase(op, r) + c
  }

  /** The closed form of `RowBase`: `sram_base + r * XTotal`. */
  lemma {:induction false} RowBaseClosed(op: MemInsn, r: nat)
    ensures RowBase(op, r) == op.sramBase + r * XTotal(op)
  {
    if r > 0 {
      RowBaseClosed(op, r - 1);
      MulDistrib(r - 1, 1, XTotal(op));
    }
  }

  /** The DRAM index of element `x` of source row `y`. */
  function DramIndex(op: MemInsn, y: nat, x: nat): nat {
    op.dramBase + y * op.xStride + x
  }

  /** Every element the load copies lies inside `dram`. */
  predicate DramCovers<E>(op: MemInsn, dram: seq<E>) {
    forall y, x :: 0 <= y < op.ySize && 0 <= x < op.xSize ==> DramIndex(op, y, x) < |dram|
  }

  /** The element `Load` leaves at row `r`, column `c`: zero in the padding, otherwise the DRAM element. */
  function Loaded<E>(op: MemInsn, dram: seq<E>, zero: E, r: nat, c: nat): E
    requires DramCovers(op, dram)
  {
    if r < op.yPad0 || r >= op.yPad0 + op.ySize || c < op.xPad0 || c >= op.xPad0 + op.xSize then zero
    else dram[DramIndex(op, r - op.yPad0, c - op.xPad0)]
  }

  /** Row `r` of the block occupies `[Pos(r, 0), Pos(r, 0) + XTotal)`. */
  lemma RowStart(op: MemInsn, r: nat)
    ensures Pos(op, r + 1, 0) == Pos(op, r, 0) + XTotal(op)
  {
  }

  /** Later rows start later. */
  lemma {:induction false} RowsMono(op: MemInsn, r: nat, r1: nat)
    requires r <= r1
    ensures Pos(op, r, 0) <= Pos(op, r1, 0)
  {
    if r < r1 {
      RowsMono(op, r, r1 - 1);
    }
  }

  /** Cell `(r, c)` lies in the span of rows `[r0, r1)` when `r` does. */
  lemma InRows(op: MemInsn, r0: nat, r1: nat, r: nat, c: nat)
    requires r0 <= r < r1 && c < XTotal(op)
    ensures Pos(op, r0, 0) <= Pos(op, r, c) < Pos(op, r1, 0)
  {
    RowsMono(op, r0, r);
    RowStart(op, r);
    RowsMono(op, r + 1, r1);
  }

  /** `memset` of the whole padding rows `[r0, r1)`. */
  method ZeroRows<E>(sram: array<E>, zero: E, op: MemInsn, r0: nat, r1: nat)
    requires r0 <= r1 && Pos(op, r1, 0) <= sram.Length
    modifies sram
    ensures forall r: nat, c: nat :: r0 <= r < r1 && c < XTotal(op) ==> Pos(op, r, c) < Pos(op, r1, 0)
    ensures forall r: nat, c: nat :: r0 <= r < r1 && c < XTotal(op) ==> sram[Pos(op, r, c)] == zero
    ensures forall q :: 0 <= q < sram.Length && !(Pos(op, r0, 0) <= q < Pos(op, r1, 0)) ==> sram[q] == old(sram[q])
  {
    RowsMono(op, r0, r1);
    forall q | Pos(op, r0, 0) <= q < Pos(op, r1, 0) {
      sram[q] := zero;
    }
    forall r: nat, c: nat | r0 <= r < r1 && c < XTotal(op)
      ensures Pos(op, r0, 0) <= Pos(op, r, c) < Pos(op, r1, 0)
    {
      InRows(op, r0, r1, r, c);
    }
  }

  /** One iteration of the row loop, for block row `r = y_pad_0 + y`: `x_pad_0` zeros, `x_size` DRAM elements, `x_pad_1` zeros. */
  method LoadRow<E>(sram: array<E>, dram: seq<E>, zero: E, op: MemInsn, y: nat, r: nat)
    requires DramCovers(op, dram) && y < op.ySize && r == op.yPad0 + y
    requires Pos(op, r + 1, 0) <= sram.Length
    modifies sram
    ensures forall c: nat :: c < XTotal(op) ==> sram[Pos(op, r, c)] == Loaded(op, dram, zero, r, c)
    ensures forall q :: 0 <= q < sram.Length && !(Pos(op, r, 0) <= q < Pos(op, r + 1, 0)) ==> sram[q] == old(sram[q])
  {
    RowStart(op, r);
    var p := Pos(op, r, 0);
    forall q | p <= q < p + op.xPad0 {
      sram[q] := zero;
    }
    forall i | 0 <= i < op.xSize {
      sram[p + op.xPad0 + i] := dram[DramIndex(op, y, i)];
    }
    forall q | p + op.xPad0 + op.xSize <= q < p + XTotal(op) {
      sram[q] := zero;
    }
    forall c: nat | c < XTotal(op)
      ensures sram[Pos(op, r, c)] == Loaded(op, dram, zero, r, c)
    {
      if op.xPad0 <= c < op.xPad0 + op.xSize {
        assert Pos(op, r, c) == p + op.xPad0 + (c - op.xPad0);
      }
    }
  }

  /** Every cell of the rows above `r` precedes row `r`. */
  lemma RowsBelow(op: MemInsn, r: nat)
    ensures forall r0: nat, c: nat :: r0 < r && c < XTotal(op) ==> Pos(op, r0, c) < Pos(op, r, 0)
  {
    forall r0: nat, c: nat | r0 < r && c < XTotal(op)
      ensures Pos(op, r0, c) < Pos(op, r, 0)
    {
      InRows(op, 0, r, r0, c);
    }
  }

  /** The row loop of `Load`: block rows `y_pad_0 ..` `y_pad_0 + y_size` from DRAM, below the already zeroed top padding. */
  method LoadRows<E>(sram: array<E>, dram: seq<E>, zero: E, op: MemInsn)
    requires DramCovers(op, dram)
    requires op.sramBase + XTotal(op) * YTotal(op) <= sram.Length
    requires forall r: nat, c: nat :: r < YTotal(op) && c < XTotal(op) ==> Pos(op, r, c) < sram.Length
    requires forall r: nat, c: nat :: r < op.yPad0 && c < XTotal(op) ==> sram[Pos(op, r, c)] == Loaded(op, dram, zero, r, c)
    modifies sram
    ensures forall r: nat, c: nat :: r < op.yPad0 + op.ySize && c < XTotal(op) ==> sram[Pos(op, r, c)] == Loaded(op, dram, zero, r, c)
    ensures forall q :: 0 <= q < sram.Length && !(Pos(op, op.yPad0, 0) <= q < Pos(op, op.yPad0 + op.ySize, 0)) ==>
      sram[q] == old(sram[q])
  {
    var top, total := op.yPad0, YTotal(op);
    RowBaseClosed(op, total);
    RowsMono(op, 0, top);
    var y := 0;
    while y < op.ySize
      invariant y <= op.ySize
      invariant forall r: nat, c: nat :: r < top + y && c < XTotal(op) ==> sram[Pos(op, r, c)] == Loaded(op, dram, zero, r, c)
      invariant forall q :: 0 <= q < sram.Length && !(Pos(op, top, 0) <= q < Pos(op, top + y, 0)) ==> sram[q] == old(sram[q])
    {
      var r := top + y;
      RowsMono(op, r + 1, total);
      RowsMono(op, top, r);
      RowsBelow(op, r);
      LoadRow(sram, dram, zero, op, y, r);
      y := y + 1;
    }
  }

  /** `Load(op, load_counter, false)`: the returned counter is the updated `*load_counter`. */
  method Load<E>(sram: array<E>, dram: seq<E>, zero: E, op: MemInsn, elemBytes: nat, counter: nat)
    returns (newCounter: nat)
    requires DramCovers(op, dram)
    requires op.sramBase + XTotal(op) * YTotal(op) <= sram.Length
    modifies sram
    ensures newCounter == ToU64(counter + op.xSize * op.ySize * elemBytes)
    ensures forall r: nat, c: nat :: r < YTotal(op) && c < XTotal(op) ==> Pos(op, r, c) < sram.Length
    ensures forall r: nat, c: nat :: r < YTotal(op) && c < XTotal(op) ==> sram[Pos(op, r, c)] == Loaded(op, dram, zero, r, c)
    ensures forall q :: 0 <= q < sram.Length && !(op.sramBase <= q < op.sramBase + XTotal(op) * YTotal(op)) ==>
      sram[q] == old(sram[q])
  {
    newCounter := ToU64(counter + op.xSize * op.ySize * elemBytes);
    var top, bottom, total := op.yPad0, op.yPad0 + op.ySize, YTotal(op);
    RowBaseClosed(op, total);
    RowsMono(op, bottom, total);
    RowsMono(op, top, bottom);
    forall r: nat, c: nat | r < total && c < XTotal(op)
      ensures Pos(op, r, c) < sram.Length
    {
      InRows(op, 0, total, r, c);
    }
    ZeroRows(sram, zero, op, 0, top);
    LoadRows(sram, dram, zero, op);
    RowsBelow(op, bottom);
    ZeroRows(sram, zero, op, bottom, total);
  }

  /** A lane value stored into `bits` bits and read back signed: the `bits`-bit value congruent to `v`. */
  function Narrow(v: int, bits: nat): (r: int)
    requires 0 < bits
    ensures -(Pow2(bits - 1) as int) <= r < Pow2(bits - 1)
    ensures r % Pow2(bits) == v % Pow2(bits)
  {
    var u := v % Pow2(bits);
    var r := SignExtend(u, bits);
    if r == u then DivModUnique(u, 0, Pow2(bits), u); r
    else DivModUnique(r, -1, Pow2(bits), u); r
  }

  /** Lane `i` of element `(y, x)` of the stored block, as an index into the accumulator words at `sram_base`. */
  function SrcIndex(op: MemInsn, lanes: nat, y: nat, x: nat, i: nat): nat {
    (y * op.xSize + x) * lanes + i
  }

  /** Lane `i` of element `(y, x)`, as an index into the store buffer (which starts at `dram_base`). */
  function DstIndex(op: MemInsn, lanes: nat, y: nat, x: nat, i: nat): nat {
    (y * op.xStride + x) * lanes + i
  }

  /** Every lane `TruncStore` reads and writes lies inside the accumulator and the store buffer. */
  predicate StoreFits(op: MemInsn, lanes: nat, srcBits: nat, srcLen: nat, dstBits: nat, dstLen: nat)
    requires ValidWidth(srcBits) && ValidWidth(dstBits)
  {
    forall y, x, i :: 0 <= y < op.ySize && 0 <= x < op.xSize && 0 <= i < lanes ==>
      WordIndex(srcBits, SrcIndex(op, lanes, y, x, i)) < srcLen &&
      WordIndex(dstBits, DstIndex(op, lanes, y, x, i)) < dstLen
  }

  /** Shorthand for the preconditions every step of the store shares. */
  predicate StoreOk(op: MemInsn, lanes: nat, src: seq<Word>, srcBits: nat, dstBits: nat, dst: seq<Word>) {
    ValidWidth(srcBits) && ValidWidth(dstBits) && StoreFits(op, lanes, srcBits, |src|, dstBits, |dst|)
  }

  /** The buffer after the first `n` lanes of element `(y, x)` have been stored. */
  function StoreLanes(op: MemInsn, lanes: nat, src: seq<Word>, srcBits: nat, dstBits: nat, dst: seq<Word>,
                      y: nat, x: nat, n: nat): (r: seq<Word>)
    requires StoreOk(op, lanes, src, srcBits, dstBits, dst)
    requires y < op.ySize && x < op.xSize && n <= lanes
    ensures |r| == |dst|
  {
    if n == 0 then dst
    else
      var d := StoreLanes(op, lanes, src, srcBits, dstBits, dst, y, x, n - 1);
      WithSigned(d, dstBits, DstIndex(op, lanes, y, x, n - 1), GetSigned(src, srcBits, SrcIndex(op, lanes, y, x, n - 1)))
  }

  /** The buffer after the first `n` elements of row `y` have been stored. */
  function StoreCols(op: MemInsn, lanes: nat, src: seq<Word>, srcBits: nat, dstBits: nat, dst: seq<Word>,
                     y: nat, n: nat): (r: seq<Word>)
    requires StoreOk(op, lanes, src, srcBits, dstBits, dst)
    requires y < op.ySize && n <= op.xSize
    ensures |r| == |dst|
  {
    if n == 0 then dst
    else StoreLanes(op, lanes, src, srcBits, dstBits, StoreCols(op, lanes, src, srcBits, dstBits, dst, y, n - 1), y, n - 1, lanes)
  }

  /** The buffer after the first `n` rows have been stored. */
  function StoreRows(op: MemInsn, lanes: nat, src: seq<Word>, srcBits: nat, dstBits: nat, dst: seq<Word>,
                     n: nat): (r: seq<Word>)
    requires StoreOk(op, lanes, src, srcBits, dstBits, dst)
    requires n <= op.ySize
    ensures |r| == |dst|
  {
    if n == 0 then dst
    else StoreCols(op, lanes, src, srcBits, dstBits, StoreRows(op, lanes, src, srcBits, dstBits, dst, n - 1), n - 1, op.xSize)
  }

  /**
   * `TruncStore<target_bits>(op)`: lane `i` of element `(y, x)` of the
   * accumulator block (rows `x_size` elements apart) is narrowed into lane
   * `i` of element `(y, x)` of the store buffer (rows `x_stride` elements
   * apart). `src` holds the accumulator words from `sram_base` on; `bufLen`
   * is the length the store buffer is given, `(y_size*x_stride + x_size)*kLane`.
   * A padded block fails the `CHECK_EQ`s, reported as `aborted`, before
   * anything is written.
   */
  method TruncStore(op: MemInsn, lanes: nat, src: seq<Word>, srcBits: nat, dst: array<Word>, dstBits: nat)
    returns (aborted: bool, bufLen: nat)
    requires StoreOk(op, lanes, src, srcBits, dstBits, dst[..])
    modifies dst
    ensures aborted <==> !(op.xPad0 == 0 && op.xPad1 == 0 && op.yPad0 == 0 && op.yPad1 == 0)
    ensures aborted ==> dst[..] == old(dst[..])
    ensures !aborted ==> bufLen == (op.ySize * op.xStride + op.xSize) * lanes
    ensures !aborted ==> dst[..] == StoreRows(op, lanes, src, srcBits, dstBits, old(dst[..]), op.ySize)
  {
    if op.xPad0 != 0 || op.xPad1 != 0 || op.yPad0 != 0 || op.yPad1 != 0 {
      return true, 0;
    }
    ghost var d0 := dst[..];
    bufLen := (op.ySize * op.xStride + op.xSize) * lanes;
    var y := 0;
    while y < op.ySize
      invariant y <= op.ySize && |d0| == dst.Length
      invariant dst[..] == StoreRows(op, lanes, src, srcBits, dstBits, d0, y)
    {
      StoreRow(op, lanes, src, srcBits, dst, dstBits, y);
      y := y + 1;
    }
    return false, bufLen;
  }

  /** The `x` loop of `TruncStore` for row `y`. */
  method StoreRow(op: MemInsn, lanes: nat, src: seq<Word>, srcBits: nat, dst: array<Word>, dstBits: nat, y: nat)
    requires StoreOk(op, lanes, src, srcBits, dstBits, dst[..]) && y < op.ySize
    modifies dst
    ensures dst[..] == StoreCols(op, lanes, src, srcBits, dstBits, old(dst[..]), y, op.xSize)
  {
    ghost var dy := dst[..];
    var x := 0;
    while x < op.xSize
      invariant x <= op.xSize && |dy| == dst.Length
      invariant dst[..] == StoreCols(op, lanes, src, srcBits, dstBits, dy, y, x)
    {
      StoreElement(op, lanes, src, srcBits, dst, dstBits, y, x);
      x := x + 1;
    }
  }

  /** The lane loop of `TruncStore` for element `(y, x)`. */
  method StoreElement(op: MemInsn, lanes: nat, src: seq<Word>, srcBits: nat, dst: array<Word>, dstBits: nat, y: nat, x: nat)
    requires StoreOk(op, lanes, src, srcBits, dstBits, dst[..]) && y < op.ySize && x < op.xSize
    modifies dst
    ensures dst[..] == StoreLanes(op, lanes, src, srcBits, dstBits, old(dst[..]), y, x, lanes)
  {
    ghost var dx := dst[..];
    var i := 0;
    while i < lanes
      invariant i <= lanes && |dx| == dst.Length
      invariant dst[..] == StoreLanes(op, lanes, src, srcBits, dstBits, dx, y, x, i)
    {
      GetSignedIsInt32(src, srcBits, SrcIndex(op, lanes, y, x, i));
      SetSigned(dst, dstBits, DstIndex(op, lanes, y, x, i), GetSigned(src, srcBits, SrcIndex(op, lanes, y, x, i)));
      i := i + 1;
    }
  }

  /** Store-buffer lanes are laid out element by element. */
  lemma SlotBefore(op: MemInsn, lanes: nat, y: nat, x: nat, i: nat, y2: nat, x2: nat)
    requires y * op.xStride + x < y2 * op.xStride + x2 && i < lanes
    ensures DstIndex(op, lanes, y, x, i) < DstIndex(op, lanes, y2, x2, 0)
  {
    MulStep(y * op.xStride + x, y2 * op.xStride + x2, lanes);
  }

  /** The first lane of a row comes no later than any lane of that row. */
  lemma RowFirst(op: MemInsn, lanes: nat, y: nat, x: nat)
    ensures DstIndex(op, lanes, y, 0, 0) <= DstIndex(op, lanes, y, x, 0)
  {
    if x > 0 {
      MulStep(y * op.xStride, y * op.xStride + x, lanes);
    }
  }

  /** With `x_size <= x_stride`, every element of row `y` precedes every element of a later row. */
  lemma RowBefore(op: MemInsn, y: nat, x: nat, y2: nat)
    requires x < op.xSize <= op.xStride && y < y2
    ensures y * op.xStride + x < y2 * op.xStride + 0
  {
    MulStep(y, y2, op.xStride);
  }

  /** Lane `i < n` of element `(y, x)` holds its narrowed accumulator lane once `n` lanes are stored. */
  lemma {:induction false} LanesGet(op: MemInsn, lanes: nat, src: seq<Word>, srcBits: nat, dstBits: nat, dst: seq<Word>,
                                    y: nat, x: nat, n: nat, i: nat)
    requires StoreOk(op, lanes, src, srcBits, dstBits, dst)
    requires y < op.ySize && x < op.xSize && i < n <= lanes
    ensures WordIndex(dstBits, DstIndex(op, lanes, y, x, i)) < |dst|
    ensures GetSigned(StoreLanes(op, lanes, src, srcBits, dstBits, dst, y, x, n), dstBits, DstIndex(op, lanes, y, x, i)) ==
            Narrow(GetSigned(src, srcBits, SrcIndex(op, lanes, y, x, i)), dstBits)
  {
    var d := StoreLanes(op, lanes, src, srcBits, dstBits, dst, y, x, n - 1);
    var v := GetSigned(src, srcBits, SrcIndex(op, lanes, y, x, n - 1));
    if i == n - 1 {
      SignedRoundTrip(d, dstBits, DstIndex(op, lanes, y, x, i), v);
    } else {
      LanesGet(op, lanes, src, srcBits, dstBits, dst, y, x, n - 1, i);
      SetKeepsOtherElements(d, dstBits, DstIndex(op, lanes, y, x, n - 1), ToU32(v), DstIndex(op, lanes, y, x, i));
    }
  }

  /** Storing lanes of element `(y, x)` leaves every element before it alone. */
  lemma {:induction false} LanesKeep(op: MemInsn, lanes: nat, src: seq<Word>, srcBits: nat, dstBits: nat, dst: seq<Word>,
                                     y: nat, x: nat, n: nat, j: nat)
    requires StoreOk(op, lanes, src, srcBits, dstBits, dst)
    requires y < op.ySize && x < op.xSize && n <= lanes
    requires j < DstIndex(op, lanes, y, x, 0) && WordIndex(dstBits, j) < |dst|
    ensures GetSigned(StoreLanes(op, lanes, src, srcBits, dstBits, dst, y, x, n), dstBits, j) == GetSigned(dst, dstBits, j)
  {
    if n > 0 {
      var d := StoreLanes(op, lanes, src, srcBits, dstBits, dst, y, x, n - 1);
      var v := GetSigned(src, srcBits, SrcIndex(op, lanes, y, x, n - 1));
      LanesKeep(op, lanes, src, srcBits, dstBits, dst, y, x, n - 1, j);
      SetKeepsOtherElements(d, dstBits, DstIndex(op, lanes, y, x, n - 1), ToU32(v), j);
    }
  }

  /** Lane `i` of element `(y, x)`, `x < n`, holds its narrowed value once `n` elements of row `y` are stored. */
  lemma {:induction false} ColsGet(op: MemInsn, lanes: nat, src: seq<Word>, srcBits: nat, dstBits: nat, dst: seq<Word>,
                                   y: nat, n: nat, x: nat, i: nat)
    requires StoreOk(op, lanes, src, srcBits, dstBits, dst)
    requires y < op.ySize && x < n <= op.xSize && i < lanes
    ensures WordIndex(dstBits, DstIndex(op, lanes, y, x, i)) < |dst|
    ensures GetSigned(StoreCols(op, lanes, src, srcBits, dstBits, dst, y, n), dstBits, DstIndex(op, lanes, y, x, i)) ==
            Narrow(GetSigned(src, srcBits, SrcIndex(op, lanes, y, x, i)), dstBits)
  {
    var d := StoreCols(op, lanes, src, srcBits, dstBits, dst, y, n - 1);
    assert StoreCols(op, lanes, src, srcBits, dstBits, dst, y, n) == StoreLanes(op, lanes, src, srcBits, dstBits, d, y, n - 1, lanes);
    if x == n - 1 {
      LanesGet(op, lanes, src, srcBits, dstBits, d, y, x, lanes, i);
    } else {
      ColsGet(op, lanes, src, srcBits, dstBits, dst, y, n - 1, x, i);
      LaterColKeeps(op, lanes, src, srcBits, dstBits, d, y, n - 1, x, i);
    }
  }

  /** Storing element `(y, n)` leaves every lane of an earlier element `(y, x)` alone. */
  lemma LaterColKeeps(op: MemInsn, lanes: nat, src: seq<Word>, srcBits: nat, dstBits: nat, d: seq<Word>,
                      y: nat, n: nat, x: nat, i: nat)
    requires StoreOk(op, lanes, src, srcBits, dstBits, d)
    requires y < op.ySize && x < n < op.xSize && i < lanes
    ensures WordIndex(dstBits, DstIndex(op, lanes, y, x, i)) < |d|
    ensures GetSigned(StoreLanes(op, lanes, src, srcBits, dstBits, d, y, n, lanes), dstBits, DstIndex(op, lanes, y, x, i)) ==
            GetSigned(d, dstBits, DstIndex(op, lanes, y, x, i))
  {
    SlotBefore(op, lanes, y, x, i, y, n);
    LanesKeep(op, lanes, src, srcBits, dstBits, d, y, n, lanes, DstIndex(op, lanes, y, x, i));
  }

  /** Storing elements of row `y` leaves every element before the row alone. */
  lemma {:induction false} ColsKeep(op: MemInsn, lanes: nat, src: seq<Word>, srcBits: nat, dstBits: nat, dst: seq<Word>,
                                    y: nat, n: nat, j: nat)
    requires StoreOk(op, lanes, src, srcBits, dstBits, dst)
    requires y < op.ySize && n <= op.xSize
    requires j < DstIndex(op, lanes, y, 0, 0) && WordIndex(dstBits, j) < |dst|
    ensures GetSigned(StoreCols(op, lanes, src, srcBits, dstBits, dst, y, n), dstBits, j) == GetSigned(dst, dstBits, j)
  {
    if n > 0 {
      var d := StoreCols(op, lanes, src, srcBits, dstBits, dst, y, n - 1);
      ColsKeep(op, lanes, src, srcBits, dstBits, dst, y, n - 1, j);
      RowFirst(op, lanes, y, n - 1);
      LanesKeep(op, lanes, src, srcBits, dstBits, d, y, n - 1, lanes, j);
    }
  }

  /** Lane `i` of element `(y, x)`, `y < n`, holds its narrowed value once `n` rows are stored. */
  lemma {:induction false} RowsGet(op: MemInsn, lanes: nat, src: seq<Word>, srcBits: nat, dstBits: nat, dst: seq<Word>,
                                   n: nat, y: nat, x: nat, i: nat)
    requires StoreOk(op, lanes, src, srcBits, dstBits, dst)
    requires op.xSize <= op.xStride
    requires y < n <= op.ySize && x < op.xSize && i < lanes
    ensures WordIndex(dstBits, DstIndex(op, lanes, y, x, i)) < |dst|
    ensures GetSigned(StoreRows(op, lanes, src, srcBits, dstBits, dst, n), dstBits, DstIndex(op, lanes, y, x, i)) ==
            Narrow(GetSigned(src, srcBits, SrcIndex(op, lanes, y, x, i)), dstBits)
  {
    var d := StoreRows(op, lanes, src, srcBits, dstBits, dst, n - 1);
    if y == n - 1 {
      ColsGet(op, lanes, src, srcBits, dstBits, d, y, op.xSize, x, i);
    } else {
      RowsGet(op, lanes, src, srcBits, dstBits, dst, n - 1, y, x, i);
      LaterRowKeeps(op, lanes, src, srcBits, dstBits, d, n - 1, y, x, i);
    }
  }

  /** Storing row `n` leaves every lane of an earlier row `y` alone. */
  lemma LaterRowKeeps(op: MemInsn, lanes: nat, src: seq<Word>, srcBits: nat, dstBits: nat, d: seq<Word>,
                      n: nat, y: nat, x: nat, i: nat)
    requires StoreOk(op, lanes, src, srcBits, dstBits, d)
    requires op.xSize <= op.xStride
    requires y < n < op.ySize && x < op.xSize && i < lanes
    ensures WordIndex(dstBits, DstIndex(op, lanes, y, x, i)) < |d|
    ensures GetSigned(StoreCols(op, lanes, src, srcBits, dstBits, d, n, op.xSize), dstBits, DstIndex(op, lanes, y, x, i)) ==
            GetSigned(d, dstBits, DstIndex(op, lanes, y, x, i))
  {
    RowBefore(op, y, x, n);
    SlotBefore(op, lanes, y, x, i, n, 0);
    ColsKeep(op, lanes, src, srcBits, dstBits, d, n, op.xSize, DstIndex(op, lanes, y, x, i));
  }

  /**
   * What `TruncStore` leaves in the store buffer: when rows do not overlap
   * (`x_size <= x_stride`), lane `i` of element `(y, x)` reads back, signed,
   * as lane `i` of element `(y, x)` of the accumulator block narrowed to
   * `target_bits` bits.
   */
  lemma TruncStoreNarrows(op: MemInsn, lanes: nat, src: seq<Word>, srcBits: nat, dstBits: nat, dst: seq<Word>,
                          y: nat, x: nat, i: nat)
    requires StoreOk(op, lanes, src, srcBits, dstBits, dst)
    requires op.xSize <= op.xStride
    requires y < op.ySize && x < op.xSize && i < lanes
    ensures WordIndex(dstBits, DstIndex(op, lanes, y, x, i)) < |dst|
    ensures GetSigned(StoreRows(op, lanes, src, srcBits, dstBits, dst, op.ySize), dstBits, DstIndex(op, lanes, y, x, i)) ==
            Narrow(GetSigned(src, srcBits, SrcIndex(op, lanes, y, x, i)), dstBits)
  {
    RowsGet(op, lanes, src, srcBits, dstBits, dst, op.ySize, y, x, i);
  }
}

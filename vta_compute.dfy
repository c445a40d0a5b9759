// `RunGEMM` and `RunALU` of the VTA functional simulator. An SRAM element
// is modelled by its signed lane values (`BitPacker::GetSigned` of each
// lane); the bit packing itself is the subject of `VtaBitPacker`, whose
// round-trip lemma gives the one fact used here: a lane written with the
// 32-bit `SetSigned(v)` reads back as `v` wrapped to `int32_t` (`ToI32`).
// `VTA_BATCH`, `VTA_BLOCK_IN` and `VTA_BLOCK_OUT` are the fields of a
// `Shape`, since the hardware configuration header is not part of this model.
module VtaCompute {
  import opened Arith
  import opened VtaIsa

  type Lanes = seq<int>

  /** `VTA_BATCH`, `VTA_BLOCK_IN`, `VTA_BLOCK_OUT` */
  datatype Shape = Shape(batch: nat, blockIn: nat, blockOut: nat)

  /** Lanes of an accumulator element, `VTA_BATCH * VTA_BLOCK_OUT`. */
  function AccLanes(sh: Shape): nat {
    sh.batch * sh.blockOut
  }

  /** `i * VTA_BLOCK_OUT + j`: lane `(i, j)` of an accumulator element. */
  function AccLane(sh: Shape, i: nat, j: nat): nat {
    i * sh.blockOut + j
  }

  /** `i * VTA_BLOCK_IN + k`: lane `(i, k)` of an input element. */
  function InpLane(sh: Shape, i: nat, k: nat): nat {
    i * sh.blockIn + k
  }

  /** `j * VTA_BLOCK_IN + k`: lane `(j, k)` of a weight element. */
  function WgtLane(sh: Shape, j: nat, k: nat): nat {
    j * sh.blockIn + k
  }

  // ---------------------------------------------------------------- int32

  /** Integers congruent modulo 2^32 wrap to the same `int32_t`. */
  lemma ToI32Congruent(x: int, y: int)
    requires (x - y) % U32 == 0
    ensures ToI32(x) == ToI32(y)
  {
    DivModUnique(x, y / U32 + (x - y) / U32, U32, y % U32);
  }

  /** Sums of multiples of 2^32 are multiples of 2^32. */
  lemma MultipleSum(a: int, b: int)
    requires a % U32 == 0 && b % U32 == 0
    ensures (a + b) % U32 == 0
  {
    DivModUnique(a + b, a / U32 + b / U32, U32, 0);
  }

  /** Wrapping after an addition keeps a running sum congruent to the exact one. */
  lemma WrapStep(sum: int, exact: int, p: int)
    requires (sum - exact) % U32 == 0
    ensures (ToI32(sum + p) - (exact + p)) % U32 == 0
  {
    MultipleSum(ToI32(sum + p) - (sum + p), sum - exact);
  }

  // ---------------------------------------------------------------- lanes

  lemma AccLaneBound(sh: Shape, i: nat, j: nat)
    requires i < sh.batch && j < sh.blockOut
    ensures AccLane(sh, i, j) < AccLanes(sh)
  {
    PartBound(i, j, sh.batch, sh.blockOut);
  }

  lemma InLaneBounds(sh: Shape, i: nat, j: nat, k: nat)
    requires i < sh.batch && j < sh.blockOut && k < sh.blockIn
    ensures InpLane(sh, i, k) < sh.batch * sh.blockIn && WgtLane(sh, j, k) < sh.blockOut * sh.blockIn
  {
    PartBound(i, k, sh.batch, sh.blockIn);
    PartBound(j, k, sh.blockOut, sh.blockIn);
  }

  /** Lane `(i, j)` sits at flat position `i * VTA_BLOCK_OUT + j`, and that position determines `i` and `j`. */
  lemma LaneSplit(sh: Shape, i: nat, j: nat)
    requires j < sh.blockOut
    ensures AccLane(sh, i, j) / sh.blockOut == i && AccLane(sh, i, j) % sh.blockOut == j
  {
    DivModUnique(AccLane(sh, i, j), i, sh.blockOut, j);
  }

  /** Every flat lane position of an accumulator element is some lane `(i, j)`. */
  lemma LaneOf(sh: Shape, l: nat)
    requires l < AccLanes(sh)
    ensures sh.blockOut > 0 && l / sh.blockOut < sh.batch && l % sh.blockOut < sh.blockOut
    ensures AccLane(sh, l / sh.blockOut, l % sh.blockOut) == l
  {
    assert sh.blockOut > 0;
    DivNat(l, sh.blockOut);
    if l / sh.blockOut >= sh.batch {
      if l / sh.blockOut > sh.batch {
        MulStep(sh.batch, l / sh.blockOut, sh.blockOut);
      }
      assert false;
    }
  }

  /** The lanes after the last one of row `i` are those of row `i + 1`. */
  lemma NextRow(sh: Shape, i: nat)
    ensures AccLane(sh, i, sh.blockOut) == AccLane(sh, i + 1, 0)
  {
    MulDistrib(i, 1, sh.blockOut);
  }

  // ----------------------------------------------------------------- GEMM

  /** The element sizes one GEMM micro-op combines. */
  predicate GemmShapes(sh: Shape, accE: Lanes, inpE: Lanes, wgtE: Lanes) {
    |accE| == AccLanes(sh) && |inpE| == sh.batch * sh.blockIn && |wgtE| == sh.blockOut * sh.blockIn
  }

  /** `sum_{k < n} inp[i][k] * wgt[j][k]` */
  function Dot(sh: Shape, inpE: Lanes, wgtE: Lanes, i: nat, j: nat, n: nat): int
    requires |inpE| == sh.batch * sh.blockIn && |wgtE| == sh.blockOut * sh.blockIn
    requires i < sh.batch && j < sh.blockOut && n <= sh.blockIn
  {
    if n == 0 then 0
    else
      InLaneBounds(sh, i, j, n - 1);
      Dot(sh, inpE, wgtE, i, j, n - 1) + inpE[InpLane(sh, i, n - 1)] * wgtE[WgtLane(sh, j, n - 1)]
  }

  /** Lane `(i, j)` after one GEMM micro-op: the accumulator plus row `i` of the input dotted with row `j` of the weights, as an `int32_t`. */
  function GemmLane(sh: Shape, accE: Lanes, inpE: Lanes, wgtE: Lanes, i: nat, j: nat): int
    requires GemmShapes(sh, accE, inpE, wgtE) && i < sh.batch && j < sh.blockOut
  {
    AccLaneBound(sh, i, j);
    ToI32(accE[AccLane(sh, i, j)] + Dot(sh, inpE, wgtE, i, j, sh.blockIn))
  }

  /** The accumulator element after one GEMM micro-op, lane by lane. */
  function GemmElem(sh: Shape, accE: Lanes, inpE: Lanes, wgtE: Lanes): (r: Lanes)
    requires GemmShapes(sh, accE, inpE, wgtE)
    ensures |r| == |accE|
  {
    seq(|accE|, l requires 0 <= l < |accE| =>
      LaneOf(sh, l);
      GemmLane(sh, accE, inpE, wgtE, l / sh.blockOut, l % sh.blockOut))
  }

  /** Lane `(i, j)` of `GemmElem` is `GemmLane(i, j)`. */
  lemma GemmElemAt(sh: Shape, accE: Lanes, inpE: Lanes, wgtE: Lanes, i: nat, j: nat)
    requires GemmShapes(sh, accE, inpE, wgtE) && i < sh.batch && j < sh.blockOut
    ensures AccLane(sh, i, j) < |accE|
    ensures GemmElem(sh, accE, inpE, wgtE)[AccLane(sh, i, j)] == GemmLane(sh, accE, inpE, wgtE, i, j)
  {
    AccLaneBound(sh, i, j);
    LaneSplit(sh, i, j);
  }

  /** The `k` loop of lane `(i, j)`: the `int32_t` running sum, from `start` on. */
  method LaneSum(sh: Shape, inpE: Lanes, wgtE: Lanes, i: nat, j: nat, start: int) returns (sum: int)
    requires |inpE| == sh.batch * sh.blockIn && |wgtE| == sh.blockOut * sh.blockIn
    requires i < sh.batch && j < sh.blockOut
    ensures ToI32(sum) == ToI32(start + Dot(sh, inpE, wgtE, i, j, sh.blockIn))
  {
    sum := start;
    var k := 0;
    while k < sh.blockIn
      invariant k <= sh.blockIn
      invariant (sum - (start + Dot(sh, inpE, wgtE, i, j, k))) % U32 == 0
    {
      InLaneBounds(sh, i, j, k);
      ghost var before := start + Dot(sh, inpE, wgtE, i, j, k);
      var p := inpE[InpLane(sh, i, k)] * wgtE[WgtLane(sh, j, k)];
      assert start + Dot(sh, inpE, wgtE, i, j, k + 1) == before + p;
      WrapStep(sum, before, p);
      sum := ToI32(sum + p);
      k := k + 1;
    }
    ToI32Congruent(sum, start + Dot(sh, inpE, wgtE, i, j, sh.blockIn));
  }

  /** The `i`/`j`/`k` loops of one GEMM micro-op; `off` is the flat position of lane `(i, j)`. */
  method GemmBlock(sh: Shape, accE: Lanes, inpE: Lanes, wgtE: Lanes) returns (r: Lanes)
    requires GemmShapes(sh, accE, inpE, wgtE)
    ensures r == GemmElem(sh, accE, inpE, wgtE)
  {
    ghost var g := GemmElem(sh, accE, inpE, wgtE);
    r := accE;
    var i, off := 0, 0;
    while i < sh.batch
      invariant i <= sh.batch && |r| == |accE| && off == AccLane(sh, i, 0)
      invariant forall l :: 0 <= l < |r| ==> r[l] == if l < off then g[l] else accE[l]
    {
      var j := 0;
      while j < sh.blockOut
        invariant j <= sh.blockOut && |r| == |accE| && off == AccLane(sh, i, j)
        invariant forall l :: 0 <= l < |r| ==> r[l] == if l < off then g[l] else accE[l]
      {
        GemmElemAt(sh, accE, inpE, wgtE, i, j);
        var sum := LaneSum(sh, inpE, wgtE, i, j, r[off]);
        r := r[off := ToI32(sum)];
        j, off := j + 1, off + 1;
      }
      NextRow(sh, i);
      i := i + 1;
    }
  }

  // ------------------------------------------------------------------ ALU

  /** The lambda `RunALU_` hands to `RunALULoop` for each opcode, on `int32_t` operands. */
  function AluFn(op: AluOp, x: int, y: int): int {
    match op
    case AluAdd => ToI32(x + y)
    case AluMax => Max(x, y)
    case AluMin => Min(x, y)
    case AluShr => if y >= 0 then x / Pow2(y) else ToI32(x * Pow2(-y))
    case AluMul => ToI32(x * y)
    case AluOther(_) => x
  }

  /** What each ALU opcode computes. */
  lemma AluFnMeaning(op: AluOp, x: int, y: int)
    ensures op == AluAdd ==> (AluFn(op, x, y) - (x + y)) % U32 == 0
    ensures op == AluMul ==> (AluFn(op, x, y) - x * y) % U32 == 0
    ensures op == AluMax ==> AluFn(op, x, y) >= x && AluFn(op, x, y) >= y && AluFn(op, x, y) in {x, y}
    ensures op == AluMin ==> AluFn(op, x, y) <= x && AluFn(op, x, y) <= y && AluFn(op, x, y) in {x, y}
    ensures op == AluShr && y >= 0 ==>
      AluFn(op, x, y) * Pow2(y) <= x < AluFn(op, x, y) * Pow2(y) + Pow2(y)
    ensures op == AluShr && y < 0 ==> (AluFn(op, x, y) - x * Pow2(-y)) % U32 == 0
  {
    if op == AluAdd {
      MultipleSum(0, 0);
      assert (x + y - AluFn(op, x, y)) % U32 == 0;
      Negate(x + y - AluFn(op, x, y));
    } else if op == AluMul {
      Negate(x * y - AluFn(op, x, y));
    } else if op == AluShr {
      if y >= 0 {
        DivNat2(x, Pow2(y));
      } else {
        Negate(x * Pow2(-y) - AluFn(op, x, y));
      }
    }
  }

  lemma Negate(a: int)
    requires a % U32 == 0
    ensures (-a) % U32 == 0
  {
    DivModUnique(-a, -(a / U32), U32, 0);
  }

  lemma DivNat2(x: int, p: nat)
    requires p > 0
    ensures (x / p) * p <= x < (x / p) * p + p
  {
  }

  /** An arithmetic right shift moves a value toward minus infinity but never past it. */
  lemma ShrBetween(x: int, p: nat)
    requires p >= 1
    ensures x >= 0 ==> 0 <= x / p <= x
    ensures x < 0 ==> x <= x / p < 0
  {
    var q := x / p;
    DivNat2(x, p);
    if x >= 0 {
      MulGeOne(q, p);
    } else {
      if q >= 0 {
        MulGeOne(q, p);
        assert false;
      }
      if q < x {
        MulGeOne(-(q + 1), p);
        MulDistrib(q, 1, p);
        assert false;
      }
    }
  }

  /** Operands of `int32_t` give a result of `int32_t`. */
  lemma AluFnInt32(op: AluOp, x: int, y: int)
    requires -0x8000_0000 <= x < 0x8000_0000 && -0x8000_0000 <= y < 0x8000_0000
    ensures -0x8000_0000 <= AluFn(op, x, y) < 0x8000_0000
  {
    if op == AluShr && y >= 0 {
      ShrBetween(x, Pow2(y));
    }
  }

  lemma MulGeOne(a: int, p: nat)
    requires a >= 0 && p >= 1
    ensures a * p >= a
  {
  }

  /** The second operand of lane `k`: the immediate, or lane `k` of the source element. */
  function AluOperand(useImm: bool, imm: int, srcE: Lanes, k: nat): int
    requires useImm || k < |srcE|
  {
    if useImm then imm else srcE[k]
  }

  /** The destination element after one ALU micro-op: lane `k` becomes `func(dst[k], imm or src[k])`. */
  function AluElem(sh: Shape, op: AluOp, useImm: bool, imm: int, dstE: Lanes, srcE: Lanes): (r: Lanes)
    requires |dstE| == AccLanes(sh) && |srcE| == AccLanes(sh)
    ensures |r| == |dstE|
    ensures forall k :: 0 <= k < |r| ==> r[k] == ToI32(AluFn(op, dstE[k], AluOperand(useImm, imm, srcE, k)))
  {
    seq(|dstE|, k requires 0 <= k < |dstE| => ToI32(AluFn(op, dstE[k], AluOperand(useImm, imm, srcE, k))))
  }

  /** The lane loop of one ALU micro-op; `srcE` is read before any lane is written, as each lane reads only itself. */
  method AluBlock(sh: Shape, op: AluOp, useImm: bool, imm: int, dstE: Lanes, srcE: Lanes) returns (r: Lanes)
    requires |dstE| == AccLanes(sh) && |srcE| == AccLanes(sh)
    ensures r == AluElem(sh, op, useImm, imm, dstE, srcE)
  {
    r := dstE;
    var k := 0;
    while k < AccLanes(sh)
      invariant k <= AccLanes(sh) && |r| == |dstE|
      invariant forall l :: 0 <= l < |r| ==>
        r[l] == if l < k then ToI32(AluFn(op, dstE[l], AluOperand(useImm, imm, srcE, l))) else dstE[l]
    {
      var y := if useImm then imm else srcE[k];
      r := r[k := ToI32(AluFn(op, r[k], y))];
      k := k + 1;
    }
  }

  // ------------------------------------------------------ micro-op nests

  /** One iteration of the `y`/`x`/micro-op loops. */
  datatype Step = Step(y: nat, x: nat, u: nat)

  /** The loop bounds and index factors of one GEMM or ALU instruction. */
  datatype Nest = Nest(
    uopBgn: nat, uopEnd: nat, iterOut: nat, iterIn: nat,
    dstOut: nat, dstIn: nat, srcOut: nat, srcIn: nat, wgtOut: nat, wgtIn: nat)

  function GemmNest(op: GemInsn): Nest {
    Nest(op.uopBgn, op.uopEnd, op.iterOut, op.iterIn,
         op.dstFactorOut, op.dstFactorIn, op.srcFactorOut, op.srcFactorIn, op.wgtFactorOut, op.wgtFactorIn)
  }

  /** An ALU instruction has no weight operand. */
  function AluNest(op: AluInsn): Nest {
    Nest(op.uopBgn, op.uopEnd, op.iterOut, op.iterIn,
         op.dstFactorOut, op.dstFactorIn, op.srcFactorOut, op.srcFactorIn, 0, 0)
  }

  /** Micro-ops `[uop_bgn, e)` of iteration `(y, x)`. */
  function UopSteps(n: Nest, y: nat, x: nat, e: nat): seq<Step>
    decreases e
  {
    if e <= n.uopBgn then [] else UopSteps(n, y, x, e - 1) + [Step(y, x, e - 1)]
  }

  /** Inner iterations `x < c` of outer iteration `y`. */
  function ColSteps(n: Nest, y: nat, c: nat): seq<Step> {
    if c == 0 then [] else ColSteps(n, y, c - 1) + UopSteps(n, y, c - 1, n.uopEnd)
  }

  /** Outer iterations `y < r`. */
  function RowSteps(n: Nest, r: nat): seq<Step> {
    if r == 0 then [] else RowSteps(n, r - 1) + ColSteps(n, r - 1, n.iterIn)
  }

  /** Every micro-op of every iteration, in loop order. */
  function Steps(n: Nest): seq<Step> {
    RowSteps(n, n.iterOut)
  }

  /** The micro-ops one iteration runs, `uop_end - uop_bgn` or none. */
  function UopCount(n: Nest): nat {
    if n.uopEnd <= n.uopBgn then 0 else n.uopEnd - n.uopBgn
  }

  lemma {:induction false} UopStepsMembers(n: Nest, y: nat, x: nat, e: nat, s: Step)
    ensures s in UopSteps(n, y, x, e) <==> s.y == y && s.x == x && n.uopBgn <= s.u < e
    decreases e
  {
    if e > n.uopBgn {
      UopStepsMembers(n, y, x, e - 1, s);
    }
  }

  lemma {:induction false} UopStepsCount(n: Nest, y: nat, x: nat, e: nat)
    ensures |UopSteps(n, y, x, e)| == if e <= n.uopBgn then 0 else e - n.uopBgn
    decreases e
  {
    if e > n.uopBgn {
      UopStepsCount(n, y, x, e - 1);
    }
  }

  lemma {:induction false} ColStepsMembers(n: Nest, y: nat, c: nat, s: Step)
    ensures s in ColSteps(n, y, c) <==> s.y == y && s.x < c && n.uopBgn <= s.u < n.uopEnd
  {
    if c > 0 {
      ColStepsMembers(n, y, c - 1, s);
      UopStepsMembers(n, y, c - 1, n.uopEnd, s);
    }
  }

  lemma {:induction false} ColStepsCount(n: Nest, y: nat, c: nat)
    ensures |ColSteps(n, y, c)| == c * UopCount(n)
  {
    if c > 0 {
      ColStepsCount(n, y, c - 1);
      UopStepsCount(n, y, c - 1, n.uopEnd);
      MulDistrib(c - 1, 1, UopCount(n));
    }
  }

  lemma {:induction false} RowStepsMembers(n: Nest, r: nat, s: Step)
    ensures s in RowSteps(n, r) <==> s.y < r && s.x < n.iterIn && n.uopBgn <= s.u < n.uopEnd
  {
    if r > 0 {
      RowStepsMembers(n, r - 1, s);
      ColStepsMembers(n, r - 1, n.iterIn, s);
    }
  }

  lemma {:induction false} RowStepsCount(n: Nest, r: nat)
    ensures |RowSteps(n, r)| == r * (n.iterIn * UopCount(n))
  {
    if r > 0 {
      RowStepsCount(n, r - 1);
      ColStepsCount(n, r - 1, n.iterIn);
      MulDistrib(r - 1, 1, n.iterIn * UopCount(n));
    }
  }

  /**
   * The loops visit micro-op `u` of iteration `(y, x)` exactly when
   * `y < iter_out`, `x < iter_in` and `uop_bgn <= u < uop_end`, and they
   * make `iter_out * iter_in * (uop_end - uop_bgn)` steps, the amount the
   * GEMM and ALU counters grow by, whenever `uop_bgn <= uop_end`.
   */
  lemma StepsCover(n: Nest, s: Step)
    ensures s in Steps(n) <==> s.y < n.iterOut && s.x < n.iterIn && n.uopBgn <= s.u < n.uopEnd
    ensures n.uopBgn <= n.uopEnd ==> |Steps(n)| == n.iterOut * n.iterIn * (n.uopEnd - n.uopBgn)
  {
    RowStepsMembers(n, n.iterOut, s);
    RowStepsCount(n, n.iterOut);
    MulAssoc(n.iterOut, n.iterIn, UopCount(n));
  }

  // ------------------------------------------------------------ execution

  /** What one micro-op does to its destination accumulator element. */
  datatype Exec =
    | ResetExec
    | GemmExec(inp: seq<Lanes>, wgt: seq<Lanes>)
    | AluExec(fn: AluOp, useImm: bool, imm: int)

  function DstOf(n: Nest, uops: seq<Uop>, s: Step): nat
    requires s.u < |uops|
  {
    uops[s.u].dstIdx + s.y * n.dstOut + s.x * n.dstIn
  }

  function SrcOf(n: Nest, uops: seq<Uop>, s: Step): nat
    requires s.u < |uops|
  {
    uops[s.u].srcIdx + s.y * n.srcOut + s.x * n.srcIn
  }

  function WgtOf(n: Nest, uops: seq<Uop>, s: Step): nat
    requires s.u < |uops|
  {
    uops[s.u].wgtIdx + s.y * n.wgtOut + s.x * n.wgtIn
  }

  /** Every accumulator element has `VTA_BATCH * VTA_BLOCK_OUT` lanes. */
  predicate AccShaped(sh: Shape, acc: seq<Lanes>) {
    forall e :: 0 <= e < |acc| ==> |acc[e]| == AccLanes(sh)
  }

  /** The `BeginPtr` checks of one step: the micro-op and every element it names exist, with their sizes. */
  predicate StepOk(sh: Shape, ex: Exec, n: Nest, uops: seq<Uop>, accLen: nat, s: Step) {
    s.u < |uops| && DstOf(n, uops, s) < accLen &&
    match ex
    case ResetExec => true
    case GemmExec(inp, wgt) =>
      SrcOf(n, uops, s) < |inp| && WgtOf(n, uops, s) < |wgt| &&
      |inp[SrcOf(n, uops, s)]| == sh.batch * sh.blockIn && |wgt[WgtOf(n, uops, s)]| == sh.blockOut * sh.blockIn
    case AluExec(_, _, _) => SrcOf(n, uops, s) < accLen
  }

  /** Every step of the instruction passes its checks. */
  predicate NestOk(sh: Shape, ex: Exec, n: Nest, uops: seq<Uop>, accLen: nat) {
    forall y, x :: 0 <= y < n.iterOut && 0 <= x < n.iterIn ==> IterOk(sh, ex, n, uops, accLen, y, x)
  }

  /** Every micro-op of iteration `(y, x)` passes its checks. */
  predicate IterOk(sh: Shape, ex: Exec, n: Nest, uops: seq<Uop>, accLen: nat, y: nat, x: nat) {
    forall u :: n.uopBgn <= u < n.uopEnd ==> StepOk(sh, ex, n, uops, accLen, Step(y, x, u))
  }

  function Zeros(k: nat): (r: Lanes)
    ensures |r| == k && forall l :: 0 <= l < k ==> r[l] == 0
  {
    seq(k, _ => 0)
  }

  /**
   * The accumulator after one step. A step that fails its checks stops the
   * simulator; the instructions' preconditions rule that out, and here such
   * a step leaves the accumulator alone.
   */
  function ApplyStep(sh: Shape, ex: Exec, n: Nest, uops: seq<Uop>, acc: seq<Lanes>, s: Step): (r: seq<Lanes>)
    requires AccShaped(sh, acc)
    ensures |r| == |acc| && AccShaped(sh, r)
  {
    if !StepOk(sh, ex, n, uops, |acc|, s) then acc
    else
    var d := DstOf(n, uops, s);
    match ex
    case ResetExec => acc[d := Zeros(AccLanes(sh))]
    case GemmExec(inp, wgt) => acc[d := GemmElem(sh, acc[d], inp[SrcOf(n, uops, s)], wgt[WgtOf(n, uops, s)])]
    case AluExec(fn, useImm, imm) => acc[d := AluElem(sh, fn, useImm, imm, acc[d], acc[SrcOf(n, uops, s)])]
  }

  /** The accumulator after `steps`, in order. */
  function Apply(sh: Shape, ex: Exec, n: Nest, uops: seq<Uop>, acc: seq<Lanes>, steps: seq<Step>): (r: seq<Lanes>)
    requires AccShaped(sh, acc)
    ensures |r| == |acc| && AccShaped(sh, r)
    decreases |steps|
  {
    if steps == [] then acc
    else ApplyStep(sh, ex, n, uops, Apply(sh, ex, n, uops, acc, steps[..|steps| - 1]), steps[|steps| - 1])
  }

  /** One more step at the end. */
  lemma ApplySnoc(sh: Shape, ex: Exec, n: Nest, uops: seq<Uop>, acc: seq<Lanes>, steps: seq<Step>, s: Step)
    requires AccShaped(sh, acc)
    ensures Apply(sh, ex, n, uops, acc, steps + [s]) == ApplyStep(sh, ex, n, uops, Apply(sh, ex, n, uops, acc, steps), s)
  {
    assert (steps + [s])[..|steps|] == steps;
  }

  /** Running `steps` then `more` is running `steps + more`. */
  lemma {:induction false} ApplyAppend(sh: Shape, ex: Exec, n: Nest, uops: seq<Uop>, acc: seq<Lanes>,
                                       steps: seq<Step>, more: seq<Step>)
    requires AccShaped(sh, acc)
    ensures Apply(sh, ex, n, uops, acc, steps + more) ==
            Apply(sh, ex, n, uops, Apply(sh, ex, n, uops, acc, steps), more)
    decreases |more|
  {
    if more == [] {
      assert steps + more == steps;
    } else {
      var last := more[|more| - 1];
      var init := more[..|more| - 1];
      assert (steps + more)[..|steps + more| - 1] == steps + init;
      ApplyAppend(sh, ex, n, uops, acc, steps, init);
    }
  }

  /** Every step of `Steps(n)` passes its checks when the instruction does. */
  lemma StepsOk(sh: Shape, ex: Exec, n: Nest, uops: seq<Uop>, accLen: nat)
    requires NestOk(sh, ex, n, uops, accLen)
    ensures forall s :: s in Steps(n) ==> StepOk(sh, ex, n, uops, accLen, s)
  {
    forall s | s in Steps(n)
      ensures StepOk(sh, ex, n, uops, accLen, s)
    {
      StepsCover(n, s);
      assert IterOk(sh, ex, n, uops, accLen, s.y, s.x);
      assert s == Step(s.y, s.x, s.u);
    }
  }

  /** The reset loop of `RunGEMM`: `SetSigned(i, 0)` for every lane. */
  method ResetBlock(sh: Shape, accE: Lanes) returns (r: Lanes)
    requires |accE| == AccLanes(sh)
    ensures r == Zeros(AccLanes(sh))
  {
    r := accE;
    var i := 0;
    while i < AccLanes(sh)
      invariant i <= AccLanes(sh) && |r| == |accE|
      invariant forall l :: 0 <= l < i ==> r[l] == 0
    {
      r := r[i := 0];
      i := i + 1;
    }
  }

  /** One micro-op step: the destination element is replaced by what the block loops compute. */
  method RunStep(sh: Shape, ex: Exec, n: Nest, uops: seq<Uop>, acc: array<Lanes>, s: Step)
    requires AccShaped(sh, acc[..]) && StepOk(sh, ex, n, uops, acc.Length, s)
    modifies acc
    ensures acc[..] == ApplyStep(sh, ex, n, uops, old(acc[..]), s)
  {
    var d := DstOf(n, uops, s);
    var r;
    match ex {
      case ResetExec =>
        r := ResetBlock(sh, acc[d]);
      case GemmExec(inp, wgt) =>
        r := GemmBlock(sh, acc[d], inp[SrcOf(n, uops, s)], wgt[WgtOf(n, uops, s)]);
      case AluExec(fn, useImm, imm) =>
        r := AluBlock(sh, fn, useImm, imm, acc[d], acc[SrcOf(n, uops, s)]);
    }
    acc[d] := r;
  }

  /** One step more of a run that began on `a0` and has made the steps `done`. */
  method RunNext(sh: Shape, ex: Exec, n: Nest, uops: seq<Uop>, acc: array<Lanes>,
                 ghost a0: seq<Lanes>, ghost done: seq<Step>, s: Step)
    requires AccShaped(sh, a0) && |a0| == acc.Length && StepOk(sh, ex, n, uops, |a0|, s)
    requires acc[..] == Apply(sh, ex, n, uops, a0, done)
    modifies acc
    ensures acc[..] == Apply(sh, ex, n, uops, a0, done + [s])
  {
    ApplySnoc(sh, ex, n, uops, a0, done, s);
    RunStep(sh, ex, n, uops, acc, s);
  }

  /** The micro-op loop of iteration `(y, x)`, continuing from the steps `done` run on `a0`. */
  method RunUops(sh: Shape, ex: Exec, n: Nest, uops: seq<Uop>, acc: array<Lanes>, y: nat, x: nat,
                 ghost a0: seq<Lanes>, ghost done: seq<Step>)
    requires AccShaped(sh, a0) && |a0| == acc.Length && IterOk(sh, ex, n, uops, |a0|, y, x)
    requires acc[..] == Apply(sh, ex, n, uops, a0, done)
    modifies acc
    ensures acc[..] == Apply(sh, ex, n, uops, a0, done + UopSteps(n, y, x, n.uopEnd))
  {
    var u := n.uopBgn;
    assert done + UopSteps(n, y, x, u) == done;
    while u < n.uopEnd
      invariant n.uopBgn <= u && (u <= n.uopEnd || u == n.uopBgn)
      invariant acc[..] == Apply(sh, ex, n, uops, a0, done + UopSteps(n, y, x, u))
    {
      UopStepsSnoc(n, done, y, x, u);
      assert StepOk(sh, ex, n, uops, |a0|, Step(y, x, u));
      RunNext(sh, ex, n, uops, acc, a0, done + UopSteps(n, y, x, u), Step(y, x, u));
      u := u + 1;
    }
    assert UopSteps(n, y, x, u) == UopSteps(n, y, x, n.uopEnd);
  }

  lemma ColStepsSnoc(n: Nest, done: seq<Step>, y: nat, x: nat)
    ensures done + ColSteps(n, y, x + 1) == (done + ColSteps(n, y, x)) + UopSteps(n, y, x, n.uopEnd)
  {
  }

  lemma UopStepsSnoc(n: Nest, done: seq<Step>, y: nat, x: nat, u: nat)
    requires n.uopBgn <= u
    ensures done + UopSteps(n, y, x, u + 1) == (done + UopSteps(n, y, x, u)) + [Step(y, x, u)]
  {
  }

  /** The `x` loop of outer iteration `y`, continuing from the steps `done` run on `a0`. */
  method RunCols(sh: Shape, ex: Exec, n: Nest, uops: seq<Uop>, acc: array<Lanes>, y: nat,
                 ghost a0: seq<Lanes>, ghost done: seq<Step>)
    requires AccShaped(sh, a0) && |a0| == acc.Length && NestOk(sh, ex, n, uops, |a0|)
    requires y < n.iterOut
    requires acc[..] == Apply(sh, ex, n, uops, a0, done)
    modifies acc
    ensures acc[..] == Apply(sh, ex, n, uops, a0, done + ColSteps(n, y, n.iterIn))
  {
    var x := 0;
    assert done + ColSteps(n, y, 0) == done;
    while x < n.iterIn
      invariant x <= n.iterIn
      invariant acc[..] == Apply(sh, ex, n, uops, a0, done + ColSteps(n, y, x))
    {
      RunUops(sh, ex, n, uops, acc, y, x, a0, done + ColSteps(n, y, x));
      ColStepsSnoc(n, done, y, x);
      x := x + 1;
    }
  }

  /** The `y`/`x`/micro-op loops of `RunGEMM` and `RunALULoop`. */
  method RunNest(sh: Shape, ex: Exec, n: Nest, uops: seq<Uop>, acc: array<Lanes>)
    requires AccShaped(sh, acc[..]) && NestOk(sh, ex, n, uops, acc.Length)
    modifies acc
    ensures acc[..] == Apply(sh, ex, n, uops, old(acc[..]), Steps(n))
  {
    ghost var a0 := acc[..];
    var y := 0;
    while y < n.iterOut
      invariant y <= n.iterOut
      invariant acc[..] == Apply(sh, ex, n, uops, a0, RowSteps(n, y))
    {
      RunCols(sh, ex, n, uops, acc, y, a0, RowSteps(n, y));
      y := y + 1;
    }
  }

  // ---------------------------------------------------------- instructions

  /** A GEMM instruction either resets its destinations or accumulates into them. */
  function GemmExecOf(op: GemInsn, inp: seq<Lanes>, wgt: seq<Lanes>): Exec {
    if op.resetReg then ResetExec else GemmExec(inp, wgt)
  }

  /**
   * `RunGEMM(op)`, returning the new `gemm_counter`: the counter grows by
   * `iter_out * iter_in * (uop_end - uop_bgn)` only when accumulating, and
   * every micro-op of every iteration updates its destination element.
   */
  method RunGemm(sh: Shape, op: GemInsn, uops: seq<Uop>, inp: seq<Lanes>, wgt: seq<Lanes>,
                 acc: array<Lanes>, gemmCounter: nat) returns (newCounter: nat)
    requires AccShaped(sh, acc[..]) && NestOk(sh, GemmExecOf(op, inp, wgt), GemmNest(op), uops, acc.Length)
    modifies acc
    ensures newCounter == if op.resetReg then gemmCounter
                          else ToU64(gemmCounter + op.iterOut * op.iterIn * (op.uopEnd - op.uopBgn))
    ensures acc[..] == Apply(sh, GemmExecOf(op, inp, wgt), GemmNest(op), uops, old(acc[..]), Steps(GemmNest(op)))
  {
    if !op.resetReg {
      newCounter := ToU64(gemmCounter + op.iterOut * op.iterIn * (op.uopEnd - op.uopBgn));
      RunNest(sh, GemmExec(inp, wgt), GemmNest(op), uops, acc);
    } else {
      newCounter := gemmCounter;
      RunNest(sh, ResetExec, GemmNest(op), uops, acc);
    }
  }

  /** The `RunALU_` dispatch: the ALU opcodes that have a lambda. */
  predicate KnownAluOp(op: AluOp) {
    !op.AluOther?
  }

  /**
   * `RunALU(op)`, returning the new `alu_counter`: an unknown ALU opcode
   * changes nothing; otherwise the counter grows by
   * `iter_out * iter_in * (uop_end - uop_bgn)` and every micro-op applies
   * the opcode's function lane by lane.
   */
  method RunAlu(sh: Shape, op: AluInsn, uops: seq<Uop>, acc: array<Lanes>, aluCounter: nat) returns (newCounter: nat)
    requires AccShaped(sh, acc[..])
    requires KnownAluOp(op.aluOpcode) ==> NestOk(sh, AluExec(op.aluOpcode, op.useImm, op.imm), AluNest(op), uops, acc.Length)
    modifies acc
    ensures newCounter == if KnownAluOp(op.aluOpcode) then ToU64(aluCounter + op.iterOut * op.iterIn * (op.uopEnd - op.uopBgn))
                          else aluCounter
    ensures !KnownAluOp(op.aluOpcode) ==> acc[..] == old(acc[..])
    ensures KnownAluOp(op.aluOpcode) ==>
      acc[..] == Apply(sh, AluExec(op.aluOpcode, op.useImm, op.imm), AluNest(op), uops, old(acc[..]), Steps(AluNest(op)))
  {
    if KnownAluOp(op.aluOpcode) {
      newCounter := ToU64(aluCounter + op.iterOut * op.iterIn * (op.uopEnd - op.uopBgn));
      RunNest(sh, AluExec(op.aluOpcode, op.useImm, op.imm), AluNest(op), uops, acc);
    } else {
      newCounter := aluCounter;
    }
  }

  // ------------------------------------------------------------ properties

  /** No step of `steps` writes element `e`. */
  predicate Untouched(n: Nest, uops: seq<Uop>, steps: seq<Step>, e: nat) {
    forall s :: s in steps && s.u < |uops| ==> DstOf(n, uops, s) != e
  }

  /** Elements no step names as its destination keep their value. */
  lemma {:induction false} ApplyKeeps(sh: Shape, ex: Exec, n: Nest, uops: seq<Uop>, acc: seq<Lanes>, steps: seq<Step>, e: nat)
    requires AccShaped(sh, acc)
    requires forall s :: s in steps ==> StepOk(sh, ex, n, uops, |acc|, s)
    requires e < |acc| && Untouched(n, uops, steps, e)
    ensures Apply(sh, ex, n, uops, acc, steps)[e] == acc[e]
    decreases |steps|
  {
    if steps != [] {
      var prefix := steps[..|steps| - 1];
      assert forall s :: s in prefix ==> s in steps;
      ApplyKeeps(sh, ex, n, uops, acc, prefix, e);
    }
  }

  /** After a reset every element some step names is all zeros. */
  lemma {:induction false} ResetZeroes(sh: Shape, n: Nest, uops: seq<Uop>, acc: seq<Lanes>, steps: seq<Step>, s: Step)
    requires AccShaped(sh, acc)
    requires forall t :: t in steps ==> StepOk(sh, ResetExec, n, uops, |acc|, t)
    requires s in steps
    ensures StepOk(sh, ResetExec, n, uops, |acc|, s)
    ensures Apply(sh, ResetExec, n, uops, acc, steps)[DstOf(n, uops, s)] == Zeros(AccLanes(sh))
    decreases |steps|
  {
    var prefix := steps[..|steps| - 1];
    var last := steps[|steps| - 1];
    assert forall t :: t in prefix ==> t in steps;
    if s != last || DstOf(n, uops, last) != DstOf(n, uops, s) {
      assert s in prefix by {
        assert steps == prefix + [last];
      }
      ResetZeroes(sh, n, uops, acc, prefix, s);
    }
  }

  /** No two steps write the same element. */
  predicate DistinctDst(n: Nest, uops: seq<Uop>, steps: seq<Step>) {
    forall i, j :: 0 <= i < j < |steps| && steps[i].u < |uops| && steps[j].u < |uops| ==>
      DstOf(n, uops, steps[i]) != DstOf(n, uops, steps[j])
  }

  /** The last step's own update, made after no earlier step touched its destination. */
  lemma GemmLastUpdate(sh: Shape, inp: seq<Lanes>, wgt: seq<Lanes>, n: Nest, uops: seq<Uop>,
                       acc: seq<Lanes>, steps: seq<Step>)
    requires AccShaped(sh, acc) && |steps| > 0
    requires forall t :: t in steps ==> StepOk(sh, GemmExec(inp, wgt), n, uops, |acc|, t)
    requires DistinctDst(n, uops, steps)
    ensures steps[|steps| - 1] in steps
    ensures StepOk(sh, GemmExec(inp, wgt), n, uops, |acc|, steps[|steps| - 1])
    ensures var s := steps[|steps| - 1];
      Apply(sh, GemmExec(inp, wgt), n, uops, acc, steps)[DstOf(n, uops, s)] ==
      GemmElem(sh, acc[DstOf(n, uops, s)], inp[SrcOf(n, uops, s)], wgt[WgtOf(n, uops, s)])
  {
    var ex := GemmExec(inp, wgt);
    var prefix, last := steps[..|steps| - 1], steps[|steps| - 1];
    assert forall t :: t in prefix ==> t in steps;
    assert last in steps;
    var d := DstOf(n, uops, last);
    var mid := Apply(sh, ex, n, uops, acc, prefix);
    assert Apply(sh, ex, n, uops, acc, steps) == ApplyStep(sh, ex, n, uops, mid, last);
    forall t | t in prefix && t.u < |uops|
      ensures DstOf(n, uops, t) != d
    {
      var i :| 0 <= i < |prefix| && prefix[i] == t;
      assert steps[i] == t;
    }
    ApplyKeeps(sh, ex, n, uops, acc, prefix, d);
    assert ApplyStep(sh, ex, n, uops, mid, last)[d] ==
           GemmElem(sh, mid[d], inp[SrcOf(n, uops, last)], wgt[WgtOf(n, uops, last)]);
  }

  /**
   * When no two micro-op steps share a destination, each destination ends
   * up holding exactly one GEMM update of its original value: every lane
   * `(i, j)` gains row `i` of its input element dotted with row `j` of its
   * weight element.
   */
  lemma {:induction false} GemmUpdatesOnce(sh: Shape, inp: seq<Lanes>, wgt: seq<Lanes>, n: Nest, uops: seq<Uop>,
                                           acc: seq<Lanes>, steps: seq<Step>, k: nat)
    requires AccShaped(sh, acc)
    requires forall t :: t in steps ==> StepOk(sh, GemmExec(inp, wgt), n, uops, |acc|, t)
    requires DistinctDst(n, uops, steps) && k < |steps|
    ensures steps[k] in steps
    ensures StepOk(sh, GemmExec(inp, wgt), n, uops, |acc|, steps[k])
    ensures var s := steps[k];
      Apply(sh, GemmExec(inp, wgt), n, uops, acc, steps)[DstOf(n, uops, s)] ==
      GemmElem(sh, acc[DstOf(n, uops, s)], inp[SrcOf(n, uops, s)], wgt[WgtOf(n, uops, s)])
    decreases |steps|
  {
    assert steps[k] in steps;
    if k == |steps| - 1 {
      GemmLastUpdate(sh, inp, wgt, n, uops, acc, steps);
    } else {
      var ex := GemmExec(inp, wgt);
      var prefix, last := steps[..|steps| - 1], steps[|steps| - 1];
      assert forall t :: t in prefix ==> t in steps;
      assert last in steps && prefix[k] == steps[k];
      var d := DstOf(n, uops, steps[k]);
      var mid := Apply(sh, ex, n, uops, acc, prefix);
      assert Apply(sh, ex, n, uops, acc, steps) == ApplyStep(sh, ex, n, uops, mid, last);
      PrefixKeepsDisjoint(n, uops, steps);
      GemmUpdatesOnce(sh, inp, wgt, n, uops, acc, prefix, k);
      assert DstOf(n, uops, last) != d;
      assert ApplyStep(sh, ex, n, uops, mid, last)[d] == mid[d];
    }
  }


  /** No step reads a source element that an earlier step wrote. */
  predicate SourcesFresh(n: Nest, uops: seq<Uop>, steps: seq<Step>) {
    forall i, j :: 0 <= i < j < |steps| && steps[i].u < |uops| && steps[j].u < |uops| ==>
      DstOf(n, uops, steps[i]) != SrcOf(n, uops, steps[j])
  }

  /** Dropping the last step keeps destinations distinct and sources fresh. */
  lemma PrefixKeepsDisjoint(n: Nest, uops: seq<Uop>, steps: seq<Step>)
    requires |steps| > 0
    ensures DistinctDst(n, uops, steps) ==> DistinctDst(n, uops, steps[..|steps| - 1])
    ensures SourcesFresh(n, uops, steps) ==> SourcesFresh(n, uops, steps[..|steps| - 1])
  {
    var prefix := steps[..|steps| - 1];
    forall i, j | 0 <= i < j < |prefix|
      ensures prefix[i] == steps[i] && prefix[j] == steps[j]
    {
    }
  }

  /** The last step's own update, made after no earlier step touched its destination or its source. */
  lemma AluLastUpdate(sh: Shape, fn: AluOp, useImm: bool, imm: int, n: Nest, uops: seq<Uop>,
                      acc: seq<Lanes>, steps: seq<Step>)
    requires AccShaped(sh, acc) && |steps| > 0
    requires forall t :: t in steps ==> StepOk(sh, AluExec(fn, useImm, imm), n, uops, |acc|, t)
    requires DistinctDst(n, uops, steps) && (!useImm ==> SourcesFresh(n, uops, steps))
    ensures steps[|steps| - 1] in steps
    ensures StepOk(sh, AluExec(fn, useImm, imm), n, uops, |acc|, steps[|steps| - 1])
    ensures var s := steps[|steps| - 1];
      Apply(sh, AluExec(fn, useImm, imm), n, uops, acc, steps)[DstOf(n, uops, s)] ==
      AluElem(sh, fn, useImm, imm, acc[DstOf(n, uops, s)], acc[SrcOf(n, uops, s)])
  {
    var ex := AluExec(fn, useImm, imm);
    var prefix, last := steps[..|steps| - 1], steps[|steps| - 1];
    assert forall t :: t in prefix ==> t in steps;
    assert last in steps;
    var d, src := DstOf(n, uops, last), SrcOf(n, uops, last);
    var mid := Apply(sh, ex, n, uops, acc, prefix);
    assert Apply(sh, ex, n, uops, acc, steps) == ApplyStep(sh, ex, n, uops, mid, last);
    forall t | t in prefix && t.u < |uops|
      ensures DstOf(n, uops, t) != d
      ensures !useImm ==> DstOf(n, uops, t) != src
    {
      var i :| 0 <= i < |prefix| && prefix[i] == t;
      assert steps[i] == t;
    }
    ApplyKeeps(sh, ex, n, uops, acc, prefix, d);
    if !useImm {
      ApplyKeeps(sh, ex, n, uops, acc, prefix, src);
    }
    assert AluElem(sh, fn, useImm, imm, mid[d], mid[src]) == AluElem(sh, fn, useImm, imm, acc[d], acc[src]);
  }

  /**
   * When no two steps share a destination and (without an immediate) no
   * step reads what an earlier one wrote, each destination ends up holding
   * one ALU update of its original value with its original source.
   */
  lemma {:induction false} AluUpdatesOnce(sh: Shape, fn: AluOp, useImm: bool, imm: int, n: Nest, uops: seq<Uop>,
                                          acc: seq<Lanes>, steps: seq<Step>, k: nat)
    requires AccShaped(sh, acc)
    requires forall t :: t in steps ==> StepOk(sh, AluExec(fn, useImm, imm), n, uops, |acc|, t)
    requires DistinctDst(n, uops, steps) && (!useImm ==> SourcesFresh(n, uops, steps)) && k < |steps|
    ensures steps[k] in steps
    ensures StepOk(sh, AluExec(fn, useImm, imm), n, uops, |acc|, steps[k])
    ensures var s := steps[k];
      Apply(sh, AluExec(fn, useImm, imm), n, uops, acc, steps)[DstOf(n, uops, s)] ==
      AluElem(sh, fn, useImm, imm, acc[DstOf(n, uops, s)], acc[SrcOf(n, uops, s)])
    decreases |steps|
  {
    assert steps[k] in steps;
    if k == |steps| - 1 {
      AluLastUpdate(sh, fn, useImm, imm, n, uops, acc, steps);
    } else {
      var ex := AluExec(fn, useImm, imm);
      var prefix, last := steps[..|steps| - 1], steps[|steps| - 1];
      assert forall t :: t in prefix ==> t in steps;
      assert last in steps && prefix[k] == steps[k];
      var d := DstOf(n, uops, steps[k]);
      var mid := Apply(sh, ex, n, uops, acc, prefix);
      assert Apply(sh, ex, n, uops, acc, steps) == ApplyStep(sh, ex, n, uops, mid, last);
      PrefixKeepsDisjoint(n, uops, steps);
      AluUpdatesOnce(sh, fn, useImm, imm, n, uops, acc, prefix, k);
      assert DstOf(n, uops, last) != d;
      assert ApplyStep(sh, ex, n, uops, mid, last)[d] == mid[d];
    }
  }
}

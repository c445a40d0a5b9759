// The VTA instruction set as the simulators read it: one 128-bit generic
// instruction viewed through the memory, GEMM and ALU layouts. The bit
// layout of `hw_spec.h` is not part of this model, so the three views are
// independent records and every field is an unbounded integer.
module VtaIsa {

  datatype Opcode = OpLoad | OpStore | OpGemm | OpFinish | OpAlu | OpOther(code: nat)

  datatype MemId = MemUop | MemWgt | MemInp | MemAcc | MemOut | MemAcc8Bit | MemOther(code: nat)

  datatype AluOp = AluMin | AluMax | AluAdd | AluShr | AluMul | AluOther(code: nat)

  /** `VTAMemInsn`: loads and stores. */
  datatype MemInsn = MemInsn(
    opcode: Opcode,
    popPrev: nat, popNext: nat, pushPrev: nat, pushNext: nat,
    memoryType: MemId,
    sramBase: nat, dramBase: nat,
    ySize: nat, xSize: nat, xStride: nat,
    yPad0: nat, yPad1: nat, xPad0: nat, xPad1: nat)

  /** `VTAGemInsn` */
  datatype GemInsn = GemInsn(
    resetReg: bool,
    uopBgn: nat, uopEnd: nat,
    iterOut: nat, iterIn: nat,
    dstFactorOut: nat, dstFactorIn: nat,
    srcFactorOut: nat, srcFactorIn: nat,
    wgtFactorOut: nat, wgtFactorIn: nat)

  /** `VTAAluInsn` */
  datatype AluInsn = AluInsn(
    aluOpcode: AluOp,
    useImm: bool, imm: int,
    uopBgn: nat, uopEnd: nat,
    iterOut: nat, iterIn: nat,
    dstFactorOut: nat, dstFactorIn: nat,
    srcFactorOut: nat, srcFactorIn: nat)

  /** One generic instruction; the opcode is read through the memory view. */
  datatype Insn = Insn(mem: MemInsn, gemm: GemInsn, alu: AluInsn)

  /** `VTAUop`: the indices a micro-op names. */
  datatype Uop = Uop(dstIdx: nat, srcIdx: nat, wgtIdx: nat)

  /** `sizeof(VTAGenericInsn)`: every instruction is 128 bits. */
  const InsnBytes: nat := 16

  /** The request-queue ids of the driver: one per load target, the store, and the instruction fetch. */
  const LoadAccId: nat := 0
  const LoadInpId: nat := 1
  const LoadWgtId: nat := 2
  const LoadUopId: nat := 3
  const StoreId: nat := 4
  const LoadInsnId: nat := 5
}

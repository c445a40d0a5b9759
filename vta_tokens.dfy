// Tokens of the VTA net and `parse_tokens.hh`: turning one instruction of
// the loaded stream into the token the net's instruction places carry.
module VtaTokens {
  import opened VtaIsa

  /** The `ALL_ENUM` names; their numeric values are not part of this model. */
  datatype Kind = Compute | Load | Store | Inp | Wgt | Gemm | Empty | Alu | Sync | Finish | LoadUop | LoadAcc

  /** `token_class_ostxyuullupppp`: an instruction token. */
  datatype InsnFields = InsnFields(
    opcode: Kind, subopcode: Kind, tstype: Kind,
    xsize: int, ysize: int,
    uopBegin: int, uopEnd: int,
    lp1: int, lp0: int,
    useAluImm: int,
    popPrev: int, popNext: int, pushPrev: int, pushNext: int)

  /** The token classes the VTA places hold. */
  datatype VtaTok =
    | EmptyTok
    | InsnCountTok(insnCount: int)
    | InsnTok(f: InsnFields)
    | TotalInsnTok(totalInsn: int)

  /** The fields `MakeNumInsnToken` starts from: every kind EMPTY, every number 0. */
  const Blank: InsnFields := InsnFields(Empty, Empty, Empty, 0, 0, 0, 0, 0, 0, 0, 0, 0, 0, 0)

  /** `MakeLaunchToken`: a launch asks for one instruction. */
  function MakeLaunchToken(): (r: VtaTok)
    ensures r.TotalInsnTok? && r.totalInsn == 1
  {
    TotalInsnTok(1)
  }

  /** Opcodes whose dependency flags a token carries. */
  predicate CarriesDeps(op: Opcode) {
    op == OpLoad || op == OpStore || op == OpGemm || op == OpAlu
  }

  /** A load of a memory the classification has no case for. */
  predicate UnclassifiedLoad(m: MemInsn) {
    m.opcode == OpLoad && m.xSize != 0 &&
    m.memoryType != MemUop && m.memoryType != MemWgt && m.memoryType != MemInp && m.memoryType != MemAcc
  }

  /** The (opcode, subopcode) pairs a token may carry. */
  predicate ValidPair(op: Kind, sub: Kind) {
    match op
    case Compute => sub in {Sync, LoadUop, LoadAcc, Gemm, Alu}
    case Load => sub in {Sync, Load}
    case Store => sub in {Sync, Store}
    case Empty => sub == Empty
    case _ => false
  }

  function WithDeps(f: InsnFields, m: MemInsn): InsnFields {
    f.(popPrev := m.popPrev, popNext := m.popNext, pushPrev := m.pushPrev, pushNext := m.pushNext)
  }

  /** The classification of a memory instruction whose `x_size` is 0. */
  function NopKinds(m: MemInsn): (Kind, Kind) {
    if m.opcode == OpStore then (Store, Sync)
    else if m.memoryType == MemAcc || m.memoryType == MemAcc8Bit || m.memoryType == MemUop then (Compute, Sync)
    else (Load, Sync)
  }

  /** The classification of a non-empty load by its memory type. */
  function LoadKinds(t: MemId): (Kind, Kind, Kind) {
    if t == MemUop then (Compute, LoadUop, Empty)
    else if t == MemWgt then (Load, Load, Wgt)
    else if t == MemInp then (Load, Load, Inp)
    else if t == MemAcc then (Compute, LoadAcc, Empty)
    else (Empty, Empty, Empty)
  }

  /** `MakeNumInsnToken(buffer, loaded)`: the token for instruction `insns[loaded]`. */
  function MakeNumInsnToken(insns: seq<Insn>, loaded: nat): (r: InsnFields)
    requires loaded < |insns|
    ensures ValidPair(r.opcode, r.subopcode)
    ensures var m := insns[loaded].mem;
      && (r.opcode == Empty <==> (!CarriesDeps(m.opcode) && m.opcode != OpFinish) || UnclassifiedLoad(m))
      && (r.tstype != Empty <==> m.opcode == OpFinish || (m.opcode == OpLoad && m.xSize != 0 && m.memoryType in {MemWgt, MemInp}))
      && (r.opcode == Load && r.subopcode == Sync && r.tstype == Finish <==> m.opcode == OpFinish)
      && (CarriesDeps(m.opcode) ==>
            r.popPrev == m.popPrev && r.popNext == m.popNext &&
            r.pushPrev == m.pushPrev && r.pushNext == m.pushNext)
      && (!CarriesDeps(m.opcode) ==> r.popPrev == 0 && r.popNext == 0 && r.pushPrev == 0 && r.pushNext == 0)
      && (r.xsize != 0 ==> CarriesDeps(m.opcode) && r.xsize == m.xSize && r.ysize == m.ySize)
      && (CarriesDeps(m.opcode) && m.xSize != 0 ==> r.xsize == m.xSize && r.ysize == m.ySize)
      && (m.opcode == OpStore ==> r.opcode == Store)
      && (m.opcode == OpGemm || m.opcode == OpAlu ==> r.opcode == Compute)
  {
    var insn := insns[loaded];
    var m := insn.mem;
    if m.opcode == OpLoad || m.opcode == OpStore then
      if m.xSize == 0 then
        var (op, sub) := NopKinds(m);
        WithDeps(Blank.(opcode := op, subopcode := sub), m)
      else if m.opcode == OpLoad then
        var (op, sub, ts) := LoadKinds(m.memoryType);
        WithDeps(Blank.(opcode := op, subopcode := sub, tstype := ts, xsize := m.xSize, ysize := m.ySize), m)
      else
        WithDeps(Blank.(opcode := Store, subopcode := Store, xsize := m.xSize, ysize := m.ySize), m)
    else if m.opcode == OpGemm then
      var g := insn.gemm;
      WithDeps(Blank.(opcode := Compute, subopcode := Gemm, xsize := m.xSize, ysize := m.ySize,
                      uopBegin := g.uopBgn, uopEnd := g.uopEnd, lp1 := g.iterOut, lp0 := g.iterIn), m)
    else if m.opcode == OpAlu then
      var a := insn.alu;
      WithDeps(Blank.(opcode := Compute, subopcode := Alu, xsize := m.xSize, ysize := m.ySize,
                      uopBegin := a.uopBgn, uopEnd := a.uopEnd, lp1 := a.iterOut, lp0 := a.iterIn,
                      useAluImm := if a.useImm then 1 else 0), m)
    else if m.opcode == OpFinish then
      Blank.(opcode := Load, subopcode := Sync, tstype := Finish)
    else
      Blank
  }

  /** The execution unit an instruction is routed to by its opcode. */
  function Unit(op: Opcode, t: MemId, xSize: nat): Kind {
    match op
    case OpStore => Store
    case OpGemm => Compute
    case OpAlu => Compute
    case OpFinish => Load
    case OpLoad =>
      if xSize == 0 then (if t in {MemAcc, MemAcc8Bit, MemUop} then Compute else Load)
      else (if t in {MemUop, MemAcc} then Compute else if t in {MemWgt, MemInp} then Load else Empty)
    case OpOther(_) => Empty
  }

  /** Every token lands in the queue of the unit that executes its instruction. */
  lemma TokenRoutedToUnit(insns: seq<Insn>, loaded: nat)
    requires loaded < |insns|
    ensures var m := insns[loaded].mem;
      MakeNumInsnToken(insns, loaded).opcode == Unit(m.opcode, m.memoryType, m.xSize)
  {
  }

  /** Compute tokens name a compute step, and the micro-op range comes from the GEMM or ALU view. */
  lemma ComputeTokenShape(insns: seq<Insn>, loaded: nat)
    requires loaded < |insns|
    ensures var r := MakeNumInsnToken(insns, loaded);
      var insn := insns[loaded];
      && (r.subopcode == Gemm ==> r.uopBegin == insn.gemm.uopBgn && r.uopEnd == insn.gemm.uopEnd &&
                                  r.lp1 == insn.gemm.iterOut && r.lp0 == insn.gemm.iterIn && r.useAluImm == 0)
      && (r.subopcode == Alu ==> r.uopBegin == insn.alu.uopBgn && r.uopEnd == insn.alu.uopEnd &&
                                 r.lp1 == insn.alu.iterOut && r.lp0 == insn.alu.iterIn &&
                                 (r.useAluImm == 1 <==> insn.alu.useImm))
      && (r.subopcode !in {Gemm, Alu} ==> r.uopBegin == 0 && r.uopEnd == 0 && r.lp1 == 0 && r.lp0 == 0 && r.useAluImm == 0)
  {
  }
}

// `Profiler` and `Device` of the VTA functional simulator: the profiler's
// counters, and the instruction fetch of `Device::Run`, which asks for the
// instruction stream through the `LOAD_INSN` request queue and, once the
// request has been filled, runs every fetched instruction through `Run_Insn`.
// The byte layout of an instruction is not part of this model: `decode`
// names the opcode a 16-byte instruction carries.
module VtaDevice {
  import opened Arith
  import opened VtaIsa
  import opened MemReqs

  /** The profiler's statistics. */
  class Profiler {
    var inpLoadNbytes: nat
    var wgtLoadNbytes: nat
    var accLoadNbytes: nat
    var uopLoadNbytes: nat
    var outStoreNbytes: nat
    var gemmCounter: nat
    var aluCounter: nat
    var debugFlag: int

    predicate Cleared()
      reads this
    {
      inpLoadNbytes == 0 && wgtLoadNbytes == 0 && accLoadNbytes == 0 && uopLoadNbytes == 0 &&
      outStoreNbytes == 0 && gemmCounter == 0 && aluCounter == 0
    }

    /** Every member starts at 0. */
    constructor()
      ensures Cleared() && debugFlag == 0
    {
      inpLoadNbytes, wgtLoadNbytes, accLoadNbytes, uopLoadNbytes := 0, 0, 0, 0;
      outStoreNbytes, gemmCounter, aluCounter, debugFlag := 0, 0, 0, 0;
    }

    /** `Clear()`: the seven counters return to 0; the debug flag is kept. */
    method Clear()
      modifies this
      ensures Cleared() && debugFlag == old(debugFlag)
    {
      inpLoadNbytes, wgtLoadNbytes, accLoadNbytes, uopLoadNbytes := 0, 0, 0, 0;
      outStoreNbytes, gemmCounter, aluCounter := 0, 0, 0;
    }

    /** `SkipExec()`: returns before it looks at `debug_flag`, so execution is never skipped. */
    function SkipExec(): (r: bool)
      reads this
      ensures !r
    {
      false
    }
  }

  /** The 16 bytes of instruction `i` of the fetched stream. */
  function InsnBytesAt(buf: seq<Byte>, i: nat): seq<Byte>
    requires (i + 1) * InsnBytes <= |buf|
  {
    buf[i * InsnBytes..(i + 1) * InsnBytes]
  }

  /** How many of the first `n` fetched instructions are FINISH. */
  function CountFinish(buf: seq<Byte>, decode: seq<Byte> -> Opcode, n: nat): (r: nat)
    requires n * InsnBytes <= |buf|
    ensures r <= n
  {
    if n == 0 then 0
    else CountFinish(buf, decode, n - 1) + (if decode(InsnBytesAt(buf, n - 1)) == OpFinish then 1 else 0)
  }

  /** All of the first `n` instructions are FINISH exactly when all are counted, none exactly when none is. */
  lemma {:induction false} CountFinishAll(buf: seq<Byte>, decode: seq<Byte> -> Opcode, n: nat)
    requires n * InsnBytes <= |buf|
    ensures CountFinish(buf, decode, n) == n <==> forall i :: 0 <= i < n ==> decode(InsnBytesAt(buf, i)) == OpFinish
    ensures CountFinish(buf, decode, n) == 0 <==> forall i :: 0 <= i < n ==> decode(InsnBytesAt(buf, i)) != OpFinish
  {
    if n > 0 {
      CountFinishAll(buf, decode, n - 1);
    }
  }

  class Device {
    /** `finish_counter_` */
    var finishCounter: int
    /** `dram_req_map[LOAD_INSN]` */
    var insnReqs: seq<MemReq>
    /** `read_buffer_map[LOAD_INSN]`: the fetched bytes not yet consumed. */
    var insnBuf: seq<Byte>
    /** The opcode field of a 16-byte instruction. */
    const decode: seq<Byte> -> Opcode

    constructor(decode: seq<Byte> -> Opcode)
      ensures this.decode == decode && finishCounter == 0 && insnReqs == [] && insnBuf == []
    {
      this.decode := decode;
      finishCounter := 0;
      insnReqs := [];
      insnBuf := [];
    }

    /** `Run_Insn(insn)`: only FINISH has an effect, one more finish; the other opcodes only log. */
    method RunInsn(insn: seq<Byte>)
      modifies this
      ensures finishCounter == old(finishCounter) + (if decode(insn) == OpFinish then 1 else 0)
      ensures insnReqs == old(insnReqs) && insnBuf == old(insnBuf)
    {
      match decode(insn) {
        case OpLoad =>
        case OpStore =>
        case OpGemm =>
        case OpAlu =>
        case OpFinish => finishCounter := finishCounter + 1;
        case OpOther(_) =>
      }
    }

    /**
     * `Run(insn_phy_addr, insn_count, wait_cycles)`, which always returns 0.
     * With nothing queued it queues a read of `insn_count` instructions at
     * `insn_phy_addr`. Once the queued request is filled it dequeues it, runs
     * the first `insn_count` fetched instructions in order and drops the
     * request's `len` bytes from the buffer. Otherwise nothing changes.
     */
    method Run(insnPhyAddr: nat, insnCount: nat, waitCycles: nat) returns (r: int)
      requires insnReqs != [] && Complete(insnReqs[0]) ==> insnCount * InsnBytes <= |insnBuf| && insnReqs[0].len <= |insnBuf|
      modifies this
      ensures r == 0
      ensures old(insnReqs) == [] ==>
        insnReqs == [NewReq(LoadInsnId, 0, insnPhyAddr, insnCount * InsnBytes, ReadReq)] &&
        finishCounter == old(finishCounter) && insnBuf == old(insnBuf)
      ensures old(insnReqs) != [] && Complete(old(insnReqs)[0]) ==>
        insnReqs == old(insnReqs)[1..] && insnBuf == old(insnBuf)[old(insnReqs)[0].len..] &&
        finishCounter == old(finishCounter) + CountFinish(old(insnBuf), decode, insnCount)
      ensures old(insnReqs) != [] && !Complete(old(insnReqs)[0]) ==>
        insnReqs == old(insnReqs) && insnBuf == old(insnBuf) && finishCounter == old(finishCounter)
    {
      if insnReqs == [] {
        var req := NewReq(LoadInsnId, 0, insnPhyAddr, insnCount * InsnBytes, ReadReq);
        insnReqs := insnReqs + [req];
        return 0;
      }
      var front := insnReqs[0];
      if front.len == front.acquiredLen {
        var (_, rest) := DequeueReq(insnReqs);
        insnReqs := rest;
        var buf := insnBuf;
        var i := 0;
        while i < insnCount
          invariant i <= insnCount && insnBuf == buf && insnReqs == rest
          invariant finishCounter == old(finishCounter) + CountFinish(buf, decode, i)
        {
          RunInsn(InsnBytesAt(buf, i));
          i := i + 1;
        }
        insnBuf := insnBuf[front.len..];
      }
      return 0;
    }
  }
}

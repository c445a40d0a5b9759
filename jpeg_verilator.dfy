// The Verilator-driven JPEG decoder's PCIe side: BAR 0 reaches the chip's
// registers through the MMIO master, BAR 1 is a one-byte register block
// that controls tracing, and the chip's AXI DMA reads and writes become
// host messages.
module JpegVerilator {
  import opened Arith
  import opened MemReqs
  import opened Wrappers
  import RegisterFile
  import opened PcieBm
  import opened VerilatorGlue
  import opened Axi
  import opened AxiMisc
  import Mmio

  /** `sizeof(VerilatorRegs)`: the `tracing_active` byte alone. */
  const RegsSize: nat := 1

  /**
   * The BAR 1 bytes `h2d_read` answers with: the `len` register bytes at
   * `offset`. An access past the registers that passed the bounds check
   * only because `offset + len` wrapped around 2^64 copies from outside
   * them (undefined behaviour); its bytes are 0 here.
   */
  function RegsRead(regs: seq<Byte>, offset: nat, len: nat): (r: seq<Byte>)
    ensures |r| == len
    ensures offset + len <= |regs| ==> RegisterFile.Read(regs, 0, offset, len) == Some(r)
    ensures |regs| < offset + len ==> forall i :: 0 <= i < len ==> r[i] == 0
  {
    if offset + len <= |regs| then regs[offset..offset + len] else seq(len, _ => 0)
  }

  /** The BAR 1 store of `h2d_write`: the payload at `offset`. A wrapped
      access past the registers writes outside them (undefined behaviour)
      and leaves them as they were here. */
  function RegsWrite(regs: seq<Byte>, offset: nat, data: seq<Byte>): (r: seq<Byte>)
    ensures |r| == |regs|
    ensures offset + |data| <= |regs| ==> RegisterFile.Write(regs, 0, offset, data) == Some(r)
    ensures |regs| < offset + |data| ==> r == regs
  {
    if offset + |data| <= |regs| then Overwrite(regs, offset, data) else regs
  }

  /** A two-byte BAR 1 access at offset `2^64 - 1` passes the bounds check
      as written, since the 64-bit sum wraps to 1, although it lies wholly
      past the one register byte. */
  lemma WrappedBarOnePasses()
    ensures RegisterFile.InBoundsAsWritten(RegsSize, 0, U64 - 1, 2)
    ensures !RegisterFile.InBounds(RegsSize, 0, U64 - 1, 2)
  {
    DivModUnique(U64 - 1 + 2, 1, U64, 1);
  }

  /** The 64-bit value of `h2d_write`: the first `min(len, 8)` payload
      bytes, little-endian. */
  function WriteValue(data: seq<Byte>): (v: nat)
    ensures v < Pow2(64)
  {
    Pow2Mono(8 * Min(|data|, 8), 64);
    Mmio.LeNat(data[..Min(|data|, 8)])
  }

  /** The little-endian value of at least four bytes is, modulo 2^32, the
      32-bit field of the first four. */
  lemma LeNatLowWord(b: seq<Byte>)
    requires |b| >= 4
    ensures Mmio.LeNat(b) % U32 == RegisterFile.LeU32(b, 0)
  {
    var rest := Mmio.LeNat(b[4..]);
    assert b[1..][1..][1..][1..] == b[4..];
    var l3 := Mmio.LeNat(b[3..]);
    var l2 := Mmio.LeNat(b[2..]);
    var l1 := Mmio.LeNat(b[1..]);
    assert b[3..][1..] == b[4..] && b[2..][1..] == b[3..] && b[1..][1..] == b[2..];
    assert l3 == b[3] + 256 * rest;
    assert l2 == b[2] + 256 * l3;
    assert l1 == b[1] + 256 * l2;
    assert Mmio.LeNat(b) == b[0] + 256 * l1;
    assert Mmio.LeNat(b) == RegisterFile.LeU32(b, 0) + U32 * rest;
    DivModUnique(Mmio.LeNat(b), rest, U32, RegisterFile.LeU32(b, 0));
  }

  /** A register write of four or more bytes hands the MMIO master the
      payload's first 32-bit little-endian word. */
  lemma WriteValueIsFirstWord(data: seq<Byte>)
    requires |data| >= 4
    ensures ToU32(WriteValue(data)) == RegisterFile.LeU32(data, 0)
  {
    LeNatLowWord(data[..Min(|data|, 8)]);
  }

  /** The read completion of `mmio_done`: the first `len` bytes of the
      32-bit value, little-endian (at most the four the value has). */
  function MmioReadData(op: Mmio.MmioOp): (r: seq<Byte>)
    ensures |r| == Min(op.len, 4)
    ensures op.len >= 4 ==> RegisterFile.LeU32(r, 0) == op.value % U32
  {
    RegisterFile.LeRoundTrip(op.value);
    RegisterFile.LeBytes(op.value)[..Min(op.len, 4)]
  }

  /** `h2d_readcomp`'s copy: the completion's bytes fill the operation's
      buffer from its start, as many as the operation asks for and the
      completion carries; the rest of the buffer stays. */
  function ReadcompFill(op: AxiOp, data: seq<Byte>): (r: AxiOp)
    ensures r.addr == op.addr && r.len == op.len && r.id == op.id && r.off == op.off && r.stepSize == op.stepSize
    ensures |r.buf| == |op.buf|
    ensures op.len <= |data| && op.len <= |op.buf| ==> r.buf[..op.len] == data[..op.len]
  {
    var n := Min(Min(op.len, |data|), |op.buf|);
    op.(buf := Overwrite(op.buf, 0, data[..n]))
  }

  /**
   * The device simulator: the `VerilatorRegs` bytes, tracing state (with
   * the file actions as a log), `exiting`, the messages sent to the host
   * and the number of host messages consumed; and the chip's MMIO master,
   * DMA reader and DMA writer. `maxMsgLen` is the message size of the
   * channel, `readcompHdr` and `writeHdr` the read-completion and write
   * headers.
   */
  class JpegVerilatorSim {
    var regs: seq<Byte>
    var tracingActive: bool
    var traceNr: nat
    ghost var traces: seq<TraceEvent>
    var exiting: bool
    var sent: seq<D2H>
    var consumed: nat
    const mmio: Mmio.MmioInterface
    const reader: MiscAxiReader
    const writer: MiscAxiWriter
    const maxMsgLen: nat
    const readcompHdr: nat
    const writeHdr: nat

    ghost predicate Valid()
      reads this`regs, this`traces, this`tracingActive, this`traceNr
      reads mmio, reader, writer
    {
      |regs| == RegsSize && TraceLog(traces, tracingActive, traceNr) &&
      mmio.Valid() && reader.Valid() && writer.Valid() &&
      readcompHdr <= maxMsgLen && writeHdr <= maxMsgLen
    }

    /** Zeroed registers, tracing off, and the ports of the decoder: a
        32-bit AXI-Lite register port and 32-bit DMA ports with 4-bit ids. */
    constructor (maxMsgLen: nat, readcompHdr: nat, writeHdr: nat)
      requires readcompHdr <= maxMsgLen && writeHdr <= maxMsgLen
      ensures Valid() && regs == [0] && !tracingActive && traceNr == 0 && traces == []
      ensures !exiting && sent == [] && consumed == 0
      ensures mmio.queue == [] && reader.pending == [] && writer.pending == []
      ensures this.maxMsgLen == maxMsgLen && this.readcompHdr == readcompHdr && this.writeHdr == writeHdr
    {
      regs := [0];
      tracingActive, traceNr, traces := false, 0, [];
      exiting, sent, consumed := false, [], 0;
      mmio := new Mmio.MmioInterface(32, 32, 1);
      reader := new MiscAxiReader(32, 4);
      writer := new MiscAxiWriter(32, 4);
      this.maxMsgLen := maxMsgLen;
      this.readcompHdr := readcompHdr;
      this.writeHdr := writeHdr;
    }

    /** `apply_ctrl_changes`: tracing follows `tracing_active`, opening a
        new numbered file only when it turns on and closing it only when
        it turns off; the trace history stays well formed. */
    method ApplyCtrlChanges()
      requires Valid()
      modifies this`tracingActive, this`traceNr, this`traces
      ensures Valid()
      ensures var t := ToggleTrace(old(tracingActive), regs[0] != 0, old(traceNr));
        tracingActive == t.0 && traceNr == t.1 && traces == old(traces) + t.2
    {
      var t := ToggleTrace(tracingActive, regs[0] != 0, traceNr);
      ToggleKeepsLog(traces, tracingActive, traceNr, regs[0] != 0);
      tracingActive, traceNr, traces := t.0, t.1, traces + t.2;
    }

    /**
     * `h2d_read`: BAR 0 queues an MMIO read for the chip (answered later
     * by `mmio_done`); BAR 1 answers at once with the addressed register
     * bytes, or fails when the end (a 64-bit sum that wraps around) lies
     * past them; any other BAR fails.
     */
    method H2DRead(reqId: nat, bar: nat, offset: nat, len: nat) returns (ok: bool)
      requires Valid()
      modifies this`sent, mmio`queue, mmio`enqueued
      ensures Valid()
      ensures ok <==> bar == 0 || (bar == 1 && RegisterFile.InBoundsAsWritten(RegsSize, 0, offset, len))
      ensures bar == 0 ==> mmio.queue == old(mmio.queue) + [Mmio.MmioOp(reqId, offset, 0, len, false)] && sent == old(sent)
      ensures bar != 0 ==> mmio.queue == old(mmio.queue)
      ensures bar == 1 && ok ==> sent == old(sent) + [D2HReadcomp(reqId, RegsRead(regs, offset, len))]
      ensures !ok ==> sent == old(sent)
    {
      if bar == 0 {
        mmio.IssueRead(reqId, offset, len);
        return true;
      } else if bar == 1 {
        if ToU64(offset + len) > RegsSize {
          return false;
        }
        sent := sent + [D2HReadcomp(reqId, RegsRead(regs, offset, len))];
        return true;
      }
      return false;
    }

    /**
     * `h2d_write`: BAR 0 queues an MMIO write of the payload's value;
     * BAR 1 stores the payload into the registers (failing when the
     * wrapping 64-bit end lies past them)
     * and lets tracing follow; any other BAR fails. A successful
     * non-posted write gets one write completion with the request's id.
     */
    method H2DWrite(reqId: nat, bar: nat, offset: nat, data: seq<Byte>, posted: bool) returns (ok: bool)
      requires Valid()
      modifies this`regs, this`sent, this`tracingActive, this`traceNr, this`traces, mmio`queue, mmio`enqueued
      ensures Valid()
      ensures ok <==> bar == 0 || (bar == 1 && RegisterFile.InBoundsAsWritten(RegsSize, 0, offset, |data|))
      ensures bar == 0 ==> mmio.queue == old(mmio.queue) + [Mmio.MmioOp(reqId, offset, ToU32(WriteValue(data)), |data|, true)]
      ensures bar != 0 ==> mmio.queue == old(mmio.queue)
      ensures bar == 1 && ok ==> regs == RegsWrite(old(regs), offset, data)
      ensures bar == 1 && ok ==> var t := ToggleTrace(old(tracingActive), regs[0] != 0, old(traceNr));
        tracingActive == t.0 && traceNr == t.1 && traces == old(traces) + t.2
      ensures bar != 1 || !ok ==> regs == old(regs) && tracingActive == old(tracingActive) && traceNr == old(traceNr)
      ensures ok && !posted ==> sent == old(sent) + [D2HWritecomp(reqId)]
      ensures posted || !ok ==> sent == old(sent)
    {
      if bar == 0 {
        mmio.IssueWrite(reqId, offset, |data|, WriteValue(data));
      } else if bar == 1 {
        if ToU64(offset + |data|) > RegsSize {
          return false;
        }
        regs := RegsWrite(regs, offset, data);
        ApplyCtrlChanges();
      } else {
        return false;
      }
      if !posted {
        sent := sent + [D2HWritecomp(reqId)];
      }
      return true;
    }

    /** `h2d_readcomp`: the completion fills the DMA read it answers, which
        goes back to the reader to be played out on the data channel. */
    method H2DReadcomp(op: AxiOp, data: seq<Byte>)
      requires Valid() && WholeBeats(op)
      modifies reader`pending, reader`queued
      ensures Valid()
      ensures reader.pending == old(reader.pending) + [ReadcompFill(op, data)]
    {
      reader.ReadDone(ReadcompFill(op, data));
    }

    /**
     * `doRead`: a DMA read of the chip becomes a host read request tagged
     * with `reqId` (the operation's address in the source); one whose
     * completion would not fit a message fails and sends nothing.
     */
    method DoRead(op: AxiOp, reqId: nat) returns (ok: bool)
      requires Valid()
      modifies this`sent
      ensures Valid()
      ensures ok <==> op.len <= maxMsgLen - readcompHdr
      ensures ok ==> sent == old(sent) + [D2HRead(DmaOp(false, op.addr, op.len, [], reqId))]
      ensures !ok ==> sent == old(sent)
    {
      if op.len > maxMsgLen - readcompHdr {
        return false;
      }
      sent := sent + [D2HRead(DmaOp(false, op.addr, op.len, [], reqId))];
      return true;
    }

    /**
     * `doWrite`: a DMA write of the chip becomes a host write carrying its
     * buffer, and the writer is told at once that it is done; one that
     * would not fit a message fails and does neither.
     */
    method DoWrite(op: AxiOp, reqId: nat) returns (ok: bool)
      requires Valid()
      modifies this`sent, writer`completed, writer`done
      ensures Valid()
      ensures ok <==> op.len <= maxMsgLen - writeHdr
      ensures ok ==> sent == old(sent) + [D2HWrite(DmaOp(true, op.addr, op.len, op.buf, reqId), op.buf)]
      ensures ok ==> writer.completed == old(writer.completed) + [op]
      ensures !ok ==> sent == old(sent) && writer.completed == old(writer.completed)
    {
      if op.len > maxMsgLen - writeHdr {
        return false;
      }
      sent := sent + [D2HWrite(DmaOp(true, op.addr, op.len, op.buf, reqId), op.buf)];
      writer.WriteDone(op);
      return true;
    }

    /** `mmio_done`: a finished register read is answered with the first
        `len` bytes of its value and the host's request id; a finished
        write sends nothing. */
    method MmioDone(op: Mmio.MmioOp)
      requires Valid()
      modifies this`sent
      ensures Valid()
      ensures !op.isWrite ==> sent == old(sent) + [D2HReadcomp(op.id, MmioReadData(op))]
      ensures op.isWrite ==> sent == old(sent)
    {
      if !op.isWrite {
        sent := sent + [D2HReadcomp(op.id, MmioReadData(op))];
      }
    }

    /** One step of the MMIO master followed by the `mmio_done` callback
        for the operation it finished, if any: operations are answered in
        the order the host issued them. */
    method MmioTick(ts: nat, inp: Mmio.MmioIn) returns (ok: bool)
      requires Valid() && |inp.rdata| == mmio.portWidth
      modifies this`sent, mmio
      ensures Valid()
      ensures |mmio.completed| <= |old(mmio.completed)| + 1
      ensures |mmio.completed| == |old(mmio.completed)| ==> sent == old(sent)
      ensures |mmio.completed| == |old(mmio.completed)| + 1 ==>
        var op := mmio.completed[|mmio.completed| - 1];
        |sent| == |old(sent)| + (if op.isWrite then 0 else 1)
    {
      var done;
      ok, done := mmio.Step(ts, inp);
      if done.Some? {
        MmioDone(done.value);
      }
    }

    /**
     * `poll_h2d`: no message is success; reads and (posted) writes are
     * handled, and a failed one leaves the message unconsumed and fails; a
     * read completion fills the DMA read it answers; write completions,
     * device control, sync and unsupported types are consumed without
     * effect; a TERMINATE sets `exiting`. A read completion names an
     * operation the reader issued, so it is short of its end by whole
     * beats.
     */
    method PollH2D(msg: Option<H2DMsg>) returns (ok: bool)
      requires Valid()
      requires msg.Some? && msg.value.MsgReadcomp? ==> WholeBeats(msg.value.op)
      modifies this`regs, this`sent, this`tracingActive, this`traceNr, this`traces, this`exiting, this`consumed
      modifies mmio`queue, mmio`enqueued, reader`pending, reader`queued
      ensures Valid()
      ensures msg.None? ==> ok && consumed == old(consumed) && sent == old(sent)
      ensures msg.Some? && msg.value.MsgRead? ==>
        var m := msg.value; ok == (m.bar == 0 || (m.bar == 1 && RegisterFile.InBoundsAsWritten(RegsSize, 0, m.offset, m.len)))
      ensures msg.Some? && msg.value.MsgWrite? ==>
        var m := msg.value; ok == (m.bar == 0 || (m.bar == 1 && RegisterFile.InBoundsAsWritten(RegsSize, 0, m.offset, |m.data|)))
      ensures msg.Some? && msg.value.MsgReadcomp? ==>
        ok && reader.pending == old(reader.pending) + [ReadcompFill(msg.value.op, msg.value.data)]
      ensures msg.Some? && !msg.value.MsgRead? && !msg.value.MsgWrite? ==> ok && sent == old(sent)
      ensures msg.Some? ==> consumed == old(consumed) + (if ok then 1 else 0)
      ensures exiting == (old(exiting) || msg == Some(MsgTerminate))
    {
      if msg.None? {
        return true;
      }
      ok := Handle(msg.value);
      if ok {
        consumed := consumed + 1;
      }
    }

    /** The message handling of `poll_h2d`, before the message is
        consumed. */
    method Handle(m: H2DMsg) returns (ok: bool)
      requires Valid()
      requires m.MsgReadcomp? ==> WholeBeats(m.op)
      modifies this`regs, this`sent, this`tracingActive, this`traceNr, this`traces, this`exiting
      modifies mmio`queue, mmio`enqueued, reader`pending, reader`queued
      ensures Valid()
      ensures m.MsgRead? ==> ok == (m.bar == 0 || (m.bar == 1 && RegisterFile.InBoundsAsWritten(RegsSize, 0, m.offset, m.len)))
      ensures m.MsgWrite? ==> ok == (m.bar == 0 || (m.bar == 1 && RegisterFile.InBoundsAsWritten(RegsSize, 0, m.offset, |m.data|)))
      ensures m.MsgReadcomp? ==> ok && reader.pending == old(reader.pending) + [ReadcompFill(m.op, m.data)]
      ensures !m.MsgRead? && !m.MsgWrite? ==> ok && sent == old(sent)
      ensures exiting == (old(exiting) || m == MsgTerminate)
    {
      match m {
        case MsgRead(reqId, bar, offset, len) => {
          ok := H2DRead(reqId, bar, offset, len);
        }
        case MsgWrite(reqId, bar, offset, _, data, posted) => {
          ok := H2DWrite(reqId, bar, offset, data, posted);
        }
        case MsgReadcomp(op, data) => {
          H2DReadcomp(op, data);
          ok := true;
        }
        case MsgTerminate => {
          exiting := true;
          ok := true;
        }
        case _ => {
          ok := true;
        }
      }
    }
  }
}

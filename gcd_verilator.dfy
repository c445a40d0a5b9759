// The Verilator-driven GCD device: BAR 0 maps the 13-byte `GcdState` (the
// chip's inputs, its outputs and a tracing control byte), which host reads
// and writes copy in and out of.
module GcdVerilator {
  import opened Arith
  import opened MemReqs
  import opened Wrappers
  import RegisterFile
  import opened PcieBm
  import opened VerilatorGlue

  /** `sizeof(GcdState)`: 8 bytes of inputs, 4 of outputs, 1 of control. */
  const StateSize: nat := 13
  /** Byte offsets of the output fields and of `ctrl.tracing_active`. */
  const ReqRdyOff: nat := 8
  const RespValOff: nat := 9
  const RespMsgOff: nat := 10
  const CtrlOff: nat := 12

  /** The chip's output signals as `chip_read_outputs` samples them. */
  datatype GcdOutputs = GcdOutputs(reqRdy: bool, respVal: bool, respMsg: nat)

  function Flag(b: bool): Byte {
    if b then 1 else 0
  }

  /** `chip_read_outputs`: the output fields of the state refreshed from
      the chip, `resp_msg` as a little-endian 16-bit field; every other byte
      stays. */
  function WithOutputs(state: seq<Byte>, outs: GcdOutputs): (r: seq<Byte>)
    requires |state| == StateSize
    ensures |r| == StateSize
    ensures r[ReqRdyOff] == Flag(outs.reqRdy) && r[RespValOff] == Flag(outs.respVal)
    ensures r[RespMsgOff] as int + 0x100 * (r[RespMsgOff + 1] as int) == ToU16(outs.respMsg)
    ensures forall i :: 0 <= i < StateSize && !(ReqRdyOff <= i < CtrlOff) ==> r[i] == state[i]
  {
    var m := ToU16(outs.respMsg);
    Overwrite(state, ReqRdyOff, [Flag(outs.reqRdy), Flag(outs.respVal), m % 0x100, m / 0x100])
  }

  /**
   * The copy of `h2d_read` as written: from byte `offset` up to the
   * absolute byte `min(13 - offset, len)`. A range whose end lies before
   * its start copies nothing here.
   */
  function ReadCopy(state: seq<Byte>, offset: nat, len: nat): (r: seq<Byte>)
    requires |state| == StateSize
    ensures |r| <= len
    ensures offset < StateSize && offset <= Min(StateSize - offset, len) ==>
      r == state[offset..Min(StateSize - offset, len)]
  {
    if offset < StateSize && offset <= Min(StateSize - offset, len) then
      state[offset..Min(StateSize - offset, len)]
    else []
  }

  /**
   * The `len` bytes of the read completion `h2d_read` sends: what the copy
   * as written puts at the front of the message, and after it the bytes
   * the copy does not reach, which the source leaves as they were in the
   * message slot (0 here).
   */
  function ReadPayload(state: seq<Byte>, offset: nat, len: nat): (r: seq<Byte>)
    requires |state| == StateSize
    ensures |r| == len
    ensures forall i :: 0 <= i < |ReadCopy(state, offset, len)| ==> r[i] == state[offset + i]
    ensures forall i :: |ReadCopy(state, offset, len)| <= i < len ==> r[i] == 0
  {
    var c := ReadCopy(state, offset, len);
    c + seq(len - |c|, _ => 0)
  }

  /** How many payload bytes the copy of `h2d_write` takes:
      `min(13 - offset, len)` when `offset` lies inside the state, none
      otherwise. */
  function Copied(offset: nat, len: nat): (n: nat)
    ensures n <= len && n <= StateSize
    ensures offset + len <= StateSize ==> n == len
    ensures StateSize <= offset ==> n == 0
  {
    if offset < StateSize then Min(StateSize - offset, len) else 0
  }

  /** The copy of `h2d_write` as written: the first `Copied(offset, len)`
      bytes of the payload land at the start of the state, whatever the
      offset. */
  function WriteCopy(state: seq<Byte>, offset: nat, data: seq<Byte>): (r: seq<Byte>)
    requires |state| == StateSize
    ensures |r| == StateSize
    ensures forall i :: 0 <= i < Copied(offset, |data|) ==> r[i] == data[i]
    ensures forall i :: Copied(offset, |data|) <= i < StateSize ==> r[i] == state[i]
  {
    Overwrite(state, 0, data[..Copied(offset, |data|)])
  }

  /** Within bounds, the read as written returns the addressed bytes exactly
      when it starts at byte 0 or is empty. */
  lemma ReadCopyExactIff(state: seq<Byte>, offset: nat, len: nat)
    requires |state| == StateSize && offset + len <= StateSize
    ensures ReadCopy(state, offset, len) == state[offset..offset + len] <==> offset == 0 || len == 0
  {
    if offset < len {
      assert |ReadCopy(state, offset, len)| == len - offset;
    } else if len > 0 {
      assert |ReadCopy(state, offset, len)| == 0;
    }
  }

  /** Within bounds, a write as written aimed at byte 0 (or empty) stores
      what the intended write stores. */
  lemma WriteCopyExactIff(state: seq<Byte>, offset: nat, data: seq<Byte>)
    requires |state| == StateSize && offset + |data| <= StateSize
    ensures RegisterFile.Write(state, 0, offset, data).Some?
    ensures WriteCopy(state, offset, data) == RegisterFile.Write(state, 0, offset, data).value
      <== offset == 0 || data == []
  {
    var w := RegisterFile.Write(state, 0, offset, data).value;
    if offset == 0 || data == [] {
      assert WriteCopy(state, offset, data) == w;
    }
  }

  /** A host reading the 32-bit `req_msg` input (bytes 4 to 7) gets none of
      it back: the copy would run from byte 4 to byte 4. */
  lemma ReadMissesReqMsg(state: seq<Byte>)
    requires |state| == StateSize
    ensures RegisterFile.Read(state, 0, 4, 4) == Some(state[4..8])
    ensures ReadCopy(state, 4, 4) == []
  {
  }

  /**
   * An 8-byte access at offset `2^64 - 4` passes the bounds check as
   * written, since the 64-bit sum wraps to 4: a read is answered with
   * eight bytes the copy never reaches, and a write copies nothing, yet
   * both succeed.
   */
  lemma WrappedAccessPasses(state: seq<Byte>, data: seq<Byte>)
    requires |state| == StateSize && |data| == 8
    ensures RegisterFile.InBoundsAsWritten(StateSize, 0, U64 - 4, 8)
    ensures !RegisterFile.InBounds(StateSize, 0, U64 - 4, 8)
    ensures ReadPayload(state, U64 - 4, 8) == seq(8, _ => 0)
    ensures WriteCopy(state, U64 - 4, data) == state
  {
    DivModUnique(U64 - 4 + 8, 1, U64, 4);
    assert ReadCopy(state, U64 - 4, 8) == [];
    assert data[..Copied(U64 - 4, 8)] == [];
  }

  /** A one-byte write of the tracing control byte lands on `req_val`
      (byte 0), and the control byte keeps its value. */
  lemma CtrlWriteLandsOnReqVal(state: seq<Byte>)
    requires |state| == StateSize && state[0] == 0 && state[CtrlOff] == 0
    ensures WriteCopy(state, CtrlOff, [1])[0] == 1
    ensures WriteCopy(state, CtrlOff, [1])[CtrlOff] == 0
    ensures RegisterFile.Write(state, 0, CtrlOff, [1]).value[CtrlOff] == 1
  {
  }

  /**
   * The device simulator's state: the mapped `GcdState`, the tracing
   * flag and file counter (with the file actions taken, as a log), the
   * `exiting` flag, the messages sent to the host, and how many host
   * messages were consumed.
   */
  class GcdVerilatorSim {
    var state: seq<Byte>
    var tracingActive: bool
    var traceNr: nat
    ghost var traces: seq<TraceEvent>
    var exiting: bool
    var sent: seq<D2H>
    var consumed: nat

    ghost predicate Valid()
      reads this`state, this`tracingActive, this`traceNr, this`traces
    {
      |state| == StateSize && TraceLog(traces, tracingActive, traceNr)
    }

    /** The zero-initialized state, tracing off, no files opened. */
    constructor ()
      ensures Valid() && state == seq(StateSize, _ => 0)
      ensures !tracingActive && traceNr == 0 && traces == []
      ensures !exiting && sent == [] && consumed == 0
    {
      state := seq(StateSize, _ => 0);
      tracingActive := false;
      traceNr := 0;
      traces := [];
      exiting := false;
      sent := [];
      consumed := 0;
    }

    /** `apply_ctrl_changes`: tracing follows the control byte, opening a
        new numbered file only when it turns on and closing it only when it
        turns off; the trace history stays well formed. */
    method ApplyCtrlChanges()
      requires Valid()
      modifies this`tracingActive, this`traceNr, this`traces
      ensures Valid()
      ensures var t := ToggleTrace(old(tracingActive), state[CtrlOff] != 0, old(traceNr));
        tracingActive == t.0 && traceNr == t.1 && traces == old(traces) + t.2
    {
      var t := ToggleTrace(tracingActive, state[CtrlOff] != 0, traceNr);
      ToggleKeepsLog(traces, tracingActive, traceNr, state[CtrlOff] != 0);
      tracingActive, traceNr, traces := t.0, t.1, traces + t.2;
    }

    /**
     * `h2d_read`: a read of another BAR, or one whose end (a 64-bit sum
     * that wraps around) lies past the state, fails and changes nothing;
     * otherwise the outputs are refreshed from the chip and a read
     * completion with the request's id carries the `len` bytes of
     * `ReadPayload`.
     */
    method H2DRead(reqId: nat, bar: nat, offset: nat, len: nat, outs: GcdOutputs) returns (ok: bool)
      requires Valid()
      modifies this`state, this`sent
      ensures Valid()
      ensures ok <==> RegisterFile.InBoundsAsWritten(StateSize, bar, offset, len)
      ensures ok ==> state == WithOutputs(old(state), outs)
      ensures ok ==> sent == old(sent) + [D2HReadcomp(reqId, ReadPayload(state, offset, len))]
      ensures !ok ==> state == old(state) && sent == old(sent)
    {
      if bar != 0 || ToU64(offset + len) > StateSize {
        return false;
      }
      state := WithOutputs(state, outs);
      sent := sent + [D2HReadcomp(reqId, ReadPayload(state, offset, len))];
      return true;
    }

    /**
     * `h2d_write`: a write to another BAR, or one whose end (a 64-bit
     * sum that wraps around) lies past the state, fails and changes nothing; otherwise the payload is copied as written, tracing
     * follows the control byte, and a non-posted write gets one write
     * completion with the request's id.
     */
    method H2DWrite(reqId: nat, bar: nat, offset: nat, data: seq<Byte>, posted: bool) returns (ok: bool)
      requires Valid()
      modifies this`state, this`sent, this`tracingActive, this`traceNr, this`traces
      ensures Valid()
      ensures ok <==> RegisterFile.InBoundsAsWritten(StateSize, bar, offset, |data|)
      ensures ok ==> state == WriteCopy(old(state), offset, data)
      ensures ok ==> var t := ToggleTrace(old(tracingActive), state[CtrlOff] != 0, old(traceNr));
        tracingActive == t.0 && traceNr == t.1 && traces == old(traces) + t.2
      ensures ok && !posted ==> sent == old(sent) + [D2HWritecomp(reqId)]
      ensures ok && posted ==> sent == old(sent)
      ensures !ok ==> (state == old(state) && sent == old(sent) && tracingActive == old(tracingActive)
        && traceNr == old(traceNr) && traces == old(traces))
    {
      if bar != 0 || ToU64(offset + |data|) > StateSize {
        return false;
      }
      state := WriteCopy(state, offset, data);
      ApplyCtrlChanges();
      if !posted {
        sent := sent + [D2HWritecomp(reqId)];
      }
      return true;
    }

    /**
     * `poll_h2d`: no message is success; reads and (posted) writes are
     * handled, and a failed one leaves the message unconsumed and fails;
     * a TERMINATE sets `exiting`; device control, sync and unsupported
     * types (completions included) are consumed without effect.
     */
    method PollH2D(msg: Option<H2DMsg>, outs: GcdOutputs) returns (ok: bool)
      requires Valid()
      modifies this`state, this`sent, this`tracingActive, this`traceNr, this`traces, this`exiting, this`consumed
      ensures Valid()
      ensures msg.None? ==> ok && consumed == old(consumed) && state == old(state) && sent == old(sent)
      ensures msg.Some? && msg.value.MsgRead? ==>
        var m := msg.value; ok == RegisterFile.InBoundsAsWritten(StateSize, m.bar, m.offset, m.len)
      ensures msg.Some? && msg.value.MsgWrite? ==>
        var m := msg.value; ok == RegisterFile.InBoundsAsWritten(StateSize, m.bar, m.offset, |m.data|)
      ensures msg.Some? && !msg.value.MsgRead? && !msg.value.MsgWrite? ==>
        ok && state == old(state) && sent == old(sent)
      ensures msg.Some? ==> consumed == old(consumed) + (if ok then 1 else 0)
      ensures exiting == (old(exiting) || msg == Some(MsgTerminate))
    {
      if msg.None? {
        return true;
      }
      match msg.value {
      case MsgRead(reqId, bar, offset, len) => {
        ok := H2DRead(reqId, bar, offset, len, outs);
      }
      case MsgWrite(reqId, bar, offset, _, data, posted) => {
        ok := H2DWrite(reqId, bar, offset, data, posted);
      }
      case MsgTerminate => {
        exiting := true;
        ok := true;
      }
      case _ => {
        ok := true;
      }
      }
      if ok {
        consumed := consumed + 1;
      }
    }
  }
}

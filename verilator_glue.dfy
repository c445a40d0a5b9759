// What the Verilator device simulators share: the host messages they poll
// for, and the switching of VCD tracing from a control byte the host
// writes through a BAR.
module VerilatorGlue {
  import opened MemReqs
  import Axi

  /** The host-to-device messages `poll_h2d` dispatches on. A read
      completion names the AXI operation it answers (its `req_id` is that
      operation's address in the source). */
  datatype H2DMsg =
    | MsgRead(reqId: nat, bar: nat, offset: nat, len: nat)
    | MsgWrite(reqId: nat, bar: nat, offset: nat, len: nat, data: seq<Byte>, posted: bool)
    | MsgReadcomp(op: Axi.AxiOp, data: seq<Byte>)
    | MsgWritecomp
    | MsgDevctrl
    | MsgSync
    | MsgTerminate
    | MsgOther(msgType: nat)

  /** Opening and closing a numbered trace file. */
  datatype TraceEvent = TraceOpen(nr: nat) | TraceClose

  /**
   * `apply_ctrl_changes`: tracing off and requested opens trace file
   * `nr` and counts it; tracing on and no longer requested closes the
   * file; otherwise nothing happens. The result is the new flag, the new
   * counter and the file actions.
   */
  function ToggleTrace(active: bool, requested: bool, nr: nat): (r: (bool, nat, seq<TraceEvent>))
    ensures r.0 == requested
    ensures !active && requested ==> r.1 == nr + 1 && r.2 == [TraceOpen(nr)]
    ensures active && !requested ==> r.1 == nr && r.2 == [TraceClose]
    ensures active == requested ==> r.1 == nr && r.2 == []
  {
    if !active && requested then (true, nr + 1, [TraceOpen(nr)])
    else if active && !requested then (false, nr, [TraceClose])
    else (active, nr, [])
  }

  /** A trace history: files numbered 0, 1, 2, … are opened and closed in
      strict alternation, `nr` files have been opened, and tracing is
      active exactly when the last action opened one. */
  ghost predicate TraceLog(log: seq<TraceEvent>, active: bool, nr: nat)
    decreases |log|
  {
    if log == [] then !active && nr == 0
    else
      match log[|log| - 1]
      case TraceOpen(k) => active && nr >= 1 && k == nr - 1 && TraceLog(log[..|log| - 1], false, nr - 1)
      case TraceClose => !active && TraceLog(log[..|log| - 1], true, nr)
  }

  /** Every toggle keeps the history well formed. */
  lemma ToggleKeepsLog(log: seq<TraceEvent>, active: bool, nr: nat, requested: bool)
    requires TraceLog(log, active, nr)
    ensures var r := ToggleTrace(active, requested, nr);
      TraceLog(log + r.2, r.0, r.1)
  {
    var r := ToggleTrace(active, requested, nr);
    if r.2 != [] {
      assert (log + r.2)[..|log|] == log;
    } else {
      assert log + r.2 == log;
    }
  }

  /** No file is opened twice: the numbers opened are distinct. */
  lemma {:induction false} OpenedOnce(log: seq<TraceEvent>, active: bool, nr: nat, i: nat)
    requires TraceLog(log, active, nr) && i < |log| && log[i].TraceOpen?
    ensures log[i].nr < nr
    ensures forall j :: i < j < |log| && log[j].TraceOpen? ==> log[i].nr < log[j].nr
    decreases |log|
  {
    var last := |log| - 1;
    var pre := log[..last];
    if i < last {
      match log[last]
      case TraceOpen(k) => {
        OpenedOnce(pre, false, nr - 1, i);
        forall j | i < j < |log| && log[j].TraceOpen?
          ensures log[i].nr < log[j].nr
        {
          if j < last {
            assert pre[j] == log[j];
          }
        }
      }
      case TraceClose => {
        OpenedOnce(pre, true, nr, i);
        forall j | i < j < |log| && log[j].TraceOpen?
          ensures log[i].nr < log[j].nr
        {
          assert j < last && pre[j] == log[j];
        }
      }
    }
  }
}

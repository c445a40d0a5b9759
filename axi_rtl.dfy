// The AXI4 burst adapters the RTL simulators put in front of a Verilated
// design: `AXIReader` answers the design's read bursts beat by beat from
// operations its owner has filled, `AXIWriter` collects the design's write
// bursts into operations and acknowledges them once its owner reports them
// done. Each `Step` is one clock step; the design's outputs are inputs,
// and the operation handed to `doRead`/`doWrite` is a result.
module AxiRtl {
  import opened Arith
  import opened MemReqs
  import opened Wrappers
  import opened Axi

  /** The write data channel as sampled in one step. */
  datatype DataChannel = DataChannel(valid: bool, data: seq<Byte>, last: bool)

  /** Every operation in the queue is well formed and not yet finished. */
  ghost predicate AllOpen(ops: seq<AxiOp>) {
    forall i :: 0 <= i < |ops| ==> WellFormed(ops[i]) && ops[i].off < ops[i].len
  }

  /** Dropping the first operation keeps the queue open, and so does
      replacing it by an open, well-formed one. */
  lemma OpenReplaceHead(ops: seq<AxiOp>, op: AxiOp)
    requires AllOpen(ops) && ops != []
    ensures AllOpen(ops[1..])
    ensures WellFormed(op) && op.off < op.len ==> AllOpen([op] + ops[1..])
  {
    assert forall i :: 0 <= i < |ops| - 1 ==> ops[1..][i] == ops[i + 1];
    if WellFormed(op) && op.off < op.len {
      var r := [op] + ops[1..];
      assert forall i :: 0 < i < |r| ==> r[i] == ops[i];
    }
  }

  /** Every operation in the queue is well formed. */
  ghost predicate AllWellFormed(ops: seq<AxiOp>) {
    forall i :: 0 <= i < |ops| ==> WellFormed(ops[i])
  }

  /** `n` zero bytes. */
  function Zeros(n: nat): (r: seq<Byte>)
    ensures |r| == n && forall i :: 0 <= i < n ==> r[i] == 0
  {
    if n == 0 then [] else Zeros(n - 1) + [0]
  }

  /** A new address beat: an INCR burst becomes a fresh operation, any
      other burst type fails the source's assertion. */
  method AcceptBurst(a: AddrChannel) returns (ok: bool, op: Option<AxiOp>)
    ensures ok <==> !a.valid || a.burst == Incr
    ensures ok && a.valid ==> op == Some(NewOp(a))
    ensures !a.valid ==> op == None
  {
    if !a.valid {
      return true, None;
    }
    if a.burst != Incr {
      return false, None;
    }
    return true, Some(NewOp(a));
  }

  class AxiReader {
    /** `main_time_` */
    var mainTime: nat
    /** The address channel's `ready`. */
    var addrReady: bool
    /** `pending_`: operations whose data is ready to send. */
    var pending: seq<AxiOp>
    /** `curOp_` and `curOff_`: the operation being sent, and how far. */
    var curOp: Option<AxiOp>
    var curOff: nat
    /** The data channel the reader drives. */
    var dataValid: bool
    var dataLast: bool
    var data: seq<Byte>
    var dataId: nat
    /** `(data_bits + 7) / 8` and `(id_bits + 7) / 8`. */
    const dataBytes: nat
    const idBytes: nat

    /** Every operation handed back by `readDone`, and those taken off
        `pending_`, in order. */
    ghost var queued: seq<AxiOp>
    ghost var served: seq<AxiOp>

    ghost predicate Valid()
      reads this`data, this`curOp, this`curOff, this`pending, this`served, this`queued
    {
      dataBytes > 0 && |data| == dataBytes &&
      (curOp.Some? ==> WellFormed(curOp.value) && curOff < curOp.value.len) &&
      AllWellFormed(pending) &&
      served + pending == queued
    }

    /** The fresh reader: nothing pending, nothing in flight. */
    constructor (dataBits: nat, idBits: nat)
      requires dataBits > 0
      ensures Valid() && pending == [] && curOp == None && curOff == 0 && mainTime == 0
      ensures dataBytes == (dataBits + 7) / 8 && idBytes == (idBits + 7) / 8
    {
      mainTime := 0;
      addrReady := false;
      pending, curOp, curOff := [], None, 0;
      dataBytes := (dataBits + 7) / 8;
      idBytes := (idBits + 7) / 8;
      dataValid, dataLast, dataId := false, false, 0;
      data := seq((dataBits + 7) / 8, _ => 0);
      queued, served := [], [];
    }

    /** `readDone(op)`: the owner has filled the operation's buffer; it
        joins the back of `pending_`. */
    method ReadDone(op: AxiOp)
      requires Valid() && WellFormed(op)
      modifies this`pending, this`queued
      ensures Valid() && pending == old(pending) + [op]
    {
      pending := pending + [op];
      queued := queued + [op];
    }

    /**
     * The first beat of the front operation: it leaves `pending_`, the
     * offset restarts at 0, and `min(db - addr % db, step)` bytes of its
     * buffer go out on the lanes from `addr % db`, with its id and `valid`.
     * The offset advances by those bytes; `last` is raised exactly when
     * that reaches the length, and then the operation is finished. A beat
     * longer than the buffer reads past it (`ok` false).
     */
    method StartResponse() returns (ok: bool)
      requires Valid() && curOp == None && pending != []
      modifies this`pending, this`served, this`curOp, this`curOff, this`data, this`dataId
      modifies this`dataValid, this`dataLast
      ensures pending == old(pending)[1..] && served == old(served) + [old(pending)[0]]
      ensures var op := old(pending)[0];
        var n := BeatBytes(dataBytes, op.addr, 0, op.stepSize);
        (ok <==> n <= op.len) &&
        (ok ==>
          Valid() &&
          data == Overwrite(old(data), op.addr % dataBytes, op.buf[..n]) &&
          dataId == op.id % Pow2(8 * idBytes) && dataValid &&
          dataLast == (n == op.len) &&
          (dataLast ==> curOp == None) &&
          (!dataLast ==> curOp == Some(op) && curOff == n))
    {
      var op := pending[0];
      pending := pending[1..];
      served := served + [op];
      curOp := Some(op);
      curOff := 0;
      var n := BeatBytes(dataBytes, op.addr, 0, op.stepSize);
      if n > op.len {
        return false;
      }
      data := Overwrite(data, op.addr % dataBytes, op.buf[..n]);
      dataId := op.id % Pow2(8 * idBytes);
      dataValid := true;
      curOff := n;
      dataLast := curOff == op.len;
      if dataLast {
        curOp := None;
      }
      return true;
    }

    /**
     * A later beat, once the design took the previous one: the next
     * `min(db - (addr + off) % db, step)` bytes of the buffer go out from
     * lane 0 (see `Axi.LaterBeatLanes`), the offset advances by them, and
     * `last` and the operation's end follow as for the first beat. A beat
     * running past the buffer reads outside it (`ok` false).
     */
    method NextBeat() returns (ok: bool)
      requires Valid() && curOp.Some?
      modifies this`curOp, this`curOff, this`data, this`dataLast
      ensures var op := old(curOp).value;
        var n := BeatBytes(dataBytes, op.addr, old(curOff), op.stepSize);
        (ok <==> old(curOff) + n <= op.len) &&
        (ok ==>
          Valid() &&
          data == LaterBeatLanes(old(data), op.buf[old(curOff)..old(curOff) + n]) &&
          dataLast == (old(curOff) + n == op.len) &&
          (dataLast ==> curOp == None) &&
          (!dataLast ==> curOp == old(curOp) && curOff == old(curOff) + n))
    {
      var op := curOp.value;
      var n := BeatBytes(dataBytes, op.addr, curOff, op.stepSize);
      if curOff + n > op.len {
        return false;
      }
      data := LaterBeatLanes(data, op.buf[curOff..curOff + n]);
      curOff := curOff + n;
      dataLast := curOff == op.len;
      if dataLast {
        curOp := None;
      }
      return true;
    }

    /**
     * `step(cur_ts)`: the address channel is always ready, and a valid
     * address beat yields a new operation for `doRead` (an INCR burst; any
     * other fails the source's assertion). Then, with nothing in flight,
     * the front pending operation starts; else, with the design ready,
     * the operation in flight sends its next beat; else, idle, the data
     * channel is driven to zero.
     */
    method Step(ts: nat, a: AddrChannel, dataReady: bool) returns (ok: bool, newOp: Option<AxiOp>)
      requires Valid()
      modifies this`mainTime, this`addrReady, this`pending, this`served, this`curOp, this`curOff
      modifies this`data, this`dataId, this`dataValid, this`dataLast
      ensures mainTime == ts && addrReady && queued == old(queued)
      ensures ok ==> Valid()
      ensures !(!a.valid || a.burst == Incr) ==> !ok
      ensures ok && a.valid ==> newOp == Some(NewOp(a))
      ensures !a.valid ==> newOp == None
      ensures ok && old(curOp).None? && old(pending) != [] ==>
        pending == old(pending)[1..] && served == old(served) + [old(pending)[0]] && dataValid
      ensures old(curOp).Some? ==> pending == old(pending) && served == old(served)
      ensures old(curOp).Some? && !dataReady ==> curOp == old(curOp) && curOff == old(curOff) && data == old(data)
      ensures old(curOp).None? && old(pending) == [] ==>
        ok == (!a.valid || a.burst == Incr) && pending == [] && curOp == None &&
        (ok ==> !dataValid && !dataLast && data == Zeros(dataBytes) && dataId == 0)
    {
      mainTime := ts;
      addrReady := true;
      ok, newOp := AcceptBurst(a);
      if !ok {
        return;
      }
      if curOp.None? && pending != [] {
        ok := StartResponse();
      } else if curOp.Some? && dataReady {
        ok := NextBeat();
      } else if curOp.None? {
        dataValid := false;
        dataLast := false;
        data := Zeros(dataBytes);
        dataId := 0;
      }
    }
  }

  /** Whether an operation with `id` is pending, by a linear scan
      (`std::find_if`). */
  method FindId(ops: seq<AxiOp>, id: nat) returns (found: bool)
    ensures found <==> HasId(ops, id)
  {
    var i := 0;
    while i < |ops|
      invariant 0 <= i <= |ops|
      invariant forall j :: 0 <= j < i ==> ops[j].id != id
    {
      if ops[i].id == id {
        return true;
      }
      i := i + 1;
    }
    return false;
  }

  class AxiWriter {
    /** `main_time_` */
    var mainTime: nat
    /** The address and data channels' `ready`. */
    var addrReady: bool
    var dataReady: bool
    /** `pending_`: bursts still receiving data, oldest first. */
    var pending: seq<AxiOp>
    /** `completed_`: bursts the owner has written, awaiting a response. */
    var completed: seq<AxiOp>
    /** `complOp_` and `complWasReady_`: the response on the channel, and
        whether the design was ready when it went out. */
    var complOp: Option<AxiOp>
    var complWasReady: bool
    /** The response channel the writer drives. */
    var respValid: bool
    var respId: nat
    /** `(data_bits + 7) / 8` and the response id's `(id_bits + 7) / 8`. */
    const dataBytes: nat
    const idBytes: nat

    /** Every operation handed back by `writeDone`, and those whose
        response went out, in order. */
    ghost var done: seq<AxiOp>
    ghost var responded: seq<AxiOp>

    /** Pending bursts have distinct ids (a duplicate aborts) and are
        unfinished (a finished one leaves), and responses go out in the
        order the writes were reported done. */
    ghost predicate Valid()
      reads this`pending, this`responded, this`completed, this`done, this`complOp
    {
      dataBytes > 0 &&
      DistinctIds(pending) && AllOpen(pending) &&
      responded + completed == done &&
      (complOp.Some? ==> responded != [] && complOp.value == responded[|responded| - 1])
    }

    /** The fresh writer: no bursts, no responses. */
    constructor (dataBits: nat, idBits: nat)
      requires dataBits > 0
      ensures Valid() && pending == [] && completed == [] && complOp == None && !complWasReady && mainTime == 0
      ensures dataBytes == (dataBits + 7) / 8 && idBytes == (idBits + 7) / 8
    {
      mainTime := 0;
      addrReady, dataReady := false, false;
      pending, completed, complOp, complWasReady := [], [], None, false;
      respValid, respId := false, 0;
      dataBytes := (dataBits + 7) / 8;
      idBytes := (idBits + 7) / 8;
      done, responded := [], [];
    }

    /** `writeDone(op)`: the owner has written the burst; its response
        joins the back of `completed_`. */
    method WriteDone(op: AxiOp)
      requires Valid()
      modifies this`completed, this`done
      ensures Valid() && completed == old(completed) + [op]
    {
      completed := completed + [op];
      done := done + [op];
    }

    /**
     * The response channel: a response the design has taken (ready now or
     * when it went out) is retired and `valid` dropped; then, with none on
     * the channel, the oldest completed write's id goes out with `valid`,
     * remembering whether the design was ready.
     */
    method Respond(respReady: bool)
      requires Valid()
      modifies this`complOp, this`respValid, this`completed, this`complWasReady, this`respId, this`responded
      ensures Valid()
      ensures var retired := old(complOp).Some? && (respReady || old(complWasReady));
        var free := old(complOp).None? || retired;
        (free && old(completed) != [] ==>
          complOp == Some(old(completed)[0]) && completed == old(completed)[1..] &&
          respValid && respId == old(completed)[0].id % Pow2(8 * idBytes) && complWasReady == respReady) &&
        (free && old(completed) == [] ==>
          complOp == None && completed == [] && respValid == (old(respValid) && !retired)) &&
        (!free ==> complOp == old(complOp) && completed == old(completed) && respValid == old(respValid))
    {
      if complOp.Some? && (respReady || complWasReady) {
        complOp := None;
        respValid := false;
      }
      if complOp.None? && completed != [] {
        complOp := Some(completed[0]);
        responded := responded + [completed[0]];
        completed := completed[1..];
        respId := complOp.value.id % Pow2(8 * idBytes);
        respValid := true;
        complWasReady := respReady;
      }
    }

    /** The address channel is always ready; a valid INCR burst whose id
        is not already pending joins the back of `pending_`; another burst
        type or a duplicate id aborts. */
    method AcceptAddr(a: AddrChannel) returns (ok: bool)
      requires Valid()
      modifies this`addrReady, this`pending
      ensures addrReady
      ensures ok <==> !a.valid || (a.burst == Incr && !HasId(old(pending), a.id))
      ensures ok ==> Valid()
      ensures ok && a.valid ==> pending == old(pending) + [NewOp(a)]
      ensures !a.valid ==> pending == old(pending)
    {
      addrReady := true;
      var op;
      ok, op := AcceptBurst(a);
      if !ok || op.None? {
        return;
      }
      var dup := FindId(pending, a.id);
      if dup {
        return false;
      }
      DistinctAppend(pending, op.value);
      pending := pending + [op.value];
    }

    /**
     * The data channel is always ready. A valid beat belongs to the
     * oldest pending burst (none pending aborts): the
     * `min(db - (addr + off) % db, step)` bytes at lane
     * `(addr + off) % db` land at its offset, which advances by them.
     * Past the length aborts; at the length without `last` aborts; at the
     * length with `last` the burst leaves `pending_` for `doWrite`.
     */
    method AcceptData(d: DataChannel) returns (ok: bool, toWrite: Option<AxiOp>)
      requires Valid() && |d.data| == dataBytes
      modifies this`dataReady, this`pending
      ensures dataReady
      ensures ok ==> Valid()
      ensures !ok ==> toWrite == None
      ensures toWrite.Some? ==> toWrite.value.off == toWrite.value.len && d.last
      ensures !d.valid ==> ok && toWrite == None && pending == old(pending)
      ensures d.valid && old(pending) == [] ==> !ok
      ensures d.valid && old(pending) != [] ==>
        var op := old(pending)[0];
        var at := (op.addr + op.off) % dataBytes;
        var n := BeatBytes(dataBytes, op.addr, op.off, op.stepSize);
        (ok <==> op.off + n < op.len || (op.off + n == op.len && d.last)) &&
        (ok ==>
          var op' := Filled(op, d.data, at, n, n);
          (op'.off < op.len ==> toWrite == None && pending == [op'] + old(pending)[1..]) &&
          (op'.off == op.len ==> toWrite == Some(op') && pending == old(pending)[1..]))
    {
      dataReady := true;
      toWrite := None;
      if !d.valid {
        return true, None;
      }
      if pending == [] {
        return false, None;
      }
      var op := pending[0];
      var at := (op.addr + op.off) % dataBytes;
      var n := BeatBytes(dataBytes, op.addr, op.off, op.stepSize);
      if op.off + n > op.len {
        return false, None;
      }
      op := Filled(op, d.data, at, n, n);
      DistinctReplaceHead(pending, op);
      OpenReplaceHead(pending, op);
      if op.off == op.len {
        if !d.last {
          return false, None;
        }
        pending := pending[1..];
        return true, Some(op);
      }
      pending := [op] + pending[1..];
      return true, None;
    }

    /** `step(cur_ts)`: the response channel first, then the address
        channel, then the data channel. */
    method Step(ts: nat, respReady: bool, a: AddrChannel, d: DataChannel) returns (ok: bool, toWrite: Option<AxiOp>)
      requires Valid() && |d.data| == dataBytes
      modifies this`mainTime, this`addrReady, this`dataReady, this`pending, this`completed
      modifies this`complOp, this`complWasReady, this`respValid, this`respId, this`responded
      ensures mainTime == ts && (ok ==> Valid())
      ensures ok ==> done == old(done)
      ensures toWrite.Some? ==> toWrite.value.off == toWrite.value.len && d.last
    {
      mainTime := ts;
      Respond(respReady);
      ok := AcceptAddr(a);
      toWrite := None;
      if !ok {
        return;
      }
      ok, toWrite := AcceptData(d);
    }
  }
}

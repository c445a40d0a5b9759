// The older AXI4 burst adapters of the Verilator JPEG decoder. They differ
// from the RTL library's in three ways: every beat advances the offset by
// the full beat size, whatever the lanes carried; the idle reader lowers
// only `valid`; and the writer pauses for a fixed time after each burst it
// hands on.
module AxiMisc {
  import opened Arith
  import opened MemReqs
  import opened Wrappers
  import opened Axi
  import AxiRtl

  /** A non-empty operation whose length and offset are whole beats, as
      every operation a burst address creates is. */
  predicate WholeBeats(op: AxiOp) {
    WellFormed(op) && op.len > 0 && op.len % op.stepSize == 0 && op.off % op.stepSize == 0
  }

  lemma NewOpWholeBeats(a: AddrChannel)
    ensures WholeBeats(NewOp(a))
  {
    var op := NewOp(a);
    DivModUnique(op.len, a.len + 1, op.stepSize, 0);
  }

  /** Every operation in the queue is whole beats and not yet finished. */
  predicate AllWhole(ops: seq<AxiOp>) {
    forall i :: 0 <= i < |ops| ==> WholeBeats(ops[i]) && ops[i].off < ops[i].len
  }

  /** Dropping the first operation keeps the queue whole, and so does
      replacing it by an unfinished one of whole beats. */
  lemma WholeReplaceHead(ops: seq<AxiOp>, op: AxiOp)
    requires AllWhole(ops) && ops != []
    ensures AllWhole(ops[1..])
    ensures WholeBeats(op) && op.off < op.len ==> AllWhole([op] + ops[1..])
  {
    assert forall i :: 0 <= i < |ops| - 1 ==> ops[1..][i] == ops[i + 1];
    if WholeBeats(op) && op.off < op.len {
      var r := [op] + ops[1..];
      assert forall i :: 0 < i < |r| ==> r[i] == ops[i];
    }
  }

  /** A whole-beat offset short of a whole-beat length leaves room for a
      full beat, and the next offset is whole again. */
  lemma {:induction false} BeatFits(off: nat, len: nat, step: nat)
    requires step > 0 && off % step == 0 && len % step == 0 && off < len
    ensures off + step <= len && (off + step) % step == 0
  {
    DivNat(off, step);
    DivNat(len, step);
    if off / step >= len / step {
      MulLe(len / step, step, off / step, step);
    }
    MulStep(off / step, len / step, step);
    DivModUnique(off + step, off / step + 1, step, 0);
  }

  /** The bytes of a burst of `k` whole beats: `k * step`, so `last` comes
      on beat `len + 1` whatever the start address. */
  lemma WholeBeatsLast(a: AddrChannel, k: nat)
    ensures k * Pow2(a.size) == NewOp(a).len <==> k == a.len + 1
  {
    var step := Pow2(a.size);
    assert NewOp(a).len == step * (a.len + 1) == (a.len + 1) * step;
    BeatsDetermineLength(k, a.len + 1, step);
  }

  class MiscAxiReader {
    var mainTime: nat
    var addrReady: bool
    var pending: seq<AxiOp>
    var curOp: Option<AxiOp>
    var curOff: nat
    var dataValid: bool
    var dataLast: bool
    var data: seq<Byte>
    var dataId: nat
    const dataBytes: nat
    const idBytes: nat

    ghost var queued: seq<AxiOp>
    ghost var served: seq<AxiOp>

    /** The operation in flight is short of its end by whole beats, so no
        beat runs past its buffer. */
    ghost predicate Valid()
      reads this`data, this`curOp, this`curOff, this`pending, this`served, this`queued
    {
      dataBytes > 0 && |data| == dataBytes &&
      (curOp.Some? ==> WholeBeats(curOp.value) && curOff % curOp.value.stepSize == 0 && curOff < curOp.value.len) &&
      (forall i :: 0 <= i < |pending| ==> WholeBeats(pending[i])) &&
      served + pending == queued
    }

    /** The source leaves `main_time` and `curOff` uninitialised; the model
        starts them at 0. */
    constructor (dataBits: nat, idBits: nat)
      requires dataBits > 0
      ensures Valid() && pending == [] && curOp == None
      ensures dataBytes == (dataBits + 7) / 8 && idBytes == (idBits + 7) / 8
    {
      mainTime := 0;
      addrReady := false;
      pending, curOp, curOff := [], None, 0;
      dataBytes := (dataBits + 7) / 8;
      idBytes := (idBits + 7) / 8;
      dataValid, dataLast, dataId := false, false, 0;
      data := AxiRtl.Zeros((dataBits + 7) / 8);
      queued, served := [], [];
    }

    /** `readDone(op)`: a filled operation joins the back of `pending`. */
    method ReadDone(op: AxiOp)
      requires Valid() && WholeBeats(op)
      modifies this`pending, this`queued
      ensures Valid() && pending == old(pending) + [op]
    {
      pending := pending + [op];
      queued := queued + [op];
    }

    /** One beat of the operation in flight, its first one (`first`, on
        the lanes from `addr % db`) or a later one (from lane 0): the
        offset advances a full beat, and `last` is raised, ending the
        operation, exactly when that reaches the length. */
    method Beat(first: bool)
      requires Valid() && curOp.Some? && (first ==> curOff == 0)
      modifies this`curOp, this`curOff, this`data, this`dataLast
      ensures Valid()
      ensures var op := old(curOp).value;
        var n := BeatBytes(dataBytes, op.addr, old(curOff), op.stepSize);
        old(curOff) + n <= op.len &&
        (first ==> data == Overwrite(old(data), op.addr % dataBytes, op.buf[..n])) &&
        (!first ==> data == LaterBeatLanes(old(data), op.buf[old(curOff)..old(curOff) + n])) &&
        dataLast == (old(curOff) + op.stepSize == op.len) &&
        (dataLast ==> curOp == None) &&
        (!dataLast ==> curOp == old(curOp) && curOff == old(curOff) + op.stepSize)
    {
      var op := curOp.value;
      var n := BeatBytes(dataBytes, op.addr, curOff, op.stepSize);
      BeatFits(curOff, op.len, op.stepSize);
      assert first ==> op.addr + curOff == op.addr;
      if first {
        data := Overwrite(data, op.addr % dataBytes, op.buf[..n]);
      } else {
        data := LaterBeatLanes(data, op.buf[curOff..curOff + n]);
      }
      curOff := curOff + op.stepSize;
      dataLast := curOff == op.len;
      if dataLast {
        curOp := None;
      }
    }

    /** The operation at the front of `pending` goes in flight with its
        id on the data channel, and its first beat is sent. */
    method StartNext()
      requires Valid() && curOp.None? && pending != []
      modifies this`pending, this`served, this`curOp, this`curOff, this`data, this`dataId, this`dataValid, this`dataLast
      ensures Valid()
      ensures pending == old(pending)[1..] && served == old(served) + [old(pending)[0]] && dataValid
      ensures dataId == old(pending)[0].id % Pow2(8 * idBytes)
      ensures dataLast == (old(pending)[0].stepSize == old(pending)[0].len)
    {
      var op := pending[0];
      pending := pending[1..];
      served := served + [op];
      curOp := Some(op);
      curOff := 0;
      dataId := op.id % Pow2(8 * idBytes);
      dataValid := true;
      Beat(true);
    }

    /**
     * `step(ts)`: as the RTL reader's, except that each beat advances by
     * the full beat size and idling lowers only `valid`. With whole-beat
     * operations no beat reads past its buffer, so only a non-INCR burst
     * fails.
     */
    method Step(ts: nat, a: AddrChannel, dataReady: bool) returns (ok: bool, newOp: Option<AxiOp>)
      requires Valid()
      modifies this`mainTime, this`addrReady, this`pending, this`served, this`curOp, this`curOff
      modifies this`data, this`dataId, this`dataValid, this`dataLast
      ensures mainTime == ts && addrReady && queued == old(queued)
      ensures ok <==> !a.valid || a.burst == Incr
      ensures ok ==> Valid()
      ensures ok && a.valid ==> newOp == Some(NewOp(a)) && WholeBeats(newOp.value)
      ensures ok && old(curOp).None? && old(pending) != [] ==>
        pending == old(pending)[1..] && served == old(served) + [old(pending)[0]] && dataValid &&
        dataId == old(pending)[0].id % Pow2(8 * idBytes) &&
        dataLast == (old(pending)[0].stepSize == old(pending)[0].len)
      ensures ok && old(curOp).Some? && dataReady ==>
        pending == old(pending) && dataLast == (old(curOff) + old(curOp).value.stepSize == old(curOp).value.len)
      ensures ok && old(curOp).Some? && !dataReady ==> curOp == old(curOp) && curOff == old(curOff) && data == old(data)
      ensures ok && old(curOp).None? && old(pending) == [] ==>
        !dataValid && dataLast == old(dataLast) && data == old(data) && dataId == old(dataId)
    {
      mainTime := ts;
      addrReady := true;
      ok, newOp := AxiRtl.AcceptBurst(a);
      if !ok {
        return;
      }
      if newOp.Some? {
        NewOpWholeBeats(a);
      }
      if curOp.None? && pending != [] {
        StartNext();
      } else if curOp.Some? && dataReady {
        Beat(false);
      } else if curOp.None? {
        dataValid := false;
      }
    }
  }

  /** `16 * (1'000'000 / 150)`: the pause after each burst, in the
      simulator's time unit. */
  const WriteSuspend: nat := 16 * (1_000_000 / 150)

  class MiscAxiWriter {
    var mainTime: nat
    /** `suspend_until`: no step does anything before this time. */
    var suspendUntil: nat
    var addrReady: bool
    var dataReady: bool
    var pending: seq<AxiOp>
    var completed: seq<AxiOp>
    var complOp: Option<AxiOp>
    var complWasReady: bool
    var respValid: bool
    var respId: nat
    const dataBytes: nat
    const idBytes: nat

    ghost var done: seq<AxiOp>
    ghost var responded: seq<AxiOp>

    /** Pending bursts have distinct ids and are short of their end by
        whole beats; responses go out in the order writes were reported. */
    ghost predicate Valid()
      reads this`pending, this`responded, this`completed, this`done, this`complOp
    {
      dataBytes > 0 &&
      DistinctIds(pending) &&
      AllWhole(pending) &&
      responded + completed == done &&
      (complOp.Some? ==> responded != [] && complOp.value == responded[|responded| - 1])
    }

    /** The source leaves `main_time`, `suspend_until` and
        `complWasReady` uninitialised; the model starts them at 0 and
        false. */
    constructor (dataBits: nat, idBits: nat)
      requires dataBits > 0
      ensures Valid() && pending == [] && completed == [] && complOp == None && suspendUntil == 0
      ensures dataBytes == (dataBits + 7) / 8 && idBytes == (idBits + 7) / 8
    {
      mainTime, suspendUntil := 0, 0;
      addrReady, dataReady := false, false;
      pending, completed, complOp, complWasReady := [], [], None, false;
      respValid, respId := false, 0;
      dataBytes := (dataBits + 7) / 8;
      idBytes := (idBits + 7) / 8;
      done, responded := [], [];
    }

    /** `writeDone(op)`: the burst's response joins the back of
        `completed`. */
    method WriteDone(op: AxiOp)
      requires Valid()
      modifies this`completed, this`done
      ensures Valid() && completed == old(completed) + [op]
    {
      completed := completed + [op];
      done := done + [op];
    }

    /** The response channel, as in the RTL writer. */
    method Respond(respReady: bool)
      requires Valid()
      modifies this`complOp, this`respValid, this`completed, this`complWasReady, this`respId, this`responded
      ensures Valid()
      ensures var retired := old(complOp).Some? && (respReady || old(complWasReady));
        var free := old(complOp).None? || retired;
        (free && old(completed) != [] ==>
          complOp == Some(old(completed)[0]) && completed == old(completed)[1..] &&
          respValid && respId == old(completed)[0].id % Pow2(8 * idBytes) && complWasReady == respReady) &&
        (free && old(completed) == [] ==>
          complOp == None && completed == [] && respValid == (old(respValid) && !retired)) &&
        (!free ==> complOp == old(complOp) && completed == old(completed) && respValid == old(respValid))
    {
      if complOp.Some? && (respReady || complWasReady) {
        complOp := None;
        respValid := false;
      }
      if complOp.None? && completed != [] {
        complOp := Some(completed[0]);
        responded := responded + [completed[0]];
        completed := completed[1..];
        respId := complOp.value.id % Pow2(8 * idBytes);
        respValid := true;
        complWasReady := respReady;
      }
    }

    /** The address channel, as in the RTL writer: a duplicate pending id
        or a non-INCR burst aborts. */
    method AcceptAddr(a: AddrChannel) returns (ok: bool)
      requires Valid()
      modifies this`addrReady, this`pending
      ensures addrReady
      ensures ok <==> !a.valid || (a.burst == Incr && !HasId(old(pending), a.id))
      ensures ok ==> Valid()
      ensures ok && a.valid ==> pending == old(pending) + [NewOp(a)]
      ensures !a.valid ==> pending == old(pending)
    {
      addrReady := true;
      var op;
      ok, op := AxiRtl.AcceptBurst(a);
      if !ok || op.None? {
        return;
      }
      var dup := AxiRtl.FindId(pending, a.id);
      if dup {
        return false;
      }
      NewOpWholeBeats(a);
      DistinctAppend(pending, op.value);
      pending := pending + [op.value];
    }

    /**
     * The data channel: a valid beat's `min(db - (addr + off) % db, step)`
     * bytes from lane `(addr + off) % db` land at the oldest pending
     * burst's offset, which advances a full beat. Whole beats never run
     * past the length, so only a beat with nothing pending, or the final
     * beat without `last`, aborts; the final beat hands the burst to
     * `doWrite`.
     */
    method AcceptData(d: AxiRtl.DataChannel) returns (ok: bool, toWrite: Option<AxiOp>)
      requires Valid() && |d.data| == dataBytes
      modifies this`dataReady, this`pending
      ensures dataReady
      ensures ok ==> Valid()
      ensures !ok ==> toWrite == None
      ensures toWrite.Some? ==> toWrite.value.off == toWrite.value.len && d.last
      ensures !d.valid ==> ok && toWrite == None && pending == old(pending)
      ensures d.valid && old(pending) == [] ==> !ok
      ensures d.valid && old(pending) != [] ==>
        var op := old(pending)[0];
        var at := (op.addr + op.off) % dataBytes;
        var n := BeatBytes(dataBytes, op.addr, op.off, op.stepSize);
        op.off + n <= op.len &&
        (ok <==> op.off + op.stepSize < op.len || d.last) &&
        (ok ==>
          var op' := Filled(op, d.data, at, n, op.stepSize);
          (op'.off < op.len ==> toWrite == None && pending == [op'] + old(pending)[1..]) &&
          (op'.off == op.len ==> toWrite == Some(op') && pending == old(pending)[1..]))
    {
      dataReady := true;
      toWrite := None;
      if !d.valid {
        return true, None;
      }
      if pending == [] {
        return false, None;
      }
      var op := pending[0];
      var at := (op.addr + op.off) % dataBytes;
      var n := BeatBytes(dataBytes, op.addr, op.off, op.stepSize);
      BeatFits(op.off, op.len, op.stepSize);
      op := Filled(op, d.data, at, n, op.stepSize);
      DistinctReplaceHead(pending, op);
      WholeReplaceHead(pending, op);
      if op.off == op.len {
        if !d.last {
          return false, None;
        }
        pending := pending[1..];
        return true, Some(op);
      }
      pending := [op] + pending[1..];
      return true, None;
    }

    /** `step(ts)`: before `suspend_until` nothing happens; otherwise the
        response, address and data channels in turn, and a burst handed to
        `doWrite` suspends the writer for `WriteSuspend`. */
    method Step(ts: nat, respReady: bool, a: AddrChannel, d: AxiRtl.DataChannel) returns (ok: bool, toWrite: Option<AxiOp>)
      requires Valid() && |d.data| == dataBytes
      modifies this`mainTime, this`suspendUntil, this`addrReady, this`dataReady, this`pending, this`completed
      modifies this`complOp, this`complWasReady, this`respValid, this`respId, this`responded
      ensures mainTime == ts && (ok ==> Valid())
      ensures ts < old(suspendUntil) ==>
        ok && toWrite == None && pending == old(pending) && completed == old(completed) &&
        complOp == old(complOp) && respValid == old(respValid) && suspendUntil == old(suspendUntil)
      ensures toWrite.Some? ==> toWrite.value.off == toWrite.value.len && suspendUntil == ts + WriteSuspend
      ensures ts >= old(suspendUntil) && toWrite.None? ==> suspendUntil == old(suspendUntil)
    {
      mainTime := ts;
      toWrite := None;
      if mainTime < suspendUntil {
        return true, None;
      }
      Respond(respReady);
      ok := AcceptAddr(a);
      if !ok {
        return;
      }
      ok, toWrite := AcceptData(d);
      if toWrite.Some? {
        suspendUntil := mainTime + WriteSuspend;
      }
    }
  }
}

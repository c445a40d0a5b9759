// The MMIO master of the Verilator JPEG decoder: register reads and writes
// from the host wait in a FIFO queue and are driven one at a time over an
// AXI-Lite port, a read through its address and data channels, a write
// through its address, data and response channels. Each call of `Step` is
// one clock step; the chip's outputs (`arready`, `rvalid`, `rdata`,
// `awready`, `wready`, `bvalid`) are its inputs, and the operation handed
// to the `mmio_done` callback is its result.
module Mmio {
  import opened Arith
  import opened MemReqs
  import opened Wrappers
  import opened RegisterFile

  /** `MMIOOp`: the host's request id, the register address, the 32-bit
      value (written, or read back) and the access length. */
  datatype MmioOp = MmioOp(id: nat, addr: nat, value: nat, len: nat, isWrite: bool)

  /** The chip's side of the port during one step. */
  datatype MmioIn = MmioIn(arready: bool, rvalid: bool, rdata: seq<Byte>, awready: bool, wready: bool, bvalid: bool)

  /** The operations of an optional one. */
  function Listed(o: Option<MmioOp>): (r: seq<MmioOp>)
    ensures |r| <= 1 && (o.Some? ==> r == [o.value]) && (o.None? ==> r == [])
  {
    if o.Some? then [o.value] else []
  }

  /** The little-endian value of a byte string. */
  function LeNat(b: seq<Byte>): (r: nat)
    ensures r < Pow2(8 * |b|)
  {
    if b == [] then 0
    else
      var rest := LeNat(b[1..]);
      var p := Pow2(8 * (|b| - 1));
      Pow2Add(8, 8 * (|b| - 1));
      Pow2Byte();
      MulLe(256, rest, 256, p - 1);
      b[0] + 256 * rest
  }

  /** The bytes a lane of `width` bytes starting at `off` takes of a 32-bit
      value: `min(width - off, 4)`. */
  function LaneBytes(width: nat, off: nat): (n: nat)
    requires off < width
    ensures 0 < n <= 4 && off + n <= width
  {
    Min(width - off, 4)
  }

  class MmioInterface {
    /** `queue` */
    var queue: seq<MmioOp>
    /** `rCur` and `wCur`, the active read and write. */
    var rCur: Option<MmioOp>
    var wCur: Option<MmioOp>
    /** Whether the address, data and response handshakes are done. */
    var rAAck: bool
    var rDAck: bool
    var wAAck: bool
    var wDAck: bool
    var wBAck: bool
    /** `main_time` */
    var mainTime: nat
    /** The signals the interface drives. */
    var araddr: nat
    var arvalid: bool
    var rready: bool
    var awaddr: nat
    var awvalid: bool
    var wdata: seq<Byte>
    var wstrb: seq<Byte>
    var wvalid: bool
    var bready: bool
    /** `(addrBits + 7) / 8`, `(dataBits + 7) / 8` and the byte width of the
        strobe port. */
    const addrBytes: nat
    const portWidth: nat
    const strbBytes: nat

    /** Every operation ever issued, those taken off the queue, and those
        handed to `mmio_done` (as they were taken), in order; and the
        active operation as it was taken. */
    ghost var enqueued: seq<MmioOp>
    ghost var taken: seq<MmioOp>
    ghost var completed: seq<MmioOp>
    ghost var active: Option<MmioOp>

    /**
     * At most one operation is active; the queue holds exactly the issued
     * operations not yet taken, in issue order; and operations complete in
     * the order they were taken, the active one being the last taken.
     */
    ghost predicate Valid()
      reads this`rCur, this`wCur, this`queue, this`enqueued, this`taken, this`completed, this`active, this`wdata, this`wstrb
    {
      !(rCur.Some? && wCur.Some?) &&
      taken + queue == enqueued &&
      completed + Listed(active) == taken &&
      (rCur.Some? ==> active.Some? && rCur.value == active.value.(value := rCur.value.value)) &&
      (wCur.Some? ==> active == wCur) &&
      (rCur.None? && wCur.None? ==> active.None?) &&
      |wdata| == portWidth && |wstrb| == strbBytes && portWidth > 0
    }

    /** `MMIOInterface(mmio_done, ports)`: no operation active or waiting;
        the handshake flags, left uninitialised by the source, start false. */
    constructor (addrBits: nat, dataBits: nat, strbBytes: nat)
      requires dataBits > 0
      ensures Valid() && queue == [] && rCur == None && wCur == None
      ensures addrBytes == (addrBits + 7) / 8 && portWidth == (dataBits + 7) / 8 && this.strbBytes == strbBytes
    {
      addrBytes := (addrBits + 7) / 8;
      portWidth := (dataBits + 7) / 8;
      this.strbBytes := strbBytes;
      queue, rCur, wCur := [], None, None;
      rAAck, rDAck, wAAck, wDAck, wBAck := false, false, false, false, false;
      mainTime := 0;
      araddr, arvalid, rready, awaddr, awvalid := 0, false, false, 0, false;
      wdata := seq((dataBits + 7) / 8, _ => 0);
      wstrb := seq(strbBytes, _ => 0);
      wvalid, bready := false, false;
      enqueued, taken, completed, active := [], [], [], None;
    }

    /** `issueRead(id, addr, len)`: one read at the back of the queue; its
        value is filled in by the data handshake. */
    method IssueRead(id: nat, addr: nat, len: nat)
      requires Valid()
      modifies this`queue, this`enqueued
      ensures Valid()
      ensures queue == old(queue) + [MmioOp(id, addr, 0, len, false)]
    {
      queue := queue + [MmioOp(id, addr, 0, len, false)];
      enqueued := enqueued + [MmioOp(id, addr, 0, len, false)];
    }

    /** `issueWrite(id, addr, len, val)`: one write at the back of the
        queue, its 64-bit value truncated to the 32-bit field. */
    method IssueWrite(id: nat, addr: nat, len: nat, val: nat)
      requires Valid()
      modifies this`queue, this`enqueued
      ensures Valid()
      ensures queue == old(queue) + [MmioOp(id, addr, ToU32(val), len, true)]
    {
      queue := queue + [MmioOp(id, addr, ToU32(val), len, true)];
      enqueued := enqueued + [MmioOp(id, addr, ToU32(val), len, true)];
    }

    /**
     * The read branch of `step`. A read whose data handshake was done in
     * the previous step completes: `rready` drops and the operation goes to
     * `mmio_done`. Otherwise, with `rvalid` up (which requires the address
     * handshake; the source asserts it, `ok` false), the value takes the
     * `min(width - off, 4)` bytes of `rdata` at lane `addr % width` and the
     * data handshake is done. Then the address handshake completes when
     * `arvalid` and either `arready` or an earlier acknowledgement hold.
     */
    method ReadStep(inp: MmioIn) returns (ok: bool, done: Option<MmioOp>)
      requires Valid() && rCur.Some? && |inp.rdata| == portWidth
      modifies this`rCur, this`rDAck, this`rready, this`arvalid, this`rAAck, this`completed, this`active
      ensures Valid()
      ensures ok <==> old(rDAck) || !inp.rvalid || old(rAAck)
      ensures old(rDAck) ==>
        ok && done == old(rCur) && rCur == None && !rready && rDAck && completed == old(completed) + [old(active).value]
      ensures !old(rDAck) ==> done == None && rready == old(rready) && completed == old(completed) && active == old(active)
      ensures !old(rDAck) && inp.rvalid && ok ==>
        var op := old(rCur).value;
        var off := op.addr % portWidth;
        rCur == Some(op.(value := LeNat(inp.rdata[off..off + LaneBytes(portWidth, off)]))) && rDAck
      ensures !old(rDAck) && !inp.rvalid ==> rCur == old(rCur) && rDAck == old(rDAck)
      ensures ok ==>
        (old(arvalid) && (inp.arready || old(rAAck)) ==> !arvalid && rAAck) &&
        (!(old(arvalid) && (inp.arready || old(rAAck))) ==> arvalid == old(arvalid) && rAAck == old(rAAck))
    {
      done := None;
      if rDAck {
        rready := false;
        done := rCur;
        completed := completed + [active.value];
        active := None;
        rCur := None;
      } else if inp.rvalid {
        if !rAAck {
          return false, None;
        }
        var op := rCur.value;
        var off := op.addr % portWidth;
        rCur := Some(op.(value := LeNat(inp.rdata[off..off + LaneBytes(portWidth, off)])));
        rDAck := true;
      }
      ReadAddrHandshake(inp);
      ok := true;
    }

    /** The address handshake of a read completes when `arvalid` and either
        `arready` or an earlier acknowledgement hold, lowering `arvalid`. */
    method ReadAddrHandshake(inp: MmioIn)
      modifies this`arvalid, this`rAAck
      ensures old(arvalid) && (inp.arready || old(rAAck)) ==> !arvalid && rAAck
      ensures !(old(arvalid) && (inp.arready || old(rAAck))) ==> arvalid == old(arvalid) && rAAck == old(rAAck)
    {
      if arvalid && (inp.arready || rAAck) {
        arvalid := false;
        rAAck := true;
      }
    }

    /**
     * The write branch of `step`. A write whose response was acknowledged
     * in the previous step completes: `bready` drops and the operation goes
     * to `mmio_done`. Otherwise `bvalid` (which requires the address and
     * data handshakes; the source asserts it, `ok` false) acknowledges the
     * response. Then the data handshake completes when `wvalid` and either
     * `wready` or an earlier acknowledgement hold, lowering `wvalid`; and
     * the address handshake completes when `awvalid` and either `awready`
     * or an earlier acknowledgement hold, lowering `awvalid`, raising
     * `wvalid`, and taking the data as acknowledged if `wready` is up.
     */
    method WriteStep(inp: MmioIn) returns (ok: bool, done: Option<MmioOp>)
      requires Valid() && wCur.Some?
      modifies this`wCur, this`wBAck, this`bready, this`wvalid, this`wDAck, this`awvalid, this`wAAck
      modifies this`completed, this`active
      ensures Valid()
      ensures ok <==> old(wBAck) || !inp.bvalid || (old(wAAck) && old(wDAck))
      ensures old(wBAck) ==>
        ok && done == old(wCur) && wCur == None && !bready && completed == old(completed) + [old(wCur).value]
      ensures !old(wBAck) ==>
        done == None && wCur == old(wCur) && bready == old(bready) && completed == old(completed) && active == old(active)
      ensures !old(wBAck) && ok ==> wBAck == (old(wBAck) || inp.bvalid)
      ensures ok ==> Handshaken(old(awvalid), old(wAAck), old(wvalid), old(wDAck), inp)
    {
      done := None;
      if wBAck {
        bready := false;
        done := wCur;
        completed := completed + [active.value];
        active := None;
        wCur := None;
      } else if inp.bvalid {
        if !(wAAck && wDAck) {
          return false, None;
        }
        wBAck := true;
      }
      WriteHandshakes(inp);
      ok := true;
    }

    /** The address and data handshakes of a write, the data one first. */
    ghost predicate Handshaken(awvalid0: bool, wAAck0: bool, wvalid0: bool, wDAck0: bool, inp: MmioIn)
      reads this`awvalid, this`wAAck, this`wvalid, this`wDAck
    {
      var dataDone := wvalid0 && (inp.wready || wDAck0);
      var addrDone := awvalid0 && (inp.awready || wAAck0);
      (addrDone ==> !awvalid && wAAck && wvalid && wDAck == inp.wready) &&
      (!addrDone ==> (awvalid == awvalid0 && wAAck == wAAck0 &&
        wvalid == (wvalid0 && !dataDone) && wDAck == (wDAck0 || dataDone)))
    }

    /** The data handshake completes when `wvalid` and either `wready` or
        an earlier acknowledgement hold; then the address handshake when
        `awvalid` and either `awready` or an earlier acknowledgement hold,
        raising `wvalid` and taking the data as acknowledged iff `wready`. */
    method WriteHandshakes(inp: MmioIn)
      modifies this`wvalid, this`wDAck, this`awvalid, this`wAAck
      ensures Handshaken(old(awvalid), old(wAAck), old(wvalid), old(wDAck), inp)
    {
      if wvalid && (inp.wready || wDAck) {
        wvalid := false;
        wDAck := true;
      }
      if awvalid && (inp.awready || wAAck) {
        awvalid := false;
        wAAck := true;
        wDAck := inp.wready;
        wvalid := true;
      }
    }

    /**
     * The issue branch of `step`, with no operation active: the front of
     * the queue becomes active. A read drives its address (truncated to
     * the address port), raises `arvalid` and `rready`, takes `arready` as
     * the address acknowledgement and clears the data acknowledgement. A
     * write drives its address, raises `awvalid` and `bready`, takes
     * `awready` as the address acknowledgement, puts `min(width - off, 4)`
     * bytes of its value on lane `off = addr % width`, sets strobe byte
     * `off` to `0xF` (past the strobe port the store is out of bounds,
     * `ok` false), and clears `wvalid` and the data and response
     * acknowledgements.
     */
    method Issue(inp: MmioIn) returns (ok: bool)
      requires Valid() && rCur == None && wCur == None && queue != []
      modifies this`queue, this`taken, this`active, this`rCur, this`wCur
      modifies this`araddr, this`rAAck, this`arvalid, this`rDAck, this`rready
      modifies this`awaddr, this`wAAck, this`awvalid, this`wdata, this`wstrb, this`wDAck, this`wvalid
      modifies this`wBAck, this`bready
      ensures Valid()
      ensures queue == old(queue)[1..] && taken == old(taken) + [old(queue)[0]]
      ensures !old(queue)[0].isWrite ==>
        ok && rCur == Some(old(queue)[0]) && wCur == None && ReadDriven(old(queue)[0], inp) &&
        unchanged(this`awaddr, this`awvalid, this`wdata, this`wstrb, this`wvalid, this`bready)
      ensures old(queue)[0].isWrite ==>
        (ok <==> old(queue)[0].addr % portWidth < strbBytes) && wCur == Some(old(queue)[0]) && rCur == None &&
        unchanged(this`araddr, this`arvalid, this`rready) &&
        (ok ==> WriteDriven(old(queue)[0], old(wdata), old(wstrb), inp))
    {
      var op := Take();
      if !op.isWrite {
        DriveRead(op, inp);
        return true;
      }
      ok := DriveWrite(op, inp);
    }

    /** The front of the queue is taken and becomes the active read or
        write. */
    method Take() returns (op: MmioOp)
      requires Valid() && rCur == None && wCur == None && queue != []
      modifies this`queue, this`taken, this`active, this`rCur, this`wCur
      ensures Valid() && op == old(queue)[0]
      ensures queue == old(queue)[1..] && taken == old(taken) + [op]
      ensures !op.isWrite ==> rCur == Some(op) && wCur == None
      ensures op.isWrite ==> wCur == Some(op) && rCur == None
    {
      op := queue[0];
      queue := queue[1..];
      taken := taken + [op];
      active := Some(op);
      if op.isWrite {
        wCur := Some(op);
      } else {
        rCur := Some(op);
      }
    }

    /** The read port once a read is issued. */
    ghost predicate ReadDriven(op: MmioOp, inp: MmioIn)
      reads this`araddr, this`rAAck, this`arvalid, this`rDAck, this`rready
    {
      araddr == op.addr % Pow2(8 * addrBytes) && rAAck == inp.arready && arvalid && !rDAck && rready
    }

    /** The write port once a write is issued over `wdata0` and `wstrb0`. */
    ghost predicate WriteDriven(op: MmioOp, wdata0: seq<Byte>, wstrb0: seq<Byte>, inp: MmioIn)
      reads this`awaddr, this`wAAck, this`awvalid, this`wdata, this`wstrb, this`wDAck, this`wvalid, this`wBAck, this`bready
    {
      portWidth > 0 &&
      var off := op.addr % portWidth;
      off < |wstrb0| && off + LaneBytes(portWidth, off) <= |wdata0| &&
      awaddr == op.addr % Pow2(8 * addrBytes) && wAAck == inp.awready && awvalid &&
      wdata == wdata0[..off] + LeBytes(op.value)[..LaneBytes(portWidth, off)] + wdata0[off + LaneBytes(portWidth, off)..] &&
      wstrb == wstrb0[off := 0xF] && !wDAck && !wvalid && !wBAck && bready
    }

    /** A read drives its address (truncated to the address port), raises
        `arvalid` and `rready`, takes `arready` as the address
        acknowledgement and clears the data acknowledgement. */
    method DriveRead(op: MmioOp, inp: MmioIn)
      modifies this`araddr, this`rAAck, this`arvalid, this`rDAck, this`rready
      ensures ReadDriven(op, inp)
    {
      araddr := op.addr % Pow2(8 * addrBytes);
      rAAck := inp.arready;
      arvalid := true;
      rDAck := false;
      rready := true;
    }

    /** A write drives its address, raises `awvalid` and `bready`, takes
        `awready` as the address acknowledgement, puts `min(width - off, 4)`
        bytes of its value on lane `off = addr % width`, sets strobe byte
        `off` to `0xF` (past the strobe port that store is out of bounds:
        `ok` false, nothing driven), and clears `wvalid` and the data and
        response acknowledgements. */
    method DriveWrite(op: MmioOp, inp: MmioIn) returns (ok: bool)
      requires |wdata| == portWidth && portWidth > 0 && |wstrb| == strbBytes
      modifies this`awaddr, this`wAAck, this`awvalid, this`wdata, this`wstrb, this`wDAck, this`wvalid
      modifies this`wBAck, this`bready
      ensures |wdata| == portWidth && |wstrb| == strbBytes
      ensures ok <==> op.addr % portWidth < strbBytes
      ensures ok ==> WriteDriven(op, old(wdata), old(wstrb), inp)
    {
      var off := op.addr % portWidth;
      if off >= strbBytes {
        return false;
      }
      awaddr := op.addr % Pow2(8 * addrBytes);
      wAAck := inp.awready;
      awvalid := true;
      var n := LaneBytes(portWidth, off);
      wdata := wdata[..off] + LeBytes(op.value)[..n] + wdata[off + n..];
      wstrb := wstrb[off := 0xF];
      wDAck := false;
      wvalid := false;
      wBAck := false;
      bready := true;
      return true;
    }

    /**
     * `step(update_ts)`: the time is updated; an active read is served
     * first, else an active write, else a new operation is issued if one
     * waits. Nothing else is ever active alongside, the queue stays FIFO,
     * and operations complete in the order they were issued.
     */
    method Step(ts: nat, inp: MmioIn) returns (ok: bool, done: Option<MmioOp>)
      requires Valid() && |inp.rdata| == portWidth
      modifies this
      ensures Valid() && mainTime == ts
      ensures old(rCur).Some? ==> wCur == old(wCur) && queue == old(queue)
      ensures old(rCur).None? && old(wCur).Some? ==> rCur == None && queue == old(queue)
      ensures old(rCur).None? && old(wCur).None? && old(queue) != [] ==>
        done == None && queue == old(queue)[1..] && (rCur == Some(old(queue)[0]) || wCur == Some(old(queue)[0]))
      ensures old(rCur).None? && old(wCur).None? && old(queue) == [] ==>
        ok && done == None && rCur == None && wCur == None && queue == []
      ensures done.Some? ==> completed == old(completed) + [done.value.(value := old(active).value.value)]
      ensures done.None? ==> completed == old(completed)
    {
      mainTime := ts;
      if rCur.Some? {
        ok, done := ReadStep(inp);
      } else if wCur.Some? {
        ok, done := WriteStep(inp);
      } else if queue != [] {
        ok := Issue(inp);
        done := None;
      } else {
        ok, done := true, None;
      }
    }
  }

  /** Two issues come out of the queue in the order they went in: the
      operations taken so far followed by those waiting are exactly the
      operations issued. */
  lemma QueueIsFifo(m: MmioInterface)
    requires m.Valid()
    ensures |m.taken| <= |m.enqueued| && m.queue == m.enqueued[|m.taken|..]
    ensures |m.completed| <= |m.enqueued| && m.completed == m.enqueued[..|m.completed|]
  {
    assert m.enqueued[..|m.taken|] == m.taken;
    assert m.taken[..|m.completed|] == m.completed;
  }
}

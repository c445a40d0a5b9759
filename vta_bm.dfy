// The VTA behavioural model on the PCIe base: a register file the host
// programs over BAR 0, and a DMA scheduler that serves the functional
// simulator's DRAM request queues in chunks of at most 2048 bytes, one
// in-flight chunk per queue.
//
// The calls out of these handlers are boundaries of the model:
// `VTADeviceRun` (modelled by `VtaDevice.Device.Run`), `NextCommitTime`/
// `CommitAtTime` (the `LpnEngine`) and `EventNext` (`PcieBm`) run between the
// methods below, and their results are parameters.
module VtaBm {
  import opened Arith
  import opened MemReqs
  import opened Wrappers
  import opened RegisterFile
  import opened VtaIsa
  import PcieBm
  import LpnEngine

  /** `sizeof(VTARegs)`: nine 32-bit fields. */
  const RegsSize: nat := 36
  const StatusOff: nat := 0
  const InsnAddrLoOff: nat := 12
  const InsnAddrHiOff: nat := 16
  /** `NUM_INSN`, the fixed instruction count of every device run. */
  const NumInsn: nat := 142
  /** `DMA_BLOCK_SIZE` of the VTA model. */
  const DmaBlock: nat := 2048
  /** The queues of `dram_req_map`, one per request id, in key order. */
  const NumQueues: nat := 6

  /** `DramReq`: a request and whether a DMA for it is in flight. */
  datatype DramReq = DramReq(req: MemReq, inflight: bool)

  /** A DMA handed to `IssueDma`; payloads are not tracked. */
  datatype Dma = Dma(write: bool, addr: nat, len: nat, tag: nat)

  /** The next chunk of a request: `min(len - acquired_len, 2048)` bytes at
      `addr + acquired_len`, the difference taken on 32-bit unsigned values. */
  function NextChunk(r: MemReq): (d: Dma)
    ensures d.len <= DmaBlock && d.tag == r.id && (d.write <==> r.rw == WriteReq)
    ensures r.acquiredLen <= r.len < U32 ==> d.len == Min(r.len - r.acquiredLen, DmaBlock)
    ensures d.addr == ToU64(r.addr + r.acquiredLen)
  {
    var d := Dma(r.rw == WriteReq, ToU64(r.addr + r.acquiredLen), Min(ToU32(r.len - r.acquiredLen), DmaBlock), r.id);
    if r.acquiredLen <= r.len < U32 then
      DivModUnique(r.len - r.acquiredLen, 0, U32, r.len - r.acquiredLen); d
    else d
  }

  /** A queue whose front request waits for a DMA: not in flight, not complete. */
  predicate Eligible(q: seq<DramReq>) {
    q != [] && !q[0].inflight && q[0].req.len != q[0].req.acquiredLen
  }

  /** The DMAs one scan of `dram_req_map` issues from the queues before `k`, in key order. */
  function PendingTo(dram: seq<seq<DramReq>>, k: nat): (r: seq<Dma>)
    requires k <= |dram|
    ensures |r| <= k
  {
    if k == 0 then []
    else PendingTo(dram, k - 1) + (if Eligible(dram[k - 1]) then [NextChunk(dram[k - 1][0].req)] else [])
  }

  /** The queue after the scan: an eligible front is marked in flight. */
  function Marked(q: seq<DramReq>): (r: seq<DramReq>)
    ensures |r| == |q| && !Eligible(r)
    ensures Eligible(q) ==> r[0] == q[0].(inflight := true) && r[1..] == q[1..]
    ensures !Eligible(q) ==> r == q
  {
    if Eligible(q) then [q[0].(inflight := true)] + q[1..] else q
  }

  /** Each eligible queue contributes exactly one DMA, for its front request. */
  lemma {:induction false} PendingCount(dram: seq<seq<DramReq>>, k: nat)
    requires k <= |dram|
    ensures |PendingTo(dram, k)| == |set i | 0 <= i < k && Eligible(dram[i])|
  {
    var s := set i | 0 <= i < k && Eligible(dram[i]);
    if k > 0 {
      PendingCount(dram, k - 1);
      var s1 := set i | 0 <= i < k - 1 && Eligible(dram[i]);
      if Eligible(dram[k - 1]) {
        assert s == s1 + {k - 1};
      } else {
        assert s == s1;
      }
    } else {
      assert s == {};
    }
  }

  class VtaBm {
    /** `Registers_`, as the bytes of the packed `VTARegs`. */
    var regs: seq<Byte>
    /** `dram_req_map`, indexed by request id; an absent key is an empty queue. */
    var dram: seq<seq<DramReq>>
    /** The `lpn_req_map` queues. */
    var lpnReqs: seq<seq<MemReq>>
    /** The DMAs handed to `IssueDma`, oldest first. */
    var issued: seq<Dma>
    /** The events handed to `EventSchedule`, oldest first. */
    var scheduled: seq<PcieBm.TimedEvent>

    ghost predicate Valid()
      reads this`regs, this`dram, this`lpnReqs
    {
      |regs| == RegsSize && |dram| == NumQueues && |lpnReqs| == NumQueues
    }

    /** The zero-initialised static `VTABm`. */
    constructor ()
      ensures Valid() && issued == [] && scheduled == []
      ensures forall i :: 0 <= i < RegsSize ==> regs[i] == 0
      ensures forall k :: 0 <= k < NumQueues ==> dram[k] == [] && lpnReqs[k] == []
    {
      regs := seq(RegsSize, _ => 0);
      dram := seq(NumQueues, _ => []);
      lpnReqs := seq(NumQueues, _ => []);
      issued, scheduled := [], [];
    }

    function Status(): nat
      requires Valid()
      reads this`regs, this`dram, this`lpnReqs
    {
      LeU32(regs, StatusOff)
    }

    /** The instruction address `(insn_phy_addr_hh << 32) | insn_phy_addr_lh`. */
    function InsnAddr(): (r: nat)
      requires Valid()
      reads this`regs, this`dram, this`lpnReqs
      ensures r < U64
    {
      LeU32(regs, InsnAddrHiOff) * U32 + LeU32(regs, InsnAddrLoOff)
    }

    /** `RegRead(bar, addr, dest, len)` */
    function RegRead(bar: nat, addr: nat, len: nat): (r: Option<seq<Byte>>)
      requires Valid()
      reads this`regs, this`dram, this`lpnReqs
      ensures r.Some? <==> bar == 0 && addr + len <= RegsSize
      ensures r.Some? ==> r.value == regs[addr..addr + len]
    {
      Read(regs, bar, addr, len)
    }

    /**
     * `RegWrite(bar, addr, src, len)` up to the device run: another BAR or
     * an access past the end is ignored (`accepted` false, nothing
     * changes); otherwise the `len` bytes are copied in, and when bit 0 of
     * `status` is then set the device is to run `NUM_INSN` instructions at
     * the instruction address (`run`).
     */
    method RegWrite(bar: nat, addr: nat, src: seq<Byte>) returns (accepted: bool, run: Option<(nat, nat)>)
      requires Valid()
      modifies this`regs
      ensures Valid()
      ensures accepted <==> bar == 0 && addr + |src| <= RegsSize
      ensures !accepted ==> regs == old(regs) && run == None
      ensures accepted ==> Write(old(regs), bar, addr, src) == Some(regs)
      ensures accepted && Status() % 2 == 1 ==> run == Some((InsnAddr(), NumInsn))
      ensures accepted && Status() % 2 == 0 ==> run == None
    {
      var w := Write(regs, bar, addr, src);
      if w.None? {
        return false, None;
      }
      regs := w.value;
      if Status() % 2 == 1 {
        run := Some((InsnAddr(), NumInsn));
      } else {
        run := None;
      }
      accepted := true;
    }

    /** The tail of `RegWrite`, after the device run: a read of the next
        chunk of the front instruction-fetch request, if there is one; the
        request is not marked in flight. */
    method FetchInsn()
      requires Valid()
      modifies this`issued
      ensures var q := dram[LoadInsnId];
        issued == old(issued) + (if q != [] && q[0].req.rw == ReadReq then [NextChunk(q[0].req)] else [])
    {
      var q := dram[LoadInsnId];
      if q != [] && q[0].req.rw == ReadReq {
        issued := issued + [NextChunk(q[0].req)];
      }
    }

    /**
     * The bookkeeping of `DmaComplete(op)`, up to the device run: the front
     * request of queue `op.tag` is no longer in flight and has `op.len`
     * more bytes (a 32-bit counter), and so has the front of the matching
     * `lpn_req_map` queue, if any. A completion for an empty queue
     * dereferences a null front (`ok` false, nothing changes).
     */
    method AcceptDma(op: Dma) returns (ok: bool)
      requires Valid()
      modifies this`dram, this`lpnReqs
      ensures Valid()
      ensures ok <==> op.tag < NumQueues && old(dram)[op.tag] != []
      ensures !ok ==> dram == old(dram) && lpnReqs == old(lpnReqs)
      ensures ok ==>
        var q := old(dram)[op.tag];
        dram == old(dram)[op.tag := [DramReq(q[0].req.(acquiredLen := ToU32(q[0].req.acquiredLen + op.len)), false)] + q[1..]]
      ensures ok ==>
        var l := old(lpnReqs)[op.tag];
        lpnReqs == old(lpnReqs)[op.tag := if l == [] then [] else [l[0].(acquiredLen := ToU32(l[0].acquiredLen + op.len))] + l[1..]]
    {
      if op.tag >= NumQueues || dram[op.tag] == [] {
        return false;
      }
      var q := dram[op.tag];
      var front := q[0].req.(acquiredLen := ToU32(q[0].req.acquiredLen + op.len));
      dram := dram[op.tag := [DramReq(front, false)] + q[1..]];
      var l := lpnReqs[op.tag];
      if l != [] {
        lpnReqs := lpnReqs[op.tag := [l[0].(acquiredLen := ToU32(l[0].acquiredLen + op.len))] + l[1..]];
      }
      return true;
    }

    /** After a device run: a zero result (which `VTADeviceRun` always
        returns) marks the functional simulation done, `status = 0x4`. */
    method RunDone(ret: int)
      requires Valid()
      modifies this`regs
      ensures Valid()
      ensures ret == 0 ==> regs == SetLeU32(old(regs), StatusOff, 4) && Status() == 4
      ensures ret != 0 ==> regs == old(regs)
    {
      if ret == 0 {
        regs := SetLeU32(regs, StatusOff, 4);
      }
    }

    /**
     * The scan of `dram_req_map` in key order: every queue whose front
     * request is neither in flight nor complete gets one DMA for its next
     * chunk, and that front is marked in flight. Afterwards no queue
     * waits.
     */
    method IssuePending()
      requires Valid()
      modifies this`dram, this`issued
      ensures Valid()
      ensures issued == old(issued) + PendingTo(old(dram), NumQueues)
      ensures forall k :: 0 <= k < NumQueues ==> dram[k] == Marked(old(dram)[k])
      ensures forall k :: 0 <= k < NumQueues ==> !Eligible(dram[k])
    {
      ghost var d0 := dram;
      var ds, out := dram, [];
      var k := 0;
      while k < NumQueues
        invariant 0 <= k <= NumQueues && |ds| == NumQueues
        invariant out == PendingTo(d0, k)
        invariant forall j :: 0 <= j < k ==> ds[j] == Marked(d0[j])
        invariant forall j :: k <= j < NumQueues ==> ds[j] == d0[j]
      {
        var q := ds[k];
        if Eligible(q) {
          out := out + [NextChunk(q[0].req)];
          ds := ds[k := Marked(q)];
        }
        k := k + 1;
      }
      issued := issued + out;
      dram := ds;
    }

    /**
     * The scheduling step of both handlers: the LPN's next commit time
     * `nextTs` may not lie before `now` (the source asserts it; `ok` false),
     * and an event at `nextTs` is scheduled exactly when the net has one
     * and nothing is scheduled at or before it.
     */
    method MaybeSchedule(nextTs: int, nextScheduled: Option<nat>, now: nat) returns (ok: bool)
      modifies this`scheduled
      ensures ok <==> nextTs >= now
      ensures ok && PcieBm.ShouldSchedule(nextTs, nextScheduled) ==> scheduled == old(scheduled) + [PcieBm.TimedEvent(nextTs, 0)]
      ensures !(ok && PcieBm.ShouldSchedule(nextTs, nextScheduled)) ==> scheduled == old(scheduled)
    {
      if nextTs < now {
        return false;
      }
      if PcieBm.ShouldSchedule(nextTs, nextScheduled) {
        scheduled := scheduled + [PcieBm.TimedEvent(nextTs, 0)];
      }
      return true;
    }

    /** The end of both handlers: with the functional simulation done
        (`0x4`), no LPN event ahead and none scheduled, `status` becomes `0x2`. */
    method IdleCheck(nextTs: int, nextScheduled: Option<nat>)
      requires Valid()
      modifies this`regs
      ensures Valid()
      ensures old(Status()) == 4 && nextTs == LpnEngine.LARGE && nextScheduled.None? ==>
        regs == SetLeU32(old(regs), StatusOff, 2) && Status() == 2
      ensures !(old(Status()) == 4 && nextTs == LpnEngine.LARGE && nextScheduled.None?) ==> regs == old(regs)
    {
      if nextTs == LpnEngine.LARGE && Status() == 4 && nextScheduled.None? {
        regs := SetLeU32(regs, StatusOff, 2);
      }
    }

    /** The start of `ExecuteEvent`, after `CommitAtTime`: with nothing left
        to commit and the functional simulation done, `status = 0x2` and the
        handler stops (`stop`); otherwise it goes on to `MaybeSchedule`. */
    method EventStop(nextTs: int) returns (stop: bool)
      requires Valid()
      modifies this`regs
      ensures Valid()
      ensures stop <==> nextTs == LpnEngine.LARGE && old(Status()) == 4
      ensures stop ==> regs == SetLeU32(old(regs), StatusOff, 2)
      ensures !stop ==> regs == old(regs)
    {
      stop := nextTs == LpnEngine.LARGE && Status() == 4;
      if stop {
        regs := SetLeU32(regs, StatusOff, 2);
      }
    }
  }

  /** A DMA never exceeds the VTA block or the bytes a request still lacks. */
  lemma ChunkBounds(r: MemReq)
    requires r.acquiredLen < r.len < U32
    ensures 0 < NextChunk(r).len <= DmaBlock && r.acquiredLen + NextChunk(r).len <= r.len
  {
  }

  /** Repeated chunks fetch a request exactly: after a completion of the
      next chunk the request lacks that many bytes fewer. */
  lemma ChunkProgress(r: MemReq)
    requires r.acquiredLen < r.len < U32
    ensures var d := NextChunk(r);
      ToU32(r.acquiredLen + d.len) == r.acquiredLen + d.len &&
      r.len - (r.acquiredLen + d.len) == r.len - r.acquiredLen - Min(r.len - r.acquiredLen, DmaBlock)
  {
    var d := NextChunk(r);
    DivModUnique(r.acquiredLen + d.len, 0, U32, r.acquiredLen + d.len);
  }
}

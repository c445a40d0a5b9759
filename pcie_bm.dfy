// The PCIe behavioural-model base: a heap of timed events ordered by time
// and then priority, and a DMA engine that keeps at most 64 operations in
// flight and queues the rest in FIFO order. The shared-memory transport is
// abstracted into a log of the messages sent to the host.
module PcieBm {
  import opened Arith
  import opened MemReqs
  import opened Wrappers
  import LpnEngine

  /** `DMA_MAX_PENDING` */
  const DmaMaxPending: nat := 64

  /** `SIMBRICKS_PROTO_PCIE_CTRL_{INTX,MSI,MSIX}_EN`, bit positions of the
      device-control flags (SimBricks' PCIe protocol header is not part of
      this model). */
  const IntxEnBit: nat := 0
  const MsiEnBit: nat := 1
  const MsixEnBit: nat := 2

  /** `TimedEvent` */
  datatype TimedEvent = TimedEvent(time: nat, priority: int)

  /** `TimedEvent::operator>`: later, or as late with a higher priority. */
  predicate Greater(a: TimedEvent, b: TimedEvent) {
    a.time > b.time || (a.time == b.time && a.priority > b.priority)
  }

  lemma GreaterIrreflexive(a: TimedEvent)
    ensures !Greater(a, a)
  {
  }

  lemma GreaterAsymmetric(a: TimedEvent, b: TimedEvent)
    ensures Greater(a, b) ==> !Greater(b, a)
  {
  }

  lemma GreaterTransitive(a: TimedEvent, b: TimedEvent, c: TimedEvent)
    ensures Greater(a, b) && Greater(b, c) ==> Greater(a, c)
  {
  }

  /** Distinct events are always ordered one way or the other. */
  lemma GreaterTotal(a: TimedEvent, b: TimedEvent)
    ensures a != b <==> Greater(a, b) || Greater(b, a)
  {
  }

  /** The top of the `std::greater<>` priority queue: an element no other
      element precedes, i.e. the earliest, ties to the lowest priority. */
  function Earliest(evs: seq<TimedEvent>): (r: TimedEvent)
    requires evs != []
    ensures r in evs
    ensures forall e :: e in evs ==> !Greater(r, e)
    ensures forall e :: e in evs ==> r.time <= e.time
  {
    if |evs| == 1 then evs[0]
    else
      var m := Earliest(evs[1..]);
      assert forall e :: e in evs ==> e == evs[0] || e in evs[1..];
      if Greater(evs[0], m) then m else evs[0]
  }

  /** The first occurrence of `e` taken out of `evs`. */
  function RemoveOne(evs: seq<TimedEvent>, e: TimedEvent): (r: seq<TimedEvent>)
    requires e in evs
    ensures multiset(r) == multiset(evs) - multiset{e}
    ensures |r| == |evs| - 1
  {
    if evs[0] == e then
      assert evs == [evs[0]] + evs[1..];
      evs[1..]
    else
      assert evs == [evs[0]] + evs[1..];
      [evs[0]] + RemoveOne(evs[1..], e)
  }

  /** A DMA operation: direction, host address, length and the device-side
      buffer; `tag` is the request id the behavioural models attach. */
  datatype DmaOp = DmaOp(write: bool, dmaAddr: nat, len: nat, data: seq<Byte>, tag: nat)

  /** The host-bound messages the base sends. */
  datatype D2H =
    | D2HRead(op: DmaOp)
    | D2HWrite(op: DmaOp, payload: seq<Byte>)
    | D2HReadcomp(reqId: nat, data: seq<Byte>)
    | D2HWritecomp(reqId: nat)
    | D2HInterrupt(vector: nat, kind: IntKind)

  /** `SIMBRICKS_PROTO_PCIE_INT_*`, the interrupt kinds. */
  datatype IntKind = Msi | MsiX | LegacyHi | LegacyLo

  /** `op.data` holds at least `op.len` bytes, as the `memcpy` of a write needs. */
  predicate Fits(op: DmaOp) {
    op.len <= |op.data|
  }

  /** `H2DReadcomp`'s copy: the first `len` bytes of the completion land in the op's buffer. */
  function ReadcompData(op: DmaOp, data: seq<Byte>): (r: DmaOp)
    requires op.len <= |data| && Fits(op)
    ensures r.write == op.write && r.dmaAddr == op.dmaAddr && r.len == op.len && r.tag == op.tag
    ensures |r.data| == |op.data| && r.data[..op.len] == data[..op.len]
    ensures r.data[op.len..] == op.data[op.len..]
  {
    op.(data := data[..op.len] + op.data[op.len..])
  }

  class PcieBM {
    /** `main_time_` */
    var mainTime: nat
    /** `events_`, as the multiset of events it holds. */
    var events: seq<TimedEvent>
    /** `dma_queue_` */
    var dmaQueue: seq<DmaOp>
    /** `dma_pending_`, a `size_t`. */
    var dmaPending: nat
    /** Whether the host end of the PCIe channel has terminated. */
    var peerTerminated: bool
    /** The messages sent to the host, oldest first. */
    var sent: seq<D2H>
    /** `SimbricksBaseIfOutMsgLen`, and the sizes of the D2H write header and
        of the H2D read-completion header. */
    const maxOutLen: nat
    const writeHdr: nat
    const readcompHdr: nat

    var intxEn: bool
    var msiEn: bool
    var msixEn: bool

    /** Command-line parameters of `ParseArgs`. */
    var syncInterval: nat
    var pcieLatency: nat
    var netLatency: nat
    var macAddr: nat
    var pciSocket: string
    var netSocket: string
    var shmPath: string

    /** No more than 64 operations in flight. */
    predicate Valid()
      reads this`dmaPending
    {
      dmaPending <= DmaMaxPending
    }

    /** Every queued operation carries its bytes. */
    predicate QueueFits()
      reads this`dmaQueue
    {
      forall i :: 0 <= i < |dmaQueue| ==> Fits(dmaQueue[i])
    }

    /** Operations wait in the queue only while the window is full. */
    predicate Saturated()
      reads this`dmaPending, this`dmaQueue
    {
      dmaQueue != [] ==> dmaPending == DmaMaxPending
    }

    /** The constructor: time 0, nothing pending or scheduled. */
    constructor (maxOutLen: nat, writeHdr: nat, readcompHdr: nat)
      ensures Valid() && Saturated()
      ensures mainTime == 0 && events == [] && dmaQueue == [] && dmaPending == 0 && sent == []
      ensures !peerTerminated
      ensures this.maxOutLen == maxOutLen && this.writeHdr == writeHdr && this.readcompHdr == readcompHdr
    {
      this.maxOutLen, this.writeHdr, this.readcompHdr := maxOutLen, writeHdr, readcompHdr;
      mainTime, events, dmaQueue, dmaPending, sent := 0, [], [], 0, [];
      peerTerminated := false;
    }

    /** Whether the message for `op` fits the channel; `DmaDo` aborts otherwise. */
    predicate MsgFits(op: DmaOp) {
      if op.write then writeHdr + op.len <= maxOutLen else readcompHdr + op.len <= maxOutLen
    }

    /**
     * `DmaDo(op)`: nothing once the peer has terminated; otherwise one more
     * operation in flight and a read or write request to the host, or an
     * abort (`ok == false`) when the message cannot hold it.
     */
    method DmaDo(op: DmaOp) returns (ok: bool)
      requires Fits(op)
      modifies this`dmaPending, this`sent
      ensures peerTerminated ==> ok && dmaPending == old(dmaPending) && sent == old(sent)
      ensures !peerTerminated ==> dmaPending == old(dmaPending) + 1
      ensures !peerTerminated ==> ok == MsgFits(op)
      ensures !peerTerminated && ok ==>
        sent == old(sent) + [if op.write then D2HWrite(op, op.data[..op.len]) else D2HRead(op)]
      ensures !ok ==> sent == old(sent)
    {
      if peerTerminated {
        return true;
      }
      dmaPending := dmaPending + 1;
      if op.write {
        if maxOutLen < writeHdr + op.len {
          return false;
        }
        sent := sent + [D2HWrite(op, op.data[..op.len])];
      } else {
        if maxOutLen < readcompHdr + op.len {
          return false;
        }
        sent := sent + [D2HRead(op)];
      }
      return true;
    }

    /** `IssueDma(op)`: started at once below 64 pending operations, queued at the back otherwise. */
    method IssueDma(op: DmaOp) returns (ok: bool)
      requires Fits(op)
      modifies this`dmaPending, this`sent, this`dmaQueue
      ensures old(dmaPending) < DmaMaxPending ==> dmaQueue == old(dmaQueue)
      ensures old(dmaPending) < DmaMaxPending && !peerTerminated ==> dmaPending == old(dmaPending) + 1
      ensures old(dmaPending) < DmaMaxPending && !peerTerminated && ok ==>
        sent == old(sent) + [if op.write then D2HWrite(op, op.data[..op.len]) else D2HRead(op)]
      ensures old(dmaPending) < DmaMaxPending && !peerTerminated ==> ok == MsgFits(op)
      ensures old(dmaPending) < DmaMaxPending && peerTerminated ==> ok && dmaPending == old(dmaPending) && sent == old(sent)
      ensures old(dmaPending) >= DmaMaxPending ==>
        ok && dmaQueue == old(dmaQueue) + [op] && dmaPending == old(dmaPending) && sent == old(sent)
      ensures old(Valid()) ==> Valid()
      ensures old(Valid() && Saturated()) ==> Saturated()
      ensures old(QueueFits()) ==> QueueFits()
    {
      if dmaPending < DmaMaxPending {
        ok := DmaDo(op);
      } else {
        dmaQueue := dmaQueue + [op];
        ok := true;
      }
    }

    /** `DmaTrigger()`: with a non-empty queue and a free slot (`!= 64`), the
        front operation is started and removed; otherwise nothing happens. */
    method DmaTrigger() returns (ok: bool)
      requires QueueFits()
      modifies this`dmaPending, this`sent, this`dmaQueue
      ensures QueueFits()
      ensures old(dmaQueue) == [] || old(dmaPending) == DmaMaxPending ==>
        ok && dmaQueue == old(dmaQueue) && dmaPending == old(dmaPending) && sent == old(sent)
      ensures old(dmaQueue) != [] && old(dmaPending) != DmaMaxPending ==>
        var op := old(dmaQueue)[0];
        dmaQueue == old(dmaQueue)[1..] &&
        (peerTerminated ==> ok && dmaPending == old(dmaPending) && sent == old(sent)) &&
        (!peerTerminated ==> dmaPending == old(dmaPending) + 1 && ok == MsgFits(op)) &&
        (!peerTerminated && ok ==> sent == old(sent) + [if op.write then D2HWrite(op, op.data[..op.len]) else D2HRead(op)])
    {
      if dmaQueue == [] || dmaPending == DmaMaxPending {
        return true;
      }
      ok := DmaDo(dmaQueue[0]);
      dmaQueue := dmaQueue[1..];
    }

    /**
     * The last two steps of `H2DReadcomp` and `H2DWritecomp`, after the
     * device's `DmaComplete`: one operation fewer in flight (a `size_t`,
     * so 0 wraps around) and then `DmaTrigger`. Retiring an operation that
     * was in flight keeps the window bounded; if the window was saturated
     * and the peer is still there, it stays saturated.
     */
    method DmaRetire() returns (ok: bool)
      requires QueueFits()
      modifies this`dmaPending, this`sent, this`dmaQueue
      ensures QueueFits()
      ensures old(Valid()) && old(dmaPending) > 0 ==> Valid()
      ensures old(Saturated()) && old(dmaPending) > 0 && !peerTerminated && ok ==> Saturated()
      ensures old(Valid()) && old(dmaPending) > 0 && old(dmaQueue) != [] && !peerTerminated ==>
        dmaQueue == old(dmaQueue)[1..] && dmaPending == old(dmaPending) &&
        (ok ==> sent == old(sent) + [var op := old(dmaQueue)[0]; if op.write then D2HWrite(op, op.data[..op.len]) else D2HRead(op)])
      ensures old(dmaPending) > 0 && old(dmaQueue) == [] ==>
        ok && dmaQueue == [] && dmaPending == old(dmaPending) - 1 && sent == old(sent)
    {
      dmaPending := if dmaPending == 0 then U64 - 1 else dmaPending - 1;
      ok := DmaTrigger();
    }

    /** `MsiIssue`, `MsiXIssue`, `IntXIssue`: nothing once the peer has
        terminated, otherwise one interrupt message. */
    method IssueInterrupt(vector: nat, kind: IntKind)
      modifies this`sent
      ensures peerTerminated ==> sent == old(sent)
      ensures !peerTerminated ==> sent == old(sent) + [D2HInterrupt(vector, kind)]
    {
      if !peerTerminated {
        sent := sent + [D2HInterrupt(vector, kind)];
      }
    }

    /** `IntXIssue(level)`: a legacy interrupt with vector 0, high or low. */
    method IntXIssue(level: bool)
      modifies this`sent
      ensures peerTerminated ==> sent == old(sent)
      ensures !peerTerminated ==> sent == old(sent) + [D2HInterrupt(0, if level then LegacyHi else LegacyLo)]
    {
      IssueInterrupt(0, if level then LegacyHi else LegacyLo);
    }

    /**
     * `H2DRead(read)` around the device's `RegRead`: a read completion with
     * the request's id and the bytes the device produced. Allocating the
     * message after the peer has terminated aborts (`ok` false).
     */
    method H2DRead(reqId: nat, regData: seq<Byte>) returns (ok: bool)
      modifies this`sent
      ensures ok <==> !peerTerminated
      ensures ok ==> sent == old(sent) + [D2HReadcomp(reqId, regData)]
      ensures !ok ==> sent == old(sent)
    {
      if peerTerminated {
        return false;
      }
      sent := sent + [D2HReadcomp(reqId, regData)];
      return true;
    }

    /**
     * `H2DWrite(write, posted)` after the device's `RegWrite`: a posted
     * write is not answered; any other gets a write completion with its id,
     * or aborts (`ok` false) once the peer has terminated.
     */
    method H2DWrite(reqId: nat, posted: bool) returns (ok: bool)
      modifies this`sent
      ensures ok <==> posted || !peerTerminated
      ensures posted || !ok ==> sent == old(sent)
      ensures !posted && ok ==> sent == old(sent) + [D2HWritecomp(reqId)]
    {
      if posted {
        return true;
      }
      if peerTerminated {
        return false;
      }
      sent := sent + [D2HWritecomp(reqId)];
      return true;
    }

    /** `EventSchedule(evt)` */
    method EventSchedule(evt: TimedEvent)
      modifies this`events
      ensures multiset(events) == multiset(old(events)) + multiset{evt}
    {
      events := events + [evt];
    }

    /** `EventNext()`: nothing for an empty heap, otherwise the earliest time. */
    function EventNext(): (r: Option<nat>)
      reads this`events
      ensures r.None? <==> events == []
      ensures r.Some? ==> exists e :: e in events && e.time == r.value
      ensures r.Some? ==> forall e :: e in events ==> r.value <= e.time
    {
      if events == [] then None else Some(Earliest(events).time)
    }

    /**
     * `EventTrigger()`: at most one event, the heap top, is handled and
     * popped, and only if it is due (`time <= main_time_`). The handled
     * event is returned for the device's `ExecuteEvent`.
     */
    method EventTrigger() returns (fired: Option<TimedEvent>)
      modifies this`events
      ensures old(events) == [] ==> fired == None && events == old(events)
      ensures old(events) != [] ==>
        var top := Earliest(old(events));
        if top.time > mainTime then fired == None && events == old(events)
        else fired == Some(top) && multiset(events) == multiset(old(events)) - multiset{top}
      ensures fired.Some? ==> fired.value.time <= mainTime && forall e :: e in old(events) ==> !Greater(fired.value, e)
    {
      if events == [] {
        return None;
      }
      var top := Earliest(events);
      if top.time > mainTime {
        return None;
      }
      events := RemoveOne(events, top);
      return Some(top);
    }

    /** `DevctrlUpdate(devctrl)`: each interrupt enable is its bit of `flags`. */
    method DevctrlUpdate(flags: nat)
      modifies this`intxEn, this`msiEn, this`msixEn
      ensures intxEn == BitSet(flags, IntxEnBit)
      ensures msiEn == BitSet(flags, MsiEnBit)
      ensures msixEn == BitSet(flags, MsixEnBit)
    {
      intxEn := (flags / Pow2(IntxEnBit)) % 2 == 1;
      msiEn := (flags / Pow2(MsiEnBit)) % 2 == 1;
      msixEn := (flags / Pow2(MsixEnBit)) % 2 == 1;
    }

    /**
     * `ParseArgs(argc, argv)`: `argv` includes the program name. Fewer than
     * 4 or more than 10 arguments are rejected with -1 and nothing set.
     * Otherwise the optional arguments from the sixth on set the start
     * time, the sync period and the two latencies (nanoseconds, scaled to
     * picoseconds as 64-bit products) and the MAC address (hex); the three
     * paths are always taken. `strtoull(s, base)` is a parameter.
     */
    method ParseArgs(argv: seq<string>, strtoull: (string, nat) -> nat) returns (r: int)
      modifies this`mainTime, this`syncInterval, this`pcieLatency, this`netLatency, this`macAddr
      modifies this`pciSocket, this`netSocket, this`shmPath
      ensures r == (if 4 <= |argv| <= 10 then 0 else -1)
      ensures r == -1 ==>
        mainTime == old(mainTime) && syncInterval == old(syncInterval) && pcieLatency == old(pcieLatency) &&
        netLatency == old(netLatency) && macAddr == old(macAddr) && pciSocket == old(pciSocket) &&
        netSocket == old(netSocket) && shmPath == old(shmPath)
      ensures r == 0 ==>
        pciSocket == argv[1] && netSocket == argv[2] && shmPath == argv[3] &&
        mainTime == (if |argv| >= 6 then strtoull(argv[5], 0) else old(mainTime)) &&
        syncInterval == (if |argv| >= 7 then ToU64(strtoull(argv[6], 0) * 1000) else old(syncInterval)) &&
        pcieLatency == (if |argv| >= 8 then ToU64(strtoull(argv[7], 0) * 1000) else old(pcieLatency)) &&
        netLatency == (if |argv| >= 9 then ToU64(strtoull(argv[8], 0) * 1000) else old(netLatency)) &&
        macAddr == (if |argv| >= 10 then strtoull(argv[9], 16) else old(macAddr))
    {
      if |argv| < 4 || |argv| > 10 {
        return -1;
      }
      if |argv| >= 6 {
        mainTime := strtoull(argv[5], 0);
      }
      if |argv| >= 7 {
        syncInterval := ToU64(strtoull(argv[6], 0) * 1000);
      }
      if |argv| >= 8 {
        pcieLatency := ToU64(strtoull(argv[7], 0) * 1000);
      }
      if |argv| >= 9 {
        netLatency := ToU64(strtoull(argv[8], 0) * 1000);
      }
      if |argv| >= 10 {
        macAddr := strtoull(argv[9], 16);
      }
      pciSocket, netSocket, shmPath := argv[1], argv[2], argv[3];
      return 0;
    }
  }

  /** Whether a device handler schedules an LPN event: the net has one
      (`next_ts != LARGE`) and nothing is scheduled at or before it. */
  predicate ShouldSchedule(nextTs: int, nextScheduled: Option<nat>) {
    nextTs != LpnEngine.LARGE && (nextScheduled.None? || nextScheduled.value > nextTs)
  }

  /** Bit `k` of `flags`. */
  predicate BitSet(flags: nat, k: nat) {
    (flags / Pow2(k)) % 2 == 1
  }
}

// `MemReq`: a memory request exchanged between a device's functional
// model and its DMA engine, shared by the VTA and JPEG request matchers.
module MemReqs {
  import opened Arith

  type Byte = x: int | 0 <= x < 256

  /** `READ_REQ` and `WRITE_REQ`: the request's `rw` flag. */
  const ReadReq: bool := false
  const WriteReq: bool := true

  /**
   * A request and the bytes it carries. `acquiredLen` counts the bytes
   * delivered so far; the buffer is the `len` bytes `calloc` allocated.
   */
  datatype MemReq = MemReq(
    id: nat, tag: int, addr: nat, len: nat, acquiredLen: nat,
    rw: bool, buffer: seq<Byte>,
    issuedTs: nat, completeTs: nat, issue: int)

  predicate WellSized(r: MemReq) {
    |r.buffer| == r.len
  }

  predicate Complete(r: MemReq) {
    r.acquiredLen == r.len
  }

  /** A value-initialized request with a zeroed buffer of `len` bytes. */
  function NewReq(id: nat, tag: int, addr: nat, len: nat, rw: bool): (r: MemReq)
    ensures WellSized(r) && r.acquiredLen == 0 && r.issue == 0
    ensures r.id == id && r.tag == tag && r.addr == addr && r.len == len && r.rw == rw
    ensures forall i :: 0 <= i < len ==> r.buffer[i] == 0
  {
    MemReq(id, tag, addr, len, 0, rw, seq(len, _ => 0), 0, 0, 0)
  }

  /** `memcpy(buf + off, src, |src|)` */
  function Overwrite(buf: seq<Byte>, off: nat, src: seq<Byte>): (r: seq<Byte>)
    requires off + |src| <= |buf|
    ensures |r| == |buf|
    ensures forall i :: off <= i < off + |src| ==> r[i] == src[i - off]
    ensures forall i :: 0 <= i < |buf| && !(off <= i < off + |src|) ==> r[i] == buf[i]
  {
    buf[..off] + src + buf[off + |src|..]
  }

  /** `dequeueReq(queue)`: the front request and the queue without it. */
  function DequeueReq(queue: seq<MemReq>): (r: (MemReq, seq<MemReq>))
    requires |queue| > 0
    ensures [r.0] + r.1 == queue
  {
    (queue[0], queue[1..])
  }
}

// What the two AXI4 burst adapters share: the operation a burst address
// beat creates, the bytes one data beat carries, and the offsets a burst
// walks through. The bursts are INCR bursts of `AxLEN + 1` beats of
// `2^AxSIZE` bytes (sections A3.4.1 and A3.4.2 of the AMBA AXI protocol
// specification, ARM IHI 0022).
module Axi {
  import opened Arith
  import opened MemReqs

  /** `AxLEN` and `AxSIZE` are 8- and 3-bit fields. */
  type AxLen = x: nat | x < 256
  type AxSize = x: nat | x < 8

  /** An address channel as sampled in one step. */
  datatype AddrChannel = AddrChannel(valid: bool, addr: nat, id: nat, len: AxLen, size: AxSize, burst: nat)

  /** `AXIOperation`: address, length, id, the `len`-byte buffer, the
      offset reached and the beat size. */
  datatype AxiOp = AxiOp(addr: nat, len: nat, id: nat, buf: seq<Byte>, off: nat, stepSize: nat)

  /** An operation's buffer is its length, and its beats are not empty. */
  predicate WellFormed(op: AxiOp) {
    |op.buf| == op.len && op.stepSize > 0
  }

  /** The INCR burst type. */
  const Incr: nat := 1

  /**
   * The operation a valid address beat creates: `2^size`-byte beats,
   * `2^size * (len + 1)` bytes in all, offset 0, a fresh buffer (zeroes
   * here, uninitialised in the source).
   */
  function NewOp(a: AddrChannel): (op: AxiOp)
    ensures WellFormed(op) && op.off == 0 && op.addr == a.addr && op.id == a.id
    ensures op.stepSize == Pow2(a.size) && op.len == op.stepSize * (a.len + 1)
    ensures op.len >= op.stepSize
  {
    var step := Pow2(a.size);
    MulGe(a.len + 1, step);
    AxiOp(a.addr, step * (a.len + 1), a.id, seq(step * (a.len + 1), _ => 0), 0, step)
  }

  /** The bytes of one beat at byte offset `off` of a burst from `addr`
      over a port of `db` bytes: up to the end of the port's width, and
      no more than a beat. */
  function BeatBytes(db: nat, addr: nat, off: nat, step: nat): (n: nat)
    requires db > 0 && step > 0
    ensures 0 < n <= step && (addr + off) % db + n <= db
  {
    Min(db - (addr + off) % db, step)
  }

  /** `op` once a beat has landed: the `n` bytes of `data` from lane `at`
      copied into its buffer at its offset, and the offset moved on by
      `adv`. */
  function Filled(op: AxiOp, data: seq<Byte>, at: nat, n: nat, adv: nat): AxiOp
    requires op.off + n <= |op.buf| && at + n <= |data|
  {
    op.(buf := op.buf[..op.off] + data[at..at + n] + op.buf[op.off + n..], off := op.off + adv)
  }

  /** No two operations share an id. */
  predicate DistinctIds(ops: seq<AxiOp>) {
    forall i, j :: 0 <= i < j < |ops| ==> ops[i].id != ops[j].id
  }

  /** Whether some operation has the given id. */
  predicate HasId(ops: seq<AxiOp>, id: nat) {
    exists i :: 0 <= i < |ops| && ops[i].id == id
  }

  /** Appending an operation whose id is new keeps the ids distinct. */
  lemma DistinctAppend(ops: seq<AxiOp>, op: AxiOp)
    requires DistinctIds(ops) && !HasId(ops, op.id)
    ensures DistinctIds(ops + [op])
  {
    forall i, j | 0 <= i < j < |ops + [op]|
      ensures (ops + [op])[i].id != (ops + [op])[j].id
    {
      if j == |ops| {
        assert ops[i].id != op.id;
      }
    }
  }

  /** Replacing the first operation by one with its id, or dropping it,
      keeps the ids distinct. */
  lemma DistinctReplaceHead(ops: seq<AxiOp>, op: AxiOp)
    requires DistinctIds(ops) && ops != [] && op.id == ops[0].id
    ensures DistinctIds([op] + ops[1..]) && DistinctIds(ops[1..])
  {
    var r := [op] + ops[1..];
    forall i, j | 0 <= i < j < |r|
      ensures r[i].id != r[j].id
    {
      assert r[i].id == ops[i].id && r[j] == ops[j];
    }
    forall i, j | 0 <= i < j < |ops| - 1
      ensures ops[1..][i].id != ops[1..][j].id
    {
      assert ops[1..][i] == ops[i + 1] && ops[1..][j] == ops[j + 1];
    }
  }

  // ---------------------------------------------------------------------
  // Burst offsets.

  /** The offset after `k` beats when each beat advances by the bytes it
      carries, as the newer adapter does. */
  function CarriedOff(db: nat, addr: nat, step: nat, k: nat): (o: nat)
    requires db > 0 && step > 0
    ensures k > 0 ==> o > 0
  {
    if k == 0 then 0
    else
      var o := CarriedOff(db, addr, step, k - 1);
      o + BeatBytes(db, addr, o, step)
  }

  /**
   * A burst that starts on a beat boundary, with beats no wider than the
   * port and the port a whole number of beats (both powers of two in AXI),
   * advances a full beat every time: after `k` beats the offset is
   * `k * step`, so `last` (offset `== step * (len + 1)`) comes exactly on
   * beat `len + 1`.
   */
  lemma {:induction false} AlignedBurstOffsets(db: nat, addr: nat, step: nat, k: nat)
    requires db > 0 && step > 0 && db % step == 0 && addr % step == 0
    ensures CarriedOff(db, addr, step, k) == k * step
  {
    if k > 0 {
      AlignedBurstOffsets(db, addr, step, k - 1);
      var o := (k - 1) * step;
      assert (addr + o) % step == 0 by {
        DivNat(addr, step);
        MulDistrib(addr / step, k - 1, step);
        DivModUnique(addr + o, addr / step + (k - 1), step, 0);
      }
      AlignedLaneRoom(db, addr + o, step);
      assert BeatBytes(db, addr, o, step) == step;
      MulDistrib(k - 1, 1, step);
    }
  }

  /** A beat-aligned address leaves at least a beat of room on the port. */
  lemma AlignedLaneRoom(db: nat, a: nat, step: nat)
    requires db > 0 && step > 0 && db % step == 0 && a % step == 0
    ensures db - a % db >= step
  {
    var q := db / step;
    DivNat(db, step);
    DivNat(a, db);
    var r := a % db;
    // `r` is a multiple of `step` below `db == q * step`.
    assert r == a - (a / db) * db;
    assert r % step == 0 by {
      MulAssoc(a / db, q, step);
      DivNat(a, step);
      assert r == (a / step - (a / db) * q) * step;
      DivModUnique(r, a / step - (a / db) * q, step, 0);
    }
    DivNat(r, step);
    assert r == (r / step) * step;
    if r / step >= q {
      MulLe(q, step, r / step, step);
    }
    assert r / step < q;
    MulStep(r / step, q, step);
  }

  /** With aligned beats, `last` is raised on beat `len + 1` and on no
      other beat. */
  lemma AlignedBurstLast(db: nat, a: AddrChannel, k: nat)
    requires db > 0 && db % Pow2(a.size) == 0 && a.addr % Pow2(a.size) == 0
    ensures CarriedOff(db, a.addr, Pow2(a.size), k) == NewOp(a).len <==> k == a.len + 1
  {
    var step, n := Pow2(a.size), a.len + 1;
    var op := NewOp(a);
    assert op.len == step * n;
    assert step * n == n * step;
    var o := CarriedOff(db, a.addr, step, k);
    AlignedBurstOffsets(db, a.addr, step, k);
    assert o == k * step;
    BeatsDetermineLength(k, n, step);
  }

  /** `k` beats of `step` bytes make `n` beats' worth only if `k == n`. */
  lemma BeatsDetermineLength(k: nat, n: nat, step: nat)
    requires step > 0
    ensures k * step == n * step <==> k == n
  {
    if k < n {
      MulStep(k, n, step);
    } else if n < k {
      MulStep(n, k, step);
    }
  }

  /**
   * As written, an INCR burst that does not start on a beat boundary
   * never raises `last`: with a 4-byte port, 4-byte beats and address 2,
   * the offsets are 2, 6, 10, … and never the operation's length `4 *
   * (len + 1)`.
   */
  lemma {:induction false} UnalignedNeverLast(k: nat)
    requires k > 0
    ensures CarriedOff(4, 2, 4, k) == 4 * k - 2
  {
    if k > 1 {
      UnalignedNeverLast(k - 1);
      var o := 4 * (k - 1) - 2;
      assert (2 + o) % 4 == 0 by {
        DivModUnique(2 + o, k - 1, 4, 0);
      }
    }
  }

  lemma UnalignedBurstMissesLast(len: AxLen, k: nat)
    requires k > 0
    ensures CarriedOff(4, 2, 4, k) != NewOp(AddrChannel(true, 2, 0, len, 2, Incr)).len
  {
    UnalignedNeverLast(k);
    assert Pow2(2) == 4;
    var n := 4 * (len + 1);
    if 4 * k - 2 == n {
      DivModUnique(n, len + 1, 4, 0);
      DivModUnique(4 * k - 2, k - 1, 4, 2);
    }
  }

  /** Section A3.4.2 of the AXI specification: a beat ends on the next
      beat boundary, so the first beat of an unaligned burst is short. */
  function IntendedBeatBytes(addr: nat, off: nat, step: nat): (n: nat)
    requires step > 0
    ensures 0 < n <= step && (addr + off + n) % step == 0
  {
    var n := step - (addr + off) % step;
    DivNat(addr + off, step);
    DivModUnique(addr + off + n, (addr + off) / step + 1, step, 0);
    n
  }

  /** The bytes an unaligned INCR burst of `len + 1` beats moves. */
  function IntendedLen(addr: nat, step: nat, len: nat): (n: nat)
    requires step > 0
    ensures n == step * (len + 1) - addr % step
  {
    MulGe(len + 1, step);
    step * (len + 1) - addr % step
  }

  /** The offset after `k` beats of the intended burst. */
  function IntendedOff(addr: nat, step: nat, k: nat): (o: nat)
    requires step > 0
  {
    if k == 0 then 0
    else
      var o := IntendedOff(addr, step, k - 1);
      o + IntendedBeatBytes(addr, o, step)
  }

  /** The corrected burst: after `k >= 1` beats the offset is
      `k * step - addr % step`. */
  lemma {:induction false} IntendedOffsets(addr: nat, step: nat, k: nat)
    requires step > 0 && k > 0
    ensures IntendedOff(addr, step, k) == k * step - addr % step
  {
    DivNat(addr, step);
    if k == 1 {
      assert IntendedOff(addr, step, 0) == 0;
    } else {
      IntendedOffsets(addr, step, k - 1);
      var q := addr / step;
      var o := (k - 1) * step - addr % step;
      assert addr + o == (q + (k - 1)) * step by { MulDistrib(q, k - 1, step); }
      DivModUnique(addr + o, q + (k - 1), step, 0);
      assert k * step == (k - 1) * step + step by { MulDistrib(k - 1, 1, step); }
    }
  }

  /** The corrected burst reaches its length on beat `len + 1` exactly,
      from any start address. */
  lemma IntendedBurstLast(addr: nat, step: nat, len: nat, k: nat)
    requires step > 0 && k > 0
    ensures IntendedOff(addr, step, k) == IntendedLen(addr, step, len) <==> k == len + 1
  {
    IntendedOffsets(addr, step, k);
    assert step * (len + 1) == (len + 1) * step;
    BeatsDetermineLength(k, len + 1, step);
  }

  /** Where the port is exactly one beat wide the adapter's beat sizes are
      already the intended ones; only the length is off. */
  lemma FullWidthBeats(addr: nat, off: nat, step: nat)
    requires step > 0
    ensures BeatBytes(step, addr, off, step) == IntendedBeatBytes(addr, off, step)
  {
  }

  // ---------------------------------------------------------------------
  // Beat lanes.

  /**
   * The lanes a later read beat drives, as written: always from lane 0.
   * Over an 8-byte port, a burst of 4-byte beats from address 0 carries
   * its second beat (bytes 4..8, destined for lanes 4..8) on lanes 0..4.
   */
  function LaterBeatLanes(data: seq<Byte>, bytes: seq<Byte>): (r: seq<Byte>)
    requires |bytes| <= |data|
    ensures |r| == |data| && r[..|bytes|] == bytes
  {
    Overwrite(data, 0, bytes)
  }

  lemma NarrowSecondBeatOnLaneZero(data: seq<Byte>, bytes: seq<Byte>)
    requires |data| == 8 && |bytes| == BeatBytes(8, 0, 4, 4)
    requires bytes != data[4..8]
    ensures LaterBeatLanes(data, bytes)[4..8] != bytes
  {
  }

  /** Section A3.4.3 of the AXI specification: a beat is driven on the
      lanes of its own address. */
  function IntendedBeatLanes(data: seq<Byte>, db: nat, addr: nat, off: nat, bytes: seq<Byte>): (r: seq<Byte>)
    requires db > 0 && |data| == db && (addr + off) % db + |bytes| <= db
    ensures |r| == db
  {
    Overwrite(data, (addr + off) % db, bytes)
  }

  /** In the corrected placement a beat's byte at address `x` travels on
      lane `x % db`. */
  lemma IntendedLaneOfByte(data: seq<Byte>, db: nat, addr: nat, off: nat, bytes: seq<Byte>, i: nat)
    requires db > 0 && |data| == db && (addr + off) % db + |bytes| <= db && i < |bytes|
    ensures IntendedBeatLanes(data, db, addr, off, bytes)[(addr + off + i) % db] == bytes[i]
  {
    var at := (addr + off) % db;
    DivNat(addr + off, db);
    DivModUnique(addr + off + i, (addr + off) / db, db, at + i);
    assert Overwrite(data, at, bytes)[at..at + |bytes|][i] == bytes[i];
  }
}

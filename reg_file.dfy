// Memory-mapped register files of the behavioural models: a packed struct
// viewed as bytes, 32-bit little-endian fields, and the bounds-checked BAR 0
// access every model performs before its `memcpy`.
module RegisterFile {
  import opened Arith
  import opened MemReqs
  import opened Wrappers

  /** The little-endian 32-bit field at byte `off`. */
  function LeU32(regs: seq<Byte>, off: nat): (r: nat)
    requires off + 4 <= |regs|
    ensures r < U32
  {
    regs[off] as int + 0x100 * (regs[off + 1] as int) + 0x1_0000 * (regs[off + 2] as int) + 0x100_0000 * (regs[off + 3] as int)
  }

  /** The four little-endian bytes of a 32-bit value. */
  function LeBytes(v: nat): (r: seq<Byte>)
    ensures |r| == 4
  {
    [v % 0x100, (v / 0x100) % 0x100, (v / 0x1_0000) % 0x100, (v / 0x100_0000) % 0x100]
  }

  /** Storing a value and reading it back yields the value modulo 2^32. */
  lemma LeRoundTrip(v: nat)
    ensures LeU32(LeBytes(v), 0) == v % U32
  {
    var b := LeBytes(v);
    DivNat(v, 0x100);
    DivNat(v / 0x100, 0x100);
    DivNat(v / 0x100 / 0x100, 0x100);
    DivNat(v / 0x100 / 0x100 / 0x100, 0x100);
    DivDiv(v, 0x100, 0x100);
    DivDiv(v, 0x1_0000, 0x100);
    DivDiv(v, 0x100_0000, 0x100);
    var q := v / 0x100_0000;
    assert v == q * 0x100_0000 + (v / 0x1_0000 % 0x100) * 0x1_0000 + (v / 0x100 % 0x100) * 0x100 + v % 0x100;
    DivNat(q, 0x100);
    assert v == (q / 0x100) * U32 + LeU32(b, 0);
    DivModUnique(v, q / 0x100, U32, LeU32(b, 0));
  }

  /** `regs` with the 32-bit field at `off` set to `v` (truncated). */
  function SetLeU32(regs: seq<Byte>, off: nat, v: nat): (r: seq<Byte>)
    requires off + 4 <= |regs|
    ensures |r| == |regs| && LeU32(r, off) == v % U32
    ensures forall i :: 0 <= i < |regs| && !(off <= i < off + 4) ==> r[i] == regs[i]
  {
    LeRoundTrip(v);
    Overwrite(regs, off, LeBytes(v))
  }

  /** The bounds check of `RegRead`/`RegWrite`: BAR 0 and `addr + len` within the struct. */
  predicate InBounds(size: nat, bar: nat, addr: nat, len: nat) {
    bar == 0 && addr + len <= size
  }

  /** `RegRead(bar, addr, dest, len)`: the `len` register bytes at `addr`,
      or nothing (`dest` untouched) for another BAR or an access past the end. */
  function Read(regs: seq<Byte>, bar: nat, addr: nat, len: nat): (r: Option<seq<Byte>>)
    ensures r.Some? <==> InBounds(|regs|, bar, addr, len)
    ensures r.Some? ==> |r.value| == len && forall i :: 0 <= i < len ==> r.value[i] == regs[addr + i]
  {
    if InBounds(|regs|, bar, addr, len) then Some(regs[addr..addr + len]) else None
  }

  /** The `memcpy` of `RegWrite`: `src` lands at `addr`, every other byte stays;
      nothing for another BAR or an access past the end. */
  function Write(regs: seq<Byte>, bar: nat, addr: nat, src: seq<Byte>): (r: Option<seq<Byte>>)
    ensures r.Some? <==> InBounds(|regs|, bar, addr, |src|)
    ensures r.Some? ==> |r.value| == |regs|
    ensures r.Some? ==> forall i :: 0 <= i < |src| ==> r.value[addr + i] == src[i]
    ensures r.Some? ==> forall i :: 0 <= i < |regs| && !(addr <= i < addr + |src|) ==> r.value[i] == regs[i]
  {
    if InBounds(|regs|, bar, addr, |src|) then Some(Overwrite(regs, addr, src)) else None
  }

  /** A write followed by a read of the same bytes returns what was written. */
  lemma WriteThenRead(regs: seq<Byte>, addr: nat, src: seq<Byte>)
    requires InBounds(|regs|, 0, addr, |src|)
    ensures Write(regs, 0, addr, src).Some?
    ensures Read(Write(regs, 0, addr, src).value, 0, addr, |src|) == Some(src)
  {
    var w := Write(regs, 0, addr, src).value;
    assert Read(w, 0, addr, |src|).value == src;
  }

  /** The check as written, `addr + len > sizeof(...)` on 64-bit unsigned
      values: the sum wraps around. */
  predicate InBoundsAsWritten(size: nat, bar: nat, addr: nat, len: nat) {
    bar == 0 && ToU64(addr + len) <= size
  }

  /** An offset just below 2^64 passes the check as written although the
      access starts far past the end of a 36-byte register file. */
  lemma WrappedOffsetPasses()
    ensures InBoundsAsWritten(36, 0, U64 - 4, 8) && !InBounds(36, 0, U64 - 4, 8)
  {
    DivModUnique(U64 - 4 + 8, 1, U64, 4);
  }

  /** Below 2^64 the two checks agree, so the model's check is the intended one. */
  lemma ChecksAgree(size: nat, bar: nat, addr: nat, len: nat)
    requires addr + len < U64
    ensures InBoundsAsWritten(size, bar, addr, len) <==> InBounds(size, bar, addr, len)
  {
    DivModUnique(addr + len, 0, U64, addr + len);
  }
}

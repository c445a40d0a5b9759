// `jpeg_bit_buffer`: the entropy-coded bytes of a scan, with JPEG byte
// stuffing (`FF 00`) removed and marker detection, read as a bit stream
// MSB-first. The `global_*` fields tie the buffer to the batch of input
// bytes it was filled from and to the rollback buffer consulted by `eof`.
module JpegBitBuffer {
  import opened Arith
  import opened MemReqs
  import opened RollbackBuf

  /** The buffer size `reset` uses when none is given (`1 << 20`). */
  const DefaultSize: nat := 0x10_0000

  /** Bytes read as a big-endian unsigned number. */
  function BigEndian(s: seq<Byte>): (r: nat)
    ensures r < Pow2(8 * |s|)
  {
    if s == [] then 0
    else
      var init := s[..|s| - 1];
      var r0 := BigEndian(init);
      assert Pow2(8 * |s|) == Pow2(8 * |init|) * 256 by {
        Pow2Add(8 * |init|, 8);
      }
      r0 * 256 + s[|s| - 1]
  }

  /** The word `read_word` returns for the five bytes at `rd / 8`: the
      40-bit window shifted up by `8 + rd % 8`, then down by 16, narrowed
      to 32 bits. */
  function Window(five: seq<Byte>, bit: nat): nat
    requires |five| == 5 && bit < 8
  {
    (BigEndian(five) * 256 * Pow2(bit) / 0x1_0000) % U32
  }

  /** Whether the bytes are used up at read offset `rd` (in bits) with
      `wr` bytes written: once a marker has been seen every partly read
      byte counts as read. */
  function EofAt(marker: int, rd: int, wr: int): bool {
    if marker != 0 then CDiv(rd + 7, 8) >= wr else CDiv(rd, 8) >= wr
  }

  class BitBuffer {
    var globalBufIdx: nat
    var globalBufLen: nat
    var globalBuf: seq<Byte>
    var globalMLast: Byte
    var globalMRdOffset: nat
    var lastDetectMarker: int
    var lastIsPadding: int
    var markerDetected: int

    var mBuffer: array<Byte>
    var mLast: Byte
    var mMaxSize: int
    var mWrOffset: int
    /** In bits. */
    var mRdOffset: int

    ghost predicate Valid()
      reads this
    {
      && mMaxSize == mBuffer.Length > 0
      && mRdOffset >= 0
      && globalBufIdx < U64 && globalBufLen < U64
    }

    /** `eof()`'s answer. */
    function EofSpec(): bool
      reads this
    {
      EofAt(markerDetected, mRdOffset, mWrOffset)
    }

    /** The index `eof()` passes to `CheckNotEnoughBuf`, and the length. */
    function EofProbe(): int
      reads this
    {
      ToI32(globalBufIdx + CDiv(mRdOffset + (if markerDetected != 0 then 7 else 0), 8))
    }

    function EofLen(): nat
      reads this
    {
      if markerDetected != 0 then ToU64(globalBufLen + 1) else globalBufLen
    }

    /** The default constructor: no buffer, then `reset(-1)`. */
    constructor ()
      ensures Valid() && fresh(mBuffer)
      ensures mMaxSize == DefaultSize && mWrOffset == 0 && mRdOffset == 0 && mLast == 0
      ensures globalBufIdx == 0 && globalBufLen == 0 && globalMLast == 0 && globalMRdOffset == 0
      ensures lastDetectMarker == 0 && lastIsPadding == 0 && markerDetected == 0
    {
      globalBufIdx := 0;
      globalBufLen := 0;
      globalBuf := [];
      lastDetectMarker := 0;
      lastIsPadding := 0;
      markerDetected := 0;
      mBuffer := new Byte[DefaultSize](_ => 0);
      mMaxSize := DefaultSize;
      mWrOffset := 0;
      mLast := 0;
      mRdOffset := 0;
      globalMLast := 0;
      globalMRdOffset := 0;
    }

    /** `reset(max_size)`: a fresh zeroed buffer of `max_size` bytes (of
        `1 << 20` when `max_size <= 0`), nothing written, and the last byte
        and read offset taken over from the `global_*` fields, which are
        then cleared. */
    method Reset(maxSize: int)
      requires Valid() && globalMRdOffset < 0x8000_0000
      modifies this
      ensures Valid() && fresh(mBuffer)
      ensures mMaxSize == (if maxSize <= 0 then DefaultSize else maxSize)
      ensures mBuffer[..] == seq(mMaxSize, _ => 0)
      ensures mWrOffset == 0 && mLast == old(globalMLast) && mRdOffset == old(globalMRdOffset)
      ensures globalMLast == 0 && globalMRdOffset == 0
      ensures globalBufIdx == old(globalBufIdx) && globalBufLen == old(globalBufLen) && globalBuf == old(globalBuf)
      ensures lastDetectMarker == old(lastDetectMarker) && lastIsPadding == old(lastIsPadding)
      ensures markerDetected == old(markerDetected)
    {
      var n := if maxSize <= 0 then DefaultSize else maxSize;
      mMaxSize := n;
      mBuffer := new Byte[n](_ => 0);
      mWrOffset := 0;
      mLast := globalMLast;
      mRdOffset := globalMRdOffset;
      globalMLast := 0;
      globalMRdOffset := 0;
    }

    /** Whether the write offset has reached the position of the last
        detected marker (`m_wr_offset >= last_detect_marker - global_buf_idx`,
        compared as `size_t`). */
    function PastMarker(): bool
      reads this
    {
      ToU64(mWrOffset) >= ToU64(lastDetectMarker - globalBufIdx)
    }

    /** `push(b)`. After a stored `0xFF`, a `0x00` is stuffing and is not
        stored; any other byte is a marker: the `0xFF` is taken back,
        `marker_detected` is set and `push` answers false, leaving `m_last`
        alone. Any other byte is stored. Storing outside the buffer is the
        failing `assert` (`aborted`). */
    method Push(b: Byte) returns (ok: bool, aborted: bool)
      requires Valid()
      modifies this, mBuffer
      ensures Valid() && mBuffer == old(mBuffer) && mMaxSize == old(mMaxSize)
      ensures mRdOffset == old(mRdOffset) && globalBufIdx == old(globalBufIdx)
      ensures globalBufLen == old(globalBufLen) && globalBuf == old(globalBuf)
      ensures globalMLast == old(globalMLast) && globalMRdOffset == old(globalMRdOffset)
      ensures lastDetectMarker == old(lastDetectMarker)
      ensures var special := old(mLast) == 0xFF && old(PastMarker());
        && (special && b == 0 ==>
              && ok && !aborted && lastIsPadding == 1 && mLast == b
              && mWrOffset == old(mWrOffset) && markerDetected == old(markerDetected)
              && mBuffer[..] == old(mBuffer[..]))
        && (special && b != 0 ==>
              && !ok && !aborted && lastIsPadding == 0 && mLast == old(mLast)
              && mWrOffset == old(mWrOffset) - 1 && markerDetected == 1
              && mBuffer[..] == old(mBuffer[..]))
        && (!special && !(0 <= old(mWrOffset) < mMaxSize) ==>
              && aborted && lastIsPadding == 0 && mLast == old(mLast)
              && mWrOffset == old(mWrOffset) && markerDetected == old(markerDetected)
              && mBuffer[..] == old(mBuffer[..]))
        && (!special && 0 <= old(mWrOffset) < mMaxSize ==>
              && ok && !aborted && lastIsPadding == 0 && mLast == b
              && mWrOffset == old(mWrOffset) + 1 && markerDetected == old(markerDetected)
              && mBuffer[..] == old(mBuffer[..])[old(mWrOffset) := b])
    {
      var last := mLast;
      lastIsPadding := 0;
      if last == 0xFF && b == 0x00 && PastMarker() {
        lastIsPadding := 1;
      } else if last == 0xFF && b != 0x00 && PastMarker() {
        mWrOffset := mWrOffset - 1;
        markerDetected := 1;
        return false, false;
      } else {
        if !(0 <= mWrOffset < mMaxSize) {
          return false, true;
        }
        mBuffer[mWrOffset] := b;
        mWrOffset := mWrOffset + 1;
      }
      mLast := b;
      return true, false;
    }

    /** `copy_out(buf)`: the buffered bytes go to `buf` at `global_buf_idx`;
        `global_buf_len` becomes the end of that range (as a `size_t`) and
        `last_detect_marker` that end plus the stuffing flag (as an `int`). */
    method CopyOut(out: array<Byte>)
      requires Valid() && out != mBuffer
      requires mWrOffset <= mMaxSize
      requires mWrOffset > 0 ==> globalBufIdx + mWrOffset <= out.Length
      modifies this, out
      ensures Valid() && mBuffer == old(mBuffer) && mBuffer[..] == old(mBuffer[..])
      ensures mWrOffset == old(mWrOffset) && mRdOffset == old(mRdOffset) && mLast == old(mLast)
      ensures globalBufIdx == old(globalBufIdx) && markerDetected == old(markerDetected)
      ensures lastIsPadding == old(lastIsPadding) && globalBuf == old(globalBuf)
      ensures globalMLast == old(globalMLast) && globalMRdOffset == old(globalMRdOffset)
      ensures globalBufLen == ToU64(globalBufIdx + mWrOffset)
      ensures lastDetectMarker == ToI32(globalBufLen + lastIsPadding)
      ensures mWrOffset > 0 ==>
        && out[globalBufIdx..globalBufIdx + mWrOffset] == mBuffer[..mWrOffset]
        && out[..globalBufIdx] == old(out[..globalBufIdx])
        && out[globalBufIdx + mWrOffset..] == old(out[globalBufIdx + mWrOffset..])
      ensures mWrOffset <= 0 ==> out[..] == old(out[..])
    {
      var idx := globalBufIdx;
      if mWrOffset > 0 {
        var n := mWrOffset;
        for i := 0 to n
          modifies out
          invariant out[idx..idx + i] == mBuffer[..i]
          invariant out[..idx] == old(out[..idx])
          invariant out[idx + i..] == old(out[idx + i..])
        {
          out[idx + i] := mBuffer[i];
        }
      }
      globalBufLen := ToU64(idx + mWrOffset);
      lastDetectMarker := ToI32(globalBufLen + lastIsPadding);
    }

    /** `advance(bits)`; the new offset must stay a valid `int`. */
    method Advance(bits: int)
      requires Valid() && 0 <= mRdOffset + bits < 0x8000_0000
      modifies this
      ensures Valid() && mRdOffset == old(mRdOffset) + bits
      ensures mWrOffset == old(mWrOffset) && mBuffer == old(mBuffer) && mLast == old(mLast)
      ensures markerDetected == old(markerDetected) && globalBufIdx == old(globalBufIdx)
      ensures globalBufLen == old(globalBufLen) && globalBuf == old(globalBuf)
      ensures lastDetectMarker == old(lastDetectMarker) && lastIsPadding == old(lastIsPadding)
      ensures globalMLast == old(globalMLast) && globalMRdOffset == old(globalMRdOffset)
    {
      mRdOffset := mRdOffset + bits;
    }

    /** `eof()`: also asks the rollback buffer whether the bytes up to the
        read position are all in the batch, saving the tail when not. */
    method Eof(rb: Rollback) returns (ans: bool)
      requires Valid() && rb.Valid()
      requires Rollback.Short(EofProbe(), EofLen()) && rb.lastIdx < EofLen() ==>
        EofLen() <= |globalBuf| && EofLen() - rb.lastIdx <= Capacity
      modifies rb, rb.buf
      ensures rb.Valid() && rb.lastIdx == old(rb.lastIdx)
      ensures ans == EofSpec()
      ensures !Rollback.Short(EofProbe(), EofLen()) ==>
        rb.lastBufSize == old(rb.lastBufSize) && rb.buf[..] == old(rb.buf[..])
      ensures Rollback.Short(EofProbe(), EofLen()) ==> rb.lastBufSize == ToU64(EofLen() - rb.lastIdx)
    {
      var yes := rb.CheckNotEnoughBuf(EofProbe(), EofLen(), globalBuf);
      ans := EofSpec();
    }

    /** `read_word()`: 0 at the end of the data; otherwise the 32 bits of
        the stream starting at bit `m_rd_offset`, from the five bytes at
        `m_rd_offset / 8`. Those five bytes must lie inside the buffer. */
    method ReadWord(rb: Rollback) returns (w: nat)
      requires Valid() && rb.Valid()
      requires Rollback.Short(EofProbe(), EofLen()) && rb.lastIdx < EofLen() ==>
        EofLen() <= |globalBuf| && EofLen() - rb.lastIdx <= Capacity
      requires !EofSpec() ==> mRdOffset / 8 + 5 <= mMaxSize
      modifies rb, rb.buf
      ensures rb.Valid()
      ensures w == if EofSpec() then 0 else Window(mBuffer[mRdOffset / 8..mRdOffset / 8 + 5], mRdOffset % 8)
    {
      var e := Eof(rb);
      if e {
        return 0;
      }
      var byte := mRdOffset / 8;
      var bit := mRdOffset % 8;
      var acc: nat := 0;
      for x := 0 to 5
        invariant acc == BigEndian(mBuffer[byte..byte + x]) * 256
      {
        // `acc` is a multiple of 256 before the `|=`, so the OR adds the byte.
        assert mBuffer[byte..byte + x + 1][..x] == mBuffer[byte..byte + x];
        acc := (acc + mBuffer[byte + x]) * 256;
      }
      w := (acc * Pow2(bit) / 0x1_0000) % U32;
    }
  }

  /** On a byte boundary `read_word` returns the next four bytes, big-endian. */
  lemma WindowAligned(five: seq<Byte>)
    requires |five| == 5
    ensures Window(five, 0) == BigEndian(five[..4])
  {
    var hi := BigEndian(five[..4]);
    var lo: nat := five[4] as nat * 256;
    var v := BigEndian(five);
    assert v == hi * 256 + five[4] by {
      assert five[..|five| - 1] == five[..4];
    }
    assert v * 256 * Pow2(0) == hi * 0x1_0000 + lo;
    DivAddMultiple(hi, 0x1_0000, lo);
    assert (hi * 0x1_0000 + lo) / 0x1_0000 == hi;
    assert hi < U32 by {
      assert 8 * |five[..4]| == 32;
      assert Pow2(8) == 256;
      Pow2Add(8, 8);
      Pow2Add(16, 16);
    }
  }

  /** In general `read_word` drops the top `bit` bits of the 40-bit window
      and the low `8 - bit`: the 32 bits that start `bit` bits in. */
  lemma WindowShift(five: seq<Byte>, bit: nat)
    requires |five| == 5 && bit < 8
    ensures Window(five, bit) == (BigEndian(five) / Pow2(8 - bit)) % U32
  {
    var v := BigEndian(five);
    var c := Pow2(bit);
    var d := Pow2(8 - bit);
    SplitShift(bit);
    calc {
      v * 256 * c / 0x1_0000;
      { assert v * 256 * c == (v * 256) * c; }
      ((v * 256) * c) / (c * (256 * d));
      { DivCancel(v * 256, c, 256 * d); }
      (v * 256) / (256 * d);
      { DivCancel(v, 256, d); }
      v / d;
    }
  }

  /** `2^bit * (256 * 2^(8 - bit)) == 2^16`. */
  lemma SplitShift(bit: nat)
    requires bit < 8
    ensures Pow2(bit) * (256 * Pow2(8 - bit)) == 0x1_0000
  {
    Pow2Add(bit, 8 - bit);
    Pow2Add(8, 8);
    assert Pow2(8) == 256;
  }

  /** `(a * c) / (b * c) == a / b` for positive `b`, `c`. */
  lemma DivCancel(a: nat, c: nat, b: nat)
    requires b > 0 && c > 0
    ensures (a * c) / (c * b) == a / b
  {
    var q := a / b;
    var r := a % b;
    assert a == q * b + r;
    assert a * c == q * (c * b) + r * c;
    assert r * c < c * b;
    DivModUnique(a * c, q, c * b, r * c);
  }
}

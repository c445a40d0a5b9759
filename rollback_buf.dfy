// The rollback buffer of the JPEG front end: when a parse step would read
// past the bytes received so far, the unparsed tail since the last
// checkpoint is saved in a global 8192-byte buffer, and the next batch of
// bytes is appended behind it so that parsing can restart at the
// checkpoint.
module RollbackBuf {
  import opened Arith
  import opened MemReqs
  import opened Wrappers

  /** `GetGlobalBuffer()` holds `4096*2` bytes. */
  const Capacity: nat := 4096 * 2

  /** The static `last_idx`, `last_buf_size` and the global buffer. */
  class Rollback {
    var lastIdx: nat
    var lastBufSize: nat
    const buf: array<Byte>

    ghost predicate Valid()
      reads this
    {
      buf.Length == Capacity && lastIdx < U64 && lastBufSize < U64
    }

    /** Static storage starts zeroed; the global buffer is fresh. */
    constructor ()
      ensures Valid() && lastIdx == 0 && lastBufSize == 0 && fresh(buf)
    {
      lastIdx := 0;
      lastBufSize := 0;
      buf := new Byte[Capacity](_ => 0);
    }

    /** `CheckPointIdx(cur)`: the `int` is stored into a `size_t`. */
    method CheckPointIdx(cur: int)
      requires Valid()
      modifies this
      ensures Valid() && lastIdx == ToU64(cur) && lastBufSize == old(lastBufSize)
    {
      lastIdx := ToU64(cur);
    }

    /** Whether `CheckNotEnoughBuf(futureIdx, len, ...)` reports a shortfall:
        the `int` index is compared as a `size_t`, so a negative one counts too. */
    static function Short(futureIdx: int, len: nat): bool {
      ToU64(futureIdx) >= len
    }

    /** `CheckNotEnoughBuf(futureIdx, len, src)`: with enough bytes it
        returns 0 and changes nothing; otherwise it saves `src[last_idx..len)`
        at the front of the global buffer, records its size (as a `size_t`
        difference) and returns 1. A tail longer than the global buffer
        would overrun it, so that is required not to happen. */
    method CheckNotEnoughBuf(futureIdx: int, len: nat, src: seq<Byte>) returns (r: int)
      requires Valid() && len < U64
      requires Short(futureIdx, len) && lastIdx < len ==> len <= |src| && len - lastIdx <= Capacity
      modifies this, buf
      ensures Valid() && lastIdx == old(lastIdx)
      ensures r == (if Short(futureIdx, len) then 1 else 0)
      ensures r == 0 ==> lastBufSize == old(lastBufSize) && buf[..] == old(buf[..])
      ensures r == 1 ==> lastBufSize == ToU64(len - lastIdx)
      ensures r == 1 && lastIdx < len ==>
        && buf[..len - lastIdx] == src[lastIdx..len]
        && buf[len - lastIdx..] == old(buf[len - lastIdx..])
      ensures r == 1 && lastIdx >= len ==> buf[..] == old(buf[..])
    {
      if !Short(futureIdx, len) {
        return 0;
      }
      var start := lastIdx;
      if start < len {
        for i := start to len
          modifies buf
          invariant buf[..i - start] == src[start..i]
          invariant buf[len - start..] == old(buf[len - start..])
        {
          buf[i - start] := src[i];
        }
      }
      lastBufSize := ToU64(len - start);
      return 1;
    }

    /** `AugmentBufWithLast(src, len)`: with nothing saved the batch stays
        where it is; otherwise the `len` new bytes go behind the saved ones
        and the caller reads the global buffer, `len + last_buf_size` long
        (`fromLast`). The saved size is kept. */
    method AugmentBufWithLast(src: seq<Byte>, len: nat) returns (fromLast: bool, newLen: nat)
      requires Valid() && len <= |src|
      requires lastBufSize != 0 ==> lastBufSize + len <= Capacity
      modifies buf
      ensures fromLast == (lastBufSize != 0)
      ensures !fromLast ==> newLen == len && buf[..] == old(buf[..])
      ensures fromLast ==>
        && newLen == lastBufSize + len
        && buf[..newLen] == old(buf[..lastBufSize]) + src[..len]
        && buf[newLen..] == old(buf[newLen..])
    {
      if lastBufSize == 0 {
        return false, len;
      }
      var saved := lastBufSize;
      for i := 0 to len
        invariant buf[..saved] == old(buf[..saved])
        invariant buf[saved..saved + i] == src[..i]
        invariant buf[saved + len..] == old(buf[saved + len..])
      {
        buf[i + saved] := src[i];
      }
      assert buf[..saved + len] == buf[..saved] + buf[saved..saved + len];
      return true, lastBufSize + len;
    }
  }

  /** `CHECK_ENOUGH_BUF(future, len, buf, ret)` returns `ret` from the
      caller exactly on a shortfall: `Some(ret)` to return, `None` to go on. */
  function CheckEnoughBuf<T>(futureIdx: int, len: nat, ret: T): (r: Option<T>)
    ensures r.Some? <==> Rollback.Short(futureIdx, len)
    ensures r.Some? ==> r.value == ret
  {
    if Rollback.Short(futureIdx, len) then Some(ret) else None
  }

  /** For an index inside the batch no shortfall is reported; for one at or
      past its end, or a negative one, it is. */
  lemma ShortIff(futureIdx: int, len: nat)
    requires len < U64
    ensures 0 <= futureIdx < len ==> !Rollback.Short(futureIdx, len)
    ensures len <= futureIdx < U64 || (futureIdx < 0 && futureIdx >= len - U64) ==> Rollback.Short(futureIdx, len)
  {
  }
}

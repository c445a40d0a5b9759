// `BitPacker<bits>` of the VTA functional simulator: integers of `bits` bits
// packed into little-endian 32-bit words, element `i` sitting in word
// `i / kNumPackElem` at bit `(i % kNumPackElem) * bits`. The 8-, 16- and
// 32-bit widths are read and written through byte, half-word and word
// pointers in the source; on the little-endian hosts it requires, those
// accesses reach exactly the same bits as the packed formula, so one formula
// covers them all (the 32-bit width keeps its own branch because `kMask`
// only has 31 bits there). Shifts and masks are written as division and
// remainder by powers of two: `(w >> s) & kMask` is `(w / 2^s) % 2^bits`.
module VtaBitPacker {
  import opened Arith

  /** `uint32_t` */
  type Word = x: nat | x < 0x1_0000_0000

  /** Widths the template is instantiated with. */
  predicate ValidWidth(bits: nat) {
    0 < bits <= 32
  }

  /** `kNumPackElem`: the largest number of elements that fit in one word. */
  function NumPackElem(bits: nat): (r: nat)
    requires ValidWidth(bits)
    ensures r >= 1 && r * bits <= 32 < r * bits + bits
  {
    DivNat(32, bits);
    32 / bits
  }

  /** `kMask`: `min(bits, 31)` low bits set. */
  function KMask(bits: nat): (r: nat)
    ensures r + 1 == Pow2(Min(bits, 31))
  {
    Pow2(Min(bits, 31)) - 1
  }

  /** A packed element is covered by the whole mask; a 32-bit element would lose its top bit. */
  lemma MaskCoversPacked(bits: nat)
    requires ValidWidth(bits)
    ensures bits < 32 ==> KMask(bits) + 1 == Pow2(bits)
    ensures bits == 32 ==> 2 * (KMask(bits) + 1) == Pow2(bits)
  {
  }

  /** `kElemBytes` of `SRAM<kBits, kLane, _>`: the bytes one element of `lanes` lanes occupies. */
  function ElemBytes(bits: nat, lanes: nat): (r: nat)
    ensures 8 * r >= bits * lanes && 8 * r < bits * lanes + 8
  {
    (bits * lanes + 7) / 8
  }

  /** The word holding element `index`. */
  function WordIndex(bits: nat, index: nat): nat
    requires ValidWidth(bits)
  {
    index / NumPackElem(bits)
  }

  /** The bit at which element `index` starts inside its word. */
  function Shift(bits: nat, index: nat): (r: nat)
    requires ValidWidth(bits)
    ensures r + bits <= 32
  {
    var n := NumPackElem(bits);
    MulStep(index % n, n, bits);
    (index % n) * bits
  }

  /**
   * The `b` bits of `w` starting at bit `s`, `(w >> s) & (2^b - 1)`, taken
   * one bit at a time; `FieldClosed` gives the division form.
   */
  function Field(w: nat, s: nat, b: nat): (r: nat)
    ensures r < Pow2(b)
    decreases s + b
  {
    if b == 0 then 0
    else if s > 0 then Field(w / 2, s - 1, b)
    else w % 2 + 2 * Field(w / 2, 0, b - 1)
  }

  lemma {:induction false} FieldClosed(w: nat, s: nat, b: nat)
    ensures Field(w, s, b) == (w / Pow2(s)) % Pow2(b)
    decreases s + b
  {
    if b > 0 {
      if s > 0 {
        FieldClosed(w / 2, s - 1, b);
        HalveThenDivide(w, s);
      } else {
        FieldClosed(w / 2, 0, b - 1);
        LowBitThenRest(w, b);
      }
    }
  }

  lemma LowBitThenRest(w: nat, b: nat)
    requires b > 0
    ensures w / Pow2(0) % Pow2(b) == w % 2 + 2 * ((w / 2 / Pow2(0)) % Pow2(b - 1))
  {
    var p := Pow2(b - 1);
    assert Pow2(b) == 2 * p;
    ModDouble(w, p);
  }

  lemma HalveThenDivide(w: nat, s: nat)
    requires s > 0
    ensures w / 2 / Pow2(s - 1) == w / Pow2(s)
  {
    DivDiv(w, 2, Pow2(s - 1));
  }

  /**
   * `w` with bits `[s, s + b)` cleared and the low `b` bits of `v` or-ed in,
   * built one bit at a time; `PutClosed` gives the arithmetic form.
   */
  function Put(w: nat, s: nat, b: nat, v: nat): nat
    decreases s + b
  {
    if s > 0 then 2 * Put(w / 2, s - 1, b, v) + w % 2
    else if b > 0 then 2 * Put(w / 2, 0, b - 1, v / 2) + v % 2
    else w
  }

  lemma {:induction false} PutClosed(w: nat, s: nat, b: nat, v: nat)
    ensures Put(w, s, b, v) == (w / Pow2(s + b)) * Pow2(s + b) + (v % Pow2(b)) * Pow2(s) + w % Pow2(s)
    decreases s + b
  {
    if s > 0 {
      PutClosed(w / 2, s - 1, b, v);
      PutStepHigh(w, s, b, v);
    } else {
      PutBitsClosed(w, b, v);
    }
  }

  lemma {:induction false} PutBitsClosed(w: nat, b: nat, v: nat)
    ensures Put(w, 0, b, v) == (w / Pow2(b)) * Pow2(b) + v % Pow2(b)
    decreases b
  {
    if b > 0 {
      var p, pb := Pow2(b - 1), Pow2(b);
      DivNat(w, pb);
      var q := w / pb;
      PutBitsClosed(w / 2, b - 1, v / 2);
      HalveThenDivide(w, b);
      ModDouble(v, p);
      RegroupLow(q, p, (v / 2) % p, v % 2);
    }
  }

  lemma RegroupLow(q: nat, p: nat, lo: nat, c: nat)
    ensures 2 * (q * p + lo) + c == q * (2 * p) + (2 * lo + c)
  {
  }

  /** `2 * (q*p + f*ps + lo) + c`, regrouped by the doubled powers. */
  lemma Regroup(q: nat, p: nat, f: nat, ps: nat, lo: nat, c: nat)
    ensures 2 * (q * p + f * ps + lo) + c == q * (2 * p) + f * (2 * ps) + (2 * lo + c)
  {
  }

  lemma PutStepHigh(w: nat, s: nat, b: nat, v: nat)
    requires s > 0
    requires Put(w / 2, s - 1, b, v) ==
             (w / 2 / Pow2(s - 1 + b)) * Pow2(s - 1 + b) + (v % Pow2(b)) * Pow2(s - 1) + (w / 2) % Pow2(s - 1)
    ensures Put(w, s, b, v) == (w / Pow2(s + b)) * Pow2(s + b) + (v % Pow2(b)) * Pow2(s) + w % Pow2(s)
  {
    var p, ps, pm := Pow2(s - 1 + b), Pow2(s - 1), Pow2(s + b);
    DivNat(w, pm);
    var q, f, lo := w / pm, v % Pow2(b), (w / 2) % ps;
    HalveThenDivide(w, s + b);
    ModDouble(w, ps);
    assert Put(w / 2, s - 1, b, v) == q * p + f * ps + lo;
    Regroup(q, p, f, ps, lo, w % 2);
  }

  lemma Pow2Of32()
    ensures Pow2(32) == U32
  {
    assert Pow2(2) == 4;
    Pow2Add(2, 2);
    Pow2Add(4, 4);
    Pow2Add(8, 8);
    Pow2Add(16, 16);
  }

  lemma HighBelow(hi: nat, ph: nat, pm: nat, w: nat)
    requires pm > 0 && w < ph * pm && hi == w / pm
    ensures hi < ph
  {
    DivNat(w, pm);
    if hi >= ph {
      MulStep(ph, hi + 1, pm);
    }
  }

  lemma DigitsBound(hi: nat, f: nat, lo: nat, ph: nat, pb: nat, ps: nat)
    requires hi < ph && f < pb && lo < ps
    ensures hi * (ps * pb) + f * ps + lo < ph * (ps * pb)
  {
    PartBound(f, lo, pb, ps);
    PartBound(hi, f * ps + lo, ph, ps * pb);
  }

  lemma PutIsWord(w: Word, s: nat, b: nat, v: nat)
    requires s + b <= 32
    ensures Put(w, s, b, v) < U32
  {
    PutClosed(w, s, b, v);
    var m := s + b;
    var ps, pb, pm, ph := Pow2(s), Pow2(b), Pow2(m), Pow2(32 - m);
    Pow2Add(s, b);
    Pow2Add(32 - m, m);
    Pow2Of32();
    assert ph * pm == U32;
    DivNat(w, pm);
    DivNat(w, ps);
    HighBelow(w / pm, ph, pm, w);
    DigitsBound(w / pm, v % pb, w % ps, ph, pb, ps);
  }

  /** `GetUnsigned(index)`, with the packed path corrected to shift by `Shift(bits, index)`. */
  function GetUnsigned(data: seq<Word>, bits: nat, index: nat): (r: nat)
    requires ValidWidth(bits) && WordIndex(bits, index) < |data|
    ensures r < Pow2(bits)
  {
    if bits == 32 then
      Pow2Of32();
      data[index]
    else
      Field(data[WordIndex(bits, index)], Shift(bits, index), bits)
  }

  /** `GetUnsigned(index)` as written: the packed path shifts by `index % kNumPackElem`. */
  function GetUnsignedAsWritten(data: seq<Word>, bits: nat, index: nat): (r: nat)
    requires ValidWidth(bits) && WordIndex(bits, index) < |data|
    ensures bits in {8, 16, 32} ==> r == GetUnsigned(data, bits, index)
  {
    if bits in {8, 16, 32} then GetUnsigned(data, bits, index)
    else Field(data[WordIndex(bits, index)], index % NumPackElem(bits), bits)
  }

  /** `(uvalue << (32 - bits)) >> (32 - bits)` on `int32_t`: the two's-complement value of `b` bits. */
  function SignExtend(u: nat, b: nat): (r: int)
    requires 0 < b
    ensures u < Pow2(b) ==> -(Pow2(b - 1) as int) <= r < Pow2(b - 1)
    ensures r == u || r == u - Pow2(b)
  {
    assert Pow2(b) == 2 * Pow2(b - 1);
    if u >= Pow2(b - 1) then u as int - Pow2(b) else u
  }

  /** `GetSigned(index)`: the same bits as `GetUnsigned`, sign-extended. */
  function GetSigned(data: seq<Word>, bits: nat, index: nat): int
    requires ValidWidth(bits) && WordIndex(bits, index) < |data|
  {
    SignExtend(GetUnsigned(data, bits, index), bits)
  }

  /** Every signed element fits an `int32_t`, the type `GetSigned` returns. */
  lemma GetSignedIsInt32(data: seq<Word>, bits: nat, index: nat)
    requires ValidWidth(bits) && WordIndex(bits, index) < |data|
    ensures -0x8000_0000 <= GetSigned(data, bits, index) < 0x8000_0000
  {
    Pow2Mono(bits - 1, 31);
    Pow2Of32();
    assert Pow2(32) == 2 * Pow2(31);
  }

  /** The words after `SetUnsigned(index, value)`. */
  function WithUnsigned(data: seq<Word>, bits: nat, index: nat, value: Word): seq<Word>
    requires ValidWidth(bits) && WordIndex(bits, index) < |data|
  {
    var off := WordIndex(bits, index);
    if bits == 32 then data[off := value]
    else
      PutIsWord(data[off], Shift(bits, index), bits, value);
      data[off := Put(data[off], Shift(bits, index), bits, value)]
  }

  /** The words after `SetSigned(index, value)`: the value's 32-bit pattern is stored. */
  function WithSigned(data: seq<Word>, bits: nat, index: nat, value: int): seq<Word>
    requires ValidWidth(bits) && WordIndex(bits, index) < |data|
  {
    WithUnsigned(data, bits, index, ToU32(value))
  }

  method SetUnsigned(data: array<Word>, bits: nat, index: nat, value: Word)
    requires ValidWidth(bits) && WordIndex(bits, index) < data.Length
    modifies data
    ensures data[..] == WithUnsigned(old(data[..]), bits, index, value)
  {
    if bits == 32 {
      data[index] := value;
    } else {
      var offset := index / NumPackElem(bits);
      var shift := Shift(bits, index);
      PutIsWord(data[offset], shift, bits, value);
      data[offset] := Put(data[offset], shift, bits, value);
    }
  }

  method SetSigned(data: array<Word>, bits: nat, index: nat, value: int)
    requires ValidWidth(bits) && WordIndex(bits, index) < data.Length
    requires -0x8000_0000 <= value < 0x8000_0000
    modifies data
    ensures data[..] == WithSigned(old(data[..]), bits, index, value)
  {
    SetUnsigned(data, bits, index, ToU32(value));
  }

  /** Reading back the field just written yields the low `b` bits of the value. */
  lemma {:induction false} PutThenField(w: nat, s: nat, b: nat, v: nat)
    ensures Field(Put(w, s, b, v), s, b) == v % Pow2(b)
    decreases s + b
  {
    if s > 0 {
      PutThenField(w / 2, s - 1, b, v);
      if b > 0 {
        assert (2 * Put(w / 2, s - 1, b, v) + w % 2) / 2 == Put(w / 2, s - 1, b, v);
      }
    } else if b > 0 {
      var x := Put(w / 2, 0, b - 1, v / 2);
      PutThenField(w / 2, 0, b - 1, v / 2);
      assert (2 * x + v % 2) / 2 == x && (2 * x + v % 2) % 2 == v % 2;
      ModDouble(v, Pow2(b - 1));
    }
  }

  /** Writing bits `[s, s + b)` leaves every field outside them as it was. */
  lemma {:induction false} PutKeepsOtherFields(w: nat, s: nat, b: nat, v: nat, t: nat, c: nat)
    requires t + c <= s || s + b <= t
    ensures Field(Put(w, s, b, v), t, c) == Field(w, t, c)
    decreases s + b
  {
    if c == 0 {
    } else if s > 0 {
      var x := Put(w / 2, s - 1, b, v);
      assert (2 * x + w % 2) / 2 == x && (2 * x + w % 2) % 2 == w % 2;
      if t > 0 {
        PutKeepsOtherFields(w / 2, s - 1, b, v, t - 1, c);
      } else {
        PutKeepsOtherFields(w / 2, s - 1, b, v, 0, c - 1);
      }
    } else if b > 0 {
      var x := Put(w / 2, 0, b - 1, v / 2);
      assert (2 * x + v % 2) / 2 == x;
      PutKeepsOtherFields(w / 2, 0, b - 1, v / 2, t - 1, c);
    }
  }

  /** Two different elements of one word occupy disjoint bit ranges. */
  lemma SlotsDisjoint(bits: nat, i: nat, j: nat)
    requires ValidWidth(bits) && i != j && WordIndex(bits, i) == WordIndex(bits, j)
    ensures Shift(bits, i) + bits <= Shift(bits, j) || Shift(bits, j) + bits <= Shift(bits, i)
  {
    var n := NumPackElem(bits);
    DivNat(i, n);
    DivNat(j, n);
    if i % n < j % n {
      MulStep(i % n, j % n, bits);
    } else {
      MulStep(j % n, i % n, bits);
    }
  }

  /** Reducing modulo `k * p` first does not change the remainder modulo `p`. */
  lemma ModOfMod(v: int, p: nat, k: nat)
    requires p > 0 && k > 0
    ensures (v % (k * p)) % p == v % p
  {
    var m := k * p;
    var q, r := v / m, v % m;
    assert v == q * m + r;
    DivNat(r, p);
    MulAssoc(q, k, p);
    MulDistrib(q * k, r / p, p);
    assert v == (q * k + r / p) * p + r % p;
    DivModUnique(v, q * k + r / p, p, r % p);
  }

  lemma MulComm(a: int, b: int)
    ensures a * b == b * a
  {
  }

  lemma ModOfWrap(v: int, b: nat)
    requires b <= 32
    ensures ToU32(v) % Pow2(b) == v % Pow2(b)
  {
    var p, k := Pow2(b), Pow2(32 - b);
    Pow2Of32();
    Pow2Add(b, 32 - b);
    assert p * k == U32;
    MulComm(p, k);
    ModOfMod(v, p, k);
  }

  /** `SetUnsigned(i, v)` then `GetUnsigned(i)` returns the low `bits` bits of `v`. */
  lemma UnsignedRoundTrip(data: seq<Word>, bits: nat, index: nat, value: Word)
    requires ValidWidth(bits) && WordIndex(bits, index) < |data|
    ensures GetUnsigned(WithUnsigned(data, bits, index, value), bits, index) == value % Pow2(bits)
  {
    if bits < 32 {
      PackedRoundTrip(data, bits, index, value);
    } else {
      WordRoundTrip(data, index, value);
    }
  }

  lemma WordRoundTrip(data: seq<Word>, index: nat, value: Word)
    requires WordIndex(32, index) < |data|
    ensures GetUnsigned(WithUnsigned(data, 32, index, value), 32, index) == value % Pow2(32)
  {
    Pow2Of32();
    assert WithUnsigned(data, 32, index, value) == data[index := value];
  }

  lemma PackedRoundTrip(data: seq<Word>, bits: nat, index: nat, value: Word)
    requires ValidWidth(bits) && bits < 32 && WordIndex(bits, index) < |data|
    ensures GetUnsigned(WithUnsigned(data, bits, index, value), bits, index) == value % Pow2(bits)
  {
    var off, sh := WordIndex(bits, index), Shift(bits, index);
    var r := WithUnsigned(data, bits, index, value);
    assert r[off] == Put(data[off], sh, bits, value);
    PutThenField(data[off], sh, bits, value);
    assert GetUnsigned(r, bits, index) == Field(r[off], sh, bits);
  }

  /** `SetSigned(i, v)` then `GetSigned(i)` returns the sign-extension of the low `bits` bits of `v`. */
  lemma SignedRoundTrip(data: seq<Word>, bits: nat, index: nat, value: int)
    requires ValidWidth(bits) && WordIndex(bits, index) < |data|
    ensures GetSigned(WithSigned(data, bits, index, value), bits, index) == SignExtend(value % Pow2(bits), bits)
  {
    UnsignedRoundTrip(data, bits, index, ToU32(value));
    ModOfWrap(value, bits);
  }

  /** A value that fits in `bits` signed bits comes back unchanged. */
  lemma SignedRoundTripExact(data: seq<Word>, bits: nat, index: nat, value: int)
    requires ValidWidth(bits) && WordIndex(bits, index) < |data|
    requires -(Pow2(bits - 1) as int) <= value < Pow2(bits - 1)
    ensures GetSigned(WithSigned(data, bits, index, value), bits, index) == value
  {
    SignedRoundTrip(data, bits, index, value);
    assert Pow2(bits) == 2 * Pow2(bits - 1);
    if value < 0 {
      DivModUnique(value, -1, Pow2(bits), value + Pow2(bits));
    } else {
      DivModUnique(value, 0, Pow2(bits), value);
    }
  }

  /** A set changes no other element: every other index reads as before. */
  lemma SetKeepsOtherElements(data: seq<Word>, bits: nat, index: nat, value: Word, j: nat)
    requires ValidWidth(bits) && WordIndex(bits, index) < |data| && WordIndex(bits, j) < |data|
    requires j != index
    ensures GetUnsigned(WithUnsigned(data, bits, index, value), bits, j) == GetUnsigned(data, bits, j)
    ensures GetSigned(WithUnsigned(data, bits, index, value), bits, j) == GetSigned(data, bits, j)
  {
    var r := WithUnsigned(data, bits, index, value);
    var oi, oj := WordIndex(bits, index), WordIndex(bits, j);
    assert GetUnsigned(r, bits, j) == GetUnsigned(data, bits, j) by {
      if bits == 32 {
        assert r == data[index := value];
      } else if oi != oj {
        assert r[oj] == data[oj];
      } else {
        var si, sj := Shift(bits, index), Shift(bits, j);
        assert r[oj] == Put(data[oi], si, bits, value);
        SlotsDisjoint(bits, index, j);
        PutKeepsOtherFields(data[oi], si, bits, value, sj, bits);
      }
    }
  }

  /** A set changes only bits `[Shift, Shift + bits)` of word `WordIndex`; all other words are untouched. */
  lemma SetChangesOnlyItsBits(data: seq<Word>, bits: nat, index: nat, value: Word)
    requires ValidWidth(bits) && WordIndex(bits, index) < |data|
    ensures var r := WithUnsigned(data, bits, index, value);
      && |r| == |data|
      && (forall k :: 0 <= k < |data| && k != WordIndex(bits, index) ==> r[k] == data[k])
      && (forall t: nat :: t < 32 && !(Shift(bits, index) <= t < Shift(bits, index) + bits) ==>
            Field(r[WordIndex(bits, index)], t, 1) == Field(data[WordIndex(bits, index)], t, 1))
  {
    var r := WithUnsigned(data, bits, index, value);
    var off, s := WordIndex(bits, index), Shift(bits, index);
    forall t: nat | t < 32 && !(s <= t < s + bits)
      ensures Field(r[off], t, 1) == Field(data[off], t, 1)
    {
      PutKeepsOtherFields(data[off], s, bits, value, t, 1);
    }
  }

  /** The packed `GetUnsigned` as written misreads what `SetUnsigned` stored: element 1 of a 4-bit packing. */
  lemma GetUnsignedAsWrittenMisreads()
    ensures var d := WithUnsigned([0], 4, 1, 15);
      GetUnsigned(d, 4, 1) == 15 && GetUnsignedAsWritten(d, 4, 1) == 8
  {
    assert NumPackElem(4) == 8;
    assert WordIndex(4, 1) == 0 && Shift(4, 1) == 4;
    assert Pow2(1) == 2 && Pow2(4) == 16 && Pow2(8) == 256;
    PutClosed(0, 4, 4, 15);
    assert WithUnsigned([0], 4, 1, 15) == [240];
    FieldClosed(240, 4, 4);
    FieldClosed(240, 1, 4);
  }
}

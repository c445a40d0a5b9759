// Integer helpers shared by the device models: C-style fixed-width
// arithmetic written out explicitly on Dafny's unbounded integers.
module Arith {

  function Max(a: int, b: int): (r: int)
    ensures r >= a && r >= b && (r == a || r == b)
  {
    if a >= b then a else b
  }

  function Min(a: int, b: int): (r: int)
    ensures r <= a && r <= b && (r == a || r == b)
  {
    if a <= b then a else b
  }

  /** Ceiling division of a non-negative numerator, `ceil(a / b)`. */
  function CeilDiv(a: nat, b: nat): (r: nat)
    requires b > 0
    ensures r * b >= a && (r == 0 || (r - 1) * b < a)
  {
    (a + b - 1) / b
  }

  /** `2^e` */
  function Pow2(e: nat): (r: nat)
    ensures r >= 1
  {
    if e == 0 then 1 else 2 * Pow2(e - 1)
  }

  const U8: nat := 0x100
  const U16: nat := 0x1_0000
  const U32: nat := 0x1_0000_0000
  const U64: nat := 0x1_0000_0000_0000_0000

  /** Truncation of an arbitrary integer to an unsigned n-byte C value. */
  function ToU8(x: int): (r: nat)
    ensures r < U8
  {
    x % U8
  }

  function ToU16(x: int): (r: nat)
    ensures r < U16
  {
    x % U16
  }

  function ToU32(x: int): (r: nat)
    ensures r < U32
  {
    x % U32
  }

  function ToU64(x: int): (r: nat)
    ensures r < U64
  {
    x % U64
  }

  /** Conversion of an integer to a two's-complement 32-bit C `int`. */
  function ToI32(x: int): (r: int)
    ensures -0x8000_0000 <= r < 0x8000_0000
    ensures (x - r) % U32 == 0
  {
    var u := x % U32;
    if u >= 0x8000_0000 then u - U32 else u
  }

  function Abs(x: int): (r: nat)
    ensures r == x || r == -x
  {
    if x >= 0 then x else -x
  }

  /** C's `/` on `int`: the quotient truncated toward zero. */
  function CDiv(a: int, b: int): (r: int)
    requires b != 0
    ensures Abs(r) * Abs(b) <= Abs(a) < (Abs(r) + 1) * Abs(b)
    ensures r != 0 ==> ((r > 0) <==> ((a > 0) == (b > 0)))
  {
    var q := Abs(a) / Abs(b);
    DivNat(Abs(a), Abs(b));
    MulDistrib(q, 1, Abs(b));
    if (a >= 0) == (b > 0) then q else -q
  }

  /** C's `%` on `int`: the remainder takes the sign of the dividend. */
  function CMod(a: int, b: int): (r: int)
    requires b != 0
    ensures CDiv(a, b) * b + r == a
    ensures Abs(r) < Abs(b) && (r != 0 ==> ((r > 0) <==> (a > 0)))
  {
    a - CDiv(a, b) * b
  }

  /** On non-negative operands C division agrees with Dafny's. */
  lemma CDivNonNeg(a: int, b: int)
    requires a >= 0 && b > 0
    ensures CDiv(a, b) == a / b && CMod(a, b) == a % b
  {
  }

  lemma {:induction false} Pow2Add(a: nat, b: nat)
    ensures Pow2(a + b) == Pow2(a) * Pow2(b)
    decreases a
  {
    if a > 0 {
      Pow2Add(a - 1, b);
      assert Pow2(a + b) == 2 * Pow2(a - 1 + b);
    }
  }

  /** A byte has 256 values. */
  lemma Pow2Byte()
    ensures Pow2(8) == U8
  {
    assert Pow2(4) == 16;
  }

  lemma {:induction false} Pow2Mono(a: nat, b: nat)
    requires a <= b
    ensures Pow2(a) <= Pow2(b)
    decreases b
  {
    if a < b {
      Pow2Mono(a, b - 1);
    }
  }

  lemma MulAssoc(a: int, b: int, c: int)
    ensures a * (b * c) == (a * b) * c
  {
  }

  lemma MulDistrib(a: int, b: int, c: int)
    ensures (a + b) * c == a * c + b * c
  {
  }

  lemma MulGe(k: int, m: int)
    requires k >= 1 && m > 0
    ensures k * m >= m
  {
  }

  /** `(a + 1) * m <= b * m` whenever `a < b`. */
  lemma MulStep(a: nat, b: nat, m: nat)
    requires a < b
    ensures a * m + m <= b * m
  {
    MulDistrib(a, b - a, m);
    if m > 0 {
      MulGe(b - a, m);
    }
  }

  lemma DivNat(w: nat, m: nat)
    requires m > 0
    ensures w / m >= 0 && w == (w / m) * m + w % m && 0 <= w % m < m
  {
  }

  /** A value that fits a C `int` survives the conversions unchanged. */
  lemma SmallInt(x: int)
    ensures 0 <= x < 0x8000_0000 ==> ToI32(x) == x && ToU64(x) == x
  {
    if 0 <= x < 0x8000_0000 {
      DivModUnique(x, 0, U32, x);
      DivModUnique(x, 0, U64, x);
    }
  }

  /** Quotient and remainder are determined by any decomposition with an in-range remainder. */
  lemma DivModUnique(w: int, q: int, m: int, r: int)
    requires m > 0 && 0 <= r < m && w == q * m + r
    ensures w / m == q && w % m == r
  {
    var q0, r0 := w / m, w % m;
    assert w == q0 * m + r0;
    if q0 > q {
      assert (q0 - q) * m == r - r0 by {
        assert q0 * m - q * m == (q0 - q) * m;
      }
      MulGe(q0 - q, m);
    } else if q0 < q {
      assert (q - q0) * m == r0 - r by {
        assert q * m - q0 * m == (q - q0) * m;
      }
      MulGe(q - q0, m);
    }
  }

  /** Adding a multiple of the divisor shifts the quotient and keeps the remainder. */
  lemma DivAddMultiple(a: nat, p: nat, r: nat)
    requires p > 0
    ensures (a * p + r) / p == a + r / p && (a * p + r) % p == r % p
  {
    DivNat(r, p);
    MulDistrib(a, r / p, p);
    DivModUnique(a * p + r, a + r / p, p, r % p);
  }

  lemma DivDiv(x: nat, a: nat, b: nat)
    requires a > 0 && b > 0
    ensures x / a / b == x / (a * b)
  {
    DivNat(x, a);
    var q := x / a;
    DivNat(q, b);
    var q2, rb, ra := q / b, q % b, x % a;
    assert x == q2 * (a * b) + (rb * a + ra) by {
      MulDistrib(q2 * b, rb, a);
      MulAssoc(q2, b, a);
      assert b * a == a * b;
    }
    assert rb * a + ra < a * b by {
      MulStep(rb, b, a);
      assert b * a == a * b;
    }
    DivModUnique(x, q2, a * b, rb * a + ra);
  }

  /** The remainder modulo `2 * p` from the low bit and the remainder of the halved value. */
  lemma ModDouble(w: nat, p: nat)
    requires p > 0
    ensures w % (2 * p) == w % 2 + 2 * ((w / 2) % p)
  {
    var h := w / 2;
    DivNat(h, p);
    assert w == (h / p) * (2 * p) + (w % 2 + 2 * (h % p));
    DivModUnique(w, h / p, 2 * p, w % 2 + 2 * (h % p));
  }

  /** A digit below `ps` and a digit below `pb` fit together below `ps * pb`. */
  lemma PartBound(f: nat, lo: nat, pb: nat, ps: nat)
    requires f < pb && lo < ps
    ensures f * ps + lo < ps * pb
  {
    assert f * ps <= (pb - 1) * ps;
    assert (pb - 1) * ps == ps * pb - ps;
  }

  /** Two base-`m` digit pairs with in-range low digits are equal only digit by digit. */
  lemma DigitsUnique(q1: int, r1: int, q2: int, r2: int, m: int)
    requires m > 0 && 0 <= r1 < m && 0 <= r2 < m && q1 * m + r1 == q2 * m + r2
    ensures q1 == q2 && r1 == r2
  {
    DivModUnique(q1 * m + r1, q1, m, r1);
    DivModUnique(q2 * m + r2, q2, m, r2);
  }

  /** Products of non-negative factors are monotone in both factors. */
  lemma MulLe(a: nat, b: nat, c: nat, d: nat)
    requires a <= c && b <= d
    ensures a * b <= c * d
  {
    MulDistrib(c - a, a, b);
    MulDistrib(d - b, b, c);
    assert (c - a) * b >= 0 && (d - b) * c >= 0;
    assert a * b <= c * b == b * c <= d * c;
  }

  /** Sequence concatenation is associative. */
  lemma AppendAssoc<T>(a: seq<T>, b: seq<T>, c: seq<T>)
    ensures a + (b + c) == (a + b) + c
  {
  }
}

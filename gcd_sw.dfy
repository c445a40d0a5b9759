// The software reference of the GCD workload: Euclid's algorithm by
// repeated subtraction on two 16-bit unsigned integers.
module GcdSw {
  import opened Arith

  /** `d` divides `n`. */
  predicate Divides(d: nat, n: nat) {
    d > 0 && n % d == 0
  }

  /** `g` is the greatest common divisor of `a` and `b`: a common divisor
      that every other common divisor divides. */
  ghost predicate IsGcd(g: nat, a: nat, b: nat) {
    Divides(g, a) && Divides(g, b) && forall d: nat :: Divides(d, a) && Divides(d, b) ==> Divides(d, g)
  }

  /** `x` and `y` have the same common divisors as `a` and `b`. */
  ghost predicate SameDivisors(x: nat, y: nat, a: nat, b: nat) {
    forall d: nat :: Divides(d, x) && Divides(d, y) <==> Divides(d, a) && Divides(d, b)
  }

  /** One iteration of the loop of `sw_gcd`: the larger operand loses the smaller. */
  function Step(x: nat, y: nat): (nat, nat)
    requires x != y
  {
    if x > y then (x - y, y) else (x, y - x)
  }

  /** The state after `n` iterations, or earlier when the operands meet. */
  function Iterate(x: nat, y: nat, n: nat): (nat, nat)
    decreases n
  {
    if n == 0 || x == y then (x, y) else Iterate(Step(x, y).0, Step(x, y).1, n - 1)
  }

  /** A common divisor of two numbers divides their difference, and a
      divisor of the difference and the smaller one divides the larger one. */
  lemma DividesDiff(d: nat, x: nat, y: nat)
    requires y <= x
    ensures Divides(d, x) && Divides(d, y) <==> Divides(d, x - y) && Divides(d, y)
  {
    if d > 0 {
      DivNat(x, d);
      DivNat(y, d);
      if x % d == 0 && y % d == 0 {
        assert x - y == (x / d - y / d) * d;
        DivModUnique(x - y, x / d - y / d, d, 0);
      }
      if (x - y) % d == 0 && y % d == 0 {
        DivNat(x - y, d);
        assert x == ((x - y) / d + y / d) * d;
        DivModUnique(x, (x - y) / d + y / d, d, 0);
      }
    }
  }

  /** An iteration keeps the common divisors, hence the gcd. */
  lemma StepKeepsDivisors(x: nat, y: nat)
    requires x != y
    ensures SameDivisors(Step(x, y).0, Step(x, y).1, x, y)
  {
    forall d: nat
      ensures Divides(d, Step(x, y).0) && Divides(d, Step(x, y).1) <==> Divides(d, x) && Divides(d, y)
    {
      if x > y { DividesDiff(d, x, y); } else { DividesDiff(d, y, x); }
    }
  }

  /** With both operands positive an iteration keeps them positive and
      strictly lowers their sum, so the loop terminates. */
  lemma StepDecreases(x: nat, y: nat)
    requires x > 0 && y > 0 && x != y
    ensures Step(x, y).0 > 0 && Step(x, y).1 > 0 && Step(x, y).0 + Step(x, y).1 < x + y
  {
  }

  /** Once the operands are equal the common divisors are those of either. */
  lemma EqualOperands(x: nat, a: nat, b: nat)
    requires x > 0 && SameDivisors(x, x, a, b)
    ensures IsGcd(x, a, b)
  {
    assert x % x == 0 by { DivModUnique(x, 1, x, 0); }
    assert Divides(x, x);
  }

  /**
   * `sw_gcd(first_int, second_int)`. For positive operands the result is
   * their greatest common divisor, hence no larger than either; equal
   * operands are returned at once (`0` for `0, 0`). When exactly one
   * operand is 0 the loop never ends (`OneZeroNeverEnds`), so that input
   * is excluded here.
   */
  method SwGcd(a: nat, b: nat) returns (r: nat)
    requires a < U16 && b < U16
    requires (a > 0 && b > 0) || a == b
    ensures r < U16
    ensures a == b ==> r == a
    ensures a > 0 && b > 0 ==> IsGcd(r, a, b) && r <= a && r <= b
  {
    if a == b {
      return a;
    }
    var x, y := a, b;
    while x != y
      invariant x > 0 && y > 0 && x <= a && y <= b
      invariant SameDivisors(x, y, a, b)
      decreases x + y
    {
      StepKeepsDivisors(x, y);
      var (x1, y1) := Step(x, y);
      x, y := x1, y1;
    }
    EqualOperands(x, a, b);
    return x;
  }

  /** The result divides both inputs and is at most the smaller one. */
  lemma GcdBounds(g: nat, a: nat, b: nat)
    requires a > 0 && b > 0 && IsGcd(g, a, b)
    ensures g <= a && g <= b && g > 0
  {
    DivisorBound(g, a);
    DivisorBound(g, b);
  }

  /** A divisor of a positive number is no larger than it. */
  lemma DivisorBound(d: nat, n: nat)
    requires n > 0 && Divides(d, n)
    ensures d <= n
  {
    DivNat(n, d);
    if d > n {
      DivModUnique(n, 0, d, n);
    }
  }

  /** If exactly one operand is 0 the other never changes and the two never
      meet: every number of iterations leaves the loop condition true. */
  lemma {:induction false} OneZeroNeverEnds(x: nat, y: nat, n: nat)
    requires (x == 0) != (y == 0)
    ensures Iterate(x, y, n) == (x, y) && Iterate(x, y, n).0 != Iterate(x, y, n).1
    decreases n
  {
    if n > 0 {
      assert Step(x, y) == (x, y);
      OneZeroNeverEnds(x, y, n - 1);
    }
  }
}

/** Divisibility, greatest common divisors and least common multiples, independent of how the source computes them. */
module Divisibility {

  predicate Divides(d: nat, n: nat) {
    d > 0 && n % d == 0
  }

  lemma MultipleMagnitude(e: int, d: int)
    requires d > 0
    ensures e >= 1 ==> e * d >= d
    ensures e <= -1 ==> e * d <= -d
  {
  }

  /** The unique quotient and remainder of a division. */
  lemma DivModUnique(n: int, d: int, q: int, r: int)
    requires d > 0 && 0 <= r < d && n == q * d + r
    ensures n / d == q && n % d == r
  {
    var e := q - n / d;
    assert e * d == n % d - r by {
      assert n == (n / d) * d + n % d;
      assert e * d == q * d - (n / d) * d;
    }
    MultipleMagnitude(e, d);
  }

  lemma QuotientOf(d: nat, n: nat)
    requires Divides(d, n)
    ensures n == (n / d) * d
  {
  }

  lemma MultipleDivides(d: nat, k: nat)
    requires d > 0
    ensures k * d >= 0 && Divides(d, k * d) && (k * d) / d == k
  {
  }

  lemma WitnessDivides(d: nat, n: nat, k: int)
    requires d > 0 && n == k * d
    ensures Divides(d, n)
  {
    DivModUnique(n, d, k, 0);
  }

  /** Adding a multiple of d does not change the remainder modulo d. */
  lemma AddMultiple(n: int, k: int, d: nat)
    requires d > 0
    ensures (n + k * d) % d == n % d
  {
    assert n == (n / d) * d + n % d;
    assert (n / d) * d + k * d == (n / d + k) * d;
    DivModUnique(n + k * d, d, n / d + k, n % d);
  }

  lemma DividesTransitive(a: nat, b: nat, c: nat)
    requires Divides(a, b) && Divides(b, c)
    ensures Divides(a, c)
  {
    QuotientOf(a, b);
    QuotientOf(b, c);
    assert c == (c / b) * ((b / a) * a) == ((c / b) * (b / a)) * a;
    WitnessDivides(a, c, (c / b) * (b / a));
  }

  lemma DividesLinear(d: nat, a: nat, b: nat, x: int, y: int, n: nat)
    requires Divides(d, a) && Divides(d, b) && n == a * x + b * y
    ensures Divides(d, n)
  {
    QuotientOf(d, a);
    QuotientOf(d, b);
    var p, q := a / d, b / d;
    assert a * x == (p * x) * d;
    assert b * y == (q * y) * d;
    assert n == (p * x + q * y) * d;
    WitnessDivides(d, n, p * x + q * y);
  }

  lemma DividesAtMost(d: nat, n: nat)
    requires Divides(d, n) && n > 0
    ensures d <= n
  {
  }

  // ----- greatest common divisor -----

  predicate CommonDivisor(d: nat, a: nat, b: nat) {
    Divides(d, a) && Divides(d, b)
  }

  ghost predicate IsGcd(g: nat, a: nat, b: nat) {
    CommonDivisor(g, a, b) && forall d: nat :: CommonDivisor(d, a, b) ==> Divides(d, g)
  }

  function Gcd(a: nat, b: nat): (g: nat)
    requires a > 0
    ensures g > 0
    decreases b
  {
    if b == 0 then a else Gcd(b, a % b)
  }

  lemma BezoutStep(a: int, b: int, q: int, r: int, x: int, y: int)
    requires a == q * b + r
    ensures b * x + r * y == a * y + b * (x - q * y)
  {
  }

  /** Coefficients with Gcd(a, b) == a * x + b * y. */
  lemma {:induction false} Bezout(a: nat, b: nat) returns (x: int, y: int)
    requires a > 0
    ensures Gcd(a, b) == a * x + b * y
    decreases b
  {
    if b == 0 {
      x, y := 1, 0;
    } else {
      var x', y' := Bezout(b, a % b);
      BezoutStep(a, b, a / b, a % b, x', y');
      x, y := y', x' - (a / b) * y';
    }
  }

  lemma {:induction false} GcdDivides(a: nat, b: nat)
    requires a > 0
    ensures CommonDivisor(Gcd(a, b), a, b)
    decreases b
  {
    var g := Gcd(a, b);
    if b == 0 {
      DivModUnique(a, a, 1, 0);
    } else {
      GcdDivides(b, a % b);
      assert a == b * (a / b) + (a % b) * 1;
      DividesLinear(g, b, a % b, a / b, 1, a);
    }
  }

  lemma GcdIsGcd(a: nat, b: nat)
    requires a > 0
    ensures IsGcd(Gcd(a, b), a, b)
  {
    GcdDivides(a, b);
    var x, y := Bezout(a, b);
    forall d: nat | CommonDivisor(d, a, b)
      ensures Divides(d, Gcd(a, b))
    {
      DividesLinear(d, a, b, x, y, Gcd(a, b));
    }
  }

  lemma GcdUnique(g: nat, h: nat, a: nat, b: nat)
    requires a > 0 && IsGcd(g, a, b) && IsGcd(h, a, b)
    ensures g == h
  {
    assert CommonDivisor(g, a, b) && CommonDivisor(h, a, b);
    DividesAtMost(g, h);
    DividesAtMost(h, g);
  }

  lemma GcdSymmetric(a: nat, b: nat)
    requires a > 0 && b > 0
    ensures Gcd(a, b) == Gcd(b, a)
  {
    GcdIsGcd(a, b);
    GcdIsGcd(b, a);
    assert forall d: nat :: CommonDivisor(d, a, b) == CommonDivisor(d, b, a);
    assert IsGcd(Gcd(b, a), a, b);
    GcdUnique(Gcd(a, b), Gcd(b, a), a, b);
  }

  // ----- least common multiple -----

  predicate AllDivide(ps: seq<nat>, n: nat) {
    forall i :: 0 <= i < |ps| ==> Divides(ps[i], n)
  }

  /** `m` is the least common multiple of `ps`: a positive common multiple that divides every common multiple. */
  ghost predicate IsLcm(m: nat, ps: seq<nat>) {
    m > 0 && AllDivide(ps, m) && forall n: nat :: AllDivide(ps, n) ==> Divides(m, n)
  }

  lemma LcmUnique(m: nat, n: nat, ps: seq<nat>)
    requires IsLcm(m, ps) && IsLcm(n, ps)
    ensures m == n
  {
  }
}

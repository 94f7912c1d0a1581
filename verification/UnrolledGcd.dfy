/**
 The preprocessor macros GCD and LCM of table_scheduler.c: Euclid's algorithm unrolled to
 eight divisions, written with `!` and multiplication instead of branches.
 */
module UnrolledGcd {
  import opened Divisibility

  // C's truth values
  function Not(n: nat): nat { if n == 0 then 1 else 0 }
  function Flag(b: bool): nat { if b then 1 else 0 }

  /** Macro GCD_`level`(a, b) for levels 1 to 8, which differ only in their number; GCD_last is level 9. */
  function GcdLevel(level: nat, a: nat, b: nat): nat
    requires 1 <= level <= 9
    decreases 9 - level
  {
    if level == 9 then a
    else Not(b) * a + Not(Not(b)) * GcdLevel(level + 1, b, a % (b + Not(b)))
  }

  function MacroGcd(a: nat, b: nat): nat {
    Flag(a >= b) * GcdLevel(1, a, b) + Flag(a < b) * GcdLevel(1, b, a)
  }

  /** Euclid's algorithm cut off after `fuel` divisions. */
  function CutEuclid(fuel: nat, a: nat, b: nat): nat
  {
    if b == 0 then a else if fuel == 0 then a else CutEuclid(fuel - 1, b, a % b)
  }

  /** The number of divisions Euclid's algorithm makes on (a, b). */
  function Divisions(a: nat, b: nat): nat
    decreases b
  {
    if b == 0 then 0 else 1 + Divisions(b, a % b)
  }

  function Max(a: nat, b: nat): nat { if a >= b then a else b }
  function Min(a: nat, b: nat): nat { if a >= b then b else a }

  /** The test a configuration tool could make before handing (a, b) to the macro. */
  predicate WithinEightDivisions(a: nat, b: nat) {
    Divisions(Max(a, b), Min(a, b)) <= 8
  }

  function Fib(n: nat): nat {
    if n < 2 then n else Fib(n - 2) + Fib(n - 1)
  }

  lemma {:induction false} LevelIsCutEuclid(level: nat, a: nat, b: nat)
    requires 1 <= level <= 9
    ensures GcdLevel(level, a, b) == CutEuclid(9 - level, a, b)
    decreases 9 - level
  {
    if level < 9 {
      if b > 0 {
        LevelIsCutEuclid(level + 1, b, a % b);
        assert Not(b) * a == 0;
      } else {
        assert Not(Not(b)) * GcdLevel(level + 1, b, a % (b + Not(b))) == 0;
      }
    }
  }

  /** The cut is harmless exactly when Euclid is finished by then; otherwise the result is too large. */
  lemma {:induction false} CutEuclidExact(fuel: nat, a: nat, b: nat)
    requires a > 0 && a >= b && (fuel == 0 ==> a > b)
    ensures Divisions(a, b) <= fuel ==> CutEuclid(fuel, a, b) == Gcd(a, b)
    ensures Divisions(a, b) > fuel ==> Gcd(a, b) < CutEuclid(fuel, a, b)
    ensures b > 0 && fuel > 0 ==> 0 < CutEuclid(fuel, a, b) <= b
    decreases b
  {
    if b > 0 {
      if fuel == 0 {
        GcdDivides(a, b);
        DividesAtMost(Gcd(a, b), b);
      } else {
        CutEuclidExact(fuel - 1, b, a % b);
      }
    }
  }

  /** The macro yields the greatest common divisor if and only if eight divisions suffice. */
  lemma MacroGcdExact(a: nat, b: nat)
    requires a > 0 && b > 0
    ensures IsGcd(MacroGcd(a, b), a, b) <==> WithinEightDivisions(a, b)
    ensures WithinEightDivisions(a, b) ==> MacroGcd(a, b) == Gcd(a, b)
    ensures !WithinEightDivisions(a, b) ==> Gcd(a, b) < MacroGcd(a, b)
    ensures Gcd(a, b) <= MacroGcd(a, b) <= Min(a, b)
  {
    var hi, lo := Max(a, b), Min(a, b);
    LevelIsCutEuclid(1, hi, lo);
    CutEuclidExact(8, hi, lo);
    GcdSymmetric(a, b);
    GcdIsGcd(a, b);
    if IsGcd(MacroGcd(a, b), a, b) {
      GcdUnique(MacroGcd(a, b), Gcd(a, b), a, b);
    }
  }

  predicate RemainderAt(r: seq<nat>, k: nat)
    requires k + 2 < |r|
  {
    r[k + 1] > 0 && r[k + 2] == r[k] % r[k + 1]
  }

  /** `r` is the chain of remainders of Euclid's algorithm from (a, b), without a 0 before its last element. */
  predicate IsRemainderChain(r: seq<nat>, a: nat, b: nat) {
    && |r| >= 2 && r[0] == a && r[1] == b
    && (forall k :: 0 <= k < |r| - 2 ==> RemainderAt(r, k))
  }

  lemma ChainTail(r: seq<nat>, a: nat, b: nat)
    requires IsRemainderChain(r, a, b) && |r| > 2
    ensures b > 0 && IsRemainderChain(r[1..], b, a % b)
  {
    assert RemainderAt(r, 0);
    var s := r[1..];
    forall k | 0 <= k < |s| - 2
      ensures RemainderAt(s, k)
    {
      assert RemainderAt(r, k + 1);
    }
  }

  lemma {:induction false} CutIsRemainder(r: seq<nat>, a: nat, b: nat)
    requires IsRemainderChain(r, a, b)
    ensures CutEuclid(|r| - 2, a, b) == r[|r| - 2]
    decreases |r|
  {
    if |r| > 2 {
      ChainTail(r, a, b);
      CutIsRemainder(r[1..], b, a % b);
    }
  }

  /** Whatever the arguments, the macro returns the divisor of the eighth division if Euclid gets that far. */
  lemma MacroIsEighthDivisor(r: seq<nat>, a: nat, b: nat)
    requires a >= b && |r| == 10 && IsRemainderChain(r, a, b)
    ensures MacroGcd(a, b) == MacroGcd(b, a) == r[8]
  {
    hide GcdLevel;
    LevelIsCutEuclid(1, a, b);
    CutIsRemainder(r, a, b);
  }

  lemma {:induction false} ChainOf(fuel: nat, a: nat, b: nat) returns (r: seq<nat>)
    requires Divisions(a, b) >= fuel
    ensures |r| == fuel + 2 && IsRemainderChain(r, a, b)
    decreases fuel
  {
    if fuel == 0 {
      r := [a, b];
    } else {
      var rest := ChainOf(fuel - 1, b, a % b);
      r := [a] + rest;
      forall k | 0 <= k < |r| - 2
        ensures RemainderAt(r, k)
      {
        if k > 0 {
          assert RemainderAt(rest, k - 1);
        }
      }
    }
  }

  /** Beyond eight divisions there always is such a chain, so the inexact answers are determined as well. */
  lemma InexactAnswer(a: nat, b: nat) returns (r: seq<nat>)
    requires a >= b > 0 && !WithinEightDivisions(a, b)
    ensures |r| == 10 && IsRemainderChain(r, a, b)
    ensures MacroGcd(a, b) == r[8] && r[9] > 0 && Gcd(a, b) < r[8]
  {
    hide MacroGcd, CutEuclid;
    r := ChainOf(8, a, b);
    MacroIsEighthDivisor(r, a, b);
    MacroGcdExact(a, b);
    LastOfChain(r, a, b);
  }

  lemma {:induction false} LastOfChain(r: seq<nat>, a: nat, b: nat)
    requires IsRemainderChain(r, a, b) && Divisions(a, b) > |r| - 2
    ensures r[|r| - 1] > 0
    decreases |r|
  {
    if |r| > 2 {
      ChainTail(r, a, b);
      LastOfChain(r[1..], b, a % b);
    }
  }

  lemma DividendAtLeast(a: nat, b: nat)
    requires a >= b > 0
    ensures a >= b + a % b
  {
    assert a == (a / b) * b + a % b;
    MultipleMagnitude(a / b, b);
  }

  /** Lame's theorem: n divisions need arguments at least as large as consecutive Fibonacci numbers. */
  lemma {:induction false} LameBound(n: nat, a: nat, b: nat)
    requires a > b && Divisions(a, b) >= n >= 1
    ensures b >= Fib(n + 1) && a >= Fib(n + 2)
    decreases n
  {
    if n > 1 {
      LameBound(n - 1, b, a % b);
      DividendAtLeast(a, b);
    }
  }

  lemma EqualNeedOne(a: nat)
    requires a > 0
    ensures Divisions(a, a) == 1
  {
    DivModUnique(a, a, 1, 0);
    assert Divisions(a, 0) == 0;
  }

  lemma FibonacciNine()
    ensures Fib(10) == 55 && Fib(11) == 89
  {
  }

  /** The guarantee a task set can be checked against by looking at magnitudes only. */
  lemma SmallArgumentsExact(a: nat, b: nat)
    requires a > 0 && b > 0
    requires Min(a, b) < 55 || Max(a, b) < 89
    ensures WithinEightDivisions(a, b) && IsGcd(MacroGcd(a, b), a, b)
  {
    var hi, lo := Max(a, b), Min(a, b);
    if Divisions(hi, lo) > 8 {
      EqualNeedOne(lo);
      LameBound(9, hi, lo);
      FibonacciNine();
      assert false;
    }
    MacroGcdExact(a, b);
  }

  lemma MacroOnOrdered(a: nat, b: nat)
    requires a >= b
    ensures MacroGcd(a, b) == GcdLevel(1, a, b)
  {
    hide GcdLevel;
    assert Flag(a < b) * GcdLevel(1, b, a) == 0;
  }

  /** Neither bound can be raised: (89, 55) takes nine divisions and the macro answers 2. */
  lemma BoundIsTight(a: nat, b: nat)
    requires a == 89 && b == 55
    ensures MacroGcd(a, b) == 2 && Gcd(a, b) == 1
    ensures !IsGcd(MacroGcd(a, b), a, b) && !WithinEightDivisions(a, b)
  {
    hide MacroGcd;
    assert Gcd(89, 55) == Gcd(34, 21) == Gcd(13, 8) == Gcd(5, 3) == Gcd(2, 1) == 1;
    assert CutEuclid(8, 89, 55) == CutEuclid(6, 34, 21) == CutEuclid(4, 13, 8) == CutEuclid(2, 5, 3) == 2;
    assert MacroGcd(a, b) == GcdLevel(1, a, b) by { MacroOnOrdered(a, b); }
    LevelIsCutEuclid(1, a, b);
    GcdIsGcd(a, b);
    MacroGcdExact(a, b);
  }

  // ----- LCM -----

  function Quotient(n: nat, d: nat): (q: nat)
    requires d > 0
  {
    n / d
  }

  function Product(a: nat, b: nat): (n: nat)
  {
    a * b
  }

  function MacroLcm(a: nat, b: nat): nat
    requires MacroGcd(a, b) > 0
  {
    Quotient(Product(a, b), MacroGcd(a, b))
  }

  lemma QuotientBelow(n: nat, h: nat, m: nat)
    requires h > 0 && n < m * h
    ensures Quotient(n, h) < m
  {
  }

  lemma QuotientAtLeast(n: nat, h: nat, m: nat)
    requires h > 0 && n >= m * h
    ensures Quotient(n, h) >= m
  {
    var q, r := n / h, n % h;
    assert n == q * h + r;
    if q < m {
      MultipleMonotone(q + 1, m, h);
    }
  }

  lemma MultipleMonotone(x: nat, y: nat, h: nat)
    requires x <= y
    ensures x * h <= y * h
  {
  }

  /** A common multiple of a and b is a multiple of m, where m * gcd(a, b) == a * b. */
  lemma CommonMultipleOfQuotient(a: nat, b: nat, m: nat, n: nat)
    requires a > 0 && b > 0 && m > 0 && a * b == m * Gcd(a, b)
    requires Divides(a, n) && Divides(b, n)
    ensures Divides(m, n)
  {
    var g := Gcd(a, b);
    var x, y := Bezout(a, b);
    QuotientOf(a, n);
    QuotientOf(b, n);
    var s, t := n / a, n / b;
    var k := t * x + s * y;
    ScaledCombination(a, b, g, m, n, s, t, x, y);
    assert n == k * m;
    WitnessDivides(m, n, k);
  }

  lemma ScaledCombination(a: int, b: int, g: int, m: int, n: int, s: int, t: int, x: int, y: int)
    requires g > 0 && g == a * x + b * y && a * b == m * g && n == s * a && n == t * b
    ensures n == (t * x + s * y) * m
  {
  }

  /** a * b / gcd(a, b) is the least common multiple. */
  lemma QuotientIsLcm(a: nat, b: nat) returns (m: nat)
    requires a > 0 && b > 0
    ensures a * b == m * Gcd(a, b) && m == Quotient(Product(a, b), Gcd(a, b))
    ensures IsLcm(m, [a, b])
  {
    var g := Gcd(a, b);
    GcdDivides(a, b);
    QuotientOf(g, a);
    QuotientOf(g, b);
    var p, q := a / g, b / g;
    m := p * b;
    assert m > 0;
    assert m == q * a by {
      assert p * b == p * (q * g) == q * (p * g);
    }
    assert a * b == m * g by {
      assert (p * g) * b == (p * b) * g;
    }
    DivModUnique(a * b, g, m, 0);
    WitnessDivides(a, m, q);
    WitnessDivides(b, m, p);
    forall n: nat | AllDivide([a, b], n)
      ensures Divides(m, n)
    {
      assert Divides([a, b][0], n) && Divides([a, b][1], n);
      CommonMultipleOfQuotient(a, b, m, n);
    }
  }

  lemma QuotientByMore(n: nat, m: nat, g: nat, h: nat)
    requires n == m * g && m > 0 && g < h
    ensures Quotient(n, h) < m
  {
    assert m * g < m * h by { assert m * (h - g) > 0; }
    QuotientBelow(n, h, m);
  }

  /** Dividing a * b by anything larger than the gcd loses the common multiple. */
  lemma QuotientByTooMuch(a: nat, b: nat, h: nat)
    requires a > 0 && Gcd(a, b) < h <= b
    ensures Quotient(Product(a, b), h) > 0
    ensures !AllDivide([a, b], Quotient(Product(a, b), h))
  {
    var m := QuotientIsLcm(a, b);
    var n := Product(a, b);
    assert n >= a * h by { MultipleMonotone(h, b, a); }
    QuotientAtLeast(n, h, a);
    QuotientByMore(n, m, Gcd(a, b), h);
    NoSmallerCommonMultiple(m, Quotient(n, h), [a, b]);
  }

  lemma NoSmallerCommonMultiple(m: nat, w: nat, ps: seq<nat>)
    requires IsLcm(m, ps) && 0 < w < m
    ensures !AllDivide(ps, w)
  {
  }

  /**
   The macro's LCM is the least common multiple, or indeed any common multiple at all,
   if and only if eight divisions suffice.
   */
  lemma MacroLcmExact(a: nat, b: nat)
    requires a > 0 && b > 0
    ensures MacroGcd(a, b) > 0 && MacroLcm(a, b) > 0
    ensures WithinEightDivisions(a, b) <==> IsLcm(MacroLcm(a, b), [a, b])
    ensures WithinEightDivisions(a, b) <==> AllDivide([a, b], MacroLcm(a, b))
  {
    MacroGcdExact(a, b);
    if WithinEightDivisions(a, b) {
      var m := QuotientIsLcm(a, b);
    } else {
      QuotientByTooMuch(a, b, MacroGcd(a, b));
    }
  }
}

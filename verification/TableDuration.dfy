/**
 The first part of table_scheduler_init: tasks are grouped by table and the periods of each
 group are folded through the LCM macro into the table's duration.
 */
module TableDuration {
  import opened Divisibility
  import opened UnrolledGcd

  predicate Positive(ps: seq<nat>) {
    forall i :: 0 <= i < |ps| ==> ps[i] > 0
  }

  /** The fold of the periods in task order, starting from 1. */
  function Duration(ps: seq<nat>): (d: nat)
    requires Positive(ps)
    ensures d > 0
  {
    if ps == [] then 1
    else
      var n := |ps| - 1;
      var d := Duration(ps[..n]);
      MacroLcmExact(d, ps[n]);
      MacroLcm(d, ps[n])
  }

  /** Every pair of arguments that the fold hands to the macro stays within eight divisions. */
  predicate StepsExact(ps: seq<nat>)
    requires Positive(ps)
  {
    ps == [] ||
    var n := |ps| - 1;
    StepsExact(ps[..n]) && WithinEightDivisions(Duration(ps[..n]), ps[n])
  }

  /** After every task of the table the fold holds the least common multiple of the periods so far. */
  ghost predicate PrefixesExact(ps: seq<nat>)
    requires Positive(ps)
  {
    IsLcm(Duration(ps), ps) && (ps == [] || PrefixesExact(ps[..|ps| - 1]))
  }

  lemma IsLcmAppend(d: nat, m: nat, ps: seq<nat>, p: nat)
    requires IsLcm(d, ps) && IsLcm(m, [d, p])
    ensures IsLcm(m, ps + [p])
  {
    var qs := ps + [p];
    assert Divides([d, p][0], m) && Divides([d, p][1], m);
    forall i | 0 <= i < |qs|
      ensures Divides(qs[i], m)
    {
      if i < |ps| {
        DividesTransitive(ps[i], d, m);
      }
    }
    forall n: nat | AllDivide(qs, n)
      ensures Divides(m, n)
    {
      assert forall i :: 0 <= i < |ps| ==> ps[i] == qs[i];
      assert Divides(qs[|ps|], n);
      assert AllDivide([d, p], n);
    }
  }

  lemma CommonMultipleSplit(d: nat, m: nat, ps: seq<nat>, p: nat)
    requires IsLcm(d, ps) && AllDivide(ps + [p], m)
    ensures AllDivide([d, p], m)
  {
    var qs := ps + [p];
    assert Divides(qs[|ps|], m);
    assert forall i :: 0 <= i < |ps| ==> ps[i] == qs[i];
    assert AllDivide(ps, m);
  }

  /** One step of the fold: an exact duration stays exact if and only if the macro is within its range. */
  lemma DurationStep(ps: seq<nat>, p: nat)
    requires Positive(ps) && p > 0 && IsLcm(Duration(ps), ps)
    ensures Positive(ps + [p])
    ensures IsLcm(Duration(ps + [p]), ps + [p]) <==> WithinEightDivisions(Duration(ps), p)
    ensures AllDivide(ps + [p], Duration(ps + [p])) <==> WithinEightDivisions(Duration(ps), p)
  {
    var qs, d := ps + [p], Duration(ps);
    assert qs[..|ps|] == ps;
    var m := Duration(qs);
    MacroLcmExact(d, p);
    assert m == MacroLcm(d, p);
    if WithinEightDivisions(d, p) {
      IsLcmAppend(d, m, ps, p);
    } else if AllDivide(qs, m) {
      CommonMultipleSplit(d, m, ps, p);
    }
  }

  lemma EmptyLcm()
    ensures IsLcm(Duration([]), [])
  {
  }

  /**
   Up to every task of the table the duration is the least common multiple of the periods
   so far, if and only if every step of the fold stays within eight divisions.
   */
  lemma {:induction false} DurationExact(ps: seq<nat>)
    requires Positive(ps)
    ensures PrefixesExact(ps) <==> StepsExact(ps)
  {
    if ps == [] {
      EmptyLcm();
    } else {
      var n := |ps| - 1;
      DurationExact(ps[..n]);
      if PrefixesExact(ps[..n]) {
        DurationStep(ps[..n], ps[n]);
        assert ps == ps[..n] + [ps[n]];
      }
    }
  }

  lemma DurationIsLcm(ps: seq<nat>)
    requires Positive(ps) && StepsExact(ps)
    ensures IsLcm(Duration(ps), ps)
  {
    DurationExact(ps);
  }

  /** A task set whose periods are all below 55 always gets an exact duration. */
  lemma {:induction false} SmallPeriodsExact(ps: seq<nat>)
    requires Positive(ps) && forall i :: 0 <= i < |ps| ==> ps[i] < 55
    ensures StepsExact(ps) && IsLcm(Duration(ps), ps)
  {
    if ps != [] {
      var n := |ps| - 1;
      SmallPeriodsExact(ps[..n]);
      SmallArgumentsExact(Duration(ps[..n]), ps[n]);
    }
    DurationIsLcm(ps);
  }

  /** The order in which the tasks are configured does not matter as long as both orders fold exactly. */
  lemma DurationOrderIndependent(ps: seq<nat>, qs: seq<nat>)
    requires Positive(ps) && Positive(qs) && StepsExact(ps) && StepsExact(qs)
    requires multiset(ps) == multiset(qs)
    ensures Duration(ps) == Duration(qs)
  {
    DurationIsLcm(ps);
    DurationIsLcm(qs);
    SameMembersDivide(ps, qs);
    LcmUnique(Duration(ps), Duration(qs), qs);
  }

  lemma SameMembersDivide(ps: seq<nat>, qs: seq<nat>)
    requires multiset(ps) == multiset(qs)
    ensures forall n: nat :: AllDivide(ps, n) <==> AllDivide(qs, n)
  {
    assert forall p :: p in ps <==> p in multiset(ps);
    assert forall p :: p in qs <==> p in multiset(qs);
    forall n: nat
      ensures AllDivide(ps, n) <==> AllDivide(qs, n)
    {
      assert AllDivide(ps, n) <==> forall p :: p in ps ==> Divides(p, n);
      assert AllDivide(qs, n) <==> forall p :: p in qs ==> Divides(p, n);
    }
  }

  lemma StepAtLeast(d: nat, p: nat)
    requires d > 0 && p > 0
    ensures MacroGcd(d, p) > 0 && MacroLcm(d, p) >= d && MacroLcm(d, p) >= p
  {
    hide MacroGcd, Quotient;
    MacroGcdExact(d, p);
    var h := MacroGcd(d, p);
    MultipleMonotone(h, p, d);
    MultipleMonotone(h, d, p);
    assert Product(d, p) == d * p == p * d;
    QuotientAtLeast(Product(d, p), h, d);
    QuotientAtLeast(Product(d, p), h, p);
  }

  /** Beyond eight divisions a step divides the product by the divisor of the eighth division. */
  lemma InexactStep(ps: seq<nat>, p: nat) returns (r: seq<nat>)
    requires Positive(ps) && p > 0 && !WithinEightDivisions(Duration(ps), p)
    ensures |r| == 10 && IsRemainderChain(r, Max(Duration(ps), p), Min(Duration(ps), p)) && r[8] > 0
    ensures Positive(ps + [p]) && Duration(ps + [p]) == (Duration(ps) * p) / r[8]
  {
    hide MacroGcd, IsRemainderChain;
    var d := Duration(ps);
    assert (ps + [p])[..|ps|] == ps;
    r := InexactAnswer(Max(d, p), Min(d, p));
    MacroIsEighthDivisor(r, Max(d, p), Min(d, p));
  }

  /** However inexact the fold, the duration is never below a period. */
  lemma {:induction false} DurationAtLeast(ps: seq<nat>, i: nat)
    requires Positive(ps) && i < |ps|
    ensures ps[i] <= Duration(ps)
  {
    hide MacroGcd, MacroLcm;
    var n := |ps| - 1;
    StepAtLeast(Duration(ps[..n]), ps[n]);
    if i < n {
      DurationAtLeast(ps[..n], i);
    }
  }

  lemma DividingStep(d: nat, p: nat)
    requires Divides(d, p) || Divides(p, d)
    requires d > 0 && p > 0
    ensures WithinEightDivisions(d, p) && MacroGcd(d, p) > 0 && MacroLcm(d, p) == Max(d, p)
  {
    var hi, lo := Max(d, p), Min(d, p);
    if Divides(hi, lo) {
      DividesAtMost(hi, lo);
    }
    assert hi % lo == 0;
    assert Divisions(lo, 0) == 0;
    MacroGcdExact(d, p);
    GcdSymmetric(d, p);
    assert Gcd(hi, lo) == Gcd(lo, 0) == lo;
    DivModUnique(Product(d, p), lo, hi, 0);
  }

  /** Every product that the fold hands to the division stays within `bound`, the largest C int for instance. */
  predicate ProductsFit(ps: seq<nat>, bound: nat)
    requires Positive(ps)
  {
    ps == [] ||
    var n := |ps| - 1;
    ProductsFit(ps[..n], bound) && Product(Duration(ps[..n]), ps[n]) <= bound
  }

  /** While the fold is exact, it suffices to look at the final duration times each period. */
  lemma {:induction false} FinalProductsSuffice(ps: seq<nat>, top: nat, bound: nat)
    requires Positive(ps) && StepsExact(ps) && Duration(ps) <= top
    requires forall i :: 0 <= i < |ps| ==> Product(top, ps[i]) <= bound
    ensures ProductsFit(ps, bound)
  {
    hide MacroLcm, Product;
    if ps != [] {
      var n := |ps| - 1;
      var d := Duration(ps[..n]);
      DurationIsLcm(ps);
      DurationIsLcm(ps[..n]);
      assert forall i :: 0 <= i < n ==> ps[..n][i] == ps[i];
      assert AllDivide(ps[..n], Duration(ps));
      DividesAtMost(d, Duration(ps));
      FinalProductsSuffice(ps[..n], top, bound);
      ProductMonotone(d, top, ps[n]);
    }
  }

  lemma ProductMonotone(d: nat, e: nat, p: nat)
    requires d <= e
    ensures Product(d, p) <= Product(e, p)
  {
  }

  predicate Shipped(p: nat) {
    p in {1, 5, 10, 50, 100, 1000}
  }

  lemma ShippedDivide(p: nat, q: nat)
    requires Shipped(p) && Shipped(q) && p <= q
    ensures Divides(p, q)
  {
  }

  /**
   The periods of the shipped simulator divide one another, so its tables are exact although 1000
   exceeds the bound.
   */
  lemma {:induction false} ShippedPeriodsExact(ps: seq<nat>)
    requires forall i :: 0 <= i < |ps| ==> Shipped(ps[i])
    ensures Positive(ps) && StepsExact(ps) && Shipped(Duration(ps))
  {
    if ps != [] {
      var n := |ps| - 1;
      ShippedPeriodsExact(ps[..n]);
      var d := Duration(ps[..n]);
      ShippedDivide(Min(d, ps[n]), Max(d, ps[n]));
      DividingStep(d, ps[n]);
    }
  }

  lemma DurationAppend(ps: seq<nat>, p: nat, d: nat, h: nat, m: nat)
    requires Positive(ps) && p > 0 && Duration(ps) == d
    requires h > 0 && MacroGcd(d, p) == h && 0 <= d * p - m * h < h
    ensures Positive(ps + [p]) && Duration(ps + [p]) == m
  {
    assert (ps + [p])[..|ps|] == ps;
    DivModUnique(d * p, h, m, d * p - m * h);
  }

  lemma DurationSingle(p: nat)
    requires p > 0
    ensures Duration([p]) == p
  {
    assert [p][..0] == [];
    DivModUnique(p, 1, p, 0);
    DividingStep(1, p);
  }

  lemma CoprimeStep(d: nat, p: nat)
    requires d == 2447 && p == 4895
    ensures MacroGcd(d, p) == 1
  {
    assert Divisions(1, 0) == 0 && Divisions(d, 1) == 1 && Divisions(p, d) == 2;
    MacroGcdExact(d, p);
    GcdSymmetric(d, p);
    assert Gcd(p, d) == Gcd(d, 1) == Gcd(1, 0) == 1;
  }

  lemma DurationPair(p: nat, q: nat, h: nat, m: nat)
    requires p > 0 && q > 0
    requires h > 0 && MacroGcd(p, q) == h && 0 <= p * q - m * h < h
    ensures Duration([p] + [q]) == m
  {
    DurationSingle(p);
    DurationAppend([p], q, p, h, m);
  }

  /** Outside the range the duration can be a multiple of none of the periods, and a later period can hide that. */
  lemma InexactDuration(p: nat, q: nat, r: nat)
    requires p == 89 && q == 55 && r == p * q
    ensures Duration([p] + [q]) == 2447 && !Divides(p, 2447) && !Divides(q, 2447)
    ensures var d, ps := 2447 * r, [p] + [q] + [r];
            Duration(ps) == d && AllDivide(ps, d) && !IsLcm(d, ps)
  {
    hide MacroGcd;
    var d := 2447;
    BoundIsTight(p, q);
    DurationPair(p, q, 2, d);
    CoprimeStep(d, r);
    DurationAppend([p] + [q], r, d, 1, d * r);
    CommonButNotLeast(d * r, r, [p] + [q] + [r]);
  }

  lemma CommonButNotLeast(d: nat, r: nat, ps: seq<nat>)
    requires 0 < r < d && AllDivide(ps, d) && AllDivide(ps, r)
    ensures !IsLcm(d, ps)
  {
  }

  /**
   The order can matter when one of the orders leaves the range: 89, 55 and their product fold to the
   product or to 2447 times the product.
   */
  lemma OrderMatters(p: nat, q: nat, r: nat, ps: seq<nat>, qs: seq<nat>)
    requires p == 89 && q == 55 && r == p * q && ps == [r] + [p] + [q] && qs == [p] + [q] + [r]
    ensures multiset(ps) == multiset(qs) && Positive(ps) && Positive(qs)
    ensures Duration(ps) == r && StepsExact(ps)
    ensures Duration(qs) == 2447 * r && !StepsExact(qs)
  {
    hide MacroGcd, MacroLcm, WithinEightDivisions;
    InexactDuration(p, q, r);
    DividingAppend([r], p, r);
    DividingAppend([r] + [p], q, r);
    if StepsExact(qs) {
      DurationIsLcm(qs);
    }
  }

  lemma DividingAppend(ps: seq<nat>, p: nat, d: nat)
    requires Positive(ps) && p > 0 && (ps == [d] || (Duration(ps) == d && StepsExact(ps))) && d > 0 && Divides(p, d)
    ensures Positive(ps + [p]) && Duration(ps + [p]) == d && StepsExact(ps + [p])
  {
    if ps == [d] {
      DurationSingle(d);
      DividingStep(1, d);
      assert ps[..0] == [];
    }
    DividesAtMost(p, d);
    DividingStep(d, p);
    assert (ps + [p])[..|ps|] == ps;
  }
}

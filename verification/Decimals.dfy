/**
 * What the digits of __dtoa stand for as real numbers, and what its integer loops promise
 * about them.
 */
module Decimals {
  import opened Basics
  import opened Words
  import opened Doubles
  import opened DigitTheory
  import opened ShortestGen

  ghost function Ten(e: int): real
    decreases if e < 0 then -e else e
  {
    if e == 0 then 1.0 else if e > 0 then 10.0 * Ten(e - 1) else Ten(e + 1) / 10.0
  }

  lemma {:induction false} TenPositive(e: int)
    ensures Ten(e) > 0.0
    decreases if e < 0 then -e else e
  {
    if e > 0 { TenPositive(e - 1); }
    if e < 0 { TenPositive(e + 1); }
  }

  lemma TenStep(e: int)
    ensures Ten(e + 1) == 10.0 * Ten(e)
  {
  }

  lemma TenOf(x: real)
    ensures Times(10, x) == 10.0 * x
  {
    TimesReal(10, x);
  }

  lemma {:induction false} TenScale(e: int, k: nat)
    ensures Ten(e + k) == Times(Pow(10, k), Ten(e))
    decreases k
  {
    if k == 0 {
      assert Pow(10, 0) == 1;
    } else {
      TenScale(e, k - 1);
      TenStep(e + k - 1);
      TimesTimes(10, Pow(10, k - 1), Ten(e));
      TenOf(Times(Pow(10, k - 1), Ten(e)));
    }
  }

  lemma TenMonotone(e: int, f: int)
    requires e <= f
    ensures Ten(e) <= Ten(f)
  {
    TenScale(e, f - e);
    TenPositive(e);
    PowPositive(10, f - e);
    TimesPositive(Pow(10, f - e), Ten(e));
  }

  // The problem is the number v with the interval from v - lo to v + hi, in units of which
  // its divisor makes 10^K.
  ghost predicate Depicts(p: Problem, u: real, v: real, lo: real, hi: real, K: int) {
    && u > 0.0 && p.S > 0 && Times(p.S, u) == Ten(K)
    && Times(p.b, u) == v && Times(p.mlo, u) == lo && Times(p.mhi, u) == hi
  }

  // V / 10^e as the loop counts decimals.
  ghost function Decimal(V: nat, e: nat, K: int): real {
    Times(V, Ten(K - e))
  }

  // Everything in whole multiples of one number.
  lemma CommonUnit(p: Problem, u: real, v: real, lo: real, hi: real, K: int, V: nat, e: nat) returns (w: real)
    requires Depicts(p, u, v, lo, hi, K)
    ensures w > 0.0 && Times(Pow(10, e), w) == u && Decimal(V, e, K) == Times(V * p.S, w)
    ensures v == Times(p.b * Pow(10, e), w)
    ensures lo == Times(p.mlo * Pow(10, e), w) && hi == Times(p.mhi * Pow(10, e), w)
  {
    var E := Pow(10, e);
    PowPositive(10, e);
    w := Part(E, u);
    TimesTimes(p.b, E, w);
    TimesTimes(p.mlo, E, w);
    TimesTimes(p.mhi, E, w);
    TimesTimes(p.S, E, w);
    TimesTimes(E, p.S, w);
    assert E * p.S == p.S * E;
    TenScale(K - e, e);
    TimesCancel(E, Ten(K - e), Times(p.S, w));
    TimesTimes(V, p.S, w);
  }

  lemma SumOrder(a: nat, b: nat, c: nat, w: real)
    requires w > 0.0
    ensures Times(c, w) <= Times(a, w) + Times(b, w) <==> c <= a + b
    ensures Times(c, w) < Times(a, w) + Times(b, w) <==> c < a + b
  {
    TimesAdd(a, b, w);
    TimesOrder(c, a + b, w);
    TimesOrder(a + b, c, w);
  }

  lemma WithinTimes(x: nat, b: nat, lo: nat, hi: nat, w: real, closed: bool)
    requires w > 0.0
    ensures Within(Times(x, w), Times(b, w), Times(lo, w), Times(hi, w), closed)
      <==> b - lo <= x <= b + hi && (!closed ==> b - lo < x < b + hi)
  {
    SumOrder(x, lo, b, w);
    SumOrder(b, hi, x, w);
  }

  lemma AcceptableReal(p: Problem, u: real, v: real, lo: real, hi: real, K: int, V: nat, e: nat)
    requires Depicts(p, u, v, lo, hi, K)
    ensures Acceptable(p, V, e) <==> Within(Decimal(V, e, K), v, lo, hi, p.even)
  {
    var w := CommonUnit(p, u, v, lo, hi, K, V, e);
    var E := Pow(10, e);
    Separate(p.b, p.mlo, E);
    Distribute(p.b, p.mhi, E);
    WithinTimes(V * p.S, p.b * E, p.mlo * E, p.mhi * E, w, p.even);
  }

  function Apart(x: nat, y: nat): nat {
    if x < y then y - x else x - y
  }

  lemma DistanceTimes(x: nat, b: nat, w: real)
    requires w > 0.0
    ensures Distance(Times(x, w), Times(b, w)) == Times(Apart(x, b), w)
  {
    if x < b { TimesAdd(x, b - x, w); } else { TimesAdd(b, x - b, w); }
    TimesOrder(x, b, w);
    TimesOrder(b, x, w);
  }

  lemma ErrorReal(p: Problem, u: real, v: real, lo: real, hi: real, K: int, V: nat, e: nat, w: real)
    requires Depicts(p, u, v, lo, hi, K) && Times(Pow(10, e), w) == u
    ensures w > 0.0 && Distance(Decimal(V, e, K), v) == Times(Error(p, V, e), w)
  {
    var w' := CommonUnit(p, u, v, lo, hi, K, V, e);
    PowPositive(10, e);
    TimesCancel(Pow(10, e), w, w');
    DistanceTimes(V * p.S, p.b * Pow(10, e), w);
  }

  // The loop's promises about the digits out, whose first stands for 10^K.
  ghost function Printed(out: seq<nat>, carry: nat, K: int): real
    requires out != []
  {
    Decimal(ValDec(out) * Pow(10, carry), |out| - 1, K)
  }

  // No decimal of the same length in the interval is closer.
  ghost predicate ClosestReal(x: real, e: nat, v: real, lo: real, hi: real, closed: bool, K: int) {
    forall U: nat :: Within(Decimal(U, e, K), v, lo, hi, closed) ==> Distance(x, v) <= Distance(Decimal(U, e, K), v)
  }

  lemma ClosestInReals(p: Problem, u: real, v: real, lo: real, hi: real, K: int, V: nat, e: nat)
    requires Depicts(p, u, v, lo, hi, K) && Closest(p, V, e)
    ensures ClosestReal(Decimal(V, e, K), e, v, lo, hi, p.even, K)
  {
    PowPositive(10, e);
    var w := Part(Pow(10, e), u);
    ErrorReal(p, u, v, lo, hi, K, V, e, w);
    forall U: nat | Within(Decimal(U, e, K), v, lo, hi, p.even)
      ensures Distance(Decimal(V, e, K), v) <= Distance(Decimal(U, e, K), v)
    {
      AcceptableReal(p, u, v, lo, hi, K, U, e);
      ErrorReal(p, u, v, lo, hi, K, U, e, w);
      TimesOrder(Error(p, V, e), Error(p, U, e), w);
    }
  }

  lemma HalfUnit(p: Problem, V: int, e: nat)
    requires Nearest(p, V, e)
    ensures 2 * Error(p, V, e) <= p.S
  {
    assert 2 * p.b * Pow(10, e) == 2 * (p.b * Pow(10, e));
  }

  lemma One(x: real)
    ensures Times(1, x) == x
  {
    assert Times(0, x) == 0.0;
  }

  // The error is at most half a unit of the last digit.
  lemma NearestInReals(p: Problem, u: real, v: real, lo: real, hi: real, K: int, V: nat, e: nat)
    requires Depicts(p, u, v, lo, hi, K) && Nearest(p, V, e)
    ensures 2.0 * Distance(Decimal(V, e, K), v) <= Ten(K - e)
  {
    PowPositive(10, e);
    var w := Part(Pow(10, e), u);
    var d := Error(p, V, e);
    ErrorReal(p, u, v, lo, hi, K, V, e, w);
    var w' := CommonUnit(p, u, v, lo, hi, K, 1, e);
    TimesCancel(Pow(10, e), w, w');
    One(Ten(K - e));
    HalfUnit(p, V, e);
    TimesOrder(2 * d, p.S, w);
    TimesAdd(d, d, w);
  }

  // A decimal of m digits that is at least 10^K ends no further right than that.
  lemma Exponent(V: nat, n: int, m: nat, K: int)
    requires V < Pow(10, m) && Times(V, Ten(n)) >= Ten(K)
    ensures n > K - m
  {
    TenPositive(n);
    TimesOrder(V, Pow(10, m), Ten(n));
    TenScale(n, m);
    if n <= K - m { TenMonotone(n + m, K); }
  }

  lemma OnDigits(V: nat, n: int, K: int)
    ensures Times(V, Ten(n)) == Decimal(V * Pow(10, if n > K then n - K else 0), if n > K then 0 else K - n, K)
  {
    if n > K {
      TenScale(K, n - K);
      TimesTimes(V, Pow(10, n - K), Ten(K));
    } else {
      assert Pow(10, 0) == 1;
    }
  }

  // With a smaller number the power of ten itself lies in the interval.
  lemma PowerWithin(p: Problem, u: real, v: real, lo: real, hi: real, K: int, x: real)
    requires Depicts(p, u, v, lo, hi, K) && p.S <= p.b && p.mhi > 0
    requires Within(x, v, lo, hi, p.even) && x < Ten(K)
    ensures Acceptable(p, 1, 0)
  {
    TimesOrder(p.S, p.b, u);
    TimesPositive(p.mhi, u);
    One(Ten(K));
    AcceptableReal(p, u, v, lo, hi, K, 1, 0);
  }

  // A decimal V * 10^n of fewer digits.
  lemma NoShorter(p: Problem, u: real, v: real, lo: real, hi: real, K: int, e: nat, V: nat, n: int, m: nat)
    requires Depicts(p, u, v, lo, hi, K) && NothingShorter(p, e) && p.S <= p.b && p.mlo < p.b && p.mhi > 0
    requires V < Pow(10, m) && m <= e
    ensures !Within(Times(V, Ten(n)), v, lo, hi, p.even)
  {
    if Within(Times(V, Ten(n)), v, lo, hi, p.even) {
      if m == 0 {
        assert Pow(10, 0) == 1;
        TimesOrder(p.mlo, p.b, u);
      } else if Times(V, Ten(n)) < Ten(K) {
        PowerWithin(p, u, v, lo, hi, K, Times(V, Ten(n)));
      } else {
        Exponent(V, n, m, K);
        OnDigits(V, n, K);
        AcceptableReal(p, u, v, lo, hi, K, V * Pow(10, if n > K then n - K else 0), if n > K then 0 else K - n);
      }
    }
  }

  // Against another decimal, V * 10^n.
  ghost predicate TieRight(x: real, V: nat, n: int, v: real) {
    var y := Times(V, Ten(n));
    y != x && Distance(y, v) == Distance(x, v) ==>
      V % 2 == 1 && (x == Times(V + 1, Ten(n)) || x == Times(V - 1, Ten(n)))
  }

  // x, of e + 1 digits, is good, no decimal of fewer digits is, and no other good one of as
  // many is closer to v.  If another one is as close, then written with the same exponent they
  // are consecutive integers, and that of x is the even one.
  ghost predicate Optimal(x: real, e: nat, v: real, good: real -> bool) {
    && good(x)
    && (forall V: nat, n: int :: V < Pow(10, e) ==> !good(Times(V, Ten(n))))
    && (forall V: nat, n: int :: V < Pow(10, e + 1) && good(Times(V, Ten(n))) ==>
          Distance(x, v) <= Distance(Times(V, Ten(n)), v))
    && (forall V: nat, n: int :: V < Pow(10, e + 1) && good(Times(V, Ten(n))) ==> TieRight(x, V, n, v))
  }

  lemma SameOptimum(x: real, e: nat, v: real, good: real -> bool, good': real -> bool)
    requires Optimal(x, e, v, good) && forall y :: good(y) <==> good'(y)
    ensures Optimal(x, e, v, good')
  {
  }

  // What the shortest modes are for.
  ghost predicate BestDecimal(x: real, e: nat, v: real, lo: real, hi: real, closed: bool) {
    Optimal(x, e, v, y => Within(y, v, lo, hi, closed))
  }

  // Among the decimals below 10^K only one digit could lie in the interval, and 10^K is closer.
  lemma FartherBelow(p: Problem, u: real, v: real, lo: real, hi: real, K: int, e: nat, x: real, y: real)
    requires Depicts(p, u, v, lo, hi, K) && NothingShorter(p, e) && p.S <= p.b && p.mhi > 0
    requires ClosestReal(x, e, v, lo, hi, p.even, K) && Within(y, v, lo, hi, p.even) && y < Ten(K)
    ensures Distance(x, v) < Distance(y, v)
  {
    PowerWithin(p, u, v, lo, hi, K, y);
    assert e == 0;
    AcceptableReal(p, u, v, lo, hi, K, 1, 0);
    One(Ten(K));
    TimesOrder(p.S, p.b, u);
  }

  lemma ClosestAnywhere(p: Problem, u: real, v: real, lo: real, hi: real, K: int, e: nat, x: real, V: nat, n: int)
    requires Depicts(p, u, v, lo, hi, K) && NothingShorter(p, e) && p.S <= p.b && p.mhi > 0
    requires ClosestReal(x, e, v, lo, hi, p.even, K)
    requires V < Pow(10, e + 1) && Within(Times(V, Ten(n)), v, lo, hi, p.even)
    ensures Distance(x, v) <= Distance(Times(V, Ten(n)), v)
  {
    if Times(V, Ten(n)) < Ten(K) {
      FartherBelow(p, u, v, lo, hi, K, e, x, Times(V, Ten(n)));
    } else {
      Exponent(V, n, e + 1, K);
      var U := V * Pow(10, n - (K - e));
      TenScale(K - e, n - (K - e));
      TimesTimes(V, Pow(10, n - (K - e)), Ten(K - e));
      assert Decimal(U, e, K) == Times(V, Ten(n));
    }
  }

  lemma TieOnGrid(p: Problem, u: real, v: real, lo: real, hi: real, K: int, e: nat, V: nat, U: nat)
    requires Depicts(p, u, v, lo, hi, K) && Closest(p, V, e) && Acceptable(p, V, e) && TieEven(p, V, e)
    requires Within(Decimal(U, e, K), v, lo, hi, p.even) && U != V
    requires Distance(Decimal(U, e, K), v) == Distance(Decimal(V, e, K), v)
    ensures V % 2 == 0 && (U == V + 1 || U == V - 1)
  {
    PowPositive(10, e);
    var w := Part(Pow(10, e), u);
    AcceptableReal(p, u, v, lo, hi, K, U, e);
    ErrorReal(p, u, v, lo, hi, K, V, e, w);
    ErrorReal(p, u, v, lo, hi, K, U, e, w);
    TimesOrder(Error(p, U, e), Error(p, V, e), w);
    TimesOrder(Error(p, V, e), Error(p, U, e), w);
    TieNext(p, V, U, e);
  }

  // An odd number has no zeros at its end.
  lemma OddDigits(U: nat, m: nat, V: nat)
    requires V % 2 == 0 && (U * Pow(10, m) == V + 1 || U * Pow(10, m) == V - 1)
    ensures m == 0 && U % 2 == 1 && (V == U + 1 || V == U - 1)
  {
    if m > 0 { TenDivides(U, m); }
    assert Pow(10, 0) == 1;
  }

  lemma TieAbove(p: Problem, u: real, v: real, lo: real, hi: real, K: int, e: nat, V: nat, U: nat, m: nat)
    requires Depicts(p, u, v, lo, hi, K) && Closest(p, V, e) && Acceptable(p, V, e) && TieEven(p, V, e)
    requires Within(Times(U, Ten(K - e + m)), v, lo, hi, p.even)
    ensures TieRight(Decimal(V, e, K), U, K - e + m, v)
  {
    var x, y := Decimal(V, e, K), Times(U, Ten(K - e + m));
    TenScale(K - e, m);
    TimesTimes(U, Pow(10, m), Ten(K - e));
    if y != x && Distance(y, v) == Distance(x, v) {
      TieOnGrid(p, u, v, lo, hi, K, e, V, U * Pow(10, m));
      OddDigits(U, m, V);
    }
  }

  lemma TieAnywhere(p: Problem, u: real, v: real, lo: real, hi: real, K: int, e: nat, V: nat, U: nat, n: int)
    requires Depicts(p, u, v, lo, hi, K) && NothingShorter(p, e) && p.S <= p.b && p.mhi > 0
    requires Closest(p, V, e) && Acceptable(p, V, e) && TieEven(p, V, e)
    requires U < Pow(10, e + 1) && Within(Times(U, Ten(n)), v, lo, hi, p.even)
    ensures TieRight(Decimal(V, e, K), U, n, v)
  {
    if Times(U, Ten(n)) < Ten(K) {
      ClosestInReals(p, u, v, lo, hi, K, V, e);
      FartherBelow(p, u, v, lo, hi, K, e, Decimal(V, e, K), Times(U, Ten(n)));
    } else {
      Exponent(U, n, e + 1, K);
      TieAbove(p, u, v, lo, hi, K, e, V, U, n - (K - e));
    }
  }

  // What the left-to-right loop promises, in reals.
  lemma ShortestInReals(p: Problem, u: real, v: real, lo: real, hi: real, K: int, single: bool, out: seq<nat>,
                        carry: nat)
    requires Depicts(p, u, v, lo, hi, K) && ShortestOutput(p, single, out, carry) && !NineLost(p, single)
    requires !TieLost(p) && p.S <= p.b && p.mlo < p.b && 0 < p.mlo <= p.mhi
    ensures BestDecimal(Printed(out, carry, K), |out| - 1, v, lo, hi, p.even)
    ensures p.mlo == p.mhi ==> 2.0 * Distance(Printed(out, carry, K), v) <= Ten(K - (|out| - 1))
  {
    var V, e, x := ValDec(out) * Pow(10, carry), |out| - 1, Printed(out, carry, K);
    AcceptableReal(p, u, v, lo, hi, K, V, e);
    ClosestInReals(p, u, v, lo, hi, K, V, e);
    if p.mlo == p.mhi { NearestInReals(p, u, v, lo, hi, K, V, e); }
    forall V: nat, n: int | V < Pow(10, e) ensures !Within(Times(V, Ten(n)), v, lo, hi, p.even) {
      NoShorter(p, u, v, lo, hi, K, e, V, n, e);
    }
    forall V: nat, n: int | V < Pow(10, e + 1) && Within(Times(V, Ten(n)), v, lo, hi, p.even)
      ensures Distance(x, v) <= Distance(Times(V, Ten(n)), v)
    {
      ClosestAnywhere(p, u, v, lo, hi, K, e, x, V, n);
    }
    forall U: nat, n: int | U < Pow(10, e + 1) && Within(Times(U, Ten(n)), v, lo, hi, p.even)
      ensures TieRight(x, U, n, v)
    {
      TieAnywhere(p, u, v, lo, hi, K, e, V, U, n);
    }
  }

  // N units of 10^n: v rounded to that precision, ties to even.
  ghost predicate RoundedReal(N: nat, n: int, v: real) {
    var d := 2.0 * Distance(Times(N, Ten(n)), v);
    d < Ten(n) || (d == Ten(n) && N % 2 == 0)
  }

  lemma HalfOrder(d: nat, den: nat, w: real)
    requires w > 0.0
    ensures 2.0 * Times(d, w) < Times(den, w) <==> 2 * d < den
    ensures 2.0 * Times(d, w) == Times(den, w) <==> 2 * d == den
  {
    TimesAdd(d, d, w);
    TimesOrder(d + d, den, w);
    TimesOrder(den, d + d, w);
  }

  lemma RoundedApart(N: nat, num: nat, den: nat)
    requires Rounded(N, num, den)
    ensures 2 * Apart(N * den, num) < den || (2 * Apart(N * den, num) == den && N % 2 == 0)
  {
  }

  // That determines the decimal.
  lemma RoundedRealUnique(N: nat, M: nat, n: int, v: real)
    requires RoundedReal(N, n, v) && RoundedReal(M, n, v)
    ensures N == M
  {
    TenPositive(n);
    var lo, hi := if N < M then N else M, if N < M then M else N;
    if lo < hi {
      TimesOrder(lo, lo + 1, Ten(n));
      TimesOrder(lo + 1, hi, Ten(n));
    }
  }

  // And what the fixed-length loop promises: n digits, the first of which stands for 10^K.
  lemma RoundedInReals(num: nat, den: nat, u: real, v: real, K: int, n: nat, N: nat)
    requires u > 0.0 && den > 0 && Times(den, u) == Ten(K) && Times(num, u) == v
    requires n > 0 && Rounded(N, num * Pow(10, n - 1), den)
    ensures RoundedReal(N, K - (n - 1), v)
  {
    var e, p := n - 1, Problem(num, den, 0, 0, false);
    var w := CommonUnit(p, u, v, 0.0, 0.0, K, N, e);
    var w' := CommonUnit(p, u, v, 0.0, 0.0, K, 1, e);
    TimesCancel(Pow(10, e), w, w') by { PowPositive(10, e); }
    One(Ten(K - e));
    DistanceTimes(N * den, num * Pow(10, e), w);
    RoundedApart(N, num * Pow(10, e), den);
    HalfOrder(Apart(N * den, num * Pow(10, e)), den, w);
  }
}

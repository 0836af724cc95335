/**
 * Why the integers __dtoa sets up stand for a double and for half the way to its neighbours.
 */
module Intervals {
  import opened Basics
  import opened Words
  import opened Doubles
  import opened Decimals
  import opened DigitTheory
  import opened ShortestGen
  import Conversion

  // k is the decimal exponent of v or, when it is going to be checked, one more.
  ghost predicate Estimate(v: real, k: int, kCheck: bool) {
    Ten(k - 1) <= v < Ten(k + 1) && (!kCheck ==> Ten(k) <= v)
  }

  // With 2^s2 units making 2^e.
  lemma PowerOfTwo(s2: nat, M: nat, u: real, e: int)
    requires Times(Pow(2, s2), u) == Two(e)
    ensures Times(Pow(2, M), u) == Two(e + M - s2)
  {
    if M >= s2 {
      PowAdd(2, M - s2, s2);
      TimesTimes(Pow(2, M - s2), Pow(2, s2), u);
      TwoScale(e, M - s2);
    } else {
      PowAdd(2, s2 - M, M);
      TimesTimes(Pow(2, s2 - M), Pow(2, M), u);
      TwoScale(e + M - s2, s2 - M);
      PowPositive(2, s2 - M);
      TimesCancel(Pow(2, s2 - M), Times(Pow(2, M), u), Two(e + M - s2));
    }
  }

  lemma {:induction false} TenIsTwoFive(n: nat)
    ensures Pow(10, n) == Pow(5, n) * Pow(2, n)
  {
    if n > 0 {
      TenIsTwoFive(n - 1);
      var f, t := Pow(5, n - 1), Pow(2, n - 1);
      assert 10 * (f * t) == (5 * f) * (2 * t);
    }
  }

  // The powers of two and of five the two numbers are multiplied by when k is the exponent
  // of the first digit: 5^s5 * 2^s2 units make 10^k, so 5^b5 * 2^M units make a power of two.
  lemma UnitPositive(s2: nat, s5: nat, k: int, u: real)
    requires k >= 0 && s5 == k && Times(Pow(5, s5) * Pow(2, s2), u) == Ten(k)
    ensures Times(Pow(2, s2), u) == Two(k)
  {
    PowPositive(5, s5);
    TenIsTwoFive(k);
    TenScale(0, k);
    TwoScale(0, k);
    TimesTimes(Pow(5, s5), Pow(2, s2), u);
    TimesTimes(Pow(5, k), Pow(2, k), 1.0);
    TimesCancel(Pow(5, s5), Times(Pow(2, s2), u), Two(k));
  }

  lemma UnitNegative(s2: nat, b5: nat, k: int, u: real)
    requires k < 0 && b5 == -k && Times(Pow(2, s2), u) == Ten(k)
    ensures Times(Pow(2, s2), Times(Pow(5, b5), u)) == Two(k)
  {
    PowPositive(2, b5);
    TenIsTwoFive(b5);
    TenScale(k, b5);
    TwoScale(k, b5);
    var w := Times(Pow(5, b5), u);
    TimesTimes(Pow(2, s2), Pow(5, b5), u);
    TimesTimes(Pow(5, b5), Pow(2, s2), u);
    TimesTimes(Pow(2, b5), Pow(5, b5), Ten(k));
    assert Pow(2, s2) * Pow(5, b5) == Pow(5, b5) * Pow(2, s2);
    assert Pow(2, b5) * Pow(5, b5) == Pow(10, b5);
    TimesCancel(Pow(2, b5), Times(Pow(2, s2), w), Two(k));
  }

  // 5^s5 * 2^s2 units make 10^k, so 5^b5 * 2^M units make a power of two.
  lemma Unit(b5: nat, s5: nat, s2: nat, M: nat, k: int, u: real)
    requires b5 - s5 == -k && (b5 == 0 || s5 == 0) && Times(Pow(5, s5) * Pow(2, s2), u) == Ten(k)
    ensures Times(Pow(5, b5) * Pow(2, M), u) == Two(k + M - s2)
  {
    assert Pow(5, 0) == 1;
    if k >= 0 {
      UnitPositive(s2, s5, k, u);
      PowerOfTwo(s2, M, u, k);
    } else {
      UnitNegative(s2, b5, k, u);
      PowerOfTwo(s2, M, Times(Pow(5, b5), u), k);
      TimesTimes(Pow(2, M), Pow(5, b5), u);
      assert Pow(2, M) * Pow(5, b5) == Pow(5, b5) * Pow(2, M);
    }
  }

  // The exponents of two and five of the number, of the divisor and of the margin; spec marks a
  // power of two, whose upper margin is twice the lower one.
  datatype Powers = Powers(b2: nat, s2: nat, b5: nat, s5: nat, m2: nat, spec: bool)

  // The exponents __dtoa has set up for the number F * 2^q, written as B * 2^(q + t).
  ghost predicate SetUp(F: nat, q: int, B: nat, t: nat, k: int, w: Powers) {
    && B * Pow(2, t) == F && w.b5 - w.s5 == -k && (w.b5 == 0 || w.s5 == 0)
    && w.b2 == w.m2 + 1 + t + (if w.spec then 1 else 0) && w.m2 - w.s2 == q - 1 - k - if w.spec then 1 else 0
  }

  lemma Interchange(a: int, b: int, c: int, d: int)
    ensures a * b * (c * d) == a * c * (b * d)
  {
    Regroup(a, b, c * d);
    Regroup(a, c, b * d);
    Regroup(b, c, d);
    Regroup(c, b, d);
    assert b * (c * d) == c * (b * d);
  }

  lemma Shuffle(f: int, B: int, x: int, y: int, z: int, w: int, v: int)
    requires w == y * z && v == x * w
    ensures f * B * v == f * x * (B * y * z)
  {
    Interchange(f, B, x, w);
    Regroup(B, y, z);
  }

  lemma PowerSum(x: nat, y: nat, z: nat, e: nat)
    requires e == x + (y + z)
    ensures Pow(2, e) == Pow(2, x) * Pow(2, y + z) && Pow(2, y + z) == Pow(2, y) * Pow(2, z)
  {
    PowAdd(2, x, y + z);
    PowAdd(2, y, z);
  }

  ghost function Wanted(B: nat, w: Powers, even: bool, lowered: bool): Problem {
    Conversion.Wanted(Pow(5, w.b5) * B, Pow(5, w.s5), Pow(5, w.b5), w.b2, w.s2, w.m2, w.spec, even, lowered)
  }

  lemma Tenfold(a: nat, b: nat, lowered: bool)
    ensures a * b * (if lowered then 10 else 1) == a * (if lowered then 10 else 1) * b
  {
  }

  // Number and margins: the upper margin is half the number's last binary digit.
  lemma WantedMargins(F: nat, q: int, B: nat, t: nat, k: int, w: Powers,
                      even: bool, lowered: bool)
    requires SetUp(F, q, B, t, k, w)
    ensures var p := Wanted(B, w, even, lowered);
      && p.b == p.mlo * (F * if w.spec then 4 else 2) && p.mhi == p.mlo * (if w.spec then 2 else 1)
      && p.mlo > 0 && p.S > 0
  {
    assert Pow(2, 1) == 2 && Pow(2, 2) == 4;
    var p := Wanted(B, w, even, lowered);
    var n := if w.spec then 2 else 1;
    PowerSum(w.m2, t, n, w.b2);
    Shuffle(Pow(5, w.b5), B, Pow(2, w.m2), Pow(2, t), Pow(2, n), Pow(2, t + n), Pow(2, w.b2));
    Tenfold(Pow(5, w.b5) * Pow(2, w.m2), F * if w.spec then 4 else 2, lowered);
    PowPositive(5, w.b5);
    PowPositive(5, w.s5);
    PowPositive(2, w.s2);
    PowPositive(2, w.m2);
    MulLe(1, Pow(5, w.b5), Pow(2, w.m2));
    MulLe(1, Pow(5, w.s5), Pow(2, w.s2));
  }

  predicate NoMultiple(x: nat) {
    x % 13 != 0 && x % 17 != 0
  }

  lemma Inverse(x: nat, c: nat, m: nat, i: nat, j: nat)
    requires m > 0 && c * i == j * m + 1 && x % m != 0
    ensures c * x % m != 0
  {
    if c * x % m == 0 {
      var y := c * x / m;
      assert m * y == c * x;
      Regroup(i, c, x);
      Regroup(m, i, y);
      Regroup(i, m, y);
      Regroup(j, m, x);
      Regroup(m, j, x);
      Separate(i * y, j * x, m);
      assert x == (i * y - j * x) * m by {
        assert i * (c * x) == j * m * x + x;
      }
      QuotientUnique(x, m, i * y - j * x, 0);
    }
  }

  // Two, five and ten have inverses modulo both.
  lemma MoreFactors(x: nat, c: nat)
    requires NoMultiple(x) && c in {2, 5, 10}
    ensures NoMultiple(c * x)
  {
    if c == 2 {
      Inverse(x, 2, 13, 7, 1);
      Inverse(x, 2, 17, 9, 1);
    } else if c == 5 {
      Inverse(x, 5, 13, 8, 3);
      Inverse(x, 5, 17, 7, 2);
    } else {
      Inverse(x, 10, 13, 4, 3);
      Inverse(x, 10, 17, 12, 7);
    }
  }

  lemma {:induction false} NoFactorOfTwos(s2: nat, x: nat)
    requires NoMultiple(x)
    ensures NoMultiple(x * Pow(2, s2))
  {
    if s2 == 0 {
      assert x * Pow(2, 0) == x;
    } else {
      MoreFactors(x, 2);
      NoFactorOfTwos(s2 - 1, 2 * x);
      assert x * Pow(2, s2) == 2 * x * Pow(2, s2 - 1);
    }
  }

  lemma {:induction false} NoFactorOfFives(s5: nat)
    ensures NoMultiple(Pow(5, s5))
  {
    if s5 > 0 {
      NoFactorOfFives(s5 - 1);
      MoreFactors(Pow(5, s5 - 1), 5);
    }
  }

  // Neither 13 nor 17 divides ten times twos and fives.
  lemma TenNoMultiple(s5: nat, s2: nat, x: nat)
    ensures 13 * x != 10 * (Pow(5, s5) * Pow(2, s2)) && 17 * x != 10 * (Pow(5, s5) * Pow(2, s2))
  {
    NoFactorOfFives(s5);
    NoFactorOfTwos(s2, Pow(5, s5));
    MoreFactors(Pow(5, s5) * Pow(2, s2), 10);
    if 13 * x == 10 * (Pow(5, s5) * Pow(2, s2)) { QuotientUnique(13 * x, 13, x, 0); }
    if 17 * x == 10 * (Pow(5, s5) * Pow(2, s2)) { QuotientUnique(17 * x, 17, x, 0); }
  }

  lemma SmallFactor(G: nat, m: nat, S: nat)
    requires m > 0 && G * m + m == 10 * S && 9 * S <= G * m && 2 * (G * m - 9 * S) < S
    ensures 9 <= G <= 18
  {
    if G < 9 { MulLe(G, 8, m); }
    if G > 18 { MulLe(19, G, m); }
  }

  // The interval of a double never ends in ten with nine nearer: its even mantissa would have
  // to be 6 or 8, and ten times a product of twos and fives a multiple of 13 or of 17.
  lemma NeverLost(p: Problem, F: nat, s5: nat, s2: nat, single: bool)
    requires p.b == 2 * F * p.mhi && p.mhi > 0 && p.S == Pow(5, s5) * Pow(2, s2) && (p.even ==> F % 2 == 0)
    ensures !NineLost(p, single)
  {
    if NineLost(p, single) {
      SmallFactor(2 * F, p.mhi, p.S);
      assert F == 6 || F == 8;
      TenNoMultiple(s5, s2, p.mhi);
    }
  }

  // Nor are its ends two consecutive decimals: an odd number of upper margins makes the upper
  // end, and an even number of them a whole number of units.
  lemma NeverTied(p: Problem, F: nat)
    requires p.b == 2 * F * p.mhi && p.mhi > 0
    ensures !TieLost(p)
  {
    if TieLost(p) {
      var e: nat, W: int :| EndsOn(p, e, W);
      var m := p.mhi * Pow(10, e);
      PowPositive(10, e);
      MulLe(1, Pow(10, e), p.mhi);
      Regroup(2 * F, p.mhi, Pow(10, e));
      Regroup(W, 2, m);
      Distribute(2 * W, 1, m);
      Order(2 * F, 2 * W + 1, m);
    }
  }

  lemma TenTimes(x: nat, u: real)
    ensures Times(x * 10, u) == Times(x, Times(10, u))
  {
    TimesTimes(x, 10, u);
  }

  // The unit of which the divisor makes 10^k, or 10^(k - 1) once the margin has been
  // multiplied by ten.
  lemma UnitOf(b5: nat, s5: nat, s2: nat, m2: nat, k: int, lowered: bool) returns (u: real)
    requires b5 - s5 == -k && (b5 == 0 || s5 == 0)
    ensures u > 0.0 && Times(Pow(5, s5) * Pow(2, s2), u) == Ten(k - if lowered then 1 else 0)
    ensures Times(Pow(5, b5) * Pow(2, m2) * (if lowered then 10 else 1), u) == Two(k + m2 - s2)
  {
    var S, K := Pow(5, s5) * Pow(2, s2), k - if lowered then 1 else 0;
    PowPositive(5, s5);
    PowPositive(2, s2);
    MulLe(1, Pow(5, s5), Pow(2, s2));
    TenPositive(K);
    u := Part(S, Ten(K));
    if lowered {
      TimesTimes(10, S, u);
      TenOf(Ten(K));
      TenTimes(S, u);
      TenTimes(Pow(5, b5) * Pow(2, m2), u);
      Unit(b5, s5, s2, m2, k, Times(10, u));
    } else {
      Unit(b5, s5, s2, m2, k, u);
    }
  }

  lemma HalfDigits(F: nat, q: int, n: nat, m: nat, u: real)
    requires Times(m, u) == Two(q - n)
    ensures Times(m * (F * Pow(2, n)), u) == Value(F, q)
  {
    OnGrid(F, q, q - n);
    TimesTimes(F * Pow(2, n), m, u);
    Regroup(1, m, F * Pow(2, n));
  }

  lemma Twofold(m: nat, e: int, u: real)
    requires Times(m, u) == Two(e)
    ensures Times(m * 2, u) == Two(e + 1)
  {
    TimesTimes(2, m, u);
    TwoStep(e);
    TimesReal(2, Two(e));
  }

  // In units of which the divisor makes 10^K, the three numbers are the double and half the
  // distances to its neighbours.
  lemma WantedDepicts(F: nat, q: int, B: nat, t: nat, k: int, w: Powers,
                      even: bool, lowered: bool) returns (u: real)
    requires SetUp(F, q, B, t, k, w)
    ensures Depicts(Wanted(B, w, even, lowered), u, Value(F, q),
                    if w.spec then Two(q - 2) else Two(q - 1), Two(q - 1), k - if lowered then 1 else 0)
  {
    var p := Wanted(B, w, even, lowered);
    WantedMargins(F, q, B, t, k, w, even, lowered);
    u := UnitOf(w.b5, w.s5, w.s2, w.m2, k, lowered);
    assert Pow(2, 1) == 2 && Pow(2, 2) == 4;
    HalfDigits(F, q, if w.spec then 2 else 1, p.mlo, u);
    if w.spec { Twofold(p.mlo, q - 2, u); }
  }

  lemma TwoThreeSteps(e: int)
    ensures Two(e + 3) == 8.0 * Two(e)
  {
    TwoStep(e);
    TwoStep(e + 1);
    TwoStep(e + 2);
  }

  // 2^3 is below ten.
  lemma {:induction false} TwoTen(n: int)
    requires n >= 0
    ensures Two(3 * n) <= Ten(n) && Ten(-n) <= Two(-3 * n)
  {
    if n > 0 {
      TwoTen(n - 1);
      TwoThreeSteps(3 * (n - 1));
      TwoThreeSteps(-3 * n);
      TenStep(n - 1);
      TenStep(-n);
      TwoPositive(3 * (n - 1));
      TwoPositive(-3 * n);
    }
  }

  lemma TwoMonotone(e: int, f: int)
    requires e <= f
    ensures Two(e) <= Two(f)
  {
    TwoScale(e, f - e);
    TwoPositive(e);
    PowPositive(2, f - e);
    TimesPositive(Pow(2, f - e), Two(e));
  }

  const MAX_EXP := 971

  lemma DoubleRange(F: nat, q: int)
    requires Form(F, q) && F > 0 && q <= MAX_EXP
    ensures Ten(-358) <= Value(F, q) < Ten(342)
  {
    TwoPositive(q);
    TimesPositive(F, Two(q));
    TwoMonotone(-1074, q);
    TwoTen(358);
    HiddenPower();
    TimesOrder(F, 2 * HIDDEN, Two(q));
    TwoScale(q, 53);
    TwoMonotone(q + 53, 1026);
    TwoTen(342);
  }

  lemma EstimateRange(F: nat, q: int, k: int, kCheck: bool)
    requires Form(F, q) && F > 0 && q <= MAX_EXP && Estimate(Value(F, q), k, kCheck)
    ensures -358 <= k <= 342
  {
    DoubleRange(F, q);
    if k > 342 { TenMonotone(342, k - 1); }
    if k < -358 { TenMonotone(k + 1, -358); }
  }

  // The estimate of the exponent, on the integers.
  lemma EstimateOnIntegers(num: nat, den: nat, u: real, v: real, k: int, kCheck: bool)
    requires u > 0.0 && Times(den, u) == Ten(k) && Times(num, u) == v && Estimate(v, k, kCheck)
    ensures Conversion.Estimated(num, den, kCheck)
  {
    TenStep(k);
    TenStep(k - 1);
    TimesTimes(10, num, u);
    TimesTimes(10, den, u);
    TenOf(v);
    TenOf(Ten(k));
    TimesOrder(den, 10 * num, u);
    TimesOrder(10 * den, num, u);
    TimesOrder(den, num, u);
  }

  lemma EstimatedNumbers(F: nat, q: int, B: nat, t: nat, k: int, kCheck: bool, w: Powers)
    requires SetUp(F, q, B, t, k, w) && Estimate(Value(F, q), k, kCheck)
    ensures Conversion.Estimated(Conversion.Scaled(Pow(5, w.b5) * B, w.b2, false),
                                 Conversion.Scaled(Pow(5, w.s5), w.s2, false), kCheck)
  {
    var p := Wanted(B, w, false, false);
    var u := WantedDepicts(F, q, B, t, k, w, false, false);
    EstimateOnIntegers(p.b, p.S, u, Value(F, q), k, kCheck);
  }

  // num < den, the test of the estimate.
  ghost predicate TooLarge(B: nat, w: Powers) {
    Conversion.Scaled(Pow(5, w.b5) * B, w.b2, false) < Conversion.Scaled(Pow(5, w.s5), w.s2, false)
  }

  lemma Corrected(F: nat, q: int, B: nat, t: nat, k: int, kCheck: bool, w: Powers, even: bool, lowered: bool)
    requires SetUp(F, q, B, t, k, w) && Estimate(Value(F, q), k, kCheck) && (lowered <==> TooLarge(B, w))
    ensures var p := Wanted(B, w, even, lowered);
      p.S <= p.b
  {
    EstimatedNumbers(F, q, B, t, k, kCheck, w);
    Conversion.ScaledMore(Pow(5, w.b5) * B, w.b2, 0);
  }

  lemma UpperMargin(p: Problem, F: nat, spec: bool)
    requires p.b == p.mlo * (F * if spec then 4 else 2) && p.mhi == p.mlo * (if spec then 2 else 1)
    requires p.mlo > 0 && F > 0
    ensures p.b == 2 * F * p.mhi && p.mlo < p.b
  {
    Regroup(p.mlo, 2, 2 * F);
    MulLe(2, F * if spec then 4 else 2, p.mlo);
  }

  // What the loop has put out is the best decimal for the double's interval.
  lemma BestForDouble(F: nat, q: int, B: nat, t: nat, k: int, w: Powers,
                      even: bool, lowered: bool, single: bool, out: seq<nat>, carry: nat)
    requires SetUp(F, q, B, t, k, w) && F > 0 && (even ==> F % 2 == 0)
    requires var p := Wanted(B, w, even, lowered);
      p.S <= p.b && ShortestOutput(p, single, out, carry)
    ensures var K, x := k - if lowered then 1 else 0, Printed(out, carry, k - if lowered then 1 else 0);
      && BestDecimal(x, |out| - 1, Value(F, q), if w.spec then Two(q - 2) else Two(q - 1), Two(q - 1), even)
      && (!w.spec ==> 2.0 * Distance(x, Value(F, q)) <= Ten(K - (|out| - 1)))
  {
    var p := Wanted(B, w, even, lowered);
    WantedMargins(F, q, B, t, k, w, even, lowered);
    var u := WantedDepicts(F, q, B, t, k, w, even, lowered);
    UpperMargin(p, F, w.spec);
    NeverLost(p, F, w.s5, w.s2, single);
    NeverTied(p, F);
    ShortestInReals(p, u, Value(F, q), if w.spec then Two(q - 2) else Two(q - 1), Two(q - 1),
                    k - if lowered then 1 else 0, single, out, carry);
  }

  // The digits behind a decimal point, the point then moved decpt places to the right.
  ghost function Shown(s: seq<nat>, decpt: int): real {
    Times(ValDec(s), Ten(decpt - |s|))
  }

  lemma PrintedShown(out: seq<nat>, carry: nat, K: int)
    requires out != []
    ensures Printed(out, carry, K) == Shown(out, K + carry + 1)
  {
    TenScale(K - (|out| - 1), carry);
    TimesTimes(ValDec(out), Pow(10, carry), Ten(K - (|out| - 1)));
  }

  // The end of the shortest modes: digits that neither begin nor end with zero, the best decimal
  // for the interval, and except above a power of two within half a unit of the last digit.
  ghost predicate ShortestAnswer(s: seq<nat>, decpt: int, F: nat, q: int, spec: bool, even: bool) {
    && s != [] && DigitTheory.Decimal(s) && s[0] > 0 && s[|s| - 1] > 0
    && BestDecimal(Shown(s, decpt), |s| - 1, Value(F, q), if spec then Two(q - 2) else Two(q - 1), Two(q - 1), even)
    && (!spec ==> 2.0 * Distance(Shown(s, decpt), Value(F, q)) <= Ten(decpt - |s|))
  }

  lemma OutputDigits(p: Problem, single: bool, out: seq<nat>, carry: nat)
    requires ShortestOutput(p, single, out, carry) && p.S <= p.b
    ensures out != [] && DigitTheory.Decimal(out) && out[0] > 0 && out[|out| - 1] > 0
  {
  }

  // A printed decimal as it is shown; the unit of its last digit is no smaller.
  lemma ShownAnswer(out: seq<nat>, carry: nat, K: int, F: nat, q: int, spec: bool, even: bool)
    requires out != [] && DigitTheory.Decimal(out) && out[0] > 0 && out[|out| - 1] > 0
    requires BestDecimal(Printed(out, carry, K), |out| - 1, Value(F, q), if spec then Two(q - 2) else Two(q - 1),
                         Two(q - 1), even)
    requires !spec ==> 2.0 * Distance(Printed(out, carry, K), Value(F, q)) <= Ten(K - (|out| - 1))
    ensures ShortestAnswer(out, K + carry + 1, F, q, spec, even)
  {
    PrintedShown(out, carry, K);
    TenMonotone(K - (|out| - 1), K + carry + 1 - |out|);
  }

  lemma AnswerIsBest(F: nat, q: int, B: nat, t: nat, k: int, w: Powers, even: bool, kCheck: bool, lowered: bool,
                     single: bool, out: seq<nat>, carry: nat)
    requires SetUp(F, q, B, t, k, w) && F > 0 && (even ==> F % 2 == 0) && Estimate(Value(F, q), k, kCheck)
    requires (lowered <==> TooLarge(B, w)) && ShortestOutput(Wanted(B, w, even, lowered), single, out, carry)
    ensures ShortestAnswer(out, k + carry + 1 - if lowered then 1 else 0, F, q, w.spec, even)
  {
    Corrected(F, q, B, t, k, kCheck, w, even, lowered);
    OutputDigits(Wanted(B, w, even, lowered), single, out, carry);
    BestForDouble(F, q, B, t, k, w, even, lowered, single, out, carry);
    ShownAnswer(out, carry, k - if lowered then 1 else 0, F, q, w.spec, even);
  }

  // x, a decimal of e + 1 digits, is the shortest one that reads back as the double, and the
  // closest of those.
  ghost predicate ShortestReading(x: real, e: nat, F: nat, q: int) {
    Optimal(x, e, Value(F, q), y => Reads(y, F, q))
  }

  lemma ReadsEverywhere(F: nat, q: int)
    requires Form(F, q) && F > 0
    ensures forall y: real ::
      Within(y, Value(F, q), GapBelow(F, q) / 2.0, Two(q) / 2.0, F % 2 == 0) <==> Reads(y, F, q)
  {
    forall y: real
      ensures Within(y, Value(F, q), GapBelow(F, q) / 2.0, Two(q) / 2.0, F % 2 == 0) <==> Reads(y, F, q)
    {
      ReadsExactly(y, F, q);
    }
  }

  lemma BestReads(x: real, e: nat, F: nat, q: int)
    requires Form(F, q) && F > 0
    requires BestDecimal(x, e, Value(F, q), GapBelow(F, q) / 2.0, Two(q) / 2.0, F % 2 == 0)
    ensures ShortestReading(x, e, F, q)
  {
    ReadsEverywhere(F, q);
    SameOptimum(x, e, Value(F, q), y => Within(y, Value(F, q), GapBelow(F, q) / 2.0, Two(q) / 2.0, F % 2 == 0),
                y => Reads(y, F, q));
  }

  // In mode 0 the string is the shortest that reads back as the double.
  lemma AnswerReads(s: seq<nat>, decpt: int, F: nat, q: int)
    requires Form(F, q) && F > 0 && (F == HIDDEN ==> q > MIN_EXP)
    requires ShortestAnswer(s, decpt, F, q, F == HIDDEN, F % 2 == 0)
    ensures ShortestReading(Shown(s, decpt), |s| - 1, F, q)
  {
    TwoStep(q - 1);
    TwoStep(q - 2);
    BestReads(Shown(s, decpt), |s| - 1, F, q);
  }

  // Whatever the mode, the string reads back as the double.
  lemma AnswerReadsBack(s: seq<nat>, decpt: int, F: nat, q: int, even: bool)
    requires Form(F, q) && F > 0 && (even ==> F % 2 == 0)
    requires ShortestAnswer(s, decpt, F, q, F == HIDDEN, even)
    ensures Reads(Shown(s, decpt), F, q)
  {
    TwoStep(q - 1);
    TwoStep(q - 2);
    TwoPositive(q - 2);
    ReadsExactly(Shown(s, decpt), F, q);
  }
}

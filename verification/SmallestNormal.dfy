/**
 * The smallest normal double, 2^-1022, is a power of two whose neighbours are equally far, but
 * __dtoa takes the margin below it for half the one above.  The digits are the right ones.
 */
module SmallestNormal {
  import opened Basics
  import opened Words
  import opened Doubles
  import opened Decimals
  import opened Intervals
  import DigitTheory
  import Scaling

  // 5^n to within H - L units of 2^s.
  ghost predicate Near(n: nat, L: nat, H: nat, s: nat) {
    L * Pow(2, s) <= Pow(5, n) <= H * Pow(2, s)
  }

  lemma Squares(a: nat, b: nat)
    requires a <= b
    ensures a * a <= b * b
  {
    MulLe(a, b, a);
    MulLe(a, b, b);
  }

  lemma FourFactors(a: nat, s: nat, r: nat, t: nat)
    requires t == s * s * r
    ensures a * r * (s * s) == a * t && a * s * (a * s) == a * a * (s * s)
  {
    Regroup(a, r, s * s);
    Regroup(a * s, a, s);
    Regroup(a, s, a);
    Regroup(a * a, s, s);
    assert a * s * (a * s) == a * s * a * s;
    assert a * s * a == a * a * s;
  }

  lemma Square(n: nat, L: nat, H: nat, s: nat, L': nat, H': nat, r: nat)
    requires Near(n, L, H, s) && L' * Pow(2, r) <= L * L && H * H <= H' * Pow(2, r)
    ensures Near(2 * n, L', H', 2 * s + r)
  {
    var S, R, P := Pow(2, s), Pow(2, r), Pow(5, n);
    PowAdd(5, n, n);
    PowAdd(2, s, s);
    PowAdd(2, 2 * s, r);
    Squares(L * S, P);
    Squares(P, H * S);
    FourFactors(L', S, R, Pow(2, 2 * s + r));
    FourFactors(H', S, R, Pow(2, 2 * s + r));
    FourFactors(L, S, R, Pow(2, 2 * s + r));
    FourFactors(H, S, R, Pow(2, 2 * s + r));
    MulLe(L' * R, L * L, S * S);
    MulLe(H * H, H' * R, S * S);
  }

  lemma Fifth(n: nat, L: nat, H: nat, s: nat)
    requires Near(n, L, H, s)
    ensures Near(n + 1, 5 * L, 5 * H, s)
  {
    Regroup(5, L, Pow(2, s));
    Regroup(5, H, Pow(2, s));
  }

  lemma TwoTo64()
    ensures Pow(2, 48) == 0x1_0000_0000_0000 && Pow(2, 64) == 0x1_0000_0000_0000_0000
  {
    Scaling.SmallPowers();
    PowAdd(2, 32, 16);
    PowAdd(2, 32, 32);
  }

  lemma TwoPowers()
    ensures Pow(2, 64) == 0x1_0000_0000_0000_0000
    ensures Pow(2, 112) == 0x1_0000_0000_0000_0000_0000_0000_0000
    ensures Pow(2, 128) == 0x1_0000_0000_0000_0000_0000_0000_0000_0000
  {
    TwoTo64();
    PowAdd(2, 64, 48);
    PowAdd(2, 64, 64);
  }

  lemma FiveTo40()
    ensures Pow(5, 40) == 9094947017729282379150390625
  {
    assert Pow(5, 5) == 3125;
    PowAdd(5, 5, 5);
    PowAdd(5, 10, 10);
    PowAdd(5, 20, 20);
  }

  // The leading digits of 5^323.
  lemma FiveTo323()
    ensures Near(323, 1282667750405742577917509152864100, 1282667750405742577917509152864105, 640)
  {
    TwoPowers();
    FiveTo40();
    assert Near(40, 9094947017729282379150390625, 9094947017729282379150390625, 0);
    Square(40, 9094947017729282379150390625, 9094947017729282379150390625, 0,
           4484155085839414626955934666527731620, 4484155085839414626955934666527731621, 64);
    Square(80, 4484155085839414626955934666527731620, 4484155085839414626955934666527731621, 64,
           59091063153828708996857156879979733, 59091063153828708996857156879979735, 128);
    Fifth(160, 59091063153828708996857156879979733, 59091063153828708996857156879979735, 256);
    Square(161, 295455315769143544984285784399898665, 295455315769143544984285784399898675, 256,
           256533550081148515583501830572820, 256533550081148515583501830572821, 128);
    Fifth(322, 256533550081148515583501830572820, 256533550081148515583501830572821, 640);
  }

  const SIXTEEN: nat := 2225073858507201
  const SEVENTEEN: nat := 22250738585072014

  lemma Sandwich(L: nat, H: nat, S: nat, P: nat, T: nat)
    requires L == 1282667750405742577917509152864100 && H == L + 5 && S > 0
    requires L * S <= P <= H * S && T == S * 0x1_0000_0000_0000_0000_0000_0000_0000
    ensures SIXTEEN * T < (2 * HIDDEN - 1) * P && (2 * HIDDEN + 1) * P < (SIXTEEN + 1) * T
    ensures (4 * HIDDEN - 1) * (5 * P) < SEVENTEEN * T < (4 * HIDDEN + 1) * (5 * P)
  {
    Order(SIXTEEN * 0x1_0000_0000_0000_0000_0000_0000_0000, (2 * HIDDEN - 1) * L, S);
    Order((2 * HIDDEN + 1) * H, (SIXTEEN + 1) * 0x1_0000_0000_0000_0000_0000_0000_0000, S);
    Order((4 * HIDDEN - 1) * 5 * H, SEVENTEEN * 0x1_0000_0000_0000_0000_0000_0000_0000, S);
    Order(SEVENTEEN * 0x1_0000_0000_0000_0000_0000_0000_0000, (4 * HIDDEN + 1) * 5 * L, S);
  }

  // No sixteen digits fall into the interval, and these seventeen come close to the number.
  lemma LeadingDigits()
    ensures var P, T := Pow(5, 323), Pow(2, 752);
      && SIXTEEN * T < (2 * HIDDEN - 1) * P && (2 * HIDDEN + 1) * P < (SIXTEEN + 1) * T
      && (4 * HIDDEN - 1) * (5 * P) < SEVENTEEN * T < (4 * HIDDEN + 1) * (5 * P)
  {
    FiveTo323();
    TwoPowers();
    PowAdd(2, 640, 112);
    PowPositive(2, 640);
    Sandwich(1282667750405742577917509152864100, 1282667750405742577917509152864105, Pow(2, 640), Pow(5, 323),
             Pow(2, 752));
  }

  // A unit for all the numbers involved.
  ghost predicate SharedUnit(z: real, P: nat, T: nat) {
    && z > 0.0 && P == Pow(5, 323) && T == Pow(2, 752)
    && Times(T, z) == Ten(-324) && Times(5 * P, z) == Two(-1076)
  }

  lemma SmallUnit() returns (z: real)
    ensures SharedUnit(z, Pow(5, 323), Pow(2, 752))
  {
    PowPositive(2, 752);
    TenPositive(-324);
    z := Part(Pow(2, 752), Ten(-324));
    UnitNegative(752, 324, -324, z);
    PowerOfTwo(752, 0, Times(Pow(5, 324), z), -324);
    assert Pow(2, 0) == 1;
    One(Times(Pow(5, 324), z));
  }

  lemma FineUnits(z: real, P: nat, T: nat, V: nat)
    requires SharedUnit(z, P, T)
    ensures Times(V, Ten(-324)) == Times(V * T, z)
  {
    TimesTimes(V, T, z);
  }

  lemma DecimalUnits(z: real, P: nat, T: nat, V: nat)
    requires SharedUnit(z, P, T)
    ensures Times(V, Ten(-323)) == Times(V * (10 * T), z)
  {
    TenStep(-324);
    TimesTimes(10, T, z);
    TenOf(Ten(-324));
    TimesTimes(V, 10 * T, z);
  }

  lemma BinaryUnits(z: real, P: nat, T: nat)
    requires SharedUnit(z, P, T)
    ensures Value(HIDDEN, -1074) == Times(4 * HIDDEN * (5 * P), z) && 2.0 * Two(-1076) == Times(2 * (5 * P), z)
  {
    assert Pow(2, 2) == 4;
    OnGrid(HIDDEN, -1074, -1076);
    TimesTimes(4 * HIDDEN, 5 * P, z);
    TimesTimes(2, 5 * P, z);
    TimesReal(2, Two(-1076));
  }

  // The interval in which everything reads back as the number, and the one the code takes.
  predicate Wide(x: real, v: real, u: real) {
    Within(x, v, 2.0 * u, 2.0 * u, true)
  }

  predicate Narrow(x: real, v: real, u: real) {
    Within(x, v, u, 2.0 * u, true)
  }

  lemma CloseInUnits(P: nat, T: nat)
    requires (4 * HIDDEN - 1) * (5 * P) < SEVENTEEN * T < (4 * HIDDEN + 1) * (5 * P)
    ensures Apart(SEVENTEEN * T, 4 * HIDDEN * (5 * P)) < 5 * P
  {
  }

  lemma SeventeenClose(z: real, P: nat, T: nat)
    requires SharedUnit(z, P, T)
    ensures Distance(Times(SEVENTEEN, Ten(-324)), Value(HIDDEN, -1074)) < Two(-1076)
  {
    LeadingDigits();
    FineUnits(z, P, T, SEVENTEEN);
    BinaryUnits(z, P, T);
    CloseInUnits(P, T);
    DistanceTimes(SEVENTEEN * T, 4 * HIDDEN * (5 * P), z);
    TimesOrder(Apart(SEVENTEEN * T, 4 * HIDDEN * (5 * P)), 5 * P, z);
  }

  predicate Outside(x: nat, b: nat, m: nat) {
    x < b - m || b + m < x
  }

  lemma OutsideInUnits(P: nat, T: nat, X: nat)
    requires SIXTEEN * T < (2 * HIDDEN - 1) * P && (2 * HIDDEN + 1) * P < (SIXTEEN + 1) * T
    ensures Outside(X * (10 * T), 4 * HIDDEN * (5 * P), 2 * (5 * P))
  {
    assert X * (10 * T) == 10 * (X * T);
    if X <= SIXTEEN { MulLe(X, SIXTEEN, T); } else { MulLe(SIXTEEN + 1, X, T); }
  }

  lemma OutsideReal(x: nat, b: nat, m: nat, z: real, u: real, y: real, v: real)
    requires z > 0.0 && 2.0 * u == Times(m, z) && Outside(x, b, m) && y == Times(x, z) && v == Times(b, z)
    ensures !Wide(y, v, u)
  {
    WithinTimes(x, b, m, m, z, true);
  }

  // An integer number of 10^-323 does not fall into the interval.
  lemma SixteenOutside(z: real, P: nat, T: nat, X: nat)
    requires SharedUnit(z, P, T) && Outside(X * (10 * T), 4 * HIDDEN * (5 * P), 2 * (5 * P))
    ensures !Wide(Times(X, Ten(-323)), Value(HIDDEN, -1074), Two(-1076))
  {
    DecimalUnits(z, P, T, X);
    BinaryUnits(z, P, T);
    OutsideReal(X * (10 * T), 4 * HIDDEN * (5 * P), 2 * (5 * P), z, Two(-1076), Times(X, Ten(-323)),
                Value(HIDDEN, -1074));
  }

  lemma NeverInside(X: nat)
    ensures !Wide(Times(X, Ten(-323)), Value(HIDDEN, -1074), Two(-1076))
  {
    var z := SmallUnit();
    LeadingDigits();
    OutsideInUnits(Pow(5, 323), Pow(2, 752), X);
    SixteenOutside(z, Pow(5, 323), Pow(2, 752), X);
  }

  lemma BelowInUnits(P: nat, T: nat)
    requires SIXTEEN * T < (2 * HIDDEN - 1) * P
    ensures 1_000_000_000_000_000 * (10 * T) + 2 * (5 * P) < 4 * HIDDEN * (5 * P)
  {
  }

  lemma GapReal(x: nat, b: nat, m: nat, z: real, u: real, y: real, v: real)
    requires z > 0.0 && 2.0 * u == Times(m, z) && x + m < b && y == Times(x, z) && v == Times(b, z)
    ensures y < v - 2.0 * u
  {
    TimesAdd(x, m, z);
    TimesOrder(x + m, b, z);
  }

  lemma TenToFifteen()
    ensures Pow(10, 15) == 1_000_000_000_000_000 && Pow(10, 16) == 10_000_000_000_000_000
    ensures Pow(10, 17) == 100_000_000_000_000_000
  {
    assert Pow(10, 5) == 100_000;
    PowAdd(10, 5, 5);
    PowAdd(10, 10, 5);
  }

  lemma PowerInUnits(z: real, P: nat, T: nat)
    requires SharedUnit(z, P, T)
    ensures Ten(-308) == Times(1_000_000_000_000_000 * (10 * T), z)
  {
    DecimalUnits(z, P, T, 1_000_000_000_000_000);
    TenToFifteen();
    TenScale(-323, 15);
  }

  // 10^-308 lies below the interval.
  lemma PowerBelow(z: real, P: nat, T: nat)
    requires SharedUnit(z, P, T) && SIXTEEN * T < (2 * HIDDEN - 1) * P
    ensures Ten(-308) < Value(HIDDEN, -1074) - 2.0 * Two(-1076)
  {
    BelowInUnits(P, T);
    PowerInUnits(z, P, T);
    BinaryUnits(z, P, T);
    GapReal(1_000_000_000_000_000 * (10 * T), 4 * HIDDEN * (5 * P), 2 * (5 * P), z, Two(-1076), Ten(-308),
            Value(HIDDEN, -1074));
  }

  lemma NoneOnGrid(V: nat, m: nat)
    ensures !Wide(Times(V, Ten(m - 323)), Value(HIDDEN, -1074), Two(-1076))
  {
    TenScale(-323, m);
    TimesTimes(V, Pow(10, m), Ten(-323));
    NeverInside(V * Pow(10, m));
  }

  // No sixteen digits read back as the number.
  lemma NoSixteen(V: nat, n: int)
    requires V < Pow(10, 16)
    ensures !Wide(Times(V, Ten(n)), Value(HIDDEN, -1074), Two(-1076))
  {
    if n >= -323 {
      NoneOnGrid(V, n + 323);
    } else {
      TenPositive(n);
      TimesOrder(V, Pow(10, 16), Ten(n));
      TenScale(n, 16);
      TenMonotone(n + 16, -308);
      var z := SmallUnit();
      LeadingDigits();
      PowerBelow(z, Pow(5, 323), Pow(2, 752));
    }
  }

  lemma {:induction false} DigitsBound(s: seq<nat>)
    requires DigitTheory.Decimal(s)
    ensures DigitTheory.ValDec(s) < Pow(10, |s|)
  {
    if s != [] { DigitsBound(s[..|s| - 1]); }
  }

  ghost predicate NarrowAnswer(x: real, e: nat) {
    Optimal(x, e, Value(HIDDEN, -1074), y => Narrow(y, Value(HIDDEN, -1074), Two(-1076)))
  }

  lemma NeedsSeventeen(x: real, e: nat, V: nat, n: int)
    requires NarrowAnswer(x, e) && x == Times(V, Ten(n)) && V < Pow(10, e + 1)
    ensures e == 16 && Distance(x, Value(HIDDEN, -1074)) < Two(-1076)
  {
    var z := SmallUnit();
    SeventeenClose(z, Pow(5, 323), Pow(2, 752));
    TenToFifteen();
    TwoPositive(-1076);
    assert Narrow(Times(SEVENTEEN, Ten(-324)), Value(HIDDEN, -1074), Two(-1076));
    if e > 16 { PowMonotone(10, 17, e); }
    if e < 16 {
      PowMonotone(10, e + 1, 16);
      NoSixteen(V, n);
    }
  }

  // So the narrower interval is as good.
  lemma NarrowIsWide(x: real, e: nat, V: nat, n: int)
    requires NarrowAnswer(x, e) && x == Times(V, Ten(n)) && V < Pow(10, e + 1)
    ensures Optimal(x, e, Value(HIDDEN, -1074), y => Wide(y, Value(HIDDEN, -1074), Two(-1076)))
  {
    NeedsSeventeen(x, e, V, n);
    TwoPositive(-1076);
    var v, u := Value(HIDDEN, -1074), Two(-1076);
    forall V: nat, n: int | V < Pow(10, e) ensures !Wide(Times(V, Ten(n)), v, u) {
      NoSixteen(V, n);
    }
    forall V: nat, n: int | V < Pow(10, e + 1) && Wide(Times(V, Ten(n)), v, u)
      ensures Distance(x, v) <= Distance(Times(V, Ten(n)), v)
    {
    }
  }

  // In mode 0 the string is the shortest that reads back as this number too.
  lemma SmallestReads(s: seq<nat>, decpt: int)
    requires ShortestAnswer(s, decpt, HIDDEN, MIN_EXP, true, true)
    ensures ShortestReading(Shown(s, decpt), |s| - 1, HIDDEN, MIN_EXP)
  {
    DigitsBound(s);
    TwoStep(-1076);
    NarrowIsWide(Shown(s, decpt), |s| - 1, DigitTheory.ValDec(s), decpt - |s|);
    BestReads(Shown(s, decpt), |s| - 1, HIDDEN, MIN_EXP);
  }
}

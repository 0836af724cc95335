/** What the fixed-length modes of __dtoa print, as a rounding of the double. */
module FixedModes {
  import opened Basics
  import opened Words
  import opened Doubles
  import opened Decimals
  import opened DigitTheory
  import opened Intervals
  import Conversion
  import DigitGen
  import RoundOff

  // The exponents when there are no margins.
  ghost predicate SetUpFixed(F: nat, q: int, B: nat, t: nat, k: int, w: Powers) {
    B * Pow(2, t) == F && w.b5 - w.s5 == -k && (w.b5 == 0 || w.s5 == 0) && w.b2 - w.s2 == q + t - k
  }

  ghost function Numerator(B: nat, w: Powers): nat {
    Conversion.Scaled(Pow(5, w.b5) * B, w.b2, false)
  }

  ghost function Divisor(w: Powers): nat {
    Conversion.Scaled(Pow(5, w.s5), w.s2, false)
  }

  lemma Rearranged(f: nat, B: nat, z: nat, c: nat)
    ensures f * B * z * c == B * (f * z * c)
  {
    Regroup(f, B, z);
    Regroup(B, f, z);
    Regroup(B, f * z, c);
    assert f * B * z == B * (f * z) by { assert f * B == B * f; Regroup(B, f, z); }
  }

  // In units of which the divisor makes 10^K, the number is the double.
  lemma FixedUnit(F: nat, q: int, B: nat, t: nat, k: int, w: Powers, lowered: bool) returns (u: real)
    requires SetUpFixed(F, q, B, t, k, w)
    ensures u > 0.0 && Divisor(w) > 0 && Times(Divisor(w), u) == Ten(k - if lowered then 1 else 0)
    ensures Times(Numerator(B, w) * (if lowered then 10 else 1), u) == Value(F, q)
  {
    var c := if lowered then 10 else 1;
    u := UnitOf(w.b5, w.s5, w.s2, w.b2, k, lowered);
    TenPositive(k - if lowered then 1 else 0);
    Rearranged(Pow(5, w.b5), B, Pow(2, w.b2), c);
    TimesTimes(B, Pow(5, w.b5) * Pow(2, w.b2) * c, u);
    TwoScale(q, t);
    TimesTimes(B, Pow(2, t), Two(q));
  }

  lemma EstimatedFixed(F: nat, q: int, B: nat, t: nat, k: int, kCheck: bool, w: Powers)
    requires SetUpFixed(F, q, B, t, k, w) && Estimate(Value(F, q), k, kCheck)
    ensures Conversion.Estimated(Numerator(B, w), Divisor(w), kCheck)
  {
    var u := FixedUnit(F, q, B, t, k, w, false);
    EstimateOnIntegers(Numerator(B, w), Divisor(w), u, Value(F, q), k, kCheck);
  }

  // The decimal shown is N units of 10^n, N being the double rounded to that precision.
  ghost predicate FixedAnswer(s: seq<nat>, decpt: int, N: nat, n: int, v: real) {
    Shown(s, decpt) == Times(N, Ten(n)) && RoundedReal(N, n, v)
  }

  // Without digits nothing, or one unit, is the right answer.
  lemma NoDigitsReal(num: nat, den: nat, u: real, v: real, K: int, lim: int, out: seq<nat>, carry: nat)
    requires u > 0.0 && den > 0 && Times(den, u) == Ten(K) && Times(num, u) == v && num < 10 * den
    requires lim <= 0 && Conversion.NoDigits(out, carry, num, den, lim)
    ensures FixedAnswer(out, K + carry + 1, |out|, K + 1 - lim, v)
  {
    assert Pow(10, 0) == 1;
    TimesTimes(10, den, u);
    TenOf(Ten(K));
    if lim == 0 {
      RoundedInReals(num, 10 * den, u, v, K + 1, 1, |out|);
      if out == [1] { Snoc([], 1); }
    } else {
      TimesPositive(num, u);
      TimesOrder(num, 10 * den, u);
      TenMonotone(K + 2, K + 1 - lim);
    }
  }

  lemma StandsShown(out: seq<nat>, carry: nat, N: nat, n: nat, K: int)
    requires RoundOff.Stands(out, carry, N, n)
    ensures Shown(out, K + carry + 1) == Times(N, Ten(K + 1 - n))
  {
    var c := n - |out| + carry;
    TenScale(K + 1 - n, c);
    TimesTimes(ValDec(out), Pow(10, c), Ten(K + 1 - n));
  }

  // With digits the rounded integer is what they show.
  lemma DigitsReal(num: nat, den: nat, u: real, v: real, K: int, lim: int, out: seq<nat>, carry: nat, N: nat)
    requires u > 0.0 && den > 0 && Times(den, u) == Ten(K) && Times(num, u) == v
    requires lim >= 1 && DigitGen.RoundedOutput(out, carry, num, den, lim, N)
    ensures FixedAnswer(out, K + carry + 1, N, K + 1 - lim, v)
  {
    RoundedInReals(num, den, u, v, K, lim, N);
    StandsShown(out, carry, N, lim, K);
  }

  // The exponent of the first digit, once the estimate has been put right.
  ghost predicate FirstDigitAt(v: real, K: int) {
    Ten(K) <= v < Ten(K + 1)
  }

  lemma RaisedOnce(num: nat, den: nat, kCheck: bool, lowered: bool)
    requires Conversion.Estimated(num, den, kCheck) && (lowered <==> num < den)
    ensures den <= num * (if lowered then 10 else 1) < 10 * den
  {
  }

  // Neither or both ends of the string are worth printing: no zeros around the digits.
  ghost predicate Tidy(s: seq<nat>) {
    DigitTheory.Decimal(s) && (s != [] ==> s[0] > 0 && s[|s| - 1] > 0)
  }

  lemma AnswerIsRounded(num: nat, den: nat, u: real, v: real, K: int, mode: int, lim: int, out: seq<nat>, carry: nat,
                        N: nat) returns (M: nat)
    requires u > 0.0 && den > 0 && Times(den, u) == Ten(K) && Times(num, u) == v && den <= num < 10 * den
    requires Conversion.FixedResult(out, carry, num, den, mode, lim, N)
    ensures FixedAnswer(out, K + carry + 1, M, K + 1 - lim, v) && FirstDigitAt(v, K) && Tidy(out)
  {
    TimesOrder(den, num, u);
    TimesTimes(10, den, u);
    TenOf(Ten(K));
    TimesOrder(num, 10 * den, u);
    if lim <= 0 && mode > 2 {
      M := |out|;
      NoDigitsReal(num, den, u, v, K, lim, out, carry);
    } else {
      M := N;
      DigitsReal(num, den, u, v, K, lim, out, carry, N);
    }
  }

  lemma DoubleIsRounded(F: nat, q: int, B: nat, t: nat, k: int, w: Powers, kCheck: bool, lowered: bool, mode: int,
                        lim: int, out: seq<nat>, carry: nat, N: nat) returns (M: nat)
    requires SetUpFixed(F, q, B, t, k, w) && Estimate(Value(F, q), k, kCheck)
    requires lowered <==> Numerator(B, w) < Divisor(w)
    requires Conversion.FixedResult(out, carry, Numerator(B, w) * (if lowered then 10 else 1), Divisor(w), mode, lim, N)
    ensures var K := k - if lowered then 1 else 0;
      FixedAnswer(out, K + carry + 1, M, K + 1 - lim, Value(F, q)) && FirstDigitAt(Value(F, q), K) && Tidy(out)
  {
    var u := FixedUnit(F, q, B, t, k, w, lowered);
    EstimatedFixed(F, q, B, t, k, kCheck, w);
    RaisedOnce(Numerator(B, w), Divisor(w), kCheck, lowered);
    M := AnswerIsRounded(Numerator(B, w) * if lowered then 10 else 1, Divisor(w), u, Value(F, q),
                         k - if lowered then 1 else 0, mode, lim, out, carry, N);
  }
}

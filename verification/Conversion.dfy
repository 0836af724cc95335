/**
 * The end of __dtoa from the scaling on: the numbers are shifted together, the exponent
 * estimate is put right, and one of the digit loops runs.  What comes out is stated about
 * the numbers that went in; the common power of two cancels.
 */
module Conversion {
  import opened Basics
  import opened Words
  import opened Bigints
  import opened DigitTheory
  import opened DigitGen
  import opened ShortestGen
  import MultAdds
  import Compare
  import Pow5
  import Scaling

  // All numbers of a problem times c.
  ghost predicate Times(p: Problem, p': Problem, c: nat) {
    c > 0 && p'.b == p.b * c && p'.S == p.S * c && p'.mlo == p.mlo * c && p'.mhi == p.mhi * c && p'.even == p.even
  }

  lemma Factor(a: int, b: int, c: int, q: int)
    ensures (a * c - b * c) * q == (a - b) * q * c
    ensures (a * c + b * c) * q == (a + b) * q * c
    ensures b * (a * c) == b * a * c
  {
    assert (a * c - b * c) == (a - b) * c;
    assert (a * c + b * c) == (a + b) * c;
  }

  lemma InsideScaled(p: Problem, p': Problem, c: nat, V: int, e: nat)
    requires Times(p, p', c)
    ensures StrictlyInside(p', V, e) <==> StrictlyInside(p, V, e)
    ensures Acceptable(p', V, e) <==> Acceptable(p, V, e)
  {
    var q := Pow(10, e);
    Factor(p.b, p.mlo, c, q);
    Factor(p.b, p.mhi, c, q);
    Factor(p.S, V, c, 1);
    Order((p.b - p.mlo) * q, V * p.S, c);
    Order(V * p.S, (p.b + p.mhi) * q, c);
  }

  lemma NearTerms(b: int, s: int, v: int, q: int, c: int)
    ensures 2 * (b * c) * q == 2 * b * q * c
    ensures 2 * (v * (s * c)) == 2 * (v * s) * c
    ensures (2 * b * q - s) * c == 2 * b * q * c - s * c
    ensures (2 * b * q + s) * c == 2 * b * q * c + s * c
  {
    Factor(b, q, c, 1);
    Factor(s, v, c, 1);
    Separate(2 * b * q, s, c);
    Distribute(2 * b * q, s, c);
    assert 2 * (b * c) * q == 2 * (b * q * c) by { assert b * c * q == b * q * c; }
  }

  lemma NearestScaled(p: Problem, p': Problem, c: nat, V: int, e: nat)
    requires Times(p, p', c)
    ensures Nearest(p', V, e) <==> Nearest(p, V, e)
  {
    var q := Pow(10, e);
    var x, y := 2 * p.b * q, 2 * (V * p.S);
    NearTerms(p.b, p.S, V, q, c);
    Order(x - p.S, y, c);
    Order(y, x + p.S, c);
  }

  lemma RoundedScaled(N: nat, num: nat, den: nat, c: nat)
    requires c > 0
    ensures Rounded(N, num * c, den * c) <==> Rounded(N, num, den)
  {
    NearTerms(num, den, N, 1, c);
    Order(2 * num - den, 2 * (N * den), c);
    Order(2 * (N * den), 2 * num + den, c);
  }

  lemma OutputScaled(out: seq<nat>, carry: nat, num: nat, den: nat, c: nat, n: nat, N: nat)
    requires c > 0 && RoundedOutput(out, carry, num * c, den * c, n, N)
    ensures RoundedOutput(out, carry, num, den, n, N)
  {
    var q := Pow(10, n - 1);
    Factor(num, q, c, 1);
    assert num * c * q == num * q * c;
    RoundedScaled(N, num * q, den, c);
  }

  lemma SignScaled(x: int, c: nat)
    requires c > 0
    ensures x * c > 0 <==> x > 0
    ensures x * c == 0 <==> x == 0
  {
    Order(0, x, c);
  }

  // The comparisons at a first digit nine: b - 9 S, its double, and both with the margins.
  lemma NineTerms(b: int, s: int, mlo: int, mhi: int, c: nat)
    requires c > 0
    ensures b * c - 9 * (s * c) == (b - 9 * s) * c
    ensures (b - 9 * s) * c + mhi * c - s * c == (b - 9 * s + mhi - s) * c
    ensures (b - 9 * s) * c - mlo * c == (b - 9 * s - mlo) * c
    ensures 2 * ((b - 9 * s) * c) - s * c == (2 * (b - 9 * s) - s) * c
  {
    Factor(s, 9, c, 1);
    Separate(b, 9 * s, c);
    Distribute(b - 9 * s, mhi, c);
    Separate(b - 9 * s + mhi, s, c);
    Separate(b - 9 * s, mlo, c);
    Separate(2 * (b - 9 * s), s, c);
  }

  lemma NineScaled(p: Problem, p': Problem, c: nat, single: bool)
    requires Times(p, p', c)
    ensures AnswersTen(p', single) <==> AnswersTen(p, single)
    ensures NineLost(p', single) <==> NineLost(p, single)
  {
    var r := p.b - 9 * p.S;
    NineTerms(p.b, p.S, p.mlo, p.mhi, c);
    SignScaled(r, c);
    SignScaled(r + p.mhi - p.S, c);
    SignScaled(r - p.mlo, c);
    SignScaled(2 * r - p.S, c);
  }

  lemma ErrorScaled(p: Problem, p': Problem, c: nat, V: int, e: nat)
    requires Times(p, p', c)
    ensures Error(p', V, e) == Error(p, V, e) * c
  {
    Factor(p.S, V, c, 1);
    Factor(p.b, Pow(10, e), c, 1);
    assert p.b * c * Pow(10, e) == p.b * Pow(10, e) * c;
    Separate(V * p.S, p.b * Pow(10, e), c);
    Separate(0, V * p.S - p.b * Pow(10, e), c);
    SignScaled(V * p.S - p.b * Pow(10, e), c);
  }

  lemma ClosestScaled(p: Problem, p': Problem, c: nat, V: int, e: nat)
    requires Times(p, p', c)
    ensures Closest(p', V, e) <==> Closest(p, V, e)
  {
    ErrorScaled(p, p', c, V, e);
    forall U: int
      ensures Acceptable(p', U, e) <==> Acceptable(p, U, e)
      ensures Error(p', V, e) <= Error(p', U, e) <==> Error(p, V, e) <= Error(p, U, e)
    {
      InsideScaled(p, p', c, U, e);
      ErrorScaled(p, p', c, U, e);
      Order(Error(p, V, e), Error(p, U, e), c);
    }
  }

  lemma EndsTerms(x: int, y: int, z: int, s: int, c: nat)
    requires c > 0
    ensures 2 * (x * c) == s * c <==> 2 * x == s
    ensures y * c == z * c + x * c <==> y == z + x
  {
    Regroup(2, x, c);
    Order(2 * x, s, c);
    Distribute(z, x, c);
    Order(y, z + x, c);
  }

  lemma Exchange(a: int, b: int, c: int)
    ensures a * b * c == a * c * b
  {
  }

  lemma EndsOnScaled(p: Problem, p': Problem, c: nat, e: nat, W: int)
    requires Times(p, p', c)
    ensures EndsOn(p', e, W) <==> EndsOn(p, e, W)
  {
    Exchange(p.mhi, c, Pow(10, e));
    Exchange(p.b, c, Pow(10, e));
    Regroup(W, p.S, c);
    EndsTerms(p.mhi * Pow(10, e), p.b * Pow(10, e), W * p.S, p.S, c);
  }

  lemma TieScaled(p: Problem, p': Problem, c: nat, V: int, e: nat)
    requires Times(p, p', c)
    requires forall U: int, f: nat :: Acceptable(p', U, f) <==> Acceptable(p, U, f)
    ensures (TieEven(p', V, e) <==> TieEven(p, V, e)) && (TieLost(p') <==> TieLost(p))
  {
    ErrorScaled(p, p', c, V, e);
    forall U: int ensures Error(p', U, e) == Error(p', V, e) <==> Error(p, U, e) == Error(p, V, e) {
      ErrorScaled(p, p', c, U, e);
      Order(Error(p, U, e), Error(p, V, e), c);
    }
    forall f: nat, W: int ensures EndsOn(p', f, W) <==> EndsOn(p, f, W) {
      EndsOnScaled(p, p', c, f, W);
    }
    Order(p.mlo, p.mhi, c);
    Order(0, p.S, c);
  }

  lemma ShortestScaled(p: Problem, p': Problem, c: nat, single: bool, out: seq<nat>, carry: nat)
    requires Times(p, p', c) && ShortestOutput(p', single, out, carry)
    requires forall V: int, f: nat :: Acceptable(p', V, f) <==> Acceptable(p, V, f)
    ensures ShortestOutput(p, single, out, carry)
  {
    var V := ValDec(out) * Pow(10, carry);
    NearestScaled(p, p', c, V, |out| - 1);
    ClosestScaled(p, p', c, V, |out| - 1);
    TieScaled(p, p', c, V, |out| - 1);
    NineScaled(p, p', c, single);
    Order(p.S, p.b, c);
    Order(p.mlo, p.mhi, c);
  }

  // The common factor cancels in everything the loop promises.
  lemma EndsScaled(p: Problem, p': Problem, c: nat, single: bool, ilim: int, e: Ending, N: nat)
    requires Times(p, p', c) && EndsWell(p', single, ilim, e, N)
    ensures EndsWell(p, single, ilim, e, N)
  {
    forall V: int, f: nat ensures Acceptable(p', V, f) <==> Acceptable(p, V, f) {
      InsideScaled(p, p', c, V, f);
    }
    if e.limited {
      OutputScaled(e.out, e.carry, p.b, p.S, c, ilim, N);
    } else {
      ShortestScaled(p, p', c, single, e.out, e.carry);
    }
  }

  // A positive number of the caller's.
  ghost predicate Positive(pool: Pool, x: Bigint)
    reads pool, x
  {
    x !in pool.freeSet && x.Normal() && x.Value() > 0 && 1 <= x.k <= KMAX
  }

  // By how much both numbers are going to be shifted besides.
  ghost function CommonShift(S: Bigint, s2: nat): nat
    reads S
    requires 0 < S.wds <= |S.x|
  {
    Scaling.Common(Bits(S.x[S.wds - 1]), s2)
  }

  // The divisor will have one digit.
  ghost predicate SingleDigit(S: Bigint, s2: nat)
    reads S
    requires 0 < S.wds <= |S.x|
  {
    S.Value() * Pow(2, s2 + CommonShift(S, s2)) < BASE
  }

  // The two numbers once shifted, and the divisor with a digit to spare for the doubling at
  // the end, fit the largest size class.
  ghost predicate Scalable(b: Bigint, S: Bigint, b2: nat, s2: nat)
    reads b, S
    requires 0 < S.wds <= |S.x|
  {
    var h := Bits(S.x[S.wds - 1]);
    var inc := CommonShift(S, s2);
    && Scaling.ShiftFits(b, b2 + inc)
    && (h + s2 + inc) / 16 + S.wds < Pow(2, KMAX)
  }

  // The divisor, of bit length len, shifted so that it has twelve bits in its top digit.
  method ShiftDivisor(pool: Pool, S0: Bigint, s: nat, ghost len: nat) returns (S: Bigint)
    requires pool.FreeOk() && Positive(pool, S0) && Scaling.ShiftFits(S0, s)
    requires Scaling.BitLength(S0.Value(), len) && (len + s) % 16 == 12 && (len + s) / 16 + 1 < Pow(2, KMAX)
    modifies pool.freelist, pool.freeSet, pool`free, pool`freeSet, S0
    ensures pool.FreeOk() && S !in pool.freeSet && Divisor(S)
    ensures S == S0 || fresh(S) || S in old(pool.freeSet)
    ensures pool.freeSet <= old(pool.freeSet) + {S0}
    ensures S.Value() == old(S0.Value()) * Pow(2, s)
  {
    ghost var v := S0.Value();
    S := Scaling.ShiftBy(pool, S0, s);
    Scaling.ScaledTop(S, v, len, s);
  }

  method ShiftBoth(pool: Pool, b0: Bigint, S0: Bigint, b2: nat, s2: nat, ghost len: nat)
    returns (b: Bigint, S: Bigint)
    requires pool.FreeOk() && Positive(pool, b0) && Positive(pool, S0) && b0 != S0
    requires Scaling.ShiftFits(b0, b2) && Scaling.ShiftFits(S0, s2)
    requires Scaling.BitLength(S0.Value(), len) && (len + s2) % 16 == 12 && (len + s2) / 16 + 1 < Pow(2, KMAX)
    modifies pool.freelist, pool.freeSet, pool`free, pool`freeSet, b0, S0
    ensures pool.FreeOk() && Live(pool, b, S) && b.wds > 0
    ensures b in old(pool.freeSet) + {b0, S0} || fresh(b)
    ensures S in old(pool.freeSet) + {b0, S0} || fresh(S)
    ensures forall n :: n in pool.freeSet ==> n in old(pool.freeSet) + {b0, S0} || fresh(n)
    ensures b.Value() == old(b0.Value()) * Pow(2, b2) && S.Value() == old(S0.Value()) * Pow(2, s2)
  {
    b := Scaling.ShiftBy(pool, b0, b2);
    S := ShiftDivisor(pool, S0, s2, len);
  }

  lemma SizesAligned(n: nat, h: nat, s: nat, cap: nat)
    requires n > 0 && h > 0 && (h + s) % 16 == 12 && (h + s) / 16 + n < cap
    ensures (16 * (n - 1) + h + s) % 16 == 12 && s / 16 + n + 1 <= cap
    ensures (16 * (n - 1) + h + s) / 16 + 1 < cap
  {
  }

  // The common shift inc, and the bit length of the divisor.
  method Increment(S0: Bigint, b0: Bigint, fives: bool, b2: nat, s2: nat) returns (inc: nat, ghost len: nat)
    requires S0.Normal() && S0.Value() > 0 && (!fives ==> S0.wds == 1 && S0.x[0] == 1) && Scalable(b0, S0, b2, s2)
    ensures Scaling.BitLength(S0.Value(), len) && (len + (s2 + inc)) % 16 == 12
    ensures inc < 32 && (SingleDigit(S0, s2) <==> S0.Value() * Pow(2, s2 + inc) < BASE)
    ensures Scaling.ShiftFits(b0, b2 + inc) && Scaling.ShiftFits(S0, s2 + inc)
    ensures (len + (s2 + inc)) / 16 + 1 < Pow(2, KMAX)
  {
    var h := Scaling.TopBits(S0, fives);
    inc := Scaling.Alignment(h, s2);
    len := 16 * (S0.wds - 1) + h;
    SizesAligned(S0.wds, h, s2 + inc, Pow(2, KMAX));
  }

  // b and S are shifted together until the divisor has twelve bits in its top digit.
  method ScaleBoth(pool: Pool, b0: Bigint, S0: Bigint, fives: bool, b2: nat, s2: nat)
    returns (b: Bigint, S: Bigint, inc: nat)
    requires pool.FreeOk() && Positive(pool, b0) && Positive(pool, S0) && b0 != S0
    requires (!fives ==> S0.wds == 1 && S0.x[0] == 1) && Scalable(b0, S0, b2, s2)
    modifies pool.freelist, pool.freeSet, pool`free, pool`freeSet, b0, S0
    ensures pool.FreeOk() && Live(pool, b, S) && b.wds > 0
    ensures inc < 32 && (S.Value() < BASE <==> old(SingleDigit(S0, s2)))
    ensures b in old(pool.freeSet) + {b0, S0} || fresh(b)
    ensures S in old(pool.freeSet) + {b0, S0} || fresh(S)
    ensures forall n :: n in pool.freeSet ==> n in old(pool.freeSet) + {b0, S0} || fresh(n)
    ensures b.Value() == old(b0.Value()) * Pow(2, b2 + inc)
    ensures S.Value() == old(S0.Value()) * Pow(2, s2 + inc)
  {
    ghost var len;
    inc, len := Increment(S0, b0, fives, b2, s2);
    b, S := ShiftBoth(pool, b0, S0, b2 + inc, s2 + inc, len);
  }

  // A number times a power of two, and ten times that when the estimate was too large.
  ghost function Scaled(v: nat, e: nat, lowered: bool): nat {
    v * Pow(2, e) * if lowered then 10 else 1
  }

  // The estimate of the exponent is right or, when it is going to be checked, at most one
  // too large.
  ghost predicate Estimated(num: nat, den: nat, kCheck: bool) {
    den <= 10 * num && num < 10 * den && (!kCheck ==> den <= num)
  }

  lemma ScaledMore(v: nat, e: nat, inc: nat)
    ensures v * Pow(2, e + inc) == Scaled(v, e, false) * Pow(2, inc)
    ensures Scaled(v, e, true) == 10 * Scaled(v, e, false)
    ensures v * Pow(2, e + inc) * 10 == Scaled(v, e, true) * Pow(2, inc)
    ensures Pow(2, inc) > 0
  {
    PowAdd(2, e, inc);
    PowPositive(2, inc);
    Factor(Pow(2, e), v, Pow(2, inc), 1);
    Factor(v * Pow(2, e), 10, Pow(2, inc), 1);
  }

  lemma EstimateScaled(num: nat, den: nat, c: nat)
    requires c > 0
    ensures num * c < den * c <==> num < den
    ensures den * c <= 10 * (num * c) <==> den <= 10 * num
    ensures num * c < 10 * (den * c) <==> num < 10 * den
    ensures num * 10 * c == num * c * 10
  {
    Order(num, den, c);
    Factor(num, 10, c, 1);
    Factor(den, 10, c, 1);
    Order(den, 10 * num, c);
    Order(num, 10 * den, c);
  }

  method CheckEstimate(pool: Pool, b0: Bigint, S: Bigint, kCheck: bool, ghost num: nat, ghost den: nat, ghost c: nat)
    returns (b: Bigint, lowered: bool)
    requires pool.FreeOk() && Live(pool, b0, S) && b0.wds > 0 && Estimated(num, den, kCheck)
    requires c > 0 && b0.Value() == num * c && S.Value() == den * c
    modifies pool.freelist, pool.freeSet, pool`free, pool`freeSet, b0
    ensures pool.FreeOk() && Live(pool, b, S) && S.Value() <= b.Value() < 10 * S.Value()
    ensures b == b0 || fresh(b) || b in old(pool.freeSet)
    ensures pool.freeSet <= old(pool.freeSet) + {b0} && unchanged(S)
    ensures lowered <==> num < den
    ensures b.Value() == num * (if lowered then 10 else 1) * c
  {
    EstimateScaled(num, den, c);
    b, lowered := b0, false;
    if kCheck {
      b, lowered := Scaling.FixEstimate(pool, b0, S);
    }
  }

  // The number, the divisor and the estimate __dtoa has come to before it scales them.
  ghost predicate Given(pool: Pool, b: Bigint, S: Bigint, fives: bool, b2: nat, s2: nat, kCheck: bool)
    reads pool, pool.freelist, pool.freeSet, b, S
  {
    && pool.FreeOk() && Positive(pool, b) && Positive(pool, S) && b != S
    && (!fives ==> S.wds == 1 && S.x[0] == 1) && Scalable(b, S, b2, s2)
    && Estimated(Scaled(b.Value(), b2, false), Scaled(S.Value(), s2, false), kCheck)
  }

  // Scaling and the check of the estimate.
  method Prepare(pool: Pool, b0: Bigint, S0: Bigint, fives: bool, b2: nat, s2: nat, kCheck: bool)
    returns (b: Bigint, S: Bigint, inc: nat, lowered: bool)
    requires Given(pool, b0, S0, fives, b2, s2, kCheck)
    modifies pool.freelist, pool.freeSet, pool`free, pool`freeSet, b0, S0
    ensures pool.FreeOk() && Live(pool, b, S) && S.Value() <= b.Value() < 10 * S.Value()
    ensures inc < 32 && (S.Value() < BASE <==> old(SingleDigit(S0, s2)))
    ensures b in old(pool.freeSet) + {b0, S0} || fresh(b)
    ensures S in old(pool.freeSet) + {b0, S0} || fresh(S)
    ensures forall n :: n in pool.freeSet ==> n in old(pool.freeSet) + {b0, S0} || fresh(n)
    ensures lowered <==> old(Scaled(b0.Value(), b2, false)) < old(Scaled(S0.Value(), s2, false))
    ensures b.Value() == old(Scaled(b0.Value(), b2, false)) * (if lowered then 10 else 1) * Pow(2, inc)
    ensures S.Value() == old(Scaled(S0.Value(), s2, false)) * Pow(2, inc)
  {
    ghost var bv, sv := b0.Value(), S0.Value();
    b, S, inc := ScaleBoth(pool, b0, S0, fives, b2, s2);
    ScaledMore(bv, b2, inc);
    ScaledMore(sv, s2, inc);
    b, lowered := CheckEstimate(pool, b, S, kCheck, Scaled(bv, b2, false), Scaled(sv, s2, false), Pow(2, inc));
  }

  // No digit is asked for: with a negative count nothing comes out; with none the number is
  // rounded to a multiple of ten, ties to even, and the one digit of ten comes out or nothing.
  ghost predicate NoDigits(out: seq<nat>, carry: nat, num: nat, den: nat, lim: int) {
    && carry == |out| && (out == [] || out == [1]) && (lim < 0 ==> out == [])
    && (lim == 0 ==> Rounded(|out|, num, 10 * den))
  }

  lemma FiveTimes(num: nat, den: nat, c: nat)
    requires c > 0 && den * c <= num * c < 10 * (den * c)
    ensures num * c > den * c * 5 ==> Rounded(1, num, 10 * den)
    ensures num * c <= den * c * 5 ==> Rounded(0, num, 10 * den)
  {
    Factor(den, 5, c, 1);
    Factor(den, 10, c, 1);
    Order(5 * den, num, c);
    Order(num, 10 * den, c);
    Order(den, num, c);
  }

  method FewDigits(pool: Pool, b: Bigint, S: Bigint, lim: int, ghost num: nat, ghost den: nat, ghost c: nat)
    returns (out: seq<nat>, carry: nat)
    requires pool.FreeOk() && Live(pool, b, S) && lim <= 0
    requires S.Value() <= b.Value() < 10 * S.Value() && c > 0 && b.Value() == num * c && S.Value() == den * c
    modifies pool.freelist, pool.freeSet, pool`free, pool`freeSet, S
    ensures NoDigits(out, carry, num, den, lim)
    ensures pool.FreeOk() && pool.freeSet <= old(pool.freeSet) + {S}
  {
    out, carry := [], 0;
    if lim == 0 {
      var S5 := MultAdds.MultAdd(pool, S, 5, 0);
      var j := Compare.Cmp(b, S5);
      FiveTimes(num, den, c);
      if j > 0 { out, carry := [1], 1; }
    }
  }

  // The decimal of the fixed-length modes.
  ghost predicate FixedResult(out: seq<nat>, carry: nat, num: nat, den: nat, mode: int, lim: int, N: nat) {
    if lim <= 0 && mode > 2 then NoDigits(out, carry, num, den, lim)
    else lim >= 1 && RoundedOutput(out, carry, num, den, lim, N)
  }

  // The cached powers of five are in order and none of them is among the numbers given.
  ghost predicate ChainBeside(pool: Pool, given: set<Bigint>)
    reads pool, pool.chain
  {
    Pow5.ChainOk(pool) && forall n :: n in given ==> n !in pool.chain
  }

  method FixedDecimal(pool: Pool, b0: Bigint, S0: Bigint, fives: bool, b2: nat, s2: nat, kCheck: bool,
                      mode: int, ilim0: int, ilim1: int)
    returns (out: seq<nat>, carry: nat, lowered: bool, ghost N: nat)
    requires Given(pool, b0, S0, fives, b2, s2, kCheck)
    requires mode <= 2 ==> ilim0 >= 1 && ilim1 >= 1
    modifies pool.freelist, pool.freeSet, pool`free, pool`freeSet, b0, S0
    ensures lowered <==> old(Scaled(b0.Value(), b2, false)) < old(Scaled(S0.Value(), s2, false))
    ensures FixedResult(out, carry, old(Scaled(b0.Value(), b2, false)) * (if lowered then 10 else 1),
      old(Scaled(S0.Value(), s2, false)), mode, if lowered then ilim1 else ilim0, N)
    ensures pool.FreeOk() && forall n :: n in pool.freeSet ==> n in old(pool.freeSet) + {b0, S0} || fresh(n)
  {
    var b, S, inc;
    ghost var den := Scaled(S0.Value(), s2, false);
    ghost var num := Scaled(b0.Value(), b2, false);
    b, S, inc, lowered := Prepare(pool, b0, S0, fives, b2, s2, kCheck);
    num := num * if lowered then 10 else 1;
    var ilim := if lowered then ilim1 else ilim0;
    PowPositive(2, inc);
    if ilim <= 0 && mode > 2 {
      out, carry := FewDigits(pool, b, S, ilim, num, den, Pow(2, inc));
      N := 0;
    } else {
      out, carry, N := FixedDigits(pool, b, S, ilim);
      OutputScaled(out, carry, num, den, Pow(2, inc), ilim, N);
    }
  }

  // From the unscaled integers to the digits of the fixed-length modes; numbers and cache
  // are left in order for the next conversion.
  method FixedConversion(pool: Pool, b0: Bigint, S0: Bigint, fives: bool, b2: nat, s2: nat, kCheck: bool,
                         mode: int, ilim0: int, ilim1: int)
    returns (out: seq<nat>, carry: nat, lowered: bool, ghost N: nat)
    requires Given(pool, b0, S0, fives, b2, s2, kCheck)
    requires mode <= 2 ==> ilim0 >= 1 && ilim1 >= 1
    modifies pool.freelist, pool.freeSet, pool`free, pool`freeSet, b0, S0
    ensures lowered <==> old(Scaled(b0.Value(), b2, false)) < old(Scaled(S0.Value(), s2, false))
    ensures FixedResult(out, carry, old(Scaled(b0.Value(), b2, false)) * (if lowered then 10 else 1),
      old(Scaled(S0.Value(), s2, false)), mode, if lowered then ilim1 else ilim0, N)
    ensures pool.FreeOk() && (old(ChainBeside(pool, {b0, S0})) ==> Pow5.ChainOk(pool))
  {
    out, carry, lowered, N := FixedDecimal(pool, b0, S0, fives, b2, s2, kCheck, mode, ilim0, ilim1);
    if old(ChainBeside(pool, {b0, S0})) { Pow5.ChainKept(pool); }
  }

  // The margin keeps clear of the two numbers the loop divides.
  ghost predicate Aside(pool: Pool, m: Bigint, b: Bigint, S: Bigint, digits: nat)
    reads pool, m
  {
    Margin(pool, m, b, S) && m.wds <= digits && 1 <= m.k
  }

  // mhi times ten when the estimate was too large.
  method MarginLowered(pool: Pool, m: Bigint, b: Bigint, S: Bigint, lowered: bool, ghost digits: nat)
    returns (r: Bigint)
    requires pool.FreeOk() && Live(pool, b, S) && Aside(pool, m, b, S, digits) && digits < Pow(2, KMAX)
    modifies pool.freelist, pool.freeSet, pool`free, pool`freeSet, m
    ensures pool.FreeOk() && Live(pool, b, S) && Aside(pool, r, b, S, digits + 1)
    ensures unchanged(b) && unchanged(S) && (r == m || fresh(r) || r in old(pool.freeSet))
    ensures pool.freeSet <= old(pool.freeSet) + {m}
    ensures r.Value() == old(m.Value()) * if lowered then 10 else 1
  {
    r := m;
    if lowered {
      r := MultAdds.MultAdd(pool, m, 10, 0);
    }
  }

  // A copy in the same size class: Balloc and Bcopy.
  method Copy(pool: Pool, m: Bigint) returns (r: Bigint)
    requires pool.FreeOk() && m !in pool.freeSet && m.Normal() && m.k <= KMAX
    modifies pool.freelist, pool.freeSet, pool`free, pool`freeSet
    ensures pool.FreeOk() && r !in pool.freeSet && (fresh(r) || r in old(pool.freeSet))
    ensures pool.freeSet <= old(pool.freeSet)
    ensures r != m && r.Normal() && r.k == m.k && r.wds == m.wds && r.Value() == m.Value()
  {
    r := pool.Balloc(m.k);
    r.sign, r.wds := m.sign, m.wds;
    r.x := m.x[..m.wds] + r.x[m.wds..];
    ValAgree(m.x, r.x, m.wds);
  }

  method ShiftMargin(pool: Pool, m: Bigint, b: Bigint, S: Bigint, s: nat) returns (r: Bigint)
    requires pool.FreeOk() && Live(pool, b, S) && Margin(pool, m, b, S) && Scaling.ShiftFits(m, s)
    modifies pool.freelist, pool.freeSet, pool`free, pool`freeSet, m
    ensures ShortestGen.Ready(pool, b, S, r, r) && unchanged(b) && unchanged(S)
    ensures r == m || fresh(r) || r in old(pool.freeSet)
    ensures pool.freeSet <= old(pool.freeSet) + {m}
    ensures r.wds <= s / 16 + old(m.wds) + 1 && r.Value() == old(m.Value()) * Pow(2, s)
  {
    PowPositive(2, s);
    MulLe(1, Pow(2, s), m.Value());
    r := Scaling.ShiftBy(pool, m, s);
  }

  method Doubled(pool: Pool, m: Bigint, b: Bigint, S: Bigint) returns (r: Bigint)
    requires pool.FreeOk() && Live(pool, b, S) && Margin(pool, m, b, S) && Scaling.ShiftFits(m, 1)
    modifies pool.freelist, pool.freeSet, pool`free, pool`freeSet
    ensures ShortestGen.Ready(pool, b, S, m, r) && unchanged(b) && unchanged(S) && unchanged(m)
    ensures fresh(r) || r in old(pool.freeSet)
    ensures forall n :: n in pool.freeSet ==> n in old(pool.freeSet) || fresh(n)
    ensures r.Value() == 2 * m.Value()
  {
    assert Pow(2, 1) == 2;
    var copy := Copy(pool, m);
    r := ShiftMargin(pool, copy, b, S, 1);
  }

  // mlo, and mhi, which is twice mlo just above a power of two.
  method BothMargins(pool: Pool, m: Bigint, b: Bigint, S: Bigint, s: nat, spec: bool, ghost digits: nat)
    returns (mlo: Bigint, mhi: Bigint)
    requires pool.FreeOk() && Live(pool, b, S) && Aside(pool, m, b, S, digits) && s / 16 + digits + 2 <= Pow(2, KMAX)
    modifies pool.freelist, pool.freeSet, pool`free, pool`freeSet, m
    ensures ShortestGen.Ready(pool, b, S, mlo, mhi) && unchanged(b) && unchanged(S)
    ensures mlo in old(pool.freeSet) + {m} || fresh(mlo)
    ensures mhi in old(pool.freeSet) + {m} || fresh(mhi)
    ensures forall n :: n in pool.freeSet ==> n in old(pool.freeSet) + {m} || fresh(n)
    ensures mlo.Value() == old(m.Value()) * Pow(2, s)
    ensures mhi.Value() == mlo.Value() * if spec then 2 else 1
  {
    mlo := ShiftMargin(pool, m, b, S, s);
    mhi := mlo;
    if spec {
      mhi := Doubled(pool, mlo, b, S);
    }
  }

  // The interval the digits must lie in, in terms of the numbers before scaling.
  ghost function Wanted(b: nat, S: nat, m: nat, b2: nat, s2: nat, m2: nat, spec: bool, even: bool,
                        lowered: bool): Problem
  {
    Problem(Scaled(b, b2, lowered), Scaled(S, s2, false), Scaled(m, m2, lowered),
            Scaled(m, m2, lowered) * (if spec then 2 else 1), even)
  }

  // The margin after scaling, against the interval before it.
  ghost predicate MarginOf(m: nat, e: nat, lowered: bool, spec: bool, p: Problem, c: nat) {
    m * (if lowered then 10 else 1) * Pow(2, e) == p.mlo * c && p.mhi == p.mlo * if spec then 2 else 1
  }

  // What scaling makes of the three numbers, in terms of that interval.
  ghost predicate Serves(p: Problem, even: bool, b: nat, S: nat, m: nat, m2: nat, lowered: bool, spec: bool, c: nat) {
    c > 0 && b == p.b * c && S == p.S * c && p.even == even && MarginOf(m, m2, lowered, spec, p, c)
  }

  lemma WantedServes(b: nat, S: nat, m: nat, b2: nat, s2: nat, m2: nat, spec: bool, even: bool, lowered: bool,
                     inc: nat, b': nat, S': nat)
    requires b' == Scaled(b, b2, false) * (if lowered then 10 else 1) * Pow(2, inc)
    requires S' == Scaled(S, s2, false) * Pow(2, inc)
    ensures var p := Wanted(b, S, m, b2, s2, m2, spec, even, lowered);
      Serves(p, even, b', S', m, m2 + inc, lowered, spec, Pow(2, inc))
  {
    PowPositive(2, inc);
    ScaledMore(b, b2, inc);
    ScaledMore(m, m2, inc);
    Factor(Pow(2, m2 + inc), m, if lowered then 10 else 1, 1);
  }

  // The decimal of the shortest modes, or of the modes with a digit limit on the way to it.
  ghost predicate ShortestResult(p: Problem, single: bool, mode: int, lim: int, e: Ending, N: nat) {
    if lim <= 0 && mode > 2 then NoDigits(e.out, e.carry, p.b, p.S, lim) else EndsWell(p, single, lim, e, N)
  }

  lemma MarginTimes(m: nat, e: nat, spec: bool, p: Problem, p': Problem, c: nat)
    requires c > 0 && MarginOf(m, e, false, spec, p, c)
    requires p'.b == p.b * c && p'.S == p.S * c && p'.even == p.even
    requires p'.mlo == m * Pow(2, e) && p'.mhi == p'.mlo * if spec then 2 else 1
    ensures Times(p, p', c)
  {
    Factor(p.mlo, if spec then 2 else 1, c, 1);
  }

  method GenerateShortest(pool: Pool, b: Bigint, S: Bigint, m: Bigint, m2: nat, spec: bool, even: bool, ilim: int,
                          ghost digits: nat, ghost p: Problem, ghost c: nat)
    returns (e: Ending, ghost N: nat)
    requires pool.FreeOk() && Live(pool, b, S) && S.Value() <= b.Value() < 10 * S.Value()
    requires Aside(pool, m, b, S, digits) && m2 / 16 + digits + 2 <= Pow(2, KMAX)
    requires Serves(p, even, b.Value(), S.Value(), m.Value(), m2, false, spec, c)
    modifies pool.freelist, pool.freeSet, pool`free, pool`freeSet, b, m
    ensures EndsWell(p, old(S.Value() < BASE), ilim, e, N) && pool.FreeOk()
    ensures forall n :: n in pool.freeSet ==> n in old(pool.freeSet) + {b, m} || fresh(n)
  {
    ghost var m0 := m.Value();
    var mlo, mhi := BothMargins(pool, m, b, S, m2, spec, digits);
    ghost var p' := Problem(b.Value(), S.Value(), mlo.Value(), mhi.Value(), even);
    MarginTimes(m0, m2, spec, p, p', c);
    e, N := ShortestDigits(pool, b, S, mlo, mhi, even, ilim, p');
    EndsScaled(p, p', c, S.Value() < BASE, ilim, e, N);
  }

  // Once b and S are scaled: the margins are, and the digits are produced.
  method Generate(pool: Pool, b: Bigint, S: Bigint, mhi0: Bigint, lowered: bool, m2: nat, spec: bool, even: bool,
                  mode: int, ilim: int, ghost digits: nat, ghost p: Problem, ghost c: nat)
    returns (e: Ending, ghost N: nat)
    requires pool.FreeOk() && Live(pool, b, S) && S.Value() <= b.Value() < 10 * S.Value()
    requires Aside(pool, mhi0, b, S, digits) && m2 / 16 + digits + 3 <= Pow(2, KMAX)
    requires Serves(p, even, b.Value(), S.Value(), mhi0.Value(), m2, lowered, spec, c)
    modifies pool.freelist, pool.freeSet, pool`free, pool`freeSet, b, S, mhi0
    ensures ShortestResult(p, old(S.Value() < BASE), mode, ilim, e, N) && pool.FreeOk()
    ensures forall n :: n in pool.freeSet ==> n in old(pool.freeSet) + {b, S, mhi0} || fresh(n)
  {
    var mhi := MarginLowered(pool, mhi0, b, S, lowered, digits);
    if ilim <= 0 && mode > 2 {
      var out, carry := FewDigits(pool, b, S, ilim, p.b, p.S, c);
      e, N := Ending(out, carry, false), 0;
    } else {
      e, N := GenerateShortest(pool, b, S, mhi, m2, spec, even, ilim, digits + 1, p, c);
    }
  }

  // Scaling leaves the margin alone.
  method PrepareWanted(pool: Pool, b0: Bigint, S0: Bigint, mhi0: Bigint, fives: bool, b2: nat, s2: nat, kCheck: bool,
                       ghost m2: nat, ghost spec: bool, ghost even: bool)
    returns (b: Bigint, S: Bigint, inc: nat, lowered: bool, ghost p: Problem)
    requires Given(pool, b0, S0, fives, b2, s2, kCheck) && Positive(pool, mhi0) && mhi0 != b0 && mhi0 != S0
    modifies pool.freelist, pool.freeSet, pool`free, pool`freeSet, b0, S0
    ensures pool.FreeOk() && Live(pool, b, S) && S.Value() <= b.Value() < 10 * S.Value()
    ensures inc < 32 && (S.Value() < BASE <==> old(SingleDigit(S0, s2)))
    ensures b in old(pool.freeSet) + {b0, S0} || fresh(b)
    ensures S in old(pool.freeSet) + {b0, S0} || fresh(S)
    ensures forall n :: n in pool.freeSet ==> n in old(pool.freeSet) + {b0, S0} || fresh(n)
    ensures unchanged(mhi0) && Aside(pool, mhi0, b, S, mhi0.wds)
    ensures lowered <==> old(Scaled(b0.Value(), b2, false)) < old(Scaled(S0.Value(), s2, false))
    ensures p == old(Wanted(b0.Value(), S0.Value(), mhi0.Value(), b2, s2, m2, spec, even, lowered))
    ensures Serves(p, even, b.Value(), S.Value(), mhi0.Value(), m2 + inc, lowered, spec, Pow(2, inc))
  {
    ghost var bv, sv, mv := b0.Value(), S0.Value(), mhi0.Value();
    b, S, inc, lowered := Prepare(pool, b0, S0, fives, b2, s2, kCheck);
    p := Wanted(bv, sv, mv, b2, s2, m2, spec, even, lowered);
    WantedServes(bv, sv, mv, b2, s2, m2, spec, even, lowered, inc, b.Value(), S.Value());
  }

  method ShortestDecimal(pool: Pool, b0: Bigint, S0: Bigint, mhi0: Bigint, fives: bool, b2: nat, s2: nat, m2: nat,
                         spec: bool, even: bool, kCheck: bool, mode: int, ilim0: int, ilim1: int)
    returns (e: Ending, lowered: bool, ghost N: nat)
    requires Given(pool, b0, S0, fives, b2, s2, kCheck)
    requires Positive(pool, mhi0) && mhi0 != b0 && mhi0 != S0 && (m2 + 31) / 16 + mhi0.wds + 3 <= Pow(2, KMAX)
    modifies pool.freelist, pool.freeSet, pool`free, pool`freeSet, b0, S0, mhi0
    ensures lowered <==> old(Scaled(b0.Value(), b2, false)) < old(Scaled(S0.Value(), s2, false))
    ensures ShortestResult(old(Wanted(b0.Value(), S0.Value(), mhi0.Value(), b2, s2, m2, spec, even, lowered)),
      old(SingleDigit(S0, s2)), mode, if lowered then ilim1 else ilim0, e, N)
    ensures pool.FreeOk()
    ensures forall n :: n in pool.freeSet ==> n in old(pool.freeSet) + {b0, S0, mhi0} || fresh(n)
  {
    var b, S, inc;
    ghost var p;
    b, S, inc, lowered, p := PrepareWanted(pool, b0, S0, mhi0, fives, b2, s2, kCheck, m2, spec, even);
    e, N := Generate(pool, b, S, mhi0, lowered, m2 + inc, spec, even, mode, if lowered then ilim1 else ilim0,
                     mhi0.wds, p, Pow(2, inc));
  }

  // The same for the modes that look for the shortest digits.
  method ShortestConversion(pool: Pool, b0: Bigint, S0: Bigint, mhi0: Bigint, fives: bool, b2: nat, s2: nat, m2: nat,
                            spec: bool, even: bool, kCheck: bool, mode: int, ilim0: int, ilim1: int)
    returns (e: Ending, lowered: bool, ghost N: nat)
    requires Given(pool, b0, S0, fives, b2, s2, kCheck)
    requires Positive(pool, mhi0) && mhi0 != b0 && mhi0 != S0 && (m2 + 31) / 16 + mhi0.wds + 3 <= Pow(2, KMAX)
    modifies pool.freelist, pool.freeSet, pool`free, pool`freeSet, b0, S0, mhi0
    ensures lowered <==> old(Scaled(b0.Value(), b2, false)) < old(Scaled(S0.Value(), s2, false))
    ensures ShortestResult(old(Wanted(b0.Value(), S0.Value(), mhi0.Value(), b2, s2, m2, spec, even, lowered)),
      old(SingleDigit(S0, s2)), mode, if lowered then ilim1 else ilim0, e, N)
    ensures pool.FreeOk() && (old(ChainBeside(pool, {b0, S0, mhi0})) ==> Pow5.ChainOk(pool))
  {
    e, lowered, N := ShortestDecimal(pool, b0, S0, mhi0, fives, b2, s2, m2, spec, even, kCheck, mode, ilim0, ilim1);
    if old(ChainBeside(pool, {b0, S0, mhi0})) { Pow5.ChainKept(pool); }
  }
}

/**
 * __dtoa from the mantissa and the exponents on, in integers: the powers of two and five the
 * number is scaled by, the margins, and what the digits then say about the double.
 */
module Dtoa {
  import opened Basics
  import opened Words
  import opened Bigints
  import opened DigitTheory
  import opened Doubles
  import opened FixedModes
  import opened Intervals
  import opened Mantissas
  import Conversion
  import Multiply
  import Pow5
  import Scaling
  import SmallestNormal

  // A positive number of the caller's, of a size class up to cap.
  ghost predicate Mine(pool: Pool, x: Bigint, cap: nat)
    reads pool, x
  {
    x !in pool.freeSet && x !in pool.chain && x.Normal() && x.Value() > 0 && 1 <= x.k <= cap
  }

  ghost predicate InOrder(pool: Pool)
    reads pool, pool.freelist, pool.freeSet, pool.chain
  {
    pool.FreeOk() && Pow5.ChainOk(pool)
  }

  // The free lists and the cache have taken in none but the numbers given and new ones.
  twostate predicate Grown(pool: Pool, given: set<Bigint>)
    reads pool
  {
    && (forall m :: m in pool.freeSet ==> m in old(pool.freeSet) || m in given || fresh(m))
    && (forall m :: m in pool.chain ==> m in old(pool.freeSet) || m in old(pool.chain) || m in given || fresh(m))
  }

  lemma {:induction false} BitsBelow(x: nat, n: nat)
    requires x < Pow(2, n)
    ensures Bits(x) <= n
    decreases n
  {
    if x > 0 {
      assert n > 0 by { assert Pow(2, 0) == 1; }
      BitsBelow(x / 2, n - 1);
    }
  }

  function Abs(e: int): nat {
    if e < 0 then -e else e
  }

  lemma FivesFit(s: Pow5.Size, e: nat)
    requires 0 < s.k <= 2 && e <= 358
    ensures Pow5.Fits(s, e) && 0 < Pow5.AfterAll(s, e).k <= s.k + 8
  {
    Scaling.SmallPowers();
    BitsBelow(e / 4, 7);
    Pow5.FitsSimply(s, e);
  }

  // pow5mult, for the exponents a double leads to.
  method Fives(pool: Pool, n0: Bigint, e: nat) returns (n: Bigint)
    requires InOrder(pool) && Mine(pool, n0, 2) && e <= 358
    modifies pool, pool.freelist, pool.freeSet, pool.chain, n0
    ensures InOrder(pool) && Mine(pool, n, 10) && n.Value() == Pow(5, e) * old(n0.Value())
    ensures n == n0 || fresh(n) || n in old(pool.freeSet)
    ensures e == 0 ==> unchanged(n0) && n == n0
    ensures n0.k == 1 ==> n.k <= 9
    ensures Grown(pool, {n0})
  {
    n := n0;
    if e > 0 {
      FivesFit(Pow5.SizeOf(n0), e);
      PowPositive(5, e);
      MulLe(1, Pow(5, e), n0.Value());
      n := Pow5.Pow5Mult(pool, n0, e);
    } else {
      assert Pow(5, 0) == 1;
    }
  }

  // i2b(1)
  method One(pool: Pool) returns (n: Bigint)
    requires InOrder(pool)
    modifies pool.freelist, pool.freeSet, pool`free, pool`freeSet
    ensures InOrder(pool) && Mine(pool, n, 1) && n.Value() == 1 && n.wds == 1 && n.x[0] == 1
    ensures (fresh(n) || n in old(pool.freeSet)) && Grown(pool, {})
    ensures pool.chain == old(pool.chain)
  {
    n := Pow5.I2b(pool, 1);
    Pow5.ChainKept(pool);
  }

  // b1 = mult(mhi, b); Bfree(b);
  method TimesMargin(pool: Pool, b0: Bigint, mhi: Bigint) returns (b: Bigint)
    requires InOrder(pool) && Mine(pool, b0, 2) && Mine(pool, mhi, 9) && b0 != mhi
    modifies pool.freelist, pool.freeSet, pool`free, pool`freeSet, b0
    ensures InOrder(pool) && Mine(pool, b, 10) && Mine(pool, mhi, 9) && b != mhi
    ensures b.Value() == mhi.Value() * old(b0.Value()) && unchanged(mhi)
    ensures fresh(b) || b in old(pool.freeSet)
    ensures Grown(pool, {b0})
  {
    b := Multiply.Mult(pool, mhi, b0);
    MulLe(1, mhi.Value(), b0.Value());
    Pow5.ChainKept(pool);
    pool.Bfree(b0);
    Pow5.ChainKept(pool);
  }

  // The powers of five of the number and of the margin, which are the same.
  method NumberAndMargin(pool: Pool, b0: Bigint, mhi0: Bigint, b5: nat) returns (b: Bigint, mhi: Bigint)
    requires InOrder(pool) && Mine(pool, b0, 2) && Mine(pool, mhi0, 1) && b0 != mhi0 && b5 <= 358
    requires mhi0.Value() == 1
    modifies pool, pool.freelist, pool.freeSet, pool.chain, b0, mhi0
    ensures InOrder(pool) && Mine(pool, b, 10) && Mine(pool, mhi, 9) && b != mhi
    ensures b.Value() == Pow(5, b5) * old(b0.Value()) && mhi.Value() == Pow(5, b5)
    ensures b == b0 || b == mhi0 || fresh(b) || b in old(pool.freeSet)
    ensures mhi == mhi0 || fresh(mhi) || mhi in old(pool.freeSet)
    ensures Grown(pool, {b0, mhi0})
  {
    ghost var v, f := b0.Value(), Pow(5, b5);
    b, mhi := b0, mhi0;
    if b5 > 0 {
      mhi := Fives(pool, mhi, b5);
      assert mhi.Value() == f;
      b := TimesMargin(pool, b, mhi);
    } else {
      assert f == 1;
    }
  }

  // S = i2b(1), times the power of five.
  method Denominator(pool: Pool, s5: nat) returns (S: Bigint)
    requires InOrder(pool) && s5 <= 358
    modifies pool, pool.freelist, pool.freeSet, pool.chain
    ensures InOrder(pool) && Mine(pool, S, 9) && S.Value() == Pow(5, s5)
    ensures s5 == 0 ==> S.wds == 1 && S.x[0] == 1
    ensures fresh(S) || S in old(pool.freeSet)
    ensures Grown(pool, {})
  {
    S := One(pool);
    S := Fives(pool, S, s5);
  }

  // The number F * 2^q as d2b hands it over: an odd B with its exponent and bit length, t zero
  // bits having been shifted out.
  ghost predicate Represents(F: nat, q: int, B: nat, t: nat, be: int, bbits: nat, denorm: bool) {
    && Form(F, q) && F > 0 && q <= MAX_EXP && B * Pow(2, t) == F && t <= 52 && be == q + t
    && (if denorm then q == MIN_EXP else bbits == 53 - t)
  }

  // i is the exponent of the number's first bit.
  method Exponents(be: int, bbits: nat, i: int, k: int) returns (b2: nat, s2: nat, b5: nat, s5: nat)
    requires i == bbits + be - 1
    ensures b2 - s2 == be - k && b5 - s5 == -k && (b5 == 0 || s5 == 0)
    ensures b2 <= Abs(be) + Abs(k) && s2 <= Abs(be) + Abs(k) && b5 <= Abs(k) && s5 <= Abs(k)
  {
    var j := bbits - i - 1;
    if j >= 0 {
      b2, s2 := 0, j;
    } else {
      b2, s2 := -j, 0;
    }
    if k >= 0 {
      b5, s5, s2 := 0, k, s2 + k;
    } else {
      b2, b5, s5 := b2 - k, -k, 0;
    }
  }

  // A power of two that number, margin and divisor share is dropped.
  method DropTwos(b20: nat, s20: nat, m20: nat) returns (b2: nat, s2: nat, m2: nat)
    requires m20 <= b20
    ensures b2 - m2 == b20 - m20 && m2 - s2 == m20 - s20 && b2 <= b20 && s2 <= s20
  {
    b2, s2, m2 := b20, s20, m20;
    if m2 > 0 && s2 > 0 {
      var i := if m2 < s2 then m2 else s2;
      b2, m2, s2 := b2 - i, m2 - i, s2 - i;
    }
  }

  // All the exponents of the shortest modes.
  method MarginPowers(be: int, bbits: nat, i: int, denorm: bool, spec: bool, k: int,
                      ghost F: nat, ghost q: int, ghost B: nat, ghost t: nat)
    returns (w: Powers)
    requires Represents(F, q, B, t, be, bbits, denorm) && i == bbits + be - 1 && -358 <= k <= 358
    ensures SetUp(F, q, B, t, k, w) && w.spec == spec
    ensures w.b2 <= 2000 && w.s2 <= 2000 && w.m2 <= 2000 && w.b5 <= 358 && w.s5 <= 358
  {
    var b2, s2, b5, s5 := Exponents(be, bbits, i, k);
    var m2 := b2;
    var extra := if denorm then be + (BIAS + (PRECISION - 1) - 1 + 1) else 1 + PRECISION - bbits;
    b2, s2 := b2 + extra, s2 + extra;
    b2, s2, m2 := DropTwos(b2, s2, m2);
    if spec { b2, s2 := b2 + 1, s2 + 1; }
    w := Powers(b2, s2, b5, s5, m2, spec);
  }

  lemma FewDigits(x: Bigint, cap: nat)
    requires x.Ok() && x.k <= cap
    ensures x.wds <= Pow(2, cap)
  {
    PowMonotone(2, x.k, cap);
  }

  lemma SmallClasses()
    ensures Pow(2, 9) == 512 && Pow(2, 10) == 1024 && Pow(2, KMAX) == 32768
  {
    Scaling.SmallPowers();
    PowAdd(2, 8, 1);
    PowAdd(2, 8, 2);
    PowAdd(2, 12, 3);
    assert Pow(2, 3) == 8;
  }

  // For a double everything fits the largest size class with much to spare.
  lemma Roomy(b: Bigint, S: Bigint, b2: nat, s2: nat)
    requires b.Normal() && b.k <= 10 && S.Normal() && S.k <= 9 && b2 <= 2000 && s2 <= 2000
    ensures Conversion.Scalable(b, S, b2, s2)
  {
    SmallClasses();
    Scaling.SmallPowers();
    FewDigits(b, 10);
    FewDigits(S, 9);
    BitsBelow(S.x[S.wds - 1], 16);
  }

  // The integers are ready.
  ghost predicate IntegersFor(pool: Pool, b: Bigint, S: Bigint, mhi: Bigint, B: nat, w: Powers)
    reads pool, pool.freelist, pool.freeSet, pool.chain, b, S, mhi
  {
    && InOrder(pool) && Mine(pool, b, 10) && Mine(pool, S, 9) && Mine(pool, mhi, 9)
    && b != S && b != mhi && S != mhi
    && b.Value() == Pow(5, w.b5) * B && S.Value() == Pow(5, w.s5) && mhi.Value() == Pow(5, w.b5)
    && (w.s5 == 0 ==> S.wds == 1 && S.x[0] == 1)
    && w.b2 <= 2000 && w.s2 <= 2000 && w.m2 <= 2000
  }

  // mhi = i2b(1), and both powers of five.
  method WithMargin(pool: Pool, b0: Bigint, b5: nat) returns (b: Bigint, mhi: Bigint)
    requires InOrder(pool) && Mine(pool, b0, 2) && b5 <= 358
    modifies pool, pool.freelist, pool.freeSet, pool.chain, b0
    ensures InOrder(pool) && Mine(pool, b, 10) && Mine(pool, mhi, 9) && b != mhi && Grown(pool, {b0})
    ensures b.Value() == Pow(5, b5) * old(b0.Value()) && mhi.Value() == Pow(5, b5)
    ensures b == b0 || fresh(b) || b in old(pool.freeSet)
    ensures mhi == b0 || fresh(mhi) || mhi in old(pool.freeSet)
  {
    mhi := One(pool);
    b, mhi := NumberAndMargin(pool, b0, mhi, b5);
  }

  // The integers the digits are made from: number, margin and divisor without their powers of
  // two.
  method Integers(pool: Pool, b0: Bigint, w: Powers) returns (b: Bigint, S: Bigint, mhi: Bigint)
    requires InOrder(pool) && Mine(pool, b0, 2)
    requires w.b2 <= 2000 && w.s2 <= 2000 && w.m2 <= 2000 && w.b5 <= 358 && w.s5 <= 358
    modifies pool, pool.freelist, pool.freeSet, pool.chain, b0
    ensures IntegersFor(pool, b, S, mhi, old(b0.Value()), w) && Grown(pool, {b0})
    ensures b == b0 || fresh(b) || b in old(pool.freeSet)
    ensures S == b0 || fresh(S) || S in old(pool.freeSet)
    ensures mhi == b0 || fresh(mhi) || mhi in old(pool.freeSet)
  {
    b, mhi := WithMargin(pool, b0, w.b5);
    S := Denominator(pool, w.s5);
  }

  // The rest of the shortest modes.
  method ShortestRest(pool: Pool, b: Bigint, S: Bigint, mhi: Bigint, w: Powers, even: bool, k: int, kCheck: bool,
                      mode: int, ghost F: nat, ghost q: int, ghost B: nat, ghost t: nat)
    returns (s: seq<nat>, decpt: int)
    requires IntegersFor(pool, b, S, mhi, B, w) && mode <= 1
    requires SetUp(F, q, B, t, k, w) && F > 0 && (even ==> F % 2 == 0) && Estimate(Value(F, q), k, kCheck)
    modifies pool.freelist, pool.freeSet, pool`free, pool`freeSet, b, S, mhi
    ensures InOrder(pool) && ShortestAnswer(s, decpt, F, q, w.spec, even)
  {
    Roomy(b, S, w.b2, w.s2);
    SmallClasses();
    FewDigits(mhi, 9);
    EstimatedNumbers(F, q, B, t, k, kCheck, w);
    ghost var single := Conversion.SingleDigit(S, w.s2);
    var e, lowered;
    ghost var N;
    e, lowered, N := Conversion.ShortestConversion(pool, b, S, mhi, w.s5 != 0, w.b2, w.s2, w.m2, w.spec, even, kCheck,
                                                   mode, -1, -1);
    s, decpt := e.out, k + e.carry + 1 - if lowered then 1 else 0;
    AnswerIsBest(F, q, B, t, k, w, even, kCheck, lowered, single, e.out, e.carry);
  }

  // Modes 0 and 1: no digit limit, even ends of the interval taken in mode 0 only.
  method ShortestModes(pool: Pool, b0: Bigint, be: int, bbits: nat, i: int, denorm: bool, power: bool, odd: bool,
                       k: int, kCheck: bool, mode: int, ghost F: nat, ghost q: int, ghost t: nat)
    returns (s: seq<nat>, decpt: int)
    requires InOrder(pool) && Mine(pool, b0, 2) && 0 <= mode <= 1
    requires Represents(F, q, b0.Value(), t, be, bbits, denorm) && i == bbits + be - 1
    requires (odd <==> F % 2 == 1) && Estimate(Value(F, q), k, kCheck)
    modifies pool, pool.freelist, pool.freeSet, pool.chain, b0
    ensures InOrder(pool) && ShortestAnswer(s, decpt, F, q, power, mode == 0 && !odd)
  {
    EstimateRange(F, q, k, kCheck);
    ghost var B := b0.Value();
    var w := MarginPowers(be, bbits, i, denorm, power, k, F, q, B, t);
    var b, S, mhi := Integers(pool, b0, w);
    s, decpt := ShortestRest(pool, b, S, mhi, w, mode == 0 && !odd, k, kCheck, mode, F, q, B, t);
  }

  // The exponents of the fixed-length modes, which have no margins.
  method PlainPowers(be: int, bbits: nat, i: int, k: int, ghost F: nat, ghost q: int, ghost B: nat, ghost t: nat)
    returns (w: Powers)
    requires B * Pow(2, t) == F && be == q + t && i == bbits + be - 1
    ensures SetUpFixed(F, q, B, t, k, w)
    ensures w.b2 <= Abs(be) + Abs(k) && w.s2 <= Abs(be) + Abs(k) && w.b5 <= Abs(k) && w.s5 <= Abs(k)
  {
    var b2, s2, b5, s5 := Exponents(be, bbits, i, k);
    var m2 := b2;
    b2, s2, m2 := DropTwos(b2, s2, m2);
    w := Powers(b2, s2, b5, s5, m2, false);
  }

  // How many digits to produce, and how many when k turns out too large: significant ones in
  // mode 2, and in mode 3 all up to the given place behind the point.
  method Limits(mode: int, ndigits: int, k: int) returns (ilim: int, ilim1: int)
    requires 2 <= mode <= 3
    ensures mode == 2 ==> ilim == ilim1 == (if ndigits <= 0 then 1 else ndigits)
    ensures mode == 3 ==> ilim == ndigits + k + 1 && ilim1 == ndigits + k
  {
    if mode == 2 {
      var n := if ndigits <= 0 then 1 else ndigits;
      ilim, ilim1 := n, n;
    } else {
      var i := ndigits + k + 1;
      ilim, ilim1 := i, i - 1;
    }
  }

  // No empty string is returned.
  method NoEmpty(out: seq<nat>, k: int) returns (s: seq<nat>, decpt: int)
    ensures Shown(s, decpt) == Shown(out, k + 1)
    ensures if out == [] then s == [0] && decpt == 1 else s == out && decpt == k + 1
  {
    s, decpt := out, k + 1;
    if s == [] {
      s, decpt := [0], 1;
      assert ValDec([]) == 0;
      Snoc([], 0);
    }
  }

  // Number and divisor without their powers of two.
  method PlainIntegers(pool: Pool, b0: Bigint, w: Powers) returns (b: Bigint, S: Bigint)
    requires InOrder(pool) && Mine(pool, b0, 2) && w.b5 <= 358 && w.s5 <= 358
    modifies pool, pool.freelist, pool.freeSet, pool.chain, b0
    ensures InOrder(pool) && Mine(pool, b, 10) && Mine(pool, S, 9) && b != S
    ensures b.Value() == Pow(5, w.b5) * old(b0.Value()) && S.Value() == Pow(5, w.s5)
    ensures w.s5 == 0 ==> S.wds == 1 && S.x[0] == 1
    ensures Grown(pool, {b0})
    ensures b == b0 || fresh(b) || b in old(pool.freeSet)
    ensures S == b0 || fresh(S) || S in old(pool.freeSet)
  {
    b := Fives(pool, b0, w.b5);
    S := Denominator(pool, w.s5);
  }

  // The place to which the modes round: the last of the significant digits, or a fixed one.
  function LastPlace(mode: int, ndigits: int, K: int): int {
    if mode == 2 then K + 1 - (if ndigits <= 0 then 1 else ndigits) else -ndigits
  }

  // What has come out, with its exponent.
  method Conclude(out: seq<nat>, carry: nat, lowered: bool, k: int, ghost mode: int, ghost ndigits: int, ghost lim: int,
                ghost w: Powers, ghost kCheck: bool, ghost F: nat, ghost q: int, ghost B: nat, ghost t: nat,
                ghost N: nat)
    returns (s: seq<nat>, decpt: int, ghost K: int, ghost M: nat)
    requires SetUpFixed(F, q, B, t, k, w) && Estimate(Value(F, q), k, kCheck)
    requires lowered <==> Numerator(B, w) < Divisor(w)
    requires Conversion.FixedResult(out, carry, Numerator(B, w) * (if lowered then 10 else 1), Divisor(w), mode, lim, N)
    requires k - (if lowered then 1 else 0) + 1 - lim == LastPlace(mode, ndigits, k - if lowered then 1 else 0)
    ensures FirstDigitAt(Value(F, q), K) && FixedAnswer(s, decpt, M, LastPlace(mode, ndigits, K), Value(F, q))
    ensures (s == [0] && decpt == 1) || (s != [] && Tidy(s))
  {
    K := k - if lowered then 1 else 0;
    M := DoubleIsRounded(F, q, B, t, k, w, kCheck, lowered, mode, lim, out, carry, N);
    s, decpt := NoEmpty(out, (if lowered then k - 1 else k) + carry);
  }

  // The rest of the fixed-length modes.
  method FixedRest(pool: Pool, b: Bigint, S: Bigint, w: Powers, k: int, kCheck: bool, mode: int, ndigits: int,
                   ghost F: nat, ghost q: int, ghost B: nat, ghost t: nat)
    returns (s: seq<nat>, decpt: int, ghost K: int, ghost M: nat)
    requires InOrder(pool) && Mine(pool, b, 10) && Mine(pool, S, 9) && b != S && 2 <= mode <= 3
    requires b.Value() == Pow(5, w.b5) * B && S.Value() == Pow(5, w.s5) && (w.s5 == 0 ==> S.wds == 1 && S.x[0] == 1)
    requires w.b2 <= 2000 && w.s2 <= 2000
    requires SetUpFixed(F, q, B, t, k, w) && Estimate(Value(F, q), k, kCheck)
    modifies pool.freelist, pool.freeSet, pool`free, pool`freeSet, b, S
    ensures InOrder(pool) && FirstDigitAt(Value(F, q), K)
    ensures FixedAnswer(s, decpt, M, LastPlace(mode, ndigits, K), Value(F, q))
    ensures (s == [0] && decpt == 1) || (s != [] && Tidy(s))
  {
    Roomy(b, S, w.b2, w.s2);
    EstimatedFixed(F, q, B, t, k, kCheck, w);
    var ilim, ilim1 := Limits(mode, ndigits, k);
    var out, carry, lowered;
    ghost var N;
    out, carry, lowered, N := Conversion.FixedConversion(pool, b, S, w.s5 != 0, w.b2, w.s2, kCheck, mode, ilim, ilim1);
    s, decpt, K, M := Conclude(out, carry, lowered, k, mode, ndigits, if lowered then ilim1 else ilim, w, kCheck,
                               F, q, B, t, N);
  }

  // Modes 2 and 3, and 6 and 7 which are the same without the attempt in floating point.
  method FixedLengthModes(pool: Pool, b0: Bigint, be: int, bbits: nat, i: int, denorm: bool, k: int, kCheck: bool,
                          mode: int, ndigits: int, ghost F: nat, ghost q: int, ghost t: nat)
    returns (s: seq<nat>, decpt: int, ghost K: int, ghost M: nat)
    requires InOrder(pool) && Mine(pool, b0, 2) && 2 <= mode <= 3
    requires Represents(F, q, b0.Value(), t, be, bbits, denorm) && i == bbits + be - 1
    requires Estimate(Value(F, q), k, kCheck)
    modifies pool, pool.freelist, pool.freeSet, pool.chain, b0
    ensures InOrder(pool) && FirstDigitAt(Value(F, q), K)
    ensures FixedAnswer(s, decpt, M, LastPlace(mode, ndigits, K), Value(F, q))
    ensures (s == [0] && decpt == 1) || (s != [] && Tidy(s))
  {
    EstimateRange(F, q, k, kCheck);
    ghost var B := b0.Value();
    var w := PlainPowers(be, bbits, i, k, F, q, B, t);
    var b, S := PlainIntegers(pool, b0, w);
    s, decpt, K, M := FixedRest(pool, b, S, w, k, kCheck, mode, ndigits, F, q, B, t);
  }

  // A finite double, not zero, by its two words; the sign has been taken off.
  ghost predicate FiniteWords(word0: nat, word1: nat) {
    StoredExponent(word0) < 0x7FF && word1 < WORD32 && Mantissa(word0, word1) > 0
  }

  ghost function Read(word0: nat, word1: nat): real {
    Value(Mantissa(word0, word1), LastBit(word0))
  }

  // The exponent of the first bit.
  method FirstBit(word0: nat, be: int, bbits: nat) returns (i: int, denorm: bool)
    requires StoredExponent(word0) > 0 ==> be - LastBit(word0) + bbits == PRECISION
    ensures i == bbits + be - 1 && (denorm <==> StoredExponent(word0) == 0)
  {
    i := StoredExponent(word0);
    denorm := i == 0;
    if i != 0 {
      i := i - BIAS;
    } else {
      i := bbits + be + (BIAS + (PRECISION - 1) - 1);
      i := i - (BIAS + (PRECISION - 1) - 1) - 1;
    }
  }

  // d2b and the exponent.
  method Take(pool: Pool, word0: nat, word1: nat)
    returns (b: Bigint, be: int, bbits: nat, i: int, denorm: bool, ghost t: nat)
    requires InOrder(pool) && FiniteWords(word0, word1)
    modifies pool.freelist, pool.freeSet, pool`free, pool`freeSet
    ensures InOrder(pool) && Mine(pool, b, 2) && (fresh(b) || b in old(pool.freeSet))
    ensures pool.freeSet <= old(pool.freeSet) && pool.chain == old(pool.chain)
    ensures Represents(Mantissa(word0, word1), LastBit(word0), b.Value(), t, be, bbits, denorm)
    ensures i == bbits + be - 1 && (denorm <==> StoredExponent(word0) == 0)
  {
    b, be, bbits, t := D2b(pool, word0, word1);
    Pow5.ChainKept(pool);
    WordsForm(word0, word1);
    i, denorm := FirstBit(word0, be, bbits);
  }

  // In mode 0 the string is the shortest that reads back as the double, and the closest to it of
  // those; in mode 1 it is the shortest and closest strictly inside the interval.
  ghost predicate RightShortest(s: seq<nat>, decpt: int, mode: int, F: nat, q: int) {
    && s != [] && Tidy(s) && Reads(Shown(s, decpt), F, q)
    && (mode == 0 ==> ShortestReading(Shown(s, decpt), |s| - 1, F, q))
    && (mode == 1 ==> ShortestAnswer(s, decpt, F, q, F == HIDDEN, false))
  }

  lemma AnswerIsRight(s: seq<nat>, decpt: int, mode: int, F: nat, q: int)
    requires Form(F, q) && F > 0 && 0 <= mode <= 1
    requires ShortestAnswer(s, decpt, F, q, F == HIDDEN, mode == 0 && F % 2 == 0)
    ensures RightShortest(s, decpt, mode, F, q)
  {
    AnswerReadsBack(s, decpt, F, q, mode == 0 && F % 2 == 0);
    if mode == 0 {
      if F == HIDDEN && q == MIN_EXP { SmallestNormal.SmallestReads(s, decpt); } else { AnswerReads(s, decpt, F, q); }
    }
  }

  // Modes 0 and 1 from the double on.
  method Shortest(pool: Pool, word0: nat, word1: nat, k: int, kCheck: bool, mode: int)
    returns (s: seq<nat>, decpt: int)
    requires InOrder(pool) && FiniteWords(word0, word1) && 0 <= mode <= 1
    requires Estimate(Read(word0, word1), k, kCheck)
    modifies pool, pool.freelist, pool.freeSet, pool.chain
    ensures InOrder(pool) && RightShortest(s, decpt, mode, Mantissa(word0, word1), LastBit(word0))
  {
    ghost var F, q := Mantissa(word0, word1), LastBit(word0);
    ghost var t;
    var b, be, bbits, i, denorm;
    b, be, bbits, i, denorm, t := Take(pool, word0, word1);
    WordsForm(word0, word1);
    var power := word1 == 0 && word0 % 0x10_0000 == 0 && StoredExponent(word0) != 0;
    s, decpt := ShortestModes(pool, b, be, bbits, i, denorm, power, word1 % 2 == 1, k, kCheck, mode, F, q, t);
    AnswerIsRight(s, decpt, mode, F, q);
  }

  // Modes 2 and 3 from the double on: rounded to max(1, ndigits) significant digits, or to
  // ndigits places behind the point, ties to even.
  method FixedLength(pool: Pool, word0: nat, word1: nat, k: int, kCheck: bool, mode: int, ndigits: int)
    returns (s: seq<nat>, decpt: int, ghost K: int, ghost M: nat)
    requires InOrder(pool) && FiniteWords(word0, word1) && 2 <= mode <= 3
    requires Estimate(Read(word0, word1), k, kCheck)
    modifies pool, pool.freelist, pool.freeSet, pool.chain
    ensures InOrder(pool) && FirstDigitAt(Read(word0, word1), K)
    ensures mode == 2 ==> FixedAnswer(s, decpt, M, K + 1 - (if ndigits <= 0 then 1 else ndigits), Read(word0, word1))
    ensures mode == 3 ==> FixedAnswer(s, decpt, M, -ndigits, Read(word0, word1))
    ensures (s == [0] && decpt == 1) || (s != [] && Tidy(s))
  {
    ghost var F, q := Mantissa(word0, word1), LastBit(word0);
    ghost var t;
    var b, be, bbits, i, denorm;
    b, be, bbits, i, denorm, t := Take(pool, word0, word1);
    s, decpt, K, M := FixedLengthModes(pool, b, be, bbits, i, denorm, k, kCheck, mode, ndigits, F, q, t);
  }
}

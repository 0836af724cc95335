/** The common shift of __dtoa that leaves the divisor with twelve bits in its top digit. */
module Scaling {
  import opened Basics
  import opened Words
  import opened Bigints
  import opened DigitGen
  import Compare
  import Quorem
  import ShiftLeft

  // x occupies exactly h bits.
  ghost predicate BitLength(x: nat, h: nat) {
    h > 0 && Pow(2, h - 1) <= x < Pow(2, h)
  }

  ghost predicate Shifted(x0: nat, x: nat, k: nat) {
    x == x0 * Pow(2, k)
  }

  lemma ShiftMore(x0: nat, x: nat, k: nat, n: nat)
    requires Shifted(x0, x, k)
    ensures Shifted(x0, x * Pow(2, n), k + n)
  {
    PowAdd(2, k, n);
    Regroup(x0, Pow(2, k), Pow(2, n));
  }

  lemma SmallPowers()
    ensures Pow(2, 0) == 1 && Pow(2, 1) == 2 && Pow(2, 2) == 4 && Pow(2, 4) == 16 && Pow(2, 8) == 256
    ensures Pow(2, 16) == 0x1_0000 && Pow(2, 12) == 4096 && Pow(2, 11) == 2048
    ensures Pow(2, 32) == WORD32 && Pow(2, 31) == 0x8000_0000
  {
    assert Pow(2, 3) == 8 && Pow(2, 4) == 16 && Pow(2, 7) == 128;
    PowAdd(2, 8, 8);
    PowAdd(2, 16, 16);
    PowAdd(2, 8, 4);
    PowAdd(2, 8, 3);
    PowAdd(2, 16, 8);
    PowAdd(2, 24, 7);
  }

  lemma Leading(x0: nat, x: nat, k: nat)
    requires Shifted(x0, x, k) && k <= 31 && 0x8000_0000 <= x < WORD32
    ensures BitLength(x0, 32 - k)
  {
    SmallPowers();
    PowAdd(2, 31 - k, k);
    PowAdd(2, 32 - k, k);
    PowPositive(2, k);
    Order(Pow(2, 31 - k), x0, Pow(2, k));
    Order(x0, Pow(2, 32 - k), Pow(2, k));
  }

  // The number of leading zeros of a 32-bit word, by halving.
  method Hi0Bits(x0: nat) returns (k: nat)
    requires x0 < WORD32
    ensures x0 == 0 ==> k == 32
    ensures x0 > 0 ==> k < 32 && BitLength(x0, 32 - k)
  {
    SmallPowers();
    var x := x0;
    k := 0;
    if x < 0x1_0000 { ShiftMore(x0, x, k, 16); k := 16; x := x * 0x1_0000; }
    if x < 0x100_0000 { ShiftMore(x0, x, k, 8); k := k + 8; x := x * 0x100; }
    if x < 0x1000_0000 { ShiftMore(x0, x, k, 4); k := k + 4; x := x * 0x10; }
    if x < 0x4000_0000 { ShiftMore(x0, x, k, 2); k := k + 2; x := x * 4; }
    if x < 0x8000_0000 {
      ShiftMore(x0, x, k, 1);
      k := k + 1;
      if x < 0x4000_0000 { return 32; }
      Leading(x0, x * 2, k);
    } else {
      Leading(x0, x, k);
    }
  }

  // The amount by which b2, m2 and s2 are all raised, h being the bit length of the divisor's
  // top digit: what is missing to a multiple of sixteen, less four, modulo 32.
  function Common(h: nat, s2: nat): (inc: nat)
    ensures (h + s2 + inc) % 16 == 12 && inc < 32
  {
    (-(h + s2) % 16 - 4) % 32
  }

  method Alignment(h: nat, s2: nat) returns (inc: nat)
    ensures inc == Common(h, s2)
  {
    var i := (h + s2) % 16;
    if i != 0 { i := 16 - i; }
    if i > 4 {
      i := i - 4;
    } else if i < 4 {
      i := i + 28;
    } else {
      i := 0;
    }
    inc := i;
  }

  // The bit length of a number is fixed by its top digit.
  lemma LengthFromTop(x: seq<nat>, n: nat, h: nat)
    requires 0 < n <= |x| && Digits(x, n) && BitLength(x[n - 1], h)
    ensures BitLength(Val(x, n), 16 * (n - 1) + h)
  {
    var p := Pow(BASE, n - 1);
    Quorem.TopDigitBounds(x, n);
    ShiftLeft.PowOfBase(n - 1);
    PowAdd(2, h - 1, 16 * (n - 1));
    PowAdd(2, h, 16 * (n - 1));
    MulLe(Pow(2, h - 1), x[n - 1], p);
    MulLe(x[n - 1] + 1, Pow(2, h), p);
    Distribute(x[n - 1], 1, p);
  }

  lemma LengthAfterShift(v: nat, len: nat, s: nat)
    requires BitLength(v, len)
    ensures BitLength(v * Pow(2, s), len + s)
  {
    PowAdd(2, len - 1, s);
    PowAdd(2, len, s);
    PowPositive(2, s);
    MulLe(Pow(2, len - 1), v, Pow(2, s));
    MulLe(v + 1, Pow(2, len), Pow(2, s));
    Distribute(v, 1, Pow(2, s));
  }

  // A value between 2048 * BASE^t and 4096 * BASE^t takes t + 1 digits.
  lemma TopIndex(x: seq<nat>, n: nat, t: nat)
    requires 0 < n <= |x| && Digits(x, n) && (n > 1 ==> x[n - 1] > 0)
    requires 2048 * Pow(BASE, t) <= Val(x, n) < 4096 * Pow(BASE, t)
    ensures n == t + 1
  {
    ValBound(x, n);
    PowPositive(BASE, t);
    if n <= t { PowMonotone(BASE, n, t); }
    if n > t + 1 {
      ValLowerBound(x, n);
      PowMonotone(BASE, t + 1, n - 1);
    }
  }

  // A number whose bit length is 12 modulo 16 has exactly twelve bits in its top digit.
  lemma TwelveBits(x: seq<nat>, n: nat, len: nat)
    requires 0 < n <= |x| && Digits(x, n) && (n > 1 ==> x[n - 1] > 0)
    requires BitLength(Val(x, n), len) && len % 16 == 12
    ensures 2048 <= x[n - 1] < 4096
    ensures n == len / 16 + 1
  {
    var t := len / 16;
    var p := Pow(BASE, t);
    assert len == 16 * t + 12;
    SmallPowers();
    ShiftLeft.PowOfBase(t);
    PowAdd(2, 12, 16 * t);
    PowAdd(2, 11, 16 * t);
    PowPositive(BASE, t);
    TopIndex(x, n, t);
    Quorem.TopDigitBounds(x, n);
    Order(x[n - 1], 4096, p);
    Distribute(x[n - 1], 1, p);
    Order(2047, x[n - 1], p);
  }

  lemma {:induction false} BitsFromLength(x: nat, h: nat)
    requires BitLength(x, h)
    ensures Bits(x) == h
    decreases h
  {
    PowPositive(2, h - 1);
    if h == 1 {
      assert Pow(2, 0) == 1 && Pow(2, 1) == 2 && x / 2 == 0;
    } else {
      BitsFromLength(x / 2, h - 1);
    }
  }

  lemma TopPositive(x: seq<nat>, n: nat)
    requires 0 < n <= |x| && Val(x, n) > 0 && (n > 1 ==> x[n - 1] > 0)
    ensures x[n - 1] > 0
  {
    if n == 1 { assert Val(x, 0) == 0; }
  }

  method TopBits(S: Bigint, fives: bool) returns (h: nat)
    requires S.Normal() && S.Value() > 0 && (!fives ==> S.wds == 1 && S.x[0] == 1)
    ensures h == Bits(S.x[S.wds - 1]) && BitLength(S.Value(), 16 * (S.wds - 1) + h)
  {
    TopPositive(S.x, S.wds);
    SmallPowers();
    h := 1;
    if fives {
      var lead := Hi0Bits(S.x[S.wds - 1]);
      h := 32 - lead;
    }
    LengthFromTop(S.x, S.wds, h);
    BitsFromLength(S.x[S.wds - 1], h);
  }

  // A shift by s stays within the size classes.
  ghost predicate ShiftFits(b: Bigint, s: nat)
    reads b
  {
    s > 0 ==> s / 16 + b.wds + 1 <= Pow(2, KMAX)
  }

  // lshift, unless the shift is by nothing.
  method ShiftBy(pool: Pool, S0: Bigint, s: nat) returns (S: Bigint)
    requires pool.FreeOk() && S0 !in pool.freeSet && S0.Normal() && S0.Value() > 0 && S0.k <= KMAX
    requires ShiftFits(S0, s)
    modifies pool.freelist, pool.freeSet, pool`free, pool`freeSet, S0
    ensures pool.FreeOk() && S !in pool.freeSet && S.Normal() && S0.k <= S.k <= KMAX
    ensures S == S0 || fresh(S) || S in old(pool.freeSet)
    ensures pool.freeSet <= old(pool.freeSet) + {S0}
    ensures S.wds <= s / 16 + old(S0.wds) + 1
    ensures S.Value() == old(S0.Value()) * Pow(2, s)
  {
    S := S0;
    if s > 0 {
      ClassBound(S0.k, s / 16 + S0.wds + 1, KMAX);
      S := ShiftLeft.LShift(pool, S0, s);
    } else {
      assert Pow(2, 0) == 1;
    }
  }

  lemma ScaledTop(S: Bigint, v: nat, len: nat, s: nat)
    requires S.Normal() && S.Value() == v * Pow(2, s) && BitLength(v, len) && (len + s) % 16 == 12
    ensures 2048 <= S.x[S.wds - 1] < 4096 && S.wds == (len + s) / 16 + 1
  {
    LengthAfterShift(v, len, s);
    TwelveBits(S.x, S.wds, len + s);
  }

  // The estimate of the decimal exponent may be one too large; then b is below S and is
  // multiplied by ten once.
  method FixEstimate(pool: Pool, b0: Bigint, S: Bigint) returns (b: Bigint, lowered: bool)
    requires pool.FreeOk() && Live(pool, b0, S) && b0.wds > 0
    requires S.Value() <= 10 * b0.Value() && b0.Value() < 10 * S.Value()
    modifies pool.freelist, pool.freeSet, pool`free, pool`freeSet, b0
    ensures pool.FreeOk() && Live(pool, b, S) && b.wds > 0
    ensures b == b0 || fresh(b) || b in old(pool.freeSet)
    ensures pool.freeSet <= old(pool.freeSet) + {b0}
    ensures S.Value() <= b.Value() < 10 * S.Value()
    ensures lowered <==> old(b0.Value()) < S.Value()
    ensures b.Value() == old(b0.Value()) * (if lowered then 10 else 1)
  {
    b, lowered := b0, false;
    var c := Compare.Cmp(b, S);
    if c < 0 {
      lowered := true;
      b := TimesTen(pool, b, S);
    }
  }
}

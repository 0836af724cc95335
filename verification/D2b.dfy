/** d2b: the mantissa of a double as a number without trailing zero bits. */
module Mantissas {
  import opened Basics
  import opened Words
  import opened Bigints
  import opened Doubles
  import Scaling
  import ShiftLeft

  // P * P does not divide x, or x is zero.
  predicate Indivisible(x: nat, P: nat) {
    P > 0 && (x == 0 || x % P != 0)
  }

  lemma OnceMore(x: nat, P: nat)
    requires P > 0 && Indivisible(x, P * P) && x % P == 0
    ensures Indivisible(x / P, P)
  {
    var z := x / P / P;
    if x / P % P == 0 {
      Regroup(z, P, P);
      assert x == x / P * P && x / P == z * P;
      QuotientUnique(x, P * P, z, 0);
    }
  }

  // One halving: n zero bits are shifted out if there are as many.
  method ShiftOut(x0: nat, k0: nat, n: nat, P: nat, ghost y0: nat) returns (x: nat, k: nat)
    requires P == Pow(2, n) && P > 0 && Indivisible(x0, P * P) && y0 == x0 * Pow(2, k0)
    ensures y0 == x * Pow(2, k) && Indivisible(x, P) && k0 <= k <= k0 + n && (x0 > 0 ==> x > 0)
    ensures x0 == 0 ==> k == k0 + n
  {
    x, k := x0, k0;
    if x % P == 0 {
      OnceMore(x, P);
      PowAdd(2, n, k0);
      Regroup(x / P, P, Pow(2, k0));
      assert x == x / P * P;
      x, k := x / P, k + n;
    }
  }

  // The number of trailing zeros of a 32-bit word, which are shifted out.
  method Lo0Bits(y0: nat) returns (k: nat, y: nat)
    requires y0 < WORD32
    ensures y0 == 0 ==> k == 32 && y == 0
    ensures y0 > 0 ==> k < 32 && y % 2 == 1 && y0 == y * Pow(2, k)
  {
    Scaling.SmallPowers();
    if y0 % 8 != 0 {
      if y0 % 2 == 1 { return 0, y0; }
      if y0 / 2 % 2 == 1 { return 1, y0 / 2; }
      return 2, y0 / 4;
    }
    var x;
    x, k := ShiftOut(y0, 0, 16, 0x1_0000, y0);
    x, k := ShiftOut(x, k, 8, 0x100, y0);
    x, k := ShiftOut(x, k, 4, 0x10, y0);
    x, k := ShiftOut(x, k, 2, 4, y0);
    x, k := ShiftOut(x, k, 1, 2, y0);
    if x == 0 { return 32, y0; }
    y := x;
  }

  lemma FourDigits(x: seq<nat>)
    requires |x| >= 4
    ensures Val(x, 1) == x[0] && Val(x, 2) == x[0] + x[1] * BASE
    ensures Val(x, 3) == x[0] + BASE * (x[1] + BASE * x[2])
    ensures Val(x, 4) == x[0] + BASE * (x[1] + BASE * (x[2] + BASE * x[3]))
  {
    assert Val(x, 0) == 0 && Pow(BASE, 0) == 1 && Pow(BASE, 1) == BASE;
    assert Pow(BASE, 2) == BASE * BASE && Pow(BASE, 3) == BASE * (BASE * BASE);
  }

  // The digits when y, less than a digit, is followed by z.
  lemma ThreeDigits(z: nat, c: nat, d: nat, y: nat)
    requires c * d == BASE && y < c && z < 0x20_0000
    ensures d > 0 && z * c % BASE + y < BASE && z / d / BASE < BASE
    ensures z * c % BASE + y + BASE * (z / d % BASE + BASE * (z / d / BASE)) == z * c + y
  {
    ShiftLeft.ShiftSplit(z, c, d, y);
    MulLe(1, d, z / d);
    assert z == z / d * d + z % d;
  }

  // The digits when y is longer than that.
  lemma SplitDigits(z: nat, c: nat, d: nat, y: nat)
    requires c * d == BASE && y < c * BASE && z < 0x20_0000
    ensures d > 0 && z * c % BASE + y / BASE < BASE && z / d / BASE < BASE
    ensures y % BASE + BASE * (z * c % BASE + y / BASE + BASE * (z / d % BASE + BASE * (z / d / BASE))) ==
      z * c * BASE + y
  {
    assert y / BASE < c;
    ThreeDigits(z, c, d, y / BASE);
  }

  lemma Halves(k: nat, n: nat)
    requires k <= n
    ensures Pow(2, n - k) * Pow(2, k) == Pow(2, n) && Pow(2, k) > 0 && Pow(2, n - k) > 0
  {
    PowAdd(2, n - k, k);
    PowPositive(2, k);
    PowPositive(2, n - k);
  }

  lemma ShiftTwice(z: nat, d: nat)
    requires d > 0
    ensures z / (d * BASE) == z / d / BASE
  {
    var v := z / d;
    var r := v % BASE * d + z % d;
    assert z == v * d + z % d && v == v / BASE * BASE + v % BASE;
    Distribute(v / BASE * BASE, v % BASE, d);
    Regroup(v / BASE, BASE, d);
    MulLe(v % BASE, BASE - 1, d);
    QuotientUnique(z, d * BASE, v / BASE, r);
  }

  // The low word, moved down by k bits to y, and k at least 16.
  method FarShift(b: Bigint, y: nat, z: nat, k: nat)
    requires |b.x| == 4 && 16 <= k < 32 && z < 0x20_0000 && y < Pow(2, 32 - k)
    modifies b`x
    ensures |b.x| == 4 && Digits(b.x, 3) && Val(b.x, 3) == z * Pow(2, 32 - k) + y
  {
    Scaling.SmallPowers();
    Halves(k - 16, 16);
    PowAdd(2, k - 16, 16);
    ShiftTwice(z, Pow(2, k - 16));
    ThreeDigits(z, Pow(2, 32 - k), Pow(2, k - 16), y);
    b.x := b.x[0 := z * Pow(2, 32 - k) % BASE + y][1 := z / Pow(2, k - 16) % BASE][2 := z / Pow(2, k)];
    FourDigits(b.x);
  }

  // And less than 16.
  method NearShift(b: Bigint, y: nat, z: nat, k: nat)
    requires |b.x| == 4 && k < 16 && z < 0x20_0000 && y < Pow(2, 32 - k)
    modifies b`x
    ensures |b.x| == 4 && Digits(b.x, 4) && Val(b.x, 4) == z * Pow(2, 32 - k) + y
  {
    Scaling.SmallPowers();
    Halves(k, 16);
    PowAdd(2, 16 - k, 16);
    PowAdd(2, k, 16);
    ShiftTwice(z, Pow(2, k));
    SplitDigits(z, Pow(2, 16 - k), Pow(2, k), y);
    Regroup(z, Pow(2, 16 - k), BASE);
    b.x := b.x[0 := y % BASE][1 := y / BASE + z * Pow(2, 16 - k) % BASE][2 := z / Pow(2, k) % BASE];
    b.x := b.x[3 := z / Pow(2, k + 16)];
    FourDigits(b.x);
  }

  // The fields of a double given by its two words: the stored exponent, the mantissa with its
  // hidden bit, and the exponent of the mantissa's last bit.
  function StoredExponent(word0: nat): nat {
    word0 / 0x10_0000 % 0x800
  }

  function HighMantissa(word0: nat): (z: nat)
    ensures z < 0x20_0000
  {
    word0 % 0x10_0000 + if StoredExponent(word0) > 0 then 0x10_0000 else 0
  }

  function Mantissa(word0: nat, word1: nat): nat {
    HighMantissa(word0) * WORD32 + word1
  }

  function LastBit(word0: nat): int {
    (if StoredExponent(word0) > 0 then StoredExponent(word0) else 1) - BIAS - (PRECISION - 1)
  }

  lemma WordsForm(word0: nat, word1: nat)
    requires word1 < WORD32
    ensures Form(Mantissa(word0, word1), LastBit(word0))
    ensures StoredExponent(word0) == 0 <==> Mantissa(word0, word1) < HIDDEN
    ensures word1 % 2 == Mantissa(word0, word1) % 2
  {
  }

  // The two words, as one number without the sign, count the doubles from zero on: mantissa and
  // exponent are those of IEEE 754, and no bit of the words is left out.
  lemma WordsCount(word0: nat, word1: nat)
    requires word1 < WORD32
    ensures (word0 % 0x8000_0000) * WORD32 + word1 == (LastBit(word0) - MIN_EXP) * HIDDEN + Mantissa(word0, word1)
  {
  }

  // No digits but the first i + 1, and the last of those not zero: while (!x[i]) --i.
  method DropZeros(b: Bigint, i0: nat)
    requires b.Sized() && i0 < |b.x| && Digits(b.x, i0 + 1) && Val(b.x, i0 + 1) > 0
    modifies b`wds
    ensures b.Normal() && b.Value() == Val(b.x, i0 + 1) && b.x[b.wds - 1] > 0 && b.wds <= i0 + 1
  {
    var i := i0;
    assert Val(b.x, 0) == 0;
    while b.x[i] == 0
      invariant 0 <= i <= i0 && Val(b.x, i + 1) == Val(b.x, i0 + 1)
      decreases i
    {
      i := i - 1;
    }
    b.wds := i + 1;
  }

  // The low word has a bit set.
  method LowWord(b: Bigint, word1: nat, z: nat) returns (k: nat, i: nat)
    requires |b.x| == 4 && 0 < word1 < WORD32 && z < 0x20_0000
    modifies b`x
    ensures |b.x| == 4 && i < 4 && Digits(b.x, i + 1) && k < 32
    ensures Val(b.x, i + 1) * Pow(2, k) == z * WORD32 + word1
  {
    var y;
    k, y := Lo0Bits(word1);
    Scaling.SmallPowers();
    Halves(k, 32);
    Order(y, Pow(2, 32 - k), Pow(2, k));
    if k >= 16 {
      FarShift(b, y, z, k);
      i := 2;
    } else {
      NearShift(b, y, z, k);
      i := 3;
    }
    Distribute(z * Pow(2, 32 - k), y, Pow(2, k));
    Regroup(z, Pow(2, 32 - k), Pow(2, k));
  }

  lemma HighShift(y: nat, z: nat, k: nat)
    requires z == y * Pow(2, k) && z < 0x20_0000
    ensures y < 0x20_0000 && (k >= 16 ==> y < BASE) && y * Pow(2, k + 32) == z * WORD32
  {
    Scaling.SmallPowers();
    PowPositive(2, k);
    PowAdd(2, k, 32);
    Regroup(y, Pow(2, k), WORD32);
    MulLe(1, Pow(2, k), y);
    if k >= 16 {
      PowMonotone(2, 16, k);
      MulLe(BASE, Pow(2, k), y);
    }
  }

  // It has none.
  method HighWord(b: Bigint, z: nat) returns (k: nat, i: nat)
    requires |b.x| == 4 && 0 < z < 0x20_0000
    modifies b`x
    ensures |b.x| == 4 && i < 4 && Digits(b.x, i + 1)
    ensures Val(b.x, i + 1) * Pow(2, k) == z * WORD32
  {
    var y;
    k, y := Lo0Bits(z);
    HighShift(y, z, k);
    if k >= 16 {
      b.x := b.x[0 := y];
      i := 0;
    } else {
      b.x := b.x[0 := y % BASE][1 := y / BASE];
      i := 1;
    }
    FourDigits(b.x);
    assert Val(b.x, i + 1) == y;
    k := k + 32;
  }

  method Digits16(b: Bigint, word1: nat, z: nat) returns (k: nat)
    requires b.Sized() && b.k == 2 && word1 < WORD32 && z < 0x20_0000 && z * WORD32 + word1 > 0
    modifies b`x, b`wds
    ensures b.Normal() && b.x[b.wds - 1] > 0 && b.Value() > 0 && b.Value() * Pow(2, k) == z * WORD32 + word1
  {
    var i;
    assert |b.x| == 4 by { Scaling.SmallPowers(); }
    if word1 != 0 {
      k, i := LowWord(b, word1, z);
    } else {
      k, i := HighWord(b, z);
    }
    DropZeros(b, i);
  }

  lemma FewZeros(B: nat, k: nat, F: nat)
    requires B > 0 && B * Pow(2, k) == F && F < 2 * HIDDEN
    ensures k <= 52
  {
    if k > 52 {
      HiddenPower();
      PowMonotone(2, 53, k);
      MulLe(1, B, Pow(2, k));
    }
  }

  // The number without its trailing zero bits, its exponent, and how many bits it takes; t is
  // the count of the zero bits.
  method D2b(pool: Pool, word0: nat, word1: nat) returns (b: Bigint, e: int, bits: nat, ghost t: nat)
    requires pool.FreeOk() && word1 < WORD32 && Mantissa(word0, word1) > 0
    modifies pool.freelist, pool.freeSet, pool`free, pool`freeSet
    ensures pool.FreeOk() && b !in pool.freeSet && (fresh(b) || b in old(pool.freeSet))
    ensures pool.freeSet <= old(pool.freeSet)
    ensures b.Normal() && b.k == 2 && b.Value() > 0 && b.Value() * Pow(2, t) == Mantissa(word0, word1)
    ensures e == LastBit(word0) + t && t <= 52
    ensures if StoredExponent(word0) > 0 then bits == PRECISION - t else Scaling.BitLength(b.Value(), bits)
  {
    b := pool.Balloc(2);
    var z := HighMantissa(word0);
    var de := StoredExponent(word0);
    var k := Digits16(b, word1, z);
    t := k;
    WordsForm(word0, word1);
    FewZeros(b.Value(), k, Mantissa(word0, word1));
    if de != 0 {
      e := de - BIAS - (PRECISION - 1) + k;
      bits := PRECISION - k;
    } else {
      e := de - BIAS - (PRECISION - 1) + 1 + k;
      var i := b.wds - 1;
      var lead := Scaling.Hi0Bits(b.x[i]);
      bits := (i + 2) * 16 - lead;
      Scaling.LengthFromTop(b.x, b.wds, 32 - lead);
    }
  }
}

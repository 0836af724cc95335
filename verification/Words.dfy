/** Numbers stored as 16-bit digits, least significant first, as the #else branches of
    lib_dtoa.c store them.  Everything here is about plain sequences. */
module Words {
  import opened Basics

  const BASE: nat := 0x1_0000
  const WORD32: nat := 0x1_0000_0000

  function Pow(b: nat, e: nat): nat {
    if e == 0 then 1 else b * Pow(b, e - 1)
  }

  // How many bits a number takes.
  function Bits(x: nat): nat {
    if x == 0 then 0 else 1 + Bits(x / 2)
  }

  // The value of the first n digits of x.
  function Val(x: seq<nat>, n: nat): nat
    requires n <= |x|
  {
    if n == 0 then 0 else Val(x, n - 1) + x[n - 1] * Pow(BASE, n - 1)
  }

  ghost predicate Digits(x: seq<nat>, n: nat)
    requires n <= |x|
  {
    forall i :: 0 <= i < n ==> x[i] < BASE
  }

  lemma {:induction false} PowPositive(b: nat, e: nat)
    requires b > 0
    ensures Pow(b, e) > 0
  {
    if e > 0 { PowPositive(b, e - 1); }
  }

  lemma {:induction false} PowAdd(b: nat, e: nat, f: nat)
    ensures Pow(b, e + f) == Pow(b, e) * Pow(b, f)
  {
    if e > 0 {
      PowAdd(b, e - 1, f);
      assert b * (Pow(b, e - 1) * Pow(b, f)) == (b * Pow(b, e - 1)) * Pow(b, f);
    }
  }

  lemma {:induction false} PowMonotone(b: nat, e: nat, f: nat)
    requires b > 0 && e <= f
    ensures Pow(b, e) <= Pow(b, f)
  {
    if e < f {
      PowMonotone(b, e, f - 1);
      PowPositive(b, f - 1);
      MulLe(1, b, Pow(b, f - 1));
    }
  }

  // The value depends on the first n digits only.
  lemma {:induction false} ValAgree(x: seq<nat>, y: seq<nat>, n: nat)
    requires n <= |x| && n <= |y|
    requires forall i :: 0 <= i < n ==> x[i] == y[i]
    ensures Val(x, n) == Val(y, n)
  {
    if n > 0 { ValAgree(x, y, n - 1); }
  }

  lemma {:induction false} ValBound(x: seq<nat>, n: nat)
    requires n <= |x| && Digits(x, n)
    ensures Val(x, n) < Pow(BASE, n)
  {
    if n > 0 {
      ValBound(x, n - 1);
      MulLe(x[n - 1], BASE - 1, Pow(BASE, n - 1));
    }
  }

  // Digits from lo up that are all zero add nothing.
  lemma {:induction false} ValZeros(x: seq<nat>, lo: nat, n: nat)
    requires lo <= n <= |x|
    requires forall i :: lo <= i < n ==> x[i] == 0
    ensures Val(x, n) == Val(x, lo)
  {
    if lo < n { ValZeros(x, lo, n - 1); }
  }

  // One digit written back with its carry moved up loses nothing.
  lemma CarrySplit(y: int, p: int)
    ensures (y % BASE) * p + (y / BASE) * (BASE * p) == y * p
  {
    var q, r := y / BASE, y % BASE;
    assert y == BASE * q + r;
    assert (BASE * q + r) * p == q * (BASE * p) + r * p;
  }

  // Numbers with a nonzero top digit and more digits are larger.
  lemma ValLowerBound(x: seq<nat>, n: nat)
    requires 0 < n <= |x| && x[n - 1] > 0
    ensures Val(x, n) >= Pow(BASE, n - 1)
  {
    MulLe(1, x[n - 1], Pow(BASE, n - 1));
  }

  // How many digits a value takes.
  function Len(v: nat): nat {
    if v == 0 then 0 else 1 + Len(v / BASE)
  }

  lemma {:induction false} LenFrom(v: nat, n: nat)
    requires n > 0 && Pow(BASE, n - 1) <= v < Pow(BASE, n)
    ensures Len(v) == n
    decreases n
  {
    PowPositive(BASE, n - 1);
    if n == 1 {
      assert Pow(BASE, 0) == 1 && v / BASE == 0;
    } else {
      LenFrom(v / BASE, n - 1);
    }
  }

  // Without leading zeros the number of digits is determined by the value.
  lemma LenOfDigits(x: seq<nat>, n: nat)
    requires n <= |x| && Digits(x, n) && (n > 0 ==> x[n - 1] > 0)
    ensures Len(Val(x, n)) == n
  {
    if n > 0 {
      ValBound(x, n);
      ValLowerBound(x, n);
      LenFrom(Val(x, n), n);
    }
  }
}

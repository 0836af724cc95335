/** lshift: multiply by a power of two into a fresh number, freeing the old one. */
module ShiftLeft {
  import opened Basics
  import opened Words
  import opened Bigints

  // The size class found by doubling maxwds until n1 digits fit.
  function SizeClass(k: nat, n1: nat): (k1: nat)
    ensures k1 >= k && n1 <= Pow(2, k1)
    ensures k1 == k || Pow(2, k1 - 1) < n1
    decreases n1 - Pow(2, k)
  {
    PowPositive(2, k);
    assert Pow(2, k + 1) == 2 * Pow(2, k);
    if n1 > Pow(2, k) then SizeClass(k + 1, n1) else k
  }

  method FindSizeClass(b: Bigint, n1: nat) returns (k1: nat)
    requires b.Sized()
    ensures k1 == SizeClass(b.k, n1)
  {
    k1 := b.k;
    var i := |b.x|;
    while n1 > i
      invariant i == Pow(2, k1) && k1 >= b.k && SizeClass(b.k, n1) == SizeClass(k1, n1)
      decreases n1 - i
    {
      PowPositive(2, k1);
      k1 := k1 + 1;
      i := i * 2;
    }
  }

  // The low part of a digit moved up by P still fits a digit, and leaves room for z.
  lemma LowPart(r: nat, P: nat, Q: nat, z: nat)
    requires P * Q == BASE && r < Q && z < P
    ensures r * P + z < BASE
  {
    MulLe(r, Q - 1, P);
    Separate(Q, 1, P);
  }

  // A number d moved up by P = 2^k: P * (d mod Q) stays in the 16 bits, d / Q carries over,
  // where P * Q = 2^16.  The C code joins the carried part with an or; it lies below P and
  // the rest is a multiple of P, so the or is a sum.
  lemma ShiftSplit(d: nat, P: nat, Q: nat, z: nat)
    requires P > 0 && Q > 0 && P * Q == BASE && z < P
    ensures d * P % BASE + z < BASE && (d < BASE ==> d / Q < P)
    ensures d * P % BASE == (d % Q) * P
    ensures d * P == d * P % BASE + BASE * (d / Q)
  {
    var q, r := d / Q, d % Q;
    assert d == q * Q + r;
    Distribute(q * Q, r, P);
    Regroup(q, P, Q);
    Regroup(q, Q, P);
    LowPart(r, P, Q, z);
    QuotientUnique(d * P, BASE, q, r * P);
    if q >= P { MulLe(P, q, Q); }
  }

  ghost predicate ShiftInv(c: seq<nat>, n: nat, x: seq<nat>, i: nat, P: nat, z: nat)
    requires n + i <= |c| && i <= |x|
  {
    Val(c, n + i) + z * Pow(BASE, n + i) == Val(x, i) * P * Pow(BASE, n)
  }

  lemma ShiftAlgebra(v: int, d: int, P: int, pn: int, pi: int, p: int, lo: int, hi: int, z: int)
    requires p == pn * pi && d * P == lo + BASE * hi
    ensures (v + d * pi) * P * pn == v * P * pn + lo * p + hi * (BASE * p)
    ensures (lo + z) * p == lo * p + z * p
  {
    assert (v + d * pi) * P * pn == v * P * pn + (d * P) * (pn * pi);
    assert (lo + BASE * hi) * p == lo * p + hi * (BASE * p);
  }

  lemma ShiftStep(c: seq<nat>, n: nat, x: seq<nat>, i: nat, P: nat, Q: nat, z: nat)
    requires P > 0 && Q > 0 && P * Q == BASE && z < P
    requires n + i < |c| && i < |x| && x[i] < BASE && ShiftInv(c, n, x, i, P, z)
    ensures x[i] * P % BASE + z < BASE && x[i] / Q < P
    ensures ShiftInv(c[n + i := x[i] * P % BASE + z], n, x, i + 1, P, x[i] / Q)
  {
    var d := x[i];
    ShiftSplit(d, P, Q, z);
    var p := Pow(BASE, n + i);
    ValAgree(c, c[n + i := d * P % BASE + z], n + i);
    PowAdd(BASE, n, i);
    ShiftAlgebra(Val(x, i), d, P, Pow(BASE, n), Pow(BASE, i), p, d * P % BASE, d / Q, z);
  }

  lemma TopSurvives(d: nat, P: nat, Q: nat)
    requires P > 0 && Q > 0 && P * Q == BASE && d < BASE
    ensures d > 0 && d / Q == 0 ==> d * P % BASE > 0
    ensures d == 0 ==> d * P % BASE == 0 && d / Q == 0
  {
    ShiftSplit(d, P, Q, 0);
    if d > 0 { MulLe(1, d, P); }
  }

  // The shifting loop, for a shift of 1 to 15 bits within digits, P = 2^k and Q = 2^(16-k).
  method ShiftDigits(c: Bigint, x: seq<nat>, m: nat, n: nat, P: nat, Q: nat) returns (z: nat)
    requires 0 < m <= |x| && Digits(x, m) && P > 0 && Q > 0 && P * Q == BASE
    requires n + m <= |c.x| && Val(c.x, n) == 0 && Digits(c.x, n)
    modifies c`x
    ensures |c.x| == old(|c.x|) && z < P && Digits(c.x, n + m)
    ensures c.x[..n] == old(c.x[..n])
    ensures ShiftInv(c.x, n, x, m, P, z)
    ensures z == 0 && x[m - 1] > 0 ==> c.x[n + m - 1] > 0
    ensures m == 1 && x[0] == 0 ==> z == 0 && c.x[n] == 0
  {
    var i := 0;
    z := 0;
    while i < m
      invariant 0 <= i <= m && z < P && |c.x| == old(|c.x|)
      invariant c.x[..n] == old(c.x[..n])
      invariant Digits(c.x, n + i)
      invariant ShiftInv(c.x, n, x, i, P, z)
      invariant 0 < i && z == 0 && x[i - 1] > 0 ==> c.x[n + i - 1] > 0
      invariant i == 0 ==> z == 0
      invariant i == 1 && x[0] == 0 ==> z == 0 && c.x[n] == 0
    {
      var lo := x[i] * P % BASE;
      ShiftStep(c.x, n, x, i, P, Q, z);
      TopSurvives(x[i], P, Q);
      c.x := c.x[n + i := lo + z];
      z := x[i] / Q;
      i := i + 1;
    }
  }

  // A shift by whole digits only copies.
  method CopyDigits(c: Bigint, x: seq<nat>, m: nat, n: nat)
    requires 0 < m <= |x| && Digits(x, m) && n + m <= |c.x| && Val(c.x, n) == 0 && Digits(c.x, n)
    modifies c`x
    ensures |c.x| == old(|c.x|) && Digits(c.x, n + m) && c.x[n + m - 1] == x[m - 1]
    ensures c.x[..n] == old(c.x[..n])
    ensures ShiftInv(c.x, n, x, m, 1, 0)
  {
    var i := 0;
    while i < m
      invariant 0 <= i <= m && |c.x| == old(|c.x|) && Digits(c.x, n + i)
      invariant c.x[..n] == old(c.x[..n])
      invariant ShiftInv(c.x, n, x, i, 1, 0)
      invariant i > 0 ==> c.x[n + i - 1] == x[i - 1]
    {
      ShiftStep(c.x, n, x, i, 1, BASE, 0);
      c.x := c.x[n + i := x[i]];
      i := i + 1;
    }
  }

  lemma {:induction false} PowOfBase(n: nat)
    ensures Pow(2, 16 * n) == Pow(BASE, n)
  {
    if n > 0 {
      PowOfBase(n - 1);
      PowAdd(2, 16, 16 * (n - 1));
      assert Pow(2, 16) == BASE by { assert Pow(2, 8) == 256; PowAdd(2, 8, 8); }
    }
  }

  // 2^k is 2^(k mod 16) shifted by k / 16 whole digits, and 2^(16 - k mod 16) complements it.
  lemma ShiftFactors(k: nat)
    ensures Pow(2, k) == Pow(2, k % 16) * Pow(BASE, k / 16)
    ensures Pow(2, k % 16) * Pow(2, 16 - k % 16) == BASE
    ensures Pow(2, k % 16) > 0 && Pow(2, 16 - k % 16) > 0
  {
    PowPositive(2, k % 16);
    PowPositive(2, 16 - k % 16);
    PowAdd(2, k % 16, 16 - k % 16);
    assert Pow(2, 16) == BASE by { assert Pow(2, 8) == 256; PowAdd(2, 8, 8); }
    PowAdd(2, k % 16, 16 * (k / 16));
    PowOfBase(k / 16);
  }

  // Every write is in range, except that a number with no digits also has its zero carry
  // stored one place further; that place exists when n1 + 1 digits fit.
  ghost predicate ShiftFits(b: Bigint, k: nat)
    reads b
  {
    && SizeClass(b.k, k / 16 + b.wds + 1) <= KMAX
    && (b.wds == 0 && k % 16 != 0 ==> k / 16 + 2 <= Pow(2, SizeClass(b.k, k / 16 + 1)))
  }

  lemma SingleDigit(x: seq<nat>)
    requires |x| > 0
    ensures Val(x, 1) == x[0]
  {
    assert Val(x, 0) == 0;
  }

  lemma PowBelowBase(e: nat)
    requires e < 16
    ensures Pow(2, e) < BASE
  {
    PowMonotone(2, e, 15);
    assert Pow(2, 8) == 256;
    assert Pow(2, 7) == 128;
    PowAdd(2, 7, 8);
  }

  lemma ShiftEnd(c: seq<nat>, n: nat, x: seq<nat>, m: nat, P: nat, z: nat, k: nat)
    requires n + m <= |c| && m <= |x| && ShiftInv(c, n, x, m, P, z)
    requires Pow(2, k) == P * Pow(BASE, n)
    ensures z == 0 ==> Val(c, n + m) == Val(x, m) * Pow(2, k)
    ensures n + m < |c| ==> Val(c[n + m := z], n + m + 1) == Val(x, m) * Pow(2, k)
    ensures n + m < |c| ==> Val(c[n + m := z], n + m) == Val(c, n + m)
  {
    Regroup(Val(x, m), P, Pow(BASE, n));
    if n + m < |c| { ValAgree(c, c[n + m := z], n + m); }
  }

  // After the n low zero digits are in place: the three ways through the rest of lshift.
  method ShiftBits(r: Bigint, b: Bigint, k: nat, n: nat)
    requires r != b && b.Ok() && b.wds > 0 && r.Sized() && n == k / 16 && k % 16 != 0
    requires n + b.wds < |r.x| && Val(r.x, n) == 0 && Digits(r.x, n)
    modifies r`x, r`wds
    ensures r.Ok() && r.Value() == b.Value() * Pow(2, k) && 0 < r.wds <= n + b.wds + 1
    ensures b.x[b.wds - 1] > 0 ==> r.x[r.wds - 1] > 0
    ensures b.wds == 1 && n == 0 && b.x[0] == 0 ==> r.wds == 1
  {
    var m := b.wds;
    ShiftFactors(k);
    var z := ShiftDigits(r, b.x, m, n, Pow(2, k % 16), Pow(2, 16 - k % 16));
    PowBelowBase(k % 16);
    ShiftEnd(r.x, n, b.x, m, Pow(2, k % 16), z, k);
    r.x := r.x[n + m := z];
    if z != 0 { r.wds := n + m + 1; } else { r.wds := n + m; }
  }

  method ShiftWhole(r: Bigint, b: Bigint, k: nat, n: nat)
    requires r != b && b.Ok() && b.wds > 0 && r.Sized() && n == k / 16 && k % 16 == 0
    requires n + b.wds <= |r.x| && Val(r.x, n) == 0 && Digits(r.x, n)
    modifies r`x, r`wds
    ensures r.Ok() && r.Value() == b.Value() * Pow(2, k) && r.wds == n + b.wds
    ensures b.x[b.wds - 1] > 0 ==> r.x[r.wds - 1] > 0
  {
    ShiftFactors(k);
    CopyDigits(r, b.x, b.wds, n);
    ShiftEnd(r.x, n, b.x, b.wds, 1, 0, k);
    r.wds := n + b.wds;
  }

  // A number without digits: the loops run once over its zero first digit.
  method ShiftNothing(r: Bigint, b: Bigint, k: nat, n: nat)
    requires r != b && b.Ok() && b.wds == 0 && r.Sized() && n == k / 16
    requires n < |r.x| && (k % 16 != 0 ==> n + 1 < |r.x|) && Val(r.x, n) == 0 && Digits(r.x, n)
    requires forall t :: 0 <= t < n ==> r.x[t] == 0
    modifies r`x, r`wds
    ensures r.Ok() && r.Value() == 0 && r.wds == n
  {
    if k % 16 != 0 {
      ShiftFactors(k);
      var z := ShiftDigits(r, b.x, 1, n, Pow(2, k % 16), Pow(2, 16 - k % 16));
      r.x := r.x[n + 1 := z];
      assert r.x[..n] == old(r.x[..n]);
    } else {
      CopyDigits(r, b.x, 1, n);
    }
    assert forall t :: 0 <= t < n ==> r.x[t] == r.x[..n][t] == old(r.x[..n])[t] == 0;
    ValZeros(r.x, 0, n);
    r.wds := n;
  }

  method ShiftInto(r: Bigint, b: Bigint, k: nat)
    requires r != b && b.Ok() && r.Sized()
    requires k / 16 + b.wds < |r.x| && (b.wds == 0 && k % 16 != 0 ==> k / 16 + 1 < |r.x|)
    modifies r`x, r`wds
    ensures r.Ok() && r.Value() == b.Value() * Pow(2, k) && r.wds <= k / 16 + b.wds + 1
    ensures b.Trim() && (k < 16 || b.Value() > 0) ==> r.Trim() && (b.wds > 0 ==> r.wds > 0)
  {
    var n := k / 16;
    r.x := seq(n, i => 0) + r.x[n..];
    ValZeros(r.x, 0, n);
    if b.wds == 0 {
      ShiftNothing(r, b, k, n);
    } else if k % 16 != 0 {
      ShiftBits(r, b, k, n);
    } else {
      ShiftWhole(r, b, k, n);
    }
    if b.wds == 1 && k >= 16 { SingleDigit(b.x); }
  }

  // A zero shifted by sixteen bits or more is left with leading zero digits; everything
  // else comes out without them.
  method LShift(pool: Pool, b: Bigint, k: nat) returns (r: Bigint)
    requires pool.FreeOk() && b !in pool.freeSet && b.k <= KMAX && b.Ok() && ShiftFits(b, k)
    modifies pool.freelist, pool.freeSet, pool`free, pool`freeSet, b
    ensures pool.FreeOk() && r !in pool.freeSet && b.k <= r.k <= KMAX && r != b
    ensures r.wds <= k / 16 + old(b.wds) + 1 && r.k == SizeClass(b.k, k / 16 + old(b.wds) + 1)
    ensures fresh(r) || r in old(pool.freeSet)
    ensures pool.freeSet == old(pool.freeSet) - {r} + {b}
    ensures r.Ok() && r.Value() == old(b.Value()) * Pow(2, k)
    ensures old(b.Trim()) && (k < 16 || old(b.Value()) > 0) ==> r.Trim() && (old(b.wds) > 0 ==> r.wds > 0)
  {
    var n := k / 16;
    var k1 := FindSizeClass(b, n + b.wds + 1);
    r := pool.Balloc(k1);
    ShiftInto(r, b, k);
    pool.Bfree(b);
  }
}

/** multadd: b * m + a in place, growing into the next size class when the carry needs it. */
module MultAdds {
  import opened Basics
  import opened Words
  import opened Bigints

  // The 32-bit accumulator never overflows, and the carry is again one digit.
  lemma ProductBound(d: nat, m: nat, c: nat, y: nat)
    requires d < BASE && m <= BASE && c < BASE && y == d * m + c
    ensures y < WORD32 && y / BASE < BASE
    ensures m > 0 && d > 0 && y / BASE == 0 ==> y % BASE > 0
  {
    MulLe(d, BASE - 1, m);
    if m > 0 { MulLe(1, m, d); }
  }

  lemma DigitTimes(v: int, d: int, c: int, p: int, m: int)
    ensures (d * m + c) * p == d * p * m + c * p
    ensures (v + d * p) * m == v * m + d * p * m
  {
  }

  lemma MulDigitStep(x: seq<nat>, x0: seq<nat>, i: nat, y: nat, c: nat, m: nat, a: nat)
    requires i < |x| == |x0| && m <= BASE && c < BASE && x0[i] < BASE
    requires y == x0[i] * m + c
    requires Val(x, i) + c * Pow(BASE, i) == Val(x0, i) * m + a
    ensures y < WORD32 && y / BASE < BASE
    ensures m > 0 && x0[i] > 0 && y / BASE == 0 ==> y % BASE > 0
    ensures var x1 := x[i := y % BASE];
      Val(x1, i + 1) + (y / BASE) * Pow(BASE, i + 1) == Val(x0, i + 1) * m + a
  {
    ProductBound(x0[i], m, c, y);
    var x1 := x[i := y % BASE];
    ValAgree(x, x1, i);
    var p := Pow(BASE, i);
    CarrySplit(y, p);
    DigitTimes(Val(x0, i), x0[i], c, p, m);
  }

  // The loop of multadd: every digit times m, the carry running upwards.
  method MulDigits(b: Bigint, m: nat, a: nat) returns (carry: nat)
    requires b.Ok() && m <= BASE && a < BASE
    modifies b`x
    ensures |b.x| == old(|b.x|) && carry < BASE
    ensures Digits(b.x, b.wds) && b.x[0] < BASE
    ensures b.wds > 0 ==>
      Val(b.x, b.wds) + carry * Pow(BASE, b.wds) == old(b.Value()) * m + a
    ensures b.wds == 0 ==> carry == 0 && b.x[0] == a
    ensures old(b.Normal()) && m > 0 && carry == 0 && b.wds > 1 ==> b.x[b.wds - 1] > 0
  {
    ghost var x0 := b.x;
    carry := a;
    var i := 0;
    while i == 0 || i < b.wds
      invariant i <= b.wds || i == 1 <= |b.x|
      invariant |b.x| == |x0| && carry < BASE
      invariant Digits(b.x, i)
      invariant forall j :: i <= j < |x0| ==> b.x[j] == x0[j]
      invariant Val(b.x, i) + carry * Pow(BASE, i) == Val(x0, i) * m + a
      invariant i > 0 && carry == 0 && m > 0 && x0[i - 1] > 0 ==> b.x[i - 1] > 0
      decreases b.wds + 1 - i
    {
      var y := b.x[i] * m + carry;
      MulDigitStep(b.x, x0, i, y, carry, m, a);
      b.x := b.x[i := y % BASE];
      carry := y / BASE;
      i := i + 1;
    }
  }

  // The reallocation step: Balloc(k + 1), Bcopy, Bfree.
  method Grow(pool: Pool, b: Bigint) returns (r: Bigint)
    requires pool.FreeOk() && b !in pool.freeSet && b.k < KMAX && b.Sized() && b.wds <= |b.x|
    modifies pool.freelist, pool.freeSet, pool`free, pool`freeSet, b
    ensures pool.FreeOk() && r !in pool.freeSet && r.k == b.k + 1 && r.Sized() && r != b
    ensures fresh(r) || r in old(pool.freeSet)
    ensures pool.freeSet == old(pool.freeSet) - {r} + {b}
    ensures r.wds == old(b.wds) && r.sign == old(b.sign) && |r.x| > r.wds
    ensures b.x == old(b.x) && r.x[..r.wds] == b.x[..r.wds]
  {
    r := pool.Balloc(b.k + 1);
    assert Pow(2, b.k + 1) == 2 * Pow(2, b.k);
    PowPositive(2, b.k);
    r.sign, r.wds := b.sign, b.wds;
    r.x := b.x[..b.wds] + r.x[b.wds..];
    pool.Bfree(b);
  }

  // The sum needs one digit more than the number has.
  ghost predicate Carries(v: nat, wds: nat, m: nat, a: nat) {
    wds > 0 && v * m + a >= Pow(BASE, wds)
  }

  // The size class of the sum: the next one exactly when all digits are in use.
  ghost function SumClass(v: nat, wds: nat, k: nat, m: nat, a: nat): nat {
    if Carries(v, wds, m, a) && wds >= Pow(2, k) then k + 1 else k
  }

  // That is the least class not below k that holds the digits of the sum.
  lemma SumClassLeast(v: nat, wds: nat, k: nat, m: nat, a: nat)
    requires wds <= Pow(2, k)
    ensures var c, n := SumClass(v, wds, k, m, a), wds + if Carries(v, wds, m, a) then 1 else 0;
      k <= c && n <= Pow(2, c) && (c > k ==> Pow(2, c - 1) < n)
  {
    PowPositive(2, k);
    assert Pow(2, k + 1) == 2 * Pow(2, k);
  }

  lemma CarryNeedsRoom(x: seq<nat>, n: nat, carry: nat)
    requires n <= |x| && carry > 0
    ensures Val(x, n) + carry * Pow(BASE, n) >= Pow(BASE, n)
  {
    PowPositive(BASE, n);
    MulLe(1, carry, Pow(BASE, n));
  }

  lemma AppendDigit(x: seq<nat>, y: seq<nat>, n: nat, d: nat)
    requires n <= |y| && n < |x| && x[..n] == y[..n]
    ensures Val(x[n := d], n + 1) == Val(y, n) + d * Pow(BASE, n)
  {
    forall i | 0 <= i < n ensures x[n := d][i] == y[i] { assert x[..n][i] == y[..n][i]; }
    ValAgree(x[n := d], y, n);
  }

  // The carry becomes the top digit.
  method PutCarry(pool: Pool, b: Bigint, carry: nat) returns (r: Bigint)
    requires pool.FreeOk() && b !in pool.freeSet && b.Sized() && b.wds <= |b.x| && Digits(b.x, b.wds)
    requires 0 < carry < BASE && (if b.wds >= |b.x| then b.k + 1 else b.k) <= KMAX
    modifies pool.freelist, pool.freeSet, pool`free, pool`freeSet, b
    ensures pool.FreeOk() && r !in pool.freeSet && r.Sized()
    ensures r == b || fresh(r) || r in old(pool.freeSet)
    ensures pool.freeSet == if r == b then old(pool.freeSet) else old(pool.freeSet) - {r} + {b}
    ensures r.k == if old(b.wds >= |b.x|) then b.k + 1 else b.k
    ensures r.wds == old(b.wds) + 1 <= |r.x| && Digits(r.x, r.wds) && r.x[r.wds - 1] == carry
    ensures r.Value() == old(b.Value()) + carry * Pow(BASE, old(b.wds))
  {
    var wds := b.wds;
    r := b;
    if wds >= |b.x| {
      r := Grow(pool, b);
    }
    AppendDigit(r.x, b.x, wds, carry);
    assert forall i :: 0 <= i < wds ==> r.x[i] == r.x[..wds][i];
    r.x := r.x[wds := carry];
    r.wds := wds + 1;
  }

  // The value is lost in exactly one case: a number left with no digits by quorem has its
  // digit count not raised, so a nonzero a disappears.
  method MultAdd(pool: Pool, b: Bigint, m: nat, a: nat) returns (r: Bigint)
    requires pool.FreeOk() && b !in pool.freeSet && b.k <= KMAX
    requires b.Ok() && m <= BASE && a < BASE
    requires SumClass(b.Value(), b.wds, b.k, m, a) <= KMAX
    modifies pool.freelist, pool.freeSet, pool`free, pool`freeSet, b
    ensures pool.FreeOk() && r !in pool.freeSet && r.k <= KMAX && r.Sized()
    ensures r == b || fresh(r) || r in old(pool.freeSet)
    ensures r.k == old(SumClass(b.Value(), b.wds, b.k, m, a))
    ensures r.wds == old(b.wds) + if old(Carries(b.Value(), b.wds, m, a)) then 1 else 0
    ensures pool.freeSet == if r == b then old(pool.freeSet) else old(pool.freeSet) - {r} + {b}
    ensures old(b.wds) > 0 || a == 0 ==> r.Ok() && r.Value() == old(b.Value()) * m + a
    ensures old(b.wds) == 0 && a > 0 ==> r.wds == 0 && r.Value() == 0
    ensures old(b.Normal()) && m > 0 ==> r.Normal()
    ensures old(b.wds) == 0 && a == 0 ==> r.wds == 0
  {
    var carry := MulDigits(b, m, a);
    r := b;
    ValBound(b.x, b.wds);
    if carry != 0 {
      CarryNeedsRoom(b.x, b.wds, carry);
      r := PutCarry(pool, b, carry);
    }
  }
}

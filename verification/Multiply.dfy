/** mult: the schoolbook product into a fresh number. */
module Multiply {
  import opened Basics
  import opened Words
  import opened Bigints

  // Digits have been written below n, and nothing from there on.
  ghost predicate RowFrame(c: seq<nat>, c0: seq<nat>, n: nat) {
    |c| == |c0| && n <= |c| && Digits(c, n) && forall t :: n <= t < |c0| ==> c[t] == c0[t]
  }

  lemma RowWrite(c: seq<nat>, c0: seq<nat>, n: nat, d: nat)
    requires RowFrame(c, c0, n) && n < |c| && d < BASE
    ensures RowFrame(c[n := d], c0, n + 1)
  {
  }

  // After i digits: what has been written plus the carry is what was there plus the product.
  ghost predicate RowInv(c: seq<nat>, c0: seq<nat>, a: seq<nat>, i: nat, j: nat, y: nat, carry: nat)
    requires j + i <= |c| && j + i <= |c0| && i <= |a|
  {
    Val(c, j + i) + carry * Pow(BASE, j + i) == Val(c0, j + i) + Val(a, i) * y * Pow(BASE, j)
  }

  // The 32-bit accumulator z never overflows.
  lemma RowBound(d: nat, y: nat, e: nat, carry: nat, z: nat)
    requires d < BASE && y < BASE && e < BASE && carry < BASE && z == d * y + e + carry
    ensures z < WORD32 && z / BASE < BASE
  {
    MulLe(d, BASE - 1, y);
  }

  lemma RowAlgebra(v: int, d: int, y: int, e: int, carry: int, pj: int, pi: int, p: int)
    requires p == pj * pi
    ensures (d * y + e + carry) * p == d * pi * y * pj + e * p + carry * p
    ensures (v + d * pi) * y * pj == v * y * pj + d * pi * y * pj
  {
    assert d * y * p == d * pi * y * pj by {
      assert d * y * (pj * pi) == d * pi * y * pj;
    }
    assert (v + d * pi) * y == v * y + d * pi * y;
  }

  lemma RowStep(c: seq<nat>, c0: seq<nat>, a: seq<nat>, i: nat, j: nat, y: nat, carry: nat, z: nat)
    requires j + i < |c| == |c0| && i < |a| && a[i] < BASE && y < BASE && carry < BASE
    requires c[j + i] == c0[j + i] < BASE && z == a[i] * y + c[j + i] + carry
    requires RowInv(c, c0, a, i, j, y, carry)
    ensures z < WORD32 && z / BASE < BASE
    ensures RowInv(c[j + i := z % BASE], c0, a, i + 1, j, y, z / BASE)
  {
    RowBound(a[i], y, c[j + i], carry, z);
    var p := Pow(BASE, j + i);
    ValAgree(c, c[j + i := z % BASE], j + i);
    CarrySplit(z, p);
    PowAdd(BASE, j, i);
    RowAlgebra(Val(a, i), a[i], y, c0[j + i], carry, Pow(BASE, j), Pow(BASE, i), p);
  }

  method RowDigit(c: Bigint, a: Bigint, i: nat, j: nat, y: nat, carry0: nat, ghost c0: seq<nat>) returns (carry: nat)
    requires c != a && a.Ok() && i < a.wds && y < BASE && carry0 < BASE
    requires RowFrame(c.x, c0, j + i) && j + i < |c0| && c0[j + i] < BASE && RowInv(c.x, c0, a.x, i, j, y, carry0)
    modifies c`x
    ensures carry < BASE && RowFrame(c.x, c0, j + i + 1) && RowInv(c.x, c0, a.x, i + 1, j, y, carry)
  {
    var z := a.x[i] * y + c.x[j + i] + carry0;
    RowStep(c.x, c0, a.x, i, j, y, carry0, z);
    RowWrite(c.x, c0, j + i, z % BASE);
    c.x := c.x[j + i := z % BASE];
    carry := z / BASE;
  }

  lemma RowEnd(c: seq<nat>, c0: seq<nat>, a: seq<nat>, i: nat, j: nat, y: nat, carry: nat)
    requires j + i < |c| && j + i < |c0| && i <= |a| && c0[j + i] == 0
    requires RowInv(c, c0, a, i, j, y, carry)
    ensures Val(c[j + i := carry], j + i + 1) == Val(c0, j + i + 1) + Val(a, i) * y * Pow(BASE, j)
  {
    ValAgree(c, c[j + i := carry], j + i);
  }

  // One row of the product: c += a * y * BASE^j, where c's digits from j + a.wds on are zero.
  method MulRow(c: Bigint, a: Bigint, y: nat, j: nat)
    requires c != a && a.Ok() && a.wds > 0 && y < BASE && j + a.wds < |c.x|
    requires Digits(c.x, j + a.wds) && c.x[j + a.wds] == 0
    modifies c`x
    ensures |c.x| == old(|c.x|) && Digits(c.x, j + a.wds + 1)
    ensures forall t :: j + a.wds < t < |c.x| ==> c.x[t] == old(c.x[t])
    ensures Val(c.x, j + a.wds + 1) == old(Val(c.x, j + a.wds + 1)) + a.Value() * y * Pow(BASE, j)
  {
    ghost var c0 := c.x;
    var carry: nat, i: nat := 0, 0;
    while i == 0 || i < a.wds
      invariant i <= a.wds && carry < BASE
      invariant RowFrame(c.x, c0, j + i)
      invariant RowInv(c.x, c0, a.x, i, j, y, carry)
      decreases a.wds - i
    {
      carry := RowDigit(c, a, i, j, y, carry, c0);
      i := i + 1;
    }
    RowEnd(c.x, c0, a.x, i, j, y, carry);
    RowWrite(c.x, c0, j + i, carry);
    c.x := c.x[j + i := carry];
  }

  method StripZeros(x: seq<nat>, n: nat) returns (wc: nat)
    requires n <= |x|
    ensures wc <= n && Val(x, wc) == Val(x, n)
    ensures forall i :: wc <= i < n ==> x[i] == 0
    ensures wc > 0 ==> x[wc - 1] > 0
  {
    wc := n;
    while wc > 0 && x[wc - 1] == 0
      invariant 0 <= wc <= n
      invariant forall i :: wc <= i < n ==> x[i] == 0
    {
      wc := wc - 1;
    }
    ValZeros(x, wc, n);
  }

  lemma RowTotal(a: int, v: int, d: int, p: int)
    ensures a * (v + d * p) == a * v + a * d * p
  {
  }

  // All rows, skipping zero digits of b.
  method MulRows(c: Bigint, a: Bigint, b: Bigint)
    requires c != a && c != b && a.Ok() && b.Ok() && b.wds <= a.wds && a.wds + b.wds <= |c.x|
    requires forall t :: 0 <= t < a.wds + b.wds ==> c.x[t] == 0
    modifies c`x
    ensures |c.x| == old(|c.x|) && Digits(c.x, a.wds + b.wds)
    ensures Val(c.x, a.wds + b.wds) == a.Value() * b.Value()
  {
    ValZeros(c.x, 0, a.wds);
    var j := 0;
    while j < b.wds
      invariant 0 <= j <= b.wds
      invariant |c.x| == old(|c.x|) && Digits(c.x, a.wds + j)
      invariant forall t :: a.wds + j <= t < a.wds + b.wds ==> c.x[t] == 0
      invariant Val(c.x, a.wds + j) == a.Value() * Val(b.x, j)
    {
      RowTotal(a.Value(), Val(b.x, j), b.x[j], Pow(BASE, j));
      if b.x[j] != 0 {
        MulRow(c, a, b.x[j], j);
      }
      j := j + 1;
    }
  }

  // The size class of a product: that of the longer operand, or one more.
  function ProductClass(ka: nat, wa: nat, kb: nat, wb: nat): nat {
    var k := if wa < wb then kb else ka;
    if wa + wb > Pow(2, k) then k + 1 else k
  }

  // That is the least class, from that of the longer operand on, that holds the digits of both.
  lemma ProductClassLeast(ka: nat, wa: nat, kb: nat, wb: nat)
    requires wa <= Pow(2, ka) && wb <= Pow(2, kb)
    ensures var c, k := ProductClass(ka, wa, kb, wb), if wa < wb then kb else ka;
      k <= c && wa + wb <= Pow(2, c) && (c > k ==> Pow(2, c - 1) < wa + wb)
  {
    assert Pow(2, ka + 1) == 2 * Pow(2, ka) && Pow(2, kb + 1) == 2 * Pow(2, kb);
  }

  // The product, without leading zeros.  Two operands without digits leave the first digit
  // of the result as it was, which is then no number to go on with.
  ghost predicate Product(c: Bigint, a: Bigint, b: Bigint)
    reads c, a, b
    requires a.wds <= |a.x| && b.wds <= |b.x|
  {
    && c.Sized() && c.wds <= |c.x| && c.Value() == a.Value() * b.Value() && c.wds == Len(c.Value())
    && (a.wds > 0 || b.wds > 0 ==> c.Trim()) && (c.Value() > 0 ==> c.Normal())
  }

  method ProductInto(c: Bigint, a: Bigint, b: Bigint)
    requires c != a && c != b && a.Ok() && b.Ok() && b.wds <= a.wds
    requires c.Sized() && a.wds + b.wds <= |c.x|
    modifies c`x, c`wds
    ensures Product(c, a, b)
  {
    var wc := a.wds + b.wds;
    c.x := seq(wc, i => 0) + c.x[wc..];
    MulRows(c, a, b);
    var wds := StripZeros(c.x, wc);
    c.wds := wds;
    LenOfDigits(c.x, wds);
  }

  // The longer operand is passed first.
  method MultOrdered(pool: Pool, a: Bigint, b: Bigint) returns (c: Bigint)
    requires pool.FreeOk() && a !in pool.freeSet && b !in pool.freeSet
    requires a.Ok() && b.Ok() && b.wds <= a.wds && ProductClass(a.k, a.wds, b.k, b.wds) <= KMAX
    modifies pool.freelist, pool.freeSet, pool`free, pool`freeSet
    ensures pool.FreeOk() && c !in pool.freeSet && c.k <= KMAX && c != a && c != b
    ensures c.k == ProductClass(a.k, a.wds, b.k, b.wds)
    ensures fresh(c) || c in old(pool.freeSet)
    ensures pool.freeSet == old(pool.freeSet) - {c}
    ensures Product(c, a, b)
  {
    var wc := a.wds + b.wds;
    assert Pow(2, a.k + 1) == 2 * Pow(2, a.k);
    c := pool.Balloc(if wc > |a.x| then a.k + 1 else a.k);
    ProductInto(c, a, b);
  }

  method Mult(pool: Pool, a: Bigint, b: Bigint) returns (c: Bigint)
    requires pool.FreeOk() && a !in pool.freeSet && b !in pool.freeSet
    requires a.Ok() && b.Ok() && ProductClass(a.k, a.wds, b.k, b.wds) <= KMAX
    modifies pool.freelist, pool.freeSet, pool`free, pool`freeSet
    ensures pool.FreeOk() && c !in pool.freeSet && c.k <= KMAX && c != a && c != b
    ensures c.k == ProductClass(a.k, a.wds, b.k, b.wds)
    ensures fresh(c) || c in old(pool.freeSet)
    ensures pool.freeSet == old(pool.freeSet) - {c}
    ensures Product(c, a, b)
  {
    if a.wds < b.wds {
      c := MultOrdered(pool, b, a);
    } else {
      c := MultOrdered(pool, a, b);
    }
  }
}

/** cmp and diff: three-way comparison and signed absolute difference. */
module Compare {
  import opened Basics
  import opened Words
  import opened Bigints

  // Numbers without leading zeros: fewer digits, smaller value.  The single digit 0 is
  // the one exception, and equals the empty number.
  lemma ShorterIsSmaller(x: seq<nat>, n: nat, y: seq<nat>, m: nat)
    requires n < m && n <= |x| && m <= |y| && Digits(x, n) && Digits(y, m)
    requires m > 1 ==> y[m - 1] > 0
    ensures Val(x, n) < Val(y, m) || (n == 0 && m == 1 && Val(x, n) == Val(y, m) == 0)
  {
    ValBound(x, n);
    if m > 1 {
      ValLowerBound(y, m);
      PowMonotone(BASE, n, m - 1);
    }
  }

  lemma {:induction false} SameTop(x: seq<nat>, y: seq<nat>, i: nat, n: nat)
    requires i <= n && n <= |x| && n <= |y|
    requires forall j :: i <= j < n ==> x[j] == y[j]
    ensures Val(x, n) - Val(y, n) == Val(x, i) - Val(y, i)
  {
    if i < n { SameTop(x, y, i, n - 1); }
  }

  lemma SmallerTop(x: seq<nat>, y: seq<nat>, i: nat)
    requires i < |x| && i < |y| && Digits(x, i) && x[i] < y[i]
    ensures Val(x, i + 1) < Val(y, i + 1)
  {
    ValBound(x, i);
    var p := Pow(BASE, i);
    MulLe(x[i] + 1, y[i], p);
    assert (x[i] + 1) * p == x[i] * p + p;
  }

  lemma FirstDifference(x: seq<nat>, y: seq<nat>, i: nat, n: nat)
    requires i < n && n <= |x| && n <= |y| && Digits(x, n) && Digits(y, n)
    requires x[i] != y[i] && forall j :: i < j < n ==> x[j] == y[j]
    ensures x[i] < y[i] ==> Val(x, n) < Val(y, n)
    ensures x[i] > y[i] ==> Val(x, n) > Val(y, n)
  {
    SameTop(x, y, i + 1, n);
    if x[i] < y[i] { SmallerTop(x, y, i); } else { SmallerTop(y, x, i); }
  }

  // The sign of a - b, except that zero written with no digits sorts below zero written
  // with one: the comparison of digit counts comes first.
  method Cmp(a: Bigint, b: Bigint) returns (r: int)
    requires a.Trim() && b.Trim() && (a.wds > 0 || b.wds > 0)
    ensures a.Value() < b.Value() ==> r < 0
    ensures a.Value() > b.Value() ==> r > 0
    ensures a.Value() == b.Value() ==> r == a.wds - b.wds
    ensures a.Value() == b.Value() && a.wds > 0 && b.wds > 0 ==> r == 0
  {
    var n := a.wds;
    if n != b.wds {
      if n < b.wds { ShorterIsSmaller(a.x, n, b.x, b.wds); } else { ShorterIsSmaller(b.x, b.wds, a.x, n); }
      return n - b.wds;
    }
    var i := n;
    while i > 0
      invariant 0 <= i <= n
      invariant forall j :: i <= j < n ==> a.x[j] == b.x[j]
    {
      i := i - 1;
      if a.x[i] != b.x[i] {
        FirstDifference(a.x, b.x, i, n);
        return if a.x[i] < b.x[i] then -1 else 1;
      }
    }
    ValAgree(a.x, b.x, n);
    return 0;
  }

  // The digits of the difference below position i, with a borrow of 0 or -1 due there.
  ghost predicate Borrowed(c: seq<nat>, i: nat, borrow: int, d: int) {
    i <= |c| && Digits(c, i) && -1 <= borrow <= 0 && Val(c, i) + borrow * Pow(BASE, i) == d
  }

  lemma BorrowTerms(da: int, db: int, borrow: int, p: int)
    requires 0 <= da < BASE && 0 <= db < BASE && -1 <= borrow <= 0
    ensures -1 <= (da - db + borrow) / BASE <= 0 <= (da - db + borrow) % BASE < BASE
    ensures (da - db + borrow) * p == da * p - db * p + borrow * p
  {
    Distribute(da - db, borrow, p);
    Separate(da, db, p);
  }

  // One digit position of a - b.
  lemma BorrowStep(c: seq<nat>, i: nat, va: int, vb: int, da: int, db: int, borrow: int)
    requires i < |c| && 0 <= da < BASE && 0 <= db < BASE && Borrowed(c, i, borrow, va - vb)
    ensures var y := da - db + borrow;
      && 0 <= y % BASE < BASE
      && Borrowed(c[i := y % BASE], i + 1, y / BASE, va + da * Pow(BASE, i) - (vb + db * Pow(BASE, i)))
  {
    var y := da - db + borrow;
    var p := Pow(BASE, i);
    ValAgree(c, c[i := y % BASE], i);
    CarrySplit(y, p);
    BorrowTerms(da, db, borrow, p);
  }

  // A do-while loop reads one digit of a number without digits; it is zero.
  ghost function Reads(b: Bigint): (n: nat)
    reads b
    requires b.Ok()
    ensures n <= |b.x|
  {
    if b.wds == 0 then 1 else b.wds
  }

  lemma ReadsValue(b: Bigint)
    requires b.Ok()
    ensures Val(b.x, Reads(b)) == b.Value()
  {
    if b.wds == 0 { assert Val(b.x, 1) == Val(b.x, 0) + b.x[0] * Pow(BASE, 0); }
  }

  // The second loop: a's digits beyond the end of b, whose value is vb.
  method SubRest(c: Bigint, a: Bigint, i0: nat, borrow0: int, ghost vb: nat) returns (borrow: int)
    requires a != c && a.Ok() && i0 <= a.wds <= |c.x| && Borrowed(c.x, i0, borrow0, Val(a.x, i0) - vb)
    modifies c`x
    ensures |c.x| == old(|c.x|) && Borrowed(c.x, a.wds, borrow, a.Value() - vb)
  {
    borrow := borrow0;
    var i := i0;
    while i < a.wds
      invariant i0 <= i <= a.wds && |c.x| == old(|c.x|) && Borrowed(c.x, i, borrow, Val(a.x, i) - vb)
    {
      var y := a.x[i] + borrow;
      BorrowStep(c.x, i, Val(a.x, i), vb, a.x[i], 0, borrow);
      borrow := y / BASE;
      c.x := c.x[i := y % BASE];
      i := i + 1;
    }
  }

  lemma NoBorrowLeft(c: seq<nat>, n: nat, borrow: int, d: nat)
    requires Borrowed(c, n, borrow, d)
    ensures Val(c, n) == d
  {
    ValBound(c, n);
    if borrow < 0 { MulLe(borrow, -1, Pow(BASE, n)); }
  }

  // The larger is passed first.  The digit loop of diff; b is read as zero beyond its end.
  method SubDigits(c: Bigint, a: Bigint, b: Bigint)
    requires a != c && c != b && a.Normal() && b.Trim() && b.wds <= a.wds <= |c.x|
    requires a.Value() >= b.Value()
    modifies c`x
    ensures |c.x| == old(|c.x|) && Digits(c.x, a.wds)
    ensures Val(c.x, a.wds) == a.Value() - b.Value()
  {
    var borrow: int, i := 0, 0;
    while i == 0 || i < b.wds
      invariant 0 <= i <= a.wds && i <= Reads(b) && |c.x| == old(|c.x|)
      invariant Borrowed(c.x, i, borrow, Val(a.x, i) - Val(b.x, i))
      decreases Reads(b) - i
    {
      var y := a.x[i] - b.x[i] + borrow;
      BorrowStep(c.x, i, Val(a.x, i), Val(b.x, i), a.x[i], b.x[i], borrow);
      borrow := y / BASE;
      c.x := c.x[i := y % BASE];
      i := i + 1;
    }
    ReadsValue(b);
    borrow := SubRest(c, a, i, borrow, b.Value());
    NoBorrowLeft(c.x, a.wds, borrow, a.Value() - b.Value());
  }

  // Leading zeros are dropped from the top; the caller knows that a nonzero digit stops it.
  method DropLeadingZeros(x: seq<nat>, n: nat) returns (wa: nat)
    requires n <= |x| && Digits(x, n) && Val(x, n) > 0
    ensures 0 < wa <= n && x[wa - 1] > 0 && Val(x, wa) == Val(x, n)
  {
    wa := n;
    if forall i :: 0 <= i < n ==> x[i] == 0 { ValZeros(x, 0, n); }
    while x[wa - 1] == 0
      invariant 0 < wa <= n
      invariant forall i :: wa <= i < n ==> x[i] == 0
      decreases wa
    {
      wa := wa - 1;
      if wa == 0 { ValZeros(x, 0, n); }
    }
    ValZeros(x, wa, n);
  }

  method SubTrimmed(c: Bigint, a: Bigint, b: Bigint)
    requires a != c && c != b && a.Normal() && b.Trim() && b.wds <= a.wds && c.Sized() && |c.x| == |a.x|
    requires a.Value() > b.Value()
    modifies c`x, c`wds
    ensures c.Normal() && c.Value() == a.Value() - b.Value()
  {
    SubDigits(c, a, b);
    var wa := DropLeadingZeros(c.x, a.wds);
    c.wds := wa;
  }

  // The part of diff after the operands have been put in order.
  method DiffOrdered(pool: Pool, a: Bigint, b: Bigint, sign: nat) returns (c: Bigint)
    requires pool.FreeOk() && a !in pool.freeSet && b !in pool.freeSet
    requires a.Normal() && b.Trim() && a.k <= KMAX && a.Value() > b.Value()
    modifies pool.freelist, pool.freeSet, pool`free, pool`freeSet
    ensures pool.FreeOk() && c !in pool.freeSet && c.k <= KMAX && c != a && c != b
    ensures fresh(c) || c in old(pool.freeSet)
    ensures pool.freeSet == old(pool.freeSet) - {c}
    ensures c.Normal() && c.Value() == a.Value() - b.Value() && c.sign == sign
  {
    if a.wds < b.wds { ShorterIsSmaller(a.x, a.wds, b.x, b.wds); }
    c := pool.Balloc(a.k);
    c.sign := sign;
    SubTrimmed(c, a, b);
  }

  // Zeros must both be written with a digit: for two without, cmp reads in front of the
  // digits, and for one of each, the search for the top digit of the difference does.
  method Diff(pool: Pool, a: Bigint, b: Bigint) returns (c: Bigint)
    requires pool.FreeOk() && a !in pool.freeSet && b !in pool.freeSet
    requires a.Trim() && b.Trim() && a.k <= KMAX && b.k <= KMAX
    requires a.Value() != b.Value() || (a.wds > 0 && b.wds > 0)
    modifies pool.freelist, pool.freeSet, pool`free, pool`freeSet
    ensures pool.FreeOk() && c !in pool.freeSet && c.k <= KMAX && c != a && c != b
    ensures fresh(c) || c in old(pool.freeSet)
    ensures pool.freeSet == old(pool.freeSet) - {c}
    ensures c.Normal()
    ensures c.Value() == if a.Value() < b.Value() then b.Value() - a.Value() else a.Value() - b.Value()
    ensures c.sign == if a.Value() < b.Value() then 1 else 0
  {
    var i := Cmp(a, b);
    if i == 0 {
      c := pool.Balloc(0);
      c.wds := 1;
      c.x := c.x[0 := 0];
      ValZeros(c.x, 0, 1);
    } else if i < 0 {
      c := DiffOrdered(pool, b, a, 1);
    } else {
      c := DiffOrdered(pool, a, b, 0);
    }
  }
}

/** quorem: one quotient digit and the remainder, in place.  The divisor's top digit has
    twelve bits, so the one-digit estimate is right or one too small. */
module Quorem {
  import opened Basics
  import opened Words
  import opened Bigints
  import Compare

  ghost predicate SubInv(b: seq<nat>, b0: seq<nat>, s: seq<nat>, i: nat, q: nat, carry: nat, borrow: int)
    requires i <= |b| && i <= |b0| && i <= |s|
  {
    Val(b, i) + (borrow - carry) * Pow(BASE, i) == Val(b0, i) - q * Val(s, i)
  }

  lemma SubAlgebra(v: int, d: int, q: int, e: int, carry: int, borrow: int,
                   lo: int, hi: int, ylo: int, yhi: int, p: int)
    requires lo * p + hi * (BASE * p) == (d * q + carry) * p
    requires ylo * p + yhi * (BASE * p) == (e - lo + borrow) * p
    ensures ylo * p + (yhi - hi) * (BASE * p) - (borrow - carry) * p == e * p - q * (d * p)
    ensures q * (v + d * p) == q * v + q * (d * p)
  {
    assert (e - lo + borrow) * p == e * p - lo * p + borrow * p;
    assert (d * q + carry) * p == q * (d * p) + carry * p;
    assert (yhi - hi) * (BASE * p) == yhi * (BASE * p) - hi * (BASE * p);
    assert (borrow - carry) * p == borrow * p - carry * p;
  }

  lemma SubStep(b: seq<nat>, b0: seq<nat>, s: seq<nat>, i: nat, q: nat, carry: nat, borrow: int, ys: nat, y: int)
    requires i < |b| == |b0| && i < |s| && b[i] == b0[i] < BASE && s[i] < BASE && q < BASE
    requires carry < BASE && -1 <= borrow <= 0
    requires SubInv(b, b0, s, i, q, carry, borrow)
    requires ys == s[i] * q + carry && y == b[i] - ys % BASE + borrow
    ensures ys < WORD32 && ys / BASE < BASE && -1 <= y / BASE <= 0
    ensures SubInv(b[i := y % BASE], b0, s, i + 1, q, ys / BASE, y / BASE)
  {
    MulLe(s[i], BASE - 1, q);
    var p := Pow(BASE, i);
    ValAgree(b, b[i := y % BASE], i);
    CarrySplit(y, p);
    CarrySplit(ys, p);
    SubAlgebra(Val(s, i), s[i], q, b[i], carry, borrow, ys % BASE, ys / BASE, y % BASE, y / BASE, p);
  }

  // Neither a borrow nor a carry leaves the top digit when the difference is not negative.
  lemma NothingLeft(carry: nat, borrow: int, p: int, v: int)
    requires -1 <= borrow <= 0 && 0 <= v < p && v + (borrow - carry) * p >= 0
    ensures carry == 0 && borrow == 0
  {
    if borrow - carry < 0 { MulLe(borrow - carry, -1, p); }
  }

  // The digit loop b -= q * S; the carry of q * S and the borrow of the difference run along
  // together.  The second loop of quorem is this one with q = 1.
  method SubScaled(b: Bigint, S: Bigint, q: nat)
    requires b != S && b.Ok() && S.Ok() && b.wds == S.wds > 0 && q < BASE
    requires q * S.Value() <= b.Value()
    modifies b`x
    ensures |b.x| == old(|b.x|) && Digits(b.x, b.wds)
    ensures Val(b.x, b.wds) == old(b.Value()) - q * S.Value()
  {
    ghost var b0 := b.x;
    var carry, borrow, i := 0, 0, 0;
    while i == 0 || i < S.wds
      invariant 0 <= i <= S.wds && 0 <= carry < BASE && -1 <= borrow <= 0
      invariant |b.x| == |b0| && Digits(b.x, i)
      invariant forall t :: i <= t < |b0| ==> b.x[t] == b0[t]
      invariant SubInv(b.x, b0, S.x, i, q, carry, borrow)
      decreases S.wds - i
    {
      var ys := S.x[i] * q + carry;
      var y := b.x[i] - ys % BASE + borrow;
      SubStep(b.x, b0, S.x, i, q, carry, borrow, ys, y);
      b.x := b.x[i := y % BASE];
      carry, borrow := ys / BASE, y / BASE;
      i := i + 1;
    }
    ValBound(b.x, i);
    NothingLeft(carry, borrow, Pow(BASE, i), Val(b.x, i));
  }

  // n is the index of the top digit.
  method TrimTop(b: Bigint)
    requires b.Sized() && 0 < b.wds <= |b.x| && Digits(b.x, b.wds)
    modifies b`wds
    ensures b.Trim() && b.wds <= old(b.wds)
    ensures b.Value() == old(b.Value())
    ensures b.x[old(b.wds) - 1] == 0 ==> b.wds < old(b.wds)
    ensures b.x[old(b.wds) - 1] > 0 ==> b.wds == old(b.wds)
    ensures old(b.wds) > 1 ==> b.wds > 0
  {
    var n := b.wds - 1;
    if b.x[n] == 0 {
      var bxe := n - 1;
      while bxe > 0 && b.x[bxe] == 0
        invariant bxe == n - 1 && n < b.wds && -1 <= bxe && (b.wds > 1 ==> n > 0)
        invariant forall t :: n <= t < b.wds ==> b.x[t] == 0
        decreases n
      {
        n := n - 1;
        bxe := bxe - 1;
      }
      ValZeros(b.x, n, b.wds);
      b.wds := n;
    }
  }

  lemma DivBounds(a: nat, d: nat, q: nat)
    requires d > 0 && q == a / d
    ensures q * d <= a <= q * d + d - 1
  {
  }

  lemma EstimateTop(bv: nat, sv: nat, bt: nat, st: nat, p: nat, q: nat)
    requires bt * p <= bv < 10 * sv && sv < st * p + p && q * (st + 1) <= bt
    ensures q <= 9
  {
    assert 10 * (st + 1) * p == 10 * (st * p + p);
    if q >= 10 {
      MulLe(10, q, st + 1);
      MulLe(10 * (st + 1), bt, p);
    }
  }

  lemma EstimateLow(bv: nat, sv: nat, bt: nat, st: nat, p: nat, q: nat)
    requires bt * p <= bv && sv < st * p + p && q * (st + 1) <= bt
    ensures q * sv <= bv
  {
    MulLe(q * (st + 1), bt, p);
    MulLe(sv, (st + 1) * p, q);
    assert ((st + 1) * p) * q == q * (st + 1) * p;
    assert (st + 1) * p == st * p + p;
  }

  lemma Rearrange(a: int, b: int, p: int)
    ensures (b * p) * a == (a * b) * p
  {
  }

  lemma EstimateHigh(bv: nat, sv: nat, bt: nat, st: nat, p: nat, q: nat)
    requires bv < bt * p + p && st * p <= sv && q <= 9 && bt <= q * (st + 1) + st && st >= 2048
    ensures bv < q * sv + 2 * sv
  {
    assert q * (st + 1) == q * st + q;
    assert bt + 1 <= (q + 2) * st;
    MulLe(bt + 1, (q + 2) * st, p);
    MulLe(st * p, sv, q + 2);
    Rearrange(q + 2, st, p);
    assert (bt + 1) * p == bt * p + p;
  }

  // The quotient of the top digits against the divisor's top digit plus one: with a
  // twelve-bit top digit and a quotient below ten, it is the quotient or one less.
  lemma Estimate(bv: nat, sv: nat, bt: nat, st: nat, p: nat, q: nat)
    requires p > 0 && 2048 <= st < 4096 && bv < 10 * sv && q == bt / (st + 1)
    requires bt * p <= bv < bt * p + p && st * p <= sv < st * p + p
    ensures q * sv <= bv < q * sv + 2 * sv
    ensures q <= 9
  {
    DivBounds(bt, st + 1, q);
    EstimateLow(bv, sv, bt, st, p, q);
    EstimateTop(bv, sv, bt, st, p, q);
    EstimateHigh(bv, sv, bt, st, p, q);
  }

  lemma TopDigitBounds(x: seq<nat>, n: nat)
    requires 0 < n <= |x| && Digits(x, n)
    ensures x[n - 1] * Pow(BASE, n - 1) <= Val(x, n) < x[n - 1] * Pow(BASE, n - 1) + Pow(BASE, n - 1)
    ensures Pow(BASE, n - 1) > 0
  {
    ValBound(x, n - 1);
    PowPositive(BASE, n - 1);
  }

  lemma TenTimes(d: nat, p: nat)
    requires d < 4096
    ensures 10 * (d * p + p) <= BASE * p
  {
    MulLe(d, 4095, p);
  }

  // A dividend below ten times the divisor has no more digits than the divisor.
  lemma DividendFits(x: seq<nat>, m: nat, s: seq<nat>, n: nat)
    requires m <= |x| && 0 < n <= |s| && Digits(s, n) && s[n - 1] < 4096
    requires m > 1 ==> x[m - 1] > 0
    requires Val(x, m) < 10 * Val(s, n)
    ensures m <= n
  {
    if m > n {
      ValLowerBound(x, m);
      PowMonotone(BASE, n, m - 1);
      TopDigitBounds(s, n);
      TenTimes(s[n - 1], Pow(BASE, n - 1));
    }
  }

  // q in the source: never above the true quotient.
  function TopQuotient(bt: nat, st: nat): nat
  {
    bt / (st + 1)
  }

  lemma EstimateDigits(x: seq<nat>, s: seq<nat>, n: nat, q: nat)
    requires 0 < n <= |x| && n <= |s| && Digits(x, n) && Digits(s, n) && 2048 <= s[n - 1] < 4096
    requires Val(x, n) < 10 * Val(s, n) && q == TopQuotient(x[n - 1], s[n - 1])
    ensures q * Val(s, n) <= Val(x, n) < q * Val(s, n) + 2 * Val(s, n)
    ensures q <= 9
  {
    TopDigitBounds(x, n);
    TopDigitBounds(s, n);
    var bv, sv, bt, st, p := Val(x, n), Val(s, n), x[n - 1], s[n - 1], Pow(BASE, n - 1);
    Estimate(bv, sv, bt, st, p, q);
  }

  method EstimateDigit(b: Bigint, S: Bigint) returns (q: nat)
    requires b.Ok() && S.Ok() && b.wds == S.wds > 0 && 2048 <= S.x[S.wds - 1] < 4096
    requires b.Value() < 10 * S.Value()
    ensures q * S.Value() <= b.Value() < q * S.Value() + 2 * S.Value()
    ensures q <= 9
  {
    var n := S.wds - 1;
    q := TopQuotient(b.x[n], S.x[n]);
    EstimateDigits(b.x, S.x, S.wds, q);
  }

  lemma QuotientDigit(v: nat, s: nat, q0: nat, r0: nat, q: nat)
    requires v == q0 * s + r0 && v < 10 * s && q == q0 + (if r0 >= s then 1 else 0)
    ensures v == q * s + (if r0 >= s then r0 - s else r0)
    ensures q <= 9
  {
    assert (q0 + 1) * s == q0 * s + s;
    if q >= 10 { MulLe(10, q, s); }
  }

  // A remainder of zero is left without digits exactly when the divisor has a single one.
  ghost predicate ZeroForm(b: Bigint, S: Bigint)
    reads b, S
    requires b.wds <= |b.x|
  {
    b.Value() == 0 ==> (b.wds == 0 <==> S.wds == 1)
  }

  lemma LeadingZero(b: Bigint)
    requires b.Ok() && b.Value() == 0 && b.wds > 0
    ensures b.x[b.wds - 1] == 0
  {
    if b.x[b.wds - 1] > 0 {
      ValLowerBound(b.x, b.wds);
      PowPositive(BASE, b.wds - 1);
    }
  }

  // b, of as many digits as S, is trimmed.
  method TrimRemainder(b: Bigint, S: Bigint)
    requires b != S && b.Sized() && 0 < b.wds == S.wds <= |b.x| && Digits(b.x, b.wds)
    modifies b`wds
    ensures b.Trim() && b.wds <= S.wds && b.Value() == old(b.Value()) && ZeroForm(b, S)
  {
    if b.Value() == 0 { LeadingZero(b); }
    TrimTop(b);
  }

  // The single correction step.
  method Correct(b: Bigint, S: Bigint, q0: nat) returns (q: nat)
    requires b != S && b.Trim() && S.Normal() && b.Value() < 2 * S.Value() && b.wds <= S.wds
    modifies b`x, b`wds
    ensures b.Trim() && b.Value() < S.Value() && (old(ZeroForm(b, S)) ==> ZeroForm(b, S))
    ensures q == q0 + (if old(b.Value()) >= S.Value() then 1 else 0)
    ensures b.Value() == old(b.Value()) - (if old(b.Value()) >= S.Value() then S.Value() else 0)
  {
    q := q0;
    var c := Compare.Cmp(b, S);
    if c >= 0 {
      if b.wds < S.wds { Compare.ShorterIsSmaller(b.x, b.wds, S.x, S.wds); }
      q := q + 1;
      SubScaled(b, S, 1);
      TrimRemainder(b, S);
    }
  }

  method QuoRem(b: Bigint, S: Bigint) returns (q: nat)
    requires b != S && b.Trim() && S.Normal() && 2048 <= S.x[S.wds - 1] < 4096
    requires b.Value() < 10 * S.Value()
    modifies b`x, b`wds
    ensures b.Trim()
    ensures q <= 9 && old(b.Value()) == q * S.Value() + b.Value() && b.Value() < S.Value()
    ensures old(b.Value()) > 0 ==> ZeroForm(b, S)
  {
    DividendFits(b.x, b.wds, S.x, S.wds);
    if b.wds < S.wds {
      Compare.ShorterIsSmaller(b.x, b.wds, S.x, S.wds);
      return 0;
    }
    q := EstimateDigit(b, S);
    ghost var q0 := q;
    if q != 0 {
      SubScaled(b, S, q);
      TrimRemainder(b, S);
    }
    ghost var r0 := b.Value();
    q := Correct(b, S, q);
    QuotientDigit(old(b.Value()), S.Value(), q0, r0, q);
  }
}

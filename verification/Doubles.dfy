/**
 * Double-precision numbers as reals: their neighbours, and which reals read back as one of
 * them (IEEE 754, rounding to nearest).
 */
module Doubles {
  import opened Basics
  import opened Words

  ghost function Two(e: int): real
    decreases if e < 0 then -e else e
  {
    if e == 0 then 1.0 else if e > 0 then 2.0 * Two(e - 1) else Two(e + 1) / 2.0
  }

  // n times u, as a sum, so that everything below is linear.
  ghost function Times(n: nat, u: real): real {
    if n == 0 then 0.0 else Times(n - 1, u) + u
  }

  lemma {:induction false} TimesReal(n: nat, u: real)
    ensures Times(n, u) == n as real * u
  {
    if n > 0 { TimesReal(n - 1, u); }
  }

  lemma {:induction false} TimesAdd(n: nat, m: nat, u: real)
    ensures Times(n + m, u) == Times(n, u) + Times(m, u)
    decreases m
  {
    if m > 0 { TimesAdd(n, m - 1, u); }
  }

  lemma {:induction false} TimesTimes(n: nat, m: nat, u: real)
    ensures Times(n * m, u) == Times(n, Times(m, u))
  {
    if n == 0 {
      assert n * m == 0;
    } else {
      TimesTimes(n - 1, m, u);
      TimesAdd((n - 1) * m, m, u);
      assert n * m == (n - 1) * m + m;
    }
  }

  lemma {:induction false} TimesPositive(n: nat, u: real)
    requires u > 0.0
    ensures Times(n, u) >= 0.0 && (n > 0 ==> Times(n, u) >= u)
  {
    if n > 0 { TimesPositive(n - 1, u); }
  }

  lemma TimesOrder(a: nat, b: nat, u: real)
    requires u > 0.0
    ensures a <= b <==> Times(a, u) <= Times(b, u)
    ensures a < b ==> Times(a, u) + u <= Times(b, u)
  {
    if a <= b {
      TimesAdd(a, b - a, u);
      TimesPositive(b - a, u);
    } else {
      TimesAdd(b, a - b, u);
      TimesPositive(a - b, u);
    }
  }

  lemma TimesCancel(n: nat, x: real, y: real)
    requires n > 0 && Times(n, x) == Times(n, y)
    ensures x == y
  {
    TimesReal(n, x);
    TimesReal(n, y);
    assert x == n as real * x / n as real == n as real * y / n as real == y;
  }

  // An n-th part.
  lemma Part(n: nat, x: real) returns (u: real)
    requires n > 0
    ensures Times(n, u) == x && (x > 0.0 ==> u > 0.0)
  {
    u := x / n as real;
    TimesReal(n, u);
  }

  lemma {:induction false} TwoPositive(e: int)
    ensures Two(e) > 0.0
    decreases if e < 0 then -e else e
  {
    if e > 0 { TwoPositive(e - 1); }
    if e < 0 { TwoPositive(e + 1); }
  }

  lemma TwoStep(e: int)
    ensures Two(e + 1) == 2.0 * Two(e)
  {
  }

  lemma {:induction false} TwoScale(e: int, k: nat)
    ensures Two(e + k) == Times(Pow(2, k), Two(e))
    decreases k
  {
    if k == 0 {
      assert Pow(2, 0) == 1;
    } else {
      TwoScale(e, k - 1);
      TwoStep(e + k - 1);
      TimesAdd(Pow(2, k - 1), Pow(2, k - 1), Two(e));
    }
  }

  const HIDDEN: nat := 0x10_0000_0000_0000

  lemma HiddenPower()
    ensures Pow(2, 52) == HIDDEN && Pow(2, 53) == 2 * HIDDEN
  {
    assert Pow(2, 4) == 16 && Pow(2, 8) == 256;
    PowAdd(2, 8, 8);
    PowAdd(2, 16, 16);
    PowAdd(2, 32, 16);
    PowAdd(2, 48, 4);
    PowAdd(2, 52, 1);
  }

  const MIN_EXP := -1074
  const BIAS := 1023
  const PRECISION := 53

  // A mantissa and an exponent as IEEE 754 stores them; the range has no upper end, as in the
  // definition of rounding there.
  predicate Form(F: nat, q: int) {
    q >= MIN_EXP && F < 2 * HIDDEN && (q > MIN_EXP ==> F >= HIDDEN)
  }

  ghost function Value(F: nat, q: int): real {
    Times(F, Two(q))
  }

  // The distance to the next number below.
  ghost function GapBelow(F: nat, q: int): real {
    if F == HIDDEN && q > MIN_EXP then Two(q - 1) else Two(q)
  }

  lemma OnGrid(F: nat, q: int, r: int)
    requires r <= q
    ensures Value(F, q) == Times(F * Pow(2, q - r), Two(r))
  {
    TwoScale(r, q - r);
    TimesTimes(F, Pow(2, q - r), Two(r));
  }

  // Numbers with a larger exponent lie on the same grid.
  lemma CoarserNeighbour(F: nat, q: int, G: nat, r: int)
    requires r >= q
    ensures Value(G, r) > Value(F, q) ==> Value(G, r) >= Value(F, q) + Two(q)
    ensures Value(G, r) < Value(F, q) ==> Value(G, r) <= Value(F, q) - Two(q)
  {
    OnGrid(G, r, q);
    TwoPositive(q);
    TimesOrder(F, G * Pow(2, r - q), Two(q));
    TimesOrder(G * Pow(2, r - q), F, Two(q));
  }

  lemma FinerGrid(F: nat, G: nat, h: nat)
    requires HIDDEN <= F && G < 2 * HIDDEN && h > 0
    ensures G <= F * (2 * h) - if F == HIDDEN then h else 2 * h
  {
    if F == HIDDEN {
      MulLe(1, h, 2 * HIDDEN - 1);
    } else {
      MulLe(HIDDEN, F - 1, 2 * h);
      MulLe(1, h, 2 * HIDDEN);
    }
  }

  // Numbers with a smaller one are smaller.
  lemma FinerNeighbour(F: nat, q: int, G: nat, r: int)
    requires Form(F, q) && Form(G, r) && r < q
    ensures Value(G, r) <= Value(F, q) - GapBelow(F, q)
  {
    var h, d := Pow(2, q - 1 - r), Pow(2, q - r) - if F == HIDDEN then Pow(2, q - 1 - r) else 0;
    PowPositive(2, q - 1 - r);
    TwoPositive(r);
    OnGrid(F, q, r);
    TwoScale(r, q - r);
    TwoScale(r, q - 1 - r);
    assert Pow(2, q - r) == 2 * h;
    FinerGrid(F, G, h);
    TimesOrder(G, F * (2 * h) - d, Two(r));
    TimesAdd(F * (2 * h) - d, d, Two(r));
  }

  lemma GapPositive(F: nat, q: int)
    ensures 0.0 < GapBelow(F, q) <= Two(q)
  {
    TwoPositive(q);
    TwoPositive(q - 1);
    TwoStep(q - 1);
  }

  lemma Neighbour(F: nat, q: int, G: nat, r: int)
    requires Form(F, q) && Form(G, r)
    ensures Value(G, r) > Value(F, q) ==> Value(G, r) >= Value(F, q) + Two(q)
    ensures Value(G, r) < Value(F, q) ==> Value(G, r) <= Value(F, q) - GapBelow(F, q)
  {
    GapPositive(F, q);
    if r >= q { CoarserNeighbour(F, q, G, r); } else { FinerNeighbour(F, q, G, r); }
  }

  lemma NextAbove(F: nat, q: int) returns (G: nat, r: int)
    requires Form(F, q)
    ensures Form(G, r) && Value(G, r) == Value(F, q) + Two(q)
  {
    if F + 1 < 2 * HIDDEN {
      G, r := F + 1, q;
    } else {
      G, r := HIDDEN, q + 1;
      OnGrid(HIDDEN, q + 1, q);
      assert Pow(2, 0) == 1 && Pow(2, 1) == 2;
    }
  }

  lemma NextBelow(F: nat, q: int) returns (G: nat, r: int)
    requires Form(F, q) && F > 0
    ensures Form(G, r) && Value(G, r) == Value(F, q) - GapBelow(F, q)
  {
    if F == HIDDEN && q > MIN_EXP {
      G, r := 2 * HIDDEN - 1, q - 1;
      OnGrid(HIDDEN, q, q - 1);
      assert Pow(2, 0) == 1 && Pow(2, 1) == 2;
    } else {
      G, r := F - 1, q;
    }
  }

  function Distance(x: real, y: real): real {
    if x < y then y - x else x - y
  }

  // x read in and rounded to nearest, ties to the even mantissa, is this number.
  ghost predicate Reads(x: real, F: nat, q: int) {
    forall G: nat, r: int :: Form(G, r) && Value(G, r) != Value(F, q) ==>
      var near, far := Distance(x, Value(F, q)), Distance(x, Value(G, r));
      near < far || (near == far && F % 2 == 0)
  }

  // No farther than lo below v or hi above it; the ends belong to it when it is closed.
  predicate Within(x: real, v: real, lo: real, hi: real, closed: bool) {
    v - lo <= x <= v + hi && (!closed ==> v - lo < x < v + hi)
  }

  // Those are the numbers no farther than halfway to the neighbours.
  lemma ReadsExactly(x: real, F: nat, q: int)
    requires Form(F, q) && F > 0
    ensures Reads(x, F, q) <==> Within(x, Value(F, q), GapBelow(F, q) / 2.0, Two(q) / 2.0, F % 2 == 0)
  {
    GapPositive(F, q);
    if Within(x, Value(F, q), GapBelow(F, q) / 2.0, Two(q) / 2.0, F % 2 == 0) {
      forall G: nat, r: int | Form(G, r) && Value(G, r) != Value(F, q)
        ensures var near, far := Distance(x, Value(F, q)), Distance(x, Value(G, r));
          near < far || (near == far && F % 2 == 0)
      {
        Neighbour(F, q, G, r);
      }
    } else {
      var G, r := NextAbove(F, q);
      var G', r' := NextBelow(F, q);
      assert Form(G, r) && Form(G', r');
    }
  }
}

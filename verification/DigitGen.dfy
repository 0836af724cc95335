/** The digit loops of __dtoa on Bigints: fixed-length and shortest. */
module DigitGen {
  import opened Words
  import opened Bigints
  import opened DigitTheory
  import Compare
  import MultAdds
  import ShiftLeft
  import Quorem
  import RoundOff

  // S as the scaling leaves it: twelve bits in the top digit, and room to grow by one digit.
  ghost predicate Divisor(S: Bigint)
    reads S
  {
    S.Normal() && 2048 <= S.x[S.wds - 1] < 4096 && S.wds < Pow(2, KMAX) && S.k <= KMAX
  }

  // A number below ten times S that the pool does not own.
  ghost predicate Live(pool: Pool, b: Bigint, S: Bigint)
    reads pool, b, S
  {
    b !in pool.freeSet && S !in pool.freeSet && b != S && b.Trim() && 1 <= b.k <= KMAX && Divisor(S)
  }

  lemma Fits(x: seq<nat>, m: nat, s: seq<nat>, n: nat)
    requires m <= |x| && 0 < n <= |s| && Digits(s, n) && s[n - 1] < 4096
    requires m > 1 ==> x[m - 1] > 0
    requires Val(x, m) < 10 * Val(s, n)
    requires n < Pow(2, KMAX)
    ensures m < Pow(2, KMAX)
  {
    Quorem.DividendFits(x, m, s, n);
  }

  lemma ClassBound(k: nat, n1: nat, K: nat)
    requires k <= K && n1 <= Pow(2, K)
    ensures ShiftLeft.SizeClass(k, n1) <= K
  {
    var c := ShiftLeft.SizeClass(k, n1);
    if c > K {
      PowMonotone(2, K, c - 1);
    }
  }

  lemma TopDigitPositive(s: seq<nat>, n: nat)
    requires 0 < n <= |s| && s[n - 1] > 0
    ensures Val(s, n) > 0
  {
    ValLowerBound(s, n);
    PowPositive(BASE, n - 1);
  }

  lemma SmallerFits(b: Bigint, S: Bigint)
    requires b.Trim() && Divisor(S) && b.Value() <= S.Value() && b.k <= KMAX
    ensures b.wds < Pow(2, KMAX)
    ensures b.wds < |b.x| || b.k < KMAX
  {
    TopDigitPositive(S.x, S.wds);
    Fits(b.x, b.wds, S.x, S.wds);
  }

  // b := 10 * b.
  method TimesTen(pool: Pool, b: Bigint, S: Bigint) returns (r: Bigint)
    requires pool.FreeOk() && Live(pool, b, S) && b.Value() <= S.Value()
    modifies pool.freelist, pool.freeSet, pool`free, pool`freeSet, b
    ensures pool.FreeOk() && Live(pool, r, S) && r.Value() == 10 * old(b.Value())
    ensures r == b || fresh(r) || r in old(pool.freeSet)
    ensures pool.freeSet <= old(pool.freeSet) + {b}
    ensures old(b.wds) > 0 ==> r.wds > 0
  {
    SmallerFits(b, S);
    r := MultAdds.MultAdd(pool, b, 10, 0);
  }

  // b := 2 * b.
  method Double(pool: Pool, b: Bigint, S: Bigint) returns (r: Bigint)
    requires pool.FreeOk() && Live(pool, b, S) && b.Value() <= S.Value()
    modifies pool.freelist, pool.freeSet, pool`free, pool`freeSet, b
    ensures pool.FreeOk() && r !in pool.freeSet && r != S && r.Trim() && r.k <= KMAX
    ensures r.Value() == 2 * old(b.Value())
    ensures fresh(r) || r in old(pool.freeSet)
    ensures pool.freeSet <= old(pool.freeSet) + {b}
  {
    SmallerFits(b, S);
    ClassBound(b.k, b.wds + 1, KMAX);
    PowMonotone(2, 1, b.k);
    assert Pow(2, 1) == 2;
    r := ShiftLeft.LShift(pool, b, 1);
  }

  // With no margins the stopping tests never fire, so the fixed-length loop is the other
  // loop without them.
  ghost function Plain(b: nat, S: nat): Problem {
    Problem(b, S, 0, 0, false)
  }

  ghost predicate Dividing(v0: nat, sv: nat, ds: seq<nat>, b: nat) {
    Before(Plain(v0, sv), ds, b, 0, 0)
  }

  ghost predicate Divided(v0: nat, sv: nat, ds: seq<nat>, r: nat) {
    && ds != [] && r < sv
    && v0 * Pow(10, |ds| - 1) == ValDec(ds) * sv + r
    && Dividing(v0, sv, ds, 10 * r)
  }

  lemma PlainStep(v0: nat, sv: nat, ds: seq<nat>, v: nat, dig: nat, r: nat)
    requires Dividing(v0, sv, ds, v) && v == dig * sv + r && r < sv
    ensures Divided(v0, sv, ds + [dig], r)
    ensures ds == [] && v0 >= sv ==> dig > 0
  {
    var p := Plain(v0, sv);
    forall V: int, f: nat | f < |ds| ensures !StrictlyInside(p, V, f) { }
    Advance(p, ds, v, 0, 0, dig, r);
    Divide(p, ds, v, 0, 0, dig, r);
    Snoc(ds, dig);
    if ds == [] { assert Pow(10, 0) == 1; }
  }

  lemma LastParity(ds: seq<nat>, dig: nat)
    ensures ValDec(ds + [dig]) % 2 == dig % 2
  {
    Snoc(ds, dig);
  }

  // One digit of the fixed-length loop.
  method NextDigit(b: Bigint, S: Bigint, pool: Pool, ghost v0: nat, ghost ds: seq<nat>) returns (dig: nat)
    requires Live(pool, b, S) && Dividing(v0, S.Value(), ds, b.Value())
    modifies b`x, b`wds
    ensures Live(pool, b, S) && dig <= 9
    ensures Divided(v0, S.Value(), ds + [dig], b.Value())
    ensures ds == [] && v0 >= S.Value() ==> dig > 0
  {
    ghost var v := b.Value();
    dig := Quorem.QuoRem(b, S);
    PlainStep(v0, S.Value(), ds, v, dig, b.Value());
  }

  // Exactly ilim digits, the last remainder left in b.
  method FixedLoop(pool: Pool, b0: Bigint, S: Bigint, ilim: int) returns (b: Bigint, s: seq<nat>, dig: nat)
    requires pool.FreeOk() && Live(pool, b0, S) && ilim >= 1
    requires S.Value() <= b0.Value() < 10 * S.Value()
    modifies pool.freelist, pool.freeSet, pool`free, pool`freeSet, b0
    ensures pool.FreeOk() && Live(pool, b, S) && unchanged(S)
    ensures b == b0 || fresh(b) || b in old(pool.freeSet)
    ensures forall n :: n in pool.freeSet ==> n == b0 || n in old(pool.freeSet) || fresh(n)
    ensures |s| == ilim && Decimal(s) && s[0] > 0 && s[ilim - 1] == dig
    ensures Divided(old(b0.Value()), S.Value(), s, b.Value())
  {
    ghost var v0 := b0.Value();
    b, s, dig := b0, [], 0;
    assert Pow(10, 0) == 1;
    while true
      invariant pool.FreeOk() && Live(pool, b, S) && unchanged(S)
      invariant b == b0 || fresh(b) || b in old(pool.freeSet)
      invariant forall n :: n in pool.freeSet ==> n == b0 || n in old(pool.freeSet) || fresh(n)
      invariant |s| < ilim && Decimal(s) && (s != [] ==> s[0] > 0)
      invariant Dividing(v0, S.Value(), s, b.Value())
      decreases ilim - |s|
    {
      dig := NextDigit(b, S, pool, v0, s);
      s := s + [dig];
      if |s| >= ilim { break; }
      b := TimesTen(pool, b, S);
    }
  }

  // The integer the output stands for is the number rounded to n digits, ties to even, and
  // no trailing zero is left.
  ghost predicate RoundedOutput(out: seq<nat>, carry: nat, v0: nat, sv: nat, n: nat, N: nat) {
    && n > 0 && RoundOff.Stands(out, carry, N, n) && Rounded(N, v0 * Pow(10, n - 1), sv)
    && out != [] && out[0] > 0 && out[|out| - 1] > 0
  }

  lemma RoundingStep(v0: nat, sv: nat, s: seq<nat>, dig: nat, r: nat, up: bool)
    requires Divided(v0, sv, s, r) && s[|s| - 1] == dig
    requires up <==> 2 * r > sv || (2 * r == sv && dig % 2 == 1)
    ensures Rounded(if up then ValDec(s) + 1 else ValDec(s), v0 * Pow(10, |s| - 1), sv)
  {
    assert s == s[..|s| - 1] + [dig];
    LastParity(s[..|s| - 1], dig);
    RoundDecision(ValDec(s), dig, r, v0 * Pow(10, |s| - 1), sv, up);
  }

  // Round off last digit.
  method RoundLast(pool: Pool, b: Bigint, S: Bigint, s: seq<nat>, dig: nat, ghost v0: nat)
    returns (out: seq<nat>, carry: nat, ghost N: nat)
    requires pool.FreeOk() && Live(pool, b, S)
    requires Divided(v0, S.Value(), s, b.Value()) && Decimal(s) && s[0] > 0 && s[|s| - 1] == dig
    modifies pool.freelist, pool.freeSet, pool`free, pool`freeSet, b
    ensures pool.FreeOk() && RoundedOutput(out, carry, v0, S.Value(), |s|, N)
    ensures pool.freeSet <= old(pool.freeSet) + {b}
  {
    ghost var r, sv := b.Value(), S.Value();
    var b2 := Double(pool, b, S);
    var j := Compare.Cmp(b2, S);
    var up := j > 0 || (j == 0 && dig % 2 == 1);
    RoundingStep(v0, sv, s, dig, r, up);
    if up {
      out, carry := RoundOff.RoundUp(s);
      N := ValDec(s) + 1;
    } else {
      out := RoundOff.StripTrailingZeros(s);
      carry, N := 0, ValDec(s);
    }
  }

  // The correctly rounded decimal of ilim digits.
  method FixedDigits(pool: Pool, b0: Bigint, S: Bigint, ilim: int) returns (out: seq<nat>, carry: nat, ghost N: nat)
    requires pool.FreeOk() && Live(pool, b0, S) && ilim >= 1
    requires S.Value() <= b0.Value() < 10 * S.Value()
    modifies pool.freelist, pool.freeSet, pool`free, pool`freeSet, b0
    ensures pool.FreeOk() && unchanged(S)
    ensures forall n :: n in pool.freeSet ==> n == b0 || n in old(pool.freeSet) || fresh(n)
    ensures RoundedOutput(out, carry, old(b0.Value()), S.Value(), ilim, N)
  {
    var b, s, dig := FixedLoop(pool, b0, S, ilim);
    out, carry, N := RoundLast(pool, b, S, s, dig, old(b0.Value()));
  }
}

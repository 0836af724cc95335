/** What the two digit loops of __dtoa promise, on integers: b / S is the number, scaled so
    that its first digit is the units digit of b / S, and mlo / S, mhi / S are the distances
    to the ends of the interval of acceptable outputs. */
module DigitTheory {
  import opened Basics
  import opened Words

  function ValDec(ds: seq<nat>): nat {
    if |ds| == 0 then 0 else 10 * ValDec(ds[..|ds| - 1]) + ds[|ds| - 1]
  }

  ghost predicate Decimal(ds: seq<nat>) {
    forall i :: 0 <= i < |ds| ==> ds[i] <= 9
  }

  // Inputs of the shortest-digits loop; even says that the mode is 0 and the mantissa even,
  // when the ends of the interval are acceptable outputs too.
  datatype Problem = Problem(b: nat, S: nat, mlo: nat, mhi: nat, even: bool)

  // V / 10^e, a number with e decimals, against the interval around b / S.
  ghost predicate StrictlyInside(p: Problem, V: int, e: nat) {
    (p.b - p.mlo) * Pow(10, e) < V * p.S < (p.b + p.mhi) * Pow(10, e)
  }

  ghost predicate Acceptable(p: Problem, V: int, e: nat) {
    && (p.b - p.mlo) * Pow(10, e) <= V * p.S <= (p.b + p.mhi) * Pow(10, e)
    && (!p.even ==> StrictlyInside(p, V, e))
  }

  ghost predicate NothingShorter(p: Problem, e: nat) {
    forall V: int, f: nat :: f < e ==> !Acceptable(p, V, f)
  }

  // How far V / 10^e is from the number, in units of 1 / (S * 10^e).
  ghost function Error(p: Problem, V: int, e: nat): nat {
    var d := V * p.S - p.b * Pow(10, e);
    if d < 0 then -d else d
  }

  // No acceptable decimal of the same length is closer.
  ghost predicate Closest(p: Problem, V: int, e: nat) {
    forall U: int :: Acceptable(p, U, e) ==> Error(p, V, e) <= Error(p, U, e)
  }

  // The error is at most half a unit in the last decimal.
  ghost predicate Nearest(p: Problem, V: int, e: nat) {
    2 * p.b * Pow(10, e) - p.S <= 2 * (V * p.S) <= 2 * p.b * Pow(10, e) + p.S
  }

  // After the digits ds, with b what is still to be divided by S.
  ghost predicate Before(p: Problem, ds: seq<nat>, b: nat, mlo: nat, mhi: nat) {
    && p.b * Pow(10, |ds|) == 10 * ValDec(ds) * p.S + b
    && mlo == p.mlo * Pow(10, |ds|)
    && mhi == p.mhi * Pow(10, |ds|)
    && b < 10 * p.S
  }

  datatype Outcome = Continue | Emit(digit: nat) | RoundNineUp

  // The remainder alone, or one unit more, is acceptable.
  ghost predicate LowOk(p: Problem, r: nat, mlo: nat) {
    r < mlo || (p.even && r == mlo)
  }

  ghost predicate HighOk(p: Problem, r: nat, mhi: nat) {
    r + mhi > p.S || (p.even && r + mhi == p.S)
  }

  ghost predicate PrefersLow(p: Problem, dig: nat, r: nat) {
    2 * r < p.S || (2 * r == p.S && dig % 2 == 0)
  }

  ghost predicate PrefersHigh(p: Problem, dig: nat, r: nat) {
    2 * r > p.S || (2 * r == p.S && dig % 2 == 1)
  }

  // What one stopping test must decide after the digit dig with remainder r.  When both
  // neighbours are acceptable the closer one is taken, an exact tie going to the even
  // digit; when the upper neighbour is exactly on the end of the interval, the lower one
  // is taken if acceptable, unless the digit is 9.  A divisor of one digit leaves a zero
  // remainder without digits, which the test for the exact end then does not see.
  ghost predicate Decides(p: Problem, o: Outcome, dig: nat, r: nat, mlo: nat, mhi: nat) {
    match o
    case Continue => !LowOk(p, r, mlo) && !HighOk(p, r, mhi)
    case Emit(d) =>
      || (d == dig && LowOk(p, r, mlo) && (r + mhi > p.S ==> PrefersLow(p, dig, r))
          && (dig == 9 && p.even && r + mhi == p.S ==> r == 0 && p.S < BASE))
      || (d == dig + 1 <= 9 && HighOk(p, r, mhi) && (LowOk(p, r, mlo) ==> r + mhi > p.S && PrefersHigh(p, dig, r)))
    case RoundNineUp =>
      && dig == 9 && HighOk(p, r, mhi)
      && (LowOk(p, r, mlo) ==> if r + mhi > p.S then PrefersHigh(p, dig, r) else r > 0 || p.S >= BASE)
  }

  // The whole number after one more digit.
  lemma Divide(p: Problem, ds: seq<nat>, b: nat, mlo: nat, mhi: nat, dig: nat, r: nat)
    requires Before(p, ds, b, mlo, mhi) && b == dig * p.S + r
    ensures p.b * Pow(10, |ds|) == (10 * ValDec(ds) + dig) * p.S + r
    ensures (p.b - p.mlo) * Pow(10, |ds|) == (10 * ValDec(ds) + dig) * p.S + r - mlo
    ensures (p.b + p.mhi) * Pow(10, |ds|) == (10 * ValDec(ds) + dig) * p.S + r + mhi
  {
    var q := Pow(10, |ds|);
    Distribute(10 * ValDec(ds), dig, p.S);
    Distribute(p.b, p.mhi, q);
    Separate(p.b, p.mlo, q);
  }

  lemma Snoc(ds: seq<nat>, d: nat)
    ensures ValDec(ds + [d]) == 10 * ValDec(ds) + d
  {
    assert (ds + [d])[..|ds|] == ds;
  }

  // Emitting dig keeps the whole output acceptable; no multiple of S lies between W * S and
  // (W + 1) * S, so if neither is strictly inside, nothing with as many decimals is.
  lemma Finish(p: Problem, ds: seq<nat>, b: nat, mlo: nat, mhi: nat, dig: nat, r: nat, d: nat)
    requires Before(p, ds, b, mlo, mhi) && b == dig * p.S + r && r < p.S
    requires (d == dig && LowOk(p, r, mlo)) || (d == dig + 1 && HighOk(p, r, mhi))
    requires p.mlo > 0 && p.mhi > 0
    ensures Acceptable(p, 10 * ValDec(ds) + d, |ds|)
  {
    var W := 10 * ValDec(ds) + dig;
    Divide(p, ds, b, mlo, mhi, dig, r);
    Distribute(W, 1, p.S);
    PowPositive(10, |ds|);
    MulLe(1, p.mlo, Pow(10, |ds|));
    MulLe(1, p.mhi, Pow(10, |ds|));
  }

  lemma NotYet(p: Problem, ds: seq<nat>, b: nat, mlo: nat, mhi: nat, dig: nat, r: nat, V: int)
    requires Before(p, ds, b, mlo, mhi) && b == dig * p.S + r && r < p.S
    requires !LowOk(p, r, mlo) && !HighOk(p, r, mhi)
    ensures !Acceptable(p, V, |ds|)
  {
    var W := 10 * ValDec(ds) + dig;
    Divide(p, ds, b, mlo, mhi, dig, r);
    Distribute(W, 1, p.S);
    if V <= W { MulLe(V, W, p.S); } else { MulLe(W + 1, V, p.S); }
  }

  lemma ScaleTen(a: int, q: int)
    ensures a * (10 * q) == 10 * (a * q)
  {
  }

  lemma TenOut(a: int, q: int)
    ensures 10 * a * q == 10 * (a * q)
  {
  }

  lemma Advance(p: Problem, ds: seq<nat>, b: nat, mlo: nat, mhi: nat, dig: nat, r: nat)
    requires Before(p, ds, b, mlo, mhi) && b == dig * p.S + r && r < p.S
    requires !LowOk(p, r, mlo) && !HighOk(p, r, mhi) && NothingShorter(p, |ds|)
    ensures Before(p, ds + [dig], 10 * r, 10 * mlo, 10 * mhi)
    ensures NothingShorter(p, |ds| + 1)
  {
    forall V: int, f: nat | f < |ds| + 1 ensures !Acceptable(p, V, f) {
      if f == |ds| { NotYet(p, ds, b, mlo, mhi, dig, r, V); }
    }
    Divide(p, ds, b, mlo, mhi, dig, r);
    Snoc(ds, dig);
    ScaleTen(p.b, Pow(10, |ds|));
    ScaleTen(p.mlo, Pow(10, |ds|));
    ScaleTen(p.mhi, Pow(10, |ds|));
    TenOut(10 * ValDec(ds) + dig, p.S);
  }

  // From the second digit on, the last continued step left no room below, so that a last
  // digit emitted as it is, is not zero.
  ghost predicate RoomBelow(p: Problem, ds: seq<nat>, b: nat, mlo: nat) {
    ds != [] ==> mlo <= b && (p.even ==> mlo < b)
  }

  // Nor room above.
  ghost predicate RoomAbove(p: Problem, ds: seq<nat>, b: nat, mhi: nat) {
    ds != [] ==> b + mhi <= 10 * p.S && (p.even ==> b + mhi < 10 * p.S)
  }

  // A nine is rounded up only as the very first digit.
  lemma NineOnlyFirst(p: Problem, ds: seq<nat>, b: nat, mhi: nat, r: nat)
    requires RoomAbove(p, ds, b, mhi) && b == 9 * p.S + r && HighOk(p, r, mhi)
    ensures ds == []
  {
  }

  lemma Twice(a: int, q: int)
    ensures 2 * a * q == 2 * (a * q)
  {
  }

  // With equal margins the digit emitted is also the closest one.
  lemma EmitsNearest(p: Problem, ds: seq<nat>, b: nat, mlo: nat, mhi: nat, dig: nat, r: nat, d: nat)
    requires Before(p, ds, b, mlo, mhi) && b == dig * p.S + r && r < p.S
    requires Decides(p, Emit(d), dig, r, mlo, mhi) && p.mlo == p.mhi
    ensures Nearest(p, 10 * ValDec(ds) + d, |ds|)
  {
    Divide(p, ds, b, mlo, mhi, dig, r);
    Distribute(10 * ValDec(ds) + dig, 1, p.S);
    Twice(p.b, Pow(10, |ds|));
  }

  // Whatever the margins are, as long as the upper one is not the smaller: no acceptable
  // decimal of the same length is closer than the digit emitted.
  lemma EmitsClosest(p: Problem, ds: seq<nat>, b: nat, mlo: nat, mhi: nat, dig: nat, r: nat, d: nat)
    requires Before(p, ds, b, mlo, mhi) && b == dig * p.S + r && r < p.S
    requires Decides(p, Emit(d), dig, r, mlo, mhi) && p.mlo <= p.mhi
    ensures Closest(p, 10 * ValDec(ds) + d, |ds|)
  {
    var W := 10 * ValDec(ds) + dig;
    Divide(p, ds, b, mlo, mhi, dig, r);
    Distribute(W, 1, p.S);
    MulLe(p.mlo, p.mhi, Pow(10, |ds|));
    forall U: int | Acceptable(p, U, |ds|) ensures Error(p, 10 * ValDec(ds) + d, |ds|) <= Error(p, U, |ds|) {
      if U <= W { MulLe(U, W, p.S); } else { MulLe(W + 1, U, p.S); }
    }
  }

  // When the loop answers ten: the first digit is nine, ten is acceptable, and if nine is
  // acceptable too then ten is no farther away, or it is exactly the upper end.  single says
  // that the divisor has one digit; then nine itself is answered with nine.
  ghost predicate AnswersTen(p: Problem, single: bool) {
    var r := p.b - 9 * p.S;
    && r >= 0 && HighOk(p, r, p.mhi)
    && (LowOk(p, r, p.mlo) ==> if r + p.mhi > p.S then 2 * r >= p.S else r > 0 || !single)
  }

  // And when that is wrong: the upper end is exactly ten, and nine is acceptable and closer.
  ghost predicate NineLost(p: Problem, single: bool) {
    && p.even && p.b + p.mhi == 10 * p.S && 9 * p.S <= p.b <= 9 * p.S + p.mlo
    && 2 * (p.b - 9 * p.S) < p.S && (p.b == 9 * p.S ==> !single)
  }

  lemma TenAcceptable(p: Problem, single: bool)
    requires AnswersTen(p, single) && p.b < 10 * p.S && p.mlo > 0
    ensures Acceptable(p, 10, 0)
  {
    assert Pow(10, 0) == 1;
  }

  lemma AtFirst(p: Problem, b: nat, mlo: nat, mhi: nat)
    requires Before(p, [], b, mlo, mhi)
    ensures b == p.b && mlo == p.mlo && mhi == p.mhi
  {
    assert Pow(10, 0) == 1 && ValDec([]) == 0;
  }

  // A digit is emitted only where ten is not the answer.
  lemma EmitsBelowTen(p: Problem, ds: seq<nat>, b: nat, mlo: nat, mhi: nat, dig: nat, r: nat, d: nat)
    requires Before(p, ds, b, mlo, mhi) && b == dig * p.S + r && r < p.S && NothingShorter(p, |ds|)
    requires Decides(p, Emit(d), dig, r, mlo, mhi) && p.mlo > 0 && p.b < 10 * p.S
    ensures !AnswersTen(p, p.S < BASE)
  {
    if AnswersTen(p, p.S < BASE) {
      TenAcceptable(p, p.S < BASE);
      assert ds == [];
      AtFirst(p, b, mlo, mhi);
      Quotients(dig, 9, p.S, r, p.b - 9 * p.S);
    }
  }

  lemma NineAnswersTen(p: Problem, b: nat, mlo: nat, mhi: nat, r: nat)
    requires Before(p, [], b, mlo, mhi) && b == 9 * p.S + r && r < p.S && Decides(p, RoundNineUp, 9, r, mlo, mhi)
    ensures AnswersTen(p, p.S < BASE)
  {
    assert Pow(10, 0) == 1;
  }

  // Ten is the wrong answer exactly there.
  lemma TenClosest(p: Problem, single: bool)
    requires AnswersTen(p, single) && p.b < 10 * p.S
    ensures p.mlo <= p.mhi ==> (Closest(p, 10, 0) <==> !NineLost(p, single))
    ensures p.mlo == p.mhi ==> (Nearest(p, 10, 0) <==> !NineLost(p, single))
  {
    assert Pow(10, 0) == 1;
    if NineLost(p, single) {
      assert Acceptable(p, 9, 0) && Error(p, 9, 0) < Error(p, 10, 0);
    } else {
      forall U: int | Acceptable(p, U, 0) ensures p.mlo <= p.mhi ==> Error(p, 10, 0) <= Error(p, U, 0) {
        if U <= 9 { MulLe(U, 9, p.S); } else { MulLe(10, U, p.S); }
      }
    }
  }

  // Of two acceptable decimals of the same length that are equally far the even one is taken.
  ghost predicate TieEven(p: Problem, V: int, e: nat) {
    forall U: int :: Acceptable(p, U, e) && U != V && Error(p, U, e) == Error(p, V, e) ==> V % 2 == 0
  }

  // The ends of the interval are two consecutive decimals W and W + 1 with e places, the first
  // of them odd and the second no shorter.
  ghost predicate EndsOn(p: Problem, e: nat, W: int) {
    var m := p.mhi * Pow(10, e);
    2 * m == p.S && p.b * Pow(10, e) == W * p.S + m && W % 2 == 1 && W % 10 != 9
  }

  // Where a tie goes to the odd one: both ends are acceptable, and the loop takes the lower.
  ghost predicate TieLost(p: Problem) {
    p.even && p.mlo == p.mhi && p.S > 0 && exists e: nat, W: int :: EndsOn(p, e, W)
  }

  lemma EndsAcceptable(p: Problem, e: nat, W: int, V: int)
    requires p.even && p.mlo == p.mhi && p.S > 0 && EndsOn(p, e, W)
    ensures Acceptable(p, V, e) <==> V == W || V == W + 1
  {
    Separate(p.b, p.mlo, Pow(10, e));
    Distribute(p.b, p.mhi, Pow(10, e));
    Distribute(W, 1, p.S);
    Order(W, V, p.S);
    Order(V, W + 1, p.S);
  }

  lemma MorePlaces(p: Problem, V: int, f: nat, m: nat)
    requires Acceptable(p, V, f) && p.even
    ensures Acceptable(p, V * Pow(10, m), f + m)
  {
    var q := Pow(10, m);
    PowAdd(10, f, m);
    PowPositive(10, m);
    Regroup(p.b - p.mlo, Pow(10, f), q);
    Regroup(p.b + p.mhi, Pow(10, f), q);
    Regroup(V, p.S, q);
    Regroup(V, q, p.S);
    MulLe((p.b - p.mlo) * Pow(10, f), V * p.S, q);
    MulLe(V * p.S, (p.b + p.mhi) * Pow(10, f), q);
  }

  lemma TenDivides(V: int, m: nat)
    requires m > 0
    ensures V * Pow(10, m) % 10 == 0
  {
    ScaleTen(V, Pow(10, m - 1));
    QuotientUnique(V * Pow(10, m), 10, V * Pow(10, m - 1), 0);
  }

  lemma NoTens(x: int, W: int)
    requires x % 10 == 0 && W % 2 == 1 && W % 10 != 9
    ensures x != W && x != W + 1
  {
  }

  // Nothing with fewer places lies between two consecutive decimals of which neither ends in
  // zero.
  lemma EndsNotShorter(p: Problem, e: nat, W: int, V: int, f: nat)
    requires p.even && p.mlo == p.mhi && p.S > 0 && EndsOn(p, e, W) && f < e
    ensures !Acceptable(p, V, f)
  {
    if Acceptable(p, V, f) {
      MorePlaces(p, V, f, e - f);
      EndsAcceptable(p, e, W, V * Pow(10, e - f));
      TenDivides(V, e - f);
      NoTens(V * Pow(10, e - f), W);
    }
  }

  // Then the shortest acceptable decimals are these two.
  lemma EndsShortest(p: Problem, e: nat, W: int, V: int, f: nat)
    requires p.even && p.mlo == p.mhi && p.S > 0 && EndsOn(p, e, W)
    requires Acceptable(p, V, f) && NothingShorter(p, f)
    ensures f == e && (V == W || V == W + 1)
  {
    EndsAcceptable(p, e, W, W);
    if f < e { EndsNotShorter(p, e, W, V, f); }
    EndsAcceptable(p, e, W, V);
  }

  // Another decimal is equally far only when the number is in the middle of two consecutive
  // ones.
  lemma TieHalf(W: int, S: nat, r: nat, V: int, U: int, c: int)
    requires c == W * S + r && r < S && (V == W || (V == W + 1 && r > 0)) && U != V
    requires V * S - c == c - U * S || V * S - c == U * S - c
    ensures 2 * r == S && U == 2 * W + 1 - V
  {
    Order(U, V, S);
    Distribute(W, 1, S);
    var d := V + U - 2 * W;
    Distribute(V, U, S);
    Separate(V + U, 2 * W, S);
    assert d * S == 2 * r;
    Order(d, 0, S);
    Order(d, 2, S);
  }

  // The number is in the middle of two decimals that are both acceptable: what the loop does.
  lemma MiddleDigit(p: Problem, o: Outcome, dig: nat, r: nat, mlo: nat, mhi: nat)
    requires Decides(p, o, dig, r, mlo, mhi) && 2 * r == p.S && r > 0 && LowOk(p, r, mlo) && HighOk(p, r, mhi)
    requires mlo <= mhi
    ensures o == (if dig % 2 == 0 || (r + mhi == p.S && dig != 9) then Emit(dig)
                  else if dig == 9 then RoundNineUp else Emit(dig + 1))
    ensures r + mhi == p.S ==> p.even && mlo == mhi == r
  {
  }

  lemma LastDigit(w: nat, dig: nat)
    requires dig <= 9
    ensures (10 * w + dig) % 10 == dig && (10 * w + dig) % 2 == dig % 2
  {
  }

  // The neighbours of what is left are acceptable when the tests say so.
  lemma NeighboursOk(p: Problem, ds: seq<nat>, b: nat, mlo: nat, mhi: nat, dig: nat, r: nat)
    requires Before(p, ds, b, mlo, mhi) && b == dig * p.S + r && r < p.S && p.mlo > 0 && p.mhi > 0
    ensures Acceptable(p, 10 * ValDec(ds) + dig, |ds|) <==> LowOk(p, r, mlo)
    ensures Acceptable(p, 10 * ValDec(ds) + dig + 1, |ds|) <==> HighOk(p, r, mhi)
  {
    var W := 10 * ValDec(ds) + dig;
    Divide(p, ds, b, mlo, mhi, dig, r);
    Distribute(W, 1, p.S);
    PowPositive(10, |ds|);
    MulLe(1, p.mlo, Pow(10, |ds|));
    MulLe(1, p.mhi, Pow(10, |ds|));
  }

  // With the ends of the interval on two decimals, the loop comes to stand between them.
  lemma EndsRemainder(p: Problem, ds: seq<nat>, b: nat, mlo: nat, mhi: nat, dig: nat, r: nat, W: int)
    requires Before(p, ds, b, mlo, mhi) && b == dig * p.S + r && r < p.S && EndsOn(p, |ds|, W) && p.S > 0
    ensures W == 10 * ValDec(ds) + dig && 2 * r == p.S && mhi == r
  {
    Divide(p, ds, b, mlo, mhi, dig, r);
    Quotients(W, 10 * ValDec(ds) + dig, p.S, mhi, r);
  }

  lemma TieBothOk(p: Problem, ds: seq<nat>, b: nat, mlo: nat, mhi: nat, dig: nat, r: nat, d: nat, U: int)
    requires Before(p, ds, b, mlo, mhi) && b == dig * p.S + r && r < p.S && p.mlo > 0 && p.mhi > 0
    requires Decides(p, Emit(d), dig, r, mlo, mhi) && Acceptable(p, U, |ds|)
    requires U != 10 * ValDec(ds) + d && Error(p, U, |ds|) == Error(p, 10 * ValDec(ds) + d, |ds|)
    ensures 2 * r == p.S && LowOk(p, r, mlo) && HighOk(p, r, mhi)
  {
    var W := 10 * ValDec(ds) + dig;
    Divide(p, ds, b, mlo, mhi, dig, r);
    Finish(p, ds, b, mlo, mhi, dig, r, d);
    PowPositive(10, |ds|);
    MulLe(1, p.mlo, Pow(10, |ds|));
    TieHalf(W, p.S, r, 10 * ValDec(ds) + d, U, p.b * Pow(10, |ds|));
    NeighboursOk(p, ds, b, mlo, mhi, dig, r);
  }

  // Only an interval with its ends on two decimals is treated otherwise.
  lemma OddMeansEnds(p: Problem, ds: seq<nat>, b: nat, mlo: nat, mhi: nat, dig: nat, r: nat)
    requires Before(p, ds, b, mlo, mhi) && b == dig * p.S + r && r < p.S && dig <= 9 && dig % 2 == 1 && dig != 9
    requires p.even && p.mlo <= p.mhi && 2 * r == p.S && mlo == mhi == r
    ensures TieLost(p)
  {
    Divide(p, ds, b, mlo, mhi, dig, r);
    PowPositive(10, |ds|);
    Order(p.mlo, p.mhi, Pow(10, |ds|));
    LastDigit(ValDec(ds), dig);
    assert EndsOn(p, |ds|, 10 * ValDec(ds) + dig);
  }

  lemma TieDigit(p: Problem, ds: seq<nat>, b: nat, mlo: nat, mhi: nat, dig: nat, r: nat, d: nat)
    requires Before(p, ds, b, mlo, mhi) && b == dig * p.S + r && r < p.S && dig <= 9
    requires Decides(p, Emit(d), dig, r, mlo, mhi) && p.mlo <= p.mhi && !TieLost(p)
    requires 2 * r == p.S && LowOk(p, r, mlo) && HighOk(p, r, mhi)
    ensures d % 2 == 0
  {
    MulLe(p.mlo, p.mhi, Pow(10, |ds|));
    MiddleDigit(p, Emit(d), dig, r, mlo, mhi);
    if d == dig && dig % 2 == 1 { OddMeansEnds(p, ds, b, mlo, mhi, dig, r); }
  }

  lemma TieGoesEven(p: Problem, ds: seq<nat>, b: nat, mlo: nat, mhi: nat, dig: nat, r: nat, d: nat)
    requires Before(p, ds, b, mlo, mhi) && b == dig * p.S + r && r < p.S && p.mlo > 0 && p.mhi > 0 && dig <= 9
    requires Decides(p, Emit(d), dig, r, mlo, mhi) && p.mlo <= p.mhi && !TieLost(p)
    ensures TieEven(p, 10 * ValDec(ds) + d, |ds|)
  {
    var V := 10 * ValDec(ds) + d;
    forall U: int | Acceptable(p, U, |ds|) && U != V && Error(p, U, |ds|) == Error(p, V, |ds|) ensures V % 2 == 0 {
      TieBothOk(p, ds, b, mlo, mhi, dig, r, d, U);
      TieDigit(p, ds, b, mlo, mhi, dig, r, d);
    }
  }

  lemma TieGoesOdd(p: Problem, ds: seq<nat>, b: nat, mlo: nat, mhi: nat, dig: nat, r: nat, d: nat)
    requires Before(p, ds, b, mlo, mhi) && b == dig * p.S + r && r < p.S && p.mlo > 0 && p.mhi > 0 && dig <= 9
    requires Decides(p, Emit(d), dig, r, mlo, mhi) && NothingShorter(p, |ds|) && TieLost(p)
    ensures !TieEven(p, 10 * ValDec(ds) + d, |ds|)
  {
    var e: nat, W: int :| EndsOn(p, e, W);
    Finish(p, ds, b, mlo, mhi, dig, r, d);
    EndsShortest(p, e, W, 10 * ValDec(ds) + d, |ds|);
    EndsRemainder(p, ds, b, mlo, mhi, dig, r, W);
    MiddleDigit(p, Emit(d), dig, r, mlo, mhi);
    LastDigit(ValDec(ds), dig);
    EndsAcceptable(p, e, W, W + 1);
    Distribute(W, 1, p.S);
    assert Acceptable(p, W + 1, |ds|) && Error(p, W + 1, |ds|) == Error(p, W, |ds|);
  }

  // A tie goes to the even decimal, but for that one kind of interval.
  lemma EmitsTie(p: Problem, ds: seq<nat>, b: nat, mlo: nat, mhi: nat, dig: nat, r: nat, d: nat)
    requires Before(p, ds, b, mlo, mhi) && b == dig * p.S + r && r < p.S && p.mlo > 0 && p.mhi > 0 && dig <= 9
    requires Decides(p, Emit(d), dig, r, mlo, mhi) && NothingShorter(p, |ds|) && p.mlo <= p.mhi
    ensures TieEven(p, 10 * ValDec(ds) + d, |ds|) <==> !TieLost(p)
  {
    if TieLost(p) {
      TieGoesOdd(p, ds, b, mlo, mhi, dig, r, d);
    } else {
      TieGoesEven(p, ds, b, mlo, mhi, dig, r, d);
    }
  }

  // Ten is even, and where it is put out the other kind of interval does not occur.
  lemma TenTie(p: Problem, single: bool)
    requires AnswersTen(p, single) && p.b < 10 * p.S && p.mlo > 0
    ensures TieEven(p, 10, 0) && !TieLost(p)
  {
    assert Pow(10, 0) == 1;
    if TieLost(p) {
      var e: nat, W: int :| EndsOn(p, e, W);
      TenAcceptable(p, single);
      EndsShortest(p, e, W, 10, 0);
    }
  }

  // Such an interval: 3.5 with margins of one half; three is put out, which is odd.
  lemma TieToOdd(o: Outcome)
    requires var p := Problem(35, 10, 5, 5, true);
      Decides(p, o, 3, 5, 5, 5)
    ensures var p := Problem(35, 10, 5, 5, true);
      Before(p, [], 35, 5, 5) && o == Emit(3) && TieLost(p) && !TieEven(p, 3, 0)
  {
    var p := Problem(35, 10, 5, 5, true);
    assert Pow(10, 0) == 1 && ValDec([]) == 0;
    assert EndsOn(p, 0, 3);
    assert Acceptable(p, 4, 0) && Error(p, 4, 0) == Error(p, 3, 0);
  }

  // The two are next to each other.
  lemma TieNext(p: Problem, V: int, U: int, e: nat)
    requires Closest(p, V, e) && Acceptable(p, V, e) && Acceptable(p, U, e)
    requires U != V && Error(p, U, e) == Error(p, V, e) && p.S > 0
    ensures U == V + 1 || U == V - 1
  {
    var M := if U > V then V + 1 else V - 1;
    Distribute(V, 1, p.S);
    Separate(V, 1, p.S);
    if U > V { Order(V + 1, U, p.S); } else { Order(U, V - 1, p.S); }
    assert Acceptable(p, M, e);
    assert Error(p, M, e) < Error(p, V, e) || U == M;
  }

  // A nine can be lost: the number 9.1 with margins of 0.9 on both sides has ten for its upper
  // end, every stopping decision rounds the nine up, and nine would have been closer.
  lemma NineNotNearest(o: Outcome)
    requires var p := Problem(91, 10, 9, 9, true);
      Decides(p, o, 9, 1, 9, 9)
    ensures var p := Problem(91, 10, 9, 9, true);
      Before(p, [], 91, 9, 9) && o == RoundNineUp && !Nearest(p, 10, 0) && Nearest(p, 9, 0)
  {
    assert Pow(10, 0) == 1 && ValDec([]) == 0;
  }

  // An upper end of exactly ten alone does no harm.
  lemma NineNearestAtTen()
    ensures var p := Problem(98, 10, 2, 2, true);
      p.b + p.mhi == 10 * p.S && Decides(p, RoundNineUp, 9, 8, 2, 2) && Nearest(p, 10, 0)
  {
    assert Pow(10, 0) == 1;
  }

  // num / den rounded to the nearest integer, ties to even.
  ghost predicate Rounded(N: nat, num: nat, den: nat) {
    && 2 * num - den <= 2 * (N * den) <= 2 * num + den
    && (2 * num - den == 2 * (N * den) || 2 * (N * den) == 2 * num + den ==> N % 2 == 0)
  }

  lemma Closer(N: nat, M: nat, num: nat, den: nat)
    requires den > 0 && Rounded(N, num, den) && N < M
    ensures !Rounded(M, num, den)
  {
    Distribute(N, 1, den);
    MulLe(N + 1, M, den);
    if N + 1 < M { Distribute(N, 2, den); MulLe(N + 2, M, den); }
  }

  // That determines the integer.
  lemma RoundedUnique(N: nat, M: nat, num: nat, den: nat)
    requires den > 0 && Rounded(N, num, den) && Rounded(M, num, den)
    ensures N == M
  {
    if N < M { Closer(N, M, num, den); }
    if M < N { Closer(M, N, num, den); }
  }

  // The fixed-length loop: W digits so far, remainder r, and the last digit's parity decides a tie.
  lemma RoundDecision(W: nat, dig: nat, r: nat, num: nat, den: nat, up: bool)
    requires num == W * den + r && r < den && W % 2 == dig % 2
    requires up <==> 2 * r > den || (2 * r == den && dig % 2 == 1)
    ensures Rounded(if up then W + 1 else W, num, den)
  {
    Distribute(W, 1, den);
  }
}

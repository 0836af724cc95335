/** The left-to-right loop of __dtoa: the shortest digits inside the margins. */
module ShortestGen {
  import opened Words
  import opened Bigints
  import opened DigitTheory
  import opened DigitGen
  import Compare
  import MultAdds
  import Quorem
  import RoundOff

  ghost predicate Margin(pool: Pool, m: Bigint, b: Bigint, S: Bigint)
    reads pool, m
  {
    m !in pool.freeSet && m != b && m != S && m.Normal() && m.k <= KMAX && m.Value() > 0
  }

  ghost predicate Sign(j: int, x: int, y: int) {
    (x < y ==> j < 0) && (x > y ==> j > 0) && (x == y ==> j == 0)
  }

  // j1 compares the remainder with S - mhi, which may be negative.  A zero remainder left
  // without digits, as it is when the divisor has one digit, sorts below a zero difference.
  ghost predicate UpperSign(j1: int, r: nat, mhi: nat, sv: nat) {
    && (r + mhi < sv ==> j1 < 0) && (r + mhi > sv ==> j1 > 0)
    && (r + mhi == sv ==> if r == 0 && sv < BASE then j1 < 0 else j1 == 0)
  }

  lemma OneDigit(S: Bigint)
    requires S.Normal() && S.Value() > 0
    ensures S.wds == 1 <==> S.Value() < BASE
  {
    assert Pow(BASE, 0) == 1 && Pow(BASE, 1) == BASE;
    ValBound(S.x, S.wds);
    if S.wds > 1 {
      ValLowerBound(S.x, S.wds);
      PowMonotone(BASE, 1, S.wds - 1);
    }
  }

  // delta = diff(S, mhi); j1 = delta->sign ? 1 : cmp(b, delta).
  method CompareUpper(pool: Pool, b: Bigint, S: Bigint, mhi: Bigint) returns (j1: int)
    requires pool.FreeOk() && Live(pool, b, S) && Margin(pool, mhi, b, S) && Quorem.ZeroForm(b, S)
    modifies pool.freelist, pool.freeSet, pool`free, pool`freeSet
    ensures pool.FreeOk() && b !in pool.freeSet && S !in pool.freeSet && mhi !in pool.freeSet
    ensures forall n :: n in pool.freeSet ==> n in old(pool.freeSet) || fresh(n)
    ensures UpperSign(j1, b.Value(), mhi.Value(), S.Value())
  {
    TopDigitPositive(S.x, S.wds);
    OneDigit(S);
    var delta := Compare.Diff(pool, S, mhi);
    if delta.sign != 0 {
      j1 := 1;
    } else {
      j1 := Compare.Cmp(b, delta);
    }
    pool.Bfree(delta);
  }

  ghost predicate Digit(p: Problem, ds: seq<nat>, v: nat, dig: nat, r: nat) {
    v == dig * p.S + r && r < p.S && dig <= 9 && (ds == [] && p.b >= p.S ==> dig > 0)
  }

  method DivideDigit(b: Bigint, S: Bigint, pool: Pool, ghost p: Problem, ghost ds: seq<nat>) returns (dig: nat)
    requires Live(pool, b, S) && p.S == S.Value() && 0 < b.Value() < 10 * p.S
    requires ds == [] ==> b.Value() == p.b
    modifies b`x, b`wds
    ensures Live(pool, b, S) && Digit(p, ds, old(b.Value()), dig, b.Value()) && Quorem.ZeroForm(b, S)
  {
    dig := Quorem.QuoRem(b, S);
  }

  // One quorem and the two comparisons.
  method StopTest(pool: Pool, b: Bigint, S: Bigint, mlo: Bigint, mhi: Bigint, ghost p: Problem, ghost ds: seq<nat>)
    returns (dig: nat, j: int, j1: int)
    requires pool.FreeOk() && Live(pool, b, S) && Margin(pool, mlo, b, S) && Margin(pool, mhi, b, S)
    requires p.S == S.Value() && 0 < b.Value() && Before(p, ds, b.Value(), mlo.Value(), mhi.Value())
    modifies pool.freelist, pool.freeSet, pool`free, pool`freeSet, b`x, b`wds
    ensures pool.FreeOk() && Live(pool, b, S) && Margin(pool, mlo, b, S) && Margin(pool, mhi, b, S)
    ensures forall n :: n in pool.freeSet ==> n in old(pool.freeSet) || fresh(n)
    ensures Digit(p, ds, old(b.Value()), dig, b.Value())
    ensures Sign(j, b.Value(), mlo.Value()) && UpperSign(j1, b.Value(), mhi.Value(), p.S)
  {
    ghost var v := b.Value();
    dig := DivideDigit(b, S, pool, p, ds);
    j := Compare.Cmp(b, mlo);
    j1 := CompareUpper(pool, b, S, mhi);
  }

  // The decision taken from the two signs; b is doubled in place of being kept when both
  // neighbours are acceptable.
  method Decide(pool: Pool, b: Bigint, S: Bigint, dig: nat, j: int, j1: int, even: bool,
                ghost p: Problem, ghost mlo: nat, ghost mhi: nat) returns (o: Outcome)
    requires pool.FreeOk() && Live(pool, b, S) && p.S == S.Value() && even == p.even && dig <= 9
    requires b.Value() < p.S && Sign(j, b.Value(), mlo) && UpperSign(j1, b.Value(), mhi, p.S) && mlo > 0
    modifies pool.freelist, pool.freeSet, pool`free, pool`freeSet, b
    ensures pool.FreeOk() && Decides(p, o, dig, old(b.Value()), mlo, mhi)
    ensures o == Continue ==> unchanged(b) && pool.freeSet == old(pool.freeSet)
    ensures pool.freeSet <= old(pool.freeSet) + {b}
    ensures unchanged(S)
  {
    if j1 == 0 && even {
      return if dig == 9 then RoundNineUp else if j > 0 then Emit(dig + 1) else Emit(dig);
    }
    if j < 0 || (j == 0 && even) {
      if j1 > 0 {
        var b2 := Double(pool, b, S);
        var j2 := Compare.Cmp(b2, S);
        if j2 > 0 || (j2 == 0 && dig % 2 == 1) {
          return if dig == 9 then RoundNineUp else Emit(dig + 1);
        }
      }
      return Emit(dig);
    }
    if j1 > 0 {
      return if dig == 9 then RoundNineUp else Emit(dig + 1);
    }
    return Continue;
  }

  // Everything the loop keeps about the numbers: digits so far, remainder, margins.
  ghost predicate LoopInv(p: Problem, ds: seq<nat>, b: nat, mlo: nat, mhi: nat) {
    && Before(p, ds, b, mlo, mhi) && RoomBelow(p, ds, b, mlo) && RoomAbove(p, ds, b, mhi) && b > 0
    && NothingShorter(p, |ds|) && Decimal(ds) && (ds != [] && p.b >= p.S ==> ds[0] > 0)
    && p.mlo > 0 && p.mhi > 0 && p.b < 10 * p.S
  }

  lemma LoopContinues(p: Problem, ds: seq<nat>, b: nat, mlo: nat, mhi: nat, dig: nat, r: nat)
    requires LoopInv(p, ds, b, mlo, mhi) && Digit(p, ds, b, dig, r) && Decides(p, Continue, dig, r, mlo, mhi)
    ensures LoopInv(p, ds + [dig], 10 * r, 10 * mlo, 10 * mhi)
    ensures mlo <= r && r + mhi <= p.S
  {
    Advance(p, ds, b, mlo, mhi, dig, r);
  }

  // The output of the loop when a stopping test has fired: acceptable, no acceptable decimal
  // is shorter, and none of the same length is closer unless a nine is lost.  With equal
  // margins it is then the nearest decimal of its length altogether.  Of two that are equally
  // close the even one is put out, unless the ends of the interval are on them.
  ghost predicate ShortestOutput(p: Problem, single: bool, out: seq<nat>, carry: nat) {
    && out != [] && Decimal(out) && carry <= 1 && (carry == 1 ==> out == [1])
    && (p.b >= p.S ==> out[0] > 0 && out[|out| - 1] > 0)
    && Acceptable(p, ValDec(out) * Pow(10, carry), |out| - 1)
    && NothingShorter(p, |out| - 1)
    && (carry == 1 <==> AnswersTen(p, single))
    && (p.mlo <= p.mhi ==> (Closest(p, ValDec(out) * Pow(10, carry), |out| - 1) <==> !NineLost(p, single)))
    && (p.mlo == p.mhi ==> (Nearest(p, ValDec(out) * Pow(10, carry), |out| - 1) <==> !NineLost(p, single)))
    && (p.mlo <= p.mhi ==> (TieEven(p, ValDec(out) * Pow(10, carry), |out| - 1) <==> !TieLost(p)))
  }

  lemma EmitsDigits(p: Problem, ds: seq<nat>, b: nat, mlo: nat, mhi: nat, dig: nat, r: nat, d: nat)
    requires LoopInv(p, ds, b, mlo, mhi) && Digit(p, ds, b, dig, r) && Decides(p, Emit(d), dig, r, mlo, mhi)
    ensures d <= 9 && Decimal(ds + [d])
    ensures p.b >= p.S ==> (ds + [d])[0] > 0 && d > 0
  {
  }

  lemma EmitsInside(p: Problem, ds: seq<nat>, b: nat, mlo: nat, mhi: nat, dig: nat, r: nat, d: nat)
    requires LoopInv(p, ds, b, mlo, mhi) && Digit(p, ds, b, dig, r) && Decides(p, Emit(d), dig, r, mlo, mhi)
    ensures var V := 10 * ValDec(ds) + d;
      && Acceptable(p, V, |ds|) && !AnswersTen(p, p.S < BASE)
      && (p.mlo <= p.mhi ==> Closest(p, V, |ds|)) && (p.mlo == p.mhi ==> Nearest(p, V, |ds|))
      && (p.mlo <= p.mhi ==> (TieEven(p, V, |ds|) <==> !TieLost(p)))
  {
    Finish(p, ds, b, mlo, mhi, dig, r, d);
    EmitsBelowTen(p, ds, b, mlo, mhi, dig, r, d);
    if p.mlo <= p.mhi {
      EmitsClosest(p, ds, b, mlo, mhi, dig, r, d);
      EmitsTie(p, ds, b, mlo, mhi, dig, r, d);
    }
    if p.mlo == p.mhi { EmitsNearest(p, ds, b, mlo, mhi, dig, r, d); }
  }

  lemma LoopEmits(p: Problem, ds: seq<nat>, b: nat, mlo: nat, mhi: nat, dig: nat, r: nat, d: nat)
    requires LoopInv(p, ds, b, mlo, mhi) && Digit(p, ds, b, dig, r) && Decides(p, Emit(d), dig, r, mlo, mhi)
    ensures ShortestOutput(p, p.S < BASE, ds + [d], 0)
  {
    Snoc(ds, d);
    assert Pow(10, 0) == 1 && ValDec(ds + [d]) * Pow(10, 0) == 10 * ValDec(ds) + d;
    EmitsDigits(p, ds, b, mlo, mhi, dig, r, d);
    EmitsInside(p, ds, b, mlo, mhi, dig, r, d);
  }

  // Ten, put out as a one with the exponent raised.
  lemma TenShortest(p: Problem, single: bool)
    requires AnswersTen(p, single) && p.b < 10 * p.S && p.mlo > 0
    ensures ShortestOutput(p, single, [1], 1)
  {
    Snoc([], 1);
    assert ValDec([]) == 0 && Pow(10, 1) == 10 && ValDec([1]) * Pow(10, 1) == 10;
    TenAcceptable(p, single);
    TenClosest(p, single);
    TenTie(p, single);
  }

  lemma LoopRoundsNine(p: Problem, ds: seq<nat>, b: nat, mlo: nat, mhi: nat, dig: nat, r: nat)
    requires LoopInv(p, ds, b, mlo, mhi) && Digit(p, ds, b, dig, r) && Decides(p, RoundNineUp, dig, r, mlo, mhi)
    ensures ds == [] && ShortestOutput(p, p.S < BASE, [1], 1)
  {
    NineOnlyFirst(p, ds, b, mhi, r);
    AtFirst(p, b, mlo, mhi);
    NineAnswersTen(p, b, mlo, mhi, r);
    TenShortest(p, p.S < BASE);
  }

  method MarginTimesTen(pool: Pool, m: Bigint, ghost b: Bigint, S: Bigint) returns (r: Bigint)
    requires pool.FreeOk() && b !in pool.freeSet && S !in pool.freeSet && Divisor(S)
    requires Margin(pool, m, b, S) && m.Value() <= S.Value()
    modifies pool.freelist, pool.freeSet, pool`free, pool`freeSet, m
    ensures pool.FreeOk() && Margin(pool, r, b, S) && r.Value() == 10 * old(m.Value())
    ensures r == m || fresh(r) || r in old(pool.freeSet)
    ensures pool.freeSet <= old(pool.freeSet) + {m}
  {
    SmallerFits(m, S);
    r := MultAdds.MultAdd(pool, m, 10, 0);
  }

  // Both margins times ten; they are the same number unless the interval is lopsided.
  method MarginsUp(pool: Pool, b: Bigint, S: Bigint, mlo0: Bigint, mhi0: Bigint) returns (mlo: Bigint, mhi: Bigint)
    requires pool.FreeOk() && Live(pool, b, S) && Margin(pool, mlo0, b, S) && Margin(pool, mhi0, b, S)
    requires mlo0.Value() <= S.Value() && mhi0.Value() <= S.Value()
    modifies pool.freelist, pool.freeSet, pool`free, pool`freeSet, mlo0, mhi0
    ensures pool.FreeOk() && Live(pool, b, S) && Margin(pool, mlo, b, S) && Margin(pool, mhi, b, S)
    ensures unchanged(b) && unchanged(S)
    ensures mlo in old(pool.freeSet) + {mlo0, mhi0} || fresh(mlo)
    ensures mhi in old(pool.freeSet) + {mlo0, mhi0} || fresh(mhi)
    ensures forall n :: n in pool.freeSet ==> n in old(pool.freeSet) + {mlo0, mhi0} || fresh(n)
    ensures mlo.Value() == 10 * old(mlo0.Value()) && mhi.Value() == 10 * old(mhi0.Value())
  {
    if mlo0 == mhi0 {
      mhi := MarginTimesTen(pool, mhi0, b, S);
      mlo := mhi;
    } else {
      mlo := MarginTimesTen(pool, mlo0, b, S);
      mhi := MarginTimesTen(pool, mhi0, b, S);
    }
  }

  // b, mlo and mhi times ten; mlo and mhi may be one object.
  method ScaleUp(pool: Pool, b0: Bigint, S: Bigint, mlo0: Bigint, mhi0: Bigint)
    returns (b: Bigint, mlo: Bigint, mhi: Bigint)
    requires pool.FreeOk() && Live(pool, b0, S) && Margin(pool, mlo0, b0, S) && Margin(pool, mhi0, b0, S)
    requires b0.Value() <= S.Value() && mlo0.Value() <= S.Value() && mhi0.Value() <= S.Value()
    modifies pool.freelist, pool.freeSet, pool`free, pool`freeSet, b0, mlo0, mhi0
    ensures pool.FreeOk() && Live(pool, b, S) && Margin(pool, mlo, b, S) && Margin(pool, mhi, b, S)
    ensures unchanged(S)
    ensures b in old(pool.freeSet) + {b0, mlo0, mhi0} || fresh(b)
    ensures mlo in old(pool.freeSet) + {b0, mlo0, mhi0} || fresh(mlo)
    ensures mhi in old(pool.freeSet) + {b0, mlo0, mhi0} || fresh(mhi)
    ensures forall n :: n in pool.freeSet ==> n in old(pool.freeSet) + {b0, mlo0, mhi0} || fresh(n)
    ensures b.Value() == 10 * old(b0.Value())
    ensures mlo.Value() == 10 * old(mlo0.Value()) && mhi.Value() == 10 * old(mhi0.Value())
  {
    b := TimesTen(pool, b0, S);
    mlo, mhi := MarginsUp(pool, b, S, mlo0, mhi0);
  }

  // One pass of the loop up to the point where it stops or emits its digit and goes on.
  method Step(pool: Pool, b: Bigint, S: Bigint, mlo: Bigint, mhi: Bigint, even: bool,
              ghost p: Problem, ghost ds: seq<nat>)
    returns (o: Outcome, dig: nat, ghost r: nat)
    requires pool.FreeOk() && Live(pool, b, S) && Margin(pool, mlo, b, S) && Margin(pool, mhi, b, S)
    requires p.S == S.Value() && even == p.even && LoopInv(p, ds, b.Value(), mlo.Value(), mhi.Value())
    modifies pool.freelist, pool.freeSet, pool`free, pool`freeSet, b
    ensures pool.FreeOk() && unchanged(S) && unchanged(mlo) && unchanged(mhi)
    ensures Digit(p, ds, old(b.Value()), dig, r) && Decides(p, o, dig, r, mlo.Value(), mhi.Value())
    ensures o == Continue ==>
      Live(pool, b, S) && Margin(pool, mlo, b, S) && Margin(pool, mhi, b, S) && b.Value() == r
    ensures o == Continue ==> forall n :: n in pool.freeSet ==> n in old(pool.freeSet) || fresh(n)
    ensures forall n :: n in pool.freeSet ==> n == b || n in old(pool.freeSet) || fresh(n)
  {
    var j, j1;
    dig, j, j1 := StopTest(pool, b, S, mlo, mhi, p, ds);
    r := b.Value();
    o := Decide(pool, b, S, dig, j, j1, even, p, mlo.Value(), mhi.Value());
  }

  // Numbers whose digits the loop can produce.
  ghost predicate Ready(pool: Pool, b: Bigint, S: Bigint, mlo: Bigint, mhi: Bigint)
    reads pool, pool.freelist, pool.freeSet, b, S, mlo, mhi
  {
    pool.FreeOk() && Live(pool, b, S) && Margin(pool, mlo, b, S) && Margin(pool, mhi, b, S)
  }

  // roundoff after a nine with nothing in front of it
  method RoundNine(s: seq<nat>) returns (out: seq<nat>, carry: nat)
    requires s == []
    ensures out == [1] && carry == 1
  {
    out, carry := RoundOff.RoundUp(s + [9]);
  }

  // A stopping test has fired: the digit is emitted, or a nine goes through roundoff.
  method Stop(ghost p: Problem, s: seq<nat>, o: Outcome, dig: nat,
              ghost v: nat, ghost mlo: nat, ghost mhi: nat, ghost r: nat)
    returns (out: seq<nat>, carry: nat)
    requires LoopInv(p, s, v, mlo, mhi) && Digit(p, s, v, dig, r) && Decides(p, o, dig, r, mlo, mhi) && o != Continue
    ensures ShortestOutput(p, p.S < BASE, out, carry) && |out| <= |s| + 1
  {
    if o.Emit? {
      LoopEmits(p, s, v, mlo, mhi, dig, r, o.digit);
      out, carry := s + [o.digit], 0;
    } else {
      LoopRoundsNine(p, s, v, mlo, mhi, dig, r);
      out, carry := RoundNine(s);
    }
  }

  // The digit limit: the digits so far are rounded as in the fixed-length loop.
  method StopAtLimit(pool: Pool, b: Bigint, S: Bigint, s: seq<nat>, dig: nat, ghost p: Problem,
                     ghost v: nat, ghost mlo: nat, ghost mhi: nat)
    returns (out: seq<nat>, carry: nat, ghost N: nat)
    requires pool.FreeOk() && Live(pool, b, S) && p.S == S.Value() <= p.b
    requires LoopInv(p, s, v, mlo, mhi) && Digit(p, s, v, dig, b.Value())
    modifies pool.freelist, pool.freeSet, pool`free, pool`freeSet, b
    ensures pool.FreeOk() && RoundedOutput(out, carry, p.b, p.S, |s| + 1, N)
    ensures pool.freeSet <= old(pool.freeSet) + {b}
  {
    PlainStep(p.b, p.S, s, v, dig, b.Value());
    out, carry, N := RoundLast(pool, b, S, s + [dig], dig, p.b);
  }

  // How the loop ends: a stopping test has fired within the limit, or ilim digits are out and
  // rounded.
  datatype Ending = Ending(out: seq<nat>, carry: nat, limited: bool)

  ghost predicate EndsWell(p: Problem, single: bool, ilim: int, e: Ending, N: nat) {
    if e.limited
    then ilim > 0 && RoundedOutput(e.out, e.carry, p.b, p.S, ilim, N) && NothingShorter(p, ilim)
    else ShortestOutput(p, single, e.out, e.carry) && (ilim > 0 ==> |e.out| <= ilim)
  }

  // The part of the loop body from quorem to the test against ilim.
  method Emission(pool: Pool, b: Bigint, S: Bigint, mlo: Bigint, mhi: Bigint, even: bool, ilim: int,
                  ghost p: Problem, s: seq<nat>)
    returns (done: bool, e: Ending, ghost N: nat, dig: nat)
    requires Ready(pool, b, S, mlo, mhi) && p.S == S.Value() <= p.b && even == p.even
    requires LoopInv(p, s, b.Value(), mlo.Value(), mhi.Value()) && (ilim > 0 ==> |s| < ilim)
    modifies pool.freelist, pool.freeSet, pool`free, pool`freeSet, b
    ensures pool.FreeOk() && (done ==> EndsWell(p, p.S < BASE, ilim, e, N))
    ensures unchanged(S) && unchanged(mlo) && unchanged(mhi)
    ensures !done ==> Ready(pool, b, S, mlo, mhi) && (ilim > 0 ==> |s| + 1 < ilim)
    ensures !done ==> LoopInv(p, s + [dig], 10 * b.Value(), 10 * mlo.Value(), 10 * mhi.Value())
    ensures !done ==> mlo.Value() <= b.Value() <= p.S && mhi.Value() <= p.S
    ensures !done ==> forall n :: n in pool.freeSet ==> n in old(pool.freeSet) || fresh(n)
    ensures forall n :: n in pool.freeSet ==> n == b || n in old(pool.freeSet) || fresh(n)
  {
    ghost var v := b.Value();
    var o;
    ghost var r;
    e, N, done := Ending([], 0, false), 0, true;
    o, dig, r := Step(pool, b, S, mlo, mhi, even, p, s);
    if o != Continue {
      var out, carry := Stop(p, s, o, dig, v, mlo.Value(), mhi.Value(), r);
      e := Ending(out, carry, false);
      return;
    }
    LoopContinues(p, s, v, mlo.Value(), mhi.Value(), dig, r);
    if |s| + 1 == ilim {
      var out, carry;
      out, carry, N := StopAtLimit(pool, b, S, s, dig, p, v, mlo.Value(), mhi.Value());
      e := Ending(out, carry, true);
      return;
    }
    done := false;
  }

  ghost predicate Looping(pool: Pool, b: Bigint, S: Bigint, mlo: Bigint, mhi: Bigint, p: Problem, s: seq<nat>,
                          ilim: int)
    reads pool, pool.freelist, pool.freeSet, b, S, mlo, mhi
  {
    && Ready(pool, b, S, mlo, mhi) && p.S == S.Value() <= p.b
    && LoopInv(p, s, b.Value(), mlo.Value(), mhi.Value())
    && (ilim > 0 ==> |s| < ilim)
  }

  // A whole pass: the loop ends, or everything is scaled for the next digit.
  method Pass(pool: Pool, b0: Bigint, S: Bigint, mlo0: Bigint, mhi0: Bigint, even: bool, ilim: int,
              ghost p: Problem, s0: seq<nat>)
    returns (done: bool, e: Ending, ghost N: nat, b: Bigint, mlo: Bigint, mhi: Bigint, s: seq<nat>)
    requires Looping(pool, b0, S, mlo0, mhi0, p, s0, ilim) && even == p.even
    modifies pool.freelist, pool.freeSet, pool`free, pool`freeSet, b0, mlo0, mhi0
    ensures if done then pool.FreeOk() && EndsWell(p, p.S < BASE, ilim, e, N)
      else Looping(pool, b, S, mlo, mhi, p, s, ilim)
    ensures b in old(pool.freeSet) + {b0, mlo0, mhi0} || fresh(b)
    ensures mlo in old(pool.freeSet) + {b0, mlo0, mhi0} || fresh(mlo)
    ensures mhi in old(pool.freeSet) + {b0, mlo0, mhi0} || fresh(mhi)
    ensures forall n :: n in pool.freeSet ==> n in old(pool.freeSet) + {b0, mlo0, mhi0} || fresh(n)
    ensures !done ==> old(mlo0.Value()) < mlo.Value() <= 10 * p.S
  {
    var dig;
    done, e, N, dig := Emission(pool, b0, S, mlo0, mhi0, even, ilim, p, s0);
    s := s0 + [dig];
    if !done {
      b, mlo, mhi := ScaleUp(pool, b0, S, mlo0, mhi0);
    } else {
      b, mlo, mhi := b0, mlo0, mhi0;
    }
  }

  lemma Start(p: Problem)
    requires 0 < p.b < 10 * p.S && p.mlo > 0 && p.mhi > 0
    ensures LoopInv(p, [], p.b, p.mlo, p.mhi)
  {
    assert Pow(10, 0) == 1;
  }

  lemma Starts(pool: Pool, b: Bigint, S: Bigint, mlo: Bigint, mhi: Bigint, p: Problem, ilim: int)
    requires Ready(pool, b, S, mlo, mhi) && S.Value() <= b.Value() < 10 * S.Value()
    requires p.b == b.Value() && p.S == S.Value() && p.mlo == mlo.Value() && p.mhi == mhi.Value()
    ensures Looping(pool, b, S, mlo, mhi, p, [], ilim)
  {
    TopDigitPositive(S.x, S.wds);
    Start(p);
  }

  // The loop runs until a stopping test fires or, when ilim is positive, until ilim digits
  // are out and the last one is rounded; mlo grows tenfold each time and stays below S, so
  // it ends without a limit too.
  method ShortestDigits(pool: Pool, b0: Bigint, S: Bigint, mlo0: Bigint, mhi0: Bigint, even: bool, ilim: int,
                        ghost p: Problem)
    returns (e: Ending, ghost N: nat)
    requires Ready(pool, b0, S, mlo0, mhi0)
    requires p == Problem(b0.Value(), S.Value(), mlo0.Value(), mhi0.Value(), even)
    requires S.Value() <= b0.Value() < 10 * S.Value()
    modifies pool.freelist, pool.freeSet, pool`free, pool`freeSet, b0, mlo0, mhi0
    ensures pool.FreeOk() && EndsWell(p, S.Value() < BASE, ilim, e, N)
    ensures forall n :: n in pool.freeSet ==> n in old(pool.freeSet) + {b0, mlo0, mhi0} || fresh(n)
  {
    var s: seq<nat>, b, mlo, mhi := [], b0, mlo0, mhi0;
    ghost var mine := pool.freeSet + {b0, mlo0, mhi0};
    Starts(pool, b, S, mlo, mhi, p, ilim);
    while true
      invariant Looping(pool, b, S, mlo, mhi, p, s, ilim)
      invariant forall n :: n in pool.freeSet + {b, mlo, mhi} ==> n in mine || fresh(n)
      decreases 10 * p.S - mlo.Value()
    {
      var done;
      done, e, N, b, mlo, mhi, s := Pass(pool, b, S, mlo, mhi, even, ilim, p, s);
      if done { return; }
    }
  }
}

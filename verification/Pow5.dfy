/** pow5mult and its persistent chain of cached powers 5^4, 5^8, 5^16, ... */
module Pow5 {
  import opened Basics
  import opened Words
  import opened Bigints
  import Multiply
  import MultAdds

  // The power held by node j of the chain.
  function Power(j: nat): nat {
    Pow(5, 4 * Pow(2, j))
  }

  // The size class in which it is held.
  function NodeClass(j: nat): nat {
    if j == 0 then 1
    else Multiply.ProductClass(NodeClass(j - 1), Len(Power(j - 1)), NodeClass(j - 1), Len(Power(j - 1)))
  }

  ghost predicate Node(n: Bigint, j: nat)
    reads n
  {
    n.Normal() && n.Value() == Power(j) && n.k == NodeClass(j)
  }

  ghost predicate ChainLinked(p5s: Bigint?, chain: seq<Bigint>)
    reads chain
  {
    && p5s == (if chain == [] then null else chain[0])
    && (forall j :: 0 <= j < |chain| - 1 ==> chain[j].next == chain[j + 1])
    && (chain != [] ==> chain[|chain| - 1].next == null)
    && Distinct(chain)
  }

  ghost predicate ChainValues(pool: Pool)
    reads pool, pool.chain
  {
    && (forall j :: 0 <= j < |pool.chain| ==> pool.chain[j] !in pool.freeSet)
    && (forall j :: 0 <= j < |pool.chain| ==> Node(pool.chain[j], j))
  }

  // Node j of the chain is 5^(4*2^j), the chain ends in null, and no node is ever free.
  ghost predicate ChainOk(pool: Pool)
    reads pool, pool.chain
  {
    ChainLinked(pool.p5s, pool.chain) && ChainValues(pool)
  }

  twostate lemma ChainKept(pool: Pool)
    requires old(ChainOk(pool)) && pool.chain == old(pool.chain) && pool.p5s == old(pool.p5s)
    requires forall j :: 0 <= j < |pool.chain| ==> pool.chain[j] !in pool.freeSet
    requires forall j :: 0 <= j < |pool.chain| ==> unchanged(pool.chain[j])
    ensures ChainOk(pool)
  {
  }

  lemma PowerStep(j: nat)
    ensures Power(j + 1) == Power(j) * Power(j)
    ensures Power(j) > 0
  {
    assert 4 * Pow(2, j + 1) == 4 * Pow(2, j) + 4 * Pow(2, j);
    PowAdd(5, 4 * Pow(2, j), 4 * Pow(2, j));
    PowPositive(5, 4 * Pow(2, j));
  }

  // i2b, for a number of one digit.
  method I2b(pool: Pool, i: nat) returns (b: Bigint)
    requires pool.FreeOk() && i < BASE
    modifies pool.freelist, pool.freeSet, pool`free, pool`freeSet
    ensures pool.FreeOk() && b !in pool.freeSet && (fresh(b) || b in old(pool.freeSet))
    ensures pool.freeSet <= old(pool.freeSet)
    ensures b.k == 1 && b.Normal() && b.wds == 1 && b.x[0] == i && b.Value() == i
  {
    b := pool.Balloc(1);
    assert Pow(2, 1) == 2;
    b.x := b.x[0 := i];
    b.wds := 1;
    assert Val(b.x, 0) == 0;
  }

  lemma FirstValue(x: seq<nat>)
    requires |x| > 0 && x[0] == 625
    ensures Val(x, 1) == Power(0)
  {
    assert Val(x, 0) == 0 && Pow(BASE, 0) == 1;
    assert Pow(2, 0) == 1 && Pow(5, 4) == 625;
  }

  // i2b(625) starts the chain.
  method FirstPower(pool: Pool)
    requires pool.FreeOk() && ChainOk(pool)
    modifies pool, pool.freelist, pool.freeSet
    ensures pool.FreeOk() && ChainOk(pool) && |pool.chain| > 0
    ensures old(pool.chain) <= pool.chain && pool.freeSet <= old(pool.freeSet)
    ensures forall n :: n in pool.chain ==> n in old(pool.chain) || n in old(pool.freeSet) || fresh(n)
  {
    if pool.p5s == null {
      var p5 := I2b(pool, 625);
      p5.next := null;
      FirstValue(p5.x);
      pool.p5s := p5;
      pool.chain := [p5];
    }
  }

  lemma DigitsOf(b: Bigint)
    requires b.Normal() && b.Value() > 0
    ensures b.wds == Len(b.Value())
  {
    if b.wds == 1 { assert Val(b.x, 0) == 0; }
    LenOfDigits(b.x, b.wds);
  }

  method Square(pool: Pool, ghost j: nat, p5: Bigint) returns (p51: Bigint)
    requires pool.FreeOk() && ChainOk(pool) && j < |pool.chain| && pool.chain[j] == p5 && NodeClass(j + 1) <= KMAX
    modifies pool.freelist, pool.freeSet, pool`free, pool`freeSet
    ensures pool.FreeOk() && ChainOk(pool) && Node(p51, j + 1)
    ensures p51 !in pool.freeSet && p51 !in pool.chain
    ensures pool.freeSet <= old(pool.freeSet) && (fresh(p51) || p51 in old(pool.freeSet))
  {
    PowerStep(j);
    PowerStep(j + 1);
    DigitsOf(p5);
    p51 := Multiply.Mult(pool, p5, p5);
    ChainKept(pool);
  }

  method Link(p5: Bigint, p51: Bigint, ghost p5s: Bigint?, ghost chain: seq<Bigint>)
    requires ChainLinked(p5s, chain) && chain != [] && p5 == chain[|chain| - 1] && p51 !in chain
    modifies p5`next, p51`next
    ensures ChainLinked(p5s, chain + [p51])
  {
    p5.next := p51;
    p51.next := null;
  }

  ghost method Extend(pool: Pool, p51: Bigint)
    requires ChainValues(pool) && ChainLinked(pool.p5s, pool.chain + [p51])
    requires p51 !in pool.freeSet && Node(p51, |pool.chain|)
    modifies pool`chain
    ensures ChainOk(pool) && pool.chain == old(pool.chain) + [p51]
  {
    pool.chain := pool.chain + [p51];
  }

  method Append(pool: Pool, p5: Bigint, p51: Bigint)
    requires pool.FreeOk() && ChainOk(pool) && pool.chain != [] && p5 == pool.chain[|pool.chain| - 1]
    requires p51 !in pool.freeSet && p51 !in pool.chain && Node(p51, |pool.chain|)
    modifies pool`chain, p5`next, p51`next
    ensures pool.FreeOk() && ChainOk(pool) && pool.chain == old(pool.chain) + [p51]
  {
    Link(p5, p51, pool.p5s, pool.chain);
    Extend(pool, p51);
  }

  // The next node, squaring the last one when the chain ends there.
  method NextPower(pool: Pool, ghost j: nat, p5: Bigint) returns (p51: Bigint)
    requires pool.FreeOk() && ChainOk(pool) && j < |pool.chain| && pool.chain[j] == p5 && NodeClass(j + 1) <= KMAX
    modifies pool, pool.freelist, pool.freeSet, p5`next
    ensures pool.FreeOk() && ChainOk(pool) && j + 1 < |pool.chain| && pool.chain[j + 1] == p51
    ensures old(pool.chain) <= pool.chain && pool.freeSet <= old(pool.freeSet)
    ensures forall n :: n in pool.chain ==> n in old(pool.chain) || n in old(pool.freeSet) || fresh(n)
  {
    assert j < |pool.chain| - 1 ==> pool.chain[j].next == pool.chain[j + 1];
    if p5.next == null {
      p51 := Square(pool, j, p5);
      Append(pool, p5, p51);
    } else {
      p51 := p5.next;
    }
  }

  lemma {:induction false} PowOfSquare(p: nat, h: nat)
    ensures Pow(p * p, h) == Pow(p, 2 * h)
  {
    if h > 0 {
      PowOfSquare(p, h - 1);
      var t := Pow(p, 2 * (h - 1));
      assert Pow(p, 2 * h) == p * Pow(p, 2 * h - 1);
      assert Pow(p, 2 * h - 1) == p * t;
      assert p * (p * t) == (p * p) * t;
    }
  }

  // 5^(4*2^j*k) splits off the factor of chain node j when k is odd.
  lemma PowerSplit(j: nat, k: nat)
    ensures Pow(Power(j), k) == Pow(Power(j + 1), k / 2) * (if k % 2 == 1 then Power(j) else 1)
  {
    PowerStep(j);
    PowOfSquare(Power(j), k / 2);
    assert k == 2 * (k / 2) + k % 2;
  }

  lemma {:induction false} PowPow(b: nat, e: nat, f: nat)
    ensures Pow(Pow(b, e), f) == Pow(b, e * f)
  {
    if f > 0 {
      PowPow(b, e, f - 1);
      assert e * f == e + e * (f - 1);
      PowAdd(b, e, e * (f - 1));
    }
  }

  lemma LowBits(k: nat)
    ensures Pow(5, k) == Pow(5, k % 4) * Pow(Power(0), k / 4)
    ensures k % 4 == 1 ==> Pow(5, k % 4) == 5
    ensures k % 4 == 2 ==> Pow(5, k % 4) == 25
    ensures k % 4 == 3 ==> Pow(5, k % 4) == 125
    ensures k % 4 == 0 ==> Pow(5, k % 4) == 1
  {
    PowAdd(5, k % 4, 4 * (k / 4));
    assert Pow(2, 0) == 1;
    PowPow(5, 4, k / 4);
    assert Pow(5, 3) == 125;
  }

  // The single digits handled by multadd before the chain is consulted.
  method MulLowPower(pool: Pool, b0: Bigint, i: nat) returns (b: Bigint)
    requires pool.FreeOk() && b0 !in pool.freeSet && b0.Trim() && b0.k <= KMAX && i < 4
    requires MultAdds.SumClass(b0.Value(), b0.wds, b0.k, Pow(5, i), 0) <= KMAX
    modifies pool.freelist, pool.freeSet, pool`free, pool`freeSet, b0
    ensures pool.FreeOk() && b !in pool.freeSet
    ensures b.k == old(MultAdds.SumClass(b0.Value(), b0.wds, b0.k, Pow(5, i), 0))
    ensures b.wds == old(b0.wds) + if old(MultAdds.Carries(b0.Value(), b0.wds, Pow(5, i), 0)) then 1 else 0
    ensures b == b0 || fresh(b) || b in old(pool.freeSet)
    ensures pool.freeSet <= old(pool.freeSet) + {b0}
    ensures b.Trim() && b.Value() == old(b0.Value()) * Pow(5, i)
    ensures old(b0.Normal()) ==> b.Normal()
  {
    LowBits(i);
    ValBound(b0.x, b0.wds);
    b := b0;
    if i != 0 {
      b := MultAdds.MultAdd(pool, b, [5, 25, 125][i - 1], 0);
    }
  }

  // b := b * p5, releasing the old b.
  method MulInto(pool: Pool, b0: Bigint, p5: Bigint) returns (b: Bigint)
    requires pool.FreeOk() && b0 !in pool.freeSet && p5 !in pool.freeSet && b0 != p5
    requires b0.Trim() && p5.Normal() && b0.k <= KMAX
    requires Multiply.ProductClass(b0.k, b0.wds, p5.k, p5.wds) <= KMAX
    modifies pool.freelist, pool.freeSet, pool`free, pool`freeSet, b0
    ensures pool.FreeOk() && b !in pool.freeSet && b != p5
    ensures b.k == old(Multiply.ProductClass(b0.k, b0.wds, p5.k, p5.wds))
    ensures fresh(b) || b in old(pool.freeSet)
    ensures pool.freeSet <= old(pool.freeSet) + {b0}
    ensures b.Trim() && b.Value() == old(b0.Value()) * p5.Value() && b.wds == Len(b.Value())
    ensures b.Value() > 0 ==> b.Normal()
  {
    b := Multiply.Mult(pool, b0, p5);
    pool.Bfree(b0);
  }

  ghost predicate Ready(pool: Pool, b: Bigint)
    reads pool, pool.freelist, pool.freeSet, pool.chain, b
  {
    pool.FreeOk() && ChainOk(pool) && b !in pool.freeSet && b !in pool.chain && b.Trim()
  }

  // The numbers a round leaves: value, digits and size class of b.
  datatype Size = Size(v: nat, wds: nat, k: nat)

  ghost function SizeOf(b: Bigint): Size
    reads b
    requires b.wds <= |b.x|
  {
    Size(b.Value(), b.wds, b.k)
  }

  function AfterRound(s: Size, j: nat, odd: bool): Size {
    if odd
    then Size(s.v * Power(j), Len(s.v * Power(j)), Multiply.ProductClass(s.k, s.wds, NodeClass(j), Len(Power(j))))
    else s
  }

  method OddRound(pool: Pool, b0: Bigint, ghost j: nat, p5: Bigint) returns (b: Bigint)
    requires Ready(pool, b0) && j < |pool.chain| && p5 == pool.chain[j] && b0.k <= KMAX
    requires AfterRound(SizeOf(b0), j, true).k <= KMAX
    modifies pool.freelist, pool.freeSet, pool`free, pool`freeSet, b0
    ensures Ready(pool, b) && (fresh(b) || b in old(pool.freeSet))
    ensures pool.freeSet <= old(pool.freeSet) + {b0}
    ensures SizeOf(b) == AfterRound(old(SizeOf(b0)), j, true)
    ensures b.Value() > 0 ==> b.Normal()
    ensures old(b0.Value()) > 0 ==> b.Value() > 0
  {
    PowerStep(j);
    DigitsOf(p5);
    if b0.Value() > 0 { MulLe(1, Power(j), b0.Value()); }
    b := MulInto(pool, b0, p5);
    ChainKept(pool);
  }

  // One round of the loop after its exit test.
  method Round(pool: Pool, b0: Bigint, ghost j: nat, p5: Bigint, odd: bool) returns (b: Bigint)
    requires Ready(pool, b0) && j < |pool.chain| && p5 == pool.chain[j] && b0.k <= KMAX
    requires AfterRound(SizeOf(b0), j, odd).k <= KMAX
    modifies pool.freelist, pool.freeSet, pool`free, pool`freeSet, b0
    ensures Ready(pool, b)
    ensures b == b0 || fresh(b) || b in old(pool.freeSet)
    ensures pool.freeSet <= old(pool.freeSet) + {b0}
    ensures SizeOf(b) == AfterRound(old(SizeOf(b0)), j, odd)
    ensures old(b0.Normal()) && old(b0.Value()) > 0 ==> b.Normal()
  {
    b := b0;
    if odd {
      b := OddRound(pool, b0, j, p5);
    }
  }

  // The largest size class is never left, neither by b nor by a chain node it needs, while k
  // is worked off from node j on.
  predicate LoopFits(s: Size, j: nat, k: nat)
    decreases k
  {
    k > 0 ==>
      var t := AfterRound(s, j, k % 2 == 1);
      t.k <= KMAX && (k / 2 > 0 ==> NodeClass(j + 1) <= KMAX && LoopFits(t, j + 1, k / 2))
  }

  // The size at the end.
  function Finally(s: Size, j: nat, k: nat): Size
    decreases k
  {
    if k == 0 then s else Finally(AfterRound(s, j, k % 2 == 1), j + 1, k / 2)
  }

  // b times the power of five still to come when the loop is at chain node j with k left.
  ghost function Owed(v: nat, j: nat, k: nat): nat {
    v * Pow(Power(j), k)
  }

  lemma OwedStep(v: nat, j: nat, k: nat, w: nat)
    requires w == v * (if k % 2 == 1 then Power(j) else 1)
    ensures Owed(w, j + 1, k / 2) == Owed(v, j, k)
    ensures k < 2 ==> Owed(w, j + 1, k / 2) == w
    ensures v > 0 ==> w > 0
  {
    PowerSplit(j, k);
    PowerStep(j);
    Regroup(v, if k % 2 == 1 then Power(j) else 1, Pow(Power(j + 1), k / 2));
    assert Pow(Power(j + 1), 0) == 1;
    if k % 2 == 1 { MulLe(1, Power(j), v); }
  }

  // The loop body: one bit of k.
  method LoopBody(pool: Pool, b0: Bigint, ghost j: nat, p50: Bigint, k0: nat) returns (b: Bigint, p5: Bigint, k: nat)
    requires Ready(pool, b0) && k0 > 0 && j < |pool.chain| && p50 == pool.chain[j]
    requires b0.k <= KMAX && LoopFits(SizeOf(b0), j, k0)
    modifies pool, pool.freelist, pool.freeSet, pool.chain, b0
    ensures Ready(pool, b) && k == k0 / 2 && b.k <= KMAX
    ensures SizeOf(b) == AfterRound(old(SizeOf(b0)), j, k0 % 2 == 1)
    ensures k > 0 ==> j + 1 < |pool.chain| && p5 == pool.chain[j + 1] && LoopFits(SizeOf(b), j + 1, k)
    ensures Owed(b.Value(), j + 1, k) == Owed(old(b0.Value()), j, k0)
    ensures old(b0.Normal()) && old(b0.Value()) > 0 ==> b.Normal() && b.Value() > 0
    ensures b == b0 || fresh(b) || b in old(pool.freeSet)
    ensures pool.freeSet <= old(pool.freeSet) + {b0}
    ensures forall n :: n in pool.chain ==> n in old(pool.chain) || n in old(pool.freeSet) || n == b0 || fresh(n)
  {
    p5 := p50;
    b := Round(pool, b0, j, p5, k0 % 2 == 1);
    OwedStep(old(b0.Value()), j, k0, b.Value());
    k := k0 / 2;
    if k > 0 {
      p5 := NextPower(pool, j, p5);
    }
  }

  method Pow5Loop(pool: Pool, b0: Bigint, k0: nat) returns (b: Bigint)
    requires Ready(pool, b0) && |pool.chain| > 0 && k0 > 0 && b0.k <= KMAX && LoopFits(SizeOf(b0), 0, k0)
    modifies pool, pool.freelist, pool.freeSet, pool.chain, b0
    ensures Ready(pool, b) && b.k <= KMAX && SizeOf(b) == Finally(old(SizeOf(b0)), 0, k0)
    ensures b.Value() == Owed(old(b0.Value()), 0, k0)
    ensures old(b0.Normal()) && old(b0.Value()) > 0 ==> b.Normal()
    ensures b == b0 || fresh(b) || b in old(pool.freeSet)
    ensures forall n :: n in pool.freeSet ==> n == b0 || n in old(pool.freeSet) || fresh(n)
    ensures forall n :: n in pool.chain ==> n in old(pool.chain) || n in old(pool.freeSet) || n == b0 || fresh(n)
  {
    b := b0;
    var k := k0;
    var p5 := pool.p5s;
    ghost var j := 0;
    while k > 0
      invariant Ready(pool, b) && b.k <= KMAX && Finally(SizeOf(b), j, k) == Finally(old(SizeOf(b0)), 0, k0)
      invariant k > 0 ==> j < |pool.chain| && p5 == pool.chain[j] && LoopFits(SizeOf(b), j, k)
      invariant Owed(b.Value(), j, k) == Owed(old(b0.Value()), 0, k0)
      invariant old(b0.Normal()) && old(b0.Value()) > 0 ==> b.Normal() && b.Value() > 0
      invariant b == b0 || fresh(b) || b in old(pool.freeSet)
      invariant forall n :: n in pool.freeSet ==> n == b0 || n in old(pool.freeSet) || fresh(n)
      invariant forall n :: n in pool.chain ==> n in old(pool.chain) || n in old(pool.freeSet) || n == b0 || fresh(n)
      decreases k
    {
      b, p5, k := LoopBody(pool, b, j, p5, k);
      j := j + 1;
    }
    assert Pow(Power(j), 0) == 1;
  }

  ghost function AfterLow(s: Size, i: nat): Size {
    Size(s.v * Pow(5, i), s.wds + (if MultAdds.Carries(s.v, s.wds, Pow(5, i), 0) then 1 else 0),
         MultAdds.SumClass(s.v, s.wds, s.k, Pow(5, i), 0))
  }

  // No size class beyond the last is asked for: the only limit the code has.
  ghost predicate Fits(s: Size, k: nat) {
    s.k <= KMAX && AfterLow(s, k % 4).k <= KMAX && LoopFits(AfterLow(s, k % 4), 0, k / 4)
  }

  ghost function AfterAll(s: Size, k: nat): Size {
    Finally(AfterLow(s, k % 4), 0, k / 4)
  }

  lemma LowAndHigh(v: nat, k: nat, w: nat)
    requires w == v * Pow(5, k % 4)
    ensures Owed(w, 0, k / 4) == v * Pow(5, k)
    ensures k / 4 == 0 ==> w == v * Pow(5, k)
    ensures v > 0 ==> w > 0
  {
    LowBits(k);
    Regroup(v, Pow(5, k % 4), Pow(Power(0), k / 4));
    assert Pow(Power(0), 0) == 1;
    PowPositive(5, k % 4);
    if v > 0 { MulLe(1, v, Pow(5, k % 4)); }
  }

  // The rest, by the chain, which is started if need be.
  method MulHighPower(pool: Pool, b0: Bigint, k0: nat) returns (b: Bigint)
    requires Ready(pool, b0) && k0 > 0 && b0.k <= KMAX && LoopFits(SizeOf(b0), 0, k0)
    modifies pool, pool.freelist, pool.freeSet, pool.chain, b0
    ensures Ready(pool, b) && b.k <= KMAX && SizeOf(b) == Finally(old(SizeOf(b0)), 0, k0)
    ensures b.Value() == Owed(old(b0.Value()), 0, k0)
    ensures old(b0.Normal()) && old(b0.Value()) > 0 ==> b.Normal()
    ensures b == b0 || fresh(b) || b in old(pool.freeSet)
    ensures forall n :: n in pool.freeSet ==> n == b0 || n in old(pool.freeSet) || fresh(n)
    ensures forall n :: n in pool.chain ==> n in old(pool.chain) || n in old(pool.freeSet) || n == b0 || fresh(n)
  {
    FirstPower(pool);
    b := Pow5Loop(pool, b0, k0);
  }

  // What k leaves modulo four, before the chain is consulted.
  method LowPower(pool: Pool, b0: Bigint, k0: nat) returns (b: Bigint)
    requires Ready(pool, b0) && Fits(SizeOf(b0), k0)
    modifies pool.freelist, pool.freeSet, pool`free, pool`freeSet, b0
    ensures Ready(pool, b) && SizeOf(b) == AfterLow(old(SizeOf(b0)), k0 % 4)
    ensures Owed(b.Value(), 0, k0 / 4) == old(b0.Value()) * Pow(5, k0)
    ensures k0 / 4 == 0 ==> b.Value() == old(b0.Value()) * Pow(5, k0)
    ensures old(b0.Normal()) && old(b0.Value()) > 0 ==> b.Normal() && b.Value() > 0
    ensures b == b0 || fresh(b) || b in old(pool.freeSet)
    ensures pool.freeSet <= old(pool.freeSet) + {b0}
  {
    b := MulLowPower(pool, b0, k0 % 4);
    ChainKept(pool);
    LowAndHigh(old(b0.Value()), k0, b.Value());
  }

  // b * 5^k, whatever state earlier calls have left the chain in.
  method Pow5Mult(pool: Pool, b0: Bigint, k0: nat) returns (b: Bigint)
    requires Ready(pool, b0) && Fits(SizeOf(b0), k0)
    modifies pool, pool.freelist, pool.freeSet, pool.chain, b0
    ensures Ready(pool, b) && b.k <= KMAX && SizeOf(b) == AfterAll(old(SizeOf(b0)), k0)
    ensures b.Value() == old(b0.Value()) * Pow(5, k0)
    ensures old(b0.Normal()) && old(b0.Value()) > 0 ==> b.Normal()
    ensures b == b0 || fresh(b) || b in old(pool.freeSet)
    ensures forall n :: n in pool.freeSet ==> n == b0 || n in old(pool.freeSet) || fresh(n)
    ensures forall n :: n in pool.chain ==> n in old(pool.chain) || n in old(pool.freeSet) || n == b0 || fresh(n)
  {
    b := LowPower(pool, b0, k0);
    if k0 / 4 != 0 {
      b := MulHighPower(pool, b, k0 / 4);
    }
  }

  // Node j is in class j, but for the first.
  lemma {:induction false} NodeClassBound(j: nat)
    ensures NodeClass(j) <= if j == 0 then 1 else j
  {
    if j == 1 {
      assert Pow(2, 1) == 2 && Pow(2, 0) == 1 && Power(0) == Pow(5, 4) == 625;
      assert Len(625 / BASE) == 0;
    } else if j > 1 {
      NodeClassBound(j - 1);
    }
  }

  // Enough for the exponents of a double: one class for every bit.
  lemma {:induction false} BitsFit(s: Size, j: nat, k: nat)
    requires s.k + Bits(k) <= KMAX && NodeClass(j) + Bits(k) <= KMAX
    ensures LoopFits(s, j, k)
    decreases k
  {
    if k > 0 { BitsFit(AfterRound(s, j, k % 2 == 1), j + 1, k / 2); }
  }

  lemma EvenRound(s: Size, j: nat, h: nat)
    requires h > 0 && s.k <= KMAX && NodeClass(j + 1) <= KMAX && LoopFits(s, j + 1, h)
    ensures LoopFits(s, j, 2 * h)
  {
    assert (2 * h) % 2 == 0 && (2 * h) / 2 == h;
  }

  // A power of two needs one multiplication only, whatever the number of squarings.
  lemma {:induction false} SquaringsFit(s: Size, j: nat, t: nat)
    requires s.k < KMAX && j + t < KMAX
    ensures LoopFits(s, j, Pow(2, t))
    decreases t
  {
    NodeClassBound(j);
    if t > 0 {
      NodeClassBound(j + 1);
      PowPositive(2, t - 1);
      SquaringsFit(s, j + 1, t - 1);
      EvenRound(s, j, Pow(2, t - 1));
    }
  }

  lemma {:induction false} FinallyBound(s: Size, j: nat, k: nat, c: nat)
    requires s.k <= c && NodeClass(j) <= c
    ensures Finally(s, j, k).k <= c + Bits(k)
    decreases k
  {
    if k > 0 { FinallyBound(AfterRound(s, j, k % 2 == 1), j + 1, k / 2, c + 1); }
  }

  lemma {:induction false} NodeClassPositive(j: nat)
    ensures NodeClass(j) > 0
  {
    if j > 0 { NodeClassPositive(j - 1); }
  }

  lemma {:induction false} FinallyPositive(s: Size, j: nat, k: nat)
    requires s.k > 0
    ensures Finally(s, j, k).k > 0
    decreases k
  {
    if k > 0 {
      NodeClassPositive(j);
      FinallyPositive(AfterRound(s, j, k % 2 == 1), j + 1, k / 2);
    }
  }

  lemma FitsSimply(s: Size, k: nat)
    requires 0 < s.k && s.k + 1 + Bits(k / 4) <= KMAX
    ensures Fits(s, k) && 0 < AfterAll(s, k).k <= s.k + 1 + Bits(k / 4)
  {
    BitsFit(AfterLow(s, k % 4), 0, k / 4);
    FinallyBound(AfterLow(s, k % 4), 0, k / 4, s.k + 1);
    FinallyPositive(AfterLow(s, k % 4), 0, k / 4);
  }

  // So 5^65536 times a number of any class but the last can be formed.
  lemma PowersOfTwoFit(s: Size, t: nat)
    requires s.v < Pow(BASE, s.wds) && s.k < KMAX && t < KMAX
    ensures Fits(s, 4 * Pow(2, t))
  {
    assert Pow(5, 0) == 1 && AfterLow(s, 0) == s;
    assert (4 * Pow(2, t)) % 4 == 0 && (4 * Pow(2, t)) / 4 == Pow(2, t);
    SquaringsFit(s, 0, t);
  }
}

/** The Bigint record of lib_dtoa.c and the free lists it is recycled through. */
module Bigints {
  import opened Basics
  import opened Words

  const KMAX: nat := 15

  // The digits sit inside the C structure (its last member is x[1], over-allocated), so
  // they are a field here: a write to a digit is a write to this object.  |x| is maxwds.
  class Bigint {
    const k: nat
    var next: Bigint?
    var sign: nat
    var wds: nat
    var x: seq<nat>

    constructor (k: nat)
      ensures this.k == k && |x| == Pow(2, k)
    {
      this.k := k;
      next, sign, wds := null, 0, 0;
      x := seq(Pow(2, k), i => 0);
    }

    ghost predicate Sized()
      reads this
    {
      |x| == Pow(2, k)
    }

    // What every operation may rely on.  quorem leaves zero as "no digits" when the
    // divisor has one digit, and the do-while loops still read x[0] then.
    ghost predicate Ok()
      reads this
    {
      && Sized()
      && wds <= |x|
      && Digits(x, wds)
      && (wds == 0 ==> 0 < |x| && x[0] == 0)
    }

    // No leading zero digit, except that the number 0 may be the single digit 0.
    ghost predicate Trim()
      reads this
    {
      Ok() && (wds > 1 ==> x[wds - 1] > 0)
    }

    ghost predicate Normal()
      reads this
    {
      Trim() && wds > 0
    }

    ghost function Value(): nat
      requires wds <= |x|
      reads this
    {
      Val(x, wds)
    }
  }

  // A null-terminated chain of next pointers visiting exactly the nodes of s.
  ghost predicate Linked(head: Bigint?, s: seq<Bigint>)
    reads s
  {
    if s == [] then head == null
    else head == s[0] && Linked(s[0].next, s[1..])
  }

  class Pool {
    const freelist: array<Bigint?>
    var p5s: Bigint?
    ghost var free: seq<seq<Bigint>>
    ghost var freeSet: set<Bigint>
    ghost var chain: seq<Bigint>

    ghost predicate FreeOk()
      reads this`free, this`freeSet, freelist, freeSet
    {
      && freelist.Length == KMAX + 1 == |free|
      && (forall j, n :: 0 <= j <= KMAX && n in free[j] ==> n in freeSet && n.k == j)
      && (forall n :: n in freeSet ==> n.Sized())
      && (forall j :: 0 <= j <= KMAX ==> Linked(freelist[j], free[j]))
      && (forall j :: 0 <= j <= KMAX ==> Distinct(free[j]))
    }

    // The table of free lists as it is linked in, and no power cached yet.
    constructor ()
      ensures FreeOk() && freeSet == {} && p5s == null && chain == [] && fresh(freelist)
    {
      freelist := new Bigint?[KMAX + 1](_ => null);
      p5s, free, freeSet, chain := null, seq(KMAX + 1, _ => []), {}, [];
    }

    // The first number of a free list leaves it.
    method Pop(k: nat) returns (rv: Bigint)
      requires FreeOk() && k <= KMAX && freelist[k] != null
      modifies freelist, this`free, this`freeSet
      ensures FreeOk() && rv in old(freeSet) && freeSet == old(freeSet) - {rv} && rv.k == k && rv.Sized()
      ensures rv == old(freelist[k]) && freelist[k] == rv.next
      ensures forall j :: 0 <= j <= KMAX && j != k ==> freelist[j] == old(freelist[j])
    {
      rv := freelist[k];
      assert rv == free[k][0] && rv in free[k];
      assert rv.k == k;
      assert rv !in free[k][1..];
      freelist[k] := rv.next;
      free := free[k := free[k][1..]];
      freeSet := freeSet - {rv};
    }

    method Balloc(k: nat) returns (rv: Bigint)
      requires FreeOk() && k <= KMAX
      modifies freelist, freeSet, this`free, this`freeSet
      ensures FreeOk() && freeSet == old(freeSet) - {rv}
      ensures if old(freelist[k]) == null then fresh(rv) else rv == old(freelist[k]) && rv in old(freeSet)
      ensures forall j :: 0 <= j <= KMAX && j != k ==> freelist[j] == old(freelist[j])
      ensures freelist[k] == if old(freelist[k]) == null then null else old(freelist[k].next)
      ensures rv.k == k && rv.Sized() && rv.sign == 0 && rv.wds == 0
    {
      if freelist[k] != null {
        rv := Pop(k);
      } else {
        rv := new Bigint(k);
      }
      rv.sign, rv.wds := 0, 0;
    }

    method Bfree(v: Bigint?)
      requires FreeOk() && (v != null ==> v !in freeSet && v.k <= KMAX && v.Sized())
      modifies freelist, if v == null then {} else {v}, this`free, this`freeSet
      ensures FreeOk()
      ensures freeSet == old(freeSet) + (if v == null then {} else {v})
      ensures v != null ==> freelist[v.k] == v && v.next == old(freelist[v.k])
      ensures forall j :: 0 <= j <= KMAX && (v == null || j != v.k) ==> freelist[j] == old(freelist[j])
      ensures v != null ==> v.x == old(v.x) && v.wds == old(v.wds) && v.sign == old(v.sign)
    {
      if v != null {
        v.next := freelist[v.k];
        freelist[v.k] := v;
        free := free[v.k := [v] + free[v.k]];
        freeSet := freeSet + {v};
      }
    }
  }
}

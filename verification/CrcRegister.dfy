/** The shift register of a reflected 32-bit CRC, as 32 bits with the low one first. */
module CrcRegister {

  type Bits = seq<bool>

  function Xor(a: Bits, b: Bits): (x: Bits)
    requires |a| == |b|
    ensures |x| == |a|
    ensures forall i :: 0 <= i < |a| ==> x[i] == (a[i] != b[i])
  {
    seq(|a|, i requires 0 <= i < |a| => a[i] != b[i])
  }

  // The register without its low bit, a clear bit entering at the top.
  function Down(r: Bits): (x: Bits)
    requires r != []
    ensures |x| == |r|
  {
    r[1..] + [false]
  }

  // One shift: the polynomial is added when a set bit falls out.
  function Shift(poly: Bits, r: Bits): (x: Bits)
    requires |r| == |poly| > 0
    ensures |x| == |r|
  {
    if r[0] then Xor(Down(r), poly) else Down(r)
  }

  // One message bit: added at the low end, then a shift.
  function Feed(poly: Bits, r: Bits, b: bool): (x: Bits)
    requires |r| == |poly| > 0
    ensures |x| == |r|
  {
    Shift(poly, r[0 := r[0] != b])
  }

  // The register run over a string of bits.
  function Run(poly: Bits, r: Bits, bits: Bits): (x: Bits)
    requires |r| == |poly| > 0
    ensures |x| == |r|
    decreases |bits|
  {
    if bits == [] then r else Run(poly, Feed(poly, r, bits[0]), bits[1..])
  }

  // Feeding is linear: differences evolve on their own.
  lemma FeedLinear(poly: Bits, r: Bits, s: Bits, b: bool, c: bool)
    requires |r| == |s| == |poly| > 0
    ensures Feed(poly, Xor(r, s), b != c) == Xor(Feed(poly, r, b), Feed(poly, s, c))
  {
    var x, y := Feed(poly, Xor(r, s), b != c), Xor(Feed(poly, r, b), Feed(poly, s, c));
    forall i | 0 <= i < |r| ensures x[i] == y[i] { }
  }

  lemma {:induction false} RunLinear(poly: Bits, r: Bits, s: Bits, bits: Bits, cits: Bits)
    requires |r| == |s| == |poly| > 0 && |bits| == |cits|
    ensures Run(poly, Xor(r, s), Xor(bits, cits)) == Xor(Run(poly, r, bits), Run(poly, s, cits))
    decreases |bits|
  {
    if bits != [] {
      FeedLinear(poly, r, s, bits[0], cits[0]);
      assert Xor(bits, cits)[1..] == Xor(bits[1..], cits[1..]);
      RunLinear(poly, Feed(poly, r, bits[0]), Feed(poly, s, cits[0]), bits[1..], cits[1..]);
    }
  }

  lemma {:induction false} RunAppend(poly: Bits, r: Bits, s: Bits, t: Bits)
    requires |r| == |poly| > 0
    ensures Run(poly, r, s + t) == Run(poly, Run(poly, r, s), t)
    decreases |s|
  {
    if s == [] {
      assert s + t == t;
    } else {
      assert (s + t)[1..] == s[1..] + t;
      RunAppend(poly, Feed(poly, r, s[0]), s[1..], t);
    }
  }

  ghost predicate Zero(r: Bits) {
    forall i :: 0 <= i < |r| ==> !r[i]
  }

  // Some bit at position lo or above is set.
  ghost predicate SetFrom(r: Bits, lo: int) {
    exists i :: lo <= i < |r| && 0 <= i && r[i]
  }

  // A set bit moves down by one place at a time; when it falls out, or any other does, a
  // new one enters at the top, where the polynomial's own top bit is.
  lemma FeedKeepsSet(poly: Bits, r: Bits, b: bool, lo: nat)
    requires |r| == |poly| > 1 && poly[|poly| - 1] && 0 < lo && SetFrom(r, lo)
    ensures SetFrom(Feed(poly, r, b), lo - 1)
  {
    var x := Feed(poly, r, b);
    var i :| lo <= i < |r| && r[i];
    if r[0] != b {
      assert x[|r| - 1];
    } else {
      assert x[i - 1];
    }
  }

  // So a difference that has reached the top is still there up to one bit less than the
  // register's length later, whatever further differences arrive.
  lemma {:induction false} StaysSet(poly: Bits, r: Bits, bits: Bits, lo: nat)
    requires |r| == |poly| > 1 && poly[|poly| - 1] && |bits| <= lo && SetFrom(r, lo)
    ensures SetFrom(Run(poly, r, bits), lo - |bits|)
    decreases |bits|
  {
    if bits != [] {
      FeedKeepsSet(poly, r, bits[0], lo);
      StaysSet(poly, Feed(poly, r, bits[0]), bits[1..], lo - 1);
    }
  }

  // With no further input a difference never dies out: shifting loses nothing.
  lemma FeedInjective(poly: Bits, r: Bits, b: bool)
    requires |r| == |poly| > 0 && poly[|poly| - 1] && !Zero(r)
    ensures !Zero(Feed(poly, r, false))
  {
    var x := Feed(poly, r, false);
    if r[0] {
      assert x[|r| - 1];
    } else {
      var i :| 0 <= i < |r| && r[i];
      assert x[i - 1];
    }
  }

  lemma {:induction false} QuietKeepsDifference(poly: Bits, r: Bits, bits: Bits)
    requires |r| == |poly| > 0 && poly[|poly| - 1] && !Zero(r) && Zero(bits)
    ensures !Zero(Run(poly, r, bits))
    decreases |bits|
  {
    if bits != [] {
      FeedInjective(poly, r, false);
      QuietKeepsDifference(poly, Feed(poly, r, false), bits[1..]);
    }
  }

  lemma {:induction false} QuietStaysZero(poly: Bits, r: Bits, bits: Bits)
    requires |r| == |poly| > 0 && Zero(r) && Zero(bits)
    ensures Zero(Run(poly, r, bits))
    decreases |bits|
  {
    if bits != [] {
      assert Zero(Feed(poly, r, false));
      QuietStaysZero(poly, Feed(poly, r, false), bits[1..]);
    }
  }

  // An error pattern that starts with a set bit, is no longer than the register and is
  // followed by clear bits leaves a difference behind.
  lemma BurstLeavesDifference(poly: Bits, r: Bits, burst: Bits, rest: Bits)
    requires |r| == |poly| > 1 && poly[|poly| - 1] && Zero(r)
    requires 0 < |burst| <= |poly| && burst[0] && Zero(rest)
    ensures !Zero(Run(poly, r, burst + rest))
  {
    var n := |poly|;
    var r1 := Feed(poly, r, true);
    assert r1[n - 1];
    assert SetFrom(r1, n - 1);
    StaysSet(poly, r1, burst[1..], n - 1);
    RunAppend(poly, r, burst, rest);
    QuietKeepsDifference(poly, Run(poly, r, burst), rest);
  }

  // The first set bit of a string that has one.
  lemma FirstSet(d: Bits) returns (q: nat)
    requires !Zero(d)
    ensures q < |d| && d[q] && Zero(d[..q])
  {
    q := 0;
    while !d[q]
      invariant q < |d| && Zero(d[..q])
      invariant exists i :: q <= i < |d| && d[i]
      decreases |d| - q
    {
      q := q + 1;
    }
  }

  // The same with as much quiet in front as one likes.
  lemma BurstWithin(poly: Bits, z: Bits, d: Bits, q: nat, e: nat)
    requires |z| == |poly| > 1 && poly[|poly| - 1] && Zero(z)
    requires q < e <= |d| && e - q <= |poly| && Zero(d[..q]) && d[q] && Zero(d[e..])
    ensures !Zero(Run(poly, z, d))
  {
    assert d == d[..q] + (d[q..e] + d[e..]);
    RunAppend(poly, z, d[..q], d[q..e] + d[e..]);
    QuietStaysZero(poly, z, d[..q]);
    BurstLeavesDifference(poly, Run(poly, z, d[..q]), d[q..e], d[e..]);
  }

  // Two messages that agree outside a window as long as the register end in different
  // registers, whatever they started from.
  lemma BurstDetected(poly: Bits, r: Bits, s: Bits, t: Bits, p: nat)
    requires |r| == |poly| > 1 && poly[|poly| - 1] && |s| == |t| && s != t
    requires forall i :: 0 <= i < |s| && !(p <= i < p + |poly|) ==> s[i] == t[i]
    ensures Run(poly, r, s) != Run(poly, r, t)
  {
    var d, z := Xor(s, t), Xor(r, r);
    RunLinear(poly, r, r, s, t);
    var k :| 0 <= k < |s| && s[k] != t[k];
    assert d[k];
    var q := FirstSet(d);
    var e := if p + |poly| <= |d| then p + |poly| else |d|;
    BurstWithin(poly, z, d, q, e);
  }

  // The register after a message determines the register before it.
  lemma StartRecoverable(poly: Bits, r: Bits, r': Bits, s: Bits)
    requires |r| == |r'| == |poly| > 0 && poly[|poly| - 1] && r != r'
    ensures Run(poly, r, s) != Run(poly, r', s)
  {
    RunLinear(poly, r, r', s, s);
    var k :| 0 <= k < |r| && r[k] != r'[k];
    assert Xor(r, r')[k];
    QuietKeepsDifference(poly, Xor(r, r'), Xor(s, s));
  }

  function Zeros(n: nat): (z: Bits)
    ensures |z| == n && forall i :: 0 <= i < n ==> !z[i]
  {
    seq(n, i => false)
  }

  // A part whose low bit is clear passes through a shift.
  lemma ShiftSplit(poly: Bits, a: Bits, h: Bits)
    requires |a| == |h| == |poly| > 0 && !h[0]
    ensures Shift(poly, Xor(a, h)) == Xor(Shift(poly, a), Down(h))
  {
    var x, y := Shift(poly, Xor(a, h)), Xor(Shift(poly, a), Down(h));
    forall i | 0 <= i < |a| ensures x[i] == y[i] { }
  }

  lemma AbsorbFirst(poly: Bits, r: Bits, bits: Bits, a: Bits, h: Bits, r1: Bits)
    requires |r| == |poly| && 0 < |bits| <= |poly| && a == r[0 := r[0] != bits[0]]
    requires h == [false] + bits[1..] + Zeros(|poly| - |bits|) && r1 == Xor(r, bits + Zeros(|poly| - |bits|))
    ensures Feed(poly, r1, false) == Xor(Feed(poly, r, bits[0]), Down(h))
    ensures Down(h) == bits[1..] + Zeros(|poly| - (|bits| - 1))
  {
    assert Xor(a, h) == r1;
    ShiftSplit(poly, a, h);
    assert r1[0 := r1[0] != false] == r1;
  }

  // Message bits may be added to the register all at once before shifting.
  lemma {:induction false} Absorb(poly: Bits, r: Bits, bits: Bits)
    requires |r| == |poly| && 0 < |bits| <= |poly|
    ensures Run(poly, r, bits) == Run(poly, Xor(r, bits + Zeros(|poly| - |bits|)), Zeros(|bits|))
    decreases |bits|
  {
    var n := |poly|;
    var a := r[0 := r[0] != bits[0]];
    var h := [false] + bits[1..] + Zeros(n - |bits|);
    var r1 := Xor(r, bits + Zeros(n - |bits|));
    AbsorbFirst(poly, r, bits, a, h, r1);
    assert Zeros(|bits|)[1..] == Zeros(|bits| - 1);
    if |bits| > 1 {
      Absorb(poly, Feed(poly, r, bits[0]), bits[1..]);
    } else {
      assert Xor(Feed(poly, r, bits[0]), Down(h)) == Feed(poly, r, bits[0]);
    }
  }

  // Clear low bits only make room.
  lemma {:induction false} QuietShift(poly: Bits, h: Bits, n: nat)
    requires |h| == |poly| > 0 && n <= |h| && forall i :: 0 <= i < n ==> !h[i]
    ensures Run(poly, h, Zeros(n)) == h[n..] + Zeros(n)
    decreases n
  {
    if n == 0 {
      assert h[0..] + [] == h;
    } else {
      assert h[0 := h[0] != false] == h;
      var d := Down(h);
      QuietShift(poly, d, n - 1);
      assert Zeros(n)[1..] == Zeros(n - 1);
      assert d[n - 1..] + Zeros(n - 1) == h[n..] + Zeros(n);
    }
  }
}

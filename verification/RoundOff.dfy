/** The roundoff and zero-stripping code at the end of __dtoa, on the digit buffer. */
module RoundOff {
  import opened Words
  import opened DigitTheory

  // ds and a raised decimal exponent stand for the integer N in units of the last of n digits.
  ghost predicate Stands(ds: seq<nat>, carry: nat, N: nat, n: nat) {
    && |ds| <= n && carry <= 1 && Decimal(ds)
    && ValDec(ds) * Pow(10, n - |ds| + carry) == N
  }

  lemma DropDigit(s: seq<nat>, i: nat)
    requires 0 < i <= |s|
    ensures ValDec(s[..i]) == 10 * ValDec(s[..i - 1]) + s[i - 1]
  {
    assert s[..i][..i - 1] == s[..i - 1];
  }

  lemma Ten(a: nat, q: nat)
    ensures (10 * a + 10) * q == (a + 1) * (10 * q)
  {
  }

  lemma RoundPrefix(s: seq<nat>, i: nat, v: nat)
    requires 0 < i <= |s| && s[i - 1] == 9
    requires (ValDec(s[..i]) + 1) * Pow(10, |s| - i) == v
    ensures (ValDec(s[..i - 1]) + 1) * Pow(10, |s| - (i - 1)) == v
  {
    DropDigit(s, i);
    var q := Pow(10, |s| - i);
    assert Pow(10, |s| - (i - 1)) == 10 * q;
    Ten(ValDec(s[..i - 1]), q);
  }

  // Adds one unit to the last digit: trailing nines are dropped, and when all digits are
  // nines the output becomes a single 1 with the decimal exponent raised.
  method RoundUp(s: seq<nat>) returns (out: seq<nat>, carry: nat)
    requires |s| > 0 && Decimal(s)
    ensures Stands(out, carry, ValDec(s) + 1, |s|)
    ensures out != [] && out[|out| - 1] > 0 && (s[0] > 0 ==> out[0] > 0)
    ensures carry == 1 <==> forall i :: 0 <= i < |s| ==> s[i] == 9
    ensures carry == 1 ==> out == [1]
  {
    var i := |s|;
    assert s[..i] == s;
    while true
      invariant 0 < i <= |s|
      invariant forall t :: i <= t < |s| ==> s[t] == 9
      invariant (ValDec(s[..i]) + 1) * Pow(10, |s| - i) == ValDec(s) + 1
      decreases i
    {
      if s[i - 1] != 9 { break; }
      RoundPrefix(s, i, ValDec(s) + 1);
      i := i - 1;
      if i == 0 {
        out, carry := [1], 1;
        Snoc([], 1);
        return;
      }
    }
    out, carry := s[..i - 1] + [s[i - 1] + 1], 0;
    DropDigit(s, i);
    Snoc(s[..i - 1], s[i - 1] + 1);
  }

  lemma StripOne(s: seq<nat>, i: nat, v: nat)
    requires 0 < i <= |s| && s[i - 1] == 0
    requires ValDec(s[..i]) * Pow(10, |s| - i) == v
    ensures ValDec(s[..i - 1]) * Pow(10, |s| - (i - 1)) == v
  {
    DropDigit(s, i);
    var q := Pow(10, |s| - i);
    assert Pow(10, |s| - (i - 1)) == 10 * q;
    assert (10 * ValDec(s[..i - 1])) * q == ValDec(s[..i - 1]) * (10 * q);
  }

  // Trailing zeros are suppressed; a nonzero digit must stop the loop.
  method StripTrailingZeros(s: seq<nat>) returns (out: seq<nat>)
    requires |s| > 0 && Decimal(s) && s[0] > 0
    ensures Stands(out, 0, ValDec(s), |s|)
    ensures out != [] && out[|out| - 1] > 0 && out[0] == s[0]
  {
    var i := |s|;
    assert s[..i] == s;
    while s[i - 1] == 0
      invariant 0 < i <= |s|
      invariant ValDec(s[..i]) * Pow(10, |s| - i) == ValDec(s)
      decreases i
    {
      StripOne(s, i, ValDec(s));
      i := i - 1;
    }
    out := s[..i];
  }
}

/** Small facts shared by the other modules: products, quotients, and lists without repetition. */
module Basics {

  ghost predicate Distinct(s: seq<object>) {
    forall i, j :: 0 <= i < j < |s| ==> s[i] != s[j]
  }

  lemma MulLe(a: int, b: int, p: int)
    requires a <= b && p >= 0
    ensures a * p <= b * p
  {
  }

  lemma Distribute(a: int, b: int, c: int)
    ensures (a + b) * c == a * c + b * c
  {
  }

  lemma Separate(a: int, b: int, c: int)
    ensures (a - b) * c == a * c - b * c
  {
  }

  lemma Regroup(a: int, b: int, c: int)
    ensures a * b * c == a * (b * c)
    ensures a * b * c == a * (c * b)
  {
  }

  // A positive factor keeps the order and can be cancelled.
  lemma Order(a: int, b: int, c: int)
    requires c > 0
    ensures a * c < b * c <==> a < b
    ensures a * c <= b * c <==> a <= b
    ensures a * c == b * c <==> a == b
  {
    if a < b { MulLe(a + 1, b, c); Distribute(a, 1, c); }
    if b < a { MulLe(b + 1, a, c); Distribute(b, 1, c); }
  }

  lemma Quotients(q: int, q': int, m: int, r: int, r': int)
    requires 0 <= r < m && 0 <= r' < m && q * m + r == q' * m + r'
    ensures q == q' && r == r'
  {
    Separate(q, q', m);
    Separate(q', q, m);
    if q > q' { MulLe(1, q - q', m); }
    if q < q' { MulLe(1, q' - q, m); }
  }

  // Quotient and remainder are determined by their equation.
  lemma QuotientUnique(a: int, m: int, q: int, r: int)
    requires 0 <= r < m && a == q * m + r
    ensures a / m == q && a % m == r
  {
    Quotients(q, a / m, m, r, a % m);
  }
}

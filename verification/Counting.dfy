/** Two facts of arithmetic and finite sets that several modules count with. */
module Counting {

  lemma DivModUnique(x: nat, n: nat, q: nat, r: nat)
    requires n > 0 && r < n && x == q * n + r
    ensures x / n == q && x % n == r
  {
    var k := x / n - q;
    assert x == (x / n) * n + x % n;
    assert k * n == r - x % n;
    assert k >= 1 ==> k * n >= n;
    assert k <= -1 ==> k * n + n <= 0;
  }

  /** Whether x lies in the aligned block of size n that y lies in. */
  predicate InBlock(x: nat, y: nat, n: nat)
    requires n > 0
  {
    y / n * n <= x < y / n * n + n
  }

  lemma SameQuotient(x: nat, y: nat, n: nat)
    requires n > 0
    ensures x / n == y / n <==> InBlock(x, y, n)
  {
    var q := y / n;
    if InBlock(x, y, n) {
      DivModUnique(x, n, q, x - q * n);
    }
    assert x == (x / n) * n + x % n;
  }

  lemma SubsetSize<T>(a: set<T>, b: set<T>)
    requires a <= b
    ensures |a| <= |b|
    ensures |a| == |b| ==> a == b
  {
    assert b == a + (b - a);
  }
}

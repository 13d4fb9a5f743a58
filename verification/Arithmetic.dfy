/** Products and remainders, in the small steps the solver can follow. */
module Arithmetic {

  lemma MultipleAtLeast(d: int, n: int)
    requires n >= 0
    ensures d >= 1 ==> d * n >= n
    ensures d <= -1 ==> d * n <= -n
    ensures d >= 0 ==> d * n >= 0
  {
  }

  lemma QuotientUnique(q: int, q': int, r: nat, r': nat, n: nat)
    requires r < n && r' < n && q * n + r == q' * n + r'
    ensures q == q' && r == r'
  {
    assert (q - q') * n == q * n - q' * n;
    MultipleAtLeast(q - q', n);
  }

  lemma RemainderIs(a: int, q: int, r: nat, n: nat)
    requires r < n && a == q * n + r
    ensures a % n == r && a / n == q
  {
    QuotientUnique(q, a / n, r, a % n, n);
  }

  /** Adding a multiple changes no remainder. */
  lemma AddMultiple(a: int, q: int, n: nat)
    requires n > 0
    ensures (a + q * n) % n == a % n
  {
    assert (a / n + q) * n == (a / n) * n + q * n;
    RemainderIs(a + q * n, a / n + q, a % n, n);
  }

  lemma AddRemainders(a: int, b: int, n: nat)
    requires n > 0 && a % n == 0
    ensures (a + b) % n == b % n
  {
    AddMultiple(b, a / n, n);
  }

  /** `c + 1` things of size `b` fit where `n` do. */
  lemma Fits(c: nat, n: nat, b: nat)
    requires c < n
    ensures 0 <= c * b && c * b + b <= n * b
  {
    assert n * b == c * b + b + (n - c - 1) * b;
    MultipleAtLeast(n - c - 1, b);
  }

  lemma Grows(c: nat, n: nat, b: nat)
    requires c <= n
    ensures 0 <= c * b <= n * b
  {
  }
}

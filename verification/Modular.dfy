/** Facts about remainders that every ring index relies on. */
module Modular {
  lemma DivisionDifference(a: nat, b: nat, m: nat)
    requires m > 0
    ensures b - a == (b / m - a / m) * m + (b % m - a % m)
    ensures b / m - a / m <= 0 ==> (b / m - a / m) * m <= 0
    ensures b / m - a / m >= 1 ==> (b / m - a / m) * m >= m
    ensures b / m - a / m <= -1 ==> (b / m - a / m) * m <= 0 - m
  {
  }

  /** Numbers closer together than m have different remainders. */
  lemma CloseNumbersDiffer(a: nat, b: nat, m: nat)
    requires a < b < a + m
    ensures a % m != b % m
  {
    DivisionDifference(a, b, m);
  }

  /** Counting up by one moves to the next remainder, and from the last one to zero. */
  lemma NextRemainder(n: nat, m: nat)
    requires m > 0
    ensures (n + 1) % m == if n % m + 1 == m then 0 else n % m + 1
  {
    DivisionDifference(n, n + 1, m);
  }

  /** A counter kept modulo w has the same remainder modulo every divisor of w. */
  lemma {:induction false} RemainderOfWrapped(n: nat, w: nat, m: nat)
    requires m > 0 && w > 0 && w % m == 0
    ensures (n % w) % m == n % m
  {
    if n > 0 {
      RemainderOfWrapped(n - 1, w, m);
      NextRemainder(n - 1, w);
      NextRemainder(n - 1, m);
      NextRemainder((n - 1) % w, m);
    }
  }
}

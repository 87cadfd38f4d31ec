/** What several of the exercises share: optional values and capacities that double. */
module Basics {

  datatype Option<T> = None | Some(value: T)

  function Pow2(k: nat): (p: nat)
    ensures p >= 1
  {
    if k == 0 then 1 else 2 * Pow2(k - 1)
  }

  /** The sizes an array goes through that starts with `start` elements and doubles. */
  predicate Doubled(start: nat, n: nat)
    decreases n
  {
    n == start || (n > start && n % 2 == 0 && Doubled(start, n / 2))
  }

  lemma DoubledAgain(start: nat, n: nat)
    requires start > 0 && Doubled(start, n)
    ensures n >= start && Doubled(start, 2 * n)
  {
    assert (2 * n) / 2 == n;
  }

  lemma {:induction false} DoublePower(start: nat, k: nat)
    requires start > 0
    ensures Doubled(start, start * Pow2(k))
  {
    if k == 0 {
      assert start * Pow2(0) == start;
    } else {
      DoublePower(start, k - 1);
      DoubledAgain(start, start * Pow2(k - 1));
      assert start * Pow2(k) == 2 * (start * Pow2(k - 1));
    }
  }

  lemma {:induction false} PowerOfDoubled(start: nat, n: nat) returns (k: nat)
    requires Doubled(start, n)
    ensures n == start * Pow2(k)
    decreases n
  {
    if n == start {
      k := 0;
      assert start * Pow2(0) == start;
    } else {
      var j := PowerOfDoubled(start, n / 2);
      k := j + 1;
      assert start * Pow2(k) == 2 * (start * Pow2(j));
    }
  }

  /** They are the start times the powers of two. */
  lemma DoubledMeaning(start: nat, n: nat)
    requires start > 0
    ensures Doubled(start, n) <==> exists k: nat :: n == start * Pow2(k)
  {
    if Doubled(start, n) {
      var k := PowerOfDoubled(start, n);
    }
    forall k: nat | n == start * Pow2(k) ensures Doubled(start, n) {
      DoublePower(start, k);
    }
  }

  lemma {:induction false} Pow2Grows(j: nat, k: nat)
    requires j <= k
    ensures Pow2(j) <= Pow2(k)
    decreases k
  {
    if j < k {
      Pow2Grows(j, k - 1);
    }
  }

  /** Quotient and remainder are unique. */
  lemma DivUnique(m: nat, n: nat, q: nat, r: nat)
    requires r < n && m == q * n + r
    ensures m / n == q && m % n == r
  {
    var d := m / n - q;
    assert m == (m / n) * n + m % n;
    assert d * n == r - m % n;
    Multiples(d, n);
  }

  lemma Multiples(d: int, n: nat)
    ensures d >= 1 ==> d * n >= n
    ensures d <= -1 ==> d * n <= -(n as int)
  {
  }
}

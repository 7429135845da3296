/**
 * Remainders for the probe arithmetic of the hash table and the wrap-around
 * windows of the Markov model. Reduce is the remainder of a natural number as
 * repeated subtraction; the lemmas tie it and the two common cases to `%`.
 */
module Modular {

  /** a mod n for natural a and positive n, by subtracting n while a >= n. */
  function Reduce(a: nat, n: nat): (r: nat)
    requires n > 0
    ensures r < n
    decreases a
  {
    if a < n then a else Reduce(a - n, n)
  }

  /** The Euclidean remainder is the unique r in [0, n) with a = q * n + r. */
  lemma ModUnique(a: int, n: nat, q: int, r: int)
    requires n > 0 && 0 <= r < n && a == q * n + r
    ensures a % n == r
  {
    var d := q - a / n;
    assert a == (a / n) * n + a % n;
    assert d * n == a % n - r;
    assert d >= 1 ==> d * n >= n;
    assert d <= -1 ==> d * n + n <= 0;
  }

  /** Reduce agrees with Euclidean `%`. */
  lemma {:induction false} ReduceIsMod(a: nat, n: nat)
    requires n > 0
    ensures Reduce(a, n) == a % n
    decreases a
  {
    if a < n {
      ModBelow(a, n);
    } else {
      ReduceIsMod(a - n, n);
      var q := (a - n) / n;
      assert a - n == q * n + (a - n) % n;
      ModUnique(a, n, q + 1, (a - n) % n);
    }
  }

  /** Reduction modulo n of a number between n and 2n - 1 subtracts n once; above that it subtracts more. */
  lemma ModAbove(a: nat, n: nat)
    requires 0 < n <= a
    ensures a % n <= a - n
    ensures a % n == a - n <==> a < 2 * n
  {
    var q := a / n;
    var r := a % n;
    assert a == q * n + r && 0 <= r < n;
    assert q <= 0 ==> q * n <= 0;
    assert q >= 1 ==> q * n >= n;
    assert q >= 2 ==> q * n >= 2 * n;
  }

  /** A number below n is its own remainder. */
  lemma ModBelow(a: nat, n: nat)
    requires a < n
    ensures a % n == a
  {
    var q := a / n;
    var r := a % n;
    assert a == q * n + r && 0 <= r < n;
    assert q < 0 ==> q * n < 0;
    assert q >= 1 ==> q * n >= n;
  }
}

/** Facts about quotients and remainders. */
module Arithmetic {
  lemma {:induction false} DivMod(x: nat, n: nat)
    requires n > 0
    ensures x == x / n * n + x % n && 0 <= x % n < n
  {
  }

  /** The distance of two multiples of `n`. */
  lemma {:induction false} Multiple(q: int, p: int, n: nat)
    requires n > 0
    ensures q > p ==> q * n >= p * n + n
    ensures q < p ==> p * n >= q * n + n
  {
    if q > p {
      Scale(p + 1, q, n);
    } else if q < p {
      Scale(q + 1, p, n);
    }
  }

  lemma {:induction false} Scale(a: int, b: int, n: nat)
    requires a <= b
    ensures a * n <= b * n && (a - 1) * n == a * n - n && (b - 1) * n == b * n - n
  {
  }

  lemma {:induction false} RemainderOf(q: nat, n: nat, r: nat)
    requires r < n
    ensures (q * n + r) % n == r && (q * n + r) / n == q
  {
    var x := q * n + r;
    DivMod(x, n);
    Multiple(q, x / n, n);
  }

  /** A remainder is not changed by first reducing modulo a multiple of the divisor. */
  lemma {:induction false} RemainderOfRemainder(x: nat, n: nat, k: nat)
    requires n > 0 && k > 0 && n * k > 0
    ensures x % (n * k) % n == x % n
  {
    var q, low := x / (n * k), x % (n * k);
    DivMod(x, n * k);
    DivMod(low, n);
    Regroup(q, k, n);
    Factor(q * k, low / n, n);
    RemainderOf(q * k + low / n, n, low % n);
  }

  lemma {:induction false} Regroup(q: nat, k: nat, n: nat)
    ensures q * (n * k) == q * k * n
  {
  }

  lemma {:induction false} Factor(a: nat, b: nat, n: nat)
    ensures a * n + b * n == (a + b) * n
  {
  }
}

/** Facts about Euclidean division and products of naturals used by the partitions. */
module Arith {

  lemma {:induction false} MulAtLeast(x: int, n: int)
    requires x >= 1 && n >= 0
    ensures x * n >= n
  {
    if x > 1 {
      MulAtLeast(x - 1, n);
      assert x * n == (x - 1) * n + n;
    }
  }

  /** Euclidean division is determined by the quotient and remainder it must have. */
  lemma DivModUnique(a: int, n: int, q: int, r: int)
    requires n > 0 && 0 <= r < n && a == q * n + r
    ensures a / n == q && a % n == r
  {
    var q', r' := a / n, a % n;
    var d := q - q';
    assert a == q' * n + r';
    assert d * n == q * n - q' * n;
    assert d * n == r' - r;
    if d >= 1 {
      MulAtLeast(d, n);
    } else if d <= -1 {
      MulAtLeast(-d, n);
    }
  }

  lemma DivModNext(k: nat, n: nat)
    requires n > 0
    ensures (k + 1) % n == if k % n == n - 1 then 0 else k % n + 1
    ensures (k + 1) / n == if k % n == n - 1 then k / n + 1 else k / n
  {
    var q, r := k / n, k % n;
    if r == n - 1 {
      DivModUnique(k + 1, n, q + 1, 0);
    } else {
      DivModUnique(k + 1, n, q, r + 1);
    }
  }

  lemma {:induction false} MulMonotone(a: nat, b: nat, c: nat)
    requires a >= b
    ensures a * c >= b * c
    decreases a - b
  {
    if a > b {
      MulMonotone(a - 1, b, c);
      assert a * c == (a - 1) * c + c;
    }
  }

  /** Multiplying on the left keeps the order. */
  lemma MulLeft(c: nat, a: nat, b: nat)
    requires a <= b
    ensures c * a <= c * b
  {
    MulMonotone(b, a, c);
    assert c * a == a * c && c * b == b * c;
  }

  /** The largest multiple of n not above a, and what is left over. */
  lemma DivMultiple(a: nat, n: nat)
    requires n > 0
    ensures (a - a % n) / n == a / n
    ensures (a - a % n) % n == 0
    ensures a - a % n == (a / n) * n
  {
    DivModUnique(a - a % n, n, a / n, 0);
  }

  lemma DivAtLeastOne(a: nat, n: nat)
    requires 0 < n <= a
    ensures a / n >= 1
  {
  }

  /** Position k of a split into rows of n lies in row k / n, at offset k % n. */
  lemma RowOf(k: nat, n: nat, r: nat)
    requires n > 0 && r * n <= k < r * n + n
    ensures k / n == r && k % n == k - r * n
  {
    DivModUnique(k, n, r, k - r * n);
  }

  /** `(n + d - 1) / d` is the ceiling of n / d: the least c with c * d >= n. */
  lemma CeilDiv(n: nat, d: nat)
    requires d > 0
    ensures var c := (n + d - 1) / d; c * d >= n && (c == 0 || (c - 1) * d < n)
  {
    var c := (n + d - 1) / d;
    var r := (n + d - 1) % d;
    assert n + d - 1 == c * d + r;
    assert (c - 1) * d == c * d - d;
  }
}

/** Division and remainder by a variable divisor, as the ring arithmetic needs them. */
module Arith {

  lemma MulAtLeast(k: int, d: int)
    requires 1 <= k && 0 < d
    ensures d <= k * d
  {
    assert k * d == (k - 1) * d + d;
  }

  /** A multiple of `d` strictly between `-d` and `d` is zero. */
  lemma SmallMultiple(k: int, d: int)
    requires 0 < d && -d < k * d < d
    ensures k == 0
  {
    if 1 <= k {
      MulAtLeast(k, d);
    } else if k <= -1 {
      MulAtLeast(-k, d);
    }
  }

  /** A quotient and a remainder in range are the Euclidean ones. */
  lemma QuotientUnique(x: int, d: int, q: int, r: int)
    requires 0 < d && 0 <= r < d
    requires x == q * d + r
    ensures x / d == q && x % d == r
  {
    var q', r' := x / d, x % d;
    assert x == q' * d + r';
    assert (q - q') * d == r' - r;
    SmallMultiple(q - q', d);
  }

  lemma MultipleHasNoRemainder(q: int, d: int)
    requires 0 < d
    ensures (q * d) % d == 0 && (q * d) / d == q
  {
    QuotientUnique(q * d, d, q, 0);
  }

  /** Adding a multiple of the divisor leaves the remainder alone. */
  lemma ModShift(x: int, k: int, d: int)
    requires 0 < d
    ensures (x + k * d) % d == x % d
  {
    QuotientUnique(x + k * d, d, x / d + k, x % d);
  }

  /** Two numbers less than `d` apart with the same remainder are equal. */
  lemma ModApart(x: int, y: int, d: int)
    requires 0 < d && -d < x - y < d && x % d == y % d
    ensures x == y
  {
    assert x - y == (x / d - y / d) * d;
    SmallMultiple(x / d - y / d, d);
  }

  /** Same remainder exactly when the difference is a multiple. */
  lemma ModDifference(x: int, y: int, d: int)
    requires 0 < d
    ensures x % d == y % d <==> (x - y) % d == 0
  {
    if x % d == y % d {
      assert x - y == (x / d - y / d) * d;
      MultipleHasNoRemainder(x / d - y / d, d);
    }
    if (x - y) % d == 0 {
      assert x == y + ((x - y) / d) * d;
      ModShift(y, (x - y) / d, d);
    }
  }

  /** A remainder taken by a multiple of `n` keeps divisibility by `n`. */
  lemma ModKeepsDivisor(x: int, n: int, d: int)
    requires 0 < n && 0 < d && d % n == 0 && x % n == 0
    ensures (x % d) % n == 0
  {
    var k := d / n;
    assert x % d == x - d * (x / d);
    assert d == n * k;
    assert d * (x / d) == (k * (x / d)) * n by {
      assert (n * k) * (x / d) == (k * (x / d)) * n;
    }
    ModShift(x, -(k * (x / d)), n);
  }

  /** Divisibility is transitive. */
  lemma DividesTransitive(a: int, b: int, c: int)
    requires 0 < a && 0 < b && b % a == 0 && c % b == 0
    ensures c % a == 0
  {
    assert c == (c / b) * b && b == (b / a) * a;
    assert c == ((c / b) * (b / a)) * a;
    MultipleHasNoRemainder((c / b) * (b / a), a);
  }

  /** Sums and differences of multiples are multiples. */
  lemma MultiplesCombine(x: int, y: int, d: int)
    requires 0 < d && x % d == 0 && y % d == 0
    ensures (x + y) % d == 0 && (x - y) % d == 0
    ensures (x + y) / d == x / d + y / d && (x - y) / d == x / d - y / d
  {
    QuotientUnique(x + y, d, x / d + y / d, 0);
    QuotientUnique(x - y, d, x / d - y / d, 0);
  }

  lemma DivMonotone(a: int, b: int, d: int)
    requires 0 < d && a <= b
    ensures a / d <= b / d
  {
    var k := a / d - b / d;
    assert k * d == (a - a % d) - (b - b % d);
    if 1 <= k {
      MulAtLeast(k, d);
    }
  }

  lemma QuotientAtLeast(a: int, d: int, q: int)
    requires 0 < d && q * d <= a
    ensures q <= a / d
  {
    DivMonotone(q * d, a, d);
    MultipleHasNoRemainder(q, d);
  }

  lemma MulMonotone(a: int, b: int, k: nat)
    requires a <= b
    ensures k * a <= k * b
  {
    assert k * b == k * a + k * (b - a);
  }

  /** Dividing by a larger number gives no more. */
  lemma DivAntitone(a: nat, d: int, e: int)
    requires 0 < d <= e
    ensures a / e <= a / d
  {
    MulMonotone(d, e, a / e);
    QuotientAtLeast(a, d, a / e);
  }

  lemma MulCancelLess(a: int, b: int, k: nat)
    requires a * k < b * k
    ensures a < b
  {
    if b <= a {
      MulMonotone(b, a, k);
    }
  }

  lemma ScaledRemainder(x: int, d: int, c: int)
    requires 0 < d && 0 < c
    ensures 0 < d * c
    ensures (x * c) % (d * c) == (x % d) * c
  {
    var q, r := x / d, x % d;
    assert x * c == q * (d * c) + r * c by {
      assert x == q * d + r;
      assert (q * d + r) * c == q * (d * c) + r * c;
    }
    MulMonotone(r + 1, d, c);
    QuotientUnique(x * c, d * c, q, r * c);
  }

  /** A positive multiple is at least the divisor. */
  lemma MultipleAtLeast(t: int, d: int)
    requires 0 < d && 0 < t && t % d == 0
    ensures d <= t
  {
    if t < d {
      QuotientUnique(t, d, 0, t);
    }
  }

  /** Rounding down to a multiple. */
  lemma RoundDown(t: int, d: int)
    requires 0 < d <= t
    ensures 0 < t - t % d <= t && (t - t % d) % d == 0
  {
    QuotientAtLeast(t, d, 1);
    MulAtLeast(t / d, d);
    assert t - t % d == (t / d) * d;
    MultipleHasNoRemainder(t / d, d);
  }

  /** No multiple of `a` before the `k`-th is one of `b`. */
  ghost predicate NoneBefore(a: int, b: int, k: int)
    requires 0 < b
  {
    forall i :: 1 <= i < k ==> (i * a) % b != 0
  }

  /** The least common multiple, sought among the multiples of `a` from `k * a` on. */
  function LcmFrom(a: int, b: int, k: int): (n: int)
    requires 0 < a && 0 < b && 1 <= k <= b && NoneBefore(a, b, k)
    ensures 1 <= n && (n * a) % b == 0 && NoneBefore(a, b, n)
    decreases b - k
  {
    MultipleHasNoRemainder(a, b);
    if (k * a) % b == 0 then k else LcmFrom(a, b, k + 1)
  }

  function Lcm(a: int, b: int): (m: int)
    requires 0 < a && 0 < b
    ensures 0 < m && m % a == 0 && m % b == 0
  {
    var n := LcmFrom(a, b, 1);
    MulAtLeast(n, a);
    MultipleHasNoRemainder(n, a);
    n * a
  }

  /** The common multiples are the multiples of the least one. */
  lemma CommonMultiple(a: int, b: int, x: int)
    requires 0 < a && 0 < b && x % a == 0 && x % b == 0
    ensures x % Lcm(a, b) == 0
  {
    var m, n := Lcm(a, b), LcmFrom(a, b, 1);
    ModKeepsDivisor(x, a, m);
    ModKeepsDivisor(x, b, m);
    var q := x % m / a;
    assert x % m == q * a;
    MulCancelLess(q, n, a);
    assert q < 1;
    DivMonotone(0, x % m, a);
  }
}

/** Nonlinear facts about products and quotients, each proved once. */
module Arithmetic {

  lemma MulNonNegative(a: int, b: int)
    requires (a >= 0 && b >= 0) || (a <= 0 && b <= 0)
    ensures a * b >= 0
  {
  }

  lemma MulSub(a: int, b: int, k: int)
    ensures (a - b) * k == a * k - b * k
  {
  }

  lemma MulMonotone(a: int, b: int, k: nat)
    requires a <= b
    ensures a * k <= b * k && k * a <= k * b
  {
    MulSub(b, a, k);
    MulNonNegative(b - a, k);
  }

  lemma DivMod(a: int, k: int)
    requires k > 0
    ensures a == (a / k) * k + a % k && 0 <= a % k < k
  {
  }

  lemma QuotientBounds(a: int, k: int)
    requires k > 0
    ensures (a / k) * k <= a < (a / k + 1) * k
  {
    DivMod(a, k);
    MulSub(a / k + 1, a / k, k);
  }

  // q * k <= a < (q + 1) * k pins the quotient.
  lemma QuotientUnique(a: int, k: int, q: int)
    requires k > 0 && q * k <= a < (q + 1) * k
    ensures a / k == q
  {
    QuotientBounds(a, k);
    if a / k < q {
      MulMonotone(a / k + 1, q, k);
    } else if a / k > q {
      MulMonotone(q + 1, a / k, k);
    }
  }

  lemma DivNonNegative(a: nat, k: nat)
    requires k > 0
    ensures a / k >= 0
  {
    QuotientBounds(a, k);
    if a / k < 0 {
      MulMonotone(a / k + 1, 0, k);
    }
  }

  lemma QuotientAtLeast(a: int, k: int, m: int)
    requires k > 0 && m * k <= a
    ensures a / k >= m
  {
    QuotientBounds(a, k);
    if a / k < m {
      MulMonotone(a / k + 1, m, k);
    }
  }

  lemma Cancel(a: int, b: int, k: nat)
    requires a * k < b * k
    ensures a < b
  {
    if a >= b {
      MulMonotone(b, a, k);
    }
  }

  lemma DivMonotone(a: int, b: int, k: int)
    requires k > 0 && a <= b
    ensures a / k <= b / k
  {
    QuotientBounds(a, k);
    QuotientBounds(b, k);
    if a / k > b / k {
      MulMonotone(b / k + 1, a / k, k);
    }
  }

  lemma ModUnique(a: int, k: int, q: int, r: int)
    requires k > 0 && a == q * k + r && 0 <= r < k
    ensures a % k == r
  {
    MulSub(q + 1, q, k);
    QuotientUnique(a, k, q);
    DivMod(a, k);
  }

  lemma ModWrap(a: int, k: int)
    requires k > 0
    ensures 0 <= a < k ==> a % k == a
    ensures k <= a < 2 * k ==> a % k == a - k
    ensures 2 * k <= a < 3 * k ==> a % k == a - 2 * k
  {
    if 0 <= a < k {
      ModUnique(a, k, 0, a);
    } else if k <= a < 2 * k {
      ModUnique(a, k, 1, a - k);
    } else if 2 * k <= a < 3 * k {
      ModUnique(a, k, 2, a - 2 * k);
    }
  }

  lemma ModOfMultiple(a: int, b: int, k: int)
    requires k > 0 && a % k == 0 && b % k == 0
    ensures (a + b) % k == 0 && (a - b) % k == 0
  {
    DivMod(a, k);
    DivMod(b, k);
    MulSub(a / k, b / k, k);
    MulSub(a / k + b / k, b / k, k);
    ModUnique(a + b, k, a / k + b / k, 0);
    ModUnique(a - b, k, a / k - b / k, 0);
  }

  /** What a counter modulo m gained between two readings, if it wrapped at most once: computed without leaving its range. */
  function Delta(old_: nat, cur: nat, m: nat): (d: nat)
    requires old_ < m && cur < m
    ensures d < m
  {
    if cur < old_ then (m - 1 - old_) + cur + 1 else cur - old_
  }

  /** The difference of two readings is the gain modulo m, so it is exact just when the gain is below m. */
  lemma DeltaIsInterval(a: nat, b: nat, m: nat)
    requires m > 0 && a <= b && 0 <= a % m < m && 0 <= b % m < m
    ensures Delta(a % m, b % m, m) == (b - a) % m
    ensures Delta(a % m, b % m, m) == b - a <==> b - a < m
  {
    DivMod(a, m);
    DivMod(b, m);
    MulSub(b / m, a / m, m);
    MulSub(b / m - a / m, 1, m);
    ModUnique(b - a, m, b / m - a / m - (if b % m < a % m then 1 else 0), Delta(a % m, b % m, m));
    ModWrap(b - a, m);
  }
}

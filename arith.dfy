/** Integer division facts and Python's floor division. */
module Arith {

  /**
   * Python's `a // b`: the quotient rounded toward minus infinity, for either
   * sign of `b`. Defined by repeated subtraction, so that no division by a
   * variable reaches the solver; FloorDivBounds shows it is the floor.
   */
  function FloorDiv(a: int, b: int): int
    requires b != 0
  {
    if b > 0 then FloorDivPos(a, b) else FloorDivPos(-a, -b)
  }

  function FloorDivPos(a: int, b: int): int
    requires b > 0
    decreases if a < 0 then 1 else 0, if a < 0 then -a else a
  {
    if a < 0 then FloorDivPos(a + b, b) - 1
    else if a < b then 0
    else FloorDivPos(a - b, b) + 1
  }

  lemma {:induction false} FloorDivPosBounds(a: int, b: int)
    requires b > 0
    ensures FloorDivPos(a, b) * b <= a < FloorDivPos(a, b) * b + b
    decreases if a < 0 then 1 else 0, if a < 0 then -a else a
  {
    if a < 0 {
      FloorDivPosBounds(a + b, b);
      assert FloorDivPos(a, b) * b == FloorDivPos(a + b, b) * b - b;
    } else if a >= b {
      FloorDivPosBounds(a - b, b);
      assert FloorDivPos(a, b) * b == FloorDivPos(a - b, b) * b + b;
    }
  }

  /** FloorDiv is the floor of the exact quotient: the largest `q` with `q * b <= a` when `b > 0`. */
  lemma FloorDivBounds(a: int, b: int)
    requires b != 0
    ensures b > 0 ==> FloorDiv(a, b) * b <= a < FloorDiv(a, b) * b + b
    ensures b < 0 ==> FloorDiv(a, b) * b >= a > FloorDiv(a, b) * b + b
  {
    if b > 0 {
      FloorDivPosBounds(a, b);
    } else {
      FloorDivPosBounds(-a, -b);
      assert FloorDiv(a, b) * b == -(FloorDiv(a, b) * -b);
    }
  }

  lemma {:induction false} MulAtLeast(k: int, m: int)
    requires k > 0 && m >= 1
    ensures k * m >= k
    decreases m
  {
    if m > 1 {
      MulAtLeast(k, m - 1);
      assert k * m == k * (m - 1) + k;
    }
  }

  /** Quotient and remainder are determined by the division equation. */
  lemma DivUnique(a: int, k: int, q: int, r: int)
    requires k > 0 && 0 <= r < k && a == k * q + r
    ensures a / k == q && a % k == r
  {
    var q', r' := a / k, a % k;
    assert a == k * q' + r';
    if q' > q {
      assert k * q' == k * q + k * (q' - q);
      MulAtLeast(k, q' - q);
    } else if q' < q {
      assert k * q == k * q' + k * (q - q');
      MulAtLeast(k, q - q');
    }
  }

  /** Incrementing the dividend raises the quotient exactly when it lands on a multiple. */
  lemma DivStep(n: int, k: int)
    requires k > 0
    ensures (n + 1) / k == n / k + (if (n + 1) % k == 0 then 1 else 0)
  {
    var q, r := n / k, n % k;
    if r == k - 1 {
      DivUnique(n + 1, k, q + 1, 0);
    } else {
      DivUnique(n + 1, k, q, r + 1);
    }
  }

  /** Every multiple of 400 is a multiple of 100, and every multiple of 100 a multiple of 4. */
  lemma LeapDivisors(k: int)
    ensures k % 400 == 0 ==> k % 100 == 0
    ensures k % 100 == 0 ==> k % 4 == 0
  {
    if k % 400 == 0 {
      DivUnique(k, 100, 4 * (k / 400), 0);
    }
    if k % 100 == 0 {
      DivUnique(k, 4, 25 * (k / 100), 0);
    }
  }

  /** A quotient pinned between consecutive multiples is the floor quotient. */
  lemma FloorDivUnique(a: int, b: int, q: int)
    requires b > 0 && q * b <= a < q * b + b
    ensures FloorDiv(a, b) == q
  {
    var r := FloorDiv(a, b);
    FloorDivBounds(a, b);
    if r < q {
      MulAtLeast(b, q - r);
    } else if r > q {
      MulAtLeast(b, r - q);
    }
  }

  /** A quotient of operands of opposite signs is negative. */
  lemma FloorDivNegative(a: int, b: int)
    requires b != 0
    ensures (a > 0 && b < 0) || (a < 0 && b > 0) ==> FloorDiv(a, b) < 0
  {
    var q := FloorDiv(a, b);
    FloorDivBounds(a, b);
    if q > 0 {
      if b < 0 {
        MulAtLeast(-b, q);
      } else {
        MulAtLeast(b, q);
      }
    }
  }

  /** Multiplying by a positive number preserves strict order, so it can be cancelled. */
  lemma MulCancelLt(a: int, b: int, m: int)
    requires m > 0 && a * m < b * m
    ensures a < b
  {
  }
}

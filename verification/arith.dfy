/** Integer arithmetic with the JVM's semantics. */
module Arith {

  /**
   * Kotlin's `/` on `Long` with a positive divisor: the quotient is truncated
   * toward zero, so the remainder has the sign of the dividend. (Dafny's own
   * `/` rounds toward negative infinity for a negative dividend.)
   */
  function Quot(a: int, b: int): (q: int)
    requires b > 0
    ensures a >= 0 ==> 0 <= a - q * b < b
    ensures a <= 0 ==> -b < a - q * b <= 0
  {
    if a >= 0 then a / b else -((-a) / b)
  }

  /** Truncating division by a positive divisor never decreases when the dividend grows. */
  lemma QuotMonotone(a: int, a': int, b: int)
    requires b > 0 && a <= a'
    ensures Quot(a, b) <= Quot(a', b)
  {
    if a >= 0 {
      DivMonotone(a, a', b);
    } else if a' < 0 {
      DivMonotone(-a', -a, b);
    } else {
      DivMonotone(0, -a, b);
      DivMonotone(0, a', b);
    }
  }

  lemma DivMonotone(x: int, y: int, b: int)
    requires 0 <= x <= y && b > 0
    ensures x / b <= y / b
  {
    var qx, qy := x / b, y / b;
    if qx > qy {
      assert qx * b >= qy * b + b by {
        assert qx >= qy + 1;
        MulMonotone(qy + 1, qx, b);
      }
    }
  }

  lemma MulMonotone(m: int, n: int, b: int)
    requires m <= n && b > 0
    ensures m * b <= n * b
  {
  }
}

/** Facts about multiplication and Euclidean division by a positive number,
    used wherever the codec computes positions in row-major data. */
module Arith {

  /** q k <= a < q k + k determines the quotient. */
  lemma DivBetween(a: int, k: int, q: int)
    requires k >= 1 && q * k <= a < q * k + k
    ensures a / k == q
  {
    var d := a / k;
    if d < q {
      assert d * k <= (q - 1) * k by { MulLe(d, q - 1, k); }
      assert false;
    } else if d > q {
      assert (q + 1) * k <= d * k by { MulLe(q + 1, d, k); }
      assert false;
    }
  }

  lemma MulLe(a: int, b: int, k: int)
    requires a <= b && k >= 0
    ensures a * k <= b * k
  {
  }

  lemma MulPred(i: int, k: int)
    ensures (i - 1) * k + k == i * k
  {
  }

  /** Adding k to the numerator adds one to the quotient. */
  lemma DivShift(a: int, k: int)
    requires k >= 1 && a >= 0
    ensures (a + k) / k == a / k + 1
  {
    var q := a / k;
    assert q * k <= a < q * k + k;
    MulPred(q + 1, k);
    DivBetween(a + k, k, q + 1);
  }

  /** A digit pair (u, v) in radix (U, V) denotes a number below U V. */
  lemma Compose(u: int, bigU: int, v: int, bigV: int)
    requires 0 <= u < bigU && 0 <= v < bigV
    ensures 0 <= u * bigV + v < bigU * bigV
  {
    MulLe(u, bigU - 1, bigV);
    MulPred(bigU, bigV);
  }

  /** Division by V recovers the digits of u V + v. */
  lemma Decompose(u: int, v: int, bigV: int)
    requires u >= 0 && 0 <= v < bigV
    ensures (u * bigV + v) / bigV == u
    ensures (u * bigV + v) % bigV == v
  {
    DivBetween(u * bigV + v, bigV, u);
  }

  /** u V is divisible by V with quotient u. */
  lemma MulDiv(u: int, bigV: int)
    requires u >= 0 && bigV >= 1
    ensures (u * bigV) / bigV == u && (u * bigV) % bigV == 0
  {
    Decompose(u, 0, bigV);
  }

  /** The quotient of k by V is below U when k is below U V. */
  lemma DivBelow(k: int, bigU: int, bigV: int)
    requires bigV >= 1 && 0 <= k < bigU * bigV
    ensures 0 <= k / bigV < bigU
  {
    if k / bigV >= bigU {
      MulLe(bigU, k / bigV, bigV);
      assert false;
    }
  }

  /** Reorderings of products that reshapes need. */
  lemma SwapLast(a: int, b: int, c: int, d: int)
    ensures a * b * c * d == a * b * d * c
  {
  }

  lemma SwapMid(a: int, b: int, c: int, d: int)
    ensures a * b * c * d == a * c * b * d
  {
  }

  lemma PairProduct(a: int, b: int, c: int, d: int)
    ensures (a * b) * (c * d) == a * b * d * c
  {
  }

  lemma ShiftFirst(a: int, b: int, c: int)
    ensures b * c * a == a * b * c
  {
  }
}

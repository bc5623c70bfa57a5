/** 32-bit integers with a decimal scale: value * 10^scale (bsi32_rescale, addi32_overflow, bsi32_add). */
module ScaledInt {
  import opened Common

  const INT32_MAX: int := 0x7fff_ffff
  const INT32_MIN: int := -0x8000_0000

  type int32 = x: int | INT32_MIN <= x <= INT32_MAX
  type int8 = x: int | -128 <= x < 128

  datatype Scaled = Scaled(value: int32, scale: int8)

  function Pow10(k: nat): (r: nat)
    ensures r > 0
  {
    if k == 0 then 1 else 10 * Pow10(k - 1)
  }

  function Abs(x: int): nat {
    if x < 0 then -x else x
  }

  /** v with k zeros appended. */
  function Raise(v: int, k: nat): int {
    if k == 0 then v else 10 * Raise(v, k - 1)
  }

  /** x without its last k decimal digits. */
  function Drop(x: nat, k: nat): (r: nat)
    ensures r <= x
  {
    if k == 0 then x else Drop(x / 10, k - 1)
  }

  /** Division of C++: truncation toward zero. */
  function TruncDiv(x: int, d: nat): int
    requires d > 0
  {
    if x < 0 then -(-x / d) else x / d
  }

  /** The quotient lies toward zero, less than one divisor away. */
  predicate IsTruncated(x: int, d: int, q: int) {
    -d < x - q * d < d && if x < 0 then x <= q * d <= 0 else 0 <= q * d <= x
  }

  lemma DivisionLeaves(n: nat, d: nat)
    requires d > 0
    ensures 0 <= (n / d) * d <= n < (n / d) * d + d
  {
    assert n == d * (n / d) + n % d;
  }

  lemma NegatedProduct(q: int, d: int)
    ensures (0 - q) * d == 0 - q * d
  {
  }

  lemma TruncDivMeans(x: int, d: nat)
    requires d > 0
    ensures IsTruncated(x, d, TruncDiv(x, d))
  {
    if x < 0 {
      DivisionLeaves(-x, d);
      NegatedProduct(-x / d, d);
      assert TruncDiv(x, d) == 0 - (-x / d);
    } else {
      DivisionLeaves(x, d);
    }
  }

  function Coarsen(v: int, k: nat): int {
    if v < 0 then 0 - Drop(-v, k) else Drop(v, k)
  }

  lemma {:induction false} RaiseIsProduct(v: int, k: nat)
    ensures Raise(v, k) == v * Pow10(k)
  {
    if k > 0 {
      RaiseIsProduct(v, k - 1);
      assert 10 * (v * Pow10(k - 1)) == v * (10 * Pow10(k - 1));
    }
  }

  lemma {:induction false} RaiseSign(v: int, k: nat)
    ensures v < 0 <==> Raise(v, k) < 0
    ensures Abs(Raise(v, k)) == Raise(Abs(v), k)
  {
    if k > 0 {
      RaiseSign(v, k - 1);
    }
  }

  lemma MulMonotone(a: int, b: int, m: nat)
    ensures a <= b ==> a * m <= b * m
  {
    if a <= b {
      assert (b - a) * m >= 0;
    }
  }

  lemma EuclidUnique(x: nat, m: nat, q: nat, r: nat)
    requires r < m && x == q * m + r
    ensures x / m == q
  {
    var n := x / m;
    MulMonotone(n + 1, q, m);
    MulMonotone(q + 1, n, m);
  }

  /** What is dropped is less than one unit of the last digit kept. */
  lemma {:induction false} DropLeaves(x: nat, k: nat) returns (rest: nat)
    ensures rest < Pow10(k) && x == Drop(x, k) * Pow10(k) + rest
  {
    if k == 0 {
      rest := 0;
    } else {
      var r := DropLeaves(x / 10, k - 1);
      rest := 10 * r + x % 10;
      assert 10 * (Drop(x, k) * Pow10(k - 1)) == Drop(x, k) * (10 * Pow10(k - 1));
    }
  }

  lemma CoarsenIsDivision(v: int, k: nat)
    ensures Coarsen(v, k) == TruncDiv(v, Pow10(k))
  {
    var rest := DropLeaves(Abs(v), k);
    EuclidUnique(Abs(v), Pow10(k), Drop(Abs(v), k), rest);
  }

  lemma {:induction false} DropTwice(x: nat, j: nat, k: nat)
    ensures Drop(x, j + k) == Drop(Drop(x, j), k)
  {
    if j > 0 {
      DropTwice(x / 10, j - 1, k);
    }
  }

  /** k more digits fit exactly when the last but one step stays below a tenth of the range. */
  predicate Fits(v: int, k: nat) {
    k == 0 || Abs(v) * Pow10(k - 1) < INT32_MAX / 10
  }

  lemma {:induction false} FitsByDigits(v: int, k: nat)
    ensures Fits(v, k) <==> k == 0 || Raise(Abs(v), k - 1) < INT32_MAX / 10
    ensures Fits(v, k) && k > 0 ==> Fits(v, k - 1)
  {
    if k > 0 {
      RaiseIsProduct(Abs(v), k - 1);
      FitsByDigits(v, k - 1);
    }
  }

  /** The loop toward a finer scale: append n zeros, or give up before the value leaves the range. */
  method Refine(inValue: int32, n: nat) returns (r: Option<int32>)
    ensures r == if Fits(inValue, n) then Some(Raise(inValue, n)) else None
  {
    var value := inValue;
    for i := 0 to n
      invariant value == Raise(inValue, i) && Fits(inValue, i)
    {
      FitsByDigits(inValue, i + 1);
      RaiseSign(inValue, i);
      // the bounds are INT32_MAX / 10 and INT32_MIN / 10, both truncated toward zero
      if value >= 214748364 || value <= -214748364 {
        NeverFitsAgain(inValue, i + 1, n);
        return None;
      }
      value := value * 10;
    }
    return Some(value);
  }

  /** The loop toward a coarser scale. */
  method Shorten(inValue: int32, n: nat) returns (value: int32)
    ensures value == Coarsen(inValue, n)
  {
    value := inValue;
    for i := 0 to n
      invariant value == Coarsen(inValue, i)
    {
      DropTwice(Abs(inValue), i, 1);
      value := TruncDiv(value, 10);
    }
  }

  /**
   * bsi32_rescale. To a finer scale the result is exact, and the method fails exactly when the digits do not
   * fit; to a coarser one digits are cut off toward zero and it never fails.
   */
  method Rescale(inValue: int32, inScale: int8, newScale: int8) returns (r: Option<int32>)
    ensures r.Some? <==> inScale < newScale || Fits(inValue, inScale - newScale)
    ensures r.Some? && inScale >= newScale ==> r.value == inValue * Pow10(inScale - newScale)
    ensures inScale < newScale ==> r.Some? && r.value == TruncDiv(inValue, Pow10(newScale - inScale))
    ensures inScale < newScale ==> IsTruncated(inValue, Pow10(newScale - inScale), r.value)
  {
    if inScale == newScale {
      return Some(inValue);
    }
    if inScale > newScale {
      RaiseIsProduct(inValue, inScale - newScale);
      r := Refine(inValue, inScale - newScale);
    } else {
      CoarsenIsDivision(inValue, newScale - inScale);
      TruncDivMeans(inValue, Pow10(newScale - inScale));
      var value := Shorten(inValue, newScale - inScale);
      r := Some(value);
    }
  }

  lemma {:induction false} NeverFitsAgain(v: int, k: nat, n: nat)
    requires k <= n && !Fits(v, k)
    ensures !Fits(v, n)
    decreases n - k
  {
    if k < n {
      NeverFitsAgain(v, k, n - 1);
      FitsByDigits(v, n);
    }
  }

  /** addi32_overflow on the mathematical sum. */
  method AddOverflow(a: int32, b: int32) returns (r: Option<int32>)
    ensures r == if INT32_MIN <= a + b <= INT32_MAX then Some(a + b) else None
  {
    var sum := a + b;
    if sum > INT32_MAX || sum < INT32_MIN {
      return None;
    }
    return Some(sum);
  }

  predicate InRange(x: int) {
    INT32_MIN <= x <= INT32_MAX
  }

  /** What is left of a number in 32 bits. */
  function Narrow(x: int): int32 {
    (x - INT32_MIN) % 0x1_0000_0000 + INT32_MIN
  }

  lemma NarrowKeeps(x: int)
    ensures Narrow(x) == x <==> InRange(x)
  {
  }

  /** addi32_overflow as written: the operands are added in 32 bits, here with wrap-around, and checked afterwards. */
  method AddThenCheck(a: int32, b: int32) returns (r: Option<int32>)
    ensures r == Some(Narrow(a + b))
  {
    var sum := Narrow(a + b);
    if sum > INT32_MAX || sum < INT32_MIN {
      return None;
    }
    return Some(sum);
  }

  function Min(a: int8, b: int8): (r: int8)
    ensures (r == a || r == b) && r <= a && r <= b
  {
    if a < b then a else b
  }

  /** The exact sum at the finer of the two scales. */
  function ExactSum(a: Scaled, b: Scaled): int {
    var scale := Min(a.scale, b.scale);
    a.value * Pow10(a.scale - scale) + b.value * Pow10(b.scale - scale)
  }

  predicate OperandsFit(a: Scaled, b: Scaled) {
    var scale := Min(a.scale, b.scale);
    Fits(a.value, a.scale - scale) && Fits(b.value, b.scale - scale)
  }

  predicate SumFits(a: Scaled, b: Scaled) {
    OperandsFit(a, b) && InRange(ExactSum(a, b))
  }

  /** bsi32_add. */
  method Add(a: Scaled, b: Scaled) returns (r: Option<Scaled>)
    ensures r.Some? <==> SumFits(a, b)
    ensures r.Some? ==> r.value.scale in {a.scale, b.scale} && r.value.scale <= a.scale && r.value.scale <= b.scale
    ensures r.Some? ==> r.value.scale == Min(a.scale, b.scale) && r.value.value == ExactSum(a, b)
  {
    var scale := Min(a.scale, b.scale);
    var value1 := Rescale(a.value, a.scale, scale);
    if value1.None? {
      return None;
    }
    var value2 := Rescale(b.value, b.scale, scale);
    if value2.None? {
      return None;
    }
    var sum := AddOverflow(value1.value, value2.value);
    if sum.None? {
      return None;
    }
    return Some(Scaled(sum.value, scale));
  }

  function AsWritten(a: Scaled, b: Scaled): Option<Scaled> {
    if OperandsFit(a, b) then Some(Scaled(Narrow(ExactSum(a, b)), Min(a.scale, b.scale))) else None
  }

  /** bsi32_add with addi32_overflow as written. */
  method AddAsWritten(a: Scaled, b: Scaled) returns (r: Option<Scaled>)
    ensures r == AsWritten(a, b)
  {
    var scale := Min(a.scale, b.scale);
    var value1 := Rescale(a.value, a.scale, scale);
    if value1.None? {
      return None;
    }
    var value2 := Rescale(b.value, b.scale, scale);
    if value2.None? {
      return None;
    }
    var sum := AddThenCheck(value1.value, value2.value);
    return Some(Scaled(sum.value, scale));
  }

  /**
   * Added in 32 bits before the check, a sum is accepted and wrong exactly when both operands fit and the
   * sum does not; it is accepted and right exactly when the checked addition succeeds.
   */
  lemma CheckAfterWrappingIsBlind(a: Scaled, b: Scaled)
    ensures AsWritten(a, b).Some? && AsWritten(a, b).value.value != ExactSum(a, b) <==>
            OperandsFit(a, b) && !InRange(ExactSum(a, b))
    ensures AsWritten(a, b).Some? && AsWritten(a, b).value.value == ExactSum(a, b) <==> SumFits(a, b)
  {
    NarrowKeeps(ExactSum(a, b));
  }

  /** INT32_MAX plus 1 is accepted as INT32_MIN. */
  lemma WrappedSumAccepted()
    ensures AsWritten(Scaled(INT32_MAX, 0), Scaled(1, 0)) == Some(Scaled(INT32_MIN, 0))
  {
    assert Pow10(0) == 1;
  }

  lemma AddIsCommutative(a: Scaled, b: Scaled)
    ensures SumFits(a, b) <==> SumFits(b, a)
    ensures ExactSum(a, b) == ExactSum(b, a)
  {
  }

  // ---------- what the pairs stand for ----------

  /** How many units of 10^base the pair stands for, for any base it is a whole number of. */
  function Units(a: Scaled, base: int): int
    requires base <= a.scale
  {
    a.value * Pow10(a.scale - base)
  }

  lemma {:induction false} RaiseTwice(v: int, j: nat, k: nat)
    ensures Raise(Raise(v, j), k) == Raise(v, j + k)
  {
    if k > 0 {
      RaiseTwice(v, j, k - 1);
    }
  }

  lemma {:induction false} RaiseAdds(x: int, y: int, k: nat)
    ensures Raise(x + y, k) == Raise(x, k) + Raise(y, k)
  {
    if k > 0 {
      RaiseAdds(x, y, k - 1);
    }
  }

  lemma ExactSumByDigits(a: Scaled, b: Scaled)
    ensures var scale := Min(a.scale, b.scale);
            ExactSum(a, b) == Raise(a.value, a.scale - scale) + Raise(b.value, b.scale - scale)
  {
    var scale := Min(a.scale, b.scale);
    RaiseIsProduct(a.value, a.scale - scale);
    RaiseIsProduct(b.value, b.scale - scale);
  }

  /** A successful addition is exact: at any finer unit the result counts as much as both operands together. */
  lemma AddIsExact(a: Scaled, b: Scaled, r: Scaled, base: int)
    requires SumFits(a, b) && r == Scaled(ExactSum(a, b), Min(a.scale, b.scale)) && base <= r.scale
    ensures Units(r, base) == Units(a, base) + Units(b, base)
  {
    var n, j, k: nat := r.scale - base, a.scale - r.scale, b.scale - r.scale;
    ExactSumByDigits(a, b);
    RaiseTwice(a.value, j, n);
    RaiseTwice(b.value, k, n);
    RaiseAdds(Raise(a.value, j), Raise(b.value, k), n);
    RaiseIsProduct(r.value, n);
    RaiseIsProduct(a.value, j + n);
    RaiseIsProduct(b.value, k + n);
  }

  /** Coarsening in two steps is coarsening in one. */
  lemma CoarseningComposes(v: int, j: nat, k: nat)
    ensures TruncDiv(TruncDiv(v, Pow10(j)), Pow10(k)) == TruncDiv(v, Pow10(j + k))
  {
    CoarsenIsDivision(v, j);
    CoarsenIsDivision(Coarsen(v, j), k);
    CoarsenIsDivision(v, j + k);
    DropTwice(Abs(v), j, k);
  }

  lemma {:induction false} DropUndoesRaise(x: nat, k: nat)
    ensures Raise(x, k) >= 0 && Drop(Raise(x, k), k) == x
  {
    if k > 0 {
      DropUndoesRaise(x, k - 1);
    }
  }

  /** Refining and coarsening back is the identity. */
  lemma RefiningIsUndone(v: int, k: nat)
    ensures TruncDiv(v * Pow10(k), Pow10(k)) == v
  {
    RaiseIsProduct(v, k);
    DropUndoesRaise(Abs(v), k);
    RaiseSign(v, k);
    CoarsenIsDivision(Raise(v, k), k);
  }
}

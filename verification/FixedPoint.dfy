/** Machine integers, checked and saturating operators, and the few facts about
    truncating division that every other module leans on. */
module FixedPoint {

  datatype Option<+T> = None | Some(value: T) {
    predicate IsFailure() { None? }

    function PropagateFailure<U>(): Option<U>
      requires None?
    {
      None
    }

    function Extract(): T
      requires Some?
    {
      value
    }
  }

  const U32_MAX: int := 4294967295
  const U64_MAX: int := 18446744073709551615
  const U128_MAX: int := 340282366920938463463374607431768211455
  const I64_MIN: int := -9223372036854775808
  const I64_MAX: int := 9223372036854775807

  type u8 = x: int | 0 <= x <= 255
  type u64 = x: int | 0 <= x <= 18446744073709551615
  type u128 = x: int | 0 <= x <= 340282366920938463463374607431768211455
  type i64 = x: int | -9223372036854775808 <= x <= 9223372036854775807

  const WAD: int := 1000000000000000000
  const TOKEN_PRECISION: int := 1000000000
  const INSURING_LTV_THRESHOLD_MULTIPLIER: int := 850000000000000000
  const WITHDRAWING_LTV_THRESHOLD_MULTIPLIER: int := 743333333333333333
  const BORROW_LIQUIDATION_BUFFER_MULTIPLIER: int := 950000000000000000
  const LIQUIDATION_LTV_THRESHOLD_MULTIPLIER: int := 930000000000000000
  const LIQUIDATION_PROFIT_PERCENTAGE: int := 10000000000000000

  /** The largest value whose product with WAD is still a u128. */
  const MAX_RATIO_PART: int := 340282366920938463463

  /** The result of a checked u64 operation whose exact result is `x`. */
  function U64(x: int): Option<u64> {
    if 0 <= x <= U64_MAX then Some(x) else None
  }

  /** The result of a checked u128 operation whose exact result is `x`. */
  function U128(x: int): Option<u128> {
    if 0 <= x <= U128_MAX then Some(x) else None
  }

  /** The result of a checked i64 operation whose exact result is `x`. */
  function I64(x: int): Option<i64> {
    if I64_MIN <= x <= I64_MAX then Some(x) else None
  }

  /** `checked_div` on unsigned operands. */
  function CheckedDiv(a: nat, b: nat): Option<nat> {
    if b == 0 then None else Some(a / b)
  }

  /** The result of a saturating u128 operation whose exact result is `x`. */
  function Sat128(x: int): u128 {
    if x < 0 then 0 else if x > U128_MAX then U128_MAX else x
  }

  /** The result of a saturating u64 operation whose exact result is `x`. */
  function Sat64(x: int): u64 {
    if x < 0 then 0 else if x > U64_MAX then U64_MAX else x
  }

  function Min(a: int, b: int): int {
    if a <= b then a else b
  }

  /** The ceiling of `a / d`. */
  function CeilDiv(a: nat, d: nat): nat
    requires d > 0
  {
    if a % d == 0 then a / d else a / d + 1
  }

  function Pow10(n: nat): nat
    ensures Pow10(n) >= 1
  {
    if n == 0 then 1 else 10 * Pow10(n - 1)
  }

  lemma {:induction false} Pow10Grows(m: nat, n: nat)
    requires m <= n
    ensures Pow10(m) <= Pow10(n)
  {
    if m < n {
      Pow10Grows(m, n - 1);
    }
  }

  lemma Pow10Nine()
    ensures Pow10(9) == TOKEN_PRECISION
  {
    assert Pow10(3) == 1000;
    assert Pow10(6) == 1000 * Pow10(3);
    assert Pow10(9) == 1000 * Pow10(6);
  }

  // ----- truncating division, stated over products -----

  lemma DivBounds(a: int, d: int)
    requires d > 0
    ensures (a / d) * d <= a < (a / d) * d + d
    ensures (a / d + 1) * d == (a / d) * d + d
  {
    assert a == d * (a / d) + a % d;
  }

  lemma MulMono(a: int, b: int, c: int)
    requires a <= b && 0 <= c
    ensures a * c <= b * c
    ensures c * a <= c * b
  {
  }

  lemma MulStrict(a: int, b: int, c: int)
    requires a < b && 0 < c
    ensures a * c < b * c
    ensures a * c + c <= b * c
  {
    MulMono(a + 1, b, c);
  }

  lemma MulCancel(a: int, b: int, c: int)
    requires a * c < b * c && 0 < c
    ensures a < b
  {
    if b <= a {
      MulMono(b, a, c);
    }
  }

  lemma MulCancelLe(a: int, b: int, c: int)
    requires a * c <= b * c && 0 < c
    ensures a <= b
  {
    if b < a {
      MulStrict(b, a, c);
    }
  }

  lemma DivAtLeast(a: int, d: int, k: int)
    requires d > 0 && k * d <= a
    ensures k <= a / d
  {
    DivBounds(a, d);
    MulCancel(k, a / d + 1, d);
  }

  lemma DivBelow(a: int, d: int, k: int)
    requires d > 0 && a < k * d
    ensures a / d < k
  {
    DivBounds(a, d);
    MulCancel(a / d, k, d);
  }

  lemma DivMono(a: int, b: int, d: int)
    requires d > 0 && a <= b
    ensures a / d <= b / d
  {
    DivBounds(a, d);
    DivAtLeast(b, d, a / d);
  }

  lemma DivNonNegative(a: int, d: int)
    requires d > 0 && a >= 0
    ensures 0 <= a / d <= a
  {
    DivAtLeast(a, d, 0);
    MulMono(1, d, a);
    if a / d > a {
      DivBounds(a, d);
      MulStrict(a, a / d, d);
    }
  }

  lemma CeilBounds(a: nat, d: nat)
    requires d > 0
    ensures a <= CeilDiv(a, d) * d < a + d
  {
    DivBounds(a, d);
    assert a == d * (a / d) + a % d;
  }

  /** A ceiling is the least count that covers `a`. */
  lemma CeilLeast(a: nat, d: nat, k: int)
    requires d > 0
    ensures CeilDiv(a, d) <= k <==> a <= k * d
  {
    CeilBounds(a, d);
    if CeilDiv(a, d) <= k {
      MulMono(CeilDiv(a, d), k, d);
    } else {
      assert (CeilDiv(a, d) - 1) * d == CeilDiv(a, d) * d - d;
      MulMono(k, CeilDiv(a, d) - 1, d);
    }
  }

  /** A floor is the largest count that `a` covers. */
  lemma FloorGreatest(a: int, d: int, k: int)
    requires d > 0
    ensures k <= a / d <==> k * d <= a
  {
    if k * d <= a {
      DivAtLeast(a, d, k);
    } else {
      DivBelow(a, d, k);
    }
  }

  /** Flooring two parts separately loses at most one unit against flooring the sum. */
  lemma SplitFloor(a: int, b: int, d: int)
    requires d > 0
    ensures a / d + b / d <= (a + b) / d <= a / d + b / d + 1
  {
    DivBounds(a, d);
    DivBounds(b, d);
    assert (a / d + b / d) * d == (a / d) * d + (b / d) * d;
    assert (a / d + b / d + 2) * d == (a / d) * d + d + (b / d) * d + d;
    DivAtLeast(a + b, d, a / d + b / d);
    DivBelow(a + b, d, a / d + b / d + 2);
  }
}

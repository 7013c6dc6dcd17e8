/** Loan-to-value ratios and the protocol's three thresholds, as the program computes them. */
module HealthFactor {
  import opened FixedPoint

  datatype Delta = Increase(amount: u128) | Decrease(amount: u128)

  function ApplyChange(current: u128, delta: Delta): Option<u128> {
    match delta
    case Increase(x) => U128(current + x)
    case Decrease(x) => U128(current - x)
  }

  function ComputePotentialLtv(
    collateralDelta: Delta, debtDelta: Delta, collateral: u128, debt: u128): Option<u128>
  {
    var newCollateral :- ApplyChange(collateral, collateralDelta);
    var newDebt :- ApplyChange(debt, debtDelta);
    var numerator :- U128(newDebt * WAD);
    var ltv :- CheckedDiv(numerator, newCollateral);
    U128(ltv)
  }

  function ComputeCurrentLtv(debt: u128, collateral: u128): Option<u128> {
    if collateral == 0 then Some(0) else
    var numerator :- U128(debt * WAD);
    var ltv :- CheckedDiv(numerator, collateral);
    U128(ltv)
  }

  /** `ten_pow` panics above 19, which aborts the transaction like any other failure. */
  function TenPow(decimals: u64): Option<nat> {
    if decimals > 19 then None else Some(Pow10(decimals))
  }

  function GetMarketValueFromReserve(amount: u64, price: u128, decimals: u64): Option<u128> {
    var factor :- TenPow(decimals);
    var scaled :- U128(amount * price);
    var value :- CheckedDiv(scaled, factor);
    U128(value)
  }

  function GetAmountFromMarketValueFromReserve(
    marketValue: u128, price: u128, decimals: u64): Option<u64>
  {
    var factor :- TenPow(decimals);
    var scaled :- U128(marketValue * factor);
    var amount :- CheckedDiv(scaled, price);
    U64(amount)
  }

  /** `part / whole` in WAD, scaled by a threshold multiplier, every step checked. */
  function ScaledRatio(part: u128, whole: u128, multiplier: u128): Option<u128> {
    var numerator :- U128(part * WAD);
    var ratio :- CheckedDiv(numerator, whole);
    ApplyLtvBuffer(ratio, multiplier)
  }

  function ApplyLtvBuffer(threshold: nat, multiplier: u128): Option<u128> {
    var scaled :- U128(threshold * multiplier);
    U128(scaled / WAD)
  }

  function GetInsuringLtvThreshold(maxAllowedBorrow: u128, depositSum: u128): Option<u128> {
    ScaledRatio(maxAllowedBorrow, depositSum, INSURING_LTV_THRESHOLD_MULTIPLIER)
  }

  function GetWithdrawingLtvThreshold(maxAllowedBorrow: u128, depositSum: u128): Option<u128> {
    var currentLtv :- ComputeCurrentLtv(maxAllowedBorrow, depositSum);
    ApplyLtvBuffer(currentLtv, WITHDRAWING_LTV_THRESHOLD_MULTIPLIER)
  }

  function GetLiquidationLtvThreshold(unhealthyBorrowValue: u128, depositSum: u128): Option<u128> {
    ScaledRatio(unhealthyBorrowValue, depositSum, LIQUIDATION_LTV_THRESHOLD_MULTIPLIER)
  }

  // ----- the same ratios without a word size, as the keeper computes them -----

  /** `debt / collateral` in WAD, truncated. */
  function Ratio(part: nat, whole: nat): nat
    requires whole > 0
  {
    DivNonNegative(part * WAD, whole);
    part * WAD / whole
  }

  /** A threshold: the truncated ratio, scaled and truncated again. */
  function Threshold(part: nat, whole: nat, multiplier: nat): nat
    requires whole > 0
  {
    DivNonNegative(Ratio(part, whole) * multiplier, WAD);
    Ratio(part, whole) * multiplier / WAD
  }

  /** A checked threshold fails on no collateral, on a part whose product with WAD is too
      large, and on a ratio whose product with the multiplier is. */
  function ExactThreshold(part: u128, whole: u128, multiplier: u128): Option<nat> {
    if whole == 0 || part > MAX_RATIO_PART || Ratio(part, whole) * multiplier > U128_MAX then None
    else Some(Threshold(part, whole, multiplier))
  }

  /** What every checked form returns, failures included. Without collateral the current ltv
      and the withdraw threshold are zero and the other thresholds fail. */
  lemma CheckedThresholds(debt: u128, allowed: u128, unhealthy: u128, deposited: u128)
    ensures ComputeCurrentLtv(debt, deposited)
            == if deposited == 0 then Some(0)
               else if debt > MAX_RATIO_PART then None else Some(Ratio(debt, deposited))
    ensures GetInsuringLtvThreshold(allowed, deposited)
            == ExactThreshold(allowed, deposited, INSURING_LTV_THRESHOLD_MULTIPLIER)
    ensures GetWithdrawingLtvThreshold(allowed, deposited)
            == if deposited == 0 then Some(0)
               else ExactThreshold(allowed, deposited, WITHDRAWING_LTV_THRESHOLD_MULTIPLIER)
    ensures GetLiquidationLtvThreshold(unhealthy, deposited)
            == ExactThreshold(unhealthy, deposited, LIQUIDATION_LTV_THRESHOLD_MULTIPLIER)
  {
    ScaledRatioExact(allowed, deposited, INSURING_LTV_THRESHOLD_MULTIPLIER);
    ScaledRatioExact(allowed, deposited, WITHDRAWING_LTV_THRESHOLD_MULTIPLIER);
    ScaledRatioExact(unhealthy, deposited, LIQUIDATION_LTV_THRESHOLD_MULTIPLIER);
    if deposited > 0 {
      DivNonNegative(debt * WAD, deposited);
    }
  }

  lemma ScaledRatioExact(part: u128, whole: u128, multiplier: u128)
    requires multiplier <= WAD
    ensures ScaledRatio(part, whole, multiplier) == ExactThreshold(part, whole, multiplier)
    ensures whole > 0 && part <= MAX_RATIO_PART ==>
              ApplyLtvBuffer(Ratio(part, whole), multiplier)
              == ExactThreshold(part, whole, multiplier)
  {
    if whole > 0 {
      DivNonNegative(part * WAD, whole);
      MulMono(0, Ratio(part, whole), multiplier);
      DivNonNegative(Ratio(part, whole) * multiplier, WAD);
    }
  }

  /** A part within its whole never overflows the multiplier. */
  lemma PartWithinWhole(part: u128, whole: u128, multiplier: u128)
    requires 0 < whole && part <= whole && multiplier <= WAD
    ensures ExactThreshold(part, whole, multiplier).Some? <==> part <= MAX_RATIO_PART
  {
    MulMono(part, whole, WAD);
    DivBounds(part * WAD, whole);
    FloorGreatest(part * WAD, whole, WAD + 1);
    assert (WAD + 1) * whole == WAD * whole + whole;
    MulMono(Ratio(part, whole), WAD, multiplier);
  }

  /** The ratio after collateral leaves exists exactly when some collateral stays and the debt
      can be scaled. */
  lemma PotentialAfterDecrease(value: u128, deposited: u128, debt: u128)
    ensures ComputePotentialLtv(Decrease(value), Increase(0), deposited, debt)
            == if value < deposited && debt <= MAX_RATIO_PART
               then Some(Ratio(debt, deposited - value)) else None
  {
    if value < deposited {
      DivNonNegative(debt * WAD, deposited - value);
    }
  }

  /** What the two conversions return, failures included. */
  lemma ConversionsExact(amount: u64, marketValue: u128, price: u128, decimals: u64)
    ensures GetMarketValueFromReserve(amount, price, decimals)
            == if decimals <= 19 && amount * price <= U128_MAX
               then Some(amount * price / Pow10(decimals)) else None
    ensures GetAmountFromMarketValueFromReserve(marketValue, price, decimals)
            == if decimals <= 19 && marketValue * Pow10(decimals) <= U128_MAX && price > 0
                  && marketValue * Pow10(decimals) / price <= U64_MAX
               then Some(marketValue * Pow10(decimals) / price) else None
  {
    MulMono(0, amount, price);
    DivNonNegative(amount * price, Pow10(decimals));
    MulMono(0, marketValue, Pow10(decimals));
    if price > 0 {
      DivNonNegative(marketValue * Pow10(decimals), price);
    }
  }

  lemma RoundTripBounds(amount: nat, price: nat, den: nat)
    requires price > 0 && den > 0
    ensures 0 <= (amount * price / den) * den <= amount * price
    ensures amount - CeilDiv(den, price) <= (amount * price / den) * den / price <= amount
  {
    var worth := amount * price;
    MulMono(0, amount, price);
    DivBounds(worth, den);
    DivNonNegative(worth, den);
    var covered := (worth / den) * den;
    MulMono(0, worth / den, den);
    CeilBounds(den, price);
    BackWithin(amount, price, den, covered, CeilDiv(den, price));
  }

  lemma BackWithin(amount: nat, price: nat, den: nat, covered: nat, lost: nat)
    requires price > 0 && covered <= amount * price < covered + den && den <= lost * price
    ensures amount - lost <= covered / price <= amount
  {
    assert (amount - lost) * price == amount * price - lost * price;
    FloorGreatest(covered, price, amount - lost);
    assert (amount + 1) * price == amount * price + price;
    FloorGreatest(covered, price, amount + 1);
  }

  /** Turning tokens into value and back never gains a token and loses fewer than
      one unit of value's worth of tokens. */
  lemma ValueAmountRoundTrip(amount: u64, price: u128, decimals: u64)
    requires price > 0
    requires GetMarketValueFromReserve(amount, price, decimals).Some?
    ensures var value := GetMarketValueFromReserve(amount, price, decimals).value;
            var back := GetAmountFromMarketValueFromReserve(value, price, decimals);
            back.Some? && amount - CeilDiv(Pow10(decimals), price) <= back.value <= amount
  {
    RoundTripBounds(amount, price, Pow10(decimals));
    var covered := (amount * price / Pow10(decimals)) * Pow10(decimals);
    DivNonNegative(covered, price);
  }
}

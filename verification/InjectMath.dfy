/** How much collateral value, and how many tokens, an injection adds. */
module InjectMath {
  import opened FixedPoint

  function CalculateValueToInject(collateral: u128, debt: u128): Option<u128> {
    var diff :- U128(collateral - debt);
    var scaledDebt :- U128(debt * WAD);
    var ratio :- CheckedDiv(scaledDebt, collateral);
    var numerator :- U128(diff * ratio);
    U128(numerator / (2 * WAD))
  }

  /** The program also receives the reserve's price and decimals here and ignores both:
      it converts at the vault's price as if every token had nine decimals. */
  function CalculateAmountToInject(collateral: u128, debt: u128, vaultPrice: u128): Option<u64> {
    var value :- CalculateValueToInject(collateral, debt);
    var scaled :- U128(value * TOKEN_PRECISION);
    var amount :- CheckedDiv(scaled, vaultPrice);
    U64(amount)
  }

  /** The value is the exact `debt * (collateral - debt) / (2 * collateral)` rounded down
      twice; it never exceeds an eighth of the collateral, half the equity or half the debt. */
  lemma ValueToInjectBounds(collateral: u128, debt: u128)
    requires CalculateValueToInject(collateral, debt).Some?
    ensures var value := CalculateValueToInject(collateral, debt).value;
            && 8 * value <= collateral
            && 2 * value <= collateral - debt
            && 2 * value <= debt
            && 2 * collateral * value <= debt * (collateral - debt)
            && debt * (collateral - debt) * WAD
               < 2 * collateral * (value + 1) * WAD + (collateral - debt) * collateral
  {
    var diff := collateral - debt;
    var ratio := debt * WAD / collateral;
    assert 0 <= ratio <= WAD && ratio * collateral <= debt * WAD < ratio * collateral + collateral by {
      DivBounds(debt * WAD, collateral);
      RatioAtMostOne(collateral, debt, diff);
    }
    var scaled := diff * ratio;
    assert 0 <= scaled <= diff * WAD by { MulMono(ratio, WAD, diff); MulMono(0, ratio, diff); }
    HalfFloor(scaled, diff);
    HalfProduct(collateral, diff, debt, ratio, scaled / (2 * WAD));
    ShareOfCollateral(debt, diff, scaled / (2 * WAD));
  }

  lemma HalfFloor(scaled: nat, diff: nat)
    requires scaled <= diff * WAD
    ensures scaled / (2 * WAD) * (2 * WAD) <= scaled < scaled / (2 * WAD) * (2 * WAD) + 2 * WAD
    ensures 0 <= 2 * (scaled / (2 * WAD)) <= diff
  {
    DivBounds(scaled, 2 * WAD);
  }

  lemma RatioAtMostOne(collateral: nat, debt: nat, weight: nat)
    requires collateral > 0 && debt <= collateral
    ensures 0 <= debt * WAD / collateral <= WAD
    ensures 0 <= weight * (debt * WAD / collateral) <= weight * WAD
  {
    MulMono(debt, collateral, WAD);
    FloorGreatest(debt * WAD, collateral, WAD + 1);
    assert (WAD + 1) * collateral == WAD * collateral + collateral;
    DivNonNegative(debt * WAD, collateral);
    MulMono(debt * WAD / collateral, WAD, weight);
    MulMono(0, debt * WAD / collateral, weight);
  }

  lemma ProductAtMostSquare(a: int, b: int)
    ensures 4 * (a * b) <= (a + b) * (a + b)
  {
    var gap := a - b;
    assert gap * gap >= 0;
    assert (a + b) * (a + b) == gap * gap + 4 * (a * b);
  }

  lemma ShareOfCollateral(debt: nat, diff: nat, value: nat)
    requires debt + diff > 0
    requires 2 * (debt + diff) * value <= debt * diff
    ensures 8 * value <= debt + diff
    ensures 2 * value <= debt
  {
    var collateral := debt + diff;
    ProductAtMostSquare(debt, diff);
    assert (8 * value) * collateral == 4 * (2 * collateral * value);
    MulCancelLe(8 * value, collateral, collateral);
    MulMono(diff, collateral, debt);
    assert (2 * value) * collateral == 2 * collateral * value;
    MulCancelLe(2 * value, debt, collateral);
  }

  lemma HalfProduct(collateral: nat, diff: nat, debt: nat, ratio: nat, value: nat)
    requires collateral > 0
    requires ratio * collateral <= debt * WAD < ratio * collateral + collateral
    requires value * (2 * WAD) <= diff * ratio < value * (2 * WAD) + 2 * WAD
    ensures 2 * collateral * value <= debt * diff
    ensures debt * diff * WAD < 2 * collateral * (value + 1) * WAD + diff * collateral
  {
    var rc := ratio * collateral;
    MulMono(rc, debt * WAD, diff);
    assert diff * rc == (diff * ratio) * collateral;
    assert diff * (debt * WAD) == debt * diff * WAD;
    MulMono(value * (2 * WAD), diff * ratio, collateral);
    assert value * (2 * WAD) * collateral == (2 * collateral * value) * WAD;
    MulMono(debt * WAD, rc + collateral, diff);
    assert diff * (rc + collateral) == diff * rc + diff * collateral;
    MulStrict(diff * ratio, value * (2 * WAD) + 2 * WAD, collateral);
    assert (value * (2 * WAD) + 2 * WAD) * collateral == 2 * collateral * (value + 1) * WAD;
  }

  /** The value exists exactly when equity is not negative and three products fit. */
  lemma ValueToInjectDefined(collateral: u128, debt: u128)
    ensures CalculateValueToInject(collateral, debt).Some?
            <==> && collateral > 0
                 && debt <= collateral
                 && debt <= MAX_RATIO_PART
                 && (collateral - debt) * (debt * WAD / collateral) <= U128_MAX
  {
    if collateral > 0 && debt <= collateral {
      var ratio := debt * WAD / collateral;
      DivNonNegative(debt * WAD, collateral);
      MulMono(0, ratio, collateral - debt);
      DivNonNegative((collateral - debt) * ratio, 2 * WAD);
    }
  }

  /** Enough for every product to fit: four times the representable debt as collateral. */
  lemma ValueToInjectAvailable(collateral: u128, debt: u128)
    requires 0 < collateral <= 4 * MAX_RATIO_PART
    requires debt <= collateral && debt <= MAX_RATIO_PART
    ensures CalculateValueToInject(collateral, debt).Some?
  {
    DivBounds(debt * WAD, collateral);
    QuarterProduct(debt, collateral - debt, debt * WAD / collateral);
    ValueToInjectDefined(collateral, debt);
  }

  lemma QuarterProduct(debt: nat, diff: nat, ratio: int)
    requires debt + diff > 0 && ratio * (debt + diff) <= debt * WAD
    ensures 4 * (diff * ratio) <= (debt + diff) * WAD
  {
    var collateral := debt + diff;
    ProductAtMostSquare(debt, diff);
    MulMono(ratio * collateral, debt * WAD, diff);
    assert diff * (ratio * collateral) == (diff * ratio) * collateral;
    assert diff * (debt * WAD) == (debt * diff) * WAD;
    assert (4 * (diff * ratio)) * collateral == 4 * ((diff * ratio) * collateral);
    assert (collateral * WAD) * collateral == (collateral * collateral) * WAD;
    MulCancelLe(4 * (diff * ratio), collateral * WAD, collateral);
  }

  /** The tokens taken are the most whose value at the vault's price fits the injected value. */
  lemma AmountToInjectIsLargest(collateral: u128, debt: u128, vaultPrice: u128)
    requires CalculateAmountToInject(collateral, debt, vaultPrice).Some?
    ensures CalculateValueToInject(collateral, debt).Some?
    ensures forall k: int ::
              k <= CalculateAmountToInject(collateral, debt, vaultPrice).value
              <==> k * vaultPrice
                   <= CalculateValueToInject(collateral, debt).value * TOKEN_PRECISION
  {
    var scaled := CalculateValueToInject(collateral, debt).value * TOKEN_PRECISION;
    forall k: int
      ensures k <= scaled / vaultPrice <==> k * vaultPrice <= scaled
    {
      FloorGreatest(scaled, vaultPrice, k);
    }
  }
}

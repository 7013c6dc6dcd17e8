/** The safety check before a borrow, against the lending program's own gate. */
module BorrowGate {
  import opened FixedPoint
  import opened HealthFactor
  import opened KlendObligation
  import opened ObligationRuns

  datatype Verdict = Safe(debtChange: u128) | MarketValueError | LtvComputationError | UnsafePosition

  /** `assess_safe_debt_increase` on a refreshed obligation. */
  function AssessSafeDebtIncrease(st: State, amount: u64, r: Reserve): Verdict {
    match GetMarketValueFromReserve(amount, r.price, r.decimals)
    case None => MarketValueError
    case Some(change) =>
      match (ComputePotentialLtv(Increase(0), Increase(change), st.deposited, st.debt),
             MaxSafeLtv(st.unhealthy, st.deposited))
      case (Some(potential), Some(safe)) =>
        if potential <= safe then Safe(change) else UnsafePosition
      case _ => LtvComputationError
  }

  function MaxSafeLtv(unhealthy: u128, deposited: u128): Option<u128> {
    var liquidation :- GetLiquidationLtvThreshold(unhealthy, deposited);
    ApplyLtvBuffer(liquidation, BORROW_LIQUIDATION_BUFFER_MULTIPLIER)
  }

  /** A resulting debt the check accepts. */
  predicate Accepts(deposited: u128, unhealthy: u128, debt: u128) {
    && MaxSafeLtv(unhealthy, deposited).Some?
    && deposited > 0 && debt * WAD <= U128_MAX
    && Ratio(debt, deposited) <= MaxSafeLtv(unhealthy, deposited).value
  }

  lemma BelowBound(debt: nat, deposited: nat, bound: nat, unhealthy: nat)
    requires deposited > 0
    requires debt * WAD / deposited < bound && bound * deposited <= unhealthy * WAD
    ensures debt < unhealthy
  {
    DivBounds(debt * WAD, deposited);
    MulMono(debt * WAD / deposited + 1, bound, deposited);
    MulCancel(debt, unhealthy, WAD);
  }

  /** When the unhealthy value is at least one WAD-th of the collateral, an accepted debt is
      strictly below it; when at least two, its ratio is strictly below the liquidation
      threshold. */
  lemma AcceptedIsBelow(deposited: u128, unhealthy: u128, debt: u128)
    requires Accepts(deposited, unhealthy, debt)
    ensures deposited <= unhealthy * WAD ==> debt < unhealthy
    ensures deposited <= (unhealthy + 1) * WAD ==> debt <= unhealthy
    ensures 2 * deposited <= unhealthy * WAD ==>
              Ratio(debt, deposited)
              < Threshold(unhealthy, deposited, LIQUIDATION_LTV_THRESHOLD_MULTIPLIER)
  {
    var y := unhealthy * WAD / deposited;
    DivBounds(unhealthy * WAD, deposited);
    CheckedThresholds(debt, 0, unhealthy, deposited);
    FloorGreatest(unhealthy * WAD, deposited, 1);
    FloorGreatest(unhealthy * WAD, deposited, 2);
    if y >= 1 {
      BelowBound(debt, deposited, y, unhealthy);
    } else if deposited <= (unhealthy + 1) * WAD {
      assert Ratio(debt, deposited) == 0;
      BelowBound(debt, deposited, 1, unhealthy + 1);
    }
  }

  /** The check implies the lending program's gate exactly when the collateral is at most
      `(unhealthy + 1) * WAD`, and strictly so exactly when it is at most `unhealthy * WAD`. */
  lemma GateSoundIff(deposited: u128, unhealthy: u128)
    requires deposited > 0
    ensures (forall debt: u128 :: Accepts(deposited, unhealthy, debt) ==> debt <= unhealthy)
            <==> deposited <= (unhealthy + 1) * WAD
    ensures (forall debt: u128 :: Accepts(deposited, unhealthy, debt) ==> debt < unhealthy)
            <==> deposited <= unhealthy * WAD
  {
    forall debt: u128 | Accepts(deposited, unhealthy, debt)
      ensures deposited <= unhealthy * WAD ==> debt < unhealthy
      ensures deposited <= (unhealthy + 1) * WAD ==> debt <= unhealthy
    {
      AcceptedIsBelow(deposited, unhealthy, debt);
    }
    if unhealthy * WAD < deposited {
      AcceptsBelowOneUnit(deposited, unhealthy, unhealthy);
    }
    if (unhealthy + 1) * WAD < deposited {
      AcceptsBelowOneUnit(deposited, unhealthy, unhealthy + 1);
    }
  }

  /** A debt whose ratio truncates to zero is always accepted. */
  lemma AcceptsBelowOneUnit(deposited: u128, unhealthy: u128, debt: u128)
    requires unhealthy * WAD < deposited && debt * WAD < deposited
    ensures Accepts(deposited, unhealthy, debt)
  {
    FloorGreatest(debt * WAD, deposited, 1);
    DivNonNegative(debt * WAD, deposited);
    FloorGreatest(unhealthy * WAD, deposited, 1);
    DivNonNegative(unhealthy * WAD, deposited);
  }

  /** Exactly what the check answers: the potential ratio is held to 95% of the liquidation
      threshold, and fails to exist without collateral or past the word size. */
  lemma AssessesExactly(st: State, amount: u64, r: Reserve)
    ensures AssessSafeDebtIncrease(st, amount, r)
            == if GetMarketValueFromReserve(amount, r.price, r.decimals).None? then MarketValueError
               else
                 var change := GetMarketValueFromReserve(amount, r.price, r.decimals).value;
                 if st.debt + change > MAX_RATIO_PART
                    || ExactThreshold(st.unhealthy, st.deposited,
                                      LIQUIDATION_LTV_THRESHOLD_MULTIPLIER).None?
                 then LtvComputationError
                 else if 20 * Ratio(st.debt + change, st.deposited)
                         <= 19 * Threshold(st.unhealthy, st.deposited,
                                           LIQUIDATION_LTV_THRESHOLD_MULTIPLIER)
                 then Safe(change)
                 else UnsafePosition
  {
    CheckedThresholds(st.debt, 0, st.unhealthy, st.deposited);
    if st.deposited > 0 {
      Buffered(st.unhealthy, st.deposited);
      if GetMarketValueFromReserve(amount, r.price, r.decimals).Some? {
        var debt := st.debt + GetMarketValueFromReserve(amount, r.price, r.decimals).value;
        DivNonNegative(debt * WAD, st.deposited);
      }
    }
  }

  /** Where the liquidation threshold exists so does its buffered form, and is 95% of it. */
  lemma Buffered(unhealthy: u128, deposited: u128)
    requires deposited > 0
    ensures MaxSafeLtv(unhealthy, deposited).Some?
            <==> ExactThreshold(unhealthy, deposited, LIQUIDATION_LTV_THRESHOLD_MULTIPLIER).Some?
    ensures MaxSafeLtv(unhealthy, deposited).Some? ==>
              forall p: nat :: p <= MaxSafeLtv(unhealthy, deposited).value
                <==> 20 * p <= 19 * Threshold(unhealthy, deposited,
                                              LIQUIDATION_LTV_THRESHOLD_MULTIPLIER)
  {
    CheckedThresholds(0, 0, unhealthy, deposited);
  }

  /** In value: no debt above 88.35% of the unhealthy value is accepted, but for one unit of
      ratio, and none below it is refused, but for two. */
  lemma GateLine(debt: nat, unhealthy: nat, deposited: nat)
    requires deposited > 0
    ensures var accepted := 20 * Ratio(debt, deposited)
                            <= 19 * Threshold(unhealthy, deposited,
                                              LIQUIDATION_LTV_THRESHOLD_MULTIPLIER);
            && (accepted ==> 2000 * (debt * WAD) < 1767 * (unhealthy * WAD) + 2000 * deposited)
            && (2000 * (debt * WAD) <= 1767 * (unhealthy * WAD) - 3548 * deposited ==> accepted)
  {
    var p, x := Ratio(debt, deposited), Ratio(unhealthy, deposited);
    var t := Threshold(unhealthy, deposited, LIQUIDATION_LTV_THRESHOLD_MULTIPLIER);
    var owed, limit := debt * WAD, unhealthy * WAD;
    assert p * deposited <= owed < p * deposited + deposited by { DivBounds(owed, deposited); }
    assert x * deposited <= limit < x * deposited + deposited by { DivBounds(limit, deposited); }
    assert 100 * t <= 93 * x < 100 * t + 100 by { NinetyThree(x); }
    if 20 * p <= 19 * t {
      ScaledLine(2000, p, 1767, x, 0, deposited);
    } else {
      ScaledLine(1767, x, 2000, p, 1781, deposited);
    }
  }

  lemma NinetyThree(x: nat)
    ensures var t := x * LIQUIDATION_LTV_THRESHOLD_MULTIPLIER / WAD;
            100 * t <= 93 * x < 100 * t + 100
  {
  }

  lemma ScaledLine(a: nat, x: nat, b: nat, y: nat, c: nat, weight: nat)
    requires a * x <= b * y + c
    ensures a * (x * weight) <= b * (y * weight) + c * weight
  {
    MulMono(a * x, b * y + c, weight);
    assert a * x * weight == a * (x * weight);
    assert b * y * weight == b * (y * weight);
    assert (b * y + c) * weight == b * y * weight + c * weight;
  }

  lemma TenPowIsDenominator(decimals: u8)
    requires TenPow(decimals).Some?
    ensures Denominator(decimals) == Pow10(decimals) == TenPow(decimals).value
  {
    Pow10Grows(decimals, 19);
    Pow10Nine();
    assert Pow10(19) == 10 * Pow10(18);
    Pow10Eighteen();
  }

  lemma Pow10Eighteen()
    ensures Pow10(18) == WAD
  {
    Pow10Nine();
    assert Pow10(12) == 1000 * Pow10(9);
    assert Pow10(15) == 1000 * Pow10(12);
    assert Pow10(18) == 1000 * Pow10(15);
  }

  /** The two programs value the same tokens alike whenever the checked form succeeds. */
  lemma SameValue(amount: u64, price: u128, decimals: u8)
    requires GetMarketValueFromReserve(amount, price, decimals).Some?
    ensures GetMarketValueFromReserve(amount, price, decimals).value
            == TokenValueSf(amount, price, decimals)
  {
    TenPowIsDenominator(decimals);
    MulMono(0, amount, price);
  }

  /** A borrow the check lets through, once applied, owes exactly the assessed sum, passes
      the lending program's gate and stays below the keeper's liquidation threshold. */
  lemma AcceptedBorrowStaysHealthy(st: State, key: Pubkey, amount: u64, r: Reserve)
    requires AssessSafeDebtIncrease(st, amount, r).Safe?
    requires ApplyBorrow(st, key, amount, r.price, r.decimals).Some?
    ensures var next := ApplyBorrow(st, key, amount, r.price, r.decimals).value;
            && next.debt == st.debt + AssessSafeDebtIncrease(st, amount, r).debtChange
            && (st.deposited <= st.unhealthy * WAD ==> next.debt < next.unhealthy)
            && (st.deposited <= (st.unhealthy + 1) * WAD ==>
                  BorrowLiquidity(st, key, amount, r) == Some(next))
            && (2 * st.deposited <= st.unhealthy * WAD ==>
                  Ratio(next.debt, next.deposited)
                  < Threshold(next.unhealthy, next.deposited, LIQUIDATION_LTV_THRESHOLD_MULTIPLIER))
  {
    var next := ApplyBorrow(st, key, amount, r.price, r.decimals).value;
    SameValue(amount, r.price, r.decimals);
    assert Accepts(st.deposited, st.unhealthy, next.debt);
    AcceptedIsBelow(st.deposited, st.unhealthy, next.debt);
  }
}

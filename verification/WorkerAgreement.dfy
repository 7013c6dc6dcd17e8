/** Where the worker and the program agree on what a position needs, and exactly where not. */
module WorkerAgreement {
  import opened FixedPoint
  import opened Errors
  import opened HealthFactor
  import opened InjectMath
  import opened InterestMath
  import opened KlendObligation
  import opened PositionOps
  import opened LtvWorker
  import Hysteresis
  import BorrowGate

  /** The value an injection adds, before any word size. */
  function InjectValue(debt: nat, deposited: nat): nat
    requires 0 < deposited && debt <= deposited
  {
    MulMono(0, Ratio(debt, deposited), deposited - debt);
    (deposited - debt) * Ratio(debt, deposited) / (2 * WAD)
  }

  /** What the program's words must hold for it to compute an injection's tokens. */
  predicate TokensFit(debt: nat, deposited: nat, vaultPrice: nat)
    requires 0 < deposited
  {
    && debt <= deposited && vaultPrice > 0
    && (deposited - debt) * Ratio(debt, deposited) <= U128_MAX
    && InjectValue(debt, deposited) * TOKEN_PRECISION <= U128_MAX
    && InjectValue(debt, deposited) * TOKEN_PRECISION / vaultPrice <= U64_MAX
  }

  lemma TokensFitExact(debt: u128, deposited: u128, vaultPrice: u128)
    requires 0 < deposited && debt <= MAX_RATIO_PART
    ensures CalculateAmountToInject(deposited, debt, vaultPrice)
            == if TokensFit(debt, deposited, vaultPrice)
               then Some(InjectValue(debt, deposited) * TOKEN_PRECISION / vaultPrice) else None
  {
    ValueToInjectDefined(deposited, debt);
    if CalculateValueToInject(deposited, debt).Some? && vaultPrice > 0 {
      assert CalculateValueToInject(deposited, debt) == Some(InjectValue(debt, deposited));
      DivNonNegative(InjectValue(debt, deposited) * TOKEN_PRECISION, vaultPrice);
    }
  }

  /** And for it to make an injection the worker asks for, from what the vault manages. */
  predicate InjectWordsHold(st: State, v: VaultView)
    requires st.deposited > 0
  {
    && st.debt <= MAX_RATIO_PART && st.allowed <= MAX_RATIO_PART
    && Ratio(st.allowed, st.deposited) * INSURING_LTV_THRESHOLD_MULTIPLIER <= U128_MAX
    && TokensFit(st.debt, st.deposited, v.marketPrice)
    && InjectValue(st.debt, st.deposited) * TOKEN_PRECISION / v.marketPrice < v.managedAssets
  }

  /** The program makes exactly the injections the worker asks for whose numbers fit its words
      and whose tokens the vault manages. */
  lemma InjectMatchesProgram(st: State, b: Buffer, v: VaultView)
    ensures InjectAmount(st, b, v).Ok?
            <==> Decide(st.deposited, st.debt, st.unhealthy, st.allowed, false)
                 == Some(Kind.Inject)
                 && InjectWordsHold(st, v)
  {
    CheckedThresholds(st.debt, st.allowed, st.unhealthy, st.deposited);
    if st.deposited > 0 && st.debt <= MAX_RATIO_PART {
      TokensFitExact(st.debt, st.deposited, v.marketPrice);
    }
  }

  /** What the program's words must hold for the swap before a liquidation. */
  predicate SwapWordsHold(st: State, tokensHeld: u64, r: Reserve, debtReserve: Reserve)
    requires st.deposited > 0
  {
    && st.debt <= MAX_RATIO_PART && st.unhealthy <= MAX_RATIO_PART
    && Ratio(st.unhealthy, st.deposited) * LIQUIDATION_LTV_THRESHOLD_MULTIPLIER <= U128_MAX
    && TokensFor(st.debt, r).Some? && TokensFor(st.debt, debtReserve).Some?
    && TokensFor(st.debt, r).value * SWAP_PERCENT <= U64_MAX
    && 0 < TokensFor(st.debt, r).value * SWAP_PERCENT / 100 <= tokensHeld
  }

  /** The tokens of a reserve a value buys, where every product fits. */
  function TokensFor(value: u128, r: Reserve): Option<nat> {
    if r.decimals <= 19 && value * Pow10(r.decimals) <= U128_MAX && r.price > 0
       && value * Pow10(r.decimals) / r.price <= U64_MAX
    then
      MulMono(0, value, Pow10(r.decimals));
      DivNonNegative(value * Pow10(r.decimals), r.price);
      Some(value * Pow10(r.decimals) / r.price)
    else None
  }

  /** The swap that opens a liquidation goes ahead on exactly the injected positions across the
      worker's line whose numbers fit and whose tokens the vault holds. */
  lemma SwapMatchesProgram(
    st: State, b: Buffer, tokensHeld: u64, r: Reserve, debtReserve: Reserve)
    ensures LiquidateSwap(st, b, tokensHeld, r, debtReserve).Ok?
            <==> Decide(st.deposited, st.debt, st.unhealthy, st.allowed, b.injected)
                 == Some(Kind.Liquidate)
                 && SwapWordsHold(st, tokensHeld, r, debtReserve)
  {
    CheckedThresholds(st.debt, st.allowed, st.unhealthy, st.deposited);
    ConversionsExact(0, st.debt, r.price, r.decimals);
    ConversionsExact(0, st.debt, debtReserve.price, debtReserve.decimals);
  }

  /** What the swap's order is: 101% of the tokens the debt buys of the collateral, truncated
      twice, for at least what it buys of the debt token. */
  lemma SwapOrderAmounts(
    st: State, tokensHeld: u64, r: Reserve, debtReserve: Reserve, order: SwapOrder)
    requires SwapOrderFor(st, tokensHeld, r, debtReserve) == Ok(order)
    ensures TokensFor(st.debt, r).Some? && TokensFor(st.debt, debtReserve).Some?
    ensures 100 * order.tokensIn <= 101 * TokensFor(st.debt, r).value < 100 * order.tokensIn + 100
    ensures order.leastOut == TokensFor(st.debt, debtReserve).value
  {
    ConversionsExact(0, st.debt, r.price, r.decimals);
    ConversionsExact(0, st.debt, debtReserve.price, debtReserve.decimals);
  }

  /** Why the others are refused: injected and across the line come first, then an amount, some
      of it, and enough of it in the vault, and last the least it must buy. */
  lemma SwapRefusedFor(st: State, b: Buffer, tokensHeld: u64, r: Reserve, debtReserve: Reserve)
    ensures LiquidateSwap(st, b, tokensHeld, r, debtReserve) == Err(NotInjected) <==> !b.injected
    ensures var swap := SwapOrderFor(st, tokensHeld, r, debtReserve);
            var tokens := TokensFor(st.debt, r);
            var fits := tokens.Some? && 101 * tokens.value <= U64_MAX;
            && (swap == Err(WithdrawAmountCalculationError)
                <==> tokens.Some? && 101 * tokens.value > U64_MAX)
            && (swap == Err(ZeroLiquidationAmount) <==> fits && 101 * tokens.value < 100)
            && (swap == Err(InsufficientVaultLiquidity)
                <==> fits && 101 * tokens.value >= 100 * (tokensHeld + 1))
            && (swap == Err(AmountFromMarketValueError)
                <==> tokens.None?
                     || (fits && 100 <= 101 * tokens.value < 100 * (tokensHeld + 1)
                         && TokensFor(st.debt, debtReserve).None?))
  {
    ConversionsExact(0, st.debt, r.price, r.decimals);
    ConversionsExact(0, st.debt, debtReserve.price, debtReserve.decimals);
  }

  /** The program withdraws only where the worker asks for it, and where the borrow limits are
      far enough apart the worker then asks for nothing else. */
  lemma WithdrawMatchesWorker(st: State, b: Buffer, v: VaultView, now: i64, r: Reserve)
    requires WithdrawAmount(st, b, v, now, r).Ok?
    ensures st.deposited > 0 && WithdrawTrigger(st.deposited, st.debt, st.allowed)
    ensures st.allowed <= st.unhealthy && 4 * st.deposited <= st.unhealthy * WAD ==>
              Decide(st.deposited, st.debt, st.unhealthy, st.allowed, true) == Some(Kind.Withdraw)
  {
    Hysteresis.WithdrawChecks(st, b, v, now, r);
    if !WithdrawTrigger(st.deposited, st.debt, st.allowed) {
      Hysteresis.AboveThresholdRefusesWithdraw(st, b, v, now, r);
    }
    if st.allowed <= st.unhealthy && 4 * st.deposited <= st.unhealthy * WAD {
      ActionsExclusive(st.deposited, st.debt, st.unhealthy, st.allowed, true);
    }
  }

  /** In every reachable obligation, whose limits lie within its collateral, the ratios the
      program reads exist exactly when the debt and the limit read are at most
      `MAX_RATIO_PART`, about 340 WAD. */
  lemma RatiosExist(st: State)
    requires 0 < st.deposited && st.allowed <= st.unhealthy <= st.deposited
    ensures ComputeCurrentLtv(st.debt, st.deposited).Some? <==> st.debt <= MAX_RATIO_PART
    ensures GetInsuringLtvThreshold(st.allowed, st.deposited).Some?
            <==> st.allowed <= MAX_RATIO_PART
    ensures GetWithdrawingLtvThreshold(st.allowed, st.deposited).Some?
            <==> st.allowed <= MAX_RATIO_PART
    ensures GetLiquidationLtvThreshold(st.unhealthy, st.deposited).Some?
            <==> st.unhealthy <= MAX_RATIO_PART
  {
    CheckedThresholds(st.debt, st.allowed, st.unhealthy, st.deposited);
    PartWithinWhole(st.allowed, st.deposited, INSURING_LTV_THRESHOLD_MULTIPLIER);
    PartWithinWhole(st.allowed, st.deposited, WITHDRAWING_LTV_THRESHOLD_MULTIPLIER);
    PartWithinWhole(st.unhealthy, st.deposited, LIQUIDATION_LTV_THRESHOLD_MULTIPLIER);
  }

  /** Beyond those sizes the instructions that read them all fail, whatever the keeper asks for:
      a large debt or borrow limit stops injections and withdrawals, a large debt or unhealthy
      limit stops borrows and the swap before a liquidation. */
  lemma LargePositionsUnprotected(
    st: State, b: Buffer, v: VaultView, now: i64, r: Reserve, amount: u64,
    tokensHeld: u64, debtReserve: Reserve)
    requires 0 < st.deposited
    ensures st.debt > MAX_RATIO_PART || st.allowed > MAX_RATIO_PART ==>
              InjectAmount(st, b, v).Err? && WithdrawAmount(st, b, v, now, r).Err?
    ensures st.debt > MAX_RATIO_PART || st.unhealthy > MAX_RATIO_PART ==>
              && !BorrowGate.AssessSafeDebtIncrease(st, amount, r).Safe?
              && LiquidateSwap(st, b, tokensHeld, r, debtReserve).Err?
  {
    InjectMatchesProgram(st, b, v);
    SwapMatchesProgram(st, b, tokensHeld, r, debtReserve);
    if WithdrawAmount(st, b, v, now, r).Ok? {
      var taken := WithdrawAmount(st, b, v, now, r).value;
      Hysteresis.WithdrawChecks(st, b, v, now, r);
      PotentialAfterDecrease(GetMarketValueFromReserve(taken, r.price, r.decimals).value,
                             st.deposited, st.debt);
    }
    CheckedThresholds(st.debt, st.allowed, st.unhealthy, st.deposited);
    if st.debt > MAX_RATIO_PART {
      MulMono(MAX_RATIO_PART + 1, st.debt, WAD);
    }
  }

  /** A borrow limit of 368 WAD with a debt of 339: the worker asks for an injection the program
      can never make. */
  lemma LargeLimitStopsInjection(b: Buffer, v: VaultView, st: State)
    requires st.deposited == 460 * WAD && st.debt == 339 * WAD
    requires st.allowed == 368 * WAD && st.unhealthy == 400 * WAD
    ensures st.debt <= MAX_RATIO_PART
    ensures Decide(st.deposited, st.debt, st.unhealthy, st.allowed, false) == Some(Kind.Inject)
    ensures InjectAmount(st, b, v) == Err(InsuringThresholdError)
  {
    CheckedThresholds(st.debt, st.allowed, st.unhealthy, st.deposited);
    assert Ratio(339 * WAD, 460 * WAD) == 736956521739130434;
    assert Ratio(368 * WAD, 460 * WAD) == 800000000000000000;
  }

  /** The liquidation itself reads no ratio, and goes through where the swap before it cannot. */
  lemma LargeLiquidationGoesThrough(
    b: Buffer, st: State, tokensHeld: u64, r: Reserve, debtReserve: Reserve)
    requires st.deposited == 1000 * WAD && st.debt == 400 * WAD
    ensures CalculateAmountToWithdrawAfterRepay(st.debt, st.deposited, 100 * WAD)
            == Some(4060000000)
    ensures LiquidateSwap(st, b, tokensHeld, r, debtReserve).Err?
  {
    SwapMatchesProgram(st, b, tokensHeld, r, debtReserve);
  }
}

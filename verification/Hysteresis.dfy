/** Where an injection and a withdrawal leave a position, against the thresholds of the other:
    exactly, in quantities known before the call, to within the floors. */
module Hysteresis {
  import opened FixedPoint
  import opened Errors
  import opened HealthFactor
  import opened InjectMath
  import opened InterestMath
  import opened KlendObligation
  import opened RefreshReserves
  import opened PositionOps
  import opened HysteresisMath
  import CacheDrift
  import BorrowGate

  // ----- collateral values -----

  /** Tokens bought at the vault's price are worth no more than the injected value at the
      reserve's, so long as the reserve's price of a token does not exceed the vault's. */
  predicate VaultPriceCovers(r: Reserve, vaultPrice: u128) {
    r.price * TOKEN_PRECISION <= vaultPrice * Denominator(r.decimals)
  }

  lemma AddedWithinValue(k: nat, price: nat, den: nat, vaultPrice: nat, value: nat)
    requires k * vaultPrice <= value * TOKEN_PRECISION
    requires price * TOKEN_PRECISION <= vaultPrice * den
    ensures k * price <= value * den
  {
    MulMono(price * TOKEN_PRECISION, vaultPrice * den, k);
    MulMono(k * vaultPrice, value * TOKEN_PRECISION, den);
    assert k * (price * TOKEN_PRECISION) == (k * price) * TOKEN_PRECISION;
    assert k * (vaultPrice * den) == (k * vaultPrice) * den;
    assert value * TOKEN_PRECISION * den == (value * den) * TOKEN_PRECISION;
    MulCancelLe(k * price, value * den, TOKEN_PRECISION);
  }

  lemma ValueAfterInject(held: u64, added: u64, r: Reserve, value: nat)
    requires added * r.price <= value * Denominator(r.decimals)
    ensures TokenValueSf(held, r.price, r.decimals)
            <= TokenValueSf(Sat64(held + added), r.price, r.decimals)
            <= TokenValueSf(held, r.price, r.decimals) + value
  {
    var den := Denominator(r.decimals);
    var now := Sat64(held + added);
    MulMono(0, held, r.price);
    MulMono(held, now, r.price);
    MulMono(now, held + added, r.price);
    assert (held + added) * r.price == held * r.price + added * r.price;
    var x, y := Sat128(held * r.price), Sat128(now * r.price);
    assert x <= y <= x + value * den;
    DivMono(x, y, den);
    DivBounds(x, den);
    assert (x / den + value + 1) * den == (x / den) * den + den + value * den;
    DivBelow(y, den, x / den + value + 1);
  }

  /** Tokens taken out cost what they were assessed at, and a unit, even when the slot holds
      fewer of them. */
  lemma ValueAfterWithdraw(held: u64, taken: u64, r: Reserve)
    requires GetMarketValueFromReserve(taken, r.price, r.decimals).Some?
    ensures var before := TokenValueSf(held, r.price, r.decimals);
            var after := TokenValueSf(Sat64(held - taken), r.price, r.decimals);
            after <= before
            <= after + GetMarketValueFromReserve(taken, r.price, r.decimals).value + 1
  {
    var den, left := Denominator(r.decimals), Sat64(held - taken);
    BorrowGate.TenPowIsDenominator(r.decimals);
    MulMono(0, left, r.price);
    MulMono(left, held, r.price);
    MulMono(held, left + taken, r.price);
    assert (left + taken) * r.price == left * r.price + taken * r.price;
    var x, y := Sat128(held * r.price), Sat128(left * r.price);
    assert y <= x <= y + taken * r.price;
    DivMono(y, x, den);
    DivMono(x, y + taken * r.price, den);
    SplitFloor(y, taken * r.price, den);
  }

  lemma PercentBounds(value: u128, pct: u8)
    ensures 100 * Percent(value, pct) <= value * pct
    ensures Percent(value, pct) * WAD <= U128_MAX ==> value * pct <= 100 * Percent(value, pct) + 99
  {
    MulMono(0, value, pct);
  }

  /** Tokens bought at the vault's price add at most the injected value times the price factor,
      and a unit. */
  lemma AddedByFactor(held: u64, added: u64, r: Reserve, vaultPrice: nat, value: nat)
    requires added * vaultPrice <= value * TOKEN_PRECISION
    ensures var before := TokenValueSf(held, r.price, r.decimals);
            var after := TokenValueSf(Sat64(held + added), r.price, r.decimals);
            && before <= after
            && (after - before - 1) * (vaultPrice * Denominator(r.decimals))
               <= value * (r.price * TOKEN_PRECISION)
  {
    AddedTokens(held, added, r);
    FactorArithmetic(
      TokenValueSf(Sat64(held + added), r.price, r.decimals)
      - TokenValueSf(held, r.price, r.decimals) - 1,
      Denominator(r.decimals), added, r.price, vaultPrice, value);
  }

  lemma FactorArithmetic(
    grown: int, den: nat, added: nat, price: nat, vaultPrice: nat, value: nat)
    requires grown * den <= added * price && added * vaultPrice <= value * TOKEN_PRECISION
    ensures grown * (vaultPrice * den) <= value * (price * TOKEN_PRECISION)
  {
    MulMono(grown * den, added * price, vaultPrice);
    MulMono(added * vaultPrice, value * TOKEN_PRECISION, price);
    assert grown * den * vaultPrice == grown * (vaultPrice * den);
    assert added * price * vaultPrice == added * vaultPrice * price;
    assert value * TOKEN_PRECISION * price == value * (price * TOKEN_PRECISION);
  }

  lemma AddedTokens(held: u64, added: u64, r: Reserve)
    ensures var before := TokenValueSf(held, r.price, r.decimals);
            var after := TokenValueSf(Sat64(held + added), r.price, r.decimals);
            && before <= after
            && (after - before - 1) * Denominator(r.decimals) <= added * r.price
  {
    var den, now := Denominator(r.decimals), Sat64(held + added);
    MulMono(0, held, r.price);
    MulMono(0, added, r.price);
    MulMono(held, now, r.price);
    MulMono(now, held + added, r.price);
    assert (held + added) * r.price == held * r.price + added * r.price;
    var x, y := Sat128(held * r.price), Sat128(now * r.price);
    DivMono(x, y, den);
    DivBounds(x, den);
    DivBounds(y, den);
    assert (y / den - x / den - 1) * den == (y / den) * den - (x / den) * den - den;
  }

  /** Tokens taken at the reserve's own price: what they were assessed at, and a unit. */
  lemma AddedTokensValue(held: u64, added: u64, taken: u64, r: Reserve)
    requires added <= taken
    requires GetMarketValueFromReserve(taken, r.price, r.decimals).Some?
    ensures TokenValueSf(Sat64(held + added), r.price, r.decimals)
            <= TokenValueSf(held, r.price, r.decimals)
               + GetMarketValueFromReserve(taken, r.price, r.decimals).value + 1
  {
    var den := Denominator(r.decimals);
    BorrowGate.TenPowIsDenominator(r.decimals);
    AddedTokens(held, added, r);
    MulMono(added, taken, r.price);
    var grown := TokenValueSf(Sat64(held + added), r.price, r.decimals)
                 - TokenValueSf(held, r.price, r.decimals);
    DivAtLeast(taken * r.price, den, grown - 1);
  }

  // ----- what a move changes -----

  lemma PercentStep(low: u128, high: u128, pct: u8)
    requires low <= high
    ensures 0 <= 100 * (Percent(high, pct) - Percent(low, pct)) <= pct * (high - low) + 99
    ensures high * pct <= U128_MAX ==>
              pct * (high - low) - 99 <= 100 * (Percent(high, pct) - Percent(low, pct))
  {
    MulMono(low, high, pct);
    assert pct * (high - low) == high * pct - low * pct;
    MulMono(0, low, pct);
  }

  /** The value an injection of `amount` tokens adds to a slot holding `held`. */
  function InjectionAdds(held: u64, amount: u64, r: Reserve): nat {
    AddedTokens(held, amount, r);
    TokenValueSf(Sat64(held + amount), r.price, r.decimals)
    - TokenValueSf(held, r.price, r.decimals)
  }

  /** The value a withdrawal of `amount` tokens takes out of a slot holding `held`. */
  function WithdrawalTakes(held: u64, amount: u64, r: Reserve): nat {
    TokensFall(held, Sat64(held - amount), r);
    TokenValueSf(held, r.price, r.decimals)
    - TokenValueSf(Sat64(held - amount), r.price, r.decimals)
  }

  lemma TokensFall(held: u64, left: u64, r: Reserve)
    requires left <= held
    ensures TokenValueSf(left, r.price, r.decimals) <= TokenValueSf(held, r.price, r.decimals)
  {
    MulMono(left, held, r.price);
    DivMono(Sat128(left * r.price), Sat128(held * r.price), Denominator(r.decimals));
  }

  /** No percentage of a collateral value this size saturates: it is below 10^18 WAD. */
  predicate Unsaturated(value: nat) {
    255 * value <= U128_MAX
  }

  // ----- injecting -----

  /** The facts an accepted injection leaves behind: what it added, and a position above the
      inject threshold before it. */
  ghost predicate Injected(
    st: State, end: State, prices: Pubkey -> Reserve, r: Reserve, held: u64, amount: u64,
    value: nat, vaultPrice: nat)
  {
    && Priced(st, prices)
    && Replaces(st, end, prices, r, TokenValueSf(held, r.price, r.decimals),
                TokenValueSf(Sat64(held + amount), r.price, r.decimals))
    && 0 < st.deposited && st.debt <= st.deposited && st.allowed <= MAX_RATIO_PART
    && Ratio(st.debt, st.deposited) > InjectThreshold(st.allowed, st.deposited)
    && amount * vaultPrice <= value * TOKEN_PRECISION && vaultPrice > 0
    && 8 * value <= st.deposited
    && 2 * st.deposited * value <= st.debt * (st.deposited - st.debt)
  }

  lemma InjectionLeaves(
    p: Position, v: VaultView, current: Account, remaining: seq<Account>, st: State, after: Position)
    returns (end: State, amount: u64, value: nat)
    requires LandsClean(p.obligation, current.key)
    requires Refresh(p.obligation, current, remaining) == Ok(st)
    requires InjectCollateral(p, v, current, remaining) == Ok(after)
    ensures Refresh(after.obligation, current, remaining) == Ok(end)
    ensures after.buffer.injected && after.buffer.injectedAmount >= amount
    ensures amount == InjectAmount(st, p.buffer, v).value
    ensures Injected(st, end, PricesOf([current] + remaining), current.reserve,
                     Held(st, current.key), amount, value, v.marketPrice)
  {
    amount := InjectAmount(st, p.buffer, v).value;
    assert UpdateDeposit(st, current.key, amount, current.reserve, true) == Some(after.obligation);
    RefreshPrices(p.obligation, current, remaining);
    RefreshHeld(p.obligation, current, remaining, current.key);
    RefreshStays(p.obligation, st, current, remaining);
    RefreshAgain(st, current, remaining, amount, true);
    end := Refresh(after.obligation, current, remaining).value;
    CollateralMove(st, after.obligation, end, current, remaining, amount, true);
    value := InjectChecks(st, p.buffer, v);
  }

  /** The inject checks, read as facts about unbounded numbers. */
  lemma InjectChecks(st: State, b: Buffer, v: VaultView) returns (value: nat)
    requires InjectAmount(st, b, v).Ok?
    ensures 0 < st.deposited && st.debt <= st.deposited && st.allowed <= MAX_RATIO_PART
    ensures Ratio(st.debt, st.deposited) > InjectThreshold(st.allowed, st.deposited)
    ensures InjectAmount(st, b, v).value * v.marketPrice <= value * TOKEN_PRECISION
    ensures v.marketPrice > 0 && 8 * value <= st.deposited
    ensures 2 * st.deposited * value <= st.debt * (st.deposited - st.debt)
  {
    CheckedThresholds(st.debt, st.allowed, st.unhealthy, st.deposited);
    value := CalculateValueToInject(st.deposited, st.debt).value;
    ValueToInjectDefined(st.deposited, st.debt);
    ValueToInjectBounds(st.deposited, st.debt);
    AmountToInjectIsLargest(st.deposited, st.debt, v.marketPrice);
    assert InjectAmount(st, b, v).value
        <= CalculateAmountToInject(st.deposited, st.debt, v.marketPrice).value;
  }

  lemma RefreshStays(st: State, next: State, current: Account, remaining: seq<Account>)
    requires Refresh(st, current, remaining) == Ok(next)
    ensures Refresh(next, current, remaining).Ok?
  {
    RefreshPrices(st, current, remaining);
    RefreshPrices(next, current, remaining);
    assert Required(next) == Required(st);
  }

  /** A withdrawal takes at least what is recorded. */
  lemma TakesPrincipal(st: State, b: Buffer, v: VaultView, now: i64, r: Reserve)
    requires WithdrawAmount(st, b, v, now, r).Ok?
    ensures WithdrawAmount(st, b, v, now, r).value >= b.injectedAmount
  {
    var currentAi := Accrue(v.index.ai, v.rate, v.index.lastUpdated, now).value;
    AccrueNeverFalls(v.index.ai, v.rate, v.index.lastUpdated, now);
    WithdrawAmountBounds(currentAi, v.index.ai, b.injectedAmount);
  }

  /** The totals after an injection: what it adds to the collateral, and `pct` hundredths of it
      to the limit, to within a unit. */
  lemma InjectedTotals(
    st: State, end: State, prices: Pubkey -> Reserve, r: Reserve, held: u64, amount: u64,
    value: nat, vaultPrice: nat)
    requires Injected(st, end, prices, r, held, amount, value, vaultPrice)
    requires Unsaturated(st.deposited + InjectionAdds(held, amount, r))
    ensures var added := InjectionAdds(held, amount, r);
            && end.deposited == st.deposited + added && end.debt == st.debt
            && 100 * st.allowed + Lent(r, added) - 99 <= 100 * end.allowed
               <= 100 * st.allowed + Lent(r, added) + 99
  {
    var before := TokenValueSf(held, r.price, r.decimals);
    var after := TokenValueSf(Sat64(held + amount), r.price, r.decimals);
    AddedTokens(held, amount, r);
    assert after * r.ltvPct <= U128_MAX by { MulMono(after, st.deposited + (after - before), 255);
                                             MulMono(r.ltvPct, 255, after); }
    PercentStep(before, after, r.ltvPct);
  }

  /** What an accepted injection adds, on the obligation it refreshed. */
  function AdditionOf(p: Position, v: VaultView, current: Account, st: State): nat
    requires InjectAmount(st, p.buffer, v).Ok?
  {
    InjectionAdds(Held(st, current.key), InjectAmount(st, p.buffer, v).value, current.reserve)
  }

  /** The totals after it, where no percentage saturates. */
  predicate Totals(st: State, end: State, r: Reserve, added: nat) {
    && 0 < st.deposited && end.deposited == st.deposited + added && end.debt == st.debt
    && 100 * st.allowed + Lent(r, added) - 99 <= 100 * end.allowed
       <= 100 * st.allowed + Lent(r, added) + 99
  }

  lemma InjectionTotals(
    p: Position, v: VaultView, current: Account, remaining: seq<Account>)
    returns (st: State, end: State, after: Position)
    requires LandsClean(p.obligation, current.key)
    requires InjectCollateral(p, v, current, remaining).Ok?
    ensures Refresh(p.obligation, current, remaining) == Ok(st) && InjectAmount(st, p.buffer, v).Ok?
    ensures InjectCollateral(p, v, current, remaining) == Ok(after)
    ensures Refresh(after.obligation, current, remaining) == Ok(end)
    ensures after.buffer.injected
            && after.buffer.injectedAmount >= InjectAmount(st, p.buffer, v).value
    ensures Unsaturated(st.deposited + AdditionOf(p, v, current, st)) ==>
              Totals(st, end, current.reserve, AdditionOf(p, v, current, st))
  {
    st := Refresh(p.obligation, current, remaining).value;
    after := InjectCollateral(p, v, current, remaining).value;
    var amount, value;
    end, amount, value := InjectionLeaves(p, v, current, remaining, st, after);
    if Unsaturated(st.deposited + AdditionOf(p, v, current, st)) {
      InjectedTotals(st, end, PricesOf([current] + remaining), current.reserve,
                     Held(st, current.key), amount, value, v.marketPrice);
    }
  }

  /** Where an injection leaves the ratio, which the keeper's trigger reads: above the withdraw
      threshold exactly when the debt is above 74.3333% of what the limit becomes, to within
      three units of ratio. */
  lemma InjectionLands(
    p: Position, v: VaultView, current: Account, remaining: seq<Account>)
    returns (st: State, end: State, after: Position)
    requires LandsClean(p.obligation, current.key)
    requires InjectCollateral(p, v, current, remaining).Ok?
    ensures Refresh(p.obligation, current, remaining) == Ok(st) && InjectAmount(st, p.buffer, v).Ok?
    ensures InjectCollateral(p, v, current, remaining) == Ok(after)
    ensures Refresh(after.obligation, current, remaining) == Ok(end)
    ensures var added := AdditionOf(p, v, current, st);
            Unsaturated(st.deposited + added) ==>
              && end.deposited == st.deposited + added > 0
              && (AboveAfterInjection(st, current.reserve, added) ==>
                    Ratio(end.debt, end.deposited) > WithdrawThreshold(end.allowed, end.deposited))
              && (BelowAfterInjection(st, current.reserve, added) ==>
                    Ratio(end.debt, end.deposited) <= WithdrawThreshold(end.allowed, end.deposited))
  {
    st, end, after := InjectionTotals(p, v, current, remaining);
    if Unsaturated(st.deposited + AdditionOf(p, v, current, st)) {
      WithdrawLine(end.debt, end.allowed, end.deposited);
    }
  }

  /** The hundredths of a value that a reserve lends. */
  function Lent(r: Reserve, value: nat): nat {
    MulMono(0, value, r.ltvPct);
    r.ltvPct * value
  }

  /** The two sides of the line after an injection that adds `added`. */
  predicate AboveAfterInjection(st: State, r: Reserve, added: nat) {
    AboveLine(st.debt, st.deposited, st.allowed, added, Lent(r, added))
  }

  predicate BelowAfterInjection(st: State, r: Reserve, added: nat) {
    BelowLine(st.debt, st.deposited, st.allowed, added, Lent(r, added))
  }

  /** What the withdraw instruction does after an injection: with `worth` the value of the
      tokens it would take, it refuses exactly when the debt over what that leaves is above
      74.3333% of the limit over the collateral, both as the injection made them, to within two
      units of ratio. */
  lemma WithdrawAfterInjection(
    p: Position, v: VaultView, current: Account, remaining: seq<Account>,
    v': VaultView, now: i64, taken: u64, worth: nat)
    returns (st: State, after: Position)
    requires LandsClean(p.obligation, current.key)
    requires InjectCollateral(p, v, current, remaining).Ok?
    requires ChainWithdrawAmount(
               v'.index.ai, v'.rate, v'.index.lastUpdated, now,
               InjectCollateral(p, v, current, remaining).value.buffer.injectedAmount)
             == Some(taken)
    requires GetMarketValueFromReserve(taken, current.reserve.price, current.reserve.decimals)
             == Some(worth)
    ensures Refresh(p.obligation, current, remaining) == Ok(st) && InjectAmount(st, p.buffer, v).Ok?
    ensures InjectCollateral(p, v, current, remaining) == Ok(after)
    ensures var added := AdditionOf(p, v, current, st);
            var verdict := WithdrawInjected(after, v', now, current, remaining);
            Unsaturated(st.deposited + added) ==>
              && (RefusedAfterInjection(st, current.reserve, added, worth) ==> verdict.Err?)
              && (taken > 0 && AcceptedAfterInjection(st, current.reserve, added, worth) ==>
                    verdict.Ok?)
  {
    var end;
    st, end, after := InjectionTotals(p, v, current, remaining);
    InjectedSlot(p, v, current, remaining, st, after);
    WithdrawVerdict(after, v', now, current, remaining, end);
    if Unsaturated(st.deposited + AdditionOf(p, v, current, st)) {
      AssessedAfterInjection(st, end, current.reserve, AdditionOf(p, v, current, st),
                             after.buffer, v', now, taken, worth);
    }
  }

  lemma InjectedSlot(
    p: Position, v: VaultView, current: Account, remaining: seq<Account>, st: State, after: Position)
    requires Refresh(p.obligation, current, remaining) == Ok(st)
    requires InjectCollateral(p, v, current, remaining) == Ok(after)
    ensures current.key in DepositKeys(after.obligation.deposits)
  {
    var j := SlotFor(DepositKeys(st.deposits), current.key).value;
    assert DepositKeys(after.obligation.deposits)[j] == current.key;
  }

  /** The withdraw instruction, once its refresh is known. */
  lemma WithdrawVerdict(
    p: Position, v: VaultView, now: i64, current: Account, remaining: seq<Account>, st: State)
    requires Refresh(p.obligation, current, remaining) == Ok(st)
    requires p.buffer.injected && current.key in DepositKeys(p.obligation.deposits)
    ensures current.key in DepositKeys(st.deposits)
    ensures WithdrawInjected(p, v, now, current, remaining).Ok?
            <==> WithdrawAmount(st, p.buffer, v, now, current.reserve).Ok?
    ensures WithdrawInjected(p, v, now, current, remaining).Ok? ==>
              var amount := WithdrawAmount(st, p.buffer, v, now, current.reserve).value;
              UpdateDeposit(st, current.key, amount, current.reserve, false).Some?
              && WithdrawInjected(p, v, now, current, remaining).value.0
                 == Position(UpdateDeposit(st, current.key, amount, current.reserve, false).value,
                             Buffer(false, 0))
  {
    assert DepositKeys(st.deposits) == DepositKeys(p.obligation.deposits) by {
      RefreshPrices(p.obligation, current, remaining);
    }
  }

  /** The refusing side of the line, and the accepting side; the accepting side also asks that
      the limit is within the collateral and fits the program's words. */
  predicate RefusedAfterInjection(st: State, r: Reserve, added: nat, worth: nat) {
    var after, limit := st.deposited + added, 100 * st.allowed + Lent(r, added);
    || worth >= after
    || 100 * (st.debt * WAD * after)
       >= WITHDRAWING_LTV_THRESHOLD_MULTIPLIER * (limit + 99) * (after - worth)
  }

  predicate AcceptedAfterInjection(st: State, r: Reserve, added: nat, worth: nat) {
    var after, limit := st.deposited + added, 100 * st.allowed + Lent(r, added);
    && worth < after
    && 100 * (st.debt * WAD * after)
       <= (WITHDRAWING_LTV_THRESHOLD_MULTIPLIER * (limit - 99) - 200 * after) * (after - worth)
    && st.allowed <= st.deposited && r.ltvPct <= 100 && limit + 99 <= 100 * MAX_RATIO_PART
    && st.debt <= MAX_RATIO_PART
  }

  lemma AssessedAfterInjection(
    st: State, end: State, r: Reserve, added: nat, b: Buffer, v: VaultView, now: i64,
    taken: u64, worth: nat)
    requires Totals(st, end, r, added)
    requires ChainWithdrawAmount(v.index.ai, v.rate, v.index.lastUpdated, now, b.injectedAmount)
             == Some(taken)
    requires GetMarketValueFromReserve(taken, r.price, r.decimals) == Some(worth)
    ensures RefusedAfterInjection(st, r, added, worth) ==> WithdrawAmount(end, b, v, now, r).Err?
    ensures taken > 0 && AcceptedAfterInjection(st, r, added, worth) ==>
              WithdrawAmount(end, b, v, now, r) == Ok(taken)
  {
    var left := end.deposited - worth;
    CheckedThresholds(end.debt, end.allowed, end.unhealthy, end.deposited);
    PotentialAfterDecrease(worth, end.deposited, end.debt);
    if left > 0 {
      AssessedLine(end.debt, end.allowed, end.deposited, left);
      LimitTimes(100 * st.allowed + Lent(r, added), end.allowed, end.deposited, left);
    }
    if AcceptedAfterInjection(st, r, added, worth) {
      MulMono(r.ltvPct, 100, added);
      PartWithinWhole(end.allowed, end.deposited, WITHDRAWING_LTV_THRESHOLD_MULTIPLIER);
    }
  }

  lemma LimitTimes(limit: int, allowed: nat, after: nat, left: nat)
    requires limit - 99 <= 100 * allowed <= limit + 99
    ensures var m := WITHDRAWING_LTV_THRESHOLD_MULTIPLIER;
            && 100 * (m * allowed * left) <= m * (limit + 99) * left
            && (m * (limit - 99) - 200 * after) * left <= 100 * ((m * allowed - 2 * after) * left)
  {
    var m := WITHDRAWING_LTV_THRESHOLD_MULTIPLIER;
    MulMono(100 * (m * allowed), m * (limit + 99), left);
    assert 100 * (m * allowed) * left == 100 * (m * allowed * left);
    MulMono(m * (limit - 99) - 200 * after, 100 * (m * allowed - 2 * after), left);
    assert 100 * (m * allowed - 2 * after) * left == 100 * ((m * allowed - 2 * after) * left);
  }

  /** Where even one unit more than what was there before is refused. */
  predicate RefusedForEver(st: State, r: Reserve, added: nat) {
    RefusedLine(st.debt, st.deposited, st.allowed, added, Lent(r, added))
  }

  /** A withdrawal at the injection's own prices takes at least the tokens injected, so it
      leaves at most a unit more than there was before, and where that is refused it is refused
      for ever. */
  lemma InjectThenNoWithdraw(
    p: Position, v: VaultView, current: Account, remaining: seq<Account>)
    returns (st: State, after: Position)
    requires LandsClean(p.obligation, current.key)
    requires InjectCollateral(p, v, current, remaining).Ok?
    ensures Refresh(p.obligation, current, remaining) == Ok(st) && InjectAmount(st, p.buffer, v).Ok?
    ensures InjectCollateral(p, v, current, remaining) == Ok(after)
    ensures var added := AdditionOf(p, v, current, st);
            Unsaturated(st.deposited + added) && RefusedForEver(st, current.reserve, added) ==>
              forall v': VaultView, now: i64 ::
                WithdrawInjected(after, v', now, current, remaining).Err?
  {
    var end;
    st, end, after := InjectionTotals(p, v, current, remaining);
    var added := AdditionOf(p, v, current, st);
    if Unsaturated(st.deposited + added) && RefusedForEver(st, current.reserve, added) {
      forall v': VaultView, now: i64
        ensures WithdrawInjected(after, v', now, current, remaining).Err?
      {
        RefusesForEver(st, end, current.reserve, Held(st, current.key),
                       InjectAmount(st, p.buffer, v).value, after.buffer, v', now);
      }
    }
  }

  lemma RefusesForEver(
    st: State, end: State, r: Reserve, held: u64, amount: u64, b: Buffer, v: VaultView, now: i64)
    requires b.injectedAmount >= amount
    requires Totals(st, end, r, InjectionAdds(held, amount, r))
    requires RefusedForEver(st, r, InjectionAdds(held, amount, r))
    ensures WithdrawAmount(end, b, v, now, r).Err?
  {
    if WithdrawAmount(end, b, v, now, r).Ok? {
      var taken := WithdrawAmount(end, b, v, now, r).value;
      TakesPrincipal(end, b, v, now, r);
      WithdrawChecks(end, b, v, now, r);
      AddedTokensValue(held, amount, taken, r);
      var left := AssessedCollateral(end, taken, r);
      assert 0 < left <= st.deposited + 1;
      AssessedLine(end.debt, end.allowed, end.deposited, left);
      OneUnitMore(100 * st.allowed + Lent(r, InjectionAdds(held, amount, r)) + 99,
                  end.allowed, left, st.deposited + 1);
      assert false;
    }
  }

  lemma OneUnitMore(limit: nat, allowed: nat, left: nat, most: nat)
    requires 100 * allowed <= limit && left <= most
    ensures 100 * (WITHDRAWING_LTV_THRESHOLD_MULTIPLIER * allowed * left)
            <= WITHDRAWING_LTV_THRESHOLD_MULTIPLIER * limit * most
  {
    var m := WITHDRAWING_LTV_THRESHOLD_MULTIPLIER;
    MulMono(100 * (m * allowed), m * limit, left);
    assert 100 * (m * allowed) * left == 100 * (m * allowed * left);
    MulMono(left, most, m * limit);
  }

  // ----- withdrawing -----

  lemma AboveThresholdRefusesWithdraw(st: State, b: Buffer, v: VaultView, now: i64, r: Reserve)
    requires st.deposited > 0
    requires Ratio(st.debt, st.deposited) >= WithdrawThreshold(st.allowed, st.deposited)
    ensures WithdrawAmount(st, b, v, now, r).Err?
  {
    if WithdrawAmount(st, b, v, now, r).Ok? {
      WithdrawChecks(st, b, v, now, r);
      RatioAntitone(st.debt, AssessedCollateral(st, WithdrawAmount(st, b, v, now, r).value, r),
                    st.deposited);
      assert false;
    }
  }

  /** What the withdraw check takes as the collateral left behind. */
  function AssessedCollateral(st: State, amount: u64, r: Reserve): int {
    match GetMarketValueFromReserve(amount, r.price, r.decimals)
    case Some(value) => st.deposited - value
    case None => -1
  }

  /** The withdraw checks, read as facts about unbounded ratios. */
  lemma WithdrawChecks(st: State, b: Buffer, v: VaultView, now: i64, r: Reserve)
    requires WithdrawAmount(st, b, v, now, r).Ok?
    ensures var amount := WithdrawAmount(st, b, v, now, r).value;
            var assessed := AssessedCollateral(st, amount, r);
            && 0 < assessed <= st.deposited && amount > 0
            && GetMarketValueFromReserve(amount, r.price, r.decimals).Some?
            && Ratio(st.debt, assessed) < WithdrawThreshold(st.allowed, st.deposited)
            && st.allowed <= MAX_RATIO_PART
  {
    var amount := WithdrawAmount(st, b, v, now, r).value;
    var value := GetMarketValueFromReserve(amount, r.price, r.decimals).value;
    CheckedThresholds(st.debt, st.allowed, st.unhealthy, st.deposited);
    PotentialAfterDecrease(value, st.deposited, st.debt);
  }

  /** At or below the inject threshold the inject instruction refuses. */
  lemma BelowThresholdRefusesInject(st: State, b: Buffer, v: VaultView)
    requires st.deposited > 0
    requires Ratio(st.debt, st.deposited) <= InjectThreshold(st.allowed, st.deposited)
    ensures InjectAmount(st, b, v).Err?
  {
    CheckedThresholds(st.debt, st.allowed, st.unhealthy, st.deposited);
  }

  /** The facts an accepted withdrawal leaves behind. */
  ghost predicate Withdrawn(
    st: State, end: State, prices: Pubkey -> Reserve, r: Reserve, held: u64, amount: u64,
    assessed: nat)
  {
    && Priced(st, prices)
    && Replaces(st, end, prices, r, TokenValueSf(held, r.price, r.decimals),
                TokenValueSf(Sat64(held - amount), r.price, r.decimals))
    && assessed == AssessedCollateral(st, amount, r) && 0 < assessed <= st.deposited
    && st.allowed <= MAX_RATIO_PART
    && GetMarketValueFromReserve(amount, r.price, r.decimals).Some?
    && Ratio(st.debt, assessed) < WithdrawThreshold(st.allowed, st.deposited)
  }

  lemma WithdrawalLeaves(
    p: Position, v: VaultView, now: i64, current: Account, remaining: seq<Account>,
    st: State, after: Position)
    returns (end: State, amount: u64, assessed: nat)
    requires LandsClean(p.obligation, current.key)
    requires Refresh(p.obligation, current, remaining) == Ok(st)
    requires WithdrawInjected(p, v, now, current, remaining).Ok?
    requires after == WithdrawInjected(p, v, now, current, remaining).value.0
    ensures Refresh(after.obligation, current, remaining) == Ok(end)
    ensures amount == WithdrawAmount(st, p.buffer, v, now, current.reserve).value
    ensures Withdrawn(st, end, PricesOf([current] + remaining), current.reserve,
                      Held(st, current.key), amount, assessed)
  {
    amount := WithdrawAmount(st, p.buffer, v, now, current.reserve).value;
    assert UpdateDeposit(st, current.key, amount, current.reserve, false) == Some(after.obligation);
    RefreshPrices(p.obligation, current, remaining);
    RefreshHeld(p.obligation, current, remaining, current.key);
    RefreshStays(p.obligation, st, current, remaining);
    RefreshAgain(st, current, remaining, amount, false);
    end := Refresh(after.obligation, current, remaining).value;
    CollateralMove(st, after.obligation, end, current, remaining, amount, false);
    WithdrawChecks(st, p.buffer, v, now, current.reserve);
    assessed := AssessedCollateral(st, amount, current.reserve);
  }

  /** What an accepted withdrawal takes, on the obligation it refreshed. */
  function TakingOf(p: Position, v: VaultView, now: i64, current: Account, st: State): nat
    requires WithdrawAmount(st, p.buffer, v, now, current.reserve).Ok?
  {
    WithdrawalTakes(Held(st, current.key),
                    WithdrawAmount(st, p.buffer, v, now, current.reserve).value, current.reserve)
  }

  /** Where a withdrawal leaves a position: injectable exactly when the debt is above 85% of
      what the limit becomes, to within a unit of ratio. At or below the line the inject
      instruction refuses at the same prices; above it, no longer for safety. */
  lemma WithdrawalLands(
    p: Position, v: VaultView, now: i64, current: Account, remaining: seq<Account>)
    returns (st: State, end: State, after: Position)
    requires LandsClean(p.obligation, current.key)
    requires WithdrawInjected(p, v, now, current, remaining).Ok?
    ensures Refresh(p.obligation, current, remaining) == Ok(st)
            && WithdrawAmount(st, p.buffer, v, now, current.reserve).Ok?
    ensures after == WithdrawInjected(p, v, now, current, remaining).value.0
    ensures Refresh(after.obligation, current, remaining) == Ok(end)
    ensures var taken := TakingOf(p, v, now, current, st);
            st.deposited < U128_MAX ==>
              && end.deposited == st.deposited - taken
              && (SafeAfterWithdrawal(st, current.reserve, taken) ==>
                    CannotInject(after, end, current, remaining))
              && (InjectableAfterWithdrawal(st, current.reserve, taken) ==> UnsafeAgain(end))
  {
    st := Refresh(p.obligation, current, remaining).value;
    after := WithdrawInjected(p, v, now, current, remaining).value.0;
    var amount, assessed;
    end, amount, assessed := WithdrawalLeaves(p, v, now, current, remaining, st, after);
    if st.deposited < U128_MAX {
      var taken := TakingOf(p, v, now, current, st);
      WithdrawnTotals(st, end, PricesOf([current] + remaining), current.reserve,
                      Held(st, current.key), amount, assessed);
      if end.deposited > 0 {
        InjectLine(end.debt, end.allowed, end.deposited);
        if SafeAfterWithdrawal(st, current.reserve, taken) {
          RefusesAfterWithdrawal(after, end, current, remaining);
        }
        if InjectableAfterWithdrawal(st, current.reserve, taken) {
          AcceptsAgain(end);
        }
      } else {
        RefusesWithNothing(after, end, current, remaining);
      }
    }
  }

  /** The refreshed position is at or below the inject threshold, or has nothing left, and the
      inject instruction refuses it. */
  ghost predicate CannotInject(
    after: Position, end: State, current: Account, remaining: seq<Account>)
  {
    && (end.deposited > 0 ==>
          Ratio(end.debt, end.deposited) <= InjectThreshold(end.allowed, end.deposited))
    && forall v: VaultView :: InjectCollateral(after, v, current, remaining).Err?
  }

  /** It is above the inject threshold, and the inject instruction no longer finds it safe. */
  ghost predicate UnsafeAgain(end: State) {
    end.deposited > 0 ==>
      && Ratio(end.debt, end.deposited) > InjectThreshold(end.allowed, end.deposited)
      && forall b: Buffer, v: VaultView :: InjectAmount(end, b, v) != Err(NotUnsafePosition)
  }

  lemma RefusesAfterWithdrawal(
    after: Position, end: State, current: Account, remaining: seq<Account>)
    requires Refresh(after.obligation, current, remaining) == Ok(end) && end.deposited > 0
    requires Ratio(end.debt, end.deposited) <= InjectThreshold(end.allowed, end.deposited)
    ensures CannotInject(after, end, current, remaining)
  {
    forall v: VaultView ensures InjectCollateral(after, v, current, remaining).Err? {
      BelowThresholdRefusesInject(end, after.buffer, v);
    }
  }

  lemma RefusesWithNothing(
    after: Position, end: State, current: Account, remaining: seq<Account>)
    requires Refresh(after.obligation, current, remaining) == Ok(end) && end.deposited == 0
    ensures CannotInject(after, end, current, remaining)
  {
    CheckedThresholds(end.debt, end.allowed, end.unhealthy, end.deposited);
  }

  lemma AcceptsAgain(end: State)
    requires end.deposited > 0
    requires Ratio(end.debt, end.deposited) > InjectThreshold(end.allowed, end.deposited)
    ensures UnsafeAgain(end)
  {
    CheckedThresholds(end.debt, end.allowed, end.unhealthy, end.deposited);
  }

  /** The two sides of the line after a withdrawal that takes `taken` out of the slot. */
  predicate SafeAfterWithdrawal(st: State, r: Reserve, taken: nat) {
    taken <= st.deposited
    && SafeLine(st.debt, st.allowed, st.deposited - taken, Lent(r, taken))
  }

  predicate InjectableAfterWithdrawal(st: State, r: Reserve, taken: nat) {
    taken <= st.deposited
    && UnsafeLine(st.debt, st.allowed, st.deposited - taken, Lent(r, taken))
  }

  lemma WithdrawnTotals(
    st: State, end: State, prices: Pubkey -> Reserve, r: Reserve, held: u64, amount: u64,
    assessed: nat)
    requires Withdrawn(st, end, prices, r, held, amount, assessed) && st.deposited < U128_MAX
    ensures var taken := WithdrawalTakes(held, amount, r);
            && assessed - 1 <= end.deposited == st.deposited - taken && end.debt == st.debt
            && 100 * st.allowed - Lent(r, taken) - 99 <= 100 * end.allowed
               <= 100 * st.allowed - Lent(r, taken) + 99
  {
    var before := TokenValueSf(held, r.price, r.decimals);
    var after := TokenValueSf(Sat64(held - amount), r.price, r.decimals);
    ValueAfterWithdraw(held, amount, r);
    assert before * r.ltvPct <= U128_MAX by { MulMono(0, before, r.ltvPct); }
    PercentStep(after, before, r.ltvPct);
  }
}

/** What a liquidation takes from a position never exceeds what the position holds. */
module Liquidation {
  import opened FixedPoint
  import opened Errors
  import opened HealthFactor
  import opened InterestMath
  import opened KlendObligation
  import opened PositionOps
  import opened RefreshReserves
  import opened CacheDrift
  import opened Hysteresis
  import ObligationRuns

  /** The value a liquidation withdraws: the debt plus one percent of the equity. */
  function WithdrawValue(debt: nat, deposit: nat): nat
    requires debt <= deposit
  {
    debt + (deposit - debt) * LIQUIDATION_PROFIT_PERCENTAGE / WAD
  }

  /** The tokens taken are the most whose value at the vault's price fits that value, and the
      value leaves the borrower at least 99% of the equity. */
  lemma AfterRepayAmount(debt: u128, deposit: u128, vaultPrice: u128)
    requires CalculateAmountToWithdrawAfterRepay(debt, deposit, vaultPrice).Some?
    ensures debt <= deposit && vaultPrice > 0
    ensures forall k: int ::
              k <= CalculateAmountToWithdrawAfterRepay(debt, deposit, vaultPrice).value
              <==> k * vaultPrice <= WithdrawValue(debt, deposit) * TOKEN_PRECISION
    ensures debt <= WithdrawValue(debt, deposit)
    ensures 100 * (deposit - WithdrawValue(debt, deposit)) >= 99 * (deposit - debt)
  {
    var value := WithdrawValue(debt, deposit);
    forall k: int
      ensures k <= value * TOKEN_PRECISION / vaultPrice
              <==> k * vaultPrice <= value * TOKEN_PRECISION
    {
      FloorGreatest(value * TOKEN_PRECISION, vaultPrice, k);
    }
  }

  lemma TakenFits(held: u64, taken: u64, r: Reserve, value: nat)
    requires taken * r.price <= value * Denominator(r.decimals)
    requires value <= TokenValueSf(held, r.price, r.decimals)
    requires r.price > 0
    ensures taken <= held
    ensures TokenValueSf(taken, r.price, r.decimals) <= value
    ensures TokenValueSf(held - taken, r.price, r.decimals)
            >= TokenValueSf(held, r.price, r.decimals) - value
  {
    var den := Denominator(r.decimals);
    var x := Sat128(held * r.price);
    MulMono(0, held, r.price);
    MulMono(0, taken, r.price);
    DivBounds(x, den);
    MulMono(value, x / den, den);
    MulCancelLe(taken, held, r.price);
    assert taken * r.price <= x <= U128_MAX;
    assert value * den + den == (value + 1) * den;
    DivBelow(taken * r.price, den, value + 1);
    assert held * r.price == (held - taken) * r.price + taken * r.price;
    MulMono(0, held - taken, r.price);
    var y := Sat128((held - taken) * r.price);
    assert (x / den - value) * den == (x / den) * den - value * den;
    DivAtLeast(y, den, x / den - value);
  }

  /** The amount exists exactly when the collateral covers the debt, the vault has a price, and
      three results fit their words. */
  lemma AfterRepayDefined(debt: u128, deposit: u128, vaultPrice: u128)
    ensures CalculateAmountToWithdrawAfterRepay(debt, deposit, vaultPrice).Some?
            <==> && debt <= deposit && vaultPrice > 0
                 && (deposit - debt) * LIQUIDATION_PROFIT_PERCENTAGE <= U128_MAX
                 && WithdrawValue(debt, deposit) * TOKEN_PRECISION <= U128_MAX
                 && WithdrawValue(debt, deposit) * TOKEN_PRECISION / vaultPrice <= U64_MAX
  {
    if debt <= deposit && vaultPrice > 0 {
      DivNonNegative(WithdrawValue(debt, deposit) * TOKEN_PRECISION, vaultPrice);
    }
  }

  /** When the instruction succeeds: no ltv is read, so a healthy position that holds vault
      tokens is liquidated like any other. */
  lemma LiquidateSucceeds(
    p: Position, v: VaultView, tokens: TokenBalances, repay: Account,
    current: Account, remaining: seq<Account>)
    ensures Liquidate(p, v, tokens, repay, current, remaining).Ok?
            <==> && p.buffer.injected && Refresh(p.obligation, current, remaining).Ok?
                 && (var st := Refresh(p.obligation, current, remaining).value;
                     && CalculateAmountToWithdrawAfterRepay(
                          st.debt, st.deposited, v.marketPrice).Some?
                     && tokens.collateral
                        + CalculateAmountToWithdrawAfterRepay(
                            st.debt, st.deposited, v.marketPrice).value > 0
                     && SlotFor(DepositKeys(st.deposits), current.key).Some?)
                 && tokens.inVault > 0 && tokens.atPosition + tokens.inVault <= U64_MAX
  {
    if Refresh(p.obligation, current, remaining).Ok? && tokens.atPosition + tokens.inVault <= U64_MAX {
      RepayTouchesDebtOnly(Refresh(p.obligation, current, remaining).value, repay, tokens);
    }
  }

  /** Why the others are refused: the amount is asked for before the vault's tokens are, and
      nothing to send to the vault comes last. */
  lemma LiquidationRefusedFor(
    p: Position, v: VaultView, tokens: TokenBalances, repay: Account,
    current: Account, remaining: seq<Account>, st: State)
    requires Refresh(p.obligation, current, remaining) == Ok(st)
    ensures var r := Liquidate(p, v, tokens, repay, current, remaining);
            var amount := CalculateAmountToWithdrawAfterRepay(st.debt, st.deposited, v.marketPrice);
            var slot := SlotFor(DepositKeys(st.deposits), current.key);
            var sent := tokens.atPosition + tokens.inVault <= U64_MAX;
            && (r == Err(NotInjected) <==> !p.buffer.injected)
            && (r == Err(WithdrawAmountCalculationError) <==> p.buffer.injected && amount.None?)
            && (r == Err(ZeroAmountToSend)
                <==> p.buffer.injected && amount.Some?
                     && (tokens.inVault == 0
                         || (sent && slot.Some? && amount.value + tokens.collateral == 0)))
            && (r == Err(TokenProgramError)
                <==> p.buffer.injected && amount.Some? && tokens.inVault > 0 && !sent)
            && (r == Err(NoFreeObligationSlot)
                <==> p.buffer.injected && amount.Some? && tokens.inVault > 0 && sent && slot.None?)
  {
    if tokens.atPosition + tokens.inVault <= U64_MAX {
      RepayTouchesDebtOnly(st, repay, tokens);
    }
  }

  lemma RepayTouchesDebtOnly(st: State, repay: Account, tokens: TokenBalances)
    requires tokens.atPosition + tokens.inVault <= U64_MAX
    ensures Repaid(st, repay, tokens).deposits == st.deposits
    ensures Repaid(st, repay, tokens).deposited == st.deposited
    ensures Repaid(st, repay, tokens).debt == DebtLeft(st, repay, tokens)
    ensures forall key | key in BorrowKeys(Repaid(st, repay, tokens).borrows) ::
              key in BorrowKeys(st.borrows) || key == DEFAULT_KEY
  {
    var next := Repaid(st, repay, tokens);
    forall key | key in BorrowKeys(next.borrows)
      ensures key in BorrowKeys(st.borrows) || key == DEFAULT_KEY
    {
      var j :| 0 <= j < |next.borrows| && BorrowKeys(next.borrows)[j] == key;
      assert key == BorrowKeys(st.borrows)[j] || key == DEFAULT_KEY;
    }
  }

  function Repaid(st: State, repay: Account, tokens: TokenBalances): State
    requires tokens.atPosition + tokens.inVault <= U64_MAX
  {
    ApplyRepay(st, repay.key, tokens.atPosition + tokens.inVault,
               repay.reserve.price, repay.reserve.decimals)
  }

  /** The debt that stays: all of it unless the repaid reserve is owed, and nothing once the
      tokens are worth it. */
  function DebtLeft(st: State, repay: Account, tokens: TokenBalances): nat
    requires tokens.atPosition + tokens.inVault <= U64_MAX
  {
    if repay.key !in BorrowKeys(st.borrows) then st.debt
    else
      var worth := TokenValueSf(tokens.atPosition + tokens.inVault,
                                repay.reserve.price, repay.reserve.decimals);
      if worth >= st.debt then 0 else st.debt - worth
  }

  /** The refreshed obligation before and after a liquidation, with the tokens it takes. */
  ghost predicate Liquidates(
    p: Position, v: VaultView, tokens: TokenBalances, repay: Account,
    current: Account, remaining: seq<Account>, st: State, end: State, amount: u64)
  {
    && Refresh(p.obligation, current, remaining) == Ok(st)
    && Liquidate(p, v, tokens, repay, current, remaining).Ok?
    && Refresh(Liquidate(p, v, tokens, repay, current, remaining).value.obligation,
               current, remaining) == Ok(end)
    && CalculateAmountToWithdrawAfterRepay(st.debt, st.deposited, v.marketPrice) == Some(amount)
  }

  lemma LiquidationMoves(
    p: Position, v: VaultView, tokens: TokenBalances, repay: Account,
    current: Account, remaining: seq<Account>, st: State)
    returns (end: State, amount: u64)
    requires LandsClean(p.obligation, current.key)
    requires Refresh(p.obligation, current, remaining) == Ok(st)
    requires Liquidate(p, v, tokens, repay, current, remaining).Ok?
    ensures Liquidates(p, v, tokens, repay, current, remaining, st, end, amount)
    ensures tokens.atPosition + tokens.inVault <= U64_MAX && st.debt <= st.deposited
    ensures end.debt == DebtLeft(st, repay, tokens)
    ensures var r, held := current.reserve, Held(p.obligation, current.key);
            var prices := PricesOf([current] + remaining);
            && Priced(st, prices)
            && Replaces(Repaid(st, repay, tokens), end, prices, r,
                        TokenValueSf(held, r.price, r.decimals),
                        TokenValueSf(AmountAfter(held, amount, false), r.price, r.decimals))
  {
    var after: State;
    amount, after := LiquidateResult(p, v, tokens, repay, current, remaining, st);
    var repaid := Repaid(st, repay, tokens);
    RefreshPrices(p.obligation, current, remaining);
    RefreshHeld(p.obligation, current, remaining, current.key);
    RepayTouchesDebtOnly(st, repay, tokens);
    assert Held(repaid, current.key) == Held(st, current.key);
    RepaidRefreshes(p.obligation, st, repaid, current, remaining);
    RefreshAgain(repaid, current, remaining, amount, false);
    end := Refresh(after, current, remaining).value;
    CollateralMove(repaid, after, end, current, remaining, amount, false);
  }

  lemma LiquidateResult(
    p: Position, v: VaultView, tokens: TokenBalances, repay: Account,
    current: Account, remaining: seq<Account>, st: State)
    returns (amount: u64, after: State)
    requires Refresh(p.obligation, current, remaining) == Ok(st)
    requires Liquidate(p, v, tokens, repay, current, remaining).Ok?
    ensures tokens.atPosition + tokens.inVault <= U64_MAX && st.debt <= st.deposited
    ensures CalculateAmountToWithdrawAfterRepay(st.debt, st.deposited, v.marketPrice) == Some(amount)
    ensures Liquidate(p, v, tokens, repay, current, remaining).value
            == Position(after, Buffer(false, 0))
    ensures UpdateDeposit(Repaid(st, repay, tokens), current.key, amount, current.reserve, false)
            == Some(after)
  {
    amount, after := RefreshedResult(st, v, tokens, repay, current);
  }

  lemma RefreshedResult(
    st: State, v: VaultView, tokens: TokenBalances, repay: Account, current: Account)
    returns (amount: u64, after: State)
    requires LiquidateRefreshed(st, v, tokens, repay, current).Ok?
    ensures tokens.atPosition + tokens.inVault <= U64_MAX && st.debt <= st.deposited
    ensures CalculateAmountToWithdrawAfterRepay(st.debt, st.deposited, v.marketPrice) == Some(amount)
    ensures LiquidateRefreshed(st, v, tokens, repay, current) == Ok(after)
    ensures UpdateDeposit(Repaid(st, repay, tokens), current.key, amount, current.reserve, false)
            == Some(after)
  {
    amount := CalculateAmountToWithdrawAfterRepay(st.debt, st.deposited, v.marketPrice).value;
    after := LiquidateRefreshed(st, v, tokens, repay, current).value;
  }

  lemma RepaidRefreshes(
    before: State, st: State, repaid: State, current: Account, remaining: seq<Account>)
    requires Refresh(before, current, remaining) == Ok(st)
    requires repaid.deposits == st.deposits
    requires forall key | key in BorrowKeys(repaid.borrows) ::
               key in BorrowKeys(st.borrows) || key == DEFAULT_KEY
    ensures Refresh(repaid, current, remaining).Ok?
  {
    RefreshPrices(before, current, remaining);
    RefreshPrices(repaid, current, remaining);
    forall key | key in Required(repaid) ensures Passed(key, current, remaining) {
      assert key in Required(before);
    }
  }

  /** One token's worth of value at a price, rounded up. */
  function TokenUnit(r: Reserve): nat {
    CeilDiv(r.price, Denominator(r.decimals))
  }

  /** Where the vault's price covers the reserve's and the reserve's slot holds the value to be
      taken, neither subtraction clamps, and the borrower's net equity falls by at most a
      percent and the debt that was not repaid; it keeps 99% if nothing is left owing. */
  lemma LiquidationFits(
    p: Position, v: VaultView, tokens: TokenBalances, repay: Account,
    current: Account, remaining: seq<Account>, st: State)
    returns (end: State, amount: u64)
    requires LandsClean(p.obligation, current.key)
    requires Refresh(p.obligation, current, remaining) == Ok(st) && st.debt <= st.deposited
    requires Liquidate(p, v, tokens, repay, current, remaining).Ok?
    requires VaultPriceCovers(current.reserve, v.marketPrice) && current.reserve.price > 0
    requires WithdrawValue(st.debt, st.deposited)
             <= TokenValueSf(Held(p.obligation, current.key),
                             current.reserve.price, current.reserve.decimals)
    ensures Liquidates(p, v, tokens, repay, current, remaining, st, end, amount)
    ensures var r, held := current.reserve, Held(p.obligation, current.key);
            && amount <= held && TokenValueSf(amount, r.price, r.decimals) <= st.deposited
    ensures var slot := SlotFor(DepositKeys(p.obligation.deposits), current.key);
            var after := Liquidate(p, v, tokens, repay, current, remaining).value.obligation;
            slot.Some? && slot.value < |after.deposits|
            && after.deposits[slot.value].amount == Held(p.obligation, current.key) - amount
    ensures tokens.atPosition + tokens.inVault <= U64_MAX
    ensures end.debt == DebtLeft(st, repay, tokens)
    ensures 100 * (end.deposited - end.debt) >= 99 * (st.deposited - st.debt) - 100 * end.debt
  {
    var r, held := current.reserve, Held(p.obligation, current.key);
    end, amount := LiquidationMoves(p, v, tokens, repay, current, remaining, st);
    RepayTouchesDebtOnly(st, repay, tokens);
    FittingLoss(st, end, Repaid(st, repay, tokens), PricesOf([current] + remaining),
                v, r, held, amount);
    SlotAfterTaking(p, v, tokens, repay, current, remaining, st, amount);
  }

  lemma FittingLoss(
    st: State, end: State, repaid: State, prices: Pubkey -> Reserve, v: VaultView, r: Reserve,
    held: u64, amount: u64)
    requires Priced(st, prices) && repaid.deposits == st.deposits && st.debt <= st.deposited
    requires Replaces(repaid, end, prices, r, TokenValueSf(held, r.price, r.decimals),
                      TokenValueSf(AmountAfter(held, amount, false), r.price, r.decimals))
    requires CalculateAmountToWithdrawAfterRepay(st.debt, st.deposited, v.marketPrice) == Some(amount)
    requires VaultPriceCovers(r, v.marketPrice) && r.price > 0
    requires WithdrawValue(st.debt, st.deposited) <= TokenValueSf(held, r.price, r.decimals)
    ensures amount <= held && TokenValueSf(amount, r.price, r.decimals) <= st.deposited
    ensures 100 * (end.deposited - end.debt) >= 99 * (st.deposited - st.debt) - 100 * end.debt
  {
    TakenTokens(st, v, r, held, amount);
    TokensFall(held, held - amount, r);
    LiquidatedCollateral(st, end, repaid, prices, r, held, amount);
    KeptEquity(st.debt, st.deposited, end.deposited);
  }

  lemma KeptEquity(debt: nat, deposited: nat, left: nat)
    requires debt <= deposited && left >= deposited - WithdrawValue(debt, deposited)
    ensures WithdrawValue(debt, deposited) <= deposited
    ensures 100 * left >= 99 * (deposited - debt)
  {
  }

  /** At equal prices those bounds are met to within one token: a liquidation that leaves more
      than a token's worth of debt takes the borrower below 99% of the equity. */
  lemma UnpaidDebtIsLost(
    p: Position, v: VaultView, tokens: TokenBalances, repay: Account,
    current: Account, remaining: seq<Account>, st: State)
    returns (end: State, amount: u64)
    requires LandsClean(p.obligation, current.key)
    requires Refresh(p.obligation, current, remaining) == Ok(st) && st.debt <= st.deposited
    requires Liquidate(p, v, tokens, repay, current, remaining).Ok?
    requires current.reserve.price > 0 && st.deposited < U128_MAX
    requires current.reserve.price * TOKEN_PRECISION
             == v.marketPrice * Denominator(current.reserve.decimals)
    requires Held(p.obligation, current.key) * current.reserve.price <= U128_MAX
    requires WithdrawValue(st.debt, st.deposited)
             <= TokenValueSf(Held(p.obligation, current.key),
                             current.reserve.price, current.reserve.decimals)
    ensures Liquidates(p, v, tokens, repay, current, remaining, st, end, amount)
    ensures tokens.atPosition + tokens.inVault <= U64_MAX
    ensures end.debt == DebtLeft(st, repay, tokens)
    ensures end.deposited <= st.deposited - WithdrawValue(st.debt, st.deposited)
                             + TokenUnit(current.reserve)
    ensures end.debt > TokenUnit(current.reserve) ==>
              100 * (end.deposited - end.debt) < 99 * (st.deposited - st.debt)
  {
    var r, held := current.reserve, Held(p.obligation, current.key);
    end, amount := LiquidationMoves(p, v, tokens, repay, current, remaining, st);
    RepayTouchesDebtOnly(st, repay, tokens);
    UnpaidLoss(st, end, Repaid(st, repay, tokens), PricesOf([current] + remaining),
               v, r, held, amount);
  }

  lemma UnpaidLoss(
    st: State, end: State, repaid: State, prices: Pubkey -> Reserve, v: VaultView, r: Reserve,
    held: u64, amount: u64)
    requires Priced(st, prices) && repaid.deposits == st.deposits && st.debt <= st.deposited
    requires Replaces(repaid, end, prices, r, TokenValueSf(held, r.price, r.decimals),
                      TokenValueSf(AmountAfter(held, amount, false), r.price, r.decimals))
    requires CalculateAmountToWithdrawAfterRepay(st.debt, st.deposited, v.marketPrice) == Some(amount)
    requires r.price > 0 && st.deposited < U128_MAX && held * r.price <= U128_MAX
    requires r.price * TOKEN_PRECISION == v.marketPrice * Denominator(r.decimals)
    requires WithdrawValue(st.debt, st.deposited) <= TokenValueSf(held, r.price, r.decimals)
    ensures end.deposited <= st.deposited - WithdrawValue(st.debt, st.deposited) + TokenUnit(r)
    ensures end.debt > TokenUnit(r) ==>
              100 * (end.deposited - end.debt) < 99 * (st.deposited - st.debt)
  {
    assert amount <= held by { TakenTokens(st, v, r, held, amount); }
    TakenTokensMost(st, v, r, held, amount);
    TokensFall(held, held - amount, r);
    LiquidatedCollateral(st, end, repaid, prices, r, held, amount);
    if end.debt > TokenUnit(r) {
      LostEquity(st.debt, st.deposited, end.deposited, end.debt, TokenUnit(r));
    }
  }

  lemma LostEquity(debt: nat, deposited: nat, left: nat, owing: nat, unit: nat)
    requires debt <= deposited && left <= deposited - WithdrawValue(debt, deposited) + unit
    requires owing > unit
    ensures 100 * (left - owing) < 99 * (deposited - debt)
  {
  }

  lemma TakenTokens(st: State, v: VaultView, r: Reserve, held: u64, amount: u64)
    requires st.debt <= st.deposited && r.price > 0 && VaultPriceCovers(r, v.marketPrice)
    requires CalculateAmountToWithdrawAfterRepay(st.debt, st.deposited, v.marketPrice) == Some(amount)
    requires WithdrawValue(st.debt, st.deposited) <= TokenValueSf(held, r.price, r.decimals)
    ensures amount <= held
    ensures TokenValueSf(amount, r.price, r.decimals) <= WithdrawValue(st.debt, st.deposited)
    ensures TokenValueSf(held - amount, r.price, r.decimals)
            >= TokenValueSf(held, r.price, r.decimals) - WithdrawValue(st.debt, st.deposited)
  {
    var value := WithdrawValue(st.debt, st.deposited);
    AfterRepayAmount(st.debt, st.deposited, v.marketPrice);
    assert amount * v.marketPrice <= value * TOKEN_PRECISION;
    AddedWithinValue(amount, r.price, Denominator(r.decimals), v.marketPrice, value);
    TakenFits(held, amount, r, value);
  }

  lemma TakenTokensMost(st: State, v: VaultView, r: Reserve, held: u64, amount: u64)
    requires amount <= held && held * r.price <= U128_MAX && st.debt <= st.deposited
    requires r.price > 0 && r.price * TOKEN_PRECISION == v.marketPrice * Denominator(r.decimals)
    requires CalculateAmountToWithdrawAfterRepay(st.debt, st.deposited, v.marketPrice) == Some(amount)
    ensures TokenValueSf(held - amount, r.price, r.decimals)
            <= TokenValueSf(held, r.price, r.decimals) - WithdrawValue(st.debt, st.deposited)
               + TokenUnit(r)
  {
    var value := WithdrawValue(st.debt, st.deposited);
    AfterRepayAmount(st.debt, st.deposited, v.marketPrice);
    assert (amount + 1) * v.marketPrice > value * TOKEN_PRECISION;
    TakesNearlyAll(held, amount, r, v.marketPrice, value);
  }

  lemma LiquidatedCollateral(
    st: State, end: State, repaid: State, prices: Pubkey -> Reserve, r: Reserve,
    held: u64, amount: u64)
    requires Priced(st, prices) && repaid.deposits == st.deposits && amount <= held
    requires Replaces(repaid, end, prices, r, TokenValueSf(held, r.price, r.decimals),
                      TokenValueSf(AmountAfter(held, amount, false), r.price, r.decimals))
    ensures var change := TokenValueSf(held - amount, r.price, r.decimals)
                          - TokenValueSf(held, r.price, r.decimals);
            && (change <= 0 ==> end.deposited >= st.deposited + change)
            && (st.deposited < U128_MAX && change <= 0 ==>
                  end.deposited == st.deposited + change)
  {
  }

  lemma SlotAfterTaking(
    p: Position, v: VaultView, tokens: TokenBalances, repay: Account,
    current: Account, remaining: seq<Account>, st: State, amount: u64)
    requires Refresh(p.obligation, current, remaining) == Ok(st)
    requires Liquidate(p, v, tokens, repay, current, remaining).Ok?
    requires CalculateAmountToWithdrawAfterRepay(st.debt, st.deposited, v.marketPrice) == Some(amount)
    ensures var slot := SlotFor(DepositKeys(p.obligation.deposits), current.key);
            var after := Liquidate(p, v, tokens, repay, current, remaining).value.obligation;
            slot.Some? && slot.value < |after.deposits|
            && after.deposits[slot.value].amount
               == AmountAfter(Held(p.obligation, current.key), amount, false)
  {
    RefreshPrices(p.obligation, current, remaining);
    var taken, after := LiquidateResult(p, v, tokens, repay, current, remaining, st);
    RepayTouchesDebtOnly(st, repay, tokens);
    SlotTakenFrom(Repaid(st, repay, tokens), after, current, amount);
  }

  lemma SlotTakenFrom(st: State, next: State, current: Account, amount: u64)
    requires UpdateDeposit(st, current.key, amount, current.reserve, false) == Some(next)
    ensures var slot := SlotFor(DepositKeys(st.deposits), current.key);
            && slot.Some?
            && next.deposits[slot.value].amount
               == AmountAfter(st.deposits[slot.value].amount, amount, false)
  {
  }

  /** At equal prices the tokens taken are worth all but one token of the value. */
  lemma TakesNearlyAll(held: u64, amount: u64, r: Reserve, vaultPrice: nat, value: nat)
    requires amount <= held && held * r.price <= U128_MAX
    requires r.price > 0 && r.price * TOKEN_PRECISION == vaultPrice * Denominator(r.decimals)
    requires (amount + 1) * vaultPrice > value * TOKEN_PRECISION
    ensures TokenValueSf(held - amount, r.price, r.decimals)
            <= TokenValueSf(held, r.price, r.decimals) - value + TokenUnit(r)
  {
    var den := Denominator(r.decimals);
    var x, y := held * r.price, (held - amount) * r.price;
    assert 0 <= y <= x && y + value * den < x + r.price by {
      CoversMore(amount + 1, r.price, den, vaultPrice, value);
      assert (amount + 1) * r.price == amount * r.price + r.price;
      assert x == y + amount * r.price;
      MulMono(0, held - amount, r.price);
      MulMono(0, amount, r.price);
    }
    assert r.price <= TokenUnit(r) * den by { CeilBounds(r.price, den); }
    NearlyAll(x, y, r.price, den, value, TokenUnit(r));
  }

  lemma NearlyAll(x: nat, y: nat, price: nat, den: nat, value: nat, t: nat)
    requires den > 0 && y + value * den < x + price && price <= t * den
    ensures y / den <= x / den - value + t
  {
    DivBounds(x, den);
    assert (x / den - value + t + 1) * den == (x / den) * den - value * den + t * den + den;
    DivBelow(y, den, x / den - value + t + 1);
  }

  lemma CoversMore(k: nat, price: nat, den: nat, vaultPrice: nat, value: nat)
    requires den > 0 && k * vaultPrice > value * TOKEN_PRECISION
    requires price * TOKEN_PRECISION == vaultPrice * den
    ensures k * price > value * den
  {
    MulStrict(value * TOKEN_PRECISION, k * vaultPrice, den);
    assert k * (price * TOKEN_PRECISION) == (k * price) * TOKEN_PRECISION;
    assert k * (vaultPrice * den) == k * vaultPrice * den;
    assert value * TOKEN_PRECISION * den == (value * den) * TOKEN_PRECISION;
    MulCancel(value * den, k * price, TOKEN_PRECISION);
  }

  lemma SingleHoldsValue(
    p: Position, current: Account, remaining: seq<Account>, st: State, i: nat)
    requires SingleCollateral(p.obligation, current.key, i)
    requires Refresh(p.obligation, current, remaining) == Ok(st) && st.debt <= st.deposited
    ensures LandsClean(p.obligation, current.key)
    ensures Held(p.obligation, current.key) == p.obligation.deposits[i].amount
    ensures WithdrawValue(st.debt, st.deposited)
            <= TokenValueSf(Held(p.obligation, current.key),
                            current.reserve.price, current.reserve.decimals)
  {
    SingleRefresh(p.obligation, current, remaining, i);
    SingleLandsClean(p.obligation, current.key, i);
    SingleSlot(p.obligation, current.key, i);
  }

  /** A single reserve always holds the value to be taken: every liquidation at a price the
      vault's covers fits the slot, clamps nothing, and leaves the borrower 99% of the equity
      when the repayment covers the recorded debt. */
  lemma SingleLiquidation(
    p: Position, v: VaultView, tokens: TokenBalances, repay: Account,
    current: Account, remaining: seq<Account>, i: nat)
    returns (st: State, end: State, amount: u64)
    requires SingleCollateral(p.obligation, current.key, i)
    requires Liquidate(p, v, tokens, repay, current, remaining).Ok?
    requires VaultPriceCovers(current.reserve, v.marketPrice) && current.reserve.price > 0
    ensures Liquidates(p, v, tokens, repay, current, remaining, st, end, amount)
    ensures tokens.atPosition + tokens.inVault <= U64_MAX && st.debt <= st.deposited
    ensures amount <= p.obligation.deposits[i].amount
            && TokenValueSf(amount, current.reserve.price, current.reserve.decimals) <= st.deposited
    ensures repay.key in BorrowKeys(st.borrows)
            && st.debt <= TokenValueSf(tokens.atPosition + tokens.inVault,
                                       repay.reserve.price, repay.reserve.decimals) ==>
              end.debt == 0 && 100 * end.deposited >= 99 * (st.deposited - st.debt)
  {
    st := Refresh(p.obligation, current, remaining).value;
    assert st.debt <= st.deposited by {
      var _, _ := LiquidateResult(p, v, tokens, repay, current, remaining, st);
    }
    SingleHoldsValue(p, current, remaining, st, i);
    end, amount := LiquidationFits(p, v, tokens, repay, current, remaining, st);
    CoveredDebtIsRepaid(st, repay, tokens);
  }

  lemma CoveredDebtIsRepaid(st: State, repay: Account, tokens: TokenBalances)
    requires tokens.atPosition + tokens.inVault <= U64_MAX
    ensures repay.key in BorrowKeys(st.borrows)
            && st.debt <= TokenValueSf(tokens.atPosition + tokens.inVault,
                                       repay.reserve.price, repay.reserve.decimals) ==>
              DebtLeft(st, repay, tokens) == 0
  {
  }

  /** When the repaid slot carries the whole debt, what is left owing in the slots is what the
      total says; a balance that covers the debt then leaves nothing in either. */
  lemma DebtLeftIsOwed(st: State, repay: Account, tokens: TokenBalances)
    requires tokens.atPosition + tokens.inVault <= U64_MAX
    requires st.debt == ObligationRuns.DebtSum(st.borrows)
    requires repay.key in BorrowKeys(st.borrows)
    requires st.borrows[KlendObligation.Position(BorrowKeys(st.borrows), repay.key).value].borrowed
             == st.debt
    ensures ObligationRuns.DebtSum(Repaid(st, repay, tokens).borrows) == DebtLeft(st, repay, tokens)
  {
    var worth := TokenValueSf(tokens.atPosition + tokens.inVault,
                              repay.reserve.price, repay.reserve.decimals);
    ObligationRuns.RepayExactIff(
      st, KlendObligation.Position(BorrowKeys(st.borrows), repay.key).value, worth);
  }

  /** A dust repayment: the position gives up collateral worth its whole debt, keeps owing
      nearly all of it, and ends with far less collateral than debt. */
  lemma DustRepaymentRuinsBorrower(
    p: Position, v: VaultView, current: Account, remaining: seq<Account>, st: State,
    repay: Account)
    returns (end: State, amount: u64)
    requires LandsClean(p.obligation, current.key)
    requires Refresh(p.obligation, current, remaining) == Ok(st)
    requires current.reserve.price == v.marketPrice == WAD && current.reserve.decimals == 9
    requires Held(p.obligation, current.key) == 100000000000
    requires st.deposited == 100 * WAD && st.debt == 90 * WAD
    requires p.buffer.injected && repay.reserve == Reserve(1, 0, 0, 0)
    requires SlotFor(DepositKeys(st.deposits), current.key).Some?
    ensures Liquidates(p, v, TokenBalances(1, 0, 0), repay, current, remaining, st, end, amount)
    ensures end.debt >= 90 * WAD - 1 && end.deposited <= 10 * WAD
  {
    DustNumbers(current.reserve);
    LiquidateSucceeds(p, v, TokenBalances(1, 0, 0), repay, current, remaining);
    end, amount := UnpaidDebtIsLost(p, v, TokenBalances(1, 0, 0), repay, current, remaining, st);
  }

  lemma DustNumbers(r: Reserve)
    requires r.price == WAD && r.decimals == 9
    ensures Denominator(9) == TOKEN_PRECISION && TokenUnit(r) == TOKEN_PRECISION
    ensures CalculateAmountToWithdrawAfterRepay(90 * WAD, 100 * WAD, WAD) == Some(90100000000)
    ensures TokenValueSf(100000000000, WAD, 9) == 100 * WAD && TokenValueSf(1, 1, 0) == 1
    ensures WithdrawValue(90 * WAD, 100 * WAD) == 90100000000000000000
  {
    Pow10Nine();
    assert CalculateAmountToWithdrawAfterRepay(90 * WAD, 100 * WAD, WAD) == Some(90100000000);
  }
}

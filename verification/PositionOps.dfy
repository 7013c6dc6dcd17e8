/** The instructions that move buffer collateral between the vault and a position. Each
    refreshes the obligation, checks, marks the position and then moves collateral. */
module PositionOps {
  import opened FixedPoint
  import opened Errors
  import opened HealthFactor
  import opened InjectMath
  import opened InterestMath
  import opened KlendObligation
  import opened RefreshReserves
  import opened CacheDrift
  import ObligationRuns

  /** The position's record of the vault tokens it holds. */
  datatype Buffer = Buffer(injected: bool, injectedAmount: u64)

  /** The vault fields these instructions read. */
  datatype VaultView = VaultView(marketPrice: u128, managedAssets: u128, index: Index, rate: u64)

  /** An obligation, its position record, and the accounts passed along: the collateral
      reserve first, then whatever else the refresh needs. */
  datatype Position = Position(obligation: State, buffer: Buffer)

  /** `refresh_klend_state_for_current_slot`: resolves one account for every active slot, then
      lets the lending program recompute the obligation. */
  function Refresh(st: State, current: Account, remaining: seq<Account>): Result<State> {
    var resolved :- OkOr(Resolve(Required(st), current, remaining), MissingKaminoRefreshReserve);
    OkOr(Recompute(st, resolved), MissingRefreshReserve)
  }

  /** The checks and the amount of `inject_collateral_handler`, on a refreshed obligation. */
  function InjectAmount(st: State, b: Buffer, v: VaultView): Result<u64> {
    var ltv :- OkOr(ComputeCurrentLtv(st.debt, st.deposited), LtvCalculationError);
    var insuring :- OkOr(GetInsuringLtvThreshold(st.allowed, st.deposited), InsuringThresholdError);
    var _ :- Require(ltv > insuring, NotUnsafePosition);
    var _ :- Require(v.marketPrice > 0, ZeroPrice);
    var amount :- OkOr(CalculateAmountToInject(st.deposited, st.debt, v.marketPrice),
                       InjectCalculationError);
    var _ :- Require(amount < v.managedAssets, InsufficientVaultLiquidity);
    Ok(amount)
  }

  function InjectCollateral(
    p: Position, v: VaultView, current: Account, remaining: seq<Account>): Result<Position>
  {
    var _ :- Require(!p.buffer.injected, AlreadyInjected);
    var st :- Refresh(p.obligation, current, remaining);
    var amount :- InjectAmount(st, p.buffer, v);
    var total :- OkOr(U64(p.buffer.injectedAmount + amount), Overflow);
    var next :- OkOr(UpdateDeposit(st, current.key, amount, current.reserve, true),
                     NoFreeObligationSlot);
    Ok(Position(next, Buffer(true, total)))
  }

  /** The checks and the amount of `withdraw_injected_collateral_handler`. */
  function WithdrawAmount(
    st: State, b: Buffer, v: VaultView, now: i64, reserve: Reserve): Result<u64>
  {
    var currentAi :- OkOr(Accrue(v.index.ai, v.rate, v.index.lastUpdated, now),
                          InterestCalculationError);
    var amount :- OkOr(CalculateAmountToWithdraw(currentAi, v.index.ai, b.injectedAmount),
                       WithdrawAmountCalculationError);
    var _ :- Require(amount > 0, WithdrawAmountIsZero);
    var value :- OkOr(GetMarketValueFromReserve(amount, reserve.price, reserve.decimals),
                      MarketValueError);
    var potential :- OkOr(
      ComputePotentialLtv(Decrease(value), Increase(0), st.deposited, st.debt), LtvCalculationError);
    var withdrawing :- OkOr(GetWithdrawingLtvThreshold(st.allowed, st.deposited),
                            WithdrawingThresholdError);
    var _ :- Require(potential < withdrawing, NotYetSafePosition);
    Ok(amount)
  }

  function WithdrawInjected(
    p: Position, v: VaultView, now: i64, current: Account, remaining: seq<Account>
  ): Result<(Position, Index)>
  {
    var _ :- Require(p.buffer.injected, NotInjected);
    var st :- Refresh(p.obligation, current, remaining);
    var amount :- WithdrawAmount(st, p.buffer, v, now, current.reserve);
    var next :- OkOr(UpdateDeposit(st, current.key, amount, current.reserve, false),
                     NoFreeObligationSlot);
    Ok((Position(next, Buffer(false, 0)), AccrueStep(v.index, v.rate, now)))
  }

  /** The accounts a liquidation moves tokens through: the vault's debt tokens go to the
      position's account, and everything there repays the debt; the collateral taken out joins
      what the position's collateral account already holds, and all of it goes to the vault. */
  datatype TokenBalances = TokenBalances(inVault: u64, atPosition: u64, collateral: u64)

  /** `liquidate_handler` on a refreshed obligation: repays what the debt accounts hold and
      takes collateral out. It reads no ltv. */
  function LiquidateRefreshed(
    st: State, v: VaultView, tokens: TokenBalances, repay: Account, current: Account): Result<State>
  {
    var amount :- OkOr(
      CalculateAmountToWithdrawAfterRepay(st.debt, st.deposited, v.marketPrice),
      WithdrawAmountCalculationError);
    var _ :- Require(tokens.inVault > 0, ZeroAmountToSend);
    var balance :- OkOr(U64(tokens.atPosition + tokens.inVault), TokenProgramError);
    var repaid := ApplyRepay(st, repay.key, balance, repay.reserve.price, repay.reserve.decimals);
    var next :- OkOr(UpdateDeposit(repaid, current.key, amount, current.reserve, false),
                     NoFreeObligationSlot);
    var _ :- Require(amount + tokens.collateral > 0, ZeroAmountToSend);
    Ok(next)
  }

  function Liquidate(
    p: Position, v: VaultView, tokens: TokenBalances, repay: Account,
    current: Account, remaining: seq<Account>): Result<Position>
  {
    var _ :- Require(p.buffer.injected, NotInjected);
    var st :- Refresh(p.obligation, current, remaining);
    var next :- LiquidateRefreshed(st, v, tokens, repay, current);
    Ok(Position(next, Buffer(false, 0)))
  }

  /** What `liquidate_swap_handler` sends to the swap, on a refreshed obligation: tokens worth
      the debt plus one percent, and the least it accepts back. */
  const SWAP_PERCENT: int := 101

  datatype SwapOrder = SwapOrder(tokensIn: u64, leastOut: u64)

  function SwapOrderFor(
    st: State, tokensHeld: u64, reserve: Reserve, debtReserve: Reserve): Result<SwapOrder>
  {
    var exact :- OkOr(GetAmountFromMarketValueFromReserve(st.debt, reserve.price, reserve.decimals),
                      AmountFromMarketValueError);
    var scaled :- OkOr(U64(exact * SWAP_PERCENT), WithdrawAmountCalculationError);
    var tokensIn: u64 := scaled / 100;
    var _ :- Require(tokensIn > 0, ZeroLiquidationAmount);
    var _ :- Require(tokensHeld >= tokensIn, InsufficientVaultLiquidity);
    var leastOut :- OkOr(
      GetAmountFromMarketValueFromReserve(st.debt, debtReserve.price, debtReserve.decimals),
      AmountFromMarketValueError);
    Ok(SwapOrder(tokensIn, leastOut))
  }

  /** `liquidate_swap_handler` up to the swap, on a refreshed obligation. */
  function LiquidateSwap(
    st: State, b: Buffer, tokensHeld: u64, reserve: Reserve, debtReserve: Reserve): Result<SwapOrder>
  {
    var _ :- Require(b.injected, NotInjected);
    var ltv :- OkOr(ComputeCurrentLtv(st.debt, st.deposited), LtvCalculationError);
    var liquidation :- OkOr(GetLiquidationLtvThreshold(st.unhealthy, st.deposited),
                            LiquidationLtvCalculationError);
    var _ :- Require(ltv >= liquidation, NotLiquidable);
    SwapOrderFor(st, tokensHeld, reserve, debtReserve)
  }

  /** `admin_liquidate_swap_handler`: the vault's authority marks a position as injected with
      nothing injected, and swaps without reading an ltv. */
  function AdminLiquidateSwap(
    p: Position, tokensHeld: u64, debtReserve: Reserve,
    current: Account, remaining: seq<Account>): Result<(Position, SwapOrder)>
  {
    var _ :- Require(!p.buffer.injected, AlreadyInjected);
    var st :- Refresh(p.obligation, current, remaining);
    var order :- SwapOrderFor(st, tokensHeld, current.reserve, debtReserve);
    Ok((Position(st, Buffer(true, 0)), order))
  }

  // ----- why an instruction is refused -----

  /** An injection is refused, in this order: on an injected position, without an account it
      needs, at or below the threshold, without a price, and beyond what the vault manages. */
  lemma InjectionRefusedFor(
    p: Position, v: VaultView, current: Account, remaining: seq<Account>, st: State)
    requires Refresh(p.obligation, current, remaining) == Ok(st)
    ensures var r := InjectCollateral(p, v, current, remaining);
            var ratios := 0 < st.deposited && st.debt <= MAX_RATIO_PART
              && ExactThreshold(st.allowed, st.deposited, INSURING_LTV_THRESHOLD_MULTIPLIER).Some?;
            var above := ratios && Ratio(st.debt, st.deposited)
                         > Threshold(st.allowed, st.deposited, INSURING_LTV_THRESHOLD_MULTIPLIER);
            var amount := CalculateAmountToInject(st.deposited, st.debt, v.marketPrice);
            && (r == Err(AlreadyInjected) <==> p.buffer.injected)
            && (r == Err(LtvCalculationError)
                <==> !p.buffer.injected && 0 < st.deposited && st.debt > MAX_RATIO_PART)
            && (r == Err(InsuringThresholdError)
                <==> !p.buffer.injected && !ratios && !(0 < st.deposited && st.debt > MAX_RATIO_PART))
            && (r == Err(NotUnsafePosition) <==> !p.buffer.injected && ratios && !above)
            && (r == Err(ZeroPrice) <==> !p.buffer.injected && above && v.marketPrice == 0)
            && (r == Err(InjectCalculationError)
                <==> !p.buffer.injected && above && v.marketPrice > 0 && amount.None?)
            && (r == Err(InsufficientVaultLiquidity)
                <==> !p.buffer.injected && above && v.marketPrice > 0 && amount.Some?
                     && amount.value >= v.managedAssets)
            && (r == Err(Overflow)
                <==> !p.buffer.injected && above && v.marketPrice > 0 && amount.Some?
                     && amount.value < v.managedAssets
                     && p.buffer.injectedAmount + amount.value > U64_MAX)
            && (r.Ok? ==> above)
  {
    CheckedThresholds(st.debt, st.allowed, st.unhealthy, st.deposited);
  }

  /** What a withdrawal would take out of the position, in value. */
  function ValueToWithdraw(b: Buffer, v: VaultView, now: i64, reserve: Reserve): Option<u128> {
    var amount :- ChainWithdrawAmount(
      v.index.ai, v.rate, v.index.lastUpdated, now, b.injectedAmount);
    if amount == 0 then None
    else GetMarketValueFromReserve(amount, reserve.price, reserve.decimals)
  }

  /** A withdrawal is refused, in this order: on a position not injected, without an accrual or
      an amount, on nothing to take, and without a price in range. */
  lemma WithdrawalRefusedFor(
    p: Position, v: VaultView, now: i64, current: Account, remaining: seq<Account>, st: State)
    requires Refresh(p.obligation, current, remaining) == Ok(st)
    ensures var r := WithdrawInjected(p, v, now, current, remaining);
            var ai := Accrue(v.index.ai, v.rate, v.index.lastUpdated, now);
            var amount := ChainWithdrawAmount(
              v.index.ai, v.rate, v.index.lastUpdated, now, p.buffer.injectedAmount);
            && (r == Err(NotInjected) <==> !p.buffer.injected)
            && (r == Err(InterestCalculationError) <==> p.buffer.injected && ai.None?)
            && (r == Err(WithdrawAmountCalculationError)
                <==> p.buffer.injected && ai.Some? && amount.None?)
            && (r == Err(WithdrawAmountIsZero) <==> p.buffer.injected && amount == Some(0))
            && (r == Err(MarketValueError)
                <==> p.buffer.injected && amount.Some? && amount.value > 0
                     && ValueToWithdraw(p.buffer, v, now, current.reserve).None?)
  {
  }

  /** And then: without a ratio, without a threshold, and unless the ratio of what it leaves lies
      below the threshold. */
  lemma WithdrawalGuarded(
    p: Position, v: VaultView, now: i64, current: Account, remaining: seq<Account>, st: State,
    value: u128)
    requires Refresh(p.obligation, current, remaining) == Ok(st) && p.buffer.injected
    requires ValueToWithdraw(p.buffer, v, now, current.reserve) == Some(value)
    ensures var r := WithdrawInjected(p, v, now, current, remaining);
            var limit := ExactThreshold(
              st.allowed, st.deposited, WITHDRAWING_LTV_THRESHOLD_MULTIPLIER);
            if st.deposited <= value || st.debt > MAX_RATIO_PART then r == Err(LtvCalculationError)
            else if limit.None? then r == Err(WithdrawingThresholdError)
            else if Ratio(st.debt, st.deposited - value) >= limit.value then
              r == Err(NotYetSafePosition)
            else r.Ok? || r == Err(NoFreeObligationSlot)
  {
    CheckedThresholds(st.debt, st.allowed, st.unhealthy, st.deposited);
    PotentialAfterDecrease(value, st.deposited, st.debt);
  }

  // ----- refreshes -----

  /** The price every key is refreshed at. */
  function PricesOf(accounts: seq<Account>): Pubkey -> Reserve {
    (key: Pubkey) => match Find(accounts, key)
           case Some(r) => r
           case None => Reserve(0, 0, 0, 0)
  }

  /** The kept values are those a refresh at these prices computes. */
  ghost predicate Priced(st: State, prices: Pubkey -> Reserve) {
    && st.deposited == Sat128(Recomputed(st.deposits, prices))
    && st.allowed == Sat128(RecomputedLimit(st.deposits, prices, false))
    && st.unhealthy == Sat128(RecomputedLimit(st.deposits, prices, true))
  }

  predicate Passed(key: Pubkey, current: Account, remaining: seq<Account>) {
    key == current.key || Find(remaining, key).Some?
  }

  /** A refresh succeeds exactly when every active slot's account was passed, and then keeps
      the slots and the debt and prices the collateral. */
  lemma RefreshPrices(st: State, current: Account, remaining: seq<Account>)
    ensures Refresh(st, current, remaining).Ok?
            <==> forall key | key in Required(st) :: Passed(key, current, remaining)
    ensures Refresh(st, current, remaining).Err? ==>
              Refresh(st, current, remaining) == Err(MissingKaminoRefreshReserve)
    ensures Refresh(st, current, remaining).Ok? ==>
              var next := Refresh(st, current, remaining).value;
              && Recompute(st, [current] + remaining) == Some(next)
              && Priced(next, PricesOf([current] + remaining))
              && next.debt == st.debt && next.borrows == st.borrows
              && DepositKeys(next.deposits) == DepositKeys(st.deposits)
              && forall i | 0 <= i < |st.deposits| ::
                   next.deposits[i].amount == st.deposits[i].amount
  {
    var all := [current] + remaining;
    forall key | key in Required(st)
      ensures Pick(key, current, remaining).Some? <==> Passed(key, current, remaining)
    {
    }
    if Resolve(Required(st), current, remaining).Some? {
      ResolvedRefresh(st, current, remaining, Resolve(Required(st), current, remaining).value);
      var next := Recompute(st, all).value;
      RefreshRecomputes(st.deposits, all, PricesOf(all));
      ObligationRuns.RefreshKeepsSlots(st.deposits, all);
      SameRecomputed(st.deposits, next.deposits, PricesOf(all));
    }
  }

  // ----- obligations with one collateral reserve -----

  /** Slot `i` holds `key` and every other deposit slot is free. */
  predicate SingleCollateral(st: State, key: Pubkey, i: nat) {
    && i < |st.deposits| && key != DEFAULT_KEY && st.deposits[i].reserve == key
    && forall j | 0 <= j < |st.deposits| && j != i :: st.deposits[j].reserve == DEFAULT_KEY
  }

  function CollateralValue(st: State, i: nat, r: Reserve): u128
    requires i < |st.deposits|
  {
    TokenValueSf(st.deposits[i].amount, r.price, r.decimals)
  }

  lemma {:induction false} SingleTotals(
    slots: seq<DepositSlot>, accounts: seq<Account>, i: nat, r: Reserve)
    requires forall j | 0 <= j < |slots| && j != i :: slots[j].reserve == DEFAULT_KEY
    requires i < |slots| ==>
               slots[i].reserve != DEFAULT_KEY && Find(accounts, slots[i].reserve) == Some(r)
    ensures RefreshSlots(slots, accounts).Some?
    ensures var t := RefreshSlots(slots, accounts).value;
            if i < |slots| then
              var value := TokenValueSf(slots[i].amount, r.price, r.decimals);
              t == Totals(slots[i := slots[i].(marketValue := value)],
                          value, Percent(value, r.ltvPct), Percent(value, r.liquidationPct))
            else t == Totals(slots, 0, 0, 0)
  {
    if |slots| > 0 {
      var n := |slots| - 1;
      var rest, last := slots[..n], slots[n];
      SingleTotals(rest, accounts, i, r);
      assert slots == rest + [last];
      if i == n {
        var value := TokenValueSf(last.amount, r.price, r.decimals);
        assert RefreshSlot(Totals(rest, 0, 0, 0), last, accounts)
            == Some(Totals(rest + [last.(marketValue := value)], value,
                           Percent(value, r.ltvPct), Percent(value, r.liquidationPct)));
        assert slots[i := last.(marketValue := value)] == rest + [last.(marketValue := value)];
      } else {
        var t := RefreshSlots(rest, accounts).value;
        assert RefreshSlot(t, last, accounts) == Some(t.(slots := t.slots + [last]));
        if i < n {
          var slot := slots[i].(marketValue := TokenValueSf(slots[i].amount, r.price, r.decimals));
          assert slots[i := slot] == rest[i := slot] + [last];
        }
      }
    }
  }

  /** A refreshed single-collateral obligation is priced by that reserve alone. */
  lemma SingleRefresh(st: State, current: Account, remaining: seq<Account>, i: nat)
    requires SingleCollateral(st, current.key, i)
    requires Refresh(st, current, remaining).Ok?
    ensures var next := Refresh(st, current, remaining).value;
            var value := CollateralValue(st, i, current.reserve);
            && next == st.(
                 deposits := st.deposits[i := st.deposits[i].(marketValue := value)],
                 deposited := value,
                 allowed := Percent(value, current.reserve.ltvPct),
                 unhealthy := Percent(value, current.reserve.liquidationPct))
            && SingleCollateral(next, current.key, i)
  {
    RefreshPrices(st, current, remaining);
    SingleTotals(st.deposits, [current] + remaining, i, current.reserve);
  }

  lemma SingleSlot(st: State, key: Pubkey, i: nat)
    requires SingleCollateral(st, key, i)
    ensures SlotFor(DepositKeys(st.deposits), key) == Some(i)
  {
    var keys := DepositKeys(st.deposits);
    assert keys[i] == key;
    assert key !in keys[..i];
    PositionUnique(keys, key, i);
  }

  /** Moving collateral in or out of that reserve. */
  lemma SingleUpdate(st: State, current: Account, i: nat, amount: u64, increase: bool)
    requires SingleCollateral(st, current.key, i)
    ensures UpdateDeposit(st, current.key, amount, current.reserve, increase).Some?
    ensures var next := UpdateDeposit(st, current.key, amount, current.reserve, increase).value;
            && next.debt == st.debt && |next.deposits| == |st.deposits|
            && next.deposits[i].amount
               == Sat64(if increase then st.deposits[i].amount + amount
                        else st.deposits[i].amount - amount)
            && (next.deposits[i].amount > 0 || increase ==> SingleCollateral(next, current.key, i))
  {
    SingleSlot(st, current.key, i);
  }

  /** What a move of collateral kept of a single-collateral position, a refresh at the same
      price would compute: where the kept value has not drifted, the limits have not either. */
  lemma SingleLimitsAgree(
    st: State, current: Account, remaining: seq<Account>, i: nat, amount: u64, increase: bool,
    next: State)
    requires SingleCollateral(next, current.key, i)
    requires UpdateDeposit(st, current.key, amount, current.reserve, increase) == Some(next)
    requires Refresh(next, current, remaining).Ok?
    requires next.deposited == CollateralValue(next, i, current.reserve)
    ensures var end := Refresh(next, current, remaining).value;
            && end.deposited == next.deposited && end.debt == next.debt
            && end.allowed == next.allowed && end.unhealthy == next.unhealthy
  {
    SingleRefresh(next, current, remaining, i);
  }

  /** The authority's override marks a position that was not injected as injected with nothing,
      on a refreshed obligation, and sends the same order as the checked swap would. */
  lemma AdminMarksInjected(
    p: Position, tokensHeld: u64, debtReserve: Reserve, current: Account, remaining: seq<Account>)
    ensures p.buffer.injected
            <==> AdminLiquidateSwap(p, tokensHeld, debtReserve, current, remaining)
                 == Err(AlreadyInjected)
    ensures var outcome := AdminLiquidateSwap(p, tokensHeld, debtReserve, current, remaining);
            outcome.Ok? ==>
              && !p.buffer.injected
              && outcome.value.0.buffer.injected && outcome.value.0.buffer.injectedAmount == 0
              && Refresh(p.obligation, current, remaining) == Ok(outcome.value.0.obligation)
              && (var st, b := outcome.value.0.obligation, outcome.value.0.buffer;
                  LiquidateSwap(st, b, tokensHeld, current.reserve, debtReserve)
                  in {Ok(outcome.value.1), Err(LtvCalculationError),
                      Err(LiquidationLtvCalculationError), Err(NotLiquidable)})
  {
  }

  // ----- obligations with any collateral -----

  /** The slot a collateral move on `key` lands in holds `key`, or is free and empty. */
  predicate LandsClean(st: State, key: Pubkey) {
    && key != DEFAULT_KEY
    && match SlotFor(DepositKeys(st.deposits), key)
       case None => true
       case Some(j) => st.deposits[j].reserve == key || st.deposits[j].amount == 0
  }

  /** The tokens already held under `key`. */
  function Held(st: State, key: Pubkey): u64 {
    match SlotFor(DepositKeys(st.deposits), key)
    case None => 0
    case Some(j) => st.deposits[j].amount
  }

  lemma KeptLandsClean(st: State, key: Pubkey)
    requires ObligationRuns.Kept(st) && key != DEFAULT_KEY
    ensures LandsClean(st, key)
  {
  }

  lemma SingleLandsClean(st: State, key: Pubkey, i: nat)
    requires SingleCollateral(st, key, i)
    ensures LandsClean(st, key) && Held(st, key) == st.deposits[i].amount
  {
    SingleSlot(st, key, i);
  }

  /** A refresh leaves what is held under a key alone. */
  lemma RefreshHeld(st: State, current: Account, remaining: seq<Account>, key: Pubkey)
    requires Refresh(st, current, remaining).Ok?
    ensures Held(Refresh(st, current, remaining).value, key) == Held(st, key)
    ensures LandsClean(Refresh(st, current, remaining).value, key) <==> LandsClean(st, key)
  {
    RefreshPrices(st, current, remaining);
    var next := Refresh(st, current, remaining).value;
    assert forall j | 0 <= j < |st.deposits| ::
        DepositKeys(next.deposits)[j] == DepositKeys(st.deposits)[j];
  }

  /** The accounts that refreshed an obligation refresh it again after a collateral move. */
  lemma RefreshAgain(
    st: State, current: Account, remaining: seq<Account>, amount: u64, increase: bool)
    requires Refresh(st, current, remaining).Ok?
    requires UpdateDeposit(st, current.key, amount, current.reserve, increase).Some?
    ensures var next := UpdateDeposit(st, current.key, amount, current.reserve, increase).value;
            Refresh(next, current, remaining).Ok?
  {
    var next := UpdateDeposit(st, current.key, amount, current.reserve, increase).value;
    var i := SlotFor(DepositKeys(st.deposits), current.key).value;
    assert forall key :: key in Required(st) ==> Passed(key, current, remaining) by {
      RefreshPrices(st, current, remaining);
    }
    forall key | key in Required(next) ensures Passed(key, current, remaining) {
      if key != current.key {
        StillRequired(st, next, i, current.key, key);
      }
    }
    RefreshPrices(next, current, remaining);
  }

  lemma StillRequired(st: State, next: State, i: nat, written: Pubkey, key: Pubkey)
    requires |next.deposits| == |st.deposits| && next.borrows == st.borrows
    requires forall j | 0 <= j < |st.deposits| && j != i :: next.deposits[j] == st.deposits[j]
    requires i < |st.deposits| ==>
               next.deposits[i].reserve in {written, DEFAULT_KEY, st.deposits[i].reserve}
    requires key in Required(next) && key != written
    ensures key in Required(st)
  {
    if key in Active(DepositKeys(next.deposits)) {
      var j :| 0 <= j < |next.deposits| && DepositKeys(next.deposits)[j] == key;
      assert DepositKeys(st.deposits)[j] == key;
    }
  }

  function AmountAfter(held: u64, amount: u64, increase: bool): u64 {
    Sat64(if increase then held + amount else held - amount)
  }

  /** What a refresh computes after one slot's value goes from `before` to `after`: that
      slot's value and limit are replaced in the plain sums. */
  ghost predicate Replaces(
    st: State, end: State, prices: Pubkey -> Reserve, r: Reserve, before: u128, after: u128)
  {
    var value := Recomputed(st.deposits, prices);
    var limit := RecomputedLimit(st.deposits, prices, false);
    && end.debt == st.debt
    && before <= value && Percent(before, r.ltvPct) <= limit
    && end.deposited == Sat128(value - before + after)
    && end.allowed == Sat128(limit - Percent(before, r.ltvPct) + Percent(after, r.ltvPct))
  }

  lemma CollateralMove(
    st: State, next: State, end: State, current: Account, remaining: seq<Account>,
    amount: u64, increase: bool)
    requires LandsClean(st, current.key)
    requires UpdateDeposit(st, current.key, amount, current.reserve, increase) == Some(next)
    requires Refresh(next, current, remaining) == Ok(end)
    ensures var r, held := current.reserve, Held(st, current.key);
            Replaces(st, end, PricesOf([current] + remaining), r,
                     TokenValueSf(held, r.price, r.decimals),
                     TokenValueSf(AmountAfter(held, amount, increase), r.price, r.decimals))
  {
    var prices := PricesOf([current] + remaining);
    RefreshedTotals(next, end, current, remaining);
    assert end.debt == next.debt == st.debt;
    assert prices(current.key) == current.reserve;
    SlotReplaced(st, next.deposits, current.key, amount, increase, prices);
  }

  lemma RefreshedTotals(st: State, end: State, current: Account, remaining: seq<Account>)
    requires Refresh(st, current, remaining) == Ok(end)
    ensures var prices := PricesOf([current] + remaining);
            && end.deposited == Sat128(Recomputed(st.deposits, prices))
            && end.allowed == Sat128(RecomputedLimit(st.deposits, prices, false))
            && end.debt == st.debt
  {
    RefreshPrices(st, current, remaining);
    assert forall i | 0 <= i < |st.deposits| ::
        DepositKeys(end.deposits)[i] == DepositKeys(st.deposits)[i];
    SameRecomputed(st.deposits, end.deposits, PricesOf([current] + remaining));
  }

  lemma SlotReplaced(
    st: State, slots: seq<DepositSlot>, key: Pubkey, amount: u64, increase: bool,
    prices: Pubkey -> Reserve)
    requires LandsClean(st, key)
    requires UpdateDeposit(st, key, amount, prices(key), increase).Some?
    requires slots == UpdateDeposit(st, key, amount, prices(key), increase).value.deposits
    ensures var r, held := prices(key), Held(st, key);
            var before := TokenValueSf(held, r.price, r.decimals);
            var after := TokenValueSf(AmountAfter(held, amount, increase), r.price, r.decimals);
            && before <= Recomputed(st.deposits, prices)
            && Percent(before, r.ltvPct) <= RecomputedLimit(st.deposits, prices, false)
            && Recomputed(slots, prices) == Recomputed(st.deposits, prices) - before + after
            && RecomputedLimit(slots, prices, false)
               == RecomputedLimit(st.deposits, prices, false)
                  - Percent(before, r.ltvPct) + Percent(after, r.ltvPct)
  {
    var i := SlotFor(DepositKeys(st.deposits), key).value;
    var slot := MovedDeposit(st.deposits[i], key, amount, increase);
    RecomputedUpdate(st.deposits, i, slot, prices);
    RecomputedLimitUpdate(st.deposits, i, slot, prices, false);
    SlotContributes(st.deposits, i, prices);
    MovedSlotValue(st.deposits[i], key, amount, increase, prices);
  }

  lemma MovedSlotValue(
    slot: DepositSlot, key: Pubkey, amount: u64, increase: bool, prices: Pubkey -> Reserve)
    requires key != DEFAULT_KEY
    requires slot.reserve == key || (slot.reserve == DEFAULT_KEY && slot.amount == 0)
    ensures var r := prices(key);
            var moved := MovedDeposit(slot, key, amount, increase);
            var before := TokenValueSf(slot.amount, r.price, r.decimals);
            var after := TokenValueSf(
              AmountAfter(slot.amount, amount, increase), r.price, r.decimals);
            && SlotValue(slot, prices) == before && SlotValue(moved, prices) == after
            && SlotLimit(slot, prices, false) == Percent(before, r.ltvPct)
            && SlotLimit(moved, prices, false) == Percent(after, r.ltvPct)
  {
    ZeroValue(prices(key).price, prices(key).decimals);
  }

  lemma {:induction false} SlotContributes(slots: seq<DepositSlot>, i: nat, prices: Pubkey -> Reserve)
    requires i < |slots|
    ensures SlotValue(slots[i], prices) <= Recomputed(slots, prices)
    ensures SlotLimit(slots[i], prices, false) <= RecomputedLimit(slots, prices, false)
  {
    if i < |slots| - 1 {
      SlotContributes(slots[..|slots| - 1], i, prices);
    }
  }
}

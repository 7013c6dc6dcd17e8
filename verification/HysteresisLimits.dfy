/** Inputs past the lines of `Hysteresis` and its guards, on which an injection or a withdrawal
    really is undone, followed through the instructions. */
module HysteresisLimits {
  import opened FixedPoint
  import opened Errors
  import opened HealthFactor
  import opened InjectMath
  import opened InterestMath
  import opened KlendObligation
  import opened PositionOps
  import opened CacheDrift
  import opened HysteresisMath
  import opened Hysteresis
  import ObligationRuns

  // ----- the instructions on a single-collateral position -----

  lemma InjectSingle(
    p: Position, v: VaultView, current: Account, remaining: seq<Account>, i: nat,
    st: State, amount: u64)
    returns (after: Position, end: State)
    requires SingleCollateral(p.obligation, current.key, i)
    requires Refresh(p.obligation, current, remaining) == Ok(st)
    requires p.buffer == Buffer(false, 0) && InjectAmount(st, p.buffer, v) == Ok(amount)
    requires p.obligation.deposits[i].amount + amount <= U64_MAX
    ensures InjectCollateral(p, v, current, remaining) == Ok(after)
    ensures after.buffer == Buffer(true, amount)
    ensures SingleCollateral(after.obligation, current.key, i)
    ensures after.obligation.deposits[i].amount == p.obligation.deposits[i].amount + amount
    ensures after.obligation.debt == p.obligation.debt
    ensures after.obligation.borrows == p.obligation.borrows
    ensures Refresh(after.obligation, current, remaining) == Ok(end)
  {
    SingleRefresh(p.obligation, current, remaining, i);
    SingleUpdate(st, current, i, amount, true);
    var next := UpdateDeposit(st, current.key, amount, current.reserve, true).value;
    after := Position(next, Buffer(true, amount));
    assert Refresh(next, current, remaining).Ok? by {
      RefreshStays(p.obligation, st, current, remaining);
      RefreshAgain(st, current, remaining, amount, true);
    }
    end := Refresh(next, current, remaining).value;
  }

  /** The totals a refresh gives a single-collateral position worth `value`. */
  predicate Worth(st: State, value: u128, debt: u128, r: Reserve) {
    && st.deposited == value && st.debt == debt
    && st.allowed == Percent(value, r.ltvPct) && st.unhealthy == Percent(value, r.liquidationPct)
  }

  lemma RefreshedWorth(
    st: State, current: Account, remaining: seq<Account>, i: nat, held: u64, value: u128)
    returns (next: State)
    requires SingleCollateral(st, current.key, i) && st.deposits[i].amount == held
    requires Refresh(st, current, remaining).Ok?
    requires TokenValueSf(held, current.reserve.price, current.reserve.decimals) == value
    ensures Refresh(st, current, remaining) == Ok(next)
    ensures Worth(next, value, st.debt, current.reserve)
    ensures SingleCollateral(next, current.key, i) && next.deposits[i].amount == held
    ensures next.borrows == st.borrows
  {
    next := Refresh(st, current, remaining).value;
    SingleRefresh(st, current, remaining, i);
  }

  // ----- a reserve that lends more than the position's average -----

  const NINETY: Reserve := Reserve(1000000000000000000, 9, 90, 95)

  /** The tokens injected and taken back, and the totals in between. */
  const ADDED: int := 7186363636
  const ADDED_TAKEN: int := 7545681817
  const NINETY_VALUE: int := 17186363636000000000
  const TOTAL_AFTER: int := 117186363636000000000
  const LEFT_VALUE: int := 9640681819000000000
  const ALLOWED_AFTER: int := 25467727272400000000

  /** A reserve lending 90% beside collateral that lends 10%: the injection raises the limit so
      far that the withdraw instruction accepts at once, at the same prices, and the withdrawal
      lowers it so far that the inject instruction accepts again, at a cost of 5% a round. */
  lemma AboveAverageLoops(
    p: Position, v: VaultView, current: Account, remaining: seq<Account>)
    returns (after: Position, back: Position)
    requires LandsClean(p.obligation, current.key) && current.reserve == NINETY
    requires Refresh(p.obligation, current, remaining).Ok? && p.buffer == Buffer(false, 0)
    requires Held(p.obligation, current.key) == 10000000000
    requires var st := Refresh(p.obligation, current, remaining).value;
             st.deposited == 110 * WAD && st.allowed == 19 * WAD && st.debt == 17 * WAD
    requires v == VaultView(WAD, U64_MAX, Index(INITIAL_INDEX, v.index.lastUpdated), INTEREST_RATE)
    ensures InjectCollateral(p, v, current, remaining) == Ok(after)
    ensures WithdrawInjected(after, v, v.index.lastUpdated, current, remaining).Ok?
    ensures back
            == WithdrawInjected(after, v, v.index.lastUpdated, current, remaining).value.0
    ensures InjectCollateral(back, v, current, remaining).Ok?
  {
    var st := Refresh(p.obligation, current, remaining).value;
    RefreshHeld(p.obligation, current, remaining, current.key);
    AboveAverageAmount(st, v);
    NinetyValues();
    after := AcceptedInjection(p, v, current, remaining, st, ADDED);
    var end, amount, value := InjectionLeaves(p, v, current, remaining, st, after);
    AboveAverageTotals(st, end, PricesOf([current] + remaining));
    RefreshHeld(after.obligation, current, remaining, current.key);
    AboveAverageWithdraws(end, v);
    back := AcceptedWithdrawal(after, v, current, remaining, end, ADDED_TAKEN);
    BackAgain(after, back, v, current, remaining, end);
  }

  lemma BackAgain(
    after: Position, back: Position, v: VaultView, current: Account, remaining: seq<Account>,
    end: State)
    requires LandsClean(after.obligation, current.key) && current.reserve == NINETY
    requires Refresh(after.obligation, current, remaining) == Ok(end)
    requires WithdrawInjected(after, v, v.index.lastUpdated, current, remaining).Ok?
    requires back == WithdrawInjected(after, v, v.index.lastUpdated, current, remaining).value.0
    requires WithdrawAmount(end, after.buffer, v, v.index.lastUpdated, NINETY) == Ok(ADDED_TAKEN)
    requires Held(end, current.key) == 17186363636 && back.buffer == Buffer(false, 0)
    requires current.key in DepositKeys(back.obligation.deposits)
    requires end.deposited == TOTAL_AFTER && end.allowed == ALLOWED_AFTER && end.debt == 17 * WAD
    requires v.marketPrice == WAD && v.managedAssets == U64_MAX
    ensures InjectCollateral(back, v, current, remaining).Ok?
  {
    var left, amount, assessed := WithdrawalLeaves(
      after, v, v.index.lastUpdated, current, remaining, end, back);
    NinetyValues();
    BackTotals(end, left, PricesOf([current] + remaining));
    BackAmount(left, v);
    RefreshPrices(back.obligation, current, remaining);
    assert SlotFor(DepositKeys(left.deposits), current.key).Some?;
  }

  lemma BackTotals(st: State, end: State, prices: Pubkey -> Reserve)
    requires Priced(st, prices)
    requires Replaces(st, end, prices, NINETY, NINETY_VALUE, LEFT_VALUE)
    requires st.deposited == TOTAL_AFTER && st.allowed == ALLOWED_AFTER && st.debt == 17 * WAD
    ensures end.deposited == 109640681819000000000 && end.allowed == 18676613637100000000
    ensures end.debt == 17 * WAD
  {
    assert Percent(NINETY_VALUE, 90) == 15467727272400000000;
    assert Percent(LEFT_VALUE, 90) == 8676613637100000000;
  }

  lemma BackAmount(st: State, v: VaultView)
    requires st.deposited == 109640681819000000000 && st.allowed == 18676613637100000000
    requires st.debt == 17 * WAD && v.marketPrice == WAD && v.managedAssets == U64_MAX
    ensures InjectAmount(st, Buffer(false, 0), v) == Ok(7182058542)
  {
    assert ComputeCurrentLtv(st.debt, st.deposited) == Some(155051936178802686);
    assert GetInsuringLtvThreshold(st.allowed, st.deposited) == Some(144792255284789254);
    assert CalculateValueToInject(st.deposited, st.debt) == Some(7182058542480177163);
    assert CalculateAmountToInject(st.deposited, st.debt, WAD) == Some(7182058542);
  }

  /** An injection whose checks are known, into whatever slot it lands in. */
  lemma AcceptedInjection(
    p: Position, v: VaultView, current: Account, remaining: seq<Account>, st: State, amount: u64)
    returns (after: Position)
    requires Refresh(p.obligation, current, remaining) == Ok(st) && p.buffer == Buffer(false, 0)
    requires InjectAmount(st, p.buffer, v) == Ok(amount) && current.key != DEFAULT_KEY
    requires SlotFor(DepositKeys(st.deposits), current.key).Some?
    requires Held(st, current.key) + amount <= U64_MAX
    ensures InjectCollateral(p, v, current, remaining) == Ok(after)
    ensures after.buffer == Buffer(true, amount)
    ensures LandsClean(after.obligation, current.key)
    ensures Held(after.obligation, current.key) == Held(st, current.key) + amount
    ensures current.key in DepositKeys(after.obligation.deposits)
  {
    var next := UpdateDeposit(st, current.key, amount, current.reserve, true).value;
    after := Position(next, Buffer(true, amount));
    var j := SlotFor(DepositKeys(st.deposits), current.key).value;
    assert DepositKeys(next.deposits) == DepositKeys(st.deposits)[j := current.key];
    assert current.key !in DepositKeys(next.deposits)[..j];
    PositionUnique(DepositKeys(next.deposits), current.key, j);
  }

  /** And a withdrawal that leaves something in its slot. */
  lemma AcceptedWithdrawal(
    p: Position, v: VaultView, current: Account, remaining: seq<Account>, st: State, amount: u64)
    returns (after: Position)
    requires Refresh(p.obligation, current, remaining) == Ok(st) && p.buffer.injected
    requires WithdrawAmount(st, p.buffer, v, v.index.lastUpdated, current.reserve) == Ok(amount)
    requires current.key in DepositKeys(p.obligation.deposits) && amount < Held(st, current.key)
    ensures WithdrawInjected(p, v, v.index.lastUpdated, current, remaining).Ok?
    ensures after == WithdrawInjected(p, v, v.index.lastUpdated, current, remaining).value.0
    ensures after.buffer == Buffer(false, 0)
    ensures current.key in DepositKeys(after.obligation.deposits)
  {
    WithdrawVerdict(p, v, v.index.lastUpdated, current, remaining, st);
    var next := UpdateDeposit(st, current.key, amount, current.reserve, false).value;
    after := Position(next, Buffer(false, 0));
    StaysActive(st, next, current, amount);
  }

  lemma StaysActive(st: State, next: State, current: Account, amount: u64)
    requires UpdateDeposit(st, current.key, amount, current.reserve, false) == Some(next)
    requires amount < Held(st, current.key) && current.key in DepositKeys(st.deposits)
    ensures current.key in DepositKeys(next.deposits)
  {
    var j := SlotFor(DepositKeys(st.deposits), current.key).value;
    assert DepositKeys(next.deposits)[j] == current.key;
  }

  lemma NinetyValues()
    ensures TokenValueSf(10000000000, NINETY.price, NINETY.decimals) == 10 * WAD
    ensures TokenValueSf(17186363636, NINETY.price, NINETY.decimals) == NINETY_VALUE
    ensures TokenValueSf(9640681819, NINETY.price, NINETY.decimals) == LEFT_VALUE
  {
    Pow10Nine();
  }

  lemma AboveAverageAmount(st: State, v: VaultView)
    requires st.deposited == 110 * WAD && st.allowed == 19 * WAD && st.debt == 17 * WAD
    requires v.marketPrice == WAD && v.managedAssets == U64_MAX
    ensures InjectAmount(st, Buffer(false, 0), v) == Ok(ADDED)
  {
    assert ComputeCurrentLtv(17 * WAD, 110 * WAD) == Some(154545454545454545);
    assert GetInsuringLtvThreshold(19 * WAD, 110 * WAD) == Some(146818181818181817);
    assert CalculateValueToInject(110 * WAD, 17 * WAD) == Some(7186363636363636342);
    assert CalculateAmountToInject(110 * WAD, 17 * WAD, WAD) == Some(ADDED);
  }

  lemma AboveAverageTotals(st: State, end: State, prices: Pubkey -> Reserve)
    requires Priced(st, prices) && Replaces(st, end, prices, NINETY, 10 * WAD, NINETY_VALUE)
    requires st.deposited == 110 * WAD && st.allowed == 19 * WAD && st.debt == 17 * WAD
    ensures end.deposited == TOTAL_AFTER && end.allowed == ALLOWED_AFTER && end.debt == 17 * WAD
  {
    assert Percent(10 * WAD, 90) == 9 * WAD;
    assert Percent(NINETY_VALUE, 90) == 15467727272400000000;
  }

  lemma AboveAverageWithdraws(end: State, v: VaultView)
    requires end.deposited == TOTAL_AFTER && end.allowed == ALLOWED_AFTER && end.debt == 17 * WAD
    requires v.index.ai == INITIAL_INDEX && v.rate == INTEREST_RATE
    ensures WithdrawAmount(end, Buffer(true, ADDED), v, v.index.lastUpdated, NINETY)
            == Ok(ADDED_TAKEN)
  {
    TakenAtFivePercent(v.index, ADDED, ADDED_TAKEN);
    Pow10Nine();
    assert GetMarketValueFromReserve(ADDED_TAKEN, WAD, 9) == Some(7545681817000000000);
    PotentialAfterDecrease(7545681817000000000, end.deposited, end.debt);
    assert Ratio(17 * WAD, 109640681819000000000) == 155051936178802686;
    assert GetWithdrawingLtvThreshold(ALLOWED_AFTER, TOTAL_AFTER) == Some(161546190345321633);
  }

  /** What the first withdrawal of a new vault takes back, at no time at all. */
  lemma TakenAtFivePercent(index: Index, injected: u64, amount: u64)
    requires index.ai == INITIAL_INDEX && amount == GROWTH * injected / TOKEN_PRECISION
    ensures Accrue(index.ai, INTEREST_RATE, index.lastUpdated, index.lastUpdated) == Some(GROWTH)
    ensures CalculateAmountToWithdraw(GROWTH, index.ai, injected) == Some(amount)
  {
    WindowAccrual(index.ai, index.lastUpdated, index.lastUpdated);
    assert NextIndex(INITIAL_INDEX) == GROWTH;
  }

  const EIGHTY: Reserve := Reserve(1000000000000000000, 9, 80, 85)

  /** At equal prices, 50 WAD lending 80% beside 50 WAD lending 40%: the injection takes the
      ratio to within the withdraw threshold, so the keeper asks for a withdrawal at once. */
  lemma AboveAverageCrosses(
    p: Position, v: VaultView, current: Account, remaining: seq<Account>)
    returns (after: Position, end: State)
    requires LandsClean(p.obligation, current.key) && current.reserve == EIGHTY
    requires Refresh(p.obligation, current, remaining).Ok? && p.buffer == Buffer(false, 0)
    requires Held(p.obligation, current.key) == 50000000000
    requires var st := Refresh(p.obligation, current, remaining).value;
             && st.deposited == 100 * WAD && st.allowed == 60 * WAD
             && st.debt == 51000000100000000000
    requires v.marketPrice == WAD && v.managedAssets == U64_MAX
    ensures InjectCollateral(p, v, current, remaining) == Ok(after)
    ensures Refresh(after.obligation, current, remaining) == Ok(end)
    ensures end.deposited > 0
    ensures Ratio(end.debt, end.deposited) <= WithdrawThreshold(end.allowed, end.deposited)
  {
    var st := Refresh(p.obligation, current, remaining).value;
    RefreshHeld(p.obligation, current, remaining, current.key);
    CrossingAmount(st, v);
    after := AcceptedInjection(p, v, current, remaining, st, 12494999998);
    var amount, value;
    end, amount, value := InjectionLeaves(p, v, current, remaining, st, after);
    CrossingTotals(st, end, PricesOf([current] + remaining));
  }

  lemma CrossingAmount(st: State, v: VaultView)
    requires st.deposited == 100 * WAD && st.allowed == 60 * WAD
    requires st.debt == 51000000100000000000
    requires v.marketPrice == WAD && v.managedAssets == U64_MAX
    ensures InjectAmount(st, Buffer(false, 0), v) == Ok(12494999998)
  {
    assert ComputeCurrentLtv(st.debt, 100 * WAD) == Some(510000001000000000);
    assert GetInsuringLtvThreshold(60 * WAD, 100 * WAD) == Some(510000000000000000);
    assert CalculateValueToInject(100 * WAD, st.debt) == Some(12494999998999999950);
    assert CalculateAmountToInject(100 * WAD, st.debt, WAD) == Some(12494999998);
  }

  lemma CrossingTotals(st: State, end: State, prices: Pubkey -> Reserve)
    requires Priced(st, prices)
    requires Replaces(st, end, prices, EIGHTY,
                      TokenValueSf(50000000000, EIGHTY.price, EIGHTY.decimals),
                      TokenValueSf(62494999998, EIGHTY.price, EIGHTY.decimals))
    requires st.deposited == 100 * WAD && st.allowed == 60 * WAD
    requires st.debt == 51000000100000000000
    ensures end.deposited > 0
    ensures Ratio(end.debt, end.deposited) <= WithdrawThreshold(end.allowed, end.deposited)
  {
    Pow10Nine();
    assert TokenValueSf(50000000000, EIGHTY.price, 9) == 50 * WAD;
    assert TokenValueSf(62494999998, EIGHTY.price, 9) == 62494999998000000000;
    assert Percent(50 * WAD, 80) == 40 * WAD;
    assert Percent(62494999998000000000, 80) == 49995999998400000000;
    assert end.deposited == 112494999998000000000 && end.allowed == 69995999998400000000;
    assert Ratio(end.debt, end.deposited) == 453353483273982905;
    assert Ratio(end.allowed, end.deposited) == 622214320633311957;
  }

  // ----- a price factor no withdrawal leaves anything at -----

  const HALF: Reserve := Reserve(500000000, 9, 50, 60)

  /** What is held and owed, the tokens a price factor of 160 injects, and what they make. */
  const HELD: int := 96000000000000006
  const HELD_VALUE: int := 48000000000000003
  const OWED: int := 24000000000000001
  const VAULT_PRICE: int := 3125000
  const INJECTED: int := 1920000000000000000
  const FULL: int := 2016000000000000006
  const FULL_VALUE: int := 1008000000000000003
  const TAKEN: int := 2016000000000000000

  /** At a price factor of 160 an injection is twenty times what was held, and the five percent
      of it that a withdrawal takes on top is all but six of the borrower's own tokens. If the
      borrower has repaid all but one unit, the withdrawal is accepted on a position worth over
      a WAD, and the next injection is accepted at the same prices. */
  lemma DustAfterWithdrawal(
    p: Position, v: VaultView, current: Account, remaining: seq<Account>, i: nat, debtKey: Pubkey)
    requires SingleCollateral(p.obligation, current.key, i) && current.reserve == HALF
    requires Refresh(p.obligation, current, remaining).Ok? && p.buffer == Buffer(false, 0)
    requires p.obligation.deposits[i].amount == HELD && p.obligation.debt == OWED
    requires KlendObligation.Position(BorrowKeys(p.obligation.borrows), debtKey).Some?
    requires p.obligation.borrows[
               KlendObligation.Position(BorrowKeys(p.obligation.borrows), debtKey).value
             ].borrowed == OWED
    requires v == VaultView(VAULT_PRICE, U64_MAX, Index(INITIAL_INDEX, v.index.lastUpdated),
                            INTEREST_RATE)
    ensures InjectCollateral(p, v, current, remaining).Ok?
    ensures var injected := InjectCollateral(p, v, current, remaining).value;
            var repaid := injected.(
              obligation := ApplyRepay(injected.obligation, debtKey, OWED - 1, 1, 0));
            && Refresh(repaid.obligation, current, remaining).Ok?
            && Refresh(repaid.obligation, current, remaining).value.deposited >= WAD
            && WithdrawInjected(repaid, v, v.index.lastUpdated, current, remaining).Ok?
            && var after := WithdrawInjected(
                 repaid, v, v.index.lastUpdated, current, remaining).value.0;
               InjectCollateral(after, v, current, remaining).Ok?
  {
    HalfValues();
    var st := RefreshedWorth(p.obligation, current, remaining, i, HELD, HELD_VALUE);
    DustInjection(st, v);
    var injected, end := InjectSingle(p, v, current, remaining, i, st, INJECTED);
    var repaid := injected.(
      obligation := ApplyRepay(injected.obligation, debtKey, OWED - 1, 1, 0));
    RepaidAllButOne(injected.obligation, debtKey, OWED);
    RepaidRefresh(injected.obligation, repaid.obligation, current, remaining);
    DustWithdrawn(repaid, v, current, remaining, i);
  }

  lemma DustWithdrawn(
    p: Position, v: VaultView, current: Account, remaining: seq<Account>, i: nat)
    requires SingleCollateral(p.obligation, current.key, i) && current.reserve == HALF
    requires Refresh(p.obligation, current, remaining).Ok?
    requires p.buffer == Buffer(true, INJECTED)
    requires p.obligation.deposits[i].amount == FULL && p.obligation.debt == 1
    requires v == VaultView(VAULT_PRICE, U64_MAX, Index(INITIAL_INDEX, v.index.lastUpdated),
                            INTEREST_RATE)
    ensures Refresh(p.obligation, current, remaining).value.deposited >= WAD
    ensures WithdrawInjected(p, v, v.index.lastUpdated, current, remaining).Ok?
    ensures InjectCollateral(
              WithdrawInjected(p, v, v.index.lastUpdated, current, remaining).value.0,
              v, current, remaining).Ok?
  {
    HalfValues();
    var st := RefreshedWorth(p.obligation, current, remaining, i, FULL, FULL_VALUE);
    DustWithdrawal(st, v);
    SingleUpdate(st, current, i, TAKEN, false);
    var left := UpdateDeposit(st, current.key, TAKEN, HALF, false).value;
    RefreshStays(p.obligation, st, current, remaining);
    RefreshAgain(st, current, remaining, TAKEN, false);
    var end := RefreshedWorth(left, current, remaining, i, 6, 3);
    DustIsInjectable(end, v);
    SingleUpdate(end, current, i, 0, true);
  }

  lemma HalfValues()
    ensures TokenValueSf(HELD, HALF.price, HALF.decimals) == HELD_VALUE
    ensures TokenValueSf(FULL, HALF.price, HALF.decimals) == FULL_VALUE
    ensures TokenValueSf(6, HALF.price, HALF.decimals) == 3
  {
    Pow10Nine();
  }

  lemma DustInjection(st: State, v: VaultView)
    requires Worth(st, HELD_VALUE, OWED, HALF)
    requires v.marketPrice == VAULT_PRICE && v.managedAssets == U64_MAX
    ensures InjectAmount(st, Buffer(false, 0), v) == Ok(INJECTED)
  {
    assert st.allowed == OWED;
    assert ComputeCurrentLtv(OWED, HELD_VALUE) == Some(499999999999999989);
    assert GetInsuringLtvThreshold(OWED, HELD_VALUE) == Some(424999999999999990);
    assert CalculateValueToInject(HELD_VALUE, OWED) == Some(6000000000000000);
    assert CalculateAmountToInject(HELD_VALUE, OWED, VAULT_PRICE) == Some(INJECTED);
  }

  lemma RepaidAllButOne(st: State, key: Pubkey, debt: u128)
    requires KlendObligation.Position(BorrowKeys(st.borrows), key).Some?
    requires st.borrows[KlendObligation.Position(BorrowKeys(st.borrows), key).value].borrowed
             == debt == st.debt
    requires 1 < debt <= U64_MAX
    ensures var next := ApplyRepay(st, key, debt - 1, 1, 0);
            && next.debt == 1 && next.deposits == st.deposits
            && BorrowKeys(next.borrows) == BorrowKeys(st.borrows)
  {
    assert TokenValueSf(debt - 1, 1, 0) == debt - 1;
  }

  lemma RepaidRefresh(st: State, next: State, current: Account, remaining: seq<Account>)
    requires Refresh(st, current, remaining).Ok?
    requires next.deposits == st.deposits && BorrowKeys(next.borrows) == BorrowKeys(st.borrows)
    ensures Refresh(next, current, remaining).Ok?
  {
    RefreshPrices(st, current, remaining);
    RefreshPrices(next, current, remaining);
  }

  lemma DustWithdrawal(st: State, v: VaultView)
    requires Worth(st, FULL_VALUE, 1, HALF)
    requires v.index.ai == INITIAL_INDEX && v.rate == INTEREST_RATE
    ensures WithdrawAmount(st, Buffer(true, INJECTED), v, v.index.lastUpdated, HALF) == Ok(TAKEN)
  {
    TakenAtFivePercent(v.index, INJECTED, TAKEN);
    Pow10Nine();
    assert GetMarketValueFromReserve(TAKEN, 500000000, 9) == Some(1008000000000000000);
    assert st.allowed == 504000000000000001;
    PotentialAfterDecrease(1008000000000000000, FULL_VALUE, 1);
    assert Ratio(1, 3) == 333333333333333333;
    assert GetWithdrawingLtvThreshold(504000000000000001, FULL_VALUE) == Some(371666666666666665);
  }

  lemma DustIsInjectable(st: State, v: VaultView)
    requires Worth(st, 3, 1, HALF) && v.marketPrice == VAULT_PRICE && v.managedAssets == U64_MAX
    ensures InjectAmount(st, Buffer(false, 0), v) == Ok(0)
  {
    assert st.allowed == 1;
    assert ComputeCurrentLtv(1, 3) == Some(333333333333333333);
    assert GetInsuringLtvThreshold(1, 3) == Some(283333333333333333);
    assert CalculateValueToInject(3, 1) == Some(0);
    assert CalculateAmountToInject(3, 1, VAULT_PRICE) == Some(0);
  }

  // ----- the least remainder of a single reserve -----

  const ONE_PERCENT: Reserve := Reserve(500000000, 9, 1, 2)

  /** 300 assessed units are not enough with a single reserve: half a token's worth is lost when
      the rest is priced, and two units of debt are then above the inject threshold. */
  lemma ThreeHundredIsInjectable(
    p: Position, v: VaultView, current: Account, remaining: seq<Account>, i: nat)
    requires SingleCollateral(p.obligation, current.key, i) && current.reserve == ONE_PERCENT
    requires Refresh(p.obligation, current, remaining).Ok? && p.buffer == Buffer(true, 192)
    requires p.obligation.deposits[i].amount == 800 && p.obligation.debt == 2
    requires v == VaultView(WAD, U64_MAX, Index(INITIAL_INDEX, v.index.lastUpdated), INTEREST_RATE)
    ensures var st := Refresh(p.obligation, current, remaining).value;
            && WithdrawAmount(st, p.buffer, v, v.index.lastUpdated, ONE_PERCENT) == Ok(201)
            && AssessedCollateral(st, 201, ONE_PERCENT) == 300
    ensures WithdrawInjected(p, v, v.index.lastUpdated, current, remaining).Ok?
    ensures InjectCollateral(
              WithdrawInjected(p, v, v.index.lastUpdated, current, remaining).value.0,
              v, current, remaining).Ok?
  {
    OnePercentValues();
    var st := RefreshedWorth(p.obligation, current, remaining, i, 800, 400);
    ThreeHundredLeft(st, v);
    SingleUpdate(st, current, i, 201, false);
    var left := UpdateDeposit(st, current.key, 201, ONE_PERCENT, false).value;
    RefreshStays(p.obligation, st, current, remaining);
    RefreshAgain(st, current, remaining, 201, false);
    var end := RefreshedWorth(left, current, remaining, i, 599, 299);
    NearlyThreeHundred(end, v);
    SingleUpdate(end, current, i, 0, true);
  }

  lemma OnePercentValues()
    ensures TokenValueSf(800, ONE_PERCENT.price, ONE_PERCENT.decimals) == 400
    ensures TokenValueSf(599, ONE_PERCENT.price, ONE_PERCENT.decimals) == 299
    ensures GetMarketValueFromReserve(201, ONE_PERCENT.price, ONE_PERCENT.decimals) == Some(100)
  {
    Pow10Nine();
  }

  lemma ThreeHundredLeft(st: State, v: VaultView)
    requires Worth(st, 400, 2, ONE_PERCENT)
    requires v.index.ai == INITIAL_INDEX && v.rate == INTEREST_RATE
    ensures WithdrawAmount(st, Buffer(true, 192), v, v.index.lastUpdated, ONE_PERCENT) == Ok(201)
    ensures AssessedCollateral(st, 201, ONE_PERCENT) == 300
  {
    TakenAtFivePercent(v.index, 192, 201);
    OnePercentValues();
    assert st.allowed == 4;
    PotentialAfterDecrease(100, 400, 2);
    assert Ratio(2, 300) == 6666666666666666;
    assert GetWithdrawingLtvThreshold(4, 400) == Some(7433333333333333);
  }

  lemma NearlyThreeHundred(st: State, v: VaultView)
    requires Worth(st, 299, 2, ONE_PERCENT) && v.marketPrice == WAD && v.managedAssets == U64_MAX
    ensures InjectAmount(st, Buffer(false, 0), v) == Ok(0)
  {
    assert st.allowed == 2;
    assert ComputeCurrentLtv(2, 299) == Some(6688963210702341);
    assert GetInsuringLtvThreshold(2, 299) == Some(5685618729096989);
    assert CalculateValueToInject(299, 2) == Some(0);
    assert CalculateAmountToInject(299, 2, WAD) == Some(0);
  }
}

/** What a position keeps over its runs about the tokens injected into it, and the withdraw
    direction of the hysteresis that follows without any bound on what a withdrawal leaves. */
module CycleHysteresis {
  import opened FixedPoint
  import opened Errors
  import opened HealthFactor
  import opened InterestMath
  import opened KlendObligation
  import opened PositionOps
  import opened CacheDrift
  import opened HysteresisMath
  import opened Hysteresis
  import opened HysteresisGuards
  import opened BufferCycle
  import ObligationRuns
  import Liquidation
  import BorrowGate

  const NEW_TALLY: Tally := Tally(Position(EmptyState(), Buffer(false, 0)), 0, 0, 0)

  /** The injected tokens are at most 75 of every 79 the position holds of that reserve. */
  ghost predicate HoldsInjected(t: Tally, key: Pubkey) {
    && ObligationRuns.Kept(t.position.obligation)
    && Consistent(t.position.buffer)
    && 79 * t.position.buffer.injectedAmount <= 75 * Held(t.position.obligation, key)
  }

  /** What is asked of an operation: no all-zero keys, and injections into one reserve, of at
      most 18.75 times the tokens held there, whose sum is still a u64. */
  ghost predicate Guarded(t: Tally, op: Op, key: Pubkey) {
    match op
    case InjectOp(v, current, remaining) =>
      current.key == key != DEFAULT_KEY
      && (InjectCollateral(t.position, v, current, remaining).Ok? ==>
            var st := Refresh(t.position.obligation, current, remaining).value;
            var amount := InjectAmount(st, t.position.buffer, v).value;
            && Held(t.position.obligation, key) + amount <= U64_MAX
            && 4 * amount <= 75 * Held(t.position.obligation, key))
    case WithdrawOp(_, _, current, _) => current.key != DEFAULT_KEY
    case LiquidateOp(_, _, repay, current, _) =>
      repay.key != DEFAULT_KEY && current.key != DEFAULT_KEY
    case AdminSwapOp(_, _, current, _) => current.key != DEFAULT_KEY
    case LendingOp(call) => ObligationRuns.RealKeys(call)
  }

  ghost predicate GuardedRun(t: Tally, ops: seq<Op>, key: Pubkey) {
    forall i | 0 <= i < |ops| :: Guarded(Run(t, ops[..i]), ops[i], key)
  }

  // ----- what is held under a key -----

  /** Adding tokens under one key never lowers what is held under any. */
  lemma HeldAfterDeposit(
    st: State, next: State, key: Pubkey, other: Pubkey, amount: u64, r: Reserve)
    requires ObligationRuns.Kept(st) && key != DEFAULT_KEY && other != DEFAULT_KEY
    requires UpdateDeposit(st, other, amount, r, true) == Some(next)
    ensures Held(next, key) >= Held(st, key)
    ensures key == other ==> Held(next, key) == Sat64(Held(st, key) + amount)
  {
    var keys, nextKeys := DepositKeys(st.deposits), DepositKeys(next.deposits);
    var j := SlotFor(keys, other).value;
    assert nextKeys == keys[j := other];
    if key == other {
      assert key !in nextKeys[..j];
      PositionUnique(nextKeys, key, j);
    } else if key in keys {
      var i := KlendObligation.Position(keys, key).value;
      assert i != j && nextKeys[i] == key;
      assert key !in nextKeys[..i];
      PositionUnique(nextKeys, key, i);
    } else {
      assert Held(st, key) == 0;
    }
  }

  lemma SameHeld(st: State, next: State, key: Pubkey)
    requires DepositKeys(next.deposits) == DepositKeys(st.deposits)
    requires forall i | 0 <= i < |st.deposits| ::
               next.deposits[i].amount == st.deposits[i].amount
    ensures Held(next, key) == Held(st, key)
  {
  }

  lemma RefreshKept(st: State, next: State, current: Account, remaining: seq<Account>)
    requires ObligationRuns.Kept(st) && Refresh(st, current, remaining) == Ok(next)
    ensures ObligationRuns.Kept(next)
    ensures forall key :: Held(next, key) == Held(st, key)
  {
    RefreshPrices(st, current, remaining);
    ObligationRuns.StepKeeps(st, ObligationRuns.RefreshOp([current] + remaining));
    forall key ensures Held(next, key) == Held(st, key) {
      SameHeld(st, next, key);
    }
  }

  // ----- each operation -----

  lemma InjectHolds(
    t: Tally, v: VaultView, current: Account, remaining: seq<Account>, key: Pubkey)
    requires HoldsInjected(t, key)
    requires Guarded(t, InjectOp(v, current, remaining), key)
    ensures HoldsInjected(Step(t, InjectOp(v, current, remaining)), key)
  {
    if InjectCollateral(t.position, v, current, remaining).Ok? {
      var after := InjectCollateral(t.position, v, current, remaining).value;
      var st := Refresh(t.position.obligation, current, remaining).value;
      var amount := InjectAmount(st, t.position.buffer, v).value;
      RefreshKept(t.position.obligation, st, current, remaining);
      InjectionRecorded(t.position, v, current, remaining);
      ObligationRuns.DepositKeepsSlots(st, key, amount, current.reserve, true);
      HeldAfterDeposit(st, after.obligation, key, key, amount, current.reserve);
    }
  }

  lemma TakesOutKept(
    st: State, next: State, current: Account, amount: u64)
    requires ObligationRuns.Kept(st) && current.key != DEFAULT_KEY
    requires UpdateDeposit(st, current.key, amount, current.reserve, false) == Some(next)
    ensures ObligationRuns.Kept(next)
  {
    ObligationRuns.DepositKeepsSlots(st, current.key, amount, current.reserve, false);
  }

  lemma WithdrawHolds(
    t: Tally, v: VaultView, now: i64, current: Account, remaining: seq<Account>, key: Pubkey)
    requires HoldsInjected(t, key) && current.key != DEFAULT_KEY
    ensures HoldsInjected(Step(t, WithdrawOp(v, now, current, remaining)), key)
  {
    if WithdrawInjected(t.position, v, now, current, remaining).Ok? {
      var st := Refresh(t.position.obligation, current, remaining).value;
      var amount := WithdrawAmount(st, t.position.buffer, v, now, current.reserve).value;
      RefreshKept(t.position.obligation, st, current, remaining);
      TakesOutKept(st, UpdateDeposit(st, current.key, amount, current.reserve, false).value,
                   current, amount);
    }
  }

  lemma LiquidateHolds(
    t: Tally, v: VaultView, tokens: TokenBalances, repay: Account,
    current: Account, remaining: seq<Account>, key: Pubkey)
    requires HoldsInjected(t, key) && current.key != DEFAULT_KEY && repay.key != DEFAULT_KEY
    ensures HoldsInjected(Step(t, LiquidateOp(v, tokens, repay, current, remaining)), key)
  {
    if Liquidate(t.position, v, tokens, repay, current, remaining).Ok? {
      var st := Refresh(t.position.obligation, current, remaining).value;
      var amount, after := Liquidation.LiquidateResult(
        t.position, v, tokens, repay, current, remaining, st);
      assert ObligationRuns.Kept(after) by {
        RefreshKept(t.position.obligation, st, current, remaining);
        LiquidationKept(st, tokens, repay, current, amount, after);
      }
      ClearedHolds(Step(t, LiquidateOp(v, tokens, repay, current, remaining)), after, key);
    }
  }

  lemma ClearedHolds(t: Tally, obligation: State, key: Pubkey)
    requires t.position == Position(obligation, Buffer(false, 0))
    requires ObligationRuns.Kept(obligation)
    ensures HoldsInjected(t, key)
  {
  }

  lemma LiquidationKept(
    st: State, tokens: TokenBalances, repay: Account, current: Account, amount: u64, after: State)
    requires ObligationRuns.Kept(st) && current.key != DEFAULT_KEY && repay.key != DEFAULT_KEY
    requires tokens.atPosition + tokens.inVault <= U64_MAX
    requires UpdateDeposit(Liquidation.Repaid(st, repay, tokens), current.key, amount,
                           current.reserve, false) == Some(after)
    ensures ObligationRuns.Kept(after)
  {
    ObligationRuns.RepayKeepsSlots(st, repay.key, tokens.atPosition + tokens.inVault,
                                   repay.reserve.price, repay.reserve.decimals);
    TakesOutKept(Liquidation.Repaid(st, repay, tokens), after, current, amount);
  }

  lemma LendingHolds(t: Tally, call: ObligationRuns.Op, key: Pubkey)
    requires HoldsInjected(t, key) && key != DEFAULT_KEY && ObligationRuns.RealKeys(call)
    ensures HoldsInjected(Step(t, LendingOp(call)), key)
  {
    var st := t.position.obligation;
    ObligationRuns.StepKeeps(st, call);
    match call
    case DepositOp(other, amount, r) =>
      if ObligationRuns.Outcome(st, call).Some? {
        HeldAfterDeposit(st, ObligationRuns.Step(st, call), key, other, amount, r);
      }
    case WithdrawOp(_, _, _) =>
    case BorrowOp(_, _, _) =>
    case RepayOp(_, _, _) =>
    case RefreshOp(accounts) =>
      if ObligationRuns.Outcome(st, call).Some? {
        ObligationRuns.RefreshKeepsSlots(st.deposits, accounts);
        SameHeld(st, ObligationRuns.Step(st, call), key);
      }
  }

  lemma AdminHolds(
    t: Tally, tokensHeld: u64, debtReserve: Reserve, current: Account, remaining: seq<Account>,
    key: Pubkey)
    requires HoldsInjected(t, key)
    ensures HoldsInjected(Step(t, AdminSwapOp(tokensHeld, debtReserve, current, remaining)), key)
  {
    if AdminLiquidateSwap(t.position, tokensHeld, debtReserve, current, remaining).Ok? {
      var st := Refresh(t.position.obligation, current, remaining).value;
      RefreshKept(t.position.obligation, st, current, remaining);
    }
  }

  /** Over every guarded run of a new position, what was injected stays covered by what the
      slot holds: collateral may be added but not taken out while it is there. */
  lemma {:induction false} EveryRunHolds(ops: seq<Op>, key: Pubkey)
    requires key != DEFAULT_KEY && GuardedRun(NEW_TALLY, ops, key)
    ensures HoldsInjected(Run(NEW_TALLY, ops), key)
  {
    if |ops| == 0 {
      assert DepositKeys(EmptyState().deposits) == seq(DEPOSIT_SLOTS, i => DEFAULT_KEY);
      ObligationRuns.EveryRunKeeps([]);
    } else {
      var earlier, op := ops[..|ops| - 1], ops[|ops| - 1];
      GuardedPrefix(ops, key);
      EveryRunHolds(earlier, key);
      var t := Run(NEW_TALLY, earlier);
      match op
      case InjectOp(v, current, remaining) => InjectHolds(t, v, current, remaining, key);
      case WithdrawOp(v, now, current, remaining) =>
        WithdrawHolds(t, v, now, current, remaining, key);
      case LiquidateOp(v, tokens, repay, current, remaining) =>
        LiquidateHolds(t, v, tokens, repay, current, remaining, key);
      case AdminSwapOp(tokensHeld, debtReserve, current, remaining) =>
        AdminHolds(t, tokensHeld, debtReserve, current, remaining, key);
      case LendingOp(call) => LendingHolds(t, call, key);
    }
  }

  lemma GuardedPrefix(ops: seq<Op>, key: Pubkey)
    requires |ops| > 0 && GuardedRun(NEW_TALLY, ops, key)
    ensures GuardedRun(NEW_TALLY, ops[..|ops| - 1], key)
    ensures Guarded(Run(NEW_TALLY, ops[..|ops| - 1]), ops[|ops| - 1], key)
  {
    var earlier := ops[..|ops| - 1];
    forall i | 0 <= i < |earlier| ensures Guarded(Run(NEW_TALLY, earlier[..i]), earlier[i], key) {
      assert earlier[..i] == ops[..i];
      assert earlier[i] == ops[i];
    }
  }

  // ----- what a withdrawal leaves -----

  /** A vault as it can be: its fixed rate, and an index that has only grown. */
  predicate LiveVault(v: VaultView) {
    v.rate == INTEREST_RATE && v.index.ai >= INITIAL_INDEX
  }

  /** Taking 105% of at most 75/79 of the tokens leaves over a 320th of their value. */
  lemma LeavesEnough(
    st: State, b: Buffer, v: VaultView, now: i64, r: Reserve, held: u64)
    requires WithdrawAmount(st, b, v, now, r).Ok? && LiveVault(v)
    requires 79 * b.injectedAmount <= 75 * held && held * r.price <= U128_MAX
    requires TokenValueSf(held, r.price, r.decimals) <= st.deposited && st.deposited >= WAD
    ensures AssessedCollateral(st, WithdrawAmount(st, b, v, now, r).value, r) >= 10000001
  {
    var amount := WithdrawAmount(st, b, v, now, r).value;
    assert 100 * amount <= 105 * b.injectedAmount && GetMarketValueFromReserve(
        amount, r.price, r.decimals).Some? by {
      WithdrawalExists(v.index.ai, v.index.lastUpdated, now, b.injectedAmount);
      assert ChainWithdrawAmount(
          v.index.ai, INTEREST_RATE, v.index.lastUpdated, now, b.injectedAmount) == Some(amount);
    }
    PricedShare(amount, held, r);
  }

  lemma PricedShare(amount: u64, held: u64, r: Reserve)
    requires GetMarketValueFromReserve(amount, r.price, r.decimals).Some?
    requires 316 * amount <= 315 * held && held * r.price <= U128_MAX
    ensures 316 * GetMarketValueFromReserve(amount, r.price, r.decimals).value
            <= 315 * (TokenValueSf(held, r.price, r.decimals) + 1)
  {
    var den := Denominator(r.decimals);
    BorrowGate.TenPowIsDenominator(r.decimals);
    var taken: nat := GetMarketValueFromReserve(amount, r.price, r.decimals).value;
    var whole: nat := TokenValueSf(held, r.price, r.decimals);
    assert taken == amount * r.price / den;
    assert whole == held * r.price / den by { MulMono(0, held, r.price); }
    ShareOfValue(amount, held, r.price, den, taken, whole);
  }

  lemma ShareOfValue(amount: nat, held: nat, price: nat, den: nat, taken: nat, whole: nat)
    requires den > 0 && 316 * amount <= 315 * held
    requires taken == amount * price / den && whole == held * price / den
    ensures 316 * taken <= 315 * (whole + 1)
  {
    var out, all := amount * price, held * price;
    assert 316 * out <= 315 * all by {
      MulMono(316 * amount, 315 * held, price);
      assert 316 * amount * price == 316 * out;
      assert 315 * held * price == 315 * all;
    }
    DivBounds(out, den);
    DivBounds(all, den);
    assert (316 * taken) * den == 316 * (taken * den);
    assert (315 * (whole + 1)) * den == 315 * (whole * den + den);
    MulCancelLe(316 * taken, 315 * (whole + 1), den);
  }

  lemma HeldWithinCollateral(
    st: State, next: State, current: Account, remaining: seq<Account>)
    requires ObligationRuns.Kept(st) && current.key != DEFAULT_KEY
    requires Refresh(st, current, remaining) == Ok(next)
    ensures TokenValueSf(Held(st, current.key), current.reserve.price, current.reserve.decimals)
            <= next.deposited
  {
    var prices := PricesOf([current] + remaining);
    var r := current.reserve;
    RefreshPrices(st, current, remaining);
    RefreshKept(st, next, current, remaining);
    assert prices(current.key) == r;
    ZeroValue(r.price, r.decimals);
    var j := SlotFor(DepositKeys(next.deposits), current.key);
    if j.Some? {
      SlotContributes(next.deposits, j.value, prices);
    }
  }

  /** What a withdrawal from such a position leaves is never dust. */
  lemma EnoughLeft(
    p: Position, v: VaultView, now: i64, current: Account, remaining: seq<Account>, st: State)
    requires ObligationRuns.Kept(p.obligation) && current.key != DEFAULT_KEY && LiveVault(v)
    requires 79 * p.buffer.injectedAmount <= 75 * Held(p.obligation, current.key)
    requires Held(p.obligation, current.key) * current.reserve.price <= U128_MAX
    requires Refresh(p.obligation, current, remaining) == Ok(st) && st.deposited >= WAD
    requires WithdrawAmount(st, p.buffer, v, now, current.reserve).Ok?
    ensures AssessedCollateral(
              st, WithdrawAmount(st, p.buffer, v, now, current.reserve).value, current.reserve)
            >= 10000001
    ensures st.deposited - TakingOf(p, v, now, current, st) >= 10000000
  {
    var amount := WithdrawAmount(st, p.buffer, v, now, current.reserve).value;
    HeldWithinCollateral(p.obligation, st, current, remaining);
    LeavesEnough(st, p.buffer, v, now, current.reserve, Held(p.obligation, current.key));
    WithdrawChecks(st, p.buffer, v, now, current.reserve);
    ValueAfterWithdraw(Held(st, current.key), amount, current.reserve);
  }

  lemma HeldWithdrawThenNoInject(
    p: Position, v: VaultView, now: i64, current: Account, remaining: seq<Account>)
    returns (st: State, end: State, after: Position)
    requires ObligationRuns.Kept(p.obligation) && current.key != DEFAULT_KEY && LiveVault(v)
    requires 79 * p.buffer.injectedAmount <= 75 * Held(p.obligation, current.key)
    requires Held(p.obligation, current.key) * current.reserve.price <= U128_MAX
    requires WithdrawInjected(p, v, now, current, remaining).Ok?
    ensures Refresh(p.obligation, current, remaining) == Ok(st)
            && WithdrawAmount(st, p.buffer, v, now, current.reserve).Ok?
    ensures after == WithdrawInjected(p, v, now, current, remaining).value.0
    ensures Refresh(after.obligation, current, remaining) == Ok(end)
    ensures st.deposited >= WAD && Balanced(p, v, now, current, st) ==>
              end.deposited > 0 && CannotInject(after, end, current, remaining)
  {
    KeptLandsClean(p.obligation, current.key);
    st, end, after := KeptUpWithdrawal(p, v, now, current, remaining);
    if st.deposited >= WAD {
      EnoughLeft(p, v, now, current, remaining, st);
      if NotAboveAverage(st, current.reserve) {
        var _, _, _ := AverageWithdrawal(p, v, now, current, remaining);
      }
    }
  }

  /** The reserve lends at most the position's average, or the remaining limit keeps up. */
  predicate Balanced(p: Position, v: VaultView, now: i64, current: Account, st: State)
    requires WithdrawAmount(st, p.buffer, v, now, current.reserve).Ok?
  {
    NotAboveAverage(st, current.reserve)
    || KeepsUp(st, current.reserve, TakingOf(p, v, now, current, st))
  }

  /** After any guarded run of a new position, at any prices on the way, a withdrawal from a
      position worth a WAD leaves it at or below the inject threshold, however little it leaves,
      where the reserve lends at most the average or the remaining limit keeps up. */
  lemma CycleWithdrawThenNoInject(
    ops: seq<Op>, v: VaultView, now: i64, current: Account, remaining: seq<Account>, p: Position)
    returns (st: State, end: State, after: Position)
    requires current.key != DEFAULT_KEY && GuardedRun(NEW_TALLY, ops, current.key)
    requires LiveVault(v) && p == Run(NEW_TALLY, ops).position
    requires WithdrawInjected(p, v, now, current, remaining).Ok?
    requires Held(p.obligation, current.key) * current.reserve.price <= U128_MAX
    ensures Refresh(p.obligation, current, remaining) == Ok(st)
            && WithdrawAmount(st, p.buffer, v, now, current.reserve).Ok?
    ensures after == WithdrawInjected(p, v, now, current, remaining).value.0
    ensures Refresh(after.obligation, current, remaining) == Ok(end)
    ensures st.deposited >= WAD && Balanced(p, v, now, current, st) ==>
              end.deposited > 0 && CannotInject(after, end, current, remaining)
  {
    EveryRunHolds(ops, current.key);
    st, end, after := HeldWithdrawThenNoInject(p, v, now, current, remaining);
  }

  // ----- positions that use one collateral reserve -----

  predicate OnlyKey(st: State, key: Pubkey) {
    forall j | 0 <= j < |st.deposits| :: st.deposits[j].reserve in {DEFAULT_KEY, key}
  }

  /** The reserve's price of a token is at most 150 times the vault's. */
  predicate GentlePrice(r: Reserve, vaultPrice: u128) {
    r.price * TOKEN_PRECISION <= 150 * (vaultPrice * Denominator(r.decimals))
  }

  /** The operation moves collateral of one reserve only, and injects at a gentle price what
      the reserve's token count leaves room for. */
  ghost predicate Gentle(t: Tally, op: Op, key: Pubkey) {
    match op
    case InjectOp(v, current, remaining) =>
      && current.key == key && GentlePrice(current.reserve, v.marketPrice)
      && (InjectCollateral(t.position, v, current, remaining).Ok? ==>
            var st := Refresh(t.position.obligation, current, remaining).value;
            Held(t.position.obligation, key) + InjectAmount(st, t.position.buffer, v).value
            <= U64_MAX)
    case WithdrawOp(_, _, current, _) => current.key == key
    case LiquidateOp(_, _, repay, current, _) => current.key == key && repay.key != DEFAULT_KEY
    case AdminSwapOp(_, _, current, _) => current.key == key
    case LendingOp(call) =>
      ObligationRuns.RealKeys(call) && (call.DepositOp? || call.WithdrawOp? ==> call.key == key)
  }

  ghost predicate GentleRun(ops: seq<Op>, key: Pubkey) {
    forall i | 0 <= i < |ops| :: Gentle(Run(NEW_TALLY, ops[..i]), ops[i], key)
  }

  lemma {:induction false} NothingPriced(slots: seq<DepositSlot>, prices: Pubkey -> Reserve)
    requires forall j | 0 <= j < |slots| :: slots[j].reserve == DEFAULT_KEY
    ensures Recomputed(slots, prices) == 0
  {
    if |slots| > 0 {
      NothingPriced(slots[..|slots| - 1], prices);
    }
  }

  /** A position with value in one reserve only holds a single slot. */
  lemma OnlyKeyIsSingle(st: State, current: Account, remaining: seq<Account>) returns (i: nat)
    requires ObligationRuns.Kept(st) && OnlyKey(st, current.key) && current.key != DEFAULT_KEY
    requires Refresh(st, current, remaining).Ok?
    requires Refresh(st, current, remaining).value.deposited > 0
    ensures SingleCollateral(st, current.key, i)
  {
    var next := Refresh(st, current, remaining).value;
    RefreshPrices(st, current, remaining);
    if j :| 0 <= j < |st.deposits| && st.deposits[j].reserve == current.key {
      i := j;
      assert DepositKeys(st.deposits)[i] == current.key;
      forall k | 0 <= k < |st.deposits| && k != i ensures st.deposits[k].reserve == DEFAULT_KEY {
        assert DepositKeys(st.deposits)[k] == st.deposits[k].reserve;
      }
    } else {
      forall k | 0 <= k < |next.deposits| ensures next.deposits[k].reserve == DEFAULT_KEY {
        assert DepositKeys(next.deposits)[k] == DepositKeys(st.deposits)[k];
      }
      NothingPriced(next.deposits, PricesOf([current] + remaining));
      assert false;
    }
  }

  /** At a gentle price an injection is at most 18.75 times the tokens held. */
  lemma GentleInjection(
    p: Position, v: VaultView, current: Account, remaining: seq<Account>)
    requires ObligationRuns.Kept(p.obligation) && OnlyKey(p.obligation, current.key)
    requires current.key != DEFAULT_KEY && GentlePrice(current.reserve, v.marketPrice)
    requires InjectCollateral(p, v, current, remaining).Ok?
    ensures var st := Refresh(p.obligation, current, remaining).value;
            4 * InjectAmount(st, p.buffer, v).value <= 75 * Held(p.obligation, current.key)
  {
    var st := Refresh(p.obligation, current, remaining).value;
    var value := InjectChecks(st, p.buffer, v);
    var i := OnlyKeyIsSingle(p.obligation, current, remaining);
    SingleRefresh(p.obligation, current, remaining, i);
    SingleLandsClean(p.obligation, current.key, i);
    var held, den := Held(p.obligation, current.key), Denominator(current.reserve.decimals);
    assert st.deposited * den <= held * current.reserve.price by {
      MulMono(0, held, current.reserve.price);
      DivBounds(Sat128(held * current.reserve.price), den);
    }
    GentleTokens(InjectAmount(st, p.buffer, v).value, v.marketPrice, value, st.deposited,
                 den, held, current.reserve.price);
  }

  lemma GentleTokens(
    amount: nat, vaultPrice: nat, value: nat, deposited: nat, den: nat, held: nat, price: nat)
    requires amount * vaultPrice <= value * TOKEN_PRECISION && 8 * value <= deposited
    requires deposited * den <= held * price && deposited > 0 && den > 0
    requires price * TOKEN_PRECISION <= 150 * (vaultPrice * den)
    ensures 4 * amount <= 75 * held
  {
    assert price > 0 by {
      if price == 0 {
        assert held * price == 0;
        MulStrict(0, deposited, den);
      }
    }
    MulMono(price * TOKEN_PRECISION, 150 * (vaultPrice * den), 4 * amount);
    MulMono(amount * vaultPrice, value * TOKEN_PRECISION, 600 * den);
    MulMono(8 * value, deposited, 75 * TOKEN_PRECISION * den);
    MulMono(deposited * den, held * price, 75 * TOKEN_PRECISION);
    assert 4 * amount * (price * TOKEN_PRECISION) == (4 * amount) * price * TOKEN_PRECISION;
    assert 4 * amount * (150 * (vaultPrice * den)) == amount * vaultPrice * (600 * den);
    assert value * TOKEN_PRECISION * (600 * den) == 8 * value * (75 * TOKEN_PRECISION * den);
    assert deposited * (75 * TOKEN_PRECISION * den) == deposited * den * (75 * TOKEN_PRECISION);
    assert held * price * (75 * TOKEN_PRECISION) == (75 * held) * price * TOKEN_PRECISION;
    MulCancelLe((4 * amount) * price, (75 * held) * price, TOKEN_PRECISION);
    MulCancelLe(4 * amount, 75 * held, price);
  }

  lemma OnlyKeyCall(st: State, call: ObligationRuns.Op, key: Pubkey)
    requires OnlyKey(st, key)
    requires call.DepositOp? || call.WithdrawOp? ==> call.key == key
    ensures OnlyKey(ObligationRuns.Step(st, call), key)
  {
    if call.RefreshOp? && ObligationRuns.Outcome(st, call).Some? {
      ObligationRuns.RefreshKeepsSlots(st.deposits, call.accounts);
    }
  }

  /** An instruction that moves collateral refreshes and then updates that reserve's slot. */
  lemma OnlyKeyMove(
    t: Tally, next: State, current: Account, remaining: seq<Account>, middle: State,
    amount: u64, increase: bool)
    requires OnlyKey(t.position.obligation, current.key)
    requires Refresh(t.position.obligation, current, remaining).Ok?
    requires middle.deposits
             == Refresh(t.position.obligation, current, remaining).value.deposits
    requires UpdateDeposit(middle, current.key, amount, current.reserve, increase) == Some(next)
    ensures OnlyKey(next, current.key)
  {
    OnlyKeyRefresh(t.position.obligation, current, remaining);
  }

  lemma OnlyKeyRefresh(st: State, current: Account, remaining: seq<Account>)
    requires OnlyKey(st, current.key) && Refresh(st, current, remaining).Ok?
    ensures OnlyKey(Refresh(st, current, remaining).value, current.key)
  {
    RefreshPrices(st, current, remaining);
    var next := Refresh(st, current, remaining).value;
    forall j | 0 <= j < |next.deposits|
      ensures next.deposits[j].reserve in {DEFAULT_KEY, current.key}
    {
      assert DepositKeys(next.deposits)[j] == DepositKeys(st.deposits)[j];
    }
  }

  lemma OnlyKeyInject(t: Tally, v: VaultView, current: Account, remaining: seq<Account>)
    requires OnlyKey(t.position.obligation, current.key)
    ensures OnlyKey(Step(t, InjectOp(v, current, remaining)).position.obligation, current.key)
  {
    if InjectCollateral(t.position, v, current, remaining).Ok? {
      var st := Refresh(t.position.obligation, current, remaining).value;
      OnlyKeyMove(t, InjectCollateral(t.position, v, current, remaining).value.obligation,
                  current, remaining, st, InjectAmount(st, t.position.buffer, v).value, true);
    }
  }

  lemma OnlyKeyWithdraw(
    t: Tally, v: VaultView, now: i64, current: Account, remaining: seq<Account>)
    requires OnlyKey(t.position.obligation, current.key)
    ensures OnlyKey(Step(t, WithdrawOp(v, now, current, remaining)).position.obligation,
                    current.key)
  {
    if WithdrawInjected(t.position, v, now, current, remaining).Ok? {
      var st := Refresh(t.position.obligation, current, remaining).value;
      OnlyKeyMove(t, WithdrawInjected(t.position, v, now, current, remaining).value.0.obligation,
                  current, remaining, st,
                  WithdrawAmount(st, t.position.buffer, v, now, current.reserve).value, false);
    }
  }

  lemma OnlyKeyLiquidate(
    t: Tally, v: VaultView, tokens: TokenBalances, repay: Account,
    current: Account, remaining: seq<Account>)
    requires OnlyKey(t.position.obligation, current.key)
    ensures OnlyKey(Step(t, LiquidateOp(v, tokens, repay, current, remaining)).position.obligation,
                    current.key)
  {
    if Liquidate(t.position, v, tokens, repay, current, remaining).Ok? {
      var st := Refresh(t.position.obligation, current, remaining).value;
      var amount, after := Liquidation.RefreshedResult(st, v, tokens, repay, current);
      OnlyKeyMove(t, after, current, remaining, Liquidation.Repaid(st, repay, tokens),
                  amount, false);
    }
  }

  lemma OnlyKeyAdmin(
    t: Tally, tokensHeld: u64, debtReserve: Reserve, current: Account, remaining: seq<Account>)
    requires OnlyKey(t.position.obligation, current.key)
    ensures OnlyKey(
              Step(t, AdminSwapOp(tokensHeld, debtReserve, current, remaining)).position.obligation,
              current.key)
  {
    if AdminLiquidateSwap(t.position, tokensHeld, debtReserve, current, remaining).Ok? {
      OnlyKeyRefresh(t.position.obligation, current, remaining);
    }
  }

  lemma OnlyKeyStep(t: Tally, op: Op, key: Pubkey)
    requires OnlyKey(t.position.obligation, key) && Gentle(t, op, key)
    ensures OnlyKey(Step(t, op).position.obligation, key)
  {
    match op
    case InjectOp(v, current, remaining) => OnlyKeyInject(t, v, current, remaining);
    case WithdrawOp(v, now, current, remaining) =>
      OnlyKeyWithdraw(t, v, now, current, remaining);
    case LiquidateOp(v, tokens, repay, current, remaining) =>
      OnlyKeyLiquidate(t, v, tokens, repay, current, remaining);
    case AdminSwapOp(tokensHeld, debtReserve, current, remaining) =>
      OnlyKeyAdmin(t, tokensHeld, debtReserve, current, remaining);
    case LendingOp(call) => OnlyKeyCall(t.position.obligation, call, key);
  }

  lemma {:induction false} GentleIsGuarded(ops: seq<Op>, key: Pubkey)
    requires key != DEFAULT_KEY && GentleRun(ops, key)
    ensures GuardedRun(NEW_TALLY, ops, key)
    ensures OnlyKey(Run(NEW_TALLY, ops).position.obligation, key)
  {
    if |ops| > 0 {
      var earlier, op := ops[..|ops| - 1], ops[|ops| - 1];
      var t := Run(NEW_TALLY, earlier);
      forall i | 0 <= i < |earlier| ensures Gentle(Run(NEW_TALLY, earlier[..i]), earlier[i], key) {
        assert earlier[..i] == ops[..i];
        assert earlier[i] == ops[i];
      }
      GentleIsGuarded(earlier, key);
      EveryRunHolds(earlier, key);
      assert Gentle(t, op, key);
      OnlyKeyStep(t, op, key);
      assert Guarded(t, op, key) by { GentleGuard(t, op, key); }
      forall i | 0 <= i < |ops| ensures Guarded(Run(NEW_TALLY, ops[..i]), ops[i], key) {
        if i < |earlier| {
          assert earlier[..i] == ops[..i];
          assert earlier[i] == ops[i];
        }
      }
    }
  }

  lemma GentleGuard(t: Tally, op: Op, key: Pubkey)
    requires HoldsInjected(t, key) && OnlyKey(t.position.obligation, key) && key != DEFAULT_KEY
    requires Gentle(t, op, key)
    ensures Guarded(t, op, key)
  {
    match op
    case InjectOp(v, current, remaining) =>
      if InjectCollateral(t.position, v, current, remaining).Ok? {
        GentleInjection(t.position, v, current, remaining);
      }
    case WithdrawOp(_, _, _, _) =>
    case LiquidateOp(_, _, _, _, _) =>
    case AdminSwapOp(_, _, _, _) =>
    case LendingOp(_) =>
  }

  /** So on every run with one collateral reserve whose price stays within 150 times the
      vault's, a withdrawal from a position worth a WAD never leaves it injectable. */
  lemma SingleCycleWithdrawThenNoInject(
    ops: seq<Op>, v: VaultView, now: i64, current: Account, remaining: seq<Account>, p: Position)
    returns (st: State, end: State, after: Position)
    requires current.key != DEFAULT_KEY && GentleRun(ops, current.key)
    requires LiveVault(v) && p == Run(NEW_TALLY, ops).position
    requires WithdrawInjected(p, v, now, current, remaining).Ok?
    requires Held(p.obligation, current.key) * current.reserve.price <= U128_MAX
    ensures Refresh(p.obligation, current, remaining) == Ok(st)
    ensures after == WithdrawInjected(p, v, now, current, remaining).value.0
    ensures Refresh(after.obligation, current, remaining) == Ok(end)
    ensures st.deposited >= WAD ==>
              end.deposited > 0 && CannotInject(after, end, current, remaining)
  {
    GentleIsGuarded(ops, current.key);
    EveryRunHolds(ops, current.key);
    st, end, after := CycleWithdrawThenNoInject(ops, v, now, current, remaining, p);
    if st.deposited >= WAD {
      OnlyKeyIsAverage(p, v, now, current, remaining, st);
    }
  }

  lemma OnlyKeyIsAverage(
    p: Position, v: VaultView, now: i64, current: Account, remaining: seq<Account>, st: State)
    requires ObligationRuns.Kept(p.obligation) && OnlyKey(p.obligation, current.key)
    requires current.key != DEFAULT_KEY && st.deposited > 0
    requires Refresh(p.obligation, current, remaining) == Ok(st)
    requires WithdrawAmount(st, p.buffer, v, now, current.reserve).Ok?
    ensures NotAboveAverage(st, current.reserve)
  {
    var i := OnlyKeyIsSingle(p.obligation, current, remaining);
    SingleRefresh(p.obligation, current, remaining, i);
    WithdrawChecks(st, p.buffer, v, now, current.reserve);
    SingleIsAverage(st, current.reserve);
  }
}

/** Conditions on prices and limits alone, whatever the debt, under which the exact lines of
    `Hysteresis` are always met: an injection is never undone and a withdrawal never repeated. */
module HysteresisGuards {
  import opened FixedPoint
  import opened Errors
  import opened HealthFactor
  import opened InjectMath
  import opened InterestMath
  import opened KlendObligation
  import opened PositionOps
  import opened HysteresisMath
  import opened Hysteresis
  import CacheDrift

  // ----- limits -----

  /** The limits outlive what the injection adds. */
  predicate Outlives(st: State, r: Reserve, added: nat) {
    && Unsaturated(st.deposited + added)
    && LimitOutlives(st.deposited, st.allowed, added, Lent(r, added))
  }

  lemma OutlivesIsRefused(st: State, r: Reserve, added: nat)
    requires Outlives(st, r, added)
    requires Ratio(st.debt, st.deposited) > InjectThreshold(st.allowed, st.deposited)
    ensures RefusedForEver(st, r, added)
  {
    OutlivedLine(st.debt, st.deposited, st.allowed, added, Lent(r, added));
  }

  /** Where they do, the withdraw instruction refuses for ever. */
  lemma OutlivedInjection(
    p: Position, v: VaultView, current: Account, remaining: seq<Account>)
    returns (st: State, after: Position)
    requires LandsClean(p.obligation, current.key)
    requires InjectCollateral(p, v, current, remaining).Ok?
    ensures Refresh(p.obligation, current, remaining) == Ok(st) && InjectAmount(st, p.buffer, v).Ok?
    ensures InjectCollateral(p, v, current, remaining) == Ok(after)
    ensures Outlives(st, current.reserve, AdditionOf(p, v, current, st)) ==>
              forall v': VaultView, now: i64 ::
                WithdrawInjected(after, v', now, current, remaining).Err?
  {
    st, after := InjectThenNoWithdraw(p, v, current, remaining);
    var value := InjectChecks(st, p.buffer, v);
    if Outlives(st, current.reserve, AdditionOf(p, v, current, st)) {
      OutlivesIsRefused(st, current.reserve, AdditionOf(p, v, current, st));
    }
  }

  /** An injection adds at most an eighth of the collateral where the vault's price covers the
      reserve's. */
  lemma CoveredAddition(p: Position, v: VaultView, current: Account, st: State)
    requires InjectAmount(st, p.buffer, v).Ok? && VaultPriceCovers(current.reserve, v.marketPrice)
    ensures 8 * AdditionOf(p, v, current, st) <= st.deposited
  {
    var amount, r := InjectAmount(st, p.buffer, v).value, current.reserve;
    var value := InjectChecks(st, p.buffer, v);
    AddedWithinValue(amount, r.price, Denominator(r.decimals), v.marketPrice, value);
    ValueAfterInject(Held(st, current.key), amount, r, value);
  }

  /** A reserve that lends at most 1.14 times the position's average, or 2.29 times where the
      vault's price covers its own. */
  predicate LendsModerately(st: State, r: Reserve, vaultPrice: u128) {
    && 10000000 <= st.deposited <= 100 * st.allowed
    && (r.ltvPct * st.deposited <= 114 * st.allowed
        || (r.ltvPct * st.deposited <= 229 * st.allowed && VaultPriceCovers(r, vaultPrice)))
  }

  /** Its injections are never undone. */
  lemma InjectionNeverUndone(
    p: Position, v: VaultView, current: Account, remaining: seq<Account>)
    returns (st: State, after: Position)
    requires LandsClean(p.obligation, current.key)
    requires InjectCollateral(p, v, current, remaining).Ok?
    ensures Refresh(p.obligation, current, remaining) == Ok(st) && InjectAmount(st, p.buffer, v).Ok?
    ensures InjectCollateral(p, v, current, remaining) == Ok(after)
    ensures LendsModerately(st, current.reserve, v.marketPrice)
            && Unsaturated(st.deposited + AdditionOf(p, v, current, st)) ==>
              forall v': VaultView, now: i64 ::
                WithdrawInjected(after, v', now, current, remaining).Err?
  {
    st, after := OutlivedInjection(p, v, current, remaining);
    if LendsModerately(st, current.reserve, v.marketPrice) {
      if VaultPriceCovers(current.reserve, v.marketPrice) {
        CoveredAddition(p, v, current, st);
      }
      WhenLimitOutlives(st.deposited, st.allowed, AdditionOf(p, v, current, st),
                        current.reserve.ltvPct);
    }
  }

  /** The addition raises the limit by at most 14.34%. */
  predicate BarelyRaises(st: State, r: Reserve, added: nat) {
    && Unsaturated(st.deposited + added)
    && LimitBarelyRaised(st.deposited, st.allowed, added, Lent(r, added))
  }

  lemma BarelyRaisesIsAbove(st: State, r: Reserve, added: nat)
    requires BarelyRaises(st, r, added)
    requires Ratio(st.debt, st.deposited) > InjectThreshold(st.allowed, st.deposited)
    ensures AboveAfterInjection(st, r, added)
  {
    BarelyRaisedLine(st.debt, st.deposited, st.allowed, added, Lent(r, added));
  }

  /** Where it does no more, the ratio stays above the withdraw threshold; in particular for a
      reserve that lends at most the average at a price factor of at most 1.147. */
  lemma RatioStaysAbove(
    p: Position, v: VaultView, current: Account, remaining: seq<Account>)
    returns (st: State, end: State, after: Position)
    requires LandsClean(p.obligation, current.key)
    requires InjectCollateral(p, v, current, remaining).Ok?
    ensures Refresh(p.obligation, current, remaining) == Ok(st) && InjectAmount(st, p.buffer, v).Ok?
    ensures InjectCollateral(p, v, current, remaining) == Ok(after)
    ensures Refresh(after.obligation, current, remaining) == Ok(end)
    ensures BarelyRaises(st, current.reserve, AdditionOf(p, v, current, st)) ==>
              && end.deposited > 0
              && Ratio(end.debt, end.deposited) > WithdrawThreshold(end.allowed, end.deposited)
    ensures SmallFactor(st, current.reserve, v.marketPrice)
            && Unsaturated(st.deposited + AdditionOf(p, v, current, st)) ==>
              BarelyRaises(st, current.reserve, AdditionOf(p, v, current, st))
  {
    st, end, after := InjectionLands(p, v, current, remaining);
    var value := InjectChecks(st, p.buffer, v);
    if SmallFactor(st, current.reserve, v.marketPrice) {
      SmallFactorRaises(p, v, current, st);
    }
    if BarelyRaises(st, current.reserve, AdditionOf(p, v, current, st)) {
      BarelyRaisesIsAbove(st, current.reserve, AdditionOf(p, v, current, st));
    }
  }

  predicate SmallFactor(st: State, r: Reserve, vaultPrice: u128) {
    && 20000000 <= st.deposited <= 100 * st.allowed && NotAboveAverage(st, r)
    && 1000 * (r.price * TOKEN_PRECISION) <= 1147 * (vaultPrice * Denominator(r.decimals))
  }

  lemma SmallFactorRaises(p: Position, v: VaultView, current: Account, st: State)
    requires InjectAmount(st, p.buffer, v).Ok? && SmallFactor(st, current.reserve, v.marketPrice)
    ensures LimitBarelyRaised(st.deposited, st.allowed, AdditionOf(p, v, current, st),
                              Lent(current.reserve, AdditionOf(p, v, current, st)))
  {
    var amount, r := InjectAmount(st, p.buffer, v).value, current.reserve;
    var value := InjectChecks(st, p.buffer, v);
    AddedByFactor(Held(st, current.key), amount, r, v.marketPrice, value);
    MulStrict(0, v.marketPrice, Denominator(r.decimals));
    WhenLimitBarelyRaised(st.deposited, st.allowed, AdditionOf(p, v, current, st), r.ltvPct, value,
                          r.price * TOKEN_PRECISION, v.marketPrice * Denominator(r.decimals));
  }

  /** The limit that remains keeps up with the collateral that remains. */
  predicate KeepsUp(st: State, r: Reserve, taken: nat) {
    && taken <= st.deposited < U128_MAX
    && LimitKeepsUp(st.deposited, st.allowed, st.deposited - taken, Lent(r, taken))
  }

  lemma KeepsUpIsSafe(st: State, r: Reserve, taken: nat, assessed: nat)
    requires KeepsUp(st, r, taken) && st.deposited - taken >= 10000000
    requires 0 < assessed <= st.deposited - taken + 1
    requires Ratio(st.debt, assessed) < WithdrawThreshold(st.allowed, st.deposited)
    ensures SafeAfterWithdrawal(st, r, taken)
  {
    KeptUpLine(st.debt, st.deposited, st.allowed, st.deposited - taken, Lent(r, taken), assessed);
  }

  /** Where it does, a withdrawal never leaves the position injectable. */
  lemma KeptUpWithdrawal(
    p: Position, v: VaultView, now: i64, current: Account, remaining: seq<Account>)
    returns (st: State, end: State, after: Position)
    requires LandsClean(p.obligation, current.key)
    requires WithdrawInjected(p, v, now, current, remaining).Ok?
    ensures Refresh(p.obligation, current, remaining) == Ok(st)
            && WithdrawAmount(st, p.buffer, v, now, current.reserve).Ok?
    ensures after == WithdrawInjected(p, v, now, current, remaining).value.0
    ensures Refresh(after.obligation, current, remaining) == Ok(end)
    ensures KeepsUp(st, current.reserve, TakingOf(p, v, now, current, st))
            && st.deposited - TakingOf(p, v, now, current, st) >= 10000000 ==>
              end.deposited > 0 && CannotInject(after, end, current, remaining)
  {
    st, end, after := WithdrawalLands(p, v, now, current, remaining);
    var taken, r := TakingOf(p, v, now, current, st), current.reserve;
    if KeepsUp(st, r, taken) && st.deposited - taken >= 10000000 {
      KeptUpTaking(p, v, now, current, st);
    }
  }

  lemma KeptUpTaking(p: Position, v: VaultView, now: i64, current: Account, st: State)
    requires WithdrawAmount(st, p.buffer, v, now, current.reserve).Ok?
    requires KeepsUp(st, current.reserve, TakingOf(p, v, now, current, st))
    requires st.deposited - TakingOf(p, v, now, current, st) >= 10000000
    ensures SafeAfterWithdrawal(st, current.reserve, TakingOf(p, v, now, current, st))
  {
    var amount := WithdrawAmount(st, p.buffer, v, now, current.reserve).value;
    WithdrawChecks(st, p.buffer, v, now, current.reserve);
    ValueAfterWithdraw(Held(st, current.key), amount, current.reserve);
    KeepsUpIsSafe(st, current.reserve, TakingOf(p, v, now, current, st),
                  AssessedCollateral(st, amount, current.reserve));
  }

  // ----- the position's average -----

  /** The reserve lends at most what the position's collateral lends on average. */
  predicate NotAboveAverage(st: State, r: Reserve) {
    r.ltvPct * st.deposited <= 100 * st.allowed + 99
  }

  /** A single reserve is its own average. */
  lemma SingleIsAverage(st: State, r: Reserve)
    requires st.allowed == Percent(st.deposited, r.ltvPct) && st.allowed <= MAX_RATIO_PART
    ensures NotAboveAverage(st, r)
  {
    PercentBounds(st.deposited, r.ltvPct);
    assert r.ltvPct * st.deposited == st.deposited * r.ltvPct;
  }

  lemma ShareAfterRaise(
    st: State, end: State, prices: Pubkey -> Reserve, r: Reserve, before: u128, after: u128)
    requires Priced(st, prices) && Replaces(st, end, prices, r, before, after) && before <= after
    requires NotAboveAverage(st, r) && 0 < st.deposited && st.allowed <= MAX_RATIO_PART
    ensures st.deposited <= end.deposited <= st.deposited + (after - before)
    ensures r.ltvPct == 0 ==> end.allowed == st.allowed
    ensures end.deposited < U128_MAX ==>
              ShareNotRaised(st.deposited, st.allowed, end.deposited, end.allowed)
  {
    var pct, d := r.ltvPct, after - before;
    PercentStep(before, after, pct);
    if pct == 0 {
      assert pct * d == 0;
    }
    if end.deposited < U128_MAX {
      assert end.deposited == st.deposited + d;
      assert 100 * end.allowed <= 100 * st.allowed + pct * d + 99;
      RaisedShare(st.deposited, st.allowed, d, end.allowed, pct);
    }
  }

  lemma RaisedShare(c: nat, a: nat, d: nat, raised: nat, pct: nat)
    requires 100 * raised <= 100 * a + pct * d + 99 && pct * c <= 100 * a + 99
    ensures ShareNotRaised(c, a, c + d, raised)
  {
    MulMono(100 * raised, 100 * a + pct * d + 99, c);
    MulMono(pct * c, 100 * a + 99, d);
    assert 100 * raised * c == 100 * (raised * c);
    assert (100 * a + pct * d + 99) * c == (100 * a + 99) * c + (pct * c) * d;
    assert (c + d) * (100 * a + 99) == (100 * a + 99) * c + (100 * a + 99) * d;
  }

  lemma ShareAfterFall(
    st: State, end: State, prices: Pubkey -> Reserve, r: Reserve, before: u128, after: u128)
    requires Priced(st, prices) && Replaces(st, end, prices, r, before, after) && after <= before
    requires NotAboveAverage(st, r) && 0 < st.deposited && st.allowed <= MAX_RATIO_PART
    ensures end.deposited <= st.deposited <= end.deposited + (before - after)
    ensures r.ltvPct == 0 ==> end.allowed == st.allowed
    ensures r.ltvPct > 0 ==>
              ShareNotLowered(st.deposited, st.allowed, end.deposited, end.allowed, 198)
  {
    var pct, e := r.ltvPct, before - after;
    PercentStep(after, before, pct);
    if pct == 0 {
      assert pct * e == 0;
    } else {
      MulMono(1, pct, st.deposited);
      assert end.deposited == st.deposited - e;
      assert 100 * st.allowed <= 100 * end.allowed + pct * e + 99;
      LoweredShare(st.deposited, st.allowed, e, end.allowed, pct);
    }
  }

  lemma LoweredShare(c: nat, a: nat, e: nat, lowered: nat, pct: nat)
    requires e <= c && 100 * a <= 100 * lowered + pct * e + 99 && pct * c <= 100 * a + 99
    ensures ShareNotLowered(c, a, c - e, lowered, 198)
  {
    MulMono(100 * a, 100 * lowered + pct * e + 99, c);
    MulMono(pct * c, 100 * a + 99, e);
    assert 100 * a * c == 100 * (a * c);
    assert (100 * lowered + pct * e + 99) * c == 100 * (lowered * c) + (pct * c) * e + 99 * c;
    assert (100 * a + 99) * e == 100 * (a * e) + 99 * e;
    assert a * (c - e) == a * c - a * e;
  }

  /** A reserve that lends at most the average: a thousand units are enough for the withdraw
      instruction to refuse for ever. */
  lemma AverageInjection(
    p: Position, v: VaultView, current: Account, remaining: seq<Account>)
    requires LandsClean(p.obligation, current.key)
    requires InjectCollateral(p, v, current, remaining).Ok?
    requires var st := Refresh(p.obligation, current, remaining).value;
             NotAboveAverage(st, current.reserve) && st.deposited >= 1000
    ensures forall v': VaultView, now: i64 ::
              WithdrawInjected(InjectCollateral(p, v, current, remaining).value,
                               v', now, current, remaining).Err?
  {
    var after := InjectCollateral(p, v, current, remaining).value;
    var st := Refresh(p.obligation, current, remaining).value;
    var end, amount, value := InjectionLeaves(p, v, current, remaining, st, after);
    forall v': VaultView, now: i64
      ensures WithdrawInjected(after, v', now, current, remaining).Err?
    {
      InjectedRefusesWithdraw(st, end, PricesOf([current] + remaining), current.reserve,
                              Held(st, current.key), amount, value, v.marketPrice,
                              after.buffer, v', now);
    }
  }

  lemma InjectedRefusesWithdraw(
    st: State, end: State, prices: Pubkey -> Reserve, r: Reserve, held: u64, amount: u64,
    value: nat, vaultPrice: nat, b: Buffer, v: VaultView, now: i64)
    requires Injected(st, end, prices, r, held, amount, value, vaultPrice)
    requires NotAboveAverage(st, r) && st.deposited >= 1000 && b.injectedAmount >= amount
    ensures WithdrawAmount(end, b, v, now, r).Err?
  {
    if WithdrawAmount(end, b, v, now, r).Ok? {
      var taken := WithdrawAmount(end, b, v, now, r).value;
      TakesPrincipal(end, b, v, now, r);
      var worth := GetMarketValueFromReserve(taken, r.price, r.decimals).value;
      var before := TokenValueSf(held, r.price, r.decimals);
      var after := TokenValueSf(Sat64(held + amount), r.price, r.decimals);
      AddedTokens(held, amount, r);
      AddedTokensValue(held, amount, taken, r);
      ShareAfterRaise(st, end, prices, r, before, after);
      WithdrawChecks(end, b, v, now, r);
      AssessedAbove(st, end, r, end.deposited - worth);
      assert false;
    }
  }

  lemma AssessedAbove(st: State, end: State, r: Reserve, assessed: nat)
    requires 1000 <= st.deposited <= end.deposited && 0 < assessed <= st.deposited + 1
    requires NotAboveAverage(st, r)
    requires r.ltvPct == 0 ==> end.allowed == st.allowed
    requires end.deposited < U128_MAX ==>
               ShareNotRaised(st.deposited, st.allowed, end.deposited, end.allowed)
    requires end.debt == st.debt && end.allowed <= MAX_RATIO_PART
    requires Ratio(st.debt, st.deposited) > InjectThreshold(st.allowed, st.deposited)
    ensures Ratio(end.debt, assessed) >= WithdrawThreshold(end.allowed, end.deposited)
  {
    if end.deposited == U128_MAX {
      SaturatedThreshold(end.allowed);
    } else if r.ltvPct == 0 {
      UnlentAssessedStaysAbove(st.debt, st.deposited, st.allowed, end.deposited, assessed);
    } else {
      MulMono(1, r.ltvPct, st.deposited);
      AssessedStaysAbove(st.debt, st.deposited, st.allowed, end.deposited, end.allowed, assessed);
    }
  }

  lemma SaturatedThreshold(allowed: nat)
    requires allowed <= MAX_RATIO_PART
    ensures WithdrawThreshold(allowed, U128_MAX) == 0
  {
    var w := WithdrawThreshold(allowed, U128_MAX);
    ThresholdAtMost(allowed, U128_MAX, WITHDRAWING_LTV_THRESHOLD_MULTIPLIER);
    if w >= 1 {
      MulMono(1, w, U128_MAX);
      assert false;
    }
  }

  /** And ten thousand for the ratio, where the vault's price covers the reserve's. */
  lemma AverageInjectionStaysAbove(
    p: Position, v: VaultView, current: Account, remaining: seq<Account>)
    requires LandsClean(p.obligation, current.key)
    requires InjectCollateral(p, v, current, remaining).Ok?
    requires current.reserve.ltvPct >= 1
    requires var st := Refresh(p.obligation, current, remaining).value;
             && NotAboveAverage(st, current.reserve) && st.deposited >= 10000
             && VaultPriceCovers(current.reserve, v.marketPrice)
    ensures var after := InjectCollateral(p, v, current, remaining).value;
            && Refresh(after.obligation, current, remaining).Ok?
            && var end := Refresh(after.obligation, current, remaining).value;
               && end.deposited > 0
               && Ratio(end.debt, end.deposited) > WithdrawThreshold(end.allowed, end.deposited)
  {
    var after := InjectCollateral(p, v, current, remaining).value;
    var st := Refresh(p.obligation, current, remaining).value;
    var end, amount, value := InjectionLeaves(p, v, current, remaining, st, after);
    CoveredStaysAbove(st, end, PricesOf([current] + remaining), current.reserve,
                      Held(st, current.key), amount, value, v.marketPrice);
  }

  lemma CoveredStaysAbove(
    st: State, end: State, prices: Pubkey -> Reserve, r: Reserve, held: u64, amount: u64,
    value: nat, vaultPrice: u128)
    requires Injected(st, end, prices, r, held, amount, value, vaultPrice)
    requires NotAboveAverage(st, r) && r.ltvPct >= 1
    requires VaultPriceCovers(r, vaultPrice) && st.deposited >= 10000
    ensures end.deposited > 0
    ensures Ratio(end.debt, end.deposited) > WithdrawThreshold(end.allowed, end.deposited)
  {
    AddedWithinValue(amount, r.price, Denominator(r.decimals), vaultPrice, value);
    ValueAfterInject(held, amount, r, value);
    ShareAfterRaise(st, end, prices, r, TokenValueSf(held, r.price, r.decimals),
                    TokenValueSf(Sat64(held + amount), r.price, r.decimals));
    assert 100 * st.allowed + 99 >= st.deposited by { MulMono(1, r.ltvPct, st.deposited); }
    EighthStaysAbove(st.debt, st.deposited, st.allowed, end.deposited, end.allowed);
  }

  /** A withdrawal of a reserve that lends at most the average, leaving 2001 assessed units. */
  lemma AverageWithdrawal(
    p: Position, v: VaultView, now: i64, current: Account, remaining: seq<Account>)
    returns (st: State, end: State, after: Position)
    requires LandsClean(p.obligation, current.key)
    requires WithdrawInjected(p, v, now, current, remaining).Ok?
    ensures Refresh(p.obligation, current, remaining) == Ok(st)
            && WithdrawAmount(st, p.buffer, v, now, current.reserve).Ok?
    ensures after == WithdrawInjected(p, v, now, current, remaining).value.0
    ensures Refresh(after.obligation, current, remaining) == Ok(end)
    ensures NotAboveAverage(st, current.reserve)
            && AssessedCollateral(
                 st, WithdrawAmount(st, p.buffer, v, now, current.reserve).value,
                 current.reserve) >= 2001 ==>
              end.deposited > 0 && CannotInject(after, end, current, remaining)
  {
    st := Refresh(p.obligation, current, remaining).value;
    after := WithdrawInjected(p, v, now, current, remaining).value.0;
    var amount, assessed;
    end, amount, assessed := WithdrawalLeaves(p, v, now, current, remaining, st, after);
    if NotAboveAverage(st, current.reserve) && assessed >= 2001 {
      WithdrawnBelow(st, end, PricesOf([current] + remaining), current.reserve,
                     Held(st, current.key), amount, assessed);
      RefusesAfterWithdrawal(after, end, current, remaining);
    }
  }

  lemma WithdrawnBelow(
    st: State, end: State, prices: Pubkey -> Reserve, r: Reserve, held: u64, amount: u64,
    assessed: nat)
    requires Withdrawn(st, end, prices, r, held, amount, assessed)
    requires NotAboveAverage(st, r) && assessed >= 2001
    ensures end.deposited >= 2000
    ensures Ratio(end.debt, end.deposited) <= InjectThreshold(end.allowed, end.deposited)
  {
    ValueAfterWithdraw(held, amount, r);
    ShareAfterFall(st, end, prices, r, TokenValueSf(held, r.price, r.decimals),
                   TokenValueSf(Sat64(held - amount), r.price, r.decimals));
    if r.ltvPct == 0 {
      UnlentWithdrawalStaysBelow(st.debt, st.deposited, assessed, end.deposited, st.allowed);
    } else {
      MulMono(1, r.ltvPct, st.deposited);
      WithdrawnStaysBelow(st.debt, st.deposited, assessed, end.deposited,
                          st.allowed, end.allowed, 198);
    }
  }

  /** With a single collateral reserve, 301 assessed units are enough, and 300 are not. */
  lemma SingleWithdrawal(
    p: Position, v: VaultView, now: i64, current: Account, remaining: seq<Account>, i: nat)
    returns (st: State, end: State, after: Position)
    requires SingleCollateral(p.obligation, current.key, i)
    requires WithdrawInjected(p, v, now, current, remaining).Ok?
    ensures Refresh(p.obligation, current, remaining) == Ok(st)
            && WithdrawAmount(st, p.buffer, v, now, current.reserve).Ok?
    ensures after == WithdrawInjected(p, v, now, current, remaining).value.0
    ensures Refresh(after.obligation, current, remaining) == Ok(end)
    ensures AssessedCollateral(
              st, WithdrawAmount(st, p.buffer, v, now, current.reserve).value, current.reserve)
            >= 301 ==>
              end.deposited > 0 && CannotInject(after, end, current, remaining)
  {
    SingleLandsClean(p.obligation, current.key, i);
    st := Refresh(p.obligation, current, remaining).value;
    after := WithdrawInjected(p, v, now, current, remaining).value.0;
    var amount, assessed;
    end, amount, assessed := WithdrawalLeaves(p, v, now, current, remaining, st, after);
    if assessed >= 301 {
      SingleRefresh(p.obligation, current, remaining, i);
      SingleLeft(st, after.obligation, current, i, amount, assessed);
      SingleRefresh(after.obligation, current, remaining, i);
      SingleBelow(st, end, current.reserve, assessed);
      RefusesAfterWithdrawal(after, end, current, remaining);
    }
  }

  lemma SingleLeft(
    st: State, next: State, current: Account, i: nat, amount: u64, assessed: nat)
    requires SingleCollateral(st, current.key, i)
    requires st.deposited == CollateralValue(st, i, current.reserve)
    requires UpdateDeposit(st, current.key, amount, current.reserve, false) == Some(next)
    requires GetMarketValueFromReserve(
               amount, current.reserve.price, current.reserve.decimals).Some?
    requires assessed == AssessedCollateral(st, amount, current.reserve) && assessed >= 2
    ensures SingleCollateral(next, current.key, i)
    ensures assessed - 1 <= CollateralValue(next, i, current.reserve) <= st.deposited
  {
    ValueAfterWithdraw(st.deposits[i].amount, amount, current.reserve);
    SingleUpdate(st, current, i, amount, false);
    CacheDrift.ZeroValue(current.reserve.price, current.reserve.decimals);
  }

  lemma SingleBelow(st: State, end: State, r: Reserve, assessed: nat)
    requires 301 <= assessed <= end.deposited + 1 && end.deposited <= st.deposited
    requires end.debt == st.debt && st.allowed <= MAX_RATIO_PART
    requires st.allowed == Percent(st.deposited, r.ltvPct)
    requires end.allowed == Percent(end.deposited, r.ltvPct)
    requires Ratio(st.debt, assessed) < WithdrawThreshold(st.allowed, st.deposited)
    ensures Ratio(end.debt, end.deposited) <= InjectThreshold(end.allowed, end.deposited)
  {
    PercentBounds(st.deposited, r.ltvPct);
    PercentBounds(end.deposited, r.ltvPct);
    MulMono(end.deposited, st.deposited, r.ltvPct);
    SingleStaysBelow(st.debt, st.deposited, assessed, end.deposited, st.allowed, end.allowed,
                     r.ltvPct);
  }
}

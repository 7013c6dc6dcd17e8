/** The keeper's own computation of a withdrawal, against the program's. */
module KeeperWithdraw {
  import opened FixedPoint
  import opened HealthFactor
  import opened InterestMath
  import opened KlendObligation
  import opened PositionOps

  /** `tenPow`. */
  method TenPowLoop(exp: nat) returns (out: nat)
    ensures out == Pow10(exp)
  {
    out := 1;
    for i := 0 to exp
      invariant out == Pow10(i)
    {
      out := out * 10;
    }
  }

  /** The multiply loop, which gives up as soon as a u64 is exceeded. */
  method PowerLoop(base: nat, years: nat) returns (power: Option<nat>)
    requires base >= 1
    ensures power == if Pow(base, years) <= U64_MAX then Some(Pow(base, years)) else None
  {
    var powAcc := 1;
    for i := 0 to years
      invariant powAcc == Pow(base, i) && powAcc <= U64_MAX
    {
      powAcc := powAcc * base;
      if powAcc > U64_MAX {
        PowGrows(base, i + 1, years);
        return None;
      }
    }
    power := Some(powAcc);
  }

  /** `computeWithdrawAmountContractLike`: early exits and a multiply loop on unbounded
      integers. Within the program's input ranges it gives the program's answer, failures
      included, whenever the clock is not behind and the years fit a u32. */
  method ComputeWithdrawAmountContractLike(
    storedAi: int, interestRate: nat, interestLastUpdated: int, injectedAmount: int, nowUnixSec: int)
    returns (r: Option<nat>)
    ensures r == KeeperAmount(storedAi, interestRate, interestLastUpdated, injectedAmount, nowUnixSec)
  {
    if storedAi <= 0 { return None; }
    if injectedAmount <= 0 { return Some(0); }
    if storedAi > U64_MAX || interestRate > U64_MAX || injectedAmount > U64_MAX { return None; }
    var timeDiff := nowUnixSec - interestLastUpdated;
    if timeDiff < 0 { return None; }
    var irPlusOne := interestRate + TOKEN_PRECISION;
    if irPlusOne > U64_MAX { return None; }
    var aiMul := storedAi * irPlusOne;
    if aiMul > U64_MAX { return None; }
    var firstAi: nat := aiMul / TOKEN_PRECISION;
    var currentAi := firstAi;
    assert firstAi >= 1 by { IndexStaysPositive(storedAi, interestRate); }
    var years := timeDiff / 60 / 60 / 24 / 365;
    if years > 0 {
      var power := PowerLoop(firstAi, years);
      if power.None? {
        MulMono(1, TOKEN_PRECISION, Pow(firstAi, years));
        return None;
      }
      currentAi := power.value;
    }
    var aiDivisionMul := currentAi * TOKEN_PRECISION;
    if aiDivisionMul > U64_MAX { return None; }
    var aiDivision := aiDivisionMul / storedAi;
    DivNonNegative(aiDivisionMul, storedAi);
    MulMono(0, aiDivision, injectedAmount);
    var amount: nat := aiDivision * injectedAmount / TOKEN_PRECISION;
    if amount > U64_MAX { return None; }
    r := Some(amount);
  }

  /** What the keeper computes, with the loop replaced by the power it accumulates. */
  function KeeperAmount(
    storedAi: int, rate: nat, lastUpdated: int, injected: int, now: int): Option<nat>
  {
    if storedAi <= 0 then None
    else if injected <= 0 then Some(0)
    else if storedAi > U64_MAX || rate > U64_MAX || injected > U64_MAX then None
    else if now < lastUpdated then None
    else
      var aiMul := storedAi * (rate + TOKEN_PRECISION);
      if rate + TOKEN_PRECISION > U64_MAX || aiMul > U64_MAX then None
      else
        MulMono(0, storedAi, rate + TOKEN_PRECISION);
        var firstAi: nat := aiMul / TOKEN_PRECISION;
        var years := (now - lastUpdated) / YEAR;
        var currentAi := if years > 0 then Pow(firstAi, years) else firstAi;
        if currentAi * TOKEN_PRECISION > U64_MAX then None
        else
          var growth := currentAi * TOKEN_PRECISION / storedAi;
          DivNonNegative(currentAi * TOKEN_PRECISION, storedAi);
          MulMono(0, growth, injected);
          if growth * injected / TOKEN_PRECISION > U64_MAX then None
          else Some(growth * injected / TOKEN_PRECISION)
  }

  lemma IndexStaysPositive(storedAi: int, rate: nat)
    requires storedAi >= 1
    ensures storedAi * (rate + TOKEN_PRECISION) / TOKEN_PRECISION >= storedAi
    ensures storedAi * (rate + TOKEN_PRECISION) / TOKEN_PRECISION == 1
            <==> storedAi == 1 && rate < TOKEN_PRECISION
  {
    MulMono(TOKEN_PRECISION, rate + TOKEN_PRECISION, storedAi);
    if storedAi >= 2 {
      MulMono(2, storedAi, rate + TOKEN_PRECISION);
    }
  }

  /** Same answer, failures included: clock not behind, years within u32. */
  lemma KeeperMatchesChain(
    storedAi: u64, rate: u64, lastUpdated: i64, now: i64, injected: u64)
    requires storedAi > 0 && injected > 0
    requires now >= lastUpdated && (now - lastUpdated) / YEAR <= U32_MAX
    ensures KeeperAmount(storedAi, rate, lastUpdated, injected, now)
            == ChainWithdrawAmount(storedAi, rate, lastUpdated, now, injected)
  {
    var elapsed := now - lastUpdated;
    assert elapsed <= I64_MAX;
    AnnualizedIsYears(elapsed);
    MulMono(0, storedAi, rate + TOKEN_PRECISION);
    if Accrue(storedAi, rate, lastUpdated, now).Some? {
      var currentAi := Accrue(storedAi, rate, lastUpdated, now).value;
      if currentAi * TOKEN_PRECISION <= U64_MAX {
        var growth := currentAi * TOKEN_PRECISION / storedAi;
        DivNonNegative(currentAi * TOKEN_PRECISION, storedAi);
        MulMono(growth, U64_MAX, injected);
        MulMono(injected, U64_MAX, U64_MAX);
        MulMono(0, growth, injected);
      }
    }
  }

  /** Outside the program's words, and on nothing injected: an index that is not positive comes
      before an injected amount that is not, and either before any other number. */
  lemma KeeperOutsideWords(
    storedAi: int, rate: nat, lastUpdated: int, injected: int, now: int)
    ensures storedAi <= 0 ==> KeeperAmount(storedAi, rate, lastUpdated, injected, now) == None
    ensures storedAi > 0 && injected <= 0 ==>
              KeeperAmount(storedAi, rate, lastUpdated, injected, now) == Some(0)
    ensures storedAi > 0 && injected > 0
            && (storedAi > U64_MAX || rate > U64_MAX || injected > U64_MAX) ==>
              KeeperAmount(storedAi, rate, lastUpdated, injected, now) == None
  {
  }

  /** With the clock behind, the keeper always refuses. The program, when it is behind by less
      than a year, accrues as if no time had passed, and otherwise fails too. */
  lemma KeeperRefusesClockBehind(
    storedAi: u64, rate: u64, lastUpdated: i64, now: i64, injected: u64)
    requires storedAi > 0 && injected > 0 && now < lastUpdated
    ensures KeeperAmount(storedAi, rate, lastUpdated, injected, now) == None
    ensures now - lastUpdated > -YEAR ==>
              ChainWithdrawAmount(storedAi, rate, lastUpdated, now, injected)
              == ChainWithdrawAmount(storedAi, rate, lastUpdated, lastUpdated, injected)
    ensures now - lastUpdated <= -YEAR ==>
              ChainWithdrawAmount(storedAi, rate, lastUpdated, now, injected) == None
  {
    if now - lastUpdated >= I64_MIN {
      AnnualizedIsYears(now - lastUpdated);
    }
    AnnualizedIsYears(0);
  }

  /** With more years than a u32 holds, the program always fails, and the keeper answers
      exactly when the index is stuck at one, and then with the principal. */
  lemma KeeperBeyondYears(
    storedAi: u64, rate: u64, lastUpdated: i64, now: i64, injected: u64)
    requires storedAi > 0 && injected > 0
    requires now >= lastUpdated && (now - lastUpdated) / YEAR > U32_MAX
    ensures ChainWithdrawAmount(storedAi, rate, lastUpdated, now, injected) == None
    ensures KeeperAmount(storedAi, rate, lastUpdated, injected, now)
            == if storedAi == 1 && rate < TOKEN_PRECISION then Some(injected) else None
  {
    var years := (now - lastUpdated) / YEAR;
    if now - lastUpdated <= I64_MAX {
      AnnualizedIsYears(now - lastUpdated);
    }
    IndexStaysPositive(storedAi, rate);
    var firstAi := storedAi * (rate + TOKEN_PRECISION) / TOKEN_PRECISION;
    if firstAi == 1 {
      PowOfOne(years);
    } else {
      PowOutgrows(firstAi, years);
    }
  }

  // ----- the precheck before a withdrawal is submitted -----

  predicate PrecheckPasses(
    deposited: nat, debt: nat, allowed: nat, price: nat, decimals: nat, amount: Option<nat>)
  {
    && amount.Some? && amount.value > 0
    && var next := deposited - amount.value * price / Pow10(decimals);
       next > 0 && deposited > 0
       && Ratio(debt, next) < Threshold(allowed, deposited, WITHDRAWING_LTV_THRESHOLD_MULTIPLIER)
  }

  /** The guarded exits of `execute` before a withdrawal: true when it would be submitted. */
  method WithdrawPrecheck(
    deposited: nat, debt: nat, allowed: nat, price: nat, decimals: nat,
    storedAi: int, rate: nat, lastUpdated: int, injectedAmount: int, now: int)
    returns (submit: bool)
    ensures submit <==> PrecheckPasses(deposited, debt, allowed, price, decimals,
                          KeeperAmount(storedAi, rate, lastUpdated, injectedAmount, now))
  {
    var amount := ComputeWithdrawAmountContractLike(
      storedAi, rate, lastUpdated, injectedAmount, now);
    if amount == None { return false; }
    if amount.value == 0 { return false; }
    var factor := TenPowLoop(decimals);
    var withdrawValueSf := amount.value * price / factor;
    MulMono(0, amount.value, price);
    DivNonNegative(amount.value * price, factor);
    var nextCollateralSf := deposited - withdrawValueSf;
    if nextCollateralSf <= 0 { return false; }
    DivNonNegative(debt * WAD, nextCollateralSf);
    var potentialLtv := debt * WAD / nextCollateralSf;
    if deposited <= 0 { return false; }
    DivNonNegative(allowed * WAD, deposited);
    var ratio := allowed * WAD / deposited;
    var withdrawingLtv := ratio * WITHDRAWING_LTV_THRESHOLD_MULTIPLIER / WAD;
    submit := potentialLtv < withdrawingLtv;
  }

  /** What the program's words must hold for it to judge a withdrawal the keeper passes. */
  predicate WordsHold(st: State, r: Reserve, amount: nat)
    requires st.deposited > 0
  {
    && r.decimals <= 19 && amount * r.price <= U128_MAX
    && st.debt <= MAX_RATIO_PART && st.allowed <= MAX_RATIO_PART
    && Ratio(st.allowed, st.deposited) * WITHDRAWING_LTV_THRESHOLD_MULTIPLIER <= U128_MAX
  }

  /** With the keeper's clock in range, the program accepts exactly the withdrawals the precheck
      passes whose numbers fit the program's words. */
  lemma PrecheckMatchesProgram(st: State, b: Buffer, v: VaultView, now: i64, r: Reserve)
    requires v.index.ai > 0 && b.injectedAmount > 0
    requires now >= v.index.lastUpdated && (now - v.index.lastUpdated) / YEAR <= U32_MAX
    ensures var amount := KeeperAmount(
              v.index.ai, v.rate, v.index.lastUpdated, b.injectedAmount, now);
            var verdict := WithdrawAmount(st, b, v, now, r);
            && (verdict.Ok?
                <==> PrecheckPasses(st.deposited, st.debt, st.allowed, r.price, r.decimals, amount)
                     && WordsHold(st, r, amount.value))
            && (verdict.Ok? ==> amount == Some(verdict.value))
  {
    KeeperMatchesChain(v.index.ai, v.rate, v.index.lastUpdated, now, b.injectedAmount);
    var amount := KeeperAmount(v.index.ai, v.rate, v.index.lastUpdated, b.injectedAmount, now);
    if amount.Some? && amount.value > 0 {
      GateMatches(st, r, amount.value);
    }
  }

  /** The program's last check, as a step on a known amount. */
  predicate GateOpens(st: State, r: Reserve, amount: u64) {
    var value := GetMarketValueFromReserve(amount, r.price, r.decimals);
    && value.Some?
    && var potential := ComputePotentialLtv(Decrease(value.value), Increase(0), st.deposited, st.debt);
       var withdrawing := GetWithdrawingLtvThreshold(st.allowed, st.deposited);
       potential.Some? && withdrawing.Some? && potential.value < withdrawing.value
  }

  lemma GateMatches(st: State, r: Reserve, amount: u64)
    requires amount > 0
    ensures GateOpens(st, r, amount)
            <==> PrecheckPasses(st.deposited, st.debt, st.allowed, r.price, r.decimals, Some(amount))
                 && WordsHold(st, r, amount)
  {
    CheckedThresholds(st.debt, st.allowed, st.unhealthy, st.deposited);
    ConversionsExact(amount, 0, r.price, r.decimals);
    var value := GetMarketValueFromReserve(amount, r.price, r.decimals);
    if value.Some? {
      PotentialAfterDecrease(value.value, st.deposited, st.debt);
    }
  }
}

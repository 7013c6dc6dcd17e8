/** The price the simulation picks to push a position across one of the keeper's triggers. */
module PriceCycle {
  import opened FixedPoint
  import opened HealthFactor
  import opened KlendObligation
  import opened LtvWorker
  import opened Errors
  import PositionOps
  import HysteresisMath
  import BorrowGate

  const MIN_PRICE_SF: nat := 1000000000000000
  const MAX_PRICE_MULTIPLIER_BPS: nat := 200000

  function MaxPrice(currentPrice: nat): nat {
    currentPrice * MAX_PRICE_MULTIPLIER_BPS / 10000
  }

  function ClampPrice(next: nat, currentPrice: nat): nat {
    if next < MIN_PRICE_SF then MIN_PRICE_SF
    else if next > MaxPrice(currentPrice) then MaxPrice(currentPrice)
    else next
  }

  /** The part of the risk record a stage reads, and the multiplier of its threshold. */
  function Limit(kind: Kind, allowed: nat, unhealthy: nat): nat {
    if kind == Liquidate then unhealthy else allowed
  }

  function Multiplier(kind: Kind): nat {
    match kind
    case Inject => INSURING_LTV_THRESHOLD_MULTIPLIER
    case Withdraw => WITHDRAWING_LTV_THRESHOLD_MULTIPLIER
    case Liquidate => LIQUIDATION_LTV_THRESHOLD_MULTIPLIER
  }

  /** The price at which the exact ratio would meet the exact threshold, truncated. */
  function Boundary(kind: Kind, currentPrice: nat, debt: nat, limit: nat): nat
    requires limit > 0
  {
    MulMono(1, limit, Multiplier(kind));
    DivNonNegative(currentPrice * debt * WAD, limit * Multiplier(kind));
    currentPrice * debt * WAD / (limit * Multiplier(kind))
  }

  /** A tenth of a percent past the boundary, before clamping. */
  function Target(kind: Kind, currentPrice: nat, debt: nat, limit: nat): nat
    requires limit > 0
  {
    var boundary := Boundary(kind, currentPrice, debt, limit);
    var epsilon := boundary / 1000 + 1;
    if kind == Withdraw then boundary + epsilon
    else if boundary > epsilon then boundary - epsilon
    else MIN_PRICE_SF
  }

  /** `computeTargetPrice`; `None` is one of its three errors. */
  function ComputeTargetPrice(
    kind: Kind, currentPrice: nat, debt: nat, allowed: nat, unhealthy: nat): Option<nat>
  {
    var limit := Limit(kind, allowed, unhealthy);
    if debt == 0 || limit == 0 then None
    else Some(ClampPrice(Target(kind, currentPrice, debt, limit), currentPrice))
  }

  /** The chosen price is the one nearest the target among those from a thousandth of a WAD to
      twenty times the current price; where that range is empty it is one of its two ends. */
  lemma ChosenIsNearest(
    kind: Kind, currentPrice: nat, debt: nat, allowed: nat, unhealthy: nat, other: nat)
    ensures var limit := Limit(kind, allowed, unhealthy);
            var chosen := ComputeTargetPrice(kind, currentPrice, debt, allowed, unhealthy);
            && (chosen.None? <==> debt == 0 || limit == 0)
            && (chosen.Some? ==>
                  var target := Target(kind, currentPrice, debt, limit);
                  if 1000 * 20 * currentPrice < WAD then
                    chosen.value == if 1000 * target < WAD then WAD / 1000 else 20 * currentPrice
                  else
                    && WAD <= 1000 * chosen.value <= 1000 * 20 * currentPrice
                    && (WAD <= 1000 * other <= 1000 * 20 * currentPrice ==>
                          Distance(chosen.value, target) <= Distance(other, target)))
  {
    assert MaxPrice(currentPrice) == 20 * currentPrice;
  }

  function Distance(a: nat, b: nat): nat {
    if a <= b then b - a else a - b
  }

  /** And the target lies a tenth of a percent past the exact boundary, to within two units. */
  lemma TargetPastBoundary(kind: Kind, currentPrice: nat, debt: nat, limit: nat)
    requires limit > 0 && Boundary(kind, currentPrice, debt, limit) > 1
    ensures var (target, boundary) := (Target(kind, currentPrice, debt, limit),
                                       Boundary(kind, currentPrice, debt, limit));
            && (kind == Withdraw ==> 1001 * boundary < 1000 * target <= 1001 * boundary + 1000)
            && (kind != Withdraw ==> 999 * boundary - 1000 <= 1000 * target < 999 * boundary)
            && boundary * (limit * Multiplier(kind)) <= currentPrice * debt * WAD
               < (boundary + 1) * (limit * Multiplier(kind))
  {
    MulMono(1, limit, Multiplier(kind));
    DivBounds(currentPrice * debt * WAD, limit * Multiplier(kind));
  }

  // ----- arithmetic: a price on the far side of the boundary -----

  lemma BelowBoundary(kind: Kind, currentPrice: nat, debt: nat, limit: nat, price: nat)
    requires limit > 0 && kind != Withdraw
    requires price <= Target(kind, currentPrice, debt, limit)
    requires Target(kind, currentPrice, debt, limit) > MIN_PRICE_SF
    ensures 1000 * price * (limit * Multiplier(kind)) <= 999 * (currentPrice * debt * WAD)
  {
    var d, z := limit * Multiplier(kind), currentPrice * debt * WAD;
    MulMono(1, limit, Multiplier(kind));
    var b := Boundary(kind, currentPrice, debt, limit);
    DivBounds(z, d);
    assert 1000 * price <= 999 * b;
    MulMono(1000 * price, 999 * b, d);
    assert 999 * b * d == 999 * (b * d);
  }

  lemma AboveBoundary(currentPrice: nat, debt: nat, limit: nat, price: nat)
    requires limit > 0 && price >= MIN_PRICE_SF
    requires price >= Target(Withdraw, currentPrice, debt, limit)
    ensures 2002 * (currentPrice * debt * WAD) <= 2001 * price * (limit * Multiplier(Withdraw))
  {
    var d, z := limit * Multiplier(Withdraw), currentPrice * debt * WAD;
    MulMono(1, limit, Multiplier(Withdraw));
    var b := Boundary(Withdraw, currentPrice, debt, limit);
    DivBounds(z, d);
    assert 2002 * (b + 1) <= 2001 * price;
    MulMono(2002 * (b + 1), 2001 * price, d);
    assert 2002 * (b + 1) * d == 2002 * (b * d + d);
  }

  /** Below the boundary price, the truncated ratio clears the truncated threshold. */
  lemma CrossesUp(
    debt: nat, held: nat, den: nat, currentPrice: nat, price: nat,
    before: nat, limit: nat, after: nat, limitAfter: nat, pct: nat, m: nat)
    requires den > 0 && currentPrice > 0 && 850000000000000000 <= m <= WAD
    requires held * currentPrice < (before + 1) * den && before >= 1000000
    requires before * pct <= 100 * limit + 99 && 1 <= pct
    requires 0 < after && after * den <= held * price
    requires 100 * limitAfter <= after * pct
    requires 1000 * price * (limit * m) <= 999 * (currentPrice * debt * WAD)
    ensures Ratio(debt, after) > Threshold(limitAfter, after, m)
  {
    LimitMargin(before, limit, pct, m);
    CrossedDebt(debt, held, den, currentPrice, price, before, limit, after, m, pct * m + 100);
    RatioReaches(debt, after, pct * m + 100);
    ThresholdWithin(limitAfter, after, pct, m);
  }

  lemma RatioReaches(debt: nat, whole: nat, goal: nat)
    requires whole > 0 && whole * goal <= 100 * (debt * WAD)
    ensures goal < 100 * (Ratio(debt, whole) + 1)
  {
    var y := Ratio(debt, whole);
    DivBounds(debt * WAD, whole);
    assert (100 * (y + 1)) * whole == 100 * (y * whole + whole);
    MulCancel(goal, 100 * (y + 1), whole);
  }

  lemma ThresholdWithin(part: nat, whole: nat, pct: nat, m: nat)
    requires whole > 0 && 100 * part <= whole * pct
    ensures 100 * Threshold(part, whole, m) <= pct * m
  {
    var t := Threshold(part, whole, m);
    HysteresisMath.ThresholdAtMost(part, whole, m);
    MulMono(100 * part, whole * pct, m);
    assert whole * pct * m == (pct * m) * whole;
    assert 100 * part * m == 100 * (part * m);
    assert (100 * t) * whole == 100 * (t * whole);
    MulCancelLe(100 * t, pct * m, whole);
  }

  /** Past a million units the floors in the limit cost less than a thousandth. */
  lemma LimitMargin(before: nat, limit: nat, pct: nat, m: nat)
    requires before >= 1000000 && pct >= 1 && 850000000000000000 <= m <= WAD
    requires before * pct <= 100 * limit + 99
    ensures 999 * (before + 1) * (pct * m + 100) <= 100000 * limit * m
  {
    var pm, lm := pct * m, limit * m;
    assert before * pm <= 100 * lm + 99 * m by {
      MulMono(before * pct, 100 * limit + 99, m);
      Reassociate(before, pct, m);
      Reassociate(100, limit, m);
    }
    MarginFacts(before, pct, m, pm);
    MarginTotals(before * pm, pm, lm, before, m);
    Expanded(before, pm);
    Reassociate(100000, limit, m);
  }

  lemma MarginFacts(before: nat, pct: nat, m: nat, pm: nat)
    requires pm == pct * m && before >= 1000000 && pct >= 1 && m >= 850000000000000000
    ensures 1000000 * pm <= before * pm && m <= pm
    ensures 850000000000000000 * before <= before * pm
  {
    MulMono(1, pct, m);
    MulMono(1000000, before, pm);
    MulMono(850000000000000000, pm, before);
  }

  lemma Reassociate(a: nat, b: nat, c: nat)
    ensures a * b * c == a * (b * c)
  {
  }

  lemma Expanded(before: nat, pm: nat)
    ensures 999 * (before + 1) * (pm + 100) == 999 * (before * pm + pm + 100 * before + 100)
  {
  }

  lemma MarginTotals(sm: nat, pm: nat, lm: nat, before: nat, m: nat)
    requires sm <= 100 * lm + 99 * m && 1000000 * pm <= sm && m <= pm
    requires 850000000000000000 * before <= sm && before >= 1000000
    ensures 999 * (sm + pm + 100 * before + 100) <= 100000 * lm
  {
  }

  /** Two values of one holding at two prices, with the floors facing apart. */
  lemma ValuesCompare(low: nat, den: nat, held: nat, lowPrice: nat, highPrice: nat, high: nat)
    requires den > 0 && low * den <= held * lowPrice && held * highPrice < high * den
    ensures low * highPrice <= high * lowPrice
  {
    MulMono(low * den, held * lowPrice, highPrice);
    MulMono(held * highPrice, high * den, lowPrice);
    assert low * den * highPrice == (low * highPrice) * den;
    assert held * lowPrice * highPrice == held * highPrice * lowPrice;
    assert high * den * lowPrice == (high * lowPrice) * den;
    MulCancelLe(low * highPrice, high * lowPrice, den);
  }

  lemma ScaledCompare(
    after: nat, currentPrice: nat, high: nat, price: nat, goal: nat, scaled: nat, owed: nat)
    requires currentPrice > 0 && after * currentPrice <= high * price
    requires 999 * (high * goal) <= 100000 * scaled
    requires 1000 * (price * scaled) <= 999 * (currentPrice * owed)
    ensures after * goal <= 100 * owed
  {
    MulMono(after * currentPrice, high * price, goal);
    assert after * currentPrice * goal == (after * goal) * currentPrice;
    assert high * price * goal == (high * goal) * price;
    MulMono(999 * (high * goal), 100000 * scaled, price);
    assert 999 * (high * goal) * price == 999 * ((high * goal) * price);
    assert 100000 * scaled * price == 100000 * (price * scaled);
    assert (100 * owed) * currentPrice == 100 * (currentPrice * owed);
    MulCancelLe(after * goal, 100 * owed, currentPrice);
  }

  lemma CrossedDebt(
    debt: nat, held: nat, den: nat, currentPrice: nat, price: nat,
    before: nat, limit: nat, after: nat, m: nat, goal: nat)
    requires den > 0 && currentPrice > 0
    requires held * currentPrice < (before + 1) * den
    requires after * den <= held * price
    requires 999 * (before + 1) * goal <= 100000 * limit * m
    requires 1000 * price * (limit * m) <= 999 * (currentPrice * debt * WAD)
    ensures after * goal <= 100 * (debt * WAD)
  {
    ValuesCompare(after, den, held, price, currentPrice, before + 1);
    assert 999 * (before + 1) * goal == 999 * ((before + 1) * goal);
    assert 100000 * limit * m == 100000 * (limit * m);
    assert 1000 * price * (limit * m) == 1000 * (price * (limit * m));
    assert currentPrice * debt * WAD == currentPrice * (debt * WAD);
    ScaledCompare(after, currentPrice, before + 1, price, goal, limit * m, debt * WAD);
  }

  /** The truncations lose at most a `1/scale` share of one percent's worth of WAD. */
  lemma ThresholdAtLeast(part: nat, whole: nat, pct: nat, multiplier: nat, scale: nat)
    requires 0 < scale <= whole && whole * pct <= 100 * part + 99
    ensures 100 * (Ratio(part, whole) + 1) * scale > (pct * scale - 99) * WAD
    ensures (Threshold(part, whole, multiplier) + 1) * WAD > Ratio(part, whole) * multiplier
  {
    var x := Ratio(part, whole);
    DivBounds(part * WAD, whole);
    DivBounds(x * multiplier, WAD);
    assert (x + 1) * whole > part * WAD;
    assert (whole * pct) * WAD == (pct * WAD) * whole;
    assert (100 * (x + 1) - pct * WAD) * whole == 100 * ((x + 1) * whole) - (pct * WAD) * whole;
    Rescale(100 * (x + 1) - pct * WAD, whole, scale, 99 * WAD);
    assert (pct * scale - 99) * WAD == (pct * WAD) * scale - 99 * WAD;
    assert 100 * (x + 1) * scale == (100 * (x + 1) - pct * WAD) * scale + (pct * WAD) * scale;
  }

  /** A deficit spread over more units weighs less on fewer. */
  lemma Rescale(gap: int, whole: nat, scale: nat, deficit: nat)
    requires scale <= whole && deficit > 0 && gap * whole + deficit > 0
    ensures gap * scale + deficit > 0
  {
    if gap >= 0 {
      MulMono(0, gap, scale);
    } else {
      MulMono(scale, whole, -gap);
      assert gap * scale == -((-gap) * scale);
      assert gap * whole == -((-gap) * whole);
    }
  }

  /** Above the boundary price, the truncated ratio is within the truncated threshold. */
  lemma CrossesDown(
    debt: nat, held: nat, den: nat, currentPrice: nat, price: nat,
    before: nat, limit: nat, after: nat, limitAfter: nat, pct: nat)
    requires den > 0 && currentPrice > 0 && pct >= 1
    requires before * den <= held * currentPrice
    requires 100 * limit <= before * pct
    requires after >= 1000000 && held * price < (after + 1) * den
    requires after * pct <= 100 * limitAfter + 99
    requires 2002 * (currentPrice * debt * WAD)
             <= 2001 * price * (limit * WITHDRAWING_LTV_THRESHOLD_MULTIPLIER)
    ensures Ratio(debt, after)
            <= Threshold(limitAfter, after, WITHDRAWING_LTV_THRESHOLD_MULTIPLIER)
  {
    var m := WITHDRAWING_LTV_THRESHOLD_MULTIPLIER;
    DescendedDebt(debt, held, den, currentPrice, price, before, limit, after, pct, m);
    DescendedRatio(debt, after, pct * m);
    ThresholdAtLeast(limitAfter, after, pct, m, 1000000);
  }

  lemma DescendedRatio(debt: nat, after: nat, cap: nat)
    requires after >= 1000000
    requires 200200 * (debt * WAD) <= 2001 * (cap * (after + 1))
    ensures 200200000000 * Ratio(debt, after) <= 2001002001 * cap
  {
    var y := Ratio(debt, after);
    DivBounds(debt * WAD, after);
    assert cap * (after + 1) == cap * after + cap;
    MulMono(1000000, after, cap);
    assert (200200000000 * y) * after == 200200000000 * (y * after);
    assert (2001002001 * cap) * after == 2001002001 * (cap * after);
    MulCancelLe(200200000000 * y, 2001002001 * cap, after);
  }

  lemma DescendedDebt(
    debt: nat, held: nat, den: nat, currentPrice: nat, price: nat,
    before: nat, limit: nat, after: nat, pct: nat, m: nat)
    requires den > 0 && currentPrice > 0
    requires before * den <= held * currentPrice
    requires 100 * limit <= before * pct
    requires held * price < (after + 1) * den
    requires 2002 * (currentPrice * debt * WAD) <= 2001 * price * (limit * m)
    ensures 200200 * (debt * WAD) <= 2001 * ((pct * m) * (after + 1))
  {
    ValuesCompare(before, den, held, currentPrice, price, after + 1);
    var owed := debt * WAD;
    assert currentPrice * debt * WAD == currentPrice * owed;
    assert 2001 * price * (limit * m) == 2001 * ((price * m) * limit);
    MulMono(100 * limit, before * pct, price * m);
    assert (price * m) * (100 * limit) == 100 * ((price * m) * limit);
    assert (price * m) * (before * pct) == (pct * m) * (before * price);
    MulMono(before * price, (after + 1) * currentPrice, pct * m);
    assert (pct * m) * ((after + 1) * currentPrice) == ((pct * m) * (after + 1)) * currentPrice;
    assert (200200 * owed) * currentPrice == 200200 * (currentPrice * owed);
    assert (2001 * ((pct * m) * (after + 1))) * currentPrice
        == 2001 * (((pct * m) * (after + 1)) * currentPrice);
    MulCancelLe(200200 * owed, 2001 * ((pct * m) * (after + 1)), currentPrice);
  }

  // ----- the three stages -----

  /** Nothing saturates when `held` tokens of the reserve are priced. */
  predicate Prices(held: u64, r: Reserve) {
    && held * r.price <= U128_MAX
    && TokenValueSf(held, r.price, r.decimals) * r.ltvPct <= U128_MAX
    && TokenValueSf(held, r.price, r.decimals) * r.liquidationPct <= U128_MAX
  }

  /** A single-collateral position, refreshed at its reserve's price and again at a new one. */
  ghost predicate Repriced(
    st: State, i: nat, current: Account, remaining: seq<Account>, price: u128,
    before: State, after: State)
  {
    && PositionOps.SingleCollateral(st, current.key, i) && current.reserve.price > 0
    && PositionOps.Refresh(st, current, remaining) == Ok(before)
    && PositionOps.Refresh(st, At(current, price), remaining) == Ok(after)
    && Prices(st.deposits[i].amount, current.reserve)
    && Prices(st.deposits[i].amount, At(current, price).reserve)
  }

  function At(current: Account, price: u128): Account {
    current.(reserve := current.reserve.(price := price))
  }

  /** The totals of `held` tokens, with every floor bounded on both sides. */
  ghost predicate Bounds(st: State, held: u64, r: Reserve) {
    && st.deposited * Denominator(r.decimals) <= held * r.price
                                               < (st.deposited + 1) * Denominator(r.decimals)
    && 100 * st.allowed <= st.deposited * r.ltvPct <= 100 * st.allowed + 99
    && 100 * st.unhealthy <= st.deposited * r.liquidationPct <= 100 * st.unhealthy + 99
  }

  lemma RefreshBounds(
    st: State, i: nat, current: Account, remaining: seq<Account>, next: State)
    requires PositionOps.SingleCollateral(st, current.key, i)
    requires PositionOps.Refresh(st, current, remaining) == Ok(next)
    requires Prices(st.deposits[i].amount, current.reserve)
    ensures Bounds(next, st.deposits[i].amount, current.reserve) && next.debt == st.debt
  {
    var r, held := current.reserve, st.deposits[i].amount;
    PositionOps.SingleRefresh(st, current, remaining, i);
    ValueBounds(held, r);
    PercentBounds(next.deposited, r.ltvPct);
    PercentBounds(next.deposited, r.liquidationPct);
  }

  lemma ValueBounds(held: u64, r: Reserve)
    requires held * r.price <= U128_MAX
    ensures var value := TokenValueSf(held, r.price, r.decimals);
            value * Denominator(r.decimals) <= held * r.price
                                             < (value + 1) * Denominator(r.decimals)
  {
    MulMono(0, held, r.price);
    DivBounds(held * r.price, Denominator(r.decimals));
  }

  lemma PercentBounds(value: u128, pct: u8)
    requires value * pct <= U128_MAX
    ensures 100 * Percent(value, pct) <= value * pct <= 100 * Percent(value, pct) + 99
  {
    MulMono(0, value, pct);
  }

  /** Unless the target was clamped up to the minimum, a refresh at the inject or liquidate
      price puts a position worth at least a million units across the keeper's trigger. */
  lemma FallingStageTriggers(
    kind: Kind, st: State, i: nat, current: Account, remaining: seq<Account>, price: u128,
    before: State, after: State)
    requires kind != Withdraw && st.debt > 0
    requires Repriced(st, i, current, remaining, price, before, after)
    requires ComputeTargetPrice(kind, current.reserve.price, before.debt,
                                before.allowed, before.unhealthy) == Some(price)
    requires Target(kind, current.reserve.price, before.debt,
                    Limit(kind, before.allowed, before.unhealthy)) > MIN_PRICE_SF
    requires before.deposited >= 1000000 && after.deposited > 0
    ensures kind == Inject ==> InjectTrigger(after.deposited, after.debt, after.allowed)
    ensures kind == Liquidate ==> LiquidateTrigger(after.deposited, after.debt, after.unhealthy)
  {
    RefreshBounds(st, i, current, remaining, before);
    RefreshBounds(st, i, At(current, price), remaining, after);
    FallingCrosses(kind, st.deposits[i].amount, current.reserve, price, before, after);
  }

  lemma FallingCrosses(
    kind: Kind, held: u64, r: Reserve, price: u128, before: State, after: State)
    requires kind != Withdraw && before.debt == after.debt > 0 && r.price > 0
    requires Bounds(before, held, r) && Bounds(after, held, r.(price := price))
    requires Limit(kind, before.allowed, before.unhealthy) > 0
    requires price <= Target(kind, r.price, before.debt,
                             Limit(kind, before.allowed, before.unhealthy))
    requires Target(kind, r.price, before.debt,
                    Limit(kind, before.allowed, before.unhealthy)) > MIN_PRICE_SF
    requires before.deposited >= 1000000 && after.deposited > 0
    ensures Ratio(after.debt, after.deposited)
            > Threshold(Limit(kind, after.allowed, after.unhealthy), after.deposited,
                        Multiplier(kind))
  {
    var limit := Limit(kind, before.allowed, before.unhealthy);
    var pct := if kind == Inject then r.ltvPct else r.liquidationPct;
    BelowBoundary(kind, r.price, before.debt, limit, price);
    assert pct == 0 ==> before.deposited * pct == 0;
    CrossesUp(before.debt, held, Denominator(r.decimals), r.price, price, before.deposited, limit,
              after.deposited, Limit(kind, after.allowed, after.unhealthy), pct, Multiplier(kind));
  }

  /** Unless the target was clamped down to the maximum, a refresh at the withdraw price puts a
      position then worth at least a million units across the trigger. */
  lemma RisingStageTriggers(
    st: State, i: nat, current: Account, remaining: seq<Account>, price: u128,
    before: State, after: State)
    requires st.debt > 0
    requires Repriced(st, i, current, remaining, price, before, after)
    requires ComputeTargetPrice(Withdraw, current.reserve.price, before.debt,
                                before.allowed, before.unhealthy) == Some(price)
    requires Target(Withdraw, current.reserve.price, before.debt, before.allowed)
             <= MaxPrice(current.reserve.price)
    requires after.deposited >= 1000000
    ensures WithdrawTrigger(after.deposited, after.debt, after.allowed)
  {
    RefreshBounds(st, i, current, remaining, before);
    RefreshBounds(st, i, At(current, price), remaining, after);
    RisingCrosses(st.deposits[i].amount, current.reserve, price, before, after);
  }

  lemma RisingCrosses(held: u64, r: Reserve, price: u128, before: State, after: State)
    requires before.debt == after.debt && r.price > 0 && before.allowed > 0
    requires Bounds(before, held, r) && Bounds(after, held, r.(price := price))
    requires price >= Target(Withdraw, r.price, before.debt, before.allowed)
    requires price >= MIN_PRICE_SF && after.deposited >= 1000000
    ensures Ratio(after.debt, after.deposited)
            <= Threshold(after.allowed, after.deposited, WITHDRAWING_LTV_THRESHOLD_MULTIPLIER)
  {
    AboveBoundary(r.price, before.debt, before.allowed, price);
    assert r.ltvPct == 0 ==> before.deposited * r.ltvPct == 0;
    CrossesDown(before.debt, held, Denominator(r.decimals), r.price, price,
                before.deposited, before.allowed, after.deposited, after.allowed, r.ltvPct);
  }

  /** The size conditions are needed: on positions of a few units the chosen price misses the
      trigger, in either direction, though nothing was clamped. */
  lemma DustStagesMiss(
    st: State, i: nat, current: Account, remaining: seq<Account>, price: u128,
    before: State, after: State)
    requires Repriced(st, i, current, remaining, price, before, after)
    requires current.reserve == Reserve(1000000000000000000, 18, 10, 20) && st.debt == 1
    ensures st.deposits[i].amount == 19 && price == 1175294117647058822 ==>
              && ComputeTargetPrice(Inject, current.reserve.price, before.debt,
                                    before.allowed, before.unhealthy) == Some(price)
              && after.deposited > 0 && !InjectTrigger(after.deposited, after.debt, after.allowed)
    ensures st.deposits[i].amount == 10 && price == 1346636771300448431 ==>
              && ComputeTargetPrice(Withdraw, current.reserve.price, before.debt,
                                    before.allowed, before.unhealthy) == Some(price)
              && after.deposited > 0 && !WithdrawTrigger(after.deposited, after.debt, after.allowed)
  {
    PositionOps.SingleRefresh(st, current, remaining, i);
    PositionOps.SingleRefresh(st, At(current, price), remaining, i);
    assert Denominator(18) == WAD by { BorrowGate.Pow10Eighteen(); }
    if st.deposits[i].amount == 19 && price == 1175294117647058822 {
      assert before.deposited == 19 && before.allowed == 1;
      assert after.deposited == 22 && after.allowed == 2;
      DustTargets(Inject, price, before.unhealthy);
    }
    if st.deposits[i].amount == 10 && price == 1346636771300448431 {
      assert before.deposited == 10 && before.allowed == 1;
      assert after.deposited == 13 && after.allowed == 1;
      DustTargets(Withdraw, price, before.unhealthy);
    }
  }

  lemma DustTargets(kind: Kind, price: u128, unhealthy: nat)
    requires kind == Inject || kind == Withdraw
    requires price == if kind == Inject then 1175294117647058822 else 1346636771300448431
    ensures ComputeTargetPrice(kind, WAD, 1, 1, unhealthy) == Some(price)
  {
    assert Boundary(kind, WAD, 1, 1)
        == if kind == Inject then 1176470588235294117 else 1345291479820627803;
  }
}

/** The arithmetic of the gap between the inject and the withdraw threshold. */
module HysteresisMath {
  import opened FixedPoint
  import opened HealthFactor

  function InjectThreshold(allowed: nat, deposited: nat): nat
    requires deposited > 0
  {
    Threshold(allowed, deposited, INSURING_LTV_THRESHOLD_MULTIPLIER)
  }

  function WithdrawThreshold(allowed: nat, deposited: nat): nat
    requires deposited > 0
  {
    Threshold(allowed, deposited, WITHDRAWING_LTV_THRESHOLD_MULTIPLIER)
  }

  // ----- thresholds against their exact percentage -----

  /** A truncated threshold never exceeds its share of its multiplier. */
  lemma ThresholdAtMost(part: nat, whole: nat, multiplier: nat)
    requires whole > 0
    ensures Threshold(part, whole, multiplier) * whole <= part * multiplier
  {
    var x, t := Ratio(part, whole), Threshold(part, whole, multiplier);
    DivBounds(part * WAD, whole);
    DivBounds(x * multiplier, WAD);
    MulMono(t * WAD, x * multiplier, whole);
    assert x * multiplier * whole == (x * whole) * multiplier;
    MulMono(x * whole, part * WAD, multiplier);
    assert t * WAD * whole == (t * whole) * WAD && part * WAD * multiplier == (part * multiplier) * WAD;
    MulCancelLe(t * whole, part * multiplier, WAD);
  }

  /** A ratio above the inject threshold owes at least 85% of the limit, to within a unit of
      ratio. */
  lemma OwesAboveInject(debt: nat, allowed: nat, deposited: nat)
    requires deposited > 0 && Ratio(debt, deposited) > InjectThreshold(allowed, deposited)
    ensures 100 * (debt * WAD) > 85 * (allowed * WAD - deposited)
  {
    var x, t := Ratio(allowed, deposited), InjectThreshold(allowed, deposited);
    assert x * deposited + deposited > allowed * WAD by { DivBounds(allowed * WAD, deposited); }
    assert (t + 1) * deposited <= debt * WAD by { FloorGreatest(debt * WAD, deposited, t + 1); }
    assert 85 * x <= 100 * (t + 1) by { DivBounds(x * INSURING_LTV_THRESHOLD_MULTIPLIER, WAD); }
    ScaledBy(85 * x, 100 * (t + 1), deposited, x, t + 1);
  }

  lemma ScaledBy(small: nat, large: nat, weight: nat, x: nat, y: nat)
    requires small == 85 * x && large == 100 * y && small <= large
    ensures 85 * (x * weight) <= 100 * (y * weight)
  {
    MulMono(small, large, weight);
    assert small * weight == 85 * (x * weight);
    assert large * weight == 100 * (y * weight);
  }

  /** And conversely a debt below that share is at or below the threshold. */
  lemma OwesBelowInject(debt: nat, allowed: nat, deposited: nat)
    requires deposited > 0 && 100 * (debt * WAD + deposited) <= 85 * (allowed * WAD - deposited)
    ensures Ratio(debt, deposited) <= InjectThreshold(allowed, deposited)
  {
    if Ratio(debt, deposited) > InjectThreshold(allowed, deposited) {
      OwesAboveInject(debt, allowed, deposited);
    }
  }

  // ----- after an injection -----

  /** The limits before and after an injection whose reserve lends no more than the position's
      average: the limit's share of the collateral has not grown, but for one truncation. */
  predicate ShareNotRaised(before: nat, allowed: nat, after: nat, allowedAfter: nat) {
    100 * (allowedAfter * before) <= after * (100 * allowed + 99)
  }

  /** So a withdraw threshold after it is within its multiplier of the share before. */
  lemma ThresholdAgainstShare(before: nat, allowed: nat, after: nat, allowedAfter: nat, w: nat)
    requires after > 0 && w * after <= allowedAfter * WITHDRAWING_LTV_THRESHOLD_MULTIPLIER
    requires ShareNotRaised(before, allowed, after, allowedAfter)
    ensures 100 * (w * before) <= WITHDRAWING_LTV_THRESHOLD_MULTIPLIER * (100 * allowed + 99)
  {
    var m := WITHDRAWING_LTV_THRESHOLD_MULTIPLIER;
    MulMono(w * after, allowedAfter * m, 100 * before);
    MulMono(100 * (allowedAfter * before), after * (100 * allowed + 99), m);
    assert w * after * (100 * before) == (100 * (w * before)) * after;
    assert allowedAfter * m * (100 * before) == 100 * (allowedAfter * before) * m;
    assert after * (100 * allowed + 99) * m == (m * (100 * allowed + 99)) * after;
    MulCancelLe(100 * (w * before), m * (100 * allowed + 99), after);
  }

  /** What the withdraw check assesses after an injection is at most what was there before it,
      and a unit: a debt above the inject threshold then is not below the withdraw threshold. */
  lemma AssessedStaysAbove(
    debt: nat, before: nat, allowed: nat, after: nat, allowedAfter: nat, assessed: nat)
    requires 1000 <= before && 0 < after && 0 < assessed <= before + 1
    requires before <= 100 * allowed + 99 && ShareNotRaised(before, allowed, after, allowedAfter)
    requires Ratio(debt, before) > InjectThreshold(allowed, before)
    ensures Ratio(debt, assessed) >= WithdrawThreshold(allowedAfter, after)
  {
    var w, m := WithdrawThreshold(allowedAfter, after), WITHDRAWING_LTV_THRESHOLD_MULTIPLIER;
    OwesAboveInject(debt, allowed, before);
    ThresholdAtMost(allowedAfter, after, WITHDRAWING_LTV_THRESHOLD_MULTIPLIER);
    ThresholdAgainstShare(before, allowed, after, allowedAfter, w);
    AssessedArithmetic(debt * WAD, before, allowed, w);
    MulMono(assessed, before + 1, w);
    FloorGreatest(debt * WAD, assessed, w);
  }

  lemma AssessedArithmetic(owed: nat, before: nat, allowed: nat, w: nat)
    requires 1000 <= before <= 100 * allowed + 99
    requires 100 * (w * before) <= WITHDRAWING_LTV_THRESHOLD_MULTIPLIER * (100 * allowed + 99)
    requires 100 * owed > 85 * (allowed * WAD - before)
    ensures w * (before + 1) <= owed
  {
    var limit := 100 * allowed + 99;
    assert 1000 * w <= w * before by { MulMono(1000, before, w); }
    assert w * (before + 1) == w * before + w;
    assert 100000 * (w * (before + 1)) <= 1001 * (100 * (w * before));
  }

  /** With collateral up by at most an eighth, a ratio above the inject threshold stays above
      the withdraw threshold. */
  lemma EighthStaysAbove(debt: nat, before: nat, allowed: nat, after: nat, allowedAfter: nat)
    requires 10000 <= before <= after && 8 * after <= 9 * before
    requires before <= 100 * allowed + 99 && ShareNotRaised(before, allowed, after, allowedAfter)
    requires Ratio(debt, before) > InjectThreshold(allowed, before)
    ensures Ratio(debt, after) > WithdrawThreshold(allowedAfter, after)
  {
    var w := WithdrawThreshold(allowedAfter, after);
    var needed := (w + 1) * after;
    assert needed <= debt * WAD by {
      OwesAboveInject(debt, allowed, before);
      ThresholdAtMost(allowedAfter, after, WITHDRAWING_LTV_THRESHOLD_MULTIPLIER);
      ThresholdAgainstShare(before, allowed, after, allowedAfter, w);
      EighthScaled(w, before, after);
      EighthArithmetic(debt * WAD, before, allowed, w * before, needed);
    }
    FloorGreatest(debt * WAD, after, w + 1);
  }

  lemma EighthScaled(w: nat, before: nat, after: nat)
    requires 8 * after <= 9 * before
    ensures 8 * ((w + 1) * after) <= 9 * (w * before) + 9 * before
  {
    MulMono(8 * after, 9 * before, w + 1);
    assert (w + 1) * (8 * after) == 8 * ((w + 1) * after);
    assert (w + 1) * (9 * before) == 9 * (w * before) + 9 * before;
  }

  lemma EighthArithmetic(owed: nat, before: nat, allowed: nat, scaled: nat, needed: nat)
    requires 10000 <= before <= 100 * allowed + 99
    requires 100 * scaled <= WITHDRAWING_LTV_THRESHOLD_MULTIPLIER * (100 * allowed + 99)
    requires 100 * owed > 85 * (allowed * WAD - before)
    requires 8 * needed <= 9 * scaled + 9 * before
    ensures needed <= owed
  {
  }

  // ----- the two lines, exact to within the floors -----

  /** After an injection that adds `added` to the collateral and `lent` hundredths to the limit:
      the ratio is above the withdraw threshold, or at or below it. */
  predicate AboveLine(debt: nat, deposited: nat, allowed: nat, added: nat, lent: nat) {
    100 * (debt * WAD)
    >= WITHDRAWING_LTV_THRESHOLD_MULTIPLIER * (100 * allowed + lent + 99)
       + 100 * (deposited + added)
  }

  predicate BelowLine(debt: nat, deposited: nat, allowed: nat, added: nat, lent: nat) {
    100 * (debt * WAD)
    <= WITHDRAWING_LTV_THRESHOLD_MULTIPLIER * (100 * allowed + lent - 99)
       - 200 * (deposited + added)
  }

  /** Even one unit more than what was there before it is refused by the withdraw check. */
  predicate RefusedLine(debt: nat, deposited: nat, allowed: nat, added: nat, lent: nat) {
    100 * (debt * WAD * (deposited + added))
    >= WITHDRAWING_LTV_THRESHOLD_MULTIPLIER * (100 * allowed + lent + 99) * (deposited + 1)
  }

  /** After a withdrawal that leaves `left` and takes `unlent` hundredths off the limit: the
      ratio is at or below the inject threshold, or above it. */
  predicate SafeLine(debt: nat, allowed: nat, left: nat, unlent: nat) {
    10000 * (debt * WAD) <= 85 * ((100 * allowed - unlent - 99) * WAD - 100 * left)
  }

  predicate UnsafeLine(debt: nat, allowed: nat, left: nat, unlent: nat) {
    10000 * (debt * WAD - left) >= 85 * ((100 * allowed - unlent + 99) * WAD)
  }

  /** Where a position stands against the inject threshold: on the line
      `100 * debt == 85 * allowed`, to within one unit of ratio. */
  lemma InjectLine(debt: nat, allowed: nat, deposited: nat)
    requires deposited > 0
    ensures 100 * (debt * WAD) <= 85 * (allowed * WAD - deposited) ==>
              Ratio(debt, deposited) <= InjectThreshold(allowed, deposited)
    ensures 100 * (debt * WAD - deposited) >= 85 * (allowed * WAD) ==>
              Ratio(debt, deposited) > InjectThreshold(allowed, deposited)
  {
    if Ratio(debt, deposited) > InjectThreshold(allowed, deposited) {
      OwesAboveInject(debt, allowed, deposited);
    } else {
      OwesAtMostInject(debt, allowed, deposited);
    }
  }

  lemma OwesAtMostInject(debt: nat, allowed: nat, deposited: nat)
    requires deposited > 0 && Ratio(debt, deposited) <= InjectThreshold(allowed, deposited)
    ensures 100 * (debt * WAD - deposited) < 85 * (allowed * WAD)
  {
    var t, owed := InjectThreshold(allowed, deposited), debt * WAD;
    assert owed < (t + 1) * deposited by { FloorGreatest(owed, deposited, t + 1); }
    assert t * deposited <= allowed * INSURING_LTV_THRESHOLD_MULTIPLIER by {
      ThresholdAtMost(allowed, deposited, INSURING_LTV_THRESHOLD_MULTIPLIER);
    }
    assert (t + 1) * deposited == t * deposited + deposited;
  }

  /** And against the withdraw threshold: `debt * WAD == 0.7433... * allowed`, likewise. */
  lemma WithdrawLine(debt: nat, allowed: nat, deposited: nat)
    requires deposited > 0
    ensures debt * WAD >= WITHDRAWING_LTV_THRESHOLD_MULTIPLIER * allowed + deposited ==>
              Ratio(debt, deposited) > WithdrawThreshold(allowed, deposited)
    ensures debt * WAD <= WITHDRAWING_LTV_THRESHOLD_MULTIPLIER * allowed - 2 * deposited ==>
              Ratio(debt, deposited) <= WithdrawThreshold(allowed, deposited)
  {
    var w, owed := WithdrawThreshold(allowed, deposited), debt * WAD;
    assert w * deposited <= allowed * WITHDRAWING_LTV_THRESHOLD_MULTIPLIER by {
      ThresholdAtMost(allowed, deposited, WITHDRAWING_LTV_THRESHOLD_MULTIPLIER);
    }
    assert w * deposited > WITHDRAWING_LTV_THRESHOLD_MULTIPLIER * allowed - 2 * deposited by {
      ThresholdAtLeast(allowed, deposited, WITHDRAWING_LTV_THRESHOLD_MULTIPLIER);
    }
    assert (w + 1) * deposited == w * deposited + deposited;
    FloorGreatest(owed, deposited, w + 1);
  }

  /** The two truncations of a threshold lose less than two units of ratio. */
  lemma ThresholdAtLeast(part: nat, whole: nat, multiplier: nat)
    requires whole > 0 && multiplier <= WAD
    ensures Threshold(part, whole, multiplier) * whole > multiplier * part - 2 * whole
  {
    var x, t := Ratio(part, whole), Threshold(part, whole, multiplier);
    assert (x + 1) * whole > part * WAD by { DivBounds(part * WAD, whole); }
    assert (t + 1) * WAD > x * multiplier by { DivBounds(x * multiplier, WAD); }
    ThresholdProducts(part, whole, multiplier, x, t);
  }

  lemma ThresholdProducts(part: nat, whole: nat, multiplier: nat, x: nat, t: nat)
    requires whole > 0 && multiplier <= WAD
    requires (x + 1) * whole > part * WAD && (t + 1) * WAD > x * multiplier
    ensures t * whole > multiplier * part - 2 * whole
  {
    var scaled := x * multiplier;
    assert (t * whole + whole) * WAD > scaled * whole by {
      MulStrict(scaled, (t + 1) * WAD, whole);
      assert (t + 1) * WAD * whole == (t * whole + whole) * WAD;
    }
    assert scaled * whole + whole * WAD >= part * multiplier * WAD by {
      MulMono(part * WAD, (x + 1) * whole, multiplier);
      assert (x + 1) * whole * multiplier == scaled * whole + whole * multiplier;
      assert part * WAD * multiplier == part * multiplier * WAD;
      MulMono(multiplier, WAD, whole);
    }
    assert (t * whole + 2 * whole) * WAD == (t * whole + whole) * WAD + whole * WAD;
    MulCancel(part * multiplier, t * whole + 2 * whole, WAD);
  }

  /** What the withdraw check reads: the debt over what it assesses as left, against the
      threshold of the position as it stands. */
  lemma AssessedLine(debt: nat, allowed: nat, deposited: nat, assessed: nat)
    requires deposited > 0 && assessed > 0
    ensures Ratio(debt, assessed) < WithdrawThreshold(allowed, deposited) ==>
              debt * WAD * deposited
              < WITHDRAWING_LTV_THRESHOLD_MULTIPLIER * allowed * assessed
    ensures debt * WAD * deposited
            <= (WITHDRAWING_LTV_THRESHOLD_MULTIPLIER * allowed - 2 * deposited) * assessed ==>
              Ratio(debt, assessed) < WithdrawThreshold(allowed, deposited)
  {
    var w, owed := WithdrawThreshold(allowed, deposited), debt * WAD;
    var limit := WITHDRAWING_LTV_THRESHOLD_MULTIPLIER * allowed;
    assert w * deposited <= limit by {
      ThresholdAtMost(allowed, deposited, WITHDRAWING_LTV_THRESHOLD_MULTIPLIER);
    }
    assert w * deposited > limit - 2 * deposited by {
      ThresholdAtLeast(allowed, deposited, WITHDRAWING_LTV_THRESHOLD_MULTIPLIER);
    }
    FloorGreatest(owed, assessed, w);
    AssessedProducts(owed, w, deposited, assessed, limit);
  }

  lemma AssessedProducts(owed: nat, w: nat, deposited: nat, assessed: nat, limit: int)
    requires deposited > 0 && assessed > 0
    requires limit - 2 * deposited < w * deposited <= limit
    ensures owed < w * assessed ==> owed * deposited < limit * assessed
    ensures owed * deposited <= (limit - 2 * deposited) * assessed ==> owed < w * assessed
  {
    var line := w * deposited;
    assert w * assessed * deposited == line * assessed;
    MulMono(line, limit, assessed);
    MulStrict(limit - 2 * deposited, line, assessed);
    if owed < w * assessed {
      MulStrict(owed, w * assessed, deposited);
    } else {
      MulMono(w * assessed, owed, deposited);
    }
  }

  // ----- limits alone: what holds at every debt the instructions accept -----

  /** At every debt above the inject threshold, the withdraw check after an injection fails when
      85% of the limit over what the position is then worth covers 74.34% of the limit after it
      over what it was worth before. `lent` is a hundred times what the injection adds to the
      limit. */
  predicate LimitOutlives(deposited: nat, allowed: nat, added: nat, lent: nat) {
    && 10000000 <= deposited <= 100 * allowed
    && 7434 * ((100 * allowed + lent) * deposited) <= 850000 * (allowed * (deposited + added))
  }

  lemma OutlivedLine(debt: nat, deposited: nat, allowed: nat, added: nat, lent: nat)
    requires LimitOutlives(deposited, allowed, added, lent)
    requires Ratio(debt, deposited) > InjectThreshold(allowed, deposited)
    ensures RefusedLine(debt, deposited, allowed, added, lent)
  {
    assert 100 * (debt * WAD) > 85 * (allowed * WAD - deposited) by {
      OwesAboveInject(debt, allowed, deposited);
    }
    OutlivedProducts(debt * WAD, deposited, allowed, added, lent);
  }

  lemma OutlivedProducts(owed: nat, deposited: nat, allowed: nat, added: nat, lent: nat)
    requires LimitOutlives(deposited, allowed, added, lent)
    requires 100 * owed > 85 * (allowed * WAD - deposited)
    ensures 100 * (owed * (deposited + added))
            >= WITHDRAWING_LTV_THRESHOLD_MULTIPLIER * (100 * allowed + lent + 99) * (deposited + 1)
  {
    var after, limit := deposited + added, 100 * allowed + lent;
    var product := (limit + 99) * (deposited + 1);
    OneMoreUnit(limit, deposited);
    OwedAfter(owed, deposited, allowed, after);
    OutlivedTotals(owed * after, allowed * after, limit * deposited, product);
    assert WITHDRAWING_LTV_THRESHOLD_MULTIPLIER * (limit + 99) * (deposited + 1)
        == WITHDRAWING_LTV_THRESHOLD_MULTIPLIER * product;
  }

  lemma OneMoreUnit(limit: nat, deposited: nat)
    requires 10000000 <= deposited <= limit
    ensures 10000000 * ((limit + 99) * (deposited + 1)) <= 10000110 * (limit * deposited)
  {
    var share := limit * deposited;
    assert (limit + 99) * (deposited + 1) == share + limit + 99 * deposited + 99;
    MulMono(10000000, deposited, limit);
    MulMono(10000000, limit, deposited);
  }

  lemma OwedAfter(owed: nat, deposited: nat, allowed: nat, after: nat)
    requires deposited <= 100 * allowed && 100 * owed > 85 * (allowed * WAD - deposited)
    ensures 100 * (owed * after) >= 85 * (allowed * after * (WAD - 100))
  {
    var held := allowed * after;
    assert deposited * after <= 100 * held by {
      MulMono(deposited, 100 * allowed, after);
      assert 100 * allowed * after == 100 * held;
    }
    MulMono(85 * (allowed * WAD - deposited), 100 * owed, after);
    assert 85 * (allowed * WAD - deposited) * after == 85 * (held * WAD - deposited * after);
    assert 100 * owed * after == 100 * (owed * after);
  }

  lemma OutlivedTotals(owed: nat, held: nat, share: nat, product: nat)
    requires 7434 * share <= 850000 * held && 10000000 * product <= 10000110 * share
    requires 100 * owed >= 85 * (held * (WAD - 100))
    ensures WITHDRAWING_LTV_THRESHOLD_MULTIPLIER * product <= 100 * owed
  {
  }

  /** A reserve that lends at most 1.14 times the average outlives any injection, and one that
      lends at most 2.29 times outlives an injection of at most an eighth of the collateral. */
  lemma WhenLimitOutlives(deposited: nat, allowed: nat, added: nat, pct: nat)
    requires 10000000 <= deposited <= 100 * allowed
    requires || pct * deposited <= 114 * allowed
             || (pct * deposited <= 229 * allowed && 8 * added <= deposited)
    ensures LimitOutlives(deposited, allowed, added, pct * added)
  {
    var lent, held := pct * added, allowed * added;
    assert (100 * allowed + lent) * deposited == 100 * (allowed * deposited) + lent * deposited;
    assert lent * deposited == (pct * deposited) * added;
    assert allowed * (deposited + added) == allowed * deposited + held;
    if pct * deposited <= 114 * allowed {
      MulMono(pct * deposited, 114 * allowed, added);
      assert 114 * allowed * added == 114 * held;
    } else {
      MulMono(pct * deposited, 229 * allowed, added);
      assert 229 * allowed * added == 229 * held;
      MulMono(8 * added, deposited, allowed);
      assert allowed * (8 * added) == 8 * held;
    }
  }

  /** The same for the ratio alone: what the injection adds to the limit is at most 14.34% of
      it. */
  predicate LimitBarelyRaised(deposited: nat, allowed: nat, added: nat, lent: nat) {
    10000000 <= deposited <= 100 * allowed && 100 * lent <= 1434 * allowed
    && added <= 1000 * deposited
  }

  lemma BarelyRaisedLine(debt: nat, deposited: nat, allowed: nat, added: nat, lent: nat)
    requires LimitBarelyRaised(deposited, allowed, added, lent)
    requires Ratio(debt, deposited) > InjectThreshold(allowed, deposited)
    ensures AboveLine(debt, deposited, allowed, added, lent)
  {
    OwesAboveInject(debt, allowed, deposited);
  }

  /** An injected value of at most an eighth, at a price factor of at most 1.147, of a reserve
      that lends at most the average. */
  lemma WhenLimitBarelyRaised(
    deposited: nat, allowed: nat, added: nat, pct: nat, value: nat, n: nat, m: nat)
    requires 20000000 <= deposited <= 100 * allowed && pct <= 255
    requires pct * deposited <= 100 * allowed + 99
    requires 8 * value <= deposited && (added - 1) * m <= value * n
    requires m > 0 && 1000 * n <= 1147 * m
    ensures LimitBarelyRaised(deposited, allowed, added, pct * added)
  {
    assert 8000 * (added - 1) <= 1147 * deposited by {
      MulMono(1000 * n, 1147 * m, value);
      assert value * (1000 * n) == 1000 * (value * n);
      assert value * (1147 * m) == (1147 * value) * m;
      assert 1000 * ((added - 1) * m) == (1000 * (added - 1)) * m;
      MulCancelLe(1000 * (added - 1), 1147 * value, m);
    }
    MulMono(8000 * (added - 1), 1147 * deposited, pct);
    assert pct * (8000 * (added - 1)) == 8000 * (pct * added) - 8000 * pct;
    assert pct * (1147 * deposited) == 1147 * (pct * deposited);
  }

  /** At every debt the withdraw check accepts, what is left is at or below the inject
      threshold: 74.34% of the limit over what the position was worth, taken of what it keeps,
      is within 85% of the limit it keeps. */
  predicate LimitKeepsUp(deposited: nat, allowed: nat, left: nat, unlent: nat) {
    && left <= deposited <= 100 * allowed && unlent <= 100 * allowed
    && 743400 * (allowed * left) <= 8500 * ((100 * allowed - unlent) * deposited)
  }

  lemma KeptUpLine(
    debt: nat, deposited: nat, allowed: nat, left: nat, unlent: nat, assessed: nat)
    requires LimitKeepsUp(deposited, allowed, left, unlent) && 10000000 <= left
    requires 0 < assessed <= left + 1
    requires Ratio(debt, assessed) < WithdrawThreshold(allowed, deposited)
    ensures SafeLine(debt, allowed, left, unlent)
  {
    AssessedLine(debt, allowed, deposited, assessed);
    KeptUpProducts(debt * WAD, deposited, allowed, left, unlent, assessed);
  }

  lemma KeptUpProducts(
    owed: nat, deposited: nat, allowed: nat, left: nat, unlent: nat, assessed: nat)
    requires LimitKeepsUp(deposited, allowed, left, unlent)
    requires 10000000 <= left && assessed <= left + 1
    requires owed * deposited < WITHDRAWING_LTV_THRESHOLD_MULTIPLIER * allowed * assessed
    ensures 10000 * owed <= 85 * ((100 * allowed - unlent - 99) * WAD - 100 * left)
  {
    var held, kept := allowed * left, (100 * allowed - unlent) * deposited;
    AssessedDebt(owed * deposited, allowed, left, assessed);
    KeptUpSizes(deposited, allowed, left);
    KeptUpTotals(owed * deposited, held, kept, left * deposited, allowed, deposited);
    CancelKept(owed, deposited, 100 * allowed - unlent, left);
  }

  lemma AssessedDebt(owed: nat, allowed: nat, left: nat, assessed: nat)
    requires assessed <= left + 1
    requires owed < WITHDRAWING_LTV_THRESHOLD_MULTIPLIER * allowed * assessed
    ensures owed <= WITHDRAWING_LTV_THRESHOLD_MULTIPLIER * (allowed * left + allowed)
  {
    MulMono(assessed, left + 1, WITHDRAWING_LTV_THRESHOLD_MULTIPLIER * allowed);
    assert WITHDRAWING_LTV_THRESHOLD_MULTIPLIER * allowed * (left + 1)
        == WITHDRAWING_LTV_THRESHOLD_MULTIPLIER * (allowed * left + allowed);
  }

  lemma KeptUpSizes(deposited: nat, allowed: nat, left: nat)
    requires 10000000 <= left && deposited <= 100 * allowed
    ensures 10000000 * allowed <= allowed * left
    ensures left * deposited <= 100 * (allowed * left)
    ensures 10000000 * deposited <= left * deposited
  {
    MulMono(10000000, left, allowed);
    MulMono(deposited, 100 * allowed, left);
    assert 100 * allowed * left == 100 * (allowed * left);
    MulMono(10000000, left, deposited);
  }

  lemma CancelKept(owed: nat, deposited: nat, kept: int, left: nat)
    requires deposited > 0
    requires 10000 * (owed * deposited)
             <= 85 * WAD * (kept * deposited) - 8415 * WAD * deposited - 8500 * (left * deposited)
    ensures 10000 * owed <= 85 * ((kept - 99) * WAD - 100 * left)
  {
    var small, large := 10000 * owed, 85 * ((kept - 99) * WAD - 100 * left);
    assert large * deposited
        == 85 * WAD * (kept * deposited) - 8415 * WAD * deposited - 8500 * (left * deposited);
    assert small * deposited == 10000 * (owed * deposited);
    MulCancelLe(small, large, deposited);
  }

  lemma KeptUpTotals(owed: nat, held: nat, kept: int, both: nat, allowed: nat, deposited: nat)
    requires owed <= WITHDRAWING_LTV_THRESHOLD_MULTIPLIER * (held + allowed)
    requires 743400 * held <= 8500 * kept && 10000000 * allowed <= held
    requires both <= 100 * held && 10000000 * deposited <= both
    ensures 10000 * owed <= 85 * WAD * kept - 8415 * WAD * deposited - 8500 * both
  {
  }

  // ----- after a withdrawal -----

  /** The limit's share of the collateral has not fallen, but for `slack` hundredths. */
  predicate ShareNotLowered(before: nat, allowed: nat, after: nat, allowedAfter: nat, slack: nat) {
    100 * (allowed * after) <= 100 * (allowedAfter * before) + slack * before
  }

  /** With all but one unit of the assessed collateral left, a ratio strictly below the
      withdraw threshold ends at or below the inject threshold. */
  lemma WithdrawnStaysBelow(
    debt: nat, before: nat, assessed: nat, after: nat, allowed: nat, allowedAfter: nat, slack: nat)
    requires 0 < assessed <= after + 1 && 1000 <= after <= before
    requires 1000 * slack <= 99 * after && before <= 100 * allowed + 99
    requires ShareNotLowered(before, allowed, after, allowedAfter, slack)
    requires Ratio(debt, assessed) < WithdrawThreshold(allowed, before)
    ensures Ratio(debt, after) <= InjectThreshold(allowedAfter, after)
  {
    var w, m := WithdrawThreshold(allowed, before), WITHDRAWING_LTV_THRESHOLD_MULTIPLIER;
    OwesBelow(debt, assessed, after, w);
    ThresholdAtMost(allowed, before, m);
    ScaledDebt(debt * WAD, w, before, after, allowed);
    BelowArithmetic(debt * WAD, before, after, allowed, allowedAfter, slack);
    OwesBelowInject(debt, allowedAfter, after);
  }

  lemma ScaledDebt(owed: nat, w: nat, before: nat, after: nat, allowed: nat)
    requires owed <= w * (after + 1)
    requires w * before <= allowed * WITHDRAWING_LTV_THRESHOLD_MULTIPLIER
    ensures owed * before <= WITHDRAWING_LTV_THRESHOLD_MULTIPLIER * (allowed * after + allowed)
  {
    var m := WITHDRAWING_LTV_THRESHOLD_MULTIPLIER;
    MulMono(owed, w * (after + 1), before);
    MulMono(w * before, allowed * m, after + 1);
    assert w * (after + 1) * before == w * before * (after + 1);
    assert allowed * m * (after + 1) == m * (allowed * after + allowed);
  }

  lemma OwesBelow(debt: nat, assessed: nat, after: nat, w: nat)
    requires 0 < assessed <= after + 1 && Ratio(debt, assessed) < w
    ensures debt * WAD < w * (after + 1)
  {
    FloorGreatest(debt * WAD, assessed, w);
    MulMono(assessed, after + 1, w);
  }

  lemma BelowArithmetic(
    owed: nat, before: nat, after: nat, allowed: nat, allowedAfter: nat, slack: nat)
    requires 1000 <= after <= before <= 100 * allowed + 99 && 1000 * slack <= 99 * after
    requires ShareNotLowered(before, allowed, after, allowedAfter, slack)
    requires owed * before
             <= WITHDRAWING_LTV_THRESHOLD_MULTIPLIER * (allowed * after + allowed)
    ensures 100 * (owed + after) <= 85 * (allowedAfter * WAD - after)
  {
    BelowProducts(owed * before, allowedAfter * before, before, after, allowed, slack);
    CancelBefore(owed, before, after, allowedAfter);
  }

  lemma BelowProducts(owed: nat, kept: nat, before: nat, after: nat, allowed: nat, slack: nat)
    requires 1000 <= after <= before <= 100 * allowed + 99 && 1000 * slack <= 99 * after
    requires owed <= WITHDRAWING_LTV_THRESHOLD_MULTIPLIER * (allowed * after + allowed)
    requires 100 * (allowed * after) <= 100 * kept + slack * before
    ensures 100 * owed + 185 * (before * after) <= 85 * WAD * kept
  {
    var held, both, lost := BelowParts(before, after, allowed, slack);
    BelowTotals(owed, held, kept, both, lost, allowed, after);
  }

  lemma BelowParts(before: nat, after: nat, allowed: nat, slack: nat)
    returns (held: nat, both: nat, lost: nat)
    requires 1000 <= after <= before <= 100 * allowed + 99 && 1000 * slack <= 99 * after
    ensures held == allowed * after && both == before * after && lost == slack * before
    ensures 1000 * lost <= 9900 * held + 9801 * after
    ensures 1000 * allowed <= held && 10 * after <= held && both <= 100 * held + 99 * after
  {
    held, both, lost := allowed * after, before * after, slack * before;
    HeldBounds(before, after, allowed);
    LostShare(slack, before, after, allowed);
  }

  lemma CancelBefore(owed: nat, before: nat, after: nat, allowedAfter: nat)
    requires before > 0
    requires 100 * (owed * before) + 185 * (before * after) <= 85 * WAD * (allowedAfter * before)
    ensures 100 * (owed + after) <= 85 * (allowedAfter * WAD - after)
  {
    Regroup(owed, before, after, allowedAfter);
    MulCancelLe(100 * (owed + after), 85 * (allowedAfter * WAD - after), before);
  }

  lemma HeldBounds(before: nat, after: nat, allowed: nat)
    requires 1000 <= after <= before <= 100 * allowed + 99
    ensures 10 * after <= allowed * after && 1000 * allowed <= allowed * after
    ensures before * after <= 100 * (allowed * after) + 99 * after
  {
    MulMono(1000, after, allowed);
    MulMono(10, allowed, after);
    MulMono(before, 100 * allowed + 99, after);
    assert (100 * allowed + 99) * after == 100 * (allowed * after) + 99 * after;
  }

  lemma Regroup(owed: nat, before: nat, after: nat, allowedAfter: nat)
    ensures (100 * (owed + after)) * before == 100 * (owed * before) + 100 * (before * after)
    ensures (85 * (allowedAfter * WAD - after)) * before
            == 85 * WAD * (allowedAfter * before) - 85 * (before * after)
  {
  }

  lemma BelowTotals(
    owed: nat, held: nat, kept: nat, both: nat, lost: nat, allowed: nat, after: nat)
    requires owed <= WITHDRAWING_LTV_THRESHOLD_MULTIPLIER * (held + allowed)
    requires 100 * held <= 100 * kept + lost
    requires 1000 * lost <= 9900 * held + 9801 * after
    requires 1000 * allowed <= held && 10 * after <= held && both <= 100 * held + 99 * after
    ensures 100 * owed + 185 * both <= 85 * WAD * kept
  {
  }

  lemma LostShare(slack: nat, before: nat, after: nat, allowed: nat)
    requires 1000 * slack <= 99 * after && before <= 100 * allowed + 99
    ensures 1000 * (slack * before) <= 9900 * (allowed * after) + 9801 * after
  {
    MulMono(1000 * slack, 99 * after, before);
    assert 1000 * slack * before == 1000 * (slack * before);
    MulMono(before, 100 * allowed + 99, 99 * after);
    assert (100 * allowed + 99) * (99 * after) == 9900 * (allowed * after) + 9801 * after;
  }

  /** The same where the withdrawn reserve lends nothing and the limit stays as it was. */
  lemma UnlentWithdrawalStaysBelow(debt: nat, before: nat, assessed: nat, after: nat, allowed: nat)
    requires 0 < assessed <= after + 1 && 1000 <= after <= before
    requires Ratio(debt, assessed) < WithdrawThreshold(allowed, before)
    ensures Ratio(debt, after) <= InjectThreshold(allowed, after)
  {
    var w, x, y := WithdrawThreshold(allowed, before), Ratio(allowed, before), Ratio(debt, after);
    OwesBelow(debt, assessed, after, w);
    DivBounds(debt * WAD, after);
    assert 1000 * y <= 1001 * w by { OneInThousand(y, w, after); }
    assert x <= Ratio(allowed, after) by { RatioAntitone(allowed, after, before); }
    assert 10000 * w <= 7434 * x by {
      DivBounds(x * WITHDRAWING_LTV_THRESHOLD_MULTIPLIER, WAD);
    }
    FloorGreatest(Ratio(allowed, after) * INSURING_LTV_THRESHOLD_MULTIPLIER, WAD, y);
  }

  lemma OneInThousand(y: nat, bound: nat, after: nat)
    requires after >= 1000 && y * after < bound * (after + 1)
    ensures 1000 * y <= 1001 * bound
  {
    assert bound * (after + 1) == bound * after + bound;
    MulMono(1000, after, bound);
    assert (1000 * y) * after == 1000 * (y * after);
    assert (1001 * bound) * after == 1001 * (bound * after);
    MulCancelLe(1000 * y, 1001 * bound, after);
  }

  /** With a single reserve, whose limit is its own percentage truncated, 300 units left are
      enough: the debt is a whole number, and so is the limit. */
  lemma SingleStaysBelow(
    debt: nat, before: nat, assessed: nat, after: nat, allowed: nat, allowedAfter: nat, pct: nat)
    requires 0 < assessed <= after + 1 && 300 <= after <= before
    requires 100 * allowed <= before * pct && after * pct <= 100 * allowedAfter + 99
    requires Ratio(debt, assessed) < WithdrawThreshold(allowed, before)
    ensures Ratio(debt, after) <= InjectThreshold(allowedAfter, after)
  {
    AssessedLine(debt, allowed, before, assessed);
    assert 100 * (debt * WAD) < WITHDRAWING_LTV_THRESHOLD_MULTIPLIER * (after * pct + pct) by {
      ShareOfPercent(debt * WAD, allowed, before, assessed, after, pct);
    }
    if pct == 0 {
      assert false;
    }
    MulMono(300, after, pct);
    MulMono(1, pct, after);
    WholeDebt(debt, allowedAfter, after, pct);
    InjectLine(debt, allowedAfter, after);
  }

  lemma ShareOfPercent(
    owed: nat, allowed: nat, before: nat, assessed: nat, after: nat, pct: nat)
    requires before > 0 && assessed <= after + 1 && 100 * allowed <= before * pct
    requires owed * before < WITHDRAWING_LTV_THRESHOLD_MULTIPLIER * allowed * assessed
    ensures 100 * owed < WITHDRAWING_LTV_THRESHOLD_MULTIPLIER * (after * pct + pct)
  {
    var m := WITHDRAWING_LTV_THRESHOLD_MULTIPLIER;
    MulMono(100 * allowed, before * pct, m * assessed);
    assert 100 * (m * allowed * assessed) == 100 * allowed * (m * assessed);
    assert before * pct * (m * assessed) == (m * (pct * assessed)) * before;
    assert 100 * (owed * before) == (100 * owed) * before;
    MulCancel(100 * owed, m * (pct * assessed), before);
    MulMono(assessed, after + 1, pct);
    assert pct * (after + 1) == after * pct + pct;
  }

  lemma WholeDebt(debt: nat, limit: nat, after: nat, pct: nat)
    requires 300 * pct <= 100 * limit + 99 && 1 <= pct && after <= 100 * limit + 99
    requires 100 * (debt * WAD)
             < WITHDRAWING_LTV_THRESHOLD_MULTIPLIER * (100 * limit + 99 + pct)
    ensures 100 * (debt * WAD) <= 85 * (limit * WAD - after)
  {
    assert limit == 3 || limit == 4 || limit == 5 || limit == 6 || limit == 7 || limit >= 8;
  }

  lemma RatioAntitone(part: nat, small: nat, large: nat)
    requires 0 < small <= large
    ensures Ratio(part, large) <= Ratio(part, small)
  {
    DivBounds(part * WAD, large);
    MulMono(small, large, Ratio(part, large));
    FloorGreatest(part * WAD, small, Ratio(part, large));
  }

  /** After an injection from a reserve that lends nothing. */
  lemma UnlentAssessedStaysAbove(debt: nat, before: nat, allowed: nat, after: nat, assessed: nat)
    requires 1000 <= before <= after && 0 < assessed <= before + 1
    requires Ratio(debt, before) > InjectThreshold(allowed, before)
    ensures Ratio(debt, assessed) >= WithdrawThreshold(allowed, after)
  {
    var x, t := Ratio(allowed, before), InjectThreshold(allowed, before);
    var w := WithdrawThreshold(allowed, after);
    RatioAntitone(allowed, before, after);
    assert 85 * x <= 100 * (t + 1) by { DivBounds(x * INSURING_LTV_THRESHOLD_MULTIPLIER, WAD); }
    assert 10000 * w <= 7434 * x by {
      DivBounds(Ratio(allowed, after) * WITHDRAWING_LTV_THRESHOLD_MULTIPLIER, WAD);
    }
    FloorGreatest(debt * WAD, before, t + 1);
    UnlentProducts(w, t + 1, before);
    MulMono(assessed, before + 1, w);
    FloorGreatest(debt * WAD, assessed, w);
  }

  lemma UnlentProducts(w: nat, bound: nat, before: nat)
    requires before >= 1000 && 1001 * w <= 1000 * bound
    ensures w * (before + 1) <= bound * before
  {
    MulMono(1001 * w, 1000 * bound, before);
    MulMono(1000, before, w);
    assert 1001 * w * before == 1001 * (w * before);
    assert 1000 * bound * before == 1000 * (bound * before);
    assert w * (before + 1) == w * before + w;
  }
}

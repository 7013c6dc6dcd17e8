/** Accrual of the vault's interest index and the amounts taken back from a position. */
module InterestMath {
  import opened FixedPoint

  const YEAR: int := 31536000

  function Pow(base: nat, exponent: nat): nat {
    if exponent == 0 then 1 else base * Pow(base, exponent - 1)
  }

  /** Signed division rounds toward zero. */
  function TruncDiv(a: int, d: nat): int
    requires d > 0
  {
    if a >= 0 then a / d else -((-a) / d)
  }

  function Annualized(time: i64): Option<nat> {
    var days := TruncDiv(TruncDiv(TruncDiv(time, 60), 60), 24);
    var years := TruncDiv(days, 365);
    if 0 <= years <= U32_MAX then Some(years) else None
  }

  /** The new index, or None where some checked step fails. */
  function Accrue(previous: u64, rate: u64, lastUpdated: i64, now: i64): Option<u64> {
    var elapsed :- I64(now - lastUpdated);
    var ratePlusOne :- U64(rate + TOKEN_PRECISION);
    var scaled :- U64(previous * ratePlusOne);
    var next: u64 := scaled / TOKEN_PRECISION;
    var years :- Annualized(elapsed);
    if years == 0 then Some(next) else U64(Pow(next, years))
  }

  function CalculateAmountToWithdraw(currentAi: u64, storedAi: u64, injected: u64): Option<u64> {
    var scaled :- U64(currentAi * TOKEN_PRECISION);
    var growth :- CheckedDiv(scaled, storedAi);
    var product :- U128(growth * injected);
    U64(product / TOKEN_PRECISION)
  }

  function CalculateAmountToWithdrawAfterRepay(
    debtValue: u128, depositValue: u128, vaultPrice: u128): Option<u64>
  {
    var diff :- U128(depositValue - debtValue);
    var profit :- U128(diff * LIQUIDATION_PROFIT_PERCENTAGE);
    var withdrawValue :- U128(debtValue + profit / WAD);
    var scaled :- U128(withdrawValue * TOKEN_PRECISION);
    var amount :- CheckedDiv(scaled, vaultPrice);
    U64(amount)
  }

  /** The amount the program withdraws from a position at time `now`. */
  function ChainWithdrawAmount(
    storedAi: u64, rate: u64, lastUpdated: i64, now: i64, injected: u64): Option<u64>
  {
    var currentAi :- Accrue(storedAi, rate, lastUpdated, now);
    CalculateAmountToWithdraw(currentAi, storedAi, injected)
  }

  /** Whole 365-day years; a clock less than a year behind counts as no time at all,
      and one a year or more behind is an error. */
  lemma AnnualizedIsYears(time: i64)
    ensures time >= 0 ==> Annualized(time) ==
                          if time / YEAR <= U32_MAX then Some(time / YEAR) else None
    ensures -YEAR < time < 0 ==> Annualized(time) == Some(0)
    ensures time <= -YEAR ==> Annualized(time) == None
  {
    YearsInSeconds(if time >= 0 then time else 0 - time);
  }

  lemma YearsInSeconds(seconds: nat)
    ensures seconds / 60 / 60 / 24 / 365 == seconds / YEAR
    ensures seconds / YEAR >= 1 <==> seconds >= YEAR
  {
    var hours := seconds / 60 / 60;
    assert hours == seconds / 3600;
    assert hours / 24 == seconds / 86400;
    assert hours / 24 / 365 == seconds / 31536000;
  }

  lemma {:induction false} PowAtLeastBase(base: nat, exponent: nat)
    requires exponent >= 1
    ensures Pow(base, exponent) >= base
    ensures base >= 1 ==> Pow(base, exponent) >= Pow(base, exponent - 1)
  {
    if exponent > 1 {
      PowAtLeastBase(base, exponent - 1);
      if base >= 1 {
        MulMono(1, base, Pow(base, exponent - 1));
      }
    } else {
      assert Pow(base, 0) == 1;
    }
  }

  lemma {:induction false} PowGrows(base: nat, low: nat, high: nat)
    requires base >= 1 && low <= high
    ensures Pow(base, low) <= Pow(base, high)
  {
    if low < high {
      PowGrows(base, low, high - 1);
      PowAtLeastBase(base, high);
    }
  }

  lemma {:induction false} PowOfOne(exponent: nat)
    ensures Pow(1, exponent) == 1
  {
    if exponent > 0 {
      PowOfOne(exponent - 1);
    }
  }

  /** A base of two or more passes 2^64 within 64 steps. */
  lemma {:induction false} PowOutgrows(base: nat, exponent: nat)
    requires base >= 2
    ensures Pow(base, exponent) >= exponent + 1
    ensures exponent >= 64 ==> Pow(base, exponent) > U64_MAX
  {
    if exponent > 0 {
      PowOutgrows(base, exponent - 1);
      MulMono(2, base, Pow(base, exponent - 1));
    }
    if exponent >= 64 {
      PowGrows(base, 64, exponent);
      PowTwoBelow(base, 64);
      assert Pow(2, 64) > U64_MAX by { PowTwo64(); }
    }
  }

  lemma {:induction false} PowTwoBelow(base: nat, exponent: nat)
    requires base >= 2
    ensures Pow(2, exponent) <= Pow(base, exponent)
  {
    if exponent > 0 {
      PowTwoBelow(base, exponent - 1);
      MulMono(2, base, Pow(2, exponent - 1));
      MulMono(Pow(2, exponent - 1), Pow(base, exponent - 1), base);
    }
  }

  lemma {:induction false} PowAdds(base: nat, m: nat, n: nat)
    ensures Pow(base, m + n) == Pow(base, m) * Pow(base, n)
  {
    if m > 0 {
      PowAdds(base, m - 1, n);
      assert Pow(base, m + n) == base * Pow(base, (m - 1) + n);
    }
  }

  lemma PowTwoSquares(half: nat, whole: nat, root: nat)
    requires whole == half + half && Pow(2, half) == root
    ensures Pow(2, whole) == root * root
  {
    PowAdds(2, half, half);
  }

  lemma PowTwo64()
    ensures Pow(2, 64) == U64_MAX + 1
  {
    PowTwoSquares(1, 2, 2);
    PowTwoSquares(2, 4, 4);
    PowTwoSquares(4, 8, 16);
    PowTwoSquares(8, 16, 256);
    PowTwoSquares(16, 32, 65536);
    PowTwoSquares(32, 64, 4294967296);
  }

  /** One accrual never lowers the index, the yearly power branch included. */
  lemma AccrueNeverFalls(previous: u64, rate: u64, lastUpdated: i64, now: i64)
    requires Accrue(previous, rate, lastUpdated, now).Some?
    ensures Accrue(previous, rate, lastUpdated, now).value >= previous
  {
    var scaled := previous * (rate + TOKEN_PRECISION);
    MulMono(TOKEN_PRECISION, rate + TOKEN_PRECISION, previous);
    var years := Annualized(now - lastUpdated).value;
    if years > 0 {
      PowAtLeastBase(scaled / TOKEN_PRECISION, years);
    }
  }

  /** An index and the time it was last written. */
  datatype Index = Index(ai: u64, lastUpdated: i64)

  /** A successful withdrawal stores the new index; a failed one rolls back. */
  function AccrueStep(index: Index, rate: u64, now: i64): Index {
    match Accrue(index.ai, rate, index.lastUpdated, now)
    case None => index
    case Some(ai) => Index(ai, now)
  }

  /** The checks made before the time of the update is written. */
  predicate ReachesClockWrite(previous: u64, rate: u64, lastUpdated: i64, now: i64) {
    && I64(now - lastUpdated).Some?
    && U64(rate + TOKEN_PRECISION).Some?
    && U64(previous * (rate + TOKEN_PRECISION)).Some?
    && Annualized(now - lastUpdated).Some?
  }

  /** The time of an update is written unless the clock is a year or more behind, too many years
      passed, or the first year's product overflows; a failure past it is the yearly power's. */
  lemma ClockWrittenIff(previous: u64, rate: u64, lastUpdated: i64, now: i64)
    ensures ReachesClockWrite(previous, rate, lastUpdated, now)
            <==> && -YEAR < now - lastUpdated <= I64_MAX
                 && (now - lastUpdated) / YEAR <= U32_MAX
                 && previous * (rate + TOKEN_PRECISION) <= U64_MAX
                 && rate + TOKEN_PRECISION <= U64_MAX
    ensures Accrue(previous, rate, lastUpdated, now).Some?
            <==> && ReachesClockWrite(previous, rate, lastUpdated, now)
                 && (now - lastUpdated < YEAR
                     || Pow(previous * (rate + TOKEN_PRECISION) / TOKEN_PRECISION,
                            (now - lastUpdated) / YEAR) <= U64_MAX)
  {
    if I64(now - lastUpdated).Some? {
      AnnualizedIsYears(now - lastUpdated);
    }
    MulMono(0, previous, rate + TOKEN_PRECISION);
  }

  /** The vault's two interest fields. */
  class VaultInterest {
    var accumulatedInterest: u64
    var interestLastUpdated: i64

    function Contents(): Index
      reads this
    {
      Index(accumulatedInterest, interestLastUpdated)
    }

    constructor (now: i64)
      ensures Contents() == Index(TOKEN_PRECISION, now)
    {
      accumulatedInterest, interestLastUpdated := TOKEN_PRECISION, now;
    }

    /** When the yearly power overflows, the time is already written; only the rollback of the
        instruction undoes that. */
    method CalculateAccumulatedInterest(previousAi: u64, rate: u64, now: i64)
      returns (current: Option<u64>)
      modifies this
      ensures current == Accrue(previousAi, rate, old(interestLastUpdated), now)
      ensures current.Some? ==> Contents() == Index(current.value, now)
      ensures current.Some? && previousAi == old(accumulatedInterest) ==>
                Contents() == AccrueStep(old(Contents()), rate, now)
      ensures current.None? ==> accumulatedInterest == old(accumulatedInterest)
      ensures interestLastUpdated
              == if ReachesClockWrite(previousAi, rate, old(interestLastUpdated), now)
                 then now else old(interestLastUpdated)
    {
      var elapsed :- I64(now - interestLastUpdated);
      var ratePlusOne :- U64(rate + TOKEN_PRECISION);
      var scaled :- U64(previousAi * ratePlusOne);
      var next: u64 := scaled / TOKEN_PRECISION;
      var exponent :- Annualized(elapsed);
      interestLastUpdated := now;
      if exponent == 0 {
        accumulatedInterest := next;
        return Some(next);
      }
      var annualized :- U64(Pow(next, exponent));
      accumulatedInterest := annualized;
      current := Some(annualized);
    }
  }

  function AccrueRun(index: Index, steps: seq<(u64, i64)>): Index {
    if |steps| == 0 then index
    else
      var last := steps[|steps| - 1];
      AccrueStep(AccrueRun(index, steps[..|steps| - 1]), last.0, last.1)
  }

  lemma AccrueRunEnds(index: Index, steps: seq<(u64, i64)>, rate: u64, now: i64)
    ensures AccrueRun(index, []) == index
    ensures AccrueRun(index, steps + [(rate, now)])
            == AccrueStep(AccrueRun(index, steps), rate, now)
  {
    var all := steps + [(rate, now)];
    assert all[..|all| - 1] == steps;
  }

  /** Over every run of accruals, at any rates and clock readings, the index never falls. */
  lemma {:induction false} IndexNeverFalls(index: Index, steps: seq<(u64, i64)>)
    ensures AccrueRun(index, steps).ai >= index.ai
  {
    if |steps| > 0 {
      var before := AccrueRun(index, steps[..|steps| - 1]);
      var last := steps[|steps| - 1];
      IndexNeverFalls(index, steps[..|steps| - 1]);
      if Accrue(before.ai, last.0, before.lastUpdated, last.1).Some? {
        AccrueNeverFalls(before.ai, last.0, before.lastUpdated, last.1);
      }
    }
  }

  /** With an index that has not fallen, a withdrawal returns at least the principal and
      at most the exact share, short of it by less than `injected / 10^9 + 1` tokens. */
  lemma WithdrawAmountBounds(currentAi: u64, storedAi: u64, injected: u64)
    requires currentAi >= storedAi
    requires CalculateAmountToWithdraw(currentAi, storedAi, injected).Some?
    ensures var amount := CalculateAmountToWithdraw(currentAi, storedAi, injected).value;
            && amount >= injected
            && amount * storedAi <= currentAi * injected
            && currentAi * injected * TOKEN_PRECISION
               < (amount + 1) * storedAi * TOKEN_PRECISION + injected * storedAi
  {
    var growth := currentAi * TOKEN_PRECISION / storedAi;
    var amount := growth * injected / TOKEN_PRECISION;
    DivBounds(currentAi * TOKEN_PRECISION, storedAi);
    DivBounds(growth * injected, TOKEN_PRECISION);
    DivAtLeast(currentAi * TOKEN_PRECISION, storedAi, TOKEN_PRECISION);
    MulMono(TOKEN_PRECISION, growth, injected);
    ShareBounds(currentAi, storedAi, injected, growth, amount);
  }

  lemma ShareBounds(currentAi: nat, storedAi: nat, injected: nat, growth: nat, amount: nat)
    requires storedAi > 0
    requires growth * storedAi <= currentAi * TOKEN_PRECISION < growth * storedAi + storedAi
    requires amount * TOKEN_PRECISION <= growth * injected
                                      < amount * TOKEN_PRECISION + TOKEN_PRECISION
    ensures amount * storedAi <= currentAi * injected
    ensures currentAi * injected * TOKEN_PRECISION
            < (amount + 1) * storedAi * TOKEN_PRECISION + injected * storedAi
  {
    var exact := currentAi * TOKEN_PRECISION;
    assert exact * injected == currentAi * injected * TOKEN_PRECISION;
    var held := growth * storedAi;
    assert held * injected == (growth * injected) * storedAi;
    MulMono(held, exact, injected);
    MulMono(amount * TOKEN_PRECISION, growth * injected, storedAi);
    assert amount * TOKEN_PRECISION * storedAi == (amount * storedAi) * TOKEN_PRECISION;
    MulMono(exact, held + storedAi, injected);
    assert (held + storedAi) * injected == held * injected + storedAi * injected;
    MulStrict(growth * injected, amount * TOKEN_PRECISION + TOKEN_PRECISION, storedAi);
    assert (amount * TOKEN_PRECISION + TOKEN_PRECISION) * storedAi
        == (amount + 1) * storedAi * TOKEN_PRECISION;
  }

  /** The assertion the program's comment asks for always holds: the amount taken back
      after any run of accruals is never below the amount injected. */
  lemma WithdrawalReturnsPrincipal(
    index: Index, steps: seq<(u64, i64)>, rate: u64, now: i64, injected: u64)
    ensures var stored := AccrueRun(index, steps);
            var amount := ChainWithdrawAmount(stored.ai, rate, stored.lastUpdated, now, injected);
            amount.Some? ==> amount.value >= injected
    ensures var stored := AccrueRun(index, steps);
            var current := Accrue(stored.ai, rate, stored.lastUpdated, now);
            current.Some? && CalculateAmountToWithdraw(current.value, index.ai, injected).Some?
            ==> CalculateAmountToWithdraw(current.value, index.ai, injected).value >= injected
  {
    IndexNeverFalls(index, steps);
    var stored := AccrueRun(index, steps);
    var current := Accrue(stored.ai, rate, stored.lastUpdated, now);
    if current.Some? {
      AccrueNeverFalls(stored.ai, rate, stored.lastUpdated, now);
      if CalculateAmountToWithdraw(current.value, stored.ai, injected).Some? {
        WithdrawAmountBounds(current.value, stored.ai, injected);
      }
      if CalculateAmountToWithdraw(current.value, index.ai, injected).Some? {
        WithdrawAmountBounds(current.value, index.ai, injected);
      }
    }
  }

  // ----- the life of a vault's index -----

  /** What initialisation sets and no instruction changes. */
  const INTEREST_RATE: int := 50000000
  const INITIAL_INDEX: int := 1000000000
  const GROWTH: int := 1050000000

  function NextIndex(ai: nat): nat {
    ai * GROWTH / TOKEN_PRECISION
  }

  /** The clock is less than a year behind the last accrual and less than two years past it. */
  predicate InWindow(lastUpdated: i64, now: i64) {
    -YEAR < now - lastUpdated < 2 * YEAR
  }

  predicate HasRoom(ai: nat) {
    ai * GROWTH <= U64_MAX
  }

  /** At the vault's rate, from any index it can hold, a withdrawal's amount exists exactly in
      that window, while the index still has room, and when the amount fits a u64. It is then
      at most 105% of the principal, and every success raises the index by 5%. */
  lemma WithdrawalExists(ai: u64, lastUpdated: i64, now: i64, injected: u64)
    requires ai >= INITIAL_INDEX
    ensures Accrue(ai, INTEREST_RATE, lastUpdated, now).Some?
            && InWindow(lastUpdated, now) ==>
              Accrue(ai, INTEREST_RATE, lastUpdated, now).value == NextIndex(ai)
    ensures ChainWithdrawAmount(ai, INTEREST_RATE, lastUpdated, now, injected).Some?
            <==> && InWindow(lastUpdated, now) && HasRoom(ai)
                 && CalculateAmountToWithdraw(NextIndex(ai), ai, injected).Some?
    ensures var amount := ChainWithdrawAmount(ai, INTEREST_RATE, lastUpdated, now, injected);
            amount.Some? ==>
              && amount == CalculateAmountToWithdraw(NextIndex(ai), ai, injected)
              && 100 * amount.value <= 105 * injected
  {
    if InWindow(lastUpdated, now) {
      WindowAccrual(ai, lastUpdated, now);
      if HasRoom(ai) && CalculateAmountToWithdraw(NextIndex(ai), ai, injected).Some? {
        AtMostFivePercent(ai, injected);
      }
    } else if Accrue(ai, INTEREST_RATE, lastUpdated, now).Some? {
      LateIndexTooLarge(ai, lastUpdated, now);
    }
  }

  lemma WindowAccrual(ai: u64, lastUpdated: i64, now: i64)
    requires InWindow(lastUpdated, now)
    ensures Accrue(ai, INTEREST_RATE, lastUpdated, now)
            == if HasRoom(ai) then Some(NextIndex(ai)) else None
  {
    assert I64(now - lastUpdated) == Some(now - lastUpdated);
    AnnualizedIsYears(now - lastUpdated);
    var years := Annualized(now - lastUpdated).value;
    assert years == 0 || years == 1;
    assert U64(INTEREST_RATE + TOKEN_PRECISION) == Some(GROWTH);
    PowOne(NextIndex(ai));
  }

  lemma PowOne(base: nat)
    ensures Pow(base, 1) == base
  {
    assert Pow(base, 1) == base * Pow(base, 0);
  }

  lemma AtMostFivePercent(ai: u64, injected: u64)
    requires ai > 0 && HasRoom(ai)
    requires CalculateAmountToWithdraw(NextIndex(ai), ai, injected).Some?
    ensures 100 * CalculateAmountToWithdraw(NextIndex(ai), ai, injected).value <= 105 * injected
  {
    var growth := NextIndex(ai) * TOKEN_PRECISION / ai;
    DivBounds(NextIndex(ai) * TOKEN_PRECISION, ai);
    DivBounds(ai * GROWTH, TOKEN_PRECISION);
    assert growth * ai <= GROWTH * ai;
    MulCancelLe(growth, GROWTH, ai);
    MulMono(growth, GROWTH, injected);
    DivBounds(growth * injected, TOKEN_PRECISION);
  }

  lemma LateIndexTooLarge(ai: u64, lastUpdated: i64, now: i64)
    requires ai >= INITIAL_INDEX && !InWindow(lastUpdated, now)
    requires Accrue(ai, INTEREST_RATE, lastUpdated, now).Some?
    ensures Accrue(ai, INTEREST_RATE, lastUpdated, now).value * TOKEN_PRECISION > U64_MAX
  {
    var next := NextIndex(ai);
    var years := Annualized(now - lastUpdated).value;
    AnnualizedIsYears(now - lastUpdated);
    assert years >= 2;
    assert next >= INITIAL_INDEX;
    PowGrows(next, 2, years);
    PowOne(next);
    assert Pow(next, 2) == next * Pow(next, 1);
    MulMono(INITIAL_INDEX, next, next);
  }

  /** One attempt to withdraw: a failed one rolls the accrual back. */
  datatype Attempt = Attempt(now: i64, injected: u64)

  predicate Succeeds(index: Index, a: Attempt) {
    ChainWithdrawAmount(index.ai, INTEREST_RATE, index.lastUpdated, a.now, a.injected).Some?
  }

  function AttemptStep(index: Index, a: Attempt): Index {
    if Succeeds(index, a) then AccrueStep(index, INTEREST_RATE, a.now) else index
  }

  function Attempts(index: Index, attempts: seq<Attempt>): Index {
    if |attempts| == 0 then index
    else AttemptStep(Attempts(index, attempts[..|attempts| - 1]), attempts[|attempts| - 1])
  }

  function Successes(index: Index, attempts: seq<Attempt>): nat {
    if |attempts| == 0 then 0
    else
      var earlier, last := attempts[..|attempts| - 1], attempts[|attempts| - 1];
      Successes(index, earlier) + (if Succeeds(Attempts(index, earlier), last) then 1 else 0)
  }

  /** Two years without a withdrawal and no position of the vault can be withdrawn from again,
      whatever was injected. */
  lemma {:induction false} TwoYearsLock(index: Index, attempts: seq<Attempt>)
    requires index.ai >= INITIAL_INDEX
    requires forall a <- attempts :: a.now >= index.lastUpdated + 2 * YEAR
    ensures Attempts(index, attempts) == index && Successes(index, attempts) == 0
  {
    if |attempts| > 0 {
      var last := attempts[|attempts| - 1];
      TwoYearsLock(index, attempts[..|attempts| - 1]);
      WithdrawalExists(index.ai, index.lastUpdated, last.now, last.injected);
    }
  }

  /** The index after a number of withdrawals. */
  function Compounded(n: nat): nat {
    if n == 0 then INITIAL_INDEX else NextIndex(Compounded(n - 1))
  }

  const LIFETIME: nat := 59

  /** Five percent more, truncated. */
  lemma CompoundedStep(n: nat)
    ensures Compounded(n + 1) == Compounded(n) * 105 / 100
  {
    FivePercent(Compounded(n));
  }

  lemma FivePercent(ai: nat)
    ensures NextIndex(ai) == ai * 105 / 100
  {
  }

  lemma {:induction false} CompoundedGrows(m: nat, n: nat)
    requires m <= n
    ensures INITIAL_INDEX <= Compounded(m) <= Compounded(n)
  {
    if m < n {
      CompoundedGrows(m, n - 1);
    } else if 0 < n {
      CompoundedGrows(m - 1, n - 1);
    }
  }

  lemma FiveMore(n: nat, a: nat, b: nat, c: nat, d: nat, e: nat)
    requires NextIndex(Compounded(n)) == a && NextIndex(a) == b && NextIndex(b) == c
    requires NextIndex(c) == d && NextIndex(d) == e
    ensures Compounded(n + 3) == c && Compounded(n + 4) == d && Compounded(n + 5) == e
  {
    assert Compounded(n + 1) == a;
    assert Compounded(n + 2) == b;
  }

  lemma FirstFifteen(n: nat)
    requires Compounded(n) == 1000000000
    ensures Compounded(n + 15) == 2078928174
  {
    FiveMore(n, 1050000000, 1102500000, 1157625000, 1215506250, 1276281562);
    FiveMore(n + 5, 1340095640, 1407100422, 1477455443, 1551328215, 1628894625);
    FiveMore(n + 10, 1710339356, 1795856323, 1885649139, 1979931595, 2078928174);
  }

  lemma SecondFifteen(n: nat)
    requires Compounded(n) == 2078928174
    ensures Compounded(n + 15) == 4321942355
  {
    FiveMore(n, 2182874582, 2292018311, 2406619226, 2526950187, 2653297696);
    FiveMore(n + 5, 2785962580, 2925260709, 3071523744, 3225099931, 3386354927);
    FiveMore(n + 10, 3555672673, 3733456306, 3920129121, 4116135577, 4321942355);
  }

  lemma ThirdFifteen(n: nat)
    requires Compounded(n) == 4321942355
    ensures Compounded(n + 15) == 8985007740
  {
    FiveMore(n, 4538039472, 4764941445, 5003188517, 5253347942, 5516015339);
    FiveMore(n + 5, 5791816105, 6081406910, 6385477255, 6704751117, 7039988672);
    FiveMore(n + 10, 7391988105, 7761587510, 8149666885, 8557150229, 8985007740);
  }

  lemma LastFifteen(n: nat)
    requires Compounded(n) == 8985007740
    ensures Compounded(n + 13) == 16942572133 && Compounded(n + 14) == 17789700739
  {
    FiveMore(n, 9434258127, 9905971033, 10401269584, 10921333063, 11467399716);
    FiveMore(n + 5, 12040769701, 12642808186, 13274948595, 13938696024, 14635630825);
    FiveMore(n + 10, 15367412366, 16135782984, 16942572133, 17789700739, 18679185775);
  }

  /** The index has room for 59 withdrawals and no more. */
  lemma LifetimeIsExact(done: nat)
    requires done <= LIFETIME
    ensures HasRoom(Compounded(done)) <==> done < LIFETIME
  {
    var start := done - done;
    FirstFifteen(start);
    SecondFifteen(start + 15);
    ThirdFifteen(start + 30);
    LastFifteen(start + 45);
    if done < LIFETIME {
      CompoundedGrows(done, start + 58);
    }
  }

  lemma {:induction false} AttemptsCompound(start: i64, attempts: seq<Attempt>)
    ensures Attempts(Index(INITIAL_INDEX, start), attempts).ai
            == Compounded(Successes(Index(INITIAL_INDEX, start), attempts))
  {
    if |attempts| > 0 {
      var index := Index(INITIAL_INDEX, start);
      var earlier, last := attempts[..|attempts| - 1], attempts[|attempts| - 1];
      AttemptsCompound(start, earlier);
      var before := Attempts(index, earlier);
      CompoundedGrows(0, Successes(index, earlier));
      WithdrawalExists(before.ai, before.lastUpdated, last.now, last.injected);
    }
  }

  /** Over the whole life of a vault, all its positions together, at most 59 withdrawals
      succeed. Until then an attempt succeeds exactly in the window and when its amount fits. */
  lemma {:induction false} WithdrawalsRunOut(start: i64, attempts: seq<Attempt>, next: Attempt)
    ensures var index := Attempts(Index(INITIAL_INDEX, start), attempts);
            var done := Successes(Index(INITIAL_INDEX, start), attempts);
            && done <= LIFETIME && (done < LIFETIME <==> HasRoom(index.ai))
            && (Succeeds(index, next)
                <==> && InWindow(index.lastUpdated, next.now) && HasRoom(index.ai)
                     && CalculateAmountToWithdraw(NextIndex(index.ai), index.ai,
                                                  next.injected).Some?)
  {
    var first := Index(INITIAL_INDEX, start);
    var index, done := Attempts(first, attempts), Successes(first, attempts);
    if |attempts| > 0 {
      WithdrawalsRunOut(start, attempts[..|attempts| - 1], attempts[|attempts| - 1]);
    }
    assert done <= LIFETIME;
    AttemptsCompound(start, attempts);
    CompoundedGrows(0, done);
    LifetimeIsExact(done);
    WithdrawalExists(index.ai, index.lastUpdated, next.now, next.injected);
  }
}

/** What holds of the vault over whole runs, for every holder. */
module VaultRuns {
  import opened FixedPoint
  import opened Errors
  import opened VaultShares
  import opened VaultLedger

  /** What `shares` would redeem for, ignoring word sizes. */
  function Claim(pool: Pool, shares: u64): nat {
    if pool.M() == 0 then 0
    else
      DivNonNegative(shares * pool.N(), pool.M());
      shares * pool.N() / pool.M()
  }

  function TotalClaims(pool: Pool, shares: seq<u64>): nat {
    if |shares| == 0 then 0
    else TotalClaims(pool, shares[..|shares| - 1]) + Claim(pool, shares[|shares| - 1])
  }

  predicate Solvent(p: Params, l: Ledger) {
    TotalClaims(l.Pool(p), l.shares) <= l.assets
  }

  /** The assets are a preview's price for burning the shares. */
  predicate PaysOut(p: Params, l: Ledger, assets: u64, shares: u64) {
    PricesWithdrawal(l.Pool(p), assets, shares)
  }

  /** A successful redeem preview of held shares is the claim. */
  lemma PreviewIsClaim(p: Params, l: Ledger, holder: nat)
    requires holder < |l.shares| && Conserved(l)
    requires ConvertToAssetsFloor(l.shares[holder], l.Pool(p)).Ok?
    ensures ConvertToAssetsFloor(l.shares[holder], l.Pool(p)).value
            == Claim(l.Pool(p), l.shares[holder])
  {
    SumAtLeast(l.shares, holder);
    var pool, held := l.Pool(p), l.shares[holder];
    if pool.Priced() {
      ConvertBounds(held, pool, false, false);
      FloorGreatest(held * pool.N(), pool.M(), ConvertToAssetsFloor(held, pool).value);
      FloorGreatest(held * pool.N(), pool.M(), ConvertToAssetsFloor(held, pool).value + 1);
    } else if pool.M() > 0 {
      assert held == 0 && 0 * pool.N() == 0;
    }
  }

  lemma {:induction false} ClaimsWithinShare(pool: Pool, shares: seq<u64>)
    requires pool.M() > 0
    ensures TotalClaims(pool, shares) * pool.M() <= Sum(shares) * pool.N()
  {
    if |shares| > 0 {
      var rest, last := shares[..|shares| - 1], shares[|shares| - 1];
      ClaimsWithinShare(pool, rest);
      DivBounds(last * pool.N(), pool.M());
      AddBounds(TotalClaims(pool, rest), Claim(pool, last), pool.M(), Sum(rest), last, pool.N());
    }
  }

  lemma AddBounds(a: nat, b: nat, m: nat, s: nat, t: nat, n: nat)
    requires a * m <= s * n && b * m <= t * n
    ensures (a + b) * m <= (s + t) * n
  {
  }

  lemma {:induction false} NoClaims(pool: Pool, shares: seq<u64>)
    requires pool.M() == 0
    ensures TotalClaims(pool, shares) == 0
  {
    if |shares| > 0 {
      NoClaims(pool, shares[..|shares| - 1]);
    }
  }

  lemma BackedIsSolvent(p: Params, l: Ledger)
    requires Conserved(l) && Backed(p, l)
    ensures Solvent(p, l)
  {
    var pool := l.Pool(p);
    if pool.M() == 0 {
      NoClaims(pool, l.shares);
    } else {
      ClaimsWithinShare(pool, l.shares);
      ClaimWithinAssets(l.assets, l.supply, p.virtualAssets, p.virtualShares,
                        TotalClaims(pool, l.shares), l.supply);
    }
  }

  lemma {:induction false} RunKeepsValid(p: Params, l: Ledger, ops: seq<Op>)
    requires forall op <- ops :: ActsFor(op, |l.shares|)
    requires Sound(p) && Conserved(l) && Backed(p, l)
    ensures Conserved(Run(p, l, ops)) && Backed(p, Run(p, l, ops))
  {
    if |ops| > 0 {
      var earlier := ops[..|ops| - 1];
      RunKeepsValid(p, l, earlier);
      StepKeepsValid(p, Run(p, l, earlier), ops[|ops| - 1]);
    }
  }

  /** With sound offsets, every run of a new vault leaves the holders' redeemable total
      within the managed assets, and no payout for held shares fails its last subtraction. */
  lemma EveryRunIsSolvent(p: Params, holders: nat, ops: seq<Op>)
    requires Sound(p)
    requires forall op <- ops :: ActsFor(op, holders)
    ensures var l := Run(p, NewLedger(holders, 0), ops);
            && Conserved(l) && Solvent(p, l)
            && forall h: nat, x: u64, s: u64 | h < holders && PricesWithdrawal(l.Pool(p), x, s) ::
                 Debit(l, h, x, s) != Err(Overflow)
  {
    NewLedgerHolds(p, holders, 0);
    var l := Run(p, NewLedger(holders, 0), ops);
    RunKeepsValid(p, NewLedger(holders, 0), ops);
    BackedIsSolvent(p, l);
    forall h: nat, x: u64, s: u64 | h < holders && PricesWithdrawal(l.Pool(p), x, s)
      ensures Debit(l, h, x, s) != Err(Overflow)
    {
      PayoutCovered(p, l, h, x, s);
    }
  }

  /** With virtual assets and no virtual shares, every first deposit makes the vault
      insolvent: the depositor's shares claim the virtual assets as well, and redeeming
      them all fails. */
  lemma FirstDepositBreaksSolvency(
    p: Params, holders: nat, idle: u64, holder: nat, wallet: u64, assetsIn: u64, minOut: u64)
    requires !Sound(p) && holder < holders
    requires Deposit(p, NewLedger(holders, idle), holder, wallet, assetsIn, minOut).Ok?
    ensures var l := Deposit(p, NewLedger(holders, idle), holder, wallet, assetsIn, minOut).value;
            && Claim(l.Pool(p), l.shares[holder]) == l.assets + p.virtualAssets
            && !Solvent(p, l)
            && forall min: u64 :: Redeem(p, l, holder, l.shares[holder], min).Err?
  {
    var l := Deposit(p, NewLedger(holders, idle), holder, wallet, assetsIn, minOut).value;
    var pool := l.Pool(p);
    assert l.assets == l.supply == l.shares[holder] == assetsIn;
    assert assetsIn * pool.N() == pool.N() * assetsIn;
    CancelDivision(pool.N(), assetsIn);
    ClaimCounted(pool, l.shares, holder);
  }

  lemma {:induction false} ClaimCounted(pool: Pool, shares: seq<u64>, i: nat)
    requires i < |shares|
    ensures Claim(pool, shares[i]) <= TotalClaims(pool, shares)
  {
    if i < |shares| - 1 {
      assert shares[..|shares| - 1][i] == shares[i];
      ClaimCounted(pool, shares[..|shares| - 1], i);
    }
  }

  /** A vault whose offsets are sound, and only such a vault, is solvent after every run. */
  lemma SolvencyExactlyWhenSound(p: Params, holders: nat, wallet: u64)
    requires holders > 0
    requires 0 < wallet && p.minDeposit <= wallet <= p.depositCap
    ensures Sound(p)
            <==> forall ops: seq<Op> | forall op <- ops :: ActsFor(op, holders) ::
                   Solvent(p, Run(p, NewLedger(holders, 0), ops))
  {
    if Sound(p) {
      forall ops: seq<Op> | forall op <- ops :: ActsFor(op, holders)
        ensures Solvent(p, Run(p, NewLedger(holders, 0), ops))
      {
        EveryRunIsSolvent(p, holders, ops);
      }
    } else {
      var l := NewLedger(holders, 0);
      var op := DepositOp(0, wallet, wallet, 0);
      var ops := [op];
      assert ops[..0] == [];
      assert Run(p, l, ops[..0]) == l;
      assert Run(p, l, ops) == Step(p, l, op);
      FirstDepositBreaksSolvency(p, holders, 0, 0, wallet, wallet, 0);
    }
  }

  /** Whatever the offsets, as long as they are sound: while no run prefix leaves the vault
      without a share, virtual ones included, the ratio never falls. */
  lemma {:induction false} RatioNeverFalls(p: Params, l: Ledger, ops: seq<Op>)
    requires forall op <- ops :: ActsFor(op, |l.shares|)
    requires Sound(p)
    requires forall k | 0 < k < |ops| :: Run(p, l, ops[..k]).Pool(p).M() > 0
    ensures RatioAtMost(l.Pool(p), Run(p, l, ops).Pool(p))
  {
    if |ops| > 0 {
      var n := |ops| - 1;
      var middle := Run(p, l, ops[..n]);
      var after := Run(p, l, ops);
      forall k | 0 < k < n ensures Run(p, l, ops[..n][..k]).Pool(p).M() > 0 {
        assert ops[..n][..k] == ops[..k];
      }
      RatioNeverFalls(p, l, ops[..n]);
      StepKeepsRatio(p, middle, ops[n]);
      if n == 0 {
        assert ops[..n] == [];
      } else {
        RatioChains(l.Pool(p).N(), l.Pool(p).M(), middle.Pool(p).N(), middle.Pool(p).M(),
                    after.Pool(p).N(), after.Pool(p).M());
      }
    }
  }

  /** A pool with assets and no share at all answers no conversion. */
  lemma StrandedPool(pool: Pool, amount: u64)
    requires pool.M() == 0 && pool.assets > 0
    ensures ConvertToSharesFloor(amount, pool).Err? && ConvertToSharesCeil(amount, pool).Err?
    ensures ConvertToAssetsFloor(amount, pool).Err? && ConvertToAssetsCeil(amount, pool).Err?
  {
    ConvertErrors(amount, pool, true, false);
    ConvertErrors(amount, pool, false, false);
    ConvertErrors(amount, pool, true, true);
    ConvertErrors(amount, pool, false, true);
  }

  lemma StrandedVault(p: Params, l: Ledger, op: Op)
    requires ActsFor(op, |l.shares|) && l.Pool(p).M() == 0 && l.assets > 0
    ensures !op.Gain? && !op.Idle? ==> Outcome(p, l, op).Err?
    ensures Step(p, l, op).supply == 0 && Step(p, l, op).assets > 0
  {
    match op
    case DepositOp(_, _, x, _) => StrandedPool(l.Pool(p), x);
    case MintOp(_, _, s, _) => StrandedPool(l.Pool(p), s);
    case RedeemOp(_, s, _) => StrandedPool(l.Pool(p), s);
    case WithdrawOp(_, x, _) => StrandedPool(l.Pool(p), x);
    case Gain(_) =>
    case Idle(_) =>
  }

  /** Only a vault without offsets can be left without a share. What it still manages decides
      its future: nothing, and the next accepted deposit starts again at one token a share;
      something, and no operation is accepted any more. */
  lemma EmptiedVault(p: Params, l: Ledger, op: Op)
    requires ActsFor(op, |l.shares|) && Sound(p) && l.Pool(p).M() == 0
    ensures p.virtualAssets == p.virtualShares == l.supply == 0
    ensures l.assets == 0 && Step(p, l, op).supply > 0 ==>
              Step(p, l, op).assets == Step(p, l, op).supply
    ensures l.assets > 0 && !op.Gain? && !op.Idle? ==> Outcome(p, l, op).Err?
    ensures l.assets > 0 ==> Step(p, l, op).supply == 0 && Step(p, l, op).assets > 0
  {
    if l.assets > 0 {
      StrandedVault(p, l, op);
    } else {
      EmptyVaultRestarts(p, l, op);
    }
  }

  lemma EmptyVaultRestarts(p: Params, l: Ledger, op: Op)
    requires ActsFor(op, |l.shares|) && l.Pool(p).N() == l.Pool(p).M() == 0
    ensures Step(p, l, op).supply > 0 ==> Step(p, l, op).assets == Step(p, l, op).supply
  {
    var assets, shares := StepMoves(p, l, op);
    if shares > 0 {
      ParityDeposit(l.Pool(p), assets, shares);
    }
  }

  /** And a withdrawal can strand it: after a gain, one token less than everything still costs
      every share, rounded up, and the token left behind locks the vault. */
  lemma WithdrawalStrands(p: Params, x: u64)
    requires p.virtualAssets == p.virtualShares == 0 && 0 < x && x + x <= U64_MAX
    ensures Step(p, Ledger(x + x, x, [x], x + x), WithdrawOp(0, x + x - 1, x))
            == Ledger(1, 0, [0], 1)
  {
    var l := Ledger(x + x, x, [x], x + x);
    assert ConvertToSharesCeil(x + x - 1, l.Pool(p)) == Ok(x) by {
      AlmostAllCostsAll(l.Pool(p), x);
    }
    WithdrawAllShares(p, l, x + x - 1, x);
  }

  lemma WithdrawAllShares(p: Params, l: Ledger, taken: u64, x: u64)
    requires l.shares == [x] && l.supply == x && l.assets == l.idle == taken + 1
    requires 0 < taken && 0 < x && ConvertToSharesCeil(taken, l.Pool(p)) == Ok(x)
    ensures Step(p, l, WithdrawOp(0, taken, x)) == Ledger(1, 0, [0], 1)
  {
    assert [x][0 := 0] == [0];
  }

  lemma AlmostAllCostsAll(pool: Pool, x: u64)
    requires pool == Pool(x + x, x, 0, 0) && 0 < x && x + x <= U64_MAX
    ensures ConvertToSharesCeil(x + x - 1, pool) == Ok(x)
  {
    var taken := x + x - 1;
    AlmostAllRounds(taken, x);
    ScaledFits(taken, x, x + x);
  }

  lemma AlmostAllRounds(taken: u64, x: u64)
    requires taken == x + x - 1 && 0 < x
    ensures 0 <= taken * x <= U128_MAX && CeilDiv(taken * x, x + x) == x
  {
    assert 0 <= taken * x <= U128_MAX by {
      MulMono(x, U64_MAX, taken);
      MulMono(taken, U64_MAX, U64_MAX);
      MulMono(0, taken, x);
    }
    var product := taken * x;
    assert product == x * x + x * x - x;
    assert x * (x + x) == x * x + x * x && (x - 1) * (x + x) == x * x + x * x - x - x;
    CeilLeast(product, x + x, x);
    CeilLeast(product, x + x, x - 1);
  }

  /** From one token a share or better, no step of a vault without offsets falls below it. */
  predicate AtLeastPar(l: Ledger) {
    l.supply <= l.assets
  }

  lemma ParStep(p: Params, l: Ledger, op: Op)
    requires ActsFor(op, |l.shares|) && p.virtualAssets == p.virtualShares == 0 && AtLeastPar(l)
    ensures AtLeastPar(Step(p, l, op))
  {
    var next := Step(p, l, op);
    if l.supply == 0 {
      EmptiedVault(p, l, op);
    } else {
      StepKeepsRatio(p, l, op);
      StaysAtPar(l.assets, l.supply, next.assets, next.supply);
    }
  }

  lemma StaysAtPar(assets: nat, supply: nat, assetsAfter: nat, supplyAfter: nat)
    requires 0 < supply <= assets && assets * supplyAfter <= assetsAfter * supply
    ensures supplyAfter <= assetsAfter
  {
    MulMono(supply, assets, supplyAfter);
    MulCancelLe(supplyAfter, assetsAfter, supply);
  }

  lemma {:induction false} ParRun(p: Params, l: Ledger, ops: seq<Op>)
    requires forall op <- ops :: ActsFor(op, |l.shares|)
    requires p.virtualAssets == p.virtualShares == 0 && AtLeastPar(l)
    ensures AtLeastPar(Run(p, l, ops))
  {
    if |ops| > 0 {
      ParRun(p, l, ops[..|ops| - 1]);
      ParStep(p, Run(p, l, ops[..|ops| - 1]), ops[|ops| - 1]);
    }
  }

  lemma FirstDepositAtPar(
    p: Params, l: Ledger, holder: nat, wallet: u64, x: u64, min: u64, after: Ledger)
    requires Sound(p) && holder < |l.shares| && l.Pool(p).M() == 0
    requires Deposit(p, l, holder, wallet, x, min) == Ok(after)
    ensures p.virtualAssets == p.virtualShares == 0
    ensures after.assets == after.supply == x > 0
  {
    var shares := DepositPriced(p, l, holder, wallet, x, min, after);
    UnsharedPool(l.Pool(p), x);
  }

  lemma DepositPriced(
    p: Params, l: Ledger, holder: nat, wallet: u64, x: u64, min: u64, after: Ledger)
    returns (shares: u64)
    requires holder < |l.shares| && Deposit(p, l, holder, wallet, x, min) == Ok(after)
    ensures ConvertToSharesFloor(x, l.Pool(p)) == Ok(shares) && x > 0
    ensures after.assets == l.assets + x && after.supply == l.supply + shares
  {
    shares := ConvertToSharesFloor(x, l.Pool(p)).value;
  }

  lemma UnsharedPool(pool: Pool, x: u64)
    requires SoundOffsets(pool.virtualAssets, pool.virtualShares) && pool.M() == 0
    requires ConvertToSharesFloor(x, pool).Ok?
    ensures pool.assets == 0 && ConvertToSharesFloor(x, pool) == Ok(x)
  {
    assert pool.assets == 0 by {
      if pool.assets > 0 { StrandedPool(pool, x); }
    }
    EmptyPoolPays(pool, x);
  }

  lemma EmptyPoolPays(pool: Pool, x: u64)
    requires pool.N() == pool.M() == 0
    ensures ConvertToSharesFloor(x, pool) == Ok(x)
  {
  }

  /** Emptying the vault is the only way its ratio falls, and it then falls exactly to the
      ratio of a vault that was emptied: one token a share at its next first deposit. So a
      vault above par that is emptied and used again has lost its ratio for certain, and one
      at or below par never loses it. */
  lemma RatioAfterReset(p: Params, l: Ledger, ops: seq<Op>, holder: nat, wallet: u64, x: u64, min: u64)
    requires forall op <- ops :: ActsFor(op, |l.shares|)
    requires Sound(p) && l.supply > 0 && holder < |l.shares|
    requires Run(p, l, ops).Pool(p).M() == 0
    requires Deposit(p, Run(p, l, ops), holder, wallet, x, min).Ok?
    ensures p.virtualAssets == p.virtualShares == 0
    ensures var after := Deposit(p, Run(p, l, ops), holder, wallet, x, min).value;
            && after.assets == after.supply == x > 0
            && (RatioAtMost(l.Pool(p), after.Pool(p)) <==> l.assets <= l.supply)
  {
    var after := Deposit(p, Run(p, l, ops), holder, wallet, x, min).value;
    FirstDepositAtPar(p, Run(p, l, ops), holder, wallet, x, min, after);
    ParRatio(p, l, after);
  }

  lemma ParRatio(p: Params, l: Ledger, after: Ledger)
    requires p.virtualAssets == p.virtualShares == 0 && after.assets == after.supply > 0
    ensures RatioAtMost(l.Pool(p), after.Pool(p)) <==> l.assets <= l.supply
  {
    if l.assets <= l.supply {
      MulMono(l.assets, l.supply, after.supply);
    } else {
      MulStrict(l.supply, l.assets, after.supply);
    }
  }

  /** Over every run with sound offsets, whatever happens in between, a vault that still has
      shares keeps its ratio or stands at par or better. */
  lemma {:induction false} RatioFloor(p: Params, l: Ledger, ops: seq<Op>)
    requires forall op <- ops :: ActsFor(op, |l.shares|)
    requires Sound(p) && l.Pool(p).M() > 0
    ensures var end := Run(p, l, ops);
            || RatioAtMost(l.Pool(p), end.Pool(p))
            || (p.virtualAssets == p.virtualShares == 0 && AtLeastPar(end))
  {
    if k :| 0 < k < |ops| && Run(p, l, ops[..k]).Pool(p).M() == 0 {
      var empty := Run(p, l, ops[..k]);
      assert p.virtualShares == 0 && empty.supply == 0;
      RunSplits(p, l, ops, k);
      ParRun(p, empty, ops[k..]);
    } else {
      RatioNeverFalls(p, l, ops);
    }
  }

  lemma {:induction false} RunSplits(p: Params, l: Ledger, ops: seq<Op>, k: nat)
    requires forall op <- ops :: ActsFor(op, |l.shares|)
    requires k <= |ops|
    ensures Run(p, l, ops) == Run(p, Run(p, l, ops[..k]), ops[k..])
  {
    if k == |ops| {
      assert ops[..k] == ops;
    } else {
      var n := |ops| - 1;
      RunSplits(p, l, ops[..n], k);
      assert ops[..n][..k] == ops[..k];
      assert ops[..n][k..] == ops[k..][..n - k];
      assert ops[k..][n - k] == ops[n];
    }
  }

  /** Every vault without offsets has runs that lose a ratio of two: a gain doubles what a
      share is worth, the only holder redeems everything and deposits again. */
  lemma ResetLosesRatio(p: Params, x: u64, build: seq<Op>, reset: seq<Op>)
    requires p.virtualAssets == p.virtualShares == 0
    requires 0 < x && p.minDeposit <= x <= p.depositCap && x + x <= U64_MAX
    requires build == [DepositOp(0, x, x, 0), Gain(x), Idle(x + x)]
    requires reset == [RedeemOp(0, x, 0), DepositOp(0, x, x, 0)]
    ensures var rich := Run(p, NewLedger(1, 0), build);
            var after := Run(p, rich, reset);
            && rich == Ledger(x + x, x, [x], x + x)
            && after == Ledger(x, x, [x], x)
            && !RatioAtMost(rich.Pool(p), after.Pool(p))
  {
    RichRun(p, x, build);
    var rich, after := Ledger(x + x, x, [x], x + x), Ledger(x, x, [x], x);
    ResetRun(p, x, rich, reset);
    ParRatio(p, rich, after);
  }

  lemma RichRun(p: Params, x: u64, build: seq<Op>)
    requires p.virtualAssets == p.virtualShares == 0
    requires 0 < x && p.minDeposit <= x <= p.depositCap && x + x <= U64_MAX
    requires build == [DepositOp(0, x, x, 0), Gain(x), Idle(x + x)]
    ensures Run(p, NewLedger(1, 0), build) == Ledger(x + x, x, [x], x + x)
  {
    var start := NewLedger(1, 0);
    assert start == Ledger(0, 0, [0], 0);
    RunThree(p, start, build);
    FirstDeposit(p, start, x);
    GainThenIdle(p, Ledger(x, x, [x], x), x);
  }

  lemma ResetRun(p: Params, x: u64, rich: Ledger, reset: seq<Op>)
    requires p.virtualAssets == p.virtualShares == 0
    requires 0 < x && p.minDeposit <= x <= p.depositCap && x + x <= U64_MAX
    requires rich == Ledger(x + x, x, [x], x + x)
    requires reset == [RedeemOp(0, x, 0), DepositOp(0, x, x, 0)]
    ensures Run(p, rich, reset) == Ledger(x, x, [x], x)
  {
    RunTwo(p, rich, reset);
    EmptiedAndRefilled(p, rich, x);
  }

  lemma GainThenIdle(p: Params, one: Ledger, x: u64)
    requires one == Ledger(x, x, [x], x) && x + x <= U64_MAX
    ensures Step(p, Step(p, one, Gain(x)), Idle(x + x)) == Ledger(x + x, x, [x], x + x)
  {
    GainAndIdle(p, one, x, 0);
    GainAndIdle(p, Ledger(x + x, x, [x], x), 0, x + x);
  }

  lemma GainAndIdle(p: Params, l: Ledger, delta: u64, amount: u64)
    requires l.assets + delta <= U128_MAX
    ensures Step(p, l, Gain(delta)) == l.(assets := l.assets + delta)
    ensures Step(p, l, Idle(amount)) == l.(idle := amount)
  {
  }

  lemma EmptiedAndRefilled(p: Params, rich: Ledger, x: u64)
    requires p.virtualAssets == p.virtualShares == 0
    requires 0 < x && p.minDeposit <= x <= p.depositCap && x + x <= U64_MAX
    requires rich == Ledger(x + x, x, [x], x + x)
    ensures Step(p, Step(p, rich, RedeemOp(0, x, 0)), DepositOp(0, x, x, 0)) == Ledger(x, x, [x], x)
  {
    assert Step(p, rich, RedeemOp(0, x, 0)) == Ledger(0, 0, [0], 0) by { RedeemAll(p, x); }
    FirstDeposit(p, Ledger(0, 0, [0], 0), x);
  }

  lemma RunTwo(p: Params, l: Ledger, ops: seq<Op>)
    requires |ops| == 2 && forall op <- ops :: ActsFor(op, |l.shares|)
    ensures Run(p, l, ops) == Step(p, Step(p, l, ops[0]), ops[1])
  {
    assert ops[..1][..0] == [];
    assert Run(p, l, ops[..1][..0]) == l;
    assert Run(p, l, ops[..1]) == Step(p, l, ops[0]);
  }

  lemma RunThree(p: Params, l: Ledger, ops: seq<Op>)
    requires |ops| == 3 && forall op <- ops :: ActsFor(op, |l.shares|)
    ensures Run(p, l, ops) == Step(p, Step(p, Step(p, l, ops[0]), ops[1]), ops[2])
  {
    RunTwo(p, l, ops[..2]);
  }

  lemma RedeemAll(p: Params, x: u64)
    requires p.virtualAssets == p.virtualShares == 0 && 0 < x && x + x <= U64_MAX
    ensures Step(p, Ledger(x + x, x, [x], x + x), RedeemOp(0, x, 0)) == Ledger(0, 0, [0], 0)
  {
    var l := Ledger(x + x, x, [x], x + x);
    assert x * (x + x) <= U128_MAX by { MulMono(x, U64_MAX, x + x); MulMono(x + x, U64_MAX, U64_MAX); }
    CancelDivision(x + x, x);
    assert x * (x + x) == (x + x) * x;
    assert ConvertToAssetsFloor(x, l.Pool(p)) == Ok(x + x);
    assert [x][0 := 0] == [0];
  }

  lemma FirstDeposit(p: Params, l: Ledger, x: u64)
    requires p.virtualAssets == p.virtualShares == 0
    requires 0 < x && p.minDeposit <= x <= p.depositCap
    requires l == Ledger(0, 0, [0], 0)
    ensures Step(p, l, DepositOp(0, x, x, 0)) == Ledger(x, x, [x], x)
  {
    assert ConvertToSharesFloor(x, l.Pool(p)) == Ok(x);
    assert [0][0 := x] == [x];
  }

  lemma CancelDivision(a: nat, d: nat)
    requires d > 0
    ensures a * d / d == a && CeilDiv(a * d, d) == a
  {
    FloorGreatest(a * d, d, a);
    assert (a + 1) * d == a * d + d;
    FloorGreatest(a * d, d, a + 1);
    CeilLeast(a * d, d, a);
    CeilLeast(a * d, d, a - 1);
    assert (a - 1) * d == a * d - d;
  }

  /** With equal totals every conversion is the identity. */
  lemma ParityPrices(amount: u64, pool: Pool, toShares: bool, roundUp: bool)
    requires pool.N() == pool.M() && Convert(amount, pool, toShares, roundUp).Ok?
    ensures Convert(amount, pool, toShares, roundUp).value == amount
  {
    if pool.Priced() {
      CancelDivision(amount, pool.N());
    }
  }

  lemma ParityDeposit(pool: Pool, assets: u64, shares: u64)
    requires pool.N() == pool.M()
    ensures PricesDeposit(pool, assets, shares) ==> assets == shares
  {
    if ConvertToSharesFloor(assets, pool).Ok? { ParityPrices(assets, pool, true, false); }
    if ConvertToAssetsCeil(shares, pool).Ok? { ParityPrices(shares, pool, false, true); }
  }

  lemma ParityWithdrawal(pool: Pool, assets: u64, shares: u64)
    requires pool.N() == pool.M()
    ensures PricesWithdrawal(pool, assets, shares) ==> assets == shares
  {
    if ConvertToAssetsFloor(shares, pool).Ok? { ParityPrices(shares, pool, false, false); }
    if ConvertToSharesCeil(assets, pool).Ok? { ParityPrices(assets, pool, true, true); }
  }

  lemma ParityStep(p: Params, l: Ledger, op: Op)
    requires p.virtualAssets == p.virtualShares == 0 && l.assets == l.supply
    requires ActsFor(op, |l.shares|) && !op.Gain?
    ensures Step(p, l, op).assets == Step(p, l, op).supply
  {
    var assets, shares := StepMoves(p, l, op);
    FairAtPar(l.Pool(p), assets, shares);
  }

  /** At equal totals a fair move pays a token for a share. */
  lemma FairAtPar(pool: Pool, assets: int, shares: int)
    requires pool.N() == pool.M() && FairMove(pool, assets, shares)
    requires shares == 0 ==> assets == 0
    ensures assets == shares
  {
    if shares > 0 {
      ParityDeposit(pool, assets, shares);
    } else if shares < 0 {
      ParityWithdrawal(pool, 0 - assets, 0 - shares);
    }
  }

  /** Without offsets and without gains, a share is worth exactly one token for ever. */
  lemma {:induction false} ParityWithoutOffsets(p: Params, holders: nat, ops: seq<Op>)
    requires p.virtualAssets == p.virtualShares == 0
    requires forall op <- ops :: ActsFor(op, holders) && !op.Gain?
    ensures var l := Run(p, NewLedger(holders, 0), ops); l.assets == l.supply
  {
    if |ops| > 0 {
      ParityWithoutOffsets(p, holders, ops[..|ops| - 1]);
      ParityStep(p, Run(p, NewLedger(holders, 0), ops[..|ops| - 1]), ops[|ops| - 1]);
    }
  }

  predicate Bystander(op: Op, holder: nat) {
    op.Gain? || op.Idle? || op.holder != holder
  }

  /** While others trade, a holder's shares stay and their claim never falls. */
  lemma {:induction false} BystanderNeverLoses(p: Params, l: Ledger, holder: nat, ops: seq<Op>)
    requires Sound(p) && Conserved(l) && Backed(p, l) && holder < |l.shares|
    requires forall op <- ops :: ActsFor(op, |l.shares|) && Bystander(op, holder)
    ensures Run(p, l, ops).shares[holder] == l.shares[holder]
    ensures Claim(l.Pool(p), l.shares[holder])
            <= Claim(Run(p, l, ops).Pool(p), l.shares[holder])
  {
    if |ops| > 0 {
      var middle := Run(p, l, ops[..|ops| - 1]);
      var op := ops[|ops| - 1];
      BystanderNeverLoses(p, l, holder, ops[..|ops| - 1]);
      RunKeepsValid(p, l, ops[..|ops| - 1]);
      BystanderStep(p, middle, holder, op);
    }
  }

  lemma BystanderStep(p: Params, l: Ledger, holder: nat, op: Op)
    requires Sound(p) && Conserved(l) && holder < |l.shares|
    requires ActsFor(op, |l.shares|) && Bystander(op, holder)
    ensures Step(p, l, op).shares[holder] == l.shares[holder]
    ensures Claim(l.Pool(p), l.shares[holder]) <= Claim(Step(p, l, op).Pool(p), l.shares[holder])
  {
    var held, next := l.shares[holder], Step(p, l, op);
    StepCredits(p, l, op);
    StepConserves(p, l, op);
    SumAtLeast(l.shares, holder);
    SumAtLeast(next.shares, holder);
    if held > 0 {
      StepKeepsRatio(p, l, op);
      ClaimMonotone(l.Pool(p), next.Pool(p), held);
    } else {
      assert 0 * l.Pool(p).N() == 0;
    }
  }

  lemma ClaimMonotone(before: Pool, after: Pool, shares: u64)
    requires before.M() > 0 && after.M() > 0 && RatioAtMost(before, after)
    ensures Claim(before, shares) <= Claim(after, shares)
  {
    var c := Claim(before, shares);
    DivBounds(shares * before.N(), before.M());
    RatioChains(c, shares, before.N(), before.M(), after.N(), after.M());
    FloorGreatest(shares * after.N(), after.M(), c);
    assert shares * after.N() == after.N() * shares;
    assert shares * before.N() == before.N() * shares;
  }
}

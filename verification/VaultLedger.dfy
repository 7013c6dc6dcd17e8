/** The vault's share ledger: the four liquidity instructions as steps on a value, the
    account they update in place, and the facts every step keeps. */
module VaultLedger {
  import opened FixedPoint
  import opened Errors
  import opened VaultShares

  /** The vault's fixed parameters. */
  datatype Params = Params(
    minDeposit: u64, depositCap: u64, virtualAssets: u64, virtualShares: u64)

  /** The accounts an instruction moves: managed assets, share mint supply, one share token
      account per holder, and the vault's own token account. */
  datatype Ledger = Ledger(assets: u128, supply: u64, shares: seq<u64>, idle: u64) {
    function Pool(p: Params): Pool {
      VaultShares.Pool(assets, supply, p.virtualAssets, p.virtualShares)
    }
  }

  function Sum(xs: seq<u64>): nat {
    if |xs| == 0 then 0 else Sum(xs[..|xs| - 1]) + xs[|xs| - 1]
  }

  function AssertDepositAllowed(p: Params, assets: u128, assetsIn: u64): Result<()> {
    if assetsIn < p.minDeposit then Err(DepositTooSmall) else
    var projected :- OkOr(U128(assets + assetsIn), Overflow);
    if projected <= p.depositCap then Ok(()) else Err(DepositCapExceeded)
  }

  /** Takes `assetsIn` from a wallet holding `wallet` and mints `sharesOut`: token transfer,
      mint, then the managed total. */
  function Credit(
    l: Ledger, holder: nat, wallet: u64, assetsIn: u64, sharesOut: u64): Result<Ledger>
    requires holder < |l.shares|
  {
    if wallet < assetsIn then Err(TokenProgramError) else
    var idle :- OkOr(U64(l.idle + assetsIn), TokenProgramError);
    var supply :- OkOr(U64(l.supply + sharesOut), TokenProgramError);
    var balance :- OkOr(U64(l.shares[holder] + sharesOut), TokenProgramError);
    var assets :- OkOr(U128(l.assets + assetsIn), Overflow);
    Ok(Ledger(assets, supply, l.shares[holder := balance], idle))
  }

  /** Burns `sharesIn` and pays `assetsOut`: burn, token transfer, then the managed total. */
  function Debit(l: Ledger, holder: nat, assetsOut: u64, sharesIn: u64): Result<Ledger>
    requires holder < |l.shares|
  {
    var balance :- OkOr(U64(l.shares[holder] - sharesIn), TokenProgramError);
    var supply :- OkOr(U64(l.supply - sharesIn), TokenProgramError);
    var idle :- OkOr(U64(l.idle - assetsOut), TokenProgramError);
    var assets :- OkOr(U128(l.assets - assetsOut), Overflow);
    Ok(Ledger(assets, supply, l.shares[holder := balance], idle))
  }

  function Deposit(
    p: Params, l: Ledger, holder: nat, wallet: u64, assetsIn: u64, minSharesOut: u64
  ): Result<Ledger>
    requires holder < |l.shares|
  {
    if assetsIn == 0 then Err(ZeroDepositAmount) else
    var _ :- AssertDepositAllowed(p, l.assets, assetsIn);
    var sharesOut :- ConvertToSharesFloor(assetsIn, l.Pool(p));
    if sharesOut == 0 then Err(ZeroSharesOut)
    else if sharesOut < minSharesOut then Err(MinSharesOutNotMet)
    else Credit(l, holder, wallet, assetsIn, sharesOut)
  }

  function Mint(
    p: Params, l: Ledger, holder: nat, wallet: u64, sharesOut: u64, maxAssetsIn: u64
  ): Result<Ledger>
    requires holder < |l.shares|
  {
    if sharesOut == 0 then Err(ZeroMintAmount) else
    var assetsIn :- ConvertToAssetsCeil(sharesOut, l.Pool(p));
    if assetsIn == 0 then Err(ZeroDepositAmount)
    else if assetsIn > maxAssetsIn then Err(MaxAssetsInExceeded)
    else
      var _ :- AssertDepositAllowed(p, l.assets, assetsIn);
      Credit(l, holder, wallet, assetsIn, sharesOut)
  }

  function Redeem(
    p: Params, l: Ledger, holder: nat, sharesIn: u64, minAssetsOut: u64): Result<Ledger>
    requires holder < |l.shares|
  {
    if sharesIn == 0 then Err(ZeroRedeemAmount) else
    var assetsOut :- ConvertToAssetsFloor(sharesIn, l.Pool(p));
    if assetsOut == 0 then Err(ZeroAssetsOut)
    else if assetsOut < minAssetsOut then Err(MinAssetsOutNotMet)
    else if l.idle < assetsOut then Err(InsufficientVaultLiquidity)
    else Debit(l, holder, assetsOut, sharesIn)
  }

  function Withdraw(
    p: Params, l: Ledger, holder: nat, assetsOut: u64, maxSharesBurn: u64): Result<Ledger>
    requires holder < |l.shares|
  {
    if assetsOut == 0 then Err(ZeroWithdrawAmount)
    else if l.idle < assetsOut then Err(InsufficientVaultLiquidity)
    else
      var sharesIn :- ConvertToSharesCeil(assetsOut, l.Pool(p));
      if sharesIn == 0 then Err(ZeroSharesOut)
      else if sharesIn > maxSharesBurn then Err(MaxSharesBurnExceeded)
      else Debit(l, holder, assetsOut, sharesIn)
  }

  /** Every way the ledger moves. `Gain` is a bare `increase_total_managed_assets`, and `Idle`
      any other flow through the vault's token account (injections, returned buffers,
      liquidation swaps, donations). */
  datatype Op =
    | DepositOp(holder: nat, wallet: u64, assetsIn: u64, minSharesOut: u64)
    | MintOp(holder: nat, wallet: u64, sharesOut: u64, maxAssetsIn: u64)
    | RedeemOp(holder: nat, sharesIn: u64, minAssetsOut: u64)
    | WithdrawOp(holder: nat, assetsOut: u64, maxSharesBurn: u64)
    | Gain(delta: u64)
    | Idle(amount: u64)

  predicate ActsFor(op: Op, n: nat) {
    op.Gain? || op.Idle? || op.holder < n
  }

  function Outcome(p: Params, l: Ledger, op: Op): Result<Ledger>
    requires ActsFor(op, |l.shares|)
  {
    match op
    case DepositOp(h, wallet, x, min) => Deposit(p, l, h, wallet, x, min)
    case MintOp(h, wallet, s, max) => Mint(p, l, h, wallet, s, max)
    case RedeemOp(h, s, min) => Redeem(p, l, h, s, min)
    case WithdrawOp(h, x, max) => Withdraw(p, l, h, x, max)
    case Gain(delta) =>
      var assets :- OkOr(U128(l.assets + delta), Overflow);
      Ok(l.(assets := assets))
    case Idle(amount) => Ok(l.(idle := amount))
  }

  /** A failed transaction rolls back. */
  function Step(p: Params, l: Ledger, op: Op): (r: Ledger)
    requires ActsFor(op, |l.shares|)
    ensures |r.shares| == |l.shares|
  {
    match Outcome(p, l, op)
    case Ok(next) => next
    case Err(_) => l
  }

  function Run(p: Params, l: Ledger, ops: seq<Op>): (r: Ledger)
    requires forall op <- ops :: ActsFor(op, |l.shares|)
    ensures |r.shares| == |l.shares|
  {
    if |ops| == 0 then l
    else Step(p, Run(p, l, ops[..|ops| - 1]), ops[|ops| - 1])
  }

  /** A vault as initialisation leaves it, with `holders` empty share accounts. */
  function NewLedger(holders: nat, idle: u64): Ledger {
    Ledger(0, 0, seq(holders, i => 0), idle)
  }

  // ----- what each step keeps -----

  /** The share mint's supply is exactly the sum of the share accounts. */
  predicate Conserved(l: Ledger) {
    Sum(l.shares) == l.supply
  }

  /** The assets per share are at least the virtual assets per virtual share. */
  predicate Backed(p: Params, l: Ledger) {
    l.supply * p.virtualAssets <= l.assets * p.virtualShares
  }

  predicate Sound(p: Params) {
    SoundOffsets(p.virtualAssets, p.virtualShares)
  }

  lemma {:induction false} SumUpdate(xs: seq<u64>, i: nat, v: u64)
    requires i < |xs|
    ensures Sum(xs[i := v]) == Sum(xs) - xs[i] + v
  {
    var n := |xs| - 1;
    if i == n {
      assert xs[i := v][..n] == xs[..n];
    } else {
      assert xs[i := v][..n] == xs[..n][i := v];
      SumUpdate(xs[..n], i, v);
    }
  }

  lemma {:induction false} SumAtLeast(xs: seq<u64>, i: nat)
    requires i < |xs|
    ensures xs[i] <= Sum(xs)
  {
    if i < |xs| - 1 {
      assert xs[..|xs| - 1][i] == xs[i];
      SumAtLeast(xs[..|xs| - 1], i);
    }
  }

  /** Assets and shares that moved together at a preview's price, or assets gained. */
  predicate FairMove(pool: Pool, assets: int, shares: int) {
    || (shares == 0 && assets >= 0)
    || (0 < assets <= U64_MAX && 0 < shares <= U64_MAX && PricesDeposit(pool, assets, shares))
    || (-U64_MAX <= assets < 0 && -U64_MAX <= shares < 0
        && PricesWithdrawal(pool, 0 - assets, 0 - shares))
  }

  /** The move between two ledgers that share their parameters is fair. */
  predicate FairStep(p: Params, before: Ledger, after: Ledger) {
    && FairMove(before.Pool(p), after.assets - before.assets, after.supply - before.supply)
    && (after.supply == before.supply ==> after.assets == before.assets)
  }

  lemma PayInIsFair(p: Params, l: Ledger, holder: nat, wallet: u64, assetsIn: u64, sharesOut: u64)
    requires holder < |l.shares| && assetsIn > 0 && sharesOut > 0
    requires PricesDeposit(l.Pool(p), assetsIn, sharesOut)
    requires Credit(l, holder, wallet, assetsIn, sharesOut).Ok?
    ensures FairStep(p, l, Credit(l, holder, wallet, assetsIn, sharesOut).value)
  {
  }

  lemma PayOutIsFair(p: Params, l: Ledger, holder: nat, assetsOut: u64, sharesIn: u64)
    requires holder < |l.shares| && assetsOut > 0 && sharesIn > 0
    requires PricesWithdrawal(l.Pool(p), assetsOut, sharesIn)
    requires Debit(l, holder, assetsOut, sharesIn).Ok?
    ensures FairStep(p, l, Debit(l, holder, assetsOut, sharesIn).value)
  {
  }

  /** What one step did to the totals. */
  lemma StepMoves(p: Params, l: Ledger, op: Op)
    returns (assets: int, shares: int)
    requires ActsFor(op, |l.shares|)
    ensures assets == Step(p, l, op).assets - l.assets
    ensures shares == Step(p, l, op).supply - l.supply
    ensures Moved(l.Pool(p), assets, shares) == Some(Step(p, l, op).Pool(p))
    ensures FairMove(l.Pool(p), assets, shares)
    ensures shares == 0 && !op.Gain? ==> assets == 0
  {
    var next := Step(p, l, op);
    assets, shares := next.assets - l.assets, next.supply - l.supply;
    if Outcome(p, l, op).Ok? && !op.Gain? && !op.Idle? {
      OutcomeIsFair(p, l, op);
    }
  }

  lemma OutcomeIsFair(p: Params, l: Ledger, op: Op)
    requires ActsFor(op, |l.shares|) && Outcome(p, l, op).Ok? && !op.Gain? && !op.Idle?
    ensures FairStep(p, l, Outcome(p, l, op).value)
  {
    var pool := l.Pool(p);
    match op
    case DepositOp(h, wallet, x, _) =>
      PayInIsFair(p, l, h, wallet, x, ConvertToSharesFloor(x, pool).value);
    case MintOp(h, wallet, s, _) =>
      PayInIsFair(p, l, h, wallet, ConvertToAssetsCeil(s, pool).value, s);
    case RedeemOp(h, s, _) =>
      PayOutIsFair(p, l, h, ConvertToAssetsFloor(s, pool).value, s);
    case WithdrawOp(h, x, _) =>
      PayOutIsFair(p, l, h, x, ConvertToSharesCeil(x, pool).value);
  }

  /** What one step did to the share accounts. */
  lemma StepCredits(p: Params, l: Ledger, op: Op)
    requires ActsFor(op, |l.shares|)
    ensures var shares := Step(p, l, op).supply - l.supply;
            if op.Gain? || op.Idle? || Outcome(p, l, op).Err?
            then shares == 0 && Step(p, l, op).shares == l.shares
            else && 0 <= l.shares[op.holder] + shares <= U64_MAX
                 && Step(p, l, op).shares
                    == l.shares[op.holder := l.shares[op.holder] + shares]
  {
  }

  /** The guards an accepted operation met: deposit limits, slippage bounds, and matching
      movements of the managed total and the vault's tokens. */
  lemma AcceptedWithinLimits(p: Params, l: Ledger, op: Op)
    requires ActsFor(op, |l.shares|) && Outcome(p, l, op).Ok?
    ensures var next := Outcome(p, l, op).value;
            var paid, minted := next.assets - l.assets, next.supply - l.supply;
            match op
            case DepositOp(h, wallet, assetsIn, minSharesOut) =>
              && paid == assetsIn && p.minDeposit <= paid <= wallet && next.assets <= p.depositCap
              && 0 < minted && minSharesOut <= minted && next.idle == l.idle + paid
            case MintOp(h, wallet, sharesOut, maxAssetsIn) =>
              && minted == sharesOut > 0 && p.minDeposit <= paid <= wallet
              && 0 < paid <= maxAssetsIn && next.assets <= p.depositCap
              && next.idle == l.idle + paid
            case RedeemOp(h, sharesIn, minAssetsOut) =>
              && minted == 0 - sharesIn < 0 && 0 < -paid && minAssetsOut <= -paid
              && sharesIn <= l.shares[h] && next.idle == l.idle + paid
            case WithdrawOp(h, assetsOut, maxSharesBurn) =>
              && paid == 0 - assetsOut < 0 && 0 < -minted <= maxSharesBurn
              && -minted <= l.shares[h] && next.idle == l.idle + paid
            case Gain(delta) => paid == delta && next == l.(assets := next.assets)
            case Idle(amount) => next == l.(idle := amount)
  {
  }

  /** When a deposit is accepted, and what it then does. */
  lemma DepositAcceptedIff(p: Params, l: Ledger, h: nat, wallet: u64, x: u64, minOut: u64, s: u64)
    requires h < |l.shares| && ConvertToSharesFloor(x, l.Pool(p)) == Ok(s)
    ensures Outcome(p, l, DepositOp(h, wallet, x, minOut)).Ok?
            <==> && 0 < x && p.minDeposit <= x <= wallet && l.assets + x <= p.depositCap
                 && 0 < s && minOut <= s
                 && l.idle + x <= U64_MAX && l.supply + s <= U64_MAX && l.shares[h] + s <= U64_MAX
    ensures Outcome(p, l, DepositOp(h, wallet, x, minOut)).Ok? ==>
              Outcome(p, l, DepositOp(h, wallet, x, minOut)).value
              == Ledger(l.assets + x, l.supply + s, l.shares[h := l.shares[h] + s], l.idle + x)
  {
  }

  /** When a mint of exact shares is. */
  lemma MintAcceptedIff(p: Params, l: Ledger, h: nat, wallet: u64, s: u64, maxIn: u64, x: u64)
    requires h < |l.shares| && ConvertToAssetsCeil(s, l.Pool(p)) == Ok(x)
    ensures Outcome(p, l, MintOp(h, wallet, s, maxIn)).Ok?
            <==> && 0 < s && 0 < x <= maxIn && p.minDeposit <= x <= wallet
                 && l.assets + x <= p.depositCap
                 && l.idle + x <= U64_MAX && l.supply + s <= U64_MAX && l.shares[h] + s <= U64_MAX
    ensures Outcome(p, l, MintOp(h, wallet, s, maxIn)).Ok? ==>
              Outcome(p, l, MintOp(h, wallet, s, maxIn)).value
              == Ledger(l.assets + x, l.supply + s, l.shares[h := l.shares[h] + s], l.idle + x)
  {
  }

  /** When a redemption of held shares is. */
  lemma RedeemAcceptedIff(p: Params, l: Ledger, h: nat, s: u64, minOut: u64, x: u64)
    requires h < |l.shares| && ConvertToAssetsFloor(s, l.Pool(p)) == Ok(x)
    ensures Outcome(p, l, RedeemOp(h, s, minOut)).Ok?
            <==> && 0 < s <= l.shares[h] && s <= l.supply
                 && 0 < x && minOut <= x && x <= l.idle && x <= l.assets
    ensures Outcome(p, l, RedeemOp(h, s, minOut)).Ok? ==>
              Outcome(p, l, RedeemOp(h, s, minOut)).value
              == Ledger(l.assets - x, l.supply - s, l.shares[h := l.shares[h] - s], l.idle - x)
  {
  }

  /** When a withdrawal of exact assets is. */
  lemma WithdrawAcceptedIff(p: Params, l: Ledger, h: nat, x: u64, maxBurn: u64, s: u64)
    requires h < |l.shares| && ConvertToSharesCeil(x, l.Pool(p)) == Ok(s)
    ensures Outcome(p, l, WithdrawOp(h, x, maxBurn)).Ok?
            <==> && 0 < x <= l.idle && x <= l.assets
                 && 0 < s <= maxBurn && s <= l.shares[h] && s <= l.supply
    ensures Outcome(p, l, WithdrawOp(h, x, maxBurn)).Ok? ==>
              Outcome(p, l, WithdrawOp(h, x, maxBurn)).value
              == Ledger(l.assets - x, l.supply - s, l.shares[h := l.shares[h] - s], l.idle - x)
  {
  }

  /** And none is where its preview fails. */
  lemma UnpricedRefused(p: Params, l: Ledger, op: Op)
    requires ActsFor(op, |l.shares|)
    ensures match op
            case DepositOp(_, _, x, _) =>
              ConvertToSharesFloor(x, l.Pool(p)).Err? ==> Outcome(p, l, op).Err?
            case MintOp(_, _, s, _) =>
              ConvertToAssetsCeil(s, l.Pool(p)).Err? ==> Outcome(p, l, op).Err?
            case RedeemOp(_, s, _) =>
              ConvertToAssetsFloor(s, l.Pool(p)).Err? ==> Outcome(p, l, op).Err?
            case WithdrawOp(_, x, _) =>
              ConvertToSharesCeil(x, l.Pool(p)).Err? ==> Outcome(p, l, op).Err?
            case Gain(delta) => Outcome(p, l, op).Ok? <==> l.assets + delta <= U128_MAX
            case Idle(_) => Outcome(p, l, op).Ok?
  {
  }

  /** Why the others are refused, in the order the program asks: on a deposit the amount comes
      before the limits, and both before the shares it would get and the accounts. */
  lemma DepositRefusedFor(p: Params, l: Ledger, h: nat, wallet: u64, x: u64, minOut: u64)
    requires h < |l.shares|
    ensures var r := Outcome(p, l, DepositOp(h, wallet, x, minOut));
            var preview := ConvertToSharesFloor(x, l.Pool(p));
            var inLimits := 0 < x && p.minDeposit <= x && l.assets + x <= p.depositCap;
            && (r == Err(ZeroDepositAmount) <==> x == 0)
            && (r == Err(DepositTooSmall) <==> 0 < x < p.minDeposit)
            && (r == Err(DepositCapExceeded)
                <==> 0 < x && p.minDeposit <= x && p.depositCap < l.assets + x <= U128_MAX)
            && (0 < x && p.minDeposit <= x && l.assets + x > U128_MAX ==> r == Err(Overflow))
            && (inLimits && preview.Err? ==> r == Err(preview.error))
            && (r == Err(ZeroSharesOut) <==> inLimits && preview == Ok(0))
            && (r == Err(MinSharesOutNotMet)
                <==> inLimits && preview.Ok? && 0 < preview.value < minOut)
            && (r == Err(TokenProgramError)
                <==> inLimits && preview.Ok? && 0 < preview.value && minOut <= preview.value
                     && (wallet < x || l.idle + x > U64_MAX || l.supply + preview.value > U64_MAX
                         || l.shares[h] + preview.value > U64_MAX))
  {
    ConvertErrors(x, l.Pool(p), true, false);
  }

  /** On a mint the price and the slippage bound come before the limits. */
  lemma MintRefusedFor(p: Params, l: Ledger, h: nat, wallet: u64, s: u64, maxIn: u64)
    requires h < |l.shares|
    ensures var r := Outcome(p, l, MintOp(h, wallet, s, maxIn));
            var preview := ConvertToAssetsCeil(s, l.Pool(p));
            && (r == Err(ZeroMintAmount) <==> s == 0)
            && (s > 0 && preview.Err? ==> r == Err(preview.error))
            && (r == Err(ZeroDepositAmount) <==> s > 0 && preview == Ok(0))
            && (r == Err(MaxAssetsInExceeded) <==> s > 0 && preview.Ok? && preview.value > maxIn)
            && (r == Err(DepositTooSmall)
                <==> s > 0 && preview.Ok? && 0 < preview.value <= maxIn
                     && preview.value < p.minDeposit)
            && (r == Err(DepositCapExceeded)
                <==> s > 0 && preview.Ok? && 0 < preview.value <= maxIn
                     && p.minDeposit <= preview.value
                     && p.depositCap < l.assets + preview.value <= U128_MAX)
  {
    ConvertErrors(s, l.Pool(p), false, true);
  }

  /** A redemption asks for the vault's tokens last, and a withdrawal first. */
  lemma PayoutRefusedFor(
    p: Params, l: Ledger, h: nat, s: u64, minOut: u64, x: u64, maxBurn: u64)
    requires h < |l.shares|
    ensures var r := Outcome(p, l, RedeemOp(h, s, minOut));
            var preview := ConvertToAssetsFloor(s, l.Pool(p));
            && (r == Err(ZeroRedeemAmount) <==> s == 0)
            && (s > 0 && preview.Err? ==> r == Err(preview.error))
            && (r == Err(ZeroAssetsOut) <==> s > 0 && preview == Ok(0))
            && (r == Err(MinAssetsOutNotMet)
                <==> s > 0 && preview.Ok? && 0 < preview.value < minOut)
            && (r == Err(InsufficientVaultLiquidity)
                <==> s > 0 && preview.Ok? && 0 < preview.value && minOut <= preview.value
                     && l.idle < preview.value)
            && (s > 0 && preview.Ok? && 0 < preview.value && minOut <= preview.value <= l.idle ==>
                  if s > l.shares[h] || s > l.supply then r == Err(TokenProgramError)
                  else if preview.value > l.assets then r == Err(Overflow)
                  else r.Ok?)
    ensures var r := Outcome(p, l, WithdrawOp(h, x, maxBurn));
            var preview := ConvertToSharesCeil(x, l.Pool(p));
            && (r == Err(ZeroWithdrawAmount) <==> x == 0)
            && (r == Err(InsufficientVaultLiquidity) <==> 0 < x && l.idle < x)
            && (0 < x <= l.idle && preview.Err? ==> r == Err(preview.error))
            && (r == Err(ZeroSharesOut) <==> 0 < x <= l.idle && preview == Ok(0))
            && (r == Err(MaxSharesBurnExceeded)
                <==> 0 < x <= l.idle && preview.Ok? && preview.value > maxBurn && preview.value > 0)
            && (0 < x <= l.idle && preview.Ok? && 0 < preview.value <= maxBurn ==>
                  if preview.value > l.shares[h] || preview.value > l.supply then
                    r == Err(TokenProgramError)
                  else if x > l.assets then r == Err(Overflow)
                  else r.Ok?)
  {
    ConvertErrors(s, l.Pool(p), false, false);
    ConvertErrors(x, l.Pool(p), true, true);
  }

  lemma StepConserves(p: Params, l: Ledger, op: Op)
    requires ActsFor(op, |l.shares|) && Conserved(l)
    ensures Conserved(Step(p, l, op))
  {
    var shares := Step(p, l, op).supply - l.supply;
    StepCredits(p, l, op);
    if !op.Gain? && !op.Idle? && Outcome(p, l, op).Ok? {
      SumUpdate(l.shares, op.holder, l.shares[op.holder] + shares);
    }
  }

  /** No step lowers the ratio of assets to shares, virtual offsets included. */
  lemma StepKeepsRatio(p: Params, l: Ledger, op: Op)
    requires ActsFor(op, |l.shares|) && Sound(p)
    ensures RatioAtMost(l.Pool(p), Step(p, l, op).Pool(p))
  {
    var assets, shares := StepMoves(p, l, op);
    if shares == 0 {
      MoveKeepsRatio(l.Pool(p), assets, shares);
      MulMono(0, assets, l.Pool(p).M());
    } else if shares > 0 {
      DepositKeepsRatio(l.Pool(p), assets, shares);
    } else {
      WithdrawalKeepsRatio(l.Pool(p), 0 - assets, 0 - shares);
    }
  }

  /** `a/b <= c/d` and `c/d <= e/f` chain when the middle denominator is positive. */
  lemma RatioChains(a: nat, b: nat, c: nat, d: nat, e: nat, f: nat)
    requires d > 0 && a * d <= c * b && c * f <= e * d
    ensures a * f <= e * b
  {
    MulMono(a * d, c * b, f);
    MulMono(c * f, e * d, b);
    assert a * d * f == a * f * d;
    assert c * b * f == c * f * b;
    assert e * d * b == e * b * d;
    MulCancelLe(a * f, e * b, d);
  }

  lemma BackedIsRatio(p: Params, l: Ledger)
    ensures Backed(p, l)
            <==> p.virtualAssets * l.Pool(p).M() <= l.Pool(p).N() * p.virtualShares
  {
    var va, vs := p.virtualAssets, p.virtualShares;
    assert va * (l.supply + vs) == l.supply * va + va * vs;
    assert (l.assets + va) * vs == l.assets * vs + va * vs;
  }

  lemma StepStaysBacked(p: Params, l: Ledger, op: Op)
    requires ActsFor(op, |l.shares|) && Sound(p) && Backed(p, l)
    ensures Backed(p, Step(p, l, op))
  {
    var next := Step(p, l, op);
    if p.virtualAssets > 0 {
      StepKeepsRatio(p, l, op);
      BackedIsRatio(p, l);
      BackedIsRatio(p, next);
      RatioChains(p.virtualAssets, p.virtualShares, l.Pool(p).N(), l.Pool(p).M(),
                  next.Pool(p).N(), next.Pool(p).M());
    } else {
      MulMono(0, next.assets, p.virtualShares);
    }
  }

  // ----- the account, updated in place -----

  class Vault {
    const params: Params
    var totalManagedAssets: u128
    var shareSupply: u64
    var shareAccounts: seq<u64>
    var idle: u64

    ghost predicate Valid()
      reads this
    {
      Conserved(Books())
    }

    /** What holds besides when the offsets are sound, as initialisation does not ensure. */
    ghost predicate SolventBooks()
      reads this
    {
      Sound(params) ==> Backed(params, Books())
    }

    function Books(): Ledger
      reads this
    {
      Ledger(totalManagedAssets, shareSupply, shareAccounts, idle)
    }

    constructor (p: Params, holders: nat)
      ensures params == p && Books() == NewLedger(holders, 0) && Valid() && SolventBooks()
    {
      params := p;
      totalManagedAssets, shareSupply, idle := 0, 0, 0;
      shareAccounts := seq(holders, i => 0);
      new;
      NewLedgerHolds(p, holders, 0);
    }

    /** `increase_total_managed_assets`. */
    method IncreaseTotalManagedAssets(delta: u64) returns (r: Result<()>)
      modifies this`totalManagedAssets
      ensures r.Ok? <==> old(totalManagedAssets) + delta <= U128_MAX
      ensures r.Ok? ==> totalManagedAssets == old(totalManagedAssets) + delta
      ensures r.Err? ==> r.error == Overflow && totalManagedAssets == old(totalManagedAssets)
    {
      var sum :- OkOr(U128(totalManagedAssets + delta), Overflow);
      totalManagedAssets := sum;
      r := Ok(());
    }

    /** `decrease_total_managed_assets`. */
    method DecreaseTotalManagedAssets(delta: u64) returns (r: Result<()>)
      modifies this`totalManagedAssets
      ensures r.Ok? <==> delta <= old(totalManagedAssets)
      ensures r.Ok? ==> totalManagedAssets == old(totalManagedAssets) - delta
      ensures r.Err? ==> r.error == Overflow && totalManagedAssets == old(totalManagedAssets)
    {
      var difference :- OkOr(U128(totalManagedAssets - delta), Overflow);
      totalManagedAssets := difference;
      r := Ok(());
    }

    /** Token transfer in, share mint, managed total; everything is restored on failure. */
    method PayIn(holder: nat, wallet: u64, assetsIn: u64, sharesOut: u64)
      returns (r: Result<()>)
      requires holder < |shareAccounts|
      modifies this
      ensures match Credit(old(Books()), holder, wallet, assetsIn, sharesOut)
              case Ok(next) => r.Ok? && Books() == next
              case Err(e) => r == Err(e) && Books() == old(Books())
    {
      if wallet < assetsIn { return Err(TokenProgramError); }
      var newIdle :- OkOr(U64(idle + assetsIn), TokenProgramError);
      var newSupply :- OkOr(U64(shareSupply + sharesOut), TokenProgramError);
      var newBalance :- OkOr(U64(shareAccounts[holder] + sharesOut), TokenProgramError);
      var oldIdle, oldSupply, oldAccounts := idle, shareSupply, shareAccounts;
      idle := newIdle;
      shareSupply := newSupply;
      shareAccounts := shareAccounts[holder := newBalance];
      r := IncreaseTotalManagedAssets(assetsIn);
      if r.Err? {
        idle, shareSupply, shareAccounts := oldIdle, oldSupply, oldAccounts;
      }
    }

    /** Share burn, token transfer out, managed total; everything is restored on failure. */
    method PayOut(holder: nat, assetsOut: u64, sharesIn: u64) returns (r: Result<()>)
      requires holder < |shareAccounts|
      modifies this
      ensures match Debit(old(Books()), holder, assetsOut, sharesIn)
              case Ok(next) => r.Ok? && Books() == next
              case Err(e) => r == Err(e) && Books() == old(Books())
    {
      var newBalance :- OkOr(U64(shareAccounts[holder] - sharesIn), TokenProgramError);
      var newSupply :- OkOr(U64(shareSupply - sharesIn), TokenProgramError);
      var newIdle :- OkOr(U64(idle - assetsOut), TokenProgramError);
      var oldIdle, oldSupply, oldAccounts := idle, shareSupply, shareAccounts;
      shareSupply := newSupply;
      shareAccounts := shareAccounts[holder := newBalance];
      idle := newIdle;
      r := DecreaseTotalManagedAssets(assetsOut);
      if r.Err? {
        idle, shareSupply, shareAccounts := oldIdle, oldSupply, oldAccounts;
      }
    }

    method HandleDeposit(holder: nat, wallet: u64, assetsIn: u64, minSharesOut: u64)
      returns (r: Result<()>)
      requires holder < |shareAccounts| && Valid()
      modifies this
      ensures Valid() && (old(SolventBooks()) ==> SolventBooks())
      ensures match Deposit(params, old(Books()), holder, wallet, assetsIn, minSharesOut)
              case Ok(next) => r.Ok? && Books() == next
              case Err(e) => r == Err(e) && Books() == old(Books())
    {
      StepKeepsBooks(params, Books(), DepositOp(holder, wallet, assetsIn, minSharesOut));
      if assetsIn == 0 { return Err(ZeroDepositAmount); }
      var allowed := AssertDepositAllowed(params, totalManagedAssets, assetsIn);
      if allowed.Err? { return allowed; }
      var sharesOut :- ConvertToSharesFloor(assetsIn, Books().Pool(params));
      if sharesOut == 0 { return Err(ZeroSharesOut); }
      if sharesOut < minSharesOut { return Err(MinSharesOutNotMet); }
      r := PayIn(holder, wallet, assetsIn, sharesOut);
    }

    method HandleMint(holder: nat, wallet: u64, sharesOut: u64, maxAssetsIn: u64)
      returns (r: Result<()>)
      requires holder < |shareAccounts| && Valid()
      modifies this
      ensures Valid() && (old(SolventBooks()) ==> SolventBooks())
      ensures match Mint(params, old(Books()), holder, wallet, sharesOut, maxAssetsIn)
              case Ok(next) => r.Ok? && Books() == next
              case Err(e) => r == Err(e) && Books() == old(Books())
    {
      StepKeepsBooks(params, Books(), MintOp(holder, wallet, sharesOut, maxAssetsIn));
      if sharesOut == 0 { return Err(ZeroMintAmount); }
      var assetsIn :- ConvertToAssetsCeil(sharesOut, Books().Pool(params));
      if assetsIn == 0 { return Err(ZeroDepositAmount); }
      if assetsIn > maxAssetsIn { return Err(MaxAssetsInExceeded); }
      var allowed := AssertDepositAllowed(params, totalManagedAssets, assetsIn);
      if allowed.Err? { return allowed; }
      r := PayIn(holder, wallet, assetsIn, sharesOut);
    }

    method HandleRedeem(holder: nat, sharesIn: u64, minAssetsOut: u64) returns (r: Result<()>)
      requires holder < |shareAccounts| && Valid()
      modifies this
      ensures Valid() && (old(SolventBooks()) ==> SolventBooks())
      ensures match Redeem(params, old(Books()), holder, sharesIn, minAssetsOut)
              case Ok(next) => r.Ok? && Books() == next
              case Err(e) => r == Err(e) && Books() == old(Books())
    {
      StepKeepsBooks(params, Books(), RedeemOp(holder, sharesIn, minAssetsOut));
      if sharesIn == 0 { return Err(ZeroRedeemAmount); }
      var assetsOut :- ConvertToAssetsFloor(sharesIn, Books().Pool(params));
      if assetsOut == 0 { return Err(ZeroAssetsOut); }
      if assetsOut < minAssetsOut { return Err(MinAssetsOutNotMet); }
      if idle < assetsOut { return Err(InsufficientVaultLiquidity); }
      r := PayOut(holder, assetsOut, sharesIn);
    }

    method HandleWithdraw(holder: nat, assetsOut: u64, maxSharesBurn: u64)
      returns (r: Result<()>)
      requires holder < |shareAccounts| && Valid()
      modifies this
      ensures Valid() && (old(SolventBooks()) ==> SolventBooks())
      ensures match Withdraw(params, old(Books()), holder, assetsOut, maxSharesBurn)
              case Ok(next) => r.Ok? && Books() == next
              case Err(e) => r == Err(e) && Books() == old(Books())
    {
      StepKeepsBooks(params, Books(), WithdrawOp(holder, assetsOut, maxSharesBurn));
      if assetsOut == 0 { return Err(ZeroWithdrawAmount); }
      if idle < assetsOut { return Err(InsufficientVaultLiquidity); }
      var sharesIn :- ConvertToSharesCeil(assetsOut, Books().Pool(params));
      if sharesIn == 0 { return Err(ZeroSharesOut); }
      if sharesIn > maxSharesBurn { return Err(MaxSharesBurnExceeded); }
      r := PayOut(holder, assetsOut, sharesIn);
    }
  }

  lemma {:induction false} ZeroSum(xs: seq<u64>)
    requires forall i | 0 <= i < |xs| :: xs[i] == 0
    ensures Sum(xs) == 0
  {
    if |xs| > 0 { ZeroSum(xs[..|xs| - 1]); }
  }

  lemma NewLedgerHolds(p: Params, holders: nat, idle: u64)
    ensures Conserved(NewLedger(holders, idle)) && Backed(p, NewLedger(holders, idle))
  {
    ZeroSum(NewLedger(holders, idle).shares);
  }

  lemma StepKeepsValid(p: Params, l: Ledger, op: Op)
    requires ActsFor(op, |l.shares|) && Sound(p) && Conserved(l) && Backed(p, l)
    ensures Conserved(Step(p, l, op)) && Backed(p, Step(p, l, op))
  {
    StepConserves(p, l, op);
    StepStaysBacked(p, l, op);
  }

  lemma StepKeepsBooks(p: Params, l: Ledger, op: Op)
    requires ActsFor(op, |l.shares|) && Conserved(l)
    ensures Conserved(Step(p, l, op))
    ensures Sound(p) && Backed(p, l) ==> Backed(p, Step(p, l, op))
  {
    StepConserves(p, l, op);
    if Sound(p) && Backed(p, l) {
      StepStaysBacked(p, l, op);
    }
  }

  /** Shares that someone holds never redeem, and no withdrawal they can pay for takes,
      more than the managed total: the last subtraction of a payout cannot fail. */
  lemma PayoutCovered(p: Params, l: Ledger, holder: nat, assetsOut: u64, sharesIn: u64)
    requires holder < |l.shares| && Conserved(l) && Backed(p, l) && Sound(p)
    requires PricesWithdrawal(l.Pool(p), assetsOut, sharesIn)
    ensures sharesIn <= l.shares[holder] ==> assetsOut <= l.assets
    ensures Debit(l, holder, assetsOut, sharesIn) != Err(Overflow)
  {
    if sharesIn <= l.shares[holder] {
      SumAtLeast(l.shares, holder);
      SharesCovered(p, l, assetsOut, sharesIn);
    }
  }

  lemma SharesCovered(p: Params, l: Ledger, assetsOut: u64, sharesIn: u64)
    requires Backed(p, l) && sharesIn <= l.supply
    requires PricesWithdrawal(l.Pool(p), assetsOut, sharesIn)
    ensures assetsOut <= l.assets
  {
    var pool := l.Pool(p);
    if pool.Priced() {
      assert pool.N() == l.assets + p.virtualAssets && pool.M() == l.supply + p.virtualShares;
      assert assetsOut * pool.M() <= sharesIn * pool.N() by {
        PreviewsFavourVault(pool, assetsOut, sharesIn);
      }
      ClaimWithinAssets(l.assets, l.supply, p.virtualAssets, p.virtualShares,
                        assetsOut, sharesIn);
    } else {
      PaysAtPar(pool, assetsOut, sharesIn);
    }
  }

  lemma PaysAtPar(pool: Pool, assets: u64, shares: u64)
    requires !pool.Priced() && PricesWithdrawal(pool, assets, shares)
    ensures pool.Empty() && assets == shares
  {
  }

  lemma ClaimWithinAssets(
    assets: nat, supply: nat, va: nat, vs: nat, claim: nat, shares: nat)
    requires supply + vs > 0 && shares <= supply
    requires supply * va <= assets * vs
    requires claim * (supply + vs) <= shares * (assets + va)
    ensures claim <= assets
  {
    MulMono(shares, supply, assets + va);
    assert supply * (assets + va) == supply * assets + supply * va;
    assert assets * (supply + vs) == assets * supply + assets * vs;
    MulCancelLe(claim, assets, supply + vs);
  }
}

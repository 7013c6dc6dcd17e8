/** The vault and its positions together: every token that leaves or returns through injections
    and withdrawals, against the total the shares are priced by. */
module VaultFlows {
  import opened FixedPoint
  import opened Errors
  import opened InterestMath
  import opened KlendObligation
  import opened PositionOps
  import Ledgers = VaultLedger
  import VaultRuns
  import BufferCycle
  import ObligationRuns

  /** The vault's ledger and interest index, its positions, and the tokens withdrawals have
      returned beyond what was injected. */
  datatype Vault = Vault(
    ledger: Ledgers.Ledger, index: Index, positions: seq<Position>, earned: int)

  datatype Op =
    | Liquidity(op: Ledgers.Op)
    | Inject(i: nat, price: u128, current: Account, remaining: seq<Account>)
    | Withdraw(i: nat, price: u128, now: i64, current: Account, remaining: seq<Account>)
    | Lend(i: nat, call: ObligationRuns.Op)

  /** A liquidity instruction, or one on a position the vault has. */
  predicate Possible(op: Op, holders: nat, positions: nat) {
    match op
    case Liquidity(move) => Ledgers.ActsFor(move, holders) && !move.Gain? && !move.Idle?
    case Inject(i, _, _, _) => i < positions
    case Withdraw(i, _, _, _, _) => i < positions
    case Lend(i, _) => i < positions
  }

  function View(b: Vault, price: u128): VaultView {
    VaultView(price, b.ledger.assets, b.index, INTEREST_RATE)
  }

  /** The injection's tokens leave the vault's account, which must hold them. */
  function InjectStep(
    b: Vault, i: nat, price: u128, current: Account, remaining: seq<Account>): Vault
    requires i < |b.positions|
  {
    var p := b.positions[i];
    match InjectCollateral(p, View(b, price), current, remaining)
    case Err(_) => b
    case Ok(next) =>
      var st := Refresh(p.obligation, current, remaining).value;
      var amount := InjectAmount(st, p.buffer, View(b, price)).value;
      if b.ledger.idle < amount then b
      else b.(ledger := b.ledger.(idle := b.ledger.idle - amount),
              positions := b.positions[i := next])
  }

  /** A withdrawal's tokens return to it; the managed total stays what it was. */
  function WithdrawStep(
    b: Vault, i: nat, price: u128, now: i64, current: Account, remaining: seq<Account>): Vault
    requires i < |b.positions|
  {
    var p := b.positions[i];
    match WithdrawInjected(p, View(b, price), now, current, remaining)
    case Err(_) => b
    case Ok((next, index)) =>
      var st := Refresh(p.obligation, current, remaining).value;
      var amount := WithdrawAmount(st, p.buffer, View(b, price), now, current.reserve).value;
      if b.ledger.idle + amount > U64_MAX then b
      else b.(ledger := b.ledger.(idle := b.ledger.idle + amount), index := index,
              positions := b.positions[i := next],
              earned := b.earned + amount - p.buffer.injectedAmount)
  }

  function Step(params: Ledgers.Params, b: Vault, op: Op): (r: Vault)
    requires Possible(op, |b.ledger.shares|, |b.positions|)
    ensures |r.ledger.shares| == |b.ledger.shares| && |r.positions| == |b.positions|
  {
    match op
    case Liquidity(move) => b.(ledger := Ledgers.Step(params, b.ledger, move))
    case Inject(i, price, current, remaining) => InjectStep(b, i, price, current, remaining)
    case Withdraw(i, price, now, current, remaining) =>
      WithdrawStep(b, i, price, now, current, remaining)
    case Lend(i, call) =>
      b.(positions := b.positions[i := BufferCycle.LendingCall(b.positions[i], call)])
  }

  function Run(params: Ledgers.Params, b: Vault, ops: seq<Op>): (r: Vault)
    requires forall op <- ops :: Possible(op, |b.ledger.shares|, |b.positions|)
    ensures |r.ledger.shares| == |b.ledger.shares| && |r.positions| == |b.positions|
  {
    if |ops| == 0 then b
    else Step(params, Run(params, b, ops[..|ops| - 1]), ops[|ops| - 1])
  }

  function NewVault(holders: nat, positions: nat, now: i64): Vault {
    Vault(Ledgers.NewLedger(holders, 0), Index(INITIAL_INDEX, now),
          seq(positions, i => Position(EmptyState(), Buffer(false, 0))), 0)
  }

  /** The tokens the vault's positions hold of it. */
  function Outstanding(positions: seq<Position>): nat {
    if |positions| == 0 then 0
    else Outstanding(positions[..|positions| - 1])
         + positions[|positions| - 1].buffer.injectedAmount
  }

  /** Every token is in the vault's account or in a position, and is managed or was earned. */
  ghost predicate Balanced(b: Vault) {
    && b.ledger.idle + Outstanding(b.positions) == b.ledger.assets + b.earned
    && b.earned >= 0
    && forall i | 0 <= i < |b.positions| :: BufferCycle.Consistent(b.positions[i].buffer)
  }

  lemma {:induction false} OutstandingUpdate(positions: seq<Position>, i: nat, p: Position)
    requires i < |positions|
    ensures Outstanding(positions[i := p])
            == Outstanding(positions) - positions[i].buffer.injectedAmount + p.buffer.injectedAmount
  {
    var n := |positions| - 1;
    if i == n {
      assert positions[i := p][..n] == positions[..n];
    } else {
      assert positions[i := p][..n] == positions[..n][i := p];
      OutstandingUpdate(positions[..n], i, p);
    }
  }

  lemma {:induction false} NothingOutstanding(positions: seq<Position>)
    requires forall i | 0 <= i < |positions| :: positions[i].buffer.injectedAmount == 0
    ensures Outstanding(positions) == 0
  {
    if |positions| > 0 { NothingOutstanding(positions[..|positions| - 1]); }
  }

  lemma InjectBalances(b: Vault, i: nat, price: u128, current: Account, remaining: seq<Account>)
    requires i < |b.positions| && Balanced(b)
    ensures Balanced(InjectStep(b, i, price, current, remaining))
    ensures InjectStep(b, i, price, current, remaining).ledger.assets == b.ledger.assets
  {
    var p := b.positions[i];
    if InjectCollateral(p, View(b, price), current, remaining).Ok? {
      BufferCycle.InjectionRecorded(p, View(b, price), current, remaining);
      OutstandingUpdate(b.positions, i,
                        InjectCollateral(p, View(b, price), current, remaining).value);
    }
  }

  lemma WithdrawBalances(
    b: Vault, i: nat, price: u128, now: i64, current: Account, remaining: seq<Account>)
    requires i < |b.positions| && Balanced(b)
    ensures Balanced(WithdrawStep(b, i, price, now, current, remaining))
    ensures WithdrawStep(b, i, price, now, current, remaining).ledger.assets == b.ledger.assets
    ensures WithdrawStep(b, i, price, now, current, remaining).earned >= b.earned
  {
    var p := b.positions[i];
    if WithdrawInjected(p, View(b, price), now, current, remaining).Ok? {
      BufferCycle.WithdrawalClears(p, View(b, price), now, current, remaining);
      OutstandingUpdate(b.positions, i,
                        WithdrawInjected(p, View(b, price), now, current, remaining).value.0);
    }
  }

  lemma LiquidityMovesAlike(params: Ledgers.Params, l: Ledgers.Ledger, move: Ledgers.Op)
    requires Ledgers.ActsFor(move, |l.shares|) && !move.Gain? && !move.Idle?
    ensures var next := Ledgers.Step(params, l, move);
            next.idle - l.idle == next.assets - l.assets
  {
    if Ledgers.Outcome(params, l, move).Ok? {
      Ledgers.AcceptedWithinLimits(params, l, move);
    }
  }

  lemma StepBalances(params: Ledgers.Params, b: Vault, op: Op)
    requires Possible(op, |b.ledger.shares|, |b.positions|) && Balanced(b)
    ensures Balanced(Step(params, b, op))
    ensures !op.Liquidity? ==> Step(params, b, op).ledger.assets == b.ledger.assets
                               && Step(params, b, op).ledger.shares == b.ledger.shares
                               && Step(params, b, op).ledger.supply == b.ledger.supply
    ensures Step(params, b, op).earned >= b.earned
  {
    match op
    case Liquidity(move) => LiquidityMovesAlike(params, b.ledger, move);
    case Inject(i, price, current, remaining) => InjectBalances(b, i, price, current, remaining);
    case Withdraw(i, price, now, current, remaining) =>
      WithdrawBalances(b, i, price, now, current, remaining);
    case Lend(i, call) =>
      OutstandingUpdate(b.positions, i, BufferCycle.LendingCall(b.positions[i], call));
  }

  /** Over every run of a new vault, liquidations apart: its account and its positions hold
      between them exactly the managed total and the interest taken back. */
  lemma {:induction false} EveryRunBalances(
    params: Ledgers.Params, holders: nat, positions: nat, start: i64, ops: seq<Op>)
    requires forall op <- ops :: Possible(op, holders, positions)
    ensures Balanced(Run(params, NewVault(holders, positions, start), ops))
  {
    if |ops| == 0 {
      NothingOutstanding(NewVault(holders, positions, start).positions);
    } else {
      EveryRunBalances(params, holders, positions, start, ops[..|ops| - 1]);
      StepBalances(params, Run(params, NewVault(holders, positions, start), ops[..|ops| - 1]),
                   ops[|ops| - 1]);
    }
  }

  lemma {:induction false} EveryRunBacks(
    params: Ledgers.Params, holders: nat, positions: nat, start: i64, ops: seq<Op>)
    requires forall op <- ops :: Possible(op, holders, positions)
    requires Ledgers.Sound(params)
    ensures var l := Run(params, NewVault(holders, positions, start), ops).ledger;
            Ledgers.Conserved(l) && Ledgers.Backed(params, l)
  {
    if |ops| == 0 {
      Ledgers.NewLedgerHolds(params, holders, 0);
    } else {
      var b := Run(params, NewVault(holders, positions, start), ops[..|ops| - 1]);
      EveryRunBacks(params, holders, positions, start, ops[..|ops| - 1]);
      EveryRunBalances(params, holders, positions, start, ops[..|ops| - 1]);
      StepBalances(params, b, ops[|ops| - 1]);
      if ops[|ops| - 1].Liquidity? {
        Ledgers.StepKeepsValid(params, b.ledger, ops[|ops| - 1].op);
      }
    }
  }

  /** The interest never reaches the holders: over every such run with sound offsets, all their
      claims together leave it, and the tokens in positions, in the vault. With nothing in
      positions the vault's account covers any payout for held shares. */
  lemma InterestStaysUnclaimed(
    params: Ledgers.Params, holders: nat, positions: nat, start: i64, ops: seq<Op>)
    requires forall op <- ops :: Possible(op, holders, positions)
    requires Ledgers.Sound(params)
    ensures var b := Run(params, NewVault(holders, positions, start), ops);
            && VaultRuns.TotalClaims(b.ledger.Pool(params), b.ledger.shares) + b.earned
               <= b.ledger.idle + Outstanding(b.positions)
            && forall h: nat, assets: u64, shares: u64 |
                 h < holders && shares <= b.ledger.shares[h]
                 && VaultRuns.PaysOut(params, b.ledger, assets, shares)
                 && Outstanding(b.positions) == 0 ::
                 assets + b.earned <= b.ledger.idle
  {
    var b := Run(params, NewVault(holders, positions, start), ops);
    EveryRunBalances(params, holders, positions, start, ops);
    EveryRunBacks(params, holders, positions, start, ops);
    VaultRuns.BackedIsSolvent(params, b.ledger);
    forall h: nat, assets: u64, shares: u64 |
      h < holders && shares <= b.ledger.shares[h]
      && VaultRuns.PaysOut(params, b.ledger, assets, shares) && Outstanding(b.positions) == 0
      ensures assets + b.earned <= b.ledger.idle
    {
      Ledgers.PayoutCovered(params, b.ledger, h, assets, shares);
    }
  }

  // ----- the ledger as the holders see it -----

  /** The vault's own instructions are the ledger's; those on positions only move tokens through
      its account. */
  function AsLedgerMove(params: Ledgers.Params, b: Vault, op: Op): (move: Ledgers.Op)
    requires Possible(op, |b.ledger.shares|, |b.positions|)
    ensures Ledgers.ActsFor(move, |b.ledger.shares|)
  {
    if op.Liquidity? then op.op else Ledgers.Idle(Step(params, b, op).ledger.idle)
  }

  function AsLedgerRun(params: Ledgers.Params, b: Vault, ops: seq<Op>): (moves: seq<Ledgers.Op>)
    requires forall op <- ops :: Possible(op, |b.ledger.shares|, |b.positions|)
    ensures |moves| == |ops| && forall move <- moves :: Ledgers.ActsFor(move, |b.ledger.shares|)
    ensures forall i | 0 <= i < |ops| :: if ops[i].Liquidity? then moves[i] == ops[i].op
                                         else moves[i].Idle?
  {
    if |ops| == 0 then []
    else
      AsLedgerRun(params, b, ops[..|ops| - 1])
      + [AsLedgerMove(params, Run(params, b, ops[..|ops| - 1]), ops[|ops| - 1])]
  }

  /** So what every run does to the ledger, a run of the ledger alone does. */
  lemma {:induction false} RunsAsLedger(params: Ledgers.Params, b: Vault, ops: seq<Op>)
    requires forall op <- ops :: Possible(op, |b.ledger.shares|, |b.positions|)
    ensures Run(params, b, ops).ledger
            == Ledgers.Run(params, b.ledger, AsLedgerRun(params, b, ops))
  {
    if |ops| > 0 {
      var earlier, last := ops[..|ops| - 1], ops[|ops| - 1];
      RunsAsLedger(params, b, earlier);
      var before, moves := Run(params, b, earlier), AsLedgerRun(params, b, earlier);
      var move := AsLedgerMove(params, before, last);
      assert AsLedgerRun(params, b, ops) == moves + [move];
      assert (moves + [move])[..|moves + [move]| - 1] == moves;
      StepAsLedger(params, before, last);
    }
  }

  lemma StepAsLedger(params: Ledgers.Params, b: Vault, op: Op)
    requires Possible(op, |b.ledger.shares|, |b.positions|)
    ensures Step(params, b, op).ledger
            == Ledgers.Step(params, b.ledger, AsLedgerMove(params, b, op))
  {
  }

  /** While others trade and positions are injected, withdrawn from and lent to, a holder who
      does nothing keeps every share, and a claim that never falls. */
  lemma BystanderKeepsClaim(
    params: Ledgers.Params, b: Vault, holder: nat, ops: seq<Op>)
    requires Ledgers.Sound(params) && Ledgers.Conserved(b.ledger) && Ledgers.Backed(params, b.ledger)
    requires holder < |b.ledger.shares|
    requires forall op <- ops :: Possible(op, |b.ledger.shares|, |b.positions|)
    requires forall op <- ops :: op.Liquidity? ==> VaultRuns.Bystander(op.op, holder)
    ensures var held, end := b.ledger.shares[holder], Run(params, b, ops).ledger;
            && end.shares[holder] == held
            && VaultRuns.Claim(b.ledger.Pool(params), held)
               <= VaultRuns.Claim(end.Pool(params), held)
  {
    var moves := AsLedgerRun(params, b, ops);
    RunsAsLedger(params, b, ops);
    forall move <- moves ensures VaultRuns.Bystander(move, holder) {
      var i :| 0 <= i < |moves| && moves[i] == move;
      assert ops[i] in ops;
    }
    VaultRuns.BystanderNeverLoses(params, b.ledger, holder, moves);
  }

  /** What an injection takes from the vault, exactly: tokens its account holds, fewer than the
      managed total, recorded on the one position and nowhere else. */
  lemma InjectionPays(b: Vault, i: nat, price: u128, current: Account, remaining: seq<Account>)
    requires i < |b.positions|
    ensures var p, next := b.positions[i], InjectStep(b, i, price, current, remaining);
            var asked := InjectCollateral(
              p, VaultView(price, b.ledger.assets, b.index, INTEREST_RATE), current, remaining);
            var amount := if asked.Ok? then asked.value.buffer.injectedAmount
                                            - p.buffer.injectedAmount else 0;
            if asked.Err? || b.ledger.idle < amount then next == b
            else
              && 0 <= amount < b.ledger.assets
              && next == b.(ledger := b.ledger.(idle := b.ledger.idle - amount),
                            positions := b.positions[i := asked.value])
  {
    var p := b.positions[i];
    if InjectCollateral(p, View(b, price), current, remaining).Ok? {
      BufferCycle.InjectionRecorded(p, View(b, price), current, remaining);
    }
  }

  /** A lending call of one position changes that position's obligation and nothing else, and not
      even that when it would take collateral out beside vault tokens. */
  lemma LendingIsItsOwn(
    params: Ledgers.Params, b: Vault, i: nat, call: ObligationRuns.Op)
    requires i < |b.positions|
    ensures var p := b.positions[i];
            var obligation := if call.WithdrawOp? && p.buffer.injected then p.obligation
                              else ObligationRuns.Step(p.obligation, call);
            Step(params, b, Lend(i, call))
            == b.(positions := b.positions[i := Position(obligation, p.buffer)])
  {
  }

  /** A new vault has lent nothing and its shares are nobody's. */
  lemma NewVaultIsEmpty(holders: nat, positions: nat, start: i64)
    ensures var b := NewVault(holders, positions, start);
            && |b.positions| == positions && |b.ledger.shares| == holders
            && b.ledger.assets == b.ledger.supply == b.ledger.idle == b.earned == 0
            && b.index == Index(TOKEN_PRECISION, start)
            && (forall p <- b.positions :: p.buffer == Buffer(false, 0))
            && (forall held <- b.ledger.shares :: held == 0)
  {
  }

  // ----- the vault's index over runs -----

  /** The withdrawal is accepted and its tokens fit the vault's account. */
  predicate GoesThrough(
    b: Vault, i: nat, price: u128, now: i64, current: Account, remaining: seq<Account>)
    requires i < |b.positions|
  {
    var p := b.positions[i];
    && WithdrawInjected(p, View(b, price), now, current, remaining).Ok?
    && var st := Refresh(p.obligation, current, remaining).value;
       b.ledger.idle + WithdrawAmount(st, p.buffer, View(b, price), now, current.reserve).value
       <= U64_MAX
  }

  predicate Withdraws(b: Vault, op: Op)
    requires Possible(op, |b.ledger.shares|, |b.positions|)
  {
    match op
    case Withdraw(i, price, now, current, remaining) =>
      GoesThrough(b, i, price, now, current, remaining)
    case _ => false
  }

  function Withdrawals(params: Ledgers.Params, b: Vault, ops: seq<Op>): nat
    requires forall op <- ops :: Possible(op, |b.ledger.shares|, |b.positions|)
  {
    if |ops| == 0 then 0
    else
      Withdrawals(params, b, ops[..|ops| - 1])
      + (if Withdraws(Run(params, b, ops[..|ops| - 1]), ops[|ops| - 1]) then 1 else 0)
  }

  lemma WithdrawalAccrues(
    b: Vault, i: nat, price: u128, now: i64, current: Account, remaining: seq<Account>)
    requires i < |b.positions| && b.index.ai >= INITIAL_INDEX
    ensures GoesThrough(b, i, price, now, current, remaining) ==>
              && HasRoom(b.index.ai)
              && (var stored := WithdrawStep(b, i, price, now, current, remaining).index;
                  stored.ai == b.index.ai * 105 / 100 && stored.lastUpdated == now)
    ensures !GoesThrough(b, i, price, now, current, remaining) ==>
              WithdrawStep(b, i, price, now, current, remaining).index == b.index
  {
    if WithdrawInjected(b.positions[i], View(b, price), now, current, remaining).Ok? {
      BufferCycle.WithdrawalStores(b.positions[i], View(b, price), now, current, remaining);
    }
  }

  lemma OthersKeepIndex(params: Ledgers.Params, b: Vault, op: Op)
    requires Possible(op, |b.ledger.shares|, |b.positions|) && !op.Withdraw?
    ensures Step(params, b, op).index == b.index
  {
  }

  lemma StepAccrues(params: Ledgers.Params, b: Vault, op: Op)
    requires Possible(op, |b.ledger.shares|, |b.positions|) && b.index.ai >= INITIAL_INDEX
    ensures Withdraws(b, op) ==>
              && HasRoom(b.index.ai)
              && (var stored := Step(params, b, op).index;
                  stored.ai == b.index.ai * 105 / 100 && stored.lastUpdated == op.now)
    ensures !Withdraws(b, op) ==> Step(params, b, op).index == b.index
  {
    if op.Withdraw? {
      WithdrawalAccrues(b, op.i, op.price, op.now, op.current, op.remaining);
    } else {
      OthersKeepIndex(params, b, op);
    }
  }

  /** An index after some withdrawals, and after one more if it has room. */
  lemma CompoundedNext(done: nat, ai: nat)
    requires done <= LIFETIME && ai == Compounded(done)
    ensures ai >= INITIAL_INDEX
    ensures HasRoom(ai) ==> done + 1 <= LIFETIME && Compounded(done + 1) == ai * 105 / 100
  {
    CompoundedGrows(0, done);
    LifetimeIsExact(done);
    CompoundedStep(done);
  }

  lemma {:induction false} IndexFollows(params: Ledgers.Params, b: Vault, ops: seq<Op>)
    requires forall op <- ops :: Possible(op, |b.ledger.shares|, |b.positions|)
    requires b.index.ai == Compounded(0)
    ensures Run(params, b, ops).index.ai == Compounded(Withdrawals(params, b, ops))
    ensures Withdrawals(params, b, ops) <= LIFETIME
  {
    if |ops| > 0 {
      var earlier, last := ops[..|ops| - 1], ops[|ops| - 1];
      IndexFollows(params, b, earlier);
      var before, done := Run(params, b, earlier), Withdrawals(params, b, earlier);
      CompoundedNext(done, before.index.ai);
      StepAccrues(params, before, last);
      assert Run(params, b, ops) == Step(params, before, last);
      assert Withdrawals(params, b, ops) == if Withdraws(before, last) then done + 1 else done;
    }
  }

  /** Over every run, all positions together, the vault's index is what its withdrawals have
      compounded it to, and there are at most 59 of them. */
  lemma IndexCompounds(
    params: Ledgers.Params, holders: nat, positions: nat, start: i64, ops: seq<Op>)
    requires forall op <- ops :: Possible(op, holders, positions)
    ensures var b := NewVault(holders, positions, start);
            && Run(params, b, ops).index.ai == Compounded(Withdrawals(params, b, ops))
            && Withdrawals(params, b, ops) <= LIFETIME
  {
    IndexFollows(params, NewVault(holders, positions, start), ops);
  }
}

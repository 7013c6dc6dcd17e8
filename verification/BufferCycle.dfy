/** The vault tokens lent to a position, followed over whole runs of the position's instructions. */
module BufferCycle {
  import opened FixedPoint
  import opened InterestMath
  import opened KlendObligation
  import opened Errors
  import opened PositionOps
  import ObligationRuns

  /** The instructions of a position. Those that lend nothing from the vault are a lending call
      each, after a refresh; their own checks are left out, so runs include all they do. */
  datatype Op =
    | InjectOp(v: VaultView, current: Account, remaining: seq<Account>)
    | WithdrawOp(v: VaultView, now: i64, current: Account, remaining: seq<Account>)
    | LiquidateOp(
        v: VaultView, tokens: TokenBalances, repay: Account,
        current: Account, remaining: seq<Account>)
    | AdminSwapOp(
        tokensHeld: u64, debtReserve: Reserve, current: Account, remaining: seq<Account>)
    | LendingOp(call: ObligationRuns.Op)

  /** A position, with the tokens ever injected, taken back, and written off by liquidations. */
  datatype Tally = Tally(position: Position, injected: nat, returned: nat, writtenOff: nat)

  function Step(t: Tally, op: Op): Tally {
    match op
    case InjectOp(v, current, remaining) =>
      (match InjectCollateral(t.position, v, current, remaining)
       case Err(_) => t
       case Ok(next) =>
         var st := Refresh(t.position.obligation, current, remaining).value;
         t.(position := next,
            injected := t.injected + InjectAmount(st, t.position.buffer, v).value))
    case WithdrawOp(v, now, current, remaining) =>
      (match WithdrawInjected(t.position, v, now, current, remaining)
       case Err(_) => t
       case Ok((next, _)) =>
         var st := Refresh(t.position.obligation, current, remaining).value;
         t.(position := next,
            returned := t.returned
                        + WithdrawAmount(st, t.position.buffer, v, now, current.reserve).value))
    case LiquidateOp(v, tokens, repay, current, remaining) =>
      (match Liquidate(t.position, v, tokens, repay, current, remaining)
       case Err(_) => t
       case Ok(next) =>
         t.(position := next, writtenOff := t.writtenOff + t.position.buffer.injectedAmount))
    case AdminSwapOp(tokensHeld, debtReserve, current, remaining) =>
      (match AdminLiquidateSwap(t.position, tokensHeld, debtReserve, current, remaining)
       case Err(_) => t
       case Ok((next, _)) => t.(position := next))
    case LendingOp(call) => t.(position := LendingCall(t.position, call))
  }

  /** Taking collateral out is refused while the position holds vault tokens. */
  function LendingCall(p: Position, call: ObligationRuns.Op): Position {
    if call.WithdrawOp? && p.buffer.injected then p
    else p.(obligation := ObligationRuns.Step(p.obligation, call))
  }

  function Run(t: Tally, ops: seq<Op>): Tally {
    if |ops| == 0 then t else Step(Run(t, ops[..|ops| - 1]), ops[|ops| - 1])
  }

  /** The record of a position's buffer is consistent: nothing outstanding unless injected. */
  predicate Consistent(b: Buffer) {
    !b.injected ==> b.injectedAmount == 0
  }

  /** Tokens injected are outstanding, taken back or written off, and never lost. */
  predicate Accounted(t: Tally) {
    && Consistent(t.position.buffer)
    && t.injected <= t.returned + t.position.buffer.injectedAmount + t.writtenOff
  }

  /** An injection is recorded in full, on the position and in the slot it lands in. */
  lemma InjectionRecorded(p: Position, v: VaultView, current: Account, remaining: seq<Account>)
    requires InjectCollateral(p, v, current, remaining).Ok?
    ensures var st := Refresh(p.obligation, current, remaining).value;
            var next := InjectCollateral(p, v, current, remaining).value;
            var amount := InjectAmount(st, p.buffer, v).value;
            && !p.buffer.injected && next.buffer.injected
            && next.buffer.injectedAmount == p.buffer.injectedAmount + amount
            && amount < v.managedAssets
            && UpdateDeposit(st, current.key, amount, current.reserve, true) == Some(next.obligation)
  {
  }

  /** A withdrawal takes back at least what the position records, and clears the record. */
  lemma WithdrawalClears(
    p: Position, v: VaultView, now: i64, current: Account, remaining: seq<Account>)
    requires WithdrawInjected(p, v, now, current, remaining).Ok?
    ensures var st := Refresh(p.obligation, current, remaining).value;
            var (next, index) := WithdrawInjected(p, v, now, current, remaining).value;
            && p.buffer.injected && next.buffer == Buffer(false, 0)
            && 0 < p.buffer.injectedAmount
               <= WithdrawAmount(st, p.buffer, v, now, current.reserve).value
            && index.ai >= v.index.ai
  {
    var currentAi := Accrue(v.index.ai, v.rate, v.index.lastUpdated, now).value;
    AccrueNeverFalls(v.index.ai, v.rate, v.index.lastUpdated, now);
    WithdrawAmountBounds(currentAi, v.index.ai, p.buffer.injectedAmount);
    if p.buffer.injectedAmount == 0 {
      NothingGrows(currentAi, v.index.ai);
    }
  }

  /** A withdrawal stores what it accrued, and when: at the vault's rate five percent on top of
      any index the vault can hold, truncated. */
  lemma WithdrawalStores(
    p: Position, v: VaultView, now: i64, current: Account, remaining: seq<Account>)
    requires WithdrawInjected(p, v, now, current, remaining).Ok?
    ensures var stored := WithdrawInjected(p, v, now, current, remaining).value.1;
            && stored.lastUpdated == now
            && Accrue(v.index.ai, v.rate, v.index.lastUpdated, now) == Some(stored.ai)
            && (v.rate == INTEREST_RATE && v.index.ai >= INITIAL_INDEX ==>
                  stored.ai == v.index.ai * 105 / 100 && HasRoom(v.index.ai))
  {
    var st := Refresh(p.obligation, current, remaining).value;
    assert Accrue(v.index.ai, v.rate, v.index.lastUpdated, now).Some?;
    if v.rate == INTEREST_RATE && v.index.ai >= INITIAL_INDEX {
      var amount := WithdrawAmount(st, p.buffer, v, now, current.reserve).value;
      WithdrawalExists(v.index.ai, v.index.lastUpdated, now, p.buffer.injectedAmount);
      assert ChainWithdrawAmount(v.index.ai, v.rate, v.index.lastUpdated, now,
                                 p.buffer.injectedAmount) == Some(amount);
    }
  }

  lemma NothingGrows(currentAi: u64, storedAi: u64)
    ensures CalculateAmountToWithdraw(currentAi, storedAi, 0).Some? ==>
              CalculateAmountToWithdraw(currentAi, storedAi, 0).value == 0
  {
    if CheckedDiv(currentAi * TOKEN_PRECISION, storedAi).Some? {
      assert currentAi * TOKEN_PRECISION / storedAi * 0 == 0;
    }
  }

  /** A position marked injected with nothing recorded can never be withdrawn from. */
  lemma EmptyBufferNeverWithdraws(
    p: Position, v: VaultView, now: i64, current: Account, remaining: seq<Account>)
    requires p.buffer.injectedAmount == 0
    ensures WithdrawInjected(p, v, now, current, remaining).Err?
  {
    if WithdrawInjected(p, v, now, current, remaining).Ok? {
      WithdrawalClears(p, v, now, current, remaining);
    }
  }

  /** Each instruction's tally is what it did to the position: an injection counts what it
      recorded, a withdrawal no less than it cleared, and a liquidation exactly that. */
  lemma StepRecords(t: Tally, op: Op)
    requires !op.LendingOp?
    ensures var (end, was) := (Step(t, op), t.position.buffer);
            var now := end.position.buffer;
            && end.injected - t.injected
               == (if op.InjectOp? then now.injectedAmount - was.injectedAmount else 0)
            && (if op.WithdrawOp? && end != t
                then end.returned - t.returned >= was.injectedAmount - now.injectedAmount
                else end.returned == t.returned)
            && end.writtenOff - t.writtenOff
               == (if op.LiquidateOp? then was.injectedAmount - now.injectedAmount else 0)
    ensures match op
            case InjectOp(v, current, remaining) =>
              var r := InjectCollateral(t.position, v, current, remaining);
              Step(t, op).position == if r.Ok? then r.value else t.position
            case WithdrawOp(v, now, current, remaining) =>
              var r := WithdrawInjected(t.position, v, now, current, remaining);
              Step(t, op).position == if r.Ok? then r.value.0 else t.position
            case LiquidateOp(v, tokens, repay, current, remaining) =>
              var r := Liquidate(t.position, v, tokens, repay, current, remaining);
              Step(t, op).position == if r.Ok? then r.value else t.position
            case AdminSwapOp(tokensHeld, debtReserve, current, remaining) =>
              var r := AdminLiquidateSwap(
                t.position, tokensHeld, debtReserve, current, remaining);
              Step(t, op).position == if r.Ok? then r.value.0 else t.position
            case LendingOp(_) => true
  {
    if op.InjectOp? && InjectCollateral(t.position, op.v, op.current, op.remaining).Ok? {
      InjectionRecorded(t.position, op.v, op.current, op.remaining);
    }
    if op.WithdrawOp?
       && WithdrawInjected(t.position, op.v, op.now, op.current, op.remaining).Ok? {
      WithdrawalClears(t.position, op.v, op.now, op.current, op.remaining);
    }
  }

  // ----- the lending calls of a position -----

  /** A run ends with its last instruction. */
  lemma RunEnds(t: Tally, ops: seq<Op>, op: Op)
    ensures Run(t, []) == t && Run(t, ops + [op]) == Step(Run(t, ops), op)
  {
    assert (ops + [op])[..|ops + [op]| - 1] == ops;
  }

  /** A lending call reaches the lending program unless it would take collateral out of a
      position that holds vault tokens; the position's own record it never touches. */
  lemma LendingReaches(t: Tally, call: ObligationRuns.Op)
    ensures var next := Step(t, LendingOp(call));
            && next == t.(position := next.position)
            && next.position.buffer == t.position.buffer
            && (call.WithdrawOp? && t.position.buffer.injected ==> next == t)
            && (!call.WithdrawOp? || !t.position.buffer.injected ==>
                  next.position.obligation == ObligationRuns.Step(t.position.obligation, call))
  {
  }

  /** While a position holds vault tokens, no run of lending calls takes any collateral out of
      it, whatever it deposits, borrows, repays or refreshes. */
  lemma {:induction false} LendingKeepsCollateral(t: Tally, ops: seq<Op>, key: Pubkey)
    requires ObligationRuns.Kept(t.position.obligation) && t.position.buffer.injected
    requires forall op | op in ops :: op.LendingOp? && ObligationRuns.RealKeys(op.call)
    requires key != DEFAULT_KEY
    ensures var end := Run(t, ops);
            && ObligationRuns.Kept(end.position.obligation)
            && end == t.(position := end.position)
            && end.position.buffer == t.position.buffer
            && Held(end.position.obligation, key) >= Held(t.position.obligation, key)
  {
    if |ops| > 0 {
      var (earlier, last) := (ops[..|ops| - 1], ops[|ops| - 1]);
      LendingKeepsCollateral(t, earlier, key);
      LendingReaches(Run(t, earlier), last.call);
      LendingHolds(Run(t, earlier).position.obligation, last.call, key);
    }
  }

  lemma LendingHolds(st: State, call: ObligationRuns.Op, key: Pubkey)
    requires ObligationRuns.Kept(st) && ObligationRuns.RealKeys(call) && key != DEFAULT_KEY
    ensures ObligationRuns.Kept(ObligationRuns.Step(st, call))
    ensures !call.WithdrawOp? ==> Held(ObligationRuns.Step(st, call), key) >= Held(st, key)
  {
    ObligationRuns.StepKeeps(st, call);
    if ObligationRuns.Outcome(st, call).Some? {
      LendingMoves(st, call, key);
    }
  }

  /** The debt recorded under `key`. */
  function Owed(st: State, key: Pubkey): u128 {
    match KlendObligation.Position(BorrowKeys(st.borrows), key)
    case None => 0
    case Some(i) => st.borrows[i].borrowed
  }

  /** What a lending call does to what is held under each key: a deposit or withdrawal moves its
      own key's tokens, and nothing else moves. */
  lemma LendingMoves(st: State, call: ObligationRuns.Op, key: Pubkey)
    requires ObligationRuns.Kept(st) && ObligationRuns.RealKeys(call) && key != DEFAULT_KEY
    requires ObligationRuns.Outcome(st, call).Some?
    ensures Held(ObligationRuns.Outcome(st, call).value, key)
            == (if call.DepositOp? && call.key == key then Sat64(Held(st, key) + call.amount)
                else if call.WithdrawOp? && call.key == key then Sat64(Held(st, key) - call.amount)
                else Held(st, key))
  {
    match call
    case DepositOp(k, amount, r) => CollateralMoves(st, k, amount, r, true, key);
    case WithdrawOp(k, amount, r) => CollateralMoves(st, k, amount, r, false, key);
    case BorrowOp(_, _, _) =>
    case RepayOp(_, _, _) =>
    case RefreshOp(accounts) =>
      var next := ObligationRuns.Outcome(st, call).value;
      ObligationRuns.RefreshKeepsSlots(st.deposits, accounts);
      assert DepositKeys(next.deposits) == DepositKeys(st.deposits);
  }

  /** And to what is owed: a borrow or repayment moves its own key's debt by the tokens' value. */
  lemma LendingOwes(st: State, call: ObligationRuns.Op, key: Pubkey)
    requires ObligationRuns.Kept(st) && ObligationRuns.RealKeys(call) && key != DEFAULT_KEY
    requires ObligationRuns.Outcome(st, call).Some?
    ensures var owed := Owed(ObligationRuns.Outcome(st, call).value, key);
            if (call.BorrowOp? || call.RepayOp?) && call.key == key then
              var value := TokenValueSf(call.amount, call.reserve.price, call.reserve.decimals);
              owed == Sat128(if call.BorrowOp? then Owed(st, key) + value
                             else Owed(st, key) - value)
            else owed == Owed(st, key)
  {
    var next := ObligationRuns.Outcome(st, call).value;
    ObligationRuns.StepKeeps(st, call);
    match call
    case BorrowOp(k, _, _) =>
      DebtMoves(st, next, SlotFor(BorrowKeys(st.borrows), k).value, k, key);
    case RepayOp(k, _, _) =>
      var slot := KlendObligation.Position(BorrowKeys(st.borrows), k);
      if slot.Some? {
        DebtMoves(st, next, slot.value, k, key);
      }
    case _ =>
  }

  lemma CollateralMoves(
    st: State, moved: Pubkey, amount: u64, r: Reserve, increase: bool, key: Pubkey)
    requires ObligationRuns.Kept(st) && moved != DEFAULT_KEY && key != DEFAULT_KEY
    requires UpdateDeposit(st, moved, amount, r, increase).Some?
    ensures var next := UpdateDeposit(st, moved, amount, r, increase).value;
            Held(next, key) == if key == moved then AmountAfter(Held(st, key), amount, increase)
                               else Held(st, key)
  {
    var next := UpdateDeposit(st, moved, amount, r, increase).value;
    var i := SlotFor(DepositKeys(st.deposits), moved).value;
    ObligationRuns.DepositKeepsSlots(st, moved, amount, r, increase);
    assert next.deposits[i].amount == AmountAfter(st.deposits[i].amount, amount, increase);
    SlotMoves(st, next, i, moved, key);
  }

  /** Rewriting the slot of one key, or a free one, moves what is held under that key alone. */
  lemma SlotMoves(st: State, next: State, i: nat, moved: Pubkey, key: Pubkey)
    requires ObligationRuns.Kept(st) && ObligationRuns.Kept(next)
    requires moved != DEFAULT_KEY && key != DEFAULT_KEY && i < |st.deposits|
    requires next.deposits == st.deposits[i := next.deposits[i]]
    requires st.deposits[i].reserve == moved
             || (st.deposits[i].reserve == DEFAULT_KEY && moved !in DepositKeys(st.deposits))
    requires next.deposits[i].reserve in {moved, DEFAULT_KEY}
    ensures key == moved ==> Held(st, key) == st.deposits[i].amount
                             && Held(next, key) == next.deposits[i].amount
    ensures key != moved ==> Held(next, key) == Held(st, key)
  {
    var was, now := DepositKeys(st.deposits), DepositKeys(next.deposits);
    HeldAt(st, key);
    HeldAt(next, key);
    if key in was {
      var j :| 0 <= j < |was| && was[j] == key;
      assert j != i ==> now[j] == key;
    }
    if key in now {
      var j :| 0 <= j < |now| && now[j] == key;
      assert j != i ==> was[j] == key;
    }
  }

  /** Where slots are distinct and free ones empty, what is held under a key is in its slot, or
      nothing. */
  lemma HeldAt(st: State, key: Pubkey)
    requires ObligationRuns.Kept(st) && key != DEFAULT_KEY
    ensures forall j | 0 <= j < |st.deposits| && st.deposits[j].reserve == key ::
              Held(st, key) == st.deposits[j].amount
    ensures key !in DepositKeys(st.deposits) ==> Held(st, key) == 0
  {
    forall j | 0 <= j < |st.deposits| && st.deposits[j].reserve == key
      ensures Held(st, key) == st.deposits[j].amount
    {
      assert DepositKeys(st.deposits)[j] == key;
    }
  }

  lemma DebtMoves(st: State, next: State, i: nat, moved: Pubkey, key: Pubkey)
    requires ObligationRuns.Kept(st) && ObligationRuns.Kept(next)
    requires moved != DEFAULT_KEY && key != DEFAULT_KEY && i < |st.borrows|
    requires next.borrows == st.borrows[i := next.borrows[i]]
    requires st.borrows[i].reserve == moved
             || (st.borrows[i].reserve == DEFAULT_KEY && moved !in BorrowKeys(st.borrows))
    requires next.borrows[i].reserve in {moved, DEFAULT_KEY}
    ensures key == moved ==> Owed(st, key) == st.borrows[i].borrowed
                             && Owed(next, key) == next.borrows[i].borrowed
    ensures key != moved ==> Owed(next, key) == Owed(st, key)
  {
    var was, now := BorrowKeys(st.borrows), BorrowKeys(next.borrows);
    OwedAt(st, key);
    OwedAt(next, key);
    if key in was {
      var j :| 0 <= j < |was| && was[j] == key;
      assert j != i ==> now[j] == key;
    }
    if key in now {
      var j :| 0 <= j < |now| && now[j] == key;
      assert j != i ==> was[j] == key;
    }
  }

  lemma OwedAt(st: State, key: Pubkey)
    requires ObligationRuns.Kept(st) && key != DEFAULT_KEY
    ensures forall j | 0 <= j < |st.borrows| && st.borrows[j].reserve == key ::
              Owed(st, key) == st.borrows[j].borrowed
    ensures key !in BorrowKeys(st.borrows) ==> Owed(st, key) == 0
  {
    forall j | 0 <= j < |st.borrows| && st.borrows[j].reserve == key
      ensures Owed(st, key) == st.borrows[j].borrowed
    {
      assert BorrowKeys(st.borrows)[j] == key;
    }
  }

  /** Over every run of the position's instructions, at any prices and clocks, the vault is owed
      or has been given back every token it injected, save what liquidations wrote off. */
  lemma {:induction false} EveryRunAccounts(obligation: State, ops: seq<Op>)
    ensures Accounted(Run(Tally(Position(obligation, Buffer(false, 0)), 0, 0, 0), ops))
  {
    if |ops| > 0 {
      var t := Run(Tally(Position(obligation, Buffer(false, 0)), 0, 0, 0), ops[..|ops| - 1]);
      EveryRunAccounts(obligation, ops[..|ops| - 1]);
      match ops[|ops| - 1]
      case InjectOp(v, current, remaining) =>
        if InjectCollateral(t.position, v, current, remaining).Ok? {
          InjectionRecorded(t.position, v, current, remaining);
        }
      case WithdrawOp(v, now, current, remaining) =>
        if WithdrawInjected(t.position, v, now, current, remaining).Ok? {
          WithdrawalClears(t.position, v, now, current, remaining);
        }
      case LiquidateOp(_, _, _, _, _) =>
      case AdminSwapOp(_, _, _, _) =>
      case LendingOp(_) =>
    }
  }
}

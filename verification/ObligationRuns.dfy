/** What an obligation keeps over every run of deposits, withdrawals, borrows, repayments
    and refreshes, saturation included. */
module ObligationRuns {
  import opened FixedPoint
  import opened KlendObligation

  datatype Op =
    | DepositOp(key: Pubkey, amount: u64, reserve: Reserve)
    | WithdrawOp(key: Pubkey, amount: u64, reserve: Reserve)
    | BorrowOp(key: Pubkey, amount: u64, reserve: Reserve)
    | RepayOp(key: Pubkey, amount: u64, reserve: Reserve)
    | RefreshOp(accounts: seq<Account>)

  /** Borrowing is refused when it leaves the debt above the unhealthy value. */
  function BorrowLiquidity(st: State, key: Pubkey, amount: u64, r: Reserve): Option<State> {
    var next :- ApplyBorrow(st, key, amount, r.price, r.decimals);
    if next.deposited == 0 || next.debt <= next.unhealthy then Some(next) else None
  }

  function Outcome(st: State, op: Op): Option<State> {
    match op
    case DepositOp(key, amount, r) => UpdateDeposit(st, key, amount, r, true)
    case WithdrawOp(key, amount, r) => UpdateDeposit(st, key, amount, r, false)
    case BorrowOp(key, amount, r) => BorrowLiquidity(st, key, amount, r)
    case RepayOp(key, amount, r) => Some(ApplyRepay(st, key, amount, r.price, r.decimals))
    case RefreshOp(accounts) => Recompute(st, accounts)
  }

  /** A failed instruction rolls back. */
  function Step(st: State, op: Op): State {
    match Outcome(st, op)
    case Some(next) => next
    case None => st
  }

  function Run(st: State, ops: seq<Op>): State {
    if |ops| == 0 then st
    else Step(Run(st, ops[..|ops| - 1]), ops[|ops| - 1])
  }

  lemma RunEnds(st: State, ops: seq<Op>, op: Op)
    ensures Run(st, []) == st && Run(st, ops + [op]) == Step(Run(st, ops), op)
  {
    assert (ops + [op])[..|ops + [op]| - 1] == ops;
  }

  predicate SaneReserve(r: Reserve) {
    r.ltvPct <= r.liquidationPct <= 100
  }

  /** No account that holds a reserve has the all-zero key. */
  predicate RealKeys(op: Op) {
    op.RefreshOp? || op.key != DEFAULT_KEY
  }

  predicate SaneReserves(op: Op) {
    match op
    case RefreshOp(accounts) => forall i | 0 <= i < |accounts| :: SaneReserve(accounts[i].reserve)
    case _ => SaneReserve(op.reserve)
  }

  // ----- slots -----

  /** Active slots hold different reserves. */
  predicate Distinct(keys: seq<Pubkey>) {
    forall i, j | 0 <= i < j < |keys| :: keys[i] == keys[j] ==> keys[i] == DEFAULT_KEY
  }

  predicate FreeDepositsEmpty(slots: seq<DepositSlot>) {
    forall i | 0 <= i < |slots| :: slots[i].reserve == DEFAULT_KEY ==> slots[i].amount == 0
  }

  /** A free slot owes nothing, and the three copies of a slot's debt agree. */
  predicate BorrowsConsistent(slots: seq<BorrowSlot>) {
    forall i | 0 <= i < |slots| ::
      && slots[i].borrowed == slots[i].marketValue == slots[i].adjustedValue
      && (slots[i].reserve == DEFAULT_KEY ==> slots[i].borrowed == 0)
  }

  function DebtSum(slots: seq<BorrowSlot>): nat {
    if |slots| == 0 then 0 else DebtSum(slots[..|slots| - 1]) + slots[|slots| - 1].borrowed
  }

  /** Everything an obligation keeps about its slots and its debt total. */
  predicate Kept(st: State) {
    && |st.deposits| == DEPOSIT_SLOTS && |st.borrows| == BORROW_SLOTS
    && Distinct(DepositKeys(st.deposits)) && Distinct(BorrowKeys(st.borrows))
    && FreeDepositsEmpty(st.deposits) && BorrowsConsistent(st.borrows)
    && st.debt <= DebtSum(st.borrows)
  }

  predicate Ordered(st: State) {
    st.allowed <= st.unhealthy <= st.deposited
  }

  lemma {:induction false} DebtSumUpdate(slots: seq<BorrowSlot>, i: nat, slot: BorrowSlot)
    requires i < |slots|
    ensures DebtSum(slots[i := slot]) == DebtSum(slots) - slots[i].borrowed + slot.borrowed
    ensures slots[i].borrowed <= DebtSum(slots)
  {
    var n := |slots| - 1;
    if i == n {
      assert slots[i := slot][..n] == slots[..n];
    } else {
      assert slots[i := slot][..n] == slots[..n][i := slot];
      DebtSumUpdate(slots[..n], i, slot);
    }
  }

  /** Writing `key` where the allocator points, or freeing a slot, keeps keys distinct. */
  lemma AllocationKeepsDistinct(keys: seq<Pubkey>, key: Pubkey, written: Pubkey)
    requires Distinct(keys) && SlotFor(keys, key).Some?
    requires written == key || written == DEFAULT_KEY
             || written == keys[SlotFor(keys, key).value]
    ensures Distinct(keys[SlotFor(keys, key).value := written])
  {
  }

  lemma DepositKeepsSlots(st: State, key: Pubkey, amount: u64, r: Reserve, increase: bool)
    requires Kept(st) && key != DEFAULT_KEY
    requires UpdateDeposit(st, key, amount, r, increase).Some?
    ensures Kept(UpdateDeposit(st, key, amount, r, increase).value)
  {
    var i := SlotFor(DepositKeys(st.deposits), key).value;
    var slot := MovedDeposit(st.deposits[i], key, amount, increase);
    AllocationKeepsDistinct(DepositKeys(st.deposits), key, slot.reserve);
    assert DepositKeys(st.deposits[i := slot]) == DepositKeys(st.deposits)[i := slot.reserve];
  }

  lemma BorrowKeepsSlots(st: State, key: Pubkey, amount: u64, price: u128, decimals: u8)
    requires Kept(st) && key != DEFAULT_KEY
    requires ApplyBorrow(st, key, amount, price, decimals).Some?
    ensures Kept(ApplyBorrow(st, key, amount, price, decimals).value)
  {
    var i := SlotFor(BorrowKeys(st.borrows), key).value;
    var delta := TokenValueSf(amount, price, decimals);
    var slot := BorrowSlotOf(key, Sat128(st.borrows[i].borrowed + delta));
    AllocationKeepsDistinct(BorrowKeys(st.borrows), key, key);
    assert BorrowKeys(st.borrows[i := slot]) == BorrowKeys(st.borrows)[i := key];
    DebtSumUpdate(st.borrows, i, slot);
  }

  lemma RepayKeepsSlots(st: State, key: Pubkey, amount: u64, price: u128, decimals: u8)
    requires Kept(st) && key != DEFAULT_KEY
    ensures Kept(ApplyRepay(st, key, amount, price, decimals))
  {
    var keys := BorrowKeys(st.borrows);
    if Position(keys, key).Some? {
      var i := Position(keys, key).value;
      var next := RepayValue(st, i, TokenValueSf(amount, price, decimals)).borrows[i];
      AllocationKeepsDistinct(keys, key, next.reserve);
      assert BorrowKeys(st.borrows[i := next]) == keys[i := next.reserve];
      DebtSumUpdate(st.borrows, i, next);
    }
  }

  /** A withdrawal frees its slot exactly when it empties it, and other keys keep theirs. */
  lemma WithdrawFreesWhenEmpty(st: State, key: Pubkey, amount: u64, r: Reserve, other: Pubkey)
    requires Kept(st) && key in DepositKeys(st.deposits) && key != DEFAULT_KEY
    requires other != key && other != DEFAULT_KEY
    ensures UpdateDeposit(st, key, amount, r, false).Some?
    ensures var next := UpdateDeposit(st, key, amount, r, false).value;
            var held := st.deposits[Position(DepositKeys(st.deposits), key).value].amount;
            && (key in DepositKeys(next.deposits) <==> held > amount)
            && (other in DepositKeys(next.deposits) <==> other in DepositKeys(st.deposits))
  {
    var keys := DepositKeys(st.deposits);
    var i := SlotFor(keys, key).value;
    var next := UpdateDeposit(st, key, amount, r, false).value;
    assert DepositKeys(next.deposits) == keys[i := next.deposits[i].reserve];
    WrittenKeys(keys, i, next.deposits[i].reserve, other);
    WrittenKeys(keys, i, next.deposits[i].reserve, key);
  }

  /** A repayment frees its slot exactly when it covers it, and other keys keep theirs. */
  lemma RepayFreesWhenCovered(st: State, key: Pubkey, amount: u64, r: Reserve, other: Pubkey)
    requires Kept(st) && key in BorrowKeys(st.borrows) && key != DEFAULT_KEY
    requires other != key && other != DEFAULT_KEY
    ensures var next := ApplyRepay(st, key, amount, r.price, r.decimals);
            var owed := st.borrows[Position(BorrowKeys(st.borrows), key).value].borrowed;
            && (key in BorrowKeys(next.borrows)
                <==> owed > TokenValueSf(amount, r.price, r.decimals))
            && (other in BorrowKeys(next.borrows) <==> other in BorrowKeys(st.borrows))
  {
    var keys := BorrowKeys(st.borrows);
    var i := Position(keys, key).value;
    var next := ApplyRepay(st, key, amount, r.price, r.decimals);
    assert BorrowKeys(next.borrows) == keys[i := next.borrows[i].reserve];
    WrittenKeys(keys, i, next.borrows[i].reserve, other);
    WrittenKeys(keys, i, next.borrows[i].reserve, key);
  }

  /** Overwriting one slot of distinct keys changes membership of that slot's key alone. */
  lemma WrittenKeys(keys: seq<Pubkey>, i: nat, written: Pubkey, key: Pubkey)
    requires Distinct(keys) && i < |keys| && key != DEFAULT_KEY
    requires written == keys[i] || written == DEFAULT_KEY
    ensures key in keys[i := written] <==> key in keys && (keys[i] != key || written == key)
  {
    var updated := keys[i := written];
    assert updated[i] == written;
    if key in keys {
      var j :| 0 <= j < |keys| && keys[j] == key;
      assert j != i ==> updated[j] == key;
    }
    if key in updated {
      var j :| 0 <= j < |updated| && updated[j] == key;
      assert j != i ==> keys[j] == key;
    }
  }

  /** After any move of collateral that saturates no percentage, both borrow limits are the
      reserve's percentages of the collateral, truncated. */
  lemma LimitsFollowCollateral(st: State, key: Pubkey, amount: u64, r: Reserve, increase: bool)
    requires UpdateDeposit(st, key, amount, r, increase).Some?
    ensures var next := UpdateDeposit(st, key, amount, r, increase).value;
            && (next.deposited * r.ltvPct <= U128_MAX ==>
                  100 * next.allowed <= next.deposited * r.ltvPct < 100 * next.allowed + 100)
            && (next.deposited * r.liquidationPct <= U128_MAX ==>
                  100 * next.unhealthy <= next.deposited * r.liquidationPct
                                        < 100 * next.unhealthy + 100)
  {
    var next := UpdateDeposit(st, key, amount, r, increase).value;
    MulMono(0, next.deposited, r.ltvPct);
    MulMono(0, next.deposited, r.liquidationPct);
  }

  /** The lending program's gate: a borrow goes through exactly when a slot takes it and either
      there is no collateral or the debt it leaves is within the unhealthy limit. */
  lemma BorrowSucceedsIff(st: State, key: Pubkey, amount: u64, r: Reserve)
    ensures var owed := Sat128(st.debt + TokenValueSf(amount, r.price, r.decimals));
            && (BorrowLiquidity(st, key, amount, r).Some?
                <==> (key in BorrowKeys(st.borrows) || DEFAULT_KEY in BorrowKeys(st.borrows))
                     && (st.deposited == 0 || owed <= st.unhealthy))
            && (BorrowLiquidity(st, key, amount, r).Some? ==>
                  var next := BorrowLiquidity(st, key, amount, r).value;
                  && next == st.(borrows := next.borrows, debt := owed)
                  && key in BorrowKeys(next.borrows))
  {
    var slot := SlotFor(BorrowKeys(st.borrows), key);
    if slot.Some? {
      var next := ApplyBorrow(st, key, amount, r.price, r.decimals).value;
      assert BorrowKeys(next.borrows)[slot.value] == key;
    }
  }

  /** An obligation has eight slots for collateral and five for debt: a new reserve is refused
      exactly once all of them are taken, by different reserves. */
  lemma RefusedWhenFull(st: State, key: Pubkey, amount: u64, r: Reserve)
    requires Kept(st) && key != DEFAULT_KEY
    ensures UpdateDeposit(st, key, amount, r, true).None?
            <==> forall i | 0 <= i < 8 ::
                   && DepositKeys(st.deposits)[i] !in {DEFAULT_KEY, key}
                   && DepositKeys(st.deposits)[i] !in DepositKeys(st.deposits)[..i]
    ensures ApplyBorrow(st, key, amount, r.price, r.decimals).None?
            <==> forall i | 0 <= i < 5 ::
                   && BorrowKeys(st.borrows)[i] !in {DEFAULT_KEY, key}
                   && BorrowKeys(st.borrows)[i] !in BorrowKeys(st.borrows)[..i]
  {
  }

  /** So over every run, a borrow on positive collateral leaves the debt within that limit. */
  lemma BorrowsStayHealthy(ops: seq<Op>, key: Pubkey, amount: u64, r: Reserve)
    requires Outcome(Run(EmptyState(), ops), BorrowOp(key, amount, r)).Some?
    ensures var next := Run(EmptyState(), ops + [BorrowOp(key, amount, r)]);
            next.deposited > 0 ==> next.debt <= next.unhealthy
  {
    var all := ops + [BorrowOp(key, amount, r)];
    assert all[..|all| - 1] == ops;
    BorrowSucceedsIff(Run(EmptyState(), ops), key, amount, r);
  }

  // ----- refresh -----

  /** A refresh re-prices slots and touches neither keys nor amounts. */
  lemma {:induction false} RefreshKeepsSlots(slots: seq<DepositSlot>, accounts: seq<Account>)
    requires RefreshSlots(slots, accounts).Some?
    ensures forall i | 0 <= i < |slots| ::
              && RefreshSlots(slots, accounts).value.slots[i].reserve == slots[i].reserve
              && RefreshSlots(slots, accounts).value.slots[i].amount == slots[i].amount
  {
    if |slots| > 0 {
      RefreshKeepsSlots(slots[..|slots| - 1], accounts);
    }
  }

  lemma PercentOrdered(value: u128, r: Reserve)
    requires SaneReserve(r)
    ensures Percent(value, r.ltvPct) <= Percent(value, r.liquidationPct) <= value
  {
    MulMono(r.ltvPct, r.liquidationPct, value);
    MulMono(r.liquidationPct, 100, value);
  }

  lemma {:induction false} FoundIsSane(accounts: seq<Account>, key: Pubkey)
    requires forall i | 0 <= i < |accounts| :: SaneReserve(accounts[i].reserve)
    requires Find(accounts, key).Some?
    ensures SaneReserve(Find(accounts, key).value)
  {
    if accounts[0].key != key {
      FoundIsSane(accounts[1..], key);
    }
  }

  lemma {:induction false} RefreshOrders(slots: seq<DepositSlot>, accounts: seq<Account>)
    requires forall i | 0 <= i < |accounts| :: SaneReserve(accounts[i].reserve)
    requires RefreshSlots(slots, accounts).Some?
    ensures var t := RefreshSlots(slots, accounts).value;
            t.allowed <= t.unhealthy <= t.deposited
  {
    if |slots| > 0 {
      var last := slots[|slots| - 1];
      RefreshOrders(slots[..|slots| - 1], accounts);
      if last.reserve != DEFAULT_KEY {
        FoundIsSane(accounts, last.reserve);
        var r := Find(accounts, last.reserve).value;
        PercentOrdered(TokenValueSf(last.amount, r.price, r.decimals), r);
      }
    }
  }

  // ----- runs -----

  lemma StepKeeps(st: State, op: Op)
    requires Kept(st) && RealKeys(op)
    ensures Kept(Step(st, op))
  {
    match op
    case DepositOp(key, amount, r) =>
      if Outcome(st, op).Some? { DepositKeepsSlots(st, key, amount, r, true); }
    case WithdrawOp(key, amount, r) =>
      if Outcome(st, op).Some? { DepositKeepsSlots(st, key, amount, r, false); }
    case BorrowOp(key, amount, r) =>
      if Outcome(st, op).Some? { BorrowKeepsSlots(st, key, amount, r.price, r.decimals); }
    case RepayOp(key, amount, r) =>
      RepayKeepsSlots(st, key, amount, r.price, r.decimals);
    case RefreshOp(accounts) =>
      if Outcome(st, op).Some? { RefreshKeepsSlots(st.deposits, accounts); }
  }

  lemma StepOrders(st: State, op: Op)
    requires Ordered(st) && SaneReserves(op)
    ensures Ordered(Step(st, op))
  {
    if Outcome(st, op).Some? {
      match op
      case DepositOp(key, amount, r) => PercentOrdered(Step(st, op).deposited, r);
      case WithdrawOp(key, amount, r) => PercentOrdered(Step(st, op).deposited, r);
      case BorrowOp(_, _, _) =>
      case RepayOp(_, _, _) =>
      case RefreshOp(accounts) => RefreshOrders(st.deposits, accounts);
    }
  }

  /** In every reachable state active slots hold different reserves, free slots are empty,
      and the stored debt total never exceeds the sum of the slots. */
  lemma {:induction false} EveryRunKeeps(ops: seq<Op>)
    requires forall op <- ops :: RealKeys(op)
    ensures Kept(Run(EmptyState(), ops))
  {
    if |ops| == 0 {
      EmptyOwesNothing(EmptyState().borrows);
    } else {
      EveryRunKeeps(ops[..|ops| - 1]);
      StepKeeps(Run(EmptyState(), ops[..|ops| - 1]), ops[|ops| - 1]);
    }
  }

  lemma {:induction false} EmptyOwesNothing(slots: seq<BorrowSlot>)
    requires forall i | 0 <= i < |slots| :: slots[i].borrowed == 0
    ensures DebtSum(slots) == 0
  {
    if |slots| > 0 { EmptyOwesNothing(slots[..|slots| - 1]); }
  }

  /** When no reserve lends more than its liquidation threshold, the borrow limits stay
      ordered below the collateral value in every reachable state. */
  lemma {:induction false} EveryRunOrders(ops: seq<Op>)
    requires forall op <- ops :: SaneReserves(op)
    ensures Ordered(Run(EmptyState(), ops))
  {
    if |ops| > 0 {
      EveryRunOrders(ops[..|ops| - 1]);
      StepOrders(Run(EmptyState(), ops[..|ops| - 1]), ops[|ops| - 1]);
    }
  }

  // ----- exactness of the debt total -----

  /** From an exact total, a borrow stays exact exactly when the total does not saturate or
      the slot it lands in carries the whole debt. */
  lemma BorrowExactIff(st: State, i: nat, key: Pubkey, delta: u128)
    requires i < |st.borrows| && st.debt == DebtSum(st.borrows)
    ensures var next := BorrowValue(st, i, key, delta);
            next.debt == DebtSum(next.borrows)
            <==> st.debt + delta <= U128_MAX || st.borrows[i].borrowed == st.debt
  {
    var slot := BorrowSlotOf(key, Sat128(st.borrows[i].borrowed + delta));
    DebtSumUpdate(st.borrows, i, slot);
  }

  /** From an exact total, a repayment stays exact exactly when it does not exceed its slot
      or that slot carries the whole debt. */
  lemma RepayExactIff(st: State, i: nat, delta: u128)
    requires i < |st.borrows| && st.debt == DebtSum(st.borrows)
    ensures var next := RepayValue(st, i, delta);
            next.debt == DebtSum(next.borrows)
            <==> delta <= st.borrows[i].borrowed || st.borrows[i].borrowed == st.debt
  {
    DebtSumUpdate(st.borrows, i, RepayValue(st, i, delta).borrows[i]);
  }

  /** The guard a caller can check before an operation to keep the debt total exact. */
  predicate KeepsExact(st: State, op: Op) {
    match op
    case BorrowOp(key, amount, r) =>
      (match SlotFor(BorrowKeys(st.borrows), key)
       case None => true
       case Some(i) => st.debt + TokenValueSf(amount, r.price, r.decimals) <= U128_MAX
                       || st.borrows[i].borrowed == st.debt)
    case RepayOp(key, amount, r) =>
      (match Position(BorrowKeys(st.borrows), key)
       case None => true
       case Some(i) => TokenValueSf(amount, r.price, r.decimals) <= st.borrows[i].borrowed
                       || st.borrows[i].borrowed == st.debt)
    case _ => true
  }

  ghost predicate KeepsExactRun(st: State, ops: seq<Op>) {
    forall i | 0 <= i < |ops| :: KeepsExact(Run(st, ops[..i]), ops[i])
  }

  lemma ExactStep(st: State, op: Op)
    requires st.debt == DebtSum(st.borrows) && KeepsExact(st, op)
    ensures Step(st, op).debt == DebtSum(Step(st, op).borrows)
  {
    match op {
      case BorrowOp(key, amount, r) =>
        var slot := SlotFor(BorrowKeys(st.borrows), key);
        if slot.Some? {
          BorrowExactIff(st, slot.value, key, TokenValueSf(amount, r.price, r.decimals));
        }
      case RepayOp(key, amount, r) =>
        var slot := Position(BorrowKeys(st.borrows), key);
        if slot.Some? {
          RepayExactIff(st, slot.value, TokenValueSf(amount, r.price, r.decimals));
        }
      case _ =>
    }
  }

  lemma KeepsExactPrefix(st: State, ops: seq<Op>)
    requires |ops| > 0 && KeepsExactRun(st, ops)
    ensures KeepsExactRun(st, ops[..|ops| - 1])
    ensures KeepsExact(Run(st, ops[..|ops| - 1]), ops[|ops| - 1])
  {
    var earlier := ops[..|ops| - 1];
    forall i | 0 <= i < |earlier| ensures KeepsExact(Run(st, earlier[..i]), earlier[i]) {
      assert earlier[..i] == ops[..i];
      assert earlier[i] == ops[i];
    }
  }

  /** A run in which every operation met its guard keeps the total exact. */
  lemma {:induction false} ExactRun(st: State, ops: seq<Op>)
    requires st.debt == DebtSum(st.borrows) && KeepsExactRun(st, ops)
    ensures Run(st, ops).debt == DebtSum(Run(st, ops).borrows)
  {
    if |ops| > 0 {
      KeepsExactPrefix(st, ops);
      ExactRun(st, ops[..|ops| - 1]);
      ExactStep(Run(st, ops[..|ops| - 1]), ops[|ops| - 1]);
    }
  }
}

/** How far the collateral value kept beside the slots can drift from a recomputation. */
module CacheDrift {
  import opened FixedPoint
  import opened KlendObligation
  import opened ObligationRuns

  /** A deposit or a withdrawal on the reserve with the given key. */
  datatype Move = Move(key: Pubkey, amount: u64, increase: bool)

  function SlotValue(slot: DepositSlot, prices: Pubkey -> Reserve): u128 {
    if slot.reserve == DEFAULT_KEY then 0
    else TokenValueSf(slot.amount, prices(slot.reserve).price, prices(slot.reserve).decimals)
  }

  /** The collateral value a refresh at these prices adds up, before saturation. */
  function Recomputed(slots: seq<DepositSlot>, prices: Pubkey -> Reserve): nat {
    if |slots| == 0 then 0
    else Recomputed(slots[..|slots| - 1], prices) + SlotValue(slots[|slots| - 1], prices)
  }

  /** The accounts passed to a refresh carry the fixed prices. */
  ghost predicate Carries(accounts: seq<Account>, prices: Pubkey -> Reserve) {
    forall key: Pubkey :: Find(accounts, key).Some? ==> Find(accounts, key).value == prices(key)
  }

  /** The part of a slot's value that may be borrowed, or owed before it is unhealthy. */
  function SlotLimit(slot: DepositSlot, prices: Pubkey -> Reserve, unhealthy: bool): u128 {
    if slot.reserve == DEFAULT_KEY then 0
    else Percent(SlotValue(slot, prices),
                 if unhealthy then prices(slot.reserve).liquidationPct
                 else prices(slot.reserve).ltvPct)
  }

  function RecomputedLimit(
    slots: seq<DepositSlot>, prices: Pubkey -> Reserve, unhealthy: bool): nat
  {
    if |slots| == 0 then 0
    else RecomputedLimit(slots[..|slots| - 1], prices, unhealthy)
         + SlotLimit(slots[|slots| - 1], prices, unhealthy)
  }

  /** A refresh computes the plain sums, each capped at the word size, and writes each active
      slot's own value beside it. */
  lemma {:induction false} RefreshRecomputes(
    slots: seq<DepositSlot>, accounts: seq<Account>, prices: Pubkey -> Reserve)
    requires Carries(accounts, prices) && RefreshSlots(slots, accounts).Some?
    ensures var t := RefreshSlots(slots, accounts).value;
            && t.deposited == Sat128(Recomputed(slots, prices))
            && t.allowed == Sat128(RecomputedLimit(slots, prices, false))
            && t.unhealthy == Sat128(RecomputedLimit(slots, prices, true))
            && forall i | 0 <= i < |slots| && slots[i].reserve != DEFAULT_KEY ::
                 t.slots[i].marketValue == SlotValue(slots[i], prices)
  {
    if |slots| > 0 {
      var last := slots[|slots| - 1];
      RefreshRecomputes(slots[..|slots| - 1], accounts, prices);
      assert last.reserve != DEFAULT_KEY ==> Find(accounts, last.reserve).Some?;
    }
  }

  /** Recomputed minus kept. */
  function Drift(st: State, prices: Pubkey -> Reserve): int {
    Recomputed(st.deposits, prices) - st.deposited
  }

  /** No operator saturates, and a withdrawal takes no more than its slot holds. */
  predicate InRange(st: State, m: Move, prices: Pubkey -> Reserve) {
    && m.key != DEFAULT_KEY
    && SlotFor(DepositKeys(st.deposits), m.key).Some?
    && var i := SlotFor(DepositKeys(st.deposits), m.key).value;
       var r := prices(m.key);
       var held := st.deposits[i].amount;
       if m.increase then
         && held + m.amount <= U64_MAX
         && (held + m.amount) * r.price <= U128_MAX
         && st.deposited + TokenValueSf(m.amount, r.price, r.decimals) <= U128_MAX
       else
         && m.amount <= held
         && held * r.price <= U128_MAX
  }

  function Moved(st: State, m: Move, prices: Pubkey -> Reserve): State {
    match UpdateDeposit(st, m.key, m.amount, prices(m.key), m.increase)
    case Some(next) => next
    case None => st
  }

  function RunMoves(st: State, moves: seq<Move>, prices: Pubkey -> Reserve): State {
    if |moves| == 0 then st
    else Moved(RunMoves(st, moves[..|moves| - 1], prices), moves[|moves| - 1], prices)
  }

  /** Every move of the run is in range where it is made. */
  predicate RunInRange(st: State, moves: seq<Move>, prices: Pubkey -> Reserve) {
    |moves| == 0
    || (RunInRange(st, moves[..|moves| - 1], prices)
        && InRange(RunMoves(st, moves[..|moves| - 1], prices), moves[|moves| - 1], prices))
  }

  function Count(moves: seq<Move>, increase: bool): nat {
    if |moves| == 0 then 0
    else Count(moves[..|moves| - 1], increase)
         + (if moves[|moves| - 1].increase == increase then 1 else 0)
  }

  /** The two counts make up the run. */
  lemma {:induction false} CountsAll(moves: seq<Move>)
    ensures Count(moves, true) + Count(moves, false) == |moves|
  {
    if |moves| > 0 {
      CountsAll(moves[..|moves| - 1]);
    }
  }

  /** The lending call a move is. */
  function AsCall(m: Move, prices: Pubkey -> Reserve): Op {
    if m.increase then DepositOp(m.key, m.amount, prices(m.key))
    else WithdrawOp(m.key, m.amount, prices(m.key))
  }

  function AsCalls(moves: seq<Move>, prices: Pubkey -> Reserve): seq<Op> {
    seq(|moves|, i requires 0 <= i < |moves| => AsCall(moves[i], prices))
  }

  /** A run of moves is the obligation's own run of those deposits and withdrawals. */
  lemma {:induction false} MovesAreRuns(st: State, moves: seq<Move>, prices: Pubkey -> Reserve)
    ensures RunMoves(st, moves, prices) == Run(st, AsCalls(moves, prices))
  {
    if |moves| > 0 {
      var n := |moves| - 1;
      MovesAreRuns(st, moves[..n], prices);
      assert AsCalls(moves, prices)[..n] == AsCalls(moves[..n], prices);
    }
  }

  lemma {:induction false} RecomputedUpdate(
    slots: seq<DepositSlot>, i: nat, slot: DepositSlot, prices: Pubkey -> Reserve)
    requires i < |slots|
    ensures Recomputed(slots[i := slot], prices)
            == Recomputed(slots, prices) - SlotValue(slots[i], prices) + SlotValue(slot, prices)
  {
    var n := |slots| - 1;
    if i == n {
      assert slots[i := slot][..n] == slots[..n];
    } else {
      assert slots[i := slot][..n] == slots[..n][i := slot];
      RecomputedUpdate(slots[..n], i, slot, prices);
    }
  }

  lemma {:induction false} RecomputedLimitUpdate(
    slots: seq<DepositSlot>, i: nat, slot: DepositSlot, prices: Pubkey -> Reserve, unhealthy: bool)
    requires i < |slots|
    ensures RecomputedLimit(slots[i := slot], prices, unhealthy)
            == RecomputedLimit(slots, prices, unhealthy)
               - SlotLimit(slots[i], prices, unhealthy) + SlotLimit(slot, prices, unhealthy)
  {
    var n := |slots| - 1;
    if i == n {
      assert slots[i := slot][..n] == slots[..n];
    } else {
      assert slots[i := slot][..n] == slots[..n][i := slot];
      RecomputedLimitUpdate(slots[..n], i, slot, prices, unhealthy);
    }
  }

  /** Valuing two lots separately loses at most one unit against valuing them together. */
  lemma ValueSplits(a: u64, b: u64, price: u128, decimals: u8)
    requires a + b <= U64_MAX && (a + b) * price <= U128_MAX
    ensures TokenValueSf(a, price, decimals) + TokenValueSf(b, price, decimals)
            <= TokenValueSf(a + b, price, decimals)
            <= TokenValueSf(a, price, decimals) + TokenValueSf(b, price, decimals) + 1
  {
    assert (a + b) * price == a * price + b * price;
    MulMono(0, a, price);
    MulMono(0, b, price);
    SplitFloor(a * price, b * price, Denominator(decimals));
  }

  lemma ZeroValue(price: u128, decimals: u8)
    ensures TokenValueSf(0, price, decimals) == 0
  {
    assert 0 * price == 0;
    DivNonNegative(0, Denominator(decimals));
  }

  /** A deposit moves the drift by zero or one, a withdrawal by zero or minus one, save that
      a withdrawal the kept value cannot cover leaves it at zero. */
  lemma MoveDrift(st: State, m: Move, prices: Pubkey -> Reserve)
    requires Kept(st) && InRange(st, m, prices)
    ensures m.increase ==>
              Drift(st, prices) <= Drift(Moved(st, m, prices), prices) <= Drift(st, prices) + 1
    ensures !m.increase ==>
              && Drift(Moved(st, m, prices), prices) <= Drift(st, prices)
              && (Drift(Moved(st, m, prices), prices) >= Drift(st, prices) - 1
                  || Drift(Moved(st, m, prices), prices) >= 0)
    ensures Kept(Moved(st, m, prices))
  {
    var r := prices(m.key);
    var i := SlotFor(DepositKeys(st.deposits), m.key).value;
    var slot := st.deposits[i];
    var moved := MovedDeposit(slot, m.key, m.amount, m.increase);
    assert Kept(Moved(st, m, prices)) by {
      DepositKeepsSlots(st, m.key, m.amount, r, m.increase);
    }
    assert Recomputed(Moved(st, m, prices).deposits, prices)
        == Recomputed(st.deposits, prices) - SlotValue(slot, prices) + SlotValue(moved, prices) by {
      RecomputedUpdate(st.deposits, i, moved, prices);
    }
    SlotMoves(slot, m, prices);
  }

  /** What a move changes in its own slot's value: what was moved is worth, or one unit more. */
  lemma SlotMoves(slot: DepositSlot, m: Move, prices: Pubkey -> Reserve)
    requires m.key != DEFAULT_KEY
    requires slot.reserve == m.key || (slot.reserve == DEFAULT_KEY && slot.amount == 0)
    requires m.increase ==> slot.amount + m.amount <= U64_MAX
                            && (slot.amount + m.amount) * prices(m.key).price <= U128_MAX
    requires !m.increase ==> m.amount <= slot.amount
                             && slot.amount * prices(m.key).price <= U128_MAX
    ensures var r := prices(m.key);
            var worth := TokenValueSf(m.amount, r.price, r.decimals);
            var before := SlotValue(slot, prices);
            var after := SlotValue(MovedDeposit(slot, m.key, m.amount, m.increase), prices);
            if m.increase then before + worth <= after <= before + worth + 1
            else after + worth <= before <= after + worth + 1
  {
    var r := prices(m.key);
    ZeroValue(r.price, r.decimals);
    if m.increase {
      ValueSplits(slot.amount, m.amount, r.price, r.decimals);
    } else {
      ValueSplits(slot.amount - m.amount, m.amount, r.price, r.decimals);
      WithdrawnSlotValue(slot, m.key, m.amount, prices);
    }
  }

  lemma WithdrawnSlotValue(slot: DepositSlot, key: Pubkey, amount: u64, prices: Pubkey -> Reserve)
    requires key != DEFAULT_KEY && amount <= slot.amount
    requires slot.reserve == key || (slot.reserve == DEFAULT_KEY && slot.amount == 0)
    ensures SlotValue(MovedDeposit(slot, key, amount, false), prices)
            == TokenValueSf(slot.amount - amount, prices(key).price, prices(key).decimals)
    ensures SlotValue(slot, prices)
            == TokenValueSf(slot.amount, prices(key).price, prices(key).decimals)
  {
    ZeroValue(prices(key).price, prices(key).decimals);
  }

  predicate Bounded(st: State, withdrawals: nat, deposits: nat, prices: Pubkey -> Reserve) {
    Kept(st) && 0 <= Drift(st, prices) + withdrawals && Drift(st, prices) <= deposits
  }

  lemma MoveStaysBounded(
    st: State, m: Move, withdrawals: nat, deposits: nat, prices: Pubkey -> Reserve)
    requires Bounded(st, withdrawals, deposits, prices) && InRange(st, m, prices)
    ensures m.increase ==> Bounded(Moved(st, m, prices), withdrawals, deposits + 1, prices)
    ensures !m.increase ==> Bounded(Moved(st, m, prices), withdrawals + 1, deposits, prices)
  {
    MoveDrift(st, m, prices);
  }

  /** Since a refresh, the recomputed value exceeds the kept one by at most the number of
      deposits and falls short of it by at most the number of withdrawals. */
  lemma {:induction false} DriftBound(st: State, moves: seq<Move>, prices: Pubkey -> Reserve)
    requires Kept(st) && Drift(st, prices) == 0
    requires RunInRange(st, moves, prices)
    ensures Bounded(RunMoves(st, moves, prices), Count(moves, false), Count(moves, true), prices)
  {
    if |moves| > 0 {
      var earlier, last := moves[..|moves| - 1], moves[|moves| - 1];
      DriftBound(st, earlier, prices);
      MoveStaysBounded(RunMoves(st, earlier, prices), last,
                       Count(earlier, false), Count(earlier, true), prices);
    }
  }

  /** A refresh at the same prices that does not saturate brings the drift back to zero. */
  lemma RefreshClearsDrift(st: State, accounts: seq<Account>, prices: Pubkey -> Reserve)
    requires Carries(accounts, prices) && Recompute(st, accounts).Some?
    requires Recomputed(st.deposits, prices) <= U128_MAX
    ensures Drift(Recompute(st, accounts).value, prices) == 0
  {
    RefreshRecomputes(st.deposits, accounts, prices);
    RefreshKeepsSlots(st.deposits, accounts);
    SameRecomputed(st.deposits, Recompute(st, accounts).value.deposits, prices);
  }

  lemma {:induction false} SameRecomputed(
    a: seq<DepositSlot>, b: seq<DepositSlot>, prices: Pubkey -> Reserve)
    requires |a| == |b|
    requires forall i | 0 <= i < |a| :: a[i].reserve == b[i].reserve && a[i].amount == b[i].amount
    ensures Recomputed(a, prices) == Recomputed(b, prices)
    ensures forall unhealthy ::
              RecomputedLimit(a, prices, unhealthy) == RecomputedLimit(b, prices, unhealthy)
  {
    if |a| > 0 {
      SameRecomputed(a[..|a| - 1], b[..|b| - 1], prices);
    }
  }
}

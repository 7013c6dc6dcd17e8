/** The lending obligation: deposit and borrow slots beside running totals. Each operation is
    specified on a value and performed in place on the account. */
module KlendObligation {
  import opened FixedPoint

  /** A 32-byte account key; a free slot holds the all-zero key. */
  type Pubkey = nat

  const DEFAULT_KEY: Pubkey := 0
  const DEPOSIT_SLOTS: nat := 8
  const BORROW_SLOTS: nat := 5

  datatype DepositSlot = DepositSlot(reserve: Pubkey, amount: u64, marketValue: u128)

  datatype BorrowSlot = BorrowSlot(
    reserve: Pubkey, borrowed: u128, marketValue: u128, adjustedValue: u128)

  datatype Reserve = Reserve(price: u128, decimals: u8, ltvPct: u8, liquidationPct: u8)

  /** An account passed to a refresh: its key and the reserve it holds. */
  datatype Account = Account(key: Pubkey, reserve: Reserve)

  datatype State = State(
    deposits: seq<DepositSlot>,
    borrows: seq<BorrowSlot>,
    deposited: u128,
    allowed: u128,
    unhealthy: u128,
    debt: u128)

  function EmptyState(): State {
    State(seq(DEPOSIT_SLOTS, i => DepositSlot(DEFAULT_KEY, 0, 0)),
          seq(BORROW_SLOTS, i => BorrowSlot(DEFAULT_KEY, 0, 0, 0)), 0, 0, 0, 0)
  }

  function Denominator(decimals: u8): nat
    ensures Denominator(decimals) >= 1
  {
    Min(Pow10(decimals), U128_MAX)
  }

  function TokenValueSf(amount: u64, price: u128, decimals: u8): u128 {
    DivNonNegative(Sat128(amount * price), Denominator(decimals));
    Sat128(amount * price) / Denominator(decimals)
  }

  function Percent(value: u128, pct: u8): u128 {
    Sat128(value * pct) / 100
  }

  function DepositKeys(slots: seq<DepositSlot>): (r: seq<Pubkey>)
    ensures |r| == |slots| && forall i | 0 <= i < |r| :: r[i] == slots[i].reserve
  {
    seq(|slots|, i requires 0 <= i < |slots| => slots[i].reserve)
  }

  function BorrowKeys(slots: seq<BorrowSlot>): (r: seq<Pubkey>)
    ensures |r| == |slots| && forall i | 0 <= i < |r| :: r[i] == slots[i].reserve
  {
    seq(|slots|, i requires 0 <= i < |slots| => slots[i].reserve)
  }

  /** `iter().position()`: the first index holding `key`. */
  function Position(keys: seq<Pubkey>, key: Pubkey): (r: Option<nat>)
    ensures r.Some? ==> r.value < |keys| && keys[r.value] == key && key !in keys[..r.value]
    ensures r.None? <==> key !in keys
  {
    if |keys| == 0 then None
    else
      assert keys == keys[..|keys| - 1] + [keys[|keys| - 1]];
      match Position(keys[..|keys| - 1], key)
      case Some(i) =>
        assert keys[..|keys| - 1][..i] == keys[..i];
        Some(i)
      case None => if keys[|keys| - 1] == key then Some(|keys| - 1) else None
  }

  /** The slot for `key`: its own, else the first free one. */
  function SlotFor(keys: seq<Pubkey>, key: Pubkey): (r: Option<nat>)
    ensures r.Some? ==> r.value < |keys| && (keys[r.value] == key || keys[r.value] == DEFAULT_KEY)
    ensures r.Some? && key in keys ==> keys[r.value] == key
    ensures r.None? <==> key !in keys && DEFAULT_KEY !in keys
  {
    match Position(keys, key)
    case Some(i) => Some(i)
    case None => Position(keys, DEFAULT_KEY)
  }

  // ----- the operations on values -----

  function MovedDeposit(slot: DepositSlot, reserve: Pubkey, amount: u64, increase: bool): DepositSlot {
    if increase then
      slot.(reserve := reserve, amount := Sat64(slot.amount + amount))
    else
      var left := Sat64(slot.amount - amount);
      slot.(reserve := if left == 0 then DEFAULT_KEY else slot.reserve, amount := left)
  }

  function UpdateDeposit(
    st: State, reserve: Pubkey, amount: u64, r: Reserve, increase: bool): Option<State>
  {
    var i :- SlotFor(DepositKeys(st.deposits), reserve);
    var delta := TokenValueSf(amount, r.price, r.decimals);
    var deposited := Sat128(if increase then st.deposited + delta else st.deposited - delta);
    Some(st.(
      deposits := st.deposits[i := MovedDeposit(st.deposits[i], reserve, amount, increase)],
      deposited := deposited,
      allowed := Percent(deposited, r.ltvPct),
      unhealthy := Percent(deposited, r.liquidationPct)))
  }

  function BorrowSlotOf(reserve: Pubkey, value: u128): BorrowSlot {
    BorrowSlot(reserve, value, value, value)
  }

  function ApplyBorrow(
    st: State, reserve: Pubkey, amount: u64, price: u128, decimals: u8): Option<State>
  {
    var i :- SlotFor(BorrowKeys(st.borrows), reserve);
    var delta := TokenValueSf(amount, price, decimals);
    Some(BorrowValue(st, i, reserve, delta))
  }

  function BorrowValue(st: State, i: nat, reserve: Pubkey, delta: u128): State
    requires i < |st.borrows|
  {
    st.(borrows := st.borrows[i := BorrowSlotOf(reserve, Sat128(st.borrows[i].borrowed + delta))],
        debt := Sat128(st.debt + delta))
  }

  function ApplyRepay(
    st: State, reserve: Pubkey, amount: u64, price: u128, decimals: u8): State
  {
    match Position(BorrowKeys(st.borrows), reserve)
    case None => st
    case Some(i) => RepayValue(st, i, TokenValueSf(amount, price, decimals))
  }

  function RepayValue(st: State, i: nat, delta: u128): State
    requires i < |st.borrows|
  {
    var next := Sat128(st.borrows[i].borrowed - delta);
    var key := if next == 0 then DEFAULT_KEY else st.borrows[i].reserve;
    st.(borrows := st.borrows[i := BorrowSlotOf(key, next)],
        debt := Sat128(st.debt - delta))
  }

  /** The first passed account with the given key. */
  function Find(accounts: seq<Account>, key: Pubkey): (r: Option<Reserve>)
    ensures r.None? <==> forall i | 0 <= i < |accounts| :: accounts[i].key != key
  {
    if |accounts| == 0 then None
    else if accounts[0].key == key then Some(accounts[0].reserve)
    else Find(accounts[1..], key)
  }

  /** Slots and running totals after refreshing a prefix of the deposits. */
  datatype Totals = Totals(slots: seq<DepositSlot>, deposited: u128, allowed: u128, unhealthy: u128)

  function RefreshSlot(t: Totals, slot: DepositSlot, accounts: seq<Account>): Option<Totals> {
    if slot.reserve == DEFAULT_KEY then Some(t.(slots := t.slots + [slot])) else
    var r :- Find(accounts, slot.reserve);
    var value := TokenValueSf(slot.amount, r.price, r.decimals);
    Some(Totals(
      t.slots + [slot.(marketValue := value)],
      Sat128(t.deposited + value),
      Sat128(t.allowed + Percent(value, r.ltvPct)),
      Sat128(t.unhealthy + Percent(value, r.liquidationPct))))
  }

  function RefreshSlots(slots: seq<DepositSlot>, accounts: seq<Account>): (t: Option<Totals>)
    ensures t.Some? ==> |t.value.slots| == |slots|
    ensures t.None? <==> exists i :: 0 <= i < |slots| && slots[i].reserve != DEFAULT_KEY
                                     && Find(accounts, slots[i].reserve).None?
  {
    if |slots| == 0 then Some(Totals([], 0, 0, 0))
    else
      assert slots == slots[..|slots| - 1] + [slots[|slots| - 1]];
      var t :- RefreshSlots(slots[..|slots| - 1], accounts);
      RefreshSlot(t, slots[|slots| - 1], accounts)
  }

  /** `None` is a missing reserve, which leaves the account as it was. */
  function Recompute(st: State, accounts: seq<Account>): Option<State> {
    var t :- RefreshSlots(st.deposits, accounts);
    Some(st.(deposits := t.slots, deposited := t.deposited,
             allowed := t.allowed, unhealthy := t.unhealthy))
  }

  // ----- the account -----

  class Obligation {
    var deposits: array<DepositSlot>
    var borrows: array<BorrowSlot>
    var depositedValueSf: u128
    var allowedBorrowValueSf: u128
    var unhealthyBorrowValueSf: u128
    var debtValueSf: u128

    function Contents(): State
      reads this, deposits, borrows
    {
      State(deposits[..], borrows[..], depositedValueSf,
            allowedBorrowValueSf, unhealthyBorrowValueSf, debtValueSf)
    }

    constructor ()
      ensures fresh(deposits) && fresh(borrows) && Contents() == EmptyState()
    {
      deposits := new DepositSlot[DEPOSIT_SLOTS](i => DepositSlot(DEFAULT_KEY, 0, 0));
      borrows := new BorrowSlot[BORROW_SLOTS](i => BorrowSlot(DEFAULT_KEY, 0, 0, 0));
      depositedValueSf, allowedBorrowValueSf := 0, 0;
      unhealthyBorrowValueSf, debtValueSf := 0, 0;
    }

    method FindDeposit(key: Pubkey) returns (r: Option<nat>)
      ensures r == Position(DepositKeys(deposits[..]), key)
    {
      var keys := DepositKeys(deposits[..]);
      for i := 0 to deposits.Length
        invariant key !in keys[..i]
      {
        if deposits[i].reserve == key {
          PositionUnique(keys, key, i);
          return Some(i);
        }
      }
      assert keys[..|keys|] == keys;
      r := None;
    }

    method FindBorrow(key: Pubkey) returns (r: Option<nat>)
      ensures r == Position(BorrowKeys(borrows[..]), key)
    {
      var keys := BorrowKeys(borrows[..]);
      for i := 0 to borrows.Length
        invariant key !in keys[..i]
      {
        if borrows[i].reserve == key {
          PositionUnique(keys, key, i);
          return Some(i);
        }
      }
      assert keys[..|keys|] == keys;
      r := None;
    }

    /** `update_obligation_deposit`; false is `NoFreeObligationSlot`. */
    method UpdateObligationDeposit(reserve: Pubkey, amount: u64, r: Reserve, increase: bool)
      returns (ok: bool)
      modifies this, deposits
      ensures deposits == old(deposits) && borrows == old(borrows)
      ensures match UpdateDeposit(old(Contents()), reserve, amount, r, increase)
              case Some(next) => ok && Contents() == next
              case None => !ok && Contents() == old(Contents())
    {
      var slot := FindDeposit(reserve);
      if slot.None? {
        slot := FindDeposit(DEFAULT_KEY);
        if slot.None? { return false; }
      }
      var i := slot.value;
      ghost var before := Contents();
      if increase {
        deposits[i] := deposits[i].(reserve := reserve, amount := Sat64(deposits[i].amount + amount));
      } else {
        deposits[i] := deposits[i].(amount := Sat64(deposits[i].amount - amount));
        if deposits[i].amount == 0 {
          deposits[i] := deposits[i].(reserve := DEFAULT_KEY);
        }
      }
      assert deposits[..]
          == before.deposits[i := MovedDeposit(before.deposits[i], reserve, amount, increase)];
      var delta := TokenValueSf(amount, r.price, r.decimals);
      if increase {
        depositedValueSf := Sat128(depositedValueSf + delta);
      } else {
        depositedValueSf := Sat128(depositedValueSf - delta);
      }
      allowedBorrowValueSf := Percent(depositedValueSf, r.ltvPct);
      unhealthyBorrowValueSf := Percent(depositedValueSf, r.liquidationPct);
      ok := true;
    }

    /** `apply_borrow`; false is `NoFreeObligationSlot`. */
    method Borrow(reserve: Pubkey, amount: u64, price: u128, decimals: u8) returns (ok: bool)
      modifies this, borrows
      ensures deposits == old(deposits) && borrows == old(borrows)
      ensures match ApplyBorrow(old(Contents()), reserve, amount, price, decimals)
              case Some(next) => ok && Contents() == next
              case None => !ok && Contents() == old(Contents())
    {
      var slot := FindBorrow(reserve);
      if slot.None? {
        slot := FindBorrow(DEFAULT_KEY);
        if slot.None? { return false; }
      }
      var i := slot.value;
      var delta := TokenValueSf(amount, price, decimals);
      borrows[i] := borrows[i].(reserve := reserve, borrowed := Sat128(borrows[i].borrowed + delta));
      borrows[i] := borrows[i].(marketValue := borrows[i].borrowed);
      borrows[i] := borrows[i].(adjustedValue := borrows[i].borrowed);
      debtValueSf := Sat128(debtValueSf + delta);
      ok := true;
    }

    /** `apply_repay`; a reserve with no slot is ignored. */
    method Repay(reserve: Pubkey, amount: u64, price: u128, decimals: u8)
      modifies this, borrows
      ensures deposits == old(deposits) && borrows == old(borrows)
      ensures Contents() == ApplyRepay(old(Contents()), reserve, amount, price, decimals)
    {
      var slot := FindBorrow(reserve);
      if slot.Some? {
        var i := slot.value;
        var delta := TokenValueSf(amount, price, decimals);
        var next := Sat128(borrows[i].borrowed - delta);
        borrows[i] := borrows[i].(borrowed := next, marketValue := next, adjustedValue := next);
        if next == 0 {
          borrows[i] := borrows[i].(reserve := DEFAULT_KEY);
        }
        debtValueSf := Sat128(debtValueSf - delta);
      }
    }

    /** `recompute_obligation_values`; false is `MissingRefreshReserve`. The account is
        written only after every slot has been priced. */
    method RecomputeValues(accounts: seq<Account>) returns (ok: bool)
      modifies this, deposits
      ensures deposits == old(deposits) && borrows == old(borrows)
      ensures match Recompute(old(Contents()), accounts)
              case Some(next) => ok && Contents() == next
              case None => !ok && Contents() == old(Contents())
    {
      var slots := deposits[..];
      var priced: seq<DepositSlot> := [];
      var depositedTotal: u128, allowedTotal: u128, unhealthyTotal: u128 := 0, 0, 0;
      for i := 0 to |slots|
        invariant Contents() == old(Contents()) && deposits == old(deposits)
        invariant borrows == old(borrows) && slots == deposits[..]
        invariant RefreshSlots(slots[..i], accounts)
                  == Some(Totals(priced, depositedTotal, allowedTotal, unhealthyTotal))
      {
        assert slots[..i + 1][..i] == slots[..i];
        var slot := slots[i];
        if slot.reserve == DEFAULT_KEY {
          priced := priced + [slot];
        } else {
          var found := Find(accounts, slot.reserve);
          if found.None? { return false; }
          var r := found.value;
          var value := TokenValueSf(slot.amount, r.price, r.decimals);
          priced := priced + [slot.(marketValue := value)];
          depositedTotal := Sat128(depositedTotal + value);
          allowedTotal := Sat128(allowedTotal + Percent(value, r.ltvPct));
          unhealthyTotal := Sat128(unhealthyTotal + Percent(value, r.liquidationPct));
        }
      }
      assert slots[..|slots|] == slots;
      forall i | 0 <= i < deposits.Length {
        deposits[i] := priced[i];
      }
      assert deposits[..] == priced;
      depositedValueSf := depositedTotal;
      allowedBorrowValueSf := allowedTotal;
      unhealthyBorrowValueSf := unhealthyTotal;
      ok := true;
    }
  }

  lemma {:induction false} PositionUnique(keys: seq<Pubkey>, key: Pubkey, i: nat)
    requires i < |keys| && keys[i] == key && key !in keys[..i]
    ensures Position(keys, key) == Some(i)
  {
  }
}

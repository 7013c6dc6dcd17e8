/** Which reserve accounts the program hands to a refresh, and why they suffice. */
module RefreshReserves {
  import opened FixedPoint
  import opened KlendObligation

  /** The non-default keys, in slot order. */
  function Active(keys: seq<Pubkey>): (r: seq<Pubkey>)
    ensures forall k :: k in r <==> k in keys && k != DEFAULT_KEY
    ensures |r| <= |keys|
  {
    if |keys| == 0 then []
    else
      assert keys == keys[..|keys| - 1] + [keys[|keys| - 1]];
      Active(keys[..|keys| - 1])
      + (if keys[|keys| - 1] == DEFAULT_KEY then [] else [keys[|keys| - 1]])
  }

  /** The keys in use keep their slot order: a list's are its parts' in turn. */
  lemma {:induction false} ActiveInOrder(a: seq<Pubkey>, b: seq<Pubkey>, key: Pubkey)
    ensures Active(a + b) == Active(a) + Active(b)
    ensures Active([]) == [] && Active([DEFAULT_KEY]) == []
    ensures key != DEFAULT_KEY ==> Active([key]) == [key]
  {
    assert [key][..0] == [];
    if |b| == 0 {
      assert a + b == a;
    } else {
      assert (a + b)[..|a + b| - 1] == a + b[..|b| - 1];
      ActiveInOrder(a, b[..|b| - 1], key);
    }
  }

  /** Active deposits, then active borrows. */
  function Required(st: State): seq<Pubkey> {
    Active(DepositKeys(st.deposits)) + Active(BorrowKeys(st.borrows))
  }

  /** The slot scan: walks the slots and collects the keys in use. */
  method ActiveReserves(keys: seq<Pubkey>) returns (reserves: seq<Pubkey>)
    ensures reserves == Active(keys)
  {
    reserves := [];
    for i := 0 to |keys|
      invariant reserves == Active(keys[..i])
    {
      assert keys[..i + 1][..i] == keys[..i];
      if keys[i] != DEFAULT_KEY {
        reserves := reserves + [keys[i]];
      }
    }
    assert keys[..|keys|] == keys;
  }

  /** The slot scan that stops at the first key in use. */
  method HasAnyReserve(keys: seq<Pubkey>) returns (any: bool)
    ensures any <==> Active(keys) != []
  {
    for i := 0 to |keys|
      invariant forall j | 0 <= j < i :: keys[j] == DEFAULT_KEY
    {
      if keys[i] != DEFAULT_KEY {
        assert keys[i] in Active(keys);
        return true;
      }
    }
    NoneActive(keys);
    any := false;
  }

  lemma {:induction false} NoneActive(keys: seq<Pubkey>)
    ensures Active(keys) == [] <==> forall i | 0 <= i < |keys| :: keys[i] == DEFAULT_KEY
  {
    if |keys| > 0 {
      NoneActive(keys[..|keys| - 1]);
    }
  }

  /** The account chosen for one required key. */
  function Pick(key: Pubkey, current: Account, remaining: seq<Account>): Option<Account> {
    if key == current.key then Some(current) else
    match Find(remaining, key)
    case None => None
    case Some(r) => Some(Account(key, r))
  }

  /** One account for each key, in order, or None when some key was not passed. */
  function Resolve(keys: seq<Pubkey>, current: Account, remaining: seq<Account>):
    (r: Option<seq<Account>>)
    ensures r.None? <==> exists k :: k in keys && Pick(k, current, remaining).None?
    ensures r.Some? ==> Resolves(keys, current, remaining, r.value)
  {
    if |keys| == 0 then Some([])
    else
      assert keys == keys[..|keys| - 1] + [keys[|keys| - 1]];
      var rest :- Resolve(keys[..|keys| - 1], current, remaining);
      var account :- Pick(keys[|keys| - 1], current, remaining);
      Some(rest + [account])
  }

  ghost predicate Resolves(
    keys: seq<Pubkey>, current: Account, remaining: seq<Account>, resolved: seq<Account>)
  {
    && |resolved| == |keys|
    && forall i | 0 <= i < |keys| :: Pick(keys[i], current, remaining) == Some(resolved[i])
  }

  /** `resolve_active_refresh_reserves`: one account for each required key, in order, or
      `None` when some required key was not passed. */
  method ResolveActiveRefreshReserves(st: State, current: Account, remaining: seq<Account>)
    returns (resolved: Option<seq<Account>>)
    ensures resolved.None? <==> exists k :: k in Required(st) && Pick(k, current, remaining).None?
    ensures resolved.Some? ==>
              && |resolved.value| == |Required(st)|
              && forall i | 0 <= i < |Required(st)| ::
                   Pick(Required(st)[i], current, remaining) == Some(resolved.value[i])
    ensures resolved == Resolve(Required(st), current, remaining)
  {
    var required := ActiveReserves(DepositKeys(st.deposits));
    var borrowed := ActiveReserves(BorrowKeys(st.borrows));
    required := required + borrowed;
    var accounts: seq<Account> := [];
    for i := 0 to |required|
      invariant Resolve(required[..i], current, remaining) == Some(accounts)
    {
      assert required[..i + 1][..i] == required[..i];
      if required[i] == current.key {
        accounts := accounts + [current];
      } else {
        var matching := Find(remaining, required[i]);
        if matching.None? {
          assert Pick(required[i], current, remaining).None?;
          return None;
        }
        accounts := accounts + [Account(required[i], matching.value)];
      }
    }
    assert required[..|required|] == required;
    resolved := Some(accounts);
  }

  /** Looking a key up among accounts that were each picked for their own key. */
  lemma {:induction false} FindPicked(
    keys: seq<Pubkey>, accounts: seq<Account>, current: Account, remaining: seq<Account>, key: Pubkey)
    requires |accounts| == |keys| && key in keys
    requires forall i | 0 <= i < |keys| :: Pick(keys[i], current, remaining) == Some(accounts[i])
    ensures Find(accounts, key) == Find([current] + remaining, key)
  {
    assert ([current] + remaining)[1..] == remaining;
    if keys[0] != key {
      FindPicked(keys[1..], accounts[1..], current, remaining, key);
    }
  }

  lemma {:induction false} SameLookup(slots: seq<DepositSlot>, a: seq<Account>, b: seq<Account>)
    requires forall i | 0 <= i < |slots| && slots[i].reserve != DEFAULT_KEY ::
               Find(a, slots[i].reserve) == Find(b, slots[i].reserve)
    ensures RefreshSlots(slots, a) == RefreshSlots(slots, b)
  {
    if |slots| > 0 {
      SameLookup(slots[..|slots| - 1], a, b);
    }
  }

  /** A refresh on the resolved accounts never misses a reserve, and computes what a refresh
      on everything that was passed would. */
  lemma ResolvedRefresh(st: State, current: Account, remaining: seq<Account>, resolved: seq<Account>)
    requires Resolves(Required(st), current, remaining, resolved)
    ensures Recompute(st, resolved).Some?
    ensures Recompute(st, resolved) == Recompute(st, [current] + remaining)
  {
    var all := [current] + remaining;
    forall i | 0 <= i < |st.deposits| && st.deposits[i].reserve != DEFAULT_KEY
      ensures Find(resolved, st.deposits[i].reserve) == Find(all, st.deposits[i].reserve)
      ensures Find(all, st.deposits[i].reserve).Some?
    {
      var key := st.deposits[i].reserve;
      assert DepositKeys(st.deposits)[i] == key;
      assert key in Required(st);
      var j :| 0 <= j < |Required(st)| && Required(st)[j] == key;
      assert Pick(key, current, remaining) == Some(resolved[j]);
      FindPicked(Required(st), resolved, current, remaining, key);
      assert all[1..] == remaining;
    }
    SameLookup(st.deposits, resolved, all);
  }

  /** With no active slot the program refreshes with no accounts at all, which succeeds and
      zeroes the collateral totals. */
  lemma InactiveRefresh(st: State)
    requires Required(st) == []
    ensures Recompute(st, []).Some?
    ensures var next := Recompute(st, []).value;
            next.deposited == next.allowed == next.unhealthy == 0 && next.deposits == st.deposits
  {
    var keys := DepositKeys(st.deposits);
    assert |Active(keys)| == 0;
    NoneActive(keys);
    forall i | 0 <= i < |st.deposits| ensures st.deposits[i].reserve == DEFAULT_KEY {
      assert keys[i] == st.deposits[i].reserve;
    }
    FreeSlotsRefresh(st.deposits);
  }

  lemma {:induction false} FreeSlotsRefresh(slots: seq<DepositSlot>)
    requires forall i | 0 <= i < |slots| :: slots[i].reserve == DEFAULT_KEY
    ensures RefreshSlots(slots, []) == Some(Totals(slots, 0, 0, 0))
  {
    if |slots| > 0 {
      FreeSlotsRefresh(slots[..|slots| - 1]);
      assert slots == slots[..|slots| - 1] + [slots[|slots| - 1]];
    }
  }
}

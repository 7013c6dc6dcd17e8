/** Conversions between vault assets and vault shares. */
module VaultShares {
  import opened FixedPoint
  import opened Errors

  /** The four numbers every conversion reads. */
  datatype Pool = Pool(assets: u128, supply: u64, virtualAssets: u64, virtualShares: u64) {
    function N(): nat { assets + virtualAssets }

    function M(): nat { supply + virtualShares }

    /** Neither total is zero, so conversions follow the ratio `N / M`. */
    predicate Priced() { N() > 0 && M() > 0 }

    predicate Empty() { assets == 0 && supply == 0 }
  }

  function MulDivFloor(a: u128, b: u128, denominator: u128): Result<u128> {
    if denominator == 0 then Err(DivisionByZero) else
    var numerator :- OkOr(U128(a * b), Overflow);
    OkOr(U128(numerator / denominator), Overflow)
  }

  function MulDivCeil(a: u128, b: u128, denominator: u128): Result<u128> {
    if denominator == 0 then Err(DivisionByZero) else
    var numerator :- OkOr(U128(a * b), Overflow);
    var quotient := numerator / denominator;
    if numerator % denominator == 0 then OkOr(U128(quotient), Overflow)
    else OkOr(U128(quotient + 1), Overflow)
  }

  /** All four conversions share this shape: two checked totals, a bootstrap case where a
      total is zero, a rounded product and a cast back to u64. */
  function Convert(amount: u64, pool: Pool, toShares: bool, roundUp: bool): Result<u64> {
    var assetTotal :- OkOr(U128(pool.N()), Overflow);
    var shareTotal :- OkOr(U128(pool.M()), Overflow);
    if assetTotal == 0 || shareTotal == 0 then
      if pool.Empty() then Ok(amount) else Err(DivisionByZero)
    else
      var numerator := if toShares then shareTotal else assetTotal;
      var denominator := if toShares then assetTotal else shareTotal;
      var scaled :- if roundUp then MulDivCeil(amount, numerator, denominator)
                    else MulDivFloor(amount, numerator, denominator);
      OkOr(U64(scaled), CastError)
  }

  function ConvertToSharesFloor(assetsIn: u64, pool: Pool): Result<u64> {
    Convert(assetsIn, pool, true, false)
  }

  function ConvertToAssetsFloor(sharesIn: u64, pool: Pool): Result<u64> {
    Convert(sharesIn, pool, false, false)
  }

  function ConvertToAssetsCeil(sharesOut: u64, pool: Pool): Result<u64> {
    Convert(sharesOut, pool, false, true)
  }

  function ConvertToSharesCeil(assetsOut: u64, pool: Pool): Result<u64> {
    Convert(assetsOut, pool, true, true)
  }

  /** A successful floor is the largest `r` with `r * d <= amount * n`, and a successful
      ceiling the least with `amount * n <= r * d`. */
  lemma ConvertBounds(amount: u64, pool: Pool, toShares: bool, roundUp: bool)
    requires pool.Priced() && Convert(amount, pool, toShares, roundUp).Ok?
    ensures var r := Convert(amount, pool, toShares, roundUp).value;
            var n := if toShares then pool.M() else pool.N();
            var d := if toShares then pool.N() else pool.M();
            && (!roundUp ==> r * d <= amount * n < r * d + d)
            && (!roundUp ==> forall k: int :: k <= r <==> k * d <= amount * n)
            && (roundUp ==> amount * n <= r * d < amount * n + d)
            && (roundUp ==> forall k: int :: r <= k <==> amount * n <= k * d)
  {
    var n := if toShares then pool.M() else pool.N();
    var d := if toShares then pool.N() else pool.M();
    DivBounds(amount * n, d);
    CeilBounds(amount * n, d);
    forall k: int
      ensures k <= amount * n / d <==> k * d <= amount * n
      ensures CeilDiv(amount * n, d) <= k <==> amount * n <= k * d
    {
      FloorGreatest(amount * n, d, k);
      CeilLeast(amount * n, d, k);
    }
  }

  /** A conversion's failures before it divides: totals or product too large, or a zero total
      on a pool that is not empty. */
  lemma ConvertErrors(amount: u64, pool: Pool, toShares: bool, roundUp: bool)
    ensures var r := Convert(amount, pool, toShares, roundUp);
            var n := if toShares then pool.M() else pool.N();
            && (r == Err(Overflow)
                <==> pool.N() > U128_MAX || (pool.Priced() && amount * n > U128_MAX))
            && (r == Err(DivisionByZero)
                <==> pool.N() <= U128_MAX && !pool.Priced() && !pool.Empty())
            && (r.Err? ==> r.error in {Overflow, DivisionByZero, CastError})
  {
    if pool.Priced() && pool.N() <= U128_MAX {
      var n := if toShares then pool.M() else pool.N();
      var d := if toShares then pool.N() else pool.M();
      if amount * n <= U128_MAX {
        QuotientFits(amount * n, d);
      }
    }
  }

  lemma QuotientFits(product: int, d: nat)
    requires d > 0 && 0 <= product <= U128_MAX
    ensures 0 <= product / d <= CeilDiv(product, d) <= U128_MAX
  {
    DivNonNegative(product, d);
    MulMono(1, d, U128_MAX);
    CeilLeast(product, d, U128_MAX);
  }

  /** A priced conversion whose product fits fails exactly when the rounded result does not
      fit a u64. */
  lemma CastErrors(amount: u64, pool: Pool, toShares: bool, roundUp: bool)
    requires pool.Priced() && pool.N() <= U128_MAX
    requires amount * (if toShares then pool.M() else pool.N()) <= U128_MAX
    ensures var n := if toShares then pool.M() else pool.N();
            var d := if toShares then pool.N() else pool.M();
            Convert(amount, pool, toShares, roundUp) == Err(CastError)
            <==> if roundUp then U64_MAX * d < amount * n else (U64_MAX + 1) * d <= amount * n
  {
    var n := if toShares then pool.M() else pool.N();
    var d := if toShares then pool.N() else pool.M();
    ScaledFits(amount, n, d);
    FloorGreatest(amount * n, d, U64_MAX + 1);
    CeilLeast(amount * n, d, U64_MAX);
  }

  lemma ScaledFits(a: u128, b: u128, d: u128)
    requires d > 0 && a * b <= U128_MAX
    ensures MulDivFloor(a, b, d) == Ok(a * b / d)
    ensures MulDivCeil(a, b, d) == Ok(CeilDiv(a * b, d))
    ensures a * b / d >= 0
  {
    MulMono(0, a, b);
    QuotientFits(a * b, d);
  }

  /** Burning `shares` covers a withdrawal of `assets` exactly when redeeming `shares`
      pays at least `assets`, bootstrap included. */
  lemma WithdrawRedeemGalois(pool: Pool, assets: u64, shares: u64)
    requires ConvertToSharesCeil(assets, pool).Ok? && ConvertToAssetsFloor(shares, pool).Ok?
    ensures ConvertToSharesCeil(assets, pool).value <= shares
            <==> assets <= ConvertToAssetsFloor(shares, pool).value
  {
    if pool.Priced() {
      ConvertBounds(assets, pool, true, true);
      ConvertBounds(shares, pool, false, false);
    }
  }

  /** Paying `assets` covers a mint of `shares` exactly when depositing `assets` yields at
      least `shares`, bootstrap included. */
  lemma MintDepositGalois(pool: Pool, assets: u64, shares: u64)
    requires ConvertToAssetsCeil(shares, pool).Ok? && ConvertToSharesFloor(assets, pool).Ok?
    ensures ConvertToAssetsCeil(shares, pool).value <= assets
            <==> shares <= ConvertToSharesFloor(assets, pool).value
  {
    if pool.Priced() {
      ConvertBounds(shares, pool, false, true);
      ConvertBounds(assets, pool, true, false);
    }
  }

  /** Cross-multiplied comparison of the two pools' asset-per-share ratios. */
  predicate RatioAtMost(before: Pool, after: Pool) {
    before.N() * after.M() <= after.N() * before.M()
  }

  /** A pool where `assets` came in or went out against `shares`. */
  function Moved(pool: Pool, assets: int, shares: int): Option<Pool> {
    var newAssets :- U128(pool.assets + assets);
    var newSupply :- U64(pool.supply + shares);
    Some(pool.(assets := newAssets, supply := newSupply))
  }

  /** A move keeps the ratio from falling exactly when it brings in at least what its
      shares are worth. */
  lemma MoveKeepsRatio(pool: Pool, assets: int, shares: int)
    requires Moved(pool, assets, shares).Some?
    ensures RatioAtMost(pool, Moved(pool, assets, shares).value)
            <==> shares * pool.N() <= assets * pool.M()
  {
    var after := Moved(pool, assets, shares).value;
    assert pool.N() * after.M() == pool.N() * pool.M() + shares * pool.N();
    assert after.N() * pool.M() == pool.N() * pool.M() + assets * pool.M();
  }

  /** The offsets under which an empty vault may safely price its first deposit. */
  predicate SoundOffsets(virtualAssets: u64, virtualShares: u64) {
    virtualShares > 0 || virtualAssets == 0
  }

  /** A conversion that hands out shares for incoming assets, by either preview. */
  predicate PricesDeposit(pool: Pool, assets: u64, shares: u64) {
    ConvertToSharesFloor(assets, pool) == Ok(shares)
    || ConvertToAssetsCeil(shares, pool) == Ok(assets)
  }

  /** A conversion that pays assets out for burned shares, by either preview. */
  predicate PricesWithdrawal(pool: Pool, assets: u64, shares: u64) {
    ConvertToAssetsFloor(shares, pool) == Ok(assets)
    || ConvertToSharesCeil(assets, pool) == Ok(shares)
  }

  /** All four previews round in the vault's favour. */
  lemma PreviewsFavourVault(pool: Pool, assets: u64, shares: u64)
    requires pool.Priced()
    ensures PricesDeposit(pool, assets, shares) ==> shares * pool.N() <= assets * pool.M()
    ensures PricesWithdrawal(pool, assets, shares) ==> assets * pool.M() <= shares * pool.N()
  {
    if ConvertToSharesFloor(assets, pool) == Ok(shares) {
      ConvertBounds(assets, pool, true, false);
    }
    if ConvertToAssetsCeil(shares, pool) == Ok(assets) {
      ConvertBounds(shares, pool, false, true);
    }
    if ConvertToAssetsFloor(shares, pool) == Ok(assets) {
      ConvertBounds(shares, pool, false, false);
    }
    if ConvertToSharesCeil(assets, pool) == Ok(shares) {
      ConvertBounds(assets, pool, true, true);
    }
  }

  lemma DepositKeepsRatio(pool: Pool, assets: u64, shares: u64)
    requires SoundOffsets(pool.virtualAssets, pool.virtualShares)
    requires PricesDeposit(pool, assets, shares) && Moved(pool, assets, shares).Some?
    ensures RatioAtMost(pool, Moved(pool, assets, shares).value)
  {
    assert shares * pool.N() <= assets * pool.M() by {
      if pool.Priced() {
        PreviewsFavourVault(pool, assets, shares);
      } else {
        UnpricedIsEmpty(pool, assets, shares);
      }
    }
    MoveKeepsRatio(pool, assets, shares);
  }

  lemma UnpricedIsEmpty(pool: Pool, assets: u64, shares: u64)
    requires SoundOffsets(pool.virtualAssets, pool.virtualShares) && !pool.Priced()
    requires PricesDeposit(pool, assets, shares)
    ensures shares * pool.N() <= assets * pool.M()
  {
    ConvertErrors(assets, pool, true, false);
    ConvertErrors(shares, pool, false, true);
    assert pool.N() == 0;
  }

  lemma WithdrawalKeepsRatio(pool: Pool, assets: u64, shares: u64)
    requires PricesWithdrawal(pool, assets, shares)
    requires Moved(pool, 0 - assets, 0 - shares).Some?
    ensures RatioAtMost(pool, Moved(pool, 0 - assets, 0 - shares).value)
  {
    MoveKeepsRatio(pool, 0 - assets, 0 - shares);
    if pool.Priced() {
      PreviewsFavourVault(pool, assets, shares);
      assert (0 - shares) * pool.N() == 0 - shares * pool.N();
      assert (0 - assets) * pool.M() == 0 - assets * pool.M();
    }
  }

  lemma RoundTripLoss(n: nat, m: nat, x: nat, shares: nat, back: nat)
    requires m + shares > 0
    requires shares * n <= x * m < shares * n + n
    requires back * (m + shares) <= shares * (n + x) < back * (m + shares) + (m + shares)
    ensures x - CeilDiv(n, m + shares) <= back <= x
  {
    var d := m + shares;
    var loss := CeilDiv(n, d);
    CeilBounds(n, d);
    assert shares * (n + x) == shares * n + shares * x;
    assert x * d == x * m + shares * x;
    MulCancelLe(back, x, d);
    assert (back + 1) * d == back * d + d;
    assert (x - loss) * d == x * d - loss * d;
    MulCancel(x - loss, back + 1, d);
  }

  /** Depositing `x` and redeeming the shares at once never profits, and costs at most the
      price of one share rounded up. */
  lemma DepositRedeemRoundTrip(pool: Pool, x: u64, shares: u64, back: u64)
    requires pool.Priced()
    requires ConvertToSharesFloor(x, pool) == Ok(shares)
    requires Moved(pool, x, shares).Some?
    requires ConvertToAssetsFloor(shares, Moved(pool, x, shares).value) == Ok(back)
    ensures x - CeilDiv(pool.N(), pool.M() + shares) <= back <= x
  {
    var after := Moved(pool, x, shares).value;
    ConvertBounds(x, pool, true, false);
    ConvertBounds(shares, after, false, false);
    assert after.N() == pool.N() + x && after.M() == pool.M() + shares;
    RoundTripLoss(pool.N(), pool.M(), x, shares, back);
  }

  lemma BurnCovers(n: nat, m: nat, shares: nat, paid: nat, burned: nat)
    requires n + paid > 0
    requires shares * n <= paid * m
    requires paid * (m + shares) <= burned * (n + paid)
    ensures burned >= shares
  {
    assert paid * (m + shares) == paid * m + paid * shares;
    assert shares * (n + paid) == shares * n + paid * shares;
    MulCancelLe(shares, burned, n + paid);
  }

  /** Minting `shares` and withdrawing what was paid burns at least those shares. */
  lemma MintWithdrawRoundTrip(pool: Pool, shares: u64, paid: u64, burned: u64)
    requires pool.Priced()
    requires ConvertToAssetsCeil(shares, pool) == Ok(paid)
    requires Moved(pool, paid, shares).Some?
    requires ConvertToSharesCeil(paid, Moved(pool, paid, shares).value) == Ok(burned)
    ensures burned >= shares
  {
    var after := Moved(pool, paid, shares).value;
    ConvertBounds(shares, pool, false, true);
    ConvertBounds(paid, after, true, true);
    assert after.N() == pool.N() + paid && after.M() == pool.M() + shares;
    BurnCovers(pool.N(), pool.M(), shares, paid, burned);
  }

  lemma FirstClaim(x: nat, va: nat, vs: nat, back: nat)
    requires x > 0 && (va == 0 || vs == 0)
    requires back * (x + vs) <= x * (x + va) < back * (x + vs) + (x + vs)
    ensures vs == 0 ==> back == x + va
    ensures vs > 0 ==> back < x && back * (x + vs) <= x * x
  {
    if vs == 0 {
      assert x * (x + va) == (x + va) * x;
      MulCancelLe(back, x + va, x);
      assert (back + 1) * x == back * x + x;
      MulCancel(x + va, back + 1, x);
    } else {
      MulStrict(x, x + vs, x);
      assert x * (x + vs) == (x + vs) * x;
      MulCancel(back, x, x + vs);
    }
  }

  /** In the bootstrap case the first depositor gets one share per token, and redeeming
      them at once returns the deposit scaled by the virtual offsets: less than was paid
      when only virtual shares are set, more when only virtual assets are, and exactly the
      deposit when neither is. */
  lemma BootstrapRoundTrip(pool: Pool, after: Pool, x: u64, back: u64)
    requires pool.Empty() && !pool.Priced() && x > 0
    requires after == pool.(assets := x, supply := x)
    requires ConvertToAssetsFloor(x, after) == Ok(back)
    ensures pool.virtualShares == 0 ==> back == x + pool.virtualAssets
    ensures pool.virtualShares > 0 ==> back < x && back * (x + pool.virtualShares) <= x * x
  {
    ConvertBounds(x, after, false, false);
    var va, vs := pool.virtualAssets, pool.virtualShares;
    assert after.N() == x + va;
    assert after.M() == x + vs;
    FirstClaim(x, va, vs, back);
  }
}

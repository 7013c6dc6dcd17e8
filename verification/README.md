# Cushion: verified model

Cushion protects borrowers on a lending market. A shared vault lends collateral to positions whose
loan-to-value ratio (LTV) crosses an insuring threshold, takes it back with interest when they
recover, and liquidates them itself when they do not. An off-chain keeper watches positions and
submits those actions. This project models the integer arithmetic, the ledgers and the keeper's
protocol, and proves what they keep.

Amounts are u64, values are u128 in units of 10^-18 (WAD), and every division truncates. Checked
operations return `Option` or `Result`; saturating ones are written out as `Sat64` and `Sat128`.
Proofs are carried out on unbounded integers. A failed instruction rolls back.

| file | what it models |
|---|---|
| `FixedPoint`, `Errors` | machine integers, constants, facts about truncating division; the program's error codes |
| `HealthFactor`, `InjectMath`, `InterestMath` | the program's pure arithmetic |
| `VaultShares`, `VaultLedger`, `VaultRuns`, `VaultFlows` | share conversions, the four liquidity instructions as a class and as steps, whole runs, and runs together with positions |
| `KlendObligation`, `ObligationRuns`, `CacheDrift`, `RefreshReserves` | the lending obligation as a class over slot arrays and as values, its invariants over runs, the drift of its cached value, refresh |
| `BorrowGate` | the safety check before a borrow, against the lending program's gate |
| `PositionOps`, `BufferCycle` | inject, withdraw, liquidate and the swaps before it, and whole runs of a position |
| `HysteresisMath`, `Hysteresis`, `HysteresisGuards`, `CycleHysteresis`, `HysteresisLimits`, `Liquidation` | what injections, withdrawals and liquidations guarantee, alone and over runs, and inputs where they do not |
| `KeeperWithdraw`, `LtvWorker`, `WorkerAgreement`, `WorkerJobs`, `DedupQueue`, `PositionWatcher`, `WatcherReports`, `KeeperPipeline` | the keeper's computations and protocol |
| `PriceCycle` | the price simulation's target prices |

## Results

- **Hysteresis, exactly.** With `d` the value an injection adds and `e` the value a withdrawal takes
  out, both known before the call, `p` the reserve's limit in hundredths, and to within the floors:
  an injection leaves the ratio the keeper reads above the withdraw threshold exactly when
  `debt > 0.7433 * (allowed + p*d)` (`InjectionLands`); the withdraw instruction then refuses exactly
  when `debt * (deposited + d)` exceeds `0.7433 * (allowed + p*d)` times what it leaves
  (`WithdrawAfterInjection`); and a withdrawal leaves the position injectable exactly when
  `debt > 0.85 * (allowed - p*e)` (`WithdrawalLands`). Nothing is asked of the other collateral or
  of the prices, only that no percentage saturates, which takes 10^18 WAD.
- **Hysteresis, whatever the debt.** On positions of at least 2 * 10^7 units (2 * 10^-11 of a WAD)
  whose limit is at least 1%, these lines are met at every debt the instructions accept: for the
  withdraw instruction when the reserve lends at most 1.14 times what the position's collateral
  lends on average, at any vault price, or 2.29 times where the vault's price covers the reserve's
  (`InjectionNeverUndone`); for the keeper's ratio when the injection raises the limit by at most
  14.34%, as it does for a reserve that lends at most the average at a price factor of at most
  1.147 (`RatioStaysAbove`); and after a withdrawal when the remaining limit keeps up with the
  remaining collateral (`KeptUpWithdrawal`). For smaller positions of reserves that lend at most the
  average, a thousand units are enough for the instruction, ten thousand for the ratio at covered
  prices, and 2001 assessed units after a withdrawal, or 301 with a single reserve. That 301 is the
  least: 300 units fail (`ThreeHundredIsInjectable`).
- **Hysteresis, where it fails.** A reserve lending 90% beside collateral that lends 10% is injected,
  withdrawn and injected again at the same prices, at 5% of the injection a round
  (`AboveAverageLoops`). 50 WAD lending 80% beside 50 WAD lending 40% are taken across the keeper's
  withdraw trigger by an injection at equal prices (`AboveAverageCrosses`).
- **Hysteresis, over runs.** While vault tokens are in a position no lending call takes collateral
  out of it (`LendingKeepsCollateral`). So
  over every run of a new position whose injections were of at most 18.75 times the tokens held, a
  withdrawal from a position worth a WAD never leaves dust, and leaves it uninjectable where the
  reserve lends at most the average or the remaining limit keeps up. With one collateral reserve,
  injections at a price factor of at most 150 are guard enough; at a factor of 160 a run of inject,
  repay, withdraw leaves three units and is injected again (`DustAfterWithdrawal`).
- **Vault.** With virtual shares, or with no virtual assets, every run keeps the holders' redeemable
  total within the managed assets, no payout for held shares can fail its last subtraction, and a
  bystander's claim never falls. With virtual assets and no virtual shares *every* accepted first
  deposit makes the vault insolvent, and initialisation does not reject those parameters. With
  virtual shares alone the first depositor loses part of the deposit on an immediate redemption.
  The ratio of assets to shares never falls while a share, virtual or not, remains. Without offsets
  a vault can be emptied: its next first deposit starts at one token a share, so a ratio above one
  is lost for certain and no other is; a withdrawal that burns every share but leaves a token locks
  the vault for good.
- **Vault and positions together.** Liquidations apart, the vault's account and its positions hold
  between them exactly the managed total and the interest taken back, over every run. That interest
  never enters the managed total, so with sound offsets no holder can ever claim it. A run with
  positions moves the ledger as its liquidity instructions alone do, so an idle holder's claim never
  falls there either. The stored index is what the accepted withdrawals compounded it to.
- **Accepted exactly when.** Each liquidity operation is accepted if and only if stated comparisons
  on its amounts, the limits, the slippage bound and the accounts hold, and then moves exactly those
  accounts; each refusal's error is stated too, as it is for injections and withdrawals of a buffer.
- **Obligation.** Slots stay unique per reserve, the stored debt never exceeds the sum of the slots,
  and each operation keeps them equal exactly under a guard a caller can check. A repayment above
  its slot on an obligation with several borrows breaks the equality, which a liquidation repaying
  with its whole balance can do.
- **Cached collateral** drifts from a recomputation by at most one unit per operation since the last
  refresh, with known sign.
- **Borrow gate.** The program's check implies the lending program's gate exactly when
  `deposited <= (unhealthy + 1) * WAD`, and strictly when `deposited <= unhealthy * WAD`. The
  check itself accepts on the line `debt == 0.8835 * unhealthy`, to within two units of ratio. A
  borrow goes through exactly when a slot takes it and the debt it leaves is within the unhealthy
  limit or there is no collateral.
- **Liquidation** takes collateral worth the whole recorded debt and a percent of the equity however
  little is repaid. The borrower keeps 99% of the equity if nothing is left owing, and at equal
  prices falls below it as soon as more than one token's worth is. The instruction reads no ltv, so
  a healthy position that holds vault tokens can be liquidated; only the swap before it checks.
- **Keeper.** Its withdrawal computation equals the program's, failures included, whenever the clock
  is not behind and the years fit a u32; outside that range the exact differences are proved. Its
  triggers are exclusive from an unhealthy ratio of four units, and that limit is exact. A recorded
  digest never changes without a job being pending or delivered, except when a first digest is
  recorded for a position already known. A tick reports a position removed exactly when it left the
  chain, and changed exactly when it is new, has other metadata or another digest. A rescan gets every action its positions need to the
  executor or leaves it waiting, and so does a recorded change through both queues, but one position
  that cannot be read ends the rescan and hides the ones listed after it.
- **Word size.** The keeper computes on unbounded integers. Injections, withdrawals and swaps go
  ahead exactly where the keeper's own check passes and stated products fit the program's words. In
  a reachable obligation the ratios exist exactly when the debt and the limit they read are at most
  340282366920938463463 units, about 340 WAD: past that a large debt or borrow limit stops
  injections and withdrawals, and a large debt or unhealthy limit stops borrows and the swap. The
  liquidation reads no ratio and still goes through.
- **Interest.** The index never falls over any run, so a withdrawal never returns less than was
  injected, as a comment in the program asks. At the fixed 5% every withdrawal raises the index by
  5%, so at most 59 withdrawals succeed in the life of a vault, all positions together; and once two
  years pass without one, none ever succeeds again.

## Assumptions

- The withdraw, inject and liquidate instructions, like the liquidity ones, are modelled from their
  handlers and the lending calls those make; token transfers inside the lending program are taken to
  succeed. Accounts holding a reserve never have the all-zero key.
- `Gain` (a bare increase of the managed total) has no caller in the program today other than the
  deposit instructions; runs include it so that the results survive one. `Idle` stands for every
  other flow through the vault's token account.
- A position's other instructions are runs of the lending calls they make, without their own
  checks, except that taking collateral out is refused while vault tokens are in the position.
- In the combined runs of both queues the compute queue's other producers, the rescan at start and the
  price watcher, are left out.
- Watcher ticks run one after another, and so do worker jobs. What each reads from the repository
  and the chain is arbitrary, so writes to the repository in between are covered.
- A refresh uses the reserve accounts as they are after their own refresh.
- Prose in the program's tests gives other values for some constants (a 50% liquidation profit, for
  one); the model uses the constants the program is compiled with.

## Model

| member | source | states |
|---|---|---|
| HealthFactor.CheckedThresholds | programs/cushion/src/math/health_factor.rs:23-96 | what every checked ratio and threshold returns, failures and zero collateral included, in the keeper's unbounded terms |
| HealthFactor.PotentialAfterDecrease | programs/cushion/src/math/health_factor.rs:5-21 | the ratio after collateral leaves exists exactly when some stays and the debt can be scaled |
| HealthFactor.ConversionsExact | programs/cushion/src/math/health_factor.rs:34-60 | when the two conversions between tokens and value fail, and what they give otherwise |
| HealthFactor.ValueAmountRoundTrip | programs/cushion/src/math/health_factor.rs:34-60 | tokens to value and back never gains a token and loses at most `ceil(10^decimals / price)` |
| InjectMath.ValueToInjectBounds | programs/cushion/src/math/inject.rs:17-32 | the injected value is at most an eighth of the collateral, half the equity and half the debt, at most the exact formula, and below it by less than one unit plus a bounded fraction |
| InjectMath.ValueToInjectDefined | programs/cushion/src/math/inject.rs:17-32 | the value exists exactly when collateral is positive, covers the debt, and the products fit |
| InjectMath.ValueToInjectAvailable | programs/cushion/src/math/inject.rs:17-32 | every position with representable debt and at most four times that in collateral has a value |
| InjectMath.AmountToInjectIsLargest | programs/cushion/src/math/inject.rs:44-68 | the tokens injected are the most whose worth at the vault's price fits the value |
| InterestMath.AnnualizedIsYears | programs/cushion/src/math/interest.rs:51-55 | whole 365-day years; under a year behind is zero, a year or more behind is an error |
| InterestMath.VaultInterest.CalculateAccumulatedInterest | programs/cushion/src/math/interest.rs:23-49 | returns the new index and writes it with the time; on failure the index stays and the time is written exactly when only the yearly power failed |
| InterestMath.AccrueNeverFalls | programs/cushion/src/math/interest.rs:23-49 | one accrual, yearly power included, never lowers the index |
| InterestMath.IndexNeverFalls | programs/cushion/src/math/interest.rs:23-49 | over every run of accruals at any rates and clocks the index never falls |
| InterestMath.WithdrawAmountBounds | programs/cushion/src/math/withdraw.rs:15-31 | at least the principal, at most the exact share, short of it by less than `injected / 10^9 + 1` |
| InterestMath.WithdrawalReturnsPrincipal | programs/cushion/src/math/withdraw.rs:15-31 | after any run of accruals, every successful amount is at least the injected amount |
| InterestMath.WithdrawalExists | programs/cushion/src/math/interest.rs:23-49 | at the vault's rate an amount exists exactly within a window of the clock, while the index has room and the result fits; it is at most 105% of the principal |
| InterestMath.TwoYearsLock | programs/cushion/src/math/interest.rs:41-47 | two years without a withdrawal and every later attempt fails |
| InterestMath.WithdrawalsRunOut | programs/cushion/src/math/withdraw.rs:15-31 | over the life of a vault at most 59 withdrawals succeed, and which attempts do |
| InterestMath.ClockWrittenIff | programs/cushion/src/math/interest.rs:31-49 | exactly when the time of an update is written, and that only the yearly power can fail after it |
| VaultShares.ConvertBounds | programs/cushion/src/math/vault_shares.rs:11-152 | each conversion is the greatest, or least, amount on its side of the cross-multiplied ratio |
| VaultShares.ConvertErrors | programs/cushion/src/math/vault_shares.rs:38-152 | exactly when a conversion overflows or meets a zero total on a pool that is not empty |
| VaultShares.CastErrors | programs/cushion/src/math/vault_shares.rs:60-151 | exactly when a rounded result does not fit a u64 |
| VaultShares.WithdrawRedeemGalois | programs/cushion/src/managers/vault_manager_v1.rs:71-89 | shares cover a withdrawal exactly when redeeming them pays at least that much, bootstrap included |
| VaultShares.MintDepositGalois | programs/cushion/src/managers/vault_manager_v1.rs:44-63 | assets cover a mint exactly when depositing them yields at least that many shares, bootstrap included |
| VaultShares.MoveKeepsRatio | programs/cushion/src/managers/vault_manager_v1.rs:140-162 | a move keeps the asset-per-share ratio from falling exactly when it pays for its shares |
| VaultShares.PreviewsFavourVault | programs/cushion/src/managers/vault_manager_v1.rs:48-89 | all four previews round in the vault's favour |
| VaultShares.DepositRedeemRoundTrip | programs/cushion/src/math/vault_shares.rs:38-92 | deposit then redeem never profits and loses at most the price of one share rounded up |
| VaultShares.MintWithdrawRoundTrip | programs/cushion/src/math/vault_shares.rs:98-152 | withdrawing what a mint cost burns at least the minted shares |
| VaultShares.BootstrapRoundTrip | programs/cushion/src/math/vault_shares.rs:52-58 | the first deposit's immediate redemption: exact without offsets, a loss with virtual shares, the virtual assets on top otherwise |
| VaultLedger.Vault.IncreaseTotalManagedAssets | programs/cushion/src/managers/vault_manager_v1.rs:144-150 | adds the delta, or reports overflow and changes nothing |
| VaultLedger.Vault.DecreaseTotalManagedAssets | programs/cushion/src/managers/vault_manager_v1.rs:156-162 | subtracts the delta, or reports overflow and changes nothing |
| VaultLedger.Vault.HandleDeposit | programs/cushion/src/handlers/vault/liquidity.rs:37-93 | steps the ledger as the deposit step does, error cases included, and keeps the ledger's invariants |
| VaultLedger.Vault.HandleMint | programs/cushion/src/handlers/vault/liquidity.rs:114-170 | the same for minting exact shares |
| VaultLedger.Vault.HandleRedeem | programs/cushion/src/handlers/vault/liquidity.rs:189-246 | the same for redeeming shares |
| VaultLedger.Vault.HandleWithdraw | programs/cushion/src/handlers/vault/liquidity.rs:266-328 | the same for withdrawing exact assets |
| VaultLedger.AcceptedWithinLimits | programs/cushion/src/handlers/vault/liquidity.rs:37-328 | an accepted operation met the deposit limits and the caller's slippage bound and moved tokens and managed total alike |
| VaultLedger.DepositAcceptedIff | programs/cushion/src/handlers/vault/liquidity.rs:37-93 | a deposit is accepted if and only if amount, limits, slippage bound, wallet and words allow it, and then moves exactly four accounts |
| VaultLedger.MintAcceptedIff | programs/cushion/src/handlers/vault/liquidity.rs:114-170 | the same for minting exact shares, the limits asked of the price |
| VaultLedger.RedeemAcceptedIff | programs/cushion/src/handlers/vault/liquidity.rs:189-246 | the same for redeeming held shares, against the vault's tokens and managed total |
| VaultLedger.WithdrawAcceptedIff | programs/cushion/src/handlers/vault/liquidity.rs:266-328 | the same for withdrawing exact assets, against the shares it burns |
| VaultLedger.UnpricedRefused | programs/cushion/src/managers/vault_manager_v1.rs:44-89 | no operation is accepted whose preview fails |
| VaultLedger.DepositRefusedFor | programs/cushion/src/managers/vault_manager_v1.rs:97-113 | which error a refused deposit gets, and when |
| VaultLedger.MintRefusedFor | programs/cushion/src/handlers/vault/liquidity.rs:114-124 | which error a refused mint gets, its price coming before the limits |
| VaultLedger.PayoutRefusedFor | programs/cushion/src/handlers/vault/liquidity.rs:189-282 | which errors refused redemptions and withdrawals get, the vault's tokens asked last by one and first by the other |
| VaultLedger.StepConserves | programs/cushion/src/handlers/vault/liquidity.rs:67-78 | the share supply stays the sum of the share accounts |
| VaultLedger.StepKeepsRatio | programs/cushion/src/handlers/vault/liquidity.rs:37-328 | no step lowers the ratio of assets to shares when the offsets are sound |
| VaultLedger.PayoutCovered | programs/cushion/src/managers/vault_manager_v1.rs:156-162 | a payout for held shares never underflows the managed total |
| VaultRuns.EveryRunIsSolvent | programs/cushion/src/handlers/vault/liquidity.rs:37-328 | over every run of a new vault with sound offsets, claims total at most the managed assets and no payout underflows |
| VaultRuns.FirstDepositBreaksSolvency | programs/cushion/src/handlers/admin/init.rs:48-100 | with virtual assets and no virtual shares, every accepted first deposit claims more than the vault has and cannot be redeemed whole |
| VaultRuns.SolvencyExactlyWhenSound | programs/cushion/src/handlers/admin/init.rs:48-100 | every run is solvent if and only if the offsets are sound |
| VaultRuns.RatioNeverFalls | programs/cushion/src/math/vault_shares.rs:38-152 | over every run with sound offsets in which a share, virtual or not, always remains, the ratio never falls |
| VaultRuns.EmptiedVault | programs/cushion/src/math/vault_shares.rs:46-58 | a vault without any share has no offsets; empty, it restarts at par; otherwise it accepts nothing any more |
| VaultRuns.WithdrawalStrands | programs/cushion/src/handlers/vault/liquidity.rs:266-328 | a withdrawal can burn every share and lock the vault over one token |
| VaultRuns.RatioAfterReset | programs/cushion/src/math/vault_shares.rs:52-58 | emptied and refilled, the ratio has fallen exactly when it was above par |
| VaultRuns.RatioFloor | programs/cushion/src/math/vault_shares.rs:38-152 | over every run with sound offsets the ratio does not fall, or stands at par or better |
| VaultRuns.ResetLosesRatio | programs/cushion/src/managers/vault_manager_v1.rs:144-162 | runs of every vault without offsets that lose a ratio of two |
| VaultRuns.BystanderNeverLoses | programs/cushion/src/managers/vault_manager_v1.rs:71-73 | over any run of other holders' operations a holder's claim never falls |
| VaultRuns.ParityWithoutOffsets | programs/cushion/src/math/vault_shares.rs:38-152 | with no offsets and no gains a share is worth exactly one token for ever |
| VaultRuns.PreviewIsClaim | programs/cushion/src/managers/vault_manager_v1.rs:71-73 | a successful redeem preview of held shares is the claim the solvency results add up |
| VaultFlows.EveryRunBalances | programs/cushion/src/handlers/vault/position_ops/inject_collateral.rs:81-87 | over every run of liquidity and position instructions, liquidations apart, the vault's account and its positions hold the managed total and the interest |
| VaultFlows.InterestStaysUnclaimed | programs/cushion/src/handlers/vault/position_ops/withdraw_collateral.rs:82-91 | the interest taken back stays beyond all holders' claims, and with nothing in positions the account covers every payout for held shares |
| VaultFlows.IndexCompounds | programs/cushion/src/math/interest.rs:41-47 | over every run the stored index is what the accepted withdrawals, of all positions together, compounded it to, and there are at most 59 |
| VaultFlows.RunsAsLedger | programs/cushion/src/handlers/vault/liquidity.rs:37-328 | a run with positions moves the ledger as a run of its liquidity instructions alone does, but for the tokens in its account |
| VaultFlows.BystanderKeepsClaim | programs/cushion/src/managers/vault_manager_v1.rs:140-162 | over every run in which others trade and positions are served, an idle holder keeps every share and a claim that never falls |
| VaultFlows.InjectionPays | programs/cushion/src/handlers/vault/position_ops/inject_collateral.rs:81-87 | an injection takes exactly the recorded tokens from the vault's account, fewer than the managed total, or changes nothing |
| VaultFlows.LendingIsItsOwn | programs/cushion/src/handlers/obligation/collateral/decrease_collateral.rs:47-50 | a lending call changes its own position's obligation and nothing else |
| KlendObligation.Obligation.UpdateObligationDeposit | programs/klend_mock/src/lib.rs:1115-1165 | allocates the slot and updates slot and totals as the value step does, or changes nothing |
| KlendObligation.Obligation.Borrow | programs/klend_mock/src/lib.rs:1167-1193 | adds the debt to its slot and to the total, or changes nothing |
| KlendObligation.Obligation.Repay | programs/klend_mock/src/lib.rs:1195-1215 | takes the debt off slot and total, frees a cleared slot, ignores an unknown reserve |
| KlendObligation.Obligation.RecomputeValues | programs/klend_mock/src/lib.rs:1217-1251 | re-prices every active slot and rebuilds the totals, or changes nothing when a reserve is missing |
| ObligationRuns.EveryRunKeeps | programs/klend_mock/src/lib.rs:1115-1251 | over every run: keys unique, free slots empty, copies of each debt equal, stored debt at most the slots' sum |
| ObligationRuns.EveryRunOrders | programs/klend_mock/src/lib.rs:1155-1162 | over every run on sane reserves: allowed at most unhealthy at most deposited, saturation included |
| ObligationRuns.LimitsFollowCollateral | programs/klend_mock/src/lib.rs:1155-1162 | the two limits a collateral move writes are the reserve's two percentages of the collateral it leaves, each to within a unit |
| ObligationRuns.RefusedWhenFull | programs/klend_mock/src/lib.rs:1129-1133 | a new reserve is refused exactly when eight deposits, or five borrows, in other reserves are taken |
| ObligationRuns.BorrowSucceedsIff | programs/klend_mock/src/lib.rs:407-428 | a borrow goes through if and only if a slot takes it and there is no collateral or the debt it leaves is within the unhealthy limit |
| ObligationRuns.BorrowsStayHealthy | programs/klend_mock/src/lib.rs:424-428 | after any run, an accepted borrow on positive collateral leaves the debt within that limit |
| ObligationRuns.BorrowExactIff | programs/klend_mock/src/lib.rs:1181-1190 | a borrow keeps the debt total exact if and only if the total does not saturate or its slot carries all the debt |
| ObligationRuns.RepayExactIff | programs/klend_mock/src/lib.rs:1202-1214 | a repayment keeps it exact if and only if it fits its slot or that slot carries all the debt |
| ObligationRuns.ExactRun | programs/klend_mock/src/lib.rs:1167-1215 | a run of guarded operations keeps the debt total equal to the slots' sum |
| ObligationRuns.WithdrawFreesWhenEmpty | programs/klend_mock/src/lib.rs:1139-1146 | a withdrawal frees its slot exactly when it empties it, and no other |
| ObligationRuns.RepayFreesWhenCovered | programs/klend_mock/src/lib.rs:1204-1210 | a repayment frees its slot exactly when it covers it, and no other |
| CacheDrift.RefreshRecomputes | programs/klend_mock/src/lib.rs:1220-1248 | a refresh computes the plain sums of values and of both limits, capped, and writes each slot's value |
| CacheDrift.MoveDrift | programs/klend_mock/src/lib.rs:1134-1153 | a deposit moves the drift by zero or one, a withdrawal by zero or minus one or to a harmless clamp |
| CacheDrift.DriftBound | programs/klend_mock/src/lib.rs:1148-1153 | since a refresh the recomputed minus the kept value lies between minus the withdrawals and plus the deposits |
| CacheDrift.MovesAreRuns | programs/klend_mock/src/lib.rs:1115-1165 | the runs the drift is bounded over are the obligation's own runs of deposits and withdrawals |
| CacheDrift.RefreshClearsDrift | programs/klend_mock/src/lib.rs:1246-1250 | a refresh at the same prices that does not saturate brings the drift back to zero |
| RefreshReserves.ActiveReserves | programs/cushion/src/handlers/obligation/klend_obligation.rs:118-138 | the slot scan collects the keys in use, in order |
| RefreshReserves.ActiveInOrder | programs/cushion/src/handlers/obligation/klend_obligation.rs:118-138 | the collected keys keep slot order |
| RefreshReserves.HasAnyReserve | programs/cushion/src/handlers/obligation/klend_obligation.rs:98-116 | the early-exit scan is true exactly when some key is in use |
| RefreshReserves.ResolveActiveRefreshReserves | programs/cushion/src/cpi/refresh_obligation_klend.rs:94-116 | one account per active deposit then borrow slot, in order, or failure exactly when one was not passed |
| RefreshReserves.ResolvedRefresh | programs/cushion/src/cpi/refresh_obligation_klend.rs:85-91 | a refresh on the resolved accounts never misses a reserve and equals a refresh on everything passed |
| RefreshReserves.InactiveRefresh | programs/cushion/src/cpi/refresh_obligation_klend.rs:85-91 | with no active slot a refresh with no accounts succeeds and zeroes the totals |
| BorrowGate.GateSoundIff | programs/cushion/src/cpi/borrow_klend.rs:138-170 | the exact collateral limits within which every accepted debt passes the lending gate, loosely and strictly |
| BorrowGate.AssessesExactly | programs/cushion/src/cpi/borrow_klend.rs:138-170 | what the check answers on every input: the potential ratio against 95% of the liquidation threshold, and each failure |
| BorrowGate.GateLine | programs/cushion/src/cpi/borrow_klend.rs:159-169 | in value, it accepts on the line `debt == 0.8835 * unhealthy`, from both sides, to within two units of ratio |
| BorrowGate.AcceptedBorrowStaysHealthy | programs/klend_mock/src/lib.rs:407-428 | an accepted borrow owes the assessed sum, passes the lending gate, and stays below the liquidation threshold |
| BorrowGate.SameValue | programs/klend_mock/src/lib.rs:1110-1113 | both programs value the same tokens alike whenever the checked form succeeds |
| PositionOps.RefreshPrices | programs/cushion/src/cpi/refresh_obligation_klend.rs:70-116 | a refresh succeeds exactly when every active slot's account was passed, then prices the collateral and keeps slots and debt |
| PositionOps.SingleRefresh | programs/klend_mock/src/lib.rs:1217-1251 | a refreshed single-collateral obligation is priced by that reserve alone |
| PositionOps.CollateralMove | programs/klend_mock/src/lib.rs:1134-1165 | moving collateral replaces one slot's value and limit in what the next refresh computes |
| PositionOps.SingleLimitsAgree | programs/klend_mock/src/lib.rs:1155-1162 | where the kept value has not drifted, the limits a collateral move wrote are those the next refresh computes |
| PositionOps.InjectionRefusedFor | programs/cushion/src/handlers/vault/position_ops/inject_collateral.rs:41-85 | which error a refused injection gets, in the order the handler asks |
| PositionOps.WithdrawalRefusedFor | programs/cushion/src/handlers/vault/position_ops/withdraw_collateral.rs:28-80 | which error a refused withdrawal gets, in the order the handler asks |
| PositionOps.WithdrawalGuarded | programs/cushion/src/handlers/vault/position_ops/withdraw_collateral.rs:67-84 | what the last checks of a withdrawal answer on every input, given what it would take |
| PositionOps.AdminMarksInjected | programs/cushion/src/handlers/vault/position_ops/liquidate_swap_admin.rs:46-96 | the authority's override marks the position injected with nothing, and sends the order the checked swap would |
| BufferCycle.InjectionRecorded | programs/cushion/src/managers/obligation_manager_v1.rs:5-11 | an injection is recorded in full on the position and deposited in full |
| BufferCycle.WithdrawalClears | programs/cushion/src/handlers/vault/position_ops/withdraw_collateral.rs:46-84 | a withdrawal takes back at least what is recorded and clears the record |
| BufferCycle.WithdrawalStores | programs/cushion/src/handlers/vault/position_ops/withdraw_collateral.rs:46-51 | an accepted withdrawal stores the clock, and at the vault's rate exactly five percent more index, truncated |
| BufferCycle.EmptyBufferNeverWithdraws | programs/cushion/src/handlers/vault/position_ops/withdraw_collateral.rs:53-59 | a position injected with zero tokens can never be withdrawn from |
| BufferCycle.EveryRunAccounts | programs/cushion/src/managers/obligation_manager_v1.rs:5-19 | over every run, the authority's override included, injected tokens are outstanding, returned or written off |
| BufferCycle.StepRecords | programs/cushion/src/managers/obligation_manager_v1.rs:5-19 | each instruction tallies exactly what it did to the position's record |
| BufferCycle.LendingReaches | programs/cushion/src/handlers/obligation/collateral/decrease_collateral.rs:47-50 | a lending call steps the obligation and leaves the position's record, except that none takes collateral out while vault tokens are in |
| BufferCycle.LendingMoves | programs/klend_mock/src/lib.rs:1115-1165 | what is held under each key after a lending call: its own key's tokens move by its amount, clamped, and nothing else |
| BufferCycle.LendingOwes | programs/klend_mock/src/lib.rs:1167-1215 | what is owed under each key: its own key's debt moves by the tokens' value, clamped, and nothing else |
| BufferCycle.LendingKeepsCollateral | programs/cushion/src/handlers/obligation/collateral/decrease_collateral.rs:47-50 | while vault tokens are in a position no run of lending calls lowers what any reserve holds of it |
| Hysteresis.InjectionLands | programs/cushion/src/handlers/vault/position_ops/inject_collateral.rs:65-87 | where an injection leaves the refreshed ltv against the withdraw threshold: both sides of an exact line in the debt and the value it adds |
| Hysteresis.WithdrawAfterInjection | programs/cushion/src/handlers/vault/position_ops/withdraw_collateral.rs:46-80 | what the withdraw instruction does after an injection: both sides of an exact line in the value it would take |
| Hysteresis.InjectThenNoWithdraw | programs/cushion/src/handlers/vault/position_ops/withdraw_collateral.rs:46-80 | where one unit more than before the injection is refused, every withdrawal at the same prices is, for ever |
| Hysteresis.WithdrawalLands | programs/cushion/src/handlers/vault/position_ops/withdraw_collateral.rs:67-84 | whether a withdrawal leaves the position injectable: both sides of an exact line in the debt and the value it takes |
| Hysteresis.AboveThresholdRefusesWithdraw | programs/cushion/src/handlers/vault/position_ops/withdraw_collateral.rs:67-80 | a position at or above the withdraw threshold is refused whatever the clock, price or amount |
| HysteresisMath.InjectLine | keeper/src/worker/ltv_worker.ts:198-208 | the truncated inject trigger against the exact line, to within a unit of ratio |
| HysteresisMath.WithdrawLine | keeper/src/worker/ltv_worker.ts:151-157 | the truncated withdraw trigger against the exact line, to within two |
| HysteresisGuards.OutlivedInjection | programs/cushion/src/handlers/vault/position_ops/withdraw_collateral.rs:46-80 | a condition on limits and the value added, free of the debt, under which the refusal line is met |
| HysteresisGuards.InjectionNeverUndone | programs/cushion/src/handlers/vault/position_ops/withdraw_collateral.rs:46-80 | a reserve lending at most 1.14 times the average, or 2.29 at covered prices, meets it |
| HysteresisGuards.RatioStaysAbove | programs/cushion/src/handlers/vault/position_ops/inject_collateral.rs:65-87 | a limit raised by at most 14.34%, as at the average up to a price factor of 1.147, keeps the ratio above |
| HysteresisGuards.KeptUpWithdrawal | programs/cushion/src/handlers/vault/position_ops/withdraw_collateral.rs:67-84 | a condition on limits and the value taken, free of the debt, under which no withdrawal leaves the position injectable |
| HysteresisGuards.AverageInjection | programs/cushion/src/handlers/vault/position_ops/withdraw_collateral.rs:46-80 | at most the average: a thousand units are enough for the refusal |
| HysteresisGuards.AverageInjectionStaysAbove | programs/cushion/src/handlers/vault/position_ops/inject_collateral.rs:65-87 | at most the average at covered prices: ten thousand units are enough for the ratio |
| HysteresisGuards.AverageWithdrawal | programs/cushion/src/handlers/vault/position_ops/withdraw_collateral.rs:67-84 | at most the average: 2001 assessed units are enough after a withdrawal |
| HysteresisGuards.SingleWithdrawal | programs/cushion/src/handlers/vault/position_ops/withdraw_collateral.rs:67-84 | a single reserve: 301 assessed units are enough after a withdrawal |
| CycleHysteresis.EveryRunHolds | programs/cushion/src/handlers/obligation/collateral/decrease_collateral.rs:47-50 | over every guarded run the injected tokens stay at most 75 of 79 held in their slot |
| CycleHysteresis.CycleWithdrawThenNoInject | programs/cushion/src/handlers/vault/position_ops/withdraw_collateral.rs:46-84 | after any guarded run, a withdrawal from a position worth a WAD leaves it at or below the inject threshold, where the reserve lends at most the average or the remaining limit keeps up, with no bound on what it leaves |
| CycleHysteresis.SingleCycleWithdrawThenNoInject | programs/cushion/src/handlers/vault/position_ops/withdraw_collateral.rs:46-84 | with one collateral reserve and a price factor of at most 150 on every injection, no withdrawal from a position worth a WAD leaves it injectable |
| HysteresisLimits.AboveAverageLoops | programs/cushion/src/handlers/vault/position_ops/withdraw_collateral.rs:46-84 | 90% beside 10%: injected, withdrawn and injected again at the same prices |
| HysteresisLimits.AboveAverageCrosses | programs/cushion/src/handlers/vault/position_ops/inject_collateral.rs:65-87 | 80% beside 40% at equal prices: an injection across the keeper's withdraw trigger |
| HysteresisLimits.ThreeHundredIsInjectable | programs/cushion/src/handlers/vault/position_ops/withdraw_collateral.rs:67-84 | a single reserve with 300 assessed units left is injected again |
| HysteresisLimits.DustAfterWithdrawal | programs/cushion/src/handlers/vault/position_ops/withdraw_collateral.rs:46-84 | at a price factor of 160, inject, repay and withdraw on over a WAD ends injectable |
| Liquidation.AfterRepayAmount | programs/cushion/src/math/withdraw.rs:34-45 | the tokens taken are the most worth debt plus one percent of equity, leaving at least 99% of the equity |
| Liquidation.AfterRepayDefined | programs/cushion/src/math/withdraw.rs:34-45 | exactly when the amount exists |
| Liquidation.LiquidateSucceeds | programs/cushion/src/handlers/vault/position_ops/liquidate.rs:56-87 | exactly when the instruction succeeds; no ltv is among the conditions |
| Liquidation.LiquidationRefusedFor | programs/cushion/src/handlers/vault/position_ops/liquidate.rs:56-87 | which error a refused liquidation gets, and when |
| Liquidation.LiquidationFits | programs/cushion/src/handlers/vault/position_ops/liquidate.rs:76-87 | the amount fits the slot, neither subtraction clamps, and net equity falls by at most a percent and the debt left owing |
| Liquidation.SingleLiquidation | programs/cushion/src/handlers/vault/position_ops/liquidate.rs:76-87 | with one collateral reserve every liquidation at a covered price fits, and a repayment covering the recorded debt leaves 99% of the equity |
| Liquidation.UnpaidDebtIsLost | programs/cushion/src/cpi/liquidate_klend.rs:115-142 | at equal prices more than a token's worth left owing takes the borrower below 99% of the equity |
| Liquidation.DebtLeftIsOwed | programs/klend_mock/src/lib.rs:1195-1215 | when one slot carries the debt, what the slots owe afterwards is what the total says |
| Liquidation.DustRepaymentRuinsBorrower | programs/cushion/src/cpi/liquidate_klend.rs:115-142 | a dust balance liquidates 90 of 100 WAD and leaves the debt standing |
| KeeperWithdraw.ComputeWithdrawAmountContractLike | keeper/src/executor/action_executor.ts:25-72 | the early-exit computation with its multiply loop equals the closed form, on all integers |
| KeeperWithdraw.KeeperMatchesChain | keeper/src/executor/action_executor.ts:25-72 | equals accrual then withdraw amount, failures included, with the clock not behind and years within u32 |
| KeeperWithdraw.KeeperOutsideWords | keeper/src/executor/action_executor.ts:32-40 | what the keeper answers beyond u64 and on nothing injected, in that order |
| KeeperWithdraw.KeeperRefusesClockBehind | keeper/src/executor/action_executor.ts:42-43 | with the clock behind the keeper refuses; the program accrues as if no time passed, or fails from a year on |
| KeeperWithdraw.KeeperBeyondYears | keeper/src/executor/action_executor.ts:53-62 | beyond u32 years the program fails and the keeper answers exactly when the index stays at one |
| KeeperWithdraw.WithdrawPrecheck | keeper/src/executor/action_executor.ts:604-680 | submits exactly when the amount is positive and the remaining ratio is below the withdraw threshold |
| KeeperWithdraw.PrecheckMatchesProgram | keeper/src/executor/action_executor.ts:636-680 | the program accepts exactly the withdrawals the precheck passes whose numbers fit its words |
| LtvWorker.Worker.RecomputePosition | keeper/src/worker/ltv_worker.ts:77-225 | saves the snapshot with its eligibility and enqueues exactly the decided action |
| LtvWorker.Worker.ProcessJob | keeper/src/worker/ltv_worker.ts:57-75 | saves and enqueues what every reading before the first one that throws calls for, in order, and nothing after it |
| LtvWorker.ThresholdsOrdered | keeper/src/worker/ltv_worker.ts:151-163 | withdraw at most inject, and below liquidation from an unhealthy ratio of four units |
| LtvWorker.ThresholdsCollide | keeper/src/worker/ltv_worker.ts:151-163 | where both borrow limits coincide, four units is the exact limit and below it the thresholds are equal |
| LtvWorker.ActionsExclusive | keeper/src/worker/ltv_worker.ts:164-224 | at most one trigger holds, so the order they are tried in does not matter |
| LtvWorker.SnapshotSaved | keeper/src/worker/ltv_worker.ts:93-187 | the snapshot saved is the position's own, its ratio and thresholds the exact ones to within the floors, its eligibility and the action asked for follow from them |
| LtvWorker.UnreadSavesNothing | keeper/src/worker/ltv_worker.ts:77-90 | an unlisted position is skipped, an unreadable one throws, and neither saves or asks for anything |
| WorkerAgreement.InjectMatchesProgram | keeper/src/worker/ltv_worker.ts:198-208 | the program makes exactly the injections the worker asks for that fit its words and the vault |
| WorkerAgreement.SwapMatchesProgram | programs/cushion/src/handlers/vault/position_ops/liquidate_swap.rs:44-99 | the swap that opens a liquidation goes ahead on exactly the positions across the worker's line that fit |
| WorkerAgreement.SwapOrderAmounts | programs/cushion/src/handlers/vault/position_ops/liquidate_swap.rs:77-97 | the order sends the floor of 101% of the floored debt in collateral tokens and accepts no less than the floor of the debt in debt tokens |
| WorkerAgreement.SwapRefusedFor | programs/cushion/src/handlers/vault/position_ops/liquidate_swap.rs:44-99 | which error a refused swap gets, the amounts stated in the exact conversion |
| WorkerAgreement.WithdrawMatchesWorker | keeper/src/worker/ltv_worker.ts:151-157 | the program withdraws only where the worker asks for it |
| WorkerAgreement.RatiosExist | programs/cushion/src/math/health_factor.rs:23-96 | in reachable obligations the ratios exist exactly when debt and limit are at most about 340 WAD |
| WorkerAgreement.LargePositionsUnprotected | programs/cushion/src/math/health_factor.rs:5-96 | which instructions fail for ever beyond that, debt and limits told apart |
| WorkerAgreement.LargeLimitStopsInjection | programs/cushion/src/handlers/vault/position_ops/inject_collateral.rs:66-69 | a position within the debt limit whose injection the worker asks for and the program cannot make |
| WorkerAgreement.LargeLiquidationGoesThrough | programs/cushion/src/handlers/vault/position_ops/liquidate.rs:76-80 | a liquidation beyond the limit has an amount, while the swap before it fails |
| WorkerJobs.JobServesEveryPosition | keeper/src/worker/ltv_worker.ts:57-75 | over any queue history, each position a job gets through that needs an action has that very action delivered or waiting from the request on |
| WorkerJobs.RefusedIffActionPending | keeper/src/queue/dedup_queue.ts:6-9 | the execute queue refuses an action exactly when the same kind for the same position waits |
| WorkerJobs.ActionKeysDistinct | keeper/src/worker/ltv_worker.ts:189-218 | deduplication keys tell kinds and positions apart |
| WorkerJobs.RequestHasReading | keeper/src/worker/ltv_worker.ts:57-75 | a job asks for no action its readings do not call for |
| WorkerJobs.ThrowHidesTheRest | keeper/src/worker/ltv_worker.ts:40-75 | a position that cannot be read hides every position listed after it from the job |
| DedupQueue.Queue.Push | keeper/src/queue/dedup_queue.ts:6-22 | refuses a pending key, else hands the job to the oldest waiter or appends it |
| DedupQueue.Queue.Pop | keeper/src/queue/dedup_queue.ts:24-37 | takes the oldest job and frees its key, or waits in line |
| DedupQueue.EveryHistory | keeper/src/queue/dedup_queue.ts:1-42 | over every interleaving the k-th dequeue gets the k-th accepted job, jobs and waiters never both wait, keys are those pending |
| DedupQueue.RefusedIffPending | keeper/src/queue/dedup_queue.ts:6-9 | an enqueue is refused exactly when an accepted job with its key is undelivered |
| DedupQueue.RequestServed | keeper/src/queue/dedup_queue.ts:6-37 | every enqueue call, refused or not, is answered by a job with its key pending or delivered at or after it |
| PositionWatcher.Watcher.HandleTick | keeper/src/watchers/position_watcher.ts:59-149 | updates the digests and makes the tick's enqueue calls in order |
| PositionWatcher.TickReports | keeper/src/watchers/position_watcher.ts:74-149 | a recorded digest survives a tick unchanged or a request names its position |
| WatcherReports.RemovalsReportedExactly | keeper/src/watchers/position_watcher.ts:70-83 | a position is reported removed if and only if the repository lists it and the chain does not, and its digest is then forgotten |
| WatcherReports.ChangesReportedExactly | keeper/src/watchers/position_watcher.ts:84-149 | a position on chain is reported, and for which reason, if and only if it is new, has other metadata or another digest; a fetched digest is recorded unless the metadata changed |
| WatcherReports.RunRecordsFetched | keeper/src/watchers/position_watcher.ts:59-149 | after any run ending in a tick the digest recorded for a position on chain is the one fetched, and a removed one has none |
| PositionWatcher.SilentFirstDigest | keeper/src/watchers/position_watcher.ts:131-140 | exactly when a visit changes the record without a request |
| PositionWatcher.DigestChangesAreNeverLost | keeper/src/watchers/position_watcher.ts:59-149 | over any run of ticks and consumers, a recorded change leaves a job for the position pending or delivered after the change was seen |
| KeeperPipeline.ChangesReachTheExecutor | keeper/src/worker/ltv_worker.ts:40-75 | over any run of ticks, workers and executors, a recorded change leaves a job that waits, or whose processing threw, called for nothing, or has its very action delivered or waiting |
| PriceCycle.FallingStageTriggers | sdk/scripts/simulateMockPriceCycle.ts:516-558 | a refresh at the inject or liquidate price, unless clamped to the minimum, puts the position across the trigger |
| PriceCycle.RisingStageTriggers | sdk/scripts/simulateMockPriceCycle.ts:531-544 | a refresh at the withdraw price, unless clamped to the maximum, puts it across the trigger |
| PriceCycle.ChosenIsNearest | sdk/scripts/simulateMockPriceCycle.ts:93-98 | the chosen price is the nearest to the target from a thousandth of a WAD to twenty times the current price |
| PriceCycle.TargetPastBoundary | sdk/scripts/simulateMockPriceCycle.ts:521-557 | the target lies a tenth of a percent past the exact boundary price, to within two units |
| PriceCycle.DustStagesMiss | sdk/scripts/simulateMockPriceCycle.ts:516-558 | positions of a few units whose chosen price misses the trigger though nothing was clamped |

## Left out

- Hysteresis.InjectionLands: its two sides leave three units of ratio undecided, and it assumes that no percentage saturates.
- Hysteresis.WithdrawAfterInjection: likewise; its accepting side also assumes limits within the collateral.
- Hysteresis.WithdrawalLands: its two sides leave two units of ratio and one of the limit undecided.
- HysteresisGuards.AverageWithdrawal: its bound of 2001 units over several reserves is not shown to be the least.
- CycleHysteresis.CycleWithdrawThenNoInject: assumes that pricing the held tokens does not overflow a u128 and that no injection takes the slot past a u64.
- Liquidation.LiquidationFits: needs the vault's price to cover the reserve's and the reserve's slot to hold the value taken, which one reserve alone always does.
- PriceCycle.FallingStageTriggers: assumes one collateral reserve, a million units of value and no saturation; dust counterexamples are given.
- PriceCycle.RisingStageTriggers: the same, with the million units after the move.
- WatcherReports.RemovalsReportedExactly: assumes that neither the repository nor the chain lists a position twice, which a database key and an account address rule out.
- WatcherReports.ChangesReportedExactly: likewise.
- CacheDrift.DriftBound: assumes no operator saturates, u64 amounts included; a saturating add breaks the bound.
- Token transfers, signer checks, account addresses, oracle freshness and the raw byte layout of accounts; the slot scan works on slot keys rather than byte offsets.
- The pool the swap before a liquidation trades in, and vault losses through it.
- Polling timers, retries, logging, the database, and the position executor's account lookups.
- The order in which the repository lists positions; a tick takes the list as given.
- Sharing and writing back of account copies: each instruction updates one obligation or vault in place, and the position instructions are steps on values because their handlers compose calls that update three accounts at once.

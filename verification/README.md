# Roshi vault: a verified model

Roshi is a Solana program that issues shares against a vault's net asset value. Depositors mint
shares, holders queue redemptions into withdrawal tickets or unwind positions atomically, an
authority reports NAV, and strategists relay pre-authorized calls. This project models the
program's own logic in Dafny and proves what it is meant to keep, for every input and every run.

The model follows the program file by file.

- `Outcome`, `Rounding`, `Pricing`, `Inflation`, `Fees`: the checked share arithmetic of `math.rs`.
  Integers are mathematical; every width, overflow and error is explicit.
- `Vault`, `Drip`: the vault account, as a value (`VaultState`) and as the class whose methods
  update it in place, and the profit-unlock line its fields define.
- `Machine`: the accounting as a step machine. One `Step` per instruction, plus the two things that
  happen outside the program: time passes, and holders burn shares through the token program. A
  run is a sequence of accepted steps. A rejected instruction rolls back, so it is absent.
- `Queue`, `Settlement`, `Invariant`, `SharePrice`, `Guarantees`, `NavReports`, `RateLimit`,
  `Tickets`: properties of steps and of runs.
- `Acceptance`, `Refusals`: exactly when each instruction is accepted, on the stored fields and the
  arguments, and what a refused one is told.
- `FeeLedger`, `Waiting`: books over whole runs. What reports accrue is payable, collected or
  written down, once; a cancellation waits 150 slots and a settlement for a report.
- `SupplyLimit`, `Witnesses`: the one limit the program does not enforce, and runs from
  initialisation that show where a property stops.
- `Handlers`: the instruction handlers in the program's imperative form, each tied to its step of
  the machine. The straight-line ones are only that tie; what the file adds is its loops, the
  settlement in place, and the untouched accounts on every error.
- `Access`, `AccessTree`: the allowlist verifier and the client's Merkle tree, over an abstract hash.
- `Flags`, `Actions`, `Preimage`, `Relay`, `Commitment`: packed account flags, the op codec, the
  action-hash preimage with a parser for it, the authorization of relayed calls, and what an
  action hash commits to on the fields of the call.
- `Depositing`: a deposit end to end, with the allowlist and the asset valuation in front.
- `Custody`, `Swap`, `Deploy`, `Unwinding`: token accounts as bytes, and the three flows that
  bracket an arbitrary call. The call is a state the accounts are left in, limited only by
  writing nothing but what it was given as writable.

Statements about hashing never assume a collision-free hash. They conclude the property or exhibit
two different inputs with one hash, each named as hashed on its side.

Where a checked operation can never fail in its place, the model proves that and leaves out the
error arm; the contract that proves it sits on the operation or on a lemma used there.

## Hypotheses and findings

- Properties of runs start from any state satisfying `Invariant.Inv`, which `ReachableStates`
  derives for every state reachable from an initialised vault. The clock is monotone and not
  negative at initialisation, as `vault.rs:423` relies on.
- `execute_deposit` bounds only the economic supply before the deposit, so circulating plus queued
  shares can pass u64. `AVaultCanWedge` gives three accepted instructions that do it and
  `FitIsLostExactlyByOverminting` the exact step. Past the limit nothing is priced, reported or
  paid out, and a ticket whose shares have no room in circulation is out of reach, until holders
  burn shares through the token program: `WedgedUntilBurnt`, `WedgeIsRecoverable` and
  `CrowdedUntilBurnt` say how many, and `AWedgeCanEnd` shows it done. No instruction of the
  program itself ends a wedge. `SettleSucceedsExactly` and `TicketIsNeverStuck` hold on both sides
  of the limit.
- Because holders can burn, a cancelled redemption leaves no trace exactly while its shares would
  have fitted in circulation: `CancelledRedeemLeavesNoTrace`, with `NoTraceNeedsRoom` where they
  would not.
- `DeployStartsFunded` takes it from the runtime that a program address signs for no depositor.
- A ticket past its delay is not always reachable: when `request_slot + cancel_grace_slots` passes
  u64, a cancellation errors before it looks at anything else, although the ticket may not be
  strike-eligible (`StrandedTicket`). `TicketProgress` gives the exact condition.
- Over time a report-free run can pay out more than was deposited (`PayoutsCanExceedDeposits`),
  because locked profit unlocks on the way; `PayoutsAreCovered` bounds the excess by what
  unlocked.
- The doc comment in `math.rs:174` gives the inflation cost as about `offset` times the victim's
  loss. `offset` times the loss fails (`FullOffsetIsTooMuch`); what holds for all inputs is
  `offset - 1` times the loss beyond one atom of rounding.

## Model

| member | source | states |
|---|---|---|
| Pricing.MulDivFloor | crates/interface/src/math.rs:16-24 | fails exactly on a zero denominator or a product past u128; otherwise the one integer `q` with `q·d <= l·r < (q+1)·d` |
| Pricing.MulDivCeil | crates/interface/src/math.rs:26-39 | fails on the same inputs and no others (the final `+ 1` cannot overflow); otherwise the least integer whose product with `d` reaches `l·r` |
| Pricing.BpsFloor | crates/interface/src/math.rs:92-98 | for a rate of at most 100% never fails and never exceeds the amount; the floor of the rate |
| Pricing.BpsCeil | crates/interface/src/math.rs:100-102 | the same, rounded up in the pool's favour |
| Pricing.VirtualShareOffset | crates/interface/src/math.rs:174-192 | defined exactly for base decimals up to 9; then `10^(9-decimals)`, between 1 and 10^9 |
| Pricing.SharesForDepositExactly | crates/interface/src/math.rs:194-207 | a deposit mints `s` exactly when the mint is supported, the product fits u128 and `s` is the floor against `(supply + offset) / (assets + 1)`, at least one; it errs in every other case |
| Pricing.SharesForDepositErrs | crates/interface/src/math.rs:194-207 | which error: unsupported decimals, overflow, a result past u64, or a deposit that buys no share |
| Pricing.AssetsForShares | crates/interface/src/math.rs:209-230 | on a supported mint fails only for more shares than exist, never exceeds the assets shared out, and is exactly the floor |
| Pricing.SharePriceFromAssets | crates/interface/src/math.rs:246-258 | fails exactly with no shares or a price beyond u64; otherwise the floored price at 9 decimals |
| Pricing.ConversionIsExact | crates/interface/src/math.rs:112-168 | a conversion yields `n` exactly when there is a base price, nothing overflows after the powers of ten cancel, and `n` is one floor of the exact two-leg value; it errs in every other case |
| Pricing.ConversionSucceedsExactly | crates/interface/src/math.rs:112-168 | a conversion succeeds exactly when there is a base price, nothing overflows after the powers of ten cancel, and the exact value is below 2^64 |
| Pricing.ConversionErrs | crates/interface/src/math.rs:146-172 | which error, in the order the checks come |
| Inflation.DepositThenRedeemNeverOverpays | crates/interface/src/math.rs:194-230 | redeeming what a deposit just minted never pays more than was deposited, for every state and amount |
| Inflation.InflationCostsTheAttacker | crates/interface/src/math.rs:174-192 | for all holdings, donations, deposits and decimals an attacker who owns the vault loses at least `(offset-1)` times what a later depositor lost beyond one atom |
| Inflation.FullOffsetIsTooMuch | crates/interface/src/math.rs:178-182 | the factor cannot be raised to `offset`: an input where the offset is one, the victim loses an atom and the attacker nothing |
| Inflation.ParPricingIsExact | crates/interface/src/math.rs:178-207 | at the empty-vault ratio the virtual position cancels: minting is exact and redeeming floors only the share-to-atom ratio |
| Inflation.FullRedeemEmptiesVault | crates/interface/src/math.rs:184-186 | at or below par, redeeming the whole supply pays the assets exactly: nothing is stranded behind the virtual shares |
| Fees.FeeErrsExactly | crates/interface/src/math.rs:260-297 | an accrual errs exactly on an invalid rate or a gross share price beyond u64 |
| Fees.FeeConservesAndRatchets | crates/interface/src/math.rs:260-297 | fee plus net is the fee base; a fee is due exactly when the gross beats an established watermark by a whole price unit, is the floored rate on the profit above it, and leaves the net at or above the watermark; the new watermark is the higher of the old one and the net price, and the old one while there are no shares |
| Fees.FeeIsNotRepeated | crates/interface/src/math.rs:260-297 | accruing again on the remaining base charges nothing: the split is a fixed point |
| Fees.NoGainChargedTwice | crates/interface/src/math.rs:272-296 | once an accrual has recognised a net, any accrual of as many shares against a watermark at least as high charges profit that starts less than `supply / 10^9` atoms below it, whatever the rates |
| Vaults.VaultState.RemainingLockedProfit | crates/interface/src/state/vault.rs:368-390 | reads the unlock line (all before the window, floored linear inside, nothing after), and can only fail inside a window wider than i64 |
| Vaults.EntitledDebit | crates/interface/src/state/vault.rs:407-428 | paying out at most effective NAV is never refused, whatever is queued |
| Vaults.Vault.DebitAssetsAtEffective | crates/interface/src/state/vault.rs:407-428 | the in-place debit leaves exactly the specified state, or returns the specified error and leaves the vault untouched |
| Vaults.Vault.ApplyReportedNav | crates/interface/src/state/vault.rs:435-463 | the in-place recognition leaves exactly the specified state or returns the specified error; what that state is stands in `Drip.GainUnlocksOverItsSpan` |
| Drip.EffectiveNeverErrs | crates/interface/src/state/vault.rs:395-400 | while the drip is consistent, effective NAV never errors and lies between zero and total assets |
| Drip.LineBounds | crates/interface/src/state/vault.rs:368-390 | inside its window the unlock line is the floor of the locked profit in proportion to the time left |
| Drip.DripIsMonotone | crates/interface/src/state/vault.rs:368-400 | the unlock line only falls in time, so effective NAV only rises |
| Drip.DebitIsExact | crates/interface/src/state/vault.rs:407-428 | a debit succeeds exactly up to effective NAV, lowers effective NAV by exactly the amount, and keeps the drip consistent |
| Drip.DebitKeepsLine | crates/interface/src/state/vault.rs:417-426 | restating the line from the present floors it through a floored point: at every later time it is never above the old line and at most one atom below |
| Drip.ReportSetsEffective | crates/interface/src/state/vault.rs:435-463 | after a report effective NAV is the smaller of its prior value and the net when the gain has a window, and exactly the net otherwise; the only failure is a clock out of i64 |
| Drip.GainUnlocksOverItsSpan | crates/interface/src/state/vault.rs:435-463 | recognising a gain over prior effective NAV starts the window at the clock and ends it after the smaller of the time since the last update and the configured maximum; the gain is locked if that span is positive and nothing otherwise, and once the span has passed all of the net is effective; a loss locks nothing |
| Settlement.StrikeIsExact | crates/roshi/src/instructions/admin/process_withdrawals.rs:94-133 | a strike succeeds exactly for an eligible ticket whose shares are queued, pays the floor at the current price, and moves just its shares and that payment |
| Settlement.StrikeAllIsExact | crates/roshi/src/instructions/admin/process_withdrawals.rs:42-58 | the loop goes through exactly when every ticket is eligible and the batch's shares are queued, and moves the batch's shares and its total |
| Settlement.StrikesNeverLowerPrice | crates/roshi/src/instructions/admin/process_withdrawals.rs:42-133 | the pricing pair left behind by any batch is, cross-multiplied, at least the pair before it |
| Settlement.EachTicketGetsItsFloor | crates/roshi/src/instructions/admin/process_withdrawals.rs:46-58 | wherever a ticket stands in its batch it is paid at least what it would have been paid alone before the batch |
| Settlement.BatchPayoutBounds | crates/roshi/src/instructions/admin/process_withdrawals.rs:42-58 | `n` tickets are paid in total at most the floor of one combined redemption before the batch, and at least that less `n-1` atoms |
| Settlement.SettlementOrderBarelyMatters | crates/roshi/src/instructions/admin/process_withdrawals.rs:46-58 | any reordering of a batch that settles also settles, and moves the total by at most `n-1` atoms |
| Settlement.StrikesKeepLine | crates/roshi/src/instructions/admin/process_withdrawals.rs:94-133 | a batch moves the unlock line down by at most one atom per ticket |
| Queue.LoadIsExact | crates/roshi/src/instructions/accounts/process_withdrawals.rs:75-115 | the ticket list loads exactly when its tickets exist, hold shares and are pairwise different |
| Queue.QueuedWithoutBatch | crates/roshi/src/instructions/accounts/process_withdrawals.rs:79-115 | removing a loaded batch removes exactly its shares from the queue |
| Invariant.SettleSucceedsExactly | crates/roshi/src/instructions/admin/process_withdrawals.rs:42-92 | in every state satisfying the invariant a batch settles exactly when it is nonempty, distinct, past its epoch delay, the economic supply fits u64 and custody holds what is owed: no accounting check can wedge it, dust included |
| Invariant.StepKeepsInvariant | crates/interface/src/state/vault.rs:368-463 | every accepted instruction keeps the drip consistent, the queue counter equal to the shares in open tickets, every open ticket unstruck, and nothing pending |
| Invariant.RunKeepsInvariant | crates/interface/src/state/vault.rs:368-463 | so does every run |
| Invariant.ReachableStates | crates/interface/src/state/vault.rs:162-240 | from a freshly initialised vault every reachable state satisfies it: effective NAV never errors, the queue counter is the shares in open tickets, nothing is pending, and rates, decimals and locked profit stay in bounds |
| SharePrice.StepIsFair | crates/interface/src/state/vault.rs:395-428 | no instruction but a report lowers the virtual share price, moves NAV by anything but base paid in and out, or raises the unlock line |
| SharePrice.PriceNeverFalls | crates/roshi/src/instructions/admin/process_withdrawals.rs:94-133 | over any report-free run `(effective+1)/(economic supply+offset)` never falls |
| SharePrice.PayoutsAreCovered | crates/roshi/src/instructions/user/deposit.rs:67-118 | a report-free run that restores the economic supply pays out no more than was deposited plus the profit that unlocked on the way; at a fixed clock no more than was deposited |
| Witnesses.PayoutsCanExceedDeposits | crates/interface/src/state/vault.rs:368-400 | a run from initialisation where that excess is paid: 14 atoms out for 10 in, at restored supply |
| SharePrice.UnlockLineIsKept | crates/interface/src/state/vault.rs:404-428 | over any report-free run with `k` debits the later unlock line is never above the original and at most `k` atoms below it |
| Guarantees.DepositGuarantees | crates/roshi/src/instructions/user/deposit.rs:54-119 | what an accepted deposit mints, under which limits, and that redeeming it on the spot never pays more than was put in |
| Guarantees.RedeemGuarantees | crates/roshi/src/instructions/user/redeem.rs:34-93 | a request moves shares from circulation to the queue and to a fresh ticket worth at least an atom, and changes nobody's price |
| Guarantees.AtomicRedeemGuarantees | crates/roshi/src/instructions/execution/atomic_redeem.rs:44-98 | an atomic exit pays between the minimum asked and the received less the exit fee, never above the shares' worth, never on a stale report |
| Acceptance.DepositSucceedsExactly | crates/roshi/src/instructions/user/deposit.rs:54-119 | a deposit step is accepted exactly by admission, an open vault, sums that fit, the cap, outstanding shares priced above zero, and a value of at least one share, at least the minimum and at most the room left |
| Acceptance.RedeemSucceedsExactly | crates/roshi/src/instructions/user/redeem.rs:34-93 | a request is accepted exactly for a free ticket address, open withdrawals, and circulating shares worth at least an atom |
| Acceptance.CancelSucceedsExactlyWhen | crates/roshi/src/instructions/user/cancel_redeem.rs:31-87 | a cancellation is accepted exactly when 150 slots have passed since the request, the counters fit u64, no strike is due or the grace has elapsed, the ticket holds the minimum, and its shares fit back into circulation |
| Acceptance.CancelMovesTheShares | crates/roshi/src/instructions/user/cancel_redeem.rs:66-86 | an accepted one moves exactly the ticket's shares from the queue into circulation and removes just that ticket |
| Acceptance.AtomicRedeemSucceedsExactly | crates/roshi/src/instructions/execution/atomic_redeem.rs:44-98 | an atomic exit is accepted exactly with withdrawals open, a fresh report, enough shares held and circulating, a route amount and receipts both within what the shares are worth, and the minimum met after the fee |
| Acceptance.AtomicRedeemPaysExactly | crates/roshi/src/instructions/execution/atomic_redeem.rs:80-98 | it pays exactly what was received less the exit fee, which is the rate on it rounded up |
| Acceptance.EntitledExactly | crates/interface/src/math.rs:209-243 | shares entitle to an amount exactly when they are worth it at effective NAV over the economic supply |
| Acceptance.GrossIsExact | crates/roshi/src/instructions/admin/report_nav.rs:151-161 | gross NAV is the deposit idle, the withdraw idle unless both are one account, and the external value, and is accepted exactly while its sums fit |
| Acceptance.FeeBaseIsExact | crates/roshi/src/instructions/admin/report_nav.rs:163-166 | the fee base is the gross less fees payable and pending withdrawals, and exists exactly when the gross covers both |
| Acceptance.RecoveryIsOpenExactly | crates/roshi/src/instructions/admin/report_nav.rs:111-120 | recovery is open exactly while deposits are paused and outstanding shares are priced at zero |
| Acceptance.ReportSucceedsExactly | crates/roshi/src/instructions/admin/report_nav.rs:79-202 | a report is accepted exactly past the interval, with a supply that fits, an evidence hash, sums that fit, a gross that covers what is owed, a price within u64, and a net within the gain bound or an open recovery |
| Acceptance.CollectionSucceedsExactly | crates/roshi/src/instructions/admin/collect_fees.rs:33-104 | a collection goes through exactly for a positive amount within the payable and the custody, and lowers the payable by it and nothing else |
| Acceptance.WriteDownSucceedsExactly | crates/roshi/src/instructions/admin/write_down_fees.rs:21-33 | a write-down goes through exactly for a positive amount within the payable, and lowers the payable by it and nothing else |
| Acceptance.ConfigureSucceedsExactly | crates/roshi/src/instructions/admin/update_vault_config.rs:30-57 | a reconfiguration goes through exactly with rates of at most 100%, and changes exactly the settings |
| Acceptance.LoadsExactly | crates/interface/src/state/vault.rs:596-622 | a stored vault is accepted exactly with rates of at most 100%, at most 9 base decimals, locked profit within total assets and an unlock window that does not end before it starts |
| Refusals.DepositRefused | crates/roshi/src/instructions/user/deposit.rs:54-119 | what a refused deposit step is told: pause, admission, cap and slippage |
| Refusals.WholeDepositRefused | crates/roshi/src/instructions/user/deposit.rs:43-119 | what a refused deposit instruction is told, in the order of its checks |
| Refusals.AssetRefused | crates/roshi/src/instructions/accounts/deposit.rs:103-177 | what an asset that cannot be valued reports |
| Refusals.RedeemRefused | crates/roshi/src/instructions/user/redeem.rs:34-93 | what a refused redemption request is told |
| Refusals.CancelRefused | crates/roshi/src/instructions/user/cancel_redeem.rs:31-87 | what a refused cancellation is told: counters before the delay, the delay before the minimum, the minimum before the mint |
| Refusals.AtomicRedeemRefused | crates/roshi/src/instructions/execution/atomic_redeem.rs:44-98 | what a refused atomic exit is told by the accounting |
| Refusals.ReportRefused | crates/roshi/src/instructions/admin/report_nav.rs:79-202 | what a refused report is told, in the order of its checks, on the stored fields |
| Refusals.RecoveryRefused | crates/roshi/src/instructions/admin/report_nav.rs:111-120 | why a recovery is not open |
| Refusals.LoadRefused | crates/interface/src/state/vault.rs:596-622 | what a vault account that does not load reports |
| Refusals.FeesRefused | crates/roshi/src/instructions/admin/collect_fees.rs:33-104 | what a refused collection or write-down is told |
| Refusals.SettleRefused | crates/roshi/src/instructions/admin/process_withdrawals.rs:34-92 | what a refused settlement is told: no tickets, a bad list, or custody that runs dry |
| Refusals.ConfigureRefused | crates/roshi/src/instructions/admin/update_vault_config.rs:30-57 | a refused reconfiguration is told of the rate, and there is no other reason |
| Refusals.ObserveRefused | crates/interface/src/action.rs:447-550 | what an op that cannot be observed reports, on the fields of the call |
| Refusals.ObserveAllRefused | crates/interface/src/action.rs:447-511 | the first op that cannot be observed decides |
| Refusals.MetasRefused | crates/roshi/src/instructions/execution/shared.rs:271-290 | the first account that does not grant what is asked of it decides, the write privilege before the signature |
| Refusals.SiblingsRefused | crates/roshi/src/instructions/execution/shared.rs:374-419 | why siblings are not loaded: ops that are not canonical, a transaction that cannot be seen, an instruction that is not there |
| Refusals.RelayRefused | crates/roshi/src/instructions/execution/shared.rs:225-328 | what a refused relay is told, in the order of its checks |
| Refusals.RouteRefused | crates/roshi/src/instructions/execution/shared.rs:145-177 | what a public relay of an authorized call is told: no amount at the offset, the share account in the route, or an unbound meta |
| Refusals.SwapRefusedBefore | crates/roshi/src/instructions/execution/swap.rs:39-92 | what a swap refused before its call is told |
| Refusals.CustodyMoved | crates/roshi/src/instructions/execution/shared.rs:122-143 | the first listed custody that is not as it was decides: gone or no longer clean before moved |
| Refusals.SwapRefusedAfter | crates/roshi/src/instructions/execution/swap.rs:94-156 | what a swap refused after its call is told, once the accounts are in order |
| Refusals.ValueRefused | crates/roshi/src/instructions/execution/swap.rs:120-156 | what a refused value check reports |
| Refusals.DeployRefused | crates/roshi/src/instructions/execution/deposit_and_deploy.rs:24-62 | what a refused deposit-and-deploy is told, in the order of its checks |
| Refusals.UnwindRefusedBefore | crates/roshi/src/instructions/execution/atomic_redeem.rs:44-130 | what an atomic redemption refused before its call is told |
| Refusals.UnwindRefusedAfter | crates/roshi/src/instructions/execution/atomic_redeem.rs:65-178 | what one refused after it is told |
| NavReports.ReportBalancesTheBooks | crates/roshi/src/instructions/admin/report_nav.rs:151-191 | an accepted report splits the gross exactly into net assets, fees payable and pending withdrawals, ratchets the watermark, counts one epoch, and sets effective NAV as recognised; the window is in the row below |
| NavReports.ReportUnlocksOverItsSpan | crates/interface/src/state/vault.rs:435-463 | an accepted report whose net exceeds prior effective NAV locks the gain from the clock for the smaller of the time since the last report and the configured maximum, or not at all when that is zero, and all of the net is effective once that time has passed |
| FeeLedger.ReportAccruesItsFee | crates/roshi/src/instructions/admin/report_nav.rs:167-179 | an accepted report raises the payable by exactly its fee |
| FeeLedger.RunBalancesFees | crates/roshi/src/instructions/admin/collect_fees.rs:89-92 | over every run the fees accrued by reports, with what was payable before, are what is payable now plus everything collected plus everything written down |
| FeeLedger.FeesAreCollectedOnce | crates/roshi/src/instructions/admin/collect_fees.rs:33-104 | from initialisation the total collected never passes the total accrued, whatever runs |
| Waiting.EpochCountsReports | crates/roshi/src/instructions/admin/report_nav.rs:182-185 | the report epoch counts the accepted reports of a run |
| Waiting.CancellationWaits150Slots | crates/roshi/src/instructions/user/cancel_redeem.rs:45-60 | over any run a redemption and its accepted cancellation are at least 150 slots apart |
| Waiting.SettlementWaitsForAReport | crates/roshi/src/instructions/admin/process_withdrawals.rs:100-106 | over any run a redemption is settled only after a report accepted after it |
| NavReports.ReReportingChargesNothing | crates/roshi/src/instructions/admin/report_nav.rs:159-191 | reporting an unchanged gross again leaves net assets, fees and watermark where they were |
| NavReports.WatermarkNeverFalls | crates/interface/src/math.rs:272-296 | over any run at all the high watermark never falls |
| NavReports.NoGainChargedTwiceOverRuns | crates/roshi/src/instructions/admin/report_nav.rs:163-191 | over any run between two reports with the same economic supply at both, whatever it does in between, the profit the second charges starts less than `supply / 10^9` atoms below the net the first recognised |
| RateLimit.ReportIsBounded | crates/interface/src/state/vault.rs:486-520 | an ordinary report raises total assets by at most the gain bound and comes no sooner than the interval after the last |
| RateLimit.ReportsCompoundBounded | crates/interface/src/state/vault.rs:486-520 | over any deposit-free run `k` ordinary reports satisfy `total·10000^k <= start·(10000+g)^k`, and the last comes at least `k-1` intervals after the start |
| RateLimit.GrowthIsRateLimited | crates/roshi/src/instructions/admin/report_nav.rs:103-191 | growth is bounded by the clock alone: one bounded gain per started interval, whatever is reported |
| Tickets.TicketProgress | crates/roshi/src/instructions/user/cancel_redeem.rs:36-60 | past the slot delay a ticket can be struck or cancelled exactly if it is strike-eligible or the cancellation counters fit u64; with the grace control off exactly one of the two; with it on both exactly after the grace |
| Witnesses.StrandedTicket | crates/roshi/src/instructions/user/cancel_redeem.rs:50-57 | a state reached from initialisation by four steps where an open ticket past its delay is out of reach of both instructions, because its grace slot overflows: the counters condition is needed |
| Tickets.GatePastDelay | crates/roshi/src/instructions/user/cancel_redeem.rs:36-60 | past the delay the cancellation gate opens exactly if the counters fit u64 and the ticket is not strike-eligible or its grace has elapsed |
| Tickets.TicketIsNeverStuck | crates/roshi/src/instructions/user/cancel_redeem.rs:31-87 | past the delay, wherever the supply stands, the ticket can be settled on its own or cancelled exactly if it is strike-eligible, the economic supply fits and custody covers it, or the gate is open and its shares fit back into circulation; while the supply fits and custody covers it, exactly if it is strike-eligible or the counters fit |
| Tickets.RunKeepsTicket | crates/roshi/src/instructions/user/cancel_redeem.rs:79-86 | a run that leaves a ticket alone leaves it as it is |
| Tickets.CancelledRedeemLeavesNoTrace | crates/roshi/src/instructions/user/cancel_redeem.rs:79-86 | redeem, then any accepted run that leaves the ticket alone, then cancel: the same run is accepted without the pair exactly if the shares would have fitted in circulation all along, which they do whenever no holder burns; and then it ends in exactly the same state |
| Witnesses.NoTraceNeedsRoom | crates/roshi/src/instructions/user/cancel_redeem.rs:79-86 | a redemption, a deposit, a holder burn and a cancellation, all accepted, where the same run is refused without the pair: the room is needed |
| SupplyLimit.FitIsLostExactlyByOverminting | crates/roshi/src/instructions/user/deposit.rs:68-90 | an accepted step keeps circulating plus queued shares inside u64 exactly when it is not a deposit worth, at the price in force, more shares than the room left |
| SupplyLimit.WedgedRefuses | crates/interface/src/state/vault.rs:345-351 | past that limit no deposit, redemption, settlement, atomic exit or report is accepted |
| SupplyLimit.WedgedUntilBurnt | crates/interface/src/state/vault.rs:345-351 | a run in which holders burn less than the excess over u64 leaves the vault wedged: it holds only cancellations, fee collections and write-downs, reconfigurations, burns and waiting, and total assets and payouts stand still |
| SupplyLimit.PricingResumesAfterBurns | crates/interface/src/state/vault.rs:345-351 | wherever an accepted run prices something again, at least the excess was burned before |
| SupplyLimit.StillRunEndsWedgeExactly | crates/interface/src/state/vault.rs:345-351 | while a run prices nothing, the wedge lasts exactly until the excess is burned |
| SupplyLimit.WedgeIsRecoverable | crates/roshi/src/instructions/token.rs:188-226 | the excess never passes what circulates, so holders can always burn it through the token program, and a burn ends the wedge exactly from the excess on |
| SupplyLimit.CancelSucceedsExactly | crates/roshi/src/instructions/user/cancel_redeem.rs:31-87 | a cancellation goes through exactly for an open ticket past its gate, holding what was asked for, whose shares fit back into circulation; the gate on the raw fields stands in `Acceptance.CancelSucceedsExactlyWhen` |
| SupplyLimit.CrowdedUntilBurnt | crates/roshi/src/instructions/user/cancel_redeem.rs:66-86 | a ticket whose shares do not fit beside the circulating supply is out of reach of cancellation and settlement over every run in which holders burn less than its overhang |
| SupplyLimit.BurningTheOverhangMakesRoom | crates/roshi/src/instructions/token.rs:188-226 | a burn brings such a ticket back within reach exactly from its overhang on, which never passes what circulates |
| Witnesses.AVaultCanWedge | crates/roshi/src/instructions/user/deposit.rs:68-90 | three accepted instructions from initialisation wedge a vault and put its one ticket out of reach until holders burn the overhang |
| Witnesses.AWedgeCanEnd | crates/roshi/src/instructions/token.rs:188-226 | in that vault a burn of a fifth of the circulating shares lets a report through, and after the slot delay the ticket is cancelled |
| Handlers.Strike | crates/roshi/src/instructions/admin/process_withdrawals.rs:94-133 | the in-place strike updates vault and ticket as specified or returns the specified error |
| Handlers.LoadSettlements | crates/roshi/src/instructions/accounts/process_withdrawals.rs:75-115 | the loading loop returns the specified list or error |
| Handlers.StrikeBatch | crates/roshi/src/instructions/admin/process_withdrawals.rs:46-58 | the settlement loop leaves the vault, the tickets and the running total as specified, or returns the first error |
| Handlers.PayBatch | crates/roshi/src/instructions/admin/process_withdrawals.rs:73-83 | the payout loop draws each ticket from custody in order, or fails as specified |
| Handlers.Program.Deposit | crates/roshi/src/instructions/user/deposit.rs:67-119 | refines the deposit step for a given allowlist verdict and base value: the same commit, or the same error with every account as it was |
| Handlers.Program.Redeem | crates/roshi/src/instructions/user/redeem.rs:34-93 | refines the redeem step |
| Handlers.Program.CancelRedeem | crates/roshi/src/instructions/user/cancel_redeem.rs:31-87 | refines the cancel step, which `Acceptance.CancelSucceedsExactlyWhen` and `CancelMovesTheShares` pin on the stored fields |
| Handlers.Program.ProcessWithdrawals | crates/roshi/src/instructions/admin/process_withdrawals.rs:34-92 | commits exactly the settlement step through its three loops, or nothing |
| Handlers.Program.AtomicRedeem | crates/roshi/src/instructions/execution/atomic_redeem.rs:80-98 | commits exactly the accounting step of an atomic exit, or nothing |
| Handlers.Program.ReportNav | crates/roshi/src/instructions/admin/report_nav.rs:79-202 | commits exactly the report step in the code's order of updates, or nothing; `Acceptance.ReportSucceedsExactly` and `NavReports.ReportUnlocksOverItsSpan` pin that step |
| Handlers.Program.CollectFees | crates/roshi/src/instructions/admin/collect_fees.rs:33-104 | refines the collection of an existing payable, which `Acceptance.CollectionSucceedsExactly` pins |
| Handlers.Program.WriteDownFees | crates/roshi/src/instructions/admin/write_down_fees.rs:21-33 | refines the write-down, which `Acceptance.WriteDownSucceedsExactly` pins |
| Access.PreimagesAreInjective | crates/interface/src/access.rs:6-23 | the domains keep leaves apart from nodes, a leaf fixes its owner, and a node fixes its children up to order |
| Access.PreimageLayout | crates/interface/src/access.rs:6-23 | a leaf hashes its domain and the owner, a node its domain and its children, the smaller one in byte order first |
| Bytes.FirstDifferenceDecides | crates/interface/src/access.rs:15-23 | the byte order is decided by the first byte that differs, the smaller one first |
| AccessTree.LeavesAscend | crates/client/src/access.rs:30-34 | sorted entries ascend in the byte order of their leaves, and of their owners where leaves tie |
| Access.VerifyAccessMerkleProof | crates/interface/src/access.rs:25-41 | the verifier loop rejects more than 32 siblings and otherwise compares the folded hash with the root |
| AccessTree.AcceptedMeansListed | crates/interface/src/access.rs:25-41 | soundness: acceptance against a built tree's root means the owner is listed, or something hashed on the path collides with something else hashed in the tree (for the empty tree: hashes to zeros) |
| AccessTree.ListedMeansAccepted | crates/client/src/access.rs:72-102 | completeness: every proof handed out is accepted, is at most `m` long in a tree of at most `2^m` owners, and everyone listed gets one exactly up to `2^32` owners |
| AccessTree.ListsIsUnique | crates/client/src/access.rs:21-35 | the sorted, deduplicated entries depend only on the set of owners |
| AccessTree.RootBindsOwners | crates/client/src/access.rs:64-70 | the root is a function of the set of owners, and binds it: an owner with a proof from another list with the same root is listed, or a collision is exhibited |
| AccessTree.ProofReachesRoot | crates/client/src/access.rs:72-95 | the siblings collected from a position lead to the root, odd promotions included |
| AccessTree.FirstProofIsFull | crates/client/src/access.rs:79-95 | the first position's proof is as long as the tree is high |
| AccessTree.PathCrossesLayer | crates/client/src/access.rs:41-54 | a path that reaches a tree's root passed through every layer below, or collided above it |
| AccessTree.Sort | crates/client/src/access.rs:30-34 | the entries come out ordered by leaf and owner, none lost or added |
| AccessTree.Dedup | crates/client/src/access.rs:35 | of equal neighbours one is kept; over sorted entries that leaves one per owner |
| AccessTree.HashPairs | crates/client/src/access.rs:43-51 | one pass over the chunks of two gives the layer above |
| AccessTree.BuildLayers | crates/client/src/access.rs:37-55 | the layer loop terminates with all layers up to the root |
| AccessTree.WalkUp | crates/client/src/access.rs:77-95 | the proof loop collects exactly the specified siblings |
| AccessTree.AccessMerkleTree.constructor | crates/client/src/access.rs:21-58 | a built tree lists its owners and stores its layers |
| AccessTree.AccessMerkleTree.Answers | crates/client/src/access.rs:60-70 | emptiness, membership and root answer for the set of owners, whatever was passed in |
| AccessTree.AccessMerkleTree.Proof | crates/client/src/access.rs:72-102 | none for a stranger; for a listed owner of at most `2^32` one that the verifier accepts against the root |
| Flags.FromFlags | crates/interface/src/instructions/account_flags.rs:24-41 | the in-place packing holds exactly the given flags, two bits each, and nothing else |
| Flags.DecodesExactlyPackings | crates/interface/src/instructions/account_flags.rs:23-62 | decoding succeeds exactly on packings and returns what is packed: both round trips |
| Flags.PackedFormIsCanonical | crates/interface/src/instructions/account_flags.rs:11-21 | two accepted packings with the same flags are the same bytes |
| Flags.BitsOfAccount | crates/interface/src/instructions/account_flags.rs:24-62 | account `k` asks for a signature by the low bit of its slot in byte `k / 4` and for write access by the high one, slots filling a byte from its low end |
| Actions.DecodesExactlyEncodings | crates/interface/src/action.rs:82-161 | a stored op decodes to an op exactly when it is that op's encoding: both round trips, and every non-canonical form is refused |
| Actions.StoredLayout | crates/interface/src/action.rs:82-161 | the bytes of each stored op: the kind, the offset little-endian behind the length, a relative index in two's complement |
| Bytes.LeByPlaceValue | crates/interface/src/action.rs:447-511 | byte `i` of a little-endian integer counts for `256^i` |
| Actions.DecodeAllIsExact | crates/interface/src/action.rs:396-402 | the same for a list of ops |
| Actions.NewOps | crates/interface/src/action.rs:359-381 | succeeds exactly up to 32 ops, and reads back as the ops given |
| Preimage.PreimageLen | crates/interface/src/action.rs:514-532 | the length pass sums the committed lengths and reports a bad op list first |
| Preimage.ComputePreimage | crates/interface/src/action.rs:433-512 | the growing buffer ends as the specified preimage or the specified error, at exactly its reserved length; `Commitment` states what that preimage is on the fields of the call |
| Preimage.PreimageLength | crates/interface/src/action.rs:518-532 | the reserved length is exact for every op list and call |
| Preimage.ParsesExactlyPrints | crates/interface/src/action.rs:447-511 | the preimage is uniquely decodable: a parser accepts exactly what was printed and returns it |
| Preimage.PreimageDetermines | crates/interface/src/action.rs:433-512 | from the bytes alone: the program id, the op sequence and every observed field; `Commitment.SamePreimageSameFields` says which bytes of the call those are |
| Preimage.SamePreimageSameObservations | crates/interface/src/action.rs:433-512 | equal preimages mean the same program and ops, observing the same things, which `Commitment.SamePreimageSameFields` states on the calls |
| Commitment.SamePreimageSameFields | crates/interface/src/action.rs:433-550 | two calls with one preimage are calls of one program, and for every op the named range exists in both and holds the same: data bytes, whole meta, data length, or the first sibling's program and data bytes or account |
| Commitment.RelaysOfAnActionAgree | crates/roshi/src/instructions/execution/shared.rs:225-328 | so any two relays accepted for one action agree on all of that, or their preimages collide |
| Commitment.RelaysStandBesideTheSame | crates/roshi/src/instructions/execution/shared.rs:374-419 | and stand in transactions whose instructions at a committed relative index agree in what the op names |
| Commitment.PreimageExistsExactly | crates/interface/src/action.rs:433-550 | a call has a preimage exactly when the op list is canonical and everything it names is there |
| Commitment.PrintedLayout | crates/interface/src/action.rs:447-511 | the bytes of each observation: its kind, its operands, then what was observed |
| Commitment.PreimageLayout | crates/interface/src/action.rs:433-446 | the program id comes first, then the observations in op order |
| Relay.AuthorizedCpiIsFaithful | crates/roshi/src/instructions/execution/shared.rs:225-328 | an accepted relay lists the supplied accounts in order, with exactly the requested flags, no privilege the caller does not hold and always the sub-account's own signature, calls the executable account behind them, and hashes to what the action commits to |
| Relay.MetaIsExact | crates/roshi/src/instructions/execution/shared.rs:271-290 | a meta is built exactly when the account grants what is asked for, the sub-account's signature apart, and carries just that plus that signature |
| Relay.RelaySucceedsExactly | crates/roshi/src/instructions/execution/shared.rs:225-328 | up to the hash a relay is refused exactly for too few accounts, a program that is not executable, flags that do not decode, a privilege not held, or a sibling that is not there |
| Relay.SiblingsLoadExactly | crates/roshi/src/instructions/execution/shared.rs:374-419 | siblings load exactly when the transaction can be seen, if any op needs it, and has an instruction at every relative index an op names |
| Relay.DecodedAmountIsCarried | crates/roshi/src/instructions/execution/amount.rs:6-23 | the route amount is the value whose eight little-endian bytes stand at the configured offset |
| Relay.SiblingsAreTheTransactions | crates/roshi/src/instructions/execution/shared.rs:374-419 | a sibling op observes the very instruction its relative index names; the hash can never miss a sibling the loader accepted |
| Relay.SearchIngested | crates/roshi/src/instructions/execution/shared.rs:211-223 | the search loop reports whether an op commits the account, or the first op that does not decode |
| Relay.CheckWritableMetasBound | crates/roshi/src/instructions/execution/shared.rs:159-167 | the scan loop over writable metas ends as specified |
| Relay.CheckAllMetasBound | crates/roshi/src/instructions/execution/shared.rs:169-177 | the scan loop over all metas ends as specified |
| Relay.RequireBoundIsExact | crates/roshi/src/instructions/execution/shared.rs:159-223 | with canonical ops a scan passes exactly when every meta it covers is committed by an op |
| Relay.DeployRouteIsUnique | crates/roshi/src/instructions/execution/shared.rs:169-177 | any two deployments accepted for one action call the same program with the same metas, length included, or their preimages collide |
| Relay.UnwindRoutesAgree | crates/roshi/src/instructions/execution/shared.rs:145-167 | any two unwinds accepted for one action agree on the program and on every position writable in either, or their preimages collide |
| Custody.TokenAmount | crates/roshi/src/instructions/token.rs:495-511 | readable exactly for an initialised token account; the value whose eight little-endian bytes stand at the amount |
| Custody.AmountBytes | crates/roshi/src/instructions/token.rs:495-511 | the amount stands little-endian in bytes 64 to 71 |
| Custody.CustodyBytes | crates/roshi/src/instructions/token.rs:358-383 | custody byte by byte: owned by a token program, long enough, initialised, its owner field the sub-account |
| Custody.AuthorityBytes | crates/roshi/src/instructions/token.rs:469-494 | an account is unclean exactly for a nonzero byte in its delegate tag or its close authority tag |
| Custody.TransferMoves | crates/roshi/src/instructions/token.rs:513-539 | a transfer signed by the owner or a sufficient delegate moves exactly the amount between two accounts, touches no third one, keeps every owner, and grants nobody an authority |
| Custody.TransferSucceedsExactly | crates/roshi/src/instructions/token.rs:513-539 | it goes through exactly between initialised accounts of one mint, for an amount held and with room, signed by the delegate within its delegation or by the owner |
| Custody.DelegationIsSpent | crates/roshi/src/instructions/token.rs:513-539 | a delegate's transfer lowers its delegation by the amount and clears it when used up; an owner's leaves it alone; no other byte changes |
| Custody.CleanCustodyPaysOnlyItsOwner | crates/roshi/src/instructions/token.rs:358-383 | a custody account with no delegate pays for no signer but the sub-account itself |
| Custody.EndpointFrame | crates/roshi/src/instructions/token.rs:331-352 | an endpoint passes exactly when it is byte-identical outside its amount, so its delegate and close authority are unchanged |
| Custody.ScanLoop | crates/roshi/src/instructions/execution/shared.rs:45-61 | the pre-call scan lists the writable custodies or stops at an unclean one |
| Custody.ReverifyLoop | crates/roshi/src/instructions/execution/shared.rs:63-92 | the post-call scan passes exactly as specified |
| Custody.ScanSucceedsExactly | crates/roshi/src/instructions/execution/shared.rs:45-61 | the first scan passes exactly when every writable custody is clean, and lists just those |
| Custody.ReverifySucceedsExactly | crates/roshi/src/instructions/execution/shared.rs:63-92 | the second passes exactly when every listed account is there and clean custody |
| Custody.RelayKeepsControl | crates/roshi/src/instructions/execution/shared.rs:45-92 | whatever a call limited to its writable accounts did, sub-account custody stays sub-account custody, clean if the call could write it and untouched if not |
| Swap.SnapshotWritableCustody | crates/roshi/src/instructions/execution/shared.rs:94-120 | the snapshot loop lists each other writable custody once, with its balance |
| Swap.VerifyCustodyUnchanged | crates/roshi/src/instructions/execution/shared.rs:122-143 | the verification loop passes exactly when each is still clean at that balance |
| Swap.Swap | crates/roshi/src/instructions/execution/swap.rs:39-156 | the handler computes the specified flow or error; `Swap.SwapSucceedsExactly` pins when, and `Swap.ValueIsTheFloor` at what value |
| Swap.SwapSucceedsExactly | crates/roshi/src/instructions/execution/swap.rs:39-156 | a swap is accepted exactly when the action authorizes the call, endpoints and other custodies are in order before it and left in order, the input paid at most the maximum, the output received at least the minimum, and the flow keeps its value |
| Swap.ValueIsTheFloor | crates/roshi/src/instructions/accounts/swap.rs:174-311 | an asset leg is worth the floor of its exact two-leg value over the supplied base price when its feed is routed and over one when it is direct, and a base leg its amount |
| Swap.ValuedExactly | crates/roshi/src/instructions/accounts/swap.rs:278-311 | an endpoint can be valued exactly when a routed feed has its base price, that price is not zero, and nothing overflows |
| Swap.SwapKeepsOtherCustody | crates/roshi/src/instructions/execution/swap.rs:83-92 | for an arbitrary call limited to its writable accounts, every other sub-account custody keeps its balance and control |
| Swap.SwapMovesOnlyAmounts | crates/roshi/src/instructions/execution/swap.rs:94-117 | both endpoints are byte-identical outside the amount, and the amounts moved by a flow within the caller's bounds |
| Swap.SwapValueIsBounded | crates/roshi/src/instructions/execution/swap.rs:120-156 | with a tolerance configured the value check passes exactly when both endpoints can be valued and `received·10000 >= spent·(10000 - slippage)`, both sides the floors of their exact values in the leg's own fields |
| Swap.ValuedSwapPassesExactly | crates/roshi/src/instructions/execution/swap.rs:127-156 | so with a tolerance configured it passes exactly when both endpoints have a value and those values keep to it: an endpoint that cannot be valued is refused |
| Swap.AcceptedSwapKeepsValue | crates/roshi/src/instructions/execution/swap.rs:39-45 | so every accepted swap with a tolerance configured received at least its value less the tolerance, at those floors |
| Swap.ValueBoundIsOptional | crates/roshi/src/instructions/execution/swap.rs:127-135 | with no tolerance configured there is no value bound |
| Depositing.Deposit | crates/roshi/src/instructions/user/deposit.rs:43-119 | the full handler: proof length, pause, allowlist, valuation, then the deposit step; commits it exactly or leaves every account as it was |
| Depositing.DepositBooksTheValue | crates/roshi/src/instructions/accounts/deposit.rs:103-177 | an accepted deposit of an asset books exactly the floor of its value at the verified prices, under the asset cap, and keeps the invariant and the price |
| Depositing.AssetValuedExactly | crates/roshi/src/instructions/accounts/deposit.rs:103-177 | an asset is valued exactly while enabled and under its cap, at the floor of its exact value; the base mint at its amount |
| Depositing.WholeDepositSucceedsExactly | crates/roshi/src/instructions/user/deposit.rs:43-119 | the instruction is accepted exactly with at most 32 siblings, into a public vault or with a proof the root accepts, for an asset that can be valued and a value that fits: a public vault admits anyone |
| Depositing.PrivateVaultAdmitsTheList | crates/interface/src/state/vault.rs:548-554 | a private vault under a built tree's root admits only listed owners, or a collision is exhibited; and admits every listed owner with the proof the tree hands out |
| Deploy.DepositAndDeploy | crates/roshi/src/instructions/execution/deposit_and_deploy.rs:24-62 | commits the deposit exactly when checks, deposit, transfer, call and custody scans all pass; any later failure rolls the deposit back |
| Deploy.DeployStartsFunded | crates/roshi/src/instructions/execution/deposit_and_deploy.rs:48-59 | when the call starts, custody holds exactly the deposit on top of what it held, and the sub-account controls what it controlled |
| Deploy.DeployIsADeposit | crates/roshi/src/instructions/execution/deposit_and_deploy.rs:28-57 | to the books an accepted deploy is a deposit of the very amount its route carries, by an admitted depositor; it keeps the invariant and the price |
| Deploy.DeploySucceedsExactly | crates/roshi/src/instructions/execution/deposit_and_deploy.rs:24-62 | a deploy is accepted exactly with a clean custody, a deploy action whose route carries the amount and binds every meta, a deposit that fits, a covered transfer, and every custody the call can write clean before and after |
| Deploy.DeployKeepsControl | crates/roshi/src/instructions/execution/deposit_and_deploy.rs:59-61 | the relayed call leaves no standing authority on anything it could write |
| Unwinding.AtomicRedeem | crates/roshi/src/instructions/execution/atomic_redeem.rs:44-178 | the full handler commits exactly the specified step on what custody measurably received, or nothing |
| Unwinding.UnwindSucceedsExactly | crates/roshi/src/instructions/execution/atomic_redeem.rs:44-178 | it is accepted exactly with custody clean before and after, a redeem action whose route carries an amount and is authorized, a call that takes nothing from custody, and an exit the accounting accepts for what it received |
| Unwinding.UnwindPaysFromProceeds | crates/roshi/src/instructions/execution/atomic_redeem.rs:65-97 | custody grew by at least the payout, the shares were entitled to all of it, the payout transfer is covered, and invariant and price are kept |

## Left out

- Account plumbing: PDA derivation, signers and roles, rent, account serialization, mint and token
  program checks. Keys are opaque values and loaded accounts are given.
- Share balances per holder: the machine keeps the share mint's supply; a redeemer's balance is a
  parameter of the atomic exit and the burn authority of a queued redemption is not modelled.
- Ticket recipients and payout routing: tickets are keyed by owner and index, and a payout is base
  leaving custody.
- Custody balances outside the byte-level flows: settlement and fee collection take the balance of
  the custody they pay from as a parameter, a report the idle balances it reads, and a deposit of
  an asset the balance its inventory cap is read against.
- Oracle parsing and freshness, Metaplex metadata: a verified price is an input.
- `Handlers.Program.Deposit`: takes the allowlist verdict and the base value as parameters;
  `Depositing.Deposit` supplies both.
- `Deploy.DepositAndDeploy`: does not write the bytes of the share mint and of the depositor's share
  account; the transfer into custody is modelled byte for byte.
- `VaultState.ValidateState`: covers the accounting fields and rates, not tags, mints, oracle
  configuration, the withdrawal buffer rate or flag bytes.
- `Handlers.Program.CollectFees`: does not model the treasury and sub-account checks, only the
  payable and the custody balance.
- `Machine.ApplyConfigure`: replaces all mutable settings and pause flags at once, where the program
  has one instruction for each group.
- `AccessTree.Sort`: stands for the standard library's sort; the order is total on entries, so any
  sort gives the same sequence.
- Shares burned by a relayed call itself: a burn is a step of its own, between instructions.
- SHA-256 and the runtime's CPI: an abstract hash and an arbitrary state change. Compute limits,
  heap limits and transaction size are outside the model.
- External invest and return, role setters, authority transfers, asset and destination
  registration: each is settled by reading one branch.
- Flash-approve binding of siblings to the delegated account: transaction introspection. Its ops are
  part of the codec and the preimage.
- `manage` and `manage_batch`: only their scan, call and reverify bracket, in `Custody`.
- Instruction builders, IDL generation and client code other than the allowlist tree.

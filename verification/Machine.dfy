/** The vault's instructions as one step machine: the accounts they read and write, what each
    instruction checks in order, and what it commits. A rejected instruction changes nothing.
    A checked operation that can never fail where it stands is proved not to, and is then written
    without an error arm. */
module Machine {
  import opened Outcome
  import opened Bytes
  import opened Pricing
  import opened Fees
  import opened Vaults

  const WITHDRAWAL_STRIKE_DELAY_EPOCHS := 1
  const REDEEM_CANCEL_DELAY_SLOTS := 150

  /** Tickets are addressed by share owner and ticket index. */
  datatype TicketKey = TicketKey(owner: Pubkey, index: U8)

  datatype Ticket = Ticket(sharesBurned: U64, assetsOwed: U64, requestEpoch: U64, requestSlot: U64)

  /** Everything the accounting depends on: the vault account, the share mint's supply, the open
      ticket accounts, the clock, and the base atoms moved in by depositors and out to them. */
  datatype Ledger = Ledger(
    vault: VaultState,
    supply: U64,
    tickets: map<TicketKey, Ticket>,
    now: I64,
    slot: U64,
    inflow: nat,
    outflow: nat)

  datatype NavReport = NavReport(
    recovery: bool,
    emptyHash: bool,
    depositIdle: U64,
    withdrawIdle: U64,
    sharedCustody: bool,
    externalValue: U64)

  datatype Unwind = Unwind(ownerBalance: U64, withdrawalAmount: U64, received: U64, minOutput: U64)

  datatype Settings = Settings(
    depositCap: U64,
    controls: Controls,
    performanceFeeBps: U16,
    depositsPaused: bool,
    withdrawalsPaused: bool)

  datatype Step =
    | Deposit(baseAtoms: U64, minSharesOut: U64, admitted: bool)
    | Redeem(key: TicketKey, shares: U64)
    | Cancel(key: TicketKey, minSharesOut: U64)
    | Settle(keys: seq<TicketKey>, custody: U64)
    | AtomicRedeem(shares: U64, unwind: Unwind)
    | Report(report: NavReport)
    | CollectFees(amount: U64, custody: U64)
    | WriteDownFees(amount: U64)
    | Configure(settings: Settings)
    | HolderBurn(shares: U64)
    | Advance(seconds: nat, slots: nat)

  /** The share mint: minting past u64 or burning more than circulates fails in the CPI. */
  function MintShares(supply: U64, shares: U64): Result<U64> {
    if supply + shares <= U64_MAX then Ok(supply + shares) else Err(TokenProgramFailure)
  }

  function BurnShares(supply: U64, shares: U64): Result<U64> {
    if shares <= supply then Ok(supply - shares) else Err(TokenProgramFailure)
  }

  function ApplyDeposit(w: Ledger, baseAtoms: U64, minSharesOut: U64, admitted: bool): Result<Ledger> {
    var v := w.vault;
    var _ :- v.ValidateState();
    if v.depositsPaused then Err(VaultPaused)
    else if !admitted then Err(InvalidAccessProof)
    else
      var totalAssets :- v.TotalAssetsAfterDeposit(baseAtoms);
      var economic :- v.EconomicShareSupply(w.supply);
      var effective :- v.EffectiveTotalAssets(w.now);
      var _ :- VerifySharePrice(effective, economic);
      var shares :- SharesForDeposit(baseAtoms, effective, economic, v.baseDecimals);
      if shares < minSharesOut then Err(SlippageExceeded)
      else
        var supply :- MintShares(w.supply, shares);
        Ok(w.(vault := v.(totalAssets := totalAssets), supply := supply, inflow := w.inflow + baseAtoms))
  }

  /** Deposits stop while outstanding shares are priced at zero. */
  function VerifySharePrice(effective: U64, economic: U64): Result<Unit> {
    if economic == 0 then Ok(Unit)
    else
      var price :- SharePriceFromAssets(effective, economic);
      Need(price != 0, ZeroSharePrice)
  }

  function ApplyRedeem(w: Ledger, key: TicketKey, shares: U64): Result<Ledger> {
    var v := w.vault;
    if key in w.tickets then Err(AccountAlreadyInitialized)
    else
      var _ :- v.ValidateState();
      if v.withdrawalsPaused then Err(VaultPaused)
      else if shares == 0 then Err(ZeroOutput)
      else if shares > w.supply then Err(InvalidVaultState)
      else
        var economic :- v.EconomicShareSupply(w.supply);
        var effective :- v.EffectiveTotalAssets(w.now);
        var _ :- AssetsForRedeem(shares, effective, economic, v.baseDecimals);
        Ok(w.(vault := v.(requestedWithdrawalShares := v.requestedWithdrawalShares + shares),
              supply := w.supply - shares,
              tickets := w.tickets[key := Ticket(shares, 0, v.reportEpoch, w.slot)]))
  }

  /** The gates a cancellation passes before it moves anything. */
  function CancelGate(v: VaultState, ticket: Ticket, slot: U64): Result<Unit> {
    if ticket.assetsOwed != 0 then Err(InvalidWithdrawalTicketAccount)
    else
      var earliestStrikeEpoch :- CheckedU64(ticket.requestEpoch + WITHDRAWAL_STRIKE_DELAY_EPOCHS);
      var cancelSlot :- CheckedU64(ticket.requestSlot + REDEEM_CANCEL_DELAY_SLOTS);
      var strikeEligible := v.reportEpoch >= earliestStrikeEpoch;
      var grace := v.controls.cancelGraceSlots;
      var graceSlot :- if grace > 0 then CheckedU64(ticket.requestSlot + grace) else Ok(0);
      var graceElapsed := grace > 0 && slot >= graceSlot;
      Need(!(strikeEligible && !graceElapsed) && slot >= cancelSlot, InvalidWithdrawalTicketAccount)
  }

  function ApplyCancel(w: Ledger, key: TicketKey, minSharesOut: U64): Result<Ledger> {
    var v := w.vault;
    var _ :- v.ValidateState();
    if key !in w.tickets then Err(InvalidWithdrawalTicketAccount)
    else
      var ticket := w.tickets[key];
      var _ :- CancelGate(v, ticket, w.slot);
      if ticket.sharesBurned < minSharesOut then Err(SlippageExceeded)
      else
        var supply :- MintShares(w.supply, ticket.sharesBurned);
        var requested :- CheckedU64(v.requestedWithdrawalShares - ticket.sharesBurned);
        Ok(w.(vault := v.(requestedWithdrawalShares := requested),
              supply := supply,
              tickets := w.tickets - {key}))
  }

  /** The settlement loader: every supplied ticket exists, holds shares, and is listed once. */
  function LoadTickets(tickets: map<TicketKey, Ticket>, keys: seq<TicketKey>): (r: Result<seq<Ticket>>)
    ensures r.Ok? ==> |r.value| == |keys|
  {
    if keys == [] then Ok([])
    else
      var loaded :- LoadTickets(tickets, keys[..|keys| - 1]);
      var key := keys[|keys| - 1];
      if key !in tickets || tickets[key].sharesBurned == 0 || key in keys[..|keys| - 1] then
        Err(InvalidWithdrawalTicketAccount)
      else
        Ok(loaded + [tickets[key]])
  }

  datatype Struck = Struck(vault: VaultState, ticket: Ticket)

  predicate StrikeEligible(v: VaultState, ticket: Ticket) {
    ticket.requestEpoch + WITHDRAWAL_STRIKE_DELAY_EPOCHS <= v.reportEpoch
  }

  function StrikeTicket(v: VaultState, supply: U64, ticket: Ticket, now: I64): (r: Result<Struck>)
    ensures r.Ok? ==> r.value.vault.baseDecimals == v.baseDecimals
  {
    var earliestEpoch :- CheckedU64(ticket.requestEpoch + WITHDRAWAL_STRIKE_DELAY_EPOCHS);
    if v.reportEpoch < earliestEpoch || ticket.requestEpoch > v.reportEpoch then
      Err(InvalidWithdrawalTicketAccount)
    else
      var economic :- v.EconomicShareSupply(supply);
      var effective :- v.EffectiveTotalAssets(now);
      var assetsOwed :- AssetsForShares(ticket.sharesBurned, effective, economic, v.baseDecimals);
      var requested :- CheckedU64(v.requestedWithdrawalShares - ticket.sharesBurned);
      var debited := v.(requestedWithdrawalShares := requested).DebitAssetsAtEffective(assetsOwed, now).value;
      var pending :- CheckedU64(debited.pendingWithdrawalAssets + assetsOwed);
      Ok(Struck(debited.(pendingWithdrawalAssets := pending), ticket.(assetsOwed := assetsOwed)))
  }

  datatype Batch = Batch(vault: VaultState, tickets: seq<Ticket>, settled: U64)

  /** The settlement loop over the first tickets of a batch: strike what is unstruck, add up. */
  function StrikeAll(v: VaultState, supply: U64, tickets: seq<Ticket>, now: I64): (r: Result<Batch>)
    ensures r.Ok? ==> |r.value.tickets| == |tickets| && r.value.vault.baseDecimals == v.baseDecimals
  {
    if tickets == [] then Ok(Batch(v, [], 0))
    else
      var done :- StrikeAll(v, supply, tickets[..|tickets| - 1], now);
      StrikeNext(done, supply, tickets[|tickets| - 1], now)
  }

  function StrikeNext(done: Batch, supply: U64, ticket: Ticket, now: I64): (r: Result<Batch>)
    ensures r.Ok? ==> |r.value.tickets| == |done.tickets| + 1 && r.value.vault.baseDecimals == done.vault.baseDecimals
  {
    var struck :- if ticket.assetsOwed == 0 then StrikeTicket(done.vault, supply, ticket, now)
                  else Ok(Struck(done.vault, ticket));
    var settled :- CheckedU64(done.settled + struck.ticket.assetsOwed);
    Ok(Batch(struck.vault, done.tickets + [struck.ticket], settled))
  }

  /** The payout transfers, one per ticket; custody that runs dry fails the instruction. */
  function PayAll(custody: U64, tickets: seq<Ticket>): Result<U64> {
    if tickets == [] then Ok(custody)
    else
      var left :- PayAll(custody, tickets[..|tickets| - 1]);
      var owed := tickets[|tickets| - 1].assetsOwed;
      if owed <= left then Ok(left - owed) else Err(TokenProgramFailure)
  }

  function ApplySettle(w: Ledger, keys: seq<TicketKey>, custody: U64): Result<Ledger> {
    var v := w.vault;
    var _ :- v.ValidateState();
    if keys == [] then Err(NotEnoughAccountKeys)
    else
      var loaded :- LoadTickets(w.tickets, keys);
      var batch :- StrikeAll(v, w.supply, loaded, w.now);
      if batch.settled > batch.vault.pendingWithdrawalAssets then Err(InvalidVaultState)
      else
        var _ :- PayAll(custody, batch.tickets);
        var pending := batch.vault.pendingWithdrawalAssets - batch.settled;
        var settledVault := batch.vault.(pendingWithdrawalAssets := pending);
        var _ :- settledVault.ValidateState();
        Ok(w.(vault := settledVault,
              tickets := w.tickets - (set k | k in keys),
              outflow := w.outflow + batch.settled))
  }

  function RedeemEntitlement(w: Ledger, shares: U64, unwind: Unwind): (r: Result<U64>)
    ensures r.Ok? ==>
              w.vault.EffectiveTotalAssets(w.now).Ok? && r.value <= w.vault.EffectiveTotalAssets(w.now).value
  {
    if unwind.ownerBalance < shares then Err(InsufficientShares)
    else
      var economic :- w.vault.EconomicShareSupply(w.supply);
      var effective :- w.vault.EffectiveTotalAssets(w.now);
      var maxAssetsOwed :- AssetsForRedeem(shares, effective, economic, w.vault.baseDecimals);
      if unwind.withdrawalAmount > maxAssetsOwed then Err(WithdrawalExceedsEntitlement) else Ok(maxAssetsOwed)
  }

  function ApplyAtomicRedeem(w: Ledger, shares: U64, unwind: Unwind): Result<Ledger> {
    var v := w.vault;
    var _ :- v.ValidateState();
    if v.withdrawalsPaused then Err(VaultPaused)
    else if shares == 0 then Err(ZeroOutput)
    else
      var _ :- v.VerifyReportFresh(w.now);
      var maxAssetsOwed :- RedeemEntitlement(w, shares, unwind);
      if unwind.received > maxAssetsOwed then Err(WithdrawalExceedsEntitlement)
      else
        var payout := unwind.received - BpsCeil(unwind.received, v.controls.atomicRedeemFeeBps).value;
        if payout < unwind.minOutput then Err(SlippageExceeded)
        else
          var supply :- BurnShares(w.supply, shares);
          var debited := v.DebitAssetsAtEffective(payout, w.now).value;
          assert debited.ValidateState().Ok?;
          Ok(w.(vault := debited, supply := supply, outflow := w.outflow + payout))
  }

  function VerifyRecovery(v: VaultState, economic: U64): Result<Unit> {
    if !v.depositsPaused then Err(DepositsMustBePaused)
    else if economic == 0 then Err(InvalidVaultState)
    else
      var price :- SharePriceFromAssets(v.totalAssets, economic);
      Need(price == 0, InvalidVaultState)
  }

  /** Gross NAV: idle base read from the custodies plus the reported external value. */
  function GrossNav(report: NavReport): Result<U64> {
    var idle :- CheckedU64(if report.sharedCustody then report.depositIdle
                           else report.depositIdle + report.withdrawIdle);
    CheckedU64(idle + report.externalValue)
  }

  function FeeBase(v: VaultState, gross: U64): Result<U64> {
    if gross < v.feesPayable + v.pendingWithdrawalAssets then Err(InvalidVaultState)
    else Ok(gross - v.feesPayable - v.pendingWithdrawalAssets)
  }

  function ApplyReport(w: Ledger, report: NavReport): Result<Ledger> {
    var v := w.vault;
    var _ :- v.ValidateState();
    var _ :- v.VerifyReportInterval(w.now);
    var economic :- v.EconomicShareSupply(w.supply);
    var _ :- if report.recovery then VerifyRecovery(v, economic) else Ok(Unit);
    if report.emptyHash then Err(InvalidVaultState)
    else
      var gross :- GrossNav(report);
      var feeBase :- FeeBase(v, gross);
      var split :- PerformanceFeeForNav(feeBase, economic, v.highWatermark, v.performanceFeeBps);
      var _ :- if report.recovery then Ok(Unit) else v.VerifyNavGainBound(split.net, economic);
      var reportEpoch :- CheckedU64(v.reportEpoch + 1);
      var accrued := v.(feesPayable := v.feesPayable + split.fee, highWatermark := split.highWatermark,
                        reportEpoch := reportEpoch);
      var recognised :- accrued.ApplyReportedNav(split.net, w.now);
      var reported := recognised.(lastUpdateTs := w.now);
      assert reported.ValidateState().Ok?;
      Ok(w.(vault := reported))
  }

  function ApplyCollectFees(w: Ledger, amount: U64, custody: U64): Result<Ledger> {
    if amount == 0 then Err(ZeroOutput)
    else
      var v := w.vault;
      var _ :- v.ValidateState();
      if amount > v.feesPayable then Err(InvalidVaultState)
      else if amount > custody then Err(TokenProgramFailure)
      else Ok(w.(vault := v.(feesPayable := v.feesPayable - amount)))
  }

  function ApplyWriteDownFees(w: Ledger, amount: U64): Result<Ledger> {
    if amount == 0 then Err(InvalidWriteDownAmount)
    else
      var v := w.vault;
      var _ :- v.ValidateState();
      if amount > v.feesPayable then Err(InvalidWriteDownAmount)
      else Ok(w.(vault := v.(feesPayable := v.feesPayable - amount)))
  }

  function ApplyConfigure(w: Ledger, settings: Settings): Result<Ledger> {
    var _ :- w.vault.ValidateState();
    var v := w.vault.(depositCap := settings.depositCap,
                      controls := settings.controls,
                      performanceFeeBps := settings.performanceFeeBps,
                      depositsPaused := settings.depositsPaused,
                      withdrawalsPaused := settings.withdrawalsPaused);
    var _ :- v.ValidateState();
    Ok(w.(vault := v))
  }

  /** A holder burns circulating shares directly through the token program: the share mint has no
      freeze authority, and every instruction reads its supply live. */
  function ApplyHolderBurn(w: Ledger, shares: U64): Result<Ledger> {
    var supply :- BurnShares(w.supply, shares);
    Ok(w.(supply := supply))
  }

  /** Time passes between transactions; the clock and the slot never run backwards. */
  function ApplyAdvance(w: Ledger, seconds: nat, slots: nat): Result<Ledger> {
    var now :- CheckedI64(w.now + seconds);
    var slot :- CheckedU64(w.slot + slots);
    Ok(w.(now := now, slot := slot))
  }

  function Apply(w: Ledger, step: Step): Result<Ledger> {
    match step
    case Deposit(baseAtoms, minSharesOut, admitted) => ApplyDeposit(w, baseAtoms, minSharesOut, admitted)
    case Redeem(key, shares) => ApplyRedeem(w, key, shares)
    case Cancel(key, minSharesOut) => ApplyCancel(w, key, minSharesOut)
    case Settle(keys, custody) => ApplySettle(w, keys, custody)
    case AtomicRedeem(shares, unwind) => ApplyAtomicRedeem(w, shares, unwind)
    case Report(report) => ApplyReport(w, report)
    case CollectFees(amount, custody) => ApplyCollectFees(w, amount, custody)
    case WriteDownFees(amount) => ApplyWriteDownFees(w, amount)
    case Configure(settings) => ApplyConfigure(w, settings)
    case HolderBurn(shares) => ApplyHolderBurn(w, shares)
    case Advance(seconds, slots) => ApplyAdvance(w, seconds, slots)
  }

  /** A run of accepted steps. Rejected instructions roll back, so they are simply absent. */
  function Run(w: Ledger, steps: seq<Step>): Result<Ledger> {
    if steps == [] then Ok(w)
    else
      var mid :- Run(w, steps[..|steps| - 1]);
      Apply(mid, steps[|steps| - 1])
  }

  /** A vault as initialised: no assets, no shares, no reports, settings as validated. */
  ghost predicate Genesis(w: Ledger) {
    && w.vault.totalAssets == w.vault.pendingWithdrawalAssets == w.vault.feesPayable == 0
    && w.vault.highWatermark == w.vault.reportEpoch == w.vault.requestedWithdrawalShares == 0
    && w.vault.lastUpdateTs == w.vault.lockedProfit == 0
    && w.vault.profitUnlockStartTs == w.vault.profitUnlockEndTs == 0
    && w.vault.ValidateState().Ok?
    && w.supply == 0 && w.tickets == map[] && 0 <= w.now
    && w.inflow == 0 && w.outflow == 0
  }

  /** A vault just initialised under the given controls, at slot and clock zero. */
  ghost function Initialised(baseDecimals: U8, controls: Controls): (w: Ledger)
    requires baseDecimals <= SHARE_DECIMALS
    requires controls.atomicRedeemFeeBps <= BPS_DENOMINATOR && controls.maxSwapSlippageBps <= BPS_DENOMINATOR
    ensures Genesis(w)
  {
    Ledger(VaultState(0, 0, 0, 0, 0, 0, 0, 0, 0, 0, 0, controls, 0, baseDecimals, false, false), 0, map[], 0, 0, 0, 0)
  }

  lemma RunExtends(w: Ledger, steps: seq<Step>, step: Step)
    ensures Run(w, steps + [step])
            == match Run(w, steps)
               case Ok(mid) => Apply(mid, step)
               case Err(e) => Err(e)
  {
    assert (steps + [step])[..|steps|] == steps;
  }
}

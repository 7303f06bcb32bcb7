/** The instruction handlers in the program's own imperative form, each proved to commit exactly
    the step of the machine it implements, or to leave every account as it was. */
module Handlers {
  import opened Outcome
  import opened Pricing
  import opened Fees
  import opened Vaults
  import opened Machine

  /** A handler's return value and the accounts it leaves behind are those of `expected`. */
  ghost predicate Commits(before: Ledger, after: Ledger, r: Result<Unit>, expected: Result<Ledger>) {
    match expected
    case Ok(w) => r == Ok(Unit) && after == w
    case Err(e) => r == Err(e) && after == before
  }

  /** `strike_ticket`: price an eligible ticket, and move its shares and its assets out of the
      vault being settled. */
  method Strike(vault: Vault, activeShareSupply: U64, ticket: Ticket, now: I64) returns (r: Result<Ticket>)
    modifies vault
    ensures match StrikeTicket(old(vault.State()), activeShareSupply, ticket, now)
            case Ok(s) => r == Ok(s.ticket) && vault.State() == s.vault
            case Err(e) => r == Err(e)
  {
    hide AssetsForShares, VaultState.EffectiveTotalAssets, VaultState.DebitAssetsAtEffective, TenTo;
    ghost var start := vault.State();
    var earliestEpoch :- CheckedU64(ticket.requestEpoch + WITHDRAWAL_STRIKE_DELAY_EPOCHS);
    if vault.reportEpoch < earliestEpoch || ticket.requestEpoch > vault.reportEpoch {
      return Err(InvalidWithdrawalTicketAccount);
    }
    var economic :- vault.State().EconomicShareSupply(activeShareSupply);
    var effective :- vault.State().EffectiveTotalAssets(now);
    var assetsOwed :- AssetsForShares(ticket.sharesBurned, effective, economic, vault.State().baseDecimals);
    vault.requestedWithdrawalShares :- CheckedU64(vault.requestedWithdrawalShares - ticket.sharesBurned);
    EntitledDebit(start, vault.requestedWithdrawalShares, assetsOwed, now);
    assert vault.State() == start.(requestedWithdrawalShares := vault.requestedWithdrawalShares);
    var debited := vault.DebitAssetsAtEffective(assetsOwed, now);
    assert debited.Ok?;
    vault.pendingWithdrawalAssets :- CheckedU64(vault.pendingWithdrawalAssets + assetsOwed);
    return Ok(ticket.(assetsOwed := assetsOwed));
  }

  /** Once a prefix of the batch fails to strike, the batch fails the same way. */
  lemma {:induction false} StrikeErrPersists(v: VaultState, supply: U64, tickets: seq<Ticket>, now: I64, n: nat)
    requires n <= |tickets| && StrikeAll(v, supply, tickets[..n], now).Err?
    ensures StrikeAll(v, supply, tickets, now) == Err(StrikeAll(v, supply, tickets[..n], now).error)
  {
    hide StrikeTicket;
    if n == |tickets| {
      assert tickets[..n] == tickets;
    } else {
      var front := tickets[..|tickets| - 1];
      assert front[..n] == tickets[..n];
      StrikeErrPersists(v, supply, front, now, n);
    }
  }

  lemma StrikePrefix(v: VaultState, supply: U64, tickets: seq<Ticket>, now: I64, n: nat)
    requires n <= |tickets|
    ensures StrikeAll(v, supply, tickets[..n], now)
            == if n == 0 then Ok(Batch(v, [], 0))
               else match StrikeAll(v, supply, tickets[..n - 1], now)
                    case Ok(done) => StrikeNext(done, supply, tickets[n - 1], now)
                    case Err(e) => Err(e)
  {
    hide StrikeTicket;
    if n > 0 {
      assert tickets[..n][..n - 1] == tickets[..n - 1];
    }
  }

  lemma {:induction false} LoadErrPersists(tickets: map<TicketKey, Ticket>, keys: seq<TicketKey>, n: nat)
    requires n <= |keys| && LoadTickets(tickets, keys[..n]).Err?
    ensures LoadTickets(tickets, keys) == Err(LoadTickets(tickets, keys[..n]).error)
  {
    if n == |keys| {
      assert keys[..n] == keys;
    } else {
      var front := keys[..|keys| - 1];
      assert front[..n] == keys[..n];
      LoadErrPersists(tickets, front, n);
    }
  }

  lemma {:induction false} PayErrPersists(custody: U64, tickets: seq<Ticket>, n: nat)
    requires n <= |tickets| && PayAll(custody, tickets[..n]).Err?
    ensures PayAll(custody, tickets) == Err(PayAll(custody, tickets[..n]).error)
  {
    if n == |tickets| {
      assert tickets[..n] == tickets;
    } else {
      var front := tickets[..|tickets| - 1];
      assert front[..n] == tickets[..n];
      PayErrPersists(custody, front, n);
    }
  }

  /** The ticket-list loading loop: reads the accounts in order and rejects a ticket that is
      missing, empty, or already in the list. */
  method LoadSettlements(tickets: map<TicketKey, Ticket>, keys: seq<TicketKey>) returns (r: Result<seq<Ticket>>)
    ensures r == LoadTickets(tickets, keys)
  {
    var loaded: seq<Ticket> := [];
    var i := 0;
    while i < |keys|
      invariant 0 <= i <= |keys|
      invariant LoadTickets(tickets, keys[..i]) == Ok(loaded)
    {
      assert keys[..i + 1][..i] == keys[..i];
      if keys[i] !in tickets || tickets[keys[i]].sharesBurned == 0 || keys[i] in keys[..i] {
        LoadErrPersists(tickets, keys, i + 1);
        return Err(InvalidWithdrawalTicketAccount);
      }
      loaded := loaded + [tickets[keys[i]]];
      i := i + 1;
    }
    assert keys[..i] == keys;
    return Ok(loaded);
  }

  /** The settlement loop: strike each unstruck ticket of the batch in place and add up what the
      batch is owed. */
  method StrikeBatch(vault: Vault, supply: U64, loaded: seq<Ticket>, now: I64)
    returns (r: Result<U64>, tickets: seq<Ticket>)
    modifies vault
    ensures match StrikeAll(old(vault.State()), supply, loaded, now)
            case Ok(b) => r == Ok(b.settled) && tickets == b.tickets && vault.State() == b.vault
            case Err(e) => r == Err(e)
  {
    hide StrikeTicket, StrikeAll;
    ghost var start := vault.State();
    tickets := loaded;
    var settled: U64 := 0;
    var i := 0;
    StrikePrefix(start, supply, loaded, now, 0);
    while i < |tickets|
      invariant 0 <= i <= |tickets| == |loaded|
      invariant tickets[i..] == loaded[i..]
      invariant StrikeAll(start, supply, loaded[..i], now) == Ok(Batch(vault.State(), tickets[..i], settled))
    {
      ghost var done := Batch(vault.State(), tickets[..i], settled);
      StrikePrefix(start, supply, loaded, now, i + 1);
      assert tickets[i] == tickets[i..][0] == loaded[i];
      if tickets[i].assetsOwed == 0 {
        var struck := Strike(vault, supply, tickets[i], now);
        if struck.Err? {
          StrikeErrPersists(start, supply, loaded, now, i + 1);
          return Err(struck.error), tickets;
        }
        tickets := tickets[i := struck.value];
      }
      var total := CheckedU64(settled + tickets[i].assetsOwed);
      if total.Err? {
        StrikeErrPersists(start, supply, loaded, now, i + 1);
        return Err(total.error), tickets;
      }
      settled := total.value;
      i := i + 1;
      assert tickets[..i] == done.tickets + [tickets[i - 1]];
    }
    assert loaded[..i] == loaded && tickets[..i] == tickets;
    return Ok(settled), tickets;
  }

  /** The payout loop: one signed transfer out of custody per ticket. */
  method PayBatch(custody: U64, tickets: seq<Ticket>) returns (r: Result<U64>)
    ensures r == PayAll(custody, tickets)
  {
    var left := custody;
    var i := 0;
    while i < |tickets|
      invariant 0 <= i <= |tickets|
      invariant PayAll(custody, tickets[..i]) == Ok(left)
    {
      assert tickets[..i + 1][..i] == tickets[..i];
      if tickets[i].assetsOwed > left {
        PayErrPersists(custody, tickets, i + 1);
        return Err(TokenProgramFailure);
      }
      left := left - tickets[i].assetsOwed;
      i := i + 1;
    }
    assert tickets[..i] == tickets;
    return Ok(left);
  }

  /** The accounts the handlers read and write. A handler works on a vault deserialised from its
      account and stores it back last, so a failing one has changed nothing. */
  class Program {
    var account: VaultState
    var supply: U64
    var tickets: map<TicketKey, Ticket>
    var now: I64
    var slot: U64
    var inflow: nat
    var outflow: nat

    function Books(): Ledger
      reads this
    {
      Ledger(account, supply, tickets, now, slot, inflow, outflow)
    }

    constructor (books: Ledger)
      ensures Books() == books
    {
      account, supply, tickets := books.vault, books.supply, books.tickets;
      now, slot, inflow, outflow := books.now, books.slot, books.inflow, books.outflow;
    }

    /** The runtime's rollback of a failed transaction. */
    method Restore(books: Ledger)
      modifies this
      ensures Books() == books
    {
      account, supply, tickets := books.vault, books.supply, books.tickets;
      now, slot, inflow, outflow := books.now, books.slot, books.inflow, books.outflow;
    }

    method LoadVault() returns (r: Result<Vault>)
      ensures r.Ok? <==> account.ValidateState().Ok?
      ensures r.Ok? ==> fresh(r.value) && r.value.State() == account
      ensures r.Err? ==> r.error == account.ValidateState().error
    {
      var _ :- account.ValidateState();
      var vault := new Vault(account);
      return Ok(vault);
    }

    method Deposit(baseAtoms: U64, minSharesOut: U64, admitted: bool) returns (r: Result<Unit>)
      modifies this
      ensures Commits(old(Books()), Books(), r, ApplyDeposit(old(Books()), baseAtoms, minSharesOut, admitted))
    {
      var vault :- LoadVault();
      if vault.State().depositsPaused {
        return Err(VaultPaused);
      }
      if !admitted {
        return Err(InvalidAccessProof);
      }
      var totalAssetsAfterDeposit :- vault.State().TotalAssetsAfterDeposit(baseAtoms);
      var economic :- vault.State().EconomicShareSupply(supply);
      var effective :- vault.State().EffectiveTotalAssets(now);
      if economic != 0 {
        var price :- SharePriceFromAssets(effective, economic);
        if price == 0 {
          return Err(ZeroSharePrice);
        }
      }
      var shares :- SharesForDeposit(baseAtoms, effective, economic, vault.State().baseDecimals);
      if shares < minSharesOut {
        return Err(SlippageExceeded);
      }
      var minted :- MintShares(supply, shares);
      inflow := inflow + baseAtoms;
      supply := minted;
      vault.totalAssets := totalAssetsAfterDeposit;
      account := vault.State();
      return Ok(Unit);
    }

    method Redeem(key: TicketKey, shares: U64) returns (r: Result<Unit>)
      modifies this
      ensures Commits(old(Books()), Books(), r, ApplyRedeem(old(Books()), key, shares))
    {
      if key in tickets {
        return Err(AccountAlreadyInitialized);
      }
      var vault :- LoadVault();
      if vault.State().withdrawalsPaused {
        return Err(VaultPaused);
      }
      if shares == 0 {
        return Err(ZeroOutput);
      }
      if shares > supply {
        return Err(InvalidVaultState);
      }
      var economic :- vault.State().EconomicShareSupply(supply);
      var effective :- vault.State().EffectiveTotalAssets(now);
      var _ :- AssetsForRedeem(shares, effective, economic, vault.State().baseDecimals);
      vault.requestedWithdrawalShares := vault.requestedWithdrawalShares + shares;
      supply := supply - shares;
      tickets := tickets[key := Ticket(shares, 0, vault.reportEpoch, slot)];
      account := vault.State();
      return Ok(Unit);
    }

    method CancelRedeem(key: TicketKey, minSharesOut: U64) returns (r: Result<Unit>)
      modifies this
      ensures Commits(old(Books()), Books(), r, ApplyCancel(old(Books()), key, minSharesOut))
    {
      var vault :- LoadVault();
      if key !in tickets {
        return Err(InvalidWithdrawalTicketAccount);
      }
      var ticket := tickets[key];
      if ticket.assetsOwed != 0 {
        return Err(InvalidWithdrawalTicketAccount);
      }
      var earliestStrikeEpoch :- CheckedU64(ticket.requestEpoch + WITHDRAWAL_STRIKE_DELAY_EPOCHS);
      var cancelSlot :- CheckedU64(ticket.requestSlot + REDEEM_CANCEL_DELAY_SLOTS);
      var strikeEligible := vault.reportEpoch >= earliestStrikeEpoch;
      var grace := vault.State().controls.cancelGraceSlots;
      var graceElapsed := false;
      if grace > 0 {
        var graceSlot :- CheckedU64(ticket.requestSlot + grace);
        graceElapsed := slot >= graceSlot;
      }
      if (strikeEligible && !graceElapsed) || slot < cancelSlot {
        return Err(InvalidWithdrawalTicketAccount);
      }
      if ticket.sharesBurned < minSharesOut {
        return Err(SlippageExceeded);
      }
      var minted :- MintShares(supply, ticket.sharesBurned);
      vault.requestedWithdrawalShares :- CheckedU64(vault.requestedWithdrawalShares - ticket.sharesBurned);
      supply := minted;
      tickets := tickets - {key};
      account := vault.State();
      return Ok(Unit);
    }

    method ProcessWithdrawals(keys: seq<TicketKey>, custody: U64) returns (r: Result<Unit>)
      modifies this
      ensures Commits(old(Books()), Books(), r, ApplySettle(old(Books()), keys, custody))
    {
      hide StrikeTicket, StrikeAll, LoadTickets, PayAll;
      var vault :- LoadVault();
      if keys == [] {
        return Err(NotEnoughAccountKeys);
      }
      var loaded :- LoadSettlements(tickets, keys);
      var total, settlements := StrikeBatch(vault, supply, loaded, now);
      var settled :- total;
      if settled > vault.pendingWithdrawalAssets {
        return Err(InvalidVaultState);
      }
      var _ :- PayBatch(custody, settlements);
      vault.pendingWithdrawalAssets := vault.pendingWithdrawalAssets - settled;
      var _ :- vault.State().ValidateState();
      outflow := outflow + settled;
      tickets := tickets - set k | k in keys;
      account := vault.State();
      return Ok(Unit);
    }

    method AtomicRedeem(shares: U64, unwind: Unwind) returns (r: Result<Unit>)
      modifies this
      ensures Commits(old(Books()), Books(), r, ApplyAtomicRedeem(old(Books()), shares, unwind))
    {
      var vault :- LoadVault();
      if vault.State().withdrawalsPaused {
        return Err(VaultPaused);
      }
      if shares == 0 {
        return Err(ZeroOutput);
      }
      var _ :- vault.State().VerifyReportFresh(now);
      var maxAssetsOwed :- RedeemEntitlement(Books(), shares, unwind);
      if unwind.received > maxAssetsOwed {
        return Err(WithdrawalExceedsEntitlement);
      }
      var fee := BpsCeil(unwind.received, vault.State().controls.atomicRedeemFeeBps).value;
      var payout := unwind.received - fee;
      if payout < unwind.minOutput {
        return Err(SlippageExceeded);
      }
      var burnt :- BurnShares(supply, shares);
      var debited := vault.DebitAssetsAtEffective(payout, now);
      assert debited.Ok? && vault.State().ValidateState().Ok?;
      outflow := outflow + payout;
      supply := burnt;
      account := vault.State();
      return Ok(Unit);
    }

    method ReportNav(report: NavReport) returns (r: Result<Unit>)
      modifies this
      ensures Commits(old(Books()), Books(), r, ApplyReport(old(Books()), report))
    {
      hide PerformanceFeeForNav, VerifyRecovery, VaultState.ValidateState, VaultState.VerifyReportInterval,
           VaultState.VerifyNavGainBound, VaultState.ApplyReportedNav;
      var vault :- LoadVault();
      var _ :- vault.State().VerifyReportInterval(now);
      var economic :- vault.State().EconomicShareSupply(supply);
      if report.recovery {
        var _ :- VerifyRecovery(vault.State(), economic);
      }
      if report.emptyHash {
        return Err(InvalidVaultState);
      }
      var idle := report.depositIdle;
      if !report.sharedCustody {
        idle :- CheckedU64(idle + report.withdrawIdle);
      }
      var gross :- CheckedU64(idle + report.externalValue);
      if gross < vault.feesPayable || gross - vault.feesPayable < vault.pendingWithdrawalAssets {
        return Err(InvalidVaultState);
      }
      var feeBase := gross - vault.feesPayable - vault.pendingWithdrawalAssets;
      var split :- PerformanceFeeForNav(feeBase, economic, vault.highWatermark, vault.State().performanceFeeBps);
      if !report.recovery {
        var _ :- vault.State().VerifyNavGainBound(split.net, economic);
      }
      vault.feesPayable := vault.feesPayable + split.fee;
      vault.highWatermark := split.highWatermark;
      vault.reportEpoch :- CheckedU64(vault.reportEpoch + 1);
      var _ :- vault.ApplyReportedNav(split.net, now);
      vault.lastUpdateTs := now;
      account := vault.State();
      return Ok(Unit);
    }

    method CollectFees(amount: U64, custody: U64) returns (r: Result<Unit>)
      modifies this
      ensures Commits(old(Books()), Books(), r, ApplyCollectFees(old(Books()), amount, custody))
    {
      if amount == 0 {
        return Err(ZeroOutput);
      }
      var vault :- LoadVault();
      if amount > vault.feesPayable {
        return Err(InvalidVaultState);
      }
      if amount > custody {
        return Err(TokenProgramFailure);
      }
      vault.feesPayable := vault.feesPayable - amount;
      account := vault.State();
      return Ok(Unit);
    }

    method WriteDownFees(amount: U64) returns (r: Result<Unit>)
      modifies this
      ensures Commits(old(Books()), Books(), r, ApplyWriteDownFees(old(Books()), amount))
    {
      if amount == 0 {
        return Err(InvalidWriteDownAmount);
      }
      var vault :- LoadVault();
      if amount > vault.feesPayable {
        return Err(InvalidWriteDownAmount);
      }
      vault.feesPayable := vault.feesPayable - amount;
      account := vault.State();
      return Ok(Unit);
    }
  }
}

/** What every reachable state of the machine satisfies: a consistent drip, a queue that accounts
    for every open ticket, and nothing left pending between instructions. */
module Invariant {
  import opened Outcome
  import opened Pricing
  import opened Fees
  import opened Vaults
  import opened Drip
  import opened Machine
  import opened Queue
  import opened Settlement

  /** An open ticket: unstruck, holding shares, requested in the past. */
  ghost predicate Open(w: Ledger, ticket: Ticket) {
    && ticket.assetsOwed == 0
    && ticket.sharesBurned != 0
    && ticket.requestEpoch <= w.vault.reportEpoch
    && ticket.requestSlot <= w.slot
  }

  ghost predicate AllOpen(w: Ledger) {
    forall key :: key in w.tickets ==> Open(w, w.tickets[key])
  }

  ghost predicate Inv(w: Ledger) {
    && Dripping(w.vault, w.now)
    && w.vault.ValidateState().Ok?
    && w.vault.pendingWithdrawalAssets == 0
    && w.vault.requestedWithdrawalShares == SharesQueued(w.tickets)
    && AllOpen(w)
  }

  /** Circulating plus queued shares. */
  ghost function Economic(w: Ledger): nat {
    w.supply + w.vault.requestedWithdrawalShares
  }

  /** They fit the u64 that every pricing instruction adds them in. */
  ghost predicate SupplyFits(w: Ledger) {
    Economic(w) <= U64_MAX
  }

  ghost predicate EligibleBatch(w: Ledger, keys: seq<TicketKey>) {
    && keys != []
    && Loadable(w.tickets, keys)
    && forall i :: 0 <= i < |keys| ==> StrikeEligible(w.vault, w.tickets[keys[i]])
  }

  lemma LoadedBatch(w: Ledger, keys: seq<TicketKey>)
    requires Inv(w) && LoadTickets(w.tickets, keys).Ok?
    ensures Unstruck(LoadTickets(w.tickets, keys).value)
    ensures SharesOf(LoadTickets(w.tickets, keys).value) <= w.vault.requestedWithdrawalShares
    ensures SharesQueued(w.tickets - (set k | k in keys))
            == w.vault.requestedWithdrawalShares - SharesOf(LoadTickets(w.tickets, keys).value)
    ensures Loadable(w.tickets, keys)
    ensures Strikeable(w.vault, LoadTickets(w.tickets, keys).value)
            <==> forall i :: 0 <= i < |keys| ==> StrikeEligible(w.vault, w.tickets[keys[i]])
  {
    hide LoadTickets, SharesOf, SharesQueued;
    LoadIsExact(w.tickets, keys);
    QueuedWithoutBatch(w.tickets, keys);
    var loaded := LoadTickets(w.tickets, keys).value;
    forall i | 0 <= i < |loaded|
      ensures loaded[i] == w.tickets[keys[i]] && loaded[i].assetsOwed == 0
    {
      assert Open(w, w.tickets[keys[i]]);
    }
    if Strikeable(w.vault, loaded) {
      forall i | 0 <= i < |keys| ensures StrikeEligible(w.vault, w.tickets[keys[i]]) {
        assert StrikeEligible(w.vault, loaded[i]);
      }
    }
  }

  lemma {:induction false} PayAllIsTheSum(v: VaultState, supply: U64, tickets: seq<Ticket>, now: I64, custody: U64)
    requires StrikeAll(v, supply, tickets, now).Ok?
    ensures var b := StrikeAll(v, supply, tickets, now).value;
            && (PayAll(custody, b.tickets).Ok? <==> b.settled <= custody)
            && (b.settled <= custody ==> PayAll(custody, b.tickets).value == custody - b.settled)
  {
    hide StrikeTicket;
    if tickets == [] {
    } else {
      PayAllIsTheSum(v, supply, tickets[..|tickets| - 1], now, custody);
      var b := StrikeAll(v, supply, tickets, now).value;
      assert b.tickets[..|b.tickets| - 1] == StrikeAll(v, supply, tickets[..|tickets| - 1], now).value.tickets;
    }
  }

  /** What a batch of loaded keys is owed in total. */
  ghost function BatchOwed(w: Ledger, keys: seq<TicketKey>): Result<U64> {
    var loaded :- LoadTickets(w.tickets, keys);
    var batch :- StrikeAll(w.vault, w.supply, loaded, w.now);
    Ok(batch.settled)
  }

  /** The queue never wedges: in every state that satisfies the invariant, a batch settles
      exactly when it is a nonempty list of distinct open tickets past their epoch delay, the
      economic supply fits u64, and custody holds what the batch is owed. No accounting check
      inside the settlement can fail, dust included. */
  lemma SettleSucceedsExactly(w: Ledger, keys: seq<TicketKey>, custody: U64)
    requires Inv(w)
    ensures ApplySettle(w, keys, custody).Ok?
            <==> EligibleBatch(w, keys) && SupplyFits(w)
                 && BatchOwed(w, keys).Ok? && BatchOwed(w, keys).value <= custody
    ensures EligibleBatch(w, keys) && SupplyFits(w) ==> BatchOwed(w, keys).Ok?
    ensures ApplySettle(w, keys, custody).Ok? ==> SettledAs(w, keys, ApplySettle(w, keys, custody).value)
  {
    hide StrikeTicket, StrikeAll, PayAll, LoadTickets, VaultState.UnlockLine, TenTo, SharesOf, SharesQueued;
    LoadIsExact(w.tickets, keys);
    if keys != [] && LoadTickets(w.tickets, keys).Ok? {
      LoadedBatch(w, keys);
      var loaded := LoadTickets(w.tickets, keys).value;
      if SupplyFits(w) {
        StrikeAllIsExact(w.vault, w.supply, loaded, w.now);
        if StrikeAll(w.vault, w.supply, loaded, w.now).Ok? {
          PayAllIsTheSum(w.vault, w.supply, loaded, w.now, custody);
        }
      } else {
        OversizedSupplyStrikesNothing(w.vault, w.supply, loaded, w.now);
      }
    }
  }

  lemma {:induction false} OversizedSupplyStrikesNothing(v: VaultState, supply: U64, tickets: seq<Ticket>, now: I64)
    requires supply + v.requestedWithdrawalShares > U64_MAX && tickets != [] && Unstruck(tickets)
    ensures StrikeAll(v, supply, tickets, now).Err?
    decreases |tickets|
  {
    hide AssetsForShares, VaultState.UnlockLine;
    if |tickets| == 1 {
      assert StrikeAll(v, supply, tickets[..0], now) == Ok(Batch(v, [], 0));
    } else {
      OversizedSupplyStrikesNothing(v, supply, tickets[..|tickets| - 1], now);
    }
  }

  /** The committed effect of a settlement. */
  ghost predicate SettledAs(w: Ledger, keys: seq<TicketKey>, w': Ledger) {
    && LoadTickets(w.tickets, keys).Ok?
    && var loaded := LoadTickets(w.tickets, keys).value;
    && StrikeAll(w.vault, w.supply, loaded, w.now).Ok?
    && var b := StrikeAll(w.vault, w.supply, loaded, w.now).value;
    && PaidOut(w.vault, b.vault, w.now, SharesOf(loaded), b.settled)
    && w' == w.(vault := b.vault.(pendingWithdrawalAssets := 0),
                tickets := w.tickets - (set k | k in keys),
                outflow := w.outflow + b.settled)
  }

  lemma DepositKeepsInvariant(w: Ledger, baseAtoms: U64, minSharesOut: U64, admitted: bool)
    requires Inv(w) && ApplyDeposit(w, baseAtoms, minSharesOut, admitted).Ok?
    ensures Inv(ApplyDeposit(w, baseAtoms, minSharesOut, admitted).value)
  {
    hide SharesForDeposit, SharePriceFromAssets, SharesQueued;
    var w' := ApplyDeposit(w, baseAtoms, minSharesOut, admitted).value;
    assert forall key :: key in w'.tickets ==> Open(w, w'.tickets[key]);
  }

  lemma RedeemKeepsInvariant(w: Ledger, key: TicketKey, shares: U64)
    requires Inv(w) && ApplyRedeem(w, key, shares).Ok?
    ensures Inv(ApplyRedeem(w, key, shares).value)
  {
    hide AssetsForRedeem, SharesQueued;
    var w' := ApplyRedeem(w, key, shares).value;
    QueuedWith(w.tickets, key, w'.tickets[key]);
    forall k | k in w'.tickets ensures Open(w', w'.tickets[k]) {
      if k != key {
        assert Open(w, w.tickets[k]);
      }
    }
  }

  lemma CancelKeepsInvariant(w: Ledger, key: TicketKey, minSharesOut: U64)
    requires Inv(w) && ApplyCancel(w, key, minSharesOut).Ok?
    ensures Inv(ApplyCancel(w, key, minSharesOut).value)
  {
    hide CancelGate, SharesQueued;
    var w' := ApplyCancel(w, key, minSharesOut).value;
    QueuedWithout(w.tickets, key);
    assert forall k :: k in w'.tickets ==> Open(w, w'.tickets[k]);
  }

  lemma SettleKeepsInvariant(w: Ledger, keys: seq<TicketKey>, custody: U64)
    requires Inv(w) && ApplySettle(w, keys, custody).Ok?
    ensures Inv(ApplySettle(w, keys, custody).value)
  {
    hide ApplySettle, StrikeAll, LoadTickets, VaultState.UnlockLine, SharesOf, SharesQueued;
    SettleSucceedsExactly(w, keys, custody);
    LoadedBatch(w, keys);
    var w' := ApplySettle(w, keys, custody).value;
    assert forall k :: k in w'.tickets ==> Open(w, w'.tickets[k]);
  }

  lemma AtomicRedeemKeepsInvariant(w: Ledger, shares: U64, unwind: Unwind)
    requires Inv(w) && ApplyAtomicRedeem(w, shares, unwind).Ok?
    ensures Inv(ApplyAtomicRedeem(w, shares, unwind).value)
  {
    hide RedeemEntitlement, BpsCeil, VaultState.UnlockLine, SharesQueued;
    var w' := ApplyAtomicRedeem(w, shares, unwind).value;
    DebitIsExact(w.vault, w'.outflow - w.outflow, w.now);
    assert forall k :: k in w'.tickets ==> Open(w, w'.tickets[k]);
  }

  lemma ReportKeepsInvariant(w: Ledger, report: NavReport)
    requires Inv(w) && ApplyReport(w, report).Ok?
    ensures Inv(ApplyReport(w, report).value)
  {
    hide PerformanceFeeForNav, VerifyRecovery, GrossNav, FeeBase, SharesQueued, VaultState.VerifyNavGainBound,
         VaultState.VerifyReportInterval, VaultState.UnlockLine;
    var v := w.vault;
    var w' := ApplyReport(w, report).value;
    var economic := v.EconomicShareSupply(w.supply).value;
    var split := PerformanceFeeForNav(FeeBase(v, GrossNav(report).value).value, economic,
                                      v.highWatermark, v.performanceFeeBps).value;
    var accrued := v.(feesPayable := w'.vault.feesPayable, highWatermark := split.highWatermark,
                      reportEpoch := w'.vault.reportEpoch);
    ReportSetsEffective(accrued, split.net, w.now);
    forall k | k in w'.tickets ensures Open(w', w'.tickets[k]) {
      assert Open(w, w.tickets[k]);
    }
  }

  lemma AdminKeepsInvariant(w: Ledger, step: Step)
    requires Inv(w) && Apply(w, step).Ok?
    requires step.CollectFees? || step.WriteDownFees? || step.Configure? || step.HolderBurn? || step.Advance?
    ensures Inv(Apply(w, step).value)
  {
    hide SharesQueued;
    var w' := Apply(w, step).value;
    forall k | k in w'.tickets ensures Open(w', w'.tickets[k]) {
      assert Open(w, w.tickets[k]);
    }
  }

  /** Every accepted instruction keeps the invariant. */
  lemma StepKeepsInvariant(w: Ledger, step: Step)
    requires Inv(w) && Apply(w, step).Ok?
    ensures Inv(Apply(w, step).value)
  {
    hide Inv, ApplyDeposit, ApplyRedeem, ApplyCancel, ApplySettle, ApplyAtomicRedeem, ApplyReport;
    match step
    case Deposit(baseAtoms, minSharesOut, admitted) => DepositKeepsInvariant(w, baseAtoms, minSharesOut, admitted);
    case Redeem(key, shares) => RedeemKeepsInvariant(w, key, shares);
    case Cancel(key, minSharesOut) => CancelKeepsInvariant(w, key, minSharesOut);
    case Settle(keys, custody) => SettleKeepsInvariant(w, keys, custody);
    case AtomicRedeem(shares, unwind) => AtomicRedeemKeepsInvariant(w, shares, unwind);
    case Report(report) => ReportKeepsInvariant(w, report);
    case CollectFees(_, _) => AdminKeepsInvariant(w, step);
    case WriteDownFees(_) => AdminKeepsInvariant(w, step);
    case Configure(_) => AdminKeepsInvariant(w, step);
    case HolderBurn(_) => AdminKeepsInvariant(w, step);
    case Advance(_, _) => AdminKeepsInvariant(w, step);
  }

  lemma {:induction false} RunKeepsInvariant(w: Ledger, steps: seq<Step>)
    requires Inv(w) && Run(w, steps).Ok?
    ensures Inv(Run(w, steps).value)
  {
    hide Inv, Apply;
    if steps == [] {
    } else {
      RunKeepsInvariant(w, steps[..|steps| - 1]);
      StepKeepsInvariant(Run(w, steps[..|steps| - 1]).value, steps[|steps| - 1]);
    }
  }

  lemma GenesisHolds(w: Ledger)
    requires Genesis(w)
    ensures Inv(w)
  {
  }

  /** A freshly initialised vault satisfies the invariant, so every reachable state does: its
      effective NAV never errors, its queue counter is the shares in its open tickets, every open
      ticket is unstruck, and nothing is pending. */
  lemma ReachableStates(w: Ledger, steps: seq<Step>)
    requires Genesis(w) && Run(w, steps).Ok?
    ensures var r := Run(w, steps).value;
            && Inv(r)
            && r.vault.EffectiveTotalAssets(r.now).Ok?
            && r.vault.requestedWithdrawalShares == SharesQueued(r.tickets)
            && r.vault.pendingWithdrawalAssets == 0
            && r.vault.performanceFeeBps <= 10_000 && r.vault.baseDecimals <= 9
            && r.vault.controls.atomicRedeemFeeBps <= 10_000 && r.vault.controls.maxSwapSlippageBps <= 10_000
            && r.vault.lockedProfit <= r.vault.totalAssets
            && forall key :: key in r.tickets ==> r.tickets[key].assetsOwed == 0
  {
    hide Apply;
    RunKeepsInvariant(w, steps);
    var r := Run(w, steps).value;
    EffectiveNeverErrs(r.vault, r.now, r.now);
    forall key | key in r.tickets ensures r.tickets[key].assetsOwed == 0 {
      assert Open(r, r.tickets[key]);
    }
  }
}

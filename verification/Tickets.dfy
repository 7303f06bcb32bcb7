/** Withdrawal tickets over their lifetime: no open ticket is stuck, and a redemption that is
    cancelled leaves no trace. */
module Tickets {
  import opened Outcome
  import opened Pricing
  import opened Fees
  import opened Vaults
  import opened Machine
  import opened Queue
  import opened Settlement
  import opened Invariant
  import opened SupplyLimit

  /** The counters a cancellation adds to stay inside u64: the strike epoch and, when the grace
      control is on, the grace slot. */
  predicate CountersFit(v: VaultState, ticket: Ticket) {
    && ticket.requestEpoch < U64_MAX
    && (v.controls.cancelGraceSlots > 0 ==> ticket.requestSlot + v.controls.cancelGraceSlots <= U64_MAX)
  }

  /** Once 150 slots have passed, an open ticket can be struck or cancelled, exactly if it is
      past its epoch delay or the counters a cancellation adds fit u64. With the grace control
      off it can be either struck or cancelled, never both. */
  lemma TicketProgress(w: Ledger, key: TicketKey)
    requires Inv(w) && key in w.tickets
    requires w.slot >= w.tickets[key].requestSlot + REDEEM_CANCEL_DELAY_SLOTS
    ensures var ticket := w.tickets[key];
            var strike, cancel := StrikeEligible(w.vault, ticket), CancelGate(w.vault, ticket, w.slot).Ok?;
            && (strike || cancel <==> strike || CountersFit(w.vault, ticket))
            && (CountersFit(w.vault, ticket) && w.vault.controls.cancelGraceSlots == 0 ==> (strike <==> !cancel))
            && (CountersFit(w.vault, ticket) ==>
                  (strike && cancel
                   <==> strike && 0 < w.vault.controls.cancelGraceSlots <= w.slot - ticket.requestSlot))
  {
    assert Open(w, w.tickets[key]);
  }

  /** A cancellation gate past the slot delay, in terms of what can be read off the accounts. */
  lemma GatePastDelay(w: Ledger, key: TicketKey)
    requires Inv(w) && key in w.tickets
    requires w.slot >= w.tickets[key].requestSlot + REDEEM_CANCEL_DELAY_SLOTS
    ensures var ticket, grace := w.tickets[key], w.vault.controls.cancelGraceSlots;
            CancelGate(w.vault, ticket, w.slot).Ok?
            <==> && CountersFit(w.vault, ticket)
                 && (StrikeEligible(w.vault, ticket) ==> 0 < grace <= w.slot - ticket.requestSlot)
  {
    assert Open(w, w.tickets[key]);
  }

  /** Progress of the instructions themselves, wherever the supply stands: past the slot delay a
      ticket can be settled on its own or cancelled exactly if it is past its epoch delay, the
      economic supply fits and custody holds what it is owed, or its cancellation gate is open
      and its shares fit back into circulation. While the economic supply fits and custody
      suffices, that is exactly if it is past its epoch delay or the counters fit. */
  lemma TicketIsNeverStuck(w: Ledger, key: TicketKey, custody: U64)
    requires Inv(w) && key in w.tickets
    requires w.slot >= w.tickets[key].requestSlot + REDEEM_CANCEL_DELAY_SLOTS
    ensures var ticket, grace := w.tickets[key], w.vault.controls.cancelGraceSlots;
            var strike, covered := StrikeEligible(w.vault, ticket), Covers(custody, BatchOwed(w, [key]));
            var out := ApplyCancel(w, key, ticket.sharesBurned).Ok? || ApplySettle(w, [key], custody).Ok?;
            && (out <==> || (strike && SupplyFits(w) && covered)
                         || (&& CountersFit(w.vault, ticket) && (strike ==> 0 < grace <= w.slot - ticket.requestSlot)
                             && w.supply + ticket.sharesBurned <= U64_MAX))
            && (SupplyFits(w) && covered ==> (out <==> strike || CountersFit(w.vault, ticket)))
            && (SupplyFits(w) && strike ==> BatchOwed(w, [key]).Ok?)
  {
    hide CancelGate, ApplyCancel, ApplySettle, BatchOwed, SharesQueued, VaultState.UnlockLine;
    GatePastDelay(w, key);
    CancelSucceedsExactly(w, key, w.tickets[key].sharesBurned);
    SettleSucceedsExactly(w, [key], custody);
    assert Open(w, w.tickets[key]);
    QueuedWithout(w.tickets, key);
    assert EligibleBatch(w, [key]) <==> StrikeEligible(w.vault, w.tickets[[key][0]]);
  }

  /** Custody holds what is owed, if it can be priced at all. */
  ghost predicate Covers(custody: U64, owed: Result<U64>) {
    owed.Ok? ==> owed.value <= custody
  }

  /** `u` is `w` with `shares` circulating shares burned into the ticket under `key`. */
  ghost predicate Shadows(w: Ledger, u: Ledger, key: TicketKey, ticket: Ticket) {
    && key !in w.tickets
    && ticket.sharesBurned <= w.supply
    && w.vault.requestedWithdrawalShares + ticket.sharesBurned <= U64_MAX
    && u == w.(supply := w.supply - ticket.sharesBurned,
               vault := Queued(w.vault, ticket.sharesBurned),
               tickets := w.tickets[key := ticket])
  }

  function Queued(v: VaultState, shares: U64): VaultState
    requires v.requestedWithdrawalShares + shares <= U64_MAX
  {
    v.(requestedWithdrawalShares := v.requestedWithdrawalShares + shares)
  }

  predicate Avoids(step: Step, key: TicketKey) {
    && (step.Redeem? || step.Cancel? ==> step.key != key)
    && (step.Settle? ==> key !in step.keys)
  }

  /** Queueing shares changes no price: the same shares are counted on the other side. */
  lemma QueuedPricesAlike(v: VaultState, n: U64, now: I64)
    requires v.requestedWithdrawalShares + n <= U64_MAX
    ensures Queued(v, n).RemainingLockedProfit(now) == v.RemainingLockedProfit(now)
    ensures Queued(v, n).EffectiveTotalAssets(now) == v.EffectiveTotalAssets(now)
  {
  }

  lemma QueuedSupplyAlike(v: VaultState, supply: U64, n: U64)
    requires n <= supply && v.requestedWithdrawalShares + n <= U64_MAX
    ensures Queued(v, n).EconomicShareSupply(supply - n) == v.EconomicShareSupply(supply)
  {
  }

  lemma QueuedDebitsAlike(v: VaultState, n: U64, amount: U64, now: I64)
    requires v.requestedWithdrawalShares + n <= U64_MAX && v.DebitAssetsAtEffective(amount, now).Ok?
    ensures v.DebitAssetsAtEffective(amount, now).value.requestedWithdrawalShares == v.requestedWithdrawalShares
    ensures Queued(v, n).DebitAssetsAtEffective(amount, now)
        == Ok(Queued(v.DebitAssetsAtEffective(amount, now).value, n))
  {
    hide VaultState.RemainingLockedProfit;
    QueuedPricesAlike(v, n, now);
  }

  lemma QueuedReportsAlike(v: VaultState, n: U64, net: U64, now: I64)
    requires v.requestedWithdrawalShares + n <= U64_MAX && Queued(v, n).ApplyReportedNav(net, now).Ok?
    ensures v.ApplyReportedNav(net, now).Ok?
    ensures v.ApplyReportedNav(net, now).value.requestedWithdrawalShares == v.requestedWithdrawalShares
    ensures Queued(v, n).ApplyReportedNav(net, now) == Ok(Queued(v.ApplyReportedNav(net, now).value, n))
  {
    hide VaultState.RemainingLockedProfit, VaultState.EffectiveTotalAssets;
    QueuedPricesAlike(v, n, now);
  }

  lemma ShadowStrike(v: VaultState, supply: U64, ticket: Ticket, now: I64, n: U64)
    requires n <= supply && v.requestedWithdrawalShares + n <= U64_MAX
    requires StrikeTicket(v, supply, ticket, now).Ok?
    ensures var s := StrikeTicket(v, supply, ticket, now).value;
            && s.vault.requestedWithdrawalShares <= v.requestedWithdrawalShares
            && StrikeTicket(Queued(v, n), supply - n, ticket, now) == Ok(Struck(Queued(s.vault, n), s.ticket))
  {
    hide AssetsForShares, VaultState.EffectiveTotalAssets, VaultState.DebitAssetsAtEffective,
         VaultState.EconomicShareSupply, TenTo;
    QueuedPricesAlike(v, n, now);
    QueuedSupplyAlike(v, supply, n);
    StrikeDebits(v, supply, ticket, now);
    var unqueued := v.(requestedWithdrawalShares := v.requestedWithdrawalShares - ticket.sharesBurned);
    var s := StrikeTicket(v, supply, ticket, now).value;
    QueuedDebitsAlike(unqueued, n, s.ticket.assetsOwed, now);
    var debited := unqueued.DebitAssetsAtEffective(s.ticket.assetsOwed, now).value;
    assert Queued(v, n).(requestedWithdrawalShares := v.requestedWithdrawalShares + n - ticket.sharesBurned)
        == Queued(unqueued, n);
    assert s.vault == debited.(pendingWithdrawalAssets := s.vault.pendingWithdrawalAssets);
  }

  lemma {:induction false} ShadowStrikeAll(v: VaultState, supply: U64, tickets: seq<Ticket>, now: I64, n: U64)
    requires n <= supply && v.requestedWithdrawalShares + n <= U64_MAX
    requires StrikeAll(v, supply, tickets, now).Ok?
    ensures var b := StrikeAll(v, supply, tickets, now).value;
            && b.vault.requestedWithdrawalShares <= v.requestedWithdrawalShares
            && StrikeAll(Queued(v, n), supply - n, tickets, now) == Ok(Batch(Queued(b.vault, n), b.tickets, b.settled))
  {
    hide StrikeTicket;
    if tickets == [] {
    } else {
      var front, last := tickets[..|tickets| - 1], tickets[|tickets| - 1];
      ShadowStrikeAll(v, supply, front, now, n);
      if last.assetsOwed == 0 {
        ShadowStrike(StrikeAll(v, supply, front, now).value.vault, supply, last, now, n);
      }
    }
  }

  lemma ShadowSettle(w: Ledger, u: Ledger, key: TicketKey, ticket: Ticket, keys: seq<TicketKey>, custody: U64)
    requires Inv(w) && Inv(u) && Shadows(w, u, key, ticket) && key !in keys
    requires ApplySettle(u, keys, custody).Ok?
    ensures ApplySettle(w, keys, custody).Ok?
    ensures Shadows(ApplySettle(w, keys, custody).value, ApplySettle(u, keys, custody).value, key, ticket)
  {
    hide StrikeAll, PayAll, LoadTickets, VaultState.UnlockLine, SharesOf, SharesQueued, ApplySettle;
    SettleSucceedsExactly(u, keys, custody);
    LoadIsExact(u.tickets, keys);
    forall i | 0 <= i < |keys| ensures keys[i] in w.tickets && w.tickets[keys[i]] == u.tickets[keys[i]] {
      assert keys[i] in keys && keys[i] in u.tickets;
    }
    assert Loadable(w.tickets, keys);
    LoadIsExact(w.tickets, keys);
    assert LoadTickets(w.tickets, keys).value == LoadTickets(u.tickets, keys).value;
    assert EligibleBatch(w, keys) && SupplyFits(w);
    SettleSucceedsExactly(w, keys, custody);
    ShadowStrikeAll(w.vault, w.supply, LoadTickets(w.tickets, keys).value, w.now, ticket.sharesBurned);
    assert u.tickets - (set k | k in keys) == (w.tickets - (set k | k in keys))[key := ticket];
  }

  lemma ShadowCancel(w: Ledger, u: Ledger, key: TicketKey, ticket: Ticket, other: TicketKey, minSharesOut: U64)
    requires Inv(w) && Shadows(w, u, key, ticket) && other != key
    requires ApplyCancel(u, other, minSharesOut).Ok?
    requires ApplyCancel(u, other, minSharesOut).value.supply + ticket.sharesBurned <= U64_MAX
    ensures ApplyCancel(w, other, minSharesOut).Ok?
    ensures Shadows(ApplyCancel(w, other, minSharesOut).value, ApplyCancel(u, other, minSharesOut).value, key, ticket)
  {
    hide SharesQueued;
    QueuedWithout(w.tickets, other);
    assert u.tickets - {other} == (w.tickets - {other})[key := ticket];
  }

  lemma ShadowRedeem(w: Ledger, u: Ledger, key: TicketKey, ticket: Ticket, other: TicketKey, shares: U64)
    requires Shadows(w, u, key, ticket) && other != key
    requires ApplyRedeem(u, other, shares).Ok?
    ensures ApplyRedeem(w, other, shares).Ok?
    ensures Shadows(ApplyRedeem(w, other, shares).value, ApplyRedeem(u, other, shares).value, key, ticket)
  {
    hide AssetsForRedeem, VaultState.RemainingLockedProfit;
    var added := Ticket(shares, 0, u.vault.reportEpoch, u.slot);
    assert u.tickets[other := added] == w.tickets[other := added][key := ticket];
  }

  lemma ShadowDeposit(w: Ledger, u: Ledger, key: TicketKey, ticket: Ticket, step: Step)
    requires Shadows(w, u, key, ticket) && step.Deposit?
    requires Apply(u, step).Ok? && Apply(u, step).value.supply + ticket.sharesBurned <= U64_MAX
    ensures Apply(w, step).Ok?
    ensures Shadows(Apply(w, step).value, Apply(u, step).value, key, ticket)
  {
    hide SharesForDeposit, SharePriceFromAssets, VaultState.RemainingLockedProfit, VaultState.EffectiveTotalAssets;
    QueuedPricesAlike(w.vault, ticket.sharesBurned, w.now);
  }

  lemma ShadowAtomicRedeem(w: Ledger, u: Ledger, key: TicketKey, ticket: Ticket, step: Step)
    requires Shadows(w, u, key, ticket) && step.AtomicRedeem?
    requires Apply(u, step).Ok?
    ensures Apply(w, step).Ok?
    ensures Shadows(Apply(w, step).value, Apply(u, step).value, key, ticket)
  {
    hide BpsCeil, AssetsForRedeem, VaultState.RemainingLockedProfit;
    QueuedPricesAlike(w.vault, ticket.sharesBurned, w.now);
  }

  lemma ShadowReport(w: Ledger, u: Ledger, key: TicketKey, ticket: Ticket, step: Step)
    requires Shadows(w, u, key, ticket) && step.Report?
    requires Apply(u, step).Ok?
    ensures Apply(w, step).Ok?
    ensures Shadows(Apply(w, step).value, Apply(u, step).value, key, ticket)
  {
    hide PerformanceFeeForNav, GrossNav, SharePriceFromAssets, VaultState.RemainingLockedProfit,
         VaultState.EffectiveTotalAssets, VaultState.ApplyReportedNav;
    var v := w.vault;
    var economic := v.EconomicShareSupply(w.supply).value;
    var split := PerformanceFeeForNav(FeeBase(v, GrossNav(step.report).value).value, economic,
                                      v.highWatermark, v.performanceFeeBps).value;
    var accrued := v.(feesPayable := v.feesPayable + split.fee, highWatermark := split.highWatermark,
                      reportEpoch := v.reportEpoch + 1);
    QueuedReportsAlike(accrued, ticket.sharesBurned, split.net, w.now);
  }

  /** An accepted step that does not touch the ticket is accepted just the same had the
      redemption never happened, and leaves the same difference behind. */
  lemma ShadowStep(w: Ledger, u: Ledger, key: TicketKey, ticket: Ticket, step: Step)
    requires Inv(w) && Inv(u) && Shadows(w, u, key, ticket) && Avoids(step, key)
    requires Apply(u, step).Ok? && Apply(u, step).value.supply + ticket.sharesBurned <= U64_MAX
    ensures Apply(w, step).Ok?
    ensures Shadows(Apply(w, step).value, Apply(u, step).value, key, ticket)
  {
    hide ApplyDeposit, ApplyRedeem, ApplyCancel, ApplySettle, ApplyAtomicRedeem, ApplyReport, SharesQueued;
    match step
    case Deposit(_, _, _) => ShadowDeposit(w, u, key, ticket, step);
    case Redeem(other, shares) => ShadowRedeem(w, u, key, ticket, other, shares);
    case Cancel(other, minSharesOut) => ShadowCancel(w, u, key, ticket, other, minSharesOut);
    case Settle(keys, custody) => ShadowSettle(w, u, key, ticket, keys, custody);
    case AtomicRedeem(_, _) => ShadowAtomicRedeem(w, u, key, ticket, step);
    case Report(_) => ShadowReport(w, u, key, ticket, step);
    case CollectFees(_, _) =>
    case WriteDownFees(_) =>
    case Configure(_) =>
    case HolderBurn(_) =>
    case Advance(_, _) =>
  }

  ghost predicate AllAvoid(steps: seq<Step>, key: TicketKey) {
    forall i :: 0 <= i < |steps| ==> Avoids(steps[i], key)
  }

  lemma StepKeepsTicket(u: Ledger, key: TicketKey, step: Step)
    requires Inv(u) && key in u.tickets && Avoids(step, key) && Apply(u, step).Ok?
    ensures key in Apply(u, step).value.tickets && Apply(u, step).value.tickets[key] == u.tickets[key]
  {
    hide VaultState.UnlockLine, SharesQueued, CancelGate, ApplySettle, PerformanceFeeForNav, GrossNav,
         RedeemEntitlement;
    if step.Settle? {
      SettleSucceedsExactly(u, step.keys, step.custody);
    }
  }

  /** A run that leaves a ticket alone leaves it as it is. */
  lemma {:induction false} RunKeepsTicket(u: Ledger, key: TicketKey, steps: seq<Step>)
    requires Inv(u) && key in u.tickets && AllAvoid(steps, key) && Run(u, steps).Ok?
    ensures key in Run(u, steps).value.tickets && Run(u, steps).value.tickets[key] == u.tickets[key]
  {
    hide Apply, Inv;
    if steps == [] {
    } else {
      var front, last := steps[..|steps| - 1], steps[|steps| - 1];
      RunKeepsTicket(u, key, front);
      RunKeepsInvariant(u, front);
      StepKeepsTicket(Run(u, front).value, key, last);
    }
  }

  /** The shares would fit beside the circulating supply after every step of a run. */
  ghost predicate RoomAlong(u: Ledger, shares: U64, steps: seq<Step>) {
    if steps == [] then u.supply + shares <= U64_MAX
    else
      && RoomAlong(u, shares, steps[..|steps| - 1])
      && (Run(u, steps).Ok? ==> Run(u, steps).value.supply + shares <= U64_MAX)
  }

  /** The room is needed: a step that is accepted with the shares in circulation leaves room for
      them where they are not. */
  lemma RoomIsNeeded(w: Ledger, u: Ledger, key: TicketKey, ticket: Ticket, step: Step)
    requires Inv(w) && Inv(u) && Shadows(w, u, key, ticket) && Avoids(step, key)
    requires Apply(u, step).Ok? && Apply(w, step).Ok?
    ensures Apply(u, step).value.supply + ticket.sharesBurned <= U64_MAX
  {
    hide ApplySettle, SharesQueued, CancelGate, SharesForDeposit, SharePriceFromAssets, AssetsForRedeem, BpsCeil,
         PerformanceFeeForNav, GrossNav, VaultState.RemainingLockedProfit, VaultState.EffectiveTotalAssets;
    QueuedPricesAlike(w.vault, ticket.sharesBurned, w.now);
    if step.Settle? {
      SettleSucceedsExactly(u, step.keys, step.custody);
    }
  }

  /** A run around an open ticket is accepted with its shares still in circulation exactly if they
      fit there all along, and then leaves the same difference behind. */
  lemma {:induction false} ShadowRun(w: Ledger, u: Ledger, key: TicketKey, ticket: Ticket, steps: seq<Step>)
    requires Inv(w) && Inv(u) && Shadows(w, u, key, ticket) && AllAvoid(steps, key) && Run(u, steps).Ok?
    ensures Run(w, steps).Ok? <==> RoomAlong(u, ticket.sharesBurned, steps)
    ensures Run(w, steps).Ok? ==> Shadows(Run(w, steps).value, Run(u, steps).value, key, ticket)
  {
    hide Apply, Inv, Avoids;
    if steps == [] {
    } else {
      var front, last := steps[..|steps| - 1], steps[|steps| - 1];
      ShadowRun(w, u, key, ticket, front);
      RunKeepsInvariant(u, front);
      if Run(w, front).Ok? {
        RunKeepsInvariant(w, front);
        var v, t := Run(w, front).value, Run(u, front).value;
        if RoomAlong(u, ticket.sharesBurned, steps) {
          ShadowStep(v, t, key, ticket, last);
        } else if Apply(v, last).Ok? {
          RoomIsNeeded(v, t, key, ticket, last);
        }
      }
    }
  }

  /** If a ticket's shares fit beside the circulating supply after a step that burns none, they did
      before: while the economic supply fits they are part of it, and past that only burns lower
      the supply. */
  lemma RoomCarriesBack(u: Ledger, key: TicketKey, step: Step)
    requires Inv(u) && key in u.tickets && Apply(u, step).Ok? && !step.HolderBurn?
    requires Apply(u, step).value.supply + u.tickets[key].sharesBurned <= U64_MAX
    ensures u.supply + u.tickets[key].sharesBurned <= U64_MAX
  {
    hide Apply, SharesQueued, VaultState.UnlockLine;
    QueuedWithout(u.tickets, key);
    if !SupplyFits(u) {
      if !Still(step) {
        WedgedRefuses(u, step);
      }
      StillStep(u, step);
    }
  }

  ghost predicate BurnFree(steps: seq<Step>) {
    forall i :: 0 <= i < |steps| ==> !steps[i].HolderBurn?
  }

  lemma {:induction false} RoomWithoutBurns(u: Ledger, key: TicketKey, steps: seq<Step>)
    requires Inv(u) && key in u.tickets && AllAvoid(steps, key) && BurnFree(steps) && Run(u, steps).Ok?
    requires Run(u, steps).value.supply + u.tickets[key].sharesBurned <= U64_MAX
    ensures RoomAlong(u, u.tickets[key].sharesBurned, steps)
  {
    hide Apply, Inv, Avoids;
    if steps == [] {
    } else {
      var front, last := steps[..|steps| - 1], steps[|steps| - 1];
      RunKeepsInvariant(u, front);
      RunKeepsTicket(u, key, front);
      RoomCarriesBack(Run(u, front).value, key, last);
      RoomWithoutBurns(u, key, front);
    }
  }

  /** Redeem, then anything at all by anyone that leaves the ticket alone, then cancel. The same
      steps are accepted without the pair exactly if its shares would have fitted in circulation
      all along, which they do whenever no holder burns; and then they end in exactly the same
      state. */
  lemma CancelledRedeemLeavesNoTrace(w: Ledger, key: TicketKey, shares: U64, steps: seq<Step>, minSharesOut: U64)
    requires Inv(w) && ApplyRedeem(w, key, shares).Ok?
    requires var u := ApplyRedeem(w, key, shares).value;
             && AllAvoid(steps, key) && Run(u, steps).Ok?
             && ApplyCancel(Run(u, steps).value, key, minSharesOut).Ok?
    ensures var u := ApplyRedeem(w, key, shares).value;
            && (Run(w, steps).Ok? <==> RoomAlong(u, shares, steps))
            && (BurnFree(steps) ==> Run(w, steps).Ok?)
            && (Run(w, steps).Ok? ==> Run(w, steps) == ApplyCancel(Run(u, steps).value, key, minSharesOut))
  {
    hide Run, RoomAlong, CancelGate, AssetsForRedeem, SharesQueued, VaultState.RemainingLockedProfit;
    var u := ApplyRedeem(w, key, shares).value;
    var ticket := u.tickets[key];
    RedeemKeepsInvariant(w, key, shares);
    RunKeepsTicket(u, key, steps);
    ShadowRun(w, u, key, ticket, steps);
    if BurnFree(steps) {
      RoomWithoutBurns(u, key, steps);
    }
    if Run(w, steps).Ok? {
      assert Run(u, steps).value.tickets - {key} == Run(w, steps).value.tickets;
    }
  }
}

/** How long a redemption waits: 150 slots for its cancellation, a report for its settlement. */
module Waiting {
  import opened Outcome
  import opened Vaults
  import opened Machine
  import opened Queue
  import opened Invariant
  import opened Acceptance
  import opened RateLimit
  import opened NavReports
  import opened Tickets

  lemma StepCountsReports(w: Ledger, step: Step)
    requires Inv(w) && Apply(w, step).Ok?
    ensures Apply(w, step).value.vault.reportEpoch == w.vault.reportEpoch + if step.Report? then 1 else 0
  {
    hide ApplyReport, ApplySettle, SharesQueued, RedeemEntitlement, CancelGate, VaultState.UnlockLine;
    if step.Report? {
      ReportBalancesTheBooks(w, step.report);
    } else if step.Settle? {
      SettleSucceedsExactly(w, step.keys, step.custody);
    }
  }

  /** The report epoch counts the accepted reports. */
  lemma {:induction false} EpochCountsReports(w: Ledger, steps: seq<Step>)
    requires Inv(w) && Run(w, steps).Ok?
    ensures Run(w, steps).value.vault.reportEpoch == w.vault.reportEpoch + Reports(steps)
  {
    hide Apply, Inv;
    if steps == [] {
    } else {
      var front, last := steps[..|steps| - 1], steps[|steps| - 1];
      EpochCountsReports(w, front);
      RunKeepsInvariant(w, front);
      StepCountsReports(Run(w, front).value, last);
    }
  }

  /** A redemption and its accepted cancellation are at least 150 slots apart, whatever runs in
      between. */
  lemma CancellationWaits150Slots(w: Ledger, key: TicketKey, shares: U64, steps: seq<Step>, minSharesOut: U64)
    requires Inv(w) && ApplyRedeem(w, key, shares).Ok?
    requires AllAvoid(steps, key) && Run(ApplyRedeem(w, key, shares).value, steps).Ok?
    requires ApplyCancel(Run(ApplyRedeem(w, key, shares).value, steps).value, key, minSharesOut).Ok?
    ensures w.slot + 150 <= Run(ApplyRedeem(w, key, shares).value, steps).value.slot
  {
    hide ApplyCancel, Run, Inv;
    var u := ApplyRedeem(w, key, shares).value;
    RedeemKeepsInvariant(w, key, shares);
    RunKeepsTicket(u, key, steps);
    RunKeepsInvariant(u, steps);
    CancelSucceedsExactlyWhen(Run(u, steps).value, key, minSharesOut);
  }

  /** A redemption is settled only after a report that came after it. */
  lemma SettlementWaitsForAReport(w: Ledger, key: TicketKey, shares: U64, steps: seq<Step>,
                                  keys: seq<TicketKey>, custody: U64)
    requires Inv(w) && ApplyRedeem(w, key, shares).Ok?
    requires AllAvoid(steps, key) && Run(ApplyRedeem(w, key, shares).value, steps).Ok?
    requires key in keys && ApplySettle(Run(ApplyRedeem(w, key, shares).value, steps).value, keys, custody).Ok?
    ensures 1 <= Reports(steps)
  {
    hide ApplySettle, Run, Inv, Reports, BatchOwed, SettledAs;
    var u := ApplyRedeem(w, key, shares).value;
    RedeemKeepsInvariant(w, key, shares);
    RunKeepsTicket(u, key, steps);
    RunKeepsInvariant(u, steps);
    EpochCountsReports(u, steps);
    var u' := Run(u, steps).value;
    SettleSucceedsExactly(u', keys, custody);
    var i :| 0 <= i < |keys| && keys[i] == key;
    assert StrikeEligible(u'.vault, u'.tickets[keys[i]]);
  }
}

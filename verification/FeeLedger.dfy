/** The performance fee over whole runs: what reports accrue is owed until it is collected or
    written down, once. */
module FeeLedger {
  import opened Outcome
  import opened Fees
  import opened Vaults
  import opened Machine
  import opened Queue
  import opened Invariant
  import opened Acceptance
  import opened NavReports

  /** The fee a report charges on its base. */
  ghost function AccruedBy(w: Ledger, step: Step): nat {
    if step.Report? && Economic(w) <= U64_MAX && Recognised(w, step.report).Ok?
    then Recognised(w, step.report).value.fee else 0
  }

  ghost function CollectedBy(step: Step): nat {
    if step.CollectFees? then step.amount else 0
  }

  ghost function WrittenDownBy(step: Step): nat {
    if step.WriteDownFees? then step.amount else 0
  }

  ghost function Accrued(w: Ledger, steps: seq<Step>): nat {
    if steps == [] then 0
    else
      var front, last := steps[..|steps| - 1], steps[|steps| - 1];
      Accrued(w, front) + if Run(w, front).Ok? then AccruedBy(Run(w, front).value, last) else 0
  }

  ghost function Collected(steps: seq<Step>): nat {
    if steps == [] then 0 else Collected(steps[..|steps| - 1]) + CollectedBy(steps[|steps| - 1])
  }

  ghost function WrittenDown(steps: seq<Step>): nat {
    if steps == [] then 0 else WrittenDown(steps[..|steps| - 1]) + WrittenDownBy(steps[|steps| - 1])
  }

  lemma ReportAccruesItsFee(w: Ledger, report: NavReport)
    requires Inv(w) && ApplyReport(w, report).Ok?
    ensures Economic(w) <= U64_MAX && Recognised(w, report).Ok?
    ensures ApplyReport(w, report).value.vault.feesPayable
            == w.vault.feesPayable + Recognised(w, report).value.fee
    ensures ApplyReport(w, report).value.vault.totalAssets == Recognised(w, report).value.net
  {
    hide ApplyReport, PerformanceFeeForNav, GrossNav, SharesQueued, Inv;
    ReportAccrues(w, report);
    GrossIsExact(report, GrossNav(report).value);
  }

  lemma StepBalancesFees(w: Ledger, step: Step)
    requires Inv(w) && Apply(w, step).Ok?
    ensures Apply(w, step).value.vault.feesPayable
            == w.vault.feesPayable + AccruedBy(w, step) - CollectedBy(step) - WrittenDownBy(step)
  {
    hide ApplyReport, ApplySettle, Recognised, SharesQueued, RedeemEntitlement, CancelGate, VaultState.UnlockLine;
    if step.Report? {
      ReportAccruesItsFee(w, step.report);
    } else if step.Settle? {
      SettleSucceedsExactly(w, step.keys, step.custody);
    }
  }

  lemma {:induction false} RunBalancesFees(w: Ledger, steps: seq<Step>)
    requires Inv(w) && Run(w, steps).Ok?
    ensures Run(w, steps).value.vault.feesPayable + Collected(steps) + WrittenDown(steps)
            == w.vault.feesPayable + Accrued(w, steps)
  {
    hide Apply, Inv;
    if steps == [] {
    } else {
      var front, last := steps[..|steps| - 1], steps[|steps| - 1];
      RunBalancesFees(w, front);
      RunKeepsInvariant(w, front);
      StepBalancesFees(Run(w, front).value, last);
    }
  }

  /** Over every run from initialisation the fees accrued by reports are what is payable plus what
      was collected plus what was written down: nothing is collected that was not accrued, or
      twice. */
  lemma FeesAreCollectedOnce(w: Ledger, steps: seq<Step>)
    requires Genesis(w) && Run(w, steps).Ok?
    ensures Accrued(w, steps) == Run(w, steps).value.vault.feesPayable + Collected(steps) + WrittenDown(steps)
    ensures Collected(steps) <= Accrued(w, steps)
  {
    hide Run;
    GenesisHolds(w);
    RunBalancesFees(w, steps);
  }
}

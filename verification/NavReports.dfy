/** What an accepted NAV report does to the books. */
module NavReports {
  import opened Outcome
  import opened Pricing
  import opened Fees
  import opened Vaults
  import opened Drip
  import opened Machine
  import opened Queue
  import opened Invariant

  /** A report splits the gross exactly into net assets, fees and pending withdrawals, ratchets
      the watermark, counts one epoch, and recognises the net: the price pays out the smaller of
      the prior effective NAV and the net while a gain unlocks, and the net itself otherwise. */
  lemma ReportBalancesTheBooks(w: Ledger, report: NavReport)
    requires Inv(w) && ApplyReport(w, report).Ok?
    ensures var w' := ApplyReport(w, report).value;
            var v, v' := w.vault, w'.vault;
            && GrossNav(report) == Ok(v'.totalAssets + v'.feesPayable + v'.pendingWithdrawalAssets)
            && v.feesPayable <= v'.feesPayable && v.highWatermark <= v'.highWatermark
            && v'.reportEpoch == v.reportEpoch + 1 && v'.lastUpdateTs == w.now
            && Effective(v', w.now)
               == (if v.UnlockWindow(w.now) > 0 then Min(Effective(v, w.now), v'.totalAssets) else v'.totalAssets)
            && w' == w.(vault := v')
            && v'.requestedWithdrawalShares == v.requestedWithdrawalShares
  {
    hide PerformanceFeeForNav, VerifyRecovery, GrossNav, SharesQueued, VaultState.VerifyNavGainBound,
         VaultState.VerifyReportInterval, VaultState.UnlockLine;
    var v := w.vault;
    var w' := ApplyReport(w, report).value;
    var economic := v.EconomicShareSupply(w.supply).value;
    var feeBase := FeeBase(v, GrossNav(report).value).value;
    var split := PerformanceFeeForNav(feeBase, economic, v.highWatermark, v.performanceFeeBps).value;
    FeeConservesAndRatchets(feeBase, economic, v.highWatermark, v.performanceFeeBps);
    var accrued := v.(feesPayable := w'.vault.feesPayable, highWatermark := split.highWatermark,
                      reportEpoch := w'.vault.reportEpoch);
    ReportSetsEffective(accrued, split.net, w.now);
    assert Effective(accrued, w.now) == Effective(v, w.now) by {
      assert accrued.UnlockLine(w.now) == v.UnlockLine(w.now) by {
        SameLine(v, accrued, w.now);
      }
    }
  }

  /** The drip an accepted report commits: a gain over prior effective NAV unlocks over the time
      since the last report, capped by the control, and is all effective once that time has
      passed again. */
  lemma ReportUnlocksOverItsSpan(w: Ledger, report: NavReport, t: int)
    requires Inv(w) && ApplyReport(w, report).Ok?
    ensures var v, v' := w.vault, ApplyReport(w, report).value.vault;
            var prior, span := Effective(v, w.now), Min(w.now - v.lastUpdateTs, v.controls.maxUnlockDurationSecs);
            && v'.profitUnlockStartTs == w.now
            && (v'.totalAssets > prior ==>
                  && v'.profitUnlockEndTs == w.now + span
                  && v'.lockedProfit == if span > 0 then v'.totalAssets - prior else 0)
            && (v'.totalAssets <= prior ==> v'.profitUnlockEndTs == w.now && v'.lockedProfit == 0)
            && (t >= w.now + (w.now - v.lastUpdateTs) ==> Effective(v', t) == v'.totalAssets)
            && (t >= w.now + v.controls.maxUnlockDurationSecs ==> Effective(v', t) == v'.totalAssets)
  {
    hide PerformanceFeeForNav, VerifyRecovery, GrossNav, SharesQueued, VaultState.VerifyNavGainBound,
         VaultState.VerifyReportInterval, VaultState.UnlockLine, VaultState.EffectiveTotalAssets;
    var v, v' := w.vault, ApplyReport(w, report).value.vault;
    ReportAccrues(w, report);
    var accrued := v.(feesPayable := v'.feesPayable, highWatermark := v'.highWatermark, reportEpoch := v'.reportEpoch);
    SameLine(v, accrued, w.now);
    GainUnlocksOverItsSpan(accrued, v'.totalAssets, w.now, t);
    SameLine(accrued.ApplyReportedNav(v'.totalAssets, w.now).value, v', t);
  }

  /** Reporting an unchanged gross again, at any later time the books did not move, charges no
      fee and leaves net assets, payable fees and watermark exactly where they were. */
  lemma ReReportingChargesNothing(w: Ledger, first: NavReport, later: Ledger, second: NavReport)
    requires Inv(w) && ApplyReport(w, first).Ok?
    requires later.vault == ApplyReport(w, first).value.vault && later.supply == w.supply
    requires ApplyReport(later, second).Ok? && GrossNav(second) == GrossNav(first)
    ensures var v, v' := later.vault, ApplyReport(later, second).value.vault;
            v'.totalAssets == v.totalAssets && v'.feesPayable == v.feesPayable && v'.highWatermark == v.highWatermark
  {
    hide PerformanceFeeForNav, VerifyRecovery, GrossNav, SharesQueued, VaultState.VerifyNavGainBound,
         VaultState.VerifyReportInterval, VaultState.UnlockLine, VaultState.RemainingLockedProfit;
    var v := w.vault;
    var economic := v.EconomicShareSupply(w.supply).value;
    var feeBase := FeeBase(v, GrossNav(first).value).value;
    FeeConservesAndRatchets(feeBase, economic, v.highWatermark, v.performanceFeeBps);
    FeeIsNotRepeated(feeBase, economic, v.highWatermark, v.performanceFeeBps);
  }

  /** The high watermark never falls, whatever is run. */
  lemma {:induction false} WatermarkNeverFalls(w: Ledger, steps: seq<Step>)
    requires Inv(w) && Run(w, steps).Ok?
    ensures w.vault.highWatermark <= Run(w, steps).value.vault.highWatermark
  {
    hide Apply;
    if steps == [] {
    } else {
      var front, last := steps[..|steps| - 1], steps[|steps| - 1];
      WatermarkNeverFalls(w, front);
      RunKeepsInvariant(w, front);
      StepKeepsWatermark(Run(w, front).value, last);
    }
  }

  lemma StepKeepsWatermark(w: Ledger, step: Step)
    requires Inv(w) && Apply(w, step).Ok?
    ensures w.vault.highWatermark <= Apply(w, step).value.vault.highWatermark
  {
    hide ApplyReport, ApplySettle, StrikeAll, LoadTickets, SharesOf, SharesQueued, RedeemEntitlement, CancelGate,
         VaultState.UnlockLine;
    if step.Report? {
      ReportBalancesTheBooks(w, step.report);
    } else if step.Settle? {
      SettleSucceedsExactly(w, step.keys, step.custody);
    }
  }

  /** What a report starts from: the gross less what is owed already. */
  ghost function ReportBase(w: Ledger, report: NavReport): Result<U64> {
    var gross :- GrossNav(report);
    FeeBase(w.vault, gross)
  }

  lemma ReportAccrues(w: Ledger, report: NavReport)
    requires Inv(w) && ApplyReport(w, report).Ok?
    ensures Economic(w) <= U64_MAX && ReportBase(w, report).Ok?
    ensures var v, v' := w.vault, ApplyReport(w, report).value.vault;
            PerformanceFeeForNav(ReportBase(w, report).value, Economic(w), v.highWatermark, v.performanceFeeBps)
            == Ok(FeeSplit(v'.feesPayable - v.feesPayable, v'.totalAssets, v'.highWatermark))
  {
    hide PerformanceFeeForNav, VerifyRecovery, GrossNav, SharesQueued, VaultState.VerifyNavGainBound,
         VaultState.VerifyReportInterval, VaultState.UnlockLine;
  }

  /** Over any run between two reports, whatever it deposits, redeems, settles, reports or
      reconfigures: if the economic supply is the same at both, the profit the second report
      charges starts less than `supply / 10^9` atoms below the net the first recognised. */
  lemma NoGainChargedTwiceOverRuns(w: Ledger, first: NavReport, steps: seq<Step>, second: NavReport)
    requires Inv(w) && ApplyReport(w, first).Ok? && Run(ApplyReport(w, first).value, steps).Ok?
    requires Economic(Run(ApplyReport(w, first).value, steps).value) == Economic(w)
    requires ApplyReport(Run(ApplyReport(w, first).value, steps).value, second).Ok?
    ensures Economic(w) <= U64_MAX
    ensures ReportBase(Run(ApplyReport(w, first).value, steps).value, second).Ok?
    ensures var recognised := ApplyReport(w, first).value.vault.totalAssets;
            var u := Run(ApplyReport(w, first).value, steps).value;
            var charged := ApplyReport(u, second).value.vault.feesPayable - u.vault.feesPayable;
            charged > 0 ==>
              && WatermarkAssets(u.vault.highWatermark, Economic(w)).Ok?
              && var start := WatermarkAssets(u.vault.highWatermark, Economic(w)).value;
                 && charged * 10_000 <= (ReportBase(u, second).value - start) * u.vault.performanceFeeBps
                 && recognised * SHARE_SCALE < start * SHARE_SCALE + Economic(w)
  {
    hide PerformanceFeeForNav, WatermarkAssets, ChargesFee, ApplyReport, ReportBase, Run, Inv;
    var mid := ApplyReport(w, first).value;
    var u := Run(mid, steps).value;
    ReportKeepsInvariant(w, first);
    WatermarkNeverFalls(mid, steps);
    RunKeepsInvariant(mid, steps);
    ReportAccrues(w, first);
    ReportAccrues(u, second);
    NoGainChargedTwice(ReportBase(w, first).value, Economic(w), w.vault.highWatermark, w.vault.performanceFeeBps,
                       ReportBase(u, second).value, u.vault.highWatermark, u.vault.performanceFeeBps);
    FeeConservesAndRatchets(ReportBase(u, second).value, Economic(w), u.vault.highWatermark, u.vault.performanceFeeBps);
  }
}

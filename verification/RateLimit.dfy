/** How fast reported NAV can grow: with the gain bound and the report interval configured, a
    NAV authority cannot compound faster than one bounded gain per interval. */
module RateLimit {
  import opened Rounding
  import opened Fees
  import opened Vaults
  import opened Machine
  import opened Queue
  import opened Invariant

  ghost function Pow(b: nat, k: nat): nat {
    if k == 0 then 1 else Pow(b, k - 1) * b
  }

  /** Steps that bring no deposits and change no controls; reports are ordinary ones. */
  ghost predicate Organic(step: Step) {
    !step.Deposit? && !step.Configure? && (step.Report? ==> !step.report.recovery)
  }

  ghost predicate AllOrganic(steps: seq<Step>) {
    forall i :: 0 <= i < |steps| ==> Organic(steps[i])
  }

  ghost function Reports(steps: seq<Step>): nat {
    if steps == [] then 0
    else Reports(steps[..|steps| - 1]) + if steps[|steps| - 1].Report? then 1 else 0
  }

  /** Without a report, organic steps only pay out: assets and economic supply never grow, and
      the report bookkeeping does not move. */
  ghost predicate OnlyPaysOut(w: Ledger, w': Ledger) {
    && w'.vault.totalAssets <= w.vault.totalAssets
    && Economic(w') <= Economic(w)
    && w.now <= w'.now
    && w'.vault.controls == w.vault.controls
    && w'.vault.lastUpdateTs == w.vault.lastUpdateTs
    && w'.vault.reportEpoch == w.vault.reportEpoch
  }

  lemma OrganicStepPaysOut(w: Ledger, step: Step)
    requires Inv(w) && Apply(w, step).Ok? && Organic(step) && !step.Report?
    ensures OnlyPaysOut(w, Apply(w, step).value)
  {
    hide VaultState.UnlockLine, SharesQueued, RedeemEntitlement, ApplySettle, StrikeAll, LoadTickets, SharesOf,
         CancelGate;
    if step.Settle? {
      SettleSucceedsExactly(w, step.keys, step.custody);
    }
  }

  /** An ordinary report moves total assets up by at most the gain bound and comes no sooner
      after the previous report than the configured interval. */
  lemma ReportIsBounded(w: Ledger, step: Step)
    requires Inv(w) && step.Report? && !step.report.recovery && Apply(w, step).Ok?
    ensures var w' := Apply(w, step).value;
            && (w.vault.controls.maxNavGainBps > 0 && Economic(w) > 0 ==>
                  w'.vault.totalAssets * 10_000 <= w.vault.totalAssets * (10_000 + w.vault.controls.maxNavGainBps))
            && Economic(w') == Economic(w)
            && w'.vault.controls == w.vault.controls
            && w'.vault.lastUpdateTs == w'.now == w.now
            && w'.vault.reportEpoch == w.vault.reportEpoch + 1
            && (w.vault.reportEpoch > 0 ==>
                  w.now >= w.vault.lastUpdateTs + w.vault.controls.minReportIntervalSecs)
  {
    hide PerformanceFeeForNav, VaultState.UnlockLine, SharesQueued, GrossNav, FeeBase;
  }

  lemma GrowthStep(x0: nat, x: nat, x': nat, g: nat, k: nat)
    requires x * Pow(10_000, k) <= x0 * Pow(10_000 + g, k)
    requires x' * 10_000 <= x * (10_000 + g)
    ensures x' * Pow(10_000, k + 1) <= x0 * Pow(10_000 + g, k + 1)
  {
    PowPositive(10_000, k);
    GrowthProduct(x0, x, x', 10_000, 10_000 + g, Pow(10_000, k), Pow(10_000 + g, k));
  }

  lemma GrowthProduct(x0: int, x: int, x': int, one: nat, gain: nat, d: nat, e: int)
    requires x * d <= x0 * e && x' * one <= x * gain
    ensures x' * (d * one) <= x0 * (e * gain)
  {
    calc <= {
      x' * (d * one);
      { Regroup(x', one, d); }
      x' * one * d;
      { MulLe(x' * one, x * gain, d); }
      x * gain * d;
      { Swap(x, gain, d); }
      x * d * gain;
      { MulLe(x * d, x0 * e, gain); }
      x0 * e * gain;
      { Regroup(x0, e, gain); Swap(x0, e, gain); Regroup(x0, gain, e); }
      x0 * (e * gain);
    }
  }

  lemma {:induction false} PowPositive(b: nat, k: nat)
    requires 0 < b
    ensures 0 < Pow(b, k)
  {
    if k == 0 {
    } else {
      PowPositive(b, k - 1);
      MulLe(1, Pow(b, k - 1), b);
    }
  }

  /** Over any organic run that leaves shares outstanding, `k` ordinary reports multiply total
      assets by at most `(1 + bound)^k`, and the last comes at least `k - 1` intervals after the
      run began. */
  lemma {:induction false} ReportsCompoundBounded(w: Ledger, steps: seq<Step>)
    requires Inv(w) && AllOrganic(steps) && Run(w, steps).Ok?
    requires w.vault.controls.maxNavGainBps > 0
    requires Economic(Run(w, steps).value) > 0
    ensures var w' := Run(w, steps).value;
            var k := Reports(steps);
            && w'.vault.totalAssets * Pow(10_000, k)
               <= w.vault.totalAssets * Pow(10_000 + w.vault.controls.maxNavGainBps, k)
            && w'.vault.controls == w.vault.controls
            && Economic(w') <= Economic(w)
            && w.now <= w'.now
            && (k > 0 ==>
                  && w'.vault.reportEpoch > 0
                  && w.now + (k - 1) * w.vault.controls.minReportIntervalSecs <= w'.vault.lastUpdateTs)
  {
    hide Apply, VaultState.UnlockLine, SharesQueued;
    if steps == [] {
    } else {
      var front, last := steps[..|steps| - 1], steps[|steps| - 1];
      var mid, w' := Run(w, front).value, Run(w, steps).value;
      RunKeepsInvariant(w, front);
      RunKeepsInvariant(w, steps);
      if last.Report? {
        ReportIsBounded(mid, last);
        ReportsCompoundBounded(w, front);
        GrowthStep(w.vault.totalAssets, mid.vault.totalAssets, w'.vault.totalAssets,
                   w.vault.controls.maxNavGainBps, Reports(front));
        Distribute(Reports(front) - 1, w.vault.controls.minReportIntervalSecs);
      } else {
        OrganicStepPaysOut(mid, last);
        ReportsCompoundBounded(w, front);
        PowPositive(10_000, Reports(front));
        MulLe(w'.vault.totalAssets, mid.vault.totalAssets, Pow(10_000, Reports(front)));
      }
    }
  }

  lemma {:induction false} MoreGains(x: nat, x0: nat, g: nat, k: nat, k': nat)
    requires k <= k' && x * Pow(10_000, k) <= x0 * Pow(10_000 + g, k)
    ensures x * Pow(10_000, k') <= x0 * Pow(10_000 + g, k')
    decreases k' - k
  {
    if k < k' {
      MulLe(10_000, 10_000 + g, x);
      assert x * 10_000 <= x * (10_000 + g);
      GrowthStep(x0, x, x, g, k);
      MoreGains(x, x0, g, k + 1, k');
    }
  }

  /** NAV growth is rate-limited by the clock alone: whatever the authority reports, an organic
      run of `elapsed` seconds that leaves shares outstanding grows total assets by at most one
      bounded gain per started interval. */
  lemma GrowthIsRateLimited(w: Ledger, steps: seq<Step>)
    requires Inv(w) && AllOrganic(steps) && Run(w, steps).Ok?
    requires w.vault.controls.maxNavGainBps > 0 && w.vault.controls.minReportIntervalSecs > 0
    requires Economic(Run(w, steps).value) > 0
    ensures var w' := Run(w, steps).value;
            w'.now - w.now >= 0
            && var gains := 1 + (w'.now - w.now) / w.vault.controls.minReportIntervalSecs;
               && Reports(steps) <= gains
               && w'.vault.totalAssets * Pow(10_000, gains)
                  <= w.vault.totalAssets * Pow(10_000 + w.vault.controls.maxNavGainBps, gains)
  {
    hide Run, Pow, Reports, AllOrganic, VaultState.UnlockLine, VaultState.ValidateState, SharesQueued;
    var w' := Run(w, steps).value;
    RunKeepsInvariant(w, steps);
    ReportsCompoundBounded(w, steps);
    var elapsed := w'.now - w.now;
    GainsInTime(Reports(steps), elapsed, w.vault.controls.minReportIntervalSecs);
    MoreGains(w'.vault.totalAssets, w.vault.totalAssets, w.vault.controls.maxNavGainBps, Reports(steps),
              1 + elapsed / w.vault.controls.minReportIntervalSecs);
  }

  lemma GainsInTime(k: nat, elapsed: nat, interval: int)
    requires 0 < interval && (k > 0 ==> (k - 1) * interval <= elapsed)
    ensures k <= 1 + elapsed / interval && 0 <= elapsed / interval
  {
    FloorAtLeast(elapsed, interval, 0);
    if k > 0 {
      FloorAtLeast(elapsed, interval, k - 1);
    }
  }
}

/** The profit-unlock drip: what the unlock line keeps under time, debits and reports. */
module Drip {
  import opened Outcome
  import opened Rounding
  import opened Vaults

  /** The drip fields are consistent at clock `now`: locked profit is backed by assets and has a
      window to unlock in, and the window started in the past and is at most 2^32 seconds. */
  ghost predicate Dripping(v: VaultState, now: I64) {
    && v.lockedProfit <= v.totalAssets
    && v.profitUnlockStartTs <= v.profitUnlockEndTs <= v.profitUnlockStartTs + U32_MAX
    && v.profitUnlockStartTs <= now && v.lastUpdateTs <= now
    && (v.lockedProfit > 0 ==> v.profitUnlockStartTs < v.profitUnlockEndTs)
  }

  /** Share-pricing NAV over the integers. */
  ghost function Effective(v: VaultState, t: int): int {
    v.totalAssets - v.UnlockLine(t)
  }

  /** While the drip is consistent, effective NAV never errors. */
  lemma EffectiveNeverErrs(v: VaultState, now: I64, t: I64)
    requires Dripping(v, now)
    ensures v.EffectiveTotalAssets(t).Ok? && v.EffectiveTotalAssets(t).value == Effective(v, t)
    ensures 0 <= Effective(v, t) <= v.totalAssets
  {
  }

  /** The quotient bounds of the unlock line inside the window. */
  lemma LineBounds(v: VaultState, t: int)
    requires v.profitUnlockStartTs < t < v.profitUnlockEndTs
    ensures var window := v.profitUnlockEndTs - v.profitUnlockStartTs;
            var exact := v.lockedProfit * (v.profitUnlockEndTs - t);
            v.UnlockLine(t) * window <= exact < (v.UnlockLine(t) + 1) * window
    ensures v.UnlockLine(t) <= v.lockedProfit
  {
    var window := v.profitUnlockEndTs - v.profitUnlockStartTs;
    var left := v.profitUnlockEndTs - t;
    MulLe(0, v.lockedProfit, left);
    FloorBounds(v.lockedProfit * left, window);
    MulLe(left, window, v.lockedProfit);
    CancelLe(v.UnlockLine(t), v.lockedProfit, window);
  }

  /** The unlock line depends only on the locked profit and its window. */
  lemma SameLine(v: VaultState, v': VaultState, t: int)
    requires v'.lockedProfit == v.lockedProfit
    requires v'.profitUnlockStartTs == v.profitUnlockStartTs && v'.profitUnlockEndTs == v.profitUnlockEndTs
    ensures v'.UnlockLine(t) == v.UnlockLine(t)
  {
  }

  /** Locked profit only ever drips out: effective NAV is non-decreasing in time. */
  lemma DripIsMonotone(v: VaultState, t: int, u: int)
    requires t <= u && v.profitUnlockStartTs <= v.profitUnlockEndTs
    ensures v.UnlockLine(u) <= v.UnlockLine(t)
    ensures Effective(v, t) <= Effective(v, u)
  {
    if v.profitUnlockStartTs < u < v.profitUnlockEndTs {
      LineBounds(v, u);
      if v.profitUnlockStartTs < t {
        MulLe(0, v.lockedProfit, v.profitUnlockEndTs - u);
        MulLe(v.profitUnlockEndTs - u, v.profitUnlockEndTs - t, v.lockedProfit);
        FloorMono(v.lockedProfit * (v.profitUnlockEndTs - u), v.lockedProfit * (v.profitUnlockEndTs - t),
                  v.profitUnlockEndTs - v.profitUnlockStartTs);
      }
    }
  }

  /** A debit at effective NAV lowers effective NAV by exactly the amount paid and keeps the
      drip consistent; it fails exactly when asked for more than effective NAV. */
  lemma DebitIsExact(v: VaultState, amount: U64, now: I64)
    requires Dripping(v, now)
    ensures v.DebitAssetsAtEffective(amount, now).Ok? <==> amount <= Effective(v, now)
    ensures v.DebitAssetsAtEffective(amount, now).Ok? ==>
              var d := v.DebitAssetsAtEffective(amount, now).value;
              && Dripping(d, now) && Effective(d, now) == Effective(v, now) - amount
              && d == v.(totalAssets := v.totalAssets - amount, lockedProfit := d.lockedProfit,
                         profitUnlockStartTs := d.profitUnlockStartTs)
  {
    EffectiveNeverErrs(v, now, now);
  }

  /** Restating the line from `now` moves it down by at most one atom at any later time. */
  lemma DebitKeepsLine(v: VaultState, amount: U64, now: I64, t: int)
    requires Dripping(v, now) && now <= t
    requires v.DebitAssetsAtEffective(amount, now).Ok?
    ensures var d := v.DebitAssetsAtEffective(amount, now).value;
            d.UnlockLine(t) <= v.UnlockLine(t) <= d.UnlockLine(t) + 1
  {
    var d := v.DebitAssetsAtEffective(amount, now).value;
    var remaining := v.UnlockLine(now);
    DripIsMonotone(v, now, t);
    if v.profitUnlockStartTs < now && now < t < v.profitUnlockEndTs && remaining > 0 {
      LineBounds(v, now);
      LineBounds(v, t);
      LineBounds(d, t);
      RestatedLine(v.lockedProfit, v.profitUnlockEndTs - v.profitUnlockStartTs,
                   v.profitUnlockEndTs - now, v.profitUnlockEndTs - t,
                   remaining, v.UnlockLine(t), d.UnlockLine(t));
    } else if remaining == 0 {
      DripIsMonotone(d, now, t);
    }
  }

  /** Flooring a line through a floored point: `at = floor(l * left / window)`,
      `before = floor(l * later / window)` and `after = floor(at * later / left)`. */
  lemma RestatedLine(l: nat, window: int, left: int, later: int, at: int, before: int, after: int)
    requires 0 < later < left < window
    requires at * window <= l * left < (at + 1) * window
    requires before * window <= l * later < (before + 1) * window
    requires after * left <= at * later < (after + 1) * left
    ensures after <= before <= after + 1
  {
    RestatedBelow(l, window, left, later, at, after);
    CancelLt(after, before + 1, window);
    RestatedAbove(l, window, left, later, at, after);
    CancelLt(before, after + 2, window);
  }

  lemma RestatedBelow(l: int, window: int, left: int, later: int, at: int, after: int)
    requires 0 < window && 0 < left && 0 < later
    requires at * window <= l * left && after * left <= at * later
    ensures after * window <= l * later
  {
    MulLe(after * left, at * later, window);
    MulLe(at * window, l * left, later);
    Swap(after, left, window);
    Swap(at, later, window);
    Swap(l, left, later);
    CancelLe(after * window, l * later, left);
  }

  lemma RestatedAbove(l: int, window: int, left: int, later: int, at: int, after: int)
    requires 0 < window && 0 < later <= left
    requires l * left < (at + 1) * window && at * later < (after + 1) * left
    ensures l * later < (after + 2) * window
  {
    Strict(l * left, (at + 1) * window, later);
    assert (at + 1) * later < (after + 2) * left by {
      Distribute(at, later);
      Distribute(after + 1, left);
    }
    Strict((at + 1) * later, (after + 2) * left, window);
    Swap(l, left, later);
    Swap(at + 1, later, window);
    Swap(after + 2, left, window);
    CancelLt(l * later, (after + 2) * window, left);
  }

  /** The drip a recognition commits, on the stored fields: a gain over prior effective NAV locks
      for the time since the last report, at most the configured maximum, and not at all when
      that is zero; a loss, or no gain, locks nothing. So once as much time has passed again as
      the gain took to earn, all of the net is effective. */
  lemma GainUnlocksOverItsSpan(v: VaultState, net: U64, now: I64, t: int)
    requires Dripping(v, now) && v.ApplyReportedNav(net, now).Ok?
    ensures var a := v.ApplyReportedNav(net, now).value;
            var span := Min(now - v.lastUpdateTs, v.controls.maxUnlockDurationSecs);
            && a.totalAssets == net && a.profitUnlockStartTs == now
            && (net > Effective(v, now) ==>
                  && a.profitUnlockEndTs == now + span
                  && a.lockedProfit == if span > 0 then net - Effective(v, now) else 0)
            && (net <= Effective(v, now) ==> a.profitUnlockEndTs == now && a.lockedProfit == 0)
            && (t >= now + (now - v.lastUpdateTs) ==> Effective(a, t) == net)
            && (t >= now + v.controls.maxUnlockDurationSecs ==> Effective(a, t) == net)
            && a == v.(totalAssets := net, lockedProfit := a.lockedProfit, profitUnlockStartTs := now,
                       profitUnlockEndTs := a.profitUnlockEndTs)
  {
    EffectiveNeverErrs(v, now, now);
  }

  /** At a report, effective NAV becomes the smaller of its prior value and the reported net
      when the gain has a window to unlock over, and exactly the net otherwise; the drip stays
      consistent. The only possible failure is the clock running out of i64. */
  lemma ReportSetsEffective(v: VaultState, net: U64, now: I64)
    requires Dripping(v, now)
    ensures v.ApplyReportedNav(net, now).Ok? <==> (net <= Effective(v, now) || now + v.UnlockWindow(now) <= I64_MAX)
    ensures v.ApplyReportedNav(net, now).Ok? ==>
              var a := v.ApplyReportedNav(net, now).value.(lastUpdateTs := now);
              && Dripping(a, now)
              && a.totalAssets == net
              && Effective(a, now) == if v.UnlockWindow(now) > 0 then Min(Effective(v, now), net) else net
  {
    EffectiveNeverErrs(v, now, now);
  }
}

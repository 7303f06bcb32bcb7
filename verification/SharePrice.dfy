/** Between NAV reports nobody can take value out of the pool: the virtual share price never
    falls, payouts are covered by deposits, and the drip stays on its line. */
module SharePrice {
  import opened Outcome
  import opened Rounding
  import opened Pricing
  import opened Vaults
  import opened Drip
  import opened Machine
  import opened Queue
  import opened Settlement
  import opened Invariant

  ghost function Assets(w: Ledger): int {
    PricedAssets(w.vault, w.now)
  }

  ghost function Shares(w: Ledger): int
    requires w.vault.baseDecimals <= SHARE_DECIMALS
  {
    PricedShares(w.vault, w.supply)
  }

  /** `w'` prices a share at least as high as `w`: `(effective + 1) / (economic + offset)`,
      cross-multiplied. */
  ghost predicate PriceAtMost(w: Ledger, w': Ledger)
    requires w.vault.baseDecimals <= SHARE_DECIMALS && w'.vault.baseDecimals <= SHARE_DECIMALS
  {
    Assets(w) * Shares(w') <= Assets(w') * Shares(w)
  }

  /** NAV moves only with the base atoms paid in and out. */
  ghost predicate FlowsAccount(w: Ledger, w': Ledger) {
    w'.vault.totalAssets - w.vault.totalAssets == (w'.inflow - w.inflow) - (w'.outflow - w.outflow)
  }

  /** From `w'.now` on, the unlock line of `w'` is that of `w`, at most `slack` atoms lower. */
  ghost predicate LineKept(w: Ledger, w': Ledger, slack: int) {
    forall t :: w'.now <= t ==> w'.vault.UnlockLine(t) <= w.vault.UnlockLine(t) <= w'.vault.UnlockLine(t) + slack
  }

  /** At an unchanged clock the whole line's current point is unchanged, so effective NAV too
      moves only with the flows. */
  ghost predicate SameInstant(w: Ledger, w': Ledger) {
    w'.now == w.now ==>
      Effective(w'.vault, w'.now) - Effective(w.vault, w.now) == (w'.inflow - w.inflow) - (w'.outflow - w.outflow)
  }

  ghost predicate ReportFree(steps: seq<Step>) {
    forall i :: 0 <= i < |steps| ==> !steps[i].Report?
  }

  /** The debits a step takes at effective NAV: one per struck ticket, one per atomic exit. */
  ghost function Debits(step: Step): nat {
    if step.Settle? then |step.keys| else if step.AtomicRedeem? then 1 else 0
  }

  ghost function DebitCount(steps: seq<Step>): nat {
    if steps == [] then 0 else DebitCount(steps[..|steps| - 1]) + Debits(steps[|steps| - 1])
  }

  ghost predicate Fair(w: Ledger, w': Ledger, debits: nat)
    requires w.vault.baseDecimals <= SHARE_DECIMALS
  {
    && w'.vault.baseDecimals == w.vault.baseDecimals
    && w.now <= w'.now
    && PriceAtMost(w, w')
    && FlowsAccount(w, w')
    && LineKept(w, w', debits)
    && SameInstant(w, w')
  }

  lemma DepositIsFair(w: Ledger, baseAtoms: U64, minSharesOut: U64, admitted: bool)
    requires Inv(w) && ApplyDeposit(w, baseAtoms, minSharesOut, admitted).Ok?
    ensures Fair(w, ApplyDeposit(w, baseAtoms, minSharesOut, admitted).value, 0)
  {
    hide SharesQueued, TenTo, VaultState.UnlockLine, SharePriceFromAssets;
    var w' := ApplyDeposit(w, baseAtoms, minSharesOut, admitted).value;
    EffectiveNeverErrs(w.vault, w.now, w.now);
    forall t ensures w'.vault.UnlockLine(t) == w.vault.UnlockLine(t) {
      SameLine(w.vault, w'.vault, t);
    }
    MintingFloorKeepsPrice(Assets(w), Shares(w), baseAtoms, Shares(w') - Shares(w));
  }

  /** Minting `s <= b * t / a` shares for `b` atoms leaves a price of at least `a / t`. */
  lemma MintingFloorKeepsPrice(a: int, t: int, b: int, s: int)
    requires s * a <= b * t
    ensures a * (t + s) <= (a + b) * t
  {
    assert a * (t + s) == a * t + s * a;
    assert (a + b) * t == a * t + b * t;
  }

  lemma SettleIsFair(w: Ledger, keys: seq<TicketKey>, custody: U64)
    requires Inv(w) && ApplySettle(w, keys, custody).Ok?
    ensures Fair(w, ApplySettle(w, keys, custody).value, |keys|)
  {
    hide ApplySettle, StrikeAll, LoadTickets, VaultState.UnlockLine, SharesOf, SharesQueued, TenTo;
    SettleSucceedsExactly(w, keys, custody);
    LoadedBatch(w, keys);
    var w' := ApplySettle(w, keys, custody).value;
    var loaded := LoadTickets(w.tickets, keys).value;
    StrikesNeverLowerPrice(w.vault, w.supply, loaded, w.now);
    var after := After(w.vault, w.supply, loaded, w.now);
    forall t ensures w'.vault.UnlockLine(t) == after.UnlockLine(t) {
      SameLine(after, w'.vault, t);
    }
    forall t | w'.now <= t
      ensures w'.vault.UnlockLine(t) <= w.vault.UnlockLine(t) <= w'.vault.UnlockLine(t) + |keys|
    {
      StrikesKeepLine(w.vault, w.supply, loaded, w.now, t);
    }
  }

  lemma AtomicRedeemIsFair(w: Ledger, shares: U64, unwind: Unwind)
    requires Inv(w) && ApplyAtomicRedeem(w, shares, unwind).Ok?
    ensures Fair(w, ApplyAtomicRedeem(w, shares, unwind).value, 1)
  {
    hide BpsCeil, VaultState.UnlockLine, SharesQueued, TenTo;
    var w' := ApplyAtomicRedeem(w, shares, unwind).value;
    var payout := w'.outflow - w.outflow;
    var owed := RedeemEntitlement(w, shares, unwind).value;
    EffectiveNeverErrs(w.vault, w.now, w.now);
    DebitIsExact(w.vault, payout, w.now);
    OffsetBounds(w.vault.baseDecimals);
    MulLe(payout, owed, Shares(w));
    PayingFloorKeepsPrice(Assets(w), Shares(w), shares, payout);
    forall t | w'.now <= t
      ensures w'.vault.UnlockLine(t) <= w.vault.UnlockLine(t) <= w'.vault.UnlockLine(t) + 1
    {
      DebitKeepsLine(w.vault, payout, w.now, t);
    }
  }

  lemma NeutralStepIsFair(w: Ledger, step: Step)
    requires Inv(w) && Apply(w, step).Ok?
    requires step.Redeem? || step.Cancel? || step.CollectFees? || step.WriteDownFees? || step.Configure?
    ensures Fair(w, Apply(w, step).value, 0)
  {
    hide VaultState.UnlockLine, SharesQueued, TenTo, AssetsForRedeem, CancelGate;
    var w' := Apply(w, step).value;
    forall t ensures w'.vault.UnlockLine(t) == w.vault.UnlockLine(t) {
      SameLine(w.vault, w'.vault, t);
    }
  }

  lemma AdvanceIsFair(w: Ledger, seconds: nat, slots: nat)
    requires Inv(w) && ApplyAdvance(w, seconds, slots).Ok?
    ensures Fair(w, ApplyAdvance(w, seconds, slots).value, 0)
  {
    hide VaultState.UnlockLine, SharesQueued, TenTo;
    var w' := ApplyAdvance(w, seconds, slots).value;
    DripIsMonotone(w.vault, w.now, w'.now);
    OffsetBounds(w.vault.baseDecimals);
    MulLe(Assets(w), Assets(w'), Shares(w));
  }

  lemma HolderBurnIsFair(w: Ledger, shares: U64)
    requires Inv(w) && ApplyHolderBurn(w, shares).Ok?
    ensures Fair(w, ApplyHolderBurn(w, shares).value, 0)
  {
    hide VaultState.UnlockLine, SharesQueued, TenTo;
    EffectiveNeverErrs(w.vault, w.now, w.now);
    MulLe(Shares(ApplyHolderBurn(w, shares).value), Shares(w), Assets(w));
  }

  lemma StepIsFair(w: Ledger, step: Step)
    requires Inv(w) && Apply(w, step).Ok? && !step.Report?
    ensures Fair(w, Apply(w, step).value, Debits(step))
  {
    hide Fair, ApplyDeposit, ApplyRedeem, ApplyCancel, ApplySettle, ApplyAtomicRedeem, ApplyReport;
    match step
    case Deposit(baseAtoms, minSharesOut, admitted) => DepositIsFair(w, baseAtoms, minSharesOut, admitted);
    case Settle(keys, custody) => SettleIsFair(w, keys, custody);
    case AtomicRedeem(shares, unwind) => AtomicRedeemIsFair(w, shares, unwind);
    case HolderBurn(shares) => HolderBurnIsFair(w, shares);
    case Advance(seconds, slots) => AdvanceIsFair(w, seconds, slots);
    case _ => NeutralStepIsFair(w, step);
  }

  lemma FairComposes(w: Ledger, mid: Ledger, w': Ledger, d: nat, d': nat)
    requires Inv(w) && Inv(mid) && Inv(w')
    requires Fair(w, mid, d) && Fair(mid, w', d')
    ensures Fair(w, w', d + d')
  {
    hide VaultState.UnlockLine, SharesQueued, TenTo;
    OffsetBounds(w.vault.baseDecimals);
    EffectiveNeverErrs(w.vault, w.now, w.now);
    EffectiveNeverErrs(mid.vault, mid.now, mid.now);
    EffectiveNeverErrs(w'.vault, w'.now, w'.now);
    CrossTransitive(Assets(w), Shares(w), Assets(mid), Shares(mid), Assets(w'), Shares(w'));
  }

  lemma {:induction false} RunIsFair(w: Ledger, steps: seq<Step>)
    requires Inv(w) && ReportFree(steps) && Run(w, steps).Ok?
    ensures Fair(w, Run(w, steps).value, DebitCount(steps))
  {
    hide Apply, PriceAtMost, VaultState.UnlockLine;
    if steps == [] {
      assert PriceAtMost(w, w) by {
        SamePrice(w);
      }
    } else {
      var front, last := steps[..|steps| - 1], steps[|steps| - 1];
      RunIsFair(w, front);
      RunKeepsInvariant(w, front);
      RunKeepsInvariant(w, steps);
      var mid := Run(w, front).value;
      StepIsFair(mid, last);
      FairComposes(w, mid, Run(w, steps).value, DebitCount(front), Debits(last));
    }
  }

  lemma SamePrice(w: Ledger)
    requires w.vault.baseDecimals <= SHARE_DECIMALS
    ensures PriceAtMost(w, w)
  {
  }

  /** Over any report-free run of deposits, queued and cancelled redemptions, settlements, atomic
      exits, fee collections and write-downs, reconfigurations and waiting, the virtual share
      price never falls. */
  lemma PriceNeverFalls(w: Ledger, steps: seq<Step>)
    requires Inv(w) && ReportFree(steps) && Run(w, steps).Ok?
    ensures Run(w, steps).value.vault.baseDecimals == w.vault.baseDecimals
    ensures PriceAtMost(w, Run(w, steps).value)
  {
    hide Run, Inv;
    assert w.vault.baseDecimals <= SHARE_DECIMALS by {
      SupportedBase(w);
    }
    RunIsFair(w, steps);
  }

  lemma SupportedBase(w: Ledger)
    requires Inv(w)
    ensures w.vault.baseDecimals <= SHARE_DECIMALS
  {
  }

  /** No extraction: a report-free run that brings the economic supply back to at least where it
      started pays out no more than was deposited plus the profit that unlocked on the way; at a
      fixed clock, where nothing unlocks, no more than was deposited. */
  lemma PayoutsAreCovered(w: Ledger, steps: seq<Step>)
    requires Inv(w) && ReportFree(steps) && Run(w, steps).Ok?
    requires Economic(w) <= Economic(Run(w, steps).value)
    ensures var w' := Run(w, steps).value;
            w'.outflow - w.outflow
            <= w'.inflow - w.inflow + (w.vault.UnlockLine(w.now) - w'.vault.UnlockLine(w'.now))
    ensures var w' := Run(w, steps).value;
            w'.now == w.now ==> w'.outflow - w.outflow <= w'.inflow - w.inflow
  {
    hide Run, VaultState.UnlockLine, SharesQueued, TenTo;
    var w' := Run(w, steps).value;
    RunIsFair(w, steps);
    RunKeepsInvariant(w, steps);
    OffsetBounds(w.vault.baseDecimals);
    EffectiveNeverErrs(w.vault, w.now, w.now);
    EffectiveNeverErrs(w'.vault, w'.now, w'.now);
    MulLe(Shares(w), Shares(w'), Assets(w));
    CancelLe(Assets(w), Assets(w'), Shares(w));
  }

  /** After any report-free run, the profit still locked at every later time is never above the
      original unlock line and at most one atom per debit below it. */
  lemma UnlockLineIsKept(w: Ledger, steps: seq<Step>, t: int)
    requires Inv(w) && ReportFree(steps) && Run(w, steps).Ok? && Run(w, steps).value.now <= t
    ensures var w' := Run(w, steps).value;
            w'.vault.UnlockLine(t) <= w.vault.UnlockLine(t) <= w'.vault.UnlockLine(t) + DebitCount(steps)
  {
    hide Run, VaultState.UnlockLine, PriceAtMost, SharesQueued;
    RunIsFair(w, steps);
  }
}

/** The one limit no instruction enforces: circulating plus queued shares inside u64. Which step
    can break it, and what is left of a vault once it is broken. */
module SupplyLimit {
  import opened Outcome
  import opened Rounding
  import opened Pricing
  import opened Fees
  import opened Vaults
  import opened Drip
  import opened Machine
  import opened Queue
  import opened Invariant

  /** A deposit worth, at the current price, at least one share more than the economic supply has
      room for: `b / (effective + 1) >= (room + 1) / (economic + offset)`, cross-multiplied. */
  ghost predicate Overmints(w: Ledger, step: Step)
    requires Inv(w)
  {
    && step.Deposit?
    && (U64_MAX - Economic(w) + 1) * (Effective(w.vault, w.now) + 1)
       <= step.baseAtoms * (Economic(w) + Offset(w.vault.baseDecimals))
  }

  lemma OnlyDepositsAddShares(w: Ledger, step: Step)
    requires Inv(w) && Apply(w, step).Ok? && !step.Deposit?
    ensures Economic(Apply(w, step).value) <= Economic(w)
  {
    hide VaultState.UnlockLine, SharesQueued, RedeemEntitlement, ApplySettle, StrikeAll, LoadTickets, SharesOf,
         CancelGate, PerformanceFeeForNav, GrossNav, FeeBase;
    if step.Settle? {
      SettleSucceedsExactly(w, step.keys, step.custody);
    }
  }

  /** An accepted step keeps the economic supply inside u64 exactly when it is not a deposit worth
      more shares than the room left. */
  lemma FitIsLostExactlyByOverminting(w: Ledger, step: Step)
    requires Inv(w) && SupplyFits(w) && Apply(w, step).Ok?
    ensures SupplyFits(Apply(w, step).value) <==> !Overmints(w, step)
  {
    hide VaultState.UnlockLine, SharesQueued, SharesForDeposit, SharePriceFromAssets, TenTo;
    if step.Deposit? {
      EffectiveNeverErrs(w.vault, w.now, w.now);
      var minted: int := Apply(w, step).value.supply - w.supply;
      var room, assets := U64_MAX - Economic(w), Effective(w.vault, w.now) + 1;
      if minted <= room {
        MulLe(minted + 1, room + 1, assets);
      } else {
        MulLe(room + 1, minted, assets);
      }
    } else {
      OnlyDepositsAddShares(w, step);
    }
  }

  ghost predicate Wedged(w: Ledger) {
    Inv(w) && !SupplyFits(w)
  }

  /** How far past the limit a vault is. */
  ghost function Excess(w: Ledger): int {
    Economic(w) - U64_MAX
  }

  /** The steps that price nothing. */
  predicate Still(step: Step) {
    || step.Cancel? || step.CollectFees? || step.WriteDownFees? || step.Configure?
    || step.HolderBurn? || step.Advance?
  }

  /** Past the limit no deposit, redemption, settlement, atomic exit or report is accepted. */
  lemma WedgedRefuses(w: Ledger, step: Step)
    requires Wedged(w) && !Still(step)
    ensures Apply(w, step).Err?
  {
    hide VaultState.UnlockLine, VaultState.EffectiveTotalAssets, SharesQueued, ApplySettle, LoadTickets,
         SharesForDeposit, SharePriceFromAssets, AssetsForRedeem, PerformanceFeeForNav, GrossNav;
    if step.Settle? {
      SettleSucceedsExactly(w, step.keys, step.custody);
    }
  }

  ghost function BurntBy(step: Step): nat {
    if step.HolderBurn? then step.shares else 0
  }

  /** The shares holders burn over a run. */
  ghost function Burnt(steps: seq<Step>): nat {
    if steps == [] then 0 else Burnt(steps[..|steps| - 1]) + BurntBy(steps[|steps| - 1])
  }

  ghost predicate AllStill(steps: seq<Step>) {
    forall i :: 0 <= i < |steps| ==> Still(steps[i])
  }

  /** `w'` holds what `w` held, less `burnt` shares, with at most queued shares back in
      circulation. */
  ghost predicate Frozen(w: Ledger, w': Ledger, burnt: nat) {
    && Economic(w') == Economic(w) - burnt
    && w'.vault.totalAssets == w.vault.totalAssets
    && w'.inflow == w.inflow && w'.outflow == w.outflow
    && w.supply - burnt <= w'.supply
  }

  lemma StillStep(w: Ledger, step: Step)
    requires Inv(w) && Apply(w, step).Ok? && Still(step)
    ensures Inv(Apply(w, step).value) && Frozen(w, Apply(w, step).value, BurntBy(step))
  {
    hide VaultState.UnlockLine, SharesQueued, CancelGate;
    StepKeepsInvariant(w, step);
  }

  lemma {:induction false} StillRun(w: Ledger, steps: seq<Step>)
    requires Inv(w) && AllStill(steps) && Run(w, steps).Ok?
    ensures Inv(Run(w, steps).value) && Frozen(w, Run(w, steps).value, Burnt(steps))
  {
    hide Apply, Inv;
    if steps == [] {
    } else {
      var front, last := steps[..|steps| - 1], steps[|steps| - 1];
      assert AllStill(front) by {
        assert forall i :: 0 <= i < |front| ==> front[i] == steps[i];
      }
      StillRun(w, front);
      StillStep(Run(w, front).value, last);
    }
  }

  /** While a run prices nothing, a wedge lasts exactly until holders have burned the excess. */
  lemma StillRunEndsWedgeExactly(w: Ledger, steps: seq<Step>)
    requires Wedged(w) && AllStill(steps) && Run(w, steps).Ok?
    ensures Inv(Run(w, steps).value) && Frozen(w, Run(w, steps).value, Burnt(steps))
    ensures Wedged(Run(w, steps).value) <==> Burnt(steps) < Excess(w)
  {
    hide Run, Inv;
    StillRun(w, steps);
  }

  /** Until the excess is burned nothing is deposited, priced, reported or paid out: a run that
      burns less leaves the vault wedged, and total assets and payouts where they were. */
  lemma {:induction false} WedgedUntilBurnt(w: Ledger, steps: seq<Step>)
    requires Wedged(w) && Run(w, steps).Ok? && Burnt(steps) < Excess(w)
    ensures AllStill(steps)
    ensures Wedged(Run(w, steps).value) && Frozen(w, Run(w, steps).value, Burnt(steps))
  {
    hide Apply, Inv;
    if steps == [] {
    } else {
      var front, last := steps[..|steps| - 1], steps[|steps| - 1];
      WedgedUntilBurnt(w, front);
      if !Still(last) {
        WedgedRefuses(Run(w, front).value, last);
      }
      assert forall i :: 0 <= i < |front| ==> front[i] == steps[i];
      StillRunEndsWedgeExactly(w, steps);
    }
  }

  /** So wherever an accepted run prices something again, the excess was burned before. */
  lemma {:induction false} PricingResumesAfterBurns(w: Ledger, steps: seq<Step>, i: nat)
    requires Wedged(w) && Run(w, steps).Ok? && i < |steps| && !Still(steps[i])
    ensures Excess(w) <= Burnt(steps[..i])
  {
    hide Apply, Inv;
    var front := steps[..|steps| - 1];
    if i < |front| {
      PricingResumesAfterBurns(w, front, i);
      assert front[..i] == steps[..i];
    } else {
      assert front == steps[..i];
      if Burnt(front) < Excess(w) {
        WedgedUntilBurnt(w, front);
        WedgedRefuses(Run(w, front).value, steps[i]);
      }
    }
  }

  /** Every wedge can be ended: the excess never passes what circulates, and a burn is accepted up
      to what circulates and ends the wedge exactly from the excess on. */
  lemma WedgeIsRecoverable(w: Ledger, shares: U64)
    requires Wedged(w)
    ensures 0 < Excess(w) <= w.supply
    ensures Apply(w, HolderBurn(shares)).Ok? <==> shares <= w.supply
    ensures Apply(w, HolderBurn(shares)).Ok? ==>
              var w' := Apply(w, HolderBurn(shares)).value;
              Inv(w') && (SupplyFits(w') <==> Excess(w) <= shares)
  {
    hide Inv;
    if shares <= w.supply {
      StillStep(w, HolderBurn(shares));
    }
  }

  /** A cancellation goes through exactly for an open ticket past its gate that holds what was
      asked for, if its shares fit back into the circulating supply. */
  lemma CancelSucceedsExactly(w: Ledger, key: TicketKey, minSharesOut: U64)
    requires Inv(w)
    ensures ApplyCancel(w, key, minSharesOut).Ok?
            <==> && key in w.tickets
                 && CancelGate(w.vault, w.tickets[key], w.slot).Ok?
                 && minSharesOut <= w.tickets[key].sharesBurned
                 && w.supply + w.tickets[key].sharesBurned <= U64_MAX
  {
    hide CancelGate, SharesQueued;
    if key in w.tickets {
      QueuedWithout(w.tickets, key);
    }
  }

  /** By how many shares a ticket does not fit beside the circulating supply. */
  ghost function Overhang(w: Ledger, key: TicketKey): int
    requires key in w.tickets
  {
    w.supply + w.tickets[key].sharesBurned - U64_MAX
  }

  /** A ticket that cannot be cancelled for want of room keeps its whole vault wedged. */
  ghost predicate Crowded(w: Ledger, key: TicketKey) {
    key in w.tickets && Overhang(w, key) > 0
  }

  lemma CrowdedIsWedged(w: Ledger, key: TicketKey)
    requires Inv(w) && Crowded(w, key)
    ensures Wedged(w) && Overhang(w, key) <= Excess(w) && Overhang(w, key) <= w.supply
  {
    hide SharesQueued;
    QueuedWithout(w.tickets, key);
  }

  lemma CrowdedStep(w: Ledger, key: TicketKey, step: Step)
    requires Inv(w) && Crowded(w, key) && Apply(w, step).Ok?
    ensures Inv(Apply(w, step).value)
    ensures key in Apply(w, step).value.tickets && Apply(w, step).value.tickets[key] == w.tickets[key]
    ensures Overhang(w, key) - BurntBy(step) <= Overhang(Apply(w, step).value, key)
  {
    hide VaultState.UnlockLine, SharesQueued, CancelGate, ApplySettle, ApplyReport, ApplyDeposit, ApplyAtomicRedeem,
         ApplyRedeem;
    CrowdedIsWedged(w, key);
    if !Still(step) {
      WedgedRefuses(w, step);
    }
    StillStep(w, step);
    if step.Cancel? {
      CancelSucceedsExactly(w, step.key, step.minSharesOut);
    }
  }

  /** Until holders have burned its overhang such a ticket is out of reach: after any run that burns
      less it is still open, can not be cancelled, and no batch settles. */
  lemma {:induction false} CrowdedUntilBurnt(w: Ledger, key: TicketKey, steps: seq<Step>,
                                             minSharesOut: U64, keys: seq<TicketKey>, custody: U64)
    requires Inv(w) && Crowded(w, key) && Run(w, steps).Ok? && Burnt(steps) < Overhang(w, key)
    ensures var w' := Run(w, steps).value;
            && Inv(w') && Crowded(w', key) && w'.tickets[key] == w.tickets[key]
            && Overhang(w, key) - Burnt(steps) <= Overhang(w', key)
            && ApplyCancel(w', key, minSharesOut).Err?
            && ApplySettle(w', keys, custody).Err?
  {
    hide Apply, Inv, ApplyCancel, ApplySettle;
    if steps == [] {
    } else {
      var front, last := steps[..|steps| - 1], steps[|steps| - 1];
      CrowdedUntilBurnt(w, key, front, minSharesOut, keys, custody);
      CrowdedStep(Run(w, front).value, key, last);
    }
    CrowdedIsWedged(Run(w, steps).value, key);
    CancelSucceedsExactly(Run(w, steps).value, key, minSharesOut);
    SettleSucceedsExactly(Run(w, steps).value, keys, custody);
  }

  /** And it comes back within reach exactly by burning that much: a burn of at least the overhang
      is always possible, and after one a cancellation past its gate goes through. */
  lemma BurningTheOverhangMakesRoom(w: Ledger, key: TicketKey, shares: U64, minSharesOut: U64)
    requires Inv(w) && Crowded(w, key) && shares <= w.supply
    ensures Overhang(w, key) <= w.supply
    ensures var burn := Apply(w, HolderBurn(shares));
            && burn.Ok? && key in burn.value.tickets
            && (Crowded(burn.value, key) <==> shares < Overhang(w, key))
            && (ApplyCancel(burn.value, key, minSharesOut).Ok?
                <==> && Overhang(w, key) <= shares
                     && CancelGate(w.vault, w.tickets[key], w.slot).Ok?
                     && minSharesOut <= w.tickets[key].sharesBurned)
  {
    hide CancelGate, ApplyCancel, Inv;
    CrowdedIsWedged(w, key);
    StillStep(w, HolderBurn(shares));
    CancelSucceedsExactly(Apply(w, HolderBurn(shares)).value, key, minSharesOut);
  }
}

/** Runs from a freshly initialised vault that show where a property stops. */
module Witnesses {
  import opened Outcome
  import opened Rounding
  import opened Pricing
  import opened Fees
  import opened Vaults
  import opened Machine
  import opened Invariant
  import opened SharePrice
  import opened SupplyLimit

  lemma RunThree(w: Ledger, a: Ledger, b: Ledger, c: Ledger, first: Step, second: Step, third: Step)
    requires Apply(w, first) == Ok(a) && Apply(a, second) == Ok(b) && Apply(b, third) == Ok(c)
    ensures Run(w, [first, second, third]) == Ok(c)
  {
    hide Apply;
    RunExtends(w, [], first);
    RunExtends(w, [first], second);
    RunExtends(w, [first, second], third);
    assert [] + [first] == [first] && [first] + [second] == [first, second];
    assert [first, second] + [third] == [first, second, third];
  }

  /** A deposit into a vault with nothing locked whose quote is known. */
  lemma DepositSteps(w: Ledger, baseAtoms: U64, shares: U64)
    requires w.vault.ValidateState().Ok? && !w.vault.depositsPaused && w.vault.depositCap == 0
    requires w.vault.totalAssets + baseAtoms <= U64_MAX && w.supply + shares <= U64_MAX && SupplyFits(w)
    requires w.vault.EffectiveTotalAssets(w.now).Ok?
    requires SharesForDeposit(baseAtoms, w.vault.EffectiveTotalAssets(w.now).value, Economic(w), w.vault.baseDecimals)
             == Ok(shares)
    requires VerifySharePrice(w.vault.EffectiveTotalAssets(w.now).value, Economic(w)).Ok?
    ensures ApplyDeposit(w, baseAtoms, 0, true)
            == Ok(w.(vault := w.vault.(totalAssets := w.vault.totalAssets + baseAtoms), supply := w.supply + shares,
                     inflow := w.inflow + baseAtoms))
  {
    hide SharesForDeposit, VerifySharePrice, VaultState.EffectiveTotalAssets, VaultState.ValidateState;
  }

  const UNLOCKING := Controls(100, 0, 0, 0, 0, 0, 0)

  /** A vault of 9 decimals that took 10 atoms in. */
  ghost function Funded(): Ledger {
    var w := Initialised(9, UNLOCKING);
    w.(vault := w.vault.(totalAssets := 10), supply := 10, inflow := 10)
  }

  /** The same, 100 seconds later and just told of a gain of 10 atoms. */
  ghost function Gained(): Ledger {
    var w := Funded();
    w.(vault := w.vault.(totalAssets := 20, highWatermark := 2_000_000_000, reportEpoch := 1, lastUpdateTs := 100,
                         lockedProfit := 10, profitUnlockStartTs := 100, profitUnlockEndTs := 200),
       now := 100)
  }

  ghost function Opening(): seq<Step> {
    [Deposit(10, 0, true), Advance(100, 0), Report(NavReport(false, false, 10, 0, true, 10))]
  }

  lemma GainIsReported()
    ensures ApplyReport(Funded().(now := 100), NavReport(false, false, 10, 0, true, 10)) == Ok(Gained())
  {
    var w := Funded().(now := 100);
    assert PerformanceFeeForNav(20, 10, 0, 0) == Ok(FeeSplit(0, 20, 2_000_000_000));
    assert w.vault.EffectiveTotalAssets(100) == Ok(10);
  }

  lemma FundingSteps()
    ensures ApplyDeposit(Initialised(9, UNLOCKING), 10, 0, true) == Ok(Funded())
    ensures ApplyAdvance(Funded(), 100, 0) == Ok(Funded().(now := 100))
  {
    var w := Initialised(9, UNLOCKING);
    assert w.vault.EffectiveTotalAssets(0) == Ok(0);
    assert VerifySharePrice(0, 0).Ok?;
    SharesForDepositExactly(10, 0, 0, 9, 10);
    DepositSteps(w, 10, 10);
  }

  lemma OpeningRuns()
    ensures Run(Initialised(9, UNLOCKING), Opening()) == Ok(Gained())
  {
    hide ApplyReport, ApplyDeposit, Initialised, Funded, Gained;
    FundingSteps();
    GainIsReported();
    RunThree(Initialised(9, UNLOCKING), Funded(), Funded().(now := 100), Gained(),
             Deposit(10, 0, true), Advance(100, 0), Report(NavReport(false, false, 10, 0, true, 10)));
  }

  /** Deposit 10 atoms into it, wait until the gain has unlocked, and exit with what they bought. */
  ghost function RideUnlock(): seq<Step> {
    [Deposit(10, 0, true), Advance(100, 0), AtomicRedeem(10, Unwind(10, 0, 14, 0))]
  }

  ghost function Joined(): Ledger {
    Gained().(vault := Gained().vault.(totalAssets := 30), supply := 20, inflow := 20)
  }

  ghost function Ridden(): Ledger {
    Joined().(vault := Joined().vault.(totalAssets := 16, lockedProfit := 0), supply := 10, outflow := 14, now := 200)
  }

  lemma ExitIsPaid()
    ensures ApplyAtomicRedeem(Joined().(now := 200), 10, Unwind(10, 0, 14, 0)) == Ok(Ridden())
  {
    var w := Joined().(now := 200);
    assert w.vault.EffectiveTotalAssets(200) == Ok(30);
    assert AssetsForShares(10, 30, 20, 9) == Ok(14);
    assert BpsCeil(14, 0) == Ok(0);
  }

  /** The unlocking profit in the bound on payouts is not idle: this report-free run restores the
      economic supply and pays out 14 atoms for the 10 it took in. */
  lemma PayoutsCanExceedDeposits()
    ensures Run(Initialised(9, UNLOCKING), Opening()) == Ok(Gained())
    ensures ReportFree(RideUnlock()) && Run(Gained(), RideUnlock()) == Ok(Ridden())
    ensures Economic(Ridden()) == Economic(Gained())
    ensures Ridden().inflow - Gained().inflow == 10 && Ridden().outflow - Gained().outflow == 14
  {
    hide ApplyAtomicRedeem, ApplyDeposit, Initialised, Gained, Joined, Ridden;
    OpeningRuns();
    JoiningSteps();
    ExitIsPaid();
    RideMoves();
    RunThree(Gained(), Joined(), Joined().(now := 200), Ridden(),
             Deposit(10, 0, true), Advance(100, 0), AtomicRedeem(10, Unwind(10, 0, 14, 0)));
  }

  lemma JoiningSteps()
    ensures ApplyDeposit(Gained(), 10, 0, true) == Ok(Joined())
    ensures ApplyAdvance(Joined(), 100, 0) == Ok(Joined().(now := 200))
  {
    assert Gained().vault.EffectiveTotalAssets(100) == Ok(10);
    assert VerifySharePrice(10, 10).Ok?;
    SharesForDepositExactly(10, 10, 10, 9, 10);
    DepositSteps(Gained(), 10, 10);
  }

  lemma RideMoves()
    ensures Economic(Ridden()) == Economic(Gained())
    ensures Ridden().inflow - Gained().inflow == 10 && Ridden().outflow - Gained().outflow == 14
  {
  }

  const PLAIN := Controls(0, 0, 0, 0, 0, 0, 0)

  const TEN_16: U64 := 10_000_000_000_000_000
  const TEN_19: U64 := 10_000_000_000_000_000_000

  /** A vault of 6 decimals after a deposit of 10^16 atoms, which buys 10^19 shares. */
  ghost function Large(): Ledger {
    var w := Initialised(6, PLAIN);
    w.(vault := w.vault.(totalAssets := TEN_16), supply := TEN_19, inflow := TEN_16)
  }

  /** All of them queued for withdrawal. */
  ghost function LargeQueued(key: TicketKey): Ledger {
    Large().(vault := Large().vault.(requestedWithdrawalShares := TEN_19), supply := 0,
             tickets := map[key := Ticket(TEN_19, 0, 0, 0)])
  }

  /** The same deposit again: nothing circulates, so the share mint has room, but the economic
      supply has not. */
  ghost function Overminted(key: TicketKey): Ledger {
    LargeQueued(key).(vault := LargeQueued(key).vault.(totalAssets := 2 * TEN_16), supply := TEN_19,
                      inflow := 2 * TEN_16)
  }

  lemma ThousandShares()
    ensures Offset(6) == 1000
  {
    assert TenTo(1) == 10 && TenTo(2) == 100;
  }

  lemma LargeDeposit()
    ensures ApplyDeposit(Initialised(6, PLAIN), TEN_16, 0, true) == Ok(Large())
  {
    var w := Initialised(6, PLAIN);
    assert w.vault.EffectiveTotalAssets(0) == Ok(0);
    assert VerifySharePrice(0, 0).Ok?;
    ThousandShares();
    SharesForDepositExactly(TEN_16, 0, 0, 6, TEN_19);
    DepositSteps(w, TEN_16, TEN_19);
  }

  lemma LargeRedeem(key: TicketKey)
    ensures ApplyRedeem(Large(), key, TEN_19) == Ok(LargeQueued(key))
  {
    hide Offset;
    var w := Large();
    assert w.vault.EffectiveTotalAssets(0) == Ok(TEN_16);
    ThousandShares();
    assert AssetsForShares(TEN_19, TEN_16, TEN_19, 6).Ok? && AssetsForShares(TEN_19, TEN_16, TEN_19, 6).value != 0;
    assert map[][key := Ticket(TEN_19, 0, 0, 0)] == map[key := Ticket(TEN_19, 0, 0, 0)];
  }

  lemma LargeDepositAgain(key: TicketKey)
    ensures ApplyDeposit(LargeQueued(key), TEN_16, 0, true) == Ok(Overminted(key))
  {
    var w := LargeQueued(key);
    assert w.vault.EffectiveTotalAssets(0) == Ok(TEN_16);
    assert SharePriceFromAssets(TEN_16, TEN_19) == Ok(1_000_000);
    ThousandShares();
    SharesForDepositExactly(TEN_16, TEN_16, TEN_19, 6, TEN_19);
    DepositSteps(w, TEN_16, TEN_19);
  }

  /** The shares by which the one ticket in it does not fit beside the circulating supply. */
  const OVERHANG: U64 := 2 * TEN_19 - U64_MAX

  /** Three accepted instructions from initialisation take the economic supply past u64. The vault
      they leave is wedged, and after any further run in which holders burn less than the
      overhang its one ticket can neither be cancelled nor settled, by whatever custody. */
  lemma AVaultCanWedge(key: TicketKey, steps: seq<Step>, minSharesOut: U64, custody: U64)
    ensures Genesis(Initialised(6, PLAIN))
    ensures Run(Initialised(6, PLAIN), [Deposit(TEN_16, 0, true), Redeem(key, TEN_19), Deposit(TEN_16, 0, true)])
            == Ok(Overminted(key))
    ensures Wedged(Overminted(key)) && Crowded(Overminted(key), key) && Overhang(Overminted(key), key) == OVERHANG
    ensures Run(Overminted(key), steps).Ok? && Burnt(steps) < OVERHANG ==>
              var w := Run(Overminted(key), steps).value;
              && AllStill(steps) && key in w.tickets
              && ApplyCancel(w, key, minSharesOut).Err? && ApplySettle(w, [key], custody).Err?
              && w.vault.totalAssets == 2 * TEN_16
  {
    hide ApplyDeposit, ApplyRedeem, ApplyCancel, ApplySettle, Run, Inv, Burnt;
    LargeDeposit();
    LargeRedeem(key);
    LargeDepositAgain(key);
    var opening := [Deposit(TEN_16, 0, true), Redeem(key, TEN_19), Deposit(TEN_16, 0, true)];
    RunThree(Initialised(6, PLAIN), Large(), LargeQueued(key), Overminted(key), opening[0], opening[1], opening[2]);
    Reached(Initialised(6, PLAIN), opening);
    if Run(Overminted(key), steps).Ok? && Burnt(steps) < OVERHANG {
      CrowdedUntilBurnt(Overminted(key), key, steps, minSharesOut, [key], custody);
      WedgedUntilBurnt(Overminted(key), steps);
    }
  }

  const RESCUE: U64 := 2_000_000_000_000_000_000

  /** Two steps that holders alone can take: burn a fifth of what circulates, and wait 150 slots. */
  ghost function Rescue(): seq<Step> {
    [HolderBurn(RESCUE), Advance(0, 150)]
  }

  ghost function Rescued(key: TicketKey): Ledger {
    Overminted(key).(supply := TEN_19 - RESCUE, slot := 150)
  }

  ghost function Restored(key: TicketKey): Ledger {
    Rescued(key).(vault := Rescued(key).vault.(requestedWithdrawalShares := 0), supply := 2 * TEN_19 - RESCUE,
                  tickets := map[])
  }

  lemma RescueSteps(key: TicketKey)
    ensures Run(Overminted(key), Rescue()) == Ok(Rescued(key))
    ensures ApplyCancel(Rescued(key), key, TEN_19) == Ok(Restored(key))
  {
    hide ApplyCancel;
    RunExtends(Overminted(key), [], HolderBurn(RESCUE));
    RunExtends(Overminted(key), [HolderBurn(RESCUE)], Advance(0, 150));
    assert [] + [HolderBurn(RESCUE)] == [HolderBurn(RESCUE)];
    assert [HolderBurn(RESCUE)] + [Advance(0, 150)] == Rescue();
    RescuedCancels(key);
  }

  lemma RescuedCancels(key: TicketKey)
    ensures ApplyCancel(Rescued(key), key, TEN_19) == Ok(Restored(key))
  {
    assert map[key := Ticket(TEN_19, 0, 0, 0)] - {key} == map[];
  }

  lemma RescuedReports(key: TicketKey)
    ensures ApplyReport(Rescued(key), NavReport(false, false, 2 * TEN_16, 0, true, 0)).Ok?
  {
    var w := Rescued(key);
    assert w.vault.EffectiveTotalAssets(0) == Ok(2 * TEN_16);
    assert SharePriceFromAssets(2 * TEN_16, 2 * TEN_19 - RESCUE).Ok? by {
      MulLe(1, 2 * TEN_19 - RESCUE, U64_MAX + 1);
    }
    assert PerformanceFeeForNav(2 * TEN_16, 2 * TEN_19 - RESCUE, 0, 0).Ok?;
  }

  /** The wedge is not for good: in the same vault holders can burn their way out, after which a
      report goes through and the ticket is cancelled. */
  lemma AWedgeCanEnd(key: TicketKey)
    ensures Run(Overminted(key), Rescue()) == Ok(Rescued(key)) && SupplyFits(Rescued(key))
    ensures ApplyReport(Rescued(key), NavReport(false, false, 2 * TEN_16, 0, true, 0)).Ok?
    ensures ApplyCancel(Rescued(key), key, TEN_19).Ok?
  {
    hide ApplyReport, ApplyCancel, Run;
    RescueSteps(key);
    RescuedReports(key);
  }

  /** The room in the no-trace theorem is not idle: here a redemption is followed by a run and then
      cancelled, all accepted, and the same run is refused at its first step without the pair. */
  lemma NoTraceNeedsRoom(key: TicketKey)
    ensures ApplyRedeem(Large(), key, TEN_19) == Ok(LargeQueued(key))
    ensures Run(LargeQueued(key), [Deposit(TEN_16, 0, true)] + Rescue()) == Ok(Rescued(key))
    ensures ApplyCancel(Rescued(key), key, TEN_19).Ok?
    ensures Run(Large(), [Deposit(TEN_16, 0, true)]) == Err(TokenProgramFailure)
    ensures Run(Large(), [Deposit(TEN_16, 0, true)] + Rescue()).Err?
  {
    hide ApplyDeposit, ApplyRedeem, ApplyCancel;
    LargeRedeem(key);
    LargeDepositAgain(key);
    LargeDepositRefused();
    RescueSteps(key);
    var steps := [Deposit(TEN_16, 0, true)] + Rescue();
    assert [Deposit(TEN_16, 0, true), HolderBurn(RESCUE), Advance(0, 150)] == steps;
    RunThree(LargeQueued(key), Overminted(key), Overminted(key).(supply := TEN_19 - RESCUE), Rescued(key),
             Deposit(TEN_16, 0, true), HolderBurn(RESCUE), Advance(0, 150));
    RunExtends(Large(), [], Deposit(TEN_16, 0, true));
    assert [] + [Deposit(TEN_16, 0, true)] == [Deposit(TEN_16, 0, true)];
    RunExtends(Large(), [Deposit(TEN_16, 0, true)], HolderBurn(RESCUE));
    RunExtends(Large(), [Deposit(TEN_16, 0, true)] + [HolderBurn(RESCUE)], Advance(0, 150));
    assert [Deposit(TEN_16, 0, true)] + [HolderBurn(RESCUE)] + [Advance(0, 150)] == steps;
  }

  lemma LargeDepositRefused()
    ensures ApplyDeposit(Large(), TEN_16, 0, true) == Err(TokenProgramFailure)
  {
    hide Offset, SharesForDeposit, SharePriceFromAssets;
    var w := Large();
    assert w.vault.EffectiveTotalAssets(0) == Ok(TEN_16);
    LargePrices();
  }

  lemma LargePrices()
    ensures SharePriceFromAssets(TEN_16, TEN_19) == Ok(1_000_000)
    ensures SharesForDeposit(TEN_16, TEN_16, TEN_19, 6) == Ok(TEN_19)
  {
    ThousandShares();
    SharesForDepositExactly(TEN_16, TEN_16, TEN_19, 6, TEN_19);
  }

  lemma Reached(w: Ledger, steps: seq<Step>)
    requires Genesis(w) && Run(w, steps).Ok?
    ensures Inv(Run(w, steps).value)
  {
    hide Inv, Run;
    ReachableStates(w, steps);
  }

  const GRACE := Controls(0, 0, 0, 151, 0, 0, 0)

  /** A share bought and queued 150 slots before the slot counter ends. */
  ghost function Late(): Ledger {
    var w := Initialised(9, GRACE);
    w.(vault := w.vault.(totalAssets := 1), supply := 1, inflow := 1, slot := U64_MAX - 150)
  }

  ghost function LateQueued(key: TicketKey): Ledger {
    Late().(vault := Late().vault.(requestedWithdrawalShares := 1), supply := 0,
            tickets := map[key := Ticket(1, 0, 0, U64_MAX - 150)])
  }

  ghost function LateRun(key: TicketKey): seq<Step> {
    [Deposit(1, 0, true), Advance(0, U64_MAX - 150), Redeem(key, 1), Advance(0, 150)]
  }

  lemma LateRuns(key: TicketKey)
    ensures Run(Initialised(9, GRACE), LateRun(key)) == Ok(LateQueued(key).(slot := U64_MAX))
  {
    hide ApplyDeposit, ApplyRedeem;
    LateDeposit();
    LateRedeem(key);
    var early := Late().(slot := 0);
    RunThree(Initialised(9, GRACE), early, Late(), LateQueued(key),
             Deposit(1, 0, true), Advance(0, U64_MAX - 150), Redeem(key, 1));
    RunExtends(Initialised(9, GRACE), [Deposit(1, 0, true), Advance(0, U64_MAX - 150), Redeem(key, 1)],
               Advance(0, 150));
    assert LateRun(key)
        == [Deposit(1, 0, true), Advance(0, U64_MAX - 150), Redeem(key, 1)] + [Advance(0, 150)];
  }

  lemma LateDeposit()
    ensures ApplyDeposit(Initialised(9, GRACE), 1, 0, true) == Ok(Late().(slot := 0))
  {
    var w := Initialised(9, GRACE);
    assert w.vault.EffectiveTotalAssets(0) == Ok(0);
    assert VerifySharePrice(0, 0).Ok?;
    SharesForDepositExactly(1, 0, 0, 9, 1);
    DepositSteps(w, 1, 1);
  }

  lemma LateRedeem(key: TicketKey)
    ensures ApplyRedeem(Late(), key, 1) == Ok(LateQueued(key))
  {
    assert Late().vault.EffectiveTotalAssets(0) == Ok(1);
    assert AssetsForShares(1, 1, 1, 9) == Ok(1);
    assert map[][key := Ticket(1, 0, 0, U64_MAX - 150)] == map[key := Ticket(1, 0, 0, U64_MAX - 150)];
  }

  /** The counters condition of ticket progress is not idle either: in this reachable state, with
      the economic supply at one share, an open ticket whose slot delay has passed is out of reach
      of both instructions, because the grace slot of a ticket that is not even eligible for a
      strike overflows. */
  lemma StrandedTicket(key: TicketKey, minSharesOut: U64, custody: U64)
    ensures Run(Initialised(9, GRACE), LateRun(key)) == Ok(LateQueued(key).(slot := U64_MAX))
    ensures var w := LateQueued(key).(slot := U64_MAX);
            && Inv(w) && SupplyFits(w)
            && w.slot >= w.tickets[key].requestSlot + REDEEM_CANCEL_DELAY_SLOTS
            && ApplyCancel(w, key, minSharesOut) == Err(Overflow)
            && ApplySettle(w, [key], custody).Err?
  {
    hide ApplySettle, Run;
    LateRuns(key);
    Reached(Initialised(9, GRACE), LateRun(key));
    var w := LateQueued(key).(slot := U64_MAX);
    SettleSucceedsExactly(w, [key], custody);
    assert !StrikeEligible(w.vault, w.tickets[[key][0]]);
  }
}

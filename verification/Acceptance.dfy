/** Exactly when each accounting instruction is accepted, on the stored fields and the arguments,
    and what an accepted one changes. Settlement has its own condition in `Invariant`. */
module Acceptance {
  import opened Outcome
  import opened Rounding
  import opened Pricing
  import opened Fees
  import opened Vaults
  import opened Drip
  import opened Machine
  import opened Queue
  import opened Invariant
  import opened SharePrice

  /** Open, under the cap, priced above zero, and worth at least a share, the minimum asked for,
      and no more than the share mint has room for. */
  ghost predicate DepositFits(w: Ledger, baseAtoms: U64, minSharesOut: U64)
    requires w.vault.baseDecimals <= SHARE_DECIMALS
  {
    && !w.vault.depositsPaused
    && w.vault.totalAssets + baseAtoms <= U64_MAX
    && (w.vault.depositCap == 0 || w.vault.totalAssets + baseAtoms <= w.vault.depositCap)
    && Economic(w) <= U64_MAX
    && (Economic(w) == 0 || Economic(w) <= Effective(w.vault, w.now) * SHARE_SCALE < (U64_MAX + 1) * Economic(w))
    && baseAtoms * Shares(w) <= U128_MAX
    && Assets(w) <= baseAtoms * Shares(w)
    && minSharesOut * Assets(w) <= baseAtoms * Shares(w) < (U64_MAX - w.supply + 1) * Assets(w)
  }

  lemma DepositSucceedsExactly(w: Ledger, baseAtoms: U64, minSharesOut: U64, admitted: bool)
    requires Inv(w)
    ensures ApplyDeposit(w, baseAtoms, minSharesOut, admitted).Ok?
            <==> admitted && DepositFits(w, baseAtoms, minSharesOut)
  {
    hide SharesForDeposit, SharePriceFromAssets, SharesQueued, Offset, VaultState.UnlockLine;
    EffectiveNeverErrs(w.vault, w.now, w.now);
    if Economic(w) <= U64_MAX {
      var effective := Effective(w.vault, w.now);
      PricedAboveZero(effective, Economic(w));
      QuoteFits(baseAtoms, effective, Economic(w), w.vault.baseDecimals, minSharesOut, w.supply);
    }
  }

  /** A share price is zero exactly when the assets do not make one price unit a share. */
  lemma PricedAboveZero(assets: U64, shares: U64)
    ensures VerifySharePrice(assets, shares).Ok?
            <==> shares == 0 || shares <= assets * SHARE_SCALE < (U64_MAX + 1) * shares
  {
    hide SharePriceFromAssets;
    if shares != 0 && SharePriceFromAssets(assets, shares).Ok? {
      var price: int := SharePriceFromAssets(assets, shares).value;
      if price >= 1 {
        MulLe(1, price, shares);
      }
    }
  }

  lemma QuoteFits(b: U64, assets: U64, shares: U64, baseDecimals: U8, min: U64, supply: U64)
    requires baseDecimals <= SHARE_DECIMALS
    ensures var quote := SharesForDeposit(b, assets, shares, baseDecimals);
            var product := b * (shares + Offset(baseDecimals));
            quote.Ok? && min <= quote.value && supply + quote.value <= U64_MAX
            <==> && product <= U128_MAX && assets + 1 <= product
                 && min * (assets + 1) <= product < (U64_MAX - supply + 1) * (assets + 1)
  {
    hide SharesForDeposit, Offset;
    var quote, product := SharesForDeposit(b, assets, shares, baseDecimals), b * (shares + Offset(baseDecimals));
    if quote.Ok? {
      SharesForDepositExactly(b, assets, shares, baseDecimals, quote.value);
      QuoteReaches(quote.value, product, assets + 1, min, supply);
    } else {
      SharesForDepositErrs(b, assets, shares, baseDecimals);
      NoQuoteReaches(quote.error, product, assets + 1, supply);
    }
  }

  lemma NoQuoteReaches(error: Error, x: int, d: int, supply: U64)
    requires 0 < d
    requires error == if x > U128_MAX then Overflow else if (U64_MAX + 1) * d <= x then ResultDoesNotFit else ZeroOutput
    requires error == ZeroOutput ==> x < d
    ensures !(x <= U128_MAX && d <= x < (U64_MAX - supply + 1) * d)
  {
    MulLe(U64_MAX - supply + 1, U64_MAX + 1, d);
  }

  lemma QuoteReaches(q: nat, x: int, d: int, min: int, supply: U64)
    requires 0 < d && 1 <= q && q * d <= x < (q + 1) * d
    ensures d <= x
    ensures min <= q && supply + q <= U64_MAX <==> min * d <= x < (U64_MAX - supply + 1) * d
  {
    QuoteBounds(q, x, d, 1);
    QuoteBounds(q, x, d, min);
    QuoteBounds(q, x, d, U64_MAX - supply + 1);
  }

  /** A floor reaches a bound exactly when the dividend does. */
  lemma QuoteBounds(q: nat, x: int, d: int, bound: int)
    requires 0 < d && q * d <= x < (q + 1) * d
    ensures bound <= q <==> bound * d <= x
  {
    if bound <= q {
      MulLe(bound, q, d);
    } else {
      MulLe(q + 1, bound, d);
    }
  }

  /** A redemption request is accepted exactly for a free ticket address, while withdrawals are
      open, for circulating shares worth at least an atom. */
  lemma RedeemSucceedsExactly(w: Ledger, key: TicketKey, shares: U64)
    requires Inv(w)
    ensures ApplyRedeem(w, key, shares).Ok?
            <==> && key !in w.tickets && !w.vault.withdrawalsPaused
                 && 0 < shares <= w.supply && Economic(w) <= U64_MAX
                 && Shares(w) <= shares * Assets(w)
  {
    hide AssetsForShares, SharesQueued, Offset, VaultState.UnlockLine;
    EffectiveNeverErrs(w.vault, w.now, w.now);
    if Economic(w) <= U64_MAX && shares <= w.supply {
      EntitledExactly(w, shares, 1);
    }
  }

  /** Shares entitle to an amount exactly when they are worth it. */
  lemma EntitledExactly(w: Ledger, shares: U64, amount: int)
    requires Inv(w) && Economic(w) <= U64_MAX && shares <= Economic(w)
    ensures 0 <= Effective(w.vault, w.now) <= U64_MAX
    ensures var owed := AssetsForShares(shares, Effective(w.vault, w.now), Economic(w), w.vault.baseDecimals);
            owed.Ok? && (amount <= owed.value <==> amount * Shares(w) <= shares * Assets(w))
  {
    hide AssetsForShares, SharesQueued, VaultState.UnlockLine;
    EffectiveNeverErrs(w.vault, w.now, w.now);
    OffsetBounds(w.vault.baseDecimals);
    var owed := AssetsForShares(shares, Effective(w.vault, w.now), Economic(w), w.vault.baseDecimals).value;
    QuoteBounds(owed, shares * Assets(w), Shares(w), amount);
  }

  /** A cancellation is accepted exactly 150 slots after the request or later, if the counters it
      adds fit, a strike is not due or its grace has elapsed, the ticket holds what was asked for,
      and its shares fit back into circulation. */
  lemma CancelSucceedsExactlyWhen(w: Ledger, key: TicketKey, minSharesOut: U64)
    requires Inv(w)
    ensures ApplyCancel(w, key, minSharesOut).Ok?
            <==> && key in w.tickets
                 && var ticket, grace := w.tickets[key], w.vault.controls.cancelGraceSlots;
                    && ticket.requestSlot + 150 <= w.slot
                    && ticket.requestEpoch + 1 <= U64_MAX
                    && (grace > 0 ==> ticket.requestSlot + grace <= U64_MAX)
                    && (ticket.requestEpoch + 1 <= w.vault.reportEpoch ==> 0 < grace <= w.slot - ticket.requestSlot)
                    && minSharesOut <= ticket.sharesBurned
                    && w.supply + ticket.sharesBurned <= U64_MAX
  {
    hide SharesQueued;
    if key in w.tickets {
      QueuedWithout(w.tickets, key);
    }
  }

  /** And it changes nothing but this: the shares are back in circulation, out of the queue, and
      the ticket is gone. */
  lemma CancelMovesTheShares(w: Ledger, key: TicketKey, minSharesOut: U64)
    requires Inv(w) && ApplyCancel(w, key, minSharesOut).Ok?
    ensures key in w.tickets
    ensures var w', shares := ApplyCancel(w, key, minSharesOut).value, w.tickets[key].sharesBurned;
            && w'.supply == w.supply + shares
            && w'.vault.requestedWithdrawalShares == w.vault.requestedWithdrawalShares - shares
            && w'.tickets == w.tickets - {key}
            && w' == w.(supply := w'.supply, tickets := w'.tickets,
                        vault := w.vault.(requestedWithdrawalShares := w'.vault.requestedWithdrawalShares))
  {
    hide CancelGate, SharesQueued;
  }

  /** An atomic exit is accepted exactly while withdrawals are open and the last report is young
      enough, for circulating shares the owner holds, worth an atom, the route's amount and what
      it received, if the received less the exit fee reaches the minimum. */
  lemma AtomicRedeemSucceedsExactly(w: Ledger, shares: U64, unwind: Unwind)
    requires Inv(w)
    ensures ApplyAtomicRedeem(w, shares, unwind).Ok?
            <==> && !w.vault.withdrawalsPaused
                 && 0 < shares <= w.supply && shares <= unwind.ownerBalance && Economic(w) <= U64_MAX
                 && (w.vault.reportEpoch == 0 || w.vault.controls.maxReportAgeSecs == 0
                     || w.now - w.vault.lastUpdateTs <= w.vault.controls.maxReportAgeSecs)
                 && Shares(w) <= shares * Assets(w)
                 && unwind.withdrawalAmount * Shares(w) <= shares * Assets(w)
                 && unwind.received * Shares(w) <= shares * Assets(w)
                 && unwind.received * w.vault.controls.atomicRedeemFeeBps
                     <= (unwind.received - unwind.minOutput) * 10_000
  {
    hide AssetsForShares, BpsCeil, SharesQueued, Offset, VaultState.UnlockLine, VaultState.DebitAssetsAtEffective;
    EffectiveNeverErrs(w.vault, w.now, w.now);
    if Economic(w) <= U64_MAX && shares <= w.supply {
      EntitledExactly(w, shares, 1);
      EntitledExactly(w, shares, unwind.withdrawalAmount);
      EntitledExactly(w, shares, unwind.received);
      ExitFeeFits(unwind.received, w.vault.controls.atomicRedeemFeeBps, unwind.minOutput);
    } else if ApplyAtomicRedeem(w, shares, unwind).Ok? {
      OversoldExitFails(w, shares, unwind);
    }
  }

  lemma OversoldExitFails(w: Ledger, shares: U64, unwind: Unwind)
    requires Economic(w) > U64_MAX || shares > w.supply
    ensures ApplyAtomicRedeem(w, shares, unwind).Err?
  {
    hide AssetsForShares, BpsCeil, VaultState.RemainingLockedProfit, VaultState.DebitAssetsAtEffective;
  }

  lemma ExitFeeFits(received: U64, bps: U16, min: U64)
    requires bps <= BPS_DENOMINATOR
    ensures BpsCeil(received, bps).Ok?
    ensures min <= received - BpsCeil(received, bps).value <==> received * bps <= (received - min) * 10_000
  {
    hide BpsCeil;
    BpsBounds(received, bps);
  }

  /** The payout is what was received less exactly the exit fee rate on it, rounded up. */
  lemma AtomicRedeemPaysExactly(w: Ledger, shares: U64, unwind: Unwind)
    requires Inv(w) && ApplyAtomicRedeem(w, shares, unwind).Ok?
    ensures var w' := ApplyAtomicRedeem(w, shares, unwind).value;
            var fee := unwind.received - (w'.outflow - w.outflow);
            (fee - 1) * 10_000 < unwind.received * w.vault.controls.atomicRedeemFeeBps <= fee * 10_000
  {
    hide RedeemEntitlement, BpsCeil, SharesQueued, VaultState.UnlockLine, VaultState.DebitAssetsAtEffective;
  }

  /** Gross NAV is the idle base, counted once when both roles share a custody, plus the external
      value, if that fits u64. */
  lemma GrossIsExact(report: NavReport, gross: U64)
    ensures GrossNav(report) == Ok(gross)
            <==> gross == report.depositIdle + (if report.sharedCustody then 0 else report.withdrawIdle)
                          + report.externalValue
  {
  }

  /** The base of the fee is the gross less everything owed already: fees payable and withdrawals
      struck but not paid. */
  lemma FeeBaseIsExact(v: VaultState, gross: U64, base: U64)
    ensures FeeBase(v, gross) == Ok(base) <==> base + v.feesPayable + v.pendingWithdrawalAssets == gross
  {
  }

  /** A vault account loads exactly with rates of at most 100%, at most 9 base decimals, locked profit
      inside total assets, and an unlock window that does not run backwards. */
  lemma LoadsExactly(v: VaultState)
    ensures v.ValidateState().Ok?
            <==> && v.performanceFeeBps <= 10_000 && v.controls.atomicRedeemFeeBps <= 10_000
                 && v.controls.maxSwapSlippageBps <= 10_000 && v.baseDecimals <= 9
                 && v.lockedProfit <= v.totalAssets && v.profitUnlockStartTs <= v.profitUnlockEndTs
  {
  }

  /** Recovery is open exactly while deposits are paused and outstanding shares are priced at
      zero. */
  lemma RecoveryIsOpenExactly(v: VaultState, economic: U64)
    ensures VerifyRecovery(v, economic).Ok? <==> v.depositsPaused && v.totalAssets * SHARE_SCALE < economic
  {
    hide SharePriceFromAssets;
    if economic != 0 {
      MulLe(economic, U64_MAX, 1);
      MulLe(1, U64_MAX + 1, economic);
      if SharePriceFromAssets(v.totalAssets, economic).Ok? {
        var price: int := SharePriceFromAssets(v.totalAssets, economic).value;
        if price >= 1 {
          MulLe(1, price, economic);
        }
      }
    }
  }

  /** The gross a report claims, over the integers. */
  ghost function Gross(report: NavReport): nat {
    report.depositIdle + (if report.sharedCustody then 0 else report.withdrawIdle) + report.externalValue
  }

  /** What a report recognises once the fee is carved out of its base. */
  ghost function Recognised(w: Ledger, report: NavReport): Result<FeeSplit>
    requires Economic(w) <= U64_MAX
  {
    var base := Gross(report) - w.vault.feesPayable - w.vault.pendingWithdrawalAssets;
    if 0 <= base <= U64_MAX then
      PerformanceFeeForNav(base, Economic(w), w.vault.highWatermark, w.vault.performanceFeeBps)
    else Err(InvalidVaultState)
  }

  /** A report is accepted exactly when it comes an interval after the last, names a report hash,
      covers what is owed already, is priced inside u64, keeps to the gain bound unless it is an
      open recovery, and neither the epoch nor the unlock window runs out of its integer. */
  ghost predicate ReportFits(w: Ledger, report: NavReport)
  {
    var v, controls := w.vault, w.vault.controls;
    && (v.reportEpoch == 0 || controls.minReportIntervalSecs == 0
        || controls.minReportIntervalSecs <= w.now - v.lastUpdateTs)
    && Economic(w) <= U64_MAX
    && (report.recovery ==> v.depositsPaused && v.totalAssets * SHARE_SCALE < Economic(w))
    && !report.emptyHash
    && v.feesPayable + v.pendingWithdrawalAssets <= Gross(report) <= U64_MAX
    && var base := Gross(report) - v.feesPayable - v.pendingWithdrawalAssets;
    && (Economic(w) == 0 || base * SHARE_SCALE < (U64_MAX + 1) * Economic(w))
    && Recognised(w, report).Ok?
    && var net := Recognised(w, report).value.net;
    && (!report.recovery && controls.maxNavGainBps > 0 && Economic(w) > 0 ==>
          net * 10_000 <= v.totalAssets * (10_000 + controls.maxNavGainBps))
    && v.reportEpoch < U64_MAX
    && (net > Effective(v, w.now) ==>
          w.now + Min(w.now - v.lastUpdateTs, controls.maxUnlockDurationSecs) <= I64_MAX)
  }

  lemma ReportSucceedsExactly(w: Ledger, report: NavReport)
    requires Inv(w)
    ensures ApplyReport(w, report).Ok? <==> ReportFits(w, report)
  {
    hide PerformanceFeeForNav, VerifyRecovery, GrossNav, SharesQueued, VaultState.UnlockLine,
         VaultState.ApplyReportedNav;
    EffectiveNeverErrs(w.vault, w.now, w.now);
    if Economic(w) <= U64_MAX {
      RecoveryIsOpenExactly(w.vault, Economic(w));
      if Gross(report) <= U64_MAX {
        GrossIsExact(report, Gross(report));
        var base := Gross(report) - w.vault.feesPayable - w.vault.pendingWithdrawalAssets;
        if base >= 0 {
          FeeErrsExactly(base, Economic(w), w.vault.highWatermark, w.vault.performanceFeeBps);
          var split := PerformanceFeeForNav(base, Economic(w), w.vault.highWatermark, w.vault.performanceFeeBps);
          if split.Ok? && w.vault.reportEpoch < U64_MAX {
            var accrued := w.vault.(feesPayable := w.vault.feesPayable + split.value.fee,
                                    highWatermark := split.value.highWatermark, reportEpoch := w.vault.reportEpoch + 1);
            SameLine(w.vault, accrued, w.now);
            ReportSetsEffective(accrued, split.value.net, w.now);
          }
        }
      } else if GrossNav(report).Ok? {
        GrossIsExact(report, GrossNav(report).value);
      }
    }
  }

  /** A collection goes through exactly for a positive amount inside both the payable and custody,
      and takes it off the payable and nothing else. */
  lemma CollectionSucceedsExactly(w: Ledger, amount: U64, custody: U64)
    requires Inv(w)
    ensures ApplyCollectFees(w, amount, custody).Ok? <==> 0 < amount <= w.vault.feesPayable && amount <= custody
    ensures ApplyCollectFees(w, amount, custody).Ok? ==>
              var w' := ApplyCollectFees(w, amount, custody).value;
              && w'.vault.feesPayable == w.vault.feesPayable - amount
              && w' == w.(vault := w.vault.(feesPayable := w'.vault.feesPayable))
  {
    hide SharesQueued;
  }

  /** So does a write-down, without any custody behind it. */
  lemma WriteDownSucceedsExactly(w: Ledger, amount: U64)
    requires Inv(w)
    ensures ApplyWriteDownFees(w, amount).Ok? <==> 0 < amount <= w.vault.feesPayable
    ensures ApplyWriteDownFees(w, amount).Ok? ==>
              var w' := ApplyWriteDownFees(w, amount).value;
              && w'.vault.feesPayable == w.vault.feesPayable - amount
              && w' == w.(vault := w.vault.(feesPayable := w'.vault.feesPayable))
  {
    hide SharesQueued;
  }

  /** A reconfiguration goes through exactly with rates of at most 100%, and touches no balance. */
  lemma ConfigureSucceedsExactly(w: Ledger, settings: Settings)
    requires Inv(w)
    ensures ApplyConfigure(w, settings).Ok?
            <==> && settings.performanceFeeBps <= 10_000 && settings.controls.atomicRedeemFeeBps <= 10_000
                 && settings.controls.maxSwapSlippageBps <= 10_000
    ensures ApplyConfigure(w, settings).Ok? ==>
              var v' := ApplyConfigure(w, settings).value.vault;
              && ApplyConfigure(w, settings).value == w.(vault := v')
              && v'.controls == settings.controls && v'.depositCap == settings.depositCap
              && v'.performanceFeeBps == settings.performanceFeeBps
              && v'.depositsPaused == settings.depositsPaused && v'.withdrawalsPaused == settings.withdrawalsPaused
              && w.vault == v'.(controls := w.vault.controls, depositCap := w.vault.depositCap,
                                performanceFeeBps := w.vault.performanceFeeBps,
                                depositsPaused := w.vault.depositsPaused,
                                withdrawalsPaused := w.vault.withdrawalsPaused)
  {
    hide SharesQueued;
  }
}

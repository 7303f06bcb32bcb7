/** What a user who signs a deposit, a redemption or an atomic exit is guaranteed by its success. */
module Guarantees {
  import opened Outcome
  import opened Rounding
  import opened Pricing
  import opened Inflation
  import opened Vaults
  import opened Drip
  import opened Machine
  import opened Queue
  import opened Settlement
  import opened Invariant
  import opened SharePrice

  /** An accepted deposit mints the floor of its price, at least one share and at least the minimum
      asked for, under the cap and not while paused; redeemed on the spot those shares are never
      worth more than was paid. */
  lemma DepositGuarantees(w: Ledger, baseAtoms: U64, minSharesOut: U64, admitted: bool)
    requires Inv(w) && ApplyDeposit(w, baseAtoms, minSharesOut, admitted).Ok?
    ensures admitted && !w.vault.depositsPaused
    ensures var w' := ApplyDeposit(w, baseAtoms, minSharesOut, admitted).value;
            var minted := w'.supply - w.supply;
            && 1 <= minted && minSharesOut <= minted
            && minted * Assets(w) <= baseAtoms * Shares(w) < (minted + 1) * Assets(w)
            && w'.vault.totalAssets == w.vault.totalAssets + baseAtoms
            && (w.vault.depositCap != 0 ==> w'.vault.totalAssets <= w.vault.depositCap)
            && w' == w.(vault := w.vault.(totalAssets := w'.vault.totalAssets), supply := w'.supply,
                        inflow := w.inflow + baseAtoms)
            && (SupplyFits(w') ==>
                  AssetsForShares(minted, Effective(w.vault, w.now) + baseAtoms,
                                  w.supply + w.vault.requestedWithdrawalShares + minted, w.vault.baseDecimals).Ok?
                  && AssetsForShares(minted, Effective(w.vault, w.now) + baseAtoms,
                                     w.supply + w.vault.requestedWithdrawalShares + minted, w.vault.baseDecimals).value
                     <= baseAtoms)
  {
    hide SharesQueued, SharesForDeposit, AssetsForShares, SharePriceFromAssets, VaultState.UnlockLine, TenTo;
    EffectiveNeverErrs(w.vault, w.now, w.now);
    var w' := ApplyDeposit(w, baseAtoms, minSharesOut, admitted).value;
    if SupplyFits(w') {
      DepositThenRedeemNeverOverpays(baseAtoms, Effective(w.vault, w.now),
                                     w.supply + w.vault.requestedWithdrawalShares, w.vault.baseDecimals);
    }
  }

  /** An accepted redemption request moves the shares from circulation into the queue and into a
      fresh ticket, is worth at least an atom when made, and changes nobody's price. */
  lemma RedeemGuarantees(w: Ledger, key: TicketKey, shares: U64)
    requires Inv(w) && ApplyRedeem(w, key, shares).Ok?
    ensures key !in w.tickets && !w.vault.withdrawalsPaused && 0 < shares <= w.supply && SupplyFits(w)
    ensures 1 <= WorthBefore(w.vault, w.supply, w.now, shares)
    ensures var w' := ApplyRedeem(w, key, shares).value;
            && Assets(w') == Assets(w) && Shares(w') == Shares(w)
            && w'.tickets == w.tickets[key := Ticket(shares, 0, w.vault.reportEpoch, w.slot)]
            && w'.supply == w.supply - shares
            && w'.vault == w.vault.(requestedWithdrawalShares := w.vault.requestedWithdrawalShares + shares)
            && w'.outflow == w.outflow && w'.inflow == w.inflow
  {
    hide SharesQueued, AssetsForShares, VaultState.UnlockLine, TenTo;
    EffectiveNeverErrs(w.vault, w.now, w.now);
    var owed := AssetsForShares(shares, Effective(w.vault, w.now), w.supply + w.vault.requestedWithdrawalShares,
                                w.vault.baseDecimals).value;
    var worth := WorthBefore(w.vault, w.supply, w.now, shares);
    CancelLt(owed, worth + 1, Shares(w));
    var w' := ApplyRedeem(w, key, shares).value;
    SameLine(w.vault, w'.vault, w.now);
  }

  /** An accepted atomic exit pays at least the minimum asked for, keeps back at least the exit fee
      rate of what the route received, and never pays more than the shares are worth. */
  lemma AtomicRedeemGuarantees(w: Ledger, shares: U64, unwind: Unwind)
    requires Inv(w) && ApplyAtomicRedeem(w, shares, unwind).Ok?
    ensures !w.vault.withdrawalsPaused && 0 < shares <= w.supply && shares <= unwind.ownerBalance && SupplyFits(w)
    ensures var w' := ApplyAtomicRedeem(w, shares, unwind).value;
            var payout := w'.outflow - w.outflow;
            && unwind.minOutput <= payout <= unwind.received
            && unwind.received * w.vault.controls.atomicRedeemFeeBps <= (unwind.received - payout) * 10_000
            && unwind.received * Shares(w) <= shares * Assets(w)
            && unwind.withdrawalAmount * Shares(w) <= shares * Assets(w)
            && w'.supply == w.supply - shares
            && w'.vault.totalAssets == w.vault.totalAssets - payout
            && w'.vault.requestedWithdrawalShares == w.vault.requestedWithdrawalShares && w'.tickets == w.tickets
    ensures w.vault.reportEpoch > 0 && w.vault.controls.maxReportAgeSecs > 0 ==>
              w.now - w.vault.lastUpdateTs <= w.vault.controls.maxReportAgeSecs
  {
    hide SharesQueued, BpsCeil, AssetsForShares, VaultState.UnlockLine, TenTo;
    EffectiveNeverErrs(w.vault, w.now, w.now);
    OffsetBounds(w.vault.baseDecimals);
    var owed := RedeemEntitlement(w, shares, unwind).value;
    MulLe(unwind.received, owed, Shares(w));
    MulLe(unwind.withdrawalAmount, owed, Shares(w));
  }
}

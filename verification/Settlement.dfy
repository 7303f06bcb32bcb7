/** Striking tickets and settling batches: what each ticket is paid, what the batch is paid in
    any order, and exactly when a batch goes through. */
module Settlement {
  import opened Outcome
  import opened Rounding
  import opened Pricing
  import opened Vaults
  import opened Drip
  import opened Machine
  import opened Queue

  /** The pricing pair: effective assets plus the virtual atom, economic supply plus the
      virtual shares. */
  ghost function PricedAssets(v: VaultState, now: I64): int {
    Effective(v, now) + 1
  }

  ghost function PricedShares(v: VaultState, supply: U64): int
    requires v.baseDecimals <= SHARE_DECIMALS
  {
    supply + v.requestedWithdrawalShares + Offset(v.baseDecimals)
  }

  /** What the settlement state machine needs of the vault it runs on. */
  ghost predicate Settleable(v: VaultState, supply: U64, now: I64) {
    && Dripping(v, now)
    && v.baseDecimals <= SHARE_DECIMALS
    && v.pendingWithdrawalAssets + v.totalAssets <= U64_MAX
    && supply + v.requestedWithdrawalShares <= U64_MAX
  }

  /** `after` is `before` with `paid` atoms and `shares` queued shares moved out of it. */
  ghost predicate PaidOut(before: VaultState, after: VaultState, now: I64, shares: int, paid: int) {
    && Dripping(after, now)
    && Effective(after, now) == Effective(before, now) - paid
    && after.totalAssets == before.totalAssets - paid
    && after.pendingWithdrawalAssets == before.pendingWithdrawalAssets + paid
    && after.requestedWithdrawalShares == before.requestedWithdrawalShares - shares
    && after == before.(totalAssets := after.totalAssets,
                        pendingWithdrawalAssets := after.pendingWithdrawalAssets,
                        requestedWithdrawalShares := after.requestedWithdrawalShares,
                        lockedProfit := after.lockedProfit,
                        profitUnlockStartTs := after.profitUnlockStartTs)
  }

  /** A strike succeeds exactly for an eligible ticket whose shares are queued, pays the floor of
      its shares at the current price, and moves just that. */
  lemma StrikeIsExact(v: VaultState, supply: U64, ticket: Ticket, now: I64)
    requires Settleable(v, supply, now)
    ensures StrikeTicket(v, supply, ticket, now).Ok?
            <==> StrikeEligible(v, ticket) && ticket.sharesBurned <= v.requestedWithdrawalShares
    ensures StrikeTicket(v, supply, ticket, now).Ok? ==>
              var s := StrikeTicket(v, supply, ticket, now).value;
              && s.ticket == ticket.(assetsOwed := s.ticket.assetsOwed)
              && PaidOut(v, s.vault, now, ticket.sharesBurned, s.ticket.assetsOwed)
              && s.ticket.assetsOwed * PricedShares(v, supply)
                 <= ticket.sharesBurned * PricedAssets(v, now)
                 < (s.ticket.assetsOwed + 1) * PricedShares(v, supply)
  {
    hide AssetsForShares, PricedShares, PricedAssets, PaidOut, VaultState.UnlockLine, VaultState.RemainingLockedProfit,
         VaultState.DebitAssetsAtEffective, TenTo;
    EffectiveNeverErrs(v, now, now);
    if StrikeEligible(v, ticket) && ticket.sharesBurned <= v.requestedWithdrawalShares {
      var owed := StrikePrice(v, supply, ticket.sharesBurned, now);
      StrikeMoves(v, ticket.sharesBurned, owed, now);
    }
  }

  /** Moving `shares` out of the queue and `owed` out of the assets is a debit that goes through. */
  lemma StrikeMoves(v: VaultState, shares: U64, owed: U64, now: I64)
    requires Dripping(v, now) && v.pendingWithdrawalAssets + v.totalAssets <= U64_MAX
    requires shares <= v.requestedWithdrawalShares && owed <= Effective(v, now)
    ensures var unqueued := v.(requestedWithdrawalShares := v.requestedWithdrawalShares - shares);
            var d := unqueued.DebitAssetsAtEffective(owed, now);
            && d.Ok? && d.value.pendingWithdrawalAssets + owed <= U64_MAX
            && var after := d.value.(pendingWithdrawalAssets := d.value.pendingWithdrawalAssets + owed);
               PaidOut(v, after, now, shares, owed)
  {
    hide VaultState.UnlockLine, VaultState.RemainingLockedProfit, VaultState.DebitAssetsAtEffective;
    EffectiveNeverErrs(v, now, now);
    var unqueued := v.(requestedWithdrawalShares := v.requestedWithdrawalShares - shares);
    SameLine(v, unqueued, now);
    DebitIsExact(unqueued, owed, now);
    var d := unqueued.DebitAssetsAtEffective(owed, now).value;
    SameLine(d, d.(pendingWithdrawalAssets := d.pendingWithdrawalAssets + owed), now);
  }

  /** The price of a strike in terms of the pricing pair. */
  lemma StrikePrice(v: VaultState, supply: U64, shares: U64, now: I64) returns (owed: U64)
    requires Settleable(v, supply, now) && shares <= v.requestedWithdrawalShares
    ensures 0 <= owed <= Effective(v, now) <= v.totalAssets
    ensures AssetsForShares(shares, Effective(v, now), supply + v.requestedWithdrawalShares, v.baseDecimals) == Ok(owed)
    ensures owed * PricedShares(v, supply) <= shares * PricedAssets(v, now) < (owed + 1) * PricedShares(v, supply)
  {
    hide AssetsForShares, VaultState.UnlockLine, TenTo;
    EffectiveNeverErrs(v, now, now);
    owed := AssetsForShares(shares, Effective(v, now), supply + v.requestedWithdrawalShares, v.baseDecimals).value;
  }

  /** A batch the settlement loop can strike from start to end. */
  ghost predicate Strikeable(v: VaultState, tickets: seq<Ticket>) {
    && (forall i :: 0 <= i < |tickets| ==> tickets[i].assetsOwed == 0 && StrikeEligible(v, tickets[i]))
    && SharesOf(tickets) <= v.requestedWithdrawalShares
  }

  ghost predicate Unstruck(tickets: seq<Ticket>) {
    forall i :: 0 <= i < |tickets| ==> tickets[i].assetsOwed == 0
  }

  /** The loop over unstruck tickets goes through exactly when every ticket is eligible and their
      shares are queued; it moves the batch's shares out of the queue and what they are owed out
      of the assets into the pending total. */
  lemma {:induction false} StrikeAllIsExact(v: VaultState, supply: U64, tickets: seq<Ticket>, now: I64)
    requires Settleable(v, supply, now) && Unstruck(tickets)
    ensures StrikeAll(v, supply, tickets, now).Ok? <==> Strikeable(v, tickets)
    ensures StrikeAll(v, supply, tickets, now).Ok? ==>
              var b := StrikeAll(v, supply, tickets, now).value;
              && PaidOut(v, b.vault, now, SharesOf(tickets), b.settled)
              && forall i :: 0 <= i < |tickets| ==> b.tickets[i] == tickets[i].(assetsOwed := b.tickets[i].assetsOwed)
  {
    hide StrikeTicket, PricedShares, VaultState.UnlockLine;
    if tickets == [] {
    } else {
      var front, last := tickets[..|tickets| - 1], tickets[|tickets| - 1];
      StrikeAllIsExact(v, supply, front, now);
      assert Strikeable(v, tickets) ==> Strikeable(v, front);
      if StrikeAll(v, supply, front, now).Ok? {
        var done := StrikeAll(v, supply, front, now).value;
        StrikeIsExact(done.vault, supply, last, now);
        assert forall i :: 0 <= i < |front| ==> tickets[i] == front[i];
      }
    }
  }

  /** The pair after striking a prefix of the batch. */
  ghost function After(v: VaultState, supply: U64, tickets: seq<Ticket>, now: I64): VaultState
    requires StrikeAll(v, supply, tickets, now).Ok?
  {
    StrikeAll(v, supply, tickets, now).value.vault
  }

  /** Striking never lowers the price left behind: cross-multiplied, the pricing pair after the
      batch is at least the pair before it. */
  lemma {:induction false} StrikesNeverLowerPrice(v: VaultState, supply: U64, tickets: seq<Ticket>, now: I64)
    requires Settleable(v, supply, now) && Unstruck(tickets) && StrikeAll(v, supply, tickets, now).Ok?
    ensures PricedAssets(v, now) * PricedShares(After(v, supply, tickets, now), supply)
            <= PricedAssets(After(v, supply, tickets, now), now) * PricedShares(v, supply)
  {
    hide StrikeTicket, VaultState.UnlockLine, TenTo;
    if tickets == [] {
    } else {
      var front, last := tickets[..|tickets| - 1], tickets[|tickets| - 1];
      StrikesNeverLowerPrice(v, supply, front, now);
      StrikeAllIsExact(v, supply, tickets, now);
      StrikeAllIsExact(v, supply, front, now);
      var mid, end := After(v, supply, front, now), After(v, supply, tickets, now);
      var owed := StrikeAll(v, supply, tickets, now).value.tickets[|tickets| - 1].assetsOwed;
      StrikeIsExact(mid, supply, last, now);
      OffsetBounds(v.baseDecimals);
      EffectiveNeverErrs(v, now, now);
      EffectiveNeverErrs(mid, now, now);
      EffectiveNeverErrs(end, now, now);
      PayingFloorKeepsPrice(PricedAssets(mid, now), PricedShares(mid, supply), last.sharesBurned, owed);
      CrossTransitive(PricedAssets(v, now), PricedShares(v, supply),
                      PricedAssets(mid, now), PricedShares(mid, supply),
                      PricedAssets(end, now), PricedShares(end, supply));
    }
  }

  /** Paying `p <= s * a / t` for `s` of `t` shares leaves a price of at least `a / t`. */
  lemma PayingFloorKeepsPrice(a: int, t: int, s: int, p: int)
    requires p * t <= s * a
    ensures a * (t - s) <= (a - p) * t
  {
    assert a * (t - s) == a * t - s * a;
    assert (a - p) * t == a * t - p * t;
  }

  ghost function Owed(v: VaultState, supply: U64, tickets: seq<Ticket>, now: I64, i: nat): int
    requires StrikeAll(v, supply, tickets, now).Ok? && i < |tickets|
  {
    StrikeAll(v, supply, tickets, now).value.tickets[i].assetsOwed
  }

  /** What `shares` are worth at the price in force before the batch, rounded down. */
  ghost function WorthBefore(v: VaultState, supply: U64, now: I64, shares: nat): (r: int)
    requires Settleable(v, supply, now)
    ensures 0 < PricedAssets(v, now) && 0 < PricedShares(v, supply)
    ensures r * PricedShares(v, supply) <= shares * PricedAssets(v, now) < (r + 1) * PricedShares(v, supply)
  {
    OffsetBounds(v.baseDecimals);
    EffectiveNeverErrs(v, now, now);
    MulLe(0, shares, PricedAssets(v, now));
    FloorBounds(shares * PricedAssets(v, now), PricedShares(v, supply));
    shares * PricedAssets(v, now) / PricedShares(v, supply)
  }

  /** Waiting in line never costs: wherever a ticket stands in its batch, it is paid at least
      what it would have been paid alone at the price before the batch. */
  lemma {:induction false} EachTicketGetsItsFloor(v: VaultState, supply: U64, tickets: seq<Ticket>, now: I64, i: nat)
    requires Settleable(v, supply, now) && Unstruck(tickets) && StrikeAll(v, supply, tickets, now).Ok?
    requires i < |tickets|
    ensures WorthBefore(v, supply, now, tickets[i].sharesBurned) <= Owed(v, supply, tickets, now, i)
  {
    hide StrikeTicket, PricedShares, PricedAssets, WorthBefore, TenTo, VaultState.UnlockLine;
    var front, last := tickets[..|tickets| - 1], tickets[|tickets| - 1];
    if i < |front| {
      EachTicketGetsItsFloor(v, supply, front, now, i);
    } else {
      StrikeAllIsExact(v, supply, front, now);
      StrikesNeverLowerPrice(v, supply, front, now);
      var mid := After(v, supply, front, now);
      StrikeIsExact(mid, supply, last, now);
      var worth := WorthBefore(v, supply, now, last.sharesBurned);
      var _ := WorthBefore(mid, supply, now, last.sharesBurned);
      BetterPricePaysMore(PricedAssets(v, now), PricedShares(v, supply),
                          PricedAssets(mid, now), PricedShares(mid, supply),
                          last.sharesBurned, worth, Owed(v, supply, tickets, now, i));
    }
  }

  lemma BetterPricePaysMore(a: int, t: int, a': int, t': int, s: nat, worth: int, p: int)
    requires 0 < t && 0 < t' && a * t' <= a' * t
    requires worth * t <= s * a && s * a' < (p + 1) * t'
    ensures worth <= p
  {
    MulLe(worth * t, s * a, t');
    MulLe(a * t', a' * t, s);
    Strict(s * a', (p + 1) * t', t);
    assert a * t' * s == s * a * t';
    assert a' * t * s == s * a' * t;
    Swap(worth, t, t');
    Swap(p + 1, t', t);
    CancelLt(worth * t', (p + 1) * t', t);
    CancelLt(worth, p + 1, t');
  }

  /** Order-independent payout: a batch of `n` tickets is paid in total at most the floor of one
      combined redemption at the price before the batch, and at least that less `n - 1` atoms,
      in whatever order it is settled. */
  lemma BatchPayoutBounds(v: VaultState, supply: U64, tickets: seq<Ticket>, now: I64)
    requires Settleable(v, supply, now) && Unstruck(tickets) && StrikeAll(v, supply, tickets, now).Ok?
    requires tickets != []
    ensures var combined := WorthBefore(v, supply, now, SharesOf(tickets));
            var settled := StrikeAll(v, supply, tickets, now).value.settled;
            combined - (|tickets| - 1) <= settled <= combined
  {
    hide StrikeTicket, StrikeAll, PricedShares, PricedAssets, WorthBefore, TenTo, VaultState.UnlockLine, SharesOf;
    var worth := WorthBefore(v, supply, now, SharesOf(tickets));
    var settled := StrikeAll(v, supply, tickets, now).value.settled;
    SettledAtMost(v, supply, tickets, now);
    SettledAtLeast(v, supply, tickets, now);
    CancelLt(settled, worth + 1, PricedShares(v, supply));
    CancelLt(worth, settled + |tickets|, PricedShares(v, supply));
  }

  /** The batch is never paid more than its shares' exact worth. */
  lemma SettledAtMost(v: VaultState, supply: U64, tickets: seq<Ticket>, now: I64)
    requires Settleable(v, supply, now) && Unstruck(tickets) && StrikeAll(v, supply, tickets, now).Ok?
    ensures StrikeAll(v, supply, tickets, now).value.settled * PricedShares(v, supply)
            <= SharesOf(tickets) * PricedAssets(v, now)
  {
    hide StrikeTicket, StrikeAll, TenTo, VaultState.UnlockLine, SharesOf;
    StrikeAllIsExact(v, supply, tickets, now);
    StrikesNeverLowerPrice(v, supply, tickets, now);
    var a, t := PricedAssets(v, now), PricedShares(v, supply);
    var settled := StrikeAll(v, supply, tickets, now).value.settled;
    assert a * (t - SharesOf(tickets)) == a * t - SharesOf(tickets) * a;
    assert (a - settled) * t == a * t - settled * t;
  }

  /** ... and less than one atom per ticket short of it. */
  lemma {:induction false} SettledAtLeast(v: VaultState, supply: U64, tickets: seq<Ticket>, now: I64)
    requires Settleable(v, supply, now) && Unstruck(tickets) && StrikeAll(v, supply, tickets, now).Ok?
    ensures SharesOf(tickets) * PricedAssets(v, now)
            <= (StrikeAll(v, supply, tickets, now).value.settled + |tickets|) * PricedShares(v, supply)
    ensures tickets != [] ==>
              SharesOf(tickets) * PricedAssets(v, now)
              < (StrikeAll(v, supply, tickets, now).value.settled + |tickets|) * PricedShares(v, supply)
  {
    hide StrikeTicket, PricedShares, PricedAssets, WorthBefore, TenTo, VaultState.UnlockLine;
    if tickets == [] {
    } else {
      var front, last := tickets[..|tickets| - 1], tickets[|tickets| - 1];
      SettledAtLeast(v, supply, front, now);
      EachTicketGetsItsFloor(v, supply, tickets, now, |front|);
      var a, t := PricedAssets(v, now), PricedShares(v, supply);
      var owed := Owed(v, supply, tickets, now, |front|);
      var before := StrikeAll(v, supply, front, now).value.settled;
      var worth := WorthBefore(v, supply, now, last.sharesBurned);
      MulLe(worth + 1, owed + 1, t);
      DistributeAdd(SharesOf(front), last.sharesBurned, a);
      DistributeAdd(before + |front|, owed + 1, t);
    }
  }

  /** Re-anchoring at every strike moves the unlock line down by at most one atom per ticket. */
  lemma {:induction false} StrikesKeepLine(v: VaultState, supply: U64, tickets: seq<Ticket>, now: I64, t: int)
    requires Settleable(v, supply, now) && Unstruck(tickets) && StrikeAll(v, supply, tickets, now).Ok?
    requires now <= t
    ensures var after := After(v, supply, tickets, now);
            after.UnlockLine(t) <= v.UnlockLine(t) <= after.UnlockLine(t) + |tickets|
  {
    hide VaultState.UnlockLine, TenTo;
    if tickets == [] {
    } else {
      var front, last := tickets[..|tickets| - 1], tickets[|tickets| - 1];
      StrikesKeepLine(v, supply, front, now, t);
      StrikeAllIsExact(v, supply, front, now);
      StrikeKeepsLine(After(v, supply, front, now), supply, last, now, t);
    }
  }

  /** The debit inside a strike is of what it prices, and goes through. */
  lemma StrikeDebits(v: VaultState, supply: U64, ticket: Ticket, now: I64)
    requires StrikeTicket(v, supply, ticket, now).Ok?
    ensures ticket.sharesBurned <= v.requestedWithdrawalShares
    ensures var unqueued := v.(requestedWithdrawalShares := v.requestedWithdrawalShares - ticket.sharesBurned);
            var s := StrikeTicket(v, supply, ticket, now).value;
            var debited := unqueued.DebitAssetsAtEffective(s.ticket.assetsOwed, now);
            debited.Ok? && s.vault == debited.value.(pendingWithdrawalAssets := s.vault.pendingWithdrawalAssets)
  {
    hide AssetsForShares, VaultState.UnlockLine, VaultState.EffectiveTotalAssets, VaultState.DebitAssetsAtEffective,
         TenTo;
    EntitledDebit(v, v.requestedWithdrawalShares - ticket.sharesBurned,
                  StrikeTicket(v, supply, ticket, now).value.ticket.assetsOwed, now);
  }

  lemma StrikeKeepsLine(v: VaultState, supply: U64, ticket: Ticket, now: I64, t: int)
    requires Dripping(v, now) && StrikeTicket(v, supply, ticket, now).Ok? && now <= t
    ensures var after := StrikeTicket(v, supply, ticket, now).value.vault;
            after.UnlockLine(t) <= v.UnlockLine(t) <= after.UnlockLine(t) + 1
  {
    hide StrikeTicket, VaultState.UnlockLine, VaultState.DebitAssetsAtEffective;
    StrikeDebits(v, supply, ticket, now);
    var s := StrikeTicket(v, supply, ticket, now).value;
    var unqueued := v.(requestedWithdrawalShares := v.requestedWithdrawalShares - ticket.sharesBurned);
    SameLine(v, unqueued, t);
    DebitKeepsLine(unqueued, s.ticket.assetsOwed, now, t);
    SameLine(unqueued.DebitAssetsAtEffective(s.ticket.assetsOwed, now).value, s.vault, t);
  }

  lemma {:induction false} SharesOfWithout(tickets: seq<Ticket>, i: nat)
    requires i < |tickets|
    ensures SharesOf(tickets) == SharesOf(tickets[..i] + tickets[i + 1..]) + tickets[i].sharesBurned
  {
    var front := tickets[..|tickets| - 1];
    if i < |front| {
      SharesOfWithout(front, i);
      var rest := tickets[..i] + tickets[i + 1..];
      assert rest[..|rest| - 1] == front[..i] + front[i + 1..];
    } else {
      assert tickets[..i] + tickets[i + 1..] == front;
    }
  }

  lemma {:induction false} SharesOfAnyOrder(ts: seq<Ticket>, us: seq<Ticket>)
    requires multiset(ts) == multiset(us)
    ensures SharesOf(ts) == SharesOf(us) && |ts| == |us|
  {
    assert |ts| == |multiset(ts)| == |multiset(us)| == |us|;
    if ts == [] {
    } else {
      var front, last := ts[..|ts| - 1], ts[|ts| - 1];
      MultisetWithout(ts, |ts| - 1);
      assert ts[..|ts| - 1] + ts[|ts|..] == front;
      assert last in multiset(us);
      var i :| 0 <= i < |us| && us[i] == last;
      MultisetWithout(us, i);
      SharesOfAnyOrder(front, us[..i] + us[i + 1..]);
      SharesOfWithout(us, i);
    }
  }

  lemma MultisetWithout(tickets: seq<Ticket>, i: nat)
    requires i < |tickets|
    ensures multiset(tickets[..i] + tickets[i + 1..]) == multiset(tickets) - multiset{tickets[i]}
  {
    assert tickets == tickets[..i] + [tickets[i]] + tickets[i + 1..];
  }

  /** Reordering a batch that settles gives a batch that settles, and moves the total payout by
      at most one atom per ticket beyond the first. */
  lemma SettlementOrderBarelyMatters(v: VaultState, supply: U64, ts: seq<Ticket>, us: seq<Ticket>, now: I64)
    requires Settleable(v, supply, now) && Unstruck(ts) && StrikeAll(v, supply, ts, now).Ok?
    requires multiset(ts) == multiset(us) && ts != []
    ensures StrikeAll(v, supply, us, now).Ok?
    ensures var difference := StrikeAll(v, supply, ts, now).value.settled - StrikeAll(v, supply, us, now).value.settled;
            1 - |ts| <= difference <= |ts| - 1
  {
    hide StrikeTicket, StrikeAll, PricedShares, PricedAssets, WorthBefore, TenTo, VaultState.UnlockLine, SharesOf;
    SharesOfAnyOrder(ts, us);
    StrikeAllIsExact(v, supply, ts, now);
    forall i | 0 <= i < |us| ensures us[i] in ts {
      assert us[i] in multiset(us);
    }
    assert Unstruck(us) && Strikeable(v, us);
    StrikeAllIsExact(v, supply, us, now);
    BatchPayoutBounds(v, supply, ts, now);
    BatchPayoutBounds(v, supply, us, now);
  }
}

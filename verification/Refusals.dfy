/** What a refused instruction is told: which check fails first, on the stored fields, the arguments
    and the accounts that were supplied. */
module Refusals {
  import opened Outcome
  import opened Bytes
  import opened Access
  import opened Actions
  import opened Preimage
  import opened Commitment
  import opened Relay
  import opened Custody
  import opened Pricing
  import opened Fees
  import opened Vaults
  import opened Drip
  import opened Machine
  import opened Queue
  import opened Settlement
  import opened Invariant
  import opened SharePrice
  import opened Acceptance
  import opened Depositing
  import opened Deploy
  import opened Unwinding
  import Flags
  import Swap

  /** A reconfiguration is refused for a rate above 100%, and for nothing else. */
  lemma ConfigureRefused(w: Ledger, settings: Settings)
    requires Inv(w) && ApplyConfigure(w, settings).Err?
    ensures ApplyConfigure(w, settings) == Err(InvalidBps)
  {
    hide SharesQueued;
  }

  /** What a refused deposit is told. */
  lemma DepositRefused(w: Ledger, baseAtoms: U64, minSharesOut: U64, admitted: bool)
    requires Inv(w)
    ensures var r, v := ApplyDeposit(w, baseAtoms, minSharesOut, admitted), w.vault;
            && (v.depositsPaused ==> r == Err(VaultPaused))
            && (!v.depositsPaused && !admitted ==> r == Err(InvalidAccessProof))
            && (!v.depositsPaused && admitted && 0 < v.depositCap < v.totalAssets + baseAtoms <= U64_MAX ==>
                  r == Err(DepositCapExceeded))
            && (ApplyDeposit(w, baseAtoms, 0, admitted).Ok? && r.Err? ==> r == Err(SlippageExceeded))
  {
    hide SharesForDeposit, SharePriceFromAssets, SharesQueued, VaultState.RemainingLockedProfit;
  }

  /** What a refused redemption request is told: the address is taken, withdrawals are paused, no
      shares, more than circulate, or not worth an atom. */
  lemma RedeemRefused(w: Ledger, key: TicketKey, shares: U64)
    requires Inv(w)
    ensures var r := ApplyRedeem(w, key, shares);
            && (key in w.tickets ==> r == Err(AccountAlreadyInitialized))
            && (key !in w.tickets && w.vault.withdrawalsPaused ==> r == Err(VaultPaused))
            && (key !in w.tickets && !w.vault.withdrawalsPaused && shares == 0 ==> r == Err(ZeroOutput))
            && (key !in w.tickets && !w.vault.withdrawalsPaused && shares > w.supply ==> r == Err(InvalidVaultState))
            && (key !in w.tickets && !w.vault.withdrawalsPaused && 0 < shares <= w.supply && Economic(w) <= U64_MAX ==>
                  shares * Assets(w) < Shares(w) ==> r == Err(ZeroOutput))
  {
    hide AssetsForShares, SharesQueued, Offset, VaultState.UnlockLine;
    EffectiveNeverErrs(w.vault, w.now, w.now);
    if Economic(w) <= U64_MAX && shares <= w.supply {
      EntitledExactly(w, shares, 1);
    }
  }

  /** What a refused cancellation is told: overflow when a counter does not fit, the ticket error
      when it is missing or not due, slippage for the minimum, and the token program's failure for
      want of room. */
  lemma CancelRefused(w: Ledger, key: TicketKey, minSharesOut: U64)
    requires Inv(w)
    ensures var r := ApplyCancel(w, key, minSharesOut);
            && (key !in w.tickets ==> r == Err(InvalidWithdrawalTicketAccount))
            && (key in w.tickets ==>
                  var ticket, grace := w.tickets[key], w.vault.controls.cancelGraceSlots;
                  var fit := && ticket.requestEpoch < U64_MAX && ticket.requestSlot + 150 <= U64_MAX
                             && (grace > 0 ==> ticket.requestSlot + grace <= U64_MAX);
                  var due := && ticket.requestSlot + 150 <= w.slot
                             && (ticket.requestEpoch < w.vault.reportEpoch ==>
                                   0 < grace <= w.slot - ticket.requestSlot);
                  && (!fit ==> r == Err(Overflow))
                  && (fit && !due ==> r == Err(InvalidWithdrawalTicketAccount))
                  && (fit && due && minSharesOut > ticket.sharesBurned ==> r == Err(SlippageExceeded))
                  && (fit && due && minSharesOut <= ticket.sharesBurned && r.Err? ==> r == Err(TokenProgramFailure)))
  {
    hide SharesQueued;
    if key in w.tickets {
      assert Open(w, w.tickets[key]);
      QueuedWithout(w.tickets, key);
    }
  }

  /** What a refused atomic exit is told. */
  lemma AtomicRedeemRefused(w: Ledger, shares: U64, unwind: Unwind)
    requires Inv(w)
    ensures var r, v := ApplyAtomicRedeem(w, shares, unwind), w.vault;
            var open := !v.withdrawalsPaused && shares > 0;
            var recent := v.reportEpoch == 0 || v.controls.maxReportAgeSecs == 0
                         || w.now - v.lastUpdateTs <= v.controls.maxReportAgeSecs;
            && (v.withdrawalsPaused ==> r == Err(VaultPaused))
            && (!v.withdrawalsPaused && shares == 0 ==> r == Err(ZeroOutput))
            && (open && !recent ==> r == Err(StaleNavReport))
            && (open && recent && unwind.ownerBalance < shares ==> r == Err(InsufficientShares))
            && (open && recent && shares <= unwind.ownerBalance && Economic(w) <= U64_MAX && shares <= Economic(w)
                && Shares(w) <= shares * Assets(w) ==>
                  var entitled := && unwind.withdrawalAmount * Shares(w) <= shares * Assets(w)
                                  && unwind.received * Shares(w) <= shares * Assets(w);
                  var kept := unwind.received * v.controls.atomicRedeemFeeBps
                              <= (unwind.received - unwind.minOutput) * 10_000;
                  && (!entitled ==> r == Err(WithdrawalExceedsEntitlement))
                  && (entitled && !kept ==> r == Err(SlippageExceeded))
                  && (entitled && kept && r.Err? ==> r == Err(TokenProgramFailure)))
  {
    hide AssetsForShares, BpsCeil, SharesQueued, Offset, VaultState.UnlockLine, VaultState.DebitAssetsAtEffective;
    EffectiveNeverErrs(w.vault, w.now, w.now);
    if Economic(w) <= U64_MAX && shares <= Economic(w) {
      ExitFeeFits(unwind.received, w.vault.controls.atomicRedeemFeeBps, unwind.minOutput);
      EntitledExactly(w, shares, 1);
      EntitledExactly(w, shares, unwind.withdrawalAmount);
      EntitledExactly(w, shares, unwind.received);
    }
  }

  /** What a refused report is told, in the order of its checks: the interval, the supply, a recovery
      that is not open, the missing hash, sums that do not fit, a gross that does not cover what is
      owed, a fee that cannot be taken, the gain bound, and last an epoch or a window out of range. */
  lemma ReportRefused(w: Ledger, report: NavReport)
    requires Inv(w) && ApplyReport(w, report).Err?
    ensures var e, v := ApplyReport(w, report).error, w.vault;
            if v.reportEpoch > 0 && w.now - v.lastUpdateTs < v.controls.minReportIntervalSecs
            then e == ReportTooFrequent
            else if Economic(w) > U64_MAX then e == Overflow
            else if report.recovery && VerifyRecovery(v, Economic(w)).Err?
            then e == VerifyRecovery(v, Economic(w)).error
            else if report.emptyHash then e == InvalidVaultState
            else if Gross(report) > U64_MAX then e == Overflow
            else if Gross(report) < v.feesPayable + v.pendingWithdrawalAssets then e == InvalidVaultState
            else if Recognised(w, report).Err? then e == Recognised(w, report).error
            else if !report.recovery && v.controls.maxNavGainBps > 0 && Economic(w) > 0
                    && Recognised(w, report).value.net * 10_000 > v.totalAssets * (10_000 + v.controls.maxNavGainBps)
            then e == NavGainExceedsBound
            else e == Overflow
  {
    hide PerformanceFeeForNav, VerifyRecovery, SharesQueued, VaultState.UnlockLine, VaultState.ApplyReportedNav;
    ReportedNavRefused(w.vault, w.now);
  }

  lemma ReportedNavRefused(v: VaultState, now: I64)
    requires Dripping(v, now)
    ensures forall net: U64, v': VaultState ::
              v'.ApplyReportedNav(net, now).Err? && v'.lockedProfit == v.lockedProfit
              && v'.totalAssets == v.totalAssets && v'.profitUnlockStartTs == v.profitUnlockStartTs
              && v'.profitUnlockEndTs == v.profitUnlockEndTs ==>
                v'.ApplyReportedNav(net, now).error == Overflow
  {
  }

  /** Why a recovery is not open: deposits are open, there are no shares, their price does not fit or
      is not zero. */
  lemma RecoveryRefused(v: VaultState, economic: U64)
    requires VerifyRecovery(v, economic).Err?
    ensures VerifyRecovery(v, economic).error
            == if !v.depositsPaused then DepositsMustBePaused
               else if economic != 0 && v.totalAssets * SHARE_SCALE >= (U64_MAX + 1) * economic then ResultDoesNotFit
               else InvalidVaultState
  {
  }

  /** What a vault account that does not load reports: its own rate, its decimals, the rates of its
      controls, or its drip. */
  lemma LoadRefused(v: VaultState)
    requires v.ValidateState().Err?
    ensures var e := v.ValidateState().error;
            && (e == InvalidDecimals <==> v.performanceFeeBps <= 10_000 && v.baseDecimals > 9)
            && (v.performanceFeeBps > 10_000 ==> e == InvalidBps)
            && (v.baseDecimals <= 9 ==>
                  v.controls.atomicRedeemFeeBps > 10_000 || v.controls.maxSwapSlippageBps > 10_000 ==> e == InvalidBps)
            && (e == InvalidVaultState ==>
                  v.lockedProfit > v.totalAssets || v.profitUnlockStartTs > v.profitUnlockEndTs)
            && e in {InvalidBps, InvalidDecimals, InvalidVaultState}
  {
  }

  /** What a refused collection or write-down is told. */
  lemma FeesRefused(w: Ledger, amount: U64, custody: U64)
    requires Inv(w)
    ensures amount == 0 ==> ApplyCollectFees(w, amount, custody) == Err(ZeroOutput)
    ensures amount > w.vault.feesPayable ==> ApplyCollectFees(w, amount, custody) == Err(InvalidVaultState)
    ensures custody < amount <= w.vault.feesPayable ==> ApplyCollectFees(w, amount, custody) == Err(TokenProgramFailure)
    ensures amount == 0 || amount > w.vault.feesPayable ==> ApplyWriteDownFees(w, amount) == Err(InvalidWriteDownAmount)
  {
    hide SharesQueued;
  }

  /** What a refused settlement is told: no tickets, one that is missing, empty, repeated or not due,
      an economic supply past u64, or custody that runs dry. */
  lemma SettleRefused(w: Ledger, keys: seq<TicketKey>, custody: U64)
    requires Inv(w) && ApplySettle(w, keys, custody).Err?
    ensures ApplySettle(w, keys, custody).error
            == if keys == [] then NotEnoughAccountKeys
               else if !Loadable(w.tickets, keys) then InvalidWithdrawalTicketAccount
               else if EligibleBatch(w, keys) && SupplyFits(w) then TokenProgramFailure
               else ApplySettle(w, keys, custody).error
  {
    hide StrikeAll, PayAll, LoadTickets, SharesOf, SharesQueued, VaultState.UnlockLine;
    SettleSucceedsExactly(w, keys, custody);
    LoadIsExact(w.tickets, keys);
    LoadErrsAlike(w.tickets, keys);
    if keys != [] && LoadTickets(w.tickets, keys).Ok? && EligibleBatch(w, keys) && SupplyFits(w) {
      LoadedBatch(w, keys);
      var loaded := LoadTickets(w.tickets, keys).value;
      StrikeAllIsExact(w.vault, w.supply, loaded, w.now);
      PayErrsAlike(custody, StrikeAll(w.vault, w.supply, loaded, w.now).value.tickets);
    }
  }

  lemma {:induction false} LoadErrsAlike(tickets: map<TicketKey, Ticket>, keys: seq<TicketKey>)
    ensures LoadTickets(tickets, keys).Err? ==> LoadTickets(tickets, keys).error == InvalidWithdrawalTicketAccount
  {
    if keys != [] {
      LoadErrsAlike(tickets, keys[..|keys| - 1]);
    }
  }

  lemma {:induction false} PayErrsAlike(custody: U64, tickets: seq<Ticket>)
    ensures PayAll(custody, tickets).Err? ==> PayAll(custody, tickets).error == TokenProgramFailure
  {
    if tickets != [] {
      PayErrsAlike(custody, tickets[..|tickets| - 1]);
    }
  }

  /** A stored op list is refused for its length before its ops are looked at. */
  lemma {:induction false} OpListRefused(ops: Ops)
    requires Actions.Iter(ops).Err?
    ensures Actions.Iter(ops).error == if ops.opsLen > 32 then TooManyOps else InvalidOp
  {
  }

  /** What an op that cannot be observed reports: a stretch or an account that is not there, data
      too long to count, or no sibling at its relative index. */
  lemma ObserveRefused(op: Op, call: Call)
    requires Observe(op, call).Err?
    ensures Observe(op, call).error
            == if NamesSibling(op) && Unsupplied(op.relativeIndex, call.siblings) then MissingSibling
               else if op.IngestInstruction? || op.IngestSiblingInstruction? then InstructionSliceOutOfBounds
               else if op.IngestInstructionDataSize? then InvalidInstructionData
               else AccountIndexOutOfBounds
  {
    hide ResolveSibling;
    if NamesSibling(op) {
      var j := FirstResolves(call.siblings, op.relativeIndex);
      UnsuppliedReported(call.siblings, op.relativeIndex);
      assert FirstFor(call.siblings, op.relativeIndex, j) ==> !Unsupplied(op.relativeIndex, call.siblings);
    }
  }

  ghost predicate Unsupplied(relativeIndex: I8, siblings: seq<Sibling>) {
    forall i :: 0 <= i < |siblings| ==> siblings[i].relativeIndex != relativeIndex
  }

  lemma {:induction false} UnsuppliedReported(siblings: seq<Sibling>, relativeIndex: I8)
    ensures ResolveSibling(siblings, relativeIndex).Err? ==>
              ResolveSibling(siblings, relativeIndex).error == MissingSibling
  {
    if siblings != [] {
      UnsuppliedReported(siblings[1..], relativeIndex);
    }
  }

  /** The first op that cannot be observed decides what the preimage reports. */
  lemma {:induction false} ObserveAllRefused(ops: seq<Op>, call: Call) returns (k: nat)
    requires ObserveAll(ops, call).Err?
    ensures k < |ops| && Observe(ops[k], call) == Err(ObserveAll(ops, call).error)
    ensures forall i :: 0 <= i < k ==> Observe(ops[i], call).Ok?
  {
    hide Observe;
    k := 0;
    if Observe(ops[0], call).Ok? {
      var rest := ObserveAllRefused(ops[1..], call);
      k := rest + 1;
      assert forall i :: 1 <= i < |ops| ==> ops[i] == ops[1..][i - 1];
    }
  }

  /** The first account that does not grant what is asked of it decides: a missing write privilege
      before a missing signature. */
  lemma {:induction false} MetasRefused(accounts: seq<AccountInfo>, flags: seq<Flags.AccountFlags>, sub: Pubkey)
    returns (k: nat)
    requires |accounts| == |flags| && BuildMetas(accounts, flags, sub).Err?
    ensures k < |accounts| && forall i :: 0 <= i < k ==> BuildMeta(accounts[i], flags[i], sub).Ok?
    ensures BuildMetas(accounts, flags, sub).error
            == if flags[k].isWritable && !accounts[k].isWritable then InvalidAccountData else MissingRequiredSignature
    ensures (flags[k].isWritable && !accounts[k].isWritable)
            || (flags[k].isSigner && !accounts[k].isSigner && accounts[k].key != sub)
  {
    k := 0;
    if BuildMeta(accounts[0], flags[0], sub).Ok? {
      var rest := MetasRefused(accounts[1..], flags[1..], sub);
      k := rest + 1;
      assert forall i :: 1 <= i < |accounts| ==> accounts[i] == accounts[1..][i - 1] && flags[i] == flags[1..][i - 1];
    }
  }

  /** Why the siblings an action needs are not loaded: the ops are not canonical, the transaction
      cannot be seen, or it has no such instruction. */
  lemma SiblingsRefused(ops: Ops, window: Window)
    requires LoadRequiredSiblings(ops, window).Err?
    ensures LoadRequiredSiblings(ops, window).error
            == if Actions.Iter(ops).Err? then InvalidOp
               else if window.Hidden? then MissingInstructionsSysvar
               else RequiredSiblingMissing
  {
    hide Actions.Iter, RequiredSiblings, LoadSiblings;
    if Actions.Iter(ops).Ok? && window.Visible? {
      MissingSiblingReported(RequiredSiblings(Actions.Iter(ops).value), window.instructions);
    }
  }

  lemma {:induction false} MissingSiblingReported(indices: seq<I8>, instructions: map<I8, TopLevel>)
    ensures LoadSiblings(indices, instructions).Err? ==>
              LoadSiblings(indices, instructions).error == RequiredSiblingMissing
  {
    if indices != [] {
      MissingSiblingReported(indices[1..], instructions);
    }
  }

  /** What a refused relay is told, in the order of its checks: accounts missing, a program that is
      not executable, flags that do not decode, then the accounts' own refusal, the siblings' or
      the preimage's, and last a hash the action does not commit to. */
  lemma RelayRefused(h: Hash, action: Action, sub: Pubkey, request: Request)
    requires ValidateAuthorizedCpi(h, action, sub, request).Err?
    ensures var e, end := ValidateAuthorizedCpi(h, action, sub, request).error,
                          request.accountsStart + request.accountFlags.accountsLen;
            && (end >= |request.accounts| ==> e == NotEnoughAccountKeys)
            && (end < |request.accounts| && !request.accounts[end].executable ==> e == InvalidAccountData)
            && (end < |request.accounts| && request.accounts[end].executable ==>
                  if Flags.Iter(request.accountFlags).Err? then e == InvalidInstructionData
                  else RefusedAfterFlags(action, sub, request, end, e))
  {
    hide PreimageOf, BuildMetas, LoadRequiredSiblings;
  }

  /** The refusals of a relay whose flags decode. */
  ghost predicate RefusedAfterFlags(action: Action, sub: Pubkey, request: Request, end: nat, e: Error)
    requires request.accountsStart + request.accountFlags.accountsLen == end < |request.accounts|
    requires Flags.Iter(request.accountFlags).Ok?
  {
    var start: nat := request.accountsStart;
    var metas := BuildMetas(request.accounts[start..end], Flags.Iter(request.accountFlags).value, sub);
    var siblings := LoadRequiredSiblings(action.ops, request.window);
    if metas.Err? then e == metas.error
    else if siblings.Err? then e == siblings.error
    else
      var call := Call(request.accounts[end].key, metas.value, request.data, siblings.value);
      e == if PreimageOf(action.ops, call).Err? then PreimageOf(action.ops, call).error else UnauthorizedAction
  }

  /** A call that carries no amount, or leaves a meta unbound, is refused for just that. */
  lemma RouteRefused(h: Hash, action: Action, sub: Pubkey, shareAccount: Pubkey, request: Request)
    requires ValidateAuthorizedCpi(h, action, sub, request).Ok?
    ensures DecodeWithdrawalAmount(request.data, action).Err? <==> action.amountOffset + 8 > |request.data|
    ensures DecodeWithdrawalAmount(request.data, action).Err? ==>
              DecodeWithdrawalAmount(request.data, action).error == InstructionSliceOutOfBounds
    ensures AuthorizeDeploy(h, action, sub, request).Err? ==>
              AuthorizeDeploy(h, action, sub, request).error == UnboundDeployAccount
    ensures var metas := ValidateAuthorizedCpi(h, action, sub, request).value.call.metas;
            AuthorizeUnwind(h, action, sub, shareAccount, request).Err? ==>
              AuthorizeUnwind(h, action, sub, shareAccount, request).error
              == if exists i :: 0 <= i < |metas| && metas[i].key == shareAccount then UnauthorizedAction
                 else UnboundAtomicRedeemAccount
  {
    hide ValidateAuthorizedCpi, RequireBound, Actions.Iter;
    AuthorizedCpiIsFaithful(h, action, sub, request);
    var metas := ValidateAuthorizedCpi(h, action, sub, request).value.call.metas;
    UnboundReported(action.ops, metas, false, UnboundDeployAccount, 0);
    UnboundReported(action.ops, metas, true, UnboundAtomicRedeemAccount, 0);
  }

  lemma {:induction false} UnboundReported(ops: Ops, metas: seq<Meta>, writableOnly: bool, unbound: Error, index: nat)
    requires Actions.Iter(ops).Ok? && index <= |metas|
    ensures RequireBound(ops, metas, writableOnly, unbound, index).Err? ==>
              RequireBound(ops, metas, writableOnly, unbound, index).error == unbound
    decreases |metas| - index
  {
    hide Ingests, DecodeAll;
    if index < |metas| {
      UnboundReported(ops, metas, writableOnly, unbound, index + 1);
      IngestsExactly(ops.ops[..ops.opsLen], index);
    }
  }

  /** What a refused swap is told before its call: an endpoint that is not custody without a close
      authority, or the same one twice; an action of another kind; the relay's own refusal; another
      custody the call could write that is not clean. */
  lemma SwapRefusedBefore(h: Hash, context: Swap.SwapContext, args: Swap.SwapArgs, before: World, after: World)
    requires Swap.TrySwap(h, context, args, before, Ok(after)).Err?
    ensures var e, relayed := Swap.TrySwap(h, context, args, before, Ok(after)).error,
                              ValidateAuthorizedCpi(h, context.action, context.subAccount, args.request);
            if !Endpoint(before(context.inputCustody), context.subAccount)
               || !Endpoint(before(context.outputCustody), context.subAccount)
               || context.inputCustody == context.outputCustody
            then e == InvalidTokenAccount
            else if context.action.scope != SwapScope then e == UnauthorizedAction
            else if relayed.Err? then e == relayed.error
            else !Swap.SwapReady(context, relayed.value.call.metas, before) ==> e == InvalidTokenAccount
  {
    hide ValidateAuthorizedCpi, Swap.SnapshotFrom, Swap.VerifyUnchanged, Swap.VerifySwapValue,
         VerifySwapEndpointUnchanged, TokenAmount, HasTransferAuthority, HasCloseAuthority, Swap.Tracked;
    var relayed := ValidateAuthorizedCpi(h, context.action, context.subAccount, args.request);
    if relayed.Ok? {
      var exempt := [context.inputCustody, context.outputCustody];
      Swap.SnapshotSucceedsExactly(relayed.value.call.metas, before, context.subAccount, exempt, []);
      UncleanReported(relayed.value.call.metas, before, context.subAccount, exempt, []);
    }
  }

  ghost predicate Endpoint(account: Contents, subAccount: Pubkey) {
    IsCustody(account, subAccount) && !HasCloseAuthority(account.data)
  }

  lemma {:induction false} UncleanReported(metas: seq<Meta>, world: World, subAccount: Pubkey, exempt: seq<Pubkey>,
                                           snapshot: seq<Swap.Balance>)
    ensures Swap.SnapshotFrom(metas, world, subAccount, exempt, snapshot).Err? ==>
              Swap.SnapshotFrom(metas, world, subAccount, exempt, snapshot).error == InvalidTokenAccount
    decreases |metas|
  {
    hide IsCustody, HasTransferAuthority, TokenAmount, Swap.Listed;
    if metas != [] {
      var key := metas[0].key;
      if !metas[0].isWritable || key in exempt || Swap.Listed(snapshot, key)
         || IsCleanCustody(world(key), subAccount) == Ok(false)
      {
        UncleanReported(metas[1..], world, subAccount, exempt, snapshot);
      } else if IsCleanCustody(world(key), subAccount).Ok? {
        Swap.CustodyHasAmount(world(key), subAccount);
        UncleanReported(metas[1..], world, subAccount, exempt,
                        snapshot + [Swap.Balance(key, TokenAmount(world(key)).value)]);
      }
    }
  }

  /** The first listed custody that is not as it was decides: gone or no longer clean before moved. */
  lemma {:induction false} CustodyMoved(snapshot: seq<Swap.Balance>, infos: seq<Pubkey>, world: World,
                                        subAccount: Pubkey) returns (k: nat)
    requires Swap.VerifyUnchanged(snapshot, infos, world, subAccount).Err?
    ensures k < |snapshot|
    ensures Swap.VerifyUnchanged(snapshot[..k], infos, world, subAccount).Ok?
    ensures var e, account := Swap.VerifyUnchanged(snapshot, infos, world, subAccount).error, world(snapshot[k].key);
            if snapshot[k].key !in infos || !IsCustody(account, subAccount) || HasTransferAuthority(account.data)
            then e == InvalidTokenAccount
            else e == SwapCustodyMoved && TokenAmount(account) != Ok(snapshot[k].amount)
  {
    hide IsCustody, HasTransferAuthority, TokenAmount;
    k := 0;
    var account := world(snapshot[0].key);
    if IsCustody(account, subAccount) {
      Swap.CustodyHasAmount(account, subAccount);
    }
    if snapshot[0].key in infos && IsCleanCustody(account, subAccount) == Ok(true)
       && TokenAmount(account) == Ok(snapshot[0].amount)
    {
      var rest := CustodyMoved(snapshot[1..], infos, world, subAccount);
      k := rest + 1;
      assert snapshot[..k][0] == snapshot[0] && snapshot[..k][1..] == snapshot[1..][..rest];
    }
  }

  /** And after its call, with the accounts left in order: a flow that ran backwards, one outside the
      caller's bounds, or one that loses value. */
  lemma SwapRefusedAfter(h: Hash, context: Swap.SwapContext, args: Swap.SwapArgs, before: World, after: World)
    requires Swap.TrySwap(h, context, args, before, Ok(after)).Err?
    requires ValidateAuthorizedCpi(h, context.action, context.subAccount, args.request).Ok?
    requires var metas := ValidateAuthorizedCpi(h, context.action, context.subAccount, args.request).value.call.metas;
             Swap.SwapReady(context, metas, before) && Swap.SwapLeft(context, metas, before, after)
    ensures var e := Swap.TrySwap(h, context, args, before, Ok(after)).error;
            var spent := TokenAmount(before(context.inputCustody)).value as int
                         - TokenAmount(after(context.inputCustody)).value;
            var received := TokenAmount(after(context.outputCustody)).value as int
                            - TokenAmount(before(context.outputCustody)).value;
            if spent < 0 || received < 0 then e == Overflow
            else if spent > args.maxIn || received < args.minOut then e == SlippageExceeded
            else Swap.VerifySwapValue(context, Swap.Flow(spent, received)) == Err(e)
  {
    hide ValidateAuthorizedCpi, Swap.SnapshotFrom, Swap.VerifyUnchanged, Swap.VerifySwapValue,
         VerifySwapEndpointUnchanged, TokenAmount, HasTransferAuthority, HasCloseAuthority, Swap.Tracked;
    var metas := ValidateAuthorizedCpi(h, context.action, context.subAccount, args.request).value.call.metas;
    var exempt := [context.inputCustody, context.outputCustody];
    Swap.SnapshotSucceedsExactly(metas, before, context.subAccount, exempt, []);
    Swap.SnapshotUnchangedExactly(h, context, args.request, before, after);
    EndpointFrame(before(context.inputCustody).data, after(context.inputCustody));
    EndpointFrame(before(context.outputCustody).data, after(context.outputCustody));
  }

  /** What a refused value check reports: a routed feed without its base price, the conversion's own
      failure, or too little received. */
  lemma ValueRefused(context: Swap.SwapContext, flow: Swap.Flow)
    requires Swap.VerifySwapValue(context, flow).Err? && context.maxSwapSlippageBps <= 10_000
    ensures var e, v := Swap.VerifySwapValue(context, flow).error, context.valuation;
            var spent := Swap.ValueInBaseAtoms(v.input, flow.spent, v.basePrice, context.baseDecimals);
            var received := Swap.ValueInBaseAtoms(v.output, flow.received, v.basePrice, context.baseDecimals);
            if spent.Err? then e == spent.error
            else if received.Err? then e == received.error
            else e == SlippageExceeded
    ensures var v := context.valuation;
            v.input.Asset? && v.input.routed && v.basePrice.None? ==>
              Swap.VerifySwapValue(context, flow).error == InvalidAccountData
  {
    hide BaseAtomsFromAssetAtoms, BpsCeil;
  }

  /** What a refused deposit-and-deploy is told, in the order of its checks. */
  lemma DeployRefused(h: Hash, w: Ledger, context: DeployContext, args: DeployArgs, before: World, after: World)
    requires Inv(w) && TryDepositAndDeploy(h, w, context, args, before, Ok(after)).Err?
    ensures var e := TryDepositAndDeploy(h, w, context, args, before, Ok(after)).error;
            var amount := DecodeWithdrawalAmount(args.request.data, context.action);
            var routed := AuthorizeDeploy(h, context.action, context.subAccount, args.request);
            var deposited := ApplyDeposit(w, args.amount, args.minSharesOut,
                                          AllowsDepositor(h, context.gate, args.accessProof));
            if |args.accessProof| > 32 then e == InvalidAccessProof
            else if VerifyCustodyAccount(before(context.custody), context.subAccount).Err? then e == InvalidTokenAccount
            else if context.action.scope != DeployScope then e == UnauthorizedAction
            else if amount.Err? then e == InstructionSliceOutOfBounds
            else if amount.value != args.amount then e == DeployAmountMismatch
            else if routed.Err? then e == routed.error
            else if deposited.Err? then e == deposited.error
            else if Transfer(before, context.source, context.custody, context.gate.depositor, args.amount).Err?
            then e == TokenProgramFailure
            else e == InvalidTokenAccount
  {
    hide AuthorizeDeploy, ApplyDeposit, AllowsDepositor, ScanCustody, ReverifyCustody, IsCustody,
         HasTransferAuthority, SharesQueued, Delegate, WithDelegation, WithAmount, TokenAmount, Tag;
    var routed := AuthorizeDeploy(h, context.action, context.subAccount, args.request);
    var funded := Transfer(before, context.source, context.custody, context.gate.depositor, args.amount);
    if routed.Ok? && funded.Ok? {
      UncleanScanReported(routed.value.call.metas, funded.value, context.subAccount);
      var scanned := ScanCustody(routed.value.call.metas, funded.value, context.subAccount);
      if scanned.Ok? {
        UncleanAgainReported(scanned.value, Swap.Keys(routed.value.infos), after, context.subAccount);
      }
    }
  }

  lemma {:induction false} UncleanScanReported(metas: seq<Meta>, world: World, subAccount: Pubkey)
    ensures ScanCustody(metas, world, subAccount).Err? ==>
              ScanCustody(metas, world, subAccount).error == InvalidTokenAccount
  {
    if metas != [] {
      UncleanScanReported(metas[..|metas| - 1], world, subAccount);
    }
  }

  lemma {:induction false} UncleanAgainReported(keys: seq<Pubkey>, infos: seq<Pubkey>, world: World, subAccount: Pubkey)
    ensures ReverifyCustody(keys, infos, world, subAccount).Err? ==>
              ReverifyCustody(keys, infos, world, subAccount).error == InvalidTokenAccount
  {
    if keys != [] {
      UncleanAgainReported(keys[1..], infos, world, subAccount);
    }
  }

  /** What an atomic redemption refused before its call is told, in the order of its checks. */
  lemma UnwindRefusedBefore(w: Ledger, context: UnwindContext, args: UnwindArgs, before: World)
    requires Inv(w) && AdmitUnwind(w, context, args, before).Err?
    ensures var e, v := AdmitUnwind(w, context, args, before).error, w.vault;
            if !IsCustody(before(context.custody), context.subAccount)
               || HasTransferAuthority(before(context.custody).data)
            then e == InvalidTokenAccount
            else if v.withdrawalsPaused then e == VaultPaused
            else if args.shares == 0 then e == ZeroOutput
            else if context.action.scope != AtomicRedeemScope then e == UnauthorizedAction
            else if v.reportEpoch != 0 && 0 < v.controls.maxReportAgeSecs < w.now - v.lastUpdateTs
            then e == StaleNavReport
            else EntitlementRefused(w, context, args, before, e)
  {
    hide ValidateRedeemEntitlement, IsCustody, HasTransferAuthority, SharesQueued, VaultState.UnlockLine;
    if ValidateRedeemEntitlement(w, context, args, before).Err? {
      EntitlementErrs(w, context, args, before);
    }
  }

  ghost predicate EntitlementRefused(w: Ledger, context: UnwindContext, args: UnwindArgs, before: World, e: Error)
    requires w.vault.baseDecimals <= 9
  {
    if !Initialized(before(context.shareAccount)) then e == InvalidTokenAccount
    else if TokenAmount(before(context.shareAccount)).value < args.shares then e == InsufficientShares
    else if Economic(w) > U64_MAX then e == Overflow
    else if args.shares > Economic(w) then e == InvalidVaultState
    else if args.shares * Assets(w) < Shares(w) then e == ZeroOutput
    else if context.action.amountOffset + 8 > |args.request.data| then e == InstructionSliceOutOfBounds
    else e == WithdrawalExceedsEntitlement
  }

  lemma EntitlementErrs(w: Ledger, context: UnwindContext, args: UnwindArgs, before: World)
    requires Inv(w) && ValidateRedeemEntitlement(w, context, args, before).Err?
    ensures EntitlementRefused(w, context, args, before, ValidateRedeemEntitlement(w, context, args, before).error)
  {
    hide TokenAmount, AssetsForShares, SharesQueued, Offset, VaultState.UnlockLine;
    EffectiveNeverErrs(w.vault, w.now, w.now);
    if Economic(w) <= U64_MAX && args.shares <= Economic(w) {
      EntitledExactly(w, args.shares, 1);
    } else if Economic(w) <= U64_MAX {
      OversoldErrs(args.shares, Effective(w.vault, w.now), Economic(w), w.vault.baseDecimals);
    }
  }

  lemma OversoldErrs(shares: U64, assets: U64, supply: U64, baseDecimals: U8)
    requires shares > supply
    ensures AssetsForShares(shares, assets, supply, baseDecimals) == Err(InvalidVaultState)
  {
  }

  /** And one that was admitted: the route's refusal, custody lost to somebody, a call that took from
      custody, or the accounting's refusal of what it brought. */
  lemma UnwindRefusedAfter(h: Hash, w: Ledger, context: UnwindContext, args: UnwindArgs, before: World, after: World)
    requires TryAtomicRedeem(h, w, context, args, before, Ok(after)).Err?
    ensures var e := TryAtomicRedeem(h, w, context, args, before, Ok(after)).error;
            var admitted := AdmitUnwind(w, context, args, before);
            var routed := AuthorizeUnwind(h, context.action, context.subAccount, context.shareAccount, args.request);
            if admitted.Err? then e == admitted.error
            else if routed.Err? then e == routed.error
            else if !IsCustody(after(context.custody), context.subAccount)
                    || HasTransferAuthority(after(context.custody).data)
            then e == InvalidTokenAccount
            else if TokenAmount(after(context.custody)).value < TokenAmount(before(context.custody)).value
            then e == Overflow
            else
              ApplyAtomicRedeem(w, args.shares, Unwind(TokenAmount(before(context.shareAccount)).value,
                                                       DecodeWithdrawalAmount(args.request.data, context.action).value,
                                                       TokenAmount(after(context.custody)).value
                                                       - TokenAmount(before(context.custody)).value,
                                                       args.minOutput)) == Err(e)
  {
    hide AuthorizeUnwind, TokenAmount, AssetsForRedeem, ApplyAtomicRedeem, HasTransferAuthority,
         SharesQueued, VaultState.EffectiveTotalAssets, DecodeWithdrawalAmount, VaultState.VerifyReportFresh;
  }

  /** What a refused deposit is told, in the order of its checks. */
  lemma WholeDepositRefused(h: Hash, w: Ledger, gate: Gate, asset: Asset, args: DepositArgs)
    requires Inv(w) && TryDeposit(h, w, gate, asset, args).Err?
    ensures var e, atoms := TryDeposit(h, w, gate, asset, args).error,
                            ResolveBaseAtoms(asset, args.amount, w.vault.baseDecimals);
            if |args.accessProof| > 32 then e == InvalidAccessProof
            else if w.vault.depositsPaused then e == VaultPaused
            else if gate.isPrivate && Fold(h, Leaf(h, gate.depositor), args.accessProof) != gate.accessRoot
            then e == InvalidAccessProof
            else if atoms.Err? then e == atoms.error
            else ApplyDeposit(w, atoms.value, args.minSharesOut, true) == Err(e)
  {
    hide Fold, ResolveBaseAtoms, ApplyDeposit, SharesQueued;
  }

  /** What an asset that cannot be valued reports: disabled, its custody past u64 or past its cap, or
      the conversion's own failure. */
  lemma AssetRefused(asset: Asset, amount: U64, baseDecimals: U8)
    requires ResolveBaseAtoms(asset, amount, baseDecimals).Err?
    ensures asset.Registered?
    ensures var e := ResolveBaseAtoms(asset, amount, baseDecimals).error;
            var base := if asset.routed then asset.basePrice else OraclePrice(1, 0);
            if !asset.enabled then e == InvalidAssetAccount
            else if asset.custodyBalance + amount > U64_MAX then e == Overflow
            else if asset.custodyBalance + amount > asset.depositCapAtoms then e == DepositCapExceeded
            else BaseAtomsFromAssetAtoms(amount, asset.price, base, asset.decimals, baseDecimals) == Err(e)
  {
    hide BaseAtomsFromAssetAtoms;
  }
}

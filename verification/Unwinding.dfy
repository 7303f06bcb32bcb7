/** Atomic redemption end to end (`crates/roshi/src/instructions/execution/atomic_redeem.rs`): a
    public relay unwinds a position into custody, and what custody measurably received is paid
    out, less the exit fee, against the caller's shares. */
module Unwinding {
  import opened Outcome
  import opened Bytes
  import opened Pricing
  import opened Vaults
  import opened Machine
  import opened Queue
  import opened Invariant
  import opened SharePrice
  import opened Handlers
  import opened Relay
  import opened Custody

  datatype UnwindContext = UnwindContext(action: Action, subAccount: Pubkey, shareAccount: Pubkey, custody: Pubkey)

  datatype UnwindArgs = UnwindArgs(shares: U64, minOutput: U64, request: Request)

  datatype Entitlement = Entitlement(balance: U64, amount: U64, maxAssetsOwed: U64)

  /** The most the shares entitle to, and the route amount it has to cover. */
  function ValidateRedeemEntitlement(w: Ledger, context: UnwindContext, args: UnwindArgs,
                                     before: World): Result<Entitlement> {
    var balance :- TokenAmount(before(context.shareAccount));
    if balance < args.shares then Err(InsufficientShares)
    else
      var economic :- w.vault.EconomicShareSupply(w.supply);
      var effective :- w.vault.EffectiveTotalAssets(w.now);
      var maxAssetsOwed :- AssetsForRedeem(args.shares, effective, economic, w.vault.baseDecimals);
      var amount :- DecodeWithdrawalAmount(args.request.data, context.action);
      if amount > maxAssetsOwed then Err(WithdrawalExceedsEntitlement)
      else Ok(Entitlement(balance, amount, maxAssetsOwed))
  }

  /** The checks up to the relayed call. */
  function AdmitUnwind(w: Ledger, context: UnwindContext, args: UnwindArgs, before: World): Result<Entitlement> {
    var _ :- w.vault.ValidateState();
    var _ :- VerifyCustodyAccount(before(context.custody), context.subAccount);
    if w.vault.withdrawalsPaused then Err(VaultPaused)
    else if args.shares == 0 then Err(ZeroOutput)
    else if context.action.scope != AtomicRedeemScope then Err(UnauthorizedAction)
    else
      var _ :- w.vault.VerifyReportFresh(w.now);
      ValidateRedeemEntitlement(w, context, args, before)
  }

  /** Relay the call and measure what custody received. */
  function ExecuteUnwindCpi(h: Hash, context: UnwindContext, args: UnwindArgs, before: World,
                            after: Result<World>): Result<U64>
    requires VerifyCustodyAccount(before(context.custody), context.subAccount).Ok?
  {
    var _ :- AuthorizeUnwind(h, context.action, context.subAccount, context.shareAccount, args.request);
    var world :- after;
    var _ :- VerifyCustodyAccount(world(context.custody), context.subAccount);
    CheckedU64(TokenAmount(world(context.custody)).value - TokenAmount(before(context.custody)).value)
  }

  /** The whole instruction: what the call delivered is settled by the accounting step. */
  function TryAtomicRedeem(h: Hash, w: Ledger, context: UnwindContext, args: UnwindArgs,
                           before: World, after: Result<World>): Result<Ledger> {
    var entitled :- AdmitUnwind(w, context, args, before);
    var received :- ExecuteUnwindCpi(h, context, args, before, after);
    ApplyAtomicRedeem(w, args.shares, Unwind(entitled.balance, entitled.amount, received, args.minOutput))
  }

  /** The handler: the checks and the relay, then the accounting handler on what was received. */
  method AtomicRedeem(h: Hash, program: Program, context: UnwindContext, args: UnwindArgs,
                      before: World, after: Result<World>) returns (r: Result<Unit>)
    modifies program
    ensures Commits(old(program.Books()), program.Books(), r,
                    TryAtomicRedeem(h, old(program.Books()), context, args, before, after))
  {
    hide AdmitUnwind, ApplyAtomicRedeem, ValidateAuthorizedCpi, RequireBound, TokenAmount;
    var entitled :- AdmitUnwind(program.Books(), context, args, before);
    assert VerifyCustodyAccount(before(context.custody), context.subAccount).Ok? by {
      AdmittedCustody(program.Books(), context, args, before);
    }
    var pre := TokenAmount(before(context.custody)).value;
    var cpi :- ValidateAuthorizedCpi(h, context.action, context.subAccount, args.request);
    var i := 0;
    while i < |cpi.call.metas|
      invariant 0 <= i <= |cpi.call.metas|
      invariant forall k :: 0 <= k < i ==> cpi.call.metas[k].key != context.shareAccount
    {
      if cpi.call.metas[i].key == context.shareAccount {
        return Err(UnauthorizedAction);
      }
      i := i + 1;
    }
    var _ :- CheckWritableMetasBound(context.action.ops, cpi.call.metas);
    var world :- after;
    var _ :- VerifyCustodyAccount(world(context.custody), context.subAccount);
    var post := TokenAmount(world(context.custody)).value;
    var received :- CheckedU64(post as int - pre);
    r := program.AtomicRedeem(args.shares, Unwind(entitled.balance, entitled.amount, received, args.minOutput));
  }

  lemma AdmittedCustody(w: Ledger, context: UnwindContext, args: UnwindArgs, before: World)
    requires AdmitUnwind(w, context, args, before).Ok?
    ensures VerifyCustodyAccount(before(context.custody), context.subAccount).Ok?
    ensures ValidateRedeemEntitlement(w, context, args, before) == AdmitUnwind(w, context, args, before)
  {
    hide TokenAmount, ValidateRedeemEntitlement;
  }

  /** An accepted unwind pays out of what it brought in: custody grew by at least the payout, so
      the payout transfer is always covered; the shares were entitled to all of it; and the books
      keep their invariant and never lose share price. */
  lemma UnwindPaysFromProceeds(h: Hash, w: Ledger, context: UnwindContext, args: UnwindArgs, before: World,
                               after: World)
    requires Inv(w) && TryAtomicRedeem(h, w, context, args, before, Ok(after)).Ok?
    ensures AdmitUnwind(w, context, args, before).Ok?
    ensures TokenAmount(before(context.custody)).Ok? && TokenAmount(after(context.custody)).Ok?
    ensures var w' := TryAtomicRedeem(h, w, context, args, before, Ok(after)).value;
            var payout := w'.outflow - w.outflow;
            var received := TokenAmount(after(context.custody)).value as int
                - TokenAmount(before(context.custody)).value;
            && args.minOutput <= payout <= received <= AdmitUnwind(w, context, args, before).value.maxAssetsOwed
            && payout <= TokenAmount(after(context.custody)).value
            && w'.vault.totalAssets == w.vault.totalAssets - payout
            && w'.supply == w.supply - args.shares
            && Inv(w') && Fair(w, w', 1)
    ensures IsCustody(after(context.custody), context.subAccount) && !HasTransferAuthority(after(context.custody).data)
  {
    hide AdmitUnwind, ValidateAuthorizedCpi, RequireBound, TokenAmount, AssetsForRedeem, Inv, Fair, SharesQueued,
         VaultState.RemainingLockedProfit, VaultState.UnlockLine, BpsCeil;
    AdmittedCustody(w, context, args, before);
    var entitled := AdmitUnwind(w, context, args, before).value;
    var received := ExecuteUnwindCpi(h, context, args, before, Ok(after)).value;
    var unwind := Unwind(entitled.balance, entitled.amount, received, args.minOutput);
    AtomicRedeemKeepsInvariant(w, args.shares, unwind);
    AtomicRedeemIsFair(w, args.shares, unwind);
    assert RedeemEntitlement(w, args.shares, unwind) == Ok(entitled.maxAssetsOwed);
  }

  /** An unwind goes through exactly with custody clean before and after, a redeem action whose route
      carries an amount, binds its writable metas and leaves the owner's share account out, a call
      that takes nothing from custody, and an exit the accounting accepts for what it received. */
  lemma UnwindSucceedsExactly(h: Hash, w: Ledger, context: UnwindContext, args: UnwindArgs, before: World, after: World)
    requires Inv(w)
    ensures TryAtomicRedeem(h, w, context, args, before, Ok(after)).Ok?
            <==> && IsCustody(before(context.custody), context.subAccount)
                 && !HasTransferAuthority(before(context.custody).data)
                 && context.action.scope == AtomicRedeemScope
                 && Initialized(before(context.shareAccount))
                 && DecodeWithdrawalAmount(args.request.data, context.action).Ok?
                 && AuthorizeUnwind(h, context.action, context.subAccount, context.shareAccount, args.request).Ok?
                 && IsCustody(after(context.custody), context.subAccount)
                 && !HasTransferAuthority(after(context.custody).data)
                 && var received := TokenAmount(after(context.custody)).value as int
                                    - TokenAmount(before(context.custody)).value;
                 && 0 <= received
                 && ApplyAtomicRedeem(w, args.shares,
                                      Unwind(TokenAmount(before(context.shareAccount)).value,
                                             DecodeWithdrawalAmount(args.request.data, context.action).value,
                                             received, args.minOutput)).Ok?
  {
    hide AuthorizeUnwind, DecodeWithdrawalAmount, TokenAmount, AssetsForRedeem, BpsCeil, HasTransferAuthority,
         SharesQueued, VaultState.RemainingLockedProfit, VaultState.UnlockLine, VaultState.DebitAssetsAtEffective;
  }

  /** The accepted route never names the owner's share account, and carries the amount it was
      admitted for. */
  lemma UnwindRouteIsBound(h: Hash, w: Ledger, context: UnwindContext, args: UnwindArgs, before: World, after: World,
                           i: nat)
    requires TryAtomicRedeem(h, w, context, args, before, Ok(after)).Ok?
    ensures AdmitUnwind(w, context, args, before).Ok?
    ensures var entitled := AdmitUnwind(w, context, args, before).value;
            && CarriesAmount(args.request.data, context.action.amountOffset, entitled.amount)
            && entitled.amount <= entitled.maxAssetsOwed
            && TokenAmount(before(context.shareAccount)) == Ok(entitled.balance) && args.shares <= entitled.balance
    ensures AuthorizeUnwind(h, context.action, context.subAccount, context.shareAccount, args.request).Ok?
    ensures var metas := AuthorizeUnwind(h, context.action, context.subAccount, context.shareAccount,
                                         args.request).value.call.metas;
            i < |metas| ==> metas[i].key != context.shareAccount
  {
    hide ValidateAuthorizedCpi, RequireBound, TokenAmount, ApplyAtomicRedeem, VaultState.ValidateState;
    AdmittedCustody(w, context, args, before);
    DecodedAmountIsCarried(args.request.data, context.action, AdmitUnwind(w, context, args, before).value.amount);
  }
}

/** Deposit and deploy (`crates/roshi/src/instructions/execution/deposit_and_deploy.rs`): a base
    deposit whose atoms are relayed, in the same instruction, along an authorized public route. */
module Deploy {
  import opened Outcome
  import opened Bytes
  import opened Access
  import opened Pricing
  import opened Vaults
  import opened Machine
  import opened Queue
  import opened Invariant
  import opened SharePrice
  import opened Depositing
  import opened Acceptance
  import opened Handlers
  import opened Preimage
  import opened Relay
  import opened Custody
  import Swap

  datatype DeployArgs = DeployArgs(amount: U64, minSharesOut: U64, accessProof: seq<Bytes32>, request: Request)

  datatype DeployContext = DeployContext(
    action: Action,
    subAccount: Pubkey,
    gate: Gate,
    source: Pubkey,
    custody: Pubkey)

  /** The checks that come before the deposit. */
  function AdmitDeploy(h: Hash, w: Ledger, context: DeployContext, args: DeployArgs,
                       before: World): Result<AuthorizedCpi> {
    if |args.accessProof| > MAX_ACCESS_PROOF_LEN then Err(InvalidAccessProof)
    else
      var _ :- w.vault.ValidateState();
      var _ :- VerifyCustodyAccount(before(context.custody), context.subAccount);
      if context.action.scope != DeployScope then Err(UnauthorizedAction)
      else
        var amount :- DecodeWithdrawalAmount(args.request.data, context.action);
        if amount != args.amount then Err(DeployAmountMismatch)
        else AuthorizeDeploy(h, context.action, context.subAccount, args.request)
  }

  /** Scan custody, make the call, scan again. */
  function RelayCall(cpi: AuthorizedCpi, subAccount: Pubkey, funded: World, after: Result<World>): Result<Unit> {
    var custody :- ScanCustody(cpi.call.metas, funded, subAccount);
    var world :- after;
    ReverifyCustody(custody, Swap.Keys(cpi.infos), world, subAccount)
  }

  /** The whole instruction: the deposit pays into custody, and `after` is what the relayed call
      leaves behind, if it succeeds. */
  function TryDepositAndDeploy(h: Hash, w: Ledger, context: DeployContext, args: DeployArgs,
                               before: World, after: Result<World>): Result<Ledger> {
    var cpi :- AdmitDeploy(h, w, context, args, before);
    var deposited :- ApplyDeposit(w, args.amount, args.minSharesOut,
                                  AllowsDepositor(h, context.gate, args.accessProof));
    var funded :- Transfer(before, context.source, context.custody, context.gate.depositor, args.amount);
    var _ :- RelayCall(cpi, context.subAccount, funded, after);
    Ok(deposited)
  }

  /** The handler: ordered checks, the deposit and its transfer, then the relay between its custody
      loops. A failure after the deposit rolls it back with everything else. */
  method DepositAndDeploy(h: Hash, program: Program, context: DeployContext, args: DeployArgs,
                          before: World, after: Result<World>) returns (r: Result<Unit>)
    modifies program
    ensures Commits(old(program.Books()), program.Books(), r,
                    TryDepositAndDeploy(h, old(program.Books()), context, args, before, after))
  {
    hide ValidateAuthorizedCpi, RequireBound, ApplyDeposit, RelayCall, AllowsDepositor, DecodeWithdrawalAmount,
         Transfer, VerifyCustodyAccount, VaultState.ValidateState;
    var books := program.Books();
    if |args.accessProof| > MAX_ACCESS_PROOF_LEN {
      return Err(InvalidAccessProof);
    }
    var _ :- books.vault.ValidateState();
    var _ :- VerifyCustodyAccount(before(context.custody), context.subAccount);
    if context.action.scope != DeployScope {
      return Err(UnauthorizedAction);
    }
    var amount :- DecodeWithdrawalAmount(args.request.data, context.action);
    if amount != args.amount {
      return Err(DeployAmountMismatch);
    }
    var cpi :- ValidateAuthorizedCpi(h, context.action, context.subAccount, args.request);
    var _ :- CheckAllMetasBound(context.action.ops, cpi.call.metas);
    var _ :- program.Deposit(args.amount, args.minSharesOut, AllowsDepositor(h, context.gate, args.accessProof));
    var funded := Transfer(before, context.source, context.custody, context.gate.depositor, args.amount);
    if funded.Err? {
      program.Restore(books);
      return Err(funded.error);
    }
    var relayed := MakeRelayCall(cpi, context.subAccount, funded.value, after);
    if relayed.Err? {
      program.Restore(books);
      return Err(relayed.error);
    }
    return Ok(Unit);
  }

  method MakeRelayCall(cpi: AuthorizedCpi, subAccount: Pubkey, funded: World, after: Result<World>)
    returns (r: Result<Unit>)
    ensures r == RelayCall(cpi, subAccount, funded, after)
  {
    var custody :- ScanLoop(cpi.call.metas, funded, subAccount);
    var world :- after;
    r := ReverifyLoop(custody, Swap.Keys(cpi.infos), world, subAccount);
  }

  /** To the books an accepted deploy is exactly a deposit of the amount its route carries, by an
      admitted depositor: it keeps the invariant and never lowers the share price. */
  lemma DeployIsADeposit(h: Hash, w: Ledger, context: DeployContext, args: DeployArgs, before: World,
                         after: Result<World>)
    requires Inv(w) && TryDepositAndDeploy(h, w, context, args, before, after).Ok?
    ensures var w' := TryDepositAndDeploy(h, w, context, args, before, after).value;
            && ApplyDeposit(w, args.amount, args.minSharesOut, true) == Ok(w')
            && w'.vault.totalAssets == w.vault.totalAssets + args.amount
            && Inv(w') && Fair(w, w', 0)
    ensures AllowsDepositor(h, context.gate, args.accessProof)
    ensures AdmitDeploy(h, w, context, args, before).Ok?
    ensures CarriesAmount(AdmitDeploy(h, w, context, args, before).value.call.data, context.action.amountOffset,
                          args.amount)
  {
    hide AdmitDeploy, RelayCall, Transfer, AllowsDepositor, Inv, Fair, SharesQueued, SharesForDeposit,
         SharePriceFromAssets;
    var admitted := AllowsDepositor(h, context.gate, args.accessProof);
    DepositKeepsInvariant(w, args.amount, args.minSharesOut, admitted);
    DepositIsFair(w, args.amount, args.minSharesOut, admitted);
    RouteCarriesAmount(h, w, context, args, before);
  }

  lemma RouteCarriesAmount(h: Hash, w: Ledger, context: DeployContext, args: DeployArgs, before: World)
    requires AdmitDeploy(h, w, context, args, before).Ok?
    ensures CarriesAmount(AdmitDeploy(h, w, context, args, before).value.call.data, context.action.amountOffset,
                          args.amount)
  {
    hide ValidateAuthorizedCpi, RequireBound, VerifyCustodyAccount, VaultState.ValidateState;
    AuthorizedCpiIsFaithful(h, context.action, context.subAccount, args.request);
    DecodedAmountIsCarried(args.request.data, context.action, args.amount);
  }

  /** When the call starts, custody holds the deposit on top of what it held, and every custody of
      the sub-account from before the instruction is one still, delegated no more than before. The
      sub-account is a program address and signs for no depositor. */
  lemma DeployStartsFunded(h: Hash, w: Ledger, context: DeployContext, args: DeployArgs,
                           before: World, after: Result<World>, key: Pubkey)
    requires TryDepositAndDeploy(h, w, context, args, before, after).Ok?
    requires context.gate.depositor != context.subAccount
    ensures Transfer(before, context.source, context.custody, context.gate.depositor, args.amount).Ok?
    ensures context.source != context.custody && TokenAmount(before(context.custody)).Ok?
    ensures var funded := Transfer(before, context.source, context.custody, context.gate.depositor, args.amount).value;
            && TokenAmount(funded(context.custody)).Ok?
            && TokenAmount(funded(context.custody)).value == TokenAmount(before(context.custody)).value + args.amount
            && IsCustody(funded(context.custody), context.subAccount)
            && !HasTransferAuthority(funded(context.custody).data)
            && IsCustody(funded(key), context.subAccount) == IsCustody(before(key), context.subAccount)
            && (IsCustody(before(key), context.subAccount) && HasTransferAuthority(funded(key).data) ==>
                  HasTransferAuthority(before(key).data))
  {
    hide ValidateAuthorizedCpi, RequireBound, ApplyDeposit, RelayCall, Transfer, TokenAmount, IsCustody,
         HasTransferAuthority, VaultState.ValidateState;
    var depositor := context.gate.depositor;
    if context.source == context.custody {
      CleanCustodyPaysOnlyItsOwner(before, context.source, context.custody, depositor, args.amount, context.subAccount);
    }
    TransferMoves(before, context.source, context.custody, depositor, args.amount, context.custody, context.subAccount);
    TransferMoves(before, context.source, context.custody, depositor, args.amount, key, context.subAccount);
  }

  /** A deploy relocates custody but never gives it away: what the sub-account held before the
      instruction it still holds after, with no standing delegate or close authority on anything
      the call could write. */
  lemma DeployKeepsControl(h: Hash, w: Ledger, context: DeployContext, args: DeployArgs,
                           before: World, after: World, key: Pubkey)
    requires TryDepositAndDeploy(h, w, context, args, before, Ok(after)).Ok?
    requires OnlyWrites(AdmitDeploy(h, w, context, args, before).value.call.metas,
                        Transfer(before, context.source, context.custody, context.gate.depositor, args.amount).value,
                        after)
    requires IsCustody(before(key), context.subAccount)
    ensures IsCustody(after(key), context.subAccount)
    ensures Writable(AdmitDeploy(h, w, context, args, before).value.call.metas, key) ==>
              !HasTransferAuthority(after(key).data)
  {
    hide AdmitDeploy, ApplyDeposit, ScanCustody, ReverifyCustody, Transfer, IsCustody, HasTransferAuthority;
    var cpi := AdmitDeploy(h, w, context, args, before).value;
    var funded := Transfer(before, context.source, context.custody, context.gate.depositor, args.amount).value;
    TransferMoves(before, context.source, context.custody, context.gate.depositor, args.amount, key,
                  context.subAccount);
    RelayKeepsControl(cpi.call.metas, Swap.Keys(cpi.infos), funded, after, context.subAccount, key);
  }

  /** Every custody a call can write is clean before it, and clean custody still after it. */
  ghost predicate StaysControlled(metas: seq<Meta>, before: World, after: World, subAccount: Pubkey) {
    forall i :: 0 <= i < |metas| ==>
      (metas[i].isWritable && IsCustody(before(metas[i].key), subAccount) ==>
         && !HasTransferAuthority(before(metas[i].key).data)
         && IsCustody(after(metas[i].key), subAccount)
         && !HasTransferAuthority(after(metas[i].key).data))
  }

  /** A deploy goes through exactly with a proof of at most 32 siblings, a clean custody, a deploy
      action whose route carries the amount and binds every meta, a deposit that fits, a transfer
      that is covered, and every custody the call can write clean before it and after it. */
  lemma DeploySucceedsExactly(h: Hash, w: Ledger, context: DeployContext, args: DeployArgs, before: World, after: World)
    requires Inv(w)
    ensures TryDepositAndDeploy(h, w, context, args, before, Ok(after)).Ok?
            <==> && |args.accessProof| <= 32
                 && IsCustody(before(context.custody), context.subAccount)
                 && !HasTransferAuthority(before(context.custody).data)
                 && context.action.scope == DeployScope
                 && CarriesAmount(args.request.data, context.action.amountOffset, args.amount)
                 && AuthorizeDeploy(h, context.action, context.subAccount, args.request).Ok?
                 && (!context.gate.isPrivate
                     || Fold(h, Leaf(h, context.gate.depositor), args.accessProof) == context.gate.accessRoot)
                 && DepositFits(w, args.amount, args.minSharesOut)
                 && var funded := Transfer(before, context.source, context.custody, context.gate.depositor,
                                           args.amount);
                 && funded.Ok?
                 && var metas := AuthorizeDeploy(h, context.action, context.subAccount, args.request).value.call.metas;
                    StaysControlled(metas, funded.value, after, context.subAccount)
  {
    hide AuthorizeDeploy, DecodeWithdrawalAmount, CarriesAmount, ApplyDeposit, Transfer, ScanCustody, ReverifyCustody,
         Fold, IsCustody, HasTransferAuthority, DepositFits, SharesQueued;
    DecodedAmountIsCarried(args.request.data, context.action, args.amount);
    DepositSucceedsExactly(w, args.amount, args.minSharesOut, AllowsDepositor(h, context.gate, args.accessProof));
    var cpi := AuthorizeDeploy(h, context.action, context.subAccount, args.request);
    var funded := Transfer(before, context.source, context.custody, context.gate.depositor, args.amount);
    if cpi.Ok? && funded.Ok? {
      RelayedExactly(h, context, args.request, funded.value, after);
    }
  }

  lemma RelayedExactly(h: Hash, context: DeployContext, request: Request, funded: World, after: World)
    requires AuthorizeDeploy(h, context.action, context.subAccount, request).Ok?
    ensures var cpi := AuthorizeDeploy(h, context.action, context.subAccount, request).value;
            var metas := cpi.call.metas;
            RelayCall(cpi, context.subAccount, funded, Ok(after)).Ok?
            <==> StaysControlled(metas, funded, after, context.subAccount)
  {
    hide ValidateAuthorizedCpi, RequireBound, ScanCustody, ReverifyCustody, IsCustody, HasTransferAuthority;
    AuthorizedCpiIsFaithful(h, context.action, context.subAccount, request);
    var cpi := AuthorizeDeploy(h, context.action, context.subAccount, request).value;
    var metas, infos := cpi.call.metas, Swap.Keys(cpi.infos);
    ScanSucceedsExactly(metas, funded, context.subAccount);
    var scanned := ScanCustody(metas, funded, context.subAccount);
    if scanned.Ok? {
      ReverifySucceedsExactly(scanned.value, infos, after, context.subAccount);
      forall i | 0 <= i < |metas| && metas[i].isWritable && IsCustody(funded(metas[i].key), context.subAccount)
        ensures metas[i].key in scanned.value && metas[i].key in infos
      {
        assert infos[i] == metas[i].key;
      }
      forall k | 0 <= k < |scanned.value|
        ensures exists i :: 0 <= i < |metas| && metas[i].isWritable && metas[i].key == scanned.value[k]
        ensures IsCustody(funded(scanned.value[k]), context.subAccount)
      {
        assert scanned.value[k] in scanned.value;
        assert Writable(metas, scanned.value[k]);
      }
    }
  }
}

/** Relaying a call under an action (`crates/roshi/src/instructions/execution/shared.rs`): the metas
    are rebuilt from supplied accounts and requested flags, hashed, and checked against the hash
    the action commits to; public relays also demand that their metas are bound by it. */
module Relay {
  import opened Outcome
  import opened Bytes
  import opened Flags
  import opened Actions
  import opened Preimage

  datatype ActionScope = ManagerScope | SwapScope | AtomicRedeemScope | FlashApproveScope | DeployScope

  datatype Action = Action(actionHash: Bytes32, ops: Ops, scope: ActionScope, amountOffset: U16)

  /** The data holds the amount, little-endian, at the offset. */
  predicate CarriesAmount(data: Bytes, offset: nat, amount: U64) {
    offset + 8 <= |data| && data[offset..offset + 8] == Le(amount, 8)
  }

  /** The amount the relayed data carries at the offset the action configures. */
  function DecodeWithdrawalAmount(data: Bytes, action: Action): Result<U64> {
    var start: nat := action.amountOffset;
    if start + 8 > |data| then Err(InstructionSliceOutOfBounds)
    else
      FromLeRoundTrip(data[start..start + 8]);
      Widths();
      Ok(FromLe(data[start..start + 8]))
  }

  lemma DecodedAmountIsCarried(data: Bytes, action: Action, amount: U64)
    ensures DecodeWithdrawalAmount(data, action) == Ok(amount) <==> CarriesAmount(data, action.amountOffset, amount)
  {
    var start: nat := action.amountOffset;
    if start + 8 <= |data| {
      FromLeRoundTrip(data[start..start + 8]);
      Widths();
      LeRoundTrip(amount, 8);
    }
  }

  /** An account as passed to the instruction, without its contents. */
  datatype AccountInfo = AccountInfo(key: Pubkey, isSigner: bool, isWritable: bool, executable: bool)

  /** A top-level instruction of the transaction, as the instructions sysvar shows it. */
  datatype TopLevel = TopLevel(programId: Pubkey, data: Bytes, accounts: seq<Pubkey>)

  /** The top-level instructions by distance from the executing one; none when the sysvar is not
      supplied or the program was not entered at top level. */
  datatype Window = Hidden | Visible(instructions: map<I8, TopLevel>)

  /** Everything a caller chooses about a relayed call. */
  datatype Request = Request(
    accounts: seq<AccountInfo>,
    accountsStart: U8,
    accountFlags: PackedAccountFlags,
    data: Bytes,
    window: Window)

  datatype AuthorizedCpi = AuthorizedCpi(call: Call, infos: seq<AccountInfo>)

  function BuildMeta(account: AccountInfo, flags: AccountFlags, subAccount: Pubkey): Result<Meta> {
    if flags.isWritable && !account.isWritable then Err(InvalidAccountData)
    else
      var isSubAccount := account.key == subAccount;
      if flags.isSigner && !account.isSigner && !isSubAccount then Err(MissingRequiredSignature)
      else Ok(Meta(account.key, flags.isSigner || isSubAccount, flags.isWritable))
  }

  /** A meta is built exactly when the account grants what is asked for, the sub-account's signature
      apart, and carries just what is asked for, plus that signature. */
  lemma MetaIsExact(account: AccountInfo, flags: AccountFlags, subAccount: Pubkey)
    ensures BuildMeta(account, flags, subAccount).Ok?
            <==> && (flags.isWritable ==> account.isWritable)
                 && (flags.isSigner ==> account.isSigner || account.key == subAccount)
    ensures BuildMeta(account, flags, subAccount).Ok? ==>
              var meta := BuildMeta(account, flags, subAccount).value;
              && meta.key == account.key && meta.isWritable == flags.isWritable
              && meta.isSigner == (flags.isSigner || account.key == subAccount)
  {
  }

  function BuildMetas(accounts: seq<AccountInfo>, flags: seq<AccountFlags>, subAccount: Pubkey): (r: Result<seq<Meta>>)
    requires |accounts| == |flags|
    ensures r.Ok? ==> |r.value| == |accounts|
    ensures r.Ok? ==> forall i :: 0 <= i < |accounts| ==> BuildMeta(accounts[i], flags[i], subAccount) == Ok(r.value[i])
  {
    if accounts == [] then Ok([])
    else
      var first :- BuildMeta(accounts[0], flags[0], subAccount);
      var rest :- BuildMetas(accounts[1..], flags[1..], subAccount);
      Ok([first] + rest)
  }

  /** The relative indices an action's sibling ops name, each once, in order of first mention. */
  function RequiredSiblings(ops: seq<Op>): seq<I8> {
    if ops == [] then []
    else
      var front := RequiredSiblings(ops[..|ops| - 1]);
      var last := ops[|ops| - 1];
      if (last.IngestSiblingInstruction? || last.IngestSiblingAccount?) && last.relativeIndex !in front
      then front + [last.relativeIndex] else front
  }

  function LoadSiblings(indices: seq<I8>, instructions: map<I8, TopLevel>): Result<seq<Sibling>> {
    if indices == [] then Ok([])
    else if indices[0] !in instructions then Err(RequiredSiblingMissing)
    else
      var rest :- LoadSiblings(indices[1..], instructions);
      var top := instructions[indices[0]];
      Ok([Sibling(indices[0], top.programId, top.data, top.accounts)] + rest)
  }

  function LoadRequiredSiblings(ops: Ops, window: Window): Result<seq<Sibling>> {
    var decoded :- if Actions.Iter(ops).Ok? then Actions.Iter(ops) else Err(InvalidOp);
    var indices := RequiredSiblings(decoded);
    if indices == [] then Ok([])
    else if window.Hidden? then Err(MissingInstructionsSysvar)
    else LoadSiblings(indices, window.instructions)
  }

  function ValidateAuthorizedCpi(h: Hash, action: Action, subAccount: Pubkey, request: Request): Result<AuthorizedCpi> {
    var accounts, start := request.accounts, request.accountsStart;
    var end := start + request.accountFlags.accountsLen;
    if end > |accounts| then Err(NotEnoughAccountKeys)
    else if end == |accounts| then Err(NotEnoughAccountKeys)
    else if !accounts[end].executable then Err(InvalidAccountData)
    else
      var flags :- Flags.Iter(request.accountFlags);
      var metas :- BuildMetas(accounts[start..end], flags, subAccount);
      var siblings :- LoadRequiredSiblings(action.ops, request.window);
      var call := Call(accounts[end].key, metas, request.data, siblings);
      var preimage :- PreimageOf(action.ops, call);
      if action.actionHash != h(preimage) then Err(UnauthorizedAction)
      else Ok(AuthorizedCpi(call, accounts[start..end + 1]))
  }

  /** What an accepted relay is: the supplied accounts in order, with no privilege the caller did
      not hold except the sub-account's own signature, which it always carries; its program is
      the executable account behind them; and its preimage is the one the action commits to. */
  lemma AuthorizedCpiIsFaithful(h: Hash, action: Action, subAccount: Pubkey, request: Request)
    requires ValidateAuthorizedCpi(h, action, subAccount, request).Ok?
    ensures var cpi := ValidateAuthorizedCpi(h, action, subAccount, request).value;
            var call, infos := cpi.call, cpi.infos;
            && |infos| == |call.metas| + 1 && |call.metas| == request.accountFlags.accountsLen <= U8_MAX
            && infos <= request.accounts[request.accountsStart..]
            && (forall i :: 0 <= i < |call.metas| ==>
                  && call.metas[i].key == infos[i].key
                  && (call.metas[i].isWritable ==> infos[i].isWritable)
                  && (call.metas[i].isSigner ==> infos[i].isSigner || infos[i].key == subAccount)
                  && (infos[i].key == subAccount ==> call.metas[i].isSigner))
            && Flags.Iter(request.accountFlags).Ok?
            && (forall i :: 0 <= i < |call.metas| ==>
                  var asked := Flags.Iter(request.accountFlags).value[i];
                  && call.metas[i].isWritable == asked.isWritable
                  && call.metas[i].isSigner == (asked.isSigner || infos[i].key == subAccount))
            && call.programId == infos[|call.metas|].key && infos[|call.metas|].executable
            && call.data == request.data
            && Actions.Iter(action.ops).Ok?
            && PreimageOf(action.ops, call).Ok? && h(PreimageOf(action.ops, call).value) == action.actionHash
  {
    hide Flags.Iter, PreimageOf;
    var cpi := ValidateAuthorizedCpi(h, action, subAccount, request).value;
    var start: int := request.accountsStart;
    assert cpi.infos == request.accounts[start..][..|cpi.infos|];
    var flags := Flags.Iter(request.accountFlags).value;
    forall i | 0 <= i < |flags| ensures BuildMeta(cpi.infos[i], flags[i], subAccount) == Ok(cpi.call.metas[i]) {
      assert request.accounts[start..start + |flags|][i] == cpi.infos[i];
    }
  }

  lemma {:induction false} RequiredSiblingsCover(ops: seq<Op>, i: nat)
    requires i < |ops| && (ops[i].IngestSiblingInstruction? || ops[i].IngestSiblingAccount?)
    ensures ops[i].relativeIndex in RequiredSiblings(ops)
  {
    var front := ops[..|ops| - 1];
    if i < |front| {
      RequiredSiblingsCover(front, i);
    }
  }

  lemma {:induction false} LoadedSiblingsResolve(indices: seq<I8>, instructions: map<I8, TopLevel>, index: I8)
    requires LoadSiblings(indices, instructions).Ok? && index in indices
    ensures index in instructions
    ensures var top := instructions[index];
            ResolveSibling(LoadSiblings(indices, instructions).value, index)
            == Ok(Sibling(index, top.programId, top.data, top.accounts))
  {
    if index != indices[0] {
      LoadedSiblingsResolve(indices[1..], instructions, index);
      var loaded := LoadSiblings(indices, instructions).value;
      assert loaded[1..] == LoadSiblings(indices[1..], instructions).value;
    }
  }

  /** A sibling op observes the very instruction of the transaction its relative index names: the
      loader supplies every sibling an op asks for, and no op can resolve to another one. */
  lemma SiblingsAreTheTransactions(ops: Ops, window: Window, i: nat)
    requires LoadRequiredSiblings(ops, window).Ok? && i < |Actions.Iter(ops).value|
    requires var op := Actions.Iter(ops).value[i]; op.IngestSiblingInstruction? || op.IngestSiblingAccount?
    ensures window.Visible?
    ensures var index := Actions.Iter(ops).value[i].relativeIndex;
            && index in window.instructions
            && var top := window.instructions[index];
               ResolveSibling(LoadRequiredSiblings(ops, window).value, index)
               == Ok(Sibling(index, top.programId, top.data, top.accounts))
  {
    hide Actions.Iter, RequiredSiblings, LoadSiblings, ResolveSibling;
    var decoded := Actions.Iter(ops).value;
    RequiredSiblingsCover(decoded, i);
    LoadedSiblingsResolve(RequiredSiblings(decoded), window.instructions, decoded[i].relativeIndex);
  }

  predicate NamesSibling(op: Op) {
    op.IngestSiblingInstruction? || op.IngestSiblingAccount?
  }

  lemma {:induction false} RequiredSiblingsExactly(ops: seq<Op>, index: I8)
    ensures index in RequiredSiblings(ops)
            <==> exists i :: 0 <= i < |ops| && NamesSibling(ops[i]) && ops[i].relativeIndex == index
  {
    if ops != [] {
      var front := ops[..|ops| - 1];
      RequiredSiblingsExactly(front, index);
      assert forall i :: 0 <= i < |front| ==> front[i] == ops[i];
    }
  }

  lemma {:induction false} LoadSiblingsExactly(indices: seq<I8>, instructions: map<I8, TopLevel>)
    ensures LoadSiblings(indices, instructions).Ok? <==> forall i :: 0 <= i < |indices| ==> indices[i] in instructions
  {
    if indices != [] {
      LoadSiblingsExactly(indices[1..], instructions);
      assert forall i :: 1 <= i < |indices| ==> indices[i] == indices[1..][i - 1];
    }
  }

  /** The siblings load exactly when the transaction can be seen, if any op needs it to be, and has
      an instruction at every relative index an op names. */
  lemma SiblingsLoadExactly(ops: Ops, window: Window)
    ensures LoadRequiredSiblings(ops, window).Ok?
            <==> && Actions.Iter(ops).Ok?
                 && forall i :: 0 <= i < |Actions.Iter(ops).value| && NamesSibling(Actions.Iter(ops).value[i]) ==>
                      window.Visible? && Actions.Iter(ops).value[i].relativeIndex in window.instructions
  {
    hide Actions.Iter, RequiredSiblings, LoadSiblings;
    if Actions.Iter(ops).Ok? {
      var decoded := Actions.Iter(ops).value;
      var indices := RequiredSiblings(decoded);
      if window.Visible? {
        LoadSiblingsExactly(indices, window.instructions);
      }
      forall i | 0 <= i < |decoded| && NamesSibling(decoded[i]) ensures decoded[i].relativeIndex in indices {
        RequiredSiblingsExactly(decoded, decoded[i].relativeIndex);
      }
      forall j | 0 <= j < |indices|
        ensures exists i :: 0 <= i < |decoded| && NamesSibling(decoded[i]) && decoded[i].relativeIndex == indices[j]
      {
        RequiredSiblingsExactly(decoded, indices[j]);
      }
      if indices != [] && window.Hidden? {
        RequiredSiblingsExactly(decoded, indices[0]);
      }
    }
  }

  lemma {:induction false} MetasBuildExactly(accounts: seq<AccountInfo>, flags: seq<AccountFlags>, subAccount: Pubkey)
    requires |accounts| == |flags|
    ensures BuildMetas(accounts, flags, subAccount).Ok?
            <==> forall i :: 0 <= i < |accounts| ==>
                   && (flags[i].isWritable ==> accounts[i].isWritable)
                   && (flags[i].isSigner ==> accounts[i].isSigner || accounts[i].key == subAccount)
  {
    if accounts != [] {
      MetaIsExact(accounts[0], flags[0], subAccount);
      MetasBuildExactly(accounts[1..], flags[1..], subAccount);
      assert forall i :: 1 <= i < |accounts| ==> accounts[i] == accounts[1..][i - 1] && flags[i] == flags[1..][i - 1];
    }
  }

  /** Up to the hash a relay is refused exactly for too few accounts, a program account that is not
      executable, flags that do not decode, a privilege the caller does not hold, or a sibling
      that is not there. */
  lemma RelaySucceedsExactly(h: Hash, action: Action, subAccount: Pubkey, request: Request)
    ensures ValidateAuthorizedCpi(h, action, subAccount, request).Ok?
            <==> && var start, end := request.accountsStart as int,
                                      request.accountsStart + request.accountFlags.accountsLen as int;
                 && end < |request.accounts| && request.accounts[end].executable
                 && Flags.Iter(request.accountFlags).Ok?
                 && var asked, supplied := Flags.Iter(request.accountFlags).value, request.accounts[start..end];
                 && (forall i :: 0 <= i < |supplied| ==>
                       && (asked[i].isWritable ==> supplied[i].isWritable)
                       && (asked[i].isSigner ==> supplied[i].isSigner || supplied[i].key == subAccount))
                 && BuildMetas(supplied, asked, subAccount).Ok?
                 && LoadRequiredSiblings(action.ops, request.window).Ok?
                 && var call := Call(request.accounts[end].key, BuildMetas(supplied, asked, subAccount).value,
                                     request.data, LoadRequiredSiblings(action.ops, request.window).value);
                 && PreimageOf(action.ops, call).Ok? && h(PreimageOf(action.ops, call).value) == action.actionHash
  {
    hide Flags.Iter, PreimageOf, BuildMetas, LoadRequiredSiblings;
    var end: int := request.accountsStart + request.accountFlags.accountsLen;
    if end < |request.accounts| && Flags.Iter(request.accountFlags).Ok? {
      MetasBuildExactly(request.accounts[request.accountsStart..end], Flags.Iter(request.accountFlags).value,
                        subAccount);
    }
  }

  /** Whether an op commits the account at `index`; an op that does not decode stops the search. */
  function Ingests(stored: seq<StoredOp>, index: nat): Result<bool> {
    if stored == [] then Ok(false)
    else
      var op :- Decode(stored[0]);
      if op.IngestAccount? && op.index == index then Ok(true) else Ingests(stored[1..], index)
  }

  function IngestsAccount(ops: Ops, index: nat): Result<bool> {
    if ops.opsLen > MAX_ACTION_OPS then Err(InvalidOp) else Ingests(ops.ops[..ops.opsLen], index)
  }

  method SearchIngested(ops: Ops, index: nat) returns (r: Result<bool>)
    ensures r == IngestsAccount(ops, index)
  {
    if ops.opsLen > MAX_ACTION_OPS {
      return Err(InvalidOp);
    }
    var stored := ops.ops[..ops.opsLen];
    var i := 0;
    while i < |stored|
      invariant 0 <= i <= |stored|
      invariant Ingests(stored, index) == Ingests(stored[i..], index)
    {
      assert stored[i..][0] == stored[i] && stored[i..][1..] == stored[i + 1..];
      var op :- Decode(stored[i]);
      if op.IngestAccount? && op.index == index {
        return Ok(true);
      }
      i := i + 1;
    }
    return Ok(false);
  }

  /** The account at `index` is folded into the action hash. */
  ghost predicate Bound(ops: seq<Op>, index: nat) {
    exists i :: 0 <= i < |ops| && ops[i].IngestAccount? && ops[i].index == index
  }

  lemma {:induction false} IngestsExactly(stored: seq<StoredOp>, index: nat)
    requires DecodeAll(stored).Ok?
    ensures Ingests(stored, index) == Ok(Bound(DecodeAll(stored).value, index))
  {
    if stored != [] {
      var ops := DecodeAll(stored).value;
      IngestsExactly(stored[1..], index);
      var rest := DecodeAll(stored[1..]).value;
      assert ops == [ops[0]] + rest;
      if Bound(rest, index) {
        var i :| 0 <= i < |rest| && rest[i].IngestAccount? && rest[i].index == index;
        assert ops[i + 1] == rest[i];
      }
    }
  }

  /** The metas from `index` on that have to be bound are. */
  function RequireBound(ops: Ops, metas: seq<Meta>, writableOnly: bool, unbound: Error, index: nat): Result<Unit>
    requires index <= |metas|
    decreases |metas| - index
  {
    if index == |metas| then Ok(Unit)
    else if writableOnly && !metas[index].isWritable then RequireBound(ops, metas, writableOnly, unbound, index + 1)
    else
      var ingested :- IngestsAccount(ops, index);
      if ingested then RequireBound(ops, metas, writableOnly, unbound, index + 1) else Err(unbound)
  }

  function RequireWritableMetasBound(ops: Ops, metas: seq<Meta>): Result<Unit> {
    RequireBound(ops, metas, true, UnboundAtomicRedeemAccount, 0)
  }

  function RequireAllMetasBound(ops: Ops, metas: seq<Meta>): Result<Unit> {
    RequireBound(ops, metas, false, UnboundDeployAccount, 0)
  }

  method CheckWritableMetasBound(ops: Ops, metas: seq<Meta>) returns (r: Result<Unit>)
    ensures r == RequireWritableMetasBound(ops, metas)
  {
    var index := 0;
    while index < |metas|
      invariant 0 <= index <= |metas|
      invariant RequireWritableMetasBound(ops, metas)
          == RequireBound(ops, metas, true, UnboundAtomicRedeemAccount, index)
    {
      if metas[index].isWritable {
        var ingested :- SearchIngested(ops, index);
        if !ingested {
          return Err(UnboundAtomicRedeemAccount);
        }
      }
      index := index + 1;
    }
    return Ok(Unit);
  }

  method CheckAllMetasBound(ops: Ops, metas: seq<Meta>) returns (r: Result<Unit>)
    ensures r == RequireAllMetasBound(ops, metas)
  {
    var index := 0;
    while index < |metas|
      invariant 0 <= index <= |metas|
      invariant RequireAllMetasBound(ops, metas) == RequireBound(ops, metas, false, UnboundDeployAccount, index)
    {
      var ingested :- SearchIngested(ops, index);
      if !ingested {
        return Err(UnboundDeployAccount);
      }
      index := index + 1;
    }
    return Ok(Unit);
  }

  /** With canonical ops the scan passes exactly when every meta it covers is bound. */
  lemma {:induction false} RequireBoundIsExact(ops: Ops, metas: seq<Meta>, writableOnly: bool, unbound: Error,
                                               index: nat)
    requires Actions.Iter(ops).Ok? && index <= |metas|
    ensures RequireBound(ops, metas, writableOnly, unbound, index).Ok?
            <==> (forall i :: index <= i < |metas| && (writableOnly ==> metas[i].isWritable) ==>
                    Bound(Actions.Iter(ops).value, i))
    decreases |metas| - index
  {
    hide Ingests, Bound, DecodeAll;
    if index < |metas| {
      RequireBoundIsExact(ops, metas, writableOnly, unbound, index + 1);
      IngestsExactly(ops.ops[..ops.opsLen], index);
    }
  }

  /** A bound position holds the same meta in any two calls with the same observations. */
  lemma BoundPositionAgrees(ops: seq<Op>, call: Call, call': Call, index: nat)
    requires ObserveAll(ops, call).Ok? && ObserveAll(ops, call') == ObserveAll(ops, call) && Bound(ops, index)
    ensures index < |call.metas| && index < |call'.metas| && call.metas[index] == call'.metas[index]
  {
    var i :| 0 <= i < |ops| && ops[i].IngestAccount? && ops[i].index == index;
    var seen := ObserveAll(ops, call).value;
    assert Observe(ops[i], call) == Ok(seen[i]) && Observe(ops[i], call') == Ok(seen[i]);
  }

  /** Two accepted relays of one action observe the same things, or their preimages collide. */
  lemma SameActionSameObservations(h: Hash, action: Action, sub: Pubkey, request: Request, sub': Pubkey,
                                   request': Request)
    requires ValidateAuthorizedCpi(h, action, sub, request).Ok?
    requires ValidateAuthorizedCpi(h, action, sub', request').Ok?
    ensures var call := ValidateAuthorizedCpi(h, action, sub, request).value.call;
            var call' := ValidateAuthorizedCpi(h, action, sub', request').value.call;
            && PreimageOf(action.ops, call).Ok? && PreimageOf(action.ops, call').Ok? && Actions.Iter(action.ops).Ok?
            && (|| Collides(h, {PreimageOf(action.ops, call).value}, {PreimageOf(action.ops, call').value})
                || (&& call.programId == call'.programId
                    && ObserveAll(Actions.Iter(action.ops).value, call).Ok?
                    && ObserveAll(Actions.Iter(action.ops).value, call)
                        == ObserveAll(Actions.Iter(action.ops).value, call')))
  {
    hide ValidateAuthorizedCpi, Actions.Iter, ObserveAll;
    AuthorizedCpiIsFaithful(h, action, sub, request);
    AuthorizedCpiIsFaithful(h, action, sub', request');
    var call := ValidateAuthorizedCpi(h, action, sub, request).value.call;
    var call' := ValidateAuthorizedCpi(h, action, sub', request').value.call;
    if PreimageOf(action.ops, call) == PreimageOf(action.ops, call') {
      SamePreimageSameObservations(action.ops, call, action.ops, call');
    } else {
      assert PreimageOf(action.ops, call).value != PreimageOf(action.ops, call').value;
    }
  }

  /** A public deployment: the relay, with every meta bound. */
  function AuthorizeDeploy(h: Hash, action: Action, subAccount: Pubkey, request: Request): Result<AuthorizedCpi> {
    var cpi :- ValidateAuthorizedCpi(h, action, subAccount, request);
    var _ :- RequireAllMetasBound(action.ops, cpi.call.metas);
    Ok(cpi)
  }

  /** A public unwind: the relay, without the caller's share account, with writable metas bound. */
  function AuthorizeUnwind(h: Hash, action: Action, subAccount: Pubkey, shareAccount: Pubkey,
                           request: Request): Result<AuthorizedCpi> {
    var cpi :- ValidateAuthorizedCpi(h, action, subAccount, request);
    if exists i :: 0 <= i < |cpi.call.metas| && cpi.call.metas[i].key == shareAccount then Err(UnauthorizedAction)
    else
      var _ :- RequireWritableMetasBound(action.ops, cpi.call.metas);
      Ok(cpi)
  }

  /** Route uniqueness. Any two deployments accepted for one action, whoever asks and whatever
      they supply, call the same program with the same list of metas, or the two preimages
      collide. */
  lemma DeployRouteIsUnique(h: Hash, action: Action, sub: Pubkey, request: Request, sub': Pubkey, request': Request)
    requires AuthorizeDeploy(h, action, sub, request).Ok? && AuthorizeDeploy(h, action, sub', request').Ok?
    ensures var call := AuthorizeDeploy(h, action, sub, request).value.call;
            var call' := AuthorizeDeploy(h, action, sub', request').value.call;
            && PreimageOf(action.ops, call).Ok? && PreimageOf(action.ops, call').Ok?
            && (|| (call.programId == call'.programId && call.metas == call'.metas)
                || Collides(h, {PreimageOf(action.ops, call).value}, {PreimageOf(action.ops, call').value}))
  {
    hide ValidateAuthorizedCpi, RequireBound, Actions.Iter, ObserveAll, Bound, PreimageOf;
    SameActionSameObservations(h, action, sub, request, sub', request');
    var call := AuthorizeDeploy(h, action, sub, request).value.call;
    var call' := AuthorizeDeploy(h, action, sub', request').value.call;
    var ops := Actions.Iter(action.ops).value;
    if !Collides(h, {PreimageOf(action.ops, call).value}, {PreimageOf(action.ops, call').value}) {
      RequireBoundIsExact(action.ops, call.metas, false, UnboundDeployAccount, 0);
      RequireBoundIsExact(action.ops, call'.metas, false, UnboundDeployAccount, 0);
      if |call.metas| < |call'.metas| {
        BoundPositionAgrees(ops, call, call', |call.metas|);
      } else if |call'.metas| < |call.metas| {
        BoundPositionAgrees(ops, call, call', |call'.metas|);
      }
      forall i | 0 <= i < |call.metas| ensures call.metas[i] == call'.metas[i] {
        BoundPositionAgrees(ops, call, call', i);
      }
    }
  }

  /** Any two unwinds accepted for one action agree on every position that is writable in either,
      or the two preimages collide. */
  lemma UnwindRoutesAgree(h: Hash, action: Action, sub: Pubkey, share: Pubkey, request: Request,
                          sub': Pubkey, share': Pubkey, request': Request, i: nat)
    requires AuthorizeUnwind(h, action, sub, share, request).Ok?
    requires AuthorizeUnwind(h, action, sub', share', request').Ok?
    ensures var call := AuthorizeUnwind(h, action, sub, share, request).value.call;
            var call' := AuthorizeUnwind(h, action, sub', share', request').value.call;
            && PreimageOf(action.ops, call).Ok? && PreimageOf(action.ops, call').Ok?
            && (|| Collides(h, {PreimageOf(action.ops, call).value}, {PreimageOf(action.ops, call').value})
                || (&& call.programId == call'.programId
                    && (|| (i < |call.metas| && call.metas[i].isWritable)
                        || (i < |call'.metas| && call'.metas[i].isWritable) ==>
                          i < |call.metas| && i < |call'.metas| && call.metas[i] == call'.metas[i])))
  {
    hide ValidateAuthorizedCpi, RequireBound, Actions.Iter, ObserveAll, Bound, PreimageOf;
    SameActionSameObservations(h, action, sub, request, sub', request');
    var call := AuthorizeUnwind(h, action, sub, share, request).value.call;
    var call' := AuthorizeUnwind(h, action, sub', share', request').value.call;
    var ops := Actions.Iter(action.ops).value;
    if !Collides(h, {PreimageOf(action.ops, call).value}, {PreimageOf(action.ops, call').value}) {
      RequireBoundIsExact(action.ops, call.metas, true, UnboundAtomicRedeemAccount, 0);
      RequireBoundIsExact(action.ops, call'.metas, true, UnboundAtomicRedeemAccount, 0);
      if (i < |call.metas| && call.metas[i].isWritable) || (i < |call'.metas| && call'.metas[i].isWritable) {
        BoundPositionAgrees(ops, call, call', i);
      }
    }
  }
}

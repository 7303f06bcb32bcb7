/** Authorized swaps (`crates/roshi/src/instructions/execution/swap.rs`): an arbitrary call is
    bracketed by balance snapshots, and its realized flow is bounded in amount and in value. */
module Swap {
  import opened Outcome
  import opened Rounding
  import opened Bytes
  import opened Pricing
  import opened Preimage
  import opened Relay
  import opened Custody

  datatype Balance = Balance(key: Pubkey, amount: U64)

  predicate Listed(snapshot: seq<Balance>, key: Pubkey) {
    exists i :: 0 <= i < |snapshot| && snapshot[i].key == key
  }

  /** The rest of the snapshot: writable custodies that are neither exempt nor listed yet. */
  function SnapshotFrom(metas: seq<Meta>, world: World, subAccount: Pubkey, exempt: seq<Pubkey>,
                        snapshot: seq<Balance>): Result<seq<Balance>>
    decreases |metas|
  {
    if metas == [] then Ok(snapshot)
    else
      var key := metas[0].key;
      if !metas[0].isWritable || key in exempt || Listed(snapshot, key) then
        SnapshotFrom(metas[1..], world, subAccount, exempt, snapshot)
      else
        var clean :- IsCleanCustody(world(key), subAccount);
        if clean then
          SnapshotFrom(metas[1..], world, subAccount, exempt, snapshot + [Balance(key, TokenAmount(world(key)).value)])
        else
          SnapshotFrom(metas[1..], world, subAccount, exempt, snapshot)
  }

  method SnapshotWritableCustody(metas: seq<Meta>, world: World, subAccount: Pubkey, exempt: seq<Pubkey>)
    returns (r: Result<seq<Balance>>)
    ensures r == SnapshotFrom(metas, world, subAccount, exempt, [])
  {
    var snapshot: seq<Balance> := [];
    var i := 0;
    while i < |metas|
      invariant 0 <= i <= |metas|
      invariant SnapshotFrom(metas, world, subAccount, exempt, [])
                == SnapshotFrom(metas[i..], world, subAccount, exempt, snapshot)
    {
      assert metas[i..][0] == metas[i] && metas[i..][1..] == metas[i + 1..];
      var key := metas[i].key;
      if metas[i].isWritable && key !in exempt && !Listed(snapshot, key) {
        var clean :- IsCleanCustody(world(key), subAccount);
        if clean {
          snapshot := snapshot + [Balance(key, TokenAmount(world(key)).value)];
        }
      }
      i := i + 1;
    }
    return Ok(snapshot);
  }

  function VerifyUnchanged(snapshot: seq<Balance>, infos: seq<Pubkey>, world: World, subAccount: Pubkey): Result<Unit> {
    if snapshot == [] then Ok(Unit)
    else
      var key := snapshot[0].key;
      if key !in infos then Err(InvalidTokenAccount)
      else
        var clean :- IsCleanCustody(world(key), subAccount);
        if !clean then Err(InvalidTokenAccount)
        else if TokenAmount(world(key)).value != snapshot[0].amount then Err(SwapCustodyMoved)
        else VerifyUnchanged(snapshot[1..], infos, world, subAccount)
  }

  method VerifyCustodyUnchanged(snapshot: seq<Balance>, infos: seq<Pubkey>, world: World, subAccount: Pubkey)
    returns (r: Result<Unit>)
    ensures r == VerifyUnchanged(snapshot, infos, world, subAccount)
  {
    var i := 0;
    while i < |snapshot|
      invariant 0 <= i <= |snapshot|
      invariant VerifyUnchanged(snapshot, infos, world, subAccount)
                == VerifyUnchanged(snapshot[i..], infos, world, subAccount)
    {
      assert snapshot[i..][0] == snapshot[i] && snapshot[i..][1..] == snapshot[i + 1..];
      var key := snapshot[i].key;
      if key !in infos {
        return Err(InvalidTokenAccount);
      }
      var clean :- IsCleanCustody(world(key), subAccount);
      if !clean {
        return Err(InvalidTokenAccount);
      }
      if TokenAmount(world(key)).value != snapshot[i].amount {
        return Err(SwapCustodyMoved);
      }
      i := i + 1;
    }
    return Ok(Unit);
  }

  /** How an endpoint is valued in base atoms: the base mint at its amount, a registered asset
      through its verified price. */
  datatype Leg = Base | Asset(decimals: U8, routed: bool, price: OraclePrice)

  datatype Valuation = Valuation(input: Leg, output: Leg, basePrice: Option<OraclePrice>)

  function ValueInBaseAtoms(leg: Leg, amount: U64, basePrice: Option<OraclePrice>, baseDecimals: U8): Result<U64> {
    match leg
    case Base => Ok(amount)
    case Asset(decimals, routed, price) =>
      if routed && basePrice.None? then Err(InvalidAccountData)
      else BaseAtomsFromAssetAtoms(amount, price, if routed then basePrice.value else UNIT_PRICE, decimals,
                                   baseDecimals)
  }

  datatype SwapContext = SwapContext(
    action: Action,
    subAccount: Pubkey,
    inputCustody: Pubkey,
    outputCustody: Pubkey,
    maxSwapSlippageBps: U16,
    baseDecimals: U8,
    valuation: Valuation)

  datatype SwapArgs = SwapArgs(request: Request, maxIn: U64, minOut: U64)

  datatype Flow = Flow(spent: U64, received: U64)

  /** The checks of `SwapContext::load` on the endpoints and the action. */
  function LoadSwap(context: SwapContext, before: World): Result<Unit> {
    var _ :- VerifySwapEndpointCustody(before(context.inputCustody), context.subAccount);
    var _ :- VerifySwapEndpointCustody(before(context.outputCustody), context.subAccount);
    if context.inputCustody == context.outputCustody then Err(InvalidTokenAccount)
    else Need(context.action.scope == SwapScope, UnauthorizedAction)
  }

  function Keys(infos: seq<AccountInfo>): (r: seq<Pubkey>)
    ensures |r| == |infos| && forall i :: 0 <= i < |r| ==> r[i] == infos[i].key
  {
    seq(|infos|, i requires 0 <= i < |infos| => infos[i].key)
  }

  /** Relay the call and bound its realized flow. `after` is what the call left behind, if it
      succeeded. */
  function ExecuteSwapCpi(h: Hash, context: SwapContext, args: SwapArgs, before: World,
                          after: Result<World>): Result<Flow>
    requires LoadSwap(context, before).Ok?
  {
    var inPre := TokenAmount(before(context.inputCustody)).value;
    var outPre := TokenAmount(before(context.outputCustody)).value;
    var cpi :- ValidateAuthorizedCpi(h, context.action, context.subAccount, args.request);
    var snapshot :- SnapshotFrom(cpi.call.metas, before, context.subAccount,
                                 [context.inputCustody, context.outputCustody], []);
    var world :- after;
    var _ :- VerifyUnchanged(snapshot, Keys(cpi.infos), world, context.subAccount);
    var _ :- VerifySwapEndpointUnchanged(before(context.inputCustody).data, world(context.inputCustody));
    var _ :- VerifySwapEndpointUnchanged(before(context.outputCustody).data, world(context.outputCustody));
    var inPost :- TokenAmount(world(context.inputCustody));
    var outPost :- TokenAmount(world(context.outputCustody));
    var spent :- CheckedU64(inPre - inPost);
    var received :- CheckedU64(outPost - outPre);
    if spent > args.maxIn || received < args.minOut then Err(SlippageExceeded) else Ok(Flow(spent, received))
  }

  function VerifySwapValue(context: SwapContext, flow: Flow): Result<Unit> {
    if context.maxSwapSlippageBps == 0 then Ok(Unit)
    else
      var v := context.valuation;
      var spentValue :- ValueInBaseAtoms(v.input, flow.spent, v.basePrice, context.baseDecimals);
      var receivedValue :- ValueInBaseAtoms(v.output, flow.received, v.basePrice, context.baseDecimals);
      if context.maxSwapSlippageBps > BPS_DENOMINATOR then Err(Overflow)
      else
        var minValue := BpsCeil(spentValue, BPS_DENOMINATOR - context.maxSwapSlippageBps).value;
        Need(minValue <= receivedValue, SlippageExceeded)
  }

  function TrySwap(h: Hash, context: SwapContext, args: SwapArgs, before: World, after: Result<World>): Result<Flow> {
    var _ :- LoadSwap(context, before);
    var flow :- ExecuteSwapCpi(h, context, args, before, after);
    var _ :- VerifySwapValue(context, flow);
    Ok(flow)
  }

  /** The handler, with its snapshot and verification loops. */
  method Swap(h: Hash, context: SwapContext, args: SwapArgs, before: World, after: Result<World>)
    returns (r: Result<Flow>)
    ensures r == TrySwap(h, context, args, before, after)
  {
    hide ValidateAuthorizedCpi, SnapshotFrom, VerifyUnchanged, VerifySwapValue, VerifySwapEndpointUnchanged,
         TokenAmount, HasCloseAuthority;
    var _ :- LoadSwap(context, before);
    var inPre := TokenAmount(before(context.inputCustody)).value;
    var outPre := TokenAmount(before(context.outputCustody)).value;
    var cpi :- ValidateAuthorizedCpi(h, context.action, context.subAccount, args.request);
    var snapshot :- SnapshotWritableCustody(cpi.call.metas, before, context.subAccount,
                                            [context.inputCustody, context.outputCustody]);
    var world :- after;
    var _ :- VerifyCustodyUnchanged(snapshot, Keys(cpi.infos), world, context.subAccount);
    var _ :- VerifySwapEndpointUnchanged(before(context.inputCustody).data, world(context.inputCustody));
    var _ :- VerifySwapEndpointUnchanged(before(context.outputCustody).data, world(context.outputCustody));
    var inPost :- TokenAmount(world(context.inputCustody));
    var outPost :- TokenAmount(world(context.outputCustody));
    var spent :- CheckedU64(inPre as int - inPost);
    var received :- CheckedU64(outPost as int - outPre);
    if spent > args.maxIn {
      return Err(SlippageExceeded);
    }
    if received < args.minOut {
      return Err(SlippageExceeded);
    }
    var _ :- VerifySwapValue(context, Flow(spent, received));
    return Ok(Flow(spent, received));
  }

  /** Every writable custody that is not exempt ends up in the snapshot, clean, at its balance. */
  lemma {:induction false} SnapshotFindsCustody(metas: seq<Meta>, world: World, subAccount: Pubkey, exempt: seq<Pubkey>,
                                                snapshot: seq<Balance>, key: Pubkey)
    requires SnapshotFrom(metas, world, subAccount, exempt, snapshot).Ok?
    requires Faithful(snapshot, world, subAccount)
    requires Listed(snapshot, key) || (Writable(metas, key) && key !in exempt && IsCustody(world(key), subAccount))
    ensures Faithful(SnapshotFrom(metas, world, subAccount, exempt, snapshot).value, world, subAccount)
    ensures Listed(SnapshotFrom(metas, world, subAccount, exempt, snapshot).value, key)
    decreases |metas|
  {
    if metas != [] {
      var first, rest := metas[0].key, metas[1..];
      if first != key && Writable(metas, key) {
        assert Writable(rest, key) by {
          var i :| 0 <= i < |metas| && metas[i].isWritable && metas[i].key == key;
          assert rest[i - 1] == metas[i];
        }
      }
      var more := snapshot + [Balance(first, if Initialized(world(first)) then TokenAmount(world(first)).value else 0)];
      assert more[|snapshot|].key == first;
      if Listed(snapshot, key) {
        var i :| 0 <= i < |snapshot| && snapshot[i].key == key;
        assert more[i] == snapshot[i];
      }
      if !metas[0].isWritable || first in exempt || Listed(snapshot, first) || !IsCustody(world(first), subAccount) {
        assert Listed(snapshot, key) || Writable(rest, key) by {
          WritableLater(metas, key);
        }
        SnapshotFindsCustody(rest, world, subAccount, exempt, snapshot, key);
      } else {
        SnapshotFindsCustody(rest, world, subAccount, exempt, more, key);
      }
    }
  }

  lemma WritableLater(metas: seq<Meta>, key: Pubkey)
    requires metas != []
    ensures Writable(metas, key) ==> (metas[0].isWritable && metas[0].key == key) || Writable(metas[1..], key)
  {
    if Writable(metas, key) {
      var i :| 0 <= i < |metas| && metas[i].isWritable && metas[i].key == key;
      if i > 0 {
        assert metas[1..][i - 1] == metas[i];
      }
    }
  }

  ghost predicate Faithful(snapshot: seq<Balance>, world: World, subAccount: Pubkey) {
    forall i :: 0 <= i < |snapshot| ==>
      && IsCustody(world(snapshot[i].key), subAccount) && !HasTransferAuthority(world(snapshot[i].key).data)
      && TokenAmount(world(snapshot[i].key)) == Ok(snapshot[i].amount)
  }

  lemma {:induction false} VerifiedIsUnchanged(snapshot: seq<Balance>, infos: seq<Pubkey>, world: World,
                                               subAccount: Pubkey, i: nat)
    requires VerifyUnchanged(snapshot, infos, world, subAccount).Ok? && i < |snapshot|
    ensures IsCustody(world(snapshot[i].key), subAccount) && !HasTransferAuthority(world(snapshot[i].key).data)
    ensures TokenAmount(world(snapshot[i].key)) == Ok(snapshot[i].amount)
  {
    if i > 0 {
      VerifiedIsUnchanged(snapshot[1..], infos, world, subAccount, i - 1);
    }
  }

  ghost predicate Tracked(metas: seq<Meta>, world: World, subAccount: Pubkey, exempt: seq<Pubkey>, key: Pubkey) {
    Writable(metas, key) && key !in exempt && IsCustody(world(key), subAccount)
  }

  /** The snapshot goes through exactly when every writable custody that is not exempt is clean, and
      adds just those. */
  lemma {:induction false} SnapshotSucceedsExactly(metas: seq<Meta>, world: World, subAccount: Pubkey,
                                                   exempt: seq<Pubkey>, snapshot: seq<Balance>)
    requires Faithful(snapshot, world, subAccount)
    ensures SnapshotFrom(metas, world, subAccount, exempt, snapshot).Ok?
            <==> forall key :: Tracked(metas, world, subAccount, exempt, key) ==> !HasTransferAuthority(world(key).data)
    ensures SnapshotFrom(metas, world, subAccount, exempt, snapshot).Ok? ==>
              var taken := SnapshotFrom(metas, world, subAccount, exempt, snapshot).value;
              && Faithful(taken, world, subAccount)
              && forall key :: Listed(taken, key)
                   <==> Listed(snapshot, key) || Tracked(metas, world, subAccount, exempt, key)
    decreases |metas|
  {
    hide IsCustody, HasTransferAuthority, TokenAmount, Writable;
    if metas == [] {
      forall key: Pubkey ensures !Writable(metas, key) {
        NothingWritable(key);
      }
    } else {
      var first, rest := metas[0].key, metas[1..];
      forall key: Pubkey
        ensures Writable(metas, key) <==> (metas[0].isWritable && first == key) || Writable(rest, key)
      {
        WritableSplit(metas, key);
      }
      if metas[0].isWritable && first !in exempt && !Listed(snapshot, first) && IsCustody(world(first), subAccount) {
        CustodyHasAmount(world(first), subAccount);
        if !HasTransferAuthority(world(first).data) {
          var more := snapshot + [Balance(first, TokenAmount(world(first)).value)];
          forall key ensures Listed(more, key) <==> Listed(snapshot, key) || key == first {
            ListedAppend(snapshot, more[|snapshot|], key);
          }
          SnapshotSucceedsExactly(rest, world, subAccount, exempt, more);
        } else {
          assert Tracked(metas, world, subAccount, exempt, first);
        }
      } else {
        if Listed(snapshot, first) {
          ListedIsClean(snapshot, world, subAccount, first);
        }
        SnapshotSucceedsExactly(rest, world, subAccount, exempt, snapshot);
      }
    }
  }

  lemma NothingWritable(key: Pubkey)
    ensures !Writable([], key)
  {
  }

  lemma CustodyHasAmount(account: Contents, subAccount: Pubkey)
    requires IsCustody(account, subAccount)
    ensures TokenAmount(account).Ok? && |account.data| >= TOKEN_ACCOUNT_LEN
  {
  }

  lemma ListedIsClean(snapshot: seq<Balance>, world: World, subAccount: Pubkey, key: Pubkey)
    requires Faithful(snapshot, world, subAccount) && Listed(snapshot, key)
    ensures IsCustody(world(key), subAccount) && !HasTransferAuthority(world(key).data)
  {
  }

  lemma ListedAppend(snapshot: seq<Balance>, balance: Balance, key: Pubkey)
    ensures Listed(snapshot + [balance], key) <==> Listed(snapshot, key) || key == balance.key
  {
    var more := snapshot + [balance];
    if Listed(snapshot, key) {
      var i :| 0 <= i < |snapshot| && snapshot[i].key == key;
      assert more[i] == snapshot[i];
    }
    assert more[|snapshot|] == balance;
  }

  lemma WritableSplit(metas: seq<Meta>, key: Pubkey)
    requires metas != []
    ensures Writable(metas, key) <==> (metas[0].isWritable && metas[0].key == key) || Writable(metas[1..], key)
  {
    WritableLater(metas, key);
    if Writable(metas[1..], key) {
      var i :| 0 <= i < |metas[1..]| && metas[1..][i].isWritable && metas[1..][i].key == key;
      assert metas[i + 1] == metas[1..][i];
    }
  }

  /** The second look passes exactly when every listed account is among the accounts, still clean
      custody, at its balance. */
  lemma {:induction false} UnchangedSucceedsExactly(snapshot: seq<Balance>, infos: seq<Pubkey>, world: World,
                                                    subAccount: Pubkey)
    ensures VerifyUnchanged(snapshot, infos, world, subAccount).Ok?
            <==> forall i :: 0 <= i < |snapshot| ==>
                   && snapshot[i].key in infos && IsCustody(world(snapshot[i].key), subAccount)
                   && !HasTransferAuthority(world(snapshot[i].key).data)
                   && TokenAmount(world(snapshot[i].key)) == Ok(snapshot[i].amount)
  {
    hide IsCustody, HasTransferAuthority, TokenAmount;
    if snapshot != [] {
      UnchangedSucceedsExactly(snapshot[1..], infos, world, subAccount);
      assert forall i :: 1 <= i < |snapshot| ==> snapshot[i] == snapshot[1..][i - 1];
      if IsCustody(world(snapshot[0].key), subAccount) {
        CustodyHasAmount(world(snapshot[0].key), subAccount);
      }
    }
  }

  /** The custody frame of an accepted swap: for any call that changes only accounts it was given
      as writable, every other custody of the sub-account keeps its balance and stays its
      custody; one the call could write is clean before and after, any other is untouched. */
  lemma SwapKeepsOtherCustody(h: Hash, context: SwapContext, args: SwapArgs, before: World, after: World, key: Pubkey)
    requires TrySwap(h, context, args, before, Ok(after)).Ok?
    requires OnlyWrites(ValidateAuthorizedCpi(h, context.action, context.subAccount, args.request).value.call.metas,
                        before, after)
    requires key != context.inputCustody && key != context.outputCustody
    requires IsCustody(before(key), context.subAccount)
    ensures var metas := ValidateAuthorizedCpi(h, context.action, context.subAccount, args.request).value.call.metas;
            && IsCustody(after(key), context.subAccount)
            && TokenAmount(after(key)) == TokenAmount(before(key))
            && (if Writable(metas, key)
                then !HasTransferAuthority(before(key).data) && !HasTransferAuthority(after(key).data)
                else after(key) == before(key))
  {
    hide ValidateAuthorizedCpi, SnapshotFrom, VerifyUnchanged, VerifySwapValue, VerifySwapEndpointUnchanged,
         TokenAmount;
    var cpi := ValidateAuthorizedCpi(h, context.action, context.subAccount, args.request).value;
    var exempt := [context.inputCustody, context.outputCustody];
    if Writable(cpi.call.metas, key) {
      SnapshotFindsCustody(cpi.call.metas, before, context.subAccount, exempt, [], key);
      var snapshot := SnapshotFrom(cpi.call.metas, before, context.subAccount, exempt, []).value;
      var i :| 0 <= i < |snapshot| && snapshot[i].key == key;
      VerifiedIsUnchanged(snapshot, Keys(cpi.infos), after, context.subAccount, i);
    }
  }

  /** The endpoints of an accepted swap differ in nothing but their amounts, and those moved by
      the realized flow, inside the caller's bounds. */
  lemma SwapMovesOnlyAmounts(h: Hash, context: SwapContext, args: SwapArgs, before: World, after: World)
    requires TrySwap(h, context, args, before, Ok(after)).Ok?
    ensures var flow := TrySwap(h, context, args, before, Ok(after)).value;
            && flow.spent <= args.maxIn && args.minOut <= flow.received
            && TokenAmount(before(context.inputCustody)).Ok? && TokenAmount(after(context.inputCustody)).Ok?
            && TokenAmount(before(context.outputCustody)).Ok? && TokenAmount(after(context.outputCustody)).Ok?
            && TokenAmount(after(context.inputCustody)).value
               == TokenAmount(before(context.inputCustody)).value - flow.spent
            && TokenAmount(after(context.outputCustody)).value
               == TokenAmount(before(context.outputCustody)).value + flow.received
    ensures forall key | key in {context.inputCustody, context.outputCustody} ::
              && |after(key).data| == |before(key).data|
              && (forall i :: 0 <= i < |before(key).data| && !(TOKEN_ACCOUNT_AMOUNT <= i < TOKEN_ACCOUNT_AMOUNT + 8)
                    ==> after(key).data[i] == before(key).data[i])
              && IsCustody(after(key), context.subAccount) && !HasCloseAuthority(after(key).data)
              && Tag(after(key).data, TOKEN_ACCOUNT_DELEGATE) == Tag(before(key).data, TOKEN_ACCOUNT_DELEGATE)
  {
    hide ValidateAuthorizedCpi, SnapshotFrom, VerifyUnchanged, VerifySwapValue, VerifySwapEndpointUnchanged, Tag;
    forall key | key in {context.inputCustody, context.outputCustody}
      ensures |after(key).data| == |before(key).data|
      ensures forall i :: 0 <= i < |before(key).data| && !(TOKEN_ACCOUNT_AMOUNT <= i < TOKEN_ACCOUNT_AMOUNT + 8)
                ==> after(key).data[i] == before(key).data[i]
      ensures IsCustody(after(key), context.subAccount) && !HasCloseAuthority(after(key).data)
      ensures Tag(after(key).data, TOKEN_ACCOUNT_DELEGATE) == Tag(before(key).data, TOKEN_ACCOUNT_DELEGATE)
    {
      EndpointFrame(before(key).data, after(key));
      assert after(key).data[TOKEN_ACCOUNT_OWNER..TOKEN_ACCOUNT_OWNER + 32]
          == before(key).data[TOKEN_ACCOUNT_OWNER..TOKEN_ACCOUNT_OWNER + 32];
    }
  }

  /** `value` is what `amount` of an endpoint's mint is worth in base atoms: the amount itself for
      the base mint; for an asset the floor of the exact two-leg value, over the supplied base
      price when its feed is routed and over a price of one when it is direct. */
  ghost predicate Worth(leg: Leg, amount: U64, basePrice: Option<OraclePrice>, baseDecimals: U8, value: int) {
    match leg
    case Base => value == amount
    case Asset(decimals, routed, price) =>
      && (routed ==> basePrice.Some?)
      && var baseValue: nat := if routed then basePrice.value.value else 1;
      && var baseScale: nat := if routed then basePrice.value.decimals else 0;
      && var unit := baseValue * TenTo(decimals + price.decimals);
         value * unit <= amount * price.value * TenTo(baseDecimals + baseScale) < (value + 1) * unit
  }

  lemma ValueIsTheFloor(leg: Leg, amount: U64, basePrice: Option<OraclePrice>, baseDecimals: U8)
    requires ValueInBaseAtoms(leg, amount, basePrice, baseDecimals).Ok?
    ensures Worth(leg, amount, basePrice, baseDecimals, ValueInBaseAtoms(leg, amount, basePrice, baseDecimals).value)
  {
    hide BaseAtomsFromAssetAtoms, TenTo;
  }

  /** When an endpoint can be valued: a routed feed has its base price, that price is not zero, and
      nothing on the way overflows. */
  ghost predicate Valuable(leg: Leg, amount: U64, basePrice: Option<OraclePrice>, baseDecimals: U8) {
    match leg
    case Base => true
    case Asset(decimals, routed, price) =>
      && (routed ==> basePrice.Some?)
      && var baseValue: nat := if routed then basePrice.value.value else 1;
      && var baseScale: nat := if routed then basePrice.value.decimals else 0;
      && baseValue != 0 && amount * price.value <= U128_MAX
      && ConversionFits(amount * price.value, baseValue, baseDecimals + baseScale, decimals + price.decimals)
      && amount * price.value * TenTo(baseDecimals + baseScale)
         < (U64_MAX + 1) * (baseValue * TenTo(decimals + price.decimals))
  }

  lemma ValuedExactly(leg: Leg, amount: U64, basePrice: Option<OraclePrice>, baseDecimals: U8)
    ensures ValueInBaseAtoms(leg, amount, basePrice, baseDecimals).Ok?
        <==> Valuable(leg, amount, basePrice, baseDecimals)
  {
    hide BaseAtomsFromAssetAtoms, TenTo, ConversionFits;
    if leg.Asset? && (leg.routed ==> basePrice.Some?) {
      ConversionSucceedsExactly(amount, leg.price, if leg.routed then basePrice.value else UNIT_PRICE,
                                leg.decimals, baseDecimals);
    }
  }

  /** The value bound is exact: with a tolerance configured, a flow passes exactly when both
      endpoints can be valued and what came in is worth at least what went out less the
      tolerance. */
  lemma SwapValueIsBounded(context: SwapContext, flow: Flow, spentValue: nat, receivedValue: nat)
    requires 0 < context.maxSwapSlippageBps <= BPS_DENOMINATOR
    requires var v := context.valuation;
             && Worth(v.input, flow.spent, v.basePrice, context.baseDecimals, spentValue)
             && Worth(v.output, flow.received, v.basePrice, context.baseDecimals, receivedValue)
    ensures var v := context.valuation;
            VerifySwapValue(context, flow).Ok?
            <==> && Valuable(v.input, flow.spent, v.basePrice, context.baseDecimals)
                 && Valuable(v.output, flow.received, v.basePrice, context.baseDecimals)
                 && spentValue * (10_000 - context.maxSwapSlippageBps) <= receivedValue * 10_000
  {
    hide ValueInBaseAtoms, BpsCeil, Worth, Valuable;
    var v := context.valuation;
    ValuedExactly(v.input, flow.spent, v.basePrice, context.baseDecimals);
    ValuedExactly(v.output, flow.received, v.basePrice, context.baseDecimals);
    if Valuable(v.input, flow.spent, v.basePrice, context.baseDecimals)
       && Valuable(v.output, flow.received, v.basePrice, context.baseDecimals)
    {
      var spent := ValueInBaseAtoms(v.input, flow.spent, v.basePrice, context.baseDecimals).value;
      var received := ValueInBaseAtoms(v.output, flow.received, v.basePrice, context.baseDecimals).value;
      ValueIsTheFloor(v.input, flow.spent, v.basePrice, context.baseDecimals);
      ValueIsTheFloor(v.output, flow.received, v.basePrice, context.baseDecimals);
      WorthIsUnique(v.input, flow.spent, v.basePrice, context.baseDecimals, spent, spentValue);
      WorthIsUnique(v.output, flow.received, v.basePrice, context.baseDecimals, received, receivedValue);
      CeilReached(spent, context.maxSwapSlippageBps, received);
    }
  }

  /** So with a tolerance configured it passes exactly when both endpoints have a value and those
      values keep to it: an endpoint that cannot be valued is refused. */
  lemma ValuedSwapPassesExactly(context: SwapContext, flow: Flow)
    requires 0 < context.maxSwapSlippageBps <= BPS_DENOMINATOR
    ensures var v := context.valuation;
            VerifySwapValue(context, flow).Ok?
            <==> && Valuable(v.input, flow.spent, v.basePrice, context.baseDecimals)
                 && Valuable(v.output, flow.received, v.basePrice, context.baseDecimals)
                 && exists spentValue: nat, receivedValue: nat ::
                      && Worth(v.input, flow.spent, v.basePrice, context.baseDecimals, spentValue)
                      && Worth(v.output, flow.received, v.basePrice, context.baseDecimals, receivedValue)
                      && spentValue * (10_000 - context.maxSwapSlippageBps) <= receivedValue * 10_000
  {
    hide ValueInBaseAtoms, BpsCeil, Worth, Valuable;
    var v := context.valuation;
    ValuedExactly(v.input, flow.spent, v.basePrice, context.baseDecimals);
    ValuedExactly(v.output, flow.received, v.basePrice, context.baseDecimals);
    var spent := ValueInBaseAtoms(v.input, flow.spent, v.basePrice, context.baseDecimals);
    var received := ValueInBaseAtoms(v.output, flow.received, v.basePrice, context.baseDecimals);
    if spent.Ok? && received.Ok? {
      ValueIsTheFloor(v.input, flow.spent, v.basePrice, context.baseDecimals);
      ValueIsTheFloor(v.output, flow.received, v.basePrice, context.baseDecimals);
      SwapValueIsBounded(context, flow, spent.value, received.value);
      forall s: nat | Worth(v.input, flow.spent, v.basePrice, context.baseDecimals, s) ensures s == spent.value {
        WorthIsUnique(v.input, flow.spent, v.basePrice, context.baseDecimals, s, spent.value);
      }
      forall r: nat | Worth(v.output, flow.received, v.basePrice, context.baseDecimals, r) ensures r == received.value {
        WorthIsUnique(v.output, flow.received, v.basePrice, context.baseDecimals, r, received.value);
      }
    }
  }

  /** Without a tolerance configured there is no value bound; with one above 100% nothing passes. */
  lemma ValueBoundIsOptional(context: SwapContext, flow: Flow)
    ensures context.maxSwapSlippageBps == 0 ==> VerifySwapValue(context, flow).Ok?
    ensures context.maxSwapSlippageBps > 10_000 ==> VerifySwapValue(context, flow).Err?
  {
    hide ValueInBaseAtoms;
  }

  lemma WorthIsUnique(leg: Leg, amount: U64, basePrice: Option<OraclePrice>, baseDecimals: U8, value: nat, value': nat)
    requires Valuable(leg, amount, basePrice, baseDecimals)
    requires Worth(leg, amount, basePrice, baseDecimals, value) && Worth(leg, amount, basePrice, baseDecimals, value')
    ensures value == value'
  {
    hide TenTo, ConversionFits;
    if leg.Asset? {
      var baseValue: nat := if leg.routed then basePrice.value.value else 1;
      TenToMono(0, leg.decimals + leg.price.decimals);
      MulLe(1, baseValue, TenTo(leg.decimals + leg.price.decimals));
      CancelLt(value, value' + 1, baseValue * TenTo(leg.decimals + leg.price.decimals));
      CancelLt(value', value + 1, baseValue * TenTo(leg.decimals + leg.price.decimals));
    }
  }

  /** A ceiled minimum is reached exactly when the exact minimum is. */
  lemma CeilReached(spent: U64, slippageBps: U16, received: U64)
    requires slippageBps <= BPS_DENOMINATOR
    ensures BpsCeil(spent, BPS_DENOMINATOR - slippageBps).Ok?
    ensures BpsCeil(spent, BPS_DENOMINATOR - slippageBps).value <= received
            <==> spent * (10_000 - slippageBps) <= received * 10_000
  {
    hide BpsCeil;
    var minValue: int := BpsCeil(spent, BPS_DENOMINATOR - slippageBps).value;
    if minValue <= received {
      MulLe(minValue, received, 10_000);
    } else {
      MulLe(received, minValue - 1, 10_000);
    }
  }

  /** So with a tolerance configured, an accepted swap received at least its value less the
      tolerance, both sides valued at their floors. */
  lemma AcceptedSwapKeepsValue(h: Hash, context: SwapContext, args: SwapArgs, before: World, after: World)
    returns (spentValue: nat, receivedValue: nat)
    requires TrySwap(h, context, args, before, Ok(after)).Ok? && context.maxSwapSlippageBps > 0
    ensures var flow, v := TrySwap(h, context, args, before, Ok(after)).value, context.valuation;
            && Worth(v.input, flow.spent, v.basePrice, context.baseDecimals, spentValue)
            && Worth(v.output, flow.received, v.basePrice, context.baseDecimals, receivedValue)
    ensures spentValue * (10_000 - context.maxSwapSlippageBps) <= receivedValue * 10_000
  {
    hide ExecuteSwapCpi, ValueInBaseAtoms, LoadSwap, BpsCeil, Worth, Valuable;
    var flow, v := TrySwap(h, context, args, before, Ok(after)).value, context.valuation;
    ValueIsTheFloor(v.input, flow.spent, v.basePrice, context.baseDecimals);
    ValueIsTheFloor(v.output, flow.received, v.basePrice, context.baseDecimals);
    spentValue := ValueInBaseAtoms(v.input, flow.spent, v.basePrice, context.baseDecimals).value;
    receivedValue := ValueInBaseAtoms(v.output, flow.received, v.basePrice, context.baseDecimals).value;
    CeilReached(spentValue, context.maxSwapSlippageBps, receivedValue);
  }

  /** Before the call: two different custodies of the sub-account without a close authority, a swap
      action, and every other custody the call can write clean. */
  ghost predicate SwapReady(context: SwapContext, metas: seq<Meta>, before: World) {
    && context.inputCustody != context.outputCustody && context.action.scope == SwapScope
    && IsCustody(before(context.inputCustody), context.subAccount)
    && !HasCloseAuthority(before(context.inputCustody).data)
    && IsCustody(before(context.outputCustody), context.subAccount)
    && !HasCloseAuthority(before(context.outputCustody).data)
    && forall key :: Tracked(metas, before, context.subAccount, [context.inputCustody, context.outputCustody], key) ==>
         !HasTransferAuthority(before(key).data)
  }

  /** After it: those other custodies still clean at their balances, and the endpoints readable and
      byte-identical outside their amounts. */
  ghost predicate SwapLeft(context: SwapContext, metas: seq<Meta>, before: World, after: World)
    requires SwapReady(context, metas, before)
  {
    && (forall key :: Tracked(metas, before, context.subAccount, [context.inputCustody, context.outputCustody], key) ==>
          && IsCustody(after(key), context.subAccount) && !HasTransferAuthority(after(key).data)
          && TokenAmount(after(key)) == TokenAmount(before(key)))
    && OutsideAmount(before(context.inputCustody).data, after(context.inputCustody).data)
    && OutsideAmount(before(context.outputCustody).data, after(context.outputCustody).data)
    && Initialized(after(context.inputCustody)) && Initialized(after(context.outputCustody))
  }

  ghost predicate OutsideAmount(pre: Bytes, post: Bytes) {
    && |post| == |pre|
    && forall i :: 0 <= i < |pre| && !(TOKEN_ACCOUNT_AMOUNT <= i < TOKEN_ACCOUNT_AMOUNT + 8) ==> post[i] == pre[i]
  }

  /** An accepted swap, exactly: the action authorizes the call, the accounts were ready for it and
      are left in order, the input paid at most the maximum, the output received at least the
      minimum, and the flow keeps its value. */
  lemma SwapSucceedsExactly(h: Hash, context: SwapContext, args: SwapArgs, before: World, after: World)
    ensures TrySwap(h, context, args, before, Ok(after)).Ok?
            <==> && ValidateAuthorizedCpi(h, context.action, context.subAccount, args.request).Ok?
                 && var metas := ValidateAuthorizedCpi(h, context.action, context.subAccount,
                                                       args.request).value.call.metas;
                 && SwapReady(context, metas, before)
                 && SwapLeft(context, metas, before, after)
                 && var spent := TokenAmount(before(context.inputCustody)).value as int
                                 - TokenAmount(after(context.inputCustody)).value;
                 && var received := TokenAmount(after(context.outputCustody)).value as int
                                    - TokenAmount(before(context.outputCustody)).value;
                 && 0 <= spent <= args.maxIn && 0 <= received && args.minOut <= received
                 && VerifySwapValue(context, Flow(spent, received)).Ok?
  {
    hide ValidateAuthorizedCpi, SnapshotFrom, VerifyUnchanged, VerifySwapValue, VerifySwapEndpointUnchanged,
         TokenAmount, Tracked, HasTransferAuthority, HasCloseAuthority;
    var validated := ValidateAuthorizedCpi(h, context.action, context.subAccount, args.request);
    if validated.Ok? && LoadSwap(context, before).Ok? {
      var cpi := validated.value;
      var exempt := [context.inputCustody, context.outputCustody];
      SnapshotSucceedsExactly(cpi.call.metas, before, context.subAccount, exempt, []);
      EndpointFrame(before(context.inputCustody).data, after(context.inputCustody));
      EndpointFrame(before(context.outputCustody).data, after(context.outputCustody));
      var taken := SnapshotFrom(cpi.call.metas, before, context.subAccount, exempt, []);
      if taken.Ok? {
        UnchangedSucceedsExactly(taken.value, Keys(cpi.infos), after, context.subAccount);
        SnapshotUnchangedExactly(h, context, args.request, before, after);
      }
    }
  }

  /** The snapshot is verified exactly when every custody it tracks is still clean at its balance. */
  lemma SnapshotUnchangedExactly(h: Hash, context: SwapContext, request: Request, before: World, after: World)
    requires ValidateAuthorizedCpi(h, context.action, context.subAccount, request).Ok?
    requires var cpi := ValidateAuthorizedCpi(h, context.action, context.subAccount, request).value;
             SnapshotFrom(cpi.call.metas, before, context.subAccount, [context.inputCustody, context.outputCustody],
                          []).Ok?
    ensures var cpi, exempt := ValidateAuthorizedCpi(h, context.action, context.subAccount, request).value,
                               [context.inputCustody, context.outputCustody];
            var taken := SnapshotFrom(cpi.call.metas, before, context.subAccount, exempt, []).value;
            VerifyUnchanged(taken, Keys(cpi.infos), after, context.subAccount).Ok?
            <==> forall key :: Tracked(cpi.call.metas, before, context.subAccount, exempt, key) ==>
                   && IsCustody(after(key), context.subAccount) && !HasTransferAuthority(after(key).data)
                   && TokenAmount(after(key)) == TokenAmount(before(key))
  {
    hide ValidateAuthorizedCpi, SnapshotFrom, VerifyUnchanged, TokenAmount, IsCustody, HasTransferAuthority;
    var cpi, exempt := ValidateAuthorizedCpi(h, context.action, context.subAccount, request).value,
                       [context.inputCustody, context.outputCustody];
    var metas := cpi.call.metas;
    SnapshotSucceedsExactly(metas, before, context.subAccount, exempt, []);
    var taken := SnapshotFrom(metas, before, context.subAccount, exempt, []).value;
    UnchangedSucceedsExactly(taken, Keys(cpi.infos), after, context.subAccount);
    AuthorizedCpiIsFaithful(h, context.action, context.subAccount, request);
    forall key | Tracked(metas, before, context.subAccount, exempt, key)
      ensures key in Keys(cpi.infos) && Listed(taken, key)
    {
      var i :| 0 <= i < |metas| && metas[i].isWritable && metas[i].key == key;
      assert Keys(cpi.infos)[i] == key;
    }
    forall i | 0 <= i < |taken|
      ensures Tracked(metas, before, context.subAccount, exempt, taken[i].key)
      ensures TokenAmount(before(taken[i].key)) == Ok(taken[i].amount)
    {
      assert Listed(taken, taken[i].key);
    }
  }
}

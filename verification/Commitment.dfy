/** What an action hash commits to, on the fields of the call itself: which bytes, which accounts,
    which sibling instructions. */
module Commitment {
  import opened Outcome
  import opened Bytes
  import opened Actions
  import opened Preimage
  import opened Relay

  /** `siblings[j]` is the first sibling supplied for a relative index. */
  ghost predicate FirstFor(siblings: seq<Sibling>, relativeIndex: I8, j: nat) {
    && j < |siblings| && siblings[j].relativeIndex == relativeIndex
    && forall i :: 0 <= i < j ==> siblings[i].relativeIndex != relativeIndex
  }

  lemma {:induction false} FirstResolves(siblings: seq<Sibling>, relativeIndex: I8) returns (j: nat)
    ensures ResolveSibling(siblings, relativeIndex).Ok? ==>
              FirstFor(siblings, relativeIndex, j) && ResolveSibling(siblings, relativeIndex) == Ok(siblings[j])
    ensures ResolveSibling(siblings, relativeIndex).Err? ==>
              forall i :: 0 <= i < |siblings| ==> siblings[i].relativeIndex != relativeIndex
  {
    j := 0;
    if siblings != [] && siblings[0].relativeIndex != relativeIndex {
      var k := FirstResolves(siblings[1..], relativeIndex);
      j := k + 1;
      assert forall i :: 1 <= i < |siblings| ==> siblings[i] == siblings[1..][i - 1];
    }
  }

  /** Both sequences hold the stretch, and it is the same. */
  ghost predicate SameStretch<T>(a: seq<T>, b: seq<T>, from: nat, len: nat) {
    from + len <= |a| && from + len <= |b| && a[from..from + len] == b[from..from + len]
  }

  /** Two calls agree on everything one op commits: the named stretch of the data, the whole meta
      at the index, the length of the data, and of the first sibling at the relative index its
      program and the named stretch of its data, or the account at the index. */
  ghost predicate AgreeOn(op: Op, call: Call, call': Call) {
    match op
    case Noop => true
    case IngestInstruction(offset, len) => SameStretch(call.data, call'.data, offset, len)
    case IngestAccount(index) => SameStretch(call.metas, call'.metas, index, 1)
    case IngestInstructionDataSize => |call.data| == |call'.data| <= U32_MAX
    case IngestSiblingInstruction(relativeIndex, offset, len) =>
      exists i: nat, j: nat ::
        && FirstFor(call.siblings, relativeIndex, i) && FirstFor(call'.siblings, relativeIndex, j)
        && call.siblings[i].programId == call'.siblings[j].programId
        && SameStretch(call.siblings[i].data, call'.siblings[j].data, offset, len)
    case IngestSiblingAccount(relativeIndex, index) =>
      exists i: nat, j: nat ::
        && FirstFor(call.siblings, relativeIndex, i) && FirstFor(call'.siblings, relativeIndex, j)
        && SameStretch(call.siblings[i].accounts, call'.siblings[j].accounts, index, 1)
  }

  lemma ObservedAlikeAgree(op: Op, call: Call, call': Call)
    requires Observe(op, call).Ok? && Observe(op, call) == Observe(op, call')
    ensures AgreeOn(op, call, call')
  {
    hide ResolveSibling;
    if op.IngestSiblingInstruction? || op.IngestSiblingAccount? {
      var i := FirstResolves(call.siblings, op.relativeIndex);
      var j := FirstResolves(call'.siblings, op.relativeIndex);
      assert FirstFor(call.siblings, op.relativeIndex, i) && FirstFor(call'.siblings, op.relativeIndex, j);
    }
  }

  /** Two calls with one preimage are calls of one program that agree on everything the ops name:
      no committed byte, account, length or sibling can differ. */
  lemma SamePreimageSameFields(ops: Ops, call: Call, call': Call, k: nat)
    requires PreimageOf(ops, call).Ok? && PreimageOf(ops, call') == PreimageOf(ops, call)
    requires k < |Actions.Iter(ops).value|
    ensures call.programId == call'.programId
    ensures AgreeOn(Actions.Iter(ops).value[k], call, call')
  {
    hide Actions.Iter, Observe, AgreeOn, PreimageOf;
    SamePreimageSameObservations(ops, call, ops, call');
    PreimageObserves(ops, call);
    var decoded := Actions.Iter(ops).value;
    assert Observe(decoded[k], call) == Ok(ObserveAll(decoded, call).value[k]);
    assert Observe(decoded[k], call') == Ok(ObserveAll(decoded, call').value[k]);
    ObservedAlikeAgree(decoded[k], call, call');
  }

  lemma PreimageObserves(ops: Ops, call: Call)
    requires PreimageOf(ops, call).Ok?
    ensures Actions.Iter(ops).Ok? && ObserveAll(Actions.Iter(ops).value, call).Ok?
  {
    hide Actions.Iter, Observe;
  }

  /** So any two relays accepted for one action, whoever asks, run one program and agree on
      everything its ops name, or the two preimages collide. */
  lemma RelaysOfAnActionAgree(h: Hash, action: Action, sub: Pubkey, request: Request, sub': Pubkey, request': Request,
                              k: nat)
    requires ValidateAuthorizedCpi(h, action, sub, request).Ok?
    requires ValidateAuthorizedCpi(h, action, sub', request').Ok?
    ensures Actions.Iter(action.ops).Ok?
    ensures var call := ValidateAuthorizedCpi(h, action, sub, request).value.call;
            var call' := ValidateAuthorizedCpi(h, action, sub', request').value.call;
            && PreimageOf(action.ops, call).Ok? && PreimageOf(action.ops, call').Ok?
            && (|| Collides(h, {PreimageOf(action.ops, call).value}, {PreimageOf(action.ops, call').value})
                || (&& call.programId == call'.programId
                    && (k < |Actions.Iter(action.ops).value| ==>
                          AgreeOn(Actions.Iter(action.ops).value[k], call, call'))))
  {
    hide ValidateAuthorizedCpi, Actions.Iter, AgreeOn, PreimageOf;
    AuthorizedCpiIsFaithful(h, action, sub, request);
    AuthorizedCpiIsFaithful(h, action, sub', request');
    var call := ValidateAuthorizedCpi(h, action, sub, request).value.call;
    var call' := ValidateAuthorizedCpi(h, action, sub', request').value.call;
    var p, p' := PreimageOf(action.ops, call), PreimageOf(action.ops, call');
    if p == p' {
      if k < |Actions.Iter(action.ops).value| {
        SamePreimageSameFields(action.ops, call, call', k);
      } else {
        SamePreimageSameObservations(action.ops, call, action.ops, call');
      }
    } else {
      assert p.value != p'.value;
    }
  }

  /** What two transactions agree on for one sibling op. */
  ghost predicate SameTopLevel(op: Op, top: TopLevel, top': TopLevel) {
    match op
    case IngestSiblingInstruction(_, offset, len) =>
      top.programId == top'.programId && SameStretch(top.data, top'.data, offset, len)
    case IngestSiblingAccount(_, index) => SameStretch(top.accounts, top'.accounts, index, 1)
    case _ => true
  }

  /** On chain the siblings are the transactions' own: any two relays accepted for one action stand
      in transactions whose instructions at a committed relative index agree in what the op
      names, or the two preimages collide. */
  lemma RelaysStandBesideTheSame(h: Hash, action: Action, sub: Pubkey, request: Request, sub': Pubkey,
                                 request': Request, k: nat)
    requires ValidateAuthorizedCpi(h, action, sub, request).Ok?
    requires ValidateAuthorizedCpi(h, action, sub', request').Ok?
    requires Actions.Iter(action.ops).Ok? && k < |Actions.Iter(action.ops).value|
    requires var op := Actions.Iter(action.ops).value[k]; op.IngestSiblingInstruction? || op.IngestSiblingAccount?
    ensures var op := Actions.Iter(action.ops).value[k];
            && request.window.Visible? && op.relativeIndex in request.window.instructions
            && request'.window.Visible? && op.relativeIndex in request'.window.instructions
            && PreimageOf(action.ops, ValidateAuthorizedCpi(h, action, sub, request).value.call).Ok?
            && PreimageOf(action.ops, ValidateAuthorizedCpi(h, action, sub', request').value.call).Ok?
            && (|| Collides(h, {PreimageOf(action.ops,
                                           ValidateAuthorizedCpi(h, action, sub, request).value.call).value},
                            {PreimageOf(action.ops, ValidateAuthorizedCpi(h, action, sub', request').value.call).value})
                || SameTopLevel(op, request.window.instructions[op.relativeIndex],
                                request'.window.instructions[op.relativeIndex]))
  {
    hide Actions.Iter, PreimageOf, AgreeOn;
    RelaysOfAnActionAgree(h, action, sub, request, sub', request', k);
    RelayLoadsSiblings(h, action, sub, request);
    RelayLoadsSiblings(h, action, sub', request');
    SiblingsAreTheTransactions(action.ops, request.window, k);
    SiblingsAreTheTransactions(action.ops, request'.window, k);
    var op := Actions.Iter(action.ops).value[k];
    var call := ValidateAuthorizedCpi(h, action, sub, request).value.call;
    var call' := ValidateAuthorizedCpi(h, action, sub', request').value.call;
    if AgreeOn(op, call, call') {
      AgreeOnTops(op, call, call', request.window.instructions[op.relativeIndex],
                  request'.window.instructions[op.relativeIndex]);
    }
  }

  lemma RelayLoadsSiblings(h: Hash, action: Action, sub: Pubkey, request: Request)
    requires ValidateAuthorizedCpi(h, action, sub, request).Ok?
    ensures LoadRequiredSiblings(action.ops, request.window)
            == Ok(ValidateAuthorizedCpi(h, action, sub, request).value.call.siblings)
  {
    hide PreimageOf, BuildMetas, LoadRequiredSiblings;
  }

  lemma AgreeOnTops(op: Op, call: Call, call': Call, top: TopLevel, top': TopLevel)
    requires op.IngestSiblingInstruction? || op.IngestSiblingAccount?
    requires AgreeOn(op, call, call')
    requires ResolveSibling(call.siblings, op.relativeIndex)
             == Ok(Sibling(op.relativeIndex, top.programId, top.data, top.accounts))
    requires ResolveSibling(call'.siblings, op.relativeIndex)
             == Ok(Sibling(op.relativeIndex, top'.programId, top'.data, top'.accounts))
    ensures SameTopLevel(op, top, top')
  {
    hide ResolveSibling, SameStretch;
    var a := FirstResolves(call.siblings, op.relativeIndex);
    var b := FirstResolves(call'.siblings, op.relativeIndex);
    forall i: nat | FirstFor(call.siblings, op.relativeIndex, i) ensures i == a {
      OnlyOneIsFirst(call.siblings, op.relativeIndex, i, a);
    }
    forall j: nat | FirstFor(call'.siblings, op.relativeIndex, j) ensures j == b {
      OnlyOneIsFirst(call'.siblings, op.relativeIndex, j, b);
    }
  }

  /** An op can be observed exactly when everything it names is there. */
  ghost predicate Present(op: Op, call: Call) {
    match op
    case Noop => true
    case IngestInstruction(offset, len) => offset + len <= |call.data|
    case IngestAccount(index) => index < |call.metas|
    case IngestInstructionDataSize => |call.data| <= U32_MAX
    case IngestSiblingInstruction(relativeIndex, offset, len) =>
      exists j: nat :: FirstFor(call.siblings, relativeIndex, j) && offset + len <= |call.siblings[j].data|
    case IngestSiblingAccount(relativeIndex, index) =>
      exists j: nat :: FirstFor(call.siblings, relativeIndex, j) && index < |call.siblings[j].accounts|
  }

  lemma ObservedIsPresent(op: Op, call: Call)
    ensures Observe(op, call).Ok? <==> Present(op, call)
  {
    hide ResolveSibling;
    if op.IngestSiblingInstruction? || op.IngestSiblingAccount? {
      var j := FirstResolves(call.siblings, op.relativeIndex);
      if ResolveSibling(call.siblings, op.relativeIndex).Ok? {
        forall i: nat | FirstFor(call.siblings, op.relativeIndex, i) ensures i == j {
          OnlyOneIsFirst(call.siblings, op.relativeIndex, i, j);
        }
      }
    }
  }

  lemma OnlyOneIsFirst(siblings: seq<Sibling>, relativeIndex: I8, i: nat, j: nat)
    requires FirstFor(siblings, relativeIndex, i) && FirstFor(siblings, relativeIndex, j)
    ensures i == j
  {
  }

  lemma {:induction false} ObservedAllPresent(ops: seq<Op>, call: Call)
    ensures ObserveAll(ops, call).Ok? <==> forall k :: 0 <= k < |ops| ==> Present(ops[k], call)
  {
    hide Observe, Present;
    if ops != [] {
      ObservedIsPresent(ops[0], call);
      ObservedAllPresent(ops[1..], call);
      assert forall k :: 1 <= k < |ops| ==> ops[k] == ops[1..][k - 1];
    }
  }

  /** A call has a preimage exactly when the op list is canonical and everything it names is there. */
  lemma PreimageExistsExactly(ops: Ops, call: Call)
    ensures PreimageOf(ops, call).Ok?
            <==> && Actions.Iter(ops).Ok?
                 && forall k :: 0 <= k < |Actions.Iter(ops).value| ==> Present(Actions.Iter(ops).value[k], call)
  {
    hide Actions.Iter, ObserveAll, Present;
    if Actions.Iter(ops).Ok? {
      ObservedAllPresent(Actions.Iter(ops).value, call);
    }
  }

  /** The bytes of one observation, in the layout the hash is taken over. */
  lemma PrintedLayout(seen: Observed)
    ensures var b := PrintOne(seen);
            match seen
            case Nothing => b == [0]
            case Instruction(offset, slice) =>
              && |b| == 4 + |slice| && b[0] == 1 && b[1] as int == offset % 256 && b[2] as int == offset / 256
              && b[3] == |slice| && b[4..] == slice
            case Account(index, meta) =>
              && |b| == 36 && b[0] == 2 && b[1] == index && b[2..34] == meta.key
              && (b[34] == if meta.isSigner then 1 else 0) && (b[35] == if meta.isWritable then 1 else 0)
            case DataSize(size) =>
              && |b| == 5 && b[0] == 3 && b[1] as int == size % 256 && b[2] as int == size / 256 % 256
              && b[3] as int == size / 0x1_0000 % 256 && b[4] as int == size / 0x100_0000
            case SiblingInstruction(relativeIndex, programId, offset, slice) =>
              && |b| == 36 + |slice| && b[0] == 4 && (b[1] - relativeIndex) % 256 == 0 && b[2..34] == programId
              && b[34] == offset && b[35] == |slice| && b[36..] == slice
            case SiblingAccount(relativeIndex, index, key) =>
              |b| == 35 && b[0] == 5 && (b[1] - relativeIndex) % 256 == 0 && b[2] == index && b[3..] == key
  {
    hide PrintOne;
    match seen
    case Nothing => PrintedNothing();
    case Instruction(offset, slice) => PrintedInstruction(offset, slice);
    case Account(index, meta) => PrintedAccount(index, meta);
    case DataSize(size) => PrintedSize(size);
    case SiblingInstruction(relativeIndex, programId, offset, slice) =>
      PrintedSiblingInstruction(relativeIndex, programId, offset, slice);
    case SiblingAccount(relativeIndex, index, key) => PrintedSiblingAccount(relativeIndex, index, key);
  }

  lemma PrintedNothing()
    ensures PrintOne(Nothing) == [0]
  {
  }

  lemma PrintedInstruction(offset: U16, slice: Slice)
    ensures var b := PrintOne(Instruction(offset, slice));
            && |b| == 4 + |slice| && b[0] == 1 && b[1] as int == offset % 256 && b[2] as int == offset / 256
            && b[3] == |slice| && b[4..] == slice
  {
    hide Le;
    LeByPlaceValue(offset, 2, 0);
    LeByPlaceValue(offset, 2, 1);
  }

  lemma PrintedAccount(index: byte, meta: Meta)
    ensures var b := PrintOne(Account(index, meta));
            && |b| == 36 && b[0] == 2 && b[1] == index && b[2..34] == meta.key
            && (b[34] == if meta.isSigner then 1 else 0) && (b[35] == if meta.isWritable then 1 else 0)
  {
  }

  lemma PrintedSize(size: U32)
    ensures var b := PrintOne(DataSize(size));
            && |b| == 5 && b[0] == 3 && b[1] as int == size % 256 && b[2] as int == size / 256 % 256
            && b[3] as int == size / 0x1_0000 % 256 && b[4] as int == size / 0x100_0000
  {
    hide Le;
    SizeBytes(size);
  }

  lemma PrintedSiblingInstruction(relativeIndex: I8, programId: Pubkey, offset: byte, slice: Slice)
    ensures var b := PrintOne(SiblingInstruction(relativeIndex, programId, offset, slice));
            && |b| == 36 + |slice| && b[0] == 4 && (b[1] - relativeIndex) % 256 == 0 && b[2..34] == programId
            && b[34] == offset && b[35] == |slice| && b[36..] == slice
  {
  }

  lemma PrintedSiblingAccount(relativeIndex: I8, index: byte, key: Pubkey)
    ensures var b := PrintOne(SiblingAccount(relativeIndex, index, key));
            |b| == 35 && b[0] == 5 && (b[1] - relativeIndex) % 256 == 0 && b[2] == index && b[3..] == key
  {
  }

  lemma SizeBytes(n: U32)
    ensures var b := Le(n, 4);
            && b[0] as int == n % 256 && b[1] as int == n / 256 % 256
            && b[2] as int == n / 0x1_0000 % 256 && b[3] as int == n / 0x100_0000
  {
    hide Le;
    LeByPlaceValue(n, 4, 0);
    LeByPlaceValue(n, 4, 1);
    LeByPlaceValue(n, 4, 2);
    LeByPlaceValue(n, 4, 3);
    assert Radix(1) == 0x100 && Radix(2) == 0x1_0000 && Radix(3) == 0x100_0000;
  }

  /** A preimage starts with the program id and goes on with the observations in op order. */
  lemma PreimageLayout(ops: Ops, call: Call)
    requires PreimageOf(ops, call).Ok?
    ensures Actions.Iter(ops).Ok? && ObserveAll(Actions.Iter(ops).value, call).Ok?
    ensures PreimageOf(ops, call).value[..32] == call.programId
    ensures PreimageOf(ops, call).value[32..] == PrintAll(ObserveAll(Actions.Iter(ops).value, call).value)
  {
    hide Actions.Iter, ObserveAll, PrintAll;
  }
}

/** The preimage an action hash commits to (`compute_action_hash_from_metas` in
    `crates/interface/src/action.rs`): what each op observes of a call, how the observations are
    printed, and a parser that reads them back. */
module Preimage {
  import opened Outcome
  import opened Bytes
  import opened Actions

  datatype Meta = Meta(key: Pubkey, isSigner: bool, isWritable: bool)

  datatype Sibling = Sibling(relativeIndex: I8, programId: Pubkey, data: Bytes, accounts: seq<Pubkey>)

  /** The call an action is checked against. */
  datatype Call = Call(programId: Pubkey, metas: seq<Meta>, data: Bytes, siblings: seq<Sibling>)

  /** An instruction slice: its length is committed in one byte. */
  type Slice = s: Bytes | |s| <= U8_MAX

  /** What one op observes. */
  datatype Observed =
    | Nothing
    | Instruction(offset: U16, slice: Slice)
    | Account(index: byte, meta: Meta)
    | DataSize(size: U32)
    | SiblingInstruction(relativeIndex: I8, programId: Pubkey, siblingOffset: byte, siblingSlice: Slice)
    | SiblingAccount(relativeIndex: I8, siblingIndex: byte, key: Pubkey)

  function InstructionSlice(data: Bytes, offset: nat, len: byte): Result<Slice> {
    if offset + len <= |data| then Ok(data[offset..offset + len]) else Err(InstructionSliceOutOfBounds)
  }

  /** The first sibling supplied for a relative index. */
  function ResolveSibling(siblings: seq<Sibling>, relativeIndex: I8): Result<Sibling> {
    if siblings == [] then Err(MissingSibling)
    else if siblings[0].relativeIndex == relativeIndex then Ok(siblings[0])
    else ResolveSibling(siblings[1..], relativeIndex)
  }

  function Observe(op: Op, call: Call): Result<Observed> {
    match op
    case Noop => Ok(Nothing)
    case IngestInstruction(offset, len) =>
      var slice :- InstructionSlice(call.data, offset, len);
      Ok(Instruction(offset, slice))
    case IngestAccount(index) =>
      if index < |call.metas| then Ok(Account(index, call.metas[index])) else Err(AccountIndexOutOfBounds)
    case IngestInstructionDataSize =>
      if |call.data| <= U32_MAX then Ok(DataSize(|call.data|)) else Err(InvalidInstructionData)
    case IngestSiblingInstruction(relativeIndex, offset, len) =>
      var sibling :- ResolveSibling(call.siblings, relativeIndex);
      var slice :- InstructionSlice(sibling.data, offset, len);
      Ok(SiblingInstruction(relativeIndex, sibling.programId, offset, slice))
    case IngestSiblingAccount(relativeIndex, index) =>
      var sibling :- ResolveSibling(call.siblings, relativeIndex);
      if index < |sibling.accounts| then Ok(SiblingAccount(relativeIndex, index, sibling.accounts[index]))
      else Err(AccountIndexOutOfBounds)
  }

  /** The op an observation came from. */
  function OpOf(seen: Observed): Op {
    match seen
    case Nothing => Noop
    case Instruction(offset, slice) => IngestInstruction(offset, |slice|)
    case Account(index, _) => IngestAccount(index)
    case DataSize(_) => IngestInstructionDataSize
    case SiblingInstruction(relativeIndex, _, offset, slice) => IngestSiblingInstruction(relativeIndex, offset, |slice|)
    case SiblingAccount(relativeIndex, index, _) => IngestSiblingAccount(relativeIndex, index)
  }

  function ObserveAll(ops: seq<Op>, call: Call): (r: Result<seq<Observed>>)
    ensures r.Ok? ==> |r.value| == |ops|
    ensures r.Ok? ==> forall i :: 0 <= i < |ops| ==> Observe(ops[i], call) == Ok(r.value[i])
  {
    if ops == [] then Ok([])
    else
      var first :- Observe(ops[0], call);
      var rest :- ObserveAll(ops[1..], call);
      Ok([first] + rest)
  }

  function Flag(b: bool): byte {
    if b then 1 else 0
  }

  function PrintOne(seen: Observed): Bytes {
    match seen
    case Nothing => [0]
    case Instruction(offset, slice) => [1] + Le(offset, 2) + [|slice|] + slice
    case Account(index, meta) => [2, index] + meta.key + [Flag(meta.isSigner), Flag(meta.isWritable)]
    case DataSize(size) => [3] + Le(size, 4)
    case SiblingInstruction(relativeIndex, programId, offset, slice) =>
      [4, ToByte(relativeIndex)] + programId + [offset, |slice|] + slice
    case SiblingAccount(relativeIndex, index, key) => [5, ToByte(relativeIndex), index] + key
  }

  function PrintAll(seen: seq<Observed>): Bytes {
    if seen == [] then [] else PrintOne(seen[0]) + PrintAll(seen[1..])
  }

  function Print(programId: Pubkey, seen: seq<Observed>): Bytes {
    programId + PrintAll(seen)
  }

  /** The preimage of a call under an action's ops. The length pass reads every op first, so an
      op that is not canonical is reported before anything it or another op observes. */
  function PreimageOf(ops: Ops, call: Call): Result<Bytes> {
    var decoded :- Iter(ops);
    var seen :- ObserveAll(decoded, call);
    Ok(Print(call.programId, seen))
  }

  function OpLen(op: Op): nat {
    match op
    case Noop => 1
    case IngestInstruction(_, len) => 4 + len
    case IngestAccount(_) => 36
    case IngestInstructionDataSize => 5
    case IngestSiblingInstruction(_, _, len) => 36 + len
    case IngestSiblingAccount(_, _) => 35
  }

  ghost function LenOf(ops: seq<Op>): nat {
    if ops == [] then 0 else OpLen(ops[0]) + LenOf(ops[1..])
  }

  method PreimageLen(ops: Ops) returns (r: Result<nat>)
    ensures r.Ok? <==> Iter(ops).Ok?
    ensures r.Err? ==> r.error == Iter(ops).error
    ensures r.Ok? ==> r.value == 32 + LenOf(Iter(ops).value)
  {
    if ops.opsLen > MAX_ACTION_OPS {
      return Err(TooManyOps);
    }
    var stored := ops.ops[..ops.opsLen];
    var len := 32;
    var i := 0;
    while i < |stored|
      invariant 0 <= i <= |stored|
      invariant DecodeAll(stored).Ok? <==> DecodeAll(stored[i..]).Ok?
      invariant DecodeAll(stored).Ok? ==>
                  32 + LenOf(DecodeAll(stored).value) == len + LenOf(DecodeAll(stored[i..]).value)
    {
      assert stored[i..][0] == stored[i] && stored[i..][1..] == stored[i + 1..];
      var op :- Decode(stored[i]);
      len := len + OpLen(op);
      i := i + 1;
    }
    return Ok(len);
  }

  /** The single growing buffer the hash is taken over. */
  method ComputePreimage(ops: Ops, call: Call) returns (r: Result<Bytes>, reserved: nat)
    ensures r == PreimageOf(ops, call)
    ensures r.Ok? ==> |r.value| == reserved
  {
    hide PrintOne, PrintAll, Observe, ObserveAll, Iter, LenOf;
    var capacity := PreimageLen(ops);
    if capacity.Err? {
      return Err(capacity.error), 0;
    }
    var decoded := Iter(ops).value;
    var preimage: Bytes := call.programId;
    var i := 0;
    assert decoded[i..] == decoded;
    while i < |decoded|
      invariant 0 <= i <= |decoded|
      invariant Continues(PreimageOf(ops, call), preimage, ObserveAll(decoded[i..], call))
    {
      ObserveNext(decoded, call, i);
      var seen := Observe(decoded[i], call);
      if seen.Err? {
        return Err(seen.error), 0;
      }
      ghost var rest := ObserveAll(decoded[i + 1..], call);
      if rest.Ok? {
        PrintCons(seen.value, rest.value);
        Append(preimage, PrintOne(seen.value), PrintAll(rest.value));
      }
      preimage := preimage + PrintOne(seen.value);
      i := i + 1;
    }
    NothingLeft(decoded, call, preimage);
    PreimageLength(ops, call);
    return Ok(preimage), capacity.value;
  }

  /** `whole` is what was printed so far with what the rest of the ops observe behind it. */
  ghost predicate Continues(whole: Result<Bytes>, printed: Bytes, rest: Result<seq<Observed>>) {
    match rest
    case Ok(seen) => whole == Ok(printed + PrintAll(seen))
    case Err(e) => whole == Err(e)
  }

  lemma ObserveNext(ops: seq<Op>, call: Call, i: nat)
    requires i < |ops|
    ensures var rest := ObserveAll(ops[i + 1..], call);
            ObserveAll(ops[i..], call)
            == match Observe(ops[i], call)
               case Err(e) => Err(e)
               case Ok(seen) => if rest.Err? then rest else Ok([seen] + rest.value)
  {
    hide Observe;
    assert ops[i..][0] == ops[i] && ops[i..][1..] == ops[i + 1..];
  }

  lemma Append(a: Bytes, b: Bytes, c: Bytes)
    ensures a + (b + c) == a + b + c
  {
  }

  lemma NothingLeft(ops: seq<Op>, call: Call, printed: Bytes)
    ensures ObserveAll(ops[|ops|..], call) == Ok([])
    ensures printed + PrintAll([]) == printed
  {
  }

  lemma PrintCons(first: Observed, rest: seq<Observed>)
    ensures PrintAll([first] + rest) == PrintOne(first) + PrintAll(rest)
  {
    assert ([first] + rest)[1..] == rest;
  }

  lemma ObservesItsOp(op: Op, call: Call)
    requires Observe(op, call).Ok?
    ensures OpOf(Observe(op, call).value) == op
    ensures |PrintOne(Observe(op, call).value)| == OpLen(op)
  {
  }

  lemma {:induction false} PrintedLength(ops: seq<Op>, call: Call)
    requires ObserveAll(ops, call).Ok?
    ensures |PrintAll(ObserveAll(ops, call).value)| == LenOf(ops)
  {
    hide PrintOne, Observe;
    if ops != [] {
      ObservesItsOp(ops[0], call);
      PrintedLength(ops[1..], call);
      var seen := ObserveAll(ops, call).value;
      assert seen[1..] == ObserveAll(ops[1..], call).value;
    }
  }

  /** The length pass is exact: the buffer is never grown and never short. */
  lemma PreimageLength(ops: Ops, call: Call)
    requires PreimageOf(ops, call).Ok?
    ensures |PreimageOf(ops, call).value| == 32 + LenOf(Iter(ops).value)
  {
    PrintedLength(Iter(ops).value, call);
  }

  datatype Parsed = Parsed(seen: Observed, rest: Bytes)

  /** Read one observation off the front. */
  function ParseOne(b: Bytes): (r: Result<Parsed>)
    ensures r.Ok? ==> |r.value.rest| < |b|
  {
    if b == [] then Err(InvalidOp)
    else if b[0] == 0 then Ok(Parsed(Nothing, b[1..]))
    else if b[0] == 1 && |b| >= 4 && |b| - 4 >= b[3] then
      FromLeRoundTrip(b[1..3]);
      Widths();
      Ok(Parsed(Instruction(FromLe(b[1..3]), b[4..4 + b[3]]), b[4 + b[3]..]))
    else if b[0] == 2 && |b| >= 36 && b[34] <= 1 && b[35] <= 1 then
      Ok(Parsed(Account(b[1], Meta(b[2..34], b[34] == 1, b[35] == 1)), b[36..]))
    else if b[0] == 3 && |b| >= 5 then
      FromLeRoundTrip(b[1..5]);
      Widths();
      Ok(Parsed(DataSize(FromLe(b[1..5])), b[5..]))
    else if b[0] == 4 && |b| >= 36 && |b| - 36 >= b[35] then
      Ok(Parsed(SiblingInstruction(FromByte(b[1]), b[2..34], b[34], b[36..36 + b[35]]), b[36 + b[35]..]))
    else if b[0] == 5 && |b| >= 35 then
      Ok(Parsed(SiblingAccount(FromByte(b[1]), b[2], b[3..35]), b[35..]))
    else Err(InvalidOp)
  }

  function ParseAll(b: Bytes): Result<seq<Observed>>
    decreases |b|
  {
    if b == [] then Ok([])
    else
      var one :- ParseOne(b);
      var more :- ParseAll(one.rest);
      Ok([one.seen] + more)
  }

  datatype Route = Route(programId: Pubkey, seen: seq<Observed>)

  function Parse(b: Bytes): Result<Route> {
    if |b| < 32 then Err(InvalidOp)
    else
      var seen :- ParseAll(b[32..]);
      Ok(Route(b[..32], seen))
  }

  /** One observation is read back from its own bytes, whatever follows. */
  lemma ParsePrintOne(seen: Observed, rest: Bytes)
    ensures ParseOne(PrintOne(seen) + rest) == Ok(Parsed(seen, rest))
  {
    hide ParseOne, PrintOne;
    match seen
    case Nothing => ParsePrintNothing(rest);
    case Instruction(_, _) => ParsePrintInstruction(seen, rest);
    case Account(_, _) => ParsePrintAccount(seen, rest);
    case DataSize(_) => ParsePrintDataSize(seen, rest);
    case SiblingInstruction(_, _, _, _) => ParsePrintSibling(seen, rest);
    case SiblingAccount(_, _, _) => ParsePrintSiblingAccount(seen, rest);
  }

  lemma ParsePrintNothing(rest: Bytes)
    ensures ParseOne(PrintOne(Nothing) + rest) == Ok(Parsed(Nothing, rest))
  {
    assert ([0] + rest)[1..] == rest;
  }

  lemma ParsePrintInstruction(seen: Observed, rest: Bytes)
    requires seen.Instruction?
    ensures ParseOne(PrintOne(seen) + rest) == Ok(Parsed(seen, rest))
  {
    hide Le, FromLe;
    Widths();
    LeRoundTrip(seen.offset, 2);
    var le, n := Le(seen.offset, 2), |seen.slice|;
    var b := PrintOne(seen) + rest;
    assert b == [1] + le + [n] + seen.slice + rest;
    assert b[1..3] == le && b[3] == n;
    assert b[4..4 + n] == seen.slice && b[4 + n..] == rest;
  }

  lemma ParsePrintAccount(seen: Observed, rest: Bytes)
    requires seen.Account?
    ensures ParseOne(PrintOne(seen) + rest) == Ok(Parsed(seen, rest))
  {
    hide Le, FromLe;
    var b := PrintOne(seen) + rest;
    assert b[2..34] == seen.meta.key && b[36..] == rest;
  }

  lemma ParsePrintDataSize(seen: Observed, rest: Bytes)
    requires seen.DataSize?
    ensures ParseOne(PrintOne(seen) + rest) == Ok(Parsed(seen, rest))
  {
    hide Le, FromLe;
    Widths();
    LeRoundTrip(seen.size, 4);
    var b := PrintOne(seen) + rest;
    assert b[1..5] == Le(seen.size, 4) && b[5..] == rest;
  }

  lemma ParsePrintSibling(seen: Observed, rest: Bytes)
    requires seen.SiblingInstruction?
    ensures ParseOne(PrintOne(seen) + rest) == Ok(Parsed(seen, rest))
  {
    hide Le, FromLe;
    var n := |seen.siblingSlice|;
    var b := PrintOne(seen) + rest;
    assert b == [4, ToByte(seen.relativeIndex)] + seen.programId + [seen.siblingOffset, n] + seen.siblingSlice + rest;
    assert b[2..34] == seen.programId && b[35] == n;
    assert b[36..36 + n] == seen.siblingSlice && b[36 + n..] == rest;
  }

  lemma ParsePrintSiblingAccount(seen: Observed, rest: Bytes)
    requires seen.SiblingAccount?
    ensures ParseOne(PrintOne(seen) + rest) == Ok(Parsed(seen, rest))
  {
    hide Le, FromLe;
    var b := PrintOne(seen) + rest;
    assert b[3..35] == seen.key && b[35..] == rest;
  }

  /** Whatever is read off the front prints to exactly those bytes. */
  lemma PrintParseOne(b: Bytes)
    requires ParseOne(b).Ok?
    ensures PrintOne(ParseOne(b).value.seen) + ParseOne(b).value.rest == b
  {
    hide ParseOne, PrintOne;
    if b != [] && b[0] == 1 {
      PrintParseInstruction(b);
    } else if b != [] && b[0] == 3 {
      PrintParseDataSize(b);
    } else if b != [] && b[0] == 4 {
      PrintParseSibling(b);
    } else {
      PrintParseFixed(b);
    }
  }

  lemma PrintParseInstruction(b: Bytes)
    requires ParseOne(b).Ok? && b != [] && b[0] == 1
    ensures PrintOne(ParseOne(b).value.seen) + ParseOne(b).value.rest == b
  {
    hide Le, FromLe;
    FromLeRoundTrip(b[1..3]);
    assert b == [1] + b[1..3] + [b[3]] + b[4..4 + b[3]] + b[4 + b[3]..];
  }

  lemma PrintParseDataSize(b: Bytes)
    requires ParseOne(b).Ok? && b != [] && b[0] == 3
    ensures PrintOne(ParseOne(b).value.seen) + ParseOne(b).value.rest == b
  {
    hide Le, FromLe;
    FromLeRoundTrip(b[1..5]);
    assert b == [3] + b[1..5] + b[5..];
  }

  lemma PrintParseSibling(b: Bytes)
    requires ParseOne(b).Ok? && b != [] && b[0] == 4
    ensures PrintOne(ParseOne(b).value.seen) + ParseOne(b).value.rest == b
  {
    hide Le, FromLe;
    assert b == [4, b[1]] + b[2..34] + [b[34], b[35]] + b[36..36 + b[35]] + b[36 + b[35]..];
  }

  /** The observations of a fixed length: nothing, an account, a sibling's account. */
  lemma PrintParseFixed(b: Bytes)
    requires ParseOne(b).Ok? && (b == [] || (b[0] != 1 && b[0] != 3 && b[0] != 4))
    ensures PrintOne(ParseOne(b).value.seen) + ParseOne(b).value.rest == b
  {
    hide Le, FromLe;
    if b[0] == 0 {
      assert b == [0] + b[1..];
    } else if b[0] == 2 {
      assert b == [2, b[1]] + b[2..34] + [b[34], b[35]] + b[36..];
    } else {
      assert b == [5, b[1], b[2]] + b[3..35] + b[35..];
    }
  }

  lemma {:induction false} ParsePrintAll(seen: seq<Observed>)
    ensures ParseAll(PrintAll(seen)) == Ok(seen)
  {
    hide ParseOne, PrintOne;
    if seen != [] {
      ParsePrintOne(seen[0], PrintAll(seen[1..]));
      ParsePrintAll(seen[1..]);
      assert seen == [seen[0]] + seen[1..];
    }
  }

  lemma {:induction false} PrintParseAll(b: Bytes)
    requires ParseAll(b).Ok?
    ensures PrintAll(ParseAll(b).value) == b
    decreases |b|
  {
    hide ParseOne, PrintOne;
    if b != [] {
      PrintParseOne(b);
      PrintParseAll(ParseOne(b).value.rest);
      var seen := ParseAll(b).value;
      assert seen[1..] == ParseAll(ParseOne(b).value.rest).value;
    }
  }

  /** Unique decodability: the bytes determine the route, and the parser accepts nothing that was
      not printed. */
  lemma ParsesExactlyPrints(b: Bytes, programId: Pubkey, seen: seq<Observed>)
    ensures Parse(b) == Ok(Route(programId, seen)) <==> b == Print(programId, seen)
  {
    if b == Print(programId, seen) {
      assert b[..32] == programId && b[32..] == PrintAll(seen);
      ParsePrintAll(seen);
    }
    if Parse(b) == Ok(Route(programId, seen)) {
      PrintParseAll(b[32..]);
      assert b == b[..32] + b[32..];
    }
  }

  /** From a preimage alone the parser recovers the program id, every observed field, and the ops
      that observed them. */
  lemma PreimageDetermines(ops: Ops, call: Call)
    requires PreimageOf(ops, call).Ok?
    ensures var route := Parse(PreimageOf(ops, call).value);
            && route.Ok? && route.value.programId == call.programId
            && ObserveAll(Iter(ops).value, call) == Ok(route.value.seen)
            && |route.value.seen| == |Iter(ops).value|
            && forall i :: 0 <= i < |route.value.seen| ==> OpOf(route.value.seen[i]) == Iter(ops).value[i]
  {
    hide Iter, Parse, Print, Observe, OpOf;
    var decoded := Iter(ops).value;
    var seen := ObserveAll(decoded, call).value;
    ParsesExactlyPrints(PreimageOf(ops, call).value, call.programId, seen);
    forall i | 0 <= i < |seen| ensures OpOf(seen[i]) == decoded[i] {
      ObservesItsOp(decoded[i], call);
    }
  }

  /** Two calls with one preimage are the same program observed the same way by the same ops. */
  lemma SamePreimageSameObservations(ops: Ops, call: Call, ops': Ops, call': Call)
    requires PreimageOf(ops, call).Ok? && PreimageOf(ops', call') == PreimageOf(ops, call)
    ensures call.programId == call'.programId
    ensures Iter(ops) == Iter(ops')
    ensures ObserveAll(Iter(ops).value, call) == ObserveAll(Iter(ops).value, call')
  {
    hide Parse, Observe, OpOf, PreimageOf;
    assert Iter(ops).Ok? && Iter(ops').Ok? by {
      PreimageNeedsOps(ops, call);
      PreimageNeedsOps(ops', call');
    }
    PreimageDetermines(ops, call);
    PreimageDetermines(ops', call');
    assert Iter(ops).value == Iter(ops').value;
  }

  lemma PreimageNeedsOps(ops: Ops, call: Call)
    requires PreimageOf(ops, call).Ok?
    ensures Iter(ops).Ok?
  {
  }
}

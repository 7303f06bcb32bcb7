/** Action predicates and the hash preimage they print (`crates/interface/src/action.rs`). */
module Actions {
  import opened Outcome
  import opened Bytes

  const MAX_ACTION_OPS := 32

  type I8 = n: int | -128 <= n < 128

  datatype Op =
    | Noop
    | IngestInstruction(offset: U16, len: byte)
    | IngestAccount(index: byte)
    | IngestInstructionDataSize
    | IngestSiblingInstruction(relativeIndex: I8, siblingOffset: byte, siblingLen: byte)
    | IngestSiblingAccount(relativeIndex: I8, siblingAccount: byte)

  datatype StoredOp = StoredOp(kind: byte, arg0: byte, arg1: byte, arg2: byte)

  const NOOP := StoredOp(0, 0, 0, 0)

  /** `as u8` and `as i8`: two's complement. */
  function ToByte(n: I8): byte {
    if n < 0 then n + 256 else n
  }

  function FromByte(b: byte): I8 {
    if b < 128 then b else b - 256
  }

  function Encode(op: Op): StoredOp {
    match op
    case Noop => NOOP
    case IngestInstruction(offset, len) => StoredOp(1, len, offset % 256, offset / 256)
    case IngestAccount(index) => StoredOp(2, index, 0, 0)
    case IngestInstructionDataSize => StoredOp(3, 0, 0, 0)
    case IngestSiblingInstruction(relativeIndex, offset, len) => StoredOp(4, ToByte(relativeIndex), offset, len)
    case IngestSiblingAccount(relativeIndex, index) => StoredOp(5, ToByte(relativeIndex), index, 0)
  }

  function Decode(s: StoredOp): Result<Op> {
    if s.kind == 0 && s.arg0 == 0 && s.arg1 == 0 && s.arg2 == 0 then Ok(Noop)
    else if s.kind == 1 then Ok(IngestInstruction(s.arg1 + 256 * s.arg2, s.arg0))
    else if s.kind == 2 && s.arg1 == 0 && s.arg2 == 0 then Ok(IngestAccount(s.arg0))
    else if s.kind == 3 && s.arg0 == 0 && s.arg1 == 0 && s.arg2 == 0 then Ok(IngestInstructionDataSize)
    else if s.kind == 4 then Ok(IngestSiblingInstruction(FromByte(s.arg0), s.arg1, s.arg2))
    else if s.kind == 5 && s.arg2 == 0 then Ok(IngestSiblingAccount(FromByte(s.arg0), s.arg1))
    else Err(InvalidOp)
  }

  /** The codec is a bijection between ops and the stored forms it accepts: a stored op decodes to
      `op` exactly when it is the encoding of `op`. */
  lemma DecodesExactlyEncodings(s: StoredOp, op: Op)
    ensures Decode(s) == Ok(op) <==> s == Encode(op)
  {
  }

  /** The stored form: one kind byte, then the operands; the offset of an instruction slice is little
      endian behind its length, and a relative index is in two's complement. */
  lemma StoredLayout(op: Op)
    ensures var s := Encode(op);
            match op
            case Noop => s.kind == 0 && s.arg0 == s.arg1 == s.arg2 == 0
            case IngestInstruction(offset, len) =>
              s.kind == 1 && s.arg0 == len && s.arg1 as int == offset % 256 && s.arg2 as int == offset / 256
            case IngestAccount(index) => s.kind == 2 && s.arg0 == index && s.arg1 == s.arg2 == 0
            case IngestInstructionDataSize => s.kind == 3 && s.arg0 == s.arg1 == s.arg2 == 0
            case IngestSiblingInstruction(relativeIndex, offset, len) =>
              s.kind == 4 && (s.arg0 - relativeIndex) % 256 == 0 && s.arg1 == offset && s.arg2 == len
            case IngestSiblingAccount(relativeIndex, index) =>
              s.kind == 5 && (s.arg0 - relativeIndex) % 256 == 0 && s.arg1 == index && s.arg2 == 0
  {
  }

  /** The fixed-size list of an Action account. */
  datatype StoredOps = StoredOps(ops: seq<StoredOp>, opsLen: U8)

  type Ops = o: StoredOps | |o.ops| == MAX_ACTION_OPS witness StoredOps(seq(MAX_ACTION_OPS, i => NOOP), 0)

  function EncodeAll(ops: seq<Op>): (r: seq<StoredOp>)
    ensures |r| == |ops| && forall i :: 0 <= i < |ops| ==> r[i] == Encode(ops[i])
  {
    seq(|ops|, i requires 0 <= i < |ops| => Encode(ops[i]))
  }

  function DecodeAll(stored: seq<StoredOp>): (r: Result<seq<Op>>)
    ensures r.Ok? ==> |r.value| == |stored|
    ensures r.Err? ==> r.error == InvalidOp
  {
    if stored == [] then Ok([])
    else
      var first :- Decode(stored[0]);
      var rest :- DecodeAll(stored[1..]);
      Ok([first] + rest)
  }

  /** The ops of an Action account, if every stored one of them is canonical. */
  function Iter(ops: Ops): (r: Result<seq<Op>>)
    ensures r.Ok? ==> |r.value| == ops.opsLen <= MAX_ACTION_OPS
  {
    if ops.opsLen > MAX_ACTION_OPS then Err(TooManyOps) else DecodeAll(ops.ops[..ops.opsLen])
  }

  lemma {:induction false} DecodeAllIsExact(stored: seq<StoredOp>, ops: seq<Op>)
    ensures DecodeAll(stored) == Ok(ops) <==> stored == EncodeAll(ops)
  {
    if stored == [] || ops == [] {
    } else {
      DecodesExactlyEncodings(stored[0], ops[0]);
      DecodeAllIsExact(stored[1..], ops[1..]);
      assert EncodeAll(ops) == [Encode(ops[0])] + EncodeAll(ops[1..]);
      assert stored == [stored[0]] + stored[1..];
      if DecodeAll(stored) == Ok(ops) {
        assert DecodeAll(stored[1..]).Ok? && ops[1..] == DecodeAll(stored[1..]).value;
      }
      if stored == EncodeAll(ops) {
        assert stored[1..] == EncodeAll(ops[1..]);
        assert ops == [ops[0]] + ops[1..];
      }
    }
  }

  /** `Ops::new`: at most 32 ops, stored in order in front of the no-ops. */
  method NewOps(ops: seq<Op>) returns (r: Result<Ops>)
    ensures r.Ok? <==> |ops| <= MAX_ACTION_OPS
    ensures r.Err? ==> r.error == TooManyOps
    ensures r.Ok? ==> Iter(r.value) == Ok(ops)
    ensures r.Ok? ==> forall i :: |ops| <= i < MAX_ACTION_OPS ==> r.value.ops[i] == NOOP
  {
    var stored := new StoredOp[MAX_ACTION_OPS](_ => NOOP);
    var index := 0;
    while index < |ops|
      invariant 0 <= index <= |ops| && index <= MAX_ACTION_OPS
      invariant forall i :: 0 <= i < index ==> stored[i] == Encode(ops[i])
      invariant forall i :: index <= i < MAX_ACTION_OPS ==> stored[i] == NOOP
    {
      if index >= MAX_ACTION_OPS {
        return Err(TooManyOps);
      }
      stored[index] := Encode(ops[index]);
      index := index + 1;
    }
    assert stored[..][..index] == EncodeAll(ops);
    DecodeAllIsExact(stored[..][..index], ops);
    return Ok(StoredOps(stored[..], index));
  }
}

/** Packed account privileges of a relayed call
    (`crates/interface/src/instructions/account_flags.rs`): two bits per account, four accounts
    per byte, in one canonical form. */
module Flags {
  import opened Outcome

  datatype AccountFlags = AccountFlags(isSigner: bool, isWritable: bool)

  datatype PackedAccountFlags = PackedAccountFlags(accountsLen: U8, bits: seq<bv8>)

  /** `value << (slot * 2)` and `value >> (slot * 2)` for the four slots of a byte. */
  function Shl(value: bv8, slot: nat): bv8 {
    match slot
    case 0 => value
    case 1 => value << 2
    case 2 => value << 4
    case _ => value << 6
  }

  function Shr(value: bv8, slot: nat): bv8 {
    match slot
    case 0 => value
    case 1 => value >> 2
    case 2 => value >> 4
    case _ => value >> 6
  }

  function Value(flags: AccountFlags): bv8 {
    (if flags.isSigner then 1 else 0) | ((if flags.isWritable then 1 else 0) << 1)
  }

  function FlagsOf(value: bv8): AccountFlags {
    AccountFlags(value & 1 != 0, value & 2 != 0)
  }

  /** The two bits of a slot. */
  function Slot(b: bv8, slot: nat): bv8 {
    Shr(b, slot) & 3
  }

  lemma SlotHoldsFlags(b: bv8, flags: AccountFlags, slot: nat, other: nat)
    requires slot < 4 && other < 4 && Slot(b, slot) == 0
    ensures Slot(b | Shl(Value(flags), slot), other) == if other == slot then Value(flags) else Slot(b, other)
  {
    var v := Value(flags);
    assert v <= 3;
  }

  lemma FlagsRoundTrip(flags: AccountFlags, b: bv8, slot: nat)
    requires slot < 4
    ensures Slot(b, slot) == Value(flags) <==> FlagsOf(Shr(b, slot)) == flags
  {
    var v := Shr(b, slot);
  }

  /** Four slots determine a byte. */
  lemma SlotsDetermineByte(a: bv8, b: bv8)
    requires Slot(a, 0) == Slot(b, 0) && Slot(a, 1) == Slot(b, 1)
    requires Slot(a, 2) == Slot(b, 2) && Slot(a, 3) == Slot(b, 3)
    ensures a == b
  {
  }

  function ByteCount(accounts: nat): nat {
    (accounts + 3) / 4
  }

  /** `bits` hold the flags in order and nothing else. */
  ghost predicate Packs(bits: seq<bv8>, flags: seq<AccountFlags>) {
    && |bits| == ByteCount(|flags|)
    && forall k :: 0 <= k < 4 * |bits| ==> Slot(bits[k / 4], k % 4) == if k < |flags| then Value(flags[k]) else 0
  }

  lemma PackingIsUnique(bits: seq<bv8>, bits': seq<bv8>, flags: seq<AccountFlags>)
    requires Packs(bits, flags) && Packs(bits', flags)
    ensures bits == bits'
  {
    hide Slot;
    forall j | 0 <= j < |bits| ensures bits[j] == bits'[j] {
      forall s | 0 <= s < 4 ensures Slot(bits[j], s) == Slot(bits'[j], s) {
        var k := 4 * j + s;
        assert k / 4 == j && k % 4 == s;
      }
      SlotsDetermineByte(bits[j], bits'[j]);
    }
  }

  /** In a packing, account `k` asks for a signature by the low bit of its slot in byte `k / 4` and
      for write access by the high one, slots filling a byte from its low end. */
  lemma BitsOfAccount(bits: seq<bv8>, flags: seq<AccountFlags>, k: nat)
    requires Packs(bits, flags) && k < |flags|
    ensures k / 4 < |bits|
    ensures var b := bits[k / 4];
            && (k % 4 == 0 ==> (flags[k].isSigner <==> b & 0x01 != 0) && (flags[k].isWritable <==> b & 0x02 != 0))
            && (k % 4 == 1 ==> (flags[k].isSigner <==> b & 0x04 != 0) && (flags[k].isWritable <==> b & 0x08 != 0))
            && (k % 4 == 2 ==> (flags[k].isSigner <==> b & 0x10 != 0) && (flags[k].isWritable <==> b & 0x20 != 0))
            && (k % 4 == 3 ==> (flags[k].isSigner <==> b & 0x40 != 0) && (flags[k].isWritable <==> b & 0x80 != 0))
  {
    hide Slot, Value;
    assert Slot(bits[k / 4], k % 4) == Value(flags[k]);
    SlotBits(bits[k / 4], flags[k]);
  }

  lemma SlotBits(b: bv8, flags: AccountFlags)
    ensures Slot(b, 0) == Value(flags) ==> (flags.isSigner <==> b & 0x01 != 0) && (flags.isWritable <==> b & 0x02 != 0)
    ensures Slot(b, 1) == Value(flags) ==> (flags.isSigner <==> b & 0x04 != 0) && (flags.isWritable <==> b & 0x08 != 0)
    ensures Slot(b, 2) == Value(flags) ==> (flags.isSigner <==> b & 0x10 != 0) && (flags.isWritable <==> b & 0x20 != 0)
    ensures Slot(b, 3) == Value(flags) ==> (flags.isSigner <==> b & 0x40 != 0) && (flags.isWritable <==> b & 0x80 != 0)
  {
  }

  /** Pack runtime flags. */
  method FromFlags(flags: seq<AccountFlags>) returns (packed: PackedAccountFlags)
    requires |flags| <= U8_MAX
    ensures packed.accountsLen == |flags| && Packs(packed.bits, flags)
  {
    hide Slot, Shl, Value;
    var bits := new bv8[ByteCount(|flags|)](_ => 0);
    forall s | 0 <= s < 4 ensures Slot(0, s) == 0 {
      ZeroByte(s);
    }
    var index := 0;
    while index < |flags|
      invariant 0 <= index <= |flags|
      invariant forall k :: 0 <= k < 4 * bits.Length ==>
                  Slot(bits[k / 4], k % 4) == if k < index then Value(flags[k]) else 0
    {
      var value := Value(flags[index]);
      ghost var before := bits[..];
      assert Slot(bits[index / 4], index % 4) == 0;
      bits[index / 4] := bits[index / 4] | Shl(value, index % 4);
      forall k | 0 <= k < 4 * bits.Length
        ensures Slot(bits[k / 4], k % 4) == if k <= index then Value(flags[k]) else 0
      {
        assert Slot(before[k / 4], k % 4) == if k < index then Value(flags[k]) else 0;
        if k / 4 == index / 4 {
          SlotHoldsFlags(before[index / 4], flags[index], index % 4, k % 4);
        }
      }
      index := index + 1;
    }
    packed := PackedAccountFlags(|flags|, bits[..]);
  }

  lemma ZeroByte(slot: nat)
    requires slot < 4
    ensures Slot(0, slot) == 0
  {
  }

  /** Decode packed flags: exactly the bytes the account count needs, and no bit set beyond it. */
  function Iter(packed: PackedAccountFlags): (r: Result<seq<AccountFlags>>)
    ensures r.Ok? ==> |r.value| == packed.accountsLen
  {
    var expectedLen := ByteCount(packed.accountsLen);
    if |packed.bits| != expectedLen then Err(InvalidInstructionData)
    else if packed.accountsLen % 4 != 0 && Shr(packed.bits[expectedLen - 1], packed.accountsLen % 4) != 0 then
      Err(InvalidInstructionData)
    else
      Ok(seq(packed.accountsLen, k requires 0 <= k < packed.accountsLen => FlagsOf(Shr(packed.bits[k / 4], k % 4))))
  }

  lemma HighSlotsEmpty(b: bv8, used: nat)
    requires 0 < used < 4
    ensures Shr(b, used) == 0 <==> forall s :: used <= s < 4 ==> Slot(b, s) == 0
  {
    if forall s :: used <= s < 4 ==> Slot(b, s) == 0 {
      assert Slot(b, 3) == 0;
      assert used <= 2 ==> Slot(b, 2) == 0;
      assert used <= 1 ==> Slot(b, 1) == 0;
    }
  }

  lemma DecodedArePacked(packed: PackedAccountFlags, flags: seq<AccountFlags>)
    requires Iter(packed) == Ok(flags)
    ensures packed.accountsLen == |flags| && Packs(packed.bits, flags)
  {
    hide Slot, Shr, Value, FlagsOf;
    forall k | 0 <= k < 4 * |packed.bits|
      ensures Slot(packed.bits[k / 4], k % 4) == if k < |flags| then Value(flags[k]) else 0
    {
      if k < |flags| {
        FlagsRoundTrip(flags[k], packed.bits[k / 4], k % 4);
      } else {
        HighSlotsEmpty(packed.bits[k / 4], packed.accountsLen % 4);
      }
    }
  }

  lemma PackedAreDecoded(packed: PackedAccountFlags, flags: seq<AccountFlags>)
    requires packed.accountsLen == |flags| && Packs(packed.bits, flags)
    ensures Iter(packed) == Ok(flags)
  {
    hide Slot, Shr, Value, FlagsOf;
    var n := |flags|;
    if n % 4 != 0 {
      var j := ByteCount(n) - 1;
      forall s | n % 4 <= s < 4 ensures Slot(packed.bits[j], s) == 0 {
        var k := 4 * j + s;
        assert k / 4 == j && k % 4 == s;
      }
      HighSlotsEmpty(packed.bits[j], n % 4);
    }
    forall k | 0 <= k < n ensures FlagsOf(Shr(packed.bits[k / 4], k % 4)) == flags[k] {
      FlagsRoundTrip(flags[k], packed.bits[k / 4], k % 4);
    }
    assert Iter(packed).value == flags;
  }

  /** The codec is a bijection: decoding succeeds exactly on packings, and yields what is packed.
      So packing and then decoding returns the flags, and re-packing what was decoded returns the
      bytes. */
  lemma DecodesExactlyPackings(packed: PackedAccountFlags, flags: seq<AccountFlags>)
    ensures Iter(packed) == Ok(flags) <==> packed.accountsLen == |flags| && Packs(packed.bits, flags)
  {
    hide Iter, Packs;
    if Iter(packed) == Ok(flags) {
      DecodedArePacked(packed, flags);
    }
    if packed.accountsLen == |flags| && Packs(packed.bits, flags) {
      PackedAreDecoded(packed, flags);
    }
  }

  /** Whatever `Iter` accepts is the one packing of what it returns. */
  lemma PackedFormIsCanonical(packed: PackedAccountFlags, other: PackedAccountFlags)
    requires Iter(packed).Ok? && Iter(other) == Iter(packed)
    ensures other == packed
  {
    var flags := Iter(packed).value;
    DecodesExactlyPackings(packed, flags);
    DecodesExactlyPackings(other, flags);
    PackingIsUnique(packed.bits, other.bits, flags);
  }
}

/** Token accounts as bytes, and the custody checks around a relayed call
    (`crates/roshi/src/instructions/token.rs` and `execution/shared.rs`). */
module Custody {
  import opened Outcome
  import opened Bytes
  import opened Preimage

  const TOKEN_PROGRAM_ID: Pubkey :=
    [6, 221, 246, 225, 215, 101, 161, 147, 217, 203, 225, 70, 206, 235, 121, 172,
     28, 180, 133, 237, 95, 91, 55, 145, 58, 140, 245, 133, 126, 255, 0, 169]
  const TOKEN_2022_PROGRAM_ID: Pubkey :=
    [6, 221, 246, 225, 238, 117, 143, 222, 24, 66, 93, 188, 228, 108, 205, 218,
     182, 26, 252, 77, 131, 185, 13, 39, 254, 189, 249, 40, 216, 161, 139, 252]

  const TOKEN_ACCOUNT_OWNER := 32
  const TOKEN_ACCOUNT_AMOUNT := 64
  const TOKEN_ACCOUNT_DELEGATE := 72
  const TOKEN_ACCOUNT_STATE := 108
  const TOKEN_ACCOUNT_DELEGATED_AMOUNT := 121
  const TOKEN_ACCOUNT_CLOSE_AUTHORITY := 129
  const TOKEN_ACCOUNT_LEN := 165

  /** The contents of an account: the program that owns it, and its data. */
  datatype Contents = Contents(program: Pubkey, data: Bytes)

  /** The contents of every account at one moment. */
  type World = Pubkey -> Contents

  predicate IsTokenProgram(key: Pubkey) {
    key == TOKEN_PROGRAM_ID || key == TOKEN_2022_PROGRAM_ID
  }

  predicate Initialized(account: Contents) {
    && IsTokenProgram(account.program)
    && |account.data| >= TOKEN_ACCOUNT_LEN && account.data[TOKEN_ACCOUNT_STATE] == 1
  }

  function Tag(data: Bytes, at: nat): nat
    requires at + 4 <= |data|
  {
    FromLe(data[at..at + 4])
  }

  predicate HasCloseAuthority(data: Bytes)
    requires |data| >= TOKEN_ACCOUNT_LEN
  {
    Tag(data, TOKEN_ACCOUNT_CLOSE_AUTHORITY) != 0
  }

  predicate HasTransferAuthority(data: Bytes)
    requires |data| >= TOKEN_ACCOUNT_LEN
  {
    Tag(data, TOKEN_ACCOUNT_DELEGATE) != 0 || HasCloseAuthority(data)
  }

  /** The bytes that give an account away: a nonzero byte in the delegate tag or in the close
      authority tag. */
  lemma AuthorityBytes(data: Bytes)
    requires |data| >= TOKEN_ACCOUNT_LEN
    ensures HasCloseAuthority(data) <==> exists i :: 129 <= i < 133 && data[i] != 0
    ensures HasTransferAuthority(data) <==> exists i :: (72 <= i < 76 || 129 <= i < 133) && data[i] != 0
  {
    TagIsZero(data, 72);
    TagIsZero(data, 129);
  }

  lemma TagIsZero(data: Bytes, at: nat)
    requires at + 4 <= |data|
    ensures Tag(data, at) == 0 <==> data[at] == data[at + 1] == data[at + 2] == data[at + 3] == 0
  {
    var b := data[at..at + 4];
    assert b[1..][1..] == b[2..] && b[2..][1..] == b[3..] && b[3..][1..] == [];
    assert FromLe(b) == 0 <==> b[0] == 0 && FromLe(b[1..]) == 0;
    assert FromLe(b[1..]) == 0 <==> b[1] == 0 && FromLe(b[2..]) == 0;
    assert FromLe(b[2..]) == 0 <==> b[2] == 0 && FromLe(b[3..]) == 0;
    assert FromLe(b[3..]) == 0 <==> b[3] == 0;
  }

  /** A custody account of a sub-account, byte by byte: owned by a token program, long enough,
      initialised, its owner field the sub-account. */
  lemma CustodyBytes(account: Contents, subAccount: Pubkey)
    ensures IsCustody(account, subAccount)
            <==> && account.program in {TOKEN_PROGRAM_ID, TOKEN_2022_PROGRAM_ID}
                 && |account.data| >= 165 && account.data[108] == 1
                 && forall i :: 0 <= i < 32 ==> account.data[32 + i] == subAccount[i]
  {
    if |account.data| >= 165 {
      var owner := account.data[32..64];
      assert forall i :: 0 <= i < 32 ==> owner[i] == account.data[32 + i];
      if forall i :: 0 <= i < 32 ==> account.data[32 + i] == subAccount[i] {
        assert owner == subAccount;
      }
    }
  }

  /** A token account held by the sub-account. */
  predicate IsCustody(account: Contents, subAccount: Pubkey) {
    Initialized(account) && account.data[TOKEN_ACCOUNT_OWNER..TOKEN_ACCOUNT_OWNER + 32] == subAccount
  }

  function IsCleanCustody(account: Contents, subAccount: Pubkey): (r: Result<bool>)
    ensures r.Err? ==> r.error == InvalidTokenAccount
  {
    if !IsCustody(account, subAccount) then Ok(false)
    else if HasTransferAuthority(account.data) then Err(InvalidTokenAccount)
    else Ok(true)
  }

  function TokenAmount(account: Contents): (r: Result<U64>)
    ensures r.Ok? <==> Initialized(account)
    ensures r.Ok? ==> account.data[TOKEN_ACCOUNT_AMOUNT..TOKEN_ACCOUNT_AMOUNT + 8] == Le(r.value, 8)
    ensures r.Err? ==> r.error == InvalidTokenAccount
  {
    if !Initialized(account) then Err(InvalidTokenAccount)
    else
      FromLeRoundTrip(account.data[TOKEN_ACCOUNT_AMOUNT..TOKEN_ACCOUNT_AMOUNT + 8]);
      Widths();
      Ok(FromLe(account.data[TOKEN_ACCOUNT_AMOUNT..TOKEN_ACCOUNT_AMOUNT + 8]))
  }

  /** A custody account fully controlled by the sub-account. */
  function VerifyCustodyAccount(account: Contents, subAccount: Pubkey): Result<Unit> {
    Need(IsCustody(account, subAccount) && !HasTransferAuthority(account.data), InvalidTokenAccount)
  }

  function WithAmount(account: Contents, amount: U64): Contents
    requires Initialized(account)
  {
    account.(data := account.data[..TOKEN_ACCOUNT_AMOUNT] + Le(amount, 8) + account.data[TOKEN_ACCOUNT_AMOUNT + 8..])
  }

  /** The delegate an account names, if its tag says it names one. */
  function Delegate(data: Bytes): Option<Pubkey>
    requires |data| >= TOKEN_ACCOUNT_LEN
  {
    if Tag(data, TOKEN_ACCOUNT_DELEGATE) == 1 then Some(data[TOKEN_ACCOUNT_DELEGATE + 4..TOKEN_ACCOUNT_STATE]) else None
  }

  /** What is left of a delegation; a delegation used up is cleared. */
  function WithDelegation(account: Contents, left: U64): Contents
    requires Initialized(account)
  {
    var data := account.data;
    account.(data := data[..TOKEN_ACCOUNT_DELEGATE]
                     + (if left == 0 then Le(0, 4) else data[TOKEN_ACCOUNT_DELEGATE..TOKEN_ACCOUNT_DELEGATE + 4])
                     + data[TOKEN_ACCOUNT_DELEGATE + 4..TOKEN_ACCOUNT_DELEGATED_AMOUNT]
                     + Le(left, 8)
                     + data[TOKEN_ACCOUNT_DELEGATED_AMOUNT + 8..])
  }

  /** The signer has to be the account's delegate, who spends what was delegated, or its owner. */
  function Authorize(account: Contents, signer: Pubkey, amount: U64): Result<Contents>
    requires Initialized(account)
  {
    var data := account.data;
    if Delegate(data) == Some(signer) then
      var delegated := FromLe(data[TOKEN_ACCOUNT_DELEGATED_AMOUNT..TOKEN_ACCOUNT_DELEGATED_AMOUNT + 8]);
      FromLeRoundTrip(data[TOKEN_ACCOUNT_DELEGATED_AMOUNT..TOKEN_ACCOUNT_DELEGATED_AMOUNT + 8]);
      Widths();
      if delegated < amount then Err(TokenProgramFailure) else Ok(WithDelegation(account, delegated - amount))
    else if data[TOKEN_ACCOUNT_OWNER..TOKEN_ACCOUNT_OWNER + 32] == signer then Ok(account)
    else Err(TokenProgramFailure)
  }

  /** An SPL transfer between two token accounts of one mint, signed by `signer`. */
  function Transfer(world: World, source: Pubkey, destination: Pubkey, signer: Pubkey, amount: U64): Result<World> {
    if !Initialized(world(source)) || !Initialized(world(destination)) then Err(TokenProgramFailure)
    else if Tag(world(source).data, TOKEN_ACCOUNT_DELEGATE) > 1 then Err(TokenProgramFailure)
    else if world(source).data[..TOKEN_ACCOUNT_OWNER] != world(destination).data[..TOKEN_ACCOUNT_OWNER] then
      Err(TokenProgramFailure)
    else
      var held, there := TokenAmount(world(source)).value as int, TokenAmount(world(destination)).value as int;
      if held < amount then Err(TokenProgramFailure)
      else
        var spent :- Authorize(world(source), signer, amount);
        if source == destination then Ok(world)
        else if there + amount > U64_MAX then Err(TokenProgramFailure)
        else
          AuthorizeFrame(world(source), signer, amount, signer);
          var debited := WithAmount(spent, held - amount);
          var credited := WithAmount(world(destination), there + amount);
          Ok((key: Pubkey) => if key == source then debited else if key == destination then credited else world(key))
  }

  /** Spending a delegation touches the delegation alone, and can only clear it. */
  lemma AuthorizeFrame(account: Contents, signer: Pubkey, amount: U64, subAccount: Pubkey)
    requires Initialized(account) && Authorize(account, signer, amount).Ok?
    ensures var spent := Authorize(account, signer, amount).value;
            && Initialized(spent) && TokenAmount(spent) == TokenAmount(account)
            && IsCustody(spent, subAccount) == IsCustody(account, subAccount)
            && (HasTransferAuthority(spent.data) ==> HasTransferAuthority(account.data))
  {
    if Delegate(account.data) == Some(signer) {
      var data := account.data;
      FromLeRoundTrip(data[TOKEN_ACCOUNT_DELEGATED_AMOUNT..TOKEN_ACCOUNT_DELEGATED_AMOUNT + 8]);
      Widths();
      DelegationFrame(account,
                      FromLe(data[TOKEN_ACCOUNT_DELEGATED_AMOUNT..TOKEN_ACCOUNT_DELEGATED_AMOUNT + 8]) - amount,
                      subAccount);
    }
  }

  lemma DelegationFrame(account: Contents, left: U64, subAccount: Pubkey)
    requires Initialized(account) && Tag(account.data, TOKEN_ACCOUNT_DELEGATE) != 0
    ensures var spent := WithDelegation(account, left);
            && Initialized(spent) && TokenAmount(spent) == TokenAmount(account)
            && IsCustody(spent, subAccount) == IsCustody(account, subAccount)
            && HasTransferAuthority(account.data)
  {
    var data, written := account.data, WithDelegation(account, left).data;
    assert written[TOKEN_ACCOUNT_AMOUNT..TOKEN_ACCOUNT_AMOUNT + 8]
        == data[TOKEN_ACCOUNT_AMOUNT..TOKEN_ACCOUNT_AMOUNT + 8];
    assert written[TOKEN_ACCOUNT_OWNER..TOKEN_ACCOUNT_OWNER + 32]
        == data[TOKEN_ACCOUNT_OWNER..TOKEN_ACCOUNT_OWNER + 32];
  }

  /** Only its owner, or a delegate within the delegation, can transfer out of an account: so a
      clean custody never pays unless the sub-account itself signs. */
  lemma CleanCustodyPaysOnlyItsOwner(world: World, source: Pubkey, destination: Pubkey, signer: Pubkey, amount: U64,
                                     subAccount: Pubkey)
    requires Transfer(world, source, destination, signer, amount).Ok?
    requires VerifyCustodyAccount(world(source), subAccount).Ok?
    ensures signer == subAccount
  {
  }

  /** Writing an amount changes the amount and nothing else a custody check reads. */
  lemma WithAmountFrame(account: Contents, amount: U64, subAccount: Pubkey)
    requires Initialized(account)
    ensures TokenAmount(WithAmount(account, amount)) == Ok(amount)
    ensures IsCustody(WithAmount(account, amount), subAccount) == IsCustody(account, subAccount)
    ensures HasTransferAuthority(WithAmount(account, amount).data) == HasTransferAuthority(account.data)
  {
    var data, written := account.data, WithAmount(account, amount).data;
    Widths();
    LeRoundTrip(amount, 8);
    assert written[TOKEN_ACCOUNT_AMOUNT..TOKEN_ACCOUNT_AMOUNT + 8] == Le(amount, 8);
    assert written[TOKEN_ACCOUNT_OWNER..TOKEN_ACCOUNT_OWNER + 32]
        == data[TOKEN_ACCOUNT_OWNER..TOKEN_ACCOUNT_OWNER + 32];
    assert written[TOKEN_ACCOUNT_DELEGATE..TOKEN_ACCOUNT_DELEGATE + 4]
        == data[TOKEN_ACCOUNT_DELEGATE..TOKEN_ACCOUNT_DELEGATE + 4];
    assert written[TOKEN_ACCOUNT_CLOSE_AUTHORITY..TOKEN_ACCOUNT_CLOSE_AUTHORITY + 4]
        == data[TOKEN_ACCOUNT_CLOSE_AUTHORITY..TOKEN_ACCOUNT_CLOSE_AUTHORITY + 4];
  }

  /** A transfer moves exactly the amount between two accounts, and into itself nothing; it touches
      no third account, keeps every owner, and grants nobody an authority. */
  lemma TransferMoves(world: World, source: Pubkey, destination: Pubkey, signer: Pubkey, amount: U64,
                      key: Pubkey, subAccount: Pubkey)
    requires Transfer(world, source, destination, signer, amount).Ok?
    ensures TokenAmount(world(source)).Ok? && TokenAmount(world(destination)).Ok?
    ensures var after := Transfer(world, source, destination, signer, amount).value;
            var moved := if source == destination then 0 else amount;
            && TokenAmount(after(source)).Ok? && TokenAmount(after(destination)).Ok?
            && TokenAmount(after(source)).value == TokenAmount(world(source)).value - moved
            && TokenAmount(after(destination)).value == TokenAmount(world(destination)).value + moved
            && (key != source && key != destination ==> after(key) == world(key))
            && IsCustody(after(key), subAccount) == IsCustody(world(key), subAccount)
            && (IsCustody(world(key), subAccount) && HasTransferAuthority(after(key).data) ==>
                  HasTransferAuthority(world(key).data))
  {
    hide Transfer, TokenAmount, IsCustody, HasTransferAuthority, WithAmount, Authorize, Tag;
    TransferWrites(world, source, destination, signer, amount);
    if source != destination {
      AuthorizeFrame(world(source), signer, amount, subAccount);
      WithAmountFrame(Authorize(world(source), signer, amount).value, TokenAmount(world(source)).value as int - amount,
                      subAccount);
      WithAmountFrame(world(destination), TokenAmount(world(destination)).value as int + amount, subAccount);
    }
  }

  /** The signer is the account's delegate: the tag says there is one, and it is named behind it. */
  ghost predicate IsDelegate(data: Bytes, signer: Pubkey)
    requires |data| >= TOKEN_ACCOUNT_LEN
  {
    data[72] == 1 && data[73] == data[74] == data[75] == 0 && data[76..108] == signer
  }

  /** A transfer goes through exactly between two initialised accounts of one mint, for an amount the
      source holds and the destination has room for, signed by the source's delegate within the
      delegation, or by its owner. */
  lemma TransferSucceedsExactly(world: World, source: Pubkey, destination: Pubkey, signer: Pubkey, amount: U64)
    ensures Transfer(world, source, destination, signer, amount).Ok?
            <==> && Initialized(world(source)) && Initialized(world(destination))
                 && var data := world(source).data;
                 && data[72] <= 1 && data[73] == data[74] == data[75] == 0
                 && data[..32] == world(destination).data[..32]
                 && amount <= TokenAmount(world(source)).value
                 && (if IsDelegate(data, signer) then amount <= FromLe(data[121..129]) else data[32..64] == signer)
                 && (source != destination ==> TokenAmount(world(destination)).value + amount <= U64_MAX)
  {
    hide TokenAmount, WithAmount, WithDelegation, FromLe;
    if Initialized(world(source)) && Initialized(world(destination)) {
      TagIsSmall(world(source).data);
      if Authorize(world(source), signer, amount).Ok? {
        AuthorizeFrame(world(source), signer, amount, signer);
      }
    }
  }

  lemma TagIsSmall(data: Bytes)
    requires |data| >= TOKEN_ACCOUNT_LEN
    ensures Tag(data, TOKEN_ACCOUNT_DELEGATE) <= 1 <==> data[72] <= 1 && data[73] == data[74] == data[75] == 0
    ensures Tag(data, TOKEN_ACCOUNT_DELEGATE) == 1 <==> data[72] == 1 && data[73] == data[74] == data[75] == 0
  {
    var b := data[72..76];
    assert b[1..][1..] == b[2..] && b[2..][1..] == b[3..] && b[3..][1..] == [];
    assert FromLe(b) == b[0] + 256 * FromLe(b[1..]);
    assert FromLe(b[1..]) == 0 <==> b[1] == 0 && FromLe(b[2..]) == 0;
    assert FromLe(b[2..]) == 0 <==> b[2] == 0 && FromLe(b[3..]) == 0;
    assert FromLe(b[3..]) == 0 <==> b[3] == 0;
  }

  /** A delegate's transfer lowers its delegation by the amount, and clears it when nothing is left; an
      owner's leaves it alone. No other byte changes. */
  lemma DelegationIsSpent(account: Contents, signer: Pubkey, amount: U64)
    requires Initialized(account) && Authorize(account, signer, amount).Ok?
    ensures var spent, data := Authorize(account, signer, amount).value, account.data;
            && spent.program == account.program && |spent.data| == |data|
            && (forall i :: 0 <= i < |data| && !(72 <= i < 76) && !(121 <= i < 129) ==> spent.data[i] == data[i])
            && (if IsDelegate(data, signer)
                then var left := FromLe(data[121..129]) as int - amount;
                     && FromLe(spent.data[121..129]) as int == left
                     && (left == 0 ==> Tag(spent.data, 72) == 0)
                     && (left != 0 ==> spent.data[72..76] == data[72..76])
                else spent == account)
  {
    hide FromLe, Le;
    TagIsSmall(account.data);
    if IsDelegate(account.data, signer) {
      var data, spent := account.data, Authorize(account, signer, amount).value.data;
      Widths();
      FromLeRoundTrip(data[121..129]);
      var left := FromLe(data[121..129]) - amount;
      LeRoundTrip(left, 8);
      assert spent[121..129] == Le(left, 8);
      if left == 0 {
        LeRoundTrip(0, 4);
        assert spent[72..76] == Le(0, 4);
      } else {
        assert spent[72..76] == data[72..76];
      }
    }
  }

  /** The amount stands little-endian in bytes 64 to 71. */
  lemma AmountBytes(account: Contents, i: nat)
    requires Initialized(account) && i < 8
    ensures 1 <= Radix(i) && account.data[64 + i] as int == TokenAmount(account).value / Radix(i) % 256
  {
    hide TokenAmount;
    var amount := TokenAmount(account).value;
    LeByPlaceValue(amount, 8, i);
    assert account.data[64 + i] == account.data[64..72][i];
  }

  /** What an accepted transfer writes where. */
  lemma TransferWrites(world: World, source: Pubkey, destination: Pubkey, signer: Pubkey, amount: U64)
    requires Transfer(world, source, destination, signer, amount).Ok?
    ensures Initialized(world(source)) && Initialized(world(destination))
        && Authorize(world(source), signer, amount).Ok?
    ensures var after := Transfer(world, source, destination, signer, amount).value;
            var held, there := TokenAmount(world(source)).value as int, TokenAmount(world(destination)).value as int;
            if source == destination then after == world
            else
              && amount <= held && there + amount <= U64_MAX
              && var spent := Authorize(world(source), signer, amount).value;
                 && Initialized(spent)
                 && after(source) == WithAmount(spent, held - amount)
                 && after(destination) == WithAmount(world(destination), there + amount)
                 && forall key: Pubkey :: key != source && key != destination ==> after(key) == world(key)
  {
    hide TokenAmount, WithAmount, Authorize, Tag;
    AuthorizeFrame(world(source), signer, amount, signer);
  }

  /** A swap endpoint may carry a delegate, but no close authority. */
  function VerifySwapEndpointCustody(account: Contents, subAccount: Pubkey): Result<Unit> {
    Need(IsCustody(account, subAccount) && !HasCloseAuthority(account.data), InvalidTokenAccount)
  }

  function VerifySwapEndpointUnchanged(pre: Bytes, account: Contents): Result<Unit>
    requires |pre| >= TOKEN_ACCOUNT_AMOUNT + 8
  {
    var post := account.data;
    if || |pre| != |post|
       || pre[..TOKEN_ACCOUNT_AMOUNT] != post[..TOKEN_ACCOUNT_AMOUNT]
       || pre[TOKEN_ACCOUNT_AMOUNT + 8..] != post[TOKEN_ACCOUNT_AMOUNT + 8..]
    then Err(InvalidTokenAccount)
    else Ok(Unit)
  }

  /** An endpoint passes exactly when it is byte-identical outside its amount; so its mint, owner,
      delegate, state and close authority are what they were. */
  lemma EndpointFrame(pre: Bytes, post: Contents)
    requires |pre| >= TOKEN_ACCOUNT_LEN
    ensures VerifySwapEndpointUnchanged(pre, post).Ok?
            <==> && |post.data| == |pre|
                 && forall i :: 0 <= i < |pre| && !(TOKEN_ACCOUNT_AMOUNT <= i < TOKEN_ACCOUNT_AMOUNT + 8)
                      ==> post.data[i] == pre[i]
    ensures VerifySwapEndpointUnchanged(pre, post).Ok? ==>
              && Tag(post.data, TOKEN_ACCOUNT_DELEGATE) == Tag(pre, TOKEN_ACCOUNT_DELEGATE)
              && Tag(post.data, TOKEN_ACCOUNT_CLOSE_AUTHORITY) == Tag(pre, TOKEN_ACCOUNT_CLOSE_AUTHORITY)
  {
    if VerifySwapEndpointUnchanged(pre, post).Ok? {
      forall i | 0 <= i < |pre| && !(TOKEN_ACCOUNT_AMOUNT <= i < TOKEN_ACCOUNT_AMOUNT + 8)
        ensures post.data[i] == pre[i]
      {
        if i < TOKEN_ACCOUNT_AMOUNT {
          assert pre[..TOKEN_ACCOUNT_AMOUNT][i] == post.data[..TOKEN_ACCOUNT_AMOUNT][i];
        } else {
          var k := i - (TOKEN_ACCOUNT_AMOUNT + 8);
          assert pre[TOKEN_ACCOUNT_AMOUNT + 8..][k] == post.data[TOKEN_ACCOUNT_AMOUNT + 8..][k];
        }
      }
      assert post.data[TOKEN_ACCOUNT_DELEGATE..TOKEN_ACCOUNT_DELEGATE + 4]
          == pre[TOKEN_ACCOUNT_DELEGATE..TOKEN_ACCOUNT_DELEGATE + 4];
      assert post.data[TOKEN_ACCOUNT_CLOSE_AUTHORITY..TOKEN_ACCOUNT_CLOSE_AUTHORITY + 4]
          == pre[TOKEN_ACCOUNT_CLOSE_AUTHORITY..TOKEN_ACCOUNT_CLOSE_AUTHORITY + 4];
    }
  }

  /** What a call may do: anything, to the accounts it was given as writable. */
  ghost predicate OnlyWrites(metas: seq<Meta>, before: World, after: World) {
    forall k: Pubkey :: !Writable(metas, k) ==> after(k) == before(k)
  }

  ghost predicate Writable(metas: seq<Meta>, key: Pubkey) {
    exists i :: 0 <= i < |metas| && metas[i].isWritable && metas[i].key == key
  }

  /** The writable sub-account custodies of a call, each checked to be clean. */
  function ScanCustody(metas: seq<Meta>, world: World, subAccount: Pubkey): Result<seq<Pubkey>> {
    if metas == [] then Ok([])
    else
      var keys :- ScanCustody(metas[..|metas| - 1], world, subAccount);
      var last := metas[|metas| - 1];
      if !last.isWritable then Ok(keys)
      else
        var clean :- IsCleanCustody(world(last.key), subAccount);
        Ok(if clean then keys + [last.key] else keys)
  }

  /** Every scanned account is still found among the accounts and still clean custody. */
  function ReverifyCustody(keys: seq<Pubkey>, infos: seq<Pubkey>, world: World, subAccount: Pubkey): Result<Unit> {
    if keys == [] then Ok(Unit)
    else if keys[0] !in infos then Err(InvalidTokenAccount)
    else
      var clean :- IsCleanCustody(world(keys[0]), subAccount);
      if !clean then Err(InvalidTokenAccount) else ReverifyCustody(keys[1..], infos, world, subAccount)
  }

  method ScanLoop(metas: seq<Meta>, world: World, subAccount: Pubkey) returns (r: Result<seq<Pubkey>>)
    ensures r == ScanCustody(metas, world, subAccount)
  {
    hide IsCleanCustody;
    var keys: seq<Pubkey> := [];
    var i := 0;
    while i < |metas|
      invariant 0 <= i <= |metas|
      invariant ScanCustody(metas[..i], world, subAccount) == Ok(keys)
    {
      assert metas[..i + 1][..i] == metas[..i];
      if metas[i].isWritable {
        var clean := IsCleanCustody(world(metas[i].key), subAccount);
        if clean.Err? {
          ScanErrPersists(metas, world, subAccount, i + 1);
          return Err(clean.error);
        }
        if clean.value {
          keys := keys + [metas[i].key];
        }
      }
      i := i + 1;
    }
    assert metas[..i] == metas;
    return Ok(keys);
  }

  lemma {:induction false} ScanErrPersists(metas: seq<Meta>, world: World, subAccount: Pubkey, n: nat)
    requires n <= |metas| && ScanCustody(metas[..n], world, subAccount).Err?
    ensures ScanCustody(metas, world, subAccount) == Err(ScanCustody(metas[..n], world, subAccount).error)
  {
    hide IsCleanCustody;
    if n == |metas| {
      assert metas[..n] == metas;
    } else {
      assert metas[..|metas| - 1][..n] == metas[..n];
      ScanErrPersists(metas[..|metas| - 1], world, subAccount, n);
    }
  }

  method ReverifyLoop(keys: seq<Pubkey>, infos: seq<Pubkey>, world: World, subAccount: Pubkey) returns (r: Result<Unit>)
    ensures r == ReverifyCustody(keys, infos, world, subAccount)
  {
    hide IsCleanCustody;
    var i := 0;
    while i < |keys|
      invariant 0 <= i <= |keys|
      invariant ReverifyCustody(keys, infos, world, subAccount) == ReverifyCustody(keys[i..], infos, world, subAccount)
    {
      assert keys[i..][0] == keys[i] && keys[i..][1..] == keys[i + 1..];
      if keys[i] !in infos {
        return Err(InvalidTokenAccount);
      }
      var clean :- IsCleanCustody(world(keys[i]), subAccount);
      if !clean {
        return Err(InvalidTokenAccount);
      }
      i := i + 1;
    }
    return Ok(Unit);
  }

  /** The scan passes exactly when every writable custody is clean, and lists just those. */
  lemma {:induction false} ScanSucceedsExactly(metas: seq<Meta>, world: World, subAccount: Pubkey)
    ensures ScanCustody(metas, world, subAccount).Ok?
            <==> forall i :: 0 <= i < |metas| && metas[i].isWritable && IsCustody(world(metas[i].key), subAccount)
                   ==> !HasTransferAuthority(world(metas[i].key).data)
    ensures ScanCustody(metas, world, subAccount).Ok? ==>
              forall key :: key in ScanCustody(metas, world, subAccount).value
                <==> Writable(metas, key) && IsCustody(world(key), subAccount)
  {
    hide IsCustody, HasTransferAuthority;
    if metas != [] {
      var front, last := metas[..|metas| - 1], metas[|metas| - 1];
      ScanSucceedsExactly(front, world, subAccount);
      assert forall i :: 0 <= i < |front| ==> metas[i] == front[i];
      forall key: Pubkey
        ensures Writable(metas, key) <==> Writable(front, key) || (last.isWritable && last.key == key)
      {
        WritableLast(metas, key);
      }
    }
  }

  lemma WritableLast(metas: seq<Meta>, key: Pubkey)
    requires metas != []
    ensures Writable(metas, key)
            <==> Writable(metas[..|metas| - 1], key) || (metas[|metas| - 1].isWritable && metas[|metas| - 1].key == key)
  {
    var front := metas[..|metas| - 1];
    if Writable(front, key) {
      var i :| 0 <= i < |front| && front[i].isWritable && front[i].key == key;
      assert metas[i] == front[i];
    }
    if Writable(metas, key) {
      var i :| 0 <= i < |metas| && metas[i].isWritable && metas[i].key == key;
      if i < |front| {
        assert front[i] == metas[i];
      }
    }
  }

  /** The second scan passes exactly when every listed account is among the accounts and clean
      custody. */
  lemma {:induction false} ReverifySucceedsExactly(keys: seq<Pubkey>, infos: seq<Pubkey>, world: World,
                                                   subAccount: Pubkey)
    ensures ReverifyCustody(keys, infos, world, subAccount).Ok?
            <==> forall i :: 0 <= i < |keys| ==>
                   && keys[i] in infos && IsCustody(world(keys[i]), subAccount)
                   && !HasTransferAuthority(world(keys[i]).data)
  {
    hide IsCustody, HasTransferAuthority;
    if keys != [] {
      ReverifySucceedsExactly(keys[1..], infos, world, subAccount);
      assert forall i :: 1 <= i < |keys| ==> keys[i] == keys[1..][i - 1];
    }
  }

  /** Every writable custody is found, and found clean. */
  lemma {:induction false} ScanFindsCustody(metas: seq<Meta>, world: World, subAccount: Pubkey, key: Pubkey)
    requires ScanCustody(metas, world, subAccount).Ok? && Writable(metas, key) && IsCustody(world(key), subAccount)
    ensures key in ScanCustody(metas, world, subAccount).value
    ensures !HasTransferAuthority(world(key).data)
  {
    var front, last := metas[..|metas| - 1], metas[|metas| - 1];
    var i :| 0 <= i < |metas| && metas[i].isWritable && metas[i].key == key;
    if i < |front| {
      assert front[i] == metas[i];
      ScanFindsCustody(front, world, subAccount, key);
    }
  }

  lemma {:induction false} ReverifiedIsClean(keys: seq<Pubkey>, infos: seq<Pubkey>, world: World,
                                             subAccount: Pubkey, key: Pubkey)
    requires ReverifyCustody(keys, infos, world, subAccount).Ok? && key in keys
    ensures IsCustody(world(key), subAccount) && !HasTransferAuthority(world(key).data)
  {
    if key != keys[0] {
      ReverifiedIsClean(keys[1..], infos, world, subAccount, key);
    }
  }

  /** The control frame of a relay: whatever the call did, an account that was the sub-account's
      custody is its custody still. One the call could write had no delegate and no close
      authority before, and has none after; one it could not write is untouched. */
  lemma RelayKeepsControl(metas: seq<Meta>, infos: seq<Pubkey>, before: World, after: World,
                          subAccount: Pubkey, key: Pubkey)
    requires ScanCustody(metas, before, subAccount).Ok?
    requires ReverifyCustody(ScanCustody(metas, before, subAccount).value, infos, after, subAccount).Ok?
    requires OnlyWrites(metas, before, after)
    requires IsCustody(before(key), subAccount)
    ensures IsCustody(after(key), subAccount)
    ensures if Writable(metas, key)
            then !HasTransferAuthority(before(key).data) && !HasTransferAuthority(after(key).data)
            else after(key) == before(key)
  {
    hide ScanCustody, ReverifyCustody;
    if Writable(metas, key) {
      ScanFindsCustody(metas, before, subAccount, key);
      ReverifiedIsClean(ScanCustody(metas, before, subAccount).value, infos, after, subAccount, key);
    }
  }
}

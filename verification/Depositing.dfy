/** Deposits end to end (`crates/roshi/src/instructions/user/deposit.rs` and
    `accounts/deposit.rs`): the allowlist gate and the asset valuation in front of the accounting. */
module Depositing {
  import opened Outcome
  import opened Bytes
  import opened Access
  import opened AccessTree
  import opened Pricing
  import opened Vaults
  import opened Machine
  import opened Queue
  import opened Invariant
  import opened SharePrice
  import opened Acceptance
  import opened Handlers

  /** The vault's access list settings and the wallet that deposits. */
  datatype Gate = Gate(isPrivate: bool, accessRoot: Bytes32, depositor: Pubkey)

  predicate AllowsDepositor(h: Hash, gate: Gate, proof: seq<Bytes32>) {
    !gate.isPrivate || Accepts(h, gate.depositor, gate.accessRoot, proof)
  }

  /** What is deposited: the base mint, or a registered asset with its custody balance and its
      verified prices. A direct feed quotes in base, a routed one in the base feed's currency. */
  datatype Asset =
    | BaseMint
    | Registered(enabled: bool, depositCapAtoms: U64, custodyBalance: U64, decimals: U8,
                 price: OraclePrice, routed: bool, basePrice: OraclePrice)

  function ResolveBaseAtoms(asset: Asset, amount: U64, baseDecimals: U8): Result<U64> {
    match asset
    case BaseMint => Ok(amount)
    case Registered(enabled, depositCapAtoms, custodyBalance, decimals, price, routed, basePrice) =>
      if !enabled then Err(InvalidAssetAccount)
      else
        var projected :- CheckedU64(custodyBalance + amount);
        if projected > depositCapAtoms then Err(DepositCapExceeded)
        else BaseAtomsFromAssetAtoms(amount, price, if routed then basePrice else UNIT_PRICE, decimals, baseDecimals)
  }

  datatype DepositArgs = DepositArgs(amount: U64, minSharesOut: U64, accessProof: seq<Bytes32>)

  /** The whole instruction. */
  function TryDeposit(h: Hash, w: Ledger, gate: Gate, asset: Asset, args: DepositArgs): Result<Ledger> {
    if |args.accessProof| > MAX_ACCESS_PROOF_LEN then Err(InvalidAccessProof)
    else
      var _ :- w.vault.ValidateState();
      if w.vault.depositsPaused then Err(VaultPaused)
      else if !AllowsDepositor(h, gate, args.accessProof) then Err(InvalidAccessProof)
      else
        var baseAtoms :- ResolveBaseAtoms(asset, args.amount, w.vault.baseDecimals);
        ApplyDeposit(w, baseAtoms, args.minSharesOut, true)
  }

  /** The handler: the gate with its proof loop, the valuation, then the accounting handler. */
  method Deposit(h: Hash, program: Program, gate: Gate, asset: Asset, args: DepositArgs) returns (r: Result<Unit>)
    modifies program
    ensures Commits(old(program.Books()), program.Books(), r, TryDeposit(h, old(program.Books()), gate, asset, args))
  {
    hide ApplyDeposit, ResolveBaseAtoms, VaultState.ValidateState;
    if |args.accessProof| > MAX_ACCESS_PROOF_LEN {
      return Err(InvalidAccessProof);
    }
    var vault := program.Books().vault;
    var _ :- vault.ValidateState();
    if vault.depositsPaused {
      return Err(VaultPaused);
    }
    if gate.isPrivate {
      var accepted := VerifyAccessMerkleProof(h, gate.depositor, gate.accessRoot, args.accessProof);
      if !accepted {
        return Err(InvalidAccessProof);
      }
    }
    var baseAtoms :- ResolveBaseAtoms(asset, args.amount, vault.baseDecimals);
    r := program.Deposit(baseAtoms, args.minSharesOut, true);
  }

  /** An accepted deposit of an asset books exactly the floor of its value at the verified prices,
      under the asset's inventory cap, keeps the invariant, and never lowers the share price. */
  lemma DepositBooksTheValue(h: Hash, w: Ledger, gate: Gate, asset: Asset, args: DepositArgs)
    requires Inv(w) && TryDeposit(h, w, gate, asset, args).Ok?
    ensures var w' := TryDeposit(h, w, gate, asset, args).value;
            var booked := w'.vault.totalAssets - w.vault.totalAssets;
            && booked == w'.inflow - w.inflow
            && (asset.BaseMint? ==> booked == args.amount)
            && (asset.Registered? ==>
                  && asset.enabled && asset.custodyBalance + args.amount <= asset.depositCapAtoms
                  && var base := if asset.routed then asset.basePrice else UNIT_PRICE;
                     var unit := base.value * TenTo(asset.decimals + asset.price.decimals);
                     booked * unit
                     <= args.amount * asset.price.value * TenTo(w.vault.baseDecimals + base.decimals)
                     < (booked + 1) * unit)
            && Inv(w') && Fair(w, w', 0)
  {
    hide BaseAtomsFromAssetAtoms, AllowsDepositor, Inv, Fair, SharesQueued, SharesForDeposit, SharePriceFromAssets,
         TenTo;
    var baseAtoms := ResolveBaseAtoms(asset, args.amount, w.vault.baseDecimals).value;
    DepositKeepsInvariant(w, baseAtoms, args.minSharesOut, true);
    DepositIsFair(w, baseAtoms, args.minSharesOut, true);
  }

  /** An asset is valued exactly while it is enabled and its custody stays under its cap, at the
      floor of its exact value at the verified prices; the base mint at its amount. */
  lemma AssetValuedExactly(asset: Asset, amount: U64, baseDecimals: U8, atoms: U64)
    ensures ResolveBaseAtoms(asset, amount, baseDecimals) == Ok(atoms)
            <==> match asset
                 case BaseMint => atoms == amount
                 case Registered(enabled, depositCapAtoms, custodyBalance, decimals, price, routed, basePrice) =>
                   && enabled && custodyBalance + amount <= depositCapAtoms
                   && var baseValue: nat := if routed then basePrice.value else 1;
                   && var baseScale: nat := if routed then basePrice.decimals else 0;
                   && baseValue != 0 && amount * price.value <= U128_MAX
                   && ConversionFits(amount * price.value, baseValue, baseDecimals + baseScale,
                                     decimals + price.decimals)
                   && var unit := baseValue * TenTo(decimals + price.decimals);
                      atoms * unit <= amount * price.value * TenTo(baseDecimals + baseScale) < (atoms + 1) * unit
  {
    hide BaseAtomsFromAssetAtoms, TenTo, ConversionFits;
    if asset.Registered? {
      ConversionIsExact(amount, asset.price, if asset.routed then asset.basePrice else UNIT_PRICE,
                        asset.decimals, baseDecimals, atoms);
    }
  }

  /** A deposit goes through exactly with a proof of at most 32 siblings, into a public vault or with
      a proof its root accepts, for an asset that can be valued and a value that fits: a public
      vault admits anyone, with any proof or none. */
  lemma WholeDepositSucceedsExactly(h: Hash, w: Ledger, gate: Gate, asset: Asset, args: DepositArgs)
    requires Inv(w)
    ensures TryDeposit(h, w, gate, asset, args).Ok?
            <==> && |args.accessProof| <= 32
                 && (!gate.isPrivate || Fold(h, Leaf(h, gate.depositor), args.accessProof) == gate.accessRoot)
                 && ResolveBaseAtoms(asset, args.amount, w.vault.baseDecimals).Ok?
                 && DepositFits(w, ResolveBaseAtoms(asset, args.amount, w.vault.baseDecimals).value, args.minSharesOut)
  {
    hide ResolveBaseAtoms, ApplyDeposit, SharesQueued, Fold;
    var atoms := ResolveBaseAtoms(asset, args.amount, w.vault.baseDecimals);
    if atoms.Ok? {
      DepositSucceedsExactly(w, atoms.value, args.minSharesOut, true);
    }
  }

  /** A private vault whose root is that of a built tree admits only owners listed in the tree, or
      a collision is exhibited; and whoever is listed is admitted with the proof the tree hands
      out. */
  lemma PrivateVaultAdmitsTheList(h: Hash, entries: seq<Entry>, owners: set<Pubkey>, gate: Gate, proof: seq<Bytes32>)
    requires Lists(h, entries, owners) && gate.isPrivate && gate.accessRoot == TreeRoot(h, entries)
    ensures AllowsDepositor(h, gate, proof) ==>
              || gate.depositor in owners
              || Collides(h, PathPreimages(h, gate.depositor, proof), TreePreimages(h, owners, LeavesOf(entries)))
              || (&& owners == {}
                  && exists p :: p in PathPreimages(h, gate.depositor, proof) && h(p) == EMPTY_ACCESS_MERKLE_ROOT)
    ensures ProofFor(h, entries, gate.depositor).Some? ==>
              AllowsDepositor(h, gate, ProofFor(h, entries, gate.depositor).value)
    ensures gate.depositor in owners && |owners| <= TwoTo(32) ==> ProofFor(h, entries, gate.depositor).Some?
  {
    hide RootOf, Fold, ProofAt, TwoTo, PathPreimages, TreePreimages;
    if AllowsDepositor(h, gate, proof) {
      AcceptedMeansListed(h, entries, owners, gate.depositor, proof);
    }
    assert gate.depositor in owners ==> gate.depositor in Owners(entries);
    var i := Position(entries, gate.depositor);
    if i < |entries| {
      ListedMeansAccepted(h, entries, owners, i, 0);
      ListsCount(h, entries, owners);
    }
  }
}

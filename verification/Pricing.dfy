/** Share pricing (`crates/interface/src/math.rs`): checked integer arithmetic against a
    virtual position of `10^(9 - base_decimals)` shares backed by one base atom. */
module Pricing {
  import opened Outcome
  import opened Rounding

  const SHARE_DECIMALS: U8 := 9
  const SHARE_SCALE: U64 := 1_000_000_000  // 10^SHARE_DECIMALS
  const BPS_DENOMINATOR: U16 := 10_000

  function TenTo(e: nat): nat {
    if e == 0 then 1 else 10 * TenTo(e - 1)
  }

  lemma {:induction false} TenToMono(d: nat, e: nat)
    requires d <= e
    ensures 1 <= TenTo(d) <= TenTo(e)
    decreases e
  {
    if e == 0 {
    } else if d < e {
      TenToMono(d, e - 1);
    } else {
      TenToMono(d - 1, e - 1);
    }
  }

  lemma TenTo38()
    ensures TenTo(9) == SHARE_SCALE && TenTo(38) <= U128_MAX
  {
    assert TenTo(10) == 1_0000000000;
    assert TenTo(20) == 1_0000000000_0000000000;
    assert TenTo(30) == 1_0000000000_0000000000_0000000000;
    assert TenTo(38) == 1_0000000000_0000000000_0000000000_00000000;
  }

  lemma {:induction false} TenToAdd(d: nat, e: nat)
    ensures TenTo(d + e) == TenTo(d) * TenTo(e)
  {
    if d == 0 {
    } else {
      TenToAdd(d - 1, e);
    }
  }

  function Pow10(decimals: nat): (r: Result<U128>)
    ensures r.Ok? ==> r.value >= 1
  {
    if decimals <= 38 then
      TenToMono(decimals, 38);
      TenTo38();
      Ok(TenTo(decimals))
    else
      Err(InvalidDecimals)
  }

  function MulDivFloor(lhs: U128, rhs: U128, denominator: U128): (r: Result<U128>)
    ensures r.Ok? <==> denominator != 0 && lhs * rhs <= U128_MAX
    ensures r.Ok? ==> r.value * denominator <= lhs * rhs < (r.value + 1) * denominator
  {
    if denominator == 0 then Err(DivisionByZero)
    else
      var product := lhs * rhs;
      if product > U128_MAX then Err(Overflow)
      else
        FloorBounds(product, denominator);
        assert product / denominator <= product by {
          MulLe(1, denominator, product / denominator);
        }
        Ok(product / denominator)
  }

  /** Ceiling by quotient and remainder: the final `+ 1` cannot overflow, because a
      remainder needs a denominator of at least two. */
  function MulDivCeil(lhs: U128, rhs: U128, denominator: U128): (r: Result<U128>)
    ensures r.Ok? <==> denominator != 0 && lhs * rhs <= U128_MAX
    ensures r.Ok? ==> (r.value - 1) * denominator < lhs * rhs <= r.value * denominator
  {
    if denominator == 0 then Err(DivisionByZero)
    else
      var product := lhs * rhs;
      if product > U128_MAX then Err(Overflow)
      else
        var quotient := product / denominator;
        FloorBounds(product, denominator);
        assert product == quotient * denominator + product % denominator;
        if product % denominator == 0 then
          assert quotient <= product by {
            MulLe(1, denominator, quotient);
          }
          Ok(quotient)
        else
          assert quotient + 1 <= product by {
            MulLe(2, denominator, quotient);
          }
          Ok(quotient + 1)
  }

  function FitU64(value: U128): Result<U64> {
    if value <= U64_MAX then Ok(value) else Err(ResultDoesNotFit)
  }

  function MulDivCeilU64(lhs: U64, rhs: U64, denominator: U64): Result<U64> {
    var value :- MulDivCeil(lhs, rhs, denominator);
    FitU64(value)
  }

  lemma BpsBounds(amount: U64, bps: U16)
    ensures 0 <= amount * bps <= U128_MAX
    ensures bps <= BPS_DENOMINATOR ==> amount * bps <= amount * 10_000
  {
    MulLe(amount, U64_MAX, bps);
    if bps <= BPS_DENOMINATOR {
      MulLe(bps, 10_000, amount);
    }
  }

  function BpsFloor(amount: U64, bps: U16): (r: Result<U64>)
    ensures bps <= BPS_DENOMINATOR ==> r.Ok? && r.value <= amount
    ensures r.Ok? ==> r.value * 10_000 <= amount * bps < (r.value + 1) * 10_000
  {
    BpsBounds(amount, bps);
    FitU64(MulDivFloor(amount, bps, BPS_DENOMINATOR).value)
  }

  function BpsCeil(amount: U64, bps: U16): (r: Result<U64>)
    ensures bps <= BPS_DENOMINATOR ==> r.Ok? && r.value <= amount
    ensures r.Ok? ==> (r.value - 1) * 10_000 < amount * bps <= r.value * 10_000
  {
    BpsBounds(amount, bps);
    MulDivCeilU64(amount, bps, BPS_DENOMINATOR)
  }

  /** The virtual share supply behind one virtual base atom, for a supported base mint. */
  ghost function Offset(baseDecimals: U8): nat
    requires baseDecimals <= SHARE_DECIMALS
  {
    TenTo(SHARE_DECIMALS - baseDecimals)
  }

  lemma OffsetBounds(baseDecimals: U8)
    requires baseDecimals <= SHARE_DECIMALS
    ensures 1 <= Offset(baseDecimals) <= SHARE_SCALE
  {
    TenToMono(SHARE_DECIMALS - baseDecimals, SHARE_DECIMALS);
    TenTo38();
  }

  function VirtualShareOffset(baseDecimals: U8): (r: Result<U128>)
    ensures r.Ok? <==> baseDecimals <= SHARE_DECIMALS
    ensures r.Ok? ==> r.value == Offset(baseDecimals) && 1 <= r.value <= SHARE_SCALE
  {
    if baseDecimals > SHARE_DECIMALS then Err(InvalidDecimals)
    else
      OffsetBounds(baseDecimals);
      Pow10(SHARE_DECIMALS - baseDecimals)
  }

  /** Shares minted for `baseAtoms`, rounded down: minting never costs the pool. */
  function SharesForDeposit(baseAtoms: U64, totalAssets: U64, totalShares: U64, baseDecimals: U8): (r: Result<U64>)
    ensures r.Ok? ==> baseDecimals <= SHARE_DECIMALS && 1 <= r.value
    ensures r.Ok? ==>
              r.value * (totalAssets + 1) <= baseAtoms * (totalShares + Offset(baseDecimals))
              < (r.value + 1) * (totalAssets + 1)
  {
    var virtualShares :- VirtualShareOffset(baseDecimals);
    var value :- MulDivFloor(baseAtoms, totalShares + virtualShares, totalAssets + 1);
    var shares :- FitU64(value);
    if shares == 0 then Err(ZeroOutput) else Ok(shares)
  }

  /** A deposit mints `shares` exactly when the mint is supported, the product fits u128, and
      `shares` is the floor, at least one and within u64; in every other case it errs. */
  lemma SharesForDepositExactly(baseAtoms: U64, totalAssets: U64, totalShares: U64, baseDecimals: U8, shares: U64)
    ensures SharesForDeposit(baseAtoms, totalAssets, totalShares, baseDecimals) == Ok(shares)
            <==> && baseDecimals <= SHARE_DECIMALS
                 && baseAtoms * (totalShares + Offset(baseDecimals)) <= U128_MAX
                 && 1 <= shares
                 && shares * (totalAssets + 1) <= baseAtoms * (totalShares + Offset(baseDecimals))
                    < (shares + 1) * (totalAssets + 1)
  {
    if baseDecimals <= SHARE_DECIMALS {
      OffsetBounds(baseDecimals);
      MulLe(0, baseAtoms, totalShares + Offset(baseDecimals));
      var product := baseAtoms * (totalShares + Offset(baseDecimals));
      if product <= U128_MAX && shares * (totalAssets + 1) <= product < (shares + 1) * (totalAssets + 1) {
        FloorUnique(product, totalAssets + 1, shares);
        FloorUnique(product, totalAssets + 1,
                    MulDivFloor(baseAtoms, totalShares + Offset(baseDecimals), totalAssets + 1).value);
      }
    }
  }

  /** Why a deposit errs, in the order the checks come. */
  lemma SharesForDepositErrs(baseAtoms: U64, totalAssets: U64, totalShares: U64, baseDecimals: U8)
    requires SharesForDeposit(baseAtoms, totalAssets, totalShares, baseDecimals).Err?
    ensures SharesForDeposit(baseAtoms, totalAssets, totalShares, baseDecimals).error
            == if baseDecimals > SHARE_DECIMALS then InvalidDecimals
               else if baseAtoms * (totalShares + Offset(baseDecimals)) > U128_MAX then Overflow
               else if (U64_MAX + 1) * (totalAssets + 1) <= baseAtoms * (totalShares + Offset(baseDecimals))
                   then ResultDoesNotFit
               else ZeroOutput
    ensures SharesForDeposit(baseAtoms, totalAssets, totalShares, baseDecimals).error == ZeroOutput ==>
              baseDecimals <= SHARE_DECIMALS && baseAtoms * (totalShares + Offset(baseDecimals)) < totalAssets + 1
  {
    if baseDecimals <= SHARE_DECIMALS && baseAtoms * (totalShares + Offset(baseDecimals)) <= U128_MAX {
      var product := baseAtoms * (totalShares + Offset(baseDecimals));
      var quotient: int := MulDivFloor(baseAtoms, totalShares + Offset(baseDecimals), totalAssets + 1).value;
      if quotient > U64_MAX {
        MulLe(U64_MAX + 1, quotient, totalAssets + 1);
      } else {
        MulLe(quotient + 1, U64_MAX + 1, totalAssets + 1);
      }
    }
  }

  /** Base value of `shares`, rounded down. On a supported base mint it fails only when asked
      about more shares than exist, and it never exceeds the assets being shared out. */
  function AssetsForShares(shares: U64, totalAssets: U64, totalShares: U64, baseDecimals: U8): (r: Result<U64>)
    ensures r.Ok? <==> shares <= totalShares && baseDecimals <= SHARE_DECIMALS
    ensures r.Ok? ==> r.value <= totalAssets
    ensures r.Ok? ==>
              r.value * (totalShares + Offset(baseDecimals)) <= shares * (totalAssets + 1)
              < (r.value + 1) * (totalShares + Offset(baseDecimals))
  {
    if shares > totalShares then Err(InvalidVaultState)
    else
      var virtualShares :- VirtualShareOffset(baseDecimals);
      RedeemFits(shares, totalAssets, totalShares, virtualShares);
      FitU64(MulDivFloor(shares, totalAssets + 1, totalShares + virtualShares).value)
  }

  lemma RedeemFits(shares: U64, totalAssets: U64, totalShares: U64, virtualShares: nat)
    requires shares <= totalShares && 1 <= virtualShares
    ensures shares * (totalAssets + 1) <= U128_MAX
    ensures shares * (totalAssets + 1) / (totalShares + virtualShares) <= totalAssets
  {
    MulLe(shares, U64_MAX, totalAssets + 1);
    MulLe(totalAssets + 1, U64_MAX + 1, U64_MAX);
    MulLe(shares, totalShares + virtualShares - 1, totalAssets + 1);
    FloorBelow(shares * (totalAssets + 1), totalShares + virtualShares, totalAssets + 1);
  }

  function AssetsForRedeem(shares: U64, totalAssets: U64, totalShares: U64, baseDecimals: U8): Result<U64> {
    var assets :- AssetsForShares(shares, totalAssets, totalShares, baseDecimals);
    if assets == 0 then Err(ZeroOutput) else Ok(assets)
  }

  function SharePriceFromAssets(totalAssets: U64, totalShares: U64): (r: Result<U64>)
    ensures r.Ok? <==> totalShares != 0 && totalAssets * SHARE_SCALE < (U64_MAX + 1) * totalShares
    ensures r.Ok? ==> r.value * totalShares <= totalAssets * SHARE_SCALE < (r.value + 1) * totalShares
  {
    if totalShares == 0 then Err(InvalidVaultState)
    else
      var sharePrice := MulDivFloor(totalAssets, SHARE_SCALE, totalShares).value;
      PriceFits(totalAssets, totalShares, sharePrice);
      FitU64(sharePrice)
  }

  lemma PriceFits(totalAssets: U64, totalShares: U64, sharePrice: nat)
    requires 0 < totalShares
    requires sharePrice * totalShares <= totalAssets * SHARE_SCALE < (sharePrice + 1) * totalShares
    ensures sharePrice <= U64_MAX <==> totalAssets * SHARE_SCALE < (U64_MAX + 1) * totalShares
  {
    if sharePrice <= U64_MAX {
      MulLe(sharePrice + 1, U64_MAX + 1, totalShares);
    } else {
      MulLe(U64_MAX + 1, sharePrice, totalShares);
    }
  }

  /** `value / 10^decimals` quote units per whole token. */
  datatype OraclePrice = OraclePrice(value: U128, decimals: U8)

  const UNIT_PRICE := OraclePrice(1, 0)

  /** Base atoms for `assetAtoms`: one floor of the exact two-leg conversion. */
  function BaseAtomsFromAssetAtoms(assetAtoms: U64, assetPrice: OraclePrice, basePrice: OraclePrice,
                                   assetDecimals: U8, baseDecimals: U8): (r: Result<U64>)
    ensures r.Ok? ==>
              var unit := basePrice.value * TenTo(assetDecimals + assetPrice.decimals);
              var exact := assetAtoms * assetPrice.value * TenTo(baseDecimals + basePrice.decimals);
              r.value * unit <= exact < (r.value + 1) * unit
  {
    if basePrice.value == 0 then Err(DivisionByZero)
    else if assetAtoms * assetPrice.value > U128_MAX then Err(Overflow)
    else
      var value :- NetConversion(assetAtoms * assetPrice.value, basePrice.value,
                                 baseDecimals + basePrice.decimals, assetDecimals + assetPrice.decimals);
      FitU64(value)
  }

  /** The shared powers of ten cancel before the multiplication, leaving a single floor. */
  function NetConversion(scaledAtoms: U128, baseValue: U128, numeratorExp: nat, denominatorExp: nat): (r: Result<U128>)
    requires 0 < baseValue
    ensures r.Ok? ==>
              var unit := baseValue * TenTo(denominatorExp);
              r.value * unit <= scaledAtoms * TenTo(numeratorExp) < (r.value + 1) * unit
  {
    if numeratorExp >= denominatorExp then
      var scale :- Pow10(numeratorExp - denominatorExp);
      var value :- MulDivFloor(scaledAtoms, scale, baseValue);
      TenToAdd(denominatorExp, numeratorExp - denominatorExp);
      TenToMono(0, denominatorExp);
      ScaleBounds(value, baseValue, scaledAtoms * scale, TenTo(denominatorExp));
      Regroup(scaledAtoms, scale, TenTo(denominatorExp));
      Ok(value)
    else
      var scale :- Pow10(denominatorExp - numeratorExp);
      if baseValue * scale > U128_MAX then Err(Overflow)
      else
        var value := scaledAtoms / (baseValue * scale);
        FloorBounds(scaledAtoms, baseValue * scale);
        TenToAdd(numeratorExp, denominatorExp - numeratorExp);
        TenToMono(0, numeratorExp);
        ScaleBounds(value, baseValue * scale, scaledAtoms, TenTo(numeratorExp));
        Regroup(baseValue, scale, TenTo(numeratorExp));
        assert value <= scaledAtoms by {
          MulLe(1, baseValue * scale, value);
        }
        Ok(value)
  }

  /** The powers of ten left after cancelling fit: at most 38 of them, and the side they scale
      stays inside u128. */
  ghost predicate ConversionFits(scaledAtoms: int, baseValue: nat, numeratorExp: nat, denominatorExp: nat) {
    if numeratorExp >= denominatorExp then
      numeratorExp - denominatorExp <= 38 && scaledAtoms * TenTo(numeratorExp - denominatorExp) <= U128_MAX
    else
      denominatorExp - numeratorExp <= 38 && baseValue * TenTo(denominatorExp - numeratorExp) <= U128_MAX
  }

  /** A conversion yields `atoms` exactly when there is a base price, nothing on the way overflows,
      and `atoms` is the floor of the exact value; in every other case it errs. */
  lemma ConversionIsExact(assetAtoms: U64, assetPrice: OraclePrice, basePrice: OraclePrice,
                          assetDecimals: U8, baseDecimals: U8, atoms: U64)
    ensures BaseAtomsFromAssetAtoms(assetAtoms, assetPrice, basePrice, assetDecimals, baseDecimals) == Ok(atoms)
            <==> && basePrice.value != 0
                 && assetAtoms * assetPrice.value <= U128_MAX
                 && ConversionFits(assetAtoms * assetPrice.value, basePrice.value,
                                   baseDecimals + basePrice.decimals, assetDecimals + assetPrice.decimals)
                 && atoms * (basePrice.value * TenTo(assetDecimals + assetPrice.decimals))
                    <= assetAtoms * assetPrice.value * TenTo(baseDecimals + basePrice.decimals)
                    < (atoms + 1) * (basePrice.value * TenTo(assetDecimals + assetPrice.decimals))
  {
    hide TenTo, NetConversion, ConversionFits;
    MulLe(0, assetAtoms, assetPrice.value);
    var scaled := assetAtoms * assetPrice.value;
    var numeratorExp: nat := baseDecimals + basePrice.decimals;
    var denominatorExp: nat := assetDecimals + assetPrice.decimals;
    if basePrice.value != 0 && scaled <= U128_MAX {
      NetConversionFits(scaled, basePrice.value, numeratorExp, denominatorExp);
      var net := NetConversion(scaled, basePrice.value, numeratorExp, denominatorExp);
      var unit, exact := basePrice.value * TenTo(denominatorExp), scaled * TenTo(numeratorExp);
      if net.Ok? && atoms * unit <= exact < (atoms + 1) * unit {
        CancelLt(atoms, net.value + 1, unit);
        CancelLt(net.value, atoms + 1, unit);
      }
    }
  }

  /** A conversion succeeds exactly when there is a base price, nothing on the way overflows, and the
      exact value is below 2^64. */
  lemma ConversionSucceedsExactly(assetAtoms: U64, assetPrice: OraclePrice, basePrice: OraclePrice,
                                  assetDecimals: U8, baseDecimals: U8)
    ensures BaseAtomsFromAssetAtoms(assetAtoms, assetPrice, basePrice, assetDecimals, baseDecimals).Ok?
            <==> && basePrice.value != 0
                 && assetAtoms * assetPrice.value <= U128_MAX
                 && ConversionFits(assetAtoms * assetPrice.value, basePrice.value,
                                   baseDecimals + basePrice.decimals, assetDecimals + assetPrice.decimals)
                 && assetAtoms * assetPrice.value * TenTo(baseDecimals + basePrice.decimals)
                    < (U64_MAX + 1) * (basePrice.value * TenTo(assetDecimals + assetPrice.decimals))
  {
    hide TenTo, NetConversion, ConversionFits;
    MulLe(0, assetAtoms, assetPrice.value);
    var scaled := assetAtoms * assetPrice.value;
    var numeratorExp: nat := baseDecimals + basePrice.decimals;
    var denominatorExp: nat := assetDecimals + assetPrice.decimals;
    if basePrice.value != 0 && scaled <= U128_MAX {
      NetConversionFits(scaled, basePrice.value, numeratorExp, denominatorExp);
      var net := NetConversion(scaled, basePrice.value, numeratorExp, denominatorExp);
      if net.Ok? {
        FloorBelowBound(net.value, scaled * TenTo(numeratorExp), basePrice.value * TenTo(denominatorExp), U64_MAX + 1);
      }
    }
  }

  lemma FloorBelowBound(q: int, x: int, d: int, bound: int)
    requires 0 < d && q * d <= x < (q + 1) * d
    ensures q < bound <==> x < bound * d
  {
    if q < bound {
      MulLe(q + 1, bound, d);
    } else {
      MulLe(bound, q, d);
    }
  }

  function Gap(a: nat, b: nat): nat {
    if a >= b then a - b else b - a
  }

  /** Why a conversion errs, in the order the checks come. */
  lemma ConversionErrs(assetAtoms: U64, assetPrice: OraclePrice, basePrice: OraclePrice,
                       assetDecimals: U8, baseDecimals: U8)
    requires BaseAtomsFromAssetAtoms(assetAtoms, assetPrice, basePrice, assetDecimals, baseDecimals).Err?
    ensures BaseAtomsFromAssetAtoms(assetAtoms, assetPrice, basePrice, assetDecimals, baseDecimals).error
            == if basePrice.value == 0 then DivisionByZero
               else if assetAtoms * assetPrice.value > U128_MAX then Overflow
               else if Gap(baseDecimals + basePrice.decimals, assetDecimals + assetPrice.decimals) > 38
               then InvalidDecimals
               else if !ConversionFits(assetAtoms * assetPrice.value, basePrice.value,
                                       baseDecimals + basePrice.decimals, assetDecimals + assetPrice.decimals)
               then Overflow
               else ResultDoesNotFit
  {
    hide TenTo;
    MulLe(0, assetAtoms, assetPrice.value);
    if basePrice.value != 0 && assetAtoms * assetPrice.value <= U128_MAX {
      NetConversionFits(assetAtoms * assetPrice.value, basePrice.value,
                        baseDecimals + basePrice.decimals, assetDecimals + assetPrice.decimals);
    }
  }

  lemma NetConversionFits(scaledAtoms: U128, baseValue: U128, numeratorExp: nat, denominatorExp: nat)
    requires 0 < baseValue
    ensures NetConversion(scaledAtoms, baseValue, numeratorExp, denominatorExp).Ok?
            <==> ConversionFits(scaledAtoms, baseValue, numeratorExp, denominatorExp)
    ensures 0 < baseValue * TenTo(denominatorExp)
  {
    TenToMono(0, denominatorExp);
    MulLe(1, baseValue, TenTo(denominatorExp));
  }

  lemma ScaleBounds(q: int, d: int, x: int, k: int)
    requires 0 < k && q * d <= x < (q + 1) * d
    ensures q * (d * k) <= x * k < (q + 1) * (d * k)
  {
    MulLe(q * d, x, k);
    MulLe(x + 1, (q + 1) * d, k);
    assert q * d * k == q * (d * k);
    assert (q + 1) * d * k == (q + 1) * (d * k);
  }
}

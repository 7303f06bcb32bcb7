/** What the virtual position buys: pricing that rounds against the mover, is exact at par,
    and makes inflating a later depositor's rounding loss cost the attacker a multiple of it. */
module Inflation {
  import opened Outcome
  import opened Rounding
  import opened Pricing

  /** Two products of the post-deposit state, expanded: the victim's shortfall is the remainder
      of the share floor, the attacker's is what the virtual shares absorb. */
  lemma PostDepositIdentities(a: int, e: int, b: int, v: int, off: int)
    ensures b * (a + v + off) - v * (e + b + 1) == b * (a + off) - v * (e + 1)
    ensures e * (a + v + off) - a * (e + b + 1)
            == off * (e + b + 1) - (a + v + off) - (b * (a + off) - v * (e + 1))
  {
    assert b * (a + v + off) == b * (a + off) + b * v;
    assert v * (e + b + 1) == v * (e + 1) + v * b;
    assert e * (a + v + off) == e * a + e * v + e * off;
    assert a * (e + b + 1) == a * e + a * b + a;
    assert off * (e + b + 1) == off * e + off * b + off;
    assert b * (a + off) == b * a + b * off;
    assert v * (e + 1) == v * e + v;
  }

  /** Redeeming what a deposit just minted never pays more than was deposited. */
  lemma DepositThenRedeemNeverOverpays(b: U64, assets: U64, shares: U64, baseDecimals: U8)
    requires SharesForDeposit(b, assets, shares, baseDecimals).Ok?
    requires assets + b <= U64_MAX
    requires shares + SharesForDeposit(b, assets, shares, baseDecimals).value <= U64_MAX
    ensures var v := SharesForDeposit(b, assets, shares, baseDecimals).value;
            AssetsForShares(v, assets + b, shares + v, baseDecimals).Ok?
            && AssetsForShares(v, assets + b, shares + v, baseDecimals).value <= b
  {
    var v := SharesForDeposit(b, assets, shares, baseDecimals).value;
    var off := Offset(baseDecimals);
    OffsetBounds(baseDecimals);
    PostDepositIdentities(shares, assets, b, v, off);
    var claim := AssetsForShares(v, assets + b, shares + v, baseDecimals).value;
    CancelLe(claim, b, shares + v + off);
  }

  /** Donation-inflation bound. An attacker holds all `a` shares of a vault into which they put
      `e` atoms, as deposits or as donations; a victim's deposit of `b` atoms is accepted. Valued
      right after the deposit, the attacker is out at least `offset - 1` times what the victim
      lost beyond one atom of rounding. */
  lemma InflationCostsTheAttacker(a: U64, e: U64, b: U64, baseDecimals: U8)
    requires SharesForDeposit(b, e, a, baseDecimals).Ok?
    requires e + b <= U64_MAX && a + SharesForDeposit(b, e, a, baseDecimals).value <= U64_MAX
    ensures var v := SharesForDeposit(b, e, a, baseDecimals).value;
            var attackerClaim := AssetsForShares(a, e + b, a + v, baseDecimals);
            var victimClaim := AssetsForShares(v, e + b, a + v, baseDecimals);
            && attackerClaim.Ok? && victimClaim.Ok?
            && 0 <= e - attackerClaim.value && 0 <= b - victimClaim.value
            && (Offset(baseDecimals) - 1) * (b - victimClaim.value - 1) <= e - attackerClaim.value
  {
    var v := SharesForDeposit(b, e, a, baseDecimals).value;
    var off := Offset(baseDecimals);
    OffsetBounds(baseDecimals);
    DepositThenRedeemNeverOverpays(b, e, a, baseDecimals);
    ClaimsAfterDeposit(a, e, b, v, off,
                       AssetsForShares(a, e + b, a + v, baseDecimals).value,
                       AssetsForShares(v, e + b, a + v, baseDecimals).value);
  }

  /** The factor cannot be raised to the offset: here the offset is one, the victim loses an atom,
      and the attacker loses nothing. */
  lemma FullOffsetIsTooMuch()
    ensures Offset(9) == 1 && SharesForDeposit(1, 1, 2, 9) == Ok(1)
    ensures AssetsForShares(2, 2, 3, 9) == Ok(1) && AssetsForShares(1, 2, 3, 9) == Ok(0)
    ensures Offset(9) * (1 - AssetsForShares(1, 2, 3, 9).value) > 1 - AssetsForShares(2, 2, 3, 9).value
  {
  }

  lemma ClaimsAfterDeposit(a: nat, e: nat, b: nat, v: nat, off: nat, attackerClaim: nat, victimClaim: nat)
    requires 1 <= off
    requires v * (e + 1) <= b * (a + off) < (v + 1) * (e + 1)
    requires attackerClaim * (a + v + off) <= a * (e + b + 1)
    requires v * (e + b + 1) < (victimClaim + 1) * (a + v + off)
    ensures 0 <= e - attackerClaim && (off - 1) * (b - victimClaim - 1) <= e - attackerClaim
  {
    var t, r := a + v + off, b * (a + off) - v * (e + 1);
    var loss, q := e - attackerClaim, b - victimClaim - 1;
    PostDepositIdentities(a, e, b, v, off);
    Distribute(v, e + 1);
    DistributeSub(b, victimClaim + 1, t);
    DistributeSub(e, attackerClaim, t);
    OffsetMultiple(off, e + b + 1, t, r, q, loss);
  }

  lemma OffsetMultiple(off: int, s: int, t: int, r: int, q: int, loss: int)
    requires 1 <= off && 0 < t && 0 <= r < s
    requires q * t < r && off * s - t - r <= loss * t
    ensures 0 <= loss && (off - 1) * q <= loss
  {
    LossCoversRemainder(off, s, t, r, loss);
    MulLe(0, r, off - 1);
    DistributeSub(0, 1, t);
    CancelLt(-1, loss, t);
    if q >= 0 {
      MultipleBelowRemainder(off - 1, t, r, q);
      DistributeSub((off - 1) * q, 1, t);
      CancelLt((off - 1) * q - 1, loss, t);
    } else {
      MulLe(q, 0, off - 1);
      Commute(q, off - 1);
    }
  }

  /** What the virtual shares absorb: the loss is worth more than `off - 1` remainders less one share. */
  lemma LossCoversRemainder(off: int, s: int, t: int, r: int, loss: int)
    requires 1 <= off && r < s && off * s - t - r <= loss * t
    ensures r * (off - 1) - t < loss * t
  {
    MulLe(r + 1, s, off);
    Distribute(r, off);
    Commute(s, off);
    Commute(r, off - 1);
    DistributeSub(off, 1, r);
    Commute(off, r);
  }

  lemma MultipleBelowRemainder(k: int, t: int, r: int, q: int)
    requires 0 <= k && q * t < r
    ensures k * q * t <= r * k
  {
    MulLe(q * t, r, k);
    Swap(q, t, k);
    Commute(q, k);
  }

  /** At par (assets and supply in the empty-vault ratio) the virtual position cancels: minting
      is exact, and redeeming floors only the share-to-atom ratio. */
  lemma ParPricingIsExact(pot: U64, b: U64, shares: U64, baseDecimals: U8)
    requires baseDecimals <= SHARE_DECIMALS
    requires pot * Offset(baseDecimals) <= U64_MAX && 0 < b && b * Offset(baseDecimals) <= U64_MAX
    requires shares <= pot * Offset(baseDecimals)
    ensures 0 <= pot * Offset(baseDecimals)
    ensures SharesForDeposit(b, pot, pot * Offset(baseDecimals), baseDecimals) == Ok(b * Offset(baseDecimals))
    ensures AssetsForShares(shares, pot, pot * Offset(baseDecimals), baseDecimals).Ok?
    ensures AssetsForShares(shares, pot, pot * Offset(baseDecimals), baseDecimals).value * Offset(baseDecimals)
            <= shares
            < (AssetsForShares(shares, pot, pot * Offset(baseDecimals), baseDecimals).value + 1) * Offset(baseDecimals)
  {
    var off := Offset(baseDecimals);
    OffsetBounds(baseDecimals);
    MulLe(0, pot, off);
    MulLe(1, b, off);
    ParDeposit(pot, b, off);
    ParFits(pot, b, off);
    assert SharesForDeposit(b, pot, pot * off, baseDecimals) == Ok(b * off) by {
      FloorUnique(b * (pot * off + off), pot + 1, b * off);
    }
    ParRedeem(pot, shares, off, AssetsForShares(shares, pot, pot * off, baseDecimals).value);
  }

  /** At par the product a deposit takes never overflows u128. */
  lemma ParFits(pot: U64, b: U64, off: nat)
    requires b * off <= U64_MAX
    ensures 0 <= b * (pot * off + off) <= U128_MAX
  {
    ParDeposit(pot, b, off);
    MulLe(0, b, off);
    MulLe(0, b * off, pot + 1);
    MulLe(b * off, U64_MAX, pot + 1);
  }

  lemma ParDeposit(pot: nat, b: nat, off: nat)
    ensures b * (pot * off + off) == (b * off) * (pot + 1)
  {
    calc {
      b * (pot * off + off);
      { assert pot * off + off == (pot + 1) * off; }
      b * ((pot + 1) * off);
      (b * off) * (pot + 1);
    }
  }

  lemma ParRedeem(pot: nat, shares: nat, off: nat, paid: nat)
    requires paid * (pot * off + off) <= shares * (pot + 1) < (paid + 1) * (pot * off + off)
    ensures paid * off <= shares < (paid + 1) * off
  {
    ParDeposit(pot, paid, off);
    ParDeposit(pot, paid + 1, off);
    CancelLe(paid * off, shares, pot + 1);
    CancelLt(shares, (paid + 1) * off, pot + 1);
  }

  /** At or below par a redemption of the whole supply empties the vault exactly. */
  lemma FullRedeemEmptiesVault(assets: U64, supply: U64, baseDecimals: U8)
    requires baseDecimals <= SHARE_DECIMALS && assets * Offset(baseDecimals) <= supply
    ensures AssetsForShares(supply, assets, supply, baseDecimals) == Ok(assets)
  {
    var off := Offset(baseDecimals);
    OffsetBounds(baseDecimals);
    assert supply * (assets + 1) == assets * (supply + off) + (supply - assets * off);
    assert supply - assets * off < supply + off by {
      MulLe(0, assets, off);
    }
    FloorUnique(supply * (assets + 1), supply + off, assets);
    var paid := AssetsForShares(supply, assets, supply, baseDecimals).value;
    FloorUnique(supply * (assets + 1), supply + off, paid);
  }
}

/** Performance fees against a high watermark (`performance_fee_for_nav`). */
module Fees {
  import opened Outcome
  import opened Rounding
  import opened Pricing

  datatype FeeSplit = FeeSplit(fee: U64, net: U64, highWatermark: U64)

  /** Assets that put `totalShares` exactly at the watermark price, rounded up. */
  function WatermarkAssets(highWatermark: U64, totalShares: U64): Result<U64> {
    MulLe(highWatermark, U64_MAX, totalShares);
    FitU64(MulDivCeil(highWatermark, totalShares, SHARE_SCALE).value)
  }

  /** The accrual of one report. Past the gross share price every checked operation of the
      charging branch is proved to fit, so it is written without its error arm. */
  function PerformanceFeeForNav(gross: U64, totalShares: U64, highWatermark: U64, feeBps: U16): (r: Result<FeeSplit>)
    ensures r.Ok? ==> r.value.fee + r.value.net == gross
  {
    if feeBps > BPS_DENOMINATOR then Err(InvalidBps)
    else if totalShares == 0 then Ok(FeeSplit(0, gross, highWatermark))
    else
      var grossPrice :- SharePriceFromAssets(gross, totalShares);
      if highWatermark == 0 || grossPrice <= highWatermark || feeBps == 0 then
        Ok(FeeSplit(0, gross, Max(highWatermark, grossPrice)))
      else
        MulLe(highWatermark, grossPrice, totalShares);
        WatermarkBelowGross(gross, totalShares, highWatermark);
        var profit := gross - WatermarkAssets(highWatermark, totalShares).value;
        var fee := BpsFloor(profit, feeBps).value;
        var net := gross - fee;
        Ok(FeeSplit(fee, net, Max(highWatermark, SharePriceFromAssets(net, totalShares).value)))
  }

  /** Whether a report charges: it has to beat an established watermark. */
  predicate ChargesFee(gross: U64, totalShares: U64, highWatermark: U64, feeBps: U16) {
    totalShares != 0 && highWatermark != 0 && feeBps != 0
    && (highWatermark + 1) * totalShares <= gross * SHARE_SCALE
  }

  lemma ChargesAbovePrice(gross: U64, totalShares: U64, highWatermark: U64)
    requires SharePriceFromAssets(gross, totalShares).Ok?
    ensures highWatermark < SharePriceFromAssets(gross, totalShares).value
            <==> (highWatermark + 1) * totalShares <= gross * SHARE_SCALE
  {
    var price: int := SharePriceFromAssets(gross, totalShares).value;
    if highWatermark < price {
      MulLe(highWatermark + 1, price, totalShares);
    } else {
      MulLe(price + 1, highWatermark + 1, totalShares);
    }
  }

  lemma WatermarkBelowGross(gross: U64, totalShares: U64, highWatermark: U64)
    requires highWatermark * totalShares <= gross * SHARE_SCALE
    ensures WatermarkAssets(highWatermark, totalShares).Ok?
    ensures var w := WatermarkAssets(highWatermark, totalShares).value;
            w <= gross && (w - 1) * SHARE_SCALE < highWatermark * totalShares <= w * SHARE_SCALE
  {
    var w: int := MulDivCeil(highWatermark, totalShares, SHARE_SCALE).value;
    CancelLt(w - 1, gross, SHARE_SCALE);
  }

  /** A report errs only on an invalid fee rate or on a gross share price beyond u64. */
  lemma FeeErrsExactly(gross: U64, totalShares: U64, highWatermark: U64, feeBps: U16)
    ensures PerformanceFeeForNav(gross, totalShares, highWatermark, feeBps).Ok?
            <==> feeBps <= BPS_DENOMINATOR
                 && (totalShares == 0 || gross * SHARE_SCALE < (U64_MAX + 1) * totalShares)
  {
  }

  /** What an accepted accrual guarantees: the fee is carved out of the gross, it is the
      floored rate on the profit above the watermark's assets and is due exactly when the
      gross beats the watermark by a whole price unit, the net stays at or above the
      watermark, and the new watermark is the highest price seen. */
  lemma FeeConservesAndRatchets(gross: U64, totalShares: U64, highWatermark: U64, feeBps: U16)
    requires PerformanceFeeForNav(gross, totalShares, highWatermark, feeBps).Ok?
    ensures var s := PerformanceFeeForNav(gross, totalShares, highWatermark, feeBps).value;
            && s.fee + s.net == gross
            && highWatermark <= s.highWatermark
            && (ChargesFee(gross, totalShares, highWatermark, feeBps) ==>
                  && highWatermark * totalShares <= s.net * SHARE_SCALE
                  && WatermarkAssets(highWatermark, totalShares).Ok?
                  && var w := WatermarkAssets(highWatermark, totalShares).value;
                     && w <= gross
                     && (w - 1) * SHARE_SCALE < highWatermark * totalShares <= w * SHARE_SCALE
                     && s.fee * 10_000 <= (gross - w) * feeBps < (s.fee + 1) * 10_000)
            && (!ChargesFee(gross, totalShares, highWatermark, feeBps) ==> s.fee == 0)
            && (totalShares == 0 ==> s.highWatermark == highWatermark)
            && (totalShares != 0 ==>
                  s.highWatermark == Max(highWatermark, SharePriceFromAssets(s.net, totalShares).value))
  {
    FeeErrsExactly(gross, totalShares, highWatermark, feeBps);
    if totalShares != 0 {
      ChargesAbovePrice(gross, totalShares, highWatermark);
    }
    if ChargesFee(gross, totalShares, highWatermark, feeBps) {
      MulLe(highWatermark, highWatermark + 1, totalShares);
      WatermarkBelowGross(gross, totalShares, highWatermark);
      var w := WatermarkAssets(highWatermark, totalShares).value;
      var fee := BpsFloor(gross - w, feeBps).value;
      MulLe(w, gross - fee, SHARE_SCALE);
    }
  }

  /** Reporting the same gross again charges nothing and changes nothing: once a fee has moved
      from the fee base into the payable, the remaining base is a fixed point. */
  lemma FeeIsNotRepeated(gross: U64, totalShares: U64, highWatermark: U64, feeBps: U16)
    requires PerformanceFeeForNav(gross, totalShares, highWatermark, feeBps).Ok?
    ensures var s := PerformanceFeeForNav(gross, totalShares, highWatermark, feeBps).value;
            PerformanceFeeForNav(s.net, totalShares, s.highWatermark, feeBps)
            == Ok(FeeSplit(0, s.net, s.highWatermark))
  {
    var s := PerformanceFeeForNav(gross, totalShares, highWatermark, feeBps).value;
    FeeConservesAndRatchets(gross, totalShares, highWatermark, feeBps);
    FeeErrsExactly(gross, totalShares, highWatermark, feeBps);
    MulLe(s.net, gross, SHARE_SCALE);
  }

  /** The watermark's assets sit less than one price unit per share below any net whose price
      the watermark has reached. */
  lemma WatermarkCovers(net: U64, totalShares: U64, highWatermark: U64, w: U64)
    requires SharePriceFromAssets(net, totalShares).Ok?
    requires SharePriceFromAssets(net, totalShares).value <= highWatermark
    requires highWatermark * totalShares <= w * SHARE_SCALE
    ensures net * SHARE_SCALE < w * SHARE_SCALE + totalShares
  {
    var price: int := SharePriceFromAssets(net, totalShares).value;
    MulLe(price + 1, highWatermark + 1, totalShares);
    assert (highWatermark + 1) * totalShares == highWatermark * totalShares + totalShares;
  }

  /** No gain is charged twice: once an accrual has recognised `first.net`, the profit any accrual
      of as many shares charges against a watermark at least as high starts at assets less than
      `totalShares / 10^9` atoms below that net, whatever the rates. */
  lemma NoGainChargedTwice(gross: U64, totalShares: U64, highWatermark: U64, feeBps: U16,
                           laterGross: U64, laterWatermark: U64, laterBps: U16)
    requires PerformanceFeeForNav(gross, totalShares, highWatermark, feeBps).Ok?
    requires PerformanceFeeForNav(laterGross, totalShares, laterWatermark, laterBps).Ok?
    requires PerformanceFeeForNav(gross, totalShares, highWatermark, feeBps).value.highWatermark <= laterWatermark
    ensures var first := PerformanceFeeForNav(gross, totalShares, highWatermark, feeBps).value;
            var later := PerformanceFeeForNav(laterGross, totalShares, laterWatermark, laterBps).value;
            ChargesFee(laterGross, totalShares, laterWatermark, laterBps) ==>
              && WatermarkAssets(laterWatermark, totalShares).Ok?
              && var w := WatermarkAssets(laterWatermark, totalShares).value;
                 && later.fee * 10_000 <= (laterGross - w) * laterBps
                 && first.net * SHARE_SCALE < w * SHARE_SCALE + totalShares
  {
    hide PerformanceFeeForNav, WatermarkAssets;
    if ChargesFee(laterGross, totalShares, laterWatermark, laterBps) {
      FeeConservesAndRatchets(laterGross, totalShares, laterWatermark, laterBps);
      NetPriceReached(gross, totalShares, highWatermark, feeBps);
      WatermarkCovers(PerformanceFeeForNav(gross, totalShares, highWatermark, feeBps).value.net, totalShares,
                      laterWatermark, WatermarkAssets(laterWatermark, totalShares).value);
    }
  }

  lemma NetPriceReached(gross: U64, totalShares: U64, highWatermark: U64, feeBps: U16)
    requires PerformanceFeeForNav(gross, totalShares, highWatermark, feeBps).Ok? && totalShares != 0
    ensures var s := PerformanceFeeForNav(gross, totalShares, highWatermark, feeBps).value;
            && SharePriceFromAssets(s.net, totalShares).Ok?
            && SharePriceFromAssets(s.net, totalShares).value <= s.highWatermark
  {
    FeeConservesAndRatchets(gross, totalShares, highWatermark, feeBps);
    FeeErrsExactly(gross, totalShares, highWatermark, feeBps);
  }
}

/** The vault account (`crates/interface/src/state/vault.rs`): its accounting fields, the
    profit-unlock drip they define, and the in-place debit and NAV recognition. */
module Vaults {
  import opened Outcome
  import opened Rounding
  import opened Pricing

  /** Admin-configured risk controls; zero disables a control. */
  datatype Controls = Controls(
    maxUnlockDurationSecs: U32,
    maxReportAgeSecs: U32,
    minReportIntervalSecs: U32,
    cancelGraceSlots: U32,
    maxNavGainBps: U16,
    atomicRedeemFeeBps: U16,
    maxSwapSlippageBps: U16)

  /** The stored fields of a vault account, as a value. */
  datatype VaultState = VaultState(
    totalAssets: U64,
    depositCap: U64,
    pendingWithdrawalAssets: U64,
    feesPayable: U64,
    highWatermark: U64,
    reportEpoch: U64,
    requestedWithdrawalShares: U64,
    lastUpdateTs: I64,
    lockedProfit: U64,
    profitUnlockStartTs: I64,
    profitUnlockEndTs: I64,
    controls: Controls,
    performanceFeeBps: U16,
    baseDecimals: U8,
    depositsPaused: bool,
    withdrawalsPaused: bool)
  {
    function ValidateState(): Result<Unit> {
      if performanceFeeBps > BPS_DENOMINATOR then Err(InvalidBps)
      else if baseDecimals > SHARE_DECIMALS then Err(InvalidDecimals)
      else if controls.atomicRedeemFeeBps > BPS_DENOMINATOR then Err(InvalidBps)
      else if controls.maxSwapSlippageBps > BPS_DENOMINATOR then Err(InvalidBps)
      else if lockedProfit > totalAssets then Err(InvalidVaultState)
      else if profitUnlockStartTs > profitUnlockEndTs then Err(InvalidVaultState)
      else Ok(Unit)
    }

    /** Circulating shares plus the shares burned into tickets that are not struck yet. */
    function EconomicShareSupply(activeShareSupply: U64): Result<U64> {
      CheckedU64(activeShareSupply + requestedWithdrawalShares)
    }

    function TotalAssetsAfterDeposit(baseAtoms: U64): Result<U64> {
      var projected :- CheckedU64(totalAssets + baseAtoms);
      if depositCap != 0 && projected > depositCap then Err(DepositCapExceeded) else Ok(projected)
    }

    /** The unlock line over the integers: all of the locked profit up to the window start,
        falling linearly (rounded down) to nothing at the window end. */
    ghost function UnlockLine(t: int): (r: nat) {
      if t >= profitUnlockEndTs then 0
      else if t <= profitUnlockStartTs then lockedProfit
      else
        assert 0 <= lockedProfit * (profitUnlockEndTs - t) by {
          MulLe(0, lockedProfit, profitUnlockEndTs - t);
        }
        FloorBounds(lockedProfit * (profitUnlockEndTs - t), profitUnlockEndTs - profitUnlockStartTs);
        lockedProfit * (profitUnlockEndTs - t) / (profitUnlockEndTs - profitUnlockStartTs)
    }

    /** Profit still locked at `now`. It reads the unlock line, and fails only inside a window
        too wide for an i64 span. */
    function RemainingLockedProfit(now: I64): (r: Result<U64>)
      ensures r.Ok? <==> !(profitUnlockStartTs < now < profitUnlockEndTs
                           && profitUnlockEndTs - profitUnlockStartTs > I64_MAX)
      ensures r.Ok? ==> r.value == UnlockLine(now) && r.value <= lockedProfit
    {
      if now >= profitUnlockEndTs then Ok(0)
      else if now <= profitUnlockStartTs then Ok(lockedProfit)
      else
        var window :- CheckedI64(profitUnlockEndTs - profitUnlockStartTs);
        var left := profitUnlockEndTs - now;
        LineFits(lockedProfit, left, window);
        FloorUnique(lockedProfit * left, window, MulDivFloor(lockedProfit, left, window).value);
        FitU64(MulDivFloor(lockedProfit, left, window).value)
    }

    /** Share-pricing NAV at `now`: total assets less the profit still dripping. */
    function EffectiveTotalAssets(now: I64): Result<U64> {
      var remaining :- RemainingLockedProfit(now);
      if remaining > totalAssets then Err(InvalidVaultState) else Ok(totalAssets - remaining)
    }

    function DebitAssetsAtEffective(amount: U64, now: I64): Result<VaultState> {
      var remaining :- RemainingLockedProfit(now);
      if remaining > totalAssets || amount > totalAssets - remaining then Err(InvalidVaultState)
      else
        Ok(this.(totalAssets := totalAssets - amount,
                 lockedProfit := remaining,
                 profitUnlockStartTs := if remaining > 0 then now else profitUnlockStartTs))
    }

    function UnlockWindow(now: I64): (r: U32) {
      Min(Max(SaturatingSubI64(now, lastUpdateTs), 0), controls.maxUnlockDurationSecs)
    }

    function ApplyReportedNav(netTotalAssets: U64, now: I64): Result<VaultState> {
      var priorEffective :- EffectiveTotalAssets(now);
      if netTotalAssets > priorEffective then
        var window := UnlockWindow(now);
        var end :- CheckedI64(now + window);
        Ok(this.(totalAssets := netTotalAssets,
                 lockedProfit := if window == 0 then 0 else netTotalAssets - priorEffective,
                 profitUnlockStartTs := now,
                 profitUnlockEndTs := end))
      else
        Ok(this.(totalAssets := netTotalAssets,
                 lockedProfit := 0,
                 profitUnlockStartTs := now,
                 profitUnlockEndTs := now))
    }

    /** Atomic exits must not price on a report older than the configured age. */
    function VerifyReportFresh(now: I64): Result<Unit> {
      if reportEpoch == 0 || controls.maxReportAgeSecs == 0 then Ok(Unit)
      else Need(SaturatingSubI64(now, lastUpdateTs) <= controls.maxReportAgeSecs, StaleNavReport)
    }

    function VerifyReportInterval(now: I64): Result<Unit> {
      if reportEpoch == 0 || controls.minReportIntervalSecs == 0 then Ok(Unit)
      else Need(SaturatingSubI64(now, lastUpdateTs) >= controls.minReportIntervalSecs, ReportTooFrequent)
    }

    function VerifyNavGainBound(netTotalAssets: U64, economicShareSupply: U64): Result<Unit> {
      if controls.maxNavGainBps == 0 || economicShareSupply == 0 then Ok(Unit)
      else Need(netTotalAssets * 10_000 <= totalAssets * (10_000 + controls.maxNavGainBps), NavGainExceedsBound)
    }
  }

  /** Paying out at most effective NAV is never refused, whatever is queued. */
  lemma EntitledDebit(v: VaultState, queued: U64, amount: U64, now: I64)
    requires v.EffectiveTotalAssets(now).Ok? && amount <= v.EffectiveTotalAssets(now).value
    ensures v.(requestedWithdrawalShares := queued).DebitAssetsAtEffective(amount, now).Ok?
  {
  }

  lemma LineFits(locked: U64, left: int, window: I64)
    requires 0 < left <= window
    ensures 0 <= locked * left <= U128_MAX && locked * left / window <= locked
  {
    MulLe(0, locked, left);
    MulLe(left, window, locked);
    MulLe(locked, U64_MAX, left);
    assert locked * left < (locked + 1) * window;
    FloorBelow(locked * left, window, locked + 1);
  }

  /** A vault account deserialised for one instruction: its methods update the fields in place,
      and the caller stores them back only if every one of them succeeded. */
  class Vault {
    var totalAssets: U64
    var pendingWithdrawalAssets: U64
    var feesPayable: U64
    var highWatermark: U64
    var reportEpoch: U64
    var requestedWithdrawalShares: U64
    var lastUpdateTs: I64
    var lockedProfit: U64
    var profitUnlockStartTs: I64
    var profitUnlockEndTs: I64
    const config: VaultState

    function State(): VaultState
      reads this
    {
      config.(
      totalAssets := totalAssets,
      pendingWithdrawalAssets := pendingWithdrawalAssets,
      feesPayable := feesPayable,
      highWatermark := highWatermark,
      reportEpoch := reportEpoch,
      requestedWithdrawalShares := requestedWithdrawalShares,
      lastUpdateTs := lastUpdateTs,
      lockedProfit := lockedProfit,
      profitUnlockStartTs := profitUnlockStartTs,
      profitUnlockEndTs := profitUnlockEndTs)
    }

    constructor (account: VaultState)
      ensures State() == account
    {
      config := account;
      totalAssets := account.totalAssets;
      pendingWithdrawalAssets := account.pendingWithdrawalAssets;
      feesPayable := account.feesPayable;
      highWatermark := account.highWatermark;
      reportEpoch := account.reportEpoch;
      requestedWithdrawalShares := account.requestedWithdrawalShares;
      lastUpdateTs := account.lastUpdateTs;
      lockedProfit := account.lockedProfit;
      profitUnlockStartTs := account.profitUnlockStartTs;
      profitUnlockEndTs := account.profitUnlockEndTs;
    }

    /** Pay `amount`, priced at effective NAV, out of the vault, and restate the unlock line
        from `now` with what is still locked. */
    method DebitAssetsAtEffective(amount: U64, now: I64) returns (r: Result<Unit>)
      modifies this
      ensures match old(State()).DebitAssetsAtEffective(amount, now)
              case Ok(debited) => r == Ok(Unit) && State() == debited
              case Err(e) => r == Err(e) && State() == old(State())
    {
      var remaining :- State().RemainingLockedProfit(now);
      if remaining > totalAssets {
        return Err(InvalidVaultState);
      }
      var effective := totalAssets - remaining;
      if amount > effective {
        return Err(InvalidVaultState);
      }
      totalAssets := totalAssets - amount;
      lockedProfit := remaining;
      if remaining > 0 {
        profitUnlockStartTs := now;
      }
      return Ok(Unit);
    }

    /** Recognise a report's post-fee NAV: a gain re-locks over the span it was earned in, a
        loss lands at once. */
    method ApplyReportedNav(netTotalAssets: U64, now: I64) returns (r: Result<Unit>)
      modifies this
      ensures match old(State()).ApplyReportedNav(netTotalAssets, now)
              case Ok(recognised) => r == Ok(Unit) && State() == recognised
              case Err(e) => r == Err(e)
    {
      var priorEffective :- State().EffectiveTotalAssets(now);
      if netTotalAssets > priorEffective {
        var gain := netTotalAssets - priorEffective;
        var window := State().UnlockWindow(now);
        if window == 0 {
          lockedProfit := 0;
        } else {
          lockedProfit := gain;
        }
        profitUnlockStartTs := now;
        var end :- CheckedI64(now + window);
        profitUnlockEndTs := end;
      } else {
        lockedProfit := 0;
        profitUnlockStartTs := now;
        profitUnlockEndTs := now;
      }
      totalAssets := netTotalAssets;
      return Ok(Unit);
    }
  }
}

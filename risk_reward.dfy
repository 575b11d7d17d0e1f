/** The risk : reward calculator: how many times the distance to the stop
    the distance to the target is. */
module RiskRewardCalculator {
  import opened Wrappers

  /** `calculateRR`, before `toFixed(2)`. */
  function CalculateRR(entryPrice: Option<real>, stopLoss: Option<real>, takeProfit: Option<real>): (r: Option<real>)
    ensures r.None? <==>
      Falsy(entryPrice) || Falsy(stopLoss) || Falsy(takeProfit) || entryPrice.value == stopLoss.value
    ensures r.Some? ==>
      r.value >= 0.0
      && r.value * Abs(entryPrice.value - stopLoss.value) == Abs(takeProfit.value - entryPrice.value)
  {
    if Falsy(entryPrice) || Falsy(stopLoss) || Falsy(takeProfit) then None
    else
      var entry, sl, tp := entryPrice.value, stopLoss.value, takeProfit.value;
      var risk := Abs(entry - sl);
      var reward := Abs(tp - entry);
      if risk == 0.0 then None else Some(reward / risk)
  }

  /** A long trade and its mirror image about the entry (the short with the
      same distances) have the same ratio. */
  lemma MirroredTrade(entry: real, sl: real, tp: real)
    requires entry != 0.0 && sl != 0.0 && tp != 0.0
    requires 2.0 * entry - sl != 0.0 && 2.0 * entry - tp != 0.0
    ensures CalculateRR(Some(entry), Some(2.0 * entry - sl), Some(2.0 * entry - tp))
         == CalculateRR(Some(entry), Some(sl), Some(tp))
  {
    assert Abs(entry - (2.0 * entry - sl)) == Abs(entry - sl);
    assert Abs((2.0 * entry - tp) - entry) == Abs(tp - entry);
  }

  /** `toFixed(2)` read back with `parseFloat`: rounding half up to two
      decimals. */
  function Round2(x: real): real {
    (x * 100.0 + 0.5).Floor as real / 100.0
  }

  /** Rounding to two decimals reaches 2 from a ratio of 1.995 on. */
  lemma RoundedAtLeastTwo(ratio: real)
    ensures Round2(ratio) >= 2.0 <==> ratio >= 1.995
  {
    var f := (ratio * 100.0 + 0.5).Floor;
    assert f as real <= ratio * 100.0 + 0.5 < f as real + 1.0;
    if ratio >= 1.995 {
      assert ratio * 100.0 + 0.5 >= 200.0;
      assert f >= 200;
    } else {
      assert ratio * 100.0 + 0.5 < 200.0;
      assert f < 200;
    }
  }

  /** The "Good setup!" message, shown when the displayed ratio is at least
      2: because the rounded ratio is compared, it appears from a ratio of
      1.995 on, not from 2. */
  function GoodSetup(ratio: real): (good: bool)
    ensures good <==> ratio >= 1.995
  {
    RoundedAtLeastTwo(ratio);
    Round2(ratio) >= 2.0
  }
}

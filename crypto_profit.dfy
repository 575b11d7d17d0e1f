/** The crypto profit calculator: buy coins with an investment, sell them
    at another price, and pay an exchange fee on each side. */
module CryptoProfitCalculator {
  import opened Wrappers

  /** The four figures the calculator shows (before `toFixed(2)`). */
  datatype Profit = Profit(profit: real, roi: real, netReturn: real, totalFees: real)

  /** `calculateProfit`, as written: the whole investment buys coins and
      the buy fee is only added into the reported fees. `feePercent` is the
      parsed fee field. */
  function CalculateProfit(investment: Option<real>, buyPrice: Option<real>, sellPrice: Option<real>,
                           feePercent: real): (r: Option<Profit>)
    ensures r.None? <==> Falsy(investment) || Falsy(buyPrice) || Falsy(sellPrice)
    ensures r.Some? ==>
      var inv, buy, sell, fee := investment.value, buyPrice.value, sellPrice.value, feePercent / 100.0;
      var coins := inv / buy;
      && r.value.netReturn == coins * sell * (1.0 - fee)
      && r.value.profit == r.value.netReturn - inv
      && r.value.roi * inv == r.value.profit * 100.0
      && r.value.totalFees == inv * fee + coins * sell * fee
  {
    if Falsy(investment) || Falsy(buyPrice) || Falsy(sellPrice) then None
    else
      var inv, buy, sell, fee := investment.value, buyPrice.value, sellPrice.value, feePercent / 100.0;
      var coinsBought := inv / buy;
      var buyFee := inv * fee;
      var actualInvestment := inv - buyFee;
      var grossReturn := coinsBought * sell;
      var sellFee := grossReturn * fee;
      var netReturn := grossReturn - sellFee;
      var profit := netReturn - inv;
      var roi := (profit / inv) * 100.0;
      Some(Profit(profit, roi, netReturn, buyFee + sellFee))
  }

  /** As written, the profit is the price gain on the coins less the sell
      fee alone: the buy fee, though reported, is never paid. */
  lemma ProfitOmitsBuyFee(inv: real, buy: real, sell: real, feePercent: real)
    requires inv != 0.0 && buy != 0.0 && sell != 0.0
    ensures var r := CalculateProfit(Some(inv), Some(buy), Some(sell), feePercent).value;
      var fee, coins := feePercent / 100.0, inv / buy;
      r.profit == coins * (sell - buy) - coins * sell * fee
  {
    var coins := inv / buy;
    assert coins * buy == inv;
  }

  /** With no fee and an unchanged price the trade breaks even. */
  lemma NoFeeBreakEven(inv: real, price: real)
    requires inv != 0.0 && price != 0.0
    ensures CalculateProfit(Some(inv), Some(price), Some(price), 0.0) == Some(Profit(0.0, 0.0, inv, 0.0))
  {
    assert inv / price * price == inv;
  }

  /** A 1% fee on a trade of 100 at an unchanged price of 1: the reported
      fees are 2 but the reported loss is only 1. */
  lemma LossBelowFees()
    ensures CalculateProfit(Some(100.0), Some(1.0), Some(1.0), 1.0) == Some(Profit(-1.0, -1.0, 99.0, 2.0))
  {
  }

  /** The calculation with the buy fee taken off the investment before it
      is converted, which is what the unused `actualInvestment` is for. */
  function CalculateProfitCorrected(investment: Option<real>, buyPrice: Option<real>, sellPrice: Option<real>,
                                    feePercent: real): (r: Option<Profit>)
    ensures r.None? <==> Falsy(investment) || Falsy(buyPrice) || Falsy(sellPrice)
  {
    if Falsy(investment) || Falsy(buyPrice) || Falsy(sellPrice) then None
    else
      var inv, buy, sell, fee := investment.value, buyPrice.value, sellPrice.value, feePercent / 100.0;
      var buyFee := inv * fee;
      var actualInvestment := inv - buyFee;
      var coinsBought := actualInvestment / buy;
      var grossReturn := coinsBought * sell;
      var sellFee := grossReturn * fee;
      var netReturn := grossReturn - sellFee;
      var profit := netReturn - inv;
      var roi := (profit / inv) * 100.0;
      Some(Profit(profit, roi, netReturn, buyFee + sellFee))
  }

  /** Corrected, every unit of money is accounted for: the profit is the
      price gain on the coins actually bought less both fees, so at an
      unchanged price the loss is exactly the fees paid. */
  lemma CorrectedProfitAccountsForFees(inv: real, buy: real, sell: real, feePercent: real)
    requires inv != 0.0 && buy != 0.0 && sell != 0.0
    ensures var r := CalculateProfitCorrected(Some(inv), Some(buy), Some(sell), feePercent).value;
      var fee := feePercent / 100.0;
      var coins := (inv - inv * fee) / buy;
      && r.profit == coins * (sell - buy) - r.totalFees
      && (sell == buy ==> r.profit == -r.totalFees)
  {
    var fee := feePercent / 100.0;
    var coins := (inv - inv * fee) / buy;
    assert coins * buy == inv - inv * fee;
  }

  /** The corrected figures for the same 1% trade: a loss of 1.99, equal to
      the fees. */
  lemma CorrectedLossEqualsFees()
    ensures CalculateProfitCorrected(Some(100.0), Some(1.0), Some(1.0), 1.0) == Some(Profit(-1.99, -1.99, 98.01, 1.99))
  {
  }
}

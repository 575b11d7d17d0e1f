/** The position size calculator: how many units to buy so that a move from
    the entry to the stop loses exactly the chosen share of the account. */
module PositionSizeCalculator {
  import opened Wrappers

  datatype Position = Position(riskAmount: real, positionSize: real, totalValue: real, leverage: real)

  /** `calculatePosition`. */
  function CalculatePosition(accountSize: Option<real>, riskPercent: Option<real>, entryPrice: Option<real>,
                             stopLoss: Option<real>): (r: Option<Position>)
    ensures r.None? <==>
      Falsy(accountSize) || Falsy(riskPercent) || Falsy(entryPrice) || Falsy(stopLoss)
      || entryPrice.value == stopLoss.value
    ensures r.Some? ==>
      var acc, entry, sl := accountSize.value, entryPrice.value, stopLoss.value;
      && r.value.riskAmount == acc * riskPercent.value / 100.0
      && r.value.positionSize * Abs(entry - sl) == r.value.riskAmount
      && r.value.totalValue == r.value.positionSize * entry
      && r.value.leverage * acc == r.value.totalValue
  {
    if Falsy(accountSize) || Falsy(riskPercent) || Falsy(entryPrice) || Falsy(stopLoss) then None
    else
      var acc, risk, entry, sl := accountSize.value, riskPercent.value, entryPrice.value, stopLoss.value;
      var riskAmount := acc * (risk / 100.0);
      var priceDiff := Abs(entry - sl);
      if priceDiff == 0.0 then None
      else
        var positionSize := riskAmount / priceDiff;
        var totalValue := positionSize * entry;
        var leverage := totalValue / acc;
        Some(Position(riskAmount, positionSize, totalValue, leverage))
  }

  /** Positive inputs give positive figures. */
  lemma PositiveInputs(acc: real, risk: real, entry: real, sl: real)
    requires acc > 0.0 && risk > 0.0 && entry > 0.0 && sl > 0.0 && entry != sl
    ensures var r := CalculatePosition(Some(acc), Some(risk), Some(entry), Some(sl));
      r.Some? && r.value.riskAmount > 0.0 && r.value.positionSize > 0.0
      && r.value.totalValue > 0.0 && r.value.leverage > 0.0
  {
    var r := CalculatePosition(Some(acc), Some(risk), Some(entry), Some(sl));
    assert r.Some?;
    assert r.value.riskAmount > 0.0;
    assert r.value.positionSize > 0.0;
    assert r.value.totalValue > 0.0;
  }
}

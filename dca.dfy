/** The dollar-cost-averaging calculator: a fixed amount invested at the
    start of every period, each period growing the holdings by the yearly
    return divided by the periods in a year. */
module DcaCalculator {
  import opened Wrappers
  import opened Powers

  datatype DcaResult = DcaResult(totalInvested: real, futureValue: real, profit: real, roi: real)

  /** How often a year the amount is invested: 365 for "daily", 52 for
      "weekly", and 12 for anything else. */
  function PeriodsPerYear(frequency: string): (n: nat)
    ensures n == 12 || n == 52 || n == 365
  {
    if frequency == "daily" then 365 else if frequency == "weekly" then 52 else 12
  }

  /** The return per period, from the yearly return in percent. */
  function PeriodRate(expectedReturn: real, frequency: string): real {
    expectedReturn / 100.0 / PeriodsPerYear(frequency) as real
  }

  /** The value of the holdings: every payment made at the start of a
      period grows for the periods still to come, the last one included. */
  function Holdings(pmt: real, rate: real, n: nat): real {
    pmt * GrowthSum(1.0 + rate, n)
  }

  /** What the calculator reports for `n` payments of `pmt` at `rate` per
      period: the sum paid in, the holdings, their difference and that
      difference as a percentage of the sum paid in. A zero rate gains
      nothing; a positive rate on positive payments gains something. */
  predicate Describes(res: DcaResult, pmt: real, n: nat, rate: real) {
    && res.totalInvested == pmt * n as real
    && res.futureValue == Holdings(pmt, rate, n)
    && res.profit == res.futureValue - res.totalInvested
    && res.roi * res.totalInvested == res.profit * 100.0
    && (rate == 0.0 ==> res.futureValue == res.totalInvested && res.profit == 0.0 && res.roi == 0.0)
    && (rate > 0.0 && pmt > 0.0 ==> res.futureValue > res.totalInvested && res.profit > 0.0)
  }

  /** `calculateDCA`. The number of years is whole. */
  method CalculateDca(investment: Option<real>, years: Option<nat>, expectedReturn: Option<real>, frequency: string)
    returns (r: Option<DcaResult>)
    ensures r.None? <==> Falsy(investment) || years.None? || years.value == 0 || expectedReturn.None?
    ensures r.Some? ==>
      Describes(r.value, investment.value, years.value * PeriodsPerYear(frequency),
                PeriodRate(expectedReturn.value, frequency))
  {
    if Falsy(investment) || years.None? || years.value == 0 || expectedReturn.None? {
      return None;
    }
    var pmt, y, ret := investment.value, years.value, expectedReturn.value / 100.0;

    var nPerYear := 12;
    if frequency == "weekly" {
      nPerYear := 52;
    }
    if frequency == "daily" {
      nPerYear := 365;
    }
    assert nPerYear == PeriodsPerYear(frequency);

    var totalPeriods := y * nPerYear;
    var ratePerPeriod := ret / nPerYear as real;
    var totalInvested := pmt * totalPeriods as real;

    var futureValue := 0.0;
    if ratePerPeriod == 0.0 {
      futureValue := totalInvested;
      FlatHoldings(pmt, totalPeriods);
    } else {
      futureValue := AnnuityDue(pmt, ratePerPeriod, totalPeriods);
    }
    assert futureValue == Holdings(pmt, ratePerPeriod, totalPeriods);

    var profit := futureValue - totalInvested;
    var roi := (profit / totalInvested) * 100.0;
    r := Some(DcaResult(totalInvested, futureValue, profit, roi));
    assert Describes(r.value, pmt, totalPeriods, ratePerPeriod) by {
      Report(pmt, y, nPerYear, ratePerPeriod);
    }
  }

  /** The figures computed from the holdings describe them. */
  lemma Report(pmt: real, y: nat, perYear: nat, rate: real)
    requires pmt != 0.0 && y >= 1 && perYear >= 1
    ensures var n := y * perYear;
      var ti := pmt * n as real;
      var fv := Holdings(pmt, rate, n);
      Describes(DcaResult(ti, fv, fv - ti, ((fv - ti) / ti) * 100.0), pmt, n, rate)
  {
    var n := y * perYear;
    NonZeroProduct(pmt, y, perYear);
    var ti := pmt * n as real;
    var fv := Holdings(pmt, rate, n);
    Percent(fv - ti, ti);
    if rate == 0.0 {
      FlatHoldings(pmt, n);
    }
    if rate > 0.0 && pmt > 0.0 {
      HoldingsGrow(pmt, rate, n);
    }
  }

  lemma NonZeroProduct(pmt: real, y: nat, n: nat)
    requires pmt != 0.0 && y >= 1 && n >= 1
    ensures y * n >= 1 && pmt * (y * n) as real != 0.0
  {
    assert y * n >= y;
  }

  lemma Percent(a: real, b: real)
    requires b != 0.0
    ensures (a / b * 100.0) * b == a * 100.0
  {
  }

  /** The future value of an annuity due in closed form,
      `pmt * ((1 + rate)^n - 1) / rate * (1 + rate)`: it equals the
      period-by-period sum of the holdings. */
  function AnnuityDue(pmt: real, rate: real, n: nat): (fv: real)
    requires rate != 0.0
    ensures fv == Holdings(pmt, rate, n)
  {
    var x := 1.0 + rate;
    GeoSumClosed(x, n);
    GrowthSumShift(x, n);
    assert (Pow(x, n) - 1.0) / rate == GeoSum(x, n);
    pmt * ((Pow(x, n) - 1.0) / rate) * x
  }

  /** With no return every payment keeps its value. */
  lemma {:induction false} FlatHoldings(pmt: real, n: nat)
    ensures Holdings(pmt, 0.0, n) == pmt * n as real
  {
    FlatGrowth(n);
  }

  lemma {:induction false} FlatGrowth(n: nat)
    ensures GrowthSum(1.0, n) == n as real
  {
    if n > 0 {
      FlatGrowth(n - 1);
      OnePow(n);
    }
  }

  lemma {:induction false} OnePow(n: nat)
    ensures Pow(1.0, n) == 1.0
  {
    if n > 0 {
      OnePow(n - 1);
    }
  }

  /** A positive return makes positive payments worth more than their sum. */
  lemma HoldingsGrow(pmt: real, rate: real, n: nat)
    requires pmt > 0.0 && rate > 0.0 && n >= 1
    ensures Holdings(pmt, rate, n) > pmt * n as real
  {
    GrowthSumAbove(1.0 + rate, n);
  }
}

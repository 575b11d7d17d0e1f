/** The compound interest calculator: a starting amount plus a fixed
    monthly contribution, compounded monthly at a twelfth of the yearly
    rate, tabulated once a year. */
module CompoundingCalculator {
  import opened Wrappers

  /** One entry of the yearly series, before rounding. */
  datatype YearPoint = YearPoint(year: nat, balance: real, contributions: real, interest: real)

  /** `parseFloat(s) || 0`: a field that does not parse counts as zero. */
  function OrZero(x: Option<real>): real {
    if x.Some? then x.value else 0.0
  }

  /** `parseInt(s) || 0`. */
  function OrZeroInt(x: Option<int>): int {
    if x.Some? then x.value else 0
  }

  /** The balance after `m` months starting from `b`: each month the
      balance grows by `r / 12` and then `pmt` is added. */
  function Compound(b: real, pmt: real, r: real, m: nat): real {
    if m == 0 then b else Compound(b, pmt, r, m - 1) * (1.0 + r / 12.0) + pmt
  }

  /** The entry for year `i`: `12 * i` months compounded from `p`, against
      `p` plus every contribution so far. */
  function Point(p: real, pmt: real, r: real, i: nat): YearPoint {
    var b := Compound(p, pmt, r, 12 * i);
    var c := p + (12 * i) as real * pmt;
    YearPoint(i, b, c, b - c)
  }

  /** The series the calculator draws: nothing for `y <= 0`, and otherwise
      one entry for each year `0..y`. */
  predicate IsSeries(data: seq<YearPoint>, p: real, pmt: real, r: real, y: int) {
    if y <= 0 then data == []
    else |data| == y + 1 && forall i :: 0 <= i < |data| ==> data[i] == Point(p, pmt, r, i)
  }

  /** The `data` memo: nested loops, twelve monthly steps for every year
      after year 0. */
  method YearlySeries(initialAmount: Option<real>, monthlyContribution: Option<real>,
                      years: Option<int>, interestRate: Option<real>)
    returns (data: seq<YearPoint>)
    ensures IsSeries(data, OrZero(initialAmount), OrZero(monthlyContribution),
                     OrZero(interestRate) / 100.0, OrZeroInt(years))
  {
    var p := OrZero(initialAmount);
    var pmt := OrZero(monthlyContribution);
    var y := OrZeroInt(years);
    var r := OrZero(interestRate) / 100.0;
    if y <= 0 {
      return [];
    }
    var currentBalance := p;
    var totalContributions := p;
    data := [];
    var i := 0;
    while i <= y
      invariant 0 <= i <= y + 1
      invariant |data| == i
      invariant forall j :: 0 <= j < i ==> data[j] == Point(p, pmt, r, j)
      invariant i == 0 ==> currentBalance == p && totalContributions == p
      invariant i > 0 ==> currentBalance == Point(p, pmt, r, i - 1).balance
      invariant i > 0 ==> totalContributions == Point(p, pmt, r, i - 1).contributions
    {
      if i > 0 {
        currentBalance, totalContributions := CompoundYear(currentBalance, totalContributions, pmt, r);
        NextPoint(p, pmt, r, i - 1);
      }
      data := data + [YearPoint(i, currentBalance, totalContributions, currentBalance - totalContributions)];
      i := i + 1;
    }
  }

  /** The inner loop: twelve months of growth and contributions. */
  method CompoundYear(balance: real, contributions: real, pmt: real, r: real)
    returns (balance': real, contributions': real)
    ensures balance' == Compound(balance, pmt, r, 12)
    ensures contributions' == contributions + 12.0 * pmt
  {
    balance', contributions' := balance, contributions;
    var m := 0;
    while m < 12
      invariant 0 <= m <= 12
      invariant balance' == Compound(balance, pmt, r, m)
      invariant contributions' == contributions + m as real * pmt
    {
      balance' := balance' * (1.0 + r / 12.0) + pmt;
      contributions' := contributions' + pmt;
      m := m + 1;
    }
  }

  /** The entry of year `i + 1` follows from that of year `i` by twelve
      monthly steps. */
  lemma NextPoint(p: real, pmt: real, r: real, i: nat)
    ensures Point(p, pmt, r, i + 1).balance == Compound(Point(p, pmt, r, i).balance, pmt, r, 12)
    ensures Point(p, pmt, r, i + 1).contributions == Point(p, pmt, r, i).contributions + 12.0 * pmt
  {
    CompoundSplit(p, pmt, r, 12 * i, 12);
    assert 12 * (i + 1) == 12 * i + 12;
  }

  /** `data[data.length - 1]`, shown only when there is one. */
  function Summary(data: seq<YearPoint>): (r: Option<YearPoint>)
    ensures r.None? <==> data == []
    ensures r.Some? ==> r.value in data
  {
    if data == [] then None else Some(data[|data| - 1])
  }

  /** The summary is the entry of the last year, and there is none when the
      number of years is not positive. */
  lemma FinalSummary(data: seq<YearPoint>, p: real, pmt: real, r: real, y: int)
    requires IsSeries(data, p, pmt, r, y)
    ensures Summary(data).None? <==> y <= 0
    ensures y > 0 ==> Summary(data) == Some(Point(p, pmt, r, y))
  {
  }

  /** Year 0 shows the starting amount as both balance and contributions. */
  lemma YearZero(data: seq<YearPoint>, p: real, pmt: real, r: real, y: int)
    requires IsSeries(data, p, pmt, r, y) && y > 0
    ensures data[0] == YearPoint(0, p, p, 0.0)
  {
  }

  /** Compounding `k` months and then `m` more is compounding `k + m`. */
  lemma {:induction false} CompoundSplit(b: real, pmt: real, r: real, k: nat, m: nat)
    ensures Compound(Compound(b, pmt, r, k), pmt, r, m) == Compound(b, pmt, r, k + m)
  {
    if m > 0 {
      CompoundSplit(b, pmt, r, k, m - 1);
    }
  }

  /** Each year's balance is the previous year's after exactly twelve monthly
      steps. */
  lemma YearStep(data: seq<YearPoint>, p: real, pmt: real, r: real, y: int, i: nat)
    requires IsSeries(data, p, pmt, r, y) && i < y
    ensures data[i + 1].balance == Compound(data[i].balance, pmt, r, 12)
    ensures data[i + 1].contributions == data[i].contributions + 12.0 * pmt
  {
    NextPoint(p, pmt, r, i);
  }

  /** Without interest the balance is the sum of the contributions. */
  lemma {:induction false} NoInterest(b: real, pmt: real, m: nat)
    ensures Compound(b, pmt, 0.0, m) == b + m as real * pmt
  {
    if m > 0 {
      NoInterest(b, pmt, m - 1);
    }
  }

  /** So at a zero rate every year shows no interest. */
  lemma ZeroRateSeries(data: seq<YearPoint>, p: real, pmt: real, y: int)
    requires IsSeries(data, p, pmt, 0.0, y)
    ensures forall i :: 0 <= i < |data| ==> data[i].balance == data[i].contributions && data[i].interest == 0.0
  {
    forall i | 0 <= i < |data|
      ensures data[i].balance == data[i].contributions && data[i].interest == 0.0
    {
      NoInterest(p, pmt, 12 * i);
    }
  }

  /** With nothing negative, compounding never loses money: the balance
      stays at or above the start plus the contributions, and above the
      start. */
  lemma {:induction false} CompoundGrows(b: real, pmt: real, r: real, m: nat)
    requires b >= 0.0 && pmt >= 0.0 && r >= 0.0
    ensures Compound(b, pmt, r, m) >= b + m as real * pmt
    ensures Compound(b, pmt, r, m) >= b
  {
    if m > 0 {
      CompoundGrows(b, pmt, r, m - 1);
      var c := Compound(b, pmt, r, m - 1);
      assert c * (1.0 + r / 12.0) >= c by {
        assert c * (r / 12.0) >= 0.0;
      }
    }
  }

  /** With nothing negative, every year shows a balance at least its
      contributions, and the balance never drops from one year to the
      next. */
  lemma NonNegativeSeries(data: seq<YearPoint>, p: real, pmt: real, r: real, y: int)
    requires IsSeries(data, p, pmt, r, y)
    requires p >= 0.0 && pmt >= 0.0 && r >= 0.0
    ensures forall i :: 0 <= i < |data| ==> data[i].balance >= data[i].contributions
    ensures forall i :: 0 <= i < |data| - 1 ==> data[i].balance <= data[i + 1].balance
  {
    forall i | 0 <= i < |data|
      ensures data[i].balance >= data[i].contributions
    {
      CompoundGrows(p, pmt, r, 12 * i);
    }
    forall i | 0 <= i < |data| - 1
      ensures data[i].balance <= data[i + 1].balance
    {
      CompoundGrows(p, pmt, r, 12 * i);
      YearStep(data, p, pmt, r, y, i);
      CompoundGrows(data[i].balance, pmt, r, 12);
    }
  }
}

/** The loan EMI calculator: the fixed monthly instalment that repays a
    principal at a monthly rate over a number of months. */
module EmiCalculator {
  import opened Wrappers
  import opened Powers

  /** `NoEmi` is the `null` of the guard; `NotFinite` is the division by
      zero that JavaScript turns into Infinity or NaN, which happens only
      when `(1 + r)^n == 1` for a non-zero `r` (a rate of -2400% and an even
      tenure). */
  datatype EmiOutcome =
    | NoEmi
    | NotFinite
    | Emi(emi: real, totalAmount: real, totalInterest: real)

  /** The yearly percentage rate as a monthly fraction. */
  function MonthlyRate(rate: real): real {
    rate / 12.0 / 100.0
  }

  /** `calculateEMI`. The tenure is a whole number of months. */
  function CalculateEmi(amount: Option<real>, rate: Option<real>, tenure: Option<nat>): (o: EmiOutcome)
    ensures o == NoEmi <==> Falsy(amount) || Falsy(rate) || tenure.None? || tenure.value == 0
    ensures o == NotFinite <==>
      !Falsy(amount) && !Falsy(rate) && tenure.Some? && tenure.value != 0
      && Pow(1.0 + MonthlyRate(rate.value), tenure.value) == 1.0
    ensures o.Emi? ==>
      var p, r, n := amount.value, MonthlyRate(rate.value), tenure.value;
      var x := Pow(1.0 + r, n);
      && o.emi * (x - 1.0) == p * r * x
      && o.totalAmount == o.emi * n as real
      && o.totalInterest == o.totalAmount - p
  {
    if Falsy(amount) || Falsy(rate) || tenure.None? || tenure.value == 0 then NoEmi
    else
      var p, r, n := amount.value, MonthlyRate(rate.value), tenure.value;
      var x := Pow(1.0 + r, n);
      if x - 1.0 == 0.0 then NotFinite
      else
        var emi := p * r * (x / (x - 1.0));
        var totalAmount := emi * n as real;
        Emi(emi, totalAmount, totalAmount - p)
  }

  /** What is still owed after `k` monthly payments of `e`: each month the
      balance accrues interest at `r`, then one payment is made. */
  function Owed(p: real, r: real, e: real, k: nat): real {
    if k == 0 then p else Owed(p, r, e, k - 1) * (1.0 + r) - e
  }

  lemma {:induction false} OwedClosed(p: real, r: real, e: real, k: nat)
    ensures Owed(p, r, e, k) == p * Pow(1.0 + r, k) - e * GeoSum(1.0 + r, k)
  {
    if k > 0 {
      OwedClosed(p, r, e, k - 1);
      OwedStep(p, r, e, k);
    }
  }

  /** One month of the closed form, given the month before. */
  lemma OwedStep(p: real, r: real, e: real, k: nat)
    requires k > 0
    requires Owed(p, r, e, k - 1) == p * Pow(1.0 + r, k - 1) - e * GeoSum(1.0 + r, k - 1)
    ensures Owed(p, r, e, k) == p * Pow(1.0 + r, k) - e * GeoSum(1.0 + r, k)
  {
    GeoSumFront(1.0 + r, k);
    StepArithmetic(Owed(p, r, e, k - 1), Pow(1.0 + r, k - 1), GeoSum(1.0 + r, k - 1), p, 1.0 + r, e,
                   Owed(p, r, e, k), Pow(1.0 + r, k), GeoSum(1.0 + r, k));
  }

  /** The arithmetic of one month: balance `o`, power `q` and sum `g` before,
      `o'`, `q'` and `g'` after, for the factor `x` and the payment `e`. */
  lemma StepArithmetic(o: real, q: real, g: real, p: real, x: real, e: real, o': real, q': real, g': real)
    requires o == p * q - e * g
    requires o' == o * x - e
    requires q' == x * q
    requires g' == 1.0 + x * g
    ensures o' == p * q' - e * g'
  {
    calc {
      o';
      (p * q - e * g) * x - e;
      p * (x * q) - e * (1.0 + x * g);
    }
  }

  /** The instalment is exactly the one that repays the loan: after `n`
      payments of `emi` nothing is owed. */
  lemma EmiRepaysLoan(amount: real, rate: real, n: nat)
    requires CalculateEmi(Some(amount), Some(rate), Some(n)).Emi?
    ensures Owed(amount, MonthlyRate(rate), CalculateEmi(Some(amount), Some(rate), Some(n)).emi, n) == 0.0
  {
    RepaidAt(amount, MonthlyRate(rate), CalculateEmi(Some(amount), Some(rate), Some(n)).emi, n);
  }

  /** `EmiRepaysLoan` for a non-zero monthly rate `r` and an instalment `e`
      satisfying the instalment equation. */
  lemma RepaidAt(p: real, r: real, e: real, n: nat)
    requires r != 0.0
    requires e * (Pow(1.0 + r, n) - 1.0) == p * r * Pow(1.0 + r, n)
    ensures Owed(p, r, e, n) == 0.0
  {
    var x := Pow(1.0 + r, n);
    var g := GeoSum(1.0 + r, n);
    assert g * r == x - 1.0 by { GeoSumRate(r, n); }
    Repaid(p, r, e, x, g);
    OwedZero(p, r, e, n);
  }

  /** Nothing is owed once the closed form reaches zero. */
  lemma OwedZero(p: real, r: real, e: real, n: nat)
    requires p * Pow(1.0 + r, n) - e * GeoSum(1.0 + r, n) == 0.0
    ensures Owed(p, r, e, n) == 0.0
  {
    OwedClosed(p, r, e, n);
  }

  /** The arithmetic behind `RepaidAt`: an instalment fixed by
      `e * (x - 1) = p * r * x` with `g * r = x - 1` leaves `p * x - e * g`
      at zero. */
  lemma Repaid(p: real, r: real, e: real, x: real, g: real)
    requires r != 0.0 && e * (x - 1.0) == p * r * x && g * r == x - 1.0
    ensures p * x - e * g == 0.0
  {
    calc {
      (p * x - e * g) * r;
      p * r * x - e * (g * r);
      p * r * x - e * (x - 1.0);
      0.0;
    }
  }

  /** A one-month loan is repaid with one payment of principal plus one
      month's interest. */
  lemma OneMonthTenure(amount: real, rate: real)
    requires amount != 0.0 && rate != 0.0
    ensures var r := MonthlyRate(rate);
      CalculateEmi(Some(amount), Some(rate), Some(1)) == Emi(amount * (1.0 + r), amount * (1.0 + r), amount * r)
  {
    var r := MonthlyRate(rate);
    assert Pow(1.0 + r, 1) == 1.0 + r;
    var o := CalculateEmi(Some(amount), Some(rate), Some(1));
    assert o.Emi?;
    assert o.emi * r == amount * r * (1.0 + r);
  }

  /** For a positive principal and rate, each instalment is more than a
      month's interest on the principal, and the interest paid over the
      loan is not negative. */
  lemma EmiCoversInterest(amount: real, rate: real, n: nat)
    requires amount > 0.0 && rate > 0.0 && n >= 1
    ensures var o := CalculateEmi(Some(amount), Some(rate), Some(n));
      o.Emi? && o.emi > amount * MonthlyRate(rate) && o.totalInterest >= 0.0
  {
    var r := MonthlyRate(rate);
    assert r > 0.0;
    PowAtLeastOne(1.0 + r, n);
    CoversAt(CalculateEmi(Some(amount), Some(rate), Some(n)), amount, r, n);
  }

  /** `EmiCoversInterest` for a positive monthly rate `r` and an outcome
      satisfying the instalment equation. */
  lemma CoversAt(o: EmiOutcome, amount: real, r: real, n: nat)
    requires amount > 0.0 && r > 0.0 && n >= 1 && o.Emi?
    requires o.emi * (Pow(1.0 + r, n) - 1.0) == amount * r * Pow(1.0 + r, n)
    requires o.totalAmount == o.emi * n as real && o.totalInterest == o.totalAmount - amount
    ensures o.emi > amount * r && o.totalInterest >= 0.0
  {
    var x := Pow(1.0 + r, n);
    var g := GeoSum(1.0 + r, n);
    assert x > 1.0 by { PowAtLeastOne(1.0 + r, n); }
    assert g * r == x - 1.0 by { GeoSumRate(r, n); }
    assert g <= n as real * x by { GeoSumBelow(1.0 + r, n); }
    InstalmentBounds(o.emi, amount, r, x, g, n as real);
  }

  /** The arithmetic behind `CoversAt`, on the instalment `e`, the
      growth factor `x = (1 + r)^n`, the geometric sum `g` and the tenure
      `m`. */
  lemma InstalmentBounds(e: real, amount: real, r: real, x: real, g: real, m: real)
    requires amount > 0.0 && r > 0.0 && x > 1.0 && m >= 1.0
    requires e * (x - 1.0) == amount * r * x
    requires g * r == x - 1.0 && g <= m * x
    ensures e > amount * r && e * m >= amount
  {
    var pr := amount * r;
    assert e * (x - 1.0) > pr * (x - 1.0);
    Cancel(e, pr, x - 1.0);
    calc {
      e * m * (x - 1.0);
      pr * x * m;
    >= { assert pr > 0.0; assert x * m >= g; }
      pr * g;
      amount * (g * r);
      amount * (x - 1.0);
    }
    CancelAtLeast(e * m, amount, x - 1.0);
  }

  lemma Cancel(a: real, b: real, c: real)
    requires c > 0.0 && a * c > b * c
    ensures a > b
  {
    assert (a - b) * c > 0.0;
  }

  lemma CancelAtLeast(a: real, b: real, c: real)
    requires c > 0.0 && a * c >= b * c
    ensures a >= b
  {
    assert (a - b) * c >= 0.0;
  }
}

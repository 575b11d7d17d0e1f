/** Whole powers of a real and the geometric sums the compounding formulas
    rest on. Exponents are natural numbers: a period count. */
module Powers {

  /** `Math.pow(x, n)` for a whole exponent. */
  function Pow(x: real, n: nat): real {
    if n == 0 then 1.0 else x * Pow(x, n - 1)
  }

  /** `1 + x + … + x^(n-1)`. */
  function GeoSum(x: real, n: nat): real {
    if n == 0 then 0.0 else GeoSum(x, n - 1) + Pow(x, n - 1)
  }

  /** `x + x^2 + … + x^n`: what one unit paid at the start of each of `n`
      periods grows to when each period multiplies by `x`. */
  function GrowthSum(x: real, n: nat): real {
    if n == 0 then 0.0 else GrowthSum(x, n - 1) + Pow(x, n)
  }

  /** The closed form of the geometric sum: `(x - 1) * GeoSum = x^n - 1`. */
  lemma {:induction false} GeoSumClosed(x: real, n: nat)
    ensures GeoSum(x, n) * (x - 1.0) == Pow(x, n) - 1.0
  {
    if n > 0 {
      GeoSumClosed(x, n - 1);
      ClosedStep(GeoSum(x, n - 1), Pow(x, n - 1), x, GeoSum(x, n), Pow(x, n));
    }
  }

  /** One term of `GeoSumClosed`: the sum `g` and power `q` before, `g'` and
      `q'` after. */
  lemma ClosedStep(g: real, q: real, x: real, g': real, q': real)
    requires g * (x - 1.0) == q - 1.0
    requires g' == g + q && q' == x * q
    ensures g' * (x - 1.0) == q' - 1.0
  {
    calc {
      g' * (x - 1.0);
      g * (x - 1.0) + q * (x - 1.0);
      q - 1.0 + q * x - q;
    }
  }

  /** The closed form for a growth factor written `1 + r`:
      `r * GeoSum = (1 + r)^n - 1`. */
  lemma GeoSumRate(r: real, n: nat)
    ensures GeoSum(1.0 + r, n) * r == Pow(1.0 + r, n) - 1.0
  {
    var g := GeoSum(1.0 + r, n);
    GeoSumClosed(1.0 + r, n);
    assert g * ((1.0 + r) - 1.0) == g * r;
  }

  /** Peeling the first term instead of the last: `GeoSum(x, n) = 1 + x *
      GeoSum(x, n - 1)`. */
  lemma {:induction false} GeoSumFront(x: real, n: nat)
    requires n >= 1
    ensures GeoSum(x, n) == 1.0 + x * GeoSum(x, n - 1)
  {
    if n > 1 {
      GeoSumFront(x, n - 1);
      calc {
        GeoSum(x, n);
        GeoSum(x, n - 1) + Pow(x, n - 1);
        1.0 + x * GeoSum(x, n - 2) + x * Pow(x, n - 2);
        1.0 + x * (GeoSum(x, n - 2) + Pow(x, n - 2));
        1.0 + x * GeoSum(x, n - 1);
      }
    }
  }

  /** `x + … + x^n = x * (1 + … + x^(n-1))`. */
  lemma {:induction false} GrowthSumShift(x: real, n: nat)
    ensures GrowthSum(x, n) == x * GeoSum(x, n)
  {
    if n > 0 {
      GrowthSumShift(x, n - 1);
      calc {
        GrowthSum(x, n);
        GrowthSum(x, n - 1) + Pow(x, n);
        x * GeoSum(x, n - 1) + x * Pow(x, n - 1);
        x * GeoSum(x, n);
      }
    }
  }

  lemma {:induction false} PowAtLeastOne(x: real, n: nat)
    requires x >= 1.0
    ensures Pow(x, n) >= 1.0
    ensures n >= 1 && x > 1.0 ==> Pow(x, n) > 1.0
    ensures n >= 1 ==> Pow(x, n) >= Pow(x, n - 1)
  {
    if n > 0 {
      PowAtLeastOne(x, n - 1);
      var q := Pow(x, n - 1);
      assert Pow(x, n) == x * q;
      assert x * q >= q by {
        assert (x - 1.0) * q >= 0.0;
      }
      if x > 1.0 {
        assert (x - 1.0) * q > 0.0;
      }
    }
  }

  lemma {:induction false} PowPositive(x: real, n: nat)
    requires x > 0.0
    ensures Pow(x, n) > 0.0
  {
    if n > 0 {
      PowPositive(x, n - 1);
    }
  }

  /** For a growth factor above 1, each of the `n` terms exceeds 1. */
  lemma {:induction false} GrowthSumAbove(x: real, n: nat)
    requires x > 1.0 && n >= 1
    ensures GrowthSum(x, n) > n as real
  {
    PowAtLeastOne(x, n);
    if n > 1 {
      GrowthSumAbove(x, n - 1);
    }
  }

  /** For a factor of at least 1, no term of `1 + … + x^(n-1)` exceeds
      `x^n`. */
  lemma {:induction false} GeoSumBelow(x: real, n: nat)
    requires x >= 1.0
    ensures GeoSum(x, n) <= n as real * Pow(x, n)
  {
    if n > 0 {
      GeoSumBelow(x, n - 1);
      PowAtLeastOne(x, n);
      PowAtLeastOne(x, n - 1);
      var q := Pow(x, n - 1);
      var p := Pow(x, n);
      assert GeoSum(x, n) <= (n - 1) as real * q + q;
      assert (n - 1) as real * q <= (n - 1) as real * p;
    }
  }
}

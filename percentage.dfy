/** The three percentage relations of the percentage calculator. A field is
    `None` while it is empty; any number typed in, 0 included, is `Some`.
    The fields are number inputs, so text that is not a number reads as an
    empty field. */
module PercentageCalculator {
  import opened Wrappers

  /** "What is X % of Y?" */
  function PercentOf(x: Option<real>, y: Option<real>): (r: Option<real>)
    ensures r.Some? <==> x.Some? && y.Some?
    ensures r.Some? ==> r.value * 100.0 == x.value * y.value
  {
    if x.Some? && y.Some? then Some((x.value / 100.0) * y.value) else None
  }

  /** "A is what % of B?", with "-" when B is 0. */
  function WhatPercent(a: Option<real>, b: Option<real>): (r: Option<real>)
    ensures r.Some? <==> a.Some? && b.Some? && b.value != 0.0
    ensures r.Some? ==> r.value * b.value == a.value * 100.0
  {
    if a.Some? && b.Some? && b.value != 0.0 then Some((a.value / b.value) * 100.0) else None
  }

  /** "Percentage change from A to B", with "-" when A is 0. */
  function PercentChange(a: Option<real>, b: Option<real>): (r: Option<real>)
    ensures r.Some? <==> a.Some? && b.Some? && a.value != 0.0
    ensures r.Some? ==> r.value * Abs(a.value) == (b.value - a.value) * 100.0
  {
    if a.Some? && b.Some? && a.value != 0.0 then Some(((b.value - a.value) / Abs(a.value)) * 100.0) else None
  }

  /** X % of Y is Y % of X. */
  lemma PercentOfSymmetric(x: real, y: real)
    ensures PercentOf(Some(x), Some(y)).value == PercentOf(Some(y), Some(x)).value
  {
    assert (x / 100.0) * y == (x * y) / 100.0;
    assert (y / 100.0) * x == (x * y) / 100.0;
  }

  /** The second relation undoes the first: A is P % of B, and P % of B is
      A again. */
  lemma WhatPercentInverts(a: real, b: real)
    requires b != 0.0
    ensures PercentOf(WhatPercent(Some(a), Some(b)), Some(b)).Some?
    ensures PercentOf(WhatPercent(Some(a), Some(b)), Some(b)).value == a
  {
    var p := WhatPercent(Some(a), Some(b)).value;
    assert WhatPercent(Some(a), Some(b)) == Some(p);
    assert p / 100.0 == a / b;
    assert (a / b) * b == a;
  }

  /** The change is positive exactly when B is above A and zero exactly
      when they are equal, whatever the sign of A. */
  lemma PercentChangeSign(a: real, b: real)
    requires a != 0.0
    ensures PercentChange(Some(a), Some(b)).value > 0.0 <==> b > a
    ensures PercentChange(Some(a), Some(b)).value == 0.0 <==> b == a
  {
    var c := PercentChange(Some(a), Some(b)).value;
    assert c * Abs(a) == (b - a) * 100.0;
    assert Abs(a) > 0.0;
    if c > 0.0 { assert c * Abs(a) > 0.0; }
    if b > a { assert c * Abs(a) > 0.0; }
  }
}

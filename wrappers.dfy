/** Optional values (a form field that is empty or does not parse is
    `None`) and the JavaScript number helpers the calculators share. */
module Wrappers {

  datatype Option<+T> = None | Some(value: T)

  /** The JavaScript truthiness test `!x` on a parsed number: true when the
      field did not parse (NaN) or parsed to zero. */
  predicate Falsy(x: Option<real>) {
    x.None? || x.value == 0.0
  }

  /** `Math.abs`. */
  function Abs(x: real): real {
    if x < 0.0 then -x else x
  }
}

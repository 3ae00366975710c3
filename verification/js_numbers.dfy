/** Just enough of JavaScript's number semantics to state what the
    source's uninitialised accumulators do: a `var` declared without an
    initialiser holds `undefined`, which `+` and `-` turn into `NaN`, and
    `NaN` absorbs every later arithmetic operation. */
module JsNumbers {

  datatype JsNumber = Undefined | NaN | Finite(v: real)

  /** `a + b` on numbers (`undefined` converts to `NaN`). */
  function Add(a: JsNumber, b: JsNumber): (r: JsNumber)
    ensures r.Finite? <==> a.Finite? && b.Finite?
    ensures r.Finite? ==> r.v == a.v + b.v
    ensures !r.Finite? ==> r == NaN
  {
    if a.Finite? && b.Finite? then Finite(a.v + b.v) else NaN
  }

  /** `a - b` on numbers. */
  function Sub(a: JsNumber, b: JsNumber): (r: JsNumber)
    ensures r.Finite? <==> a.Finite? && b.Finite?
    ensures r.Finite? ==> r.v == a.v - b.v
  {
    if a.Finite? && b.Finite? then Finite(a.v - b.v) else NaN
  }

  /** `a / b`, for a divisor that is a non-zero number or a dividend that
      is not a number (a finite number over zero, which yields an
      infinity, is not needed by the code modelled here). */
  function Div(a: JsNumber, b: JsNumber): (r: JsNumber)
    requires b.Finite?
    requires b.v != 0.0 || !a.Finite?
    ensures r.Finite? <==> a.Finite?
    ensures r.Finite? ==> r.v * b.v == a.v
  {
    if a.Finite? then Finite(a.v / b.v) else NaN
  }
}

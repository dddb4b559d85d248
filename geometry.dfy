/** Positions and the number values of JavaScript that the core depends on. */
module Geometry {

  /** A position `[x, y]`; coordinates are real numbers. */
  datatype Point = Point(x: real, y: real)

  /** A real number extended with `Number.NEGATIVE_INFINITY` and `Number.POSITIVE_INFINITY`. */
  datatype Ext = NegInf | Fin(r: real) | PosInf

  /** JavaScript's `a < b` on extended reals. */
  predicate ExtLess(a: Ext, b: Ext)
  {
    match (a, b)
    case (Fin(x), Fin(y)) => x < y
    case (NegInf, NegInf) => false
    case (NegInf, _) => true
    case (Fin(_), PosInf) => true
    case (_, _) => false
  }

  /** A non-negative JavaScript number that may also be `Infinity` or `NaN`. */
  datatype JsNum = Num(r: real) | Infinity | NaN

  /** JavaScript's `a / b` for `a, b >= 0`: `x / 0` is `Infinity` and `0 / 0` is `NaN`. */
  function JsDiv(a: real, b: real): (q: JsNum)
    requires a >= 0.0 && b >= 0.0
    ensures b > 0.0 ==> q == Num(a / b) && q.r >= 0.0
    ensures b == 0.0 ==> (q == NaN <==> a == 0.0)
  {
    if b > 0.0 then Num(a / b) else if a == 0.0 then NaN else Infinity
  }

  /** JavaScript's `a + b`: `NaN` absorbs everything, then `Infinity`. */
  function JsAdd(a: JsNum, b: JsNum): JsNum
  {
    match (a, b)
    case (NaN, _) => NaN
    case (_, NaN) => NaN
    case (Infinity, _) => Infinity
    case (_, Infinity) => Infinity
    case (Num(x), Num(y)) => Num(x + y)
  }

  /** JavaScript's `a < b`: every comparison with `NaN` is false. */
  predicate JsLess(a: JsNum, b: JsNum)
  {
    match (a, b)
    case (Num(x), Num(y)) => x < y
    case (Num(_), Infinity) => true
    case (_, _) => false
  }

  /** `Math.floor` as an integer. */
  function Floor(r: real): (f: int)
    ensures f as real <= r < f as real + 1.0
  {
    r.Floor
  }

  /** `Math.ceil` as an integer. */
  function Ceil(r: real): (c: int)
    ensures c as real - 1.0 < r <= c as real
  {
    -((-r).Floor)
  }

  /** `Math.sign` of a real number. */
  function Sign(r: real): (s: int)
    ensures s == -1 || s == 0 || s == 1
    ensures (s == 1 <==> r > 0.0) && (s == -1 <==> r < 0.0)
  {
    if r > 0.0 then 1 else if r < 0.0 then -1 else 0
  }

  function Abs(r: real): (a: real)
    ensures a >= 0.0 && (a == r || a == -r)
  {
    if r < 0.0 then -r else r
  }

  function MinReal(a: real, b: real): real
  {
    if a <= b then a else b
  }

  function MaxReal(a: real, b: real): real
  {
    if a >= b then a else b
  }
}

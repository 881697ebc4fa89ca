/** Type tests and emptiness checks over JavaScript values
    (src/assertions/index.ts). */
module Assertions {
  import opened Types
  import opened JsText

  /** `isString`: `typeof val === "string"`. */
  predicate IsString(v: JsValue) {
    v.Str?
  }

  /** `isNumber`: a value of type number that is not NaN (the infinities
      count). */
  predicate IsNumber(v: JsValue) {
    v.Number? && !v.n.NaN?
  }

  /** `Number.isInteger`: finite and without a fractional part. */
  predicate IsWholeNumber(n: Num) {
    n.Finite? && n.r.Floor as real == n.r
  }

  /** `isInteger`. */
  predicate IsInteger(v: JsValue) {
    IsNumber(v) && IsWholeNumber(v.n)
  }

  /** `isFloat`: a number that `Number.isInteger` rejects, so the
      infinities are floats. */
  predicate IsFloat(v: JsValue) {
    IsNumber(v) && !IsWholeNumber(v.n)
  }

  /** `isArray`. */
  predicate IsArray(v: JsValue) {
    v.Array?
  }

  /** `isEmptyArray`. */
  predicate IsEmptyArray(v: JsValue) {
    IsArray(v) && |v.items| == 0
  }

  /** `isObject`: not null, `typeof` "object", not an array (functions have
      `typeof` "function" and are excluded). */
  predicate IsObject(v: JsValue) {
    v.Object?
  }

  /** `isFunction`: `typeof val === "function"`. */
  predicate IsFunction(v: JsValue) {
    v.Function?
  }

  /** The length of `Object.keys(val)`: the number of own enumerable string
      keys; arrays and strings expose one per index, the other primitives and
      functions none. `Object.keys` throws on null and undefined. */
  function OwnKeyCount(v: JsValue): nat
    requires !v.Null? && !v.Undefined?
  {
    match v
    case Object(entries) => |entries|
    case Array(items) => |items|
    case Str(s) => |s|
    case Bool(_) => 0
    case Number(_) => 0
    case BigInt(_) => 0
    case Function => 0
  }

  /** `isEmptyObject`: no own enumerable string key. */
  predicate IsEmptyObject(v: JsValue)
    requires !v.Null? && !v.Undefined?
  {
    OwnKeyCount(v) == 0
  }

  /** `isEmpty`, branch by branch as the source tests them. */
  predicate IsEmpty(v: JsValue) {
    if v.Null? || v.Undefined? then true
    else if v.Str? && Trim(v.s) == "" then true
    else if IsArray(v) then IsEmptyArray(v)
    else if IsObject(v) then IsEmptyObject(v)
    else false
  }

  /** `isTruthy` (`!!val`): JavaScript's ToBoolean. */
  predicate IsTruthy(v: JsValue) {
    match v
    case Undefined => false
    case Null => false
    case Bool(b) => b
    case Number(n) => !n.NaN? && n != Finite(0.0)
    case BigInt(i) => i != 0
    case Str(s) => s != ""
    case _ => true
  }

  /** `not(fn)`: the predicate returning the negation of `fn`. */
  function Not(p: JsValue -> bool): (q: JsValue -> bool)
    ensures forall v :: q(v) == !p(v)
  {
    v => !p(v)
  }

  /** `isEmpty` holds exactly for null, undefined, blank strings, empty arrays
      and objects without own keys. */
  lemma IsEmptyExactly(v: JsValue)
    ensures IsEmpty(v) <==>
      v.Null? || v.Undefined? || (v.Str? && IsBlank(v.s))
      || (v.Array? && v.items == []) || (v.Object? && v.entries == [])
  {
  }

  /** `isEmpty` is false for every number (0 and NaN included), boolean,
      bigint and function. */
  lemma IsEmptyFalseForScalars(v: JsValue)
    requires v.Number? || v.Bool? || v.BigInt? || v.Function?
    ensures !IsEmpty(v)
  {
  }

  /** `isObject` holds for non-null, non-array objects only. */
  lemma IsObjectOnlyObjects(v: JsValue)
    ensures IsObject(v) ==> !v.Null? && !IsArray(v) && !v.Function? && !IsString(v) && !IsNumber(v)
  {
  }

  /** `isNumber` excludes NaN, and every number is exactly one of integer and
      float. */
  lemma NumberPartition(v: JsValue)
    ensures IsNumber(v) ==> v.n != NaN
    ensures IsNumber(v) <==> (IsInteger(v) != IsFloat(v))
    ensures IsInteger(v) ==> !IsFloat(v)
  {
  }

  /** The type tests `isString`, `isNumber`, `isArray`, `isObject` and
      `isFunction` never hold together, and only null, undefined, booleans,
      NaN and bigints escape all of them. */
  lemma TypeTestsExclusive(v: JsValue)
    ensures IsString(v) ==> !IsNumber(v) && !IsArray(v) && !IsObject(v) && !IsFunction(v)
    ensures IsNumber(v) ==> !IsArray(v) && !IsObject(v) && !IsFunction(v)
    ensures IsArray(v) ==> !IsObject(v) && !IsFunction(v)
    ensures IsObject(v) ==> !IsFunction(v)
    ensures !(IsString(v) || IsNumber(v) || IsArray(v) || IsObject(v) || IsFunction(v)) <==>
      v.Undefined? || v.Null? || v.Bool? || v == Number(NaN) || v.BigInt?
  {
  }

  /** `isEmptyArray` is false for every non-array. */
  lemma EmptyArrayNeedsArray(v: JsValue)
    ensures IsEmptyArray(v) ==> IsArray(v)
  {
  }

  /** Negating twice gives back the original predicate, pointwise. */
  lemma NotNot(p: JsValue -> bool, v: JsValue)
    ensures Not(Not(p))(v) == p(v)
  {
  }

  /** The falsy values are exactly 0, "", null, undefined, false, NaN and the
      bigint zero. */
  lemma TruthyExactly(v: JsValue)
    ensures !IsTruthy(v) <==>
      v == Number(Finite(0.0)) || v == Str("") || v.Null? || v.Undefined?
      || v == Bool(false) || v == Number(NaN) || v == BigInt(0)
  {
  }
}

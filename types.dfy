/** Value shapes shared by the whole library (src/types.ts and the JavaScript
    values the predicates in src/assertions/index.ts classify). */
module Types {

  /** The conventional optional value; `None` plays JavaScript's `undefined`
      where a helper may return "no element". */
  datatype Option<+T> = None | Some(value: T)

  /** A JavaScript number: NaN, one of the two infinities, or a finite value.
      Negative zero is not distinguished from zero (no predicate here tells
      them apart). */
  datatype Num = NaN | PosInf | NegInf | Finite(r: real)

  /** A JavaScript value, as far as the library looks at it. An object is its
      list of own enumerable string-keyed entries, in enumeration order;
      symbol keys and prototypes are not represented. */
  datatype JsValue =
    | Undefined
    | Null
    | Bool(b: bool)
    | Number(n: Num)
    | BigInt(big: int)
    | Str(s: string)
    | Array(items: seq<JsValue>)
    | Object(entries: seq<(string, JsValue)>)
    | Function

  /** `T | T[]`, possibly null or undefined: the argument shape `toArray`
      accepts. */
  datatype MaybeArray<T> = Nullish | Single(item: T) | Many(elements: seq<T>)
}

/** Range checks on numbers (src/number/index.ts), over integers. */
module Numbers {

  /** `inRange(val, min, max)`: both bounds inclusive. */
  predicate InRange(v: int, min: int, max: int) {
    v >= min && v <= max
  }

  function Min(a: int, b: int): int { if a <= b then a else b }

  function Max(a: int, b: int): int { if a >= b then a else b }

  /** `clamp(val, min, max)` = `Math.min(Math.max(val, min), max)`. */
  function Clamp(v: int, min: int, max: int): (r: int)
    ensures r <= max
    ensures min <= max ==> InRange(r, min, max)
    ensures InRange(v, min, max) ==> r == v
    ensures min > max ==> r == max
    ensures r == v || r == min || r == max
  {
    Min(Max(v, min), max)
  }

  /** With ordered bounds, clamping leaves a value alone exactly when it is
      in range. */
  lemma ClampFixesInRange(v: int, min: int, max: int)
    requires min <= max
    ensures Clamp(v, min, max) == v <==> InRange(v, min, max)
  {
  }

  /** Clamping twice is clamping once. */
  lemma ClampIdempotent(v: int, min: int, max: int)
    ensures Clamp(Clamp(v, min, max), min, max) == Clamp(v, min, max)
  {
  }

  /** Clamping is monotone in the value. */
  lemma ClampMonotone(v: int, w: int, min: int, max: int)
    requires v <= w
    ensures Clamp(v, min, max) <= Clamp(w, min, max)
  {
  }
}

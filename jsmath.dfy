/** The parts of JavaScript's `Math` object that the frame geometry uses,
    stated over exact reals: every IEEE-754 rounding step is left out. */
module JsMath {

  /** `Math.floor`: the greatest integer not above `x`. */
  function Floor(x: real): (n: int)
    ensures n as real <= x < n as real + 1.0
  {
    x.Floor
  }

  /** `Math.ceil`: the least integer not below `x`. */
  function Ceil(x: real): (n: int)
    ensures x <= n as real < x + 1.0
  {
    -((-x).Floor)
  }

  /** `Math.round`: the nearest integer, a half rounded up towards +infinity. */
  function Round(x: real): (n: int)
    ensures n as real - 0.5 <= x < n as real + 0.5
  {
    Floor(x + 0.5)
  }

  /** `Math.max` of two numbers. */
  function Max(a: real, b: real): (m: real)
    ensures a <= m && b <= m
    ensures m == a || m == b
  {
    if a < b then b else a
  }

  /** `Math.min` of two numbers. */
  function Min(a: real, b: real): (m: real)
    ensures m <= a && m <= b
    ensures m == a || m == b
  {
    if b < a then b else a
  }

  /** `Math.max` of two integers (as in `Math.max(1, Math.floor(x))`).
      Apart from `Max` because its result is an integer pixel count, which
      a maximum over reals would have to convert back. */
  function MaxInt(a: int, b: int): (m: int)
    ensures a <= m && b <= m
    ensures m == a || m == b
  {
    if a < b then b else a
  }

  /** The ceiling of a whole number is that number. */
  lemma CeilOfInt(k: int)
    ensures Ceil(k as real) == k
  {
  }

  /** An integer bound survives rounding: `Math.round(x)` is at most `k`
      whenever `x` is. */
  lemma RoundBelow(x: real, k: int)
    requires x <= k as real
    ensures Round(x) <= k
  {
  }
}

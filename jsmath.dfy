/**
  The few pieces of JavaScript arithmetic the ASCII converter relies on:
  numbers that may be NaN, `Math.round`, and the trip count of a counting loop.
  Numbers are exact reals here; IEEE-754 rounding is not modelled.
 */
module JsMath {

  datatype Option<T> = None | Some(value: T)

  /** A JavaScript number as the converter meets it: a finite value, or NaN,
      which any arithmetic on `undefined` produces and which then propagates. */
  datatype Number = NaN | Num(value: real)

  /** `Math.round`: the nearest integer, a half rounded toward +infinity. */
  function Round(x: real): (r: int)
    ensures r as real - 0.5 <= x < r as real + 0.5
  {
    (x + 0.5).Floor
  }

  /** The number of times `for (let k = 0; k < bound; k++)` runs its body. */
  function Iterations(bound: int): nat
  {
    if bound > 0 then bound else 0
  }

  /** `a + b` on numbers: NaN is absorbing. */
  function Add(a: Number, b: Number): Number
  {
    if a.Num? && b.Num? then Num(a.value + b.value) else NaN
  }

  /** `a / k` for a positive count `k`. */
  function Divide(a: Number, k: int): Number
    requires k > 0
  {
    if a.Num? then Num(a.value / k as real) else NaN
  }

  /** True when `x` lies exactly halfway between two integers. */
  predicate IsHalfway(x: real)
  {
    (x + 0.5).Floor as real == x + 0.5
  }

  /** `Math.round` is determined by its defining interval. */
  lemma RoundUnique(x: real, k: int)
    requires k as real - 0.5 <= x < k as real + 0.5
    ensures Round(x) == k
  {
  }

  /** `Math.round` is monotone. */
  lemma RoundMonotone(x: real, y: real)
    requires x <= y
    ensures Round(x) <= Round(y)
  {
  }

  /** Rounding a reflected value: `round(m - x)` is `m - round(x)`, except that at a
      halfway point both roundings go up and the sum exceeds `m` by one. */
  lemma RoundReflect(m: int, x: real)
    ensures !IsHalfway(x) ==> Round(x) + Round(m as real - x) == m
    ensures IsHalfway(x) ==> Round(x) + Round(m as real - x) == m + 1
  {
    var r := Round(x);
    if IsHalfway(x) {
      assert x == r as real - 0.5;
      RoundUnique(m as real - x, m - r + 1);
    } else {
      assert r as real - 0.5 < x;
      RoundUnique(m as real - x, m - r);
    }
  }
}

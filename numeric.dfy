/** Python's `math.ceil` on the exact reals the model uses for floats. */
module Numeric {

  /** The least integer not below `x`. */
  function Ceil(x: real): (r: int)
    ensures (r as real) - 1.0 < x <= r as real
  {
    if x.Floor as real == x then x.Floor else x.Floor + 1
  }

  lemma CeilOfInt(n: int)
    ensures Ceil(n as real) == n
  {
  }

  lemma CeilPositive(x: real)
    requires x > 0.0
    ensures Ceil(x) >= 1
  {
  }

  /** A count divided by a larger positive count is a fraction in [0, 1]. */
  lemma FractionInUnit(a: nat, b: nat)
    requires a <= b && b > 0
    ensures 0.0 <= (a as real) / (b as real) <= 1.0
  {
    assert (a as real) / (b as real) * (b as real) == a as real;
  }
}

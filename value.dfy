/** The `Value` helper module of minesweeper.rb: clamping an integer into a range. */
module Value {

  /** Value.adjust: `value` if it lies in [minValue, maxValue], otherwise the bound it passed. */
  function Adjust(value: int, minValue: int, maxValue: int): (r: int)
    ensures minValue <= maxValue ==> minValue <= r <= maxValue
    ensures minValue <= value <= maxValue ==> r == value
    ensures value < minValue ==> r == minValue
    ensures minValue <= maxValue < value ==> r == maxValue
  {
    if value < minValue then minValue
    else if value > maxValue then maxValue
    else value
  }

  function Distance(a: int, b: int): nat
  {
    if a <= b then b - a else a - b
  }

  /** Clamping picks the point of a non-empty range nearest to `value`. */
  lemma AdjustIsNearest(value: int, minValue: int, maxValue: int, x: int)
    requires minValue <= x <= maxValue
    ensures Distance(Adjust(value, minValue, maxValue), value) <= Distance(x, value)
  {
  }

  /** Clamping twice is clamping once. */
  lemma AdjustIdempotent(value: int, minValue: int, maxValue: int)
    requires minValue <= maxValue
    ensures Adjust(Adjust(value, minValue, maxValue), minValue, maxValue) == Adjust(value, minValue, maxValue)
  {
  }

  /** Array#max of two integers, as `[a, b].max` in the Board constructor. */
  function Max(a: int, b: int): (r: int)
    ensures r >= a && r >= b && (r == a || r == b)
  {
    if a >= b then a else b
  }
}

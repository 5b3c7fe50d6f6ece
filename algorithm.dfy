/** The ALGORITHM section of aids.hpp: `min` and `max`, here on integers. */
module Algorithm {

  /** `min(a, b)`: `a < b ? a : b`. */
  function Min(a: int, b: int): (r: int)
    ensures r <= a && r <= b
    ensures r == a || r == b
  {
    if a < b then a else b
  }

  /** `max(a, b)`: `a > b ? a : b`. */
  function Max(a: int, b: int): (r: int)
    ensures r >= a && r >= b
    ensures r == a || r == b
  {
    if a > b then a else b
  }
}

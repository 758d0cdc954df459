/** Vocabulary shared by the two relaxation solvers. */
module Common {

  /** Outcome of a solver call. `Success` and `InvalidData` are the two
      return codes of the solvers; `FuelExhausted` belongs to the model only:
      the solvers loop until their stopping test holds, and the model bounds
      that loop by a caller-supplied number of sweeps. */
  datatype Status = Success | InvalidData | FuelExhausted

  /** `fabs` over the reals. */
  function Abs(x: real): (r: real)
    ensures 0.0 <= r && (r == x || r == -x)
  {
    if x < 0.0 then -x else x
  }

  /** `std::max` over the reals. */
  function Max(a: real, b: real): (r: real)
    ensures a <= r && b <= r && (r == a || r == b)
  {
    if a < b then b else a
  }

  /** Row-major order on grid positions, the order in which both solvers'
      nested loops visit cells: (a, b) comes before (x0, x1). */
  predicate Before(a: int, b: int, x0: int, x1: int)
  {
    a < x0 || (a == x0 && b < x1)
  }
}

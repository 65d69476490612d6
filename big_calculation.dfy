/**
 * script/big_calculation.py: a Newton square root that starts from the
 * largest 256-bit value and gives up after 10000 rounds, and the integer
 * formula for the two roots `a` and `b` of the compensation quadratic.
 */
module BigCalculation {
  import opened Results
  import opened Words
  import opened Roots

  /** The exceptions the script can raise: the `assert`, the `raise`, and `//` by zero. */
  datatype CalcError = NegativeRadicand | NoConvergence | DivisionByZero

  const MAX_ROUNDS: nat := 10000

  /** The first guess, `(1 << 256) - 1`. */
  const INITIAL_GUESS: int := TWO_256 - 1

  /**
   * `sqrt(v)`: Newton steps from `INITIAL_GUESS` while the guess goes down,
   * returning `min(new_g, g)` at the first step that does not. Below 2^512
   * the first guess is at or above the root, so the result is the floor
   * square root, reached within 256 rounds (each round at least halves the
   * distance to the root); from 2^512 on the first step already goes up and
   * the first guess comes back unchanged. The round limit is never reached.
   */
  method Sqrt(v: int) returns (r: Result<int, CalcError>)
    ensures v < 0 ==> r == Failure(NegativeRadicand)
    ensures v == 0 ==> r == Success(0)
    ensures 0 < v < TWO_512 ==> r == Success(FloorSqrt(v))
    ensures v >= TWO_512 ==> r == Success(INITIAL_GUESS)
  {
    if v < 0 {
      return Failure(NegativeRadicand);
    }
    if v == 0 {
      return Success(0);
    }
    var g := INITIAL_GUESS;
    var i := 0;
    FloorSqrtWordBound(v);
    Pow2Word();
    var newG := NewtonStep(v, g);
    StepNotBelowRoot(v, g);
    while newG < g
      invariant g >= 1
      invariant newG == NewtonStep(v, g) && newG >= FloorSqrt(v)
      invariant v < TWO_512 ==> FloorSqrt(v) <= g && i <= 256 && g - FloorSqrt(v) < Pow2(256 - i)
      invariant v >= TWO_512 ==> g == INITIAL_GUESS
      decreases g
    {
      if v < TWO_512 {
        StepAboveRoot(v, g);
      }
      i := i + 1;
      if i > MAX_ROUNDS {
        return Failure(NoConvergence);
      }
      g := newG;
      newG := NewtonStep(v, g);
      StepNotBelowRoot(v, g);
    }
    if v < TWO_512 {
      StopMeansRoot(v, g);
    }
    return Success(Min(newG, g));
  }

  /** Floor division by a positive divisor keeps the order of the dividends. */
  lemma FloorDivMonotone(a: int, b: int, u: int)
    requires a <= b
    requires u != 0
    ensures u > 0 ==> FloorDiv(a, u) <= FloorDiv(b, u)
    ensures u < 0 ==> FloorDiv(a, u) >= FloorDiv(b, u)
  {
    var p, q := FloorDiv(a, u), FloorDiv(b, u);
    if u > 0 && p > q {
      MulMonotone(q + 1, p, u);
    }
    if u < 0 && p < q {
      MulMonotone(p + 1, q, -u);
    }
  }

  /**
   * The formula at the end of the script: `u`, then
   * `d = sqrt(2^192 * (S1 * u - R1 * (S0 - C)))`, then
   * `a = (L * 2^96 + d) // u` and `b = (L * 2^96 - d) // u`, in that order,
   * so a negative radicand fails before a zero `u` does. The result is
   * `(d, a, b)`; with `u > 0` the root `b` never exceeds `a`, and with
   * `u < 0` it never falls below it.
   */
  method QuadraticRoots(liquidity: int, sumUpToThisRange0: int, sumUpToThisRange1: int,
                        rangeVirtualReserves0: int, rangeVirtualReserves1: int,
                        compensationAmount0: int)
    returns (r: Result<(int, int, int), CalcError>)
    ensures
      var u := sumUpToThisRange0 + rangeVirtualReserves0 - compensationAmount0;
      var radicand := TWO_192 * (sumUpToThisRange1 * u - rangeVirtualReserves1 * (sumUpToThisRange0 - compensationAmount0));
      && (radicand < 0 ==> r == Failure(NegativeRadicand))
      && (radicand >= 0 && u == 0 ==> r == Failure(DivisionByZero))
      && (radicand >= 0 && u != 0 ==>
            && r.Success?
            && (radicand < TWO_512 ==> IsFloorSqrt(r.value.0, radicand))
            && (radicand >= TWO_512 ==> r.value.0 == INITIAL_GUESS)
            && r.value.1 == FloorDiv(liquidity * TWO_96 + r.value.0, u)
            && r.value.2 == FloorDiv(liquidity * TWO_96 - r.value.0, u)
            && (u > 0 ==> r.value.2 <= r.value.1)
            && (u < 0 ==> r.value.1 <= r.value.2))
  {
    var u := sumUpToThisRange0 + rangeVirtualReserves0 - compensationAmount0;
    var radicand := TWO_192 * (sumUpToThisRange1 * u - rangeVirtualReserves1 * (sumUpToThisRange0 - compensationAmount0));
    var root := Sqrt(radicand);
    if root.Failure? {
      return Failure(root.error);
    }
    var d := root.value;
    if u == 0 {
      return Failure(DivisionByZero);
    }
    var a := FloorDiv(liquidity * TWO_96 + d, u);
    var b := FloorDiv(liquidity * TWO_96 - d, u);
    FloorDivMonotone(liquidity * TWO_96 - d, liquidity * TWO_96 + d, u);
    return Success((d, a, b));
  }
}

/**
 * script/full_div_sqrt.py: `sqrt(y / x) * 2^96` in full precision, by
 * Newton's method on the ratio `y * 2^192 / x`, run until a guess repeats.
 */
module FullDivSqrt {
  import opened Results
  import opened Words
  import opened Roots

  datatype NewtonError = DivisionByZero | OutOfFuel | NegativeRatio

  /**
   * `g` is the floor of the square root of the ratio `num / den`:
   * `g^2 * den <= num < (g + 1)^2 * den`.
   */
  predicate IsRatioRoot(g: int, num: int, den: int)
  {
    0 <= g && g * g * den <= num < (g + 1) * (g + 1) * den
  }

  /** Comparing with a multiple of a positive `den` is comparing with the floor quotient. */
  lemma MultipleBelow(k: int, num: int, den: int)
    requires den > 0
    ensures k * den <= num <==> k <= FloorDiv(num, den)
  {
    var q := FloorDiv(num, den);
    if k <= q {
      MulMonotone(k, q, den);
    } else {
      MulMonotone(q + 1, k, den);
    }
  }

  /** The root of a ratio is the floor square root of its floor quotient. */
  lemma RatioRootIsFloorSqrt(g: int, num: int, den: int)
    requires den > 0
    ensures IsRatioRoot(g, num, den) <==> IsFloorSqrt(g, FloorDiv(num, den))
  {
    MultipleBelow(g * g, num, den);
    MultipleBelow((g + 1) * (g + 1), num, den);
  }

  /**
   * One step, `(g * g * x + num) // (2 * x * g)`, where the script's `num` is
   * `y * (2**96)**2`. For positive `x` and `g` it goes down exactly when
   * `g` is above the root of the ratio, `g^2 * x > num`.
   */
  function RatioStep(num: int, x: int, g: int): (r: int)
    requires x != 0 && g != 0
    ensures x > 0 && g > 0 ==> (r >= g <==> g * g * x <= num)
  {
    assert 2 * x * g != 0;
    var r := FloorDiv(g * g * x + num, 2 * x * g);
    if x > 0 && g > 0 then
      MultipleBelow(g, g * g * x + num, 2 * x * g);
      assert g * (2 * x * g) == 2 * (g * g * x);
      r
    else
      r
  }

  /**
   * The loop of `do_full_precision_newton` from guess `g`, allowed `fuel`
   * steps: the first guess that a step maps to itself, the ZeroDivisionError
   * of a zero guess, or OutOfFuel when the fuel runs out first.
   */
  function NewtonFrom(num: int, x: int, g: int, fuel: nat): (r: Result<int, NewtonError>)
    requires x != 0
    ensures r.Success? ==> r.value != 0 && RatioStep(num, x, r.value) == r.value
    decreases fuel
  {
    if fuel == 0 then Failure(OutOfFuel)
    else if g == 0 then Failure(DivisionByZero)
    else
      var next := RatioStep(num, x, g);
      if next == g then Success(g) else NewtonFrom(num, x, next, fuel - 1)
  }

  /**
   * The whole of `do_full_precision_newton(y, x)` within `fuel` steps: a
   * zero `x` fails, a ratio whose floor is 0 gives 0, and any other answer is
   * a fixed point of the step.
   */
  function FullPrecisionNewtonSpec(y: int, x: int, fuel: nat): (r: Result<int, NewtonError>)
    ensures x == 0 ==> r == Failure(DivisionByZero)
    ensures x != 0 && FloorDiv(y * TWO_192, x) == 0 ==> r == Success(0)
    ensures x != 0 && r.Success? ==> r.value == 0 || RatioStep(y * TWO_192, x, r.value) == r.value
  {
    if x == 0 then Failure(DivisionByZero)
    else if FloorDiv(y * TWO_192, x) == 0 then Success(0)
    else NewtonFrom(y * TWO_192, x, 1, fuel)
  }

  /** `do_full_precision_newton`, with the loop bounded by `fuel` steps. */
  method FullPrecisionNewton(y: int, x: int, fuel: nat) returns (r: Result<int, NewtonError>)
    ensures r == FullPrecisionNewtonSpec(y, x, fuel)
  {
    if x == 0 {
      return Failure(DivisionByZero);
    }
    if FloorDiv(y * TWO_192, x) == 0 {
      return Success(0);
    }
    var g := 1;
    var steps := 0;
    while steps < fuel
      invariant steps <= fuel
      invariant NewtonFrom(y * TWO_192, x, g, fuel - steps) == NewtonFrom(y * TWO_192, x, 1, fuel)
    {
      if g == 0 {
        return Failure(DivisionByZero);
      }
      var newG := RatioStep(y * TWO_192, x, g);
      if newG == g {
        return Success(newG);
      }
      g := newG;
      steps := steps + 1;
    }
    return Failure(OutOfFuel);
  }

  /** A guess that a step maps to itself is the root of the ratio. */
  lemma FixedPointIsRoot(num: int, x: int, g: int)
    requires x > 0 && g >= 1
    requires RatioStep(num, x, g) == g
    ensures IsRatioRoot(g, num, x)
  {
    assert g * (2 * x * g) == 2 * (g * g * x);
    assert (g + 1) * (g + 1) * x == g * g * x + 2 * x * g + x;
  }

  /** Any answer the loop gives from a positive guess, with `num >= x > 0`, is the root of the ratio. */
  lemma {:induction false} NewtonFromSound(num: int, x: int, g: int, fuel: nat, h: int)
    requires 0 < x <= num
    requires g >= 1
    requires NewtonFrom(num, x, g, fuel) == Success(h)
    ensures IsRatioRoot(h, num, x)
    decreases fuel
  {
    var next := RatioStep(num, x, g);
    if next == g {
      FixedPointIsRoot(num, x, g);
    } else {
      StepNotBelowRatioRoot(num, x, g, 1);
      NewtonFromSound(num, x, next, fuel - 1, h);
    }
  }

  /** Negating both the numerator and `x` changes no step of the loop. */
  lemma {:induction false} NewtonFromNegate(num: int, x: int, g: int, fuel: nat)
    requires x != 0
    ensures NewtonFrom(-num, -x, g, fuel) == NewtonFrom(num, x, g, fuel)
    decreases fuel
  {
    if fuel > 0 && g != 0 {
      assert g * g * -x + -num == -(g * g * x + num);
      assert 2 * -x * g == -(2 * x * g);
      FloorDivNegateBoth(g * g * x + num, 2 * x * g);
      NewtonFromNegate(num, x, RatioStep(num, x, g), fuel - 1);
    }
  }

  /**
   * Whenever `do_full_precision_newton` returns for a non-negative ratio
   * (`x` and `y` not of opposite signs, `x != 0`), it returns
   * `floor(sqrt(y * 2^192 / x))`, the promised `sqrt(y / x) * 2^96` rounded
   * down. A negative `x` runs the same steps as `-x` with `-y`.
   */
  lemma FullPrecisionNewtonSound(y: int, x: int, fuel: nat)
    requires (x > 0 && y >= 0) || (x < 0 && y <= 0)
    requires FullPrecisionNewtonSpec(y, x, fuel).Success?
    ensures FloorDiv(y * TWO_192, x) >= 0
    ensures FullPrecisionNewtonSpec(y, x, fuel).value == FloorSqrt(FloorDiv(y * TWO_192, x))
  {
    var num, den := y * TWO_192, x;
    if x < 0 {
      FloorDivNegateBoth(num, den);
      NewtonFromNegate(num, den, 1, fuel);
      num, den := -num, -den;
    }
    var g := FullPrecisionNewtonSpec(y, x, fuel).value;
    PositiveRatioSound(num, den, fuel, g);
  }

  /** The search from guess 1 on a non-negative numerator and a positive `den` ends at the floor root. */
  lemma PositiveRatioSound(num: int, den: int, fuel: nat, g: int)
    requires num >= 0 && den > 0
    requires FloorDiv(num, den) == 0 ==> g == 0
    requires FloorDiv(num, den) != 0 ==> NewtonFrom(num, den, 1, fuel) == Success(g)
    ensures g == FloorSqrt(FloorDiv(num, den))
  {
    if FloorDiv(num, den) != 0 {
      MultipleBelow(1, num, den);
      NewtonFromSound(num, den, 1, fuel, g);
    }
    RatioRootIsFloorSqrt(g, num, den);
    FloorSqrtUnique(g, FloorDiv(num, den));
  }

  /**
   * For `y = 3`, `x = 2^192` the guesses alternate 1, 2, 1, 2, ... and no
   * step maps a guess to itself, so the loop never returns, whatever the fuel.
   */
  lemma {:induction false} Oscillates(fuel: nat)
    ensures NewtonFrom(3 * TWO_192, TWO_192, 1, fuel) == Failure(OutOfFuel)
    ensures NewtonFrom(3 * TWO_192, TWO_192, 2, fuel) == Failure(OutOfFuel)
  {
    if fuel > 0 {
      assert RatioStep(3 * TWO_192, TWO_192, 1) == 2;
      assert RatioStep(3 * TWO_192, TWO_192, 2) == 1;
      Oscillates(fuel - 1);
    }
  }

  /** The as-written loop never answers `y = 3`, `x = 2^192`, whose answer is 1. */
  lemma NewtonOscillates(fuel: nat)
    ensures FullPrecisionNewtonSpec(3, TWO_192, fuel) == Failure(OutOfFuel)
    ensures FloorSqrt(FloorDiv(3 * TWO_192, TWO_192)) == 1
  {
    assert FloorDiv(3 * TWO_192, TWO_192) == 3;
    Oscillates(fuel);
    FloorSqrtUnique(1, 3);
  }

  lemma SquareOfDifference(g: int, s: int, x: int)
    ensures (g - s) * (g - s) * x == g * g * x - s * (2 * x * g) + s * s * x
  {
  }

  /**
   * From a positive guess, a step never falls below any `s` with
   * `s^2 * x <= num`, in particular not below the root of the ratio.
   */
  lemma StepNotBelowRatioRoot(num: int, x: int, g: int, s: int)
    requires x > 0 && g >= 1
    requires 0 <= s && s * s * x <= num
    ensures RatioStep(num, x, g) >= s
  {
    var b := 2 * x * g;
    var n := g * g * x + num;
    SquareOfDifference(g, s, x);
    MulMonotone(0, (g - s) * (g - s), x);
    assert s * b <= n;
    var r := FloorDiv(n, b);
    assert r * b <= n < r * b + b;
    if r < s {
      MulMonotone(r + 1, s, b);
      assert false;
    }
  }

  /** Above the root of the ratio, a step goes strictly down. */
  lemma StepBelowAboveRatioRoot(num: int, x: int, g: int, s: int)
    requires x > 0
    requires IsRatioRoot(s, num, x)
    requires g > s
    ensures RatioStep(num, x, g) < g
  {
    SquareMonotone(s + 1, g);
    MulMonotone((s + 1) * (s + 1), g * g, x);
    var b := 2 * x * g;
    assert g * b == 2 * (g * g * x);
    var r := RatioStep(num, x, g);
    if r >= g {
      MulMonotone(g, r, b);
    }
  }

  /** Negating both operands leaves a floor quotient unchanged. */
  lemma FloorDivNegateBoth(a: int, b: int)
    requires b != 0
    ensures FloorDiv(-a, -b) == FloorDiv(a, b)
  {
  }

  /** The floor root of a positive number lies between 1 and the number. */
  lemma RootWithinQuotient(q: int, s: int)
    requires q >= 1 && IsFloorSqrt(s, q)
    ensures 1 <= s <= q
  {
    MulMonotone(1, s, s);
  }

  /** Newton steps from a guess at or above the root `s` of the ratio, while they go down, end at `s`. */
  method DescendToRatioRoot(num: int, den: int, start: int, ghost s: int) returns (g: int)
    requires den > 0 && start >= 1
    requires IsRatioRoot(s, num, den) && 1 <= s <= start
    ensures g == s
  {
    g := start;
    var newG := RatioStep(num, den, g);
    StepNotBelowRatioRoot(num, den, g, s);
    while newG < g
      invariant g >= 1 && g >= s
      invariant newG == RatioStep(num, den, g) && newG >= s
      decreases g
    {
      g := newG;
      StepNotBelowRatioRoot(num, den, g, s);
      newG := RatioStep(num, den, g);
    }
    if g > s {
      StepBelowAboveRatioRoot(num, den, g, s);
    }
  }

  /**
   * The loop as evidently intended: start above the root, at the floor
   * quotient plus one, and stop at the first step that does not go down,
   * as the two other Newton loops of the repository do. It always ends,
   * with `floor(sqrt(y * 2^192 / x))`; a negative ratio has no square root.
   */
  method RatioSqrt(y: int, x: int) returns (r: Result<int, NewtonError>)
    ensures x == 0 ==> r == Failure(DivisionByZero)
    ensures x != 0 && FloorDiv(y * TWO_192, x) < 0 ==> r == Failure(NegativeRatio)
    ensures x != 0 && FloorDiv(y * TWO_192, x) >= 0 ==> r == Success(FloorSqrt(FloorDiv(y * TWO_192, x)))
  {
    if x == 0 {
      return Failure(DivisionByZero);
    }
    var q := FloorDiv(y * TWO_192, x);
    if q < 0 {
      return Failure(NegativeRatio);
    }
    var num, den := y * TWO_192, x;
    if den < 0 {
      FloorDivNegateBoth(num, den);
      num, den := -num, -den;
    }
    if q == 0 {
      return Success(0);
    }
    ghost var s := FloorSqrt(q);
    RatioRootIsFloorSqrt(s, num, den);
    RootWithinQuotient(q, s);
    var g := DescendToRatioRoot(num, den, q + 1, s);
    return Success(g);
  }
}

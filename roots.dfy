/**
 * Integer arithmetic shared by the square-root and division scripts:
 * Python's floor division, the floor square root that the Newton loops
 * compute, and the facts about one Newton step that make those loops correct.
 */
module Roots {
  import opened Words

  /**
   * Python's `a // b`: the quotient rounded toward negative infinity (Dafny's
   * own `/` is Euclidean, which differs when `b` is negative).
   */
  function FloorDiv(a: int, b: int): (r: int)
    requires b != 0
    ensures b > 0 ==> r * b <= a < r * b + b
    ensures b < 0 ==> r * b >= a > r * b + b
  {
    if b > 0 then a / b else (-a) / (-b)
  }

  /** `r` is the floor of the square root of `x`. */
  predicate IsFloorSqrt(r: int, x: int)
  {
    0 <= r && r * r <= x < (r + 1) * (r + 1)
  }

  lemma MulMonotone(a: int, b: int, c: int)
    requires a <= b
    requires 0 <= c
    ensures a * c <= b * c
  {
  }

  lemma SquareMonotone(a: int, b: int)
    requires 0 <= a <= b
    ensures a * a <= b * b
  {
    MulMonotone(a, b, a);
    MulMonotone(a, b, b);
  }

  /** The floor square root of a non-negative number, by counting up. */
  function FloorSqrt(x: nat): (r: nat)
    ensures IsFloorSqrt(r, x)
  {
    if x == 0 then 0
    else
      var p := FloorSqrt(x - 1);
      if (p + 1) * (p + 1) <= x then
        assert (p + 2) * (p + 2) == (p + 1) * (p + 1) + 2 * p + 3;
        p + 1
      else p
  }

  /** There is only one floor square root. */
  lemma FloorSqrtUnique(r: int, x: int)
    requires x >= 0
    requires IsFloorSqrt(r, x)
    ensures r == FloorSqrt(x)
  {
    var s := FloorSqrt(x);
    if r < s {
      SquareMonotone(r + 1, s);
    } else if s < r {
      SquareMonotone(s + 1, r);
    }
  }

  /** Below 2^512 the floor square root fits in one 256-bit word; from 2^512 on it does not. */
  lemma FloorSqrtWordBound(x: nat)
    ensures x < TWO_512 <==> FloorSqrt(x) < TWO_256
  {
    var s := FloorSqrt(x);
    if x < TWO_512 && s >= TWO_256 {
      SquareMonotone(TWO_256, s);
    }
    if x >= TWO_512 && s < TWO_256 {
      SquareMonotone(s + 1, TWO_256);
    }
  }

  /**
   * One Newton step `(g + x // g) // 2` towards the square root of `x`. From a
   * positive guess it goes down exactly when the guess squared exceeds `x`.
   */
  function NewtonStep(x: int, g: int): (r: int)
    requires g != 0
    ensures g > 0 ==> (r >= g <==> g * g <= x)
  {
    var q := FloorDiv(x, g);
    if g > 0 then
      QuotientReachesGuess(x, g, q);
      (g + q) / 2
    else
      (g + q) / 2
  }

  /** The floor quotient `q` of `x` by a positive `g` is at least `g` exactly when `g * g <= x`. */
  lemma QuotientReachesGuess(x: int, g: int, q: int)
    requires g > 0
    requires q * g <= x < q * g + g
    ensures q >= g <==> g * g <= x
  {
    if q >= g {
      MulMonotone(g, q, g);
    } else {
      MulMonotone(q + 1, g, g);
    }
  }

  /**
   * The integer form of the inequality of arithmetic and geometric means: a
   * guess `g` and the quotient `q` of `x` by it add up to at least twice any
   * `s` with `s * s <= x`.
   */
  lemma GuessPlusQuotient(x: int, g: int, q: int, s: int)
    requires g > 0
    requires s * s <= x < (q + 1) * g
    ensures g + q >= 2 * s
  {
    if g + q < 2 * s {
      MulMonotone(q + 1, 2 * s - g, g);
      assert false;
    }
  }

  /** From any positive guess, a Newton step never falls below the floor square root. */
  lemma StepNotBelowRoot(x: nat, g: int)
    requires g > 0
    ensures NewtonStep(x, g) >= FloorSqrt(x)
  {
    var q := x / g;
    assert x < q * g + g;
    assert (q + 1) * g == q * g + g;
    GuessPlusQuotient(x, g, q, FloorSqrt(x));
  }

  /** Above `s`, the quotient of a number below `(s + 1)^2` is at most `s`. */
  lemma QuotientAboveRoot(x: int, g: int, s: int)
    requires 0 <= s < g
    requires 0 <= x < (s + 1) * (s + 1)
    ensures x / g <= s
  {
    var q := x / g;
    assert q * g <= x;
    if q > s {
      MulMonotone(s + 1, q, g);
      MulMonotone(s + 1, g, s + 1);
      assert false;
    }
  }

  /**
   * Above the floor square root a Newton step goes strictly down and at least
   * halves the distance to the root.
   */
  lemma StepAboveRoot(x: nat, g: int)
    requires g > FloorSqrt(x)
    ensures NewtonStep(x, g) < g
    ensures NewtonStep(x, g) - FloorSqrt(x) <= (g - FloorSqrt(x)) / 2
  {
    QuotientAboveRoot(x, g, FloorSqrt(x));
  }

  /** At or above the root, a step that does not go down means the guess is the root. */
  lemma StopMeansRoot(x: nat, g: int)
    requires g >= FloorSqrt(x)
    requires g > 0
    requires NewtonStep(x, g) >= g
    ensures g == FloorSqrt(x)
  {
    if g > FloorSqrt(x) {
      StepAboveRoot(x, g);
    }
  }

  function Pow2(n: nat): (r: nat)
    ensures r > 0
  {
    if n == 0 then 1 else 2 * Pow2(n - 1)
  }

  lemma {:induction false} Pow2Add(a: nat, b: nat)
    ensures Pow2(a + b) == Pow2(a) * Pow2(b)
  {
    if a > 0 {
      Pow2Add(a - 1, b);
    }
  }

  lemma Pow2Word()
    ensures Pow2(256) == TWO_256
  {
    Pow2Byte();
    Pow2Add(8, 8);
    assert Pow2(16) == 0x10000;
    Pow2Add(16, 16);
    assert Pow2(32) == 0x1_0000_0000;
    Pow2Add(32, 32);
    assert Pow2(64) == 0x1_0000_0000_0000_0000;
    Pow2Add(64, 64);
    assert Pow2(128) == 0x1_0000_0000_0000_0000_0000_0000_0000_0000;
    Pow2Add(128, 128);
  }

  lemma Pow2Byte()
    ensures Pow2(8) == 256
  {
  }
}

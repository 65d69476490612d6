/**
 * script/math512.py: a helper that answers with one framed byte string, either
 * the ok byte followed by 32-byte words or the single failed byte. It offers
 * `div512by256` (a 512-bit number split into two 256-bit limbs, divided) and
 * `sqrt512` (the integer square root of such a number, by Newton's method).
 */
module Math512 {
  import opened Results
  import opened Words
  import opened Roots

  const RESULT_OK: byte := 0x00
  const RESULT_FAILED: byte := 0x01

  /** What `failed()` emits, and what any exception in `main` leads to. */
  const FAILED: seq<byte> := [RESULT_FAILED]

  /** The `failed()` frame is one byte long and never the start of an `okay` frame. */
  lemma FailedIsNotOkay(args: seq<int>)
    ensures |FAILED| == 1
    ensures Okay(args).Some? ==> Okay(args).value[0] != FAILED[0]
  {
  }

  /**
   * `okay(*args)`: the ok byte, then every argument as a 32-byte big-endian
   * word. None where `to_bytes(32, "big")` raises OverflowError.
   */
  function Okay(args: seq<int>): (r: Option<seq<byte>>)
    ensures r.Some? <==> AllFit(args)
    ensures r.Some? ==> |r.value| == 1 + 32 * |args| && r.value[0] == RESULT_OK
    ensures r.Some? ==> forall i :: 0 <= i < |args| ==> ReadWord(r.value, 1 + 32 * i) == args[i]
  {
    if AllFit(args) then
      var out := [RESULT_OK] + WordSeq(args);
      assert forall i :: 0 <= i < |args| ==> ReadWord(out, 1 + 32 * i) == args[i] by {
        forall i | 0 <= i < |args|
          ensures ReadWord(out, 1 + 32 * i) == args[i]
        {
          WordSeqWordAt(out, [RESULT_OK], args, i);
          ReadWordAt(out, 1 + 32 * i, args[i]);
        }
      }
      Some(out)
    else
      None
  }

  /**
   * `int_sqrt(x)`: Newton's method from `x` downwards while the guess keeps
   * falling, then a self-check of the last guess. None is the `failed()` exit
   * the self-check takes; for a negative `x` the loop stops after one round
   * and the self-check fails.
   */
  method IntSqrt(x: int) returns (r: Option<int>)
    ensures x >= 0 ==> r == Some(FloorSqrt(x))
    ensures x < 0 ==> r == None
  {
    if x == 0 {
      return Some(0);
    }
    var root := x;
    var last := root + 1;
    while root < last
      invariant (root == x && last == x + 1) || (last != 0 && root == NewtonStep(x, last))
      invariant x > 0 ==> FloorSqrt(x) <= root && FloorSqrt(x) <= last
      invariant x < 0 ==> (root == x && last == x + 1) || last == x
      decreases last - Min(x, 0)
    {
      last := root;
      root := NewtonStep(x, root);
      if x > 0 {
        StepNotBelowRoot(x, last);
      }
    }
    if x > 0 {
      StopMeansRoot(x, last);
    }
    if !(last * last <= x && x < (last + 1) * (last + 1)) {
      return None;
    }
    FloorSqrtUnique(last, x);
    return Some(last);
  }

  /**
   * The `div512by256` branch: `(x1 * 2^256 + x0) // d`, split by `divmod`
   * into a high and a low 256-bit limb. None is the ZeroDivisionError.
   */
  function Div512By256(x1: int, x0: int, d: int): (r: Option<(int, int)>)
    ensures r.None? <==> d == 0
    ensures r.Some? ==> 0 <= r.value.1 < TWO_256
    ensures r.Some? ==> r.value.0 * TWO_256 + r.value.1 == FloorDiv(x1 * TWO_256 + x0, d)
  {
    if d == 0 then None
    else
      var y := FloorDiv(x1 * TWO_256 + x0, d);
      Some((y / TWO_256, y % TWO_256))
  }

  /** Two limbs `h`, `l` of base `b` make a number below `b * b` exactly when `h` fits one limb. */
  lemma HighLimbFits(h: int, l: int, b: int)
    requires 0 <= l < b
    ensures 0 <= h < b <==> 0 <= h * b + l < b * b
  {
    if 0 <= h < b {
      MulMonotone(h, b - 1, b);
    }
    if h >= b {
      MulMonotone(b, h, b);
    }
    if h < 0 {
      MulMonotone(h, -1, b);
    }
  }

  /** The frame `okay(y1, y0)` of two limbs, read back. */
  lemma OkayLimbs(y1: int, y0: int)
    requires Okay([y1, y0]).Some?
    ensures |Okay([y1, y0]).value| == 65
    ensures ReadWord(Okay([y1, y0]).value, 1) == y1
    ensures ReadWord(Okay([y1, y0]).value, 33) == y0
  {
    var out := Okay([y1, y0]).value;
    assert ReadWord(out, 1 + 32 * 0) == [y1, y0][0];
    assert ReadWord(out, 1 + 32 * 1) == [y1, y0][1];
  }

  /**
   * The `div512by256` branch of `main`, with every exception turned into the
   * failed byte: a missing argument, a zero divisor, or a quotient whose high
   * limb does not fit a word.
   */
  method DivCommand(args: seq<int>) returns (out: seq<byte>)
    ensures |args| < 3 || args[2] == 0 ==> out == FAILED
    ensures |args| >= 3 && args[2] != 0 ==>
      var q := FloorDiv(args[0] * TWO_256 + args[1], args[2]);
      && (0 <= q < TWO_512 ==>
            && |out| == 65 && out[0] == RESULT_OK
            && ReadWord(out, 1) * TWO_256 + ReadWord(out, 33) == q)
      && (!(0 <= q < TWO_512) ==> out == FAILED)
  {
    if |args| < 3 {
      return FAILED;
    }
    var limbs := Div512By256(args[0], args[1], args[2]);
    if limbs.None? {
      return FAILED;
    }
    var y1, y0 := limbs.value.0, limbs.value.1;
    HighLimbFits(y1, y0, TWO_256);
    var framed := Okay([y1, y0]);
    if framed.None? {
      return FAILED;
    }
    OkayLimbs(y1, y0);
    out := framed.value;
  }

  /**
   * The `sqrt512` branch of `main`, with every exception turned into the
   * failed byte: a missing argument, a negative number (the self-check in
   * `int_sqrt`), or a root too wide for one word.
   */
  method SqrtCommand(args: seq<int>) returns (out: seq<byte>)
    ensures |args| < 2 ==> out == FAILED
    ensures |args| >= 2 ==>
      var x := args[0] * TWO_256 + args[1];
      && (0 <= x < TWO_512 ==>
            && |out| == 33 && out[0] == RESULT_OK
            && IsFloorSqrt(ReadWord(out, 1), x))
      && (!(0 <= x < TWO_512) ==> out == FAILED)
  {
    if |args| < 2 {
      return FAILED;
    }
    var x := args[0] * TWO_256 + args[1];
    var root := IntSqrt(x);
    if root.None? {
      return FAILED;
    }
    var s := root.value;
    FloorSqrtWordBound(x);
    var framed := Okay([s]);
    if framed.None? {
      return FAILED;
    }
    out := framed.value;
    assert ReadWord(out, 1 + 32 * 0) == s;
  }

  /** `main`: dispatch on the function name; an unknown one fails. */
  method Run(func: string, args: seq<int>) returns (out: seq<byte>)
    ensures func != "div512by256" && func != "sqrt512" ==> out == FAILED
    ensures func == "div512by256" && (|args| < 3 || args[2] == 0) ==> out == FAILED
    ensures func == "div512by256" && |args| >= 3 && args[2] != 0 ==>
      var q := FloorDiv(args[0] * TWO_256 + args[1], args[2]);
      && (0 <= q < TWO_512 ==>
            && |out| == 65 && out[0] == RESULT_OK
            && ReadWord(out, 1) * TWO_256 + ReadWord(out, 33) == q)
      && (!(0 <= q < TWO_512) ==> out == FAILED)
    ensures func == "sqrt512" && |args| < 2 ==> out == FAILED
    ensures func == "sqrt512" && |args| >= 2 ==>
      var x := args[0] * TWO_256 + args[1];
      && (0 <= x < TWO_512 ==>
            && |out| == 33 && out[0] == RESULT_OK
            && IsFloorSqrt(ReadWord(out, 1), x))
      && (!(0 <= x < TWO_512) ==> out == FAILED)
  {
    if func == "div512by256" {
      out := DivCommand(args);
    } else if func == "sqrt512" {
      out := SqrtCommand(args);
    } else {
      out := FAILED;
    }
  }
}

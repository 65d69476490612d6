# Exact integer and byte core of the l2-angstrom compensation scripts

This project models, in Dafny, the exact parts of four Python scripts that
compute and encode liquidity-provider compensation for an Angstrom swap.

- **script/get-compensation.py**, the part without decimal arithmetic. This
  covers:
  - The two's-complement reading of 256-bit words and big-endian word reads.
  - Decoding of the ABI-encoded array of `(int256, int256, uint256)`
    positions.
  - The `TickState`: the sorted initialized ticks and the liquidity active
    from each of them, with the `get_range_lower` and `get_liquidity` lookups.
  - The tick sequences a sweep visits in either direction, paired into
    consecutive sub-ranges.
  - The ABI layout of the result record.
- **script/math512.py**: the Newton `int_sqrt`, the `div512by256` and
  `sqrt512` commands, and their ok/failed byte framing.
- **script/big_calculation.py**: the Newton `sqrt` with its 10000-round cap,
  and the integer formula for the roots `a` and `b`.
- **script/full_div_sqrt.py**: `do_full_precision_newton`, the fixed-point
  Newton iteration for `sqrt(y / x) * 2^96`.

Python's unbounded integers are Dafny `int`. Python's `//` is `Roots.FloorDiv`
(floor division, unlike Dafny's Euclidean `/`). Bytes are `byte`
(`0..255`). Each raised exception is an error value of a `Result` or an
`Option`.

Code that loops or mutates is written as methods with loop invariants, each
proved against a specification function:

- `from_positions`
- `sorted`
- `get_range_lower`
- the `get_ticks_*` generators
- `int_sqrt`
- `sqrt`
- `do_full_precision_newton`

The rest is functions and lemmas.

Files:

- `results.dfy`: `Option` and `Result`.
- `words.dfy`: 256-bit words and big-endian bytes.
- `positions.dfy`: position decoding.
- `tick_state.dfy`: `TickState`.
- `range_walk.dfy`: sweep ticks and ranges.
- `compensation_output.dfy`: the result record.
- `roots.dfy`: floor division, floor square root, and Newton-step facts.
- `math512.dfy`, `big_calculation.dfy`, `full_div_sqrt.dfy`: one script each.

Two behaviours worth knowing:

- `from_positions` accepts an empty list and returns an empty tick state.
- The `get_ranges_*` ordering checks are `assert`s. Their failures are
  modelled as the `TickOrder` and `PriceOrder` errors.

## Model

| member | source | states |
|---|---|---|
| Words.FromSolidityInt | script/get-compensation.py:9-12 | for a word `x` the result lies in [-2^255, 2^255); it is congruent to `x` modulo 2^256 and equals `x` below 2^255 |
| Words.SolidityWordRoundTrip | script/get-compensation.py:9-12 | encoding the signed value of a word as two's complement gives the word back |
| Words.SolidityIntRoundTrip | script/get-compensation.py:9-12 | every signed 256-bit integer survives encoding then `from_solidity_int` |
| Words.FromBytes | script/get-compensation.py:23 | the big-endian value of `n` bytes is below 256^n |
| Words.FromToBytes | script/get-compensation.py:23 | reading back the `n` big-endian bytes of a value below 256^n gives the value |
| Words.ToFromBytes | script/get-compensation.py:23 | writing the value of a byte string back in as many bytes gives the string |
| Words.ReadWord | script/get-compensation.py:22-23 | `read_word` on the clipped slice is always below 2^256 |
| Words.ReadWordAt | script/get-compensation.py:22-23 | a word written at `offset` reads back as its value |
| Words.ToWord | script/get-compensation.py:412-415 | `to_bytes(32, "big")` succeeds exactly for 0 <= v < 2^256, giving 32 bytes whose value is `v` |
| Words.WordSeq | script/get-compensation.py:415 | the words of `n` values take 32n bytes |
| Words.WordSeqSlice | script/get-compensation.py:415 | bytes 32i..32i+32 of the joined words are the word of value `i` |
| Words.WordSeqWordAt | script/get-compensation.py:412-415 | after any head, word `i` of the joined words sits at offset len(head) + 32i |
| Positions.DecodePosition | script/get-compensation.py:26-35 | decoding succeeds exactly on 96 bytes and otherwise fails with the length error; the fields fit int256, int256 and uint256 |
| Positions.DecodeEncodePosition | script/get-compensation.py:26-35 | decoding the 96-byte record of any encodable position gives the position back |
| Positions.DecodeRecords | script/get-compensation.py:50 | one position per 96-byte record, record `i` decoding to position `i` |
| Positions.RecordBytes | script/get-compensation.py:44 | `raw_positions[0x40:]`: byte `i` is input byte 0x40 + i, and the slice is empty when the input is shorter than 0x40 bytes |
| Positions.DecodePositions | script/get-compensation.py:41-50 | fails on an offset word other than 0x20, on a length word other than the count of whole records after byte 0x40, and on a tail that is not a whole number of records; succeeds whenever all three checks pass, position `i` being record `i` of the tail |
| Positions.DecodeEncodePositions | script/get-compensation.py:41-50 | decoding the ABI encoding of any list of encodable positions gives the list back |
| Positions.ShortInputDecodesEmpty | script/get-compensation.py:41-46 | because `read_word` clips its slice, the one-byte input `0x20` passes both head checks and decodes to no positions |
| TickStates.MinOf | script/get-compensation.py:136 | the result is an element of the set and no element is smaller |
| TickStates.SortTicks | script/get-compensation.py:136 | `sorted(initialized_ticks)` is strictly ascending and holds exactly the set's ticks |
| TickStates.BoundariesContain | script/get-compensation.py:133-135 | every position's lower and upper tick is an initialized tick |
| TickStates.FromPositions | script/get-compensation.py:130-142 | the tick list is strictly ascending and holds exactly the positions' boundary ticks; the map has exactly those keys; each entry is the total liquidity of the positions with tick_lower <= t < tick_upper |
| TickStates.RangeLowerOf | script/get-compensation.py:119-123 | a found lower tick is an initialized tick |
| TickStates.GetRangeLower | script/get-compensation.py:119-123 | the scan over consecutive tick pairs returns the first pair's lower tick with lower <= tick < upper, else None |
| TickStates.RangeLowerSpec | script/get-compensation.py:119-123 | on sorted ticks: None exactly when there are fewer than two ticks, the tick is below the first, or it is at or above the last; otherwise an initialized tick at or below `tick` with no initialized tick in between |
| TickStates.GetLiquidity | script/get-compensation.py:125-128 | the liquidity stored at the range's lower tick, and 0 when there is no range |
| TickStates.NoCoverageOutside | script/get-compensation.py:138-141 | outside the initialized span no position covers the tick |
| TickStates.SameCoverage | script/get-compensation.py:138-141 | between two consecutive initialized ticks every tick is covered by the same positions as the lower one |
| TickStates.LiquidityAtEveryTick | script/get-compensation.py:125-142 | for the state built from the positions, `get_liquidity(tick)` at every tick is the total liquidity of the positions with tick_lower <= tick < tick_upper |
| RangeWalk.GetTicksZeroForOne | script/get-compensation.py:79-89 | the yielded sequence is the start, the in-window initialized ticks from the top down, then the end |
| RangeWalk.GetTicksOneForZero | script/get-compensation.py:92-102 | the yielded sequence is the start, the in-window initialized ticks from the bottom up, then the end |
| RangeWalk.DescendingWindowSpec | script/get-compensation.py:85-88 | the window holds initialized ticks at their own prices within the bounds, strictly descending in tick and price, and every such tick is in it |
| RangeWalk.AscendingWindowSpec | script/get-compensation.py:98-101 | the mirror: initialized ticks at their prices within the bounds, strictly ascending, none missing |
| RangeWalk.ZeroForOneTicksDescend | script/get-compensation.py:79-89 | with sorted ticks and an increasing price, a zero-for-one sweep never goes up in price |
| RangeWalk.OneForZeroTicksAscend | script/get-compensation.py:92-102 | with sorted ticks and an increasing price, a one-for-zero sweep never goes down in price |
| RangeWalk.TicksToRanges | script/get-compensation.py:105-111 | one range fewer than ticks, range `i` being ticks `i` and `i + 1` |
| RangeWalk.GetRangesZeroForOne | script/get-compensation.py:144-147 | fails on a start tick below the end tick, then on a start price below the end price; otherwise it succeeds and returns the consecutive pairs of the zero-for-one ticks, from the start to the end, each with its upper price at or above its lower one |
| RangeWalk.GetRangesOneForZero | script/get-compensation.py:149-152 | the mirror for one-for-zero: fails on a start tick above the end tick, then on a start price above the end price; otherwise it succeeds, each range's price non-decreasing |
| CompensationOutput.EncodeOutput | script/get-compensation.py:410-415 | the record exists exactly when the price, the count and every reward fit 256 bits; it is 96 + 32n bytes; its words read back as the price, 0x40, n and reward `i` at 96 + 32i |
| Roots.FloorDiv | script/math512.py:43 | Python's `//`: for a positive divisor r*b <= a < r*b + b, and the mirror for a negative one |
| Roots.FloorSqrt | script/math512.py:29 | the value passes the `int_sqrt` self-check: r^2 <= x < (r+1)^2 |
| Roots.FloorSqrtUnique | script/math512.py:29-33 | only one number passes that self-check |
| Roots.FloorSqrtWordBound | script/big_calculation.py:15 | the root is below 2^256, the first guess plus one, exactly when x < 2^512 |
| Roots.NewtonStep | script/math512.py:27 | the step `(g + x // g) // 2` from a positive guess goes down exactly when g^2 > x |
| Roots.StepNotBelowRoot | script/big_calculation.py:18 | from any positive guess a Newton step stays at or above the floor root |
| Roots.StepAboveRoot | script/big_calculation.py:18-22 | above the floor root a Newton step goes strictly down and at least halves the distance |
| Roots.StopMeansRoot | script/math512.py:25-27 | at or above the root, a step that does not go down means the guess is the root |
| Math512.FailedIsNotOkay | script/math512.py:15-17 | the `failed()` frame is the single failed byte, which no `okay` frame starts with |
| Math512.Okay | script/math512.py:9-12 | the frame exists exactly when every argument fits a word; it is the ok byte and one word per argument, word `i` reading back as argument `i` |
| Math512.IntSqrt | script/math512.py:20-33 | for x >= 0 the floor square root; for x < 0 the failed exit of the self-check |
| Math512.Div512By256 | script/math512.py:42-44 | fails exactly on a zero divisor; otherwise the limbs recombine to (x1 * 2^256 + x0) // d, with the low limb in [0, 2^256) |
| Math512.HighLimbFits | script/math512.py:44-45 | the high limb fits a word exactly when the quotient is in [0, 2^512) |
| Math512.OkayLimbs | script/math512.py:45 | `okay(y1, y0)` is 65 bytes whose words read back as `y1` and `y0` |
| Math512.DivCommand | script/math512.py:38-45 | fails on a missing argument, a zero divisor or a quotient outside [0, 2^512); otherwise 65 bytes whose two words recombine to the floor quotient |
| Math512.SqrtCommand | script/math512.py:46-49 | fails on a missing argument or x outside [0, 2^512); otherwise 33 bytes whose word is the floor square root of x1 * 2^256 + x0 |
| Math512.Run | script/math512.py:36-58 | dispatches on the name: both commands as above, and the failed byte for any other name |
| BigCalculation.Sqrt | script/big_calculation.py:10-26 | negative input: the assert fails; 0 gives 0; 0 < v < 2^512 gives the floor square root; v >= 2^512 gives 2^256 - 1; the 10000-round limit is never hit |
| BigCalculation.FloorDivMonotone | script/big_calculation.py:38-39 | floor division keeps the order of dividends for a positive divisor and reverses it for a negative one |
| BigCalculation.QuadraticRoots | script/big_calculation.py:35-39 | a negative radicand fails first, then u = 0; otherwise d is the radicand's floor root (2^256 - 1 from 2^512 on), `a` and `b` are the floor quotients of L*2^96 + d and L*2^96 - d by u for either sign of u, and b <= a for u > 0, a <= b for u < 0 |
| FullDivSqrt.RatioStep | script/full_div_sqrt.py:14 | for positive x and g the step goes down exactly when g^2 * x > y * 2^192 |
| FullDivSqrt.NewtonFrom | script/full_div_sqrt.py:12-17 | the loop from a guess within `fuel` steps: any answer is a non-zero guess that the step maps to itself |
| FullDivSqrt.FullPrecisionNewtonSpec | script/full_div_sqrt.py:5-17 | the whole function within `fuel` steps: x = 0 fails, a ratio whose floor quotient is 0 returns 0 at once, and any answer is 0 or a fixed point of the step |
| FullDivSqrt.FullPrecisionNewton | script/full_div_sqrt.py:5-17 | the loop, run for at most `fuel` steps, gives exactly the specified fixed-point search |
| FullDivSqrt.MultipleBelow | script/full_div_sqrt.py:9 | k*x <= num exactly when k <= num // x, for x > 0 |
| FullDivSqrt.RatioRootIsFloorSqrt | script/full_div_sqrt.py:5-8 | g^2 x <= num < (g+1)^2 x exactly when g is the floor square root of num // x |
| FullDivSqrt.FixedPointIsRoot | script/full_div_sqrt.py:14-16 | a positive guess that a step maps to itself satisfies g^2 x <= y * 2^192 < (g+1)^2 x |
| FullDivSqrt.StepNotBelowRatioRoot | script/full_div_sqrt.py:14 | from a positive guess a step never falls below any s with s^2 x <= num, so guesses from 1 stay positive |
| FullDivSqrt.NewtonFromSound | script/full_div_sqrt.py:12-17 | any value the loop returns from a positive guess is the root of the ratio |
| FullDivSqrt.NewtonFromNegate | script/full_div_sqrt.py:14 | negating both y * 2^192 and x changes no step, so a negative x runs the loop of -x with -y |
| FullDivSqrt.FullPrecisionNewtonSound | script/full_div_sqrt.py:5-17 | whenever it returns with x and y not of opposite signs (x != 0), the result is floor(sqrt(y * 2^192 / x)) |
| FullDivSqrt.Oscillates | script/full_div_sqrt.py:12-17 | from guesses 1 and 2 for y = 3, x = 2^192, no amount of fuel reaches a fixed point |
| FullDivSqrt.NewtonOscillates | script/full_div_sqrt.py:12-17 | the loop never returns for y = 3, x = 2^192, whose answer is 1 |
| FullDivSqrt.StepBelowAboveRatioRoot | script/full_div_sqrt.py:14 | above the root of the ratio a step goes strictly down |
| FullDivSqrt.RatioSqrt | script/full_div_sqrt.py:5-17 | corrected loop: fails on x = 0 and on a negative ratio; otherwise always ends with floor(sqrt(y * 2^192 / x)) |

## Left out

- Decimal arithmetic is not modelled. This covers:
  - `tick_to_sqrt_price`, `from_X96`, `delta_x` and `delta_y`
  - `compute_compensation_price` and the per-range amounts
  - `distribute_rewards_ranges`, `get_reward_share` and `quasi_eq`
  - the final `round(... * 2**96)`

  These are 40-digit decimal floating point, with powers and square roots.
  The square-root price is the parameter `price` of the sweep methods, which
  is assumed only to be strictly increasing. The output encoder takes the
  rounded integers as inputs.
- Command-line handling is not modelled: `sys.argv` parsing, `bytes.fromhex`,
  hex printing, `print`, `sys.exit`, `dprint`/`DEBUG` and
  `print_position_rewards`.
  - The math512 commands take already-parsed integer arguments.
  - They return the framed bytes without the `0x` hex text or the exit
    status.
  - The stderr message of `int_sqrt` is dropped.
  - The unguarded `func = sys.argv[1]` at module level is dropped.
- The hard-coded constants of big_calculation.py, its printing helper `t` and
  the unused imports are not modelled. The formula takes its six quantities
  as parameters.
- Generators are modelled as the sequences they yield. `ticks_iter_to_ranges`
  runs its generator twice; it is deterministic, so both runs yield the same
  sequence.
- `TickState` is a mutable dataclass in Python. It is never changed after
  `from_positions`, so it is modelled as a value.
- TickStates.GetLiquidity: requires every initialized tick to have a liquidity
  entry. The source would raise KeyError otherwise. Every state built by
  `from_positions` satisfies this (see `TickStates.LiquidityAtEveryTick`).
- FullDivSqrt.FullPrecisionNewton: the source loop has no bound. The model
  takes a `fuel` step limit and reports `OutOfFuel` when it is used up. The
  result is therefore stated for a bounded run; `FullDivSqrt.NewtonOscillates`
  shows an input that needs unbounded fuel.
- FullDivSqrt.FullPrecisionNewtonSound: states nothing when `x` and `y` have
  opposite signs. The ratio is then negative and has no square root to
  compare the loop's answer with.

## Findings

| source | as written | input that shows it | evidently intended | confidence | as-written member | corrected member |
|---|---|---|---|---|---|---|
| script/full_div_sqrt.py:12-17 | the loop starts at guess 1 and returns only when a step maps the guess to itself, which integer Newton steps need not do | y = 3, x = 2^192: the guesses alternate 1, 2, 1, 2, ... and the call never returns | return floor(sqrt(y * 2^192 / x)), here 1, by starting above the root and stopping at the first step that does not go down, as `int_sqrt` and `sqrt` in the same repository do | not executed | FullDivSqrt.NewtonOscillates | FullDivSqrt.RatioSqrt |

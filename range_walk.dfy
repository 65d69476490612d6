/**
 * The sweep skeleton of script/get-compensation.py: the priced ticks a sweep
 * visits in each direction and the consecutive sub-ranges between them.
 *
 * `tick_to_sqrt_price` (a 40-digit decimal power) is not modelled: it is the
 * parameter `price`, and the properties below assume only that it is
 * strictly increasing in the tick.
 */
module RangeWalk {
  import opened Results
  import opened TickStates

  /** A tick paired with its square-root price. */
  datatype PricedTick = PricedTick(tick: int, sqrtPrice: real)

  /** One sub-range of a sweep: two consecutive priced ticks, in sweep order. */
  type Range = (PricedTick, PricedTick)

  datatype WalkError =
    | TickOrder  // "start_upper.tick < end_lower.tick" or "start_lower.tick > end_upper.tick"
    | PriceOrder // the same ordering violated by the square-root prices

  ghost predicate StrictlyIncreasing(price: int -> real)
  {
    forall a, b :: a < b ==> price(a) < price(b)
  }

  predicate InWindow(lo: real, p: real, hi: real)
  {
    lo <= p <= hi
  }

  /** The ticks of `s` priced within [lo, hi], in the order of `s`. */
  function AscendingWindow(s: seq<int>, lo: real, hi: real, price: int -> real): seq<PricedTick>
  {
    if s == [] then []
    else
      (if InWindow(lo, price(s[0]), hi) then [PricedTick(s[0], price(s[0]))] else [])
      + AscendingWindow(s[1..], lo, hi, price)
  }

  /** The ticks of `s` priced within [lo, hi], in the reverse order of `s`. */
  function DescendingWindow(s: seq<int>, lo: real, hi: real, price: int -> real): seq<PricedTick>
  {
    if s == [] then []
    else
      DescendingWindow(s[1..], lo, hi, price)
      + (if InWindow(lo, price(s[0]), hi) then [PricedTick(s[0], price(s[0]))] else [])
  }

  /** What `get_ticks_zero_for_one` yields. */
  function ZeroForOneTicks(startUpper: PricedTick, endLower: PricedTick, sortedTicks: seq<int>,
                           price: int -> real): seq<PricedTick>
  {
    [startUpper] + DescendingWindow(sortedTicks, endLower.sqrtPrice, startUpper.sqrtPrice, price) + [endLower]
  }

  /** What `get_ticks_one_for_zero` yields. */
  function OneForZeroTicks(startLower: PricedTick, endUpper: PricedTick, sortedTicks: seq<int>,
                           price: int -> real): seq<PricedTick>
  {
    [startLower] + AscendingWindow(sortedTicks, startLower.sqrtPrice, endUpper.sqrtPrice, price) + [endUpper]
  }

  /** `get_ticks_zero_for_one`: the start, the initialized ticks from the top down, the end. */
  method GetTicksZeroForOne(startUpper: PricedTick, endLower: PricedTick, sortedTicks: seq<int>,
                            price: int -> real)
    returns (ticks: seq<PricedTick>)
    ensures ticks == ZeroForOneTicks(startUpper, endLower, sortedTicks, price)
  {
    ticks := [startUpper];
    var i := |sortedTicks|;
    while i > 0
      invariant 0 <= i <= |sortedTicks|
      invariant ticks == [startUpper] + DescendingWindow(sortedTicks[i..], endLower.sqrtPrice, startUpper.sqrtPrice, price)
    {
      i := i - 1;
      assert sortedTicks[i..][1..] == sortedTicks[i + 1..];
      var tick := sortedTicks[i];
      var sqrtPrice := price(tick);
      if endLower.sqrtPrice <= sqrtPrice <= startUpper.sqrtPrice {
        ticks := ticks + [PricedTick(tick, sqrtPrice)];
      }
    }
    ticks := ticks + [endLower];
  }

  /** `get_ticks_one_for_zero`: the start, the initialized ticks from the bottom up, the end. */
  method GetTicksOneForZero(startLower: PricedTick, endUpper: PricedTick, sortedTicks: seq<int>,
                            price: int -> real)
    returns (ticks: seq<PricedTick>)
    ensures ticks == OneForZeroTicks(startLower, endUpper, sortedTicks, price)
  {
    ticks := [startLower];
    var i := 0;
    while i < |sortedTicks|
      invariant 0 <= i <= |sortedTicks|
      invariant ticks + AscendingWindow(sortedTicks[i..], startLower.sqrtPrice, endUpper.sqrtPrice, price)
        == [startLower] + AscendingWindow(sortedTicks, startLower.sqrtPrice, endUpper.sqrtPrice, price)
    {
      assert sortedTicks[i..][1..] == sortedTicks[i + 1..];
      var tick := sortedTicks[i];
      var nextSqrtPrice := price(tick);
      if startLower.sqrtPrice <= nextSqrtPrice <= endUpper.sqrtPrice {
        ticks := ticks + [PricedTick(tick, nextSqrtPrice)];
      }
      i := i + 1;
    }
    ticks := ticks + [endUpper];
  }

  /** `ticks_iter_to_ranges`: each tick paired with its successor. */
  function TicksToRanges<T>(ticks: seq<T>): (r: seq<(T, T)>)
    requires |ticks| > 0
    ensures |r| == |ticks| - 1
    ensures forall i :: 0 <= i < |r| ==> r[i] == (ticks[i], ticks[i + 1])
  {
    if |ticks| == 1 then [] else [(ticks[0], ticks[1])] + TicksToRanges(ticks[1..])
  }

  /**
   * Every window element is an initialized tick at its own price within
   * [lo, hi]; the window runs strictly downwards in tick and in price; and
   * every initialized tick priced within [lo, hi] is in it.
   */
  lemma {:induction false} DescendingWindowSpec(s: seq<int>, lo: real, hi: real, price: int -> real,
                                                w: seq<PricedTick>)
    requires StrictlyAscending(s) && StrictlyIncreasing(price)
    requires w == DescendingWindow(s, lo, hi, price)
    ensures forall k :: 0 <= k < |w| ==>
      w[k].tick in s && w[k].sqrtPrice == price(w[k].tick) && InWindow(lo, w[k].sqrtPrice, hi)
    ensures forall i, j :: 0 <= i < j < |w| ==> w[j].tick < w[i].tick && w[j].sqrtPrice < w[i].sqrtPrice
    ensures forall t :: t in s && InWindow(lo, price(t), hi) ==> PricedTick(t, price(t)) in w
    ensures |s| > 0 ==> forall k :: 0 <= k < |w| ==> s[0] <= w[k].tick
  {
    if s != [] {
      var rest := DescendingWindow(s[1..], lo, hi, price);
      DescendingWindowSpec(s[1..], lo, hi, price, rest);
      assert forall t :: t in s ==> t == s[0] || t in s[1..];
    }
  }

  /** The mirror of `DescendingWindowSpec`: the window runs strictly upwards. */
  lemma {:induction false} AscendingWindowSpec(s: seq<int>, lo: real, hi: real, price: int -> real,
                                               w: seq<PricedTick>)
    requires StrictlyAscending(s) && StrictlyIncreasing(price)
    requires w == AscendingWindow(s, lo, hi, price)
    ensures forall k :: 0 <= k < |w| ==>
      w[k].tick in s && w[k].sqrtPrice == price(w[k].tick) && InWindow(lo, w[k].sqrtPrice, hi)
    ensures forall i, j :: 0 <= i < j < |w| ==> w[i].tick < w[j].tick && w[i].sqrtPrice < w[j].sqrtPrice
    ensures forall t :: t in s && InWindow(lo, price(t), hi) ==> PricedTick(t, price(t)) in w
    ensures |s| > 0 ==> forall k :: 0 <= k < |w| ==> s[0] <= w[k].tick
  {
    if s != [] {
      var rest := AscendingWindow(s[1..], lo, hi, price);
      AscendingWindowSpec(s[1..], lo, hi, price, rest);
      assert forall t :: t in s ==> t == s[0] || t in s[1..];
    }
  }

  /** A zero-for-one sweep visits square-root prices from the start downwards, never going back up. */
  lemma ZeroForOneTicksDescend(startUpper: PricedTick, endLower: PricedTick, sortedTicks: seq<int>,
                               price: int -> real, ticks: seq<PricedTick>)
    requires StrictlyAscending(sortedTicks) && StrictlyIncreasing(price)
    requires endLower.sqrtPrice <= startUpper.sqrtPrice
    requires ticks == ZeroForOneTicks(startUpper, endLower, sortedTicks, price)
    ensures forall i, j :: 0 <= i < j < |ticks| ==> ticks[j].sqrtPrice <= ticks[i].sqrtPrice
  {
    var w := DescendingWindow(sortedTicks, endLower.sqrtPrice, startUpper.sqrtPrice, price);
    DescendingWindowSpec(sortedTicks, endLower.sqrtPrice, startUpper.sqrtPrice, price, w);
    assert ticks[0] == startUpper && ticks[|ticks| - 1] == endLower;
    forall i, j | 0 <= i < j < |ticks|
      ensures ticks[j].sqrtPrice <= ticks[i].sqrtPrice
    {
      if 0 < i {
        assert ticks[i] == w[i - 1];
      }
      if j < |ticks| - 1 {
        assert ticks[j] == w[j - 1];
      }
    }
  }

  /** A one-for-zero sweep visits square-root prices from the start upwards, never going back down. */
  lemma OneForZeroTicksAscend(startLower: PricedTick, endUpper: PricedTick, sortedTicks: seq<int>,
                              price: int -> real, ticks: seq<PricedTick>)
    requires StrictlyAscending(sortedTicks) && StrictlyIncreasing(price)
    requires startLower.sqrtPrice <= endUpper.sqrtPrice
    requires ticks == OneForZeroTicks(startLower, endUpper, sortedTicks, price)
    ensures forall i, j :: 0 <= i < j < |ticks| ==> ticks[i].sqrtPrice <= ticks[j].sqrtPrice
  {
    var w := AscendingWindow(sortedTicks, startLower.sqrtPrice, endUpper.sqrtPrice, price);
    AscendingWindowSpec(sortedTicks, startLower.sqrtPrice, endUpper.sqrtPrice, price, w);
    assert ticks[0] == startLower && ticks[|ticks| - 1] == endUpper;
    forall i, j | 0 <= i < j < |ticks|
      ensures ticks[i].sqrtPrice <= ticks[j].sqrtPrice
    {
      if 0 < i {
        assert ticks[i] == w[i - 1];
      }
      if j < |ticks| - 1 {
        assert ticks[j] == w[j - 1];
      }
    }
  }

  /**
   * `TickState.get_ranges_zero_for_one`: checks the bounds' order, then pairs
   * the zero-for-one ticks into `(upper, lower)` sub-ranges. On sorted ticks
   * and a strictly increasing price, every sub-range has its upper square-root
   * price at or above its lower one, so `delta_x` and `delta_y` never see a
   * reversed range.
   */
  method GetRangesZeroForOne(ts: TickState, startUpper: PricedTick, endLower: PricedTick, price: int -> real)
    returns (r: Result<seq<Range>, WalkError>)
    ensures startUpper.tick < endLower.tick ==> r == Failure(TickOrder)
    ensures (startUpper.tick >= endLower.tick && startUpper.sqrtPrice < endLower.sqrtPrice) ==>
      r == Failure(PriceOrder)
    ensures startUpper.tick >= endLower.tick && startUpper.sqrtPrice >= endLower.sqrtPrice ==> r.Success?
    ensures r.Success? ==>
      && startUpper.tick >= endLower.tick && startUpper.sqrtPrice >= endLower.sqrtPrice
      && r.value == TicksToRanges(ZeroForOneTicks(startUpper, endLower, ts.sortedTicks, price))
      && |r.value| >= 1 && r.value[0].0 == startUpper && r.value[|r.value| - 1].1 == endLower
    ensures r.Success? && StrictlyAscending(ts.sortedTicks) && StrictlyIncreasing(price) ==>
      forall i :: 0 <= i < |r.value| ==> r.value[i].1.sqrtPrice <= r.value[i].0.sqrtPrice
  {
    if startUpper.tick < endLower.tick {
      return Failure(TickOrder);
    }
    if startUpper.sqrtPrice < endLower.sqrtPrice {
      return Failure(PriceOrder);
    }
    var ticks := GetTicksZeroForOne(startUpper, endLower, ts.sortedTicks, price);
    assert |ticks| >= 2 && ticks[0] == startUpper && ticks[|ticks| - 1] == endLower;
    var ranges := TicksToRanges(ticks);
    if StrictlyAscending(ts.sortedTicks) && StrictlyIncreasing(price) {
      ZeroForOneTicksDescend(startUpper, endLower, ts.sortedTicks, price, ticks);
      forall i | 0 <= i < |ranges|
        ensures ranges[i].1.sqrtPrice <= ranges[i].0.sqrtPrice
      {
        assert ranges[i] == (ticks[i], ticks[i + 1]);
      }
    }
    return Success(ranges);
  }

  /**
   * `TickState.get_ranges_one_for_zero`: the mirror, with `(lower, upper)`
   * sub-ranges whose square-root prices never decrease.
   */
  method GetRangesOneForZero(ts: TickState, startLower: PricedTick, endUpper: PricedTick, price: int -> real)
    returns (r: Result<seq<Range>, WalkError>)
    ensures startLower.tick > endUpper.tick ==> r == Failure(TickOrder)
    ensures (startLower.tick <= endUpper.tick && startLower.sqrtPrice > endUpper.sqrtPrice) ==>
      r == Failure(PriceOrder)
    ensures startLower.tick <= endUpper.tick && startLower.sqrtPrice <= endUpper.sqrtPrice ==> r.Success?
    ensures r.Success? ==>
      && startLower.tick <= endUpper.tick && startLower.sqrtPrice <= endUpper.sqrtPrice
      && r.value == TicksToRanges(OneForZeroTicks(startLower, endUpper, ts.sortedTicks, price))
      && |r.value| >= 1 && r.value[0].0 == startLower && r.value[|r.value| - 1].1 == endUpper
    ensures r.Success? && StrictlyAscending(ts.sortedTicks) && StrictlyIncreasing(price) ==>
      forall i :: 0 <= i < |r.value| ==> r.value[i].0.sqrtPrice <= r.value[i].1.sqrtPrice
  {
    if startLower.tick > endUpper.tick {
      return Failure(TickOrder);
    }
    if startLower.sqrtPrice > endUpper.sqrtPrice {
      return Failure(PriceOrder);
    }
    var ticks := GetTicksOneForZero(startLower, endUpper, ts.sortedTicks, price);
    assert |ticks| >= 2 && ticks[0] == startLower && ticks[|ticks| - 1] == endUpper;
    var ranges := TicksToRanges(ticks);
    if StrictlyAscending(ts.sortedTicks) && StrictlyIncreasing(price) {
      OneForZeroTicksAscend(startLower, endUpper, ts.sortedTicks, price, ticks);
      forall i | 0 <= i < |ranges|
        ensures ranges[i].0.sqrtPrice <= ranges[i].1.sqrtPrice
      {
        assert ranges[i] == (ticks[i], ticks[i + 1]);
      }
    }
    return Success(ranges);
  }
}

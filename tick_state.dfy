/**
 * `TickState` of script/get-compensation.py: the sorted initialized ticks of a
 * position set and the liquidity active from each of them up to the next.
 */
module TickStates {
  import opened Results
  import opened Positions

  /** Built once by `FromPositions` and only read afterwards. */
  datatype TickState = TickState(sortedTicks: seq<int>, ticksToLiquidity: map<int, nat>)

  predicate StrictlyAscending(s: seq<int>)
  {
    forall i, j :: 0 <= i < j < |s| ==> s[i] < s[j]
  }

  function Elements(s: seq<int>): set<int>
  {
    set t | t in s
  }

  /** Every tickLower and tickUpper of the positions: the initialized ticks. */
  function Boundaries(ps: seq<Position>): set<int>
  {
    if ps == [] then {}
    else Boundaries(ps[..|ps| - 1]) + {ps[|ps| - 1].tickLower, ps[|ps| - 1].tickUpper}
  }

  /** Half-open coverage: a position is active from tickLower up to, not including, tickUpper. */
  predicate Covers(p: Position, tick: int)
  {
    p.tickLower <= tick < p.tickUpper
  }

  /** The liquidity of all positions active at `tick`. */
  function ActiveLiquidity(ps: seq<Position>, tick: int): nat
  {
    if ps == [] then 0
    else
      ActiveLiquidity(ps[..|ps| - 1], tick)
      + (if Covers(ps[|ps| - 1], tick) then ps[|ps| - 1].liquidity else 0)
  }

  /** Every initialized tick has a liquidity entry (what the dictionary lookups need). */
  predicate WellKeyed(ts: TickState)
  {
    forall t :: t in ts.sortedTicks ==> t in ts.ticksToLiquidity
  }

  ghost predicate Valid(ts: TickState)
  {
    StrictlyAscending(ts.sortedTicks) && ts.ticksToLiquidity.Keys == Elements(ts.sortedTicks)
  }

  /** `ts` is the tick state of the positions `ps`. */
  ghost predicate Represents(ts: TickState, ps: seq<Position>)
  {
    && Valid(ts)
    && Elements(ts.sortedTicks) == Boundaries(ps)
    && forall t :: t in ts.ticksToLiquidity ==> ts.ticksToLiquidity[t] == ActiveLiquidity(ps, t)
  }

  lemma {:induction false} BoundariesContain(ps: seq<Position>)
    ensures forall p <- ps :: p.tickLower in Boundaries(ps) && p.tickUpper in Boundaries(ps)
  {
    if ps != [] {
      BoundariesContain(ps[..|ps| - 1]);
      assert ps == ps[..|ps| - 1] + [ps[|ps| - 1]];
    }
  }

  lemma EmptyWhenNoMember(s: set<int>)
    ensures (forall x :: x !in s) ==> s == {}
  {
    if forall x :: x !in s {
      assert s == {};
    }
  }

  /** The least element of a non-empty set. */
  method MinOf(s: set<int>) returns (m: int)
    requires s != {}
    ensures m in s && forall t <- s :: m <= t
  {
    EmptyWhenNoMember(s);
    m :| m in s;
    var todo := s - {m};
    while todo != {}
      invariant todo <= s && m in s
      invariant forall u :: u in s && u !in todo ==> m <= u
      decreases todo
    {
      EmptyWhenNoMember(todo);
      var t :| t in todo;
      if t < m {
        m := t;
      }
      todo := todo - {t};
    }
  }

  /** Python's `sorted(initialized_ticks)` on a set of ticks. */
  method SortTicks(s: set<int>) returns (r: seq<int>)
    ensures StrictlyAscending(r) && Elements(r) == s
  {
    r := [];
    var rest := s;
    while rest != {}
      invariant rest <= s
      invariant StrictlyAscending(r)
      invariant Elements(r) + rest == s
      invariant forall i, t :: 0 <= i < |r| && t in rest ==> r[i] < t
      decreases rest
    {
      var m := MinOf(rest);
      r := r + [m];
      rest := rest - {m};
    }
  }

  /**
   * `TickState.from_positions`: collects the initialized ticks, sorts them and
   * sums, for each, the liquidity of the positions that cover it.
   */
  method FromPositions(positions: seq<Position>) returns (ts: TickState)
    ensures Represents(ts, positions)
  {
    var initialized: set<int> := {};
    var i := 0;
    while i < |positions|
      invariant 0 <= i <= |positions|
      invariant initialized == Boundaries(positions[..i])
    {
      assert positions[..i + 1][..i] == positions[..i];
      initialized := initialized + {positions[i].tickLower};
      initialized := initialized + {positions[i].tickUpper};
      i := i + 1;
    }
    assert positions[..|positions|] == positions;
    var sortedTicks := SortTicks(initialized);
    var liquidity: map<int, nat> := map t | t in initialized :: 0;
    i := 0;
    while i < |positions|
      invariant 0 <= i <= |positions|
      invariant liquidity.Keys == initialized
      invariant forall t :: t in initialized ==> liquidity[t] == ActiveLiquidity(positions[..i], t)
    {
      var position := positions[i];
      assert positions[..i + 1][..i] == positions[..i];
      var todo := initialized;
      while todo != {}
        invariant todo <= initialized
        invariant liquidity.Keys == initialized
        invariant forall t :: t in initialized && t !in todo ==>
          liquidity[t] == ActiveLiquidity(positions[..i + 1], t)
        invariant forall t :: t in todo ==> liquidity[t] == ActiveLiquidity(positions[..i], t)
        decreases todo
      {
        EmptyWhenNoMember(todo);
        var tick :| tick in todo;
        if position.tickLower <= tick < position.tickUpper {
          liquidity := liquidity[tick := liquidity[tick] + position.liquidity];
        }
        todo := todo - {tick};
      }
      i := i + 1;
    }
    ts := TickState(sortedTicks, liquidity);
  }

  /**
   * The initialized tick that starts the interval holding `tick`: the first
   * consecutive pair `(lower, upper)` of `s` with `lower <= tick < upper`.
   */
  function RangeLowerOf(s: seq<int>, tick: int): (r: Option<int>)
    ensures r.Some? ==> r.value in s
  {
    if |s| < 2 then None
    else if s[0] <= tick < s[1] then Some(s[0])
    else RangeLowerOf(s[1..], tick)
  }

  /** `get_range_lower`: the scan over consecutive initialized ticks. */
  method GetRangeLower(ts: TickState, tick: int) returns (r: Option<int>)
    ensures r == RangeLowerOf(ts.sortedTicks, tick)
  {
    var s := ts.sortedTicks;
    var i := 0;
    while i + 1 < |s|
      invariant 0 <= i <= |s|
      invariant RangeLowerOf(s[i..], tick) == RangeLowerOf(s, tick)
    {
      if s[i] <= tick < s[i + 1] {
        return Some(s[i]);
      }
      assert s[i..][1..] == s[i + 1..];
      i := i + 1;
    }
    return None;
  }

  /**
   * On sorted ticks, the interval lookup finds nothing exactly when `tick`
   * lies before the first or at/after the last initialized tick (or there is
   * no interval at all); otherwise it finds an initialized tick at or below
   * `tick` with no initialized tick in between.
   */
  lemma {:induction false} RangeLowerSpec(s: seq<int>, tick: int)
    requires StrictlyAscending(s)
    ensures RangeLowerOf(s, tick).None? <==> (|s| < 2 || tick < s[0] || s[|s| - 1] <= tick)
    ensures RangeLowerOf(s, tick).Some? ==>
      var t := RangeLowerOf(s, tick).value;
      t in s && t <= tick && forall u <- s :: u <= t || tick < u
  {
    if |s| >= 2 && !(s[0] <= tick < s[1]) {
      RangeLowerSpec(s[1..], tick);
      assert forall u <- s :: u == s[0] || u in s[1..];
    }
  }

  /** `get_liquidity`: the liquidity of the interval holding `tick`, zero outside all intervals. */
  function LiquidityOf(ts: TickState, tick: int): nat
    requires WellKeyed(ts)
  {
    match RangeLowerOf(ts.sortedTicks, tick)
    case None => 0
    case Some(lower) => ts.ticksToLiquidity[lower]
  }

  /**
   * `get_liquidity` as the script runs it: the call to the `get_range_lower`
   * loop, then the dictionary lookup. `LiquidityOf` is its specification.
   */
  method GetLiquidity(ts: TickState, tick: int) returns (liquidity: nat)
    requires WellKeyed(ts)
    ensures liquidity == LiquidityOf(ts, tick)
    ensures RangeLowerOf(ts.sortedTicks, tick).None? ==> liquidity == 0
  {
    var lower := GetRangeLower(ts, tick);
    if lower.Some? {
      var t := lower.value;
      assert t in ts.sortedTicks;
      return ts.ticksToLiquidity[t];
    }
    return 0;
  }

  lemma {:induction false} NoCoverageOutside(ps: seq<Position>, s: seq<int>, tick: int)
    requires StrictlyAscending(s)
    requires forall p <- ps :: p.tickLower in s && p.tickUpper in s
    requires |s| < 2 || tick < s[0] || s[|s| - 1] <= tick
    ensures ActiveLiquidity(ps, tick) == 0
  {
    if ps != [] {
      var p := ps[|ps| - 1];
      assert p in ps;
      NoCoverageOutside(ps[..|ps| - 1], s, tick);
      assert !Covers(p, tick) by {
        if |s| >= 2 && tick < s[0] {
          assert forall u <- s :: s[0] <= u;
        } else if |s| >= 2 {
          assert forall u <- s :: u <= s[|s| - 1];
        }
      }
    }
  }

  lemma {:induction false} SameCoverage(ps: seq<Position>, s: seq<int>, lower: int, tick: int)
    requires forall p <- ps :: p.tickLower in s && p.tickUpper in s
    requires lower <= tick
    requires forall u <- s :: u <= lower || tick < u
    ensures ActiveLiquidity(ps, tick) == ActiveLiquidity(ps, lower)
  {
    if ps != [] {
      var p := ps[|ps| - 1];
      assert p in ps;
      SameCoverage(ps[..|ps| - 1], s, lower, tick);
      assert Covers(p, tick) == Covers(p, lower);
    }
  }

  /**
   * The lookup agrees with the positions at every tick, not only at the
   * initialized ones: `get_liquidity(tick)` is the total liquidity of the
   * positions with `tickLower <= tick < tickUpper`.
   */
  lemma LiquidityAtEveryTick(ts: TickState, ps: seq<Position>, tick: int)
    requires Represents(ts, ps)
    ensures WellKeyed(ts)
    ensures LiquidityOf(ts, tick) == ActiveLiquidity(ps, tick)
  {
    var s := ts.sortedTicks;
    BoundariesContain(ps);
    assert forall p <- ps :: p.tickLower in s && p.tickUpper in s;
    RangeLowerSpec(s, tick);
    match RangeLowerOf(s, tick)
    case None =>
      NoCoverageOutside(ps, s, tick);
    case Some(lower) =>
      SameCoverage(ps, s, lower, tick);
  }
}

/** The OHLCV accumulator (flink/jobs/flink_lib/logic.py, class OHLCVState), over real numbers. */
module Ohlcv {
  import opened Wrappers

  datatype Tick = Tick(mid: real, qty: real, tsMs: int)

  /** The fields of the accumulator. A high or low of None is the initial minus or plus infinity. */
  datatype State = State(open: real, high: Option<real>, low: Option<real>, close: real,
                         volume: real, vwapNumerator: real, tickCount: nat, firstTsMs: int, lastTsMs: int)

  const INITIAL := State(0.0, None, None, 0.0, 0.0, 0.0, 0, 0, 0)

  function Higher(a: Option<real>, b: Option<real>): Option<real> {
    if a.None? then b else if b.None? then a else if b.value > a.value then b else a
  }

  function Lower(a: Option<real>, b: Option<real>): Option<real> {
    if a.None? then b else if b.None? then a else if b.value < a.value then b else a
  }

  function Notional(t: Tick): real {
    t.mid * t.qty
  }

  function Next(s: State, t: Tick): State {
    State(if s.tickCount == 0 then t.mid else s.open,
          Higher(s.high, Some(t.mid)), Lower(s.low, Some(t.mid)), t.mid,
          s.volume + t.qty, s.vwapNumerator + Notional(t), s.tickCount + 1,
          if s.tickCount == 0 then t.tsMs else s.firstTsMs, Max(s.lastTsMs, t.tsMs))
  }

  function Fold(ticks: seq<Tick>): State {
    if ticks == [] then INITIAL else Next(Fold(ticks[..|ticks| - 1]), ticks[|ticks| - 1])
  }

  function Vwap(s: State): real {
    if s.volume > 0.0 then s.vwapNumerator / s.volume else s.close
  }

  class OHLCVState {
    var openPrice: real
    var highPrice: Option<real>
    var lowPrice: Option<real>
    var closePrice: real
    var volume: real
    var vwapNumerator: real
    var tickCount: nat
    var firstTsMs: int
    var lastTsMs: int

    function View(): State
      reads this
    {
      State(openPrice, highPrice, lowPrice, closePrice, volume, vwapNumerator, tickCount, firstTsMs, lastTsMs)
    }

    constructor ()
      ensures View() == INITIAL
    {
      openPrice, highPrice, lowPrice, closePrice := 0.0, None, None, 0.0;
      volume, vwapNumerator, tickCount, firstTsMs, lastTsMs := 0.0, 0.0, 0, 0, 0;
    }

    constructor FromTick(mid: real, qty: real, tsMs: int)
      ensures View() == Fold([Tick(mid, qty, tsMs)])
    {
      openPrice, highPrice, lowPrice, closePrice := 0.0, None, None, 0.0;
      volume, vwapNumerator, tickCount, firstTsMs, lastTsMs := 0.0, 0.0, 0, 0, 0;
      new;
      Update(mid, qty, tsMs);
      assert [Tick(mid, qty, tsMs)][..0] == [];
    }

    method Update(mid: real, qty: real, tsMs: int)
      modifies this
      ensures View() == Next(old(View()), Tick(mid, qty, tsMs))
    {
      if tickCount == 0 {
        openPrice := mid;
        firstTsMs := tsMs;
      }
      highPrice := if highPrice.None? || mid > highPrice.value then Some(mid) else highPrice;
      lowPrice := if lowPrice.None? || mid < lowPrice.value then Some(mid) else lowPrice;
      closePrice := mid;
      volume := volume + qty;
      vwapNumerator := vwapNumerator + mid * qty;
      tickCount := tickCount + 1;
      lastTsMs := if tsMs > lastTsMs then tsMs else lastTsMs;
    }
  }

  function SumQty(ticks: seq<Tick>): real {
    if ticks == [] then 0.0 else ticks[0].qty + SumQty(ticks[1..])
  }

  function SumNotional(ticks: seq<Tick>): real {
    if ticks == [] then 0.0 else Notional(ticks[0]) + SumNotional(ticks[1..])
  }

  /** The state of two accumulators over consecutive stretches of ticks, put together. */
  function Merge(a: State, b: State): State {
    if b.tickCount == 0 then a
    else if a.tickCount == 0 then b
    else State(a.open, Higher(a.high, b.high), Lower(a.low, b.low), b.close,
               a.volume + b.volume, a.vwapNumerator + b.vwapNumerator, a.tickCount + b.tickCount,
               a.firstTsMs, Max(a.lastTsMs, b.lastTsMs))
  }

  lemma {:induction false} CountIsLength(ticks: seq<Tick>)
    ensures Fold(ticks).tickCount == |ticks|
    ensures ticks != [] ==> Fold(ticks).high.Some? && Fold(ticks).low.Some?
    ensures Fold(ticks).lastTsMs >= 0
  {
    if ticks != [] {
      CountIsLength(ticks[..|ticks| - 1]);
    }
  }

  lemma {:induction false} MergeNext(a: State, b: State, t: Tick)
    requires a.lastTsMs >= 0 && (b.tickCount == 0 ==> b == INITIAL) && (a.tickCount == 0 ==> a == INITIAL)
    ensures Merge(a, Next(b, t)) == Next(Merge(a, b), t)
  {
  }

  /** The state after xs + ys is determined by the states after xs and after ys. */
  lemma {:induction false} FoldConcat(xs: seq<Tick>, ys: seq<Tick>)
    ensures Fold(xs + ys) == Merge(Fold(xs), Fold(ys))
  {
    CountIsLength(xs);
    if ys == [] {
      assert xs + ys == xs;
    } else {
      hide Next, Merge;
      var n := |ys| - 1;
      assert (xs + ys)[..|xs| + n] == xs + ys[..n];
      FoldConcat(xs, ys[..n]);
      CountIsLength(ys[..n]);
      MergeNext(Fold(xs), Fold(ys[..n]), ys[n]);
    }
  }

  lemma {:induction false} SumsConcat(xs: seq<Tick>, ys: seq<Tick>)
    ensures SumQty(xs + ys) == SumQty(xs) + SumQty(ys)
    ensures SumNotional(xs + ys) == SumNotional(xs) + SumNotional(ys)
  {
    if xs == [] {
      assert xs + ys == ys;
    } else {
      assert (xs + ys)[1..] == xs[1..] + ys;
      SumsConcat(xs[1..], ys);
    }
  }

  /** Open and close are the first and last mid, high and low the extremes, and the sums exact. */
  lemma {:induction false} FoldSummarizes(ticks: seq<Tick>)
    requires ticks != []
    ensures var s := Fold(ticks);
            s.open == ticks[0].mid && s.firstTsMs == ticks[0].tsMs && s.close == ticks[|ticks| - 1].mid
            && s.tickCount == |ticks|
            && s.volume == SumQty(ticks) && s.vwapNumerator == SumNotional(ticks)
  {
    var n := |ticks| - 1;
    CountIsLength(ticks[..n]);
    SumsConcat(ticks[..n], [ticks[n]]);
    assert ticks == ticks[..n] + [ticks[n]];
    if n > 0 {
      FoldSummarizes(ticks[..n]);
    }
  }

  /** High and low bound all mids and are attained; the last timestamp is the larger of 0 and the latest. */
  lemma {:induction false} FoldExtremes(ticks: seq<Tick>)
    requires ticks != []
    ensures var s := Fold(ticks);
            s.high.Some? && s.low.Some?
            && (forall i :: 0 <= i < |ticks| ==>
                  s.low.value <= ticks[i].mid <= s.high.value && ticks[i].tsMs <= s.lastTsMs)
            && (exists i :: 0 <= i < |ticks| && ticks[i].mid == s.high.value)
            && (exists i :: 0 <= i < |ticks| && ticks[i].mid == s.low.value)
            && s.lastTsMs >= 0 && (s.lastTsMs == 0 || exists i :: 0 <= i < |ticks| && ticks[i].tsMs == s.lastTsMs)
  {
    var n := |ticks| - 1;
    if n > 0 {
      var front := ticks[..n];
      FoldExtremes(front);
      var before, s := Fold(front), Fold(ticks);
      var h :| 0 <= h < |front| && front[h].mid == before.high.value;
      var l :| 0 <= l < |front| && front[l].mid == before.low.value;
      assert ticks[h].mid == before.high.value && ticks[l].mid == before.low.value;
      assert ticks[n].mid == s.high.value || ticks[h].mid == s.high.value;
      assert ticks[n].mid == s.low.value || ticks[l].mid == s.low.value;
      if t :| 0 <= t < |front| && front[t].tsMs == before.lastTsMs {
        assert ticks[t].tsMs == before.lastTsMs;
      }
      assert ticks[n].tsMs == s.lastTsMs || before.lastTsMs == s.lastTsMs;
      forall i | 0 <= i < |ticks|
        ensures s.low.value <= ticks[i].mid <= s.high.value && ticks[i].tsMs <= s.lastTsMs
      {
        if i < n { assert front[i] == ticks[i]; }
      }
    }
  }

  // ---- VWAP ----

  function Sum(xs: seq<real>): real {
    if xs == [] then 0.0 else xs[0] + Sum(xs[1..])
  }

  function Quantities(ticks: seq<Tick>): (xs: seq<real>)
    ensures |xs| == |ticks| && forall i :: 0 <= i < |xs| ==> xs[i] == ticks[i].qty
  {
    seq(|ticks|, i requires 0 <= i < |ticks| => ticks[i].qty)
  }

  function Products(ticks: seq<Tick>): (xs: seq<real>)
    ensures |xs| == |ticks| && forall i :: 0 <= i < |xs| ==> xs[i] == ticks[i].mid * ticks[i].qty
  {
    seq(|ticks|, i requires 0 <= i < |ticks| => ticks[i].mid * ticks[i].qty)
  }

  lemma {:induction false} SumsAreSums(ticks: seq<Tick>)
    ensures SumQty(ticks) == Sum(Quantities(ticks)) && SumNotional(ticks) == Sum(Products(ticks))
  {
    if ticks != [] {
      SumsAreSums(ticks[1..]);
      assert Quantities(ticks)[1..] == Quantities(ticks[1..]);
      forall i | 0 <= i < |ticks[1..]| ensures Products(ticks)[1..][i] == Products(ticks[1..])[i] {
        assert ticks[1..][i] == ticks[i + 1];
      }
      assert Products(ticks)[1..] == Products(ticks[1..]);
    }
  }

  lemma {:induction false} QuotientTimes(numerator: real, volume: real)
    requires volume > 0.0
    ensures numerator / volume * volume == numerator
  {
  }

  /** The VWAP is the mean of the mid prices weighted by the quantities, and without volume it is the last
      mid price. */
  lemma {:induction false} VwapIsWeightedMean(ticks: seq<Tick>)
    requires ticks != []
    ensures var volume, vwap := Sum(Quantities(ticks)), Vwap(Fold(ticks));
            if volume > 0.0 then vwap * volume == Sum(Products(ticks)) else vwap == ticks[|ticks| - 1].mid
  {
    FoldSummarizes(ticks);
    SumsAreSums(ticks);
    var s := Fold(ticks);
    if s.volume > 0.0 {
      QuotientTimes(s.vwapNumerator, s.volume);
    }
  }

  /** The invariant behind the VWAP bounds: the numerator lies between low and high times the volume. */
  ghost predicate Bounded(s: State) {
    && s.high.Some? && s.low.Some? && s.volume >= 0.0
    && s.low.value <= s.close <= s.high.value
    && s.low.value * s.volume <= s.vwapNumerator <= s.high.value * s.volume
  }

  lemma {:induction false} BoundedNext(s: State, t: Tick)
    requires s == INITIAL || Bounded(s)
    requires t.qty >= 0.0
    ensures Bounded(Next(s, t))
  {
  }

  lemma {:induction false} WeightedBounds(ticks: seq<Tick>)
    requires ticks != []
    requires forall i :: 0 <= i < |ticks| ==> ticks[i].qty >= 0.0
    ensures Bounded(Fold(ticks))
  {
    hide Bounded, Next;
    var n := |ticks| - 1;
    if n > 0 {
      WeightedBounds(ticks[..n]);
    } else {
      assert Fold(ticks[..n]) == INITIAL;
    }
    BoundedNext(Fold(ticks[..n]), ticks[n]);
  }

  lemma {:induction false} QuotientBetween(low: real, high: real, numerator: real, volume: real)
    requires volume > 0.0 && low * volume <= numerator <= high * volume
    ensures low <= numerator / volume <= high
  {
  }

  /** With non-negative quantities the VWAP lies between low and high, also when the volume is zero and
      the close price stands in for it. */
  lemma {:induction false} VwapBetweenLowAndHigh(ticks: seq<Tick>)
    requires ticks != []
    requires forall i :: 0 <= i < |ticks| ==> ticks[i].qty >= 0.0
    ensures var s := Fold(ticks);
            s.low.Some? && s.high.Some? && s.low.value <= Vwap(s) <= s.high.value
  {
    WeightedBounds(ticks);
    var s := Fold(ticks);
    if s.volume > 0.0 {
      QuotientBetween(s.low.value, s.high.value, s.vwapNumerator, s.volume);
    }
  }

  /** The fields that cannot see the order of the ticks. */
  ghost predicate SameUpToOrder(a: State, b: State) {
    && a.high == b.high && a.low == b.low && a.volume == b.volume
    && a.vwapNumerator == b.vwapNumerator && a.tickCount == b.tickCount && a.lastTsMs == b.lastTsMs
  }

  lemma {:induction false} MoveToEnd(ticks: seq<Tick>, i: nat)
    requires i < |ticks|
    ensures SameUpToOrder(Fold(ticks), Fold(ticks[..i] + ticks[i + 1..] + [ticks[i]]))
  {
    var a, x, b := ticks[..i], [ticks[i]], ticks[i + 1..];
    assert ticks == a + x + b;
    FoldConcat(a + x, b);
    FoldConcat(a, x);
    FoldConcat(a + b, x);
    FoldConcat(a, b);
    CountIsLength(a);
    CountIsLength(x);
    CountIsLength(b);
  }

  lemma {:induction false} SameNext(a: State, b: State, t: Tick)
    requires SameUpToOrder(a, b)
    ensures SameUpToOrder(Next(a, t), Next(b, t))
  {
  }

  lemma {:induction false} MatchLast(xs: seq<Tick>, ys: seq<Tick>) returns (i: nat)
    requires multiset(xs) == multiset(ys) && ys != []
    ensures i < |xs| && xs[i] == ys[|ys| - 1]
    ensures multiset(xs[..i] + xs[i + 1..]) == multiset(ys[..|ys| - 1])
  {
    var n := |ys| - 1;
    assert ys[n] in multiset(xs);
    i :| 0 <= i < |xs| && xs[i] == ys[n];
    assert xs == xs[..i] + [xs[i]] + xs[i + 1..];
    assert ys == ys[..n] + [ys[n]];
    assert multiset(xs[..i] + xs[i + 1..]) == multiset(xs) - multiset{xs[i]};
    assert multiset(ys[..n]) == multiset(ys) - multiset{ys[n]};
  }

  lemma {:induction false} ReorderKeeps(xs: seq<Tick>, ys: seq<Tick>)
    requires multiset(xs) == multiset(ys)
    ensures SameUpToOrder(Fold(xs), Fold(ys))
    decreases |ys|
  {
    if ys == [] {
      assert |multiset(xs)| == 0;
    } else {
      hide Next;
      var i := MatchLast(xs, ys);
      var rest := xs[..i] + xs[i + 1..];
      ReorderKeeps(rest, ys[..|ys| - 1]);
      MoveToEnd(xs, i);
      assert (rest + [xs[i]])[..|rest|] == rest;
      SameNext(Fold(rest), Fold(ys[..|ys| - 1]), xs[i]);
    }
  }

  /** Every field but open, close and first_ts is invariant under reordering the ticks, and so is the
      VWAP once there is volume. */
  lemma {:induction false} OrderOfTicksInvisible(xs: seq<Tick>, ys: seq<Tick>)
    requires multiset(xs) == multiset(ys)
    ensures SameUpToOrder(Fold(xs), Fold(ys))
    ensures Fold(xs).volume > 0.0 ==> Vwap(Fold(xs)) == Vwap(Fold(ys))
  {
    ReorderKeeps(xs, ys);
  }
}

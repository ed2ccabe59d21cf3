/**
 The chart refresh of the mining page (`updatePlot`): at most once a minute it
 walks back from the chain tip over at most 4032 blocks, writes each block's
 height and metric into fixed 4032-slot buffers from the last slot towards the
 first, and sets the horizontal range from the tip height.

 The chain is a sequence of blocks, genesis first and tip last; the predecessor of
 `chain[k]` is `chain[k - 1]`, and genesis has none. The two per-block metrics,
 the difficulty and the network hash rate at that height, come from outside and
 are carried by the blocks.
 */
module ChainPlot {

  const LookBack: nat := 4032

  /** Seconds that must pass between two redraws. */
  const RedrawInterval: int := 60

  datatype Block = Block(height: int, difficulty: real, netHashPS: int)

  datatype Metric = Difficulty | NetworkHashrate

  function MetricOf(m: Metric, b: Block): real {
    match m
    case Difficulty => b.difficulty
    case NetworkHashrate => b.netHashPS as real
  }

  /** A pair of plot buffers: heights and values, slot by slot. */
  datatype Series = Series(xs: seq<int>, ys: seq<real>)

  predicate WellSized(s: Series) {
    |s.xs| == |s.ys|
  }

  /**
   What the graph's axes show: the height range, and the largest plotted value; the
   value axis runs from zero to that value plus a tenth of it.
   */
  datatype Axes = Axes(xStart: int, xEnd: int, valueMax: real) {
    function YTop(): real {
      valueMax + valueMax / 10.0
    }
  }

  datatype PlotState = PlotState(
    lastUpdate: int,
    difficulty: Series,
    difficultyAxes: Axes,
    hashrate: Series,
    hashrateAxes: Axes)

  function Max(a: real, b: real): real {
    if a >= b then a else b
  }

  /** Growing or shrinking a buffer: kept elements stay, new ones are zero. */
  function Resize<T>(v: seq<T>, n: nat, zero: T): (r: seq<T>)
    ensures |r| == n
    ensures forall i :: 0 <= i < n && i < |v| ==> r[i] == v[i]
    ensures forall i :: |v| <= i < n ==> r[i] == zero
  {
    if |v| >= n then v[..n] else v + seq(n - |v|, _ => zero)
  }

  function ResizeSeries(s: Series): (r: Series)
    ensures |r.xs| == LookBack && |r.ys| == LookBack
  {
    Series(Resize(s.xs, LookBack, 0), Resize(s.ys, LookBack, 0.0))
  }

  /**
   The backward walk from slot `i` and block `k`: while both exist, slot `i` takes
   block `k`, and the walk moves one slot left and one block back. `top` is the
   largest value seen so far.
   */
  function WalkBack(chain: seq<Block>, m: Metric, i: int, k: int, s: Series, top: real): (r: (Series, real))
    requires -1 <= i < |s.xs| && WellSized(s)
    requires -1 <= k < |chain|
    ensures WellSized(r.0) && |r.0.xs| == |s.xs|
    // slot j takes block k - i + j when it lies in the walked stretch; any other slot is untouched
    ensures forall j :: 0 <= j < |s.xs| ==>
      if j <= i && k - i + j >= 0 then
        r.0.xs[j] == chain[k - i + j].height && r.0.ys[j] == MetricOf(m, chain[k - i + j])
      else
        r.0.xs[j] == s.xs[j] && r.0.ys[j] == s.ys[j]
    // the top is the maximum of the start value and every value walked over
    ensures top <= r.1
    ensures forall b :: 0 <= b <= k && k - b <= i ==> MetricOf(m, chain[b]) <= r.1
    ensures r.1 == top || exists b :: 0 <= b <= k && k - b <= i && r.1 == MetricOf(m, chain[b])
    decreases i + 1
  {
    if i < 0 || k < 0 then (s, top)
    else
      var b := chain[k];
      var v := MetricOf(m, b);
      WalkBack(chain, m, i - 1, k - 1, Series(s.xs[i := b.height], s.ys[i := v]), Max(top, v))
  }

  /** Slot `j` of the window is filled by a block exactly when the chain reaches back that far. */
  predicate Filled(chainLength: nat, j: int) {
    chainLength - LookBack + j >= 0
  }

  /** The buffers after a refresh: walked slots hold their block, the others what resizing left. */
  predicate Refreshed(chain: seq<Block>, m: Metric, before: Series, after: Series)
    requires |chain| >= 1
  {
    && |after.xs| == LookBack && |after.ys| == LookBack
    && (forall j :: 0 <= j < LookBack ==>
         if Filled(|chain|, j) then
           after.xs[j] == chain[|chain| - LookBack + j].height
           && after.ys[j] == MetricOf(m, chain[|chain| - LookBack + j])
         else
           after.xs[j] == ResizeSeries(before).xs[j] && after.ys[j] == ResizeSeries(before).ys[j])
  }

  /** `top` is the largest value in the walked window, or zero if all are below zero. */
  predicate IsWindowMax(chain: seq<Block>, m: Metric, top: real)
  {
    && 0.0 <= top
    && (forall b :: 0 <= b < |chain| && |chain| - b <= LookBack ==> MetricOf(m, chain[b]) <= top)
    && (top == 0.0 || exists b :: 0 <= b < |chain| && |chain| - b <= LookBack && top == MetricOf(m, chain[b]))
  }

  /** The value axis, from zero to `YTop`, reaches over every value written in this refresh. */
  predicate TopCoversWindow(chainLength: nat, s: Series, a: Axes)
    requires |s.ys| == LookBack
  {
    && 0.0 <= a.YTop()
    && forall j :: 0 <= j < LookBack && Filled(chainLength, j) ==> s.ys[j] <= a.YTop()
  }

  /** Refill one pair of buffers from the tip and find the largest value walked over. */
  function Redraw(chain: seq<Block>, m: Metric, before: Series): (r: (Series, real))
    requires |chain| >= 1
    ensures Refreshed(chain, m, before, r.0)
    ensures IsWindowMax(chain, m, r.1)
  {
    WalkBack(chain, m, LookBack - 1, |chain| - 1, ResizeSeries(before), 0.0)
  }

  /** The horizontal range: from one past `max(tip - 4032, 0)` up to the tip height. */
  function HeightRange(tipHeight: int): (r: (int, int))
    ensures r.1 == tipHeight
    ensures tipHeight >= LookBack ==> r.0 == tipHeight - LookBack + 1
    ensures tipHeight < LookBack ==> r.0 == 1
  {
    ((if tipHeight - LookBack > 0 then tipHeight - LookBack else 0) + 1, tipHeight)
  }

  /**
   One call of the chart refresh. `now` is the clock read for the rate check and
   `stamp` the clock read stored at the end; the chain is never empty, since its tip
   is looked up before anything else.
   */
  function UpdatePlot(p: PlotState, chain: seq<Block>, chartEnabled: bool, now: int, stamp: int): (r: PlotState)
    requires |chain| >= 1
    ensures !chartEnabled || now - p.lastUpdate < RedrawInterval ==> r == p
    ensures chartEnabled && now - p.lastUpdate >= RedrawInterval ==>
      && r.lastUpdate == stamp
      && Refreshed(chain, Difficulty, p.difficulty, r.difficulty)
      && Refreshed(chain, NetworkHashrate, p.hashrate, r.hashrate)
      && (r.difficultyAxes.xStart, r.difficultyAxes.xEnd) == HeightRange(chain[|chain| - 1].height)
      && (r.hashrateAxes.xStart, r.hashrateAxes.xEnd) == HeightRange(chain[|chain| - 1].height)
      && IsWindowMax(chain, Difficulty, r.difficultyAxes.valueMax)
      && IsWindowMax(chain, NetworkHashrate, r.hashrateAxes.valueMax)
      && TopCoversWindow(|chain|, r.difficulty, r.difficultyAxes)
      && TopCoversWindow(|chain|, r.hashrate, r.hashrateAxes)
  {
    if !chartEnabled || now - p.lastUpdate < RedrawInterval then p
    else
      var range := HeightRange(chain[|chain| - 1].height);
      var d := Redraw(chain, Difficulty, p.difficulty);
      var h := Redraw(chain, NetworkHashrate, p.hashrate);
      PlotState(stamp, d.0, Axes(range.0, range.1, d.1), h.0, Axes(range.0, range.1, h.1))
  }

  /** Two refreshes less than a minute apart after a redraw: the second changes nothing. */
  lemma RedrawAtMostOncePerMinute(p: PlotState, chain: seq<Block>, chain2: seq<Block>, now1: int, stamp1: int, now2: int, stamp2: int)
    requires |chain| >= 1 && |chain2| >= 1
    requires now1 - p.lastUpdate >= RedrawInterval && now2 - stamp1 < RedrawInterval
    ensures var p1 := UpdatePlot(p, chain, true, now1, stamp1);
      p1.lastUpdate == stamp1 && UpdatePlot(p1, chain2, true, now2, stamp2) == p1
  {
  }

  /** A chain of the usual shape: every block's height is its distance from genesis. */
  predicate HeightsAreIndices(chain: seq<Block>) {
    forall b :: 0 <= b < |chain| ==> chain[b].height == b
  }

  /**
   On such a chain the filled slots end at the tip height in the last slot and go
   down by one per slot to the left; exactly `min(|chain|, 4032)` slots are filled,
   the rightmost ones.
   */
  lemma RefreshedHeightsDescend(chain: seq<Block>, m: Metric, before: Series, after: Series)
    requires |chain| >= 1 && HeightsAreIndices(chain) && Refreshed(chain, m, before, after)
    ensures var tip := chain[|chain| - 1].height;
      forall j :: 0 <= j < LookBack && Filled(|chain|, j) ==> after.xs[j] == tip - (LookBack - 1 - j)
    ensures forall j :: 0 <= j < LookBack ==>
      (Filled(|chain|, j) <==> j >= LookBack - (if |chain| < LookBack then |chain| else LookBack))
  {
  }

  /**
   When the tip is at least 4032 high, every slot is filled and slot `j` holds the
   height `xStart + j`: the buffer covers the horizontal range exactly.
   */
  lemma LongChainFillsRange(chain: seq<Block>, m: Metric, before: Series, after: Series)
    requires |chain| >= 1 && HeightsAreIndices(chain) && Refreshed(chain, m, before, after)
    requires chain[|chain| - 1].height >= LookBack
    ensures var range := HeightRange(chain[|chain| - 1].height);
      forall j :: 0 <= j < LookBack ==> Filled(|chain|, j) && after.xs[j] == range.0 + j
    ensures after.xs[LookBack - 1] == HeightRange(chain[|chain| - 1].height).1
  {
  }

  /**
   On a chain shorter than the window only `|chain|` slots are filled; the slots to
   their left keep what the buffers held before (or zero where they were grown), and
   the genesis block lands left of the horizontal range, which starts at height one.
   */
  lemma ShortChainLeavesStaleSlots(chain: seq<Block>, m: Metric, before: Series, after: Series)
    requires |chain| >= 1 && |chain| < LookBack && HeightsAreIndices(chain)
    requires Refreshed(chain, m, before, after)
    requires |before.xs| == LookBack && |before.ys| == LookBack
    ensures forall j :: 0 <= j < LookBack - |chain| ==>
      after.xs[j] == before.xs[j] && after.ys[j] == before.ys[j]
    ensures after.xs[LookBack - |chain|] == 0 < HeightRange(chain[|chain| - 1].height).0
  {
  }
}

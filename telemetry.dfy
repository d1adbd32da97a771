/**
 * The telemetry averaging window of ErgFilePlot (performancePlot and reset
 * in src/Train/ErgFilePlot.cpp). While a workout runs and is not paused,
 * every telemetry tick is added to five running sums (power, heart rate,
 * cadence, speed and W'bal). Every 26th tick commits the mean of the window
 * to each channel's curve and starts a new window; a curve that is still
 * empty first gets a seed point at x = 0 carrying the same value.
 */
module Telemetry {

  import opened Wrappers
  import opened Curves

  /** The number of ticks averaged into one plotted point. */
  const Window: nat := 26

  /** One telemetry tick (or a sum or mean of ticks), one value per channel. */
  datatype Reading = Reading(watts: real, hr: real, cad: real, speed: real, wbal: real)

  const Zero := Reading(0.0, 0.0, 0.0, 0.0, 0.0)

  function Plus(a: Reading, b: Reading): Reading
  {
    Reading(a.watts + b.watts, a.hr + b.hr, a.cad + b.cad, a.speed + b.speed, a.wbal + b.wbal)
  }

  /** The mean of a full window, channel by channel. */
  function Mean(sum: Reading): Reading
  {
    var w := Window as real;
    Reading(sum.watts / w, sum.hr / w, sum.cad / w, sum.speed / w, sum.wbal / w)
  }

  /** The sum of a run of ticks. */
  function SumOf(ticks: seq<Reading>): Reading
  {
    if ticks == [] then Zero else Plus(SumOf(ticks[..|ticks| - 1]), ticks[|ticks| - 1])
  }

  /** The accumulator: the tick counter and the five running sums. */
  datatype Accum = Accum(counter: int, sums: Reading)

  /** mean is sum / 26 on every channel: 26 times each mean value gives back the sum. */
  predicate IsMeanOf(mean: Reading, sum: Reading)
  {
    var w := Window as real;
    && w * mean.watts == sum.watts && w * mean.hr == sum.hr && w * mean.cad == sum.cad
    && w * mean.speed == sum.speed && w * mean.wbal == sum.wbal
  }

  /**
   * One accepted tick: add it to the sums; on the 26th tick of the window
   * (counter already at 25) yield the window's mean and start over at zero.
   */
  function Tick(a: Accum, rt: Reading): (r: (Accum, Option<Reading>))
    ensures r.1.Some? <==> a.counter >= Window - 1
    ensures 0 <= a.counter < Window ==> 0 <= r.0.counter < Window
    ensures r.1.None? ==> r.0.counter == a.counter + 1 && r.0.sums == Plus(a.sums, rt)
    ensures r.1.Some? ==> r.0 == Accum(0, Zero) && IsMeanOf(r.1.value, Plus(a.sums, rt))
  {
    var sums := Plus(a.sums, rt);
    if a.counter < Window - 1 then (Accum(a.counter + 1, sums), None)
    else (Accum(0, Zero), Some(Mean(sums)))
  }

  /**
   * The accumulator and the committed means after a run of accepted ticks
   * following reset. The counter never leaves 0..25 and no more means are
   * committed than ticks were fed.
   */
  function Feed(ticks: seq<Reading>): (r: (Accum, seq<Reading>))
    ensures 0 <= r.0.counter < Window && |r.1| <= |ticks|
  {
    if ticks == [] then (Accum(0, Zero), [])
    else
      var (a, means) := Feed(ticks[..|ticks| - 1]);
      var (a', c) := Tick(a, ticks[|ticks| - 1]);
      (a', if c.Some? then means + [c.value] else means)
  }

  lemma SumOfSnoc(ticks: seq<Reading>, rt: Reading)
    ensures SumOf(ticks + [rt]) == Plus(SumOf(ticks), rt)
  {
    assert (ticks + [rt])[..|ticks|] == ticks;
  }

  /**
   * The accumulator and committed means after n accepted ticks from reset:
   * the counter is n % 26, exactly n / 26 means were committed, the k-th of
   * them is the mean of ticks 26k..26k+25, and the sums hold the ticks of
   * the unfinished window.
   */
  ghost predicate WindowsOf(ticks: seq<Reading>, a: Accum, means: seq<Reading>)
  {
    && a.counter == |ticks| % Window
    && |means| == |ticks| / Window
    && a.sums == SumOf(ticks[|ticks| - a.counter..])
    && forall k :: 0 <= k < |means| ==>
         means[k] == Mean(SumOf(ticks[Window * k..Window * k + Window]))
  }

  /** Counting one more tick within, or at the end of, a window. */
  lemma NextTickCount(n: nat)
    ensures n % Window < Window - 1 ==> (n + 1) % Window == n % Window + 1 && (n + 1) / Window == n / Window
    ensures n % Window == Window - 1 ==> (n + 1) % Window == 0 && (n + 1) / Window == n / Window + 1
  {
  }

  /** Adding a tick extends the pending sums. */
  lemma PendingSnoc(ticks: seq<Reading>, rt: Reading, a: Accum, means: seq<Reading>)
    requires WindowsOf(ticks, a, means)
    ensures Plus(a.sums, rt) == SumOf((ticks + [rt])[|ticks| - a.counter..])
  {
    var n := |ticks|;
    assert (ticks + [rt])[n - a.counter..] == ticks[n - a.counter..] + [rt];
    SumOfSnoc(ticks[n - a.counter..], rt);
  }

  /** Adding a tick leaves the first m closed windows as they were. */
  lemma ClosedWindowsKept(ticks: seq<Reading>, rt: Reading, m: nat)
    requires Window * m <= |ticks|
    ensures forall k :: 0 <= k < m ==>
      (ticks + [rt])[Window * k..Window * k + Window] == ticks[Window * k..Window * k + Window]
  {
    forall k | 0 <= k < m
      ensures (ticks + [rt])[Window * k..Window * k + Window] == ticks[Window * k..Window * k + Window]
    {
      assert Window * k + Window <= Window * m;
    }
  }

  /** A tick inside a window only advances the counter and the sums. */
  lemma TickWithinWindow(ticks: seq<Reading>, rt: Reading, a: Accum, means: seq<Reading>)
    requires WindowsOf(ticks, a, means) && a.counter < Window - 1
    ensures WindowsOf(ticks + [rt], Accum(a.counter + 1, Plus(a.sums, rt)), means)
  {
    NextTickCount(|ticks|);
    PendingSnoc(ticks, rt, a, means);
    ClosedWindowsKept(ticks, rt, |means|);
  }

  /** The 26th tick of a window commits the window's mean. */
  lemma TickClosesWindow(ticks: seq<Reading>, rt: Reading, a: Accum, means: seq<Reading>)
    requires WindowsOf(ticks, a, means) && a.counter == Window - 1
    ensures WindowsOf(ticks + [rt], Accum(0, Zero), means + [Mean(Plus(a.sums, rt))])
  {
    var n := |ticks|;
    var ticks' := ticks + [rt];
    NextTickCount(n);
    PendingSnoc(ticks, rt, a, means);
    ClosedWindowsKept(ticks, rt, |means|);
    var k := |means|;
    assert n - a.counter == Window * k && Window * k + Window == |ticks'|;
    assert ticks'[Window * k..Window * k + Window] == ticks'[n - a.counter..];
    assert ticks'[|ticks'| - 0..] == [];
  }

  /** One more accepted tick keeps the window bookkeeping. */
  lemma TickWindows(ticks: seq<Reading>, rt: Reading, a: Accum, means: seq<Reading>)
    requires WindowsOf(ticks, a, means)
    ensures var (a', c) := Tick(a, rt);
      WindowsOf(ticks + [rt], a', if c.Some? then means + [c.value] else means)
  {
    if a.counter < Window - 1 {
      TickWithinWindow(ticks, rt, a, means);
    } else {
      TickClosesWindow(ticks, rt, a, means);
    }
  }

  lemma {:induction false} FeedWindows(ticks: seq<Reading>)
    ensures WindowsOf(ticks, Feed(ticks).0, Feed(ticks).1)
  {
    if ticks != [] {
      var n := |ticks| - 1;
      var prefix := ticks[..n];
      assert prefix + [ticks[n]] == ticks;
      FeedWindows(prefix);
      FeedSnoc(prefix, ticks[n]);
      StepWindows(prefix, ticks[n], Feed(prefix).0, Feed(prefix).1, ticks, Feed(ticks));
    }
  }

  /** TickWindows with the extended run and its outcome passed in by name. */
  lemma StepWindows(ticks: seq<Reading>, rt: Reading, a: Accum, means: seq<Reading>,
                    ticks': seq<Reading>, r: (Accum, seq<Reading>))
    requires WindowsOf(ticks, a, means) && ticks' == ticks + [rt]
    requires var (a', c) := Tick(a, rt); r == (a', if c.Some? then means + [c.value] else means)
    ensures WindowsOf(ticks', r.0, r.1)
  {
    TickWindows(ticks, rt, a, means);
  }

  /** Feeding one more tick is one Tick step on what the shorter run left. */
  lemma FeedSnoc(ticks: seq<Reading>, rt: Reading)
    ensures var (a, c) := Tick(Feed(ticks).0, rt);
      Feed(ticks + [rt]) == (a, if c.Some? then Feed(ticks).1 + [c.value] else Feed(ticks).1)
  {
    assert (ticks + [rt])[..|ticks|] == ticks;
  }

  /** A window of 26 identical ticks commits exactly that reading and leaves nothing pending. */
  lemma ConstantWindow(ticks: seq<Reading>, v: Reading)
    requires |ticks| == Window && forall k :: 0 <= k < |ticks| ==> ticks[k] == v
    ensures Feed(ticks) == (Accum(0, Zero), [v])
  {
    FeedWindows(ticks);
    SumOfConstant(ticks, v);
    assert ticks[0..Window] == ticks;
    assert ticks[Window..] == [];
    var (a, means) := Feed(ticks);
    assert |means| == 1 && means[0] == Mean(SumOf(ticks));
    assert means[0] == v;
    assert means == [v];
    assert a.counter == 0 && a.sums == SumOf([]) == Zero;
    assert a == Accum(0, Zero);
  }

  lemma {:induction false} SumOfConstant(ticks: seq<Reading>, v: Reading)
    requires forall k :: 0 <= k < |ticks| ==> ticks[k] == v
    ensures var n := |ticks| as real;
      SumOf(ticks) == Reading(n * v.watts, n * v.hr, n * v.cad, n * v.speed, n * v.wbal)
  {
    if ticks != [] {
      SumOfConstant(ticks[..|ticks| - 1], v);
    }
  }

  /** A curve (one coordinate of it) after one commit: seeded first when it was empty. */
  function Committed(s: seq<real>, seed: real, v: real): seq<real>
  {
    s + (if s == [] then [seed] else []) + [v]
  }

  /**
   * The y values of a curve after committing means one by one from empty
   * (each commit seeds an empty curve with the value itself).
   */
  function CommitAll(means: seq<real>): seq<real>
  {
    if means == [] then []
    else
      var v := means[|means| - 1];
      Committed(CommitAll(means[..|means| - 1]), v, v)
  }

  /** The x coordinates of a curve after committing at the given positions from empty (seeded with 0). */
  function CommitAllAt(xs: seq<real>): seq<real>
  {
    if xs == [] then [] else Committed(CommitAllAt(xs[..|xs| - 1]), 0.0, xs[|xs| - 1])
  }

  /** The first commit puts two points (the seed and the mean), every later one adds one. */
  lemma {:induction false} CommitAllSeeded(means: seq<real>)
    ensures CommitAll(means) == if means == [] then [] else [means[0]] + means
  {
    if |means| > 1 {
      var prefix := means[..|means| - 1];
      CommitAllSeeded(prefix);
      assert prefix[0] == means[0];
      assert prefix + [means[|means| - 1]] == means;
    }
  }

  /** The x coordinates start with the seed 0 followed by every commit position. */
  lemma {:induction false} CommitAllAtSeeded(xs: seq<real>)
    ensures CommitAllAt(xs) == if xs == [] then [] else [0.0] + xs
  {
    if |xs| > 1 {
      var prefix := xs[..|xs| - 1];
      CommitAllAtSeeded(prefix);
      assert prefix + [xs[|xs| - 1]] == xs;
    }
  }

  /** One series commit at the call site: seed an empty curve at x = 0, then append (x, v). */
  method AppendPoint(data: CurveData, x: real, v: real)
    requires data.Valid()
    modifies data
    ensures data.Valid()
    ensures data.Xs() == Committed(old(data.Xs()), 0.0, x)
    ensures data.Ys() == Committed(old(data.Ys()), v, v)
  {
    if data.Count() == 0 {
      data.Append([0.0], [v], 1);
    }
    data.Append([x], [v], 1);
  }

  /** The plot's live telemetry state: the window accumulator and one curve per channel. */
  class ErgFilePlot {

    var counter: int
    var wattssum: real
    var hrsum: real
    var cadsum: real
    var speedsum: real
    var wbalsum: real

    const wattsData: CurveData
    const hrData: CurveData
    const cadData: CurveData
    const speedData: CurveData
    const wbalData: CurveData

    /** The accumulator held in the counter and the five sum fields. */
    function State(): Accum
      reads this
    {
      Accum(counter, Reading(wattssum, hrsum, cadsum, speedsum, wbalsum))
    }

    /** The counter stays within one window, and the five curves are distinct, valid buffers. */
    ghost predicate Valid()
      reads this, wattsData, hrData, cadData, speedData, wbalData
    {
      && 0 <= counter < Window
      && wattsData != hrData && wattsData != cadData && wattsData != speedData && wattsData != wbalData
      && hrData != cadData && hrData != speedData && hrData != wbalData
      && cadData != speedData && cadData != wbalData
      && speedData != wbalData
      && wattsData.Valid() && hrData.Valid() && cadData.Valid() && speedData.Valid() && wbalData.Valid()
    }

    constructor ()
      ensures Valid() && State() == Accum(0, Zero)
      ensures fresh(wattsData) && fresh(hrData) && fresh(cadData) && fresh(speedData) && fresh(wbalData)
      ensures wattsData.Count() == hrData.Count() == cadData.Count() == speedData.Count() == wbalData.Count() == 0
    {
      counter, wattssum, hrsum, cadsum, speedsum, wbalsum := 0, 0.0, 0.0, 0.0, 0.0, 0.0;
      wattsData := new CurveData();
      hrData := new CurveData();
      cadData := new CurveData();
      speedData := new CurveData();
      wbalData := new CurveData();
    }

    /**
     * One telemetry tick at plot position x. Ignored entirely unless the
     * workout is running and not paused. Otherwise the tick is accumulated;
     * on the 26th tick of the window each curve gets the window's mean at x
     * (after a seed point at x = 0 if it was empty), and the accumulator
     * starts over.
     */
    method PerformancePlot(isRunning: bool, isPaused: bool, x: real, rt: Reading)
      requires Valid()
      modifies this, wattsData, hrData, cadData, speedData, wbalData
      ensures Valid()
      ensures !isRunning || isPaused ==>
        unchanged(this, wattsData, hrData, cadData, speedData, wbalData)
      ensures isRunning && !isPaused ==> State() == Tick(old(State()), rt).0
      ensures isRunning && !isPaused && Tick(old(State()), rt).1.None? ==>
        unchanged(wattsData, hrData, cadData, speedData, wbalData)
      ensures isRunning && !isPaused && Tick(old(State()), rt).1.Some? ==>
        var mean := Tick(old(State()), rt).1.value;
        && wattsData.Xs() == Committed(old(wattsData.Xs()), 0.0, x)
        && wattsData.Ys() == Committed(old(wattsData.Ys()), mean.watts, mean.watts)
        && hrData.Xs() == Committed(old(hrData.Xs()), 0.0, x)
        && hrData.Ys() == Committed(old(hrData.Ys()), mean.hr, mean.hr)
        && speedData.Xs() == Committed(old(speedData.Xs()), 0.0, x)
        && speedData.Ys() == Committed(old(speedData.Ys()), mean.speed, mean.speed)
        && cadData.Xs() == Committed(old(cadData.Xs()), 0.0, x)
        && cadData.Ys() == Committed(old(cadData.Ys()), mean.cad, mean.cad)
        && wbalData.Xs() == Committed(old(wbalData.Xs()), 0.0, x)
        && wbalData.Ys() == Committed(old(wbalData.Ys()), mean.wbal, mean.wbal)
    {
      if !isRunning || isPaused {
        return;
      }

      ghost var step := Tick(State(), rt);
      var watts, speed, cad, hr, wbal := rt.watts, rt.speed, rt.cad, rt.hr, rt.wbal;

      wattssum := wattssum + watts;
      hrsum := hrsum + hr;
      cadsum := cadsum + cad;
      speedsum := speedsum + speed;
      wbalsum := wbalsum + wbal;

      if counter < 25 {
        counter := counter + 1;
        assert step == (State(), None);
        return;
      } else {
        watts := wattssum / 26.0;
        hr := hrsum / 26.0;
        cad := cadsum / 26.0;
        speed := speedsum / 26.0;
        wbal := wbalsum / 26.0;
        counter := 0;
        wbalsum, wattssum, hrsum, cadsum, speedsum := 0.0, 0.0, 0.0, 0.0, 0.0;
      }
      assert step == (State(), Some(Reading(watts, hr, cad, speed, wbal)));

      CommitMeans(x, Reading(watts, hr, cad, speed, wbal));
    }

    /** Appends one averaged point to each of the five curves, in the order the plot does it. */
    method CommitMeans(x: real, mean: Reading)
      requires Valid()
      modifies wattsData, hrData, cadData, speedData, wbalData
      ensures Valid()
      ensures wattsData.Xs() == Committed(old(wattsData.Xs()), 0.0, x)
      ensures wattsData.Ys() == Committed(old(wattsData.Ys()), mean.watts, mean.watts)
      ensures hrData.Xs() == Committed(old(hrData.Xs()), 0.0, x)
      ensures hrData.Ys() == Committed(old(hrData.Ys()), mean.hr, mean.hr)
      ensures speedData.Xs() == Committed(old(speedData.Xs()), 0.0, x)
      ensures speedData.Ys() == Committed(old(speedData.Ys()), mean.speed, mean.speed)
      ensures cadData.Xs() == Committed(old(cadData.Xs()), 0.0, x)
      ensures cadData.Ys() == Committed(old(cadData.Ys()), mean.cad, mean.cad)
      ensures wbalData.Xs() == Committed(old(wbalData.Xs()), 0.0, x)
      ensures wbalData.Ys() == Committed(old(wbalData.Ys()), mean.wbal, mean.wbal)
    {
      AppendPoint(wattsData, x, mean.watts);
      AppendPoint(hrData, x, mean.hr);
      AppendPoint(speedData, x, mean.speed);
      AppendPoint(cadData, x, mean.cad);
      AppendPoint(wbalData, x, mean.wbal);
    }

    /** Zeroes the counter and the sums and clears every curve. */
    method Reset()
      requires Valid()
      modifies this, wattsData, hrData, cadData, speedData, wbalData
      ensures Valid() && State() == Accum(0, Zero)
      ensures wattsData.Count() == hrData.Count() == cadData.Count() == speedData.Count() == wbalData.Count() == 0
      ensures wattsData.Size() == hrData.Size() == cadData.Size() == speedData.Size() == wbalData.Size() == 0
    {
      counter, wbalsum, hrsum, wattssum, speedsum, cadsum := 0, 0.0, 0.0, 0.0, 0.0, 0.0;
      wattsData.Clear();
      wbalData.Clear();
      cadData.Clear();
      hrData.Clear();
      speedData.Clear();
    }
  }
}

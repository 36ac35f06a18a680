/** The figure the viewer draws for a loaded recording: three line traces,
    one per axis, plotted at every 25th sample, and one translucent band per
    saved interval that is shown. Colours, opacity, the vertical extent and
    the layer of the bands are rendering detail and are not modelled; a band
    is its kind, its position in its list (the shape's name) and its bounds. */
module Figures {
  import opened Wrappers
  import opened Intervals
  import opened Recording

  /** Only every DECIMATION_FACTOR-th sample is plotted. */
  const DECIMATION_FACTOR: nat := 25

  /** The samples at positions 0, 25, 50, ... (`iloc[::25]`). */
  function Decimate<T>(s: seq<T>): (r: seq<T>)
    ensures |r| == (|s| + DECIMATION_FACTOR - 1) / DECIMATION_FACTOR
    ensures forall i :: 0 <= i < |r| ==> i * DECIMATION_FACTOR < |s| && r[i] == s[i * DECIMATION_FACTOR]
    decreases |s|
  {
    if |s| == 0 then []
    else
      var rest := s[if |s| < DECIMATION_FACTOR then |s| else DECIMATION_FACTOR..];
      [s[0]] + Decimate(rest)
  }

  /** There are ceil(N / 25) plotted points. */
  lemma DecimateCount<T>(s: seq<T>)
    ensures |s| <= |Decimate(s)| * DECIMATION_FACTOR < |s| + DECIMATION_FACTOR
  {
  }

  /** Every position that is a multiple of 25 is plotted, at place j / 25. */
  lemma DecimateKeepsMultiples<T>(s: seq<T>, j: nat)
    requires j < |s| && j % DECIMATION_FACTOR == 0
    ensures j / DECIMATION_FACTOR < |Decimate(s)| && Decimate(s)[j / DECIMATION_FACTOR] == s[j]
  {
  }

  datatype Kind = RegionBand | LabelBand

  /** A band drawn for the interval at position `index` of its list. */
  datatype Shape = Shape(kind: Kind, index: nat, interval: Interval)

  datatype Trace = Trace(times: seq<int>, values: seq<real>)

  datatype Figure = Figure(x: Trace, y: Trace, z: Trace, shapes: seq<Shape>)

  function Max(a: int, b: int): int { if a < b then b else a }
  function Min(a: int, b: int): int { if a < b then a else b }

  /** The interval meets the recording's span `[first, last]`: for proper
      intervals, the two closed ranges share a point. */
  predicate Overlaps(iv: Interval, first: int, last: int)
    ensures iv.start <= iv.end && first <= last ==>
      (Overlaps(iv, first, last) <==> Max(iv.start, first) <= Min(iv.end, last))
  {
    !(iv.end < first || iv.start > last)
  }

  /** Whether an interval gets a band: always, unless the view is
      restricted to the current recording and the interval misses it. */
  predicate Drawn(iv: Interval, restrict: bool, first: int, last: int)
    ensures !restrict ==> Drawn(iv, restrict, first, last)
    ensures restrict && iv.start <= iv.end && first <= last ==>
      (Drawn(iv, restrict, first, last) <==> Max(iv.start, first) <= Min(iv.end, last))
  {
    !restrict || Overlaps(iv, first, last)
  }

  /** The bands for one list of intervals, in stored order. */
  function Overlays(kind: Kind, ivs: seq<Interval>, restrict: bool, first: int, last: int): (r: seq<Shape>)
    ensures |r| <= |ivs|
    ensures forall n :: 0 <= n < |r| ==>
      && r[n].kind == kind && r[n].index < |ivs| && r[n].interval == ivs[r[n].index]
      && Drawn(r[n].interval, restrict, first, last)
    ensures forall n, m :: 0 <= n < m < |r| ==> r[n].index < r[m].index
    decreases |ivs|
  {
    if |ivs| == 0 then []
    else
      var n := |ivs| - 1;
      Overlays(kind, ivs[..n], restrict, first, last)
        + (if Drawn(ivs[n], restrict, first, last) then [Shape(kind, n, ivs[n])] else [])
  }

  /** The loop that adds one band per drawn interval of a list. */
  method DrawBands(kind: Kind, ivs: seq<Interval>, restrict: bool, first: int, last: int) returns (shapes: seq<Shape>)
    ensures shapes == Overlays(kind, ivs, restrict, first, last)
  {
    shapes := [];
    for i := 0 to |ivs|
      invariant shapes == Overlays(kind, ivs[..i], restrict, first, last)
    {
      if !restrict || Overlaps(ivs[i], first, last) {
        shapes := shapes + [Shape(kind, i, ivs[i])];
      }
      assert ivs[..i + 1][..i] == ivs[..i];
    }
    assert ivs[..|ivs|] == ivs;
  }

  /** Every interval that should be drawn has its band. */
  lemma {:induction false} OverlaysComplete(kind: Kind, ivs: seq<Interval>, restrict: bool, first: int, last: int)
    ensures forall j :: 0 <= j < |ivs| && Drawn(ivs[j], restrict, first, last) ==>
      Shape(kind, j, ivs[j]) in Overlays(kind, ivs, restrict, first, last)
  {
    if |ivs| > 0 {
      var n := |ivs| - 1;
      OverlaysComplete(kind, ivs[..n], restrict, first, last);
      forall j | 0 <= j < n && Drawn(ivs[j], restrict, first, last)
        ensures Shape(kind, j, ivs[j]) in Overlays(kind, ivs, restrict, first, last)
      {
        assert ivs[..n][j] == ivs[j];
      }
    }
  }

  /** With the view unrestricted, every interval gets a band, in order. */
  lemma {:induction false} OverlaysUnrestricted(kind: Kind, ivs: seq<Interval>, first: int, last: int)
    ensures Overlays(kind, ivs, false, first, last) == seq(|ivs|, i requires 0 <= i < |ivs| => Shape(kind, i, ivs[i]))
  {
    if |ivs| > 0 {
      var n := |ivs| - 1;
      OverlaysUnrestricted(kind, ivs[..n], first, last);
    }
  }

  /** The figure for a recording's columns and the saved intervals, where
      `datetimes` says whether the timestamp column was converted to
      datetimes. The restricted view compares every saved bound with the
      first and last timestamp: that fails on an empty recording, and on a
      column never converted, which a datetime bound cannot be compared with.
      Neither happens when the view is unrestricted or nothing is saved. */
  function FigureOf(ts: seq<int>, datetimes: bool, xs: seq<real>, ys: seq<real>, zs: seq<real>,
                    regions: seq<Interval>, labels: seq<Interval>, restrict: bool): (r: Result<Figure, Error>)
    ensures r.Failure? <==> restrict && (|regions| > 0 || |labels| > 0) && (|ts| == 0 || !datetimes)
    ensures r.Failure? ==> r.error == if |ts| == 0 then NoSamples else NotComparable
  {
    if restrict && (|regions| > 0 || |labels| > 0) && |ts| == 0 then Failure(NoSamples)
    else if restrict && (|regions| > 0 || |labels| > 0) && !datetimes then Failure(NotComparable)
    else
      var first := if |ts| > 0 then ts[0] else 0;
      var last := if |ts| > 0 then ts[|ts| - 1] else 0;
      var times := Decimate(ts);
      Success(Figure(Trace(times, Decimate(xs)), Trace(times, Decimate(ys)), Trace(times, Decimate(zs)),
                     Overlays(RegionBand, regions, restrict, first, last)
                       + Overlays(LabelBand, labels, restrict, first, last)))
  }

  /** The three traces are plotted at the same sample positions 0, 25, 50, ... */
  lemma FigureTraces(ts: seq<int>, datetimes: bool, xs: seq<real>, ys: seq<real>, zs: seq<real>,
                     regions: seq<Interval>, labels: seq<Interval>, restrict: bool)
    requires |xs| == |ts| && |ys| == |ts| && |zs| == |ts|
    requires FigureOf(ts, datetimes, xs, ys, zs, regions, labels, restrict).Success?
    ensures var f := FigureOf(ts, datetimes, xs, ys, zs, regions, labels, restrict).value;
      && f.x.times == f.y.times == f.z.times
      && |f.x.times| == |f.x.values| == |f.y.values| == |f.z.values| == (|ts| + DECIMATION_FACTOR - 1) / DECIMATION_FACTOR
      && forall i :: 0 <= i < |f.x.times| ==>
           && f.x.times[i] == ts[i * DECIMATION_FACTOR]
           && f.x.values[i] == xs[i * DECIMATION_FACTOR]
           && f.y.values[i] == ys[i * DECIMATION_FACTOR]
           && f.z.values[i] == zs[i * DECIMATION_FACTOR]
  {
  }

  /** The bands are the drawn regions in stored order followed by the drawn
      labels in stored order; with the view restricted an interval is drawn
      exactly when it meets the recording's span, otherwise every one is. */
  lemma FigureShapes(ts: seq<int>, datetimes: bool, xs: seq<real>, ys: seq<real>, zs: seq<real>,
                     regions: seq<Interval>, labels: seq<Interval>, restrict: bool)
    requires FigureOf(ts, datetimes, xs, ys, zs, regions, labels, restrict).Success?
    requires |ts| > 0
    ensures var shapes := FigureOf(ts, datetimes, xs, ys, zs, regions, labels, restrict).value.shapes;
      && (forall j :: 0 <= j < |regions| ==>
            (Shape(RegionBand, j, regions[j]) in shapes <==> !restrict || Overlaps(regions[j], ts[0], ts[|ts| - 1])))
      && (forall j :: 0 <= j < |labels| ==>
            (Shape(LabelBand, j, labels[j]) in shapes <==> !restrict || Overlaps(labels[j], ts[0], ts[|ts| - 1])))
      && (forall n, m :: 0 <= n < m < |shapes| && shapes[m].kind == RegionBand ==> shapes[n].kind == RegionBand)
  {
    var first, last := ts[0], ts[|ts| - 1];
    var rs := Overlays(RegionBand, regions, restrict, first, last);
    var ls := Overlays(LabelBand, labels, restrict, first, last);
    OverlaysComplete(RegionBand, regions, restrict, first, last);
    OverlaysComplete(LabelBand, labels, restrict, first, last);
    var shapes := rs + ls;
    assert forall n :: 0 <= n < |shapes| ==> shapes[n] == if n < |rs| then rs[n] else ls[n - |rs|];
  }

  /** A restricted view hides an interval that ends before the recording
      starts: for a recording spanning [1000, 2000], the interval
      [500, 900] gets no band when restricted and a band when not. */
  lemma HiddenBeforeRecording()
    ensures var ts := [1000, 1500, 2000];
      var regions := [Interval(500, 900)];
      && FigureOf(ts, true, [0.0, 0.0, 0.0], [0.0, 0.0, 0.0], [0.0, 0.0, 0.0], regions, [], true).value.shapes == []
      && FigureOf(ts, true, [0.0, 0.0, 0.0], [0.0, 0.0, 0.0], [0.0, 0.0, 0.0], regions, [], false).value.shapes
           == [Shape(RegionBand, 0, Interval(500, 900))]
  {
  }
}

/** The legend both views draw beside the heat map: a vertical linear gradient whose
    stops sample the colour scale evenly over the metric's range. The colours
    themselves come from d3's interpolators and are not modelled; the stops'
    offsets and the values handed to the colour scale are. */
module Legend {
  import opened Options
  import opened Stats

  /** `numStops`: the gradient is cut into ten intervals, so it has eleven stops. */
  const Intervals: nat := 10

  /** The temperature a view shows: `"max_temperature"` or `"min_temperature"`. */
  datatype Metric = MaxTemperature | MinTemperature

  /** One `<stop>`: its offset along the bar (0 at the bottom, 1 at the top) and the
      temperature whose colour it takes. */
  datatype Stop = Stop(offset: real, value: real)

  /** The temperature at `offset` along a range: `lo + offset * (hi - lo)`. */
  function Lerp(lo: real, hi: real, offset: real): real {
    lo + offset * (hi - lo)
  }

  /** The stops for `i = 0, ..., 10`: offset `i / 10`, value `lo + offset * (hi - lo)`. */
  function GradientStops(r: Range): (stops: seq<Stop>)
    ensures |stops| == Intervals + 1
    ensures stops[0] == Stop(0.0, r.lo)
    ensures stops[Intervals] == Stop(1.0, r.hi)
    ensures forall i :: 0 <= i < Intervals ==>
      && stops[i + 1].offset - stops[i].offset == 1.0 / Intervals as real
      && stops[i + 1].value - stops[i].value == (r.hi - r.lo) / Intervals as real
  {
    seq(Intervals + 1, i requires 0 <= i <= Intervals =>
      var offset := i as real / Intervals as real;
      assert 0.0 <= offset <= 1.0;
      Stop(offset, Lerp(r.lo, r.hi, offset)))
  }

  lemma Interpolate(lo: real, hi: real, o1: real, o2: real)
    requires lo <= hi && 0.0 <= o1 <= o2 <= 1.0
    ensures lo <= Lerp(lo, hi, o1) <= Lerp(lo, hi, o2) <= hi
  {
    var d := hi - lo;
    assert (o2 - o1) * d >= 0.0;
    assert (1.0 - o2) * d >= 0.0;
    assert o1 * d >= 0.0;
  }

  /** The `i`-th stop, spelled out. */
  lemma StopAt(r: Range, i: int)
    requires 0 <= i <= Intervals
    ensures GradientStops(r)[i].offset == i as real / 10.0
    ensures GradientStops(r)[i].value == Lerp(r.lo, r.hi, i as real / 10.0)
  {
  }

  /** Over an ordered range the stop values climb from `lo` to `hi` without
      leaving the range. */
  lemma StopsAscend(r: Range)
    requires r.lo <= r.hi
    ensures forall i, j :: 0 <= i <= j <= Intervals ==> GradientStops(r)[i].value <= GradientStops(r)[j].value
    ensures forall i :: 0 <= i <= Intervals ==> r.lo <= GradientStops(r)[i].value <= r.hi
  {
    forall i, j | 0 <= i <= j <= Intervals
      ensures r.lo <= GradientStops(r)[i].value <= GradientStops(r)[j].value <= r.hi
    {
      TwoStops(r, i, j);
    }
  }

  lemma TwoStops(r: Range, i: int, j: int)
    requires r.lo <= r.hi && 0 <= i <= j <= Intervals
    ensures r.lo <= GradientStops(r)[i].value <= GradientStops(r)[j].value <= r.hi
  {
    var oi, oj := i as real / 10.0, j as real / 10.0;
    assert 0.0 <= oi <= oj <= 1.0;
    StopAt(r, i);
    StopAt(r, j);
    Interpolate(r.lo, r.hi, oi, oj);
  }

  lemma Uninterpolate(lo: real, hi: real, o: real)
    requires lo < hi
    ensures (Lerp(lo, hi, o) - lo) / (hi - lo) == o
  {
    var d := hi - lo;
    assert (lo + o * d) - lo == o * d;
  }

  /** Reading a stop's value back through the legend axis (the linear scale from
      `[lo, hi]` onto the bar) gives the stop's offset. */
  lemma StopsLieOnLegendAxis(r: Range)
    requires r.lo < r.hi
    ensures forall i :: 0 <= i <= Intervals ==>
      (GradientStops(r)[i].value - r.lo) / (r.hi - r.lo) == GradientStops(r)[i].offset
  {
    var stops := GradientStops(r);
    forall i | 0 <= i <= Intervals
      ensures (stops[i].value - r.lo) / (r.hi - r.lo) == stops[i].offset
    {
      StopAt(r, i);
      Uninterpolate(r.lo, r.hi, i as real / 10.0);
    }
  }

  /** The legend's stops over `tempRange`; with no data there is no range, and the
      stops (whose values JavaScript would compute as NaN) are not modelled. */
  function LegendStops(range: Option<Range>): (stops: Option<seq<Stop>>)
    ensures stops.Some? <==> range.Some?
    ensures stops.Some? ==> |stops.value| == Intervals + 1
    ensures stops.Some? ==> stops.value[0].value == range.value.lo && stops.value[Intervals].value == range.value.hi
    ensures stops.Some? && range.value.lo <= range.value.hi ==>
      forall i :: 0 <= i <= Intervals ==> range.value.lo <= stops.value[i].value <= range.value.hi
  {
    match range
    case None => None
    case Some(r) =>
      if r.lo <= r.hi then
        StopsAscend(r);
        Some(GradientStops(r))
      else
        Some(GradientStops(r))
  }
}

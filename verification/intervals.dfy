/** The affine map that turns a normalized fractal series into the gap
    durations (in seconds) between successive pulses: every value v becomes
    0.2 + v * 0.4, so the unit interval lands on [0.2, 0.6].
 */
module IntervalMap {

  /** Shortest gap, in seconds: the image of a normalized 0. */
  const Base: real := 0.2
  /** Spread of the gaps, in seconds: a normalized 1 lands on Base + Spread. */
  const Spread: real := 0.4

  /** True when every element of `s` lies in the closed interval [lo, hi]. */
  predicate AllWithin(s: seq<real>, lo: real, hi: real) {
    forall i :: 0 <= i < |s| ==> lo <= s[i] <= hi
  }

  /** The gap durations of a run, one per value of the raw series. */
  function ScaleIntervals(raw: seq<real>): (gaps: seq<real>)
    ensures |gaps| == |raw|
    ensures forall i :: 0 <= i < |raw| ==> (0.0 <= raw[i] <= 1.0 <==> Base <= gaps[i] <= Base + Spread)
    ensures forall i, j :: 0 <= i < |raw| && 0 <= j < |raw| ==> (raw[i] <= raw[j] <==> gaps[i] <= gaps[j])
    ensures forall i, j :: 0 <= i < |raw| && 0 <= j < |raw| ==> (raw[i] == raw[j] <==> gaps[i] == gaps[j])
  {
    seq(|raw|, i requires 0 <= i < |raw| => Base + raw[i] * Spread)
  }

  /** The inverse of the affine map: recovers the normalized value of a gap. */
  function UnscaleIntervals(gaps: seq<real>): (raw: seq<real>)
    ensures |raw| == |gaps|
  {
    seq(|gaps|, i requires 0 <= i < |gaps| => (gaps[i] - Base) / Spread)
  }

  /** The map loses nothing: the raw series is recovered from the gaps. */
  lemma ScaleRoundTrip(raw: seq<real>)
    ensures UnscaleIntervals(ScaleIntervals(raw)) == raw
  {
    var back := UnscaleIntervals(ScaleIntervals(raw));
    forall i | 0 <= i < |raw|
      ensures back[i] == raw[i]
    {
      assert ScaleIntervals(raw)[i] - Base == raw[i] * Spread;
    }
  }

  /** A normalized series (every value in [0, 1]) yields gaps in [0.2, 0.6],
      which in particular are all strictly positive. */
  lemma ScaleNormalizedIsPositive(raw: seq<real>)
    requires AllWithin(raw, 0.0, 1.0)
    ensures AllWithin(ScaleIntervals(raw), Base, Base + Spread)
    ensures forall i :: 0 <= i < |raw| ==> ScaleIntervals(raw)[i] > 0.0
  {
  }
}

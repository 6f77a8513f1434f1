/**
 The alert decision of `main` (wind_alert.py lines 118-133): compare the series
 read after advancing the page to the one read before, and alert when the
 largest value of a fresh series is strictly above the threshold.
 */
module Decision {

  /** `THRESHOLD`, in knots. */
  const Threshold: real := 10.0

  datatype Verdict =
    | NoData              // nothing new was read: empty, or the same as before
    | Calm(peak: real)    // a fresh series whose largest value is at most the threshold
    | Alert(peak: real)   // a fresh series whose largest value is above the threshold

  /**
   Python's `max` over a list, scanning left to right and replacing the running
   maximum only by a strictly larger value.
   */
  function MaxFrom(current: real, rest: seq<real>): (m: real)
    ensures m == current || m in rest
    ensures current <= m
    ensures forall i :: 0 <= i < |rest| ==> rest[i] <= m
    decreases |rest|
  {
    if |rest| == 0 then current
    else MaxFrom(if rest[0] > current then rest[0] else current, rest[1..])
  }

  function SeriesMax(s: seq<real>): (m: real)
    requires |s| > 0
    ensures m in s
    ensures forall i :: 0 <= i < |s| ==> s[i] <= m
  {
    MaxFrom(s[0], s[1..])
  }

  /**
   No verdict is drawn from an empty or unchanged series; otherwise the peak is
   the maximum of the new series, and the alert is raised exactly when some value
   of it is strictly above the threshold (a value equal to it does not alert).
   */
  function Decide(before: seq<real>, after: seq<real>, threshold: real): (v: Verdict)
    ensures v.NoData? <==> |after| == 0 || after == before
    ensures !v.NoData? ==> v.peak in after && forall i :: 0 <= i < |after| ==> after[i] <= v.peak
    ensures v.Alert? ==> v.peak > threshold
    ensures v.Calm? ==> v.peak <= threshold
    ensures v.Alert? <==> |after| > 0 && after != before && exists i :: 0 <= i < |after| && after[i] > threshold
  {
    if |after| == 0 || after == before then NoData
    else
      var peak := SeriesMax(after);
      if peak > threshold then Alert(peak) else Calm(peak)
  }

  /** Raising the threshold never turns a calm verdict into an alert. */
  lemma HigherThresholdNeverAlerts(before: seq<real>, after: seq<real>, low: real, high: real)
    requires low <= high
    requires !Decide(before, after, low).Alert?
    ensures !Decide(before, after, high).Alert?
  {
  }

  /** A fresh series peaking at 12.5 knots, read after one at most 4 knots, alerts. */
  lemma FreshSeriesAboveThreshold()
    ensures Decide([3.0, 4.0], [12.5, 6.0], Threshold) == Alert(12.5)
  {
    assert [12.5, 6.0] != [3.0, 4.0] by {
      assert [12.5, 6.0][0] != [3.0, 4.0][0];
    }
  }
}

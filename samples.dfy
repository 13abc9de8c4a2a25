/**
 * The telemetry data both core files work on: one row per sample of a lap,
 * with the columns Distance, Speed, SessionTime, X and Y. Floats are reals, a
 * pandas Timedelta is a real number of seconds, and a missing session time
 * (NaT) is `None`.
 */
module Samples {
  import opened Wrappers
  import opened NumPy

  /** A pandas Timedelta, kept as its length in seconds. */
  datatype Timedelta = Timedelta(seconds: real)

  /** `.dt.total_seconds()`: the seconds determine the Timedelta they came from. */
  function TotalSeconds(t: Timedelta): (r: real)
    ensures Timedelta(r) == t
  {
    t.seconds
  }

  /** `pd.to_timedelta(seconds, unit="s")`: converting back with `TotalSeconds` gives the same seconds. */
  function ToTimedelta(seconds: real): (t: Timedelta)
    ensures TotalSeconds(t) == seconds
  {
    Timedelta(seconds)
  }

  /** Timedelta subtraction `a - b`: its seconds are the difference, and adding it back to `b` gives `a`. */
  function Minus(a: Timedelta, b: Timedelta): (d: Timedelta)
    ensures TotalSeconds(d) == TotalSeconds(a) - TotalSeconds(b)
    ensures Plus(b, TotalSeconds(d)) == a
  {
    Timedelta(a.seconds - b.seconds)
  }

  /** `t + pd.Timedelta(seconds=c)`. */
  function Plus(t: Timedelta, c: real): Timedelta
  {
    Timedelta(t.seconds + c)
  }

  datatype Sample = Sample(distance: real, speed: real, sessionTime: Option<Timedelta>, x: real, y: real)

  function Distances(s: seq<Sample>): seq<real>
  {
    seq(|s|, i requires 0 <= i < |s| => s[i].distance)
  }

  function Speeds(s: seq<Sample>): seq<real>
  {
    seq(|s|, i requires 0 <= i < |s| => s[i].speed)
  }

  function Xs(s: seq<Sample>): seq<real>
  {
    seq(|s|, i requires 0 <= i < |s| => s[i].x)
  }

  function Ys(s: seq<Sample>): seq<real>
  {
    seq(|s|, i requires 0 <= i < |s| => s[i].y)
  }

  function SessionTimes(s: seq<Sample>): seq<Option<Timedelta>>
  {
    seq(|s|, i requires 0 <= i < |s| => s[i].sessionTime)
  }

  /** A sample's session time in seconds, missing when the session time is. */
  function SecondsOf(c: Sample): Option<real>
  {
    MapOption(c.sessionTime, TotalSeconds)
  }

  /** The `SessionSeconds` column: `SessionTime.dt.total_seconds()`. */
  function SessionSeconds(s: seq<Sample>): (col: seq<Option<real>>)
    ensures |col| == |s|
    ensures forall i :: 0 <= i < |s| ==>
      (col[i].Some? <==> s[i].sessionTime.Some?)
      && (col[i].Some? ==> col[i].value == TotalSeconds(s[i].sessionTime.value))
  {
    seq(|s|, i requires 0 <= i < |s| => SecondsOf(s[i]))
  }

  predicate AllTimesDefined(s: seq<Sample>)
  {
    forall i :: 0 <= i < |s| ==> s[i].sessionTime.Some?
  }

  /** The samples run strictly forward along the lap. */
  predicate SortedByDistance(s: seq<Sample>)
  {
    forall i, j :: 0 <= i < j < |s| ==> s[i].distance < s[j].distance
  }

  lemma SortedDistances(s: seq<Sample>)
    ensures SortedByDistance(s) <==> StrictlyIncreasing(Distances(s))
  {
    assert forall i :: 0 <= i < |s| ==> Distances(s)[i] == s[i].distance;
  }

  predicate DistinctDistances(s: seq<Sample>)
  {
    forall i, j :: 0 <= i < j < |s| ==> s[i].distance != s[j].distance
  }

  /** Every session time of the lap moved by `c` seconds; distances and positions are kept. */
  function ShiftTimes(s: seq<Sample>, c: real): (r: seq<Sample>)
  {
    seq(|s|, i requires 0 <= i < |s| => ShiftSample(s[i], c))
  }

  function ShiftSample(p: Sample, c: real): Sample
  {
    p.(sessionTime := if p.sessionTime.Some? then Some(Plus(p.sessionTime.value, c)) else None)
  }

  /**
   * `(t - t.iloc[0]).dt.total_seconds()` on a column without missing values:
   * every time re-zeroed to the first one.
   */
  function SecondsSinceFirst(times: seq<Option<Timedelta>>): (r: seq<real>)
    requires |times| > 0 && forall j :: 0 <= j < |times| ==> times[j].Some?
    ensures |r| == |times| && r[0] == 0.0
  {
    seq(|times|, j requires 0 <= j < |times| => TotalSeconds(Minus(times[j].value, times[0].value)))
  }

  /** Adding the same constant to every time does not change the re-zeroed column. */
  lemma SecondsSinceFirstShift(times: seq<Option<Timedelta>>, shifted: seq<Option<Timedelta>>, c: real)
    requires |times| > 0 && forall j :: 0 <= j < |times| ==> times[j].Some?
    requires |shifted| == |times|
    requires forall j :: 0 <= j < |times| ==> shifted[j] == Some(Plus(times[j].value, c))
    ensures SecondsSinceFirst(shifted) == SecondsSinceFirst(times)
  {
  }

  /**
   * `c` is a sample of `s` nearest to distance `g`; among two at the same
   * distance from `g` it is the one further along the lap.
   */
  predicate IsNearest(s: seq<Sample>, g: real, c: Sample)
  {
    c in s
    && (forall j :: 0 <= j < |s| ==> Abs(c.distance - g) <= Abs(s[j].distance - g))
    && (forall j :: 0 <= j < |s| && Abs(s[j].distance - g) == Abs(c.distance - g) ==> s[j].distance <= c.distance)
  }

  /**
   * A reference definition of the nearest sample, independent of the order of
   * `s` and of how pandas searches its index.
   */
  function Closest(s: seq<Sample>, g: real): (c: Sample)
    requires |s| > 0
    ensures IsNearest(s, g, c)
  {
    if |s| == 1 then s[0]
    else
      var c := Closest(s[1..], g);
      ClosestStep(s, g, c);
      if Nearer(s[0], c, g) then s[0] else c
  }

  /** `p` is strictly nearer to `g` than `c`, or as near and further along the lap. */
  predicate Nearer(p: Sample, c: Sample, g: real)
  {
    var dp, dc := Abs(p.distance - g), Abs(c.distance - g);
    dp < dc || (dp == dc && p.distance > c.distance)
  }

  lemma ClosestStep(s: seq<Sample>, g: real, c: Sample)
    requires |s| > 1 && IsNearest(s[1..], g, c)
    ensures IsNearest(s, g, if Nearer(s[0], c, g) then s[0] else c)
  {
    var tail := s[1..];
    assert forall j :: 1 <= j < |s| ==> s[j] == tail[j - 1];
    var k :| 0 <= k < |tail| && tail[k] == c;
    assert s[k + 1] == c;
  }

  /** With distinct distances there is only one nearest sample. */
  lemma NearestUnique(s: seq<Sample>, g: real, a: Sample, b: Sample)
    requires DistinctDistances(s)
    requires IsNearest(s, g, a) && IsNearest(s, g, b)
    ensures a == b
  {
    var i :| 0 <= i < |s| && s[i] == a;
    var j :| 0 <= j < |s| && s[j] == b;
    assert a.distance == b.distance;
    assert i == j;
  }

  /** Shifting session times does not move samples along the lap, so the nearest sample is the shifted one. */
  lemma {:induction false} ClosestShift(s: seq<Sample>, g: real, c: real)
    requires |s| > 0
    ensures Closest(ShiftTimes(s, c), g) == ShiftSample(Closest(s, g), c)
    decreases |s|
  {
    if |s| > 1 {
      assert ShiftTimes(s, c)[1..] == ShiftTimes(s[1..], c);
      ClosestShift(s[1..], g, c);
    }
  }
}

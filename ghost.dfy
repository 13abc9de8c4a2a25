/**
 * `get_ghost_data` and the track bounds of `plot_ghost`: both drivers' X/Y
 * positions replayed on a common clock of 500 evenly spaced instants, by
 * linear interpolation in each driver's own lap time.
 */
module Ghost {
  import opened Wrappers
  import opened NumPy
  import opened Samples

  /** Number of instants of the common clock (`np.linspace(..., 500)`). */
  const GridSize: nat := 500

  /** One row of a ghost table: the interpolated position and the common time. */
  datatype GhostRow = GhostRow(x: real, y: real, time: real)

  /**
   * What `get_ghost_data` relies on: a first sample to re-zero against
   * (`.iloc[0]`), no missing session time, and lap times that increase, the
   * sample points `np.interp` expects.
   */
  predicate GhostInput(s: seq<Sample>)
  {
    |s| > 0 && AllTimesDefined(s) && StrictlyIncreasing(LapTime(s))
  }

  /** A driver's lap time: seconds since the first sample's session time. */
  function LapTime(s: seq<Sample>): (t: seq<real>)
    requires |s| > 0 && AllTimesDefined(s)
    ensures |t| == |s| && t[0] == 0.0
  {
    SecondsSinceFirst(SessionTimes(s))
  }

  /** The common clock: from the later of the two first times to the earlier of the two last times. */
  function GhostClock(s1: seq<Sample>, s2: seq<Sample>): (g: seq<real>)
    requires GhostInput(s1) && GhostInput(s2)
    ensures |g| == GridSize
  {
    var t1, t2 := LapTime(s1), LapTime(s2);
    Linspace(Max2(Min(t1), Min(t2)), Min2(Max(t1), Max(t2)), GridSize)
  }

  /**
   * One driver's ghost table: X and Y interpolated at every instant of the
   * clock; each coordinate stays within the range the driver covered.
   */
  function GhostTrack(s: seq<Sample>, clock: seq<real>): (g: seq<GhostRow>)
    requires GhostInput(s)
    ensures |g| == |clock|
    ensures forall i :: 0 <= i < |g| ==> g[i].time == clock[i]
    ensures forall i :: 0 <= i < |g| ==> Min(Xs(s)) <= g[i].x <= Max(Xs(s)) && Min(Ys(s)) <= g[i].y <= Max(Ys(s))
  {
    var t := LapTime(s);
    seq(|clock|, i requires 0 <= i < |clock| =>
      GhostRow(Interp(clock[i], t, Xs(s)), Interp(clock[i], t, Ys(s)), clock[i]))
  }

  /** `get_ghost_data(tel1, tel2)`. */
  function GetGhostData(s1: seq<Sample>, s2: seq<Sample>): (r: (seq<GhostRow>, seq<GhostRow>))
    requires GhostInput(s1) && GhostInput(s2)
    ensures |r.0| == GridSize && |r.1| == GridSize
    ensures forall i :: 0 <= i < GridSize ==> r.0[i].time == r.1[i].time
  {
    var clock := GhostClock(s1, s2);
    (GhostTrack(s1, clock), GhostTrack(s2, clock))
  }

  /**
   * The clock starts at 0, since both lap times do, and ends at the shorter
   * lap's last time, in equal steps; both tables carry it as their time
   * column.
   */
  lemma GhostShape(s1: seq<Sample>, s2: seq<Sample>)
    requires GhostInput(s1) && GhostInput(s2)
    ensures var clock := GhostClock(s1, s2);
            var (g1, g2) := GetGhostData(s1, s2);
            var end := Min2(LapTime(s1)[|s1| - 1], LapTime(s2)[|s2| - 1]);
            clock[0] == 0.0 && clock[GridSize - 1] == end
            && (forall i :: 0 <= i < GridSize - 1 ==> clock[i + 1] - clock[i] == Step(0.0, end, GridSize))
            && (forall i :: 0 <= i < GridSize ==> g1[i].time == clock[i] && g2[i].time == clock[i])
  {
    var t1, t2 := LapTime(s1), LapTime(s2);
    MinMaxOfIncreasing(t1);
    MinMaxOfIncreasing(t2);
    LinspaceEvenlySpaced(Max2(Min(t1), Min(t2)), Min2(Max(t1), Max(t2)), GridSize);
  }

  /** At an instant equal to a sample's lap time, the ghost is exactly at that sample. */
  lemma GhostAtSample(s: seq<Sample>, clock: seq<real>, i: nat, k: nat)
    requires GhostInput(s) && i < |clock| && k < |s|
    requires clock[i] == LapTime(s)[k]
    ensures GhostTrack(s, clock)[i].x == s[k].x && GhostTrack(s, clock)[i].y == s[k].y
  {
    InterpAtSample(LapTime(s), Xs(s), k);
    InterpAtSample(LapTime(s), Ys(s), k);
  }

  /** Strictly between two consecutive samples, the ghost is on the straight line between them. */
  lemma GhostBetween(s: seq<Sample>, clock: seq<real>, i: nat, k: nat)
    requires GhostInput(s) && i < |clock| && k + 1 < |s|
    requires LapTime(s)[k] < clock[i] < LapTime(s)[k + 1]
    ensures var t := LapTime(s);
            GhostTrack(s, clock)[i].x == Blend(t[k], t[k + 1], s[k].x, s[k + 1].x, clock[i])
            && GhostTrack(s, clock)[i].y == Blend(t[k], t[k + 1], s[k].y, s[k + 1].y, clock[i])
  {
    InterpBetween(LapTime(s), Xs(s), k, clock[i]);
    InterpBetween(LapTime(s), Ys(s), k, clock[i]);
  }

  /** Before the first sample the ghost stays at the first position, after the last at the last. */
  lemma GhostClamped(s: seq<Sample>, clock: seq<real>, i: nat)
    requires GhostInput(s) && i < |clock|
    ensures var g := GhostTrack(s, clock);
            (clock[i] <= 0.0 ==> g[i].x == s[0].x && g[i].y == s[0].y)
            && (clock[i] >= LapTime(s)[|s| - 1] ==> g[i].x == s[|s| - 1].x && g[i].y == s[|s| - 1].y)
  {
    InterpClamped(LapTime(s), Xs(s), clock[i]);
    InterpClamped(LapTime(s), Ys(s), clock[i]);
  }

  /** Moving a driver's session clock by a constant does not change the ghost tables. */
  lemma GhostShiftInvariant(s1: seq<Sample>, s2: seq<Sample>, c1: real, c2: real)
    requires GhostInput(s1) && GhostInput(s2)
    ensures GhostInput(ShiftTimes(s1, c1)) && GhostInput(ShiftTimes(s2, c2))
    ensures GetGhostData(ShiftTimes(s1, c1), ShiftTimes(s2, c2)) == GetGhostData(s1, s2)
  {
    LapTimeShift(s1, c1);
    LapTimeShift(s2, c2);
    assert Xs(ShiftTimes(s1, c1)) == Xs(s1) && Ys(ShiftTimes(s1, c1)) == Ys(s1);
    assert Xs(ShiftTimes(s2, c2)) == Xs(s2) && Ys(ShiftTimes(s2, c2)) == Ys(s2);
  }

  /** Shifting every session time by the same constant leaves the lap time unchanged. */
  lemma LapTimeShift(s: seq<Sample>, c: real)
    requires |s| > 0 && AllTimesDefined(s)
    ensures AllTimesDefined(ShiftTimes(s, c))
    ensures LapTime(ShiftTimes(s, c)) == LapTime(s)
  {
    SecondsSinceFirstShift(SessionTimes(s), SessionTimes(ShiftTimes(s, c)), c);
  }

  // ---------------------------------------------------------------------
  // Track bounds (`plot_ghost`)
  // ---------------------------------------------------------------------

  datatype Bounds = Bounds(xMin: real, xMax: real, yMin: real, yMax: real)

  function GhostXs(g: seq<GhostRow>): seq<real>
  {
    seq(|g|, i requires 0 <= i < |g| => g[i].x)
  }

  function GhostYs(g: seq<GhostRow>): seq<real>
  {
    seq(|g|, i requires 0 <= i < |g| => g[i].y)
  }

  /**
   * The fixed view of the ghost plot: the bounds contain every position of
   * both ghosts, and each bound is reached by one of them.
   */
  function TrackBounds(g1: seq<GhostRow>, g2: seq<GhostRow>): (b: Bounds)
    requires |g1| > 0 && |g2| > 0
    ensures forall p :: p in g1 + g2 ==> b.xMin <= p.x <= b.xMax && b.yMin <= p.y <= b.yMax
    ensures exists p :: p in g1 + g2 && p.x == b.xMin
    ensures exists p :: p in g1 + g2 && p.x == b.xMax
    ensures exists p :: p in g1 + g2 && p.y == b.yMin
    ensures exists p :: p in g1 + g2 && p.y == b.yMax
  {
    var b := Bounds(Min2(Min(GhostXs(g1)), Min(GhostXs(g2))), Max2(Max(GhostXs(g1)), Max(GhostXs(g2))),
                    Min2(Min(GhostYs(g1)), Min(GhostYs(g2))), Max2(Max(GhostYs(g1)), Max(GhostYs(g2))));
    BoundsCover(g1, g2, b);
    BoundsAttained(g1, g2, b);
    b
  }

  lemma BoundsCover(g1: seq<GhostRow>, g2: seq<GhostRow>, b: Bounds)
    requires |g1| > 0 && |g2| > 0
    requires b == Bounds(Min2(Min(GhostXs(g1)), Min(GhostXs(g2))), Max2(Max(GhostXs(g1)), Max(GhostXs(g2))),
                         Min2(Min(GhostYs(g1)), Min(GhostYs(g2))), Max2(Max(GhostYs(g1)), Max(GhostYs(g2))))
    ensures forall p :: p in g1 + g2 ==> b.xMin <= p.x <= b.xMax && b.yMin <= p.y <= b.yMax
  {
    forall p | p in g1 + g2 ensures b.xMin <= p.x <= b.xMax && b.yMin <= p.y <= b.yMax {
      if p in g1 {
        var i :| 0 <= i < |g1| && g1[i] == p;
        assert GhostXs(g1)[i] == p.x && GhostYs(g1)[i] == p.y;
      } else {
        var i :| 0 <= i < |g2| && g2[i] == p;
        assert GhostXs(g2)[i] == p.x && GhostYs(g2)[i] == p.y;
      }
    }
  }

  lemma BoundsAttained(g1: seq<GhostRow>, g2: seq<GhostRow>, b: Bounds)
    requires |g1| > 0 && |g2| > 0
    requires b == Bounds(Min2(Min(GhostXs(g1)), Min(GhostXs(g2))), Max2(Max(GhostXs(g1)), Max(GhostXs(g2))),
                         Min2(Min(GhostYs(g1)), Min(GhostYs(g2))), Max2(Max(GhostYs(g1)), Max(GhostYs(g2))))
    ensures exists p :: p in g1 + g2 && p.x == b.xMin
    ensures exists p :: p in g1 + g2 && p.x == b.xMax
    ensures exists p :: p in g1 + g2 && p.y == b.yMin
    ensures exists p :: p in g1 + g2 && p.y == b.yMax
  {
    Attained(g1, g2, b.xMin, true);
    Attained(g1, g2, b.xMax, true);
    Attained(g1, g2, b.yMin, false);
    Attained(g1, g2, b.yMax, false);
  }

  /** A value that occurs in the X (or Y) column of either ghost is reached by one of their rows. */
  lemma Attained(g1: seq<GhostRow>, g2: seq<GhostRow>, v: real, onX: bool)
    requires onX ==> v in GhostXs(g1) || v in GhostXs(g2)
    requires !onX ==> v in GhostYs(g1) || v in GhostYs(g2)
    ensures onX ==> exists p :: p in g1 + g2 && p.x == v
    ensures !onX ==> exists p :: p in g1 + g2 && p.y == v
  {
    if onX {
      if v in GhostXs(g1) {
        var i :| 0 <= i < |g1| && GhostXs(g1)[i] == v;
        assert g1[i] in g1 + g2;
      } else {
        var i :| 0 <= i < |g2| && GhostXs(g2)[i] == v;
        assert g2[i] in g1 + g2;
      }
    } else {
      if v in GhostYs(g1) {
        var i :| 0 <= i < |g1| && GhostYs(g1)[i] == v;
        assert g1[i] in g1 + g2;
      } else {
        var i :| 0 <= i < |g2| && GhostYs(g2)[i] == v;
        assert g2[i] in g1 + g2;
      }
    }
  }
}

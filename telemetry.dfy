/**
 * `align_telemetry` and `calculate_time_delta`: two drivers' laps put on a
 * common grid of 500 evenly spaced distances over the part of the lap both
 * cover, by taking at every grid point the sample nearest along the lap.
 */
module Telemetry {
  import opened Wrappers
  import opened NumPy
  import opened Pandas
  import opened Samples

  /** Number of points of the common grid (`np.linspace(..., 500)`). */
  const GridSize: nat := 500

  /** A driver's telemetry table; `sessionSeconds` is the column `align_telemetry` adds to it. */
  class Frame {
    var rows: seq<Sample>
    var sessionSeconds: Option<seq<Option<real>>>

    constructor (rows: seq<Sample>)
      ensures this.rows == rows && sessionSeconds == None
    {
      this.rows := rows;
      sessionSeconds := None;
    }
  }

  predicate Within(v: real, lo: real, hi: real)
  {
    lo <= v <= hi
  }

  /**
   * `(min_dist, max_dist)`: the larger of the two smallest distances and the
   * smaller of the two largest. A distance lies between them exactly when it
   * lies in both laps' ranges.
   */
  function Overlap(s1: seq<Sample>, s2: seq<Sample>): (r: (real, real))
    requires |s1| > 0 && |s2| > 0
    ensures forall v :: Within(v, r.0, r.1) <==>
      Within(v, Min(Distances(s1)), Max(Distances(s1))) && Within(v, Min(Distances(s2)), Max(Distances(s2)))
  {
    (Max2(Min(Distances(s1)), Min(Distances(s2))), Min2(Max(Distances(s1)), Max(Distances(s2))))
  }

  /** The grid both drivers are resampled onto. */
  function CommonGrid(s1: seq<Sample>, s2: seq<Sample>): (g: seq<real>)
    requires |s1| > 0 && |s2| > 0
    ensures |g| == GridSize
  {
    Linspace(Overlap(s1, s2).0, Overlap(s1, s2).1, GridSize)
  }

  // ---------------------------------------------------------------------
  // set_index("Distance").sort_index()
  // ---------------------------------------------------------------------

  /** Places `p` into a lap sorted by distance. */
  function Insert(p: Sample, s: seq<Sample>): (r: seq<Sample>)
    requires SortedByDistance(s)
    requires forall j :: 0 <= j < |s| ==> s[j].distance != p.distance
    ensures |r| == |s| + 1
    ensures forall k :: 0 <= k < |r| ==> r[k] == p || r[k] in s
    ensures SortedByDistance(r)
  {
    if |s| == 0 then [p]
    else if p.distance < s[0].distance then [p] + s
    else
      var rest := Insert(p, s[1..]);
      assert forall k :: 0 <= k < |rest| ==> s[0].distance < rest[k].distance;
      [s[0]] + rest
  }

  lemma {:induction false} InsertKeeps(p: Sample, s: seq<Sample>)
    requires SortedByDistance(s)
    requires forall j :: 0 <= j < |s| ==> s[j].distance != p.distance
    ensures p in Insert(p, s)
    ensures forall j :: 0 <= j < |s| ==> s[j] in Insert(p, s)
  {
    if |s| > 0 && p.distance >= s[0].distance {
      InsertKeeps(p, s[1..]);
      var r := Insert(p, s);
      assert r == [s[0]] + Insert(p, s[1..]);
      forall j | 1 <= j < |s| ensures s[j] in r {
        assert s[1..][j - 1] == s[j];
      }
    }
  }

  /**
   * `sort_index()` on the Distance index: the samples in increasing order of
   * distance. With distinct distances this order is unique, so the sorting
   * algorithm pandas picks does not matter.
   */
  function SortByDistance(s: seq<Sample>): (r: seq<Sample>)
    requires DistinctDistances(s)
    ensures |r| == |s|
    ensures forall k :: 0 <= k < |r| ==> r[k] in s
    ensures SortedByDistance(r)
  {
    if |s| == 0 then []
    else
      var rest := SortByDistance(s[1..]);
      DistinctFromRest(s, rest);
      Insert(s[0], rest)
  }

  /** With distinct distances, no sample drawn from the tail is at the head's distance. */
  lemma DistinctFromRest(s: seq<Sample>, rest: seq<Sample>)
    requires DistinctDistances(s) && |s| > 0
    requires forall k :: 0 <= k < |rest| ==> rest[k] in s[1..]
    ensures forall j :: 0 <= j < |rest| ==> rest[j].distance != s[0].distance
  {
    forall j | 0 <= j < |rest| ensures rest[j].distance != s[0].distance {
      var m :| 0 <= m < |s| - 1 && s[1..][m] == rest[j];
      assert s[m + 1] == rest[j];
    }
  }

  /** Sorting loses no sample: with the length and the ensures above, the result is a permutation. */
  lemma {:induction false} SortKeeps(s: seq<Sample>)
    requires DistinctDistances(s)
    ensures forall j :: 0 <= j < |s| ==> s[j] in SortByDistance(s)
  {
    if |s| > 0 {
      var tail := s[1..];
      SortKeeps(tail);
      var rest := SortByDistance(tail);
      DistinctFromRest(s, rest);
      InsertKeeps(s[0], rest);
      var r := SortByDistance(s);
      assert r == Insert(s[0], rest);
      forall j | 1 <= j < |s| ensures s[j] in r {
        assert tail[j - 1] == s[j];
        var m :| 0 <= m < |rest| && rest[m] == tail[j - 1];
      }
    }
  }

  /**
   * pandas' nearest lookup on a distance-sorted copy of a lap picks the same
   * sample as the order-free reference `Closest` on the lap itself.
   */
  lemma NearestLookupIsClosest(s: seq<Sample>, sorted: seq<Sample>, g: real)
    requires |s| > 0 && DistinctDistances(s)
    requires |sorted| > 0 && SortedByDistance(sorted)
    requires forall k :: 0 <= k < |sorted| ==> sorted[k] in s
    requires forall j :: 0 <= j < |s| ==> s[j] in sorted
    ensures sorted[NearestIndex(Distances(sorted), g)] == Closest(s, g)
  {
    SortedDistances(sorted);
    var k := NearestIndex(Distances(sorted), g);
    LookupIsNearest(s, sorted, g, k);
  }

  /** The sample of the sorted copy at the nearest key, being one of the lap's, is its nearest sample. */
  lemma LookupIsNearest(s: seq<Sample>, sorted: seq<Sample>, g: real, k: nat)
    requires |s| > 0 && DistinctDistances(s)
    requires k < |sorted| && SortedByDistance(sorted)
    requires NearestKey(Distances(sorted), g, k)
    requires sorted[k] in s
    requires forall j :: 0 <= j < |s| ==> s[j] in sorted
    ensures sorted[k] == Closest(s, g)
  {
    var c := sorted[k];
    forall j | 0 <= j < |s|
      ensures Abs(c.distance - g) <= Abs(s[j].distance - g)
      ensures Abs(s[j].distance - g) == Abs(c.distance - g) ==> s[j].distance <= c.distance
    {
      var m :| 0 <= m < |sorted| && sorted[m] == s[j];
      LookupVersusSample(sorted, g, k, m);
    }
    assert IsNearest(s, g, c);
    NearestUnique(s, g, c, Closest(s, g));
  }

  /** The sample at the nearest key is at least as near as any other sample, and further along on a tie. */
  lemma LookupVersusSample(sorted: seq<Sample>, g: real, k: nat, m: nat)
    requires k < |sorted| && m < |sorted| && SortedByDistance(sorted)
    requires NearestKey(Distances(sorted), g, k)
    ensures Abs(sorted[k].distance - g) <= Abs(sorted[m].distance - g)
    ensures Abs(sorted[m].distance - g) == Abs(sorted[k].distance - g) ==> sorted[m].distance <= sorted[k].distance
  {
    var keys := Distances(sorted);
    assert keys[m] == sorted[m].distance && keys[k] == sorted[k].distance;
    assert m < k ==> keys[m] < keys[k];
  }

  // ---------------------------------------------------------------------
  // align_telemetry
  // ---------------------------------------------------------------------

  /** One row of an aligned table: the resampled numeric columns, Distance and SessionTime. */
  datatype AlignedRow = AlignedRow(
    speed: real, x: real, y: real, sessionSeconds: Option<real>,
    distance: real, sessionTime: Option<Timedelta>)

  /** The session seconds of the nearest sample at every grid point, before interpolation. */
  function NearestSeconds(s: seq<Sample>, grid: seq<real>): (col: seq<Option<real>>)
    requires |s| > 0
    ensures |col| == |grid|
  {
    seq(|grid|, i requires 0 <= i < |grid| => SecondsOf(Closest(s, grid[i])))
  }

  /**
   * The specification of one output table of `align_telemetry`: at grid point
   * `i` the speed and position of the nearest sample, its session seconds
   * after `interpolate("index")`, the grid distance, and the session seconds
   * converted back to a Timedelta.
   */
  function AlignedSide(s: seq<Sample>, grid: seq<real>): (t: seq<AlignedRow>)
    requires |s| > 0
    requires Monotone(grid) || NothingToFill(NearestSeconds(s, grid))
    ensures |t| == |grid|
    ensures forall i :: 0 <= i < |grid| ==> t[i].distance == grid[i]
  {
    var seconds := InterpolateIndex(grid, NearestSeconds(s, grid));
    seq(|grid|, i requires 0 <= i < |grid| =>
      var c := Closest(s, grid[i]);
      AlignedRow(c.speed, c.x, c.y, seconds[i], grid[i], MapOption(seconds[i], ToTimedelta)))
  }

  /**
   * `interpolate("index")` can always run on the common grid: it increases or
   * decreases when its ends differ, and when they coincide every grid point
   * reads the same sample, so no session time is missing after a present one.
   */
  lemma GridInterpolable(s: seq<Sample>, lo: real, hi: real)
    requires |s| > 0
    ensures Monotone(Linspace(lo, hi, GridSize)) || NothingToFill(NearestSeconds(s, Linspace(lo, hi, GridSize)))
  {
    var grid := Linspace(lo, hi, GridSize);
    if lo < hi {
      LinspaceIncreasingIff(lo, hi, GridSize);
    } else if lo > hi {
      LinspaceDecreasing(lo, hi, GridSize);
    } else {
      var col := NearestSeconds(s, grid);
      forall i | 0 <= i < GridSize ensures col[i] == col[0] {
        LinspaceAt(lo, hi, GridSize, i);
        LinspaceAt(lo, hi, GridSize, 0);
      }
    }
  }

  /**
   * The specification of `align_telemetry` on two laps: `None` when either is
   * empty, otherwise both laps resampled onto the same grid.
   */
  function Aligned(s1: seq<Sample>, s2: seq<Sample>): (r: Option<(seq<AlignedRow>, seq<AlignedRow>)>)
    ensures r.None? <==> |s1| == 0 || |s2| == 0
  {
    if |s1| == 0 || |s2| == 0 then None
    else
      var grid := CommonGrid(s1, s2);
      GridInterpolable(s1, Overlap(s1, s2).0, Overlap(s1, s2).1);
      GridInterpolable(s2, Overlap(s1, s2).0, Overlap(s1, s2).1);
      Some((AlignedSide(s1, grid), AlignedSide(s2, grid)))
  }

  /** What `align_telemetry` demands of non-empty laps: pandas refuses to reindex on duplicate labels. */
  predicate AlignRequires(s1: seq<Sample>, s2: seq<Sample>)
  {
    |s1| > 0 && |s2| > 0 ==> DistinctDistances(s1) && DistinctDistances(s2)
  }

  /**
   * One driver's table as `align_telemetry` builds it from the distance-sorted
   * lap: every numeric column reindexed to the grid by nearest label, the
   * session seconds interpolated, then Distance and SessionTime attached.
   */
  function ResampleSorted(sorted: seq<Sample>, grid: seq<real>): (t: seq<AlignedRow>)
    requires |sorted| > 0 && StrictlyIncreasing(Distances(sorted))
    requires Monotone(grid) || NothingToFill(Reindexed(Distances(sorted), SessionSeconds(sorted), grid))
    ensures |t| == |grid|
    ensures forall i :: 0 <= i < |grid| ==> t[i].distance == grid[i]
  {
    var keys := Distances(sorted);
    var speed := Reindexed(keys, Speeds(sorted), grid);
    var x := Reindexed(keys, Xs(sorted), grid);
    var y := Reindexed(keys, Ys(sorted), grid);
    var seconds := InterpolateIndex(grid, Reindexed(keys, SessionSeconds(sorted), grid));
    seq(|grid|, i requires 0 <= i < |grid| =>
      AlignedRow(speed[i], x[i], y[i], seconds[i], grid[i], MapOption(seconds[i], ToTimedelta)))
  }

  /** Resampling the sorted copy with pandas' lookup gives the specified table. */
  lemma ResampleSortedIsAlignedSide(s: seq<Sample>, sorted: seq<Sample>, grid: seq<real>)
    requires |s| > 0 && DistinctDistances(s)
    requires |sorted| > 0 && SortedByDistance(sorted)
    requires forall k :: 0 <= k < |sorted| ==> sorted[k] in s
    requires forall j :: 0 <= j < |s| ==> s[j] in sorted
    requires Monotone(grid) || NothingToFill(NearestSeconds(s, grid))
    ensures StrictlyIncreasing(Distances(sorted))
    ensures Reindexed(Distances(sorted), SessionSeconds(sorted), grid) == NearestSeconds(s, grid)
    ensures ResampleSorted(sorted, grid) == AlignedSide(s, grid)
  {
    SortedDistances(sorted);
    var keys := Distances(sorted);
    NearestColumns(s, sorted, grid);
    var t, u := ResampleSorted(sorted, grid), AlignedSide(s, grid);
    var seconds := InterpolateIndex(grid, NearestSeconds(s, grid));
    forall i | 0 <= i < |grid| ensures t[i] == u[i] {
      var c := Closest(s, grid[i]);
      assert t[i] == AlignedRow(c.speed, c.x, c.y, seconds[i], grid[i], MapOption(seconds[i], ToTimedelta));
    }
  }

  /** Every column of the sorted copy reindexed by pandas' nearest lookup reads the nearest sample's value. */
  lemma NearestColumns(s: seq<Sample>, sorted: seq<Sample>, grid: seq<real>)
    requires |s| > 0 && DistinctDistances(s)
    requires |sorted| > 0 && SortedByDistance(sorted)
    requires forall k :: 0 <= k < |sorted| ==> sorted[k] in s
    requires forall j :: 0 <= j < |s| ==> s[j] in sorted
    ensures StrictlyIncreasing(Distances(sorted))
    ensures Reindexed(Distances(sorted), SessionSeconds(sorted), grid) == NearestSeconds(s, grid)
    ensures forall i :: 0 <= i < |grid| ==>
      Reindexed(Distances(sorted), Speeds(sorted), grid)[i] == Closest(s, grid[i]).speed
      && Reindexed(Distances(sorted), Xs(sorted), grid)[i] == Closest(s, grid[i]).x
      && Reindexed(Distances(sorted), Ys(sorted), grid)[i] == Closest(s, grid[i]).y
  {
    SortedDistances(sorted);
    var keys := Distances(sorted);
    forall i | 0 <= i < |grid|
      ensures Reindexed(keys, SessionSeconds(sorted), grid)[i] == NearestSeconds(s, grid)[i]
      ensures Reindexed(keys, Speeds(sorted), grid)[i] == Closest(s, grid[i]).speed
      ensures Reindexed(keys, Xs(sorted), grid)[i] == Closest(s, grid[i]).x
      ensures Reindexed(keys, Ys(sorted), grid)[i] == Closest(s, grid[i]).y
    {
      NearestLookupIsClosest(s, sorted, grid[i]);
    }
  }

  /** Sorting a lap by distance and resampling the sorted copy gives the specified table. */
  lemma SortThenResample(s: seq<Sample>, grid: seq<real>)
    requires |s| > 0 && DistinctDistances(s)
    requires Monotone(grid) || NothingToFill(NearestSeconds(s, grid))
    ensures StrictlyIncreasing(Distances(SortByDistance(s)))
    ensures Monotone(grid) || NothingToFill(Reindexed(Distances(SortByDistance(s)), SessionSeconds(SortByDistance(s)), grid))
    ensures ResampleSorted(SortByDistance(s), grid) == AlignedSide(s, grid)
  {
    SortKeeps(s);
    ResampleSortedIsAlignedSide(s, SortByDistance(s), grid);
  }

  /**
   * `align_telemetry(tel1, tel2)`: `None` when a table is missing or empty;
   * otherwise both input tables gain their SessionSeconds column and the
   * result is the two laps resampled onto the common distance grid.
   */
  method AlignTelemetry(tel1: Frame?, tel2: Frame?) returns (result: Option<(seq<AlignedRow>, seq<AlignedRow>)>)
    requires tel1 != null && tel2 != null ==> AlignRequires(tel1.rows, tel2.rows)
    modifies tel1, tel2
    ensures tel1 != null ==> tel1.rows == old(tel1.rows)
    ensures tel2 != null ==> tel2.rows == old(tel2.rows)
    ensures tel1 == null || tel2 == null || |tel1.rows| == 0 || |tel2.rows| == 0 ==>
      result == None
      && (tel1 != null ==> tel1.sessionSeconds == old(tel1.sessionSeconds))
      && (tel2 != null ==> tel2.sessionSeconds == old(tel2.sessionSeconds))
    ensures tel1 != null && tel2 != null && |tel1.rows| > 0 && |tel2.rows| > 0 ==>
      result == Aligned(tel1.rows, tel2.rows)
      && tel1.sessionSeconds == Some(SessionSeconds(tel1.rows))
      && tel2.sessionSeconds == Some(SessionSeconds(tel2.rows))
  {
    if tel1 == null || tel2 == null || |tel1.rows| == 0 || |tel2.rows| == 0 {
      return None;
    }
    var s1, s2 := tel1.rows, tel2.rows;
    tel1.sessionSeconds := Some(SessionSeconds(s1));
    tel2.sessionSeconds := Some(SessionSeconds(s2));

    var minDist := Max2(Min(Distances(s1)), Min(Distances(s2)));
    var maxDist := Min2(Max(Distances(s1)), Max(Distances(s2)));
    var commonDist := Linspace(minDist, maxDist, GridSize);

    var sorted1 := SortByDistance(s1);
    var sorted2 := SortByDistance(s2);

    GridInterpolable(s1, minDist, maxDist);
    GridInterpolable(s2, minDist, maxDist);
    SortThenResample(s1, commonDist);
    SortThenResample(s2, commonDist);
    var interp1 := ResampleSorted(sorted1, commonDist);
    var interp2 := ResampleSorted(sorted2, commonDist);
    result := Some((interp1, interp2));
  }

  // Properties of the alignment

  /**
   * Both tables have 500 rows and the same Distance column, the grid: it runs
   * from `min_dist` to `max_dist` in equal steps, and increases exactly when
   * `min_dist < max_dist`.
   */
  lemma AlignedShape(s1: seq<Sample>, s2: seq<Sample>)
    requires |s1| > 0 && |s2| > 0
    ensures var (lo, hi) := Overlap(s1, s2);
            var grid := Linspace(lo, hi, GridSize);
            var (a, b) := Aligned(s1, s2).value;
            |a| == GridSize && |b| == GridSize
            && (forall i :: 0 <= i < GridSize ==> a[i].distance == grid[i] && b[i].distance == grid[i])
            && a[0].distance == lo && a[GridSize - 1].distance == hi
            && (forall i :: 0 <= i < GridSize - 1 ==> a[i + 1].distance - a[i].distance == Step(lo, hi, GridSize))
            && (StrictlyIncreasing(grid) <==> lo < hi)
  {
    var (lo, hi) := Overlap(s1, s2);
    LinspaceEvenlySpaced(lo, hi, GridSize);
    LinspaceIncreasingIff(lo, hi, GridSize);
  }

  /**
   * Speed, X and Y at a grid point are those of the sample nearest to it,
   * the one further along the lap when two are equally near (as pandas'
   * nearest lookup chooses), whatever order the lap came in.
   */
  lemma AlignedNearest(s1: seq<Sample>, s2: seq<Sample>, i: nat, c: Sample)
    requires |s1| > 0 && |s2| > 0 && DistinctDistances(s1)
    requires i < GridSize
    requires IsNearest(s1, CommonGrid(s1, s2)[i], c)
    ensures var a := Aligned(s1, s2).value.0;
            a[i].speed == c.speed && a[i].x == c.x && a[i].y == c.y
  {
    NearestUnique(s1, CommonGrid(s1, s2)[i], c, Closest(s1, CommonGrid(s1, s2)[i]));
  }

  /** SessionTime is SessionSeconds converted back to a Timedelta, so its total seconds give SessionSeconds again. */
  lemma AlignedSessionTime(s1: seq<Sample>, s2: seq<Sample>, i: nat)
    requires |s1| > 0 && |s2| > 0
    requires i < GridSize
    ensures var a := Aligned(s1, s2).value.0;
            (a[i].sessionTime.Some? <==> a[i].sessionSeconds.Some?)
            && (a[i].sessionTime.Some? ==> TotalSeconds(a[i].sessionTime.value) == a[i].sessionSeconds.value)
  {
    var grid := CommonGrid(s1, s2);
    GridInterpolable(s1, Overlap(s1, s2).0, Overlap(s1, s2).1);
    var seconds := InterpolateIndex(grid, NearestSeconds(s1, grid));
    var a := Aligned(s1, s2).value.0;
    assert a[i].sessionSeconds == seconds[i];
    assert a[i].sessionTime == MapOption(seconds[i], ToTimedelta);
  }

  /**
   * A defined session time of the nearest sample comes through unchanged;
   * interpolation fills a missing one exactly when some earlier grid point
   * has a defined one.
   */
  lemma AlignedSessionSeconds(s1: seq<Sample>, s2: seq<Sample>, i: nat)
    requires |s1| > 0 && |s2| > 0
    requires i < GridSize
    ensures var grid := CommonGrid(s1, s2);
            var a := Aligned(s1, s2).value.0;
            var col := NearestSeconds(s1, grid);
            (Closest(s1, grid[i]).sessionTime.Some? ==>
               a[i].sessionSeconds == Some(TotalSeconds(Closest(s1, grid[i]).sessionTime.value)))
            && (a[i].sessionSeconds.Some? <==> exists j :: 0 <= j <= i && col[j].Some?)
  {
    var grid := CommonGrid(s1, s2);
    GridInterpolable(s1, Overlap(s1, s2).0, Overlap(s1, s2).1);
    var col := NearestSeconds(s1, grid);
    var seconds := InterpolateIndex(grid, col);
    var a := Aligned(s1, s2).value.0;
    assert a[i].sessionSeconds == seconds[i];
  }

  /**
   * `align_telemetry` has no overlap guard: with laps whose distance ranges
   * do not overlap it still returns two 500-row tables, on a grid that runs
   * backwards, where `calculate_time_delta` returns an empty result.
   */
  lemma AlignWithoutOverlap(s1: seq<Sample>, s2: seq<Sample>)
    requires |s1| > 0 && |s2| > 0
    requires Overlap(s1, s2).0 > Overlap(s1, s2).1
    ensures Aligned(s1, s2).Some?
    ensures |Aligned(s1, s2).value.0| == GridSize
    ensures StrictlyDecreasing(CommonGrid(s1, s2))
    ensures TimeDelta(Some(s1), Some(s2)) == []
  {
    LinspaceDecreasing(Overlap(s1, s2).0, Overlap(s1, s2).1, GridSize);
  }

  /**
   * The second table is built exactly as the first one with the drivers
   * swapped, so every property stated of the first table holds of the second.
   */
  lemma AlignedSwap(s1: seq<Sample>, s2: seq<Sample>)
    requires |s1| > 0 && |s2| > 0
    ensures CommonGrid(s1, s2) == CommonGrid(s2, s1)
    ensures Aligned(s1, s2).value.1 == Aligned(s2, s1).value.0
  {
  }

  // ---------------------------------------------------------------------
  // calculate_time_delta
  // ---------------------------------------------------------------------

  datatype DeltaRow = DeltaRow(distance: real, deltaTime: real)

  /** The session time of the nearest sample at every grid point (missing where that sample's is). */
  function NearestTimes(s: seq<Sample>, grid: seq<real>): (col: seq<Option<Timedelta>>)
    requires |s| > 0
    ensures |col| == |grid|
  {
    seq(|grid|, i requires 0 <= i < |grid| => Closest(s, grid[i]).sessionTime)
  }

  /**
   * The specification of `calculate_time_delta`: empty when a lap is missing
   * or empty, when the distance ranges do not overlap in more than a point,
   * or when no grid point has a session time for both drivers; otherwise one
   * row per retained grid point (one where both drivers' nearest samples
   * have a session time) with driver 2's elapsed time minus driver 1's,
   * each re-zeroed at the first retained point.
   */
  function TimeDelta(lap1: Option<seq<Sample>>, lap2: Option<seq<Sample>>): (delta: seq<DeltaRow>)
    ensures |delta| <= GridSize
  {
    if lap1.None? || lap2.None? || |lap1.value| == 0 || |lap2.value| == 0 then []
    else
      var s1, s2 := lap1.value, lap2.value;
      var (lo, hi) := Overlap(s1, s2);
      if lo >= hi then []
      else
        var grid := Linspace(lo, hi, GridSize);
        DeltaOnGrid(grid, NearestTimes(s1, grid), NearestTimes(s2, grid))
  }

  /**
   * The delta on a grid from the two drivers' times there: one row per grid
   * point where both have a time, with driver 2's elapsed time minus driver
   * 1's, each counted from the first such point.
   */
  function DeltaOnGrid(grid: seq<real>, t1: seq<Option<Timedelta>>, t2: seq<Option<Timedelta>>): (delta: seq<DeltaRow>)
    requires |grid| == |t1| == |t2|
    ensures |delta| <= |grid|
  {
    var kept := BothPresent(t1, t2);
    if |kept| == 0 then []
    else
      var e1, e2 := SecondsSinceFirst(Select(t1, kept)), SecondsSinceFirst(Select(t2, kept));
      seq(|kept|, j requires 0 <= j < |kept| => DeltaRow(grid[kept[j]], e2[j] - e1[j]))
  }

  /** What `calculate_time_delta` demands: `reindex(method="nearest")` needs a unique, increasing index. */
  predicate DeltaRequires(lap1: Option<seq<Sample>>, lap2: Option<seq<Sample>>)
  {
    lap1.Some? && lap2.Some? && |lap1.value| > 0 && |lap2.value| > 0
    && Overlap(lap1.value, lap2.value).0 < Overlap(lap1.value, lap2.value).1
    ==> SortedByDistance(lap1.value) && SortedByDistance(lap2.value)
  }

  /** On a lap sorted by distance, `reindex(method="nearest")` of SessionTime reads the nearest sample's. */
  lemma ReindexedIsNearestTimes(s: seq<Sample>, grid: seq<real>)
    requires |s| > 0 && SortedByDistance(s)
    ensures StrictlyIncreasing(Distances(s))
    ensures Reindexed(Distances(s), SessionTimes(s), grid) == NearestTimes(s, grid)
  {
    SortedDistances(s);
    forall i | 0 <= i < |grid|
      ensures Reindexed(Distances(s), SessionTimes(s), grid)[i] == NearestTimes(s, grid)[i]
    {
      NearestLookupIsClosest(s, s, grid[i]);
    }
  }

  /**
   * The middle of `calculate_time_delta`: when either table has a missing
   * time, `dropna` both and keep the intersection of their distances; then
   * `.loc` both at the common distances. This keeps exactly the grid points
   * where both drivers have a time, in grid order.
   */
  method CommonTimes(grid: seq<real>, col1: seq<Option<Timedelta>>, col2: seq<Option<Timedelta>>)
    returns (commonDist: seq<real>, times1: seq<Option<Timedelta>>, times2: seq<Option<Timedelta>>)
    requires |grid| == |col1| == |col2| && StrictlyIncreasing(grid)
    ensures commonDist == Select(grid, BothPresent(col1, col2))
    ensures times1 == Select(col1, BothPresent(col1, col2))
    ensures times2 == Select(col2, BothPresent(col1, col2))
  {
    var table1 := Zip(grid, col1);
    var table2 := Zip(grid, col2);
    commonDist := grid;
    if HasMissing(table1) || HasMissing(table2) {
      DropNaThenLoc(grid, col1, col2);
      table1 := DropNa(table1);
      table2 := DropNa(table2);
      commonDist := Intersection(Labels(table1), Labels(table2));
    } else {
      FullGridLoc(grid, col1, col2);
    }
    times1 := Loc(table1, commonDist);
    times2 := Loc(table2, commonDist);
  }

  /**
   * `calculate_time_delta` as written: the early returns, the overlap grid,
   * and the drivers' session times looked up by `reindex(method="nearest")`.
   */
  method CalculateTimeDelta(lap1: Option<seq<Sample>>, lap2: Option<seq<Sample>>) returns (delta: seq<DeltaRow>)
    requires DeltaRequires(lap1, lap2)
    ensures delta == TimeDelta(lap1, lap2)
  {
    if lap1.None? || lap2.None? {
      return [];
    }
    var tel1, tel2 := lap1.value, lap2.value;
    if |tel1| == 0 || |tel2| == 0 {
      return [];
    }
    var minDist := Max2(Min(Distances(tel1)), Min(Distances(tel2)));
    var maxDist := Min2(Max(Distances(tel1)), Max(Distances(tel2)));
    if minDist >= maxDist {
      return [];
    }
    var grid := Linspace(minDist, maxDist, GridSize);
    LinspaceIncreasingIff(minDist, maxDist, GridSize);
    ReindexedIsNearestTimes(tel1, grid);
    ReindexedIsNearestTimes(tel2, grid);
    var col1 := Reindexed(Distances(tel1), SessionTimes(tel1), grid);
    var col2 := Reindexed(Distances(tel2), SessionTimes(tel2), grid);
    assert TimeDelta(lap1, lap2) == DeltaOnGrid(grid, col1, col2);
    delta := DeltaFromTimes(grid, col1, col2);
  }

  /**
   * The rest of `calculate_time_delta`, from the two drivers' times on the
   * grid: the common retained distances, each driver's times re-zeroed at
   * the first one, and driver 2's minus driver 1's.
   */
  method DeltaFromTimes(grid: seq<real>, col1: seq<Option<Timedelta>>, col2: seq<Option<Timedelta>>)
    returns (delta: seq<DeltaRow>)
    requires |grid| == |col1| == |col2| && StrictlyIncreasing(grid)
    ensures delta == DeltaOnGrid(grid, col1, col2)
  {
    var commonDist, times1, times2 := CommonTimes(grid, col1, col2);
    ghost var kept := BothPresent(col1, col2);
    assert |commonDist| == |times1| == |times2| == |kept|;
    if |commonDist| == 0 || |times1| == 0 || |times2| == 0 {
      assert DeltaOnGrid(grid, col1, col2) == [];
      return [];
    }
    var time1 := SecondsSinceFirst(times1);
    var time2 := SecondsSinceFirst(times2);
    var deltaTime := seq(|time1|, j requires 0 <= j < |time1| => time2[j] - time1[j]);
    delta := seq(|deltaTime|, j requires 0 <= j < |deltaTime| => DeltaRow(commonDist[j], deltaTime[j]));
    ghost var spec := seq(|kept|, j requires 0 <= j < |kept| => DeltaRow(grid[kept[j]], time2[j] - time1[j]));
    assert DeltaOnGrid(grid, col1, col2) == spec;
    forall j | 0 <= j < |kept| ensures delta[j] == spec[j] {
      assert commonDist[j] == grid[kept[j]];
    }
    assert |delta| == |spec|;
  }
}

/**
 * Properties of the time delta between two laps.
 */
module TimeDeltaProperties {
  import opened Wrappers
  import opened NumPy
  import opened Pandas
  import opened Samples
  import opened Telemetry

  /** On overlapping laps the delta is `DeltaOnGrid` over the nearest session times on the common grid. */
  lemma TimeDeltaOnGrid(s1: seq<Sample>, s2: seq<Sample>)
    requires |s1| > 0 && |s2| > 0 && Overlap(s1, s2).0 < Overlap(s1, s2).1
    ensures var grid := CommonGrid(s1, s2);
            TimeDelta(Some(s1), Some(s2)) == DeltaOnGrid(grid, NearestTimes(s1, grid), NearestTimes(s2, grid))
  {
  }

  /** The rows of `DeltaOnGrid`: one per kept position, carrying its grid point; the first delta is zero. */
  lemma DeltaOnGridRows(grid: seq<real>, t1: seq<Option<Timedelta>>, t2: seq<Option<Timedelta>>)
    requires |grid| == |t1| == |t2|
    ensures |DeltaOnGrid(grid, t1, t2)| == |BothPresent(t1, t2)|
    ensures forall j :: 0 <= j < |BothPresent(t1, t2)| ==>
      DeltaOnGrid(grid, t1, t2)[j].distance == grid[BothPresent(t1, t2)[j]]
    ensures |DeltaOnGrid(grid, t1, t2)| > 0 ==> DeltaOnGrid(grid, t1, t2)[0].deltaTime == 0.0
  {
  }

  /**
   * `delta` keeps a row at a grid point exactly when both columns have a time
   * there, and at no other distance, in increasing order of distance,
   * starting from a zero delta.
   */
  predicate KeepsBothTimed(delta: seq<DeltaRow>, grid: seq<real>, t1: seq<Option<Timedelta>>, t2: seq<Option<Timedelta>>)
    requires |grid| == |t1| == |t2|
  {
    (forall j :: 0 <= j < |delta| ==> delta[j].distance in grid)
    && (forall i :: 0 <= i < |grid| ==>
          ((exists j :: 0 <= j < |delta| && delta[j].distance == grid[i]) <==> t1[i].Some? && t2[i].Some?))
    && (forall j, k :: 0 <= j < k < |delta| ==> delta[j].distance < delta[k].distance)
    && (|delta| > 0 ==> delta[0].deltaTime == 0.0)
  }

  /** The kept rows of `DeltaOnGrid` on an increasing grid. */
  lemma DeltaOnGridRetained(grid: seq<real>, t1: seq<Option<Timedelta>>, t2: seq<Option<Timedelta>>)
    requires |grid| == |t1| == |t2| && StrictlyIncreasing(grid)
    ensures KeepsBothTimed(DeltaOnGrid(grid, t1, t2), grid, t1, t2)
  {
    var kept := BothPresent(t1, t2);
    var delta := DeltaOnGrid(grid, t1, t2);
    DeltaOnGridRows(grid, t1, t2);
    forall j | 0 <= j < |delta| ensures delta[j].distance in grid {
      assert delta[j].distance == grid[kept[j]];
    }
    forall i | 0 <= i < |grid|
      ensures (exists j :: 0 <= j < |delta| && delta[j].distance == grid[i]) <==> t1[i].Some? && t2[i].Some?
    {
      if t1[i].Some? && t2[i].Some? {
        var j :| 0 <= j < |kept| && kept[j] == i;
        assert delta[j].distance == grid[i];
      }
      if exists j :: 0 <= j < |delta| && delta[j].distance == grid[i] {
        var j :| 0 <= j < |delta| && delta[j].distance == grid[i];
        assert grid[kept[j]] == grid[i];
        assert kept[j] == i;
      }
    }
    forall j, k | 0 <= j < k < |delta| ensures delta[j].distance < delta[k].distance {
      assert kept[j] < kept[k];
      assert delta[j].distance == grid[kept[j]] && delta[k].distance == grid[kept[k]];
    }
  }

  /**
   * On overlapping laps a row is kept for exactly the grid points where both
   * drivers' nearest samples have a session time; the distances come in
   * increasing order, and the first delta is zero.
   */
  lemma DeltaRetained(s1: seq<Sample>, s2: seq<Sample>)
    requires |s1| > 0 && |s2| > 0 && Overlap(s1, s2).0 < Overlap(s1, s2).1
    ensures var grid := CommonGrid(s1, s2);
            KeepsBothTimed(TimeDelta(Some(s1), Some(s2)), grid, NearestTimes(s1, grid), NearestTimes(s2, grid))
  {
    var grid := CommonGrid(s1, s2);
    LinspaceIncreasingIff(Overlap(s1, s2).0, Overlap(s1, s2).1, GridSize);
    TimeDeltaOnGrid(s1, s2);
    DeltaOnGridRetained(grid, NearestTimes(s1, grid), NearestTimes(s2, grid));
  }

  /** Columns that are present at the same points keep the same grid points. */
  lemma SamePresence(t1: seq<Option<Timedelta>>, t2: seq<Option<Timedelta>>, v1: seq<Option<Timedelta>>, v2: seq<Option<Timedelta>>)
    requires |t1| == |t2| == |v1| == |v2|
    requires forall i :: 0 <= i < |t1| ==> (v1[i].Some? <==> t1[i].Some?) && (v2[i].Some? <==> t2[i].Some?)
    ensures BothPresent(v1, v2) == BothPresent(t1, t2)
  {
    var m := seq(|t1|, i requires 0 <= i < |t1| => t1[i].Some? && t2[i].Some?);
    var n := seq(|v1|, i requires 0 <= i < |v1| => v1[i].Some? && v2[i].Some?);
    assert m == n;
  }

  /** The session times shifted by `c`, where present. */
  function Shifted(t: seq<Option<Timedelta>>, c: real): (v: seq<Option<Timedelta>>)
    ensures |v| == |t|
    ensures forall i :: 0 <= i < |t| ==> (v[i].Some? <==> t[i].Some?)
  {
    seq(|t|, i requires 0 <= i < |t| => if t[i].Some? then Some(Plus(t[i].value, c)) else None)
  }

  /** Shifting either column of times by a constant leaves `DeltaOnGrid` unchanged. */
  lemma DeltaOnGridShift(grid: seq<real>, t1: seq<Option<Timedelta>>, t2: seq<Option<Timedelta>>, c1: real, c2: real)
    requires |grid| == |t1| == |t2|
    ensures DeltaOnGrid(grid, Shifted(t1, c1), Shifted(t2, c2)) == DeltaOnGrid(grid, t1, t2)
  {
    var v1, v2 := Shifted(t1, c1), Shifted(t2, c2);
    SamePresence(t1, t2, v1, v2);
    var kept := BothPresent(t1, t2);
    if |kept| > 0 {
      SecondsSinceFirstShift(Select(t1, kept), Select(v1, kept), c1);
      SecondsSinceFirstShift(Select(t2, kept), Select(v2, kept), c2);
    }
  }

  /** The nearest session times of a shifted lap are the shifted nearest session times. */
  lemma NearestTimesShift(s: seq<Sample>, grid: seq<real>, c: real)
    requires |s| > 0
    ensures NearestTimes(ShiftTimes(s, c), grid) == Shifted(NearestTimes(s, grid), c)
  {
    forall i | 0 <= i < |grid|
      ensures NearestTimes(ShiftTimes(s, c), grid)[i] == Shifted(NearestTimes(s, grid), c)[i]
    {
      ClosestShift(s, grid[i], c);
    }
  }

  /** Moving either driver's session clock by a constant leaves the delta unchanged. */
  lemma DeltaShiftInvariant(s1: seq<Sample>, s2: seq<Sample>, c1: real, c2: real)
    ensures TimeDelta(Some(ShiftTimes(s1, c1)), Some(ShiftTimes(s2, c2))) == TimeDelta(Some(s1), Some(s2))
  {
    var u1, u2 := ShiftTimes(s1, c1), ShiftTimes(s2, c2);
    assert Distances(u1) == Distances(s1);
    assert Distances(u2) == Distances(s2);
    if |s1| > 0 && |s2| > 0 && Overlap(s1, s2).0 < Overlap(s1, s2).1 {
      assert Overlap(u1, u2) == Overlap(s1, s2);
      var grid := CommonGrid(s1, s2);
      TimeDeltaOnGrid(s1, s2);
      TimeDeltaOnGrid(u1, u2);
      NearestTimesShift(s1, grid, c1);
      NearestTimesShift(s2, grid, c2);
      DeltaOnGridShift(grid, NearestTimes(s1, grid), NearestTimes(s2, grid), c1, c2);
    }
  }

  /** Swapping the columns keeps the same rows with every delta negated. */
  lemma DeltaOnGridSwap(grid: seq<real>, t1: seq<Option<Timedelta>>, t2: seq<Option<Timedelta>>)
    requires |grid| == |t1| == |t2|
    ensures var d, e := DeltaOnGrid(grid, t1, t2), DeltaOnGrid(grid, t2, t1);
            |d| == |e|
            && forall j :: 0 <= j < |d| ==> e[j].distance == d[j].distance && e[j].deltaTime == -d[j].deltaTime
  {
    var m := seq(|t1|, i requires 0 <= i < |t1| => t1[i].Some? && t2[i].Some?);
    var n := seq(|t2|, i requires 0 <= i < |t2| => t2[i].Some? && t1[i].Some?);
    assert m == n;
  }

  /** Swapping the drivers keeps the same distances and negates every delta. */
  lemma DeltaSwapped(s1: seq<Sample>, s2: seq<Sample>)
    ensures var d, e := TimeDelta(Some(s1), Some(s2)), TimeDelta(Some(s2), Some(s1));
            |d| == |e|
            && forall j :: 0 <= j < |d| ==> e[j].distance == d[j].distance && e[j].deltaTime == -d[j].deltaTime
  {
    if |s1| > 0 && |s2| > 0 {
      assert Overlap(s2, s1) == Overlap(s1, s2);
      if Overlap(s1, s2).0 < Overlap(s1, s2).1 {
        var grid := CommonGrid(s1, s2);
        assert CommonGrid(s2, s1) == grid;
        TimeDeltaOnGrid(s1, s2);
        TimeDeltaOnGrid(s2, s1);
        DeltaOnGridSwap(grid, NearestTimes(s1, grid), NearestTimes(s2, grid));
      }
    }
  }

  /** A lap compared with itself is never ahead or behind. */
  lemma DeltaSameLap(s: seq<Sample>)
    ensures forall j :: 0 <= j < |TimeDelta(Some(s), Some(s))| ==> TimeDelta(Some(s), Some(s))[j].deltaTime == 0.0
  {
  }

  /**
   * The delta is empty exactly when a lap is missing or empty, the distance
   * ranges meet in at most a point, or no grid point has a time for both.
   */
  lemma DeltaEmptyIff(lap1: Option<seq<Sample>>, lap2: Option<seq<Sample>>)
    ensures TimeDelta(lap1, lap2) == [] <==>
      lap1.None? || lap2.None? || |lap1.value| == 0 || |lap2.value| == 0
      || Overlap(lap1.value, lap2.value).0 >= Overlap(lap1.value, lap2.value).1
      || var grid := CommonGrid(lap1.value, lap2.value);
         BothPresent(NearestTimes(lap1.value, grid), NearestTimes(lap2.value, grid)) == []
  {
  }
}

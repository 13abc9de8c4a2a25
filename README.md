# F1 telemetry comparison: a Dafny model

This project models the data core of the F1 dashboard. Telemetry is fetched with
FastF1. It models three pieces:

- `align_telemetry` puts two drivers' fastest laps on one grid of 500 evenly spaced
  distances, covering the stretch of track both laps cover. At each grid point it
  reads the sample nearest along the lap. Missing session times are filled by
  `interpolate("index")`.
- `calculate_time_delta` compares the two laps on that grid and returns, per
  distance, how far driver 2 is behind driver 1. Grid points where either driver's
  nearest sample has no session time are dropped. Both elapsed times are counted
  from the first retained point.
- `get_ghost_data` replays both drivers' X/Y positions on a common clock of 500
  instants, using linear interpolation in each driver's own lap time. The track
  bounds of `plot_ghost` contain both replays.

A telemetry row is `Samples.Sample`, with fields distance, speed, session time, X
and Y. Floats are reals. A pandas `Timedelta` is a number of seconds. A missing
session time (NaT) is `None`.

The pandas and NumPy operations the code relies on are stated as functions:

- `np.linspace` and `np.interp`, in module `NumPy`;
- the pad/backfill/nearest index lookup, `interpolate("index")`, `dropna`,
  `Index.intersection` and `.loc`, in module `Pandas`.

Each of them has lemmas describing what it computes.

`align_telemetry` adds a `SessionSeconds` column to its two input tables, so it is
a method on `Telemetry.Frame` objects. `calculate_time_delta` is a method that
follows the code's steps: the early returns, the grid, `reindex(method="nearest")`,
the `dropna`/`intersection`/`.loc` branch, the re-zeroing and the subtraction. It
is proved equal to the order-free specification `Telemetry.TimeDelta`.

Two definitions serve as references independent of pandas:

- `Samples.Closest` is the nearest sample of a lap, whatever the lap's order.
- `Pandas.BothPresent` is the set of grid positions where both drivers have a time.

Both methods' results are connected to these references.

Unlike `calculate_time_delta` (telemetry.py:72-74), `align_telemetry`
(telemetry.py:20-22) has no overlap check. With disjoint ranges it still returns two
500-row tables on a grid that runs backwards, while `calculate_time_delta` returns an
empty table (`Telemetry.AlignWithoutOverlap`). On that backwards grid
`interpolate("index")` still fills missing session times: pandas sorts the present
points by index value before `np.interp`, so the model's `Pandas.InterpolateIndex`
takes a decreasing index as well as an increasing one.

## Model

| member | source | states |
|---|---|---|
| Telemetry.AlignTelemetry | f1data/telemetry.py:11-50 | `None` when a table is missing or empty, with the tables untouched; otherwise each table gains its SessionSeconds column (total seconds of SessionTime), the rows are kept, and the result is the specified pair of resampled tables |
| Telemetry.Overlap | f1data/telemetry.py:20-21 | a distance lies between `min_dist` and `max_dist` exactly when it lies in both laps' distance ranges |
| Telemetry.SortByDistance | f1data/telemetry.py:25-26 | `sort_index()` on distinct distances returns as many samples as it was given, all from the lap, in strictly increasing order of distance |
| Telemetry.SortKeeps | f1data/telemetry.py:25-26 | sorting loses no sample of the lap |
| Telemetry.NearestLookupIsClosest | f1data/telemetry.py:25-36 | pandas' nearest lookup on the distance-sorted lap picks the same sample as the order-free nearest sample of the lap |
| Telemetry.SortThenResample | f1data/telemetry.py:25-40 | sorting, reindexing every numeric column by nearest distance, interpolating and attaching Distance and SessionTime gives the specified table of the lap |
| Telemetry.AlignedSide | f1data/telemetry.py:35-40 | a resampled table has one row per grid point, carrying that grid distance, on an increasing or a decreasing grid alike |
| Telemetry.AlignedShape | f1data/telemetry.py:20-48 | both tables have 500 rows whose Distance is the grid; the grid starts at `min_dist`, ends at `max_dist`, uses equal steps, and increases exactly when `min_dist < max_dist` |
| Telemetry.AlignedNearest | f1data/telemetry.py:35-36 | speed, X and Y at a grid point are those of the sample nearest to it, the one further along the lap when two are equally near |
| Telemetry.AlignedSwap | f1data/telemetry.py:35-48 | both tables sit on the same grid and the second table is the first one with the drivers swapped, so the per-table properties hold of both |
| Telemetry.GridInterpolable | f1data/telemetry.py:22-36 | the common grid increases, decreases, or (when its ends coincide) reads one sample everywhere so no gap needs filling: `interpolate("index")` applies to every pair of non-empty laps |
| Telemetry.ResampleSorted | f1data/telemetry.py:25-44 | one driver's table built from the distance-sorted lap has one row per grid point carrying that grid distance; `ResampleSortedIsAlignedSide` proves it equal to the specified table |
| Telemetry.ResampleSortedIsAlignedSide | f1data/telemetry.py:25-44 | on a sorted copy of the lap, every reindexed column reads the nearest sample and the whole table equals `AlignedSide` |
| Telemetry.AlignedSessionSeconds | f1data/telemetry.py:16-36 | a defined session time of the nearest sample comes through as its total seconds; a grid point has SessionSeconds exactly when it or an earlier one had one before interpolation |
| Telemetry.AlignedSessionTime | f1data/telemetry.py:43-44 | SessionTime is present exactly when SessionSeconds is, and its total seconds are SessionSeconds |
| Telemetry.AlignWithoutOverlap | f1data/telemetry.py:20-22 | with disjoint distance ranges, alignment still returns 500 rows on a strictly decreasing grid while the time delta is empty |
| Telemetry.Aligned | f1data/telemetry.py:12-13 | the alignment is `None` exactly when a lap is empty |
| Telemetry.ReindexedIsNearestTimes | f1data/telemetry.py:79-80 | `reindex(method="nearest")` of SessionTime on a lap sorted by distance gives the nearest sample's session time at every grid point |
| Telemetry.CalculateTimeDelta | f1data/telemetry.py:57-102 | the method's result equals the order-free specification `TimeDelta` of the two laps |
| Telemetry.DeltaFromTimes | f1data/telemetry.py:83-102 | from the two time columns on an increasing grid, the result is one row per grid point where both have a time, with driver 2's minus driver 1's time, each re-zeroed at the first such point |
| Telemetry.CommonTimes | f1data/telemetry.py:83-91 | with or without the `dropna`/`intersection` branch, the common distances and both time columns after `.loc` are exactly the grid points where both drivers have a time, in grid order |
| Telemetry.TimeDelta | f1data/telemetry.py:64-102 | the delta never has more rows than the 500-point grid |
| Telemetry.DeltaOnGrid | f1data/telemetry.py:83-102 | the delta on a grid never has more rows than the grid |
| TimeDeltaProperties.DeltaRetained | f1data/telemetry.py:83-102 | on overlapping laps a row is kept exactly at the grid points where both nearest samples have a session time, and at no other distance; rows are in increasing distance order and the first delta is 0 |
| TimeDeltaProperties.DeltaOnGridRetained | f1data/telemetry.py:83-102 | the same retention property for any two time columns on an increasing grid |
| TimeDeltaProperties.DeltaOnGridRows | f1data/telemetry.py:93-102 | one row per retained position, carrying its grid distance; the first delta is zero |
| TimeDeltaProperties.DeltaShiftInvariant | f1data/telemetry.py:97-102 | moving either driver's session clock by a constant leaves the delta unchanged |
| TimeDeltaProperties.DeltaOnGridShift | f1data/telemetry.py:97-100 | shifting either time column by a constant leaves the delta on a grid unchanged |
| TimeDeltaProperties.NearestTimesShift | f1data/telemetry.py:79-80 | the nearest session times of a shifted lap are the shifted nearest session times |
| TimeDeltaProperties.DeltaSwapped | f1data/telemetry.py:100-102 | swapping the drivers keeps the distances and negates every delta |
| TimeDeltaProperties.DeltaOnGridSwap | f1data/telemetry.py:100-102 | swapping the time columns keeps the distances and negates every delta |
| TimeDeltaProperties.TimeDeltaOnGrid | f1data/telemetry.py:70-80 | on overlapping laps the delta is the delta-on-grid of the nearest session times on the common grid |
| Samples.Closest | f1data/telemetry.py:35-36 | the reference nearest sample: a sample of the lap with the least distance to the grid point, the one further along on a tie |
| Samples.NearestUnique | f1data/telemetry.py:35-36 | with distinct distances there is exactly one nearest sample |
| Samples.ClosestShift | f1data/telemetry.py:79-80 | shifting session times does not change which sample is nearest |
| Samples.SessionSeconds | f1data/telemetry.py:16-17 | the SessionSeconds column is present exactly where SessionTime is and holds its total seconds |
| Samples.SecondsSinceFirst | f1data/telemetry.py:97-98 | the re-zeroed column has the same length and starts at 0 |
| Samples.SecondsSinceFirstShift | f1data/telemetry.py:97-98 | adding a constant to every time leaves the re-zeroed column unchanged |
| Samples.ToTimedelta | f1data/telemetry.py:43-44 | converting seconds to a Timedelta and back gives the same seconds |
| Samples.SortedDistances | f1data/telemetry.py:25-26 | a lap is sorted by distance exactly when its Distance column strictly increases |
| Pandas.NearestIndex | f1data/telemetry.py:35-36 | the pad/backfill nearest lookup returns a position of a key at least distance from the target, the later one on a tie |
| Pandas.PadIndex | f1data/telemetry.py:35-36 | the last position whose key is not above the target, or -1 |
| Pandas.BackfillIndex | f1data/telemetry.py:35-36 | the first position whose key is not below the target, or -1 |
| Pandas.InterpolateIndex | f1data/telemetry.py:35-36 | on an increasing or a decreasing index, present values are kept and a missing value is filled exactly when a present value comes before it |
| Pandas.PresentByIndex | f1data/telemetry.py:35-36 | the present points that `np.interp` receives are strictly increasing and are exactly the index values of the present rows |
| Pandas.Reindexed | f1data/telemetry.py:35-36 | `reindex(method="nearest")` gives one value per target |
| Pandas.ReindexedNearest | f1data/telemetry.py:35-36 | each reindexed value is the value at a key nearest to its target, the later key on a tie |
| Pandas.TruePositions | f1data/telemetry.py:83-87 | the increasing list of exactly the positions where the mask holds |
| Pandas.DropNa | f1data/telemetry.py:85-86 | `dropna` keeps exactly the rows that have a value, and increasing labels stay increasing |
| Pandas.DropNaLabels | f1data/telemetry.py:85-86 | after `dropna` the labels left are the grid points with a value, in grid order |
| Pandas.Intersection | f1data/telemetry.py:87 | the labels of the first index that also occur in the second, in the first index's order |
| Pandas.IntersectionOnGrid | f1data/telemetry.py:85-87 | the intersection of the two `dropna`ed indexes is the grid at the positions where both have a value |
| Pandas.SortedSetEqual | f1data/telemetry.py:87 | two strictly increasing sequences with the same members are equal |
| Pandas.LookupLabel | f1data/telemetry.py:90-91 | `.loc` of a present label returns the value of the row with that label |
| Pandas.Loc | f1data/telemetry.py:90-91 | `.loc[labels]` returns one value per label, each the value of a row carrying that label |
| Pandas.DropNaThenLoc | f1data/telemetry.py:83-91 | after `dropna`, `intersection` and `.loc`, the common labels and both value columns are the grid and the columns at the positions where both have a value |
| Pandas.FullGridLoc | f1data/telemetry.py:83-91 | without missing values, `.loc` at the whole grid returns both columns whole, which are the columns at the positions where both have a value |
| Pandas.BothPresent | f1data/telemetry.py:83-91 | increasing grid positions at which both columns have a value, each such position included |
| NumPy.Linspace | f1data/telemetry.py:22 | `np.linspace(start, stop, num)` has `num` points |
| NumPy.LinspaceEvenlySpaced | f1data/telemetry.py:22 | `np.linspace` starts at `start`, ends at `stop`, with equal steps |
| NumPy.Max2 | f1data/telemetry.py:20 | Python's `max(a, b)` is one of its arguments and no smaller than either |
| NumPy.Min2 | f1data/telemetry.py:21 | Python's `min(a, b)` is one of its arguments and no larger than either |
| Samples.TotalSeconds | f1data/telemetry.py:16-17 | `.dt.total_seconds()` loses nothing: the seconds determine the Timedelta |
| Samples.Minus | f1data/telemetry.py:97-98 | the seconds of `a - b` are the difference of the seconds, and adding the difference back to `b` gives `a` |
| Pandas.HasMissing | f1data/telemetry.py:83 | `.isna().any()` is false exactly when every row has a value |
| Pandas.DropNaWithoutMissing | f1data/telemetry.py:83-86 | without a missing value `dropna` leaves the table unchanged |
| TimeDeltaProperties.DeltaEmptyIff | f1data/telemetry.py:64-95 | the delta is empty exactly when a lap is missing or empty, the ranges meet in at most a point (`min_dist >= max_dist`), or no grid point has a session time for both drivers |
| NumPy.Min | f1data/telemetry.py:20-21 | `Series.min()` is an element of the column and no element is below it |
| NumPy.Max | f1data/telemetry.py:20-21 | `Series.max()` is an element of the column and no element is above it |
| NumPy.ReverseDecreasing | f1data/telemetry.py:35-36 | a decreasing index read back to front, the order `np.argsort` gives it, increases |
| NumPy.LinspaceIncreasingIff | f1data/telemetry.py:72-76 | the grid strictly increases exactly when `start < stop` |
| NumPy.LinspaceDecreasing | f1data/telemetry.py:22 | with `start > stop` the grid strictly decreases |
| NumPy.LinspaceWithin | f1data/telemetry.py:76 | with `start <= stop` every grid point lies between them |
| NumPy.Interp | f1data/ghost.py:14-20 | `np.interp` stays within the range of the sample values |
| NumPy.InterpAtSample | f1data/ghost.py:14-20 | at a sample point `np.interp` returns that sample's value |
| NumPy.InterpBetween | f1data/ghost.py:14-20 | strictly between two consecutive sample points it is the straight line through them |
| NumPy.InterpClamped | f1data/ghost.py:14-20 | left of the samples it is the first value, from the last sample on the last value |
| NumPy.BlendBetween | f1data/ghost.py:14-20 | a straight-line blend of two values lies between them |
| NumPy.MinMaxOfIncreasing | f1data/ghost.py:11 | the minimum of an increasing sequence is its first element and the maximum its last |
| Ghost.LapTime | f1data/ghost.py:8-9 | a driver's lap time has one entry per sample and starts at 0 |
| Ghost.GhostClock | f1data/ghost.py:11 | the common clock has 500 instants |
| Ghost.GhostTrack | f1data/ghost.py:13-24 | one row per clock instant carrying that instant; X and Y stay within the driver's X and Y ranges |
| Ghost.GetGhostData | f1data/ghost.py:6-26 | two tables of 500 rows with identical time columns |
| Ghost.GhostShape | f1data/ghost.py:8-24 | the clock runs from 0 to the shorter lap's last lap time in equal steps; both time columns are the clock |
| Ghost.GhostAtSample | f1data/ghost.py:14-20 | at an instant equal to a sample's lap time, the ghost is at that sample's position |
| Ghost.GhostBetween | f1data/ghost.py:14-20 | between two consecutive samples, the ghost is on the straight line between their positions |
| Ghost.GhostClamped | f1data/ghost.py:14-20 | before the first sample the ghost is at the first position, after the last at the last |
| Ghost.GhostShiftInvariant | f1data/ghost.py:8-9 | moving a driver's session clock by a constant does not change the ghost tables |
| Ghost.LapTimeShift | f1data/ghost.py:8-9 | moving the session clock by a constant leaves the lap time unchanged |
| Ghost.TrackBounds | f1data/ghost.py:33-36 | the bounds contain every position of both ghosts and each bound is reached by one of them |

## Left out

- Fetching laps (`session.laps.pick_drivers(...).pick_fastest()`, `get_telemetry().add_distance()`), `get_fastest_telemetry`, the `print` messages and the Streamlit/Plotly rendering in `plot_ghost` and app/main.py are I/O and not modelled. The laps arrive as parameters (`None` for a lap that was not found).
- IEEE-754 floating point and nanosecond Timedelta resolution are not modelled. All arithmetic is on exact reals, so rounding in `np.linspace`, `np.interp` and `total_seconds()` is absent.
- Speed, X and Y are never missing in the model. Only SessionTime can be missing (NaT).
- `select_dtypes`/`numeric_cols` (telemetry.py:29-33) is modelled by its outcome. The resampled row holds Speed, X, Y and SessionSeconds, and SessionTime is never among the reindexed columns.
- Telemetry.AlignRequires, Telemetry.DeltaRequires: distances must be distinct (pandas refuses to reindex on duplicate labels). Without sorting, `reindex(method="nearest")` in `calculate_time_delta` needs a unique, monotonic index. The cumulative distance from `add_distance` makes it increasing, and the model takes the lap sorted by increasing distance. A lap with decreasing distances is not modelled, and neither is the case where pandas raises.
- Pandas.InterpolateIndex: an index that is neither increasing nor decreasing but has a gap to fill is not modelled. Every `np.linspace` grid is increasing, decreasing or constant (`Telemetry.GridInterpolable`), so `align_telemetry` never meets that case.
- Ghost.GhostInput: `get_ghost_data` is modelled for non-empty laps with every session time present and strictly increasing lap time, which is what `np.interp` expects. An empty lap makes `get_ghost_data` raise at `.iloc[0]` (ghost.py:8-9). A missing session time or a lap time that does not increase makes `np.interp` return unspecified values. Neither case is modelled.
- Telemetry.SortByDistance: permutation is stated as equal length plus membership both ways (`SortKeeps`), not as a multiset equality. With distinct distances the two are equivalent.
- Ghost.TrackBounds: only the `min`/`max` bounds are modelled; the traces, frames and layout of `plot_ghost` are rendering.

/**
 * The pandas operations the telemetry code relies on, over a float index of
 * reals: `Index.get_indexer` with `method="pad"`, `"backfill"` and
 * `"nearest"` (what `reindex(..., method="nearest")` uses),
 * `Series.interpolate("index")`, `dropna`, `Index.intersection` and `.loc`
 * on a table of (key, value) rows.
 */
module Pandas {
  import opened Wrappers
  import opened NumPy

  /** Position of the last key not above `target` (libalgos `pad`), or -1. */
  function PadIndex(keys: seq<real>, target: real): (r: int)
    ensures -1 <= r < |keys|
    ensures r >= 0 ==> keys[r] <= target
    ensures forall j :: r < j < |keys| ==> target < keys[j]
  {
    if |keys| == 0 then -1
    else if keys[|keys| - 1] <= target then |keys| - 1
    else PadIndex(keys[..|keys| - 1], target)
  }

  /** Position of the first key not below `target` (libalgos `backfill`), or -1. */
  function BackfillIndex(keys: seq<real>, target: real): (r: int)
    ensures -1 <= r < |keys|
    ensures r >= 0 ==> target <= keys[r]
    ensures forall j :: 0 <= j < |keys| && (r == -1 || j < r) ==> keys[j] < target
  {
    if |keys| == 0 then -1
    else if target <= keys[0] then 0
    else
      var r := BackfillIndex(keys[1..], target);
      if r == -1 then -1 else r + 1
  }

  /**
   * `Index._get_nearest_indexer` on an increasing index: take the pad and the
   * backfill candidates and keep the pad one only when it is strictly closer
   * or there is no backfill one. A missing candidate (-1) is looked up as
   * NumPy does, as the last key.
   */
  function NearestIndex(keys: seq<real>, target: real): (k: nat)
    requires |keys| > 0 && StrictlyIncreasing(keys)
    ensures k < |keys|
    ensures forall j :: 0 <= j < |keys| ==> Abs(keys[k] - target) <= Abs(keys[j] - target)
    ensures forall j :: 0 <= j < |keys| && Abs(keys[j] - target) == Abs(keys[k] - target) ==> j <= k
  {
    var left := PadIndex(keys, target);
    var right := BackfillIndex(keys, target);
    var leftDistance := Abs(keys[if left == -1 then |keys| - 1 else left] - target);
    var rightDistance := Abs(keys[if right == -1 then |keys| - 1 else right] - target);
    NearestChoice(keys, target, left, right);
    if leftDistance < rightDistance || right == -1 then left else right
  }

  /** `k` is a position of a key nearest to `target`, the last one on a tie. */
  predicate NearestKey(keys: seq<real>, target: real, k: int)
  {
    0 <= k < |keys|
    && (forall j :: 0 <= j < |keys| ==> Abs(keys[k] - target) <= Abs(keys[j] - target))
    && (forall j :: 0 <= j < |keys| && Abs(keys[j] - target) == Abs(keys[k] - target) ==> j <= k)
  }

  lemma NearestChoice(keys: seq<real>, target: real, left: int, right: int)
    requires |keys| > 0 && StrictlyIncreasing(keys)
    requires left == PadIndex(keys, target) && right == BackfillIndex(keys, target)
    ensures var leftDistance := Abs(keys[if left == -1 then |keys| - 1 else left] - target);
            var rightDistance := Abs(keys[if right == -1 then |keys| - 1 else right] - target);
            NearestKey(keys, target, if leftDistance < rightDistance || right == -1 then left else right)
  {
    var n := |keys|;
    if right == -1 {
      // every key is below the target: the pad candidate is the last one
      assert left == n - 1;
      NearestBelowAll(keys, target);
    } else if left == -1 {
      // every key is above the target: the backfill candidate is the first one
      assert right == 0;
      NearestAboveAll(keys, target);
      assert keys[0] <= keys[n - 1];
    } else {
      NearestBracket(keys, target, left, right);
    }
  }

  lemma NearestBelowAll(keys: seq<real>, target: real)
    requires |keys| > 0 && StrictlyIncreasing(keys)
    requires forall j :: 0 <= j < |keys| ==> keys[j] <= target
    ensures NearestKey(keys, target, |keys| - 1)
  {
    var n := |keys|;
    forall j | 0 <= j < n ensures Abs(keys[n - 1] - target) <= Abs(keys[j] - target) {
      assert j == n - 1 || keys[j] < keys[n - 1];
    }
  }

  lemma NearestAboveAll(keys: seq<real>, target: real)
    requires |keys| > 0 && StrictlyIncreasing(keys)
    requires forall j :: 0 <= j < |keys| ==> target < keys[j]
    ensures NearestKey(keys, target, 0)
  {
    forall j | 0 < j < |keys| ensures Abs(keys[0] - target) < Abs(keys[j] - target) {
      assert keys[0] < keys[j];
    }
  }

  /** Between the pad and the backfill candidates, the nearer one (the backfill one on a tie) is nearest. */
  lemma NearestBracket(keys: seq<real>, target: real, left: int, right: int)
    requires StrictlyIncreasing(keys)
    requires 0 <= left < |keys| && 0 <= right < |keys|
    requires keys[left] <= target <= keys[right]
    requires forall j :: left < j < |keys| ==> target < keys[j]
    requires forall j :: 0 <= j < right ==> keys[j] < target
    ensures NearestKey(keys, target, if Abs(keys[left] - target) < Abs(keys[right] - target) then left else right)
  {
    assert left <= right;
    forall j | 0 <= j < left ensures target - keys[j] > target - keys[left] {
      assert keys[j] < keys[left];
    }
    forall j | right < j < |keys| ensures keys[j] - target > keys[right] - target {
      assert keys[right] < keys[j];
    }
    assert right <= left + 1 by {
      assert left + 1 < |keys| ==> target < keys[left + 1];
    }
  }

  /** `reindex(target, method="nearest")` of one column: each target takes the value at its nearest key. */
  function Reindexed<V>(keys: seq<real>, values: seq<V>, target: seq<real>): (r: seq<V>)
    requires |keys| == |values| > 0 && StrictlyIncreasing(keys)
    ensures |r| == |target|
  {
    seq(|target|, i requires 0 <= i < |target| => values[NearestIndex(keys, target[i])])
  }

  /** Each reindexed value is the value at a key nearest to its target, the later one on a tie. */
  lemma ReindexedNearest<V>(keys: seq<real>, values: seq<V>, target: seq<real>, i: nat)
    requires |keys| == |values| > 0 && StrictlyIncreasing(keys)
    requires i < |target|
    ensures exists k :: NearestKey(keys, target[i], k) && Reindexed(keys, values, target)[i] == values[k]
  {
    var k := NearestIndex(keys, target[i]);
    assert NearestKey(keys, target[i], k);
  }

  /** The positions, in increasing order, at which `mask` holds. */
  function TruePositions(mask: seq<bool>): (ps: seq<nat>)
    ensures |ps| <= |mask|
    ensures forall k :: 0 <= k < |ps| ==> ps[k] < |mask| && mask[ps[k]]
    ensures forall k, l :: 0 <= k < l < |ps| ==> ps[k] < ps[l]
    ensures forall i :: 0 <= i < |mask| && mask[i] ==> i in ps
  {
    if |mask| == 0 then []
    else
      var rest := TruePositions(mask[..|mask| - 1]);
      if mask[|mask| - 1] then rest + [|mask| - 1] else rest
  }

  /** The elements of `s` at the positions `ps`, in that order. */
  function Select<T>(s: seq<T>, ps: seq<nat>): (r: seq<T>)
    requires forall k :: 0 <= k < |ps| ==> ps[k] < |s|
  {
    seq(|ps|, k requires 0 <= k < |ps| => s[ps[k]])
  }

  /** No missing value comes after a present one: only a leading gap, which interpolation keeps. */
  predicate NothingToFill(column: seq<Option<real>>)
  {
    forall j, i :: 0 <= j < i < |column| && column[j].Some? ==> column[i].Some?
  }

  /**
   * The present points of a column and their values, ordered by index value
   * as `np.argsort` orders them before `np.interp`: as they come on an
   * increasing index, back to front on a decreasing one.
   */
  function PresentByIndex(index: seq<real>, column: seq<Option<real>>, ps: seq<nat>): (p: (seq<real>, seq<real>))
    requires |index| == |column| && Monotone(index)
    requires forall k :: 0 <= k < |ps| ==> ps[k] < |column| && column[ps[k]].Some?
    requires forall k, l :: 0 <= k < l < |ps| ==> ps[k] < ps[l]
    ensures |p.0| == |p.1| == |ps|
    ensures StrictlyIncreasing(p.0)
    ensures forall x :: x in p.0 <==> exists k :: 0 <= k < |ps| && index[ps[k]] == x
  {
    var xs := Select(index, ps);
    var fs := seq(|ps|, k requires 0 <= k < |ps| => column[ps[k]].value);
    assert forall x :: x in xs <==> exists k :: 0 <= k < |ps| && index[ps[k]] == x by {
      forall x | x in xs ensures exists k :: 0 <= k < |ps| && index[ps[k]] == x {
        var k :| 0 <= k < |xs| && xs[k] == x;
      }
      forall k | 0 <= k < |ps| ensures index[ps[k]] in xs {
        assert xs[k] == index[ps[k]];
      }
    }
    if StrictlyIncreasing(index) then
      assert StrictlyIncreasing(xs) by {
        forall k, l | 0 <= k < l < |xs| ensures xs[k] < xs[l] {
          assert ps[k] < ps[l];
        }
      }
      (xs, fs)
    else
      assert StrictlyDecreasing(xs) by {
        forall k, l | 0 <= k < l < |xs| ensures xs[k] > xs[l] {
          assert ps[k] < ps[l];
        }
      }
      ReverseDecreasing(xs);
      assert forall x :: x in Reverse(xs) <==> x in xs by {
        forall x | x in xs ensures x in Reverse(xs) {
          var k :| 0 <= k < |xs| && xs[k] == x;
          assert Reverse(xs)[|xs| - 1 - k] == x;
        }
      }
      (Reverse(xs), Reverse(fs))
  }

  /**
   * `Series.interpolate("index")`: every missing value that has a present one
   * before it is filled by `np.interp` at its index value over the present
   * points sorted by index value (so a trailing gap takes the last present
   * value, on an increasing or a decreasing index alike), and a leading gap
   * stays missing (`limit_direction="forward"`). pandas does not demand a
   * monotonic index here; an index that is neither increasing nor decreasing
   * but has a gap to fill is not modelled.
   */
  function InterpolateIndex(index: seq<real>, column: seq<Option<real>>): (r: seq<Option<real>>)
    requires |index| == |column|
    requires Monotone(index) || NothingToFill(column)
    ensures |r| == |column|
    ensures forall i :: 0 <= i < |column| && column[i].Some? ==> r[i] == column[i]
    ensures forall i :: 0 <= i < |column| ==> (r[i].Some? <==> exists j :: 0 <= j <= i && column[j].Some?)
  {
    if NothingToFill(column) then column
    else
      var present := seq(|column|, i requires 0 <= i < |column| => column[i].Some?);
      var ps := TruePositions(present);
      assert |ps| > 0 by {
        var j, i :| 0 <= j < i < |column| && column[j].Some? && column[i].None?;
        assert present[j];
      }
      var (xp, fp) := PresentByIndex(index, column, ps);
      var r := seq(|column|, i requires 0 <= i < |column| =>
        if column[i].Some? then column[i]
        else if i < ps[0] then None
        else Some(Interp(index[i], xp, fp)));
      assert forall i :: 0 <= i < |column| ==> (r[i].Some? <==> exists j :: 0 <= j <= i && column[j].Some?) by {
        forall i | 0 <= i < |column|
          ensures r[i].Some? <==> exists j :: 0 <= j <= i && column[j].Some?
        {
          if column[i].None? && i < ps[0] {
            forall j | 0 <= j <= i ensures column[j].None? {
              assert present[j] ==> j in ps;
              assert forall k :: 0 < k < |ps| ==> ps[0] < ps[k];
            }
          }
          if column[i].None? && i >= ps[0] {
            assert column[ps[0]].Some?;
          }
        }
      }
      r
  }

  /** The labels of a labelled table, in row order. */
  function Labels<V>(table: seq<(real, V)>): seq<real>
  {
    seq(|table|, i requires 0 <= i < |table| => table[i].0)
  }

  /** A table whose rows pair `labels[i]` with `values[i]`. */
  function Zip<V>(labels: seq<real>, values: seq<V>): (table: seq<(real, V)>)
    requires |labels| == |values|
  {
    seq(|labels|, i requires 0 <= i < |labels| => (labels[i], values[i]))
  }

  /** `.isna().any()` on the value column: false exactly when every row has a value. */
  predicate HasMissing<V>(table: seq<(real, Option<V>)>): (b: bool)
    ensures !b <==> forall i :: 0 <= i < |table| ==> table[i].1.Some?
  {
    exists i :: 0 <= i < |table| && table[i].1.None?
  }

  /** Without a missing value `dropna` leaves the table as it is. */
  lemma {:induction false} DropNaWithoutMissing<V(!new)>(table: seq<(real, Option<V>)>)
    requires !HasMissing(table)
    ensures DropNa(table) == table
  {
    if |table| > 0 {
      var front := table[..|table| - 1];
      assert !HasMissing(front) by {
        forall i | 0 <= i < |front| ensures front[i].1.Some? {
          assert front[i] == table[i];
        }
      }
      DropNaWithoutMissing(front);
      assert table == front + [table[|table| - 1]];
    }
  }

  /** `dropna()`: the rows whose value is present, in their order. */
  function DropNa<V(!new)>(table: seq<(real, Option<V>)>): (r: seq<(real, Option<V>)>)
    ensures forall e :: e in r <==> e in table && e.1.Some?
    ensures StrictlyIncreasing(Labels(table)) ==> StrictlyIncreasing(Labels(r))
  {
    if |table| == 0 then []
    else
      var front := table[..|table| - 1];
      var rest := DropNa(front);
      var last := table[|table| - 1];
      assert StrictlyIncreasing(Labels(table)) ==> StrictlyIncreasing(Labels(front)) by {
        assert forall i :: 0 <= i < |front| ==> Labels(front)[i] == Labels(table)[i];
      }
      var r := if last.1.Some? then rest + [last] else rest;
      assert StrictlyIncreasing(Labels(table)) ==> StrictlyIncreasing(Labels(r)) by {
        if StrictlyIncreasing(Labels(table)) && last.1.Some? {
          forall i | 0 <= i < |rest| ensures rest[i].0 < last.0 {
            assert rest[i] in front;
            var k :| 0 <= k < |front| && front[k] == rest[i];
            assert Labels(table)[k] < Labels(table)[|table| - 1];
          }
          assert forall i :: 0 <= i < |rest| ==> Labels(r)[i] == Labels(rest)[i];
        }
      }
      r
  }

  /** `Index.intersection`: the labels of `a` that `b` also has, in the order of `a`. */
  function Intersection(a: seq<real>, b: seq<real>): (r: seq<real>)
    ensures forall x :: x in r <==> x in a && x in b
    ensures StrictlyIncreasing(a) ==> StrictlyIncreasing(r)
  {
    if |a| == 0 then []
    else
      var front := a[..|a| - 1];
      var rest := Intersection(front, b);
      var last := a[|a| - 1];
      assert StrictlyIncreasing(a) ==> StrictlyIncreasing(front);
      var r := if last in b then rest + [last] else rest;
      assert StrictlyIncreasing(a) ==> StrictlyIncreasing(r) by {
        if StrictlyIncreasing(a) && last in b {
          forall i | 0 <= i < |rest| ensures rest[i] < last {
            assert rest[i] in front;
          }
        }
      }
      r
  }

  predicate HasLabel<V>(table: seq<(real, V)>, key: real)
  {
    exists i :: 0 <= i < |table| && table[i].0 == key
  }

  /** The value of the row labelled `key` (the first such row). */
  function LookupLabel<V>(table: seq<(real, V)>, key: real): (v: V)
    requires HasLabel(table, key)
    ensures (key, v) in table
  {
    if table[0].0 == key then table[0].1
    else
      assert HasLabel(table[1..], key) by {
        var i :| 0 <= i < |table| && table[i].0 == key;
        assert table[1..][i - 1] == table[i];
      }
      LookupLabel(table[1..], key)
  }

  /** `.loc[labels]`: the values of the rows with the given labels, in the order of `labels`. */
  function Loc<V>(table: seq<(real, V)>, labels: seq<real>): (r: seq<V>)
    requires forall j :: 0 <= j < |labels| ==> HasLabel(table, labels[j])
    ensures |r| == |labels|
    ensures forall j :: 0 <= j < |labels| ==> (labels[j], r[j]) in table
  {
    seq(|labels|, j requires 0 <= j < |labels| => LookupLabel(table, labels[j]))
  }

  /** The positions, in order, where both columns have a value. */
  function BothPresent<V>(t1: seq<Option<V>>, t2: seq<Option<V>>): (kept: seq<nat>)
    requires |t1| == |t2|
    ensures |kept| <= |t1|
    ensures forall k :: 0 <= k < |kept| ==> kept[k] < |t1| && t1[kept[k]].Some? && t2[kept[k]].Some?
    ensures forall k, l :: 0 <= k < l < |kept| ==> kept[k] < kept[l]
    ensures forall i :: 0 <= i < |t1| && t1[i].Some? && t2[i].Some? ==> i in kept
  {
    TruePositions(seq(|t1|, i requires 0 <= i < |t1| => t1[i].Some? && t2[i].Some?))
  }

  lemma LabelsOfZip<V>(labels: seq<real>, values: seq<V>)
    requires |labels| == |values|
    ensures Labels(Zip(labels, values)) == labels
  {
  }

  /** The points of an increasing grid at increasing positions are increasing. */
  lemma SelectIncreasing(grid: seq<real>, ps: seq<nat>)
    requires StrictlyIncreasing(grid)
    requires forall k :: 0 <= k < |ps| ==> ps[k] < |grid|
    requires forall k, l :: 0 <= k < l < |ps| ==> ps[k] < ps[l]
    ensures StrictlyIncreasing(Select(grid, ps))
  {
    var sel := Select(grid, ps);
    forall k, l | 0 <= k < l < |sel| ensures sel[k] < sel[l] {
      assert ps[k] < ps[l];
    }
  }

  /** After `dropna`, a table built over `grid` is labelled by the grid points that have a value. */
  lemma DropNaLabels<V(!new)>(grid: seq<real>, col: seq<Option<V>>)
    requires |grid| == |col|
    ensures forall x :: x in Labels(DropNa(Zip(grid, col))) <==>
      exists i :: 0 <= i < |grid| && grid[i] == x && col[i].Some?
  {
    var table := Zip(grid, col);
    var d := DropNa(table);
    forall x ensures x in Labels(d) <==> exists i :: 0 <= i < |grid| && grid[i] == x && col[i].Some? {
      if x in Labels(d) {
        var k :| 0 <= k < |d| && Labels(d)[k] == x;
        assert d[k] in d;
        var i :| 0 <= i < |table| && table[i] == d[k];
        assert grid[i] == x && col[i].Some?;
      }
      if exists i :: 0 <= i < |grid| && grid[i] == x && col[i].Some? {
        var i :| 0 <= i < |grid| && grid[i] == x && col[i].Some?;
        assert table[i] in table;
        assert table[i] in d;
        var k :| 0 <= k < |d| && d[k] == table[i];
        assert Labels(d)[k] == x;
      }
    }
  }

  /**
   * `dropna` on both tables followed by `Index.intersection` of their labels
   * leaves exactly the grid points where both columns have a value, in grid order.
   */
  lemma IntersectionOnGrid<V(!new)>(grid: seq<real>, t1: seq<Option<V>>, t2: seq<Option<V>>)
    requires |grid| == |t1| == |t2| && StrictlyIncreasing(grid)
    ensures Intersection(Labels(DropNa(Zip(grid, t1))), Labels(DropNa(Zip(grid, t2))))
            == Select(grid, BothPresent(t1, t2))
  {
    var a := Labels(DropNa(Zip(grid, t1)));
    var b := Labels(DropNa(Zip(grid, t2)));
    var inter := Intersection(a, b);
    var kept := BothPresent(t1, t2);
    var sel := Select(grid, kept);
    LabelsOfZip(grid, t1);
    assert StrictlyIncreasing(a);
    SelectIncreasing(grid, kept);
    IntersectionMembers(grid, t1, t2);
    SelectMembers(grid, t1, t2);
    SortedSetEqual(inter, sel);
  }

  lemma IntersectionMembers<V(!new)>(grid: seq<real>, t1: seq<Option<V>>, t2: seq<Option<V>>)
    requires |grid| == |t1| == |t2| && StrictlyIncreasing(grid)
    ensures forall x :: x in Intersection(Labels(DropNa(Zip(grid, t1))), Labels(DropNa(Zip(grid, t2)))) <==>
      exists i :: 0 <= i < |grid| && grid[i] == x && t1[i].Some? && t2[i].Some?
  {
    var inter := Intersection(Labels(DropNa(Zip(grid, t1))), Labels(DropNa(Zip(grid, t2))));
    DropNaLabels(grid, t1);
    DropNaLabels(grid, t2);
    forall x ensures x in inter <==> exists i :: 0 <= i < |grid| && grid[i] == x && t1[i].Some? && t2[i].Some? {
      if x in inter {
        var i :| 0 <= i < |grid| && grid[i] == x && t1[i].Some?;
        var i' :| 0 <= i' < |grid| && grid[i'] == x && t2[i'].Some?;
        assert i == i';
      }
    }
  }

  lemma SelectMembers<V>(grid: seq<real>, t1: seq<Option<V>>, t2: seq<Option<V>>)
    requires |grid| == |t1| == |t2|
    ensures forall x :: x in Select(grid, BothPresent(t1, t2)) <==>
      exists i :: 0 <= i < |grid| && grid[i] == x && t1[i].Some? && t2[i].Some?
  {
    var kept := BothPresent(t1, t2);
    var sel := Select(grid, kept);
    forall x ensures x in sel <==> exists i :: 0 <= i < |grid| && grid[i] == x && t1[i].Some? && t2[i].Some? {
      if x in sel {
        var k :| 0 <= k < |sel| && sel[k] == x;
        assert grid[kept[k]] == x;
      }
      if exists i :: 0 <= i < |grid| && grid[i] == x && t1[i].Some? && t2[i].Some? {
        var i :| 0 <= i < |grid| && grid[i] == x && t1[i].Some? && t2[i].Some?;
        var k :| 0 <= k < |kept| && kept[k] == i;
        assert sel[k] == x;
      }
    }
  }

  /** With no value missing in either table, every grid point is kept. */
  lemma FullGridRetained<V>(grid: seq<real>, t1: seq<Option<V>>, t2: seq<Option<V>>)
    requires |grid| == |t1| == |t2| && StrictlyIncreasing(grid)
    requires !HasMissing(Zip(grid, t1)) && !HasMissing(Zip(grid, t2))
    ensures Select(grid, BothPresent(t1, t2)) == grid
  {
    var kept := BothPresent(t1, t2);
    var sel := Select(grid, kept);
    SelectIncreasing(grid, kept);
    forall x ensures x in sel <==> x in grid {
      if x in grid {
        var i :| 0 <= i < |grid| && grid[i] == x;
        assert Zip(grid, t1)[i].1 == t1[i] && Zip(grid, t2)[i].1 == t2[i];
        var k :| 0 <= k < |kept| && kept[k] == i;
        assert sel[k] == x;
      }
    }
    SortedSetEqual(sel, grid);
  }

  /** Every kept grid point labels a row of the table over `grid`, before and after `dropna`. */
  lemma KeptLabelsPresent<V(!new)>(grid: seq<real>, col: seq<Option<V>>, kept: seq<nat>)
    requires |grid| == |col|
    requires forall k :: 0 <= k < |kept| ==> kept[k] < |grid| && col[kept[k]].Some?
    ensures forall j :: 0 <= j < |kept| ==> HasLabel(Zip(grid, col), grid[kept[j]])
    ensures forall j :: 0 <= j < |kept| ==> HasLabel(DropNa(Zip(grid, col)), grid[kept[j]])
  {
    var table := Zip(grid, col);
    forall j | 0 <= j < |kept|
      ensures HasLabel(table, grid[kept[j]]) && HasLabel(DropNa(table), grid[kept[j]])
    {
      var i := kept[j];
      assert table[i].0 == grid[i];
      assert table[i] in table;
      assert table[i] in DropNa(table);
      var k :| 0 <= k < |DropNa(table)| && DropNa(table)[k] == table[i];
    }
  }

  /**
   * `.loc` at the kept grid points of a table whose rows come from the table
   * over `grid` reads the column at those points (the grid labels are distinct).
   */
  lemma LocOnGrid<V(!new)>(grid: seq<real>, col: seq<V>, table: seq<(real, V)>, kept: seq<nat>)
    requires |grid| == |col| && StrictlyIncreasing(grid)
    requires forall e :: e in table ==> e in Zip(grid, col)
    requires forall k :: 0 <= k < |kept| ==> kept[k] < |grid|
    requires forall j :: 0 <= j < |kept| ==> HasLabel(table, Select(grid, kept)[j])
    ensures Loc(table, Select(grid, kept)) == Select(col, kept)
  {
    var labels := Select(grid, kept);
    var r := Loc(table, labels);
    forall j | 0 <= j < |kept| ensures r[j] == col[kept[j]] {
      assert (labels[j], r[j]) in table;
      var zip := Zip(grid, col);
      var i :| 0 <= i < |zip| && zip[i] == (labels[j], r[j]);
      assert grid[i] == grid[kept[j]];
      assert i == kept[j];
    }
  }

  /** The labels and values left after `dropna` on both tables, the intersection and `.loc`. */
  lemma DropNaThenLoc<V(!new)>(grid: seq<real>, t1: seq<Option<V>>, t2: seq<Option<V>>)
    requires |grid| == |t1| == |t2| && StrictlyIncreasing(grid)
    ensures var kept := BothPresent(t1, t2);
            var d1, d2 := DropNa(Zip(grid, t1)), DropNa(Zip(grid, t2));
            var common := Intersection(Labels(d1), Labels(d2));
            common == Select(grid, kept)
            && (forall j :: 0 <= j < |common| ==> HasLabel(d1, common[j]) && HasLabel(d2, common[j]))
            && Loc(d1, common) == Select(t1, kept) && Loc(d2, common) == Select(t2, kept)
  {
    var kept := BothPresent(t1, t2);
    var d1, d2 := DropNa(Zip(grid, t1)), DropNa(Zip(grid, t2));
    IntersectionOnGrid(grid, t1, t2);
    KeptLabelsPresent(grid, t1, kept);
    KeptLabelsPresent(grid, t2, kept);
    LocOnGrid(grid, t1, d1, kept);
    LocOnGrid(grid, t2, d2, kept);
  }

  /** Without a missing value, `.loc` at the whole grid reads the columns unchanged. */
  lemma FullGridLoc<V(!new)>(grid: seq<real>, t1: seq<Option<V>>, t2: seq<Option<V>>)
    requires |grid| == |t1| == |t2| && StrictlyIncreasing(grid)
    requires !HasMissing(Zip(grid, t1)) && !HasMissing(Zip(grid, t2))
    ensures var kept := BothPresent(t1, t2);
            grid == Select(grid, kept)
            && (forall j :: 0 <= j < |grid| ==> HasLabel(Zip(grid, t1), grid[j]) && HasLabel(Zip(grid, t2), grid[j]))
            && Loc(Zip(grid, t1), grid) == Select(t1, kept) && Loc(Zip(grid, t2), grid) == Select(t2, kept)
  {
    var kept := BothPresent(t1, t2);
    FullGridRetained(grid, t1, t2);
    forall k | 0 <= k < |kept| ensures kept[k] == k {
      assert Select(grid, kept)[k] == grid[kept[k]];
    }
    FullLoc(grid, t1);
    FullLoc(grid, t2);
    assert Select(t1, kept) == t1;
    assert Select(t2, kept) == t2;
  }

  /** `.loc` at all the labels of a table with distinct labels reads its values in order. */
  lemma FullLoc<V>(grid: seq<real>, col: seq<V>)
    requires |grid| == |col| && StrictlyIncreasing(grid)
    ensures forall j :: 0 <= j < |grid| ==> HasLabel(Zip(grid, col), grid[j])
    ensures Loc(Zip(grid, col), grid) == col
  {
    var table := Zip(grid, col);
    forall j | 0 <= j < |grid| ensures HasLabel(table, grid[j]) {
      assert table[j].0 == grid[j];
    }
    var r := Loc(table, grid);
    forall j | 0 <= j < |grid| ensures r[j] == col[j] {
      assert (grid[j], r[j]) in table;
      var i :| 0 <= i < |table| && table[i] == (grid[j], r[j]);
      assert grid[i] == grid[j];
    }
  }

  /** Two strictly increasing sequences with the same elements are equal. */
  lemma {:induction false} SortedSetEqual(a: seq<real>, b: seq<real>)
    requires StrictlyIncreasing(a) && StrictlyIncreasing(b)
    requires forall x :: x in a <==> x in b
    ensures a == b
    decreases |a|
  {
    assert |a| > 0 ==> a[0] in a && a[0] in b;
    assert |b| > 0 ==> b[0] in b && b[0] in a;
    if |a| > 0 {
      assert a[0] == b[0] by {
        var i :| 0 <= i < |a| && a[i] == b[0];
        var j :| 0 <= j < |b| && b[j] == a[0];
        assert a[0] <= a[i] && b[0] <= b[j];
      }
      TailsSameMembers(a, b);
      SortedSetEqual(a[1..], b[1..]);
      assert a == [a[0]] + a[1..] && b == [b[0]] + b[1..];
    }
  }

  /** Removing the same least element from both leaves two increasing sequences with the same elements. */
  lemma TailsSameMembers(a: seq<real>, b: seq<real>)
    requires StrictlyIncreasing(a) && StrictlyIncreasing(b)
    requires |a| > 0 && |b| > 0 && a[0] == b[0]
    requires forall x :: x in a <==> x in b
    ensures StrictlyIncreasing(a[1..]) && StrictlyIncreasing(b[1..])
    ensures forall x :: x in a[1..] <==> x in b[1..]
  {
    forall x ensures x in a[1..] <==> x in b[1..] {
      if x in a[1..] {
        var i :| 0 <= i < |a| - 1 && a[1..][i] == x;
        assert a[i + 1] == x && a[0] < x;
        assert x in b;
        var j :| 0 <= j < |b| && b[j] == x;
        assert j > 0;
        assert b[1..][j - 1] == x;
      }
      if x in b[1..] {
        var i :| 0 <= i < |b| - 1 && b[1..][i] == x;
        assert b[i + 1] == x && b[0] < x;
        assert x in a;
        var j :| 0 <= j < |a| && a[j] == x;
        assert j > 0;
        assert a[1..][j - 1] == x;
      }
    }
  }
}

/**
 * The numeric building blocks the telemetry code takes from NumPy and from
 * Python itself: min/max of a column, `np.linspace` and `np.interp`, over
 * mathematical reals instead of IEEE doubles.
 */
module NumPy {

  function Abs(x: real): real { if x < 0.0 then -x else x }

  /** Python's built-in `max(a, b)` on two numbers. */
  function Max2(a: real, b: real): (m: real)
    ensures m >= a && m >= b && (m == a || m == b)
  {
    if a >= b then a else b
  }

  /** Python's built-in `min(a, b)` on two numbers. */
  function Min2(a: real, b: real): (m: real)
    ensures m <= a && m <= b && (m == a || m == b)
  {
    if a <= b then a else b
  }

  predicate StrictlyIncreasing(s: seq<real>)
  {
    forall i, j :: 0 <= i < j < |s| ==> s[i] < s[j]
  }

  predicate StrictlyDecreasing(s: seq<real>)
  {
    forall i, j :: 0 <= i < j < |s| ==> s[i] > s[j]
  }

  /** Strictly increasing or strictly decreasing: every `np.linspace` grid with distinct ends is one of them. */
  predicate Monotone(s: seq<real>)
  {
    StrictlyIncreasing(s) || StrictlyDecreasing(s)
  }

  /** The elements of `s` back to front. */
  function Reverse<T>(s: seq<T>): (r: seq<T>)
    ensures |r| == |s|
    ensures forall i :: 0 <= i < |s| ==> r[i] == s[|s| - 1 - i]
  {
    seq(|s|, i requires 0 <= i < |s| => s[|s| - 1 - i])
  }

  /** Reversing a strictly decreasing sequence gives a strictly increasing one. */
  lemma ReverseDecreasing(s: seq<real>)
    requires StrictlyDecreasing(s)
    ensures StrictlyIncreasing(Reverse(s))
  {
    var r := Reverse(s);
    forall i, j | 0 <= i < j < |r| ensures r[i] < r[j] {
      assert r[i] == s[|s| - 1 - i] && r[j] == s[|s| - 1 - j];
    }
  }

  /** `Series.min()` of a column without missing values. */
  function Min(s: seq<real>): (m: real)
    requires |s| > 0
    ensures m in s
    ensures forall i :: 0 <= i < |s| ==> m <= s[i]
  {
    if |s| == 1 then s[0]
    else
      var rest := Min(s[1..]);
      assert rest in s;
      if s[0] <= rest then s[0] else rest
  }

  /** `Series.max()` of a column without missing values. */
  function Max(s: seq<real>): (m: real)
    requires |s| > 0
    ensures m in s
    ensures forall i :: 0 <= i < |s| ==> s[i] <= m
  {
    if |s| == 1 then s[0]
    else
      var rest := Max(s[1..]);
      assert rest in s;
      if s[0] >= rest then s[0] else rest
  }

  /** The minimum and maximum of an increasing sequence are its first and last elements. */
  lemma MinMaxOfIncreasing(s: seq<real>)
    requires |s| > 0 && StrictlyIncreasing(s)
    ensures Min(s) == s[0] && Max(s) == s[|s| - 1]
  {
    IncreasingEnds(s);
    LeastIsMin(s, 0);
    GreatestIsMax(s, |s| - 1);
  }

  lemma IncreasingEnds(s: seq<real>)
    requires |s| > 0 && StrictlyIncreasing(s)
    ensures forall j :: 0 <= j < |s| && j != 0 ==> s[0] < s[j]
    ensures forall j :: 0 <= j < |s| && j != |s| - 1 ==> s[j] < s[|s| - 1]
  {
  }

  lemma LeastIsMin(s: seq<real>, k: nat)
    requires k < |s| && forall j :: 0 <= j < |s| && j != k ==> s[k] < s[j]
    ensures Min(s) == s[k]
  {
    var i :| 0 <= i < |s| && s[i] == Min(s);
  }

  lemma GreatestIsMax(s: seq<real>, k: nat)
    requires k < |s| && forall j :: 0 <= j < |s| && j != k ==> s[j] < s[k]
    ensures Max(s) == s[k]
  {
    var i :| 0 <= i < |s| && s[i] == Max(s);
  }

  /** The spacing between consecutive points of `Linspace(start, stop, num)`. */
  function Step(start: real, stop: real, num: nat): real
    requires num >= 2
  {
    (stop - start) / ((num - 1) as real)
  }

  /**
   * `np.linspace(start, stop, num)`: the points `start + i * step`, with the
   * last one set to `stop` exactly, as NumPy does for `endpoint=True`.
   */
  function Linspace(start: real, stop: real, num: nat): (g: seq<real>)
    requires num >= 2
    ensures |g| == num
  {
    seq(num, i requires 0 <= i < num =>
      if i == num - 1 then stop else start + (i as real) * Step(start, stop, num))
  }

  /** Every point of the grid, the last one included, is `start + i * step`. */
  lemma LinspaceAt(start: real, stop: real, num: nat, i: nat)
    requires num >= 2 && i < num
    ensures Linspace(start, stop, num)[i] == start + (i as real) * Step(start, stop, num)
  {
    if i == num - 1 {
      var n := (num - 1) as real;
      assert n * ((stop - start) / n) == stop - start;
    }
  }

  /** The grid starts at `start`, ends at `stop`, and consecutive points are one step apart. */
  lemma LinspaceEvenlySpaced(start: real, stop: real, num: nat)
    requires num >= 2
    ensures Linspace(start, stop, num)[0] == start
    ensures Linspace(start, stop, num)[num - 1] == stop
    ensures forall i :: 0 <= i < num - 1 ==>
      Linspace(start, stop, num)[i + 1] - Linspace(start, stop, num)[i] == Step(start, stop, num)
  {
    var g := Linspace(start, stop, num);
    var d := Step(start, stop, num);
    forall i | 0 <= i < num - 1
      ensures g[i + 1] - g[i] == d
    {
      LinspaceAt(start, stop, num, i);
      LinspaceAt(start, stop, num, i + 1);
      assert ((i + 1) as real) * d == (i as real) * d + d;
    }
  }

  /** The difference of two grid points is the number of steps between them times the step. */
  lemma LinspaceDifference(start: real, stop: real, num: nat, i: nat, j: nat)
    requires num >= 2 && i < j < num
    ensures Linspace(start, stop, num)[j] - Linspace(start, stop, num)[i]
            == ((j - i) as real) * Step(start, stop, num)
  {
    LinspaceAt(start, stop, num, i);
    LinspaceAt(start, stop, num, j);
    var d := Step(start, stop, num);
    assert (j as real) * d - (i as real) * d == ((j - i) as real) * d;
  }

  /** The grid is strictly increasing exactly when `start < stop`. */
  lemma LinspaceIncreasingIff(start: real, stop: real, num: nat)
    requires num >= 2
    ensures StrictlyIncreasing(Linspace(start, stop, num)) <==> start < stop
  {
    var g := Linspace(start, stop, num);
    LinspaceEvenlySpaced(start, stop, num);
    if start < stop {
      var d := Step(start, stop, num);
      assert d > 0.0;
      forall i, j | 0 <= i < j < num
        ensures g[i] < g[j]
      {
        LinspaceDifference(start, stop, num, i, j);
        MulPositive((j - i) as real, d);
      }
    } else {
      assert !(g[0] < g[num - 1]);
    }
  }

  /** With `start > stop` (no guard stops it) the grid runs backwards. */
  lemma LinspaceDecreasing(start: real, stop: real, num: nat)
    requires num >= 2 && start > stop
    ensures StrictlyDecreasing(Linspace(start, stop, num))
  {
    var g := Linspace(start, stop, num);
    var d := Step(start, stop, num);
    assert d < 0.0;
    forall i, j | 0 <= i < j < num
      ensures g[i] > g[j]
    {
      LinspaceDifference(start, stop, num, i, j);
      MulPositive((j - i) as real, -d);
      assert ((j - i) as real) * d == -(((j - i) as real) * -d);
    }
  }

  /** With `start <= stop` every grid point lies in `[start, stop]`. */
  lemma LinspaceWithin(start: real, stop: real, num: nat)
    requires num >= 2 && start <= stop
    ensures forall i :: 0 <= i < num ==> start <= Linspace(start, stop, num)[i] <= stop
  {
    var g := Linspace(start, stop, num);
    var d := Step(start, stop, num);
    forall i | 0 <= i < num
      ensures start <= g[i] <= stop
    {
      LinspaceAt(start, stop, num, i);
      LinspaceAt(start, stop, num, num - 1);
      var a, b := i as real, (num - 1) as real;
      assert 0.0 <= a <= b && d >= 0.0;
      assert a * d <= b * d by { MulMonotone(a, b, d); }
      assert 0.0 <= a * d by { MulMonotone(0.0, a, d); }
    }
  }

  lemma MulPositive(a: real, b: real)
    requires a > 0.0 && b > 0.0
    ensures a * b > 0.0
  {}

  lemma MulMonotone(a: real, b: real, c: real)
    requires a <= b && c >= 0.0
    ensures a * c <= b * c
  {}

  /**
   * `np.interp(x, xp, fp)` with the default clamping: `fp[0]` left of the
   * samples, `fp[last]` from the last sample on, and the straight line through
   * the two neighbouring samples in between. NumPy finds the segment by binary
   * search; the recursion walks the same segments front to back.
   */
  function Interp(x: real, xp: seq<real>, fp: seq<real>): (r: real)
    requires |xp| == |fp| > 0
    requires StrictlyIncreasing(xp)
    ensures Min(fp) <= r <= Max(fp)
    decreases |xp|
  {
    if x < xp[0] || |xp| == 1 then fp[0]
    else if x < xp[1] then
      if x == xp[0] then fp[0]
      else
        BlendBetween(xp[0], xp[1], fp[0], fp[1], x);
        assert fp[1] in fp;
        Segment(xp[0], xp[1], fp[0], fp[1], x)
    else
      assert StrictlyIncreasing(xp[1..]);
      var r := Interp(x, xp[1..], fp[1..]);
      MinMaxOfTail(fp);
      r
  }

  /** NumPy's formula on one segment: `slope * (x - x0) + f0`. */
  function Segment(x0: real, x1: real, f0: real, f1: real, x: real): real
    requires x0 < x1
  {
    (f1 - f0) / (x1 - x0) * (x - x0) + f0
  }

  /** The linear blend of `f0` and `f1` at the fraction `(x - x0) / (x1 - x0)` of the way from `x0` to `x1`. */
  function Blend(x0: real, x1: real, f0: real, f1: real, x: real): real
    requires x0 < x1
  {
    f0 + (f1 - f0) * (x - x0) / (x1 - x0)
  }

  /** On a segment NumPy's formula is the linear blend of the segment's two end values. */
  lemma SegmentIsBlend(x0: real, x1: real, f0: real, f1: real, x: real)
    requires x0 < x1
    ensures Segment(x0, x1, f0, f1, x) == Blend(x0, x1, f0, f1, x)
  {
    var a, u, w := f1 - f0, x - x0, x1 - x0;
    var s := a / w;
    assert s * w == a;
    assert (s * u) * w == a * u;
    assert s * u == a * u / w;
  }

  /** Strictly inside a segment NumPy's formula stays between the two end values. */
  lemma BlendBetween(x0: real, x1: real, f0: real, f1: real, x: real)
    requires x0 < x < x1
    ensures Min2(f0, f1) <= Segment(x0, x1, f0, f1, x) <= Max2(f0, f1)
  {
    var u, w := x - x0, x1 - x0;
    var t := u / w;
    FractionBetween(u, w);
    SegmentIsBlend(x0, x1, f0, f1, x);
    var a := f1 - f0;
    assert a * u / w == a * t by {
      assert t * w == u;
      assert (a * t) * w == a * u;
    }
    if f0 <= f1 {
      MulMonotone(0.0, t, a);
      MulMonotone(t, 1.0, a);
    } else {
      MulMonotone(0.0, t, -a);
      MulMonotone(t, 1.0, -a);
      var p := t * -a;
      assert 1.0 * -a == -a;
      assert 0.0 <= p <= -a;
      assert a * t == -p;
    }
  }

  lemma FractionBetween(u: real, w: real)
    requires 0.0 < u < w
    ensures 0.0 < u / w < 1.0
  {
    var t := u / w;
    assert t * w == u;
    if t >= 1.0 { MulMonotone(1.0, t, w); }
    if t <= 0.0 { MulMonotone(t, 0.0, w); }
  }

  lemma MinMaxOfTail(s: seq<real>)
    requires |s| > 1
    ensures Min(s) <= Min(s[1..]) && Max(s[1..]) <= Max(s)
  {
    var m := Min(s[1..]);
    var k :| 0 <= k < |s| - 1 && s[1..][k] == m;
    assert s[k + 1] == m;
    var n := Max(s[1..]);
    var l :| 0 <= l < |s| - 1 && s[1..][l] == n;
    assert s[l + 1] == n;
  }

  /** At a sample time `np.interp` returns that sample's value. */
  lemma {:induction false} InterpAtSample(xp: seq<real>, fp: seq<real>, k: nat)
    requires |xp| == |fp| > 0 && StrictlyIncreasing(xp) && k < |xp|
    ensures Interp(xp[k], xp, fp) == fp[k]
    decreases k
  {
    if k > 0 {
      assert xp[0] < xp[k];
      assert 1 <= k ==> xp[1] <= xp[k];
      assert StrictlyIncreasing(xp[1..]);
      InterpAtSample(xp[1..], fp[1..], k - 1);
    }
  }

  /** Strictly between two consecutive samples the value is the linear blend of the two. */
  lemma {:induction false} InterpBetween(xp: seq<real>, fp: seq<real>, k: nat, x: real)
    requires |xp| == |fp| && StrictlyIncreasing(xp) && k + 1 < |xp|
    requires xp[k] < x < xp[k + 1]
    ensures Interp(x, xp, fp) == Blend(xp[k], xp[k + 1], fp[k], fp[k + 1], x)
    decreases k
  {
    if k == 0 {
      SegmentIsBlend(xp[0], xp[1], fp[0], fp[1], x);
    } else {
      assert xp[1] <= xp[k];
      assert StrictlyIncreasing(xp[1..]);
      assert Interp(x, xp, fp) == Interp(x, xp[1..], fp[1..]);
      InterpBetween(xp[1..], fp[1..], k - 1, x);
      assert xp[1..][k - 1] == xp[k] && xp[1..][k] == xp[k + 1];
      assert fp[1..][k - 1] == fp[k] && fp[1..][k] == fp[k + 1];
    }
  }

  /** Outside the sample range the value clamps to the first or the last sample. */
  lemma {:induction false} InterpClamped(xp: seq<real>, fp: seq<real>, x: real)
    requires |xp| == |fp| > 0 && StrictlyIncreasing(xp)
    ensures x <= xp[0] ==> Interp(x, xp, fp) == fp[0]
    ensures x >= xp[|xp| - 1] ==> Interp(x, xp, fp) == fp[|fp| - 1]
    decreases |xp|
  {
    if x <= xp[0] && x == xp[0] {
      InterpAtSample(xp, fp, 0);
    }
    if x >= xp[|xp| - 1] && |xp| > 1 {
      assert xp[1] <= xp[|xp| - 1];
      assert StrictlyIncreasing(xp[1..]);
      InterpClamped(xp[1..], fp[1..], x);
    }
  }
}

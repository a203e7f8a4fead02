/** The downsampler and chart-series shaping of components/Graph.js.

    `downsample(array, targetPoints)` averages `targetPoints` consecutive
    windows of `ceil(n / targetPoints)` elements each. The end of a window is
    clamped to the data, and a window that starts at or past the end is empty:
    its average is `0 / 0`, which is NaN. The model keeps that behaviour. */
module Graph {
  import opened Wrappers
  import opened JsNumber

  /** The cap on the number of chart points (`Math.min(frequency.length, 100)`). */
  const MaxTargetPoints: nat := 100
  /** Pixels of chart width per point, and the number of points the width
      may grow to before it stops growing. */
  const BaseWidthPerDataPoint: nat := 35
  const MaxVisiblePoints: nat := 10

  function Min(a: int, b: int): int {
    if a <= b then a else b
  }

  /** `Math.ceil(n / targetPoints)` for a positive target: the smallest
      window size whose `targetPoints` windows reach the end of the data. */
  function Ratio(n: nat, targetPoints: nat): (r: nat)
    requires targetPoints > 0
    ensures n <= r * targetPoints
    ensures r > 0 ==> (r - 1) * targetPoints < n
  {
    var r := (n + targetPoints - 1) / targetPoints;
    assert r * targetPoints + (n + targetPoints - 1) % targetPoints == n + targetPoints - 1;
    r
  }

  /** ECMAScript `Array.prototype.slice(start, end)` for non-negative
      bounds: both are clamped to the length and an inverted range is empty. */
  function JsSlice<T>(a: seq<T>, start: nat, end: nat): (w: seq<T>)
    ensures |w| <= |a|
  {
    var lo := Min(start, |a|);
    var hi := Min(end, |a|);
    if hi <= lo then [] else a[lo..hi]
  }

  /** `reduce((sum, value) => sum + value, 0)`: a left fold from zero. */
  function Sum(w: seq<real>): real {
    if |w| == 0 then 0.0 else Sum(w[..|w| - 1]) + w[|w| - 1]
  }

  /** JavaScript division of a real by a length: `0 / 0` is NaN and any
      other division by zero is an infinity. */
  function Divide(x: real, len: nat): Number {
    if len > 0 then Finite(x / len as real)
    else if x == 0.0 then NaN
    else Infinity(x < 0.0)
  }

  /** The arithmetic mean of a window, NaN for the empty window. */
  function Mean(w: seq<real>): Number {
    if |w| == 0 then NaN else Finite(Sum(w) / |w| as real)
  }

  function WindowStart(n: nat, targetPoints: nat, i: nat): nat
    requires targetPoints > 0
  {
    i * Ratio(n, targetPoints)
  }

  function WindowEnd(n: nat, targetPoints: nat, i: nat): nat
    requires targetPoints > 0
  {
    Min(n, WindowStart(n, targetPoints, i) + Ratio(n, targetPoints))
  }

  /** Window `i` of the data: indices `[i * ratio, min(n, i * ratio + ratio))`,
      empty once the start is at or past `n`. */
  function Window(a: seq<real>, targetPoints: nat, i: nat): seq<real>
    requires targetPoints > 0
  {
    var start := WindowStart(|a|, targetPoints, i);
    if start < |a| then a[start..WindowEnd(|a|, targetPoints, i)] else []
  }

  /** The reducer `(sum, value) => sum + value` run over a window from 0. */
  method FoldSum(w: seq<real>) returns (total: real)
    ensures total == Sum(w)
  {
    total := 0.0;
    var j := 0;
    while j < |w|
      invariant 0 <= j <= |w|
      invariant total == Sum(w[..j])
    {
      assert w[..j + 1][..j] == w[..j];
      total := total + w[j];
      j := j + 1;
    }
    assert w[..j] == w;
  }

  /** The slice `downsample` takes for index `i`, with the end clamped to
      the data, is window `i`. */
  lemma SlicedWindow(a: seq<real>, targetPoints: nat, i: nat)
    requires targetPoints > 0
    ensures var start := i * Ratio(|a|, targetPoints);
      var end := if start + Ratio(|a|, targetPoints) >= |a| then |a| else start + Ratio(|a|, targetPoints);
      JsSlice(a, start, end) == Window(a, targetPoints, i)
  {
  }

  /** `downsample(array, targetPoints)` as written: for each `i` below
      `targetPoints` the window bounds are computed, the window is sliced,
      summed by a left fold and divided by its length. The result has exactly
      `targetPoints` entries (none for a non-positive target) and entry `i` is
      the mean of window `i`. */
  method Downsample(a: seq<real>, targetPoints: int) returns (r: seq<Number>)
    ensures |r| == if targetPoints > 0 then targetPoints else 0
    ensures forall i :: 0 <= i < |r| ==> r[i] == Mean(Window(a, targetPoints, i))
  {
    r := [];
    if targetPoints <= 0 {
      return;
    }
    var ratio := Ratio(|a|, targetPoints);
    var i := 0;
    while i < targetPoints
      invariant 0 <= i <= targetPoints && |r| == i
      invariant forall k :: 0 <= k < i ==> r[k] == Mean(Window(a, targetPoints, k))
    {
      var start := i * ratio;
      var end := if start + ratio >= |a| then |a| else start + ratio;
      var window := JsSlice(a, start, end);
      SlicedWindow(a, targetPoints, i);
      var total := FoldSum(window);
      r := r + [Divide(total, |window|)];
      i := i + 1;
    }
  }

  /** Sum of a window of equal values. */
  lemma {:induction false} SumConstant(w: seq<real>, v: real)
    requires forall j :: 0 <= j < |w| ==> w[j] == v
    ensures Sum(w) == |w| as real * v
  {
    if |w| > 0 {
      SumConstant(w[..|w| - 1], v);
    }
  }

  /** Entry `i` is the empty-window NaN exactly when its window starts at or
      past the end of the data; otherwise it is the finite mean. */
  lemma EmptyWindowIffPastEnd(a: seq<real>, targetPoints: nat, i: nat)
    requires 0 < targetPoints && i < targetPoints
    ensures Mean(Window(a, targetPoints, i)).NaN?
      <==> i * Ratio(|a|, targetPoints) >= |a|
    ensures i * Ratio(|a|, targetPoints) < |a| ==>
      |Window(a, targetPoints, i)| > 0 && Mean(Window(a, targetPoints, i)).Finite?
  {
    var start := WindowStart(|a|, targetPoints, i);
    if start < |a| {
      assert Ratio(|a|, targetPoints) > 0;
      assert WindowEnd(|a|, targetPoints, i) > start;
    }
  }

  /** A constant input `v` gives `v` in every entry whose window is not
      empty. */
  lemma ConstantInputGivesConstant(a: seq<real>, v: real, targetPoints: nat, i: nat)
    requires forall j :: 0 <= j < |a| ==> a[j] == v
    requires 0 < targetPoints && i < targetPoints
    requires i * Ratio(|a|, targetPoints) < |a|
    ensures Mean(Window(a, targetPoints, i)) == Finite(v)
  {
    var w := Window(a, targetPoints, i);
    EmptyWindowIffPastEnd(a, targetPoints, i);
    SumConstant(w, v);
  }

  /** When the data is no longer than the target, every window holds one
      element: the first `n` entries copy the input and the rest are NaN. */
  lemma ShortInputIsCopied(a: seq<real>, targetPoints: nat)
    requires 0 < |a| <= targetPoints
    ensures Ratio(|a|, targetPoints) == 1
    ensures forall i :: 0 <= i < |a| ==> Mean(Window(a, targetPoints, i)) == Finite(a[i])
    ensures forall i :: |a| <= i < targetPoints ==> Mean(Window(a, targetPoints, i)).NaN?
  {
    var r := Ratio(|a|, targetPoints);
    if r > 1 {
      MultipleStep(0, r - 1, targetPoints);
      assert false;
    }
    forall i | 0 <= i < |a|
      ensures Mean(Window(a, targetPoints, i)) == Finite(a[i])
    {
      var w := Window(a, targetPoints, i);
      assert w == [a[i]];
      assert Sum(w) == Sum([]) + a[i];
    }
  }

  /** Window `i` contains index `j`. */
  predicate InWindow(n: nat, targetPoints: nat, i: nat, j: nat)
    requires targetPoints > 0
  {
    WindowStart(n, targetPoints, i) <= j < WindowEnd(n, targetPoints, i)
  }

  lemma DivisionBounds(j: nat, r: nat)
    requires r > 0
    ensures (j / r) * r <= j < (j / r) * r + r
  {
  }

  lemma {:induction false} MultipleStep(a: nat, b: nat, r: nat)
    requires a < b
    ensures a * r + r <= b * r
    decreases b - a
  {
    assert (b - 1) * r + r == b * r;
    if a < b - 1 {
      MultipleStep(a, b - 1, r);
    }
  }

  /** Index `j` lies in window `i` exactly when `i * ratio <= j < i * ratio + ratio`. */
  lemma InWindowIff(n: nat, targetPoints: nat, i: nat, j: nat)
    requires 0 < targetPoints && j < n
    ensures InWindow(n, targetPoints, i, j) <==>
      i * Ratio(n, targetPoints) <= j < i * Ratio(n, targetPoints) + Ratio(n, targetPoints)
  {
  }

  /** The windows cover every input index exactly once: index `j` lies in
      window `j / ratio`, which is below `targetPoints`, and in no other. */
  lemma EachIndexInExactlyOneWindow(n: nat, targetPoints: nat, j: nat)
    requires 0 < targetPoints && j < n
    ensures Ratio(n, targetPoints) > 0
    ensures j / Ratio(n, targetPoints) < targetPoints
    ensures InWindow(n, targetPoints, j / Ratio(n, targetPoints), j)
    ensures forall i :: 0 <= i < targetPoints && InWindow(n, targetPoints, i, j) ==>
      i == j / Ratio(n, targetPoints)
  {
    var r := Ratio(n, targetPoints);
    var q := j / r;
    DivisionBounds(j, r);
    if q >= targetPoints {
      if q > targetPoints {
        MultipleStep(targetPoints, q, r);
      }
      assert false;
    }
    InWindowIff(n, targetPoints, q, j);
    forall i | 0 <= i < targetPoints && InWindow(n, targetPoints, i, j)
      ensures i == q
    {
      InWindowIff(n, targetPoints, i, j);
      if i < q {
        MultipleStep(i, q, r);
      } else if i > q {
        MultipleStep(q, i, r);
      }
    }
  }

  /** Consecutive windows are contiguous and increasing: window `i` ends
      where window `i + 1` starts, unless the data ended first. */
  lemma WindowsContiguous(n: nat, targetPoints: nat, i: nat)
    requires 0 < targetPoints
    ensures WindowStart(n, targetPoints, i) <= WindowStart(n, targetPoints, i + 1)
    ensures WindowEnd(n, targetPoints, i) == Min(n, WindowStart(n, targetPoints, i + 1))
  {
    var r := Ratio(n, targetPoints);
    assert (i + 1) * r == i * r + r;
  }

  /** Downsampling 250 values to 100 points uses windows of 3 and leaves
      entries 84 to 99 as the empty-window NaN. */
  lemma TwoHundredFiftyToHundred(a: seq<real>)
    requires |a| == 250
    ensures Ratio(|a|, 100) == 3
    ensures forall i :: 0 <= i < 100 ==> (Mean(Window(a, 100, i)).NaN? <==> i >= 84)
  {
    assert Ratio(250, 100) == 3;
    forall i | 0 <= i < 100
      ensures Mean(Window(a, 100, i)).NaN? <==> i >= 84
    {
      EmptyWindowIffPastEnd(a, 100, i);
    }
  }

  /** One chart point `{x, y}`. `y` is `None` (undefined) when the y-series
      is shorter than the x-series. */
  datatype Point = Point(x: Number, y: Option<Number>)

  /** `xs.map((x, index) => ({x: x, y: ys[index]}))`. */
  function Zip(xs: seq<Number>, ys: seq<Number>): (ps: seq<Point>)
    ensures |ps| == |xs|
  {
    seq(|xs|, k requires 0 <= k < |xs| => Point(xs[k], if k < |ys| then Some(ys[k]) else None))
  }

  function Xs(ps: seq<Point>): seq<Number> {
    seq(|ps|, k requires 0 <= k < |ps| => ps[k].x)
  }

  function Ys(ps: seq<Point>): seq<Option<Number>> {
    seq(|ps|, k requires 0 <= k < |ps| => ps[k].y)
  }

  /** Unzipping the points gives back the x-series, and the y-series
      wherever it is long enough; past its end `y` is undefined. */
  lemma UnzipZip(xs: seq<Number>, ys: seq<Number>)
    ensures Xs(Zip(xs, ys)) == xs
    ensures forall k :: 0 <= k < |xs| ==>
      Ys(Zip(xs, ys))[k] == if k < |ys| then Some(ys[k]) else None
  {
  }

  /** `Math.min(length * 35, 10 * 35)`. */
  function DynamicWidth(length: nat): (w: nat)
    ensures w <= MaxVisiblePoints * BaseWidthPerDataPoint
    ensures length <= MaxVisiblePoints ==> w == length * BaseWidthPerDataPoint
    ensures length >= MaxVisiblePoints ==> w == MaxVisiblePoints * BaseWidthPerDataPoint
  {
    Min(length * BaseWidthPerDataPoint, MaxVisiblePoints * BaseWidthPerDataPoint)
  }

  /** A longer series never gets a narrower chart. */
  lemma DynamicWidthMonotone(a: nat, b: nat)
    requires a <= b
    ensures DynamicWidth(a) <= DynamicWidth(b)
  {
  }

  /** The series the chart receives: both series downsampled to
      `min(frequency.length, 100)` points, zipped by index, and the width
      hint from the number of points. Every point has a defined `y`, and a
      series of at most 100 values of equal length is passed through
      unchanged. */
  method ChartData(frequency: seq<real>, amplitude: seq<real>) returns (points: seq<Point>, width: nat)
    ensures |points| == Min(|frequency|, MaxTargetPoints)
    ensures width == DynamicWidth(|points|) && width <= 350
    ensures forall k :: 0 <= k < |points| ==>
      && points[k].x == Mean(Window(frequency, |points|, k))
      && points[k].y == Some(Mean(Window(amplitude, |points|, k)))
    ensures 0 < |frequency| <= MaxTargetPoints && |amplitude| == |frequency| ==>
      forall k :: 0 <= k < |points| ==> points[k] == Point(Finite(frequency[k]), Some(Finite(amplitude[k])))
  {
    var targetPoints := Min(|frequency|, MaxTargetPoints);
    var xs := Downsample(frequency, targetPoints);
    var ys := Downsample(amplitude, targetPoints);
    points := Zip(xs, ys);
    width := DynamicWidth(|xs|);
    if 0 < |frequency| <= MaxTargetPoints && |amplitude| == |frequency| {
      ShortInputIsCopied(frequency, targetPoints);
      ShortInputIsCopied(amplitude, targetPoints);
    }
  }
}

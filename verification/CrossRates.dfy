/** Joining two price series by nearest time (`buildCrossRatePoints`). */
module CrossRates {
  import opened Numbers
  import opened Sorting

  datatype RawPoint = RawPoint(time: Number, value: Number)

  datatype Point = Point(time: real, value: real)

  const DEFAULT_INTERVAL := 3600.0

  function Distance(a: real, b: real): real {
    if a <= b then b - a else a - b
  }

  // ---------- Preparing a series ----------

  predicate IsValid(p: RawPoint) {
    p.time.Finite? && p.value.Finite? && p.time.r > 0.0 && p.value.r > 0.0
  }

  function Filtered(points: seq<RawPoint>): (r: seq<Point>)
    ensures forall p <- r :: p.time > 0.0 && p.value > 0.0
  {
    if points == [] then []
    else Filtered(points[..|points| - 1]) +
         var p := points[|points| - 1];
         if IsValid(p) then [Point(p.time.r, p.value.r)] else []
  }

  /** `validMarketPoints`. */
  function ValidPoints(points: seq<RawPoint>): seq<Point> {
    Sort(Filtered(points), (a: Point, b: Point) => a.time <= b.time)
  }

  ghost predicate InOrder(s: seq<Point>) {
    forall i, j :: 0 <= i < j < |s| ==> s[i].time <= s[j].time
  }

  lemma {:induction false} ValidPointsInOrder(points: seq<RawPoint>)
    ensures InOrder(ValidPoints(points))
    ensures multiset(ValidPoints(points)) == multiset(Filtered(points))
    ensures forall p <- ValidPoints(points) :: p.time > 0.0 && p.value > 0.0
  {
    var le := (a: Point, b: Point) => a.time <= b.time;
    assert TotalPreorder(le);
    SortSorts(Filtered(points), le);
    SortPermutes(Filtered(points), le);
    forall p <- ValidPoints(points) ensures p in Filtered(points) {
      assert p in multiset(ValidPoints(points));
    }
  }

  function PositiveGaps(points: seq<Point>): (r: seq<real>)
    ensures forall g <- r :: g > 0.0
  {
    if |points| < 2 then []
    else
      var gap := points[|points| - 1].time - points[|points| - 2].time;
      PositiveGaps(points[..|points| - 1]) + if gap > 0.0 then [gap] else []
  }

  predicate NoLonger(a: real, b: real) { a <= b }

  /** `estimatePointInterval`: the upper median of the positive gaps. */
  function EstimateInterval(points: seq<Point>): real {
    var gaps := Sort(PositiveGaps(points), NoLonger);
    if gaps == [] then DEFAULT_INTERVAL else gaps[|gaps| / 2]
  }

  function Ceil(x: real): int { -(-x).Floor }

  function Tolerance(source: seq<Point>, market: seq<Point>): int {
    var (a, b) := (EstimateInterval(source), EstimateInterval(market));
    Ceil((if a < b then b else a) * 1.5)
  }

  // ---------- The nearest point, by looking at all of them ----------

  /** Brute force: scan everything, keeping the last minimum. */
  function LastNearest(market: seq<Point>, t: real): (k: nat)
    requires market != []
    ensures k < |market|
  {
    var n := |market| - 1;
    if n == 0 then 0
    else
      var k := LastNearest(market[..n], t);
      if Distance(market[n].time, t) <= Distance(market[k].time, t) then n else k
  }

  ghost predicate IsLastNearest(market: seq<Point>, t: real, k: nat) {
    k < |market| &&
    (forall i :: 0 <= i < |market| ==> Distance(market[k].time, t) <= Distance(market[i].time, t)) &&
    (forall i :: k < i < |market| ==> Distance(market[k].time, t) < Distance(market[i].time, t))
  }

  lemma {:induction false} LastNearestIsLastNearest(market: seq<Point>, t: real)
    requires market != []
    ensures IsLastNearest(market, t, LastNearest(market, t))
  {
    if |market| > 1 {
      LastNearestIsLastNearest(market[..|market| - 1], t);
    }
  }

  // ---------- Why one forward pointer finds it ----------

  /** Later source points have their nearest market point no earlier. */
  lemma NearestMovesForward(market: seq<Point>, t: real, u: real, j: nat, k: nat)
    requires InOrder(market) && t <= u && IsLastNearest(market, t, j) && IsLastNearest(market, u, k)
    ensures j <= k
  {
    var (a, b) := (market[j].time, market[k].time);
    assert Distance(a, t) <= Distance(b, t) && Distance(b, u) <= Distance(a, u);
  }

  /** Up to the last nearest point no step goes further away, and the step past it does. */
  lemma ClimbToNearest(market: seq<Point>, t: real, k: nat, i: nat)
    requires InOrder(market) && IsLastNearest(market, t, k) && i + 1 < |market| && i <= k
    ensures Distance(market[i + 1].time, t) <= Distance(market[i].time, t) <==> i < k
  {
  }

  // ---------- The join ----------

  function CrossRate(p: Point, m: Point): Point
    requires p.value > 0.0
  {
    Point(p.time, m.value / p.value)
  }

  function Joined(p: Point, market: seq<Point>, tolerance: int): seq<Point>
    requires market != [] && p.value > 0.0
  {
    var m := market[LastNearest(market, p.time)];
    if Distance(m.time, p.time) > tolerance as real then [] else [CrossRate(p, m)]
  }

  /** The naive join: every source point with a globally nearest market point within tolerance. */
  function Join(source: seq<Point>, market: seq<Point>, tolerance: int): seq<Point>
    requires market != [] && forall p <- source :: p.value > 0.0
  {
    if source == [] then []
    else Join(source[..|source| - 1], market, tolerance) + Joined(source[|source| - 1], market, tolerance)
  }

  lemma {:induction false} EmptyJoin(source: seq<Point>, market: seq<Point>, tolerance: int)
    requires market != [] && source == []
    ensures Join(source, market, tolerance) == []
  {
  }

  lemma {:induction false} JoinSnoc(source: seq<Point>, i: nat, market: seq<Point>, tolerance: int)
    requires market != [] && i < |source| && forall p <- source :: p.value > 0.0
    ensures Join(source[..i + 1], market, tolerance) ==
            Join(source[..i], market, tolerance) + Joined(source[i], market, tolerance)
  {
    assert source[..i + 1][..i] == source[..i];
  }

  /** The inner loop: from anywhere before it the pointer stops at the last nearest point. */
  method Advance(market: seq<Point>, t: real, start: nat) returns (index: nat, moves: nat)
    requires InOrder(market) && market != [] && start <= LastNearest(market, t)
    ensures index == LastNearest(market, t) == start + moves
  {
    hide LastNearest;
    hide IsLastNearest;
    hide Distance;
    hide InOrder;
    ghost var k := LastNearest(market, t);
    LastNearestIsLastNearest(market, t);
    index, moves := start, 0;
    while index + 1 < |market| && Distance(market[index + 1].time, t) <= Distance(market[index].time, t)
      invariant index == start + moves <= k
    {
      ClimbToNearest(market, t, k, index);
      index, moves := index + 1, moves + 1;
    }
    if index + 1 < |market| {
      ClimbToNearest(market, t, k, index);
    }
  }

  /** The two-pointer pass: equal to the naive join, with fewer pointer moves in all than there are market points. */
  method BuildCrossRatePoints(sourcePoints: seq<RawPoint>, marketPoints: seq<RawPoint>)
    returns (r: seq<Point>, advances: nat)
    ensures var (source, market) := (ValidPoints(sourcePoints), ValidPoints(marketPoints));
            if |source| < 2 || |market| < 2 then r == []
            else (forall p <- source :: p.value > 0.0) &&
                 r == Join(source, market, Tolerance(source, market)) && advances < |market|
  {
    hide ValidPoints;
    hide Tolerance;
    hide LastNearest;
    hide Join;
    hide IsLastNearest;
    hide Distance;
    hide InOrder;
    hide CrossRate;
    var source := ValidPoints(sourcePoints);
    var market := ValidPoints(marketPoints);
    ValidPointsInOrder(sourcePoints);
    ValidPointsInOrder(marketPoints);
    r, advances := [], 0;
    if |source| < 2 || |market| < 2 {
      return;
    }
    var tolerance := Tolerance(source, market);
    var marketIndex := 0;
    EmptyJoin(source[..0], market, tolerance);
    for i := 0 to |source|
      invariant marketIndex == advances < |market|
      invariant i < |source| ==> marketIndex <= LastNearest(market, source[i].time)
      invariant r == Join(source[..i], market, tolerance)
    {
      var t := source[i].time;
      var index, moves := Advance(market, t, marketIndex);
      marketIndex, advances := index, advances + moves;
      var point := market[marketIndex];
      if Distance(point.time, t) <= tolerance as real {
        r := r + [CrossRate(source[i], point)];
      }
      JoinSnoc(source, i, market, tolerance);
      if i + 1 < |source| { NearestStaysAhead(source, market, i); }
    }
    assert source[..|source|] == source;
  }

  lemma {:induction false} NearestStaysAhead(source: seq<Point>, market: seq<Point>, i: nat)
    requires InOrder(source) && InOrder(market) && market != [] && i + 1 < |source|
    ensures LastNearest(market, source[i].time) <= LastNearest(market, source[i + 1].time)
  {
    var (t, u) := (source[i].time, source[i + 1].time);
    LastNearestIsLastNearest(market, t);
    LastNearestIsLastNearest(market, u);
    NearestMovesForward(market, t, u, LastNearest(market, t), LastNearest(market, u));
  }

  ghost predicate IsSubsequence(a: seq<real>, b: seq<real>)
    decreases b
  {
    if a == [] then true
    else b != [] &&
         ((a[|a| - 1] == b[|b| - 1] && IsSubsequence(a[..|a| - 1], b[..|b| - 1])) || IsSubsequence(a, b[..|b| - 1]))
  }

  function Times(s: seq<Point>): (r: seq<real>)
    ensures |r| == |s|
  {
    seq(|s|, i requires 0 <= i < |s| => s[i].time)
  }

  /** The rates appear at source times, in source order, each at most as often as its source point. */
  lemma {:induction false} JoinTimes(source: seq<Point>, market: seq<Point>, tolerance: int)
    requires market != [] && forall p <- source :: p.value > 0.0
    ensures IsSubsequence(Times(Join(source, market, tolerance)), Times(source))
  {
    if source != [] {
      var init := source[..|source| - 1];
      var p := source[|source| - 1];
      JoinTimes(init, market, tolerance);
      var (a, b) := (Times(Join(init, market, tolerance)), Times(init));
      assert Times(source)[..|init|] == b;
      var all := Times(Join(source, market, tolerance));
      if Joined(p, market, tolerance) == [] {
        assert all == a;
      } else {
        assert all[..|a|] == a;
      }
    }
  }

  // ---------- What the parts compute ----------

  /** How far apart two times are: never negative, and reached from either one. */
  lemma DistanceIs(a: real, b: real)
    ensures var d := Distance(a, b); d >= 0.0 && (a + d == b || b + d == a)
  {
  }

  /** The points kept are those of the raw ones with two finite positive numbers, unchanged. */
  lemma {:induction false} FilteredAre(points: seq<RawPoint>, q: Point)
    ensures q in Filtered(points) <==>
            q.time > 0.0 && q.value > 0.0 && RawPoint(Finite(q.time), Finite(q.value)) in points
  {
    if points != [] {
      var (init, p) := (points[..|points| - 1], points[|points| - 1]);
      FilteredAre(init, q);
      assert points == init + [p];
    }
  }

  function Sum(gaps: seq<real>): real { if gaps == [] then 0.0 else Sum(gaps[..|gaps| - 1]) + gaps[|gaps| - 1] }

  lemma {:induction false} SumNext(gaps: seq<real>, g: real)
    ensures Sum(gaps + [g]) == Sum(gaps) + g
  {
    assert (gaps + [g])[..|gaps|] == gaps;
  }

  lemma {:induction false} GapsNext(points: seq<Point>)
    requires |points| > 1
    ensures var (init, gap) := (points[..|points| - 1], points[|points| - 1].time - points[|points| - 2].time);
            Sum(PositiveGaps(points)) == Sum(PositiveGaps(init)) + (if gap > 0.0 then gap else 0.0) &&
            forall g <- PositiveGaps(points) :: g in PositiveGaps(init) || g == gap
  {
    var (init, gap) := (points[..|points| - 1], points[|points| - 1].time - points[|points| - 2].time);
    SumNext(PositiveGaps(init), gap);
    assert PositiveGaps(init) + [] == PositiveGaps(init);
  }

  predicate IsGap(points: seq<Point>, g: real) {
    exists i :: 0 < i < |points| && g == points[i].time - points[i - 1].time
  }

  lemma GapStays(points: seq<Point>, g: real)
    requires |points| > 1 && IsGap(points[..|points| - 1], g)
    ensures IsGap(points, g)
  {
    var init := points[..|points| - 1];
    var i :| 0 < i < |init| && g == init[i].time - init[i - 1].time;
    assert g == points[i].time - points[i - 1].time;
  }

  /** Every gap is one between neighbours, and together they span the series. */
  lemma {:induction false} GapsSpan(points: seq<Point>)
    requires InOrder(points) && points != []
    ensures Sum(PositiveGaps(points)) == points[|points| - 1].time - points[0].time
    ensures forall g <- PositiveGaps(points) :: IsGap(points, g)
  {
    if |points| > 1 {
      var init := points[..|points| - 1];
      GapsSpan(init);
      GapsNext(points);
      assert IsGap(points, points[|points| - 1].time - points[|points| - 2].time);
      hide IsGap;
      forall g <- PositiveGaps(points) ensures IsGap(points, g) {
        if g in PositiveGaps(init) { GapStays(points, g); }
      }
    }
  }

  predicate Beyond(g: real, m: real, longer: bool) { if longer then g > m else g < m }

  /** How many gaps are longer, or shorter, than `m`. */
  function Count(s: seq<real>, m: real, longer: bool): nat {
    if s == [] then 0 else Count(s[..|s| - 1], m, longer) + if Beyond(s[|s| - 1], m, longer) then 1 else 0
  }

  lemma {:induction false} CountOfInsert(s: seq<real>, x: real, m: real, longer: bool)
    ensures Count(Insert(s, x, NoLonger), m, longer) == Count(s, m, longer) + if Beyond(x, m, longer) then 1 else 0
  {
    if s == [] || NoLonger(s[|s| - 1], x) {
      assert (s + [x])[..|s|] == s;
    } else {
      var t := Insert(s[..|s| - 1], x, NoLonger);
      CountOfInsert(s[..|s| - 1], x, m, longer);
      assert (t + [s[|s| - 1]])[..|t|] == t;
    }
  }

  lemma {:induction false} CountOfSort(s: seq<real>, m: real, longer: bool)
    ensures Count(Sort(s, NoLonger), m, longer) == Count(s, m, longer)
  {
    if s != [] {
      CountOfSort(s[..|s| - 1], m, longer);
      CountOfInsert(Sort(s[..|s| - 1], NoLonger), s[|s| - 1], m, longer);
    }
  }

  /** In order, the gaps beyond one of them are before it or after it. */
  lemma {:induction false} CountBeyond(s: seq<real>, k: nat, n: nat)
    requires k < |s| && n <= |s| && Sorted(s, NoLonger)
    ensures Count(s[..n], s[k], false) <= (if n <= k then n else k)
    ensures Count(s[..n], s[k], true) <= (if n <= k then 0 else n - k - 1)
  {
    if n > 0 {
      CountBeyond(s, k, n - 1);
      assert s[..n][..n - 1] == s[..n - 1];
      assert n - 1 < k ==> NoLonger(s[n - 1], s[k]);
      assert k < n - 1 ==> NoLonger(s[k], s[n - 1]);
    }
  }

  /** The interval is a gap with at most half of the gaps shorter and less than half longer: the upper median. */
  lemma {:induction false} IntervalIsMedian(points: seq<Point>)
    ensures var (gaps, m) := (PositiveGaps(points), EstimateInterval(points));
            if gaps == [] then m == 3600.0
            else m in gaps && 2 * Count(gaps, m, false) <= |gaps| && 2 * Count(gaps, m, true) < |gaps|
  {
    var (gaps, m) := (PositiveGaps(points), EstimateInterval(points));
    if gaps != [] {
      var s := Sort(gaps, NoLonger);
      assert TotalPreorder(NoLonger);
      SortSorts(gaps, NoLonger);
      SortPermutes(gaps, NoLonger);
      CountOfSort(gaps, m, false);
      CountOfSort(gaps, m, true);
      var k := |s| / 2;
      CountBeyond(s, k, |s|);
      hide Sort;
      hide Count;
      assert s[..|s|] == s && s[k] in multiset(s);
    }
  }

  /** The tolerance is the least integer not below one and a half of either interval. */
  lemma ToleranceIs(source: seq<Point>, market: seq<Point>)
    ensures var (a, b, t) := (EstimateInterval(source), EstimateInterval(market), Tolerance(source, market));
            1.5 * a <= t as real && 1.5 * b <= t as real && (t as real - 1.0 < 1.5 * a || t as real - 1.0 < 1.5 * b)
  {
    hide EstimateInterval;
  }

  /** One source point: a rate exactly when the last nearest market point is within tolerance, at the source's time, and
    * worth the market's value at the source's.
    */
  lemma JoinedIs(p: Point, market: seq<Point>, tolerance: int, k: nat)
    requires market != [] && p.value > 0.0 && IsLastNearest(market, p.time, k)
    ensures var out := Joined(p, market, tolerance);
            if Distance(market[k].time, p.time) <= tolerance as real
            then |out| == 1 && out[0].time == p.time && out[0].value * p.value == market[k].value
            else out == []
  {
    LastNearestIsLastNearest(market, p.time);
    OneLastNearest(market, p.time, k, LastNearest(market, p.time));
    Divided(market[k].value, p.value);
  }

  lemma OneLastNearest(market: seq<Point>, t: real, j: nat, k: nat)
    requires IsLastNearest(market, t, j) && IsLastNearest(market, t, k)
    ensures j == k
  {
    var (a, b) := (Distance(market[j].time, t), Distance(market[k].time, t));
    assert a <= b && b <= a;
    assert (j < k ==> a < b) && (k < j ==> b < a);
  }

  lemma Divided(a: real, b: real)
    requires b > 0.0
    ensures a / b * b == a
  {
  }

  /** The rates of a longer series are those of its parts, in order: each source point is joined on its own. */
  lemma {:induction false} JoinAppend(a: seq<Point>, b: seq<Point>, market: seq<Point>, tolerance: int)
    requires market != [] && (forall p <- a :: p.value > 0.0) && (forall p <- b :: p.value > 0.0)
    ensures forall p <- a + b :: p.value > 0.0
    ensures Join(a + b, market, tolerance) == Join(a, market, tolerance) + Join(b, market, tolerance)
  {
    hide Joined;
    if b == [] {
      assert a + b == a;
    } else {
      var (init, last) := (b[..|b| - 1], b[|b| - 1]);
      JoinAppend(a, init, market, tolerance);
      assert a + b == (a + init) + [last] && (a + b)[..|a + b| - 1] == a + init;
    }
  }

  lemma {:induction false} JoinOne(p: Point, market: seq<Point>, tolerance: int)
    requires market != [] && p.value > 0.0
    ensures Join([p], market, tolerance) == Joined(p, market, tolerance)
  {
    assert [p][..0] == [];
  }
}

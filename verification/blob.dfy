/** A blob over the handle store: its orientation and area, the blob
    references its chains carry, the validity check, and the point edits that
    go through the ring. Point coordinates reach the geometry as a function
    `co` from handles to positions. */
module Blobs {

  import opened Results
  import opened Points
  import opened Geometry
  import ListUtil
  import Chains
  import Indexes
  import opened Rings

  // ---------------------------------------------------------------------
  // Reading points off the ring.

  /** The positions `0 .. n - 1` (empty for `n <= 0`, as `range(n)`). */
  function Range(n: int): (r: seq<int>)
    ensures |r| == (if n < 0 then 0 else n)
    ensures forall j :: 0 <= j < |r| ==> r[j] == j
  {
    seq(if n < 0 then 0 else n, j => j)
  }

  /** `get_point` at each of `idxs`, in order; the first failing lookup
      raises. */
  function PointsAt(ring: Ring, idxs: seq<int>): (r: Result<seq<PointId>>)
    ensures Oriented(ring) ==> r.Ok? && |r.value| == |idxs|
    ensures r.Ok? ==> |r.value| == |idxs|
    ensures r.Ok? ==> forall j :: 0 <= j < |idxs| ==> GetPoint(ring, idxs[j]) == Ok(r.value[j])
    ensures PointNumber(ring) == 0 && |idxs| > 0 ==> r == Err(ZeroDivisionError)
  {
    if |idxs| == 0 then Ok([])
    else
      var p :- GetPoint(ring, idxs[0]);
      var rest :- PointsAt(ring, idxs[1..]);
      Ok([p] + rest)
  }

  /** `points_list`: the point at every ring position, in ring order. */
  function PointsList(ring: Ring): (r: Result<seq<PointId>>)
    ensures Oriented(ring) ==> r.Ok? && |r.value| == PointNumber(ring)
    ensures r.Ok? && PointNumber(ring) > 0 ==>
      forall j :: 0 <= j < |r.value| ==> GetPoint(ring, j) == Ok(r.value[j])
  {
    assert Oriented(ring) ==> PointNumber(ring) >= 1 by {
      if Oriented(ring) { PointNumberBound(ring); }
    }
    PointsAt(ring, Range(PointNumber(ring)))
  }

  /** The positions of a list of point handles. */
  function Coords(pts: seq<PointId>, co: PointId -> Vec): (r: seq<Vec>)
    ensures |r| == |pts| && forall j :: 0 <= j < |pts| ==> r[j] == co(pts[j])
  {
    seq(|pts|, j requires 0 <= j < |pts| => co(pts[j]))
  }

  // ---------------------------------------------------------------------
  // Orientation and area.

  /** For each chain `k`, the position halfway along it (rounded down) and
      the boundary where it ends. */
  function ChainSamples(ring: Ring, k: nat): (r: seq<int>)
    requires k <= |ring|
    ensures |r| == 2 * (|ring| - k)
    decreases |ring| - k
  {
    if k == |ring| then []
    else [(Prefix(ring, k) + Prefix(ring, k + 1)) / 2, Prefix(ring, k + 1)] + ChainSamples(ring, k + 1)
  }

  /** The positions `is_clockwise` samples: two per chain when there are
      more than two chains; every position when there are fewer than ten;
      otherwise ten positions spread evenly, `i * n / 10` computed exactly
      (the code floors the floating-point product `(i / 10) * n`, which can
      land one lower). */
  function SampleIndexes(ring: Ring): (r: seq<int>)
  {
    var n := PointNumber(ring);
    if |ring| > 2 then ChainSamples(ring, 0)
    else if n < 10 then Range(n)
    else seq(10, i => i * n / 10)
  }

  /** `is_clockwise`: the shoelace sum over the sampled points is positive
      (the screen's y axis points down, which flips the usual reading). */
  function IsClockwise(ring: Ring, co: PointId -> Vec): (r: Result<bool>)
    ensures Oriented(ring) ==> r.Ok?
  {
    var pts :- PointsAt(ring, SampleIndexes(ring));
    var cs := Coords(pts, co);
    Ok(CrossSumFrom(cs, 0) > 0.0)
  }

  /** `get_point` on a fixed ring, as the lookup the area loop calls. */
  function Reader(ring: Ring): int -> Result<PointId> {
    j => GetPoint(ring, j)
  }

  /** The sum `recalculate_area` accumulates over positions `i .. n - 1`,
      reading points with `get`: the cross term of each point with the one
      after it, wrapping at `n`. The first failed lookup is the result. */
  function AreaTerms(get: int -> Result<PointId>, co: PointId -> Vec, i: nat, n: nat): (r: Result<real>)
    requires i <= n
    decreases n - i
  {
    if i == n then Ok(0.0)
    else
      var p1 :- get(i);
      var p2 :- get((i + 1) % n);
      var rest :- AreaTerms(get, co, i + 1, n);
      Ok(Cross(co(p1), co(p2)) + rest)
  }

  /** One step of the accumulation, with the two point lookups known. */
  lemma AreaTermsUnfold(get: int -> Result<PointId>, co: PointId -> Vec, i: nat, n: nat, p1: PointId, p2: PointId, rest: real)
    requires i < n
    requires get(i) == Ok(p1) && get((i + 1) % n) == Ok(p2)
    requires AreaTerms(get, co, i + 1, n) == Ok(rest)
    ensures AreaTerms(get, co, i, n) == Ok(Cross(co(p1), co(p2)) + rest)
  {
  }

  /** One step of the cyclic cross sum, with the two positions known. */
  lemma CrossSumUnfold(cs: seq<Vec>, i: nat, a: Vec, b: Vec)
    requires i < |cs| && cs[i] == a && cs[(i + 1) % |cs|] == b
    ensures CrossSumFrom(cs, i) == Cross(a, b) + CrossSumFrom(cs, i + 1)
  {
  }

  /** `recalculate_area`: half the absolute shoelace sum over all ring
      points. The value is what the engine caches as the blob's area. */
  function RecalculateArea(ring: Ring, co: PointId -> Vec): (r: Result<real>)
    ensures PointNumber(ring) <= 0 ==> r == Ok(0.0)
  {
    var n := PointNumber(ring);
    if n <= 0 then Ok(0.0)
    else
      var s :- AreaTerms(Reader(ring), co, 0, n);
      Ok(Geometry.Abs(s / 2.0))
  }

  /** Over an oriented ring the accumulated terms are the cyclic cross sum of
      the point list. */
  lemma AreaTermsAreCrossSum(ring: Ring, co: PointId -> Vec, i: nat)
    requires Oriented(ring) && i <= PointNumber(ring)
    ensures var cs := Coords(PointsList(ring).value, co);
      AreaTerms(Reader(ring), co, i, PointNumber(ring)) == Ok(CrossSumFrom(cs, i))
  {
    var pts := PointsList(ring).value;
    PointNumberBound(ring);
    assert forall j :: 0 <= j < |pts| ==> Reader(ring)(j) == Ok(pts[j]);
    AreaTermsFrom(Reader(ring), co, pts, Coords(pts, co), i);
  }

  /** The induction behind `AreaTermsAreCrossSum`, for any lookup that
      reads the entries of a point list. */
  lemma {:induction false} AreaTermsFrom(get: int -> Result<PointId>, co: PointId -> Vec, pts: seq<PointId>, cs: seq<Vec>, i: nat)
    requires forall j :: 0 <= j < |pts| ==> get(j) == Ok(pts[j])
    requires Coords(pts, co) == cs && i <= |pts|
    ensures AreaTerms(get, co, i, |pts|) == Ok(CrossSumFrom(cs, i))
    decreases |pts| - i
  {
    var n := |pts|;
    if i < n {
      AreaTermsFrom(get, co, pts, cs, i + 1);
      var q := (i + 1) % n;
      AreaTermsUnfold(get, co, i, n, pts[i], pts[q], CrossSumFrom(cs, i + 1));
      CrossSumUnfold(cs, i, co(pts[i]), co(pts[q]));
    }
  }

  /** Entry `j` of a ring's point list is the point read at position `j`. */
  lemma PointsListEntry(ring: Ring, l: seq<PointId>, j: int)
    requires PointsList(ring) == Ok(l) && PointNumber(ring) > 0 && 0 <= j < |l|
    ensures GetPoint(ring, j) == Ok(l[j])
  {
  }

  /** `recalculate_area` is the area of the polygon through every ring point
      in ring order. */
  lemma RecalculateAreaIsPolygonArea(ring: Ring, co: PointId -> Vec)
    requires Oriented(ring)
    ensures PointsList(ring).Ok?
    ensures RecalculateArea(ring, co) == Ok(Area(Coords(PointsList(ring).value, co)))
  {
    PointNumberBound(ring);
    var cs := Coords(PointsList(ring).value, co);
    AreaTermsAreCrossSum(ring, co, 0);
    AreaOfCrossSum(ring, co, cs);
  }

  /** The area from an accumulated sum known to be the cyclic cross sum of
      a polygon. */
  lemma AreaOfCrossSum(ring: Ring, co: PointId -> Vec, cs: seq<Vec>)
    requires PointNumber(ring) > 0 && AreaTerms(Reader(ring), co, 0, PointNumber(ring)) == Ok(CrossSumFrom(cs, 0))
    ensures RecalculateArea(ring, co) == Ok(Area(cs))
  {
    CrossSumIsShoelace(cs);
  }

  /** The area does not depend on the direction the point list is walked or
      on the position it starts from. */
  lemma PolygonAreaOrientationFree(pts: seq<PointId>, co: PointId -> Vec, k: int)
    ensures Area(Coords(ListUtil.Reverse(pts), co)) == Area(Coords(pts, co))
    ensures Area(Coords(ListUtil.RotateList(pts, k), co)) == Area(Coords(pts, co))
  {
    var cs := Coords(pts, co);
    assert Coords(ListUtil.Reverse(pts), co) == Geometry.Reverse(cs);
    forall j | 0 <= j < |pts|
      ensures Coords(ListUtil.RotateList(pts, k), co)[j] == ListUtil.RotateList(cs, k)[j]
    {
      ListUtil.RotateAt(pts, k, j);
      ListUtil.RotateAt(cs, k, j);
    }
    assert Coords(ListUtil.RotateList(pts, k), co) == ListUtil.RotateList(cs, k);
    AreaOrientationFree(cs, k);
  }

  /** Every chain is a single link: just its two endpoints. */
  predicate Segments(ring: Ring) {
    forall k :: 0 <= k < |ring| ==> |ring[k]| == 2
  }

  lemma {:induction false} SegmentPrefix(ring: Ring, k: nat)
    requires Segments(ring) && k <= |ring|
    ensures Prefix(ring, k) == k
  {
    if k > 0 {
      SegmentPrefix(ring, k - 1);
    }
  }

  /** With single-link chains the samples are `k, k+1, k+1, k+2, ...`: each
      chain's halfway position is its start. */
  lemma {:induction false} SegmentSamples(ring: Ring, k: nat)
    requires Segments(ring) && k <= |ring|
    ensures forall j :: 0 <= j < |ChainSamples(ring, k)| ==> ChainSamples(ring, k)[j] == k + (j + 1) / 2
    decreases |ring| - k
  {
    if k < |ring| {
      SegmentSamples(ring, k + 1);
      SegmentPrefix(ring, k);
      SegmentPrefix(ring, k + 1);
    }
  }

  /** `is_clockwise` reads the orientation of the whole polygon whenever its
      sample covers every point: with more than two chains that are all
      single links, and with at most two chains and fewer than ten points. */
  lemma IsClockwiseOfFullPolygon(ring: Ring, co: PointId -> Vec)
    requires Oriented(ring)
    requires (|ring| > 2 && Segments(ring)) || (|ring| <= 2 && PointNumber(ring) < 10)
    ensures PointsList(ring).Ok?
    ensures IsClockwise(ring, co) == Ok(ShoelaceSum(Coords(PointsList(ring).value, co)) > 0.0)
  {
    var q := Coords(PointsList(ring).value, co);
    var cs := Coords(PointsAt(ring, SampleIndexes(ring)).value, co);
    if |ring| > 2 {
      SegmentSamplePoints(ring, co);
      EdgePairsShoelace(q);
    } else {
      assert SampleIndexes(ring) == Range(PointNumber(ring));
    }
    CrossSumIsShoelace(cs);
    ClockwiseOfSum(ring, co, cs);
  }

  /** With more than two single-link chains the sampled points are every
      edge of the ring's polygon, listed as its own pair of points. */
  lemma SegmentSamplePoints(ring: Ring, co: PointId -> Vec)
    requires Oriented(ring) && |ring| > 2 && Segments(ring)
    ensures PointsList(ring).Ok?
    ensures Coords(PointsAt(ring, SampleIndexes(ring)).value, co) == EdgePairs(Coords(PointsList(ring).value, co), 0)
  {
    var q := Coords(PointsList(ring).value, co);
    var cs := Coords(PointsAt(ring, SampleIndexes(ring)).value, co);
    SegmentPrefix(ring, |ring|);
    PointNumberIsLastBoundary(ring);
    var e := EdgePairs(q, 0);
    SamplePointIsEdge(ring, co, 0);
    forall j | 0 <= j < |cs| ensures cs[j] == e[j] {
      SamplePointIsEdge(ring, co, j);
    }
    ListUtil.EqualByIndex(cs, e);
  }

  /** Sample `j` of a ring of single-link chains is entry `j` of its edge
      pairs. */
  lemma SamplePointIsEdge(ring: Ring, co: PointId -> Vec, j: int)
    requires Oriented(ring) && |ring| > 2 && Segments(ring) && 0 <= j < 2 * |ring|
    ensures PointsList(ring).Ok?
    ensures var cs := Coords(PointsAt(ring, SampleIndexes(ring)).value, co);
      var q := Coords(PointsList(ring).value, co);
      |q| == |ring| && |cs| == 2 * |ring| && cs[j] == EdgePairs(q, 0)[j]
  {
    var q := Coords(PointsList(ring).value, co);
    var samples := SampleIndexes(ring);
    var cs := Coords(PointsAt(ring, samples).value, co);
    SegmentPrefix(ring, |ring|);
    PointNumberIsLastBoundary(ring);
    SegmentSamples(ring, 0);
    var pts := PointsAt(ring, samples).value;
    var all := PointsList(ring).value;
    var t := (j + 1) / 2;
    var u := t % |q|;
    assert samples[j] == t;
    ListUtil.PyModIdempotent(t, |q|);
    GetPointCongruent(ring, t, u);
    assert GetPoint(ring, t) == Ok(pts[j]);
    assert GetPoint(ring, u) == Ok(all[u]);
    assert cs[j] == q[u];
    SampleIsEdge(q, cs, j);
  }

  lemma SampleIsEdge(q: seq<Vec>, cs: seq<Vec>, j: int)
    requires |q| > 0 && |cs| == 2 * |q| && 0 <= j < |cs|
    requires cs[j] == q[((j + 1) / 2) % |q|]
    ensures cs[j] == EdgePairs(q, 0)[j]
  {
    EdgePairsAt(q, 0, j);
  }

  /** `is_clockwise` from the sampled polygon. */
  lemma ClockwiseOfSum(ring: Ring, co: PointId -> Vec, cs: seq<Vec>)
    requires PointsAt(ring, SampleIndexes(ring)).Ok?
    requires cs == Coords(PointsAt(ring, SampleIndexes(ring)).value, co)
    ensures IsClockwise(ring, co) == Ok(CrossSumFrom(cs, 0) > 0.0)
  {
  }

  // ---------------------------------------------------------------------
  // The unit square of the engine's area test.

  /** Corners 1 .. 4 at (0,0), (0,1), (1,1), (1,0). */
  function SquareCo(p: PointId): Vec {
    if p == 1 then Vec(0.0, 0.0)
    else if p == 2 then Vec(0.0, 1.0)
    else if p == 3 then Vec(1.0, 1.0)
    else Vec(1.0, 0.0)
  }

  /** One chain per side, walked 1, 2, 3, 4. */
  function SquareLoop(): Ring {
    [[1, 2], [2, 3], [3, 4], [4, 1]]
  }

  /** The same chains in the opposite loop order. */
  function SquareLoopReversed(): Ring {
    [[4, 1], [3, 4], [2, 3], [1, 2]]
  }

  /** On single-link chains position `j` is the end of chain `j - 1`, and
      position 0 the start of chain 0. */
  lemma SegmentPoint(ring: Ring, j: int)
    requires Oriented(ring) && Segments(ring) && 0 <= j < |ring|
    ensures GetPoint(ring, j) == Ok(if j == 0 then Head(ring, 0) else Tail(ring, j - 1))
  {
    SegmentPrefix(ring, |ring|);
    PointNumberIsLastBoundary(ring);
    var (ci, t) := GetChainAndIndexAt(ring, j).value;
    assert Position(ring, j) == j by {
      ListUtil.ModOfShifted(PointNumber(ring), j, 0);
    }
    SegmentPrefix(ring, ci);
    SegmentPrefix(ring, ci + 1);
    assert ci == (if j == 0 then 0 else j - 1);
    assert ring[ci][t] == Along(ring, ci, j - ci);
    assert GetPoint(ring, j) == Ok(ring[ci][t]);
  }

  /** Around a closed loop of single-link chains the ring points are the
      chains' heads, in loop order. */
  lemma ClosedSegmentPoints(ring: Ring)
    requires Closed(ring) && Segments(ring)
    ensures PointsList(ring).Ok?
    ensures |PointsList(ring).value| == |ring|
    ensures forall k :: 0 <= k < |ring| ==> PointsList(ring).value[k] == Head(ring, k)
  {
    SegmentPrefix(ring, |ring|);
    PointNumberIsLastBoundary(ring);
    var all := PointsList(ring).value;
    forall k | 0 <= k < |ring| ensures all[k] == Head(ring, k) {
      SegmentPoint(ring, k);
    }
  }

  /** No link of the square loop is walked backwards. */
  lemma SquareLoopForwards()
    ensures Oriented(SquareLoop()) && Segments(SquareLoop())
    ensures forall k :: 0 <= k < 4 ==> Backwards(SquareLoop(), k) == Ok(false)
  {
    var sq := SquareLoop();
    forall k | 0 <= k < 4
      ensures Backwards(sq, k) == Ok(false)
    {
      if k == 0 {
        BackwardsBetween(sq, 0, 2);
      } else if k == 1 {
        BackwardsBetween(sq, 1, 3);
      } else if k == 2 {
        BackwardsBetween(sq, 2, 4);
      } else {
        BackwardsBetween(sq, 3, 1);
      }
    }
  }

  /** A chain of a loop of three or more whose end `shared` is an end of
      the next chain runs backwards exactly when its first point is an end
      of the next chain. */
  lemma BackwardsBetween(ring: Ring, k: nat, shared: PointId)
    requires |ring| > 2 && k < |ring| && |ring[k]| > 0
    requires shared in Chains.Endpoints(ring[k]) && shared in Chains.Endpoints(ring[(k + 1) % |ring|])
    ensures Backwards(ring, k) == Ok(ring[k][0] in Chains.Endpoints(ring[(k + 1) % |ring|]))
  {
    assert shared in Chains.Endpoints(ring[k]) * Chains.Endpoints(ring[(k + 1) % |ring|]);
  }

  lemma SquareLoopClosed()
    ensures Closed(SquareLoop()) && Segments(SquareLoop())
  {
    var sq := SquareLoop();
    SquareLoopForwards();
    forall k | 0 <= k < 4
      ensures Head(sq, k) == sq[k][0] && Tail(sq, k) == sq[k][1]
    {
      HeadIs(sq, k, false);
      TailIs(sq, k, false);
    }
    forall k | 0 <= k < 3
      ensures Tail(sq, k) == Head(sq, k + 1)
    {
    }
  }

  lemma SquareLoopPoints()
    ensures Closed(SquareLoop()) && Segments(SquareLoop())
    ensures PointsList(SquareLoop()) == Ok([1, 2, 3, 4])
  {
    var sq := SquareLoop();
    SquareLoopClosed();
    SquareLoopForwards();
    ClosedSegmentPoints(sq);
    var all := PointsList(sq).value;
    HeadIs(sq, 0, false);
    HeadIs(sq, 1, false);
    HeadIs(sq, 2, false);
    HeadIs(sq, 3, false);
    SeqOfFour(all, 1, 2, 3, 4);
  }

  /** The last point of a chain in loop direction, once its direction is
      known. */
  lemma TailIs(ring: Ring, k: nat, backwards: bool)
    requires k < |ring| && Backwards(ring, k) == Ok(backwards) && |ring[k]| > 0
    ensures Tail(ring, k) == if backwards then ring[k][0] else ring[k][|ring[k]| - 1]
  {
  }

  /** The first point of a chain in loop direction, once its direction is
      known. */
  lemma HeadIs(ring: Ring, k: nat, backwards: bool)
    requires k < |ring| && Backwards(ring, k) == Ok(backwards) && |ring[k]| > 0
    ensures Head(ring, k) == if backwards then ring[k][|ring[k]| - 1] else ring[k][0]
  {
  }

  lemma SeqOfFour(s: seq<PointId>, a: PointId, b: PointId, c: PointId, d: PointId)
    requires |s| == 4 && s[0] == a && s[1] == b && s[2] == c && s[3] == d
    ensures s == [a, b, c, d]
  {
  }

  /** Every link of the reversed square loop is walked backwards. */
  lemma SquareLoopReversedBackwards()
    ensures Oriented(SquareLoopReversed()) && Segments(SquareLoopReversed())
    ensures forall k :: 0 <= k < 4 ==> Backwards(SquareLoopReversed(), k) == Ok(true)
  {
    var sq := SquareLoopReversed();
    forall k | 0 <= k < 4
      ensures Backwards(sq, k) == Ok(true)
    {
      if k == 0 {
        BackwardsBetween(sq, 0, 4);
      } else if k == 1 {
        BackwardsBetween(sq, 1, 3);
      } else if k == 2 {
        BackwardsBetween(sq, 2, 2);
      } else {
        BackwardsBetween(sq, 3, 1);
      }
    }
  }

  lemma SquareLoopReversedClosed()
    ensures Closed(SquareLoopReversed()) && Segments(SquareLoopReversed())
  {
    var sq := SquareLoopReversed();
    SquareLoopReversedBackwards();
    forall k | 0 <= k < 4
      ensures Head(sq, k) == sq[k][1] && Tail(sq, k) == sq[k][0]
    {
      HeadIs(sq, k, true);
      TailIs(sq, k, true);
    }
    forall k | 0 <= k < 3
      ensures Tail(sq, k) == Head(sq, k + 1)
    {
    }
  }

  lemma SquareLoopReversedPoints()
    ensures Closed(SquareLoopReversed()) && Segments(SquareLoopReversed())
    ensures PointsList(SquareLoopReversed()) == Ok([1, 4, 3, 2])
  {
    var sq := SquareLoopReversed();
    SquareLoopReversedClosed();
    SquareLoopReversedBackwards();
    ClosedSegmentPoints(sq);
    var all := PointsList(sq).value;
    HeadIs(sq, 0, true);
    HeadIs(sq, 1, true);
    HeadIs(sq, 2, true);
    HeadIs(sq, 3, true);
    SeqOfFour(all, 1, 4, 3, 2);
  }

  /** Orientation and area of a loop of single-link chains, read off its
      point list. */
  lemma SegmentLoopOrientationAndArea(ring: Ring, co: PointId -> Vec, pts: seq<PointId>, cs: seq<Vec>, sum: real, area: real)
    requires Oriented(ring) && |ring| > 2 && Segments(ring)
    requires PointsList(ring) == Ok(pts) && Coords(pts, co) == cs
    requires ShoelaceSum(cs) == sum && Area(cs) == area
    ensures IsClockwise(ring, co) == Ok(sum > 0.0)
    ensures RecalculateArea(ring, co) == Ok(area)
  {
    IsClockwiseOfFullPolygon(ring, co);
    RecalculateAreaIsPolygonArea(ring, co);
  }

  lemma SquareCoords()
    ensures Coords([1, 2, 3, 4], SquareCo) == [Vec(0.0, 0.0), Vec(0.0, 1.0), Vec(1.0, 1.0), Vec(1.0, 0.0)]
    ensures Coords([1, 4, 3, 2], SquareCo) == [Vec(0.0, 0.0), Vec(1.0, 0.0), Vec(1.0, 1.0), Vec(0.0, 1.0)]
  {
  }

  /** The two ends of the diagonal from corner 1 to corner 3. */
  lemma SquareDiagonalEnds()
    ensures SquareCo(3) == Vec(1.0, 1.0) && SquareCo(1) == Vec(0.0, 0.0)
  {
  }

  /** Walked 1, 2, 3, 4 the unit square is not clockwise by the engine's
      convention, and its area is 1. */
  lemma SquareLoopOrientationAndArea()
    ensures IsClockwise(SquareLoop(), SquareCo) == Ok(false)
    ensures RecalculateArea(SquareLoop(), SquareCo) == Ok(1.0)
  {
    var sq := SquareLoop();
    var cs := [Vec(0.0, 0.0), Vec(0.0, 1.0), Vec(1.0, 1.0), Vec(1.0, 0.0)];
    assert Oriented(sq) && Segments(sq) by {
      SquareLoopForwards();
    }
    assert PointsList(sq) == Ok([1, 2, 3, 4]) by {
      SquareLoopPoints();
    }
    assert Coords([1, 2, 3, 4], SquareCo) == cs by {
      SquareCoords();
    }
    assert ShoelaceSum(cs) == -2.0 && Area(cs) == 1.0 by {
      UnitSquareArea();
    }
    SegmentLoopOrientationAndArea(sq, SquareCo, [1, 2, 3, 4], cs, -2.0, 1.0);
  }

  /** Walked the other way round it is clockwise, with the same area. */
  lemma SquareLoopReversedOrientationAndArea()
    ensures IsClockwise(SquareLoopReversed(), SquareCo) == Ok(true)
    ensures RecalculateArea(SquareLoopReversed(), SquareCo) == Ok(1.0)
  {
    var sq := SquareLoopReversed();
    var cs := [Vec(0.0, 0.0), Vec(1.0, 0.0), Vec(1.0, 1.0), Vec(0.0, 1.0)];
    assert Oriented(sq) && Segments(sq) by {
      SquareLoopReversedBackwards();
    }
    assert PointsList(sq) == Ok([1, 4, 3, 2]) by {
      SquareLoopReversedPoints();
    }
    assert Coords([1, 4, 3, 2], SquareCo) == cs by {
      SquareCoords();
    }
    assert ShoelaceSum(cs) == 2.0 && Area(cs) == 1.0 by {
      UnitSquareCounterArea();
    }
    SegmentLoopOrientationAndArea(sq, SquareCo, [1, 4, 3, 2], cs, 2.0, 1.0);
  }
}

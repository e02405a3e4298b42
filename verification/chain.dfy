/** Chains: ordered runs of points. A chain is an edge of the blob graph; its
    two endpoints are the junctions it shares with other chains. */
module Chains {

  import opened Results
  import opened Geometry
  import opened Points
  import ListUtil

  /** Handles of chains and blobs in the world store. */
  type ChainId = nat
  type BlobId = nat

  /** A chain: its points in order, the blobs on its left and right sides (or
      none), and an optional forced unmoving status. */
  datatype Chain = Chain(
    points: seq<PointId>,
    blobLeft: Option<BlobId>,
    blobRight: Option<BlobId>,
    unmovingOverride: Option<bool>)

  /** A chain as a constructor makes it: no blob on either side, no override.
      Such a chain counts as unmoving whatever the blobs' pins, since
      `is_unmoving` treats a missing side as pinned. */
  function Fresh(pts: seq<PointId>): (r: Chain)
    ensures r.points == pts
    ensures forall blobPinned: BlobId -> bool :: IsUnmoving(r, blobPinned)
  {
    Chain(pts, None, None, None)
  }

  // ---------------------------------------------------------------------
  // Endpoints and endpoint queries.

  /** `point_start`: the first point, or `None` for an empty chain. */
  function Start(pts: seq<PointId>): (r: Option<PointId>)
    ensures r.None? <==> |pts| == 0
    ensures r.Some? ==> r.value == pts[0]
  {
    if |pts| == 0 then None else Some(pts[0])
  }

  /** `point_end`: the last point, or `None` for an empty chain. */
  function End(pts: seq<PointId>): (r: Option<PointId>)
    ensures r.None? <==> |pts| == 0
    ensures r.Some? ==> r.value == pts[|pts| - 1]
  {
    if |pts| == 0 then None else Some(pts[|pts| - 1])
  }

  /** The set of a chain's endpoints (one point for a closed chain). */
  function Endpoints(pts: seq<PointId>): set<PointId> {
    if |pts| == 0 then {} else {pts[0], pts[|pts| - 1]}
  }

  /** `common_endpoint`: an endpoint `self` shares with `other`, preferring the
      start of `self`. With nothing shared it raises `ValueError` when asked
      to and answers `None` otherwise; two empty chains share `None`. */
  function CommonEndpoint(a: seq<PointId>, b: seq<PointId>, raiseIfNone: bool): (r: Result<Option<PointId>>)
    ensures r.Err? <==> raiseIfNone && Endpoints(a) * Endpoints(b) == {} && (|a| > 0 || |b| > 0)
    ensures r.Err? ==> r.error == ValueError
    ensures r.Ok? && r.value.None? <==> (|a| == 0 && |b| == 0) || (!raiseIfNone && Endpoints(a) * Endpoints(b) == {})
    ensures r.Ok? && r.value.Some? ==> r.value.value in Endpoints(a) * Endpoints(b)
    ensures r.Ok? && r.value.Some? && |a| > 0 && a[0] in Endpoints(b) ==> r.value.value == a[0]
  {
    var ss, se, os, oe := Start(a), End(a), Start(b), End(b);
    if ss == os || ss == oe then
      assert ss.Some? ==> ss.value in Endpoints(a) * Endpoints(b);
      Ok(ss)
    else if se == os || se == oe then
      assert se.value in Endpoints(a) * Endpoints(b);
      Ok(se)
    else if raiseIfNone then Err(ValueError)
    else Ok(None)
  }

  /** `is_connected_to`: the chains share an endpoint. */
  function IsConnectedTo(a: seq<PointId>, b: seq<PointId>): (r: bool)
    ensures r <==> Endpoints(a) * Endpoints(b) != {}
  {
    match CommonEndpoint(a, b, false)
    case Ok(Some(_)) => true
    case _ => false
  }

  /** Connection is symmetric even though `CommonEndpoint` prefers one side. */
  lemma ConnectedSymmetric(a: seq<PointId>, b: seq<PointId>)
    ensures IsConnectedTo(a, b) == IsConnectedTo(b, a)
  {
    assert Endpoints(a) * Endpoints(b) == Endpoints(b) * Endpoints(a);
  }

  /** `endpoint_neighbor`: the point next to the given endpoint, `None` for a
      chain shorter than two points, `ValueError` for a point that is not an
      endpoint. */
  function EndpointNeighbor(pts: seq<PointId>, e: PointId): (r: Result<Option<PointId>>)
    ensures |pts| < 2 ==> r == Ok(None)
    ensures r.Err? <==> |pts| >= 2 && e !in Endpoints(pts)
    ensures r.Err? ==> r.error == ValueError
    ensures r.Ok? && r.value.Some? ==>
      (e == pts[0] && r.value.value == pts[1]) ||
      (e != pts[0] && e == pts[|pts| - 1] && r.value.value == pts[|pts| - 2])
  {
    if |pts| < 2 then Ok(None)
    else if e == pts[0] then Ok(Some(pts[1]))
    else if e == pts[|pts| - 1] then Ok(Some(pts[|pts| - 2]))
    else Err(ValueError)
  }

  /** `find_all_endpoints`: every endpoint of every non-empty chain. */
  method FindAllEndpoints(chains: seq<seq<PointId>>) returns (r: set<PointId>)
    ensures forall p :: p in r <==> exists k :: 0 <= k < |chains| && p in Endpoints(chains[k])
  {
    r := {};
    var i := 0;
    while i < |chains|
      invariant 0 <= i <= |chains|
      invariant forall p :: p in r <==> exists k :: 0 <= k < i && p in Endpoints(chains[k])
    {
      var c := chains[i];
      if |c| > 0 {
        r := r + {c[0], c[|c| - 1]};
      }
      i := i + 1;
    }
  }

  // ---------------------------------------------------------------------
  // Point adjacency along a chain.

  /** Every pair of consecutive points is connected. */
  predicate PathLinked(adj: Adjacency, pts: seq<PointId>) {
    forall j :: 0 <= j < |pts| - 1 ==> Linked(adj, pts[j], pts[j + 1])
  }

  /** `e` joins two consecutive points of `pts`, in either direction. */
  ghost predicate IsPathEdge(pts: seq<PointId>, e: (PointId, PointId)) {
    exists j :: 0 <= j < |pts| - 1 && (e == (pts[j], pts[j + 1]) || e == (pts[j + 1], pts[j]))
  }

  /** The connections `from_point_list` makes: each point to the next. */
  function ConnectPath(adj: Adjacency, pts: seq<PointId>): (r: Adjacency)
    ensures PathLinked(r, pts)
    ensures adj <= r
    ensures forall e :: e in r && e !in adj ==> IsPathEdge(pts, e)
    ensures Symmetric(adj) ==> Symmetric(r)
    decreases |pts|
  {
    if |pts| < 2 then adj
    else
      var r := ConnectPath(Connect(adj, pts[0], pts[1]), pts[1..]);
      assert forall e :: e in r && e !in Connect(adj, pts[0], pts[1]) ==> IsPathEdge(pts, e) by {
        forall e | e in r && e !in Connect(adj, pts[0], pts[1]) && IsPathEdge(pts[1..], e)
          ensures IsPathEdge(pts, e)
        {
          var j :| 0 <= j < |pts[1..]| - 1 && (e == (pts[1..][j], pts[1..][j + 1]) || e == (pts[1..][j + 1], pts[1..][j]));
          assert 0 <= j + 1 < |pts| - 1 && (e == (pts[j + 1], pts[j + 2]) || e == (pts[j + 2], pts[j + 1]));
        }
      }
      assert IsPathEdge(pts, (pts[0], pts[1])) && IsPathEdge(pts, (pts[1], pts[0]));
      r
  }

  /** Connecting an already connected path changes nothing. */
  lemma ConnectPathIdempotent(adj: Adjacency, pts: seq<PointId>)
    requires PathLinked(adj, pts)
    ensures ConnectPath(adj, pts) == adj
  {
    forall e | IsPathEdge(pts, e)
      ensures e in adj
    {
      var j :| 0 <= j < |pts| - 1 && (e == (pts[j], pts[j + 1]) || e == (pts[j + 1], pts[j]));
      assert Linked(adj, pts[j], pts[j + 1]);
    }
  }

  /** `from_point_list`: a fresh chain over the given points, each connected
      to the next. */
  function FromPointList(pts: seq<PointId>, adj: Adjacency): (r: (Chain, Adjacency))
    ensures r.0 == Fresh(pts)
    ensures PathLinked(r.1, pts) && adj <= r.1
    ensures PathLinked(adj, pts) ==> r.1 == adj
  {
    var adj' := ConnectPath(adj, pts);
    assert PathLinked(adj, pts) ==> adj' == adj by {
      if PathLinked(adj, pts) { ConnectPathIdempotent(adj, pts); }
    }
    (Fresh(pts), adj')
  }

  /** `assert_is_valid`: at least two points, consecutive points connected,
      and every point other than the endpoints connected to exactly two
      points. */
  predicate IsValidChain(pts: seq<PointId>, adj: Adjacency): (r: bool)
    ensures r ==> |pts| >= 2 && PathLinked(adj, pts)
    ensures r ==> forall j :: (0 < j < |pts| - 1 && pts[j] != pts[0] && pts[j] != pts[|pts| - 1]
      && pts[j - 1] != pts[j + 1]) ==> Neighbours(adj, pts[j]) == {pts[j - 1], pts[j + 1]}
  {
    var ok := && |pts| >= 2
      && PathLinked(adj, pts)
      && forall j :: 0 < j < |pts| - 1 && pts[j] != pts[0] && pts[j] != pts[|pts| - 1] ==>
           |Neighbours(adj, pts[j])| == 2;
    assert ok ==> forall j :: (0 < j < |pts| - 1 && pts[j] != pts[0] && pts[j] != pts[|pts| - 1]
      && pts[j - 1] != pts[j + 1]) ==> Neighbours(adj, pts[j]) == {pts[j - 1], pts[j + 1]} by {
      if ok {
        forall j | 0 < j < |pts| - 1 && pts[j] != pts[0] && pts[j] != pts[|pts| - 1] && pts[j - 1] != pts[j + 1]
          ensures Neighbours(adj, pts[j]) == {pts[j - 1], pts[j + 1]}
        {
          assert Linked(adj, pts[j - 1], pts[j]) && Linked(adj, pts[j], pts[j + 1]);
          OnlyTwoNeighbours(adj, pts[j], pts[j - 1], pts[j + 1]);
        }
      }
    }
    ok
  }

  /** A point with exactly two neighbours, linked to `a` and to `b`, has
      those two as its neighbours. */
  lemma OnlyTwoNeighbours(adj: Adjacency, p: PointId, a: PointId, b: PointId)
    requires Linked(adj, p, a) && Linked(adj, p, b) && a != b
    requires |Neighbours(adj, p)| == 2
    ensures Neighbours(adj, p) == {a, b}
  {
    var n := Neighbours(adj, p);
    assert a in n && b in n;
    assert {a, b} <= n;
    assert |n - {a, b}| == |n| - |{a, b}|;
  }

  // ---------------------------------------------------------------------
  // Construction.

  /** Number of interior points `from_end_points` creates for `point_num`. */
  function InteriorCount(pointNum: int): nat {
    if pointNum > 2 then pointNum - 2 else 0
  }

  /** Position `k` of `from_end_points`: the fraction `k / (point_num - 1)`
      of the way from the start to the end. */
  function Fraction(k: int, pointNum: int): real
    requires pointNum != 1
  {
    k as real / (pointNum - 1) as real
  }

  /** The interior points of `from_end_points`, evenly spaced on the segment. */
  function InteriorPoints(startCo: Vec, endCo: Vec, pointNum: int): (r: seq<Point>)
    requires pointNum != 1
    ensures |r| == InteriorCount(pointNum)
  {
    seq(InteriorCount(pointNum), k requires 0 <= k < InteriorCount(pointNum) =>
      var v := Lerp(startCo, endCo, Fraction(k + 1, pointNum)); NewPoint(v.x, v.y))
  }

  /** The number of points `from_end_points` lays out: `point_num`, or, when
      it is `0` or `None` (both falsy), `ceil(distance / link_length)`, which
      the caller computes and passes as `derivedNum`. */
  function PointCount(pointNum: Option<int>, derivedNum: int): int {
    if pointNum.None? || pointNum.value == 0 then derivedNum else pointNum.value
  }

  /** `from_end_points`: `start`, `n - 2` new points at even fractions of the
      segment (none when `n` is below 3), then `end`, each connected to the
      next, where `n` is the point count above. The new points' handles are
      supplied by the caller. */
  function FromEndPoints(start: PointId, end: PointId, startCo: Vec, endCo: Vec, pointNum: Option<int>,
                         derivedNum: int, newIds: seq<PointId>, adj: Adjacency): (r: (Chain, seq<Point>, Adjacency))
    requires |newIds| == InteriorCount(PointCount(pointNum, derivedNum))
    ensures var n := PointCount(pointNum, derivedNum);
      && r.0 == Fresh([start] + newIds + [end])
      && |r.0.points| == (if n > 2 then n else 2)
      && |r.1| == |newIds|
      && (n > 2 ==> Cos(r.1) == Layout(startCo, endCo, n)[1..n - 1])
    ensures forall k :: 0 <= k < |r.1| ==> r.1[k].offset == Zero
    ensures PathLinked(r.2, r.0.points) && adj <= r.2
  {
    var n := PointCount(pointNum, derivedNum);
    var pts := [start] + newIds + [end];
    var made := if n == 1 then [] else InteriorPoints(startCo, endCo, n);
    assert n > 2 ==> Cos(made) == Layout(startCo, endCo, n)[1..n - 1] by {
      if n > 2 {
        var lay := Layout(startCo, endCo, n);
        assert lay == [startCo] + Cos(made) + [endCo];
        assert lay[1..n - 1] == Cos(made);
      }
    }
    var (c, adj') := FromPointList(pts, adj);
    (c, made, adj')
  }

  /** The positions `from_end_points` lays out: the start, the interior
      points, the end. */
  function Layout(startCo: Vec, endCo: Vec, pointNum: int): (r: seq<Vec>)
    requires pointNum > 2
    ensures |r| == pointNum
  {
    [startCo] + Cos(InteriorPoints(startCo, endCo, pointNum)) + [endCo]
  }

  /** Position `k` of the layout is the fraction `k / (point_num - 1)` of the
      segment, the two ends included. */
  lemma LayoutAt(startCo: Vec, endCo: Vec, pointNum: int, k: int)
    requires pointNum > 2 && 0 <= k < pointNum
    ensures Layout(startCo, endCo, pointNum)[k] == Lerp(startCo, endCo, Fraction(k, pointNum))
  {
    var cos := Layout(startCo, endCo, pointNum);
    var inner := InteriorPoints(startCo, endCo, pointNum);
    if k == 0 {
      assert cos[0] == startCo;
      assert Fraction(0, pointNum) == 0.0;
    } else if k == pointNum - 1 {
      assert cos[k] == endCo;
      FractionAtEnd(pointNum);
    } else {
      assert cos[k] == Cos(inner)[k - 1] == inner[k - 1].co;
    }
  }

  lemma FractionAtEnd(pointNum: int)
    requires pointNum > 2
    ensures Fraction(pointNum - 1, pointNum) == 1.0
  {
  }

  lemma FractionStep(k: int, pointNum: int)
    requires pointNum > 2
    ensures Fraction(k + 1, pointNum) - Fraction(k, pointNum) == 1.0 / (pointNum - 1) as real
  {
    var d := (pointNum - 1) as real;
    assert (k + 1) as real == k as real + 1.0;
    assert (k as real + 1.0) / d == k as real / d + 1.0 / d;
  }

  /** Consecutive points of `from_end_points` are all the same step apart:
      one `(point_num - 1)`-th of the segment. */
  lemma FromEndPointsEvenlySpaced(startCo: Vec, endCo: Vec, pointNum: int, k: int)
    requires pointNum > 2 && 0 <= k < pointNum - 1
    ensures var cos := Layout(startCo, endCo, pointNum);
      Sub(cos[k + 1], cos[k]) == Scale(Sub(endCo, startCo), 1.0 / (pointNum - 1) as real)
  {
    LayoutAt(startCo, endCo, pointNum, k);
    LayoutAt(startCo, endCo, pointNum, k + 1);
    LerpStep(startCo, endCo, Fraction(k, pointNum), Fraction(k + 1, pointNum));
    FractionStep(k, pointNum);
  }

  /** Positions of a sequence of points. */
  function Cos(ps: seq<Point>): (r: seq<Vec>)
    ensures |r| == |ps|
    ensures forall k :: 0 <= k < |ps| ==> r[k] == ps[k].co
  {
    seq(|ps|, k requires 0 <= k < |ps| => ps[k].co)
  }

  /** Two points on a segment differ by the difference of their fractions. */
  lemma LerpStep(a: Vec, b: Vec, s: real, t: real)
    ensures Sub(Lerp(a, b, t), Lerp(a, b, s)) == Scale(Sub(b, a), t - s)
  {
    assert (b.x - a.x) * t - (b.x - a.x) * s == (b.x - a.x) * (t - s);
    assert (b.y - a.y) * t - (b.y - a.y) * s == (b.y - a.y) * (t - s);
  }

  /** `append_endpoint`: an empty chain just takes the point; otherwise the
      point goes before the start or after the end and is connected to the
      endpoint it now sits next to. */
  function AppendEndpoint(c: Chain, adj: Adjacency, p: PointId, toStart: bool): (r: (Chain, Adjacency))
    ensures r.0 == c.(points := r.0.points)
    ensures |c.points| == 0 ==> r.0.points == [p] && r.1 == adj
    ensures |c.points| > 0 && toStart ==>
      r.0.points == [p] + c.points && Linked(r.1, c.points[0], p)
    ensures |c.points| > 0 && !toStart ==>
      r.0.points == c.points + [p] && Linked(r.1, c.points[|c.points| - 1], p)
    ensures |c.points| > 0 ==> forall e :: e in r.1 && e !in adj ==> p == e.0 || p == e.1
    ensures adj <= r.1
  {
    if |c.points| == 0 then (c.(points := [p]), adj)
    else if toStart then (c.(points := [p] + c.points), Connect(adj, c.points[0], p))
    else (c.(points := c.points + [p]), Connect(adj, c.points[|c.points| - 1], p))
  }

  /** `close`: appends the start when the chain does not already end there. */
  function Close(c: Chain): (r: Chain)
    ensures r == c.(points := r.points)
    ensures Start(r.points) == End(r.points)
    ensures |c.points| > 0 && c.points[0] != c.points[|c.points| - 1] ==> r.points == c.points + [c.points[0]]
    ensures (|c.points| == 0 || c.points[0] == c.points[|c.points| - 1]) ==> r.points == c.points
  {
    if Start(c.points) != End(c.points) then c.(points := c.points + [c.points[0]]) else c
  }

  /** Closing a closed chain changes nothing. */
  lemma CloseIdempotent(c: Chain)
    ensures Close(Close(c)) == Close(c)
  {
  }

  // ---------------------------------------------------------------------
  // Structural edits.

  /** `cut(i)`: `ValueError` unless `0 < i < n - 1`; otherwise the chain keeps
      `points[..i]` (inclusive) and a new chain gets `points[i..]`, so the two
      share exactly the point at `i`. The new chain has no blob references. */
  function Cut(c: Chain, adj: Adjacency, i: int): (r: Result<(Chain, Chain, Adjacency)>)
    ensures r.Err? <==> !(0 < i < |c.points| - 1)
    ensures r.Err? ==> r.error == ValueError
    ensures r.Ok? ==>
      var (first, second, adj') := r.value;
      && first == c.(points := first.points)
      && second == Fresh(second.points)
      && first.points == c.points[..i + 1] && second.points == c.points[i..]
      && End(first.points) == Start(second.points) == Some(c.points[i])
      && PathLinked(adj', second.points) && adj <= adj'
  {
    if i <= 0 || i >= |c.points| - 1 then Err(ValueError)
    else
      var (second, adj') := FromPointList(c.points[i..], adj);
      Ok((c.(points := c.points[..i + 1]), second, adj'))
  }

  /** `cut(point)`: cuts at the first position of `point`; `ValueError` when
      the point is not on the chain. */
  function CutAtPoint(c: Chain, adj: Adjacency, p: PointId): (r: Result<(Chain, Chain, Adjacency)>)
    ensures p !in c.points ==> r == Err(ValueError)
    ensures p in c.points ==> r == Cut(c, adj, ListUtil.IndexOf(c.points, p).value)
  {
    match ListUtil.IndexOf(c.points, p)
    case None => Err(ValueError)
    case Some(k) => Cut(c, adj, k)
  }

  /** Cutting a valid chain gives two valid chains and makes no new
      connection, provided no interior point repeats an endpoint. */
  lemma CutPreservesValidity(c: Chain, adj: Adjacency, i: int)
    requires IsValidChain(c.points, adj)
    requires forall j :: 0 < j < |c.points| - 1 ==> c.points[j] != c.points[0] && c.points[j] != c.points[|c.points| - 1]
    requires 0 < i < |c.points| - 1
    ensures Cut(c, adj, i).Ok?
    ensures var (first, second, adj') := Cut(c, adj, i).value;
      adj' == adj && IsValidChain(first.points, adj) && IsValidChain(second.points, adj)
  {
    var pts := c.points;
    SubPathValid(pts, adj, 0, i + 1);
    SubPathValid(pts, adj, i, |pts|);
    var (first, second, adj') := Cut(c, adj, i).value;
    assert first.points == pts[0..i + 1];
    assert second.points == pts[i..|pts|];
  }

  /** A stretch of at least two points of a valid chain is a valid chain. */
  lemma SubPathValid(pts: seq<PointId>, adj: Adjacency, lo: int, hi: int)
    requires IsValidChain(pts, adj)
    requires forall j :: 0 < j < |pts| - 1 ==> pts[j] != pts[0] && pts[j] != pts[|pts| - 1]
    requires 0 <= lo && lo + 2 <= hi <= |pts|
    ensures IsValidChain(pts[lo..hi], adj)
  {
    var sub := pts[lo..hi];
    forall j | 0 <= j < |sub| - 1
      ensures Linked(adj, sub[j], sub[j + 1])
    {
      assert sub[j] == pts[lo + j] && sub[j + 1] == pts[lo + j + 1];
    }
    forall j | 0 < j < |sub| - 1 && sub[j] != sub[0] && sub[j] != sub[|sub| - 1]
      ensures |Neighbours(adj, sub[j])| == 2
    {
      assert sub[j] == pts[lo + j] && 0 < lo + j < |pts| - 1;
    }
  }

  /** `merge_with`: `ValueError` for disconnected chains. Otherwise `self`,
      reversed when it starts at the common point (its sides swap with it),
      loses that point and is followed by `other`, reversed when it ends
      there; `other` is emptied and loses its blob references. A `self` with
      the same blob on both sides cannot be merged: swapping its sides raises
      `ValueError`, and otherwise the closing assertion fails. */
  function MergeWith(self: Chain, other: Chain): (r: Result<(Chain, Chain)>)
    ensures r.Err? <==>
      !IsConnectedTo(self.points, other.points) || (self.blobLeft.Some? && self.blobLeft == self.blobRight)
    ensures !IsConnectedTo(self.points, other.points) ==> r == Err(ValueError)
    ensures IsConnectedTo(self.points, other.points) && r.Err? ==>
      r.error == (if self.points[0] == CommonEndpoint(self.points, other.points, true).value.value
                  then ValueError else AssertionError)
    ensures r.Ok? ==>
      var (merged, emptied) := r.value;
      var n1 := |self.points|;
      var m := merged.points;
      && emptied == other.(points := [], blobLeft := None, blobRight := None)
      && |m| == n1 + |other.points| - 1
      && m[n1 - 1] == CommonEndpoint(self.points, other.points, true).value.value
      && m[n1 - 1] in Endpoints(self.points) * Endpoints(other.points)
      && (m[n1 - 1] == self.points[0] ==>
            m[..n1] == ListUtil.Reverse(self.points) &&
            merged == self.(points := m, blobLeft := self.blobRight, blobRight := self.blobLeft))
      && (m[n1 - 1] != self.points[0] ==> m[..n1] == self.points && merged == self.(points := m))
      && (m[n1 - 1] == other.points[|other.points| - 1] ==> m[n1 - 1..] == ListUtil.Reverse(other.points))
      && (m[n1 - 1] != other.points[|other.points| - 1] ==> m[n1 - 1..] == other.points)
  {
    if !IsConnectedTo(self.points, other.points) then Err(ValueError)
    else
      var common := CommonEndpoint(self.points, other.points, true).value.value;
      var sameSides := self.blobLeft.Some? && self.blobLeft == self.blobRight;
      if self.points[0] == common && sameSides then Err(ValueError)
      else
        var s := if self.points[0] == common then ListUtil.Reverse(self.points) else self.points;
        var o := if other.points[|other.points| - 1] == common then ListUtil.Reverse(other.points) else other.points;
        assert s[|s| - 1] == common && o[0] == common;
        var m := Join(s, o);
        var merged := if self.points[0] == common
          then self.(points := m, blobLeft := self.blobRight, blobRight := self.blobLeft)
          else self.(points := m);
        if sameSides then Err(AssertionError)
        else Ok((merged, other.(points := [], blobLeft := None, blobRight := None)))
  }

  /** `s` without its last point, then `o`, where `s` ends where `o` starts. */
  function Join(s: seq<PointId>, o: seq<PointId>): (r: seq<PointId>)
    requires |s| > 0 && |o| > 0 && s[|s| - 1] == o[0]
    ensures |r| == |s| + |o| - 1 && r[..|s|] == s && r[|s| - 1..] == o
  {
    assert (s[..|s| - 1] + o)[..|s|] == s[..|s| - 1] + [o[0]];
    s[..|s| - 1] + o
  }

  /** Cutting a chain of distinct points and merging the halves back gives
      the original points. */
  lemma CutThenMerge(c: Chain, adj: Adjacency, i: int)
    requires ListUtil.Distinct(c.points)
    requires !(c.blobLeft.Some? && c.blobLeft == c.blobRight)
    requires 0 < i < |c.points| - 1
    ensures Cut(c, adj, i).Ok?
    ensures var (first, second, _) := Cut(c, adj, i).value;
      MergeWith(first, second).Ok? && MergeWith(first, second).value.0 == c
  {
    var pts := c.points;
    var n := |pts|;
    var (first, second, _) := Cut(c, adj, i).value;
    assert Endpoints(first.points) * Endpoints(second.points) == {pts[i]} by {
      assert pts[0] != pts[i] && pts[i] != pts[n - 1] && pts[0] != pts[n - 1];
    }
    var (merged, _) := MergeWith(first, second).value;
    var m := merged.points;
    assert m[i] == pts[i];
    assert m[..i + 1] == first.points by { assert pts[0] != pts[i]; }
    assert m[i..] == second.points by { assert pts[i] != pts[n - 1]; }
    JoinUnique(m, first.points, second.points);
    JoinOfCut(pts, i);
  }

  /** A sequence that starts with `s` and continues from its last element
      with `o` is their join. */
  lemma JoinUnique(m: seq<PointId>, s: seq<PointId>, o: seq<PointId>)
    requires |s| > 0 && |o| > 0 && s[|s| - 1] == o[0]
    requires |m| == |s| + |o| - 1 && m[..|s|] == s && m[|s| - 1..] == o
    ensures m == Join(s, o)
  {
    var j := Join(s, o);
    forall k | 0 <= k < |m|
      ensures m[k] == j[k]
    {
      if k < |s| {
        assert m[k] == m[..|s|][k] && j[k] == j[..|s|][k];
      } else {
        assert m[k] == m[|s| - 1..][k - |s| + 1] && j[k] == j[|s| - 1..][k - |s| + 1];
      }
    }
  }

  /** The two halves of a cut join back to the whole. */
  lemma JoinOfCut(pts: seq<PointId>, i: int)
    requires 0 <= i < |pts|
    ensures Join(pts[..i + 1], pts[i..]) == pts
  {
    assert pts[..i + 1][..i] == pts[..i];
    assert pts[..i] + pts[i..] == pts;
  }

  /** Merging gives back a chain of length `n1 + n2 - 1` over the points of
      both chains, the common point counted once. */
  lemma MergeKeepsPoints(self: Chain, other: Chain)
    requires MergeWith(self, other).Ok?
    ensures var m := MergeWith(self, other).value.0.points;
      multiset(m) + multiset{m[|self.points| - 1]} == multiset(self.points) + multiset(other.points)
  {
    var m := MergeWith(self, other).value.0.points;
    var n1 := |self.points|;
    assert m[..n1] == self.points || m[..n1] == ListUtil.Reverse(self.points);
    assert m[n1 - 1..] == other.points || m[n1 - 1..] == ListUtil.Reverse(other.points);
    SameOrReversedPermutes(self.points, m[..n1]);
    SameOrReversedPermutes(other.points, m[n1 - 1..]);
    MultisetAroundPivot(m, n1 - 1);
  }

  lemma SameOrReversedPermutes(s: seq<PointId>, t: seq<PointId>)
    requires t == s || t == ListUtil.Reverse(s)
    ensures multiset(t) == multiset(s)
  {
    if t != s {
      ListUtil.ReversePermutes(s);
    }
  }

  /** Splitting at `k` with `k` kept on both sides counts `m[k]` twice. */
  lemma MultisetAroundPivot<T>(m: seq<T>, k: int)
    requires 0 <= k < |m|
    ensures multiset(m[..k + 1]) + multiset(m[k..]) == multiset(m) + multiset{m[k]}
  {
    assert m[..k + 1] == m[..k] + [m[k]];
    assert m == m[..k] + m[k..];
  }

  /** `create_midpoint(i, j)`: `RuntimeError` unless the indexes are
      neighbours. Otherwise a new point is made at the average position and
      with the average pending offset of the two points (read with Python's
      indexing, `IndexError` outside the chain) and inserted at `min(i, j) + 1`
      as `list.insert` places it. The handle of the new point is supplied by
      the caller. */
  function CreateMidpoint(c: Chain, store: map<PointId, Point>, i: int, j: int, newId: PointId): (r: Result<(Chain, Point)>)
    requires forall p :: p in c.points ==> p in store
    ensures r.Err? <==>
      (i - j != 1 && j - i != 1) || ListUtil.PyGet(c.points, Min(i, j)).Err? || ListUtil.PyGet(c.points, Max(i, j)).Err?
    ensures r.Err? ==> r.error == (if i - j != 1 && j - i != 1 then RuntimeError else IndexError)
    ensures r.Ok? ==>
      && r.value.0 == c.(points := r.value.0.points)
      && ListUtil.InsertedAt(c.points, r.value.0.points, ListUtil.PyInsertPos(|c.points|, Min(i, j) + 1), newId)
    ensures r.Ok? ==>
      IsMidpointOf(store, ListUtil.PyGet(c.points, Min(i, j)).value, ListUtil.PyGet(c.points, Max(i, j)).value, r.value.1)
    ensures r.Ok? && 0 <= Min(i, j) && Max(i, j) < |c.points| ==>
      r.value.0.points == ListUtil.InsertAt(c.points, Min(i, j) + 1, newId)
  {
    if i - j != 1 && j - i != 1 then Err(RuntimeError)
    else
      var lo, hi := Min(i, j), Max(i, j);
      var a :- ListUtil.PyGet(c.points, lo);
      var b :- ListUtil.PyGet(c.points, hi);
      var pos := ListUtil.PyInsertPos(|c.points|, lo + 1);
      var mid := Point(Midpoint(store[a].co, store[b].co), Midpoint(store[a].offset, store[b].offset));
      Ok((c.(points := ListUtil.InsertAt(c.points, pos, newId)), mid))
  }

  /** `m` sits halfway between the stored points `a` and `b`, and carries
      half of each one's pending offset. */
  ghost predicate IsMidpointOf(store: map<PointId, Point>, a: PointId, b: PointId, m: Point) {
    && a in store && b in store
    && m.co == Midpoint(store[a].co, store[b].co)
    && m.offset == Midpoint(store[a].offset, store[b].offset)
  }

  function Min(a: int, b: int): int { if a < b then a else b }
  function Max(a: int, b: int): int { if a < b then b else a }

  /** The points of `remove_point`'s adjacency update: the neighbours of the
      removed point are connected to each other, then the point is
      disconnected from both. */
  function RemovalAdjacency(pts: seq<PointId>, adj: Adjacency, i: int): (r: Adjacency)
    requires 0 <= i < |pts|
    ensures 0 < i ==> !Linked(r, pts[i], pts[i - 1])
    ensures i < |pts| - 1 ==> !Linked(r, pts[i], pts[i + 1])
    ensures 0 < i < |pts| - 1 && pts[i] != pts[i - 1] && pts[i] != pts[i + 1] ==> Linked(r, pts[i - 1], pts[i + 1])
    ensures !(0 < i < |pts| - 1) ==> r <= adj
    ensures 0 < i < |pts| - 1 ==> forall e :: e in r && e !in adj ==> e == (pts[i - 1], pts[i + 1]) || e == (pts[i + 1], pts[i - 1])
    ensures forall e :: e in adj && e !in r ==> pts[i] == e.0 || pts[i] == e.1
  {
    var last := |pts| - 1;
    var a1 := if 0 < i < last then Connect(adj, pts[i - 1], pts[i + 1]) else adj;
    var a2 := if i > 0 then Disconnect(a1, pts[i], pts[i - 1]) else a1;
    if i < last then Disconnect(a2, pts[i], pts[i + 1]) else a2
  }

  /** `remove_point(i)`, taking the point out at the position the index
      names (Python's indexing, `IndexError` outside the chain): the remaining
      points keep their order, an interior point's neighbours become
      connected, and the removed point is disconnected from them. */
  function RemovePoint(c: Chain, adj: Adjacency, i: int): (r: Result<(Chain, Adjacency, PointId)>)
    ensures r.Err? <==> ListUtil.PyIndex(|c.points|, i).None?
    ensures r.Err? ==> r.error == IndexError
    ensures r.Ok? ==>
      var k := ListUtil.PyIndex(|c.points|, i).value;
      var (chain', adj', removed) := r.value;
      && removed == c.points[k]
      && chain' == c.(points := c.points[..k] + c.points[k + 1..])
      && adj' == RemovalAdjacency(c.points, adj, k)
  {
    match ListUtil.PyIndex(|c.points|, i)
    case None => Err(IndexError)
    case Some(k) => Ok((c.(points := c.points[..k] + c.points[k + 1..]), RemovalAdjacency(c.points, adj, k), c.points[k]))
  }

  /** `remove_point(i)` as the engine writes it: the neighbours are looked up
      from the raw index, but the point list drops the FIRST occurrence of the
      point (`list.remove`), which is another position when the point
      repeats. */
  function RemovePointAsWritten(c: Chain, adj: Adjacency, i: int): (r: Result<(Chain, Adjacency, PointId)>)
    ensures r.Err? <==> ListUtil.PyIndex(|c.points|, i).None?
    ensures r.Ok? ==>
      && |r.value.0.points| == |c.points| - 1
      && r.value.2 == c.points[ListUtil.PyIndex(|c.points|, i).value]
      && multiset(r.value.0.points) + multiset{r.value.2} == multiset(c.points)
  {
    var p :- ListUtil.PyGet(c.points, i);
    ListUtil.RemoveFirstPermutes(c.points, p);
    var rest := ListUtil.RemoveFirst(c.points, p).value;
    Ok((c.(points := rest), RemovalAdjacencyAsWritten(c.points, adj, i), p))
  }

  /** The adjacency update of `remove_point` on the raw index: for a
      negative index the lower neighbour is never disconnected and the upper
      one is read with Python's indexing. */
  function RemovalAdjacencyAsWritten(pts: seq<PointId>, adj: Adjacency, i: int): (r: Adjacency)
    requires -|pts| <= i < |pts|
    ensures 0 <= i ==> r == RemovalAdjacency(pts, adj, i)
  {
    var last := |pts| - 1;
    var p := ListUtil.PyGet(pts, i).value;
    var a1 := if 0 < i < last then Connect(adj, pts[i - 1], pts[i + 1]) else adj;
    var a2 := if i > 0 then Disconnect(a1, p, pts[i - 1]) else a1;
    if i < last then Disconnect(a2, p, ListUtil.PyGet(pts, i + 1).value) else a2
  }

  /** The two agree whenever the point does not occur before index `i`. */
  lemma RemovePointAgreesWhenFirst(c: Chain, adj: Adjacency, i: int)
    requires 0 <= i < |c.points| && c.points[i] !in c.points[..i]
    ensures RemovePointAsWritten(c, adj, i) == RemovePoint(c, adj, i)
  {
    var k := ListUtil.IndexOf(c.points, c.points[i]).value;
    assert k == i;
    ListUtil.RemoveFirstAt(c.points, c.points[i]);
  }

  /** On the closed chain `1, 2, 3, 1`, removing index 3 with the engine's
      code removes the first point instead, leaving `2, 3, 1` where `1, 2, 3`
      is meant. */
  lemma RemovePointAsWrittenDropsFirstOccurrence()
    ensures RemovePointAsWritten(Fresh([1, 2, 3, 1]), {}, 3).value.0.points == [2, 3, 1]
  {
    assert ListUtil.RemoveFirst([1, 2, 3, 1], 1) == Ok([2, 3, 1]);
  }

  /** The corrected removal on the same chain drops the last point. */
  lemma RemovePointClosedChainExample()
    ensures RemovePoint(Fresh([1, 2, 3, 1]), {}, 3).value.0.points == [1, 2, 3]
  {
    var pts := [1, 2, 3, 1];
    assert pts[..3] + pts[4..] == [1, 2, 3];
  }

  /** `remove_point(point)`: `ValueError` when the point is not on the chain;
      otherwise removal at its first position, where the engine's
      first-occurrence removal is right. */
  function RemovePointByPoint(c: Chain, adj: Adjacency, p: PointId): (r: Result<(Chain, Adjacency, PointId)>)
    ensures p !in c.points <==> r.Err?
    ensures r.Err? ==> r.error == ValueError
    ensures r.Ok? ==> r.value.2 == p && |r.value.0.points| == |c.points| - 1
    ensures r.Ok? ==> r == RemovePoint(c, adj, ListUtil.IndexOf(c.points, p).value)
    ensures r.Ok? ==> r == RemovePointAsWritten(c, adj, ListUtil.IndexOf(c.points, p).value)
  {
    match ListUtil.IndexOf(c.points, p)
    case None => Err(ValueError)
    case Some(k) =>
      RemovePointAgreesWhenFirst(c, adj, k);
      RemovePoint(c, adj, k)
  }

  /** Inserting a midpoint and removing it again restores the point list. */
  lemma MidpointThenRemove(c: Chain, store: map<PointId, Point>, adj: Adjacency, i: int, newId: PointId)
    requires forall p :: p in c.points ==> p in store
    requires 0 <= i && i + 1 < |c.points|
    ensures CreateMidpoint(c, store, i, i + 1, newId).Ok?
    ensures var c' := CreateMidpoint(c, store, i, i + 1, newId).value.0;
      RemovePoint(c', adj, i + 1).Ok? && RemovePoint(c', adj, i + 1).value.0 == c
  {
    var c' := CreateMidpoint(c, store, i, i + 1, newId).value.0;
    var pts := c.points;
    assert c'.points[..i + 1] == pts[..i + 1];
    assert c'.points[i + 2..] == pts[i + 1..];
    assert pts[..i + 1] + pts[i + 1..] == pts;
  }

  /** Appending an endpoint and removing it again restores the point list. */
  lemma AppendThenRemove(c: Chain, adj: Adjacency, p: PointId, toStart: bool)
    ensures var c' := AppendEndpoint(c, adj, p, toStart).0;
      var k := if toStart then 0 else |c'.points| - 1;
      RemovePoint(c', adj, k).Ok? && RemovePoint(c', adj, k).value.0 == c
  {
    var c' := AppendEndpoint(c, adj, p, toStart).0;
    if toStart {
      assert c'.points[1..] == c.points;
    } else {
      assert c'.points[..|c'.points| - 1] == c.points;
    }
  }

  /** `swap_point`: the first occurrence of `remove` is replaced by
      `insert`; `ValueError` when `remove` is not on the chain. */
  function SwapPoint(c: Chain, remove: PointId, insert: PointId): (r: Result<Chain>)
    ensures r.Err? <==> remove !in c.points
    ensures r.Err? ==> r.error == ValueError
    ensures r.Ok? ==>
      var k := ListUtil.IndexOf(c.points, remove).value;
      && r.value == c.(points := r.value.points)
      && |r.value.points| == |c.points|
      && r.value.points[k] == insert
      && forall j :: 0 <= j < |c.points| && j != k ==> r.value.points[j] == c.points[j]
  {
    match ListUtil.IndexOf(c.points, remove)
    case None => Err(ValueError)
    case Some(k) => Ok(c.(points := c.points[k := insert]))
  }

  /** Swapping a point for one not on the chain and back restores the chain. */
  lemma SwapPointRoundTrip(c: Chain, a: PointId, b: PointId)
    requires a in c.points && b !in c.points
    ensures SwapPoint(c, a, b).Ok?
    ensures SwapPoint(SwapPoint(c, a, b).value, b, a) == Ok(c)
  {
    var k := ListUtil.IndexOf(c.points, a).value;
    var c' := SwapPoint(c, a, b).value;
    assert c'.points == c.points[k := b];
    var k' := ListUtil.IndexOf(c'.points, b).value;
    assert c'.points[..k] == c.points[..k];
    assert k' == k;
    assert c'.points[k := a] == c.points;
  }

  /** `switch_endpoint_to`: removes `endpoint` as `remove_point(point)` does
      (its first occurrence; `ValueError` when absent) and appends `target` at
      the start when `endpoint` was the start, at the end otherwise. */
  function SwitchEndpointTo(c: Chain, adj: Adjacency, endpoint: PointId, target: PointId): (r: Result<(Chain, Adjacency)>)
    ensures r.Err? <==> endpoint !in c.points
    ensures r.Err? ==> r.error == ValueError
    ensures r.Ok? && |c.points| > 0 && endpoint == c.points[0] ==>
      r.value.0 == c.(points := [target] + c.points[1..])
    ensures r.Ok? && |c.points| > 0 && endpoint == c.points[|c.points| - 1] &&
            (forall j :: 0 <= j < |c.points| - 1 ==> c.points[j] != endpoint) ==>
      r.value.0 == c.(points := c.points[..|c.points| - 1] + [target])
    ensures r.Ok? ==> target in Endpoints(r.value.0.points) && |r.value.0.points| == |c.points|
  {
    var isStart := Start(c.points) == Some(endpoint);
    match ListUtil.IndexOf(c.points, endpoint)
    case None => Err(ValueError)
    case Some(k) =>
      var (c', adj', _) := RemovePoint(c, adj, k).value;
      assert isStart ==> k == 0;
      assert c'.points == c.points[..k] + c.points[k + 1..];
      Ok(AppendEndpoint(c', adj', target, isStart))
  }

  /** Switching an endpoint to a new point and back restores the chain, for a
      chain of distinct points. */
  lemma SwitchEndpointRoundTrip(c: Chain, adj: Adjacency, e: PointId, t: PointId)
    requires ListUtil.Distinct(c.points) && |c.points| >= 2
    requires e in Endpoints(c.points) && t !in c.points
    ensures SwitchEndpointTo(c, adj, e, t).Ok?
    ensures var (c', adj') := SwitchEndpointTo(c, adj, e, t).value;
      SwitchEndpointTo(c', adj', t, e).Ok? && SwitchEndpointTo(c', adj', t, e).value.0 == c
  {
    var pts := c.points;
    var n := |pts|;
    if e == pts[0] {
      SwitchStartRoundTrip(c, adj, t);
    } else {
      SwitchEndRoundTrip(c, adj, t);
    }
  }

  lemma SwitchStartRoundTrip(c: Chain, adj: Adjacency, t: PointId)
    requires |c.points| >= 2 && t !in c.points
    ensures SwitchEndpointTo(c, adj, c.points[0], t).Ok?
    ensures var (c', adj') := SwitchEndpointTo(c, adj, c.points[0], t).value;
      SwitchEndpointTo(c', adj', t, c.points[0]).Ok? && SwitchEndpointTo(c', adj', t, c.points[0]).value.0 == c
  {
    var pts := c.points;
    assert pts[0] in pts;
    var (c', adj') := SwitchEndpointTo(c, adj, pts[0], t).value;
    assert c'.points == [t] + pts[1..];
    assert c'.points[0] == t && t in c'.points;
    assert c'.points[1..] == pts[1..];
    assert [pts[0]] + pts[1..] == pts;
  }

  lemma SwitchEndRoundTrip(c: Chain, adj: Adjacency, t: PointId)
    requires ListUtil.Distinct(c.points) && |c.points| >= 2 && t !in c.points
    ensures SwitchEndpointTo(c, adj, c.points[|c.points| - 1], t).Ok?
    ensures var (c', adj') := SwitchEndpointTo(c, adj, c.points[|c.points| - 1], t).value;
      SwitchEndpointTo(c', adj', t, c.points[|c.points| - 1]).Ok? &&
      SwitchEndpointTo(c', adj', t, c.points[|c.points| - 1]).value.0 == c
  {
    var pts := c.points;
    var n := |pts|;
    var e := pts[n - 1];
    assert pts[0] != e;
    var (c', adj') := SwitchEndpointTo(c, adj, e, t).value;
    var m := c'.points;
    assert m == pts[..n - 1] + [t];
    assert t != m[0];
    assert forall j :: 0 <= j < |m| - 1 ==> m[j] != t;
    assert m[..|m| - 1] == pts[..n - 1];
    assert pts[..n - 1] + [e] == pts;
  }

  // ---------------------------------------------------------------------
  // Queries.

  /** `is_unmoving`: an explicit override wins; a chain missing a blob on
      either side borders the outside and never moves; otherwise it is
      unmoving when either neighbouring blob is pinned. */
  function IsUnmoving(c: Chain, blobPinned: BlobId -> bool): (r: bool)
    ensures c.unmovingOverride.Some? ==> r == c.unmovingOverride.value
    ensures c.unmovingOverride.None? && (c.blobLeft.None? || c.blobRight.None?) ==> r
    ensures c.unmovingOverride.None? && c.blobLeft.Some? && c.blobRight.Some? ==>
      (r <==> blobPinned(c.blobLeft.value) || blobPinned(c.blobRight.value))
  {
    if c.unmovingOverride.Some? then c.unmovingOverride.value
    else if c.blobLeft.None? || c.blobRight.None? then true
    else blobPinned(c.blobLeft.value) || blobPinned(c.blobRight.value)
  }

  /** `__eq__`: equal point lists, in the same or in reversed order. */
  predicate Equal(a: seq<PointId>, b: seq<PointId>) {
    a == b || a == ListUtil.Reverse(b)
  }

  /** Equal chains hold the same points with the same multiplicities and
      have the same endpoints; a chain equals itself. */
  lemma EqualMeans(a: seq<PointId>, b: seq<PointId>)
    ensures a == b ==> Equal(a, b)
    ensures Equal(a, b) ==> multiset(a) == multiset(b) && Endpoints(a) == Endpoints(b)
  {
    ListUtil.ReversePermutes(b);
  }

  /** Chain equality is an equivalence relation. */
  lemma EqualIsEquivalence(a: seq<PointId>, b: seq<PointId>, c: seq<PointId>)
    ensures Equal(a, a)
    ensures Equal(a, b) ==> Equal(b, a)
    ensures Equal(a, b) && Equal(b, c) ==> Equal(a, c)
  {
    ListUtil.ReverseReverse(a);
    ListUtil.ReverseReverse(b);
    ListUtil.ReverseReverse(c);
  }

  /** Chains with different endpoints are not equal. */
  lemma UnequalByEndpoints(a: seq<PointId>, b: seq<PointId>)
    requires Endpoints(a) != Endpoints(b)
    ensures !Equal(a, b)
  {
  }

  /** The result of `find_biggest_gap`: the pair of indexes and the gap. */
  datatype Gap = Gap(i: int, j: int, length: real)

  /** `find_biggest_gap`: `ValueError` below two points; otherwise the first
      consecutive pair with the strictly largest positive distance, or
      `(-1, -1, 0)` when no gap is positive. Distance is a parameter. */
  method FindBiggestGap(cos: seq<Vec>, dist: (Vec, Vec) -> real) returns (r: Result<Gap>)
    ensures r.Err? <==> |cos| < 2
    ensures r.Err? ==> r.error == ValueError
    ensures r.Ok? && r.value.i == -1 ==>
      r.value == Gap(-1, -1, 0.0) && forall k :: 0 <= k < |cos| - 1 ==> dist(cos[k], cos[k + 1]) <= 0.0
    ensures r.Ok? && r.value.i != -1 ==>
      var g := r.value;
      && 0 <= g.i < |cos| - 1 && g.j == g.i + 1
      && g.length == dist(cos[g.i], cos[g.j]) && g.length > 0.0
      && (forall k :: 0 <= k < |cos| - 1 ==> dist(cos[k], cos[k + 1]) <= g.length)
      && (forall k :: 0 <= k < g.i ==> dist(cos[k], cos[k + 1]) < g.length)
  {
    if |cos| < 2 {
      return Err(ValueError);
    }
    var best := Gap(-1, -1, 0.0);
    var i := 0;
    while i < |cos| - 1
      invariant 0 <= i <= |cos| - 1
      invariant best.i == -1 ==> best == Gap(-1, -1, 0.0) && forall k :: 0 <= k < i ==> dist(cos[k], cos[k + 1]) <= 0.0
      invariant best.i != -1 ==>
        && 0 <= best.i < i && best.j == best.i + 1
        && best.length == dist(cos[best.i], cos[best.j]) && best.length > 0.0
        && (forall k :: 0 <= k < i ==> dist(cos[k], cos[k + 1]) <= best.length)
        && (forall k :: 0 <= k < best.i ==> dist(cos[k], cos[k + 1]) < best.length)
    {
      var gap := dist(cos[i], cos[i + 1]);
      if gap > best.length {
        best := Gap(i, i + 1, gap);
      }
      i := i + 1;
    }
    return Ok(best);
  }

  /** `right_normal_at(i)`: the tangent between the clamped neighbours
      `max(0, i - 1)` and `min(i + 1, n - 1)`, turned a quarter to `(-dy, dx)`.
      The neighbours are read with Python's indexing, so a negative upper
      neighbour counts from the end; one outside the chain raises
      `IndexError`. */
  function RightNormalAt(cos: seq<Vec>, i: int): (r: Result<Vec>)
    ensures r.Err? <==> ListUtil.PyGet(cos, Max(0, i - 1)).Err? || ListUtil.PyGet(cos, Min(i + 1, |cos| - 1)).Err?
    ensures r.Err? ==> r.error == IndexError
    ensures r.Ok? ==>
      var t := Sub(ListUtil.PyGet(cos, Min(i + 1, |cos| - 1)).value, ListUtil.PyGet(cos, Max(0, i - 1)).value);
      Dot(r.value, t) == 0.0 && LengthSquared(r.value) == LengthSquared(t) && Cross(t, r.value) >= 0.0
    ensures 0 <= i < |cos| ==>
      (r.Ok? && Dot(r.value, Sub(cos[Min(i + 1, |cos| - 1)], cos[Max(0, i - 1)])) == 0.0)
  {
    var p1 :- ListUtil.PyGet(cos, Max(0, i - 1));
    var p2 :- ListUtil.PyGet(cos, Min(i + 1, |cos| - 1));
    Ok(RotateQuarter(Sub(p2, p1)))
  }

  /** The chain (2,4) (1,3) (1,2) (0,2) (0,1) (0,0) drawn in the repository's
      normal-direction test. */
  function Doodle(): seq<Vec> {
    [Vec(2.0, 4.0), Vec(1.0, 3.0), Vec(1.0, 2.0), Vec(0.0, 2.0), Vec(0.0, 1.0), Vec(0.0, 0.0)]
  }

  /** Its six right normals, each pointing to the right of the direction of
      travel: (1,-1) (2,-1) (1,-1) (1,-1) (2,0) (1,0). */
  lemma RightNormalExamples()
    ensures RightNormalAt(Doodle(), 0) == Ok(Vec(1.0, -1.0))
    ensures RightNormalAt(Doodle(), 1) == Ok(Vec(2.0, -1.0))
    ensures RightNormalAt(Doodle(), 2) == Ok(Vec(1.0, -1.0))
    ensures RightNormalAt(Doodle(), 3) == Ok(Vec(1.0, -1.0))
    ensures RightNormalAt(Doodle(), 4) == Ok(Vec(2.0, 0.0))
    ensures RightNormalAt(Doodle(), 5) == Ok(Vec(1.0, 0.0))
  {
    DoodleNormal0();
    DoodleNormal1();
    DoodleNormal2();
    DoodleNormal3();
    DoodleNormal4();
    DoodleNormal5();
  }

  lemma DoodleNormal0()
    ensures RightNormalAt(Doodle(), 0) == Ok(Vec(1.0, -1.0))
  {
    var cos := Doodle();
    assert Max(0, 0 - 1) == 0 && Min(0 + 1, 5) == 1;
    assert Sub(cos[1], cos[0]) == Vec(-1.0, -1.0);
  }

  lemma DoodleNormal1()
    ensures RightNormalAt(Doodle(), 1) == Ok(Vec(2.0, -1.0))
  {
    var cos := Doodle();
    assert Max(0, 1 - 1) == 0 && Min(1 + 1, 5) == 2;
    assert Sub(cos[2], cos[0]) == Vec(-1.0, -2.0);
  }

  lemma DoodleNormal2()
    ensures RightNormalAt(Doodle(), 2) == Ok(Vec(1.0, -1.0))
  {
    var cos := Doodle();
    assert Max(0, 2 - 1) == 1 && Min(2 + 1, 5) == 3;
    assert Sub(cos[3], cos[1]) == Vec(-1.0, -1.0);
  }

  lemma DoodleNormal3()
    ensures RightNormalAt(Doodle(), 3) == Ok(Vec(1.0, -1.0))
  {
    var cos := Doodle();
    assert Max(0, 3 - 1) == 2 && Min(3 + 1, 5) == 4;
    assert Sub(cos[4], cos[2]) == Vec(-1.0, -1.0);
  }

  lemma DoodleNormal4()
    ensures RightNormalAt(Doodle(), 4) == Ok(Vec(2.0, 0.0))
  {
    var cos := Doodle();
    assert Max(0, 4 - 1) == 3 && Min(4 + 1, 5) == 5;
    assert Sub(cos[5], cos[3]) == Vec(0.0, -2.0);
  }

  lemma DoodleNormal5()
    ensures RightNormalAt(Doodle(), 5) == Ok(Vec(1.0, 0.0))
  {
    var cos := Doodle();
    assert Max(0, 5 - 1) == 4 && Min(5 + 1, 5) == 5;
    assert Sub(cos[5], cos[4]) == Vec(0.0, -1.0);
  }
}

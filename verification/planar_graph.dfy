/** The face tracer that turns the chains' endpoint graph into loops.

    Vertices are identities (the `id` of a point); the adjacency is a map
    from each vertex to its neighbours together with the map's key order,
    as a Python `dict` keeps insertion order. The angular order of each
    neighbour list comes from `atan2` and is an input here: the tracer is
    given the adjacency already sorted around every vertex (a rotation
    system). Point positions are a parameter `co`. */
module PlanarGraph {

  import opened Results
  import opened Geometry
  import ListUtil

  type VertexId = int
  type Edge = (VertexId, VertexId)
  type Adj = map<VertexId, seq<VertexId>>
  type Used = map<VertexId, seq<bool>>

  /** A directed edge: the `i`-th entry of `u`'s neighbour list. */
  type DirEdge = (VertexId, nat)

  // ---------------------------------------------------------------------
  // Building the adjacency
  // ---------------------------------------------------------------------

  /** Both ends of every edge, in order. */
  function Ends(edges: seq<Edge>): (r: seq<VertexId>)
    ensures |r| == 2 * |edges|
  {
    if |edges| == 0 then []
    else Ends(edges[..|edges| - 1]) + [edges[|edges| - 1].0, edges[|edges| - 1].1]
  }

  /** The vertices of `s` in order of first appearance. */
  function FirstAppearances(s: seq<VertexId>, seen: seq<VertexId>): (r: seq<VertexId>)
    requires ListUtil.Distinct(seen)
    ensures ListUtil.Distinct(r)
    ensures forall v :: v in r <==> v in seen || v in s
    ensures |seen| <= |r| && r[..|seen|] == seen
  {
    if |s| == 0 then seen
    else if s[0] in seen then FirstAppearances(s[1..], seen)
    else
      var r := FirstAppearances(s[1..], seen + [s[0]]);
      assert r[..|seen|] == (seen + [s[0]])[..|seen|];
      r
  }

  /** The key order of the `points` dict: every edge end, first
      appearances first. */
  function Vertices(edges: seq<Edge>): (r: seq<VertexId>)
    ensures ListUtil.Distinct(r)
    ensures forall v :: v in r <==> v in Ends(edges)
  {
    FirstAppearances(Ends(edges), [])
  }

  /** The neighbours each edge contributes to `v`: the other end for each
      end at `v` (twice for a loop at `v`). */
  function Partners(edges: seq<Edge>, v: VertexId): multiset<VertexId>
  {
    if |edges| == 0 then multiset{}
    else Partners(edges[..|edges| - 1], v) + Contribution(edges[|edges| - 1], v)
  }

  /** What one edge adds to the neighbours of `v`. */
  function Contribution(e: Edge, v: VertexId): multiset<VertexId>
  {
    (if e.0 == v then multiset{e.1} else multiset{}) + (if e.1 == v then multiset{e.0} else multiset{})
  }

  /** One edge listed from both ends: `adjacency[a].append(b)`, then
      `adjacency[b].append(a)`. */
  function AddEdge(adj: Adj, a: VertexId, b: VertexId): (r: Adj)
    requires a in adj && b in adj
    ensures r.Keys == adj.Keys
    ensures forall v :: v in r ==> multiset(r[v]) == multiset(adj[v]) + Contribution((a, b), v)
  {
    var adj1 := adj[a := adj[a] + [b]];
    adj1[b := adj1[b] + [a]]
  }

  /** The loop over `edges`, starting from `init`. */
  function Attach(init: Adj, edges: seq<Edge>): (r: Adj)
    requires forall v :: v in Ends(edges) ==> v in init
    ensures r.Keys == init.Keys
    ensures forall v :: v in r ==> multiset(r[v]) == multiset(init[v]) + Partners(edges, v)
  {
    if |edges| == 0 then init
    else
      var front := edges[..|edges| - 1];
      var e := edges[|edges| - 1];
      assert e.0 in Ends(edges) && e.1 in Ends(edges) && forall v :: v in Ends(front) ==> v in Ends(edges) by {
        assert Ends(edges) == Ends(front) + [e.0, e.1];
      }
      var adj := Attach(init, front);
      var r := AddEdge(adj, e.0, e.1);
      forall v | v in r
        ensures multiset(r[v]) == multiset(init[v]) + Partners(edges, v)
      {
        UnionStep(multiset(r[v]), multiset(adj[v]), multiset(init[v]), Partners(front, v), Contribution(e, v));
      }
      r
  }

  lemma UnionStep(r: multiset<VertexId>, a: multiset<VertexId>, i: multiset<VertexId>, p: multiset<VertexId>, c: multiset<VertexId>)
    requires r == a + c && a == i + p
    ensures r == i + (p + c)
  {
  }

  /** The adjacency `get_faces_of_planar_graph` builds: a key for every
      edge end, in first-appearance order, and every edge listed from both
      of its ends. */
  function Adjacency(edges: seq<Edge>): (r: Adj)
    ensures forall v :: v in r <==> v in Ends(edges)
    ensures forall v :: v in r ==> multiset(r[v]) == Partners(edges, v)
  {
    var init := map v | v in Ends(edges) :: [];
    Attach(init, edges)
  }

  /** Each edge counts once towards the neighbours of each of its ends, so
      `b` is listed at `a` exactly as often as `a` is listed at `b`. */
  lemma {:induction false} PartnersSymmetric(edges: seq<Edge>, a: VertexId, b: VertexId)
    ensures Partners(edges, a)[b] == Partners(edges, b)[a]
  {
    if |edges| > 0 {
      PartnersSymmetric(edges[..|edges| - 1], a, b);
    }
  }

  /** A vertex has one neighbour entry per edge end at it. */
  lemma {:induction false} PartnersCountEnds(edges: seq<Edge>, v: VertexId)
    ensures |Partners(edges, v)| == multiset(Ends(edges))[v]
  {
    if |edges| > 0 {
      var front := edges[..|edges| - 1];
      var (a, b) := edges[|edges| - 1];
      PartnersCountEnds(front, v);
      assert Ends(edges) == Ends(front) + [a, b];
    }
  }

  /** Earlier edges keep their contribution. */
  lemma PartnersGrow(edges: seq<Edge>, v: VertexId)
    requires |edges| > 0
    ensures Partners(edges[..|edges| - 1], v) <= Partners(edges, v)
  {
  }

  /** Every edge is listed from both of its ends. */
  lemma {:induction false} EdgeListedBothWays(edges: seq<Edge>, k: nat)
    requires k < |edges|
    ensures edges[k].1 in Partners(edges, edges[k].0)
    ensures edges[k].0 in Partners(edges, edges[k].1)
  {
    var front := edges[..|edges| - 1];
    if k < |edges| - 1 {
      EdgeListedBothWays(front, k);
      assert front[k] == edges[k];
      PartnersGrow(edges, edges[k].0);
      PartnersGrow(edges, edges[k].1);
    }
  }

  /** The adjacency is symmetric: `b` is listed at `a` exactly as often as
      `a` is listed at `b`. */
  lemma AdjacencySymmetric(edges: seq<Edge>, a: VertexId, b: VertexId)
    requires a in Adjacency(edges) && b in Adjacency(edges)
    ensures multiset(Adjacency(edges)[a])[b] == multiset(Adjacency(edges)[b])[a]
  {
    PartnersSymmetric(edges, a, b);
  }

  /** Every input edge is listed from both of its ends. */
  lemma AdjacencyHoldsEdge(edges: seq<Edge>, k: nat)
    requires k < |edges|
    ensures edges[k].0 in Adjacency(edges) && edges[k].1 in Adjacency(edges)
    ensures edges[k].1 in Adjacency(edges)[edges[k].0] && edges[k].0 in Adjacency(edges)[edges[k].1]
  {
    var adj := Adjacency(edges);
    EdgeListedBothWays(edges, k);
    EndsHoldEdge(edges, k);
    assert edges[k].1 in multiset(adj[edges[k].0]);
    assert edges[k].0 in multiset(adj[edges[k].1]);
  }

  /** A vertex's degree is the number of edge ends at it. */
  lemma AdjacencyDegree(edges: seq<Edge>, v: VertexId)
    requires v in Adjacency(edges)
    ensures |Adjacency(edges)[v]| == multiset(Ends(edges))[v]
  {
    var adj := Adjacency(edges);
    PartnersCountEnds(edges, v);
    assert |multiset(adj[v])| == |adj[v]|;
  }

  lemma {:induction false} EndsHoldEdge(edges: seq<Edge>, k: nat)
    requires k < |edges|
    ensures edges[k].0 in Ends(edges) && edges[k].1 in Ends(edges)
  {
    var front := edges[..|edges| - 1];
    if k < |edges| - 1 {
      EndsHoldEdge(front, k);
      assert front[k] == edges[k];
    }
  }

  // ---------------------------------------------------------------------
  // initialize_used and find_adjacent_index
  // ---------------------------------------------------------------------

  /** The `i`-th neighbour entry of `u` exists. */
  predicate IsSlot(adj: Adj, e: DirEdge) {
    e.0 in adj && e.1 < |adj[e.0]|
  }

  /** The flag of directed edge `e` is set. */
  predicate Marked(used: Used, e: DirEdge) {
    e.0 in used && e.1 < |used[e.0]| && used[e.0][e.1]
  }

  /** One flag per neighbour entry. */
  predicate Matches(adj: Adj, used: Used) {
    used.Keys == adj.Keys && forall u :: u in adj ==> |used[u]| == |adj[u]|
  }

  /** `initialize_used`: one cleared flag per directed edge. */
  function InitializeUsed(adj: Adj): (r: Used)
    ensures Matches(adj, r)
    ensures forall e :: !Marked(r, e)
  {
    map u | u in adj :: seq(|adj[u]|, _ => false)
  }

  /** `find_adjacent_index(u, v)`: the first position of `v` among `u`'s
      neighbours. A vertex without an entry raises `KeyError` (the lookup
      happens outside the `try`); a missing neighbour raises `ValueError`. */
  function FindAdjacentIndex(adj: Adj, u: VertexId, v: VertexId): (r: Result<nat>)
    ensures r == Err(KeyError) <==> u !in adj
    ensures r == Err(ValueError) <==> u in adj && v !in adj[u]
    ensures r.Ok? ==> r.value < |adj[u]| && adj[u][r.value] == v && v !in adj[u][..r.value]
  {
    if u !in adj then Err(KeyError)
    else
      match ListUtil.IndexOf(adj[u], v)
      case None => Err(ValueError)
      case Some(i) => Ok(i)
  }

  // ---------------------------------------------------------------------
  // Signed area and the inner-face test
  // ---------------------------------------------------------------------

  /** `compute_signed_area`: half the shoelace sum; positive for a
      counter-clockwise polygon in a y-up frame. */
  function SignedArea(pts: seq<Vec>): (r: real)
    ensures Abs(r) == Area(pts)
  {
    ShoelaceSum(pts) / 2.0
  }

  /** The tolerance `face_traversal` passes to `is_inner_face`. */
  const Epsilon: real := 0.000000001

  /** `is_inner_face`: the face winds the inner way, by more than the
      tolerance. */
  predicate IsInnerFace(pts: seq<Vec>, epsilon: real) {
    SignedArea(pts) < -epsilon
  }

  /** Walking a face backwards negates its signed area, so of a face and its
      reverse at most one is inner (for a non-negative tolerance), and one
      is whenever the area exceeds the tolerance. */
  lemma ReversedFace(pts: seq<Vec>, epsilon: real)
    ensures SignedArea(Reverse(pts)) == -SignedArea(pts)
    ensures epsilon >= 0.0 ==> !(IsInnerFace(pts, epsilon) && IsInnerFace(Reverse(pts), epsilon))
    ensures Area(pts) > epsilon ==> IsInnerFace(pts, epsilon) || IsInnerFace(Reverse(pts), epsilon)
  {
    ShoelaceReverse(pts);
  }

  /** A face is classified by its shoelace sum alone. */
  lemma ClassifyBySum(pts: seq<Vec>, sum: real)
    requires ShoelaceSum(pts) == sum
    ensures SignedArea(pts) == sum / 2.0
    ensures IsInnerFace(pts, Epsilon) <==> sum / 2.0 < -Epsilon
  {
  }

  /** The unit square walked (0,0), (0,1), (1,1), (1,0) has signed area -1
      and is inner. */
  lemma UnitSquareInner()
    ensures SignedArea([Vec(0.0, 0.0), Vec(0.0, 1.0), Vec(1.0, 1.0), Vec(1.0, 0.0)]) == -1.0
    ensures IsInnerFace([Vec(0.0, 0.0), Vec(0.0, 1.0), Vec(1.0, 1.0), Vec(1.0, 0.0)], Epsilon)
  {
    UnitSquareArea();
    ClassifyBySum([Vec(0.0, 0.0), Vec(0.0, 1.0), Vec(1.0, 1.0), Vec(1.0, 0.0)], -2.0);
  }

  /** Walked the other way it has signed area +1 and is not. */
  lemma UnitSquareOuter()
    ensures SignedArea([Vec(0.0, 0.0), Vec(1.0, 0.0), Vec(1.0, 1.0), Vec(0.0, 1.0)]) == 1.0
    ensures !IsInnerFace([Vec(0.0, 0.0), Vec(1.0, 0.0), Vec(1.0, 1.0), Vec(0.0, 1.0)], Epsilon)
  {
    UnitSquareCounterArea();
    ClassifyBySum([Vec(0.0, 0.0), Vec(1.0, 0.0), Vec(1.0, 1.0), Vec(0.0, 1.0)], 2.0);
  }

  // ---------------------------------------------------------------------
  // trace_face
  // ---------------------------------------------------------------------

  /** The vertices a walk has left from, in order: the `face` list. */
  function Heads(path: seq<DirEdge>): (r: seq<VertexId>)
    ensures |r| == |path|
    ensures forall k :: 0 <= k < |path| ==> r[k] == path[k].0
  {
    seq(|path|, k requires 0 <= k < |path| => path[k].0)
  }

  /** The vertices `trace_face` has not yet visited. */
  function Unvisited(adj: Adj, path: seq<DirEdge>): set<VertexId> {
    adj.Keys - set x | x in Heads(path)
  }

  /** Visiting a new vertex leaves fewer unvisited ones. */
  lemma VisitShrinks(adj: Adj, path: seq<DirEdge>, e: DirEdge)
    requires e.0 in adj && e.0 !in Heads(path)
    ensures |Unvisited(adj, path + [e])| < |Unvisited(adj, path)|
  {
    var high := Unvisited(adj, path);
    assert Heads(path + [e]) == Heads(path) + [e.0];
    assert Unvisited(adj, path + [e]) == high - {e.0};
    assert high == (high - {e.0}) + {e.0};
  }

  /** One step of `trace_face`: the `i`-th entry of `u` leads to `v`; the
      walk goes on with the entry after `u` in `v`'s (cyclic) list. The
      lookups raise as `find_adjacent_index` does. */
  function Next(adj: Adj, e: DirEdge): (r: Result<DirEdge>)
    requires IsSlot(adj, e)
    ensures r == Err(KeyError) <==> adj[e.0][e.1] !in adj
    ensures r == Err(ValueError) <==> adj[e.0][e.1] in adj && e.0 !in adj[adj[e.0][e.1]]
    ensures r.Ok? ==> r.value.0 == adj[e.0][e.1] && IsSlot(adj, r.value)
    ensures r.Ok? ==> adj[r.value.0][(r.value.1 + |adj[r.value.0]| - 1) % |adj[r.value.0]|] == e.0
  {
    var v := adj[e.0][e.1];
    var idx :- FindAdjacentIndex(adj, v, e.0);
    StepBack(idx, |adj[v]|);
    Ok((v, (idx + 1) % |adj[v]|))
  }

  /** Stepping one place forward and one back around a cycle of `n`. */
  lemma StepBack(idx: nat, n: nat)
    requires idx < n
    ensures ((idx + 1) % n + n - 1) % n == idx
  {
    if idx + 1 < n {
      ListUtil.ModUnique(n, idx + 1, 0, idx + 1);
      ListUtil.ModUnique(n, idx + n, 1, idx);
    } else {
      ListUtil.ModUnique(n, idx + 1, 1, 0);
      ListUtil.ModUnique(n, n - 1, 0, idx);
    }
  }

  /** The loop of `trace_face` from directed edge `e` on; `path` holds the
      directed edges walked so far and `start` the first one. Setting the
      flag of a vertex without flags raises `KeyError`, of a missing entry
      `IndexError`; coming back to a visited vertex fails the `assert`. The
      walk stops when the next directed edge is `start`. */
  function Trace(adj: Adj, used: Used, start: DirEdge, e: DirEdge, path: seq<DirEdge>)
    : (r: Result<(seq<DirEdge>, Used)>)
    requires Matches(adj, used)
    ensures r.Ok? ==> Matches(adj, r.value.1)
    decreases |Unvisited(adj, path)|
  {
    var (u, i) := e;
    if u !in used then Err(KeyError)
    else if i >= |used[u]| then Err(IndexError)
    else
      var marked := Mark(used, e);
      if u in Heads(path) then Err(AssertionError)
      else
        var next :- Next(adj, e);
        var walked := path + [e];
        if next == start then Ok((walked, marked))
        else
          VisitShrinks(adj, path, e);
          Trace(adj, marked, start, next, walked)
  }

  /** `used[u][i] = True`. */
  function Mark(used: Used, e: DirEdge): (r: Used)
    requires e.0 in used && e.1 < |used[e.0]|
    ensures r.Keys == used.Keys && forall u :: u in used ==> |r[u]| == |used[u]|
    ensures forall x :: Marked(r, x) <==> Marked(used, x) || x == e
  {
    used[e.0 := used[e.0][e.1 := true]]
  }

  /** One round of the loop, for the proofs: a successful trace sets the
      flag of `e`, and either closes or goes on from the next directed
      edge. */
  lemma TraceStep(adj: Adj, used: Used, start: DirEdge, e: DirEdge, path: seq<DirEdge>)
    requires Matches(adj, used) && Trace(adj, used, start, e, path).Ok?
    ensures IsSlot(adj, e) && e.0 !in Heads(path) && Next(adj, e).Ok?
    ensures e.0 in used && e.1 < |used[e.0]| && Matches(adj, Mark(used, e))
    ensures Next(adj, e).value == start ==> Trace(adj, used, start, e, path) == Ok((path + [e], Mark(used, e)))
    ensures Next(adj, e).value != start ==>
      && |Unvisited(adj, path + [e])| < |Unvisited(adj, path)|
      && Trace(adj, used, start, e, path) == Trace(adj, Mark(used, e), start, Next(adj, e).value, path + [e])
  {
    if Next(adj, e).value != start {
      VisitShrinks(adj, path, e);
    }
  }

  /** `trace_face(u, i, adj, used)`: the directed edges of the face, and
      the flags afterwards. The face's vertex list is their `Heads`. */
  function TraceFace(adj: Adj, used: Used, start: DirEdge): (r: Result<(seq<DirEdge>, Used)>)
    requires Matches(adj, used)
    ensures r.Ok? ==> Matches(adj, r.value.1)
  {
    Trace(adj, used, start, start, [])
  }

  /** From position `from` on, `p` is a walk of `trace_face` steps whose
      last step leads to `start`. */
  predicate WalkFrom(adj: Adj, p: seq<DirEdge>, from: nat, start: DirEdge) {
    && from < |p|
    && (forall k :: from <= k < |p| ==> IsSlot(adj, p[k]))
    && (forall k :: from <= k < |p| - 1 ==> Next(adj, p[k]) == Ok(p[k + 1]))
    && Next(adj, p[|p| - 1]) == Ok(start)
  }

  /** A closed walk: every directed edge is followed by the next one, and
      the last by the first. */
  predicate Cycle(adj: Adj, q: seq<DirEdge>) {
    |q| > 0 && WalkFrom(adj, q, 0, q[0])
  }

  /** What `trace_face` returns extends the walk so far with `e` and the
      steps after it, up to the step back to `start`. */
  lemma {:induction false} TraceWalk(adj: Adj, used: Used, start: DirEdge, e: DirEdge, path: seq<DirEdge>)
    requires Matches(adj, used)
    ensures var r := Trace(adj, used, start, e, path);
      r.Ok? ==> (|path| < |r.value.0| && r.value.0[..|path|] == path && r.value.0[|path|] == e
                 && WalkFrom(adj, r.value.0, |path|, start))
    decreases |Unvisited(adj, path)|
  {
    var r := Trace(adj, used, start, e, path);
    if r.Ok? {
      TraceStep(adj, used, start, e, path);
      var next := Next(adj, e).value;
      var walked := path + [e];
      if next != start {
        TraceWalk(adj, Mark(used, e), start, next, walked);
        WalkExtend(adj, r.value.0, path, e, start);
      }
    }
  }

  /** A walk from `next` on, preceded by a step into `next`, is a walk
      from that step on. */
  lemma WalkExtend(adj: Adj, p: seq<DirEdge>, path: seq<DirEdge>, e: DirEdge, start: DirEdge)
    requires IsSlot(adj, e) && Next(adj, e).Ok?
    requires |path| + 1 < |p| && p[..|path| + 1] == path + [e] && p[|path| + 1] == Next(adj, e).value
    requires WalkFrom(adj, p, |path| + 1, start)
    ensures p[..|path|] == path && p[|path|] == e && WalkFrom(adj, p, |path|, start)
  {
    assert p[..|path|] == p[..|path| + 1][..|path|];
    assert p[|path|] == p[..|path| + 1][|path|];
    forall k | |path| <= k < |p| - 1
      ensures Next(adj, p[k]) == Ok(p[k + 1])
    {
    }
  }

  /** The flags set in `after` are those set in `before` and those of the
      directed edges `q`. */
  ghost predicate MarksExactly(before: Used, after: Used, q: seq<DirEdge>) {
    forall x :: Marked(after, x) <==> Marked(before, x) || x in q
  }

  lemma MarksCompose(a: Used, b: Used, c: Used, p: seq<DirEdge>, i: nat)
    requires i < |p| && MarksExactly(a, b, [p[i]]) && MarksExactly(b, c, p[i + 1..])
    ensures MarksExactly(a, c, p[i..])
  {
    forall x
      ensures Marked(c, x) <==> Marked(a, x) || x in p[i..]
    {
      assert x in p[i..] <==> x == p[i] || x in p[i + 1..] by {
        if x in p[i..] {
          var k :| 0 <= k < |p[i..]| && p[i..][k] == x;
          if k > 0 {
            assert p[i + 1..][k - 1] == x;
          }
        }
        if x in p[i + 1..] {
          var k :| 0 <= k < |p[i + 1..]| && p[i + 1..][k] == x;
          assert p[i..][k + 1] == x;
        }
      }
    }
  }

  /** The flags `trace_face` leaves set are those set before and those of
      the directed edges it walked. */
  lemma {:induction false} TraceMarks(adj: Adj, used: Used, start: DirEdge, e: DirEdge, path: seq<DirEdge>)
    requires Matches(adj, used)
    ensures var r := Trace(adj, used, start, e, path);
      r.Ok? ==> |path| <= |r.value.0| && MarksExactly(used, r.value.1, r.value.0[|path|..])
    decreases |Unvisited(adj, path)|
  {
    var r := Trace(adj, used, start, e, path);
    if r.Ok? {
      TraceStep(adj, used, start, e, path);
      TraceWalk(adj, used, start, e, path);
      var marked := Mark(used, e);
      var next := Next(adj, e).value;
      var p := r.value.0;
      if next != start {
        TraceMarks(adj, marked, start, next, path + [e]);
        MarksCompose(used, marked, r.value.1, p, |path|);
      } else {
        assert p[|path|..] == [e];
      }
    }
  }

  /** The `assert u not in face`: a traced face never visits a vertex
      twice. */
  lemma {:induction false} TraceHeads(adj: Adj, used: Used, start: DirEdge, e: DirEdge, path: seq<DirEdge>)
    requires Matches(adj, used)
    requires ListUtil.Distinct(Heads(path))
    ensures var r := Trace(adj, used, start, e, path);
      r.Ok? ==> ListUtil.Distinct(Heads(r.value.0))
    decreases |Unvisited(adj, path)|
  {
    var r := Trace(adj, used, start, e, path);
    if r.Ok? {
      TraceStep(adj, used, start, e, path);
      var walked := path + [e];
      HeadsAppend(path, e);
      if Next(adj, e).value != start {
        TraceHeads(adj, Mark(used, e), start, Next(adj, e).value, walked);
      }
    }
  }

  lemma HeadsAppend(path: seq<DirEdge>, e: DirEdge)
    requires ListUtil.Distinct(Heads(path)) && e.0 !in Heads(path)
    ensures ListUtil.Distinct(Heads(path + [e]))
  {
    var h := Heads(path + [e]);
    assert h == Heads(path) + [e.0];
    forall i, j | 0 <= i < j < |h|
      ensures h[i] != h[j]
    {
      if j < |path| {
        assert h[i] == Heads(path)[i] && h[j] == Heads(path)[j];
      } else {
        assert h[i] == Heads(path)[i];
      }
    }
  }

  /** The walks `trace_face` takes: a closed walk from the starting
      directed edge, on distinct vertices, marking exactly its own directed
      edges. */
  lemma TraceFaceCycle(adj: Adj, used: Used, start: DirEdge)
    requires Matches(adj, used)
    ensures var r := TraceFace(adj, used, start);
      r.Ok? ==> && Cycle(adj, r.value.0) && r.value.0[0] == start
                && ListUtil.Distinct(Heads(r.value.0))
                && MarksExactly(used, r.value.1, r.value.0)
  {
    TraceWalk(adj, used, start, start, []);
    TraceMarks(adj, used, start, start, []);
    TraceHeads(adj, used, start, start, []);
    var r := TraceFace(adj, used, start);
    if r.Ok? {
      assert r.value.0[0..] == r.value.0;
    }
  }

  // ---------------------------------------------------------------------
  // The step is a bijection on simple graphs
  // ---------------------------------------------------------------------

  /** A simple graph with a symmetric adjacency: no vertex lists a
      neighbour twice, every neighbour has an entry, and lists the vertex
      back. */
  predicate Simple(adj: Adj) {
    forall u :: u in adj ==>
      && ListUtil.Distinct(adj[u])
      && forall k :: 0 <= k < |adj[u]| ==> adj[u][k] in adj && u in adj[adj[u][k]]
  }

  /** In a list without repeats the first occurrence is the only one. */
  lemma IndexOfDistinct(s: seq<VertexId>, k: nat)
    requires ListUtil.Distinct(s) && k < |s|
    ensures ListUtil.IndexOf(s, s[k]) == Some(k)
  {
  }

  /** On a simple graph the step never raises. */
  lemma NextSimple(adj: Adj, e: DirEdge)
    requires Simple(adj) && IsSlot(adj, e)
    ensures Next(adj, e).Ok?
  {
    var (u, i) := e;
    assert ListUtil.Distinct(adj[u]) && forall k :: 0 <= k < |adj[u]| ==> adj[u][k] in adj && u in adj[adj[u][k]];
    assert adj[u][i] in adj && u in adj[adj[u][i]];
  }

  /** The step backwards on a simple graph: from the `j`-th entry of `v`,
      the vertex `u` listed just before it, and the entry of `v` in `u`'s
      list. */
  function Pred(adj: Adj, e: DirEdge): (r: DirEdge)
    requires Simple(adj) && IsSlot(adj, e)
    ensures IsSlot(adj, r) && adj[r.0][r.1] == e.0
  {
    var (v, j) := e;
    var n := |adj[v]|;
    var u := adj[v][(j + n - 1) % n];
    assert u in adj && v in adj[u];
    var i := ListUtil.IndexOf(adj[u], v).value;
    (u, i)
  }

  /** One place back and one forward around a cycle of `n`. */
  lemma StepForward(j: nat, n: nat)
    requires j < n
    ensures ((j + n - 1) % n + 1) % n == j
  {
    if j == 0 {
      assert (n - 1) % n == n - 1;
    } else {
      assert (j + n - 1) % n == j - 1;
    }
  }

  /** Stepping back, then forward, returns to the directed edge. */
  lemma NextPred(adj: Adj, e: DirEdge)
    requires Simple(adj) && IsSlot(adj, e)
    ensures Next(adj, Pred(adj, e)) == Ok(e)
  {
    var (v, j) := e;
    var n := |adj[v]|;
    var back := (j + n - 1) % n;
    assert adj[v][back] == Pred(adj, e).0;
    IndexOfDistinct(adj[v], back);
    StepForward(j, n);
  }

  /** Stepping forward, then back, returns to the directed edge. */
  lemma PredNext(adj: Adj, e: DirEdge)
    requires Simple(adj) && IsSlot(adj, e)
    ensures Next(adj, e).Ok? && Pred(adj, Next(adj, e).value) == e
  {
    NextSimple(adj, e);
    var (u, i) := e;
    var v := adj[u][i];
    IndexOfDistinct(adj[u], i);
  }

  /** So the step is one-to-one and onto the directed edges of a simple
      graph. */
  lemma NextBijective(adj: Adj, x: DirEdge, y: DirEdge)
    requires Simple(adj) && IsSlot(adj, x) && IsSlot(adj, y)
    ensures Next(adj, x).Ok? && Next(adj, y).Ok?
    ensures Next(adj, x) == Next(adj, y) ==> x == y
    ensures IsSlot(adj, Pred(adj, y)) && Next(adj, Pred(adj, y)) == Ok(y)
  {
    PredNext(adj, x);
    PredNext(adj, y);
    NextPred(adj, y);
  }

  /** With a parallel edge the step is not one-to-one: both entries of 1
      lead to the second entry of 2, because the lookup finds the first
      copy of 1 in 2's list. */
  lemma ParallelEdgesCollide()
    ensures var adj := map[1 := [2, 2], 2 := [1, 1]];
      Next(adj, (1, 0)) == Ok((2, 1)) && Next(adj, (1, 1)) == Ok((2, 1)) && !Simple(adj)
  {
    var adj := map[1 := [2, 2], 2 := [1, 1]];
    assert ListUtil.IndexOf(adj[2], 1) == Some(0);
    assert adj[1][0] == adj[1][1];
  }

  /** On a simple graph `trace_face` can only fail its `assert`, when the
      walk comes back to a vertex before closing. */
  lemma {:induction false} TraceSimple(adj: Adj, used: Used, start: DirEdge, e: DirEdge, path: seq<DirEdge>)
    requires Matches(adj, used) && Simple(adj) && IsSlot(adj, e)
    ensures var r := Trace(adj, used, start, e, path);
      r.Ok? || r == Err(AssertionError)
    decreases |Unvisited(adj, path)|
  {
    NextSimple(adj, e);
    if e.0 !in Heads(path) {
      var next := Next(adj, e).value;
      if next != start {
        VisitShrinks(adj, path, e);
        TraceSimple(adj, Mark(used, e), start, next, path + [e]);
      }
    }
  }

  // ---------------------------------------------------------------------
  // face_traversal: every directed edge in exactly one face
  // ---------------------------------------------------------------------

  /** The directed edges in the order `face_traversal` visits them: the
      entries of each vertex of `order`, in list order. */
  function Slots(adj: Adj, order: seq<VertexId>): (r: seq<DirEdge>)
    requires forall k :: 0 <= k < |order| ==> order[k] in adj
    ensures forall k :: 0 <= k < |r| ==> IsSlot(adj, r[k])
    ensures forall x :: IsSlot(adj, x) && x.0 in order ==> x in r
  {
    if |order| == 0 then []
    else
      var u := order[0];
      var own := seq(|adj[u]|, i requires 0 <= i < |adj[u]| => (u, i));
      var r := own + Slots(adj, order[1..]);
      assert forall x: DirEdge :: IsSlot(adj, x) && x.0 == u ==> r[x.1] == x;
      assert forall v :: v in order && v != u ==> v in order[1..];
      r
  }

  /** The directed edges of all faces, face after face. */
  function Flatten(faces: seq<seq<DirEdge>>): seq<DirEdge> {
    if |faces| == 0 then []
    else Flatten(faces[..|faces| - 1]) + faces[|faces| - 1]
  }

  /** The nested loop of `face_traversal`, without the inner-face test:
      the directed edges of every traced face, in tracing order, and the
      flags afterwards. Flagged directed edges are skipped. */
  function Traverse(adj: Adj, used: Used, slots: seq<DirEdge>, faces: seq<seq<DirEdge>>)
    : (r: Result<(seq<seq<DirEdge>>, Used)>)
    requires Matches(adj, used)
    requires forall k :: 0 <= k < |slots| ==> IsSlot(adj, slots[k])
    decreases |slots|
  {
    if |slots| == 0 then Ok((faces, used))
    else
      var e := slots[0];
      if Marked(used, e) then Traverse(adj, used, slots[1..], faces)
      else
        var traced :- TraceFace(adj, used, e);
        Traverse(adj, traced.1, slots[1..], faces + [traced.0])
  }

  /** The set of flagged directed edges is a union of whole faces: an
      edge is flagged exactly when the edge after it is. */
  ghost predicate Closed(adj: Adj, used: Used) {
    forall x :: IsSlot(adj, x) && Next(adj, x).Ok? ==> (Marked(used, x) <==> Marked(used, Next(adj, x).value))
  }

  /** What the traversal keeps true: the faces so far are closed walks on
      distinct vertices, no directed edge is in two of them or was flagged
      at the outset (`used0`), and the flags are the outset's plus theirs. */
  ghost predicate Partial(adj: Adj, used0: Used, used: Used, faces: seq<seq<DirEdge>>) {
    && Closed(adj, used)
    && MarksExactly(used0, used, Flatten(faces))
    && ListUtil.Distinct(Flatten(faces))
    && (forall k :: 0 <= k < |Flatten(faces)| ==> !Marked(used0, Flatten(faces)[k]))
    && (forall j :: 0 <= j < |faces| ==> Cycle(adj, faces[j]) && ListUtil.Distinct(Heads(faces[j])))
  }

  /** Once the walk leaves an unflagged edge of a closed flag set, it
      meets no flagged one. */
  lemma CycleAvoids(adj: Adj, used: Used, q: seq<DirEdge>, k: nat)
    requires Simple(adj) && Cycle(adj, q) && Closed(adj, used) && !Marked(used, q[0])
    requires k < |q|
    ensures !Marked(used, q[k])
  {
    if k > 0 {
      CycleAvoids(adj, used, q, k - 1);
      assert Next(adj, q[k - 1]) == Ok(q[k]);
    }
  }

  /** A face is closed under the step in both directions. */
  lemma CycleStep(adj: Adj, q: seq<DirEdge>, x: DirEdge)
    requires Simple(adj) && Cycle(adj, q) && IsSlot(adj, x)
    ensures Next(adj, x).Ok?
    ensures x in q <==> Next(adj, x).value in q
  {
    NextSimple(adj, x);
    var y := Next(adj, x).value;
    if x in q {
      var k :| 0 <= k < |q| && q[k] == x;
      if k < |q| - 1 {
        assert y == q[k + 1];
      } else {
        assert y == q[0];
      }
    }
    if y in q {
      var k :| 0 <= k < |q| && q[k] == y;
      var k' := if k == 0 then |q| - 1 else k - 1;
      assert Next(adj, q[k']) == Ok(y);
      NextBijective(adj, x, q[k']);
    }
  }

  /** Flagging a whole face keeps the flag set closed. */
  lemma FaceKeepsClosed(adj: Adj, used: Used, used': Used, q: seq<DirEdge>)
    requires Simple(adj) && Cycle(adj, q) && Closed(adj, used) && MarksExactly(used, used', q)
    ensures Closed(adj, used')
  {
    forall x | IsSlot(adj, x) && Next(adj, x).Ok?
      ensures Marked(used', x) <==> Marked(used', Next(adj, x).value)
    {
      CycleStep(adj, q, x);
    }
  }

  /** Distinct vertices make distinct directed edges. */
  lemma DistinctHeads(q: seq<DirEdge>)
    requires ListUtil.Distinct(Heads(q))
    ensures ListUtil.Distinct(q)
  {
    forall i, j | 0 <= i < j < |q|
      ensures q[i] != q[j]
    {
      assert Heads(q)[i] != Heads(q)[j];
    }
  }

  lemma DistinctConcat(a: seq<DirEdge>, b: seq<DirEdge>)
    requires ListUtil.Distinct(a) && ListUtil.Distinct(b)
    requires forall i, j :: 0 <= i < |a| && 0 <= j < |b| ==> a[i] != b[j]
    ensures ListUtil.Distinct(a + b)
  {
    forall i, j | 0 <= i < j < |a + b|
      ensures (a + b)[i] != (a + b)[j]
    {
      if j < |a| {
      } else if i >= |a| {
        assert (a + b)[i] == b[i - |a|] && (a + b)[j] == b[j - |a|];
      } else {
        assert (a + b)[j] == b[j - |a|];
      }
    }
  }

  lemma FlattenAppend(faces: seq<seq<DirEdge>>, q: seq<DirEdge>)
    ensures Flatten(faces + [q]) == Flatten(faces) + q
  {
    assert (faces + [q])[..|faces|] == faces;
  }

  /** A face of unflagged directed edges on distinct vertices extends the
      traversal's list of directed edges without repeats. */
  lemma FreshFace(adj: Adj, used0: Used, used: Used, used': Used, faces: seq<seq<DirEdge>>, q: seq<DirEdge>)
    requires Partial(adj, used0, used, faces)
    requires MarksExactly(used, used', q) && ListUtil.Distinct(Heads(q))
    requires forall k :: 0 <= k < |q| ==> !Marked(used, q[k])
    ensures var all := Flatten(faces + [q]);
      && MarksExactly(used0, used', all)
      && ListUtil.Distinct(all)
      && forall k :: 0 <= k < |all| ==> !Marked(used0, all[k])
  {
    var flat := Flatten(faces);
    DistinctHeads(q);
    forall i, j | 0 <= i < |flat| && 0 <= j < |q|
      ensures flat[i] != q[j]
    {
      assert Marked(used, flat[i]);
    }
    DistinctConcat(flat, q);
    FlattenAppend(faces, q);
    var all := flat + q;
    forall k | 0 <= k < |all|
      ensures !Marked(used0, all[k])
    {
      if k >= |flat| {
        assert all[k] == q[k - |flat|];
      }
    }
  }

  /** Tracing a face from an unflagged directed edge keeps the traversal's
      invariant. */
  lemma TraceKeepsPartial(adj: Adj, used0: Used, used: Used, faces: seq<seq<DirEdge>>, s: DirEdge)
    requires Simple(adj) && Matches(adj, used) && IsSlot(adj, s) && !Marked(used, s)
    requires Partial(adj, used0, used, faces)
    requires TraceFace(adj, used, s).Ok?
    ensures var t := TraceFace(adj, used, s).value;
      && Partial(adj, used0, t.1, faces + [t.0]) && Marked(t.1, s)
      && forall x :: Marked(used, x) ==> Marked(t.1, x)
  {
    var t := TraceFace(adj, used, s).value;
    var q := t.0;
    TraceFaceCycle(adj, used, s);
    forall k | 0 <= k < |q|
      ensures !Marked(used, q[k])
    {
      CycleAvoids(adj, used, q, k);
    }
    FaceKeepsClosed(adj, used, t.1, q);
    FreshFace(adj, used0, used, t.1, faces, q);
    var faces' := faces + [q];
    forall j | 0 <= j < |faces'|
      ensures Cycle(adj, faces'[j]) && ListUtil.Distinct(Heads(faces'[j]))
    {
      if j < |faces| {
        assert faces'[j] == faces[j];
      }
    }
    assert q[0] == s;
  }

  /** One round of the traversal, for the proofs. */
  lemma TraverseStep(adj: Adj, used: Used, slots: seq<DirEdge>, faces: seq<seq<DirEdge>>)
    requires Matches(adj, used) && |slots| > 0
    requires forall k :: 0 <= k < |slots| ==> IsSlot(adj, slots[k])
    requires Traverse(adj, used, slots, faces).Ok?
    ensures forall k :: 0 <= k < |slots| - 1 ==> IsSlot(adj, slots[1..][k])
    ensures Marked(used, slots[0]) ==> Traverse(adj, used, slots, faces) == Traverse(adj, used, slots[1..], faces)
    ensures !Marked(used, slots[0]) ==>
      && TraceFace(adj, used, slots[0]).Ok?
      && var t := TraceFace(adj, used, slots[0]).value;
         Traverse(adj, used, slots, faces) == Traverse(adj, t.1, slots[1..], faces + [t.0])
  {
  }

  /** A visited directed edge that was flagged before the rest of the
      traversal stays flagged, and so does the rest. */
  lemma RestFlagged(used: Used, used': Used, slots: seq<DirEdge>)
    requires |slots| > 0 && Marked(used, slots[0])
    requires forall x :: Marked(used, x) ==> Marked(used', x)
    requires forall k :: 0 <= k < |slots[1..]| ==> Marked(used', slots[1..][k])
    ensures forall k :: 0 <= k < |slots| ==> Marked(used', slots[k])
  {
    forall k | 0 <= k < |slots|
      ensures Marked(used', slots[k])
    {
      if k > 0 {
        assert slots[k] == slots[1..][k - 1];
      }
    }
  }

  /** The traversal from a state satisfying the invariant: it keeps the
      invariant, only adds flags, and leaves every directed edge it visited
      flagged. */
  lemma {:induction false} TraversePartial(adj: Adj, used0: Used, used: Used, slots: seq<DirEdge>, faces: seq<seq<DirEdge>>)
    requires Simple(adj) && Matches(adj, used)
    requires forall k :: 0 <= k < |slots| ==> IsSlot(adj, slots[k])
    requires Partial(adj, used0, used, faces)
    ensures var r := Traverse(adj, used, slots, faces);
      r.Ok? ==> && Partial(adj, used0, r.value.1, r.value.0)
                && (forall x :: Marked(used, x) ==> Marked(r.value.1, x))
                && (forall k :: 0 <= k < |slots| ==> Marked(r.value.1, slots[k]))
    decreases |slots|
  {
    var r := Traverse(adj, used, slots, faces);
    if r.Ok? && |slots| > 0 {
      var e := slots[0];
      TraverseStep(adj, used, slots, faces);
      if Marked(used, e) {
        TraversePartial(adj, used0, used, slots[1..], faces);
        RestFlagged(used, r.value.1, slots);
      } else {
        var t := TraceFace(adj, used, e).value;
        TraceKeepsPartial(adj, used0, used, faces, e);
        TraversePartial(adj, used0, t.1, slots[1..], faces + [t.0]);
        RestFlagged(t.1, r.value.1, slots);
      }
    }
  }

  /** On a simple graph the traversal can only fail the `assert` of
      `trace_face`. */
  lemma {:induction false} TraverseSimple(adj: Adj, used: Used, slots: seq<DirEdge>, faces: seq<seq<DirEdge>>)
    requires Simple(adj) && Matches(adj, used)
    requires forall k :: 0 <= k < |slots| ==> IsSlot(adj, slots[k])
    ensures var r := Traverse(adj, used, slots, faces);
      r.Ok? || r == Err(AssertionError)
    decreases |slots|
  {
    if |slots| > 0 {
      var e := slots[0];
      assert forall k :: 0 <= k < |slots| - 1 ==> IsSlot(adj, slots[1..][k]);
      if Marked(used, e) {
        TraverseSimple(adj, used, slots[1..], faces);
      } else {
        TraceSimple(adj, used, e, e, []);
        var t := TraceFace(adj, used, e);
        if t.Ok? {
          TraverseSimple(adj, t.value.1, slots[1..], faces + [t.value.0]);
        }
      }
    }
  }

  lemma {:induction false} FlattenHolds(faces: seq<seq<DirEdge>>, j: nat, x: DirEdge)
    requires j < |faces| && x in faces[j]
    ensures x in Flatten(faces)
  {
    if j < |faces| - 1 {
      FlattenHolds(faces[..|faces| - 1], j, x);
    }
  }

  lemma {:induction false} FlattenFaces(faces: seq<seq<DirEdge>>, x: DirEdge) returns (j: nat)
    requires x in Flatten(faces)
    ensures j < |faces| && x in faces[j]
  {
    var front := faces[..|faces| - 1];
    if x in faces[|faces| - 1] {
      j := |faces| - 1;
    } else {
      j := FlattenFaces(front, x);
    }
  }

  lemma DistinctSplit(p: seq<DirEdge>, q: seq<DirEdge>, x: DirEdge)
    requires ListUtil.Distinct(p + q) && x in p
    ensures x !in q && ListUtil.Distinct(p)
  {
    var i :| 0 <= i < |p| && p[i] == x;
    forall j | 0 <= j < |q|
      ensures q[j] != x
    {
      assert (p + q)[|p| + j] == q[j] && (p + q)[i] == x;
    }
    forall a, b | 0 <= a < b < |p|
      ensures p[a] != p[b]
    {
      assert (p + q)[a] == p[a] && (p + q)[b] == p[b];
    }
  }

  /** With no directed edge repeated overall, no two faces share one. */
  lemma {:induction false} FacesDisjoint(faces: seq<seq<DirEdge>>, a: nat, b: nat, x: DirEdge)
    requires ListUtil.Distinct(Flatten(faces)) && a < b < |faces| && x in faces[a]
    ensures x !in faces[b]
  {
    var front := faces[..|faces| - 1];
    assert front[a] == faces[a];
    FlattenHolds(front, a, x);
    DistinctSplit(Flatten(front), faces[|faces| - 1], x);
    if b < |faces| - 1 {
      assert front[b] == faces[b];
      FacesDisjoint(front, a, b, x);
    }
  }

  /** Once every directed edge is flagged, starting from none, the
      invariant says the faces partition the directed edges. */
  lemma FacesPartition(adj: Adj, used0: Used, used: Used, faces: seq<seq<DirEdge>>)
    requires Partial(adj, used0, used, faces)
    requires forall x :: !Marked(used0, x)
    requires forall x :: IsSlot(adj, x) ==> Marked(used, x)
    ensures forall x :: IsSlot(adj, x) ==> exists j :: 0 <= j < |faces| && x in faces[j]
    ensures forall j, x :: 0 <= j < |faces| && x in faces[j] ==> IsSlot(adj, x)
    ensures forall a, b, x :: 0 <= a < b < |faces| && x in faces[a] ==> x !in faces[b]
  {
    forall x | IsSlot(adj, x)
      ensures exists j :: 0 <= j < |faces| && x in faces[j]
    {
      var j := FlattenFaces(faces, x);
    }
    forall j, x | 0 <= j < |faces| && x in faces[j]
      ensures IsSlot(adj, x)
    {
      var k :| 0 <= k < |faces[j]| && faces[j][k] == x;
      assert Cycle(adj, faces[j]);
    }
    forall a, b, x | 0 <= a < b < |faces| && x in faces[a]
      ensures x !in faces[b]
    {
      FacesDisjoint(faces, a, b, x);
    }
  }

  /** `face_traversal`'s loop on a simple graph, over the directed edges of
      every vertex: it fails only on the `assert`, and otherwise every
      directed edge lies in exactly one traced face, each face a closed
      walk of steps on distinct vertices. */
  lemma TraversalPartition(adj: Adj, order: seq<VertexId>)
    requires Simple(adj)
    requires forall k :: 0 <= k < |order| ==> order[k] in adj
    requires forall u :: u in adj ==> u in order
    ensures var r := Traverse(adj, InitializeUsed(adj), Slots(adj, order), []);
      && (r.Ok? || r == Err(AssertionError))
      && (r.Ok? ==>
            var faces := r.value.0;
            && (forall x :: IsSlot(adj, x) ==> exists j :: 0 <= j < |faces| && x in faces[j])
            && (forall j, x :: 0 <= j < |faces| && x in faces[j] ==> IsSlot(adj, x))
            && (forall a, b, x :: 0 <= a < b < |faces| && x in faces[a] ==> x !in faces[b])
            && (forall j :: 0 <= j < |faces| ==> Cycle(adj, faces[j]) && ListUtil.Distinct(Heads(faces[j]))))
  {
    var used0 := InitializeUsed(adj);
    var slots := Slots(adj, order);
    TraverseSimple(adj, used0, slots, []);
    var r := Traverse(adj, used0, slots, []);
    if r.Ok? {
      assert Partial(adj, used0, used0, []);
      TraversePartial(adj, used0, used0, slots, []);
      forall x | IsSlot(adj, x)
        ensures Marked(r.value.1, x)
      {
        assert x in slots;
      }
      FacesPartition(adj, used0, r.value.1, r.value.0);
    }
  }

  // ---------------------------------------------------------------------
  // Inner faces, face_traversal and get_faces_of_planar_graph
  // ---------------------------------------------------------------------

  /** `[points[vid] for vid in face_vertices]`, as positions. */
  function Coords(co: VertexId -> Vec, vs: seq<VertexId>): (r: seq<Vec>)
    ensures |r| == |vs| && forall k :: 0 <= k < |vs| ==> r[k] == co(vs[k])
  {
    seq(|vs|, k requires 0 <= k < |vs| => co(vs[k]))
  }

  /** The vertex lists of the traced faces that `is_inner_face` keeps, in
      tracing order. */
  function InnerFaces(co: VertexId -> Vec, traced: seq<seq<DirEdge>>): (r: seq<seq<VertexId>>)
    ensures |r| <= |traced|
    ensures forall f :: f in r <==>
      exists j :: 0 <= j < |traced| && f == Heads(traced[j]) && IsInnerFace(Coords(co, f), Epsilon)
  {
    if |traced| == 0 then []
    else
      var front := traced[..|traced| - 1];
      var f := Heads(traced[|traced| - 1]);
      var rest := InnerFaces(co, front);
      assert forall j :: 0 <= j < |front| ==> front[j] == traced[j];
      if IsInnerFace(Coords(co, f), Epsilon) then rest + [f] else rest
  }

  /** `f` is the vertex list of a closed walk on distinct vertices. */
  ghost predicate FaceOf(adj: Adj, f: seq<VertexId>) {
    ListUtil.Distinct(f) && exists q :: Cycle(adj, q) && Heads(q) == f
  }

  /** On a simple graph, what the traversal keeps are faces. */
  lemma TracedFaces(adj: Adj, order: seq<VertexId>, co: VertexId -> Vec)
    requires Simple(adj)
    requires forall k :: 0 <= k < |order| ==> order[k] in adj
    requires forall u :: u in adj ==> u in order
    ensures var t := Traverse(adj, InitializeUsed(adj), Slots(adj, order), []);
      && (t.Ok? || t == Err(AssertionError))
      && (t.Ok? ==> forall f :: f in InnerFaces(co, t.value.0) ==> FaceOf(adj, f))
  {
    TraversalPartition(adj, order);
    var t := Traverse(adj, InitializeUsed(adj), Slots(adj, order), []);
    if t.Ok? {
      forall f | f in InnerFaces(co, t.value.0)
        ensures FaceOf(adj, f)
      {
        var j :| 0 <= j < |t.value.0| && f == Heads(t.value.0[j]) && IsInnerFace(Coords(co, f), Epsilon);
        assert Cycle(adj, t.value.0[j]);
      }
    }
  }

  /** `face_traversal(points, adj)` on the angularly sorted adjacency, with
      vertices visited in the key order `order`: the inner faces. */
  function FaceTraversal(adj: Adj, order: seq<VertexId>, co: VertexId -> Vec): (r: Result<seq<seq<VertexId>>>)
    requires forall k :: 0 <= k < |order| ==> order[k] in adj
    ensures r.Ok? ==> forall f :: f in r.value ==> IsInnerFace(Coords(co, f), Epsilon)
    ensures Simple(adj) && (forall u :: u in adj ==> u in order) ==>
      && (r.Ok? || r == Err(AssertionError))
      && (r.Ok? ==> forall f :: f in r.value ==> FaceOf(adj, f))
  {
    assert Simple(adj) && (forall u :: u in adj ==> u in order) ==>
      var t := Traverse(adj, InitializeUsed(adj), Slots(adj, order), []);
      && (t.Ok? || t == Err(AssertionError))
      && (t.Ok? ==> forall f :: f in InnerFaces(co, t.value.0) ==> FaceOf(adj, f))
    by {
      if Simple(adj) && (forall u :: u in adj ==> u in order) {
        TracedFaces(adj, order, co);
      }
    }
    var t :- Traverse(adj, InitializeUsed(adj), Slots(adj, order), []);
    Ok(InnerFaces(co, t.0))
  }

  /** The two ends of `e` are `a` and `b`, in either order. */
  predicate Joins(e: Edge, a: VertexId, b: VertexId) {
    (e.0 == a && e.1 == b) || (e.0 == b && e.1 == a)
  }

  /** An edge list of a simple graph: no loops, no edge listed twice in
      either direction. */
  predicate SimpleEdges(edges: seq<Edge>) {
    && (forall k :: 0 <= k < |edges| ==> edges[k].0 != edges[k].1)
    && (forall j, k :: 0 <= j < k < |edges| ==> !Joins(edges[j], edges[k].0, edges[k].1))
  }

  /** A neighbour entry comes from an edge. */
  lemma {:induction false} PartnersJoin(edges: seq<Edge>, v: VertexId, w: VertexId) returns (j: nat)
    requires w in Partners(edges, v)
    ensures j < |edges| && Joins(edges[j], v, w)
  {
    var front := edges[..|edges| - 1];
    var e := edges[|edges| - 1];
    if w in Contribution(e, v) {
      j := |edges| - 1;
    } else {
      j := PartnersJoin(front, v, w);
      assert front[j] == edges[j];
    }
  }

  /** In a simple graph a neighbour is listed once. */
  lemma {:induction false} PartnersOnce(edges: seq<Edge>, v: VertexId, w: VertexId)
    requires SimpleEdges(edges)
    ensures Partners(edges, v)[w] <= 1
  {
    if |edges| > 0 {
      var front := edges[..|edges| - 1];
      var e := edges[|edges| - 1];
      assert SimpleEdges(front) by {
        assert forall k :: 0 <= k < |front| ==> front[k] == edges[k];
      }
      PartnersOnce(front, v, w);
      if Partners(front, v)[w] > 0 && w in Contribution(e, v) {
        var j := PartnersJoin(front, v, w);
        assert front[j] == edges[j] && Joins(edges[j], e.0, e.1);
        assert false;
      }
    }
  }

  /** A list is without repeats exactly when nothing occurs in it twice. */
  lemma {:induction false} DistinctCounts(s: seq<VertexId>)
    ensures ListUtil.Distinct(s) <==> forall x :: multiset(s)[x] <= 1
  {
    if |s| > 0 {
      var t := s[1..];
      DistinctCounts(t);
      assert s == [s[0]] + t;
      assert multiset(s) == multiset{s[0]} + multiset(t);
      assert (forall x :: multiset(s)[x] <= 1) <==> s[0] !in t && forall x :: multiset(t)[x] <= 1 by {
        if forall x :: multiset(s)[x] <= 1 {
          assert multiset(s)[s[0]] == multiset(t)[s[0]] + 1;
          forall x
            ensures multiset(t)[x] <= 1
          {
            assert multiset(t)[x] <= multiset(s)[x];
          }
        }
        if s[0] !in t && forall x :: multiset(t)[x] <= 1 {
          forall x
            ensures multiset(s)[x] <= 1
          {
            if x == s[0] {
              assert multiset(t)[x] == 0;
            }
          }
        }
      }
      assert ListUtil.Distinct(s) <==> s[0] !in t && ListUtil.Distinct(t) by {
        if ListUtil.Distinct(s) {
          forall k | 0 <= k < |t|
            ensures t[k] != s[0]
          {
            assert t[k] == s[k + 1];
          }
          forall a, b | 0 <= a < b < |t|
            ensures t[a] != t[b]
          {
            assert t[a] == s[a + 1] && t[b] == s[b + 1];
          }
        }
        if s[0] !in t && ListUtil.Distinct(t) {
          forall a, b | 0 <= a < b < |s|
            ensures s[a] != s[b]
          {
            assert s[b] == t[b - 1];
            if a > 0 {
              assert s[a] == t[a - 1];
            }
          }
        }
      }
    }
  }

  /** The adjacency of a simple graph's edge list is simple. */
  lemma AdjacencySimple(edges: seq<Edge>)
    requires SimpleEdges(edges)
    ensures Simple(Adjacency(edges))
  {
    var adj := Adjacency(edges);
    forall u | u in adj
      ensures ListUtil.Distinct(adj[u])
      ensures forall k :: 0 <= k < |adj[u]| ==> adj[u][k] in adj && u in adj[adj[u][k]]
    {
      forall x
        ensures multiset(adj[u])[x] <= 1
      {
        PartnersOnce(edges, u, x);
      }
      DistinctCounts(adj[u]);
      forall k | 0 <= k < |adj[u]|
        ensures adj[u][k] in adj && u in adj[adj[u][k]]
      {
        var w := adj[u][k];
        assert w in multiset(adj[u]);
        var j := PartnersJoin(edges, u, w);
        EndsHoldEdge(edges, j);
        PartnersSymmetric(edges, u, w);
        assert u in multiset(adj[w]);
      }
    }
  }

  /** The adjacency with every list put in angular order by `sort`. */
  function SortAll(adj: Adj, sort: (VertexId, seq<VertexId>) -> seq<VertexId>): (r: Adj)
    requires forall v, s :: multiset(sort(v, s)) == multiset(s)
    ensures r.Keys == adj.Keys
    ensures forall v :: v in r ==> multiset(r[v]) == multiset(adj[v])
  {
    map v | v in adj :: sort(v, adj[v])
  }

  /** Reordering the lists keeps a graph simple. */
  lemma SortKeepsSimple(adj: Adj, sort: (VertexId, seq<VertexId>) -> seq<VertexId>)
    requires forall v, s :: multiset(sort(v, s)) == multiset(s)
    requires Simple(adj)
    ensures Simple(SortAll(adj, sort))
  {
    var sorted := SortAll(adj, sort);
    forall u | u in sorted
      ensures ListUtil.Distinct(sorted[u])
      ensures forall k :: 0 <= k < |sorted[u]| ==> sorted[u][k] in sorted && u in sorted[sorted[u][k]]
    {
      DistinctCounts(adj[u]);
      DistinctCounts(sorted[u]);
      forall k | 0 <= k < |sorted[u]|
        ensures sorted[u][k] in sorted && u in sorted[sorted[u][k]]
      {
        var w := sorted[u][k];
        assert w in multiset(sorted[u]);
        assert w in adj[u];
        var k' :| 0 <= k' < |adj[u]| && adj[u][k'] == w;
        assert u in multiset(adj[w]);
      }
    }
  }

  /** `get_faces_of_planar_graph(edges)`: two edges must be one edge and
      its reverse, and give that single face; otherwise the adjacency is
      built, sorted by `sort` (the angular order) and traced. */
  function GetFaces(edges: seq<Edge>, sort: (VertexId, seq<VertexId>) -> seq<VertexId>, co: VertexId -> Vec)
    : (r: Result<seq<seq<VertexId>>>)
    requires forall v, s :: multiset(sort(v, s)) == multiset(s)
    ensures |edges| == 2 ==>
      if edges[1] == (edges[0].1, edges[0].0) then r == Ok([[edges[0].0, edges[0].1]]) else r == Err(AssertionError)
    ensures |edges| != 2 && r.Ok? ==> forall f :: f in r.value ==> IsInnerFace(Coords(co, f), Epsilon)
    ensures |edges| != 2 && SimpleEdges(edges) ==>
      && (r.Ok? || r == Err(AssertionError))
      && (r.Ok? ==> forall f :: f in r.value ==> FaceOf(SortAll(Adjacency(edges), sort), f))
  {
    if |edges| == 2 then
      var (a0, b0) := edges[0];
      var (b1, a1) := edges[1];
      if a0 != a1 || b0 != b1 then Err(AssertionError) else Ok([[a0, b0]])
    else
      var sorted := SortAll(Adjacency(edges), sort);
      var order := Vertices(edges);
      SortedAdjacency(edges, sort);
      FaceTraversal(sorted, order, co)
  }

  /** The traced adjacency has a key for each vertex of the `points` order,
      and is simple when the edge list is. */
  lemma SortedAdjacency(edges: seq<Edge>, sort: (VertexId, seq<VertexId>) -> seq<VertexId>)
    requires forall v, s :: multiset(sort(v, s)) == multiset(s)
    ensures var sorted := SortAll(Adjacency(edges), sort);
      && (forall u :: u in sorted <==> u in Vertices(edges))
      && (SimpleEdges(edges) ==> Simple(sorted))
  {
    if SimpleEdges(edges) {
      AdjacencySimple(edges);
      SortKeepsSimple(Adjacency(edges), sort);
    }
  }
}

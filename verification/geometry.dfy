/** Exact plane geometry used by the engine: vectors, the shoelace sum and
    its orientation facts. Coordinates are `real`, so every identity below is
    exact; the engine itself computes them in floating point. */
module Geometry {

  import ListUtil

  datatype Vec = Vec(x: real, y: real)

  const Zero: Vec := Vec(0.0, 0.0)

  function Add(a: Vec, b: Vec): Vec {
    Vec(a.x + b.x, a.y + b.y)
  }

  function Sub(a: Vec, b: Vec): Vec {
    Vec(a.x - b.x, a.y - b.y)
  }

  function Scale(a: Vec, m: real): Vec {
    Vec(a.x * m, a.y * m)
  }

  function Dot(a: Vec, b: Vec): real {
    a.x * b.x + a.y * b.y
  }

  /** The shoelace term `x1 * y2 - x2 * y1`. */
  function Cross(a: Vec, b: Vec): real {
    a.x * b.y - b.x * a.y
  }

  function LengthSquared(a: Vec): (r: real)
    ensures r >= 0.0
  {
    assert a.x * a.x >= 0.0 && a.y * a.y >= 0.0;
    Dot(a, a)
  }

  /** `start.lerp(end, t)`: the point a fraction `t` of the way from `a` to `b`. */
  function Lerp(a: Vec, b: Vec, t: real): (r: Vec)
    ensures t == 0.0 ==> r == a
    ensures t == 1.0 ==> r == b
    ensures Sub(r, a) == Scale(Sub(b, a), t)
  {
    Add(a, Scale(Sub(b, a), t))
  }

  /** The average of two vectors, as `(a + b) / 2`. */
  function Midpoint(a: Vec, b: Vec): (r: Vec)
    ensures Sub(r, a) == Sub(b, r)
  {
    Vec((a.x + b.x) / 2.0, (a.y + b.y) / 2.0)
  }

  /** The midpoint is the point halfway along the segment. */
  lemma MidpointIsHalfway(a: Vec, b: Vec)
    ensures Midpoint(a, b) == Lerp(a, b, 0.5)
  {
  }

  /** pygame's `rotate(90)`: a quarter turn, `(x, y) -> (-y, x)`. */
  function RotateQuarter(a: Vec): (r: Vec)
    ensures Dot(r, a) == 0.0
    ensures LengthSquared(r) == LengthSquared(a)
    ensures Cross(a, r) == LengthSquared(a)
  {
    Vec(-a.y, a.x)
  }

  /** pygame's `rotate(-90)`: the opposite quarter turn, `(x, y) -> (y, -x)`. */
  function RotateMinusQuarter(a: Vec): (r: Vec)
    ensures Dot(r, a) == 0.0
    ensures LengthSquared(r) == LengthSquared(a)
    ensures r == Scale(RotateQuarter(a), -1.0)
  {
    Vec(a.y, -a.x)
  }

  lemma CrossAntisymmetric(a: Vec, b: Vec)
    ensures Cross(a, b) == -Cross(b, a)
  {
  }

  // ---------------------------------------------------------------------
  // The shoelace sum over a closed polygon.

  function Last(s: seq<Vec>): Vec
    requires |s| > 0
  {
    s[|s| - 1]
  }

  /** Sum of `Cross(s[j], s[j + 1])` along the open path `s`. */
  function PathSum(s: seq<Vec>): real
  {
    if |s| < 2 then 0.0 else Cross(s[0], s[1]) + PathSum(s[1..])
  }

  /** Sum of `Cross(s[j], s[(j + 1) % n])` over the closed polygon `s`:
      twice its signed area. An empty polygon sums to 0. */
  function ShoelaceSum(s: seq<Vec>): real
  {
    if |s| == 0 then 0.0 else PathSum(s) + Cross(Last(s), s[0])
  }

  /** Extending a path by one vertex adds exactly one term. */
  lemma {:induction false} PathSumSnoc(s: seq<Vec>, v: Vec)
    requires |s| > 0
    ensures PathSum(s + [v]) == PathSum(s) + Cross(Last(s), v)
    decreases |s|
  {
    if |s| == 1 {
      assert s + [v] == [s[0], v];
    } else {
      assert (s + [v])[1..] == s[1..] + [v];
      PathSumSnoc(s[1..], v);
    }
  }

  /** The shoelace sum as the engine's loops accumulate it: the terms
      `Cross(s[j], s[(j + 1) % n])` for `j` from `i` to the end. */
  function CrossSumFrom(s: seq<Vec>, i: nat): real
    requires i <= |s|
    decreases |s| - i
  {
    if i == |s| then 0.0 else Cross(s[i], s[(i + 1) % |s|]) + CrossSumFrom(s, i + 1)
  }

  /** The accumulated terms from `i` are the rest of the path plus the
      closing term. */
  lemma {:induction false} CrossSumFromIsPathTail(s: seq<Vec>, i: nat)
    requires i < |s|
    ensures CrossSumFrom(s, i) == PathSum(s[i..]) + Cross(Last(s), s[0])
    decreases |s| - i
  {
    if i == |s| - 1 {
      assert (i + 1) % |s| == 0;
      assert CrossSumFrom(s, i + 1) == 0.0;
      assert PathSum(s[i..]) == 0.0;
    } else {
      CrossSumFromIsPathTail(s, i + 1);
      assert (i + 1) % |s| == i + 1;
      var t := s[i..];
      assert t[0] == s[i] && t[1] == s[i + 1] && t[1..] == s[i + 1..];
      assert PathSum(t) == Cross(s[i], s[i + 1]) + PathSum(s[i + 1..]);
    }
  }

  /** The loop over all vertices computes exactly the shoelace sum. */
  lemma CrossSumIsShoelace(s: seq<Vec>)
    ensures CrossSumFrom(s, 0) == ShoelaceSum(s)
  {
    if |s| > 0 {
      CrossSumFromIsPathTail(s, 0);
      assert s[0..] == s;
    }
  }

  /** The polygon that lists every edge `q[k] -> q[k + 1]` (wrapping) as
      its own pair of vertices, from edge `k` on. */
  function EdgePairs(q: seq<Vec>, k: nat): (r: seq<Vec>)
    requires k <= |q|
    ensures |r| == 2 * (|q| - k)
    decreases |q| - k
  {
    if k == |q| then [] else [q[k], q[(k + 1) % |q|]] + EdgePairs(q, k + 1)
  }

  /** Entry `j` of the edge pairs from `k` is vertex `k + (j + 1) / 2`,
      wrapping. */
  lemma {:induction false} EdgePairsAt(q: seq<Vec>, k: nat, j: int)
    requires k <= |q| && 0 <= j < 2 * (|q| - k)
    ensures EdgePairs(q, k)[j] == q[(k + (j + 1) / 2) % |q|]
    decreases |q| - k
  {
    if j >= 2 {
      EdgePairsAt(q, k + 1, j - 2);
      assert (k + 1 + (j - 2 + 1) / 2) == k + (j + 1) / 2;
    } else {
      assert k + (j + 1) / 2 < |q| ==> (k + (j + 1) / 2) % |q| == k + (j + 1) / 2;
    }
  }

  /** Walking the edge pairs adds each edge's term and a zero term for every
      repeated vertex. */
  lemma {:induction false} EdgePairsPathSum(q: seq<Vec>, k: nat)
    requires k < |q|
    ensures PathSum(EdgePairs(q, k)) == CrossSumFrom(q, k)
    decreases |q| - k
  {
    if k < |q| - 1 {
      EdgePairsPathSum(q, k + 1);
      EdgePairsHead(q, k);
    } else {
      var a, b := q[k], q[(k + 1) % |q|];
      assert EdgePairs(q, k) == [a, b];
      assert PathSum([a, b]) == Cross(a, b);
    }
  }

  /** Before the last edge, the edge pairs from `k` add edge `k`'s term to
      those from `k + 1`. */
  lemma EdgePairsHead(q: seq<Vec>, k: nat)
    requires k < |q| - 1
    ensures PathSum(EdgePairs(q, k)) == Cross(q[k], q[k + 1]) + PathSum(EdgePairs(q, k + 1))
    ensures CrossSumFrom(q, k) == Cross(q[k], q[k + 1]) + CrossSumFrom(q, k + 1)
  {
    var rest := EdgePairs(q, k + 1);
    assert (k + 1) % |q| == k + 1;
    assert EdgePairs(q, k) == [q[k], q[k + 1]] + rest;
    PathSumRepeat(q[k], q[k + 1], rest);
  }

  /** A path `a, b, b, ...` adds `Cross(a, b)` and continues from the
      repeated `b` at no cost. */
  lemma PathSumRepeat(a: Vec, b: Vec, rest: seq<Vec>)
    requires |rest| > 0 && rest[0] == b
    ensures PathSum([a, b] + rest) == Cross(a, b) + PathSum(rest)
  {
    assert ([a, b] + rest)[1..] == [b] + rest;
    assert ([b] + rest)[1..] == rest;
    CrossSelf(b);
  }

  lemma CrossSelf(a: Vec)
    ensures Cross(a, a) == 0.0
  {
  }

  /** Listing every edge as a separate vertex pair keeps the shoelace sum:
      the extra terms pair a vertex with itself. */
  lemma EdgePairsShoelace(q: seq<Vec>)
    ensures ShoelaceSum(EdgePairs(q, 0)) == ShoelaceSum(q)
  {
    if |q| > 0 {
      EdgePairsPathSum(q, 0);
      CrossSumIsShoelace(q);
      var e := EdgePairs(q, 0);
      assert e[0] == q[0];
      assert Last(e) == q[0] by {
        EdgePairsLast(q, 0);
      }
    }
  }

  lemma {:induction false} EdgePairsLast(q: seq<Vec>, k: nat)
    requires k < |q|
    ensures Last(EdgePairs(q, k)) == q[0]
    decreases |q| - k
  {
    if k < |q| - 1 {
      EdgePairsLast(q, k + 1);
    }
  }

  function Reverse(s: seq<Vec>): seq<Vec> {
    ListUtil.Reverse(s)
  }

  /** Walking a path backwards negates its sum. */
  lemma {:induction false} PathSumReverse(s: seq<Vec>)
    ensures PathSum(Reverse(s)) == -PathSum(s)
    decreases |s|
  {
    if |s| >= 2 {
      var t := s[1..];
      PathSumReverse(t);
      assert Reverse(s) == Reverse(t) + [s[0]];
      PathSumSnoc(Reverse(t), s[0]);
      assert Last(Reverse(t)) == t[0];
      CrossAntisymmetric(t[0], s[0]);
    }
  }

  /** Reversing a polygon negates its shoelace sum: orientation flips. */
  lemma ShoelaceReverse(s: seq<Vec>)
    ensures ShoelaceSum(Reverse(s)) == -ShoelaceSum(s)
  {
    if |s| > 0 {
      PathSumReverse(s);
      CrossAntisymmetric(s[0], Last(s));
    }
  }

  /** Starting the polygon one vertex later does not change the sum. */
  lemma ShoelaceRotateOne(s: seq<Vec>)
    requires |s| > 0
    ensures ShoelaceSum(s[1..] + [s[0]]) == ShoelaceSum(s)
  {
    if |s| >= 2 {
      PathSumSnoc(s[1..], s[0]);
    }
  }

  /** Splitting the polygon at `k` and swapping the halves keeps the sum. */
  lemma {:induction false} ShoelaceSplitSwap(s: seq<Vec>, k: nat)
    requires k <= |s|
    ensures ShoelaceSum(s[k..] + s[..k]) == ShoelaceSum(s)
    decreases k
  {
    if k == 0 {
      assert s[0..] + s[..0] == s;
    } else {
      var t := s[k - 1..] + s[..k - 1];
      ShoelaceSplitSwap(s, k - 1);
      assert t[0] == s[k - 1];
      assert t[1..] + [t[0]] == s[k..] + s[..k];
      ShoelaceRotateOne(t);
    }
  }

  /** The shoelace sum is invariant under any cyclic rotation of the polygon. */
  lemma ShoelaceRotate(s: seq<Vec>, k: int)
    ensures ShoelaceSum(ListUtil.RotateList(s, k)) == ShoelaceSum(s)
  {
    ListUtil.RotateIsSplice(s, k);
    if |s| > 0 {
      ShoelaceSplitSwap(s, k % |s|);
    }
  }

  /** Absolute value, as Python's `abs` on a float. */
  function Abs(v: real): (r: real)
    ensures r >= 0.0 && (r == v || r == -v)
  {
    if v < 0.0 then -v else v
  }

  /** `|shoelace| / 2`: the unsigned area of a polygon. */
  function Area(s: seq<Vec>): (r: real)
    ensures r >= 0.0
  {
    Abs(ShoelaceSum(s)) / 2.0
  }

  /** The unsigned area does not depend on the traversal direction or the
      starting vertex. */
  lemma AreaOrientationFree(s: seq<Vec>, k: int)
    ensures Area(Reverse(s)) == Area(s)
    ensures Area(ListUtil.RotateList(s, k)) == Area(s)
  {
    ShoelaceReverse(s);
    ShoelaceRotate(s, k);
  }

  /** The unit square walked (0,0), (0,1), (1,1), (1,0) has shoelace sum -2,
      hence area 1. */
  lemma UnitSquareArea()
    ensures ShoelaceSum([Vec(0.0, 0.0), Vec(0.0, 1.0), Vec(1.0, 1.0), Vec(1.0, 0.0)]) == -2.0
    ensures Area([Vec(0.0, 0.0), Vec(0.0, 1.0), Vec(1.0, 1.0), Vec(1.0, 0.0)]) == 1.0
  {
    var s := [Vec(0.0, 0.0), Vec(0.0, 1.0), Vec(1.0, 1.0), Vec(1.0, 0.0)];
    assert PathSum([Vec(1.0, 0.0)]) == 0.0;
    assert PathSum([Vec(1.0, 1.0), Vec(1.0, 0.0)]) == -1.0;
    assert PathSum([Vec(0.0, 1.0), Vec(1.0, 1.0), Vec(1.0, 0.0)]) == -2.0;
    assert PathSum(s) == -2.0;
  }

  /** The shoelace sum of a quadrilateral, term by term. */
  lemma ShoelaceFour(a: Vec, b: Vec, c: Vec, d: Vec)
    ensures ShoelaceSum([a, b, c, d]) == Cross(a, b) + Cross(b, c) + Cross(c, d) + Cross(d, a)
  {
    var s := [a, b, c, d];
    assert [c, d][1..] == [d];
    assert PathSum([c, d]) == Cross(c, d);
    assert [b, c, d][1..] == [c, d];
    assert PathSum([b, c, d]) == Cross(b, c) + Cross(c, d);
    assert s[1..] == [b, c, d];
    assert PathSum(s) == Cross(a, b) + Cross(b, c) + Cross(c, d);
    assert Last(s) == d;
  }

  /** The same square walked (0,0), (1,0), (1,1), (0,1) has shoelace sum 2,
      hence area 1 as well. */
  lemma UnitSquareCounterArea()
    ensures ShoelaceSum([Vec(0.0, 0.0), Vec(1.0, 0.0), Vec(1.0, 1.0), Vec(0.0, 1.0)]) == 2.0
    ensures Area([Vec(0.0, 0.0), Vec(1.0, 0.0), Vec(1.0, 1.0), Vec(0.0, 1.0)]) == 1.0
  {
    ShoelaceFour(Vec(0.0, 0.0), Vec(1.0, 0.0), Vec(1.0, 1.0), Vec(0.0, 1.0));
  }
}

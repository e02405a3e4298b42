/** The blob's search for its narrowest place: pairs of ring positions far
    apart along the ring but close in the plane. A few evenly spread seed
    pairs are each improved by a hill-climb over neighbouring pairs, and the
    best pair found is reported when it is narrower than a target width.

    Positions are reduced ring positions of a blob with `n` points. The
    Euclidean distance between the points at two positions is a parameter
    `dist`; the ring's average link length is a parameter too. */
module Width {

  import opened Results
  import Indexes

  /** A pair of ring positions. */
  type Pair = (int, int)

  /** The pair `try_finding_closer_pair` reports when no neighbouring pair
      is closer than the one it was given. */
  const Sentinel: Pair := (-404, -404)

  /** The pair the search starts from before any seed is climbed. */
  const Unset: Pair := (-3, -3)

  /** Both positions lie on a ring of `n` points. */
  predicate Reduced(n: int, p: Pair) {
    0 <= p.0 < n && 0 <= p.1 < n
  }

  /** A width that may still be `math.inf`. */
  datatype Width = Finite(value: real) | Infinite

  /** `a < b` for a finite `a` against a possibly infinite `b`. */
  predicate Narrower(a: real, b: Width) {
    b.Infinite? || a < b.value
  }

  /** `w > target`, with infinity above every target. */
  predicate Exceeds(w: Width, target: real) {
    w.Infinite? || w.value > target
  }

  /** Python's `math.ceil` on an exact real. */
  function Ceil(x: real): (r: int)
    ensures r as real - 1.0 < x <= r as real
  {
    -((-x).Floor)
  }

  // ---------------------------------------------------------------------
  // One step: try_finding_closer_pair
  // ---------------------------------------------------------------------

  /** How far the neighbours are looked for: one position when the pair is
      already closer than the target, otherwise the number of links that
      covers the excess. A zero link length divides by zero. */
  function Step(initial: real, target: real, linkLength: real): (r: Result<int>)
    ensures r.Err? <==> target <= initial && linkLength == 0.0
    ensures r.Err? ==> r.error == ZeroDivisionError
    ensures r.Ok? && target > initial ==> r.value == 1
    ensures r.Ok? && target <= initial && linkLength > 0.0 ==>
      && 0 <= r.value
      && (r.value - 1) as real * linkLength < initial - target <= r.value as real * linkLength
  {
    if target > initial then Ok(1)
    else if linkLength == 0.0 then Err(ZeroDivisionError)
    else
      var q := (initial - target) / linkLength;
      assert linkLength > 0.0 ==>
        0 <= Ceil(q) && (Ceil(q) - 1) as real * linkLength < initial - target <= Ceil(q) as real * linkLength by {
        if linkLength > 0.0 {
          CeilCovers(initial - target, linkLength);
        }
      }
      Ok(Ceil(q))
  }

  /** `ceil(e / l)` links of length `l` cover `e`, and one fewer do not. */
  lemma CeilCovers(e: real, l: real)
    requires 0.0 <= e && l > 0.0
    ensures 0 <= Ceil(e / l)
    ensures (Ceil(e / l) - 1) as real * l < e <= Ceil(e / l) as real * l
  {
    var q := e / l;
    var c := Ceil(q);
    assert q * l == e;
    MulMonotone(q, 0.0, l);
    assert (c - 1) as real == c as real - 1.0;
    MulMonotone(c as real - 1.0, q, l);
    MulMonotone(q, c as real, l);
  }

  /** Multiplying by a positive factor keeps order. */
  lemma MulMonotone(a: real, b: real, c: real)
    requires c > 0.0
    ensures a < b ==> a * c < b * c
    ensures a <= b ==> a * c <= b * c
  {
    assert b * c - a * c == (b - a) * c;
  }

  /** A position, then the positions `step` before and after it. */
  function Around(n: int, i: int, step: int): (r: seq<int>)
    requires n > 0
    ensures |r| == 3 && r[0] == i
    ensures 0 <= r[1] < n && 0 <= r[2] < n
  {
    var before := (i - step) % n;
    var after := (i + step) % n;
    [i, before, after]
  }

  /** The pairs of `ps` whose positions are more than `berth` apart along
      the ring, in order. */
  function FarApart(n: int, ps: seq<Pair>, berth: int): (r: seq<Pair>)
    ensures |r| <= |ps|
    ensures forall p :: p in r <==> p in ps && Indexes.IndexDistance(n, p.0, p.1) > berth
  {
    if |ps| == 0 then []
    else
      var rest := FarApart(n, ps[1..], berth);
      assert forall p :: p in ps <==> p == ps[0] || p in ps[1..];
      if Indexes.IndexDistance(n, ps[0].0, ps[0].1) > berth then [ps[0]] + rest else rest
  }

  /** The nine pairs `[(a, b) for a in xs for b in ys]` of two three-element
      lists, without the first one. */
  function ProductTail(xs: seq<int>, ys: seq<int>): (r: seq<Pair>)
    requires |xs| == 3 && |ys| == 3
    ensures |r| == 8
    ensures forall c :: c in r ==> c.0 in xs && c.1 in ys
    ensures forall i, j :: 0 <= i < 3 && 0 <= j < 3 && (i, j) != (0, 0) ==> (xs[i], ys[j]) in r
  {
    [(xs[0], ys[1]), (xs[0], ys[2]),
     (xs[1], ys[0]), (xs[1], ys[1]), (xs[1], ys[2]),
     (xs[2], ys[0]), (xs[2], ys[1]), (xs[2], ys[2])]
  }

  /** `create_candidate_pairs_list`: the pairs made of each position or its
      neighbours `step` away, without the base pair itself (the first one
      listed), keeping only those more than `berth` apart along the ring. */
  function Candidates(n: int, base: Pair, step: int, berth: int): (r: seq<Pair>)
    requires n > 0
    ensures forall c :: c in r ==> Indexes.IndexDistance(n, c.0, c.1) > berth
    ensures forall c :: c in r ==> c.0 in Around(n, base.0, step) && c.1 in Around(n, base.1, step)
    ensures Reduced(n, base) ==> forall c :: c in r ==> Reduced(n, c)
  {
    FarApart(n, ProductTail(Around(n, base.0, step), Around(n, base.1, step)), berth)
  }

  /** Every pair of the neighbourhood grid but the base pair itself is a
      candidate as soon as its two positions are far enough apart. */
  lemma CandidatesCoverGrid(n: int, base: Pair, step: int, berth: int, i: int, j: int)
    requires n > 0 && 0 <= i < 3 && 0 <= j < 3 && (i, j) != (0, 0)
    ensures var c := (Around(n, base.0, step)[i], Around(n, base.1, step)[j]);
      Indexes.IndexDistance(n, c.0, c.1) > berth ==> c in Candidates(n, base, step, berth)
  {
    var xs, ys := Around(n, base.0, step), Around(n, base.1, step);
    assert (xs[i], ys[j]) in ProductTail(xs, ys);
  }

  /** The scan of `try_finding_closer_pair`: the first candidate strictly
      closer than everything before it, starting from `best` at distance
      `smallest`. */
  function Closest(dist: (int, int) -> real, cands: seq<Pair>, best: Pair, smallest: real): (r: (Pair, real))
    ensures r.1 <= smallest
    ensures (r.0 == best && r.1 == smallest) || (r.0 in cands && r.1 == dist(r.0.0, r.0.1) < smallest)
    ensures forall c :: c in cands ==> r.1 <= dist(c.0, c.1)
  {
    if |cands| == 0 then (best, smallest)
    else
      var c := cands[0];
      var d := dist(c.0, c.1);
      assert forall p :: p in cands <==> p == c || p in cands[1..];
      if d < smallest then Closest(dist, cands[1..], c, d)
      else Closest(dist, cands[1..], best, smallest)
  }

  /** A candidate can only be the sentinel when the base pair is. */
  lemma SentinelIsNoCandidate(n: int, base: Pair, step: int, berth: int)
    requires n > 0
    ensures Sentinel in Candidates(n, base, step, berth) ==> base == Sentinel
  {
  }

  /** The candidates `try_finding_closer_pair` compares against a pair at
      distance `initial`. A ring without points, or a zero link length when
      the pair is not already under the target, divides by zero. */
  function Neighbourhood(n: nat, linkLength: real, pair: Pair, berth: int, initial: real, target: real): (r: Result<seq<Pair>>)
    ensures r.Err? <==> n == 0 || (target <= initial && linkLength == 0.0)
    ensures r.Err? ==> r.error == ZeroDivisionError
    ensures r.Ok? ==> forall c :: c in r.value ==> Indexes.IndexDistance(n, c.0, c.1) > berth
    ensures r.Ok? && Reduced(n, pair) ==> forall c :: c in r.value ==> Reduced(n, c)
    ensures r.Ok? && pair != Sentinel ==> Sentinel !in r.value
  {
    if n == 0 then Err(ZeroDivisionError)
    else
      var step :- Step(initial, target, linkLength);
      SentinelIsNoCandidate(n, pair, step, berth);
      Ok(Candidates(n, pair, step, berth))
  }

  /** `try_finding_closer_pair`: the closest neighbouring pair and its
      distance, or the sentinel with the pair's own distance when no
      neighbour is strictly closer. */
  function TryCloser(n: nat, dist: (int, int) -> real, linkLength: real, pair: Pair, berth: int, target: real): (r: Result<(Pair, real)>)
    ensures r.Err? <==> Neighbourhood(n, linkLength, pair, berth, dist(pair.0, pair.1), target).Err?
    ensures r.Err? ==> r.error == ZeroDivisionError
    ensures r.Ok? ==> r.value.1 <= dist(pair.0, pair.1)
    ensures r.Ok? && r.value.0 == Sentinel ==>
      && r.value.1 == dist(pair.0, pair.1)
      && forall c :: c in Neighbourhood(n, linkLength, pair, berth, dist(pair.0, pair.1), target).value ==>
           dist(pair.0, pair.1) <= dist(c.0, c.1)
    ensures r.Ok? && r.value.0 != Sentinel ==>
      && r.value.0 in Neighbourhood(n, linkLength, pair, berth, dist(pair.0, pair.1), target).value
      && r.value.1 == dist(r.value.0.0, r.value.0.1) < dist(pair.0, pair.1)
  {
    var initial := dist(pair.0, pair.1);
    var cands :- Neighbourhood(n, linkLength, pair, berth, initial, target);
    var found := Closest(dist, cands, pair, initial);
    if found.0 == pair then Ok((Sentinel, found.1)) else Ok(found)
  }

  // ---------------------------------------------------------------------
  // The hill-climb and its termination
  // ---------------------------------------------------------------------

  /** The pairs of positions strictly closer than `d`. */
  function Below(n: nat, dist: (int, int) -> real, d: real): set<Pair> {
    set i, j | 0 <= i < n && 0 <= j < n && dist(i, j) < d :: (i, j)
  }

  /** Moving to a strictly closer pair removes at least that pair from the
      pairs still below, so a hill-climb cannot go on for ever. */
  lemma BelowShrinks(n: nat, dist: (int, int) -> real, p: Pair, q: Pair)
    requires Reduced(n, p) && dist(p.0, p.1) < dist(q.0, q.1)
    ensures |Below(n, dist, dist(p.0, p.1))| < |Below(n, dist, dist(q.0, q.1))|
  {
    var low := Below(n, dist, dist(p.0, p.1));
    var high := Below(n, dist, dist(q.0, q.1));
    assert low <= high;
    assert p == (p.0, p.1);
    var gone := high - low;
    assert p in gone;
    assert high == low + gone && low * gone == {};
    assert |gone| >= 1 by {
      assert {p} <= gone;
    }
  }

  /** The best pair and width found so far. */
  datatype Best = Best(pair: Pair, width: Width)

  /** A best record whose width is finite names a ring pair at that
      distance. */
  predicate Consistent(n: int, dist: (int, int) -> real, b: Best) {
    b.width.Finite? ==> Reduced(n, b.pair) && b.width.value == dist(b.pair.0, b.pair.1)
  }

  /** The inner `while not found_local_minimum` loop for one seed. With
      `asWritten`, a distance that improves the best is recorded with the
      pair `try_finding_closer_pair` returned, which is the sentinel when
      the current pair is already a local minimum. Otherwise the current
      pair is recorded in that case, which is what the loop's comment says
      it has found. */
  function Climb(n: nat, dist: (int, int) -> real, linkLength: real, berth: int, target: real,
                 pair: Pair, best: Best, asWritten: bool): (r: Result<Best>)
    requires Reduced(n, pair)
    ensures r.Ok? ==> r.value.width.Finite? && r.value.width.value <= dist(pair.0, pair.1)
    ensures r.Ok? && best.width.Finite? ==> r.value.width.value <= best.width.value
    ensures r.Err? ==> r.error == ZeroDivisionError
    ensures linkLength != 0.0 ==> r.Ok?
    ensures r.Ok? && !asWritten && Consistent(n, dist, best) ==> Consistent(n, dist, r.value)
    decreases |Below(n, dist, dist(pair.0, pair.1))|
  {
    var step :- TryCloser(n, dist, linkLength, pair, berth, target);
    var (closer, d) := step;
    var recorded := if closer == Sentinel && !asWritten then pair else closer;
    var best' := if Narrower(d, best.width) then Best(recorded, Finite(d)) else best;
    if closer == Sentinel then Ok(best')
    else
      assert Reduced(n, closer);
      BelowShrinks(n, dist, closer, pair);
      Climb(n, dist, linkLength, berth, target, closer, best', asWritten)
  }

  // ---------------------------------------------------------------------
  // The search: find_local_minimum_width_pair_under_target_width
  // ---------------------------------------------------------------------

  /** Seed `i` of `k`: a position a fraction `i / (2k)` round the ring and
      the position half a ring after it. */
  function Seed(n: nat, k: nat, i: nat): (r: Pair)
    requires 0 < n && i < k
    ensures Reduced(n, r)
    ensures r.1 == (n / 2 + r.0) % n
  {
    var a := (n as real * i as real / (2.0 * k as real)).Floor;
    SeedInRange(n, k, i);
    (a, (n / 2 + a) % n)
  }

  lemma SeedInRange(n: nat, k: nat, i: nat)
    requires 0 < n && i < k
    ensures 0 <= (n as real * i as real / (2.0 * k as real)).Floor < n
  {
    var d := 2.0 * k as real;
    var x := n as real * i as real / d;
    assert x * d == n as real * i as real;
    assert n as real * i as real < n as real * d by {
      MulMonotone(i as real, d, n as real);
    }
    assert 0.0 <= n as real * i as real by {
      MulMonotone(0.0, i as real, n as real);
    }
    assert x < n as real by {
      MulMonotone(n as real, x, d);
    }
    assert 0.0 <= x by {
      MulMonotone(x, 0.0, d);
    }
  }

  /** `initial_pairs`: `samples` evenly spread seeds. Reducing a position
      on a ring without points divides by zero. */
  function InitialPairs(n: nat, samples: int): (r: Result<seq<Pair>>)
    ensures r.Err? <==> n == 0 && samples > 0
    ensures r.Err? ==> r.error == ZeroDivisionError
    ensures r.Ok? ==> |r.value| == (if samples < 0 then 0 else samples)
    ensures r.Ok? ==> forall i :: 0 <= i < |r.value| ==> Reduced(n, r.value[i])
    ensures r.Ok? && n > 0 ==> forall i :: 0 <= i < |r.value| ==> r.value[i] == Seed(n, samples, i)
  {
    if samples <= 0 then Ok([])
    else if n == 0 then Err(ZeroDivisionError)
    else Ok(seq(samples, i requires 0 <= i < samples => Seed(n, samples, i)))
  }

  /** The outer loop: every seed climbed in turn, sharing one best record. */
  function ClimbAll(n: nat, dist: (int, int) -> real, linkLength: real, berth: int, target: real,
                    seeds: seq<Pair>, best: Best, asWritten: bool): (r: Result<Best>)
    requires forall i :: 0 <= i < |seeds| ==> Reduced(n, seeds[i])
    ensures r.Err? ==> r.error == ZeroDivisionError
    ensures linkLength != 0.0 ==> r.Ok?
    ensures |seeds| == 0 ==> r == Ok(best)
  {
    if |seeds| == 0 then Ok(best)
    else
      var b :- Climb(n, dist, linkLength, berth, target, seeds[0], best, asWritten);
      ClimbAll(n, dist, linkLength, berth, target, seeds[1..], b, asWritten)
  }

  /** The shared record ends no wider than any seed or the record it
      started from, and, corrected, it keeps naming a ring pair at its
      width. */
  lemma {:induction false} ClimbAllBounds(n: nat, dist: (int, int) -> real, linkLength: real, berth: int, target: real,
                                          seeds: seq<Pair>, best: Best, asWritten: bool)
    requires forall i :: 0 <= i < |seeds| ==> Reduced(n, seeds[i])
    ensures var r := ClimbAll(n, dist, linkLength, berth, target, seeds, best, asWritten);
      && (r.Ok? && |seeds| > 0 ==> r.value.width.Finite?)
      && (r.Ok? ==> forall i :: 0 <= i < |seeds| ==> r.value.width.value <= dist(seeds[i].0, seeds[i].1))
      && (r.Ok? && best.width.Finite? ==> r.value.width.Finite? && r.value.width.value <= best.width.value)
      && (r.Ok? && !asWritten && Consistent(n, dist, best) ==> Consistent(n, dist, r.value))
  {
    if |seeds| > 0 {
      var c := Climb(n, dist, linkLength, berth, target, seeds[0], best, asWritten);
      if c.Ok? {
        var rest := seeds[1..];
        ClimbAllBounds(n, dist, linkLength, berth, target, rest, c.value, asWritten);
        var r := ClimbAll(n, dist, linkLength, berth, target, rest, c.value, asWritten);
        assert ClimbAll(n, dist, linkLength, berth, target, seeds, best, asWritten) == r;
        if r.Ok? {
          forall i | 0 <= i < |seeds|
            ensures r.value.width.value <= dist(seeds[i].0, seeds[i].1)
          {
            if i > 0 {
              assert seeds[i] == rest[i - 1];
            }
          }
        }
      }
    }
  }

  /** `find_local_minimum_width_pair_under_target_width`: the narrowest pair
      found and its width, or `(-1, -1)` with that width when it is wider
      than the target. */
  function FindWidthPair(n: nat, dist: (int, int) -> real, linkLength: real, samples: int, berth: int,
                         target: real, asWritten: bool): (r: Result<(int, int, Width)>)
    ensures samples <= 0 ==> r == Ok((-1, -1, Infinite))
    ensures n == 0 && samples > 0 ==> r == Err(ZeroDivisionError)
    ensures r.Err? ==> r.error == ZeroDivisionError
    ensures n > 0 && linkLength != 0.0 ==> r.Ok?
    ensures r.Ok? && Exceeds(r.value.2, target) ==> r.value.0 == -1 && r.value.1 == -1
  {
    var seeds :- InitialPairs(n, samples);
    var best :- ClimbAll(n, dist, linkLength, berth, target, seeds, Best(Unset, Infinite), asWritten);
    if Exceeds(best.width, target) then Ok((-1, -1, best.width))
    else Ok((best.pair.0, best.pair.1, best.width))
  }

  /** The reported width is finite once there is a seed, and no wider than
      any seed pair. Corrected, a width under the target comes with a ring
      pair at exactly that distance; as written the pair may be the
      sentinel (see `SentinelReported`). */
  lemma FindWidthPairBounds(n: nat, dist: (int, int) -> real, linkLength: real, samples: int, berth: int,
                            target: real, asWritten: bool)
    ensures var r := FindWidthPair(n, dist, linkLength, samples, berth, target, asWritten);
      && (r.Ok? && samples > 0 ==> r.value.2.Finite?)
      && (r.Ok? ==> var seeds := InitialPairs(n, samples).value;
            forall i :: 0 <= i < |seeds| ==> r.value.2.value <= dist(seeds[i].0, seeds[i].1))
      && (r.Ok? && !asWritten && !Exceeds(r.value.2, target) ==>
            Reduced(n, (r.value.0, r.value.1)) && r.value.2 == Finite(dist(r.value.0, r.value.1)))
  {
    var seeds := InitialPairs(n, samples);
    if seeds.Ok? {
      ClimbAllBounds(n, dist, linkLength, berth, target, seeds.value, Best(Unset, Infinite), asWritten);
    }
  }

  /** The corners of a 4 by 3 rectangle, counter-clockwise from the
      origin: a blob of four points. */
  function Corner(i: int): (real, real) {
    if i == 0 then (0.0, 0.0)
    else if i == 1 then (4.0, 0.0)
    else if i == 2 then (4.0, 3.0)
    else (0.0, 3.0)
  }

  /** The distance between two corners of that rectangle: 4 along the long
      sides, 3 along the short ones and 5 across. */
  function RectangleDist(a: int, b: int): real {
    if a == b then 0.0
    else if (a + b) % 2 == 0 then 5.0
    else if a + b == 1 || a + b == 5 then 4.0
    else 3.0
  }

  /** `RectangleDist` is the Euclidean distance between the corners: it is
      non-negative and its square is the sum of the squared coordinate
      differences. */
  lemma RectangleDistIsEuclidean(a: int, b: int)
    requires 0 <= a < 4 && 0 <= b < 4
    ensures var dx := Corner(a).0 - Corner(b).0;
      var dy := Corner(a).1 - Corner(b).1;
      RectangleDist(a, b) >= 0.0 && RectangleDist(a, b) * RectangleDist(a, b) == dx * dx + dy * dy
  {
  }

  /** Two corners more than one position apart round the ring are
      opposite corners, 5 apart. */
  lemma FarCornersAreDiagonal(a: int, b: int)
    requires 0 <= a < 4 && 0 <= b < 4 && Indexes.IndexDistance(4, a, b) > 1
    ensures RectangleDist(a, b) == 5.0
  {
  }

  /** Under a target of 6 the diagonal `(0, 2)` is searched one step away
      with a berth of one. Every candidate is then the other diagonal,
      which is no shorter, so the diagonal is a local minimum and the step
      reports the sentinel with its length 5. */
  lemma DiagonalIsLocalMinimum()
    ensures TryCloser(4, RectangleDist, 3.5, (0, 2), 1, 6.0) == Ok((Sentinel, 5.0))
  {
    assert Step(5.0, 6.0, 3.5) == Ok(1);
    var cands := Candidates(4, (0, 2), 1, 1);
    assert Neighbourhood(4, 3.5, (0, 2), 1, 5.0, 6.0) == Ok(cands);
    forall c | c in cands
      ensures RectangleDist(c.0, c.1) >= 5.0
    {
      FarCornersAreDiagonal(c.0, c.1);
    }
    var found := Closest(RectangleDist, cands, (0, 2), 5.0);
    assert found == ((0, 2), 5.0);
  }

  /** The single seed of a four-point ring. */
  lemma OneSeedOfFour()
    ensures InitialPairs(4, 1) == Ok([(0, 2)])
  {
    assert Seed(4, 1, 0) == (0, 2);
    assert InitialPairs(4, 1).value == [(0, 2)];
  }

  /** Climbing from the diagonal stops at once; the record takes its
      length, with the sentinel as written and the diagonal itself
      corrected. */
  lemma DiagonalClimb(asWritten: bool)
    ensures Climb(4, RectangleDist, 3.5, 1, 6.0, (0, 2), Best(Unset, Infinite), asWritten)
         == Ok(Best(if asWritten then Sentinel else (0, 2), Finite(5.0)))
  {
    DiagonalIsLocalMinimum();
  }

  /** The search over that single seed. */
  lemma RectangleSearch(asWritten: bool)
    ensures FindWidthPair(4, RectangleDist, 3.5, 1, 1, 6.0, asWritten)
         == Ok(if asWritten then (-404, -404, Finite(5.0)) else (0, 2, Finite(5.0)))
  {
    OneSeedOfFour();
    DiagonalClimb(asWritten);
    var b := Best(if asWritten then Sentinel else (0, 2), Finite(5.0));
    assert ClimbAll(4, RectangleDist, 3.5, 1, 6.0, [(0, 2)], Best(Unset, Infinite), asWritten)
        == ClimbAll(4, RectangleDist, 3.5, 1, 6.0, [], b, asWritten);
  }

  /** On the 4 by 3 rectangle searched from the single seed `(0, 2)`, with
      a berth of 1, a link length of 3.5 and a target of 6, the seed is
      already a local minimum. As written the search reports the sentinel
      `(-404, -404)` as the narrowest pair, which the caller does not
      recognise as "nothing found"; corrected it reports the seed. */
  lemma SentinelReported()
    ensures FindWidthPair(4, RectangleDist, 3.5, 1, 1, 6.0, true) == Ok((-404, -404, Finite(5.0)))
    ensures FindWidthPair(4, RectangleDist, 3.5, 1, 1, 6.0, false) == Ok((0, 2, Finite(5.0)))
  {
    RectangleSearch(true);
    RectangleSearch(false);
  }
}

/** A blob's chain loop seen as one ring of points. Chain `k` covers the ring
    positions `Prefix(k) .. Prefix(k + 1)`; neighbouring chains share the
    junction point at the boundary, so the ring has `PointNumber` positions
    and position `PointNumber` is position 0 again. A chain may run against
    the loop direction ("backwards"), in which case its points are read from
    its end. */
module Rings {

  import opened Results
  import opened Points
  import ListUtil
  import Chains
  import Indexes

  /** The point lists of a blob's chains, in loop order. */
  type Ring = seq<seq<PointId>>

  // ---------------------------------------------------------------------
  // Boundaries and the point count.

  /** Ring positions covered by chains `0 .. k - 1`: each chain adds its
      length less the endpoint it shares with its successor. */
  function Prefix(ring: Ring, k: nat): int
    requires k <= |ring|
  {
    if k == 0 then 0 else Prefix(ring, k - 1) + |ring[k - 1]| - 1
  }

  /** The chains' lengths summed front to back, as `point_number` adds them. */
  function TotalLength(ring: Ring): nat {
    if |ring| == 0 then 0 else |ring[0]| + TotalLength(ring[1..])
  }

  /** `point_number`: the summed chain lengths less one shared endpoint per
      chain. */
  function PointNumber(ring: Ring): int {
    TotalLength(ring) - |ring|
  }

  /** Dropping the first chain shifts every boundary by its contribution. */
  lemma {:induction false} PrefixOfTail(ring: Ring, k: nat)
    requires k < |ring|
    ensures Prefix(ring, k + 1) == |ring[0]| - 1 + Prefix(ring[1..], k)
    decreases k
  {
    if k > 0 {
      PrefixOfTail(ring, k - 1);
      assert ring[1..][k - 1] == ring[k];
    }
  }

  /** The point count is the last boundary. */
  lemma {:induction false} PointNumberIsLastBoundary(ring: Ring)
    ensures PointNumber(ring) == Prefix(ring, |ring|)
    decreases |ring|
  {
    if |ring| > 0 {
      PointNumberIsLastBoundary(ring[1..]);
      PrefixOfTail(ring, |ring| - 1);
    }
  }

  /** `intersection_indexes`: the running boundaries `Prefix(1) ..
      Prefix(m)`, one per chain; the last is the point count. */
  method IntersectionIndexes(ring: Ring) returns (r: seq<int>)
    ensures |r| == |ring|
    ensures forall k :: 0 <= k < |r| ==> r[k] == Prefix(ring, k + 1)
    ensures |ring| > 0 ==> r[|ring| - 1] == PointNumber(ring)
  {
    var sum := 0;
    r := [];
    for k := 0 to |ring|
      invariant |r| == k && sum == Prefix(ring, k)
      invariant forall j :: 0 <= j < k ==> r[j] == Prefix(ring, j + 1)
    {
      sum := sum + |ring[k]| - 1;
      r := r + [sum];
    }
    PointNumberIsLastBoundary(ring);
  }

  /** The boundaries `0, Prefix(1), .., Prefix(m)` as one list
      (`[0] + intersection_indexes`). */
  function Boundaries(ring: Ring): (r: seq<int>)
    ensures |r| == |ring| + 1
  {
    seq(|ring| + 1, k requires 0 <= k <= |ring| => Prefix(ring, k))
  }

  /** A ring the engine can address: at least one chain, and every chain has
      two endpoints. */
  predicate WellFormed(ring: Ring) {
    |ring| >= 1 && forall k :: 0 <= k < |ring| ==> |ring[k]| >= 2
  }

  /** In a well-formed ring each chain adds at least one position. */
  lemma {:induction false} PrefixGrows(ring: Ring, i: nat, j: nat)
    requires WellFormed(ring) && i <= j <= |ring|
    ensures Prefix(ring, i) + (j - i) <= Prefix(ring, j)
    decreases j - i
  {
    if i < j {
      PrefixGrows(ring, i, j - 1);
    }
  }

  /** A well-formed ring has at least one position per chain. */
  lemma PointNumberBound(ring: Ring)
    requires WellFormed(ring)
    ensures PointNumber(ring) >= |ring| >= 1
  {
    PointNumberIsLastBoundary(ring);
    PrefixGrows(ring, 0, |ring|);
  }

  // ---------------------------------------------------------------------
  // Chain orientation.

  /** `is_chain_backwards(k)` by index. A one-chain loop is never backwards.
      With more than two chains, chain `k` is backwards when its start is
      the endpoint it shares with the next chain (`ValueError` when it
      shares none). With two chains, chain 0 is forwards and chain 1 is
      backwards when both end at the same point; the code sends a negative
      index on two chains to the by-chain path instead, which this rule
      stands in for. `IndexError` for an index
      Python's list indexing rejects; `ZeroDivisionError` for an empty loop. */
  function Backwards(ring: Ring, k: int): (r: Result<bool>)
    ensures |ring| == 0 ==> r == Err(ZeroDivisionError)
    ensures |ring| == 1 ==> r == Ok(false)
    ensures |ring| >= 2 && ListUtil.PyIndex(|ring|, k).None? ==> r == Err(IndexError)
    ensures |ring| > 2 && ListUtil.PyIndex(|ring|, k).Some? ==>
      var c := ring[ListUtil.PyIndex(|ring|, k).value];
      var next := ring[(ListUtil.PyIndex(|ring|, k).value + 1) % |ring|];
      && (r.Err? <==> Chains.Endpoints(c) * Chains.Endpoints(next) == {} && (|c| > 0 || |next| > 0))
      && (r.Err? ==> r.error == ValueError)
      && (r.Ok? && |c| > 0 ==> (r.value <==> c[0] in Chains.Endpoints(next)))
    ensures |ring| == 2 && ListUtil.PyIndex(|ring|, k).Some? ==>
      r == Ok(ListUtil.PyIndex(|ring|, k).value == 1 && Chains.End(ring[1]) == Chains.End(ring[0]))
  {
    var m := |ring|;
    if m == 1 then Ok(false)
    else if m == 0 then Err(ZeroDivisionError)
    else
      // The source's `(k + 1) % m` names the same chain as `(idx + 1) % m`.
      match ListUtil.PyIndex(m, k)
      case None => Err(IndexError)
      case Some(idx) =>
        var c := ring[idx];
        var next := ring[(idx + 1) % m];
        if m > 2 then
          var common :- Chains.CommonEndpoint(c, next, true);
          assert |c| > 0 && common.Some? && c[0] != common.value ==> c[0] !in Chains.Endpoints(next);
          Ok(Chains.Start(c) == common)
        else if idx == 0 then Ok(false)
        else Ok(Chains.End(c) == Chains.End(next))
  }

  /** Every chain's orientation can be decided. */
  predicate Oriented(ring: Ring) {
    WellFormed(ring) && forall k :: 0 <= k < |ring| ==> Backwards(ring, k).Ok?
  }

  /** Position `t` of chain `k`, counted in loop direction. */
  function Along(ring: Ring, k: nat, t: int): PointId
    requires k < |ring| && Backwards(ring, k).Ok? && 0 <= t < |ring[k]|
  {
    if Backwards(ring, k).value then ring[k][|ring[k]| - 1 - t] else ring[k][t]
  }

  /** The first and last point of chain `k` in loop direction. */
  function Head(ring: Ring, k: nat): PointId
    requires k < |ring| && Backwards(ring, k).Ok? && |ring[k]| > 0
  {
    Along(ring, k, 0)
  }

  function Tail(ring: Ring, k: nat): PointId
    requires k < |ring| && Backwards(ring, k).Ok? && |ring[k]| > 0
  {
    Along(ring, k, |ring[k]| - 1)
  }

  /** The loop closes: each chain, read in loop direction, ends where the
      next one begins, and the last one ends where the first begins. */
  predicate Closed(ring: Ring) {
    && Oriented(ring)
    && (forall k :: 0 <= k < |ring| - 1 ==> Tail(ring, k) == Head(ring, k + 1))
    && Tail(ring, |ring| - 1) == Head(ring, 0)
  }

  // ---------------------------------------------------------------------
  // From a ring position to a chain and back.

  /** The ring position `i` stands for: `i` modulo the point count. */
  function Position(ring: Ring, i: int): (p: int)
    requires WellFormed(ring)
    ensures 0 <= p < PointNumber(ring)
  {
    PointNumberBound(ring);
    ListUtil.PyMod(i, PointNumber(ring))
  }

  /** The chain-index scan of `get_chain_and_on_chain_point_index_at`: walk
      the boundaries `0, Prefix(1), ..` and keep the index before the first
      one at or past `p`. */
  function ChainIndexScan(ring: Ring, p: int, i: nat, last: nat): (r: nat)
    requires i <= |ring| + 1 && last <= |ring|
    requires last == (if i == 0 then 0 else i - 1)
    requires forall j :: 0 <= j < i ==> Prefix(ring, j) < p
    ensures r <= |ring|
    ensures r > 0 || p > 0 ==> forall j :: 0 <= j <= r ==> Prefix(ring, j) < p
    ensures r < |ring| && p > 0 ==> Prefix(ring, r + 1) >= p
    decreases |ring| + 1 - i
  {
    if i > |ring| || Prefix(ring, i) >= p then last
    else ChainIndexScan(ring, p, i + 1, i)
  }

  function ChainIndexAt(ring: Ring, p: int): nat {
    ChainIndexScan(ring, p, 0, 0)
  }

  /** In a well-formed ring a position strictly past boundary `k` and at most
      boundary `k + 1` belongs to chain `k` alone: a boundary point goes to
      the earlier chain. */
  lemma ChainIndexUnique(ring: Ring, p: int, k: nat)
    requires WellFormed(ring) && k < |ring|
    requires Prefix(ring, k) < p <= Prefix(ring, k + 1)
    ensures ChainIndexAt(ring, p) == k
  {
    var r := ChainIndexAt(ring, p);
    PrefixGrows(ring, 0, k);
    if r < k {
      PrefixGrows(ring, r + 1, k);
    }
  }

  /** `get_chain_and_on_chain_point_index_at`: reduces `i` modulo the point
      count, finds the chain holding that position and the point's index on
      the chain, counted from the far end when the chain is backwards. */
  function GetChainAndIndexAt(ring: Ring, i: int): (r: Result<(nat, int)>)
    ensures PointNumber(ring) == 0 ==> r == Err(ZeroDivisionError)
    ensures Oriented(ring) ==> r.Ok?
    ensures r.Ok? ==> r.value.0 < |ring| && Backwards(ring, r.value.0).Ok?
    ensures r.Ok? && WellFormed(ring) ==>
      var (ci, t) := r.value;
      var p := Position(ring, i);
      && Prefix(ring, ci) <= p <= Prefix(ring, ci + 1)
      && (p > 0 ==> Prefix(ring, ci) < p)
      && 0 <= t < |ring[ci]|
      && ring[ci][t] == Along(ring, ci, p - Prefix(ring, ci))
  {
    var n := PointNumber(ring);
    assert WellFormed(ring) ==> n >= 1 by {
      if WellFormed(ring) { PointNumberBound(ring); }
    }
    if n == 0 then Err(ZeroDivisionError)
    else
      var p := ListUtil.PyMod(i, n);
      PointNumberIsLastBoundary(ring);
      var ci := ChainIndexAt(ring, p);
      assert ci < |ring|;
      var back :- Backwards(ring, ci);
      Ok((ci, if back then Prefix(ring, ci + 1) - p else p - Prefix(ring, ci)))
  }

  /** `get_point`: the point at ring position `i`. */
  function GetPoint(ring: Ring, i: int): (r: Result<PointId>)
    ensures PointNumber(ring) == 0 ==> r == Err(ZeroDivisionError)
    ensures Oriented(ring) ==> r.Ok?
  {
    var ct :- GetChainAndIndexAt(ring, i);
    ListUtil.PyGet(ring[ct.0], ct.1)
  }

  /** Two chains whose ranges both hold position `q` agree on its point: in
      a closed loop they can only meet at a junction. */
  lemma AlongAgree(ring: Ring, q: int, k1: nat, k2: nat)
    requires Closed(ring) && k1 < |ring| && k2 < |ring|
    requires Prefix(ring, k1) <= q <= Prefix(ring, k1 + 1)
    requires Prefix(ring, k2) <= q <= Prefix(ring, k2 + 1)
    ensures Along(ring, k1, q - Prefix(ring, k1)) == Along(ring, k2, q - Prefix(ring, k2))
  {
    if k1 < k2 {
      OnlyNeighboursOverlap(ring, q, k1, k2);
      JunctionAt(ring, k1);
    } else if k2 < k1 {
      OnlyNeighboursOverlap(ring, q, k2, k1);
      JunctionAt(ring, k2);
    }
  }

  /** Neighbouring chains meet: the last point of one in loop direction is
      the first of the next. */
  lemma JunctionAt(ring: Ring, k: nat)
    requires Closed(ring) && k + 1 < |ring|
    ensures Along(ring, k, |ring[k]| - 1) == Along(ring, k + 1, 0)
  {
    assert Tail(ring, k) == Head(ring, k + 1);
  }

  /** Two different chains' ranges overlap only at the junction of
      neighbours. */
  lemma OnlyNeighboursOverlap(ring: Ring, q: int, k1: nat, k2: nat)
    requires WellFormed(ring) && k1 < k2 < |ring|
    requires Prefix(ring, k1) <= q <= Prefix(ring, k1 + 1)
    requires Prefix(ring, k2) <= q <= Prefix(ring, k2 + 1)
    ensures k2 == k1 + 1 && q == Prefix(ring, k2) && q - Prefix(ring, k1) == |ring[k1]| - 1
  {
    PrefixGrows(ring, k1 + 1, k2);
  }

  /** The addressing theorem: in a closed loop, `get_point(i)` is the point
      any chain covering position `i mod n` has there. */
  lemma GetPointAlong(ring: Ring, i: int, k: nat)
    requires Closed(ring) && k < |ring|
    requires Prefix(ring, k) <= Position(ring, i) <= Prefix(ring, k + 1)
    ensures GetPoint(ring, i) == Ok(Along(ring, k, Position(ring, i) - Prefix(ring, k)))
  {
    var (ci, t) := GetChainAndIndexAt(ring, i).value;
    AlongAgree(ring, Position(ring, i), ci, k);
  }

  /** Positions are taken modulo the point count. */
  lemma GetPointPeriodic(ring: Ring, i: int)
    requires WellFormed(ring)
    ensures GetPoint(ring, i + PointNumber(ring)) == GetPoint(ring, i)
  {
    PointNumberBound(ring);
    ListUtil.PyModPeriodic(i, PointNumber(ring));
  }

  /** `Chain.get_on_blob_point_index`: the ring position of point `j` of
      chain `k` — the chain's first boundary plus `j`, counted from the far
      end when the chain is backwards. */
  function OnBlobPointIndex(ring: Ring, k: nat, j: int): (r: Result<int>)
    requires k < |ring|
    ensures r.Err? <==> Backwards(ring, k).Err?
    ensures r.Ok? && 0 <= j < |ring[k]| ==>
      && Prefix(ring, k) <= r.value <= Prefix(ring, k + 1)
      && Along(ring, k, r.value - Prefix(ring, k)) == ring[k][j]
  {
    var back :- Backwards(ring, k);
    Ok(if back then Prefix(ring, k) + |ring[k]| - 1 - j else Prefix(ring, k) + j)
  }

  /** `get_point` at an unreduced position inside chain `k`'s range reads
      chain `k`: the last boundary equals the point count, which wraps to
      position 0, where the first chain begins and the last one ends. */
  lemma GetPointInRange(ring: Ring, q: int, k: nat)
    requires Closed(ring) && k < |ring|
    requires Prefix(ring, k) <= q <= Prefix(ring, k + 1)
    ensures GetPoint(ring, q) == Ok(Along(ring, k, q - Prefix(ring, k)))
  {
    var n := PointNumber(ring);
    PointNumberIsLastBoundary(ring);
    PrefixGrows(ring, 0, k);
    PrefixGrows(ring, k + 1, |ring|);
    if q < n {
      ListUtil.ModOfShifted(n, q, 0);
      assert Position(ring, q) == q;
      GetPointAlong(ring, q, k);
    } else {
      assert k == |ring| - 1 && q - Prefix(ring, k) == |ring[k]| - 1;
      ListUtil.ModOfShifted(n, 0, 1);
      assert Position(ring, q) == 0;
      GetPointAlong(ring, q, 0);
      assert Tail(ring, k) == Head(ring, 0);
    }
  }

  /** `get_point` inverts `get_on_blob_point_index` on every point of every
      chain of a closed loop, junctions included. */
  lemma OnBlobRoundTrip(ring: Ring, k: nat, j: int)
    requires Closed(ring) && k < |ring| && 0 <= j < |ring[k]|
    ensures OnBlobPointIndex(ring, k, j).Ok?
    ensures GetPoint(ring, OnBlobPointIndex(ring, k, j).value) == Ok(ring[k][j])
  {
    GetPointInRange(ring, OnBlobPointIndex(ring, k, j).value, k);
  }

  /** On a chain's interior points `get_chain_and_on_chain_point_index_at`
      inverts `get_on_blob_point_index` exactly. */
  lemma IndexAtInvertsOnBlob(ring: Ring, k: nat, j: int)
    requires Oriented(ring) && k < |ring| && 0 < j < |ring[k]| - 1
    ensures OnBlobPointIndex(ring, k, j).Ok?
    ensures GetChainAndIndexAt(ring, OnBlobPointIndex(ring, k, j).value) == Ok((k, j))
  {
    var back := Backwards(ring, k).value;
    var q := OnBlobPointIndex(ring, k, j).value;
    assert q == if back then Prefix(ring, k) + |ring[k]| - 1 - j else Prefix(ring, k) + j;
    assert Prefix(ring, k) < q < Prefix(ring, k + 1);
    var n := PointNumber(ring);
    PointNumberIsLastBoundary(ring);
    PrefixGrows(ring, 0, k);
    PrefixGrows(ring, k + 1, |ring|);
    ListUtil.ModOfShifted(n, q, 0);
    assert Position(ring, q) == q;
    ChainIndexUnique(ring, q, k);
  }

  // ---------------------------------------------------------------------
  // Intersections: the ring positions where two chains meet.

  /** Chain `k` of the ring starts at flat position `p`. Kept as a named,
      non-recursive predicate so that quantifiers over it trigger on the
      predicate rather than on the recursive `Prefix`. */
  predicate StartsAt(ring: Ring, k: nat, p: int) {
    k < |ring| && Prefix(ring, k) == p
  }

  /** The scan of `is_intersection_at`: walk the boundaries `Prefix(k)` for
      `k < m` and answer at the first one that reaches `p`. */
  function IntersectionScan(ring: Ring, p: int, k: nat): (r: bool)
    requires k <= |ring|
    ensures WellFormed(ring) ==> (r <==> exists j: nat :: k <= j && StartsAt(ring, j, p))
    decreases |ring| - k
  {
    if k == |ring| then false
    else if Prefix(ring, k) == p then
      assert StartsAt(ring, k, p);
      true
    else if Prefix(ring, k) > p then
      assert WellFormed(ring) ==> forall j: nat :: k <= j ==> !StartsAt(ring, j, p) by {
        if WellFormed(ring) {
          forall j: nat | k <= j < |ring| ensures Prefix(ring, j) > p {
            PrefixGrows(ring, k, j);
          }
        }
      }
      false
    else IntersectionScan(ring, p, k + 1)
  }

  /** `is_intersection_at`: position `i mod n` is a chain boundary. */
  function IsIntersectionAt(ring: Ring, i: int): (r: Result<bool>)
    ensures r.Err? <==> PointNumber(ring) == 0
    ensures r.Err? ==> r.error == ZeroDivisionError
    ensures WellFormed(ring) ==>
      r.Ok? && (r.value <==> exists k: nat :: StartsAt(ring, k, Position(ring, i)))
  {
    var n := PointNumber(ring);
    assert WellFormed(ring) ==> n >= 1 by {
      if WellFormed(ring) { PointNumberBound(ring); }
    }
    if n == 0 then Err(ZeroDivisionError)
    else
      assert WellFormed(ring) ==> Position(ring, i) == ListUtil.PyMod(i, n);
      Ok(IntersectionScan(ring, ListUtil.PyMod(i, n), 0))
  }

  /** Membership in `[0] + intersection_indexes` is the same test: the last
      boundary is the point count, which no reduced position reaches. */
  lemma IntersectionIsBoundary(ring: Ring, i: int)
    requires WellFormed(ring)
    ensures IsIntersectionAt(ring, i).value <==> Position(ring, i) in Boundaries(ring)
  {
    var p := Position(ring, i);
    PointNumberIsLastBoundary(ring);
    if p in Boundaries(ring) {
      var k :| 0 <= k <= |ring| && Boundaries(ring)[k] == p;
      assert StartsAt(ring, k, p);
    }
    if IsIntersectionAt(ring, i).value {
      var k: nat :| StartsAt(ring, k, p);
      assert Boundaries(ring)[k] == p;
    }
  }

  /** The scan of `get_chains_indexes_at_intersection`, remembering the
      previous chain (the last one before chain 0). */
  function IntersectionChainsScan(ring: Ring, p: int, k: nat, prev: nat): (r: Result<(nat, nat)>)
    requires k <= |ring| && prev == (if k == 0 then |ring| - 1 else k - 1)
    ensures r.Err? <==> forall j: nat :: k <= j ==> !StartsAt(ring, j, p)
    ensures r.Err? ==> r.error == ValueError
    ensures r.Ok? ==>
      var (a, b) := r.value;
      && k <= b && StartsAt(ring, b, p)
      && (forall j: nat :: k <= j < b ==> !StartsAt(ring, j, p))
      && a == (b + |ring| - 1) % |ring|
    decreases |ring| - k
  {
    if k == |ring| then Err(ValueError)
    else if Prefix(ring, k) == p then
      assert prev == (k + |ring| - 1) % |ring| by {
        ListUtil.ModOfShifted(|ring|, prev, if k == 0 then 0 else 1);
      }
      assert StartsAt(ring, k, p);
      Ok((prev, k))
    else IntersectionChainsScan(ring, p, k + 1, k)
  }

  /** `get_chains_indexes_at_intersection`: the chains before and after the
      junction at position `i mod n` — the first chain starting there and its
      predecessor in the loop; `ValueError` when no chain starts there. */
  function ChainsIndexesAtIntersection(ring: Ring, i: int): (r: Result<(nat, nat)>)
    ensures PointNumber(ring) == 0 ==> r == Err(ZeroDivisionError)
    ensures PointNumber(ring) != 0 && r.Err? ==> r.error == ValueError
    ensures WellFormed(ring) ==> (r.Ok? <==> IsIntersectionAt(ring, i) == Ok(true))
    ensures r.Ok? && WellFormed(ring) ==>
      var (a, b) := r.value;
      b < |ring| && Prefix(ring, b) == Position(ring, i) && a == (b + |ring| - 1) % |ring|
  {
    var n := PointNumber(ring);
    if n == 0 then Err(ZeroDivisionError)
    else IntersectionChainsScan(ring, ListUtil.PyMod(i, n), 0, |ring| - 1)
  }

  /** At the boundary closing chain `k` the chains are `k` and its successor
      (the last boundary is position 0, between the last chain and the
      first). */
  lemma ChainsAroundBoundary(ring: Ring, k: nat)
    requires WellFormed(ring) && k < |ring|
    ensures ChainsIndexesAtIntersection(ring, Prefix(ring, k + 1)) == Ok((k, (k + 1) % |ring|))
  {
    var m := |ring|;
    var n := PointNumber(ring);
    PointNumberIsLastBoundary(ring);
    PrefixGrows(ring, 0, k + 1);
    PointNumberBound(ring);
    var next := if k + 1 < m then k + 1 else 0;
    var p := ListUtil.PyMod(Prefix(ring, k + 1), n);
    if k + 1 < m {
      PrefixGrows(ring, k + 1, m);
      ListUtil.ModOfShifted(n, Prefix(ring, k + 1), 0);
      ListUtil.ModOfShifted(m, k + 1, 0);
    } else {
      ListUtil.ModOfShifted(n, 0, 1);
      ListUtil.ModOfShifted(m, 0, 1);
    }
    assert StartsAt(ring, next, p);
    var r := ChainsIndexesAtIntersection(ring, Prefix(ring, k + 1));
    assert r == IntersectionChainsScan(ring, p, 0, m - 1);
    StartsAtUnique(ring, r.value.1, next, p);
    if next == 0 {
      ListUtil.ModOfShifted(m, m - 1, 0);
    } else {
      ListUtil.ModOfShifted(m, k, 1);
    }
  }

  /** Chain starts strictly increase, so at most one chain starts at a
      given position. */
  lemma StartsAtUnique(ring: Ring, a: nat, b: nat, p: int)
    requires WellFormed(ring) && StartsAt(ring, a, p) && StartsAt(ring, b, p)
    ensures a == b
  {
    if a < b { PrefixGrows(ring, a, b); }
    if b < a { PrefixGrows(ring, b, a); }
  }

  /** `get_chains_at_intersection`: the two chains themselves. */
  function ChainsAtIntersection(ring: Ring, i: int): (r: Result<(seq<PointId>, seq<PointId>)>)
    ensures r.Ok? <==> ChainsIndexesAtIntersection(ring, i).Ok?
    ensures r.Ok? ==>
      var (a, b) := ChainsIndexesAtIntersection(ring, i).value;
      a < |ring| && b < |ring| && r.value == (ring[a], ring[b])
  {
    var ab :- ChainsIndexesAtIntersection(ring, i);
    assert ab.0 < |ring| by {
      if ab.1 == 0 { ListUtil.ModOfShifted(|ring|, |ring| - 1, 0); }
      else { ListUtil.ModOfShifted(|ring|, ab.1 - 1, 1); }
    }
    Ok((ring[ab.0], ring[ab.1]))
  }

  /** In a closed loop the two chains at an intersection both end at the
      point there. */
  lemma IntersectionChainsShareThePoint(ring: Ring, i: int)
    requires Closed(ring) && ChainsIndexesAtIntersection(ring, i).Ok?
    ensures var (a, b) := ChainsIndexesAtIntersection(ring, i).value;
      a < |ring| && b < |ring| &&
      GetPoint(ring, i).value in Chains.Endpoints(ring[a]) * Chains.Endpoints(ring[b])
  {
    var (a, b) := ChainsIndexesAtIntersection(ring, i).value;
    var m := |ring|;
    var p := Position(ring, i);
    PrefixGrows(ring, b, b + 1);
    GetPointAlong(ring, i, b);
    assert GetPoint(ring, i).value == Head(ring, b);
    if b == 0 {
      ListUtil.ModOfShifted(m, m - 1, 0);
      assert a == m - 1;
      assert Tail(ring, a) == Head(ring, 0);
    } else {
      ListUtil.ModOfShifted(m, b - 1, 1);
      assert a == b - 1;
      GetPointAlong(ring, i, a);
      assert GetPoint(ring, i).value == Tail(ring, a);
    }
  }

  // ---------------------------------------------------------------------
  // The chains at a point, and the chain two points share.

  /** Positions that agree modulo the point count name the same point. */
  lemma GetPointCongruent(ring: Ring, i: int, j: int)
    requires PointNumber(ring) != 0
    requires ListUtil.PyMod(i, PointNumber(ring)) == ListUtil.PyMod(j, PointNumber(ring))
    ensures GetPoint(ring, i) == GetPoint(ring, j)
  {
    assert GetChainAndIndexAt(ring, i) == GetChainAndIndexAt(ring, j);
  }

  /** `get_chains_indexes_at_point`: at a junction the chain ending there and
      the chain starting there; elsewhere the one chain holding the
      position. */
  function ChainsIndexesAtPoint(ring: Ring, i: int): (r: Result<seq<nat>>)
    ensures PointNumber(ring) == 0 ==> r == Err(ZeroDivisionError)
    ensures WellFormed(ring) ==> r.Ok?
    ensures r.Ok? ==> 1 <= |r.value| <= 2
    ensures WellFormed(ring) ==>
      && (|r.value| == 2 <==> IsIntersectionAt(ring, i) == Ok(true))
      && forall t :: 0 <= t < |r.value| ==> r.value[t] < |ring|
  {
    var n := PointNumber(ring);
    assert WellFormed(ring) ==> n >= 1 by {
      if WellFormed(ring) { PointNumberBound(ring); }
    }
    if n == 0 then Err(ZeroDivisionError)
    else
      var p := ListUtil.PyMod(i, n);
      ListUtil.PyModIdempotent(i, n);
      assert WellFormed(ring) ==> (IsIntersectionAt(ring, i) == Ok(true) <==> p in Boundaries(ring)) by {
        if WellFormed(ring) { IntersectionIsBoundary(ring, i); }
      }
      if p in Boundaries(ring) then
        var ab :- ChainsIndexesAtIntersection(ring, p);
        assert WellFormed(ring) ==> ab.0 < |ring| by {
          if WellFormed(ring) {
            if ab.1 == 0 { ListUtil.ModOfShifted(|ring|, |ring| - 1, 0); }
            else { ListUtil.ModOfShifted(|ring|, ab.1 - 1, 1); }
          }
        }
        Ok([ab.0, ab.1])
      else
        assert WellFormed(ring) ==> ChainIndexAt(ring, p) < |ring| by {
          if WellFormed(ring) { PointNumberIsLastBoundary(ring); }
        }
        Ok([ChainIndexAt(ring, p)])
  }

  /** In a closed loop every chain `get_chains_indexes_at_point` lists holds
      the point at that position. */
  lemma ChainsAtPointHoldThePoint(ring: Ring, i: int, t: nat)
    requires Closed(ring) && t < |ChainsIndexesAtPoint(ring, i).value|
    ensures GetPoint(ring, i).value in ring[ChainsIndexesAtPoint(ring, i).value[t]]
  {
    var n := PointNumber(ring);
    PointNumberBound(ring);
    var p := Position(ring, i);
    var c := ChainsIndexesAtPoint(ring, i).value[t];
    ListUtil.PyModIdempotent(i, n);
    if p in Boundaries(ring) {
      var (a, b) := ChainsIndexesAtIntersection(ring, p).value;
      IntersectionChainsShareThePoint(ring, p);
      GetPointCongruent(ring, i, p);
      var x := GetPoint(ring, i).value;
      assert x in Chains.Endpoints(ring[c]);
    } else {
      assert Prefix(ring, 0) == 0;
      assert Prefix(ring, c) < p <= Prefix(ring, c + 1);
      GetPointAlong(ring, i, c);
    }
  }

  /** Chain `c` holds the point at position `j`. */
  predicate Holds(ring: Ring, c: nat, j: int) {
    c < |ring| && GetPoint(ring, j).Ok? && GetPoint(ring, j).value in ring[c]
  }

  /** The loop of `get_points_common_chain_index`: the first listed chain
      that holds the point at position `j`. The chain is read before the
      point is looked up, so a bad index raises first. */
  function FirstHolding(ring: Ring, idxs: seq<nat>, j: int): (r: Result<nat>)
    ensures r.Ok? ==> r.value in idxs && Holds(ring, r.value, j)
    ensures (forall t :: 0 <= t < |idxs| ==> idxs[t] < |ring|) && GetPoint(ring, j).Ok? ==>
      && (r.Err? <==> forall t :: 0 <= t < |idxs| ==> !Holds(ring, idxs[t], j))
      && (r.Err? ==> r.error == RuntimeError)
  {
    if idxs == [] then Err(RuntimeError)
    else if idxs[0] >= |ring| then Err(IndexError)
    else
      var q :- GetPoint(ring, j);
      if q in ring[idxs[0]] then Ok(idxs[0])
      else FirstHolding(ring, idxs[1..], j)
  }

  /** `get_points_common_chain_index`: the first chain at position `i` that
      also holds the point at position `j`; `RuntimeError` when none does. */
  function PointsCommonChainIndex(ring: Ring, i: int, j: int): (r: Result<nat>)
    ensures PointNumber(ring) == 0 ==> r == Err(ZeroDivisionError)
    ensures r.Ok? ==> Holds(ring, r.value, j)
    ensures WellFormed(ring) && r.Ok? ==> r.value in ChainsIndexesAtPoint(ring, i).value
    ensures Oriented(ring) ==>
      var idxs := ChainsIndexesAtPoint(ring, i).value;
      && (r.Err? <==> forall t :: 0 <= t < |idxs| ==> !Holds(ring, idxs[t], j))
      && (r.Err? ==> r.error == RuntimeError)
  {
    var idxs :- ChainsIndexesAtPoint(ring, i);
    FirstHolding(ring, idxs, j)
  }

  /** In a closed loop a point and the next one always share a chain, and
      the chain `get_points_common_chain_index` picks holds both. */
  lemma NeighboursShareChain(ring: Ring, i: int)
    requires Closed(ring)
    ensures PointsCommonChainIndex(ring, i, i + 1).Ok?
    ensures Holds(ring, PointsCommonChainIndex(ring, i, i + 1).value, i)
    ensures Holds(ring, PointsCommonChainIndex(ring, i, i + 1).value, i + 1)
  {
    var idxs := ChainsIndexesAtPoint(ring, i).value;
    var s := NextHeldByListedChain(ring, i);
    assert !(forall t :: 0 <= t < |idxs| ==> !Holds(ring, idxs[t], i + 1));
    var r := PointsCommonChainIndex(ring, i, i + 1).value;
    var t :| 0 <= t < |idxs| && idxs[t] == r;
    ChainsAtPointHoldThePoint(ring, i, t);
  }

  /** One of the chains listed at position `i` holds the point at `i + 1`:
      the chain starting at a junction, or the chain whose interior holds
      position `i`. */
  lemma NextHeldByListedChain(ring: Ring, i: int) returns (t: nat)
    requires Closed(ring)
    ensures t < |ChainsIndexesAtPoint(ring, i).value|
    ensures Holds(ring, ChainsIndexesAtPoint(ring, i).value[t], i + 1)
  {
    var n := PointNumber(ring);
    PointNumberBound(ring);
    var p := Position(ring, i);
    ListUtil.PyModIdempotent(i, n);
    ListUtil.ModAddLeft(n, i, 1);
    GetPointCongruent(ring, i + 1, p + 1);
    var idxs := ChainsIndexesAtPoint(ring, i).value;
    if p in Boundaries(ring) {
      t := 1;
      NextHeldAfter(ring, p, idxs[1]);
    } else {
      t := 0;
      assert Boundaries(ring)[idxs[0] + 1] == Prefix(ring, idxs[0] + 1);
      NextHeldAfter(ring, p, idxs[0]);
    }
  }

  /** When position `p` lies in chain `c`'s range short of its last
      boundary, chain `c` also holds the point at `p + 1`. */
  lemma NextHeldAfter(ring: Ring, p: int, c: nat)
    requires Closed(ring) && c < |ring|
    requires Prefix(ring, c) <= p < Prefix(ring, c + 1)
    ensures Holds(ring, c, p + 1)
  {
    GetPointInRange(ring, p + 1, c);
  }

  // ---------------------------------------------------------------------
  // The chain carrying the link between two neighbouring positions.

  /** `get_chain_and_indexes_of_neighbors` as written: the chain is the one
      `get_points_common_chain_index` picks, and both local indexes are
      measured from that chain's boundaries (a `j` of 0 is read as the point
      count). At a junction the picked chain can be the one ending there,
      which need not carry the link. */
  function ChainAndIndexesOfNeighborsAsWritten(ring: Ring, i: int, j: int): (r: Result<(nat, int, int)>)
    ensures PointNumber(ring) == 0 ==> r == Err(ZeroDivisionError)
    ensures r.Ok? ==> Holds(ring, r.value.0, j)
  {
    var c :- PointsCommonChainIndex(ring, i, j);
    var j' := if j == 0 then PointNumber(ring) else j;
    var back :- Backwards(ring, c);
    Ok((c, LocalIndex(ring, c, i), LocalIndex(ring, c, j')))
  }

  /** Position `j` comes right after position `i` in the loop. */
  predicate NextPosition(ring: Ring, i: int, j: int) {
    PointNumber(ring) != 0 &&
    ListUtil.PyMod(j, PointNumber(ring)) == ListUtil.PyMod(i + 1, PointNumber(ring))
  }

  /** The link from position `i` to the next position `j` lies on the chain
      holding position `p + 1`, where `p` is `i` reduced; both local indexes
      are measured on that chain. `RuntimeError`, the error the source's
      neighbour checks raise, when `j` is not the position after `i`. */
  function ChainAndIndexesOfNeighbors(ring: Ring, i: int, j: int): (r: Result<(nat, int, int)>)
    ensures PointNumber(ring) == 0 ==> r == Err(ZeroDivisionError)
    ensures Oriented(ring) ==> (r.Err? <==> !NextPosition(ring, i, j))
    ensures Oriented(ring) && r.Err? ==> r.error == RuntimeError
    ensures r.Ok? ==> r.value.0 < |ring|
  {
    var n := PointNumber(ring);
    assert WellFormed(ring) ==> n >= 1 by {
      if WellFormed(ring) { PointNumberBound(ring); }
    }
    if n == 0 then Err(ZeroDivisionError)
    else
      var p := ListUtil.PyMod(i, n);
      assert n > 0 ==> ListUtil.PyMod(p + 1, n) == ListUtil.PyMod(i + 1, n) by {
        if n > 0 { ListUtil.ModAddLeft(n, i, 1); }
      }
      if ListUtil.PyMod(j, n) != ListUtil.PyMod(p + 1, n) then Err(RuntimeError)
      else
        var c := ChainIndexAt(ring, p + 1);
        assert WellFormed(ring) ==> c < |ring| by {
          if WellFormed(ring) { PointNumberIsLastBoundary(ring); }
        }
        if c >= |ring| then Err(IndexError)
        else
          var back :- Backwards(ring, c);
          Ok((c, LocalIndex(ring, c, p), LocalIndex(ring, c, p + 1)))
  }

  /** The chain holding position `p + 1` also holds `p`, short of its last
      boundary. */
  lemma LinkChainRange(ring: Ring, p: int)
    requires WellFormed(ring) && 0 <= p < PointNumber(ring)
    ensures ChainIndexAt(ring, p + 1) < |ring|
    ensures Prefix(ring, ChainIndexAt(ring, p + 1)) <= p < Prefix(ring, ChainIndexAt(ring, p + 1) + 1)
  {
    PointNumberIsLastBoundary(ring);
    assert Prefix(ring, 0) == 0;
  }

  /** The local index of position `q` on chain `k`: from the chain's first
      boundary, or from its last one when the chain is backwards. */
  function LocalIndex(ring: Ring, k: nat, q: int): int
    requires k < |ring| && Backwards(ring, k).Ok?
  {
    if Backwards(ring, k).value then Prefix(ring, k + 1) - q else q - Prefix(ring, k)
  }

  /** The local index of position `q` on chain `k`, counted from the far
      end when the chain is backwards, reads the point `Along` gives. */
  lemma LocalIndexAlong(ring: Ring, k: nat, q: int)
    requires WellFormed(ring) && k < |ring| && Backwards(ring, k).Ok?
    requires Prefix(ring, k) <= q <= Prefix(ring, k + 1)
    ensures 0 <= LocalIndex(ring, k, q) < |ring[k]|
    ensures ring[k][LocalIndex(ring, k, q)] == Along(ring, k, q - Prefix(ring, k))
  {
  }

  /** What `ChainAndIndexesOfNeighbors` returns on an oriented ring for a
      position and its successor. */
  lemma NeighborsResult(ring: Ring, i: int, j: int)
    requires Oriented(ring) && NextPosition(ring, i, j)
    ensures var p := Position(ring, i);
      var c := ChainIndexAt(ring, p + 1);
      && c < |ring|
      && ChainAndIndexesOfNeighbors(ring, i, j) == Ok((c, LocalIndex(ring, c, p), LocalIndex(ring, c, p + 1)))
  {
    LinkChainRange(ring, Position(ring, i));
  }

  /** In a closed loop the link from any position to the next lies on the
      chain returned: both local indexes are on the chain, one apart, and
      name the two points. */
  lemma NeighborsOnOneChain(ring: Ring, i: int, j: int)
    requires Closed(ring) && NextPosition(ring, i, j)
    ensures ChainAndIndexesOfNeighbors(ring, i, j).Ok?
    ensures var (c, t1, t2) := ChainAndIndexesOfNeighbors(ring, i, j).value;
      && 0 <= t1 < |ring[c]| && 0 <= t2 < |ring[c]|
      && (t1 - t2 == 1 || t2 - t1 == 1)
      && GetPoint(ring, i) == Ok(ring[c][t1])
      && GetPoint(ring, j) == Ok(ring[c][t2])
  {
    var p := Position(ring, i);
    var c := ChainIndexAt(ring, p + 1);
    NeighborsResult(ring, i, j);
    LinkChainRange(ring, p);
    NeighborPointsAt(ring, i, j, c);
  }

  /** The points at a position and its successor, read on a chain whose
      range covers both. */
  lemma NeighborPointsAt(ring: Ring, i: int, j: int, c: nat)
    requires Closed(ring) && NextPosition(ring, i, j) && c < |ring|
    requires Prefix(ring, c) <= Position(ring, i) < Prefix(ring, c + 1)
    ensures 0 <= LocalIndex(ring, c, Position(ring, i)) < |ring[c]|
    ensures 0 <= LocalIndex(ring, c, Position(ring, i) + 1) < |ring[c]|
    ensures GetPoint(ring, i) == Ok(ring[c][LocalIndex(ring, c, Position(ring, i))])
    ensures GetPoint(ring, j) == Ok(ring[c][LocalIndex(ring, c, Position(ring, i) + 1)])
  {
    var n := PointNumber(ring);
    var p := Position(ring, i);
    ListUtil.PyModIdempotent(i, n);
    ListUtil.ModAddLeft(n, i, 1);
    GetPointLocal(ring, i, p, c);
    GetPointLocal(ring, j, p + 1, c);
  }

  /** A position congruent to `q`, where `q` lies in chain `c`'s range,
      reads chain `c` at `q`'s local index. */
  lemma GetPointLocal(ring: Ring, x: int, q: int, c: nat)
    requires Closed(ring) && c < |ring|
    requires Prefix(ring, c) <= q <= Prefix(ring, c + 1)
    requires PointNumber(ring) != 0
    requires ListUtil.PyMod(x, PointNumber(ring)) == ListUtil.PyMod(q, PointNumber(ring))
    ensures 0 <= LocalIndex(ring, c, q) < |ring[c]|
    ensures GetPoint(ring, x) == Ok(ring[c][LocalIndex(ring, c, q)])
  {
    LocalIndexAlong(ring, c, q);
    GetPointCongruent(ring, x, q);
    GetPointInRange(ring, q, c);
  }

  /** Away from junctions the as-written lookup agrees with the corrected
      one: the only chain at such a position carries the link. */
  lemma NeighborsAsWrittenAgreesOffJunctions(ring: Ring, i: int)
    requires Closed(ring) && 0 <= i < PointNumber(ring)
    requires IsIntersectionAt(ring, i) == Ok(false)
    ensures var j := (i + 1) % PointNumber(ring);
      ChainAndIndexesOfNeighborsAsWritten(ring, i, j) == ChainAndIndexesOfNeighbors(ring, i, j)
  {
    var n := PointNumber(ring);
    var j := (i + 1) % n;
    ListUtil.ModOfShifted(n, i, 0);
    ListUtil.ModAddLeft(n, i, 1);
    ListUtil.PyModIdempotent(i + 1, n);
    assert NextPosition(ring, i, j);
    CommonChainOffJunction(ring, i, j);
    NeighborsAsWrittenAgrees(ring, i);
  }

  /** The as-written lookup agrees with the corrected one whenever the chain
      `get_points_common_chain_index` picks is the chain carrying the link,
      junction or not. */
  lemma NeighborsAsWrittenAgrees(ring: Ring, i: int)
    requires Oriented(ring) && 0 <= i < PointNumber(ring)
    requires PointsCommonChainIndex(ring, i, (i + 1) % PointNumber(ring)) == Ok(ChainIndexAt(ring, i + 1))
    ensures var j := (i + 1) % PointNumber(ring);
      ChainAndIndexesOfNeighborsAsWritten(ring, i, j) == ChainAndIndexesOfNeighbors(ring, i, j)
  {
    var n := PointNumber(ring);
    var j := (i + 1) % n;
    ListUtil.ModOfShifted(n, i, 0);
    ListUtil.ModAddLeft(n, i, 1);
    assert Position(ring, i) == i;
    ListUtil.PyModIdempotent(i + 1, n);
    assert NextPosition(ring, i, j);
    LinkChainRange(ring, i);
    ListUtil.ModNext(n, i);
    NeighborsResult(ring, i, j);
    AsWrittenFromChain(ring, i, j, ChainIndexAt(ring, i + 1), i + 1);
  }

  /** Once the common chain `c` is known, the as-written lookup measures
      `i` and the next position `q` on it. */
  lemma AsWrittenFromChain(ring: Ring, i: int, j: int, c: nat, q: int)
    requires PointsCommonChainIndex(ring, i, j) == Ok(c)
    requires c < |ring| && Backwards(ring, c).Ok?
    requires (if j == 0 then PointNumber(ring) else j) == q
    ensures ChainAndIndexesOfNeighborsAsWritten(ring, i, j) == Ok((c, LocalIndex(ring, c, i), LocalIndex(ring, c, q)))
  {
  }

  /** Off a junction the one chain at position `i` is the chain holding
      `i + 1`, and it holds the point at the next position. */
  lemma CommonChainOffJunction(ring: Ring, i: int, j: int)
    requires Closed(ring) && 0 <= i < PointNumber(ring) && NextPosition(ring, i, j)
    requires IsIntersectionAt(ring, i) == Ok(false)
    ensures PointsCommonChainIndex(ring, i, j) == Ok(ChainIndexAt(ring, i + 1))
  {
    var n := PointNumber(ring);
    ListUtil.ModOfShifted(n, i, 0);
    var p := Position(ring, i);
    assert p == i;
    IntersectionIsBoundary(ring, i);
    var idxs := ChainsIndexesAtPoint(ring, i).value;
    assert idxs == [ChainIndexAt(ring, p)];
    LinkChainRange(ring, p);
    var c := ChainIndexAt(ring, p + 1);
    assert Boundaries(ring)[c] == Prefix(ring, c);
    ChainIndexUnique(ring, p, c);
    var t := NextHeldByListedChain(ring, i);
    ListUtil.ModAddLeft(n, i, 1);
    GetPointCongruent(ring, j, i + 1);
    assert Holds(ring, idxs[0], j);
  }

  /** A two-chain loop `A-B`, `B-X-A`: the as-written lookup for the link
      from position 0 (A) to position 1 (B) picks the second chain, which
      ends at A, and returns the local indexes -1 and 0; the link lies on
      the first chain, at local indexes 0 and 1. */
  lemma NeighborsAsWrittenAtJunction()
    ensures Closed([[0, 1], [1, 2, 0]])
    ensures ChainAndIndexesOfNeighborsAsWritten([[0, 1], [1, 2, 0]], 0, 1) == Ok((1, -1, 0))
    ensures ChainAndIndexesOfNeighbors([[0, 1], [1, 2, 0]], 0, 1) == Ok((0, 0, 1))
  {
    var ring: Ring := [[0, 1], [1, 2, 0]];
    assert Prefix(ring, 1) == 1 && Prefix(ring, 2) == 3;
    assert PointNumber(ring) == 3;
    assert Backwards(ring, 0) == Ok(false) && Backwards(ring, 1) == Ok(false);
    assert Closed(ring);
  }

  // ---------------------------------------------------------------------
  // The run of chains between two junctions.

  /** `get_chains_between_intersections`: the chains from the one starting
      at junction `s` forward to the one ending at junction `e`, wrapping
      around the loop. `RuntimeError` when either position is not a
      junction, `ValueError` when the two arguments are equal. */
  method GetChainsBetweenIntersections(ring: Ring, s: int, e: int) returns (r: Result<seq<nat>>)
    ensures PointNumber(ring) == 0 ==> r == Err(ZeroDivisionError)
    ensures WellFormed(ring) ==>
      (r.Err? <==> IsIntersectionAt(ring, s) == Ok(false) || IsIntersectionAt(ring, e) == Ok(false) || s == e)
    ensures WellFormed(ring) && r.Err? ==>
      r.error == if IsIntersectionAt(ring, s) == Ok(false) || IsIntersectionAt(ring, e) == Ok(false)
                 then RuntimeError else ValueError
    ensures r.Ok? ==> ChainsIndexesAtIntersection(ring, s).Ok? && ChainsIndexesAtIntersection(ring, e).Ok?
    ensures r.Ok? && ChainsIndexesAtIntersection(ring, s).Ok? && ChainsIndexesAtIntersection(ring, e).Ok? ==>
      var run := r.value;
      var first := ChainsIndexesAtIntersection(ring, s).value.1;
      var last := ChainsIndexesAtIntersection(ring, e).value.0;
      && 1 <= |run| <= |ring|
      && |run| == (last - first) % |ring| + 1
      && run[0] == first && run[|run| - 1] == last
      && (forall t :: 0 <= t < |run| ==> run[t] == (first + t) % |ring|)
      && (forall t :: 0 <= t < |run| - 1 ==> run[t] != last)
  {
    var isStart := IsIntersectionAt(ring, s);
    if isStart.Err? { return Err(isStart.error); }
    if !isStart.value { return Err(RuntimeError); }
    var isEnd := IsIntersectionAt(ring, e).value;
    if !isEnd { return Err(RuntimeError); }
    if s == e { return Err(ValueError); }
    var atStart := ChainsIndexesAtIntersection(ring, s);
    if atStart.Err? { return Err(atStart.error); }
    var atEnd := ChainsIndexesAtIntersection(ring, e);
    if atEnd.Err? { return Err(atEnd.error); }
    var first, last := atStart.value.1, atEnd.value.0;
    var m := |ring|;
    assert last < m by {
      var b := atEnd.value.1;
      if b == 0 { ListUtil.ModOfShifted(m, m - 1, 0); }
      else { ListUtil.ModOfShifted(m, b - 1, 1); }
    }
    var d := (last - first) % m;
    var i := first;
    var run := [first];
    Indexes.CyclicHit(m, first, last, 0);
    ListUtil.ModOfShifted(m, first, 0);
    while i != last
      invariant 1 <= |run| <= d + 1
      invariant i == (first + |run| - 1) % m && i == run[|run| - 1]
      invariant i == last <==> |run| - 1 == d
      invariant run[0] == first
      invariant forall t :: 0 <= t < |run| ==> run[t] == (first + t) % m
      invariant forall t :: 0 <= t < |run| - 1 ==> run[t] != last
      decreases d - |run|
    {
      ListUtil.ModAddLeft(m, first + |run| - 1, 1);
      i := (i + 1) % m;
      run := run + [i];
      Indexes.CyclicHit(m, first, last, |run| - 1);
    }
    return Ok(run);
  }

  // ---------------------------------------------------------------------
  // Cutting a chain at a ring position.

  lemma {:induction false} TotalLengthConcat(x: Ring, y: Ring)
    ensures TotalLength(x + y) == TotalLength(x) + TotalLength(y)
    decreases |x|
  {
    if x != [] {
      assert (x + y)[0] == x[0];
      assert (x + y)[1..] == x[1..] + y;
      TotalLengthConcat(x[1..], y);
    } else {
      assert x + y == y;
    }
  }

  /** A boundary depends only on the chains before it. */
  lemma {:induction false} PrefixOfSameStart(r1: Ring, r2: Ring, k: nat)
    requires k <= |r1| && k <= |r2| && r1[..k] == r2[..k]
    ensures Prefix(r1, k) == Prefix(r2, k)
  {
    if k > 0 {
      assert r1[k - 1] == r1[..k][k - 1] == r2[..k][k - 1] == r2[k - 1];
      assert r1[..k - 1] == r1[..k][..k - 1];
      assert r2[..k - 1] == r2[..k][..k - 1];
      PrefixOfSameStart(r1, r2, k - 1);
    }
  }

  /** The ring with chain `k` replaced by the two pieces `a` and `b`. */
  function SplitChain(ring: Ring, k: nat, a: seq<PointId>, b: seq<PointId>): (r: Ring)
    requires k < |ring|
    ensures |r| == |ring| + 1 && r[k] == a && r[k + 1] == b
    ensures forall j :: 0 <= j < k ==> r[j] == ring[j]
    ensures forall j :: k + 2 <= j < |r| ==> r[j] == ring[j - 1]
    ensures r[..k] == ring[..k]
    ensures TotalLength(r) == TotalLength(ring) - |ring[k]| + |a| + |b|
  {
    var r := ring[..k] + [a, b] + ring[k + 1..];
    assert r[..k] == ring[..k];
    TotalLengthConcat(ring[..k] + [a, b], ring[k + 1..]);
    TotalLengthConcat(ring[..k], [a, b]);
    TotalLengthConcat(ring[..k] + [ring[k]], ring[k + 1..]);
    TotalLengthConcat(ring[..k], [ring[k]]);
    assert ring == ring[..k] + [ring[k]] + ring[k + 1..];
    r
  }

  /** `cut_at`: at a junction, nothing changes and the two chains meeting
      there are returned. Elsewhere the chain holding the position is cut
      at the point's local index (a chain cut raises `ValueError` off its
      interior), the two pieces replace it in loop order (swapped when the
      chain is backwards), and a `RuntimeError` is raised if the position
      is not a junction afterwards. */
  function CutAt(ring: Ring, i: int): (r: Result<(Ring, seq<PointId>, seq<PointId>)>)
    ensures PointNumber(ring) == 0 ==> r == Err(ZeroDivisionError)
    ensures r.Ok? ==> IsIntersectionAt(r.value.0, i) == Ok(true)
  {
    var isJunction :- IsIntersectionAt(ring, i);
    if isJunction then
      var pair :- ChainsAtIntersection(ring, i);
      Ok((ring, pair.0, pair.1))
    else
      var ct :- GetChainAndIndexAt(ring, i);
      var flipped := Backwards(ring, ct.0).value;
      var pieces :- Chains.Cut(Chains.Fresh(ring[ct.0]), {}, ct.1);
      var a := if flipped then pieces.1.points else pieces.0.points;
      var b := if flipped then pieces.0.points else pieces.1.points;
      var ring' := SplitChain(ring, ct.0, a, b);
      var check :- IsIntersectionAt(ring', i);
      if !check then Err(RuntimeError) else Ok((ring', a, b))
  }

  /** On an oriented ring the chain lookup answers with the chain whose
      range holds the position and the position's local index on it. */
  lemma GetChainAndIndexAtIsLocal(ring: Ring, i: int)
    requires Oriented(ring)
    ensures var ci := ChainIndexAt(ring, Position(ring, i));
      && ci < |ring|
      && GetChainAndIndexAt(ring, i) == Ok((ci, LocalIndex(ring, ci, Position(ring, i))))
  {
    PointNumberBound(ring);
    PointNumberIsLastBoundary(ring);
  }

  /** Off a junction, `cut_at` cuts the chain holding the position at a
      local index strictly inside it; the two pieces replace the chain in
      loop order and hold exactly its points, the earlier piece first when
      the chain runs forwards and the later piece first when backwards. */
  lemma CutAtOffJunction(ring: Ring, i: int)
    requires Oriented(ring) && IsIntersectionAt(ring, i) == Ok(false)
    ensures GetChainAndIndexAt(ring, i).Ok?
    ensures var (ci, t) := GetChainAndIndexAt(ring, i).value;
      && 0 < t < |ring[ci]| - 1
      && CutAt(ring, i).Ok?
      && var (ring', a, b) := CutAt(ring, i).value;
      && ring' == SplitChain(ring, ci, a, b)
      && (if Backwards(ring, ci).value then a == ring[ci][t..] && b == ring[ci][..t + 1]
          else a == ring[ci][..t + 1] && b == ring[ci][t..])
  {
    var ci, t := OffJunctionInside(ring, i);
    var back := Backwards(ring, ci).value;
    var c := ring[ci];
    var a := if back then c[t..] else c[..t + 1];
    var b := if back then c[..t + 1] else c[t..];
    var pieces := Chains.Cut(Chains.Fresh(c), {}, t);
    assert pieces.Ok? && pieces.value.0.points == c[..t + 1] && pieces.value.1.points == c[t..];
    CutLandsOnJunction(ring, i, ci, a, b);
    assert CutAt(ring, i) == Ok((SplitChain(ring, ci, a, b), a, b));
  }

  /** Off a junction the position lies strictly inside the range of the
      chain that holds it, at a local index strictly inside the chain. */
  lemma OffJunctionInside(ring: Ring, i: int) returns (ci: nat, t: nat)
    requires Oriented(ring) && IsIntersectionAt(ring, i) == Ok(false)
    ensures ci < |ring| && GetChainAndIndexAt(ring, i) == Ok((ci, t))
    ensures Prefix(ring, ci + 1) == Prefix(ring, ci) + |ring[ci]| - 1
    ensures Prefix(ring, ci) < Position(ring, i) < Prefix(ring, ci + 1)
    ensures t == LocalIndex(ring, ci, Position(ring, i)) && 0 < t < |ring[ci]| - 1
  {
    var m := |ring|;
    var p := Position(ring, i);
    GetChainAndIndexAtIsLocal(ring, i);
    ci := ChainIndexAt(ring, p);
    t := LocalIndex(ring, ci, p);
    PointNumberIsLastBoundary(ring);
    assert Prefix(ring, ci) < p < Prefix(ring, ci + 1) by {
      assert !StartsAt(ring, 0, p);
      assert !StartsAt(ring, ci, p);
      if ci + 1 < m { assert !StartsAt(ring, ci + 1, p); }
    }
  }

  /** After the split the position is where the second piece starts, so
      the rebuilt ring has a junction there and the same point count. */
  lemma CutLandsOnJunction(ring: Ring, i: int, ci: nat, a: seq<PointId>, b: seq<PointId>)
    requires WellFormed(ring) && ci < |ring|
    requires |a| >= 2 && |b| >= 2 && |a| + |b| == |ring[ci]| + 1
    requires Prefix(ring, ci) + |a| - 1 == Position(ring, i)
    ensures WellFormed(SplitChain(ring, ci, a, b))
    ensures PointNumber(SplitChain(ring, ci, a, b)) == PointNumber(ring)
    ensures IsIntersectionAt(SplitChain(ring, ci, a, b), i) == Ok(true)
  {
    var ring' := SplitChain(ring, ci, a, b);
    PrefixOfSameStart(ring', ring, ci);
    assert StartsAt(ring', ci + 1, Position(ring', i));
  }

  /** `cut_at` on an oriented ring never fails, keeps the point count and
      every chain's two endpoints, and adds one chain unless the position
      was a junction already. */
  lemma CutAtKeepsPoints(ring: Ring, i: int)
    requires Oriented(ring)
    ensures CutAt(ring, i).Ok?
    ensures WellFormed(CutAt(ring, i).value.0)
    ensures PointNumber(CutAt(ring, i).value.0) == PointNumber(ring)
    ensures |CutAt(ring, i).value.0| == |ring| + (if IsIntersectionAt(ring, i).value then 0 else 1)
  {
    if !IsIntersectionAt(ring, i).value {
      CutAtOffJunction(ring, i);
      var (ci, t) := GetChainAndIndexAt(ring, i).value;
      var (ring', a, b) := CutAt(ring, i).value;
      GetChainAndIndexAtIsLocal(ring, i);
      PointNumberIsLastBoundary(ring);
      CutLandsOnJunction(ring, i, ci, a, b);
    }
  }

  /** In a closed loop the two chains `cut_at` returns meet at the point at
      the position. */
  lemma CutAtPiecesShareThePoint(ring: Ring, i: int)
    requires Closed(ring)
    ensures CutAt(ring, i).Ok?
    ensures var (_, a, b) := CutAt(ring, i).value;
      GetPoint(ring, i).value in Chains.Endpoints(a) * Chains.Endpoints(b)
  {
    CutAtKeepsPoints(ring, i);
    if IsIntersectionAt(ring, i).value {
      IntersectionChainsShareThePoint(ring, i);
    } else {
      CutAtOffJunction(ring, i);
      GetChainAndIndexAtIsLocal(ring, i);
    }
  }

  /** Cutting twice at the same position changes nothing more: the first
      cut leaves a junction there. */
  lemma CutAtIdempotent(ring: Ring, i: int)
    requires Oriented(ring)
    ensures CutAt(ring, i).Ok?
    ensures var ring' := CutAt(ring, i).value.0;
      CutAt(ring', i).Ok? && CutAt(ring', i).value.0 == ring'
  {
    CutAtKeepsPoints(ring, i);
  }
}

/** The point edits of a blob: a midpoint inserted on a link, a point removed
    away from the junctions, the inner direction at a point, the most crowded
    point, and the guard of `modify_point_number`. Each edit is first stated
    on the ring of point lists, then on the store of records. */
module PointEdits {

  import opened Results
  import opened Points
  import opened Geometry
  import ListUtil
  import Chains
  import opened Rings
  import Blobs
  import opened Worlds

  // ---------------------------------------------------------------------
  // One point more in one chain.

  /** Where slot `u` of chain `c`, counted in loop direction, lies in the
      chain's own point list. */
  function StoragePos(ring: Ring, c: nat, u: nat): (r: nat)
    requires c < |ring| && Backwards(ring, c).Ok? && u <= |ring[c]|
    ensures r <= |ring[c]|
  {
    if Backwards(ring, c).value then |ring[c]| - u else u
  }

  /** The ring with `x` inserted into chain `c`'s point list at `pos`. */
  function InsertInChain(ring: Ring, c: nat, pos: nat, x: PointId): (r: Ring)
    requires c < |ring| && pos <= |ring[c]|
    ensures |r| == |ring| && r[c] == ListUtil.InsertAt(ring[c], pos, x)
    ensures forall k :: 0 <= k < |ring| && k != c ==> r[k] == ring[k]
  {
    ring[c := ListUtil.InsertAt(ring[c], pos, x)]
  }

  /** Two rings whose chains pair up with the same endpoints. */
  predicate SameEnds(ring: Ring, r: Ring) {
    |r| == |ring| &&
    forall k :: 0 <= k < |ring| ==>
      Chains.Start(r[k]) == Chains.Start(ring[k]) && Chains.End(r[k]) == Chains.End(ring[k])
  }

  /** A chain's direction depends only on the chains' endpoints. */
  lemma DirectionAt(ring: Ring, r: Ring, k: int)
    requires SameEnds(ring, r)
    ensures Backwards(r, k) == Backwards(ring, k)
  {
    var m := |ring|;
    if m > 2 && ListUtil.PyIndex(m, k).Some? {
      var idx := ListUtil.PyIndex(m, k).value;
      var nx := (idx + 1) % m;
      assert Chains.CommonEndpoint(r[idx], r[nx], true) == Chains.CommonEndpoint(ring[idx], ring[nx], true);
    }
  }

  /** With the same endpoints, chain `k` has the same direction, first
      point and last point. */
  lemma EndsAt(ring: Ring, r: Ring, k: nat)
    requires SameEnds(ring, r) && k < |ring| && Backwards(ring, k).Ok? && |ring[k]| > 0
    ensures Backwards(r, k) == Backwards(ring, k)
    ensures Head(r, k) == Head(ring, k) && Tail(r, k) == Tail(ring, k)
  {
    DirectionAt(ring, r, k);
    assert Chains.Start(r[k]) == Chains.Start(ring[k]) && Chains.End(r[k]) == Chains.End(ring[k]);
  }

  /** A well-formed ring whose chains have the endpoints of a closed loop's
      chains is closed too. */
  lemma SameEndsClosed(ring: Ring, r: Ring)
    requires Closed(ring) && WellFormed(r) && SameEnds(ring, r)
    ensures Closed(r)
  {
    forall k | 0 <= k < |ring|
      ensures Backwards(r, k).Ok? && Head(r, k) == Head(ring, k) && Tail(r, k) == Tail(ring, k)
    {
      EndsAt(ring, r, k);
    }
  }

  /** An insertion strictly inside a chain keeps its endpoints. */
  lemma InteriorInsertKeepsEnds(s: seq<PointId>, pos: nat, x: PointId)
    requires 1 <= pos < |s|
    ensures Chains.Start(ListUtil.InsertAt(s, pos, x)) == Chains.Start(s)
    ensures Chains.End(ListUtil.InsertAt(s, pos, x)) == Chains.End(s)
  {
    var r := ListUtil.InsertAt(s, pos, x);
    assert r[0] == r[..pos][0] == s[..pos][0];
    assert r[|r| - 1] == r[pos + 1..][|s| - 1 - pos] == s[pos..][|s| - 1 - pos];
  }

  /** Chains after `c` start one position later. */
  lemma {:induction false} PrefixAfterInsert(ring: Ring, c: nat, pos: nat, x: PointId, k: nat)
    requires c < |ring| && pos <= |ring[c]| && k <= |ring|
    ensures Prefix(InsertInChain(ring, c, pos, x), k) == Prefix(ring, k) + (if k > c then 1 else 0)
    decreases k
  {
    if k > 0 {
      PrefixAfterInsert(ring, c, pos, x, k - 1);
    }
  }

  /** An interior insertion keeps every chain's endpoints. */
  lemma InsertKeepsEnds(ring: Ring, c: nat, pos: nat, x: PointId)
    requires c < |ring| && 1 <= pos < |ring[c]|
    ensures SameEnds(ring, InsertInChain(ring, c, pos, x))
  {
    InteriorInsertKeepsEnds(ring[c], pos, x);
  }

  /** An interior insertion keeps the loop closed and adds one position. */
  lemma InsertKeepsClosed(ring: Ring, c: nat, pos: nat, x: PointId)
    requires Closed(ring) && c < |ring| && 1 <= pos < |ring[c]|
    ensures Closed(InsertInChain(ring, c, pos, x))
    ensures PointNumber(InsertInChain(ring, c, pos, x)) == PointNumber(ring) + 1
  {
    var r := InsertInChain(ring, c, pos, x);
    InsertKeepsEnds(ring, c, pos, x);
    assert WellFormed(r);
    SameEndsClosed(ring, r);
    InsertAddsPosition(ring, c, pos, x);
  }

  /** An insertion adds one position to the ring. */
  lemma InsertAddsPosition(ring: Ring, c: nat, pos: nat, x: PointId)
    requires c < |ring| && pos <= |ring[c]|
    ensures PointNumber(InsertInChain(ring, c, pos, x)) == PointNumber(ring) + 1
  {
    PointNumberIsLastBoundary(ring);
    PointNumberIsLastBoundary(InsertInChain(ring, c, pos, x));
    PrefixAfterInsert(ring, c, pos, x, |ring|);
  }

  /** Read in loop direction, the chain gains `x` at slot `u`; the slots
      before keep their points and the slots from `u` on move up by one. */
  lemma AlongAfterInsert(ring: Ring, c: nat, u: nat, x: PointId)
    requires Oriented(ring) && c < |ring| && 1 <= u < |ring[c]|
    ensures var r := InsertInChain(ring, c, StoragePos(ring, c, u), x);
      && Backwards(r, c) == Backwards(ring, c)
      && (forall t :: 0 <= t < u ==> Along(r, c, t) == Along(ring, c, t))
      && Along(r, c, u) == x
      && (forall t :: u <= t < |ring[c]| ==> Along(r, c, t + 1) == Along(ring, c, t))
  {
    var pos := StoragePos(ring, c, u);
    var r := InsertInChain(ring, c, pos, x);
    InsertKeepsEnds(ring, c, pos, x);
    DirectionAt(ring, r, c);
    var s, s' := ring[c], r[c];
    var L := |s|;
    assert s'[..pos] == s[..pos] && s'[pos + 1..] == s[pos..] && s'[pos] == x;
    if Backwards(ring, c).value {
      forall t | 0 <= t < u ensures Along(r, c, t) == Along(ring, c, t) {
        assert s'[L - t] == s'[pos + 1..][L - t - pos - 1];
      }
      forall t | u <= t < L ensures Along(r, c, t + 1) == Along(ring, c, t) {
        assert s'[L - 1 - t] == s'[..pos][L - 1 - t];
      }
    } else {
      forall t | 0 <= t < u ensures Along(r, c, t) == Along(ring, c, t) {
        assert s'[t] == s'[..pos][t];
      }
      forall t | u <= t < L ensures Along(r, c, t + 1) == Along(ring, c, t) {
        assert s'[t + 1] == s'[pos + 1..][t - pos];
      }
    }
  }

  /** The new point sits at position `q`, the one after slot `u - 1` of
      chain `c`. */
  lemma InsertedPointAt(ring: Ring, c: nat, u: nat, x: PointId, q: int)
    requires Closed(ring) && c < |ring| && 1 <= u < |ring[c]|
    requires q == Prefix(ring, c) + u
    ensures GetPoint(InsertInChain(ring, c, StoragePos(ring, c, u), x), q) == Ok(x)
  {
    var pos := StoragePos(ring, c, u);
    var r := InsertInChain(ring, c, pos, x);
    assert Backwards(r, c).Ok? && Along(r, c, u) == x by { AlongAfterInsert(ring, c, u, x); }
    assert Prefix(r, c) == Prefix(ring, c) by { PrefixAfterInsert(ring, c, pos, x, c); }
    assert Closed(r) by { InsertKeepsClosed(ring, c, pos, x); }
    ReadAtSlot(r, c, u, x, q);
  }

  /** `get_point` at the position of slot `t` of chain `k` reads that
      slot. */
  lemma ReadAtSlot(r: Ring, k: nat, t: nat, x: PointId, q: int)
    requires Closed(r) && k < |r| && t < |r[k]| && Along(r, k, t) == x
    requires q == Prefix(r, k) + t
    ensures GetPoint(r, q) == Ok(x)
  {
    GetPointInRange(r, q, k);
  }

  /** Slot `t2` of chain `k` in `r` holds what slot `t1` of chain `k` in
      `ring` holds, so `get_point` reads the same at their positions. */
  lemma ReadsAlike(ring: Ring, r: Ring, k: nat, t1: nat, t2: nat, q1: int, q2: int)
    requires Closed(ring) && Closed(r) && k < |ring| && k < |r|
    requires t1 < |ring[k]| && t2 < |r[k]| && Along(r, k, t2) == Along(ring, k, t1)
    requires q1 == Prefix(ring, k) + t1 && q2 == Prefix(r, k) + t2
    ensures GetPoint(r, q2) == GetPoint(ring, q1)
  {
    ReadAtSlot(ring, k, t1, Along(ring, k, t1), q1);
    ReadAtSlot(r, k, t2, Along(ring, k, t1), q2);
  }

  /** A chain with the same points and direction in two rings reads the
      same in loop direction. */
  lemma AlongSameChain(ring: Ring, r: Ring, k: nat, t: int)
    requires k < |ring| && k < |r| && r[k] == ring[k]
    requires Backwards(ring, k).Ok? && Backwards(r, k) == Backwards(ring, k)
    requires 0 <= t < |ring[k]|
    ensures Along(r, k, t) == Along(ring, k, t)
  {
  }

  /** The chain whose range holds position `q`, short of its last
      boundary. */
  lemma ChainCovering(ring: Ring, q: int) returns (k: nat)
    requires WellFormed(ring) && 0 <= q < PointNumber(ring)
    ensures k < |ring| && Prefix(ring, k) <= q < Prefix(ring, k + 1)
  {
    k := ChainIndexAt(ring, q + 1);
    LinkChainRange(ring, q);
  }

  /** A position before chain `c`'s range lies on an earlier chain; one past
      its range lies on a later chain. */
  lemma ChainOrder(ring: Ring, c: nat, k: nat, q: int)
    requires WellFormed(ring) && c < |ring| && k < |ring|
    requires Prefix(ring, k) <= q < Prefix(ring, k + 1)
    ensures q < Prefix(ring, c) ==> k < c
    ensures q > Prefix(ring, c + 1) ==> k > c
  {
    if k >= c { PrefixGrows(ring, c, k); }
    if k <= c { PrefixGrows(ring, k + 1, c + 1); }
  }

  /** Positions on chain `c` itself read as before, one place later past
      the new point. */
  lemma ReadOnInsertedChain(ring: Ring, c: nat, u: nat, x: PointId, q: int)
    requires Closed(ring) && c < |ring| && 1 <= u < |ring[c]|
    requires Prefix(ring, c) <= q <= Prefix(ring, c + 1)
    ensures var r := InsertInChain(ring, c, StoragePos(ring, c, u), x);
      var p := Prefix(ring, c) + u - 1;
      && (q <= p ==> GetPoint(r, q) == GetPoint(ring, q))
      && (q > p ==> GetPoint(r, q + 1) == GetPoint(ring, q))
  {
    var pos := StoragePos(ring, c, u);
    var r := InsertInChain(ring, c, pos, x);
    var p := Prefix(ring, c) + u - 1;
    var t := q - Prefix(ring, c);
    assert Closed(r) by { InsertKeepsClosed(ring, c, pos, x); }
    assert Prefix(r, c) == Prefix(ring, c) by { PrefixAfterInsert(ring, c, pos, x, c); }
    if q <= p {
      assert Along(r, c, t) == Along(ring, c, t) by { AlongAfterInsert(ring, c, u, x); }
      ReadsAlike(ring, r, c, t, t, q, q);
    } else {
      assert Along(r, c, t + 1) == Along(ring, c, t) by { AlongAfterInsert(ring, c, u, x); }
      ReadsAlike(ring, r, c, t, t + 1, q, q + 1);
    }
  }

  /** An insertion inside chain `c` leaves the loop closed and every other
      chain read the same way. */
  lemma OtherChainAlong(ring: Ring, c: nat, pos: nat, x: PointId, k: nat, t: int)
    requires Closed(ring) && c < |ring| && 1 <= pos < |ring[c]|
    requires k < |ring| && k != c && 0 <= t < |ring[k]|
    ensures var r := InsertInChain(ring, c, pos, x);
      Closed(r) && Along(r, k, t) == Along(ring, k, t)
  {
    var r := InsertInChain(ring, c, pos, x);
    InsertKeepsClosed(ring, c, pos, x);
    InsertKeepsEnds(ring, c, pos, x);
    DirectionAt(ring, r, k);
    AlongSameChain(ring, r, k, t);
  }

  /** Positions on a chain ahead of `c` read as before. */
  lemma ReadBeforeChain(ring: Ring, c: nat, pos: nat, x: PointId, q: int, k: nat)
    requires Closed(ring) && c < |ring| && 1 <= pos < |ring[c]|
    requires k < c && Prefix(ring, k) <= q < Prefix(ring, k + 1)
    ensures GetPoint(InsertInChain(ring, c, pos, x), q) == GetPoint(ring, q)
  {
    var t := q - Prefix(ring, k);
    OtherChainAlong(ring, c, pos, x, k, t);
    PrefixAfterInsert(ring, c, pos, x, k);
    ReadsAlike(ring, InsertInChain(ring, c, pos, x), k, t, t, q, q);
  }

  /** Positions on a chain after `c` read as before, one place later. */
  lemma ReadAfterChain(ring: Ring, c: nat, pos: nat, x: PointId, q: int, q': int, k: nat)
    requires Closed(ring) && c < |ring| && 1 <= pos < |ring[c]|
    requires c < k < |ring| && Prefix(ring, k) <= q < Prefix(ring, k + 1) && q' == q + 1
    ensures GetPoint(InsertInChain(ring, c, pos, x), q') == GetPoint(ring, q)
  {
    var t := q - Prefix(ring, k);
    OtherChainAlong(ring, c, pos, x, k, t);
    PrefixAfterInsert(ring, c, pos, x, k);
    ReadsAlike(ring, InsertInChain(ring, c, pos, x), k, t, t, q, q');
  }

  /** Every other position reads as before the insertion: unchanged up to
      `p`, one place later after it. */
  lemma InsertedReadAt(ring: Ring, c: nat, u: nat, x: PointId, q: int)
    requires Closed(ring) && c < |ring| && 1 <= u < |ring[c]|
    requires 0 <= q < PointNumber(ring)
    ensures var r := InsertInChain(ring, c, StoragePos(ring, c, u), x);
      var p := Prefix(ring, c) + u - 1;
      && (q <= p ==> GetPoint(r, q) == GetPoint(ring, q))
      && (q > p ==> GetPoint(r, q + 1) == GetPoint(ring, q))
  {
    if Prefix(ring, c) <= q <= Prefix(ring, c + 1) {
      ReadOnInsertedChain(ring, c, u, x, q);
    } else {
      var k := ChainCovering(ring, q);
      ChainOrder(ring, c, k, q);
      if q < Prefix(ring, c) {
        ReadBeforeChain(ring, c, StoragePos(ring, c, u), x, q, k);
      } else {
        PrefixGrows(ring, c + 1, |ring|);
        ReadAfterChain(ring, c, StoragePos(ring, c, u), x, q, q + 1, k);
      }
    }
  }

  /** The point-list index of loop position `u` of chain `c`. */
  function RingIndex(ring: Ring, c: nat, u: nat): (p: nat)
    requires WellFormed(ring) && c < |ring|
    ensures p == Prefix(ring, c) + u
  {
    PrefixGrows(ring, 0, c);
    Prefix(ring, c) + u
  }

  /** Reading the ring after an insertion: the old point before the new
      one, the new point itself, the old point one place back after it. */
  lemma InsertedRead(ring: Ring, c: nat, u: nat, x: PointId, p1: nat, j: int, before: int)
    requires Closed(ring) && c < |ring| && 1 <= u < |ring[c]|
    requires p1 == Prefix(ring, c) + u && p1 <= PointNumber(ring)
    requires 0 <= j <= PointNumber(ring) && before == j - 1
    ensures GetPoint(InsertInChain(ring, c, StoragePos(ring, c, u), x), j)
         == if j < p1 then GetPoint(ring, j)
            else if j == p1 then Ok(x)
            else GetPoint(ring, before)
  {
    if j < p1 {
      InsertedReadAt(ring, c, u, x, j);
    } else if j == p1 {
      InsertedPointAt(ring, c, u, x, j);
    } else {
      InsertedReadAt(ring, c, u, x, before);
    }
  }

  /** One entry of the point list after an insertion, read off the ring. */
  lemma InsertedEntry(ring: Ring, c: nat, u: nat, x: PointId, j: int, before: int)
    requires Closed(ring) && c < |ring| && 1 <= u < |ring[c]|
    requires 0 <= j <= PointNumber(ring) && before == j - 1
    ensures var l := Blobs.PointsList(ring);
      var l' := Blobs.PointsList(InsertInChain(ring, c, StoragePos(ring, c, u), x));
      var p1 := RingIndex(ring, c, u);
      && l.Ok? && l'.Ok? && |l'.value| == |l.value| + 1 && p1 <= |l.value|
      && (j < p1 ==> l'.value[j] == l.value[j])
      && (j == p1 ==> l'.value[j] == x)
      && (j > p1 ==> l'.value[j] == l.value[before])
  {
    var pos := StoragePos(ring, c, u);
    var r := InsertInChain(ring, c, pos, x);
    var p1 := RingIndex(ring, c, u);
    assert PointNumber(ring) >= 1 && p1 <= PointNumber(ring) by {
      PointNumberBound(ring);
      PrefixGrows(ring, c + 1, |ring|);
      PointNumberIsLastBoundary(ring);
    }
    assert Closed(r) && PointNumber(r) == PointNumber(ring) + 1 by {
      InsertKeepsClosed(ring, c, pos, x);
    }
    var l := Blobs.PointsList(ring).value;
    var l' := Blobs.PointsList(r).value;
    assert |l| == PointNumber(ring) && |l'| == PointNumber(r);
    InsertedRead(ring, c, u, x, p1, j, before);
    Blobs.PointsListEntry(r, l', j);
    if j < p1 {
      Blobs.PointsListEntry(ring, l, j);
    } else if j > p1 {
      Blobs.PointsListEntry(ring, l, before);
    }
  }

  /** Inserting an interior point of chain `c` at loop position `u` puts it
      into the blob's point list at index `RingIndex(c, u)`, everything else
      keeping its order. */
  lemma InsertedPointsList(ring: Ring, c: nat, u: nat, x: PointId)
    requires Closed(ring) && c < |ring| && 1 <= u < |ring[c]|
    ensures var r := InsertInChain(ring, c, StoragePos(ring, c, u), x);
      && Blobs.PointsList(ring).Ok? && Blobs.PointsList(r).Ok?
      && RingIndex(ring, c, u) <= |Blobs.PointsList(ring).value|
      && Blobs.PointsList(r).value
         == ListUtil.InsertAt(Blobs.PointsList(ring).value, RingIndex(ring, c, u), x)
  {
    var r := InsertInChain(ring, c, StoragePos(ring, c, u), x);
    var p1 := RingIndex(ring, c, u);
    PointNumberBound(ring);
    InsertedEntry(ring, c, u, x, 0, -1);
    var l := Blobs.PointsList(ring).value;
    var l' := Blobs.PointsList(r).value;
    forall j | 0 <= j < |l'|
      ensures j < p1 ==> l'[j] == l[j]
      ensures j == p1 ==> l'[j] == x
      ensures j > p1 ==> l'[j] == l[j - 1]
    {
      InsertedEntry(ring, c, u, x, j, j - 1);
    }
    ListUtil.InsertAtByIndex(l, p1, x, l');
  }

  // ---------------------------------------------------------------------
  // `create_midpoint` on a blob.

  /** Every point a chain of the store lists has a record. */
  predicate PointsStored(w: World) {
    forall h, p :: h in w.chains && p in w.chains[h].points ==> p in w.points
  }

  /** `Blob.create_midpoint(i, j)` with the corrected neighbour lookup: the
      link between ring positions `i` and `j` is located on the chain that
      carries it, and that chain's `create_midpoint` puts a new point, with
      handle `newId`, between the two. Lookup errors and the chain's own
      errors are passed on. The links of the store are not touched:
      `insert_between` is not modelled. */
  function CreateMidpointInBlob(w: World, b: Chains.BlobId, i: int, j: int, newId: PointId): (r: Result<(World, Point)>)
    requires b in w.blobs && ChainsStored(w, w.blobs[b].loop) && PointsStored(w)
    ensures var ring := RingOf(w, w.blobs[b].loop);
      Oriented(ring) ==> (r.Err? && r.error == RuntimeError <== !NextPosition(ring, i, j))
    ensures r.Ok? ==> r.value.0.blobs == w.blobs && r.value.0.adj == w.adj
    ensures r.Ok? ==> r.value.0.chains.Keys == w.chains.Keys
    ensures r.Ok? ==> r.value.0.points == w.points[newId := r.value.1]
  {
    var loop := w.blobs[b].loop;
    var ring := RingOf(w, loop);
    var (c, t1, t2) :- ChainAndIndexesOfNeighbors(ring, i, j);
    var h := loop[c];
    var (chain', mid) :- Chains.CreateMidpoint(w.chains[h], w.points, t1, t2, newId);
    Ok((w.(points := w.points[newId := mid], chains := w.chains[h := chain']), mid))
  }

  /** `Blob.create_midpoint(i, j)` as written: the chain and its local
      indexes come from `get_chain_and_indexes_of_neighbors` as written, and
      that chain's `create_midpoint` inserts the new point. Wherever the two
      lookups agree, it is the corrected edit. */
  function CreateMidpointInBlobAsWritten(w: World, b: Chains.BlobId, i: int, j: int, newId: PointId): (r: Result<(World, Point)>)
    requires b in w.blobs && ChainsStored(w, w.blobs[b].loop) && PointsStored(w)
    ensures PointNumber(RingOf(w, w.blobs[b].loop)) == 0 ==> r == Err(ZeroDivisionError)
    ensures r.Ok? ==> r.value.0.blobs == w.blobs && r.value.0.adj == w.adj
    ensures r.Ok? ==> r.value.0.chains.Keys == w.chains.Keys
    ensures r.Ok? ==> r.value.0.points == w.points[newId := r.value.1]
    ensures var ring := RingOf(w, w.blobs[b].loop);
      ChainAndIndexesOfNeighborsAsWritten(ring, i, j) == ChainAndIndexesOfNeighbors(ring, i, j) ==>
        r == CreateMidpointInBlob(w, b, i, j, newId)
  {
    var loop := w.blobs[b].loop;
    var ring := RingOf(w, loop);
    var (c, t1, t2) :- ChainAndIndexesOfNeighborsAsWritten(ring, i, j);
    var h := loop[c];
    var (chain', mid) :- Chains.CreateMidpoint(w.chains[h], w.points, t1, t2, newId);
    Ok((w.(points := w.points[newId := mid], chains := w.chains[h := chain']), mid))
  }

  /** On a closed blob, at every position whose as-written neighbour lookup
      picks the chain carrying the link (every position off a junction among
      them), the as-written `create_midpoint` is the corrected one, so what
      `CreateMidpointInBlobMeans` proves holds of it. */
  lemma CreateMidpointAsWrittenAgrees(w: World, b: Chains.BlobId, i: int, newId: PointId)
    requires b in w.blobs && ChainsStored(w, w.blobs[b].loop) && PointsStored(w)
    requires var ring := RingOf(w, w.blobs[b].loop);
      && Closed(ring) && 0 <= i < PointNumber(ring)
      && (IsIntersectionAt(ring, i) == Ok(false) ||
          PointsCommonChainIndex(ring, i, (i + 1) % PointNumber(ring)) == Ok(ChainIndexAt(ring, i + 1)))
    ensures var j := (i + 1) % PointNumber(RingOf(w, w.blobs[b].loop));
      CreateMidpointInBlobAsWritten(w, b, i, j, newId) == CreateMidpointInBlob(w, b, i, j, newId)
  {
    var ring := RingOf(w, w.blobs[b].loop);
    if IsIntersectionAt(ring, i) == Ok(false) {
      NeighborsAsWrittenAgreesOffJunctions(ring, i);
    } else {
      NeighborsAsWrittenAgrees(ring, i);
    }
  }

  /** The junction of the neighbour-lookup finding, on a blob: the loop
      `A-B`, `B-X-A` with points 0, 1 and 2. For the link from position 0 to
      position 1 the as-written edit picks the second chain and inserts the
      new point at its front, so that chain no longer starts where the first
      one ends and the loop is broken. The corrected edit puts the point
      between 0 and 1 on the first chain, and the loop stays closed. */
  lemma MidpointAsWrittenBreaksLoop(w: World, b: Chains.BlobId, h0: Chains.ChainId, h1: Chains.ChainId, newId: PointId)
    requires b in w.blobs && w.blobs[b].loop == [h0, h1] && h0 != h1
    requires h0 in w.chains && h1 in w.chains && PointsStored(w)
    requires w.chains[h0].points == [0, 1] && w.chains[h1].points == [1, 2, 0]
    requires newId != 1
    ensures Closed(RingOf(w, [h0, h1]))
    ensures var r := CreateMidpointInBlobAsWritten(w, b, 0, 1, newId);
      r.Ok? && ChainsStored(r.value.0, [h0, h1]) && !Closed(RingOf(r.value.0, [h0, h1]))
    ensures var r := CreateMidpointInBlob(w, b, 0, 1, newId);
      r.Ok? && ChainsStored(r.value.0, [h0, h1]) && Closed(RingOf(r.value.0, [h0, h1]))
  {
    var ring := RingOf(w, [h0, h1]);
    RingOfTwo(w, h0, h1);
    NeighborsAsWrittenAtJunction();
    JunctionMidpointAsWritten(w, b, h0, h1, newId, ring);
    var w1 := CreateMidpointInBlobAsWritten(w, b, 0, 1, newId).value.0;
    RingOfTwo(w1, h0, h1);
    BrokenJunctionRing(RingOf(w1, [h0, h1]), newId);
    JunctionMidpointCorrected(w, b, h0, h1, newId, ring);
    var w2 := CreateMidpointInBlob(w, b, 0, 1, newId).value.0;
    RingOfTwo(w2, h0, h1);
    FixedJunctionRing(RingOf(w2, [h0, h1]), newId);
  }

  /** The ring of a two-chain loop. */
  lemma RingOfTwo(w: World, h0: Chains.ChainId, h1: Chains.ChainId)
    requires h0 in w.chains && h1 in w.chains
    ensures ChainsStored(w, [h0, h1])
    ensures RingOf(w, [h0, h1]) == [w.chains[h0].points, w.chains[h1].points]
  {
  }

  /** The as-written edit on the junction example inserts at the front of
      the second chain and leaves the first one as it was. */
  lemma JunctionMidpointAsWritten(w: World, b: Chains.BlobId, h0: Chains.ChainId, h1: Chains.ChainId, newId: PointId, ring: Ring)
    requires b in w.blobs && w.blobs[b].loop == [h0, h1] && h0 != h1
    requires h0 in w.chains && h1 in w.chains && PointsStored(w)
    requires w.chains[h1].points == [1, 2, 0]
    requires ring == RingOf(w, [h0, h1])
    requires ChainAndIndexesOfNeighborsAsWritten(ring, 0, 1) == Ok((1, -1, 0))
    ensures CreateMidpointInBlobAsWritten(w, b, 0, 1, newId).Ok?
    ensures var w' := CreateMidpointInBlobAsWritten(w, b, 0, 1, newId).value.0;
      && h0 in w'.chains && h1 in w'.chains
      && w'.chains[h0] == w.chains[h0] && w'.chains[h1].points == [newId, 1, 2, 0]
  {
    FrontInsert(w.chains[h1], w.points, newId);
    var (chain1, mid1) := Chains.CreateMidpoint(w.chains[h1], w.points, -1, 0, newId).value;
    AsWrittenFromLookup(w, b, 0, 1, newId, 1, -1, 0, chain1, mid1);
  }

  /** The corrected edit on the junction example inserts between the two
      points of the first chain and leaves the second one as it was. */
  lemma JunctionMidpointCorrected(w: World, b: Chains.BlobId, h0: Chains.ChainId, h1: Chains.ChainId, newId: PointId, ring: Ring)
    requires b in w.blobs && w.blobs[b].loop == [h0, h1] && h0 != h1
    requires h0 in w.chains && h1 in w.chains && PointsStored(w)
    requires w.chains[h0].points == [0, 1]
    requires ring == RingOf(w, [h0, h1])
    requires ChainAndIndexesOfNeighbors(ring, 0, 1) == Ok((0, 0, 1))
    ensures CreateMidpointInBlob(w, b, 0, 1, newId).Ok?
    ensures var w' := CreateMidpointInBlob(w, b, 0, 1, newId).value.0;
      && h0 in w'.chains && h1 in w'.chains
      && w'.chains[h1] == w.chains[h1] && w'.chains[h0].points == [0, newId, 1]
  {
    var c0 := w.chains[h0];
    var edit := Chains.CreateMidpoint(c0, w.points, 0, 1, newId);
    assert edit.Ok? && edit.value.0.points == [0, newId, 1] by {
      assert forall p :: p in c0.points ==> p in w.points;
      InnerInsert(c0, w.points, newId);
    }
    var (chain0, mid0) := edit.value;
    assert CreateMidpointInBlob(w, b, 0, 1, newId)
      == Ok((w.(points := w.points[newId := mid0], chains := w.chains[h0 := chain0]), mid0)) by {
      assert w.blobs[b].loop[0] == h0 && ChainsStored(w, w.blobs[b].loop);
      CorrectedFromLookup(w, b, 0, 1, newId, 0, 0, 1, chain0, mid0);
    }
  }

  /** The as-written edit, once its lookup and the chain's edit are known. */
  lemma AsWrittenFromLookup(w: World, b: Chains.BlobId, i: int, j: int, newId: PointId,
                            c: nat, t1: int, t2: int, ch: Chains.Chain, mid: Point)
    requires b in w.blobs && ChainsStored(w, w.blobs[b].loop) && PointsStored(w)
    requires ChainAndIndexesOfNeighborsAsWritten(RingOf(w, w.blobs[b].loop), i, j) == Ok((c, t1, t2))
    requires c < |w.blobs[b].loop|
    requires Chains.CreateMidpoint(w.chains[w.blobs[b].loop[c]], w.points, t1, t2, newId) == Ok((ch, mid))
    ensures CreateMidpointInBlobAsWritten(w, b, i, j, newId)
      == Ok((w.(points := w.points[newId := mid], chains := w.chains[w.blobs[b].loop[c] := ch]), mid))
  {
  }

  /** The corrected edit, once its lookup and the chain's edit are known. */
  lemma CorrectedFromLookup(w: World, b: Chains.BlobId, i: int, j: int, newId: PointId,
                            c: nat, t1: int, t2: int, ch: Chains.Chain, mid: Point)
    requires b in w.blobs && ChainsStored(w, w.blobs[b].loop) && PointsStored(w)
    requires ChainAndIndexesOfNeighbors(RingOf(w, w.blobs[b].loop), i, j) == Ok((c, t1, t2))
    requires c < |w.blobs[b].loop|
    requires Chains.CreateMidpoint(w.chains[w.blobs[b].loop[c]], w.points, t1, t2, newId) == Ok((ch, mid))
    ensures CreateMidpointInBlob(w, b, i, j, newId)
      == Ok((w.(points := w.points[newId := mid], chains := w.chains[w.blobs[b].loop[c] := ch]), mid))
  {
  }

  /** `create_midpoint(-1, 0)` on the chain `1, 2, 0` reads its last and
      first points and inserts the new point at index 0. */
  lemma FrontInsert(c: Chains.Chain, store: map<PointId, Point>, newId: PointId)
    requires c.points == [1, 2, 0] && forall p :: p in c.points ==> p in store
    ensures Chains.CreateMidpoint(c, store, -1, 0, newId).Ok?
    ensures Chains.CreateMidpoint(c, store, -1, 0, newId).value.0.points == [newId, 1, 2, 0]
  {
    assert ListUtil.PyInsertPos(3, 0) == 0;
    assert ListUtil.InsertAt([1, 2, 0], 0, newId) == [newId, 1, 2, 0];
  }

  /** `create_midpoint(0, 1)` on the chain `0, 1` inserts the new point
      between them. */
  lemma InnerInsert(c: Chains.Chain, store: map<PointId, Point>, newId: PointId)
    requires c.points == [0, 1] && forall p :: p in c.points ==> p in store
    ensures Chains.CreateMidpoint(c, store, 0, 1, newId).Ok?
    ensures Chains.CreateMidpoint(c, store, 0, 1, newId).value.0.points == [0, newId, 1]
  {
    assert ListUtil.InsertAt([0, 1], 1, newId) == [0, newId, 1];
  }

  /** With the new point at the front of the second chain, that chain no
      longer starts where the first one ends. */
  lemma BrokenJunctionRing(broken: Ring, x: PointId)
    requires |broken| == 2 && broken[0] == [0, 1] && broken[1] == [x, 1, 2, 0] && x != 1
    ensures !Closed(broken)
  {
    assert Backwards(broken, 0) == Ok(false);
    assert Backwards(broken, 1) == Ok(false);
    assert Tail(broken, 0) != Head(broken, 1);
  }

  /** With the new point between 0 and 1 on the first chain the loop still
      closes. */
  lemma FixedJunctionRing(fixed: Ring, x: PointId)
    requires |fixed| == 2 && fixed[0] == [0, x, 1] && fixed[1] == [1, 2, 0]
    ensures Closed(fixed)
  {
    assert Prefix(fixed, 1) == 2 && Prefix(fixed, 2) == 4;
    assert Backwards(fixed, 0) == Ok(false) && Backwards(fixed, 1) == Ok(false);
  }

  /** The chain and the slot the link after position `i` falls on: slot `u`
      of chain `c` in loop direction is position `i + 1`, and the two local
      indexes the lookup returns sit either side of the storage position of
      that slot. */
  lemma LinkSlot(ring: Ring, i: int, j: int) returns (c: nat, u: nat)
    requires Closed(ring) && NextPosition(ring, i, j)
    ensures c < |ring| && 1 <= u < |ring[c]|
    ensures ChainAndIndexesOfNeighbors(ring, i, j).Ok?
    ensures var (c', t1, t2) := ChainAndIndexesOfNeighbors(ring, i, j).value;
      && c' == c
      && 0 <= Chains.Min(t1, t2) && Chains.Max(t1, t2) < |ring[c]|
      && (t1 - t2 == 1 || t2 - t1 == 1)
      && Chains.Min(t1, t2) + 1 == StoragePos(ring, c, u)
      && GetPoint(ring, i) == Ok(ring[c][t1])
      && GetPoint(ring, j) == Ok(ring[c][t2])
    ensures RingIndex(ring, c, u) == Position(ring, i) + 1
  {
    var p := Position(ring, i);
    c := ChainIndexAt(ring, p + 1);
    NeighborsResult(ring, i, j);
    LinkChainRange(ring, p);
    NeighborsOnOneChain(ring, i, j);
    u := p + 1 - Prefix(ring, c);
    assert Prefix(ring, c + 1) == Prefix(ring, c) + |ring[c]| - 1;
  }

  /** Replacing the record of the chain at loop index `c` changes only that
      chain of the ring, when no handle repeats in the loop. */
  lemma RingAfterChainEdit(w: World, loop: seq<Chains.ChainId>, c: nat, ch: Chains.Chain)
    requires ChainsStored(w, loop) && Worlds.Distinct(loop) && c < |loop|
    ensures ChainsStored(w.(chains := w.chains[loop[c] := ch]), loop)
    ensures RingOf(w.(chains := w.chains[loop[c] := ch]), loop) == RingOf(w, loop)[c := ch.points]
  {
    var w' := w.(chains := w.chains[loop[c] := ch]);
    var r, r' := RingOf(w, loop), RingOf(w', loop);
    forall k | 0 <= k < |loop| ensures r'[k] == r[c := ch.points][k] {
      if k != c {
        assert loop[k] != loop[c];
      }
    }
  }

  /** Once the link is located on slot `u` of chain `c`, `create_midpoint`
      stores the chain with the new handle at that slot's storage position,
      and the new point lies halfway between the link's two points. */
  lemma MidpointStored(w: World, b: Chains.BlobId, i: int, j: int, newId: PointId, c: nat, u: nat, t1: int, t2: int)
    requires b in w.blobs && ChainsStored(w, w.blobs[b].loop) && PointsStored(w)
    requires Worlds.Distinct(w.blobs[b].loop)
    requires var ring := RingOf(w, w.blobs[b].loop);
      && c < |ring| && 1 <= u < |ring[c]| && Backwards(ring, c).Ok?
      && ChainAndIndexesOfNeighbors(ring, i, j) == Ok((c, t1, t2))
      && 0 <= t1 < |ring[c]| && 0 <= t2 < |ring[c]| && (t1 - t2 == 1 || t2 - t1 == 1)
      && Chains.Min(t1, t2) + 1 == StoragePos(ring, c, u)
    ensures var ring := RingOf(w, w.blobs[b].loop);
      && CreateMidpointInBlob(w, b, i, j, newId).Ok?
      && var (w', mid) := CreateMidpointInBlob(w, b, i, j, newId).value;
      && ChainsStored(w', w.blobs[b].loop)
      && RingOf(w', w.blobs[b].loop) == InsertInChain(ring, c, StoragePos(ring, c, u), newId)
      && mid.co == Midpoint(CoOf(w.points)(ring[c][t1]), CoOf(w.points)(ring[c][t2]))
  {
    var loop := w.blobs[b].loop;
    var ring := RingOf(w, loop);
    var h := loop[c];
    var pos := StoragePos(ring, c, u);
    assert w.chains[h].points == ring[c];
    MidpointEitherWay(w.chains[h], w.points, t1, t2, newId);
    var (chain', mid) := Chains.CreateMidpoint(w.chains[h], w.points, t1, t2, newId).value;
    var w1 := w.(points := w.points[newId := mid]);
    var w' := w1.(chains := w1.chains[h := chain']);
    assert CreateMidpointInBlob(w, b, i, j, newId) == Ok((w', mid));
    assert RingOf(w', loop) == InsertInChain(ring, c, pos, newId) by {
      RingAfterChainEdit(w1, loop, c, chain');
      assert RingOf(w1, loop) == ring;
    }
  }

  /** On a closed blob `create_midpoint` inserts the new point into the
      chain carrying the link, at the storage position of slot `u`, halfway
      between the two points. */
  lemma CreateMidpointOnRing(w: World, b: Chains.BlobId, i: int, j: int, newId: PointId) returns (c: nat, u: nat)
    requires b in w.blobs && ChainsStored(w, w.blobs[b].loop) && PointsStored(w)
    requires Worlds.Distinct(w.blobs[b].loop)
    requires Closed(RingOf(w, w.blobs[b].loop)) && NextPosition(RingOf(w, w.blobs[b].loop), i, j)
    ensures var ring := RingOf(w, w.blobs[b].loop);
      && c < |ring| && 1 <= u < |ring[c]|
      && RingIndex(ring, c, u) == Position(ring, i) + 1
      && CreateMidpointInBlob(w, b, i, j, newId).Ok?
      && var (w', mid) := CreateMidpointInBlob(w, b, i, j, newId).value;
      && ChainsStored(w', w.blobs[b].loop)
      && RingOf(w', w.blobs[b].loop) == InsertInChain(ring, c, StoragePos(ring, c, u), newId)
      && GetPoint(ring, i).Ok? && GetPoint(ring, j).Ok?
      && mid.co == Midpoint(CoOf(w.points)(GetPoint(ring, i).value), CoOf(w.points)(GetPoint(ring, j).value))
  {
    var ring := RingOf(w, w.blobs[b].loop);
    c, u := LinkSlot(ring, i, j);
    var (c', t1, t2) := ChainAndIndexesOfNeighbors(ring, i, j).value;
    MidpointStored(w, b, i, j, newId, c, u, t1, t2);
  }

  /** A chain's `create_midpoint` between two neighbouring indexes: the new
      handle goes in right after the lower index, and the new point lies
      halfway between the two points, whichever index is given first. */
  lemma MidpointEitherWay(c: Chains.Chain, store: map<PointId, Point>, t1: int, t2: int, newId: PointId)
    requires forall p :: p in c.points ==> p in store
    requires 0 <= t1 < |c.points| && 0 <= t2 < |c.points| && (t1 - t2 == 1 || t2 - t1 == 1)
    ensures Chains.CreateMidpoint(c, store, t1, t2, newId).Ok?
    ensures Chains.CreateMidpoint(c, store, t1, t2, newId).value.0
         == c.(points := ListUtil.InsertAt(c.points, Chains.Min(t1, t2) + 1, newId))
    ensures Chains.CreateMidpoint(c, store, t1, t2, newId).value.1.co
         == Midpoint(CoOf(store)(c.points[t1]), CoOf(store)(c.points[t2]))
  {
    var lo, hi := Chains.Min(t1, t2), Chains.Max(t1, t2);
    var mid := Chains.CreateMidpoint(c, store, t1, t2, newId).value.1;
    assert Chains.IsMidpointOf(store, c.points[lo], c.points[hi], mid) by {
      assert ListUtil.PyGet(c.points, lo) == Ok(c.points[lo]);
      assert ListUtil.PyGet(c.points, hi) == Ok(c.points[hi]);
    }
    var x, y := CoOf(store)(c.points[t1]), CoOf(store)(c.points[t2]);
    assert x == store[c.points[t1]].co && y == store[c.points[t2]].co;
    MidpointEither(store[c.points[lo]].co, store[c.points[hi]].co, x, y, mid.co);
  }

  /** The midpoint of two points is the same taken in either order. */
  lemma MidpointEither(a: Vec, b: Vec, x: Vec, y: Vec, m: Vec)
    requires m == Midpoint(a, b) && ((x == a && y == b) || (x == b && y == a))
    ensures m == Midpoint(x, y)
  {
  }

  /** The new point of `create_midpoint` on a closed blob: it lies halfway
      between the points at positions `i` and `j`, it takes position `i + 1`
      of the point list with every other point keeping its order, the loop
      stays closed, and the point count grows by one. */
  lemma CreateMidpointInBlobMeans(w: World, b: Chains.BlobId, i: int, j: int, newId: PointId)
    requires b in w.blobs && ChainsStored(w, w.blobs[b].loop) && PointsStored(w)
    requires Worlds.Distinct(w.blobs[b].loop)
    requires Closed(RingOf(w, w.blobs[b].loop)) && NextPosition(RingOf(w, w.blobs[b].loop), i, j)
    ensures CreateMidpointInBlob(w, b, i, j, newId).Ok?
    ensures var ring := RingOf(w, w.blobs[b].loop);
      var (w', mid) := CreateMidpointInBlob(w, b, i, j, newId).value;
      && ChainsStored(w', w.blobs[b].loop)
      && var ring' := RingOf(w', w.blobs[b].loop);
      && GetPoint(ring, i).Ok? && GetPoint(ring, j).Ok?
      && mid.co == Midpoint(CoOf(w.points)(GetPoint(ring, i).value), CoOf(w.points)(GetPoint(ring, j).value))
      && Closed(ring')
      && PointNumber(ring') == PointNumber(ring) + 1
      && Blobs.PointsList(ring).Ok? && Blobs.PointsList(ring').Ok?
      && Position(ring, i) + 1 <= |Blobs.PointsList(ring).value|
      && Blobs.PointsList(ring').value
         == ListUtil.InsertAt(Blobs.PointsList(ring).value, Position(ring, i) + 1, newId)
  {
    var ring := RingOf(w, w.blobs[b].loop);
    var c, u := CreateMidpointOnRing(w, b, i, j, newId);
    InsertKeepsClosed(ring, c, StoragePos(ring, c, u), newId);
    InsertedPointsList(ring, c, u, newId);
  }

  // ---------------------------------------------------------------------
  // One point less in one chain.

  /** The ring with point `t` of chain `c`'s point list taken out. */
  function RemoveInChain(ring: Ring, c: nat, t: nat): (r: Ring)
    requires c < |ring| && t < |ring[c]|
    ensures |r| == |ring| && |r[c]| == |ring[c]| - 1
    ensures forall k :: 0 <= k < |ring| && k != c ==> r[k] == ring[k]
  {
    ring[c := ring[c][..t] + ring[c][t + 1..]]
  }

  /** Putting the removed point back where it was restores the ring. */
  lemma RemoveThenInsert(ring: Ring, c: nat, t: nat)
    requires c < |ring| && t < |ring[c]|
    ensures InsertInChain(RemoveInChain(ring, c, t), c, t, ring[c][t]) == ring
  {
    var s := ring[c][..t] + ring[c][t + 1..];
    ListUtil.InsertAtIsSlices(s, t, ring[c][t]);
    assert s[..t] == ring[c][..t] && s[t..] == ring[c][t + 1..];
    assert ring[c][..t] + [ring[c][t]] + ring[c][t + 1..] == ring[c];
  }

  /** Having the same endpoints is symmetric. */
  lemma SameEndsSymmetric(ring: Ring, r: Ring)
    requires SameEnds(ring, r)
    ensures SameEnds(r, ring)
  {
  }

  /** Removing an interior point keeps the loop closed and keeps every
      chain's direction; the point removed from slot `u` would go back at
      the storage position of that slot in the shorter chain. */
  lemma RemoveKeepsClosed(ring: Ring, c: nat, u: nat, t: nat)
    requires Closed(ring) && c < |ring| && 1 <= u < |ring[c]| - 1
    requires t == if Backwards(ring, c).value then |ring[c]| - 1 - u else u
    ensures var r := RemoveInChain(ring, c, t);
      && Closed(r)
      && Backwards(r, c) == Backwards(ring, c)
      && StoragePos(r, c, u) == t
      && InsertInChain(r, c, t, ring[c][t]) == ring
      && PointNumber(r) == PointNumber(ring) - 1
  {
    var r := RemoveInChain(ring, c, t);
    RemoveThenInsert(ring, c, t);
    InsertKeepsEnds(r, c, t, ring[c][t]);
    SameEndsSymmetric(r, ring);
    assert WellFormed(r);
    SameEndsClosed(ring, r);
    DirectionAt(ring, r, c);
    InsertAddsPosition(r, c, t, ring[c][t]);
  }

  /** Removing the point at slot `u` of chain `c` takes entry
      `Prefix(c) + u` out of the blob's point list, everything else keeping
      its order; the entry taken out is the removed point. */
  lemma RemovedPointsList(ring: Ring, c: nat, u: nat, t: nat)
    requires Closed(ring) && c < |ring| && 1 <= u < |ring[c]| - 1
    requires t == if Backwards(ring, c).value then |ring[c]| - 1 - u else u
    ensures var r := RemoveInChain(ring, c, t);
      var p := RingIndex(ring, c, u);
      && Blobs.PointsList(ring).Ok? && Blobs.PointsList(r).Ok?
      && p < |Blobs.PointsList(ring).value|
      && Blobs.PointsList(ring).value[p] == ring[c][t]
      && Blobs.PointsList(r).value
         == Blobs.PointsList(ring).value[..p] + Blobs.PointsList(ring).value[p + 1..]
  {
    var r := RemoveInChain(ring, c, t);
    var x := ring[c][t];
    var p := RingIndex(ring, c, u);
    assert Closed(r) && InsertInChain(r, c, t, x) == ring && StoragePos(r, c, u) == t by {
      RemoveKeepsClosed(ring, c, u, t);
    }
    assert RingIndex(r, c, u) == p by {
      PrefixAfterInsert(r, c, t, x, c);
    }
    InsertedPointsList(r, c, u, x);
    ListUtil.RemoveInserted(Blobs.PointsList(r).value, p, x);
  }

  // ---------------------------------------------------------------------
  // `remove_point` on a blob, away from the junctions.

  /** `Blob.remove_point(i)` where position `i` is not an intersection: the
      chain and local index holding the position are looked up and that
      chain's `remove_point` takes the point out (and rewires its two
      neighbours). The handle of the removed point is returned; its record
      stays in the store. Lookup errors are passed on. */
  function RemovePointInBlob(w: World, b: Chains.BlobId, i: int): (r: Result<(World, PointId)>)
    requires b in w.blobs && ChainsStored(w, w.blobs[b].loop)
    requires IsIntersectionAt(RingOf(w, w.blobs[b].loop), i) != Ok(true)
    ensures var ring := RingOf(w, w.blobs[b].loop);
      && (r.Err? <== PointNumber(ring) == 0)
      && (Oriented(ring) ==> r.Ok?)
    ensures r.Ok? ==> r.value.0.blobs == w.blobs && r.value.0.points == w.points
    ensures r.Ok? ==> r.value.0.chains.Keys == w.chains.Keys
  {
    var loop := w.blobs[b].loop;
    var ring := RingOf(w, loop);
    var isIntersection :- IsIntersectionAt(ring, i);
    var (c, t) :- GetChainAndIndexAt(ring, i);
    var h := loop[c];
    assert WellFormed(ring) ==> 0 <= t < |w.chains[h].points|;
    var (chain', adj', removed) :- Chains.RemovePoint(w.chains[h], w.adj, t);
    Ok((w.(adj := adj', chains := w.chains[h := chain']), removed))
  }

  /** A position that is not an intersection lies strictly inside one
      chain: slot `u` of chain `c` in loop direction, stored at index `t`. */
  lemma RemovalSlot(ring: Ring, i: int) returns (c: nat, u: nat, t: nat)
    requires Closed(ring) && IsIntersectionAt(ring, i) == Ok(false)
    ensures c < |ring| && 1 <= u < |ring[c]| - 1
    ensures t == if Backwards(ring, c).value then |ring[c]| - 1 - u else u
    ensures GetChainAndIndexAt(ring, i) == Ok((c, t))
    ensures RingIndex(ring, c, u) == Position(ring, i)
    ensures GetPoint(ring, i) == Ok(ring[c][t])
  {
    var p := Position(ring, i);
    var (ci, ti) := GetChainAndIndexAt(ring, i).value;
    c := ci;
    PointNumberIsLastBoundary(ring);
    assert !StartsAt(ring, c, p);
    if c + 1 < |ring| {
      assert !StartsAt(ring, c + 1, p);
    }
    assert Prefix(ring, c + 1) == Prefix(ring, c) + |ring[c]| - 1;
    u := p - Prefix(ring, c);
    t := ti;
  }

  /** With the chain and index located, `remove_point` stores the chain
      without that point and returns the point. */
  lemma RemovalStored(w: World, b: Chains.BlobId, i: int, c: nat, t: nat)
    requires b in w.blobs && ChainsStored(w, w.blobs[b].loop) && Worlds.Distinct(w.blobs[b].loop)
    requires var ring := RingOf(w, w.blobs[b].loop);
      && IsIntersectionAt(ring, i) == Ok(false)
      && c < |ring| && t < |ring[c]| && GetChainAndIndexAt(ring, i) == Ok((c, t))
    ensures var ring := RingOf(w, w.blobs[b].loop);
      && RemovePointInBlob(w, b, i).Ok?
      && var (w', removed) := RemovePointInBlob(w, b, i).value;
      && ChainsStored(w', w.blobs[b].loop)
      && RingOf(w', w.blobs[b].loop) == RemoveInChain(ring, c, t)
      && removed == ring[c][t]
  {
    var loop := w.blobs[b].loop;
    var ring := RingOf(w, loop);
    var h := loop[c];
    assert w.chains[h].points == ring[c];
    var (chain', adj', removed) := Chains.RemovePoint(w.chains[h], w.adj, t).value;
    var w1 := w.(adj := adj');
    var w' := w1.(chains := w1.chains[h := chain']);
    assert RemovePointInBlob(w, b, i) == Ok((w', removed));
    assert RingOf(w', loop) == RemoveInChain(ring, c, t) by {
      RingAfterChainEdit(w1, loop, c, chain');
      assert RingOf(w1, loop) == ring;
    }
  }

  /** `remove_point` away from the junctions on a closed blob: the point at
      position `i` is removed, the point list loses exactly that entry,
      the loop stays closed and the point count drops by one. Putting the
      point back at the same slot gives the blob's ring back. */
  lemma RemovePointInBlobMeans(w: World, b: Chains.BlobId, i: int)
    requires b in w.blobs && ChainsStored(w, w.blobs[b].loop) && Worlds.Distinct(w.blobs[b].loop)
    requires Closed(RingOf(w, w.blobs[b].loop))
    requires IsIntersectionAt(RingOf(w, w.blobs[b].loop), i) == Ok(false)
    ensures RemovePointInBlob(w, b, i).Ok?
    ensures var ring := RingOf(w, w.blobs[b].loop);
      var (w', removed) := RemovePointInBlob(w, b, i).value;
      && ChainsStored(w', w.blobs[b].loop)
      && var ring' := RingOf(w', w.blobs[b].loop);
      && GetPoint(ring, i) == Ok(removed)
      && Closed(ring')
      && PointNumber(ring') == PointNumber(ring) - 1
      && Blobs.PointsList(ring).Ok? && Blobs.PointsList(ring').Ok?
      && var l, p := Blobs.PointsList(ring).value, Position(ring, i);
      && p < |l| && l[p] == removed
      && Blobs.PointsList(ring').value == l[..p] + l[p + 1..]
  {
    var ring := RingOf(w, w.blobs[b].loop);
    var c, u, t := RemovalSlot(ring, i);
    RemovalStored(w, b, i, c, t);
    RemoveKeepsClosed(ring, c, u, t);
    RemovedPointsList(ring, c, u, t);
  }

  /** `Blob.remove_point(i)` as written: the chain's own `remove_point`
      drops the first occurrence of the point it finds at the local index
      (`Chains.RemovePointAsWritten`). The rest is `RemovePointInBlob`. */
  function RemovePointInBlobAsWritten(w: World, b: Chains.BlobId, i: int): (r: Result<(World, PointId)>)
    requires b in w.blobs && ChainsStored(w, w.blobs[b].loop)
    requires IsIntersectionAt(RingOf(w, w.blobs[b].loop), i) != Ok(true)
    ensures var ring := RingOf(w, w.blobs[b].loop);
      && (r.Err? <== PointNumber(ring) == 0)
      && (Oriented(ring) ==> r.Ok? && GetPoint(ring, i) == Ok(r.value.1))
    ensures r.Ok? ==> r.value.0.blobs == w.blobs && r.value.0.points == w.points
    ensures r.Ok? ==> r.value.0.chains.Keys == w.chains.Keys
  {
    var loop := w.blobs[b].loop;
    var ring := RingOf(w, loop);
    var isIntersection :- IsIntersectionAt(ring, i);
    var (c, t) :- GetChainAndIndexAt(ring, i);
    var h := loop[c];
    assert ring[c] == w.chains[h].points;
    assert WellFormed(ring) ==> 0 <= t < |w.chains[h].points|;
    var (chain', adj', removed) :- Chains.RemovePointAsWritten(w.chains[h], w.adj, t);
    Ok((w.(adj := adj', chains := w.chains[h := chain']), removed))
  }

  /** No chain of the ring repeats a point, its last point aside (a loop of
      one chain ends where it starts). */
  predicate InnerPointsDistinct(ring: Ring) {
    forall k, j, j' :: 0 <= k < |ring| && 0 <= j < j' < |ring[k]| - 1 ==> ring[k][j] != ring[k][j']
  }

  /** Away from the junctions, the removal as written and the corrected one
      coincide once no chain repeats an inner point: the first occurrence
      of the point is then the one at the position. So
      `RemovePointInBlobMeans` holds of the code as written there. */
  lemma RemovePointAsWrittenAgrees(w: World, b: Chains.BlobId, i: int)
    requires b in w.blobs && ChainsStored(w, w.blobs[b].loop)
    requires Closed(RingOf(w, w.blobs[b].loop)) && InnerPointsDistinct(RingOf(w, w.blobs[b].loop))
    requires IsIntersectionAt(RingOf(w, w.blobs[b].loop), i) == Ok(false)
    ensures RemovePointInBlobAsWritten(w, b, i) == RemovePointInBlob(w, b, i)
  {
    var loop := w.blobs[b].loop;
    var ring := RingOf(w, loop);
    var c, u, t := RemovalSlot(ring, i);
    var ch := w.chains[loop[c]];
    assert ch.points == ring[c];
    assert ch.points[t] !in ch.points[..t] by {
      forall j | 0 <= j < t ensures ch.points[j] != ch.points[t] {
        assert ring[c][j] != ring[c][t];
      }
    }
    Chains.RemovePointAgreesWhenFirst(ch, w.adj, t);
  }

  // ---------------------------------------------------------------------
  // A midpoint and its removal.

  /** A position strictly inside chain `c`'s range is not an intersection. */
  lemma InsideIsNotIntersection(ring: Ring, c: nat, q: int)
    requires WellFormed(ring) && c < |ring| && Prefix(ring, c) < q < Prefix(ring, c + 1)
    ensures IsIntersectionAt(ring, q) == Ok(false)
    ensures Position(ring, q) == q
  {
    var n := PointNumber(ring);
    PointNumberIsLastBoundary(ring);
    PrefixGrows(ring, 0, c);
    PrefixGrows(ring, c + 1, |ring|);
    ListUtil.ModOfShifted(n, q, 0);
    forall k: nat ensures !StartsAt(ring, k, q) {
      if k <= c && k < |ring| {
        PrefixGrows(ring, k, c);
      } else if c < k < |ring| {
        PrefixGrows(ring, c + 1, k);
      }
    }
  }

  /** Taking out a point just inserted gives the ring back. */
  lemma InsertThenRemove(ring: Ring, c: nat, pos: nat, x: PointId)
    requires c < |ring| && pos <= |ring[c]|
    ensures RemoveInChain(InsertInChain(ring, c, pos, x), c, pos) == ring
  {
    ListUtil.RemoveInserted(ring[c], pos, x);
  }

  /** `create_midpoint(i, j)` followed by `remove_point(i + 1)` on a closed
      blob: the new position is not an intersection, the point removed is
      the new one, and the blob's ring is as it was. */
  lemma MidpointThenRemoveInBlob(w: World, b: Chains.BlobId, i: int, j: int, newId: PointId)
    requires b in w.blobs && ChainsStored(w, w.blobs[b].loop) && PointsStored(w)
    requires Worlds.Distinct(w.blobs[b].loop)
    requires Closed(RingOf(w, w.blobs[b].loop)) && NextPosition(RingOf(w, w.blobs[b].loop), i, j)
    ensures CreateMidpointInBlob(w, b, i, j, newId).Ok?
    ensures var w' := CreateMidpointInBlob(w, b, i, j, newId).value.0;
      var q := Position(RingOf(w, w.blobs[b].loop), i) + 1;
      && ChainsStored(w', w.blobs[b].loop)
      && IsIntersectionAt(RingOf(w', w.blobs[b].loop), q) == Ok(false)
      && RemovePointInBlob(w', b, q).Ok?
      && var (w'', removed) := RemovePointInBlob(w', b, q).value;
      && removed == newId
      && ChainsStored(w'', w.blobs[b].loop)
      && RingOf(w'', w.blobs[b].loop) == RingOf(w, w.blobs[b].loop)
  {
    var loop := w.blobs[b].loop;
    var ring := RingOf(w, loop);
    var c, u := CreateMidpointOnRing(w, b, i, j, newId);
    var pos := StoragePos(ring, c, u);
    var w' := CreateMidpointInBlob(w, b, i, j, newId).value.0;
    var q := Position(ring, i) + 1;
    InsertedSlot(ring, c, u, pos, newId, q);
    RemovalStored(w', b, q, c, pos);
    InsertThenRemove(ring, c, pos, newId);
  }

  /** A point inserted inside chain `c` at loop position `u` is no
      intersection, and reading its ring position leads back to the slot it
      was stored in. */
  lemma InsertedSlot(ring: Ring, c: nat, u: nat, pos: nat, x: PointId, q: int)
    requires Closed(ring) && c < |ring| && 1 <= u < |ring[c]|
    requires pos == StoragePos(ring, c, u) && q == RingIndex(ring, c, u)
    ensures var r := InsertInChain(ring, c, pos, x);
      && IsIntersectionAt(r, q) == Ok(false)
      && pos < |r[c]| && GetChainAndIndexAt(r, q) == Ok((c, pos)) && r[c][pos] == x
  {
    var ring' := InsertInChain(ring, c, pos, x);
    assert q == Prefix(ring', c) + u by {
      PrefixAfterInsert(ring, c, pos, x, c);
    }
    assert Prefix(ring', c + 1) == Prefix(ring', c) + |ring[c]| by {
      assert |ring'[c]| == |ring[c]| + 1;
    }
    assert Closed(ring') by {
      InsertKeepsClosed(ring, c, pos, x);
    }
    InsideIsNotIntersection(ring', c, q);
    var c2, u2, t2 := RemovalSlot(ring', q);
    assert c2 == c && u2 == u by {
      PrefixGrows(ring', c2 + 1, |ring'|);
      ChainIndexUnique(ring', q, c);
      ChainIndexUnique(ring', q, c2);
    }
    assert t2 == pos by {
      DirectionAt(ring, ring', c) by { InsertKeepsEnds(ring, c, pos, x); }
    }
  }

  // ---------------------------------------------------------------------
  // The inner direction at a point.

  /** The chord from the point before position `i` to the point after it. */
  function Chord(ring: Ring, co: PointId -> Vec, i: int): (r: Result<Vec>)
    ensures Oriented(ring) ==> r.Ok?
  {
    var next :- GetPoint(ring, i + 1);
    var previous :- GetPoint(ring, i - 1);
    Ok(Sub(co(next), co(previous)))
  }

  /** Half of `v`, turned a quarter: `rotate(90)` when `clockwise`,
      `rotate(-90)` otherwise. The result is perpendicular to `v`, half as
      long, and on the side the flag names. */
  function HalfTurn(v: Vec, clockwise: bool): Vec {
    if clockwise then Scale(RotateQuarter(v), 0.5) else Scale(RotateMinusQuarter(v), 0.5)
  }

  /** The half turn is perpendicular to `v`, half as long, and on the side
      the flag names. Kept apart from the function so that its nonlinear
      facts are in scope only where asked for. */
  lemma HalfTurnGeometry(v: Vec, clockwise: bool)
    ensures Dot(HalfTurn(v, clockwise), v) == 0.0
    ensures 4.0 * LengthSquared(HalfTurn(v, clockwise)) == LengthSquared(v)
    ensures 2.0 * Cross(v, HalfTurn(v, clockwise)) == (if clockwise then LengthSquared(v) else -LengthSquared(v))
  {
  }

  /** `get_inner_direction(i)`: half the chord from the point before `i` to
      the point after it, turned a quarter towards the blob's inside — with
      `rotate(90)` when the blob is clockwise, `rotate(-90)` otherwise. The
      chord is halved exactly, so no normalisation is involved. */
  function GetInnerDirection(ring: Ring, co: PointId -> Vec, i: int): (r: Result<Vec>)
    ensures Oriented(ring) ==> r.Ok?
    ensures r.Ok? ==>
      && Chord(ring, co, i).Ok? && Blobs.IsClockwise(ring, co).Ok?
      && var v := Chord(ring, co, i).value;
      && Dot(r.value, v) == 0.0
      && 4.0 * LengthSquared(r.value) == LengthSquared(v)
      && 2.0 * Cross(v, r.value) == (if Blobs.IsClockwise(ring, co).value then LengthSquared(v) else -LengthSquared(v))
  {
    var v :- Chord(ring, co, i);
    var clockwise :- Blobs.IsClockwise(ring, co);
    HalfTurnGeometry(v, clockwise);
    Ok(HalfTurn(v, clockwise))
  }

  /** The inner direction from the two neighbours and the orientation. */
  lemma InnerDirectionFrom(ring: Ring, co: PointId -> Vec, i: int, next: PointId, previous: PointId, clockwise: bool)
    requires GetPoint(ring, i + 1) == Ok(next) && GetPoint(ring, i - 1) == Ok(previous)
    requires Blobs.IsClockwise(ring, co) == Ok(clockwise)
    ensures GetInnerDirection(ring, co, i) == Ok(HalfTurn(Sub(co(next), co(previous)), clockwise))
  {
  }

  /** On the unit square walked 1, 2, 3, 4 (not clockwise by the engine's
      convention) the inner direction at corner 2 points half a unit along
      each axis into the square: `(0.5, -0.5)`. */
  lemma SquareInnerDirection()
    ensures GetInnerDirection(Blobs.SquareLoop(), Blobs.SquareCo, 1) == Ok(Vec(0.5, -0.5))
  {
    SquareInnerDirectionOf(Blobs.SquareLoop());
  }

  /** The same, for a ring known only to equal the square loop. */
  lemma SquareInnerDirectionOf(sq: Ring)
    requires sq == Blobs.SquareLoop()
    ensures GetInnerDirection(sq, Blobs.SquareCo, 1) == Ok(Vec(0.5, -0.5))
  {
    assert GetPoint(sq, 2) == Ok(3) && GetPoint(sq, 0) == Ok(1) by {
      Blobs.SquareLoopPoints();
    }
    assert Blobs.IsClockwise(sq, Blobs.SquareCo) == Ok(false) by {
      Blobs.SquareLoopOrientationAndArea();
    }
    Blobs.SquareDiagonalEnds();
    DiagonalHalfTurn(Vec(1.0, 1.0), Vec(0.0, 0.0));
    InnerDirectionIs(sq, Blobs.SquareCo, 1, 3, 1, false, Vec(1.0, 1.0), Vec(0.0, 0.0), Vec(0.5, -0.5));
  }

  /** The inner direction, once the neighbours' positions and the turned
      chord between them are known. */
  lemma InnerDirectionIs(ring: Ring, co: PointId -> Vec, i: int, next: PointId, previous: PointId, clockwise: bool, a: Vec, b: Vec, expected: Vec)
    requires GetPoint(ring, i + 1) == Ok(next) && GetPoint(ring, i - 1) == Ok(previous)
    requires Blobs.IsClockwise(ring, co) == Ok(clockwise)
    requires co(next) == a && co(previous) == b
    requires HalfTurn(Sub(a, b), clockwise) == expected
    ensures GetInnerDirection(ring, co, i) == Ok(expected)
  {
    InnerDirectionFrom(ring, co, i, next, previous, clockwise);
  }

  /** The unit diagonal, halved and turned clockwise. */
  lemma DiagonalHalfTurn(a: Vec, b: Vec)
    requires a == Vec(1.0, 1.0) && b == Vec(0.0, 0.0)
    ensures HalfTurn(Sub(a, b), false) == Vec(0.5, -0.5)
  {
  }

  // ---------------------------------------------------------------------
  // Thinning: the most crowded point and the modify guard
  // ---------------------------------------------------------------------

  /** The crowding score of position `k`: the squared distances from its
      point to the points before and after it. Squared distances keep the
      score exact. */
  function GapSum(ring: Ring, co: PointId -> Vec, k: int): (r: Result<real>)
    ensures PointNumber(ring) == 0 ==> r == Err(ZeroDivisionError)
    ensures Oriented(ring) ==> r.Ok?
    ensures r.Ok? ==> r.value >= 0.0
  {
    assert Oriented(ring) ==> PointNumber(ring) >= 1 by {
      if Oriented(ring) { PointNumberBound(ring); }
    }
    var around :- Indexes.NeighboringIndexes(PointNumber(ring), k);
    var previous :- GetPoint(ring, around.0);
    var point :- GetPoint(ring, k);
    var next :- GetPoint(ring, around.1);
    Ok(LengthSquared(Sub(co(point), co(previous))) + LengthSquared(Sub(co(point), co(next))))
  }

  /** The scan of `find_most_crowded_point_index` over precomputed scores:
      the first position whose score is strictly smallest, the first failing
      score's error, or `UnboundLocalError` when there is nothing to scan
      (the answer is then never assigned). */
  method FirstMinimum(scores: seq<Result<real>>) returns (r: Result<nat>)
    ensures r.Ok? <==> |scores| > 0 && forall k :: 0 <= k < |scores| ==> scores[k].Ok?
    ensures |scores| == 0 ==> r == Err(UnboundLocalError)
    ensures r.Err? && |scores| > 0 ==> exists k :: 0 <= k < |scores| && scores[k] == Err(r.error)
    ensures r.Ok? ==> r.value < |scores|
    ensures r.Ok? ==> forall k :: 0 <= k < |scores| ==> scores[r.value].value <= scores[k].value
    ensures r.Ok? ==> forall k :: 0 <= k < r.value ==> scores[r.value].value < scores[k].value
  {
    if |scores| == 0 {
      return Err(UnboundLocalError);
    }
    var best: nat := 0;
    var smallest: real := 0.0;
    var k := 0;
    while k < |scores|
      invariant 0 <= k <= |scores| && best <= k
      invariant forall j :: 0 <= j < k ==> scores[j].Ok?
      invariant k > 0 ==> best < k && scores[best] == Ok(smallest)
      invariant forall j :: 0 <= j < k ==> smallest <= scores[j].value
      invariant forall j :: 0 <= j < best ==> smallest < scores[j].value
    {
      if scores[k].Err? {
        return Err(scores[k].error);
      }
      if k == 0 || scores[k].value < smallest {
        best, smallest := k, scores[k].value;
      }
      k := k + 1;
    }
    return Ok(best);
  }

  /** `find_most_crowded_point_index`: the first position whose crowding
      score is strictly smallest. A ring without points leaves the answer
      unassigned, which Python reports as `UnboundLocalError`; a failing
      lookup propagates. */
  method FindMostCrowded(ring: Ring, co: PointId -> Vec) returns (r: Result<nat>)
    ensures r.Ok? <==> PointNumber(ring) > 0 && forall k :: 0 <= k < PointNumber(ring) ==> GapSum(ring, co, k).Ok?
    ensures Oriented(ring) ==> r.Ok?
    ensures PointNumber(ring) <= 0 ==> r == Err(UnboundLocalError)
    ensures r.Err? && PointNumber(ring) > 0 ==>
      exists k :: 0 <= k < PointNumber(ring) && GapSum(ring, co, k) == Err(r.error)
    ensures r.Ok? ==> r.value < PointNumber(ring)
    ensures r.Ok? ==> forall k :: 0 <= k < PointNumber(ring) ==> GapSum(ring, co, r.value).value <= GapSum(ring, co, k).value
    ensures r.Ok? ==> forall k :: 0 <= k < r.value ==> GapSum(ring, co, r.value).value < GapSum(ring, co, k).value
  {
    var n := if PointNumber(ring) < 0 then 0 else PointNumber(ring);
    var scores := seq(n, k => GapSum(ring, co, k));
    assert forall k :: 0 <= k < n ==> scores[k] == GapSum(ring, co, k);
    if Oriented(ring) {
      PointNumberBound(ring);
    }
    r := FirstMinimum(scores);
  }

  /** What one round of `modify_point_number` does per iteration. */
  datatype Edit = CreateMidpointAtBiggestGap | RemoveMostCrowded

  /** The guard of `modify_point_number`: the edits it performs, one per
      unit of `delta`. Growing is always allowed; shrinking is refused
      outright when the blob has at most three points. */
  function ModifyPlan(pointNumber: int, delta: int): (r: seq<Edit>)
    ensures |r| == 0 <==> delta == 0 || (pointNumber <= 3 && delta < 0)
    ensures |r| > 0 ==> |r| == (if delta < 0 then -delta else delta)
    ensures forall e :: e in r ==> (e == CreateMidpointAtBiggestGap <==> delta > 0)
  {
    if pointNumber <= 3 && delta < 0 then []
    else if delta > 0 then seq(delta, _ => CreateMidpointAtBiggestGap)
    else seq(-delta, _ => RemoveMostCrowded)
  }
}

/** The handle store and the blob operations that read or write more than one
    record: which side of each chain a blob lies on, building a blob from a
    chain loop, and the validity and mutual-reference checks. */
module Worlds {

  import opened Results
  import opened Points
  import opened Geometry
  import opened Chains
  import opened Rings
  import Blobs

  /** A blob record: its chains, by handle, in loop order. */
  datatype Blob = Blob(loop: seq<ChainId>)

  /** Every record of the simulation, addressed by handle. */
  datatype World = World(
    points: map<PointId, Point>,
    adj: Adjacency,
    chains: map<ChainId, Chain>,
    blobs: map<BlobId, Blob>)

  predicate ChainsStored(w: World, loop: seq<ChainId>) {
    forall k :: 0 <= k < |loop| ==> loop[k] in w.chains
  }

  /** No chain handle occurs twice in the loop. */
  predicate Distinct(loop: seq<ChainId>) {
    forall i, j :: 0 <= i < j < |loop| ==> loop[i] != loop[j]
  }

  /** The ring a loop of chain handles stands for: the chains' point lists. */
  function RingOf(w: World, loop: seq<ChainId>): (r: Ring)
    requires ChainsStored(w, loop)
    ensures |r| == |loop|
    ensures forall k :: 0 <= k < |loop| ==> r[k] == w.chains[loop[k]].points
  {
    seq(|loop|, k requires 0 <= k < |loop| => w.chains[loop[k]].points)
  }

  /** Point positions; a handle without a record sits at the origin. */
  function CoOf(points: map<PointId, Point>): PointId -> Vec {
    p => if p in points then points[p].co else Zero
  }

  /** Two worlds whose chains hold the same points give the same ring. */
  lemma RingOfSamePoints(w: World, w': World, loop: seq<ChainId>)
    requires ChainsStored(w, loop) && ChainsStored(w', loop)
    requires forall k :: 0 <= k < |loop| ==> w'.chains[loop[k]].points == w.chains[loop[k]].points
    ensures RingOf(w', loop) == RingOf(w, loop)
  {
  }

  // ---------------------------------------------------------------------
  // Blob references on chains.

  /** `set_blobs` on one side: that side now names `b`; the other side and
      the points are kept. */
  function SetBlobs(c: Chain, b: BlobId, right: bool): (r: Chain)
    ensures r.points == c.points
    ensures right ==> r.blobRight == Some(b) && r.blobLeft == c.blobLeft
    ensures !right ==> r.blobLeft == Some(b) && r.blobRight == c.blobRight
  {
    if right then c.(blobRight := Some(b)) else c.(blobLeft := Some(b))
  }

  /** The side rule all three reference operations follow: the blob is on a
      chain's right when the loop is clockwise or the chain runs backwards,
      but not both. */
  function OnRight(cw: bool, backwards: bool): bool {
    cw != backwards
  }

  /** The loop of `set_blob_reference_on_chains` from chain `i` on: the blob
      is on the left of a forward chain of a counter-clockwise loop, and the
      side flips for a backwards chain. */
  function AssignSides(w: World, b: BlobId, loop: seq<ChainId>, ring: Ring, cw: bool, i: nat): (r: Result<World>)
    requires ChainsStored(w, loop) && i <= |loop|
    ensures r.Ok? ==> r.value.points == w.points && r.value.adj == w.adj && r.value.blobs == w.blobs
    ensures r.Ok? ==> r.value.chains.Keys == w.chains.Keys
    decreases |loop| - i
  {
    if i == |loop| then Ok(w)
    else
      var backwards :- Backwards(ring, i);
      var toTheLeft := !cw;
      var left := if backwards then !toTheLeft else toTheLeft;
      var c := w.chains[loop[i]];
      var c' := if left then SetBlobs(c, b, false) else SetBlobs(c, b, true);
      AssignSides(w.(chains := w.chains[loop[i] := c']), b, loop, ring, cw, i + 1)
  }

  /** `set_blob_reference_on_chains`: the loop's orientation first, then
      each chain in loop order. */
  function SetBlobReferenceOnChains(w: World, b: BlobId): (r: Result<World>)
    requires b in w.blobs && ChainsStored(w, w.blobs[b].loop)
    ensures r.Ok? ==> r.value.points == w.points && r.value.adj == w.adj && r.value.blobs == w.blobs
  {
    var loop := w.blobs[b].loop;
    var ring := RingOf(w, loop);
    var cw :- Blobs.IsClockwise(ring, CoOf(w.points));
    AssignSides(w, b, loop, ring, cw, 0)
  }

  /** One step of the pass: chain `i` gets its side, then the rest follow. */
  lemma AssignSidesStep(w: World, b: BlobId, loop: seq<ChainId>, ring: Ring, cw: bool, i: nat)
    requires ChainsStored(w, loop) && i < |loop| && Backwards(ring, i).Ok?
    ensures var c' := SetBlobs(w.chains[loop[i]], b, OnRight(cw, Backwards(ring, i).value));
      AssignSides(w, b, loop, ring, cw, i) == AssignSides(w.(chains := w.chains[loop[i] := c']), b, loop, ring, cw, i + 1)
  {
  }

  /** A successful pass leaves every chain it does not reach as it was. */
  lemma {:induction false} AssignSidesFrame(w: World, b: BlobId, loop: seq<ChainId>, ring: Ring, cw: bool, i: nat, h: ChainId)
    requires ChainsStored(w, loop) && i <= |loop| && AssignSides(w, b, loop, ring, cw, i).Ok?
    requires h in w.chains && h !in loop[i..]
    ensures AssignSides(w, b, loop, ring, cw, i).value.chains[h] == w.chains[h]
    decreases |loop| - i
  {
    if i < |loop| {
      var backwards := Backwards(ring, i).value;
      var c' := SetBlobs(w.chains[loop[i]], b, OnRight(cw, backwards));
      var w' := w.(chains := w.chains[loop[i] := c']);
      AssignSidesStep(w, b, loop, ring, cw, i);
      assert loop[i..] == [loop[i]] + loop[i + 1..];
      AssignSidesFrame(w', b, loop, ring, cw, i + 1, h);
    }
  }

  /** On an oriented loop of distinct chains every chain from `i` on gets
      the blob on the side the rule names. */
  lemma {:induction false} AssignSidesOutcome(w: World, b: BlobId, loop: seq<ChainId>, ring: Ring, cw: bool, i: nat)
    requires ChainsStored(w, loop) && i <= |loop| && |ring| == |loop|
    requires Oriented(ring) && Distinct(loop)
    ensures AssignSides(w, b, loop, ring, cw, i).Ok?
    ensures var r := AssignSides(w, b, loop, ring, cw, i).value;
      forall k :: i <= k < |loop| ==>
        r.chains[loop[k]] == SetBlobs(w.chains[loop[k]], b, OnRight(cw, Backwards(ring, k).value))
    decreases |loop| - i
  {
    if i < |loop| {
      var backwards := Backwards(ring, i).value;
      var c' := SetBlobs(w.chains[loop[i]], b, OnRight(cw, backwards));
      var w' := w.(chains := w.chains[loop[i] := c']);
      AssignSidesStep(w, b, loop, ring, cw, i);
      AssignSidesOutcome(w', b, loop, ring, cw, i + 1);
      assert loop[i] !in loop[i + 1..];
      AssignSidesFrame(w', b, loop, ring, cw, i + 1, loop[i]);
      var r := AssignSides(w', b, loop, ring, cw, i + 1).value;
      forall k | i <= k < |loop|
        ensures r.chains[loop[k]] == SetBlobs(w.chains[loop[k]], b, OnRight(cw, Backwards(ring, k).value))
      {
        if k > i {
          assert loop[k] != loop[i];
          assert w'.chains[loop[k]] == w.chains[loop[k]];
        }
      }
    }
  }

  /** After `set_blob_reference_on_chains` each chain of an oriented loop of
      distinct chains names the blob on the side the rule gives it; nothing
      else in the store changes. */
  lemma SetReferencesOutcome(w: World, b: BlobId)
    requires b in w.blobs && ChainsStored(w, w.blobs[b].loop)
    requires Oriented(RingOf(w, w.blobs[b].loop)) && Distinct(w.blobs[b].loop)
    ensures SetBlobReferenceOnChains(w, b).Ok?
    ensures var loop := w.blobs[b].loop;
      var ring := RingOf(w, loop);
      var cw := Blobs.IsClockwise(ring, CoOf(w.points)).value;
      var r := SetBlobReferenceOnChains(w, b).value;
      && (forall k :: 0 <= k < |loop| ==>
            r.chains[loop[k]] == SetBlobs(w.chains[loop[k]], b, OnRight(cw, Backwards(ring, k).value)))
      && (forall h :: h in w.chains && h !in loop ==> r.chains[h] == w.chains[h])
  {
    var loop := w.blobs[b].loop;
    var ring := RingOf(w, loop);
    var cw := Blobs.IsClockwise(ring, CoOf(w.points)).value;
    AssignSidesOutcome(w, b, loop, ring, cw, 0);
    assert loop[0..] == loop;
    forall h | h in w.chains && h !in loop
      ensures SetBlobReferenceOnChains(w, b).value.chains[h] == w.chains[h]
    {
      AssignSidesFrame(w, b, loop, ring, cw, 0, h);
    }
  }

  /** The loop of `from_chain_loop` from chain `i` on. Each step asks for the
      chain's direction and then for the loop's orientation; a backwards
      chain of a counter-clockwise loop, or a forward chain of a clockwise
      one, gets the blob on its right. */
  function FromLoopSides(w: World, b: BlobId, loop: seq<ChainId>, ring: Ring, co: PointId -> Vec, i: nat): (r: Result<World>)
    requires ChainsStored(w, loop) && i <= |loop|
    ensures r.Ok? ==> r.value.points == w.points && r.value.adj == w.adj && r.value.blobs == w.blobs
    ensures r.Ok? ==> r.value.chains.Keys == w.chains.Keys
    decreases |loop| - i
  {
    if i == |loop| then Ok(w)
    else
      var flag :- Backwards(ring, i);
      var cw :- Blobs.IsClockwise(ring, co);
      var onRight := if cw then !flag else flag;
      var c := w.chains[loop[i]];
      var c' := if onRight then SetBlobs(c, b, true) else SetBlobs(c, b, false);
      FromLoopSides(w.(chains := w.chains[loop[i] := c']), b, loop, ring, co, i + 1)
  }

  /** `from_chain_loop`: a new blob `b` over the given loop, then a side for
      each chain. */
  function FromChainLoop(w: World, b: BlobId, loop: seq<ChainId>): (r: Result<World>)
    requires b !in w.blobs && ChainsStored(w, loop)
    ensures r.Ok? ==> b in r.value.blobs && r.value.blobs[b] == Blob(loop)
    ensures r.Ok? ==> r.value.points == w.points && r.value.adj == w.adj
    ensures r.Ok? ==> r.value.chains.Keys == w.chains.Keys && ChainsStored(r.value, loop)
  {
    var w1 := w.(blobs := w.blobs[b := Blob(loop)]);
    FromLoopSides(w1, b, loop, RingOf(w, loop), CoOf(w.points), 0)
  }

  /** One step of `from_chain_loop`'s pass, on an orientable loop. */
  lemma FromLoopSidesStep(w: World, b: BlobId, loop: seq<ChainId>, ring: Ring, co: PointId -> Vec, i: nat)
    requires ChainsStored(w, loop) && i < |loop|
    requires Backwards(ring, i).Ok? && Blobs.IsClockwise(ring, co).Ok?
    ensures var right := OnRight(Blobs.IsClockwise(ring, co).value, Backwards(ring, i).value);
      var c' := SetBlobs(w.chains[loop[i]], b, right);
      FromLoopSides(w, b, loop, ring, co, i) == FromLoopSides(w.(chains := w.chains[loop[i] := c']), b, loop, ring, co, i + 1)
  {
  }

  /** Step for step the two loops assign the same side. */
  lemma {:induction false} FromLoopSidesIsAssignSides(w: World, b: BlobId, loop: seq<ChainId>, ring: Ring, co: PointId -> Vec, cw: bool, i: nat)
    requires ChainsStored(w, loop) && i <= |loop| && |ring| == |loop|
    requires forall k :: 0 <= k < |ring| ==> Backwards(ring, k).Ok?
    requires Blobs.IsClockwise(ring, co) == Ok(cw)
    ensures FromLoopSides(w, b, loop, ring, co, i) == AssignSides(w, b, loop, ring, cw, i)
    decreases |loop| - i
  {
    if i < |loop| {
      var c' := SetBlobs(w.chains[loop[i]], b, OnRight(cw, Backwards(ring, i).value));
      FromLoopSidesStep(w, b, loop, ring, co, i);
      AssignSidesStep(w, b, loop, ring, cw, i);
      FromLoopSidesIsAssignSides(w.(chains := w.chains[loop[i] := c']), b, loop, ring, co, cw, i + 1);
    }
  }

  /** `from_chain_loop` and `set_blob_reference_on_chains` put the blob on
      the same side of every chain of an oriented loop. */
  lemma FromChainLoopSetsReferences(w: World, b: BlobId, loop: seq<ChainId>)
    requires b !in w.blobs && ChainsStored(w, loop) && Oriented(RingOf(w, loop))
    ensures var w1 := w.(blobs := w.blobs[b := Blob(loop)]);
      FromChainLoop(w, b, loop) == SetBlobReferenceOnChains(w1, b)
  {
    var w1 := w.(blobs := w.blobs[b := Blob(loop)]);
    assert RingOf(w1, loop) == RingOf(w, loop);
    var ring := RingOf(w, loop);
    FromLoopSidesIsAssignSides(w1, b, loop, ring, CoOf(w.points), Blobs.IsClockwise(ring, CoOf(w.points)).value, 0);
  }

  // ---------------------------------------------------------------------
  // Validity.

  /** A check that fails: raise when asked to, answer `False` otherwise. */
  function Fail(raiseErrors: bool, e: Error): (r: Result<bool>)
    ensures raiseErrors ==> r == Err(e)
    ensures !raiseErrors ==> r == Ok(false)
  {
    if raiseErrors then Err(e) else Ok(false)
  }

  /** The two-chain rule of `is_valid`: a pair of chains that meet at one end
      must meet at the other end too. */
  predicate TwoChainsDisconnected(c1: seq<PointId>, c2: seq<PointId>) {
    var sToS := Start(c1) == Start(c2);
    var eToE := End(c1) == End(c2);
    var sToE := Start(c1) == End(c2);
    var eToS := End(c1) == Start(c2);
    (sToS && !eToE) || (eToE && !sToS) || (sToE && !eToS) || (eToS && !sToE)
  }

  /** The chain before chain `k` in loop order. */
  function Prev(m: nat, k: nat): nat
    requires k < m
  {
    if k == 0 then m - 1 else k - 1
  }

  /** The shape checks of `is_valid`, in its order: `None` when they pass,
      otherwise the exception the first failing one raises. */
  function StructureCheck(ring: Ring): (r: Option<Error>)
    ensures r == None ==> WellFormed(ring)
  {
    if |ring| < 1 then Some(RuntimeError)
    else if exists k :: 0 <= k < |ring| && |ring[k]| < 2 then Some(RuntimeError)
    else if |ring| == 1 && Start(ring[0]) != End(ring[0]) then Some(ValueError)
    else if exists k :: 0 <= k < |ring| && !IsConnectedTo(ring[k], ring[Prev(|ring|, k)]) then Some(RuntimeError)
    else if |ring| == 2 && TwoChainsDisconnected(ring[0], ring[1]) then Some(ValueError)
    else None
  }

  /** The blob is where the side rule wants it on chain `c`, and not on the
      other side as well. */
  predicate SideCorrect(c: Chain, b: BlobId, right: bool) {
    if right then c.blobRight == Some(b) && c.blobLeft != Some(b)
    else c.blobLeft == Some(b) && c.blobRight != Some(b)
  }

  /** The reference loop of `is_valid` from chain `i` on; `Ok(true)` means
      every chain passed. */
  function ReferenceScan(w: World, b: BlobId, loop: seq<ChainId>, ring: Ring, cw: bool, raiseErrors: bool, i: nat): (r: Result<bool>)
    requires ChainsStored(w, loop) && i <= |loop|
    decreases |loop| - i
  {
    if i == |loop| then Ok(true)
    else
      var rightSide := cw;
      var backwards :- Backwards(ring, i);
      var rightOfThis := if backwards then !rightSide else rightSide;
      var correct := SideCorrect(w.chains[loop[i]], b, rightOfThis);
      if !correct then Fail(raiseErrors, ValueError)
      else ReferenceScan(w, b, loop, ring, cw, raiseErrors, i + 1)
  }

  /** The blob names the chain on one side, and not on both. */
  predicate BlobToChainOk(c: Chain, b: BlobId) {
    (c.blobRight == Some(b) || c.blobLeft == Some(b)) && c.blobRight != c.blobLeft
  }

  /** Blob `r`'s loop holds a chain equal to one with points `pts`. */
  predicate ListedIn(w: World, r: BlobId, pts: seq<PointId>) {
    r in w.blobs &&
    exists j :: 0 <= j < |w.blobs[r].loop| &&
      w.blobs[r].loop[j] in w.chains && Equal(w.chains[w.blobs[r].loop[j]].points, pts)
  }

  /** Each blob the chain names holds the chain, and the two sides differ. */
  predicate ChainToBlobOk(w: World, c: Chain) {
    && (c.blobRight.Some? ==> ListedIn(w, c.blobRight.value, c.points))
    && (c.blobLeft.Some? ==> ListedIn(w, c.blobLeft.value, c.points))
    && !(c.blobLeft.Some? && c.blobRight.Some? && c.blobRight == c.blobLeft)
  }

  /** `are_all_references_mutual`, on the blob and chain records. */
  function AreAllReferencesMutual(w: World, b: BlobId, raiseErrors: bool): (r: Result<bool>)
    requires b in w.blobs && ChainsStored(w, w.blobs[b].loop)
    ensures raiseErrors ==> r != Ok(false)
    ensures !raiseErrors ==> r.Ok?
    ensures r == Ok(true) ==> forall k :: 0 <= k < |w.blobs[b].loop| ==> BlobToChainOk(w.chains[w.blobs[b].loop[k]], b)
  {
    var loop := w.blobs[b].loop;
    if exists k :: 0 <= k < |loop| && !BlobToChainOk(w.chains[loop[k]], b) then Fail(raiseErrors, ValueError)
    else if exists k :: 0 <= k < |loop| && !ChainToBlobOk(w, w.chains[loop[k]]) then Fail(raiseErrors, ValueError)
    else if forall k :: 0 <= k < |loop| ==> |w.chains[loop[k]].points| == 0 then Fail(raiseErrors, RuntimeError)
    else Ok(true)
  }

  /** `is_valid`: the shape checks, then the orientation, the side of every
      chain, and the mutual references. */
  function IsValid(w: World, b: BlobId, raiseErrors: bool): (r: Result<bool>)
    requires b in w.blobs && ChainsStored(w, w.blobs[b].loop)
    ensures r == Ok(true) ==> Oriented(RingOf(w, w.blobs[b].loop))
    ensures r == Ok(true) ==> forall k :: 0 <= k < |w.blobs[b].loop| ==> BlobToChainOk(w.chains[w.blobs[b].loop[k]], b)
  {
    var loop := w.blobs[b].loop;
    var ring := RingOf(w, loop);
    match StructureCheck(ring)
    case Some(e) => Fail(raiseErrors, e)
    case None =>
      var cw :- Blobs.IsClockwise(ring, CoOf(w.points));
      var sidesOk :- ReferenceScan(w, b, loop, ring, cw, raiseErrors, 0);
      if !sidesOk then Ok(false)
      else StructureMeans(ring); AreAllReferencesMutual(w, b, raiseErrors)
  }

  // ---------------------------------------------------------------------
  // What the validity check establishes.

  /** The shape checks pass exactly on loops whose chains have at least two
      points and link up: a single chain must be closed, two chains must
      meet at both ends, and every chain shares an endpoint with the one
      before it. Such a loop is oriented. */
  lemma StructureMeans(ring: Ring)
    requires StructureCheck(ring) == None
    ensures Oriented(ring)
    ensures forall k :: 0 <= k < |ring| ==> IsConnectedTo(ring[k], ring[Prev(|ring|, k)])
    ensures |ring| == 1 ==> Start(ring[0]) == End(ring[0])
    ensures |ring| == 2 ==>
      (Start(ring[0]) == Start(ring[1]) && End(ring[0]) == End(ring[1])) ||
      (Start(ring[0]) == End(ring[1]) && End(ring[0]) == Start(ring[1]))
  {
    var m := |ring|;
    forall k | 0 <= k < m ensures Backwards(ring, k).Ok? {
      if m > 2 {
        var next := (k + 1) % m;
        ListUtil.ModNext(m, k);
        assert Prev(m, next) == k;
        assert IsConnectedTo(ring[next], ring[k]);
        assert Endpoints(ring[k]) * Endpoints(ring[next]) == Endpoints(ring[next]) * Endpoints(ring[k]);
      }
    }
    if m == 2 {
      assert IsConnectedTo(ring[0], ring[Prev(m, 0)]);
      var e :| e in Endpoints(ring[0]) * Endpoints(ring[1]);
    }
  }

  /** A closed loop passes the shape checks. */
  lemma ClosedPassesStructure(ring: Ring)
    requires Closed(ring)
    ensures StructureCheck(ring) == None
  {
    var m := |ring|;
    forall k | 0 <= k < m ensures IsConnectedTo(ring[k], ring[Prev(m, k)]) {
      var p := Prev(m, k);
      if m > 1 {
        if k == 0 {
          assert Tail(ring, m - 1) == Head(ring, 0);
        } else {
          assert Tail(ring, k - 1) == Head(ring, k);
        }
        assert Tail(ring, p) in Endpoints(ring[k]) * Endpoints(ring[p]);
      } else {
        assert ring[k][0] in Endpoints(ring[k]) * Endpoints(ring[p]);
      }
    }
    if m == 2 {
      assert Backwards(ring, 0) == Ok(false);
      assert Tail(ring, 0) == Head(ring, 1) && Tail(ring, 1) == Head(ring, 0);
    }
  }

  /** Every chain from `i` on has a known direction and the blob on the
      side the rule names. */
  predicate SidesFrom(w: World, b: BlobId, loop: seq<ChainId>, ring: Ring, cw: bool, i: nat)
    requires ChainsStored(w, loop)
  {
    forall k :: i <= k < |loop| ==>
      Backwards(ring, k).Ok? && SideCorrect(w.chains[loop[k]], b, OnRight(cw, Backwards(ring, k).value))
  }

  /** Every chain of the loop passes both reference tests. */
  predicate RefsAgree(w: World, b: BlobId, loop: seq<ChainId>)
    requires ChainsStored(w, loop)
  {
    forall k :: 0 <= k < |loop| ==> BlobToChainOk(w.chains[loop[k]], b) && ChainToBlobOk(w, w.chains[loop[k]])
  }

  /** One step of the reference loop, at a chain whose direction is known. */
  lemma ReferenceScanStep(w: World, b: BlobId, loop: seq<ChainId>, ring: Ring, cw: bool, raiseErrors: bool, i: nat)
    requires ChainsStored(w, loop) && i < |loop| && Backwards(ring, i).Ok?
    ensures ReferenceScan(w, b, loop, ring, cw, raiseErrors, i) ==
      if SideCorrect(w.chains[loop[i]], b, OnRight(cw, Backwards(ring, i).value))
      then ReferenceScan(w, b, loop, ring, cw, raiseErrors, i + 1)
      else Fail(raiseErrors, ValueError)
  {
  }

  /** Over chains of known direction the reference loop passes exactly when
      every chain from `i` on has the blob on the side the rule names; when
      it does not pass it raises `ValueError` or answers `False`. */
  lemma {:induction false} ReferenceScanMeans(w: World, b: BlobId, loop: seq<ChainId>, ring: Ring, cw: bool, raiseErrors: bool, i: nat)
    requires ChainsStored(w, loop) && i <= |loop| && |ring| == |loop|
    requires forall k :: 0 <= k < |ring| ==> Backwards(ring, k).Ok?
    ensures var r := ReferenceScan(w, b, loop, ring, cw, raiseErrors, i);
      && (r == Ok(true) <==> SidesFrom(w, b, loop, ring, cw, i))
      && (r != Ok(true) ==> r == Fail(raiseErrors, ValueError))
    decreases |loop| - i
  {
    if i < |loop| {
      ReferenceScanStep(w, b, loop, ring, cw, raiseErrors, i);
      ReferenceScanMeans(w, b, loop, ring, cw, raiseErrors, i + 1);
    }
  }

  /** The valid blob, described directly: the loop passes the shape checks,
      every chain has the blob on the side the rule names for it, and the
      blob and chain references agree. */
  ghost predicate ValidBlob(w: World, b: BlobId)
    requires b in w.blobs && ChainsStored(w, w.blobs[b].loop)
  {
    var loop := w.blobs[b].loop;
    var ring := RingOf(w, loop);
    && StructureCheck(ring) == None
    && Blobs.IsClockwise(ring, CoOf(w.points)).Ok?
    && SidesFrom(w, b, loop, ring, Blobs.IsClockwise(ring, CoOf(w.points)).value, 0)
    && RefsAgree(w, b, loop)
  }

  /** The mutual-reference check passes exactly when every chain of the
      loop passes both reference tests and some chain has points. */
  lemma MutualMeans(w: World, b: BlobId, raiseErrors: bool)
    requires b in w.blobs && ChainsStored(w, w.blobs[b].loop)
    ensures var loop := w.blobs[b].loop;
      AreAllReferencesMutual(w, b, raiseErrors) == Ok(true) <==>
        RefsAgree(w, b, loop) && exists k :: 0 <= k < |loop| && |w.chains[loop[k]].points| != 0
  {
  }

  /** Past the shape checks, `is_valid` is the reference loop followed by
      the mutual-reference check. */
  lemma IsValidPastStructure(w: World, b: BlobId, raiseErrors: bool, cw: bool)
    requires b in w.blobs && ChainsStored(w, w.blobs[b].loop)
    requires StructureCheck(RingOf(w, w.blobs[b].loop)) == None
    requires Blobs.IsClockwise(RingOf(w, w.blobs[b].loop), CoOf(w.points)) == Ok(cw)
    ensures var loop := w.blobs[b].loop;
      var scan := ReferenceScan(w, b, loop, RingOf(w, loop), cw, raiseErrors, 0);
      IsValid(w, b, raiseErrors) ==
        if scan == Ok(true) then AreAllReferencesMutual(w, b, raiseErrors)
        else if scan == Ok(false) then Ok(false)
        else scan
  {
  }

  /** `is_valid` in one mode: `True` exactly for a valid blob; otherwise an
      exception when raising, `False` when not. */
  lemma IsValidIn(w: World, b: BlobId, raiseErrors: bool)
    requires b in w.blobs && ChainsStored(w, w.blobs[b].loop)
    ensures IsValid(w, b, raiseErrors) == Ok(true) <==> ValidBlob(w, b)
    ensures raiseErrors ==> IsValid(w, b, raiseErrors) != Ok(false)
    ensures !raiseErrors ==> IsValid(w, b, raiseErrors).Ok?
  {
    var loop := w.blobs[b].loop;
    var ring := RingOf(w, loop);
    if StructureCheck(ring) == None {
      StructureMeans(ring);
      var cw := Blobs.IsClockwise(ring, CoOf(w.points)).value;
      IsValidPastStructure(w, b, raiseErrors, cw);
      ReferenceScanMeans(w, b, loop, ring, cw, raiseErrors, 0);
      MutualMeans(w, b, raiseErrors);
      assert |w.chains[loop[0]].points| != 0 by {
        assert |ring[0]| >= 2;
      }
      assert ValidBlob(w, b) <==> SidesFrom(w, b, loop, ring, cw, 0) && RefsAgree(w, b, loop);
    } else {
      assert IsValid(w, b, raiseErrors) == Fail(raiseErrors, StructureCheck(ring).value);
    }
  }

  /** `is_valid` answers `True` exactly for a valid blob, in either mode;
      asked not to raise it never raises, asked to raise it never answers
      `False`, and the two modes agree. */
  lemma IsValidMeans(w: World, b: BlobId)
    requires b in w.blobs && ChainsStored(w, w.blobs[b].loop)
    ensures IsValid(w, b, true) == Ok(true) <==> ValidBlob(w, b)
    ensures IsValid(w, b, false) == Ok(true) <==> ValidBlob(w, b)
    ensures IsValid(w, b, false).Ok?
    ensures IsValid(w, b, true) != Ok(false)
  {
    IsValidIn(w, b, true);
    IsValidIn(w, b, false);
  }

  /** A chain that borders no blob yet, after `set_blobs` on either side,
      passes every per-chain test of `is_valid` for that blob. */
  lemma FreshChainPasses(w: World, b: BlobId, h: ChainId, c: Chain, right: bool)
    requires c.blobLeft.None? && c.blobRight.None?
    requires b in w.blobs && h in w.blobs[b].loop && h in w.chains
    requires w.chains[h] == SetBlobs(c, b, right)
    ensures SideCorrect(w.chains[h], b, right)
    ensures BlobToChainOk(w.chains[h], b) && ChainToBlobOk(w, w.chains[h])
  {
    var j :| 0 <= j < |w.blobs[b].loop| && w.blobs[b].loop[j] == h;
    EqualIsEquivalence(c.points, c.points, c.points);
    assert ListedIn(w, b, w.chains[h].points);
  }

  /** `from_chain_loop` over distinct chains that pass the shape checks and
      border no blob yet builds a blob that `is_valid` accepts in either
      mode. */
  lemma FromChainLoopValid(w: World, b: BlobId, loop: seq<ChainId>, raiseErrors: bool)
    requires b !in w.blobs && ChainsStored(w, loop) && Distinct(loop)
    requires StructureCheck(RingOf(w, loop)) == None
    requires forall k :: 0 <= k < |loop| ==> w.chains[loop[k]].blobLeft.None? && w.chains[loop[k]].blobRight.None?
    ensures FromChainLoop(w, b, loop).Ok?
    ensures var r := FromChainLoop(w, b, loop).value;
      IsValid(r, b, raiseErrors) == Ok(true)
  {
    var w1 := w.(blobs := w.blobs[b := Blob(loop)]);
    var ring := RingOf(w, loop);
    assert RingOf(w1, loop) == ring;
    StructureMeans(ring);
    FromChainLoopSetsReferences(w, b, loop);
    SetReferencesOutcome(w1, b);
    var r := SetBlobReferenceOnChains(w1, b).value;
    var cw := Blobs.IsClockwise(ring, CoOf(w.points)).value;
    assert forall k :: 0 <= k < |loop| ==>
      r.chains[loop[k]] == SetBlobs(w.chains[loop[k]], b, OnRight(cw, Backwards(ring, k).value));
    RingOfSamePoints(w1, r, loop);
    forall k | 0 <= k < |loop|
      ensures SideCorrect(r.chains[loop[k]], b, OnRight(cw, Backwards(ring, k).value))
      ensures BlobToChainOk(r.chains[loop[k]], b) && ChainToBlobOk(r, r.chains[loop[k]])
    {
      FreshChainPasses(r, b, loop[k], w.chains[loop[k]], OnRight(cw, Backwards(ring, k).value));
    }
    assert ValidBlob(r, b);
    IsValidIn(r, b, raiseErrors);
  }

  /** A loop that passes the shape checks but has some chain with the blob
      on the wrong side fails `is_valid` with `ValueError`. */
  lemma WrongSideFails(w: World, b: BlobId, cw: bool, raiseErrors: bool)
    requires b in w.blobs && ChainsStored(w, w.blobs[b].loop)
    requires StructureCheck(RingOf(w, w.blobs[b].loop)) == None
    requires Blobs.IsClockwise(RingOf(w, w.blobs[b].loop), CoOf(w.points)) == Ok(cw)
    requires !SidesFrom(w, b, w.blobs[b].loop, RingOf(w, w.blobs[b].loop), cw, 0)
    ensures IsValid(w, b, raiseErrors) == Fail(raiseErrors, ValueError)
  {
    var loop := w.blobs[b].loop;
    var ring := RingOf(w, loop);
    StructureMeans(ring);
    ReferenceScanMeans(w, b, loop, ring, cw, raiseErrors, 0);
    IsValidPastStructure(w, b, raiseErrors, cw);
  }

  /** Exchanging the two sides of the first chain of a valid blob makes
      `is_valid` fail: `False` when not raising, `ValueError` when raising. */
  lemma SwappedSidesInvalid(w: World, b: BlobId)
    requires b in w.blobs && ChainsStored(w, w.blobs[b].loop)
    requires ValidBlob(w, b)
    ensures var h := w.blobs[b].loop[0];
      var c := w.chains[h];
      var w' := w.(chains := w.chains[h := c.(blobLeft := c.blobRight, blobRight := c.blobLeft)]);
      && IsValid(w', b, false) == Ok(false)
      && IsValid(w', b, true) == Err(ValueError)
  {
    var loop := w.blobs[b].loop;
    var ring := RingOf(w, loop);
    var h := loop[0];
    var c := w.chains[h];
    var w' := w.(chains := w.chains[h := c.(blobLeft := c.blobRight, blobRight := c.blobLeft)]);
    var cw := Blobs.IsClockwise(ring, CoOf(w.points)).value;
    assert RingOf(w', loop) == ring && w'.points == w.points by {
      RingOfSamePoints(w, w', loop);
    }
    assert !SidesFrom(w', b, loop, ring, cw, 0) by {
      assert SidesFrom(w, b, loop, ring, cw, 0);
      assert !SideCorrect(w'.chains[h], b, OnRight(cw, Backwards(ring, 0).value));
    }
    assert StructureCheck(RingOf(w', loop)) == None;
    assert Blobs.IsClockwise(RingOf(w', loop), CoOf(w'.points)) == Ok(cw);
    WrongSideFails(w', b, cw, false);
    WrongSideFails(w', b, cw, true);
  }
}

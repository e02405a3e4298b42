# Blob topology engine — a Dafny model

Organic Blob Graphs simulates soft 2D "blobs" that share their borders. A
blob is a closed loop of *chains*. A chain is an ordered list of *points*,
and neighbouring blobs share a chain. This project models the engine's
topology core as pure functions over immutable data, and proves what that
core promises:

- `rotate_list`;
- the two-phase offset protocol of `Point`;
- `Chain`, with its endpoints, cut, merge, midpoint insertion, removal,
  swap and validity;
- `Blob`, with its ring addressing (flat point index ↔ chain and local
  index), junctions, chain direction, orientation, area, `cut_at`,
  `swap_chains`, `is_valid`, blob references, midpoint insertion and
  removal on a blob, crowding and the local-minimum width search;
- the planar-graph face tracer that turns a chain graph into loops.

Files and modules:

| file | module | what it holds |
|---|---|---|
| `results.dfy` | `Results` | `Option`, `Result` and the Python exceptions the engine raises |
| `list_util.dfy` | `ListUtil` | `rotate_list`, and Python list operations: `index`, `remove`, `insert`, negative indexing, `%` |
| `geometry.dfy` | `Geometry` | exact 2D vectors over `real`, the shoelace sum and area |
| `point.dfy` | `Points` | point records, offsets, the symmetric point adjacency |
| `chain.dfy` | `Chains` | the `Chain` operations |
| `indexes.dfy` | `Indexes` | ring index arithmetic of `Blob` (neighbours, distances, opposite) |
| `ring.dfy` | `Rings` | a blob's chain loop as a ring of point lists: addressing, junctions, `cut_at` |
| `blob.dfy` | `Blobs` | point list, `is_clockwise`, `recalculate_area` |
| `loop.dfy` | `Loops` | `swap_chains` on the chain loop |
| `world.dfy` | `Worlds` | the store of points, chains and blobs: `from_chain_loop`, blob references, `is_valid` |
| `edits.dfy` | `PointEdits` | `create_midpoint` and `remove_point` on a blob, inner direction, crowding, the point-count guard |
| `width.dfy` | `Width` | the local-minimum width search |
| `planar_graph.dfy` | `PlanarGraph` | the adjacency build, face tracing, inner-face test |

How the model represents the source:

- Object identity becomes handles. Points, chains and blobs are `nat`
  handles into maps of records.
- Python exceptions become `Err(...)`, naming the exception class. Where
  the engine returns `None`, the model returns `None`.
- Float arithmetic is modelled as exact `real`.
- Euclidean distance, `sqrt` and `atan2` are parameters wherever they are
  used.

## Model

| member | source | states |
|---|---|---|
| ListUtil.RotateList | list_util.py:3-9 | the rotation has the input's length; the empty list rotates to itself |
| ListUtil.RotateIsSplice | list_util.py:5-8 | the rotation is the slice concatenation `l[k:] + l[:k]` with `k = rot % len(l)`, and the empty list is returned unchanged |
| ListUtil.RotateAt | list_util.py:7-8 | element `i` of the rotated list is element `(i + rot) mod n` of the input, so the element at `rot` becomes the first |
| ListUtil.RotatePermutes | list_util.py:3-9 | rotation keeps the multiset of elements |
| ListUtil.RotateCompose | list_util.py:3-9 | rotating by `a` and then by `b` is rotating by `a + b` |
| ListUtil.RotateInverse | list_util.py:3-9 | rotating by `k` and then by `-k` restores the list, which is what `swap_chains` relies on |
| ListUtil.RotateByMultiple | list_util.py:7 | rotating by any multiple of the length, 0 included, is the identity |
| ListUtil.RotateCongruent | list_util.py:7 | only the amount modulo the length matters |
| ListUtil.RotateExamples | tests/misc_test.py:13-39 | the repository's rotation examples, negative amounts included |
| ListUtil.Reverse | chain.py:390-395 | reversal keeps the length and puts element `i` at `n - 1 - i` |
| ListUtil.ReverseReverse | chain.py:390-395 | reversal is an involution |
| ListUtil.IndexOf | chain.py:180 | `list.index`: `None` exactly when the element is absent; otherwise the position holds it and no earlier position does |
| ListUtil.RemoveFirst | chain.py:284 | `list.remove`: fails exactly when the element is absent; otherwise the result is one shorter |
| ListUtil.RemoveFirstAt | chain.py:284 | what `list.remove` drops is the first occurrence: everything before and after it stays in place |
| ListUtil.RemoveFirstPermutes | chain.py:284 | removal takes away exactly one copy of the element |
| ListUtil.PyIndex | chain.py:21-35 | negative indexes count from the end down to `-n`; anything outside fails |
| ListUtil.PyGet | chain.py:31 | `l[k]` reads the element Python's indexing names and fails exactly when `PyIndex` does |
| ListUtil.InsertAt | chain.py:263 | the insertion is one longer, holds `x` at `pos` and keeps the elements on both sides |
| ListUtil.RemoveInserted | chain.py:263 | taking out the inserted element restores the list |
| ListUtil.PyInsertPos | chain.py:144 | `insert(i, x)` puts `x` at `i`, counting a negative `i` from the end, clamped to `0..n` |
| ListUtil.PyMod | blob.py:504-505 | Python's `%` takes the sign of the divisor and agrees with the Euclidean `%` for a positive divisor |
| Geometry.Lerp | chain.py:75 | `lerp` at `t = 0` is the start, at `t = 1` the end, and it moves linearly in `t` |
| Geometry.MidpointIsHalfway | chain.py:258 | the average of two positions is the point halfway from one to the other |
| Geometry.RotateQuarter | blob.py:122 | `rotate(90)` keeps the length, is perpendicular, and turns `v` to the positive cross side |
| Geometry.RotateMinusQuarter | blob.py:124 | `rotate(-90)` keeps the length, is perpendicular, and turns `v` the other way |
| Geometry.CrossSumIsShoelace | blob.py:105-112 | the engine's accumulation of `x1*y2 - x2*y1` over a point list is the polygon's shoelace sum |
| Geometry.EdgePairsShoelace | blob.py:84-92 | listing each edge as its own pair of points leaves the shoelace sum unchanged |
| Geometry.ShoelaceReverse | blob.py:104-115 | reversing a polygon negates its shoelace sum, which flips orientation |
| Geometry.ShoelaceRotate | blob.py:104-115 | the shoelace sum does not depend on the starting vertex |
| Geometry.Area | blob.py:433-434 | the area is non-negative |
| Geometry.AreaOrientationFree | tests/requires_revision.py:871-893 | the unsigned area is the same in both traversal directions and from every start |
| Geometry.UnitSquareArea | blob.py:422-434 | the unit square walked one way has shoelace sum -2 and area 1 |
| Geometry.UnitSquareCounterArea | blob.py:422-434 | walked the other way it has sum 2 and area 1 |
| Points.NewPoint | point.py:4-6 | a new point sits at `(x, y)` with no pending offset |
| Points.AddOffset | point.py:8-10 | the pending offset grows by `(x*m, y*m)` and the position does not move |
| Points.ApplyAccumulatedOffset | point.py:12-14 | the pending offset moves into the position and is cleared |
| Points.AddOffsetAccumulates | point.py:8-10 | offsets add up, in either order |
| Points.AddOffsetCancels | tests/point_test.py:9-17 | adding `v` and then `-v` leaves the point as it was |
| Points.ApplyIdempotent | point.py:12-14 | a second commit straight after the first changes nothing |
| Points.TwoPhaseCommit | tests/point_test.py:19-24 | a new point, given offsets and then committed, ends at its start plus the sum of the offsets |
| Points.Connect | chain.py:54 | after connecting, `a` and `b` are adjacent both ways, the adjacency stays symmetric, and no other pair changes |
| Points.Disconnect | chain.py:280-283 | after disconnecting, `a` and `b` are not adjacent either way, the adjacency stays symmetric, and no other pair changes |
| Chains.Start | chain.py:16-21 | the first point, and `None` exactly for an empty chain |
| Chains.End | chain.py:26-31 | the last point, and `None` exactly for an empty chain |
| Chains.CommonEndpoint | chain.py:150-161 | the answer is an endpoint of both chains, with `self`'s start preferred; with nothing shared, `ValueError` or `None` depending on the flag |
| Chains.IsConnectedTo | chain.py:163-167 | true exactly when the chains share an endpoint |
| Chains.ConnectedSymmetric | chain.py:163-167 | connection is symmetric even though `common_endpoint` prefers one side |
| Chains.EndpointNeighbor | chain.py:313-320 | the point next to the given endpoint; `None` below two points; `ValueError` for a point that is not an endpoint |
| Chains.FindAllEndpoints | chain.py:381-388 | the set holds exactly the starts and ends of the non-empty chains |
| Chains.ConnectPath | chain.py:49-54 | each consecutive pair becomes adjacent, and the adjacency only grows |
| Chains.Fresh | chain.py:9-14 | a new chain holds exactly the given points, with no blob on either side and no override, so it is unmoving whatever the blobs' pinning |
| Chains.FromPointList | chain.py:44-55 | the new chain holds the same points, and every consecutive pair is connected |
| Chains.FromEndPoints | chain.py:65-80 | `n` points from `start` to `end`, where `n` is `point_num` or, when that is 0 or `None`, the count derived from the link length; just the two ends when `n` is below 3; the new points sit at the interior positions of the even layout with no pending offset, and every consecutive pair is connected |
| Chains.LayoutAt | chain.py:73-78 | position `k` is the fraction `k / (point_num - 1)` of the segment, both ends included |
| Chains.FromEndPointsEvenlySpaced | chain.py:73-78 | consecutive positions are all the same vector apart |
| Chains.AppendEndpoint | chain.py:138-148 | an empty chain just takes the point; otherwise the point becomes the chosen endpoint and is connected to the old one |
| Chains.Close | chain.py:294-296 | the result ends at its start, and grows by one only when it did not already |
| Chains.CloseIdempotent | chain.py:294-296 | closing a closed chain changes nothing |
| Chains.Cut | chain.py:178-189 | `ValueError` exactly outside `0 < i < n - 1`; otherwise the two halves share exactly the point at `i` and are connected |
| Chains.CutAtPoint | chain.py:179-180 | cutting at a point cuts at its first position, and fails with `ValueError` when it is absent |
| Chains.IsValidChain | chain.py:360-370 | a chain `assert_is_valid` accepts has at least two points with consecutive points connected, and each inner point that is not an endpoint and lies between two different points is connected to exactly those two |
| Chains.CutPreservesValidity | tests/chain_test.py:82-96 | cutting a valid chain gives two valid chains and makes no new connection |
| Chains.MergeWith | chain.py:322-344 | `ValueError` for disconnected chains; a `self` with the same blob on both sides fails, with `ValueError` from the side swap when it starts at the common point and `AssertionError` otherwise; on success the points of both, joined at the point `common_endpoint` picks, with `self`'s sides swapped when it was reversed, and `other` emptied with no blob references |
| Chains.CutThenMerge | chain.py:178-189 | merging the halves of a cut restores the original chain |
| Chains.MergeKeepsPoints | chain.py:335-339 | the merged chain is `n1 + n2 - 1` long and holds the points of both, with the common point counted once |
| Chains.CreateMidpoint | chain.py:251-264 | `RuntimeError` exactly for indexes that are not neighbours; otherwise the new handle goes right after the lower index, halfway between the two points in position and in pending offset |
| Chains.RemovalAdjacency | chain.py:273-283 | the removed point's neighbours become connected, the point is disconnected from both, and nothing else changes |
| Chains.RemovePoint | chain.py:266-285 | the corrected removal at index `i`: exactly that position leaves the list, and the rest stay in order |
| Chains.RemovePointAsWritten | chain.py:266-285 | the removal as the source writes it: the adjacency is updated from the index, but the list drops the point's first occurrence |
| Chains.RemovePointAgreesWhenFirst | chain.py:284 | the two removals agree whenever the point does not occur before `i` |
| Chains.RemovePointAsWrittenDropsFirstOccurrence | chain.py:284 | on the closed chain `1,2,3,1`, removing index 3 as written leaves `2,3,1` |
| Chains.RemovePointClosedChainExample | chain.py:266-285 | corrected, the same removal leaves `1,2,3` |
| Chains.RemovePointByPoint | chain.py:270-271 | removal by point fails exactly when the point is absent; otherwise both versions agree at its first position |
| Chains.MidpointThenRemove | tests/requires_revision.py:1387-1440 | inserting a midpoint and removing it again restores the point list |
| Chains.AppendThenRemove | chain.py:355-358 | appending an endpoint and removing it again restores the point list |
| Chains.SwapPoint | chain.py:287-290 | the first occurrence is replaced and everything else is kept; `ValueError` when it is absent |
| Chains.SwapPointRoundTrip | chain.py:287-290 | swapping a point out and back restores the chain |
| Chains.SwitchEndpointTo | chain.py:355-358 | the old endpoint is removed and the target sits at the same end; `ValueError` when the endpoint is absent |
| Chains.SwitchEndpointRoundTrip | chain.py:355-358 | switching an endpoint away and back restores a chain of distinct points |
| Chains.IsUnmoving | chain.py:169-175 | an override wins; a chain with a missing side never moves; otherwise it is pinned when either side is |
| Chains.EqualMeans | chain.py:390-395 | equal chains hold the same points with the same multiplicities and have the same endpoints; a chain equals itself |
| Chains.EqualIsEquivalence | chain.py:390-395 | chain equality, which ignores direction, is reflexive, symmetric and transitive |
| Chains.UnequalByEndpoints | chain.py:390-395 | chains with different endpoint sets are not equal |
| Chains.FindBiggestGap | chain.py:300-311 | `ValueError` below two points; otherwise the first strictly largest gap, or `(-1, -1, 0)` when no gap is positive |
| Chains.RightNormalAt | chain.py:205-221 | the clamped neighbours' difference turned to `(-dy, dx)`: perpendicular, the same length, to the right of travel |
| Chains.RightNormalExamples | tests/requires_revision.py:26-47 | the six right normals of the repository's example chain |
| Indexes.NeighboringIndexes | blob.py:503-506 | both neighbours lie on the ring; `ZeroDivisionError` for a ring without points |
| Indexes.NeighboursStepBack | blob.py:503-506 | a step forward from the previous position, or back from the next one, returns to `i` |
| Indexes.IndexDistanceIsShorterArc | blob.py:619-623 | the index distance is the shorter arc between two positions and never exceeds half the ring |
| Indexes.IndexDistanceSymmetric | blob.py:619-623 | the index distance is symmetric |
| Indexes.NeighboursAtDistanceOne | blob.py:619-623 | adjacent positions are at index distance one |
| Indexes.CircumferenceDistance | blob.py:625-627 | the distance along the ring, in link lengths, is non-negative |
| Indexes.CircumferenceSymmetric | blob.py:625-627 | the distance along the ring is symmetric |
| Indexes.OppositeIndex | blob.py:726-728 | the opposite position is on the ring, half the ring away |
| Indexes.OppositeIsFarthest | blob.py:726-728 | the opposite position is as far as any position can be |
| Rings.IntersectionIndexes | blob.py:36-46| one boundary per chain; boundary `k` is the point count of the first `k + 1` chains, and the last one is the blob's point count |
| Rings.PointNumberIsLastBoundary | blob.py:48-56 | `point_number` equals the last junction index |
| Rings.PointNumberBound | blob.py:48-56 | a well-formed ring has at least one position per chain |
| Rings.Backwards | blob.py:231-253| an empty loop raises `ZeroDivisionError`, a one-chain loop is never backwards, a bad index raises `IndexError`; in a longer loop, `ValueError` exactly when the chain and the next share no endpoint, and otherwise the chain is backwards exactly when its start is an endpoint of the next; in a two-chain loop only chain 1 can be backwards, exactly when it ends where chain 0 ends (the model applies this to indexes -2 and -1 as well, where the code takes the by-chain path) |
| Rings.GetChainAndIndexAt | blob.py:60-76 | the chain whose range holds `i mod n`, and the local index counted from the far end exactly when the chain is backwards; fails only on an empty or undecidable ring |
| Rings.ChainIndexUnique | blob.py:64-68 | a position past boundary `k` and at most boundary `k + 1` belongs to chain `k` alone |
| Rings.GetPoint | blob.py:78-80 | `ZeroDivisionError` on a blob without points; on an oriented loop every index names a point |
| Rings.GetPointAlong | blob.py:78-80 | on a closed loop `get_point(i)` is the point any chain covering `i mod n` has there |
| Rings.GetPointPeriodic | blob.py:61 | positions are read modulo the point count |
| Rings.GetPointInRange | blob.py:60-80 | an unreduced position inside chain `k`'s range reads chain `k` |
| Rings.OnBlobPointIndex | chain.py:236-249 | a chain's local index maps to a ring position inside that chain's range |
| Rings.OnBlobRoundTrip | chain.py:236-249 | `get_point` reads back every chain point at the ring position `get_on_blob_point_index` gives, junctions included |
| Rings.IndexAtInvertsOnBlob | blob.py:60-76 | the chain lookup inverts `get_on_blob_point_index` on interior points |
| Rings.IsIntersectionAt | blob.py:182-191 | true exactly when `i mod n` is a chain boundary |
| Rings.IntersectionIsBoundary | blob.py:470-475 | the scan and the membership test in `[0] + intersection_indexes` agree |
| Rings.ChainsIndexesAtIntersection | blob.py:212-223 | at a junction, the chain starting there and the one before it; `ValueError` off junctions |
| Rings.ChainsAroundBoundary | blob.py:212-223 | the boundary that closes chain `k` gives `k` and its successor |
| Rings.ChainsAtIntersection | blob.py:225-229| succeeds exactly when the junction's chain indexes are found, and then returns the chains at those two indexes |
| Rings.IntersectionChainsShareThePoint | blob.py:225-229 | on a closed loop both chains at a junction end at the point there |
| Rings.ChainsIndexesAtPoint | blob.py:470-482 | two chains at a junction, otherwise the one chain holding the position |
| Rings.ChainsAtPointHoldThePoint | blob.py:470-482 | every chain listed holds the point at that position |
| Rings.PointsCommonChainIndex | blob.py:489-497 | the answer is a chain at position `i` that holds the point at `j`; `RuntimeError` when no such chain exists |
| Rings.NeighboursShareChain | blob.py:489-497 | on a closed loop a point and the next one always share a chain, so the lookup never raises for neighbours |
| Rings.ChainAndIndexesOfNeighborsAsWritten | blob.py:454-468 | the lookup as written: the chain `get_points_common_chain_index` picks, with indexes measured from its boundaries |
| Rings.ChainAndIndexesOfNeighbors | blob.py:454-468 | the corrected lookup: on an oriented ring it fails exactly when `j` is not the position after `i`, with `RuntimeError`; otherwise it names a chain of the loop (which one, and the indexes, is stated by `NeighborsOnOneChain`) |
| Rings.NeighborsOnOneChain | blob.py:454-468 | on a closed loop both local indexes lie on the returned chain, one apart, and name the points at `i` and `i + 1` |
| Rings.NeighborsAsWrittenAgreesOffJunctions | blob.py:454-468 | away from junctions the as-written and corrected lookups agree |
| Rings.NeighborsAsWrittenAgrees | blob.py:454-497 | at any position where `get_points_common_chain_index` picks the chain carrying the link, the two lookups agree |
| Rings.NeighborsAsWrittenAtJunction | blob.py:454-468 | on the loop `[[0,1],[1,2,0]]` the link from 0 to 1 is given as `(1, -1, 0)` as written and `(0, 0, 1)` corrected |
| Rings.GetChainsBetweenIntersections | blob.py:159-179 | `RuntimeError` when an end is not a junction; `ValueError` when they are equal; otherwise a contiguous run of loop indexes from the chain starting at `s` to the chain ending at `e` |
| Rings.SplitChain | blob.py:200-205 | the chain is replaced by two pieces and the other chains keep their loop indexes |
| Rings.CutAt | blob.py:193-210| `ZeroDivisionError` on a blob without points; on success the position is a junction of the returned ring |
| Rings.CutAtOffJunction | blob.py:197-205 | off a junction the cut is strictly inside the chain, and the pieces replace it in loop order, earlier piece first |
| Rings.CutLandsOnJunction | blob.py:207-208 | after the cut the position is a junction, which is the check `cut_at` makes before returning |
| Rings.CutAtKeepsPoints | blob.py:193-210| `cut_at` never fails on an oriented ring, leaves it well formed with the same point count, and adds one chain exactly when the position was not already a junction |
| Rings.CutAtPiecesShareThePoint | tests/requires_revision.py:680-694 | the two chains returned meet at the point at the position |
| Rings.CutAtIdempotent | blob.py:193-210 | cutting twice at the same position changes nothing more |
| Blobs.PointsAt | blob.py:78-80 | one point per position, in order; the first failing lookup fails the whole read |
| Blobs.PointsList | blob.py:635-637 | the point list has one entry per ring position |
| Blobs.PointsListEntry | blob.py:635-637 | entry `j` of the point list is the point at position `j` |
| Blobs.IsClockwise | blob.py:82-115| the orientation test gives an answer on every oriented ring (its meaning is stated by `IsClockwiseOfFullPolygon` and `ClockwiseOfSum`) |
| Blobs.IsClockwiseOfFullPolygon | blob.py:84-94 | when the sample covers the whole polygon, `is_clockwise` reads its true orientation |
| Blobs.SegmentSamplePoints | blob.py:84-92 | with more than two single-link chains the samples are every edge of the polygon |
| Blobs.RecalculateArea | blob.py:422-434| a blob without points has area zero |
| Blobs.RecalculateAreaIsPolygonArea | blob.py:422-434 | `recalculate_area` is the area of the polygon through every ring point, in ring order |
| Blobs.AreaTermsAreCrossSum | blob.py:424-432 | the area loop over `get_point` is the cyclic cross sum of the point list |
| Blobs.PolygonAreaOrientationFree | tests/requires_revision.py:871-893 | the area is independent of walking direction and start |
| Blobs.SquareLoopOrientationAndArea | tests/requires_revision.py:641-658 | the unit square walked 1,2,3,4 is not clockwise and has area 1 |
| Blobs.SquareLoopReversedOrientationAndArea | tests/requires_revision.py:641-658 | walked the other way it is clockwise, with the same area |
| Blobs.SquareLoopForwards | tests/requires_revision.py:786-812 | no side of the square loop is backwards |
| Blobs.SquareLoopReversedBackwards | tests/requires_revision.py:786-812 | in the reversed loop every side is backwards |
| Blobs.BackwardsBetween | blob.py:241-244 | a chain of a loop of three or more is backwards exactly when its first point is an end of the next chain |
| Loops.IndexOfChain | blob.py:268 | the first loop entry equal to the chain in either direction; `None` exactly when there is none |
| Loops.SwapChains | blob.py:266-286| `IndexError` for an empty run to remove, `ValueError` when its last chain is not in the loop; on success the loop's length changes by the difference of the two runs' lengths |
| Loops.SwapAfterOutcome | blob.py:268-284 | the kept chains are the arc after the removed run, and the inserted run, turned round when needed, closes the gap |
| Loops.SwapAfterInPlace | blob.py:266-286 | when the run does not wrap past the start, the result is the loop with that run replaced in place |
| Loops.SwapBackRestores | tests/requires_revision.py:815-844 | swapping the inserted run back out restores the original loop |
| Loops.SwapExampleCutCorner | tests/requires_revision.py:815-844 | swapping two sides of the square for the diagonal leaves side 1, the diagonal and side 4 |
| Loops.SwapExampleRestore | tests/requires_revision.py:815-844 | swapping the diagonal back out restores the square |
| Loops.SwapExampleAcrossStart | blob.py:266-286 | a run that wraps past the loop's start is replaced correctly |
| Worlds.RingOf | blob.py:34 | the blob's ring is its chains' point lists, in loop order |
| Worlds.SetBlobs | blob.py:27-29 | one side names the blob; the other side and the points are kept |
| Worlds.SetReferencesOutcome | blob.py:436-447 | each chain of an oriented loop gets the blob on the side the orientation rule gives it, and nothing else in the store changes |
| Worlds.AssignSides | blob.py:440-447 | the side pass changes only chain records: points, links and blobs are kept, and no chain is added or dropped |
| Worlds.SetBlobReferenceOnChains | blob.py:436-447 | `set_blob_reference_on_chains` changes only chain records: points, links and blobs are kept |
| Worlds.AssignSidesOutcome | blob.py:439-447 | every chain from `i` on gets its side |
| Worlds.FromChainLoop | blob.py:14-30| on success the new blob is registered over the loop, the points and links are unchanged, and the same chains remain stored |
| Worlds.FromChainLoopSetsReferences | blob.py:14-30 | `from_chain_loop` and `set_blob_reference_on_chains` put the blob on the same side of every chain |
| Worlds.StructureMeans | blob.py:347-388| when the shape checks pass, the ring is oriented, every chain is connected to the previous one, a single chain is closed, and two chains meet at both ends |
| Worlds.ClosedPassesStructure | blob.py:347-388 | a closed loop passes the shape checks |
| Worlds.AreAllReferencesMutual | blob.py:288-341| in raising mode the check never answers false (a failure is an error); in quiet mode it always answers |
| Worlds.MutualMeans | blob.py:288-341 | the mutual-reference check passes exactly when every chain passes both reference tests and some chain has points |
| Worlds.ReferenceScanMeans | blob.py:390-414 | the side loop passes exactly when every chain has the blob on its rule side; otherwise `ValueError` or `False` |
| Worlds.IsValid | blob.py:344-419 | a blob `is_valid` accepts is oriented, and every chain of its loop names the blob on one side and not on both |
| Worlds.IsValidMeans | blob.py:344-419 | `is_valid` is `True` exactly for a valid blob in either mode; without raising it never raises; raising, it never answers `False` |
| Worlds.FromChainLoopValid | tests/requires_revision.py:848-867 | a blob built by `from_chain_loop` over distinct, fresh, well-shaped chains is valid |
| Worlds.WrongSideFails | blob.py:390-414 | a chain with the blob on the wrong side makes `is_valid` fail with `ValueError` |
| Worlds.SwappedSidesInvalid | blob.py:390-414 | exchanging the sides of one chain of a valid blob makes it invalid in both modes |
| PointEdits.CreateMidpointInBlobAsWritten | blob.py:449-468 | `create_midpoint` over the lookup as written: `ZeroDivisionError` for a blob without points; on success the blobs and chain keys are unchanged and the only new point record is the midpoint under the fresh handle; wherever the two lookups agree it is the corrected edit |
| PointEdits.CreateMidpointAsWrittenAgrees | blob.py:449-468 | on a closed blob, off a junction or wherever `get_points_common_chain_index` picks the chain carrying the link, the as-written edit is the corrected one |
| PointEdits.MidpointAsWrittenBreaksLoop | blob.py:449-468 | on the loop `[[0,1],[1,2,0]]` the as-written edit for the link from 0 to 1 leaves a loop that is no longer closed, and the corrected edit keeps it closed |
| PointEdits.CreateMidpointInBlob | blob.py:449-468 | the corrected half of the blob.py:454-468 Findings row: on an oriented ring, `RuntimeError` when `j` is not the position after `i`; on success the blobs and chain keys are unchanged and the only new point record is the midpoint under the fresh handle |
| PointEdits.CreateMidpointInBlobMeans | tests/requires_revision.py:932 | on a closed blob the new point lies halfway between the points at `i` and `i + 1`, it takes position `i + 1` with everything else in order, and the loop stays closed |
| PointEdits.InsertedPointsList | blob.py:635-637 | an interior insertion shifts the later points of the point list by one and keeps their order |
| PointEdits.RemovePointInBlobAsWritten | blob.py:508-511 | off a junction, through the chain's first-occurrence removal: a blob without points is an error; an oriented ring always succeeds and returns the point at `i`; blobs, points and chain keys are unchanged |
| PointEdits.RemovePointInBlob | blob.py:508-511 | the corrected half: the same, through the chain removal that takes out the entry at the index |
| PointEdits.RemovePointAsWrittenAgrees | blob.py:508-511 | on a closed blob whose chains repeat no inner point, the removal as written equals the corrected one, so `RemovePointInBlobMeans` holds of the code as written |
| PointEdits.RemovedPointsList | blob.py:508-511 | removing slot `u` of chain `c` takes exactly entry `Prefix(c) + u` out of the point list |
| PointEdits.RemovePointInBlobMeans | blob.py:508-511 | of the corrected removal: on a closed blob the point at `i` is removed, the list loses that entry, the loop stays closed, and the count drops by one |
| PointEdits.MidpointThenRemoveInBlob | tests/requires_revision.py:1387-1440 | `create_midpoint` followed by `remove_point(i + 1)` returns the new point and restores the ring |
| PointEdits.RemoveThenInsert | blob.py:508-511 | putting a removed point back where it was restores the ring |
| PointEdits.HalfTurnGeometry | blob.py:120-124 | the half turn is perpendicular to the chord, half its length, and on the side the orientation names |
| PointEdits.GetInnerDirection | blob.py:117-124| on an oriented ring the direction exists; it is perpendicular to the chord from the previous to the next point, half its length, and on the side the orientation picks |
| PointEdits.SquareInnerDirection | tests/requires_revision.py:660-678 | at corner 2 of the unit square the inner direction points into the square, `(0.5, -0.5)` |
| PointEdits.GapSum | blob.py:554-560 | the crowding score is non-negative |
| PointEdits.FindMostCrowded | blob.py:551-564 | the first position with the strictly smallest score, and its score is no larger than any other; `UnboundLocalError` for a ring without points |
| PointEdits.ModifyPlan | blob.py:566-577| no edit exactly when `delta` is zero or a blob of at most three points would shrink; otherwise one edit per unit of `delta`, midpoints exactly when growing |
| Width.Step | blob.py:703-708 | the step is 1 when the pair is already under the target; otherwise enough links to cover the excess; `ZeroDivisionError` for a zero link length |
| Width.CeilCovers | blob.py:708 | `ceil(e / l)` links cover `e`, and one fewer do not |
| Width.Candidates | blob.py:692-699 | every candidate is more than `berth` apart, lies within one step of the base pair, and is reduced |
| Width.CandidatesCoverGrid | blob.py:694-698 | every grid pair except the base pair that is far enough apart is a candidate |
| Width.Closest | blob.py:710-716 | the first candidate strictly closer than everything before it, never further than the start |
| Width.TryCloser | blob.py:689-719 | the closest neighbouring pair and its distance, or the sentinel with the pair's own distance when no neighbour is closer |
| Width.BelowShrinks | blob.py:674-682 | each improvement removes a pair from those still closer, so the climb terminates |
| Width.Climb | blob.py:674-682| the record ends finite and no wider than the starting pair or the previous best; `ZeroDivisionError` is the only error, and none arises for a non-zero link length; the corrected climb keeps the record consistent with the distances |
| Width.InitialPairs | blob.py:662-668 | `samples` seed pairs, each a position and the one half a ring after it |
| Width.ClimbAllBounds | blob.py:674-682 | the record ends no wider than any seed, and, corrected, it names a ring pair at its width |
| Width.FindWidthPair | blob.py:658-687 | the narrowest pair and its width, or `(-1, -1)` when that width exceeds the target |
| Width.FindWidthPairBounds | blob.py:658-687 | the reported width is finite and no wider than any seed; corrected, a width under the target comes with a ring pair at exactly that distance |
| Width.SentinelReported | blob.py:680-682 | on the corners of a 4 by 3 rectangle searched from the diagonal `(0, 2)`, which is already a local minimum, the search reports `(-404, -404)` at width 5 as written, and the diagonal corrected |
| Width.RectangleDistIsEuclidean | blob.py:629-632 | the distance table of that rectangle is the Euclidean distance between its corners |
| PlanarGraph.Vertices | planar_graph.py:17-22| every edge end is listed exactly once, and nothing else is (the order is stated by `FirstAppearances`) |
| PlanarGraph.Adjacency | planar_graph.py:17-29 | a key for every edge end, and every edge listed from both of its ends |
| PlanarGraph.AdjacencySymmetric | planar_graph.py:26-29 | `b` is listed at `a` exactly as often as `a` is listed at `b` |
| PlanarGraph.AdjacencyHoldsEdge | planar_graph.py:26-29 | every input edge is listed from both ends |
| PlanarGraph.AdjacencyDegree | planar_graph.py:26-29 | a vertex's degree is the number of edge ends at it |
| PlanarGraph.AdjacencySimple | planar_graph.py:17-29 | the adjacency of a simple edge list is simple |
| PlanarGraph.InitializeUsed | planar_graph.py:76-89 | one cleared flag per directed edge |
| PlanarGraph.FindAdjacentIndex | planar_graph.py:187-206 | the first position of `v` in `u`'s list; `KeyError` for an unknown `u`; `ValueError` when `v` is absent |
| PlanarGraph.SignedArea | planar_graph.py:224-241| its magnitude is the face's polygon area |
| PlanarGraph.ReversedFace | planar_graph.py:209-221 | a reversed face has the negated area, so at most one of a face and its reverse is inner |
| PlanarGraph.UnitSquareInner | planar_graph.py:209-241 | the unit square walked clockwise is inner, with signed area -1 |
| PlanarGraph.UnitSquareOuter | planar_graph.py:209-241 | walked the other way it is not inner, with signed area +1 |
| PlanarGraph.Next | planar_graph.py:173-177| `KeyError` when `v` has no list and `ValueError` when `u` is not in it; otherwise the step leads to the entry after `u` in `v`'s cyclic list |
| PlanarGraph.TraceFace | planar_graph.py:150-184| tracing keeps the face's vertex list equal to the heads of the walked directed edges |
| PlanarGraph.TraceHeads | planar_graph.py:170 | a traced face never visits a vertex twice, which is the `assert` |
| PlanarGraph.TraceMarks | planar_graph.py:169 | the flags set after tracing are those set before plus the face's own directed edges |
| PlanarGraph.TraceFaceCycle | planar_graph.py:150-184 | a traced face is a closed walk from the start edge, on distinct vertices, that marks exactly its own edges |
| PlanarGraph.NextBijective | planar_graph.py:173-177 | on a simple graph the step is a bijection of the directed edges |
| PlanarGraph.ParallelEdgesCollide | planar_graph.py:203 | with a parallel edge two directed edges step to the same one |
| PlanarGraph.TraceSimple | planar_graph.py:150-184 | on a simple graph tracing can fail only at the `assert` |
| PlanarGraph.TraversalPartition | planar_graph.py:58-64 | on a simple graph the traversal fails only at the `assert`; otherwise every directed edge lies in exactly one traced face, and each face is a closed walk on distinct vertices |
| PlanarGraph.TracedFaces | planar_graph.py:58-71 | on a simple graph every inner face kept from the traversal is a face of the adjacency |
| PlanarGraph.SortAll | planar_graph.py:52-53 | sorting every adjacency list keeps the same vertices and each list's entries, for any sort that permutes |
| PlanarGraph.SortKeepsSimple | planar_graph.py:52-53 | sorting the lists of a simple adjacency leaves it simple |
| PlanarGraph.FacesPartition | planar_graph.py:58-64 | once every directed edge is flagged, the faces partition the directed edges |
| PlanarGraph.InnerFaces | planar_graph.py:67-71| a face is kept exactly when it is one of the traced faces and passes `is_inner_face`, and no more faces come out than went in |
| PlanarGraph.FaceTraversal | planar_graph.py:36-73| every face returned is inner; on a simple graph the traversal fails only at the `assert`, and every face returned is a closed walk on distinct vertices |
| PlanarGraph.GetFaces | planar_graph.py:7-32| two edges give one face when the second is the reverse of the first, and an `AssertionError` otherwise; with any other count every face returned is inner and, on a simple edge list, a face of the sorted adjacency |
| PlanarGraph.SortedAdjacency | planar_graph.py:17-29 | the traced adjacency has a key for every vertex and is simple when the edge list is |

## Left out

- Rendering, pygame colours, `__str__`, `__repr__`, `__hash__`, and the UI
  and simulation scripts: they are presentation, not topology.
- Float rounding: positions are exact `real`s. Euclidean distance
  (`distance_to`, `points_distance`) and the link length are parameters.
  `sqrt`, `normalize` and `scale_to_length` are not modelled.
- `compute_angle`, `sort_adjacency_list` and `sort_all_adjacency_lists`
  (planar_graph.py:92-147) use `atan2`. The angular order is an input,
  the `sort` parameter. The model only requires that it reorders each
  list.
- The `assert type(A) == Point` in `get_faces_of_planar_graph` is not
  modelled, because vertices are handles.
- PlanarGraph.TraversalPartition: the face bijection is proved only for
  simple graphs. `ParallelEdgesCollide` shows why a parallel edge breaks
  the step's injectivity.
- `Point.connect_point`, `disconnect_point`, `insert_between`,
  `swap_connections_with`, `chains` and `assert_point_is_valid` are not
  defined in point.py. Adjacency is modelled as a symmetric set of pairs.
  `connect_point` is modelled where `from_point_list` and
  `from_end_points` link their points. Point-to-chain back-references are
  not modelled.
- Chains.CreateMidpoint, Chains.SwapPoint: `insert_between`
  (chain.py:262) and `swap_connections_with` (chain.py:289) are not
  modelled, so these edits, and the blob-level edits built on them, leave
  the links as they were. Only the chain's point list changes.
- `spawn_small_blob` (blob.py:126-157) needs `Point.from_point_and_offset`,
  which is not part of this model.
- `find_biggest_gap_indexes` (blob.py:533-549) depends on each chain's
  `is_unmoving` and on distances. It is left out, and `ModifyPlan` takes
  the positions of its edits as parameters.
- PointEdits.ModifyPlan models the guard and the number and kind of
  edits. It does not run the edit loop itself.
- PointEdits.RemovePointInBlob: requires a position that is not a
  junction; the junction branch of `remove_point` (blob.py:513-531)
  rewires other chains through the point's `chains` set, which is not
  modelled. The same holds for `RemovePointInBlobAsWritten`.
- PointEdits.RemovePointInBlobMeans: is proved of the corrected removal.
  The code as written (`RemovePointInBlobAsWritten`) removes the first
  occurrence of the point in its chain. It equals the corrected removal,
  and so has these properties, when no chain repeats an inner point
  (`RemovePointAsWrittenAgrees`). On a chain that repeats the point
  earlier, the earlier copy goes instead, as in the chain.py:266-285
  Findings row.
- The `normalized` parameter of `get_inner_direction` is not modelled,
  because the source ignores it.
- `enforce_link_length`, `enforce_minimum_secondary_joint_distance`,
  `add_right_offset`, `enforce_minimal_width` and
  `apply_accumulated_offsets` are float relaxation steps. Only the point
  protocol they rely on (`add_offset`, `apply_accumulated_offset`) is
  modelled.
- `get_chain_loops_from_chains` and `construct_chains_from_point_connections`
  are not modelled. They need point identity by coordinates and methods
  point.py does not define.
- intersection.py, simulation.py and state.py are not part of this model.
- Rings.Backwards: only the by-index path of `is_chain_backwards` is
  modelled. The by-chain path (blob.py:255-264) reads the blob references,
  which agree with the index path on a valid blob (see
  `Worlds.SetReferencesOutcome`). In a loop of two chains a negative index
  (-1 or -2) matches neither `chain_index == 0` nor `chain_index == 1`
  (blob.py:246-252), so the code falls through to the by-chain path with
  the chain at that index. The model instead applies the two-chain rule to
  the reduced index. No caller passes a negative index.
- Rings.CutAt: the result is proved to keep the point count and to put
  the point at `i` at an end of both cut halves. That the loop stays closed after the cut is
  not proved.
- Chains.Cut: the new chain gets no blob on either side, as the code does
  (`from_point_list` does not copy references).
- Chains.Fresh: chain.py declares no class default for `blob_left` and
  `blob_right`. The model starts a new chain with neither side set.
- Chains.FromEndPoints: the count `ceil(distance / link_length)` used when
  `point_num` is 0 or `None` is the `derivedNum` parameter, because the
  distance needs `sqrt`. The errors for a missing or zero `link_length`
  are not modelled.
- Worlds.SetBlobs: `set_blobs` is not defined in chain.py. The model sets
  the named side and keeps the other, as blob.py:27-29 and
  tests/requires_revision.py:912 use it.
- Chains.MergeWith: `swap_blob_references` and `unregister_from_blobs` are
  not defined in chain.py. The model exchanges the two sides and raises
  `ValueError` when both name the same blob, following
  tests/requires_revision.py:415-463. The emptied chain keeps no blob
  references.
- Rings.ChainAndIndexesOfNeighbors: the corrected lookup accepts only
  `j` at the position after `i` and raises `RuntimeError` otherwise. Off
  junctions the code also accepts `j` at the position before `i`; the
  model does not.
- PointEdits.CreateMidpointInBlobMeans: proved of the corrected edit for
  every position, as tests/requires_revision.py:932 exercises. The edit as
  written equals it wherever its lookup picks the chain carrying the link
  (`PointEdits.CreateMidpointAsWrittenAgrees`). At the junction of the
  blob.py:454-468 Findings row it breaks the loop instead
  (`PointEdits.MidpointAsWrittenBreaksLoop`).
- PointEdits.MidpointThenRemoveInBlob: the round trip of
  tests/requires_revision.py:1387-1440 is proved of the corrected edit,
  and for the edit as written only where the two lookups agree, as above.
- Loops.SwapChains: the caller-visible `chains_to_insert.reverse()`
  mutation is not modelled.
- Mutation that has already happened when an exception is raised is not
  modelled. On error the model returns only the exception.
- Worlds.CoOf: a point handle without a record sits at the origin. The
  stores the lemmas use always have records.
- Blobs.IsClockwise: on a loop of one or two chains with ten or more
  points the ten sample positions are `i * n / 10` computed exactly.
  blob.py:97 floors the floating-point product `(i / 10) * n`, which can be
  one lower. For example, with `n = 90` and `i = 7` the product is just
  under 63, so the code samples position 62 where the model samples 63.
  The orientation is then read from a slightly different polygon.
- Width.InitialPairs: `math.floor(0.5*n*i/k)` is computed exactly, not in
  floating point.

## Findings

| source | as written | input that shows it | evidently intended | confidence | as-written member | corrected member |
|---|---|---|---|---|---|---|
| blob.py:674-687 | when a pair improves the best width, `closest_pair` is set to what `try_finding_closer_pair` returned, which is the sentinel `(-404, -404)` when the pair is already a local minimum | the blob with points at (0,0), (4,0), (4,3), (0,3), one seed `(0, 2)`, berth 1, link length 3.5, target 6: the only candidates are the other diagonal, also 5 long, so the result is `(-404, -404, 5)` | record the pair whose distance was measured, here `(0, 2)` | not executed | Width.SentinelReported | Width.FindWidthPairBounds |
| chain.py:266-285 | `self.points.remove(point)` drops the first occurrence of the point, not the one at `point_index` | closed chain `1, 2, 3, 1`, `remove_point(3)`: leaves `2, 3, 1` | remove the entry at `point_index`, leaving `1, 2, 3` | not executed | Chains.RemovePointAsWrittenDropsFirstOccurrence | Chains.RemovePointClosedChainExample |
| blob.py:449-468 | the link's chain is the first chain at `point_i` that holds the point at `next_i`, and at a junction that can be a chain reaching it only by wrap-around (`Rings.NeighborsAsWrittenAtJunction`); `create_midpoint` then inserts into that chain | loop `[[0,1],[1,2,0]]`, link from 0 to 1: the lookup answers chain 1 with indexes `(-1, 0)`, chain 1 becomes `[new,1,2,0]` and the loop no longer closes | insert into the chain carrying the link, chain 0 at indexes `(0, 1)`, giving `[0,new,1]` and a closed loop (`Rings.NeighborsOnOneChain`) | not executed | PointEdits.MidpointAsWrittenBreaksLoop | PointEdits.CreateMidpointInBlobMeans |

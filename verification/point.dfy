/** A simulation point: a position plus a pending offset. Constraints add to
    the offset during a step; a separate pass commits it. */
module Points {

  import opened Geometry

  /** Handle of a point in the world store; equality of handles is the
      engine's object identity. */
  type PointId = nat

  datatype Point = Point(co: Vec, offset: Vec)

  /** `Point(x, y)`: positioned at `(x, y)` with nothing pending. */
  function NewPoint(x: real, y: real): (p: Point)
    ensures p.co == Vec(x, y)
    ensures p.offset == Zero
  {
    Point(Vec(x, y), Zero)
  }

  /** `add_offset(x, y, multiplier)`: accumulates `(x * m, y * m)` into the
      pending offset; the position is not touched. */
  function AddOffset(p: Point, x: real, y: real, multiplier: real := 1.0): (q: Point)
    ensures q.co == p.co
    ensures Sub(q.offset, p.offset) == Vec(x * multiplier, y * multiplier)
  {
    Point(p.co, Vec(p.offset.x + x * multiplier, p.offset.y + y * multiplier))
  }

  /** `apply_accumulated_offset`: commits the pending offset to the position
      and clears it. */
  function ApplyAccumulatedOffset(p: Point): (q: Point)
    ensures q.offset == Zero
    ensures Sub(q.co, p.co) == p.offset
  {
    Point(Add(p.co, p.offset), Zero)
  }

  /** Offsets accumulate additively and in either order. */
  lemma AddOffsetAccumulates(p: Point, x1: real, y1: real, m1: real, x2: real, y2: real, m2: real)
    ensures AddOffset(AddOffset(p, x1, y1, m1), x2, y2, m2)
         == AddOffset(AddOffset(p, x2, y2, m2), x1, y1, m1)
    ensures AddOffset(AddOffset(p, x1, y1, m1), x2, y2, m2).offset
         == Add(p.offset, Add(Vec(x1 * m1, y1 * m1), Vec(x2 * m2, y2 * m2)))
  {
  }

  /** Adding `v` and then `-v` leaves the point as it was. */
  lemma AddOffsetCancels(p: Point, x: real, y: real, m: real)
    ensures AddOffset(AddOffset(p, x, y, m), -x, -y, m) == p
  {
  }

  /** A second commit right after a first one changes nothing. */
  lemma ApplyIdempotent(p: Point)
    ensures ApplyAccumulatedOffset(ApplyAccumulatedOffset(p)) == ApplyAccumulatedOffset(p)
  {
  }

  /** The two-phase protocol end to end: a fresh point, offsets added, then
      committed, lands at its start plus the sum of the offsets. */
  lemma TwoPhaseCommit(x: real, y: real, dx1: real, dy1: real, dx2: real, dy2: real)
    ensures ApplyAccumulatedOffset(AddOffset(AddOffset(NewPoint(x, y), dx1, dy1), dx2, dy2))
         == NewPoint(x + dx1 + dx2, y + dy1 + dy2)
    ensures ApplyAccumulatedOffset(AddOffset(NewPoint(3.0, 4.0), 1.0, 2.0)) == NewPoint(4.0, 6.0)
  {
  }

  // ---------------------------------------------------------------------
  // Point adjacency, kept as an abstract symmetric relation between handles.

  /** Directed pairs; a connection between `a` and `b` is both `(a, b)` and `(b, a)`. */
  type Adjacency = set<(PointId, PointId)>

  ghost predicate Symmetric(adj: Adjacency) {
    forall e :: e in adj ==> (e.1, e.0) in adj
  }

  predicate Linked(adj: Adjacency, a: PointId, b: PointId) {
    (a, b) in adj && (b, a) in adj
  }

  /** `connect_point`: makes `a` and `b` mutually adjacent. */
  function Connect(adj: Adjacency, a: PointId, b: PointId): (r: Adjacency)
    ensures Linked(r, a, b)
    ensures Symmetric(adj) ==> Symmetric(r)
    ensures forall e :: e in r <==> e in adj || e == (a, b) || e == (b, a)
  {
    adj + {(a, b), (b, a)}
  }

  /** `disconnect_point`: removes the connection between `a` and `b`. */
  function Disconnect(adj: Adjacency, a: PointId, b: PointId): (r: Adjacency)
    ensures (a, b) !in r && (b, a) !in r
    ensures Symmetric(adj) ==> Symmetric(r)
    ensures forall e :: e in r <==> e in adj && e != (a, b) && e != (b, a)
  {
    adj - {(a, b), (b, a)}
  }

  /** The points adjacent to `p` (`connected_points`). */
  function Neighbours(adj: Adjacency, p: PointId): set<PointId> {
    set e | e in adj && e.0 == p :: e.1
  }
}

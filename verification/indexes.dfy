/** Index arithmetic on a ring of `n` points: neighbours, the two arc
    lengths between two positions, and the opposite position. Every helper
    here depends on the blob only through its point count `n`. */
module Indexes {

  import opened Results
  import ListUtil

  function Abs(x: int): nat {
    if x < 0 then -x else x
  }

  function Min(a: int, b: int): int {
    if a < b then a else b
  }

  /** `Blob.neighboring_indexes`: the positions before and after `i`,
      reduced with Python's `%` (a zero count raises). */
  function NeighboringIndexes(n: int, i: int): (r: Result<(int, int)>)
    ensures r.Err? <==> n == 0
    ensures r.Err? ==> r.error == ZeroDivisionError
    ensures n > 0 ==> 0 <= r.value.0 < n && 0 <= r.value.1 < n
  {
    if n == 0 then Err(ZeroDivisionError)
    else Ok((ListUtil.PyMod(i - 1, n), ListUtil.PyMod(i + 1, n)))
  }

  /** Stepping forward from the previous position, or back from the next
      one, returns to `i` (reduced). */
  lemma NeighboursStepBack(n: int, i: int)
    requires n > 0
    ensures var (prev, next) := NeighboringIndexes(n, i).value;
      ListUtil.PyMod(prev + 1, n) == ListUtil.PyMod(i, n) &&
      ListUtil.PyMod(next - 1, n) == ListUtil.PyMod(i, n)
  {
    ListUtil.ModAddLeft(n, i - 1, 1);
    ListUtil.ModAddLeft(n, i + 1, -1);
  }

  /** `Blob.index_distance`: the shorter of the two index differences
      around the ring. */
  function IndexDistance(n: int, a: int, b: int): (r: int)
    ensures r <= Abs(a - b) && r <= n - Abs(a - b)
    ensures r == Abs(a - b) || r == n - Abs(a - b)
  {
    var normal := Abs(a - b);
    Min(normal, n - normal)
  }

  lemma IndexDistanceSymmetric(n: int, a: int, b: int)
    ensures IndexDistance(n, a, b) == IndexDistance(n, b, a)
  {
  }

  /** On reduced positions the index distance is the length of the shorter
      arc: the lesser of the forward steps from `a` to `b` and from `b` to
      `a`; it never exceeds half the ring. */
  lemma IndexDistanceIsShorterArc(n: int, a: int, b: int)
    requires n > 0 && 0 <= a < n && 0 <= b < n
    ensures IndexDistance(n, a, b) == Min(ListUtil.PyMod(b - a, n), ListUtil.PyMod(a - b, n))
    ensures 0 <= IndexDistance(n, a, b) <= n / 2
  {
    if a == b {
      ListUtil.ModOfShifted(n, 0, 0);
    } else if a < b {
      ListUtil.ModOfShifted(n, b - a, 0);
      ListUtil.ModOfShifted(n, n - (b - a), -1);
    } else {
      ListUtil.ModOfShifted(n, a - b, 0);
      ListUtil.ModOfShifted(n, n - (a - b), -1);
    }
  }

  /** Positions next to each other on a ring of at least two points are at
      index distance one. */
  lemma NeighboursAtDistanceOne(n: int, i: int)
    requires n >= 2 && 0 <= i < n
    ensures IndexDistance(n, i, NeighboringIndexes(n, i).value.0) == 1
    ensures IndexDistance(n, i, NeighboringIndexes(n, i).value.1) == 1
  {
    if i == 0 {
      ListUtil.ModOfShifted(n, n - 1, -1);
    } else {
      ListUtil.ModOfShifted(n, i - 1, 0);
    }
    if i == n - 1 {
      ListUtil.ModOfShifted(n, 0, 1);
    } else {
      ListUtil.ModOfShifted(n, i + 1, 0);
    }
  }

  /** `Blob.circumference_distance`: the shorter arc in links times the
      link length. */
  function CircumferenceDistance(n: int, a: int, b: int, linkLength: real): (r: real)
    ensures linkLength >= 0.0 && 0 <= a < n && 0 <= b < n ==> r >= 0.0
  {
    var d := IndexDistance(n, a, b);
    assert 0 <= a < n && 0 <= b < n ==> d >= 0;
    linkLength * d as real
  }

  lemma CircumferenceSymmetric(n: int, a: int, b: int, linkLength: real)
    ensures CircumferenceDistance(n, a, b, linkLength) == CircumferenceDistance(n, b, a, linkLength)
  {
    IndexDistanceSymmetric(n, a, b);
  }

  /** `Blob.opposite_index`: the position half the ring away. */
  function OppositeIndex(n: int, i: int): (r: Result<int>)
    ensures r.Err? <==> n == 0
    ensures r.Err? ==> r.error == ZeroDivisionError
    ensures n > 0 ==> 0 <= r.value < n
  {
    if n == 0 then Err(ZeroDivisionError) else Ok(ListUtil.PyMod(i + n / 2, n))
  }

  /** The opposite position is as far as any position can be: exactly half
      the ring, rounded down. */
  lemma OppositeIsFarthest(n: int, i: int, j: int)
    requires n > 0 && 0 <= i < n && 0 <= j < n
    ensures IndexDistance(n, i, OppositeIndex(n, i).value) == n / 2
    ensures IndexDistance(n, i, j) <= IndexDistance(n, i, OppositeIndex(n, i).value)
  {
    IndexDistanceIsShorterArc(n, i, j);
    if i + n / 2 < n {
      ListUtil.ModOfShifted(n, i + n / 2, 0);
    } else {
      ListUtil.ModOfShifted(n, i + n / 2 - n, 1);
    }
  }

  /** Walking forward from `b`, the `t`-th step lands on `a` exactly when
      `t` is the forward distance from `b` to `a`. */
  lemma CyclicHit(m: int, b: int, a: int, t: int)
    requires m > 0 && 0 <= b < m && 0 <= a < m && 0 <= t < m
    ensures (b + t) % m == a <==> t == (a - b) % m
  {
    var d := (a - b) % m;
    if a >= b {
      ListUtil.ModOfShifted(m, a - b, 0);
    } else {
      ListUtil.ModOfShifted(m, a - b + m, -1);
    }
    if b + t < m {
      ListUtil.ModOfShifted(m, b + t, 0);
    } else {
      ListUtil.ModOfShifted(m, b + t - m, 1);
    }
  }
}

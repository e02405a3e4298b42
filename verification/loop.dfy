/** Edits of a blob's chain loop that work on the loop's entries rather than
    on ring positions: finding a chain with the chain equality (same points,
    either way round) and swapping a run of chains for others. The entries
    are generic; `pts` gives an entry's point list, so the same definitions
    serve a loop of point lists and a loop of chain handles. */
module Loops {

  import opened Results
  import opened Points
  import ListUtil
  import Chains

  /** `chain_loop.index(c)`: the first entry equal to `c` as a chain;
      `None` where Python raises `ValueError`. */
  function IndexOfChain<T>(loop: seq<T>, c: T, pts: T -> seq<PointId>): (r: Option<nat>)
    ensures r.None? <==> forall k :: 0 <= k < |loop| ==> !Chains.Equal(pts(loop[k]), pts(c))
    ensures r.Some? ==> r.value < |loop| && Chains.Equal(pts(loop[r.value]), pts(c))
    ensures r.Some? ==> forall k :: 0 <= k < r.value ==> !Chains.Equal(pts(loop[k]), pts(c))
    decreases |loop|
  {
    if |loop| == 0 then None
    else if Chains.Equal(pts(loop[0]), pts(c)) then Some(0)
    else
      var rest := IndexOfChain(loop[1..], c, pts);
      assert forall k :: 1 <= k < |loop| ==> loop[1..][k - 1] == loop[k];
      match rest
      case None => None
      case Some(k) => Some(k + 1)
  }

  /** The `len` entries of the loop from position `start` on, wrapping
      around its end. */
  function Arc<T>(loop: seq<T>, start: int, len: nat): (r: seq<T>)
    requires |loop| > 0
    ensures |r| == len
    ensures forall j :: 0 <= j < len ==> r[j] == loop[(start + j) % |loop|]
  {
    seq(len, j requires 0 <= j < len => loop[(start + j) % |loop|])
  }

  /** The chains to insert, turned round when their first chain does not
      connect to the chain before the gap. */
  function Placed<T>(before: T, insert: seq<T>, pts: T -> seq<PointId>): (r: seq<T>)
    requires |insert| > 0
    ensures r == insert || r == ListUtil.Reverse(insert)
    ensures Chains.IsConnectedTo(pts(before), pts(insert[0])) ==> r == insert
  {
    if Chains.IsConnectedTo(pts(before), pts(insert[0])) then insert
    else ListUtil.Reverse(insert)
  }

  /** `swap_chains`: rotate the loop so that the last chain to remove is at
      its end, pop one entry per chain to remove, append the chains to
      insert (turned round if needed so that they connect to the chain
      before the gap), check that both ends of the inserted run connect,
      and rotate back by the same amount. The popped entries are the run
      ending at the last chain to remove, whatever the other chains to
      remove are.

      Errors: `IndexError` for an empty removal list, for popping more
      entries than the loop has, for an empty remainder or an empty list to
      insert; `ValueError` when the last chain to remove is not in the loop;
      `RuntimeError` when the inserted run does not close the gap. */
  function SwapChains<T>(loop: seq<T>, remove: seq<T>, insert: seq<T>, pts: T -> seq<PointId>): (r: Result<seq<T>>)
    ensures |remove| == 0 ==> r == Err(IndexError)
    ensures |remove| > 0 && IndexOfChain(loop, remove[|remove| - 1], pts).None? ==> r == Err(ValueError)
    ensures r.Ok? ==> |r.value| == |loop| - |remove| + |insert|
  {
    if |remove| == 0 then Err(IndexError)
    else
      match IndexOfChain(loop, remove[|remove| - 1], pts)
      case None => Err(ValueError)
      case Some(k) => SwapAfter(loop, k, |remove|, insert, pts)
  }

  /** The part of `swap_chains` after the last chain to remove is found at
      position `k`: `count` entries are popped. */
  function SwapAfter<T>(loop: seq<T>, k: nat, count: nat, insert: seq<T>, pts: T -> seq<PointId>): (r: Result<seq<T>>)
    requires k < |loop|
    ensures r.Ok? ==> |r.value| == |loop| - count + |insert|
  {
    var m := |loop|;
    var rotation := m - (k + 1);
    var rotated := ListUtil.RotateList(loop, -rotation);
    if count > m then Err(IndexError)
    else
      var kept := rotated[..m - count];
      if |kept| == 0 || |insert| == 0 then Err(IndexError)
      else
        var ins := Placed(kept[|kept| - 1], insert, pts);
        if !Chains.IsConnectedTo(pts(kept[|kept| - 1]), pts(ins[0]))
           || !Chains.IsConnectedTo(pts(kept[0]), pts(ins[|ins| - 1]))
        then Err(RuntimeError)
        else Ok(ListUtil.RotateList(kept + ins, rotation))
  }

  /** Stepping back a whole turn lands on the same residue. */
  lemma ModMinusPeriod(n: int, x: int)
    requires n > 0
    ensures (x - n) % n == x % n
  {
    ListUtil.ModUnique(n, x - n, x / n - 1, x % n);
  }

  /** Entries of the rotated loop before the popped run are the arc that
      follows the last chain to remove. */
  lemma RotatedIsArc<T>(loop: seq<T>, k: nat, len: nat)
    requires k < |loop| && len <= |loop|
    ensures ListUtil.RotateList(loop, -(|loop| - (k + 1)))[..len] == Arc(loop, k + 1, len)
  {
    var m := |loop|;
    var rotated := ListUtil.RotateList(loop, -(m - (k + 1)));
    forall j | 0 <= j < len
      ensures rotated[j] == loop[(k + 1 + j) % m]
    {
      ListUtil.RotateAt(loop, -(m - (k + 1)), j);
      assert j + -(m - (k + 1)) == (k + 1 + j) - m;
      ModMinusPeriod(m, k + 1 + j);
    }
  }

  /** What `swap_chains` does once the last chain to remove is found at
      position `k`: the entries kept are the arc of the loop that follows
      the removed run, the run inserted closes the gap or `RuntimeError` is
      raised, and on success the result is the kept arc followed by the
      inserted run, rotated back by the amount the loop was turned. */
  lemma SwapAfterOutcome<T>(loop: seq<T>, k: nat, count: nat, insert: seq<T>, pts: T -> seq<PointId>)
    requires k < |loop|
    ensures count >= |loop| || |insert| == 0 ==> SwapAfter(loop, k, count, insert, pts) == Err(IndexError)
    ensures count < |loop| && |insert| > 0 ==>
      var r := SwapAfter(loop, k, count, insert, pts);
      var kept := Arc(loop, k + 1, |loop| - count);
      var ins := Placed(kept[|kept| - 1], insert, pts);
      && (r.Ok? <==> Chains.IsConnectedTo(pts(kept[|kept| - 1]), pts(ins[0]))
                     && Chains.IsConnectedTo(pts(kept[0]), pts(ins[|ins| - 1])))
      && (r.Err? ==> r.error == RuntimeError)
      && (r.Ok? ==> r.value == ListUtil.RotateList(kept + ins, |loop| - (k + 1)))
  {
    if count < |loop| && |insert| > 0 {
      SwapAfterInRange(loop, k, count, insert, pts);
    } else {
      SwapAfterOutOfRange(loop, k, count, insert, pts);
    }
  }

  /** Removing the whole loop, or inserting nothing, raises `IndexError`. */
  lemma SwapAfterOutOfRange<T>(loop: seq<T>, k: nat, count: nat, insert: seq<T>, pts: T -> seq<PointId>)
    requires k < |loop| && (count >= |loop| || |insert| == 0)
    ensures SwapAfter(loop, k, count, insert, pts) == Err(IndexError)
  {
  }

  /** `SwapAfter` with a run to keep and a run to insert. */
  lemma SwapAfterInRange<T>(loop: seq<T>, k: nat, count: nat, insert: seq<T>, pts: T -> seq<PointId>)
    requires k < |loop| && count < |loop| && |insert| > 0
    ensures var r := SwapAfter(loop, k, count, insert, pts);
      var kept := Arc(loop, k + 1, |loop| - count);
      var ins := Placed(kept[|kept| - 1], insert, pts);
      && (r.Ok? <==> Chains.IsConnectedTo(pts(kept[|kept| - 1]), pts(ins[0]))
                     && Chains.IsConnectedTo(pts(kept[0]), pts(ins[|ins| - 1])))
      && (r.Err? ==> r.error == RuntimeError)
      && (r.Ok? ==> r.value == ListUtil.RotateList(kept + ins, |loop| - (k + 1)))
  {
    var kept := Arc(loop, k + 1, |loop| - count);
    RotatedIsArc(loop, k, |loop| - count);
    SwapAfterKept(loop, k, count, insert, pts, kept);
  }

  /** `SwapAfter` with the kept entries named. */
  lemma SwapAfterKept<T>(loop: seq<T>, k: nat, count: nat, insert: seq<T>, pts: T -> seq<PointId>, kept: seq<T>)
    requires k < |loop| && count < |loop| && |insert| > 0
    requires kept == ListUtil.RotateList(loop, -(|loop| - (k + 1)))[..|loop| - count]
    ensures var r := SwapAfter(loop, k, count, insert, pts);
      var ins := Placed(kept[|kept| - 1], insert, pts);
      && (r.Ok? <==> Chains.IsConnectedTo(pts(kept[|kept| - 1]), pts(ins[0]))
                     && Chains.IsConnectedTo(pts(kept[0]), pts(ins[|ins| - 1])))
      && (r.Err? ==> r.error == RuntimeError)
      && (r.Ok? ==> r.value == ListUtil.RotateList(kept + ins, |loop| - (k + 1)))
  {
  }

  lemma ConcatAssoc<T>(a: seq<T>, b: seq<T>, c: seq<T>)
    ensures (a + b) + c == a + (b + c)
  {
  }

  /** Rotating past a leading block moves it to the end. */
  lemma RotatePastFront<T>(a: seq<T>, b: seq<T>)
    requires |b| > 0
    ensures ListUtil.RotateList(a + b, |a|) == b + a
  {
    ListUtil.RotateIsSplice(a + b, |a|);
    ListUtil.ModOfShifted(|a + b|, |a|, 0);
    assert (a + b)[|a|..] == b;
    assert (a + b)[..|a|] == a;
  }

  /** A kept arc that does not wrap twice: the chains after position `k`
      up to the end, then the chains from the start up to the removed run. */
  lemma ArcAfterRun<T>(loop: seq<T>, k: nat, count: nat)
    requires k < |loop| && count <= k + 1
    ensures Arc(loop, k + 1, |loop| - count) == loop[k + 1..] + loop[..k + 1 - count]
  {
    var m := |loop|;
    var kept := Arc(loop, k + 1, m - count);
    forall j | 0 <= j < |kept|
      ensures kept[j] == (loop[k + 1..] + loop[..k + 1 - count])[j]
    {
      if j < m - (k + 1) {
        ListUtil.ModOfShifted(m, k + 1 + j, 0);
      } else {
        ListUtil.ModOfShifted(m, k + 1 + j - m, 1);
      }
    }
  }

  /** When the run to remove does not wrap past the loop's start, the
      result is the loop with that run replaced in place: the chains before
      it, the inserted run, the chains after it. */
  lemma SwapAfterInPlace<T>(loop: seq<T>, k: nat, count: nat, insert: seq<T>, pts: T -> seq<PointId>)
    requires k < |loop| && count <= k + 1
    requires SwapAfter(loop, k, count, insert, pts).Ok?
    ensures count < |loop| && |insert| > 0
    ensures var kept := Arc(loop, k + 1, |loop| - count);
      SwapAfter(loop, k, count, insert, pts).value
        == loop[..k + 1 - count] + Placed(kept[|kept| - 1], insert, pts) + loop[k + 1..]
  {
    var r := SwapAfter(loop, k, count, insert, pts);
    SwapAfterOutcome(loop, k, count, insert, pts);
    assert count < |loop| && |insert| > 0;
    var kept := Arc(loop, k + 1, |loop| - count);
    var ins := Placed(kept[|kept| - 1], insert, pts);
    assert r.value == ListUtil.RotateList(kept + ins, |loop| - (k + 1));
    RotateBackInPlace(loop, k, count, ins);
  }

  /** Turning the kept arc plus the inserted run back by the loop's turn
      puts the run where the removed chains were. */
  lemma RotateBackInPlace<T>(loop: seq<T>, k: nat, count: nat, ins: seq<T>)
    requires k < |loop| && count <= k + 1 && |ins| > 0
    ensures ListUtil.RotateList(Arc(loop, k + 1, |loop| - count) + ins, |loop| - (k + 1))
      == loop[..k + 1 - count] + ins + loop[k + 1..]
  {
    var x := loop[k + 1..];
    var z := loop[..k + 1 - count];
    ArcAfterRun(loop, k, count);
    ConcatAssoc(x, z, ins);
    RotatePastFront(x, z + ins);
  }

  /** Consecutive entries of the loop are connected, and so are the last
      and the first: the loop closes. */
  predicate Linked<T>(loop: seq<T>, pts: T -> seq<PointId>) {
    |loop| > 0 && forall j :: 0 <= j < |loop| ==> LinkedAt(loop, j, pts)
  }

  /** Entry `j` connects to the entry after it, wrapping at the end. */
  predicate LinkedAt<T>(loop: seq<T>, j: int, pts: T -> seq<PointId>) {
    0 <= j < |loop| && Chains.IsConnectedTo(pts(loop[j]), pts(loop[(j + 1) % |loop|]))
  }

  /** Swapping back: in a closed loop whose run `k + 1 - count .. k` was
      replaced in place by `ins` (as `SwapAfterInPlace` describes the
      first swap), swapping `ins` out for the removed run restores the
      loop. */
  lemma SwapBackRestores<T>(loop: seq<T>, k: nat, count: nat, ins: seq<T>, r: seq<T>, pts: T -> seq<PointId>)
    requires k < |loop| && 0 < count <= k + 1 && count < |loop| && |ins| > 0
    requires Linked(loop, pts)
    requires r == loop[..k + 1 - count] + ins + loop[k + 1..]
    ensures SwapAfter(r, k - count + |ins|, |ins|, loop[k + 1 - count..k + 1], pts) == Ok(loop)
  {
    var run := loop[k + 1 - count..k + 1];
    var pos := k - count + |ins|;
    SwapBackShape(loop, k, count, ins, r);
    SwapBackPlaced(loop, k, count, r, pos, |ins|, pts);
    SwapAfterOutcome(r, pos, |ins|, run, pts);
    SwapAfterInPlace(r, pos, |ins|, run, pts);
  }

  /** The loop after the first swap, seen from the inserted run. */
  lemma SwapBackShape<T>(loop: seq<T>, k: nat, count: nat, ins: seq<T>, r: seq<T>)
    requires k < |loop| && 0 < count <= k + 1 && count < |loop| && |ins| > 0
    requires r == loop[..k + 1 - count] + ins + loop[k + 1..]
    ensures var pos := k - count + |ins|;
      && pos < |r|
      && Arc(r, pos + 1, |r| - |ins|) == loop[k + 1..] + loop[..k + 1 - count]
      && r[..pos + 1 - |ins|] + loop[k + 1 - count..k + 1] + r[pos + 1..] == loop
  {
    var pos := k - count + |ins|;
    var a := loop[..k + 1 - count];
    var b := loop[k + 1..];
    ArcAfterRun(r, pos, |ins|);
    assert r[pos + 1..] == b;
    assert r[..pos + 1 - |ins|] == a;
    assert loop == a + loop[k + 1 - count..k + 1] + b;
  }

  /** Swapping back, the removed run needs no turning round: the chain
      before the gap connects to the run's first chain. */
  lemma SwapBackPlaced<T>(loop: seq<T>, k: nat, count: nat, r: seq<T>, pos: nat, len: nat, pts: T -> seq<PointId>)
    requires k < |loop| && 0 < count <= k + 1 && count < |loop|
    requires pos < |r| && len <= pos + 1 && len < |r|
    requires Arc(r, pos + 1, |r| - len) == loop[k + 1..] + loop[..k + 1 - count]
    requires Linked(loop, pts)
    ensures var kept := Arc(r, pos + 1, |r| - len);
      var run := loop[k + 1 - count..k + 1];
      && Placed(kept[|kept| - 1], run, pts) == run
      && Chains.IsConnectedTo(pts(kept[|kept| - 1]), pts(run[0]))
      && Chains.IsConnectedTo(pts(kept[0]), pts(run[|run| - 1]))
  {
    var kept := Arc(r, pos + 1, |r| - len);
    var ba := loop[k + 1..] + loop[..k + 1 - count];
    var run := loop[k + 1 - count..k + 1];
    assert kept == ba && |ba| > 0;
    assert run[0] == loop[k + 1 - count] && run[|run| - 1] == loop[k];
    SwapBackJoins(loop, k, count, pts);
    assert Chains.IsConnectedTo(pts(ba[|ba| - 1]), pts(run[0]));
  }

  /** Around a run of a closed loop, the chain before the run connects to
      its first chain and its last chain connects to the chain after it. */
  lemma SwapBackJoins<T>(loop: seq<T>, k: nat, count: nat, pts: T -> seq<PointId>)
    requires k < |loop| && 0 < count <= k + 1 && count < |loop|
    requires Linked(loop, pts)
    ensures var a := loop[..k + 1 - count];
      var b := loop[k + 1..];
      var before := (b + a)[|b + a| - 1];
      var after := (b + a)[0];
      && Chains.IsConnectedTo(pts(before), pts(loop[k + 1 - count]))
      && Chains.IsConnectedTo(pts(after), pts(loop[k]))
  {
    var m := |loop|;
    var a := loop[..k + 1 - count];
    var b := loop[k + 1..];
    if |a| > 0 {
      assert (b + a)[|b + a| - 1] == loop[k - count];
      assert LinkedAt(loop, k - count, pts);
      ListUtil.ModOfShifted(m, k - count + 1, 0);
    } else {
      assert (b + a)[|b + a| - 1] == loop[m - 1];
      assert LinkedAt(loop, m - 1, pts);
      ListUtil.ModOfShifted(m, 0, 1);
    }
    assert LinkedAt(loop, k, pts);
    if |b| > 0 {
      assert (b + a)[0] == loop[k + 1];
      ListUtil.ModOfShifted(m, k + 1, 0);
    } else {
      assert (b + a)[0] == loop[0];
      ListUtil.ModOfShifted(m, 0, 1);
    }
    Chains.ConnectedSymmetric(pts(loop[k]), pts((b + a)[0]));
  }

  /** A loop of point lists stands for itself. */
  function PointsOf(c: seq<PointId>): seq<PointId> {
    c
  }

  /** The square of chains the repository's `swap_chains` test uses: four
      sides 1-2, 2-3, 3-4, 4-1 and a diagonal 2-4, each with one interior
      point. */
  function Side1(): seq<PointId> { [1, 10, 2] }
  function Side2(): seq<PointId> { [2, 11, 3] }
  function Side3(): seq<PointId> { [3, 12, 4] }
  function Side4(): seq<PointId> { [4, 13, 1] }
  function Diagonal(): seq<PointId> { [2, 14, 4] }

  function Square(): seq<seq<PointId>> {
    [Side1(), Side2(), Side3(), Side4()]
  }

  /** Swapping the two middle sides for the diagonal leaves side 1, the
      diagonal and side 4, in that order. */
  lemma SwapExampleCutCorner()
    ensures SwapChains(Square(), [Side2(), Side3()], [Diagonal()], PointsOf)
      == Ok([Side1(), Diagonal(), Side4()])
  {
    SquareIndexOfSide3();
    SwapExampleCutCornerAfter();
  }

  /** Side 1 is found at the loop's start. */
  lemma SquareIndexOfSide1()
    ensures IndexOfChain(Square(), Side1(), PointsOf) == Some(0)
  {
  }

  /** Side 3 is found after the two sides that do not share its ends. */
  lemma SquareIndexOfSide3()
    ensures IndexOfChain(Square(), Side3(), PointsOf) == Some(2)
  {
    Chains.UnequalByEndpoints(Side1(), Side3());
    Chains.UnequalByEndpoints(Side2(), Side3());
    assert Square()[1..][1..] == [Side3(), Side4()];
  }

  /** Side 4 is found last. */
  lemma SquareIndexOfSide4()
    ensures IndexOfChain(Square(), Side4(), PointsOf) == Some(3)
  {
    Chains.UnequalByEndpoints(Side1(), Side4());
    Chains.UnequalByEndpoints(Side2(), Side4());
    Chains.UnequalByEndpoints(Side3(), Side4());
    assert Square()[1..][1..][1..] == [Side4()];
  }

  lemma SwapExampleCutCornerAfter()
    ensures SwapAfter(Square(), 2, 2, [Diagonal()], PointsOf) == Ok([Side1(), Diagonal(), Side4()])
  {
    var loop := Square();
    var kept := Arc(loop, 3, 2);
    assert kept[0] == Side4() && kept[1] == Side1();
    assert Chains.IsConnectedTo(Side1(), Diagonal());
    assert Chains.IsConnectedTo(Side4(), Diagonal());
    var ins := Placed(kept[1], [Diagonal()], PointsOf);
    assert ins == [Diagonal()];
    SwapAfterOutcome(loop, 2, 2, [Diagonal()], PointsOf);
    assert SwapAfter(loop, 2, 2, [Diagonal()], PointsOf).Ok?;
    SwapAfterInPlace(loop, 2, 2, [Diagonal()], PointsOf);
    assert SwapAfter(loop, 2, 2, [Diagonal()], PointsOf).value == loop[..1] + ins + loop[3..];
    assert loop[..1] + ins + loop[3..] == [Side1(), Diagonal(), Side4()];
  }

  /** Swapping the diagonal back out for the two middle sides restores the
      square. */
  lemma SwapExampleRestore()
    ensures SwapChains([Side1(), Diagonal(), Side4()], [Diagonal()], [Side2(), Side3()], PointsOf)
      == Ok(Square())
  {
    var loop := [Side1(), Diagonal(), Side4()];
    Chains.UnequalByEndpoints(Side1(), Diagonal());
    assert IndexOfChain(loop, Diagonal(), PointsOf) == Some(1);
    var kept := Arc(loop, 2, 2);
    assert kept[0] == Side4() && kept[1] == Side1();
    assert Chains.IsConnectedTo(Side1(), Side2());
    assert Chains.IsConnectedTo(Side4(), Side3());
    var ins := Placed(kept[1], [Side2(), Side3()], PointsOf);
    assert ins == [Side2(), Side3()];
    SwapAfterOutcome(loop, 1, 1, [Side2(), Side3()], PointsOf);
    assert SwapAfter(loop, 1, 1, [Side2(), Side3()], PointsOf).Ok?;
    SwapAfterInPlace(loop, 1, 1, [Side2(), Side3()], PointsOf);
    assert SwapAfter(loop, 1, 1, [Side2(), Side3()], PointsOf).value == loop[..1] + ins + loop[2..];
    assert loop[..1] + ins + loop[2..] == Square();
  }

  /** Removing the run side 4, side 1, which wraps past the loop's start,
      and inserting the diagonal leaves side 2, side 3, the diagonal. */
  lemma SwapExampleAcrossStart()
    ensures SwapChains(Square(), [Side4(), Side1()], [Diagonal()], PointsOf)
      == Ok([Side2(), Side3(), Diagonal()])
  {
    SquareIndexOfSide1();
    SwapExampleAcrossStartAfter();
  }

  lemma SwapExampleAcrossStartAfter()
    ensures SwapAfter(Square(), 0, 2, [Diagonal()], PointsOf) == Ok([Side2(), Side3(), Diagonal()])
  {
    var loop := Square();
    var kept := Arc(loop, 1, 2);
    assert kept[0] == Side2() && kept[1] == Side3();
    assert kept == [Side2(), Side3()];
    assert Chains.IsConnectedTo(Side3(), Diagonal());
    assert Chains.IsConnectedTo(Side2(), Diagonal());
    var ins := Placed(kept[1], [Diagonal()], PointsOf);
    assert ins == [Diagonal()];
    SwapAfterOutcome(loop, 0, 2, [Diagonal()], PointsOf);
    var result := [Side2(), Side3(), Diagonal()];
    assert kept + ins == result;
    ListUtil.RotateCongruent(result, 3, 0);
    ListUtil.RotateByZero(result);
  }
}

/** Cyclic rotation of a list: the splice primitive of `Blob.swap_chains`. */
module ListUtil {

  import opened Results

  /** Rotates `l` so that the element at `rot` (taken modulo the length)
      becomes the first one. Python's `%` with a positive divisor agrees with
      Dafny's Euclidean `%`, so no sign correction is needed. */
  function RotateList<T>(l: seq<T>, rot: int): (r: seq<T>)
    ensures |r| == |l|
  {
    if l == [] then [] else Splice(l, rot % |l|)
  }

  /** `l[k:] + l[:k]`, built as `k` single steps that move the head to the
      tail; the stepwise definition keeps the verifier from unfolding the
      slices wherever a rotated list appears. `SpliceIsSlices` states the
      slice form. */
  function Splice<T>(l: seq<T>, k: nat): (r: seq<T>)
    requires k <= |l|
    ensures |r| == |l|
    decreases k
  {
    if k == 0 then l else Splice(l[1..] + [l[0]], k - 1)
  }

  lemma {:induction false} SpliceIsSlices<T>(l: seq<T>, k: nat)
    requires k <= |l|
    ensures Splice(l, k) == l[k..] + l[..k]
    decreases k
  {
    if k > 0 {
      var l' := l[1..] + [l[0]];
      SpliceIsSlices(l', k - 1);
      assert l'[k - 1..] == l[k..] + [l[0]];
      assert l'[..k - 1] == l[1..k];
      assert l[..k] == [l[0]] + l[1..k];
    }
  }

  /** The engine's slice-and-concatenate: the rotation is `l[k:] + l[:k]`
      with `k = rot % len(l)`, and the empty list rotates to itself. */
  lemma RotateIsSplice<T>(l: seq<T>, rot: int)
    ensures l == [] ==> RotateList(l, rot) == []
    ensures l != [] ==> RotateList(l, rot) == l[rot % |l|..] + l[..rot % |l|]
  {
    if l != [] {
      SpliceIsSlices(l, rot % |l|);
    }
  }

  /** Element `i` of the rotated list is element `(i + rot) mod n` of the
      input; in particular the element at `rot` becomes the first. */
  lemma RotateAt<T>(l: seq<T>, rot: int, i: int)
    requires 0 <= i < |l|
    ensures RotateList(l, rot)[i] == l[(i + rot) % |l|]
  {
    var k := rot % |l|;
    RotateIsSplice(l, rot);
    ShiftedIndex(|l|, k, rot, i);
  }

  /** Rotation is a permutation: the same elements with the same multiplicities. */
  lemma RotatePermutes<T>(l: seq<T>, rot: int)
    ensures multiset(RotateList(l, rot)) == multiset(l)
  {
    if l != [] {
      var k := rot % |l|;
      RotateIsSplice(l, rot);
      assert l == l[..k] + l[k..];
    }
  }

  /** `(i + rot) % n` is `i + k` before the wrap point and `i + k - n` after it. */
  lemma ShiftedIndex(n: int, k: int, rot: int, i: int)
    requires n > 0 && k == rot % n && 0 <= i < n
    ensures i < n - k ==> (i + rot) % n == i + k
    ensures i >= n - k ==> (i + rot) % n == i + k - n
  {
    var q := rot / n;
    assert rot == q * n + k;
    assert i + rot == (i + k) + q * n;
    if i < n - k {
      ModOfShifted(n, i + k, q);
    } else {
      assert i + rot == (i + k - n) + (q + 1) * n;
      ModOfShifted(n, i + k - n, q + 1);
    }
  }

  /** Adding a multiple of `n` does not change a residue already in range. */
  lemma ModOfShifted(n: int, a: int, q: int)
    requires n > 0 && 0 <= a < n
    ensures (a + q * n) % n == a
  {
    ModUnique(n, a + q * n, q, a);
  }

  /** Euclidean division is unique: `x == d * n + m` with `0 <= m < n` fixes `x % n`. */
  lemma ModUnique(n: int, x: int, d: int, m: int)
    requires n > 0 && 0 <= m < n && x == d * n + m
    ensures x % n == m
  {
    var d' := x / n;
    var m' := x % n;
    var c := d - d';
    assert c * n == d * n - d' * n;
    assert c * n == m' - m;
  }

  /** `(a % n + b) % n == (a + b) % n`: residues compose. */
  lemma ModAddLeft(n: int, a: int, b: int)
    requires n > 0
    ensures (a % n + b) % n == (a + b) % n
  {
    var q := a / n;
    assert a == q * n + a % n;
    var s := (a % n + b) % n;
    var t := (a % n + b) / n;
    assert a % n + b == t * n + s;
    assert a + b == s + (q + t) * n;
    ModOfShifted(n, s, q + t);
  }

  /** Element `i` of the two-step rotation and of the one-step rotation agree. */
  lemma RotateComposeAt<T>(l: seq<T>, a: int, b: int, i: int)
    requires 0 <= i < |l|
    ensures RotateList(RotateList(l, a), b)[i] == RotateList(l, a + b)[i]
  {
    var n := |l|;
    var r1 := RotateList(l, a);
    var j := (i + b) % n;
    RotateAt(r1, b, i);
    RotateAt(l, a, j);
    RotateAt(l, a + b, i);
    ModCompose(n, i, a, b);
  }

  lemma ModCompose(n: int, i: int, a: int, b: int)
    requires n > 0
    ensures ((i + b) % n + a) % n == (i + (a + b)) % n
  {
    ModAddLeft(n, i + b, a);
    assert i + b + a == i + (a + b);
  }

  /** Rotating by `a` and then by `b` is rotating by `a + b`. */
  lemma {:induction false} RotateCompose<T>(l: seq<T>, a: int, b: int)
    ensures RotateList(RotateList(l, a), b) == RotateList(l, a + b)
  {
    var r2 := RotateList(RotateList(l, a), b);
    var r := RotateList(l, a + b);
    forall i | 0 <= i < |l|
      ensures r2[i] == r[i]
    {
      RotateComposeAt(l, a, b, i);
    }
  }

  /** Rotating by `k` and then by `-k` gives the list back. */
  lemma RotateInverse<T>(l: seq<T>, k: int)
    ensures RotateList(RotateList(l, k), -k) == l
  {
    RotateCompose(l, k, -k);
    RotateCongruentZero(l, k + -k);
  }

  /** A rotation amount that is literally zero leaves the list unchanged. */
  lemma RotateCongruentZero<T>(l: seq<T>, z: int)
    requires z == 0
    ensures RotateList(l, z) == l
  {
    RotateByZero(l);
  }

  /** Rotating by 0 is the identity. */
  lemma RotateByZero<T>(l: seq<T>)
    ensures RotateList(l, 0) == l
  {
    RotateByMultiple(l, 0);
  }

  /** Rotating by any multiple of the length (0 included) is the identity. */
  lemma {:induction false} RotateByMultiple<T>(l: seq<T>, q: int)
    ensures RotateList(l, q * |l|) == l
  {
    var r := RotateList(l, q * |l|);
    if |l| > 0 {
      forall i | 0 <= i < |l|
        ensures r[i] == l[i]
      {
        RotateAt(l, q * |l|, i);
        ModOfShifted(|l|, i, q);
        assert i + q * |l| == i + q * |l|;
      }
    }
  }

  /** Only the rotation amount modulo the length matters. */
  lemma {:induction false} RotateCongruent<T>(l: seq<T>, a: int, b: int)
    requires |l| > 0 && a % |l| == b % |l|
    ensures RotateList(l, a) == RotateList(l, b)
  {
    var n := |l|;
    forall i | 0 <= i < n
      ensures RotateList(l, a)[i] == RotateList(l, b)[i]
    {
      RotateAt(l, a, i);
      RotateAt(l, b, i);
      ModAddLeft(n, a, i);
      ModAddLeft(n, b, i);
      assert (a + i) % n == (b + i) % n;
      assert i + a == a + i && i + b == b + i;
    }
  }

  function EmptyInts(): seq<int> { [] }

  /** The examples the repository's own tests check. */
  lemma RotateExamples()
    ensures RotateList([1, 2, 3, 4, 5], -2) == [4, 5, 1, 2, 3]
    ensures RotateList([1, 2, 3, 4, 5], -7) == [4, 5, 1, 2, 3]
    ensures RotateList([1], -3) == [1]
    ensures RotateList(EmptyInts(), -3) == []
  {
    RotateCongruent([1, 2, 3, 4, 5], -7, -2);
  }

  // ---------------------------------------------------------------------
  // Python list primitives the engine relies on.

  /** `l.reverse()` / `l[::-1]`. */
  function Reverse<T>(s: seq<T>): (r: seq<T>)
    ensures |r| == |s|
    ensures forall i :: 0 <= i < |s| ==> r[i] == s[|s| - 1 - i]
  {
    if s == [] then [] else Reverse(s[1..]) + [s[0]]
  }

  /** Reversal is an involution. */
  lemma ReverseReverse<T>(s: seq<T>)
    ensures Reverse(Reverse(s)) == s
  {
    var r := Reverse(Reverse(s));
    assert forall i | 0 <= i < |s| :: r[i] == s[i];
  }

  /** Reversal keeps the elements and their multiplicities. */
  lemma ReversePermutes<T>(s: seq<T>)
    ensures multiset(Reverse(s)) == multiset(s)
  {
    if s != [] {
      ReversePermutes(s[1..]);
      assert s == [s[0]] + s[1..];
    }
  }

  /** No element occurs twice. */
  predicate Distinct<T(==)>(s: seq<T>) {
    forall i, j :: 0 <= i < j < |s| ==> s[i] != s[j]
  }

  lemma ReverseAppend<T>(a: seq<T>, b: seq<T>)
    ensures Reverse(a + b) == Reverse(b) + Reverse(a)
  {
    var l, r := Reverse(a + b), Reverse(b) + Reverse(a);
    assert forall i | 0 <= i < |l| :: l[i] == r[i];
  }

  /** `l.index(x)`: the position of the first occurrence, or `None` where
      Python raises `ValueError`. */
  function IndexOf<T(==)>(s: seq<T>, x: T): (r: Option<nat>)
    ensures r.None? <==> x !in s
    ensures r.Some? ==> r.value < |s| && s[r.value] == x && x !in s[..r.value]
  {
    if |s| == 0 then None
    else if s[0] == x then Some(0)
    else
      match IndexOf(s[1..], x)
      case None => None
      case Some(k) =>
        assert s[..k + 1] == [s[0]] + s[1..][..k];
        Some(k + 1)
  }

  /** `l.remove(x)`: drops the first occurrence of `x`; `ValueError` when absent. */
  function RemoveFirst<T(==)>(s: seq<T>, x: T): (r: Result<seq<T>>)
    ensures r.Err? <==> x !in s
    ensures r.Err? ==> r.error == ValueError
    ensures r.Ok? ==> |r.value| + 1 == |s|
  {
    if |s| == 0 then Err(ValueError)
    else if s[0] == x then Ok(s[1..])
    else
      match RemoveFirst(s[1..], x)
      case Err(e) => Err(e)
      case Ok(t) => Ok([s[0]] + t)
  }

  /** The element removed is the one `index` finds: everything before it and
      everything after it stays in place. */
  lemma {:induction false} RemoveFirstAt<T>(s: seq<T>, x: T)
    requires x in s
    ensures var k := IndexOf(s, x).value; RemoveFirst(s, x).value == s[..k] + s[k + 1..]
  {
    if s[0] != x {
      assert x in s[1..] by { var j :| 0 <= j < |s| && s[j] == x; assert s[1..][j - 1] == x; }
      RemoveFirstAt(s[1..], x);
      var k := IndexOf(s[1..], x).value;
      assert IndexOf(s, x).value == k + 1;
      assert s[..k + 1] == [s[0]] + s[1..][..k];
      assert s[k + 2..] == s[1..][k + 1..];
    }
  }

  /** Removal keeps every other element with its multiplicity. */
  lemma {:induction false} RemoveFirstPermutes<T>(s: seq<T>, x: T)
    requires x in s
    ensures multiset(RemoveFirst(s, x).value) + multiset{x} == multiset(s)
  {
    assert s == [s[0]] + s[1..];
    if s[0] != x {
      assert x in s[1..] by { var j :| 0 <= j < |s| && s[j] == x; assert s[1..][j - 1] == x; }
      RemoveFirstPermutes(s[1..], x);
    }
  }

  /** The position Python's `l[k]` reads: `k` itself, or `n + k` for a
      negative `k` down to `-n`; `None` where Python raises `IndexError`. */
  function PyIndex(n: nat, k: int): (r: Option<nat>)
    ensures r.Some? <==> 0 <= n + k && k < n
    ensures r.Some? ==> r.value < n && r.value == (if k < 0 then n + k else k)
  {
    if 0 <= k < n then Some(k) else if 0 <= n + k && k < 0 then Some(n + k) else None
  }

  /** `l[k]` with Python's negative indexing. */
  function PyGet<T>(s: seq<T>, k: int): (r: Result<T>)
    ensures r.Err? <==> PyIndex(|s|, k).None?
    ensures r.Err? ==> r.error == IndexError
    ensures r.Ok? ==> r.value == s[PyIndex(|s|, k).value]
  {
    match PyIndex(|s|, k)
    case None => Err(IndexError)
    case Some(j) => Ok(s[j])
  }

  /** `s` with `x` inserted before position `pos`; built one element at a
      time so the verifier does not unfold slices wherever it appears. */
  function InsertAt<T>(s: seq<T>, pos: nat, x: T): (r: seq<T>)
    requires pos <= |s|
    ensures |r| == |s| + 1 && r[pos] == x
    ensures r[..pos] == s[..pos] && r[pos + 1..] == s[pos..]
    decreases pos
  {
    if pos == 0 then [x] + s
    else
      var t := InsertAt(s[1..], pos - 1, x);
      assert ([s[0]] + t)[..pos] == [s[0]] + t[..pos - 1];
      assert s[..pos] == [s[0]] + s[1..][..pos - 1];
      [s[0]] + t
  }

  /** `t` is `s` with `x` inserted before position `pos`. */
  ghost predicate InsertedAt<T>(s: seq<T>, t: seq<T>, pos: int, x: T) {
    && 0 <= pos <= |s| && |t| == |s| + 1 && t[pos] == x
    && t[..pos] == s[..pos] && t[pos + 1..] == s[pos..]
  }

  /** The slice form of an insertion. */
  lemma InsertAtIsSlices<T>(s: seq<T>, pos: nat, x: T)
    requires pos <= |s|
    ensures InsertAt(s, pos, x) == s[..pos] + [x] + s[pos..]
  {
    var r := InsertAt(s, pos, x);
    var q := s[..pos] + [x] + s[pos..];
    forall i | 0 <= i < |r| ensures r[i] == q[i] {
      if i < pos {
        assert r[i] == r[..pos][i];
      } else if i > pos {
        assert r[i] == r[pos + 1..][i - pos - 1];
      }
    }
  }

  /** A list that reads `s` before `pos`, `x` at `pos` and `s` one place
      back after it is the insertion of `x` at `pos`. */
  lemma InsertAtByIndex<T>(s: seq<T>, pos: nat, x: T, r: seq<T>)
    requires pos <= |s| && |r| == |s| + 1
    requires forall j :: 0 <= j < pos ==> r[j] == s[j]
    requires r[pos] == x
    requires forall j :: pos < j < |r| ==> r[j] == s[j - 1]
    ensures r == InsertAt(s, pos, x)
  {
    var m := InsertAt(s, pos, x);
    forall j | 0 <= j < |r| ensures r[j] == m[j] {
      if j < pos {
        assert m[j] == m[..pos][j];
      } else if j > pos {
        assert m[j] == m[pos + 1..][j - 1 - pos];
      }
    }
  }

  /** Taking out the inserted element gives the list back. */
  lemma RemoveInserted<T>(s: seq<T>, pos: nat, x: T)
    requires pos <= |s|
    ensures InsertAt(s, pos, x)[..pos] + InsertAt(s, pos, x)[pos + 1..] == s
  {
    var r := InsertAt(s, pos, x);
    assert s == s[..pos] + s[pos..];
  }

  /** The position `l.insert(i, x)` puts `x` at: a negative `i` counts from
      the end, and the result is clamped to `0..n`. */
  function PyInsertPos(n: nat, i: int): (r: nat)
    ensures r <= n
    ensures 0 <= i <= n ==> r == i
    ensures i > n ==> r == n
    ensures i < 0 && 0 <= n + i ==> r == n + i
    ensures n + i < 0 ==> r == 0
  {
    var j := if i < 0 then i + n else i;
    if j < 0 then 0 else if j > n then n else j
  }

  /** Python's `a % b`: the result has the sign of `b`. Dafny's `%` agrees
      when `b > 0`. */
  function PyMod(a: int, b: int): (r: int)
    requires b != 0
    ensures b > 0 ==> 0 <= r < b && r == a % b
    ensures b < 0 ==> b < r <= 0
  {
    if b > 0 then a % b else -((-a) % (-b))
  }

  /** Reducing an already reduced value changes nothing. */
  lemma PyModIdempotent(a: int, b: int)
    requires b != 0
    ensures PyMod(PyMod(a, b), b) == PyMod(a, b)
  {
    var r := PyMod(a, b);
    if b > 0 {
      ModOfShifted(b, r, 0);
    } else {
      ModOfShifted(-b, -r, 0);
    }
  }

  /** Adding one period does not change the residue. */
  lemma PyModPeriodic(a: int, b: int)
    requires b > 0
    ensures PyMod(a + b, b) == PyMod(a, b)
  {
    ModAddLeft(b, a, b);
    ModOfShifted(b, a % b, 1);
  }

  /** The successor of a reduced position, reduced again: it wraps to 0
      only from the last position. */
  lemma ModNext(n: int, i: int)
    requires 0 <= i < n
    ensures (i + 1) % n == if i + 1 < n then i + 1 else 0
  {
    if i + 1 < n {
      ModOfShifted(n, i + 1, 0);
    } else {
      ModOfShifted(n, 0, 1);
    }
  }

  /** Two sequences that agree at every index are equal. */
  lemma EqualByIndex<T>(a: seq<T>, b: seq<T>)
    requires |a| == |b|
    requires forall i :: 0 <= i < |a| ==> a[i] == b[i]
    ensures a == b
  {
  }
}

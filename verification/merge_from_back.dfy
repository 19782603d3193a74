/** CSO/Hw1/3.2.c: `mergeFromBack` merges the sorted array `b` into the free
    tail of the sorted array `a`, writing from the back so that no unread
    element of `a` is overwritten. */
module MergeFromBack {

  ghost predicate Sorted(s: seq<int>)
  {
    forall p, q :: 0 <= p < q < |s| ==> s[p] <= s[q]
  }

  /** The merge of `x[..i]` and `y[..j]` as the loops build it, last position
      first: the larger of the two last elements goes last, and on a tie the
      element of `y` does. Once `y[..j]` is used up, `x[..i]` stays as it is. */
  function MergeUpTo(x: seq<int>, y: seq<int>, i: nat, j: nat): (r: seq<int>)
    requires i <= |x| && j <= |y|
    ensures |r| == i + j
    decreases i + j
  {
    if j == 0 then x[..i]
    else if i == 0 then y[..j]
    else if x[i - 1] > y[j - 1] then MergeUpTo(x, y, i - 1, j) + [x[i - 1]]
    else MergeUpTo(x, y, i, j - 1) + [y[j - 1]]
  }

  /** The merge of all of `x` with all of `y`. */
  function MergeBack(x: seq<int>, y: seq<int>): (r: seq<int>)
    ensures |r| == |x| + |y|
  {
    MergeUpTo(x, y, |x|, |y|)
  }

  /** Once either input is used up, the merge is the rest of the other. */
  lemma TakeNone(x: seq<int>, y: seq<int>, i: nat, j: nat)
    requires i <= |x| && j <= |y| && (i == 0 || j == 0)
    ensures multiset(MergeUpTo(x, y, i, j)) == multiset(x[..i]) + multiset(y[..j])
  {
    if j == 0 {
      assert y[..j] == [];
    } else {
      assert x[..i] == [];
    }
  }

  /** Taking `x[i - 1]` last adds it to the elements taken from `x`. */
  lemma {:induction false} TakeLeft(x: seq<int>, y: seq<int>, i: nat, j: nat)
    requires 0 < i <= |x| && 0 < j <= |y| && x[i - 1] > y[j - 1]
    ensures multiset(MergeUpTo(x, y, i, j)) == multiset(x[..i]) + multiset(y[..j])
    decreases i + j, 0
  {
    MergeUpToPermutes(x, y, i - 1, j);
    assert MergeUpTo(x, y, i, j) == MergeUpTo(x, y, i - 1, j) + [x[i - 1]];
    assert x[..i] == x[..i - 1] + [x[i - 1]];
  }

  /** Taking `y[j - 1]` last adds it to the elements taken from `y`. */
  lemma {:induction false} TakeRight(x: seq<int>, y: seq<int>, i: nat, j: nat)
    requires 0 < i <= |x| && 0 < j <= |y| && x[i - 1] <= y[j - 1]
    ensures multiset(MergeUpTo(x, y, i, j)) == multiset(x[..i]) + multiset(y[..j])
    decreases i + j, 0
  {
    MergeUpToPermutes(x, y, i, j - 1);
    assert MergeUpTo(x, y, i, j) == MergeUpTo(x, y, i, j - 1) + [y[j - 1]];
    assert y[..j] == y[..j - 1] + [y[j - 1]];
  }

  /** The merge holds exactly the elements of both inputs. */
  lemma {:induction false} MergeUpToPermutes(x: seq<int>, y: seq<int>, i: nat, j: nat)
    requires i <= |x| && j <= |y|
    ensures multiset(MergeUpTo(x, y, i, j)) == multiset(x[..i]) + multiset(y[..j])
    decreases i + j, 1
  {
    if j == 0 || i == 0 {
      TakeNone(x, y, i, j);
    } else if x[i - 1] > y[j - 1] {
      TakeLeft(x, y, i, j);
    } else {
      TakeRight(x, y, i, j);
    }
  }

  /** Every element of the merge is at most any bound on the two last elements. */
  lemma MergeUpToBounded(x: seq<int>, y: seq<int>, i: nat, j: nat, bound: int)
    requires i <= |x| && j <= |y| && Sorted(x) && Sorted(y)
    requires i > 0 ==> x[i - 1] <= bound
    requires j > 0 ==> y[j - 1] <= bound
    ensures forall e :: e in MergeUpTo(x, y, i, j) ==> e <= bound
  {
    MergeUpToPermutes(x, y, i, j);
    forall e | e in MergeUpTo(x, y, i, j) ensures e <= bound {
      assert e in multiset(x[..i]) + multiset(y[..j]);
      if e in multiset(x[..i]) {
        var p :| 0 <= p < i && x[p] == e;
      } else {
        assert e in y[..j];
        var p :| 0 <= p < j && y[p] == e;
      }
    }
  }

  /** Merging two ascending sequences gives an ascending sequence. */
  lemma {:induction false} MergeUpToSorted(x: seq<int>, y: seq<int>, i: nat, j: nat)
    requires i <= |x| && j <= |y| && Sorted(x) && Sorted(y)
    ensures Sorted(MergeUpTo(x, y, i, j))
    decreases i + j
  {
    if j == 0 || i == 0 {
    } else {
      var rest, last;
      if x[i - 1] > y[j - 1] {
        rest, last := MergeUpTo(x, y, i - 1, j), x[i - 1];
        MergeUpToSorted(x, y, i - 1, j);
        MergeUpToBounded(x, y, i - 1, j, last);
      } else {
        rest, last := MergeUpTo(x, y, i, j - 1), y[j - 1];
        MergeUpToSorted(x, y, i, j - 1);
        MergeUpToBounded(x, y, i, j - 1, last);
      }
      forall p, q | 0 <= p < q < |rest| + 1
        ensures (rest + [last])[p] <= (rest + [last])[q]
      {
        if q == |rest| {
          assert rest[p] in rest;
        }
      }
    }
  }

  /** The merge rearranges its inputs: nothing is lost, duplicated or invented. */
  lemma MergeBackPermutes(x: seq<int>, y: seq<int>)
    ensures multiset(MergeBack(x, y)) == multiset(x) + multiset(y)
  {
    MergeUpToPermutes(x, y, |x|, |y|);
    assert x[..|x|] == x && y[..|y|] == y;
  }

  /** The merge of two ascending sequences is ascending. */
  lemma MergeBackSorted(x: seq<int>, y: seq<int>)
    requires Sorted(x) && Sorted(y)
    ensures Sorted(MergeBack(x, y))
  {
    MergeUpToSorted(x, y, |x|, |y|);
  }

  /** Whether the loops, started with all of `x` and `y` left, reach the point
      where `x[..i]` and `y[..j]` are left. */
  ghost predicate Visits(x: seq<int>, y: seq<int>, i: nat, j: nat)
    requires i <= |x| && j <= |y|
    decreases |x| - i + |y| - j
  {
    (i == |x| && j == |y|)
    || (i < |x| && 0 < j && x[i] > y[j - 1] && Visits(x, y, i + 1, j))
    || (j < |y| && !(0 < i && x[i - 1] > y[j]) && Visits(x, y, i, j + 1))
  }

  /** What is left at a visited point merges into the front of the whole merge. */
  lemma {:induction false} VisitsPrefix(x: seq<int>, y: seq<int>, i: nat, j: nat)
    requires i <= |x| && j <= |y| && Visits(x, y, i, j)
    ensures MergeUpTo(x, y, i, j) == MergeBack(x, y)[..i + j]
    decreases |x| - i + |y| - j
  {
    var w := MergeBack(x, y);
    if i == |x| && j == |y| {
    } else if i < |x| && 0 < j && x[i] > y[j - 1] && Visits(x, y, i + 1, j) {
      VisitsPrefix(x, y, i + 1, j);
      assert MergeUpTo(x, y, i + 1, j) == MergeUpTo(x, y, i, j) + [x[i]];
      assert w[..i + j] == w[..i + j + 1][..i + j];
    } else {
      VisitsPrefix(x, y, i, j + 1);
      if i == 0 {
        assert y[..j + 1] == y[..j] + [y[j]];
      }
      assert MergeUpTo(x, y, i, j + 1) == MergeUpTo(x, y, i, j) + [y[j]];
      assert w[..i + j] == w[..i + j + 1][..i + j];
    }
  }

  /** One pass of either loop: the larger of the two remaining last elements
      belongs at position `i + j - 1`, and the point after it is visited. */
  lemma PlaceStep(x: seq<int>, y: seq<int>, i: nat, j: nat)
    requires i <= |x| && 0 < j <= |y| && Visits(x, y, i, j)
    ensures 0 < i && x[i - 1] > y[j - 1] ==>
      MergeBack(x, y)[i + j - 1] == x[i - 1] && Visits(x, y, i - 1, j)
    ensures !(0 < i && x[i - 1] > y[j - 1]) ==>
      MergeBack(x, y)[i + j - 1] == y[j - 1] && Visits(x, y, i, j - 1)
  {
    VisitsPrefix(x, y, i, j);
    assert MergeUpTo(x, y, i, j)[i + j - 1] == MergeBack(x, y)[i + j - 1];
    if i == 0 {
      assert MergeUpTo(x, y, i, j) == y[..j];
    }
  }

  /** Once `y` is used up, what is left of `x` is already the front of the merge. */
  lemma KeepStep(x: seq<int>, y: seq<int>, i: nat)
    requires i <= |x| && Visits(x, y, i, 0)
    ensures forall t :: 0 <= t < i ==> MergeBack(x, y)[t] == x[t]
  {
    VisitsPrefix(x, y, i, 0);
    assert MergeUpTo(x, y, i, 0) == x[..i];
  }

  /** `mergeFromBack(a, m, b, n)`: `a` holds `m` elements followed by room for
      `n` more, `b` holds `n` elements. Afterwards `a[..m + n]` is the merge,
      and when both inputs were ascending it is ascending. */
  method MergeFromBack(a: array<int>, m: int, b: array<int>, n: int)
    requires 0 <= m && 0 <= n && m + n <= a.Length && n <= b.Length
    requires a != b
    modifies a
    ensures a[..m + n] == MergeBack(old(a[..m]), b[..n])
    ensures forall t :: m + n <= t < a.Length ==> a[t] == old(a[t])
  {
    ghost var A, B := a[..m], b[..n];
    ghost var W := MergeBack(A, B);
    assert |W| == m + n;
    var i, j, k := m - 1, n - 1, m + n - 1;
    while i >= 0 && j >= 0
      invariant -1 <= i < m && -1 <= j < n && k == i + j + 1
      invariant forall t :: 0 <= t <= i ==> a[t] == A[t]
      invariant forall t :: k < t < m + n ==> a[t] == W[t]
      invariant forall t :: m + n <= t < a.Length ==> a[t] == old(a[t])
      invariant Visits(A, B, i + 1, j + 1)
    {
      PlaceStep(A, B, i + 1, j + 1);
      if a[i] > b[j] {
        a[k] := a[i];
        i := i - 1;
      } else {
        a[k] := b[j];
        j := j - 1;
      }
      k := k - 1;
    }
    if j >= 0 {
      CopyRest(a, b, j, A, B);
    }
    KeepStep(A, B, if j < 0 then i + 1 else 0);
    assert forall t :: 0 <= t < m + n ==> a[t] == W[t];
  }

  /** The second loop of `mergeFromBack`: once `a`'s own elements are used up
      (so `k == j`), what is left of `b` is copied into the front of `a`. */
  method CopyRest(a: array<int>, b: array<int>, j0: int, ghost A: seq<int>, ghost B: seq<int>)
    requires a != b && 0 <= j0 < |B| <= b.Length && |A| + |B| <= a.Length
    requires forall t :: 0 <= t < |B| ==> b[t] == B[t]
    requires Visits(A, B, 0, j0 + 1)
    modifies a
    ensures forall t :: 0 <= t <= j0 ==> a[t] == MergeBack(A, B)[t]
    ensures forall t :: j0 < t < a.Length ==> a[t] == old(a[t])
    ensures Visits(A, B, 0, 0)
  {
    var j, k := j0, j0;
    while j >= 0
      invariant -1 <= j <= j0 && k == j
      invariant forall t :: k < t <= j0 ==> a[t] == MergeBack(A, B)[t]
      invariant forall t :: j0 < t < a.Length ==> a[t] == old(a[t])
      invariant Visits(A, B, 0, j + 1)
    {
      PlaceStep(A, B, 0, j + 1);
      a[k] := b[j];
      j := j - 1;
      k := k - 1;
    }
  }

  /** The merge the driver prints: {1,3,5,7,9} with {2,4,6,8,10}. */
  lemma ExampleMerge()
    ensures MergeBack([1, 3, 5, 7, 9], [2, 4, 6, 8, 10]) == [1, 2, 3, 4, 5, 6, 7, 8, 9, 10]
  {
    var x, y := [1, 3, 5, 7, 9], [2, 4, 6, 8, 10];
    assert MergeUpTo(x, y, 1, 0) == [1];
    assert MergeUpTo(x, y, 1, 1) == [1, 2];
    assert MergeUpTo(x, y, 2, 1) == [1, 2, 3];
    assert MergeUpTo(x, y, 2, 2) == [1, 2, 3, 4];
    assert MergeUpTo(x, y, 3, 2) == [1, 2, 3, 4, 5];
    assert MergeUpTo(x, y, 3, 3) == [1, 2, 3, 4, 5, 6];
    assert MergeUpTo(x, y, 4, 3) == [1, 2, 3, 4, 5, 6, 7];
    assert MergeUpTo(x, y, 4, 4) == [1, 2, 3, 4, 5, 6, 7, 8];
    assert MergeUpTo(x, y, 5, 4) == [1, 2, 3, 4, 5, 6, 7, 8, 9];
  }

  /** The driver: `a` has 5 elements and room for 5 more, `b` has 5. */
  method MergeExample() returns (merged: seq<int>)
    ensures merged == [1, 2, 3, 4, 5, 6, 7, 8, 9, 10]
  {
    var a := new int[10];
    a[0], a[1], a[2], a[3], a[4] := 1, 3, 5, 7, 9;
    var b := new int[5];
    b[0], b[1], b[2], b[3], b[4] := 2, 4, 6, 8, 10;
    assert a[..5] == [1, 3, 5, 7, 9];
    assert b[..5] == [2, 4, 6, 8, 10];
    MergeFromBack(a, 5, b, 5);
    ExampleMerge();
    merged := a[..10];
  }
}

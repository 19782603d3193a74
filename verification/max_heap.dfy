/** Data_Structures/Assignment3/nm4358/maxheap.cpp: a 1-based binary max-heap
    of hash-table buckets ordered by bucket size (`getSize()`).

    A bucket is named by its index in the table (the source stores
    `&buckets[index]`), and `sizes[b]` is what `getSize()` returns for bucket
    `b` at the time of the call. `slots[0]` is the unused dummy slot; the heap
    occupies `slots[1..]`. */
module MaxHeap {
  import opened Outcomes

  /** `parent(k)` */
  function Parent(k: nat): (p: nat)
    ensures k >= 2 ==> 1 <= p < k
    ensures 2 * p <= k <= 2 * p + 1
  {
    k / 2
  }

  /** `left(k)` */
  function Left(k: nat): (c: nat)
    ensures k >= 1 ==> c > k && Parent(c) == k
  {
    2 * k
  }

  /** `right(k)` */
  function Right(k: nat): (c: nat)
    ensures k >= 1 ==> c == Left(k) + 1 && Parent(c) == k
  {
    2 * k + 1
  }

  /** Every heap slot names a bucket whose size is known. */
  ghost predicate Within(a: seq<nat>, sizes: seq<nat>)
  {
    forall i :: 1 <= i < |a| ==> a[i] < |sizes|
  }

  /** No bucket is bigger than its parent. */
  ghost predicate IsHeap(a: seq<nat>, sizes: seq<nat>)
    requires Within(a, sizes)
  {
    forall i :: 2 <= i < |a| ==> sizes[a[i]] <= sizes[a[Parent(i)]]
  }

  /** The heap property with slot `k` possibly too big for its parent; the
      children of `k` still fit under `k`'s parent. What `bubbleup(k)` repairs. */
  ghost predicate HeapExceptUp(a: seq<nat>, sizes: seq<nat>, k: int)
    requires Within(a, sizes)
  {
    (forall i :: 2 <= i < |a| && i != k ==> sizes[a[i]] <= sizes[a[Parent(i)]]) &&
    (2 <= k < |a| ==> forall i :: 2 <= i < |a| && Parent(i) == k ==> sizes[a[i]] <= sizes[a[Parent(k)]])
  }

  /** The heap property with slot `k` possibly too small for its children;
      those children still fit under `k`'s parent. What `bubbledown(k)`
      repairs. */
  ghost predicate HeapExceptDown(a: seq<nat>, sizes: seq<nat>, k: nat)
    requires Within(a, sizes)
  {
    (forall i :: 2 <= i < |a| && Parent(i) != k ==> sizes[a[i]] <= sizes[a[Parent(i)]]) &&
    (2 <= k < |a| ==> forall i :: 2 <= i < |a| && Parent(i) == k ==> sizes[a[i]] <= sizes[a[Parent(k)]])
  }

  /** `swap(slots[i], slots[j])` */
  function Swap(a: seq<nat>, i: nat, j: nat): (r: seq<nat>)
    requires i < |a| && j < |a|
    ensures |r| == |a| && r[i] == a[j] && r[j] == a[i]
    ensures forall t :: 0 <= t < |a| && t != i && t != j ==> r[t] == a[t]
  {
    a[i := a[j]][j := a[i]]
  }

  /** Swapping two heap slots permutes the heap's buckets. */
  lemma SwapPermutes(a: seq<nat>, i: nat, j: nat)
    requires 1 <= i < |a| && 1 <= j < |a|
    ensures multiset(Swap(a, i, j)[1..]) == multiset(a[1..])
  {
    var b := a[1..];
    assert Swap(a, i, j)[1..] == b[i - 1 := b[j - 1]][j - 1 := b[i - 1]];
  }

  /** In a heap the root is a biggest bucket. */
  lemma {:induction false} HeapRootIsMax(a: seq<nat>, sizes: seq<nat>, i: nat)
    requires Within(a, sizes) && IsHeap(a, sizes) && 1 <= i < |a|
    ensures sizes[a[i]] <= sizes[a[1]]
    decreases i
  {
    if i >= 2 {
      HeapRootIsMax(a, sizes, Parent(i));
    }
  }

  /** In a heap no bucket is bigger than the root. */
  lemma RootIsMaxOfAll(a: seq<nat>, sizes: seq<nat>)
    requires Within(a, sizes) && IsHeap(a, sizes) && |a| > 1
    ensures forall x :: x in multiset(a[1..]) ==> sizes[x] <= sizes[a[1]]
  {
    forall x | x in multiset(a[1..])
      ensures sizes[x] <= sizes[a[1]]
    {
      var i :| 1 <= i < |a| && a[i] == x by {
        assert x in a[1..];
      }
      HeapRootIsMax(a, sizes, i);
    }
  }

  /** The slot `bubbledown(k)` swaps with, as lines 140-145 intend it: the
      biggest of slot `k` and its children (`k` itself on a tie). */
  function Biggest(a: seq<nat>, sizes: seq<nat>, k: nat): (b: nat)
    requires Within(a, sizes) && 1 <= k < |a|
    ensures b == k || b == Left(k) || b == Right(k)
    ensures b < |a| && sizes[a[k]] <= sizes[a[b]]
    ensures Left(k) < |a| ==> sizes[a[Left(k)]] <= sizes[a[b]]
    ensures Right(k) < |a| ==> sizes[a[Right(k)]] <= sizes[a[b]]
    ensures b != k ==> sizes[a[b]] > sizes[a[k]]
  {
    var biggest := if Left(k) < |a| && sizes[a[Left(k)]] > sizes[a[k]] then Left(k) else k;
    if Right(k) < |a| && sizes[a[Right(k)]] > sizes[a[biggest]] then Right(k) else biggest
  }

  /** The slot the source's `bubbledown(k)` swaps with: the right child is
      compared with `biggest_size`, the size of slot `k`, instead of with the
      bigger of slot `k` and its left child. It is a child strictly bigger
      than slot `k`, but not always the biggest one. */
  function BiggestAsWritten(a: seq<nat>, sizes: seq<nat>, k: nat): (b: nat)
    requires Within(a, sizes) && 1 <= k < |a|
    ensures b == k || b == Left(k) || b == Right(k)
    ensures b < |a| && (b != k ==> sizes[a[b]] > sizes[a[k]])
    ensures b == k <==> Biggest(a, sizes, k) == k
  {
    var biggestSize := sizes[a[k]];
    var biggest := if Left(k) < |a| && sizes[a[Left(k)]] > biggestSize then Left(k) else k;
    if Right(k) < |a| && sizes[a[Right(k)]] > biggestSize then Right(k) else biggest
  }

  /** `bubbledown(k)` exactly as the source writes it. */
  function BubbleDownAsWritten(a: seq<nat>, sizes: seq<nat>, k: nat): (r: seq<nat>)
    requires Within(a, sizes) && 1 <= k < |a|
    ensures |r| == |a| && Within(r, sizes) && r[0] == a[0]
    decreases |a| - k
  {
    var biggest := BiggestAsWritten(a, sizes, k);
    if biggest != k then BubbleDownAsWritten(Swap(a, k, biggest), sizes, biggest) else a
  }

  /** `removeMax` with the source's `bubbledown`. */
  function RemoveMaxAsWritten(a: seq<nat>, sizes: seq<nat>): (r: seq<nat>)
    requires Within(a, sizes) && |a| > 1
    ensures |r| == |a| - 1 && Within(r, sizes) && r[0] == a[0]
  {
    var b := a[1 := a[|a| - 1]][..|a| - 1];
    if |b| > 1 then BubbleDownAsWritten(b, sizes, 1) else b
  }

  /** The buckets the source's `removeMax()` returns, in order, until the
      heap is empty: the first loop of `sort()`. */
  function DrainedAsWritten(a: seq<nat>, sizes: seq<nat>): (r: seq<nat>)
    requires Within(a, sizes) && 0 < |a|
    ensures |r| == |a| - 1
    ensures forall t :: 0 <= t < |r| ==> r[t] < |sizes|
    decreases |a|
  {
    if |a| <= 1 then [] else [a[1]] + DrainedAsWritten(RemoveMaxAsWritten(a, sizes), sizes)
  }

  /** Buckets of sizes 9, 5, 3, 1 form the heap `[_, 0, 1, 2, 3]`. Removing
      its maximum moves bucket 3 to the root; the source's `bubbledown` then
      swaps it with the right child (size 3 beats the root's 1) although the
      left child (size 5) is bigger, leaving a root smaller than its left
      child. */
  lemma RemoveMaxAsWrittenBreaksHeap()
    ensures Within([0, 0, 1, 2, 3], [9, 5, 3, 1]) && IsHeap([0, 0, 1, 2, 3], [9, 5, 3, 1])
    ensures RemoveMaxAsWritten([0, 0, 1, 2, 3], [9, 5, 3, 1]) == [0, 2, 1, 3]
    ensures !IsHeap([0, 2, 1, 3], [9, 5, 3, 1])
  {
    var sizes := [9, 5, 3, 1];
    var b := [0, 3, 1, 2];
    assert [0, 0, 1, 2, 3][1 := 3][..4] == b;
    assert BiggestAsWritten(b, sizes, 1) == 3 && Biggest(b, sizes, 1) == 2;
    assert Swap(b, 1, 3) == [0, 2, 1, 3];
    assert BubbleDownAsWritten([0, 2, 1, 3], sizes, 3) == [0, 2, 1, 3];
    assert BubbleDownAsWritten(b, sizes, 1) == [0, 2, 1, 3];
    assert sizes[[0, 2, 1, 3][2]] > sizes[[0, 2, 1, 3][Parent(2)]];
  }

  /** The slots after `bubbleup(k)`: slot `k` swapped upwards while it is
      strictly bigger than its parent, stopping at the root. */
  function BubbleUpResult(a: seq<nat>, sizes: seq<nat>, k: int): (r: seq<nat>)
    requires Within(a, sizes) && 0 < |a| && k < |a|
    ensures |r| == |a| && Within(r, sizes) && r[0] == a[0]
    decreases k
  {
    if k > 1 && sizes[a[k]] > sizes[a[Parent(k)]] then BubbleUpResult(Swap(a, k, Parent(k)), sizes, Parent(k)) else a
  }

  /** The slots after `bubbledown(k)` with the corrected choice of child (the
      corrected half of the lines 140-145 finding). */
  function BubbleDownResult(a: seq<nat>, sizes: seq<nat>, k: nat): (r: seq<nat>)
    requires Within(a, sizes) && 1 <= k < |a|
    ensures |r| == |a| && Within(r, sizes) && r[0] == a[0]
    decreases |a| - k
  {
    var biggest := Biggest(a, sizes, k);
    if biggest != k then BubbleDownResult(Swap(a, k, biggest), sizes, biggest) else a
  }

  /** The slots after `insert(key)`. */
  function InsertResult(a: seq<nat>, sizes: seq<nat>, key: nat): (r: seq<nat>)
    requires Within(a, sizes) && 0 < |a| && key < |sizes|
    ensures |r| == |a| + 1 && Within(r, sizes) && r[0] == a[0]
  {
    BubbleUpResult(a + [key], sizes, |a|)
  }

  /** The slots after a corrected `removeMax()` on a non-empty heap: the last
      slot moved to the root and bubbled down with `BubbleDownResult`. */
  function RemoveMaxResult(a: seq<nat>, sizes: seq<nat>): (r: seq<nat>)
    requires Within(a, sizes) && |a| > 1
    ensures |r| == |a| - 1 && Within(r, sizes) && r[0] == a[0]
  {
    var b := a[1 := a[|a| - 1]][..|a| - 1];
    if |b| > 1 then BubbleDownResult(b, sizes, 1) else b
  }

  /** The buckets the corrected `removeMax()` returns, in order, until the
      heap is empty. */
  function Drained(a: seq<nat>, sizes: seq<nat>): (r: seq<nat>)
    requires Within(a, sizes) && 0 < |a|
    ensures |r| == |a| - 1
    ensures forall t :: 0 <= t < |r| ==> r[t] < |sizes|
    decreases |a|
  {
    if |a| <= 1 then [] else [a[1]] + Drained(RemoveMaxResult(a, sizes), sizes)
  }

  /** `bubbleup` keeps the same buckets. */
  lemma {:induction false} BubbleUpPermutes(a: seq<nat>, sizes: seq<nat>, k: int)
    requires Within(a, sizes) && 0 < |a| && k < |a|
    ensures multiset(BubbleUpResult(a, sizes, k)[1..]) == multiset(a[1..])
    decreases k
  {
    if k > 1 && sizes[a[k]] > sizes[a[Parent(k)]] {
      SwapPermutes(a, k, Parent(k));
      BubbleUpPermutes(Swap(a, k, Parent(k)), sizes, Parent(k));
    }
  }

  /** `bubbleup(k)` turns a heap broken only at slot `k` into a heap. */
  lemma {:induction false} BubbleUpRepairs(a: seq<nat>, sizes: seq<nat>, k: int)
    requires Within(a, sizes) && 0 < |a| && k < |a| && HeapExceptUp(a, sizes, k)
    ensures IsHeap(BubbleUpResult(a, sizes, k), sizes)
    decreases k
  {
    if k > 1 && sizes[a[k]] > sizes[a[Parent(k)]] {
      UpStep(a, sizes, k);
      BubbleUpRepairs(Swap(a, k, Parent(k)), sizes, Parent(k));
    } else {
      UpDone(a, sizes, k);
    }
  }

  /** The corrected `bubbledown` keeps the same buckets. */
  lemma {:induction false} BubbleDownPermutes(a: seq<nat>, sizes: seq<nat>, k: nat)
    requires Within(a, sizes) && 1 <= k < |a|
    ensures multiset(BubbleDownResult(a, sizes, k)[1..]) == multiset(a[1..])
    decreases |a| - k
  {
    var biggest := Biggest(a, sizes, k);
    if biggest != k {
      SwapPermutes(a, k, biggest);
      BubbleDownPermutes(Swap(a, k, biggest), sizes, biggest);
    }
  }

  /** The source's `bubbledown` keeps the same buckets: it only swaps. */
  lemma {:induction false} BubbleDownAsWrittenPermutes(a: seq<nat>, sizes: seq<nat>, k: nat)
    requires Within(a, sizes) && 1 <= k < |a|
    ensures multiset(BubbleDownAsWritten(a, sizes, k)[1..]) == multiset(a[1..])
    decreases |a| - k
  {
    var biggest := BiggestAsWritten(a, sizes, k);
    if biggest != k {
      SwapPermutes(a, k, biggest);
      BubbleDownAsWrittenPermutes(Swap(a, k, biggest), sizes, biggest);
    }
  }

  /** The source's `removeMax()` takes out exactly the root, and the root it
      takes out of a heap is no smaller than any bucket left (the order of
      what is left is another matter: `RemoveMaxAsWrittenBreaksHeap`). */
  lemma RemoveMaxAsWrittenTakesRoot(a: seq<nat>, sizes: seq<nat>)
    requires Within(a, sizes) && |a| > 1
    ensures multiset(RemoveMaxAsWritten(a, sizes)[1..]) + multiset{a[1]} == multiset(a[1..])
    ensures IsHeap(a, sizes) ==> forall x :: x in multiset(RemoveMaxAsWritten(a, sizes)[1..]) ==> sizes[x] <= sizes[a[1]]
  {
    var b := a[1 := a[|a| - 1]][..|a| - 1];
    RemoveLastPermutes(a);
    if |b| > 1 {
      BubbleDownAsWrittenPermutes(b, sizes, 1);
    }
    if IsHeap(a, sizes) {
      RootIsMaxOfAll(a, sizes);
    }
  }

  /** The source's `sort()` drain returns every bucket of the heap exactly
      once. */
  lemma {:induction false} DrainedAsWrittenPermutes(a: seq<nat>, sizes: seq<nat>)
    requires Within(a, sizes) && 0 < |a|
    ensures multiset(DrainedAsWritten(a, sizes)) == multiset(a[1..])
    decreases |a|
  {
    if |a| > 1 {
      var rest := RemoveMaxAsWritten(a, sizes);
      RemoveMaxAsWrittenTakesRoot(a, sizes);
      DrainedAsWrittenPermutes(rest, sizes);
    }
  }

  /** The first bucket the source's drain returns from a heap is a biggest
      one. */
  lemma DrainedAsWrittenFirstIsMax(a: seq<nat>, sizes: seq<nat>)
    requires Within(a, sizes) && 1 < |a| && IsHeap(a, sizes)
    ensures forall x :: x in multiset(a[1..]) ==> sizes[x] <= sizes[DrainedAsWritten(a, sizes)[0]]
  {
    RootIsMaxOfAll(a, sizes);
  }

  /** On the heap `[_, 0, 1, 2, 3]` with sizes 9, 5, 3, 1 the source's
      `sort()` takes the buckets out in the order 0, 2, 1, 3, whose sizes
      9, 3, 5, 1 are not biggest first. */
  lemma SortAsWrittenUnordered()
    ensures Within([0, 0, 1, 2, 3], [9, 5, 3, 1]) && IsHeap([0, 0, 1, 2, 3], [9, 5, 3, 1])
    ensures DrainedAsWritten([0, 0, 1, 2, 3], [9, 5, 3, 1]) == [0, 2, 1, 3]
    ensures !Descending([0, 2, 1, 3], [9, 5, 3, 1])
  {
    var sizes := [9, 5, 3, 1];
    RemoveMaxAsWrittenBreaksHeap();
    LaterRemovals();
    assert sizes[[0, 2, 1, 3][1]] < sizes[[0, 2, 1, 3][2]];
  }

  /** After the first `removeMax()` of that run the rest come out as 2, 1, 3. */
  lemma LaterRemovals()
    ensures DrainedAsWritten([0, 2, 1, 3], [9, 5, 3, 1]) == [2, 1, 3]
  {
    var sizes := [9, 5, 3, 1];
    SecondRemoval();
    LastRemovals();
    assert DrainedAsWritten([0], sizes) == [];
    assert DrainedAsWritten([0, 3], sizes) == [3];
    assert DrainedAsWritten([0, 1, 3], sizes) == [1, 3];
  }

  /** The second `removeMax()` of that run: bucket 3 goes to the root and
      sinks under bucket 1. */
  lemma SecondRemoval()
    ensures RemoveMaxAsWritten([0, 2, 1, 3], [9, 5, 3, 1]) == [0, 1, 3]
  {
    var sizes := [9, 5, 3, 1];
    assert [0, 2, 1, 3][1 := 3][..3] == [0, 3, 1];
    assert BiggestAsWritten([0, 3, 1], sizes, 1) == 2;
    assert Swap([0, 3, 1], 1, 2) == [0, 1, 3];
    assert BubbleDownAsWritten([0, 1, 3], sizes, 2) == [0, 1, 3];
  }

  /** The last two `removeMax()` calls of that run. */
  lemma LastRemovals()
    ensures RemoveMaxAsWritten([0, 1, 3], [9, 5, 3, 1]) == [0, 3]
    ensures RemoveMaxAsWritten([0, 3], [9, 5, 3, 1]) == [0]
  {
    var sizes := [9, 5, 3, 1];
    assert [0, 1, 3][1 := 3][..2] == [0, 3];
    assert BubbleDownAsWritten([0, 3], sizes, 1) == [0, 3];
    assert [0, 3][1 := 3][..1] == [0];
  }

  /** The corrected `bubbledown(k)` turns a heap broken only at slot `k` into
      a heap. */
  lemma {:induction false} BubbleDownRepairs(a: seq<nat>, sizes: seq<nat>, k: nat)
    requires Within(a, sizes) && 1 <= k < |a| && HeapExceptDown(a, sizes, k)
    ensures IsHeap(BubbleDownResult(a, sizes, k), sizes)
    decreases |a| - k
  {
    var biggest := Biggest(a, sizes, k);
    if biggest != k {
      DownStep(a, sizes, k, biggest);
      BubbleDownRepairs(Swap(a, k, biggest), sizes, biggest);
    } else {
      DownDone(a, sizes, k);
    }
  }

  /** `bubbleup(k)` only moves slots up to `k`: with `k < n` it acts on the
      first `n` slots alone. */
  lemma {:induction false} BubbleUpPrefix(a: seq<nat>, sizes: seq<nat>, k: int, n: nat)
    requires Within(a, sizes) && 0 < n <= |a| && k < n
    ensures BubbleUpResult(a, sizes, k) == BubbleUpResult(a[..n], sizes, k) + a[n..]
    decreases k
  {
    if k > 1 && sizes[a[k]] > sizes[a[Parent(k)]] {
      var b := Swap(a, k, Parent(k));
      assert b[..n] == Swap(a[..n], k, Parent(k)) && b[n..] == a[n..];
      BubbleUpPrefix(b, sizes, Parent(k), n);
    } else {
      assert a == a[..n] + a[n..];
    }
  }

  /** Bubbling up slot `i` when the slots before it form a heap makes the
      first `i + 1` slots a heap and leaves the others alone. */
  lemma SiftUpStep(a: seq<nat>, sizes: seq<nat>, i: nat)
    requires Within(a, sizes) && 1 <= i < |a| && IsHeap(a[..i], sizes)
    ensures IsHeap(BubbleUpResult(a, sizes, i)[..i + 1], sizes)
    ensures BubbleUpResult(a, sizes, i)[i + 1..] == a[i + 1..]
  {
    var p := a[..i + 1];
    BubbleUpPrefix(a, sizes, i, i + 1);
    assert p[..i] == a[..i];
    assert HeapExceptUp(p, sizes, i);
    BubbleUpRepairs(p, sizes, i);
    assert BubbleUpResult(a, sizes, i)[..i + 1] == BubbleUpResult(p, sizes, i);
  }

  /** `insert(key)` adds exactly `key` and keeps a heap a heap. */
  lemma InsertKeepsHeap(a: seq<nat>, sizes: seq<nat>, key: nat)
    requires Within(a, sizes) && 0 < |a| && key < |sizes|
    ensures multiset(InsertResult(a, sizes, key)[1..]) == multiset(a[1..]) + multiset{key}
    ensures IsHeap(a, sizes) ==> IsHeap(InsertResult(a, sizes, key), sizes)
  {
    var b := a + [key];
    assert b[1..] == a[1..] + [key];
    BubbleUpPermutes(b, sizes, |a|);
    if IsHeap(a, sizes) {
      assert HeapExceptUp(b, sizes, |a|);
      BubbleUpRepairs(b, sizes, |a|);
    }
  }

  /** The corrected `removeMax()` takes out exactly the root, keeps a heap a
      heap, and the root it takes out of a heap is no smaller than any bucket
      left. */
  lemma RemoveMaxTakesRoot(a: seq<nat>, sizes: seq<nat>)
    requires Within(a, sizes) && |a| > 1
    ensures multiset(RemoveMaxResult(a, sizes)[1..]) + multiset{a[1]} == multiset(a[1..])
    ensures IsHeap(a, sizes) ==> IsHeap(RemoveMaxResult(a, sizes), sizes)
    ensures IsHeap(a, sizes) ==> forall x :: x in multiset(RemoveMaxResult(a, sizes)[1..]) ==> sizes[x] <= sizes[a[1]]
  {
    var b := a[1 := a[|a| - 1]][..|a| - 1];
    RemoveLastPermutes(a);
    if |b| > 1 {
      BubbleDownPermutes(b, sizes, 1);
    }
    if IsHeap(a, sizes) {
      RootReplaced(a, sizes);
      if |b| > 1 {
        BubbleDownRepairs(b, sizes, 1);
      }
      RootIsMaxOfAll(a, sizes);
    }
  }

  /** The corrected drain returns every bucket of the heap exactly once. */
  lemma {:induction false} DrainedPermutes(a: seq<nat>, sizes: seq<nat>)
    requires Within(a, sizes) && 0 < |a|
    ensures multiset(Drained(a, sizes)) == multiset(a[1..])
    decreases |a|
  {
    if |a| > 1 {
      var rest := RemoveMaxResult(a, sizes);
      RemoveMaxTakesRoot(a, sizes);
      DrainedPermutes(rest, sizes);
    }
  }

  /** The corrected drain returns a heap's buckets biggest first. */
  lemma {:induction false} DrainedDescending(a: seq<nat>, sizes: seq<nat>)
    requires Within(a, sizes) && 0 < |a| && IsHeap(a, sizes)
    ensures Descending(Drained(a, sizes), sizes)
    decreases |a|
  {
    if |a| > 1 {
      var rest := RemoveMaxResult(a, sizes);
      var d := Drained(rest, sizes);
      RemoveMaxTakesRoot(a, sizes);
      DrainedPermutes(rest, sizes);
      DrainedDescending(rest, sizes);
      assert Drained(a, sizes) == [a[1]] + d;
      forall j | 0 <= j < |d|
        ensures sizes[d[j]] <= sizes[a[1]]
      {
        assert d[j] in multiset(d);
      }
    }
  }

  class Heap {
    /** The vector `array` of the source. */
    var slots: seq<nat>

    /** The dummy slot is always there. */
    ghost predicate Valid()
      reads this
    {
      |slots| >= 1
    }

    /** The buckets in the heap, without the dummy slot. */
    ghost function Elements(): multiset<nat>
      reads this
      requires Valid()
    {
      multiset(slots[1..])
    }

    /** `Heap()`: only the dummy slot. */
    constructor ()
      ensures Valid() && slots == [0]
    {
      slots := [0];
    }

    /** `bubbleup(k)` */
    method BubbleUp(k: int, sizes: seq<nat>)
      requires Valid() && Within(slots, sizes) && k < |slots|
      modifies this
      ensures slots == BubbleUpResult(old(slots), sizes, k)
    {
      var j := k;
      while j > 1 && sizes[slots[j]] > sizes[slots[Parent(j)]]
        invariant j <= k && 0 < |slots| && j < |slots| && Within(slots, sizes)
        invariant BubbleUpResult(slots, sizes, j) == BubbleUpResult(old(slots), sizes, k)
        decreases j
      {
        slots := Swap(slots, j, Parent(j));
        j := Parent(j);
      }
    }

    /** `insert(key)`: appends the bucket and bubbles it up. */
    method Insert(key: nat, sizes: seq<nat>)
      requires Valid() && Within(slots, sizes) && key < |sizes|
      modifies this
      ensures slots == InsertResult(old(slots), sizes, key)
    {
      slots := slots + [key];
      BubbleUp(|slots| - 1, sizes);
    }

    /** `bubbledown(k)` as written: both children are compared with
        `biggest_size`, the size of slot `k`, so a bigger right child wins
        over a still bigger left one. */
    method BubbleDown(k: nat, sizes: seq<nat>)
      requires Valid() && Within(slots, sizes) && 1 <= k < |slots|
      modifies this
      ensures slots == BubbleDownAsWritten(old(slots), sizes, k)
      ensures multiset(slots[1..]) == multiset(old(slots[1..]))
      decreases |slots| - k
    {
      BubbleDownAsWrittenPermutes(slots, sizes, k);
      var biggest := k;
      var leftChild, rightChild := Left(k), Right(k);
      var biggestSize := sizes[slots[biggest]];
      if leftChild < |slots| && sizes[slots[leftChild]] > biggestSize {
        biggest := leftChild;
      }
      if rightChild < |slots| && sizes[slots[rightChild]] > biggestSize {
        biggest := rightChild;
      }
      if biggest != k {
        slots := Swap(slots, k, biggest);
        BubbleDown(biggest, sizes);
      }
    }

    /** `removeMax()`: `out_of_range` on an empty heap; otherwise the root
        bucket, with the last slot moved to the root and bubbled down. */
    method RemoveMax(sizes: seq<nat>) returns (r: Result<nat>)
      requires Valid() && Within(slots, sizes)
      modifies this
      ensures old(|slots|) <= 1 ==> r == Err(OutOfRange) && slots == old(slots)
      ensures old(|slots|) > 1 ==> r == Ok(old(slots[1])) && slots == RemoveMaxAsWritten(old(slots), sizes)
    {
      if |slots| <= 1 {
        return Err(OutOfRange);
      }
      var max := slots[1];
      slots := slots[1 := slots[|slots| - 1]][..|slots| - 1];
      if |slots| > 1 {
        BubbleDown(1, sizes);
      }
      return Ok(max);
    }

    /** `getMax()`: `out_of_range` on an empty heap, else the root bucket
        (whose head key the hash table reports). */
    method GetMax() returns (r: Result<nat>)
      requires Valid()
      ensures r == if |slots| <= 1 then Err(OutOfRange) else Ok(slots[1])
    {
      if |slots| <= 1 {
        return Err(OutOfRange);
      }
      return Ok(slots[1]);
    }

    /** The first loop of `sort()`: `removeMax` until the heap is empty,
        collecting the buckets in the order they come out. */
    method DrainAll(sizes: seq<nat>) returns (sortedArray: seq<nat>)
      requires Valid() && Within(slots, sizes)
      modifies this
      ensures slots == [old(slots[0])]
      ensures sortedArray == DrainedAsWritten(old(slots), sizes)
    {
      sortedArray := [];
      while |slots| > 1
        invariant Valid() && Within(slots, sizes) && slots[0] == old(slots[0])
        invariant sortedArray + DrainedAsWritten(slots, sizes) == DrainedAsWritten(old(slots), sizes)
        decreases |slots|
      {
        ghost var before := slots;
        var r := RemoveMax(sizes);
        assert DrainedAsWritten(before, sizes) == [r.value] + DrainedAsWritten(slots, sizes);
        sortedArray := sortedArray + [r.value];
      }
    }

    /** `sort()`: empties the heap with `removeMax` and refills it in the
        order the buckets came out. The buckets stay the same
        (`DrainedAsWrittenPermutes`) and the biggest comes first
        (`DrainedAsWrittenFirstIsMax`), but the rest need not be in order
        (`SortAsWrittenUnordered`); with the corrected `bubbledown` they would
        be (`DrainedDescending`). */
    method Sort(sizes: seq<nat>)
      requires Valid() && Within(slots, sizes)
      modifies this
      ensures slots == [old(slots[0])] + DrainedAsWritten(old(slots), sizes)
      ensures multiset(slots[1..]) == multiset(old(slots[1..]))
    {
      var sortedArray := DrainAll(sizes);
      var n := |sortedArray|;
      for key := 0 to n
        invariant slots == [old(slots[0])] + sortedArray[..key]
      {
        slots := slots + [sortedArray[key]];
        assert sortedArray[..key + 1] == sortedArray[..key] + [sortedArray[key]];
      }
      assert sortedArray[..n] == sortedArray;
      DrainedAsWrittenPermutes(old(slots), sizes);
    }
  }

  /** Non-increasing by size. */
  ghost predicate Descending(s: seq<nat>, sizes: seq<nat>)
    requires forall t :: 0 <= t < |s| ==> s[t] < |sizes|
  {
    forall i, j :: 0 <= i < j < |s| ==> sizes[s[i]] >= sizes[s[j]]
  }

  /** One round of `bubbleup`: after swapping slot `j` with its bigger
      parent, only the parent's slot may be out of place. */
  lemma UpStep(a: seq<nat>, sizes: seq<nat>, j: nat)
    requires Within(a, sizes) && 2 <= j < |a| && HeapExceptUp(a, sizes, j)
    requires sizes[a[j]] > sizes[a[Parent(j)]]
    ensures Within(Swap(a, j, Parent(j)), sizes) && HeapExceptUp(Swap(a, j, Parent(j)), sizes, Parent(j))
  {
    var p := Parent(j);
    var b := Swap(a, j, p);
    forall i | 2 <= i < |b| && i != p
      ensures sizes[b[i]] <= sizes[b[Parent(i)]]
    {
      if i == j {
      } else if Parent(i) == j {
      } else if Parent(i) == p {
      }
    }
    if 2 <= p {
      forall i | 2 <= i < |b| && Parent(i) == p
        ensures sizes[b[i]] <= sizes[b[Parent(p)]]
      {
      }
    }
  }

  /** When slot `k` is no bigger than its parent, the heap is whole. */
  lemma UpDone(a: seq<nat>, sizes: seq<nat>, k: int)
    requires Within(a, sizes) && k < |a| && HeapExceptUp(a, sizes, k)
    requires k > 1 ==> sizes[a[k]] <= sizes[a[Parent(k)]]
    ensures IsHeap(a, sizes)
  {
  }

  /** One round of the corrected `bubbledown`: after swapping slot `k` with
      its biggest child `c`, only slot `c` may be out of place. */
  lemma DownStep(a: seq<nat>, sizes: seq<nat>, k: nat, c: nat)
    requires Within(a, sizes) && 1 <= k < |a| && HeapExceptDown(a, sizes, k)
    requires c == Left(k) || c == Right(k)
    requires c < |a| && sizes[a[c]] > sizes[a[k]]
    requires Left(k) < |a| ==> sizes[a[Left(k)]] <= sizes[a[c]]
    requires Right(k) < |a| ==> sizes[a[Right(k)]] <= sizes[a[c]]
    ensures Within(Swap(a, k, c), sizes) && HeapExceptDown(Swap(a, k, c), sizes, c)
  {
    var b := Swap(a, k, c);
    forall i | 2 <= i < |b| && Parent(i) != c
      ensures sizes[b[i]] <= sizes[b[Parent(i)]]
    {
      if i == k {
      } else if i == c {
      } else if Parent(i) == k {
      }
    }
  }

  /** When no child of `k` is bigger, the heap is whole. */
  lemma DownDone(a: seq<nat>, sizes: seq<nat>, k: nat)
    requires Within(a, sizes) && 1 <= k < |a| && HeapExceptDown(a, sizes, k)
    requires Left(k) < |a| ==> sizes[a[Left(k)]] <= sizes[a[k]]
    requires Right(k) < |a| ==> sizes[a[Right(k)]] <= sizes[a[k]]
    ensures IsHeap(a, sizes)
  {
    forall i | 2 <= i < |a|
      ensures sizes[a[i]] <= sizes[a[Parent(i)]]
    {
      if Parent(i) == k {
        assert i == Left(k) || i == Right(k);
      }
    }
  }

  /** Moving the last slot of a heap to the root leaves a heap except at the
      root. */
  lemma RootReplaced(a: seq<nat>, sizes: seq<nat>)
    requires Within(a, sizes) && |a| > 1 && IsHeap(a, sizes)
    ensures Within(a[1 := a[|a| - 1]][..|a| - 1], sizes)
    ensures HeapExceptDown(a[1 := a[|a| - 1]][..|a| - 1], sizes, 1)
  {
  }

  /** Dropping the root and moving the last slot there loses exactly the
      root. */
  lemma RemoveLastPermutes(a: seq<nat>)
    requires |a| > 1
    ensures multiset(a[1 := a[|a| - 1]][..|a| - 1][1..]) + multiset{a[1]} == multiset(a[1..])
  {
    var n := |a|;
    var b := a[1 := a[n - 1]][..n - 1];
    if n == 2 {
      assert b[1..] == [] && a[1..] == [a[1]];
    } else {
      assert b[1..] == [a[n - 1]] + a[2..n - 1];
      assert a[1..] == [a[1]] + a[2..n - 1] + [a[n - 1]];
    }
  }
}

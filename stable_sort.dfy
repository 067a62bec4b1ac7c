/**
 * `Array.prototype.sort` with a numeric comparator, as the source calls it.
 * Since ECMAScript 2019 that sort is stable. Every comparator the source
 * passes has the form `(a, b) => rank(a) - rank(b)` for an integer-valued
 * `rank`, so a sort is described by its rank function: `a` goes before `b`
 * exactly when `rank(a) < rank(b)`, and ties keep their input order.
 *
 * `Sort` is the specification (insertion sort on sequences); `SortInPlace`
 * is the array algorithm proved to compute it.
 */
module StableSort {

  /** Non-decreasing in rank. */
  predicate Sorted<T>(s: seq<T>, rank: T -> int) {
    forall i, j :: 0 <= i < j < |s| ==> rank(s[i]) <= rank(s[j])
  }

  /** The elements of `s` whose rank is `k`, in their order in `s`. */
  function WithRank<T>(s: seq<T>, rank: T -> int, k: int): seq<T> {
    if s == [] then []
    else WithRank(s[..|s| - 1], rank, k) + (if rank(s[|s| - 1]) == k then [s[|s| - 1]] else [])
  }

  /**
   * Where a stable insertion puts `x` into `t`: after every element whose
   * rank is not greater than its own, scanning from the back.
   */
  function InsertPos<T>(t: seq<T>, x: T, rank: T -> int): (p: nat)
    ensures p <= |t|
    ensures forall k :: p <= k < |t| ==> rank(x) < rank(t[k])
    ensures p > 0 ==> rank(t[p - 1]) <= rank(x)
  {
    if t == [] || rank(t[|t| - 1]) <= rank(x) then |t|
    else InsertPos(t[..|t| - 1], x, rank)
  }

  function Insert<T>(t: seq<T>, x: T, rank: T -> int): (r: seq<T>)
    ensures |r| == |t| + 1
  {
    var p := InsertPos(t, x, rank);
    t[..p] + [x] + t[p..]
  }

  lemma InsertPermutes<T>(t: seq<T>, x: T, rank: T -> int)
    ensures multiset(Insert(t, x, rank)) == multiset(t) + multiset{x}
  {
    var p := InsertPos(t, x, rank);
    assert t == t[..p] + t[p..];
  }

  /** `Insert` unfolded from the back, one element at a time. */
  lemma InsertBack<T>(t: seq<T>, x: T, rank: T -> int)
    requires t != []
    ensures var init, last := t[..|t| - 1], t[|t| - 1];
      Insert(t, x, rank) ==
        if rank(last) <= rank(x) then t + [x] else Insert(init, x, rank) + [last]
  {
    var init, last := t[..|t| - 1], t[|t| - 1];
    if rank(x) < rank(last) {
      var p := InsertPos(init, x, rank);
      assert InsertPos(t, x, rank) == p;
      assert t[..p] == init[..p];
      assert t[p..] == init[p..] + [last];
    } else {
      assert t[..|t|] == t;
    }
  }

  /** The stable sort by ascending rank. */
  function Sort<T>(s: seq<T>, rank: T -> int): (r: seq<T>)
    ensures |r| == |s|
  {
    if s == [] then [] else Insert(Sort(s[..|s| - 1], rank), s[|s| - 1], rank)
  }

  /** The sort's output is a permutation of its input. */
  lemma {:induction false} SortPermutes<T>(s: seq<T>, rank: T -> int)
    ensures multiset(Sort(s, rank)) == multiset(s)
  {
    if s != [] {
      var init, last := s[..|s| - 1], s[|s| - 1];
      SortPermutes(init, rank);
      InsertPermutes(Sort(init, rank), last, rank);
      assert s == init + [last];
      assert multiset(s) == multiset(init) + multiset{last};
    }
  }

  /** Order between neighbours gives order between any two elements. */
  lemma {:induction false} SortedByNeighbours<T>(s: seq<T>, rank: T -> int)
    requires forall i :: 0 < i < |s| ==> rank(s[i - 1]) <= rank(s[i])
    ensures Sorted(s, rank)
  {
    if s != [] {
      var init := s[..|s| - 1];
      SortedByNeighbours(init, rank);
      forall i | 0 <= i < |s| - 1 ensures rank(s[i]) <= rank(s[|s| - 1]) {
        if i < |s| - 2 {
          assert rank(init[i]) <= rank(init[|s| - 2]);
        }
      }
    }
  }

  lemma InsertSorted<T>(t: seq<T>, x: T, rank: T -> int)
    requires Sorted(t, rank)
    ensures Sorted(Insert(t, x, rank), rank)
  {
    var p := InsertPos(t, x, rank);
    var r := Insert(t, x, rank);
    forall i | 0 < i < |r| ensures rank(r[i - 1]) <= rank(r[i]) {
      if i < p {
        assert r[i - 1] == t[i - 1] && r[i] == t[i];
      } else if i == p {
        assert r[i - 1] == t[i - 1] && r[i] == x;
      } else if i == p + 1 {
        assert r[i - 1] == x && r[i] == t[i - 1];
      } else {
        assert r[i - 1] == t[i - 2] && r[i] == t[i - 1];
      }
    }
    SortedByNeighbours(r, rank);
  }

  /** The sort's output is ordered by rank. */
  lemma {:induction false} SortSorted<T>(s: seq<T>, rank: T -> int)
    ensures Sorted(Sort(s, rank), rank)
  {
    if s != [] {
      SortSorted(s[..|s| - 1], rank);
      InsertSorted(Sort(s[..|s| - 1], rank), s[|s| - 1], rank);
    }
  }

  lemma {:induction false} WithRankAppend<T>(u: seq<T>, v: seq<T>, rank: T -> int, k: int)
    ensures WithRank(u + v, rank, k) == WithRank(u, rank, k) + WithRank(v, rank, k)
  {
    if v == [] {
      assert u + v == u;
    } else {
      var init := v[..|v| - 1];
      WithRankAppend(u, init, rank, k);
      assert (u + v)[..|u + v| - 1] == u + init;
    }
  }

  lemma {:induction false} WithRankAbsent<T>(s: seq<T>, rank: T -> int, k: int)
    requires forall i :: 0 <= i < |s| ==> rank(s[i]) != k
    ensures WithRank(s, rank, k) == []
  {
    if s != [] {
      WithRankAbsent(s[..|s| - 1], rank, k);
    }
  }

  /** Putting `x` in front of elements of other ranks moves it to the back of its rank group. */
  lemma WithRankSplice<T>(lo: seq<T>, x: T, hi: seq<T>, rank: T -> int, k: int)
    requires rank(x) == k ==> forall i :: 0 <= i < |hi| ==> rank(hi[i]) != k
    ensures WithRank(lo + [x] + hi, rank, k)
         == WithRank(lo + hi, rank, k) + (if rank(x) == k then [x] else [])
  {
    var xs := if rank(x) == k then [x] else [];
    WithRankAppend(lo, hi, rank, k);
    WithRankAppend(lo + [x], hi, rank, k);
    assert (lo + [x])[..|lo|] == lo;
    if rank(x) == k {
      WithRankAbsent(hi, rank, k);
    }
  }

  lemma InsertWithRank<T>(t: seq<T>, x: T, rank: T -> int, k: int)
    ensures WithRank(Insert(t, x, rank), rank, k)
         == WithRank(t, rank, k) + (if rank(x) == k then [x] else [])
  {
    var p := InsertPos(t, x, rank);
    assert t == t[..p] + t[p..];
    WithRankSplice(t[..p], x, t[p..], rank, k);
  }

  /** Stability: among elements of equal rank the sort keeps the input order. */
  lemma {:induction false} SortStable<T>(s: seq<T>, rank: T -> int, k: int)
    ensures WithRank(Sort(s, rank), rank, k) == WithRank(s, rank, k)
  {
    if s != [] {
      SortStable(s[..|s| - 1], rank, k);
      InsertWithRank(Sort(s[..|s| - 1], rank), s[|s| - 1], rank, k);
    }
  }

  /** Sorting what is already sorted changes nothing. */
  lemma {:induction false} SortOfSorted<T>(s: seq<T>, rank: T -> int)
    requires Sorted(s, rank)
    ensures Sort(s, rank) == s
  {
    if s != [] {
      var init, last := s[..|s| - 1], s[|s| - 1];
      assert Sorted(init, rank) by {
        forall i, j | 0 <= i < j < |init| ensures rank(init[i]) <= rank(init[j]) {
          assert init[i] == s[i] && init[j] == s[j];
        }
      }
      SortOfSorted(init, rank);
      assert s == init + [last];
      if init == [] {
        assert Insert(init, last, rank) == [last];
      } else {
        assert init[|init| - 1] == s[|s| - 2];
        InsertBack(init + [last], last, rank);
      }
    }
  }

  /** Sorting twice with the same comparator is sorting once. */
  lemma SortIdempotent<T>(s: seq<T>, rank: T -> int)
    ensures Sort(Sort(s, rank), rank) == Sort(s, rank)
  {
    SortSorted(s, rank);
    SortOfSorted(Sort(s, rank), rank);
  }

  /** A prefix of a sorted sequence is sorted. */
  lemma SortedPrefix<T>(s: seq<T>, rank: T -> int, n: nat)
    requires Sorted(s, rank) && n <= |s|
    ensures Sorted(s[..n], rank)
  {
    forall i, j | 0 <= i < j < n ensures rank(s[..n][i]) <= rank(s[..n][j]) {
      assert s[..n][i] == s[i] && s[..n][j] == s[j];
    }
  }

  /** In a sorted sequence, whatever ranks below the last element of a prefix lies in that prefix. */
  lemma SortedPrefixHoldsLower<T>(s: seq<T>, rank: T -> int, n: nat, x: T)
    requires Sorted(s, rank) && 0 < n <= |s|
    requires x in s && rank(x) < rank(s[n - 1])
    ensures x in s[..n]
  {
    var m :| 0 <= m < |s| && s[m] == x;
    assert m < n - 1;
    assert s[..n][m] == x;
  }

  /**
   * Cutting the sorted output after `n` elements keeps everything that
   * ranks strictly before the last element kept.
   */
  lemma SortPrefixHoldsLower<T>(s: seq<T>, rank: T -> int, n: nat, x: T)
    requires 0 < n <= |s|
    requires x in s && rank(x) < rank(Sort(s, rank)[n - 1])
    ensures x in Sort(s, rank)[..n]
  {
    SortSorted(s, rank);
    SortPermutes(s, rank);
    assert x in multiset(Sort(s, rank));
    SortedPrefixHoldsLower(Sort(s, rank), rank, n, x);
  }

  /** The two facts `InsertPos` ensures pin the position down. */
  lemma {:induction false} InsertPosUnique<T>(t: seq<T>, x: T, rank: T -> int, p: nat)
    requires p <= |t|
    requires forall k :: p <= k < |t| ==> rank(x) < rank(t[k])
    requires p > 0 ==> rank(t[p - 1]) <= rank(x)
    ensures InsertPos(t, x, rank) == p
  {
    if p < |t| {
      var init := t[..|t| - 1];
      assert rank(x) < rank(t[|t| - 1]);
      InsertPosUnique(init, x, rank, p);
    }
  }

  /**
   * Shifts the elements of `a[..i]` that are greater than `x` one place up,
   * from the back, and returns the gap left for `x`.
   */
  method ShiftGreater<T>(a: array<T>, i: nat, x: T, rank: T -> int) returns (j: nat)
    requires i < a.Length
    modifies a
    ensures j == InsertPos(old(a[..i]), x, rank)
    ensures forall k :: 0 <= k < j ==> a[k] == old(a[k])
    ensures forall k :: j < k <= i ==> a[k] == old(a[k - 1])
    ensures forall k :: i < k < a.Length ==> a[k] == old(a[k])
    ensures a[j] == old(a[j])
  {
    ghost var done := a[..i];
    j := i;
    while j > 0 && rank(x) < rank(a[j - 1])
      invariant 0 <= j <= i
      invariant forall k :: 0 <= k < j ==> a[k] == done[k]
      invariant forall k :: j < k <= i ==> a[k] == done[k - 1]
      invariant forall k :: i < k < a.Length ==> a[k] == old(a[k])
      invariant forall k :: j <= k < i ==> rank(x) < rank(done[k])
      invariant a[j] == old(a[j])
    {
      a[j] := a[j - 1];
      j := j - 1;
    }
    InsertPosUnique(done, x, rank, j);
  }

  /** Moves `a[i]` down into the sorted prefix `a[..i]`, past every greater element. */
  method InsertInPlace<T>(a: array<T>, i: nat, rank: T -> int)
    requires i < a.Length
    modifies a
    ensures a[..i + 1] == Insert(old(a[..i]), old(a[i]), rank)
    ensures a[i + 1..] == old(a[i + 1..])
  {
    var x := a[i];
    ghost var done := a[..i];
    var j := ShiftGreater(a, i, x, rank);
    a[j] := x;
    ghost var r := done[..j] + [x] + done[j..];
    forall k | 0 <= k <= i ensures a[k] == r[k] {
      if k < j {
        assert r[k] == done[k];
      } else if j < k {
        assert r[k] == done[k - 1];
      }
    }
    assert a[..i + 1] == r;
  }

  /** Insertion sort, in place, as a stable array sort is run on the copied array. */
  method SortInPlace<T>(a: array<T>, rank: T -> int)
    modifies a
    ensures a[..] == Sort(old(a[..]), rank)
  {
    ghost var s := a[..];
    var i := 0;
    while i < a.Length
      invariant 0 <= i <= a.Length
      invariant a[..i] == Sort(s[..i], rank)
      invariant a[i..] == s[i..]
    {
      InsertInPlace(a, i, rank);
      assert s[..i + 1][..i] == s[..i];
      assert Sort(s[..i + 1], rank) == Insert(Sort(s[..i], rank), s[i], rank);
      i := i + 1;
    }
    assert s[..a.Length] == s;
  }
}

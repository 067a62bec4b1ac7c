/** `Array.prototype.filter`, and a `Set` filled by `forEach`, with side-effect-free callbacks. */
module JsArray {
  import opened Wrappers

  /** The elements of `s` that `keep` accepts, in their order in `s`. */
  function Filter<T>(s: seq<T>, keep: T -> bool): (r: seq<T>)
    ensures |r| <= |s|
  {
    if s == [] then []
    else (if keep(s[0]) then [s[0]] else []) + Filter(s[1..], keep)
  }

  /** `Filter` on a list with a first element `x`. */
  lemma FilterCons<T>(x: T, s: seq<T>, keep: T -> bool)
    ensures Filter([x] + s, keep) == (if keep(x) then [x] else []) + Filter(s, keep)
  {
    assert ([x] + s)[0] == x;
    assert ([x] + s)[1..] == s;
  }

  /** Filtering works element by element, so it keeps the input order. */
  lemma {:induction false} FilterAppend<T>(a: seq<T>, b: seq<T>, keep: T -> bool)
    ensures Filter(a + b, keep) == Filter(a, keep) + Filter(b, keep)
  {
    if a == [] {
      assert a + b == b;
    } else {
      var x, tail := a[0], a[1..];
      var head := if keep(x) then [x] else [];
      calc {
        Filter(a + b, keep);
        { assert a + b == [x] + (tail + b); }
        Filter([x] + (tail + b), keep);
        { FilterCons(x, tail + b, keep); }
        head + Filter(tail + b, keep);
        { FilterAppend(tail, b, keep); }
        head + (Filter(tail, keep) + Filter(b, keep));
        (head + Filter(tail, keep)) + Filter(b, keep);
        { FilterCons(x, tail, keep); assert a == [x] + tail; }
        Filter(a, keep) + Filter(b, keep);
      }
    }
  }

  /** Each element is kept as often as it occurs, or not at all. */
  lemma {:induction false} FilterCounts<T>(s: seq<T>, keep: T -> bool, x: T)
    ensures multiset(Filter(s, keep))[x] == if keep(x) then multiset(s)[x] else 0
  {
    if s != [] {
      var y, tail := s[0], s[1..];
      var head := if keep(y) then [y] else [];
      calc {
        multiset(Filter(s, keep))[x];
        { FilterCons(y, tail, keep); assert s == [y] + tail; }
        multiset(head + Filter(tail, keep))[x];
        multiset(head)[x] + multiset(Filter(tail, keep))[x];
        { FilterCounts(tail, keep, x); }
        multiset(head)[x] + (if keep(x) then multiset(tail)[x] else 0);
        { assert multiset(s) == multiset([y]) + multiset(tail) by { assert s == [y] + tail; } }
        if keep(x) then multiset(s)[x] else 0;
      }
    }
  }

  /** Every element of the result passes the callback. */
  lemma {:induction false} FilterAccepted<T>(s: seq<T>, keep: T -> bool)
    ensures forall k :: 0 <= k < |Filter(s, keep)| ==> keep(Filter(s, keep)[k])
  {
    if s != [] {
      FilterAccepted(s[1..], keep);
    }
  }

  /** Every element the callback accepts is in the result. */
  lemma FilterKeepsAccepted<T>(s: seq<T>, keep: T -> bool)
    ensures forall k :: 0 <= k < |s| && keep(s[k]) ==> s[k] in Filter(s, keep)
  {
    forall k | 0 <= k < |s| && keep(s[k]) ensures s[k] in Filter(s, keep) {
      FilterCounts(s, keep, s[k]);
    }
  }

  /** Nothing survives a callback that refuses every element. */
  lemma {:induction false} FilterNone<T>(s: seq<T>, keep: T -> bool)
    requires forall k :: 0 <= k < |s| ==> !keep(s[k])
    ensures Filter(s, keep) == []
  {
    if s != [] {
      FilterNone(s[1..], keep);
    }
  }

  /** Everything survives a callback that accepts every element. */
  lemma {:induction false} FilterAll<T>(s: seq<T>, keep: T -> bool)
    requires forall k :: 0 <= k < |s| ==> keep(s[k])
    ensures Filter(s, keep) == s
  {
    if s != [] {
      FilterAll(s[1..], keep);
      assert s == [s[0]] + s[1..];
    }
  }

  /** The values a `forEach` adds to a `Set`: `f(x)` for each `x` where it is present. */
  function Collect<T, U>(s: seq<T>, f: T -> Option<U>): set<U> {
    if s == [] then {}
    else Collect(s[..|s| - 1], f) + match f(s[|s| - 1]) case None => {} case Some(u) => {u}
  }

  /** One more step of the `forEach`: the prefix through `s[i]` adds what `s[i]` yields. */
  lemma CollectStep<T, U>(s: seq<T>, i: nat, f: T -> Option<U>)
    requires i < |s|
    ensures Collect(s[..i + 1], f) == Collect(s[..i], f) + match f(s[i]) case None => {} case Some(u) => {u}
  {
    assert s[..i + 1][..i] == s[..i];
  }

  /** A value is collected exactly when some element yields it. */
  lemma {:induction false} CollectMembers<T, U>(s: seq<T>, f: T -> Option<U>, u: U)
    ensures u in Collect(s, f) <==> exists k :: 0 <= k < |s| && f(s[k]) == Some(u)
  {
    if s != [] {
      var n := |s| - 1;
      var init := s[..n];
      CollectMembers(init, f, u);
      if u in Collect(init, f) {
        var k :| 0 <= k < |init| && f(init[k]) == Some(u);
        assert s[k] == init[k];
      }
      if exists k :: 0 <= k < |s| && f(s[k]) == Some(u) {
        var k :| 0 <= k < |s| && f(s[k]) == Some(u);
        if k < n {
          assert init[k] == s[k];
        }
      }
    }
  }
}

/**
 * The two lists the table page builds from the feed: the filtered rows in
 * the chosen sort order (`getSortedPosts`) and the years the year selector
 * offers (`getAvailableYears`). Both copy their data into a fresh array and
 * sort the copy in place, as the page does.
 */
module PostViews {
  import opened Wrappers
  import opened StableSort
  import opened PostModel
  import opened PostFilter
  import opened JsArray

  /** What `getSortedPosts` shows: the filtered posts, stably sorted by the sort state. */
  function SortedView(posts: seq<Post>, q: Query, st: SortState): seq<Post> {
    Sort(FilterPosts(Some(posts), q), RankBy(st))
  }

  /** The sorted view is ordered by the sort column in the sort direction. */
  lemma SortedViewOrdered(posts: seq<Post>, q: Query, st: SortState)
    ensures OrderedBy(SortedView(posts, q, st), st)
  {
    SortSorted(FilterPosts(Some(posts), q), RankBy(st));
    SortedByRankIsOrdered(SortedView(posts, q, st), st);
  }

  /**
   * The sorted view holds each post that passes the filters as often as the
   * feed does, and nothing else.
   */
  lemma SortedViewContents(posts: seq<Post>, q: Query, st: SortState, p: Post)
    ensures multiset(SortedView(posts, q, st))[p] == if Keep(p, q) then multiset(posts)[p] else 0
  {
    SortPermutes(FilterPosts(Some(posts), q), RankBy(st));
    FilterPostsExact(posts, [], q, p);
  }

  /** Posts that tie on the sort column keep the feed's order. */
  lemma SortedViewStable(posts: seq<Post>, q: Query, st: SortState, k: int)
    ensures WithRank(SortedView(posts, q, st), RankBy(st), k) == WithRank(FilterPosts(Some(posts), q), RankBy(st), k)
  {
    SortStable(FilterPosts(Some(posts), q), RankBy(st), k);
  }

  /**
   * `getSortedPosts`: filter, copy the result into a new array and sort the
   * copy with the sort state's comparator. The feed itself is a value and is
   * left as it was.
   */
  method GetSortedPosts(posts: seq<Post>, q: Query, st: SortState) returns (rows: seq<Post>)
    ensures rows == SortedView(posts, q, st)
    ensures OrderedBy(rows, st)
    ensures multiset(rows) == multiset(FilterPosts(Some(posts), q))
    ensures forall k :: 0 <= k < |rows| ==> Keep(rows[k], q)
  {
    var filtered := FilterPosts(Some(posts), q);
    var a := new Post[|filtered|](i requires 0 <= i < |filtered| => filtered[i]);
    assert a[..] == filtered;
    // The page's comparator `Compare(x, y, st)` is a difference of `RankBy(st)` values.
    forall x: Post, y: Post ensures Compare(x, y, st) == RankBy(st)(x) - RankBy(st)(y) {
      CompareIsRankDifference(x, y, st);
    }
    SortInPlace(a, RankBy(st));
    rows := a[..];
    SortedViewOrdered(posts, q, st);
    SortPermutes(filtered, RankBy(st));
    forall k | 0 <= k < |rows| ensures Keep(rows[k], q) {
      assert rows[k] in multiset(filtered);
    }
  }

  /** The rank the years comparator `(a, b) => b - a` sorts by: highest year first. */
  function Neg(y: int): int {
    -y
  }

  lemma YearsCompareIsRankDifference(a: int, b: int)
    ensures b - a == Neg(a) - Neg(b)
  {
  }

  /** No value occurs twice, as in the array made from a `Set`. */
  ghost predicate Distinct(s: seq<int>) {
    forall x :: multiset(s)[x] <= 1
  }

  lemma DistinctAt(s: seq<int>, i: nat, j: nat)
    requires Distinct(s)
    requires i < j < |s|
    ensures s[i] != s[j]
  {
    assert s == s[..i] + [s[i]] + s[i + 1..j] + [s[j]] + s[j + 1..];
    assert multiset(s)[s[i]] >= 1 + multiset([s[j]])[s[i]];
  }

  predicate StrictlyDescending(s: seq<int>) {
    forall i, j :: 0 <= i < j < |s| ==> s[i] > s[j]
  }

  /** A distinct list sorted highest first is strictly descending. */
  lemma SortedDistinctDescending(s: seq<int>)
    requires Sorted(s, Neg) && Distinct(s)
    ensures StrictlyDescending(s)
  {
    forall i, j | 0 <= i < j < |s| ensures s[i] > s[j] {
      assert Neg(s[i]) <= Neg(s[j]);
      DistinctAt(s, i, j);
    }
  }

  /** Adding a value the list lacks keeps it distinct, as `Set.prototype.add` does. */
  lemma DistinctSnoc(s: seq<int>, y: int)
    requires Distinct(s) && y !in s
    ensures Distinct(s + [y])
  {
    assert multiset(s + [y]) == multiset(s) + multiset{y};
    assert multiset(s)[y] == 0;
  }

  /**
   * The `forEach` over the posts that fills `yearsSet`: the distinct years,
   * in the order they were first added.
   */
  method CollectYears(posts: seq<Post>) returns (seen: seq<int>)
    ensures Distinct(seen)
    ensures forall y :: y in seen <==> y in YearSet(posts)
  {
    seen := [];
    var i := 0;
    while i < |posts|
      invariant 0 <= i <= |posts|
      invariant Distinct(seen)
      invariant forall y :: y in seen <==> y in YearSet(posts[..i])
    {
      CollectStep(posts, i, YearOf);
      match YearOf(posts[i]) {
        case Some(y) =>
          if y !in seen {
            DistinctSnoc(seen, y);
            seen := seen + [y];
          }
        case None =>
      }
      i := i + 1;
    }
    assert posts[..i] == posts;
  }

  /**
   * `getAvailableYears`: the current year alone for a missing or empty feed;
   * otherwise every year some subject's leftmost `[dddd.` prefix gives, each
   * once, highest first.
   */
  method GetAvailableYears(posts: Option<seq<Post>>, currentYear: int) returns (years: seq<int>)
    ensures posts.None? || posts.value == [] ==> years == [currentYear]
    ensures posts.Some? && posts.value != [] ==> StrictlyDescending(years)
    ensures posts.Some? && posts.value != [] ==> forall y :: y in years <==>
      exists k :: 0 <= k < |posts.value| && LeadingYear(posts.value[k].subject) == Some(y)
  {
    if posts.None? || posts.value == [] {
      return [currentYear];
    }
    var ps := posts.value;
    var seen := CollectYears(ps);
    var a := new int[|seen|](i requires 0 <= i < |seen| => seen[i]);
    assert a[..] == seen;
    // The page's comparator `(x, y) => y - x` is a difference of `Neg` values.
    forall x: int, y: int ensures y - x == Neg(x) - Neg(y) {
      YearsCompareIsRankDifference(x, y);
    }
    SortInPlace(a, Neg);
    years := a[..];
    SortPermutes(seen, Neg);
    SortSorted(seen, Neg);
    assert Distinct(years) by {
      assert multiset(years) == multiset(seen);
    }
    SortedDistinctDescending(years);
    forall y ensures y in years <==>
      exists k :: 0 <= k < |ps| && LeadingYear(ps[k].subject) == Some(y)
    {
      assert y in years <==> y in multiset(seen);
      YearSetMembers(ps, y);
    }
  }
}

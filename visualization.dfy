/**
 * The chart tab: the most-voted posts, a font size per rank, and the movie
 * title shown for each post. The page hands the chart the filtered feed, so
 * `posts` below is the output of `filterPosts`.
 */
module Visualization {
  import opened Wrappers
  import opened JsText
  import opened StableSort
  import opened PostModel
  import opened PostFilter

  /** How many posts the chart shows. */
  const ShownPosts := 75

  const ByVotes := SortState(Votes, Desc)

  /** The chart's list: the posts stably sorted by votes, highest first, cut at 75. */
  function TopList(posts: seq<Post>): (top: seq<Post>)
    ensures |top| == if |posts| < ShownPosts then |posts| else ShownPosts
  {
    var sorted := Sort(posts, RankBy(ByVotes));
    sorted[..if |sorted| < ShownPosts then |sorted| else ShownPosts]
  }

  /** The chart's list is in non-increasing order of votes. */
  lemma TopListOrdered(posts: seq<Post>)
    ensures OrderedBy(TopList(posts), ByVotes)
  {
    var sorted := Sort(posts, RankBy(ByVotes));
    SortSorted(posts, RankBy(ByVotes));
    SortedPrefix(sorted, RankBy(ByVotes), |TopList(posts)|);
    SortedByRankIsOrdered(TopList(posts), ByVotes);
  }

  /** Every post on the chart is one of the posts handed to it, and no more often than there. */
  lemma TopListFromFeed(posts: seq<Post>)
    ensures multiset(TopList(posts)) <= multiset(posts)
  {
    var sorted := Sort(posts, RankBy(ByVotes));
    var top := TopList(posts);
    SortPermutes(posts, RankBy(ByVotes));
    assert sorted == top + sorted[|top|..];
  }

  /** Every post with more votes than the last post shown is shown. */
  lemma TopListShowsMostVoted(posts: seq<Post>)
    ensures var top := TopList(posts);
      top != [] ==> forall k :: 0 <= k < |posts| && posts[k].votes > top[|top| - 1].votes ==> posts[k] in top
  {
    var top := TopList(posts);
    if top != [] {
      forall k | 0 <= k < |posts| && posts[k].votes > top[|top| - 1].votes ensures posts[k] in top {
        SortPrefixHoldsLower(posts, RankBy(ByVotes), |top|, posts[k]);
      }
    }
  }

  /** `[...posts].sort((a, b) => b.votes - a.votes).slice(0, 75)` */
  method TopVoted(posts: seq<Post>) returns (top: seq<Post>)
    ensures top == TopList(posts)
    ensures |top| == if |posts| < ShownPosts then |posts| else ShownPosts
    ensures OrderedBy(top, ByVotes)
    ensures multiset(top) <= multiset(posts)
  {
    var a := new Post[|posts|](i requires 0 <= i < |posts| => posts[i]);
    assert a[..] == posts;
    // The chart's comparator `(x, y) => y.votes - x.votes` is a difference of `RankBy(ByVotes)` values.
    forall x: Post, y: Post ensures y.votes - x.votes == RankBy(ByVotes)(x) - RankBy(ByVotes)(y) {
      VotesCompareIsRankDifference(x, y);
    }
    SortInPlace(a, RankBy(ByVotes));
    var n := if a.Length < ShownPosts then a.Length else ShownPosts;
    top := a[..n];
    TopListOrdered(posts);
    TopListFromFeed(posts);
  }

  /** The votes comparator is the rank difference of `ByVotes`. */
  lemma VotesCompareIsRankDifference(a: Post, b: Post)
    ensures b.votes - a.votes == RankBy(ByVotes)(a) - RankBy(ByVotes)(b)
  {
  }

  const FirstPlaceFontSize := 64
  const MaxFontSize := 48
  const MinFontSize := 12

  /** `Math.round` on reals: the nearest integer, halves rounded up. */
  function Round(x: real): (n: int)
    ensures x - 0.5 < n as real <= x + 0.5
  {
    (x + 0.5).Floor
  }

  lemma RoundMonotone(x: real, y: real)
    requires x <= y
    ensures Round(x) <= Round(y)
  {
  }

  /** The argument `-(index - 1) / 25` passed to `Math.exp`. */
  function DecayArgument(index: nat): real {
    -((index - 1) as real) / 25.0
  }

  /**
   * `calculateFontSize`: 64 for the first place; for the others 48 scaled
   * by an exponential decay, rounded, and never below 12. `exp` stands for
   * `Math.exp`.
   */
  function CalculateFontSize(index: nat, exp: real -> real): (size: int)
    ensures index == 0 ==> size == FirstPlaceFontSize
    ensures index > 0 ==> size >= MinFontSize
    ensures index > 0 && exp(DecayArgument(index)) <= 1.0 ==> size <= MaxFontSize
    ensures index > 0 && exp(DecayArgument(index)) <= 1.0 ==> size < FirstPlaceFontSize
  {
    if index == 0 then FirstPlaceFontSize
    else
      var scaled := Round(MaxFontSize as real * exp(DecayArgument(index)));
      if scaled < MinFontSize then MinFontSize else scaled
  }

  /** A decreasing argument: later places use a smaller (more negative) exponent. */
  lemma DecayArgumentDecreasing(i: nat, j: nat)
    requires 1 <= i <= j
    ensures DecayArgument(j) <= DecayArgument(i) <= 0.0
  {
  }

  /**
   * When `exp` is non-decreasing, no place after the first gets a larger
   * font than a place before it.
   */
  lemma FontSizeNonIncreasing(i: nat, j: nat, exp: real -> real)
    requires i <= j
    requires forall x, y :: x <= y ==> exp(x) <= exp(y)
    requires exp(0.0) <= 1.0
    ensures CalculateFontSize(j, exp) <= CalculateFontSize(i, exp)
  {
    if i > 0 {
      DecayArgumentDecreasing(i, j);
      RoundMonotone(MaxFontSize as real * exp(DecayArgument(j)), MaxFontSize as real * exp(DecayArgument(i)));
    } else if j > 0 {
      DecayArgumentDecreasing(j, j);
    }
  }

  /** Second place gets the full 48 when `exp(0) = 1`. */
  lemma SecondPlaceFontSize(exp: real -> real)
    requires exp(0.0) == 1.0
    ensures CalculateFontSize(1, exp) == MaxFontSize
  {
    assert DecayArgument(1) == 0.0;
  }

  /** Place 26 gets `round(48 / e) = 18`, for any `exp(-1)` within 0.3646 and 0.385. */
  lemma TwentySixthPlaceFontSize(exp: real -> real)
    requires 0.3646 <= exp(-1.0) <= 0.385
    ensures CalculateFontSize(26, exp) == 18
  {
    assert DecayArgument(26) == -1.0;
  }

  /** Far enough down, the decay goes under the floor and the size stays 12. */
  lemma SmallFactorGivesMinimum(index: nat, exp: real -> real)
    requires index > 0
    requires Round(MaxFontSize as real * exp(DecayArgument(index))) < MinFontSize
    ensures CalculateFontSize(index, exp) == MinFontSize
  {
  }

  /** Where the run of digits starting at `from` ends. */
  function DigitsEnd(s: string, from: nat): (e: nat)
    requires from <= |s|
    ensures from <= e <= |s| && DigitsIn(s, from, e)
    ensures e < |s| ==> !IsDigit(s[e])
    decreases |s| - from
  {
    if from == |s| || !IsDigit(s[from]) then from else DigitsEnd(s, from + 1)
  }

  /** `s[i..b]` is text that `\[\d{4}\.\d+\]` matches. */
  predicate IsBaseTagSpan(s: string, i: nat, b: nat) {
    i + 8 <= b <= |s| && s[i] == '[' && DigitsIn(s, i + 1, i + 5) && s[i + 5] == '.' &&
    DigitsIn(s, i + 6, b - 1) && s[b - 1] == ']'
  }

  /** The digits of a base tag run up to its `]`, so a base tag has a single possible end. */
  lemma BaseTagSpanEnd(s: string, i: nat, b: nat)
    requires IsBaseTagSpan(s, i, b)
    ensures DigitsEnd(s, i + 6) == b - 1
  {
    var d := DigitsEnd(s, i + 6);
    assert !IsDigit(s[b - 1]);
    assert d <= b - 1;
  }

  /** No `]` and no line terminator in `s[lo..hi]`: the text `.*?` may cover before its `]`. */
  predicate GroupText(s: string, lo: nat, hi: nat)
    requires hi <= |s|
  {
    forall k :: lo <= k < hi ==> s[k] != ']' && !IsLineTerminator(s[k])
  }

  /**
   * `s[i..e]` is text that `\[\d{4}\.\d+\](\[.*?\])?` matches, with the
   * base tag ending at `b`: either no bracket group, or one that closes at
   * its first `]`.
   */
  predicate IsTitleTagSpan(s: string, i: nat, b: nat, e: nat) {
    IsBaseTagSpan(s, i, b) &&
    (e == b || (b + 2 <= e <= |s| && s[b] == '[' && s[e - 1] == ']' && GroupText(s, b + 1, e - 1)))
  }

  /** After the group's `[` at `from - 1`: the `]` that closes it, if no line terminator comes first. */
  function CloseAt(s: string, from: nat): (r: Option<nat>)
    requires from <= |s|
    ensures r.Some? ==> from <= r.value < |s| && s[r.value] == ']' && GroupText(s, from, r.value)
    ensures r.None? ==> forall j :: from <= j < |s| && s[j] == ']' ==> !GroupText(s, from, j)
    decreases |s| - from
  {
    if from == |s| || IsLineTerminator(s[from]) then None
    else if s[from] == ']' then Some(from)
    else CloseAt(s, from + 1)
  }

  /**
   * Matching the title tag at `i`: the base tag, then the optional group,
   * which the greedy `?` takes whenever it can. The result is the pair of
   * ends `(b, e)`.
   */
  function TitleTagAt(s: string, i: nat): (r: Option<(nat, nat)>)
    ensures r.Some? ==> IsTitleTagSpan(s, i, r.value.0, r.value.1)
    ensures r.Some? ==> forall b: nat, e: nat :: IsTitleTagSpan(s, i, b, e) ==> b == r.value.0 && e <= r.value.1
    ensures r.None? ==> forall b: nat, e: nat :: !IsTitleTagSpan(s, i, b, e)
  {
    if i + 6 <= |s| && s[i] == '[' && DigitsIn(s, i + 1, i + 5) && s[i + 5] == '.' then
      var d := DigitsEnd(s, i + 6);
      if i + 6 < d < |s| && s[d] == ']' then
        var b := d + 1;
        assert forall b': nat :: IsBaseTagSpan(s, i, b') ==> b' == b by {
          forall b': nat | IsBaseTagSpan(s, i, b') ensures b' == b {
            BaseTagSpanEnd(s, i, b');
          }
        }
        if b < |s| && s[b] == '[' then
          match CloseAt(s, b + 1)
          case Some(c) => Some((b, c + 1))
          case None => Some((b, b))
        else Some((b, b))
      else
        assert forall b': nat :: !IsBaseTagSpan(s, i, b') by {
          forall b': nat | IsBaseTagSpan(s, i, b') ensures false {
            BaseTagSpanEnd(s, i, b');
          }
        }
        None
    else None
  }

  /** `subject.replace(/\[\d{4}\.\d+\](\[.*?\])?/, "")`: the leftmost title tag cut out. */
  function StripTitleTag(s: string): (r: string)
    ensures r == s || |r| + 8 <= |s|
  {
    var at := (k: nat) => TitleTagAt(s, k);
    match FirstMatch(s, 0, at)
    case None => s
    case Some((i, span)) =>
      assert at(i) == Some(span);
      s[..i] + s[span.1..]
  }

  /** A subject without a title tag passes through unchanged. */
  lemma StripWithoutTag(s: string)
    requires forall i: nat, b: nat, e: nat :: !IsTitleTagSpan(s, i, b, e)
    ensures StripTitleTag(s) == s
  {
    var at := (k: nat) => TitleTagAt(s, k);
    var m := FirstMatch(s, 0, at);
    if m.Some? {
      assert at(m.value.0).Some?;
    }
  }

  /**
   * The tag removed is the leftmost one, with its bracket group whenever it
   * has one, and the rest of the subject is kept around it.
   */
  lemma StripRemovesLeftmostTag(s: string, i: nat, b: nat, e: nat)
    requires IsTitleTagSpan(s, i, b, e)
    requires forall i': nat, b': nat, e': nat :: i' < i ==> !IsTitleTagSpan(s, i', b', e')
    requires forall e': nat :: IsTitleTagSpan(s, i, b, e') ==> e' <= e
    ensures StripTitleTag(s) == s[..i] + s[e..]
  {
    var at := (k: nat) => TitleTagAt(s, k);
    assert at(i).Some?;
    var m := FirstMatch(s, 0, at);
    assert m.Some?;
    var i0 := m.value.0;
    assert at(i0).Some?;
    assert i0 == i;
    assert at(i) == Some(m.value.1);
  }

  /** The two separators the title is split at: `/` and the fullwidth solidus. */
  predicate IsSeparator(c: char) {
    c == '/' || c == '\U{FF0F}'
  }

  /** `(s.match(/[/／]/g) || []).length` */
  function SeparatorCount(s: string): (n: nat)
    ensures n <= |s|
    ensures n == 0 <==> forall k :: 0 <= k < |s| ==> !IsSeparator(s[k])
  {
    if s == [] then 0
    else SeparatorCount(s[..|s| - 1]) + (if IsSeparator(s[|s| - 1]) then 1 else 0)
  }

  /** Where `s.split(/[/／]/)[0]` ends: the first separator, or the end of `s`. */
  function FirstSeparator(s: string): (n: nat)
    ensures n <= |s|
    ensures forall k :: 0 <= k < n ==> !IsSeparator(s[k])
    ensures n < |s| ==> IsSeparator(s[n])
  {
    if s == [] || IsSeparator(s[0]) then 0 else 1 + FirstSeparator(s[1..])
  }

  /** The subject with its title tag cut out, trimmed. */
  function TitleRemainder(subject: string): (r: string)
    ensures NoEdgeSpace(r) && |r| <= |subject|
  {
    Trim(StripTitleTag(subject))
  }

  /**
   * `s.split(/[/／]/)[0].trim()`: the text in front of the first separator,
   * without the white space around it.
   */
  function FirstSegment(s: string): (r: string)
    ensures NoEdgeSpace(r)
    ensures forall k :: 0 <= k < |r| ==> !IsSeparator(r[k])
    ensures var n := FirstSeparator(s);
      var a := LeadingSpaceCount(s[..n]);
      a + |r| <= n && r == s[a..a + |r|] &&
      forall k :: 0 <= k < n && !(a <= k < a + |r|) ==> IsJsSpace(s[k])
  {
    var n := FirstSeparator(s);
    var t := s[..n];
    var r := Trim(t);
    var a := LeadingSpaceCount(t);
    assert r == s[a..a + |r|] by {
      assert r == t[a..a + |r|];
    }
    assert forall k :: 0 <= k < n ==> s[k] == t[k];
    r
  }

  /** Without a separator, a trimmed string is its own first segment. */
  lemma FirstSegmentWithoutSeparator(s: string)
    requires NoEdgeSpace(s) && SeparatorCount(s) == 0
    ensures FirstSegment(s) == s
  {
    assert FirstSeparator(s) == |s|;
    assert s[..|s|] == s;
    TrimKeepsUntrimmed(s);
  }

  /**
   * `processMovieTitle`: with exactly one separator the whole remainder is
   * the title; otherwise the title is the trimmed text in front of the first
   * separator, which is the whole remainder when there is no separator.
   */
  function ProcessMovieTitle(subject: string): (r: string)
    ensures NoEdgeSpace(r)
    ensures SeparatorCount(TitleRemainder(subject)) == 1 ==> r == TitleRemainder(subject)
    ensures SeparatorCount(TitleRemainder(subject)) != 1 ==> r == FirstSegment(TitleRemainder(subject))
    ensures SeparatorCount(TitleRemainder(subject)) == 0 ==> r == TitleRemainder(subject)
  {
    var rest := TitleRemainder(subject);
    if SeparatorCount(rest) == 1 then rest
    else if SeparatorCount(rest) == 0 then
      FirstSegmentWithoutSeparator(rest);
      FirstSegment(rest)
    else FirstSegment(rest)
  }
}

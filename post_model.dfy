/**
 * The records of the poll dashboard and its table sort state: a `Post` as
 * the feed delivers it, the three sortable columns, the click handler that
 * toggles the sort, and the comparator the table sorts with.
 */
module PostModel {
  import opened StableSort

  /**
   * One poll entry. The averages and the standard deviation are floating
   * point numbers in the feed; here every numeric field is an integer.
   */
  datatype Post = Post(
    id: int,
    subject: string,
    created: int,
    lastUpdated: int,
    views: int,
    replies: int,
    scores: int,
    votes: int,
    standardDeviation: int,
    averageScore: int,
    bayesianAverageScore: int)

  datatype SortField = Votes | AverageScore | BayesianAverageScore

  datatype SortDirection = Asc | Desc

  datatype SortState = SortState(field: SortField, direction: SortDirection)

  /** The table starts sorted by Bayesian average, highest first. */
  const DefaultSort := SortState(BayesianAverageScore, Desc)

  /** `post[field]` */
  function Key(p: Post, field: SortField): int {
    match field
    case Votes => p.votes
    case AverageScore => p.averageScore
    case BayesianAverageScore => p.bayesianAverageScore
  }

  function Flip(d: SortDirection): SortDirection {
    if d == Asc then Desc else Asc
  }

  /**
   * A click on the header of `field`. Clicking the column already sorted on
   * reverses the direction; clicking another column sorts it highest first.
   */
  function HandleSort(prev: SortState, field: SortField): (next: SortState)
    ensures next.field == field
    ensures prev.field != field ==> next.direction == Desc
    ensures prev.field == field ==> next.direction == Flip(prev.direction)
  {
    SortState(field, if prev.field == field && prev.direction == Desc then Asc else Desc)
  }

  /** The state after `n` clicks on the same header. */
  function Clicks(st: SortState, field: SortField, n: nat): SortState {
    if n == 0 then st else HandleSort(Clicks(st, field, n - 1), field)
  }

  /** Repeated clicks on one header alternate between the two directions. */
  lemma {:induction false} ClicksAlternate(st: SortState, field: SortField, n: nat)
    ensures Clicks(st, field, n + 1).field == field
    ensures Clicks(st, field, n + 1).direction ==
      if n % 2 == 0 then HandleSort(st, field).direction else Flip(HandleSort(st, field).direction)
  {
    if n > 0 {
      ClicksAlternate(st, field, n - 1);
    }
  }

  /** Coming from another column, the clicks go highest first, lowest first, highest first, ... */
  lemma ClicksFromOtherColumn(st: SortState, field: SortField, n: nat)
    requires st.field != field
    ensures Clicks(st, field, n + 1) == SortState(field, if n % 2 == 0 then Desc else Asc)
  {
    ClicksAlternate(st, field, n);
  }

  /** A second click on the same header undoes the first. */
  lemma DoubleClickRestores(st: SortState)
    ensures HandleSort(HandleSort(st, st.field), st.field) == st
  {
  }

  /**
   * From the initial state, a click on the Bayesian average header turns it
   * lowest first; a click on another header sorts that one highest first.
   */
  lemma FirstClickFromDefault(field: SortField)
    ensures HandleSort(DefaultSort, field) ==
      SortState(field, if field == BayesianAverageScore then Asc else Desc)
  {
  }

  /** The comparator the table passes to `sort`: `(a[field] - b[field]) * multiplier`. */
  function Compare(a: Post, b: Post, st: SortState): (r: int)
    ensures r == 0 <==> Key(a, st.field) == Key(b, st.field)
    ensures r < 0 <==>
      if st.direction == Asc then Key(a, st.field) < Key(b, st.field) else Key(a, st.field) > Key(b, st.field)
  {
    (Key(a, st.field) - Key(b, st.field)) * (if st.direction == Desc then -1 else 1)
  }

  /** The rank that sorting with `Compare` orders by, ascending. */
  function Rank(p: Post, st: SortState): int {
    if st.direction == Desc then -Key(p, st.field) else Key(p, st.field)
  }

  function RankBy(st: SortState): Post -> int {
    p => Rank(p, st)
  }

  /** The comparator is a difference of ranks, so sorting with it is `Sort` by `RankBy`. */
  lemma CompareIsRankDifference(a: Post, b: Post, st: SortState)
    ensures Compare(a, b, st) == RankBy(st)(a) - RankBy(st)(b)
  {
  }

  /** Ordered by the sort column, in the sort direction. */
  predicate OrderedBy(s: seq<Post>, st: SortState) {
    forall i, j :: 0 <= i < j < |s| ==>
      if st.direction == Desc then Key(s[i], st.field) >= Key(s[j], st.field)
      else Key(s[i], st.field) <= Key(s[j], st.field)
  }

  /** Ascending rank is the column order the sort state asks for. */
  lemma SortedByRankIsOrdered(s: seq<Post>, st: SortState)
    requires Sorted(s, RankBy(st))
    ensures OrderedBy(s, st)
  {
    forall i, j | 0 <= i < j < |s|
      ensures if st.direction == Desc then Key(s[i], st.field) >= Key(s[j], st.field)
              else Key(s[i], st.field) <= Key(s[j], st.field)
    {
      assert RankBy(st)(s[i]) <= RankBy(st)(s[j]);
    }
  }
}

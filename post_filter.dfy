/**
 * The table's date filter (`filterPosts`) and the two subject scanners the
 * page uses: the `[YYYY.M]` / `[YYYY.MM]` date tag that decides whether and
 * how a post is filtered, and the `[YYYY.` prefix the year selector is
 * built from.
 */
module PostFilter {
  import opened Wrappers
  import opened JsText
  import opened PostModel
  import opened JsArray

  /** The year and month a date tag carries, and where its text ends. */
  datatype DateTag = DateTag(year: string, month: nat, end: nat)

  predicate DigitsIn(s: string, lo: nat, hi: nat)
    requires hi <= |s|
  {
    forall k :: lo <= k < hi ==> IsDigit(s[k])
  }

  /** `s[i..j]` is text that `\[\d{4}\.\d{1,2}\]` matches. */
  predicate IsDateTagSpan(s: string, i: nat, j: nat) {
    j <= |s| && (j == i + 8 || j == i + 9) && s[i] == '[' && DigitsIn(s, i + 1, i + 5) &&
    s[i + 5] == '.' && DigitsIn(s, i + 6, j - 1) && s[j - 1] == ']'
  }

  /**
   * `parseInt(match[2], 10)`: the decimal value of the one or two month
   * digits of the tag `s[i..j]`, which a plain `parseInt` reads the same way.
   */
  function TagMonth(s: string, i: nat, j: nat): (m: nat)
    requires IsDateTagSpan(s, i, j)
    ensures ParseInt(s[i + 6..j - 1]) == Some(m)
    ensures m < 100
  {
    var ds := s[i + 6..j - 1];
    assert AllDigits(ds) by {
      forall k | 0 <= k < |ds| ensures IsDigit(ds[k]) {
        assert ds[k] == s[i + 6 + k];
      }
    }
    ParseIntDecimal(ds);
    RadixValueBelow(ds);
    assert Pow10(|ds|) <= Pow10(2) == 100;
    RadixValue(ds, 10)
  }

  /**
   * Matching `\[(\d{4})\.(\d{1,2})\]` at position `i` of `s`: the month
   * group is greedy, so two digits are tried before one. The year is the
   * captured text.
   */
  function DateTagAt(s: string, i: nat): (r: Option<DateTag>)
    ensures r.Some? ==>
      IsDateTagSpan(s, i, r.value.end) && r.value.year == s[i + 1..i + 5] &&
      r.value.month == TagMonth(s, i, r.value.end)
    ensures r.Some? && IsDateTagSpan(s, i, i + 9) ==> r.value.end == i + 9
    ensures r.None? ==> forall j :: !IsDateTagSpan(s, i, j)
  {
    if i + 8 <= |s| && s[i] == '[' && DigitsIn(s, i + 1, i + 5) && s[i + 5] == '.' && IsDigit(s[i + 6]) then
      if i + 9 <= |s| && IsDigit(s[i + 7]) && s[i + 8] == ']' then
        Some(DateTag(s[i + 1..i + 5], TagMonth(s, i, i + 9), i + 9))
      else if s[i + 7] == ']' then
        Some(DateTag(s[i + 1..i + 5], TagMonth(s, i, i + 8), i + 8))
      else
        None
    else
      None
  }

  /** A tag's year is four digits and its month at most 99. */
  lemma DateTagShape(s: string, i: nat)
    requires DateTagAt(s, i).Some?
    ensures |DateTagAt(s, i).value.year| == 4 && AllDigits(DateTagAt(s, i).value.year)
    ensures DateTagAt(s, i).value.month < 100
  {
  }

  /** `subject.match(/\[(\d{4})\.(\d{1,2})\]/)`: the leftmost date tag, if any. */
  function ExtractDate(subject: string): (r: Option<DateTag>)
    ensures r.Some? ==> |r.value.year| == 4 && AllDigits(r.value.year) && r.value.month < 100
    ensures r.Some? ==> r.value.end <= |subject|
  {
    match FirstMatch(subject, 0, (k: nat) => DateTagAt(subject, k))
    case None => None
    case Some((i, tag)) =>
      DateTagShape(subject, i);
      Some(tag)
  }

  /**
   * The tag found is the leftmost one, read with two month digits whenever
   * two are there, and its fields are the year text and the month value of
   * that occurrence.
   */
  lemma ExtractDateLeftmost(subject: string, tag: DateTag)
    requires ExtractDate(subject) == Some(tag)
    ensures exists i: nat ::
      IsDateTagSpan(subject, i, tag.end) && tag.year == subject[i + 1..i + 5] &&
      tag.month == TagMonth(subject, i, tag.end) &&
      (IsDateTagSpan(subject, i, i + 9) ==> tag.end == i + 9) &&
      forall k: nat, j: nat :: k < i ==> !IsDateTagSpan(subject, k, j)
  {
    var at := (k: nat) => DateTagAt(subject, k);
    var m := FirstMatch(subject, 0, at);
    var i := m.value.0;
    assert at(i) == Some(tag);
    forall k: nat, j: nat | k < i ensures !IsDateTagSpan(subject, k, j) {
      assert at(k).None?;
    }
  }

  /** A subject yields a date tag exactly when some part of it is a `[dddd.d]` or `[dddd.dd]` tag. */
  lemma ExtractDateFindsTags(subject: string)
    ensures ExtractDate(subject).Some? <==> exists i: nat, j: nat :: IsDateTagSpan(subject, i, j)
  {
    var at := (k: nat) => DateTagAt(subject, k);
    var m := FirstMatch(subject, 0, at);
    if m.Some? {
      var i := m.value.0;
      assert at(i).Some?;
      assert IsDateTagSpan(subject, i, at(i).value.end);
    } else {
      forall i: nat, j: nat ensures !IsDateTagSpan(subject, i, j) {
        if i <= |subject| {
          assert at(i).None?;
        }
      }
    }
  }

  datatype Quarter = Q1 | Q2 | Q3 | Q4

  /**
   * The selector values `filterPosts` reads: `""` means "all" for the year
   * and the month; the quarter is one of the four keys or unset.
   */
  datatype Query = Query(year: string, quarter: Option<Quarter>, month: string)

  const NoFilter := Query("", None, "")

  /** The source's `quarterMap`. */
  function QuarterMonths(q: Quarter): (ms: set<int>)
    ensures |ms| == 3 && forall m :: m in ms ==> 1 <= m <= 12
  {
    match q
    case Q1 => {1, 2, 3}
    case Q2 => {4, 5, 6}
    case Q3 => {7, 8, 9}
    case Q4 => {10, 11, 12}
  }

  /** A quarter holds the months whose zero-based index divided by three is its number. */
  lemma QuarterMonthsAreCalendarQuarters(q: Quarter, m: int)
    ensures m in QuarterMonths(q) <==>
      1 <= m <= 12 && (m - 1) / 3 == (match q case Q1 => 0 case Q2 => 1 case Q3 => 2 case Q4 => 3)
  {
  }

  /** The predicate `filterPosts` hands to `Array.prototype.filter`. */
  predicate Keep(p: Post, q: Query)
    ensures Keep(p, q) ==> ExtractDate(p.subject).Some?
    ensures Keep(p, q) && q.year != "" ==> ExtractDate(p.subject).value.year == q.year
    ensures Keep(p, q) && q.quarter.Some? ==> 1 <= ExtractDate(p.subject).value.month <= 12
  {
    match ExtractDate(p.subject)
    case None => false
    case Some(tag) =>
      (q.year == "" || tag.year == q.year) &&
      (q.quarter.None? || tag.month in QuarterMonths(q.quarter.value)) &&
      (q.month == "" || ParseInt(q.month) == Some(tag.month as int))
  }

  /** The callback `filterPosts` passes: `post => Keep(post, q)`. */
  function Matches(q: Query): Post -> bool {
    p => Keep(p, q)
  }

  /** `filterPosts`: an absent post list filters to nothing. */
  function FilterPosts(posts: Option<seq<Post>>, q: Query): (r: seq<Post>)
    ensures posts.None? ==> r == []
    ensures posts.Some? ==> |r| <= |posts.value|
    ensures forall k :: 0 <= k < |r| ==> Keep(r[k], q)
  {
    match posts
    case None => []
    case Some(ps) =>
      FilterAccepted(ps, Matches(q));
      Filter(ps, Matches(q))
  }

  /**
   * `filterPosts` keeps each post that passes every set filter as often as
   * it occurs, drops every other post, and keeps the feed's order.
   */
  lemma FilterPostsExact(posts: seq<Post>, more: seq<Post>, q: Query, p: Post)
    ensures multiset(FilterPosts(Some(posts), q))[p] == if Keep(p, q) then multiset(posts)[p] else 0
    ensures FilterPosts(Some(posts + more), q) == FilterPosts(Some(posts), q) + FilterPosts(Some(more), q)
  {
    FilterCounts(posts, Matches(q), p);
    FilterAppend(posts, more, Matches(q));
  }

  /** With no filter set, exactly the posts with a date tag survive. */
  lemma NoFilterKeepsTagged(p: Post)
    ensures Keep(p, NoFilter) <==> exists i: nat, j: nat :: IsDateTagSpan(p.subject, i, j)
  {
    ExtractDateFindsTags(p.subject);
  }

  /** A post with no date tag is dropped whatever the filters say. */
  lemma UntaggedDropped(p: Post, q: Query)
    requires forall i: nat, j: nat :: !IsDateTagSpan(p.subject, i, j)
    ensures !Keep(p, q)
  {
    ExtractDateFindsTags(p.subject);
  }

  /** A month string `parseInt` reads as `NaN` drops every post. */
  lemma NaNMonthDropsAll(posts: seq<Post>, q: Query)
    requires q.month != "" && ParseInt(q.month) == None
    ensures FilterPosts(Some(posts), q) == []
  {
    FilterNone(posts, Matches(q));
  }

  /** `m.toString().padStart(2, "0")`, the value the month selector offers for `m`. */
  function PadMonth(m: nat): string
    requires m < 100
  {
    [('0' as int + m / 10) as char, ('0' as int + m % 10) as char]
  }

  /** Selecting month `m` keeps exactly the tagged posts of month `m`; "01" selects 1. */
  lemma MonthSelectsMonth(p: Post, m: nat)
    requires 1 <= m <= 12
    ensures Keep(p, Query("", None, PadMonth(m))) <==>
      ExtractDate(p.subject).Some? && ExtractDate(p.subject).value.month == m
  {
    var s := PadMonth(m);
    assert DigitValue(s[0], 10) == m / 10;
    assert DigitValue(s[1], 10) == m % 10;
    ParseIntDecimal(s);
    assert s[..1][..0] == [];
    assert RadixValue(s[..1], 10) == DigitValue(s[0], 10);
    assert RadixValue(s, 10) == m;
  }

  /** Selecting a year keeps exactly the tagged posts whose year text equals it. */
  lemma YearSelectsYear(p: Post, year: string)
    requires year != ""
    ensures Keep(p, Query(year, None, "")) <==>
      ExtractDate(p.subject).Some? && ExtractDate(p.subject).value.year == year
  {
  }

  /** Selecting a quarter keeps exactly the tagged posts whose month lies in it. */
  lemma QuarterSelectsQuarter(p: Post, q: Quarter)
    ensures Keep(p, Query("", Some(q), "")) <==>
      ExtractDate(p.subject).Some? && ExtractDate(p.subject).value.month in QuarterMonths(q)
  {
  }

  /** `s[i..i + 6]` is text that `\[(\d{4})\.` matches. */
  predicate IsYearPrefixSpan(s: string, i: nat) {
    i + 6 <= |s| && s[i] == '[' && DigitsIn(s, i + 1, i + 5) && s[i + 5] == '.'
  }

  /** `parseInt(match[1])`: the value of the four year digits of the prefix at `i`. */
  function PrefixYear(s: string, i: nat): (y: int)
    requires IsYearPrefixSpan(s, i)
    ensures ParseInt(s[i + 1..i + 5]) == Some(y)
    ensures 0 <= y <= 9999
  {
    var ds := s[i + 1..i + 5];
    assert AllDigits(ds) by {
      forall k | 0 <= k < |ds| ensures IsDigit(ds[k]) {
        assert ds[k] == s[i + 1 + k];
      }
    }
    ParseIntDecimal(ds);
    RadixValueBelow(ds);
    assert Pow10(4) == 10000;
    RadixValue(ds, 10)
  }

  function YearPrefixAt(s: string, i: nat): Option<int> {
    if IsYearPrefixSpan(s, i) then Some(PrefixYear(s, i)) else None
  }

  /** `subject.match(/\[(\d{4})\./)`, the year read from its leftmost match. */
  function LeadingYear(subject: string): (r: Option<int>)
    ensures r.Some? ==> 0 <= r.value <= 9999
  {
    match FirstMatch(subject, 0, (k: nat) => YearPrefixAt(subject, k))
    case None => None
    case Some((_, y)) => Some(y)
  }

  /**
   * A subject yields a year exactly when it contains a `[dddd.` prefix, and
   * the year is the one of the leftmost such prefix.
   */
  lemma LeadingYearFindsPrefix(subject: string)
    ensures LeadingYear(subject).Some? <==> exists i: nat :: IsYearPrefixSpan(subject, i)
    ensures LeadingYear(subject).Some? ==> exists i: nat ::
      IsYearPrefixSpan(subject, i) && LeadingYear(subject).value == PrefixYear(subject, i) &&
      forall k: nat :: k < i ==> !IsYearPrefixSpan(subject, k)
  {
    var at := (k: nat) => YearPrefixAt(subject, k);
    match FirstMatch(subject, 0, at)
    case None =>
      forall i: nat ensures !IsYearPrefixSpan(subject, i) {
        if i <= |subject| {
          assert at(i).None?;
        }
      }
    case Some((i, y)) =>
      assert at(i) == Some(y);
      forall k: nat | k < i ensures !IsYearPrefixSpan(subject, k) {
        assert at(k).None?;
      }
  }

  /** The year a post's subject yields, if any. */
  function YearOf(p: Post): Option<int> {
    LeadingYear(p.subject)
  }

  /** The distinct years the subjects of `posts` yield. */
  function YearSet(posts: seq<Post>): set<int> {
    Collect(posts, YearOf)
  }

  /** A year is in the set exactly when some post's subject yields it. */
  lemma YearSetMembers(posts: seq<Post>, y: int)
    ensures y in YearSet(posts) <==> exists k :: 0 <= k < |posts| && LeadingYear(posts[k].subject) == Some(y)
  {
    CollectMembers(posts, YearOf, y);
  }

  /** Every date tag starts with a year prefix, so a post the filter can keep always yields a year. */
  lemma TaggedSubjectYieldsYear(subject: string)
    requires ExtractDate(subject).Some?
    ensures LeadingYear(subject).Some?
  {
    ExtractDateFindsTags(subject);
    var i: nat, j: nat :| IsDateTagSpan(subject, i, j);
    assert IsYearPrefixSpan(subject, i);
    LeadingYearFindsPrefix(subject);
  }

  /** The decimal values of the digit runs in `[2023.][2024.5]`. */
  lemma ExampleDigitValues()
    ensures RadixValue("2023", 10) == 2023 && RadixValue("2024", 10) == 2024 && RadixValue("5", 10) == 5
  {
    assert "2023"[..3] == "202" && "2024"[..3] == "202";
    assert "202"[..2] == "20" && "20"[..1] == "2" && "2"[..0] == [] && "5"[..0] == [];
  }

  /** The year selector reads 2023 from `[2023.][2024.5]`. */
  lemma SelectorYearOfExample()
    ensures LeadingYear("[2023.][2024.5]") == Some(2023)
  {
    var s := "[2023.][2024.5]";
    var at := (k: nat) => YearPrefixAt(s, k);
    ExampleDigitValues();
    assert s[1..5] == "2023";
    assert at(0) == Some(2023);
  }

  /** No date tag starts in `[2023.]`, the first seven characters of `[2023.][2024.5]`. */
  lemma ExampleNoEarlierTag(k: nat)
    requires k < 7
    ensures DateTagAt("[2023.][2024.5]", k).None?
  {
    var s := "[2023.][2024.5]";
    assert s[6] == ']' && s[0] == '[' && s[1] != '[' && s[2] != '[' && s[3] != '[';
    assert s[4] != '[' && s[5] != '[';
  }

  /** The date tag `[2024.5]` starts at position 7 of `[2023.][2024.5]`. */
  lemma ExampleTagAtSeven()
    ensures DateTagAt("[2023.][2024.5]", 7) == Some(DateTag("2024", 5, 15))
  {
    var s := "[2023.][2024.5]";
    ExampleDigitValues();
    assert s[8..12] == "2024";
    assert s[13..14] == "5";
  }

  /** The filter reads the tag `[2024.5]` from `[2023.][2024.5]`. */
  lemma FilterDateOfExample()
    ensures ExtractDate("[2023.][2024.5]") == Some(DateTag("2024", 5, 15))
  {
    var s := "[2023.][2024.5]";
    var tags := (k: nat) => DateTagAt(s, k);
    forall k: nat | k < 7 ensures tags(k).None? {
      ExampleNoEarlierTag(k);
    }
    ExampleTagAtSeven();
    FirstMatchAt(s, 0, tags, 7);
  }

  /**
   * The two scanners need not agree: a `[dddd.` prefix without a month in
   * front of the date tag gives the year list a year the filter never sees.
   */
  lemma ScannersDisagree()
    ensures exists s :: LeadingYear(s) == Some(2023) && ExtractDate(s).Some? && ExtractDate(s).value.year == "2024"
  {
    SelectorYearOfExample();
    FilterDateOfExample();
    assert LeadingYear("[2023.][2024.5]") == Some(2023);
  }

  /** A single post's year set is the year it yields. */
  lemma SingleYearSet(p: Post, y: int)
    requires YearOf(p) == Some(y)
    ensures YearSet([p]) == {y}
  {
    CollectStep([p], 0, YearOf);
    assert [p][..1] == [p] && [p][..0] == [];
  }

  /** A tagged post whose year differs from the chosen one is filtered out. */
  lemma OtherYearDropped(p: Post, q: Query)
    requires ExtractDate(p.subject).Some? && q.year != "" && ExtractDate(p.subject).value.year != q.year
    ensures FilterPosts(Some([p]), q) == []
  {
    FilterNone([p], Matches(q));
  }

  /**
   * So the year selector can offer a year under which the filter drops the
   * very post that gave it: `[2023.][2024.5]` is the only year source for
   * 2023, yet choosing 2023 filters it out.
   */
  lemma SelectorYearFilteredOut(p: Post)
    requires p.subject == "[2023.][2024.5]"
    ensures YearSet([p]) == {2023}
    ensures FilterPosts(Some([p]), Query("2023", None, "")) == []
  {
    SelectorYearOfExample();
    SingleYearSet(p, 2023);
    FilterDateOfExample();
    OtherYearDropped(p, Query("2023", None, ""));
  }
}

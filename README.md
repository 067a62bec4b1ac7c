# Stage1st poll dashboard: the query and ranking engine

The dashboard shows a feed of poll posts, each rated by readers. It has a
table tab and a chart tab. Everything the page computes from the feed lives
in `src/App.tsx`, and this project models those computations in Dafny:

- **Date filter** (`filterPosts`). A post is kept only when its subject holds
  a `[YYYY.M]` or `[YYYY.MM]` tag. The year, quarter and month selectors then
  narrow the list further.
- **Sort state** (`handleSort` and the initial state). The table is sorted on
  one of three columns: votes, average score or Bayesian average. A click on
  the header of the sorted column reverses the direction; a click on another
  header sorts that column highest first.
- **Table rows** (`getSortedPosts`). The filtered posts are copied into a new
  array and sorted with the column comparator. `Array.prototype.sort` is
  stable, so ties keep the feed order.
- **Year selector** (`getAvailableYears`). The distinct years read from a
  `[YYYY.` prefix of the subjects, highest first. A missing or empty feed
  gives the current year alone.
- **Chart** (`VisualizationView`). The page hands the chart the filtered feed
  (`filterPosts(posts) || []`). The chart shows the 75 most-voted of those
  posts, a font size per place, and a movie title cut out of each subject.

Modules:

| file | module | contents |
|---|---|---|
| `wrappers.dfy` | `Wrappers` | `Option`, for `null`, `undefined` and `NaN` |
| `js_text.dfy` | `JsText` | `\d`, `trim`, `parseInt` without a radix, the leftmost-match rule of `match`/`replace` |
| `js_array.dfy` | `JsArray` | `Array.prototype.filter`, and the `Set` a `forEach` fills |
| `stable_sort.dfy` | `StableSort` | the stable sort as a specification (`Sort`) and as an in-place insertion sort on an array (`SortInPlace`) |
| `post_model.dfy` | `PostModel` | `Post`, the sort state and `handleSort`, the comparator |
| `post_filter.dfy` | `PostFilter` | the date-tag scanner, `filterPosts`, the `[YYYY.` scanner, the year set |
| `post_views.dfy` | `PostViews` | `getSortedPosts` and `getAvailableYears`, both as methods over arrays |
| `visualization.dfy` | `Visualization` | the top-75 list, `calculateFontSize`, `processMovieTitle` |

Each of the three bracket patterns of the source (`src/App.tsx:292`, `348`
and `422`) is modelled as a scanner. A position-wise matcher says whether
the pattern matches at position `i` and where the match ends. `FirstMatch`
then applies the leftmost rule. Each scanner is proved against a predicate
that describes the matched text (`IsDateTagSpan`, `IsYearPrefixSpan`,
`IsTitleTagSpan`). The separator class `[/／]` (`src/App.tsx:295`, `303`) is
a single character, so `SeparatorCount` and `FirstSeparator` model it
directly.

Every sort comparator in the source has the form `(a, b) => rank(a) - rank(b)`
for an integer rank. `PostModel.CompareIsRankDifference`,
`PostViews.YearsCompareIsRankDifference` and
`Visualization.VotesCompareIsRankDifference` state this for each of the
three comparators. So every sort is `StableSort.Sort` with the matching rank.

## Model

| member | source | states |
|---|---|---|
| JsText.Trim | src/App.tsx:292 | `trim` returns the middle of the string; everything it cuts off is ECMAScript white space, and the result starts and ends with a non-space |
| JsText.TrimIdempotent | src/App.tsx:303 | trimming twice gives the same text as trimming once |
| JsText.ParseIntDecimal | src/App.tsx:441 | `parseInt` of a non-empty digit string is its decimal value, so `"01"` gives 1 |
| JsText.ParseInt | src/App.tsx:441 | `parseInt` of an empty or all-space string is `NaN`, and a negative result comes from a string whose first non-space character is `-` |
| JsText.RadixValueBelow | src/App.tsx:350 | `n` decimal digits denote a number below `10^n`, so four year digits give at most 9999 and two month digits at most 99 |
| JsText.FirstMatchAt | src/App.tsx:422 | conversely, a position where the pattern matches, with no match before it, is the match found |
| JsText.FirstMatch | src/App.tsx:422 | a regex without `g` takes the first start position where the pattern matches; none before it matches, and `None` means none matches anywhere |
| JsArray.Filter | src/App.tsx:421-444 | `filter` never grows the list |
| JsArray.FilterAccepted | src/App.tsx:421-444 | every element `filter` returns passes the callback |
| JsArray.FilterKeepsAccepted | src/App.tsx:421-444 | every element that passes the callback is returned |
| JsArray.FilterCounts | src/App.tsx:421-444 | each element that passes is returned as often as it occurs; every other element is gone |
| JsArray.FilterAppend | src/App.tsx:421-444 | filtering works element by element, so it keeps the input order |
| JsArray.FilterNone | src/App.tsx:421-444 | a callback that refuses everything yields `[]` |
| JsArray.FilterAll | src/App.tsx:421-444 | a callback that accepts everything yields the input |
| StableSort.Sort | src/App.tsx:271 | the stable sort every comparator of the page feeds (lines 271, 354 and 379-382) returns as many elements as it gets |
| StableSort.SortPermutes | src/App.tsx:379-382 | the sort returns a permutation of its input |
| StableSort.SortSorted | src/App.tsx:379-382 | the sort returns its input ordered by ascending rank |
| StableSort.SortStable | src/App.tsx:379-382 | elements of equal rank keep their input order (the sort is stable) |
| StableSort.SortIdempotent | src/App.tsx:379-382 | sorting sorted output again changes nothing |
| StableSort.SortOfSorted | src/App.tsx:379-382 | input already in rank order is returned unchanged |
| StableSort.SortedPrefix | src/App.tsx:271 | a prefix (the `slice(0, 75)`) of a sorted list is sorted |
| StableSort.SortedPrefixHoldsLower | src/App.tsx:271 | in a sorted list, any element ranked strictly before the last kept element lies in the kept prefix |
| StableSort.ShiftGreater | src/App.tsx:379-382 | moves every element of the sorted prefix that outranks `x` one place up and returns the gap, which is the stable insertion position |
| StableSort.InsertInPlace | src/App.tsx:379-382 | one insertion step: the prefix grows by one and becomes `Insert` of the old prefix; the rest of the array is untouched |
| StableSort.SortInPlace | src/App.tsx:379-382 | the in-place array sort leaves exactly `Sort` of the array's old contents |
| PostModel.HandleSort | src/App.tsx:367-375 | the clicked column becomes the sort column; the same column flips its direction, another column starts highest first |
| PostModel.ClicksAlternate | src/App.tsx:367-375 | repeated clicks on one header alternate between the two directions |
| PostModel.ClicksFromOtherColumn | src/App.tsx:367-375 | coming from another column, clicks give highest first, lowest first, highest first, ... |
| PostModel.DoubleClickRestores | src/App.tsx:367-375 | two clicks on the sorted column restore the sort state |
| PostModel.FirstClickFromDefault | src/App.tsx:362-375 | the page starts at Bayesian average, highest first; a first click on that header turns it lowest first, and a click on any other header sorts that one highest first |
| PostModel.Compare | src/App.tsx:380-381 | the comparator is zero exactly when the two posts tie on the sort column, and negative exactly when the first post comes first in the sort direction (smaller for `asc`, larger for `desc`) |
| PostModel.CompareIsRankDifference | src/App.tsx:379-382 | `(a[f] - b[f]) * multiplier` is the difference of the two posts' ranks |
| PostModel.SortedByRankIsOrdered | src/App.tsx:379-382 | ascending rank means the column is non-increasing for `desc` and non-decreasing for `asc` |
| PostFilter.DateTagAt | src/App.tsx:422 | `\[(\d{4})\.(\d{1,2})\]` matches at a position exactly when a tag lies there; the greedy month group prefers two digits; it captures the year text and the month value |
| PostFilter.TagMonth | src/App.tsx:426 | the month is what `parseInt` gives for the captured month digits, and is below 100 |
| PostFilter.DateTagShape | src/App.tsx:425-426 | a captured year is four digits and a month is at most 99 |
| PostFilter.ExtractDate | src/App.tsx:422 | a date found has a four-digit year text and a month below 100, and lies within the subject |
| PostFilter.ExtractDateLeftmost | src/App.tsx:422-426 | the date found is the leftmost tag of the subject, read with two month digits whenever two are there; its year is that tag's year text and its month that tag's month value |
| PostFilter.ExtractDateFindsTags | src/App.tsx:422-423 | a subject yields a date exactly when some part of it is a `[dddd.d]` or `[dddd.dd]` tag |
| PostFilter.QuarterMonthsAreCalendarQuarters | src/App.tsx:431-436 | the quarter map assigns each of the months 1 to 12 to its calendar quarter, and no other number to any quarter |
| PostFilter.QuarterMonths | src/App.tsx:431-436 | each quarter of the quarter map lists three months, all between 1 and 12 |
| PostFilter.Keep | src/App.tsx:421-444 | a post passes only if its subject holds a date tag; under a year filter its tag has that year text, and under a quarter filter its month lies between 1 and 12 |
| PostFilter.FilterPosts | src/App.tsx:418-445 | `undefined` gives `[]`; otherwise the result is no longer than the feed and every post in it passes every filter that is set |
| PostFilter.FilterPostsExact | src/App.tsx:418-445 | each post that passes is kept as often as it occurs and every other post is dropped; filtering concatenated feeds concatenates the results, so the feed order is kept |
| PostFilter.NoFilterKeepsTagged | src/App.tsx:422-443 | with no filter set, a post is kept exactly when its subject holds a date tag |
| PostFilter.UntaggedDropped | src/App.tsx:422-423 | a post without a date tag is dropped whatever the filters say |
| PostFilter.YearSelectsYear | src/App.tsx:428 | a year filter keeps exactly the tagged posts whose year text equals it |
| PostFilter.QuarterSelectsQuarter | src/App.tsx:430-439 | a quarter filter keeps exactly the tagged posts whose month lies in that quarter |
| PostFilter.MonthSelectsMonth | src/App.tsx:441 | the month filter's two-digit value for `m` (`"01"`..`"12"`) keeps exactly the tagged posts of month `m` |
| PostFilter.NaNMonthDropsAll | src/App.tsx:441 | a month value `parseInt` reads as `NaN` drops every post |
| PostFilter.PrefixYear | src/App.tsx:350 | the year is what `parseInt` gives for the four captured digits, and lies between 0 and 9999 |
| PostFilter.LeadingYear | src/App.tsx:348-350 | the year read from a subject lies between 0 and 9999 |
| PostFilter.LeadingYearFindsPrefix | src/App.tsx:348-350 | a subject yields a year exactly when it holds a `[dddd.` prefix, and the year is the one of the leftmost prefix |
| JsArray.CollectMembers | src/App.tsx:346-352 | a value is in the `Set` the `forEach` fills exactly when some element yields it |
| PostFilter.YearSetMembers | src/App.tsx:346-352 | a year is in the set exactly when some post's subject yields it |
| PostFilter.TaggedSubjectYieldsYear | src/App.tsx:348 | every subject the filter can keep also yields a year |
| PostFilter.SelectorYearOfExample | src/App.tsx:348-350 | the year selector reads 2023 from `[2023.][2024.5]` |
| PostFilter.FilterDateOfExample | src/App.tsx:422-426 | the filter reads year `"2024"` and month 5 from `[2023.][2024.5]` |
| PostFilter.ScannersDisagree | src/App.tsx:348-350 | the year selector's scanner (line 348) and the filter's scanner (line 422) may read different years from one subject |
| PostFilter.SingleYearSet | src/App.tsx:346-352 | a one-post feed offers exactly the year that post yields |
| PostFilter.OtherYearDropped | src/App.tsx:428 | a tagged post whose year text differs from the chosen year is filtered out |
| PostFilter.SelectorYearFilteredOut | src/App.tsx:346-352 | for a post with subject `[2023.][2024.5]` the selector offers 2023 and nothing else, yet choosing 2023 filters the post out (the filter is at lines 418-445) |
| PostViews.SortedViewOrdered | src/App.tsx:377-383 | the table rows are ordered on the sort column in the sort direction |
| PostViews.SortedViewContents | src/App.tsx:377-383 | the table rows hold each post that passes the filters as often as the feed does, and nothing else |
| PostViews.SortedViewStable | src/App.tsx:377-383 | posts that tie on the sort column keep the feed order |
| PostViews.GetSortedPosts | src/App.tsx:377-383 | the array copy sorted in place is the stable sort of the filtered posts; it is ordered on the column, a permutation of the filtered posts, and every row passes the filters |
| PostViews.YearsCompareIsRankDifference | src/App.tsx:354 | `(a, b) => b - a` sorts by ascending `-year` |
| PostViews.DistinctSnoc | src/App.tsx:350 | adding a year the list lacks keeps every year in it once, as `Set.prototype.add` does |
| PostViews.SortedDistinctDescending | src/App.tsx:354 | distinct years sorted by that comparator are strictly descending |
| PostViews.CollectYears | src/App.tsx:346-352 | the `forEach` that fills the `Set` collects each year once, and exactly the years some subject yields |
| PostViews.GetAvailableYears | src/App.tsx:343-355 | a missing or empty feed gives `[currentYear]`; otherwise a strictly descending list holding exactly the years some subject's leftmost `[dddd.` prefix gives |
| Visualization.TopList | src/App.tsx:271 | the chart list has `min(75, n)` entries when the chart is handed `n` posts (the filtered feed, line 570) |
| Visualization.TopListOrdered | src/App.tsx:271 | the chart list is non-increasing in votes |
| Visualization.TopListFromFeed | src/App.tsx:271 | every post of the chart list is one of the posts handed to the chart, with multiplicity |
| Visualization.TopListShowsMostVoted | src/App.tsx:271 | every post handed to the chart with more votes than the last one shown is shown |
| Visualization.TopVoted | src/App.tsx:271 | sorting a copy of the posts handed to the chart in place and slicing gives the chart list: its length, vote order and origin |
| Visualization.VotesCompareIsRankDifference | src/App.tsx:271 | `(a, b) => b.votes - a.votes` sorts by ascending `-votes` |
| Visualization.Round | src/App.tsx:287 | `Math.round` returns the integer within a half of its argument, halves rounding up |
| Visualization.RoundMonotone | src/App.tsx:287 | rounding preserves order |
| Visualization.CalculateFontSize | src/App.tsx:279-288 | first place gets 64; every other place at least 12; at most 48, and so below the first place, whenever the exponential factor is at most 1 |
| Visualization.FontSizeNonIncreasing | src/App.tsx:279-288 | with a non-decreasing `exp` and `exp(0) <= 1`, a later place never gets a larger font |
| Visualization.SecondPlaceFontSize | src/App.tsx:279-288 | with `exp(0) = 1`, second place gets the full 48 |
| Visualization.TwentySixthPlaceFontSize | src/App.tsx:279-288 | with `exp(-1)` between 0.3646 and 0.385, place 26 gets 18 |
| Visualization.SmallFactorGivesMinimum | src/App.tsx:279-288 | once `Math.round(48 * factor)` falls below 12, the size is 12 |
| Visualization.TitleTagAt | src/App.tsx:292 | `\[\d{4}\.\d+\](\[.*?\])?` matches at a position exactly when a base tag lies there; the base tag has one possible end, and the optional group is taken whenever it can close at its first `]` before any line terminator |
| Visualization.StripTitleTag | src/App.tsx:292 | the replace either leaves the subject as it is or removes at least the eight characters of a `[dddd.d]` tag |
| Visualization.StripWithoutTag | src/App.tsx:292 | a subject without a title tag is left unchanged |
| Visualization.StripRemovesLeftmostTag | src/App.tsx:292 | the text removed is the leftmost title tag with its group when it has one; the text before and after is kept |
| Visualization.SeparatorCount | src/App.tsx:295 | the count is zero exactly when neither `/` nor the fullwidth `／` occurs |
| Visualization.TitleRemainder | src/App.tsx:292 | the subject with its title tag removed and trimmed has no edge white space and is no longer than the subject |
| Visualization.FirstSeparator | src/App.tsx:303 | `split(/[/／]/)[0]` ends at the first separator, or at the end when there is none |
| Visualization.FirstSegment | src/App.tsx:303 | the first segment, trimmed, holds no separator and no edge space; it is the text before the first separator less the white space around it |
| Visualization.FirstSegmentWithoutSeparator | src/App.tsx:303 | a trimmed string without a separator is its own first segment |
| Visualization.ProcessMovieTitle | src/App.tsx:290-304 | the title never starts or ends with white space; with exactly one separator it is the whole trimmed remainder, otherwise the first segment, which is the whole remainder when there is no separator |

## Left out

- Fetching the feed with `useSWR` and `fetcher`, and the loading and error screens: network I/O.
- React rendering, the scroll listener, `scrollToTop`, the row animation with its `IntersectionObserver`, and the styled components: DOM glue without logic.
- `handleYearChange`, `handleQuarterChange` and `handleMonthChange` store the selector value. Choosing a quarter clears the month, and choosing a month clears the quarter (`src/App.tsx:408-416`). The filter is modelled on any combination of values, including the ones the page produces.
- `calculateColor` and `generateThreadUrl`: colour arithmetic on floats and URL templating.
- `new Date().getFullYear()`: the clock becomes the `currentYear` parameter of `PostViews.GetAvailableYears`.
- `Math.exp`: the exponential is the parameter `exp`, and the font-size lemmas state what they need of it.
- Post fields: the scores and the standard deviation are floating point in the feed; the model uses integers. A comparator returning `NaN` is therefore out of scope.
- Visualization.Round: the model works on unbounded reals; float rounding error in `48 * factor` is not modelled.
- JsText.ParseInt: numbers above 2^53 lose precision in JavaScript; the model keeps them exact. A post's month is at most 99, so no filter outcome depends on this.
- PostFilter.Query: the quarter is `Q1`..`Q4` or unset. The source throws when the quarter selector holds any other non-empty string; its selector never offers one.
- `Array.prototype.sort` is modelled as an insertion sort proved equal to a stable sort. The engine's own algorithm and comparison sequence are not modelled; only its stable result is.
- `src/App.tsx` has no search box and no pagination; the table shows every filtered post.
- Strings are sequences of Unicode code points, where JavaScript uses UTF-16 code units. The patterns here only test ASCII characters, `／` and line terminators, and `.` consumes both halves of a surrogate pair, so no result depends on the difference.

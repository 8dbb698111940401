# git-wrapped: the commit-summary logic, modelled in Dafny

git-wrapped walks a repository's commits and keeps those by a given set of
author addresses within a year. It then prints a summary of them: the number of
commits, the commits made earliest and latest in the day, the average numbers
of lines added and deleted, and the busiest day. This project models that logic
apart from git and the clock, and proves what it computes.

A commit is a plain record (`Commits.Commit`). It holds an author address, an
author timestamp in seconds, the author's clock fields (hour, minute, second),
the day of the year, and either the per-file `(addition, deletion)` pairs or a
"statistics failed" value carrying the error text.

- `commits.dfy`: the record, `Option`/`Result`, and `timeToInt`, the
  time-of-day key `hour*10000 + minute*100 + second`.
- `filter.dfy`: `findRelevantCommits` as a loop over the walked history. It is
  proved equal to a reference selection function, and that function is proved
  to be an order-preserving selection of exactly the matching commits.
- `aggregate.dfy`: `analyze` as one loop with the source's running variables.
  Its contract states each output as a property of the input:
  - the count is the input length;
  - earliest and latest are the first commits with the minimal and maximal
    key;
  - each average is the total divided by the count, truncated toward zero as
    Go's `/` does;
  - the day grouping equals a reference partition;
  - the first failing statistics stop the pass with that error.
- `report.dfy`: the running maximum at the top of `buildOutput`, and the two
  figures of the busiest-day line.
- `authors.dfy`: `strings.Split` on commas, with round-trip lemmas, and the
  loop in `main` that fills the author set.
- `wrapped.dfy`: `getWrapped` from the filter onward. This includes the
  "no commits were found" error.

Behaviour kept as the code has it:
- The year window is built from one minute past local midnight of Jan 1 and
  one minute past local midnight of Dec 31. Both comparisons are strict. So
  the first minute of the year, and everything on Dec 31 at or after 00:01, is
  excluded (`Filter.FirstMinuteExcluded`, `Filter.LastDayExcluded`). The
  code excludes both bounds, and the model follows the code.
- "Earliest" and "latest" rank commits by time of day, not by date. Ties go
  to the first commit, because the comparisons are strict.
- The busiest day is the first strictly longest bucket in the order in which
  the buckets are walked. Go does not specify a map's iteration order, so
  `Report.MostDay` is proved for every order that lists each key. The driver
  walks the days in the order their first commit appears.
- Once `findRelevantCommits` has obtained the commit iterator, it returns a
  nil error: the walk's own error is dropped. Failing to obtain the iterator
  (main.go:83-84, then main.go:59-60) is not modelled.
- `strings.Split` never returns an empty list. So the author set is never
  empty, and the "no valid author emails" exit in `main` cannot be reached
  (`Authors.AuthorSet`).

## Model

| member | source | states |
|---|---|---|
| `Commits.TimeToInt` | main.go:114-116 | no contract of its own: the clock read as the decimal number hhmmss; its properties are the three `TimeToInt*` lemmas below |
| `Commits.TimeToIntRange` | main.go:114-116 | for valid clock fields the key lies in [0, 235959] |
| `Commits.TimeToIntOrder` | main.go:114-116 | for valid clocks, key(a) < key(b) exactly when a's (hour, minute, second) comes first lexicographically |
| `Commits.TimeToIntInjective` | main.go:114-116 | for valid clocks, equal keys mean equal hour, minute and second |
| `Filter.YearWindow` | main.go:79-80 | no contract of its own: the window bounds lie one minute past the local midnights of Jan 1 and Dec 31; `Filter.FirstMinuteExcluded` and `Filter.LastDayExcluded` state what they exclude |
| `Filter.MatchingIndicesExact` | main.go:88-100 | the matching positions are in range, strictly increasing, and are exactly the positions whose commit passes the test |
| `Filter.RelevantIsOrderedSelection` | main.go:88-100 | the filtered list is the history at a strictly increasing list of positions; the positions listed are exactly those whose commit passes the test |
| `Filter.RelevantMembership` | main.go:90-94 | a commit is kept iff it is in the history, its address is in the author set and start < when < end, both strict |
| `Filter.FirstMinuteExcluded` | main.go:79-91 | a commit in the first minute after local midnight of Jan 1 (bound included) is never kept |
| `Filter.LastDayExcluded` | main.go:80-91 | a commit at or after 00:01 on Dec 31 is never kept |
| `Filter.FindRelevantCommits` | main.go:78-101 | the loop returns the reference selection, keeps exactly the in-window commits of listed authors, and returns the error None whatever the walk reported |
| `Aggregate.EarliestIsFirst` | main.go:133-138 | the earliest position comes no later than any position with an equal or smaller key (first minimum wins) |
| `Aggregate.EarliestIsUnique` | main.go:133-138 | at most one position satisfies the earliest-commit rule |
| `Aggregate.LatestIsFirst` | main.go:140-144 | the latest position comes no later than any position with an equal or larger key (first maximum wins) |
| `Aggregate.LatestIsUnique` | main.go:140-144 | at most one position satisfies the latest-commit rule |
| `Aggregate.Quotient` | main.go:165-166 | for a >= 0 and n > 0 the result is the natural number q with q*n <= a < q*n + n |
| `Aggregate.TruncDiv` | main.go:165-166 | the quotient truncates toward zero: for a >= 0, q >= 0 and q*n <= a < q*n + n; for a < 0, q <= 0 and q*n - n < a <= q*n |
| `Aggregate.SumFiles` | main.go:150-153 | the inner loop returns the sums of the additions and of the deletions over a commit's files |
| `Aggregate.FileTotalsNonNegative` | main.go:150-153 | with no negative per-file counts, a commit's addition and deletion sums are non-negative |
| `Aggregate.TotalsNonNegative` | main.go:150-153 | with no negative per-file counts, the totals over all commits are non-negative |
| `Aggregate.AveragesNonNegative` | main.go:165-166 | with no negative per-file counts, both averages are non-negative |
| `Aggregate.DayCommitsEmpty` | main.go:155-162 | a day's bucket is empty exactly when no commit has that day of the year |
| `Aggregate.DayCommitsOnDay` | main.go:155-162 | every commit in a day's bucket is an input commit of that day |
| `Aggregate.GroupByDayAppend` | main.go:155-162 | adding one commit to the grouping appends it to its day's list, or starts a one-element list for a new day |
| `Aggregate.FirstSeenDays` | main.go:155-162 | lists each day that occurs exactly once, and no other day; its length is the number of distinct days |
| `Aggregate.FirstSeenDaysSnoc` | main.go:155-162 | one more commit either leaves the list of days as it was or appends its day, which was not listed before |
| `Aggregate.FirstSeenDaysPrefix` | main.go:155-162 | the days are listed in the order of their first commit: the list for any prefix of the history is an initial segment of the list for the whole history |
| `Aggregate.GroupByDayTotal` | main.go:155-162 | the bucket lengths, taken once per day, sum to the number of commits |
| `Aggregate.GroupByDayPartition` | main.go:155-162 | the grouping's keys are exactly the days that occur; every bucket is non-empty and holds only commits of its day; the bucket lengths sum to the commit count |
| `Aggregate.Analyze` | main.go:118-169 | for a non-empty input: an error iff some statistics fail, and then the first failing commit's error; otherwise count = length, earliest/latest = the first commit with minimal/maximal key, averages = truncated total / count, grouping = the reference partition |
| `Report.MostDay` | main.go:172-178 | for any key order listing every key: the result is at least as long as every bucket, and it is either empty or the first bucket in that order with that length |
| `Report.BusiestDay` | main.go:187-189 | the line is present iff the grouping is non-empty; it then gives the first commit's timestamp and the length of a maximal bucket, the first such bucket in walk order |
| `Authors.Split` | main.go:33 | splitting yields at least one piece and no piece contains the separator |
| `Authors.JoinSplit` | main.go:33 | joining the pieces with the separator gives the input back |
| `Authors.SplitPrefix` | main.go:33 | a separator-free prefix joins the first piece of what follows it |
| `Authors.SplitJoin` | main.go:33 | splitting a join of separator-free pieces gives back the pieces |
| `Authors.AuthorSet` | main.go:32-42 | the set is exactly the trimmed pieces of the flag value; it holds the first piece's trimmed form, so it is never empty |
| `Wrapped.FirstSeenOrder` | main.go:155-162 | the days listed in the order of their first commit name every key of the grouping once, and every bucket is non-empty |
| `Wrapped.GetWrapped` | main.go:51-76 | the empty-selection error when nothing matches; otherwise the aggregation's error iff some statistics fail; on success, the summary of the selection and a busiest-day line taken from a real bucket: its first commit's timestamp and its length, which is positive and maximal |

## Left out

- Opening the repository, iterating its commit objects and closing the
  iterator (main.go:53, 82-86): the walked history is an input sequence, plus
  the error that stopped the walk, if any. The error of `CommitObjects` itself
  is not modelled.
- `commit.Stats()` (main.go:146) is a diff computation in a library. Each
  commit carries its per-file pairs or a failure value instead.
- `time.Date`, `time.Local`, `Hour`, `Minute`, `Second` and `YearDay`
  (main.go:79-80, 115, 156) come from a calendar library. The clock fields and
  the day of the year are record fields. The two local midnights are
  parameters of `Filter.YearWindow`.
- `strings.TrimSpace` (main.go:35) is a function parameter of
  `Authors.AuthorSet`.
- Flag parsing, usage text and `os.Exit` (main.go:15-30, 38-48, 45-47).
- Text formatting and printing in `buildOutput` (main.go:180-192), including
  hashes, messages and the no-op `mostDay[0].Type()` call. Only the figures of
  the busiest-day line are modelled.
- The unused `Largest` and `Smallest` fields (main.go:107-108).
- Analyze: `TotalCommits`, the running totals and the averages are unbounded
  integers. Go's `int64` wrap-around is not modelled, because no real history
  reaches it.
- Report.MostDay: the order of a Go map walk is an explicit parameter. The
  model cannot ask which order Go would pick.

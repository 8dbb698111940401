/** analyze: one pass over the relevant commits that counts them, finds the
    commits made earliest and latest in the day, totals the line counts,
    groups the commits by day of the year and averages the totals. */
module Aggregate {
  import opened Commits

  /** The summary built by the pass. */
  datatype Summary = Summary(
    totalCommits: int,
    earliest: Commit,
    latest: Commit,
    averageAdditions: int,
    averageDeletions: int,
    byDay: map<int, seq<Commit>>)

  /** The statistics of the first n commits were computed. */
  predicate ComputedBefore(cs: seq<Commit>, n: int)
  {
    n <= |cs| && forall i {:trigger cs[i].stats} :: 0 <= i < n ==> cs[i].stats.Computed?
  }

  predicate AllStatsOk(cs: seq<Commit>)
  {
    ComputedBefore(cs, |cs|)
  }

  /** k is the first commit whose statistics could not be computed. */
  predicate FirstFailure(cs: seq<Commit>, k: int)
  {
    0 <= k < |cs| && cs[k].stats.Failed? && ComputedBefore(cs, k)
  }

  /** Among the first n commits, k is the first position whose time-of-day
      key is minimal. Before any commit is seen (n = 0) only position 0, the
      pass's starting value, qualifies. */
  predicate EarliestAmong(cs: seq<Commit>, n: int, k: int)
  {
    && 0 <= k < |cs| && k <= n <= |cs|
    && (forall j {:trigger TimeOfDay(cs[j])} :: 0 <= j < n ==> TimeOfDay(cs[k]) <= TimeOfDay(cs[j]))
    && (forall j {:trigger TimeOfDay(cs[j])} :: 0 <= j < k ==> TimeOfDay(cs[k]) < TimeOfDay(cs[j]))
  }

  /** Among the first n commits, k is the first position whose time-of-day
      key is maximal; for n = 0 only position 0 qualifies. */
  predicate LatestAmong(cs: seq<Commit>, n: int, k: int)
  {
    && 0 <= k < |cs| && k <= n <= |cs|
    && (forall j {:trigger TimeOfDay(cs[j])} :: 0 <= j < n ==> TimeOfDay(cs[j]) <= TimeOfDay(cs[k]))
    && (forall j {:trigger TimeOfDay(cs[j])} :: 0 <= j < k ==> TimeOfDay(cs[j]) < TimeOfDay(cs[k]))
  }

  /** k is the first position whose time-of-day key is minimal. */
  predicate IsEarliest(cs: seq<Commit>, k: int)
  {
    EarliestAmong(cs, |cs|, k)
  }

  /** k is the first position whose time-of-day key is maximal. */
  predicate IsLatest(cs: seq<Commit>, k: int)
  {
    LatestAmong(cs, |cs|, k)
  }

  /** The earliest position comes before every other position whose key is
      as small: ties go to the first commit. */
  lemma EarliestIsFirst(cs: seq<Commit>, k: int, j: int)
    requires IsEarliest(cs, k) && 0 <= j < |cs| && TimeOfDay(cs[j]) <= TimeOfDay(cs[k])
    ensures k <= j
  {
  }

  /** Hence the tie rule leaves no choice. */
  lemma EarliestIsUnique(cs: seq<Commit>, k1: int, k2: int)
    requires IsEarliest(cs, k1) && IsEarliest(cs, k2)
    ensures k1 == k2
  {
    EarliestIsFirst(cs, k1, k2);
    EarliestIsFirst(cs, k2, k1);
  }

  /** The latest position comes before every other position whose key is as
      large. */
  lemma LatestIsFirst(cs: seq<Commit>, k: int, j: int)
    requires IsLatest(cs, k) && 0 <= j < |cs| && TimeOfDay(cs[k]) <= TimeOfDay(cs[j])
    ensures k <= j
  {
  }

  lemma LatestIsUnique(cs: seq<Commit>, k1: int, k2: int)
    requires IsLatest(cs, k1) && IsLatest(cs, k2)
    ensures k1 == k2
  {
    LatestIsFirst(cs, k1, k2);
    LatestIsFirst(cs, k2, k1);
  }

  function FileAdditions(files: seq<FileStat>): int
  {
    if files == [] then 0 else FileAdditions(files[..|files| - 1]) + files[|files| - 1].addition
  }

  function FileDeletions(files: seq<FileStat>): int
  {
    if files == [] then 0 else FileDeletions(files[..|files| - 1]) + files[|files| - 1].deletion
  }

  /** A commit's own lines added and deleted; a commit whose statistics
      failed adds nothing (the pass stops at it before adding). */
  function CommitAdditions(c: Commit): int
  {
    if c.stats.Computed? then FileAdditions(c.stats.files) else 0
  }

  function CommitDeletions(c: Commit): int
  {
    if c.stats.Computed? then FileDeletions(c.stats.files) else 0
  }

  /** Lines added over every file of every commit. */
  function TotalAdditions(cs: seq<Commit>): int
  {
    if cs == [] then 0 else TotalAdditions(cs[..|cs| - 1]) + CommitAdditions(cs[|cs| - 1])
  }

  /** Lines deleted over every file of every commit. */
  function TotalDeletions(cs: seq<Commit>): int
  {
    if cs == [] then 0 else TotalDeletions(cs[..|cs| - 1]) + CommitDeletions(cs[|cs| - 1])
  }

  /** The quotient of a non-negative number by a positive one, by repeated
      subtraction. */
  function Quotient(a: nat, n: int): (q: nat)
    requires n > 0
    ensures q * n <= a < q * n + n
    decreases a
  {
    if a < n then 0 else 1 + Quotient(a - n, n)
  }

  /** Integer division as Go's `/` does it: the quotient is truncated toward
      zero, so it has the sign of the dividend and the remainder takes the
      sign of the dividend too. */
  function TruncDiv(a: int, n: int): (q: int)
    requires n > 0
    ensures 0 <= a ==> 0 <= q && q * n <= a < q * n + n
    ensures a < 0 ==> q <= 0 && q * n - n < a <= q * n
  {
    if a >= 0 then Quotient(a, n)
    else
      var p: int := Quotient(-a, n);
      assert -p * n == -(p * n);
      -p
  }

  predicate NonNegativeCounts(cs: seq<Commit>)
  {
    forall i, j :: 0 <= i < |cs| && cs[i].stats.Computed? && 0 <= j < |cs[i].stats.files| ==>
      cs[i].stats.files[j].addition >= 0 && cs[i].stats.files[j].deletion >= 0
  }

  lemma {:induction false} FileTotalsNonNegative(files: seq<FileStat>)
    requires forall j :: 0 <= j < |files| ==> files[j].addition >= 0 && files[j].deletion >= 0
    ensures FileAdditions(files) >= 0 && FileDeletions(files) >= 0
  {
    if files != [] {
      FileTotalsNonNegative(files[..|files| - 1]);
    }
  }

  lemma {:induction false} TotalsNonNegative(cs: seq<Commit>)
    requires NonNegativeCounts(cs)
    ensures TotalAdditions(cs) >= 0 && TotalDeletions(cs) >= 0
  {
    if cs != [] {
      var n := |cs| - 1;
      assert NonNegativeCounts(cs[..n]) by {
        assert forall i :: 0 <= i < n ==> cs[..n][i] == cs[i];
      }
      TotalsNonNegative(cs[..n]);
      if cs[n].stats.Computed? {
        FileTotalsNonNegative(cs[n].stats.files);
      }
    }
  }

  /** With no negative per-file count, both averages are non-negative. */
  lemma AveragesNonNegative(cs: seq<Commit>)
    requires |cs| > 0 && NonNegativeCounts(cs)
    ensures TruncDiv(TotalAdditions(cs), |cs|) >= 0
    ensures TruncDiv(TotalDeletions(cs), |cs|) >= 0
  {
    TotalsNonNegative(cs);
  }

  /** The days of the year on which some commit was made. */
  function DaysOf(cs: seq<Commit>): set<int>
  {
    if cs == [] then {} else DaysOf(cs[..|cs| - 1]) + {cs[|cs| - 1].yearDay}
  }

  /** The commits made on day d, in input order. */
  function DayCommits(cs: seq<Commit>, d: int): seq<Commit>
  {
    if cs == [] then []
    else
      var c := cs[|cs| - 1];
      DayCommits(cs[..|cs| - 1], d) + (if c.yearDay == d then [c] else [])
  }

  /** The day-of-year grouping as a reference definition: one bucket per day
      that occurs, listing that day's commits in input order. */
  function GroupByDay(cs: seq<Commit>): map<int, seq<Commit>>
  {
    map d | d in DaysOf(cs) :: DayCommits(cs, d)
  }

  /** A day's bucket is empty exactly when no commit was made that day. */
  lemma {:induction false} DayCommitsEmpty(cs: seq<Commit>, d: int)
    ensures DayCommits(cs, d) == [] <==> d !in DaysOf(cs)
  {
    if cs != [] {
      var n := |cs| - 1;
      DayCommitsEmpty(cs[..n], d);
      assert cs == cs[..n] + [cs[n]];
      assert DaysOf(cs) == DaysOf(cs[..n]) + {cs[n].yearDay};
    }
  }

  /** Every commit in a bucket was made on that bucket's day. */
  lemma {:induction false} DayCommitsOnDay(cs: seq<Commit>, d: int)
    ensures forall c :: c in DayCommits(cs, d) ==> c in cs && c.yearDay == d
  {
    if cs != [] {
      var n := |cs| - 1;
      DayCommitsOnDay(cs[..n], d);
    }
  }

  /** Appending one commit updates the grouping as the loop body of analyze
      does: append to the day's list, or start a list of one. */
  lemma GroupByDayAppend(cs: seq<Commit>, c: Commit)
    ensures var g := GroupByDay(cs);
      GroupByDay(cs + [c]) ==
        if c.yearDay in g then g[c.yearDay := g[c.yearDay] + [c]] else g[c.yearDay := [c]]
  {
    var cs' := cs + [c];
    var g := GroupByDay(cs);
    var g' := if c.yearDay in g then g[c.yearDay := g[c.yearDay] + [c]] else g[c.yearDay := [c]];
    assert cs'[..|cs'| - 1] == cs;
    assert DaysOf(cs') == DaysOf(cs) + {c.yearDay};
    DayCommitsEmpty(cs, c.yearDay);
    forall e | e in DaysOf(cs')
      ensures DayCommits(cs', e) == g'[e]
    {
      assert DayCommits(cs', e) == DayCommits(cs, e) + (if c.yearDay == e then [c] else []);
    }
    assert g.Keys == DaysOf(cs);
    assert g'.Keys == DaysOf(cs');
    assert GroupByDay(cs').Keys == DaysOf(cs');
  }

  /** The days that occur, each once, in the order of their first commit. */
  function FirstSeenDays(cs: seq<Commit>): (days: seq<int>)
    ensures forall d :: d in days <==> d in DaysOf(cs)
    ensures forall i, j :: 0 <= i < j < |days| ==> days[i] != days[j]
    ensures |days| == |DaysOf(cs)|
  {
    if cs == [] then []
    else
      var days := FirstSeenDays(cs[..|cs| - 1]);
      var d := cs[|cs| - 1].yearDay;
      if d in days then
        assert DaysOf(cs) == DaysOf(cs[..|cs| - 1]);
        days
      else
        days + [d]
  }

  /** One commit more leaves the listed days in place and appends its day
      when that day is new. */
  lemma FirstSeenDaysSnoc(cs: seq<Commit>)
    requires |cs| > 0
    ensures var pre, days := FirstSeenDays(cs[..|cs| - 1]), FirstSeenDays(cs);
      && |pre| <= |days| <= |pre| + 1
      && days[..|pre|] == pre
      && (|days| == |pre| + 1 ==> days[|pre|] == cs[|cs| - 1].yearDay && cs[|cs| - 1].yearDay !in pre)
  {
    var pre := FirstSeenDays(cs[..|cs| - 1]);
    if cs[|cs| - 1].yearDay !in pre {
      assert (pre + [cs[|cs| - 1].yearDay])[..|pre|] == pre;
    }
  }

  /** A prefix of a prefix of a sequence is a prefix of it. */
  lemma PrefixOfPrefix(part: seq<int>, pre: seq<int>, s: seq<int>)
    requires |pre| <= |s| && s[..|pre|] == pre
    requires |part| <= |pre| && pre[..|part|] == part
    ensures |part| <= |s| && s[..|part|] == part
  {
    assert s[..|part|] == s[..|pre|][..|part|];
  }

  /** The days are listed in the order of their first commit: the days of
      any prefix of the history, listed, begin the list for the whole
      history. */
  lemma {:induction false} FirstSeenDaysPrefix(cs: seq<Commit>, m: int)
    requires 0 <= m <= |cs|
    ensures |FirstSeenDays(cs[..m])| <= |FirstSeenDays(cs)|
    ensures FirstSeenDays(cs)[..|FirstSeenDays(cs[..m])|] == FirstSeenDays(cs[..m])
    decreases |cs|
  {
    if m < |cs| {
      var init := cs[..|cs| - 1];
      assert init[..m] == cs[..m];
      FirstSeenDaysPrefix(init, m);
      FirstSeenDaysSnoc(cs);
      PrefixOfPrefix(FirstSeenDays(cs[..m]), FirstSeenDays(init), FirstSeenDays(cs));
    } else {
      assert cs[..m] == cs;
    }
  }

  /** The sum of the bucket lengths of m along the given days. */
  function BucketTotal(m: map<int, seq<Commit>>, days: seq<int>): int
  {
    if days == [] then 0
    else
      var d := days[|days| - 1];
      BucketTotal(m, days[..|days| - 1]) + (if d in m then |m[d]| else 0)
  }

  /** Replacing one bucket changes the total by the change in that bucket's
      length, provided the day is listed at most once. */
  lemma {:induction false} BucketTotalUpdate(m: map<int, seq<Commit>>, days: seq<int>, d: int, v: seq<Commit>)
    requires forall i, j :: 0 <= i < j < |days| ==> days[i] != days[j]
    ensures BucketTotal(m[d := v], days) ==
      BucketTotal(m, days) + (if d in days then |v| - (if d in m then |m[d]| else 0) else 0)
  {
    if days != [] {
      var n := |days| - 1;
      BucketTotalUpdate(m, days[..n], d, v);
      assert d == days[n] ==> d !in days[..n];
      assert d in days <==> d in days[..n] || d == days[n];
    }
  }

  lemma {:induction false} GroupByDayTotal(cs: seq<Commit>)
    ensures BucketTotal(GroupByDay(cs), FirstSeenDays(cs)) == |cs|
  {
    if cs != [] {
      var n := |cs| - 1;
      var init, c := cs[..n], cs[n];
      assert cs == init + [c];
      GroupByDayTotal(init);
      GroupByDayAppend(init, c);
      var g, days := GroupByDay(init), FirstSeenDays(init);
      if c.yearDay in g {
        BucketTotalUpdate(g, days, c.yearDay, g[c.yearDay] + [c]);
      } else {
        var g' := g[c.yearDay := [c]];
        BucketTotalUpdate(g, days, c.yearDay, [c]);
        assert (days + [c.yearDay])[..|days|] == days;
        assert BucketTotal(g', days + [c.yearDay]) == BucketTotal(g', days) + 1;
      }
    }
  }

  /** The grouping is a partition of the commits by day of the year: its keys
      are exactly the days that occur, no bucket is empty, each bucket holds
      only commits of its day, and the bucket lengths, taken once per day, add
      up to the number of commits. */
  lemma GroupByDayPartition(cs: seq<Commit>)
    ensures GroupByDay(cs).Keys == DaysOf(cs)
    ensures forall d :: d in GroupByDay(cs) ==> |GroupByDay(cs)[d]| > 0
    ensures forall d, c :: d in GroupByDay(cs) && c in GroupByDay(cs)[d] ==> c in cs && c.yearDay == d
    ensures forall d :: d in GroupByDay(cs) <==> d in FirstSeenDays(cs)
    ensures |FirstSeenDays(cs)| == |GroupByDay(cs)|
    ensures BucketTotal(GroupByDay(cs), FirstSeenDays(cs)) == |cs|
  {
    forall d | d in DaysOf(cs)
      ensures |DayCommits(cs, d)| > 0
      ensures forall c :: c in DayCommits(cs, d) ==> c in cs && c.yearDay == d
    {
      DayCommitsEmpty(cs, d);
      DayCommitsOnDay(cs, d);
    }
    GroupByDayTotal(cs);
  }

  /** One step of the grouping, stated on prefixes of the input. */
  lemma GroupByDayStep(cs: seq<Commit>, i: int)
    requires 0 <= i < |cs|
    ensures var g := GroupByDay(cs[..i]);
      GroupByDay(cs[..i + 1]) ==
        if cs[i].yearDay in g then g[cs[i].yearDay := g[cs[i].yearDay] + [cs[i]]] else g[cs[i].yearDay := [cs[i]]]
  {
    assert cs[..i + 1] == cs[..i] + [cs[i]];
    GroupByDayAppend(cs[..i], cs[i]);
  }

  /** One step of the running minimum: a strictly smaller key takes over. */
  lemma EarliestStep(cs: seq<Commit>, i: int, k: int)
    requires 0 <= i < |cs|
    requires EarliestAmong(cs, i, k)
    ensures EarliestAmong(cs, i + 1, if TimeOfDay(cs[i]) < TimeOfDay(cs[k]) then i else k)
  {
  }

  /** One step of the running maximum: a strictly larger key takes over. */
  lemma LatestStep(cs: seq<Commit>, i: int, k: int)
    requires 0 <= i < |cs|
    requires LatestAmong(cs, i, k)
    ensures LatestAmong(cs, i + 1, if TimeOfDay(cs[i]) > TimeOfDay(cs[k]) then i else k)
  {
  }

  /** One step of the running totals over a commit whose statistics succeeded. */
  lemma TotalsStep(cs: seq<Commit>, i: int)
    requires 0 <= i < |cs| && cs[i].stats.Computed?
    ensures TotalAdditions(cs[..i + 1]) == TotalAdditions(cs[..i]) + FileAdditions(cs[i].stats.files)
    ensures TotalDeletions(cs[..i + 1]) == TotalDeletions(cs[..i]) + FileDeletions(cs[i].stats.files)
  {
    assert cs[..i + 1][..i] == cs[..i];
  }

  /** The inner loop of the aggregation pass: the additions and deletions of
      one commit's files. */
  method SumFiles(files: seq<FileStat>) returns (additions: int, deletions: int)
    ensures additions == FileAdditions(files)
    ensures deletions == FileDeletions(files)
  {
    additions, deletions := 0, 0;
    for j := 0 to |files|
      invariant additions == FileAdditions(files[..j])
      invariant deletions == FileDeletions(files[..j])
    {
      additions := additions + files[j].addition;
      deletions := deletions + files[j].deletion;
      assert files[..j + 1][..j] == files[..j];
    }
    assert files[..|files|] == files;
  }

  /** What the pass promises of a summary of a non-empty list: the count is
      the length; earliest and latest are the first commits with the minimal
      and the maximal key; each average is the total divided by the count,
      truncated toward zero; the day grouping is the reference partition. */
  predicate SummaryOf(cs: seq<Commit>, s: Summary)
  {
    && |cs| > 0
    && s.totalCommits == |cs|
    && (exists k :: 0 <= k < |cs| && IsEarliest(cs, k) && s.earliest == cs[k])
    && (exists k :: 0 <= k < |cs| && IsLatest(cs, k) && s.latest == cs[k])
    && s.averageAdditions == TruncDiv(TotalAdditions(cs), |cs|)
    && s.averageDeletions == TruncDiv(TotalDeletions(cs), |cs|)
    && s.byDay == GroupByDay(cs)
  }

  /** The aggregation pass. analyze reads commits[0], so the list must not be
      empty (its caller rejects an empty list first). The pass stops at the
      first commit whose statistics fail and returns that error. */
  method Analyze(commits: seq<Commit>) returns (r: Result<Summary>)
    requires |commits| > 0
    ensures r.Err? <==> !AllStatsOk(commits)
    ensures r.Err? ==> exists k :: FirstFailure(commits, k) && r.reason == commits[k].stats.reason
    ensures r.Ok? ==> SummaryOf(commits, r.value)
  {
    var earliest, latest := commits[0], commits[0];
    ghost var ei, li := 0, 0;
    var earliestTime := TimeOfDay(earliest);
    var latestTime := TimeOfDay(latest);
    var additionCount, deletionCount := 0, 0;
    var byDay: map<int, seq<Commit>> := map[];

    for i := 0 to |commits|
      invariant 0 <= ei < |commits| && earliest == commits[ei] && earliestTime == TimeOfDay(earliest)
      invariant 0 <= li < |commits| && latest == commits[li] && latestTime == TimeOfDay(latest)
      invariant EarliestAmong(commits, i, ei)
      invariant LatestAmong(commits, i, li)
      invariant ComputedBefore(commits, i)
      invariant additionCount == TotalAdditions(commits[..i])
      invariant deletionCount == TotalDeletions(commits[..i])
      invariant byDay == GroupByDay(commits[..i])
    {
      var commit := commits[i];
      var whenInt := TimeOfDay(commit);
      EarliestStep(commits, i, ei);
      LatestStep(commits, i, li);
      if whenInt < earliestTime {
        earliestTime := whenInt;
        earliest := commit;
        ei := i;
      }
      assert earliest == commits[ei] && earliestTime == TimeOfDay(earliest) && EarliestAmong(commits, i + 1, ei);
      if whenInt > latestTime {
        latestTime := whenInt;
        latest := commit;
        li := i;
      }
      assert latest == commits[li] && latestTime == TimeOfDay(latest) && LatestAmong(commits, i + 1, li);

      match commit.stats
      case Failed(reason) =>
        assert FirstFailure(commits, i);
        return Err(reason);
      case Computed(files) =>
        var commitAdditions, commitDeletions := SumFiles(files);
        TotalsStep(commits, i);
        additionCount := additionCount + commitAdditions;
        deletionCount := deletionCount + commitDeletions;
        assert ComputedBefore(commits, i + 1);
        assert additionCount == TotalAdditions(commits[..i + 1]) && deletionCount == TotalDeletions(commits[..i + 1]);

      GroupByDayStep(commits, i);
      if commit.yearDay in byDay {
        byDay := byDay[commit.yearDay := byDay[commit.yearDay] + [commit]];
      } else {
        byDay := byDay[commit.yearDay := [commit]];
      }
      assert byDay == GroupByDay(commits[..i + 1]);
    }

    assert commits[..|commits|] == commits;
    r := Ok(Summary(
      |commits|,
      earliest,
      latest,
      TruncDiv(additionCount, |commits|),
      TruncDiv(deletionCount, |commits|),
      byDay));
  }

  /** Three commits of one day, made at 09:00:00, 23:59:00 and 09:00:00,
      adding 10, 20 and 30 lines and deleting 1, 2 and 3. */
  const C1 := Commit("h1", "a@example.com", 100, 9, 0, 0, 42, Computed([FileStat(10, 1)]))
  const C2 := Commit("h2", "a@example.com", 200, 23, 59, 0, 42, Computed([FileStat(20, 2)]))
  const C3 := Commit("h3", "a@example.com", 300, 9, 0, 0, 42, Computed([FileStat(5, 1), FileStat(25, 2)]))
  const ThreeCommits := [C1, C2, C3]

  /** A client of Analyze: its contract alone fixes the count and the
      averages of the example. */
  method ThreeCommitsAverages()
  {
    var cs := ThreeCommits;
    assert cs[..2] == [C1, C2] && cs[..2][..1] == [C1];
    assert AllStatsOk(cs);
    var r := Analyze(cs);
    var s := r.value;
    assert s.totalCommits == 3;
    assert [FileStat(5, 1), FileStat(25, 2)][..1] == [FileStat(5, 1)];
    assert [C1][..0] == [];
    assert TotalAdditions([C1]) == 10 && TotalDeletions([C1]) == 1;
    assert TotalAdditions([C1, C2]) == 30 && TotalDeletions([C1, C2]) == 3;
    assert TotalAdditions(cs) == 60 && TotalDeletions(cs) == 6;
    assert s.averageAdditions == 20 && s.averageDeletions == 2;
  }

  /** A client of Analyze: the first 09:00:00 commit is the earliest, the
      23:59:00 one the latest. */
  method ThreeCommitsEarliestLatest()
  {
    var cs := ThreeCommits;
    assert AllStatsOk(cs) by {
      assert cs[..2] == [C1, C2] && cs[..2][..1] == [C1];
    }
    var r := Analyze(cs);
    var s := r.value;
    assert IsEarliest(cs, 0) && IsLatest(cs, 1);
    var ke :| IsEarliest(cs, ke) && s.earliest == cs[ke];
    EarliestIsUnique(cs, ke, 0);
    var kl :| IsLatest(cs, kl) && s.latest == cs[kl];
    LatestIsUnique(cs, kl, 1);
    assert s.earliest == C1 && s.latest == C2;
  }

  /** A client of Analyze: all three commits land in the bucket of day 42. */
  method ThreeCommitsOneDay()
  {
    var cs := ThreeCommits;
    assert cs[..2] == [C1, C2] && cs[..2][..1] == [C1];
    assert AllStatsOk(cs);
    var r := Analyze(cs);
    var s := r.value;
    assert [C1][..0] == [];
    assert DayCommits([C1], 42) == [C1];
    assert DayCommits([C1, C2], 42) == [C1, C2];
    assert DayCommits(cs, 42) == cs;
    assert FirstSeenDays([C1]) == [42];
    assert FirstSeenDays([C1, C2]) == [42];
    assert FirstSeenDays(cs) == [42];
    GroupByDayPartition(cs);
    assert s.byDay[42] == cs;
  }
}

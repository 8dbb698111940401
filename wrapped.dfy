/** getWrapped without the repository and the printing: filter the walked
    history, reject an empty result, run the aggregation pass and select the
    busiest day. */
module Wrapped {
  import opened Commits
  import opened Filter
  import opened Aggregate
  import opened Report

  const NoCommitsFound := "unable to generate a git-wrapped for the provided author, no commits were found!"

  /** What the report is built from: the summary and the busiest-day line. */
  datatype Wrapped = Wrapped(summary: Summary, busiest: Option<BusiestLine>)

  /** What BusiestDay needs of its input: the order lists every key once and
      no bucket is empty. */
  predicate WalkOrder(byDay: map<int, seq<Commit>>, order: seq<int>)
  {
    && |order| == |byDay|
    && (forall i :: 0 <= i < |order| ==> order[i] in byDay)
    && (forall d :: d in byDay ==> d in order)
    && (forall d :: d in byDay ==> |byDay[d]| > 0)
  }

  /** Walking the days in the order of their first commit visits every
      bucket of the grouping once. */
  lemma FirstSeenOrder(cs: seq<Commit>)
    ensures WalkOrder(GroupByDay(cs), FirstSeenDays(cs))
  {
    var g, order := GroupByDay(cs), FirstSeenDays(cs);
    GroupByDayPartition(cs);
    forall i | 0 <= i < |order| ensures order[i] in g {
      assert order[i] in order;
    }
  }

  /** The day buckets are walked in the order in which their days first occur
      among the relevant commits; any order the walk could take would do. */
  method GetWrapped(history: seq<Commit>, walkError: Option<string>, authors: set<string>, w: Window)
    returns (r: Result<Wrapped>)
    ensures Relevant(history, authors, w) == [] ==> r == Err(NoCommitsFound)
    ensures Relevant(history, authors, w) != [] ==> (r.Ok? <==> AllStatsOk(Relevant(history, authors, w)))
    ensures r.Err? && Relevant(history, authors, w) != [] ==>
      exists k :: FirstFailure(Relevant(history, authors, w), k) &&
        r.reason == Relevant(history, authors, w)[k].stats.reason
    ensures r.Ok? ==> AllStatsOk(Relevant(history, authors, w)) && SummaryOf(Relevant(history, authors, w), r.value.summary)
    ensures r.Ok? ==>
      && r.value.busiest.Some?
      && r.value.busiest.value.count > 0
      && (forall d :: d in r.value.summary.byDay ==> |r.value.summary.byDay[d]| <= r.value.busiest.value.count)
      && exists d :: d in r.value.summary.byDay && |r.value.summary.byDay[d]| > 0 &&
           r.value.busiest.value == BusiestLine(r.value.summary.byDay[d][0].when, |r.value.summary.byDay[d]|)
  {
    // Once the commit iterator is obtained, the filter's error result is
    // None, so getWrapped's check of it does not return early here. Failing
    // to obtain the iterator is not part of this model.
    var commits, _ := FindRelevantCommits(history, walkError, authors, w);
    if |commits| == 0 {
      return Err(NoCommitsFound);
    }
    var analyzed := Analyze(commits);
    if analyzed.Err? {
      return Err(analyzed.reason);
    }
    var summary := analyzed.value;
    var order := FirstSeenDays(commits);
    FirstSeenOrder(commits);
    var line := BusiestDay(summary.byDay, order);
    ghost var k :| 0 <= k < |order| && |summary.byDay[order[k]]| > 0 &&
      line.value == BusiestLine(summary.byDay[order[k]][0].when, |summary.byDay[order[k]]|);
    ghost var busiest := order[k];
    assert busiest in summary.byDay;
    r := Ok(Wrapped(summary, line));
  }
}

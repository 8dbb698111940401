/** The data buildOutput selects before formatting: the busiest day's bucket,
    found by a running maximum over the day buckets, and the figures printed
    for it. */
module Report {
  import opened Commits

  /** The figures of the busiest-day line: the timestamp of the bucket's first
      commit and the bucket's length. */
  datatype BusiestLine = BusiestLine(firstWhen: int, count: int)

  /** The running maximum over the buckets, visited in the given order of days
      (the order of a Go map walk is unspecified, so any order that lists
      every key is allowed). A bucket replaces the current one only when it is
      strictly longer, so the first longest bucket in that order wins. */
  method MostDay(byDay: map<int, seq<Commit>>, order: seq<int>) returns (mostDay: seq<Commit>)
    requires forall i :: 0 <= i < |order| ==> order[i] in byDay
    requires forall d :: d in byDay ==> d in order
    ensures forall d :: d in byDay ==> |byDay[d]| <= |mostDay|
    ensures mostDay == [] || exists k ::
      && 0 <= k < |order|
      && mostDay == byDay[order[k]]
      && forall j :: 0 <= j < k ==> |byDay[order[j]]| < |mostDay|
  {
    mostDay := [];
    ghost var chosen := 0;
    for i := 0 to |order|
      invariant forall j :: 0 <= j < i ==> |byDay[order[j]]| <= |mostDay|
      invariant mostDay == [] || (0 <= chosen < i && mostDay == byDay[order[chosen]])
      invariant mostDay == [] || forall j :: 0 <= j < chosen ==> |byDay[order[j]]| < |mostDay|
    {
      var bucket := byDay[order[i]];
      if |bucket| > |mostDay| {
        mostDay := bucket;
        chosen := i;
      }
    }
    forall d | d in byDay ensures |byDay[d]| <= |mostDay| {
      var j :| 0 <= j < |order| && order[j] == d;
    }
  }

  /** The busiest-day line is printed only when some day bucket exists; it
      reads the first commit of the chosen bucket, so every bucket must be
      non-empty, as the grouping of the aggregation pass guarantees. The walk
      visits every key exactly once. */
  method BusiestDay(byDay: map<int, seq<Commit>>, order: seq<int>) returns (line: Option<BusiestLine>)
    requires |order| == |byDay|
    requires forall i :: 0 <= i < |order| ==> order[i] in byDay
    requires forall d :: d in byDay ==> d in order
    requires forall d :: d in byDay ==> |byDay[d]| > 0
    ensures line.None? <==> |byDay| == 0
    ensures line.Some? ==> line.value.count > 0
    ensures line.Some? ==> forall d :: d in byDay ==> |byDay[d]| <= line.value.count
    ensures line.Some? ==> exists k ::
      && 0 <= k < |order|
      && |byDay[order[k]]| > 0
      && line.value == BusiestLine(byDay[order[k]][0].when, |byDay[order[k]]|)
      && (forall j :: 0 <= j < k ==> |byDay[order[j]]| < line.value.count)
  {
    var mostDay := MostDay(byDay, order);
    if |byDay| != 0 {
      var first := order[0];
      assert first in byDay;
      assert |mostDay| >= |byDay[first]| > 0;
      line := Some(BusiestLine(mostDay[0].when, |mostDay|));
    } else {
      line := None;
    }
  }
}

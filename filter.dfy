/** findRelevantCommits: the commits of the walked history that were authored
    by one of the given addresses inside the year window. */
module Filter {
  import opened Commits

  /** An open interval of author timestamps: both bounds are excluded. */
  datatype Window = Window(start: int, end: int)

  /** The window built for a year from the local midnights of Jan 1 and of
      Dec 31: each bound lies one minute past its midnight. */
  function YearWindow(jan1Midnight: int, dec31Midnight: int): Window
  {
    Window(jan1Midnight + 60, dec31Midnight + 60)
  }

  /** The filter's test: after the start, before the end, by a known author. */
  predicate IsRelevant(c: Commit, authors: set<string>, w: Window)
  {
    w.start < c.when && c.when < w.end && c.email in authors
  }

  /** The relevant commits, in history order. */
  function Relevant(history: seq<Commit>, authors: set<string>, w: Window): seq<Commit>
  {
    if history == [] then []
    else
      var c := history[|history| - 1];
      Relevant(history[..|history| - 1], authors, w) + (if IsRelevant(c, authors, w) then [c] else [])
  }

  /** The positions in the history of the relevant commits, increasing. */
  function MatchingIndices(history: seq<Commit>, authors: set<string>, w: Window): seq<int>
  {
    if history == [] then []
    else
      var n := |history| - 1;
      MatchingIndices(history[..n], authors, w) + (if IsRelevant(history[n], authors, w) then [n] else [])
  }

  /** The matching positions are in range, strictly increasing, and are
      exactly the positions whose commit passes the test. */
  lemma {:induction false} MatchingIndicesExact(history: seq<Commit>, authors: set<string>, w: Window)
    ensures forall k :: 0 <= k < |MatchingIndices(history, authors, w)| ==>
      0 <= MatchingIndices(history, authors, w)[k] < |history|
    ensures forall k, l :: 0 <= k < l < |MatchingIndices(history, authors, w)| ==>
      MatchingIndices(history, authors, w)[k] < MatchingIndices(history, authors, w)[l]
    ensures forall j :: 0 <= j < |history| ==>
      (j in MatchingIndices(history, authors, w) <==> IsRelevant(history[j], authors, w))
  {
    if history != [] {
      var n := |history| - 1;
      var init := history[..n];
      MatchingIndicesExact(init, authors, w);
      var pre := MatchingIndices(init, authors, w);
      assert forall k :: 0 <= k < |pre| ==> pre[k] < n;
      assert forall j :: 0 <= j < n ==> history[j] == init[j];
    }
  }

  /** The filter keeps exactly the relevant positions of the history, in
      increasing order: it is an order-preserving selection. */
  lemma {:induction false} RelevantIsOrderedSelection(history: seq<Commit>, authors: set<string>, w: Window)
    ensures |Relevant(history, authors, w)| == |MatchingIndices(history, authors, w)|
    ensures forall k :: 0 <= k < |MatchingIndices(history, authors, w)| ==>
      0 <= MatchingIndices(history, authors, w)[k] < |history| &&
      Relevant(history, authors, w)[k] == history[MatchingIndices(history, authors, w)[k]]
    ensures forall k, l :: 0 <= k < l < |MatchingIndices(history, authors, w)| ==>
      MatchingIndices(history, authors, w)[k] < MatchingIndices(history, authors, w)[l]
    ensures forall j :: 0 <= j < |history| ==>
      (j in MatchingIndices(history, authors, w) <==> IsRelevant(history[j], authors, w))
  {
    MatchingIndicesExact(history, authors, w);
    if history != [] {
      var n := |history| - 1;
      var init := history[..n];
      RelevantIsOrderedSelection(init, authors, w);
      var pre, ix := MatchingIndices(init, authors, w), MatchingIndices(history, authors, w);
      var kept, r := Relevant(init, authors, w), Relevant(history, authors, w);
      if IsRelevant(history[n], authors, w) {
        assert ix == pre + [n] && r == kept + [history[n]];
      }
      forall k | 0 <= k < |ix| ensures r[k] == history[ix[k]] {
        if k < |pre| {
          assert r[k] == kept[k] && ix[k] == pre[k];
        }
      }
    }
  }

  /** A commit is in the result exactly when it is in the history and passes
      the test. */
  lemma RelevantMembership(history: seq<Commit>, authors: set<string>, w: Window, c: Commit)
    ensures c in Relevant(history, authors, w) <==> c in history && IsRelevant(c, authors, w)
  {
    RelevantIsOrderedSelection(history, authors, w);
    var r, ix := Relevant(history, authors, w), MatchingIndices(history, authors, w);
    if c in r {
      var k :| 0 <= k < |r| && r[k] == c;
      assert ix[k] in ix;
    }
    if c in history && IsRelevant(c, authors, w) {
      var j :| 0 <= j < |history| && history[j] == c;
      assert j in ix;
      var k :| 0 <= k < |ix| && ix[k] == j;
      assert r[k] == c;
    }
  }

  /** The strict start bound drops the first minute of the year. */
  lemma FirstMinuteExcluded(history: seq<Commit>, authors: set<string>, jan1Midnight: int, dec31Midnight: int, c: Commit)
    requires jan1Midnight <= c.when <= jan1Midnight + 60
    ensures c !in Relevant(history, authors, YearWindow(jan1Midnight, dec31Midnight))
  {
    RelevantMembership(history, authors, YearWindow(jan1Midnight, dec31Midnight), c);
  }

  /** The end bound lies on Dec 31 itself: everything after its first minute
      is dropped. */
  lemma LastDayExcluded(history: seq<Commit>, authors: set<string>, jan1Midnight: int, dec31Midnight: int, c: Commit)
    requires dec31Midnight + 60 <= c.when
    ensures c !in Relevant(history, authors, YearWindow(jan1Midnight, dec31Midnight))
  {
    RelevantMembership(history, authors, YearWindow(jan1Midnight, dec31Midnight), c);
  }

  /** The walk over the history keeps the relevant commits. `history` holds the
      commits the walk delivered before it stopped; `walkError` is the error
      that stopped it, if any, and it is dropped: once the iterator is
      obtained, the error result is None. */
  method FindRelevantCommits(history: seq<Commit>, walkError: Option<string>, authors: set<string>, w: Window)
    returns (relevant: seq<Commit>, err: Option<string>)
    ensures relevant == Relevant(history, authors, w)
    ensures forall c :: c in relevant <==> c in history && IsRelevant(c, authors, w)
    ensures err == None
  {
    relevant := [];
    for i := 0 to |history|
      invariant relevant == Relevant(history[..i], authors, w)
    {
      var c := history[i];
      if w.start < c.when && c.when < w.end {
        if c.email in authors {
          relevant := relevant + [c];
        }
      }
      assert history[..i + 1][..i] == history[..i];
    }
    assert history[..|history|] == history;
    forall c ensures c in relevant <==> c in history && IsRelevant(c, authors, w) {
      RelevantMembership(history, authors, w, c);
    }
    err := None;
  }
}

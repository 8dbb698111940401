/** The commit record that the summary logic reads, and the time-of-day key
    used to rank commits by the clock time at which they were authored. */
module Commits {

  datatype Option<T> = None | Some(value: T)

  /** A value, or the text of the error that replaced it. */
  datatype Result<T> = Ok(value: T) | Err(reason: string)

  /** Lines added and deleted in one file touched by a commit. */
  datatype FileStat = FileStat(addition: int, deletion: int)

  /** The per-file statistics of a commit, or the failure to compute them. */
  datatype Stats = Computed(files: seq<FileStat>) | Failed(reason: string)

  /** A commit as the summary sees it. `when` is the author timestamp in
      seconds; `hour`, `minute`, `second` and `yearDay` are the clock and
      the calendar day of that timestamp, in the time zone it carries. */
  datatype Commit = Commit(
    hash: string,
    email: string,
    when: int,
    hour: int,
    minute: int,
    second: int,
    yearDay: int,
    stats: Stats)

  /** The clock fields a time library produces. */
  predicate ValidClock(hour: int, minute: int, second: int)
  {
    0 <= hour < 24 && 0 <= minute < 60 && 0 <= second < 60
  }

  /** The time-of-day key: the clock read as the decimal number hhmmss. */
  function TimeToInt(hour: int, minute: int, second: int): int
  {
    hour * 10000 + minute * 100 + second
  }

  function TimeOfDay(c: Commit): int
  {
    TimeToInt(c.hour, c.minute, c.second)
  }

  /** Lexicographic order on (hour, minute, second). */
  predicate ClockBefore(h1: int, m1: int, s1: int, h2: int, m2: int, s2: int)
  {
    h1 < h2 || (h1 == h2 && (m1 < m2 || (m1 == m2 && s1 < s2)))
  }

  lemma TimeToIntRange(hour: int, minute: int, second: int)
    requires ValidClock(hour, minute, second)
    ensures 0 <= TimeToInt(hour, minute, second) <= 235959
  {
  }

  /** On valid clocks the key orders commits exactly as their clocks do. */
  lemma TimeToIntOrder(h1: int, m1: int, s1: int, h2: int, m2: int, s2: int)
    requires ValidClock(h1, m1, s1) && ValidClock(h2, m2, s2)
    ensures TimeToInt(h1, m1, s1) < TimeToInt(h2, m2, s2) <==> ClockBefore(h1, m1, s1, h2, m2, s2)
  {
    if h1 < h2 {
      assert TimeToInt(h1, m1, s1) < (h1 + 1) * 10000 <= TimeToInt(h2, m2, s2);
    } else if h2 < h1 {
      assert TimeToInt(h2, m2, s2) < (h2 + 1) * 10000 <= TimeToInt(h1, m1, s1);
    }
  }

  /** Hence the key is injective on valid clocks. */
  lemma TimeToIntInjective(h1: int, m1: int, s1: int, h2: int, m2: int, s2: int)
    requires ValidClock(h1, m1, s1) && ValidClock(h2, m2, s2)
    requires TimeToInt(h1, m1, s1) == TimeToInt(h2, m2, s2)
    ensures h1 == h2 && m1 == m2 && s1 == s2
  {
    TimeToIntOrder(h1, m1, s1, h2, m2, s2);
    TimeToIntOrder(h2, m2, s2, h1, m1, s1);
  }
}

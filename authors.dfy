/** The author set built from the comma-separated --emails value: split at
    every comma, trim each part, collect the parts in a set. */
module Authors {

  /** Go's strings.Split with a one-character separator: the pieces between
      separators, including empty ones, so there is always at least one. */
  function Split(s: string, sep: char): (parts: seq<string>)
    ensures |parts| >= 1
    ensures forall i :: 0 <= i < |parts| ==> sep !in parts[i]
    decreases |s|
  {
    if s == [] then [[]]
    else
      var rest := Split(s[1..], sep);
      if s[0] == sep then [[]] + rest
      else [[s[0]] + rest[0]] + rest[1..]
  }

  /** The inverse of Split: the parts with the separator between them. */
  function Join(parts: seq<string>, sep: char): string
    requires |parts| >= 1
  {
    if |parts| == 1 then parts[0] else parts[0] + [sep] + Join(parts[1..], sep)
  }

  /** Joining the pieces gives the input back. */
  lemma {:induction false} JoinSplit(s: string, sep: char)
    ensures Join(Split(s, sep), sep) == s
    decreases |s|
  {
    if s != [] {
      var rest := Split(s[1..], sep);
      JoinSplit(s[1..], sep);
      if s[0] == sep {
        assert Split(s, sep)[1..] == rest;
      } else if |rest| == 1 {
        assert s == [s[0]] + s[1..];
      } else {
        var parts := Split(s, sep);
        assert parts[1..] == rest[1..];
        assert s == [s[0]] + (rest[0] + [sep] + Join(rest[1..], sep));
      }
    }
  }

  /** A prefix without separators extends the first piece. */
  lemma {:induction false} SplitPrefix(p: string, t: string, sep: char)
    requires sep !in p
    ensures Split(p + t, sep) == [p + Split(t, sep)[0]] + Split(t, sep)[1..]
    decreases |p|
  {
    if p == [] {
      var parts := Split(t, sep);
      assert p + t == t;
      assert p + parts[0] == parts[0];
      assert [parts[0]] + parts[1..] == parts;
    } else {
      assert (p + t)[1..] == p[1..] + t;
      SplitPrefix(p[1..], t, sep);
      assert [p[0]] + (p[1..] + Split(t, sep)[0]) == p + Split(t, sep)[0];
    }
  }

  /** Splitting a join of separator-free pieces gives the pieces back. */
  lemma {:induction false} SplitJoin(parts: seq<string>, sep: char)
    requires |parts| >= 1
    requires forall i :: 0 <= i < |parts| ==> sep !in parts[i]
    ensures Split(Join(parts, sep), sep) == parts
  {
    var p := parts[0];
    if |parts| == 1 {
      SplitPrefix(p, [], sep);
      assert p + [] == p;
    } else {
      var rest := parts[1..];
      var t := [sep] + Join(rest, sep);
      SplitJoin(rest, sep);
      assert t[1..] == Join(rest, sep);
      assert Split(t, sep) == [[]] + rest;
      assert Join(parts, sep) == p + t;
      SplitPrefix(p, t, sep);
      assert p + [] == p;
    }
  }

  /** The set of trimmed pieces of the --emails value. `trim` stands for
      strings.TrimSpace. Because Split never returns zero pieces, the set is
      never empty, even for a value such as " , ": main's "no valid author
      emails" check cannot fire. */
  method AuthorSet(emailsFlag: string, trim: string -> string) returns (emails: set<string>)
    ensures emails == set i | 0 <= i < |Split(emailsFlag, ',')| :: trim(Split(emailsFlag, ',')[i])
    ensures trim(Split(emailsFlag, ',')[0]) in emails
    ensures |emails| != 0
  {
    var parts := Split(emailsFlag, ',');
    emails := {};
    for i := 0 to |parts|
      invariant emails == set j | 0 <= j < i :: trim(parts[j])
    {
      emails := emails + {trim(parts[i])};
    }
  }
}

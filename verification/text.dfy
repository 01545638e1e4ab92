/** Go's `strings.Split` and `strings.Join` for a one-character separator. */
module Text {

  /** The pieces of `s` between occurrences of `sep`; never empty, since a
      string without a separator is one piece (the empty string included). */
  function Split(s: string, sep: char): (parts: seq<string>)
    ensures |parts| >= 1
    decreases |s|
  {
    if |s| == 0 then [""]
    else
      var rest := Split(s[1..], sep);
      if s[0] == sep then [""] + rest
      else [[s[0]] + rest[0]] + rest[1..]
  }

  /** The pieces glued together with `sep` between neighbours. The join
      starts with the first piece. */
  function Join(parts: seq<string>, sep: char): (r: string)
    ensures |parts| > 0 ==> parts[0] <= r
    decreases |parts|
  {
    if |parts| == 0 then ""
    else if |parts| == 1 then parts[0]
    else parts[0] + [sep] + Join(parts[1..], sep)
  }

  /** The last element of a non-empty sequence. */
  function Last<T>(xs: seq<T>): T
    requires |xs| > 0
  {
    xs[|xs| - 1]
  }

  /** No piece of a split holds the separator. */
  lemma {:induction false} SplitPiecesAvoidSeparator(s: string, sep: char)
    ensures forall i :: 0 <= i < |Split(s, sep)| ==> sep !in Split(s, sep)[i]
    decreases |s|
  {
    if |s| > 0 {
      SplitPiecesAvoidSeparator(s[1..], sep);
      var rest := Split(s[1..], sep);
      if s[0] != sep {
        assert sep !in [s[0]] + rest[0];
      }
    }
  }

  /** Splitting at a separator splits the two sides independently. */
  lemma {:induction false} SplitAround(a: string, b: string, sep: char)
    ensures Split(a + [sep] + b, sep) == Split(a, sep) + Split(b, sep)
    decreases |a|
  {
    var s := a + [sep] + b;
    if |a| == 0 {
      assert s[1..] == b;
    } else {
      assert s[1..] == a[1..] + [sep] + b;
      SplitAround(a[1..], b, sep);
    }
  }

  /** A string without the separator is a single piece. */
  lemma {:induction false} SplitNoSeparator(s: string, sep: char)
    requires sep !in s
    ensures Split(s, sep) == [s]
    decreases |s|
  {
    if |s| > 0 {
      SplitNoSeparator(s[1..], sep);
      assert s == [s[0]] + s[1..];
    }
  }

  /** Joining the pieces of a split gives back the string. */
  lemma {:induction false} JoinSplit(s: string, sep: char)
    ensures Join(Split(s, sep), sep) == s
    decreases |s|
  {
    if |s| > 0 {
      var rest := Split(s[1..], sep);
      JoinSplit(s[1..], sep);
      if s[0] == sep {
        assert ([""] + rest)[1..] == rest;
      } else {
        JoinPrepend(s[0], rest, sep);
        assert s == [s[0]] + s[1..];
      }
    }
  }

  /** Prepending a character to the first piece prepends it to the join. */
  lemma JoinPrepend(c: char, parts: seq<string>, sep: char)
    requires |parts| > 0
    ensures Join([[c] + parts[0]] + parts[1..], sep) == [c] + Join(parts, sep)
  {
    var q := [[c] + parts[0]] + parts[1..];
    if |parts| > 1 {
      assert q[1..] == parts[1..];
    }
  }

  /** Splitting a join of separator-free pieces gives back the pieces. */
  lemma {:induction false} SplitJoin(parts: seq<string>, sep: char)
    requires |parts| >= 1
    requires forall i :: 0 <= i < |parts| ==> sep !in parts[i]
    ensures Split(Join(parts, sep), sep) == parts
    decreases |parts|
  {
    SplitNoSeparator(parts[0], sep);
    if |parts| > 1 {
      SplitJoin(parts[1..], sep);
      SplitAround(parts[0], Join(parts[1..], sep), sep);
      assert parts == [parts[0]] + parts[1..];
    }
  }

  /** Appending a piece appends a separator and the piece. */
  lemma {:induction false} JoinAppend(parts: seq<string>, x: string, sep: char)
    requires |parts| >= 1
    ensures Join(parts + [x], sep) == Join(parts, sep) + [sep] + x
    decreases |parts|
  {
    if |parts| > 1 {
      assert (parts + [x])[1..] == parts[1..] + [x];
      JoinAppend(parts[1..], x, sep);
    }
  }

  /** The join of all pieces but the last is a prefix of the join of all. */
  lemma JoinDropLast(parts: seq<string>, sep: char)
    requires |parts| >= 1
    ensures Join(parts[..|parts| - 1], sep) <= Join(parts, sep)
  {
    if |parts| >= 2 {
      JoinLast(parts, sep);
    }
  }

  /** The join of two or more pieces ends in a separator and the last piece. */
  lemma JoinLast(parts: seq<string>, sep: char)
    requires |parts| >= 2
    ensures Join(parts, sep) == Join(parts[..|parts| - 1], sep) + [sep] + Last(parts)
  {
    var n := |parts|;
    assert parts == parts[..n - 1] + [parts[n - 1]];
    JoinAppend(parts[..n - 1], parts[n - 1], sep);
  }

  /** Each piece followed by `sep`, in order: what appending `piece + sep`
      for every piece to an empty file leaves in it. It holds at least one
      character per piece, and unless there are no pieces it ends in `sep`. */
  function Terminated(parts: seq<string>, sep: char): (r: string)
    ensures |r| >= |parts|
    ensures |parts| > 0 ==> |r| > 0 && r[|r| - 1] == sep
    decreases |parts|
  {
    if |parts| == 0 then "" else parts[0] + [sep] + Terminated(parts[1..], sep)
  }

  /** Appending one more terminated piece at the end. */
  lemma {:induction false} TerminatedAppend(parts: seq<string>, x: string, sep: char)
    ensures Terminated(parts + [x], sep) == Terminated(parts, sep) + x + [sep]
    decreases |parts|
  {
    if |parts| > 0 {
      assert (parts + [x])[1..] == parts[1..] + [x];
      TerminatedAppend(parts[1..], x, sep);
    } else {
      assert [x][1..] == [];
    }
  }

  /** Terminating every piece is joining them with an empty last piece. */
  lemma {:induction false} TerminatedIsJoin(parts: seq<string>, sep: char)
    ensures Terminated(parts, sep) == Join(parts + [""], sep)
    decreases |parts|
  {
    if |parts| > 0 {
      assert (parts + [""])[1..] == parts[1..] + [""];
      TerminatedIsJoin(parts[1..], sep);
    }
  }

  /** Splitting terminated separator-free pieces gives the pieces and one
      empty piece after the final separator. */
  lemma SplitTerminated(parts: seq<string>, sep: char)
    requires forall i :: 0 <= i < |parts| ==> sep !in parts[i]
    ensures Split(Terminated(parts, sep), sep) == parts + [""]
  {
    TerminatedIsJoin(parts, sep);
    SplitJoin(parts + [""], sep);
  }
}

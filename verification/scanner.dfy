/** Go's `Regexp.ReplaceAll` specialised to a fixed-width two-spelling pattern
    and a replacement without `$`: every leftmost non-overlapping match is
    replaced by the token. */
module Scanner {
  import opened Patterns

  /** Scan left to right; a match at the current position is replaced and
      skipped, otherwise the character is kept and the scan moves on by one.
      Go's `ReplaceAll` would expand `$` references in the replacement; neither
      placeholder holds a `$`, so here the token is inserted as it is. A line
      shorter than the pattern comes back unchanged, and a token at least as
      wide as the pattern never shortens the line. */
  function ReplaceAll(s: string, p: Pattern, token: string): (r: string)
    ensures |s| < p.Width() ==> r == s
    ensures |token| >= p.Width() ==> |r| >= |s|
    decreases |s|
  {
    if |s| == 0 then ""
    else if p.MatchesAt(s, 0) then token + ReplaceAll(s[p.Width()..], p, token)
    else [s[0]] + ReplaceAll(s[1..], p, token)
  }

  /** A line in which the pattern never matches comes back unchanged. */
  lemma {:induction false} PassThrough(s: string, p: Pattern, token: string)
    ensures (forall i: nat :: !p.MatchesAt(s, i)) ==> ReplaceAll(s, p, token) == s
    decreases |s|
  {
    if |s| > 0 && forall i: nat :: !p.MatchesAt(s, i) {
      forall i: nat ensures !p.MatchesAt(s[1..], i) {
        MatchShift(s, p, 1, i);
      }
      PassThrough(s[1..], p, token);
    }
  }

  /** Number of leftmost non-overlapping matches of `p` in `s`. */
  function MatchCount(s: string, p: Pattern): nat
    decreases |s|
  {
    if |s| == 0 then 0
    else if p.MatchesAt(s, 0) then 1 + MatchCount(s[p.Width()..], p)
    else MatchCount(s[1..], p)
  }

  /** Matching in a suffix is matching in the whole string, shifted. */
  lemma MatchShift(s: string, p: Pattern, k: nat, i: nat)
    requires k <= |s|
    ensures p.MatchesAt(s[k..], i) <==> p.MatchesAt(s, k + i)
  {
    if i + p.Width() <= |s| - k {
      assert s[k..][i + 1 .. i + p.Width()] == s[k + i + 1 .. k + i + p.Width()];
    }
  }

  /** A match found inside a prefix is a match in the whole string. */
  lemma MatchInPrefix(a: string, b: string, p: Pattern, i: nat)
    requires i + p.Width() <= |a|
    ensures p.MatchesAt(a + b, i) <==> p.MatchesAt(a, i)
  {
    assert (a + b)[i + 1 .. i + p.Width()] == a[i + 1 .. i + p.Width()];
  }

  /** Putting the first character back in front of a prefix of the rest. */
  lemma PrependFirst(s: string, i: nat, x: string, y: string)
    requires 0 < i <= |s|
    ensures [s[0]] + (s[1..][..i - 1] + x + y) == s[..i] + x + y
  {
    assert s[..i] == [s[0]] + s[1..][..i - 1];
  }

  /** Stepping over the first character when the leftmost match is at `i > 0`. */
  lemma ShiftLeftmost(s: string, p: Pattern, i: nat)
    requires 0 < i
    requires p.MatchesAt(s, i)
    requires forall j: nat :: j < i ==> !p.MatchesAt(s, j)
    ensures !p.MatchesAt(s, 0)
    ensures p.MatchesAt(s[1..], i - 1)
    ensures forall j: nat :: j < i - 1 ==> !p.MatchesAt(s[1..], j)
    ensures s[1..][i - 1 + p.Width()..] == s[i + p.Width()..]
  {
    MatchShift(s, p, 1, i - 1);
    forall j: nat | j < i - 1 ensures !p.MatchesAt(s[1..], j) {
      MatchShift(s, p, 1, j);
    }
  }

  /** Without a match at the start, the first character is kept. */
  lemma SkipMiss(s: string, p: Pattern, token: string)
    requires |s| > 0 && !p.MatchesAt(s, 0)
    ensures ReplaceAll(s, p, token) == [s[0]] + ReplaceAll(s[1..], p, token)
  {
  }

  /** The leftmost-match equation for the rest of the line gives the one for
      the whole line when no match starts at its first character. */
  lemma StepBack(s: string, p: Pattern, token: string, i: nat)
    requires 0 < i && i + p.Width() <= |s| && !p.MatchesAt(s, 0)
    requires s[1..][i - 1 + p.Width()..] == s[i + p.Width()..]
    requires ReplaceAll(s[1..], p, token)
          == s[1..][..i - 1] + token + ReplaceAll(s[1..][i - 1 + p.Width()..], p, token)
    ensures ReplaceAll(s, p, token) == s[..i] + token + ReplaceAll(s[i + p.Width()..], p, token)
  {
    SkipMiss(s, p, token);
    PrependFirst(s, i, token, ReplaceAll(s[i + p.Width()..], p, token));
  }

  /** Everything before the leftmost match is kept, the match becomes the
      token, and scanning resumes right after the match. */
  lemma {:induction false} Leftmost(s: string, p: Pattern, token: string, i: nat)
    requires p.MatchesAt(s, i)
    requires forall j: nat :: j < i ==> !p.MatchesAt(s, j)
    ensures ReplaceAll(s, p, token) == s[..i] + token + ReplaceAll(s[i + p.Width()..], p, token)
    decreases i
  {
    if i > 0 {
      var t := s[1..];
      ShiftLeftmost(s, p, i);
      Leftmost(t, p, token, i - 1);
      assert ReplaceAll(t, p, token) == t[..i - 1] + token + ReplaceAll(t[i - 1 + p.Width()..], p, token);
      StepBack(s, p, token, i);
    }
  }

  /** One replaced match adds the token and removes the match width. */
  lemma LengthStep(n: int, w: int, t: int, c: int, restLength: int)
    requires restLength == (n - w) + (t - w) * c
    ensures t + restLength == n + (t - w) * (1 + c)
  {
    assert (t - w) * (1 + c) == (t - w) + (t - w) * c;
  }

  /** Every match changes the length by the difference between token and match width. */
  lemma {:induction false} ReplaceAllLength(s: string, p: Pattern, token: string)
    ensures |ReplaceAll(s, p, token)| == |s| + (|token| - p.Width()) * MatchCount(s, p)
    decreases |s|
  {
    if |s| > 0 {
      if p.MatchesAt(s, 0) {
        var tail := s[p.Width()..];
        ReplaceAllLength(tail, p, token);
        LengthStep(|s|, p.Width(), |token|, MatchCount(tail, p), |ReplaceAll(tail, p, token)|);
      } else {
        ReplaceAllLength(s[1..], p, token);
      }
    }
  }

  /** A string with at least one match has a positive match count. */
  lemma {:induction false} MatchCountPositive(s: string, p: Pattern, i: nat)
    requires p.MatchesAt(s, i)
    ensures MatchCount(s, p) > 0
    decreases i
  {
    if !p.MatchesAt(s, 0) {
      MatchShift(s, p, 1, i - 1);
      MatchCountPositive(s[1..], p, i - 1);
    }
  }

  /** A token longer than the pattern always changes a string that holds a match. */
  lemma {:induction false} MatchIsRewritten(s: string, p: Pattern, token: string, i: nat)
    requires |token| > p.Width()
    requires p.MatchesAt(s, i)
    ensures |ReplaceAll(s, p, token)| > |s|
    decreases i
  {
    if p.MatchesAt(s, 0) {
    } else {
      MatchShift(s, p, 1, i - 1);
      MatchIsRewritten(s[1..], p, token, i - 1);
    }
  }

  /** `t` could be the start of a match of `p` (a whole match, or a match
      running past the end of `t`). */
  predicate CouldStartMatch(p: Pattern, t: string) {
    && |t| > 0
    && (t[0] == p.lower || t[0] == p.upper)
    && if |t| >= p.Width() then t[1 .. p.Width()] == p.rest else t[1..] == p.rest[.. |t| - 1]
  }

  /** A token is inert for `p` when it cannot take part in a match of `p`: no
      match starts inside it, and its first character never appears in the
      pattern's tail, so it cannot complete a match begun before it. */
  predicate Inert(p: Pattern, token: string) {
    && |token| > 0
    && (forall j :: 0 <= j < |p.rest| ==> p.rest[j] != token[0])
    && (forall i: nat :: i < |token| ==> !CouldStartMatch(p, token[i..]))
  }

  /** A match starting inside `a` in `a + b` shows that the rest of `a` could start a match. */
  lemma MatchStartingInPrefix(a: string, b: string, p: Pattern, i: nat)
    requires i < |a|
    ensures p.MatchesAt(a + b, i) ==> CouldStartMatch(p, a[i..])
  {
    if p.MatchesAt(a + b, i) {
      if |a| - i >= p.Width() {
        assert a[i..][1 .. p.Width()] == (a + b)[i + 1 .. i + p.Width()];
      } else {
        assert a[i..][1..] == (a + b)[i + 1 .. |a|];
        assert (a + b)[i + 1 .. |a|] == (a + b)[i + 1 .. i + p.Width()][.. |a| - i - 1];
      }
    }
  }

  /** A match at the start of `[c] + b` is `c` followed by the pattern's tail. */
  lemma MatchAfterFirst(c: char, b: string, p: Pattern)
    ensures p.MatchesAt([c] + b, 0) <==> (c == p.lower || c == p.upper) && p.rest <= b
  {
    if |b| >= |p.rest| {
      assert ([c] + b)[1 .. p.Width()] == b[.. |p.rest|];
    }
  }

  /** A prefix that avoids the token's first character survives the
      replacement only if it was already a prefix of the input. */
  lemma {:induction false} PrefixPreserved(t: string, p: Pattern, token: string, w: string)
    requires |token| > 0
    requires forall j :: 0 <= j < |w| ==> w[j] != token[0]
    ensures w <= ReplaceAll(t, p, token) ==> w <= t
    decreases |t|
  {
    if |w| > 0 && |t| > 0 {
      if p.MatchesAt(t, 0) {
        assert ReplaceAll(t, p, token)[0] == token[0];
      } else {
        PrefixPreserved(t[1..], p, token, w[1..]);
        if w <= ReplaceAll(t, p, token) {
          assert w[1..] <= ReplaceAll(t[1..], p, token);
          assert w == [t[0]] + w[1..];
        }
      }
    }
  }

  /** With an inert token, no match of the pattern survives the replacement. */
  lemma {:induction false} NoSurvivor(s: string, p: Pattern, token: string)
    requires Inert(p, token)
    ensures forall i: nat :: !p.MatchesAt(ReplaceAll(s, p, token), i)
    decreases |s|
  {
    if |s| > 0 {
      if p.MatchesAt(s, 0) {
        NoSurvivor(s[p.Width()..], p, token);
        NoMatchAfterToken(token, ReplaceAll(s[p.Width()..], p, token), p);
      } else {
        NoSurvivor(s[1..], p, token);
        PrefixPreserved(s[1..], p, token, p.rest);
        assert s == [s[0]] + s[1..];
        NoMatchAfterKept(s[0], s[1..], ReplaceAll(s[1..], p, token), p);
      }
    }
  }

  /** An inert token in front of text without a match leaves none. */
  lemma NoMatchAfterToken(token: string, rest: string, p: Pattern)
    requires Inert(p, token)
    requires forall i: nat :: !p.MatchesAt(rest, i)
    ensures forall i: nat :: !p.MatchesAt(token + rest, i)
  {
    var r := token + rest;
    forall i: nat ensures !p.MatchesAt(r, i) {
      if i >= |token| {
        MatchShift(r, p, |token|, i - |token|);
        assert r[|token|..] == rest;
      } else {
        MatchStartingInPrefix(token, rest, p, i);
      }
    }
  }

  /** A kept character in front of text without a match leaves none, provided
      it started no match before and the text behind it begins with the
      pattern's tail only if the original text did. */
  lemma NoMatchAfterKept(c: char, tail: string, rest: string, p: Pattern)
    requires !p.MatchesAt([c] + tail, 0)
    requires p.rest <= rest ==> p.rest <= tail
    requires forall i: nat :: !p.MatchesAt(rest, i)
    ensures forall i: nat :: !p.MatchesAt([c] + rest, i)
  {
    var r := [c] + rest;
    forall i: nat ensures !p.MatchesAt(r, i) {
      if i >= 1 {
        MatchShift(r, p, 1, i - 1);
        assert r[1..] == rest;
      } else {
        MatchAfterFirst(c, rest, p);
        MatchAfterFirst(c, tail, p);
      }
    }
  }

  /** A kept character stays kept when the text behind it changes, as long as
      the new text starts with the pattern's tail only if the old one did. */
  lemma KeptFirst(c: char, tail: string, y: string, p: Pattern, token: string)
    requires !p.MatchesAt([c] + tail, 0)
    requires p.rest <= y ==> p.rest <= tail
    ensures ReplaceAll([c] + y, p, token) == [c] + ReplaceAll(y, p, token)
  {
    MatchAfterFirst(c, y, p);
    MatchAfterFirst(c, tail, p);
    SkipMiss([c] + y, p, token);
    assert ([c] + y)[1..] == y;
  }

  /** Text no suffix of which could start a match is kept as it is, and the
      replacement carries on behind it. */
  lemma {:induction false} KeepPrefix(t: string, x: string, p: Pattern, token: string)
    requires forall i: nat :: i < |t| ==> !CouldStartMatch(p, t[i..])
    ensures ReplaceAll(t + x, p, token) == t + ReplaceAll(x, p, token)
    decreases |t|
  {
    if |t| > 0 {
      var rest := ReplaceAll(x, p, token);
      assert t[0..] == t;
      KeepFirst(t, x, p, token);
      InertTail(t, p);
      KeepPrefix(t[1..], x, p, token);
      Reassemble(t, rest);
    } else {
      assert t + x == x;
    }
  }

  /** Putting the first character back in front of the rest of `t`. */
  lemma Reassemble(t: string, rest: string)
    requires |t| > 0
    ensures [t[0]] + (t[1..] + rest) == t + rest
  {
    assert t == [t[0]] + t[1..];
  }

  /** The first character of text that could not start a match is kept. */
  lemma KeepFirst(t: string, x: string, p: Pattern, token: string)
    requires |t| > 0 && !CouldStartMatch(p, t)
    ensures ReplaceAll(t + x, p, token) == [t[0]] + ReplaceAll(t[1..] + x, p, token)
  {
    assert t[0..] == t;
    MatchStartingInPrefix(t, x, p, 0);
    SkipMiss(t + x, p, token);
    assert (t + x)[1..] == t[1..] + x;
  }

  /** The suffixes of `t[1..]` are suffixes of `t`. */
  lemma InertTail(t: string, p: Pattern)
    requires |t| > 0
    requires forall i: nat :: i < |t| ==> !CouldStartMatch(p, t[i..])
    ensures forall i: nat :: i < |t| - 1 ==> !CouldStartMatch(p, t[1..][i..])
  {
    forall i: nat | i < |t| - 1 ensures !CouldStartMatch(p, t[1..][i..]) {
      assert t[1..][i..] == t[i + 1..];
    }
  }

  /** A character found neither in the line nor in the token never appears in
      the result. */
  lemma {:induction false} CharacterNotIntroduced(s: string, p: Pattern, token: string, c: char)
    requires c !in s && c !in token
    ensures c !in ReplaceAll(s, p, token)
    decreases |s|
  {
    if |s| > 0 {
      if p.MatchesAt(s, 0) {
        CharacterNotIntroduced(s[p.Width()..], p, token, c);
      } else {
        CharacterNotIntroduced(s[1..], p, token, c);
      }
    }
  }

  /** Replacing with an inert token twice is the same as replacing once. */
  lemma Idempotent(s: string, p: Pattern, token: string)
    requires Inert(p, token)
    ensures ReplaceAll(ReplaceAll(s, p, token), p, token) == ReplaceAll(s, p, token)
  {
    NoSurvivor(s, p, token);
    PassThrough(ReplaceAll(s, p, token), p, token);
  }
}

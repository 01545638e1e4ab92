/** The line rewrite under one fixed rule order, the enim rule and then the
    amet rule: what the program does whenever Go iterates the replacer map
    enim first. It is written as one left-to-right pass that tries both rules
    at each position, as the combined pattern `[aA]met|[eE]nim` would, and
    that pass is shown to equal the two rule passes in that order. */
module SinglePass {
  import opened Wrappers
  import opened Patterns
  import opened Scanner
  import Rewriter

  /** Every entry of `order` names a rule of the replacer map. */
  predicate KnownKeys(order: seq<string>) {
    forall k :: k in order ==> k in Replacers
  }

  /** Some rule of the replacer map matches at position `i` of `s`. */
  predicate HitAt(s: string, i: nat) {
    Amet.MatchesAt(s, i) || Enim.MatchesAt(s, i)
  }

  /** The placeholder for the rule that matches at position `i`. */
  function TokenAt(s: string, i: nat): string
    requires HitAt(s, i)
  {
    if Amet.MatchesAt(s, i) then AmetToken else EnimToken
  }

  /** The first replacer in `order` whose pattern matches at the start of `s`. */
  function FirstHit(s: string, order: seq<string>): (hit: Option<string>)
    requires KnownKeys(order)
    ensures hit.Some? ==> hit.value in order && Replacers[hit.value].MatchesAt(s, 0)
    ensures hit.None? ==> forall k :: k in order ==> !Replacers[k].MatchesAt(s, 0)
    decreases |order|
  {
    if |order| == 0 then None
    else if Replacers[order[0]].MatchesAt(s, 0) then Some(order[0])
    else FirstHit(s, order[1..])
  }

  /** One pass over `s`, trying the rules in `order` at each position. A line
      that no rule matches anywhere comes back unchanged. */
  function RewriteWith(s: string, order: seq<string>): (r: string)
    requires KnownKeys(order)
    ensures (forall i: nat :: !HitAt(s, i)) ==> r == s
    decreases |s|
  {
    if |s| == 0 then ""
    else match FirstHit(s, order)
      case Some(k) =>
        KnownKeyHit(s, k);
        k + RewriteWith(s[Replacers[k].Width()..], order)
      case None =>
        NoHitInTail(s);
        [s[0]] + RewriteWith(s[1..], order)
  }

  /** A match of a rule of the map is a hit. */
  lemma KnownKeyHit(s: string, k: string)
    requires k in Replacers && Replacers[k].MatchesAt(s, 0)
    ensures HitAt(s, 0)
  {
    ReplacersKeys();
  }

  /** A line without a hit has none in its tail either. */
  lemma NoHitInTail(s: string)
    requires |s| > 0
    ensures (forall i: nat :: !HitAt(s, i)) ==> forall i: nat :: !HitAt(s[1..], i)
  {
    forall i: nat ensures HitAt(s[1..], i) ==> HitAt(s, 1 + i) {
      HitShift(s, 1, i);
    }
  }

  /** The order in which the single pass tries the rules. */
  const Declared: seq<string> := [AmetToken, EnimToken]

  /** The line rewrite: the same as running the enim rule over the whole line
      and then the amet rule over the result. */
  function Rewrite(line: string): (r: string)
    ensures r == ReplaceAll(ReplaceAll(line, Enim, EnimToken), Amet, AmetToken)
  {
    EnimThenAmet(line);
    RewriteWith(line, Declared)
  }

  /** Number of rule matches the single pass replaces. */
  function HitCount(s: string): nat
    decreases |s|
  {
    if |s| == 0 then 0
    else if HitAt(s, 0) then 1 + HitCount(s[4..])
    else HitCount(s[1..])
  }

  /** Under any iteration order of the map, the first hit is the one rule that
      matches at the start, if any. */
  lemma FirstHitIsTheMatchingRule(s: string, order: seq<string>)
    requires Rewriter.IsIterationOrder(order, Replacers)
    ensures FirstHit(s, order).Some? <==> HitAt(s, 0)
    ensures HitAt(s, 0) ==> FirstHit(s, order) == Some(TokenAt(s, 0))
  {
    assert AmetToken in order && EnimToken in order;
    var hit := FirstHit(s, order);
    if hit.Some? {
      PatternsExclusive(s, 0);
      assert hit.value == AmetToken || hit.value == EnimToken;
    }
  }

  /** Hits shift with suffixes, like matches do. */
  lemma HitShift(s: string, k: nat, i: nat)
    requires k <= |s|
    ensures HitAt(s[k..], i) <==> HitAt(s, k + i)
  {
    MatchShift(s, Amet, k, i);
    MatchShift(s, Enim, k, i);
  }

  /** The result does not depend on the order in which the map is iterated. */
  lemma {:induction false} OrderIndependent(s: string, o1: seq<string>, o2: seq<string>)
    requires Rewriter.IsIterationOrder(o1, Replacers)
    requires Rewriter.IsIterationOrder(o2, Replacers)
    ensures RewriteWith(s, o1) == RewriteWith(s, o2)
    decreases |s|
  {
    if |s| > 0 {
      FirstHitIsTheMatchingRule(s, o1);
      FirstHitIsTheMatchingRule(s, o2);
      if HitAt(s, 0) {
        OrderIndependent(s[4..], o1, o2);
      } else {
        OrderIndependent(s[1..], o1, o2);
      }
    }
  }

  /** Stepping over the first character of a line whose leftmost hit is at
      `i > 0`: that character is no hit, and the leftmost hit of the rest is
      the same one, at `i - 1`. */
  lemma ShiftLeftmost(s: string, i: nat)
    requires 0 < i
    requires HitAt(s, i)
    requires forall j: nat :: j < i ==> !HitAt(s, j)
    ensures !HitAt(s, 0)
    ensures HitAt(s[1..], i - 1) && TokenAt(s[1..], i - 1) == TokenAt(s, i)
    ensures forall j: nat :: j < i - 1 ==> !HitAt(s[1..], j)
    ensures s[1..][i - 1 + 4..] == s[i + 4..]
  {
    HitShift(s, 1, i - 1);
    MatchShift(s, Amet, 1, i - 1);
    forall j: nat | j < i - 1 ensures !HitAt(s[1..], j) {
      HitShift(s, 1, j);
    }
  }

  /** Without a hit at the start, the first character is kept. */
  lemma SkipMiss(s: string, order: seq<string>)
    requires Rewriter.IsIterationOrder(order, Replacers)
    requires |s| > 0 && !HitAt(s, 0)
    ensures RewriteWith(s, order) == [s[0]] + RewriteWith(s[1..], order)
  {
    FirstHitIsTheMatchingRule(s, order);
  }

  /** A hit at the start becomes its rule's placeholder, and the pass resumes
      right after the four matched characters. */
  lemma TakeHit(s: string, order: seq<string>)
    requires Rewriter.IsIterationOrder(order, Replacers)
    requires HitAt(s, 0)
    ensures RewriteWith(s, order) == TokenAt(s, 0) + RewriteWith(s[4..], order)
  {
    FirstHitIsTheMatchingRule(s, order);
    var k := TokenAt(s, 0);
    assert Replacers[k].Width() == 4;
  }

  /** The leftmost-hit equation for the rest of the line gives the one for
      the whole line when its first character is no hit. */
  lemma StepBack(s: string, order: seq<string>, i: nat, token: string)
    requires Rewriter.IsIterationOrder(order, Replacers)
    requires 0 < i && i + 4 <= |s| && !HitAt(s, 0)
    ensures RewriteWith(s[1..], order) == s[1..][..i - 1] + token + RewriteWith(s[i + 4..], order) ==>
              RewriteWith(s, order) == s[..i] + token + RewriteWith(s[i + 4..], order)
  {
    SkipMiss(s, order);
    PrependFirst(s, i, token, RewriteWith(s[i + 4..], order));
  }

  /** Text before the leftmost match of either rule is kept, that match becomes
      its rule's placeholder, and the pass resumes right after it. */
  lemma {:induction false} Leftmost(s: string, order: seq<string>, i: nat)
    requires Rewriter.IsIterationOrder(order, Replacers)
    requires HitAt(s, i)
    requires forall j: nat :: j < i ==> !HitAt(s, j)
    ensures RewriteWith(s, order) == s[..i] + TokenAt(s, i) + RewriteWith(s[i + 4..], order)
    decreases i
  {
    if i > 0 {
      var t := s[1..];
      ShiftLeftmost(s, i);
      Leftmost(t, order, i - 1);
      assert RewriteWith(t, order) == t[..i - 1] + TokenAt(s, i) + RewriteWith(s[i + 4..], order);
      StepBack(s, order, i, TokenAt(s, i));
    } else {
      TakeHit(s, order);
    }
  }

  /** Each replaced match grows the line by 8 characters: 4 matched, 12 written. */
  lemma {:induction false} RewriteLength(s: string, order: seq<string>)
    requires Rewriter.IsIterationOrder(order, Replacers)
    ensures |RewriteWith(s, order)| == |s| + 8 * HitCount(s)
    decreases |s|
  {
    if |s| > 0 {
      FirstHitIsTheMatchingRule(s, order);
      if HitAt(s, 0) {
        RewriteLength(s[4..], order);
      } else {
        RewriteLength(s[1..], order);
      }
    }
  }

  /** A character found neither in the line nor in any placeholder never
      appears in the result; in particular no line break is introduced. */
  lemma {:induction false} CharacterNotIntroduced(s: string, order: seq<string>, c: char)
    requires KnownKeys(order)
    requires c !in s
    requires forall k :: k in order ==> c !in k
    ensures c !in RewriteWith(s, order)
    decreases |s|
  {
    if |s| > 0 {
      match FirstHit(s, order)
      case Some(k) =>
        CharacterNotIntroduced(s[Replacers[k].Width()..], order, c);
      case None =>
        CharacterNotIntroduced(s[1..], order, c);
    }
  }

  /** On a line where only the rule keyed `k` ever matches, the single pass
      does exactly what that rule's `ReplaceAll` does. */
  lemma {:induction false} AgreesWithLoneRule(s: string, order: seq<string>, k: string)
    requires Rewriter.IsIterationOrder(order, Replacers)
    requires k in Replacers
    requires forall i: nat, other :: other in Replacers && other != k ==> !Replacers[other].MatchesAt(s, i)
    ensures RewriteWith(s, order) == ReplaceAll(s, Replacers[k], k)
    decreases |s|
  {
    if |s| > 0 {
      ReplacersKeys();
      FirstHitIsTheMatchingRule(s, order);
      var p := Replacers[k];
      assert HitAt(s, 0) <==> p.MatchesAt(s, 0);
      var w := if HitAt(s, 0) then 4 else 1;
      forall i: nat, other | other in Replacers && other != k
        ensures !Replacers[other].MatchesAt(s[w..], i)
      {
        MatchShift(s, Replacers[other], w, i);
      }
      AgreesWithLoneRule(s[w..], order, k);
    }
  }

  /** An `amet` or `Amet` match is kept as it is by the enim rule: no suffix of
      it could start an enim match. */
  lemma AmetWordKeptByEnim(s: string)
    requires Amet.MatchesAt(s, 0)
    ensures ReplaceAll(s, Enim, EnimToken) == s[..4] + ReplaceAll(s[4..], Enim, EnimToken)
  {
    var w := s[..4];
    assert s == w + s[4..];
    assert w[1..4] == "met";
    assert w[0] != 'e' && w[0] != 'E' && w[1] == 'm' && w[2] == 'e' && w[3] == 't';
    forall i: nat | i < |w| ensures !CouldStartMatch(Enim, w[i..]) {
      var t := w[i..];
      assert t[0] == w[i];
      if i == 2 {
        assert t[1] == 't';
      }
    }
    KeepPrefix(w, s[4..], Enim, EnimToken);
  }

  /** An enim match at the start becomes the enim placeholder, which the amet
      rule then keeps. */
  lemma EnimThenAmetOnEnim(s: string)
    requires Enim.MatchesAt(s, 0)
    ensures ReplaceAll(ReplaceAll(s, Enim, EnimToken), Amet, AmetToken)
         == EnimToken + ReplaceAll(ReplaceAll(s[4..], Enim, EnimToken), Amet, AmetToken)
  {
    EnimTokenInertForAmet();
    KeepPrefix(EnimToken, ReplaceAll(s[4..], Enim, EnimToken), Amet, AmetToken);
  }

  /** An amet match at the start is kept by the enim rule and then replaced by
      the amet rule. */
  lemma EnimThenAmetOnAmet(s: string)
    requires Amet.MatchesAt(s, 0)
    ensures ReplaceAll(ReplaceAll(s, Enim, EnimToken), Amet, AmetToken)
         == AmetToken + ReplaceAll(ReplaceAll(s[4..], Enim, EnimToken), Amet, AmetToken)
  {
    var w, y := s[..4], ReplaceAll(s[4..], Enim, EnimToken);
    AmetWordKeptByEnim(s);
    MatchInPrefix(w, y, Amet, 0);
    assert Amet.MatchesAt(w, 0) by {
      assert w[1..4] == s[1..4];
    }
    assert (w + y)[4..] == y;
  }

  /** A character that starts no match is kept by both rules. */
  lemma EnimThenAmetOnMiss(c: char, tail: string)
    requires !HitAt([c] + tail, 0)
    ensures ReplaceAll(ReplaceAll([c] + tail, Enim, EnimToken), Amet, AmetToken)
         == [c] + ReplaceAll(ReplaceAll(tail, Enim, EnimToken), Amet, AmetToken)
  {
    var y := ReplaceAll(tail, Enim, EnimToken);
    KeptFirst(c, tail, tail, Enim, EnimToken);
    Scanner.PrefixPreserved(tail, Enim, EnimToken, Amet.rest);
    KeptFirst(c, tail, y, Amet, AmetToken);
  }

  /** The single pass is the enim rule over the whole line followed by the
      amet rule over the result. */
  lemma {:induction false} EnimThenAmet(s: string)
    ensures RewriteWith(s, Declared) == ReplaceAll(ReplaceAll(s, Enim, EnimToken), Amet, AmetToken)
    decreases |s|
  {
    Rewriter.IterationOrders(Declared);
    if |s| > 0 {
      var w := if HitAt(s, 0) then 4 else 1;
      EnimThenAmet(s[w..]);
      if Enim.MatchesAt(s, 0) {
        TakeHit(s, Declared);
        EnimThenAmetOnEnim(s);
      } else if Amet.MatchesAt(s, 0) {
        TakeHit(s, Declared);
        EnimThenAmetOnAmet(s);
      } else {
        SkipMiss(s, Declared);
        assert s == [s[0]] + s[1..];
        EnimThenAmetOnMiss(s[0], s[1..]);
      }
    }
  }

  /** The rewrite agrees with the program's rule loop run enim rule first, on
      every line. */
  lemma AgreesWithEnimFirst(s: string)
    ensures Rewrite(s) == Rewriter.RewriteInOrder(s, [EnimToken, AmetToken])
  {
    ReplacersKeys();
    Rewriter.TwoPasses(s, EnimToken, AmetToken);
  }

  /** The loop as written leaves no `amet` or `Amet` behind, under either
      iteration order of the map. */
  lemma LoopLeavesNoAmet(line: string, order: seq<string>)
    requires Rewriter.IsIterationOrder(order, Replacers)
    ensures forall i: nat :: !Amet.MatchesAt(Rewriter.RewriteInOrder(line, order), i)
  {
    ReplacersKeys();
    Rewriter.IterationOrders(order);
    Rewriter.AmetRuleIdempotent(line);
    if order == [EnimToken, AmetToken] {
      Rewriter.TwoPasses(line, EnimToken, AmetToken);
      Rewriter.AmetRuleIdempotent(ReplaceAll(line, Enim, EnimToken));
    } else {
      var t := ReplaceAll(line, Amet, AmetToken);
      Rewriter.TwoPasses(line, AmetToken, EnimToken);
      AgreesWithAmetFirst(t);
      Rewriter.TwoPasses(t, AmetToken, EnimToken);
      Rewriter.IterationOrders(Declared);
      NoAmetSurvives(t, Declared);
    }
  }

  /** An `amet` or `Amet` match at position `i` is directly followed by `nim`:
      the one place where the amet placeholder's final `E` can start an enim
      match. */
  predicate AmetNimAt(s: string, i: nat) {
    Amet.MatchesAt(s, i) && WordAt(s, Enim.rest, i + 4)
  }

  /** No `amet` or `Amet` in `s` is directly followed by `nim`. */
  ghost predicate NoAmetNim(s: string) {
    forall i: nat :: !AmetNimAt(s, i)
  }

  /** A word at position `i` is a prefix of the suffix from `i`. */
  lemma WordIsPrefix(s: string, w: string, i: nat)
    requires i <= |s|
    ensures WordAt(s, w, i) <==> w <= s[i..]
  {
    if i + |w| <= |s| {
      assert s[i..][..|w|] == s[i .. i + |w|];
    }
  }

  /** Suffixes of a line without `ametnim` or `Ametnim` hold none either. */
  lemma NoAmetNimSuffix(s: string, k: nat)
    requires k <= |s|
    requires NoAmetNim(s)
    ensures NoAmetNim(s[k..])
  {
    forall i: nat ensures !AmetNimAt(s[k..], i) {
      MatchShift(s, Amet, k, i);
      assert !AmetNimAt(s, k + i);
      assert |Enim.rest| == 3;
      if i + 7 <= |s| - k {
        assert s[k..][i + 4 .. i + 7] == s[k + i + 4 .. k + i + 7];
      }
    }
  }

  /** No suffix of the amet placeholder without its final `E` could start an
      enim match. */
  lemma AmetHeadInertForEnim()
    ensures forall i: nat :: i < 11 ==> !CouldStartMatch(Enim, AmetToken[..11][i..])
  {
    var head := AmetToken[..11];
    forall i: nat | i < |head| ensures !CouldStartMatch(Enim, head[i..]) {
      var t := head[i..];
      assert t[0] == head[i];
      if head[i] == 'E' {
        // `ET` and `EP`: an upper-case letter follows.
        assert t[1] == head[i + 1] != 'n';
      }
    }
  }

  /** The enim rule keeps the amet placeholder in front of text that does not
      start with `nim`: its final `E` starts no match there. */
  lemma AmetTokenKeptByEnim(x: string)
    requires !(Enim.rest <= x)
    ensures ReplaceAll(AmetToken + x, Enim, EnimToken) == AmetToken + ReplaceAll(x, Enim, EnimToken)
  {
    var head, ex := AmetToken[..11], ['E'] + x;
    AmetHeadInertForEnim();
    assert AmetToken == head + ['E'];
    assert AmetToken + x == head + ex;
    KeepPrefix(head, ex, Enim, EnimToken);
    KeptFirst('E', x, x, Enim, EnimToken);
    var rx := ReplaceAll(x, Enim, EnimToken);
    assert ReplaceAll(ex, Enim, EnimToken) == ['E'] + rx;
    assert head + (['E'] + rx) == AmetToken + rx;
  }

  /** An enim match at the start is kept by the amet rule and then replaced by
      the enim rule. */
  lemma AmetThenEnimOnEnim(s: string)
    requires Enim.MatchesAt(s, 0)
    ensures ReplaceAll(ReplaceAll(s, Amet, AmetToken), Enim, EnimToken)
         == EnimToken + ReplaceAll(ReplaceAll(s[4..], Amet, AmetToken), Enim, EnimToken)
  {
    var w := s[..4];
    var y := ReplaceAll(s[4..], Amet, AmetToken);
    assert s == w + s[4..];
    assert w[1..4] == "nim";
    forall i: nat | i < |w| ensures !CouldStartMatch(Amet, w[i..]) {
      assert w[i..][0] == w[i];
    }
    KeepPrefix(w, s[4..], Amet, AmetToken);
    MatchInPrefix(w, y, Enim, 0);
    assert Enim.MatchesAt(w, 0) by {
      assert w[1..4] == s[1..4];
    }
    assert (w + y)[4..] == y;
  }

  /** An amet match not followed by `nim` becomes the amet placeholder, which
      the enim rule then keeps. */
  lemma AmetThenEnimOnAmet(s: string)
    requires Amet.MatchesAt(s, 0) && !AmetNimAt(s, 0)
    ensures ReplaceAll(ReplaceAll(s, Amet, AmetToken), Enim, EnimToken)
         == AmetToken + ReplaceAll(ReplaceAll(s[4..], Amet, AmetToken), Enim, EnimToken)
  {
    var y := ReplaceAll(s[4..], Amet, AmetToken);
    WordIsPrefix(s, Enim.rest, 4);
    Scanner.PrefixPreserved(s[4..], Amet, AmetToken, Enim.rest);
    AmetTokenKeptByEnim(y);
  }

  /** A character that starts no match is kept by both rules. */
  lemma AmetThenEnimOnMiss(c: char, tail: string)
    requires !HitAt([c] + tail, 0)
    ensures ReplaceAll(ReplaceAll([c] + tail, Amet, AmetToken), Enim, EnimToken)
         == [c] + ReplaceAll(ReplaceAll(tail, Amet, AmetToken), Enim, EnimToken)
  {
    var y := ReplaceAll(tail, Amet, AmetToken);
    KeptFirst(c, tail, tail, Amet, AmetToken);
    Scanner.PrefixPreserved(tail, Amet, AmetToken, Enim.rest);
    KeptFirst(c, tail, y, Enim, EnimToken);
  }

  /** On a line where no `amet` or `Amet` is directly followed by `nim`, the
      single pass is also the amet rule followed by the enim rule. */
  lemma {:induction false} AmetThenEnim(s: string)
    requires NoAmetNim(s)
    ensures RewriteWith(s, Declared) == ReplaceAll(ReplaceAll(s, Amet, AmetToken), Enim, EnimToken)
    decreases |s|
  {
    Rewriter.IterationOrders(Declared);
    if |s| > 0 {
      var w := if HitAt(s, 0) then 4 else 1;
      NoAmetNimSuffix(s, w);
      AmetThenEnim(s[w..]);
      if Enim.MatchesAt(s, 0) {
        TakeHit(s, Declared);
        AmetThenEnimOnEnim(s);
      } else if Amet.MatchesAt(s, 0) {
        TakeHit(s, Declared);
        AmetThenEnimOnAmet(s);
      } else {
        SkipMiss(s, Declared);
        assert s == [s[0]] + s[1..];
        AmetThenEnimOnMiss(s[0], s[1..]);
      }
    }
  }

  /** On a line where no `amet` or `Amet` is directly followed by `nim`, the
      fixed order also agrees with the program's rule loop run amet rule
      first. */
  lemma AgreesWithAmetFirst(s: string)
    requires NoAmetNim(s)
    ensures Rewrite(s) == Rewriter.RewriteInOrder(s, [AmetToken, EnimToken])
  {
    ReplacersKeys();
    AmetThenEnim(s);
    Rewriter.TwoPasses(s, AmetToken, EnimToken);
  }

  /** The program's output for a line is the same under both iteration orders
      of the map unless the line holds `ametnim` or `Ametnim`; `ametnim` itself
      shows that this exception is real (`Rewriter.RuleOrderMatters`). */
  lemma OrderMattersOnlyForAmetnim(s: string, order: seq<string>)
    requires Rewriter.IsIterationOrder(order, Replacers)
    requires NoAmetNim(s)
    ensures Rewriter.RewriteInOrder(s, order) == Rewrite(s)
  {
    Rewriter.IterationOrders(order);
    if order == [EnimToken, AmetToken] {
      AgreesWithEnimFirst(s);
    } else {
      AgreesWithAmetFirst(s);
    }
  }

  /** The enim placeholder cannot take part in a match of `[aA]met` either. */
  lemma EnimTokenInertForAmet()
    ensures Inert(Amet, EnimToken)
  {
    forall i: nat | i < |EnimToken| ensures !CouldStartMatch(Amet, EnimToken[i..]) {
      var t := EnimToken[i..];
      assert t[0] == EnimToken[i];
      if i == 9 {
        // `ACE` continues with an upper-case letter.
        assert t[1] == EnimToken[i + 1] != 'm';
      } else {
        assert EnimToken[i] != 'a' && EnimToken[i] != 'A';
      }
    }
  }

  /** After a hit, the pass output starts with the placeholder's capital. */
  lemma StartsWithCapital(t: string, order: seq<string>)
    requires Rewriter.IsIterationOrder(order, Replacers)
    requires HitAt(t, 0)
    ensures |RewriteWith(t, order)| > 0
    ensures RewriteWith(t, order)[0] == 'A' || RewriteWith(t, order)[0] == 'E'
  {
    TakeHit(t, order);
    var k := TokenAt(t, 0);
    assert k[0] == 'A' || k[0] == 'E';
  }

  /** A prefix of a kept character and a rest is a prefix of that character
      and the original text when its tail was. */
  lemma PrefixAfterKept(c: char, w: string, rest: string, tail: string)
    requires |w| > 0
    requires w[1..] <= rest ==> w[1..] <= tail
    ensures w <= [c] + rest ==> w <= [c] + tail
  {
    if w <= [c] + rest {
      assert w[1..] <= rest;
      assert w == [c] + w[1..];
    }
  }

  /** A prefix without `A` or `E`, the placeholders' first characters, survives
      the pass only if it was already a prefix of the input. */
  lemma {:induction false} PrefixPreserved(t: string, order: seq<string>, w: string)
    requires Rewriter.IsIterationOrder(order, Replacers)
    requires forall j :: 0 <= j < |w| ==> w[j] != 'A' && w[j] != 'E'
    ensures w <= RewriteWith(t, order) ==> w <= t
    decreases |t|
  {
    if |w| > 0 && |t| > 0 {
      if HitAt(t, 0) {
        StartsWithCapital(t, order);
      } else {
        SkipMiss(t, order);
        PrefixPreserved(t[1..], order, w[1..]);
        PrefixAfterKept(t[0], w, RewriteWith(t[1..], order), t[1..]);
        assert t == [t[0]] + t[1..];
      }
    }
  }

  /** A placeholder in front of text without `amet` or `Amet` leaves none. */
  lemma NoAmetAfterPlaceholder(k: string, rest: string)
    requires k == AmetToken || k == EnimToken
    requires forall i: nat :: !Amet.MatchesAt(rest, i)
    ensures forall i: nat :: !Amet.MatchesAt(k + rest, i)
  {
    Rewriter.AmetTokenInert();
    EnimTokenInertForAmet();
    NoMatchAfterToken(k, rest, Amet);
  }

  /** No `amet` or `Amet` is left in the result. */
  lemma {:induction false} NoAmetSurvives(s: string, order: seq<string>)
    requires Rewriter.IsIterationOrder(order, Replacers)
    ensures forall i: nat :: !Amet.MatchesAt(RewriteWith(s, order), i)
    decreases |s|
  {
    if |s| > 0 {
      if HitAt(s, 0) {
        TakeHit(s, order);
        NoAmetSurvives(s[4..], order);
        NoAmetAfterPlaceholder(TokenAt(s, 0), RewriteWith(s[4..], order));
      } else {
        SkipMiss(s, order);
        NoAmetSurvives(s[1..], order);
        PrefixPreserved(s[1..], order, Amet.rest);
        assert s == [s[0]] + s[1..];
        NoMatchAfterKept(s[0], s[1..], RewriteWith(s[1..], order), Amet);
      }
    }
  }

  /** `Enim` can still appear in the result: the enim placeholder's final `E`
      followed by `nim` from the line. So the rewrite is not idempotent,
      although it never rewrites a placeholder within one pass. */
  lemma EnimCanResurface()
    ensures Rewrite("enimnim") == "ENIM_REPLACEnim"
    ensures Enim.MatchesAt(Rewrite("enimnim"), 11)
  {
    Rewriter.EnimRuleNotIdempotent();
    EnimTokenInertForAmet();
    KeepPrefix(EnimToken, "nim", Amet, AmetToken);
  }

  /** The rewrite is not idempotent: a second pass over `enimnim`'s result
      replaces the `Enim` that resurfaced, so the line grows again. */
  lemma RewriteNotIdempotent()
    ensures Rewrite(Rewrite("enimnim")) != Rewrite("enimnim")
  {
    var r := Rewrite("enimnim");
    EnimCanResurface();
    MatchIsRewritten(r, Enim, EnimToken, 11);
    assert |Rewrite(r)| >= |ReplaceAll(r, Enim, EnimToken)| > |r|;
  }

  /** A line containing none of `amet`, `Amet`, `enim`, `Enim` is returned
      unchanged; other capitalisations such as `AMET` or `eNIM` do not count. */
  lemma UnchangedWithoutWords(line: string)
    requires forall i: nat ::
      && !WordAt(line, "amet", i) && !WordAt(line, "Amet", i)
      && !WordAt(line, "enim", i) && !WordAt(line, "Enim", i)
    ensures Rewrite(line) == line
  {
    assert [Amet.lower] + Amet.rest == "amet" && [Amet.upper] + Amet.rest == "Amet";
    assert [Enim.lower] + Enim.rest == "enim" && [Enim.upper] + Enim.rest == "Enim";
    forall i: nat ensures !HitAt(line, i) {
      MatchIsOneOfTwoSpellings(Amet, line, i);
      MatchIsOneOfTwoSpellings(Enim, line, i);
    }
  }

  /** No rule matches in a word whose tail is `MET` or `NIM` in upper case. */
  lemma NoHitInUpperTail(c: char, tail: string)
    requires tail == "MET" || tail == "NIM"
    ensures forall i: nat :: !HitAt([c] + tail, i)
  {
    var w := [c] + tail;
    forall i: nat ensures !HitAt(w, i) {
      if i == 0 {
        assert w[1] == tail[0];
      }
    }
  }

  /** Only the first letter has a case choice: whatever it is, a word whose
      tail is `MET` or `NIM` in upper case is left alone. */
  lemma TailCaseMatters(c: char, tail: string)
    requires tail == "MET" || tail == "NIM"
    ensures Rewrite([c] + tail) == [c] + tail
  {
    NoHitInUpperTail(c, tail);
  }

  /** Each of the four matching spellings, on its own, becomes its rule's placeholder. */
  lemma WordBecomesPlaceholder(w: string)
    requires w in {"amet", "Amet", "enim", "Enim"}
    ensures Rewrite(w) == if w[0] == 'a' || w[0] == 'A' then AmetToken else EnimToken
  {
    Rewriter.IterationOrders(Declared);
    assert w[1..4] == "met" || w[1..4] == "nim";
    assert HitAt(w, 0);
    FirstHitIsTheMatchingRule(w, Declared);
    assert |w[4..]| == 0;
  }
}

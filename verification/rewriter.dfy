/** The line rewrite as the program writes it: `modify` applied once per entry
    of the replacer map, in whatever order Go's map iteration yields. */
module Rewriter {
  import opened Patterns
  import opened Scanner

  /** `order` is one way of iterating over `m`: every key exactly once. */
  predicate IsIterationOrder(order: seq<string>, m: map<string, Pattern>) {
    && |order| == |m|
    && (forall k :: k in m ==> k in order)
    && (forall k :: k in order ==> k in m)
    && (forall i, j :: 0 <= i < j < |order| ==> order[i] != order[j])
  }

  /** Apply `modify` for each replacer of `order` in turn, each pass working on
      the output of the previous one. A line that no rule matches comes back
      unchanged, whatever the order. */
  function RewriteInOrder(line: string, order: seq<string>): (r: string)
    requires forall k :: k in order ==> k in Replacers
    ensures (forall i: nat, k :: k in Replacers ==> !Replacers[k].MatchesAt(line, i)) ==> r == line
    decreases |order|
  {
    if |order| == 0 then line
    else
      PassThrough(line, Replacers[order[0]], order[0]);
      RewriteInOrder(ReplaceAll(line, Replacers[order[0]], order[0]), order[1..])
  }

  /** Both passes of a two-rule order, one after the other. */
  lemma TwoPasses(line: string, k1: string, k2: string)
    requires k1 in Replacers && k2 in Replacers
    ensures RewriteInOrder(line, [k1, k2])
         == ReplaceAll(ReplaceAll(line, Replacers[k1], k1), Replacers[k2], k2)
  {
    var mid := ReplaceAll(line, Replacers[k1], k1);
    assert [k1, k2][1..] == [k2];
    assert RewriteInOrder(line, [k1, k2]) == RewriteInOrder(mid, [k2]);
    assert [k2][1..] == [];
  }

  /** Go may iterate over the two-entry map in exactly two ways. */
  lemma IterationOrders(order: seq<string>)
    ensures IsIterationOrder(order, Replacers) <==>
              order == [AmetToken, EnimToken] || order == [EnimToken, AmetToken]
  {
    ReplacersKeys();
    if IsIterationOrder(order, Replacers) {
      assert AmetToken in order && EnimToken in order;
      assert order[0] == AmetToken || order[0] == EnimToken;
    }
  }

  /** A character found neither in the line nor in any placeholder of the
      order never appears in the result; in particular no line break is
      introduced. */
  lemma {:induction false} CharacterNotIntroduced(line: string, order: seq<string>, c: char)
    requires forall k :: k in order ==> k in Replacers
    requires c !in line
    requires forall k :: k in order ==> c !in k
    ensures c !in RewriteInOrder(line, order)
    decreases |order|
  {
    if |order| > 0 {
      Scanner.CharacterNotIntroduced(line, Replacers[order[0]], order[0], c);
      CharacterNotIntroduced(ReplaceAll(line, Replacers[order[0]], order[0]), order[1..], c);
    }
  }

  /** The amet placeholder cannot take part in a match of `[aA]met`. */
  lemma AmetTokenInert()
    ensures Inert(Amet, AmetToken)
  {
    forall i: nat | i < |AmetToken| ensures !CouldStartMatch(Amet, AmetToken[i..]) {
      var t := AmetToken[i..];
      assert t[0] == AmetToken[i];
      if i == 0 || i == 9 {
        // `AMET...` and `ACE` both continue with an upper-case letter.
        assert t[1] == AmetToken[i + 1] != 'm';
      } else {
        assert AmetToken[i] != 'a' && AmetToken[i] != 'A';
      }
    }
  }

  /** The amet rule on its own leaves no `amet` or `Amet` behind, so running it
      again changes nothing. */
  lemma AmetRuleIdempotent(s: string)
    ensures forall i: nat :: !Amet.MatchesAt(ReplaceAll(s, Amet, AmetToken), i)
    ensures ReplaceAll(ReplaceAll(s, Amet, AmetToken), Amet, AmetToken) == ReplaceAll(s, Amet, AmetToken)
  {
    AmetTokenInert();
    NoSurvivor(s, Amet, AmetToken);
    Idempotent(s, Amet, AmetToken);
  }

  /** The enim placeholder ends in `E`: followed by `nim` in the rest of the
      line, it forms a fresh `Enim` match, so the enim rule is not idempotent. */
  lemma EnimRuleNotIdempotent()
    ensures ReplaceAll("enimnim", Enim, EnimToken) == "ENIM_REPLACEnim"
    ensures Enim.MatchesAt(ReplaceAll("enimnim", Enim, EnimToken), 11)
    ensures ReplaceAll(ReplaceAll("enimnim", Enim, EnimToken), Enim, EnimToken) != ReplaceAll("enimnim", Enim, EnimToken)
  {
    var line := "enimnim";
    assert line[1..4] == "nim";
    assert line[4..] == "nim";
    var r := ReplaceAll(line, Enim, EnimToken);
    assert r == EnimToken + "nim";
    assert r[12..15] == "nim";
    MatchIsRewritten(r, Enim, EnimToken, 11);
  }

  /** `ametnim` under the amet rule: the match at 0 becomes the placeholder. */
  lemma AmetRuleOnAmetnim()
    ensures ReplaceAll("ametnim", Amet, AmetToken) == "AMET_REPLACEnim"
  {
    var line := "ametnim";
    assert line[1..4] == "met";
    assert line[4..] == "nim";
  }

  /** `ametnim` under the enim rule: no match, nothing changes. */
  lemma EnimRuleOnAmetnim()
    ensures ReplaceAll("ametnim", Enim, EnimToken) == "ametnim"
  {
    var line := "ametnim";
    forall j: nat ensures !Enim.MatchesAt(line, j) {
      if j == 2 {
        assert line[j + 1] != 'n';
      } else if j < |line| {
        assert line[j] != 'e' && line[j] != 'E';
      }
    }
    PassThrough(line, Enim, EnimToken);
  }

  /** The amet placeholder followed by `nim`: its final `E` starts an `Enim` match. */
  lemma EnimRuleAfterAmetPlaceholder(mid: string)
    requires mid == "AMET_REPLACEnim"
    ensures ReplaceAll(mid, Enim, EnimToken) == "AMET_REPLACENIM_REPLACE"
  {
    assert mid[12..15] == "nim";
    forall j: nat | j < 11 ensures !Enim.MatchesAt(mid, j) {
      if j == 2 || j == 6 {
        assert mid[j + 1] != 'n';
      } else {
        assert mid[j] != 'e' && mid[j] != 'E';
      }
    }
    Leftmost(mid, Enim, EnimToken, 11);
    assert mid[15..] == "";
    assert mid[..11] == "AMET_REPLAC";
  }

  /** The two iteration orders of the replacer map give different lines: the
      result of the program depends on Go's map iteration order. */
  lemma RuleOrderMatters()
    ensures IsIterationOrder([AmetToken, EnimToken], Replacers)
    ensures IsIterationOrder([EnimToken, AmetToken], Replacers)
    ensures RewriteInOrder("ametnim", [AmetToken, EnimToken]) == "AMET_REPLACENIM_REPLACE"
    ensures RewriteInOrder("ametnim", [EnimToken, AmetToken]) == "AMET_REPLACEnim"
  {
    var line := "ametnim";
    IterationOrders([AmetToken, EnimToken]);
    IterationOrders([EnimToken, AmetToken]);
    AmetRuleOnAmetnim();
    EnimRuleOnAmetnim();
    EnimRuleAfterAmetPlaceholder(ReplaceAll(line, Amet, AmetToken));
    TwoPasses(line, AmetToken, EnimToken);
    TwoPasses(line, EnimToken, AmetToken);
  }
}

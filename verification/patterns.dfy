/** The two fixed replacement rules of the anonymiser and the map that holds them. */
module Patterns {

  /** A fixed-width pattern `[lower upper]rest`: one of two characters, then a
      literal tail. Only the first character has a case choice. */
  datatype Pattern = Pattern(lower: char, upper: char, rest: string)
  {
    /** Number of characters every match spans. */
    function Width(): nat {
      1 + |rest|
    }

    /** True iff a match of this pattern starts at position `i` of `s`. */
    predicate MatchesAt(s: string, i: nat) {
      && i + Width() <= |s|
      && (s[i] == lower || s[i] == upper)
      && s[i + 1 .. i + Width()] == rest
    }
  }

  /** `[aA]met` */
  const Amet: Pattern := Pattern('a', 'A', "met")

  /** `[eE]nim` */
  const Enim: Pattern := Pattern('e', 'E', "nim")

  const AmetToken: string := "AMET_REPLACE"
  const EnimToken: string := "ENIM_REPLACE"

  /** The replacer map: each placeholder token is the key of the pattern it replaces. */
  const Replacers: map<string, Pattern> := map[AmetToken := Amet, EnimToken := Enim]

  /** True iff the word `w` occurs in `s` at position `i`. */
  predicate WordAt(s: string, w: string, i: nat) {
    i + |w| <= |s| && s[i .. i + |w|] == w
  }

  /** A match is exactly one of the two spellings that differ in the first
      letter; any other capitalisation of the tail does not match. */
  lemma MatchIsOneOfTwoSpellings(p: Pattern, s: string, i: nat)
    ensures p.MatchesAt(s, i) <==> WordAt(s, [p.lower] + p.rest, i) || WordAt(s, [p.upper] + p.rest, i)
  {
    var w := p.Width();
    if i + w <= |s| {
      var t := s[i .. i + w];
      assert t == [s[i]] + s[i + 1 .. i + w];
      assert t == [p.lower] + p.rest <==> t[0] == p.lower && t[1..] == p.rest;
      assert t == [p.upper] + p.rest <==> t[0] == p.upper && t[1..] == p.rest;
    }
  }

  /** The two patterns cannot match at the same position, because their first
      characters are disjoint. */
  lemma PatternsExclusive(s: string, i: nat)
    ensures !(Amet.MatchesAt(s, i) && Enim.MatchesAt(s, i))
  {
  }

  /** The map has exactly the two rules. */
  lemma ReplacersKeys()
    ensures Replacers.Keys == {AmetToken, EnimToken}
    ensures AmetToken != EnimToken
    ensures |Replacers| == 2
  {
    assert AmetToken[0] != EnimToken[0];
    assert Replacers.Keys == {AmetToken, EnimToken};
  }
}

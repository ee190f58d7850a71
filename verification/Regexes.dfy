/** The part of regular expression syntax that the manifest patterns use. */
module Regexes {
  import opened Options

  /** A bracketed character class, as its list of ranges. */
  datatype Class = Class(ranges: seq<(char, char)>) {
    predicate Has(c: char) {
      exists i :: 0 <= i < |ranges| && ranges[i].0 <= c <= ranges[i].1
    }

    predicate HasAll(s: string) {
      forall i :: 0 <= i < |s| ==> Has(s[i])
    }
  }

  datatype Regex =
    | Literal(text: string)
    | Many(cls: Class, least: nat, most: Option<nat>)
    | Then(first: Regex, second: Regex)
    | Optional(body: Regex)

  /** `MatchString` for a pattern anchored at both ends. */
  ghost predicate Matches(r: Regex, s: string)
    decreases r
  {
    match r
    case Literal(text) => s == text
    case Many(cls, least, most) => least <= |s| && (most.Some? ==> |s| <= most.value) && cls.HasAll(s)
    case Then(first, second) => exists i :: 0 <= i <= |s| && Matches(first, s[..i]) && Matches(second, s[i..])
    case Optional(body) => s == "" || Matches(body, s)
  }

  lemma ThenJoins(first: Regex, second: Regex, a: string, b: string)
    requires Matches(first, a) && Matches(second, b)
    ensures Matches(Then(first, second), a + b)
  {
    assert (a + b)[..|a|] == a && (a + b)[|a|..] == b;
  }

  lemma ThenSplits(first: Regex, second: Regex, s: string) returns (a: string, b: string)
    requires Matches(Then(first, second), s)
    ensures s == a + b && Matches(first, a) && Matches(second, b)
  {
    var i :| 0 <= i <= |s| && Matches(first, s[..i]) && Matches(second, s[i..]);
    a, b := s[..i], s[i..];
  }
}

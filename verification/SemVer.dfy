/** The version pattern of `server/internal/models/skill.go`, against the grammar of
    Semantic Versioning 2.0.0. */
module SemVer {
  import opened Options
  import opened Regexes

  const DIGIT := Class([('0', '9')])
  const TAG := Class([('0', '9'), ('A', 'Z'), ('a', 'z'), ('.', '.'), ('-', '-')])

  const DIGITS := Many(DIGIT, 1, None)
  const TAGS := Many(TAG, 1, None)
  const PRE_RE := Optional(Then(Literal("-"), TAGS))
  const BUILD_RE := Optional(Then(Literal("+"), TAGS))
  const PATCH_RE := Then(DIGITS, Then(PRE_RE, BUILD_RE))
  const MINOR_RE := Then(DIGITS, Then(Literal("."), PATCH_RE))

  /** `^\d+\.\d+\.\d+(?:-[0-9A-Za-z.-]+)?(?:\+[0-9A-Za-z.-]+)?$` */
  const SEMVER_RE := Then(DIGITS, Then(Literal("."), MINOR_RE))

  datatype Version = Version(major: string, minor: string, patch: string, pre: Option<string>, build: Option<string>)

  function Suffix(mark: string, tag: Option<string>): string {
    match tag
    case None => ""
    case Some(text) => mark + text
  }

  function Print(v: Version): string {
    v.major + ("." + (v.minor + ("." + (v.patch + (Suffix("-", v.pre) + Suffix("+", v.build))))))
  }

  predicate IsDigit(c: char) {
    '0' <= c <= '9'
  }

  /** ASCII letters, digits and the dash. */
  predicate IsIdentChar(c: char) {
    IsDigit(c) || 'A' <= c <= 'Z' || 'a' <= c <= 'z' || c == '-'
  }

  predicate IsDigits(s: string) {
    s != "" && forall i :: 0 <= i < |s| ==> IsDigit(s[i])
  }

  predicate IsTag(tag: Option<string>) {
    tag.Some? ==>
      tag.value != "" && forall i :: 0 <= i < |tag.value| ==> IsIdentChar(tag.value[i]) || tag.value[i] == '.'
  }

  lemma Classes()
    ensures forall c :: DIGIT.Has(c) <==> IsDigit(c)
    ensures forall c :: TAG.Has(c) <==> IsIdentChar(c) || c == '.'
  {
    forall c
      ensures DIGIT.Has(c) <==> IsDigit(c)
      ensures TAG.Has(c) <==> IsIdentChar(c) || c == '.'
    {
      assert DIGIT.ranges[0] == ('0', '9') && TAG.ranges[0] == ('0', '9');
      assert TAG.ranges[1] == ('A', 'Z') && TAG.ranges[2] == ('a', 'z');
      assert TAG.ranges[3] == ('.', '.') && TAG.ranges[4] == ('-', '-');
    }
  }

  lemma TagChars(tag: Option<string>)
    ensures IsTag(tag) <==> tag.None? || (tag.value != "" && TAG.HasAll(tag.value))
  {
    Classes();
    hide Class.Has;
  }

  predicate WellFormed(v: Version) {
    IsDigits(v.major) && IsDigits(v.minor) && IsDigits(v.patch) && IsTag(v.pre) && IsTag(v.build)
  }

  // ---------- the pattern accepts exactly the printed versions ----------

  lemma SuffixMatches(mark: string, tag: Option<string>)
    requires IsTag(tag)
    ensures Matches(Optional(Then(Literal(mark), TAGS)), Suffix(mark, tag))
  {
    TagChars(tag);
    if tag.Some? {
      ThenJoins(Literal(mark), TAGS, mark, tag.value);
    }
  }

  lemma PrintedIsAccepted(v: Version)
    requires WellFormed(v)
    ensures Matches(SEMVER_RE, Print(v))
  {
    hide Matches;
    SuffixMatches("-", v.pre);
    SuffixMatches("+", v.build);
    DigitsMatch(v.major);
    DigitsMatch(v.minor);
    DigitsMatch(v.patch);
    DotMatches();
    var tail := Suffix("-", v.pre) + Suffix("+", v.build);
    ThenJoins(PRE_RE, BUILD_RE, Suffix("-", v.pre), Suffix("+", v.build));
    ThenJoins(DIGITS, Then(PRE_RE, BUILD_RE), v.patch, tail);
    ThenJoins(Literal("."), PATCH_RE, ".", v.patch + tail);
    ThenJoins(DIGITS, Then(Literal("."), PATCH_RE), v.minor, "." + (v.patch + tail));
    ThenJoins(Literal("."), MINOR_RE, ".", v.minor + ("." + (v.patch + tail)));
    ThenJoins(DIGITS, Then(Literal("."), MINOR_RE), v.major, "." + (v.minor + ("." + (v.patch + tail))));
  }

  lemma DigitsMatch(s: string)
    ensures Matches(DIGITS, s) <==> s != "" && DIGIT.HasAll(s)
    ensures Matches(DIGITS, s) <==> IsDigits(s)
  {
    Classes();
    hide Class.Has;
  }

  lemma DotMatches()
    ensures Matches(Literal("."), ".")
  {
  }

  lemma SuffixOf(mark: string, s: string) returns (tag: Option<string>)
    requires Matches(Optional(Then(Literal(mark), TAGS)), s)
    ensures IsTag(tag) && s == Suffix(mark, tag)
  {
    if s == "" {
      tag := None;
    } else {
      var a, b := ThenSplits(Literal(mark), TAGS, s);
      tag := Some(b);
      TagChars(tag);
    }
  }

  lemma DigitsThenDot(rest: Regex, s: string) returns (digits: string, after: string)
    requires Matches(Then(DIGITS, Then(Literal("."), rest)), s)
    ensures IsDigits(digits) && Matches(rest, after) && s == digits + ("." + after)
  {
    var tail, dot;
    digits, tail := ThenSplits(DIGITS, Then(Literal("."), rest), s);
    DigitsMatch(digits);
    dot, after := ThenSplits(Literal("."), rest, tail);
  }

  lemma AcceptedIsPrinted(s: string) returns (v: Version)
    requires Matches(SEMVER_RE, s)
    ensures WellFormed(v) && Print(v) == s
  {
    hide Matches;
    var major, s1 := DigitsThenDot(MINOR_RE, s);
    var minor, s2 := DigitsThenDot(PATCH_RE, s1);
    var patch, s3 := ThenSplits(DIGITS, Then(PRE_RE, BUILD_RE), s2);
    DigitsMatch(patch);
    var s4, s5 := ThenSplits(PRE_RE, BUILD_RE, s3);
    var pre := SuffixOf("-", s4);
    var build := SuffixOf("+", s5);
    v := Version(major, minor, patch, pre, build);
  }

  // ---------- in exactly one way ----------

  /** The rest of a string after a run of a class: empty, or starting outside the class. */
  predicate Stops(cls: Class, rest: string) {
    rest != "" ==> !cls.Has(rest[0])
  }

  lemma LongestRun(cls: Class, a: string, x: string, b: string, y: string)
    requires a + x == b + y && cls.HasAll(a) && cls.HasAll(b) && Stops(cls, x) && Stops(cls, y)
    ensures a == b && x == y
  {
    var s := a + x;
    assert forall k :: 0 <= k < |a| ==> s[k] == a[k];
    assert forall k :: 0 <= k < |b| ==> s[k] == (b + y)[k] == b[k];
    assert x != "" ==> s[|a|] == x[0];
    assert y != "" ==> (b + y)[|b|] == y[0];
    assert |a| == |b|;
    assert a == s[..|a|] && b == (b + y)[..|b|];
    assert x == s[|a|..] && y == (b + y)[|b|..];
  }

  lemma AfterDot(a: string, b: string)
    requires "." + a == "." + b
    ensures a == b
  {
    assert a == ("." + a)[1..] && b == ("." + b)[1..];
  }

  /** The first character after the core tells whether there is a pre-release. */
  lemma DashMeansPre(pre: Option<string>, build: Option<string>)
    ensures var s := Suffix("-", pre) + Suffix("+", build);
      && (pre.Some? <==> s != "" && s[0] == '-')
      && (pre.Some? ==> s[1..] == pre.value + Suffix("+", build))
      && (pre.None? ==> s == Suffix("+", build))
  {
  }

  lemma BuildIsUnique(build: Option<string>, build': Option<string>)
    requires Suffix("+", build) == Suffix("+", build')
    ensures build == build'
  {
    assert build.Some? ==> build.value == Suffix("+", build)[1..];
    assert build'.Some? ==> build'.value == Suffix("+", build')[1..];
  }

  lemma SuffixesAreUnique(pre: Option<string>, build: Option<string>, pre': Option<string>, build': Option<string>)
    requires IsTag(pre) && IsTag(build) && IsTag(pre') && IsTag(build')
    requires Suffix("-", pre) + Suffix("+", build) == Suffix("-", pre') + Suffix("+", build')
    ensures pre == pre' && build == build'
  {
    DashMeansPre(pre, build);
    DashMeansPre(pre', build');
    if pre.Some? {
      Classes();
      TagChars(pre);
      TagChars(pre');
      hide Class.Has;
      LongestRun(TAG, pre.value, Suffix("+", build), pre'.value, Suffix("+", build'));
    }
    BuildIsUnique(build, build');
  }

  lemma PrintIsInjective(v: Version, w: Version)
    requires WellFormed(v) && WellFormed(w) && Print(v) == Print(w)
    ensures v == w
  {
    var vs, ws := Suffix("-", v.pre) + Suffix("+", v.build), Suffix("-", w.pre) + Suffix("+", w.build);
    var v2, w2 := v.minor + ("." + (v.patch + vs)), w.minor + ("." + (w.patch + ws));
    Classes();
    DigitsMatch(v.major);
    DigitsMatch(w.major);
    DigitsMatch(v.minor);
    DigitsMatch(w.minor);
    DigitsMatch(v.patch);
    DigitsMatch(w.patch);
    hide Matches, Class.Has, Class.HasAll;
    LongestRun(DIGIT, v.major, "." + v2, w.major, "." + w2);
    AfterDot(v2, w2);
    LongestRun(DIGIT, v.minor, "." + (v.patch + vs), w.minor, "." + (w.patch + ws));
    AfterDot(v.patch + vs, w.patch + ws);
    LongestRun(DIGIT, v.patch, vs, w.patch, ws);
    SuffixesAreUnique(v.pre, v.build, w.pre, w.build);
  }

  /** Every accepted string splits into core, pre-release and build in exactly one way, and only accepted
      strings do. */
  lemma AcceptsExactlyOneSplit(s: string)
    ensures Matches(SEMVER_RE, s) <==> exists v :: WellFormed(v) && Print(v) == s
    ensures forall v, w :: WellFormed(v) && Print(v) == s && WellFormed(w) && Print(w) == s ==> v == w
  {
    hide Matches;
    if Matches(SEMVER_RE, s) {
      var v := AcceptedIsPrinted(s);
    }
    forall v | WellFormed(v) && Print(v) == s
      ensures Matches(SEMVER_RE, s)
    {
      PrintedIsAccepted(v);
    }
    forall v, w | WellFormed(v) && Print(v) == s && WellFormed(w) && Print(w) == s
      ensures v == w
    {
      PrintIsInjective(v, w);
    }
  }

  // ---------- against Semantic Versioning 2.0.0 ----------

  /** Items 2 and 9: a number has no leading zero. */
  predicate IsNumber(s: string) {
    IsDigits(s) && (s[0] == '0' ==> |s| == 1)
  }

  /** Items 9 and 10: identifiers are not empty; numeric pre-release identifiers are numbers. */
  predicate IsIdentifier(s: string, numbersOnly: bool) {
    s != "" && (forall i :: 0 <= i < |s| ==> IsIdentChar(s[i])) && (numbersOnly && IsDigits(s) ==> IsNumber(s))
  }

  /** The dot-separated pieces of a string. */
  function Pieces(s: string): (pieces: seq<string>)
    ensures pieces != []
  {
    if s == "" then [""]
    else
      var rest := Pieces(s[1..]);
      if s[0] == '.' then [""] + rest else [[s[0]] + rest[0]] + rest[1..]
  }

  predicate AreIdentifiers(tag: Option<string>, numbersOnly: bool) {
    tag.Some? ==> forall i :: 0 <= i < |Pieces(tag.value)| ==> IsIdentifier(Pieces(tag.value)[i], numbersOnly)
  }

  /** The versions of Semantic Versioning 2.0.0. */
  predicate Strict(v: Version) {
    && IsNumber(v.major) && IsNumber(v.minor) && IsNumber(v.patch)
    && AreIdentifiers(v.pre, true) && AreIdentifiers(v.build, false)
  }

  /** If every piece is made of identifier characters, the string is made of those and dots. */
  lemma {:induction false} PiecesCoverTag(s: string)
    requires forall i, k :: 0 <= i < |Pieces(s)| && 0 <= k < |Pieces(s)[i]| ==> IsIdentChar(Pieces(s)[i][k])
    ensures forall i :: 0 <= i < |s| ==> IsIdentChar(s[i]) || s[i] == '.'
  {
    if s != "" {
      hide IsIdentChar;
      var rest, all := Pieces(s[1..]), Pieces(s);
      forall i, k | 0 <= i < |rest| && 0 <= k < |rest[i]|
        ensures IsIdentChar(rest[i][k])
      {
        if s[0] == '.' {
          assert all[i + 1][k] == rest[i][k];
        } else if i == 0 {
          assert all[0][k + 1] == rest[0][k];
        } else {
          assert all[i][k] == rest[i][k];
        }
      }
      PiecesCoverTag(s[1..]);
      if s[0] != '.' {
        assert IsIdentChar(all[0][0]);
      }
      assert forall i :: 1 <= i < |s| ==> s[i] == s[1..][i - 1];
    }
  }

  lemma StrictTag(tag: Option<string>, numbersOnly: bool)
    requires AreIdentifiers(tag, numbersOnly)
    ensures IsTag(tag)
  {
    if tag.Some? {
      assert Pieces("") == [""];
      assert IsIdentifier(Pieces(tag.value)[0], numbersOnly);
      forall i, k | 0 <= i < |Pieces(tag.value)| && 0 <= k < |Pieces(tag.value)[i]|
        ensures IsIdentChar(Pieces(tag.value)[i][k])
      {
        assert IsIdentifier(Pieces(tag.value)[i], numbersOnly);
      }
      PiecesCoverTag(tag.value);
    }
  }

  /** Every Semantic Versioning 2.0.0 version is accepted. An accepted string is one exactly when its one
      split has no leading zeros and no empty identifier. */
  lemma AcceptsAllSemVer(v: Version)
    ensures Strict(v) ==> WellFormed(v) && Matches(SEMVER_RE, Print(v))
    ensures WellFormed(v) ==> ((exists w :: Strict(w) && Print(w) == Print(v)) <==> Strict(v))
  {
    hide Matches;
    if Strict(v) {
      StrictTag(v.pre, true);
      StrictTag(v.build, false);
      PrintedIsAccepted(v);
    }
    if WellFormed(v) {
      forall w | Strict(w) && Print(w) == Print(v)
        ensures w == v
      {
        StrictTag(w.pre, true);
        StrictTag(w.build, false);
        PrintIsInjective(v, w);
      }
    }
  }

  /** The pattern is wider than the standard: leading zeros and empty identifiers pass. */
  lemma AcceptsMoreThanSemVer()
    ensures var zero, empty := Version("01", "0", "0", None, None), Version("1", "0", "0", Some("."), None);
      && Matches(SEMVER_RE, Print(zero)) && !Strict(zero)
      && Matches(SEMVER_RE, Print(empty)) && !Strict(empty)
  {
    hide Matches;
    var zero, empty := Version("01", "0", "0", None, None), Version("1", "0", "0", Some("."), None);
    PrintedIsAccepted(zero);
    PrintedIsAccepted(empty);
    assert "."[1..] == "" && Pieces("") == [""];
    assert Pieces(".")[0] == "";
  }
}

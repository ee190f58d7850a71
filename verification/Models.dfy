/** Skill manifests: names, qualified names and validation. */
module Models {
  import opened Options
  import opened Regexes
  import opened Strings
  import SemVer

  datatype RuntimeType = Docker | HTTPProxy | Other(text: string)

  datatype Runtime = Runtime(
    kind: RuntimeType,
    image: string,
    entrypoint: string,
    url: string,
    timeoutSeconds: int,
    memoryMb: int
  )

  datatype IOField = IOField(kind: string, description: string, required: bool, default: Option<string>)

  datatype SkillManifest = SkillManifest(
    name: string,
    namespace: string,
    version: string,
    description: string,
    tags: seq<string>,
    runtime: Runtime,
    inputs: map<string, IOField>,
    outputs: map<string, IOField>
  ) {
    function QualifiedName(): string {
      namespace + "/" + name
    }
  }

  const NAME_START := Class([('a', 'z'), ('0', '9')])
  const NAME_REST := Class([('a', 'z'), ('0', '9'), ('_', '_'), ('-', '-')])

  /** `^[a-z0-9][a-z0-9_-]{0,62}$` */
  const NAME_RE := Then(Many(NAME_START, 1, Some(1)), Many(NAME_REST, 0, Some(62)))

  datatype Invalid = InvalidNamespace | InvalidName | InvalidVersion | MissingImage | MissingURL | UnknownRuntime

  ghost predicate ValidNames(m: SkillManifest) {
    Matches(NAME_RE, m.namespace) && Matches(NAME_RE, m.name)
  }

  /** The version is some well-formed one, printed. */
  ghost predicate ValidVersion(m: SkillManifest) {
    exists v :: SemVer.WellFormed(v) && SemVer.Print(v) == m.version
  }

  /** The runner has what it needs to find the skill. */
  predicate HasTarget(r: Runtime) {
    (r.kind == Docker && r.image != "") || (r.kind == HTTPProxy && r.url != "")
  }

  /** The first problem with a manifest, if there is one. */
  ghost function Validate(m: SkillManifest): (problem: Option<Invalid>)
    ensures problem == None <==> ValidNames(m) && ValidVersion(m) && HasTarget(m.runtime)
    ensures problem == Some(InvalidNamespace) <==> !Matches(NAME_RE, m.namespace)
    ensures problem == Some(InvalidName) <==> Matches(NAME_RE, m.namespace) && !Matches(NAME_RE, m.name)
    ensures problem == Some(InvalidVersion) <==> ValidNames(m) && !ValidVersion(m)
    ensures problem == Some(MissingImage) <==>
            ValidNames(m) && ValidVersion(m) && m.runtime.kind == Docker && m.runtime.image == ""
    ensures problem == Some(MissingURL) <==>
            ValidNames(m) && ValidVersion(m) && m.runtime.kind == HTTPProxy && m.runtime.url == ""
    ensures problem == Some(UnknownRuntime) <==> ValidNames(m) && ValidVersion(m) && m.runtime.kind.Other?
  {
    SemVer.AcceptsExactlyOneSplit(m.version);
    if !Matches(NAME_RE, m.namespace) then Some(InvalidNamespace)
    else if !Matches(NAME_RE, m.name) then Some(InvalidName)
    else if !Matches(SemVer.SEMVER_RE, m.version) then Some(InvalidVersion)
    else
      match m.runtime.kind
      case Docker => if m.runtime.image == "" then Some(MissingImage) else None
      case HTTPProxy => if m.runtime.url == "" then Some(MissingURL) else None
      case Other(_) => Some(UnknownRuntime)
  }

  predicate IsNameStart(c: char) {
    'a' <= c <= 'z' || '0' <= c <= '9'
  }

  /** The names that the pattern accepts: 1 to 63 lower-case letters, digits, underscores and dashes, the first
      of them a letter or a digit. */
  lemma NameShape(s: string)
    ensures Matches(NAME_RE, s) <==>
            && 1 <= |s| <= 63 && IsNameStart(s[0])
            && forall i :: 0 <= i < |s| ==> IsNameStart(s[i]) || s[i] == '_' || s[i] == '-'
  {
    NameClasses();
    hide Class.Has;
    var start, rest := Many(NAME_START, 1, Some(1)), Many(NAME_REST, 0, Some(62));
    if Matches(NAME_RE, s) {
      var a, b := ThenSplits(start, rest, s);
      assert forall i :: 1 <= i < |s| ==> s[i] == b[i - 1];
    }
    if 1 <= |s| <= 63 && IsNameStart(s[0]) && forall i :: 0 <= i < |s| ==> NAME_REST.Has(s[i]) {
      assert s == [s[0]] + s[1..];
      ThenJoins(start, rest, [s[0]], s[1..]);
    }
  }

  lemma NameClasses()
    ensures forall c :: NAME_START.Has(c) <==> IsNameStart(c)
    ensures forall c :: NAME_REST.Has(c) <==> IsNameStart(c) || c == '_' || c == '-'
  {
    forall c
      ensures NAME_START.Has(c) <==> IsNameStart(c)
      ensures NAME_REST.Has(c) <==> IsNameStart(c) || c == '_' || c == '-'
    {
      assert NAME_START.ranges[0] == ('a', 'z') && NAME_START.ranges[1] == ('0', '9');
      assert NAME_REST.ranges[0] == ('a', 'z') && NAME_REST.ranges[1] == ('0', '9');
      assert NAME_REST.ranges[2] == ('_', '_') && NAME_REST.ranges[3] == ('-', '-');
    }
  }

  // ---------- the qualified-name splitters ----------

  /** The server's `splitQualifiedName` and the command line tool's `splitQualified`. */
  function SplitGo(qualified: string): Option<(string, string)> {
    var parts := SplitN(qualified, '/', 2);
    if |parts| != 2 || parts[0] == "" || parts[1] == "" then None else Some((parts[0], parts[1]))
  }

  function SplitTypeScript(qualified: string): Option<(string, string)> {
    var idx := IndexOf(qualified, '/');
    if idx <= 0 || idx == |qualified| - 1 then None else Some((qualified[..idx], qualified[idx + 1..]))
  }

  function SplitPython(qualified: string): Option<(string, string)> {
    if '/' !in qualified then None
    else
      var (ns, _, name) := Partition(qualified, '/');
      if ns == "" || name == "" then None else Some((ns, name))
  }

  /** The three splitters are one function of all strings. */
  lemma SplittersAgree(qualified: string)
    ensures SplitGo(qualified) == SplitTypeScript(qualified) == SplitPython(qualified)
  {
    PartitionCuts(qualified, '/');
    var i := IndexOf(qualified, '/');
    if i != -1 {
      var rest := qualified[i + 1..];
      assert SplitN(rest, '/', 1) == [rest];
      assert SplitN(qualified, '/', 2) == [qualified[..i], rest];
    }
  }

  /** They accept exactly the strings that are two non-empty parts around a slash, the first part
      without a slash, and return those parts. */
  lemma SplitInvertsJoin(qualified: string, ns: string, name: string)
    ensures SplitGo(qualified) == Some((ns, name)) <==>
            ns != "" && name != "" && '/' !in ns && qualified == ns + "/" + name
  {
    SplittersAgree(qualified);
    var i := IndexOf(qualified, '/');
    if i != -1 {
      assert qualified == qualified[..i] + "/" + qualified[i + 1..];
    }
    if '/' !in ns && qualified == ns + "/" + name {
      FirstCut(ns, name, '/');
    }
  }

  /** Splitting a validated manifest's qualified name gives its namespace and name back. */
  lemma SplitQualifiedName(m: SkillManifest)
    requires ValidNames(m)
    ensures SplitGo(m.QualifiedName()) == Some((m.namespace, m.name))
  {
    NameShape(m.namespace);
    NameShape(m.name);
    SplitInvertsJoin(m.QualifiedName(), m.namespace, m.name);
  }

  /** No lookup, of whatever namespace and name, can hit another skill's key: the key the registry builds
      from them is a validated manifest's only if they are that manifest's own. */
  lemma RegistryKeyIsInjective(m: SkillManifest, namespace: string, name: string)
    requires ValidNames(m)
    ensures namespace + "/" + name == m.QualifiedName() <==> namespace == m.namespace && name == m.name
  {
    NameShape(m.namespace);
    NameShape(m.name);
    var key := namespace + "/" + name;
    if key == m.QualifiedName() {
      assert key[|namespace|] == '/' && key[|m.namespace|] == '/';
      forall k | 0 <= k < |key| && k != |m.namespace|
        ensures key[k] != '/'
      {
        assert key[k] == if k < |m.namespace| then m.namespace[k] else m.name[k - |m.namespace| - 1];
      }
      assert namespace == key[..|namespace|] && name == key[|namespace| + 1..];
      assert m.namespace == key[..|m.namespace|] && m.name == key[|m.namespace| + 1..];
    }
  }
}

/** The two runners of `server/internal/runtime`: what they accept as a skill's output. */
module Runtimes {
  import opened Basics
  import opened Options
  import opened Sequences
  import opened Utf8

  const MAX_OUTPUT_BYTES: nat := 1_048_576

  const STATUS_OK := "ok"
  const STATUS_ERROR := "error"
  const STATUS_TIMEOUT := "timeout"

  /** A decoded JSON object, or the nil map. */
  datatype Output = Nil | Object(text: string)

  const EMPTY_OBJECT := Object("{}")

  /** `json.Unmarshal` into a map. */
  datatype Decoded = Malformed | Value(output: Output)
  type Decoder = seq<Byte> -> Decoded

  /** The reasons behind the source's error messages. */
  datatype Message =
    | NoMessage
    | MissingTarget
    | InvalidURL
    | TimedOut
    | RunFailed
    | Exited(code: int)
    | Oversize
    | TransportFailed
    | ReadFailed
    | UpstreamStatus(code: int)
    | NotJSON

  datatype Result = Result(status: string, output: Output, message: Message, outputBytes: nat)

  function Failed(message: Message, outputBytes: nat): Result {
    Result(STATUS_ERROR, Nil, message, outputBytes)
  }

  // ---------- the capped writer ----------

  /** Buffer and counter after one write: past the cap bytes are dropped, and the write that crosses the
      cap still counts in full. */
  function WriteStep(buffer: seq<Byte>, n: int, max: int, p: seq<Byte>): (seq<Byte>, int) {
    var remaining := max - n;
    if remaining <= 0 then (buffer, n)
    else if |p| > remaining then (buffer + p[..remaining], n + |p|)
    else (buffer + p, n + |p|)
  }

  class LimitedWriter {
    const max: int
    var w: seq<Byte>
    var n: int

    constructor (max: int)
      ensures this.max == max && w == [] && n == 0
    {
      this.max := max;
      w := [];
      n := 0;
    }

    method Write(p: seq<Byte>) returns (written: nat)
      modifies this
      ensures (w, n) == WriteStep(old(w), old(n), max, p)
      ensures written == |p|
    {
      var remaining := max - n;
      if remaining <= 0 {
        return |p|;
      }
      if |p| > remaining {
        w := w + p[..remaining];
        n := n + |p|;
        return |p|;
      }
      w := w + p;
      n := n + |p|;
      return |p|;
    }
  }

  function Concat(chunks: seq<seq<Byte>>): seq<Byte> {
    if chunks == [] then [] else Concat(chunks[..|chunks| - 1]) + chunks[|chunks| - 1]
  }

  /** Buffer and counter after a sequence of writes. */
  function Written(chunks: seq<seq<Byte>>, max: int): (seq<Byte>, int) {
    if chunks == [] then ([], 0)
    else
      var (buffer, n) := Written(chunks[..|chunks| - 1], max);
      WriteStep(buffer, n, max, chunks[|chunks| - 1])
  }

  /** However the bytes arrive, the buffer is the first `max` of them, and the counter tells whether there
      were more: it is exact up to the cap, and never below the cap once it is passed. */
  lemma {:induction false} WriterKeepsPrefix(chunks: seq<seq<Byte>>, max: nat)
    ensures Written(chunks, max).0 == Take(Concat(chunks), max)
    ensures |Concat(chunks)| <= max ==> Written(chunks, max).1 == |Concat(chunks)|
    ensures max < |Concat(chunks)| ==> max <= Written(chunks, max).1
  {
    if chunks != [] {
      var front, p := chunks[..|chunks| - 1], chunks[|chunks| - 1];
      WriterKeepsPrefix(front, max);
      TakeMore(Concat(front), p, max);
    }
  }

  lemma TakeMore(a: seq<Byte>, p: seq<Byte>, max: nat)
    ensures |a| <= max ==> Take(a + p, max) == a + Take(p, max - |a|)
    ensures max <= |a| ==> Take(a + p, max) == Take(a, max)
  {
  }

  // ---------- the Docker runner ----------

  /** What the child process did: the writes it made, and how it ended. */
  datatype Child = Child(chunks: seq<seq<Byte>>, exitCode: int, runError: bool, timedOut: bool)

  /** The verdict on a finished container, given the captured standard output. */
  function Classify(child: Child, stdout: seq<Byte>, decode: Decoder): Result {
    if child.timedOut then Result(STATUS_TIMEOUT, Nil, TimedOut, |stdout|)
    else if child.runError then Failed(RunFailed, |stdout|)
    else if child.exitCode != 0 then Failed(Exited(child.exitCode), |stdout|)
    else if |stdout| > MAX_OUTPUT_BYTES then Failed(Oversize, |stdout|)
    else if IsBlank(stdout) then Result(STATUS_OK, EMPTY_OBJECT, NoMessage, |stdout|)
    else
      match decode(stdout)
      case Malformed => Failed(NotJSON, |stdout|)
      case Value(output) => Result(STATUS_OK, output, NoMessage, |stdout|)
  }

  function DockerResult(image: string, child: Child, decode: Decoder): Result {
    if image == "" then Failed(MissingTarget, 0)
    else Classify(child, Written(child.chunks, MAX_OUTPUT_BYTES + 1).0, decode)
  }

  const SANDBOX := [
    "run", "--rm", "-i",
    "--network=none",
    "--read-only",
    "--cap-drop", "ALL",
    "--security-opt", "no-new-privileges",
    "--user", "nobody",
    "--pids-limit", "128"
  ]

  /** The arguments of the docker command. `memory` is the memory limit as text; `words` are the
      entrypoint's white-space separated words. */
  function Argv(image: string, memory: string, words: seq<string>): seq<string> {
    SANDBOX + ["--memory", memory + "m", "--cpus", "1.0"] +
    (if words == [] then [image] else ["--entrypoint", words[0], image] + words[1..])
  }

  method RunDocker(image: string, memory: string, words: seq<string>, child: Child, decode: Decoder)
    returns (args: seq<string>, result: Result)
    ensures args == if image == "" then [] else Argv(image, memory, words)
    ensures IsDockerVerdict(image, child, decode, result)
  {
    VerdictIsOnTheWholeOutput(image, child, decode, DockerResult(image, child, decode));
    args := [];
    if image == "" {
      return args, Failed(MissingTarget, 0);
    }
    args := SANDBOX + ["--memory", memory + "m", "--cpus", "1.0"];
    var entrypointArgs := [];
    if words != [] {
      args := args + ["--entrypoint", words[0]];
      entrypointArgs := words[1..];
    }
    args := args + [image];
    args := args + entrypointArgs;

    var stdout := Capture(child.chunks);

    if child.timedOut {
      return args, Result(STATUS_TIMEOUT, Nil, TimedOut, |stdout|);
    }
    if child.runError {
      return args, Failed(RunFailed, |stdout|);
    }
    if child.exitCode != 0 {
      return args, Failed(Exited(child.exitCode), |stdout|);
    }
    if |stdout| > MAX_OUTPUT_BYTES {
      return args, Failed(Oversize, |stdout|);
    }
    var out := EMPTY_OBJECT;
    if !IsBlank(stdout) {
      var decoded := decode(stdout);
      if decoded.Malformed? {
        return args, Failed(NotJSON, |stdout|);
      }
      out := decoded.output;
    }
    return args, Result(STATUS_OK, out, NoMessage, |stdout|);
  }

  /** The child's writes, through the capped writer. */
  method Capture(chunks: seq<seq<Byte>>) returns (stdout: seq<Byte>)
    ensures stdout == Written(chunks, MAX_OUTPUT_BYTES + 1).0
  {
    var writer := new LimitedWriter(MAX_OUTPUT_BYTES + 1);
    for i := 0 to |chunks|
      invariant (writer.w, writer.n) == Written(chunks[..i], MAX_OUTPUT_BYTES + 1)
    {
      var _ := writer.Write(chunks[i]);
      assert chunks[..i + 1][..i] == chunks[..i];
    }
    assert chunks[..|chunks|] == chunks;
    return writer.w;
  }

  /** How the child splits its output into writes never shows in the result. */
  lemma ChunksDoNotMatter(image: string, child: Child, child': Child, decode: Decoder)
    requires child' == child.(chunks := child'.chunks)
    requires Concat(child.chunks) == Concat(child'.chunks)
    ensures DockerResult(image, child, decode) == DockerResult(image, child', decode)
  {
    WriterKeepsPrefix(child.chunks, MAX_OUTPUT_BYTES + 1);
    WriterKeepsPrefix(child'.chunks, MAX_OUTPUT_BYTES + 1);
  }

  /** A timeout is reported before anything else, a child that could not be run before its exit code, and that
      before its output. The child succeeds only on its complete output; it is oversize exactly when it wrote
      more than the cap. Nothing but success carries an output, and at most one byte past the cap is counted. */
  ghost predicate IsDockerVerdict(image: string, child: Child, decode: Decoder, r: Result) {
    if image == "" then r == Failed(MissingTarget, 0)
    else
      var all := Concat(child.chunks);
      var exited := !child.timedOut && !child.runError;
      var complete := exited && child.exitCode == 0 && |all| <= MAX_OUTPUT_BYTES;
      && (r.status == STATUS_TIMEOUT <==> child.timedOut)
      && (r.status == STATUS_OK <==> complete && (IsWhiteText(all) || decode(all).Value?))
      && (r.status in {STATUS_OK, STATUS_TIMEOUT, STATUS_ERROR})
      && (r.message == TimedOut <==> child.timedOut)
      && (r.message == RunFailed <==> !child.timedOut && child.runError)
      && (r.message == Exited(child.exitCode) <==> exited && child.exitCode != 0)
      && (r.message == Oversize <==> exited && child.exitCode == 0 && MAX_OUTPUT_BYTES < |all|)
      && (r.message == NotJSON <==> complete && !IsWhiteText(all) && decode(all).Malformed?)
      && (r.message == NoMessage <==> r.status == STATUS_OK)
      && r.output == (if r.status != STATUS_OK then Nil
                      else if IsWhiteText(all) then EMPTY_OBJECT else decode(all).output)
      && r.outputBytes == if |all| <= MAX_OUTPUT_BYTES then |all| else MAX_OUTPUT_BYTES + 1
  }

  /** These clauses, which speak of the child's whole output, hold of the verdict on the captured bytes, and of
      no other result. */
  lemma VerdictIsOnTheWholeOutput(image: string, child: Child, decode: Decoder, r: Result)
    ensures IsDockerVerdict(image, child, decode, r) <==> r == DockerResult(image, child, decode)
  {
    hide Concat, Written, IsBlank, IsWhiteText;
    BlankIsWhiteText(Concat(child.chunks));
    WriterKeepsPrefix(child.chunks, MAX_OUTPUT_BYTES + 1);
    StatusesDiffer();
  }

  lemma StatusesDiffer()
    ensures STATUS_OK != STATUS_ERROR && STATUS_OK != STATUS_TIMEOUT && STATUS_ERROR != STATUS_TIMEOUT
  {
    assert STATUS_OK[0] != STATUS_ERROR[0] && STATUS_OK[0] != STATUS_TIMEOUT[0] && STATUS_ERROR[0] != STATUS_TIMEOUT[0];
  }

  /** The sandbox flags come first, and different manifests give different arguments. */
  lemma ArgvIsInjective(image: string, memory: string, words: seq<string>,
      image': string, memory': string, words': seq<string>)
    ensures SANDBOX <= Argv(image, memory, words)
    ensures Argv(image, memory, words) == Argv(image', memory', words') <==>
            image == image' && memory == memory' && words == words'
  {
    var args, args' := Argv(image, memory, words), Argv(image', memory', words');
    var n := |SANDBOX|;
    var rest := if words == [] then [image] else ["--entrypoint", words[0], image] + words[1..];
    var rest' := if words' == [] then [image'] else ["--entrypoint", words'[0], image'] + words'[1..];
    assert args[n + 4..] == rest && args'[n + 4..] == rest';
    assert args[n + 1] == memory + "m" && args'[n + 1] == memory' + "m";
    if args == args' {
      assert memory == args[n + 1][..|args[n + 1]| - 1] == memory';
      if words != [] {
        assert rest[0] == rest'[0];
        assert words == [rest[1]] + rest[3..];
        assert words' == [rest'[1]] + rest'[3..];
        assert rest[2] == rest'[2];
      }
    }
  }

  // ---------- how docker reads the arguments ----------

  /** A flag as written, and its value if that is a word of its own. */
  datatype Flag = Flag(word: string, value: Option<string>)

  /** How a word that begins with a dash is taken. */
  datatype Kind = Switch | Valued | Unknown

  datatype Reading = Reading(flags: seq<Flag>, operands: seq<string>)

  predicate IsFlag(word: string) {
    2 <= |word| && word[0] == '-'
  }

  /** `docker run` reads flags up to the first word that is none, or up to `--`; the rest is the image, and the
      command to run in it. */
  function Read(kind: string -> Kind, args: seq<string>): Option<Reading> {
    if args == [] || !IsFlag(args[0]) then Some(Reading([], args))
    else if args[0] == "--" then Some(Reading([], args[1..]))
    else
      match kind(args[0])
      case Unknown => None
      case Switch => Flagged(Flag(args[0], None), Read(kind, args[1..]))
      case Valued => if |args| == 1 then None else Flagged(Flag(args[0], Some(args[1])), Read(kind, args[2..]))
  }

  function Flagged(flag: Flag, reading: Option<Reading>): Option<Reading> {
    match reading
    case None => None
    case Some(r) => Some(r.(flags := [flag] + r.flags))
  }

  const SANDBOX_FLAGS := [
    Flag("--rm", None), Flag("-i", None), Flag("--network=none", None), Flag("--read-only", None),
    Flag("--cap-drop", Some("ALL")), Flag("--security-opt", Some("no-new-privileges")),
    Flag("--user", Some("nobody")), Flag("--pids-limit", Some("128"))
  ]

  function Flags(memory: string, words: seq<string>): seq<Flag> {
    SANDBOX_FLAGS + [Flag("--memory", Some(memory + "m")), Flag("--cpus", Some("1.0"))] +
    if words == [] then [] else [Flag("--entrypoint", Some(words[0]))]
  }

  /** Docker knows the flag, and knows whether a value follows. */
  ghost predicate Known(kind: string -> Kind, flag: Flag) {
    && IsFlag(flag.word) && flag.word != "--"
    && kind(flag.word) == if flag.value.Some? then Valued else Switch
  }

  function Words(flag: Flag): seq<string> {
    [flag.word] + if flag.value.Some? then [flag.value.value] else []
  }

  function Spell(flags: seq<Flag>): seq<string> {
    if flags == [] then [] else Words(flags[0]) + Spell(flags[1..])
  }

  function WithFlags(flags: seq<Flag>, reading: Option<Reading>): Option<Reading> {
    match reading
    case None => None
    case Some(r) => Some(r.(flags := flags + r.flags))
  }

  lemma ReadOne(kind: string -> Kind, flag: Flag, rest: seq<string>)
    requires Known(kind, flag)
    ensures Read(kind, Words(flag) + rest) == Flagged(flag, Read(kind, rest))
  {
    hide IsFlag;
    var args := Words(flag) + rest;
    assert args[|Words(flag)|..] == rest;
  }

  lemma WithMoreFlags(flag: Flag, flags: seq<Flag>, reading: Option<Reading>)
    ensures Flagged(flag, WithFlags(flags, reading)) == WithFlags([flag] + flags, reading)
    ensures WithFlags([], reading) == reading
  {
    if reading.Some? {
      var fs := reading.value.flags;
      assert [flag] + (flags + fs) == ([flag] + flags) + fs;
      assert [] + fs == fs;
    }
  }

  lemma {:induction false} ReadSpelled(kind: string -> Kind, flags: seq<Flag>, rest: seq<string>)
    requires forall i :: 0 <= i < |flags| ==> Known(kind, flags[i])
    ensures Read(kind, Spell(flags) + rest) == WithFlags(flags, Read(kind, rest))
  {
    hide Read, Known, WithFlags, Flagged, Words;
    if flags == [] {
      assert Spell(flags) + rest == rest;
      WithMoreFlags(Flag("", None), [], Read(kind, rest));
    } else {
      ReadSpelled(kind, flags[1..], rest);
      ReadOne(kind, flags[0], Spell(flags[1..]) + rest);
      assert Spell(flags) + rest == Words(flags[0]) + (Spell(flags[1..]) + rest);
      WithMoreFlags(flags[0], flags[1..], Read(kind, rest));
      assert [flags[0]] + flags[1..] == flags;
    }
  }

  lemma {:induction false} SpellSplit(a: seq<Flag>, b: seq<Flag>)
    ensures Spell(a + b) == Spell(a) + Spell(b)
  {
    if a == [] {
      assert a + b == b;
    } else {
      assert (a + b)[1..] == a[1..] + b;
      SpellSplit(a[1..], b);
    }
  }

  lemma SpellTwo(one: Flag, other: Flag)
    ensures Spell([one]) == Words(one)
    ensures Spell([one, other]) == Words(one) + Words(other)
  {
    hide Words;
    assert Spell([one]) == Words(one) + Spell([]) == Words(one);
    assert Spell([other]) == Words(other) + Spell([]) == Words(other);
    assert [one, other][1..] == [other];
  }

  lemma SandboxSpells()
    ensures ["run"] + Spell(SANDBOX_FLAGS) == SANDBOX
  {
  }

  lemma ArgvSpells(image: string, memory: string, words: seq<string>)
    ensures Argv(image, memory, words) ==
            ["run"] + Spell(Flags(memory, words)) + [image] + if words == [] then [] else words[1..]
  {
    hide Spell, SANDBOX, SANDBOX_FLAGS;
    var one, other := Flag("--memory", Some(memory + "m")), Flag("--cpus", Some("1.0"));
    var entry := if words == [] then [] else [Flag("--entrypoint", Some(words[0]))];
    SandboxSpells();
    SpellSplit(SANDBOX_FLAGS + [one, other], entry);
    SpellSplit(SANDBOX_FLAGS, [one, other]);
    SpellTwo(one, other);
    if words == [] {
      SpellNothing();
    } else {
      SpellTwo(entry[0], other);
    }
  }

  lemma SpellNothing()
    ensures Spell([]) == []
  {
  }

  /** Docker reads exactly the sandbox's flags, the manifest's image and the manifest's command from the
      arguments, if and only if the image is not itself taken for a flag. */
  lemma DockerReadsTheManifest(kind: string -> Kind, image: string, memory: string, words: seq<string>)
    requires forall flag :: flag in Flags(memory, words) ==> Known(kind, flag)
    ensures Argv(image, memory, words)[0] == "run"
    ensures Read(kind, Argv(image, memory, words)[1..]) ==
            Some(Reading(Flags(memory, words), [image] + if words == [] then [] else words[1..]))
            <==> !IsFlag(image)
  {
    hide IsFlag, Known;
    var flags, operands := Flags(memory, words), [image] + if words == [] then [] else words[1..];
    ArgvSpells(image, memory, words);
    assert Argv(image, memory, words)[1..] == Spell(flags) + operands;
    ReadSpelled(kind, flags, operands);
    assert flags + [] == flags;
  }

  // ---------- the HTTP proxy ----------

  /** What the call to the skill's endpoint came to. */
  datatype Exchange =
    | NoResponse(deadline: bool)
    | Response(statusCode: int, body: seq<Byte>, readError: bool)

  function ProxyResult(url: string, urlParses: bool, exchange: Exchange, decode: Decoder): Result {
    if url == "" then Failed(MissingTarget, 0)
    else if !urlParses then Failed(InvalidURL, 0)
    else
      match exchange
      case NoResponse(deadline) =>
        if deadline then Result(STATUS_TIMEOUT, Nil, TimedOut, 0) else Failed(TransportFailed, 0)
      case Response(code, body, readError) =>
        var raw := Take(body, MAX_OUTPUT_BYTES + 1);
        if readError then Failed(ReadFailed, 0)
        else if |raw| > MAX_OUTPUT_BYTES then Failed(Oversize, 0)
        else if code >= 400 then Failed(UpstreamStatus(code), |raw|)
        else if raw == [] then Result(STATUS_OK, EMPTY_OBJECT, NoMessage, 0)
        else
          match decode(raw)
          case Malformed => Failed(NotJSON, |raw|)
          case Value(output) => Result(STATUS_OK, output, NoMessage, |raw|)
  }

  method RunProxy(url: string, urlParses: bool, exchange: Exchange, decode: Decoder) returns (result: Result)
    ensures IsProxyVerdict(url, urlParses, exchange, decode, result)
  {
    ProxyVerdict(url, urlParses, exchange, decode, ProxyResult(url, urlParses, exchange, decode));
    if url == "" {
      return Failed(MissingTarget, 0);
    }
    if !urlParses {
      return Failed(InvalidURL, 0);
    }
    if exchange.NoResponse? {
      if exchange.deadline {
        return Result(STATUS_TIMEOUT, Nil, TimedOut, 0);
      }
      return Failed(TransportFailed, 0);
    }
    var raw := Take(exchange.body, MAX_OUTPUT_BYTES + 1);
    if exchange.readError {
      return Failed(ReadFailed, 0);
    }
    if |raw| > MAX_OUTPUT_BYTES {
      return Failed(Oversize, 0);
    }
    if exchange.statusCode >= 400 {
      return Failed(UpstreamStatus(exchange.statusCode), |raw|);
    }
    var out := EMPTY_OBJECT;
    if |raw| > 0 {
      var decoded := decode(raw);
      if decoded.Malformed? {
        return Failed(NotJSON, |raw|);
      }
      out := decoded.output;
    }
    return Result(STATUS_OK, out, NoMessage, |raw|);
  }

  /** The proxy succeeds exactly on a complete answer below status 400, within the cap, that is empty or
      decodes; the answer need not be of the 200s. A deadline counts only as long as there is no answer. Of an
      answer that breaks off or exceeds the cap no bytes are counted. */
  ghost predicate IsProxyVerdict(url: string, urlParses: bool, exchange: Exchange, decode: Decoder, r: Result) {
    var sent := url != "" && urlParses;
    var whole := sent && exchange.Response? && !exchange.readError;
    var small := whole && |exchange.body| <= MAX_OUTPUT_BYTES;
    && (r.status == STATUS_OK <==>
          small && exchange.statusCode < 400 && (exchange.body == [] || decode(exchange.body).Value?))
    && (r.status == STATUS_TIMEOUT <==> sent && exchange == NoResponse(true))
    && (r.status in {STATUS_OK, STATUS_TIMEOUT, STATUS_ERROR})
    && (r.message == MissingTarget <==> url == "")
    && (r.message == InvalidURL <==> url != "" && !urlParses)
    && (r.message == TimedOut <==> sent && exchange == NoResponse(true))
    && (r.message == TransportFailed <==> sent && exchange == NoResponse(false))
    && (r.message == ReadFailed <==> sent && exchange.Response? && exchange.readError)
    && (r.message == Oversize <==> whole && MAX_OUTPUT_BYTES < |exchange.body|)
    && (r.message.UpstreamStatus? <==> small && exchange.statusCode >= 400)
    && (r.message.UpstreamStatus? ==> r.message.code == exchange.statusCode)
    && (r.message == NotJSON <==>
          small && exchange.statusCode < 400 && exchange.body != [] && decode(exchange.body).Malformed?)
    && (r.message == NoMessage <==> r.status == STATUS_OK)
    && r.output == (if r.status != STATUS_OK then Nil
                    else if exchange.body == [] then EMPTY_OBJECT else decode(exchange.body).output)
    && r.outputBytes == if small then |exchange.body| else 0
  }

  /** The result is the one that these clauses describe. */
  lemma ProxyVerdict(url: string, urlParses: bool, exchange: Exchange, decode: Decoder, r: Result)
    ensures IsProxyVerdict(url, urlParses, exchange, decode, r) <==> r == ProxyResult(url, urlParses, exchange, decode)
  {
    StatusesDiffer();
  }

  // ---------- the runners against each other ----------

  /** A JSON text holds a value, so white space alone does not decode (section 2 of RFC 8259). */
  ghost predicate RejectsBlank(decode: Decoder) {
    forall text :: AllWhite(text) ==> decode(Encode(text)).Malformed?
  }

  /** For the same bytes from a child that exits 0 and an upstream that answers below 400, the runners give
      the same status and output, except on white space alone (within the cap, and not empty), which Docker
      takes for an empty object and the proxy for a malformed one. */
  lemma RunnersAgree(image: string, child: Child, url: string, code: int, body: seq<Byte>, decode: Decoder)
    requires RejectsBlank(decode) && image != "" && url != ""
    requires !child.timedOut && !child.runError && child.exitCode == 0 && Concat(child.chunks) == body
    requires code < 400
    ensures var docker := DockerResult(image, child, decode);
      var proxy := ProxyResult(url, true, Response(code, body, false), decode);
      && (docker.status == proxy.status && docker.output == proxy.output <==>
          !(body != [] && |body| <= MAX_OUTPUT_BYTES && IsWhiteText(body)))
      && (body != [] && |body| <= MAX_OUTPUT_BYTES && IsWhiteText(body) ==>
            && docker == Result(STATUS_OK, EMPTY_OBJECT, NoMessage, |body|)
            && proxy == Result(STATUS_ERROR, Nil, NotJSON, |body|))
  {
    hide Concat, Written;
    BlankIsWhiteText(body);
    WriterKeepsPrefix(child.chunks, MAX_OUTPUT_BYTES + 1);
    StatusesDiffer();
  }
}

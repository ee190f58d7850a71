/** The server as a whole: one limiter in front of both the REST and the MCP interface, and one audit
    log behind them.

    Requests are served concurrently. A request arrives at the limiter, later looks its skill up, later
    still is logged; each of these is one step, and steps of different requests interleave freely. */
module Servers {
  import opened Basics
  import opened Options
  import opened Models
  import opened Auth
  import opened Registries
  import opened Invocations
  import InvocationRuns
  import RegistryRuns
  import Limits = RateLimit
  import Runs = RateLimitRuns

  const NIL_UUID := "00000000-0000-0000-0000-000000000000"

  /** A REST call carries its body as sent; of an MCP call the handler has `arguments`, if the request has any,
      as JSON text that it marshals anew. */
  datatype Route =
    | Invoke(namespace: string, name: string, body: string)
    | ToolsCall(tool: string, arguments: Option<string>)
    | Elsewhere

  datatype Request = Request(principal: Principal, callerIp: string, userAgent: string, route: Route)

  /** The input size that each handler logs. */
  function InputBytes(route: Route): nat {
    match route
    case Invoke(_, _, body) => |body|
    case ToolsCall(_, Some(arguments)) => |arguments|
    case _ => 0
  }

  /** The limiter's bucket of a request: its API key, or else its address. */
  function Bucket(r: Request): string {
    if r.principal.apiKeyId != NIL_UUID then "key:" + r.principal.apiKeyId else "ip:" + r.callerIp
  }

  /** The skill a request asks for, if its route names one. */
  function Target(route: Route): Option<(string, string)> {
    match route
    case Invoke(namespace, name, _) => Some((namespace, name))
    case ToolsCall(tool, _) => SplitGo(tool)
    case Elsewhere => None
  }

  /** An admitted request on its way through its handler. Its serial number says how many requests had arrived
      before it, and so tells it apart from every other. */
  datatype Ticket = Ticket(serial: nat, request: Request, admittedAt: Time, started: Time,
      skill: Option<SkillManifest>)

  /** The ticket as it was admitted. */
  function Base(t: Ticket): Ticket {
    t.(skill := None)
  }

  /** What the runner returned. `marshalled` is the length of the output as JSON text. */
  datatype Outcome = Outcome(status: string, errorMessage: string, outputBytes: nat, outputIsNil: bool,
      marshalled: nat, latencyMs: int)

  /** The audit entry of a finished call. The MCP handler reports the length of its reply's text when the
      runner reports no output bytes; that text is `{}` for a nil output. */
  function AuditEntry(t: Ticket, skill: SkillManifest, o: Outcome): Entry {
    var body := if o.outputIsNil then 2 else o.marshalled;
    Entry(t.request.principal.orgId, t.request.principal.userId, t.request.principal.apiKeyId,
          skill.namespace, skill.name, skill.version,
          o.status, o.latencyMs, InputBytes(t.request.route),
          if t.request.route.ToolsCall? && o.outputBytes == 0 then body else o.outputBytes,
          o.errorMessage, t.request.callerIp, t.request.userAgent, t.started)
  }

  /** One line of the audit trail, with the request it came from. */
  datatype Record = Record(ticket: Ticket, entry: Entry)

  /** `arrived` counts the requests, rejected ones too; `dropped` collects the admitted requests that ended
      without being a call of a skill. */
  datatype State = State(
    hits: Limits.Hits,
    skills: Skills,
    arrived: nat,
    pending: seq<Ticket>,
    dropped: seq<Ticket>,
    audit: seq<Record>
  )

  const START := State(map[], map[], 0, [], [], [])

  function Without<T>(s: seq<T>, i: nat): seq<T>
    requires i < |s|
  {
    s[..i] + s[i + 1..]
  }

  /** The middleware's decision; a rejected request gets no further. */
  function ArriveStep(s: State, limit: Limits.Limit, r: Request, now: Time, started: Time): State {
    var s' := s.(hits := Limits.AllowStep(s.hits, limit, Bucket(r), now), arrived := s.arrived + 1);
    if Allowed(s, limit, r, now)
    then s'.(pending := s.pending + [Ticket(s.arrived, r, now, started, None)])
    else s'
  }

  predicate Allowed(s: State, limit: Limits.Limit, r: Request, now: Time) {
    Limits.AllowAnswer(s.hits, limit, Bucket(r), now).allowed
  }

  function FoundSkill(s: State, t: Ticket): Option<SkillManifest> {
    match Target(t.request.route)
    case None => None
    case Some((namespace, name)) => MemGet(s.skills, t.request.principal.orgId, namespace, name)
  }

  /** The handler's lookup: a call of an unknown skill, and any other route, ends here. */
  function LookupStep(s: State, i: nat): State
    requires i < |s.pending|
  {
    var t := s.pending[i];
    match FoundSkill(s, t)
    case None => s.(pending := Without(s.pending, i), dropped := s.dropped + [t])
    case Some(skill) => s.(pending := s.pending[i := t.(skill := Some(skill))])
  }

  /** The tool's name is the qualified name of such a skill. */
  predicate NamesSkill(tool: string, namespace: string, name: string) {
    namespace != "" && name != "" && '/' !in namespace && tool == namespace + "/" + name
  }

  /** The request asks for the skill, by its path or by its qualified name. */
  predicate AsksFor(route: Route, namespace: string, name: string) {
    match route
    case Invoke(ns, n, _) => ns == namespace && n == name
    case ToolsCall(tool, _) => NamesSkill(tool, namespace, name)
    case Elsewhere => false
  }

  lemma TargetIsAskedFor(route: Route, namespace: string, name: string)
    ensures Target(route) == Some((namespace, name)) <==> AsksFor(route, namespace, name)
  {
    if route.ToolsCall? {
      SplitInvertsJoin(route.tool, namespace, name);
    }
  }

  /** What is looked up is what is asked for, or nothing. */
  lemma FoundIsAskedFor(s: State, t: Ticket)
    ensures forall namespace, name :: AsksFor(t.request.route, namespace, name) ==>
              FoundSkill(s, t) == MemGet(s.skills, t.request.principal.orgId, namespace, name)
    ensures (forall namespace, name :: !AsksFor(t.request.route, namespace, name)) ==> FoundSkill(s, t) == None
  {
    hide MemGet, Target, AsksFor;
    var target := Target(t.request.route);
    if target.Some? {
      TargetIsAskedFor(t.request.route, target.value.0, target.value.1);
    }
    forall namespace, name | AsksFor(t.request.route, namespace, name)
      ensures FoundSkill(s, t) == MemGet(s.skills, t.request.principal.orgId, namespace, name)
    {
      TargetIsAskedFor(t.request.route, namespace, name);
    }
  }

  /** The request at i proceeds with the skill that was found, or is dropped. */
  ghost predicate Proceeds(s: State, s': State, i: nat, found: Option<SkillManifest>)
    requires i < |s.pending|
  {
    match found
    case None => s' == s.(pending := s.pending[..i] + s.pending[i + 1..], dropped := s.dropped + [s.pending[i]])
    case Some(m) => s' == s.(pending := s.pending[i := s.pending[i].(skill := Some(m))])
  }

  lemma ProceedsOneWay(s: State, s': State, i: nat, one: Option<SkillManifest>, other: Option<SkillManifest>)
    requires i < |s.pending| && Proceeds(s, s', i, one)
    ensures Proceeds(s, s', i, other) <==> one == other
  {
    if one.Some? && other.Some? && Proceeds(s, s', i, other) {
      assert s'.pending[i].skill == one && s'.pending[i].skill == other;
    }
  }

  /** The call is over: exactly one audit record. */
  function FinishStep(s: State, i: nat, o: Outcome, clock: Time): State
    requires i < |s.pending| && s.pending[i].skill.Some?
  {
    var t := s.pending[i];
    var entry := Stamped(AuditEntry(t, t.skill.value, o), clock);
    s.(pending := Without(s.pending, i), audit := s.audit + [Record(t, entry)])
  }

  function Entries(audit: seq<Record>): seq<Entry> {
    if audit == [] then [] else Entries(audit[..|audit| - 1]) + [audit[|audit| - 1].entry]
  }

  lemma EntriesSnoc(audit: seq<Record>, r: Record)
    ensures Entries(audit + [r]) == Entries(audit) + [r.entry]
  {
    assert (audit + [r])[..|audit|] == audit;
  }

  lemma StoreSnoc(history: seq<Entry>, e: Entry)
    ensures InvocationRuns.EntriesAfter(history + [e]) == Tail(InvocationRuns.EntriesAfter(history) + [e], MEMORY_CAP)
  {
    assert (history + [e])[..|history|] == history;
  }

  class Server {
    const limiter: Limits.RateLimiter
    const registry: InMemory
    const store: Memory
    var arrived: nat
    var pending: seq<Ticket>
    ghost var dropped: seq<Ticket>
    ghost var audit: seq<Record>

    constructor (limit: Limits.Limit)
      ensures fresh(limiter) && fresh(registry) && fresh(store)
      ensures limiter.limit == limit && Valid() && View() == START
    {
      limiter := new Limits.RateLimiter(limit);
      registry := new InMemory();
      store := new Memory();
      arrived := 0;
      pending := [];
      dropped := [];
      audit := [];
    }

    /** The store holds what the audit trail leaves in it. */
    ghost predicate Valid()
      reads this, store
    {
      store.entries == InvocationRuns.EntriesAfter(Entries(audit))
    }

    ghost function View(): State
      reads this, limiter, registry
    {
      State(limiter.hits, registry.skills, arrived, pending, dropped, audit)
    }

    method Arrive(r: Request, now: Time, started: Time) returns (allowed: bool)
      requires Valid()
      modifies this, limiter
      ensures Valid() && View() == ArriveStep(old(View()), limiter.limit, r, now, started)
      ensures allowed == Allowed(old(View()), limiter.limit, r, now)
      ensures !allowed ==> pending == old(pending) && audit == old(audit)
    {
      var remaining, resetAt;
      allowed, remaining, resetAt := limiter.Allow(Bucket(r), now);
      if allowed {
        pending := pending + [Ticket(arrived, r, now, started, None)];
      }
      arrived := arrived + 1;
    }

    method Lookup(i: nat) returns (found: bool)
      requires Valid() && i < |pending|
      modifies this
      ensures Valid() && View() == LookupStep(old(View()), i)
      ensures found <==> |pending| == |old(pending)|
      ensures var r := old(pending)[i].request;
        match r.route
        case Invoke(namespace, name, _) =>
          Proceeds(old(View()), View(), i, MemGet(registry.skills, r.principal.orgId, namespace, name))
        case ToolsCall(tool, _) =>
          && (forall namespace, name :: NamesSkill(tool, namespace, name) ==>
                Proceeds(old(View()), View(), i, MemGet(registry.skills, r.principal.orgId, namespace, name)))
          && ((forall namespace, name :: !NamesSkill(tool, namespace, name)) ==> Proceeds(old(View()), View(), i, None))
        case Elsewhere => Proceeds(old(View()), View(), i, None)
    {
      FoundIsAskedFor(View(), pending[i]);
      hide Target, MemGet, NamesSkill;
      var t := pending[i];
      var target := Target(t.request.route);
      var skill := None;
      if target.Some? {
        skill := registry.Get(t.request.principal.orgId, target.value.0, target.value.1);
      }
      found := skill.Some?;
      if found {
        pending := pending[i := t.(skill := skill)];
      } else {
        pending := Without(pending, i);
        dropped := dropped + [t];
      }
    }

    method Finish(i: nat, o: Outcome, clock: Time)
      requires Valid() && i < |pending| && pending[i].skill.Some?
      modifies this, store
      ensures Valid() && View() == FinishStep(old(View()), i, o, clock)
    {
      var t := pending[i];
      var entry := AuditEntry(t, t.skill.value, o);
      store.Log(entry, clock);
      EntriesSnoc(audit, Record(t, Stamped(entry, clock)));
      StoreSnoc(Entries(audit), Stamped(entry, clock));
      pending := Without(pending, i);
      audit := audit + [Record(t, Stamped(entry, clock))];
    }

    method Publish(org: UUID, m: SkillManifest)
      requires Valid()
      modifies registry
      ensures Valid() && View() == old(View()).(skills := MemUpsert(old(registry.skills), org, m))
    {
      var _ := registry.Upsert(org, m);
    }

    method Sweep(now: Time)
      requires Valid()
      modifies limiter
      ensures Valid() && View() == old(View()).(hits := Limits.SweepStep(old(limiter.hits), now))
    {
      limiter.Sweep(now);
    }
  }

  // ---------- runs ----------

  datatype Event =
    | Arrive(request: Request, now: Time, started: Time)
    | Lookup(i: nat)
    | Finish(i: nat, outcome: Outcome, clock: Time)
    | Publish(org: UUID, manifest: SkillManifest)
    | Sweep(now: Time)

  /** A lookup or a finish must be of a request in that stage; otherwise nothing happens. */
  function Step(s: State, limit: Limits.Limit, e: Event): State {
    match e
    case Arrive(r, now, started) => ArriveStep(s, limit, r, now, started)
    case Lookup(i) => if i < |s.pending| && s.pending[i].skill.None? then LookupStep(s, i) else s
    case Finish(i, o, clock) => if i < |s.pending| && s.pending[i].skill.Some? then FinishStep(s, i, o, clock) else s
    case Publish(org, m) => s.(skills := MemUpsert(s.skills, org, m))
    case Sweep(now) => s.(hits := Limits.SweepStep(s.hits, now))
  }

  function StateAfter(es: seq<Event>, limit: Limits.Limit): State {
    if es == [] then START else Step(StateAfter(es[..|es| - 1], limit), limit, es[|es| - 1])
  }

  /** What the limiter sees of a run. */
  function LimiterTrace(es: seq<Event>): seq<Runs.Event> {
    if es == [] then []
    else LimiterTrace(es[..|es| - 1]) + Seen(es[|es| - 1])
  }

  function Seen(e: Event): seq<Runs.Event> {
    match e
    case Arrive(r, now, _) => [Runs.Allow(Bucket(r), now)]
    case Sweep(now) => [Runs.Sweep(now)]
    case _ => []
  }

  /** The tickets handed out in a run, in order. */
  function Admissions(es: seq<Event>, limit: Limits.Limit): seq<Ticket> {
    if es == [] then []
    else Admissions(es[..|es| - 1], limit) + Admission(StateAfter(es[..|es| - 1], limit), limit, es[|es| - 1])
  }

  function Admission(s: State, limit: Limits.Limit, e: Event): seq<Ticket> {
    if e.Arrive? && Allowed(s, limit, e.request, e.now)
    then [Ticket(s.arrived, e.request, e.now, e.started, None)]
    else []
  }

  /** How many of the tickets, as they were admitted, satisfy p. */
  function Count(tickets: seq<Ticket>, p: Ticket -> bool): nat {
    if tickets == [] then 0 else Count(tickets[1..], p) + Weight(tickets[0], p)
  }

  function Weight(t: Ticket, p: Ticket -> bool): nat {
    if p(Base(t)) then 1 else 0
  }

  function Tickets(audit: seq<Record>): seq<Ticket> {
    if audit == [] then [] else Tickets(audit[..|audit| - 1]) + [audit[|audit| - 1].ticket]
  }

  lemma TicketsSnoc(audit: seq<Record>, r: Record)
    ensures Tickets(audit + [r]) == Tickets(audit) + [r.ticket]
  {
    assert (audit + [r])[..|audit|] == audit;
  }

  lemma {:induction false} TicketsAt(audit: seq<Record>)
    ensures |Tickets(audit)| == |audit| && forall i :: 0 <= i < |audit| ==> Tickets(audit)[i] == audit[i].ticket
  {
    if audit != [] {
      TicketsAt(audit[..|audit| - 1]);
    }
  }

  lemma {:induction false} CountSplit(a: seq<Ticket>, b: seq<Ticket>, p: Ticket -> bool)
    ensures Count(a + b, p) == Count(a, p) + Count(b, p)
  {
    if a == [] {
      assert a + b == b;
    } else {
      assert (a + b)[1..] == a[1..] + b;
      CountSplit(a[1..], b, p);
    }
  }

  lemma CountOne(t: Ticket, p: Ticket -> bool)
    ensures Count([t], p) == Weight(t, p)
  {
  }

  lemma CountNothing(p: Ticket -> bool)
    ensures Count([], p) == 0
  {
  }

  lemma CountWithout(s: seq<Ticket>, i: nat, t': Ticket, p: Ticket -> bool)
    requires i < |s|
    ensures Count(s, p) == Count(Without(s, i), p) + Weight(s[i], p)
    ensures Count(s[i := t'], p) == Count(Without(s, i), p) + Weight(t', p)
  {
    hide Count, Weight;
    assert s == (s[..i] + [s[i]]) + s[i + 1..];
    assert s[i := t'] == (s[..i] + [t']) + s[i + 1..];
    CountSplit(s[..i] + [s[i]], s[i + 1..], p);
    CountSplit(s[..i], [s[i]], p);
    CountSplit(s[..i] + [t'], s[i + 1..], p);
    CountSplit(s[..i], [t'], p);
    CountSplit(s[..i], s[i + 1..], p);
    CountOne(s[i], p);
    CountOne(t', p);
  }

  lemma {:induction false} CountNone(tickets: seq<Ticket>, p: Ticket -> bool)
    requires forall i :: 0 <= i < |tickets| ==> !p(Base(tickets[i]))
    ensures Count(tickets, p) == 0
  {
    if tickets != [] {
      CountNone(tickets[1..], p);
    }
  }

  lemma {:induction false} CountAtLeast(tickets: seq<Ticket>, i: nat, p: Ticket -> bool)
    requires i < |tickets| && p(Base(tickets[i]))
    ensures Count(tickets, p) >= 1
  {
    CountWithout(tickets, i, tickets[i], p);
  }

  /** Where the admitted requests that satisfy p are now. */
  function Accounted(s: State, p: Ticket -> bool): nat {
    Count(s.pending, p) + Count(s.dropped, p) + Count(Tickets(s.audit), p)
  }

  /** Only an admission changes the account, and by itself. */
  lemma StepAccounts(s: State, limit: Limits.Limit, e: Event, p: Ticket -> bool)
    ensures Accounted(Step(s, limit, e), p) == Accounted(s, p) + Count(Admission(s, limit, e), p)
  {
    hide Count, Tickets, Allowed, Limits.AllowStep, Without, FoundSkill;
    CountNothing(p);
    match e
    case Arrive(r, now, started) =>
      var t := Ticket(s.arrived, r, now, started, None);
      CountSplit(s.pending, [t], p);
      CountOne(t, p);
    case Lookup(i) =>
      if i < |s.pending| {
        var t := s.pending[i];
        CountWithout(s.pending, i, t.(skill := FoundSkill(s, t)), p);
        CountSplit(s.dropped, [t], p);
        CountOne(t, p);
      }
    case Finish(i, o, clock) =>
      if i < |s.pending| && s.pending[i].skill.Some? {
        var t := s.pending[i];
        CountWithout(s.pending, i, t, p);
        TicketsSnoc(s.audit, Record(t, Stamped(AuditEntry(t, t.skill.value, o), clock)));
        CountSplit(Tickets(s.audit), [t], p);
        CountOne(t, p);
      }
    case Publish(_, _) =>
    case Sweep(_) =>
  }

  /** Every admitted request is in exactly one place: being served, logged, or ended without a call. */
  lemma {:induction false} AdmissionsAreAccounted(es: seq<Event>, limit: Limits.Limit, p: Ticket -> bool)
    ensures Accounted(StateAfter(es, limit), p) == Count(Admissions(es, limit), p)
  {
    hide Accounted, Count, Admission, Step;
    if es == [] {
      NothingAccounted(p);
    } else {
      var front, e := es[..|es| - 1], es[|es| - 1];
      AdmissionsAreAccounted(front, limit, p);
      StepAccounts(StateAfter(front, limit), limit, e, p);
      CountSplit(Admissions(front, limit), Admission(StateAfter(front, limit), limit, e), p);
    }
  }

  lemma NothingAccounted(p: Ticket -> bool)
    ensures Accounted(START, p) == 0 && Count([], p) == 0
  {
  }

  // ---------- the limiter inside the server ----------

  lemma {:induction false} RunsOfPrefix(es: seq<Runs.Event>, e: Runs.Event, limit: Limits.Limit, n: nat)
    requires n <= |es|
    ensures Runs.StateAt(es + [e], limit, n) == Runs.StateAt(es, limit, n)
  {
    hide Runs.Step;
    if n != 0 {
      RunsOfPrefix(es, e, limit, n - 1);
    }
  }

  lemma {:induction false} AdmittedOfPrefix(es: seq<Runs.Event>, e: Runs.Event, limit: Limits.Limit,
      key: string, n: nat)
    requires n <= |es|
    ensures Runs.WindowAt(es + [e], limit, key, n) == Runs.WindowAt(es, limit, key, n)
    ensures Runs.Admitted(es + [e], limit, key, n) == Runs.Admitted(es, limit, key, n)
  {
    hide Runs.NextWindow, Runs.HasRoom;
    if n != 0 {
      AdmittedOfPrefix(es, e, limit, key, n - 1);
    }
  }

  lemma LimiterSnoc(es: seq<Runs.Event>, e: Runs.Event, limit: Limits.Limit, key: string, lo: Time, hi: Time)
    ensures Runs.StateAt(es + [e], limit, |es| + 1) == Runs.Step(Runs.StateAt(es, limit, |es|), limit, e)
    ensures Runs.CountIn(Runs.Admitted(es + [e], limit, key, |es| + 1), lo, hi) ==
            Runs.CountIn(Runs.Admitted(es, limit, key, |es|), lo, hi) +
            if e.Allow? && e.key == key && lo <= e.now <= hi
               && Limits.AllowAnswer(Runs.StateAt(es, limit, |es|), limit, key, e.now).allowed then 1 else 0
  {
    hide Runs.Admitted, Runs.WindowAt, Runs.Step, Limits.AllowAnswer;
    RunsOfPrefix(es, e, limit, |es|);
    AdmittedOfPrefix(es, e, limit, key, |es|);
    Runs.AdmittedByAnswer(es + [e], limit, key, |es|);
    var history := Runs.Admitted(es, limit, key, |es|);
    Runs.CountInSnoc(history, e.now, lo, hi);
    assert history + [] == history;
  }

  /** Who shares one budget: the holders of an API key, or those without one at an address. */
  datatype Caller = ApiKey(id: UUID) | Address(ip: string)

  predicate IsFrom(caller: Caller, apiKeyId: UUID, callerIp: string) {
    match caller
    case ApiKey(id) => apiKeyId == id
    case Address(ip) => apiKeyId == NIL_UUID && callerIp == ip
  }

  /** The tickets of a caller that were admitted in [lo, hi]. */
  function OfCaller(caller: Caller, lo: Time, hi: Time): Ticket -> bool {
    (t: Ticket) =>
      IsFrom(caller, t.request.principal.apiKeyId, t.request.callerIp) && lo <= t.admittedAt <= hi
  }

  function CallerBucket(caller: Caller): string {
    match caller
    case ApiKey(id) => "key:" + id
    case Address(ip) => "ip:" + ip
  }

  lemma BucketOfCaller(r: Request, caller: Caller)
    requires caller != ApiKey(NIL_UUID)
    ensures Bucket(r) == CallerBucket(caller) <==> IsFrom(caller, r.principal.apiKeyId, r.callerIp)
  {
    var b, b' := Bucket(r), CallerBucket(caller);
    if r.principal.apiKeyId != NIL_UUID {
      assert b[0] == 'k' && b[4..] == r.principal.apiKeyId;
    } else {
      assert b[0] == 'i' && b[3..] == r.callerIp;
    }
    if caller.ApiKey? {
      assert b'[0] == 'k' && b'[4..] == caller.id;
    } else {
      assert b'[0] == 'i' && b'[3..] == caller.ip;
    }
  }

  /** Two requests share a bucket exactly if they carry the same API key, or none and come from one address. */
  lemma BucketsAreCallers(r: Request, r': Request)
    ensures Bucket(r) == Bucket(r') <==>
            if r.principal.apiKeyId != NIL_UUID then r'.principal.apiKeyId == r.principal.apiKeyId
            else r'.principal.apiKeyId == NIL_UUID && r'.callerIp == r.callerIp
  {
    hide Bucket;
    var caller := if r.principal.apiKeyId != NIL_UUID then ApiKey(r.principal.apiKeyId) else Address(r.callerIp);
    BucketOfCaller(r, caller);
    BucketOfCaller(r', caller);
  }

  lemma AdmissionOfCaller(s: State, limit: Limits.Limit, e: Event, caller: Caller, lo: Time, hi: Time)
    requires caller != ApiKey(NIL_UUID)
    ensures Count(Admission(s, limit, e), OfCaller(caller, lo, hi)) ==
            if e.Arrive? && Bucket(e.request) == CallerBucket(caller) && lo <= e.now <= hi
               && Limits.AllowAnswer(s.hits, limit, CallerBucket(caller), e.now).allowed then 1 else 0
  {
    hide Bucket, CallerBucket, IsFrom, Limits.AllowAnswer;
    if e.Arrive? {
      BucketOfCaller(e.request, caller);
    }
  }

  lemma SeenBy(s: State, limit: Limits.Limit, e: Event)
    ensures Step(s, limit, e).hits == if Seen(e) == [] then s.hits else Runs.Step(s.hits, limit, Seen(e)[0])
  {
    hide Limits.AllowStep, Limits.AllowAnswer, Limits.SweepStep, FoundSkill, Bucket;
  }

  lemma RunSnoc(es: seq<Event>, limit: Limits.Limit)
    requires es != []
    ensures var front, e := es[..|es| - 1], es[|es| - 1];
      var s := StateAfter(front, limit);
      && StateAfter(es, limit) == Step(s, limit, e)
      && Admissions(es, limit) == Admissions(front, limit) + Admission(s, limit, e)
      && LimiterTrace(es) == LimiterTrace(front) + Seen(e)
  {
  }

  lemma NothingOfCaller(limit: Limits.Limit, caller: Caller, lo: Time, hi: Time)
    ensures StateAfter([], limit).hits == Runs.StateAt(LimiterTrace([]), limit, 0)
    ensures |LimiterTrace([])| == 0 && Count(Admissions([], limit), OfCaller(caller, lo, hi)) == 0
    ensures Runs.CountIn(Runs.Admitted(LimiterTrace([]), limit, CallerBucket(caller), 0), lo, hi) == 0
  {
  }

  /** The tickets of a caller, over REST and MCP together, are the admissions of its one bucket. */
  lemma {:induction false} AdmissionsOfCaller(es: seq<Event>, limit: Limits.Limit, caller: Caller, lo: Time, hi: Time)
    requires caller != ApiKey(NIL_UUID)
    ensures var trace := LimiterTrace(es);
      && StateAfter(es, limit).hits == Runs.StateAt(trace, limit, |trace|)
      && Count(Admissions(es, limit), OfCaller(caller, lo, hi)) ==
         Runs.CountIn(Runs.Admitted(trace, limit, CallerBucket(caller), |trace|), lo, hi)
  {
    hide *;
    if es == [] {
      NothingOfCaller(limit, caller, lo, hi);
    } else {
      var front, e, key := es[..|es| - 1], es[|es| - 1], CallerBucket(caller);
      var s, seen := StateAfter(front, limit), LimiterTrace(front);
      RunSnoc(es, limit);
      AdmissionsOfCaller(front, limit, caller, lo, hi);
      CountSplit(Admissions(front, limit), Admission(s, limit, e), OfCaller(caller, lo, hi));
      AdmissionOfCaller(s, limit, e, caller, lo, hi);
      SeenBy(s, limit, e);
      SeenIs(e);
      if Seen(e) == [] {
        assert LimiterTrace(es) == seen;
      } else {
        LimiterSnoc(seen, Seen(e)[0], limit, key, lo, hi);
        assert LimiterTrace(es) == seen + [Seen(e)[0]];
        assert |LimiterTrace(es)| == |seen| + 1;
      }
    }
  }

  lemma SeenIs(e: Event)
    ensures Seen(e) == [] ==> !e.Arrive?
    ensures Seen(e) != [] ==>
              && Seen(e) == [Seen(e)[0]] && (Seen(e)[0].Allow? <==> e.Arrive?)
              && (e.Arrive? ==> Seen(e)[0] == Runs.Allow(Bucket(e.request), e.now))
  {
  }

  /** The audit entries that name a caller and come from requests admitted in [lo, hi]. */
  function CountAudit(audit: seq<Record>, caller: Caller, lo: Time, hi: Time): nat {
    if audit == [] then 0
    else
      CountAudit(audit[..|audit| - 1], caller, lo, hi) +
      var r := audit[|audit| - 1];
      if IsFrom(caller, r.entry.apiKeyId, r.entry.callerIp) && lo <= r.ticket.admittedAt <= hi then 1 else 0
  }

  lemma CountAuditSnoc(audit: seq<Record>, r: Record, caller: Caller, lo: Time, hi: Time)
    ensures CountAudit(audit + [r], caller, lo, hi) ==
            CountAudit(audit, caller, lo, hi) +
            if IsFrom(caller, r.entry.apiKeyId, r.entry.callerIp) && lo <= r.ticket.admittedAt <= hi then 1 else 0
  {
    assert (audit + [r])[..|audit|] == audit;
  }

  /** An entry names the caller whose request it logs. */
  lemma {:induction false} AuditOfCaller(es: seq<Event>, limit: Limits.Limit, caller: Caller, lo: Time, hi: Time)
    ensures var audit := StateAfter(es, limit).audit;
      CountAudit(audit, caller, lo, hi) == Count(Tickets(audit), OfCaller(caller, lo, hi))
  {
    if es != [] {
      hide Count, CountAudit, Tickets, Step;
      var front, e, p := es[..|es| - 1], es[|es| - 1], OfCaller(caller, lo, hi);
      var s := StateAfter(front, limit);
      AuditOfCaller(front, limit, caller, lo, hi);
      TrailStep(s, limit, e);
      if Finishes(s, e) {
        var t := s.pending[e.i];
        var r := Record(t, Stamped(AuditEntry(t, t.skill.value, e.outcome), e.clock));
        CountAuditSnoc(s.audit, r, caller, lo, hi);
        TicketsSnoc(s.audit, r);
        CountSplit(Tickets(s.audit), [t], p);
        CountOne(t, p);
      }
    }
  }

  /** At most `limit` audit entries name one caller and come from requests admitted within any closed 60
      seconds less the lag, REST and MCP together. With ordered clock readings that is the advertised window. */
  lemma SharedBudget(es: seq<Event>, limit: Limits.Limit, caller: Caller, d: nat, x: Time)
    requires caller != ApiKey(NIL_UUID) && Runs.BoundedSkew(LimiterTrace(es), d)
    ensures var hi := x + Limits.WINDOW - Runs.Lag(LimiterTrace(es), d);
      CountAudit(StateAfter(es, limit).audit, caller, x, hi) <= limit
    ensures d == 0 ==> CountAudit(StateAfter(es, limit).audit, caller, x, x + Limits.WINDOW) <= limit
  {
    hide Runs.Admitted, Runs.CountIn, StateAfter, LimiterTrace, CountAudit, Count, Admissions, OfCaller;
    var trace := LimiterTrace(es);
    var hi := x + Limits.WINDOW - Runs.Lag(trace, d);
    AdmissionsAreAccounted(es, limit, OfCaller(caller, x, hi));
    AdmissionsOfCaller(es, limit, caller, x, hi);
    AuditOfCaller(es, limit, caller, x, hi);
    Runs.SafetyUnderSkew(trace, limit, CallerBucket(caller), |trace|, d, x);
  }

  // ---------- every call is logged once ----------

  /** The event ends a served call. */
  predicate Finishes(s: State, e: Event) {
    e.Finish? && e.i < |s.pending| && s.pending[e.i].skill.Some?
  }

  lemma TrailStep(s: State, limit: Limits.Limit, e: Event)
    ensures Step(s, limit, e).audit ==
            if Finishes(s, e) then
              var t := s.pending[e.i];
              s.audit + [Record(t, Stamped(AuditEntry(t, t.skill.value, e.outcome), e.clock))]
            else s.audit
  {
    hide Limits.AllowStep, Limits.AllowAnswer, Limits.SweepStep, FoundSkill, Bucket;
  }

  /** The sizes that the record's entry reports. */
  predicate LogsSizes(r: Record, o: Outcome) {
    match r.ticket.request.route
    case Invoke(_, _, body) => r.entry.inputBytes == |body| && r.entry.outputBytes == o.outputBytes
    case ToolsCall(_, arguments) =>
      && r.entry.inputBytes == (if arguments.Some? then |arguments.value| else 0)
      && (o.outputBytes != 0 ==> r.entry.outputBytes == o.outputBytes)
      && (o.outputBytes == 0 ==> r.entry.outputBytes == if o.outputIsNil then |"{}"| else o.marshalled)
    case Elsewhere => true
  }

  /** The audit trail is append-only, and event n of a run added to it if and only if it ended a served call:
      one record, of that call, with its outcome and its sizes. */
  lemma {:induction false} TrailGrows(es: seq<Event>, limit: Limits.Limit, n: nat)
    requires n < |es|
    ensures var s0, s1 := StateAfter(es[..n], limit), StateAfter(es[..n + 1], limit);
      && s0.audit <= s1.audit <= StateAfter(es, limit).audit
      && |s1.audit| == |s0.audit| + (if Finishes(s0, es[n]) then 1 else 0)
      && (Finishes(s0, es[n]) ==>
            var r := StateAfter(es, limit).audit[|s0.audit|];
            && r.ticket == s0.pending[es[n].i]
            && r.entry.status == es[n].outcome.status && r.entry.errorMessage == es[n].outcome.errorMessage
            && r.entry.latencyMs == es[n].outcome.latencyMs
            && LogsSizes(r, es[n].outcome))
    decreases |es|
  {
    hide Step;
    var front, e := es[..|es| - 1], es[|es| - 1];
    TrailStep(StateAfter(front, limit), limit, e);
    if n == |es| - 1 {
      assert es[..n] == front && es[..n + 1] == es;
    } else {
      TrailGrows(front, limit, n);
      assert es[..n] == front[..n] && es[..n + 1] == front[..n + 1];
    }
  }

  /** A skill that could be found can be found ever after. */
  ghost predicate StillFound(s0: State, s: State) {
    forall t :: FoundSkill(s0, t).Some? ==> FoundSkill(s, t).Some?
  }

  lemma PublishKeepsFinding(s: State, org: UUID, m: SkillManifest, t: Ticket)
    requires FoundSkill(s, t).Some?
    ensures FoundSkill(s.(skills := MemUpsert(s.skills, org, m)), t).Some?
  {
    hide Target;
  }

  /** The tickets dropped since s0 ask for nothing that could be found in s0. */
  ghost predicate DroppedSince(s0: State, s: State) {
    && s0.dropped <= s.dropped
    && forall i :: |s0.dropped| <= i < |s.dropped| ==> FoundSkill(s0, s.dropped[i]).None?
  }

  lemma StepDrops(s0: State, s: State, limit: Limits.Limit, e: Event)
    requires StillFound(s0, s) && DroppedSince(s0, s)
    ensures StillFound(s0, Step(s, limit, e)) && DroppedSince(s0, Step(s, limit, e))
  {
    hide Limits.AllowStep, Allowed, Limits.SweepStep, MemUpsert, MemGet, Target, Without;
    var s' := Step(s, limit, e);
    match e
    case Publish(org, m) =>
      forall t | FoundSkill(s0, t).Some?
        ensures FoundSkill(s', t).Some?
      {
        PublishKeepsFinding(s, org, m, t);
      }
    case _ =>
      forall t
        ensures FoundSkill(s', t) == FoundSkill(s, t)
      {
      }
  }

  /** In every run, from any point on: only a request for what could not be found at that point is dropped. */
  lemma {:induction false} OnlyUnknownIsDropped(es: seq<Event>, limit: Limits.Limit, n: nat)
    requires n <= |es|
    ensures StillFound(StateAfter(es[..n], limit), StateAfter(es, limit))
    ensures DroppedSince(StateAfter(es[..n], limit), StateAfter(es, limit))
    decreases |es|
  {
    if n == |es| {
      assert es[..n] == es;
    } else {
      hide Step, DroppedSince, StillFound;
      var front := es[..|es| - 1];
      assert front[..n] == es[..n];
      OnlyUnknownIsDropped(front, limit, n);
      StepDrops(StateAfter(es[..n], limit), StateAfter(front, limit), limit, es[|es| - 1]);
    }
  }

  /** Serial numbers are given out in order, and no two tickets share one. */
  ghost predicate Numbered(tickets: seq<Ticket>, next: nat) {
    && (forall i :: 0 <= i < |tickets| ==> tickets[i].serial < next && tickets[i] == Base(tickets[i]))
    && (forall i, j :: 0 <= i < j < |tickets| ==> tickets[i].serial < tickets[j].serial)
  }

  lemma NumberedStep(tickets: seq<Ticket>, s: State, limit: Limits.Limit, e: Event)
    requires Numbered(tickets, s.arrived)
    ensures Numbered(tickets + Admission(s, limit, e), Step(s, limit, e).arrived)
    ensures Step(s, limit, e).arrived == s.arrived + if e.Arrive? then 1 else 0
  {
    hide Limits.AllowStep, Allowed, Limits.SweepStep, FoundSkill, Without;
  }

  lemma {:induction false} AdmissionsAreNumbered(es: seq<Event>, limit: Limits.Limit)
    ensures Numbered(Admissions(es, limit), StateAfter(es, limit).arrived)
  {
    if es != [] {
      hide Step, Numbered, Admission;
      var front := es[..|es| - 1];
      AdmissionsAreNumbered(front, limit);
      NumberedStep(Admissions(front, limit), StateAfter(front, limit), limit, es[|es| - 1]);
    }
  }

  function Is(t: Ticket): Ticket -> bool {
    (u: Ticket) => u == t
  }

  function WithSerial(k: nat): Ticket -> bool {
    (u: Ticket) => u.serial == k
  }

  lemma NumberedCount(tickets: seq<Ticket>, next: nat, t: Ticket)
    requires Numbered(tickets, next)
    ensures Count(tickets, Is(t)) == if t in tickets then 1 else 0
    ensures Count(tickets, WithSerial(t.serial)) <= 1
  {
    hide Count;
    if i :| 0 <= i < |tickets| && tickets[i].serial == t.serial {
      CountWithout(tickets, i, t, Is(t));
      CountWithout(tickets, i, t, WithSerial(t.serial));
      CountNone(Without(tickets, i), Is(t));
      CountNone(Without(tickets, i), WithSerial(t.serial));
    } else {
      CountNone(tickets, Is(t));
      CountNone(tickets, WithSerial(t.serial));
    }
  }

  /** A ticket in any of the three places was admitted before. */
  lemma DroppedBefore(es: seq<Event>, limit: Limits.Limit, i: nat)
    requires i < |StateAfter(es, limit).dropped|
    ensures StateAfter(es, limit).dropped[i].serial < StateAfter(es, limit).arrived
  {
    hide Count, StateAfter, Admissions, Numbered;
    var s := StateAfter(es, limit);
    var t := Base(s.dropped[i]);
    AdmissionsAreAccounted(es, limit, Is(t));
    CountAtLeast(s.dropped, i, Is(t));
    AdmissionsAreNumbered(es, limit);
    NumberedCount(Admissions(es, limit), s.arrived, t);
    SerialBelow(Admissions(es, limit), s.arrived, t);
  }

  lemma SerialBelow(tickets: seq<Ticket>, next: nat, t: Ticket)
    requires Numbered(tickets, next) && t in tickets
    ensures t.serial < next
  {
  }

  /** Calls that arrive after some point, of skills that can be found at that point, are being served or were
      logged: as many as were admitted, whichever of them p singles out. */
  lemma CallsOfKnownSkillsAreLogged(es: seq<Event>, limit: Limits.Limit, n: nat, p: Ticket -> bool)
    requires n <= |es|
    requires forall t :: p(t) ==> StateAfter(es[..n], limit).arrived <= t.serial
                                  && FoundSkill(StateAfter(es[..n], limit), t).Some?
    ensures var s := StateAfter(es, limit);
      Count(s.pending, p) + Count(Tickets(s.audit), p) == Count(Admissions(es, limit), p)
  {
    hide Count, StateAfter, Admissions, Tickets;
    var s0, s := StateAfter(es[..n], limit), StateAfter(es, limit);
    AdmissionsAreAccounted(es, limit, p);
    OnlyUnknownIsDropped(es, limit, n);
    forall i | 0 <= i < |s.dropped|
      ensures !p(Base(s.dropped[i]))
    {
      if i < |s0.dropped| {
        DroppedBefore(es[..n], limit, i);
      }
      assert FoundSkill(s0, Base(s.dropped[i])) == FoundSkill(s0, s.dropped[i]);
    }
    CountNone(s.dropped, p);
  }

  /** Record i, and no other, is of the admitted request t. */
  ghost predicate OnlyRecordOf(audit: seq<Record>, t: Ticket, i: nat) {
    i < |audit| && forall j :: 0 <= j < |audit| ==> (Base(audit[j].ticket) == t <==> j == i)
  }

  lemma {:induction false} CountedOnce(tickets: seq<Ticket>, p: Ticket -> bool) returns (i: nat)
    requires Count(tickets, p) == 1
    ensures i < |tickets| && forall j :: 0 <= j < |tickets| ==> (p(Base(tickets[j])) <==> j == i)
  {
    i := 0;
    if p(Base(tickets[0])) {
      forall j | 1 <= j < |tickets|
        ensures !p(Base(tickets[j]))
      {
        if p(Base(tickets[j])) {
          CountAtLeast(tickets[1..], j - 1, p);
        }
      }
    } else {
      i := CountedOnce(tickets[1..], p);
      assert forall j :: 1 <= j < |tickets| ==> tickets[j] == tickets[1..][j - 1];
      i := i + 1;
    }
  }

  /** Once nothing is pending, every admitted call has exactly one audit record, if its skill could be found at
      some point before it arrived. */
  lemma OneRecordPerCall(es: seq<Event>, limit: Limits.Limit, n: nat, t: Ticket)
    requires n <= |es| && t in Admissions(es, limit) && StateAfter(es, limit).pending == []
    requires StateAfter(es[..n], limit).arrived <= t.serial && FoundSkill(StateAfter(es[..n], limit), t).Some?
    ensures exists i :: OnlyRecordOf(StateAfter(es, limit).audit, t, i)
  {
    hide Count, StateAfter, Admissions, Tickets, Numbered;
    var s := StateAfter(es, limit);
    CallsOfKnownSkillsAreLogged(es, limit, n, Is(t));
    CountNothing(Is(t));
    AdmissionsAreNumbered(es, limit);
    NumberedCount(Admissions(es, limit), s.arrived, t);
    var i := CountedOnce(Tickets(s.audit), Is(t));
    TicketsAt(s.audit);
    assert OnlyRecordOf(s.audit, t, i);
  }

  lemma CountTwo(tickets: seq<Ticket>, i: nat, j: nat, p: Ticket -> bool)
    requires i < j < |tickets| && p(Base(tickets[i])) && p(Base(tickets[j]))
    ensures Count(tickets, p) >= 2
  {
    CountWithout(tickets, i, tickets[i], p);
    CountAtLeast(Without(tickets, i), j - 1, p);
  }

  /** In every run, every record is of an admitted request, and no two are of the same one. */
  lemma RecordsAreOfAdmissions(es: seq<Event>, limit: Limits.Limit)
    ensures var audit := StateAfter(es, limit).audit;
      && (forall i :: 0 <= i < |audit| ==> Base(audit[i].ticket) in Admissions(es, limit))
      && (forall i, j :: 0 <= i < j < |audit| ==> audit[i].ticket.serial != audit[j].ticket.serial)
  {
    hide Count, StateAfter, Admissions, Tickets, Numbered;
    var s := StateAfter(es, limit);
    TicketsAt(s.audit);
    AdmissionsAreNumbered(es, limit);
    forall i | 0 <= i < |s.audit|
      ensures Base(s.audit[i].ticket) in Admissions(es, limit)
    {
      var t := Base(s.audit[i].ticket);
      AdmissionsAreAccounted(es, limit, Is(t));
      CountAtLeast(Tickets(s.audit), i, Is(t));
      NumberedCount(Admissions(es, limit), s.arrived, t);
    }
    forall i, j | 0 <= i < j < |s.audit|
      ensures s.audit[i].ticket.serial != s.audit[j].ticket.serial
    {
      var t := s.audit[i].ticket;
      if s.audit[j].ticket.serial == t.serial {
        AdmissionsAreAccounted(es, limit, WithSerial(t.serial));
        CountTwo(Tickets(s.audit), i, j, WithSerial(t.serial));
        NumberedCount(Admissions(es, limit), s.arrived, t);
      }
    }
  }

  /** The event lets in the request of the ticket, as it came. */
  ghost predicate LetsIn(es: seq<Event>, limit: Limits.Limit, n: nat, t: Ticket) {
    && n < |es| && es[n] == Arrive(t.request, t.admittedAt, t.started)
    && Allowed(StateAfter(es[..n], limit), limit, t.request, t.admittedAt)
    && t.serial == StateAfter(es[..n], limit).arrived && t.skill == None
  }

  lemma LetsInEarlier(es: seq<Event>, e: Event, limit: Limits.Limit, n: nat, t: Ticket)
    requires n < |es|
    ensures LetsIn(es + [e], limit, n, t) <==> LetsIn(es, limit, n, t)
  {
    hide StateAfter, Allowed;
    assert (es + [e])[..n] == es[..n];
  }

  lemma LetsInNow(es: seq<Event>, e: Event, limit: Limits.Limit, n: nat, t: Ticket)
    requires |es| <= n
    ensures LetsIn(es + [e], limit, n, t) <==> n == |es| && t in Admission(StateAfter(es, limit), limit, e)
  {
    hide StateAfter, Allowed;
    assert (es + [e])[..|es|] == es;
  }

  lemma NoneLetIn(limit: Limits.Limit, t: Ticket)
    ensures Admissions([], limit) == [] && forall n :: !LetsIn([], limit, n, t)
  {
  }

  /** Every ticket is of a request that arrived, when and as the ticket says, and was admitted; and every admitted
      request has its ticket. */
  lemma {:induction false} AdmissionsAreArrivals(es: seq<Event>, limit: Limits.Limit, t: Ticket)
    ensures t in Admissions(es, limit) <==> exists n :: LetsIn(es, limit, n, t)
  {
    hide *;
    if es == [] {
      NoneLetIn(limit, t);
    } else {
      var front, e := es[..|es| - 1], es[|es| - 1];
      assert es == front + [e];
      RunSnoc(es, limit);
      AdmissionsAreArrivals(front, limit, t);
      LetsInNow(front, e, limit, |front|, t);
      forall n: nat
        ensures LetsIn(es, limit, n, t) <==>
                if n < |front| then LetsIn(front, limit, n, t)
                else n == |front| && t in Admission(StateAfter(front, limit), limit, e)
      {
        if n < |front| {
          LetsInEarlier(front, e, limit, n, t);
        } else {
          LetsInNow(front, e, limit, n, t);
        }
      }
      forall n: nat | LetsIn(front, limit, n, t)
        ensures n < |front|
      {
        LetsInRange(front, limit, n, t);
      }
    }
  }

  lemma LetsInRange(es: seq<Event>, limit: Limits.Limit, n: nat, t: Ticket)
    requires LetsIn(es, limit, n, t)
    ensures n < |es|
  {
  }

  lemma {:induction false} SerialIsSpent(es: seq<Event>, limit: Limits.Limit, n: nat)
    requires n < |es| && es[n].Arrive? && !Allowed(StateAfter(es[..n], limit), limit, es[n].request, es[n].now)
    ensures StateAfter(es[..n], limit).arrived < StateAfter(es, limit).arrived
    ensures forall t :: t in Admissions(es, limit) ==> t.serial != StateAfter(es[..n], limit).arrived
    decreases |es|
  {
    hide Step, Numbered, Allowed;
    var front, e := es[..|es| - 1], es[|es| - 1];
    var s := StateAfter(front, limit);
    AdmissionsAreNumbered(front, limit);
    NumberedStep(Admissions(front, limit), s, limit, e);
    if n == |es| - 1 {
      assert es[..n] == front;
      forall t | t in Admissions(front, limit)
        ensures t.serial < s.arrived
      {
        SerialBelow(Admissions(front, limit), s.arrived, t);
      }
    } else {
      assert es[..n] == front[..n];
      SerialIsSpent(front, limit, n);
    }
  }

  /** A rejected request, the n-th event of a run, is never logged. */
  lemma RejectedIsNotLogged(es: seq<Event>, limit: Limits.Limit, n: nat)
    requires n < |es| && es[n].Arrive? && !Allowed(StateAfter(es[..n], limit), limit, es[n].request, es[n].now)
    ensures var audit := StateAfter(es, limit).audit;
      forall i :: 0 <= i < |audit| ==> audit[i].ticket.serial != StateAfter(es[..n], limit).arrived
  {
    hide StateAfter, Admissions, Allowed;
    var audit := StateAfter(es, limit).audit;
    SerialIsSpent(es, limit, n);
    RecordsAreOfAdmissions(es, limit);
    forall i | 0 <= i < |audit|
      ensures audit[i].ticket.serial != StateAfter(es[..n], limit).arrived
    {
      assert Base(audit[i].ticket) in Admissions(es, limit);
    }
  }

  /** Once nothing is pending, a caller's audit entries and the its requests that were dropped are, in any
      interval, as many as the admissions of its bucket. */
  lemma QuiescentAudit(es: seq<Event>, limit: Limits.Limit, caller: Caller, lo: Time, hi: Time)
    requires caller != ApiKey(NIL_UUID) && StateAfter(es, limit).pending == []
    ensures var s, trace := StateAfter(es, limit), LimiterTrace(es);
      CountAudit(s.audit, caller, lo, hi) + Count(s.dropped, OfCaller(caller, lo, hi)) ==
      Runs.CountIn(Runs.Admitted(trace, limit, CallerBucket(caller), |trace|), lo, hi)
  {
    hide Runs.Admitted, Runs.CountIn, StateAfter, LimiterTrace, CountAudit, Admissions, Count, OfCaller;
    CountNothing(OfCaller(caller, lo, hi));
    AdmissionsAreAccounted(es, limit, OfCaller(caller, lo, hi));
    AdmissionsOfCaller(es, limit, caller, lo, hi);
    AuditOfCaller(es, limit, caller, lo, hi);
  }

  // ---------- the audit trail tells the truth ----------

  /** The manifests published in a run, oldest first. */
  function Published(es: seq<Event>): seq<Upserted> {
    if es == [] then []
    else
      Published(es[..|es| - 1]) +
      match es[|es| - 1]
      case Publish(org, m) => [Upserted(org, m)]
      case _ => []
  }

  /** A looked-up skill is one that the caller's own org published, under the name the caller asked for. */
  ghost predicate TicketOk(t: Ticket, history: seq<Upserted>) {
    t.skill.Some? ==>
      && AsksFor(t.request.route, t.skill.value.namespace, t.skill.value.name)
      && Upserted(t.request.principal.orgId, t.skill.value) in history
  }

  /** And the entry names that skill and version, and the caller. */
  ghost predicate RecordOk(r: Record, history: seq<Upserted>) {
    && TicketOk(r.ticket, history) && r.ticket.skill.Some?
    && var m, caller := r.ticket.skill.value, r.ticket.request.principal;
    && r.entry.namespace == m.namespace && r.entry.name == m.name && r.entry.version == m.version
    && Principal(r.entry.orgId, r.entry.userId, r.entry.apiKeyId) == caller
    && r.entry.callerIp == r.ticket.request.callerIp && r.entry.userAgent == r.ticket.request.userAgent
    && (r.ticket.started != ZERO_TIME ==> r.entry.startedAt == r.ticket.started)
  }

  ghost predicate Truthful(s: State, history: seq<Upserted>) {
    && (forall i :: 0 <= i < |s.pending| ==> TicketOk(s.pending[i], history))
    && (forall i :: 0 <= i < |s.audit| ==> RecordOk(s.audit[i], history))
  }

  lemma FoundSkillIsOk(s: State, t: Ticket, history: seq<Upserted>)
    requires s.skills == RegistryRuns.MemRun(history) && RegistryRuns.AllValid(history)
    ensures TicketOk(t.(skill := FoundSkill(s, t)), history)
  {
    hide RegistryRuns.MemRun, RegistryRuns.AllValid, MemGet, Target, AsksFor;
    var target := Target(t.request.route);
    if target.Some? {
      TargetIsAskedFor(t.request.route, target.value.0, target.value.1);
      var org, namespace, name := t.request.principal.orgId, target.value.0, target.value.1;
      RegistryRuns.MapHoldsLatest(history, org, namespace, name);
      RegistryRuns.LatestWasPublished(history, Key(org, namespace, name));
    }
  }

  lemma TruthfulLonger(s: State, history: seq<Upserted>, u: Upserted)
    requires Truthful(s, history)
    ensures Truthful(s, history + [u])
  {
    forall i | 0 <= i < |s.audit|
      ensures RecordOk(s.audit[i], history + [u])
    {
      assert RecordOk(s.audit[i], history);
    }
  }

  lemma StepIsTruthful(s: State, limit: Limits.Limit, e: Event, history: seq<Upserted>)
    requires Truthful(s, history) && !e.Publish?
    requires s.skills == RegistryRuns.MemRun(history) && RegistryRuns.AllValid(history)
    ensures Truthful(Step(s, limit, e), history)
  {
    hide Limits.AllowStep, Limits.AllowAnswer, Limits.SweepStep, FoundSkill, Bucket, Target, RegistryRuns.AllValid;
    match e
    case Arrive(_, _, _) =>
    case Lookup(i) =>
      if i < |s.pending| {
        FoundSkillIsOk(s, s.pending[i], history);
      }
    case Finish(i, o, clock) =>
      if i < |s.pending| {
        assert TicketOk(s.pending[i], history);
      }
    case Sweep(_) =>
  }

  /** Every audit entry of every run names its caller, and a skill that the caller's own org published and
      the caller asked for by that name, whether by path or as an MCP tool. */
  lemma {:induction false} AuditIsTruthful(es: seq<Event>, limit: Limits.Limit)
    requires RegistryRuns.AllValid(Published(es))
    ensures StateAfter(es, limit).skills == RegistryRuns.MemRun(Published(es))
    ensures Truthful(StateAfter(es, limit), Published(es))
  {
    if es != [] {
      hide Truthful, RegistryRuns.AllValid, RegistryRuns.MemRun, Step;
      var front, e := es[..|es| - 1], es[|es| - 1];
      var s, history := StateAfter(front, limit), Published(front);
      StepSkills(s, limit, e);
      if e.Publish? {
        var u := Upserted(e.org, e.manifest);
        ValidPrefix(history, u);
        AuditIsTruthful(front, limit);
        TruthfulLonger(s, history, u);
        SameTrails(s, StateAfter(es, limit), history + [u]);
        MemRunSnoc(history, u);
      } else {
        assert Published(es) == history;
        AuditIsTruthful(front, limit);
        StepIsTruthful(s, limit, e, history);
      }
    } else {
      assert StateAfter(es, limit) == START;
    }
  }

  /** Every record names what the route of its request names: the path's namespace and name, or the two parts of
      the tool's name. No other request has a record. */
  lemma RecordsNameTheRoute(es: seq<Event>, limit: Limits.Limit, i: nat)
    requires RegistryRuns.AllValid(Published(es)) && i < |StateAfter(es, limit).audit|
    ensures var r := StateAfter(es, limit).audit[i];
      match r.ticket.request.route
      case Invoke(namespace, name, _) => r.entry.namespace == namespace && r.entry.name == name
      case ToolsCall(tool, _) => tool == r.entry.namespace + "/" + r.entry.name
      case Elsewhere => false
  {
    hide StateAfter, Published, RegistryRuns.AllValid;
    AuditIsTruthful(es, limit);
    assert RecordOk(StateAfter(es, limit).audit[i], Published(es));
  }

  /** In every run, a REST call proceeds with the manifest that its caller's org published last under the
      namespace and name of its path, and an MCP call with the one last published under the two parts of the
      tool's name; if there is none, or the request is no such call, it is dropped. */
  lemma LookupFindsThePublished(es: seq<Event>, limit: Limits.Limit, i: nat)
    requires RegistryRuns.AllValid(Published(es))
    requires i < |StateAfter(es, limit).pending| && StateAfter(es, limit).pending[i].skill.None?
    ensures var s, s', history := StateAfter(es, limit), StateAfter(es + [Lookup(i)], limit), Published(es);
      var r := s.pending[i].request;
      match r.route
      case Invoke(namespace, name, _) =>
        Proceeds(s, s', i, Latest(history, Key(r.principal.orgId, namespace, name)))
      case ToolsCall(tool, _) =>
        && (forall namespace, name :: NamesSkill(tool, namespace, name) ==>
              Proceeds(s, s', i, Latest(history, Key(r.principal.orgId, namespace, name))))
        && ((forall namespace, name :: !NamesSkill(tool, namespace, name)) ==> Proceeds(s, s', i, None))
      case Elsewhere => Proceeds(s, s', i, None)
  {
    hide RegistryRuns.MemRun, RegistryRuns.AllValid, MemGet, Target, Latest, Published;
    var s, history := StateAfter(es, limit), Published(es);
    var t := s.pending[i];
    assert (es + [Lookup(i)])[..|es|] == es;
    AuditIsTruthful(es, limit);
    FoundIsAskedFor(s, t);
    forall namespace, name
      ensures MemGet(s.skills, t.request.principal.orgId, namespace, name) ==
              Latest(history, Key(t.request.principal.orgId, namespace, name))
    {
      RegistryRuns.MapHoldsLatest(history, t.request.principal.orgId, namespace, name);
    }
  }

  lemma MemRunSnoc(history: seq<Upserted>, u: Upserted)
    ensures RegistryRuns.MemRun(history + [u]) == MemUpsert(RegistryRuns.MemRun(history), u.org, u.manifest)
  {
    assert (history + [u])[..|history|] == history;
  }

  lemma StepSkills(s: State, limit: Limits.Limit, e: Event)
    ensures e.Publish? ==> Step(s, limit, e) == s.(skills := MemUpsert(s.skills, e.org, e.manifest))
    ensures !e.Publish? ==> Step(s, limit, e).skills == s.skills
  {
    hide Limits.AllowStep, Limits.AllowAnswer, Limits.SweepStep, FoundSkill;
  }

  lemma ValidPrefix(history: seq<Upserted>, u: Upserted)
    requires RegistryRuns.AllValid(history + [u])
    ensures RegistryRuns.AllValid(history)
  {
    forall i | 0 <= i < |history|
      ensures ValidNames(history[i].manifest)
    {
      assert (history + [u])[i] == history[i];
    }
  }

  lemma SameTrails(s: State, s': State, history: seq<Upserted>)
    requires Truthful(s, history) && s'.pending == s.pending && s'.audit == s.audit
    ensures Truthful(s', history)
  {
  }

  // ---------- the two interfaces' audit entries ----------

  /** The REST path and the MCP tool name of a skill are the same request exactly if they could name a skill at
      all. The entries of the two calls, with the same outcome, are then equal exactly when the runner reported
      some output bytes and the body has the length of the marshalled arguments; they never differ in anything
      but the two sizes. Of an empty output REST logs 0 bytes, MCP the length of its reply. */
  lemma InterfacesLogAlike(t: Ticket, namespace: string, name: string, body: string, arguments: Option<string>,
      skill: SkillManifest, o: Outcome)
    requires 2 <= o.marshalled
    ensures var rest := t.(request := t.request.(route := Invoke(namespace, name, body)));
      var mcp := t.(request := t.request.(route := ToolsCall(namespace + "/" + name, arguments)));
      && (Target(rest.request.route) == Target(mcp.request.route) <==>
          namespace != "" && name != "" && '/' !in namespace)
      && (AuditEntry(rest, skill, o) == AuditEntry(mcp, skill, o) <==>
          o.outputBytes != 0 && |body| == if arguments.Some? then |arguments.value| else 0)
      && AuditEntry(rest, skill, o).(inputBytes := 0, outputBytes := 0) ==
         AuditEntry(mcp, skill, o).(inputBytes := 0, outputBytes := 0)
  {
    SplitInvertsJoin(namespace + "/" + name, namespace, name);
  }

  /** A body with a blank in it, and the same object marshalled: 8 bytes over REST, 7 over MCP. */
  lemma InputSizesDiffer(t: Ticket, namespace: string, name: string, skill: SkillManifest, o: Outcome)
    ensures var body, arguments := "{\"n\": 1}", "{\"n\":1}";
      var rest := t.(request := t.request.(route := Invoke(namespace, name, body)));
      var mcp := t.(request := t.request.(route := ToolsCall(namespace + "/" + name, Some(arguments))));
      AuditEntry(rest, skill, o).inputBytes == 8 && AuditEntry(mcp, skill, o).inputBytes == 7
  {
  }
}

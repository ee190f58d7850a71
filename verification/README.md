# Skill Cloud server: a verified model

Skill Cloud registers skills, runs them for authenticated callers over a REST and an MCP
interface, limits each caller's rate and keeps an audit log. This project models the server's
stateful core in Dafny and proves properties of whole runs of it:

- **the sliding-window rate limiter** (`RateLimiter.dfy`, `RateLimitRuns.dfy`, `RateLimitHistory.dfy`,
  `RateLimitReset.dfy`, `RateLimitReplies.dfy`, `RateLimitBounds.dfy`): safety under clock skew, with a bound for each limit that
  cannot be improved by a nanosecond, equality with a limiter that never forgets, optimality among all ways of choosing requests, and the exact meaning
  of the numbers a caller is told;
- **the bounded audit log** (`Invocations.dfy`, `InvocationRuns.dfy`): its queries against the unbounded
  history, against each other, and what is conserved when entries are evicted;
- **the two skill registries** (`Registries.dfy`, `RegistryRuns.dfy`): two tables written in a transaction
  answer as the in-memory map does, for every sequence of upserts and every lookup;
- **the runners** (`Runtimes.dfy`, `Utf8.dfy`): output capping and the verdict on a skill's output;
- **API keys** (`Base64.dfy`, `Auth.dfy`), **names** (`Models.dfy`, `Strings.dfy`, `Regexes.dfy`) and
  **versions** (`SemVer.dfy`);
- **the server** (`Servers.dfy`): both interfaces behind one limiter and in front of one log, with requests
  interleaving step by step.

The objects the source updates in place are classes, proved against step functions; runs are sequences of
steps; what the source promises is proved about the runs. Clock readings, fresh ids, random bytes, salts,
library verdicts (JSON decoding, hashing, URL parsing) and failures of the environment are inputs.
`dafny verify dfyconfig.toml` checks the whole project.

## Where the code and its comments differ

The model follows the code.

- `server/internal/runtime/http.go:22` says that responses outside 2xx are errors; the code rejects
  status 400 and above only (`ProxyVerdict`).
- `server/internal/mcp/server.go:144-148` promises an audit trail identical to the REST one. The two differ
  in the output size exactly when the runner reports no output bytes, and in the input size exactly when the
  body is not as long as its marshalled arguments (`InterfacesLogAlike`); a blank is enough
  (`InputSizesDiffer`).
- `server/internal/db/migrations/001_initial.sql:40-45` says that a prefix collision makes `IssueAPIKey`
  draw again; the code returns the error (`CollisionMeansSameBytes`).
- `server/internal/api/ratelimit.go:83-85` calls the reset the time at which the oldest hit leaves the
  window; at that instant the hit still counts, and the first request that can pass is strictly later
  (`ResetIsExact`). The reset header is rounded down to the second, and so always too early
  (`ResetHeaderIsTooEarly`); Retry-After never is (`RetryAfterLands`).

## Model

| member | source | states |
|---|---|---|
| RateLimit.RateLimiter.Allow | server/internal/api/ratelimit.go:86-117 | one locked request: the new table and the answer are those of the step functions that the run theorems are about; a rejected request is trimmed but not recorded |
| RateLimit.RateLimiter.Sweep | server/internal/api/ratelimit.go:65-74 | removes exactly the keys whose window is empty or whose last hit is before the cutoff |
| RateLimit.RateLimiter.Size | server/internal/api/ratelimit.go:77-81 | the number of tracked keys |
| RateLimit.Throttle | server/internal/api/ratelimit.go:131-144 | 429 exactly on rejection; the limit and what is left of it; the second that the reset lies in; Retry-After, on rejection only, ending just after the reset |
| RateLimitRuns.TableHoldsWindows | server/internal/api/ratelimit.go:65-117 | in every run the shared table holds for each key the window the key would have alone |
| RateLimitRuns.AdmittedByAnswer | server/internal/api/ratelimit.go:86-117 | the admission history grows exactly at the requests that were answered as allowed |
| RateLimitRuns.Retained | server/internal/api/ratelimit.go:65-117 | run invariant under clock skew d: window and full history agree on everything newer than the window less d, or less 2d if sweeps run |
| RateLimitRuns.SafetyUnderSkew | server/internal/api/ratelimit.go:65-117 | for every interleaving of requests and sweeps with skew d, at most `limit` admissions of a key lie in any closed interval of 60 s - d, or of 60 s - 2d with sweeps; d = 0 is the advertised limit |
| RateLimitBounds.SafetyIsTightWithSweeps | server/internal/api/ratelimit.go:65-74 | for every limit from 2 on and every d, a run that breaks the limit in an interval one nanosecond longer than 60 s - 2d |
| RateLimitBounds.SafetyIsTightWithoutSweeps | server/internal/api/ratelimit.go:86-117 | the same for 60 s - d when no sweep runs |
| RateLimitBounds.SafetyOfLimitOne | server/internal/api/ratelimit.go:65-117 | a limiter of limit 1 does better: skew costs d if sweeps run, and nothing if none does |
| RateLimitBounds.LimitOneIsTight | server/internal/api/ratelimit.go:65-117 | and no better than that: runs that admit two in intervals one nanosecond longer |
| RateLimitHistory.AnswerIsIdeal | server/internal/api/ratelimit.go:86-117 | with ordered times, allowed, remaining and resetAt are what counting the never-trimmed history gives |
| RateLimitHistory.RefinesFullHistory | server/internal/api/ratelimit.go:65-117 | with ordered times, all of a key's answers and admissions equal those of a limiter that never forgets, run on that key's requests alone |
| RateLimitHistory.ErasureIsInvisible | server/internal/api/ratelimit.go:65-117 | erasing sweeps, other keys' traffic, or any part of either from an ordered run changes none of the key's answers |
| RateLimitHistory.KeysDoNotInterfere | server/internal/api/ratelimit.go:86-117 | erasing other keys' traffic changes nothing even when times are out of order |
| RateLimitHistory.GreedyStaysAhead | server/internal/api/ratelimit.go:86-117 | the j-th admission comes no later than the j-th pick of any choice that keeps every closed 60 s interval at or below the limit |
| RateLimitHistory.OptimalAdmission | server/internal/api/ratelimit.go:86-117 | on every prefix of an ordered run the admissions are such a choice, and none admits more |
| RateLimitReset.ResetIsExact | server/internal/api/ratelimit.go:100-103 | after a rejection with reset r, requests up to and including r are rejected with the same r, and the first one strictly after r is admitted, whatever intervenes |
| RateLimitReset.RetryAfterLands | server/internal/api/ratelimit.go:138 | waiting the Retry-After seconds lands strictly after the reset, and at most a second after one still to come |
| RateLimitReset.RetryIsAdmitted | server/internal/api/ratelimit.go:131-142 | a client that waits as told and does not overtake itself is admitted |
| RateLimitReset.ResetHeaderIsTooEarly | server/internal/api/ratelimit.go:136 | a request at the second the reset header names is rejected again, with the same reset |
| RateLimitReset.RemainingIsExact | server/internal/api/ratelimit.go:106-116 | an admission reporting k left is followed at that instant by exactly k more, counted down to 0, then by rejections, in every run |
| RateLimitReset.AfterSweep | server/internal/api/ratelimit.go:41-74 | after a sweep of an ordered run a key is tracked if and only if it has an admission inside the window, and its window is non-empty, sorted and at most `limit` long |
| RateLimitReset.MemoryIsBounded | server/internal/api/ratelimit.go:41-81 | after a sweep there are no more tracked keys than admissions, of all keys, in the last 60 s |
| RateLimitReplies.ReplyTellsTheTruth | server/internal/api/ratelimit.go:131-144 | with ordered times, 429 if and only if the key's admissions of the last 60 s reach the limit, and every header counted from those admissions |
| RateLimitReplies.RemainingCountsDown | server/internal/api/ratelimit.go:135 | at one instant as many more requests pass as the header says, and no more, in every run |
| RateLimitReplies.WaitingHelps | server/internal/api/ratelimit.go:136-138 | a quiet client that waits for Retry-After passes; one that comes at the second of the reset header, or before, gets a 429 |
| Invocations.Memory.Log | server/internal/invocations/memory.go:28-39 | appends the entry, stamped with the clock if and only if its start time is zero, and keeps the last memoryCap |
| Invocations.Memory.Recent | server/internal/invocations/memory.go:43-58 | the skill's entries backwards from the last: `limit` of them, or 50 if it is not positive, or all if there are fewer |
| Invocations.Memory.RecentForOrg | server/internal/invocations/memory.go:62-76 | the same for an org, with 100 |
| Invocations.Memory.StatsForOrg | server/internal/invocations/memory.go:79-94 | how many stored entries carry the org's id, and how many of those started in the last 24 hours |
| Invocations.Memory.Stats | server/internal/invocations/memory.go:97-117 | the same for a skill, with time and caller of the first of its entries that no other started after, whatever order they were logged in |
| Invocations.MatchingPicks | server/internal/invocations/memory.go:52-54 | the entries a query is about are exactly, and in order, those with the org, namespace and name asked for |
| InvocationRuns.KeepsTheLast | server/internal/invocations/memory.go:28-39 | after any history the entries are its last memoryCap elements |
| InvocationRuns.ScanIsExact | server/internal/invocations/memory.go:43-76 | a page equals that of an unbounded log if and only if enough matching entries are kept or no matching one was evicted |
| InvocationRuns.OrgsAreIsolated | server/internal/invocations/memory.go:28-117 | until more than memoryCap entries were logged, an org's queries see what they would without the other orgs |
| InvocationRuns.LogConserves | server/internal/invocations/memory.go:28-39 | one call changes every count by what the new entry adds less what the evicted entry, at most one, takes away |
| InvocationRuns.StatsAreCounts | server/internal/invocations/memory.go:97-117 | a skill's totals are the counts that the conservation laws speak of |
| InvocationRuns.OrgIsSumOfSkills | server/internal/invocations/memory.go:79-117 | an org's totals are the sums of its distinct skills' totals |
| InvocationRuns.OrgPageExtendsToSkillPage | server/internal/invocations/memory.go:43-76 | the org's page restricted to a skill is a prefix of the skill's page of the same limit |
| InvocationRuns.TiesResolveOppositely | server/internal/invocations/memory.go:51-56 | among entries logged in order, the newest is also the one the statistics name if and only if it has no tie |
| InvocationRuns.PageAgreesWithStats | server/internal/invocations/memory.go:43-117 | for entries logged in order, pages go back in time, and their head agrees with the statistics on the time, and, for every page size, on the caller if no other matching entry started at that time |
| Registries.InMemory.Upsert | server/internal/registry/inmemory.go:24-34 | stores the manifest in the org's bucket under its qualified name, and nothing else changes |
| Registries.InMemory.Get | server/internal/registry/inmemory.go:37-46 | looks the joined name up in the org's bucket |
| Registries.InMemory.List | server/internal/registry/inmemory.go:49-61 | the bucket's manifests, none twice |
| Registries.Postgres.Upsert | server/internal/registry/postgres.go:30-70 | fails if and only if the database does, or an id is taken that a new skill or version needs, and then changes nothing; otherwise the tables represent the history with this upsert |
| Registries.Postgres.Get | server/internal/registry/postgres.go:73-92 | the join finds the manifest last published under the key, or nothing |
| Registries.Postgres.List | server/internal/registry/postgres.go:95-121 | every current skill of the org, once, in the collation's order of namespace and name |
| Registries.UpsertRepresents | server/internal/registry/postgres.go:42-69 | a committed upsert keeps every constraint of the schema and makes the tables represent the history extended by it |
| Registries.UpsertCommits | server/internal/registry/postgres.go:42-69 | the transaction commits a new skill, a new version and a known version alike, unless the database fails or a needed id is taken |
| Registries.OneRowPerLatestVersion | server/internal/db/migrations/001_initial.sql:50-70 | every skills row has exactly one version row for its latest version |
| RegistryRuns.TablesRepresentCommitted | server/internal/registry/postgres.go:30-70 | after any attempts, failed ones included, the tables represent the committed ones |
| RegistryRuns.AttemptCommits | server/internal/registry/postgres.go:30-70 | what one more attempt adds to the committed history, by what was published before and the ids it draws |
| RegistryRuns.NoAttemptIsLost | server/internal/registry/postgres.go:44-68 | if ids are never drawn twice, every attempt commits that the database does not fail |
| RegistryRuns.LastPublishedIsFound | server/internal/registry/postgres.go:73-92 | and then every lookup finds, in one row or none, what was last published without a failure |
| RegistryRuns.MapHoldsLatest | server/internal/registry/inmemory.go:24-46 | after any validated upserts the map answers every lookup, of names valid or not, with what was last published there |
| RegistryRuns.UnvalidatedNamesCollide | server/internal/registry/inmemory.go:32 | without validation two skills can share a key, and the later one hides the earlier |
| RegistryRuns.MapListsCurrent | server/internal/registry/inmemory.go:49-61 | what the map lists are the org's current skills, once each |
| RegistryRuns.LookupsAgree | server/internal/registry/postgres.go:73-92 | after any attempts, the query returns one row or none, the same as the map, for every org, namespace and name |
| RegistryRuns.ListsAgree | server/internal/registry/registry.go:16-25 | two registries' lists of an org are permutations of each other |
| RegistryRuns.SortedListsAgree | server/internal/registry/postgres.go:95-102 | two lists of an org in the collation's order are the same |
| RegistryRuns.OrgsDoNotInterfere | server/internal/registry/postgres.go:16-18 | runs that agree on an org's committed upserts, whatever other orgs do, have the same bucket in the map, and the same lookups and lists in the database |
| RegistryRuns.VersionsAreKept | server/internal/registry/postgres.go:28-29 | the versions table has, for each key and version, exactly the manifest last published as that version |
| Runtimes.LimitedWriter.Write | server/internal/runtime/docker.go:186-205 | every write reports its full length; buffer and counter follow the step function |
| Runtimes.WriterKeepsPrefix | server/internal/runtime/docker.go:176-205 | after any writes the buffer is the first min(total, max) bytes, and the counter tells whether there were more |
| Runtimes.RunDocker | server/internal/runtime/docker.go:62-153 | arguments and verdict, the latter in terms of the child's whole output: each status, message, output and size under exactly its own condition |
| Runtimes.Capture | server/internal/runtime/docker.go:161-173 | the captured output is what the capped writer holds after the child's writes |
| Runtimes.ChunksDoNotMatter | server/internal/runtime/docker.go:157-205 | how a child splits its output into writes never shows in the result |
| Runtimes.VerdictIsOnTheWholeOutput | server/internal/runtime/docker.go:108-152 | timeouts come first; success if and only if the child exits 0 in time with a complete, blank or decodable output within the cap; oversize if and only if such a child wrote more; nothing but success carries an output; the source's verdict on the captured bytes is the one result of which this holds |
| Runtimes.ArgvIsInjective | server/internal/runtime/docker.go:81-104 | the sandbox flags come first for every manifest, and different images, memory limits or entrypoints give different arguments |
| Runtimes.DockerReadsTheManifest | server/internal/runtime/docker.go:81-104 | a reader of flags up to the first other word finds the sandbox's flags, the manifest's image and its command, and nothing else, if and only if the image is not itself taken for a flag |
| Runtimes.RunProxy | server/internal/runtime/http.go:39-121 | the verdict on an exchange: each status, message, output and size under exactly its own condition |
| Runtimes.ProxyVerdict | server/internal/runtime/http.go:85-120 | success if and only if a complete, empty or decodable answer within the cap comes with a status below 400; a timeout if and only if the deadline passed without an answer; the source's verdict is the one result of which all clauses hold |
| Runtimes.RunnersAgree | server/internal/runtime/docker.go:130-152 | for the same bytes both runners give the same status and output, except exactly on non-empty white space within the cap: an empty object from Docker, an error from the proxy |
| Utf8.BlankText | server/internal/runtime/docker.go:131 | of valid UTF-8, exactly the texts of characters with the Unicode property White_Space count as blank |
| Utf8.BlankIsWhiteText | server/internal/runtime/docker.go:131 | of all byte sequences, exactly the encodings of such texts |
| SemVer.AcceptsExactlyOneSplit | server/internal/models/skill.go:78 | the version pattern accepts exactly the printed versions, each in one way |
| SemVer.AcceptsAllSemVer | server/internal/models/skill.go:78-90 | every Semantic Versioning 2.0.0 version is accepted, and an accepted one is such a version if and only if its split is strict |
| SemVer.AcceptsMoreThanSemVer | server/internal/models/skill.go:78 | two accepted strings that are not |
| Models.Validate | server/internal/models/skill.go:81-104 | no problem if and only if both names match, the version is a printed well-formed one and the runtime has its image or URL; each problem is reported under exactly its own condition |
| Models.NameShape | server/internal/models/skill.go:77 | the names accepted: 1 to 63 lower-case letters, digits, underscores and dashes, of which the first is a letter or a digit |
| Models.SplittersAgree | sdk/python/skill_cloud/client.py:113-123 | the Go, TypeScript and Python splitters are one function of all strings |
| Models.SplitInvertsJoin | server/internal/mcp/server.go:248-254 | a split succeeds with a pair if and only if the parts are non-empty, the first has no slash, and joining them gives the string back |
| Models.SplitQualifiedName | server/internal/models/skill.go:53-55 | splitting a validated manifest's qualified name gives its parts |
| Models.RegistryKeyIsInjective | server/internal/registry/inmemory.go:32-44 | a looked-up pair of names, valid or not, builds a validated manifest's key only if it is that manifest's own pair |
| Base64.TokenHasNoDot | server/internal/auth/auth.go:169-175 | a random token has no dot and no NUL, and four characters for three bytes |
| Base64.EncodeIsInjective | server/internal/auth/auth.go:169-175 | different bytes give different tokens |
| Base64.EncodeKeepsBits | server/internal/auth/auth.go:169-175 | read in base 64 by the URL-safe alphabet, a token is the number its bytes spell in base 256, with 2 or 4 zero bits to fill it up |
| Auth.Service.IssueAPIKey | server/internal/auth/auth.go:94-120 | inserts the key's row and returns its plaintext, or fails, under exactly these conditions, and changes nothing |
| Auth.Service.Authenticate | server/internal/auth/auth.go:138-167 | the principal behind the token's prefix if the hash matches; unavailable if and only if a well-formed token meets an unreachable database; nothing but that row's time of use changes |
| Auth.RunIsBacked | server/internal/auth/auth.go:94-167 | run invariant: rows and prefix index are exactly what the successful orders say |
| Auth.UseIsRecorded | server/internal/auth/auth.go:164-165 | in every run each row tells when its own key was last used, and keeps its name |
| Auth.IssuedKeysAuthenticate | server/internal/auth/auth.go:92-167 | every issued key authenticates as its own org, user and key id in every later state |
| Auth.AcceptedTokens | server/internal/auth/auth.go:137-167 | with a hash as good as its 72-byte key, a token is accepted exactly for the owner of an issued key whose prefix it has and whose key its secret makes |
| Auth.OnlyIssuedKeysAuthenticate | server/internal/auth/auth.go:137-167 | of the tokens without a NUL, the accepted ones are exactly the issued plaintexts |
| Auth.RepeatedSecretAuthenticates | server/internal/auth/auth.go:160 | a token that is not: the secret, a NUL and the secret again make the same key |
| Auth.CollisionMeansSameBytes | server/internal/db/migrations/001_initial.sql:40-46 | beyond environment errors, issuing fails if and only if the id is taken or the same prefix bytes were drawn before |
| Servers.Server.Arrive | server/internal/api/ratelimit.go:131-144 | an admitted request becomes pending; a rejected one leaves pending requests and audit trail alone |
| Servers.Server.Lookup | server/internal/mcp/server.go:161-188 | proceeds with the skill registered for the caller's org under the names in the path, or under the two parts of the tool's name; any other request ends without a record |
| Servers.Server.Finish | server/internal/api/handlers.go:147-158 | one record, and the store holds what the whole trail leaves in it |
| Servers.AdmissionsAreAccounted | server/internal/api/server.go:137-167 | conservation in every run, for every selection of requests: being served, dropped and logged add up to the admitted ones |
| Servers.AdmissionsOfCaller | server/internal/api/server.go:137-167 | the admitted requests of an API key, or of an address without one, REST and MCP together, are its bucket's admissions, in every interval |
| Servers.BucketsAreCallers | server/internal/api/ratelimit.go:150-155 | two requests share a bucket if and only if they carry the same key, or none and come from the same address |
| Servers.AdmissionsAreArrivals | server/internal/api/server.go:137-167 | tickets are exactly the requests that arrived and were admitted, with what they carried and when they came |
| Servers.SharedBudget | server/internal/api/server.go:137-167 | with limiter times of skew d, at most `limit` audit entries of one caller, by key or by address, come from requests admitted within any closed 60 s - d, or 60 s - 2d with sweeps; within any 60 s if the times are ordered |
| Servers.LookupFindsThePublished | server/internal/api/handlers.go:123-135 | in every run a call proceeds with the manifest last published by its caller's org under the names its path or tool name gives, and is dropped if there is none |
| Servers.OnlyUnknownIsDropped | server/internal/mcp/server.go:161-188 | from any point of a run on, nothing is dropped but requests for what could not be found at that point; what could be found can be found ever after |
| Servers.CallsOfKnownSkillsAreLogged | server/internal/api/handlers.go:117-171 | of calls that arrive after a point of a run, for skills known at that point, as many are being served or logged as were admitted, whichever of them are counted |
| Servers.OneRecordPerCall | server/internal/api/handlers.go:147-158 | when nothing is pending, each admitted call of a skill known before it arrived has exactly one record |
| Servers.RecordsAreOfAdmissions | server/internal/mcp/server.go:190-245 | in every state, each record is of an admitted request, and no two are of the same one |
| Servers.RejectedIsNotLogged | server/internal/api/ratelimit.go:131-144 | a request answered with 429 is never logged |
| Servers.TrailGrows | server/internal/api/handlers.go:147-158 | the trail is append-only; an event adds a record if and only if it ends a served call, and the record reports that call, its outcome and its sizes |
| Servers.QuiescentAudit | server/internal/api/handlers.go:117-171 | when nothing is pending, a caller's audit entries and its dropped requests add up to its bucket's admissions, in every interval |
| Servers.AuditIsTruthful | server/internal/mcp/server.go:256-291 | every entry names its caller, and a skill that the caller's org published and the caller asked for by that name |
| Servers.RecordsNameTheRoute | server/internal/mcp/server.go:161-183 | every entry's namespace and name are those in the path, or make up the tool's name |
| Servers.InterfacesLogAlike | server/internal/mcp/server.go:190-238 | the same call, with the same outcome, leaves equal entries over REST and MCP if and only if output bytes were reported and the body is as long as the marshalled arguments; they never differ in another field |
| Servers.InputSizesDiffer | server/internal/mcp/server.go:191-196 | a call that both log, with 8 input bytes over REST and 7 over MCP |

## Left out

- HTTP transport, routing, JSON encoding and decoding: manifests pass unchanged, and decoding is an arbitrary function (for `RunnersAgree`, one that rejects white space alone).
- The database engine: tables are maps, a unique constraint is its index, a transaction takes effect whole or not at all; users, orgs and foreign keys to them are among the environment's failures.
- Registries.InMemory.List: the order is any, as for a Go map.
- The hash function of API keys: any pair of functions; that a hash matches its own secret (and, for the theorems on accepted tokens, nothing with another 72-byte key) is a condition of the theorems.
- The docker command line: any table that knows the sandbox's flags; `DockerReadsTheManifest` has its rule that flags end at the first other word.
- The configured default limit of 60, and a server without a limiter for a negative one: the server model has a positive limit.
- Goroutines, tickers and mutexes: a locked operation is one step, and steps interleave freely.
- Runtimes.RunDocker: splitting the entrypoint into words and formatting the memory limit are library calls; error texts are reasons, not strings.
- Runtimes.RunProxy: errors from building the request are among the failures without a response.
- Runtimes.LimitedWriter.Write: the underlying buffer never fails, so that the writer's error returns have no counterpart.
- RateLimit.Throttle: seconds are exact, where the source divides in floating point; the limiter's absence for a non-positive limit has no counterpart.
- RateLimit.RateLimiter.Allow: the deletion of an empty window after the append is omitted, because it cannot happen.
- Servers.Server.Lookup: looks skills up in the in-memory registry, whose answers are the database's by `LookupsAgree`; a database query that fails, and so ends the request without a record, has no counterpart; dispatch and its defaults are part of the outcome.
- The Postgres invocation store, metrics, caller-address headers, configuration, command line tool, web UI and deployment: no property of the core depends on them.
- Redacted manifests and tool schemas: each is settled by reading one function.

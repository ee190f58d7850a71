/** The in-memory invocation store of `server/internal/invocations/memory.go`: a FIFO-capped log
    with newest-first scans and one-pass counts. */
module Invocations {
  import opened Basics
  import opened Options
  import opened Sequences

  const MEMORY_CAP: nat := 10_000
  const DAY: Time := 24 * 3600 * SECOND

  datatype Entry = Entry(
    orgId: UUID,
    userId: UUID,
    apiKeyId: UUID,
    namespace: string,
    name: string,
    version: string,
    status: string,
    latencyMs: int,
    inputBytes: int,
    outputBytes: int,
    errorMessage: string,
    callerIp: string,
    userAgent: string,
    startedAt: Time
  )

  datatype SkillStats = SkillStats(total: nat, last24h: nat, lastInvokedAt: Option<Time>, lastCallerIp: string)

  datatype OrgStats = OrgStats(total: nat, last24h: nat)

  /** Which entries a query looks at: one skill of an org, or all of them. */
  datatype Query = Skill(org: UUID, namespace: string, name: string) | Org(org: UUID) {
    predicate Matches(e: Entry) {
      e.orgId == org && (Skill? ==> e.namespace == namespace && e.name == name)
    }

    function DefaultLimit(): nat {
      if Skill? then 50 else 100
    }

    function Effective(limit: int): nat {
      if limit <= 0 then DefaultLimit() else limit
    }
  }

  function Stamped(e: Entry, clock: Time): Entry {
    if e.startedAt == ZERO_TIME then e.(startedAt := clock) else e
  }

  /** The last `cap` elements. */
  function Tail<T>(s: seq<T>, cap: nat): seq<T> {
    if |s| <= cap then s else s[|s| - cap..]
  }

  function Matching(entries: seq<Entry>, q: Query): seq<Entry> {
    if entries == [] then []
    else
      var e := entries[|entries| - 1];
      Matching(entries[..|entries| - 1], q) + if q.Matches(e) then [e] else []
  }

  function Reversed<T>(s: seq<T>): seq<T> {
    if s == [] then [] else [s[|s| - 1]] + Reversed(s[..|s| - 1])
  }

  /** The first `limit` (or the default number) of the matching entries, newest first. */
  function Newest(entries: seq<Entry>, q: Query, limit: int): seq<Entry> {
    Take(Reversed(Matching(entries, q)), q.Effective(limit))
  }

  /** The page holds the last `most` of the entries, or all of them, backwards. */
  ghost predicate IsPage(page: seq<Entry>, mine: seq<Entry>, most: nat) {
    && |page| == (if |mine| <= most then |mine| else most)
    && forall i :: 0 <= i < |page| ==> page[i] == mine[|mine| - 1 - i]
  }

  /** What a newest-first scan that has come down to index i has still to see, newest first. */
  ghost function Unscanned(entries: seq<Entry>, q: Query, i: nat): seq<Entry>
    requires i <= |entries|
  {
    Reversed(Matching(entries[..i], q))
  }

  /** How many of the entries started after `cutoff`. */
  function CountAfter(entries: seq<Entry>, cutoff: Time): nat {
    if entries == [] then 0
    else
      CountAfter(entries[..|entries| - 1], cutoff) + if cutoff < entries[|entries| - 1].startedAt then 1 else 0
  }

  /** The first entry that started later than all before it and at least as late as all after it. */
  function FirstLatest(entries: seq<Entry>): (i: nat)
    requires entries != []
    ensures i < |entries|
    ensures forall k :: 0 <= k < |entries| ==> entries[k].startedAt <= entries[i].startedAt
    ensures forall k :: 0 <= k < i ==> entries[k].startedAt < entries[i].startedAt
  {
    var m := |entries| - 1;
    if m == 0 then 0
    else
      var i := FirstLatest(entries[..m]);
      if entries[i].startedAt < entries[m].startedAt then m else i
  }

  function Summary(mine: seq<Entry>, clock: Time): SkillStats {
    if mine == [] then SkillStats(0, 0, None, "")
    else
      var last := mine[FirstLatest(mine)];
      SkillStats(|mine|, CountAfter(mine, clock - DAY), Some(last.startedAt), last.callerIp)
  }

  function StatsOf(entries: seq<Entry>, q: Query, clock: Time): SkillStats {
    Summary(Matching(entries, q), clock)
  }

  class Memory {
    var entries: seq<Entry>

    constructor ()
      ensures entries == []
    {
      entries := [];
    }

    method Log(e: Entry, clock: Time)
      modifies this
      ensures entries == Tail(old(entries) + [Stamped(e, clock)], MEMORY_CAP)
      ensures entries[|entries| - 1] == if e.startedAt == ZERO_TIME then e.(startedAt := clock) else e
    {
      var stamped := e;
      if stamped.startedAt == ZERO_TIME {
        stamped := stamped.(startedAt := clock);
      }
      entries := entries + [stamped];
      if |entries| > MEMORY_CAP {
        entries := entries[|entries| - MEMORY_CAP..];
      }
    }

    method Recent(orgId: UUID, namespace: string, name: string, limit: int) returns (out: seq<Entry>)
      ensures out == Newest(entries, Skill(orgId, namespace, name), limit)
      ensures IsPage(out, Matching(entries, Skill(orgId, namespace, name)), if limit <= 0 then 50 else limit)
    {
      var q := Skill(orgId, namespace, name);
      var most := if limit <= 0 then 50 else limit;
      out := [];
      var i := |entries|;
      hide Unscanned, Newest, Matching, Reversed, IsPage;
      while 0 < i && |out| < most
        invariant 0 <= i <= |entries| && |out| <= most
        invariant Unscanned(entries, q, |entries|) == out + Unscanned(entries, q, i)
      {
        ScanStep(entries, q, i);
        i := i - 1;
        var e := entries[i];
        if e.orgId == orgId && e.namespace == namespace && e.name == name {
          assert out + ([e] + Unscanned(entries, q, i)) == (out + [e]) + Unscanned(entries, q, i);
          out := out + [e];
        }
      }
      ScanDone(entries, q, limit, i, out);
      PageIsNewest(entries, q, limit);
    }

    method RecentForOrg(orgId: UUID, limit: int) returns (out: seq<Entry>)
      ensures out == Newest(entries, Org(orgId), limit)
      ensures IsPage(out, Matching(entries, Org(orgId)), if limit <= 0 then 100 else limit)
    {
      var q := Org(orgId);
      var most := if limit <= 0 then 100 else limit;
      out := [];
      var i := |entries|;
      hide Unscanned, Newest, Matching, Reversed, IsPage;
      while 0 < i && |out| < most
        invariant 0 <= i <= |entries| && |out| <= most
        invariant Unscanned(entries, q, |entries|) == out + Unscanned(entries, q, i)
      {
        ScanStep(entries, q, i);
        i := i - 1;
        var e := entries[i];
        if e.orgId == orgId {
          assert out + ([e] + Unscanned(entries, q, i)) == (out + [e]) + Unscanned(entries, q, i);
          out := out + [e];
        }
      }
      ScanDone(entries, q, limit, i, out);
      PageIsNewest(entries, q, limit);
    }

    method StatsForOrg(orgId: UUID, clock: Time) returns (s: OrgStats)
      ensures s.total == |Where(entries, (e: Entry) => e.orgId == orgId)|
      ensures s.last24h == |Where(entries, (e: Entry) => e.orgId == orgId && clock - DAY < e.startedAt)|
      ensures s.total == |Matching(entries, Org(orgId))|
      ensures s.last24h == CountAfter(Matching(entries, Org(orgId)), clock - DAY)
    {
      var q := Org(orgId);
      var cutoff := clock - DAY;
      hide Where, CountAfter;
      s := OrgStats(0, 0);
      NoneMatch(q, cutoff);
      for i := 0 to |entries|
        invariant s.total == |Matching(entries[..i], q)|
        invariant s.last24h == CountAfter(Matching(entries[..i], q), cutoff)
      {
        var e := entries[i];
        MatchingStep(entries[..i + 1], q);
        assert entries[..i + 1][..i] == entries[..i];
        if e.orgId != orgId {
          continue;
        }
        CountAfterSnoc(Matching(entries[..i], q), e, cutoff);
        s := s.(total := s.total + 1);
        if cutoff < e.startedAt {
          s := s.(last24h := s.last24h + 1);
        }
      }
      OrgCounts(entries, orgId, cutoff);
      assert entries[..|entries|] == entries;
    }

    method Stats(orgId: UUID, namespace: string, name: string, clock: Time) returns (s: SkillStats)
      ensures s == StatsOf(entries, Skill(orgId, namespace, name), clock)
      ensures var mine := (e: Entry) => e.orgId == orgId && e.namespace == namespace && e.name == name;
        AreStats(s, entries, mine, clock)
    {
      var q := Skill(orgId, namespace, name);
      var cutoff := clock - DAY;
      s := SkillStats(0, 0, None, "");
      hide StatsOf, AreStats;
      NoStats(q, clock);
      for i := 0 to |entries|
        invariant s == StatsOf(entries[..i], q, clock)
      {
        var e := entries[i];
        StatsStep(entries, i, q, clock);
        if e.orgId != orgId || e.namespace != namespace || e.name != name {
          continue;
        }
        s := s.(total := s.total + 1);
        if cutoff < e.startedAt {
          s := s.(last24h := s.last24h + 1);
        }
        if s.lastInvokedAt == None || s.lastInvokedAt.value < e.startedAt {
          s := s.(lastInvokedAt := Some(e.startedAt), lastCallerIp := e.callerIp);
        }
      }
      assert entries[..|entries|] == entries;
      var mine := (e: Entry) => e.orgId == orgId && e.namespace == namespace && e.name == name;
      StatsAreOfEntries(entries, q, mine, clock);
    }
  }

  // ---------- one more entry ----------

  lemma MatchingStep(entries: seq<Entry>, q: Query)
    requires entries != []
    ensures var front, e := entries[..|entries| - 1], entries[|entries| - 1];
      && Matching(entries, q) == (if q.Matches(e) then Matching(front, q) + [e] else Matching(front, q))
      && Reversed(Matching(entries, q)) ==
         (if q.Matches(e) then [e] + Reversed(Matching(front, q)) else Reversed(Matching(front, q)))
  {
    var front, e := entries[..|entries| - 1], entries[|entries| - 1];
    if q.Matches(e) {
      assert (Matching(front, q) + [e])[..|Matching(front, q)|] == Matching(front, q);
    } else {
      assert Matching(front, q) + [] == Matching(front, q);
    }
  }

  lemma ScanStep(entries: seq<Entry>, q: Query, i: nat)
    requires 0 < i <= |entries|
    ensures Unscanned(entries, q, i) ==
            (if q.Matches(entries[i - 1]) then [entries[i - 1]] else []) + Unscanned(entries, q, i - 1)
    ensures Unscanned(entries, q, 0) == []
  {
    MatchingStep(entries[..i], q);
    assert entries[..i][..i - 1] == entries[..i - 1];
  }

  lemma ScanDone(entries: seq<Entry>, q: Query, limit: int, i: nat, out: seq<Entry>)
    requires i <= |entries| && |out| <= q.Effective(limit)
    requires Unscanned(entries, q, |entries|) == out + Unscanned(entries, q, i)
    requires i == 0 || |out| == q.Effective(limit)
    ensures out == Newest(entries, q, limit)
  {
    assert entries[..|entries|] == entries;
  }

  lemma {:induction false} ReversedAt<T>(s: seq<T>)
    ensures |Reversed(s)| == |s|
    ensures forall k :: 0 <= k < |s| ==> Reversed(s)[k] == s[|s| - 1 - k]
  {
    if s != [] {
      ReversedAt(s[..|s| - 1]);
    }
  }

  lemma PageIsNewest(entries: seq<Entry>, q: Query, limit: int)
    ensures IsPage(Newest(entries, q, limit), Matching(entries, q), q.Effective(limit))
  {
    hide Matching, Reversed;
    ReversedAt(Matching(entries, q));
  }

  // ---------- the matching entries ----------

  /** The picked entries are, in order, those at the positions `at`, which are exactly the positions of entries
      whose fields are the ones asked for. */
  ghost predicate Picks(entries: seq<Entry>, q: Query, picked: seq<Entry>, at: seq<nat>) {
    && |at| == |picked|
    && (forall k :: 0 <= k < |at| ==> at[k] < |entries| && picked[k] == entries[at[k]])
    && (forall j, k :: 0 <= j < k < |at| ==> at[j] < at[k])
    && forall i :: 0 <= i < |entries| ==>
         (i in at <==>
           && entries[i].orgId == q.org
           && (q.Skill? ==> entries[i].namespace == q.namespace && entries[i].name == q.name))
  }

  lemma PicksNoMore(entries: seq<Entry>, q: Query, picked: seq<Entry>, at: seq<nat>, e: Entry)
    requires Picks(entries, q, picked, at) && !q.Matches(e)
    ensures Picks(entries + [e], q, picked, at)
  {
    var n := |entries|;
    assert n !in at;
    assert forall i :: 0 <= i < n ==> (entries + [e])[i] == entries[i];
  }

  lemma PicksOneMore(entries: seq<Entry>, q: Query, picked: seq<Entry>, at: seq<nat>, e: Entry)
    requires Picks(entries, q, picked, at) && q.Matches(e)
    ensures Picks(entries + [e], q, picked + [e], at + [|entries|])
  {
    var n, at' := |entries|, at + [|entries|];
    assert forall i :: 0 <= i < n ==> (entries + [e])[i] == entries[i];
    forall i | 0 <= i < n
      ensures i in at' <==> i in at
    {
    }
    assert n in at' by {
      assert at'[|at|] == n;
    }
  }

  lemma PicksNothing(q: Query)
    ensures Picks([], q, Matching([], q), [])
  {
  }

  lemma {:induction false} MatchingPicks(entries: seq<Entry>, q: Query) returns (at: seq<nat>)
    ensures Picks(entries, q, Matching(entries, q), at)
  {
    hide *;
    if entries == [] {
      at := [];
      PicksNothing(q);
    } else {
      var front, e := entries[..|entries| - 1], entries[|entries| - 1];
      assert entries == front + [e];
      MatchingStep(entries, q);
      at := MatchingPicks(front, q);
      if q.Matches(e) {
        PicksOneMore(front, q, Matching(front, q), at, e);
        at := at + [|front|];
      } else {
        PicksNoMore(front, q, Matching(front, q), at, e);
      }
    }
  }

  /** Where the entries that satisfy p lie. */
  ghost function Where(entries: seq<Entry>, p: Entry -> bool): set<int> {
    set i | 0 <= i < |entries| && p(entries[i])
  }

  lemma NowhereInNone(p: Entry -> bool)
    ensures Where([], p) == {}
  {
  }

  lemma WhereSnoc(entries: seq<Entry>, e: Entry, p: Entry -> bool)
    ensures |Where(entries + [e], p)| == |Where(entries, p)| + if p(e) then 1 else 0
  {
    assert Where(entries + [e], p) == Where(entries, p) + if p(e) then {|entries|} else {};
  }

  /** How many entries the query matches, in all and after a cutoff, counted where they lie. */
  lemma {:induction false} MatchingSizes(entries: seq<Entry>, q: Query, mine: Entry -> bool, cutoff: Time)
    requires forall e :: mine(e) <==> q.Matches(e)
    ensures |Matching(entries, q)| == |Where(entries, mine)|
    ensures CountAfter(Matching(entries, q), cutoff) ==
            |Where(entries, (e: Entry) => mine(e) && cutoff < e.startedAt)|
  {
    hide Matching, CountAfter, Where;
    var late := (e: Entry) => mine(e) && cutoff < e.startedAt;
    NoneMatch(q, cutoff);
    if entries == [] {
      NowhereInNone(mine);
      NowhereInNone(late);
    } else {
      var front, e := entries[..|entries| - 1], entries[|entries| - 1];
      assert entries == front + [e];
      MatchingSizes(front, q, mine, cutoff);
      MatchingStep(entries, q);
      CountAfterSnoc(Matching(front, q), e, cutoff);
      WhereSnoc(front, e, mine);
      WhereSnoc(front, e, late);
    }
  }

  lemma NoneMatch(q: Query, cutoff: Time)
    ensures Matching([], q) == [] && CountAfter([], cutoff) == 0
  {
  }

  lemma OrgCounts(entries: seq<Entry>, orgId: UUID, cutoff: Time)
    ensures |Matching(entries, Org(orgId))| == |Where(entries, (e: Entry) => e.orgId == orgId)|
    ensures CountAfter(Matching(entries, Org(orgId)), cutoff) ==
            |Where(entries, (e: Entry) => e.orgId == orgId && cutoff < e.startedAt)|
  {
    hide Matching, CountAfter;
    var mine := (e: Entry) => e.orgId == orgId;
    MatchingSizes(entries, Org(orgId), mine, cutoff);
    assert Where(entries, (e: Entry) => mine(e) && cutoff < e.startedAt) ==
           Where(entries, (e: Entry) => e.orgId == orgId && cutoff < e.startedAt);
    assert Where(entries, mine) == Where(entries, (e: Entry) => e.orgId == orgId);
  }

  /** Of the entries that satisfy p, entry i is the first that none of them started after. */
  ghost predicate IsFirstLatest(entries: seq<Entry>, p: Entry -> bool, i: int) {
    && 0 <= i < |entries| && p(entries[i])
    && forall j :: 0 <= j < |entries| && p(entries[j]) ==>
         entries[j].startedAt <= entries[i].startedAt && (j < i ==> entries[j].startedAt < entries[i].startedAt)
  }

  lemma LatestIsThere(entries: seq<Entry>, q: Query, mine: Entry -> bool) returns (i: nat)
    requires forall e :: mine(e) <==> q.Matches(e)
    requires Matching(entries, q) != []
    ensures i < |entries| && IsFirstLatest(entries, mine, i)
    ensures entries[i] == Matching(entries, q)[FirstLatest(Matching(entries, q))]
  {
    hide Matching, FirstLatest;
    var at := MatchingPicks(entries, q);
    i := at[FirstLatest(Matching(entries, q))];
    forall j | 0 <= j < |entries| && mine(entries[j])
      ensures entries[j].startedAt <= entries[i].startedAt && (j < i ==> entries[j].startedAt < entries[i].startedAt)
    {
      assert j in at;
      var k :| 0 <= k < |at| && at[k] == j;
      assert Matching(entries, q)[k] == entries[j];
    }
  }

  /** A skill's statistics, in terms of the entries themselves. */
  ghost predicate AreStats(s: SkillStats, entries: seq<Entry>, mine: Entry -> bool, clock: Time) {
    && s.total == |Where(entries, mine)|
    && s.last24h == |Where(entries, (e: Entry) => mine(e) && clock - DAY < e.startedAt)|
    && if s.total == 0 then s.lastInvokedAt == None && s.lastCallerIp == ""
       else exists i :: IsFirstLatest(entries, mine, i)
              && s.lastInvokedAt == Some(entries[i].startedAt) && s.lastCallerIp == entries[i].callerIp
  }

  lemma StatsAreOfEntries(entries: seq<Entry>, q: Query, mine: Entry -> bool, clock: Time)
    requires forall e :: mine(e) <==> q.Matches(e)
    ensures AreStats(StatsOf(entries, q, clock), entries, mine, clock)
  {
    hide Matching, FirstLatest, CountAfter, IsFirstLatest, Where;
    MatchingSizes(entries, q, mine, clock - DAY);
    NoneMatch(q, clock - DAY);
    if Matching(entries, q) != [] {
      var i := LatestIsThere(entries, q, mine);
      assert IsFirstLatest(entries, mine, i);
    }
  }

  lemma CountAfterSnoc(entries: seq<Entry>, e: Entry, cutoff: Time)
    ensures CountAfter(entries + [e], cutoff) == CountAfter(entries, cutoff) + if cutoff < e.startedAt then 1 else 0
  {
    assert (entries + [e])[..|entries|] == entries;
  }

  lemma LatestSnoc(entries: seq<Entry>, e: Entry)
    ensures entries == [] ==> FirstLatest(entries + [e]) == 0
    ensures entries != [] ==>
              FirstLatest(entries + [e]) ==
              if entries[FirstLatest(entries)].startedAt < e.startedAt then |entries| else FirstLatest(entries)
  {
    assert (entries + [e])[..|entries|] == entries;
  }

  lemma NoStats(q: Query, clock: Time)
    ensures StatsOf([], q, clock) == SkillStats(0, 0, None, "")
  {
  }

  /** How one more matching entry changes a summary. */
  function Counted(before: SkillStats, e: Entry, clock: Time): SkillStats {
    var newer := before.lastInvokedAt == None || before.lastInvokedAt.value < e.startedAt;
    SkillStats(before.total + 1,
               before.last24h + (if clock - DAY < e.startedAt then 1 else 0),
               if newer then Some(e.startedAt) else before.lastInvokedAt,
               if newer then e.callerIp else before.lastCallerIp)
  }

  lemma SummarySnoc(mine: seq<Entry>, e: Entry, clock: Time)
    ensures Summary(mine + [e], clock) == Counted(Summary(mine, clock), e, clock)
  {
    hide CountAfter, FirstLatest;
    CountAfterSnoc(mine, e, clock - DAY);
    LatestSnoc(mine, e);
    NoneAfter(clock - DAY);
  }

  lemma NoneAfter(cutoff: Time)
    ensures CountAfter([], cutoff) == 0
  {
  }

  lemma StatsStep(entries: seq<Entry>, i: nat, q: Query, clock: Time)
    requires i < |entries|
    ensures StatsOf(entries[..i + 1], q, clock) ==
            if q.Matches(entries[i]) then Counted(StatsOf(entries[..i], q, clock), entries[i], clock)
            else StatsOf(entries[..i], q, clock)
  {
    hide Summary, Matching, Counted;
    MatchingStep(entries[..i + 1], q);
    assert entries[..i + 1][..i] == entries[..i];
    SummarySnoc(Matching(entries[..i], q), entries[i], clock);
  }
}

/** What the bounded store's answers say about everything that was ever logged, and about each other. */
module InvocationRuns {
  import opened Basics
  import opened Options
  import opened Sequences
  import opened Invocations

  /** The store's entries after logging a history, entry by entry. */
  function EntriesAfter(history: seq<Entry>): seq<Entry> {
    if history == [] then []
    else Tail(EntriesAfter(history[..|history| - 1]) + [history[|history| - 1]], MEMORY_CAP)
  }

  function Evicted(history: seq<Entry>): seq<Entry> {
    if |history| <= MEMORY_CAP then [] else history[..|history| - MEMORY_CAP]
  }

  /** The store holds the last memoryCap entries of everything logged. */
  lemma {:induction false} KeepsTheLast(history: seq<Entry>)
    ensures EntriesAfter(history) == Tail(history, MEMORY_CAP)
    ensures Evicted(history) + EntriesAfter(history) == history
    ensures |EntriesAfter(history)| == if |history| <= 10_000 then |history| else 10_000
  {
    if history != [] {
      KeepsTheLast(history[..|history| - 1]);
    }
  }

  // ---------- matching, reversing, taking ----------

  lemma MatchingSnoc(entries: seq<Entry>, e: Entry, q: Query)
    ensures Matching(entries + [e], q) == if q.Matches(e) then Matching(entries, q) + [e] else Matching(entries, q)
  {
    MatchingStep(entries + [e], q);
    assert (entries + [e])[..|entries|] == entries;
  }

  lemma ReversedSnoc<T>(s: seq<T>, t: T)
    ensures Reversed(s + [t]) == [t] + Reversed(s)
  {
    assert (s + [t])[..|s|] == s;
  }

  lemma {:induction false} MatchingSplit(a: seq<Entry>, b: seq<Entry>, q: Query)
    ensures Matching(a + b, q) == Matching(a, q) + Matching(b, q)
    decreases |b|
  {
    if b == [] {
      assert a + b == a;
    } else {
      hide Matching;
      var front, e := b[..|b| - 1], b[|b| - 1];
      MatchingSplit(a, front, q);
      assert b == front + [e];
      assert a + b == (a + front) + [e];
      MatchingSnoc(front, e, q);
      MatchingSnoc(a + front, e, q);
      Associate(Matching(a, q), Matching(front, q), [e]);
    }
  }

  /** q asks about part of what r asks about. */
  ghost predicate Narrower(q: Query, r: Query) {
    forall e: Entry :: q.Matches(e) ==> r.Matches(e)
  }

  lemma {:induction false} MatchingTwice(entries: seq<Entry>, q: Query, r: Query)
    requires Narrower(q, r)
    ensures Matching(Matching(entries, r), q) == Matching(entries, q)
  {
    if entries != [] {
      var front, e := entries[..|entries| - 1], entries[|entries| - 1];
      MatchingTwice(front, q, r);
      MatchingStep(entries, q);
      MatchingStep(entries, r);
      if r.Matches(e) {
        MatchingStep(Matching(front, r) + [e], q);
        assert (Matching(front, r) + [e])[..|Matching(front, r)|] == Matching(front, r);
      }
    }
  }

  lemma Associate<T>(a: seq<T>, b: seq<T>, c: seq<T>)
    ensures (a + b) + c == a + (b + c)
  {
  }

  lemma ReversedEmpty<T>()
    ensures Reversed<T>([]) == []
  {
  }

  lemma {:induction false} ReversedSplit<T>(a: seq<T>, b: seq<T>)
    ensures Reversed(a + b) == Reversed(b) + Reversed(a)
    decreases |b|
  {
    hide Reversed;
    if b == [] {
      assert a + b == a;
      ReversedEmpty<T>();
      assert [] + Reversed(a) == Reversed(a);
    } else {
      var front, t := b[..|b| - 1], b[|b| - 1];
      ReversedSplit(a, front);
      assert b == front + [t];
      assert a + b == (a + front) + [t];
      ReversedSnoc(front, t);
      ReversedSnoc(a + front, t);
      Associate([t], Reversed(front), Reversed(a));
    }
  }

  lemma MatchingOne(e: Entry, q: Query)
    ensures Matching([e], q) == if q.Matches(e) then [e] else []
  {
    MatchingStep([e], q);
  }

  lemma {:induction false} MatchingReversed(entries: seq<Entry>, q: Query)
    ensures Matching(Reversed(entries), q) == Reversed(Matching(entries, q))
  {
    if entries != [] {
      var front, e := entries[..|entries| - 1], entries[|entries| - 1];
      MatchingReversed(front, q);
      MatchingStep(entries, q);
      MatchingSplit([e], Reversed(front), q);
      MatchingOne(e, q);
    }
  }

  // ---------- the log against its unbounded history ----------

  lemma TakeFirst<T>(a: seq<T>, b: seq<T>, n: nat)
    requires 0 < n
    ensures Take(a + b, n) == Take(a, n) <==> n <= |a| || b == []
  {
    if n <= |a| {
      assert (a + b)[..n] == a[..n];
    } else if b != [] {
      assert |Take(a + b, n)| > |a|;
    }
  }

  /** A bounded scan answers as an unbounded log would, exactly when it finds enough among what is kept
      or nothing that matches was evicted. */
  lemma ScanIsExact(history: seq<Entry>, q: Query, limit: int)
    ensures Newest(EntriesAfter(history), q, limit) == Newest(history, q, limit) <==>
            q.Effective(limit) <= |Matching(EntriesAfter(history), q)| || Matching(Evicted(history), q) == []
  {
    KeepsTheLast(history);
    var kept, gone := Matching(EntriesAfter(history), q), Matching(Evicted(history), q);
    MatchingSplit(Evicted(history), EntriesAfter(history), q);
    ReversedSplit(gone, kept);
    ReversedAt(gone);
    ReversedAt(kept);
    TakeFirst(Reversed(kept), Reversed(gone), q.Effective(limit));
  }

  /** Until more than memoryCap entries have been logged, what an org's queries look at is what it would
      be if no other org had logged anything. Every answer is a function of the matching entries. */
  lemma OrgsAreIsolated(history: seq<Entry>, q: Query)
    requires |history| <= MEMORY_CAP
    ensures var alone := EntriesAfter(Matching(history, Org(q.org)));
      Matching(EntriesAfter(history), q) == Matching(alone, q)
  {
    var mine := Matching(history, Org(q.org));
    KeepsTheLast(history);
    KeepsTheLast(mine);
    MatchingTwice(history, q, Org(q.org));
    MatchingBound(history, Org(q.org));
  }

  lemma {:induction false} MatchingBound(entries: seq<Entry>, q: Query)
    ensures |Matching(entries, q)| <= |entries|
  {
    if entries != [] {
      MatchingBound(entries[..|entries| - 1], q);
      MatchingStep(entries, q);
    }
  }

  // ---------- conservation ----------

  /** The two counts a query reports: all matching entries, or those after a cutoff. */
  function Count(mine: seq<Entry>, after: Option<Time>): nat {
    match after
    case None => |mine|
    case Some(cutoff) => CountAfter(mine, cutoff)
  }

  lemma CountSnoc(mine: seq<Entry>, e: Entry, after: Option<Time>)
    ensures Count(mine + [e], after) == Count(mine, after) + Count([e], after)
  {
    if after.Some? {
      CountAfterSnoc(mine, e, after.value);
      CountAfterSnoc([], e, after.value);
      assert [] + [e] == [e];
    }
  }

  lemma {:induction false} CountSplit(a: seq<Entry>, b: seq<Entry>, after: Option<Time>)
    ensures Count(a + b, after) == Count(a, after) + Count(b, after)
    decreases |b|
  {
    if b == [] {
      assert a + b == a;
    } else {
      var front, e := b[..|b| - 1], b[|b| - 1];
      CountSplit(a, front, after);
      CountSnoc(a + front, e, after);
      CountSnoc(front, e, after);
      assert a + b == (a + front) + [e] && b == front + [e];
    }
  }

  /** One more call changes a query's counts by what the new entry adds and the evicted entry, of which
      there is at most one, takes away. */
  lemma LogConserves(history: seq<Entry>, e: Entry, q: Query, after: Option<Time>)
    ensures var before, now := EntriesAfter(history), EntriesAfter(history + [e]);
      var out := if |before| == MEMORY_CAP then [before[0]] else [];
      && before + [e] == out + now
      && Count(Matching(now, q), after) ==
         Count(Matching(before, q), after) + Count(Matching([e], q), after) - Count(Matching(out, q), after)
  {
    var before, now := EntriesAfter(history), EntriesAfter(history + [e]);
    var out := if |before| == MEMORY_CAP then [before[0]] else [];
    assert (history + [e])[..|history|] == history;
    KeepsTheLast(history);
    assert before + [e] == out + now;
    MatchingSplit(before, [e], q);
    MatchingSplit(out, now, q);
    CountSplit(Matching(before, q), Matching([e], q), after);
    CountSplit(Matching(out, q), Matching(now, q), after);
  }

  /** The statistics of a skill are those two counts. */
  lemma StatsAreCounts(entries: seq<Entry>, q: Query, clock: Time)
    ensures StatsOf(entries, q, clock).total == Count(Matching(entries, q), None)
    ensures StatsOf(entries, q, clock).last24h == Count(Matching(entries, q), Some(clock - DAY))
  {
  }

  type SkillName = (string, string)

  ghost predicate Distinct(skills: seq<SkillName>) {
    forall i, j :: 0 <= i < j < |skills| ==> skills[i] != skills[j]
  }

  /** Every entry of the org belongs to one of the skills. */
  ghost predicate Covers(skills: seq<SkillName>, entries: seq<Entry>, org: UUID) {
    forall i :: 0 <= i < |entries| && entries[i].orgId == org ==> (entries[i].namespace, entries[i].name) in skills
  }

  function SumOverSkills(entries: seq<Entry>, org: UUID, skills: seq<SkillName>, after: Option<Time>): nat {
    if skills == [] then 0
    else
      Count(Matching(entries, Skill(org, skills[0].0, skills[0].1)), after) +
      SumOverSkills(entries, org, skills[1..], after)
  }

  /** An entry of the org adds to exactly one of the distinct skills' counts. */
  lemma {:induction false} OneSkillCounts(entries: seq<Entry>, e: Entry, org: UUID, skills: seq<SkillName>,
      after: Option<Time>)
    requires Distinct(skills)
    ensures SumOverSkills(entries + [e], org, skills, after) ==
            SumOverSkills(entries, org, skills, after) +
            if e.orgId == org && (e.namespace, e.name) in skills then Count([e], after) else 0
  {
    if skills != [] {
      hide Count, Matching;
      var q := Skill(org, skills[0].0, skills[0].1);
      OneSkillCounts(entries, e, org, skills[1..], after);
      MatchingStep(entries + [e], q);
      assert (entries + [e])[..|entries|] == entries;
      CountSnoc(Matching(entries, q), e, after);
      if q.Matches(e) {
        assert skills[0] == (e.namespace, e.name);
        assert (e.namespace, e.name) !in skills[1..];
      }
    }
  }

  lemma {:induction false} NothingToSum(org: UUID, skills: seq<SkillName>, after: Option<Time>)
    ensures SumOverSkills([], org, skills, after) == 0
  {
    if skills != [] {
      NothingToSum(org, skills[1..], after);
    }
  }

  /** An org's total and 24-hour counts are the sums of its skills' counts. */
  lemma {:induction false} OrgIsSumOfSkills(entries: seq<Entry>, org: UUID, skills: seq<SkillName>, after: Option<Time>)
    requires Distinct(skills) && Covers(skills, entries, org)
    ensures Count(Matching(entries, Org(org)), after) == SumOverSkills(entries, org, skills, after)
  {
    if entries == [] {
      NothingToSum(org, skills, after);
    } else {
      hide Count, Matching;
      var front, e := entries[..|entries| - 1], entries[|entries| - 1];
      assert entries == front + [e];
      OrgIsSumOfSkills(front, org, skills, after);
      OneSkillCounts(front, e, org, skills, after);
      MatchingStep(entries, Org(org));
      CountSnoc(Matching(front, Org(org)), e, after);
    }
  }

  // ---------- the queries agree with each other ----------

  lemma TakeMatching(s: seq<Entry>, q: Query, n: nat)
    ensures Matching(Take(s, n), q) <= Matching(s, q) && |Matching(Take(s, n), q)| <= n
  {
    MatchingBound(Take(s, n), q);
    if n < |s| {
      assert s == s[..n] + s[n..];
      MatchingSplit(s[..n], s[n..], q);
    }
  }

  /** The org's page, restricted to one skill, is where that skill's own page starts. */
  lemma OrgPageExtendsToSkillPage(entries: seq<Entry>, q: Query, limit: int)
    requires q.Skill? && 0 < limit
    ensures Matching(Newest(entries, Org(q.org), limit), q) <= Newest(entries, q, limit)
  {
    var all := Matching(entries, Org(q.org));
    TakeMatching(Reversed(all), q, limit);
    MatchingReversed(all, q);
    MatchingTwice(entries, q, Org(q.org));
  }

  /** Entries that were logged in the order they started. */
  ghost predicate InOrder(entries: seq<Entry>) {
    forall i, j :: 0 <= i < j < |entries| ==> entries[i].startedAt <= entries[j].startedAt
  }

  ghost predicate StartedBy(entries: seq<Entry>, t: Time) {
    forall i :: 0 <= i < |entries| ==> entries[i].startedAt <= t
  }

  lemma {:induction false} MatchingInOrder(entries: seq<Entry>, q: Query, t: Time)
    requires InOrder(entries) && StartedBy(entries, t)
    ensures InOrder(Matching(entries, q)) && StartedBy(Matching(entries, q), t)
  {
    if entries != [] {
      var front, e := entries[..|entries| - 1], entries[|entries| - 1];
      MatchingInOrder(front, q, e.startedAt);
      MatchingStep(entries, q);
    }
  }

  /** Among entries in order the newest one's caller is the reported last caller exactly when no other
      entry started at the same instant: a scan from the back takes the last of the tied entries, the
      one-pass count the first. */
  lemma TiesResolveOppositely(mine: seq<Entry>)
    requires InOrder(mine) && mine != []
    ensures mine[FirstLatest(mine)].startedAt == mine[|mine| - 1].startedAt
    ensures FirstLatest(mine) == |mine| - 1 <==> !Tied(mine)
  {
    hide FirstLatest;
    assert mine[FirstLatest(mine)].startedAt <= mine[|mine| - 1].startedAt;
  }

  /** If everything was logged in order, a skill's page is newest first by start time, its head started
      when the statistics say the skill was last invoked, and the caller agrees too, on a page of any length,
      unless the newest entry tied with the one before it; on a tie the statistics name the first of the
      tied entries. */
  lemma PageAgreesWithStats(history: seq<Entry>, q: Query, limit: int, clock: Time)
    requires InOrder(history)
    ensures var page, stats := Newest(EntriesAfter(history), q, limit), StatsOf(EntriesAfter(history), q, clock);
      var mine := Matching(EntriesAfter(history), q);
      && (forall i, j :: 0 <= i < j < |page| ==> page[j].startedAt <= page[i].startedAt)
      && (page == [] <==> mine == []) && (mine == [] <==> stats.lastInvokedAt == None)
      && (page != [] ==> stats.lastInvokedAt == Some(page[0].startedAt))
      && (mine != [] && !Tied(mine) ==> stats.lastCallerIp == page[0].callerIp)
      && (mine != [] && Tied(mine) ==>
            exists i :: StartsTie(mine, i) && stats.lastCallerIp == mine[i].callerIp)
  {
    hide Matching, FirstLatest, Reversed, EntriesAfter, CountAfter;
    var entries := EntriesAfter(history);
    KeepsTheLast(history);
    if history != [] {
      TailInOrder(history, MEMORY_CAP);
      MatchingInOrder(entries, q, history[|history| - 1].startedAt);
    } else {
      MatchingBound(entries, q);
    }
    var mine := Matching(entries, q);
    PageOfMine(mine, q.Effective(limit));
  }

  /** The newest two of the entries started at the same instant. */
  ghost predicate Tied(mine: seq<Entry>) {
    2 <= |mine| && mine[|mine| - 2].startedAt == mine[|mine| - 1].startedAt
  }

  /** Entry i is the first that started at the same instant as the newest, which is another one. */
  ghost predicate StartsTie(mine: seq<Entry>, i: int) {
    && 0 <= i < |mine| - 1 && mine[i].startedAt == mine[|mine| - 1].startedAt
    && (i == 0 || mine[i - 1].startedAt < mine[i].startedAt)
  }

  lemma TailInOrder(entries: seq<Entry>, cap: nat)
    requires InOrder(entries) && entries != []
    ensures InOrder(Tail(entries, cap)) && StartedBy(Tail(entries, cap), entries[|entries| - 1].startedAt)
  {
  }

  lemma PageOfMine(mine: seq<Entry>, n: nat)
    requires InOrder(mine) && 0 < n
    ensures var page := Take(Reversed(mine), n);
      && (forall i, j :: 0 <= i < j < |page| ==> page[j].startedAt <= page[i].startedAt)
      && (page == [] <==> mine == [])
      && (mine != [] ==> page[0] == mine[|mine| - 1] && page[0].startedAt == mine[FirstLatest(mine)].startedAt)
      && (mine != [] && !Tied(mine) ==> FirstLatest(mine) == |mine| - 1)
      && (mine != [] && Tied(mine) ==> StartsTie(mine, FirstLatest(mine)))
  {
    hide FirstLatest;
    ReversedAt(mine);
    if mine != [] {
      TiesResolveOppositely(mine);
    }
  }
}

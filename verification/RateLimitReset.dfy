/** The three numbers a caller is told (remaining, reset, Retry-After) mean exactly what they
    say, and the sweeper bounds the table by the recent traffic. */
module RateLimitReset {
  import opened Basics
  import opened RateLimit
  import opened RateLimitRuns
  import opened RateLimitHistory

  // ---------- reset ----------

  lemma {:induction false} SinceTwice(times: seq<Time>, since: Time, later: Time)
    requires since <= later
    ensures Since(Since(times, since), later) == Since(times, later)
  {
    if times != [] {
      SinceTwice(times[1..], since, later);
      if since <= times[0] {
        assert ([times[0]] + Since(times[1..], since))[1..] == Since(times[1..], since);
      }
    }
  }

  lemma {:induction false} SinceOrder(times: seq<Time>, since: Time)
    requires SkewWithin(times, 0)
    ensures forall i :: 0 <= i < |Since(times, since)| ==> Since(times, since)[0] <= Since(times, since)[i]
    ensures forall i :: 0 <= i < |Since(times, since)| && times != [] ==> times[0] <= Since(times, since)[i]
  {
    if times != [] {
      SinceOrder(times[1..], since);
      if 1 < |times| {
        assert times[0] <= times[1];
      }
    }
  }

  /** Until the oldest live hit expires the live hits stay the same; just after, one fewer is live. */
  lemma LiveUntilReset(history: seq<Time>, since: Time, later: Time)
    requires SkewWithin(history, 0) && since <= later && Since(history, since) != []
    ensures later <= Since(history, since)[0] ==> Since(history, later) == Since(history, since)
    ensures Since(history, since)[0] < later ==> |Since(history, later)| < |Since(history, since)|
  {
    var live := Since(history, since);
    SinceTwice(history, since, later);
    SinceOrder(history, since);
    if later <= live[0] {
      SinceAll(live, later);
    } else {
      SinceBound(live[1..], later);
    }
  }

  lemma {:induction false} SinceCount(times: seq<Time>, lo: Time, hi: Time)
    requires UpTo(times, hi)
    ensures CountIn(times, lo, hi) == |Since(times, lo)|
  {
    if times != [] {
      var front, t := times[..|times| - 1], times[|times| - 1];
      assert times == front + [t];
      SinceCount(front, lo, hi);
      SinceSplit(front, [t], lo);
    }
  }

  /** A request never finds more than `limit` live hits. */
  lemma LiveBound(es: seq<Event>, limit: Limit, key: string, i: nat)
    requires i < |es| && Monotone(es)
    ensures |Since(Admitted(es, limit, key, i), es[i].now - WINDOW)| <= limit
    ensures SkewWithin(Admitted(es, limit, key, i), 0)
  {
    hide WindowAt, Admitted, Since, CountIn, SkewWithin, Lag;
    var t := es[i].now;
    EarlierWithin(es, i, 0);
    TimesFollowEvents(es, limit, key, i, 0, t);
    SafetyUnderSkew(es, limit, key, i, 0, t - WINDOW);
    SinceCount(Admitted(es, limit, key, i), t - WINDOW, t);
    NoLag(es);
  }

  lemma NoLag(es: seq<Event>)
    ensures Lag(es, 0) == 0
  {
  }

  /** What a rejected key's next request is told, if nothing was admitted in between. */
  lemma AfterRejection(history: seq<Time>, limit: Limit, now: Time, later: Time)
    requires SkewWithin(history, 0) && now <= later
    requires |Since(history, now - WINDOW)| <= limit
    requires !IdealAnswer(history, limit, now).allowed
    ensures IdealAnswer(history, limit, later).allowed <==> IdealAnswer(history, limit, now).resetAt < later
    ensures !IdealAnswer(history, limit, later).allowed ==>
              IdealAnswer(history, limit, later) == IdealAnswer(history, limit, now)
  {
    LiveUntilReset(history, now - WINDOW, later - WINDOW);
  }

  /** No request of the key between events i and j is later than `reset`. */
  ghost predicate QuietUntil(es: seq<Event>, key: string, i: nat, j: nat, reset: Time)
    requires j <= |es|
  {
    forall k :: i < k < j && IsRequest(es, key, k) ==> es[k].now <= reset
  }

  lemma {:induction false} NothingAdmitted(es: seq<Event>, limit: Limit, i: nat, j: nat)
    requires i < j <= |es| && Monotone(es) && es[i].Allow?
    requires !AnswerAt(es, limit, i).allowed
    requires QuietUntil(es, es[i].key, i, j, AnswerAt(es, limit, i).resetAt)
    ensures Admitted(es, limit, es[i].key, j) == Admitted(es, limit, es[i].key, i)
    decreases j
  {
    hide AnswerAt, Admitted, IdealAnswer;
    var key := es[i].key;
    AdmittedByAnswer(es, limit, key, j - 1);
    if j - 1 != i {
      NothingAdmitted(es, limit, i, j - 1);
      if IsRequest(es, key, j - 1) {
        ResetAt(es, limit, i, j - 1);
      }
    }
  }

  lemma ResetAt(es: seq<Event>, limit: Limit, i: nat, j: nat)
    requires i < j < |es| && Monotone(es) && es[i].Allow? && es[j].Allow? && es[i].key == es[j].key
    requires !AnswerAt(es, limit, i).allowed
    requires Admitted(es, limit, es[i].key, j) == Admitted(es, limit, es[i].key, i)
    ensures AnswerAt(es, limit, j).allowed <==> AnswerAt(es, limit, i).resetAt < es[j].now
    ensures !AnswerAt(es, limit, j).allowed ==> AnswerAt(es, limit, j) == AnswerAt(es, limit, i)
  {
    hide AnswerAt, Admitted, IdealAnswer, Since, SkewWithin;
    AnswerIsIdeal(es, limit, i);
    AnswerIsIdeal(es, limit, j);
    LiveBound(es, limit, es[i].key, i);
    AfterRejection(Admitted(es, limit, es[i].key, i), limit, es[i].now, es[j].now);
  }

  /** After a rejection with reset r, the key's requests up to and including r are rejected with that
      same r, and the first one strictly after r is admitted, whatever other events intervene. */
  lemma ResetIsExact(es: seq<Event>, limit: Limit, i: nat, j: nat)
    requires i < j < |es| && Monotone(es) && es[i].Allow? && es[j].Allow? && es[i].key == es[j].key
    requires !AnswerAt(es, limit, i).allowed
    requires QuietUntil(es, es[i].key, i, j, AnswerAt(es, limit, i).resetAt)
    ensures AnswerAt(es, limit, j).allowed <==> AnswerAt(es, limit, i).resetAt < es[j].now
    ensures !AnswerAt(es, limit, j).allowed ==> AnswerAt(es, limit, j) == AnswerAt(es, limit, i)
  {
    hide AnswerAt, Admitted;
    NothingAdmitted(es, limit, i, j);
    ResetAt(es, limit, i, j);
  }

  // ---------- Retry-After ----------

  /** Waiting that long always lands strictly after the reset; when the reset is still to come, at most one
      second after it, and otherwise less than two. */
  lemma RetryAfterLands(reset: Time, clock: Time)
    ensures reset < clock + RetryAfter(reset, clock) * SECOND
    ensures clock <= reset ==> clock + RetryAfter(reset, clock) * SECOND <= reset + SECOND
    ensures reset < clock ==> clock + RetryAfter(reset, clock) * SECOND < reset + 2 * SECOND
  {
    Euclid(reset - clock);
    Euclid(clock - reset);
  }

  /** A client that waits as told, and whose key is otherwise quiet past the reset, is admitted. */
  lemma RetryIsAdmitted(es: seq<Event>, limit: Limit, i: nat, j: nat, clock: Time)
    requires i < j < |es| && Monotone(es) && es[i].Allow? && es[j].Allow? && es[i].key == es[j].key
    requires !AnswerAt(es, limit, i).allowed
    requires QuietUntil(es, es[i].key, i, j, AnswerAt(es, limit, i).resetAt)
    requires clock + RetryAfter(AnswerAt(es, limit, i).resetAt, clock) * SECOND <= es[j].now
    ensures AnswerAt(es, limit, j).allowed
  {
    hide AnswerAt;
    RetryAfterLands(AnswerAt(es, limit, i).resetAt, clock);
    ResetIsExact(es, limit, i, j);
  }

  /** The reset header counts whole seconds, rounded down: a client that comes back at that very second is
      always rejected. */
  lemma ResetHeaderIsTooEarly(es: seq<Event>, limit: Limit, i: nat, j: nat)
    requires i < j < |es| && Monotone(es) && es[i].Allow? && es[j].Allow? && es[i].key == es[j].key
    requires !AnswerAt(es, limit, i).allowed
    requires es[j].now == UNIX_EPOCH + UnixSeconds(AnswerAt(es, limit, i).resetAt) * SECOND
    ensures AnswerAt(es, limit, j) == AnswerAt(es, limit, i)
  {
    hide AnswerAt;
    var reset := AnswerAt(es, limit, i).resetAt;
    Euclid(reset - UNIX_EPOCH);
    assert QuietUntil(es, es[i].key, i, j, reset);
    ResetIsExact(es, limit, i, j);
  }

  // ---------- remaining ----------

  ghost predicate Held(win: seq<Time>, first: Time, last: Time, size: int) {
    |win| == size && 0 < size && win[0] == first && win[size - 1] == last
  }

  lemma TrimNothing(win: seq<Time>, cutoff: Time)
    requires win != [] && cutoff <= win[0]
    ensures Trim(win, cutoff) == win
  {
  }

  /** What one event does to a window whose hits are all live at `now`: only a request of the key, at
      that same instant, changes it, and only while there is room. */
  lemma HeldStep(win: seq<Time>, first: Time, now: Time, size: int, limit: Limit, key: string, e: Event)
    requires Held(win, first, now, size) && now - WINDOW <= first
    requires e.Allow? && e.key == key ==> e.now == now
    requires e.Sweep? ==> e.now <= now + WINDOW
    ensures Held(NextWindow(win, limit, key, e), first, now,
                 if e.Allow? && e.key == key && size < limit then size + 1 else size)
  {
    if e.Allow? && e.key == key {
      TrimNothing(win, now - WINDOW);
    }
  }

  /** How many of the events from i up to (not including) j are requests of the key. */
  function RequestsBetween(es: seq<Event>, key: string, i: nat, j: nat): nat
    requires i <= j <= |es|
  {
    if i == j then 0 else RequestsBetween(es, key, i, j - 1) + if IsRequest(es, key, j - 1) then 1 else 0
  }

  /** Between i and j the key asks only at `now`, and no sweep is more than a window later. */
  ghost predicate SameInstant(es: seq<Event>, key: string, i: nat, j: nat, now: Time)
    requires j <= |es|
  {
    forall k :: i <= k < j ==>
      (IsRequest(es, key, k) ==> es[k].now == now) && (es[k].Sweep? ==> es[k].now <= now + WINDOW)
  }

  function Min(a: int, b: int): int {
    if a < b then a else b
  }

  lemma {:induction false} HeldUntil(es: seq<Event>, limit: Limit, key: string, i: nat, j: nat, first: Time,
      now: Time, size: int)
    requires i <= j <= |es| && SameInstant(es, key, i, j, now)
    requires Held(WindowAt(es, limit, key, i), first, now, size) && now - WINDOW <= first && size <= limit
    ensures Held(WindowAt(es, limit, key, j), first, now, Min(limit, size + RequestsBetween(es, key, i, j)))
    decreases j
  {
    if i != j {
      hide WindowAt, Admitted, NextWindow, Held;
      HeldUntil(es, limit, key, i, j - 1, first, now, size);
      KeyStep(es, limit, key, j - 1);
      HeldStep(WindowAt(es, limit, key, j - 1), first, now, Min(limit, size + RequestsBetween(es, key, i, j - 1)),
               limit, key, es[j - 1]);
    }
  }

  lemma JustAdmitted(win: seq<Time>, limit: Limit, key: string, now: Time)
    requires HasRoom(win, limit, now)
    ensures var answer := Decide(Trim(win, now - WINDOW), limit, now).1;
      && Held(NextWindow(win, limit, key, Allow(key, now)), answer.resetAt - WINDOW, now, limit - answer.remaining)
      && now <= answer.resetAt && 0 <= answer.remaining < limit
  {
  }

  lemma HeldDecision(win: seq<Time>, limit: Limit, first: Time, now: Time, size: int)
    requires Held(win, first, now, size) && now - WINDOW <= first
    ensures Decide(Trim(win, now - WINDOW), limit, now).1 ==
            if size < limit then Answer(true, limit - size - 1, first + WINDOW) else Answer(false, 0, first + WINDOW)
  {
    TrimNothing(win, now - WINDOW);
  }

  /** An admission that reports `remaining` left is followed, at that same instant, by exactly that many
      more admissions of the key, counted down to 0, and by rejections from then on. This holds in
      every run, ordered or not. */
  lemma RemainingIsExact(es: seq<Event>, limit: Limit, i: nat, j: nat)
    requires i < j < |es| && es[i].Allow? && IsRequest(es, es[i].key, j) && es[j].now == es[i].now
    requires AnswerAt(es, limit, i).allowed && SameInstant(es, es[i].key, i + 1, j, es[i].now)
    ensures var told := AnswerAt(es, limit, i);
      var since := RequestsBetween(es, es[i].key, i + 1, j);
      AnswerAt(es, limit, j) ==
      if since < told.remaining then Answer(true, told.remaining - 1 - since, told.resetAt)
      else Answer(false, 0, told.resetAt)
  {
    hide WindowAt, Admitted, AnswerAt, NextWindow, Trim, Held;
    var key, now, told := es[i].key, es[i].now, AnswerAt(es, limit, i);
    AnswerFromWindow(es, limit, i);
    KeyStep(es, limit, key, i);
    JustAdmitted(WindowAt(es, limit, key, i), limit, key, now);
    assert es[i] == Allow(key, now);
    var size, since := limit - told.remaining, RequestsBetween(es, key, i + 1, j);
    HeldUntil(es, limit, key, i + 1, j, told.resetAt - WINDOW, now, size);
    AnswerFromWindow(es, limit, j);
    HeldDecision(WindowAt(es, limit, key, j), limit, told.resetAt - WINDOW, now, Min(limit, size + since));
  }

  // ---------- memory ----------

  /** How many requests, of all keys, were admitted at or after `since`. */
  function RecentAdmissions(es: seq<Event>, limit: Limit, n: nat, since: Time): nat
    requires n <= |es|
  {
    if n == 0 then 0
    else
      RecentAdmissions(es, limit, n - 1, since) +
      if es[n - 1].Allow? && AnswerAt(es, limit, n - 1).allowed && since <= es[n - 1].now then 1 else 0
  }

  function RecentKeys(es: seq<Event>, limit: Limit, n: nat, since: Time): set<string>
    requires n <= |es|
  {
    if n == 0 then {}
    else
      RecentKeys(es, limit, n - 1, since) +
      if es[n - 1].Allow? && AnswerAt(es, limit, n - 1).allowed && since <= es[n - 1].now then {es[n - 1].key} else {}
  }

  lemma {:induction false} RecentKeysBound(es: seq<Event>, limit: Limit, n: nat, since: Time)
    requires n <= |es|
    ensures |RecentKeys(es, limit, n, since)| <= RecentAdmissions(es, limit, n, since)
  {
    if n != 0 {
      hide AnswerAt;
      RecentKeysBound(es, limit, n - 1, since);
      var before := RecentKeys(es, limit, n - 1, since);
      if es[n - 1].Allow? {
        assert |before + {es[n - 1].key}| <= |before| + 1;
      }
    }
  }

  lemma {:induction false} RecentKeyIsListed(es: seq<Event>, limit: Limit, key: string, n: nat, since: Time)
    requires n <= |es| && Since(Admitted(es, limit, key, n), since) != []
    ensures key in RecentKeys(es, limit, n, since)
  {
    hide AnswerAt, Admitted;
    if n == 0 {
      StartsEmpty(es, limit, key, 0, 0);
    } else {
      var history := Admitted(es, limit, key, n - 1);
      AdmittedByAnswer(es, limit, key, n - 1);
      SinceSplit(history, [es[n - 1].now], since);
      assert history + [] == history;
      if Since(history, since) != [] {
        RecentKeyIsListed(es, limit, key, n - 1, since);
      }
    }
  }

  lemma {:induction false} WindowBound(es: seq<Event>, limit: Limit, key: string, n: nat)
    requires n <= |es|
    ensures |WindowAt(es, limit, key, n)| <= limit
  {
    if n != 0 {
      WindowBound(es, limit, key, n - 1);
    }
  }

  lemma LastIsLive(win: seq<Time>, since: Time)
    requires !Stale(win, since)
    ensures Since(win, since) != []
  {
    var front, t := win[..|win| - 1], win[|win| - 1];
    assert win == front + [t];
    SinceSplit(front, [t], since);
  }

  /** The state a sweep leaves behind: exactly the keys with a hit inside the window, each with a
      non-empty, sorted window of at most `limit` hits. */
  lemma AfterSweep(es: seq<Event>, limit: Limit, n: nat, key: string)
    requires n < |es| && Monotone(es) && es[n].Sweep?
    ensures var table := StateAt(es, limit, n + 1);
      && (key in table <==> Since(Admitted(es, limit, key, n + 1), es[n].now - WINDOW) != [])
      && (key in table ==> table[key] != [] && |table[key]| <= limit && SkewWithin(table[key], 0))
  {
    hide WindowAt, Admitted, Since, SkewWithin;
    var table, c := StateAt(es, limit, n + 1), es[n].now - WINDOW;
    TableHoldsWindows(es, limit, key, n + 1);
    EventsUpToSelf(es, n);
    Retained(es, limit, key, n + 1, 0, es[n].now);
    TimesFollowEvents(es, limit, key, n + 1, 0, es[n].now);
    WindowBound(es, limit, key, n + 1);
    NoLag(es);
    assert Since(WindowAt(es, limit, key, n + 1), c) == Since(Admitted(es, limit, key, n + 1), c);
    if key in table {
      LastIsLive(table[key], c);
    } else {
      SinceBound([], c);
    }
  }

  lemma EventsUpToSelf(es: seq<Event>, n: nat)
    requires n < |es| && Monotone(es)
    ensures EventsUpTo(es, n + 1, es[n].now) && EventsUpTo(es, n + 1, es[n].now + 0)
  {
  }

  lemma SubsetSize(a: set<string>, b: set<string>)
    requires a <= b
    ensures |a| <= |b|
  {
    if a != {} {
      var k :| k in a;
      SubsetSize(a - {k}, b - {k});
    }
  }

  /** After a sweep the table has no more keys than there were admissions in the last 60 seconds. */
  lemma MemoryIsBounded(es: seq<Event>, limit: Limit, n: nat)
    requires n < |es| && Monotone(es) && es[n].Sweep?
    ensures |StateAt(es, limit, n + 1)| <= RecentAdmissions(es, limit, n + 1, es[n].now - WINDOW)
  {
    hide *;
    var table, c := StateAt(es, limit, n + 1), es[n].now - WINDOW;
    forall key | key in table.Keys
      ensures key in RecentKeys(es, limit, n + 1, c)
    {
      AfterSweep(es, limit, n, key);
      RecentKeyIsListed(es, limit, key, n + 1, c);
    }
    SubsetSize(table.Keys, RecentKeys(es, limit, n + 1, c));
    RecentKeysBound(es, limit, n + 1, c);
    assert |table| == |table.Keys|;
  }
}

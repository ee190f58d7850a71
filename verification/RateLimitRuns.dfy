/** Runs of the limiter: any interleaving of requests and sweeps, over any keys.

    The clock is read before the lock is taken, so the times of a run need not be in
    order. `BoundedSkew(es, d)` says how far behind an earlier event's time an event may
    be; skew 0 is a run with non-decreasing times. */
module RateLimitRuns {
  import opened Basics
  import opened RateLimit

  datatype Event = Allow(key: string, now: Time) | Sweep(now: Time)

  function Step(hits: Hits, limit: Limit, e: Event): Hits {
    match e
    case Allow(key, now) => AllowStep(hits, limit, key, now)
    case Sweep(now) => SweepStep(hits, now)
  }

  /** The limiter's table after the first n events. */
  function StateAt(es: seq<Event>, limit: Limit, n: nat): Hits
    requires n <= |es|
  {
    if n == 0 then map[] else Step(StateAt(es, limit, n - 1), limit, es[n - 1])
  }

  predicate IsRequest(es: seq<Event>, key: string, i: nat)
    requires i < |es|
  {
    es[i].Allow? && es[i].key == key
  }

  /** What one event does to a single key's window. */
  function NextWindow(win: seq<Time>, limit: Limit, key: string, e: Event): seq<Time> {
    match e
    case Allow(k, now) => if k == key then Decide(Trim(win, now - WINDOW), limit, now).0 else win
    case Sweep(now) => if Stale(win, now - WINDOW) then [] else win
  }

  /** Keys do not interfere: a key's window changes as if it were alone in the table. */
  lemma WindowStep(hits: Hits, limit: Limit, key: string, e: Event)
    ensures WindowOf(Step(hits, limit, e), key) == NextWindow(WindowOf(hits, key), limit, key, e)
  {
  }

  /** What the limiter answered to event i. */
  function AnswerAt(es: seq<Event>, limit: Limit, i: nat): Answer
    requires i < |es| && es[i].Allow?
  {
    AllowAnswer(StateAt(es, limit, i), limit, es[i].key, es[i].now)
  }

  predicate AdmittedAt(es: seq<Event>, limit: Limit, key: string, i: nat)
    requires i < |es|
  {
    IsRequest(es, key, i) && AnswerAt(es, limit, i).allowed
  }

  /** One key's window after the first n events. */
  function WindowAt(es: seq<Event>, limit: Limit, key: string, n: nat): seq<Time>
    requires n <= |es|
  {
    if n == 0 then [] else NextWindow(WindowAt(es, limit, key, n - 1), limit, key, es[n - 1])
  }

  function HasRoom(win: seq<Time>, limit: Limit, now: Time): bool {
    |Trim(win, now - WINDOW)| < limit
  }

  /** The times of the key's admitted requests among the first n events, in the order of admission. */
  function Admitted(es: seq<Event>, limit: Limit, key: string, n: nat): seq<Time>
    requires n <= |es|
  {
    if n == 0 then []
    else
      Admitted(es, limit, key, n - 1) +
      if IsRequest(es, key, n - 1) && HasRoom(WindowAt(es, limit, key, n - 1), limit, es[n - 1].now)
      then [es[n - 1].now] else []
  }

  /** The table holds, for every key, that key's own window. */
  lemma {:induction false} TableHoldsWindows(es: seq<Event>, limit: Limit, key: string, n: nat)
    requires n <= |es|
    ensures WindowOf(StateAt(es, limit, n), key) == WindowAt(es, limit, key, n)
  {
    if n != 0 {
      TableHoldsWindows(es, limit, key, n - 1);
      WindowStep(StateAt(es, limit, n - 1), limit, key, es[n - 1]);
    }
  }

  /** A request's answer is decided on its own key's trimmed window. */
  lemma AnswerFromWindow(es: seq<Event>, limit: Limit, i: nat)
    requires i < |es| && es[i].Allow?
    ensures AnswerAt(es, limit, i) ==
            Decide(Trim(WindowAt(es, limit, es[i].key, i), es[i].now - WINDOW), limit, es[i].now).1
  {
    TableHoldsWindows(es, limit, es[i].key, i);
  }

  /** `Admitted` lists a request exactly when the limiter answered that it was allowed. */
  lemma AdmittedByAnswer(es: seq<Event>, limit: Limit, key: string, i: nat)
    requires i < |es|
    ensures Admitted(es, limit, key, i + 1) ==
            Admitted(es, limit, key, i) + if AdmittedAt(es, limit, key, i) then [es[i].now] else []
  {
    if es[i].Allow? {
      AnswerFromWindow(es, limit, i);
    }
  }

  ghost predicate BoundedSkew(es: seq<Event>, d: nat) {
    forall i, j :: 0 <= i < j < |es| ==> es[i].now - d <= es[j].now
  }

  ghost predicate Monotone(es: seq<Event>) {
    BoundedSkew(es, 0)
  }

  ghost predicate HasSweep(es: seq<Event>) {
    exists i :: 0 <= i < |es| && es[i].Sweep?
  }

  /** How many of the times lie in the closed interval [lo, hi]. */
  function CountIn(times: seq<Time>, lo: Time, hi: Time): nat {
    if times == [] then 0
    else CountIn(times[..|times| - 1], lo, hi) + if lo <= times[|times| - 1] <= hi then 1 else 0
  }

  // ---------- counting ----------

  lemma CountInSnoc(times: seq<Time>, t: Time, lo: Time, hi: Time)
    ensures CountIn(times + [t], lo, hi) == CountIn(times, lo, hi) + if lo <= t <= hi then 1 else 0
  {
    assert (times + [t])[..|times|] == times;
  }

  lemma {:induction false} CountInSplit(a: seq<Time>, b: seq<Time>, lo: Time, hi: Time)
    ensures CountIn(a + b, lo, hi) == CountIn(a, lo, hi) + CountIn(b, lo, hi)
    decreases |b|
  {
    if b == [] {
      assert a + b == a;
    } else {
      var front, t := b[..|b| - 1], b[|b| - 1];
      CountInSplit(a, front, lo, hi);
      assert a + b == (a + front) + [t];
      CountInSnoc(a + front, t, lo, hi);
    }
  }

  lemma {:induction false} CountInBound(times: seq<Time>, lo: Time, hi: Time)
    ensures CountIn(times, lo, hi) <= |times|
  {
    if times != [] {
      CountInBound(times[..|times| - 1], lo, hi);
    }
  }

  lemma {:induction false} CountInNone(times: seq<Time>, lo: Time, hi: Time)
    requires forall i :: 0 <= i < |times| ==> times[i] < lo
    ensures CountIn(times, lo, hi) == 0
  {
    if times != [] {
      CountInNone(times[..|times| - 1], lo, hi);
    }
  }

  lemma {:induction false} CountInAll(times: seq<Time>, lo: Time, hi: Time)
    requires forall i :: 0 <= i < |times| ==> lo <= times[i] <= hi
    ensures CountIn(times, lo, hi) == |times|
  {
    if times != [] {
      CountInAll(times[..|times| - 1], lo, hi);
    }
  }

  // ---------- what the table remembers ----------

  /** The times at or after `since`, picked out one by one. */
  function Since(times: seq<Time>, since: Time): seq<Time> {
    if times == [] then []
    else if since <= times[0] then [times[0]] + Since(times[1..], since)
    else Since(times[1..], since)
  }

  lemma {:induction false} SinceSplit(a: seq<Time>, b: seq<Time>, since: Time)
    ensures Since(a + b, since) == Since(a, since) + Since(b, since)
  {
    if a == [] {
      assert a + b == b;
    } else {
      assert (a + b)[1..] == a[1..] + b && (a + b)[0] == a[0];
      SinceSplit(a[1..], b, since);
      if since <= a[0] {
        assert [a[0]] + (Since(a[1..], since) + Since(b, since)) == ([a[0]] + Since(a[1..], since)) + Since(b, since);
      }
    }
  }

  lemma {:induction false} SinceNone(times: seq<Time>, since: Time)
    requires forall i :: 0 <= i < |times| ==> times[i] < since
    ensures Since(times, since) == []
  {
    if times != [] {
      SinceNone(times[1..], since);
    }
  }

  lemma {:induction false} SinceBound(times: seq<Time>, since: Time)
    ensures |Since(times, since)| <= |times|
  {
    if times != [] {
      SinceBound(times[1..], since);
    }
  }

  /** Trimming loses nothing at or after its cutoff. */
  lemma {:induction false} TrimKeepsSince(win: seq<Time>, cutoff: Time, since: Time)
    requires cutoff <= since
    ensures Since(Trim(win, cutoff), since) == Since(win, since)
  {
    if win != [] && win[0] < cutoff {
      TrimKeepsSince(win[1..], cutoff, since);
    }
  }

  lemma {:induction false} CountSince(times: seq<Time>, lo: Time, hi: Time)
    ensures CountIn(times, lo, hi) <= |Since(times, lo)|
  {
    if times != [] {
      var front, t := times[..|times| - 1], times[|times| - 1];
      assert times == front + [t];
      CountSince(front, lo, hi);
      SinceSplit(front, [t], lo);
    }
  }

  lemma KeyStep(es: seq<Event>, limit: Limit, key: string, n: nat)
    requires n < |es|
    ensures WindowAt(es, limit, key, n + 1) == NextWindow(WindowAt(es, limit, key, n), limit, key, es[n])
    ensures Admitted(es, limit, key, n + 1) ==
            Admitted(es, limit, key, n) +
            if IsRequest(es, key, n) && HasRoom(WindowAt(es, limit, key, n), limit, es[n].now) then [es[n].now] else []
  {
  }

  lemma StartsEmpty(es: seq<Event>, limit: Limit, key: string, lo: Time, hi: Time)
    ensures WindowAt(es, limit, key, 0) == [] && Admitted(es, limit, key, 0) == []
    ensures CountIn(Admitted(es, limit, key, 0), lo, hi) == 0
  {
  }

  ghost predicate SkewWithin(times: seq<Time>, d: nat) {
    forall i, j :: 0 <= i < j < |times| ==> times[i] - d <= times[j]
  }

  ghost predicate UpTo(times: seq<Time>, t: Time) {
    forall i :: 0 <= i < |times| ==> times[i] <= t
  }

  ghost predicate EventsUpTo(es: seq<Event>, n: nat, t: Time)
    requires n <= |es|
  {
    forall i :: 0 <= i < n ==> es[i].now <= t
  }

  lemma EarlierWithin(es: seq<Event>, n: nat, d: nat)
    requires n < |es| && BoundedSkew(es, d)
    ensures EventsUpTo(es, n, es[n].now + d)
  {
  }

  lemma EventsUpToLast(es: seq<Event>, n: nat, t: Time)
    requires n < |es| && EventsUpTo(es, n + 1, t)
    ensures EventsUpTo(es, n, t) && es[n].now <= t
  {
  }

  lemma {:induction false} TrimKeepsOrder(win: seq<Time>, cutoff: Time, d: nat, t: Time)
    requires SkewWithin(win, d) && UpTo(win, t)
    ensures SkewWithin(Trim(win, cutoff), d) && UpTo(Trim(win, cutoff), t)
  {
    if win != [] && win[0] < cutoff {
      TrimKeepsOrder(win[1..], cutoff, d, t);
    }
  }

  lemma SnocKeepsOrder(times: seq<Time>, d: nat, t: Time, now: Time)
    requires SkewWithin(times, d) && UpTo(times, t) && UpTo(times, now + d) && now <= t
    ensures SkewWithin(times + [now], d) && UpTo(times + [now], t)
  {
  }

  lemma NextKeepsOrder(win: seq<Time>, limit: Limit, key: string, e: Event, d: nat, t: Time)
    requires SkewWithin(win, d) && UpTo(win, t) && UpTo(win, e.now + d) && e.now <= t
    ensures SkewWithin(NextWindow(win, limit, key, e), d) && UpTo(NextWindow(win, limit, key, e), t)
  {
    hide SkewWithin, UpTo;
    if e.Allow? {
      TrimKeepsOrder(win, e.now - WINDOW, d, t);
      TrimKeepsOrder(win, e.now - WINDOW, d, e.now + d);
      SnocKeepsOrder(Trim(win, e.now - WINDOW), d, t, e.now);
    } else {
      EmptyOrder(d, t);
    }
  }

  lemma EmptyOrder(d: nat, t: Time)
    ensures SkewWithin([], d) && UpTo([], t)
  {
  }

  /** Stored and admitted times are times of requests, so they inherit the bound on the skew. */
  lemma {:induction false} TimesFollowEvents(es: seq<Event>, limit: Limit, key: string, n: nat, d: nat, t: Time)
    requires n <= |es| && BoundedSkew(es, d) && EventsUpTo(es, n, t)
    ensures SkewWithin(WindowAt(es, limit, key, n), d) && UpTo(WindowAt(es, limit, key, n), t)
    ensures SkewWithin(Admitted(es, limit, key, n), d) && UpTo(Admitted(es, limit, key, n), t)
  {
    hide *;
    if n == 0 {
      StartsEmpty(es, limit, key, 0, 0);
      EmptyOrder(d, t);
    } else {
      var e := es[n - 1];
      var history := Admitted(es, limit, key, n - 1);
      KeyStep(es, limit, key, n - 1);
      EventsUpToLast(es, n - 1, t);
      TimesFollowEvents(es, limit, key, n - 1, d, t);
      EarlierWithin(es, n - 1, d);
      TimesFollowEvents(es, limit, key, n - 1, d, e.now + d);
      NextKeepsOrder(WindowAt(es, limit, key, n - 1), limit, key, e, d, t);
      SnocKeepsOrder(history, d, t, e.now);
      assert history + [] == history;
    }
  }

  /** How much of the 60 seconds clock skew can cost: once for the trim point, and once more for a
      sweep, which judges a whole window by its last hit. */
  ghost function Lag(es: seq<Event>, d: nat): nat {
    if HasSweep(es) then 2 * d else d
  }

  /** The stored window and the admission history agree on everything from `horizon` on. */
  ghost predicate Remembers(win: seq<Time>, history: seq<Time>, horizon: Time) {
    forall c :: horizon <= c ==> Since(win, c) == Since(history, c)
  }

  lemma TrimRemembers(win: seq<Time>, history: seq<Time>, horizon: Time, cutoff: Time)
    requires Remembers(win, history, horizon) && cutoff <= horizon
    ensures Remembers(Trim(win, cutoff), history, horizon)
  {
    forall c | horizon <= c
      ensures Since(Trim(win, cutoff), c) == Since(history, c)
    {
      TrimKeepsSince(win, cutoff, c);
    }
  }

  lemma AppendRemembers(win: seq<Time>, history: seq<Time>, horizon: Time, now: Time)
    requires Remembers(win, history, horizon)
    ensures Remembers(win + [now], history + [now], horizon)
  {
    forall c | horizon <= c
      ensures Since(win + [now], c) == Since(history + [now], c)
    {
      SinceSplit(win, [now], c);
      SinceSplit(history, [now], c);
    }
  }

  /** A sweep that drops the window loses no hit that is d or more after its cutoff. */
  lemma SweepRemembers(win: seq<Time>, history: seq<Time>, horizon: Time, cutoff: Time, d: nat)
    requires Remembers(win, history, horizon) && SkewWithin(win, d)
    requires Stale(win, cutoff) && cutoff + d <= horizon
    ensures Remembers([], history, horizon)
  {
    forall c | horizon <= c
      ensures Since([], c) == Since(history, c)
    {
      SinceNone(win, c);
    }
  }

  lemma NextRemembers(win: seq<Time>, history: seq<Time>, horizon: Time, limit: Limit, key: string, e: Event, d: nat)
    requires Remembers(win, history, horizon) && SkewWithin(win, d)
    requires e.now - WINDOW + (if e.Sweep? then d else 0) <= horizon
    ensures Remembers(NextWindow(win, limit, key, e),
                      history + if e.Allow? && e.key == key && HasRoom(win, limit, e.now) then [e.now] else [],
                      horizon)
  {
    hide Remembers;
    assert history + [] == history;
    if e.Allow? && e.key == key {
      TrimRemembers(win, history, horizon, e.now - WINDOW);
      AppendRemembers(Trim(win, e.now - WINDOW), history, horizon, e.now);
    } else if e.Sweep? && Stale(win, e.now - WINDOW) {
      SweepRemembers(win, history, horizon, e.now - WINDOW, d);
    }
  }

  /** Key invariant of every run, whatever the clocks do within the skew: nothing recent is
      forgotten. No event so far is more than d after t. */
  lemma {:induction false} Retained(es: seq<Event>, limit: Limit, key: string, n: nat, d: nat, t: Time)
    requires n <= |es| && BoundedSkew(es, d)
    requires EventsUpTo(es, n, t + d)
    ensures Remembers(WindowAt(es, limit, key, n), Admitted(es, limit, key, n), t - WINDOW + Lag(es, d))
  {
    if n == 0 {
      assert WindowAt(es, limit, key, n) == [] && Admitted(es, limit, key, n) == [];
    } else {
      hide WindowAt, Admitted, Remembers, SkewWithin, BoundedSkew, NextWindow;
      Retained(es, limit, key, n - 1, d, t);
      TimesFollowEvents(es, limit, key, n - 1, d, t + d);
      KeyStep(es, limit, key, n - 1);
      assert es[n - 1].Sweep? ==> HasSweep(es);
      NextRemembers(WindowAt(es, limit, key, n - 1), Admitted(es, limit, key, n - 1), t - WINDOW + Lag(es, d),
                    limit, key, es[n - 1], d);
    }
  }

  /** An admission at time t finds fewer than `limit` earlier ones in an interval that reaches t. */
  lemma RoomToAdmit(win: seq<Time>, history: seq<Time>, limit: Limit, t: Time, lag: nat, x: Time)
    requires Remembers(win, history, t - WINDOW + lag)
    requires HasRoom(win, limit, t)
    requires CountIn(history, x, x + WINDOW - lag) <= limit
    ensures CountIn(history + [t], x, x + WINDOW - lag) <= limit
  {
    var hi := x + WINDOW - lag;
    CountInSnoc(history, t, x, hi);
    if t <= hi {
      CountSince(history, x, hi);
      TrimKeepsSince(win, t - WINDOW, x);
      SinceBound(Trim(win, t - WINDOW), x);
    }
  }

  /** At most `limit` requests of a key are admitted in any closed interval of one window less the
      lag. With skew 0 the interval is the advertised 60 seconds. */
  lemma {:induction false} SafetyUnderSkew(es: seq<Event>, limit: Limit, key: string, n: nat, d: nat, x: Time)
    requires n <= |es| && BoundedSkew(es, d)
    ensures CountIn(Admitted(es, limit, key, n), x, x + WINDOW - Lag(es, d)) <= limit
  {
    hide *;
    if n == 0 {
      StartsEmpty(es, limit, key, x, x + WINDOW - Lag(es, d));
    } else {
      SafetyUnderSkew(es, limit, key, n - 1, d, x);
      KeyStep(es, limit, key, n - 1);
      var win, history := WindowAt(es, limit, key, n - 1), Admitted(es, limit, key, n - 1);
      if IsRequest(es, key, n - 1) && HasRoom(win, limit, es[n - 1].now) {
        EarlierWithin(es, n - 1, d);
        Retained(es, limit, key, n - 1, d, es[n - 1].now);
        RoomToAdmit(win, history, limit, es[n - 1].now, Lag(es, d), x);
      } else {
        assert history + [] == history;
      }
    }
  }
}

/** What clock skew costs, exactly. For every limit of 2 or more the bound of `SafetyUnderSkew` cannot be
    improved by a nanosecond; for limit 1 skew costs nothing by itself, and only a sweep lets it show. */
module RateLimitBounds {
  import opened Basics
  import opened RateLimit
  import opened RateLimitRuns

  // ---------- limit 1 ----------

  /** What skew d can cost a limiter of limit 1. */
  ghost function LagOfOne(es: seq<Event>, d: nat): nat {
    if HasSweep(es) then d else 0
  }

  /** With limit 1 the window is the last admission, or is empty because a sweep took it: then that admission
      is older than a window less the skew. */
  ghost predicate HoldsLast(win: seq<Time>, history: seq<Time>, swept: bool, horizon: Time) {
    if history == [] then win == []
    else
      var last := history[|history| - 1];
      win == [last] || (win == [] && swept && last < horizon)
  }

  /** Each time lies more than `gap` after the one before it. */
  ghost predicate Apart(times: seq<Time>, gap: int) {
    forall i :: 0 < i < |times| ==> times[i - 1] + gap < times[i]
  }

  lemma ApartSnoc(times: seq<Time>, t: Time, gap: int)
    requires Apart(times, gap) && (times != [] ==> times[|times| - 1] + gap < t)
    ensures Apart(times + [t], gap)
  {
  }

  lemma OneHitStep(win: seq<Time>, history: seq<Time>, swept: bool, horizon: Time, key: string, e: Event)
    requires HoldsLast(win, history, swept, horizon)
    requires e.Sweep? ==> swept && e.now - WINDOW <= horizon
    ensures HoldsLast(NextWindow(win, 1, key, e),
                      history + if e.Allow? && e.key == key && HasRoom(win, 1, e.now) then [e.now] else [],
                      swept, horizon)
  {
    assert history + [] == history;
    if e.Allow? && e.key == key && win != [] {
      assert win[1..] == [];
      assert Trim(win, e.now - WINDOW) == if win[0] < e.now - WINDOW then [] else win;
    }
  }

  lemma {:induction false} OneHit(es: seq<Event>, key: string, n: nat, d: nat, t: Time)
    requires n <= |es| && EventsUpTo(es, n, t + d)
    ensures HoldsLast(WindowAt(es, 1, key, n), Admitted(es, 1, key, n), HasSweep(es), t - WINDOW + d)
  {
    hide WindowAt, Admitted, NextWindow, HoldsLast, HasRoom, HasSweep, EventsUpTo;
    if n == 0 {
      StartsEmpty(es, 1, key, 0, 0);
      NothingHeld(HasSweep(es), t - WINDOW + d);
    } else {
      EventsUpToLast(es, n - 1, t + d);
      OneHit(es, key, n - 1, d, t);
      KeyStep(es, 1, key, n - 1);
      SweepIsThere(es, n - 1);
      OneHitStep(WindowAt(es, 1, key, n - 1), Admitted(es, 1, key, n - 1), HasSweep(es), t - WINDOW + d, key,
                 es[n - 1]);
    }
  }

  lemma NothingHeld(swept: bool, horizon: Time)
    ensures HoldsLast([], [], swept, horizon) && Apart([], horizon)
  {
  }

  lemma SweepIsThere(es: seq<Event>, n: nat)
    requires n < |es|
    ensures es[n].Sweep? ==> HasSweep(es)
  {
  }

  lemma LastIsExpired(win: seq<Time>, history: seq<Time>, swept: bool, t: Time, d: nat)
    requires HoldsLast(win, history, swept, t - WINDOW + d) && HasRoom(win, 1, t) && history != []
    ensures history[|history| - 1] < t - WINDOW + if swept then d else 0
  {
  }

  /** Consecutive admissions of a limiter of limit 1 lie more than a window apart, or a window less the skew
      if a sweep runs. */
  lemma {:induction false} AdmissionsApart(es: seq<Event>, key: string, n: nat, d: nat)
    requires n <= |es| && BoundedSkew(es, d)
    ensures Apart(Admitted(es, 1, key, n), WINDOW - LagOfOne(es, d))
  {
    hide WindowAt, Admitted, HasSweep, Apart, HoldsLast, HasRoom, NextWindow, BoundedSkew, EventsUpTo;
    if n == 0 {
      StartsEmpty(es, 1, key, 0, 0);
      NothingHeld(false, WINDOW - LagOfOne(es, d));
    } else {
      var win, history := WindowAt(es, 1, key, n - 1), Admitted(es, 1, key, n - 1);
      AdmissionsApart(es, key, n - 1, d);
      KeyStep(es, 1, key, n - 1);
      assert history + [] == history;
      if IsRequest(es, key, n - 1) && HasRoom(win, 1, es[n - 1].now) {
        EarlierWithin(es, n - 1, d);
        OneHit(es, key, n - 1, d, es[n - 1].now);
        if history != [] {
          LastIsExpired(win, history, HasSweep(es), es[n - 1].now, d);
        }
        ApartSnoc(history, es[n - 1].now, WINDOW - LagOfOne(es, d));
      }
    }
  }

  lemma {:induction false} ApartCount(times: seq<Time>, gap: nat, x: Time)
    requires Apart(times, gap)
    ensures CountIn(times, x, x + gap) <= 1
    ensures forall i :: 0 <= i < |times| ==> times[i] <= times[|times| - 1]
  {
    if times != [] {
      var front, last := times[..|times| - 1], times[|times| - 1];
      ApartCount(front, gap, x);
      if front != [] && last <= x + gap {
        CountInNone(front, x, x + gap);
      }
    }
  }

  lemma {:induction false} CountInEmpty(times: seq<Time>, lo: Time, hi: Time)
    requires hi < lo
    ensures CountIn(times, lo, hi) == 0
  {
    if times != [] {
      CountInEmpty(times[..|times| - 1], lo, hi);
    }
  }

  /** A limiter of limit 1 admits at most one request of a key in any closed 60 seconds, whatever the skew, if no
      sweep runs, and in any 60 seconds less the skew if sweeps do. */
  lemma SafetyOfLimitOne(es: seq<Event>, key: string, n: nat, d: nat, x: Time)
    requires n <= |es| && BoundedSkew(es, d)
    ensures CountIn(Admitted(es, 1, key, n), x, x + WINDOW - LagOfOne(es, d)) <= 1
  {
    hide Admitted, Apart;
    AdmissionsApart(es, key, n, d);
    if LagOfOne(es, d) <= WINDOW {
      ApartCount(Admitted(es, 1, key, n), WINDOW - LagOfOne(es, d), x);
    } else {
      CountInEmpty(Admitted(es, 1, key, n), x, x + WINDOW - LagOfOne(es, d));
    }
  }

  // ---------- runs that reach the bounds ----------

  function Repeat<T>(t: T, n: nat): seq<T> {
    seq(n, _ => t)
  }

  /** Events i up to i + m are requests of the key, all at time t. */
  ghost predicate Burst(es: seq<Event>, key: string, i: nat, m: nat, t: Time) {
    i + m <= |es| && forall k :: i <= k < i + m ==> es[k] == Allow(key, t)
  }

  lemma NothingExpires(win: seq<Time>, limit: Limit, key: string, t: Time)
    requires (win != [] ==> t - WINDOW <= win[0]) && |win| < limit
    ensures HasRoom(win, limit, t) && NextWindow(win, limit, key, Allow(key, t)) == win + [t]
  {
  }

  /** A burst that finds nothing to trim and room for all of itself is recorded whole. */
  lemma {:induction false} Record(es: seq<Event>, limit: Limit, key: string, i: nat, m: nat, t: Time,
      win: seq<Time>, history: seq<Time>)
    requires Burst(es, key, i, m, t)
    requires WindowAt(es, limit, key, i) == win && Admitted(es, limit, key, i) == history
    requires (win != [] ==> t - WINDOW <= win[0]) && |win| + m <= limit
    ensures WindowAt(es, limit, key, i + m) == win + Repeat(t, m)
    ensures Admitted(es, limit, key, i + m) == history + Repeat(t, m)
  {
    hide WindowAt, Admitted, NextWindow, HasRoom;
    if m == 0 {
      assert win + Repeat(t, 0) == win && history + Repeat(t, 0) == history;
    } else {
      Record(es, limit, key, i, m - 1, t, win, history);
      assert es[i + m - 1] == Allow(key, t);
      KeyStep(es, limit, key, i + m - 1);
      var win' := win + Repeat(t, m - 1);
      assert win' != [] ==> win'[0] == if win != [] then win[0] else t;
      NothingExpires(win', limit, key, t);
      assert win' + [t] == win + Repeat(t, m);
      assert (history + Repeat(t, m - 1)) + [t] == history + Repeat(t, m);
    }
  }

  lemma Drop(es: seq<Event>, limit: Limit, key: string, n: nat, win: seq<Time>, history: seq<Time>)
    requires n < |es| && es[n].Sweep?
    requires WindowAt(es, limit, key, n) == win && Admitted(es, limit, key, n) == history
    requires Stale(win, es[n].now - WINDOW)
    ensures WindowAt(es, limit, key, n + 1) == [] && Admitted(es, limit, key, n + 1) == history
  {
  }

  lemma {:induction false} TrimAll(win: seq<Time>, cutoff: Time)
    requires forall i :: 0 <= i < |win| ==> win[i] < cutoff
    ensures Trim(win, cutoff) == []
  {
    if win != [] {
      TrimAll(win[1..], cutoff);
    }
  }

  /** A request that finds the whole window expired. */
  lemma Replace(es: seq<Event>, limit: Limit, key: string, n: nat, win: seq<Time>, history: seq<Time>)
    requires n < |es| && IsRequest(es, key, n)
    requires WindowAt(es, limit, key, n) == win && Admitted(es, limit, key, n) == history
    requires forall i :: 0 <= i < |win| ==> win[i] < es[n].now - WINDOW
    ensures WindowAt(es, limit, key, n + 1) == [es[n].now]
    ensures Admitted(es, limit, key, n + 1) == history + [es[n].now]
  {
    hide WindowAt, Admitted, Trim;
    KeyStep(es, limit, key, n);
    TrimAll(win, es[n].now - WINDOW);
  }

  lemma CountBursts(a: Time, m: nat, rest: seq<Time>, b: Time, k: nat, lo: Time, hi: Time)
    requires lo <= a <= hi && lo <= b <= hi
    ensures CountIn(Repeat(a, m) + rest + Repeat(b, k), lo, hi) >= m + k
  {
    CountInSplit(Repeat(a, m) + rest, Repeat(b, k), lo, hi);
    CountInSplit(Repeat(a, m), rest, lo, hi);
    CountInAll(Repeat(a, m), lo, hi);
    CountInAll(Repeat(b, k), lo, hi);
  }

  /** All but one of the limit at d, one at 0, a sweep that judges the window by that last one, and two more. */
  function SweptRun(limit: Limit, key: string, d: nat): seq<Event> {
    Repeat(Allow(key, d), limit - 1) + [Allow(key, 0), Sweep(WINDOW + 1)] + Repeat(Allow(key, WINDOW + 1 - d), 2)
  }

  lemma SweptRunAdmits(limit: Limit, key: string, d: nat)
    requires 2 <= limit && d <= WINDOW
    ensures var es := SweptRun(limit, key, d);
      Admitted(es, limit, key, |es|) == Repeat<Time>(d, limit - 1) + [0] + Repeat<Time>(WINDOW + 1 - d, 2)
  {
    hide Stale;
    var es, late, m := SweptRun(limit, key, d), WINDOW + 1 - d, limit - 1;
    StartsEmpty(es, limit, key, 0, 0);
    hide WindowAt, Admitted;
    assert Burst(es, key, 0, m, d) && Burst(es, key, m, 1, 0) && Burst(es, key, m + 2, 2, late);
    Record(es, limit, key, 0, m, d, [], []);
    var win := Repeat(d, m);
    assert [] + win == win;
    Record(es, limit, key, m, 1, 0, win, win);
    assert Repeat(0, 1) == [0];
    LastIsZero(win);
    Drop(es, limit, key, m + 1, win + [0], win + [0]);
    Record(es, limit, key, m + 2, 2, late, [], win + [0]);
  }

  lemma LastIsZero(win: seq<Time>)
    ensures Stale(win + [0], WINDOW + 1 - WINDOW)
  {
  }

  /** With sweeps, every limit from 2 on is exceeded in an interval one nanosecond longer than
      `SafetyUnderSkew` allows. */
  lemma SafetyIsTightWithSweeps(limit: Limit, key: string, d: nat)
    requires 2 <= limit && 2 * d <= WINDOW
    ensures var es := SweptRun(limit, key, d);
      && BoundedSkew(es, d) && HasSweep(es)
      && CountIn(Admitted(es, limit, key, |es|), d, d + WINDOW - Lag(es, d) + 1) > limit
  {
    hide WindowAt, Admitted;
    var es := SweptRun(limit, key, d);
    SweptRunAdmits(limit, key, d);
    assert es[limit].Sweep?;
    hide CountIn, Repeat, SweptRun;
    assert Lag(es, d) == 2 * d;
    CountBursts(d, limit - 1, [0], WINDOW + 1 - d, 2, d, WINDOW + 1 - d);
    assert CountIn(Admitted(es, limit, key, |es|), d, WINDOW + 1 - d) >= limit - 1 + 2;
    assert d + WINDOW - Lag(es, d) + 1 == WINDOW + 1 - d;
  }

  /** The whole limit at 0, one that replaces them, and one that the skew puts before it. */
  function UnsweptRun(limit: Limit, key: string, d: nat): seq<Event> {
    Repeat(Allow(key, 0), limit) + [Allow(key, WINDOW + 1)] + Repeat(Allow(key, WINDOW + 1 - d), 1)
  }

  lemma UnsweptRunHas(limit: Limit, key: string, d: nat)
    ensures var es := UnsweptRun(limit, key, d);
      && |es| == limit + 2 && es[limit] == Allow(key, WINDOW + 1)
      && Burst(es, key, 0, limit, 0) && Burst(es, key, limit + 1, 1, WINDOW + 1 - d)
  {
  }

  lemma RepeatHas(t: Time, n: nat)
    ensures |Repeat(t, n)| == n && forall i :: 0 <= i < n ==> Repeat(t, n)[i] == t
    ensures [] + Repeat(t, n) == Repeat(t, n)
  {
  }

  lemma UnsweptRunAdmits(limit: Limit, key: string, d: nat)
    requires 2 <= limit && d <= WINDOW
    ensures var es := UnsweptRun(limit, key, d);
      Admitted(es, limit, key, |es|) == Repeat<Time>(0, limit) + [WINDOW + 1] + Repeat<Time>(WINDOW + 1 - d, 1)
  {
    hide *;
    var es, win := UnsweptRun(limit, key, d), Repeat(0, limit);
    UnsweptRunHas(limit, key, d);
    RepeatHas(0, limit);
    StartsEmpty(es, limit, key, 0, 0);
    Record(es, limit, key, 0, limit, 0, [], []);
    RequestThere(es, key, limit, WINDOW + 1);
    Replace(es, limit, key, limit, win, win);
    Record(es, limit, key, limit + 1, 1, WINDOW + 1 - d, [WINDOW + 1], win + [WINDOW + 1]);
  }

  lemma RequestThere(es: seq<Event>, key: string, i: nat, t: Time)
    requires i < |es| && es[i] == Allow(key, t)
    ensures IsRequest(es, key, i)
  {
  }

  /** And so it is without sweeps: skew alone costs d, and no less. */
  lemma SafetyIsTightWithoutSweeps(limit: Limit, key: string, d: nat)
    requires 2 <= limit && d <= WINDOW
    ensures var es := UnsweptRun(limit, key, d);
      && BoundedSkew(es, d) && !HasSweep(es)
      && CountIn(Admitted(es, limit, key, |es|), 0, WINDOW - Lag(es, d) + 1) > limit
  {
    hide WindowAt, Admitted;
    UnsweptRunAdmits(limit, key, d);
    CountBursts(0, limit, [WINDOW + 1], WINDOW + 1 - d, 1, 0, WINDOW + 1 - d);
  }

  /** For limit 1 the bounds of `SafetyOfLimitOne` are reached too. */
  lemma LimitOneIsTight(key: string, d: nat)
    requires d <= WINDOW
    ensures var es := [Allow(key, 0), Sweep(WINDOW + 1), Allow(key, WINDOW + 1 - d)];
      && BoundedSkew(es, d) && HasSweep(es)
      && CountIn(Admitted(es, 1, key, 3), 0, WINDOW - LagOfOne(es, d) + 1) > 1
    ensures var es := [Allow(key, 0), Allow(key, WINDOW + 1)];
      && BoundedSkew(es, d) && !HasSweep(es)
      && CountIn(Admitted(es, 1, key, 2), 0, WINDOW - LagOfOne(es, d) + 1) > 1
  {
    var swept := [Allow(key, 0), Sweep(WINDOW + 1), Allow(key, WINDOW + 1 - d)];
    var plain := [Allow(key, 0), Allow(key, WINDOW + 1)];
    StartsEmpty(swept, 1, key, 0, 0);
    StartsEmpty(plain, 1, key, 0, 0);
    hide WindowAt, Admitted;
    assert swept[1].Sweep?;
    Replace(swept, 1, key, 0, [], []);
    Drop(swept, 1, key, 1, [0], [] + [0]);
    Replace(swept, 1, key, 2, [], [] + [0]);
    CountInAll([] + [0] + [WINDOW + 1 - d], 0, WINDOW + 1 - d);
    Replace(plain, 1, key, 0, [], []);
    Replace(plain, 1, key, 1, [0], [] + [0]);
    CountInAll([] + [0] + [WINDOW + 1], 0, WINDOW + 1);
  }
}

/** With non-decreasing times the limiter is an optimal limiter that never forgets.

    The reference is a limiter that keeps every admission of a key for ever and counts the
    ones inside the window. Trimming, sweeping and sharing a table between keys turn out to
    be invisible, and no other way of choosing among the same requests admits more. */
module RateLimitHistory {
  import opened Basics
  import opened RateLimit
  import opened RateLimitRuns

  // ---------- the limiter that never forgets ----------

  function IdealAnswer(history: seq<Time>, limit: Limit, now: Time): Answer {
    var live := Since(history, now - WINDOW);
    if |live| >= limit then
      Answer(false, 0, live[0] + WINDOW)
    else
      Answer(true, limit - |live| - 1, (if live == [] then now else live[0]) + WINDOW)
  }

  /** The full history of one key's admissions, given the times of its requests. */
  function IdealHistory(requests: seq<Time>, limit: Limit): seq<Time> {
    if requests == [] then []
    else
      var t := requests[|requests| - 1];
      var history := IdealHistory(requests[..|requests| - 1], limit);
      history + if IdealAnswer(history, limit, t).allowed then [t] else []
  }

  function IdealAnswers(requests: seq<Time>, limit: Limit): seq<Answer> {
    if requests == [] then []
    else
      var before := requests[..|requests| - 1];
      IdealAnswers(before, limit) + [IdealAnswer(IdealHistory(before, limit), limit, requests[|requests| - 1])]
  }

  // ---------- what a key's caller sees of a run ----------

  /** The times of the key's requests among the first n events. */
  function Requests(es: seq<Event>, key: string, n: nat): seq<Time>
    requires n <= |es|
  {
    if n == 0 then []
    else Requests(es, key, n - 1) + if IsRequest(es, key, n - 1) then [es[n - 1].now] else []
  }

  /** The limiter's answers to those requests. */
  function Answers(es: seq<Event>, limit: Limit, key: string, n: nat): seq<Answer>
    requires n <= |es|
  {
    if n == 0 then []
    else Answers(es, limit, key, n - 1) + if IsRequest(es, key, n - 1) then [AnswerAt(es, limit, n - 1)] else []
  }

  // ---------- refinement ----------

  lemma {:induction false} SinceAll(times: seq<Time>, since: Time)
    requires forall i :: 0 <= i < |times| ==> since <= times[i]
    ensures Since(times, since) == times
  {
    if times != [] {
      SinceAll(times[1..], since);
    }
  }

  /** On sorted times the forward scan and the filter agree. */
  lemma {:induction false} ScanIsFilter(times: seq<Time>, since: Time)
    requires SkewWithin(times, 0)
    ensures Trim(times, since) == Since(times, since)
  {
    if times != [] {
      if since <= times[0] {
        SinceAll(times, since);
      } else {
        ScanIsFilter(times[1..], since);
      }
    }
  }

  /** The key's trimmed window holds exactly its admissions of the last 60 seconds. */
  lemma WindowIsLiveHistory(es: seq<Event>, limit: Limit, key: string, n: nat)
    requires n < |es| && Monotone(es)
    ensures Trim(WindowAt(es, limit, key, n), es[n].now - WINDOW) ==
            Since(Admitted(es, limit, key, n), es[n].now - WINDOW)
  {
    hide WindowAt, Admitted, Since, Trim, SkewWithin;
    EarlierWithin(es, n, 0);
    Retained(es, limit, key, n, 0, es[n].now);
    TimesFollowEvents(es, limit, key, n, 0, es[n].now);
    ScanIsFilter(WindowAt(es, limit, key, n), es[n].now - WINDOW);
  }

  lemma AnswerIsIdeal(es: seq<Event>, limit: Limit, i: nat)
    requires i < |es| && Monotone(es) && es[i].Allow?
    ensures AnswerAt(es, limit, i) == IdealAnswer(Admitted(es, limit, es[i].key, i), limit, es[i].now)
  {
    hide WindowAt, Admitted, AnswerAt, Trim, Since;
    AnswerFromWindow(es, limit, i);
    WindowIsLiveHistory(es, limit, es[i].key, i);
  }

  /** Whatever else happens in the run, a key's answers and admissions are those of the limiter that
      never forgets, run on the key's requests alone. */
  lemma {:induction false} RefinesFullHistory(es: seq<Event>, limit: Limit, key: string, n: nat)
    requires n <= |es| && Monotone(es)
    ensures Admitted(es, limit, key, n) == IdealHistory(Requests(es, key, n), limit)
    ensures Answers(es, limit, key, n) == IdealAnswers(Requests(es, key, n), limit)
  {
    hide *;
    if n == 0 {
      NothingYet(es, limit, key);
    } else {
      RefinesFullHistory(es, limit, key, n - 1);
      AnswersStep(es, limit, key, n - 1);
      AdmittedByAnswer(es, limit, key, n - 1);
      if IsRequest(es, key, n - 1) {
        AnswerIsIdeal(es, limit, n - 1);
        IdealSnoc(Requests(es, key, n - 1), limit, es[n - 1].now);
      }
    }
  }

  lemma NothingYet(es: seq<Event>, limit: Limit, key: string)
    ensures Requests(es, key, 0) == [] && Answers(es, limit, key, 0) == [] && Admitted(es, limit, key, 0) == []
    ensures IdealHistory([], limit) == [] && IdealAnswers([], limit) == []
  {
  }

  lemma AnswersStep(es: seq<Event>, limit: Limit, key: string, n: nat)
    requires n < |es|
    ensures IsRequest(es, key, n) ==>
              && es[n].Allow? && es[n].key == key
              && Requests(es, key, n + 1) == Requests(es, key, n) + [es[n].now]
              && Answers(es, limit, key, n + 1) == Answers(es, limit, key, n) + [AnswerAt(es, limit, n)]
              && AdmittedAt(es, limit, key, n) == AnswerAt(es, limit, n).allowed
    ensures !IsRequest(es, key, n) ==>
              && Requests(es, key, n + 1) == Requests(es, key, n)
              && Answers(es, limit, key, n + 1) == Answers(es, limit, key, n)
              && !AdmittedAt(es, limit, key, n)
  {
    hide AnswerAt;
  }

  lemma IdealSnoc(requests: seq<Time>, limit: Limit, t: Time)
    ensures var history := IdealHistory(requests, limit);
      && IdealHistory(requests + [t], limit) == history + (if IdealAnswer(history, limit, t).allowed then [t] else [])
      && IdealAnswers(requests + [t], limit) == IdealAnswers(requests, limit) + [IdealAnswer(history, limit, t)]
  {
    hide IdealAnswer;
    assert (requests + [t])[..|requests|] == requests;
  }

  // ---------- erasing events ----------

  /** The first n events, without those that `keep` rejects. */
  function Erase(es: seq<Event>, keep: Event -> bool, n: nat): seq<Event>
    requires n <= |es|
  {
    if n == 0 then [] else Erase(es, keep, n - 1) + if keep(es[n - 1]) then [es[n - 1]] else []
  }

  lemma {:induction false} RequestsOfPrefix(es: seq<Event>, e: Event, key: string, n: nat)
    requires n <= |es|
    ensures Requests(es + [e], key, n) == Requests(es, key, n)
  {
    if n != 0 {
      RequestsOfPrefix(es, e, key, n - 1);
    }
  }

  lemma {:induction false} EraseKeepsRequests(es: seq<Event>, keep: Event -> bool, key: string, n: nat)
    requires n <= |es|
    requires forall e: Event :: e.Allow? && e.key == key ==> keep(e)
    ensures Requests(Erase(es, keep, n), key, |Erase(es, keep, n)|) == Requests(es, key, n)
  {
    if n != 0 {
      EraseKeepsRequests(es, keep, key, n - 1);
      var before, e := Erase(es, keep, n - 1), es[n - 1];
      RequestsOfPrefix(before, e, key, |before|);
      if keep(e) {
        assert (before + [e])[|before|] == e;
      } else {
        assert before + [] == before;
      }
    }
  }

  lemma {:induction false} EraseIsMonotone(es: seq<Event>, keep: Event -> bool, n: nat)
    requires n <= |es| && Monotone(es)
    ensures Monotone(Erase(es, keep, n))
    ensures forall i :: 0 <= i < |Erase(es, keep, n)| ==> exists k :: 0 <= k < n && es[k] == Erase(es, keep, n)[i]
  {
    if n != 0 {
      EraseIsMonotone(es, keep, n - 1);
      var before, after := Erase(es, keep, n - 1), Erase(es, keep, n);
      forall i | 0 <= i < |after|
        ensures exists k :: 0 <= k < n && es[k] == after[i]
        ensures after[i].now <= es[n - 1].now
      {
        if i < |before| {
          var k :| 0 <= k < n - 1 && es[k] == before[i];
          assert es[k] == after[i];
        } else {
          assert es[n - 1] == after[i];
        }
      }
    }
  }

  /** Erasing any events that are not the key's own requests changes none of the key's answers: sweeps
      and other keys' traffic are invisible to it. */
  lemma ErasureIsInvisible(es: seq<Event>, limit: Limit, key: string, keep: Event -> bool)
    requires Monotone(es)
    requires forall e: Event :: e.Allow? && e.key == key ==> keep(e)
    ensures var rest := Erase(es, keep, |es|);
      Answers(rest, limit, key, |rest|) == Answers(es, limit, key, |es|)
  {
    var rest := Erase(es, keep, |es|);
    EraseIsMonotone(es, keep, |es|);
    EraseKeepsRequests(es, keep, key, |es|);
    RefinesFullHistory(es, limit, key, |es|);
    RefinesFullHistory(rest, limit, key, |rest|);
  }

  lemma {:induction false} WindowOfPrefix(es: seq<Event>, e: Event, limit: Limit, key: string, n: nat)
    requires n <= |es|
    ensures WindowAt(es + [e], limit, key, n) == WindowAt(es, limit, key, n)
  {
    hide NextWindow;
    if n != 0 {
      WindowOfPrefix(es, e, limit, key, n - 1);
    }
  }

  lemma AnswerOfPrefix(es: seq<Event>, e: Event, limit: Limit, i: nat)
    requires i < |es| && es[i].Allow?
    ensures AnswerAt(es + [e], limit, i) == AnswerAt(es, limit, i)
  {
    hide AnswerAt, WindowAt, Trim;
    WindowOfPrefix(es, e, limit, es[i].key, i);
    AnswerFromWindow(es, limit, i);
    AnswerFromWindow(es + [e], limit, i);
  }

  lemma {:induction false} AnswersOfPrefix(es: seq<Event>, e: Event, limit: Limit, key: string, n: nat)
    requires n <= |es|
    ensures Answers(es + [e], limit, key, n) == Answers(es, limit, key, n)
  {
    hide AnswerAt;
    if n != 0 {
      AnswersOfPrefix(es, e, limit, key, n - 1);
      if es[n - 1].Allow? {
        AnswerOfPrefix(es, e, limit, n - 1);
      }
    }
  }

  /** Other keys are invisible even when the clocks are not ordered: erasing any of their requests,
      but no sweep, changes none of the key's answers. */
  lemma {:induction false} KeysDoNotInterfere(es: seq<Event>, limit: Limit, key: string, keep: Event -> bool, n: nat)
    requires n <= |es|
    requires forall e: Event :: e.Sweep? || e.key == key ==> keep(e)
    ensures var rest := Erase(es, keep, n);
      && WindowAt(rest, limit, key, |rest|) == WindowAt(es, limit, key, n)
      && Answers(rest, limit, key, |rest|) == Answers(es, limit, key, n)
  {
    hide WindowAt, Admitted, AnswerAt, Answers, Requests;
    if n == 0 {
      NothingYet(es, limit, key);
      NothingYet([], limit, key);
      StartsEmpty(es, limit, key, 0, 0);
      StartsEmpty([], limit, key, 0, 0);
    } else {
      KeysDoNotInterfere(es, limit, key, keep, n - 1);
      if keep(es[n - 1]) {
        KeptEvent(es, Erase(es, keep, n - 1), es[n - 1], limit, key, n - 1);
      } else {
        ErasedEvent(es, limit, key, n - 1);
        assert Erase(es, keep, n - 1) + [] == Erase(es, keep, n - 1);
      }
    }
  }

  lemma ErasedEvent(es: seq<Event>, limit: Limit, key: string, n: nat)
    requires n < |es| && es[n].Allow? && es[n].key != key
    ensures WindowAt(es, limit, key, n + 1) == WindowAt(es, limit, key, n)
    ensures Answers(es, limit, key, n + 1) == Answers(es, limit, key, n)
  {
    hide WindowAt, Admitted, AnswerAt, Answers, Requests, NextWindow;
    KeyStep(es, limit, key, n);
    AnswersStep(es, limit, key, n);
    OtherKeyKeepsWindow(WindowAt(es, limit, key, n), limit, key, es[n]);
  }

  lemma OtherKeyKeepsWindow(win: seq<Time>, limit: Limit, key: string, e: Event)
    requires e.Allow? && e.key != key
    ensures NextWindow(win, limit, key, e) == win
  {
  }

  lemma KeptEvent(es: seq<Event>, before: seq<Event>, e: Event, limit: Limit, key: string, n: nat)
    requires n < |es| && es[n] == e
    requires WindowAt(before, limit, key, |before|) == WindowAt(es, limit, key, n)
    requires Answers(before, limit, key, |before|) == Answers(es, limit, key, n)
    ensures WindowAt(before + [e], limit, key, |before| + 1) == WindowAt(es, limit, key, n + 1)
    ensures Answers(before + [e], limit, key, |before| + 1) == Answers(es, limit, key, n + 1)
  {
    hide WindowAt, Admitted, AnswerAt, Answers, Requests, NextWindow, Trim;
    var after := before + [e];
    assert after[|before|] == e;
    WindowOfPrefix(before, e, limit, key, |before|);
    AnswersOfPrefix(before, e, limit, key, |before|);
    KeyStep(after, limit, key, |before|);
    KeyStep(es, limit, key, n);
    AnswersStep(after, limit, key, |before|);
    AnswersStep(es, limit, key, n);
    if IsRequest(es, key, n) {
      AnswerFromWindow(es, limit, n);
      AnswerFromWindow(after, limit, |before|);
    }
  }

  // ---------- optimality ----------

  /** The requests picked by a choice, in order. */
  function Chosen(requests: seq<Time>, choice: seq<bool>): seq<Time>
    requires |choice| == |requests|
  {
    if requests == [] then []
    else
      var m := |requests| - 1;
      Chosen(requests[..m], choice[..m]) + if choice[m] then [requests[m]] else []
  }

  /** How many of the times lie in the closed window that starts at x. */
  function CountFrom(times: seq<Time>, x: Time): nat {
    CountIn(times, x, x + WINDOW)
  }

  /** No closed interval of one window holds more than `limit` of the times. */
  ghost predicate Feasible(times: seq<Time>, limit: Limit) {
    forall x :: CountFrom(times, x) <= limit
  }

  /** The j-th admission comes no later than the j-th pick, for every pick. */
  ghost predicate Ahead(admitted: seq<Time>, picked: seq<Time>) {
    && |picked| <= |admitted|
    && forall j :: 0 <= j < |picked| ==> admitted[j] <= picked[j]
  }

  lemma FeasiblePrefix(times: seq<Time>, t: Time, limit: Limit)
    requires Feasible(times + [t], limit)
    ensures Feasible(times, limit)
  {
    forall x
      ensures CountFrom(times, x) <= limit
    {
      assert CountFrom(times + [t], x) <= limit;
      CountInSnoc(times, t, x, x + WINDOW);
    }
  }

  /** If `count` sorted times are at or after `since`, the last `count` of all of them are. */
  lemma LastOnes(times: seq<Time>, since: Time, count: nat)
    requires SkewWithin(times, 0) && 0 < count <= |Since(times, since)|
    ensures count <= |times| && since <= times[|times| - count]
  {
    SinceBound(times, since);
    var m := |times| - count;
    if times[m] < since {
      assert times == times[..m + 1] + times[m + 1..];
      SinceSplit(times[..m + 1], times[m + 1..], since);
      SinceNone(times[..m + 1], since);
      SinceBound(times[m + 1..], since);
    }
  }

  /** Greedy rejects t only if a choice that has kept pace must leave t out as well. */
  lemma RejectionIsForced(admitted: seq<Time>, picked: seq<Time>, limit: Limit, t: Time)
    requires SkewWithin(admitted, 0) && SkewWithin(picked, 0) && UpTo(picked, t)
    requires !IdealAnswer(admitted, limit, t).allowed
    requires Ahead(admitted, picked) && |picked| == |admitted|
    ensures !Feasible(picked + [t], limit)
  {
    LastOnes(admitted, t - WINDOW, limit);
    var m := |admitted| - limit;
    CrowdedEnd(picked, m, t - WINDOW, t);
    assert CountFrom(picked + [t], t - WINDOW) > limit;
  }

  lemma CrowdedEnd(picked: seq<Time>, m: nat, lo: Time, t: Time)
    requires m < |picked| && SkewWithin(picked, 0) && UpTo(picked, t)
    requires lo <= picked[m]
    ensures CountIn(picked + [t], lo, t) > |picked| - m
  {
    var early, recent := picked[..m], picked[m..];
    assert picked == early + recent;
    forall j | 0 <= j < |recent|
      ensures lo <= recent[j] <= t
    {
      assert recent[j] == picked[m + j];
    }
    CountInAll(recent, lo, t);
    CountInSplit(early, recent, lo, t);
    CountInSnoc(picked, t, lo, t);
  }

  ghost predicate SortedUpTo(times: seq<Time>, t: Time) {
    SkewWithin(times, 0) && UpTo(times, t)
  }

  lemma {:induction false} SubsequencesSorted(requests: seq<Time>, limit: Limit, choice: seq<bool>, t: Time)
    requires |choice| == |requests| && SortedUpTo(requests, t)
    ensures SortedUpTo(Chosen(requests, choice), t) && SortedUpTo(IdealHistory(requests, limit), t)
  {
    if requests != [] {
      var m := |requests| - 1;
      SubsequencesSorted(requests[..m], limit, choice[..m], requests[m]);
      hide IdealAnswer;
    }
  }

  lemma {:induction false} GreedyStaysAhead(requests: seq<Time>, limit: Limit, choice: seq<bool>)
    requires |choice| == |requests| && SkewWithin(requests, 0)
    requires Feasible(Chosen(requests, choice), limit)
    ensures Ahead(IdealHistory(requests, limit), Chosen(requests, choice))
  {
    if requests != [] {
      hide IdealAnswer;
      var m := |requests| - 1;
      var t := requests[m];
      var admitted, picked := IdealHistory(requests[..m], limit), Chosen(requests[..m], choice[..m]);
      SubsequencesSorted(requests[..m], limit, choice[..m], t);
      if choice[m] {
        FeasiblePrefix(picked, t, limit);
        GreedyStaysAhead(requests[..m], limit, choice[..m]);
        if !IdealAnswer(admitted, limit, t).allowed && |picked| == |admitted| {
          RejectionIsForced(admitted, picked, limit, t);
        }
      } else {
        assert Chosen(requests, choice) == picked;
        GreedyStaysAhead(requests[..m], limit, choice[..m]);
      }
    }
  }

  lemma {:induction false} RequestsSorted(es: seq<Event>, key: string, n: nat, t: Time)
    requires n <= |es| && Monotone(es)
    requires EventsUpTo(es, n, t)
    ensures SortedUpTo(Requests(es, key, n), t)
  {
    if n != 0 {
      EarlierWithin(es, n - 1, 0);
      RequestsSorted(es, key, n - 1, es[n - 1].now);
    }
  }

  /** After every prefix of a run, the limiter's admissions of a key are a feasible choice among its
      requests, and they stay ahead of every feasible choice: none admits more. */
  lemma OptimalAdmission(es: seq<Event>, limit: Limit, key: string, n: nat, choice: seq<bool>)
    requires n <= |es| && Monotone(es)
    requires |choice| == |Requests(es, key, n)|
    requires Feasible(Chosen(Requests(es, key, n), choice), limit)
    ensures Feasible(Admitted(es, limit, key, n), limit)
    ensures Ahead(Admitted(es, limit, key, n), Chosen(Requests(es, key, n), choice))
  {
    hide Admitted;
    forall x
      ensures CountFrom(Admitted(es, limit, key, n), x) <= limit
    {
      SafetyUnderSkew(es, limit, key, n, 0, x);
    }
    if n != 0 {
      EarlierWithin(es, n - 1, 0);
      RequestsSorted(es, key, n, es[n - 1].now);
    }
    RefinesFullHistory(es, limit, key, n);
    GreedyStaysAhead(Requests(es, key, n), limit, choice);
  }
}

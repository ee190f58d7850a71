/** What the middleware's replies say about a run: the status and the four headers, read by a client. */
module RateLimitReplies {
  import opened Basics
  import opened RateLimit
  import opened RateLimitRuns
  import opened RateLimitHistory
  import opened RateLimitReset

  /** The reply to request i of a run, if the clock then reads `clock`. */
  function ReplyAt(es: seq<Event>, limit: Limit, i: nat, clock: Time): Reply
    requires i < |es| && es[i].Allow?
  {
    ReplyTo(AnswerAt(es, limit, i), limit, clock)
  }

  /** The key's admissions before request i that lie in the last 60 seconds. */
  function Live(es: seq<Event>, limit: Limit, i: nat): seq<Time>
    requires i < |es| && es[i].Allow?
  {
    Since(Admitted(es, limit, es[i].key, i), es[i].now - 60 * SECOND)
  }

  /** With ordered times a reply is a 429 exactly if the limit is used up, and the headers are: the limit; what is
      left of it after this request; the second in which the oldest live admission, or else this one, leaves the
      window; and, with a 429 only, seconds that end just after that moment. */
  lemma ReplyTellsTheTruth(es: seq<Event>, limit: Limit, i: nat, clock: Time)
    requires i < |es| && Monotone(es) && es[i].Allow?
    ensures var reply, live := ReplyAt(es, limit, i, clock), Live(es, limit, i);
      var free := (if live == [] then es[i].now else live[0]) + 60 * SECOND;
      && (reply.tooMany <==> limit <= |live|)
      && reply.limit == limit
      && reply.remaining == (if reply.tooMany then 0 else limit - |live| - 1)
      && UNIX_EPOCH + reply.reset * SECOND <= free < UNIX_EPOCH + (reply.reset + 1) * SECOND
      && (!reply.tooMany ==> reply.retryAfter == 0)
      && (reply.tooMany ==> free < clock + reply.retryAfter * SECOND)
      && (reply.tooMany && clock <= free ==> clock + reply.retryAfter * SECOND <= free + SECOND)
  {
    hide AnswerAt, Admitted, Since, ReplyTo;
    AnswerIsIdeal(es, limit, i);
    ReplyIsReply(AnswerAt(es, limit, i), limit, clock);
  }

  /** Counting requests of the key at one instant, in any run: after a reply without a 429 that many more as it
      has left pass, and no more. */
  lemma RemainingCountsDown(es: seq<Event>, limit: Limit, i: nat, j: nat, clock: Time, later: Time)
    requires i < j < |es| && es[i].Allow? && IsRequest(es, es[i].key, j) && es[j].now == es[i].now
    requires SameInstant(es, es[i].key, i + 1, j, es[i].now)
    requires !ReplyAt(es, limit, i, clock).tooMany
    ensures var first, next := ReplyAt(es, limit, i, clock), ReplyAt(es, limit, j, later);
      var since := RequestsBetween(es, es[i].key, i + 1, j);
      && (next.tooMany <==> first.remaining <= since)
      && next.remaining == (if next.tooMany then 0 else first.remaining - since - 1)
      && next.reset == first.reset
  {
    hide AnswerAt;
    RemainingIsExact(es, limit, i, j);
  }

  /** A client that gets a 429 and waits as told passes, if its key is quiet meanwhile; one that comes back at
      the second of the reset header, or before it, does not. */
  lemma WaitingHelps(es: seq<Event>, limit: Limit, i: nat, j: nat, clock: Time, later: Time)
    requires i < j < |es| && Monotone(es) && es[i].Allow? && IsRequest(es, es[i].key, j)
    requires ReplyAt(es, limit, i, clock).tooMany
    requires forall k :: i < k < j ==> !IsRequest(es, es[i].key, k)
    ensures clock + ReplyAt(es, limit, i, clock).retryAfter * SECOND <= es[j].now ==>
              !ReplyAt(es, limit, j, later).tooMany
    ensures es[j].now <= UNIX_EPOCH + ReplyAt(es, limit, i, clock).reset * SECOND ==>
              ReplyAt(es, limit, j, later).tooMany
  {
    hide AnswerAt, ReplyTo;
    ReplyIsReply(AnswerAt(es, limit, i), limit, clock);
    ReplyIsReply(AnswerAt(es, limit, j), limit, later);
    assert QuietUntil(es, es[i].key, i, j, AnswerAt(es, limit, i).resetAt);
    ResetIsExact(es, limit, i, j);
  }
}

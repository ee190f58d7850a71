/** The per-key sliding-window limiter of `server/internal/api/ratelimit.go`.

    The step functions below say what one locked operation does to the table of
    hits; class `RateLimiter` carries the operations out in place and is proved against them.
    Whole runs are the subject of `RateLimitRuns` and the modules that build on it. */
module RateLimit {
  import opened Basics

  const WINDOW: Time := 60 * SECOND

  /** The middleware installs no limiter at all when the configured limit is not positive. */
  type Limit = n: int | 1 <= n witness 1

  /** Admission times per key, oldest admission first. */
  type Hits = map<string, seq<Time>>

  datatype Answer = Answer(allowed: bool, remaining: int, resetAt: Time)

  function WindowOf(hits: Hits, key: string): seq<Time> {
    if key in hits then hits[key] else []
  }

  /** What a forward scan for `cutoff` leaves of a window: it stops at the first hit not before it. */
  function Trim(win: seq<Time>, cutoff: Time): (rest: seq<Time>)
    ensures |rest| <= |win|
    ensures rest != [] ==> cutoff <= rest[0]
  {
    if win == [] || cutoff <= win[0] then win else Trim(win[1..], cutoff)
  }

  /** The decision on an already trimmed window: a rejected request is not recorded. */
  function Decide(win: seq<Time>, limit: Limit, now: Time): (seq<Time>, Answer) {
    if |win| >= limit then
      (win, Answer(false, 0, win[0] + WINDOW))
    else
      var win' := win + [now];
      (win', Answer(true, limit - |win'|, win'[0] + WINDOW))
  }

  function AllowStep(hits: Hits, limit: Limit, key: string, now: Time): Hits {
    hits[key := Decide(Trim(WindowOf(hits, key), now - WINDOW), limit, now).0]
  }

  function AllowAnswer(hits: Hits, limit: Limit, key: string, now: Time): Answer {
    Decide(Trim(WindowOf(hits, key), now - WINDOW), limit, now).1
  }

  predicate Stale(win: seq<Time>, cutoff: Time) {
    win == [] || win[|win| - 1] < cutoff
  }

  function SweepStep(hits: Hits, now: Time): Hits {
    map k | k in hits && !Stale(hits[k], now - WINDOW) :: hits[k]
  }

  class RateLimiter {
    const limit: Limit
    var hits: Hits

    constructor (limit: Limit)
      ensures this.limit == limit && hits == map[]
    {
      this.limit := limit;
      hits := map[];
    }

    /** The source also deletes the key when the window is empty after the append;
        that branch cannot be taken, and it has no counterpart here. */
    method Allow(key: string, now: Time) returns (allowed: bool, remaining: int, resetAt: Time)
      modifies this
      ensures hits == AllowStep(old(hits), limit, key, now)
      ensures Answer(allowed, remaining, resetAt) == AllowAnswer(old(hits), limit, key, now)
    {
      var cutoff := now - WINDOW;
      var window := WindowOf(hits, key);
      var keep := 0;
      while keep < |window| && window[keep] < cutoff
        invariant keep <= |window|
        invariant Trim(window, cutoff) == Trim(window[keep..], cutoff)
      {
        assert window[keep..][1..] == window[keep + 1..];
        keep := keep + 1;
      }
      window := window[keep..];

      if |window| >= limit {
        var oldest := window[0];
        hits := hits[key := window];
        return false, 0, oldest + WINDOW;
      }

      window := window + [now];
      hits := hits[key := window];
      return true, limit - |window|, window[0] + WINDOW;
    }

    method Sweep(now: Time)
      modifies this
      ensures hits == SweepStep(old(hits), now)
    {
      var cutoff := now - WINDOW;
      var todo := hits.Keys;
      while todo != {}
        invariant todo <= hits.Keys
        invariant hits == map k | k in old(hits) && (k in todo || !Stale(old(hits)[k], cutoff)) :: old(hits)[k]
        decreases |todo|
      {
        var k :| k in todo;
        todo := todo - {k};
        if Stale(hits[k], cutoff) {
          hits := hits - {k};
        }
      }
    }

    method Size() returns (n: nat)
      ensures n == |hits|
    {
      n := |hits|;
    }
  }

  /** Go's conversion of a duration to whole seconds: towards zero. */
  function WholeSeconds(d: Time): int {
    if 0 <= d then d / SECOND else -((-d) / SECOND)
  }

  /** `time.Time.Unix`: whole seconds since the epoch, rounded down. */
  function UnixSeconds(t: Time): int {
    (t - UNIX_EPOCH) / SECOND
  }

  /** The Retry-After value, from a clock read after the decision. */
  function RetryAfter(reset: Time, clock: Time): int {
    WholeSeconds(reset - clock) + 1
  }

  /** The rate-limit headers; Retry-After goes out with a 429 only. */
  datatype Reply = Reply(tooMany: bool, limit: int, remaining: int, reset: int, retryAfter: int)

  function ReplyTo(answer: Answer, limit: Limit, clock: Time): Reply {
    Reply(!answer.allowed, limit, answer.remaining, UnixSeconds(answer.resetAt),
          if answer.allowed then 0 else RetryAfter(answer.resetAt, clock))
  }

  /** A 429 exactly on rejection; the reset header names the second that the reset lies in; Retry-After, with a
      429 only, ends within the second after the reset, or, if the reset has passed by the second reading of the
      clock, between one and two seconds after it. */
  ghost predicate IsReply(reply: Reply, answer: Answer, limit: Limit, clock: Time) {
    var opens, retry := UNIX_EPOCH + reply.reset * SECOND, clock + reply.retryAfter * SECOND;
    && (reply.tooMany <==> !answer.allowed)
    && reply.limit == limit && reply.remaining == answer.remaining
    && opens <= answer.resetAt < opens + SECOND
    && (!reply.tooMany ==> reply.retryAfter == 0)
    && (reply.tooMany && clock <= answer.resetAt ==> answer.resetAt < retry <= answer.resetAt + SECOND)
    && (reply.tooMany && answer.resetAt < clock ==>
          answer.resetAt + SECOND <= retry < answer.resetAt + 2 * SECOND)
  }

  lemma Euclid(d: Time)
    ensures d == d / SECOND * SECOND + d % SECOND && 0 <= d % SECOND < SECOND
  {
  }

  lemma ReplyIsReply(answer: Answer, limit: Limit, clock: Time)
    ensures IsReply(ReplyTo(answer, limit, clock), answer, limit, clock)
  {
    Euclid(answer.resetAt - UNIX_EPOCH);
    Euclid(answer.resetAt - clock);
    Euclid(clock - answer.resetAt);
  }

  /** What the middleware does with one request: `clock` is its second reading of the clock. */
  method Throttle(rl: RateLimiter, key: string, now: Time, clock: Time) returns (reply: Reply)
    modifies rl
    ensures rl.hits == AllowStep(old(rl.hits), rl.limit, key, now)
    ensures reply == ReplyTo(AllowAnswer(old(rl.hits), rl.limit, key, now), rl.limit, clock)
    ensures IsReply(reply, AllowAnswer(old(rl.hits), rl.limit, key, now), rl.limit, clock)
  {
    ReplyIsReply(AllowAnswer(rl.hits, rl.limit, key, now), rl.limit, clock);
    var allowed, remaining, resetAt := rl.Allow(key, now);
    reply := Reply(false, rl.limit, remaining, UnixSeconds(resetAt), 0);
    if !allowed {
      reply := reply.(tooMany := true, retryAfter := RetryAfter(resetAt, clock));
    }
  }
}

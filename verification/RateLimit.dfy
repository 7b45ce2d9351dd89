/**
 * The fixed-window counter of src/common/rate-limit/redis-rate-limiter.ts and
 * src/shared/rate-limit/rate-limit.service.ts, for one key. Redis is available;
 * a key is gone at or after its deadline; a key may lose its TTL.
 */
module RateLimit {
  import opened Options

  /** The Redis key: absent, or a count with the deadline PTTL reports (None: no TTL). */
  datatype Key = Absent | Counting(count: nat, deadline: Option<int>)

  datatype Reply = Reply(count: nat, ttl: int)

  function Live(k: Key, now: int): Key {
    if k.Counting? && k.deadline.Some? && k.deadline.value <= now then Absent else k
  }

  /** The Lua script: INCR, then PEXPIRE on the first hit or when the TTL is lost. */
  function Script(k: Key, now: int, window: int): (Key, Reply) {
    var live := Live(k, now);
    var count := if live.Absent? then 1 else live.count + 1;
    if live.Absent? || live.deadline.None? || count == 1
    then (Counting(count, Some(now + window)), Reply(count, window))
    else (Counting(count, live.deadline), Reply(count, live.deadline.value - now))
  }

  datatype HitResult = HitResult(allowed: bool, count: nat, limit: int, resetMs: int)
  datatype CheckResult = CheckResult(allowed: bool, remaining: int, resetMs: int)

  class RedisCounter {
    var key: Key

    constructor ()
      ensures key == Absent
    {
      key := Absent;
    }

    method Eval(now: int, window: int) returns (reply: Reply)
      modifies this
      ensures (key, reply) == Script(old(key), now, window)
    {
      if key.Counting? && key.deadline.Some? && key.deadline.value <= now {
        key := Absent;
      }
      var count := if key.Absent? then 1 else key.count + 1;
      key := Counting(count, if key.Absent? then None else key.deadline);
      var ttl := if key.deadline.None? then -1 else key.deadline.value - now;
      if count == 1 || ttl < 0 {
        key := key.(deadline := Some(now + window));
        ttl := window;
      }
      reply := Reply(count, ttl);
    }

    /** RedisRateLimiter.hit. */
    method Hit(now: int, limit: int, windowMs: int) returns (r: HitResult)
      modifies this
      ensures var w := if windowMs < 1 then 1 else windowMs;
              var (k, reply) := Script(old(key), now, w);
              && key == k
              && r.allowed == (reply.count <= limit) && r.count == reply.count && r.limit == limit
              && r.resetMs == (if reply.ttl < 0 then 0 else reply.ttl)
    {
      var reply := Eval(now, if windowMs < 1 then 1 else windowMs);
      r := HitResult(reply.count <= limit, reply.count, limit, if reply.ttl < 0 then 0 else reply.ttl);
    }

    /** RateLimitService.checkRateLimit. */
    method CheckRateLimit(now: int, maxRequests: int, windowMs: int) returns (r: CheckResult)
      modifies this
      ensures var (k, reply) := Script(old(key), now, windowMs);
              && key == k
              && r.allowed == (reply.count <= maxRequests)
              && r.remaining == (if maxRequests < reply.count then 0 else maxRequests - reply.count)
              && r.resetMs == now + (if reply.ttl < 0 then 0 else reply.ttl)
    {
      var reply := Eval(now, windowMs);
      r := CheckResult(reply.count <= maxRequests,
                       if maxRequests - reply.count < 0 then 0 else maxRequests - reply.count,
                       now + if reply.ttl < 0 then 0 else reply.ttl);
    }
  }

  // ----- timed traces

  datatype Event = HitAt(time: int) | TtlLostAt(time: int)

  function Next(k: Key, e: Event, window: int): Key {
    match e
    case HitAt(t) => Script(k, t, window).0
    case TtlLostAt(t) =>
      var live := Live(k, t);
      if live.Absent? then Absent else Counting(live.count, None)
  }

  /** Events in time order, none before `from`. */
  ghost predicate InOrder(trace: seq<Event>, from: int) {
    trace == [] || (from <= trace[0].time && InOrder(trace[1..], trace[0].time))
  }

  /** How many hits of the trace fall in [a, b] and are allowed under the limit. */
  ghost function AllowedIn(k: Key, trace: seq<Event>, window: int, limit: nat, a: int, b: int): nat
    decreases |trace|
  {
    if trace == [] then 0
    else
      var e := trace[0];
      var here := if e.HitAt? && a <= e.time <= b && Script(k, e.time, window).1.count <= limit then 1 else 0;
      here + AllowedIn(Next(k, e, window), trace[1..], window, limit, a, b)
  }

  ghost function Hits(trace: seq<Event>): nat {
    if trace == [] then 0 else (if trace[0].HitAt? then 1 else 0) + Hits(trace[1..])
  }

  // ----- at most twice the limit in any interval of one window

  /** No counter can restart before this time. */
  function EarliestRestart(k: Key, now: int, window: int): int {
    match k
    case Absent => now
    case Counting(_, Some(d)) => d
    case Counting(_, None) => now + window
  }

  function Remaining(k: Key, limit: nat): nat {
    if k.Absent? || k.count >= limit then 0 else limit - k.count
  }

  /** What can still be allowed in [a, a + window]: the rest of this window, and windows begun later. */
  function Budget(k: Key, now: int, window: int, limit: nat, a: int): nat {
    var e := EarliestRestart(k, now, window);
    if now > a + window then 0
    else if e <= a then 2 * limit
    else if e <= a + window then Remaining(k, limit) + limit
    else Remaining(k, limit)
  }

  /** Reachable keys: counted at least once, deadline at most one window away. */
  predicate KeyOk(k: Key, now: int, window: int) {
    k.Counting? ==> k.count >= 1 && (k.deadline.Some? ==> k.deadline.value <= now + window)
  }

  lemma NothingAfter(k: Key, trace: seq<Event>, now: int, window: int, limit: nat, a: int, b: int)
    requires InOrder(trace, now) && now > b
    ensures AllowedIn(k, trace, window, limit, a, b) == 0
    decreases |trace|
  {
    if trace == [] {
    } else {
      NothingAfter(Next(k, trace[0], window), trace[1..], trace[0].time, window, limit, a, b);
    }
  }

  /** One event spends at least what it allows. */
  lemma BudgetStep(k: Key, e: Event, now: int, window: int, limit: nat, a: int)
    requires window >= 1 && KeyOk(k, now, window) && now <= e.time <= a + window
    ensures KeyOk(Next(k, e, window), e.time, window)
    ensures var here := if e.HitAt? && a <= e.time && Script(k, e.time, window).1.count <= limit then 1 else 0;
            here + Budget(Next(k, e, window), e.time, window, limit, a) <= Budget(k, now, window, limit, a)
  {
  }

  lemma {:induction false} AllowedWithinBudget(k: Key, trace: seq<Event>, now: int, window: int, limit: nat, a: int)
    requires window >= 1 && KeyOk(k, now, window) && InOrder(trace, now)
    ensures AllowedIn(k, trace, window, limit, a, a + window) <= Budget(k, now, window, limit, a)
    decreases |trace|
  {
    if trace == [] {
    } else {
      var e := trace[0];
      var k' := Next(k, e, window);
      if e.time > a + window {
        NothingAfter(k', trace[1..], e.time, window, limit, a, a + window);
      } else {
        BudgetStep(k, e, now, window, limit, a);
        AllowedWithinBudget(k', trace[1..], e.time, window, limit, a);
      }
    }
  }

  /**
   * For every trace of hits and lost TTLs, at most 2 * limit hits are allowed in any closed
   * interval of one window's length.
   */
  lemma AtMostTwiceTheLimit(trace: seq<Event>, now: int, window: int, limit: nat, a: int)
    requires window >= 1 && InOrder(trace, now)
    ensures AllowedIn(Absent, trace, window, limit, a, a + window) <= 2 * limit
  {
    AllowedWithinBudget(Absent, trace, now, window, limit, a);
  }

  // ----- within one window: exactly the first `limit` hits

  /** The counter lives through the trace: no event finds it expired. */
  ghost predicate OneWindow(k: Key, trace: seq<Event>, window: int)
    decreases |trace|
  {
    trace == [] || (Live(k, trace[0].time).Counting? && OneWindow(Next(k, trace[0], window), trace[1..], window))
  }

  lemma {:induction false} CountingContinues(k: Key, trace: seq<Event>, window: int, limit: nat, a: int, b: int)
    requires k.Counting? && OneWindow(k, trace, window) && forall e :: e in trace ==> a <= e.time <= b
    ensures AllowedIn(k, trace, window, limit, a, b)
            == (if Hits(trace) <= Remaining(k, limit) then Hits(trace) else Remaining(k, limit))
    decreases |trace|
  {
    if trace == [] {
    } else {
      assert trace[0] in trace;
      assert forall e :: e in trace[1..] ==> e in trace;
      CountingContinues(Next(k, trace[0], window), trace[1..], window, limit, a, b);
    }
  }

  /**
   * The window a hit opens on an absent or expired key allows exactly its first `limit` hits,
   * however long it lasts because its TTL was lost and repaired.
   */
  lemma WindowAllowsExactlyLimit(k: Key, start: int, rest: seq<Event>, window: int, limit: nat, end: int)
    requires Live(k, start).Absent? && start <= end && forall e :: e in rest ==> start <= e.time <= end
    requires OneWindow(Next(k, HitAt(start), window), rest, window)
    ensures AllowedIn(k, [HitAt(start)] + rest, window, limit, start, end)
            == (if 1 + Hits(rest) <= limit then 1 + Hits(rest) else limit)
  {
    assert ([HitAt(start)] + rest)[1..] == rest;
    CountingContinues(Next(k, HitAt(start), window), rest, window, limit, start, end);
  }

  /** A window lasts at least its nominal length. */
  lemma {:induction false} WindowLastsNominally(k: Key, trace: seq<Event>, now: int, window: int, end: int)
    requires k.Counting? && InOrder(trace, now) && now + window >= end
    requires k.deadline.Some? ==> end <= k.deadline.value
    requires forall e :: e in trace ==> e.time < end
    ensures OneWindow(k, trace, window)
    decreases |trace|
  {
    if trace == [] {
    } else {
      assert trace[0] in trace;
      assert forall e :: e in trace[1..] ==> e in trace;
      WindowLastsNominally(Next(k, trace[0], window), trace[1..], trace[0].time, window, end);
    }
  }

  // ----- the reply

  function KeyAfter(k: Key, trace: seq<Event>, window: int): Key
    decreases |trace|
  {
    if trace == [] then k else KeyAfter(Next(k, trace[0], window), trace[1..], window)
  }

  lemma {:induction false} HitsKeepDeadline(k: Key, trace: seq<Event>, window: int, deadline: int)
    requires k.Counting? && k.count >= 1 && k.deadline == Some(deadline)
    requires forall e :: e in trace ==> e.HitAt? && e.time < deadline
    ensures KeyAfter(k, trace, window) == Counting(k.count + |trace|, Some(deadline))
    decreases |trace|
  {
    if trace == [] {
    } else {
      assert trace[0] in trace;
      assert forall e :: e in trace[1..] ==> e in trace;
      HitsKeepDeadline(Next(k, trace[0], window), trace[1..], window, deadline);
    }
  }

  /**
   * The reported TTL is positive and truthful: however often the key is hit before it runs out, the
   * counter has counted every hit and is gone exactly that long after the reply.
   */
  lemma ReplyTtlIsTruthful(k: Key, now: int, window: int, hits: seq<Event>, later: int)
    requires window >= 1
    requires var reply := Script(k, now, window).1; forall e :: e in hits ==> e.HitAt? && e.time < now + reply.ttl
    ensures var (k', reply) := Script(k, now, window);
            var key := KeyAfter(k', hits, window);
            && reply.ttl >= 1
            && reply.count == (if Live(k, now).Absent? then 0 else k.count) + 1
            && key.Counting? && key.count == reply.count + |hits|
            && (Live(key, later).Absent? <==> later >= now + reply.ttl)
  {
    var (k', reply) := Script(k, now, window);
    HitsKeepDeadline(k', hits, window, now + reply.ttl);
  }

  /**
   * A counter that loses its TTL keeps its count for as long as nobody hits it; the next hit is counted on
   * top and gives it a whole window again.
   */
  lemma LostTtlIsRepaired(k: Key, lost: int, now: int, window: int)
    requires Live(k, lost).Counting? && window >= 1
    ensures var k1 := Next(k, TtlLostAt(lost), window);
            && Live(k1, now) == Counting(k.count, None)
            && Script(k1, now, window) == (Counting(k.count + 1, Some(now + window)), Reply(k.count + 1, window))
  {
  }

  // ----- the bound is met

  /** n hits at once, and then the rest. */
  ghost function Burst(n: nat, t: int, rest: seq<Event>): seq<Event> {
    if n == 0 then rest else [HitAt(t)] + Burst(n - 1, t, rest)
  }

  lemma {:induction false} BurstInOrder(n: nat, from: int, t: int, rest: seq<Event>)
    requires InOrder(rest, t) && InOrder(rest, from) && from <= t
    ensures InOrder(Burst(n, t, rest), from)
    decreases n
  {
    if n == 0 {
    } else {
      BurstInOrder(n - 1, t, t, rest);
      assert Burst(n, t, rest)[1..] == Burst(n - 1, t, rest);
    }
  }

  /** A hit within window and limit is allowed and counted. */
  lemma HitThen(k: Key, t: int, tail: seq<Event>, window: int, limit: nat, a: int, b: int)
    requires a <= t <= b && Script(k, t, window).1.count <= limit
    ensures AllowedIn(k, [HitAt(t)] + tail, window, limit, a, b)
            == 1 + AllowedIn(Script(k, t, window).0, tail, window, limit, a, b)
  {
    assert ([HitAt(t)] + tail)[1..] == tail;
  }

  lemma {:induction false} BurstThen(k: Key, n: nat, t: int, rest: seq<Event>, window: int, limit: nat, a: int, b: int)
    requires window >= 1 && a <= t <= b && k.Counting? && k.count >= 1 && k.deadline == Some(t + window)
    requires k.count + n <= limit
    ensures AllowedIn(k, Burst(n, t, rest), window, limit, a, b)
            == n + AllowedIn(Counting(k.count + n, k.deadline), rest, window, limit, a, b)
    decreases n
  {
    hide AllowedIn;
    if n == 0 {
    } else {
      HitThen(k, t, Burst(n - 1, t, rest), window, limit, a, b);
      BurstThen(Counting(k.count + 1, k.deadline), n - 1, t, rest, window, limit, a, b);
    }
  }

  /** On an absent or expired key, `limit` hits at once are all allowed. */
  lemma FullBurst(k: Key, t: int, rest: seq<Event>, window: int, limit: nat, a: int, b: int)
    requires window >= 1 && limit >= 1 && a <= t <= b && Live(k, t).Absent?
    ensures AllowedIn(k, Burst(limit, t, rest), window, limit, a, b)
            == limit + AllowedIn(Counting(limit, Some(t + window)), rest, window, limit, a, b)
  {
    hide AllowedIn;
    HitThen(k, t, Burst(limit - 1, t, rest), window, limit, a, b);
    BurstThen(Counting(1, Some(t + window)), limit - 1, t, rest, window, limit, a, b);
  }

  lemma BurstsInOrder(window: int, limit: nat, t: int)
    requires window >= 1
    ensures InOrder(Burst(limit, t, Burst(limit, t + window, [])), t)
  {
    BurstInOrder(limit, t, t + window, []);
    BurstInOrder(limit, t, t, Burst(limit, t + window, []));
  }

  lemma NoEvents(k: Key, window: int, limit: nat, a: int, b: int)
    ensures AllowedIn(k, [], window, limit, a, b) == 0
  {
  }

  /** Two bursts one window apart: 2 * limit hits allowed in [t, t + window], so the bound is exact. */
  lemma TwiceTheLimitIsReached(window: int, limit: nat, t: int)
    requires window >= 1 && limit >= 1
    ensures var trace := Burst(limit, t, Burst(limit, t + window, []));
            && InOrder(trace, t)
            && AllowedIn(Absent, trace, window, limit, t, t + window) == 2 * limit
  {
    hide InOrder, Burst, AllowedIn;
    var second := Burst(limit, t + window, []);
    BurstsInOrder(window, limit, t);
    FullBurst(Absent, t, second, window, limit, t, t + window);
    FullBurst(Counting(limit, Some(t + window)), t + window, [], window, limit, t, t + window);
    NoEvents(Counting(limit, Some(t + 2 * window)), window, limit, t, t + window);
    assert t + window + window == t + 2 * window;
  }
}

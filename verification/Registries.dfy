/**
 * The socket registry (src/redis/redis-session.service.ts) and the typing registry
 * (src/redis/redis-cache.service.ts): sorted sets whose entries go stale one by one while the
 * whole key also has a TTL. Both are compared with an ideal map that never forgets.
 */
module Registries {
  import opened Options
  import opened SortedSets

  /** An entry written at `now` gets score now + offset, is live while score > now - stale; the key lives ttl. */
  datatype Config = Config(offset: int, stale: int, ttl: int)

  const SOCKETS := Config(0, 95_000, 120_000)
  const TYPING := Config(6_000, 0, 10_000)

  datatype Registry = Registry(z: ZSet, deadline: int)

  datatype Op =
    | Put(member: string)             // refreshSocket, setTyping
    | PutPurging(member: string)      // addSocket
    | Drop(member: string)            // clearTyping
    | DropPurging(member: string)     // removeSocket
    | List                            // getTypingUsers

  datatype Output = Nothing | Count(n: nat) | Users(names: seq<string>)

  function Effective(r: Registry, now: int): ZSet {
    if now >= r.deadline then [] else r.z
  }

  function Names(z: ZSet): seq<string> {
    seq(|z|, i requires 0 <= i < |z| => z[i].member)
  }

  /** The Redis commands of each operation, in order. */
  function Exec(cfg: Config, r: Registry, now: int, op: Op): (Registry, Output) {
    var z := Effective(r, now);
    match op
    case Put(m) => (Registry(ZAdd(z, now + cfg.offset, m), now + cfg.ttl), Nothing)
    case PutPurging(m) =>
      var z' := ZAdd(ZRemUpTo(z, now - cfg.stale), now + cfg.offset, m);
      (Registry(z', now + cfg.ttl), Count(|z'|))
    case Drop(m) => (Registry(ZRem(z, {m}), r.deadline), Nothing)
    case DropPurging(m) =>
      var z' := ZRemUpTo(ZRem(z, {m}), now - cfg.stale);
      (Registry(z', r.deadline), Count(|z'|))
    case List =>
      var z' := ZRemUpTo(z, now - cfg.stale);
      (Registry(z', r.deadline), Users(Names(z')))
  }

  class SocketRegistry {
    var z: ZSet
    var deadline: int

    constructor (start: int)
      ensures State() == Registry([], start)
    {
      z, deadline := [], start;
    }

    ghost function State(): Registry
      reads this
    {
      Registry(z, deadline)
    }

    method AddSocket(now: int, socketId: string) returns (count: nat)
      modifies this
      ensures (State(), Count(count)) == Exec(SOCKETS, old(State()), now, PutPurging(socketId))
    {
      if now >= deadline { z := []; }
      z := ZRemUpTo(z, now - SOCKETS.stale);
      z := ZAdd(z, now + SOCKETS.offset, socketId);
      deadline := now + SOCKETS.ttl;
      count := |z|;
    }

    method RefreshSocket(now: int, socketId: string)
      modifies this
      ensures (State(), Nothing) == Exec(SOCKETS, old(State()), now, Put(socketId))
    {
      if now >= deadline { z := []; }
      z := ZAdd(z, now + SOCKETS.offset, socketId);
      deadline := now + SOCKETS.ttl;
    }

    method RemoveSocket(now: int, socketId: string) returns (count: nat)
      modifies this
      ensures (State(), Count(count)) == Exec(SOCKETS, old(State()), now, DropPurging(socketId))
    {
      if now >= deadline { z := []; }
      z := ZRem(z, {socketId});
      z := ZRemUpTo(z, now - SOCKETS.stale);
      count := |z|;
    }
  }

  class TypingRegistry {
    var z: ZSet
    var deadline: int

    constructor (start: int)
      ensures State() == Registry([], start)
    {
      z, deadline := [], start;
    }

    ghost function State(): Registry
      reads this
    {
      Registry(z, deadline)
    }

    method SetTyping(now: int, userId: string)
      modifies this
      ensures (State(), Nothing) == Exec(TYPING, old(State()), now, Put(userId))
    {
      if now >= deadline { z := []; }
      z := ZAdd(z, now + TYPING.offset, userId);
      deadline := now + TYPING.ttl;
    }

    method ClearTyping(now: int, userId: string)
      modifies this
      ensures (State(), Nothing) == Exec(TYPING, old(State()), now, Drop(userId))
    {
      if now >= deadline { z := []; }
      z := ZRem(z, {userId});
    }

    /** ZREMRANGEBYSCORE -inf now, then ZRANGEBYSCORE now +inf. */
    method GetTypingUsers(now: int) returns (users: seq<string>)
      modifies this
      ensures (State(), Users(users)) == Exec(TYPING, old(State()), now, List)
    {
      if now >= deadline { z := []; }
      ghost var before := z;
      z := ZRemUpTo(z, now);
      NothingBelow(before, now);
      users := Names(ZRemUpTo(z, now - 1));
    }
  }

  /** After removing everything up to `now`, nothing below `now` is left to exclude. */
  lemma NothingBelow(z: ZSet, now: int)
    ensures ZRemUpTo(ZRemUpTo(z, now), now - 1) == ZRemUpTo(z, now)
  {
    ZRemUpToFacts(z, now);
    KeepAll(ZRemUpTo(z, now), now - 1);
  }

  lemma {:induction false} KeepAll(z: ZSet, max: int)
    requires forall e :: e in z ==> e.score > max
    ensures ZRemUpTo(z, max) == z
  {
    if z == [] {
    } else {
      assert z[0] in z;
      KeepAll(z[1..], max);
      assert z == [z[0]] + z[1..];
    }
  }

  // ----- the ideal registry

  /** Scores by member, never expired and never purged. */
  type Ideal = map<string, int>

  function IdealNext(cfg: Config, ideal: Ideal, now: int, op: Op): Ideal {
    match op
    case Put(m) => ideal[m := now + cfg.offset]
    case PutPurging(m) => ideal[m := now + cfg.offset]
    case Drop(m) => ideal - {m}
    case DropPurging(m) => ideal - {m}
    case List => ideal
  }

  predicate LiveIn(e: Entry, ideal: Ideal, cut: int) {
    e.member in ideal && ideal[e.member] == e.score && e.score > cut
  }

  /** The live part of the ideal map as a sorted set. */
  ghost predicate IsLiveView(z: ZSet, ideal: Ideal, cut: int) {
    IsZSet(z) && forall e :: e in z <==> LiveIn(e, ideal, cut)
  }

  /** There is only one. */
  lemma LiveViewUnique(y: ZSet, z: ZSet, ideal: Ideal, cut: int)
    requires IsLiveView(y, ideal, cut) && IsLiveView(z, ideal, cut)
    ensures y == z
  {
    SameEntries(y, z);
  }

  /** The names of the live view, in its order. */
  ghost predicate ListsLive(out: Output, ideal: Ideal, cut: int) {
    && (exists z :: IsLiveView(z, ideal, cut))
    && (forall z :: IsLiveView(z, ideal, cut) ==> out == Users(Names(z)))
  }

  lemma ViewIsListed(z: ZSet, ideal: Ideal, cut: int)
    requires IsLiveView(z, ideal, cut)
    ensures ListsLive(Users(Names(z)), ideal, cut)
  {
    hide IsLiveView;
    forall y | IsLiveView(y, ideal, cut)
      ensures Names(y) == Names(z)
    {
      LiveViewUnique(y, z, ideal, cut);
    }
  }

  function LiveMembers(ideal: Ideal, cut: int): set<string> {
    set m | m in ideal && ideal[m] > cut
  }

  /** What the ideal registry answers after the operation. */
  ghost predicate Answers(cfg: Config, out: Output, ideal: Ideal, now: int, op: Op) {
    match op
    case Put(_) => out == Nothing
    case Drop(_) => out == Nothing
    case List => ListsLive(out, ideal, now - cfg.stale)
    case _ => out == Count(|LiveMembers(ideal, now - cfg.stale)|)
  }

  datatype Timed = Timed(now: int, op: Op)

  ghost predicate InOrder(trace: seq<Timed>, from: int) {
    trace == [] || (from <= trace[0].now && InOrder(trace[1..], trace[0].now))
  }

  /** Every answer of the Redis registry is the ideal one. */
  ghost predicate Agrees(cfg: Config, r: Registry, ideal: Ideal, trace: seq<Timed>)
    decreases |trace|
  {
    trace == [] ||
    (var (r', out) := Exec(cfg, r, trace[0].now, trace[0].op);
     var ideal' := IdealNext(cfg, ideal, trace[0].now, trace[0].op);
     Answers(cfg, out, ideal', trace[0].now, trace[0].op) && Agrees(cfg, r', ideal', trace[1..]))
  }

  // ----- simulation

  /** Same live entries; and the key outlives the liveness of everything in it. */
  ghost predicate Rel(cfg: Config, z: ZSet, deadline: int, ideal: Ideal, now: int) {
    && IsZSet(z)
    && (forall e :: e in z ==> e.score + cfg.stale <= deadline)
    && (forall e: Entry :: e.score > now - cfg.stale ==> (e in z <==> LiveIn(e, ideal, now - cfg.stale)))
  }

  /** Key expiry only drops entries that are already stale. */
  lemma ExpiryIsHarmless(cfg: Config, r: Registry, ideal: Ideal, t: int, now: int)
    requires Rel(cfg, r.z, r.deadline, ideal, t) && t <= now
    ensures Rel(cfg, Effective(r, now), r.deadline, ideal, now)
  {
    forall e: Entry | e.score > now - cfg.stale
      ensures e in Effective(r, now) <==> LiveIn(e, ideal, now - cfg.stale)
    {
      assert e in r.z <==> LiveIn(e, ideal, t - cfg.stale);
    }
  }

  lemma PurgeKeepsRel(cfg: Config, z: ZSet, deadline: int, ideal: Ideal, now: int)
    requires Rel(cfg, z, deadline, ideal, now)
    ensures Rel(cfg, ZRemUpTo(z, now - cfg.stale), deadline, ideal, now)
    ensures IsLiveView(ZRemUpTo(z, now - cfg.stale), ideal, now - cfg.stale)
  {
    ZRemUpToFacts(z, now - cfg.stale);
  }

  lemma PutKeepsRel(cfg: Config, z: ZSet, deadline: int, ideal: Ideal, now: int, m: string)
    requires Rel(cfg, z, deadline, ideal, now) && deadline <= now + cfg.ttl && cfg.offset + cfg.stale <= cfg.ttl
    ensures Rel(cfg, ZAdd(z, now + cfg.offset, m), now + cfg.ttl, ideal[m := now + cfg.offset], now)
  {
    ZAddFacts(z, now + cfg.offset, m);
  }

  lemma DropKeepsRel(cfg: Config, z: ZSet, deadline: int, ideal: Ideal, now: int, m: string)
    requires Rel(cfg, z, deadline, ideal, now)
    ensures Rel(cfg, ZRem(z, {m}), deadline, ideal - {m}, now)
  {
    ZRemFacts(z, {m});
  }

  lemma LiveViewCount(z: ZSet, ideal: Ideal, cut: int)
    requires IsLiveView(z, ideal, cut)
    ensures |z| == |LiveMembers(ideal, cut)|
  {
    CardIsMembers(z);
    assert Members(z) == LiveMembers(ideal, cut) by {
      forall m | m in LiveMembers(ideal, cut)
        ensures m in Members(z)
      {
        assert LiveIn(Entry(ideal[m], m), ideal, cut);
        assert Entry(ideal[m], m) in z;
      }
    }
  }

  lemma StepAgrees(cfg: Config, r: Registry, ideal: Ideal, t: int, now: int, op: Op)
    requires 0 < cfg.offset + cfg.stale <= cfg.ttl
    requires Rel(cfg, r.z, r.deadline, ideal, t) && t <= now && r.deadline <= t + cfg.ttl
    ensures var (r', out) := Exec(cfg, r, now, op);
            var ideal' := IdealNext(cfg, ideal, now, op);
            && Rel(cfg, r'.z, r'.deadline, ideal', now) && r'.deadline <= now + cfg.ttl
            && Answers(cfg, out, ideal', now, op)
  {
    hide Rel, IsLiveView, LiveMembers, ListsLive;
    var z, cut := Effective(r, now), now - cfg.stale;
    ExpiryIsHarmless(cfg, r, ideal, t, now);
    match op {
      case Put(m) =>
        PutKeepsRel(cfg, z, r.deadline, ideal, now, m);
      case PutPurging(m) =>
        var purged := ZRemUpTo(z, cut);
        PurgeKeepsRel(cfg, z, r.deadline, ideal, now);
        PutKeepsRel(cfg, purged, r.deadline, ideal, now, m);
        AddToPurged(cfg, purged, ideal, now, m);
        LiveViewCount(ZAdd(purged, now + cfg.offset, m), ideal[m := now + cfg.offset], cut);
      case Drop(m) =>
        DropKeepsRel(cfg, z, r.deadline, ideal, now, m);
      case DropPurging(m) =>
        DropKeepsRel(cfg, z, r.deadline, ideal, now, m);
        PurgeKeepsRel(cfg, ZRem(z, {m}), r.deadline, ideal - {m}, now);
        LiveViewCount(ZRemUpTo(ZRem(z, {m}), cut), ideal - {m}, cut);
      case List =>
        PurgeKeepsRel(cfg, z, r.deadline, ideal, now);
        ViewIsListed(ZRemUpTo(z, cut), ideal, cut);
    }
  }

  /** The entry just added is live, so the purged set stays the live view. */
  lemma AddToPurged(cfg: Config, z: ZSet, ideal: Ideal, now: int, m: string)
    requires IsLiveView(z, ideal, now - cfg.stale) && cfg.offset + cfg.stale > 0
    ensures IsLiveView(ZAdd(z, now + cfg.offset, m), ideal[m := now + cfg.offset], now - cfg.stale)
  {
    ZAddFacts(z, now + cfg.offset, m);
  }

  lemma {:induction false} TraceAgrees(cfg: Config, r: Registry, ideal: Ideal, t: int, trace: seq<Timed>)
    requires 0 < cfg.offset + cfg.stale <= cfg.ttl && InOrder(trace, t)
    requires Rel(cfg, r.z, r.deadline, ideal, t) && r.deadline <= t + cfg.ttl
    ensures Agrees(cfg, r, ideal, trace)
    decreases |trace|
  {
    hide Rel, Answers;
    if trace == [] {
    } else {
      var Timed(now, op) := trace[0];
      StepAgrees(cfg, r, ideal, t, now, op);
      TraceAgrees(cfg, Exec(cfg, r, now, op).0, IdealNext(cfg, ideal, now, op), now, trace[1..]);
    }
  }

  /** For every timed trace, both registries answer exactly as the ideal map of last beats or expiries does. */
  lemma RegistriesAreIdeal(trace: seq<Timed>, start: int)
    requires InOrder(trace, start)
    ensures Agrees(SOCKETS, Registry([], start), map[], trace)
    ensures Agrees(TYPING, Registry([], start), map[], trace)
  {
    TraceAgrees(SOCKETS, Registry([], start), map[], start, trace);
    TraceAgrees(TYPING, Registry([], start), map[], start, trace);
  }

  /**
   * The TTLs could not be shorter: a registry agrees with the ideal one on every trace
   * if and only if the key lives at least as long as an entry stays live.
   */
  lemma AgreementNeedsTtl(cfg: Config)
    requires 0 < cfg.offset + cfg.stale && 0 <= cfg.ttl
    ensures cfg.offset + cfg.stale <= cfg.ttl <==>
            forall trace, start :: InOrder(trace, start) ==> Agrees(cfg, Registry([], start), map[], trace)
  {
    if cfg.offset + cfg.stale <= cfg.ttl {
      forall trace, start | InOrder(trace, start)
        ensures Agrees(cfg, Registry([], start), map[], trace)
      {
        TraceAgrees(cfg, Registry([], start), map[], start, trace);
      }
    } else {
      ShortTtlForgets(cfg);
    }
  }

  lemma ShortTtlForgets(cfg: Config)
    requires cfg.offset + cfg.stale > cfg.ttl >= 0
    ensures var trace := [Timed(0, Put("a")), Timed(cfg.ttl, List)];
            InOrder(trace, 0) && !Agrees(cfg, Registry([], 0), map[], trace)
  {
    var ask := Timed(cfg.ttl, List);
    var trace := [Timed(0, Put("a")), ask];
    assert trace[1..] == [ask] && [ask][1..] == [];
    var r := Exec(cfg, Registry([], 0), 0, Put("a")).0;
    var ideal := IdealNext(cfg, map[], 0, Put("a"));
    assert Effective(r, cfg.ttl) == [];
    var out := Exec(cfg, r, cfg.ttl, List).1;
    assert out == Users([]) by { assert Names([]) == []; }
    forall z | IsLiveView(z, ideal, cfg.ttl - cfg.stale)
      ensures Names(z) != []
    {
      assert LiveIn(Entry(cfg.offset, "a"), ideal, cfg.ttl - cfg.stale);
      assert Entry(cfg.offset, "a") in z;
    }
    assert !Answers(cfg, out, ideal, cfg.ttl, List);
    assert !Agrees(cfg, r, ideal, [ask]);
  }

  // ----- the ideal registry, read off the trace

  function IdealAfter(cfg: Config, past: seq<Timed>): Ideal {
    if past == [] then map[]
    else IdealNext(cfg, IdealAfter(cfg, past[..|past| - 1]), past[|past| - 1].now, past[|past| - 1].op)
  }

  /** When the member last beat, unless it was dropped since. */
  function LastBeat(past: seq<Timed>, m: string): Option<int> {
    if past == [] then None
    else
      var last := past[|past| - 1];
      if last.op == Put(m) || last.op == PutPurging(m) then Some(last.now)
      else if last.op == Drop(m) || last.op == DropPurging(m) then None
      else LastBeat(past[..|past| - 1], m)
  }

  lemma {:induction false} IdealIsLastBeat(cfg: Config, past: seq<Timed>, m: string)
    ensures m in IdealAfter(cfg, past) <==> LastBeat(past, m).Some?
    ensures m in IdealAfter(cfg, past) ==> IdealAfter(cfg, past)[m] == LastBeat(past, m).value + cfg.offset
  {
    if past == [] {
    } else {
      IdealIsLastBeat(cfg, past[..|past| - 1], m);
    }
  }

  /** What the Redis registry answers last in a trace. */
  function LastAnswer(cfg: Config, r: Registry, trace: seq<Timed>): Output
    requires trace != []
    decreases |trace|
  {
    var (r', out) := Exec(cfg, r, trace[0].now, trace[0].op);
    if |trace| == 1 then out else LastAnswer(cfg, r', trace[1..])
  }

  lemma {:induction false} LastAgrees(cfg: Config, r: Registry, past: seq<Timed>, trace: seq<Timed>)
    requires trace != [] && Agrees(cfg, r, IdealAfter(cfg, past), trace)
    ensures var last := trace[|trace| - 1];
            Answers(cfg, LastAnswer(cfg, r, trace), IdealAfter(cfg, past + trace), last.now, last.op)
    decreases |trace|
  {
    hide Answers;
    var now := past + [trace[0]];
    assert now[..|past|] == past && now[|past|] == trace[0];
    assert past + trace == now + trace[1..];
    if |trace| == 1 {
      assert past + trace == now;
    } else {
      LastAgrees(cfg, Exec(cfg, r, trace[0].now, trace[0].op).0, now, trace[1..]);
    }
  }

  lemma LastIsIdeal(cfg: Config, trace: seq<Timed>, start: int)
    requires trace != [] && InOrder(trace, start) && (cfg == SOCKETS || cfg == TYPING)
    ensures var last := trace[|trace| - 1];
            Answers(cfg, LastAnswer(cfg, Registry([], start), trace), IdealAfter(cfg, trace), last.now, last.op)
  {
    hide Answers, LastAnswer;
    RegistriesAreIdeal(trace, start);
    LastAgrees(cfg, Registry([], start), [], trace);
    assert [] + trace == trace;
  }

  /**
   * After any timed trace, adding or removing a socket reports the number of sockets whose last beat is less
   * than 95 seconds old and that were not removed since.
   */
  lemma SocketsCountRecentBeats(trace: seq<Timed>, start: int, live: set<string>)
    requires trace != [] && InOrder(trace, start)
    requires trace[|trace| - 1].op.PutPurging? || trace[|trace| - 1].op.DropPurging?
    requires forall m :: m in live <==>
               LastBeat(trace, m).Some? && LastBeat(trace, m).value > trace[|trace| - 1].now - 95_000
    ensures LastAnswer(SOCKETS, Registry([], start), trace) == Count(|live|)
  {
    hide InOrder, Agrees, LastAnswer, LastBeat, IdealAfter;
    LastIsIdeal(SOCKETS, trace, start);
    var ideal := IdealAfter(SOCKETS, trace);
    forall m
      ensures m in live <==> m in ideal && ideal[m] > trace[|trace| - 1].now - 95_000
    {
      IdealIsLastBeat(SOCKETS, trace, m);
    }
    assert live == LiveMembers(ideal, trace[|trace| - 1].now - 95_000);
  }

  /**
   * After any timed trace, the listing names exactly the users who set typing less than six seconds ago and
   * have not cleared it since, each once.
   */
  lemma TypingListsRecentUsers(trace: seq<Timed>, start: int)
    requires trace != [] && InOrder(trace, start) && trace[|trace| - 1].op.List?
    ensures var out := LastAnswer(TYPING, Registry([], start), trace);
            && out.Users?
            && (forall m :: m in out.names <==>
                  LastBeat(trace, m).Some? && LastBeat(trace, m).value + 6_000 > trace[|trace| - 1].now)
            && forall i, j :: 0 <= i < j < |out.names| ==> out.names[i] != out.names[j]
  {
    hide InOrder, Agrees, LastAnswer, LastBeat, IdealAfter, IsLiveView;
    LastIsIdeal(TYPING, trace, start);
    var ideal, now := IdealAfter(TYPING, trace), trace[|trace| - 1].now;
    var z :| IsLiveView(z, ideal, now);
    NamesOfView(z, ideal, now);
    forall m
      ensures m in LiveMembers(ideal, now) <==> LastBeat(trace, m).Some? && LastBeat(trace, m).value + 6_000 > now
    {
      IdealIsLastBeat(TYPING, trace, m);
    }
  }

  lemma NamesOfView(z: ZSet, ideal: Ideal, cut: int)
    requires IsLiveView(z, ideal, cut)
    ensures forall m :: m in Names(z) <==> m in LiveMembers(ideal, cut)
    ensures forall i, j :: 0 <= i < j < |Names(z)| ==> Names(z)[i] != Names(z)[j]
  {
    forall m
      ensures m in Names(z) <==> m in LiveMembers(ideal, cut)
    {
      if m in LiveMembers(ideal, cut) {
        assert LiveIn(Entry(ideal[m], m), ideal, cut);
        var i :| 0 <= i < |z| && z[i] == Entry(ideal[m], m);
        assert Names(z)[i] == m;
      }
      if m in Names(z) {
        var i :| 0 <= i < |z| && Names(z)[i] == m;
        assert z[i] in z;
      }
    }
  }
}

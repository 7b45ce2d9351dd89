/**
 * Offline delivery: jobs made by dispatchNewMessage (src/modules/messages/messages.service.ts) and run
 * by runMessageDelivery (src/shared/queues/message-delivery.job.ts) add to per-user sorted sets;
 * popPendingMessages (src/redis/redis-session.service.ts) reads a batch and then removes exactly it.
 */
module DeliveryQueue {
  import opened Options
  import opened Selections
  import opened SortedSets

  const PENDING_TTL_MS: int := 7 * 86_400 * 1000

  type UserId = string

  /** A message with its JSON text and `Date.parse(createdAt)`, None where that is NaN. */
  datatype Message = Message(json: string, senderId: UserId, createdMs: Option<int>)

  /** `Date.parse(message.createdAt) || Date.now()`. */
  function Score(m: Message, now: int): int {
    if m.createdMs.None? || m.createdMs.value == 0 then now else m.createdMs.value
  }

  datatype Job = Job(message: Message, recipientIds: seq<UserId>, offlineUserIds: seq<UserId>)

  function Except(ids: seq<UserId>, drop: set<UserId>): seq<UserId> {
    if ids == [] then [] else (if ids[0] in drop then [] else [ids[0]]) + Except(ids[1..], drop)
  }

  /** `connected` is None when the room could not be asked: then every recipient is queued. */
  function MakeJob(m: Message, memberIds: seq<UserId>, connected: Option<set<UserId>>): Job {
    var recipients := Except(memberIds, {m.senderId});
    Job(m, recipients, Except(recipients, if connected.Some? then connected.value else {}))
  }

  lemma {:induction false} ExceptMembers(ids: seq<UserId>, drop: set<UserId>)
    ensures forall u :: u in Except(ids, drop) <==> u in ids && u !in drop
  {
    if ids == [] {
    } else {
      ExceptMembers(ids[1..], drop);
      assert ids == [ids[0]] + ids[1..];
    }
  }

  // ----- one user's key

  /** The key, and the history of it: when each text was last queued, and which were handed out. */
  datatype Box = Box(z: ZSet, deadline: int, queuedAt: map<string, int>, returned: set<string>)

  const NO_BOX := Box([], 0, map[], {})

  function Visible(b: Box, now: int): ZSet {
    if now >= b.deadline then [] else b.z
  }

  function Queued(b: Box, now: int, score: int, json: string): Box {
    Box(ZAdd(Visible(b, now), score, json), now + PENDING_TTL_MS, b.queuedAt[json := now], b.returned)
  }

  /** The members of the first n entries. */
  function FirstTexts(z: ZSet, n: nat): seq<string> {
    seq(if |z| < n then |z| else n, i requires 0 <= i < |z| => z[i].member)
  }

  /** ZRANGE 0 limit-1, which for limit 0 is the whole set. */
  function ReadBatch(z: ZSet, limit: nat): seq<string> {
    FirstTexts(z, if limit == 0 then |z| else limit)
  }

  function Texts(raw: seq<string>): set<string> {
    set t | t in raw
  }

  function Removed(b: Box, now: int, raw: seq<string>): Box {
    b.(z := ZRem(Visible(b, now), Texts(raw)), returned := b.returned + Texts(raw))
  }

  /** Still waiting, handed out at least once, or past its seven days. */
  ghost predicate Accounted(b: Box, now: int, t: string)
    requires t in b.queuedAt
  {
    t in Members(Visible(b, now)) || t in b.returned || now >= b.queuedAt[t] + PENDING_TTL_MS
  }

  ghost predicate BoxOk(b: Box, now: int) {
    && IsZSet(b.z)
    && (forall t :: t in b.queuedAt ==> b.queuedAt[t] <= now && b.queuedAt[t] + PENDING_TTL_MS <= b.deadline)
    && (forall t :: t in b.queuedAt ==> Accounted(b, now, t))
    && (forall e :: e in b.z ==> e.member in b.queuedAt)
    && (forall t :: t in b.returned ==> t in b.queuedAt)
  }

  lemma WaitKeepsBox(b: Box, now: int, later: int)
    requires BoxOk(b, now) && now <= later
    ensures BoxOk(b, later)
  {
    forall t | t in b.queuedAt
      ensures Accounted(b, later, t)
    {
      assert Accounted(b, now, t);
    }
  }

  lemma QueueKeepsBox(b: Box, now: int, score: int, json: string)
    requires BoxOk(b, now)
    ensures BoxOk(Queued(b, now, score, json), now)
  {
    var z, b' := Visible(b, now), Queued(b, now, score, json);
    assert IsZSet([]);
    ZAddFacts(z, score, json);
    assert Entry(score, json) in b'.z;
    forall t | t in b'.queuedAt
      ensures b'.queuedAt[t] + PENDING_TTL_MS <= b'.deadline && Accounted(b', now, t)
    {
      if t == json {
        assert json in Members(b'.z);
      } else {
        assert Accounted(b, now, t);
        if t in Members(z) {
          var e :| e in z && e.member == t;
          assert e in b'.z;
        }
      }
    }
  }

  lemma RemoveKeepsBox(b: Box, now: int, raw: seq<string>)
    requires BoxOk(b, now) && forall t :: t in raw ==> t in b.queuedAt
    ensures BoxOk(Removed(b, now, raw), now)
  {
    var z, b' := Visible(b, now), Removed(b, now, raw);
    assert IsZSet([]);
    ZRemFacts(z, Texts(raw));
    forall t | t in b'.queuedAt
      ensures Accounted(b', now, t)
    {
      assert Accounted(b, now, t);
      if t in Members(z) && t !in Texts(raw) {
        var e :| e in z && e.member == t;
        assert e in b'.z;
        assert b'.z == Visible(b', now) by {
          assert now < b.deadline;
        }
      }
    }
  }

  // ----- the whole system

  type Boxes = map<UserId, Box>

  function BoxOf(boxes: Boxes, u: UserId): Box {
    if u in boxes then boxes[u] else NO_BOX
  }

  /** The MULTI of addPendingMessage: one ZADD and EXPIRE per user. */
  function Enqueue(boxes: Boxes, users: seq<UserId>, now: int, score: int, json: string): Boxes {
    if users == [] then boxes
    else
      var front := Enqueue(boxes, users[..|users| - 1], now, score, json);
      var u := users[|users| - 1];
      front[u := Queued(BoxOf(front, u), now, score, json)]
  }

  /** The texts that parse, in order: corrupt entries are skipped. */
  function Parsed<M>(raw: seq<string>, parse: string -> Option<M>): seq<M> {
    if raw == [] then []
    else
      var m := parse(raw[|raw| - 1]);
      Parsed(raw[..|raw| - 1], parse) + if m.Some? then [m.value] else []
  }

  /** Exactly the texts that parse, each once, in order. */
  ghost predicate HandsOut<M>(messages: seq<M>, raw: seq<string>, parse: string -> Option<M>) {
    exists places ::
      && ArePlaces(places, |raw|) && |places| == |messages|
      && (forall i :: 0 <= i < |places| ==> parse(raw[places[i]]) == Some(messages[i]))
      && forall k :: 0 <= k < |raw| && parse(raw[k]).Some? ==> k in places
  }

  lemma {:induction false} ParsedPlaces<M>(raw: seq<string>, parse: string -> Option<M>) returns (places: seq<int>)
    ensures ArePlaces(places, |raw|) && |places| == |Parsed(raw, parse)|
    ensures forall i :: 0 <= i < |places| ==> parse(raw[places[i]]) == Some(Parsed(raw, parse)[i])
    ensures forall k :: 0 <= k < |raw| && parse(raw[k]).Some? ==> k in places
  {
    if raw == [] {
      return [];
    }
    var n := |raw| - 1;
    var front := ParsedPlaces(raw[..n], parse);
    OneMorePlace(front, n);
    places := front + if parse(raw[n]).Some? then [n] else [];
    assert Parsed(raw, parse) == Parsed(raw[..n], parse) + if parse(raw[n]).Some? then [parse(raw[n]).value] else [];
    assert forall i :: 0 <= i < |front| ==> raw[..n][front[i]] == raw[front[i]];
    forall k | 0 <= k < |raw| && parse(raw[k]).Some?
      ensures k in places
    {
      assert k < n ==> parse(raw[..n][k]).Some?;
    }
  }

  lemma ParsedHandsOut<M>(raw: seq<string>, parse: string -> Option<M>)
    ensures HandsOut(Parsed(raw, parse), raw, parse)
  {
    var places := ParsedPlaces(raw, parse);
  }

  /** If every text parses, every one is handed out in its place. */
  lemma {:induction false} AllParsed<M>(raw: seq<string>, parse: string -> Option<M>)
    requires forall k :: 0 <= k < |raw| ==> parse(raw[k]).Some?
    ensures |Parsed(raw, parse)| == |raw|
    ensures forall k :: 0 <= k < |raw| ==> Parsed(raw, parse)[k] == parse(raw[k]).value
  {
    if raw == [] {
    } else {
      AllParsed(raw[..|raw| - 1], parse);
    }
  }

  class PendingStore {
    var boxes: Boxes

    constructor ()
      ensures boxes == map[]
    {
      boxes := map[];
    }

    method AddPendingMessage(users: seq<UserId>, m: Message, now: int)
      modifies this
      ensures boxes == Enqueue(old(boxes), users, now, Score(m, now), m.json)
    {
      var score := Score(m, now);
      var i := 0;
      assert users[..0] == [];
      while i < |users|
        invariant 0 <= i <= |users|
        invariant boxes == Enqueue(old(boxes), users[..i], now, score, m.json)
      {
        assert users[..i + 1][..i] == users[..i];
        boxes := boxes[users[i] := Queued(BoxOf(boxes, users[i]), now, score, m.json)];
        i := i + 1;
      }
      assert users[..i] == users;
    }

    /** Both halves of a pop with nothing in between. */
    method PopPendingMessages<M>(user: UserId, limit: nat, now: int, parse: string -> Option<M>)
      returns (messages: seq<M>, remaining: nat)
      modifies this
      ensures var z := Visible(BoxOf(old(boxes), user), now);
              var raw := ReadBatch(z, limit);
              && messages == Parsed(raw, parse) && HandsOut(messages, raw, parse)
              && remaining == (if raw == [] then 0 else |ZRem(z, Texts(raw))|)
              && boxes == (if raw == [] then old(boxes)
                           else old(boxes)[user := Removed(BoxOf(old(boxes), user), now, raw)])
    {
      var box := BoxOf(boxes, user);
      var raw := ReadBatch(Visible(box, now), limit);
      ParsedHandsOut(raw, parse);
      if raw == [] {
        return [], 0;
      }
      boxes := boxes[user := Removed(box, now, raw)];
      remaining := |boxes[user].z|;
      messages := [];
      var i := 0;
      assert raw[..0] == [];
      while i < |raw|
        invariant 0 <= i <= |raw|
        invariant messages == Parsed(raw[..i], parse)
      {
        assert raw[..i + 1][..i] == raw[..i];
        var m := parse(raw[i]);
        if m.Some? {
          messages := messages + [m.value];
        }
        i := i + 1;
      }
      assert raw[..i] == raw;
    }
  }

  ghost predicate BoxesOk(boxes: Boxes, now: int) {
    forall u :: BoxOk(BoxOf(boxes, u), now)
  }

  /** No text is forgotten to have been queued. */
  ghost predicate Remembers(boxes: Boxes, boxes': Boxes) {
    forall u :: BoxOf(boxes, u).queuedAt.Keys <= BoxOf(boxes', u).queuedAt.Keys
  }

  lemma UpdateBox(boxes: Boxes, u: UserId, b: Box, boxes': Boxes, now: int)
    requires boxes' == boxes[u := b] && BoxesOk(boxes, now) && BoxOk(b, now)
    requires BoxOf(boxes, u).queuedAt.Keys <= b.queuedAt.Keys
    ensures BoxesOk(boxes', now) && Remembers(boxes, boxes')
  {
    hide BoxOk;
    forall w
      ensures BoxOk(BoxOf(boxes', w), now)
    {
      assert BoxOk(BoxOf(boxes, w), now);
    }
  }

  lemma {:induction false} EnqueueKeeps(boxes: Boxes, users: seq<UserId>, now: int, score: int, json: string)
    requires BoxesOk(boxes, now)
    ensures var boxes' := Enqueue(boxes, users, now, score, json);
            BoxesOk(boxes', now) && Remembers(boxes, boxes')
  {
    hide BoxOk;
    if users == [] {
    } else {
      var front, u := users[..|users| - 1], users[|users| - 1];
      EnqueueKeeps(boxes, front, now, score, json);
      var mid := Enqueue(boxes, front, now, score, json);
      QueueKeepsBox(BoxOf(mid, u), now, score, json);
      UpdateBox(mid, u, Queued(BoxOf(mid, u), now, score, json), Enqueue(boxes, users, now, score, json), now);
    }
  }

  lemma {:induction false} EnqueueReaches(boxes: Boxes, users: seq<UserId>, now: int, score: int, json: string,
                                          u: UserId)
    requires u in users
    ensures json in BoxOf(Enqueue(boxes, users, now, score, json), u).queuedAt
  {
    var front, last := users[..|users| - 1], users[|users| - 1];
    if u != last {
      assert users == front + [last];
      EnqueueReaches(boxes, front, now, score, json, u);
    }
  }

  /** One broadcast: who the members were, and who was seen connected. */
  datatype Broadcast = Broadcast(message: Message, memberIds: seq<UserId>, connected: Option<set<UserId>>)

  datatype Reader = Reader(user: UserId, raw: seq<string>)

  datatype System = System(
    now: int, boxes: Boxes, broadcasts: seq<Broadcast>, ran: set<nat>, readers: map<nat, Reader>)

  datatype Step =
    | Wait(ms: nat)
    | Dispatch(b: Broadcast)
    | RunJob(i: nat)                                  // any number of times
    | PopRead(c: nat, user: UserId, limit: nat)
    | PopRemove(c: nat)

  predicate Enabled(s: System, step: Step) {
    match step
    case Wait(_) => true
    case Dispatch(_) => true
    case RunJob(i) => i < |s.broadcasts|
    case PopRead(c, _, _) => c !in s.readers
    case PopRemove(c) => c in s.readers
  }

  function Do(s: System, step: Step): System
    requires Enabled(s, step)
  {
    match step
    case Wait(ms) => s.(now := s.now + ms)
    case Dispatch(b) => s.(broadcasts := s.broadcasts + [b])
    case RunJob(i) =>
      var b := s.broadcasts[i];
      var job := MakeJob(b.message, b.memberIds, b.connected);
      s.(boxes := Enqueue(s.boxes, job.offlineUserIds, s.now, Score(b.message, s.now), b.message.json),
         ran := s.ran + {i})
    case PopRead(c, u, limit) =>
      s.(readers := s.readers[c := Reader(u, ReadBatch(Visible(BoxOf(s.boxes, u), s.now), limit))])
    case PopRemove(c) =>
      var Reader(u, raw) := s.readers[c];
      s.(boxes := s.boxes[u := Removed(BoxOf(s.boxes, u), s.now, raw)], readers := s.readers - {c})
  }

  ghost predicate IsRun(s: System, steps: seq<Step>)
    decreases |steps|
  {
    steps == [] || (Enabled(s, steps[0]) && IsRun(Do(s, steps[0]), steps[1..]))
  }

  ghost function After(s: System, steps: seq<Step>): System
    requires IsRun(s, steps)
    decreases |steps|
  {
    if steps == [] then s else After(Do(s, steps[0]), steps[1..])
  }

  /** Everyone the broadcast was for was connected or has been queued. */
  ghost predicate Reached(s: System, b: Broadcast) {
    forall u :: u in b.memberIds && u != b.message.senderId ==>
      (b.connected.Some? && u in b.connected.value) || b.message.json in BoxOf(s.boxes, u).queuedAt
  }

  ghost predicate Inv(s: System) {
    && BoxesOk(s.boxes, s.now)
    && (forall i :: i in s.ran ==> i < |s.broadcasts| && Reached(s, s.broadcasts[i]))
    && (forall c :: c in s.readers ==>
          forall t :: t in s.readers[c].raw ==> t in BoxOf(s.boxes, s.readers[c].user).queuedAt)
  }

  lemma BoxesStayOk(s: System, step: Step)
    requires BoxesOk(s.boxes, s.now) && Enabled(s, step)
    requires step.PopRemove? ==> forall t :: t in s.readers[step.c].raw ==>
                                   t in BoxOf(s.boxes, s.readers[step.c].user).queuedAt
    ensures BoxesOk(Do(s, step).boxes, Do(s, step).now) && Remembers(s.boxes, Do(s, step).boxes)
  {
    hide BoxOk;
    match step {
      case Wait(ms) =>
        forall u ensures BoxOk(BoxOf(s.boxes, u), s.now + ms) {
          WaitKeepsBox(BoxOf(s.boxes, u), s.now, s.now + ms);
        }
      case RunJob(i) =>
        var b := s.broadcasts[i];
        EnqueueKeeps(s.boxes, MakeJob(b.message, b.memberIds, b.connected).offlineUserIds, s.now,
                     Score(b.message, s.now), b.message.json);
      case PopRemove(c) =>
        var Reader(u, raw) := s.readers[c];
        var b := Removed(BoxOf(s.boxes, u), s.now, raw);
        RemoveKeepsBox(BoxOf(s.boxes, u), s.now, raw);
        UpdateBox(s.boxes, u, b, s.boxes[u := b], s.now);
      case _ =>
    }
  }

  lemma RunReaches(s: System, i: nat)
    requires Enabled(s, RunJob(i))
    ensures Reached(Do(s, RunJob(i)), s.broadcasts[i])
  {
    var b := s.broadcasts[i];
    var job := MakeJob(b.message, b.memberIds, b.connected);
    ExceptMembers(b.memberIds, {b.message.senderId});
    ExceptMembers(job.recipientIds, if b.connected.Some? then b.connected.value else {});
    forall u | u in job.offlineUserIds
      ensures b.message.json in BoxOf(Do(s, RunJob(i)).boxes, u).queuedAt
    {
      EnqueueReaches(s.boxes, job.offlineUserIds, s.now, Score(b.message, s.now), b.message.json, u);
    }
  }

  lemma ReadTextsAreQueued(b: Box, now: int, limit: nat)
    requires BoxOk(b, now)
    ensures forall t :: t in ReadBatch(Visible(b, now), limit) ==> t in b.queuedAt
  {
    var z := Visible(b, now);
    forall t | t in ReadBatch(z, limit)
      ensures t in b.queuedAt
    {
      var i :| 0 <= i < |ReadBatch(z, limit)| && ReadBatch(z, limit)[i] == t;
      assert z[i] in b.z;
    }
  }

  lemma StepKeepsInv(s: System, step: Step)
    requires Inv(s) && Enabled(s, step)
    ensures Inv(Do(s, step))
  {
    hide BoxOk;
    var s' := Do(s, step);
    BoxesStayOk(s, step);
    forall i | i in s'.ran
      ensures i < |s'.broadcasts| && Reached(s', s'.broadcasts[i])
    {
      if step.RunJob? && i == step.i {
        RunReaches(s, i);
      } else {
        assert Reached(s, s.broadcasts[i]);
      }
    }
    if step.PopRead? {
      ReadTextsAreQueued(BoxOf(s.boxes, step.user), s.now, step.limit);
    }
  }

  lemma {:induction false} RunKeepsInv(s: System, steps: seq<Step>)
    requires Inv(s) && IsRun(s, steps)
    ensures Inv(After(s, steps))
    decreases |steps|
  {
    if steps == [] {
    } else {
      StepKeepsInv(s, steps[0]);
      RunKeepsInv(Do(s, steps[0]), steps[1..]);
    }
  }

  const START := System(0, map[], [], {}, map[])

  /**
   * In every interleaving of jobs, run once or more, and two-step pops: for each broadcast whose job
   * has run, every member but the sender was connected or was queued, and then the message is still
   * pending, was in a returned batch, or was last queued at least seven days ago.
   */
  lemma NothingIsLost(steps: seq<Step>, i: nat, u: UserId)
    requires IsRun(START, steps)
    ensures var s := After(START, steps);
            i in s.ran ==>
              (&& i < |s.broadcasts|
               && var b := s.broadcasts[i];
                  u in b.memberIds && u != b.message.senderId ==>
                    (|| (b.connected.Some? && u in b.connected.value)
                     || (b.message.json in BoxOf(s.boxes, u).queuedAt
                         && Accounted(BoxOf(s.boxes, u), s.now, b.message.json))))
  {
    RunKeepsInv(START, steps);
    var s := After(START, steps);
    if i in s.ran {
      assert Reached(s, s.broadcasts[i]);
      assert BoxOk(BoxOf(s.boxes, u), s.now);
    }
  }

  /** And nothing is made up: what a pop hands out, or may still hand out, was queued for that user. */
  lemma NothingIsInvented(steps: seq<Step>, u: UserId, t: string)
    requires IsRun(START, steps)
    ensures var b := BoxOf(After(START, steps).boxes, u);
            t in b.returned || t in Members(b.z) ==> t in b.queuedAt
  {
    RunKeepsInv(START, steps);
    assert BoxOk(BoxOf(After(START, steps).boxes, u), After(START, steps).now);
  }

  // ----- draining

  datatype Batch = Batch(texts: seq<string>, remaining: nat)

  /** A pop with nothing in between: batch, and the card after removal. */
  function Pop(z: ZSet, limit: nat): (Batch, ZSet) {
    var raw := ReadBatch(z, limit);
    var rest := ZRem(z, Texts(raw));
    (Batch(raw, |rest|), rest)
  }

  lemma TextAt(z: ZSet, k: nat, i: nat)
    requires IsZSet(z) && k <= |z| && i < |z|
    ensures z[i].member in Texts(FirstTexts(z, k)) <==> i < k
  {
    var front := FirstTexts(z, k);
    if i < k {
      assert front[i] in front;
    } else {
      assert forall j :: 0 <= j < k ==> front[j] == z[j].member;
    }
  }

  /** Removing the members read is dropping the first entries. */
  lemma RemoveFirst(z: ZSet, k: nat)
    requires IsZSet(z) && k <= |z|
    ensures ZRem(z, Texts(FirstTexts(z, k))) == z[k..]
  {
    hide Texts, FirstTexts, ZRem, IsZSet;
    forall i | 0 <= i < |z|
      ensures z[i].member in Texts(FirstTexts(z, k)) <==> i < k
    {
      TextAt(z, k, i);
    }
    ZRemPrefix(z, k, Texts(FirstTexts(z, k)));
  }

  lemma TextsConcat(z: ZSet, k: nat)
    requires k <= |z|
    ensures FirstTexts(z, |z|) == FirstTexts(z, k) + FirstTexts(z[k..], |z[k..]|)
  {
  }

  function BatchSize(z: ZSet, limit: nat): nat {
    if limit == 0 || |z| < limit then |z| else limit
  }

  /** A pop splits the set in two. */
  lemma PopSplits(z: ZSet, limit: nat)
    requires IsZSet(z)
    ensures var k := BatchSize(z, limit);
            && k <= |z| && (k == 0 ==> z == []) && IsZSet(z[k..])
            && Pop(z, limit) == (Batch(FirstTexts(z, k), |z| - k), z[k..])
  {
    var k := BatchSize(z, limit);
    assert ReadBatch(z, limit) == FirstTexts(z, k);
    hide Texts, FirstTexts, ReadBatch, IsZSet;
    RemoveFirst(z, k);
    ZRemFacts(z, Texts(FirstTexts(z, k)));
  }

  /** Pop until told that nothing remains. */
  ghost function Drain(z: ZSet, limit: nat): seq<Batch>
    requires IsZSet(z)
    decreases |z|
  {
    PopSplits(z, limit);
    var (b, rest) := Pop(z, limit);
    [b] + if b.remaining > 0 then Drain(rest, limit) else []
  }

  ghost function AllTexts(batches: seq<Batch>): seq<string> {
    if batches == [] then [] else batches[0].texts + AllTexts(batches[1..])
  }

  /** One consumer, nothing arriving: every text once, in score order, `remaining` 0 exactly at the end. */
  lemma {:induction false} DrainIsComplete(z: ZSet, limit: nat)
    requires IsZSet(z)
    ensures var bs := Drain(z, limit);
            && AllTexts(bs) == FirstTexts(z, |z|)
            && |bs| >= 1
            && forall i :: 0 <= i < |bs| ==> (bs[i].remaining == 0 <==> i == |bs| - 1)
    decreases |z|
  {
    var k, bs := BatchSize(z, limit), Drain(z, limit);
    PopSplits(z, limit);
    hide Pop, IsZSet, FirstTexts;
    if k == |z| {
      assert bs[1..] == [];
      assert AllTexts(bs) == bs[0].texts + [];
    } else {
      DrainIsComplete(z[k..], limit);
      assert bs[1..] == Drain(z[k..], limit);
      TextsConcat(z, k);
    }
  }

  function AllMessages<M>(batches: seq<Batch>, parse: string -> Option<M>): seq<M> {
    if batches == [] then [] else Parsed(batches[0].texts, parse) + AllMessages(batches[1..], parse)
  }

  lemma {:induction false} ParsedConcat<M>(xs: seq<string>, ys: seq<string>, parse: string -> Option<M>)
    ensures Parsed(xs + ys, parse) == Parsed(xs, parse) + Parsed(ys, parse)
    decreases |ys|
  {
    if ys == [] {
      assert xs + ys == xs;
    } else {
      var n := |ys| - 1;
      assert (xs + ys)[..|xs + ys| - 1] == xs + ys[..n];
      ParsedConcat(xs, ys[..n], parse);
    }
  }

  lemma {:induction false} MessagesOfTexts<M>(batches: seq<Batch>, parse: string -> Option<M>)
    ensures AllMessages(batches, parse) == Parsed(AllTexts(batches), parse)
  {
    if batches == [] {
    } else {
      MessagesOfTexts(batches[1..], parse);
      ParsedConcat(batches[0].texts, AllTexts(batches[1..]), parse);
    }
  }

  /** So the pops of one consumer hand out every pending message that parses, each once, in score order. */
  lemma DrainHandsOut<M>(z: ZSet, limit: nat, parse: string -> Option<M>)
    requires IsZSet(z)
    ensures HandsOut(AllMessages(Drain(z, limit), parse), FirstTexts(z, |z|), parse)
  {
    DrainIsComplete(z, limit);
    MessagesOfTexts(Drain(z, limit), parse);
    ParsedHandsOut(FirstTexts(z, |z|), parse);
  }
}

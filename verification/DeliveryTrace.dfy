/**
 * Offline delivery told from its runs alone: who was queued when, what was handed out to whom, and
 * what therefore is pending, in which order.
 */
module DeliveryTrace {
  import opened Options
  import opened SortedSets
  import opened DeliveryQueue

  // ----- what the steps of a run did

  /** The broadcasts of a run, in order. */
  function Dispatched(past: seq<Step>): seq<Broadcast> {
    if past == [] then []
    else
      var front, last := past[..|past| - 1], past[|past| - 1];
      Dispatched(front) + if last.Dispatch? then [last.b] else []
  }

  function Clock(past: seq<Step>): int {
    if past == [] then 0
    else
      var front, last := past[..|past| - 1], past[|past| - 1];
      Clock(front) + if last.Wait? then last.ms else 0
  }

  /** A member other than the sender, not seen connected. */
  predicate MustQueue(b: Broadcast, u: UserId) {
    u in b.memberIds && u != b.message.senderId && !(b.connected.Some? && u in b.connected.value)
  }

  /** When the text was last queued for the user. */
  function LastQueued(past: seq<Step>, u: UserId, json: string): Option<int> {
    if past == [] then None
    else
      var front, last := past[..|past| - 1], past[|past| - 1];
      if last.RunJob? && last.i < |Dispatched(front)| && Dispatched(front)[last.i].message.json == json
         && MustQueue(Dispatched(front)[last.i], u) then Some(Clock(front))
      else LastQueued(front, u, json)
  }

  /** When anything was last queued for the user. */
  function LastQueueing(past: seq<Step>, u: UserId): Option<int> {
    if past == [] then None
    else
      var front, last := past[..|past| - 1], past[|past| - 1];
      if last.RunJob? && last.i < |Dispatched(front)| && MustQueue(Dispatched(front)[last.i], u) then Some(Clock(front))
      else LastQueueing(front, u)
  }

  /** A job queued the text of the entry for the user, under the message's date, or its own time if that is no date. */
  predicate QueuedAs(past: seq<Step>, u: UserId, e: Entry) {
    past != [] &&
    var front, last := past[..|past| - 1], past[|past| - 1];
    || QueuedAs(front, u, e)
    || (&& last.RunJob? && last.i < |Dispatched(front)|
        && var b := Dispatched(front)[last.i];
           && MustQueue(b, u) && e.member == b.message.json
           && e.score == if b.message.createdMs.Some? && b.message.createdMs.value != 0 then b.message.createdMs.value
                         else Clock(front))
  }

  /** The state a run leads to. */
  function Play(past: seq<Step>): System {
    if past == [] then START
    else
      var s, last := Play(past[..|past| - 1]), past[|past| - 1];
      if Enabled(s, last) then Do(s, last) else s
  }

  /** The batch consumer c has read and not yet removed. */
  function OpenBatch(past: seq<Step>, c: nat): Option<Reader> {
    if past == [] then None
    else
      var front, last := past[..|past| - 1], past[|past| - 1];
      match last
      case PopRead(d, u, limit) =>
        if d == c then Some(Reader(u, ReadBatch(Visible(BoxOf(Play(front).boxes, u), Clock(front)), limit)))
        else OpenBatch(front, c)
      case PopRemove(d) => if d == c then None else OpenBatch(front, c)
      case _ => OpenBatch(front, c)
  }

  /** A pop of the user read the text in its batch and went on to remove and return it. */
  predicate HandedOut(past: seq<Step>, u: UserId, json: string) {
    past != [] &&
    var front, last := past[..|past| - 1], past[|past| - 1];
    || HandedOut(front, u, json)
    || (&& last.PopRemove? && OpenBatch(front, last.c).Some?
        && OpenBatch(front, last.c).value.user == u && json in OpenBatch(front, last.c).value.raw)
  }

  /** The text was queued for the user and no pop that read it has removed it since. */
  predicate Waiting(past: seq<Step>, u: UserId, json: string) {
    past != [] &&
    var front, last := past[..|past| - 1], past[|past| - 1];
    match last
    case RunJob(i) =>
      || Waiting(front, u, json)
      || (&& i < |Dispatched(front)| && Dispatched(front)[i].message.json == json && MustQueue(Dispatched(front)[i], u))
    case PopRemove(c) =>
      && Waiting(front, u, json)
      && !(OpenBatch(front, c).Some? && OpenBatch(front, c).value.user == u && json in OpenBatch(front, c).value.raw)
    case _ => Waiting(front, u, json)
  }

  // ----- the states keep exactly this

  ghost predicate BoxTraced(past: seq<Step>, u: UserId, b: Box) {
    && (forall t :: LastQueued(past, u, t) == if t in b.queuedAt then Some(b.queuedAt[t]) else None)
    && (forall t :: HandedOut(past, u, t) <==> t in b.returned)
    && (forall e :: e in b.z ==> QueuedAs(past, u, e) && Waiting(past, u, e.member))
    && IsZSet(b.z)
    && (if LastQueueing(past, u).Some? then b.deadline == LastQueueing(past, u).value + 604_800_000 else b.z == [])
  }

  ghost predicate Traced(past: seq<Step>, s: System) {
    && s == Play(past) && s.now == Clock(past) && s.broadcasts == Dispatched(past)
    && (forall i :: i in s.ran <==> RunJob(i) in past)
    && (forall c :: OpenBatch(past, c) == if c in s.readers then Some(s.readers[c]) else None)
    && (forall u :: BoxTraced(past, u, BoxOf(s.boxes, u)))
  }

  /** Queueing one text adds its entry, in its place. */
  lemma QueueOne(b: Box, now: int, score: int, json: string)
    requires IsZSet(b.z)
    ensures var b' := Queued(b, now, score, json);
            && IsZSet(b'.z) && b'.returned == b.returned && b'.queuedAt == b.queuedAt[json := now]
            && b'.deadline == now + 604_800_000
            && forall e :: e in b'.z ==> e in b.z || e == Entry(score, json)
  {
    hide ZAdd, IsZSet;
    assert IsZSet([]) by { EmptyZSet(); }
    ZAddFacts(Visible(b, now), score, json);
  }

  lemma EmptyZSet()
    ensures IsZSet([])
  {
  }

  lemma NothingToRemove(ms: set<string>)
    ensures ZRem([], ms) == []
  {
  }

  /** What a job leaves of one user's box. */
  lemma {:induction false} EnqueueOne(boxes: Boxes, users: seq<UserId>, now: int, score: int, json: string, u: UserId)
    requires IsZSet(BoxOf(boxes, u).z)
    ensures var b, b' := BoxOf(boxes, u), BoxOf(Enqueue(boxes, users, now, score, json), u);
            && IsZSet(b'.z) && b'.returned == b.returned
            && (u in users ==> b'.queuedAt == b.queuedAt[json := now] && b'.deadline == now + 604_800_000)
            && (u !in users ==> b' == b)
            && forall e :: e in b'.z ==> e in b.z || (u in users && e == Entry(score, json))
  {
    hide IsZSet, Queued;
    if users == [] {
    } else {
      var front, last := users[..|users| - 1], users[|users| - 1];
      EnqueueOne(boxes, front, now, score, json, u);
      assert u in users <==> u in front || u == last by { assert users == front + [last]; }
      if u == last {
        QueueOne(BoxOf(Enqueue(boxes, front, now, score, json), u), now, score, json);
      }
    }
  }

  lemma JobRecipients(b: Broadcast, u: UserId)
    ensures u in MakeJob(b.message, b.memberIds, b.connected).offlineUserIds <==> MustQueue(b, u)
  {
    ExceptMembers(b.memberIds, {b.message.senderId});
    ExceptMembers(MakeJob(b.message, b.memberIds, b.connected).recipientIds,
                  if b.connected.Some? then b.connected.value else {});
  }

  lemma JobTracesBox(past: seq<Step>, s: System, i: nat, u: UserId)
    requires Traced(past, s) && Enabled(s, RunJob(i))
    ensures BoxTraced(past + [RunJob(i)], u, BoxOf(Do(s, RunJob(i)).boxes, u))
  {
    hide ZAdd, IsZSet, MakeJob, Enqueue, OpenBatch, Play;
    var now, b, m := past + [RunJob(i)], BoxOf(s.boxes, u), s.broadcasts[i].message;
    assert now[..|past|] == past && now[|past|] == RunJob(i);
    assert BoxTraced(past, u, b);
    JobRecipients(s.broadcasts[i], u);
    var offline := MakeJob(m, s.broadcasts[i].memberIds, s.broadcasts[i].connected).offlineUserIds;
    EnqueueOne(s.boxes, offline, s.now, Score(m, s.now), m.json, u);
  }

  lemma PopTracesBox(past: seq<Step>, s: System, c: nat, u: UserId)
    requires Traced(past, s) && Enabled(s, PopRemove(c))
    ensures BoxTraced(past + [PopRemove(c)], u, BoxOf(Do(s, PopRemove(c)).boxes, u))
  {
    hide ZRem, IsZSet, OpenBatch, Play;
    var now, b := past + [PopRemove(c)], BoxOf(s.boxes, u);
    assert now[..|past|] == past && now[|past|] == PopRemove(c);
    assert BoxTraced(past, u, b);
    assert OpenBatch(past, c) == Some(s.readers[c]);
    EmptyZSet();
    NothingToRemove(Texts(s.readers[c].raw));
    ZRemFacts(Visible(b, s.now), Texts(s.readers[c].raw));
  }

  lemma StepTracesBox(past: seq<Step>, s: System, step: Step, u: UserId)
    requires Traced(past, s) && Enabled(s, step)
    ensures BoxTraced(past + [step], u, BoxOf(Do(s, step).boxes, u))
  {
    if step.RunJob? {
      JobTracesBox(past, s, step.i, u);
    } else if step.PopRemove? {
      PopTracesBox(past, s, step.c, u);
    } else {
      assert BoxTraced(past, u, BoxOf(s.boxes, u));
      OtherTracesBox(past, step, u, BoxOf(s.boxes, u));
    }
  }

  /** Steps other than jobs and removals leave every history as it is. */
  lemma HistoriesStand(past: seq<Step>, step: Step, u: UserId, t: string, e: Entry)
    requires !step.RunJob? && !step.PopRemove?
    ensures var now := past + [step];
            && LastQueued(now, u, t) == LastQueued(past, u, t) && LastQueueing(now, u) == LastQueueing(past, u)
            && (HandedOut(now, u, t) <==> HandedOut(past, u, t)) && (Waiting(now, u, t) <==> Waiting(past, u, t))
            && (QueuedAs(now, u, e) <==> QueuedAs(past, u, e))
  {
    assert (past + [step])[..|past|] == past && (past + [step])[|past|] == step;
  }

  lemma OtherTracesBox(past: seq<Step>, step: Step, u: UserId, b: Box)
    requires BoxTraced(past, u, b) && !step.RunJob? && !step.PopRemove?
    ensures BoxTraced(past + [step], u, b)
  {
    hide IsZSet, LastQueued, LastQueueing, HandedOut, Waiting, QueuedAs;
    HistoriesStand(past, step, u, "", Entry(0, ""));
    forall t
      ensures LastQueued(past + [step], u, t) == LastQueued(past, u, t)
      ensures HandedOut(past + [step], u, t) <==> HandedOut(past, u, t)
    {
      HistoriesStand(past, step, u, t, Entry(0, ""));
    }
    forall e | e in b.z
      ensures QueuedAs(past + [step], u, e) && Waiting(past + [step], u, e.member)
    {
      HistoriesStand(past, step, u, e.member, e);
    }
  }

  lemma StepTraces(past: seq<Step>, s: System, step: Step)
    requires Traced(past, s) && Enabled(s, step)
    ensures Traced(past + [step], Do(s, step))
  {
    var now, s' := past + [step], Do(s, step);
    assert now[..|past|] == past && now[|past|] == step;
    forall u
      ensures BoxTraced(now, u, BoxOf(s'.boxes, u))
    {
      StepTracesBox(past, s, step, u);
    }
    hide BoxTraced;
    forall i
      ensures i in s'.ran <==> RunJob(i) in now
    {
      assert RunJob(i) in now <==> RunJob(i) in past || step == RunJob(i);
    }
    forall c
      ensures OpenBatch(now, c) == if c in s'.readers then Some(s'.readers[c]) else None
    {
      assert OpenBatch(past, c) == if c in s.readers then Some(s.readers[c]) else None;
    }
  }

  lemma {:induction false} RunTraces(past: seq<Step>, s: System, steps: seq<Step>)
    requires Traced(past, s) && IsRun(s, steps)
    ensures Traced(past + steps, After(s, steps))
    decreases |steps|
  {
    hide Traced;
    if steps == [] {
      assert past + steps == past;
    } else {
      StepTraces(past, s, steps[0]);
      RunTraces(past + [steps[0]], Do(s, steps[0]), steps[1..]);
      assert past + [steps[0]] + steps[1..] == past + steps;
    }
  }

  lemma StartIsTraced()
    ensures Traced([], START)
  {
    EmptyZSet();
    hide IsZSet;
  }

  lemma RunIsTraced(steps: seq<Step>)
    requires IsRun(START, steps)
    ensures Traced(steps, After(START, steps))
  {
    hide Traced, IsRun, After;
    StartIsTraced();
    RunTraces([], START, steps);
    assert [] + steps == steps;
  }

  // ----- main results

  /** What is pending for a user after a run. */
  function Pending(steps: seq<Step>, u: UserId): ZSet {
    Visible(BoxOf(Play(steps).boxes, u), Clock(steps))
  }

  /**
   * In every interleaving of jobs, run once or more, and two-step pops: once the job of a broadcast has run,
   * every member but the sender was connected, or the message is pending, or a pop handed it out, or it was
   * last queued at least seven days ago.
   */
  lemma NothingIsLost(steps: seq<Step>, i: nat, u: UserId)
    requires IsRun(START, steps) && RunJob(i) in steps
    ensures i < |Dispatched(steps)|
    ensures var b := Dispatched(steps)[i];
            u in b.memberIds && u != b.message.senderId ==>
              || (b.connected.Some? && u in b.connected.value)
              || b.message.json in Members(Pending(steps, u))
              || HandedOut(steps, u, b.message.json)
              || (&& LastQueued(steps, u, b.message.json).Some?
                  && Clock(steps) >= LastQueued(steps, u, b.message.json).value + 604_800_000)
  {
    RunIsTraced(steps);
    DeliveryQueue.NothingIsLost(steps, i, u);
    assert BoxTraced(steps, u, BoxOf(After(START, steps).boxes, u));
  }

  /** Nothing is pending once seven days have passed without anything being queued for the user. */
  lemma PendingExpires(steps: seq<Step>, u: UserId)
    requires IsRun(START, steps) && Pending(steps, u) != []
    ensures LastQueueing(steps, u).Some? && Clock(steps) < LastQueueing(steps, u).value + 604_800_000
  {
    RunIsTraced(steps);
    assert BoxTraced(steps, u, BoxOf(After(START, steps).boxes, u));
  }

  /** What a pop has removed is no longer pending, unless it was queued again. */
  lemma RemovedIsGone(steps: seq<Step>, u: UserId, json: string)
    requires IsRun(START, steps)
    ensures json in Members(Pending(steps, u)) ==> Waiting(steps, u, json)
  {
    RunIsTraced(steps);
    assert BoxTraced(steps, u, BoxOf(After(START, steps).boxes, u));
  }

  /** And whatever is pending for a user or was handed out to them had been queued for them. */
  lemma NothingIsInvented(steps: seq<Step>, u: UserId, json: string)
    requires IsRun(START, steps)
    ensures json in Members(Pending(steps, u)) || HandedOut(steps, u, json) ==> LastQueued(steps, u, json).Some?
  {
    RunIsTraced(steps);
    DeliveryQueue.NothingIsInvented(steps, u, json);
    assert BoxTraced(steps, u, BoxOf(After(START, steps).boxes, u));
  }

  /**
   * What is pending stands in the order of the dates: each entry was queued under its message's date (or the
   * time of the job if it has none), and no entry stands before one of an earlier date.
   */
  lemma PendingInDateOrder(steps: seq<Step>, u: UserId, i: nat, j: nat)
    requires IsRun(START, steps) && i < j < |Pending(steps, u)|
    ensures var z := Pending(steps, u);
            && QueuedAs(steps, u, z[i]) && QueuedAs(steps, u, z[j])
            && z[i].score <= z[j].score && z[i].member != z[j].member
  {
    RunIsTraced(steps);
    assert BoxTraced(steps, u, BoxOf(After(START, steps).boxes, u));
    var z := Pending(steps, u);
    assert z[i] in z && z[j] in z;
    assert Precedes(z[i], z[j]);
  }
}

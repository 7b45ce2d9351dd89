/**
 * What the runs of CacheRuns do: the table, the names and the cached list after any run, read off
 * the run itself.
 */
module CacheTrace {
  import opened Options
  import opened History
  import opened MessageCache
  import opened CacheRuns

  // ----- serial handlers

  /** The row the send of message k wrote, if there was one. */
  function SentRow(hs: seq<Handler>, k: int): Option<MessageRow> {
    if hs == [] then None
    else
      var last := hs[|hs| - 1];
      if last.Send? && last.row.seqNo == k then Some(last.row) else SentRow(hs[..|hs| - 1], k)
  }

  predicate DeletedIn(hs: seq<Handler>, k: int) {
    hs != [] && (hs[|hs| - 1] == Delete(k) || DeletedIn(hs[..|hs| - 1], k))
  }

  /** The name the last rename gave the user. */
  function LastName(hs: seq<Handler>, u: string): Option<string> {
    if hs == [] then None
    else
      var last := hs[|hs| - 1];
      if last.Rename? && last.userId == u then Some(last.username) else LastName(hs[..|hs| - 1], u)
  }

  function SendCount(hs: seq<Handler>): nat {
    if hs == [] then 0 else SendCount(hs[..|hs| - 1]) + if hs[|hs| - 1].Send? then 1 else 0
  }

  /** A row after its deletion: its content and metadata are gone. */
  function Erased(row: MessageRow): MessageRow {
    MessageRow(row.id, row.channelId, row.senderId, "", row.contentIv, row.contentTag, row.signature, row.seqNo,
               row.senderKeyEpoch, row.messageType, None, true, row.createdAt)
  }

  /** How many messages were sent since the last delete without a day's pause, and how long ago the last one was. */
  datatype Streak = Streak(sends: nat, age: int)

  function StreakOf(hs: seq<Handler>): Streak {
    if hs == [] then Streak(0, 0)
    else
      var before := StreakOf(hs[..|hs| - 1]);
      match hs[|hs| - 1]
      case Send(_) => Streak(if before.age < 86_400_000 then before.sends + 1 else 1, 0)
      case Delete(_) => Streak(0, before.age)
      case Rename(_, _) => before
      case Wait(ms) => Streak(before.sends, before.age + ms)
  }

  /** Row k is as it was sent, or erased if it was deleted. */
  ghost predicate RowTraced(past: seq<Handler>, row: MessageRow, k: int) {
    && SentRow(past, k).Some?
    && row == if DeletedIn(past, k) then Erased(SentRow(past, k).value) else SentRow(past, k).value
  }

  ghost predicate TableTraced(past: seq<Handler>, s: Server) {
    && |s.log| == SendCount(past)
    && (forall i :: 0 <= i < |s.log| ==> RowTraced(past, s.log[i], i + 1))
    && (forall k :: DeletedIn(past, k) ==> 1 <= k <= |s.log|)
    && (forall u :: NameOf(s.names, u) == LastName(past, u))
  }

  ghost predicate CacheTraced(past: seq<Handler>, s: Server) {
    var streak := StreakOf(past);
    && |s.cache| == (if streak.sends < 50 then streak.sends else 50)
    && (streak.sends > 0 ==> s.deadline == s.now - streak.age + 86_400_000)
  }

  lemma RowStaysTraced(past: seq<Handler>, s: Server, h: Handler, i: nat)
    requires Accepted(s, h) && i < |Serve(s, h).log|
    requires i < |s.log| ==> RowTraced(past, s.log[i], i + 1)
    requires i == |s.log| ==> !DeletedIn(past, i + 1)
    ensures RowTraced(past + [h], Serve(s, h).log[i], i + 1)
  {
    var now := past + [h];
    assert now[..|past|] == past && now[|past|] == h;
    if h.Delete? && h.seqNo == i + 1 {
      assert Serve(s, h).log[i] == Blanked(s.log[i]);
      assert DeletedIn(now, i + 1);
    } else if i < |s.log| {
      assert Serve(s, h).log[i] == s.log[i];
    }
  }

  lemma ServeTracesTable(past: seq<Handler>, s: Server, h: Handler)
    requires TableTraced(past, s) && Accepted(s, h)
    ensures TableTraced(past + [h], Serve(s, h))
  {
    hide RowTraced;
    var now, s' := past + [h], Serve(s, h);
    assert now[..|past|] == past && now[|past|] == h;
    forall i | 0 <= i < |s'.log|
      ensures RowTraced(now, s'.log[i], i + 1)
    {
      RowStaysTraced(past, s, h, i);
    }
    forall k | DeletedIn(now, k)
      ensures 1 <= k <= |s'.log|
    {
      assert DeletedIn(past, k) || h == Delete(k);
    }
    forall u
      ensures NameOf(s'.names, u) == LastName(now, u)
    {
      assert NameOf(s.names, u) == LastName(past, u);
    }
    assert SendCount(now) == SendCount(past) + if h.Send? then 1 else 0;
  }

  lemma ServeTracesCache(past: seq<Handler>, s: Server, h: Handler)
    requires CacheTraced(past, s) && Accepted(s, h)
    ensures CacheTraced(past + [h], Serve(s, h))
  {
    hide ToMessagePayload;
    var now := past + [h];
    assert now[..|past|] == past && now[|past|] == h;
  }

  lemma {:induction false} RunTraces(past: seq<Handler>, s: Server, hs: seq<Handler>)
    requires TableTraced(past, s) && CacheTraced(past, s) && CacheRuns.IsRun(s, hs)
    ensures TableTraced(past + hs, CacheRuns.After(s, hs)) && CacheTraced(past + hs, CacheRuns.After(s, hs))
    decreases |hs|
  {
    hide TableTraced, CacheTraced;
    if hs == [] {
      assert past + hs == past;
    } else {
      ServeTracesTable(past, s, hs[0]);
      ServeTracesCache(past, s, hs[0]);
      RunTraces(past + [hs[0]], Serve(s, hs[0]), hs[1..]);
      assert past + [hs[0]] + hs[1..] == past + hs;
    }
  }

  /**
   * After any serial run the table holds the rows sent, in order, each as it was sent or erased if it was
   * deleted; and every user has the name last given.
   */
  lemma ServedTable(hs: seq<Handler>)
    requires CacheRuns.IsRun(FRESH, hs)
    ensures var s := CacheRuns.After(FRESH, hs);
            && |s.log| == SendCount(hs)
            && (forall i :: 0 <= i < |s.log| ==> RowTraced(hs, s.log[i], i + 1))
            && (forall u :: NameOf(s.names, u) == LastName(hs, u))
  {
    RunTraces([], FRESH, hs);
    assert [] + hs == hs;
  }

  /**
   * After any serial run the cache serves a page of `limit` messages exactly when limit is at most 50, that
   * many were sent since the last delete with no pause of a day, and the last one less than a day ago.
   */
  lemma CacheServesIff(hs: seq<Handler>, limit: nat, reactions: seq<ReactionRow>)
    requires CacheRuns.IsRun(FRESH, hs) && limit >= 1
    ensures var s, streak := CacheRuns.After(FRESH, hs), StreakOf(hs);
            CachedPage(VisibleCache(s), reactions, limit).Some?
            <==> limit <= 50 && limit <= streak.sends && streak.age < 86_400_000
  {
    RunTraces([], FRESH, hs);
    CacheRuns.RunKeepsInv([], FRESH, hs);
    assert [] + hs == hs;
    hide CachedPage, IsRun, After, StreakOf, TableTraced;
    ServesIfLong(VisibleCache(CacheRuns.After(FRESH, hs)), CacheRuns.After(FRESH, hs).log, reactions, limit);
  }

  lemma ServesIfLong(list: seq<Payload>, log: Log, reactions: seq<ReactionRow>, limit: nat)
    requires WellNumbered(log) && CacheIsSuffix(list, log) && limit >= 1
    ensures CachedPage(list, reactions, limit).Some? <==> |list| >= limit
  {
    hide SortBySeq, ContiguousRun, CacheIsSuffix, WellNumbered;
    if |list| >= limit {
      SuffixOfSuffix(list, log, limit);
      SuffixIsRun(LastN(list, limit), log);
    }
  }

  // ----- Redis writes delayed, reordered or lost

  function CommittedRow(steps: seq<NetStep>, k: int): Option<MessageRow> {
    if steps == [] then None
    else
      var last := steps[|steps| - 1];
      if last.CommitSend? && last.row.seqNo == k then Some(last.row) else CommittedRow(steps[..|steps| - 1], k)
  }

  predicate DeleteCommitted(steps: seq<NetStep>, k: int) {
    steps != [] && (steps[|steps| - 1] == CommitDelete(k) || DeleteCommitted(steps[..|steps| - 1], k))
  }

  function NameCommitted(steps: seq<NetStep>, u: string): Option<string> {
    if steps == [] then None
    else
      var last := steps[|steps| - 1];
      if last.CommitRename? && last.userId == u then Some(last.username) else NameCommitted(steps[..|steps| - 1], u)
  }

  /** Row k is as it was committed, or erased if a delete of it was committed. */
  ghost predicate NetRowTraced(past: seq<NetStep>, row: MessageRow, k: int) {
    && CommittedRow(past, k).Some?
    && row == if DeleteCommitted(past, k) then Erased(CommittedRow(past, k).value) else CommittedRow(past, k).value
  }

  ghost predicate NetTraced(past: seq<NetStep>, s: Net) {
    && (forall i :: 0 <= i < |s.log| ==> NetRowTraced(past, s.log[i], i + 1))
    && (forall k :: CommittedRow(past, k).Some? || DeleteCommitted(past, k) ==> 1 <= k <= |s.log|)
    && (forall u :: NameOf(s.names, u) == NameCommitted(past, u))
    && (forall t :: 0 <= t < |s.sends| && s.sends[t].PushDue? ==> CommittedBy(past, t, s.sends[t].payload.seqNo))
  }

  lemma NetRowStaysTraced(past: seq<NetStep>, s: Net, step: NetStep, i: nat)
    requires CacheRuns.Enabled(s, step) && i < |CacheRuns.Do(s, step).log|
    requires i < |s.log| ==> NetRowTraced(past, s.log[i], i + 1)
    requires i == |s.log| ==> !DeleteCommitted(past, i + 1)
    ensures NetRowTraced(past + [step], CacheRuns.Do(s, step).log[i], i + 1)
  {
    var now := past + [step];
    assert now[..|past|] == past && now[|past|] == step;
    if step.CommitDelete? && step.seqNo == i + 1 {
      assert CacheRuns.Do(s, step).log[i] == Blanked(s.log[i]);
      assert DeleteCommitted(now, i + 1);
    } else if i < |s.log| {
      assert CacheRuns.Do(s, step).log[i] == s.log[i];
    }
  }

  lemma CommittedByGrows(past: seq<NetStep>, step: NetStep, t: nat, k: int)
    ensures CommittedBy(past, t, k) || Commits(step, t, k) ==> CommittedBy(past + [step], t, k)
  {
    PastGrows(past, step, t, "", k);
  }

  lemma StepTracesTable(past: seq<NetStep>, s: Net, step: NetStep)
    requires NetTraced(past, s) && CacheRuns.Enabled(s, step)
    ensures NetTraced(past + [step], CacheRuns.Do(s, step))
  {
    hide NetRowTraced, CommittedBy;
    var now, s' := past + [step], CacheRuns.Do(s, step);
    assert now[..|past|] == past && now[|past|] == step;
    forall i | 0 <= i < |s'.log|
      ensures NetRowTraced(now, s'.log[i], i + 1)
    {
      NetRowStaysTraced(past, s, step, i);
    }
    forall k | CommittedRow(now, k).Some? || DeleteCommitted(now, k)
      ensures 1 <= k <= |s'.log|
    {
      assert CommittedRow(past, k).Some? || DeleteCommitted(past, k) || step == CommitDelete(k)
             || (step.CommitSend? && step.row.seqNo == k);
    }
    forall t | 0 <= t < |s'.sends| && s'.sends[t].PushDue?
      ensures CommittedBy(now, t, s'.sends[t].payload.seqNo)
    {
      CommittedByGrows(past, step, t, s'.sends[t].payload.seqNo);
    }
    forall u
      ensures NameOf(s'.names, u) == NameCommitted(now, u)
    {
      assert NameOf(s.names, u) == NameCommitted(past, u);
    }
  }

  lemma {:induction false} NetRunTraces(past: seq<NetStep>, s: Net, steps: seq<NetStep>)
    requires NetTraced(past, s) && IsNetRun(s, steps)
    ensures NetTraced(past + steps, AfterNet(s, steps))
    decreases |steps|
  {
    hide NetTraced;
    if steps == [] {
      assert past + steps == past;
    } else {
      StepTracesTable(past, s, steps[0]);
      NetRunTraces(past + [steps[0]], CacheRuns.Do(s, steps[0]), steps[1..]);
      assert past + [steps[0]] + steps[1..] == past + steps;
    }
  }

  /** The same of every interleaving: the table holds what was committed, and names are the last ones given. */
  lemma CommittedTable(steps: seq<NetStep>)
    requires IsNetRun(EMPTY_NET, steps)
    ensures var s := AfterNet(EMPTY_NET, steps);
            && (forall i :: 0 <= i < |s.log| ==> NetRowTraced(steps, s.log[i], i + 1))
            && (forall k :: CommittedRow(steps, k).Some? ==> 1 <= k <= |s.log|)
            && (forall u :: NameOf(s.names, u) == NameCommitted(steps, u))
  {
    NetRunTraces([], EMPTY_NET, steps);
    assert [] + steps == steps;
  }

  /**
   * In every interleaving a push puts the message its send committed behind the newest 49 entries of the
   * list; a drop empties it; no other step touches it.
   */
  lemma CacheChanges(steps: seq<NetStep>, step: NetStep)
    requires IsNetRun(EMPTY_NET, steps) && CacheRuns.Enabled(AfterNet(EMPTY_NET, steps), step)
    ensures var s := AfterNet(EMPTY_NET, steps);
            var list, list' := s.cache, CacheRuns.Do(s, step).cache;
            if step.Push? then
              && list' != [] && CommittedBy(steps, step.t, list'[|list'| - 1].seqNo)
              && list'[..|list'| - 1] == list[if |list| <= 49 then 0 else |list| - 49..]
            else list' == if step.DropCache? then [] else list
  {
    NetRunTraces([], EMPTY_NET, steps);
    assert [] + steps == steps;
    hide IsNetRun, AfterNet, CommittedBy, NetRowTraced;
    var s := AfterNet(EMPTY_NET, steps);
    if step.Push? {
      PushedTail(s.cache, s.sends[step.t].payload);
    }
  }

  lemma PushedTail(list: seq<Payload>, p: Payload)
    ensures var list' := Pushed(list, p);
            && list' != [] && list'[|list'| - 1] == p
            && list'[..|list'| - 1] == list[if |list| <= 49 then 0 else |list| - 49..]
  {
    if |list| >= 50 {
      assert (list + [p])[|list| - 49..] == list[|list| - 49..] + [p];
    }
  }
}

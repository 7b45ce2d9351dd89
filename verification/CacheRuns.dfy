/**
 * Agreement of the cached page with the messages table, over runs of sends and deletes:
 * serial handlers first, then handlers whose Redis writes are delayed, reordered or lost.
 */
module CacheRuns {
  import opened Options
  import opened History
  import opened MessageCache

  /** The payload is the row as it stands, under the sender name it carries. */
  ghost predicate ShowsRow(p: Payload, row: MessageRow) {
    p == ToMessagePayload(row, p.senderUsername)
  }

  ghost predicate SameButName(p: Payload, q: Payload) {
    p == q.(senderUsername := p.senderUsername)
  }

  // ----- serial handlers

  datatype Server = Server(log: Log, names: map<string, string>, cache: seq<Payload>, deadline: int, now: int)

  datatype Handler =
    | Send(row: MessageRow)
    | Delete(seqNo: int)
    | Rename(userId: string, username: string)
    | Wait(ms: nat)

  function NameOf(names: map<string, string>, userId: string): Option<string> {
    if userId in names then Some(names[userId]) else None
  }

  function VisibleCache(s: Server): seq<Payload> {
    if s.now < s.deadline then s.cache else []
  }

  /** A send inserts the next number; a delete names an existing message. */
  predicate Accepted(s: Server, h: Handler) {
    match h
    case Send(row) => row.seqNo == |s.log| + 1 && !row.isDeleted
    case Delete(k) => 1 <= k <= |s.log|
    case _ => true
  }

  function Serve(s: Server, h: Handler): Server
    requires Accepted(s, h)
  {
    match h
    case Send(row) =>
      s.(log := s.log + [row],
         cache := Pushed(VisibleCache(s), ToMessagePayload(row, NameOf(s.names, row.senderId))),
         deadline := s.now + MESSAGE_CACHE_TTL_MS)
    case Delete(k) => s.(log := s.log[k - 1 := Blanked(s.log[k - 1])], cache := [])
    case Rename(u, name) => s.(names := s.names[u := name])
    case Wait(ms) => s.(now := s.now + ms)
  }

  ghost predicate IsRun(s: Server, hs: seq<Handler>)
    decreases |hs|
  {
    hs == [] || (Accepted(s, hs[0]) && IsRun(Serve(s, hs[0]), hs[1..]))
  }

  ghost function After(s: Server, hs: seq<Handler>): Server
    requires IsRun(s, hs)
    decreases |hs|
  {
    if hs == [] then s else After(Serve(s, hs[0]), hs[1..])
  }

  /** A rename of the user follows the send of message k. */
  ghost predicate RenamedSince(hs: seq<Handler>, k: int, userId: string) {
    exists i, j :: 0 <= i < j < |hs| && SendsMessage(hs[i], k) && Renames(hs[j], userId)
  }

  predicate SendsMessage(h: Handler, k: int) {
    h.Send? && h.row.seqNo == k
  }

  predicate Renames(h: Handler, userId: string) {
    h.Rename? && h.userId == userId
  }

  /** The same payload; only a sender renamed since the send may appear under another name. */
  ghost predicate SameUnlessRenamed(hs: seq<Handler>, p: Payload, q: Payload) {
    p == q || (SameButName(p, q) && RenamedSince(hs, q.seqNo, q.senderId))
  }

  ghost predicate PagesAgree(hs: seq<Handler>, p: Page, q: Page) {
    && |p.messages| == |q.messages| && p.hasMore == q.hasMore && p.nextCursor == q.nextCursor
    && forall i :: 0 <= i < |p.messages| ==>
         && SameUnlessRenamed(hs, p.messages[i].payload, q.messages[i].payload)
         && p.messages[i].reactions == q.messages[i].reactions
  }

  /** The list is the newest |list| rows, all undeleted. */
  ghost predicate CacheIsSuffix(list: seq<Payload>, log: Log) {
    && |list| <= |log|
    && forall i :: 0 <= i < |list| ==>
         ShowsRow(list[i], log[|log| - |list| + i]) && !log[|log| - |list| + i].isDeleted
  }

  /** The payload carries its sender's present name, or the sender was renamed since the send. */
  ghost predicate NamedIn(past: seq<Handler>, names: map<string, string>, p: Payload) {
    p.senderUsername == NameOf(names, p.senderId) || RenamedSince(past, p.seqNo, p.senderId)
  }

  ghost predicate SentIn(past: seq<Handler>, k: int) {
    exists i :: 0 <= i < |past| && SendsMessage(past[i], k)
  }

  /** What holds of a server that has served `past`. */
  ghost predicate Inv(past: seq<Handler>, s: Server) {
    && WellNumbered(s.log) && CacheIsSuffix(s.cache, s.log)
    && forall p :: p in s.cache ==> SentIn(past, p.seqNo) && NamedIn(past, s.names, p)
  }

  lemma PushKeepsSuffix(list: seq<Payload>, log: Log, p: Payload, row: MessageRow)
    requires CacheIsSuffix(list, log) && ShowsRow(p, row) && !row.isDeleted
    ensures CacheIsSuffix(Pushed(list, p), log + [row])
  {
    var full, log' := list + [p], log + [row];
    assert CacheIsSuffix(full, log') by {
      forall i | 0 <= i < |full|
        ensures ShowsRow(full[i], log'[|log'| - |full| + i]) && !log'[|log'| - |full| + i].isDeleted
      {
        if i < |list| {
          assert log'[|log'| - |full| + i] == log[|log| - |list| + i];
        }
      }
    }
    SuffixOfSuffix(full, log', MESSAGE_CACHE_SIZE);
  }

  lemma SuffixOfSuffix(list: seq<Payload>, log: Log, n: nat)
    requires CacheIsSuffix(list, log)
    ensures CacheIsSuffix(LastN(list, n), log)
  {
    var short := LastN(list, n);
    var drop := |list| - |short|;
    forall i | 0 <= i < |short|
      ensures ShowsRow(short[i], log[|log| - |short| + i]) && !log[|log| - |short| + i].isDeleted
    {
      assert short[i] == list[drop + i];
    }
  }

  lemma ServeKeepsSuffix(s: Server, h: Handler)
    requires WellNumbered(s.log) && CacheIsSuffix(s.cache, s.log) && Accepted(s, h)
    ensures WellNumbered(Serve(s, h).log) && CacheIsSuffix(Serve(s, h).cache, Serve(s, h).log)
  {
    match h {
      case Send(row) =>
        PushKeepsSuffix(VisibleCache(s), s.log, ToMessagePayload(row, NameOf(s.names, row.senderId)), row);
      case _ =>
    }
  }

  lemma HistoryGrows(past: seq<Handler>, h: Handler, k: int, u: string)
    ensures SentIn(past, k) ==> SentIn(past + [h], k)
    ensures RenamedSince(past, k, u) ==> RenamedSince(past + [h], k, u)
    ensures SendsMessage(h, k) ==> SentIn(past + [h], k)
    ensures SentIn(past, k) && Renames(h, u) ==> RenamedSince(past + [h], k, u)
  {
    var now := past + [h];
    assert now[|past|] == h;
    if SentIn(past, k) {
      var i :| 0 <= i < |past| && SendsMessage(past[i], k);
      assert SendsMessage(now[i], k);
    }
    if RenamedSince(past, k, u) {
      var i, j :| 0 <= i < j < |past| && SendsMessage(past[i], k) && Renames(past[j], u);
      assert SendsMessage(now[i], k) && Renames(now[j], u);
    }
  }

  /** A payload keeps its name's excuse: only a rename of its sender can make the name differ. */
  lemma NameStays(past: seq<Handler>, s: Server, h: Handler, p: Payload)
    requires SentIn(past, p.seqNo) && NamedIn(past, s.names, p) && Accepted(s, h)
    ensures SentIn(past + [h], p.seqNo) && NamedIn(past + [h], Serve(s, h).names, p)
  {
    HistoryGrows(past, h, p.seqNo, p.senderId);
  }

  lemma ServeKeepsInv(past: seq<Handler>, s: Server, h: Handler)
    requires Inv(past, s) && Accepted(s, h)
    ensures Inv(past + [h], Serve(s, h))
  {
    ServeKeepsSuffix(s, h);
    hide CacheIsSuffix, WellNumbered, SentIn, NamedIn, ToMessagePayload;
    var s' := Serve(s, h);
    forall p | p in s'.cache
      ensures SentIn(past + [h], p.seqNo) && NamedIn(past + [h], s'.names, p)
    {
      if p in s.cache {
        NameStays(past, s, h, p);
      } else {
        NewPayload(past, s, h.row);
      }
    }
  }

  lemma NewPayload(past: seq<Handler>, s: Server, row: MessageRow)
    ensures var p := ToMessagePayload(row, NameOf(s.names, row.senderId));
            SentIn(past + [Send(row)], p.seqNo) && NamedIn(past + [Send(row)], s.names, p)
  {
    HistoryGrows(past, Send(row), row.seqNo, row.senderId);
  }

  lemma {:induction false} RunKeepsInv(past: seq<Handler>, s: Server, hs: seq<Handler>)
    requires Inv(past, s) && IsRun(s, hs)
    ensures Inv(past + hs, After(s, hs))
    decreases |hs|
  {
    if hs == [] {
      assert past + hs == past;
    } else {
      ServeKeepsInv(past, s, hs[0]);
      RunKeepsInv(past + [hs[0]], Serve(s, hs[0]), hs[1..]);
      assert past + [hs[0]] + hs[1..] == past + hs;
    }
  }

  /** A suffix of the table needs no sorting and passes the contiguity check. */
  lemma SuffixIsRun(items: seq<Payload>, log: Log)
    requires CacheIsSuffix(items, log) && WellNumbered(log)
    ensures forall i :: 0 <= i < |items| ==> items[i].seqNo == |log| - |items| + i + 1
    ensures SortBySeq(items) == items && ContiguousRun(items)
  {
    forall i | 0 <= i < |items|
      ensures items[i].seqNo == |log| - |items| + i + 1
    {
      assert ShowsRow(items[i], log[|log| - |items| + i]);
    }
    SortOfAscending(items);
  }

  const FRESH := Server([], map[], [], 0, 0)

  /**
   * In every serial run, a page the cache serves is the page the database branch would return:
   * messages, order, reactions, hasMore and nextCursor; only the name of a sender renamed after
   * the message was sent may differ.
   */
  lemma CachedPageIsDbPage(hs: seq<Handler>, limit: nat, reactions: seq<ReactionRow>, mode: Mode)
    requires IsRun(FRESH, hs) && 1 <= limit && !mode.Since?
    ensures var s := After(FRESH, hs);
            var cached := CachedPage(VisibleCache(s), reactions, limit);
            cached.Some? ==>
              PagesAgree(hs, cached.value, DbPage(s.log, u => NameOf(s.names, u), reactions, limit, None, mode))
  {
    RunKeepsInv([], FRESH, hs);
    assert [] + hs == hs;
    var s := After(FRESH, hs);
    hide IsRun, After;
    VisiblePageAgrees(hs, s, u => NameOf(s.names, u), reactions, limit, mode);
  }

  lemma VisiblePageAgrees(hs: seq<Handler>, s: Server, names: Names, reactions: seq<ReactionRow>, limit: nat,
                          mode: Mode)
    requires Inv(hs, s) && limit >= 1 && !mode.Since? && forall u :: names(u) == NameOf(s.names, u)
    ensures var cached := CachedPage(VisibleCache(s), reactions, limit);
            cached.Some? ==> PagesAgree(hs, cached.value, DbPage(s.log, names, reactions, limit, None, mode))
  {
    hide DbPage, SortBySeq, PagesAgree, RunPage, NamedIn, SentIn, WellNumbered, CacheIsSuffix;
    var list := VisibleCache(s);
    if |list| >= limit {
      var items := LastN(list, limit);
      SuffixOfSuffix(list, s.log, limit);
      SuffixIsRun(items, s.log);
      SuffixPageAgrees(hs, items, s.log, s.names, names, reactions, limit, mode);
    }
  }

  lemma SuffixPageAgrees(hs: seq<Handler>, items: seq<Payload>, log: Log, table: map<string, string>, names: Names,
                         reactions: seq<ReactionRow>, limit: nat, mode: Mode)
    requires WellNumbered(log) && CacheIsSuffix(items, log) && |items| == limit >= 1 && !mode.Since?
    requires (forall u :: names(u) == NameOf(table, u)) && forall p :: p in items ==> NamedIn(hs, table, p)
    ensures PagesAgree(hs, RunPage(items, reactions), DbPage(log, names, reactions, limit, None, mode))
  {
    hide DbPage, PagesAgree, RunPage, Alike, NamedIn, CacheIsSuffix, WellNumbered, AttachReactions, Payloads;
    SuffixAlike(hs, items, log, table, names);
    NewestDbPage(log, names, reactions, limit, mode);
    AlikePagesAgree(hs, items, Payloads(log[|log| - limit..|log|], names), reactions,
                    DbPage(log, names, reactions, limit, None, mode));
  }

  /** The uncursored database page holds the newest rows. */
  lemma NewestDbPage(log: Log, names: Names, reactions: seq<ReactionRow>, limit: nat, mode: Mode)
    requires WellNumbered(log) && 1 <= limit <= |log| && !mode.Since?
    ensures var q, lo := DbPage(log, names, reactions, limit, None, mode), |log| - limit;
            && q.messages == AttachReactions(Payloads(log[lo..|log|], names), reactions)
            && (q.hasMore <==> lo > 0) && q.nextCursor == (if lo > 0 then Some(lo + 1) else None)
  {
    NewestBounds(|log|, limit, mode);
    hide DbPage, PageStart, PageEnd, WellNumbered, AttachReactions, Payloads;
    DbPageIsRun(log, names, reactions, limit, None, mode);
  }

  lemma AlikePagesAgree(hs: seq<Handler>, items: seq<Payload>, ps: seq<Payload>, reactions: seq<ReactionRow>, q: Page)
    requires |ps| == |items| >= 1 && forall i :: 0 <= i < |items| ==> Alike(hs, items[i], ps[i])
    requires q.messages == AttachReactions(ps, reactions) && (q.hasMore <==> items[0].seqNo > 1)
    requires q.nextCursor == if q.hasMore then Some(items[0].seqNo) else None
    ensures PagesAgree(hs, RunPage(items, reactions), q)
  {
    hide AttachReactions, Alike, SameUnlessRenamed;
    AttachAlike(hs, items, ps, reactions);
  }

  /** The items are the newest rows as the database would show them, up to renamed senders. */
  lemma SuffixAlike(hs: seq<Handler>, items: seq<Payload>, log: Log, table: map<string, string>, names: Names)
    requires WellNumbered(log) && CacheIsSuffix(items, log)
    requires (forall u :: names(u) == NameOf(table, u)) && forall p :: p in items ==> NamedIn(hs, table, p)
    ensures |items| <= |log|
    ensures var lo, ps := |log| - |items|, Payloads(log[|log| - |items|..|log|], names);
            && |ps| == |items|
            && (forall i :: 0 <= i < |items| ==> Alike(hs, items[i], ps[i]))
            && (items != [] ==> items[0].seqNo == lo + 1)
  {
    hide ToMessagePayload, ShowsRow, NamedIn, Alike;
    var lo := |log| - |items|;
    var rows := log[lo..|log|];
    forall i | 0 <= i < |items|
      ensures Alike(hs, items[i], Payloads(rows, names)[i]) && items[i].seqNo == lo + 1 + i
    {
      assert rows[i] == log[lo + i] && items[i] in items;
      ShownAlike(hs, items[i], log[lo + i], table);
    }
  }

  lemma NewestBounds(n: nat, limit: nat, mode: Mode)
    requires limit <= n && !mode.Since?
    ensures PageStart(n, limit, None, mode) == n - limit && PageEnd(n, limit, None, mode) == n
  {
  }

  /** Equal unless the sender was renamed, and so with the same reactions. */
  ghost predicate Alike(hs: seq<Handler>, p: Payload, q: Payload) {
    SameUnlessRenamed(hs, p, q) && p.id == q.id && p.isDeleted == q.isDeleted
  }

  lemma ShownAlike(hs: seq<Handler>, p: Payload, row: MessageRow, table: map<string, string>)
    requires ShowsRow(p, row) && NamedIn(hs, table, p)
    ensures Alike(hs, p, ToMessagePayload(row, NameOf(table, row.senderId))) && p.seqNo == row.seqNo
  {
  }

  lemma AttachAlike(hs: seq<Handler>, ps: seq<Payload>, qs: seq<Payload>, reactions: seq<ReactionRow>)
    requires |ps| == |qs| && forall i :: 0 <= i < |ps| ==> Alike(hs, ps[i], qs[i])
    ensures var ms, ns := AttachReactions(ps, reactions), AttachReactions(qs, reactions);
            && |ms| == |ns|
            && forall i :: 0 <= i < |ms| ==>
                 SameUnlessRenamed(hs, ms[i].payload, ns[i].payload) && ms[i].reactions == ns[i].reactions
  {
    hide SameUnlessRenamed;
  }

  // ----- Redis writes delayed, reordered or lost

  /** A send on its way: it has read its sender's name, or its push is due, or it is over. */
  datatype Sending = HasRead(userId: string, name: Option<string>) | PushDue(payload: Payload) | Over

  /** Committed rows and names, the sends so far, and the list. */
  datatype Net = Net(log: Log, names: map<string, string>, sends: seq<Sending>, cache: seq<Payload>)

  datatype NetStep =
    | ReadSender(t: nat, userId: string)
    | CommitSend(t: nat, row: MessageRow)
    | Push(t: nat)
    | Lose(t: nat)
    | CommitDelete(seqNo: int)
    | CommitRename(userId: string, username: string)
    | DropCache                      // invalidation or expiry, at any time

  predicate Enabled(s: Net, step: NetStep) {
    match step
    case ReadSender(t, _) => t == |s.sends|
    case CommitSend(t, row) =>
      && t < |s.sends| && s.sends[t].HasRead? && row.senderId == s.sends[t].userId
      && row.seqNo == |s.log| + 1 && !row.isDeleted
    case Push(t) => t < |s.sends| && s.sends[t].PushDue?
    case Lose(t) => t < |s.sends|
    case CommitDelete(k) => 1 <= k <= |s.log|
    case CommitRename(_, _) => true
    case DropCache => true
  }

  function Do(s: Net, step: NetStep): Net
    requires Enabled(s, step)
  {
    match step
    case ReadSender(t, u) => s.(sends := s.sends + [HasRead(u, NameOf(s.names, u))])
    case CommitSend(t, row) =>
      s.(log := s.log + [row], sends := s.sends[t := PushDue(ToMessagePayload(row, s.sends[t].name))])
    case Push(t) => s.(sends := s.sends[t := Over], cache := Pushed(s.cache, s.sends[t].payload))
    case Lose(t) => s.(sends := s.sends[t := Over])
    case CommitDelete(k) => s.(log := s.log[k - 1 := Blanked(s.log[k - 1])])
    case CommitRename(u, name) => s.(names := s.names[u := name])
    case DropCache => s.(cache := [])
  }

  ghost predicate IsNetRun(s: Net, steps: seq<NetStep>)
    decreases |steps|
  {
    steps == [] || (Enabled(s, steps[0]) && IsNetRun(Do(s, steps[0]), steps[1..]))
  }

  ghost function AfterNet(s: Net, steps: seq<NetStep>): Net
    requires IsNetRun(s, steps)
    decreases |steps|
  {
    if steps == [] then s else AfterNet(Do(s, steps[0]), steps[1..])
  }

  function Redacted(p: Payload): Payload {
    p.(encryptedContent := "", metadata := None, isDeleted := true)
  }

  /** The payload is the row, or what the row was before it was deleted. */
  ghost predicate WasRow(p: Payload, row: MessageRow) {
    ShowsRow(p, row) || (row.isDeleted && ShowsRow(Redacted(p), row))
  }

  ghost predicate FromLog(p: Payload, log: Log) {
    1 <= p.seqNo <= |log| && WasRow(p, log[p.seqNo - 1])
  }

  predicate ReadsName(step: NetStep, t: nat, u: string) {
    step == ReadSender(t, u)
  }

  predicate Commits(step: NetStep, t: nat, k: int) {
    step.CommitSend? && step.t == t && step.row.seqNo == k
  }

  predicate RenamesTo(step: NetStep, u: string) {
    step.CommitRename? && step.userId == u
  }

  ghost predicate NameRead(past: seq<NetStep>, t: nat, u: string) {
    exists i :: 0 <= i < |past| && ReadsName(past[i], t, u)
  }

  /** A rename of the user was committed after send t had read the name. */
  ghost predicate RenamedAfterRead(past: seq<NetStep>, t: nat, u: string) {
    exists i, j :: 0 <= i < j < |past| && ReadsName(past[i], t, u) && RenamesTo(past[j], u)
  }

  ghost predicate CommittedBy(past: seq<NetStep>, t: nat, k: int) {
    exists i :: 0 <= i < |past| && Commits(past[i], t, k)
  }

  /** The name send t read is the present one, unless its user was renamed since. */
  ghost predicate NameHeld(past: seq<NetStep>, names: map<string, string>, t: nat, u: string, name: Option<string>) {
    NameRead(past, t, u) && (name == NameOf(names, u) || RenamedAfterRead(past, t, u))
  }

  /** The payload was made by a send that committed its number, under the name that send had read. */
  ghost predicate Traced(past: seq<NetStep>, names: map<string, string>, p: Payload) {
    exists t :: CommittedBy(past, t, p.seqNo) && NameHeld(past, names, t, p.senderId, p.senderUsername)
  }

  ghost predicate RowsOk(s: Net) {
    && WellNumbered(s.log)
    && (forall t :: 0 <= t < |s.sends| && s.sends[t].PushDue? ==> FromLog(s.sends[t].payload, s.log))
    && (forall p :: p in s.cache ==> FromLog(p, s.log))
  }

  ghost predicate NamesOk(past: seq<NetStep>, s: Net) {
    && (forall t :: 0 <= t < |s.sends| ==>
          && (s.sends[t].HasRead? ==> NameHeld(past, s.names, t, s.sends[t].userId, s.sends[t].name))
          && (s.sends[t].PushDue? ==> Traced(past, s.names, s.sends[t].payload)))
    && (forall p :: p in s.cache ==> Traced(past, s.names, p))
  }

  lemma FromLogAfterAppend(p: Payload, log: Log, row: MessageRow)
    requires FromLog(p, log)
    ensures FromLog(p, log + [row])
  {
  }

  lemma FromLogAfterDelete(p: Payload, log: Log, k: int)
    requires FromLog(p, log) && 1 <= k <= |log|
    ensures FromLog(p, log[k - 1 := Blanked(log[k - 1])])
  {
    if p.seqNo == k {
      var row := log[k - 1];
      assert ShowsRow(Redacted(p), Blanked(row));
    }
  }

  lemma StepKeepsRow(s: Net, step: NetStep, p: Payload)
    requires Enabled(s, step) && FromLog(p, s.log)
    ensures FromLog(p, Do(s, step).log)
  {
    match step {
      case CommitSend(_, row) => FromLogAfterAppend(p, s.log, row);
      case CommitDelete(k) => FromLogAfterDelete(p, s.log, k);
      case _ =>
    }
  }

  lemma NewRowShown(log: Log, row: MessageRow, name: Option<string>)
    requires row.seqNo == |log| + 1
    ensures FromLog(ToMessagePayload(row, name), log + [row])
  {
  }

  lemma StepKeepsRows(s: Net, step: NetStep)
    requires RowsOk(s) && Enabled(s, step)
    ensures RowsOk(Do(s, step))
  {
    var s' := Do(s, step);
    assert WellNumbered(s'.log);
    if step.CommitSend? {
      NewRowShown(s.log, step.row, s.sends[step.t].name);
    }
    hide FromLog, ToMessagePayload, WellNumbered;
    forall t | 0 <= t < |s'.sends| && s'.sends[t].PushDue?
      ensures FromLog(s'.sends[t].payload, s'.log)
    {
      if t < |s.sends| && s'.sends[t] == s.sends[t] {
        StepKeepsRow(s, step, s.sends[t].payload);
      }
    }
    forall p | p in s'.cache
      ensures FromLog(p, s'.log)
    {
      StepKeepsRow(s, step, p);
    }
  }

  lemma PastGrows(past: seq<NetStep>, step: NetStep, t: nat, u: string, k: int)
    ensures NameRead(past, t, u) || ReadsName(step, t, u) ==> NameRead(past + [step], t, u)
    ensures CommittedBy(past, t, k) || Commits(step, t, k) ==> CommittedBy(past + [step], t, k)
    ensures RenamedAfterRead(past, t, u) ==> RenamedAfterRead(past + [step], t, u)
    ensures NameRead(past, t, u) && RenamesTo(step, u) ==> RenamedAfterRead(past + [step], t, u)
  {
    var now := past + [step];
    assert now[|past|] == step;
    if NameRead(past, t, u) {
      var i :| 0 <= i < |past| && ReadsName(past[i], t, u);
      assert ReadsName(now[i], t, u);
    }
    if CommittedBy(past, t, k) {
      var i :| 0 <= i < |past| && Commits(past[i], t, k);
      assert Commits(now[i], t, k);
    }
    if RenamedAfterRead(past, t, u) {
      var i, j :| 0 <= i < j < |past| && ReadsName(past[i], t, u) && RenamesTo(past[j], u);
      assert ReadsName(now[i], t, u) && RenamesTo(now[j], u);
    }
  }

  lemma StepKeepsName(past: seq<NetStep>, s: Net, step: NetStep, t: nat, u: string, name: Option<string>)
    requires Enabled(s, step) && NameHeld(past, s.names, t, u, name)
    ensures NameHeld(past + [step], Do(s, step).names, t, u, name)
  {
    PastGrows(past, step, t, u, 0);
  }

  lemma StepKeepsTrace(past: seq<NetStep>, s: Net, step: NetStep, p: Payload)
    requires Enabled(s, step) && Traced(past, s.names, p)
    ensures Traced(past + [step], Do(s, step).names, p)
  {
    var t :| CommittedBy(past, t, p.seqNo) && NameHeld(past, s.names, t, p.senderId, p.senderUsername);
    PastGrows(past, step, t, p.senderId, p.seqNo);
    StepKeepsName(past, s, step, t, p.senderId, p.senderUsername);
  }

  /** The send that commits has read the name its payload will carry. */
  lemma CommitTraces(past: seq<NetStep>, s: Net, t: nat, row: MessageRow)
    requires Enabled(s, CommitSend(t, row)) && NameHeld(past, s.names, t, s.sends[t].userId, s.sends[t].name)
    ensures Traced(past + [CommitSend(t, row)], s.names, ToMessagePayload(row, s.sends[t].name))
  {
    PastGrows(past, CommitSend(t, row), t, row.senderId, row.seqNo);
    StepKeepsName(past, s, CommitSend(t, row), t, row.senderId, s.sends[t].name);
  }

  lemma StepKeepsNames(past: seq<NetStep>, s: Net, step: NetStep)
    requires NamesOk(past, s) && Enabled(s, step)
    ensures NamesOk(past + [step], Do(s, step))
  {
    hide NameHeld, Traced, ToMessagePayload;
    var s' := Do(s, step);
    forall t | 0 <= t < |s'.sends|
      ensures s'.sends[t].HasRead? ==> NameHeld(past + [step], s'.names, t, s'.sends[t].userId, s'.sends[t].name)
      ensures s'.sends[t].PushDue? ==> Traced(past + [step], s'.names, s'.sends[t].payload)
    {
      if t == |s.sends| {
        FreshRead(past, s, t, step.userId);
      } else if s'.sends[t] != s.sends[t] {
        if step.CommitSend? {
          CommitTraces(past, s, t, step.row);
        }
      } else if s.sends[t].HasRead? {
        StepKeepsName(past, s, step, t, s.sends[t].userId, s.sends[t].name);
      } else if s.sends[t].PushDue? {
        StepKeepsTrace(past, s, step, s.sends[t].payload);
      }
    }
    forall p | p in s'.cache
      ensures Traced(past + [step], s'.names, p)
    {
      StepKeepsTrace(past, s, step, p);
    }
  }

  lemma FreshRead(past: seq<NetStep>, s: Net, t: nat, u: string)
    ensures NameHeld(past + [ReadSender(t, u)], s.names, t, u, NameOf(s.names, u))
  {
    PastGrows(past, ReadSender(t, u), t, u, 0);
  }

  lemma {:induction false} NetRunKeepsInv(past: seq<NetStep>, s: Net, steps: seq<NetStep>)
    requires RowsOk(s) && NamesOk(past, s) && IsNetRun(s, steps)
    ensures RowsOk(AfterNet(s, steps)) && NamesOk(past + steps, AfterNet(s, steps))
    decreases |steps|
  {
    hide RowsOk, NamesOk;
    if steps == [] {
      assert past + steps == past;
    } else {
      StepKeepsRows(s, steps[0]);
      StepKeepsNames(past, s, steps[0]);
      NetRunKeepsInv(past + [steps[0]], Do(s, steps[0]), steps[1..]);
      assert past + [steps[0]] + steps[1..] == past + steps;
    }
  }

  lemma ReachedNet(steps: seq<NetStep>)
    requires IsNetRun(EMPTY_NET, steps)
    ensures RowsOk(AfterNet(EMPTY_NET, steps)) && NamesOk(steps, AfterNet(EMPTY_NET, steps))
  {
    NetRunKeepsInv([], EMPTY_NET, steps);
    assert [] + steps == steps;
  }

  const EMPTY_NET := Net([], map[], [], [])

  /** A page made of the rows lo, lo + 1, … of a log, perhaps as they were before deletion. */
  ghost predicate IsRunOf(p: Page, log: Log, lo: int, limit: nat) {
    && |p.messages| == limit && 1 <= lo && lo + limit - 1 <= |log|
    && (forall i :: 0 <= i < limit ==>
          p.messages[i].payload.seqNo == lo + i && WasRow(p.messages[i].payload, log[lo + i - 1]))
    && (p.hasMore <==> lo > 1) && p.nextCursor == (if lo > 1 then Some(lo) else None)
    && p.source == FromCache
  }

  lemma {:induction false} RunNumbers(items: seq<Payload>, i: nat)
    requires ContiguousRun(items) && i < |items|
    ensures items[i].seqNo == items[0].seqNo + i
  {
    if i == 0 {
    } else {
      RunNumbers(items, i - 1);
    }
  }

  lemma RunPageIsRun(items: seq<Payload>, log: Log, reactions: seq<ReactionRow>)
    requires items != [] && ContiguousRun(items) && forall i :: 0 <= i < |items| ==> FromLog(items[i], log)
    ensures IsRunOf(RunPage(items, reactions), log, items[0].seqNo, |items|)
  {
    hide WasRow, ReactionsOf;
    forall i | 0 <= i < |items|
      ensures items[i].seqNo == items[0].seqNo + i && FromLog(items[i], log)
    {
      RunNumbers(items, i);
    }
    assert FromLog(items[|items| - 1], log);
  }

  /** Every message carries its sender's present name, or the sender was renamed after the send read it. */
  ghost predicate NamesCurrentUnlessRenamed(p: Page, steps: seq<NetStep>, names: map<string, string>) {
    forall i :: 0 <= i < |p.messages| ==>
      var m := p.messages[i].payload;
      m.senderUsername == NameOf(names, m.senderId)
      || exists t :: CommittedBy(steps, t, m.seqNo) && RenamedAfterRead(steps, t, m.senderId)
  }

  lemma CachedNames(s: Net, steps: seq<NetStep>, reactions: seq<ReactionRow>, limit: nat)
    requires limit >= 1 && NamesOk(steps, s)
    ensures var cached := CachedPage(s.cache, reactions, limit);
            cached.Some? ==> NamesCurrentUnlessRenamed(cached.value, steps, s.names)
  {
    hide SortBySeq, NameRead;
    var items := SortBySeq(LastN(s.cache, limit));
    SortKeeps(LastN(s.cache, limit));
    forall i | 0 <= i < |items|
      ensures Traced(steps, s.names, items[i])
    {
      assert items[i] in items;
    }
  }

  lemma PageOfCachedRows(list: seq<Payload>, log: Log, reactions: seq<ReactionRow>, limit: nat)
    requires limit >= 1 && (forall p :: p in list ==> FromLog(p, log))
    ensures var cached := CachedPage(list, reactions, limit);
            cached.Some? ==> IsRunOf(cached.value, log, cached.value.messages[0].payload.seqNo, limit)
  {
    hide FromLog, SortBySeq, IsRunOf;
    var items := SortBySeq(LastN(list, limit));
    SortKeeps(LastN(list, limit));
    if |list| >= limit && ContiguousRun(items) {
      assert forall i :: 0 <= i < |items| ==> items[i] in items;
      RunPageIsRun(items, log, reactions);
    }
  }

  /**
   * In every interleaving, with pushes delayed, reordered or lost, a page the cache serves is one
   * consecutive run of rows, each as it is or as it was before its deletion, under its sender's
   * present name unless the sender was renamed after the send read it; and following its cursor
   * from then on yields exactly the older rows: no gap, no repeat.
   */
  lemma CachedPageLeavesNoGap(steps: seq<NetStep>, limit: nat, reactions: seq<ReactionRow>,
                              env: nat -> Log, names: Names, limits: nat -> nat)
    requires IsNetRun(EMPTY_NET, steps) && limit >= 1
    requires Growing(env) && Positive(limits) && Extends(AfterNet(EMPTY_NET, steps).log, env(0))
    ensures var s := AfterNet(EMPTY_NET, steps);
            var cached := CachedPage(s.cache, reactions, limit);
            cached.Some? ==>
              var lo := cached.value.messages[0].payload.seqNo;
              && IsRunOf(cached.value, s.log, lo, limit)
              && NamesCurrentUnlessRenamed(cached.value, steps, s.names)
              && var older := if cached.value.hasMore
                              then Collect(FollowBefore(env, names, reactions, limits, 0, lo)) else [];
                 |older| == lo - 1 && ReadsRows(older, s.log, 1)
  {
    var s := AfterNet(EMPTY_NET, steps);
    ReachedNet(steps);
    CachedNames(s, steps, reactions, limit);
    PageOfCachedRows(s.cache, s.log, reactions, limit);
    hide NamesOk, NamesCurrentUnlessRenamed;
    var cached := CachedPage(s.cache, reactions, limit);
    if cached.Some? && cached.value.hasMore {
      var lo := cached.value.messages[0].payload.seqNo;
      FollowBeforeComplete(env, names, reactions, limits, 0, lo);
      ReadsEarlier(Collect(FollowBefore(env, names, reactions, limits, 0, lo)), s.log, env(0), 1);
    }
  }

  /** The same messages in the same order, and the same way to the older ones. */
  ghost predicate SameMessages(p: Page, q: Page) {
    && |p.messages| == |q.messages| && p.hasMore == q.hasMore && p.nextCursor == q.nextCursor
    && forall i :: 0 <= i < |p.messages| ==>
         && p.messages[i].payload.id == q.messages[i].payload.id
         && p.messages[i].payload.seqNo == q.messages[i].payload.seqNo
  }

  lemma RunIsNewestIff(page: Page, log: Log, lo: int, limit: nat, names: Names, reactions: seq<ReactionRow>)
    requires WellNumbered(log) && limit >= 1 && IsRunOf(page, log, lo, limit)
    ensures lo + limit - 1 == |log| <==> SameMessages(page, DbPage(log, names, reactions, limit, None, Before))
  {
    hide DbPage, ToMessagePayload;
    var db := DbPageReads(log, names, reactions, limit, None, Before);
    forall i | 0 <= i < limit
      ensures page.messages[i].payload.id == log[lo + i - 1].id && page.messages[i].payload.seqNo == lo + i
      ensures IsRow(db.messages[i], log, |log| - limit + 1 + i)
    {
      assert WasRow(page.messages[i].payload, log[lo + i - 1]);
      WasRowId(page.messages[i].payload, log[lo + i - 1]);
    }
    assert page.messages[0].payload.seqNo == lo;
    assert db.messages[0].payload.seqNo == |log| - limit + 1;
  }

  lemma WasRowId(p: Payload, row: MessageRow)
    requires WasRow(p, row)
    ensures p.id == row.id
  {
  }

  ghost predicate HasNumber(items: seq<Payload>, k: int) {
    exists i :: 0 <= i < |items| && items[i].seqNo == k
  }

  /** The last `limit` entries of the list bear the newest `limit` numbers of the table, n - limit + 1 to n. */
  ghost predicate HoldsNewest(list: seq<Payload>, n: nat, limit: nat) {
    |list| >= limit && forall k :: n - limit < k <= n ==> HasNumber(LastN(list, limit), k)
  }

  /** Sorting loses no number. */
  lemma SortedNumber(s: seq<Payload>, k: int)
    ensures HasNumber(SortBySeq(s), k) <==> HasNumber(s, k)
  {
    SortPermutes(s);
    forall p
      ensures p in s <==> p in SortBySeq(s)
    {
      assert p in multiset(s) <==> p in multiset(SortBySeq(s));
    }
    hide SortBySeq;
    if HasNumber(s, k) {
      var i :| 0 <= i < |s| && s[i].seqNo == k;
      assert s[i] in SortBySeq(s);
    }
    if HasNumber(SortBySeq(s), k) {
      var i :| 0 <= i < |SortBySeq(s)| && SortBySeq(s)[i].seqNo == k;
      assert SortBySeq(s)[i] in s;
    }
  }

  /** All of the numbers lo, lo + 1, … are there, as many as there are items. */
  ghost predicate Covers(items: seq<Payload>, lo: int) {
    forall k :: lo <= k < lo + |items| ==> HasNumber(items, k)
  }

  lemma {:induction false} NoEarlier(items: seq<Payload>, lo: int, pos: nat)
    requires Ascending(items) && Covers(items, lo) && pos < |items| && lo <= items[pos].seqNo < lo + |items|
    ensures items[pos].seqNo - lo <= pos
    decreases items[pos].seqNo - lo
  {
    var k := items[pos].seqNo;
    if k == lo {
    } else {
      assert HasNumber(items, k - 1);
      var before :| 0 <= before < |items| && items[before].seqNo == k - 1;
      NoEarlier(items, lo, before);
      assert before < pos;
    }
  }

  lemma {:induction false} NoLater(items: seq<Payload>, lo: int, pos: nat)
    requires Ascending(items) && Covers(items, lo) && pos < |items| && lo <= items[pos].seqNo < lo + |items|
    ensures pos <= items[pos].seqNo - lo
    decreases lo + |items| - items[pos].seqNo
  {
    var k := items[pos].seqNo;
    if k == lo + |items| - 1 {
    } else {
      assert HasNumber(items, k + 1);
      var behind :| 0 <= behind < |items| && items[behind].seqNo == k + 1;
      NoLater(items, lo, behind);
      assert pos < behind;
    }
  }

  /** Ascending numbers that cover an interval of their own length are that interval, in order. */
  lemma CoveringIsRun(items: seq<Payload>, lo: int)
    requires Ascending(items) && Covers(items, lo)
    ensures forall i :: 0 <= i < |items| ==> items[i].seqNo == lo + i
  {
    forall i | 0 <= i < |items|
      ensures items[i].seqNo == lo + i
    {
      assert HasNumber(items, lo + i);
      var pos :| 0 <= pos < |items| && items[pos].seqNo == lo + i;
      NoEarlier(items, lo, pos);
      NoLater(items, lo, pos);
    }
  }

  /** A list whose last entries are the newest numbers is served, from its oldest number on. */
  lemma NewestIsServed(list: seq<Payload>, n: nat, reactions: seq<ReactionRow>, limit: nat)
    requires limit >= 1 && HoldsNewest(list, n, limit)
    ensures var cached := CachedPage(list, reactions, limit);
            cached.Some? && cached.value.messages != [] && cached.value.messages[0].payload.seqNo == n - limit + 1
  {
    var last := LastN(list, limit);
    var items := SortBySeq(last);
    SortKeeps(last);
    forall k | n - limit < k <= n
      ensures HasNumber(items, k)
    {
      SortedNumber(last, k);
    }
    hide SortBySeq, HasNumber;
    CoveringIsRun(items, n - limit + 1);
  }

  /** And a page that is the run lo, lo + 1, … came from entries with these numbers. */
  lemma ServedNumbers(list: seq<Payload>, log: Log, reactions: seq<ReactionRow>, limit: nat, lo: int, k: int)
    requires limit >= 1 && CachedPage(list, reactions, limit).Some? && lo <= k < lo + limit
    requires IsRunOf(CachedPage(list, reactions, limit).value, log, lo, limit)
    ensures |list| >= limit && HasNumber(LastN(list, limit), k)
  {
    hide WasRow;
    var items := SortBySeq(LastN(list, limit));
    SortedNumber(LastN(list, limit), k);
    hide SortBySeq;
    var p := CachedPage(list, reactions, limit).value;
    assert p.messages[k - lo].payload == items[k - lo];
    assert p.messages[k - lo].payload.seqNo == lo + (k - lo);
  }

  /**
   * The promise of "the newest page" can fail under interleaving. It is kept exactly when, before the
   * call, the last `limit` entries of the list bear the newest `limit` committed numbers: then a page is
   * served and it has the messages, hasMore and nextCursor of the newest database page.
   */
  lemma CachedPageIsNewestIff(steps: seq<NetStep>, limit: nat, reactions: seq<ReactionRow>, names: Names)
    requires IsNetRun(EMPTY_NET, steps) && limit >= 1
    ensures var s := AfterNet(EMPTY_NET, steps);
            var cached := CachedPage(s.cache, reactions, limit);
            (cached.Some? && SameMessages(cached.value, DbPage(s.log, names, reactions, limit, None, Before))
             <==> HoldsNewest(s.cache, |s.log|, limit))
  {
    var s := AfterNet(EMPTY_NET, steps);
    ReachedNet(steps);
    PageOfCachedRows(s.cache, s.log, reactions, limit);
    hide DbPage, CachedPage, IsRunOf, HasNumber, SameMessages;
    var cached := CachedPage(s.cache, reactions, limit);
    if HoldsNewest(s.cache, |s.log|, limit) {
      NewestIsServed(s.cache, |s.log|, reactions, limit);
    }
    if cached.Some? {
      var lo := cached.value.messages[0].payload.seqNo;
      RunIsNewestIff(cached.value, s.log, lo, limit, names, reactions);
      if lo + limit - 1 == |s.log| {
        forall k | |s.log| - limit < k <= |s.log|
          ensures |s.cache| >= limit && HasNumber(LastN(s.cache, limit), k)
        {
          ServedNumbers(s.cache, s.log, reactions, limit, lo, k);
        }
      }
    }
  }

  /** The second message is committed, its push is still on its way. */
  function LagSteps(row: MessageRow, row2: MessageRow): seq<NetStep> {
    [ReadSender(0, row.senderId), CommitSend(0, row), Push(0), ReadSender(1, row2.senderId), CommitSend(1, row2)]
  }

  lemma PushOntoEmpty(p: Payload)
    ensures Pushed([], p) == [p]
  {
  }

  lemma LagRun(row: MessageRow, row2: MessageRow) returns (s: Net)
    requires row.seqNo == 1 && row2.seqNo == 2 && !row.isDeleted && !row2.isDeleted
    ensures IsNetRun(EMPTY_NET, LagSteps(row, row2)) && s == AfterNet(EMPTY_NET, LagSteps(row, row2))
    ensures s.log == [row, row2] && s.cache == [ToMessagePayload(row, None)]
  {
    hide ToMessagePayload, IsNetRun, AfterNet, Pushed;
    var c := LagSteps(row, row2);
    var p, read, read2 := ToMessagePayload(row, None), HasRead(row.senderId, None), HasRead(row2.senderId, None);
    var s1 := Net([], map[], [read], []);
    var s2 := Net([row], map[], [PushDue(p)], []);
    var s3 := Net([row], map[], [Over], [p]);
    var s4 := Net([row], map[], [Over, read2], [p]);
    s := Net([row, row2], map[], [Over, PushDue(ToMessagePayload(row2, None))], [p]);
    PushOntoEmpty(p);
    assert Do(EMPTY_NET, c[0]) == s1 && Do(s1, c[1]) == s2 && Do(s2, c[2]) == s3;
    assert Do(s3, c[3]) == s4 && Do(s4, c[4]) == s;
    EmptyRun(s);
    assert c[5..] == [] && c[0..] == c;
    RunFrom(s4, c, 4);
    RunFrom(s3, c, 3);
    RunFrom(s2, c, 2);
    RunFrom(s1, c, 1);
    RunFrom(EMPTY_NET, c, 0);
  }

  /** Such a lag does happen: for any two messages there is a run after which the first is served as the newest. */
  lemma CachedPageMayLag(row: MessageRow, row2: MessageRow, reactions: seq<ReactionRow>, names: Names)
    requires row.seqNo == 1 && row2.seqNo == 2 && row.id != row2.id && !row.isDeleted && !row2.isDeleted
    ensures IsNetRun(EMPTY_NET, LagSteps(row, row2))
    ensures var s := AfterNet(EMPTY_NET, LagSteps(row, row2));
            var cached := CachedPage(s.cache, reactions, 1);
            && s.log == [row, row2] && cached.Some? && cached.value.messages[0].payload.seqNo == 1
            && !SameMessages(cached.value, DbPage(s.log, names, reactions, 1, None, Before))
  {
    hide IsNetRun, AfterNet, CachedPage, DbPage, SameMessages, LagSteps;
    var s := LagRun(row, row2);
    LoneEntryServed(s.cache[0], reactions);
    LoneEntryLags(s.cache[0], s.log, reactions, names);
  }

  lemma LoneEntryServed(p: Payload, reactions: seq<ReactionRow>)
    ensures var cached := CachedPage([p], reactions, 1);
            cached.Some? && |cached.value.messages| == 1 && cached.value.messages[0].payload == p
  {
    SortOfAscending([p]);
  }

  /** The newest page of two rows shows the second. */
  lemma LoneEntryLags(p: Payload, log: Log, reactions: seq<ReactionRow>, names: Names)
    requires p.seqNo == 1 && |log| == 2 && WellNumbered(log) && CachedPage([p], reactions, 1).Some?
    ensures !SameMessages(CachedPage([p], reactions, 1).value, DbPage(log, names, reactions, 1, None, Before))
  {
    LoneEntryServed(p, reactions);
    hide CachedPage, DbPage;
    var db := DbPageReads(log, names, reactions, 1, None, Before);
    assert IsRow(db.messages[0], log, 2);
  }

  lemma EmptyRun(s: Net)
    ensures IsNetRun(s, []) && AfterNet(s, []) == s
  {
  }

  lemma RunFrom(s: Net, steps: seq<NetStep>, i: nat)
    requires i < |steps| && Enabled(s, steps[i]) && IsNetRun(Do(s, steps[i]), steps[i + 1..])
    ensures IsNetRun(s, steps[i..]) && AfterNet(s, steps[i..]) == AfterNet(Do(s, steps[i]), steps[i + 1..])
  {
    assert steps[i..][1..] == steps[i + 1..];
  }
}

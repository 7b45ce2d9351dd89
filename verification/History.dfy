/**
 * Message history of one channel: payloads (src/modules/messages/message-payload.ts), the database
 * branch of getMessages (src/modules/messages/messages.service.ts) and clients that follow its cursors.
 */
module History {
  import opened Options
  import opened Selections

  datatype MessageRow = MessageRow(
    id: string, channelId: string, senderId: string, encryptedContent: string, contentIv: string,
    contentTag: string, signature: string, seqNo: int, senderKeyEpoch: int, messageType: string,
    metadata: Option<string>, isDeleted: bool, createdAt: string)

  datatype Payload = Payload(
    id: string, messageId: string, channelId: string, senderId: string, senderUsername: Option<string>,
    encryptedContent: string, contentIv: string, contentTag: string, signature: string, seqNo: int,
    senderKeyEpoch: int, messageType: string, metadata: Option<string>, isDeleted: bool, createdAt: string)

  function ToMessagePayload(row: MessageRow, senderUsername: Option<string>): Payload {
    Payload(row.id, row.id, row.channelId, row.senderId, senderUsername,
            if row.isDeleted then "" else row.encryptedContent, row.contentIv, row.contentTag, row.signature,
            row.seqNo, row.senderKeyEpoch, row.messageType,
            if row.isDeleted then None else row.metadata, row.isDeleted, row.createdAt)
  }

  /** What deleteMessage leaves of a row. */
  function Blanked(row: MessageRow): MessageRow {
    row.(isDeleted := true, encryptedContent := "", metadata := None)
  }

  datatype ReactionRow = ReactionRow(messageId: string, emoji: string, userId: string, username: Option<string>)
  datatype HistoryMessage = HistoryMessage(payload: Payload, reactions: seq<ReactionRow>)
  datatype Source = FromCache | FromDatabase
  datatype Page = Page(messages: seq<HistoryMessage>, nextCursor: Option<int>, hasMore: bool, source: Source)
  datatype Mode = Latest | Before | Since

  function ReactionsOf(table: seq<ReactionRow>, id: string): seq<ReactionRow> {
    if table == [] then []
    else
      var last := table[|table| - 1];
      ReactionsOf(table[..|table| - 1], id) + if last.messageId == id then [last] else []
  }

  function AttachReactions(items: seq<Payload>, table: seq<ReactionRow>): (ms: seq<HistoryMessage>)
    ensures |ms| == |items|
    ensures forall i :: 0 <= i < |ms| ==> ms[i].payload == items[i]
    ensures forall i :: 0 <= i < |ms| ==>
              ms[i].reactions == (if items[i].isDeleted then [] else ReactionsOf(table, items[i].id))
  {
    seq(|items|, i requires 0 <= i < |items| =>
      HistoryMessage(items[i], if items[i].isDeleted then [] else ReactionsOf(table, items[i].id)))
  }

  /** A message carries exactly the table's reactions to it, in table order, and none if it is deleted. */
  ghost predicate HasItsReactions(m: HistoryMessage, table: seq<ReactionRow>) {
    exists places ::
      && IsSelection(m.reactions, table, places)
      && forall k :: 0 <= k < |table| ==> (k in places <==> !m.payload.isDeleted && table[k].messageId == m.payload.id)
  }

  lemma {:induction false} ReactionPlaces(table: seq<ReactionRow>, id: string) returns (places: seq<int>)
    ensures IsSelection(ReactionsOf(table, id), table, places)
    ensures forall k :: 0 <= k < |table| ==> (k in places <==> table[k].messageId == id)
  {
    hide IsSelection;
    if table == [] {
      NothingPicked<ReactionRow>();
      return [];
    }
    var n := |table| - 1;
    var front := ReactionPlaces(table[..n], id);
    OneMorePicked(ReactionsOf(table[..n], id), table, front, n);
    PlacesBelow(ReactionsOf(table[..n], id), table[..n], front, n);
    if table[n].messageId == id {
      places := front + [n];
    } else {
      places := front;
      assert ReactionsOf(table[..n], id) + [] == ReactionsOf(table[..n], id);
    }
    forall k | 0 <= k < |table|
      ensures k in places <==> table[k].messageId == id
    {
      assert k < n ==> (k in front <==> table[..n][k].messageId == id);
    }
  }

  lemma AttachedReactions(items: seq<Payload>, table: seq<ReactionRow>, i: nat)
    requires i < |items|
    ensures HasItsReactions(AttachReactions(items, table)[i], table)
  {
    var m := AttachReactions(items, table)[i];
    if m.payload.isDeleted {
      assert IsSelection(m.reactions, table, []);
    } else {
      var places := ReactionPlaces(table, items[i].id);
    }
  }

  // ----- the messages table

  type Log = seq<MessageRow>
  type Names = string -> Option<string>

  /** The committed rows in sequence order: numbers 1..n (MessageLog.SequenceNumbersContiguous). */
  predicate WellNumbered(log: Log) {
    forall i :: 0 <= i < |log| ==> log[i].seqNo == i + 1
  }

  predicate Selected(row: MessageRow, mode: Mode, cursor: Option<int>) {
    && (mode.Before? && cursor.Some? ==> row.seqNo < cursor.value)
    && (mode.Since? && cursor.Some? ==> row.seqNo > cursor.value)
  }

  function Where(log: Log, mode: Mode, cursor: Option<int>): Log {
    if log == [] then []
    else
      var last := log[|log| - 1];
      Where(log[..|log| - 1], mode, cursor) + (if Selected(last, mode, cursor) then [last] else [])
  }

  function Reverse<T>(s: seq<T>): seq<T> {
    seq(|s|, i requires 0 <= i < |s| => s[|s| - 1 - i])
  }

  function FirstN<T>(s: seq<T>, n: nat): seq<T> {
    if |s| <= n then s else s[..n]
  }

  function LastN<T>(s: seq<T>, n: nat): seq<T> {
    if |s| <= n then s else s[|s| - n..]
  }

  function Payloads(rows: Log, names: Names): (ps: seq<Payload>)
    ensures |ps| == |rows|
    ensures forall i :: 0 <= i < |ps| ==> ps[i] == ToMessagePayload(rows[i], names(rows[i].senderId))
  {
    seq(|rows|, i requires 0 <= i < |rows| => ToMessagePayload(rows[i], names(rows[i].senderId)))
  }

  /** `min(max(trunc(limit) || 50, 1), 100)`, for the truncated limit. */
  function SafeLimit(limit: int): (n: nat)
    ensures 1 <= n <= 100
    ensures 1 <= limit <= 100 ==> n == limit
    ensures limit == 0 ==> n == 50
    ensures limit < 0 ==> n == 1
    ensures limit > 100 ==> n == 100
  {
    var l := if limit == 0 then 50 else limit;
    if l < 1 then 1 else if l > 100 then 100 else l
  }

  /** A page over rows in ascending order, with the cursor of its direction. */
  function BuildPage(rows: Log, hasMore: bool, mode: Mode, names: Names, reactions: seq<ReactionRow>): Page {
    var payloads := Payloads(rows, names);
    var nextCursor :=
      if !hasMore || payloads == [] then None
      else if mode.Since? then Some(payloads[|payloads| - 1].seqNo)
      else Some(payloads[0].seqNo);
    Page(AttachReactions(payloads, reactions), nextCursor, hasMore, FromDatabase)
  }

  /** The database branch of getMessages. */
  function DbPage(log: Log, names: Names, reactions: seq<ReactionRow>, limit: nat, cursor: Option<int>,
                  mode: Mode): Page
    requires limit >= 1
  {
    var hits := Where(log, mode, cursor);
    var rows := FirstN(if mode.Since? then hits else Reverse(hits), limit + 1);
    var page := FirstN(rows, limit);
    BuildPage(if mode.Since? then page else Reverse(page), |rows| > limit, mode, names, reactions)
  }

  function Clip(c: int, n: nat): nat {
    if c < 0 then 0 else if c > n then n else c
  }

  /** Position of the first and one past the last row of a page, as the contract of the API words it. */
  function PageStart(n: nat, limit: nat, cursor: Option<int>, mode: Mode): nat {
    if mode.Since? then (if cursor.Some? then Clip(cursor.value, n) else 0)
    else Clip(PageEnd(n, limit, cursor, mode) - limit, n)
  }

  function PageEnd(n: nat, limit: nat, cursor: Option<int>, mode: Mode): nat {
    if mode.Since? then Clip((if cursor.Some? then Clip(cursor.value, n) else 0) + limit, n)
    else if mode.Before? && cursor.Some? then Clip(cursor.value - 1, n)
    else n
  }

  lemma {:induction false} WhereAll(log: Log, mode: Mode, cursor: Option<int>)
    requires mode.Latest? || cursor.None?
    ensures Where(log, mode, cursor) == log
  {
    if log == [] {
    } else {
      WhereAll(log[..|log| - 1], mode, cursor);
    }
  }

  lemma {:induction false} WhereOlder(log: Log, c: int)
    requires WellNumbered(log)
    ensures Where(log, Before, Some(c)) == log[..Clip(c - 1, |log|)]
  {
    if log == [] {
    } else {
      var n := |log| - 1;
      WhereOlder(log[..n], c);
      if log[n].seqNo < c {
        assert Clip(c - 1, |log|) == n + 1;
        assert log[..n][..n] + [log[n]] == log[..n + 1];
      } else {
        assert log[..n][..Clip(c - 1, n)] == log[..Clip(c - 1, |log|)];
      }
    }
  }

  lemma TailGrows<T>(s: seq<T>, lo: nat)
    requires lo < |s|
    ensures s[..|s| - 1][lo..] + [s[|s| - 1]] == s[lo..]
  {
  }

  lemma {:induction false} WhereNewer(log: Log, c: int)
    requires WellNumbered(log)
    ensures Where(log, Since, Some(c)) == log[Clip(c, |log|)..]
  {
    if log == [] {
    } else {
      var n := |log| - 1;
      WhereNewer(log[..n], c);
      if log[n].seqNo > c {
        TailGrows(log, Clip(c, n));
      }
    }
  }

  lemma TakeOneMore<T>(s: seq<T>, k: nat)
    ensures FirstN(FirstN(s, k + 1), k) == FirstN(s, k)
    ensures |FirstN(s, k + 1)| > k <==> |s| > k
  {
  }

  lemma TakeFrom<T>(s: seq<T>, lo: nat, k: nat, hi: nat)
    requires lo <= |s| && hi == (if lo + k < |s| then lo + k else |s|)
    ensures FirstN(s[lo..], k) == s[lo..hi]
  {
  }

  /** Reversing, taking k and reversing back is taking the last k. */
  lemma ReverseTakeReverse<T>(s: seq<T>, k: nat)
    ensures Reverse(FirstN(Reverse(s), k)) == LastN(s, k)
  {
  }

  lemma LastOfPrefix<T>(s: seq<T>, hi: nat, k: nat, lo: nat)
    requires hi <= |s| && lo == (if hi < k then 0 else hi - k)
    ensures LastN(s[..hi], k) == s[lo..hi]
  {
  }

  /** Rows in page order, and whether the query saw one more, for an ascending query. */
  lemma ForwardRows(log: Log, limit: nat, cursor: Option<int>, lo: nat, hi: nat)
    requires WellNumbered(log)
    requires lo == PageStart(|log|, limit, cursor, Since) && hi == PageEnd(|log|, limit, cursor, Since)
    ensures lo <= hi <= |log|
    ensures var rows := FirstN(Where(log, Since, cursor), limit + 1);
            FirstN(rows, limit) == log[lo..hi] && (|rows| > limit <==> hi < |log|)
  {
    if cursor.Some? { WhereNewer(log, cursor.value); } else { WhereAll(log, Since, cursor); }
    var hits := Where(log, Since, cursor);
    assert hits == log[lo..];
    TakeOneMore(hits, limit);
    TakeFrom(log, lo, limit, hi);
  }

  /** The same for a descending query, reversed back. */
  lemma BackwardRows(log: Log, limit: nat, cursor: Option<int>, mode: Mode, lo: nat, hi: nat)
    requires WellNumbered(log) && !mode.Since?
    requires lo == PageStart(|log|, limit, cursor, mode) && hi == PageEnd(|log|, limit, cursor, mode)
    ensures lo <= hi <= |log|
    ensures var rows := FirstN(Reverse(Where(log, mode, cursor)), limit + 1);
            Reverse(FirstN(rows, limit)) == log[lo..hi] && (|rows| > limit <==> lo > 0)
  {
    if mode.Before? && cursor.Some? { WhereOlder(log, cursor.value); } else { WhereAll(log, mode, cursor); }
    var hits := Where(log, mode, cursor);
    assert hits == log[..hi];
    TakeOneMore(Reverse(hits), limit);
    ReverseTakeReverse(hits, limit);
    LastOfPrefix(log, hi, limit, lo);
  }

  /** The query, the slice and the reversal together pick the rows from lo to hi. */
  lemma DbPageBuilt(log: Log, names: Names, reactions: seq<ReactionRow>, limit: nat, cursor: Option<int>, mode: Mode)
    requires limit >= 1 && WellNumbered(log)
    ensures var lo, hi := PageStart(|log|, limit, cursor, mode), PageEnd(|log|, limit, cursor, mode);
            && lo <= hi <= |log|
            && DbPage(log, names, reactions, limit, cursor, mode)
               == BuildPage(log[lo..hi], if mode.Since? then hi < |log| else lo > 0, mode, names, reactions)
  {
    hide Where, Reverse, FirstN, BuildPage, WellNumbered, PageStart, PageEnd;
    var lo, hi := PageStart(|log|, limit, cursor, mode), PageEnd(|log|, limit, cursor, mode);
    if mode.Since? {
      ForwardRows(log, limit, cursor, lo, hi);
    } else {
      BackwardRows(log, limit, cursor, mode, lo, hi);
    }
  }

  /** If there is more, the page holds a row. */
  lemma MoreMeansSome(n: nat, limit: nat, cursor: Option<int>, mode: Mode)
    requires limit >= 1
    ensures var lo, hi := PageStart(n, limit, cursor, mode), PageEnd(n, limit, cursor, mode);
            lo <= hi <= n && ((if mode.Since? then hi < n else lo > 0) ==> lo < hi)
  {
  }

  lemma RunEnds(log: Log, lo: nat, hi: nat)
    requires WellNumbered(log) && lo < hi <= |log|
    ensures log[lo..hi][0].seqNo == lo + 1 && log[lo..hi][|log[lo..hi]| - 1].seqNo == hi
  {
  }

  /** A database page is exactly one run of rows, and its cursor is where that run ends. */
  lemma DbPageIsRun(log: Log, names: Names, reactions: seq<ReactionRow>, limit: nat, cursor: Option<int>, mode: Mode)
    requires limit >= 1 && WellNumbered(log)
    ensures var p := DbPage(log, names, reactions, limit, cursor, mode);
            var lo, hi := PageStart(|log|, limit, cursor, mode), PageEnd(|log|, limit, cursor, mode);
            && lo <= hi <= |log|
            && p.messages == AttachReactions(Payloads(log[lo..hi], names), reactions)
            && (p.hasMore <==> if mode.Since? then hi < |log| else lo > 0)
            && p.nextCursor == (if !p.hasMore then None else if mode.Since? then Some(hi) else Some(lo + 1))
  {
    hide DbPage, BuildPage, WellNumbered, PageStart, PageEnd;
    var lo, hi := PageStart(|log|, limit, cursor, mode), PageEnd(|log|, limit, cursor, mode);
    var more := if mode.Since? then hi < |log| else lo > 0;
    DbPageBuilt(log, names, reactions, limit, cursor, mode);
    BuiltPage(log[lo..hi], more, mode, names, reactions);
    MoreMeansSome(|log|, limit, cursor, mode);
    if more {
      RunEnds(log, lo, hi);
    }
  }

  lemma BuiltPage(rows: Log, more: bool, mode: Mode, names: Names, reactions: seq<ReactionRow>)
    ensures var p := BuildPage(rows, more, mode, names, reactions);
            && p.messages == AttachReactions(Payloads(rows, names), reactions)
            && p.hasMore == more
            && p.nextCursor == (if !more || rows == [] then None
                                else Some(rows[if mode.Since? then |rows| - 1 else 0].seqNo))
  {
    hide AttachReactions, ToMessagePayload;
    if rows != [] {
      PayloadNumber(rows, names, if mode.Since? then |rows| - 1 else 0);
    }
  }

  lemma PayloadNumber(rows: Log, names: Names, i: nat)
    requires i < |rows|
    ensures Payloads(rows, names)[i].seqNo == rows[i].seqNo
  {
    assert Payloads(rows, names)[i] == ToMessagePayload(rows[i], names(rows[i].senderId));
  }

  /** Everything a client is shown of a row: nothing of the content of a deleted one. */
  ghost predicate ShowsFully(m: HistoryMessage, row: MessageRow, name: Option<string>, table: seq<ReactionRow>) {
    var p := m.payload;
    && p.id == p.messageId == row.id && p.channelId == row.channelId
    && p.senderId == row.senderId && p.senderUsername == name
    && p.contentIv == row.contentIv && p.contentTag == row.contentTag && p.signature == row.signature
    && p.seqNo == row.seqNo && p.senderKeyEpoch == row.senderKeyEpoch && p.messageType == row.messageType
    && p.createdAt == row.createdAt && p.isDeleted == row.isDeleted
    && p.encryptedContent == (if row.isDeleted then "" else row.encryptedContent)
    && p.metadata == (if row.isDeleted then None else row.metadata)
    && HasItsReactions(m, table)
  }

  lemma PayloadShows(row: MessageRow, name: Option<string>, reactions: seq<ReactionRow>, m: HistoryMessage)
    requires m.payload == ToMessagePayload(row, name) && HasItsReactions(m, reactions)
    ensures ShowsFully(m, row, name, reactions)
  {
    hide HasItsReactions;
  }

  /**
   * The rows from lo to hi are the page: in 'since' mode the first ones above the cursor, otherwise the last
   * ones below it, as many as there are up to the limit.
   */
  ghost predicate PageTakes(log: Log, limit: nat, cursor: Option<int>, mode: Mode, lo: nat, hi: nat) {
    && lo <= hi <= |log|
    && if mode.Since?
       then && (forall i :: 0 <= i < |log| ==> (cursor.None? || log[i].seqNo > cursor.value <==> i >= lo))
            && hi == if lo + limit <= |log| then lo + limit else |log|
       else && (forall i :: 0 <= i < |log| ==>
                  (mode.Latest? || cursor.None? || log[i].seqNo < cursor.value <==> i < hi))
            && lo == if limit <= hi then hi - limit else 0
  }

  lemma PageBounds(log: Log, limit: nat, cursor: Option<int>, mode: Mode) returns (lo: nat, hi: nat)
    requires limit >= 1 && WellNumbered(log)
    ensures lo == PageStart(|log|, limit, cursor, mode) && hi == PageEnd(|log|, limit, cursor, mode)
    ensures PageTakes(log, limit, cursor, mode, lo, hi)
  {
    lo, hi := PageStart(|log|, limit, cursor, mode), PageEnd(|log|, limit, cursor, mode);
  }

  lemma PageTakesSome(log: Log, limit: nat, cursor: Option<int>, mode: Mode, lo: nat, hi: nat)
    requires PageTakes(log, limit, cursor, mode, lo, hi)
    ensures lo <= hi <= |log|
  {
  }

  lemma RunShows(log: Log, lo: nat, hi: nat, names: Names, reactions: seq<ReactionRow>, i: nat)
    requires WellNumbered(log) && lo <= hi <= |log| && i < hi - lo
    ensures var m := AttachReactions(Payloads(log[lo..hi], names), reactions)[i];
            ShowsFully(m, log[lo + i], names(log[lo + i].senderId), reactions)
  {
    hide ReactionsOf, ToMessagePayload, ShowsFully, HasItsReactions;
    var rows := log[lo..hi];
    assert rows[i] == log[lo + i];
    AttachedReactions(Payloads(rows, names), reactions, i);
    PayloadShows(rows[i], names(rows[i].senderId), reactions, AttachReactions(Payloads(rows, names), reactions)[i]);
  }

  /**
   * A database page spelled out: which rows it takes, everything that is shown of each, and where the
   * next page begins.
   */
  lemma DbPageShows(log: Log, names: Names, reactions: seq<ReactionRow>, limit: nat, cursor: Option<int>, mode: Mode)
    returns (lo: nat, hi: nat)
    requires limit >= 1 && WellNumbered(log)
    ensures lo <= hi <= |log| && PageTakes(log, limit, cursor, mode, lo, hi)
    ensures var p := DbPage(log, names, reactions, limit, cursor, mode);
            && |p.messages| == hi - lo
            && (forall i :: 0 <= i < hi - lo ==>
                  ShowsFully(p.messages[i], log[lo + i], names(log[lo + i].senderId), reactions))
            && (p.hasMore <==> if mode.Since? then hi < |log| else lo > 0)
            && p.nextCursor == (if !p.hasMore then None else Some(if mode.Since? then hi else lo + 1))
            && p.source == FromDatabase
  {
    hide DbPage, AttachReactions, Payloads, ShowsFully, WellNumbered, PageStart, PageEnd, PageTakes;
    lo, hi := PageBounds(log, limit, cursor, mode);
    assert lo <= hi <= |log| by { PageTakesSome(log, limit, cursor, mode, lo, hi); }
    PageIsFromDatabase(log, names, reactions, limit, cursor, mode);
    DbPageIsRun(log, names, reactions, limit, cursor, mode);
    forall i | 0 <= i < hi - lo
      ensures var m := AttachReactions(Payloads(log[lo..hi], names), reactions)[i];
              ShowsFully(m, log[lo + i], names(log[lo + i].senderId), reactions)
    {
      RunShows(log, lo, hi, names, reactions, i);
    }
  }

  lemma PageIsFromDatabase(log: Log, names: Names, reactions: seq<ReactionRow>, limit: nat, cursor: Option<int>,
                           mode: Mode)
    requires limit >= 1
    ensures DbPage(log, names, reactions, limit, cursor, mode).source == FromDatabase
    ensures forall m :: m in DbPage(log, names, reactions, limit, cursor, mode).messages ==>
              HasItsReactions(m, reactions)
  {
    hide HasItsReactions, AttachReactions, Where, Reverse, FirstN;
    var hits := Where(log, mode, cursor);
    var rows := FirstN(if mode.Since? then hits else Reverse(hits), limit + 1);
    var page := FirstN(rows, limit);
    BuiltPageReactions(if mode.Since? then page else Reverse(page), |rows| > limit, mode, names, reactions);
  }

  lemma BuiltPageReactions(rows: Log, more: bool, mode: Mode, names: Names, reactions: seq<ReactionRow>)
    ensures forall m :: m in BuildPage(rows, more, mode, names, reactions).messages ==> HasItsReactions(m, reactions)
  {
    hide HasItsReactions, ReactionsOf;
    var ps := Payloads(rows, names);
    forall i | 0 <= i < |ps|
      ensures HasItsReactions(AttachReactions(ps, reactions)[i], reactions)
    {
      AttachedReactions(ps, reactions, i);
    }
  }

  /** The same page seen by a client that follows cursors. */
  lemma DbPageReads(log: Log, names: Names, reactions: seq<ReactionRow>, limit: nat, cursor: Option<int>, mode: Mode)
    returns (p: Page)
    requires limit >= 1 && WellNumbered(log)
    ensures p == DbPage(log, names, reactions, limit, cursor, mode)
    ensures var lo, hi := PageStart(|log|, limit, cursor, mode), PageEnd(|log|, limit, cursor, mode);
            && |p.messages| == hi - lo && ReadsRows(p.messages, log, lo + 1)
            && (p.hasMore <==> if mode.Since? then hi < |log| else lo > 0)
            && p.nextCursor == (if !p.hasMore then None else if mode.Since? then Some(hi) else Some(lo + 1))
  {
    hide DbPage, PageStart, PageEnd, WellNumbered;
    DbPageIsRun(log, names, reactions, limit, cursor, mode);
    p := DbPage(log, names, reactions, limit, cursor, mode);
    SliceReads(log, PageStart(|log|, limit, cursor, mode), PageEnd(|log|, limit, cursor, mode), names, reactions);
  }

  lemma SliceReads(log: Log, lo: nat, hi: nat, names: Names, reactions: seq<ReactionRow>)
    requires lo <= hi <= |log| && WellNumbered(log)
    ensures ReadsRows(AttachReactions(Payloads(log[lo..hi], names), reactions), log, lo + 1)
  {
    hide ReactionsOf;
    var ms := AttachReactions(Payloads(log[lo..hi], names), reactions);
    forall i | 0 <= i < |ms|
      ensures IsRow(ms[i], log, lo + 1 + i)
    {
      assert log[lo..hi][i] == log[lo + i];
    }
  }

  /** The messages are rows from, from + 1, … of the log, each once, in order. */
  ghost predicate ReadsRows(ms: seq<HistoryMessage>, log: Log, from: int) {
    forall i :: 0 <= i < |ms| ==> IsRow(ms[i], log, from + i)
  }

  ghost predicate IsRow(m: HistoryMessage, log: Log, k: int) {
    1 <= k <= |log| && m.payload.seqNo == k && m.payload.id == log[k - 1].id
  }

  lemma ReadsConcat(ms: seq<HistoryMessage>, ns: seq<HistoryMessage>, log: Log, from: int)
    requires ReadsRows(ms, log, from) && ReadsRows(ns, log, from + |ms|)
    ensures ReadsRows(ms + ns, log, from)
  {
    forall i | 0 <= i < |ms + ns|
      ensures IsRow((ms + ns)[i], log, from + i)
    {
      if i >= |ms| {
        assert IsRow(ns[i - |ms|], log, from + |ms| + (i - |ms|));
      }
    }
  }

  lemma ReadsEarlier(ms: seq<HistoryMessage>, log: Log, later: Log, from: int)
    requires ReadsRows(ms, later, from) && Extends(log, later) && from + |ms| <= |log| + 1
    ensures ReadsRows(ms, log, from)
  {
  }

  lemma ReadsLater(ms: seq<HistoryMessage>, log: Log, later: Log, from: int)
    requires ReadsRows(ms, log, from) && Extends(log, later)
    ensures ReadsRows(ms, later, from)
  {
  }

  // ----- following cursors while the log grows

  /** A later table: more rows at the end, same ids before. */
  ghost predicate Extends(log: Log, later: Log) {
    |log| <= |later| && forall i :: 0 <= i < |log| ==> log[i].id == later[i].id
  }

  /** The table each request of a client sees: messages are added and blanked, never removed. */
  ghost predicate Growing(env: nat -> Log) {
    && (forall t :: WellNumbered(env(t)))
    && (forall t, u :: t <= u ==> Extends(env(t), env(u)))
  }

  ghost predicate Positive(limits: nat -> nat) {
    forall t :: limits(t) >= 1
  }

  lemma CursorsDescend(log: Log, names: Names, reactions: seq<ReactionRow>, limit: nat, cursor: int)
    requires limit >= 1 && WellNumbered(log)
    ensures var p := DbPage(log, names, reactions, limit, Some(cursor), Before);
            p.hasMore ==> p.nextCursor.Some? && 2 <= p.nextCursor.value < cursor
  {
    hide DbPage, WellNumbered;
    DbPageIsRun(log, names, reactions, limit, Some(cursor), Before);
  }

  /** Pages a client gets from request t on by following nextCursor in 'before' mode. */
  ghost function FollowBefore(env: nat -> Log, names: Names, reactions: seq<ReactionRow>, limits: nat -> nat,
                              t: nat, cursor: int): (pages: seq<Page>)
    requires Growing(env) && Positive(limits)
    decreases cursor
  {
    CursorsDescend(env(t), names, reactions, limits(t), cursor);
    var p := DbPage(env(t), names, reactions, limits(t), Some(cursor), Before);
    [p] + if p.hasMore then FollowBefore(env, names, reactions, limits, t + 1, p.nextCursor.value) else []
  }

  /** The messages of newest-first pages, oldest first. */
  ghost function Collect(pages: seq<Page>): seq<HistoryMessage> {
    if pages == [] then [] else Collect(pages[1..]) + pages[0].messages
  }

  /** One page of a client that reads back: what it leaves is what the next request still finds. */
  lemma BeforePage(env: nat -> Log, names: Names, reactions: seq<ReactionRow>, limit: nat, t: nat, cursor: int)
    returns (p: Page)
    requires Growing(env) && limit >= 1
    ensures p == DbPage(env(t), names, reactions, limit, Some(cursor), Before)
    ensures Extends(env(t), env(t + 1))
    ensures var left := if p.hasMore && p.nextCursor.Some? then p.nextCursor.value - 1 else 0;
            && (p.hasMore ==> p.nextCursor.Some? && 2 <= p.nextCursor.value < cursor)
            && left + |p.messages| == Clip(cursor - 1, |env(t)|) && ReadsRows(p.messages, env(t), left + 1)
            && Clip(left, |env(t + 1)|) == left
  {
    hide DbPage, ReadsRows;
    assert Extends(env(t), env(t + 1));
    p := DbPageReads(env(t), names, reactions, limit, Some(cursor), Before);
  }

  /** From any cursor, the rows before it that exist, each exactly once. */
  lemma {:induction false} FollowBeforeComplete(env: nat -> Log, names: Names, reactions: seq<ReactionRow>,
                                                limits: nat -> nat, t: nat, cursor: int)
    requires Growing(env) && Positive(limits)
    ensures var ms := Collect(FollowBefore(env, names, reactions, limits, t, cursor));
            |ms| == Clip(cursor - 1, |env(t)|) && ReadsRows(ms, env(t), 1)
    decreases cursor
  {
    hide DbPage, ReadsRows, Extends;
    var p := BeforePage(env, names, reactions, limits(t), t, cursor);
    var pages := FollowBefore(env, names, reactions, limits, t, cursor);
    if p.hasMore {
      var rest := FollowBefore(env, names, reactions, limits, t + 1, p.nextCursor.value);
      FollowBeforeComplete(env, names, reactions, limits, t + 1, p.nextCursor.value);
      assert pages == [p] + rest && pages[1..] == rest;
      ReadsEarlier(Collect(rest), env(t), env(t + 1), 1);
      ReadsConcat(Collect(rest), p.messages, env(t), 1);
    } else {
      assert pages == [p] && pages[1..] == [];
      assert Collect(pages) == p.messages;
    }
  }

  lemma RowByRow(ms: seq<HistoryMessage>, log: Log)
    requires ReadsRows(ms, log, 1) && |ms| == |log|
    ensures forall i :: 0 <= i < |ms| ==> ms[i].payload.seqNo == i + 1 && ms[i].payload.id == log[i].id
  {
  }

  /**
   * Reading back from the newest page and following nextCursor ends, and yields every
   * message that existed at the first request exactly once, whatever is sent meanwhile.
   */
  lemma BackwardPagingComplete(env: nat -> Log, names: Names, reactions: seq<ReactionRow>, limits: nat -> nat)
    requires Growing(env) && Positive(limits)
    ensures var first := DbPage(env(0), names, reactions, limits(0), None, Before);
            && (first.hasMore ==> first.nextCursor.Some?)
            && var rest := if first.hasMore
                           then FollowBefore(env, names, reactions, limits, 1, first.nextCursor.value) else [];
               var ms := Collect([first] + rest);
               && |ms| == |env(0)| && ReadsRows(ms, env(0), 1)
               && forall i :: 0 <= i < |ms| ==> ms[i].payload.seqNo == i + 1 && ms[i].payload.id == env(0)[i].id
  {
    hide DbPage, ReadsRows, FollowBefore;
    var first := DbPageReads(env(0), names, reactions, limits(0), None, Before);
    assert Extends(env(0), env(1));
    if first.hasMore {
      var rest := FollowBefore(env, names, reactions, limits, 1, first.nextCursor.value);
      FollowBeforeComplete(env, names, reactions, limits, 1, first.nextCursor.value);
      assert ([first] + rest)[1..] == rest;
      ReadsEarlier(Collect(rest), env(0), env(1), 1);
      ReadsConcat(Collect(rest), first.messages, env(0), 1);
      RowByRow(Collect([first] + rest), env(0));
    } else {
      assert [first] + [] == [first] && [first][1..] == [];
      assert Collect([first]) == first.messages;
      RowByRow(first.messages, env(0));
    }
  }

  /** At most k requests in 'since' mode; the second result says when the log was exhausted, if it was. */
  ghost function FollowSince(env: nat -> Log, names: Names, reactions: seq<ReactionRow>, limits: nat -> nat,
                             t: nat, cursor: int, k: nat): (r: (seq<HistoryMessage>, Option<nat>))
    requires Growing(env) && Positive(limits)
    decreases k
  {
    if k == 0 then ([], None)
    else
      DbPageIsRun(env(t), names, reactions, limits(t), Some(cursor), Since);
      var p := DbPage(env(t), names, reactions, limits(t), Some(cursor), Since);
      if !p.hasMore then (p.messages, Some(t))
      else
        var rest := FollowSince(env, names, reactions, limits, t + 1, p.nextCursor.value, k - 1);
        (p.messages + rest.0, rest.1)
  }

  /**
   * Catching up from cursor c yields c+1, c+2, … without gap or repeat, up to the end if it finishes;
   * a cursor outside the log counts as its nearest end.
   */
  lemma {:induction false} ForwardPagingContiguous(env: nat -> Log, names: Names, reactions: seq<ReactionRow>,
                                                   limits: nat -> nat, t: nat, cursor: int, k: nat, horizon: nat)
    requires Growing(env) && Positive(limits) && t + k <= horizon
    ensures var (ms, done) := FollowSince(env, names, reactions, limits, t, cursor, k);
            var start := Clip(cursor, |env(t)|);
            && ReadsRows(ms, env(horizon), start + 1)
            && (done.Some? ==> start + |ms| == |env(done.value)|)
            && (done.None? ==> |ms| >= k)
    decreases k
  {
    hide DbPage, ReadsRows, Extends;
    if k == 0 {
      NothingRead(env(horizon), Clip(cursor, |env(t)|) + 1);
    } else {
      var p := SincePage(env, names, reactions, limits(t), t, cursor, horizon);
      if p.hasMore {
        var c := p.nextCursor.value;
        ForwardPagingContiguous(env, names, reactions, limits, t + 1, c, k - 1, horizon);
        ReadsConcat(p.messages, FollowSince(env, names, reactions, limits, t + 1, c, k - 1).0, env(horizon),
                    Clip(cursor, |env(t)|) + 1);
      }
    }
  }

  lemma NothingRead(log: Log, from: int)
    ensures ReadsRows([], log, from)
  {
  }

  /** One page of a client that catches up, as the table shows it at some later time. */
  lemma SincePage(env: nat -> Log, names: Names, reactions: seq<ReactionRow>, limit: nat, t: nat, cursor: int,
                  horizon: nat) returns (p: Page)
    requires Growing(env) && limit >= 1 && t < horizon
    ensures p == DbPage(env(t), names, reactions, limit, Some(cursor), Since)
    ensures var start := Clip(cursor, |env(t)|);
            && ReadsRows(p.messages, env(horizon), start + 1)
            && (p.hasMore ==>
                  && p.nextCursor == Some(start + |p.messages|) && |p.messages| >= 1
                  && Clip(p.nextCursor.value, |env(t + 1)|) == p.nextCursor.value)
            && (!p.hasMore ==> start + |p.messages| == |env(t)|)
  {
    hide DbPage, ReadsRows;
    assert Extends(env(t), env(horizon)) && Extends(env(t), env(t + 1));
    p := DbPageReads(env(t), names, reactions, limit, Some(cursor), Since);
    ReadsLater(p.messages, env(t), env(horizon), Clip(cursor, |env(t)|) + 1);
  }

  /** The same spelled out: the message at place i is row start + i + 1 of the table as the last request finds it. */
  lemma CatchUpReads(env: nat -> Log, names: Names, reactions: seq<ReactionRow>, limits: nat -> nat, cursor: int,
                     k: nat, i: nat)
    requires Growing(env) && Positive(limits)
    requires i < |FollowSince(env, names, reactions, limits, 0, cursor, k).0|
    ensures var m := FollowSince(env, names, reactions, limits, 0, cursor, k).0[i];
            var at := (if cursor < 0 then 0 else if cursor > |env(0)| then |env(0)| else cursor) + i;
            at < |env(k)| && m.payload.seqNo == at + 1 && m.payload.id == env(k)[at].id
  {
    hide FollowSince, Extends;
    ForwardPagingContiguous(env, names, reactions, limits, 0, cursor, k, k);
    var ms := FollowSince(env, names, reactions, limits, 0, cursor, k).0;
    assert IsRow(ms[i], env(k), Clip(cursor, |env(0)|) + 1 + i);
  }
}

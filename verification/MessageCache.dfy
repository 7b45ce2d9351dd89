/**
 * The Redis list of recent messages (src/redis/redis-cache.service.ts) and the cache branch
 * of getMessages (src/modules/messages/messages.service.ts), for one channel.
 */
module MessageCache {
  import opened Options
  import opened History

  const MESSAGE_CACHE_SIZE: nat := 50
  const MESSAGE_CACHE_TTL_MS: int := 86400 * 1000

  /** RPUSH then LTRIM to the newest 50. */
  function Pushed(list: seq<Payload>, p: Payload): seq<Payload> {
    LastN(list + [p], MESSAGE_CACHE_SIZE)
  }

  /** The stable sort by sequence number of `[...cached].sort(...)`. */
  function InsertBySeq(p: Payload, s: seq<Payload>): seq<Payload> {
    if s == [] || p.seqNo < s[0].seqNo then [p] + s else [s[0]] + InsertBySeq(p, s[1..])
  }

  function SortBySeq(s: seq<Payload>): seq<Payload> {
    if s == [] then [] else InsertBySeq(s[|s| - 1], SortBySeq(s[..|s| - 1]))
  }

  predicate ContiguousRun(items: seq<Payload>) {
    forall i :: 0 < i < |items| ==> items[i].seqNo == items[i - 1].seqNo + 1
  }

  function RunPage(items: seq<Payload>, reactions: seq<ReactionRow>): Page
    requires items != []
  {
    var oldest := items[0].seqNo;
    Page(AttachReactions(items, reactions), if oldest > 1 then Some(oldest) else None, oldest > 1, FromCache)
  }

  /** What the cache branch serves from a list, if anything. */
  function CachedPage(list: seq<Payload>, reactions: seq<ReactionRow>, limit: nat): Option<Page>
    requires limit >= 1
  {
    var items := SortBySeq(LastN(list, limit));
    if |list| < limit || !ContiguousRun(items) || items == [] then None else Some(RunPage(items, reactions))
  }

  // ----- the service code

  class RedisCache {
    var list: seq<Payload>
    var deadline: int

    constructor ()
      ensures list == []
    {
      list, deadline := [], 0;
    }

    ghost function Visible(now: int): seq<Payload>
      reads this
    {
      if now < deadline then list else []
    }

    method CacheMessage(now: int, p: Payload)
      modifies this
      ensures list == Pushed(old(Visible(now)), p) && deadline == now + MESSAGE_CACHE_TTL_MS
    {
      if now >= deadline {
        list := [];
      }
      list := list + [p];
      if |list| > MESSAGE_CACHE_SIZE {
        list := list[|list| - MESSAGE_CACHE_SIZE..];
      }
      deadline := now + MESSAGE_CACHE_TTL_MS;
    }

    /** LRANGE -limit -1, which for limit 0 is the whole list. */
    method GetRecentMessages(now: int, limit: nat) returns (items: seq<Payload>)
      ensures items == if limit == 0 then Visible(now) else LastN(Visible(now), limit)
    {
      items := if now >= deadline then []
               else if limit == 0 || |list| <= limit then list
               else list[|list| - limit..];
    }

    method InvalidateMessages()
      modifies this
      ensures list == [] && deadline == old(deadline)
    {
      list := [];
    }
  }

  method GetCachedPage(cache: RedisCache, now: int, reactions: seq<ReactionRow>, limit: nat)
    returns (page: Option<Page>)
    requires limit >= 1
    modifies cache
    ensures page == CachedPage(old(cache.Visible(now)), reactions, limit)
    ensures var visible := old(cache.Visible(now));
            cache.list == if |visible| >= limit && !ContiguousRun(SortBySeq(LastN(visible, limit)))
                          then [] else old(cache.list)
    ensures cache.deadline == old(cache.deadline)
  {
    var cached := cache.GetRecentMessages(now, limit);
    if |cached| < limit {
      return None;
    }
    SortKeeps(cached);
    hide SortBySeq, LastN, AttachReactions, ContiguousRun;
    var items := SortBySeq(cached);
    var contiguous := IsContiguous(items);
    if !contiguous {
      cache.InvalidateMessages();
      return None;
    }
    var oldest := items[0].seqNo;
    var hasMore := oldest > 1;
    page := Some(Page(AttachReactions(items, reactions), if hasMore then Some(oldest) else None, hasMore, FromCache));
  }

  lemma CachedReactions(list: seq<Payload>, reactions: seq<ReactionRow>, limit: nat)
    requires limit >= 1 && CachedPage(list, reactions, limit).Some?
    ensures forall m :: m in CachedPage(list, reactions, limit).value.messages ==> HasItsReactions(m, reactions)
  {
    hide HasItsReactions, ReactionsOf, SortBySeq;
    var items := SortBySeq(LastN(list, limit));
    forall i | 0 <= i < |items|
      ensures HasItsReactions(AttachReactions(items, reactions)[i], reactions)
    {
      AttachedReactions(items, reactions, i);
    }
  }

  /** The scan of getCachedPage. */
  method IsContiguous(items: seq<Payload>) returns (contiguous: bool)
    ensures contiguous <==> ContiguousRun(items)
  {
    var i := 0;
    while i < |items|
      invariant 0 <= i <= |items|
      invariant forall j :: 0 < j < i ==> items[j].seqNo == items[j - 1].seqNo + 1
    {
      if i > 0 && items[i].seqNo != items[i - 1].seqNo + 1 {
        return false;
      }
      i := i + 1;
    }
    return true;
  }

  /** getMessages: the cache answers only an uncursored, non-'since' request of at most 50. */
  method GetMessages(cache: RedisCache, now: int, isMember: bool, log: Log, names: Names,
                     reactions: seq<ReactionRow>, limit: int, cursor: Option<int>, mode: Mode)
    returns (r: Option<Page>)
    modifies cache
    ensures r.None? <==> !isMember
    ensures var n, visible := SafeLimit(limit), old(cache.Visible(now));
            var asked := isMember && cursor.None? && !mode.Since? && n <= MESSAGE_CACHE_SIZE;
            var cached := if asked then CachedPage(visible, reactions, n) else None;
            && (isMember ==>
                  r.value == if cached.Some? then cached.value else DbPage(log, names, reactions, n, cursor, mode))
            && cache.list == (if asked && |visible| >= n && !ContiguousRun(SortBySeq(LastN(visible, n)))
                              then [] else old(cache.list))
            && cache.deadline == old(cache.deadline)
    ensures isMember ==> forall m :: m in r.value.messages ==> HasItsReactions(m, reactions)
  {
    if !isMember {
      return None;
    }
    PageIsFromDatabase(log, names, reactions, SafeLimit(limit), cursor, mode);
    var n := SafeLimit(limit);
    if cursor.None? && !mode.Since? && n <= MESSAGE_CACHE_SIZE {
      var cached := GetCachedPage(cache, now, reactions, n);
      if cached.Some? {
        CachedReactions(old(cache.Visible(now)), reactions, n);
        return cached;
      }
    }
    return Some(DbPage(log, names, reactions, n, cursor, mode));
  }

  // ----- the sort

  predicate Ascending(s: seq<Payload>) {
    forall i, j :: 0 <= i < j < |s| ==> s[i].seqNo <= s[j].seqNo
  }

  lemma {:induction false} InsertPermutes(p: Payload, s: seq<Payload>)
    ensures multiset(InsertBySeq(p, s)) == multiset(s) + multiset{p}
  {
    if s == [] {
    } else {
      assert s == [s[0]] + s[1..];
      if p.seqNo >= s[0].seqNo {
        InsertPermutes(p, s[1..]);
      }
    }
  }

  lemma {:induction false} InsertMembers(p: Payload, s: seq<Payload>)
    ensures |InsertBySeq(p, s)| == |s| + 1
    ensures forall q :: q in InsertBySeq(p, s) ==> q == p || q in s
  {
    if s == [] || p.seqNo < s[0].seqNo {
    } else {
      InsertMembers(p, s[1..]);
    }
  }

  lemma {:induction false} InsertAscends(p: Payload, s: seq<Payload>)
    requires Ascending(s)
    ensures Ascending(InsertBySeq(p, s))
  {
    if s == [] || p.seqNo < s[0].seqNo {
    } else {
      InsertAscends(p, s[1..]);
      InsertMembers(p, s[1..]);
      var r := InsertBySeq(p, s[1..]);
      forall j | 0 <= j < |r|
        ensures s[0].seqNo <= r[j].seqNo
      {
        assert r[j] in r;
      }
      assert InsertBySeq(p, s) == [s[0]] + r;
    }
  }

  lemma {:induction false} SortKeeps(s: seq<Payload>)
    ensures Ascending(SortBySeq(s)) && |SortBySeq(s)| == |s|
    ensures forall q :: q in SortBySeq(s) ==> q in s
  {
    if s == [] {
    } else {
      var front, last := s[..|s| - 1], s[|s| - 1];
      SortKeeps(front);
      InsertMembers(last, SortBySeq(front));
      InsertAscends(last, SortBySeq(front));
    }
  }

  lemma {:induction false} SortPermutes(s: seq<Payload>)
    ensures multiset(SortBySeq(s)) == multiset(s)
  {
    if s == [] {
    } else {
      var front, last := s[..|s| - 1], s[|s| - 1];
      SortPermutes(front);
      InsertPermutes(last, SortBySeq(front));
      assert s == front + [last];
    }
  }

  lemma {:induction false} InsertAtEnd(p: Payload, s: seq<Payload>)
    requires forall i :: 0 <= i < |s| ==> s[i].seqNo <= p.seqNo
    ensures InsertBySeq(p, s) == s + [p]
  {
    if s == [] {
    } else {
      InsertAtEnd(p, s[1..]);
      assert s == [s[0]] + s[1..];
    }
  }

  lemma {:induction false} SortOfAscending(s: seq<Payload>)
    requires Ascending(s)
    ensures SortBySeq(s) == s
  {
    if s == [] {
    } else {
      SortOfAscending(s[..|s| - 1]);
      InsertAtEnd(s[|s| - 1], s[..|s| - 1]);
    }
  }
}

/**
 * Reactions (src/modules/reactions/reactions.service.ts): addReaction under an advisory lock, removeReaction,
 * and message deletion; and the events from which clients rebuild the table.
 */
module Reactions {
  import opened Options

  type MsgId = string
  type UserId = string
  type TxId = nat

  datatype Reaction = Reaction(messageId: MsgId, userId: UserId, emoji: string)
  type Table = set<Reaction>

  /** One reaction per user per message. */
  ghost predicate AtMostOne(t: Table) {
    forall r, q | r in t && q in t :: r.messageId == q.messageId && r.userId == q.userId ==> r == q
  }

  /** The user's other emojis on the message: what the DELETE of addReaction returns. */
  function Others(t: Table, m: MsgId, u: UserId, emoji: string): Table {
    set r | r in t && r.messageId == m && r.userId == u && r.emoji != emoji
  }

  // ----- statement by statement

  datatype Tx =
    | Opened(m: MsgId, u: UserId, emoji: string)
    | Locked(m: MsgId, u: UserId, emoji: string)
    | Deleted(m: MsgId, u: UserId, emoji: string, removed: Table)
    | Inserted(m: MsgId, u: UserId, emoji: string, removed: Table, added: bool)

  datatype State = State(table: Table, txs: map<TxId, Tx>)

  datatype Step =
    | Begin(t: TxId, m: MsgId, u: UserId, emoji: string)
    | Acquire(t: TxId)
    | DeleteOthers(t: TxId)
    | InsertOrSkip(t: TxId)
    | Commit(t: TxId)
    | Abort(t: TxId)
    | Remove(r: Reaction)
    | DeleteMessage(m: MsgId)

  /** pg_advisory_xact_lock(hashtext(message), hashtext(user)): collisions only lock more. */
  type TextHash = string -> int

  predicate SameLock(hash: TextHash, x: Tx, y: Tx) {
    hash(x.m) == hash(y.m) && hash(x.u) == hash(y.u)
  }

  ghost predicate Enabled(hash: TextHash, s: State, step: Step) {
    match step
    case Begin(t, _, _, _) => t !in s.txs
    case Acquire(t) =>
      && t in s.txs && s.txs[t].Opened?
      && forall v :: v in s.txs && !s.txs[v].Opened? ==> !SameLock(hash, s.txs[v], s.txs[t])
    case DeleteOthers(t) => t in s.txs && s.txs[t].Locked?
    case InsertOrSkip(t) => t in s.txs && s.txs[t].Deleted?
    case Commit(t) => t in s.txs && s.txs[t].Inserted?
    case Abort(t) => t in s.txs
    case Remove(_) => true
    case DeleteMessage(_) => true
  }

  ghost function Do(hash: TextHash, s: State, step: Step): State
    requires Enabled(hash, s, step)
  {
    match step
    case Begin(t, m, u, e) => s.(txs := s.txs[t := Opened(m, u, e)])
    case Acquire(t) => s.(txs := s.txs[t := Locked(s.txs[t].m, s.txs[t].u, s.txs[t].emoji)])
    case DeleteOthers(t) =>
      var x := s.txs[t];
      s.(txs := s.txs[t := Deleted(x.m, x.u, x.emoji, Others(s.table, x.m, x.u, x.emoji))])
    case InsertOrSkip(t) =>
      var x := s.txs[t];
      s.(txs := s.txs[t := Inserted(x.m, x.u, x.emoji, x.removed, Reaction(x.m, x.u, x.emoji) !in s.table)])
    case Commit(t) =>
      var x := s.txs[t];
      State((s.table - x.removed) + (if x.added then {Reaction(x.m, x.u, x.emoji)} else {}), s.txs - {t})
    case Abort(t) => s.(txs := s.txs - {t})
    case Remove(r) => s.(table := s.table - {r})
    case DeleteMessage(m) => s.(table := set r | r in s.table && r.messageId != m)
  }

  ghost predicate IsRun(hash: TextHash, s: State, steps: seq<Step>)
    decreases |steps|
  {
    steps == [] || (Enabled(hash, s, steps[0]) && IsRun(hash, Do(hash, s, steps[0]), steps[1..]))
  }

  ghost function After(hash: TextHash, s: State, steps: seq<Step>): State
    requires IsRun(hash, s, steps)
    decreases |steps|
  {
    if steps == [] then s else After(hash, Do(hash, s, steps[0]), steps[1..])
  }

  /** Past its DELETE, a transaction accounts for every other emoji of its user on its message. */
  ghost predicate TxOk(s: State, x: Tx) {
    x.Deleted? || x.Inserted? ==> Others(s.table, x.m, x.u, x.emoji) <= x.removed
  }

  ghost predicate Inv(hash: TextHash, s: State) {
    && AtMostOne(s.table)
    && (forall t :: t in s.txs ==> TxOk(s, s.txs[t]))
    && (forall t, v | t in s.txs && v in s.txs && !s.txs[t].Opened? && !s.txs[v].Opened? ::
          SameLock(hash, s.txs[t], s.txs[v]) ==> t == v)
  }

  lemma CommitKeepsTxs(hash: TextHash, s: State, t: TxId, v: TxId)
    requires Inv(hash, s) && Enabled(hash, s, Commit(t)) && v in s.txs && v != t
    ensures TxOk(Do(hash, s, Commit(t)), s.txs[v])
  {
    var x, y := s.txs[t], s.txs[v];
    assert TxOk(s, y);
    if !y.Opened? {
      assert !SameLock(hash, x, y);
    }
  }

  lemma StepKeepsInv(hash: TextHash, s: State, step: Step)
    requires Inv(hash, s) && Enabled(hash, s, step)
    ensures Inv(hash, Do(hash, s, step))
  {
    var s' := Do(hash, s, step);
    if step.Commit? {
      var x := s.txs[step.t];
      assert TxOk(s, x);
      forall r, q | r in s'.table && q in s'.table && r.messageId == q.messageId && r.userId == q.userId
        ensures r == q
      {
        if r.messageId == x.m && r.userId == x.u {
          assert r.emoji != x.emoji ==> r !in Others(s.table, x.m, x.u, x.emoji);
          assert q.emoji != x.emoji ==> q !in Others(s.table, x.m, x.u, x.emoji);
        }
      }
    }
    assert AtMostOne(s'.table);
    forall v | v in s'.txs
      ensures TxOk(s', s'.txs[v])
    {
      if step.Commit? {
        CommitKeepsTxs(hash, s, step.t, v);
      } else if v in s.txs {
        assert TxOk(s, s.txs[v]);
      }
    }
  }

  lemma {:induction false} RunKeepsInv(hash: TextHash, s: State, steps: seq<Step>)
    requires Inv(hash, s) && IsRun(hash, s, steps)
    ensures Inv(hash, After(hash, s, steps))
    decreases |steps|
  {
    if steps == [] {
    } else {
      StepKeepsInv(hash, s, steps[0]);
      RunKeepsInv(hash, Do(hash, s, steps[0]), steps[1..]);
    }
  }

  /** In every interleaving, whatever the hash, a user has at most one reaction per message. */
  lemma AtMostOneReaction(hash: TextHash, steps: seq<Step>)
    requires IsRun(hash, EMPTY, steps)
    ensures var t := After(hash, EMPTY, steps).table;
            forall r, q | r in t && q in t :: r.messageId == q.messageId && r.userId == q.userId ==> r == q
  {
    RunKeepsInv(hash, EMPTY, steps);
  }

  // ----- the table, read off the run

  /** Message, user and emoji of the addReaction that opened transaction t last. */
  function Asked(past: seq<Step>, t: TxId): Option<Reaction> {
    if past == [] then None
    else
      var last := past[|past| - 1];
      if last.Begin? && last.t == t then Some(Reaction(last.m, last.u, last.emoji)) else Asked(past[..|past| - 1], t)
  }

  predicate Drops(step: Step, r: Reaction) {
    step == Remove(r) || step == DeleteMessage(r.messageId)
  }

  /** A commit added or kept the reaction, and nothing has dropped it since. */
  predicate Stands(past: seq<Step>, r: Reaction) {
    past != [] &&
    var front, last := past[..|past| - 1], past[|past| - 1];
    || (last.Commit? && Asked(front, last.t) == Some(r))
    || (!Drops(last, r) && Stands(front, r))
  }

  /** The reaction was dropped after the INSERT of transaction t. */
  predicate DroppedSince(past: seq<Step>, t: TxId, r: Reaction) {
    past != [] &&
    var front, last := past[..|past| - 1], past[|past| - 1];
    last != InsertOrSkip(t) && (Drops(last, r) || DroppedSince(front, t, r))
  }

  ghost predicate TxTraced(past: seq<Step>, s: State, t: TxId)
    requires t in s.txs
  {
    var x := s.txs[t];
    var r := Reaction(x.m, x.u, x.emoji);
    && Asked(past, t) == Some(r)
    && (x.Deleted? || x.Inserted? ==>
          forall q :: q in x.removed ==> q.messageId == x.m && q.userId == x.u && q.emoji != x.emoji)
    && (x.Inserted? ==> x.added || r in s.table || DroppedSince(past, t, r))
  }

  ghost predicate Traced(past: seq<Step>, s: State) {
    && (forall t :: t in s.txs ==> TxTraced(past, s, t))
    && (forall r :: r in s.table ==> Stands(past, r))
  }

  lemma CommitTracesTx(hash: TextHash, past: seq<Step>, s: State, c: TxId, t: TxId)
    requires Inv(hash, s) && Traced(past, s) && Enabled(hash, s, Commit(c)) && t in Do(hash, s, Commit(c)).txs
    ensures TxTraced(past + [Commit(c)], Do(hash, s, Commit(c)), t)
  {
    hide Stands, AtMostOne;
    assert (past + [Commit(c)])[..|past|] == past && (past + [Commit(c)])[|past|] == Commit(c);
    assert TxTraced(past, s, t) && TxTraced(past, s, c);
    assert !s.txs[t].Opened? ==> !SameLock(hash, s.txs[c], s.txs[t]);
  }

  lemma StatementTracesTx(hash: TextHash, past: seq<Step>, s: State, step: Step, t: TxId)
    requires Traced(past, s) && Enabled(hash, s, step) && !step.Commit? && t in Do(hash, s, step).txs
    ensures TxTraced(past + [step], Do(hash, s, step), t)
  {
    hide Stands, AtMostOne, SameLock;
    assert (past + [step])[..|past|] == past && (past + [step])[|past|] == step;
    if t in s.txs {
      assert TxTraced(past, s, t);
    }
  }

  lemma StepTracesTx(hash: TextHash, past: seq<Step>, s: State, step: Step, t: TxId)
    requires Inv(hash, s) && Traced(past, s) && Enabled(hash, s, step) && t in Do(hash, s, step).txs
    ensures TxTraced(past + [step], Do(hash, s, step), t)
  {
    if step.Commit? {
      CommitTracesTx(hash, past, s, step.t, t);
    } else {
      StatementTracesTx(hash, past, s, step, t);
    }
  }

  lemma StepTracesTable(hash: TextHash, past: seq<Step>, s: State, step: Step, r: Reaction)
    requires Traced(past, s) && Enabled(hash, s, step) && r in Do(hash, s, step).table
    ensures Stands(past + [step], r)
  {
    assert (past + [step])[..|past|] == past && (past + [step])[|past|] == step;
    if step.Commit? {
      assert TxTraced(past, s, step.t);
    }
    hide DroppedSince;
  }

  lemma StepTraces(hash: TextHash, past: seq<Step>, s: State, step: Step)
    requires Inv(hash, s) && Traced(past, s) && Enabled(hash, s, step)
    ensures Traced(past + [step], Do(hash, s, step))
  {
    hide Inv, Do, TxTraced, Stands;
    forall t | t in Do(hash, s, step).txs
      ensures TxTraced(past + [step], Do(hash, s, step), t)
    {
      StepTracesTx(hash, past, s, step, t);
    }
    forall r | r in Do(hash, s, step).table
      ensures Stands(past + [step], r)
    {
      StepTracesTable(hash, past, s, step, r);
    }
  }

  lemma {:induction false} RunTraces(hash: TextHash, past: seq<Step>, s: State, steps: seq<Step>)
    requires Inv(hash, s) && Traced(past, s) && IsRun(hash, s, steps)
    ensures Inv(hash, After(hash, s, steps)) && Traced(past + steps, After(hash, s, steps))
    decreases |steps|
  {
    hide Inv, Traced;
    if steps == [] {
      assert past + steps == past;
    } else {
      StepKeepsInv(hash, s, steps[0]);
      StepTraces(hash, past, s, steps[0]);
      RunTraces(hash, past + [steps[0]], Do(hash, s, steps[0]), steps[1..]);
      assert past + [steps[0]] + steps[1..] == past + steps;
    }
  }

  const EMPTY := State({}, map[])

  /** Every reaction in the table was added by a commit and has not been removed, nor its message deleted, since. */
  lemma ReactionsStand(hash: TextHash, steps: seq<Step>, r: Reaction)
    requires IsRun(hash, EMPTY, steps) && r in After(hash, EMPTY, steps).table
    ensures Stands(steps, r)
  {
    RunTraces(hash, [], EMPTY, steps);
    assert [] + steps == steps;
  }

  /** Of the user's reactions to the message only their own is left, all others are as before. */
  ghost predicate CommitLeft(past: seq<Step>, t: TxId, own: Reaction, before: Table, after: Table) {
    && (own in after || DroppedSince(past, t, own))
    && (forall r :: r in after && r.messageId == own.messageId && r.userId == own.userId ==> r == own)
    && (forall r: Reaction :: r.messageId != own.messageId || r.userId != own.userId ==> (r in after <==> r in before))
  }

  /**
   * In every interleaving a commit leaves its user the one reaction it was made for on its message, unless that
   * was dropped after the INSERT, and no other; everything else stays as it is.
   */
  lemma CommitLeavesOne(hash: TextHash, steps: seq<Step>, t: TxId)
    requires IsRun(hash, EMPTY, steps) && Enabled(hash, After(hash, EMPTY, steps), Commit(t))
    ensures var s := After(hash, EMPTY, steps);
            var s' := Do(hash, s, Commit(t));
            Asked(steps, t).Some? && CommitLeft(steps, t, Asked(steps, t).value, s.table, s'.table)
  {
    hide IsRun, After, Inv, Traced, CommitLeft;
    StartIsTraced(hash);
    RunTraces(hash, [], EMPTY, steps);
    assert [] + steps == steps;
    CommitLeavesOwn(hash, steps, After(hash, EMPTY, steps), t);
  }

  lemma StartIsTraced(hash: TextHash)
    ensures Inv(hash, EMPTY) && Traced([], EMPTY)
  {
  }

  lemma CommitLeavesOwn(hash: TextHash, past: seq<Step>, s: State, t: TxId)
    requires Inv(hash, s) && Traced(past, s) && Enabled(hash, s, Commit(t))
    ensures Asked(past, t).Some? && CommitLeft(past, t, Asked(past, t).value, s.table, Do(hash, s, Commit(t)).table)
  {
    hide DroppedSince, Asked, Stands, AtMostOne, SameLock;
    assert TxTraced(past, s, t) && TxOk(s, s.txs[t]);
    var x := s.txs[t];
    forall r | r in Do(hash, s, Commit(t)).table && r.messageId == x.m && r.userId == x.u
      ensures r.emoji == x.emoji
    {
      assert r.emoji != x.emoji && r in s.table ==> r in Others(s.table, x.m, x.u, x.emoji);
    }
  }

  // ----- events

  datatype Event =
    | ReactionAdded(r: Reaction)
    | ReactionRemoved(r: Reaction)
    | MessageDeleted(messageId: MsgId)

  /** What a client that keeps a copy of the table does with an event. */
  function Learn(t: Table, e: Event): Table {
    match e
    case ReactionAdded(r) => t + {r}
    case ReactionRemoved(r) => t - {r}
    case MessageDeleted(m) => set r | r in t && r.messageId != m
  }

  function Rebuild(events: seq<Event>): Table {
    if events == [] then {} else Learn(Rebuild(events[..|events| - 1]), events[|events| - 1])
  }

  lemma RebuildNext(events: seq<Event>, e: Event)
    ensures Rebuild(events + [e]) == Learn(Rebuild(events), e)
  {
    assert (events + [e])[..|events|] == events;
  }

  /** One reaction:removed for each of these reactions, and nothing else. */
  ghost predicate Announces(batch: seq<Event>, gone: Table) {
    && |batch| == |gone|
    && (forall r :: r in gone ==> ReactionRemoved(r) in batch)
    && (forall e :: e in batch ==> e.ReactionRemoved? && e.r in gone)
  }

  /** After these removals a client has lost exactly these reactions. */
  ghost predicate Unlearns(events: seq<Event>, batch: seq<Event>, gone: Table) {
    Announces(batch, gone) && Rebuild(events + batch) == Rebuild(events) - gone
  }

  lemma AnnounceNext(batch: seq<Event>, gone: Table, r: Reaction)
    requires Announces(batch, gone) && r !in gone
    ensures Announces(batch + [ReactionRemoved(r)], gone + {r})
  {
    assert (batch + [ReactionRemoved(r)])[|batch|] == ReactionRemoved(r);
  }

  lemma UnlearnNext(events: seq<Event>, batch: seq<Event>, gone: Table, r: Reaction)
    requires Unlearns(events, batch, gone) && r !in gone
    ensures Unlearns(events, batch + [ReactionRemoved(r)], gone + {r})
  {
    AnnounceNext(batch, gone, r);
    RebuildNext(events + batch, ReactionRemoved(r));
    hide Announces, Rebuild;
    assert events + batch + [ReactionRemoved(r)] == events + (batch + [ReactionRemoved(r)]);
  }

  lemma UnlearnNothing(events: seq<Event>)
    ensures Unlearns(events, [], {})
  {
    assert events + [] == events;
  }

  lemma OthersAre(t: Table, m: MsgId, u: UserId, emoji: string)
    ensures forall r :: r in Others(t, m, u, emoji) <==> r in t && r.messageId == m && r.userId == u && r.emoji != emoji
  {
  }

  lemma AnnouncedAre(batch: seq<Event>, gone: Table)
    requires Announces(batch, gone)
    ensures forall r :: ReactionRemoved(r) in batch <==> r in gone
  {
  }

  lemma ReplaceKeepsOne(t: Table, m: MsgId, u: UserId, emoji: string)
    requires AtMostOne(t)
    ensures AtMostOne(t - Others(t, m, u, emoji) + {Reaction(m, u, emoji)})
    ensures Reaction(m, u, emoji) !in Others(t, m, u, emoji)
  {
    var rest := t - Others(t, m, u, emoji);
    forall r | r in rest && r.messageId == m && r.userId == u
      ensures r == Reaction(m, u, emoji)
    {
      assert r !in Others(t, m, u, emoji);
    }
  }

  function AddedEvents(t: Table, r: Reaction): seq<Event> {
    if r in t then [] else [ReactionAdded(r)]
  }

  /** The removals, and the addition if it is new, tell a client of the replacement. */
  lemma ReplaceIsTold(events: seq<Event>, removals: seq<Event>, t: Table, gone: Table, r: Reaction)
    requires Rebuild(events) == t && Unlearns(events, removals, gone) && r !in gone
    ensures Rebuild(events + removals + AddedEvents(t, r)) == t - gone + {r}
    ensures r in t ==> events + removals + AddedEvents(t, r) == events + removals
  {
    if r in t {
      assert events + removals + [] == events + removals;
    } else {
      RebuildNext(events + removals, ReactionAdded(r));
    }
  }

  datatype AddOutcome = NotFound | Forbidden | Gone | Added | AlreadyExists

  /** The service with operations atomic: messages by id with their deleted flag, and the broadcast log. */
  class ReactionsService {
    var table: Table
    var deleted: map<MsgId, bool>
    var events: seq<Event>

    /** Folding the broadcast rebuilds the table; and no deleted message keeps a reaction. */
    ghost predicate Valid()
      reads this
    {
      && Rebuild(events) == table
      && AtMostOne(table)
      && forall r :: r in table ==> r.messageId in deleted && !deleted[r.messageId]
    }

    constructor ()
      ensures Valid() && table == {} && deleted == map[] && events == []
    {
      table, deleted, events := {}, map[], [];
    }

    method PostMessage(m: MsgId)
      requires Valid() && m !in deleted
      modifies this`deleted
      ensures Valid() && deleted == old(deleted)[m := false]
    {
      deleted := deleted[m := false];
    }

    method AddReaction(actor: UserId, m: MsgId, emoji: string, isMember: bool)
      returns (outcome: AddOutcome, ghost removals: seq<Event>)
      requires Valid()
      modifies this`table, this`events
      ensures Valid() && old(events) <= events
      ensures outcome == if m !in deleted then NotFound
                         else if !isMember then Forbidden
                         else if deleted[m] then Gone
                         else if Reaction(m, actor, emoji) in old(table) then AlreadyExists
                         else Added
      ensures table == if outcome.Added? || outcome.AlreadyExists?
                       then old(table) - Others(old(table), m, actor, emoji) + {Reaction(m, actor, emoji)}
                       else old(table)
      ensures events == old(events) + removals
                        + if outcome.Added? then [ReactionAdded(Reaction(m, actor, emoji))] else []
      ensures Announces(removals, if outcome.Added? || outcome.AlreadyExists?
                                  then Others(old(table), m, actor, emoji) else {})
      ensures outcome.Added? || outcome.AlreadyExists? ==>
                forall r :: r in table <==>
                  r == Reaction(m, actor, emoji) || (r in old(table) && !(r.messageId == m && r.userId == actor))
      ensures forall r :: ReactionRemoved(r) in removals <==> r in old(table) && r !in table
    {
      if m !in deleted { return NotFound, []; }
      if !isMember { return Forbidden, []; }
      if deleted[m] { return Gone, []; }
      hide Announces, Others, Rebuild, AtMostOne;
      OthersAre(table, m, actor, emoji);
      outcome, removals := ReplaceReaction(Reaction(m, actor, emoji));
      AnnouncedAre(removals, Others(old(table), m, actor, emoji));
    }

    /** The transaction of addReaction and its broadcasts. */
    method ReplaceReaction(added: Reaction) returns (outcome: AddOutcome, ghost removals: seq<Event>)
      requires Valid() && added.messageId in deleted && !deleted[added.messageId]
      modifies this`table, this`events
      ensures Valid() && outcome == if added in old(table) then AlreadyExists else Added
      ensures var replaced := Others(old(table), added.messageId, added.userId, added.emoji);
              && table == old(table) - replaced + {added}
              && events == old(events) + removals + AddedEvents(old(table), added)
              && Announces(removals, replaced)
    {
      hide Announces, Rebuild, AtMostOne, Others;
      var replaced := Others(table, added.messageId, added.userId, added.emoji);
      outcome := if added in table then AlreadyExists else Added;
      ReplaceKeepsOne(table, added.messageId, added.userId, added.emoji);
      table := table - replaced + {added};
      removals := BroadcastRemoved(replaced);
      ReplaceIsTold(old(events), removals, old(table), replaced, added);
      if outcome.Added? {
        events := events + [ReactionAdded(added)];
      }
    }

    /** One reaction:removed per replaced emoji, in whatever order the DELETE returned them. */
    method BroadcastRemoved(replaced: Table) returns (ghost removals: seq<Event>)
      modifies this`events
      ensures events == old(events) + removals && Unlearns(old(events), removals, replaced)
    {
      hide Unlearns;
      var left := replaced;
      ghost var gone: Table := {};
      removals := [];
      UnlearnNothing(events);
      while left != {}
        invariant gone + left == replaced && gone !! left
        invariant events == old(events) + removals && Unlearns(old(events), removals, gone)
        decreases |left|
      {
        var r :| r in left;
        UnlearnNext(old(events), removals, gone, r);
        events := events + [ReactionRemoved(r)];
        removals, gone, left := removals + [ReactionRemoved(r)], gone + {r}, left - {r};
      }
    }

    method RemoveReaction(actor: UserId, m: MsgId, emoji: string, isMember: bool) returns (removed: bool)
      requires Valid()
      modifies this`table, this`events
      ensures Valid() && old(events) <= events
      ensures removed == (m in deleted && isMember && Reaction(m, actor, emoji) in old(table))
      ensures table == if removed then old(table) - {Reaction(m, actor, emoji)} else old(table)
      ensures events == old(events) + if removed then [ReactionRemoved(Reaction(m, actor, emoji))] else []
    {
      var r := Reaction(m, actor, emoji);
      removed := m in deleted && isMember && r in table;
      if removed {
        RebuildNext(events, ReactionRemoved(r));
        table, events := table - {r}, events + [ReactionRemoved(r)];
      }
    }

    /** deleteMessage: marks, drops the reactions the first time, and always broadcasts. */
    method DeleteMessage(m: MsgId, isSender: bool) returns (done: bool)
      requires Valid()
      modifies this
      ensures Valid() && old(events) <= events
      ensures done == (m in old(deleted) && isSender)
      ensures deleted == if done then old(deleted)[m := true] else old(deleted)
      ensures table == if done then set r | r in old(table) && r.messageId != m else old(table)
      ensures events == old(events) + if done then [MessageDeleted(m)] else []
    {
      done := m in deleted && isSender;
      if done {
        if !deleted[m] {
          table := set r | r in table && r.messageId != m;
          deleted := deleted[m := true];
        }
        RebuildNext(events, MessageDeleted(m));
        events := events + [MessageDeleted(m)];
      }
    }
  }
}

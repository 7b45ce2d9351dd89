/**
 * DM creation (createDirect in src/modules/channels/channels.service.ts), statement by statement:
 * take the advisory lock of the pair, look up, insert, commit, while members leave and group
 * channels change. The lock key is a hash, so different pairs may share a lock.
 */
module DirectChannels {
  import opened Options
  import opened ChannelKinds

  type UserId = nat
  type ChanId = nat
  type TxId = nat
  type PairHash = (UserId, UserId) -> int

  datatype Channel = Channel(kind: Kind, members: set<UserId>)

  datatype Tx =
    | Opened(a: UserId, b: UserId)
    | Locked(a: UserId, b: UserId)
    | Found(a: UserId, b: UserId, chan: ChanId)
    | Missing(a: UserId, b: UserId)
    | Inserted(a: UserId, b: UserId, chan: ChanId)

  /** A reply: the channel, and whether this call created it. */
  datatype Reply = Reply(a: UserId, b: UserId, chan: ChanId, created: bool)

  /** `begun` are the calls ever made; `replies` those that committed. */
  datatype State = State(
    channels: map<ChanId, Channel>, begun: set<TxId>, txs: map<TxId, Tx>, replies: map<TxId, Reply>)

  datatype Step =
    | Begin(t: TxId, user: UserId, target: UserId)
    | Acquire(t: TxId)
    | LookUp(t: TxId, found: Option<ChanId>)
    | Insert(t: TxId, chan: ChanId)
    | Commit(t: TxId)
    | Abort(t: TxId)
    | Leave(chan: ChanId, user: UserId)
    | CreateGroup(chan: ChanId, members: set<UserId>)
    | JoinGroup(chan: ChanId, user: UserId)

  predicate HoldsLock(tx: Tx) {
    !tx.Opened?
  }

  /** The key both orders of a pair lock. */
  function LockKey(hash: PairHash, tx: Tx): int {
    if tx.a <= tx.b then hash(tx.a, tx.b) else hash(tx.b, tx.a)
  }

  predicate SharesDirect(ch: Channel, a: UserId, b: UserId) {
    ch.kind.Direct? && a in ch.members && b in ch.members
  }

  /** Answer of the lookup: some DIRECT channel with both users, None only if there is none. */
  ghost predicate LookUpAnswer(channels: map<ChanId, Channel>, a: UserId, b: UserId, found: Option<ChanId>) {
    match found
    case Some(c) => c in channels && SharesDirect(channels[c], a, b)
    case None => forall c :: c in channels ==> !SharesDirect(channels[c], a, b)
  }

  /** A generated id: not committed and not inserted by an open transaction. */
  ghost predicate FreshChan(s: State, chan: ChanId) {
    chan !in s.channels && forall t :: t in s.txs && s.txs[t].Inserted? ==> s.txs[t].chan != chan
  }

  ghost predicate Enabled(hash: PairHash, s: State, step: Step) {
    match step
    case Begin(t, user, target) => t !in s.begun && user != target
    case Acquire(t) =>
      && t in s.txs && s.txs[t].Opened?
      && forall u :: u in s.txs && HoldsLock(s.txs[u]) ==> LockKey(hash, s.txs[u]) != LockKey(hash, s.txs[t])
    case LookUp(t, found) =>
      t in s.txs && s.txs[t].Locked? && LookUpAnswer(s.channels, s.txs[t].a, s.txs[t].b, found)
    case Insert(t, chan) => t in s.txs && s.txs[t].Missing? && FreshChan(s, chan)
    case Commit(t) => t in s.txs && (s.txs[t].Found? || s.txs[t].Inserted?)
    case Abort(t) => t in s.txs
    case Leave(chan, user) => chan in s.channels && user in s.channels[chan].members
    case CreateGroup(chan, _) => FreshChan(s, chan)
    case JoinGroup(chan, _) => chan in s.channels && s.channels[chan].kind.Group?
  }

  ghost function Do(hash: PairHash, s: State, step: Step): State
    requires Enabled(hash, s, step)
  {
    match step
    case Begin(t, user, target) => s.(begun := s.begun + {t}, txs := s.txs[t := Opened(user, target)])
    case Acquire(t) => s.(txs := s.txs[t := Locked(s.txs[t].a, s.txs[t].b)])
    case LookUp(t, found) =>
      var tx := s.txs[t];
      s.(txs := s.txs[t := if found.Some? then Found(tx.a, tx.b, found.value) else Missing(tx.a, tx.b)])
    case Insert(t, chan) => s.(txs := s.txs[t := Inserted(s.txs[t].a, s.txs[t].b, chan)])
    case Commit(t) =>
      var tx := s.txs[t];
      State(if tx.Inserted? then s.channels[tx.chan := Channel(Direct, {tx.a, tx.b})] else s.channels,
            s.begun, s.txs - {t},
            s.replies[t := Reply(tx.a, tx.b, tx.chan, tx.Inserted?)])
    case Abort(t) => s.(txs := s.txs - {t})
    case Leave(chan, user) =>
      s.(channels := s.channels[chan := s.channels[chan].(members := s.channels[chan].members - {user})])
    case CreateGroup(chan, members) => s.(channels := s.channels[chan := Channel(Group, members)])
    case JoinGroup(chan, user) =>
      s.(channels := s.channels[chan := s.channels[chan].(members := s.channels[chan].members + {user})])
  }

  ghost predicate IsRun(hash: PairHash, s: State, steps: seq<Step>)
    decreases |steps|
  {
    steps == [] || (Enabled(hash, s, steps[0]) && IsRun(hash, Do(hash, s, steps[0]), steps[1..]))
  }

  ghost function After(hash: PairHash, s: State, steps: seq<Step>): State
    requires IsRun(hash, s, steps)
    decreases |steps|
  {
    if steps == [] then s else After(hash, Do(hash, s, steps[0]), steps[1..])
  }

  const EMPTY := State(map[], {}, map[], map[])

  // ----- the invariant

  /** No pair of users shares two DIRECT channels. */
  ghost predicate OneDirectPerPair(channels: map<ChanId, Channel>) {
    forall c, d, a, b | c in channels && d in channels && a != b ::
      SharesDirect(channels[c], a, b) && SharesDirect(channels[d], a, b) ==> c == d
  }

  ghost predicate LocksExclusive(hash: PairHash, s: State) {
    forall t, u | t in s.txs && u in s.txs && HoldsLock(s.txs[t]) && HoldsLock(s.txs[u]) ::
      LockKey(hash, s.txs[t]) == LockKey(hash, s.txs[u]) ==> t == u
  }

  /** Between a failed lookup and commit, the pair stays without a DIRECT channel. */
  ghost predicate TxOk(s: State, tx: Tx) {
    && tx.a != tx.b
    && (tx.Missing? || tx.Inserted? ==> forall c :: c in s.channels ==> !SharesDirect(s.channels[c], tx.a, tx.b))
    && (tx.Inserted? ==> tx.chan !in s.channels)
  }

  ghost predicate Inv(hash: PairHash, s: State) {
    && s.txs.Keys <= s.begun && s.replies.Keys <= s.begun - s.txs.Keys
    && LocksExclusive(hash, s)
    && OneDirectPerPair(s.channels)
    && (forall t :: t in s.txs ==> TxOk(s, s.txs[t]))
    && (forall t, u | t in s.txs && u in s.txs && s.txs[t].Inserted? && s.txs[u].Inserted? ::
          s.txs[t].chan == s.txs[u].chan ==> t == u)
  }

  /** A pair that shares the channel just created is the pair that created it. */
  lemma NewChannelPair(tx: Tx, a: UserId, b: UserId)
    requires a != b && SharesDirect(Channel(Direct, {tx.a, tx.b}), a, b)
    ensures {a, b} == {tx.a, tx.b}
  {
  }

  lemma SamePairSameKey(hash: PairHash, t: Tx, u: Tx)
    requires {t.a, t.b} == {u.a, u.b}
    ensures LockKey(hash, t) == LockKey(hash, u)
  {
    assert t.a in {u.a, u.b} && t.b in {u.a, u.b};
    assert u.a in {t.a, t.b} && u.b in {t.a, t.b};
  }

  lemma CommitKeepsTxs(hash: PairHash, s: State, t: TxId, u: TxId)
    requires Inv(hash, s) && Enabled(hash, s, Commit(t)) && s.txs[t].Inserted? && u in s.txs && u != t
    ensures TxOk(Do(hash, s, Commit(t)), s.txs[u])
  {
    var tx, ux, s' := s.txs[t], s.txs[u], Do(hash, s, Commit(t));
    assert TxOk(s, ux);
    if (ux.Missing? || ux.Inserted?) && SharesDirect(s'.channels[tx.chan], ux.a, ux.b) {
      NewChannelPair(tx, ux.a, ux.b);
      assert false by { SamePairSameKey(hash, tx, ux); }
    }
  }

  lemma CommitKeepsUnique(hash: PairHash, s: State, t: TxId)
    requires Inv(hash, s) && Enabled(hash, s, Commit(t))
    ensures OneDirectPerPair(Do(hash, s, Commit(t)).channels)
  {
    var tx, s' := s.txs[t], Do(hash, s, Commit(t));
    if tx.Inserted? {
      assert TxOk(s, tx);
      forall c, a, b | c in s.channels && a != b && SharesDirect(s.channels[c], a, b)
        ensures !SharesDirect(s'.channels[tx.chan], a, b)
      {
        if SharesDirect(s'.channels[tx.chan], a, b) {
          NewChannelPair(tx, a, b);
          assert SharesDirect(s.channels[c], tx.a, tx.b);
        }
      }
    }
  }

  lemma CommitKeepsInv(hash: PairHash, s: State, t: TxId)
    requires Inv(hash, s) && Enabled(hash, s, Commit(t))
    ensures Inv(hash, Do(hash, s, Commit(t)))
  {
    CommitKeepsUnique(hash, s, t);
    hide OneDirectPerPair;
    var s' := Do(hash, s, Commit(t));
    forall u | u in s'.txs
      ensures TxOk(s', s'.txs[u])
    {
      assert TxOk(s, s.txs[u]);
      if s.txs[t].Inserted? {
        CommitKeepsTxs(hash, s, t, u);
      }
    }
  }

  lemma StatementKeepsLocks(hash: PairHash, s: State, step: Step)
    requires LocksExclusive(hash, s) && Enabled(hash, s, step) && !step.Commit?
    ensures LocksExclusive(hash, Do(hash, s, step))
  {
    hide LookUpAnswer, FreshChan, SharesDirect;
  }

  /** Only a commit can make a pair share a DIRECT channel. */
  lemma StatementAddsNoDirect(hash: PairHash, s: State, step: Step, c: ChanId, a: UserId, b: UserId)
    requires Enabled(hash, s, step) && !step.Commit?
    requires c in Do(hash, s, step).channels && SharesDirect(Do(hash, s, step).channels[c], a, b)
    ensures c in s.channels && SharesDirect(s.channels[c], a, b)
  {
  }

  lemma StatementKeepsUnique(hash: PairHash, s: State, step: Step)
    requires OneDirectPerPair(s.channels) && Enabled(hash, s, step) && !step.Commit?
    ensures OneDirectPerPair(Do(hash, s, step).channels)
  {
    var s' := Do(hash, s, step);
    hide Enabled, SharesDirect;
    forall c, d, a, b | c in s'.channels && d in s'.channels && a != b
                        && SharesDirect(s'.channels[c], a, b) && SharesDirect(s'.channels[d], a, b)
      ensures c == d
    {
      StatementAddsNoDirect(hash, s, step, c, a, b);
      StatementAddsNoDirect(hash, s, step, d, a, b);
    }
  }

  lemma StatementKeepsTx(hash: PairHash, s: State, step: Step, t: TxId)
    requires Enabled(hash, s, step) && !step.Commit? && t in Do(hash, s, step).txs
    requires t in s.txs ==> TxOk(s, s.txs[t])
    ensures TxOk(Do(hash, s, step), Do(hash, s, step).txs[t])
  {
    var s', tx := Do(hash, s, step), Do(hash, s, step).txs[t];
    forall c | c in s'.channels && SharesDirect(s'.channels[c], tx.a, tx.b)
      ensures c in s.channels && SharesDirect(s.channels[c], tx.a, tx.b)
    {
      StatementAddsNoDirect(hash, s, step, c, tx.a, tx.b);
    }
    hide SharesDirect;
  }

  lemma StatementKeepsInv(hash: PairHash, s: State, step: Step)
    requires Inv(hash, s) && Enabled(hash, s, step) && !step.Commit?
    ensures Inv(hash, Do(hash, s, step))
  {
    StatementKeepsLocks(hash, s, step);
    StatementKeepsUnique(hash, s, step);
    hide LocksExclusive, OneDirectPerPair, TxOk;
    forall t | t in Do(hash, s, step).txs
      ensures TxOk(Do(hash, s, step), Do(hash, s, step).txs[t])
    {
      StatementKeepsTx(hash, s, step, t);
    }
  }

  lemma StepKeepsInv(hash: PairHash, s: State, step: Step)
    requires Inv(hash, s) && Enabled(hash, s, step)
    ensures Inv(hash, Do(hash, s, step))
  {
    if step.Commit? {
      CommitKeepsInv(hash, s, step.t);
    } else {
      StatementKeepsInv(hash, s, step);
    }
  }

  lemma {:induction false} RunKeepsInv(hash: PairHash, s: State, steps: seq<Step>)
    requires Inv(hash, s) && IsRun(hash, s, steps)
    ensures Inv(hash, After(hash, s, steps))
    decreases |steps|
  {
    if steps == [] {
    } else {
      StepKeepsInv(hash, s, steps[0]);
      RunKeepsInv(hash, Do(hash, s, steps[0]), steps[1..]);
    }
  }

  // ----- main results

  /** In every interleaving, whatever the hash, no pair of users ever shares two DIRECT channels. */
  lemma NoDuplicateDirect(hash: PairHash, steps: seq<Step>)
    requires IsRun(hash, EMPTY, steps)
    ensures var channels := After(hash, EMPTY, steps).channels;
            forall c, d | && c in channels && d in channels && c != d
                          && channels[c].kind.Direct? && channels[d].kind.Direct? ::
              var both := channels[c].members * channels[d].members;
              forall a, b :: a in both && b in both ==> a == b
  {
    RunKeepsInv(hash, EMPTY, steps);
    hide IsRun, After;
    var channels := After(hash, EMPTY, steps).channels;
    forall c, d, a, b | && c in channels && d in channels && c != d
                        && channels[c].kind.Direct? && channels[d].kind.Direct?
                        && a in channels[c].members && b in channels[c].members
                        && a in channels[d].members && b in channels[d].members
      ensures a == b
    {
      assert SharesDirect(channels[c], a, b) && SharesDirect(channels[d], a, b);
    }
  }

  /** A run is a run up to any point and a run from there on. */
  lemma {:induction false} RunSplits(hash: PairHash, s: State, steps: seq<Step>, rest: seq<Step>)
    requires IsRun(hash, s, steps + rest)
    ensures IsRun(hash, s, steps) && IsRun(hash, After(hash, s, steps), rest)
    ensures After(hash, s, steps + rest) == After(hash, After(hash, s, steps), rest)
    decreases |steps|
  {
    if steps == [] {
      assert steps + rest == rest;
    } else {
      assert (steps + rest)[1..] == steps[1..] + rest;
      RunSplits(hash, Do(hash, s, steps[0]), steps[1..], rest);
    }
  }

  /** A DIRECT channel of (some of) these two users. */
  ghost predicate IsDirectOf(channels: map<ChanId, Channel>, c: ChanId, a: UserId, b: UserId) {
    c in channels && channels[c].kind.Direct? && channels[c].members <= {a, b}
  }

  /** Call t found channel c, and if it has replied, with c. */
  ghost predicate WillReturn(s: State, t: TxId, a: UserId, b: UserId, c: ChanId) {
    && t in s.begun
    && (t in s.txs ==> s.txs[t] == Found(a, b, c))
    && (t in s.replies ==> s.replies[t] == Reply(a, b, c, false))
  }

  /** Call t found nothing, and if it has replied, with a channel that was not among `before`. */
  ghost predicate WillCreate(s: State, t: TxId, a: UserId, b: UserId, before: set<ChanId>) {
    && t in s.begun && before <= s.channels.Keys
    && (t in s.txs ==> s.txs[t] == Missing(a, b) || (s.txs[t].Inserted? && s.txs[t] == Inserted(a, b, s.txs[t].chan)
                                                      && s.txs[t].chan !in before))
    && (t in s.replies ==>
          var c := s.replies[t].chan;
          s.replies[t] == Reply(a, b, c, true) && c !in before && IsDirectOf(s.channels, c, a, b))
  }

  lemma StepKeepsReturn(hash: PairHash, s: State, step: Step, t: TxId, a: UserId, b: UserId, c: ChanId)
    requires Inv(hash, s) && Enabled(hash, s, step) && WillReturn(s, t, a, b, c)
    ensures WillReturn(Do(hash, s, step), t, a, b, c)
  {
    hide LocksExclusive, OneDirectPerPair, TxOk;
  }

  lemma StepKeepsDirect(hash: PairHash, s: State, step: Step, c: ChanId, a: UserId, b: UserId)
    requires Inv(hash, s) && Enabled(hash, s, step) && IsDirectOf(s.channels, c, a, b)
    ensures IsDirectOf(Do(hash, s, step).channels, c, a, b)
  {
    hide LocksExclusive, OneDirectPerPair;
    assert step.Commit? ==> TxOk(s, s.txs[step.t]);
  }

  lemma StepKeepsCreate(hash: PairHash, s: State, step: Step, t: TxId, a: UserId, b: UserId, before: set<ChanId>)
    requires Inv(hash, s) && Enabled(hash, s, step) && WillCreate(s, t, a, b, before)
    ensures WillCreate(Do(hash, s, step), t, a, b, before)
  {
    if t in s.replies {
      StepKeepsDirect(hash, s, step, s.replies[t].chan, a, b);
    }
    hide LocksExclusive, OneDirectPerPair, TxOk;
  }

  lemma {:induction false} AnswerKept(hash: PairHash, s: State, rest: seq<Step>, t: TxId, a: UserId, b: UserId,
                                      found: Option<ChanId>, before: set<ChanId>)
    requires Inv(hash, s) && IsRun(hash, s, rest)
    requires if found.Some? then WillReturn(s, t, a, b, found.value) else WillCreate(s, t, a, b, before)
    ensures var s' := After(hash, s, rest);
            if found.Some? then WillReturn(s', t, a, b, found.value) else WillCreate(s', t, a, b, before)
    decreases |rest|
  {
    hide WillReturn, WillCreate, Inv;
    if rest == [] {
    } else {
      if found.Some? {
        StepKeepsReturn(hash, s, rest[0], t, a, b, found.value);
      } else {
        StepKeepsCreate(hash, s, rest[0], t, a, b, before);
      }
      StepKeepsInv(hash, s, rest[0]);
      AnswerKept(hash, Do(hash, s, rest[0]), rest[1..], t, a, b, found, before);
    }
  }

  /** Some DIRECT channel holds both. */
  ghost predicate PairHasDirect(channels: map<ChanId, Channel>, a: UserId, b: UserId) {
    exists c :: c in channels && SharesDirect(channels[c], a, b)
  }

  /**
   * Over whole runs: if the pair of call t has a DIRECT channel when t looks it up, the reply of t, whenever
   * it comes, is that channel, not created; if it has none, the reply is a DIRECT channel of the two that
   * did not exist at the lookup, created.
   */
  lemma CreateReturnsExisting(hash: PairHash, steps: seq<Step>, t: TxId, found: Option<ChanId>, rest: seq<Step>)
    requires IsRun(hash, EMPTY, steps + ([LookUp(t, found)] + rest))
    ensures IsRun(hash, EMPTY, steps) && t in After(hash, EMPTY, steps).txs
    ensures var s, s' := After(hash, EMPTY, steps), After(hash, EMPTY, steps + ([LookUp(t, found)] + rest));
            var a, b := s.txs[t].a, s.txs[t].b;
            t in s'.replies ==>
              && (forall c :: c in s.channels && SharesDirect(s.channels[c], a, b) ==>
                    s'.replies[t] == Reply(a, b, c, false))
              && (!PairHasDirect(s.channels, a, b) ==>
                    var c := s'.replies[t].chan;
                    s'.replies[t] == Reply(a, b, c, true) && c !in s.channels && IsDirectOf(s'.channels, c, a, b))
  {
    RunSplits(hash, EMPTY, steps, [LookUp(t, found)] + rest);
    RunKeepsInv(hash, EMPTY, steps);
    var s := After(hash, EMPTY, steps);
    assert ([LookUp(t, found)] + rest)[1..] == rest;
    var s1 := Do(hash, s, LookUp(t, found));
    LookUpStarts(hash, s, t, found);
    StepKeepsInv(hash, s, LookUp(t, found));
    AnswerKept(hash, s1, rest, t, s.txs[t].a, s.txs[t].b, found, s.channels.Keys);
  }

  /** The lookup decides what the call will answer. */
  lemma LookUpStarts(hash: PairHash, s: State, t: TxId, found: Option<ChanId>)
    requires Inv(hash, s) && Enabled(hash, s, LookUp(t, found))
    ensures var s', a, b := Do(hash, s, LookUp(t, found)), s.txs[t].a, s.txs[t].b;
            if found.Some?
            then && WillReturn(s', t, a, b, found.value)
                 && PairHasDirect(s.channels, a, b)
                 && forall c :: c in s.channels && SharesDirect(s.channels[c], a, b) ==> c == found.value
            else && WillCreate(s', t, a, b, s.channels.Keys)
                 && !PairHasDirect(s.channels, a, b)
  {
    assert TxOk(s, s.txs[t]);
    hide LocksExclusive;
  }

  // ----- what replies name

  /** Channels found or replied are DIRECT channels of (some of) the two; a DIRECT channel has at most two members. */
  ghost predicate PairsOk(s: State) {
    && (forall c :: c in s.channels && s.channels[c].kind.Direct? ==> |s.channels[c].members| <= 2)
    && (forall t :: t in s.txs && s.txs[t].Found? ==> IsDirectOf(s.channels, s.txs[t].chan, s.txs[t].a, s.txs[t].b))
    && (forall t :: t in s.replies ==> IsDirectOf(s.channels, s.replies[t].chan, s.replies[t].a, s.replies[t].b))
  }

  lemma TwoSharersAreAll(ch: Channel, a: UserId, b: UserId)
    requires SharesDirect(ch, a, b) && a != b && |ch.members| <= 2
    ensures ch.members <= {a, b}
  {
    assert ch.members == {a, b} + (ch.members - {a, b});
  }

  lemma StepKeepsSmall(hash: PairHash, s: State, step: Step, c: ChanId)
    requires PairsOk(s) && Enabled(hash, s, step)
    requires c in Do(hash, s, step).channels && Do(hash, s, step).channels[c].kind.Direct?
    ensures |Do(hash, s, step).channels[c].members| <= 2
  {
    if step.Leave? && step.chan == c {
      var ms := s.channels[c].members;
      assert ms == (ms - {step.user}) + {step.user};
    }
  }

  lemma StepKeepsPairs(hash: PairHash, s: State, step: Step)
    requires Inv(hash, s) && PairsOk(s) && Enabled(hash, s, step)
    ensures PairsOk(Do(hash, s, step))
  {
    var s' := Do(hash, s, step);
    forall c | c in s'.channels && s'.channels[c].kind.Direct?
      ensures |s'.channels[c].members| <= 2
    {
      StepKeepsSmall(hash, s, step, c);
    }
    if step.LookUp? && step.found.Some? {
      assert TxOk(s, s.txs[step.t]);
      TwoSharersAreAll(s.channels[step.found.value], s.txs[step.t].a, s.txs[step.t].b);
    }
    hide Inv;
    forall t | t in s'.txs && s'.txs[t].Found?
      ensures IsDirectOf(s'.channels, s'.txs[t].chan, s'.txs[t].a, s'.txs[t].b)
    {
      if t in s.txs && s.txs[t].Found? {
        StepKeepsDirect(hash, s, step, s.txs[t].chan, s.txs[t].a, s.txs[t].b);
      }
    }
    forall t | t in s'.replies
      ensures IsDirectOf(s'.channels, s'.replies[t].chan, s'.replies[t].a, s'.replies[t].b)
    {
      if step.Commit? && step.t == t {
        if s.txs[t].Found? {
          StepKeepsDirect(hash, s, step, s.txs[t].chan, s.txs[t].a, s.txs[t].b);
        }
      } else {
        StepKeepsDirect(hash, s, step, s.replies[t].chan, s.replies[t].a, s.replies[t].b);
      }
    }
  }

  lemma {:induction false} RunKeepsPairs(hash: PairHash, s: State, steps: seq<Step>)
    requires Inv(hash, s) && PairsOk(s) && IsRun(hash, s, steps)
    ensures PairsOk(After(hash, s, steps))
    decreases |steps|
  {
    hide Inv, PairsOk;
    if steps == [] {
    } else {
      StepKeepsInv(hash, s, steps[0]);
      StepKeepsPairs(hash, s, steps[0]);
      RunKeepsPairs(hash, Do(hash, s, steps[0]), steps[1..]);
    }
  }

  /** In every run, every reply ever given names a DIRECT channel that has nobody but the two in it. */
  lemma RepliesArePrivate(hash: PairHash, steps: seq<Step>, t: TxId)
    requires IsRun(hash, EMPTY, steps)
    ensures var s := After(hash, EMPTY, steps);
            t in s.replies ==> IsDirectOf(s.channels, s.replies[t].chan, s.replies[t].a, s.replies[t].b)
  {
    RunKeepsPairs(hash, EMPTY, steps);
  }

  /**
   * A commit claims to have created its channel exactly when that channel did not exist, touches no other
   * channel, and a channel it creates holds exactly the pair and is the pair's only one.
   */
  lemma CommitAnswers(hash: PairHash, steps: seq<Step>, t: TxId)
    requires IsRun(hash, EMPTY, steps) && Enabled(hash, After(hash, EMPTY, steps), Commit(t))
    ensures var s := After(hash, EMPTY, steps);
            var s', tx := Do(hash, s, Commit(t)), s.txs[t];
            && s'.replies[t] == Reply(tx.a, tx.b, tx.chan, tx.chan !in s.channels)
            && s'.channels.Keys == s.channels.Keys + {tx.chan}
            && (forall c :: c in s.channels ==> s'.channels[c] == s.channels[c])
            && (s'.replies[t].created ==>
                  && s'.channels[tx.chan] == Channel(Direct, {tx.a, tx.b})
                  && forall c :: c in s'.channels && SharesDirect(s'.channels[c], tx.a, tx.b) ==> c == tx.chan)
  {
    RunKeepsInv(hash, EMPTY, steps);
    RunKeepsPairs(hash, EMPTY, steps);
    assert TxOk(After(hash, EMPTY, steps), After(hash, EMPTY, steps).txs[t]);
  }

  // ----- replies and members, read off the run

  /** The two users of call t. */
  function Asked(past: seq<Step>, t: TxId): Option<(UserId, UserId)> {
    if past == [] then None
    else
      var last := past[|past| - 1];
      if last.Begin? && last.t == t then Some((last.user, last.target)) else Asked(past[..|past| - 1], t)
  }

  predicate HasLeft(past: seq<Step>, c: ChanId, u: UserId) {
    past != [] && (past[|past| - 1] == Leave(c, u) || HasLeft(past[..|past| - 1], c, u))
  }

  /** The channel holds those of the two who have not left it. */
  ghost predicate HoldsWhoStayed(past: seq<Step>, channels: map<ChanId, Channel>, c: ChanId, a: UserId, b: UserId) {
    && c in channels && channels[c].kind.Direct?
    && forall u :: u in channels[c].members <==> (u == a || u == b) && !HasLeft(past, c, u)
  }

  ghost predicate Traced(past: seq<Step>, s: State) {
    && (forall t :: t in s.txs ==> Asked(past, t) == Some((s.txs[t].a, s.txs[t].b)))
    && (forall t :: t in s.replies ==> Asked(past, t) == Some((s.replies[t].a, s.replies[t].b)))
    && (forall c, u :: HasLeft(past, c, u) ==> c in s.channels)
    && (forall t :: t in s.replies && s.replies[t].created ==>
          HoldsWhoStayed(past, s.channels, s.replies[t].chan, s.replies[t].a, s.replies[t].b))
  }

  lemma StepTracesCalls(hash: PairHash, past: seq<Step>, s: State, step: Step, t: TxId)
    requires Inv(hash, s) && Traced(past, s) && Enabled(hash, s, step)
    ensures var s' := Do(hash, s, step);
            && (t in s'.txs ==> Asked(past + [step], t) == Some((s'.txs[t].a, s'.txs[t].b)))
            && (t in s'.replies ==> Asked(past + [step], t) == Some((s'.replies[t].a, s'.replies[t].b)))
  {
    hide HoldsWhoStayed, HasLeft, LocksExclusive, OneDirectPerPair, TxOk;
    assert (past + [step])[..|past|] == past && (past + [step])[|past|] == step;
  }

  lemma StepTracesLeft(hash: PairHash, past: seq<Step>, s: State, step: Step, c: ChanId, u: UserId)
    requires Traced(past, s) && Enabled(hash, s, step) && HasLeft(past + [step], c, u)
    ensures c in Do(hash, s, step).channels
  {
    hide HoldsWhoStayed, Asked;
    assert (past + [step])[..|past|] == past && (past + [step])[|past|] == step;
  }

  lemma StepTracesMembers(hash: PairHash, past: seq<Step>, s: State, step: Step, c: ChanId, a: UserId, b: UserId)
    requires Inv(hash, s) && Enabled(hash, s, step) && HoldsWhoStayed(past, s.channels, c, a, b)
    ensures HoldsWhoStayed(past + [step], Do(hash, s, step).channels, c, a, b)
  {
    assert (past + [step])[..|past|] == past && (past + [step])[|past|] == step;
    assert step.Commit? ==> TxOk(s, s.txs[step.t]);
    hide LocksExclusive, OneDirectPerPair;
  }

  /** A channel just created has been left by nobody. */
  lemma CommitTracesMembers(hash: PairHash, past: seq<Step>, s: State, t: TxId)
    requires Inv(hash, s) && Traced(past, s) && Enabled(hash, s, Commit(t)) && s.txs[t].Inserted?
    ensures HoldsWhoStayed(past + [Commit(t)], Do(hash, s, Commit(t)).channels, s.txs[t].chan, s.txs[t].a, s.txs[t].b)
  {
    assert (past + [Commit(t)])[..|past|] == past && (past + [Commit(t)])[|past|] == Commit(t);
    assert TxOk(s, s.txs[t]);
    forall u
      ensures !HasLeft(past + [Commit(t)], s.txs[t].chan, u)
    {
      assert !HasLeft(past, s.txs[t].chan, u);
    }
    hide LocksExclusive, OneDirectPerPair, HasLeft;
  }

  lemma StepTraces(hash: PairHash, past: seq<Step>, s: State, step: Step)
    requires Inv(hash, s) && Traced(past, s) && Enabled(hash, s, step)
    ensures Traced(past + [step], Do(hash, s, step))
  {
    hide Inv, HoldsWhoStayed, HasLeft, Asked;
    var now, s' := past + [step], Do(hash, s, step);
    forall t
      ensures t in s'.txs ==> Asked(now, t) == Some((s'.txs[t].a, s'.txs[t].b))
      ensures t in s'.replies ==> Asked(now, t) == Some((s'.replies[t].a, s'.replies[t].b))
    {
      StepTracesCalls(hash, past, s, step, t);
    }
    forall c, u | HasLeft(now, c, u)
      ensures c in s'.channels
    {
      StepTracesLeft(hash, past, s, step, c, u);
    }
    forall t | t in s'.replies && s'.replies[t].created
      ensures HoldsWhoStayed(now, s'.channels, s'.replies[t].chan, s'.replies[t].a, s'.replies[t].b)
    {
      if step == Commit(t) {
        CommitTracesMembers(hash, past, s, t);
      } else {
        StepTracesMembers(hash, past, s, step, s.replies[t].chan, s.replies[t].a, s.replies[t].b);
      }
    }
  }

  lemma {:induction false} RunTraces(hash: PairHash, past: seq<Step>, s: State, steps: seq<Step>)
    requires Inv(hash, s) && Traced(past, s) && IsRun(hash, s, steps)
    ensures Traced(past + steps, After(hash, s, steps))
    decreases |steps|
  {
    hide Inv, Traced;
    if steps == [] {
      assert past + steps == past;
    } else {
      StepKeepsInv(hash, s, steps[0]);
      StepTraces(hash, past, s, steps[0]);
      RunTraces(hash, past + [steps[0]], Do(hash, s, steps[0]), steps[1..]);
      assert past + [steps[0]] + steps[1..] == past + steps;
    }
  }

  /**
   * In every run a reply answers the two users its call was made for, and a channel it created holds exactly
   * those of the two who have not left it.
   */
  lemma ReplyAnswersItsCall(hash: PairHash, steps: seq<Step>, t: TxId)
    requires IsRun(hash, EMPTY, steps)
    ensures var s := After(hash, EMPTY, steps);
            t in s.replies ==>
              var r := s.replies[t];
              && Asked(steps, t) == Some((r.a, r.b))
              && (r.created ==> HoldsWhoStayed(steps, s.channels, r.chan, r.a, r.b))
  {
    RunTraces(hash, [], EMPTY, steps);
    assert [] + steps == steps;
  }
}

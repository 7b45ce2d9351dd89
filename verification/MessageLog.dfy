/**
 * The send and delete transactions of one channel (src/modules/messages/messages.service.ts),
 * statement by statement. A statement sees the committed rows and its own transaction's
 * writes; row locks are held to commit; a transaction may abort at any point.
 *
 * Locks are not stored: which ones a transaction holds follows from how far it has got.
 */
module MessageLog {
  import opened Options

  type MsgId = nat
  type TxId = nat

  datatype Row = Row(seqNo: nat, deleted: bool, createdAt: int)

  /** channels.lastMessageId and channels.lastMessageAt. */
  datatype Preview = Preview(id: MsgId, at: int)

  datatype Tables = Tables(rows: map<MsgId, Row>, last: Option<Preview>)

  datatype Tx =
    | SendOpen
    | SendLocked
    | SendNumbered(seqNo: nat)
    | SendInserted(id: MsgId, row: Row)
    | SendPointed(id: MsgId, row: Row)
    | SendCollided                               // error 23505: the retry branch
    | DeleteOpen(id: MsgId)
    | DeleteMarked(id: MsgId)
    | DeleteLocked(id: MsgId, seen: Option<MsgId>)
    | DeleteChosen(id: MsgId, prev: Option<Preview>)
    | DeletePointed(id: MsgId, prev: Option<Preview>)

  datatype State = State(committed: Tables, txs: map<TxId, Tx>)

  datatype Step =
    | BeginSend(t: TxId)
    | BeginDelete(t: TxId, id: MsgId)
    | Mark(t: TxId)
    | LockChannel(t: TxId)
    | ReadMax(t: TxId, max: nat)
    | Insert(t: TxId, id: MsgId, at: int)
    | PointAtNew(t: TxId)
    | ChoosePrevious(t: TxId, prev: Option<Preview>)
    | Repoint(t: TxId)
    | Commit(t: TxId)
    | Abort(t: TxId)

  predicate HoldsChannel(tx: Tx) {
    !(tx.SendOpen? || tx.SendCollided? || tx.DeleteOpen? || tx.DeleteMarked?)
  }

  predicate HoldsMessage(tx: Tx, id: MsgId) {
    (tx.DeleteMarked? || tx.DeleteLocked? || tx.DeleteChosen? || tx.DeletePointed?) && tx.id == id
  }

  ghost predicate ChannelFree(s: State) {
    forall t :: t in s.txs ==> !HoldsChannel(s.txs[t])
  }

  function LastId(tb: Tables): Option<MsgId> {
    match tb.last case None => None case Some(p) => Some(p.id)
  }

  function MarkDeleted(rows: map<MsgId, Row>, id: MsgId): map<MsgId, Row>
    requires id in rows
  {
    rows[id := rows[id].(deleted := true)]
  }

  ghost predicate HasSeq(rows: map<MsgId, Row>, k: nat) {
    exists i :: i in rows && rows[i].seqNo == k
  }

  /** `coalesce(max(sequence_number), 0)`. */
  ghost predicate IsMaxSeq(rows: map<MsgId, Row>, max: nat) {
    && (forall i :: i in rows ==> rows[i].seqNo <= max)
    && (max == 0 || HasSeq(rows, max))
  }

  /** The newest undeleted row, or None: `order by sequence_number desc limit 1`. */
  ghost predicate IsNewest(rows: map<MsgId, Row>, p: Option<Preview>) {
    match p
    case None => forall i :: i in rows ==> rows[i].deleted
    case Some(n) =>
      && n.id in rows && !rows[n.id].deleted && n.at == rows[n.id].createdAt
      && forall i :: i in rows && !rows[i].deleted ==> rows[i].seqNo <= rows[n.id].seqNo
  }

  /** Sequence numbers are exactly 1..n, one row each. */
  ghost predicate Numbered(rows: map<MsgId, Row>) {
    && (forall i :: i in rows ==> 1 <= rows[i].seqNo <= |rows|)
    && (forall i, j :: i in rows && j in rows && rows[i].seqNo == rows[j].seqNo ==> i == j)
    && (forall k :: 1 <= k <= |rows| ==> HasSeq(rows, k))
  }

  ghost predicate CanCommit(tx: Tx) {
    tx.SendPointed? || tx.DeletePointed? || (tx.DeleteLocked? && tx.seen != Some(tx.id))
  }

  ghost predicate Enabled(s: State, step: Step) {
    match step
    case BeginSend(t) => t !in s.txs
    case BeginDelete(t, id) => t !in s.txs && id in s.committed.rows && !s.committed.rows[id].deleted
    case _ => step.t in s.txs && EnabledIn(s, step, s.txs[step.t])
  }

  ghost predicate EnabledIn(s: State, step: Step, tx: Tx) {
    match step
    case Mark(t) => tx.DeleteOpen? && forall u :: u in s.txs ==> !HoldsMessage(s.txs[u], tx.id)
    case LockChannel(t) => (tx.SendOpen? || tx.DeleteMarked?) && ChannelFree(s)
    case ReadMax(t, max) => tx.SendLocked? && IsMaxSeq(s.committed.rows, max)
    case Insert(t, id, at) => tx.SendNumbered? && id !in s.committed.rows
    case PointAtNew(t) => tx.SendInserted?
    case ChoosePrevious(t, prev) =>
      tx.DeleteLocked? && tx.seen == Some(tx.id) && tx.id in s.committed.rows
      && IsNewest(MarkDeleted(s.committed.rows, tx.id) - {tx.id}, prev)
    case Repoint(t) => tx.DeleteChosen?
    case Commit(t) => CanCommit(tx) && (tx.SendPointed? || tx.id in s.committed.rows)
    case Abort(t) => true
    case _ => false
  }

  /** What a commit publishes. */
  ghost function Publish(tb: Tables, tx: Tx): Tables
    requires CanCommit(tx) && (tx.SendPointed? || tx.id in tb.rows)
  {
    match tx
    case SendPointed(id, row) => Tables(tb.rows[id := row], Some(Preview(id, row.createdAt)))
    case DeleteLocked(id, _) => tb.(rows := MarkDeleted(tb.rows, id))
    case DeletePointed(id, prev) => Tables(MarkDeleted(tb.rows, id), prev)
  }

  /** The transaction after one of its own statements. */
  ghost function Advance(s: State, step: Step, tx: Tx): Tx
    requires EnabledIn(s, step, tx) && !step.Commit? && !step.Abort?
  {
    match step
    case Mark(t) => DeleteMarked(tx.id)
    case LockChannel(t) => if tx.SendOpen? then SendLocked else DeleteLocked(tx.id, LastId(s.committed))
    case ReadMax(t, max) => SendNumbered(max + 1)
    case Insert(t, id, at) =>
      if HasSeq(s.committed.rows, tx.seqNo) then SendCollided
      else SendInserted(id, Row(tx.seqNo, false, at))
    case PointAtNew(t) => SendPointed(tx.id, tx.row)
    case ChoosePrevious(t, prev) => DeleteChosen(tx.id, prev)
    case Repoint(t) => DeletePointed(tx.id, tx.prev)
  }

  ghost function Do(s: State, step: Step): State
    requires Enabled(s, step)
  {
    match step
    case BeginSend(t) => s.(txs := s.txs[t := SendOpen])
    case BeginDelete(t, id) => s.(txs := s.txs[t := DeleteOpen(id)])
    case Commit(t) => State(Publish(s.committed, s.txs[t]), s.txs - {t})
    case Abort(t) => s.(txs := s.txs - {t})
    case _ => s.(txs := s.txs[step.t := Advance(s, step, s.txs[step.t])])
  }

  const EMPTY := State(Tables(map[], None), map[])

  ghost predicate IsRun(s: State, steps: seq<Step>)
    decreases |steps|
  {
    steps == [] || (Enabled(s, steps[0]) && IsRun(Do(s, steps[0]), steps[1..]))
  }

  ghost function After(s: State, steps: seq<Step>): State
    requires IsRun(s, steps)
    decreases |steps|
  {
    if steps == [] then s else After(Do(s, steps[0]), steps[1..])
  }

  // ----- the invariant

  ghost predicate OneHolder(s: State) {
    forall t, u :: t in s.txs && u in s.txs && HoldsChannel(s.txs[t]) && HoldsChannel(s.txs[u]) ==> t == u
  }

  /** What a transaction may rely on while it holds the locks it holds. */
  ghost predicate TxOk(tb: Tables, tx: Tx) {
    match tx
    case SendOpen => true
    case SendLocked => true
    case SendNumbered(n) => n == |tb.rows| + 1
    case SendInserted(id, row) => id !in tb.rows && row.seqNo == |tb.rows| + 1 && !row.deleted
    case SendPointed(id, row) => id !in tb.rows && row.seqNo == |tb.rows| + 1 && !row.deleted
    case SendCollided => false
    case DeleteOpen(id) => id in tb.rows
    case DeleteMarked(id) => id in tb.rows
    case DeleteLocked(id, seen) => id in tb.rows && seen == LastId(tb)
    case DeleteChosen(id, prev) => id in tb.rows && IsNewest(MarkDeleted(tb.rows, id), prev)
    case DeletePointed(id, prev) => id in tb.rows && IsNewest(MarkDeleted(tb.rows, id), prev)
  }

  ghost predicate Inv(s: State) {
    && OneHolder(s)
    && Numbered(s.committed.rows)
    && IsNewest(s.committed.rows, s.committed.last)
    && forall t :: t in s.txs ==> TxOk(s.committed, s.txs[t])
  }

  lemma MaxIsCount(rows: map<MsgId, Row>, max: nat)
    requires Numbered(rows) && IsMaxSeq(rows, max)
    ensures max == |rows|
  {
    if |rows| > 0 {
      assert HasSeq(rows, |rows|);
    }
  }

  /** A table that keeps the numbers of its rows keeps the numbers it has. */
  lemma HasSeqStays(rows: map<MsgId, Row>, later: map<MsgId, Row>, k: nat)
    requires forall i :: i in rows ==> i in later && later[i].seqNo == rows[i].seqNo
    ensures HasSeq(rows, k) ==> HasSeq(later, k)
  {
    if i :| i in rows && rows[i].seqNo == k {
      assert later[i].seqNo == k;
    }
  }

  lemma AppendNumbered(rows: map<MsgId, Row>, id: MsgId, row: Row)
    requires Numbered(rows) && id !in rows && row.seqNo == |rows| + 1
    ensures Numbered(rows[id := row])
  {
    var rows' := rows[id := row];
    assert |rows'| == |rows| + 1 by { assert rows'.Keys == rows.Keys + {id}; }
    forall k | 1 <= k <= |rows'|
      ensures HasSeq(rows', k)
    {
      if k == |rows'| {
        assert rows'[id].seqNo == k;
      } else {
        HasSeqStays(rows, rows', k);
      }
    }
  }

  lemma MarkNumbered(rows: map<MsgId, Row>, id: MsgId)
    requires Numbered(rows) && id in rows
    ensures Numbered(MarkDeleted(rows, id))
  {
    var rows' := MarkDeleted(rows, id);
    assert rows'.Keys == rows.Keys;
    forall k | 1 <= k <= |rows'|
      ensures HasSeq(rows', k)
    {
      HasSeqStays(rows, rows', k);
    }
  }

  /** Deleting a message that is not the preview leaves the preview the newest. */
  lemma MarkKeepsNewest(rows: map<MsgId, Row>, last: Option<Preview>, id: MsgId)
    requires IsNewest(rows, last) && id in rows
    requires last.None? || last.value.id != id
    ensures IsNewest(MarkDeleted(rows, id), last)
  {
  }

  /** A deleted row does not take part in the choice. */
  lemma NewestAmongOthers(rows: map<MsgId, Row>, id: MsgId, p: Option<Preview>)
    requires id in rows && rows[id].deleted && IsNewest(rows - {id}, p)
    ensures IsNewest(rows, p)
  {
    assert rows.Keys == (rows - {id}).Keys + {id};
  }

  /** What a commit publishes is numbered and has the newest preview. */
  lemma PublishKeepsTables(tb: Tables, tx: Tx)
    requires Numbered(tb.rows) && IsNewest(tb.rows, tb.last) && TxOk(tb, tx)
    requires CanCommit(tx) && (tx.SendPointed? || tx.id in tb.rows)
    ensures Numbered(Publish(tb, tx).rows) && IsNewest(Publish(tb, tx).rows, Publish(tb, tx).last)
  {
    match tx {
      case SendPointed(id, row) =>
        AppendNumbered(tb.rows, id, row);
        assert forall i :: i in tb.rows ==> tb.rows[i].seqNo <= |tb.rows|;
      case DeleteLocked(id, seen) =>
        MarkNumbered(tb.rows, id);
        MarkKeepsNewest(tb.rows, tb.last, id);
      case DeletePointed(id, prev) =>
        MarkNumbered(tb.rows, id);
      case _ =>
    }
    hide Numbered;
  }

  /** A commit takes nothing away from a transaction that does not hold the channel row. */
  lemma PublishKeepsOthers(tb: Tables, tx: Tx, other: Tx)
    requires CanCommit(tx) && (tx.SendPointed? || tx.id in tb.rows)
    requires TxOk(tb, other) && !HoldsChannel(other)
    ensures TxOk(Publish(tb, tx), other)
  {
    hide IsNewest;
  }

  lemma CommitKeepsInv(s: State, t: TxId)
    requires Inv(s) && Enabled(s, Commit(t))
    ensures Inv(Do(s, Commit(t)))
  {
    var s' := Do(s, Commit(t));
    PublishKeepsTables(s.committed, s.txs[t]);
    hide Numbered, IsNewest, TxOk, Publish;
    forall u | u in s'.txs
      ensures TxOk(s'.committed, s'.txs[u])
    {
      assert !HoldsChannel(s.txs[u]);
      PublishKeepsOthers(s.committed, s.txs[t], s.txs[u]);
    }
  }

  /** The transaction that moves can rely on what its new stage promises. */
  lemma AdvanceKeepsTx(s: State, step: Step, tx: Tx)
    requires Numbered(s.committed.rows) && IsNewest(s.committed.rows, s.committed.last)
    requires TxOk(s.committed, tx) && EnabledIn(s, step, tx) && !step.Commit? && !step.Abort?
    ensures TxOk(s.committed, Advance(s, step, tx))
  {
    match step {
      case ReadMax(t, max) =>
        MaxIsCount(s.committed.rows, max);
      case ChoosePrevious(t, prev) =>
        NewestAmongOthers(MarkDeleted(s.committed.rows, tx.id), tx.id, prev);
      case _ =>
    }
  }

  lemma StatementKeepsHolder(s: State, step: Step)
    requires OneHolder(s) && Enabled(s, step) && !step.Commit?
    ensures OneHolder(Do(s, step))
  {
    hide IsNewest, IsMaxSeq;
  }

  lemma StatementKeepsInv(s: State, step: Step)
    requires Inv(s) && Enabled(s, step) && !step.Commit?
    ensures Inv(Do(s, step))
  {
    StatementKeepsHolder(s, step);
    hide Numbered, IsNewest, IsMaxSeq, OneHolder;
    var s' := Do(s, step);
    forall t | t in s'.txs
      ensures TxOk(s'.committed, s'.txs[t])
    {
      if t == step.t && t in s.txs {
        AdvanceKeepsTx(s, step, s.txs[t]);
      }
    }
  }

  lemma StepKeepsInv(s: State, step: Step)
    requires Inv(s) && Enabled(s, step)
    ensures Inv(Do(s, step))
  {
    if step.Commit? {
      CommitKeepsInv(s, step.t);
    } else {
      StatementKeepsInv(s, step);
    }
  }

  lemma {:induction false} RunKeepsInv(s: State, steps: seq<Step>)
    requires Inv(s) && IsRun(s, steps)
    ensures Inv(After(s, steps))
    decreases |steps|
  {
    if steps == [] {
    } else {
      StepKeepsInv(s, steps[0]);
      RunKeepsInv(Do(s, steps[0]), steps[1..]);
    }
  }

  // ----- main results

  /** In every interleaving the preview is the newest undeleted message, or null if there is none. */
  lemma PreviewIsNewest(steps: seq<Step>)
    requires IsRun(EMPTY, steps)
    ensures var tb := After(EMPTY, steps).committed;
            match tb.last
            case None => forall i :: i in tb.rows ==> tb.rows[i].deleted
            case Some(p) =>
              && p.id in tb.rows && !tb.rows[p.id].deleted && p.at == tb.rows[p.id].createdAt
              && forall i :: i in tb.rows && !tb.rows[i].deleted ==> tb.rows[i].seqNo <= tb.rows[p.id].seqNo
  {
    RunKeepsInv(EMPTY, steps);
  }

  /** In every interleaving the committed numbers are exactly 1..n and no insert ever collides. */
  lemma SequenceNumbersContiguous(steps: seq<Step>)
    requires IsRun(EMPTY, steps)
    ensures var s := After(EMPTY, steps);
            var rows := s.committed.rows;
            && (forall i :: i in rows ==> 1 <= rows[i].seqNo <= |rows|)
            && (forall i, j :: i in rows && j in rows && rows[i].seqNo == rows[j].seqNo ==> i == j)
            && (forall k :: 1 <= k <= |rows| ==> HasSeq(rows, k))
            && forall t :: t in s.txs ==> !s.txs[t].SendCollided?
  {
    RunKeepsInv(EMPTY, steps);
  }

  /** So the committed rows have a listing in sequence order, each exactly once. */
  lemma {:induction false} RowsInOrder(rows: map<MsgId, Row>, n: nat) returns (ids: seq<MsgId>)
    requires Numbered(rows) && n <= |rows|
    ensures |ids| == n && forall i :: 0 <= i < n ==> ids[i] in rows && rows[ids[i]].seqNo == i + 1
    ensures forall id :: id in rows && rows[id].seqNo <= n ==> id == ids[rows[id].seqNo - 1]
  {
    if n == 0 {
      return [];
    }
    ids := RowsInOrder(rows, n - 1);
    assert HasSeq(rows, n);
    var last :| last in rows && rows[last].seqNo == n;
    ids := ids + [last];
  }

  // ----- no deadlock

  lemma NewestExists(rows: map<MsgId, Row>) returns (p: Option<Preview>)
    ensures IsNewest(rows, p)
    decreases |rows|
  {
    if rows == map[] {
      return None;
    }
    var i :| i in rows;
    var rest := rows - {i};
    assert rows.Keys == rest.Keys + {i};
    p := NewestExists(rest);
    if !rows[i].deleted && (p.None? || rows[p.value.id].seqNo < rows[i].seqNo) {
      p := Some(Preview(i, rows[i].createdAt));
    }
  }

  lemma FreshId(used: set<MsgId>) returns (id: MsgId)
    ensures id !in used
    ensures forall u :: u in used ==> u < id
    decreases |used|
  {
    if used == {} {
      return 0;
    }
    var u :| u in used;
    assert used == (used - {u}) + {u};
    id := FreshId(used - {u});
    if u >= id {
      id := u + 1;
    }
  }

  /** The holder of the channel row can always execute its next statement. */
  lemma HolderProceeds(s: State, t: TxId) returns (step: Step)
    requires Inv(s) && t in s.txs && HoldsChannel(s.txs[t])
    ensures !step.Abort? && step.t == t && Enabled(s, step)
  {
    var rows := s.committed.rows;
    match s.txs[t] {
      case SendLocked =>
        step := ReadMax(t, |rows|);
      case SendNumbered(_) =>
        var id := FreshId(rows.Keys);
        step := Insert(t, id, 0);
      case SendInserted(_, _) =>
        step := PointAtNew(t);
      case SendPointed(_, _) =>
        step := Commit(t);
      case DeleteLocked(id, seen) =>
        if seen == Some(id) {
          var prev := NewestExists(MarkDeleted(rows, id) - {id});
          step := ChoosePrevious(t, prev);
        } else {
          step := Commit(t);
        }
      case DeleteChosen(_, _) =>
        step := Repoint(t);
      case DeletePointed(_, _) =>
        step := Commit(t);
    }
  }

  /** Whenever a transaction is open, some open transaction can execute a statement. */
  lemma NeverDeadlocks(steps: seq<Step>)
    requires IsRun(EMPTY, steps) && After(EMPTY, steps).txs != map[]
    ensures var s := After(EMPTY, steps);
            exists step: Step :: step.t in s.txs && !step.Abort? && Enabled(s, step)
  {
    var s := After(EMPTY, steps);
    RunKeepsInv(EMPTY, steps);
    SomeoneProceeds(s);
  }

  lemma SomeoneProceeds(s: State)
    requires Inv(s) && s.txs != map[]
    ensures exists step: Step :: step.t in s.txs && !step.Abort? && Enabled(s, step)
  {
    hide Numbered, IsNewest, OneHolder;
    if !ChannelFree(s) {
      var t :| t in s.txs && HoldsChannel(s.txs[t]);
      var step := HolderProceeds(s, t);
    } else {
      var t :| t in s.txs;
      var tx := s.txs[t];
      if tx.DeleteOpen? {
        if u :| u in s.txs && HoldsMessage(s.txs[u], tx.id) {
          assert Enabled(s, LockChannel(u));
        } else {
          assert Enabled(s, Mark(t));
        }
      } else {
        assert Enabled(s, LockChannel(t));
      }
    }
  }
}

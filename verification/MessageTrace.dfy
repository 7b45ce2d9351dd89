/**
 * What the send and delete transactions of MessageLog write: the table after any run,
 * read off the run itself.
 */
module MessageTrace {
  import opened Options
  import opened MessageLog

  predicate Ends(step: Step, t: TxId) {
    (step.Commit? || step.Abort?) && step.t == t
  }

  /** Transaction t inserted message id, dated at, and has not ended since. */
  predicate InsertOpen(past: seq<Step>, t: TxId, id: MsgId, at: int) {
    past != [] &&
    var front, last := past[..|past| - 1], past[|past| - 1];
    last == Insert(t, id, at) || (!Ends(last, t) && InsertOpen(front, t, id, at))
  }

  /** Transaction t began to delete message id and has not ended since. */
  predicate DeleteOpenIn(past: seq<Step>, t: TxId, id: MsgId) {
    past != [] &&
    var front, last := past[..|past| - 1], past[|past| - 1];
    last == BeginDelete(t, id) || (!Ends(last, t) && DeleteOpenIn(front, t, id))
  }

  /** A transaction that inserted message id, dated at, committed. */
  predicate SentIn(past: seq<Step>, id: MsgId, at: int) {
    past != [] &&
    var front, last := past[..|past| - 1], past[|past| - 1];
    SentIn(front, id, at) || (last.Commit? && InsertOpen(front, last.t, id, at))
  }

  /** A transaction that deletes message id committed. */
  predicate DeletedIn(past: seq<Step>, id: MsgId) {
    past != [] &&
    var front, last := past[..|past| - 1], past[|past| - 1];
    DeletedIn(front, id) || (last.Commit? && DeleteOpenIn(front, last.t, id))
  }

  predicate HasInserted(txs: map<TxId, Tx>, t: TxId, id: MsgId, at: int) {
    t in txs && (txs[t].SendInserted? || txs[t].SendPointed?) && txs[t].id == id && txs[t].row.createdAt == at
  }

  predicate IsDeleting(txs: map<TxId, Tx>, t: TxId, id: MsgId) {
    t in txs && (txs[t] == DeleteOpen(id) || HoldsMessage(txs[t], id))
  }

  ghost predicate OpenTraced(past: seq<Step>, s: State) {
    && (forall t, id, at :: InsertOpen(past, t, id, at) <==> HasInserted(s.txs, t, id, at))
    && (forall t, id :: DeleteOpenIn(past, t, id) <==> IsDeleting(s.txs, t, id))
  }

  ghost predicate RowsTraced(past: seq<Step>, rows: map<MsgId, Row>) {
    && (forall id, at :: SentIn(past, id, at) <==> id in rows && rows[id].createdAt == at)
    && (forall id :: DeletedIn(past, id) <==> id in rows && rows[id].deleted)
  }

  lemma StepTracesInsert(past: seq<Step>, s: State, step: Step, t: TxId, id: MsgId, at: int)
    requires Enabled(s, step) && (InsertOpen(past, t, id, at) <==> HasInserted(s.txs, t, id, at))
    requires step.Insert? ==> !Do(s, step).txs[step.t].SendCollided?
    ensures InsertOpen(past + [step], t, id, at) <==> HasInserted(Do(s, step).txs, t, id, at)
  {
    hide IsNewest, Numbered, Publish, IsMaxSeq, HasSeq;
    assert (past + [step])[..|past|] == past && (past + [step])[|past|] == step;
  }

  lemma StepTracesDelete(past: seq<Step>, s: State, step: Step, t: TxId, id: MsgId)
    requires Enabled(s, step) && (DeleteOpenIn(past, t, id) <==> IsDeleting(s.txs, t, id))
    ensures DeleteOpenIn(past + [step], t, id) <==> IsDeleting(Do(s, step).txs, t, id)
  {
    hide IsNewest, Numbered, Publish, IsMaxSeq, HasSeq;
    assert (past + [step])[..|past|] == past && (past + [step])[|past|] == step;
  }

  lemma StepTracesOpen(past: seq<Step>, s: State, step: Step)
    requires OpenTraced(past, s) && Enabled(s, step)
    requires step.Insert? ==> !Do(s, step).txs[step.t].SendCollided?
    ensures OpenTraced(past + [step], Do(s, step))
  {
    var s', now := Do(s, step), past + [step];
    hide InsertOpen, DeleteOpenIn, HasInserted, IsDeleting, Enabled, Do;
    forall t, id, at
      ensures InsertOpen(now, t, id, at) <==> HasInserted(s'.txs, t, id, at)
    {
      StepTracesInsert(past, s, step, t, id, at);
    }
    forall t, id
      ensures DeleteOpenIn(now, t, id) <==> IsDeleting(s'.txs, t, id)
    {
      StepTracesDelete(past, s, step, t, id);
    }
  }

  /** What a commit makes of the rows. */
  ghost predicate Wrote(past: seq<Step>, t: TxId, rows: map<MsgId, Row>, rows': map<MsgId, Row>) {
    && (forall id, at :: InsertOpen(past, t, id, at) ==>
          id !in rows && rows' == rows[id := Row(|rows| + 1, false, at)])
    && (forall id :: DeleteOpenIn(past, t, id) ==>
          id in rows && rows' == rows[id := rows[id].(deleted := true)])
    && ((exists id, at :: InsertOpen(past, t, id, at)) || (exists id :: DeleteOpenIn(past, t, id)))
  }

  lemma CommitPublishes(past: seq<Step>, s: State, t: TxId)
    requires OpenTraced(past, s) && Enabled(s, Commit(t)) && TxOk(s.committed, s.txs[t])
    ensures Wrote(past, t, s.committed.rows, Do(s, Commit(t)).committed.rows)
  {
    hide InsertOpen, DeleteOpenIn, IsNewest;
    var tx := s.txs[t];
    if tx.SendPointed? {
      assert HasInserted(s.txs, t, tx.id, tx.row.createdAt);
      assert InsertOpen(past, t, tx.id, tx.row.createdAt);
    } else {
      assert IsDeleting(s.txs, t, tx.id);
      assert DeleteOpenIn(past, t, tx.id);
    }
  }

  lemma OtherStepsWriteNothing(s: State, step: Step)
    requires Enabled(s, step) && !step.Commit?
    ensures Do(s, step).committed == s.committed
  {
    hide IsNewest, IsMaxSeq, HasSeq;
  }

  /** A committing transaction does one thing only, so a commit traces each row. */
  lemma StepTracesRows(past: seq<Step>, step: Step, rows: map<MsgId, Row>, rows': map<MsgId, Row>)
    requires RowsTraced(past, rows)
    requires if step.Commit? then Wrote(past, step.t, rows, rows') else rows' == rows
    ensures RowsTraced(past + [step], rows')
  {
    var now := past + [step];
    assert now[..|past|] == past && now[|past|] == step;
    hide InsertOpen, DeleteOpenIn;
    forall id, at
      ensures SentIn(now, id, at) <==> id in rows' && rows'[id].createdAt == at
    {
      assert SentIn(past, id, at) <==> id in rows && rows[id].createdAt == at;
    }
    forall id
      ensures DeletedIn(now, id) <==> id in rows' && rows'[id].deleted
    {
      assert DeletedIn(past, id) <==> id in rows && rows[id].deleted;
    }
  }

  ghost predicate Traced(past: seq<Step>, s: State) {
    Inv(s) && OpenTraced(past, s) && RowsTraced(past, s.committed.rows)
  }

  lemma StepTraces(past: seq<Step>, s: State, step: Step)
    requires Traced(past, s) && Enabled(s, step)
    ensures Traced(past + [step], Do(s, step))
  {
    StepKeepsInv(s, step);
    assert step.Commit? ==> TxOk(s.committed, s.txs[step.t]);
    assert step.Insert? ==> TxOk(Do(s, step).committed, Do(s, step).txs[step.t]);
    hide OpenTraced, RowsTraced, Inv, Wrote, Do, Enabled;
    StepTracesOpen(past, s, step);
    if step.Commit? {
      CommitPublishes(past, s, step.t);
    } else {
      OtherStepsWriteNothing(s, step);
    }
    StepTracesRows(past, step, s.committed.rows, Do(s, step).committed.rows);
  }

  lemma {:induction false} RunTraces(past: seq<Step>, s: State, steps: seq<Step>)
    requires Traced(past, s) && IsRun(s, steps)
    ensures Traced(past + steps, After(s, steps))
    decreases |steps|
  {
    hide Traced;
    if steps == [] {
      assert past + steps == past;
    } else {
      StepTraces(past, s, steps[0]);
      RunTraces(past + [steps[0]], Do(s, steps[0]), steps[1..]);
      assert past + [steps[0]] + steps[1..] == past + steps;
    }
  }

  lemma RunIsTraced(steps: seq<Step>)
    requires IsRun(EMPTY, steps)
    ensures var s := After(EMPTY, steps); Traced(steps, s)
  {
    RunTraces([], EMPTY, steps);
    assert [] + steps == steps;
  }

  /**
   * After any run the table holds exactly the messages inserted by transactions that committed, with their
   * dates, and a message is deleted exactly if a transaction deleting it committed.
   */
  lemma TableIsWhatCommitted(steps: seq<Step>)
    requires IsRun(EMPTY, steps)
    ensures var rows := After(EMPTY, steps).committed.rows;
            && (forall id, at :: SentIn(steps, id, at) <==> id in rows && rows[id].createdAt == at)
            && (forall id :: DeletedIn(steps, id) <==> id in rows && rows[id].deleted)
  {
    RunIsTraced(steps);
  }

  /**
   * In any run a commit either adds the one message its transaction inserted, undeleted, under the next
   * number, or marks the one message its transaction deletes; every other row stays as it is.
   */
  lemma CommitWrites(steps: seq<Step>, t: TxId)
    requires IsRun(EMPTY, steps) && Enabled(After(EMPTY, steps), Commit(t))
    ensures var s := After(EMPTY, steps); Wrote(steps, t, s.committed.rows, Do(s, Commit(t)).committed.rows)
  {
    RunIsTraced(steps);
    var s := After(EMPTY, steps);
    assert TxOk(s.committed, s.txs[t]);
    hide Wrote;
    CommitPublishes(steps, s, t);
  }

  // ----- sends and deletes can complete

  /** Some run leads from the one state to the other. */
  ghost predicate Leads(s: State, end: State) {
    exists steps :: IsRun(s, steps) && After(s, steps) == end
  }

  lemma LeadsToItself(s: State)
    ensures Leads(s, s)
  {
    assert IsRun(s, []) && After(s, []) == s;
  }

  lemma LeadsOn(s: State, step: Step, end: State)
    requires Enabled(s, step) && Leads(Do(s, step), end)
    ensures Leads(s, end)
  {
    var steps :| IsRun(Do(s, step), steps) && After(Do(s, step), steps) == end;
    assert ([step] + steps)[1..] == steps;
    assert IsRun(s, [step] + steps) && After(s, [step] + steps) == end;
  }

  /** The state with one more open transaction. */
  function With(s: State, t: TxId, tx: Tx): State {
    s.(txs := s.txs[t := tx])
  }

  /** A statement of that transaction. */
  lemma StatementLeads(s: State, t: TxId, tx: Tx, step: Step, end: State)
    requires step.t == t && !step.BeginSend? && !step.BeginDelete? && !step.Commit? && !step.Abort?
    requires EnabledIn(With(s, t, tx), step, tx) && Leads(With(s, t, Advance(With(s, t, tx), step, tx)), end)
    ensures Leads(With(s, t, tx), end)
  {
    var tx' := Advance(With(s, t, tx), step, tx);
    assert s.txs[t := tx][t := tx'] == s.txs[t := tx'];
    hide Leads, EnabledIn, Advance;
    assert Do(With(s, t, tx), step) == With(s, t, tx');
    LeadsOn(With(s, t, tx), step, end);
  }

  lemma CommitLeads(s: State, t: TxId, tx: Tx)
    requires t !in s.txs && CanCommit(tx) && (tx.SendPointed? || tx.id in s.committed.rows)
    ensures Leads(With(s, t, tx), State(Publish(s.committed, tx), s.txs))
  {
    var end := State(Publish(s.committed, tx), s.txs);
    assert s.txs[t := tx] - {t} == s.txs;
    hide Leads, Publish;
    assert Do(With(s, t, tx), Commit(t)) == end;
    LeadsToItself(end);
    LeadsOn(With(s, t, tx), Commit(t), end);
  }

  lemma NumberedLeads(s: State, t: TxId, n: nat, id: MsgId, at: int)
    requires t !in s.txs && id !in s.committed.rows && !HasSeq(s.committed.rows, n)
    ensures Leads(With(s, t, SendNumbered(n)),
                  State(Tables(s.committed.rows[id := Row(n, false, at)], Some(Preview(id, at))), s.txs))
  {
    hide Leads, HasSeq;
    var row := Row(n, false, at);
    var end := State(Tables(s.committed.rows[id := row], Some(Preview(id, at))), s.txs);
    CommitLeads(s, t, SendPointed(id, row));
    StatementLeads(s, t, SendInserted(id, row), PointAtNew(t), end);
    StatementLeads(s, t, SendNumbered(n), Insert(t, id, at), end);
  }

  lemma MaxExists(rows: map<MsgId, Row>)
    requires Numbered(rows)
    ensures IsMaxSeq(rows, |rows|) && !HasSeq(rows, |rows| + 1)
  {
  }

  /** The channel row is as free for the new transaction as it was before it began. */
  lemma StillFree(s: State, t: TxId, tx: Tx)
    requires ChannelFree(s) && !HoldsChannel(tx)
    ensures ChannelFree(With(s, t, tx))
  {
  }

  /**
   * Whenever the channel row is free, a send of a new message can run to its commit, which adds exactly that
   * message under the next number and makes it the preview.
   */
  lemma SendCompletes(s: State, t: TxId, id: MsgId, at: int)
    requires Inv(s) && ChannelFree(s) && t !in s.txs && id !in s.committed.rows
    ensures var rows := s.committed.rows;
            Leads(s, State(Tables(rows[id := Row(|rows| + 1, false, at)], Some(Preview(id, at))), s.txs))
  {
    MaxExists(s.committed.rows);
    StillFree(s, t, SendOpen);
    FreeSendLeads(s, t, |s.committed.rows|, id, at);
  }

  lemma FreeSendLeads(s: State, t: TxId, n: nat, id: MsgId, at: int)
    requires t !in s.txs && id !in s.committed.rows && ChannelFree(With(s, t, SendOpen))
    requires IsMaxSeq(s.committed.rows, n) && !HasSeq(s.committed.rows, n + 1)
    ensures Leads(s, State(Tables(s.committed.rows[id := Row(n + 1, false, at)], Some(Preview(id, at))), s.txs))
  {
    hide Leads, IsMaxSeq, HasSeq, ChannelFree;
    var end := State(Tables(s.committed.rows[id := Row(n + 1, false, at)], Some(Preview(id, at))), s.txs);
    NumberedLeads(s, t, n + 1, id, at);
    StatementLeads(s, t, SendLocked, ReadMax(t, n), end);
    StatementLeads(s, t, SendOpen, LockChannel(t), end);
    assert Do(s, BeginSend(t)) == With(s, t, SendOpen);
    LeadsOn(s, BeginSend(t), end);
  }

  lemma LockedDeleteLeads(s: State, t: TxId, id: MsgId) returns (last: Option<Preview>)
    requires t !in s.txs && id in s.committed.rows
    ensures Leads(With(s, t, DeleteLocked(id, LastId(s.committed))),
                  State(Tables(MarkDeleted(s.committed.rows, id), last), s.txs))
  {
    var rows, seen := s.committed.rows, LastId(s.committed);
    var prev := NewestExists(MarkDeleted(rows, id) - {id});
    hide Leads, IsNewest;
    if seen == Some(id) {
      last := prev;
      var end := State(Tables(MarkDeleted(rows, id), last), s.txs);
      CommitLeads(s, t, DeletePointed(id, prev));
      StatementLeads(s, t, DeleteChosen(id, prev), Repoint(t), end);
      StatementLeads(s, t, DeleteLocked(id, seen), ChoosePrevious(t, prev), end);
    } else {
      last := s.committed.last;
      CommitLeads(s, t, DeleteLocked(id, seen));
    }
  }

  /**
   * Whenever the channel row and the message are free, a delete of the message can run to its commit, which
   * marks exactly that message.
   */
  lemma DeleteCompletes(s: State, t: TxId, id: MsgId) returns (last: Option<Preview>)
    requires ChannelFree(s) && t !in s.txs && id in s.committed.rows && !s.committed.rows[id].deleted
    requires forall u :: u in s.txs ==> !HoldsMessage(s.txs[u], id)
    ensures Leads(s, State(Tables(MarkDeleted(s.committed.rows, id), last), s.txs))
  {
    StillFree(s, t, DeleteMarked(id));
    hide Leads, ChannelFree;
    last := LockedDeleteLeads(s, t, id);
    var end := State(Tables(MarkDeleted(s.committed.rows, id), last), s.txs);
    StatementLeads(s, t, DeleteMarked(id), LockChannel(t), end);
    StatementLeads(s, t, DeleteOpen(id), Mark(t), end);
    assert Do(s, BeginDelete(t, id)) == With(s, t, DeleteOpen(id));
    LeadsOn(s, BeginDelete(t, id), end);
  }
}

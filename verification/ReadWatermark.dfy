/**
 * Read watermarks of one channel: markRead (src/modules/channels/channels.service.ts) split into
 * its read and its conditional UPDATE, interleaved with sends, joins and leaves.
 */
module ReadWatermark {
  import opened Options

  type MsgId = nat
  type MembershipId = nat
  type CallId = nat

  datatype Call =
    | Pending(m: MembershipId, target: MsgId, targetSeq: nat, currentSeq: Option<nat>)
    | Finished(m: MembershipId, target: MsgId, targetSeq: nat, advanced: bool)

  /** `issued` are the membership ids ever given out; `members` maps a live one to its lastReadMessageId. */
  datatype State = State(
    messages: map<MsgId, nat>, members: map<MembershipId, Option<MsgId>>, issued: set<MembershipId>,
    calls: map<CallId, Call>)

  datatype Step =
    | Join(m: MembershipId)
    | Leave(m: MembershipId)
    | Send(m: MembershipId, id: MsgId)
    | StartMarkRead(c: CallId, m: MembershipId, target: MsgId)
    | FinishMarkRead(c: CallId)

  /** Sequence number of a membership's last read message, null if none. */
  function SeqOf(messages: map<MsgId, nat>, last: Option<MsgId>): Option<nat> {
    if last.Some? && last.value in messages then Some(messages[last.value]) else None
  }

  function Watermark(s: State, m: MembershipId): nat
    requires m in s.members
  {
    var q := SeqOf(s.messages, s.members[m]);
    if q.None? then 0 else q.value
  }

  /** The requests markRead refuses (not a member, no such message) never start. */
  predicate Enabled(s: State, step: Step) {
    match step
    case Join(m) => m !in s.issued
    case Leave(m) => m in s.members
    case Send(m, id) => m in s.members && id !in s.messages
    case StartMarkRead(c, m, target) => c !in s.calls && m in s.members && target in s.messages
    case FinishMarkRead(c) => c in s.calls && s.calls[c].Pending?
  }

  /** The guard of the UPDATE, on the row as it is now. */
  predicate UpdateMatches(s: State, call: Call)
    requires call.Pending?
  {
    call.m in s.members && (s.members[call.m].None? || Watermark(s, call.m) < call.targetSeq)
  }

  /** Whether the UPDATE is sent at all: decided on what the read saw. */
  predicate UpdateSent(call: Call)
    requires call.Pending?
  {
    call.currentSeq.None? || call.currentSeq.value < call.targetSeq
  }

  function Do(s: State, step: Step): State
    requires Enabled(s, step)
  {
    match step
    case Join(m) => s.(members := s.members[m := None], issued := s.issued + {m})
    case Leave(m) => s.(members := s.members - {m})
    case Send(m, id) => s.(messages := s.messages[id := |s.messages| + 1], members := s.members[m := Some(id)])
    case StartMarkRead(c, m, target) =>
      s.(calls := s.calls[c := Pending(m, target, s.messages[target], SeqOf(s.messages, s.members[m]))])
    case FinishMarkRead(c) =>
      var call := s.calls[c];
      var advanced := UpdateSent(call) && UpdateMatches(s, call);
      s.(members := if advanced then s.members[call.m := Some(call.target)] else s.members,
         calls := s.calls[c := Finished(call.m, call.target, call.targetSeq, advanced)])
  }

  const EMPTY := State(map[], map[], {}, map[])

  ghost predicate IsRun(s: State, steps: seq<Step>)
    decreases |steps|
  {
    steps == [] || (Enabled(s, steps[0]) && IsRun(Do(s, steps[0]), steps[1..]))
  }

  ghost function After(s: State, steps: seq<Step>): State
    requires IsRun(s, steps)
    decreases |steps|
  {
    if steps == [] then s else After(Do(s, steps[0]), steps[1..])
  }

  ghost predicate CallOk(s: State, call: Call) {
    && call.m in s.issued
    && match call
       case Pending(m, target, targetSeq, currentSeq) =>
         && target in s.messages && s.messages[target] == targetSeq
         && (currentSeq.Some? && m in s.members ==> Watermark(s, m) >= currentSeq.value)
       case Finished(m, _, targetSeq, _) =>
         m in s.members ==> Watermark(s, m) >= targetSeq
  }

  ghost predicate TablesOk(s: State) {
    && s.members.Keys <= s.issued
    && (forall i :: i in s.messages ==> 1 <= s.messages[i] <= |s.messages|)
    && (forall m :: m in s.members && s.members[m].Some? ==> s.members[m].value in s.messages)
  }

  ghost predicate Inv(s: State) {
    TablesOk(s) && forall c :: c in s.calls ==> CallOk(s, s.calls[c])
  }

  /** No step moves the watermark of a membership that survives it backwards. */
  lemma StepNeverLowers(s: State, step: Step, m: MembershipId)
    requires Inv(s) && Enabled(s, step) && m in s.members && m in Do(s, step).members
    ensures Watermark(Do(s, step), m) >= Watermark(s, m)
  {
    if step.FinishMarkRead? {
      assert CallOk(s, s.calls[step.c]);
    }
    hide CallOk;
  }

  lemma CallStaysOk(s: State, step: Step, c: CallId)
    requires Inv(s) && Enabled(s, step) && c in Do(s, step).calls
    ensures CallOk(Do(s, step), Do(s, step).calls[c])
  {
    var s' := Do(s, step);
    var m := s'.calls[c].m;
    if c in s.calls {
      assert CallOk(s, s.calls[c]);
      if m in s.members && m in s'.members {
        StepNeverLowers(s, step, m);
      }
    }
  }

  lemma NumbersStayBounded(messages: map<MsgId, nat>, id: MsgId)
    requires id !in messages && forall i :: i in messages ==> 1 <= messages[i] <= |messages|
    ensures var messages' := messages[id := |messages| + 1];
            forall i :: i in messages' ==> 1 <= messages'[i] <= |messages'|
  {
    assert messages[id := |messages| + 1].Keys == messages.Keys + {id};
  }

  lemma TablesStayOk(s: State, step: Step)
    requires TablesOk(s) && Enabled(s, step)
    requires step.FinishMarkRead? ==> s.calls[step.c].target in s.messages
    ensures TablesOk(Do(s, step))
  {
    if step.Send? {
      NumbersStayBounded(s.messages, step.id);
    }
  }

  lemma StepKeepsInv(s: State, step: Step)
    requires Inv(s) && Enabled(s, step)
    ensures Inv(Do(s, step))
  {
    var s' := Do(s, step);
    assert step.FinishMarkRead? ==> CallOk(s, s.calls[step.c]);
    hide CallOk, TablesOk;
    TablesStayOk(s, step);
    forall c | c in s'.calls
      ensures CallOk(s', s'.calls[c])
    {
      CallStaysOk(s, step, c);
    }
  }

  lemma {:induction false} RunKeepsInv(s: State, steps: seq<Step>)
    requires Inv(s) && IsRun(s, steps)
    ensures Inv(After(s, steps))
    decreases |steps|
  {
    if steps == [] {
    } else {
      StepKeepsInv(s, steps[0]);
      RunKeepsInv(Do(s, steps[0]), steps[1..]);
    }
  }

  lemma {:induction false} GoneStaysGone(s: State, steps: seq<Step>, m: MembershipId)
    requires IsRun(s, steps) && m in s.issued && m !in s.members && s.members.Keys <= s.issued
    ensures m !in After(s, steps).members
    decreases |steps|
  {
    if steps == [] {
    } else {
      GoneStaysGone(Do(s, steps[0]), steps[1..], m);
    }
  }

  /** Over any stretch of any run, a membership's watermark never moves backwards. */
  lemma {:induction false} WatermarkNeverFalls(s: State, steps: seq<Step>, m: MembershipId)
    requires Inv(s) && IsRun(s, steps) && m in s.members && m in After(s, steps).members
    ensures Watermark(After(s, steps), m) >= Watermark(s, m)
    decreases |steps|
  {
    if steps == [] {
    } else {
      var s1 := Do(s, steps[0]);
      StepKeepsInv(s, steps[0]);
      if m !in s1.members {
        GoneStaysGone(s1, steps[1..], m);
      }
      StepNeverLowers(s, steps[0], m);
      WatermarkNeverFalls(s1, steps[1..], m);
    }
  }

  /** In every run, a finished markRead leaves the watermark at or past its target, skipped or not. */
  lemma FinishedReadReachedTarget(steps: seq<Step>, c: CallId)
    requires IsRun(EMPTY, steps)
    ensures var s := After(EMPTY, steps);
            c in s.calls && s.calls[c].Finished? && s.calls[c].m in s.members ==>
              Watermark(s, s.calls[c].m) >= s.calls[c].targetSeq
  {
    RunKeepsInv(EMPTY, steps);
    var s := After(EMPTY, steps);
    if c in s.calls && s.calls[c].Finished? {
      assert CallOk(s, s.calls[c]);
    }
  }

  /** In every run, 'advanced' says exactly whether this markRead's own UPDATE raised the watermark. */
  lemma AdvancedIffRaised(steps: seq<Step>, c: CallId)
    requires IsRun(EMPTY, steps) && Enabled(After(EMPTY, steps), FinishMarkRead(c))
    ensures var s := After(EMPTY, steps);
            var s' := Do(s, FinishMarkRead(c));
            var m := s.calls[c].m;
            && s'.calls[c].Finished?
            && (s'.calls[c].advanced <==> m in s.members && Watermark(s', m) > Watermark(s, m))
            && (s'.calls[c].advanced ==> s'.members == s.members[m := Some(s.calls[c].target)])
            && (!s'.calls[c].advanced ==> s'.members == s.members)
  {
    RunKeepsInv(EMPTY, steps);
    var s := After(EMPTY, steps);
    assert CallOk(s, s.calls[c]);
  }

  // ----- the watermark, read off the run

  function SendCount(past: seq<Step>): nat {
    if past == [] then 0 else SendCount(past[..|past| - 1]) + if past[|past| - 1].Send? then 1 else 0
  }

  /** Messages are numbered in the order of their sends. */
  function NumberOf(past: seq<Step>, id: MsgId): nat {
    if past == [] then 0
    else
      var last := past[|past| - 1];
      if last.Send? && last.id == id then SendCount(past) else NumberOf(past[..|past| - 1], id)
  }

  predicate IsMember(past: seq<Step>, m: MembershipId) {
    past != [] &&
    var last := past[|past| - 1];
    last == Join(m) || (last != Leave(m) && IsMember(past[..|past| - 1], m))
  }

  /** The membership and the message markRead call c is about. */
  function Asked(past: seq<Step>, c: CallId): Option<(MembershipId, MsgId)> {
    if past == [] then None
    else
      var last := past[|past| - 1];
      if last.StartMarkRead? && last.c == c then Some((last.m, last.target)) else Asked(past[..|past| - 1], c)
  }

  function Max(a: nat, b: nat): nat {
    if a < b then b else a
  }

  /** The highest number the member has sent, or has finished marking as read; 0 if there is none. */
  function HighestRead(past: seq<Step>, m: MembershipId): nat {
    if past == [] then 0
    else
      var front, last := past[..|past| - 1], past[|past| - 1];
      match last
      case Send(n, id) => if n == m then Max(HighestRead(front, m), NumberOf(past, id)) else HighestRead(front, m)
      case FinishMarkRead(c) =>
        if Asked(front, c).Some? && Asked(front, c).value.0 == m
        then Max(HighestRead(front, m), NumberOf(front, Asked(front, c).value.1)) else HighestRead(front, m)
      case Join(n) => if n == m then 0 else HighestRead(front, m)
      case _ => HighestRead(front, m)
  }

  ghost predicate CallsTraced(past: seq<Step>, s: State) {
    forall c :: Asked(past, c) == if c in s.calls then Some((s.calls[c].m, s.calls[c].target)) else None
  }

  ghost predicate MessagesTraced(past: seq<Step>, s: State) {
    && |s.messages| == SendCount(past)
    && forall id :: id in s.messages ==> s.messages[id] == NumberOf(past, id)
  }

  ghost predicate MembersTraced(past: seq<Step>, s: State) {
    && (forall m :: m in s.members <==> IsMember(past, m))
    && forall m :: m in s.members ==> Watermark(s, m) == HighestRead(past, m)
  }

  ghost predicate Traced(past: seq<Step>, s: State) {
    CallsTraced(past, s) && MessagesTraced(past, s) && MembersTraced(past, s)
  }

  lemma StepTracesCalls(past: seq<Step>, s: State, step: Step)
    requires CallsTraced(past, s) && Enabled(s, step)
    ensures CallsTraced(past + [step], Do(s, step))
  {
    var now, s' := past + [step], Do(s, step);
    assert now[..|past|] == past && now[|past|] == step;
    forall c
      ensures Asked(now, c) == if c in s'.calls then Some((s'.calls[c].m, s'.calls[c].target)) else None
    {
      assert Asked(past, c) == if c in s.calls then Some((s.calls[c].m, s.calls[c].target)) else None;
    }
  }

  lemma OneMore(messages: map<MsgId, nat>, id: MsgId, n: nat)
    requires id !in messages
    ensures |messages[id := n]| == |messages| + 1
  {
    assert messages[id := n].Keys == messages.Keys + {id};
  }

  lemma StepTracesCount(past: seq<Step>, s: State, step: Step)
    requires |s.messages| == SendCount(past) && Enabled(s, step)
    ensures |Do(s, step).messages| == SendCount(past + [step])
  {
    assert (past + [step])[..|past|] == past && (past + [step])[|past|] == step;
    if step.Send? {
      OneMore(s.messages, step.id, |s.messages| + 1);
    }
  }

  lemma StepTracesNumber(past: seq<Step>, s: State, step: Step, id: MsgId)
    requires MessagesTraced(past, s) && Enabled(s, step) && id in Do(s, step).messages
    ensures Do(s, step).messages[id] == NumberOf(past + [step], id)
  {
    assert (past + [step])[..|past|] == past && (past + [step])[|past|] == step;
    assert step.Send? ==> SendCount(past + [step]) == |s.messages| + 1;
    hide SendCount;
  }

  lemma StepTracesMessages(past: seq<Step>, s: State, step: Step)
    requires MessagesTraced(past, s) && Enabled(s, step)
    ensures MessagesTraced(past + [step], Do(s, step))
  {
    hide SendCount, NumberOf;
    StepTracesCount(past, s, step);
    forall id | id in Do(s, step).messages
      ensures Do(s, step).messages[id] == NumberOf(past + [step], id)
    {
      StepTracesNumber(past, s, step, id);
    }
  }

  lemma FinishTracesMember(past: seq<Step>, s: State, c: CallId, m: MembershipId)
    requires Inv(s) && Traced(past, s) && Enabled(s, FinishMarkRead(c)) && m in s.members
    ensures Watermark(Do(s, FinishMarkRead(c)), m) == HighestRead(past + [FinishMarkRead(c)], m)
  {
    hide IsMember, SendCount;
    assert (past + [FinishMarkRead(c)])[..|past|] == past && (past + [FinishMarkRead(c)])[|past|] == FinishMarkRead(c);
    assert Watermark(s, m) == HighestRead(past, m);
    assert CallOk(s, s.calls[c]);
    assert Asked(past, c) == Some((s.calls[c].m, s.calls[c].target));
  }

  /** One step moves a member's watermark as it moves the highest number read. */
  lemma StepTracesMember(past: seq<Step>, s: State, step: Step, m: MembershipId)
    requires Inv(s) && Traced(past, s) && Enabled(s, step) && m in Do(s, step).members
    ensures Watermark(Do(s, step), m) == HighestRead(past + [step], m)
  {
    if step.FinishMarkRead? {
      FinishTracesMember(past, s, step.c, m);
    } else {
      OtherTracesMember(past, s, step, m);
    }
  }

  lemma SendTracesMember(past: seq<Step>, s: State, n: MembershipId, id: MsgId, m: MembershipId)
    requires TablesOk(s) && Traced(past, s) && Enabled(s, Send(n, id)) && m in s.members
    ensures Watermark(Do(s, Send(n, id)), m) == HighestRead(past + [Send(n, id)], m)
  {
    hide IsMember, CallsTraced, Asked;
    var now := past + [Send(n, id)];
    assert now[..|past|] == past && now[|past|] == Send(n, id);
    assert NumberOf(now, id) == |s.messages| + 1;
    assert Watermark(s, m) == HighestRead(past, m);
    hide SendCount, NumberOf;
  }

  lemma OtherTracesMember(past: seq<Step>, s: State, step: Step, m: MembershipId)
    requires TablesOk(s) && Traced(past, s) && Enabled(s, step) && m in Do(s, step).members && !step.FinishMarkRead?
    ensures Watermark(Do(s, step), m) == HighestRead(past + [step], m)
  {
    if step.Send? {
      SendTracesMember(past, s, step.m, step.id, m);
    } else {
      QuietTracesMember(past, s, step, m);
    }
  }

  lemma QuietTracesMember(past: seq<Step>, s: State, step: Step, m: MembershipId)
    requires Traced(past, s) && Enabled(s, step) && m in Do(s, step).members && !step.FinishMarkRead? && !step.Send?
    ensures Watermark(Do(s, step), m) == HighestRead(past + [step], m)
  {
    hide IsMember, CallsTraced, MessagesTraced, Asked, SendCount, NumberOf;
    assert (past + [step])[..|past|] == past && (past + [step])[|past|] == step;
    assert m in s.members ==> Watermark(s, m) == HighestRead(past, m);
  }

  lemma StepTraces(past: seq<Step>, s: State, step: Step)
    requires Inv(s) && Traced(past, s) && Enabled(s, step)
    ensures Traced(past + [step], Do(s, step))
  {
    var now, s' := past + [step], Do(s, step);
    assert now[..|past|] == past && now[|past|] == step;
    StepTracesCalls(past, s, step);
    StepTracesMessages(past, s, step);
    forall m
      ensures m in s'.members <==> IsMember(now, m)
      ensures m in s'.members ==> Watermark(s', m) == HighestRead(now, m)
    {
      assert m in s.members <==> IsMember(past, m);
      if m in s'.members {
        StepTracesMember(past, s, step, m);
      }
    }
  }

  lemma {:induction false} RunTraces(past: seq<Step>, s: State, steps: seq<Step>)
    requires Inv(s) && Traced(past, s) && IsRun(s, steps)
    ensures Traced(past + steps, After(s, steps))
    decreases |steps|
  {
    hide Traced, Inv;
    if steps == [] {
      assert past + steps == past;
    } else {
      StepKeepsInv(s, steps[0]);
      StepTraces(past, s, steps[0]);
      RunTraces(past + [steps[0]], Do(s, steps[0]), steps[1..]);
      assert past + [steps[0]] + steps[1..] == past + steps;
    }
  }

  /**
   * In every interleaving a member's watermark is exactly the highest number they have sent or finished
   * marking as read.
   */
  lemma WatermarkIsHighestRead(steps: seq<Step>, m: MembershipId)
    requires IsRun(EMPTY, steps)
    ensures var s := After(EMPTY, steps);
            && (m in s.members <==> IsMember(steps, m))
            && (m in s.members ==> Watermark(s, m) == HighestRead(steps, m))
  {
    RunTraces([], EMPTY, steps);
    assert [] + steps == steps;
  }
}

/**
 * 1:1 calls: the room hash and the two user pointers in Redis (src/modules/calls/calls.service.ts) and
 * the gateway handlers over them (src/modules/calls/calls.gateway.ts), each handler one step.
 * A key is gone at or after its deadline.
 */
module Calls {
  import opened Options

  const RINGING_TTL_MS: int := 120 * 1000
  const CONNECTED_TTL_MS: int := 4 * 60 * 60 * 1000

  type UserId = string
  type CallId = string

  datatype Status = Ringing | Connected
  datatype Room = Room(initiatorId: UserId, targetId: UserId, status: Status, startedAt: int,
                       callLogId: Option<string>, deadline: int)
  datatype Pointer = Pointer(callId: CallId, deadline: int)
  datatype Store = Store(rooms: map<CallId, Room>, pointers: map<UserId, Pointer>)

  datatype ActiveCall = ActiveCall(callId: CallId, initiatorId: UserId, targetId: UserId, status: Status,
                                   startedAt: int, callLogId: Option<string>)

  predicate RoomLive(s: Store, now: int, c: CallId) {
    c in s.rooms && now < s.rooms[c].deadline
  }

  predicate PointerLive(s: Store, now: int, u: UserId) {
    u in s.pointers && now < s.pointers[u].deadline
  }

  function ToActiveCall(c: CallId, r: Room): Option<ActiveCall> {
    if r.initiatorId == "" then None
    else Some(ActiveCall(c, r.initiatorId, r.targetId, r.status, r.startedAt, r.callLogId))
  }

  function Active(s: Store, now: int, u: UserId): Option<ActiveCall> {
    if !PointerLive(s, now, u) then None
    else
      var c := s.pointers[u].callId;
      if RoomLive(s, now, c) then ToActiveCall(c, s.rooms[c]) else None
  }

  function GetOtherUserId(call: ActiveCall, u: UserId): UserId {
    if call.initiatorId == u then call.targetId else call.initiatorId
  }

  function Created(s: Store, now: int, c: CallId, initiator: UserId, target: UserId, log: Option<string>): Store {
    var d := now + RINGING_TTL_MS;
    Store(s.rooms[c := Room(initiator, target, Ringing, now, log, d)],
          s.pointers[initiator := Pointer(c, d)][target := Pointer(c, d)])
  }

  /** EXPIRE: does nothing to a key that is gone. */
  function Extended(ps: map<UserId, Pointer>, now: int, u: UserId, deadline: int): map<UserId, Pointer> {
    if u in ps && now < ps[u].deadline then ps[u := ps[u].(deadline := deadline)] else ps
  }

  /** HSET on a missing hash makes one without parties, which ToActiveCall ignores. */
  function Accepted(s: Store, now: int, call: ActiveCall): Store {
    var d := now + CONNECTED_TTL_MS;
    var room := if RoomLive(s, now, call.callId)
                then s.rooms[call.callId].(status := Connected, startedAt := now, deadline := d)
                else Room("", "", Connected, now, None, d);
    Store(s.rooms[call.callId := room],
          Extended(Extended(s.pointers, now, call.initiatorId, d), now, call.targetId, d))
  }

  /** DEL of a party's pointer, if the hash named that party. */
  function Unpointed(ps: map<UserId, Pointer>, u: UserId): map<UserId, Pointer> {
    if u == "" then ps else ps - {u}
  }

  function Cleaned(s: Store, now: int, c: CallId): (Store, Option<ActiveCall>) {
    if !RoomLive(s, now, c) then (s.(rooms := s.rooms - {c}), None)
    else
      var r := s.rooms[c];
      (Store(s.rooms - {c}, Unpointed(Unpointed(s.pointers, r.initiatorId), r.targetId)), ToActiveCall(c, r))
  }

  // ----- the service

  class CallsService {
    var rooms: map<CallId, Room>
    var pointers: map<UserId, Pointer>

    constructor ()
      ensures State() == Store(map[], map[])
    {
      rooms, pointers := map[], map[];
    }

    function State(): Store
      reads this
    {
      Store(rooms, pointers)
    }

    method GetActiveCall(now: int, u: UserId) returns (call: Option<ActiveCall>)
      ensures call == Active(State(), now, u)
    {
      if u !in pointers || now >= pointers[u].deadline {
        return None;
      }
      var c := pointers[u].callId;
      if c !in rooms || now >= rooms[c].deadline {
        return None;
      }
      call := ToActiveCall(c, rooms[c]);
    }

    method CreateCall(now: int, c: CallId, initiator: UserId, target: UserId, log: Option<string>)
      modifies this
      ensures State() == Created(old(State()), now, c, initiator, target, log)
    {
      rooms := rooms[c := Room(initiator, target, Ringing, now, log, now + RINGING_TTL_MS)];
      pointers := pointers[initiator := Pointer(c, now + RINGING_TTL_MS)];
      pointers := pointers[target := Pointer(c, now + RINGING_TTL_MS)];
    }

    method AcceptCall(now: int, call: ActiveCall)
      modifies this
      ensures State() == Accepted(old(State()), now, call)
    {
      var d := now + CONNECTED_TTL_MS;
      var live := call.callId in rooms && now < rooms[call.callId].deadline;
      var room := if live then rooms[call.callId] else Room("", "", Connected, now, None, d);
      rooms := rooms[call.callId := room.(status := Connected, startedAt := now, deadline := d)];
      pointers := Extended(pointers, now, call.initiatorId, d);
      pointers := Extended(pointers, now, call.targetId, d);
    }

    method CleanupCall(now: int, c: CallId) returns (call: Option<ActiveCall>)
      modifies this
      ensures (State(), call) == Cleaned(old(State()), now, c)
    {
      call := None;
      if c in rooms && now < rooms[c].deadline {
        var r := rooms[c];
        if r.initiatorId != "" { pointers := pointers - {r.initiatorId}; }
        if r.targetId != "" { pointers := pointers - {r.targetId}; }
        call := ToActiveCall(c, r);
      }
      rooms := rooms - {c};
    }

    method CleanupUserCall(now: int, u: UserId) returns (call: Option<ActiveCall>)
      modifies this
      ensures (State(), call) == (if PointerLive(old(State()), now, u)
                                  then Cleaned(old(State()), now, old(pointers)[u].callId)
                                  else (old(State()), None))
    {
      if u !in pointers || now >= pointers[u].deadline {
        return None;
      }
      call := CleanupCall(now, pointers[u].callId);
    }

    // ----- the gateway handlers

    method HandleInvite(now: int, user: UserId, target: UserId, withinRate: bool, targetOnline: bool,
                        newId: CallId, log: string) returns (r: Reply)
      modifies this
      ensures (State(), r) == Handle(old(State()), now, Invite(user, target, withinRate, targetOnline, newId, log))
    {
      if target == "" || target == user { return Invalid; }
      if !withinRate { return RateLimited; }
      var mine := GetActiveCall(now, user);
      if mine.Some? { return AlreadyInCall; }
      var theirs := GetActiveCall(now, target);
      if theirs.Some? { return TargetBusy; }
      if !targetOnline { return TargetOffline; }
      CreateCall(now, newId, user, target, Some(log));
      return Ok;
    }

    /** call:initiate of type DM: the first listed user is called. */
    method HandleInitiate(now: int, user: UserId, targets: seq<UserId>, withinRate: bool, targetOnline: bool,
                          newId: CallId, log: string) returns (r: Reply)
      modifies this
      ensures (State(), r) == Handle(old(State()), now, Initiate(user, targets, withinRate, targetOnline, newId, log))
    {
      if !withinRate { return RateLimited; }
      var mine := GetActiveCall(now, user);
      if mine.Some? { return AlreadyInCall; }
      if targets == [] || targets[0] == "" || targets[0] == user { return NoTarget; }
      var theirs := GetActiveCall(now, targets[0]);
      if theirs.Some? { return TargetBusy; }
      if !targetOnline { return TargetOffline; }
      CreateCall(now, newId, user, targets[0], Some(log));
      return Ok;
    }

    method HandleAccept(now: int, user: UserId, c: CallId) returns (r: Reply)
      modifies this
      ensures (State(), r) == Handle(old(State()), now, Accept(user, c))
    {
      var call := GetActiveCall(now, user);
      if call.None? || call.value.callId != c || call.value.targetId != user { return InvalidCall; }
      AcceptCall(now, call.value);
      return Ok;
    }

    /** call:reject and call:hangup have the same effect on the call state. */
    method HandleEnd(now: int, user: UserId, c: CallId) returns (r: Reply)
      modifies this
      ensures (State(), r) == Handle(old(State()), now, End(user, c))
    {
      var call := GetActiveCall(now, user);
      if call.None? || call.value.callId != c { return InvalidCall; }
      var _ := CleanupCall(now, call.value.callId);
      return Ok;
    }

    method HandleDisconnect(now: int, user: UserId, otherSockets: bool) returns (r: Reply)
      modifies this
      ensures (State(), r) == Handle(old(State()), now, Disconnect(user, otherSockets))
    {
      if otherSockets { return Ok; }
      var _ := CleanupUserCall(now, user);
      return Ok;
    }
  }

  // ----- handlers as steps

  datatype Request =
    | Invite(user: UserId, target: UserId, withinRate: bool, targetOnline: bool, newId: CallId, log: string)
    | Initiate(user: UserId, targets: seq<UserId>, withinRate: bool, targetOnline: bool, newId: CallId, log: string)
    | Accept(user: UserId, callId: CallId)
    | End(user: UserId, callId: CallId)
    | Disconnect(user: UserId, otherSockets: bool)

  datatype Reply = Ok | Invalid | NoTarget | RateLimited | AlreadyInCall | TargetBusy | TargetOffline | InvalidCall

  function Handle(s: Store, now: int, q: Request): (Store, Reply) {
    match q
    case Invite(u, t, withinRate, online, newId, log) =>
      if t == "" || t == u then (s, Invalid)
      else if !withinRate then (s, RateLimited)
      else if Active(s, now, u).Some? then (s, AlreadyInCall)
      else if Active(s, now, t).Some? then (s, TargetBusy)
      else if !online then (s, TargetOffline)
      else (Created(s, now, newId, u, t, Some(log)), Ok)
    case Initiate(u, targets, withinRate, online, newId, log) =>
      if !withinRate then (s, RateLimited)
      else if Active(s, now, u).Some? then (s, AlreadyInCall)
      else if targets == [] || targets[0] == "" || targets[0] == u then (s, NoTarget)
      else if Active(s, now, targets[0]).Some? then (s, TargetBusy)
      else if !online then (s, TargetOffline)
      else (Created(s, now, newId, u, targets[0], Some(log)), Ok)
    case Accept(u, c) =>
      var call := Active(s, now, u);
      if call.None? || call.value.callId != c || call.value.targetId != u then (s, InvalidCall)
      else (Accepted(s, now, call.value), Ok)
    case End(u, c) =>
      var call := Active(s, now, u);
      if call.None? || call.value.callId != c then (s, InvalidCall) else (Cleaned(s, now, c).0, Ok)
    case Disconnect(u, otherSockets) =>
      if otherSockets || !PointerLive(s, now, u) then (s, Ok) else (Cleaned(s, now, s.pointers[u].callId).0, Ok)
  }

  datatype Timed = Timed(now: int, q: Request)

  /** Requests in time order, from real users, with call ids never used before. */
  ghost predicate IsRun(s: Store, from: int, qs: seq<Timed>)
    decreases |qs|
  {
    qs == [] ||
    (&& from <= qs[0].now && qs[0].q.user != ""
     && (qs[0].q.Invite? || qs[0].q.Initiate? ==> qs[0].q.newId !in s.rooms)
     && IsRun(Handle(s, qs[0].now, qs[0].q).0, qs[0].now, qs[1..]))
  }

  ghost function After(s: Store, qs: seq<Timed>): Store
    decreases |qs|
  {
    if qs == [] then s else After(Handle(s, qs[0].now, qs[0].q).0, qs[1..])
  }

  ghost function LastTime(from: int, qs: seq<Timed>): int {
    if qs == [] then from else qs[|qs| - 1].now
  }

  // ----- the invariant

  ghost predicate RoomOk(s: Store, c: CallId)
    requires c in s.rooms
  {
    var r := s.rooms[c];
    && r.initiatorId != r.targetId && r.initiatorId != "" && r.targetId != ""
    && r.initiatorId in s.pointers && s.pointers[r.initiatorId] == Pointer(c, r.deadline)
    && r.targetId in s.pointers && s.pointers[r.targetId] == Pointer(c, r.deadline)
  }

  ghost predicate PointerOk(s: Store, u: UserId)
    requires u in s.pointers
  {
    var p := s.pointers[u];
    && p.callId in s.rooms && s.rooms[p.callId].deadline == p.deadline
    && (u == s.rooms[p.callId].initiatorId || u == s.rooms[p.callId].targetId)
  }

  /** Every live room is named by both its parties, every live pointer names a live room of its user. */
  ghost predicate Consistent(s: Store, now: int) {
    && (forall c :: RoomLive(s, now, c) ==> RoomOk(s, c))
    && (forall u :: PointerLive(s, now, u) ==> PointerOk(s, u))
  }

  lemma TimeKeeps(s: Store, now: int, later: int)
    requires Consistent(s, now) && now <= later
    ensures Consistent(s, later)
  {
    forall c | RoomLive(s, later, c)
      ensures RoomOk(s, c)
    {
      assert RoomLive(s, now, c);
    }
    forall u | PointerLive(s, later, u)
      ensures PointerOk(s, u)
    {
      assert PointerLive(s, now, u);
    }
  }

  /** Having no active call means having no live pointer. */
  lemma FreeIffNoPointer(s: Store, now: int, u: UserId)
    requires Consistent(s, now)
    ensures Active(s, now, u).None? <==> !PointerLive(s, now, u)
  {
    if PointerLive(s, now, u) {
      assert PointerOk(s, u);
      assert RoomLive(s, now, s.pointers[u].callId);
      assert RoomOk(s, s.pointers[u].callId);
    }
  }

  lemma CreateKeeps(s: Store, now: int, c: CallId, a: UserId, b: UserId, log: Option<string>)
    requires Consistent(s, now) && c !in s.rooms && a != b && a != "" && b != ""
    requires !PointerLive(s, now, a) && !PointerLive(s, now, b)
    ensures Consistent(Created(s, now, c, a, b, log), now)
  {
    var s' := Created(s, now, c, a, b, log);
    forall d | RoomLive(s', now, d)
      ensures RoomOk(s', d)
    {
      if d != c {
        assert RoomLive(s, now, d) && RoomOk(s, d);
        var r := s.rooms[d];
        assert PointerLive(s, now, r.initiatorId) && PointerLive(s, now, r.targetId);
      }
    }
    forall u | PointerLive(s', now, u)
      ensures PointerOk(s', u)
    {
      if u != a && u != b {
        assert PointerLive(s, now, u) && PointerOk(s, u);
      }
    }
  }

  lemma AcceptKeeps(s: Store, now: int, u: UserId)
    requires Consistent(s, now) && Active(s, now, u).Some?
    ensures Consistent(Accepted(s, now, Active(s, now, u).value), now)
  {
    var call := Active(s, now, u).value;
    var s' := Accepted(s, now, call);
    var c := call.callId;
    assert RoomOk(s, c);
    forall d | RoomLive(s', now, d)
      ensures RoomOk(s', d)
    {
      if d != c {
        assert RoomLive(s, now, d) && RoomOk(s, d);
      }
    }
    forall w | PointerLive(s', now, w)
      ensures PointerOk(s', w)
    {
      assert PointerLive(s, now, w) && PointerOk(s, w);
    }
  }

  lemma CleanKeeps(s: Store, now: int, c: CallId)
    requires Consistent(s, now) && RoomLive(s, now, c)
    ensures Consistent(Cleaned(s, now, c).0, now)
  {
    var s' := Cleaned(s, now, c).0;
    var r := s.rooms[c];
    assert RoomOk(s, c);
    forall d | RoomLive(s', now, d)
      ensures RoomOk(s', d)
    {
      assert RoomLive(s, now, d) && RoomOk(s, d);
    }
    forall u | PointerLive(s', now, u)
      ensures PointerOk(s', u)
    {
      assert PointerLive(s, now, u) && PointerOk(s, u);
    }
  }

  lemma HandleKeeps(s: Store, now: int, q: Request)
    requires Consistent(s, now) && q.user != "" && (q.Invite? || q.Initiate? ==> q.newId !in s.rooms)
    ensures Consistent(Handle(s, now, q).0, now)
  {
    hide Consistent, Created, Accepted, Cleaned;
    FreeIffNoPointer(s, now, q.user);
    match q {
      case Invite(u, t, withinRate, online, newId, log) =>
        FreeIffNoPointer(s, now, t);
        if Handle(s, now, q).1.Ok? {
          CreateKeeps(s, now, newId, u, t, Some(log));
        }
      case Initiate(u, targets, withinRate, online, newId, log) =>
        if Handle(s, now, q).1.Ok? {
          FreeIffNoPointer(s, now, targets[0]);
          CreateKeeps(s, now, newId, u, targets[0], Some(log));
        }
      case Accept(u, c) =>
        if Handle(s, now, q).1.Ok? {
          AcceptKeeps(s, now, u);
        }
      case End(u, c) =>
        if Handle(s, now, q).1.Ok? {
          CleanKeeps(s, now, c);
        }
      case Disconnect(u, otherSockets) =>
        if PointerLive(s, now, u) {
          CleanKeeps(s, now, s.pointers[u].callId);
        }
    }
  }

  /** Over all runs of the handlers and at every moment after, rooms and pointers are consistent. */
  lemma {:induction false} CallsStayConsistent(s: Store, from: int, qs: seq<Timed>, later: int)
    requires Consistent(s, from) && IsRun(s, from, qs) && LastTime(from, qs) <= later
    ensures Consistent(After(s, qs), later)
    decreases |qs|
  {
    if qs == [] {
      TimeKeeps(s, from, later);
    } else {
      TimeKeeps(s, from, qs[0].now);
      HandleKeeps(s, qs[0].now, qs[0].q);
      CallsStayConsistent(Handle(s, qs[0].now, qs[0].q).0, qs[0].now, qs[1..], later);
    }
  }

  const EMPTY := Store(map[], map[])

  // ----- consequences, for every reachable state and time

  ghost predicate Reachable(s: Store, now: int) {
    exists qs, from :: IsRun(EMPTY, from, qs) && LastTime(from, qs) <= now && s == After(EMPTY, qs)
  }

  lemma ReachableConsistent(s: Store, now: int)
    requires Reachable(s, now)
    ensures Consistent(s, now)
  {
    var qs, from :| IsRun(EMPTY, from, qs) && LastTime(from, qs) <= now && s == After(EMPTY, qs);
    CallsStayConsistent(EMPTY, from, qs, now);
  }

  /** In every reachable state live rooms and live pointers describe each other. */
  lemma RoomsAndPointersAgree(s: Store, now: int)
    requires Reachable(s, now)
    ensures forall c :: c in s.rooms && now < s.rooms[c].deadline ==>
              var r := s.rooms[c];
              && r.initiatorId != r.targetId
              && r.initiatorId in s.pointers && s.pointers[r.initiatorId] == Pointer(c, r.deadline)
              && r.targetId in s.pointers && s.pointers[r.targetId] == Pointer(c, r.deadline)
    ensures forall u :: u in s.pointers && now < s.pointers[u].deadline ==>
              var p := s.pointers[u];
              && p.callId in s.rooms && s.rooms[p.callId].deadline == p.deadline
              && (u == s.rooms[p.callId].initiatorId || u == s.rooms[p.callId].targetId)
  {
    ReachableConsistent(s, now);
    hide Reachable;
    forall c | c in s.rooms && now < s.rooms[c].deadline
      ensures RoomOk(s, c)
    {
      assert RoomLive(s, now, c);
    }
    forall u | u in s.pointers && now < s.pointers[u].deadline
      ensures PointerOk(s, u)
    {
      assert PointerLive(s, now, u);
    }
  }

  /** No user is in two live calls, and both parties of a live call see that same call. */
  lemma OneCallPerUser(s: Store, now: int, c: CallId, d: CallId, u: UserId)
    requires Reachable(s, now) && RoomLive(s, now, c) && RoomLive(s, now, d)
    requires u == s.rooms[c].initiatorId || u == s.rooms[c].targetId
    requires u == s.rooms[d].initiatorId || u == s.rooms[d].targetId
    ensures c == d
    ensures Active(s, now, s.rooms[c].initiatorId) == Active(s, now, s.rooms[c].targetId) == ToActiveCall(c, s.rooms[c])
  {
    ReachableConsistent(s, now);
    assert RoomOk(s, c) && RoomOk(s, d);
  }

  /** Ending a call frees both parties and leaves every other user's call alone. */
  lemma EndingFreesBoth(s: Store, now: int, q: Request)
    requires Reachable(s, now) && Active(s, now, q.user).Some?
    requires (q.End? && q.callId == Active(s, now, q.user).value.callId) || (q.Disconnect? && !q.otherSockets)
    ensures var call, (s', reply) := Active(s, now, q.user).value, Handle(s, now, q);
            && reply == Ok && !RoomLive(s', now, call.callId)
            && Cleaned(s, now, call.callId).1 == Some(call)
            && Active(s', now, q.user) == None && Active(s', now, GetOtherUserId(call, q.user)) == None
            && forall w :: w != q.user && w != GetOtherUserId(call, q.user) ==> Active(s', now, w) == Active(s, now, w)
  {
    ReachableConsistent(s, now);
    var call := Active(s, now, q.user).value;
    assert RoomOk(s, call.callId);
    assert PointerOk(s, q.user);
    forall w | w != q.user && w != GetOtherUserId(call, q.user)
      ensures Active(Handle(s, now, q).0, now, w) == Active(s, now, w)
    {
      if PointerLive(s, now, w) {
        assert PointerOk(s, w);
      }
    }
  }

  ghost predicate Dials(q: Request, target: UserId) {
    (q.Invite? && q.target == target) || (q.Initiate? && q.targets != [] && q.targets[0] == target)
  }

  /**
   * A call is placed exactly when it is valid, within rate, both are free and the target is online. Both
   * then see it ringing for two minutes unless something happens to it; nobody else notices.
   */
  lemma PlacingSucceedsIff(s: Store, now: int, q: Request, target: UserId, later: int)
    requires Reachable(s, now) && Dials(q, target) && q.newId !in s.rooms && now <= later
    ensures var (s', reply) := Handle(s, now, q);
            && (reply == Ok <==> && target != "" && target != q.user && q.withinRate && q.targetOnline
                                 && !PointerLive(s, now, q.user) && !PointerLive(s, now, target))
            && (reply != Ok ==> s' == s)
            && (reply == Ok && q.user != "" ==>
                  && Active(s', later, q.user) == Active(s', later, target)
                     == (if later < now + 120_000
                         then Some(ActiveCall(q.newId, q.user, target, Ringing, now, Some(q.log))) else None)
                  && forall w :: w != q.user && w != target ==> Active(s', later, w) == Active(s, later, w))
  {
    ReachableConsistent(s, now);
    FreeIffNoPointer(s, now, q.user);
    FreeIffNoPointer(s, now, target);
    var s' := Handle(s, now, q).0;
    forall w | w != q.user && w != target
      ensures Active(s', later, w) == Active(s, later, w)
    {
      if PointerLive(s, later, w) {
        assert PointerLive(s, now, w) && PointerOk(s, w);
      }
    }
  }

  /** Which refusal a caller gets: the first check that fails, in the order of each handler. */
  lemma RefusalReason(s: Store, now: int, q: Request, target: UserId)
    requires Reachable(s, now) && Dials(q, target)
    ensures var reply := Handle(s, now, q).1;
            var invalid := target == "" || target == q.user;
            var busy, taken := PointerLive(s, now, q.user), PointerLive(s, now, target);
            && (reply == Invalid <==> q.Invite? && invalid)
            && (reply == RateLimited <==> !q.withinRate && (q.Initiate? || !invalid))
            && (reply == AlreadyInCall <==> q.withinRate && busy && (q.Initiate? || !invalid))
            && (reply == NoTarget <==> q.Initiate? && q.withinRate && !busy && invalid)
            && (reply == TargetBusy <==> !invalid && q.withinRate && !busy && taken)
            && (reply == TargetOffline <==> !invalid && q.withinRate && !busy && !taken && !q.targetOnline)
            && reply != InvalidCall
  {
    ReachableConsistent(s, now);
    FreeIffNoPointer(s, now, q.user);
    FreeIffNoPointer(s, now, target);
  }

  /** An initiate that lists nobody is refused and changes nothing. */
  lemma NobodyListed(s: Store, now: int, q: Request)
    requires Reachable(s, now) && q.Initiate? && q.targets == []
    ensures Handle(s, now, q) == (s, if !q.withinRate then RateLimited
                                     else if PointerLive(s, now, q.user) then AlreadyInCall else NoTarget)
  {
    ReachableConsistent(s, now);
    FreeIffNoPointer(s, now, q.user);
  }

  /**
   * Only the callee accepts. Both then see the call connected for exactly four hours unless something
   * happens to it; nobody else notices.
   */
  lemma AcceptConnectsBoth(s: Store, now: int, u: UserId, c: CallId, later: int)
    requires Reachable(s, now) && now <= later
    ensures var (s', reply) := Handle(s, now, Accept(u, c));
            && (reply == Ok <==> Active(s, now, u).Some? && Active(s, now, u).value.callId == c
                                 && Active(s, now, u).value.targetId == u)
            && (reply != Ok ==> s' == s && reply == InvalidCall)
            && (reply == Ok ==>
                  var call := Active(s, now, u).value;
                  && Active(s', later, call.initiatorId) == Active(s', later, u)
                     == (if later < now + 14_400_000 then Some(call.(status := Connected, startedAt := now)) else None)
                  && forall w :: w != u && w != call.initiatorId ==> Active(s', later, w) == Active(s, later, w))
  {
    ReachableConsistent(s, now);
    var s' := Handle(s, now, Accept(u, c)).0;
    if Active(s, now, u).Some? {
      var call := Active(s, now, u).value;
      assert RoomOk(s, call.callId);
      forall w | call.targetId == u && w != u && w != call.initiatorId
        ensures Active(s', later, w) == Active(s, later, w)
      {
        if PointerLive(s, later, w) {
          assert PointerLive(s, now, w) && PointerOk(s, w);
        }
      }
    }
  }

  /**
   * A disconnect that leaves another socket, or of a user in no call, and a reject or hangup of a call that
   * is not the user's change nothing.
   */
  lemma OthersChangeNothing(s: Store, now: int, q: Request)
    requires Reachable(s, now)
    requires || (q.Disconnect? && (q.otherSockets || Active(s, now, q.user).None?))
             || (q.End? && (Active(s, now, q.user).None? || Active(s, now, q.user).value.callId != q.callId))
    ensures Handle(s, now, q) == (s, if q.Disconnect? then Ok else InvalidCall)
  {
    ReachableConsistent(s, now);
    FreeIffNoPointer(s, now, q.user);
  }
}

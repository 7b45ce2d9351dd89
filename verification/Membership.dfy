/**
 * Channel creation and membership (create, addMember and removeMember of
 * src/modules/channels/channels.service.ts), each operation one step, for one channel.
 */
module Membership {
  import opened Options
  import opened ChannelKinds

  type UserId = string

  const MAX_CHANNEL_PARTICIPANTS: nat := 50

  datatype Role = Admin | Member
  datatype Row = Row(role: Role, joinedAt: int)
  type Members = map<UserId, Row>

  datatype Error = BadRequest | NotFound | Forbidden | Full | Conflict
  datatype Result<T> = Ok(value: T) | Err(error: Error)

  predicate HasRole(ms: Members, u: UserId, role: Role) {
    u in ms && ms[u].role == role
  }

  // ----- creation

  /** create: the creator becomes ADMIN, the other distinct participants members. */
  function CreateChannel(creator: UserId, participantIds: seq<UserId>, kind: Kind, active: set<UserId>,
                         now: int): Result<Members> {
    var unique := set u | u in participantIds;
    if kind.Direct? && (|unique| != 1 || unique == {creator}) then Err(BadRequest)
    else if kind.Group? && |unique| > MAX_CHANNEL_PARTICIPANTS then Err(BadRequest)
    else
      var others := unique - {creator};
      if others == {} then Err(BadRequest)
      else if !(others <= active) then Err(NotFound)
      else Ok((map u | u in others :: Row(Member, now))[creator := Row(Admin, now)])
  }

  // ----- adding and removing

  function AddMember(kind: Kind, ms: Members, requester: UserId, newUser: UserId, role: Option<Role>,
                     active: set<UserId>, now: int): Result<Members> {
    if !HasRole(ms, requester, Admin) then Err(Forbidden)
    else if !kind.Group? then Err(BadRequest)
    else if newUser !in active then Err(NotFound)
    else if |ms| >= MAX_CHANNEL_PARTICIPANTS + 1 then Err(Full)
    else if newUser in ms then Err(Conflict)
    else Ok(ms[newUser := Row(if role.Some? then role.value else Member, now)])
  }

  function RemoveCheck(ms: Members, requester: UserId, target: UserId): Option<Error> {
    if requester != target && !HasRole(ms, requester, Admin) then Some(Forbidden)
    else if target !in ms then Some(NotFound)
    else None
  }

  ghost predicate HasAdmin(ms: Members) {
    exists u :: HasRole(ms, u, Admin)
  }

  /** `order by joined_at limit 1`: any member nobody joined before. */
  ghost predicate LongestStanding(ms: Members, p: UserId) {
    p in ms && forall u :: u in ms ==> ms[p].joinedAt <= ms[u].joinedAt
  }

  /** The user the transaction promotes, if any, once `removed` is gone. */
  ghost predicate Promotes(rest: Members, removed: Role, promoted: Option<UserId>) {
    match promoted
    case Some(p) => removed.Admin? && !HasAdmin(rest) && LongestStanding(rest, p)
    case None => removed.Member? || HasAdmin(rest) || rest == map[]
  }

  function Remaining(rest: Members, promoted: Option<UserId>): Members {
    if promoted.Some? && promoted.value in rest
    then rest[promoted.value := rest[promoted.value].(role := Admin)] else rest
  }

  lemma {:induction false} LongestStandingExists(ms: Members) returns (p: UserId)
    requires ms != map[]
    ensures LongestStanding(ms, p)
    decreases |ms|
  {
    var u :| u in ms;
    var rest := ms - {u};
    assert ms.Keys == rest.Keys + {u};
    if rest == map[] {
      return u;
    }
    p := LongestStandingExists(rest);
    if ms[u].joinedAt < ms[p].joinedAt {
      p := u;
    }
  }

  class ChannelMembers {
    const kind: Kind
    var members: Members

    ghost predicate Valid()
      reads this
    {
      MembersOk(members)
    }

    constructor (kind: Kind, creator: UserId, participantIds: seq<UserId>, active: set<UserId>, now: int)
      requires CreateChannel(creator, participantIds, kind, active, now).Ok?
      ensures Valid() && this.kind == kind
      ensures members == CreateChannel(creator, participantIds, kind, active, now).value
    {
      CreatedOk(creator, participantIds, kind, active, now);
      this.kind := kind;
      members := CreateChannel(creator, participantIds, kind, active, now).value;
    }

    method Add(requester: UserId, newUser: UserId, role: Option<Role>, active: set<UserId>, now: int)
      returns (error: Option<Error>)
      requires Valid()
      modifies this
      ensures Valid()
      ensures match AddMember(kind, old(members), requester, newUser, role, active, now)
              case Ok(ms) => error == None && members == ms
              case Err(e) => error == Some(e) && members == old(members)
      ensures members == Do(kind, old(members), AddStep(requester, newUser, role, active, now))
    {
      AddKeeps(kind, members, requester, newUser, role, active, now);
      if requester !in members || !members[requester].role.Admin? { return Some(Forbidden); }
      if !kind.Group? { return Some(BadRequest); }
      if newUser !in active { return Some(NotFound); }
      if |members| >= MAX_CHANNEL_PARTICIPANTS + 1 { return Some(Full); }
      if newUser in members { return Some(Conflict); }
      members := members[newUser := Row(if role.Some? then role.value else Member, now)];
      return None;
    }

    method Remove(requester: UserId, target: UserId) returns (error: Option<Error>, promoted: Option<UserId>)
      requires Valid()
      modifies this
      ensures Valid() && error == RemoveCheck(old(members), requester, target)
      ensures error.Some? ==> members == old(members) && promoted == None
      ensures error.None? ==>
                && Promotes(old(members) - {target}, old(members)[target].role, promoted)
                && members == Remaining(old(members) - {target}, promoted)
      ensures Enabled(kind, old(members), RemoveStep(requester, target, promoted))
      ensures members == Do(kind, old(members), RemoveStep(requester, target, promoted))
    {
      error, promoted := None, None;
      if requester != target && !HasRole(members, requester, Admin) { return Some(Forbidden), None; }
      if target !in members { return Some(NotFound), None; }
      var removed := members[target].role;
      ghost var before := members;
      members := members - {target};
      if removed.Admin? && !(exists u :: u in members && members[u].role.Admin?) {
        assert !HasAdmin(members);
        if members != map[] {
          ghost var oldest := LongestStandingExists(members);
          var p :| p in members && forall u :: u in members ==> members[p].joinedAt <= members[u].joinedAt;
          members := members[p := members[p].(role := Admin)];
          promoted := Some(p);
        }
      } else if removed.Admin? {
        var u :| u in members && members[u].role.Admin?;
        assert HasRole(members, u, Admin);
      }
      RemoveKeeps(before, target, promoted);
    }
  }

  // ----- when each operation succeeds

  /** A channel is created exactly for a sound list of participants who all exist. */
  lemma CreationSucceedsIff(creator: UserId, participantIds: seq<UserId>, kind: Kind, active: set<UserId>, now: int)
    ensures var r := CreateChannel(creator, participantIds, kind, active, now);
            var unique := set u | u in participantIds;
            var sound := (exists u :: u in participantIds && u != creator)
                         && |unique| <= (if kind.Direct? then 1 else 50);
            && (r.Ok? <==> sound && forall u :: u in participantIds && u != creator ==> u in active)
            && (r == Err(BadRequest) <==> !sound)
            && (r.Err? ==> r.error.BadRequest? || r.error.NotFound?)
            && (r.Ok? ==> forall u :: u in r.value ==> r.value[u].joinedAt == now)
  {
    var unique := set u | u in participantIds;
    var others := unique - {creator};
    if u :| u in participantIds && u != creator {
      assert u in others;
      if kind.Direct? && |unique| == 1 {
        assert unique == {u} by { OneElement(unique, u); }
      }
      assert |unique| > 0;
    } else {
      assert others == {};
    }
  }

  lemma OneElement<T>(s: set<T>, x: T)
    requires x in s && |s| == 1
    ensures s == {x}
  {
    assert s == {x} + (s - {x});
  }

  /**
   * A member is added exactly by an admin of a group that is not full, if the user exists and is not yet a
   * member; then with the asked role, MEMBER by default, and nobody else's row changes.
   */
  lemma AddingSucceedsIff(kind: Kind, ms: Members, requester: UserId, newUser: UserId, role: Option<Role>,
                          active: set<UserId>, now: int)
    ensures var r := AddMember(kind, ms, requester, newUser, role, active, now);
            var isAdmin := requester in ms && ms[requester].role.Admin?;
            && (r.Ok? <==> isAdmin && kind.Group? && newUser in active && |ms| <= 50 && newUser !in ms)
            && (r.Ok? ==>
                  && r.value.Keys == ms.Keys + {newUser}
                  && r.value[newUser] == Row(if role == Some(Admin) then Admin else Member, now)
                  && forall u :: u in ms ==> r.value[u] == ms[u])
            && (r == Err(Forbidden) <==> !isAdmin)
            && (r == Err(BadRequest) <==> isAdmin && kind.Direct?)
            && (r == Err(NotFound) <==> isAdmin && kind.Group? && newUser !in active)
            && (r == Err(Full) <==> isAdmin && kind.Group? && newUser in active && |ms| > 50)
  {
    assert role.Some? ==> role.value.Admin? || role.value.Member?;
  }

  /** Removing is refused exactly to a non-admin who would remove another, or for a user who is no member. */
  lemma RemovingRefusedIff(ms: Members, requester: UserId, target: UserId)
    ensures var e := RemoveCheck(ms, requester, target);
            var isAdmin := requester in ms && ms[requester].role.Admin?;
            && (e == None <==> target in ms && (requester == target || isAdmin))
            && (e == Some(Forbidden) <==> requester != target && !isAdmin)
            && (e.Some? ==> e.value.Forbidden? || e.value.NotFound?)
  {
  }

  // ----- what every operation keeps

  /** A channel with a member has an admin, and never more than 51 members. */
  ghost predicate MembersOk(ms: Members) {
    (ms != map[] ==> HasAdmin(ms)) && |ms| <= MAX_CHANNEL_PARTICIPANTS + 1
  }

  lemma CreatedOk(creator: UserId, participantIds: seq<UserId>, kind: Kind, active: set<UserId>, now: int)
    ensures var r := CreateChannel(creator, participantIds, kind, active, now);
            r.Ok? ==>
              && MembersOk(r.value) && |r.value| >= 2
              && r.value.Keys == (set u | u in participantIds) + {creator}
              && (forall u :: HasRole(r.value, u, Admin) <==> u == creator)
              && (kind.Direct? ==> |r.value| == 2)
  {
    var r := CreateChannel(creator, participantIds, kind, active, now);
    if r.Ok? {
      var unique := set u | u in participantIds;
      var others := unique - {creator};
      assert r.value.Keys == others + {creator};
      assert |r.value.Keys| == |others| + 1;
      assert |others| <= |unique| by { SubsetCard(others, unique); }
      assert HasRole(r.value, creator, Admin);
      assert |others| > 0;
    }
  }

  lemma SubsetCard<T>(a: set<T>, b: set<T>)
    requires a <= b
    ensures |a| <= |b|
  {
    assert b == a + (b - a);
  }

  lemma AddKeeps(kind: Kind, ms: Members, requester: UserId, newUser: UserId, role: Option<Role>,
                 active: set<UserId>, now: int)
    requires MembersOk(ms)
    ensures var r := AddMember(kind, ms, requester, newUser, role, active, now); r.Ok? ==> MembersOk(r.value)
  {
    var r := AddMember(kind, ms, requester, newUser, role, active, now);
    if r.Ok? {
      assert HasRole(r.value, requester, Admin);
      assert r.value.Keys == ms.Keys + {newUser};
    }
  }

  lemma RemoveKeeps(ms: Members, target: UserId, promoted: Option<UserId>)
    requires MembersOk(ms) && target in ms && Promotes(ms - {target}, ms[target].role, promoted)
    ensures MembersOk(Remaining(ms - {target}, promoted))
  {
    var rest := ms - {target};
    var after := Remaining(rest, promoted);
    assert rest.Keys == ms.Keys - {target} && after.Keys == rest.Keys;
    if promoted.Some? {
      assert HasRole(after, promoted.value, Admin);
    } else if rest != map[] {
      var u :| HasRole(ms, u, Admin);
      if ms[target].role.Member? {
        assert HasRole(rest, u, Admin);
      }
    }
  }

  // ----- runs

  datatype Step =
    | AddStep(requester: UserId, newUser: UserId, role: Option<Role>, active: set<UserId>, now: int)
    | RemoveStep(requester: UserId, target: UserId, promoted: Option<UserId>)

  /** Refused requests change nothing; a removal carries the promotion the database chose. */
  ghost predicate Enabled(kind: Kind, ms: Members, step: Step) {
    match step
    case AddStep(_, _, _, _, _) => true
    case RemoveStep(r, t, promoted) =>
      RemoveCheck(ms, r, t).None? ==> Promotes(ms - {t}, ms[t].role, promoted)
  }

  ghost function Do(kind: Kind, ms: Members, step: Step): Members
    requires Enabled(kind, ms, step)
  {
    match step
    case AddStep(r, n, role, active, now) =>
      var res := AddMember(kind, ms, r, n, role, active, now);
      if res.Ok? then res.value else ms
    case RemoveStep(r, t, promoted) =>
      if RemoveCheck(ms, r, t).None? then Remaining(ms - {t}, promoted) else ms
  }

  ghost predicate IsRun(kind: Kind, ms: Members, steps: seq<Step>)
    decreases |steps|
  {
    steps == [] || (Enabled(kind, ms, steps[0]) && IsRun(kind, Do(kind, ms, steps[0]), steps[1..]))
  }

  ghost function After(kind: Kind, ms: Members, steps: seq<Step>): Members
    requires IsRun(kind, ms, steps)
    decreases |steps|
  {
    if steps == [] then ms else After(kind, Do(kind, ms, steps[0]), steps[1..])
  }

  lemma {:induction false} RunKeeps(kind: Kind, ms: Members, steps: seq<Step>)
    requires MembersOk(ms) && IsRun(kind, ms, steps)
    requires kind.Direct? ==> |ms| <= 2
    ensures MembersOk(After(kind, ms, steps))
    ensures kind.Direct? ==> After(kind, ms, steps).Keys <= ms.Keys
    decreases |steps|
  {
    if steps == [] {
    } else {
      var ms' := Do(kind, ms, steps[0]);
      match steps[0] {
        case AddStep(r, n, role, active, now) =>
          AddKeeps(kind, ms, r, n, role, active, now);
        case RemoveStep(r, t, promoted) =>
          if RemoveCheck(ms, r, t).None? {
            RemoveKeeps(ms, t, promoted);
            assert ms'.Keys == ms.Keys - {t};
            assert |ms'.Keys| <= |ms.Keys|;
          }
      }
      RunKeeps(kind, ms', steps[1..]);
    }
  }

  /**
   * Over all runs from any accepted creation: a channel with a member has an admin, there are never
   * more than 51 members, and a DIRECT channel never gains anyone.
   */
  lemma ChannelsStayGoverned(creator: UserId, participantIds: seq<UserId>, kind: Kind, active: set<UserId>, now: int,
                             steps: seq<Step>)
    requires CreateChannel(creator, participantIds, kind, active, now).Ok?
    requires IsRun(kind, CreateChannel(creator, participantIds, kind, active, now).value, steps)
    ensures var ms0 := CreateChannel(creator, participantIds, kind, active, now).value;
            var ms := After(kind, ms0, steps);
            && (ms != map[] ==> exists u :: u in ms && ms[u].role.Admin?)
            && |ms| <= 51
            && (kind.Direct? ==> ms.Keys <= ms0.Keys)
  {
    CreatedOk(creator, participantIds, kind, active, now);
    RunKeeps(kind, CreateChannel(creator, participantIds, kind, active, now).value, steps);
    var ms := After(kind, CreateChannel(creator, participantIds, kind, active, now).value, steps);
    if ms != map[] {
      var u :| HasRole(ms, u, Admin);
    }
  }

  /**
   * In a governed channel a removal promotes someone exactly when it takes the only admin and leaves
   * others behind; it promotes a longest-standing one, and changes no one else's role.
   */
  lemma PromotionIff(ms: Members, target: UserId, promoted: Option<UserId>)
    requires MembersOk(ms) && target in ms && Promotes(ms - {target}, ms[target].role, promoted)
    ensures promoted.Some? <==> |ms| > 1 && forall u :: HasRole(ms, u, Admin) ==> u == target
    ensures var after := Remaining(ms - {target}, promoted);
            && after.Keys == ms.Keys - {target}
            && (forall u :: u in after && promoted != Some(u) ==> after[u] == ms[u])
            && (promoted.Some? ==>
                  && HasRole(after, promoted.value, Admin) && ms[promoted.value].role.Member?
                  && forall u :: u in after ==> ms[promoted.value].joinedAt <= ms[u].joinedAt)
  {
    var rest := ms - {target};
    assert rest.Keys == ms.Keys - {target};
    var admin :| HasRole(ms, admin, Admin);
    assert forall u :: u in rest ==> rest[u] == ms[u];
    if |ms| > 1 {
      assert rest != map[] by { assert |rest.Keys| == |ms| - 1; }
    }
    if HasAdmin(rest) {
      var u :| HasRole(rest, u, Admin);
      assert HasRole(ms, u, Admin);
    } else {
      assert forall u :: HasRole(ms, u, Admin) ==> u == target || HasRole(rest, u, Admin);
    }
    if promoted.Some? {
      assert !HasRole(rest, promoted.value, Admin);
      assert |rest.Keys| > 0;
    }
  }
}

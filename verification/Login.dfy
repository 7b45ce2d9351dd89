/**
 * Registration and the two login requests (src/modules/auth/auth.service.ts) over the
 * single-use handshake state (src/modules/auth/srp-state.service.ts). Numbers travel
 * as hex text: v in the users table, b and B in Redis, B and A on the wire.
 */
module Login {
  import opened Options
  import opened Hex
  import opened Srp

  const SRP_STATE_TTL_MS: int := 120 * 1000

  datatype SrpState = SrpState(b: nat, B: nat, userId: Option<string>)
  datatype StoredState = StoredState(b: string, B: string, userId: Option<string>, deadline: int)
  type Store = map<string, StoredState>

  function Encode(now: int, s: SrpState): StoredState {
    StoredState(ToHex(s.b), ToHex(s.B), s.userId, now + SRP_STATE_TTL_MS)
  }

  /** None is the "corrupt state discarded" branch. */
  function Decode(e: StoredState): Option<SrpState> {
    match (ParseHex(e.b), ParseHex(e.B))
    case (Some(b), Some(B)) => Some(SrpState(b, B, e.userId))
    case _ => None
  }

  /** GETDEL: what the key held, if it had not expired. */
  function Taken(st: Store, now: int, username: string): Option<SrpState> {
    if username in st && now < st[username].deadline then Decode(st[username]) else None
  }

  class SrpStateService {
    var entries: Store

    constructor ()
      ensures entries == map[]
    {
      entries := map[];
    }

    method Set(now: int, username: string, state: SrpState)
      modifies this
      ensures entries == old(entries)[username := Encode(now, state)]
    {
      entries := entries[username := Encode(now, state)];
    }

    method Consume(now: int, username: string) returns (r: Option<SrpState>)
      modifies this
      ensures r == Taken(old(entries), now, username)
      ensures entries == old(entries) - {username}
    {
      r := None;
      if username in entries {
        var raw := entries[username];
        entries := entries - {username};
        if now < raw.deadline {
          var b, B := ParseHex(raw.b), ParseHex(raw.B);
          if b.Some? && B.Some? {
            r := Some(SrpState(b.value, B.value, raw.userId));
          }
        }
      }
    }
  }

  // ----- runs of the handshake store

  datatype StoreOp = SetOp(now: int, username: string, state: SrpState) | ConsumeOp(now: int, username: string)

  function Apply(st: Store, op: StoreOp): Store {
    match op
    case SetOp(now, u, s) => st[u := Encode(now, s)]
    case ConsumeOp(_, u) => st - {u}
  }

  function Run(st: Store, ops: seq<StoreOp>): Store
    decreases |ops|
  {
    if ops == [] then st else Run(Apply(st, ops[0]), ops[1..])
  }

  /** The last operation on a username, if any. */
  function LastOn(ops: seq<StoreOp>, u: string): Option<StoreOp> {
    if ops == [] then None
    else if ops[|ops| - 1].username == u then Some(ops[|ops| - 1])
    else LastOn(ops[..|ops| - 1], u)
  }

  lemma {:induction false} RunSnoc(st: Store, ops: seq<StoreOp>, op: StoreOp)
    ensures Run(st, ops + [op]) == Apply(Run(st, ops), op)
    decreases |ops|
  {
    if ops == [] {
      assert (ops + [op])[1..] == [];
    } else {
      RunSnoc(Apply(st, ops[0]), ops[1..], op);
      assert (ops + [op])[1..] == ops[1..] + [op];
    }
  }

  /** What a key holds is what the last operation on it left. */
  lemma {:induction false} KeyIsLastSet(st: Store, ops: seq<StoreOp>, u: string)
    ensures match LastOn(ops, u)
            case None => (u in Run(st, ops) <==> u in st) && (u in st ==> Run(st, ops)[u] == st[u])
            case Some(SetOp(now, _, s)) => u in Run(st, ops) && Run(st, ops)[u] == Encode(now, s)
            case Some(ConsumeOp(_, _)) => u !in Run(st, ops)
  {
    if ops == [] {
    } else {
      var front, op := ops[..|ops| - 1], ops[|ops| - 1];
      assert ops == front + [op];
      RunSnoc(st, front, op);
      KeyIsLastSet(st, front, u);
    }
  }

  /**
   * For every sequence of operations by any users: a take for u gets the state of the last operation on u
   * if that was a login start less than 120 s ago, and nothing if it was older or a take. If there was
   * none, the store answers as it did before; so an empty one answers nothing.
   */
  lemma TakenIsLastSet(st: Store, ops: seq<StoreOp>, now: int, u: string)
    ensures Taken(Run(st, ops), now, u)
            == match LastOn(ops, u)
               case Some(SetOp(start, _, state)) => if now < start + SRP_STATE_TTL_MS then Some(state) else None
               case Some(ConsumeOp(_, _)) => None
               case None => Taken(st, now, u)
  {
    KeyIsLastSet(st, ops, u);
    var last := LastOn(ops, u);
    if last.Some? && last.value.SetOp? {
      PrintedStateParses(last.value.state.b);
      PrintedStateParses(last.value.state.B);
    }
  }

  lemma {:induction false} LastOnConcat(ops: seq<StoreOp>, more: seq<StoreOp>, u: string)
    ensures LastOn(ops + more, u) == if LastOn(more, u).Some? then LastOn(more, u) else LastOn(ops, u)
    decreases |more|
  {
    if more == [] {
      assert ops + more == ops;
    } else {
      var front, op := more[..|more| - 1], more[|more| - 1];
      assert (ops + more)[..|ops + more| - 1] == ops + front;
      LastOnConcat(ops, front, u);
    }
  }

  lemma {:induction false} LastOnNames(ops: seq<StoreOp>, u: string)
    ensures LastOn(ops, u).Some? ==> LastOn(ops, u).value in ops && LastOn(ops, u).value.username == u
  {
    if ops == [] {
    } else {
      LastOnNames(ops[..|ops| - 1], u);
    }
  }

  /**
   * So a stored handshake comes back intact within 120 s whatever other users do, and only
   * once: every later take fails until somebody starts a new login for that username.
   */
  lemma HandshakeSingleUse(st: Store, start: int, u: string, state: SrpState,
                           between: seq<StoreOp>, finish: int, later: seq<StoreOp>, again: int)
    requires forall op :: op in between ==> op.username != u
    requires forall op :: op in later ==> op.SetOp? ==> op.username != u
    ensures var ops := [SetOp(start, u, state)] + between;
            && Taken(Run(st, ops), finish, u) == (if finish < start + SRP_STATE_TTL_MS then Some(state) else None)
            && Taken(Run(st, ops + [ConsumeOp(finish, u)] + later), again, u) == None
  {
    hide Run, Taken;
    var set1, take := [SetOp(start, u, state)], [ConsumeOp(finish, u)];
    var ops := set1 + between;
    LastOnConcat(set1, between, u);
    LastOnNames(between, u);
    TakenIsLastSet(st, ops, finish, u);
    LastOnConcat(ops, take, u);
    LastOnConcat(ops + take, later, u);
    LastOnNames(later, u);
    TakenIsLastSet(st, ops + take + later, again, u);
  }

  lemma PrintedStateParses(n: nat)
    ensures ParseHex(ToHex(n)) == Some(n)
  {
    PrintParse(n, 0);
  }

  // ----- the auth service

  /** `bigintToHex`. */
  function BigIntToHex(n: nat): string {
    PadStart(ToHex(n), 2)
  }

  datatype UserRow = UserRow(id: string, email: string, srpSalt: string, srpVerifier: string, isActive: bool)
  type Users = map<string, UserRow>

  datatype Outcome = SessionExpired | InvalidCredentials | LoggedIn(userId: string, m2: string)

  /** The row a handshake was started for, if it still is an active account of that name. */
  predicate AccountOf(users: Users, username: string, userId: Option<string>) {
    && username in users && users[username].isActive
    && userId == Some(users[username].id)
  }

  /** Success needs a live handshake, an acceptable A, the same active account and the right M1. */
  ghost predicate LoginSucceeds(sha: Hash, gr: Group, users: Users, taken: Option<SrpState>, username: string,
                                aHex: string, m1: string)
    requires gr.N > 1
  {
    && taken.Some?
    && ParseClientEphemeral(gr, aHex).Some?
    && AccountOf(users, username, taken.value.userId)
    && ParseHex(users[username].srpVerifier).Some?
    && ProofAccepted(sha, gr, ParseClientEphemeral(gr, aHex).value, m1, taken.value.b, taken.value.B,
                     ParseHex(users[username].srpVerifier).value, users[username].srpSalt)
  }

  class AuthService {
    const sha: Hash
    const utf8: string -> seq<Byte>
    const gr: Group
    const decoySalt: string -> string
    const decoyX: string -> nat
    const srpState: SrpStateService
    var users: Users

    constructor (sha: Hash, utf8: string -> seq<Byte>, gr: Group, decoySalt: string -> string,
                 decoyX: string -> nat, srpState: SrpStateService)
      ensures this.sha == sha && this.utf8 == utf8 && this.gr == gr && this.srpState == srpState
      ensures this.decoySalt == decoySalt && this.decoyX == decoyX && users == map[]
      ensures gr.N > 1 ==> Valid()
    {
      this.sha, this.utf8, this.gr, this.srpState := sha, utf8, gr, srpState;
      this.decoySalt, this.decoyX := decoySalt, decoyX;
      users := map[];
    }

    /** Every stored verifier is printed by `BigIntToHex`, so it parses. */
    ghost predicate Valid()
      reads this
    {
      gr.N > 1 && forall u :: u in users ==> ParseHex(users[u].srpVerifier).Some?
    }

    method Register(username: string, email: string, password: string, srpSalt: string, id: string)
      returns (created: bool)
      requires Valid()
      modifies this
      ensures Valid()
      ensures created <==> username !in old(users) && forall u :: u in old(users) ==> old(users)[u].email != email
      ensures !created ==> users == old(users)
      ensures created ==> users == old(users)[username := UserRow(id, email, srpSalt,
                BigIntToHex(ComputeVerifier(gr, PrivateKey(sha, utf8, srpSalt, password))), true)]
    {
      if username in users || exists u :: u in users && users[u].email == email {
        return false;
      }
      var x := PrivateKey(sha, utf8, srpSalt, password);
      var v := ModPow(gr.g, x, gr.N);
      PrintParse(v, 2);
      users := users[username := UserRow(id, email, srpSalt, BigIntToHex(v), true)];
      return true;
    }

    /** b is the 32 random bytes the server drew. */
    method LoginStart(now: int, username: string, b: nat) returns (srpSalt: string, bigB: string)
      requires Valid()
      modifies srpState
      ensures var known := username in users && users[username].isActive;
              var v := if known then ParseHex(users[username].srpVerifier).value
                       else ComputeVerifier(gr, decoyX(username));
              var B := ServerEphemeral(sha, gr, v, b);
              && srpSalt == (if known then users[username].srpSalt else decoySalt(username))
              && bigB == BigIntToHex(B)
              && srpState.entries == old(srpState.entries)[username :=
                   Encode(now, SrpState(b, B, if known then Some(users[username].id) else None))]
    {
      var v: nat, userId;
      if username in users && users[username].isActive {
        srpSalt, v, userId := users[username].srpSalt, ParseHex(users[username].srpVerifier).value,
                              Some(users[username].id);
      } else {
        v := ModPow(gr.g, decoyX(username), gr.N);
        srpSalt, userId := decoySalt(username), None;
      }
      var B := GenerateServerEphemeral(sha, gr, v, b);
      srpState.Set(now, username, SrpState(b, B, userId));
      bigB := BigIntToHex(B);
    }

    method LoginFinish(now: int, username: string, aHex: string, m1: string) returns (r: Outcome)
      requires Valid()
      modifies srpState
      ensures srpState.entries == old(srpState.entries) - {username}
      ensures var taken := Taken(old(srpState.entries), now, username);
              && (r.SessionExpired? <==> taken.None?)
              && (r.LoggedIn? <==> LoginSucceeds(sha, gr, users, taken, username, aHex, m1))
              && (r.LoggedIn? ==>
                    var A, row := ParseClientEphemeral(gr, aHex).value, users[username];
                    r == LoggedIn(row.id, BytesToHex(ProofM2(sha, A, HexToBytes(m1),
                           ServerKey(sha, gr, A, taken.value.B, ParseHex(row.srpVerifier).value, taken.value.b)))))
    {
      var taken := srpState.Consume(now, username);
      if taken.None? {
        return SessionExpired;
      }
      var A := ParseClientEphemeral(gr, aHex);
      if A.None? || !AccountOf(users, username, taken.value.userId) {
        return InvalidCredentials;
      }
      var row := users[username];
      var proof := VerifyClientProof(sha, gr, A.value, m1, taken.value.b, taken.value.B,
                                     ParseHex(row.srpVerifier).value, row.srpSalt);
      if !proof.valid {
        return InvalidCredentials;
      }
      return LoggedIn(row.id, proof.m2);
    }
  }

  /**
   * Completeness of the whole login, on text: for every password, salt, a and b, the row
   * `Register` writes, the B text `LoginStart` sends, the state Redis gives back and the
   * client's A and M1 texts satisfy `LoginFinish`, and M2 is what the client expects.
   */
  lemma LoginCompleteness(sha: Hash, utf8: string -> seq<Byte>, gr: Group, users: Users, username: string,
                          password: string, a: nat, b: nat, st: Store, start: int,
                          between: seq<StoreOp>, finish: int)
    requires SrpGroup(gr)
    requires username in users && users[username].isActive
    requires users[username].srpVerifier
             == BigIntToHex(ComputeVerifier(gr, PrivateKey(sha, utf8, users[username].srpSalt, password)))
    requires forall op :: op in between ==> op.username != username
    requires finish < start + SRP_STATE_TTL_MS
    ensures ParseHex(users[username].srpVerifier).Some?
    ensures var row := users[username];
            var v := ParseHex(row.srpVerifier).value;
            var B := ServerEphemeral(sha, gr, v, b);
            && ParseHex(BigIntToHex(B)) == Some(B)
            && var client := HonestClient(sha, utf8, gr, row.srpSalt, password, a, ParseHex(BigIntToHex(B)).value);
               var s1 := Run(st, [SetOp(start, username, SrpState(b, B, Some(row.id)))] + between);
               var taken := Taken(s1, finish, username);
               && LoginSucceeds(sha, gr, users, taken, username, client.aHex, client.m1)
               && client.expectedM2 == BytesToHex(ProofM2(sha, ParseClientEphemeral(gr, client.aHex).value,
                    HexToBytes(client.m1),
                    ServerKey(sha, gr, ParseClientEphemeral(gr, client.aHex).value, taken.value.B, v, taken.value.b)))
  {
    var row := users[username];
    var v := ComputeVerifier(gr, PrivateKey(sha, utf8, row.srpSalt, password));
    PrintParse(v, 2);
    var B := ServerEphemeral(sha, gr, v, b);
    PrintParse(B, 2);
    HandshakeSingleUse(st, start, username, SrpState(b, B, Some(row.id)), between, finish, [], finish);
    HonestProofAccepted(sha, utf8, gr, row.srpSalt, password, a, b, PowMod(gr.g, a, gr.N), B, v);
  }

  /**
   * What it takes to log in with an honest A on a handshake started for an account: the 120 s have not
   * passed, the name still belongs to the same active account, and the proof is the one computed from its password.
   */
  lemma LoginSucceedsIff(sha: Hash, utf8: string -> seq<Byte>, gr: Group, row: UserRow, users: Users, username: string,
                         password: string, a: nat, b: nat, st: Store, start: int,
                         between: seq<StoreOp>, finish: int, m1: string)
    requires SrpGroup(gr)
    requires row.srpVerifier == BigIntToHex(ComputeVerifier(gr, PrivateKey(sha, utf8, row.srpSalt, password)))
    requires username in users && users[username].id == row.id ==>
               users[username].srpVerifier == row.srpVerifier && users[username].srpSalt == row.srpSalt
    requires forall op :: op in between ==> op.username != username
    ensures ParseHex(row.srpVerifier).Some?
    ensures var B := ServerEphemeral(sha, gr, ParseHex(row.srpVerifier).value, b);
            var client := HonestClient(sha, utf8, gr, row.srpSalt, password, a, B);
            var s1 := Run(st, [SetOp(start, username, SrpState(b, B, Some(row.id)))] + between);
            LoginSucceeds(sha, gr, users, Taken(s1, finish, username), username, client.aHex, m1)
            <==> && finish < start + 120_000
                 && username in users && users[username].isActive && users[username].id == row.id
                 && SameDigits(m1, client.m1)
  {
    var v := ComputeVerifier(gr, PrivateKey(sha, utf8, row.srpSalt, password));
    PrintParse(v, 2);
    var B := ServerEphemeral(sha, gr, v, b);
    var A := PowMod(gr.g, a, gr.N);
    HandshakeSingleUse(st, start, username, SrpState(b, B, Some(row.id)), between, finish, [], finish);
    HonestProofAccepted(sha, utf8, gr, row.srpSalt, password, a, b, A, B, v);
    ProofAcceptedIff(sha, utf8, gr, row.srpSalt, password, a, b, A, B, v, m1);
    hide ProofAccepted, HonestClient, Run, SameDigits;
  }

  /** A decoy's handshake logs nobody in, whatever is sent and whoever has registered the name since. */
  lemma DecoyNeverLogsIn(sha: Hash, gr: Group, users: Users, username: string, b: nat, B: nat, st: Store, start: int,
                         between: seq<StoreOp>, finish: int, aHex: string, m1: string)
    requires gr.N > 1 && forall op :: op in between ==> op.username != username
    ensures var s1 := Run(st, [SetOp(start, username, SrpState(b, B, None))] + between);
            !LoginSucceeds(sha, gr, users, Taken(s1, finish, username), username, aHex, m1)
  {
    HandshakeSingleUse(st, start, username, SrpState(b, B, None), between, finish, [], finish);
  }
}

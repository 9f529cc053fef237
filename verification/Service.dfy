/** The token and permission service over the store (auth/jwt.go).

The functions give, on tables and gauge, what each call does; the class runs the calls on a
BadgerStore and is proved against them. A caller is a context: a permission list and a name.
 */
module Service {
  import opened Records
  import T = Tables
  import opened Permissions
  import opened Jwt

  datatype Error =
    | Denied(perm: PermError)
    | NoSuchUser
    | UserExists
    | BadProtocol
    | Panicked
    | VerificationFailed
    | StoreError(status: T.Status)

  // The tables and the token gauge per permission.
  datatype State = State(t: T.Tables, gauge: map<string, int>) {
    predicate Ok() { T.Consistent(t) }

    function Gauge(perm: string): int { GaugeAt(gauge, perm) }
  }

  function GaugeAt(gauge: map<string, int>, perm: string): int { if perm in gauge then gauge[perm] else 0 }

  function Inc(gauge: map<string, int>, perm: string, delta: int): map<string, int>
  {
    gauge[perm := GaugeAt(gauge, perm) + delta]
  }

  lemma IncAdds(gauge: map<string, int>, perm: string, delta: int)
    ensures forall p :: GaugeAt(Inc(gauge, perm, delta), p) == GaugeAt(gauge, p) + if p == perm then delta else 0
  {
  }

  type Outcome = (State, Option<Error>)

  function Refuse(s: State, e: Error): Outcome { (s, Some(e)) }

  function Finish(s: State, r: (T.Tables, T.Status)): Outcome
  {
    if r.1.Ok? then (s.(t := r.0), None) else (s.(t := r.0), Some(StoreError(r.1)))
  }

  // ---------- addresses ----------

  datatype Protocol = ID | SECP256K1 | Actor | BLS | Delegated | Unknown

  // The digit after the network letter.
  function ProtocolOf(a: Addr): Protocol
  {
    if |a| < 2 then Unknown
    else if a[1] == '0' then ID
    else if a[1] == '1' then SECP256K1
    else if a[1] == '2' then Actor
    else if a[1] == '3' then BLS
    else if a[1] == '4' then Delegated
    else Unknown
  }

  predicate IsSignerAddress(a: Addr) { ProtocolOf(a) in {SECP256K1, BLS, Delegated} }

  // ---------- tokens ----------

  predicate IsAdmin(ctx: Ctx) { PermCheck(ctx, PERM_ADMIN).None? }

  // The name a token's payload carries must be the caller's, or the caller an admin.
  function TokenPermCheck(c: Codec, ctx: Ctx, token: string): Option<PermError>
  {
    if IsAdmin(ctx) then None
    else
      var payload := DecodeToken(c, token);
      if payload.None? then Some(BadToken) else NameCheck(ctx, payload.value.name)
  }

  function NewKeyPair(c: Codec, pl: Payload, secret: string, now: Stamp): KeyPair
  {
    KeyPair(pl.name, pl.perm, secret, pl.extra, Sign(c, pl, secret), now, NOT_DELETE)
  }

  function GenerateToken(c: Codec, s: State, ctx: Ctx, pl: Payload, secret: string, now: Stamp): Outcome
  {
    var denied := PermCheck(ctx, PERM_ADMIN);
    if denied.Some? then Refuse(s, Denied(denied.value))
    else if !T.Live(s.t, UserId(pl.name)) then Refuse(s, NoSuchUser)
    else
      var kp := NewKeyPair(c, pl, secret, now);
      if T.Live(s.t, TokenId(kp.token)) then (s, None)
      else (State(s.t[TokenId(kp.token) := TokenRec(kp)], Inc(s.gauge, pl.perm, 1)), None)
  }

  datatype Verified = Verified(payload: Payload) | Rejected(error: Error)

  function Verify(c: Codec, s: State, ctx: Ctx, token: string): Verified
    requires s.Ok()
  {
    var payload := DecodeToken(c, token);
    if payload.None? then Rejected(Denied(BadToken))
    else
      var denied := PermCheck(ctx, PERM_READ);
      if denied.Some? then Rejected(Denied(denied.value))
      else if !T.Live(s.t, TokenId(token)) then Rejected(StoreError(T.KeyNotFound))
      else if !SignatureHolds(c, token, s.t[TokenId(token)].token.secret) then Rejected(VerificationFailed)
      else Verified(payload.value)
  }

  // Deleting and recovering move the gauge of the permission found in the token's own payload.
  function MoveGauge(c: Codec, s: State, r: (T.Tables, T.Status), token: string, delta: int): Outcome
  {
    if !r.1.Ok? then Refuse(s, StoreError(r.1))
    else
      var payload := DecodeToken(c, token);
      if payload.None? then Refuse(s.(t := r.0), Panicked)
      else (State(r.0, Inc(s.gauge, payload.value.perm, delta)), None)
  }

  function RemoveToken(c: Codec, s: State, ctx: Ctx, token: string, now: Stamp): Outcome
  {
    var denied := TokenPermCheck(c, ctx, token);
    if denied.Some? then Refuse(s, Denied(denied.value))
    else MoveGauge(c, s, T.SoftDelete(s.t, TokenId(token), now), token, -1)
  }

  function RecoverToken(c: Codec, s: State, ctx: Ctx, token: string): Outcome
  {
    var denied := TokenPermCheck(c, ctx, token);
    if denied.Some? then Refuse(s, Denied(denied.value))
    else MoveGauge(c, s, T.Recover(s.t, TokenId(token)), token, 1)
  }

  // ---------- users and rate limits: admins only ----------

  function CreateUser(s: State, ctx: Ctx, user: User): Outcome
  {
    var denied := PermCheck(ctx, PERM_ADMIN);
    if denied.Some? then Refuse(s, Denied(denied.value))
    else if T.Live(s.t, UserId(user.name)) then Refuse(s, UserExists)
    else (s.(t := T.PutUser(s.t, user.(isDeleted := NOT_DELETE))), None)
  }

  function UpdateUser(s: State, ctx: Ctx, name: string, comment: Option<string>, state: UserState, now: Stamp): Outcome
    requires s.Ok()
  {
    var denied := PermCheck(ctx, PERM_ADMIN);
    if denied.Some? then Refuse(s, Denied(denied.value))
    else if !T.Live(s.t, UserId(name)) then Refuse(s, StoreError(T.KeyNotFound))
    else
      var user := s.t[UserId(name)].user;
      (s.(t := T.PutUser(s.t, user.(
         updateTime := now,
         comment := if comment.Some? then comment.value else user.comment,
         state := if state != USER_STATE_UNDEFINED then state else user.state))), None)
  }

  // A store operation that only admins may call.
  function AdminOnly(s: State, ctx: Ctx, r: (T.Tables, T.Status)): Outcome
  {
    var denied := PermCheck(ctx, PERM_ADMIN);
    if denied.Some? then Refuse(s, Denied(denied.value)) else Finish(s, r)
  }

  // ---------- miners and signers ----------

  function UpsertMiner(s: State, ctx: Ctx, a: Addr, user: string, openMining: Option<bool>, now: Stamp): Outcome
    requires s.Ok()
  {
    var denied := PermCheck(ctx, PERM_ADMIN);
    if denied.Some? then Refuse(s, Denied(denied.value))
    else if !ProtocolOf(a).ID? then Refuse(s, BadProtocol)
    else Finish(s, T.UpsertMiner(s.t, a, user, openMining, now))
  }

  // Someone who is not an admin must own the thing he deletes.
  function OwnerCheck(ctx: Ctx, owns: bool): Option<PermError>
  {
    if ctx.name.None? then Some(UsernameNotFound) else if owns then None else Some(PermissionDeny)
  }

  predicate OwnsMiner(s: State, ctx: Ctx, a: Addr)
    requires s.Ok()
  {
    ctx.name.Some? && MinerId(a) in T.MinersOf(s.t, ctx.name.value)
  }

  predicate HoldsSigner(s: State, ctx: Ctx, a: Addr)
  {
    ctx.name.Some? && T.Live(s.t, SignerId(a, ctx.name.value))
  }

  function DelMiner(s: State, ctx: Ctx, a: Addr, now: Stamp): Outcome
    requires s.Ok()
  {
    var denied := if IsAdmin(ctx) then None else OwnerCheck(ctx, OwnsMiner(s, ctx, a));
    if denied.Some? then Refuse(s, Denied(denied.value))
    else
      var r := T.SoftDelete(s.t, MinerId(a), now);
      if r.1 == T.KeyNotFound then (s, None) else Finish(s, r)
  }

  function DelSigner(s: State, ctx: Ctx, a: Addr, clock: T.Clock): Outcome
    requires s.Ok()
  {
    var denied := if IsAdmin(ctx) then None else OwnerCheck(ctx, HoldsSigner(s, ctx, a));
    if denied.Some? then Refuse(s, Denied(denied.value))
    else (s.(t := T.DelSigner(s.t, a, clock).0), None)
  }

  // RegisterSigners and UnregisterSigners go through the list and stop at the first error, keeping
  // what they did before it. `nows` gives the reading of the clock for each position.
  function SignerLoop(t: T.Tables, register: bool, signers: seq<Addr>, n: nat, user: string, nows: nat -> Stamp)
    : (r: (T.Tables, Option<Error>))
    requires T.Consistent(t) && n <= |signers|
    ensures T.Consistent(r.0)
  {
    if n == 0 then (t, None)
    else
      var before := SignerLoop(t, register, signers, n - 1, user, nows);
      var a := signers[n - 1];
      if before.1.Some? then before
      else if !IsSignerAddress(a) then (before.0, Some(BadProtocol))
      else
        var r := if register then T.RegisterSigner(before.0, a, user, nows(n - 1))
                 else T.UnregisterSigner(before.0, a, user, nows(n - 1));
        (r.0, if r.1.Ok? then None else Some(StoreError(r.1)))
  }

  // Nothing happens after the first error.
  lemma {:induction false} LoopStops(t: T.Tables, register: bool, signers: seq<Addr>, n: nat, user: string,
                                     nows: nat -> Stamp)
    requires T.Consistent(t) && n <= |signers|
    requires SignerLoop(t, register, signers, n, user, nows).1.Some?
    ensures SignerLoop(t, register, signers, |signers|, user, nows) == SignerLoop(t, register, signers, n, user, nows)
    decreases |signers| - n
  {
    if n < |signers| { LoopStops(t, register, signers, n + 1, user, nows); }
  }

  function Signers(s: State, ctx: Ctx, register: bool, signers: seq<Addr>, user: string, nows: nat -> Stamp): Outcome
    requires s.Ok()
  {
    var denied := PermCheck(ctx, PERM_ADMIN);
    if denied.Some? then Refuse(s, Denied(denied.value))
    else
      var r := SignerLoop(s.t, register, signers, |signers|, user, nows);
      (s.(t := r.0), r.1)
  }

  // ---------- listing miners ----------

  // Admins ask for anybody, others for themselves.
  function UserPermCheck(ctx: Ctx, user: string): Option<PermError>
  {
    if IsAdmin(ctx) then None else NameCheck(ctx, user)
  }

  datatype OutputMiner = OutputMiner(miner: Addr, user: string, openMining: bool, createdAt: Time, updatedAt: Time)

  // The answer shows openMining as a plain bool and so dereferences what is stored.
  datatype MinerList = Miners(outs: seq<OutputMiner>) | ListDenied(perm: PermError) | NilDereference

  function OutputOf(m: Miner): OutputMiner
    requires m.openMining.Some?
  {
    OutputMiner(m.miner, m.user, m.openMining.value, m.createdAt, m.updatedAt)
  }

  // ---------- the gauge ----------

  // The live tokens of one permission.
  function TokensWith(t: T.Tables, perm: string): set<Id>
    requires T.Consistent(t)
  {
    set id | id in t && T.Live(t, id) && id.TokenId? && t[id].token.perm == perm
  }

  // The gauge shows, for every permission, how many live tokens the store holds.
  ghost predicate GaugeExact(s: State)
    requires s.Ok()
  {
    forall perm :: s.Gauge(perm) == |TokensWith(s.t, perm)|
  }

  // ---------- runs ----------

  datatype Call =
    | Generate(pl: Payload, secret: string, now: Stamp)
    | Remove(token: string, now: Stamp)
    | RecoverTok(token: string)
    | NewUser(user: User)
    | ChangeUser(name: string, comment: Option<string>, state: UserState, now: Stamp)
    | DropUser(name: string, clock: T.Clock)
    | RecoverUser(name: string)
    | PutLimit(limit: RateLimit)
    | DropLimit(name: string, id: string)
    | BindMiner(addr: Addr, name: string, openMining: Option<bool>, now: Stamp)
    | DropMiner(addr: Addr, now: Stamp)
    | BindSigners(register: bool, signers: seq<Addr>, name: string, nows: nat -> Stamp)
    | DropSigner(addr: Addr, clock: T.Clock)

  function Step(c: Codec, s: State, ctx: Ctx, call: Call): (r: Outcome)
    requires s.Ok()
    ensures r.0.Ok()
  {
    match call
    case Generate(pl, secret, now) => GenerateToken(c, s, ctx, pl, secret, now)
    case Remove(token, now) => RemoveToken(c, s, ctx, token, now)
    case RecoverTok(token) => RecoverToken(c, s, ctx, token)
    case NewUser(user) => CreateUser(s, ctx, user)
    case ChangeUser(name, comment, state, now) => UpdateUser(s, ctx, name, comment, state, now)
    case DropUser(name, clock) => AdminOnly(s, ctx, T.DeleteUser(s.t, name, clock))
    case RecoverUser(name) => AdminOnly(s, ctx, T.Recover(s.t, UserId(name)))
    case PutLimit(limit) => AdminOnly(s, ctx, (T.PutRateLimit(s.t, limit), T.Ok))
    case DropLimit(name, id) => AdminOnly(s, ctx, T.DelRateLimit(s.t, name, id))
    case BindMiner(a, name, openMining, now) => UpsertMiner(s, ctx, a, name, openMining, now)
    case DropMiner(a, now) => DelMiner(s, ctx, a, now)
    case BindSigners(register, signers, name, nows) => Signers(s, ctx, register, signers, name, nows)
    case DropSigner(a, clock) => DelSigner(s, ctx, a, clock)
  }

  function Run(c: Codec, s: State, calls: seq<(Ctx, Call)>): (s': State)
    requires s.Ok()
    ensures s'.Ok()
    decreases |calls|
  {
    if calls == [] then s else Run(c, Step(c, s, calls[0].0, calls[0].1).0, calls[1..])
  }
}

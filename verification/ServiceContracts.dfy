/** What each service call answers and changes, stated on the caller's list and on the rows.

Nothing here goes through the checks and the store operations that the calls are built of: a caller
is judged by the permissions and the name in its context, a row by its fields.
 */
module ServiceContracts {
  import opened Records
  import T = Tables
  import opened Permissions
  import opened Jwt
  import opened Service
  import opened StoreContracts
  import ServiceTheorems

  // ---------- who may call ----------

  predicate IsOwnToken(c: Codec, token: string, name: string)
  {
    DecodeToken(c, token).Some? && DecodeToken(c, token).value.name == name
  }

  // Admins may call everything. Others may remove and recover the tokens that carry their name, delete
  // the miners they own, and delete the bindings of an address they hold.
  predicate Allowed(c: Codec, t: T.Tables, ctx: Ctx, call: Call)
    requires T.Consistent(t)
  {
    || Granted(ctx, "admin")
    || (ctx.name.Some? && match call
        case Remove(token, _) => IsOwnToken(c, token, ctx.name.value)
        case RecoverTok(token) => IsOwnToken(c, token, ctx.name.value)
        case DropMiner(a, _) => MinerUsable(t, a) && t[MinerId(a)].miner.user == ctx.name.value
        case DropSigner(a, _) => SignerUsable(t, a, ctx.name.value)
        case _ => false)
  }

  // What a caller is told who may not.
  function Refusal(c: Codec, ctx: Ctx, call: Call): PermError
  {
    match call
    case Remove(token, _) =>
      if DecodeToken(c, token).None? then BadToken else if ctx.name.None? then UsernameNotFound else PermissionDeny
    case RecoverTok(token) =>
      if DecodeToken(c, token).None? then BadToken else if ctx.name.None? then UsernameNotFound else PermissionDeny
    case DropMiner(_, _) => if ctx.name.None? then UsernameNotFound else PermissionDeny
    case DropSigner(_, _) => if ctx.name.None? then UsernameNotFound else PermissionDeny
    case _ => if ctx.perms.None? then PermissionNotFound else PermissionDeny
  }

  // The gate in front of every call that changes something: it refuses exactly the callers who may
  // not, and then nothing changes.
  lemma GateExact(c: Codec, s: State, ctx: Ctx, call: Call)
    requires s.Ok()
    ensures var (s', e) := Step(c, s, ctx, call);
      && ((e.Some? && e.value.Denied?) <==> !Allowed(c, s.t, ctx, call))
      && (!Allowed(c, s.t, ctx, call) ==> s' == s && e == Some(Denied(Refusal(c, ctx, call))))
  {
    hide Sign, DecodeToken, T.SoftDelete, T.Recover, T.DeleteUser, T.UpsertMiner, T.DelSigner, T.PutRateLimit;
    hide T.DelRateLimit, T.RegisterSigner, T.UnregisterSigner, T.PutUser;
    LiveIsUsable(s.t);
    if call.BindSigners? { LoopNotDenied(s.t, call.register, call.signers, |call.signers|, call.name, call.nows); }
  }

  lemma {:induction false} LoopNotDenied(t: T.Tables, register: bool, signers: seq<Addr>, n: nat, user: string,
                                         nows: nat -> Stamp)
    requires T.Consistent(t) && n <= |signers|
    ensures var e := SignerLoop(t, register, signers, n, user, nows).1; e.Some? ==> !e.value.Denied?
  {
    if n > 0 { LoopNotDenied(t, register, signers, n - 1, user, nows); }
  }

  // In particular a caller with neither permissions nor a name changes nothing and learns nothing.
  lemma NobodyDoesNothing(c: Codec, s: State, call: Call, token: string)
    requires s.Ok()
    ensures Step(c, s, Ctx(None, None), call).0 == s
    ensures Step(c, s, Ctx(None, None), call).1.Some? && Step(c, s, Ctx(None, None), call).1.value.Denied?
    ensures Verify(c, s, Ctx(None, None), token).Rejected?
  {
    hide Step, Sign, DecodeToken, SignatureHolds;
    GateExact(c, s, Ctx(None, None), call);
  }

  // ---------- tokens ----------

  // An admin gets a token exactly for a user who is there; the token is stored with its fields and
  // counted, unless the same token is there already.
  lemma GenerateExact(c: Codec, s: State, ctx: Ctx, pl: Payload, secret: string, now: Stamp)
    requires s.Ok() && Granted(ctx, "admin")
    ensures var (s', e) := Step(c, s, ctx, Generate(pl, secret, now));
      var token := Sign(c, pl, secret);
      && (e.None? <==> UserUsable(s.t, pl.name))
      && (e.Some? ==> s' == s && e == Some(NoSuchUser))
      && (e.None? && TokenUsable(s.t, token) ==> s' == s)
      && (e.None? && !TokenUsable(s.t, token) ==>
           && T.Holds(s'.t, TokenId(token), TokenRec(KeyPair(pl.name, pl.perm, secret, pl.extra, token, now, 0)))
           && OthersKept(s.t, s'.t, TokenId(token))
           && forall p :: s'.Gauge(p) == s.Gauge(p) + if p == pl.perm then 1 else 0)
  {
    hide Sign;
    LiveIsUsable(s.t);
  }

  // A generated token verifies for every reader, with the payload it was generated for.
  lemma GeneratedVerifies(c: Codec, s: State, ctx: Ctx, pl: Payload, secret: string, now: Stamp, reader: Ctx)
    requires c.Valid() && s.Ok() && ServiceTheorems.Signed(c, s.t) && Granted(reader, "read")
    ensures var (s', e) := Step(c, s, ctx, Generate(pl, secret, now));
      e.None? ==> Verify(c, s', reader, Sign(c, pl, secret)) == Verified(pl)
  {
    hide Sign, DecodeToken, SignatureHolds, ServiceTheorems.Signed;
    var (s', e) := Step(c, s, ctx, Generate(pl, secret, now));
    if e.None? {
      ServiceTheorems.StepSigned(c, s, ctx, Generate(pl, secret, now));
      ServiceTheorems.StoredDecodes(c, s'.t, Sign(c, pl, secret));
      SignDecodes(c, pl, secret);
    }
  }

  // Verify looks, in this order, at the token's text, the caller's permission, the store and the
  // signature.
  lemma VerifyExact(c: Codec, s: State, ctx: Ctx, token: string)
    requires s.Ok()
    ensures var v, payload := Verify(c, s, ctx, token), DecodeToken(c, token);
      && (v.Verified? <==>
           && payload.Some? && Granted(ctx, "read") && TokenUsable(s.t, token)
           && SignatureHolds(c, token, s.t[TokenId(token)].token.secret))
      && (v.Verified? ==> v.payload == payload.value)
      && (payload.None? ==> v == Rejected(Denied(BadToken)))
      && (payload.Some? && !Granted(ctx, "read") ==>
           v == Rejected(Denied(if ctx.perms.None? then PermissionNotFound else PermissionDeny)))
      && (payload.Some? && Granted(ctx, "read") && !TokenUsable(s.t, token) ==>
           v == Rejected(StoreError(T.KeyNotFound)))
      && (v == Rejected(VerificationFailed) ==> TokenUsable(s.t, token))
  {
    hide DecodeToken, SignatureHolds;
    LiveIsUsable(s.t);
  }

  // Removing sets the flag of a usable token, recovering clears the flag of a removed one; the gauge of
  // its permission follows.
  lemma RemoveExact(c: Codec, s: State, ctx: Ctx, token: string, now: Stamp)
    requires c.Valid() && s.Ok() && ServiceTheorems.Signed(c, s.t) && Allowed(c, s.t, ctx, Remove(token, now))
    ensures var (s', e) := Step(c, s, ctx, Remove(token, now));
      && (e.None? <==> TokenUsable(s.t, token))
      && (e.Some? ==> s' == s && e == Some(StoreError(if TokenId(token) in s.t then T.NotExist else T.KeyNotFound)))
      && (e.None? ==>
           var kp := s.t[TokenId(token)].token;
           && T.Holds(s'.t, TokenId(token), TokenRec(kp.(isDeleted := 1))) && OthersKept(s.t, s'.t, TokenId(token))
           && forall p :: s'.Gauge(p) == s.Gauge(p) - if p == kp.perm then 1 else 0)
  {
    hide Sign, DecodeToken, SignatureHolds, ServiceTheorems.Signed;
    LiveIsUsable(s.t);
    if TokenId(token) in s.t { ServiceTheorems.StoredDecodes(c, s.t, token); }
  }

  lemma RecoverExact(c: Codec, s: State, ctx: Ctx, token: string)
    requires c.Valid() && s.Ok() && ServiceTheorems.Signed(c, s.t) && Allowed(c, s.t, ctx, RecoverTok(token))
    ensures var (s', e) := Step(c, s, ctx, RecoverTok(token));
      && (e.None? <==> TokenId(token) in s.t && s.t[TokenId(token)].token.isDeleted != 0)
      && (e.Some? ==> s' == s && e == Some(StoreError(if TokenId(token) in s.t then T.NotDeleted else T.KeyNotFound)))
      && (e.None? ==>
           var kp := s.t[TokenId(token)].token;
           && T.Holds(s'.t, TokenId(token), TokenRec(kp.(isDeleted := 0))) && OthersKept(s.t, s'.t, TokenId(token))
           && forall p :: s'.Gauge(p) == s.Gauge(p) + if p == kp.perm then 1 else 0)
  {
    hide Sign, DecodeToken, SignatureHolds, ServiceTheorems.Signed;
    LiveIsUsable(s.t);
    if TokenId(token) in s.t { ServiceTheorems.StoredDecodes(c, s.t, token); }
  }

  // ---------- users ----------

  // A new user is there afterwards with the fields given, whatever tombstone its name had.
  lemma CreateUserExact(c: Codec, s: State, ctx: Ctx, user: User)
    requires s.Ok() && Granted(ctx, "admin")
    ensures var (s', e) := Step(c, s, ctx, NewUser(user));
      && (e.None? <==> !UserUsable(s.t, user.name))
      && (e.Some? ==> s' == s && e == Some(UserExists))
      && (e.None? ==>
           && T.Holds(s'.t, UserId(user.name), UserRec(user.(isDeleted := 0), "")) && UserUsable(s'.t, user.name)
           && OthersKept(s.t, s'.t, UserId(user.name)) && s'.gauge == s.gauge)
  {
    LiveIsUsable(s.t);
  }

  // Changing a user keeps its identity, its creation time and its flag.
  lemma UpdateUserExact(c: Codec, s: State, ctx: Ctx, name: string, comment: Option<string>, state: UserState,
                        now: Stamp)
    requires s.Ok() && Granted(ctx, "admin")
    ensures var (s', e) := Step(c, s, ctx, ChangeUser(name, comment, state, now));
      && (e.None? <==> UserUsable(s.t, name))
      && (e.Some? ==> s' == s && e == Some(StoreError(T.KeyNotFound)))
      && (e.None? ==>
           && UserUsable(s'.t, name) && OthersKept(s.t, s'.t, UserId(name)) && s'.gauge == s.gauge
           && var old', new' := s.t[UserId(name)].user, s'.t[UserId(name)].user;
             && new'.id == old'.id && new'.name == name && new'.createTime == old'.createTime
             && new'.isDeleted == old'.isDeleted && new'.updateTime == now
             && new'.comment == (if comment == None then old'.comment else comment.value)
             && new'.state == (if state == 0 then old'.state else state)
             && s'.t[UserId(name)].legacyMiner == "")
  {
    LiveIsUsable(s.t);
  }

  // Deleting a user sets its flag and the deletion time of its miners and bindings.
  lemma DropUserExact(c: Codec, s: State, ctx: Ctx, name: string, clock: T.Clock)
    requires s.Ok() && Granted(ctx, "admin")
    ensures var (s', e) := Step(c, s, ctx, DropUser(name, clock));
      && (e.None? <==> UserUsable(s.t, name))
      && (e.Some? ==> s' == s && e == Some(StoreError(if UserId(name) in s.t then T.NotExist else T.KeyNotFound)))
      && s'.t.Keys == s.t.Keys && s'.gauge == s.gauge
      && (e.None? ==> forall id | id in s.t ::
           s'.t[id] == if Belongs(s.t, id, name) then Deleted(s.t[id], clock(id)) else s.t[id])
  {
    LiveIsUsable(s.t);
    hide T.Tombstone, T.Cascade, Belongs, Deleted;
    SameRows(s.t, name, clock);
    forall id | id in s.t && T.Live(s.t, UserId(name))
      ensures id in T.DeleteUser(s.t, name, clock).0 && T.DeleteUser(s.t, name, clock).0[id] ==
              if Belongs(s.t, id, name) then Deleted(s.t[id], clock(id)) else s.t[id]
    {
      CascadeRow(s.t, name, clock, id);
    }
  }

  lemma CascadeRow(t: T.Tables, name: string, clock: T.Clock, id: Id)
    requires T.Consistent(t) && id in t && T.Live(t, UserId(name))
    ensures id in T.DeleteUser(t, name, clock).0
    ensures T.DeleteUser(t, name, clock).0[id] == if Belongs(t, id, name) then Deleted(t[id], clock(id)) else t[id]
  {
    LiveIsUsable(t);
  }

  lemma SameRows(t: T.Tables, name: string, clock: T.Clock)
    requires T.Consistent(t)
    ensures T.DeleteUser(t, name, clock).0.Keys == t.Keys
  {
  }

  lemma RecoverUserExact(c: Codec, s: State, ctx: Ctx, name: string)
    requires s.Ok() && Granted(ctx, "admin")
    ensures var (s', e) := Step(c, s, ctx, RecoverUser(name));
      && (e.None? <==> UserId(name) in s.t && s.t[UserId(name)].user.isDeleted != 0)
      && (e.Some? ==> s' == s && e == Some(StoreError(if UserId(name) in s.t then T.NotDeleted else T.KeyNotFound)))
      && (e.None? ==>
           && T.Holds(s'.t, UserId(name), UserRec(s.t[UserId(name)].user.(isDeleted := 0), ""))
           && OthersKept(s.t, s'.t, UserId(name)) && s'.gauge == s.gauge)
  {
  }

  // ---------- rate limits ----------

  lemma PutLimitExact(c: Codec, s: State, ctx: Ctx, limit: RateLimit)
    requires s.Ok() && Granted(ctx, "admin")
    ensures var (s', e) := Step(c, s, ctx, PutLimit(limit));
      var row := LimitId(limit.name);
      && e.None? && OthersKept(s.t, s'.t, row) && s'.gauge == s.gauge && row in s'.t
      && var limits := s'.t[row].limits;
        && limit.id in limits && limits[limit.id] == limit
        && forall i | i != limit.id ::
             (i in limits <==> row in s.t && i in s.t[row].limits) && (i in limits ==> limits[i] == s.t[row].limits[i])
  {
  }

  // Deleting an id the user has drops the row with all its limits; any other id is ignored.
  lemma DropLimitExact(c: Codec, s: State, ctx: Ctx, name: string, id: string)
    requires s.Ok() && Granted(ctx, "admin")
    ensures var (s', e) := Step(c, s, ctx, DropLimit(name, id));
      var row := LimitId(name);
      && (e.None? <==> name != "" && id != "" && row in s.t)
      && (e.Some? ==>
           s' == s && e == Some(StoreError(if name == "" || id == "" then T.ArgumentMissing else T.KeyNotFound)))
      && (e.None? && id !in s.t[row].limits ==> s' == s)
      && (e.None? && id in s.t[row].limits ==> row !in s'.t && OthersKept(s.t, s'.t, row) && s'.gauge == s.gauge)
  {
  }

  // ---------- miners ----------

  // Binding needs an ID address and a recorded user. The miner is the user's afterwards, and keeps the
  // time at which it was first recorded.
  lemma BindMinerExact(c: Codec, s: State, ctx: Ctx, a: Addr, user: string, openMining: Option<bool>, now: Stamp)
    requires s.Ok() && Granted(ctx, "admin")
    ensures var (s', e) := Step(c, s, ctx, BindMiner(a, user, openMining, now));
      && (e.None? <==> |a| >= 2 && a[1] == '0' && UserId(user) in s.t)
      && (e.Some? ==> s' == s && e == Some(if |a| >= 2 && a[1] == '0' then StoreError(T.UserMissing) else BadProtocol))
      && (e.None? ==>
           && MinerUsable(s'.t, a) && OthersKept(s.t, s'.t, MinerId(a)) && s'.gauge == s.gauge
           && s'.t[MinerId(a)].miner == Miner(a, user, openMining,
                if MinerId(a) in s.t then s.t[MinerId(a)].miner.createdAt else now, now, DeletedAt(true, 0)))
  {
  }

  lemma DropMinerExact(c: Codec, s: State, ctx: Ctx, a: Addr, now: Stamp)
    requires s.Ok() && Allowed(c, s.t, ctx, DropMiner(a, now))
    ensures var (s', e) := Step(c, s, ctx, DropMiner(a, now));
      && (e.None? <==> MinerId(a) !in s.t || MinerUsable(s.t, a))
      && (e.Some? ==> s' == s && e == Some(StoreError(T.NotExist)))
      && (e.None? && MinerId(a) !in s.t ==> s' == s)
      && (e.None? && MinerId(a) in s.t ==>
           && T.Holds(s'.t, MinerId(a), MinerRec(s.t[MinerId(a)].miner.(deletedAt := DeletedAt(true, now))))
           && !MinerUsable(s'.t, a) && OthersKept(s.t, s'.t, MinerId(a)) && s'.gauge == s.gauge)
  {
    LiveIsUsable(s.t);
  }

  // ---------- signers ----------

  predicate SignerProtocol(a: Addr) { |a| >= 2 && (a[1] == '1' || a[1] == '3' || a[1] == '4') }

  lemma ProtocolDigits(a: Addr)
    ensures IsSignerAddress(a) <==> SignerProtocol(a)
  {
  }

  // Is the binding one of the first `n` of the list?
  predicate Among(id: Id, signers: seq<Addr>, n: nat, user: string)
    requires n <= |signers|
  {
    id.SignerId? && id.user == user && id.signer in signers[..n]
  }

  // The loop touches none but the bindings of the list, and removes no row.
  lemma {:induction false} LoopTouches(t: T.Tables, register: bool, signers: seq<Addr>, n: nat, user: string,
                                       nows: nat -> Stamp, id: Id)
    requires T.Consistent(t) && n <= |signers|
    ensures var t' := SignerLoop(t, register, signers, n, user, nows).0;
      (id in t ==> id in t') && (!Among(id, signers, n, user) ==> SameRow(t, t', id))
  {
    hide T.RegisterSigner, T.UnregisterSigner, SignerUsable, IsSignerAddress;
    if n > 0 {
      var before, a := SignerLoop(t, register, signers, n - 1, user, nows).0, signers[n - 1];
      LoopTouches(t, register, signers, n - 1, user, nows, id);
      RegisterOne(before, a, user, nows(n - 1));
      UnregisterOne(before, a, user, nows(n - 1));
      assert signers[..n] == signers[..n - 1] + [a];
      assert SameRow(before, SignerLoop(t, register, signers, n, user, nows).0, id) || id == SignerId(a, user);
    }
  }

  // After registering the first `n` addresses the user holds each of them, and a binding recorded
  // before keeps its creation time. That fails only for want of the protocol or the user.
  lemma {:induction false} RegisterLoop(t: T.Tables, signers: seq<Addr>, n: nat, user: string, nows: nat -> Stamp)
    requires T.Consistent(t) && n <= |signers|
    ensures var (t', e) := SignerLoop(t, true, signers, n, user, nows);
      && (e.None? <==> (forall i | 0 <= i < n :: SignerProtocol(signers[i])) && (n > 0 ==> UserId(user) in t))
      && (e.None? ==> forall i | 0 <= i < n :: SignerUsable(t', signers[i], user))
      && (forall a: Addr | SignerId(a, user) in t ::
           SignerId(a, user) in t' && t'[SignerId(a, user)].signer.createdAt == t[SignerId(a, user)].signer.createdAt)
  {
    hide T.RegisterSigner, IsSignerAddress, SignerUsable, SignerProtocol;
    if n > 0 {
      RegisterLoop(t, signers, n - 1, user, nows);
      var (before, e) := SignerLoop(t, true, signers, n - 1, user, nows);
      var a := signers[n - 1];
      ProtocolDigits(a);
      LoopTouches(t, true, signers, n - 1, user, nows, UserId(user));
      RegisterOne(before, a, user, nows(n - 1));
      var t' := SignerLoop(t, true, signers, n, user, nows).0;
      forall b: Addr | b != a ensures SameRow(before, t', SignerId(b, user))
        ensures SignerUsable(t', b, user) <==> SignerUsable(before, b, user)
      {
        assert e.None? && SignerProtocol(a) ==> SameRow(before, t', SignerId(b, user));
        SameRowUsable(before, t', b, user);
      }
    }
  }

  // A binding that is registered shows the time of its last turn in the list.
  lemma {:induction false} RegisteredRow(t: T.Tables, signers: seq<Addr>, n: nat, user: string, nows: nat -> Stamp,
                                         i: nat)
    requires T.Consistent(t) && i < n <= |signers| && signers[i] !in signers[i + 1..n]
    requires SignerLoop(t, true, signers, n, user, nows).1.None?
    ensures var t' := SignerLoop(t, true, signers, n, user, nows).0;
      && SignerId(signers[i], user) in t'
      && var signer := t'[SignerId(signers[i], user)].signer;
         signer.updatedAt == nows(i) && signer.deletedAt == DeletedAt(true, 0)
  {
    hide T.RegisterSigner, IsSignerAddress, SignerUsable, SignerProtocol;
    var before := SignerLoop(t, true, signers, n - 1, user, nows).0;
    RegisterOne(before, signers[n - 1], user, nows(n - 1));
    if i < n - 1 {
      assert signers[i + 1..n] == signers[i + 1..n - 1] + [signers[n - 1]];
      RegisteredRow(t, signers, n - 1, user, nows, i);
      assert SameRow(before, SignerLoop(t, true, signers, n, user, nows).0, SignerId(signers[i], user));
    }
  }

  lemma SameRowUsable(t: T.Tables, t': T.Tables, a: Addr, user: string)
    requires T.Consistent(t) && T.Consistent(t') && SameRow(t, t', SignerId(a, user))
    ensures SignerUsable(t', a, user) <==> SignerUsable(t, a, user)
  {
  }

  lemma RegisterOne(t: T.Tables, a: Addr, user: string, now: Stamp)
    requires T.Consistent(t)
    ensures var (t', st) := T.RegisterSigner(t, a, user, now);
      && (st.Ok? <==> UserId(user) in t) && (!st.Ok? ==> t' == t && st == T.UserMissing)
      && (st.Ok? ==>
           && OthersKept(t, t', SignerId(a, user)) && SignerUsable(t', a, user)
           && t'[SignerId(a, user)].signer == Signer(a, user,
                if SignerId(a, user) in t then t[SignerId(a, user)].signer.createdAt else now, now, DeletedAt(true, 0)))
  {
  }

  // May the `i`-th address of the list be unregistered? One never recorded is passed over; one that is
  // deleted already, or listed twice, is an error.
  predicate Unregistrable(t: T.Tables, signers: seq<Addr>, i: nat, user: string)
    requires T.Consistent(t) && i < |signers|
  {
    && SignerProtocol(signers[i])
    && (SignerId(signers[i], user) in t ==> SignerUsable(t, signers[i], user) && signers[i] !in signers[..i])
  }

  // After unregistering the first `n` addresses the user holds none of them.
  lemma {:induction false} UnregisterLoop(t: T.Tables, signers: seq<Addr>, n: nat, user: string, nows: nat -> Stamp)
    requires T.Consistent(t) && n <= |signers|
    ensures var (t', e) := SignerLoop(t, false, signers, n, user, nows);
      && (e.None? <==> forall i | 0 <= i < n :: Unregistrable(t, signers, i, user))
      && (e.None? ==> forall i | 0 <= i < n :: !SignerUsable(t', signers[i], user))
      && (forall a | SignerId(a, user) in t' :: SignerId(a, user) in t)
  {
    hide T.UnregisterSigner, IsSignerAddress, Unset, SignerProtocol;
    if n > 0 {
      UnregisterLoop(t, signers, n - 1, user, nows);
      var (before, e) := SignerLoop(t, false, signers, n - 1, user, nows);
      var a := signers[n - 1];
      ProtocolDigits(a);
      LoopTouches(t, false, signers, n - 1, user, nows, SignerId(a, user));
      UnregisterOne(before, a, user, nows(n - 1));
      if a in signers[..n - 1] {
        var i :| 0 <= i < n - 1 && signers[i] == a;
        assert e.None? ==> !SignerUsable(before, signers[i], user);
      } else {
        assert !Among(SignerId(a, user), signers, n - 1, user);
        SameRowUsable(t, before, a, user);
      }
      var now := SignerLoop(t, false, signers, n, user, nows).1;
      assert now.None? <==> e.None? && Unregistrable(t, signers, n - 1, user);
      assert (forall i | 0 <= i < n :: Unregistrable(t, signers, i, user)) <==>
        (forall i | 0 <= i < n - 1 :: Unregistrable(t, signers, i, user)) && Unregistrable(t, signers, n - 1, user);
      var t' := SignerLoop(t, false, signers, n, user, nows).0;
      forall b: Addr | b != a ensures SameRow(before, t', SignerId(b, user))
        ensures SignerUsable(t', b, user) <==> SignerUsable(before, b, user)
      {
        assert e.None? && SignerProtocol(a) ==> SameRow(before, t', SignerId(b, user));
        SameRowUsable(before, t', b, user);
      }
    }
  }

  // A binding that is unregistered is kept, with its time of deletion.
  lemma {:induction false} UnregisteredRow(t: T.Tables, signers: seq<Addr>, n: nat, user: string, nows: nat -> Stamp,
                                           i: nat)
    requires T.Consistent(t) && i < n <= |signers| && SignerId(signers[i], user) in t
    requires SignerLoop(t, false, signers, n, user, nows).1.None?
    ensures T.Holds(SignerLoop(t, false, signers, n, user, nows).0, SignerId(signers[i], user),
      SignerRec(t[SignerId(signers[i], user)].signer.(deletedAt := DeletedAt(true, nows(i)))))
  {
    hide T.UnregisterSigner, IsSignerAddress, SignerUsable, SignerProtocol;
    var before := SignerLoop(t, false, signers, n - 1, user, nows).0;
    UnregisterLoop(t, signers, n, user, nows);
    UnregisterOne(before, signers[n - 1], user, nows(n - 1));
    if i < n - 1 {
      UnregisteredRow(t, signers, n - 1, user, nows, i);
      assert Unregistrable(t, signers, n - 1, user);
      assert signers[i] in signers[..n - 1];
      if signers[i] == signers[n - 1] { assert false; }
      assert SameRow(before, SignerLoop(t, false, signers, n, user, nows).0, SignerId(signers[i], user));
    } else {
      assert Unregistrable(t, signers, i, user);
      LoopTouches(t, false, signers, i, user, nows, SignerId(signers[i], user));
    }
  }

  lemma UnregisterOne(t: T.Tables, a: Addr, user: string, now: Stamp)
    requires T.Consistent(t)
    ensures var (t', st) := T.UnregisterSigner(t, a, user, now);
      var id := SignerId(a, user);
      && (st.Ok? <==> id !in t || SignerUsable(t, a, user)) && (!st.Ok? ==> t' == t && st == T.NotExist)
      && (st.Ok? && id !in t ==> t' == t)
      && (st.Ok? && id in t ==>
           && OthersKept(t, t', id) && !SignerUsable(t', a, user)
           && T.Holds(t', id, SignerRec(t[id].signer.(deletedAt := DeletedAt(true, now)))))
  {
  }

  // A loop that fails has dealt with the addresses before one of them, as above, and with no other.
  lemma {:induction false} LoopFailsAt(t: T.Tables, register: bool, signers: seq<Addr>, n: nat, user: string,
                                       nows: nat -> Stamp)
    returns (k: nat)
    requires T.Consistent(t) && n <= |signers|
    requires SignerLoop(t, register, signers, n, user, nows).1.Some?
    ensures k < n
    ensures var (t', e) := SignerLoop(t, register, signers, n, user, nows);
      && SignerLoop(t, register, signers, k, user, nows) == (t', None)
      && e == Some(if !SignerProtocol(signers[k]) then BadProtocol
                   else if register then StoreError(T.UserMissing) else StoreError(T.NotExist))
      && (SignerProtocol(signers[k]) ==>
           if register then UserId(user) !in t'
           else SignerId(signers[k], user) in t' && !SignerUsable(t', signers[k], user))
  {
    var before := SignerLoop(t, register, signers, n - 1, user, nows);
    if before.1.Some? {
      k := LoopFailsAt(t, register, signers, n - 1, user, nows);
    } else {
      k := n - 1;
      ProtocolDigits(signers[k]);
      RegisterOne(before.0, signers[k], user, nows(k));
      UnregisterOne(before.0, signers[k], user, nows(k));
    }
  }

  // The two calls: an admin binds or unbinds every address of the list, and nothing else.
  lemma RegistersExact(c: Codec, s: State, ctx: Ctx, signers: seq<Addr>, user: string, nows: nat -> Stamp)
    requires s.Ok() && Granted(ctx, "admin")
    ensures var (s', e) := Step(c, s, ctx, BindSigners(true, signers, user, nows));
      && s'.gauge == s.gauge
      && (e.None? <==> (forall a | a in signers :: SignerProtocol(a)) && (signers != [] ==> UserId(user) in s.t))
      && (e.None? ==> forall a | a in signers :: SignerUsable(s'.t, a, user))
      && (forall id: Id | !(id.SignerId? && id.user == user && id.signer in signers) :: SameRow(s.t, s'.t, id))
  {
    hide SignerLoop, SignerProtocol, SignerUsable;
    RegisterLoop(s.t, signers, |signers|, user, nows);
    assert signers[..|signers|] == signers;
    var t' := Step(c, s, ctx, BindSigners(true, signers, user, nows)).0.t;
    forall id: Id | !(id.SignerId? && id.user == user && id.signer in signers) ensures SameRow(s.t, t', id) {
      LoopTouches(s.t, true, signers, |signers|, user, nows, id);
    }
  }

  lemma UnregistersExact(c: Codec, s: State, ctx: Ctx, signers: seq<Addr>, user: string, nows: nat -> Stamp)
    requires s.Ok() && Granted(ctx, "admin")
    ensures var (s', e) := Step(c, s, ctx, BindSigners(false, signers, user, nows));
      && s'.gauge == s.gauge
      && (e.None? <==> forall i | 0 <= i < |signers| :: Unregistrable(s.t, signers, i, user))
      && (e.None? ==> forall a | a in signers :: !SignerUsable(s'.t, a, user))
      && (forall id: Id | !(id.SignerId? && id.user == user && id.signer in signers) :: SameRow(s.t, s'.t, id))
  {
    hide SignerLoop, SignerProtocol, SignerUsable;
    UnregisterLoop(s.t, signers, |signers|, user, nows);
    assert signers[..|signers|] == signers;
    var t' := Step(c, s, ctx, BindSigners(false, signers, user, nows)).0.t;
    forall id: Id | !(id.SignerId? && id.user == user && id.signer in signers) ensures SameRow(s.t, t', id) {
      LoopTouches(s.t, false, signers, |signers|, user, nows, id);
    }
  }

  // Deleting an address sets the deletion time of every usable binding whose address starts with it.
  lemma DropSignerExact(c: Codec, s: State, ctx: Ctx, a: Addr, clock: T.Clock)
    requires s.Ok() && Allowed(c, s.t, ctx, DropSigner(a, clock))
    ensures var (s', e) := Step(c, s, ctx, DropSigner(a, clock));
      && e.None? && s'.t.Keys == s.t.Keys && s'.gauge == s.gauge
      && (forall id | id in s.t ::
           s'.t[id] == if id.SignerId? && a <= id.signer && SignerUsable(s.t, id.signer, id.user)
                       then Deleted(s.t[id], clock(id)) else s.t[id])
  {
    LiveIsUsable(s.t);
  }

  // ---------- the frame of a caller without rights is exact ----------

  lemma OneCall(c: Codec, s: State, ctx: Ctx, call: Call)
    requires s.Ok()
    ensures Run(c, s, [(ctx, call)]) == Step(c, s, ctx, call).0
  {
    hide Step;
    assert [(ctx, call)][1..] == [];
    assert Run(c, Step(c, s, ctx, call).0, []) == Step(c, s, ctx, call).0;
  }

  lemma OwnTokenChanges(c: Codec, s: State, n: string, token: string) returns (call: Call)
    requires c.Valid() && s.Ok() && ServiceTheorems.Signed(c, s.t)
    requires TokenId(token) in s.t && s.t[TokenId(token)].token.name == n
    ensures !T.Holds(Step(c, s, Ctx(Some([]), Some(n)), call).0.t, TokenId(token), s.t[TokenId(token)])
  {
    hide Step, Sign, DecodeToken, ServiceTheorems.Signed;
    var ctx := Ctx(Some([]), Some(n));
    ServiceTheorems.StoredDecodes(c, s.t, token);
    if TokenUsable(s.t, token) {
      call := Remove(token, 1);
      RemoveExact(c, s, ctx, token, 1);
    } else {
      call := RecoverTok(token);
      RecoverExact(c, s, ctx, token);
    }
  }

  lemma OwnMinerChanges(c: Codec, s: State, n: string, a: Addr)
    requires s.Ok() && MinerUsable(s.t, a) && s.t[MinerId(a)].miner.user == n
    ensures !T.Holds(Step(c, s, Ctx(Some([]), Some(n)), DropMiner(a, 1)).0.t, MinerId(a), s.t[MinerId(a)])
  {
    hide Step;
    DropMinerExact(c, s, Ctx(Some([]), Some(n)), a, 1);
  }

  // Some run by a caller named `n` who is not an admin changes a row if and only if it is a token of
  // that name, a miner `n` owns, or a binding that a live binding of `n` reaches.
  lemma AccessFrameExact(c: Codec, s: State, n: string, id: Id)
    requires c.Valid() && s.Ok() && ServiceTheorems.Signed(c, s.t) && id in s.t
    ensures (exists calls :: ServiceTheorems.AllPlain(calls, n) && !T.Holds(Run(c, s, calls).t, id, s.t[id])) <==>
            ServiceTheorems.Within(s.t, n, id)
  {
    hide Step, Run, ServiceTheorems.Signed;
    if calls :| ServiceTheorems.AllPlain(calls, n) && !T.Holds(Run(c, s, calls).t, id, s.t[id]) {
      hide ServiceTheorems.Within;
      ServiceTheorems.AccessFrame(c, s, calls, n, id);
    }
    if ServiceTheorems.Within(s.t, n, id) {
      if id.SignerId? {
        ServiceTheorems.BindingFrameExact(c, s, n, id);
      } else {
        LiveIsUsable(s.t);
        var call := DropMiner("", 1);
        if id.TokenId? {
          call := OwnTokenChanges(c, s, n, id.token);
        } else {
          call := DropMiner(id.miner, 1);
          OwnMinerChanges(c, s, n, id.miner);
        }
        OneCall(c, s, Ctx(Some([]), Some(n)), call);
        assert ServiceTheorems.AllPlain([(Ctx(Some([]), Some(n)), call)], n);
      }
    }
  }

  // ---------- listing miners ----------

  lemma UserPermExact(ctx: Ctx, user: string)
    ensures UserPermCheck(ctx, user).None? <==> Granted(ctx, "admin") || ctx.name == Some(user)
    ensures !Granted(ctx, "admin") && ctx.name.None? ==> UserPermCheck(ctx, user) == Some(UsernameNotFound)
    ensures UserPermCheck(ctx, user).Some? && ctx.name.Some? ==> UserPermCheck(ctx, user) == Some(PermissionDeny)
  {
  }

  // No miner is stored with a nil openMining, so no list of miners fails.
  predicate Listable(t: T.Tables)
    requires T.Consistent(t)
  {
    forall id | id in t && id.MinerId? :: t[id].miner.openMining.Some?
  }

  // Runs whose requests all carry openMining, as the HTTP layer demands, keep it so ...
  lemma {:induction false} RunListable(c: Codec, s: State, calls: seq<(Ctx, Call)>)
    requires s.Ok() && Listable(s.t) && forall call | call in calls :: call.1.BindMiner? ==> call.1.openMining.Some?
    ensures Listable(Run(c, s, calls).t)
    decreases |calls|
  {
    hide Step, Listable;
    if calls != [] {
      assert calls[0] in calls;
      StepListable(c, s, calls[0].0, calls[0].1);
      RunListable(c, Step(c, s, calls[0].0, calls[0].1).0, calls[1..]);
    }
  }

  lemma StepListable(c: Codec, s: State, ctx: Ctx, call: Call)
    requires s.Ok() && Listable(s.t) && (call.BindMiner? ==> call.openMining.Some?)
    ensures Listable(Step(c, s, ctx, call).0.t)
  {
    hide T.Step;
    if call.BindSigners? {
      LoopListable(s.t, call.register, call.signers, call.name, call.nows);
    } else if Step(c, s, ctx, call).0.t != s.t {
      hide Step, Listable;
      ServiceTheorems.CallIsOp(c, s, ctx, call);
      OpListable(s.t, ServiceTheorems.OpOf(c, s, call));
    }
  }

  lemma OpListable(t: T.Tables, op: T.Op)
    requires T.Consistent(t) && Listable(t) && (op.OpUpsertMiner? ==> op.openMining.Some?)
    ensures Listable(T.Step(t, op).0)
  {
  }

  lemma LoopListable(t: T.Tables, register: bool, signers: seq<Addr>, user: string, nows: nat -> Stamp)
    requires T.Consistent(t) && Listable(t)
    ensures Listable(SignerLoop(t, register, signers, |signers|, user, nows).0)
  {
    hide SignerLoop;
    var t' := SignerLoop(t, register, signers, |signers|, user, nows).0;
    forall id | id in t' && id.MinerId? ensures t'[id].miner.openMining.Some? {
      LoopTouches(t, register, signers, |signers|, user, nows, id);
    }
  }

  // ... and one accepted request without it makes the list of its user fail.
  lemma NilMinerUnlistable(c: Codec, s: State, ctx: Ctx, a: Addr, user: string, now: Stamp)
    requires s.Ok()
    ensures var (s', e) := Step(c, s, ctx, BindMiner(a, user, None, now));
      e.None? ==> MinerId(a) in T.MinersOf(s'.t, user) && s'.t[MinerId(a)].miner.openMining.None?
  {
  }
}

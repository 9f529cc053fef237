/** jwtOAuth: the service calls run on a BadgerStore (auth/jwt.go). */
module OAuthService {
  import opened ByteOrder
  import opened Records
  import opened Pages
  import T = Tables
  import M = Migration
  import opened BadgerStore
  import opened Permissions
  import opened Jwt
  import S = Service

  class JwtOAuth {
    const codec: Codec
    const store: BadgerStore
    var gauge: map<string, int>

    ghost predicate Valid()
      reads this, store
    {
      store.Valid()
    }

    ghost function St(): S.State
      requires Valid()
      reads this, store
    {
      S.State(store.View(), gauge)
    }

    // NewOAuthService opens and migrates the store and counts its live tokens. The count is exact
    // even of a store whose migration misfiles a miner.
    constructor (codec: Codec, kv: KV, parse: M.Parse, now: Stamp)
      requires M.Typed(kv) && WellFiled(T.TokenSpace(kv))
      ensures fresh(store) && this.codec == codec && store.db.Valid() && store.db.kv == M.Migrated(kv, parse, now)
      ensures store.TokensFiled() && S.GaugeExact(S.State(store.TokenView(), gauge))
      ensures WellFiled(M.Migrated(kv, parse, now)) ==> Valid() && S.GaugeExact(St())
    {
      hide T.TablesOf, WellFiled, M.Migrated, M.Typed, S.TokensWith, T.TokenSpace;
      this.codec := codec;
      store := new BadgerStore.Open(kv, parse, now);
      gauge := map[];
      new;
      M.MigratedTokens(kv, parse, now);
      gauge := CountTokens();
      if store.Valid() {
        forall p ensures S.TokensWith(store.View(), p) == S.TokensWith(store.TokenView(), p) {
          CountedAlone(store.db.kv, p);
        }
      }
    }

    method CountTokens() returns (count: map<string, int>)
      requires store.TokensFiled()
      ensures S.GaugeExact(S.State(store.TokenView(), count))
    {
      hide T.TablesOf, T.InKeyOrder, KeyOf, IdOf, WellFiled, TokenKeys, T.Listed;
      var tokens := store.List(0, 0);
      T.ListedIsPage(T.LiveTokens(store.TokenView()), T.TokenRows(store.TokenView()), 0, 0);
      WholePage(T.InKeyOrder(T.LiveTokens(store.TokenView())));
      T.InKeyOrderIs(T.LiveTokens(store.TokenView()));
      count := map[PERM_READ := 0, PERM_WRITE := 0, PERM_SIGN := 0, PERM_ADMIN := 0];
      for i := 0 to |tokens|
        invariant forall p :: S.GaugeAt(count, p) == |Counted(tokens, i, p)|
      {
        CountOne(tokens, i);
        S.IncAdds(count, tokens[i].perm, 1);
        count := S.Inc(count, tokens[i].perm, 1);
      }
      forall p ensures Counted(tokens, |tokens|, p) == S.TokensWith(store.TokenView(), p) {
        CountedAll(store.TokenView(), tokens, p);
      }
    }

    method GenerateToken(ctx: Ctx, pl: Payload, secret: string, now: Stamp)
      returns (token: string, err: Option<S.Error>)
      requires Valid()
      modifies this, store
      ensures Valid() && (St(), err) == S.GenerateToken(codec, old(St()), ctx, pl, secret, now)
      ensures err.None? ==> token == Sign(codec, pl, secret)
    {
      hide T.TablesOf, KeyOf, IdOf, WellFiled;
      var denied := PermCheck(ctx, PERM_ADMIN);
      if denied.Some? {
        return "", Some(S.Denied(denied.value));
      }
      var exist := store.HasUser(pl.name);
      if !exist {
        return "", Some(S.NoSuchUser);
      }
      token := Sign(codec, pl, secret);
      var has := store.Has(token);
      if has {
        return token, None;
      }
      var st := store.PutToken(KeyPair(pl.name, pl.perm, secret, pl.extra, token, now, NOT_DELETE));
      gauge := S.Inc(gauge, pl.perm, 1);
      err := None;
    }

    method Verify(ctx: Ctx, token: string) returns (r: S.Verified)
      requires Valid()
      ensures r == S.Verify(codec, St(), ctx, token)
    {
      var payload := DecodeToken(codec, token);
      if payload.None? {
        return S.Rejected(S.Denied(BadToken));
      }
      var denied := PermCheck(ctx, PERM_READ);
      if denied.Some? {
        return S.Rejected(S.Denied(denied.value));
      }
      var kp := store.Get(token);
      if kp.None? {
        return S.Rejected(S.StoreError(T.KeyNotFound));
      }
      if !SignatureHolds(codec, token, kp.value.secret) {
        return S.Rejected(S.VerificationFailed);
      }
      r := S.Verified(payload.value);
    }

    method RemoveToken(ctx: Ctx, token: string, now: Stamp) returns (err: Option<S.Error>)
      requires Valid()
      modifies this, store
      ensures Valid() && (St(), err) == S.RemoveToken(codec, old(St()), ctx, token, now)
    {
      hide T.TablesOf, KeyOf, IdOf, WellFiled;
      var denied := S.TokenPermCheck(codec, ctx, token);
      if denied.Some? {
        return Some(S.Denied(denied.value));
      }
      var st := store.Delete(token, now);
      if !st.Ok? {
        return Some(S.StoreError(st));
      }
      err := MoveGauge(token, -1);
    }

    method RecoverToken(ctx: Ctx, token: string) returns (err: Option<S.Error>)
      requires Valid()
      modifies this, store
      ensures Valid() && (St(), err) == S.RecoverToken(codec, old(St()), ctx, token)
    {
      hide T.TablesOf, KeyOf, IdOf, WellFiled;
      var denied := S.TokenPermCheck(codec, ctx, token);
      if denied.Some? {
        return Some(S.Denied(denied.value));
      }
      var st := store.Recover(token);
      if !st.Ok? {
        return Some(S.StoreError(st));
      }
      err := MoveGauge(token, 1);
    }

    // The caller dereferences the decoded payload without looking at the error.
    method MoveGauge(token: string, delta: int) returns (err: Option<S.Error>)
      requires Valid()
      modifies this
      ensures Valid() && store.db == old(store.db)
      ensures (St(), err) == S.MoveGauge(codec, old(St()), (old(store.View()), T.Ok), token, delta)
    {
      var payload := DecodeToken(codec, token);
      if payload.None? {
        return Some(S.Panicked);
      }
      gauge := S.Inc(gauge, payload.value.perm, delta);
      err := None;
    }

    method CreateUser(ctx: Ctx, id: string, name: string, comment: Option<string>, state: UserState, now: Stamp)
      returns (err: Option<S.Error>)
      requires Valid()
      modifies this, store
      ensures Valid()
      ensures (St(), err) == S.CreateUser(old(St()), ctx,
        User(id, name, if comment.Some? then comment.value else "", state, now, now, NOT_DELETE))
    {
      var denied := PermCheck(ctx, PERM_ADMIN);
      if denied.Some? {
        return Some(S.Denied(denied.value));
      }
      var exist := store.HasUser(name);
      if exist {
        return Some(S.UserExists);
      }
      var user := User(id, name, "", state, now, now, NOT_DELETE);
      if comment.Some? {
        user := user.(comment := comment.value);
      }
      var st := store.PutUser(user);
      err := None;
    }

    method UpdateUser(ctx: Ctx, name: string, comment: Option<string>, state: UserState, now: Stamp)
      returns (err: Option<S.Error>)
      requires Valid()
      modifies this, store
      ensures Valid() && (St(), err) == S.UpdateUser(old(St()), ctx, name, comment, state, now)
    {
      hide T.TablesOf, KeyOf, IdOf, WellFiled;
      var denied := PermCheck(ctx, PERM_ADMIN);
      if denied.Some? {
        return Some(S.Denied(denied.value));
      }
      var found := store.GetUser(name);
      if found.None? {
        return Some(S.StoreError(T.KeyNotFound));
      }
      assert store.View()[UserId(name)].Filed(UserId(name));
      var user := found.value.(updateTime := now);
      if comment.Some? {
        user := user.(comment := comment.value);
      }
      if state != USER_STATE_UNDEFINED {
        user := user.(state := state);
      }
      var st := store.PutUser(user);
      err := None;
    }

    method DeleteUser(ctx: Ctx, name: string, clock: T.Clock) returns (err: Option<S.Error>)
      requires Valid()
      modifies this, store
      ensures Valid() && (St(), err) == S.AdminOnly(old(St()), ctx, T.DeleteUser(old(St()).t, name, clock))
    {
      var denied := PermCheck(ctx, PERM_ADMIN);
      if denied.Some? {
        return Some(S.Denied(denied.value));
      }
      var st := store.DeleteUser(name, clock);
      err := if st.Ok? then None else Some(S.StoreError(st));
    }

    method RecoverUser(ctx: Ctx, name: string) returns (err: Option<S.Error>)
      requires Valid()
      modifies this, store
      ensures Valid() && (St(), err) == S.AdminOnly(old(St()), ctx, T.Recover(old(St()).t, UserId(name)))
    {
      var denied := PermCheck(ctx, PERM_ADMIN);
      if denied.Some? {
        return Some(S.Denied(denied.value));
      }
      var st := store.RecoverUser(name);
      err := if st.Ok? then None else Some(S.StoreError(st));
    }

    method UpsertUserRateLimit(ctx: Ctx, limit: RateLimit, uuid: string) returns (id: string, err: Option<S.Error>)
      requires Valid()
      modifies this, store
      ensures Valid()
      ensures var filed := limit.(id := if limit.id == "" then uuid else limit.id);
        && (St(), err) == S.AdminOnly(old(St()), ctx, (T.PutRateLimit(old(St()).t, filed), T.Ok))
        && (err.None? ==> id == filed.id)
    {
      var denied := PermCheck(ctx, PERM_ADMIN);
      if denied.Some? {
        return "nil", Some(S.Denied(denied.value));
      }
      var st;
      id, st := store.PutRateLimit(limit, uuid);
      err := None;
    }

    method DelUserRateLimit(ctx: Ctx, name: string, id: string) returns (err: Option<S.Error>)
      requires Valid()
      modifies this, store
      ensures Valid() && (St(), err) == S.AdminOnly(old(St()), ctx, T.DelRateLimit(old(St()).t, name, id))
    {
      var denied := PermCheck(ctx, PERM_ADMIN);
      if denied.Some? {
        return Some(S.Denied(denied.value));
      }
      var st := store.DelRateLimit(name, id);
      err := if st.Ok? then None else Some(S.StoreError(st));
    }

    method UpsertMiner(ctx: Ctx, a: Addr, user: string, openMining: Option<bool>, now: Stamp)
      returns (isCreate: bool, err: Option<S.Error>)
      requires Valid()
      modifies this, store
      ensures Valid() && (St(), err) == S.UpsertMiner(old(St()), ctx, a, user, openMining, now)
      ensures isCreate <==> err.None? && MinerId(a) !in old(St()).t
    {
      var denied := PermCheck(ctx, PERM_ADMIN);
      if denied.Some? {
        return false, Some(S.Denied(denied.value));
      }
      if !S.ProtocolOf(a).ID? {
        return false, Some(S.BadProtocol);
      }
      var st;
      isCreate, st := store.UpsertMiner(a, user, openMining, now);
      err := if st.Ok? then None else Some(S.StoreError(st));
    }

    // Fails on a miner whose openMining is nil.
    method ListMiners(ctx: Ctx, user: string) returns (r: S.MinerList)
      requires Valid()
      ensures r.ListDenied? <==> S.UserPermCheck(ctx, user).Some?
      ensures r.ListDenied? ==> r.perm == S.UserPermCheck(ctx, user).value
      ensures r.NilDereference? <==>
              !r.ListDenied? && exists id :: id in T.MinersOf(St().t, user) && St().t[id].miner.openMining.None?
      ensures r.Miners? ==> OutKeys(r.outs) == T.InKeyOrder(T.MinersOf(St().t, user))
      ensures r.Miners? ==> forall o | o in r.outs :: Shows(St().t, o)
    {
      hide T.TablesOf, KeyOf, IdOf, WellFiled, T.InKeyOrder;
      var denied := S.UserPermCheck(ctx, user);
      if denied.Some? {
        return S.ListDenied(denied.value);
      }
      var miners := store.ListMiners(user);
      T.InKeyOrderIs(T.MinersOf(store.View(), user));
      var outs: seq<S.OutputMiner> := [];
      for i := 0 to |miners|
        invariant OutKeys(outs) == MinerKeys(miners)[..i]
        invariant forall o | o in outs :: Shows(St().t, o)
        invariant forall j | 0 <= j < i :: miners[j].openMining.Some?
      {
        assert miners[i] in miners;
        if miners[i].openMining.None? {
          assert KeyOf(MinerId(miners[i].miner)) == MinerKeys(miners)[i];
          assert MinerId(miners[i].miner) in T.MinersOf(St().t, user);
          return S.NilDereference;
        }
        assert MinerKeys(miners)[..i + 1] == MinerKeys(miners)[..i] + [MinerKeys(miners)[i]];
        outs := outs + [S.OutputOf(miners[i])];
      }
      assert MinerKeys(miners)[..|miners|] == MinerKeys(miners);
      forall id | id in T.MinersOf(St().t, user) ensures St().t[id].miner.openMining.Some? {
        var i := ListedMiner(miners, id);
      }
      r := S.Miners(outs);
    }

    method DelMiner(ctx: Ctx, a: Addr, now: Stamp) returns (existed: bool, err: Option<S.Error>)
      requires Valid()
      modifies this, store
      ensures Valid() && (St(), err) == S.DelMiner(old(St()), ctx, a, now)
      ensures existed <==> err.None? && T.Live(old(St()).t, MinerId(a))
    {
      hide T.TablesOf, KeyOf, IdOf, WellFiled;
      if PermCheck(ctx, PERM_ADMIN).Some? {
        if ctx.name.None? {
          return false, Some(S.Denied(UsernameNotFound));
        }
        var has := store.MinerExistInUser(a, ctx.name.value);
        if !has {
          return false, Some(S.Denied(PermissionDeny));
        }
      }
      var st;
      existed, st := store.DelMiner(a, now);
      err := if st.Ok? then None else Some(S.StoreError(st));
    }

    method RegisterSigners(ctx: Ctx, signers: seq<Addr>, user: string, nows: nat -> Stamp)
      returns (err: Option<S.Error>)
      requires Valid()
      modifies this, store
      ensures Valid() && (St(), err) == S.Signers(old(St()), ctx, true, signers, user, nows)
    {
      hide T.TablesOf, KeyOf, IdOf, WellFiled, T.RegisterSigner, T.UnregisterSigner, S.IsSignerAddress;
      var denied := PermCheck(ctx, PERM_ADMIN);
      if denied.Some? {
        return Some(S.Denied(denied.value));
      }
      err := None;
      for i := 0 to |signers|
        invariant Valid() && gauge == old(gauge)
        invariant (store.View(), err) == S.SignerLoop(old(store.View()), true, signers, i, user, nows) && err.None?
      {
        if !S.IsSignerAddress(signers[i]) {
          S.LoopStops(old(store.View()), true, signers, i + 1, user, nows);
          return Some(S.BadProtocol);
        }
        var st := store.RegisterSigner(signers[i], user, nows(i));
        if !st.Ok? {
          S.LoopStops(old(store.View()), true, signers, i + 1, user, nows);
          return Some(S.StoreError(st));
        }
      }
    }

    method UnregisterSigners(ctx: Ctx, signers: seq<Addr>, user: string, nows: nat -> Stamp)
      returns (err: Option<S.Error>)
      requires Valid()
      modifies this, store
      ensures Valid() && (St(), err) == S.Signers(old(St()), ctx, false, signers, user, nows)
    {
      hide T.TablesOf, KeyOf, IdOf, WellFiled, T.RegisterSigner, T.UnregisterSigner, S.IsSignerAddress;
      var denied := PermCheck(ctx, PERM_ADMIN);
      if denied.Some? {
        return Some(S.Denied(denied.value));
      }
      err := None;
      for i := 0 to |signers|
        invariant Valid() && gauge == old(gauge)
        invariant (store.View(), err) == S.SignerLoop(old(store.View()), false, signers, i, user, nows) && err.None?
      {
        if !S.IsSignerAddress(signers[i]) {
          S.LoopStops(old(store.View()), false, signers, i + 1, user, nows);
          return Some(S.BadProtocol);
        }
        var st := store.InnerUnregisterSigner(signers[i], user, nows(i));
        if !st.Ok? {
          S.LoopStops(old(store.View()), false, signers, i + 1, user, nows);
          return Some(S.StoreError(st));
        }
      }
    }

    method DelSigner(ctx: Ctx, a: Addr, clock: T.Clock) returns (existed: bool, err: Option<S.Error>)
      requires Valid()
      modifies this, store
      ensures Valid() && (St(), err) == S.DelSigner(old(St()), ctx, a, clock)
      ensures existed <==> err.None? && T.ReachedBy(old(St()).t, a) != {}
    {
      hide T.TablesOf, KeyOf, IdOf, WellFiled;
      if PermCheck(ctx, PERM_ADMIN).Some? {
        if ctx.name.None? {
          return false, Some(S.Denied(UsernameNotFound));
        }
        var has := store.SignerExistInUser(a, ctx.name.value);
        if !has {
          return false, Some(S.Denied(PermissionDeny));
        }
      }
      existed := store.DelSigner(a, clock);
      err := None;
    }
  }

  function OutKeys(outs: seq<S.OutputMiner>): seq<Key>
  {
    seq(|outs|, i requires 0 <= i < |outs| => KeyOf(MinerId(outs[i].miner)))
  }

  // An entry of the answer is the miner's record.
  predicate Shows(t: T.Tables, o: S.OutputMiner)
    requires T.Consistent(t)
  {
    && MinerId(o.miner) in t
    && var m := t[MinerId(o.miner)].miner;
       m == Miner(o.miner, o.user, Some(o.openMining), o.createdAt, o.updatedAt, m.deletedAt)
  }

  lemma ListedMiner(miners: seq<Miner>, id: Id) returns (i: nat)
    requires id.MinerId? && KeyOf(id) in MinerKeys(miners)
    ensures i < |miners| && miners[i].miner == id.miner
  {
    hide KeyOf, IdOf;
    i :| 0 <= i < |miners| && MinerKeys(miners)[i] == KeyOf(id);
    KeyNamesRow(id);
    KeyNamesRow(MinerId(miners[i].miner));
  }

  // ---------- counting the tokens of a list ----------

  function Counted(tokens: seq<KeyPair>, n: nat, perm: string): set<Id>
    requires n <= |tokens|
  {
    set i | 0 <= i < n && tokens[i].perm == perm :: TokenId(tokens[i].token)
  }

  lemma WholePage(keys: seq<Key>)
    ensures PageOf(keys, 0, 0) == keys
  {
  }

  lemma CountOne(tokens: seq<KeyPair>, n: nat)
    requires n < |tokens|
    requires NoRepeats(TokenKeys(tokens))
    ensures forall p :: |Counted(tokens, n + 1, p)| == |Counted(tokens, n, p)| + if tokens[n].perm == p then 1 else 0
  {
    var id := TokenId(tokens[n].token);
    forall i | 0 <= i < n ensures tokens[i].token != tokens[n].token {
      assert TokenKeys(tokens)[i] != TokenKeys(tokens)[n];
    }
    hide TokenKeys, KeyOf;
    forall p ensures |Counted(tokens, n + 1, p)| == |Counted(tokens, n, p)| + if tokens[n].perm == p then 1 else 0 {
      assert id !in Counted(tokens, n, p);
      assert Counted(tokens, n + 1, p) == Counted(tokens, n, p) + if tokens[n].perm == p then {id} else {};
    }
  }

  // Counting needs the token rows only.
  lemma CountedAlone(kv: KV, perm: string)
    requires WellFiled(kv)
    ensures WellFiled(T.TokenSpace(kv))
    ensures S.TokensWith(T.TablesOf(kv), perm) == S.TokensWith(T.TablesOf(T.TokenSpace(kv)), perm)
  {
    hide T.TablesOf, T.TokenSpace, WellFiled;
    T.TokensAlone(kv);
  }

  lemma CountedAll(t: T.Tables, tokens: seq<KeyPair>, perm: string)
    requires T.Consistent(t) && TokenKeys(tokens) == T.InKeyOrder(T.LiveTokens(t))
    requires forall r | r in tokens :: T.Holds(t, TokenId(r.token), TokenRec(r))
    ensures Counted(tokens, |tokens|, perm) == S.TokensWith(t, perm)
  {
    hide KeyOf, T.InKeyOrder;
    T.InKeyOrderIs(T.LiveTokens(t));
    forall id | id in Counted(tokens, |tokens|, perm) ensures id in S.TokensWith(t, perm) {
      var i :| 0 <= i < |tokens| && tokens[i].perm == perm && id == TokenId(tokens[i].token);
      assert tokens[i] in tokens && KeyOf(id) == TokenKeys(tokens)[i];
    }
    forall id | id in S.TokensWith(t, perm) ensures id in Counted(tokens, |tokens|, perm) {
      assert KeyOf(id) in TokenKeys(tokens);
      var i :| 0 <= i < |tokens| && KeyOf(id) == TokenKeys(tokens)[i];
      KeyNamesRow(id);
      KeyNamesRow(TokenId(tokens[i].token));
      assert tokens[i] in tokens;
    }
  }
}

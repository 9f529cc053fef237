/** What holds after every run of service calls, by any callers. */
module ServiceTheorems {
  import opened Records
  import T = Tables
  import opened Permissions
  import opened Jwt
  import opened Service
  import StoreTheorems
  import M = Migration

  // ---------- tokens are signatures ----------

  function PayloadOf(kp: KeyPair): Payload { Payload(kp.name, kp.perm, kp.extra) }

  // Every stored token is the signature of its own fields under its own secret.
  predicate SignedRow(c: Codec, r: Record)
  {
    r.TokenRec? ==>
      && r.token.token == Sign(c, PayloadOf(r.token), r.token.secret)
      && (r.token.isDeleted == NOT_DELETE || r.token.isDeleted == DELETED)
  }

  predicate Signed(c: Codec, t: T.Tables) { forall id | id in t :: SignedRow(c, t[id]) }

  predicate IsTokenCall(call: Call) { call.Generate? || call.Remove? || call.RecoverTok? }

  lemma SignerOpFrame(t: T.Tables, register: bool, a: Addr, user: string, now: Stamp, id: Id)
    requires T.Consistent(t) && !id.SignerId?
    ensures var t' := if register then T.RegisterSigner(t, a, user, now).0 else T.UnregisterSigner(t, a, user, now).0;
      (id in t' <==> id in t) && (id in t ==> t'[id] == t[id])
  {
  }

  // A loop over signers touches bindings only.
  lemma {:induction false} LoopFrame(t: T.Tables, register: bool, signers: seq<Addr>, n: nat, user: string,
                                     nows: nat -> Stamp, id: Id)
    requires T.Consistent(t) && n <= |signers| && !id.SignerId?
    ensures var t' := SignerLoop(t, register, signers, n, user, nows).0;
      (id in t' <==> id in t) && (id in t ==> t'[id] == t[id])
  {
    hide IsSignerAddress, T.RegisterSigner, T.UnregisterSigner;
    if n > 0 {
      LoopFrame(t, register, signers, n - 1, user, nows, id);
      var before := SignerLoop(t, register, signers, n - 1, user, nows).0;
      SignerOpFrame(before, register, signers[n - 1], user, nows(n - 1), id);
    }
  }

  // Operations on other tables leave the tokens alone.
  lemma OtherOpsFrame(t: T.Tables, op: T.Op, id: Id)
    requires T.Consistent(t) && id.TokenId? && !op.OpPut? && !op.OpDelete? && !op.OpRecover?
    ensures var t' := T.Step(t, op).0;
      (id in t' <==> id in t) && (id in t ==> t'[id] == t[id])
  {
  }

  lemma OtherCallsFrame(c: Codec, s: State, ctx: Ctx, call: Call, id: Id)
    requires s.Ok() && !IsTokenCall(call) && id.TokenId?
    ensures var s' := Step(c, s, ctx, call).0;
      s'.gauge == s.gauge && (id in s'.t <==> id in s.t) && (id in s.t ==> s'.t[id] == s.t[id])
  {
    if call.BindSigners? {
      LoopFrame(s.t, call.register, call.signers, |call.signers|, call.name, call.nows, id);
    } else if Step(c, s, ctx, call).0.t != s.t {
      hide T.Step, T.DelSigner, T.UpsertMiner, T.SoftDelete, T.Recover, T.DeleteUser, T.PutRateLimit, T.DelRateLimit;
      CallIsOp(c, s, ctx, call);
      OtherOpsFrame(s.t, OpOf(c, s, call), id);
    }
  }

  lemma StepSigned(c: Codec, s: State, ctx: Ctx, call: Call)
    requires s.Ok() && Signed(c, s.t)
    ensures Signed(c, Step(c, s, ctx, call).0.t)
  {
    hide Sign;
    var s' := Step(c, s, ctx, call).0;
    forall id | id in s'.t ensures SignedRow(c, s'.t[id]) {
      assert s'.t[id].Filed(id);
      if id.TokenId? {
        TokenRowSigned(c, s, ctx, call, id);
      }
    }
  }

  lemma TokenRowSigned(c: Codec, s: State, ctx: Ctx, call: Call, id: Id)
    requires s.Ok() && Signed(c, s.t) && id.TokenId? && id in Step(c, s, ctx, call).0.t
    ensures SignedRow(c, Step(c, s, ctx, call).0.t[id])
  {
    hide Sign;
    if !IsTokenCall(call) { OtherCallsFrame(c, s, ctx, call, id); }
  }

  // ---------- the gauge ----------

  // A stored token decodes to the fields stored beside it.
  lemma StoredDecodes(c: Codec, t: T.Tables, token: string)
    requires c.Valid() && T.Consistent(t) && Signed(c, t) && TokenId(token) in t
    ensures DecodeToken(c, token) == Some(PayloadOf(t[TokenId(token)].token))
    ensures SignatureHolds(c, token, t[TokenId(token)].token.secret)
  {
    var kp := t[TokenId(token)].token;
    assert SignedRow(c, t[TokenId(token)]);
    SignDecodes(c, PayloadOf(kp), kp.secret);
  }

  lemma StepGauge(c: Codec, s: State, ctx: Ctx, call: Call)
    requires c.Valid() && s.Ok() && Signed(c, s.t) && GaugeExact(s)
    ensures GaugeExact(Step(c, s, ctx, call).0)
  {
    hide Sign, DecodeToken, SignatureHolds;
    var s' := Step(c, s, ctx, call).0;
    match call
    case Generate(pl, secret, now) => GenerateGauge(c, s, ctx, pl, secret, now);
    case Remove(token, now) => RemoveGauge(c, s, ctx, token, now);
    case RecoverTok(token) => RecoverGauge(c, s, ctx, token);
    case _ =>
      forall id: Id | id.TokenId?
        ensures s'.gauge == s.gauge && (id in s'.t <==> id in s.t) && (id in s.t ==> s'.t[id] == s.t[id])
      {
        OtherCallsFrame(c, s, ctx, call, id);
      }
      OtherCallsFrame(c, s, ctx, call, TokenId(""));
      forall perm ensures TokensWith(s'.t, perm) == TokensWith(s.t, perm) {}
  }

  // `t'` is `t` with the one token row turned live or dead.
  predicate Turned(t: T.Tables, t': T.Tables, token: string, live: bool)
    requires T.Consistent(t) && T.Consistent(t')
  {
    && t'.Keys == t.Keys + {TokenId(token)} && (forall id | id in t && id != TokenId(token) :: t'[id] == t[id])
    && T.Live(t, TokenId(token)) == !live && T.Live(t', TokenId(token)) == live
    && (!live ==> t'[TokenId(token)].token.perm == t[TokenId(token)].token.perm)
  }

  lemma TurnedCount(t: T.Tables, t': T.Tables, token: string, live: bool, p: string)
    requires T.Consistent(t) && T.Consistent(t') && Turned(t, t', token, live)
    ensures |TokensWith(t', p)| ==
            |TokensWith(t, p)| + if p != t'[TokenId(token)].token.perm then 0 else if live then 1 else -1
  {
    hide TokensWith;
    var id := TokenId(token);
    var before, after := TokensWith(t, p), TokensWith(t', p);
    ThisRow(t, t', token, live, p);
    forall i | i != id ensures i in after <==> i in before { OtherRow(t, t', token, live, p, i); }
    if p != t'[id].token.perm {
      SameSets(before, after, id);
    } else if live {
      OneMore(before, after, id);
    } else {
      OneMore(after, before, id);
    }
  }

  lemma SameSets(a: set<Id>, b: set<Id>, id: Id)
    requires id !in a && id !in b && forall i | i != id :: i in a <==> i in b
    ensures a == b
  {
  }

  lemma OneMore(a: set<Id>, b: set<Id>, id: Id)
    requires id !in a && id in b && forall i | i != id :: i in a <==> i in b
    ensures |b| == |a| + 1
  {
    assert b == a + {id};
  }

  lemma ThisRow(t: T.Tables, t': T.Tables, token: string, live: bool, p: string)
    requires T.Consistent(t) && T.Consistent(t') && Turned(t, t', token, live)
    ensures TokenId(token) in TokensWith(if live then t' else t, p) <==> p == t'[TokenId(token)].token.perm
    ensures TokenId(token) !in TokensWith(if live then t else t', p)
  {
  }

  lemma OtherRow(t: T.Tables, t': T.Tables, token: string, live: bool, p: string, id: Id)
    requires T.Consistent(t) && T.Consistent(t') && Turned(t, t', token, live) && id != TokenId(token)
    ensures id in TokensWith(t', p) <==> id in TokensWith(t, p)
  {
  }

  lemma GaugeMoves(t: T.Tables, t': T.Tables, gauge: map<string, int>, token: string, live: bool)
    requires T.Consistent(t) && T.Consistent(t') && GaugeExact(State(t, gauge)) && Turned(t, t', token, live)
    ensures GaugeExact(State(t', Inc(gauge, t'[TokenId(token)].token.perm, if live then 1 else -1)))
  {
    var perm := t'[TokenId(token)].token.perm;
    var delta := if live then 1 else -1;
    hide TokensWith, Turned, Inc;
    IncAdds(gauge, perm, delta);
    forall p ensures State(t', Inc(gauge, perm, delta)).Gauge(p) == |TokensWith(t', p)| {
      TurnedCount(t, t', token, live, p);
      assert State(t, gauge).Gauge(p) == |TokensWith(t, p)|;
    }
  }

  lemma GenerateGauge(c: Codec, s: State, ctx: Ctx, pl: Payload, secret: string, now: Stamp)
    requires s.Ok() && GaugeExact(s)
    ensures GaugeExact(GenerateToken(c, s, ctx, pl, secret, now).0)
  {
    hide Sign, TokensWith;
    var s' := GenerateToken(c, s, ctx, pl, secret, now).0;
    if s' != s {
      GaugeMoves(s.t, s'.t, s.gauge, Sign(c, pl, secret), true);
    }
  }

  lemma RemoveGauge(c: Codec, s: State, ctx: Ctx, token: string, now: Stamp)
    requires c.Valid() && s.Ok() && Signed(c, s.t) && GaugeExact(s)
    ensures GaugeExact(RemoveToken(c, s, ctx, token, now).0)
  {
    hide Sign, DecodeToken, SignatureHolds, TokensWith;
    if T.Live(s.t, TokenId(token)) {
      StoredDecodes(c, s.t, token);
      GaugeMoves(s.t, T.SoftDelete(s.t, TokenId(token), now).0, s.gauge, token, false);
    }
  }

  lemma RecoverGauge(c: Codec, s: State, ctx: Ctx, token: string)
    requires c.Valid() && s.Ok() && Signed(c, s.t) && GaugeExact(s)
    ensures GaugeExact(RecoverToken(c, s, ctx, token).0)
  {
    hide Sign, DecodeToken, SignatureHolds, TokensWith;
    if TokenId(token) in s.t && s.t[TokenId(token)].Flag() != NOT_DELETE {
      StoredDecodes(c, s.t, token);
      assert SignedRow(c, s.t[TokenId(token)]);
      GaugeMoves(s.t, T.Recover(s.t, TokenId(token)).0, s.gauge, token, true);
    }
  }

  // After every run of calls by any callers, the gauge of each permission is the number of live
  // tokens with that permission.
  lemma {:induction false} GaugeConserved(c: Codec, s: State, calls: seq<(Ctx, Call)>)
    requires c.Valid() && s.Ok() && Signed(c, s.t) && GaugeExact(s)
    ensures Signed(c, Run(c, s, calls).t) && GaugeExact(Run(c, s, calls))
    decreases |calls|
  {
    hide Step, GaugeExact;
    if calls != [] {
      StepSigned(c, s, calls[0].0, calls[0].1);
      StepGauge(c, s, calls[0].0, calls[0].1);
      GaugeConserved(c, Step(c, s, calls[0].0, calls[0].1).0, calls[1..]);
    }
  }

  // ---------- the history of a token ----------

  // What one successful call does to a token: Some(true) issues or recovers it, Some(false) removes it.
  function EventOn(c: Codec, s: State, ctx: Ctx, call: Call, token: string): Option<bool>
    requires s.Ok()
  {
    if Step(c, s, ctx, call).1.Some? then None
    else
      match call
      case Generate(pl, secret, _) => if Sign(c, pl, secret) == token then Some(true) else None
      case Remove(tk, _) => if tk == token then Some(false) else None
      case RecoverTok(tk) => if tk == token then Some(true) else None
      case _ => None
  }

  function LastEvent(c: Codec, s: State, calls: seq<(Ctx, Call)>, token: string): Option<bool>
    requires s.Ok()
    decreases |calls|
  {
    if calls == [] then None
    else
      var later := LastEvent(c, Step(c, s, calls[0].0, calls[0].1).0, calls[1..], token);
      if later.Some? then later else EventOn(c, s, calls[0].0, calls[0].1, token)
  }

  function After(event: Option<bool>, before: bool): bool { if event.Some? then event.value else before }

  lemma StepHistory(c: Codec, s: State, ctx: Ctx, call: Call, token: string)
    requires c.Valid() && s.Ok() && Signed(c, s.t)
    ensures T.Live(Step(c, s, ctx, call).0.t, TokenId(token)) <==>
            After(EventOn(c, s, ctx, call, token), T.Live(s.t, TokenId(token)))
  {
    hide Sign, DecodeToken, SignatureHolds;
    if !IsTokenCall(call) {
      OtherCallsFrame(c, s, ctx, call, TokenId(token));
    } else {
      match call
      case Remove(tk, _) => if TokenId(tk) in s.t { StoredDecodes(c, s.t, tk); }
      case RecoverTok(tk) => if TokenId(tk) in s.t { StoredDecodes(c, s.t, tk); }
      case _ =>
    }
  }

  // After every run, a token is live exactly when its last event was not a removal.
  lemma {:induction false} TokenHistory(c: Codec, s: State, calls: seq<(Ctx, Call)>, token: string)
    requires c.Valid() && s.Ok() && Signed(c, s.t)
    ensures Signed(c, Run(c, s, calls).t)
    ensures T.Live(Run(c, s, calls).t, TokenId(token)) <==>
            After(LastEvent(c, s, calls, token), T.Live(s.t, TokenId(token)))
    decreases |calls|
  {
    hide Step, EventOn;
    if calls != [] {
      StepSigned(c, s, calls[0].0, calls[0].1);
      StepHistory(c, s, calls[0].0, calls[0].1, token);
      TokenHistory(c, Step(c, s, calls[0].0, calls[0].1).0, calls[1..], token);
    }
  }

  // Verify accepts for a reader exactly then, and returns the one payload the token can have been
  // signed from.
  lemma VerifyFollowsHistory(c: Codec, s: State, calls: seq<(Ctx, Call)>, ctx: Ctx, token: string)
    requires c.Valid() && s.Ok() && Signed(c, s.t)
    ensures var v := Verify(c, Run(c, s, calls), ctx, token);
      && (v.Verified? <==>
           PermCheck(ctx, PERM_READ).None? && After(LastEvent(c, s, calls, token), T.Live(s.t, TokenId(token))))
      && (v.Verified? ==> exists secret :: token == Sign(c, v.payload, secret))
      && (v.Verified? ==> forall pl, secret :: token == Sign(c, pl, secret) ==> pl == v.payload)
  {
    hide Sign, DecodeToken, SignatureHolds, Run, LastEvent;
    TokenHistory(c, s, calls, token);
    var t := Run(c, s, calls).t;
    if TokenId(token) in t {
      StoredDecodes(c, t, token);
      var kp := t[TokenId(token)].token;
      assert SignedRow(c, t[TokenId(token)]);
      assert token == Sign(c, PayloadOf(kp), kp.secret);
      forall pl, secret | token == Sign(c, pl, secret) ensures pl == PayloadOf(kp) {
        SignDecodes(c, pl, secret);
      }
    }
  }

  // ---------- what a caller without admin rights can touch ----------

  // A caller whose list lacks the admin permission, and who goes by the name `n` if by any.
  predicate Plain(ctx: Ctx, n: string) { !Granted(ctx, PERM_ADMIN) && (ctx.name == None || ctx.name == Some(n)) }

  // A live binding that some live binding of `n` reaches by prefix.
  ghost predicate Exposed(t: T.Tables, n: string, id: Id)
  {
    T.Live(t, id) && id.SignerId? && exists a: Addr :: T.Live(t, SignerId(a, n)) && a <= id.signer
  }

  // The rows a run by `n` may change.
  ghost predicate Within(t: T.Tables, n: string, id: Id)
    requires T.Consistent(t)
  {
    || (id.TokenId? && id in t && t[id].token.name == n)
    || id in T.MinersOf(t, n)
    || Exposed(t, n, id)
  }

  // How such a row may change: a token keeps its name, a miner or binding can only be tombstoned.
  ghost predicate RowOk(t: T.Tables, t': T.Tables, n: string, id: Id)
    requires T.Consistent(t) && T.Consistent(t')
  {
    && (id in t' <==> id in t)
    && (id in t ==>
         || t'[id] == t[id]
         || (id.TokenId? && t[id].token.name == n == t'[id].token.name)
         || ((id in T.MinersOf(t, n) || Exposed(t, n, id)) && t'[id].IsDeleted()))
  }

  // Changing a token issued to `n` into one issued to `n` is allowed.
  lemma OwnTokenRowOk(t: T.Tables, t': T.Tables, n: string, tk: string, id: Id)
    requires T.Consistent(t) && T.Consistent(t') && TokenId(tk) in t && TokenId(tk) in t'
    requires t' == t[TokenId(tk) := t'[TokenId(tk)]]
    requires t[TokenId(tk)].token.name == n == t'[TokenId(tk)].token.name
    ensures RowOk(t, t', n, id)
  {
  }

  lemma TokenRowOk(c: Codec, s: State, ctx: Ctx, call: Call, n: string, id: Id)
    requires c.Valid() && s.Ok() && Signed(c, s.t) && Plain(ctx, n) && IsTokenCall(call)
    ensures RowOk(s.t, Step(c, s, ctx, call).0.t, n, id)
  {
    PermCheckExact(ctx, PERM_ADMIN, []);
    hide Sign, DecodeToken, SignatureHolds, RowOk, PermCheck, Signed;
    var t' := Step(c, s, ctx, call).0.t;
    if t' == s.t {
      UnchangedRowOk(s.t, n, id);
    } else {
      var tk := if call.Remove? then call.token else if call.RecoverTok? then call.token else "";
      assert TokenId(tk) in s.t;
      StoredDecodes(c, s.t, tk);
      OwnTokenRowOk(s.t, t', n, tk, id);
    }
  }

  lemma UnchangedRowOk(t: T.Tables, n: string, id: Id)
    requires T.Consistent(t)
    ensures RowOk(t, t, n, id)
  {
  }

  lemma DropSignerRowOk(s: State, ctx: Ctx, n: string, a: Addr, clock: T.Clock, id: Id)
    requires s.Ok() && Plain(ctx, n)
    ensures DelSigner(s, ctx, a, clock).0.Ok() && RowOk(s.t, DelSigner(s, ctx, a, clock).0.t, n, id)
  {
    T.TombstonesFiled(s.t, T.ReachedBy(s.t, a), clock);
    if HoldsSigner(s, ctx, a) && T.Reached(s.t, id, a) {
      assert Exposed(s.t, n, id);
    }
  }

  lemma StepRowOk(c: Codec, s: State, ctx: Ctx, call: Call, n: string, id: Id)
    requires c.Valid() && s.Ok() && Signed(c, s.t) && Plain(ctx, n)
    ensures RowOk(s.t, Step(c, s, ctx, call).0.t, n, id)
  {
    hide Sign, DecodeToken, SignatureHolds, Exposed;
    if IsTokenCall(call) {
      TokenRowOk(c, s, ctx, call, n, id);
    } else {
      match call
      case DropSigner(a, clock) => DropSignerRowOk(s, ctx, n, a, clock, id);
      case DropMiner(a, now) =>
      case _ =>
    }
  }

  // Nobody gains by his own calls.
  lemma RightsShrink(t: T.Tables, t': T.Tables, n: string, id: Id)
    requires T.Consistent(t) && T.Consistent(t') && forall i :: RowOk(t, t', n, i)
    ensures Within(t', n, id) ==> Within(t, n, id)
  {
    assert RowOk(t, t', n, id);
    if Exposed(t', n, id) {
      var a: Addr :| T.Live(t', SignerId(a, n)) && a <= id.signer;
      assert RowOk(t, t', n, SignerId(a, n));
    }
  }

  // A run of calls by a caller named `n` who is not an admin leaves alone every user and rate limit,
  // every token not issued to `n`, every miner `n` did not own at the start, and every binding that
  // no live binding of `n` reached at the start; and it adds no row.
  lemma {:induction false} AccessFrame(c: Codec, s: State, calls: seq<(Ctx, Call)>, n: string, id: Id)
    requires c.Valid() && s.Ok() && Signed(c, s.t) && forall call | call in calls :: Plain(call.0, n)
    ensures id in Run(c, s, calls).t <==> id in s.t
    ensures id in s.t && !Within(s.t, n, id) ==> Run(c, s, calls).t[id] == s.t[id]
    decreases |calls|
  {
    hide Step, Signed, Within;
    if calls != [] {
      var (ctx, call) := calls[0];
      assert Plain(calls[0].0, n) by { assert calls[0] in calls; }
      var s' := Step(c, s, ctx, call).0;
      StepSigned(c, s, ctx, call);
      forall i ensures RowOk(s.t, s'.t, n, i) { StepRowOk(c, s, ctx, call, n, i); }
      RightsShrink(s.t, s'.t, n, id);
      UntouchedRow(s.t, s'.t, n, id);
      AccessFrame(c, s', calls[1..], n, id);
    }
  }

  lemma UntouchedRow(t: T.Tables, t': T.Tables, n: string, id: Id)
    requires T.Consistent(t) && T.Consistent(t') && RowOk(t, t', n, id)
    ensures id in t' <==> id in t
    ensures id in t && !Within(t, n, id) ==> t'[id] == t[id]
  {
  }

  // For bindings the frame is exact: some run by `n` changes a binding if and only if it is exposed.
  lemma BindingFrameExact(c: Codec, s: State, n: string, id: Id)
    requires c.Valid() && s.Ok() && Signed(c, s.t) && id in s.t && id.SignerId?
    ensures (exists calls :: AllPlain(calls, n) && !T.Holds(Run(c, s, calls).t, id, s.t[id])) <==> Exposed(s.t, n, id)
  {
    if calls :| AllPlain(calls, n) && !T.Holds(Run(c, s, calls).t, id, s.t[id]) {
      hide Run, Exposed;
      AccessFrame(c, s, calls, n, id);
    }
    if Exposed(s.t, n, id) {
      hide Run;
      var a: Addr :| T.Live(s.t, SignerId(a, n)) && a <= id.signer;
      OneDropRemoves(c, s, n, a, id);
      assert AllPlain(OneDrop(n, a), n) && !T.Holds(Run(c, s, OneDrop(n, a)).t, id, s.t[id]);
    }
  }

  // The one call by which a caller without rights deletes the bindings of an address it holds.
  function OneDrop(n: string, a: Addr): seq<(Ctx, Call)> { [(Ctx(Some([]), Some(n)), DropSigner(a, _ => 1))] }

  lemma OneDropRemoves(c: Codec, s: State, n: string, a: Addr, id: Id)
    requires s.Ok() && T.Live(s.t, SignerId(a, n)) && T.Reached(s.t, id, a)
    ensures AllPlain(OneDrop(n, a), n) && id in Run(c, s, OneDrop(n, a)).t && !T.Live(Run(c, s, OneDrop(n, a)).t, id)
  {
    var calls := OneDrop(n, a);
    var (ctx, call) := calls[0];
    var s' := Step(c, s, ctx, call).0;
    assert calls[1..] == [] && Run(c, s', []) == s' && Run(c, s, calls) == s';
    assert s' == DelSigner(s, ctx, a, call.clock).0;
    assert s'.t[id].IsDeleted();
  }

  ghost predicate AllPlain(calls: seq<(Ctx, Call)>, n: string) { forall call | call in calls :: Plain(call.0, n) }

  // Two users, each bound to an address of its own; ann's is a prefix of bob's.
  function TwoSigners(): T.Tables
  {
    map[
      UserId("ann") := UserRec(User("", "ann", "", 1, 1, 1, NOT_DELETE), ""),
      UserId("bob") := UserRec(User("", "bob", "", 1, 1, 1, NOT_DELETE), ""),
      SignerId(StoreTheorems.SHORT_ADDR, "ann") :=
        SignerRec(Signer(StoreTheorems.SHORT_ADDR, "ann", 1, 1, DeletedAt(true, 0))),
      SignerId(StoreTheorems.LONG_ADDR, "bob") :=
        SignerRec(Signer(StoreTheorems.LONG_ADDR, "bob", 1, 1, DeletedAt(true, 0)))]
  }

  lemma TwoSignersRows(c: Codec)
    ensures var t := TwoSigners();
      && T.Consistent(t) && StoreTheorems.Referential(t) && Signed(c, t)
      && T.Live(t, SignerId(StoreTheorems.SHORT_ADDR, "ann")) && T.Live(t, SignerId(StoreTheorems.LONG_ADDR, "bob"))
      && SignerId(StoreTheorems.LONG_ADDR, "ann") !in t
  {
    assert "ann"[0] != "bob"[0];
    StoreTheorems.ShortStartsLong();
  }

  // An exposed binding may be on an address the caller does not hold: ann removes bob's in one call.
  lemma RemovesAnothersAddress(c: Codec, gauge: map<string, int>)
    ensures var t := TwoSigners();
      var id := SignerId(StoreTheorems.LONG_ADDR, "bob");
      var calls := OneDrop("ann", StoreTheorems.SHORT_ADDR);
      && T.Consistent(t) && StoreTheorems.Referential(t) && Signed(c, t)
      && Exposed(t, "ann", id) && !T.Live(t, SignerId(StoreTheorems.LONG_ADDR, "ann"))
      && AllPlain(calls, "ann") && T.Live(t, id) && !T.Live(Run(c, State(t, gauge), calls).t, id)
  {
    var t := TwoSigners();
    var id := SignerId(StoreTheorems.LONG_ADDR, "bob");
    var a: Addr := StoreTheorems.SHORT_ADDR;
    TwoSignersRows(c);
    hide TwoSigners, Run, OneDrop, Signed, StoreTheorems.Referential;
    StoreTheorems.ShortStartsLong();
    assert T.Live(t, SignerId(a, "ann")) && a <= id.signer;
    assert T.Reached(t, id, a);
    OneDropRemoves(c, State(t, gauge), "ann", a, id);
  }

  // If no bound address is a proper prefix of another, a binding is exposed to `n` only when `n`
  // holds a live binding of the very same address.
  lemma PrefixFreeExposure(t: T.Tables, n: string, id: Id)
    requires forall i, j | T.Live(t, i) && T.Live(t, j) && i.SignerId? && j.SignerId? :: !(i.signer < j.signer)
    ensures Exposed(t, n, id) <==> T.Live(t, id) && id.SignerId? && T.Live(t, SignerId(id.signer, n))
  {
    if Exposed(t, n, id) {
      var a: Addr :| T.Live(t, SignerId(a, n)) && a <= id.signer;
      assert !(SignerId(a, n).signer < id.signer);
      assert a == id.signer;
    }
    if T.Live(t, id) && id.SignerId? && T.Live(t, SignerId(id.signer, n)) {
      var a: Addr := id.signer;
      assert T.Live(t, SignerId(a, n)) && a <= id.signer;
    }
  }

  // ---------- the service adds nothing to what the store can do ----------

  lemma {:induction false} RunAppend(t: T.Tables, a: seq<T.Op>, b: seq<T.Op>)
    requires T.Consistent(t)
    ensures T.Run(t, a + b) == T.Run(T.Run(t, a), b)
    decreases |a|
  {
    hide T.Step;
    if a == [] {
      assert a + b == b;
    } else {
      RunAppend(T.Step(t, a[0]).0, a[1..], b);
      assert (a + b)[1..] == a[1..] + b;
    }
  }

  lemma RunOne(t: T.Tables, op: T.Op)
    requires T.Consistent(t)
    ensures T.Run(t, [op]) == T.Step(t, op).0
  {
    hide T.Step;
    assert [op][1..] == [];
    assert T.Run(T.Step(t, op).0, []) == T.Step(t, op).0;
  }

  lemma {:induction false} LoopIsOps(t: T.Tables, register: bool, signers: seq<Addr>, n: nat, user: string,
                                     nows: nat -> Stamp)
    returns (ops: seq<T.Op>)
    requires T.Consistent(t) && n <= |signers|
    ensures T.Run(t, ops) == SignerLoop(t, register, signers, n, user, nows).0
  {
    hide IsSignerAddress, T.RegisterSigner, T.UnregisterSigner, T.Run;
    ops := [];
    RunNone(t);
    if n > 0 {
      ops := LoopIsOps(t, register, signers, n - 1, user, nows);
      var before := SignerLoop(t, register, signers, n - 1, user, nows);
      var a := signers[n - 1];
      if before.1.None? && IsSignerAddress(a) {
        var op := if register then T.OpRegisterSigner(a, user, nows(n - 1))
                  else T.OpUnregisterSigner(a, user, nows(n - 1));
        RunAppend(t, ops, [op]);
        RunOne(before.0, op);
        ops := ops + [op];
      }
    }
  }

  // Whatever a call does to the tables, a sequence of store operations does.
  lemma StepIsOps(c: Codec, s: State, ctx: Ctx, call: Call) returns (ops: seq<T.Op>)
    requires s.Ok()
    ensures T.Run(s.t, ops) == Step(c, s, ctx, call).0.t
  {
    hide Sign, DecodeToken, SignatureHolds, T.Run;
    var t' := Step(c, s, ctx, call).0.t;
    ops := [];
    RunNone(s.t);
    if t' != s.t {
      match call
      case BindSigners(register, signers, name, nows) =>
        ops := LoopIsOps(s.t, register, signers, |signers|, name, nows);
      case _ =>
        CallIsOp(c, s, ctx, call);
        hide Step, OpOf;
        RunOne(s.t, OpOf(c, s, call));
        ops := [OpOf(c, s, call)];
    }
  }

  lemma CallIsOp(c: Codec, s: State, ctx: Ctx, call: Call)
    requires s.Ok() && !call.BindSigners? && Step(c, s, ctx, call).0.t != s.t
    ensures Recorded(s, call) && T.Step(s.t, OpOf(c, s, call)).0 == Step(c, s, ctx, call).0.t
  {
    hide Step, OpOf, T.Step;
    if IsTokenCall(call) {
      TokenCallIsOp(c, s, ctx, call);
    } else if call.NewUser? || call.ChangeUser? {
      UserCallIsOp(c, s, ctx, call);
    } else if call.BindMiner? || call.DropMiner? || call.DropSigner? {
      BindingCallIsOp(c, s, ctx, call);
    } else {
      AdminCallIsOp(c, s, ctx, call);
    }
  }

  lemma BindingCallIsOp(c: Codec, s: State, ctx: Ctx, call: Call)
    requires s.Ok() && (call.BindMiner? || call.DropMiner? || call.DropSigner?) && Step(c, s, ctx, call).0.t != s.t
    ensures Recorded(s, call) && T.Step(s.t, OpOf(c, s, call)).0 == Step(c, s, ctx, call).0.t
  {
    hide T.DelSigner, T.UpsertMiner, T.SoftDelete, PermCheck, IsAdmin, OwnerCheck, OwnsMiner, HoldsSigner;
  }

  lemma AdminCallIsOp(c: Codec, s: State, ctx: Ctx, call: Call)
    requires s.Ok() && Step(c, s, ctx, call).0.t != s.t
    requires call.DropUser? || call.RecoverUser? || call.PutLimit? || call.DropLimit?
    ensures Recorded(s, call) && T.Step(s.t, OpOf(c, s, call)).0 == Step(c, s, ctx, call).0.t
  {
    hide T.DeleteUser, T.PutRateLimit, T.DelRateLimit, T.Recover, PermCheck;
  }

  lemma TokenCallIsOp(c: Codec, s: State, ctx: Ctx, call: Call)
    requires s.Ok() && IsTokenCall(call) && Step(c, s, ctx, call).0.t != s.t
    ensures Recorded(s, call) && T.Step(s.t, OpOf(c, s, call)).0 == Step(c, s, ctx, call).0.t
  {
    hide Sign, DecodeToken, SignatureHolds, T.SoftDelete, T.Recover, PermCheck, TokenPermCheck;
  }

  lemma UserCallIsOp(c: Codec, s: State, ctx: Ctx, call: Call)
    requires s.Ok() && (call.NewUser? || call.ChangeUser?) && Step(c, s, ctx, call).0.t != s.t
    ensures Recorded(s, call) && T.Step(s.t, OpOf(c, s, call)).0 == Step(c, s, ctx, call).0.t
  {
    hide PermCheck;
  }

  lemma RunNone(t: T.Tables)
    requires T.Consistent(t)
    ensures T.Run(t, []) == t
  {
  }

  // Changing a user presupposes its record.
  predicate Recorded(s: State, call: Call) { call.ChangeUser? ==> UserId(call.name) in s.t }

  // The store operation of a call that succeeds.
  function OpOf(c: Codec, s: State, call: Call): T.Op
    requires s.Ok() && !call.BindSigners? && Recorded(s, call)
  {
    match call
    case Generate(pl, secret, now) => T.OpPut(NewKeyPair(c, pl, secret, now))
    case Remove(token, now) => T.OpDelete(token, now)
    case RecoverTok(token) => T.OpRecover(token)
    case NewUser(user) => T.OpPutUser(user.(isDeleted := NOT_DELETE))
    case ChangeUser(name, comment, state, now) =>
      var user := s.t[UserId(name)].user;
      T.OpPutUser(user.(
        updateTime := now,
        comment := if comment.Some? then comment.value else user.comment,
        state := if state != USER_STATE_UNDEFINED then state else user.state))
    case DropUser(name, clock) => T.OpDeleteUser(name, clock)
    case RecoverUser(name) => T.OpRecoverUser(name)
    case PutLimit(limit) => T.OpPutRateLimit(limit)
    case DropLimit(name, id) => T.OpDelRateLimit(name, id)
    case BindMiner(a, name, open, now) => T.OpUpsertMiner(a, name, open, now)
    case DropMiner(a, now) => T.OpDelMiner(a, now)
    case DropSigner(a, clock) => T.OpDelSigner(a, clock)
  }

  // So every binding keeps naming a recorded user, over all runs of the service.
  lemma {:induction false} ServiceReferential(c: Codec, s: State, calls: seq<(Ctx, Call)>)
    requires s.Ok() && StoreTheorems.Referential(s.t)
    ensures StoreTheorems.Referential(Run(c, s, calls).t)
    decreases |calls|
  {
    hide Step, StoreTheorems.Referential, T.Run;
    if calls != [] {
      var ops := StepIsOps(c, s, calls[0].0, calls[0].1);
      StoreTheorems.RunReferential(s.t, ops);
      ServiceReferential(c, Step(c, s, calls[0].0, calls[0].1).0, calls[1..]);
    }
  }

  // The invariants hold of the empty store, hence of every run from it.
  lemma FromEmpty(c: Codec, calls: seq<(Ctx, Call)>)
    requires c.Valid()
    ensures var s := Run(c, State(map[], map[]), calls);
      Signed(c, s.t) && GaugeExact(s) && StoreTheorems.Referential(s.t)
  {
    var s0 := State(map[], map[]);
    assert GaugeExact(s0) by {
      forall p ensures TokensWith(s0.t, p) == {} {}
    }
    hide GaugeExact, StoreTheorems.Referential, Signed;
    assert Signed(c, s0.t) && StoreTheorems.Referential(s0.t) by { EmptyOk(c); }
    GaugeConserved(c, s0, calls);
    ServiceReferential(c, s0, calls);
  }

  lemma EmptyOk(c: Codec)
    ensures Signed(c, map[]) && StoreTheorems.Referential(map[])
  {
  }

  // The same of any key space: every token in it is the signature of its own fields.
  ghost predicate AllSigned(c: Codec, kv: KV) { forall k | k in kv :: SignedRow(c, kv[k]) }

  lemma MigratedSigned(c: Codec, kv: KV, parse: M.Parse, now: Stamp)
    requires M.Typed(kv) && AllSigned(c, kv)
    ensures var kv' := M.Migrated(kv, parse, now);
      AllSigned(c, kv') && (WellFiled(kv') ==> Signed(c, T.TablesOf(kv')))
  {
    hide SignedRow, WellFiled, T.TablesOf, M.Migrated;
    var kv' := M.Migrated(kv, parse, now);
    M.MigratedCarries(kv, parse, now);
    forall k | k in kv' ensures SignedRow(c, kv'[k]) {
      if k in kv && kv'[k] == kv[k] {
      } else {
        NoTokenNoSignature(c, kv'[k]);
      }
    }
    if WellFiled(kv') {
      forall id | id in T.TablesOf(kv') ensures SignedRow(c, T.TablesOf(kv')[id]) { T.Lookup(kv', id); }
    }
  }

  lemma NoTokenNoSignature(c: Codec, r: Record)
    requires !r.TokenRec?
    ensures SignedRow(c, r)
  {
  }

  // Opening a store of any version and with any legacy texts keeps its tokens signed and its bindings
  // naming recorded users. If it migrates well filed, all the invariants hold of every run from there.
  lemma FromMigrated(c: Codec, kv: KV, parse: M.Parse, now: Stamp, gauge: map<string, int>, calls: seq<(Ctx, Call)>)
    requires c.Valid() && M.Typed(kv) && AllSigned(c, kv) && StoreTheorems.NamesUsers(kv)
    ensures var kv' := M.Migrated(kv, parse, now);
      && AllSigned(c, kv') && StoreTheorems.NamesUsers(kv')
      && (WellFiled(kv') && GaugeExact(State(T.TablesOf(kv'), gauge)) ==>
           var s := Run(c, State(T.TablesOf(kv'), gauge), calls);
           Signed(c, s.t) && GaugeExact(s) && StoreTheorems.Referential(s.t))
  {
    hide GaugeExact, StoreTheorems.Referential, Signed, WellFiled, T.TablesOf, M.Migrated, Run;
    var kv' := M.Migrated(kv, parse, now);
    StoreTheorems.MigratedReferential(kv, parse, now);
    MigratedSigned(c, kv, parse, now);
    if WellFiled(kv') && GaugeExact(State(T.TablesOf(kv'), gauge)) {
      var s0 := State(T.TablesOf(kv'), gauge);
      GaugeConserved(c, s0, calls);
      ServiceReferential(c, s0, calls);
    }
  }
}

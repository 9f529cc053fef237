/** What the store's operations promise together: cascades, round trips, lookups and runs.

All statements are about the relational tables that every method of BadgerStore is proved against.
 */
module StoreTheorems {
  import opened ByteOrder
  import opened Records
  import opened Tables
  import M = Migration

  // ---------- the cascade of DeleteUser ----------

  lemma DeleteUserContract(t: Tables, name: string, clock: Clock)
    requires Consistent(t)
    ensures var (t', st) := DeleteUser(t, name, clock);
      && (st.Ok? <==> Live(t, UserId(name)))
      && (!st.Ok? ==> t' == t)
      && (st.Ok? ==> !Live(t', UserId(name)) && MinersOf(t', name) == {} && SignersOf(t', name) == {})
      && t'.Keys == t.Keys
      && (forall id | id in t && !Cascades(t, id, name) :: t'[id] == t[id])
      && (forall id | id in t && (id.TokenId? || id.LimitId? || (id.UserId? && id.name != name)) :: t'[id] == t[id])
      && (forall u | u != name :: MinersOf(t', u) == MinersOf(t, u) && SignersOf(t', u) == SignersOf(t, u))
  {
    var (t', st) := DeleteUser(t, name, clock);
    if st.Ok? {
      assert Cascades(t, UserId(name), name);
      forall u | u != name ensures MinersOf(t', u) == MinersOf(t, u) {
        assert forall id | id in t && id.MinerId? :: t'[id].miner.user == t[id].miner.user;
      }
    }
  }

  // The time of a tombstone, and nothing else, forgotten.
  function Timeless(r: Record): Record
  {
    match r
    case MinerRec(m) => MinerRec(m.(deletedAt := m.deletedAt.(time := if m.deletedAt.time == 0 then 0 else 1)))
    case SignerRec(s) => SignerRec(s.(deletedAt := s.deletedAt.(time := if s.deletedAt.time == 0 then 0 else 1)))
    case _ => r
  }

  function Erase(t: Tables): Tables { map id | id in t :: Timeless(t[id]) }

  lemma TimelessTombstones()
    ensures forall r: Record, a: Stamp, b: Stamp :: Timeless(r.SetDeleted(a)) == Timeless(r.SetDeleted(b))
  {
  }

  lemma SameUpToTime(t: Tables, name: string, c0: Clock, c1: Clock)
    requires Consistent(t) && Live(t, UserId(name))
    ensures Erase(Tombstone(t, Cascade(t, name), c0)) == Erase(DeleteUser(t, name, c1).0)
  {
  }

  // A cascade that stopped after some of its signer transactions can be run again: the final state
  // is that of an uninterrupted run, up to the time stamps.
  lemma InterruptedThenRepeated(t: Tables, name: string, done: set<Id>, c0: Clock, c1: Clock, c2: Clock)
    requires Consistent(t) && Live(t, UserId(name)) && done <= SignersOf(t, name)
    ensures var stopped := Tombstone(t, done, c0);
      && Consistent(stopped)
      && DeleteUser(stopped, name, c1).1.Ok?
      && Erase(DeleteUser(stopped, name, c1).0) == Erase(DeleteUser(t, name, c2).0)
  {
    var stopped := Tombstone(t, done, c0);
    TombstonesFiled(t, done, c0);
    var a, b := DeleteUser(stopped, name, c1).0, DeleteUser(t, name, c2).0;
    assert Cascade(stopped, name) == Cascade(t, name) - done;
    assert Cascades(t, UserId(name), name);
    TimelessTombstones();
    hide Timeless, Record.SetDeleted, Cascade;
    forall id | id in t ensures Timeless(a[id]) == Timeless(b[id]) {
    }
  }

  // ---------- referential integrity ----------

  // Every binding, live or tombstoned, names a user whose record exists, live or tombstoned.
  predicate Referential(t: Tables)
    requires Consistent(t)
  {
    && (forall id | id in t && id.MinerId? :: UserId(t[id].miner.user) in t)
    && (forall id | id in t && id.SignerId? :: UserId(id.user) in t)
  }

  // No operation removes a user, miner, signer or token record.
  lemma StepKeepsRows(t: Tables, op: Op)
    requires Consistent(t)
    ensures forall id | id in t && !id.LimitId? :: id in Step(t, op).0
  {
  }

  // A binding after a step was there before, to the same user, or names a user that was.
  lemma StepBinds(t: Tables, op: Op, id: Id)
    requires Consistent(t) && id in Step(t, op).0
    ensures id.MinerId? ==>
      var user := Step(t, op).0[id].miner.user;
      (id in t && t[id].miner.user == user) || UserId(user) in t
    ensures id.SignerId? ==> id in t || UserId(id.user) in t
  {
  }

  lemma StepReferential(t: Tables, op: Op)
    requires Consistent(t) && Referential(t)
    ensures Referential(Step(t, op).0)
  {
    StepKeepsRows(t, op);
    var t' := Step(t, op).0;
    hide Step;
    forall id | id in t' ensures id.MinerId? ==> UserId(t'[id].miner.user) in t'
      ensures id.SignerId? ==> UserId(id.user) in t'
    {
      StepBinds(t, op, id);
    }
  }

  lemma {:induction false} RunReferential(t: Tables, ops: seq<Op>)
    requires Consistent(t) && Referential(t)
    ensures Referential(Run(t, ops))
    ensures forall id | id in t && !id.LimitId? :: id in Run(t, ops)
    decreases |ops|
  {
    if ops != [] {
      StepReferential(t, ops[0]);
      StepKeepsRows(t, ops[0]);
      RunReferential(Step(t, ops[0]).0, ops[1..]);
    }
  }

  // The same of any key space, whether or not its miners lie under their own keys.
  ghost predicate NamesUsers(kv: KV)
  {
    forall k | k in kv ::
      && (kv[k].UserRec? ==> k == UserKey(kv[k].user.name))
      && (kv[k].MinerRec? ==> UserKey(kv[k].miner.user) in kv)
      && (kv[k].SignerRec? ==> UserKey(kv[k].signer.user) in kv)
  }

  // A well-filed store is a start for the migrations, and the two readings agree on it.
  lemma ReferentialIs(kv: KV)
    requires WellFiled(kv)
    ensures M.Typed(kv) && (NamesUsers(kv) <==> Referential(TablesOf(kv)))
  {
    M.WellFiledIsTyped(kv);
    hide KeyOf, IdOf, TablesOf, M.Typed, WellFiled, NamesUsers, Referential;
    if NamesUsers(kv) { RowsNameUsers(kv); }
    if Referential(TablesOf(kv)) { KeysNameUsers(kv); }
  }

  lemma RowsNameUsers(kv: KV)
    requires WellFiled(kv) && NamesUsers(kv)
    ensures Referential(TablesOf(kv))
  {
    hide KeyOf, IdOf, TablesOf, WellFiled, UserKey;
    var t := TablesOf(kv);
    forall id | id in t ensures id.MinerId? ==> UserId(t[id].miner.user) in t
      ensures id.SignerId? ==> UserId(id.user) in t
    {
      Lookup(kv, id);
      if id.MinerId? { UserRow(kv, t[id].miner.user); }
      if id.SignerId? { UserRow(kv, id.user); }
    }
  }

  lemma KeysNameUsers(kv: KV)
    requires WellFiled(kv) && Referential(TablesOf(kv))
    ensures NamesUsers(kv)
  {
    hide KeyOf, IdOf, TablesOf, UserKey;
    forall k | k in kv ensures kv[k].UserRec? ==> k == UserKey(kv[k].user.name)
      ensures kv[k].MinerRec? ==> UserKey(kv[k].miner.user) in kv
      ensures kv[k].SignerRec? ==> UserKey(kv[k].signer.user) in kv
    {
      Lookup(kv, IdOf(k).value);
      if kv[k].UserRec? { UserRow(kv, kv[k].user.name); }
      if kv[k].MinerRec? { UserRow(kv, kv[k].miner.user); }
      if kv[k].SignerRec? { UserRow(kv, kv[k].signer.user); }
    }
  }

  lemma UserRow(kv: KV, name: string)
    requires WellFiled(kv)
    ensures KeyOf(UserId(name)) == UserKey(name) && (UserKey(name) in kv <==> UserId(name) in TablesOf(kv))
  {
    Lookup(kv, UserId(name));
  }

  // A migration names no new user, whatever the version and the texts it finds, so a migrated store
  // is as good a start as an empty one.
  lemma MigratedReferential(kv: KV, parse: M.Parse, now: Stamp)
    requires M.Typed(kv) && NamesUsers(kv)
    ensures var kv' := M.Migrated(kv, parse, now);
      M.Typed(kv') && NamesUsers(kv') && (WellFiled(kv') ==> Referential(TablesOf(kv')))
  {
    hide M.Migrated, WellFiled, TablesOf, UserKey;
    var kv' := M.Migrated(kv, parse, now);
    M.MigratedCarries(kv, parse, now);
    forall k | k in kv' ensures kv'[k].UserRec? ==> k == UserKey(kv'[k].user.name)
      ensures kv'[k].MinerRec? ==> UserKey(kv'[k].miner.user) in kv'
      ensures kv'[k].SignerRec? ==> UserKey(kv'[k].signer.user) in kv'
    {
      if kv'[k].MinerRec? {
        assert M.NamesOwner(kv, kv'[k].miner.user);
      } else if kv'[k].UserRec? || kv'[k].SignerRec? {
        assert k in kv && kv[k] == kv'[k];
      }
    }
    if WellFiled(kv') { ReferentialIs(kv'); }
  }

  // ---------- deleting and recovering ----------

  // A live token comes back exactly when its flag was the plain 0 that GenerateToken writes.
  lemma TokenRoundTrip(t: Tables, token: string, now: Stamp)
    requires Consistent(t) && Live(t, TokenId(token))
    ensures var (deleted, st) := SoftDelete(t, TokenId(token), now);
      var (recovered, st') := Recover(deleted, TokenId(token));
      && st.Ok? && st'.Ok? && !Live(deleted, TokenId(token))
      && (recovered == t <==> t[TokenId(token)].Flag() == NOT_DELETE)
  {
    var recovered := Recover(SoftDelete(t, TokenId(token), now).0, TokenId(token)).0;
    assert recovered == t[TokenId(token) := recovered[TokenId(token)]];
    assert recovered[TokenId(token)].Flag() == NOT_DELETE;
  }

  function DeleteThenRecover(t: Tables, name: string, clock: Clock): Tables
    requires Consistent(t)
    ensures Consistent(DeleteThenRecover(t, name, clock))
  {
    TombstonesFiled(t, Cascade(t, name), clock);
    Recover(DeleteUser(t, name, clock).0, UserId(name)).0
  }

  // Recovering a user restores its record, but leaves its bindings tombstoned.
  lemma UserRoundTrip(t: Tables, name: string, clock: Clock)
    requires Consistent(t) && Live(t, UserId(name))
    ensures var (deleted, _) := DeleteUser(t, name, clock);
      var (recovered, st) := Recover(deleted, UserId(name));
      && st.Ok? && Consistent(recovered) && Live(recovered, UserId(name))
      && recovered[UserId(name)].user == t[UserId(name)].user.(isDeleted := NOT_DELETE)
      && recovered == deleted[UserId(name) := recovered[UserId(name)]]
      && (forall id | id in MinersOf(t, name) + SignersOf(t, name) :: id in recovered && !Live(recovered, id))
      && (recovered[UserId(name)] == t[UserId(name)] <==>
           t[UserId(name)].Flag() == NOT_DELETE && t[UserId(name)].legacyMiner == "")
  {
    assert Cascades(t, UserId(name), name);
  }

  // The relation a caller sees: who is live, which miner belongs to whom, which bindings hold.
  function Relation(t: Tables): map<Id, (string, Option<bool>)>
    requires Consistent(t)
  {
    map id | id in t && Live(t, id) && (id.UserId? || id.MinerId? || id.SignerId?) ::
      if id.MinerId? then (t[id].miner.user, t[id].miner.openMining) else ("", None)
  }

  // Binds a miner or signer of the user again, with the openMining it had.
  function RebindOne(t: Tables, orig: Tables, name: string, id: Id, now: Stamp): (t': Tables)
    requires Consistent(t) && Consistent(orig) && id in MinersOf(orig, name) + SignersOf(orig, name)
    ensures Consistent(t')
  {
    if id.MinerId? then UpsertMiner(t, id.miner, name, orig[id].miner.openMining, now).0
    else RegisterSigner(t, id.signer, name, now).0
  }

  function Rebind(t: Tables, orig: Tables, name: string, ids: seq<Id>, now: Stamp): (t': Tables)
    requires Consistent(t) && Consistent(orig)
    requires forall id | id in ids :: id in MinersOf(orig, name) + SignersOf(orig, name)
    ensures Consistent(t')
    decreases |ids|
  {
    if ids == [] then t else Rebind(RebindOne(t, orig, name, ids[0], now), orig, name, ids[1..], now)
  }

  lemma RebindOneRestores(t: Tables, orig: Tables, name: string, id: Id, now: Stamp)
    requires Consistent(t) && Consistent(orig) && UserId(name) in t
    requires id in MinersOf(orig, name) + SignersOf(orig, name)
    ensures UserId(name) in RebindOne(t, orig, name, id, now)
    ensures id in Relation(orig)
    ensures Relation(RebindOne(t, orig, name, id, now)) == Relation(t)[id := Relation(orig)[id]]
  {
    var t' := RebindOne(t, orig, name, id, now);
    assert id.SignerId? ==> id == SignerId(id.signer, name);
    assert id in t' && t' == t[id := t'[id]] && !t'[id].IsDeleted();
  }

  // The table `m` with the rows `ids` taken from `from`.
  function Overwrite<V>(m: map<Id, V>, from: map<Id, V>, ids: seq<Id>): map<Id, V>
    requires forall id | id in ids :: id in from
  {
    map id | id in m.Keys + (set i | i in ids) :: if id in ids then from[id] else m[id]
  }

  lemma {:induction false} RebindRestores(t: Tables, orig: Tables, name: string, ids: seq<Id>, now: Stamp)
    requires Consistent(t) && Consistent(orig) && UserId(name) in t
    requires forall id | id in ids :: id in MinersOf(orig, name) + SignersOf(orig, name)
    ensures forall id | id in ids :: id in Relation(orig)
    ensures Relation(Rebind(t, orig, name, ids, now)) == Overwrite(Relation(t), Relation(orig), ids)
    decreases |ids|
  {
    hide Relation, RebindOne, Overwrite, MinersOf, SignersOf;
    if ids == [] {
      OverwriteNone(Relation(t), Relation(orig));
    } else {
      RebindOneRestores(t, orig, name, ids[0], now);
      RebindRestores(RebindOne(t, orig, name, ids[0], now), orig, name, ids[1..], now);
      OverwriteHead(Relation(t), Relation(orig), ids);
    }
  }

  lemma OverwriteNone<V>(m: map<Id, V>, from: map<Id, V>)
    ensures Overwrite(m, from, []) == m
  {
  }

  lemma OverwriteHead<V>(m: map<Id, V>, from: map<Id, V>, ids: seq<Id>)
    requires ids != [] && ids[0] in from && forall id | id in ids[1..] :: id in from
    ensures forall id | id in ids :: id in from
    ensures Overwrite(m, from, ids) == Overwrite(m[ids[0] := from[ids[0]]], from, ids[1..])
  {
    assert ids == [ids[0]] + ids[1..];
  }

  // Binding removes no row.
  lemma {:induction false} RebindKeepsRows(t: Tables, orig: Tables, name: string, ids: seq<Id>, now: Stamp)
    requires Consistent(t) && Consistent(orig)
    requires forall id | id in ids :: id in MinersOf(orig, name) + SignersOf(orig, name)
    ensures t.Keys <= Rebind(t, orig, name, ids, now).Keys
    decreases |ids|
  {
    if ids != [] { RebindKeepsRows(RebindOne(t, orig, name, ids[0], now), orig, name, ids[1..], now); }
  }

  // Delete, recover, and bind each of the old bindings again, in any order: the relation is back.
  lemma DeleteRecoverRebind(t: Tables, name: string, clock: Clock, ids: seq<Id>, now: Stamp)
    requires Consistent(t) && Live(t, UserId(name))
    requires forall id :: id in ids <==> id in MinersOf(t, name) + SignersOf(t, name)
    ensures Relation(Rebind(DeleteThenRecover(t, name, clock), t, name, ids, now)) == Relation(t)
  {
    hide Rebind;
    UserRoundTrip(t, name, clock);
    RebindRestores(DeleteThenRecover(t, name, clock), t, name, ids, now);
    RelationAfterRecover(t, name, clock);
  }

  // At its turn each of them has a record, so that binding a miner again never reports a creation.
  lemma RebindCreatesNothing(t: Tables, name: string, clock: Clock, ids: seq<Id>, i: nat, now: Stamp)
    requires Consistent(t) && Live(t, UserId(name)) && i < |ids|
    requires forall id | id in ids :: id in MinersOf(t, name) + SignersOf(t, name)
    ensures ids[i] in Rebind(DeleteThenRecover(t, name, clock), t, name, ids[..i], now)
  {
    hide Relation, Rebind;
    UserRoundTrip(t, name, clock);
    RebindKeepsRows(DeleteThenRecover(t, name, clock), t, name, ids[..i], now);
  }

  lemma RelationAfterRecover(t: Tables, name: string, clock: Clock)
    requires Consistent(t) && Live(t, UserId(name))
    ensures Relation(DeleteThenRecover(t, name, clock)) == Relation(t) - (MinersOf(t, name) + SignersOf(t, name))
  {
    var recovered := DeleteThenRecover(t, name, clock);
    assert Cascades(t, UserId(name), name);
    forall id | id in t ensures Live(recovered, id) <==> Live(t, id) && id !in MinersOf(t, name) + SignersOf(t, name) {
    }
  }

  // ---------- signer addresses ----------

  function BindingsOf(t: Tables, a: Addr): set<Id> { set id | id in t && Live(t, id) && id.SignerId? && id.signer == a }

  // Is a live binding filed under a longer address that starts with `a`?
  ghost predicate Overreached(t: Tables, a: Addr) { exists id :: Live(t, id) && id.SignerId? && a < id.signer }

  // HasSigner answers for the address asked unless only a longer address is bound.
  lemma HasSignerExact(t: Tables, a: Addr)
    ensures (ReachedBy(t, a) != {} <==> BindingsOf(t, a) != {}) <==> (BindingsOf(t, a) != {} || !Overreached(t, a))
    ensures BindingsOf(t, a) != {} <==> exists u :: Live(t, SignerId(a, u))
  {
    forall id ensures id in ReachedBy(t, a) <==>
      id in BindingsOf(t, a) || (Live(t, id) && id.SignerId? && a < id.signer)
    {
      assert id.SignerId? ==> (a <= id.signer <==> a == id.signer || a < id.signer);
    }
    if BindingsOf(t, a) != {} {
      var id :| id in BindingsOf(t, a);
      assert Live(t, SignerId(a, id.user));
    }
    if u :| Live(t, SignerId(a, u)) {
      assert SignerId(a, u) in BindingsOf(t, a);
    }
  }

  // DelSigner tombstones the bindings of its address and nothing else exactly when no longer address
  // starting with it is bound.
  lemma DelSignerExact(t: Tables, a: Addr, clock: Clock)
    requires Consistent(t)
    ensures DelSigner(t, a, clock).0 == Tombstone(t, BindingsOf(t, a), clock) <==> !Overreached(t, a)
    ensures !Overreached(t, a) ==> (DelSigner(t, a, clock).1 <==> BindingsOf(t, a) != {})
  {
    if id :| Live(t, id) && id.SignerId? && a < id.signer {
      assert id in ReachedBy(t, a) && id !in BindingsOf(t, a);
      assert DelSigner(t, a, clock).0[id].IsDeleted();
    } else {
      assert forall id | id in t && Live(t, id) && id.SignerId? :: a <= id.signer <==> a == id.signer;
      assert ReachedBy(t, a) == BindingsOf(t, a);
    }
  }

  predicate NamesBinding(k: Key) { IdOf(k).Some? && IdOf(k).value.SignerId? && k == KeyOf(IdOf(k).value) }

  lemma {:induction false} UsersOfLength(keys: seq<Key>)
    requires forall k | k in keys :: NamesBinding(k)
    ensures |UsersOf(keys)| == |keys|
  {
    hide KeyOf, IdOf;
    if keys != [] {
      var before, k := keys[..|keys| - 1], keys[|keys| - 1];
      UsersOfLength(before);
      assert NamesBinding(k);
      UsersOfSnoc(before, IdOf(k).value);
      assert keys == before + [k];
    }
  }

  // The list of users has one entry per binding walked.
  lemma OneUserEach(ids: set<Id>)
    requires forall id | id in ids :: id.SignerId?
    ensures |UsersOf(InKeyOrder(ids))| == |ids|
  {
    hide KeyOf, IdOf;
    forall k | k in InKeyOrder(ids) ensures NamesBinding(k) {
      var id := RowKeyed(ids, k);
      KeyNamesRow(id);
    }
    UsersOfLength(InKeyOrder(ids));
    InKeyOrderLength(ids);
  }

  lemma ProperSubsetSmaller(a: set<Id>, b: set<Id>)
    requires a < b
    ensures |a| < |b|
  {
    assert b == a + (b - a);
  }

  // GetUserBySigner answers for the live bindings of the address asked exactly when the walk meets
  // no others, neither tombstones nor bindings of longer addresses, or both answers are the error. It
  // fails for want of a user of those others exactly when the live bindings would have given a list
  // and some other binding names a user that is not live.
  lemma GetUserBySignerExact(t: Tables, a: Addr)
    ensures var walked, asked := UsersBehind(t, BoundTo(t, a)), UsersBehind(t, BindingsOf(t, a));
      && (walked == asked <==>
           || (forall id | id in BoundTo(t, a) :: Live(t, id) && id.signer == a)
           || (exists id :: id in BindingsOf(t, a) && !Live(t, UserId(id.user))))
      && (walked.None? && asked.Some? <==>
           && (forall id | id in BindingsOf(t, a) :: Live(t, UserId(id.user)))
           && (exists id :: id in BoundTo(t, a) - BindingsOf(t, a) && !Live(t, UserId(id.user))))
  {
    hide UsersOf, InKeyOrder, KeyOf;
    var bound, mine := BoundTo(t, a), BindingsOf(t, a);
    assert mine <= bound;
    OneUserEach(bound);
    OneUserEach(mine);
    if id :| id in bound && !(Live(t, id) && id.signer == a) {
      assert id !in mine;
      ProperSubsetSmaller(mine, bound);
    } else {
      assert mine == bound;
    }
  }

  predicate NamesUser(k: Key, u: string) { NamesBinding(k) && IdOf(k).value.user == u }

  lemma LastUser(before: seq<Key>, k: Key, u: string)
    requires NamesBinding(k)
    ensures KeyOf(UserId(u)) in UsersOf(before + [k]) <==> KeyOf(UserId(u)) in UsersOf(before) || NamesUser(k, u)
  {
    hide KeyOf, IdOf, UsersOf;
    UsersOfSnoc(before, IdOf(k).value);
    KeyNamesRow(UserId(u));
    KeyNamesRow(UserId(IdOf(k).value.user));
  }

  lemma {:induction false} UsersOfMember(keys: seq<Key>, u: string)
    requires forall k | k in keys :: NamesBinding(k)
    ensures KeyOf(UserId(u)) in UsersOf(keys) <==> exists k :: k in keys && NamesUser(k, u)
  {
    if keys != [] {
      hide KeyOf, IdOf, UsersOf, NamesBinding, NamesUser;
      var before, k := keys[..|keys| - 1], keys[|keys| - 1];
      assert keys == before + [k] && k in keys;
      UsersOfMember(before, u);
      LastUser(before, k, u);
    }
  }

  // The list of users names the users of the bindings walked and nobody else.
  lemma UsersListed(ids: set<Id>, u: string)
    requires forall id | id in ids :: id.SignerId?
    ensures KeyOf(UserId(u)) in UsersOf(InKeyOrder(ids)) <==> exists id :: id in ids && id.user == u
  {
    hide KeyOf, IdOf, UsersOf, InKeyOrder;
    InKeyOrderIs(ids);
    KeysNameRows();
    forall k | k in InKeyOrder(ids) ensures NamesBinding(k) && IdOf(k).value in ids { KeyListed(ids, k); }
    UsersOfMember(InKeyOrder(ids), u);
    if id :| id in ids && id.user == u { assert KeyOf(id) in InKeyOrder(ids); }
  }

  lemma KeyListed(ids: set<Id>, k: Key)
    requires k in InKeyOrder(ids) && forall id | id in ids :: id.SignerId?
    ensures NamesBinding(k) && IdOf(k).value in ids
  {
    hide KeyOf, IdOf;
    var id := RowKeyed(ids, k);
    KeyNamesRow(id);
  }

  // Whatever the store: once registered and unregistered, a user does not hold the address, and yet
  // every answer for it names the user, alone if nobody else was ever bound there.
  lemma TombstoneStillAnswers(t: Tables, a: Addr, name: string, now: Stamp, later: Stamp)
    requires Consistent(t) && Live(t, UserId(name))
    ensures var t' := UnregisterSigner(RegisterSigner(t, a, name, now).0, a, name, later).0;
      var walked, asked := UsersBehind(t', BoundTo(t', a)), UsersBehind(t', BindingsOf(t', a));
      && (asked.Some? ==> KeyOf(UserId(name)) !in asked.value)
      && (walked.Some? <==> forall id | id in BoundTo(t, a) :: Live(t, UserId(id.user)))
      && (walked.Some? ==> KeyOf(UserId(name)) in walked.value)
      && (BoundTo(t, a) == {} ==> BindingsOf(t', a) == {} && walked == Some([KeyOf(UserId(name))]))
  {
    hide KeyOf, IdOf, InKeyOrder, UsersOf;
    var id := SignerId(a, name);
    var t' := UnregisterSigner(RegisterSigner(t, a, name, now).0, a, name, later).0;
    assert t' == t[id := t'[id]] && t'[id].IsDeleted();
    forall i ensures i in BoundTo(t', a) <==> i in BoundTo(t, a) || i == id { BoundMember(t, a, i); }
    assert BoundTo(t', a) == BoundTo(t, a) + {id};
    UsersListed(BoundTo(t', a), name);
    UsersListed(BindingsOf(t', a), name);
    if BoundTo(t, a) == {} {
      assert BoundTo(t', a) == {id};
      OneUser(id);
      assert BindingsOf(t', a) <= BoundTo(t', a);
    }
  }

  lemma OneUser(id: Id)
    requires id.SignerId?
    ensures UsersOf(InKeyOrder({id})) == [KeyOf(UserId(id.user))]
  {
    hide KeyOf, IdOf, InKeyOrder;
    InKeyOrderOne(id);
    UsersOfSnoc([], id);
    assert [] + [KeyOf(id)] == [KeyOf(id)] && UsersOf([]) == [];
  }

  lemma InKeyOrderOne(id: Id)
    ensures InKeyOrder({id}) == [KeyOf(id)]
  {
    InKeyOrderLength({id});
    InKeyOrderIs({id});
    assert KeyOf(id) in InKeyOrder({id});
  }

  // Deleting a user leaves the addresses of its bindings without an answer, however many live users
  // hold them.
  lemma DeletedUserHidesOthers(t: Tables, a: Addr, id: Id, clock: Clock)
    requires Consistent(t) && id in BoundTo(t, a) && Live(t, UserId(id.user))
    ensures UsersBehind(DeleteUser(t, id.user, clock).0, BoundTo(DeleteUser(t, id.user, clock).0, a)).None?
  {
    DeleteUserContract(t, id.user, clock);
    assert id in BoundTo(DeleteUser(t, id.user, clock).0, a);
  }

  // Two delegated addresses, each with a valid checksum, one a proper prefix of the other.
  const SHORT_ADDR: Addr := "f410fahvd3t3p"
  const LONG_ADDR: Addr := "f410fahvd3t3pugrx2iq"

  lemma ShortStartsLong()
    ensures SHORT_ADDR < LONG_ADDR
  {
    assert LONG_ADDR[..13] == SHORT_ADDR;
  }

  // Deleting the short one, which is not bound, unbinds the long one.
  lemma DelSignerOverreaches()
    ensures var row := SignerRec(Signer(LONG_ADDR, "bob", 1, 1, DeletedAt(true, 0)));
      var t: Tables := map[SignerId(LONG_ADDR, "bob") := row];
      && Consistent(t) && BindingsOf(t, SHORT_ADDR) == {}
      && DelSigner(t, SHORT_ADDR, _ => 7).1
      && !Live(DelSigner(t, SHORT_ADDR, _ => 7).0, SignerId(LONG_ADDR, "bob"))
  {
    var id := SignerId(LONG_ADDR, "bob");
    var t: Tables := map[id := SignerRec(Signer(LONG_ADDR, "bob", 1, 1, DeletedAt(true, 0)))];
    ShortStartsLong();
    assert id in ReachedBy(t, SHORT_ADDR);
  }

  // ---------- rate limits ----------

  lemma PutRateLimitIsUpdate(t: Tables, limit: RateLimit, name: string)
    requires Consistent(t)
    ensures LimitsOf(PutRateLimit(t, limit), name) ==
            if name == limit.name then LimitsOf(t, name)[limit.id := limit] else LimitsOf(t, name)
  {
  }

  // What removing one entry would mean; a user without entries has no row.
  function WithoutLimit(t: Tables, name: string, id: string): Tables
    requires Consistent(t)
  {
    var rest := LimitsOf(t, name) - {id};
    if rest == map[] then t - {LimitId(name)} else t[LimitId(name) := LimitRec(rest)]
  }

  // DelRateLimit of a present id drops all of the user's limits: it removes one entry exactly when
  // the user has no other.
  lemma DelRateLimitExact(t: Tables, name: string, id: string)
    requires Consistent(t) && name != "" && id != "" && id in LimitsOf(t, name)
    ensures var (t', st) := DelRateLimit(t, name, id);
      && st.Ok? && LimitsOf(t', name) == map[]
      && (t' == WithoutLimit(t, name, id) <==> LimitsOf(t, name).Keys == {id})
  {
    var rest := LimitsOf(t, name) - {id};
    assert rest.Keys == LimitsOf(t, name).Keys - {id};
    if rest == map[] {
      assert LimitsOf(t, name).Keys == {id} by { assert rest.Keys == {}; }
    } else {
      assert LimitId(name) in WithoutLimit(t, name, id);
      assert rest.Keys != {};
    }
  }

  // Two limits, one deleted: both are gone.
  lemma DelRateLimitDropsOthers()
    ensures var a, b := RateLimit("1", "ann", "", "", 10, 60), RateLimit("2", "ann", "", "", 20, 60);
      var t: Tables := map[LimitId("ann") := LimitRec(map["1" := a, "2" := b])];
      && Consistent(t) && "2" in LimitsOf(t, "ann")
      && Consistent(DelRateLimit(t, "ann", "1").0) && LimitsOf(DelRateLimit(t, "ann", "1").0, "ann") == map[]
  {
    assert "1"[0] != "2"[0];
    var limits := map["1" := RateLimit("1", "ann", "", "", 10, 60), "2" := RateLimit("2", "ann", "", "", 20, 60)];
    assert "1" in limits;
  }
}

/** The badger-backed store (storage/badger.go, storage/badger_helper.go).

Every method runs badger's transactions over the shared key space, and its contract is the
relational operation of module Tables on the tables the key space represents.
 */
module BadgerStore {
  import opened ByteOrder
  import opened Records
  import opened Badger
  import C = Transactions
  import T = Tables
  import M = Migration
  import opened Pages

  class BadgerStore {
    var db: Db

    ghost predicate Valid()
      reads this
    {
      db.Valid() && WellFiled(db.kv)
    }

    ghost function View(): T.Tables
      requires Valid()
      reads this
    {
      T.TablesOf(db.kv)
    }

    ghost predicate TokensFiled()
      reads this
    {
      WellFiled(T.TokenSpace(db.kv))
    }

    ghost function TokenView(): T.Tables
      requires TokensFiled()
      reads this
    {
      T.TablesOf(T.TokenSpace(db.kv))
    }

    constructor ()
      ensures Valid() && View() == map[]
    {
      db := Db(map[], 0, map[]);
    }

    // NewStore: opens what an earlier run left and brings it to the current version.
    constructor Open(kv: KV, parse: M.Parse, now: Stamp)
      requires M.Typed(kv)
      ensures db.Valid() && M.Typed(db.kv) && db.kv == M.Migrated(kv, parse, now)
    {
      db := Db(kv, 0, map[]);
      new;
      StoreMigrate(parse, now);
    }

    // ---------- helpers over one key ----------

    // The end of a db.Update call.
    method Commit(txn: Txn) returns (st: T.Status)
      modifies this
      ensures st == if old(db).Conflicts(txn) then T.Conflict else T.Ok
      ensures db == if st.Ok? then old(db).Commit(txn.writes) else old(db)
    {
      if db.Conflicts(txn) {
        return T.Conflict;
      }
      db := db.Commit(txn.writes);
      st := T.Ok;
    }

    method Put(id: Id, r: Record) returns (st: T.Status)
      requires Valid() && r.Filed(id)
      modifies this
      ensures Valid() && View() == old(View())[id := r] && st.Ok?
      ensures C.Ran(C.PutRow(id, r), old(db), db, st)
    {
      T.PutCommutes(db.kv, id, r);
      CommitOne(db, KeyOf(id), Some(r));
      st := Commit(db.Begin().Set(KeyOf(id), r));
    }

    method DelObj(id: Id) returns (st: T.Status)
      requires Valid()
      modifies this
      ensures Valid()
      ensures st == if id in old(View()) then T.Ok else T.KeyNotFound
      ensures View() == old(View()) - {id}
      ensures C.Ran(C.DropRow(id), old(db), db, st)
    {
      hide T.TablesOf, KeyOf, IdOf, WellFiled;
      T.Lookup(db.kv, id);
      T.RemoveCommutes(db.kv, id);
      CommitOne(db, KeyOf(id), None);
      var txn := db.Begin();
      NoConflict(db, txn.Read(KeyOf(id)).Delete(KeyOf(id)));
      if txn.Get(KeyOf(id)).None? {
        return T.KeyNotFound;
      }
      st := Commit(txn.Read(KeyOf(id)).Delete(KeyOf(id)));
    }

    method SoftDelObj(id: Id, now: Stamp) returns (st: T.Status)
      requires Valid()
      modifies this
      ensures Valid() && (View(), st) == T.SoftDelete(old(View()), id, now)
      ensures forall k | k != KeyOf(id) :: db.LastWrite(k) == old(db.LastWrite(k))
      ensures C.Ran(C.SoftDelRow(id, now), old(db), db, st)
    {
      T.Lookup(db.kv, id);
      var txn := db.Begin();
      var val := txn.Get(KeyOf(id));
      txn := txn.Read(KeyOf(id));
      if val.None? {
        return T.KeyNotFound;
      }
      if val.value.IsDeleted() {
        return T.NotExist;
      }
      T.PutCommutes(db.kv, id, val.value.SetDeleted(now));
      CommitOne(db, KeyOf(id), Some(val.value.SetDeleted(now)));
      txn := txn.Set(KeyOf(id), val.value.SetDeleted(now));
      NoConflict(db, txn);
      st := Commit(txn);
    }

    method GetObj(id: Id) returns (r: Option<Record>)
      requires Valid()
      ensures r == if id in View() then Some(View()[id]) else None
    {
      T.Lookup(db.kv, id);
      r := db.Begin().Get(KeyOf(id));
    }

    // A tombstone reads as a missing key.
    method GetUsableObj(id: Id) returns (r: Option<Record>)
      requires Valid()
      ensures r == if T.Live(View(), id) then Some(View()[id]) else None
    {
      r := GetObj(id);
      if r.Some? && r.value.IsDeleted() {
        return None;
      }
    }

    method IsExist(id: Id) returns (exist: bool)
      requires Valid()
      ensures exist == T.Live(View(), id)
    {
      var r := GetObj(id);
      exist := r.Some? && !r.value.IsDeleted();
    }

    // ---------- tokens ----------

    method PutToken(kp: KeyPair) returns (st: T.Status)
      requires Valid()
      modifies this
      ensures Valid() && (View(), st) == T.Step(old(View()), T.OpPut(kp))
    {
      hide T.TablesOf, KeyOf, IdOf, WellFiled, C.Ran;
      st := Put(TokenId(kp.token), TokenRec(kp));
    }

    method Delete(token: string, now: Stamp) returns (st: T.Status)
      requires Valid()
      modifies this
      ensures Valid() && (View(), st) == T.Step(old(View()), T.OpDelete(token, now))
    {
      st := SoftDelObj(TokenId(token), now);
    }

    method Recover(token: string) returns (st: T.Status)
      requires Valid()
      modifies this
      ensures Valid() && (View(), st) == T.Step(old(View()), T.OpRecover(token))
    {
      var r := GetObj(TokenId(token));
      if r.None? {
        return T.KeyNotFound;
      }
      if r.value.token.isDeleted == NOT_DELETE {
        return T.NotDeleted;
      }
      st := Put(TokenId(token), TokenRec(r.value.token.(isDeleted := NOT_DELETE)));
    }

    method Has(token: string) returns (has: bool)
      requires Valid()
      ensures has == T.Live(View(), TokenId(token))
    {
      has := IsExist(TokenId(token));
    }

    method Get(token: string) returns (kp: Option<KeyPair>)
      requires Valid()
      ensures kp == if T.Live(View(), TokenId(token)) then Some(View()[TokenId(token)].token) else None
    {
      var r := GetUsableObj(TokenId(token));
      kp := if r.Some? then Some(r.value.token) else None;
    }

    // ---------- users ----------

    method PutUser(user: User) returns (st: T.Status)
      requires Valid()
      modifies this
      ensures Valid() && (View(), st) == T.Step(old(View()), T.OpPutUser(user))
    {
      hide T.TablesOf, KeyOf, IdOf, WellFiled, C.Ran;
      st := Put(UserId(user.name), UserRec(user, ""));
    }

    method HasUser(name: string) returns (has: bool)
      requires Valid()
      ensures has == T.Live(View(), UserId(name))
    {
      has := IsExist(UserId(name));
    }

    method GetUser(name: string) returns (user: Option<User>)
      requires Valid()
      ensures user == if T.Live(View(), UserId(name)) then Some(View()[UserId(name)].user) else None
    {
      var r := GetUsableObj(UserId(name));
      user := if r.Some? then Some(r.value.user) else None;
    }

    method VerifyUsers(names: seq<string>) returns (ok: bool)
      requires Valid()
      ensures ok <==> forall n | n in names :: T.Live(View(), UserId(n))
    {
      hide T.TablesOf, KeyOf, IdOf, WellFiled;
      for i := 0 to |names|
        invariant forall n | n in names[..i] :: T.Live(View(), UserId(n))
      {
        var user := GetUser(names[i]);
        if user.None? {
          assert names[i] in names;
          return false;
        }
      }
      ok := true;
    }

    method RecoverUser(name: string) returns (st: T.Status)
      requires Valid()
      modifies this
      ensures Valid() && (View(), st) == T.Step(old(View()), T.OpRecoverUser(name))
    {
      var r := GetObj(UserId(name));
      if r.None? {
        return T.KeyNotFound;
      }
      if r.value.user.isDeleted == NOT_DELETE {
        return T.NotDeleted;
      }
      st := Put(UserId(name), UserRec(r.value.user.(isDeleted := NOT_DELETE), ""));
    }

    // ---------- rate limits ----------

    method ListRateLimits(name: string, id: string) returns (limits: Option<map<string, RateLimit>>)
      requires Valid()
      ensures limits.None? <==> LimitId(name) !in View()
      ensures limits.Some? ==> limits.value == T.Matching(T.LimitsOf(View(), name), id)
    {
      var r := GetObj(LimitId(name));
      if r.None? {
        return None;
      }
      var all := r.value.limits;
      if id != "" {
        return Some(if id in all then map[id := all[id]] else map[]);
      }
      limits := Some(all);
    }

    // The entries, in whatever order the Go map yields them.
    method GetRateLimits(name: string, id: string) returns (limits: seq<RateLimit>)
      requires Valid()
      ensures var m := T.Matching(T.LimitsOf(View(), name), id);
        && |limits| == |m|
        && (forall l | l in limits :: l.id in m && m[l.id] == l)
        && (forall i | i in m :: m[i] in limits)
      ensures forall l: RateLimit :: l in limits <==>
        && LimitId(name) in View() && l.id in View()[LimitId(name)].limits && View()[LimitId(name)].limits[l.id] == l
        && (id == "" || l.id == id)
    {
      T.Lookup(db.kv, LimitId(name));
      var m := ListRateLimits(name, id);
      if m.None? {
        return [];
      }
      forall l: RateLimit ensures (l.id in m.value && m.value[l.id] == l) <==>
        l.id in View()[LimitId(name)].limits && View()[LimitId(name)].limits[l.id] == l && (id == "" || l.id == id)
      {
        T.MatchingIs(View()[LimitId(name)].limits, id, l);
      }
      hide T.TablesOf, WellFiled, KeyOf, IdOf, T.Matching;
      limits := [];
      var rest := m.value.Keys;
      while rest != {}
        invariant rest <= m.value.Keys
        invariant |limits| == |m.value| - |rest|
        invariant forall l | l in limits :: l.id in m.value && m.value[l.id] == l
        invariant forall i | i in m.value.Keys - rest :: m.value[i] in limits
        decreases rest
      {
        var i :| i in rest;
        limits := limits + [m.value[i]];
        rest := rest - {i};
      }
    }

    method PutRateLimit(limit: RateLimit, uuid: string) returns (id: string, st: T.Status)
      requires Valid()
      modifies this
      ensures id == if limit.id == "" then uuid else limit.id
      ensures Valid() && st.Ok? && View() == T.PutRateLimit(old(View()), limit.(id := id))
    {
      id := if limit.id == "" then uuid else limit.id;
      var found := ListRateLimits(limit.name, "");
      var limits := if found.Some? then found.value else map[];
      T.MatchingAll(T.LimitsOf(View(), limit.name));
      st := UpdateUserRateLimit(limit.(id := id), limits);
    }

    // Writes `limits` with one entry added or replaced.
    method UpdateUserRateLimit(limit: RateLimit, limits: map<string, RateLimit>) returns (st: T.Status)
      requires Valid() && limits == T.LimitsOf(View(), limit.name)
      modifies this
      ensures Valid() && st.Ok? && View() == T.PutRateLimit(old(View()), limit)
    {
      assert limit.id in limits[limit.id := limit];
      st := Put(LimitId(limit.name), LimitRec(limits[limit.id := limit]));
    }

    method DelRateLimit(name: string, id: string) returns (st: T.Status)
      requires Valid()
      modifies this
      ensures Valid() && (View(), st) == T.Step(old(View()), T.OpDelRateLimit(name, id))
    {
      if |name| == 0 || |id| == 0 {
        return T.ArgumentMissing;
      }
      T.Lookup(db.kv, LimitId(name));
      var found := ListRateLimits(name, id);
      if found.None? {
        return T.KeyNotFound;
      }
      if id !in found.value {
        return T.Ok;
      }
      var rest := found.value - {id};
      if |rest| == 0 {
        st := DelObj(LimitId(name));
      } else {
        assert false;  // listRateLimits already narrowed the map to this id
      }
    }

    // ---------- scans ----------

    method ByName(name: string) returns (kps: seq<KeyPair>)
      requires Valid()
      ensures TokenKeys(kps) == T.InKeyOrder(T.TokensNamed(View(), name))
      ensures forall r | r in kps :: T.Holds(View(), TokenId(r.token), TokenRec(r))
    {
      hide T.TablesOf, T.KeysOf, T.InKeyOrder, KeyOf, IdOf, Scan, SortedKeys, WellFiled;
      ghost var ids := T.TokensNamed(View(), name);
      T.ScanTable(db.kv, PREFIX_TOKEN, ids);
      var items := WalkThroughPrefix(db.kv.Keys, PREFIX_TOKEN);
      kps := [];
      for i := 0 to |items|
        invariant TokenKeys(kps) == Kept(items, i, T.KeysOf(ids))
        invariant forall r | r in kps :: T.Holds(View(), TokenId(r.token), TokenRec(r))
      {
        ghost var id := T.Visit(db.kv, PREFIX_TOKEN, items[i]);
        T.KeysOfMember(ids, id);
        var r := db.kv[items[i]].token;
        if r.name == name && r.isDeleted != DELETED {
          kps := kps + [r];
        }
      }
    }

    method ListMiners(user: string) returns (miners: seq<Miner>)
      requires Valid()
      ensures MinerKeys(miners) == T.InKeyOrder(T.MinersOf(View(), user))
      ensures forall r | r in miners :: T.Holds(View(), MinerId(r.miner), MinerRec(r))
    {
      hide T.TablesOf, T.KeysOf, T.InKeyOrder, KeyOf, IdOf, Scan, SortedKeys, WellFiled;
      ghost var ids := T.MinersOf(View(), user);
      T.ScanTable(db.kv, PREFIX_MINER, ids);
      var items := WalkThroughPrefix(db.kv.Keys, PREFIX_MINER);
      miners := [];
      for i := 0 to |items|
        invariant MinerKeys(miners) == Kept(items, i, T.KeysOf(ids))
        invariant forall r | r in miners :: T.Holds(View(), MinerId(r.miner), MinerRec(r))
      {
        ghost var id := T.Visit(db.kv, PREFIX_MINER, items[i]);
        T.KeysOfMember(ids, id);
        var r := db.kv[items[i]].miner;
        if r.user == user && !r.deletedAt.Set() {
          miners := miners + [r];
        }
      }
    }

    method ListSigner(user: string) returns (signers: seq<Signer>)
      requires Valid()
      ensures SignerKeys(signers) == T.InKeyOrder(T.SignersOf(View(), user))
      ensures forall r | r in signers :: T.Holds(View(), SignerId(r.signer, r.user), SignerRec(r))
    {
      hide T.TablesOf, T.KeysOf, T.InKeyOrder, KeyOf, IdOf, Scan, SortedKeys, WellFiled;
      ghost var ids := T.SignersOf(View(), user);
      T.ScanTable(db.kv, PREFIX_SIGNER, ids);
      var items := WalkThroughPrefix(db.kv.Keys, PREFIX_SIGNER);
      signers := [];
      for i := 0 to |items|
        invariant SignerKeys(signers) == Kept(items, i, T.KeysOf(ids))
        invariant forall r | r in signers :: T.Holds(View(), SignerId(r.signer, r.user), SignerRec(r))
      {
        ghost var id := T.Visit(db.kv, PREFIX_SIGNER, items[i]);
        T.KeysOfMember(ids, id);
        var r := db.kv[items[i]].signer;
        if r.user == user && !r.deletedAt.Set() {
          signers := signers + [r];
        }
      }
    }

    // Needs the tokens well filed, whatever else the store holds.
    method List(skip: int, limit: int) returns (kps: seq<KeyPair>)
      requires Valid() || TokensFiled()
      ensures TokensFiled()
      ensures TokenKeys(kps) == T.Listed(T.LiveTokens(TokenView()), T.TokenRows(TokenView()), skip, limit)
      ensures forall r | r in kps :: T.Holds(TokenView(), TokenId(r.token), TokenRec(r))
      ensures Valid() ==> TokenKeys(kps) == T.Listed(T.LiveTokens(View()), T.TokenRows(View()), skip, limit)
    {
      hide T.TablesOf, T.KeysOf, T.InKeyOrder, KeyOf, IdOf, Scan, SortedKeys, WellFiled;
      hide Drop, Take, PageOf, Kept, T.Leads;
      if Valid() { T.TokensAlone(db.kv); }
      ghost var ids := T.LiveTokens(TokenView());
      T.ScanTokens(db.kv);
      T.ScanTable(T.TokenSpace(db.kv), PREFIX_TOKEN, ids);
      var items := WalkThroughPrefix(db.kv.Keys, PREFIX_TOKEN);
      var offset := 0;
      kps := [];
      KeptNone(items, T.KeysOf(ids), skip);
      T.ScanRows(T.TokenSpace(db.kv), PREFIX_TOKEN, T.TokenRows(TokenView()));
      T.FirstRow(ids, T.TokenRows(TokenView()));
      ghost var lead, live := items != [] && items[0] in T.KeysOf(ids), [];
      var i, continueWalk := 0, true;
      while i < |items| && continueWalk
        invariant i <= |items| && live == Kept(items, i, T.KeysOf(ids)) && offset == |live|
        invariant TokenKeys(kps) == Drop(live, skip)
        invariant continueWalk <==> i == 0 || limit == 0 || offset - skip < limit
        invariant limit != 0 && skip + limit > 0 ==> offset <= skip + limit
        invariant limit != 0 && skip + limit <= 0 ==> i <= 1 && offset == if i == 1 && lead then 1 else 0
        invariant forall r | r in kps :: T.Holds(TokenView(), TokenId(r.token), TokenRec(r))
      {
        ghost var id := T.Visit(T.TokenSpace(db.kv), PREFIX_TOKEN, items[i]);
        T.KeysOfMember(ids, id);
        var r := db.kv[items[i]].token;
        if r.isDeleted != DELETED {
          offset := offset + 1;
          DropSnoc(live, items[i], skip);
          if offset > skip {
            assert TokenKeys(kps + [r]) == TokenKeys(kps) + [items[i]];
            kps := kps + [r];
          }
        }
        continueWalk := limit == 0 || offset - skip < limit;
        KeptStep(items, i, T.KeysOf(ids));
        i := i + 1;
        live := Kept(items, i, T.KeysOf(ids));
      }
      KeptPrefix(items, i, T.KeysOf(ids));
      StoppedAt(live, T.InKeyOrder(ids), lead, skip, limit);
    }

    method ListUsers(skip: int, limit: int, state: UserState) returns (users: seq<User>)
      requires Valid()
      ensures UserKeys(users) == T.Listed(T.LiveUsers(View(), state), T.UserRows(View()), skip, limit)
      ensures forall r | r in users :: UserId(r.name) in View() && View()[UserId(r.name)].user == r
    {
      hide T.TablesOf, T.KeysOf, T.InKeyOrder, KeyOf, IdOf, Scan, SortedKeys, WellFiled;
      hide Drop, Take, PageOf, Kept, T.Leads;
      ghost var ids := T.LiveUsers(View(), state);
      T.ScanTable(db.kv, PREFIX_USER, ids);
      var items := WalkThroughPrefix(db.kv.Keys, PREFIX_USER);
      var offset := 0;
      users := [];
      KeptNone(items, T.KeysOf(ids), skip);
      T.ScanRows(db.kv, PREFIX_USER, T.UserRows(View()));
      T.FirstRow(ids, T.UserRows(View()));
      ghost var lead, live := items != [] && items[0] in T.KeysOf(ids), [];
      var i, continueWalk := 0, true;
      while i < |items| && continueWalk
        invariant i <= |items| && live == Kept(items, i, T.KeysOf(ids)) && offset == |live|
        invariant UserKeys(users) == Drop(live, skip)
        invariant continueWalk <==> i == 0 || limit == 0 || offset - skip < limit
        invariant limit != 0 && skip + limit > 0 ==> offset <= skip + limit
        invariant limit != 0 && skip + limit <= 0 ==> i <= 1 && offset == if i == 1 && lead then 1 else 0
        invariant forall r | r in users :: UserId(r.name) in View() && View()[UserId(r.name)].user == r
      {
        ghost var id := T.Visit(db.kv, PREFIX_USER, items[i]);
        T.KeysOfMember(ids, id);
        var r := db.kv[items[i]].user;
        if (state == USER_STATE_UNDEFINED || r.state == state) && r.isDeleted != DELETED {
          offset := offset + 1;
          DropSnoc(live, items[i], skip);
          if offset > skip {
            assert UserKeys(users + [r]) == UserKeys(users) + [items[i]];
            users := users + [r];
          }
        }
        continueWalk := limit == 0 || offset - skip < limit;
        KeptStep(items, i, T.KeysOf(ids));
        i := i + 1;
        live := Kept(items, i, T.KeysOf(ids));
      }
      KeptPrefix(items, i, T.KeysOf(ids));
      StoppedAt(live, T.InKeyOrder(ids), lead, skip, limit);
    }

    // ---------- miners ----------

    method GetUserByMiner(a: Addr) returns (user: Option<User>)
      requires Valid()
      ensures user.Some? <==> T.Live(View(), MinerId(a)) && T.Live(View(), UserId(View()[MinerId(a)].miner.user))
      ensures user.Some? ==> user.value == View()[UserId(View()[MinerId(a)].miner.user)].user
    {
      var miner := GetUsableObj(MinerId(a));
      if miner.None? {
        return None;
      }
      user := GetUser(miner.value.miner.user);
    }

    method UpsertMiner(a: Addr, userName: string, openMining: Option<bool>, now: Stamp)
      returns (isCreate: bool, st: T.Status)
      requires Valid()
      modifies this
      ensures Valid() && (View(), st) == T.UpsertMiner(old(View()), a, userName, openMining, now)
      ensures isCreate <==> st.Ok? && MinerId(a) !in old(View())
      ensures C.Ran(C.BindMiner(a, userName, openMining, now), old(db), db, st)
    {
      hide T.TablesOf, KeyOf, IdOf, WellFiled;
      T.Lookup(db.kv, UserId(userName));
      T.Lookup(db.kv, MinerId(a));
      isCreate := false;
      var txn := db.Begin();
      var user := txn.Get(KeyOf(UserId(userName)));
      txn := txn.Read(KeyOf(UserId(userName)));
      if user.None? {
        return false, T.UserMissing;
      }
      var item := txn.Get(KeyOf(MinerId(a)));
      txn := txn.Read(KeyOf(MinerId(a)));
      var miner: Miner;
      if item.None? {
        miner := Miner(a, userName, openMining, now, now, DeletedAt(true, 0));
        isCreate := true;
      } else {
        miner := item.value.miner;
      }
      miner := miner.(user := userName, openMining := openMining, updatedAt := now, deletedAt := DeletedAt(true, 0));
      st := CommitRow(txn, MinerId(a), MinerRec(miner));
    }

    // The end of an update transaction that reads a few keys and writes one row.
    method CommitRow(txn: Txn, id: Id, r: Record) returns (st: T.Status)
      requires Valid() && r.Filed(id) && txn.readTs == db.clock && txn.writes == map[]
      modifies this
      ensures Valid() && View() == old(View())[id := r] && st.Ok?
      ensures db == old(db).Commit(txn.Set(KeyOf(id), r).writes)
    {
      hide T.TablesOf, KeyOf, IdOf, WellFiled;
      T.PutCommutes(db.kv, id, r);
      CommitOne(db, KeyOf(id), Some(r));
      var full := txn.Set(KeyOf(id), r);
      NoConflict(db, full);
      st := Commit(full);
    }

    method HasMiner(a: Addr) returns (has: bool)
      requires Valid()
      ensures has == T.Live(View(), MinerId(a))
    {
      has := IsExist(MinerId(a));
    }

    // A full scan of the table, stopping at the first match.
    method MinerExistInUser(a: Addr, userName: string) returns (exist: bool)
      requires Valid()
      ensures exist <==> T.Live(View(), MinerId(a)) && View()[MinerId(a)].miner.user == userName
    {
      hide T.TablesOf, T.KeysOf, T.InKeyOrder, KeyOf, IdOf, Scan, SortedKeys, WellFiled;
      var items := WalkThroughPrefix(db.kv.Keys, PREFIX_MINER);
      exist := false;
      var i := 0;
      while i < |items| && !exist
        invariant i <= |items|
        invariant exist ==> T.Live(View(), MinerId(a)) && View()[MinerId(a)].miner.user == userName
        invariant !exist && T.Live(View(), MinerId(a)) && View()[MinerId(a)].miner.user == userName ==>
          KeyOf(MinerId(a)) !in items[..i]
      {
        ghost var id := T.Visit(db.kv, PREFIX_MINER, items[i]);
        var m := db.kv[items[i]].miner;
        if m.user == userName && m.miner == a && !m.deletedAt.Set() {
          exist := true;
        }
        KeyNamesRow(id);
        KeyNamesRow(MinerId(a));
        assert items[..i + 1] == items[..i] + [items[i]];
        i := i + 1;
      }
      if T.Live(View(), MinerId(a)) { T.Scanned(db.kv, PREFIX_MINER, MinerId(a)); }
      assert items[..|items|] == items;
    }

    method DelMiner(a: Addr, now: Stamp) returns (existed: bool, st: T.Status)
      requires Valid()
      modifies this
      ensures Valid() && View() == T.SoftDelete(old(View()), MinerId(a), now).0
      ensures existed <==> T.Live(old(View()), MinerId(a))
      ensures st == if MinerId(a) in old(View()) then T.SoftDelete(old(View()), MinerId(a), now).1 else T.Ok
    {
      st := SoftDelObj(MinerId(a), now);
      existed := st.Ok?;
      if st == T.KeyNotFound {
        st := T.Ok;
      }
    }

    // ---------- signers ----------

    method RegisterSigner(a: Addr, userName: string, now: Stamp) returns (st: T.Status)
      requires Valid()
      modifies this
      ensures Valid() && (View(), st) == T.RegisterSigner(old(View()), a, userName, now)
      ensures C.Ran(C.BindSigner(a, userName, now), old(db), db, st)
    {
      hide T.TablesOf, KeyOf, IdOf, WellFiled;
      T.Lookup(db.kv, UserId(userName));
      T.Lookup(db.kv, SignerId(a, userName));
      var txn := db.Begin();
      var user := txn.Get(KeyOf(UserId(userName)));
      txn := txn.Read(KeyOf(UserId(userName)));
      if user.None? {
        return T.UserMissing;
      }
      var item := txn.Get(KeyOf(SignerId(a, userName)));
      txn := txn.Read(KeyOf(SignerId(a, userName)));
      var signer: Signer;
      if item.None? {
        signer := Signer(a, userName, now, now, DeletedAt(true, 0));
      } else {
        signer := item.value.signer;
      }
      signer := signer.(user := userName, updatedAt := now, deletedAt := DeletedAt(true, 0));
      st := CommitRow(txn, SignerId(a, userName), SignerRec(signer));
    }

    method SignerExistInUser(a: Addr, userName: string) returns (exist: bool)
      requires Valid()
      ensures exist == T.Live(View(), SignerId(a, userName))
    {
      exist := IsExist(SignerId(a, userName));
    }

    method InnerUnregisterSigner(a: Addr, userName: string, now: Stamp) returns (st: T.Status)
      requires Valid()
      modifies this
      ensures Valid() && (View(), st) == T.UnregisterSigner(old(View()), a, userName, now)
      ensures forall k | k != KeyOf(SignerId(a, userName)) :: db.LastWrite(k) == old(db.LastWrite(k))
    {
      st := SoftDelObj(SignerId(a, userName), now);
      if st == T.KeyNotFound {
        st := T.Ok;
      }
    }

    method HasSigner(a: Addr) returns (exist: bool)
      requires Valid()
      ensures exist <==> exists id :: T.Reached(View(), id, a)
    {
      hide T.TablesOf, T.KeysOf, T.InKeyOrder, KeyOf, IdOf, Scan, SortedKeys, WellFiled;
      var items := WalkThroughPrefix(db.kv.Keys, SignerKey(a));
      exist := false;
      var i := 0;
      while i < |items| && !exist
        invariant i <= |items|
        invariant exist ==> exists id :: T.Reached(View(), id, a)
        invariant !exist ==> forall id | T.Reached(View(), id, a) :: KeyOf(id) !in items[..i]
      {
        T.PrefixOfSignerKey(a);
        ghost var id := T.Visit(db.kv, SignerKey(a), items[i]);
        T.ReachedAt(db.kv, id, a);
        var signer := db.kv[items[i]].signer;
        if !signer.deletedAt.Set() {
          exist := true;
          assert T.Reached(View(), id, a);
        }
        KeysNameRows();
        assert items[..i + 1] == items[..i] + [items[i]];
        i := i + 1;
      }
      assert items[..|items|] == items;
      forall id | T.Reached(View(), id, a) ensures KeyOf(id) in items {
        T.ReachedAt(db.kv, id, a);
        T.Scanned(db.kv, SignerKey(a), id);
      }
    }

    // Looks up the user of every binding the prefix scan visits, tombstones included, and gives up
    // at the first user that is not live.
    method GetUserBySigner(a: Addr) returns (users: Option<seq<User>>)
      requires Valid()
      ensures T.UsersBehind(View(), T.BoundTo(View(), a)) == if users.Some? then Some(UserKeys(users.value)) else None
      ensures users.Some? ==>
        forall u | u in users.value :: T.Live(View(), UserId(u.name)) && View()[UserId(u.name)].user == u
    {
      hide T.TablesOf, T.KeysOf, T.InKeyOrder, KeyOf, IdOf, Scan, SortedKeys, WellFiled, T.BoundTo;
      var items := WalkThroughPrefix(db.kv.Keys, SignerKey(a));
      T.ScanSigners(db.kv, a);
      T.InKeyOrderIs(T.BoundTo(View(), a));
      var found: seq<User> := [];
      for i := 0 to |items|
        invariant UserKeys(found) == T.UsersOf(items[..i])
        invariant forall u | u in found :: T.Live(View(), UserId(u.name)) && View()[UserId(u.name)].user == u
        invariant forall id | KeyOf(id) in items[..i] :: id.SignerId? && T.Live(View(), UserId(id.user))
      {
        T.PrefixOfSignerKey(a);
        ghost var id := T.Visit(db.kv, SignerKey(a), items[i]);
        KeysNameRows();
        var user := GetUser(db.kv[items[i]].signer.user);
        if user.None? {
          T.BoundMember(View(), a, id);
          return None;
        }
        assert View()[UserId(id.user)].Filed(UserId(id.user));
        assert items[..i + 1] == items[..i] + [items[i]];
        T.UsersOfSnoc(items[..i], id);
        found := found + [user.value];
      }
      assert items[..|items|] == items;
      forall id | id in T.BoundTo(View(), a) ensures T.Live(View(), UserId(id.user)) { T.BoundMember(View(), a, id); }
      users := Some(found);
    }

    // Each live binding reached is tombstoned by a transaction of its own.
    method DelSigner(a: Addr, clock: T.Clock) returns (existed: bool)
      requires Valid()
      modifies this
      ensures Valid() && (View(), existed) == T.DelSigner(old(View()), a, clock)
    {
      hide T.TablesOf, T.KeysOf, T.InKeyOrder, KeyOf, IdOf, Scan, SortedKeys, WellFiled, T.Tombstone;
      var snapshot := db.kv;
      ghost var t := View();
      var items := WalkThroughPrefix(snapshot.Keys, SignerKey(a));
      var count := 0;
      T.TombstoneNone(t, clock);
      ghost var done: set<Id> := {};
      for i := 0 to |items|
        invariant Valid() && View() == T.Tombstone(t, done, clock)
        invariant done <= t.Keys && count >= 0 && (count > 0 <==> done != {})
        invariant forall id :: id in done <==> T.Reached(t, id, a) && KeyOf(id) in items[..i]
      {
        T.PrefixOfSignerKey(a);
        ghost var id := T.Visit(snapshot, SignerKey(a), items[i]);
        T.ReachedAt(snapshot, id, a);
        KeysNameRows();
        var signer := snapshot[items[i]].signer;
        assert items[..i + 1] == items[..i] + [items[i]];
        if !signer.deletedAt.Set() {
          count := count + 1;
          var st := Put(SignerId(signer.signer, signer.user),
                        SignerRec(signer.(deletedAt := DeletedAt(true, clock(SignerId(signer.signer, signer.user))))));
          assert st.Ok?;  // an error would end the walk
          T.TombstoneSnoc(t, done, id, clock);
          done := done + {id};
        }
      }
      assert items[..|items|] == items;
      forall id | T.Reached(t, id, a) ensures KeyOf(id) in items {
        T.ReachedAt(snapshot, id, a);
        T.Scanned(snapshot, SignerKey(a), id);
      }
      assert done == T.ReachedBy(t, a);
      existed := count > 0;
    }

    // ---------- DeleteUser ----------

    // One transaction tombstones the user and its miners; inside it, each signer binding is
    // tombstoned by a transaction of its own, committed at once.
    method DeleteUser(name: string, clock: T.Clock) returns (st: T.Status)
      requires Valid()
      modifies this
      ensures Valid() && (View(), st) == T.DeleteUser(old(View()), name, clock)
    {
      hide T.TablesOf, T.KeysOf, T.InKeyOrder, KeyOf, IdOf, Scan, SortedKeys, WellFiled, T.TombstoneWrites;
      ghost var t := View();
      var txn := db.Begin();
      T.Lookup(db.kv, UserId(name));
      var val := txn.Get(KeyOf(UserId(name)));
      txn := txn.Read(KeyOf(UserId(name)));
      if val.None? {
        return T.KeyNotFound;
      }
      if val.value.IsDeleted() {
        return T.NotExist;
      }
      T.TombstoneWritesSnoc(t, {}, UserId(name), clock);
      T.KeysOfMember({UserId(name)}, UserId(name));
      assert {} + {UserId(name)} == {UserId(name)};
      txn := txn.Set(KeyOf(UserId(name)), val.value.SetDeleted(clock(UserId(name))));
      txn := MarkMiners(txn, name, clock);
      ghost var marked := {UserId(name)} + T.MinersOf(t, name);
      UnregisterAll(name, clock);
      // the nested commits wrote signer keys only, so the outer transaction does not conflict
      forall k | k in txn.readSet ensures db.LastWrite(k) <= txn.readTs {
        var id := T.RowKeyed(marked, k);
      }
      T.TombstoneTwice(t, T.SignersOf(t, name), marked, clock);
      T.CascadeParts(t, name);
      T.ApplyTombstones(db.kv, t, marked, clock);
      CommitMany(db, txn.writes);
      st := Commit(txn);
    }

    // "delete miners": reads each live miner of the user again, in the outer transaction.
    method MarkMiners(txn: Txn, name: string, clock: T.Clock) returns (txn': Txn)
      requires Valid() && txn.snapshot == db.kv && UserId(name) in View()
      requires txn.writes == T.TombstoneWrites(View(), {UserId(name)}, clock)
      requires txn.readSet <= T.KeysOf({UserId(name)})
      ensures txn' == txn.(readSet := txn'.readSet, writes := txn'.writes)
      ensures txn'.writes == T.TombstoneWrites(View(), {UserId(name)} + T.MinersOf(View(), name), clock)
      ensures txn'.readSet <= T.KeysOf({UserId(name)} + T.MinersOf(View(), name))
    {
      hide T.TablesOf, T.KeysOf, T.InKeyOrder, KeyOf, IdOf, Scan, SortedKeys, WellFiled, T.TombstoneWrites;
      var miners := ListMiners(name);
      T.InKeyOrderIs(T.MinersOf(View(), name));
      KeysNameRows();
      txn' := txn;
      ghost var marked := {UserId(name)};
      for i := 0 to |miners|
        invariant txn' == txn.(readSet := txn'.readSet, writes := txn'.writes)
        invariant marked <= View().Keys && txn'.writes == T.TombstoneWrites(View(), marked, clock)
        invariant txn'.readSet <= T.KeysOf(marked)
        invariant forall id ::
          id in marked <==> id == UserId(name) || (id.MinerId? && KeyOf(id) in MinerKeys(miners)[..i])
      {
        var mId := MinerId(miners[i].miner);
        T.Lookup(db.kv, mId);
        assert KeyOf(mId) == MinerKeys(miners)[i];
        assert MinerKeys(miners)[..i + 1] == MinerKeys(miners)[..i] + [KeyOf(mId)];
        assert T.Holds(View(), mId, MinerRec(miners[i])) && mId !in marked;
        T.TombstoneWritesSnoc(View(), marked, mId, clock);
        T.KeysOfSnoc(marked, mId);
        var item := txn'.Get(KeyOf(mId));
        txn' := txn'.Read(KeyOf(mId));
        txn' := txn'.Set(KeyOf(mId), item.value.SetDeleted(clock(mId)));
        marked := marked + {mId};
      }
      assert MinerKeys(miners)[..|miners|] == MinerKeys(miners);
      assert marked == {UserId(name)} + T.MinersOf(View(), name);
    }

    // "delete signers": a walk whose callback commits one transaction per live binding of the user.
    method UnregisterAll(name: string, clock: T.Clock)
      requires Valid()
      modifies this
      ensures Valid() && View() == T.Tombstone(old(View()), T.SignersOf(old(View()), name), clock)
      ensures forall id: Id | !id.SignerId? :: db.LastWrite(KeyOf(id)) == old(db.LastWrite(KeyOf(id)))
    {
      hide T.TablesOf, T.KeysOf, T.InKeyOrder, KeyOf, IdOf, Scan, SortedKeys, WellFiled, T.TombstoneWrites;
      var snapshot := db.kv;
      ghost var t := View();
      var items := WalkThroughPrefix(snapshot.Keys, PREFIX_SIGNER);
      ghost var done: set<Id> := {};
      for i := 0 to |items|
        invariant Valid() && View() == T.Tombstone(t, done, clock)
        invariant forall id :: id in done <==> id in T.SignersOf(t, name) && KeyOf(id) in items[..i]
        invariant forall id: Id | !id.SignerId? :: db.LastWrite(KeyOf(id)) == old(db.LastWrite(KeyOf(id)))
      {
        ghost var id := T.Visit(snapshot, PREFIX_SIGNER, items[i]);
        KeysNameRows();
        assert items[..i + 1] == items[..i] + [items[i]];
        var signer := snapshot[items[i]].signer;
        if signer.user == name && !signer.deletedAt.Set() {
          assert id !in done;
          var st := InnerUnregisterSigner(signer.signer, name, clock(SignerId(signer.signer, name)));
          assert st.Ok?;  // an error would end the walk and abort the outer transaction
          done := done + {id};
        }
      }
      assert items[..|items|] == items;
      forall id | id in T.SignersOf(t, name) ensures KeyOf(id) in items {
        T.Scanned(snapshot, PREFIX_SIGNER, id);
      }
      assert done == T.SignersOf(t, name);
    }

    // ---------- migrations ----------

    method Version() returns (v: nat)
      requires M.Typed(db.kv)
      ensures v == M.Version(db.kv)
    {
      var r := db.Begin().Get(STORE_VERSION_KEY);
      v := if r.Some? then r.value.version else 0;
    }

    // Collects the users first, then writes one miner per parsable text.
    method MigrateToV1(parse: M.Parse, now: Stamp)
      requires db.Valid() && M.Typed(db.kv)
      modifies this
      ensures db.Valid() && db.kv == M.V1(old(db.kv), parse, now)
    {
      hide Scan, MinerKey, M.Typed, M.V1Writes;
      var items := WalkThroughPrefix(db.kv.Keys, PREFIX_USER);
      var txn, users := LegacyUsers(db.Begin(), items);
      txn := AddMiners(txn, items, users, parse, now);
      CommitVersion(txn, 1);
    }

    // The text of its miner and the name, for each user visited.
    method LegacyUsers(txn: Txn, items: seq<Key>) returns (txn': Txn, users: seq<(string, string)>)
      requires M.Typed(db.kv) && items == Scan(db.kv.Keys, PREFIX_USER)
      ensures txn' == txn.(readSet := txn'.readSet)
      ensures |users| == |items| && forall j | 0 <= j < |items| :: M.LegacyUser(db.kv, items[j], users[j])
    {
      hide Scan;
      M.ScannedTyped(db.kv, PREFIX_USER);
      txn', users := txn, [];
      for i := 0 to |items|
        invariant |users| == i && txn' == txn.(readSet := txn'.readSet)
        invariant forall j | 0 <= j < i :: M.LegacyUser(db.kv, items[j], users[j])
      {
        txn' := txn'.Read(items[i]);
        users := users + [(db.kv[items[i]].legacyMiner, db.kv[items[i]].user.name)];
      }
    }

    method AddMiners(txn: Txn, items: seq<Key>, users: seq<(string, string)>, parse: M.Parse, now: Stamp)
      returns (txn': Txn)
      requires txn.writes == map[] && |users| == |items|
      requires forall j | 0 <= j < |items| :: M.LegacyUser(db.kv, items[j], users[j])
      ensures txn' == txn.(writes := M.V1Writes(db.kv, items, |items|, parse, now))
    {
      hide MinerKey;
      txn' := txn;
      for i := 0 to |users|
        invariant txn' == txn.(writes := M.V1Writes(db.kv, items, i, parse, now))
      {
        assert M.LegacyUser(db.kv, items[i], users[i]);
        var mAddr := parse(users[i].0);
        if mAddr.Some? {
          var miner := Miner(mAddr.value, users[i].1, None, now, now, DeletedAt(false, 0));
          txn' := txn'.Set(MinerKey(users[i].0), MinerRec(miner));
        }
      }
    }

    method MigrateToV2()
      requires db.Valid() && M.Typed(db.kv)
      modifies this
      ensures db.Valid() && db.kv == M.V2(old(db.kv))
    {
      hide Scan, MinerKey;
      var txn := db.Begin();
      var items := WalkThroughPrefix(db.kv.Keys, PREFIX_MINER);
      M.ScannedTyped(db.kv, PREFIX_MINER);
      for i := 0 to |items|
        invariant txn == db.Begin().(readSet := txn.readSet, writes := M.V2Writes(db.kv, items, i))
      {
        var m := db.kv[items[i]].miner;
        txn := txn.(readSet := txn.readSet + {items[i]}).Set(MinerKey(m.miner), MinerRec(m.(openMining := Some(true))));
      }
      CommitVersion(txn, 2);
    }

    method MigrateToV3()
      requires db.Valid() && M.Typed(db.kv)
      modifies this
      ensures db.Valid() && db.kv == M.V3(old(db.kv))
    {
      CommitVersion(db.Begin(), 3);
      assert Apply(old(db.kv), map[]) == old(db.kv);
    }

    // Each migration ends by writing the version it reached.
    method CommitVersion(txn: Txn, version: nat)
      requires db.Valid() && txn == db.Begin().(readSet := txn.readSet, writes := txn.writes)
      modifies this
      ensures db.Valid() && db.kv == Apply(old(db.kv), txn.writes)[STORE_VERSION_KEY := VersionRec(version)]
    {
      var full := txn.Set(STORE_VERSION_KEY, VersionRec(version));
      M.ApplySet(db.kv, txn.writes, STORE_VERSION_KEY, VersionRec(version));
      CommitMany(db, full.writes);
      NoConflict(db, full);
      var st := Commit(full);
      assert st.Ok?;
    }

    // Runs the scheduled migration of the current version until none is scheduled.
    method StoreMigrate(parse: M.Parse, now: Stamp)
      requires db.Valid() && M.Typed(db.kv)
      modifies this
      ensures db.Valid() && M.Typed(db.kv) && db.kv == M.Migrated(old(db.kv), parse, now)
      ensures M.Version(db.kv) == if M.Version(old(db.kv)) <= 3 then 3 else M.Version(old(db.kv))
    {
      hide M.V1, M.V2, M.V3, M.Typed, M.Version;
      var v := Version();
      while v in {0, 1, 2}
        invariant db.Valid() && M.Typed(db.kv) && v == M.Version(db.kv)
        invariant M.Migrated(db.kv, parse, now) == M.Migrated(old(db.kv), parse, now)
        invariant v <= 3 <==> M.Version(old(db.kv)) <= 3
        invariant v > 3 ==> v == M.Version(old(db.kv))
        decreases if v <= 3 then 3 - v else 0
      {
        M.MigrationsTyped(db.kv, parse, now);
        match v {
          case 0 =>
            M.MigrationsTyped(M.V1(db.kv, parse, now), parse, now);
            MigrateToV1(parse, now);
          case 1 =>
            M.MigrationsTyped(M.V2(db.kv), parse, now);
            MigrateToV2();
          case 2 =>
            MigrateToV3();
        }
        v := Version();
      }
    }
  }

  function TokenKeys(kps: seq<KeyPair>): seq<Key>
  {
    seq(|kps|, i requires 0 <= i < |kps| => KeyOf(TokenId(kps[i].token)))
  }

  function MinerKeys(ms: seq<Miner>): seq<Key>
  {
    seq(|ms|, i requires 0 <= i < |ms| => KeyOf(MinerId(ms[i].miner)))
  }

  function SignerKeys(ss: seq<Signer>): seq<Key>
  {
    seq(|ss|, i requires 0 <= i < |ss| => KeyOf(SignerId(ss[i].signer, ss[i].user)))
  }

  function UserKeys(us: seq<User>): seq<Key>
  {
    seq(|us|, i requires 0 <= i < |us| => KeyOf(UserId(us[i].name)))
  }
}

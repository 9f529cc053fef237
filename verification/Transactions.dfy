/** The store's update transactions, among each other (storage/badger.go, storage/badger_helper.go).

Every update of the store but DeleteUser's is one of the closures below: it reads a few keys and
writes one. Any number of them run at the same time, each on the snapshot it began with, and one
commits unless a key it has read was committed since.
 */
module Transactions {
  import opened ByteOrder
  import opened Records
  import opened Badger
  import opened Tables

  datatype Closure =
    | PutRow(id: Id, r: Record)        // put
    | DropRow(id: Id)                  // delObj
    | SoftDelRow(id: Id, now: Stamp)   // softDelObj
    | BindMiner(miner: Addr, user: string, openMining: Option<bool>, now: Stamp)  // UpsertMiner
    | BindSigner(signer: Addr, user: string, now: Stamp)                          // RegisterSigner
  {
    predicate Ok() { PutRow? ==> r.Filed(id) }
  }

  // What the closure reads and writes, and the status it returns.
  ghost function Body(c: Closure, txn: Txn): (Txn, Status)
    requires WellFiled(txn.snapshot) && txn.writes == map[]
  {
    match c
    case PutRow(id, r) => (txn.Set(KeyOf(id), r), Ok)
    case DropRow(id) =>
      if txn.Get(KeyOf(id)).None? then (txn.Read(KeyOf(id)), KeyNotFound)
      else (txn.Read(KeyOf(id)).Delete(KeyOf(id)), Ok)
    case SoftDelRow(id, now) =>
      var val := txn.Get(KeyOf(id));
      if val.None? then (txn.Read(KeyOf(id)), KeyNotFound)
      else if val.value.IsDeleted() then (txn.Read(KeyOf(id)), NotExist)
      else (txn.Read(KeyOf(id)).Set(KeyOf(id), val.value.SetDeleted(now)), Ok)
    case BindMiner(a, user, openMining, now) =>
      if txn.Get(KeyOf(UserId(user))).None? then (txn.Read(KeyOf(UserId(user))), UserMissing)
      else
        KeyNamesRow(MinerId(a));
        var item := txn.Get(KeyOf(MinerId(a)));
        var miner := if item.None? then Miner(a, user, openMining, now, now, DeletedAt(true, 0)) else item.value.miner;
        (txn.Read(KeyOf(UserId(user))).Read(KeyOf(MinerId(a))).Set(KeyOf(MinerId(a)), MinerRec(miner.(
           user := user, openMining := openMining, updatedAt := now, deletedAt := DeletedAt(true, 0)))), Ok)
    case BindSigner(a, user, now) =>
      if txn.Get(KeyOf(UserId(user))).None? then (txn.Read(KeyOf(UserId(user))), UserMissing)
      else
        KeyNamesRow(SignerId(a, user));
        var item := txn.Get(KeyOf(SignerId(a, user)));
        var signer := if item.None? then Signer(a, user, now, now, DeletedAt(true, 0)) else item.value.signer;
        (txn.Read(KeyOf(UserId(user))).Read(KeyOf(SignerId(a, user))).Set(KeyOf(SignerId(a, user)), SignerRec(signer.(
           user := user, updatedAt := now, deletedAt := DeletedAt(true, 0)))), Ok)
  }

  // What it is to do to the tables.
  function Effect(c: Closure, t: Tables): (r: (Tables, Status))
    requires Consistent(t) && c.Ok()
    ensures Consistent(r.0)
  {
    match c
    case PutRow(id, r) => (t[id := r], Ok)
    case DropRow(id) => (t - {id}, if id in t then Ok else KeyNotFound)
    case SoftDelRow(id, now) => SoftDelete(t, id, now)
    case BindMiner(a, user, openMining, now) => UpsertMiner(t, a, user, openMining, now)
    case BindSigner(a, user, now) => RegisterSigner(t, a, user, now)
  }

  // db.Update with nobody committing in between.
  ghost predicate Ran(c: Closure, db: Db, db': Db, st: Status)
    requires WellFiled(db.kv)
  {
    var (txn, result) := Body(c, db.Begin());
    st == result && db' == if result.Ok? then db.Commit(txn.writes) else db
  }

  // ---------- a closure that commits ----------

  // Every record is written under its own key.
  ghost predicate FiledWrites(writes: Writes)
  {
    forall k | k in writes && writes[k].Some? ::
      IdOf(k).Some? && k == KeyOf(IdOf(k).value) && writes[k].value.Filed(IdOf(k).value)
  }

  lemma CommitFiled(db: Db, writes: Writes)
    requires db.Valid() && WellFiled(db.kv) && FiledWrites(writes)
    ensures db.Commit(writes).Valid() && WellFiled(db.Commit(writes).kv)
  {
    hide KeyOf, IdOf;
    CommitMany(db, writes);
  }

  // The row a closure writes into `t`, None when it removes the row.
  function Written(c: Closure, t: Tables): (Id, Option<Record>)
    requires Consistent(t) && c.Ok() && Effect(c, t).1.Ok?
  {
    match c
    case PutRow(id, r) => (id, Some(r))
    case DropRow(id) => (id, None)
    case SoftDelRow(id, _) => (id, Some(Effect(c, t).0[id]))
    case BindMiner(a, _, _, _) => (MinerId(a), Some(Effect(c, t).0[MinerId(a)]))
    case BindSigner(a, user, _) => (SignerId(a, user), Some(Effect(c, t).0[SignerId(a, user)]))
  }

  lemma EffectIsOneRow(c: Closure, t: Tables)
    requires Consistent(t) && c.Ok() && Effect(c, t).1.Ok?
    ensures var (id, r) := Written(c, t);
      && Effect(c, t).0 == (if r.Some? then t[id := r.value] else t - {id})
      && (r.Some? ==> r.value.Filed(id))
  {
  }

  // The rows a closure looks at.
  function Looks(c: Closure): set<Id>
  {
    match c
    case PutRow(_, _) => {}
    case DropRow(id) => {id}
    case SoftDelRow(id, _) => {id}
    case BindMiner(a, user, _, _) => {UserId(user), MinerId(a)}
    case BindSigner(a, user, _) => {UserId(user), SignerId(a, user)}
  }

  ghost predicate AgreeOn(ids: set<Id>, t: Tables, t': Tables)
  {
    forall id | id in ids :: (id in t <==> id in t') && (id in t ==> t[id] == t'[id])
  }

  // They decide its status and what it writes.
  lemma LooksDecide(c: Closure, t: Tables, t': Tables)
    requires Consistent(t) && Consistent(t') && c.Ok() && AgreeOn(Looks(c), t, t')
    ensures Effect(c, t).1 == Effect(c, t').1
    ensures Effect(c, t).1.Ok? ==> Written(c, t) == Written(c, t')
  {
  }

  // On its snapshot the closure does what its effect says there.
  lemma BodyOnSnapshot(c: Closure, txn: Txn)
    requires c.Ok() && WellFiled(txn.snapshot) && txn.writes == map[]
    ensures var (txn', st) := Body(c, txn);
      var t := TablesOf(txn.snapshot);
      && st == Effect(c, t).1 && txn'.snapshot == txn.snapshot && txn'.readTs == txn.readTs
      && (!st.Ok? ==> txn'.writes == map[] && Effect(c, t).0 == t)
      && (st.Ok? ==>
           && txn'.writes == map[KeyOf(Written(c, t).0) := Written(c, t).1]
           && forall id | id in Looks(c) :: KeyOf(id) in txn'.readSet)
  {
    hide KeyOf, IdOf, TablesOf;
    match c
    case PutRow(id, _) =>
    case DropRow(id) => Lookup(txn.snapshot, id);
    case SoftDelRow(id, _) => Lookup(txn.snapshot, id);
    case BindMiner(a, user, _, _) =>
      KeyNamesRow(MinerId(a));
      Lookup(txn.snapshot, UserId(user));
      Lookup(txn.snapshot, MinerId(a));
    case BindSigner(a, user, _) =>
      KeyNamesRow(SignerId(a, user));
      Lookup(txn.snapshot, UserId(user));
      Lookup(txn.snapshot, SignerId(a, user));
  }

  // A closure that began on an earlier snapshot and does not conflict acts on the tables at its
  // commit as its effect says.
  lemma CommitsAsEffect(c: Closure, txn: Txn, db: Db)
    requires c.Ok() && WellFiled(txn.snapshot) && txn.writes == map[]
    requires db.Valid() && WellFiled(db.kv) && Snapshot(txn.snapshot, txn.readTs, db)
    requires var (txn', st) := Body(c, txn); st.Ok? && !db.Conflicts(txn')
    ensures var db' := db.Commit(Body(c, txn).0.writes);
      && FiledWrites(Body(c, txn).0.writes) && db'.Valid() && WellFiled(db'.kv)
      && Effect(c, TablesOf(db.kv)) == (TablesOf(db'.kv), Ok)
  {
    hide KeyOf, IdOf, TablesOf, WellFiled, Effect, Written, Looks, Body, Snapshot;
    var (txn', _) := Body(c, txn);
    var t0, t := TablesOf(txn.snapshot), TablesOf(db.kv);
    BodyOnSnapshot(c, txn);
    var (id, r) := Written(c, t0);
    assert KeyOf(id) in txn'.writes;
    forall i | i in Looks(c) ensures (i in t0 <==> i in t) && (i in t0 ==> t0[i] == t[i]) {
      ReadStillHolds(db, txn', KeyOf(i));
      Lookup(txn.snapshot, i);
      Lookup(db.kv, i);
    }
    LooksDecide(c, t0, t);
    EffectIsOneRow(c, t);
    OneRowCommitted(db, id, r);
  }

  lemma OneRowCommitted(db: Db, id: Id, r: Option<Record>)
    requires db.Valid() && WellFiled(db.kv) && (r.Some? ==> r.value.Filed(id))
    ensures var db' := db.Commit(map[KeyOf(id) := r]);
      && FiledWrites(map[KeyOf(id) := r]) && db'.Valid() && WellFiled(db'.kv)
      && TablesOf(db'.kv) == (if r.Some? then TablesOf(db.kv)[id := r.value] else TablesOf(db.kv) - {id})
  {
    hide KeyOf, IdOf, TablesOf, WellFiled;
    KeyNamesRow(id);
    CommitOne(db, KeyOf(id), r);
    if r.Some? { PutCommutes(db.kv, id, r.value); } else { RemoveCommutes(db.kv, id); }
  }

  // ---------- any number of them at once ----------

  // A closure that is running: it has read its snapshot and is about to end.
  datatype Running = Running(c: Closure, txn: Txn, st: Status)

  // `log` lists the closures that have committed, in the order of their commits.
  datatype Pool = Pool(db: Db, open: map<nat, Running>, log: seq<Closure>)

  datatype Act = Start(i: nat, c: Closure) | End(i: nat)

  ghost predicate PoolOk(p: Pool)
  {
    && p.db.Valid() && WellFiled(p.db.kv)
    && forall i | i in p.open :: RunningOk(p.db, p.open[i])
  }

  ghost predicate RunningOk(db: Db, r: Running)
  {
    && r.c.Ok() && WellFiled(r.txn.snapshot)
    && Snapshot(r.txn.snapshot, r.txn.readTs, db)
    && (r.txn, r.st) == Body(r.c, Txn(r.txn.readTs, r.txn.snapshot, {}, map[]))
  }

  ghost function Do(p: Pool, act: Act): Pool
    requires PoolOk(p)
  {
    match act
    case Start(i, c) =>
      var (txn, st) := Body(c, p.db.Begin());
      p.(open := p.open[i := Running(c, txn, st)])
    case End(i) =>
      if i !in p.open then p
      else
        var r := p.open[i];
        if !r.st.Ok? || p.db.Conflicts(r.txn) then p.(open := p.open - {i})
        else Pool(p.db.Commit(r.txn.writes), p.open - {i}, p.log + [r.c])
  }

  // The effects one after the other; each of them succeeds.
  ghost predicate Serial(t: Tables, log: seq<Closure>, t': Tables)
    requires Consistent(t)
    decreases |log|
  {
    if log == [] then t' == t
    else log[0].Ok() && Effect(log[0], t).1.Ok? && Serial(Effect(log[0], t).0, log[1..], t')
  }

  lemma {:induction false} SerialSnoc(t: Tables, log: seq<Closure>, t': Tables, c: Closure)
    requires Consistent(t) && Consistent(t') && Serial(t, log, t') && c.Ok() && Effect(c, t').1.Ok?
    ensures Serial(t, log + [c], Effect(c, t').0)
    decreases |log|
  {
    hide Effect;
    if log == [] {
      assert [c][1..] == [] && [] + [c] == [c];
    } else {
      SerialSnoc(Effect(log[0], t).0, log[1..], t', c);
      assert (log + [c])[1..] == log[1..] + [c];
    }
  }

  lemma RunningSurvives(db: Db, r: Running, writes: Writes)
    requires RunningOk(db, r)
    ensures RunningOk(db.Commit(writes), r)
  {
    hide Body, Snapshot, WellFiled;
    SnapshotSurvives(r.txn.snapshot, r.txn.readTs, db, writes);
  }

  ghost predicate Appends(p: Pool, p': Pool, c: Closure)
    requires PoolOk(p) && PoolOk(p')
  {
    p'.log == p.log + [c] && c.Ok() && Effect(c, TablesOf(p.db.kv)) == (TablesOf(p'.db.kv), Ok)
  }

  // One act keeps the pool in order, and appends to the log exactly what it did to the tables.
  lemma ActSerial(p: Pool, act: Act)
    requires PoolOk(p) && (act.Start? ==> act.c.Ok())
    ensures var p' := Do(p, act);
      && PoolOk(p')
      && ((p'.log == p.log && p'.db == p.db)
          || (exists c: Closure :: Appends(p, p', c)))
  {
    hide Body, Snapshot, WellFiled, TablesOf, Effect;
    match act
    case Start(i, c) =>
      NowIsSnapshot(p.db);
      BodyOnSnapshot(c, p.db.Begin());
    case End(i) =>
      if i in p.open && p.open[i].st.Ok? && !p.db.Conflicts(p.open[i].txn) {
        var r := p.open[i];
        assert RunningOk(p.db, r);
        CommitsAsEffect(r.c, Txn(r.txn.readTs, r.txn.snapshot, {}, map[]), p.db);
        forall j | j in p.open - {i} ensures RunningOk(p.db.Commit(r.txn.writes), p.open[j]) {
          RunningSurvives(p.db, p.open[j], r.txn.writes);
        }
        assert Appends(p, Do(p, act), r.c);
      }
  }

  // Has any row the closure looked at been committed since its snapshot?
  ghost predicate Overtaken(db: Db, r: Running)
  {
    exists id :: id in Looks(r.c) && r.txn.readTs < db.LastWrite(KeyOf(id))
  }

  // A running closure commits exactly if it had no error and was not overtaken; otherwise the database
  // stays as it is. Either way it has ended.
  lemma EndsExactly(p: Pool, i: nat)
    requires PoolOk(p) && i in p.open
    ensures var p', r := Do(p, End(i)), p.open[i];
      && p'.open == p.open - {i}
      && (r.st.Ok? && !Overtaken(p.db, r) ==> PoolOk(p') && Appends(p, p', r.c))
      && (!r.st.Ok? || Overtaken(p.db, r) ==> p'.db == p.db && p'.log == p.log)
  {
    hide Body, Snapshot, WellFiled, TablesOf, Effect, Looks, Db.Commit, KeyOf, Written;
    var r := p.open[i];
    assert RunningOk(p.db, r);
    ActSerial(p, End(i));
    var txn := Txn(r.txn.readTs, r.txn.snapshot, {}, map[]);
    BodyOnSnapshot(r.c, txn);
    if r.st.Ok? {
      ReadsItsLooks(r.c, txn);
      assert p.db.Conflicts(r.txn) <==> Overtaken(p.db, r);
      if !Overtaken(p.db, r) { CommitsAsEffect(r.c, txn, p.db); }
    }
  }

  // Without an error a closure reads the rows it looks at and no others.
  lemma ReadsItsLooks(c: Closure, txn: Txn)
    requires WellFiled(txn.snapshot) && txn.writes == map[] && txn.readSet == {} && Body(c, txn).1.Ok?
    ensures Body(c, txn).0.readSet == KeysOf(Looks(c)) && Body(c, txn).0.writes != map[]
    ensures Body(c, txn).0.readTs == txn.readTs
    ensures forall k :: k in KeysOf(Looks(c)) <==> exists id :: id in Looks(c) && k == KeyOf(id)
  {
    hide KeyOf, WellFiled;
    var (txn', _) := Body(c, txn);
    var k := match c
      case PutRow(id, _) => KeyOf(id)
      case DropRow(id) => KeyOf(id)
      case SoftDelRow(id, _) => KeyOf(id)
      case BindMiner(a, _, _, _) => KeyOf(MinerId(a))
      case BindSigner(a, user, _) => KeyOf(SignerId(a, user));
    assert k in txn'.writes;
  }

  ghost function DoAll(p: Pool, acts: seq<Act>): (p': Pool)
    requires PoolOk(p) && forall act | act in acts :: act.Start? ==> act.c.Ok()
    ensures PoolOk(p')
    decreases |acts|
  {
    if acts == [] then p
    else
      assert acts[0] in acts;
      ActSerial(p, acts[0]);
      DoAll(Do(p, acts[0]), acts[1..])
  }

  // Whatever the interleaving, the tables are those of the committed closures run one after the
  // other, in the order of their commits, each succeeding.
  lemma {:induction false} Serializable(p: Pool, t: Tables, acts: seq<Act>)
    requires PoolOk(p) && forall act | act in acts :: act.Start? ==> act.c.Ok()
    requires Consistent(t) && Serial(t, p.log, TablesOf(p.db.kv))
    ensures Serial(t, DoAll(p, acts).log, TablesOf(DoAll(p, acts).db.kv))
    decreases |acts|
  {
    hide Do, TablesOf, Serial, RunningOk, WellFiled, Effect;
    if acts != [] {
      assert acts[0] in acts;
      ActSerial(p, acts[0]);
      var p' := Do(p, acts[0]);
      if c: Closure :| Appends(p, p', c) {
        SerialSnoc(t, p.log, TablesOf(p.db.kv), c);
      }
      Serializable(p', t, acts[1..]);
    }
  }
}

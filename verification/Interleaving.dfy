/** DeleteUser among other clients (storage/badger.go:193-274).

DeleteUser is cut into the steps between which another transaction can commit: taking the list of
miners (a snapshot later than its own), re-reading each miner in its own transaction, walking the
signers (a third snapshot), beginning and committing one nested transaction per binding, and the
final commit. An `Env` event is any commit by anybody else. A run is any sequence of events.
 */
module Interleaving {
  import opened ByteOrder
  import opened Records
  import opened Badger
  import opened Tables
  import opened Transactions

  // The snapshot a walk reads, and the keys it selects there.
  datatype Listing = Listing(kv: KV, ts: nat, keys: seq<Key>)

  datatype Proc =
    | Started(txn: Txn)                                        // the user's tombstone is pending
    | Marking(txn: Txn, list: Listing, i: nat)                 // miners re-read and marked so far
    | Scanning(txn: Txn, list: Listing, walk: Listing, j: nat) // bindings walked so far
    | Unbinding(txn: Txn, list: Listing, walk: Listing, j: nat, sub: Txn)
    | Committed(txn: Txn)
    | Failed

  datatype Sys = Sys(db: Db, proc: Proc)

  datatype Event = Env(writes: Writes) | Step(now: Stamp)

  // Others write records under their own keys, too.
  ghost predicate Legal(ev: Event) { ev.Env? ==> FiledWrites(ev.writes) }

  function Start(db: Db, name: string, now: Stamp): Sys
  {
    var key := KeyOf(UserId(name));
    var txn := db.Begin();
    var val := txn.Get(key);
    if val.None? || val.value.IsDeleted() then Sys(db, Failed)
    else Sys(db, Started(txn.Read(key).Set(key, val.value.SetDeleted(now))))
  }

  ghost function Advance(s: Sys, name: string, now: Stamp): Sys
    requires WellFiled(s.db.kv)
  {
    match s.proc
    case Started(txn) =>
      s.(proc := Marking(txn, Listing(s.db.kv, s.db.clock, InKeyOrder(MinersOf(TablesOf(s.db.kv), name))), 0))
    case Marking(txn, list, i) =>
      if i < |list.keys| then
        var item := txn.Get(list.keys[i]);
        if item.None? then s.(proc := Failed)
        else s.(proc := Marking(txn.Read(list.keys[i]).Set(list.keys[i], item.value.SetDeleted(now)), list, i + 1))
      else
        var walk := Listing(s.db.kv, s.db.clock, InKeyOrder(SignersOf(TablesOf(s.db.kv), name)));
        s.(proc := Scanning(txn, list, walk, 0))
    case Scanning(txn, list, walk, j) =>
      if j < |walk.keys| then
        var k := walk.keys[j];
        var sub := s.db.Begin();
        var item := sub.Get(k);
        if item.None? then s.(proc := Scanning(txn, list, walk, j + 1))
        else if item.value.IsDeleted() then s.(proc := Failed)
        else s.(proc := Unbinding(txn, list, walk, j, sub.Read(k).Set(k, item.value.SetDeleted(now))))
      else if s.db.Conflicts(txn) then s.(proc := Failed)
      else Sys(s.db.Commit(txn.writes), Committed(txn))
    case Unbinding(txn, list, walk, j, sub) =>
      if s.db.Conflicts(sub) then s.(proc := Failed)
      else Sys(s.db.Commit(sub.writes), Scanning(txn, list, walk, j + 1))
    case Committed(_) => s
    case Failed => s
  }

  ghost function Next(s: Sys, name: string, ev: Event): Sys
    requires WellFiled(s.db.kv)
  {
    match ev
    case Env(writes) => s.(db := s.db.Commit(writes))
    case Step(now) => Advance(s, name, now)
  }

  // ---------- what every run keeps ----------

  // Each pending write tombstones a record of the transaction's snapshot that it has read; the
  // record is the user's or one of the listed miners.
  ghost predicate Pending(txn: Txn, name: string, keys: seq<Key>)
  {
    forall k | k in txn.writes ::
      && k in txn.readSet && k in txn.snapshot
      && (exists now: Stamp :: txn.writes[k] == Some(txn.snapshot[k].SetDeleted(now)))
      && ((k == KeyOf(UserId(name)) && !txn.snapshot[k].IsDeleted()) || k in keys)
  }

  // The keys listed are those of the user's live miners.
  ghost predicate ListedAt(list: Listing, name: string)
  {
    && (forall k | k in list.keys ::
         && k in list.kv && list.kv[k].MinerRec? && list.kv[k].miner.user == name && !list.kv[k].IsDeleted()
         && k == KeyOf(MinerId(list.kv[k].miner.miner)))
    && (forall k | k in list.kv && list.kv[k].MinerRec? && list.kv[k].miner.user == name && !list.kv[k].IsDeleted() ::
         k in list.keys)
  }

  ghost predicate TxnOk(db: Db, txn: Txn, name: string, keys: seq<Key>)
  {
    && Snapshot(txn.snapshot, txn.readTs, db)
    && KeyOf(UserId(name)) in txn.writes
    && Pending(txn, name, keys)
  }

  ghost predicate ListOk(db: Db, txn: Txn, list: Listing, name: string)
  {
    && txn.readTs <= list.ts && Snapshot(list.kv, list.ts, db) && ListedAt(list, name)
  }

  // The keys walked are those of the user's live bindings.
  ghost predicate WalkedAt(walk: Listing, name: string)
  {
    && (forall k | k in walk.keys ::
         k in walk.kv && walk.kv[k].SignerRec? && k == KeyOf(SignerId(walk.kv[k].signer.signer, name)))
    && (forall k | k in walk.kv && walk.kv[k].SignerRec? && walk.kv[k].signer.user == name && !walk.kv[k].IsDeleted() ::
         k in walk.keys)
  }

  // Every binding walked so far has been committed since the walk began: by a nested transaction, or
  // by whoever removed it.
  ghost predicate WalkOk(db: Db, walk: Listing, name: string, j: nat)
  {
    && Snapshot(walk.kv, walk.ts, db) && WalkedAt(walk, name)
    && j <= |walk.keys| && forall m | 0 <= m < j :: walk.ts < db.LastWrite(walk.keys[m])
  }

  // A nested transaction is about to tombstone the record it has read, which was live.
  ghost predicate SubOk(db: Db, sub: Txn, k: Key)
  {
    && Snapshot(sub.snapshot, sub.readTs, db)
    && k in sub.readSet && k in sub.snapshot && !sub.snapshot[k].IsDeleted()
    && exists now: Stamp :: sub.writes == map[k := Some(sub.snapshot[k].SetDeleted(now))]
  }

  ghost predicate Inv(s: Sys, name: string)
  {
    && s.db.Valid() && WellFiled(s.db.kv)
    && match s.proc
       case Started(txn) => TxnOk(s.db, txn, name, [])
       case Marking(txn, list, i) =>
         && TxnOk(s.db, txn, name, list.keys) && ListOk(s.db, txn, list, name)
         && i <= |list.keys| && forall m | 0 <= m < i :: list.keys[m] in txn.writes
       case Scanning(txn, list, walk, j) =>
         && TxnOk(s.db, txn, name, list.keys) && ListOk(s.db, txn, list, name)
         && (forall k | k in list.keys :: k in txn.writes)
         && WalkOk(s.db, walk, name, j)
       case Unbinding(txn, list, walk, j, sub) =>
         && TxnOk(s.db, txn, name, list.keys) && ListOk(s.db, txn, list, name)
         && (forall k | k in list.keys :: k in txn.writes)
         && WalkOk(s.db, walk, name, j) && j < |walk.keys| && SubOk(s.db, sub, walk.keys[j])
       case _ => true
  }

  lemma EnvKeeps(s: Sys, name: string, writes: Writes)
    requires Inv(s, name) && FiledWrites(writes)
    ensures Inv(s.(db := s.db.Commit(writes)), name)
  {
    hide KeyOf, IdOf, WellFiled, FiledWrites, Pending, ListedAt, Db.Commit, Snapshot, WalkOk, SubOk;
    CommitFiled(s.db, writes);
    match s.proc
    case Started(txn) => SnapshotSurvives(txn.snapshot, txn.readTs, s.db, writes);
    case Marking(txn, list, _) =>
      SnapshotSurvives(txn.snapshot, txn.readTs, s.db, writes);
      SnapshotSurvives(list.kv, list.ts, s.db, writes);
    case Scanning(txn, list, walk, j) =>
      SnapshotSurvives(txn.snapshot, txn.readTs, s.db, writes);
      SnapshotSurvives(list.kv, list.ts, s.db, writes);
      WalkSurvives(s.db, walk, name, j, writes);
    case Unbinding(txn, list, walk, j, sub) =>
      SnapshotSurvives(txn.snapshot, txn.readTs, s.db, writes);
      SnapshotSurvives(list.kv, list.ts, s.db, writes);
      WalkSurvives(s.db, walk, name, j, writes);
      SubSurvives(s.db, sub, walk.keys[j], writes);
    case _ =>
  }

  lemma WalkSurvives(db: Db, walk: Listing, name: string, j: nat, writes: Writes)
    requires WalkOk(db, walk, name, j)
    ensures WalkOk(db.Commit(writes), walk, name, j)
  {
    hide WalkedAt;
    SnapshotSurvives(walk.kv, walk.ts, db, writes);
  }

  lemma SubSurvives(db: Db, sub: Txn, k: Key, writes: Writes)
    requires SubOk(db, sub, k)
    ensures SubOk(db.Commit(writes), sub, k)
  {
    hide WellFiled, Snapshot, Db.Commit;
    SnapshotSurvives(sub.snapshot, sub.readTs, db, writes);
  }

  // One more binding walked: committed by the nested transaction ...
  lemma WalkedOn(db: Db, walk: Listing, name: string, j: nat, writes: Writes)
    requires WalkOk(db, walk, name, j) && j < |walk.keys| && walk.keys[j] in writes
    ensures WalkOk(db.Commit(writes), walk, name, j + 1)
  {
    hide WalkedAt;
    SnapshotSurvives(walk.kv, walk.ts, db, writes);
  }

  // ... or gone, though the walk's snapshot shows it.
  lemma WalkedPast(db: Db, walk: Listing, name: string, j: nat)
    requires WalkOk(db, walk, name, j) && j < |walk.keys| && walk.keys[j] !in db.kv
    ensures WalkOk(db, walk, name, j + 1)
  {
    hide KeyOf;
    assert walk.keys[j] in walk.keys;
  }

  lemma TombstoneFiled(kv: KV, k: Key, now: Stamp)
    requires WellFiled(kv) && k in kv
    ensures FiledWrites(map[k := Some(kv[k].SetDeleted(now))])
  {
  }

  // Marking one more listed miner; a second mark only changes the time.
  lemma MarkPending(txn: Txn, name: string, keys: seq<Key>, k: Key, now: Stamp)
    requires Pending(txn, name, keys) && k in keys && txn.Get(k).Some?
    ensures Pending(txn.Read(k).Set(k, txn.Get(k).value.SetDeleted(now)), name, keys)
  {
    hide KeyOf, IdOf;
    var txn' := txn.Read(k).Set(k, txn.Get(k).value.SetDeleted(now));
    if k in txn.writes {
      var t :| txn.writes[k] == Some(txn.snapshot[k].SetDeleted(t));
      MarkTwice(txn.snapshot[k], t, now);
    }
    assert txn'.writes[k] == Some(txn.snapshot[k].SetDeleted(now));
  }

  lemma MarkTwice(r: Record, t: Stamp, now: Stamp)
    ensures r.SetDeleted(t).SetDeleted(now) == r.SetDeleted(now)
  {
  }

  lemma MarkKeeps(db: Db, txn: Txn, name: string, keys: seq<Key>, k: Key, now: Stamp)
    requires TxnOk(db, txn, name, keys) && k in keys && txn.Get(k).Some?
    ensures var txn' := txn.Read(k).Set(k, txn.Get(k).value.SetDeleted(now));
      && TxnOk(db, txn', name, keys) && txn'.readTs == txn.readTs && txn'.snapshot == txn.snapshot
      && txn'.writes.Keys == txn.writes.Keys + {k}
  {
    hide KeyOf, IdOf, Snapshot, Pending, Record.SetDeleted;
    MarkPending(txn, name, keys, k, now);
  }

  lemma StepKeeps(s: Sys, name: string, now: Stamp)
    requires Inv(s, name)
    ensures Inv(Advance(s, name, now), name)
  {
    hide KeyOf, IdOf, WellFiled, FiledWrites, Pending, Snapshot, MinersOf, SignersOf, InKeyOrder, TablesOf, Db.Commit;
    hide WalkOk, SubOk, ListedAt;
    match s.proc
    case Started(txn) =>
      NowIsSnapshot(s.db);
      StartedBefore(s.db, txn);
      MoreKeys(txn, name, InKeyOrder(MinersOf(TablesOf(s.db.kv), name)));
      ListBegins(s.db, name);
    case Marking(txn, list, i) =>
      if i < |list.keys| && txn.Get(list.keys[i]).Some? {
        MarkKeeps(s.db, txn, name, list.keys, list.keys[i], now);
      } else {
        WalkBegins(s.db, name);
      }
    case Scanning(txn, list, walk, j) =>
      if j < |walk.keys| {
        if walk.keys[j] !in s.db.kv {
          WalkedPast(s.db, walk, name, j);
        } else if !s.db.kv[walk.keys[j]].IsDeleted() {
          SubBegins(s.db, walk.keys[j], now);
        }
      } else if !s.db.Conflicts(txn) {
        OwnWritesFiled(s.db, txn, name, list.keys);
        CommitFiled(s.db, txn.writes);
      }
    case Unbinding(txn, list, walk, j, sub) =>
      if !s.db.Conflicts(sub) {
        SubFiled(s.db, sub, walk.keys[j]);
        EnvKeeps(Sys(s.db, Scanning(txn, list, walk, j)), name, sub.writes);
        WalkedOn(s.db, walk, name, j, sub.writes);
      }
    case _ =>
  }

  lemma ListBegins(db: Db, name: string)
    requires WellFiled(db.kv)
    ensures ListedAt(Listing(db.kv, db.clock, InKeyOrder(MinersOf(TablesOf(db.kv), name))), name)
  {
    hide KeyOf, IdOf, TablesOf;
    var ids := MinersOf(TablesOf(db.kv), name);
    forall k | k in InKeyOrder(ids)
      ensures k in db.kv && db.kv[k].MinerRec? && db.kv[k].miner.user == name && !db.kv[k].IsDeleted()
      ensures k == KeyOf(MinerId(db.kv[k].miner.miner))
    {
      var id := RowKeyed(ids, k);
      Lookup(db.kv, id);
    }
    forall k | k in db.kv && db.kv[k].MinerRec? && db.kv[k].miner.user == name && !db.kv[k].IsDeleted()
      ensures k in InKeyOrder(ids)
    {
      Lookup(db.kv, IdOf(k).value);
      KeysOfMember(ids, IdOf(k).value);
    }
  }

  lemma WalkBegins(db: Db, name: string)
    requires WellFiled(db.kv)
    ensures WalkOk(db, Listing(db.kv, db.clock, InKeyOrder(SignersOf(TablesOf(db.kv), name))), name, 0)
  {
    hide KeyOf, IdOf, TablesOf;
    var ids := SignersOf(TablesOf(db.kv), name);
    forall k | k in InKeyOrder(ids)
      ensures k in db.kv && db.kv[k].SignerRec? && k == KeyOf(SignerId(db.kv[k].signer.signer, name))
    {
      var id := RowKeyed(ids, k);
      Lookup(db.kv, id);
    }
    forall k | k in db.kv && db.kv[k].SignerRec? && db.kv[k].signer.user == name && !db.kv[k].IsDeleted()
      ensures k in InKeyOrder(ids)
    {
      Lookup(db.kv, IdOf(k).value);
      KeysOfMember(ids, IdOf(k).value);
    }
  }

  lemma SubBegins(db: Db, k: Key, now: Stamp)
    requires k in db.kv && !db.kv[k].IsDeleted()
    ensures SubOk(db, db.Begin().Read(k).Set(k, db.kv[k].SetDeleted(now)), k)
  {
    assert db.Begin().Read(k).Set(k, db.kv[k].SetDeleted(now)).writes == map[k := Some(db.kv[k].SetDeleted(now))];
  }

  // What it has read it still finds when it commits.
  lemma SubFiled(db: Db, sub: Txn, k: Key)
    requires SubOk(db, sub, k) && WellFiled(db.kv) && !db.Conflicts(sub)
    ensures FiledWrites(sub.writes) && k in sub.writes
  {
    hide WellFiled, FiledWrites;
    var now: Stamp :| sub.writes == map[k := Some(sub.snapshot[k].SetDeleted(now))];
    assert k in sub.writes && db.LastWrite(k) <= sub.readTs;
    TombstoneFiled(db.kv, k, now);
  }

  lemma StartedBefore(db: Db, txn: Txn)
    requires Snapshot(txn.snapshot, txn.readTs, db)
    ensures txn.readTs <= db.clock
  {
  }

  lemma MoreKeys(txn: Txn, name: string, keys: seq<Key>)
    requires Pending(txn, name, [])
    ensures Pending(txn, name, keys)
  {
  }

  lemma OwnWritesFiled(db: Db, txn: Txn, name: string, keys: seq<Key>)
    requires TxnOk(db, txn, name, keys) && WellFiled(db.kv) && !db.Conflicts(txn)
    ensures FiledWrites(txn.writes)
  {
    hide KeyOf, IdOf, WellFiled, Record.SetDeleted;
    forall k | k in txn.writes ensures FiledWrites(map[k := txn.writes[k]]) {
      var now: Stamp :| txn.writes[k] == Some(txn.snapshot[k].SetDeleted(now));
      assert db.LastWrite(k) <= txn.readTs;
      TombstoneFiled(db.kv, k, now);
    }
    forall k | k in txn.writes && txn.writes[k].Some?
      ensures IdOf(k).Some? && k == KeyOf(IdOf(k).value) && txn.writes[k].value.Filed(IdOf(k).value)
    {
      assert k in map[k := txn.writes[k]] && FiledWrites(map[k := txn.writes[k]]);
    }
  }

  // ---------- every run ----------

  lemma NextKeeps(s: Sys, name: string, ev: Event)
    requires Inv(s, name) && Legal(ev)
    ensures Inv(Next(s, name, ev), name)
  {
    match ev
    case Env(writes) => EnvKeeps(s, name, writes);
    case Step(now) => StepKeeps(s, name, now);
  }

  lemma StartKeeps(db: Db, name: string, now: Stamp)
    requires db.Valid() && WellFiled(db.kv)
    ensures Inv(Start(db, name, now), name)
  {
    hide KeyOf, IdOf, WellFiled;
  }

  ghost function Run(s: Sys, name: string, evs: seq<Event>): (s': Sys)
    requires Inv(s, name) && forall ev | ev in evs :: Legal(ev)
    ensures Inv(s', name)
    decreases |evs|
  {
    if evs == [] then s
    else
      NextKeeps(s, name, evs[0]);
      Run(Next(s, name, evs[0]), name, evs[1..])
  }

  // DeleteUser(name) started on `db`, after any sequence of events.
  ghost function RunFrom(db: Db, name: string, start: Stamp, evs: seq<Event>): (s: Sys)
    requires db.Valid() && WellFiled(db.kv) && forall ev | ev in evs :: Legal(ev)
    ensures Inv(s, name)
  {
    StartKeeps(db, name, start);
    Run(Start(db, name, start), name, evs)
  }

  // The final commit is about to succeed.
  ghost predicate Committing(s: Sys)
  {
    s.proc.Scanning? && s.proc.j >= |s.proc.walk.keys| && !s.db.Conflicts(s.proc.txn)
  }

  // What was read has not changed since, so a marked row is still the live row the list showed.
  lemma MarkedStillHolds(s: Sys, name: string, k: Key) returns (id: Id)
    requires Inv(s, name) && Committing(s) && k in s.proc.txn.writes
    ensures k == KeyOf(id) && Cascades(TablesOf(s.db.kv), id, name) && (id == UserId(name) || id.MinerId?)
    ensures exists at: Stamp :: s.proc.txn.writes[k] == Some(TablesOf(s.db.kv)[id].SetDeleted(at))
  {
    hide KeyOf, IdOf;
    var txn, list := s.proc.txn, s.proc.list;
    assert s.db.LastWrite(k) <= txn.readTs;
    assert k in s.db.kv && s.db.kv[k] == txn.snapshot[k];
    if k in list.keys {
      id := ListedRow(list, name, k);
      assert list.kv[k] == s.db.kv[k];
      Lookup(s.db.kv, id);
    } else {
      id := UserId(name);
      Lookup(s.db.kv, id);
    }
  }

  lemma ListedRow(list: Listing, name: string, k: Key) returns (id: Id)
    requires ListedAt(list, name) && k in list.keys
    ensures id.MinerId? && k == KeyOf(id) && k in list.kv && list.kv[k].MinerRec?
    ensures !list.kv[k].IsDeleted() && list.kv[k].miner.user == name
  {
    hide KeyOf;
    id := MinerId(list.kv[k].miner.miner);
  }

  // Whatever the others do: if DeleteUser commits, its own commit tombstones the user and only
  // miners that are, at that moment, live and owned by the user; every other row is left as it is.
  lemma CommitIsSafe(s: Sys, name: string, now: Stamp, id: Id)
    requires Inv(s, name) && Committing(s)
    ensures Inv(Advance(s, name, now), name) && Advance(s, name, now).proc.Committed?
    ensures var t, t' := TablesOf(s.db.kv), TablesOf(Advance(s, name, now).db.kv);
      && (id in t' <==> id in t)
      && (id in t && KeyOf(id) !in s.proc.txn.writes ==> t'[id] == t[id])
      && (KeyOf(id) in s.proc.txn.writes ==>
           && Cascades(t, id, name) && (id == UserId(name) || id.MinerId?)
           && exists at: Stamp :: t'[id] == t[id].SetDeleted(at))
      && Live(t, UserId(name)) && !Live(t', UserId(name))
  {
    hide KeyOf, IdOf, WellFiled, Pending;
    StepKeeps(s, name, now);
    RowAfterCommit(s, name, now, id);
    RowAfterCommit(s, name, now, UserId(name));
  }

  lemma RowAfterCommit(s: Sys, name: string, now: Stamp, id: Id)
    requires Inv(s, name) && Committing(s) && Inv(Advance(s, name, now), name)
    ensures var t, t' := TablesOf(s.db.kv), TablesOf(Advance(s, name, now).db.kv);
      && (id in t' <==> id in t)
      && (id in t && KeyOf(id) !in s.proc.txn.writes ==> t'[id] == t[id])
      && (KeyOf(id) in s.proc.txn.writes ==>
           && Cascades(t, id, name) && (id == UserId(name) || id.MinerId?)
           && exists at: Stamp :: t'[id] == t[id].SetDeleted(at))
      && KeyOf(UserId(name)) in s.proc.txn.writes
  {
    hide KeyOf, IdOf, WellFiled, Pending;
    CommitMany(s.db, s.proc.txn.writes);
    Lookup(s.db.kv, id);
    Lookup(Advance(s, name, now).db.kv, id);
    if KeyOf(id) in s.proc.txn.writes {
      var row := MarkedStillHolds(s, name, KeyOf(id));
      KeyNamesRow(row);
      KeyNamesRow(id);
    }
  }

  // The list is not re-checked, so a binding made after it escapes: a committed DeleteUser leaves the
  // user without a live miner exactly when none of the miners it owns at the commit was written
  // after the list was taken.
  lemma CommitIsCompleteExactly(s: Sys, name: string, now: Stamp)
    requires Inv(s, name) && Committing(s)
    ensures Inv(Advance(s, name, now), name)
    ensures MinersOf(TablesOf(Advance(s, name, now).db.kv), name) == {} <==>
            forall id | id in MinersOf(TablesOf(s.db.kv), name) :: s.db.LastWrite(KeyOf(id)) <= s.proc.list.ts
  {
    hide KeyOf, IdOf, WellFiled, TablesOf, MinersOf;
    StepKeeps(s, name, now);
    forall id ensures id in MinersOf(TablesOf(Advance(s, name, now).db.kv), name) <==>
      id in MinersOf(TablesOf(s.db.kv), name) && s.db.LastWrite(KeyOf(id)) > s.proc.list.ts
    {
      LeftOver(s, name, now, id);
    }
  }

  lemma LeftOver(s: Sys, name: string, now: Stamp, id: Id)
    requires Inv(s, name) && Committing(s) && Inv(Advance(s, name, now), name)
    ensures id in MinersOf(TablesOf(Advance(s, name, now).db.kv), name) <==>
            id in MinersOf(TablesOf(s.db.kv), name) && s.db.LastWrite(KeyOf(id)) > s.proc.list.ts
  {
    hide KeyOf, IdOf, TablesOf, WellFiled, Pending, Snapshot, ListedAt, FiledWrites, Committing;
    RowAfterCommit(s, name, now, id);
    if id in MinersOf(TablesOf(s.db.kv), name) {
      EscapesExactly(s, name, id);
    }
  }

  lemma EscapesExactly(s: Sys, name: string, id: Id)
    requires Inv(s, name) && Committing(s) && id in MinersOf(TablesOf(s.db.kv), name)
    ensures KeyOf(id) in s.proc.txn.writes <==> s.db.LastWrite(KeyOf(id)) <= s.proc.list.ts
  {
    hide KeyOf, IdOf, WellFiled, TablesOf;
    Lookup(s.db.kv, id);
  }

  // Each nested transaction that commits tombstones one binding, which at that moment is live and the
  // user's, and changes nothing else.
  lemma NestedCommitIsSafe(s: Sys, name: string, now: Stamp) returns (id: Id, at: Stamp)
    requires Inv(s, name) && s.proc.Unbinding? && !s.db.Conflicts(s.proc.sub)
    ensures Inv(Advance(s, name, now), name)
    ensures id in SignersOf(TablesOf(s.db.kv), name)
    ensures TablesOf(Advance(s, name, now).db.kv) ==
            TablesOf(s.db.kv)[id := TablesOf(s.db.kv)[id].SetDeleted(at)]
  {
    hide KeyOf, IdOf, WellFiled, TablesOf, Pending, InKeyOrder, ListedAt, FiledWrites, Db.Commit;
    StepKeeps(s, name, now);
    var sub, k := s.proc.sub, s.proc.walk.keys[s.proc.j];
    assert k in s.proc.walk.keys;
    id := SignerId(s.proc.walk.kv[k].signer.signer, name);
    at :| sub.writes == map[k := Some(sub.snapshot[k].SetDeleted(at))];
    assert k in sub.writes;
    assert s.db.LastWrite(k) <= sub.readTs;
    assert k in s.db.kv && s.db.kv[k] == sub.snapshot[k];
    Lookup(s.db.kv, id);
    CommitOne(s.db, k, Some(s.db.kv[k].SetDeleted(at)));
    PutCommutes(s.db.kv, id, s.db.kv[k].SetDeleted(at));
  }

  // The final commit leaves the signers alone, and a binding of the user that is live then has been
  // written after the walk began.
  lemma SurvivorsAreNew(s: Sys, name: string, now: Stamp, id: Id)
    requires Inv(s, name) && Committing(s)
    ensures Inv(Advance(s, name, now), name)
    ensures id in SignersOf(TablesOf(Advance(s, name, now).db.kv), name) <==> id in SignersOf(TablesOf(s.db.kv), name)
    ensures id in SignersOf(TablesOf(s.db.kv), name) ==> s.proc.walk.ts < s.db.LastWrite(KeyOf(id))
  {
    hide KeyOf, IdOf, WellFiled, TablesOf, Pending, ListedAt, FiledWrites, Snapshot, Db.Commit;
    StepKeeps(s, name, now);
    RowAfterCommit(s, name, now, id);
    if id in SignersOf(TablesOf(s.db.kv), name) {
      BoundSince(s.db, s.proc.walk, name, id);
    }
  }

  lemma BoundSince(db: Db, walk: Listing, name: string, id: Id)
    requires WalkOk(db, walk, name, |walk.keys|) && WellFiled(db.kv) && id in SignersOf(TablesOf(db.kv), name)
    ensures walk.ts < db.LastWrite(KeyOf(id))
  {
    hide KeyOf, IdOf, WellFiled, TablesOf;
    Lookup(db.kv, id);
  }

  // Nor is the walk re-checked: a committed DeleteUser leaves the user without a live binding exactly
  // when none of the bindings it has at the commit was written after the walk began.
  lemma UnbindsAllExactly(s: Sys, name: string, now: Stamp)
    requires Inv(s, name) && Committing(s)
    ensures Inv(Advance(s, name, now), name)
    ensures SignersOf(TablesOf(Advance(s, name, now).db.kv), name) == SignersOf(TablesOf(s.db.kv), name)
    ensures SignersOf(TablesOf(Advance(s, name, now).db.kv), name) == {} <==>
            forall id | id in SignersOf(TablesOf(s.db.kv), name) :: s.db.LastWrite(KeyOf(id)) <= s.proc.walk.ts
    ensures forall id | id in SignersOf(TablesOf(s.db.kv), name) :: s.proc.walk.ts < s.db.LastWrite(KeyOf(id))
  {
    hide KeyOf, IdOf, WellFiled, TablesOf, SignersOf, Advance, TxnOk, ListOk, WalkOk;
    StepKeeps(s, name, now);
    var before, after := SignersOf(TablesOf(s.db.kv), name), SignersOf(TablesOf(Advance(s, name, now).db.kv), name);
    forall id ensures id in after <==> id in before
      ensures id in before ==> s.proc.walk.ts < s.db.LastWrite(KeyOf(id))
    {
      SurvivorsAreNew(s, name, now, id);
    }
    assert after == before;
    if id :| id in before { assert s.proc.walk.ts < s.db.LastWrite(KeyOf(id)); }
  }

  // For every run from every database: what a nested commit does ...
  lemma EveryNestedCommit(db: Db, name: string, start: Stamp, evs: seq<Event>, now: Stamp)
    requires db.Valid() && WellFiled(db.kv) && forall ev | ev in evs :: Legal(ev)
    requires var s := RunFrom(db, name, start, evs); s.proc.Unbinding? && !s.db.Conflicts(s.proc.sub)
    ensures var s := RunFrom(db, name, start, evs);
      var s' := Advance(s, name, now);
      && Inv(s', name)
      && exists id: Id, at: Stamp ::
           && id in SignersOf(TablesOf(s.db.kv), name)
           && TablesOf(s'.db.kv) == TablesOf(s.db.kv)[id := TablesOf(s.db.kv)[id].SetDeleted(at)]
  {
    hide KeyOf, IdOf, WellFiled, TablesOf, RunFrom, Advance, Inv;
    var id, at := NestedCommitIsSafe(RunFrom(db, name, start, evs), name, now);
  }

  // ... and what the final one does.
  lemma EveryInterleaving(db: Db, name: string, start: Stamp, evs: seq<Event>, now: Stamp)
    requires db.Valid() && WellFiled(db.kv) && forall ev | ev in evs :: Legal(ev)
    requires Committing(RunFrom(db, name, start, evs))
    ensures var s := RunFrom(db, name, start, evs);
      var s' := Advance(s, name, now);
      && Inv(s', name) && s'.proc.Committed?
      && TablesOf(s'.db.kv).Keys == TablesOf(s.db.kv).Keys
      && (forall id | id in TablesOf(s.db.kv) && TablesOf(s'.db.kv)[id] != TablesOf(s.db.kv)[id] ::
           Cascades(TablesOf(s.db.kv), id, name) && (id == UserId(name) || id.MinerId?))
      && (MinersOf(TablesOf(s'.db.kv), name) == {} <==>
           forall id | id in MinersOf(TablesOf(s.db.kv), name) :: s.db.LastWrite(KeyOf(id)) <= s.proc.list.ts)
      && SignersOf(TablesOf(s'.db.kv), name) == SignersOf(TablesOf(s.db.kv), name)
      && (SignersOf(TablesOf(s'.db.kv), name) == {} <==>
           forall id | id in SignersOf(TablesOf(s.db.kv), name) :: s.db.LastWrite(KeyOf(id)) <= s.proc.walk.ts)
      && (forall id | id in SignersOf(TablesOf(s'.db.kv), name) :: s.proc.walk.ts < s.db.LastWrite(KeyOf(id)))
  {
    hide KeyOf, IdOf, WellFiled, TablesOf, MinersOf, SignersOf, RunFrom, Advance;
    var s := RunFrom(db, name, start, evs);
    CommitIsSafe(s, name, now, UserId(name));
    CommitIsCompleteExactly(s, name, now);
    UnbindsAllExactly(s, name, now);
    var s' := Advance(s, name, now);
    forall id ensures id in TablesOf(s'.db.kv) <==> id in TablesOf(s.db.kv)
      ensures id in TablesOf(s.db.kv) && TablesOf(s'.db.kv)[id] != TablesOf(s.db.kv)[id] ==>
        Cascades(TablesOf(s.db.kv), id, name) && (id == UserId(name) || id.MinerId?)
    {
      CommitIsSafe(s, name, now, id);
    }
    assert TablesOf(s'.db.kv).Keys == TablesOf(s.db.kv).Keys;
  }

  // ---------- when it fails ----------

  // What the machine has touched so far: the user, and the miners read again.
  function Touched(s: Sys, name: string): set<Key>
  {
    match s.proc
    case Started(_) => {KeyOf(UserId(name))}
    case Marking(_, list, i) => {KeyOf(UserId(name))} + if i <= |list.keys| then set k | k in list.keys[..i] else {}
    case Scanning(_, list, _, _) => {KeyOf(UserId(name))} + set k | k in list.keys
    case Unbinding(_, list, _, _, _) => {KeyOf(UserId(name))} + set k | k in list.keys
    case _ => {}
  }

  // It has read and written exactly that, and a nested transaction exactly its binding.
  ghost predicate Tracks(s: Sys, name: string)
  {
    && (s.proc.Started? || s.proc.Marking? || s.proc.Scanning? || s.proc.Unbinding? ==>
         s.proc.txn.readSet == s.proc.txn.writes.Keys == Touched(s, name))
    && (s.proc.Unbinding? ==>
         && s.proc.j < |s.proc.walk.keys| && s.proc.sub.writes != map[]
         && s.proc.sub.readSet == {s.proc.walk.keys[s.proc.j]})
  }

  lemma TracksOn(s: Sys, name: string, ev: Event)
    requires Inv(s, name) && Tracks(s, name)
    ensures Tracks(Next(s, name, ev), name)
  {
    hide KeyOf, IdOf, WellFiled, TxnOk, ListOk, WalkOk, SubOk, Db.Commit, InKeyOrder, MinersOf, SignersOf, TablesOf;
    if s.proc.Marking? && s.proc.i < |s.proc.list.keys| {
      assert s.proc.list.keys[..s.proc.i + 1] == s.proc.list.keys[..s.proc.i] + [s.proc.list.keys[s.proc.i]];
    } else if s.proc.Marking? {
      assert s.proc.list.keys[..s.proc.i] == s.proc.list.keys;
    }
  }

  lemma {:induction false} RunTracks(s: Sys, name: string, evs: seq<Event>)
    requires Inv(s, name) && Tracks(s, name) && forall ev | ev in evs :: Legal(ev)
    ensures Tracks(Run(s, name, evs), name)
    decreases |evs|
  {
    hide Tracks, Next, Legal, TxnOk, ListOk, WalkOk, SubOk, WellFiled;
    if evs != [] {
      assert evs[0] in evs;
      NextKeeps(s, name, evs[0]);
      TracksOn(s, name, evs[0]);
      RunTracks(Next(s, name, evs[0]), name, evs[1..]);
    }
  }

  // Why the next step of DeleteUser fails, if it does: a listed miner has no record in its snapshot; a
  // binding walked has been deleted by somebody else; a nested transaction's binding has been written
  // since that began; or, at the end, the user or a listed miner has been written since it began.
  ghost predicate Fails(s: Sys, name: string)
    requires WellFiled(s.db.kv)
  {
    match s.proc
    case Started(_) => false
    case Marking(txn, list, i) => i < |list.keys| && list.keys[i] !in txn.snapshot
    case Scanning(txn, list, walk, j) =>
      if j < |walk.keys| then
        exists id :: id in TablesOf(s.db.kv) && KeyOf(id) == walk.keys[j] && !Live(TablesOf(s.db.kv), id)
      else exists k :: (k == KeyOf(UserId(name)) || k in list.keys) && txn.readTs < s.db.LastWrite(k)
    case Unbinding(_, _, walk, j, sub) => j < |walk.keys| && sub.readTs < s.db.LastWrite(walk.keys[j])
    case _ => false
  }

  // In every run from every database, DeleteUser fails at a step exactly for one of these reasons.
  lemma FailsExactly(db: Db, name: string, start: Stamp, evs: seq<Event>, now: Stamp)
    requires db.Valid() && WellFiled(db.kv) && forall ev | ev in evs :: Legal(ev)
    ensures var s := RunFrom(db, name, start, evs);
      !s.proc.Failed? ==> (Advance(s, name, now).proc.Failed? <==> Fails(s, name))
  {
    StartKeeps(db, name, start);
    assert Tracks(Start(db, name, start), name);
    RunTracks(Start(db, name, start), name, evs);
    hide Start, Run;
    if !RunFrom(db, name, start, evs).proc.Failed? { StepFails(RunFrom(db, name, start, evs), name, now); }
  }

  lemma StepFails(s: Sys, name: string, now: Stamp)
    requires Inv(s, name) && Tracks(s, name) && !s.proc.Failed?
    ensures Advance(s, name, now).proc.Failed? <==> Fails(s, name)
  {
    hide KeyOf, IdOf, ListOk, WalkOk, SubOk, InKeyOrder, MinersOf, SignersOf, TablesOf, Snapshot;
    match s.proc
    case Scanning(txn, list, walk, j) =>
      if j < |walk.keys| {
        var k := walk.keys[j];
        if k in s.db.kv { Lookup(s.db.kv, IdOf(k).value); }
        if id :| id in TablesOf(s.db.kv) && KeyOf(id) == k && !Live(TablesOf(s.db.kv), id) { Lookup(s.db.kv, id); }
      } else if k :| (k == KeyOf(UserId(name)) || k in list.keys) && txn.readTs < s.db.LastWrite(k) {
        assert k in txn.readSet;
      }
    case Marking(txn, list, i) =>
      if i < |list.keys| { assert list.keys[i] in txn.writes ==> list.keys[i] in txn.snapshot; }
    case Unbinding(_, _, walk, j, sub) =>
      assert walk.keys[j] in sub.readSet;
    case _ =>
  }

  // ---------- the others ----------

  // What the machine assumes of the others holds of every closure of the store, however long ago it
  // began: its commit is a legal event, and does to the tables what its effect says.
  lemma OthersAreLegal(s: Sys, name: string, c: Closure, txn: Txn)
    requires Inv(s, name) && c.Ok() && WellFiled(txn.snapshot) && txn.writes == map[]
    requires Snapshot(txn.snapshot, txn.readTs, s.db)
    requires var (txn', st) := Body(c, txn); st.Ok? && !s.db.Conflicts(txn')
    ensures var ev := Env(Body(c, txn).0.writes);
      && Legal(ev) && Inv(Next(s, name, ev), name)
      && Effect(c, TablesOf(s.db.kv)) == (TablesOf(Next(s, name, ev).db.kv), Ok)
  {
    hide KeyOf, IdOf, TablesOf, WellFiled, Effect, Body, Snapshot, TxnOk, ListOk, WalkOk, SubOk;
    CommitsAsEffect(c, txn, s.db);
    NextKeeps(s, name, Env(Body(c, txn).0.writes));
  }

  // The writes of a closure that runs on `db` with no delay.
  ghost function WritesOf(db: Db, c: Closure): (writes: Writes)
    requires db.Valid() && WellFiled(db.kv) && c.Ok() && Effect(c, TablesOf(db.kv)).1.Ok?
    ensures FiledWrites(writes)
  {
    BodyOnSnapshot(c, db.Begin());
    NowIsSnapshot(db);
    NoConflict(db, Body(c, db.Begin()).0);
    CommitsAsEffect(c, db.Begin(), db);
    Body(c, db.Begin()).0.writes
  }

  lemma WritesAct(db: Db, c: Closure)
    requires db.Valid() && WellFiled(db.kv) && c.Ok() && Effect(c, TablesOf(db.kv)).1.Ok?
    ensures var db' := db.Commit(WritesOf(db, c));
      var k := KeyOf(Written(c, TablesOf(db.kv)).0);
      && db'.Valid() && WellFiled(db'.kv) && TablesOf(db'.kv) == Effect(c, TablesOf(db.kv)).0
      && db'.clock == db.clock + 1 && db'.LastWrite(k) == db.clock + 1
      && forall k' | k' != k :: db'.LastWrite(k') == db.LastWrite(k')
  {
    hide KeyOf, IdOf, TablesOf, WellFiled, Effect, Written, Body, Snapshot;
    var (id, r) := Written(c, TablesOf(db.kv));
    BodyOnSnapshot(c, db.Begin());
    NowIsSnapshot(db);
    NoConflict(db, Body(c, db.Begin()).0);
    CommitsAsEffect(c, db.Begin(), db);
    CommitOne(db, KeyOf(id), r);
    assert KeyOf(id) in WritesOf(db, c);
  }

  // ---------- bindings that escape ----------

  // The run in which somebody commits `c` between the list of the miners and the final commit ...
  ghost function AfterList(db: Db, name: string, c: Closure): (s: Sys)
    requires db.Valid() && WellFiled(db.kv) && c.Ok() && Effect(c, TablesOf(db.kv)).1.Ok?
    ensures Inv(s, name)
  {
    RunFrom(db, name, 1, [Step(1), Env(WritesOf(db, c)), Step(1)])
  }

  // ... or between the walk over the signers and the final commit.
  ghost function AfterWalk(db: Db, name: string, c: Closure): (s: Sys)
    requires db.Valid() && WellFiled(db.kv) && c.Ok() && Effect(c, TablesOf(db.kv)).1.Ok?
    ensures Inv(s, name)
  {
    RunFrom(db, name, 1, [Step(1), Step(1), Env(WritesOf(db, c))])
  }

  lemma NothingToList()
    ensures InKeyOrder({}) == []
  {
    assert KeysOf({}) == {};
  }

  lemma RunOfThree(s: Sys, name: string, a: Event, b: Event, c: Event)
    requires Inv(s, name) && Legal(a) && Legal(b) && Legal(c)
    ensures Inv(Next(s, name, a), name) && Inv(Next(Next(s, name, a), name, b), name)
    ensures Run(s, name, [a, b, c]) == Next(Next(Next(s, name, a), name, b), name, c)
  {
    assert [a, b, c][1..] == [b, c] && [b, c][1..] == [c] && [c][1..] == [];
    hide Inv, Next, Legal;
    NextKeeps(s, name, a);
    var s1 := Next(s, name, a);
    NextKeeps(s1, name, b);
    var s2 := Next(s1, name, b);
    NextKeeps(s2, name, c);
    var s3 := Next(s2, name, c);
    assert Run(s3, name, []) == s3;
    assert Run(s2, name, [c]) == s3;
    assert Run(s1, name, [b, c]) == s3;
  }

  // A live user without bindings, at the start of a deletion that has just read it.
  ghost predicate Unbound(db: Db, name: string)
  {
    && db.Valid() && WellFiled(db.kv) && Live(TablesOf(db.kv), UserId(name))
    && MinersOf(TablesOf(db.kv), name) == {} && SignersOf(TablesOf(db.kv), name) == {}
  }

  // Where those runs stand before the final commit.
  lemma AfterListShape(db: Db, name: string, c: Closure)
    requires Unbound(db, name) && c.Ok() && Effect(c, TablesOf(db.kv)).1.Ok?
    requires SignersOf(Effect(c, TablesOf(db.kv)).0, name) == {}
    ensures var s := AfterList(db, name, c);
      && s.proc.Scanning? && s.proc.walk.keys == [] && s.proc.list.ts == db.clock
      && s.proc.txn.readTs == db.clock && s.proc.txn.readSet == {KeyOf(UserId(name))}
      && s.db == db.Commit(WritesOf(db, c))
  {
    hide KeyOf, IdOf, WellFiled, TablesOf, Inv, Run, WritesOf, Effect, FiledWrites;
    StartKeeps(db, name, 1);
    Lookup(db.kv, UserId(name));
    WritesAct(db, c);
    NothingToList();
    RunOfThree(Start(db, name, 1), name, Step(1), Env(WritesOf(db, c)), Step(1));
  }

  lemma AfterWalkShape(db: Db, name: string, c: Closure)
    requires Unbound(db, name) && c.Ok() && Effect(c, TablesOf(db.kv)).1.Ok?
    ensures var s := AfterWalk(db, name, c);
      && s.proc.Scanning? && s.proc.walk.keys == []
      && s.proc.txn.readTs == db.clock && s.proc.txn.readSet == {KeyOf(UserId(name))}
      && s.db == db.Commit(WritesOf(db, c))
  {
    hide KeyOf, IdOf, WellFiled, TablesOf, Inv, Run, WritesOf, Effect, FiledWrites;
    StartKeeps(db, name, 1);
    Lookup(db.kv, UserId(name));
    NothingToList();
    RunOfThree(Start(db, name, 1), name, Step(1), Step(1), Env(WritesOf(db, c)));
  }

  // Neither binding touches the user's key, so the deletion still commits.
  lemma StillCommits(s: Sys, db: Db, name: string, c: Closure)
    requires db.Valid() && WellFiled(db.kv) && c.Ok() && Effect(c, TablesOf(db.kv)).1.Ok?
    requires !Written(c, TablesOf(db.kv)).0.UserId?
    requires s.proc.Scanning? && s.proc.walk.keys == [] && s.db == db.Commit(WritesOf(db, c))
    requires s.proc.txn.readTs == db.clock && s.proc.txn.readSet == {KeyOf(UserId(name))}
    ensures Committing(s)
  {
    hide KeyOf, IdOf, WellFiled, TablesOf, WritesOf, Effect, Db.Commit;
    WritesAct(db, c);
    KeyNamesRow(Written(c, TablesOf(db.kv)).0);
    KeyNamesRow(UserId(name));
    assert db.LastWrite(KeyOf(UserId(name))) <= db.clock;
  }

  // From every store in which a live user has no bindings, and for every address: a miner bound
  // after the list escapes, and the deleted user is left with a live miner.
  lemma PhantomMiner(db: Db, name: string, a: Addr)
    requires Unbound(db, name)
    ensures var c := BindMiner(a, name, None, 1);
      && Effect(c, TablesOf(db.kv)).1.Ok?
      && var s := AfterList(db, name, c);
      && Committing(s) && Inv(Advance(s, name, 1), name)
      && TablesOf(s.db.kv) == UpsertMiner(TablesOf(db.kv), a, name, None, 1).0
      && var t := TablesOf(Advance(s, name, 1).db.kv);
         !Live(t, UserId(name)) && MinerId(a) in MinersOf(t, name)
  {
    var c := BindMiner(a, name, None, 1);
    assert SignersOf(Effect(c, TablesOf(db.kv)).0, name) == {} by { NoSignersYet(TablesOf(db.kv), a, name); }
    assert Written(c, TablesOf(db.kv)).0 == MinerId(a);
    assert Effect(c, TablesOf(db.kv)).0 == UpsertMiner(TablesOf(db.kv), a, name, None, 1).0;
    assert MinerId(a) in MinersOf(Effect(c, TablesOf(db.kv)).0, name);
    hide KeyOf, IdOf, WellFiled, TablesOf, AfterList, WritesOf, Advance, Inv, Db.Commit, Effect, Written, MinersOf;
    AfterListShape(db, name, c);
    WritesAct(db, c);
    var s := AfterList(db, name, c);
    StillCommits(s, db, name, c);
    CommitIsSafe(s, name, 1, UserId(name));
    LeftOver(s, name, 1, MinerId(a));
  }

  lemma NoSignersYet(t: Tables, a: Addr, name: string)
    requires Consistent(t) && SignersOf(t, name) == {}
    ensures SignersOf(UpsertMiner(t, a, name, None, 1).0, name) == {}
  {
    var t' := UpsertMiner(t, a, name, None, 1).0;
    forall id ensures id !in SignersOf(t', name) { assert id !in SignersOf(t, name); }
  }

  // Likewise a signer registered after the walk.
  lemma PhantomSigner(db: Db, name: string, a: Addr)
    requires Unbound(db, name)
    ensures var c := BindSigner(a, name, 1);
      && Effect(c, TablesOf(db.kv)).1.Ok?
      && var s := AfterWalk(db, name, c);
      && Committing(s) && Inv(Advance(s, name, 1), name)
      && TablesOf(s.db.kv) == RegisterSigner(TablesOf(db.kv), a, name, 1).0
      && var t := TablesOf(Advance(s, name, 1).db.kv);
         !Live(t, UserId(name)) && SignerId(a, name) in SignersOf(t, name)
  {
    var c := BindSigner(a, name, 1);
    assert Written(c, TablesOf(db.kv)).0 == SignerId(a, name);
    assert Effect(c, TablesOf(db.kv)).0 == RegisterSigner(TablesOf(db.kv), a, name, 1).0;
    assert SignerId(a, name) in SignersOf(Effect(c, TablesOf(db.kv)).0, name);
    hide KeyOf, IdOf, WellFiled, TablesOf, AfterWalk, WritesOf, Advance, Inv, Db.Commit, Effect, Written, SignersOf;
    AfterWalkShape(db, name, c);
    WritesAct(db, c);
    var s := AfterWalk(db, name, c);
    StillCommits(s, db, name, c);
    CommitIsSafe(s, name, 1, UserId(name));
    SurvivorsAreNew(s, name, 1, SignerId(a, name));
  }
}

/** badger's transactions: a snapshot, the keys read, and the pending writes.

A transaction commits only if no key it has read was committed by somebody else after its snapshot
was taken; a transaction without writes always succeeds.
 */
module Badger {
  import opened ByteOrder
  import opened Records

  type Writes = map<Key, Option<Record>>  // None deletes the key

  datatype Db = Db(kv: KV, clock: nat, lastWrite: map<Key, nat>) {
    function LastWrite(k: Key): nat { if k in lastWrite then lastWrite[k] else 0 }

    ghost predicate Valid() { forall k | k in lastWrite :: lastWrite[k] <= clock }

    function Begin(): Txn { Txn(clock, kv, {}, map[]) }

    predicate Conflicts(txn: Txn) {
      txn.writes != map[] && exists k {:trigger LastWrite(k)} | k in txn.readSet :: txn.readTs < LastWrite(k)
    }

    // The database after a successful commit.
    function Commit(writes: Writes): Db {
      if writes == map[] then this
      else
        Db(Apply(kv, writes), clock + 1,
           map k | k in lastWrite.Keys + writes.Keys :: if k in writes then clock + 1 else lastWrite[k])
    }
  }

  datatype Txn = Txn(readTs: nat, snapshot: KV, readSet: set<Key>, writes: Writes) {
    // txn.Get sees the transaction's own pending write first ...
    function Get(k: Key): Option<Record> {
      if k in writes then writes[k]
      else if k in snapshot then Some(snapshot[k]) else None
    }

    // ... and otherwise enters the key in the read set.
    function Read(k: Key): Txn {
      if k in writes then this else this.(readSet := readSet + {k})
    }

    function Set(k: Key, r: Record): Txn { this.(writes := writes[k := Some(r)]) }

    function Delete(k: Key): Txn { this.(writes := writes[k := None]) }
  }

  function Apply(kv: KV, writes: Writes): KV
  {
    map k | k in kv.Keys + writes.Keys && (k in writes ==> writes[k].Some?) ::
      if k in writes then writes[k].value else kv[k]
  }

  lemma CommitOne(db: Db, k: Key, v: Option<Record>)
    requires db.Valid()
    ensures var db' := db.Commit(map[k := v]);
      && db'.Valid()
      && db'.kv == (if v.Some? then db.kv[k := v.value] else db.kv - {k})
      && forall k' | k' != k :: db'.LastWrite(k') == db.LastWrite(k')
  {
    var writes: Writes := map[k := v];
    assert k in writes;
    CommitMany(db, writes);
    assert Apply(db.kv, writes) == if v.Some? then db.kv[k := v.value] else db.kv - {k};
  }

  lemma CommitMany(db: Db, writes: Writes)
    requires db.Valid()
    ensures db.Commit(writes).Valid()
    ensures db.Commit(writes).kv == Apply(db.kv, writes)
    ensures forall k | k !in writes :: db.Commit(writes).LastWrite(k) == db.LastWrite(k)
  {
    if writes == map[] {
      assert Apply(db.kv, writes) == db.kv;
    } else {
      var db' := db.Commit(writes);
      assert db'.kv == Apply(db.kv, writes);
      assert db'.clock == db.clock + 1;
    }
  }

  // With nobody committing in between, a transaction never conflicts.
  lemma NoConflict(db: Db, txn: Txn)
    requires db.Valid() && db.clock <= txn.readTs
    ensures !db.Conflicts(txn)
  {
  }

  // ---------- snapshots ----------

  // A key not committed since `ts` still has the value the snapshot shows.
  ghost predicate Snapshot(kv: KV, ts: nat, db: Db)
  {
    && ts <= db.clock
    && forall k {:trigger db.LastWrite(k)} | db.LastWrite(k) <= ts ::
         (k in kv <==> k in db.kv) && (k in kv ==> kv[k] == db.kv[k])
  }

  lemma SnapshotSurvives(kv: KV, ts: nat, db: Db, writes: Writes)
    requires Snapshot(kv, ts, db)
    ensures Snapshot(kv, ts, db.Commit(writes))
  {
    var db' := db.Commit(writes);
    forall k | db'.LastWrite(k) <= ts ensures (k in kv <==> k in db'.kv) && (k in kv ==> kv[k] == db'.kv[k]) {
      assert writes != map[] ==> k !in writes;
      assert db.LastWrite(k) <= ts;
    }
  }

  lemma NowIsSnapshot(db: Db)
    ensures Snapshot(db.kv, db.clock, db)
  {
  }

  // What a transaction has read it still finds when it commits.
  lemma ReadStillHolds(db: Db, txn: Txn, k: Key)
    requires Snapshot(txn.snapshot, txn.readTs, db) && txn.writes != map[] && !db.Conflicts(txn) && k in txn.readSet
    ensures (k in txn.snapshot <==> k in db.kv) && (k in db.kv ==> txn.snapshot[k] == db.kv[k])
  {
    assert db.LastWrite(k) <= txn.readTs;
  }
}

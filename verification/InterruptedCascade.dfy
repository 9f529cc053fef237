/** DeleteUser cut short (storage/badger.go:193-274).

A process that stops leaves the database as its last commit left it. Here DeleteUser runs alone, as
the step machine of module Interleaving, and may stop after any number of steps.
 */
module InterruptedCascade {
  import opened ByteOrder
  import opened Records
  import opened Badger
  import opened Tables
  import opened Interleaving
  import StoreTheorems

  // `t` is `t0` with exactly the rows `ids` tombstoned, at whatever times.
  ghost predicate Marked(t0: Tables, t: Tables, ids: set<Id>)
  {
    && t.Keys == t0.Keys && ids <= t0.Keys
    && (forall id | id in t0 && id !in ids :: t[id] == t0[id])
    && (forall id | id in ids :: exists now: Stamp :: t[id] == t0[id].SetDeleted(now))
  }

  lemma MarkOne(t0: Tables, t: Tables, ids: set<Id>, id: Id, now: Stamp)
    requires Marked(t0, t, ids) && id in t0 && id !in ids
    ensures Marked(t0, t[id := t[id].SetDeleted(now)], ids + {id})
  {
  }

  // The rows named by the first `n` keys.
  ghost function Named(ids: set<Id>, keys: seq<Key>, n: nat): set<Id>
    requires n <= |keys|
  {
    set id | id in ids && KeyOf(id) in keys[..n]
  }

  ghost predicate Quiet(db: Db, txn: Txn, t0: Tables, name: string)
    requires Consistent(t0)
  {
    && (forall k | k in txn.readSet :: db.LastWrite(k) <= txn.readTs)
    && txn.readSet <= KeysOf({UserId(name)} + MinersOf(t0, name))
    && txn.readTs <= db.clock
  }

  // Where a solo run stands. No transaction of others intervenes, so nothing conflicts.
  ghost predicate Solo(s: Sys, name: string, t0: Tables)
    requires Consistent(t0)
  {
    && Inv(s, name) && Live(t0, UserId(name))
    && var t := TablesOf(s.db.kv);
       match s.proc
       case Started(txn) => t == t0 && Quiet(s.db, txn, t0, name) && txn.snapshot == s.db.kv && txn.readTs == s.db.clock
       case Marking(txn, list, i) =>
         && t == t0 && Quiet(s.db, txn, t0, name) && txn.snapshot == s.db.kv && txn.readTs == s.db.clock
         && list.keys == InKeyOrder(MinersOf(t0, name))
       case Scanning(txn, list, walk, j) =>
         && Quiet(s.db, txn, t0, name) && list.keys == InKeyOrder(MinersOf(t0, name))
         && walk.keys == InKeyOrder(SignersOf(t0, name)) && j <= |walk.keys|
         && Marked(t0, t, Named(SignersOf(t0, name), walk.keys, j))
       case Unbinding(txn, list, walk, j, sub) =>
         && Quiet(s.db, txn, t0, name) && list.keys == InKeyOrder(MinersOf(t0, name))
         && walk.keys == InKeyOrder(SignersOf(t0, name)) && j < |walk.keys|
         && Marked(t0, t, Named(SignersOf(t0, name), walk.keys, j))
         && sub.readTs == s.db.clock && walk.keys[j] in s.db.kv
         && exists now: Stamp :: sub.writes == map[walk.keys[j] := Some(s.db.kv[walk.keys[j]].SetDeleted(now))]
       case Committed(_) => Marked(t0, t, Cascade(t0, name))
       case Failed => false
  }

  lemma SoloStart(db: Db, name: string, now: Stamp)
    requires db.Valid() && WellFiled(db.kv) && Live(TablesOf(db.kv), UserId(name))
    ensures Solo(Start(db, name, now), name, TablesOf(db.kv))
  {
    hide KeyOf, IdOf, WellFiled, TablesOf, Pending, Snapshot, ListedAt, KeysOf, MinersOf;
    StartKeeps(db, name, now);
    Lookup(db.kv, UserId(name));
    KeysOfMember({UserId(name)} + MinersOf(TablesOf(db.kv), name), UserId(name));
  }

  lemma SoloMark(s: Sys, name: string, t0: Tables, now: Stamp)
    requires Consistent(t0) && Solo(s, name, t0) && s.proc.Marking?
    ensures Solo(Advance(s, name, now), name, t0)
  {
    hide KeyOf, IdOf, WellFiled, TablesOf, Snapshot, ListedAt, KeysOf, MinersOf, SignersOf, InKeyOrder;
    StepKeeps(s, name, now);
    var txn, list, i := s.proc.txn, s.proc.list, s.proc.i;
    if i < |list.keys| {
      var k := list.keys[i];
      var id := RowInOrder(MinersOf(t0, name), k);
      MinerRows(t0, name, id);
      KeysOfMember({UserId(name)} + MinersOf(t0, name), id);
      Lookup(s.db.kv, id);
    } else {
      NoneNamed(SignersOf(t0, name), InKeyOrder(SignersOf(t0, name)));
    }
  }

  lemma RowInOrder(ids: set<Id>, k: Key) returns (id: Id)
    requires k in InKeyOrder(ids)
    ensures id in ids && k == KeyOf(id)
  {
    id := RowKeyed(ids, k);
  }

  lemma MinerRows(t: Tables, name: string, id: Id)
    requires Consistent(t) && id in MinersOf(t, name)
    ensures id in t && id.MinerId? && Live(t, id)
  {
  }

  lemma NoneNamed(ids: set<Id>, keys: seq<Key>)
    ensures Named(ids, keys, 0) == {}
  {
  }

  lemma AllNamed(ids: set<Id>)
    ensures Named(ids, InKeyOrder(ids), |InKeyOrder(ids)|) == ids
  {
    hide KeyOf, InKeyOrder;
    InKeyOrderIs(ids);
    assert InKeyOrder(ids)[..|InKeyOrder(ids)|] == InKeyOrder(ids);
  }

  lemma OneMoreNamed(ids: set<Id>, n: nat, id: Id)
    requires n < |InKeyOrder(ids)| && id in ids && InKeyOrder(ids)[n] == KeyOf(id)
    ensures id !in Named(ids, InKeyOrder(ids), n)
    ensures Named(ids, InKeyOrder(ids), n + 1) == Named(ids, InKeyOrder(ids), n) + {id}
  {
    hide KeyOf, InKeyOrder, IdOf;
    InKeyOrderIs(ids);
    KeysNameRows();
    var keys := InKeyOrder(ids);
    assert keys[..n + 1] == keys[..n] + [keys[n]];
  }

  lemma SoloScan(s: Sys, name: string, t0: Tables, now: Stamp)
    requires Consistent(t0) && Solo(s, name, t0) && s.proc.Scanning? && s.proc.j < |s.proc.walk.keys|
    ensures Solo(Advance(s, name, now), name, t0) && Advance(s, name, now).proc.Unbinding?
  {
    hide KeyOf, IdOf, WellFiled, TablesOf, Pending, Snapshot, ListedAt, KeysOf, MinersOf, InKeyOrder, Named;
    StepKeeps(s, name, now);
    var todo, j := s.proc.walk.keys, s.proc.j;
    var id := RowInOrder(SignersOf(t0, name), todo[j]);
    OneMoreNamed(SignersOf(t0, name), j, id);
    Lookup(s.db.kv, id);
  }

  lemma SoloUnbind(s: Sys, name: string, t0: Tables, now: Stamp)
    requires Consistent(t0) && Solo(s, name, t0) && s.proc.Unbinding?
    ensures Solo(Advance(s, name, now), name, t0)
  {
    hide KeyOf, IdOf, WellFiled, TablesOf, Pending, Snapshot, ListedAt, InKeyOrder, Named, Marked;
    StepKeeps(s, name, now);
    var sub, todo, j := s.proc.sub, s.proc.walk.keys, s.proc.j;
    var id := RowInOrder(SignersOf(t0, name), todo[j]);
    OneMoreNamed(SignersOf(t0, name), j, id);
    Lookup(s.db.kv, id);
    var at: Stamp :| sub.writes == map[todo[j] := Some(s.db.kv[todo[j]].SetDeleted(at))];
    NoConflict(s.db, sub);
    CommitOne(s.db, todo[j], Some(s.db.kv[todo[j]].SetDeleted(at)));
    SignerRowPut(s.db.kv, id, at);
    assert id in t0;
    SignerUnmarked(t0, TablesOf(s.db.kv), Named(SignersOf(t0, name), todo, j), id);
    MarkOne(t0, TablesOf(s.db.kv), Named(SignersOf(t0, name), todo, j), id, at);
    StaysQuiet(s.db, s.proc.txn, t0, name, id, sub.writes);
  }

  lemma SignerUnmarked(t0: Tables, t: Tables, ids: set<Id>, id: Id)
    requires Marked(t0, t, ids) && id in t0 && id !in ids
    ensures id in t
  {
  }

  lemma SignerRowPut(kv: KV, id: Id, at: Stamp)
    requires WellFiled(kv) && id in TablesOf(kv)
    ensures KeyOf(id) in kv && WellFiled(kv[KeyOf(id) := kv[KeyOf(id)].SetDeleted(at)])
    ensures TablesOf(kv[KeyOf(id) := kv[KeyOf(id)].SetDeleted(at)]) ==
            TablesOf(kv)[id := TablesOf(kv)[id].SetDeleted(at)]
  {
    Lookup(kv, id);
    PutCommutes(kv, id, kv[KeyOf(id)].SetDeleted(at));
  }

  lemma StaysQuiet(db: Db, txn: Txn, t0: Tables, name: string, id: Id, writes: Writes)
    requires Consistent(t0) && db.Valid() && Quiet(db, txn, t0, name) && id.SignerId? && writes.Keys == {KeyOf(id)}
    ensures Quiet(db.Commit(writes), txn, t0, name)
  {
    hide KeyOf, IdOf;
    KeysNameRows();
    CommitMany(db, writes);
    forall k | k in txn.readSet ensures db.Commit(writes).LastWrite(k) <= txn.readTs {
      var row := RowKeyed({UserId(name)} + MinersOf(t0, name), k);
    }
  }

  lemma SoloBegin(s: Sys, name: string, t0: Tables, now: Stamp)
    requires Consistent(t0) && Solo(s, name, t0) && s.proc.Started?
    ensures Solo(Advance(s, name, now), name, t0)
  {
    hide KeyOf, IdOf, WellFiled, TablesOf, Pending, Snapshot, KeysOf, MinersOf, SignersOf, InKeyOrder;
    StepKeeps(s, name, now);
  }

  // The walk is over: every binding is tombstoned, and the outer transaction cannot conflict.
  lemma SoloCommit(s: Sys, name: string, t0: Tables, now: Stamp)
    requires Consistent(t0) && Solo(s, name, t0) && s.proc.Scanning? && s.proc.j >= |s.proc.walk.keys|
    ensures Solo(Advance(s, name, now), name, t0) && Advance(s, name, now).proc.Committed?
  {
    hide KeyOf, IdOf, WellFiled, TablesOf, Pending, Snapshot, ListedAt, KeysOf, InKeyOrder, Named;
    StepKeeps(s, name, now);
    AllNamed(SignersOf(t0, name));
    assert Committing(s);
    var t, t' := TablesOf(s.db.kv), TablesOf(Advance(s, name, now).db.kv);
    forall id ensures CommittedRow(t0, t', name, id) {
      RowAfterCommit(s, name, now, id);
      InKeyOrderIs(MinersOf(t0, name));
      FinalRow(t0, t, t', name, id);
    }
    CascadeMarked(t0, t', name);
  }

  ghost predicate CommittedRow(t0: Tables, t': Tables, name: string, id: Id)
    requires Consistent(t0)
  {
    && (id in t' <==> id in t0)
    && (id in t0 && id !in Cascade(t0, name) ==> t'[id] == t0[id])
    && (id in Cascade(t0, name) ==> exists now: Stamp :: t'[id] == t0[id].SetDeleted(now))
  }

  lemma FinalRow(t0: Tables, t: Tables, t': Tables, name: string, id: Id)
    requires Consistent(t0) && Consistent(t) && Marked(t0, t, SignersOf(t0, name)) && Live(t0, UserId(name))
    requires id in t' <==> id in t
    requires var own := {UserId(name)} + MinersOf(t0, name);
      && (id in t && id !in own && !Cascades(t, id, name) ==> t'[id] == t[id])
      && (id in t && id !in own ==> t'[id] == t[id])
      && (id in own ==> exists at: Stamp :: id in t && t'[id] == t[id].SetDeleted(at))
    ensures CommittedRow(t0, t', name, id)
  {
    CascadeParts(t0, name);
  }

  lemma CascadeMarked(t0: Tables, t': Tables, name: string)
    requires Consistent(t0) && forall id :: CommittedRow(t0, t', name, id)
    ensures Marked(t0, t', Cascade(t0, name))
  {
    assert forall id :: id in t' <==> id in t0 by {
      forall id ensures id in t' <==> id in t0 { assert CommittedRow(t0, t', name, id); }
    }
    assert t'.Keys == t0.Keys;
    forall id | id in t0 && id !in Cascade(t0, name) ensures t'[id] == t0[id] { assert CommittedRow(t0, t', name, id); }
    forall id | id in Cascade(t0, name) ensures exists now: Stamp :: t'[id] == t0[id].SetDeleted(now) {
      assert CommittedRow(t0, t', name, id);
    }
  }

  lemma SoloStep(s: Sys, name: string, t0: Tables, now: Stamp)
    requires Consistent(t0) && Solo(s, name, t0)
    ensures Solo(Advance(s, name, now), name, t0)
  {
    match s.proc
    case Started(_) => SoloBegin(s, name, t0, now);
    case Marking(_, _, _) => SoloMark(s, name, t0, now);
    case Scanning(_, _, walk, j) =>
      if j < |walk.keys| { SoloScan(s, name, t0, now); } else { SoloCommit(s, name, t0, now); }
    case Unbinding(_, _, _, _, _) => SoloUnbind(s, name, t0, now);
    case Committed(_) =>
  }

  // DeleteUser alone, for as many steps as there are clock readings.
  ghost function SoloRun(s: Sys, name: string, t0: Tables, nows: seq<Stamp>): (s': Sys)
    requires Consistent(t0) && Solo(s, name, t0)
    ensures Solo(s', name, t0)
    decreases |nows|
  {
    if nows == [] then s
    else
      SoloStep(s, name, t0, nows[0]);
      SoloRun(Advance(s, name, nows[0]), name, t0, nows[1..])
  }

  // DeleteUser of a live user, stopped after |nows| steps.
  ghost function StopAfter(db: Db, name: string, start: Stamp, nows: seq<Stamp>): (s: Sys)
    requires db.Valid() && WellFiled(db.kv) && Live(TablesOf(db.kv), UserId(name))
    ensures Solo(s, name, TablesOf(db.kv))
  {
    SoloStart(db, name, start);
    SoloRun(Start(db, name, start), name, TablesOf(db.kv), nows)
  }

  // Steps still to be taken.
  function Remaining(s: Sys, miners: nat, signers: nat): int
  {
    match s.proc
    case Started(_) => 3 + miners + 2 * signers
    case Marking(_, list, i) => 2 + (|list.keys| - i) + 2 * signers
    case Scanning(_, _, walk, j) => 1 + 2 * (|walk.keys| - j)
    case Unbinding(_, _, walk, j, _) => 2 * (|walk.keys| - j)
    case _ => 0
  }

  lemma StepCounts(s: Sys, name: string, t0: Tables, now: Stamp)
    requires Consistent(t0) && Solo(s, name, t0) && !s.proc.Committed?
    ensures Solo(Advance(s, name, now), name, t0)
    ensures var m, n := |InKeyOrder(MinersOf(t0, name))|, |InKeyOrder(SignersOf(t0, name))|;
      Remaining(Advance(s, name, now), m, n) == Remaining(s, m, n) - 1
  {
    hide KeyOf, IdOf, WellFiled, TablesOf, MinersOf, SignersOf, InKeyOrder, Quiet, Marked, Snapshot, Pending, ListedAt;
    SoloStep(s, name, t0, now);
    match s.proc
    case Scanning(_, _, walk, j) =>
      if j < |walk.keys| { SoloScan(s, name, t0, now); } else { SoloCommit(s, name, t0, now); }
    case _ =>
  }

  lemma {:induction false} SoloRunCounts(s: Sys, name: string, t0: Tables, nows: seq<Stamp>)
    requires Consistent(t0) && Solo(s, name, t0)
    ensures var m, n := |InKeyOrder(MinersOf(t0, name))|, |InKeyOrder(SignersOf(t0, name))|;
      SoloRun(s, name, t0, nows).proc.Committed? <==> |nows| >= Remaining(s, m, n)
    decreases |nows|
  {
    hide KeyOf, IdOf, WellFiled, TablesOf, MinersOf, SignersOf, InKeyOrder, Quiet, Marked;
    if nows != [] {
      SoloStep(s, name, t0, nows[0]);
      if !s.proc.Committed? { StepCounts(s, name, t0, nows[0]); }
      SoloRunCounts(Advance(s, name, nows[0]), name, t0, nows[1..]);
    }
  }

  // Left alone, DeleteUser commits, after a number of steps fixed by the user's bindings.
  lemma CommitsInTheEnd(db: Db, name: string, start: Stamp, nows: seq<Stamp>)
    requires db.Valid() && WellFiled(db.kv) && Live(TablesOf(db.kv), UserId(name))
    ensures var t0 := TablesOf(db.kv);
      StopAfter(db, name, start, nows).proc.Committed? <==>
        |nows| >= 3 + |MinersOf(t0, name)| + 2 * |SignersOf(t0, name)|
  {
    hide KeyOf, IdOf, WellFiled, TablesOf, MinersOf, SignersOf, InKeyOrder, Inv;
    SoloStart(db, name, start);
    InKeyOrderLength(MinersOf(TablesOf(db.kv), name));
    InKeyOrderLength(SignersOf(TablesOf(db.kv), name));
    SoloRunCounts(Start(db, name, start), name, TablesOf(db.kv), nows);
  }

  // A set of marked rows is a tombstoning by some clock.
  lemma MarkedIsTombstone(t0: Tables, t: Tables, ids: set<Id>) returns (clock: Clock)
    requires Consistent(t0) && Marked(t0, t, ids)
    ensures t == Tombstone(t0, ids, clock)
  {
    clock := id => if id in t then TimeOf(t[id]) else 1;
    forall id | id in ids ensures t[id] == t0[id].SetDeleted(clock(id)) {
      var now: Stamp :| t[id] == t0[id].SetDeleted(now);
      TimeOfTombstone(t0[id], now);
    }
  }

  // The time of a tombstone.
  function TimeOf(r: Record): Stamp
  {
    match r
    case MinerRec(m) => if m.deletedAt.time > 0 then m.deletedAt.time else 1
    case SignerRec(s) => if s.deletedAt.time > 0 then s.deletedAt.time else 1
    case _ => 1
  }

  lemma TimeOfTombstone(r: Record, now: Stamp)
    ensures r.SetDeleted(now) == r.SetDeleted(TimeOf(r.SetDeleted(now)))
  {
  }

  // However far DeleteUser got when it stopped: before its commit, the store differs from the start
  // only by tombstones on bindings of that user; from its commit on, the whole cascade is done. Run
  // again from the point where it stopped, DeleteUser ends where an uninterrupted run would have,
  // up to the time stamps.
  lemma StoppedAnywhere(db: Db, name: string, start: Stamp, nows: seq<Stamp>, again: Clock, whole: Clock)
    requires db.Valid() && WellFiled(db.kv) && Live(TablesOf(db.kv), UserId(name))
    ensures var t0 := TablesOf(db.kv);
      var s := StopAfter(db, name, start, nows);
      var t := TablesOf(s.db.kv);
      && !s.proc.Failed?
      && (s.proc.Committed? ==> StoreTheorems.Erase(t) == StoreTheorems.Erase(DeleteUser(t0, name, whole).0))
      && (!s.proc.Committed? ==>
           && (exists done :: done <= SignersOf(t0, name) && Marked(t0, t, done))
           && DeleteUser(t, name, again).1.Ok?
           && StoreTheorems.Erase(DeleteUser(t, name, again).0) == StoreTheorems.Erase(DeleteUser(t0, name, whole).0))
  {
    hide KeyOf, IdOf, WellFiled, TablesOf, StopAfter, StoreTheorems.Erase, Quiet;
    var t0 := TablesOf(db.kv);
    var s := StopAfter(db, name, start, nows);
    var t := TablesOf(s.db.kv);
    if s.proc.Committed? {
      var clock := MarkedIsTombstone(t0, t, Cascade(t0, name));
      StoreTheorems.SameUpToTime(t0, name, clock, whole);
    } else {
      var done := DoneSoFar(s, name, t0);
      var clock := MarkedIsTombstone(t0, t, done);
      StoreTheorems.InterruptedThenRepeated(t0, name, done, clock, again, whole);
    }
  }

  lemma DoneSoFar(s: Sys, name: string, t0: Tables) returns (done: set<Id>)
    requires Consistent(t0) && Solo(s, name, t0) && !s.proc.Committed?
    ensures done <= SignersOf(t0, name) && Marked(t0, TablesOf(s.db.kv), done)
  {
    hide KeyOf, IdOf, WellFiled, TablesOf, Inv, Quiet, InKeyOrder;
    done := {};
    if s.proc.Scanning? || s.proc.Unbinding? {
      done := Named(SignersOf(t0, name), s.proc.walk.keys, s.proc.j);
    }
  }
}

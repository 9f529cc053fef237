/** Bringing an old store to version 3 (storage/store_migration.go, MigrateToV1 to MigrateToV3).

Before version 1 a user record carried the text of its one miner. The functions below give the key
space after each migration; `parse` stands for address.NewFromString, with None for an error or the
empty address.
 */
module Migration {
  import opened ByteOrder
  import opened Records
  import opened Badger
  import opened Tables

  type Parse = string -> Option<Addr>

  // The migrations rely on no more than this: what lies under a table's prefix is of its type.
  predicate Typed(kv: KV)
  {
    forall k | k in kv ::
      && (PREFIX_USER <= k ==> kv[k].UserRec?)
      && (PREFIX_MINER <= k ==> kv[k].MinerRec?)
      && (k == STORE_VERSION_KEY ==> kv[k].VersionRec?)
  }

  lemma ScannedTyped(kv: KV, prefix: Key)
    requires Typed(kv)
    ensures forall k | k in Scan(kv.Keys, prefix) :: k in kv && prefix <= k
    ensures prefix == PREFIX_USER ==> forall k | k in Scan(kv.Keys, prefix) :: k in kv && kv[k].UserRec?
    ensures prefix == PREFIX_MINER ==> forall k | k in Scan(kv.Keys, prefix) :: k in kv && kv[k].MinerRec?
  {
  }

  // A store without a version record is at version 0.
  function Version(kv: KV): nat
  {
    if STORE_VERSION_KEY in kv && kv[STORE_VERSION_KEY].VersionRec? then kv[STORE_VERSION_KEY].version else 0
  }

  // ---------- version 1: one miner row per legacy claim ----------

  // The user record under `u` claims the miner filed under `k`.
  predicate Claims(kv: KV, u: Key, parse: Parse, k: Key)
  {
    u in kv && kv[u].UserRec? && parse(kv[u].legacyMiner).Some? && k == MinerKey(kv[u].legacyMiner)
  }

  function Claimed(r: Record, parse: Parse, now: Stamp): Record
    requires r.UserRec? && parse(r.legacyMiner).Some?
  {
    MinerRec(Miner(parse(r.legacyMiner).value, r.user.name, None, now, now, DeletedAt(false, 0)))
  }

  // What MigrateToV1 keeps of the user record under `u`.
  predicate LegacyUser(kv: KV, u: Key, user: (string, string))
  {
    u in kv && kv[u].UserRec? && user == (kv[u].legacyMiner, kv[u].user.name)
  }

  // The pending writes after the first `n` users.
  function V1Writes(kv: KV, users: seq<Key>, n: nat, parse: Parse, now: Stamp): Writes
    requires n <= |users|
  {
    if n == 0 then map[]
    else
      var before := V1Writes(kv, users, n - 1, parse, now);
      var u := users[n - 1];
      if u in kv && kv[u].UserRec? && parse(kv[u].legacyMiner).Some?
      then before[MinerKey(kv[u].legacyMiner) := Some(Claimed(kv[u], parse, now))]
      else before
  }

  function V1(kv: KV, parse: Parse, now: Stamp): KV
  {
    var users := Scan(kv.Keys, PREFIX_USER);
    Apply(kv, V1Writes(kv, users, |users|, parse, now))[STORE_VERSION_KEY := VersionRec(1)]
  }

  // ---------- version 2: every miner opens mining ----------

  function OpenMining(m: Miner): Miner { m.(openMining := Some(true)) }

  function V2Writes(kv: KV, miners: seq<Key>, n: nat): Writes
    requires n <= |miners|
  {
    if n == 0 then map[]
    else
      var before := V2Writes(kv, miners, n - 1);
      var k := miners[n - 1];
      if k in kv && kv[k].MinerRec? then before[MinerKey(kv[k].miner.miner) := Some(MinerRec(OpenMining(kv[k].miner)))]
      else before
  }

  function V2(kv: KV): KV
  {
    var miners := Scan(kv.Keys, PREFIX_MINER);
    Apply(kv, V2Writes(kv, miners, |miners|))[STORE_VERSION_KEY := VersionRec(2)]
  }

  function V3(kv: KV): KV { kv[STORE_VERSION_KEY := VersionRec(3)] }

  // What the loop of StoreMigrate ends with.
  function Migrated(kv: KV, parse: Parse, now: Stamp): KV
  {
    match Version(kv)
    case 0 => V3(V2(V1(kv, parse, now)))
    case 1 => V3(V2(kv))
    case 2 => V3(kv)
    case _ => kv
  }

  // ---------- the last claim wins ----------

  lemma {:induction false} LastClaim(kv: KV, users: seq<Key>, n: nat, parse: Parse, now: Stamp, k: Key)
    requires n <= |users|
    ensures var writes := V1Writes(kv, users, n, parse, now);
      && (k !in writes ==> forall j | 0 <= j < n :: !Claims(kv, users[j], parse, k))
      && (k in writes ==>
           exists j :: LastAt(kv, users, n, parse, now, k, j) && writes[k] == Some(Claimed(kv[users[j]], parse, now)))
  {
    if n > 0 {
      LastClaim(kv, users, n - 1, parse, now, k);
      var writes := V1Writes(kv, users, n, parse, now);
      if Claims(kv, users[n - 1], parse, k) {
        assert LastAt(kv, users, n, parse, now, k, n - 1);
      } else if k in writes {
        var j :| LastAt(kv, users, n - 1, parse, now, k, j) && writes[k] == Some(Claimed(kv[users[j]], parse, now));
        assert LastAt(kv, users, n, parse, now, k, j);
      }
    }
  }

  predicate LastAt(kv: KV, users: seq<Key>, n: nat, parse: Parse, now: Stamp, k: Key, j: int)
    requires n <= |users|
  {
    && 0 <= j < n && Claims(kv, users[j], parse, k)
    && forall i | j < i < n :: !Claims(kv, users[i], parse, k)
  }

  // The user named `n` is the last, in key order, to claim address `a`.
  ghost predicate LastClaimant(t: Tables, parse: Parse, a: Addr, n: string)
    requires Consistent(t)
  {
    && UserId(n) in t && parse(t[UserId(n)].legacyMiner) == Some(a)
    && forall m | m != n && UserId(m) in t && parse(t[UserId(m)].legacyMiner) == Some(a) ::
         Less(KeyOf(UserId(m)), KeyOf(UserId(n)))
  }

  ghost predicate Unclaimed(t: Tables, parse: Parse, a: Addr)
    requires Consistent(t)
  {
    forall n :: !LastClaimant(t, parse, a, n)
  }

  // The row of miner `a` as its last claimant's.
  ghost predicate GoesToLastClaimant(t: Tables, t': Tables, parse: Parse, a: Addr, open: Option<bool>, now: Stamp)
    requires Consistent(t)
  {
    exists n ::
      && LastClaimant(t, parse, a, n)
      && Holds(t', MinerId(a), MinerRec(Miner(a, n, open, now, now, DeletedAt(false, 0))))
  }

  // Every legacy miner text that parses is already canonical.
  ghost predicate Canonical(kv: KV, parse: Parse)
  {
    forall k | k in kv && kv[k].UserRec? && parse(kv[k].legacyMiner).Some? ::
      parse(kv[k].legacyMiner).value == kv[k].legacyMiner
  }

  // `u` is the claimant of `k` whose key comes last.
  ghost predicate LastClaimOf(kv: KV, u: Key, parse: Parse, k: Key)
  {
    Claims(kv, u, parse, k) && forall u' | u' != u && Claims(kv, u', parse, k) :: Less(u', u)
  }

  lemma ClaimantVisited(kv: KV, parse: Parse, k: Key, u: Key) returns (i: nat)
    requires WellFiled(kv) && Claims(kv, u, parse, k)
    ensures i < |Scan(kv.Keys, PREFIX_USER)| && Scan(kv.Keys, PREFIX_USER)[i] == u
  {
    ScanFamily(IdOf(u).value);
    var users := Scan(kv.Keys, PREFIX_USER);
    assert u in users;
    i :| 0 <= i < |users| && users[i] == u;
  }

  // What version 1 leaves under a key other than the version's.
  lemma V1At(kv: KV, parse: Parse, now: Stamp, k: Key)
    requires WellFiled(kv) && k != STORE_VERSION_KEY
    ensures var kv' := V1(kv, parse, now);
      || ((forall u :: !Claims(kv, u, parse, k)) && (k in kv' <==> k in kv) && (k in kv ==> kv'[k] == kv[k]))
      || (k in kv' && exists u :: LastClaimOf(kv, u, parse, k) && kv'[k] == Claimed(kv[u], parse, now))
  {
    var users := Scan(kv.Keys, PREFIX_USER);
    var n := |users|;
    LastClaim(kv, users, n, parse, now, k);
    var writes := V1Writes(kv, users, n, parse, now);
    hide Scan, V1Writes, Claims, Claimed, WellFiled;
    if k in writes {
      var j :| LastAt(kv, users, n, parse, now, k, j) && writes[k] == Some(Claimed(kv[users[j]], parse, now));
      forall u' | u' != users[j] && Claims(kv, u', parse, k) ensures Less(u', users[j]) {
        var i := ClaimantVisited(kv, parse, k, u');
        if i < j { UsersAscending(kv, i, j); }
      }
      assert LastClaimOf(kv, users[j], parse, k);
    } else {
      forall u ensures !Claims(kv, u, parse, k) {
        if Claims(kv, u, parse, k) { var i := ClaimantVisited(kv, parse, k, u); }
      }
    }
  }

  lemma UsersAscending(kv: KV, i: nat, j: nat)
    requires i < j < |Scan(kv.Keys, PREFIX_USER)|
    ensures Less(Scan(kv.Keys, PREFIX_USER)[i], Scan(kv.Keys, PREFIX_USER)[j])
  {
  }

  ghost predicate FiledAt(kv: KV, k: Key)
    requires k in kv
  {
    IdOf(k).Some? && k == KeyOf(IdOf(k).value) && kv[k].Filed(IdOf(k).value)
  }

  lemma ClaimFiled(kv: KV, parse: Parse, now: Stamp, u: Key, k: Key)
    requires Canonical(kv, parse) && Claims(kv, u, parse, k)
    ensures IdOf(k).Some? && k == KeyOf(IdOf(k).value) && Claimed(kv[u], parse, now).Filed(IdOf(k).value)
  {
    KeyNamesRow(MinerId(kv[u].legacyMiner));
  }

  lemma CanonicalIsFiled(kv: KV, parse: Parse, now: Stamp)
    requires WellFiled(kv) && Canonical(kv, parse)
    ensures WellFiled(V1(kv, parse, now))
  {
    var kv' := V1(kv, parse, now);
    KeyNamesRow(VersionId);
    hide KeyOf, IdOf, V1, Canonical, Claimed;
    forall k | k in kv' && k != STORE_VERSION_KEY ensures FiledAt(kv', k) {
      V1At(kv, parse, now, k);
      if u :| LastClaimOf(kv, u, parse, k) && kv'[k] == Claimed(kv[u], parse, now) {
        ClaimFiled(kv, parse, now, u, k);
      }
    }
    V1SetsVersion(kv, parse, now);
  }

  lemma V1SetsVersion(kv: KV, parse: Parse, now: Stamp)
    ensures STORE_VERSION_KEY in V1(kv, parse, now) && V1(kv, parse, now)[STORE_VERSION_KEY] == VersionRec(1)
    ensures FiledAt(V1(kv, parse, now), STORE_VERSION_KEY)
  {
    KeyNamesRow(VersionId);
  }

  // Version 1 files every miner under its own key exactly when the legacy texts are canonical.
  lemma V1WellFiled(kv: KV, parse: Parse, now: Stamp)
    requires WellFiled(kv)
    ensures WellFiled(V1(kv, parse, now)) <==> Canonical(kv, parse)
  {
    if Canonical(kv, parse) {
      CanonicalIsFiled(kv, parse, now);
    } else {
      var u :| u in kv && kv[u].UserRec? && parse(kv[u].legacyMiner).Some?
        && parse(kv[u].legacyMiner).value != kv[u].legacyMiner;
      V1Misfiles(kv, parse, now, u);
      Misfiled(V1(kv, parse, now), kv[u].legacyMiner, parse(kv[u].legacyMiner).value);
    }
  }

  // A text that is not canonical gets a miner row filed under it, for the address it parses to.
  lemma V1Misfiles(kv: KV, parse: Parse, now: Stamp, u: Key)
    requires WellFiled(kv) && u in kv && kv[u].UserRec? && parse(kv[u].legacyMiner).Some?
    ensures var s, kv' := kv[u].legacyMiner, V1(kv, parse, now);
      && MinerKey(s) in kv' && kv'[MinerKey(s)].MinerRec? && kv'[MinerKey(s)].miner.miner == parse(s).value
      && kv'[MinerKey(s)].miner.openMining == None
  {
    var s := kv[u].legacyMiner;
    assert Claims(kv, u, parse, MinerKey(s));
    assert MinerKey(s)[0] == 'M' && STORE_VERSION_KEY[0] == 'S';
    V1At(kv, parse, now, MinerKey(s));
    assert forall u' | Claims(kv, u', parse, MinerKey(s)) :: kv[u'].legacyMiner == MinerKey(s)[7..] == s;
  }

  lemma Misfiled(kv: KV, s: string, a: Addr)
    requires a != s && MinerKey(s) in kv && kv[MinerKey(s)].MinerRec? && kv[MinerKey(s)].miner.miner == a
    ensures !WellFiled(kv)
  {
    assert MinerKey(s)[7..] == s;
    ScanFamily(MinerId(a));
    if ':' !in s {
      KeyNamesRow(MinerId(s));
    }
  }

  // On mainnet a text with the letter of the test network parses to an address with the other letter.
  lemma NonCanonicalMisfiles(now: Stamp)
    ensures var kv: KV := map[KeyOf(UserId("ann")) := UserRec(User("", "ann", "", 1, 1, 1, NOT_DELETE), "t0100")];
      var parse: Parse := s => if s == "t0100" || s == "f0100" then Some("f0100") else None;
      && WellFiled(kv) && !WellFiled(V1(kv, parse, now))
  {
    KeyNamesRow(UserId("ann"));
    var k := KeyOf(UserId("ann"));
    var kv: KV := map[k := UserRec(User("", "ann", "", 1, 1, 1, NOT_DELETE), "t0100")];
    var parse: Parse := s => if s == "t0100" || s == "f0100" then Some("f0100") else None;
    assert "t0100"[0] != "f0100"[0];
    assert k in kv && !Canonical(kv, parse);
    V1WellFiled(kv, parse, now);
  }

  // ---------- the migrated tables ----------

  // Row by row, what version 1 makes of a store with canonical legacy texts.
  lemma V1Row(kv: KV, parse: Parse, now: Stamp, id: Id)
    requires WellFiled(kv) && Canonical(kv, parse) && id != VersionId
    ensures WellFiled(V1(kv, parse, now))
    ensures var t, t' := TablesOf(kv), TablesOf(V1(kv, parse, now));
      || ((id.MinerId? ==> Unclaimed(t, parse, id.miner)) && (id in t' <==> id in t) && (id in t ==> t'[id] == t[id]))
      || (id.MinerId? && GoesToLastClaimant(t, t', parse, id.miner, None, now))
  {
    V1WellFiled(kv, parse, now);
    var kv' := V1(kv, parse, now);
    var k := KeyOf(id);
    KeyNamesRow(id);
    KeyNamesRow(VersionId);
    V1At(kv, parse, now, k);
    Lookup(kv, id);
    Lookup(kv', id);
    if u :| LastClaimOf(kv, u, parse, k) && kv'[k] == Claimed(kv[u], parse, now) {
      KeyNamesRow(MinerId(kv[u].legacyMiner));
      LastOfClaims(kv, parse, id, u);
    } else if id.MinerId? {
      forall n ensures !LastClaimant(TablesOf(kv), parse, id.miner, n) {
        Lookup(kv, UserId(n));
        assert !Claims(kv, KeyOf(UserId(n)), parse, k);
      }
    }
  }

  lemma LastOfClaims(kv: KV, parse: Parse, id: Id, u: Key)
    requires WellFiled(kv) && Canonical(kv, parse)
    requires id.MinerId? && Claims(kv, u, parse, KeyOf(id)) && kv[u].legacyMiner == id.miner
    requires forall u' | u' != u && Claims(kv, u', parse, KeyOf(id)) :: Less(u', u)
    ensures LastClaimant(TablesOf(kv), parse, id.miner, kv[u].user.name)
  {
    var t := TablesOf(kv);
    var n := kv[u].user.name;
    Lookup(kv, UserId(n));
    assert IdOf(u) == Some(UserId(n));
    forall m | m != n && UserId(m) in t && parse(t[UserId(m)].legacyMiner) == Some(id.miner)
      ensures Less(KeyOf(UserId(m)), KeyOf(UserId(n)))
    {
      Lookup(kv, UserId(m));
      KeyNamesRow(UserId(m));
      KeyNamesRow(UserId(n));
      assert Claims(kv, KeyOf(UserId(m)), parse, KeyOf(id));
    }
  }

  function OpenAll(t: Tables): Tables
  {
    map id | id in t :: OpenRow(t[id])
  }

  lemma MinerUnderOwnKey(kv: KV, k: Key)
    requires WellFiled(kv) && k in Scan(kv.Keys, PREFIX_MINER)
    ensures k in kv && kv[k].MinerRec? && k == MinerKey(kv[k].miner.miner)
  {
    var row := Visit(kv, PREFIX_MINER, k);
  }

  lemma {:induction false} V2WritesOwnKeys(kv: KV, miners: seq<Key>, n: nat)
    requires n <= |miners|
    requires forall k | k in miners :: k in kv && kv[k].MinerRec? && k == MinerKey(kv[k].miner.miner)
    ensures var writes := V2Writes(kv, miners, n);
      && (forall k :: k in writes <==> k in miners[..n])
      && (forall k | k in miners[..n] :: writes[k] == Some(MinerRec(OpenMining(kv[k].miner))))
  {
    hide MinerKey, OpenMining;
    if n > 0 {
      V2WritesOwnKeys(kv, miners, n - 1);
      assert miners[..n] == miners[..n - 1] + [miners[n - 1]];
      assert miners[n - 1] in miners;
    }
  }

  function OpenRow(r: Record): Record { if r.MinerRec? then MinerRec(OpenMining(r.miner)) else r }

  function OpenRows(kv: KV): KV { map k | k in kv :: OpenRow(kv[k]) }

  lemma MinersVisited(kv: KV, k: Key)
    requires WellFiled(kv)
    ensures k in Scan(kv.Keys, PREFIX_MINER) <==> k in kv && kv[k].MinerRec?
  {
    if k in Scan(kv.Keys, PREFIX_MINER) { MinerUnderOwnKey(kv, k); }
    if k in kv { ScanFamily(IdOf(k).value); }
  }

  lemma V2Applied(kv: KV, miners: seq<Key>)
    requires forall k :: k in miners <==> k in kv && kv[k].MinerRec?
    requires forall k | k in miners :: k == MinerKey(kv[k].miner.miner)
    ensures Apply(kv, V2Writes(kv, miners, |miners|)) == OpenRows(kv)
  {
    hide MinerKey, OpenMining;
    V2WritesOwnKeys(kv, miners, |miners|);
    assert miners[..|miners|] == miners;
    var kv2 := Apply(kv, V2Writes(kv, miners, |miners|));
    assert kv2.Keys == kv.Keys;
    forall k | k in kv ensures kv2[k] == OpenRow(kv[k]) {}
  }

  lemma OpenRowFiled(r: Record, id: Id)
    ensures OpenRow(r).Filed(id) <==> r.Filed(id)
  {
  }

  lemma V2Tables(kv: KV)
    requires WellFiled(kv)
    ensures WellFiled(V2(kv))
    ensures TablesOf(V2(kv)) == OpenAll(TablesOf(kv))[VersionId := VersionRec(2)]
  {
    var miners := Scan(kv.Keys, PREFIX_MINER);
    hide Scan, KeyOf, IdOf, OpenRow;
    forall k ensures k in miners <==> k in kv && kv[k].MinerRec? { MinersVisited(kv, k); }
    forall k | k in miners ensures k == MinerKey(kv[k].miner.miner) { MinerUnderOwnKey(kv, k); }
    V2Applied(kv, miners);
    forall id, r: Record ensures OpenRow(r).Filed(id) <==> r.Filed(id) { OpenRowFiled(r, id); }
    assert WellFiled(OpenRows(kv));
    assert TablesOf(OpenRows(kv)) == OpenAll(TablesOf(kv));
    VersionSet(OpenRows(kv), 2);
  }

  lemma VersionSet(kv: KV, v: nat)
    requires WellFiled(kv)
    ensures WellFiled(kv[STORE_VERSION_KEY := VersionRec(v)])
    ensures TablesOf(kv[STORE_VERSION_KEY := VersionRec(v)]) == TablesOf(kv)[VersionId := VersionRec(v)]
  {
    PutCommutes(kv, VersionId, VersionRec(v));
  }

  lemma V3Tables(kv: KV)
    requires WellFiled(kv)
    ensures WellFiled(V3(kv)) && TablesOf(V3(kv)) == TablesOf(kv)[VersionId := VersionRec(3)]
  {
    VersionSet(kv, 3);
  }

  // From version 0: every canonical claim is honoured, the last claimant in key order owns the
  // miner, every miner opens mining, and every other row is untouched.
  lemma MigratedFromZero(kv: KV, parse: Parse, now: Stamp, id: Id)
    requires WellFiled(kv) && Canonical(kv, parse) && Version(kv) == 0
    ensures WellFiled(Migrated(kv, parse, now))
    ensures var t, t' := TablesOf(kv), TablesOf(Migrated(kv, parse, now));
      && Holds(t', VersionId, VersionRec(3))
      && (!id.MinerId? && id != VersionId ==> (id in t' <==> id in t) && (id in t ==> t'[id] == t[id]))
      && (id.MinerId? && Unclaimed(t, parse, id.miner) ==>
           (id in t' <==> id in t) && (id in t ==> t'[id] == MinerRec(t[id].miner.(openMining := Some(true)))))
      && (id.MinerId? && !Unclaimed(t, parse, id.miner) ==>
           GoesToLastClaimant(t, t', parse, id.miner, Some(true), now) && Live(t', id))
  {
    hide KeyOf, IdOf, TablesOf, V1, V2, WellFiled, Canonical;
    var kv1 := V1(kv, parse, now);
    V1WellFiled(kv, parse, now);
    V2Tables(kv1);
    V3Tables(V2(kv1));
    if id != VersionId {
      V1Row(kv, parse, now, id);
      if id.MinerId? && !Unclaimed(TablesOf(kv), parse, id.miner) {
        var n :| LastClaimant(TablesOf(kv), parse, id.miner, n)
          && Holds(TablesOf(kv1), id, MinerRec(Miner(id.miner, n, None, now, now, DeletedAt(false, 0))));
        assert Holds(TablesOf(Migrated(kv, parse, now)), id,
          MinerRec(Miner(id.miner, n, Some(true), now, now, DeletedAt(false, 0))));
      }
    }
  }

  // From version 1: every miner opens mining and is otherwise the same, and so is every other row.
  lemma MigratedFromOne(kv: KV, parse: Parse, now: Stamp, id: Id)
    requires WellFiled(kv) && Version(kv) == 1
    ensures WellFiled(Migrated(kv, parse, now))
    ensures var t, t' := TablesOf(kv), TablesOf(Migrated(kv, parse, now));
      && Holds(t', VersionId, VersionRec(3))
      && (id != VersionId ==> (id in t' <==> id in t))
      && (id in t && !id.MinerId? && id != VersionId ==> t'[id] == t[id])
      && (id in t && id.MinerId? ==> t'[id] == MinerRec(t[id].miner.(openMining := Some(true))))
  {
    hide KeyOf, IdOf, TablesOf, V2, V3, WellFiled;
    V2Tables(kv);
    V3Tables(V2(kv));
  }

  // From version 2 and above nothing changes, but for the version, which is 3 afterwards if it was 2.
  lemma MigratedFromLater(kv: KV, parse: Parse, now: Stamp, id: Id)
    requires WellFiled(kv) && Version(kv) >= 2
    ensures WellFiled(Migrated(kv, parse, now))
    ensures var t, t' := TablesOf(kv), TablesOf(Migrated(kv, parse, now));
      && Holds(t', VersionId, VersionRec(if Version(kv) == 2 then 3 else Version(kv)))
      && (id != VersionId ==> (id in t' <==> id in t) && (id in t ==> t'[id] == t[id]))
  {
    VersionFound(kv);
    hide KeyOf, IdOf, TablesOf, V3, WellFiled, Version;
    if Version(kv) == 2 { V3Tables(kv); }
  }

  // A store without a version record is at version 0.
  lemma VersionFound(kv: KV)
    requires WellFiled(kv)
    ensures Version(kv) == if VersionId in TablesOf(kv) then TablesOf(kv)[VersionId].version else 0
    ensures Version(kv) > 0 ==> Holds(TablesOf(kv), VersionId, VersionRec(Version(kv)))
  {
    Lookup(kv, VersionId);
  }

  // From any version: every row but the miners' and the version's is untouched, and the owner of a
  // miner is the one it had or a recorded user.
  lemma MigratedRow(kv: KV, parse: Parse, now: Stamp, id: Id)
    requires WellFiled(kv) && (Version(kv) == 0 ==> Canonical(kv, parse))
    ensures WellFiled(Migrated(kv, parse, now))
    ensures var t, t' := TablesOf(kv), TablesOf(Migrated(kv, parse, now));
      && (!id.MinerId? && id != VersionId ==> (id in t' <==> id in t) && (id in t ==> t'[id] == t[id]))
      && (id.MinerId? && id in t' ==>
           var user := t'[id].miner.user;
           (id in t && t[id].miner.user == user) || UserId(user) in t)
  {
    hide KeyOf, IdOf, TablesOf, V1, V2, V3, WellFiled, Canonical;
    match Version(kv)
    case 0 =>
      MigratedFromZero(kv, parse, now, id);
    case 1 =>
      V2Tables(kv);
      V3Tables(V2(kv));
    case 2 =>
      V3Tables(kv);
    case _ =>
  }

  // Parsing the text of a parsed address gives the address back.
  ghost predicate Idempotent(parse: Parse)
  {
    forall s | parse(s).Some? :: parse(parse(s).value) == parse(s)
  }

  lemma {:induction false} V2WritesElsewhere(kv: KV, miners: seq<Key>, n: nat, s: string)
    requires n <= |miners| && forall k | k in kv && kv[k].MinerRec? :: kv[k].miner.miner != s
    ensures MinerKey(s) !in V2Writes(kv, miners, n)
  {
    if n > 0 {
      V2WritesElsewhere(kv, miners, n - 1, s);
      var k := miners[n - 1];
      if k in kv && kv[k].MinerRec? {
        assert MinerKey(kv[k].miner.miner)[7..] == kv[k].miner.miner && MinerKey(s)[7..] == s;
      }
    }
  }

  // The later migrations rewrite miners under their own keys and so leave a misfiled one in place.
  lemma StaysMisfiled(kv: KV, s: string, a: Addr)
    requires a != s && MinerKey(s) in kv && kv[MinerKey(s)].MinerRec? && kv[MinerKey(s)].miner.miner == a
    requires forall k | k in kv && kv[k].MinerRec? :: kv[k].miner.miner != s
    ensures !WellFiled(V3(V2(kv)))
  {
    var miners := Scan(kv.Keys, PREFIX_MINER);
    V2WritesElsewhere(kv, miners, |miners|, s);
    assert MinerKey(s)[0] == 'M' && STORE_VERSION_KEY[0] == 'S';
    Misfiled(V3(V2(kv)), s, a);
  }

  // No record of version 1 is for an address spelled like a text that parses to another.
  lemma V1AvoidsText(kv: KV, parse: Parse, now: Stamp, u: Key, k: Key)
    requires WellFiled(kv) && Idempotent(parse)
    requires u in kv && kv[u].UserRec? && parse(kv[u].legacyMiner).Some?
    requires parse(kv[u].legacyMiner).value != kv[u].legacyMiner
    requires var kv' := V1(kv, parse, now); k in kv' && kv'[k].MinerRec?
    ensures V1(kv, parse, now)[k].miner.miner != kv[u].legacyMiner
  {
    var kv', s := V1(kv, parse, now), kv[u].legacyMiner;
    hide V1, KeyOf, IdOf, WellFiled, Scan, MinerKey;
    V1SetsVersion(kv, parse, now);
    V1At(kv, parse, now, k);
    assert Claims(kv, u, parse, MinerKey(s));
    if u' :| LastClaimOf(kv, u', parse, k) && kv'[k] == Claimed(kv[u'], parse, now) {
      assert parse(kv[u'].legacyMiner).Some?;
    } else {
      MinersVisited(kv, k);
      MinerUnderOwnKey(kv, k);
    }
  }

  // A migrated store is well filed exactly when it did not start at version 0 with a text that is
  // not canonical.
  lemma MigratedWellFiled(kv: KV, parse: Parse, now: Stamp)
    requires WellFiled(kv) && Idempotent(parse)
    ensures WellFiled(Migrated(kv, parse, now)) <==> (Version(kv) == 0 ==> Canonical(kv, parse))
  {
    if Version(kv) == 0 ==> Canonical(kv, parse) {
      MigratedRow(kv, parse, now, VersionId);
    } else {
      var kv1 := V1(kv, parse, now);
      var u :| u in kv && kv[u].UserRec? && parse(kv[u].legacyMiner).Some?
        && parse(kv[u].legacyMiner).value != kv[u].legacyMiner;
      var s := kv[u].legacyMiner;
      V1Misfiles(kv, parse, now, u);
      hide V1, V2, V3, WellFiled, MinerKey;
      forall k | k in kv1 && kv1[k].MinerRec? ensures kv1[k].miner.miner != s {
        V1AvoidsText(kv, parse, now, u, k);
      }
      StaysMisfiled(kv1, s, parse(s).value);
    }
  }

  // Version 2 writes each miner it walks under the key of its address.
  lemma {:induction false} V2WritesUnderAddress(kv: KV, miners: seq<Key>, n: nat, k: Key)
    requires n <= |miners| && k in kv && kv[k].MinerRec? && k in miners[..n]
    ensures var writes, own := V2Writes(kv, miners, n), MinerKey(kv[k].miner.miner);
      && own in writes && writes[own].Some? && writes[own].value.MinerRec?
      && writes[own].value.miner.miner == kv[k].miner.miner
  {
    var last := miners[n - 1];
    assert miners[..n] == miners[..n - 1] + [last];
    assert forall a: Addr, b: Addr {:trigger MinerKey(a), MinerKey(b)} | MinerKey(a) == MinerKey(b) :: a == b by {
      forall a: Addr, b: Addr | MinerKey(a) == MinerKey(b) ensures a == b {
        assert MinerKey(a)[7..] == a && MinerKey(b)[7..] == b;
      }
    }
    hide MinerKey;
    if k in miners[..n - 1] { V2WritesUnderAddress(kv, miners, n - 1, k); }
  }

  // The later migrations leave a miner filed under a text as it is, and file a second record for it
  // under its address.
  lemma V2Doubles(kv: KV, s: string, a: Addr)
    requires a != s && MinerKey(s) in kv && kv[MinerKey(s)].MinerRec? && kv[MinerKey(s)].miner.miner == a
    requires forall k | k in kv && kv[k].MinerRec? :: kv[k].miner.miner != s
    ensures MinerKey(s) in V3(V2(kv)) && V3(V2(kv))[MinerKey(s)] == kv[MinerKey(s)]
    ensures !MinersOnce(V3(V2(kv)))
  {
    var miners, k := Scan(kv.Keys, PREFIX_MINER), MinerKey(s);
    V2WritesElsewhere(kv, miners, |miners|, s);
    assert k in miners && miners[..|miners|] == miners;
    V2WritesUnderAddress(kv, miners, |miners|, k);
    assert k[0] == 'M' && MinerKey(a)[0] == 'M' && STORE_VERSION_KEY[0] == 'S';
    assert k[7..] == s && MinerKey(a)[7..] == a;
    hide V2Writes, MinerKey, Scan;
    var kv3 := V3(V2(kv));
    assert k in kv3 && kv3[k] == kv[k];
    assert MinerKey(a) in kv3 && kv3[MinerKey(a)].MinerRec? && kv3[MinerKey(a)].miner.miner == a;
  }

  // Does every miner record say whether it opens mining, and say that it does?
  predicate AllOpen(kv: KV) { forall k | k in kv && kv[k].MinerRec? :: kv[k].miner.openMining == Some(true) }

  lemma OpenByRows(kv: KV)
    requires WellFiled(kv)
    requires forall id | id in TablesOf(kv) && id.MinerId? :: TablesOf(kv)[id].miner.openMining == Some(true)
    ensures AllOpen(kv)
  {
    hide KeyOf, IdOf, TablesOf;
    forall k | k in kv && kv[k].MinerRec? ensures kv[k].miner.openMining == Some(true) {
      Lookup(kv, IdOf(k).value);
    }
  }

  // So a migrated store records each miner once exactly when it did not start at version 0 with a
  // text that is not canonical.
  lemma MigratedMinersOnce(kv: KV, parse: Parse, now: Stamp)
    requires WellFiled(kv) && Idempotent(parse)
    ensures MinersOnce(Migrated(kv, parse, now)) <==> (Version(kv) == 0 ==> Canonical(kv, parse))
  {
    hide V1, V2, V3, MinerKey, KeyOf, IdOf;
    if Version(kv) == 0 ==> Canonical(kv, parse) {
      MigratedRow(kv, parse, now, VersionId);
      MinerFiledOnce(Migrated(kv, parse, now));
    } else {
      var kv1 := V1(kv, parse, now);
      var u :| u in kv && kv[u].UserRec? && parse(kv[u].legacyMiner).Some?
        && parse(kv[u].legacyMiner).value != kv[u].legacyMiner;
      V1Misfiles(kv, parse, now, u);
      hide WellFiled;
      forall k | k in kv1 && kv1[k].MinerRec? ensures kv1[k].miner.miner != kv[u].legacyMiner {
        V1AvoidsText(kv, parse, now, u, k);
      }
      V2Doubles(kv1, kv[u].legacyMiner, parse(kv[u].legacyMiner).value);
    }
  }

  // From version 0 or 1 every miner record opens mining afterwards, unless a text was not canonical: the
  // record under that text never learns.
  lemma MigratedOpensAll(kv: KV, parse: Parse, now: Stamp)
    requires WellFiled(kv) && Idempotent(parse) && Version(kv) <= 1
    ensures AllOpen(Migrated(kv, parse, now)) <==> (Version(kv) == 0 ==> Canonical(kv, parse))
  {
    hide V1, V2, V3, MinerKey, KeyOf, IdOf;
    if Version(kv) == 0 ==> Canonical(kv, parse) {
      MigratedRow(kv, parse, now, VersionId);
      var kv' := Migrated(kv, parse, now);
      hide WellFiled, TablesOf, Canonical, Migrated;
      forall id | id in TablesOf(kv') && id.MinerId? ensures TablesOf(kv')[id].miner.openMining == Some(true) {
        if Version(kv) == 0 { MigratedFromZero(kv, parse, now, id); } else { MigratedFromOne(kv, parse, now, id); }
      }
      OpenByRows(kv');
    } else {
      var kv1 := V1(kv, parse, now);
      var u :| u in kv && kv[u].UserRec? && parse(kv[u].legacyMiner).Some?
        && parse(kv[u].legacyMiner).value != kv[u].legacyMiner;
      V1Misfiles(kv, parse, now, u);
      hide WellFiled;
      forall k | k in kv1 && kv1[k].MinerRec? ensures kv1[k].miner.miner != kv[u].legacyMiner {
        V1AvoidsText(kv, parse, now, u, k);
      }
      V2Doubles(kv1, kv[u].legacyMiner, parse(kv[u].legacyMiner).value);
      assert !AllOpen(Migrated(kv, parse, now));
    }
  }

  // One last claimant at most, so the owner is determined.
  lemma LastClaimantUnique(t: Tables, parse: Parse, a: Addr, n: string, m: string)
    requires Consistent(t) && LastClaimant(t, parse, a, n) && LastClaimant(t, parse, a, m)
    ensures n == m
  {
    LessAsymmetric(KeyOf(UserId(n)), KeyOf(UserId(m)));
  }

  // ---------- versions only go up, and the loop ends ----------

  lemma ApplySet(kv: KV, writes: Writes, k: Key, r: Record)
    ensures Apply(kv, writes[k := Some(r)]) == Apply(kv, writes)[k := r]
  {
  }

  // Some user record, or the owner of some miner record, has this name.
  ghost predicate NamesOwner(kv: KV, user: string)
  {
    exists k :: k in kv &&
      ((kv[k].UserRec? && kv[k].user.name == user) || (kv[k].MinerRec? && kv[k].miner.user == user))
  }

  // Every pending write of the migrations is a miner under a miner key, with an owner found before.
  ghost predicate MinerWrites(kv: KV, writes: Writes)
  {
    forall k | k in writes ::
      PREFIX_MINER <= k && writes[k].Some? && writes[k].value.MinerRec? && NamesOwner(kv, writes[k].value.miner.user)
  }

  lemma {:induction false} V1WritesMiners(kv: KV, users: seq<Key>, n: nat, parse: Parse, now: Stamp)
    requires n <= |users|
    ensures MinerWrites(kv, V1Writes(kv, users, n, parse, now))
  {
    if n > 0 {
      V1WritesMiners(kv, users, n - 1, parse, now);
    }
  }

  lemma {:induction false} V2WritesMiners(kv: KV, miners: seq<Key>, n: nat)
    requires n <= |miners|
    ensures MinerWrites(kv, V2Writes(kv, miners, n))
  {
    if n > 0 {
      V2WritesMiners(kv, miners, n - 1);
    }
  }

  // `kv'` has every record of `kv` but for miners and the version, and its miners have owners of `kv`.
  ghost predicate Carries(kv: KV, kv': KV)
  {
    && kv.Keys <= kv'.Keys
    && (forall k | k != STORE_VERSION_KEY && !(PREFIX_MINER <= k) ::
         (k in kv' ==> k in kv) && (k in kv ==> kv'[k] == kv[k]))
    && (forall k | k in kv' && kv'[k].MinerRec? :: NamesOwner(kv, kv'[k].miner.user))
  }

  lemma CarriesOn(kv: KV, kv1: KV, kv2: KV)
    requires Typed(kv1) && Carries(kv, kv1) && Carries(kv1, kv2)
    ensures Carries(kv, kv2)
  {
    forall k | k in kv2 && kv2[k].MinerRec? ensures NamesOwner(kv, kv2[k].miner.user) {
      var user := kv2[k].miner.user;
      var k1 :| k1 in kv1 &&
        ((kv1[k1].UserRec? && kv1[k1].user.name == user) || (kv1[k1].MinerRec? && kv1[k1].miner.user == user));
      if kv1[k1].UserRec? { assert k1 in kv && kv[k1] == kv1[k1]; }
    }
  }

  // A migration's transaction on whatever store.
  lemma MigrationApplied(kv: KV, writes: Writes, v: nat)
    requires Typed(kv) && MinerWrites(kv, writes)
    ensures var kv' := Apply(kv, writes)[STORE_VERSION_KEY := VersionRec(v)];
      Typed(kv') && Version(kv') == v && Carries(kv, kv')
  {
    assert PREFIX_MINER[0] == 'M' && PREFIX_USER[0] == 'U' && STORE_VERSION_KEY[0] == 'S' && PREFIX_TOKEN[0] == 'T';
    var kv' := Apply(kv, writes)[STORE_VERSION_KEY := VersionRec(v)];
    forall k | k in kv' && kv'[k].MinerRec? ensures NamesOwner(kv, kv'[k].miner.user) {
      if k !in writes { assert k in kv && kv'[k] == kv[k]; }
    }
  }

  lemma MigrationsTyped(kv: KV, parse: Parse, now: Stamp)
    requires Typed(kv)
    ensures Typed(V1(kv, parse, now)) && Version(V1(kv, parse, now)) == 1 && Carries(kv, V1(kv, parse, now))
    ensures Typed(V2(kv)) && Version(V2(kv)) == 2 && Carries(kv, V2(kv))
    ensures Typed(V3(kv)) && Version(V3(kv)) == 3 && Carries(kv, V3(kv))
  {
    hide Typed, Carries, MinerWrites, Version;
    var users, miners := Scan(kv.Keys, PREFIX_USER), Scan(kv.Keys, PREFIX_MINER);
    V1WritesMiners(kv, users, |users|, parse, now);
    MigrationApplied(kv, V1Writes(kv, users, |users|, parse, now), 1);
    V2WritesMiners(kv, miners, |miners|);
    MigrationApplied(kv, V2Writes(kv, miners, |miners|), 2);
    NoWrites(kv);
    MigrationApplied(kv, map[], 3);
  }

  lemma NoWrites(kv: KV)
    ensures MinerWrites(kv, map[]) && Apply(kv, map[]) == kv
  {
  }

  // From any version and with any texts, canonical or not, the migrations carry everything over.
  lemma MigratedCarries(kv: KV, parse: Parse, now: Stamp)
    requires Typed(kv)
    ensures Typed(Migrated(kv, parse, now)) && Carries(kv, Migrated(kv, parse, now))
  {
    hide Typed, Carries, V1, V2, V3;
    MigrationsTyped(kv, parse, now);
    match Version(kv)
    case 0 =>
      var kv1 := V1(kv, parse, now);
      MigrationsTyped(kv1, parse, now);
      MigrationsTyped(V2(kv1), parse, now);
      CarriesOn(kv, kv1, V2(kv1));
      CarriesOn(kv, V2(kv1), V3(V2(kv1)));
    case 1 =>
      MigrationsTyped(V2(kv), parse, now);
      CarriesOn(kv, V2(kv), V3(V2(kv)));
    case 2 =>
    case _ => CarriesItself(kv);
  }

  lemma CarriesItself(kv: KV)
    ensures Carries(kv, kv)
  {
  }

  lemma MigratedTokens(kv: KV, parse: Parse, now: Stamp)
    requires Typed(kv)
    ensures TokenSpace(Migrated(kv, parse, now)) == TokenSpace(kv)
  {
    hide Typed, Migrated;
    MigratedCarries(kv, parse, now);
    var kv' := Migrated(kv, parse, now);
    forall k | PREFIX_TOKEN <= k ensures (k in kv' <==> k in kv) && (k in kv ==> kv'[k] == kv[k]) {
      assert PREFIX_MINER[0] == 'M' && STORE_VERSION_KEY[0] == 'S' && PREFIX_TOKEN[0] == k[0] == 'T';
    }
  }

  lemma WellFiledIsTyped(kv: KV)
    requires WellFiled(kv)
    ensures Typed(kv)
  {
    hide KeyOf, IdOf;
    forall k | k in kv
      ensures (PREFIX_USER <= k ==> kv[k].UserRec?) && (PREFIX_MINER <= k ==> kv[k].MinerRec?)
      ensures k == STORE_VERSION_KEY ==> kv[k].VersionRec?
    {
      ScanFamily(IdOf(k).value);
      VersionAlone(IdOf(k).value);
    }
  }

  lemma VersionAlone(id: Id)
    ensures KeyOf(id) == STORE_VERSION_KEY <==> id.VersionId?
  {
    KeyNamesRow(id);
    KeyNamesRow(VersionId);
  }
}

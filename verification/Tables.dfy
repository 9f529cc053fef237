/** The relational reading of the key space: what the Store interface promises its callers.

`TablesOf` abstracts a well-filed key space to rows named by table and primary key, and each
operation of the store is specified here as a function on those rows, with no mention of keys,
scans or transactions.
 */
module Tables {
  import opened ByteOrder
  import opened Records
  import opened Badger
  import opened Pages

  type Tables = map<Id, Record>
  type Clock = Id -> Stamp   // the reading of time.Now() when a row is tombstoned

  datatype Status = Ok | KeyNotFound | NotExist | NotDeleted | UserMissing | ArgumentMissing | Conflict

  predicate Consistent(t: Tables) { forall id | id in t :: t[id].Filed(id) }

  predicate Holds(t: Tables, id: Id, r: Record) { id in t && t[id] == r }

  predicate Live(t: Tables, id: Id) { id in t && !t[id].IsDeleted() }

  // ---------- abstraction ----------

  ghost function TablesOf(kv: KV): (t: Tables)
    requires WellFiled(kv)
    ensures Consistent(t)
  {
    map id | id in (set k | k in kv :: IdOf(k).value) :: kv[KeyOf(id)]
  }

  lemma Lookup(kv: KV, id: Id)
    requires WellFiled(kv)
    ensures KeyOf(id) in kv <==> id in TablesOf(kv)
    ensures id in TablesOf(kv) ==> kv[KeyOf(id)] == TablesOf(kv)[id] && kv[KeyOf(id)].Filed(id)
  {
    KeysNameRows();
  }

  lemma PutCommutes(kv: KV, id: Id, r: Record)
    requires WellFiled(kv) && r.Filed(id)
    ensures WellFiled(kv[KeyOf(id) := r])
    ensures TablesOf(kv[KeyOf(id) := r]) == TablesOf(kv)[id := r]
  {
    KeysNameRows();
  }

  lemma StillFiled(kv: KV, k: Key)
    requires WellFiled(kv)
    ensures WellFiled(kv - {k})
  {
    hide KeyOf, IdOf;
  }

  lemma RemoveCommutes(kv: KV, id: Id)
    requires WellFiled(kv)
    ensures WellFiled(kv - {KeyOf(id)})
    ensures TablesOf(kv - {KeyOf(id)}) == TablesOf(kv) - {id}
  {
    var kv' := kv - {KeyOf(id)};
    hide KeyOf, IdOf, TablesOf, WellFiled;
    StillFiled(kv, KeyOf(id));
    forall i ensures i in TablesOf(kv') <==> i in TablesOf(kv) && i != id
      ensures i in TablesOf(kv') ==> TablesOf(kv')[i] == TablesOf(kv)[i]
    {
      Lookup(kv, i);
      Lookup(kv', i);
      KeyNamesRow(i);
      KeyNamesRow(id);
    }
  }

  // The abstraction loses nothing: six tables in one key space, yet no two states look alike.
  lemma AbstractionIsFaithful(kv: KV, kv': KV)
    requires WellFiled(kv) && WellFiled(kv')
    requires TablesOf(kv) == TablesOf(kv')
    ensures kv == kv'
  {
    forall k ensures k in kv <==> k in kv' {
      if k in kv { Lookup(kv', IdOf(k).value); }
      if k in kv' { Lookup(kv, IdOf(k).value); }
    }
    forall k | k in kv ensures kv[k] == kv'[k] {
      Lookup(kv, IdOf(k).value);
      Lookup(kv', IdOf(k).value);
    }
  }

  // Is each miner recorded under one key only, and so live under one user at most?
  ghost predicate MinersOnce(kv: KV)
  {
    forall k, k' | k in kv && k' in kv && kv[k].MinerRec? && kv[k'].MinerRec? ::
      kv[k].miner.miner == kv[k'].miner.miner ==> k == k'
  }

  lemma MinerFiledOnce(kv: KV)
    requires WellFiled(kv)
    ensures MinersOnce(kv)
  {
    forall k | k in kv && kv[k].MinerRec? ensures k == KeyOf(MinerId(kv[k].miner.miner)) {
      assert IdOf(k).value == MinerId(kv[k].miner.miner);
    }
  }

  // ---------- what scans report ----------

  function LiveTokens(t: Tables): set<Id> { set id | id in t && Live(t, id) && id.TokenId? }

  function TokensNamed(t: Tables, name: string): set<Id>
    requires Consistent(t)
  {
    set id | id in t && Live(t, id) && id.TokenId? && t[id].token.name == name
  }

  function LiveUsers(t: Tables, state: UserState): set<Id>
    requires Consistent(t)
  {
    set id | id in t && Live(t, id) && id.UserId? && (state == USER_STATE_UNDEFINED || t[id].user.state == state)
  }

  function MinersOf(t: Tables, user: string): set<Id>
    requires Consistent(t)
  {
    set id | id in t && Live(t, id) && id.MinerId? && t[id].miner.user == user
  }

  function SignersOf(t: Tables, user: string): set<Id>
  {
    set id | id in t && Live(t, id) && id.SignerId? && id.user == user
  }

  function KeysOf(ids: set<Id>): set<Key> { set id | id in ids :: KeyOf(id) }

  // Lists come in the byte order of the keys, each row once.
  function InKeyOrder(ids: set<Id>): seq<Key> { SortedKeys(KeysOf(ids)) }

  function TokenRows(t: Tables): set<Id> { set id | id in t && id.TokenId? }

  function UserRows(t: Tables): set<Id> { set id | id in t && id.UserId? }

  // Does the first of the rows, in key order, belong to `ids`?
  ghost predicate Leads(ids: set<Id>, rows: set<Id>)
  {
    exists id :: id in ids && forall r | r in rows :: r == id || Less(KeyOf(id), KeyOf(r))
  }

  // The part of `ids` that a walk over `rows` lists, for any skip and limit.
  ghost function Listed(ids: set<Id>, rows: set<Id>, skip: int, limit: int): seq<Key>
  {
    var all := InKeyOrder(ids);
    Drop(Take(all, StopCount(|all|, Leads(ids, rows), skip, limit)), skip)
  }

  // For skip and limit from 0 up, that is a page of the whole list.
  lemma ListedIsPage(ids: set<Id>, rows: set<Id>, skip: int, limit: int)
    requires skip >= 0 && limit >= 0
    ensures Listed(ids, rows, skip, limit) == PageOf(InKeyOrder(ids), skip, limit)
  {
    StopIsPage(InKeyOrder(ids), Leads(ids, rows), skip, limit);
  }

  lemma ScanRows(kv: KV, prefix: Key, rows: set<Id>)
    requires WellFiled(kv)
    requires || (prefix == PREFIX_TOKEN && rows == TokenRows(TablesOf(kv)))
             || (prefix == PREFIX_USER && rows == UserRows(TablesOf(kv)))
    ensures Scan(kv.Keys, prefix) == InKeyOrder(rows)
  {
    hide KeyOf, IdOf;
    forall k ensures k in KeysOf(rows) <==> k in kv && prefix <= k {
      if k in KeysOf(rows) {
        var id := RowKeyed(rows, k);
        ScanFamily(id);
        Lookup(kv, id);
      }
      if k in kv && prefix <= k {
        var id := IdOf(k).value;
        ScanFamily(id);
        Lookup(kv, id);
        KeysOfMember(rows, id);
      }
    }
    assert KeysOf(rows) == set k | k in kv.Keys && prefix <= k;
  }

  lemma FirstRow(ids: set<Id>, rows: set<Id>)
    requires ids <= rows
    ensures var visited := InKeyOrder(rows);
      visited != [] && visited[0] in KeysOf(ids) <==> Leads(ids, rows)
  {
    hide KeyOf, IdOf, Less;
    LessIsStrictOrder();
    KeysNameRows();
    var visited := InKeyOrder(rows);
    forall r | r in rows ensures visited != [] && (KeyOf(r) == visited[0] || Less(visited[0], KeyOf(r))) {
      KeysOfMember(rows, r);
      var i :| 0 <= i < |visited| && visited[i] == KeyOf(r);
    }
    if visited != [] {
      var first := RowKeyed(rows, visited[0]);
      if visited[0] in KeysOf(ids) {
        var id := RowKeyed(ids, visited[0]);
      }
      if id :| id in ids && forall r | r in rows :: r == id || Less(KeyOf(id), KeyOf(r)) {
        KeysOfMember(ids, id);
      }
    }
  }

  lemma KeysOfSnoc(ids: set<Id>, id: Id)
    ensures KeysOf(ids + {id}) == KeysOf(ids) + {KeyOf(id)}
    ensures KeyOf(id) in KeysOf(ids) <==> id in ids
  {
    KeysNameRows();
  }

  lemma {:induction false} InKeyOrderLength(ids: set<Id>)
    ensures |InKeyOrder(ids)| == |ids|
  {
    SortedLength(KeysOf(ids));
    SameSize(ids);
  }

  lemma {:induction false} SameSize(ids: set<Id>)
    ensures |KeysOf(ids)| == |ids|
  {
    hide KeyOf;
    if ids == {} {
      assert KeysOf(ids) == {};
    } else {
      var id :| id in ids;
      SameSize(ids - {id});
      KeysOfSnoc(ids - {id}, id);
      assert ids - {id} + {id} == ids;
    }
  }

  lemma RowKeyed(ids: set<Id>, k: Key) returns (id: Id)
    requires k in KeysOf(ids)
    ensures id in ids && k == KeyOf(id)
  {
    id :| id in ids && k == KeyOf(id);
  }

  lemma InKeyOrderIs(ids: set<Id>)
    ensures NoRepeats(InKeyOrder(ids))
    ensures forall id :: KeyOf(id) in InKeyOrder(ids) <==> id in ids
  {
    AscendingDistinct(InKeyOrder(ids));
    forall id ensures KeyOf(id) in InKeyOrder(ids) <==> id in ids { KeysOfMember(ids, id); }
  }

  lemma KeysOfMember(ids: set<Id>, id: Id)
    ensures KeyOf(id) in KeysOf(ids) <==> id in ids
  {
    KeysNameRows();
  }

  // A walk over a table's prefix visits keys of that table only; the record found names its row.
  lemma Visit(kv: KV, prefix: Key, k: Key) returns (id: Id)
    requires WellFiled(kv) && k in Scan(kv.Keys, prefix)
    ensures k in kv && prefix <= k == KeyOf(id) && Holds(TablesOf(kv), id, kv[k]) && kv[k].Filed(id)
    ensures prefix == PREFIX_TOKEN ==> id.TokenId?
    ensures prefix == PREFIX_USER ==> id.UserId?
    ensures prefix == PREFIX_MINER ==> id.MinerId?
    ensures PREFIX_SIGNER <= prefix ==> id.SignerId?
  {
    id := IdOf(k).value;
    Lookup(kv, id);
    ScanFamily(id);
  }

  lemma Scanned(kv: KV, prefix: Key, id: Id)
    requires WellFiled(kv) && id in TablesOf(kv)
    ensures prefix <= KeyOf(id) ==> KeyOf(id) in Scan(kv.Keys, prefix)
    ensures prefix == PREFIX_MINER && id.MinerId? ==> KeyOf(id) in Scan(kv.Keys, prefix)
    ensures prefix == PREFIX_SIGNER && id.SignerId? ==> KeyOf(id) in Scan(kv.Keys, prefix)
  {
    Lookup(kv, id);
    ScanFamily(id);
  }

  lemma PrefixOfSignerKey(a: Addr)
    ensures PREFIX_SIGNER <= SignerKey(a)
  {
  }

  lemma ReachedAt(kv: KV, id: Id, a: Addr)
    requires WellFiled(kv)
    ensures Reached(TablesOf(kv), id, a) <==> Live(TablesOf(kv), id) && SignerKey(a) <= KeyOf(id)
  {
    ScanSigner(a, id);
  }

  lemma ScanTable(kv: KV, prefix: Key, ids: set<Id>)
    requires WellFiled(kv) && ids <= TablesOf(kv).Keys
    requires || (prefix == PREFIX_TOKEN && forall id | id in ids :: id.TokenId?)
             || (prefix == PREFIX_USER && forall id | id in ids :: id.UserId?)
             || (prefix == PREFIX_MINER && forall id | id in ids :: id.MinerId?)
             || (prefix == PREFIX_SIGNER && forall id | id in ids :: id.SignerId?)
    ensures var visited := Scan(kv.Keys, prefix);
      Kept(visited, |visited|, KeysOf(ids)) == InKeyOrder(ids)
  {
    forall k | k in KeysOf(ids) ensures k in kv && prefix <= k {
      var id :| id in ids && k == KeyOf(id);
      Lookup(kv, id);
      ScanFamily(id);
    }
    ScanKeeps(kv.Keys, prefix, KeysOf(ids));
  }

  // ---------- the tokens alone ----------

  function TokenSpace(kv: KV): KV { map k | k in kv && PREFIX_TOKEN <= k :: kv[k] }

  lemma ScanTokens(kv: KV)
    ensures Scan(TokenSpace(kv).Keys, PREFIX_TOKEN) == Scan(kv.Keys, PREFIX_TOKEN)
  {
    hide SortedKeys;
    assert (set k | k in TokenSpace(kv).Keys && PREFIX_TOKEN <= k) == set k | k in kv.Keys && PREFIX_TOKEN <= k;
  }

  // The token rows of a store can be read without the others.
  lemma TokensAlone(kv: KV)
    requires WellFiled(kv)
    ensures WellFiled(TokenSpace(kv))
    ensures var t, tokens := TablesOf(kv), TablesOf(TokenSpace(kv));
      && (forall id :: id in tokens <==> id in t && id.TokenId?)
      && (forall id | id in tokens :: tokens[id] == t[id])
      && LiveTokens(tokens) == LiveTokens(t) && TokenRows(tokens) == TokenRows(t)
  {
    hide KeyOf, IdOf, TablesOf;
    var t, tokens := TablesOf(kv), TablesOf(TokenSpace(kv));
    forall id ensures id in tokens <==> id in t && id.TokenId?
      ensures id in tokens ==> tokens[id] == t[id]
    {
      Lookup(kv, id);
      Lookup(TokenSpace(kv), id);
      ScanFamily(id);
    }
  }

  // ---------- soft deletion ----------

  function SoftDelete(t: Tables, id: Id, now: Stamp): (r: (Tables, Status))
  {
    if id !in t then (t, KeyNotFound)
    else if t[id].IsDeleted() then (t, NotExist)
    else (t[id := t[id].SetDeleted(now)], Ok)
  }

  function Recover(t: Tables, id: Id): (r: (Tables, Status))
  {
    if id !in t then (t, KeyNotFound)
    else if t[id].Flag() == NOT_DELETE then (t, NotDeleted)
    else (t[id := t[id].ClearFlag()], Ok)
  }

  // Tombstones a set of rows, each at its own reading of the clock.
  function Tombstone(t: Tables, ids: set<Id>, clock: Clock): Tables
  {
    map id | id in t :: if id in ids then t[id].SetDeleted(clock(id)) else t[id]
  }

  // The pending writes of a transaction that tombstones a set of rows.
  ghost function TombstoneWrites(t: Tables, ids: set<Id>, clock: Clock): Writes
    requires ids <= t.Keys
  {
    map k | k in KeysOf(ids) && IdOf(k).Some? && IdOf(k).value in ids ::
      Some(t[IdOf(k).value].SetDeleted(clock(IdOf(k).value)))
  }

  lemma TombstoneWritesSnoc(t: Tables, ids: set<Id>, id: Id, clock: Clock)
    requires ids <= t.Keys && id in t
    ensures TombstoneWrites(t, ids + {id}, clock) ==
            TombstoneWrites(t, ids, clock)[KeyOf(id) := Some(t[id].SetDeleted(clock(id)))]
    ensures TombstoneWrites(t, {}, clock) == map[]
    ensures TombstoneWrites(t, ids, clock).Keys == KeysOf(ids)
  {
    KeysNameRows();
    assert KeysOf(ids + {id}) == KeysOf(ids) + {KeyOf(id)};
  }

  lemma TombstonesFiled(t: Tables, ids: set<Id>, clock: Clock)
    requires Consistent(t)
    ensures Consistent(Tombstone(t, ids, clock))
  {
  }

  // Applying them tombstones those rows, in any state that still agrees with `t` on them.
  lemma ApplyTombstones(kv: KV, t: Tables, ids: set<Id>, clock: Clock)
    requires WellFiled(kv) && Consistent(t) && ids <= t.Keys
    requires forall id | id in ids :: Holds(TablesOf(kv), id, t[id])
    ensures WellFiled(Apply(kv, TombstoneWrites(t, ids, clock)))
    ensures TablesOf(Apply(kv, TombstoneWrites(t, ids, clock))) == Tombstone(TablesOf(kv), ids, clock)
  {
    hide KeyOf, IdOf, TablesOf;
    var kv' := Apply(kv, TombstoneWrites(t, ids, clock));
    forall id ensures KeyOf(id) in kv' <==> id in TablesOf(kv)
      ensures id in TablesOf(kv) ==> kv'[KeyOf(id)] == Tombstone(TablesOf(kv), ids, clock)[id]
    {
      Lookup(kv, id);
      KeyNamesRow(id);
      KeysOfMember(ids, id);
    }
    forall k | k in kv' ensures k in kv {
      if k in KeysOf(ids) {
        var id :| id in ids && k == KeyOf(id);
        Lookup(kv, id);
      }
    }
    Represented(kv', Tombstone(TablesOf(kv), ids, clock));
  }

  // A key space is well filed, and represents `t`, once its keys are those of t's rows.
  lemma Represented(kv: KV, t: Tables)
    requires Consistent(t)
    requires forall k | k in kv :: IdOf(k).Some? && k == KeyOf(IdOf(k).value)
    requires forall id :: KeyOf(id) in kv <==> id in t
    requires forall id | id in t :: kv[KeyOf(id)] == t[id]
    ensures WellFiled(kv) && TablesOf(kv) == t
  {
    forall id ensures id in TablesOf(kv) <==> id in t { Lookup(kv, id); }
  }

  lemma TombstoneNone(t: Tables, clock: Clock)
    ensures Tombstone(t, {}, clock) == t
  {
  }

  lemma TombstoneSnoc(t: Tables, ids: set<Id>, id: Id, clock: Clock)
    requires id in t
    ensures Tombstone(t, ids + {id}, clock) == Tombstone(t, ids, clock)[id := t[id].SetDeleted(clock(id))]
  {
  }

  lemma TombstoneTwice(t: Tables, a: set<Id>, b: set<Id>, clock: Clock)
    requires a !! b
    ensures Tombstone(Tombstone(t, a, clock), b, clock) == Tombstone(t, a + b, clock)
  {
  }

  // ---------- users ----------

  function PutUser(t: Tables, user: User): Tables { t[UserId(user.name) := UserRec(user, "")] }

  // The rows DeleteUser(name) tombstones: the user, its live miners and its live signer bindings.
  predicate Cascades(t: Tables, id: Id, name: string)
    requires Consistent(t)
  {
    && Live(t, id)
    && match id
       case UserId(n) => n == name
       case MinerId(_) => t[id].miner.user == name
       case SignerId(_, u) => u == name
       case _ => false
  }

  function Cascade(t: Tables, name: string): set<Id>
    requires Consistent(t)
  {
    set id | id in t && Cascades(t, id, name)
  }

  // Its three parts: the row the outer transaction reads first, the rows it marks next, and the
  // rows the nested transactions mark.
  lemma CascadeParts(t: Tables, name: string)
    requires Consistent(t) && Live(t, UserId(name))
    ensures Cascade(t, name) == {UserId(name)} + MinersOf(t, name) + SignersOf(t, name)
    ensures Cascade(t, name) == SignersOf(t, name) + ({UserId(name)} + MinersOf(t, name))
  {
  }

  function DeleteUser(t: Tables, name: string, clock: Clock): (r: (Tables, Status))
    requires Consistent(t)
  {
    if UserId(name) !in t then (t, KeyNotFound)
    else if t[UserId(name)].IsDeleted() then (t, NotExist)
    else (Tombstone(t, Cascade(t, name), clock), Ok)
  }

  // ---------- rate limits ----------

  function LimitsOf(t: Tables, name: string): map<string, RateLimit>
    requires Consistent(t)
  {
    if LimitId(name) in t then t[LimitId(name)].limits else map[]
  }

  // What listRateLimits(user, id) selects: one entry, or all of them for the empty id.
  function Matching(limits: map<string, RateLimit>, id: string): map<string, RateLimit>
  {
    map i | i in limits && (id == "" || i == id) :: limits[i]
  }

  lemma MatchingIs(limits: map<string, RateLimit>, id: string, l: RateLimit)
    ensures (l.id in Matching(limits, id) && Matching(limits, id)[l.id] == l) <==>
            l.id in limits && limits[l.id] == l && (id == "" || l.id == id)
  {
  }

  lemma MatchingAll(limits: map<string, RateLimit>)
    ensures Matching(limits, "") == limits
  {
  }

  function PutRateLimit(t: Tables, limit: RateLimit): (t': Tables)
    requires Consistent(t)
    ensures Consistent(t')
  {
    var limits := LimitsOf(t, limit.name)[limit.id := limit];
    assert limit.id in limits;
    t[LimitId(limit.name) := LimitRec(limits)]
  }

  function DelRateLimit(t: Tables, name: string, id: string): (r: (Tables, Status))
    requires Consistent(t)
  {
    if name == "" || id == "" then (t, ArgumentMissing)
    else if LimitId(name) !in t then (t, KeyNotFound)
    else if id !in LimitsOf(t, name) then (t, Ok)
    else (t - {LimitId(name)}, Ok)
  }

  // ---------- miners and signers ----------

  // Binding needs a user record, live or not; rebinding revives a tombstone and keeps its createdAt.
  function UpsertMiner(t: Tables, a: Addr, user: string, openMining: Option<bool>, now: Stamp): (r: (Tables, Status))
    requires Consistent(t)
  {
    if UserId(user) !in t then (t, UserMissing)
    else
      var created := if MinerId(a) in t then t[MinerId(a)].miner.createdAt else now;
      (t[MinerId(a) := MinerRec(Miner(a, user, openMining, created, now, DeletedAt(true, 0)))], Ok)
  }

  function RegisterSigner(t: Tables, a: Addr, user: string, now: Stamp): (r: (Tables, Status))
    requires Consistent(t)
  {
    if UserId(user) !in t then (t, UserMissing)
    else
      var created := if SignerId(a, user) in t then t[SignerId(a, user)].signer.createdAt else now;
      (t[SignerId(a, user) := SignerRec(Signer(a, user, created, now, DeletedAt(true, 0)))], Ok)
  }

  // An absent binding is not an error, a tombstoned one is.
  function UnregisterSigner(t: Tables, a: Addr, user: string, now: Stamp): (r: (Tables, Status))
  {
    var r := SoftDelete(t, SignerId(a, user), now);
    if r.1 == KeyNotFound then (t, Ok) else r
  }

  // The live bindings a prefix scan for address `a` finds.
  predicate Reached(t: Tables, id: Id, a: Addr) { Live(t, id) && id.SignerId? && a <= id.signer }

  function ReachedBy(t: Tables, a: Addr): set<Id> { set id | id in t && Reached(t, id, a) }

  // Every binding, live or not, that a prefix scan for `a` visits.
  function BoundTo(t: Tables, a: Addr): set<Id> { set id | id in t && id.SignerId? && a <= id.signer }

  lemma BoundMember(t: Tables, a: Addr, id: Id)
    ensures id in BoundTo(t, a) <==> id in t && id.SignerId? && a <= id.signer
  {
  }

  lemma ScanSigners(kv: KV, a: Addr)
    requires WellFiled(kv)
    ensures Scan(kv.Keys, SignerKey(a)) == InKeyOrder(BoundTo(TablesOf(kv), a))
  {
    hide KeyOf, IdOf;
    var t := TablesOf(kv);
    forall k ensures k in KeysOf(BoundTo(t, a)) <==> k in kv && SignerKey(a) <= k {
      if k in KeysOf(BoundTo(t, a)) {
        var id := RowKeyed(BoundTo(t, a), k);
        ScanSigner(a, id);
        Lookup(kv, id);
      }
      if k in kv && SignerKey(a) <= k {
        var id := IdOf(k).value;
        ScanSigner(a, id);
        Lookup(kv, id);
        KeysOfMember(BoundTo(t, a), id);
      }
    }
    assert KeysOf(BoundTo(t, a)) == set k | k in kv.Keys && SignerKey(a) <= k;
  }

  // The user keys of a list of binding keys.
  function UsersOf(keys: seq<Key>): seq<Key>
  {
    if keys == [] then []
    else
      var last := IdOf(keys[|keys| - 1]);
      UsersOf(keys[..|keys| - 1]) +
        if last.Some? && last.value.SignerId? then [KeyOf(UserId(last.value.user))] else []
  }

  lemma UsersOfSnoc(keys: seq<Key>, id: Id)
    requires id.SignerId?
    ensures UsersOf(keys + [KeyOf(id)]) == UsersOf(keys) + [KeyOf(UserId(id.user))]
  {
    KeyNamesRow(id);
    hide KeyOf, IdOf;
    assert (keys + [KeyOf(id)])[..|keys|] == keys;
  }

  // What a walk over some bindings answers: the keys of their users in the order of the bindings, or
  // nothing if one of the users is not live.
  function UsersBehind(t: Tables, ids: set<Id>): Option<seq<Key>>
    requires forall id | id in ids :: id.SignerId?
  {
    if forall id | id in ids :: Live(t, UserId(id.user)) then Some(UsersOf(InKeyOrder(ids))) else None
  }

  function DelSigner(t: Tables, a: Addr, clock: Clock): (r: (Tables, bool))
  {
    (Tombstone(t, ReachedBy(t, a), clock), ReachedBy(t, a) != {})
  }

  // ---------- runs ----------

  datatype Op =
    | OpPut(kp: KeyPair)
    | OpDelete(token: string, now: Stamp)
    | OpRecover(token: string)
    | OpPutUser(user: User)
    | OpDeleteUser(name: string, clock: Clock)
    | OpRecoverUser(name: string)
    | OpPutRateLimit(limit: RateLimit)
    | OpDelRateLimit(name: string, id: string)
    | OpUpsertMiner(addr: Addr, name: string, openMining: Option<bool>, now: Stamp)
    | OpDelMiner(addr: Addr, now: Stamp)
    | OpRegisterSigner(addr: Addr, name: string, now: Stamp)
    | OpUnregisterSigner(addr: Addr, name: string, now: Stamp)
    | OpDelSigner(addr: Addr, clock: Clock)

  function Step(t: Tables, op: Op): (r: (Tables, Status))
    requires Consistent(t)
    ensures Consistent(r.0)
  {
    match op
    case OpPut(kp) => (t[TokenId(kp.token) := TokenRec(kp)], Ok)
    case OpDelete(token, now) => SoftDelete(t, TokenId(token), now)
    case OpRecover(token) => Recover(t, TokenId(token))
    case OpPutUser(user) => (PutUser(t, user), Ok)
    case OpDeleteUser(name, clock) => DeleteUser(t, name, clock)
    case OpRecoverUser(name) => Recover(t, UserId(name))
    case OpPutRateLimit(limit) => (PutRateLimit(t, limit), Ok)
    case OpDelRateLimit(name, id) => DelRateLimit(t, name, id)
    case OpUpsertMiner(a, name, open, now) => UpsertMiner(t, a, name, open, now)
    case OpDelMiner(a, now) => SoftDelete(t, MinerId(a), now)
    case OpRegisterSigner(a, name, now) => RegisterSigner(t, a, name, now)
    case OpUnregisterSigner(a, name, now) => UnregisterSigner(t, a, name, now)
    case OpDelSigner(a, clock) => (DelSigner(t, a, clock).0, Ok)
  }

  function Run(t: Tables, ops: seq<Op>): (t': Tables)
    requires Consistent(t)
    ensures Consistent(t')
    decreases |ops|
  {
    if ops == [] then t else Run(Step(t, ops[0]).0, ops[1..])
  }
}

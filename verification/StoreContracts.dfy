/** The vocabulary of module Tables, read off the fields of the rows (storage/store.go).

What is live, what a list selects, what a walk answers and what an erased time stamp hides, each said
without the functions that the store's operations are specified with.
 */
module StoreContracts {
  import opened ByteOrder
  import opened Records
  import opened Tables
  import opened Pages
  import StoreTheorems

  // ---------- rows ----------

  predicate Unset(d: DeletedAt) { !d.valid || d.time == 0 }

  predicate UserUsable(t: Tables, name: string)
    requires Consistent(t)
  {
    UserId(name) in t && t[UserId(name)].user.isDeleted != 1
  }

  predicate TokenUsable(t: Tables, token: string)
    requires Consistent(t)
  {
    TokenId(token) in t && t[TokenId(token)].token.isDeleted != 1
  }

  predicate MinerUsable(t: Tables, a: Addr)
    requires Consistent(t)
  {
    MinerId(a) in t && Unset(t[MinerId(a)].miner.deletedAt)
  }

  predicate SignerUsable(t: Tables, a: Addr, user: string)
    requires Consistent(t)
  {
    SignerId(a, user) in t && Unset(t[SignerId(a, user)].signer.deletedAt)
  }

  // Live is what the fields say.
  lemma LiveIsUsable(t: Tables)
    requires Consistent(t)
    ensures forall n :: Live(t, UserId(n)) <==> UserUsable(t, n)
    ensures forall k :: Live(t, TokenId(k)) <==> TokenUsable(t, k)
    ensures forall a :: Live(t, MinerId(a)) <==> MinerUsable(t, a)
    ensures forall a, u :: Live(t, SignerId(a, u)) <==> SignerUsable(t, a, u)
  {
  }

  predicate SameRow(t: Tables, t': Tables, id: Id) { (id in t' <==> id in t) && (id in t ==> t'[id] == t[id]) }

  // Every row but one is as it was.
  ghost predicate OthersKept(t: Tables, t': Tables, id: Id) { forall i | i != id :: SameRow(t, t', i) }

  // What is a user's: its row, its miners and its bindings, as far as they are usable.
  predicate Belongs(t: Tables, id: Id, name: string)
    requires Consistent(t)
  {
    match id
    case UserId(n) => n == name && UserUsable(t, n)
    case MinerId(a) => MinerUsable(t, a) && t[id].miner.user == name
    case SignerId(a, u) => u == name && SignerUsable(t, a, u)
    case _ => false
  }

  function Deleted(r: Record, at: Stamp): Record
  {
    match r
    case UserRec(u, _) => UserRec(u.(isDeleted := 1), "")
    case MinerRec(m) => MinerRec(m.(deletedAt := DeletedAt(true, at)))
    case SignerRec(s) => SignerRec(s.(deletedAt := DeletedAt(true, at)))
    case _ => r
  }

  // ---------- lists ----------

  lemma SelectsTokens(t: Tables, name: string, token: string)
    requires Consistent(t)
    ensures TokenId(token) in LiveTokens(t) <==> TokenUsable(t, token)
    ensures TokenId(token) in TokensNamed(t, name) <==> TokenUsable(t, token) && t[TokenId(token)].token.name == name
    ensures forall id | id in LiveTokens(t) + TokensNamed(t, name) :: id.TokenId?
  {
    LiveIsUsable(t);
  }

  // State 0 asks for the users of every state.
  lemma SelectsUsers(t: Tables, state: UserState, name: string)
    requires Consistent(t)
    ensures UserId(name) in LiveUsers(t, state) <==>
            UserUsable(t, name) && (state == 0 || t[UserId(name)].user.state == state)
    ensures forall id | id in LiveUsers(t, state) :: id.UserId?
  {
    LiveIsUsable(t);
  }

  lemma SelectsBindings(t: Tables, user: string, a: Addr, b: Addr)
    requires Consistent(t)
    ensures MinerId(a) in MinersOf(t, user) <==> MinerUsable(t, a) && t[MinerId(a)].miner.user == user
    ensures SignerId(a, user) in SignersOf(t, user) <==> SignerUsable(t, a, user)
    ensures SignerId(b, user) in ReachedBy(t, a) <==> SignerUsable(t, b, user) && a <= b
    ensures SignerId(b, user) in BoundTo(t, a) <==> SignerId(b, user) in t && a <= b
    ensures forall id | id in MinersOf(t, user) :: id.MinerId?
    ensures forall id | id in SignersOf(t, user) :: id.SignerId? && id.user == user
    ensures forall id | id in ReachedBy(t, a) + BoundTo(t, a) :: id.SignerId?
  {
    LiveIsUsable(t);
  }

  // The answer for an address has one user for each binding, in the order of the bindings.
  lemma {:induction false} UsersInOrder(keys: seq<Key>, i: nat)
    requires (forall k | k in keys :: StoreTheorems.NamesBinding(k)) && i < |keys|
    ensures |UsersOf(keys)| == |keys| && StoreTheorems.NamesBinding(keys[i])
    ensures UsersOf(keys)[i] == KeyOf(UserId(IdOf(keys[i]).value.user))
  {
    hide KeyOf, IdOf, UsersOf;
    var before, k := keys[..|keys| - 1], keys[|keys| - 1];
    assert keys == before + [k] && StoreTheorems.NamesBinding(k);
    UsersOfSnoc(before, IdOf(k).value);
    StoreTheorems.UsersOfLength(before);
    if i < |before| { UsersInOrder(before, i); }
  }

  // With a negative limit a list is cut after the first row visited, so it shows that row or nothing;
  // a negative skip skips nothing, and takes as much from the limit.
  lemma ListedOutside(ids: set<Id>, rows: set<Id>, skip: int, limit: int)
    requires ids <= rows
    ensures limit < 0 && skip >= 0 ==>
            Listed(ids, rows, skip, limit) == if skip == 0 && Leads(ids, rows) then Take(InKeyOrder(ids), 1) else []
    ensures skip < 0 && limit == 0 ==> Listed(ids, rows, skip, limit) == InKeyOrder(ids)
    ensures skip < 0 < skip + limit ==> Listed(ids, rows, skip, limit) == PageOf(InKeyOrder(ids), 0, skip + limit)
  {
    assert Leads(ids, rows) ==> InKeyOrder(ids) != [] by {
      if id :| id in ids { InKeyOrderIs(ids); }
    }
  }

  // ---------- erased time stamps ----------

  function TimeOf(r: Record): Time
  {
    match r
    case MinerRec(m) => m.deletedAt.time
    case SignerRec(s) => s.deletedAt.time
    case _ => 0
  }

  function WithTime(r: Record, at: Time): Record
  {
    match r
    case MinerRec(m) => MinerRec(m.(deletedAt := m.deletedAt.(time := at)))
    case SignerRec(s) => SignerRec(s.(deletedAt := s.deletedAt.(time := at)))
    case _ => r
  }

  lemma TimelessEqual(r: Record, r': Record)
    ensures StoreTheorems.Timeless(r) == StoreTheorems.Timeless(r') <==>
            r' == WithTime(r, TimeOf(r')) && (TimeOf(r) == 0 <==> TimeOf(r') == 0)
  {
  }

  // Two tables that are equal up to time stamps have the same rows, and a row differs at most in the
  // time of a deletion that both have or neither.
  lemma ErasedEqual(t: Tables, t': Tables)
    ensures StoreTheorems.Erase(t) == StoreTheorems.Erase(t') <==>
      && t.Keys == t'.Keys
      && forall id | id in t && id in t' ::
           t'[id] == WithTime(t[id], TimeOf(t'[id])) && (TimeOf(t[id]) == 0 <==> TimeOf(t'[id]) == 0)
  {
    hide StoreTheorems.Timeless, WithTime, TimeOf;
    var e, e' := StoreTheorems.Erase(t), StoreTheorems.Erase(t');
    assert e.Keys == t.Keys && e'.Keys == t'.Keys;
    forall id | id in t && id in t'
      ensures e[id] == e'[id] <==>
              t'[id] == WithTime(t[id], TimeOf(t'[id])) && (TimeOf(t[id]) == 0 <==> TimeOf(t'[id]) == 0)
    {
      TimelessEqual(t[id], t'[id]);
    }
    if e == e' {
      forall id | id in t && id in t' ensures e[id] == e'[id] {}
    }
  }
}

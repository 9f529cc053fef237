/** Key builders and stored records (storage/badger_helper.go, storage/store.go).

Five tables and the version record share one flat key space. `KeyOf` builds the key of a row and
`IdOf` reads it back, so no two rows of any tables share a key.
 */
module Records {
  import opened ByteOrder

  datatype Option<+T> = None | Some(value: T)

  // ---------- addresses and keys ----------

  // Canonical address text: a network letter, a protocol digit, a base32 or decimal body.
  type Addr = s: string | ':' !in s witness "f00"

  const PREFIX_TOKEN: Key := "TOKEN:"
  const PREFIX_USER: Key := "USER:"
  const PREFIX_REQ_LIMIT: Key := "ReqLimit:"
  const PREFIX_MINER: Key := "MINERS:"
  const PREFIX_SIGNER: Key := "SIGNERS:"
  const STORE_VERSION_KEY: Key := "StoreVersion"

  function TokenKey(token: string): Key { PREFIX_TOKEN + token }
  function UserKey(name: string): Key { PREFIX_USER + name }
  function RateLimitKey(name: string): Key { PREFIX_REQ_LIMIT + name }
  function MinerKey(miner: string): Key { PREFIX_MINER + miner }
  function SignerKey(signer: Addr): Key { PREFIX_SIGNER + signer }
  function SignerForUserKey(signer: Addr, user: string): Key { PREFIX_SIGNER + signer + ":" + user }

  // What a key names: a table and its primary key.
  datatype Id =
    | TokenId(token: string)
    | UserId(name: string)
    | LimitId(name: string)
    | MinerId(miner: Addr)
    | SignerId(signer: Addr, user: string)
    | VersionId

  function KeyOf(id: Id): Key
  {
    match id
    case TokenId(t) => TokenKey(t)
    case UserId(n) => UserKey(n)
    case LimitId(n) => RateLimitKey(n)
    case MinerId(a) => MinerKey(a)
    case SignerId(a, u) => SignerForUserKey(a, u)
    case VersionId => STORE_VERSION_KEY
  }

  // Reads a key back; the families are told apart by their prefixes.
  function IdOf(k: Key): Option<Id>
  {
    if PREFIX_TOKEN <= k then Some(TokenId(k[6..]))
    else if PREFIX_USER <= k then Some(UserId(k[5..]))
    else if PREFIX_REQ_LIMIT <= k then Some(LimitId(k[9..]))
    else if PREFIX_MINER <= k then (if ':' in k[7..] then None else Some(MinerId(k[7..])))
    else if PREFIX_SIGNER <= k then var b := BindingOf(k[8..]); Some(SignerId(b.0, b.1))
    else if k == STORE_VERSION_KEY then Some(VersionId)
    else None
  }

  // Every key can be read back, so no two rows of any tables share a key.
  lemma KeyNamesRow(id: Id)
    ensures IdOf(KeyOf(id)) == Some(id)
  {
    assert PREFIX_TOKEN[0] == 'T' && PREFIX_USER[0] == 'U' && PREFIX_REQ_LIMIT[0] == 'R' && PREFIX_MINER[0] == 'M';
    match id
    case TokenId(t) => assert TokenKey(t)[6..] == t;
    case UserId(n) => assert UserKey(n)[0] == 'U' && UserKey(n)[5..] == n;
    case LimitId(n) => assert RateLimitKey(n)[0] == 'R' && RateLimitKey(n)[9..] == n;
    case MinerId(a) => assert MinerKey(a)[0] == 'M' && MinerKey(a)[7..] == a;
    case SignerId(a, u) =>
      BindingOfJoin(a, u);
      assert SignerForUserKey(a, u)[0] == 'S' && SignerForUserKey(a, u)[8..] == a + ":" + u;
    case VersionId => assert STORE_VERSION_KEY[1] == 't' && PREFIX_SIGNER[1] == 'I';
  }

  lemma KeysNameRows()
    ensures forall id {:trigger KeyOf(id)} :: IdOf(KeyOf(id)) == Some(id)
  {
    forall id ensures IdOf(KeyOf(id)) == Some(id) { KeyNamesRow(id); }
  }

  // Splits "signer:user" at its first colon.
  function BindingOf(joined: string): (r: (Addr, string))
  {
    if joined == [] || joined[0] == ':' then
      ("", if joined == [] then "" else joined[1..])
    else
      var rest := BindingOf(joined[1..]);
      ([joined[0]] + rest.0, rest.1)
  }

  lemma {:induction false} BindingOfJoin(signer: Addr, user: string)
    ensures BindingOf(signer + ":" + user) == (signer, user)
  {
    if signer == [] {
      assert signer + ":" + user == [':'] + user;
    } else {
      BindingOfJoin(signer[1..], user);
      assert (signer + ":" + user)[1..] == signer[1..] + ":" + user;
      assert signer == [signer[0]] + signer[1..];
    }
  }

  // The prefix scan of HasSigner and DelSigner reaches the bindings of every address that extends
  // the one asked for, whatever the user name contains.
  lemma SignerPrefix(asked: Addr, signer: Addr, user: string)
    ensures SignerKey(asked) <= SignerForUserKey(signer, user) <==> asked <= signer
  {
    var joined := signer + ":" + user;
    assert SignerForUserKey(signer, user) == PREFIX_SIGNER + joined;
    assert SignerKey(asked) <= PREFIX_SIGNER + joined <==> asked <= joined by {
      assert (PREFIX_SIGNER + joined)[8..] == joined && SignerKey(asked)[8..] == asked;
      assert asked <= joined ==> (PREFIX_SIGNER + joined)[..8 + |asked|] == PREFIX_SIGNER + joined[..|asked|];
    }
    assert joined[|signer|] == ':';
    assert |asked| <= |signer| ==> joined[..|asked|] == signer[..|asked|];
  }

  // Which keys a scan for each table's prefix reaches.
  lemma ScanFamily(id: Id)
    ensures PREFIX_TOKEN <= KeyOf(id) <==> id.TokenId?
    ensures PREFIX_USER <= KeyOf(id) <==> id.UserId?
    ensures PREFIX_MINER <= KeyOf(id) <==> id.MinerId?
    ensures PREFIX_SIGNER <= KeyOf(id) <==> id.SignerId?
  {
    assert PREFIX_TOKEN[0] == 'T' && PREFIX_USER[0] == 'U' && PREFIX_MINER[0] == 'M' && PREFIX_SIGNER[1] == 'I';
    var k := KeyOf(id);
    match id
    case TokenId(_) => assert k[0] == 'T';
    case UserId(_) => assert k[0] == 'U';
    case LimitId(_) => assert k[0] == 'R' && k[1] == 'e';
    case MinerId(_) => assert k[0] == 'M' && k[1] == 'I';
    case SignerId(_, _) => assert k[0] == 'S';
    case VersionId => assert k[0] == 'S' && k[1] == 't';
  }

  lemma ScanSigner(asked: Addr, id: Id)
    ensures SignerKey(asked) <= KeyOf(id) <==> id.SignerId? && asked <= id.signer
  {
    assert SignerKey(asked) <= KeyOf(id) ==> PREFIX_SIGNER == SignerKey(asked)[..8] == KeyOf(id)[..8];
    ScanFamily(id);
    if id.SignerId? {
      SignerPrefix(asked, id.signer, id.user);
    }
  }

  // ---------- stored records ----------

  type Time = nat                       // 0 is Go's zero time
  type Stamp = t: nat | 0 < t witness 1 // what time.Now() returns

  // gorm.DeletedAt; a revived row has valid == true with the zero time, a migrated row valid == false.
  datatype DeletedAt = DeletedAt(valid: bool, time: Time) {
    predicate Set() { valid && time != 0 }
  }

  const NOT_DELETE := 0
  const DELETED := 1

  type UserState = int
  const USER_STATE_UNDEFINED: UserState := 0

  datatype KeyPair = KeyPair(name: string, perm: string, secret: string, extra: string,
                             token: string, createTime: Time, isDeleted: int)
  datatype User = User(id: string, name: string, comment: string, state: UserState,
                       createTime: Time, updateTime: Time, isDeleted: int)
  datatype Miner = Miner(miner: Addr, user: string, openMining: Option<bool>,
                         createdAt: Time, updatedAt: Time, deletedAt: DeletedAt)
  datatype Signer = Signer(signer: Addr, user: string,
                           createdAt: Time, updatedAt: Time, deletedAt: DeletedAt)
  datatype RateLimit = RateLimit(id: string, name: string, service: string, api: string,
                                 cap: int, resetDur: int)

  // The JSON values found in the key space. A user stored before version 1 also carries the text of
  // its miner; the typed User drops that field whenever it is written back.
  datatype Record =
    | TokenRec(token: KeyPair)
    | UserRec(user: User, legacyMiner: string)
    | LimitRec(limits: map<string, RateLimit>)
    | MinerRec(miner: Miner)
    | SignerRec(signer: Signer)
    | VersionRec(version: nat)
  {
    // isDeleted() of the records that can be soft-deleted
    predicate IsDeleted() {
      match this
      case TokenRec(kp) => kp.isDeleted == DELETED
      case UserRec(u, _) => u.isDeleted == DELETED
      case MinerRec(m) => m.deletedAt.Set()
      case SignerRec(s) => s.deletedAt.Set()
      case _ => false
    }

    // KeyPair and User carry the flag 0 or 1 ...
    function Flag(): int {
      match this
      case TokenRec(kp) => kp.isDeleted
      case UserRec(u, _) => u.isDeleted
      case _ => NOT_DELETE
    }

    // ... which Recover and RecoverUser clear.
    function ClearFlag(): Record {
      match this
      case TokenRec(kp) => TokenRec(kp.(isDeleted := NOT_DELETE))
      case UserRec(u, _) => UserRec(u.(isDeleted := NOT_DELETE), "")
      case _ => this
    }

    // setDeleted(), at a given reading of the clock
    function SetDeleted(now: Stamp): Record {
      match this
      case TokenRec(kp) => TokenRec(kp.(isDeleted := DELETED))
      case UserRec(u, _) => UserRec(u.(isDeleted := DELETED), "")
      case MinerRec(m) => MinerRec(m.(deletedAt := DeletedAt(true, now)))
      case SignerRec(s) => SignerRec(s.(deletedAt := DeletedAt(true, now)))
      case _ => this
    }

    // Does the record belong to this row? For a rate-limit table: not empty, every entry filed
    // under its own id and carrying the table's user.
    predicate Filed(id: Id) {
      match id
      case TokenId(t) => TokenRec? && token.token == t
      case UserId(n) => UserRec? && user.name == n
      case LimitId(n) =>
        LimitRec? && limits != map[] && forall i | i in limits :: limits[i].id == i && limits[i].name == n
      case MinerId(a) => MinerRec? && miner.miner == a
      case SignerId(a, u) => SignerRec? && signer.signer == a && signer.user == u
      case VersionId => VersionRec?
    }
  }

  type KV = map<Key, Record>

  // Every record lies under its own key.
  ghost predicate WellFiled(kv: KV)
  {
    forall k | k in kv :: IdOf(k).Some? && k == KeyOf(IdOf(k).value) && kv[k].Filed(IdOf(k).value)
  }
}

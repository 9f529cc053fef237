# A verified model of sophon-auth's store and service

sophon-auth keeps tokens, users, rate limits, miners and signers of a Filecoin cluster and answers
permission questions about them. This project models three layers of it in Dafny and proves what
they promise.

1. **The badger store.** Five tables and a version record share one flat key space ordered by bytes.
   `ByteOrder` gives the order and the prefix walk, `Records` the keys and records, `Badger` the
   transactions (snapshot, read set, pending writes, abort on conflict). `Tables` is the relational
   reading: `TablesOf` abstracts a key space in which every record lies under its own key to rows
   named by table and primary key, and every store operation is a function on rows. The class
   `BadgerStore.BadgerStore` runs the transactions and walks of the source and is proved against
   those functions. `StoreContracts` reads the vocabulary of those functions off the fields of the
   rows, and `StoreTheorems` says what the operations do together.
2. **What happens between transactions.** `Transactions` runs any number of the store's update
   closures at once and proves them serializable. `DeleteUser` is the exception: it tombstones signers
   in nested transactions that commit one by one, then the user and its miners in its own commit.
   `Interleaving` cuts it into its steps and lets anybody commit anything in between;
   `InterruptedCascade` stops it after any step.
3. **The service.** `Permissions`, `Base64Url` and `Jwt` model contexts and compact tokens; `Service`
   gives every call as a function on tables and gauge, and the class `OAuthService.JwtOAuth` runs the
   calls on a `BadgerStore`. `ServiceContracts` says of each call who may make it, when it succeeds,
   with which error it fails, which row it changes and into what, in terms of the caller's list and
   the fields of the rows; `ServiceTheorems` proves what holds after every run of calls.

`Migration` models the loop that brings an old store to version 3.

## Conventions

- A Go string is a Dafny `string` whose characters stand for bytes. An address is its canonical text,
  a network letter, a protocol digit and a body, which contains no colon (the format of go-address).
- JSON coding is taken to be lossless, so the key space holds records rather than bytes. A user record
  may still carry the text of its miner from before version 1; the typed `User` drops that field when
  it is written back, and the model does the same.
- `gorm.DeletedAt` is a pair of a flag and a time. A revived row has the flag and the zero time, a
  migrated row has no flag, and both are live.
- Each reading of the clock, each random secret and each UUID is a parameter. A clock that is read
  once per row is a function of the row. Readings are never zero.
- `json.Marshal`, `json.Unmarshal`, HMAC and the fixed JOSE header are fields of `Jwt.Codec`; the only
  assumptions are that decoding an encoded payload gives it back and that the fixed header decodes. `address.NewFromString` is the
  parameter `parse` of the migrations, None for an error or the empty address.
- A transaction commits unless a key it has read was committed after its snapshot; a key it has
  already written is read from its own writes and does not enter the read set.
- `UpsertMiner` ends in `return isCreate, db.Update(..)`, where the call assigns `isCreate`; the model
  reads the variable after the call.

## Where the code does less, or more, than it is for

Each of these is kept as the code has it, with an input that shows it and the exact condition.

- `HasSigner`, `DelSigner` and `GetUserBySigner` walk the keys that start with the address, without
  the colon behind it, so they reach the bindings of every longer address that starts with it
  (`HasSignerExact`, `DelSignerExact`, `DelSignerOverreaches`). The same prefix decides which
  bindings a caller without admin rights can remove (`BindingFrameExact`), among them bindings of
  addresses the caller does not hold (`RemovesAnothersAddress`).
- `GetUserBySigner` also walks tombstones, and fails if any user it meets on the walk is not live
  (`GetUserBySignerExact`; `TombstoneStillAnswers` and `DeletedUserHidesOthers` give the inputs).
- `DelRateLimit` looks up one id, deletes it from that one-entry map and then drops the user's whole
  row (`DelRateLimitExact`, `DelRateLimitDropsOthers`).
- `MigrateToV1` files a miner under the text it found, not under the canonical address, and the later
  migrations leave it there and add a second record under the address (`V1WellFiled`,
  `MigratedWellFiled`, `MigratedMinersOnce`, `NonCanonicalMisfiles`).
- A record misfiled so is out of the later migrations' reach: it keeps `OpenMining` nil
  (`MigratedOpensAll`). The service's `ListMiners` dereferences that pointer; so it does after a bind
  request without it, which only the HTTP layer keeps out (`NilMinerUnlistable`, `RunListable`).
- A committed `DeleteUser` can leave a live miner or signer: the lists it works from are not
  re-checked (`CommitIsCompleteExactly` and `PhantomMiner`, `UnbindsAllExactly` and `PhantomSigner`).
  It can also fail halfway, with bindings gone and the user there (`FailsExactly`, `StoppedAnywhere`).
- Unregistering a list fails on an address listed twice, and a failing list keeps what was done before
  the address it failed at (`UnregistersExact`, `LoopFailsAt`).
- `DecodeToBytes` returns the buffer it sized in advance, so skipped line feeds leave zero bytes
  (`TrailingZeros`, `LineFeedsLeaveZeros`).
- `JWTPayloadMap` indexes the second part of a text without dots and panics (`DecodersAgree`).

## Model

| member | source | states |
|---|---|---|
| ByteOrder.LessIsLexicographic | storage/badger_helper.go:157-172 | one key comes before another exactly if it is a proper prefix or has the smaller byte where they first differ |
| ByteOrder.PrefixContiguous | storage/badger_helper.go:157-172 | in byte order the keys carrying a prefix form one stretch that starts where Seek lands |
| ByteOrder.WalkThroughPrefix | storage/badger_helper.go:157-172 | an uninterrupted walk visits exactly the keys with the prefix, once each, in order |
| Pages.KeptPrefix | storage/badger_helper.go:161-169 | a walk stopped early has kept an initial segment of what the whole walk keeps |
| Records.KeyNamesRow | storage/badger_helper.go:17-49 | every key reads back to its table and primary key, so no two rows of any tables share a key, whatever the names contain |
| Records.ScanFamily | storage/badger_helper.go:17-23 | a walk for a table's prefix reaches the rows of that table and no others |
| Records.SignerPrefix | storage/badger_helper.go:43-49 | the prefix of an address reaches exactly the bindings of the addresses that start with it |
| Tables.PutCommutes | storage/badger_helper.go:110-123 | writing a record under its own key updates one row and keeps every record filed |
| Tables.RemoveCommutes | storage/badger_helper.go:52-60 | deleting a key removes one row |
| Tables.AbstractionIsFaithful | storage/badger_helper.go:17-49 | two well-filed key spaces with the same tables are equal |
| Tables.ApplyTombstones | storage/badger.go:193-274 | the pending writes of a cascade tombstone the marked rows and nothing else |
| BadgerStore.BadgerStore.SoftDelObj | storage/badger_helper.go:62-84 | missing rows and tombstones are refused with different errors, a live row is tombstoned, no other key is committed |
| BadgerStore.BadgerStore.GetUsableObj | storage/badger_helper.go:125-141 | a tombstone reads as a missing key |
| BadgerStore.BadgerStore.IsExist | storage/badger_helper.go:86-108 | true exactly for live rows |
| BadgerStore.BadgerStore.Recover | storage/badger.go:53-66 | clears the flag of a recorded token, refuses one whose flag is clear |
| BadgerStore.BadgerStore.ByName | storage/badger.go:78-99 | the live tokens of a name, each once, in key order |
| BadgerStore.BadgerStore.List | storage/badger.go:105-132 | which of the live tokens, in key order, are listed for any skip and limit, negative ones included, even if records of other tables are misfiled |
| BadgerStore.BadgerStore.ListUsers | storage/badger.go:163-191 | the same for live users, restricted to a state when one is given |
| Tables.ListedIsPage | storage/badger.go:105-132 | for skip and limit from 0 up, that is the page of the live rows, with limit 0 for all |
| StoreContracts.ListedOutside | storage/badger.go:105-132 | a negative limit lists the first row visited or nothing; a negative skip skips nothing and takes as much from the limit |
| StoreContracts.LiveIsUsable | storage/store.go:147-309 | live is, of a user or token, that its flag is not Deleted; of a miner or signer, that its time of deletion is unset |
| StoreContracts.SelectsTokens | storage/badger.go:78-132 | which tokens the list of all and the list of a name select |
| StoreContracts.SelectsUsers | storage/badger.go:163-191 | which users a list selects, with and without a state |
| StoreContracts.SelectsBindings | storage/badger.go:459-661 | which miners and bindings are a user's, and which bindings an address reaches |
| StoreContracts.UsersInOrder | storage/badger.go:633-661 | the answer for an address has the user of the i-th binding visited in its i-th place |
| StoreContracts.ErasedEqual | storage/badger.go:249-269 | what equality up to time stamps, as used below, leaves open: only the time of a deletion that both tables have |
| BadgerStore.BadgerStore.VerifyUsers | storage/badger.go:139-148 | succeeds exactly when every name is a live user |
| BadgerStore.BadgerStore.DeleteUser | storage/badger.go:193-274 | the user, its live miners and its live bindings are tombstoned, every other row is unchanged, and the outer transaction does not conflict with the nested ones |
| BadgerStore.BadgerStore.UnregisterAll | storage/badger.go:247-269 | the walk with one nested commit per binding tombstones the user's live bindings and commits signer keys only |
| BadgerStore.BadgerStore.RecoverUser | storage/badger.go:276-289 | clears the flag of a recorded user, refuses one whose flag is clear |
| BadgerStore.BadgerStore.GetRateLimits | storage/badger.go:291-308 | the entries of the user, or the one asked for, each once and as stored |
| BadgerStore.BadgerStore.PutRateLimit | storage/badger.go:310-325 | one entry added or replaced under its id, which is drawn when empty |
| BadgerStore.BadgerStore.DelRateLimit | storage/badger.go:327-345 | the branches of the code on missing arguments, missing rows, missing ids, and the drop of the whole row |
| BadgerStore.BadgerStore.GetUserByMiner | storage/badger.go:368-382 | succeeds exactly when the miner is live and its owner is a live user |
| BadgerStore.BadgerStore.UpsertMiner | storage/badger.go:384-427 | binds or revives for any recorded user, keeps createdAt, and reports isCreate exactly when the address had no record |
| BadgerStore.BadgerStore.MinerExistInUser | storage/badger.go:434-457 | the early-exit scan holds exactly when the point lookup finds the miner live with that owner |
| BadgerStore.BadgerStore.ListMiners | storage/badger.go:459-479 | the live miners of the user, each once, in key order |
| BadgerStore.BadgerStore.DelMiner | storage/badger.go:481-491 | a missing miner is no error, a tombstoned one is |
| BadgerStore.BadgerStore.RegisterSigner | storage/badger.go:493-532 | binds or revives for any recorded user |
| BadgerStore.BadgerStore.ListSigner | storage/badger.go:539-559 | the live bindings of the user, each once, in key order |
| BadgerStore.BadgerStore.InnerUnregisterSigner | storage/badger.go:561-573 | a missing binding is no error, a tombstoned one is |
| BadgerStore.BadgerStore.HasSigner | storage/badger.go:575-596 | true exactly when some live binding is reached by the prefix |
| BadgerStore.BadgerStore.DelSigner | storage/badger.go:598-631 | tombstones every live binding reached, one transaction each, and reports whether there was one |
| BadgerStore.BadgerStore.GetUserBySigner | storage/badger.go:633-661 | the users of all bindings reached, tombstoned ones included, in key order, and nothing if one of them is not live |
| BadgerStore.BadgerStore.Open | storage/store.go:20-43 | opening a store leaves it migrated |
| BadgerStore.BadgerStore.LegacyUsers | storage/badger_helper.go:194-208 | the legacy text and the name of every user, in key order |
| BadgerStore.BadgerStore.AddMiners | storage/badger_helper.go:210-227 | the pending writes are those of one miner row per parsable text, later users overwriting earlier ones |
| BadgerStore.BadgerStore.MigrateToV1 | storage/badger_helper.go:186-235 | one miner row per parsable legacy text, written in key order of the users, and version 1 |
| BadgerStore.BadgerStore.MigrateToV2 | storage/badger_helper.go:237-271 | every miner walked opens mining, and version 2 |
| BadgerStore.BadgerStore.StoreMigrate | storage/store_migration.go:9-33 | terminates; versions up to 3 end at 3, larger ones are left alone; the result is the composition of the migrations due, which the rows of Migration below describe |
| Pages.PagesCover | storage/badger.go:105-132 | consecutive pages of any positive size make up the whole list without gap or repeat |
| Pages.Page.GetSkip | core/const.go:89-94 | clamps the field below at 0 and returns it |
| Pages.Page.GetLimit | core/const.go:96-101 | a limit out of 0 to 1000 becomes 1000, and the field with it |
| StoreTheorems.DeleteUserContract | storage/badger.go:193-274 | succeeds exactly for a live user, who then has no live miner and no live binding; tokens, limits, other users and their bindings are unchanged |
| StoreTheorems.InterruptedThenRepeated | storage/badger.go:249-269 | with some of the bindings already tombstoned, a second run reaches the final state of one whole run, up to time stamps |
| StoreTheorems.RunReferential | storage/store.go:45-97 | over all runs from a store in which every miner and signer record names a recorded user, that stays so, and no user, miner, signer or token record disappears |
| StoreTheorems.ReferentialIs | storage/badger_helper.go:17-49 | a well-filed store is of the types the migrations need, and the same said of keys, which makes sense of misfiled miners too, agrees with it there |
| StoreTheorems.MigratedReferential | storage/store.go:38-40 | migrating from any version and with any legacy texts keeps it so, and hence a migrated store is such a start, as the empty one is |
| StoreTheorems.TokenRoundTrip | storage/badger.go:48-66 | deleting and recovering a live token restores the store exactly when its flag was 0 |
| StoreTheorems.UserRoundTrip | storage/badger.go:193-289 | recovering a deleted user restores its record and leaves its bindings tombstoned |
| StoreTheorems.DeleteRecoverRebind | storage/badger.go:384-427 | delete, recover and bind each old binding again, in any order: the live relation is back |
| StoreTheorems.RebindCreatesNothing | storage/badger.go:400-413 | each binding still has its record when its turn comes, so no rebinding of a miner reports a creation |
| StoreTheorems.HasSignerExact | storage/badger.go:575-596 | the answer is right for the address asked exactly when it is bound or no longer address starting with it is |
| StoreTheorems.DelSignerExact | storage/badger.go:598-631 | tombstones the bindings of its address and nothing else exactly when no longer address starting with it is bound |
| StoreTheorems.DelSignerOverreaches | storage/badger.go:598-631 | an unbound address deletes the binding of a longer one; both are delegated addresses with valid checksums |
| StoreTheorems.GetUserBySignerExact | storage/badger.go:633-661 | it answers for the live bindings of its address exactly when the walk meets no other binding or both answers are the error, and when it fails though the live bindings have an answer |
| StoreTheorems.TombstoneStillAnswers | storage/badger.go:635-651 | in any store, for an address registered and unregistered again every answer names the user, who does not hold it, and there is an answer exactly when all users met on the walk are live |
| StoreTheorems.DeletedUserHidesOthers | storage/badger.go:642-645 | deleting one user leaves the addresses of its bindings without an answer, whoever else holds them |
| StoreTheorems.PutRateLimitIsUpdate | storage/badger.go:310-325 | map update for that user, no change for others |
| StoreTheorems.DelRateLimitExact | storage/badger.go:327-361 | deleting a present id leaves no limit, so it removes one entry exactly when the user had no other |
| StoreTheorems.DelRateLimitDropsOthers | storage/badger.go:327-361 | two limits, one deleted, none left |
| Tables.MinerFiledOnce | storage/store.go:71-79 | no miner has two records, so none is live under two users |
| Transactions.BodyOnSnapshot | storage/badger_helper.go:62-84 | each closure of the store decides and writes, on the snapshot it reads, what the relational operation does there, and one that returns an error writes nothing |
| Transactions.CommitsAsEffect | storage/badger.go:384-427 | one that began on any earlier snapshot and does not conflict acts on the tables at its commit exactly as the relational operation |
| Transactions.EndsExactly | storage/badger_helper.go:62-84 | a running closure commits exactly if it had no error and none of the rows it looked at was committed since its snapshot; otherwise the database stays as it is |
| Transactions.Serializable | storage/badger.go:493-532 | for any number of such transactions in any interleaving, the tables are those of the committed ones run one after the other in commit order, each succeeding |
| Interleaving.OthersAreLegal | storage/badger.go:384-427 | what the next rows assume of everybody else holds of each of these transactions, however long ago it began |
| Interleaving.StepKeeps | storage/badger.go:193-274 | every step of DeleteUser keeps the invariant that its pending writes tombstone what its snapshot showed |
| Interleaving.EnvKeeps | storage/badger_helper.go:62-84 | so does every commit of anybody else |
| Interleaving.NestedCommitIsSafe | storage/badger.go:249-269 | each nested transaction that commits tombstones one binding, live and the user's at that moment, and nothing else |
| Interleaving.EveryNestedCommit | storage/badger.go:249-269 | so in every run of events from every database |
| Interleaving.UnbindsAllExactly | storage/badger.go:247-269 | after the final commit, which leaves the signers alone, the user has no live binding exactly when none it had at the commit was written after the walk began |
| Interleaving.CommitIsSafe | storage/badger.go:218-245 | a committing DeleteUser tombstones the user and only miners that are live and owned by it at that moment, though the list is from a later snapshot than its own |
| Interleaving.CommitIsCompleteExactly | storage/badger.go:218-245 | afterwards the user has no live miner exactly when none it owned at the commit was written after the list |
| Interleaving.EveryInterleaving | storage/badger.go:193-274 | all of this, for every run of events from every database |
| Interleaving.FailsExactly | storage/badger.go:193-274 | in every run from every database, its next step fails exactly if a listed miner is not in its snapshot, a binding walked was deleted meanwhile, a nested binding was written since that transaction began, or the user or a listed miner was written before the commit |
| Interleaving.PhantomMiner | storage/badger.go:384-427 | from every store in which a live user has no bindings, an UpsertMiner committed after the list escapes |
| Interleaving.PhantomSigner | storage/badger.go:493-532 | likewise a RegisterSigner committed after the walk |
| InterruptedCascade.StoppedAnywhere | storage/badger.go:193-274 | stopped before its commit only bindings of the user are tombstoned, from the commit on the cascade is complete, and running again ends as one whole run would |
| InterruptedCascade.CommitsInTheEnd | storage/badger.go:193-274 | left alone it commits, after a number of steps fixed by the user's bindings |
| Migration.V1WellFiled | storage/badger_helper.go:186-235 | version 1 files every record under its own key exactly when the legacy texts are canonical |
| Migration.NonCanonicalMisfiles | storage/badger_helper.go:210-227 | on mainnet a text with the letter of the test network ends up under the wrong key |
| Migration.MigratedRow | storage/store_migration.go:9-33 | from any version, every row but those of miners and the version is unchanged, and a miner keeps its owner or gets a recorded user |
| Migration.MigratedWellFiled | storage/store_migration.go:9-33 | a migrated store is well filed exactly when it did not start at version 0 with a text that is not canonical |
| Migration.MigratedMinersOnce | storage/badger_helper.go:186-271 | it records each miner once under the same condition; otherwise some miner has two records |
| Migration.MigratedCarries | storage/store_migration.go:9-33 | from any version, with any texts and over any keys, every record but those of miners and the version is unchanged, none disappears, and a miner's owner was the owner of a miner or the name of a user before |
| Migration.MigratedFromZero | storage/store_migration.go:9-33 | from version 0 the last claimant in key order owns each miner, every miner opens mining, and all other rows are unchanged |
| Migration.MigratedFromOne | storage/store_migration.go:9-33 | from version 1 every miner's openMining becomes true and nothing else of it changes; all other rows but the version stay, and the version is 3 |
| Migration.MigratedFromLater | storage/store_migration.go:9-33 | from version 2 every row but the version stays; from 3 and above nothing changes |
| Migration.VersionFound | storage/badger_helper.go:174-184 | the version is the one recorded, and 0 without a record |
| Migration.MigratedOpensAll | storage/badger_helper.go:237-271 | from version 0 or 1 every record of a miner opens mining, misfiled ones included, exactly when the start was not version 0 with a text that is not canonical |
| Migration.LastClaimantUnique | storage/badger_helper.go:210-227 | the last claimant is determined |
| Permissions.PermissionChain | core/const.go:28-55 | a caller passes exactly the checks for valid permissions that do not outrank the one it holds, and HasPerm agrees with permCheck |
| Permissions.PermCheckExact | auth/jwt.go:741-754 | a check passes exactly for a permission in the caller's list; a caller without a list passes none and is told so, while HasPerm alone falls back on its defaults |
| Base64Url.DecodeEncode | util/jwt.go:9-16 | decoding the unpadded base64url of any byte string gives it back with no byte added |
| Base64Url.Alphabet | util/jwt.go:9-16 | each value has the character of RFC 4648 section 5, and no other character decodes to it |
| Base64Url.EncodeSpells | util/jwt.go:9-16 | a text spells, three bytes at a time and most significant digit first, the number the bytes form; missing bytes count as zero and are not spelled |
| Base64Url.DecodeAccepts | util/jwt.go:9-16 | a text without line breaks is decodable exactly if all of it is of the alphabet and its length is not 1 modulo 4 |
| Base64Url.LineBreaksSkipped | util/jwt.go:9-16 | a line break anywhere changes neither what is decoded nor whether it can be |
| Base64Url.TrailingZeros | util/jwt.go:9-16 | in general there are no trailing zeros exactly when the skipped characters do not change the buffer's size |
| Base64Url.LineFeedsLeaveZeros | auth/jwt.go:697-704 | two line feeds behind an encoded text are accepted and make the result too long |
| Jwt.SignParts | auth/jwt.go:706-734 | a signed token splits at its dots into header, payload and signature |
| Jwt.SignDecodes | auth/jwt.go:706-734 | both decoders give back the payload a token was signed from, and its signature holds under its secret |
| Jwt.SplitJoins | auth/jwt.go:721-734 | splitting cuts at every dot and nowhere else |
| Jwt.DecodesSecondPart | auth/jwt.go:721-734 | the second part of a text is decoded, whatever stands around it |
| Jwt.SignatureExact | auth/jwt.go:208-220 | a signature holds exactly if the first part is a JOSE header and the third the code of the first two under the secret |
| Jwt.SignatureParts | auth/jwt.go:208-220 | only texts of three parts have a valid signature |
| Jwt.OtherSecret | auth/jwt.go:152-220 | a signed token verifies under another secret only if that gives the same code |
| Jwt.DecodersAgree | util/jwt.go:18-31 | on any text the two decoders agree, except that the second panics exactly when there is no dot |
| OAuthService.JwtOAuth.CountTokens | auth/jwt.go:96-112 | the count over the listed tokens is, for each permission, the number of live tokens |
| OAuthService.JwtOAuth.constructor | auth/jwt.go:89-112 | the service opens and migrates a store of any version and with any legacy texts and starts with an exact token gauge |
| OAuthService.JwtOAuth.GenerateToken | auth/jwt.go:138-180 | admins only, for a live user; stores a signed token and counts it unless it is already live |
| OAuthService.JwtOAuth.Verify | auth/jwt.go:182-223 | decodes, then checks the read permission, the store, the header and the signature, in that order |
| OAuthService.JwtOAuth.RemoveToken | auth/jwt.go:301-315 | admins, or the name in the token's payload; the gauge of the payload's permission goes down |
| OAuthService.JwtOAuth.RecoverToken | auth/jwt.go:317-331 | the same checks; the gauge goes up |
| OAuthService.JwtOAuth.CreateUser | auth/jwt.go:333-364 | refuses a live name, overwrites a tombstoned one |
| OAuthService.JwtOAuth.UpdateUser | auth/jwt.go:369-387 | changes the given fields of a live user |
| OAuthService.JwtOAuth.DeleteUser | auth/jwt.go:420-428 | admins only, the store's cascade |
| OAuthService.JwtOAuth.UpsertMiner | auth/jwt.go:518-530 | admins only, ID addresses only |
| OAuthService.JwtOAuth.DelMiner | auth/jwt.go:582-590 | admins, or the owner of the live miner |
| OAuthService.JwtOAuth.ListMiners | auth/jwt.go:558-580 | for admins and the user itself, the user's live miners with their fields, in key order; fails exactly if one of them has no openMining |
| OAuthService.JwtOAuth.RegisterSigners | auth/jwt.go:592-610 | goes through the list and stops at the first error, keeping what it did |
| OAuthService.JwtOAuth.UnregisterSigners | auth/jwt.go:651-669 | the same |
| OAuthService.JwtOAuth.DelSigner | auth/jwt.go:685-695 | admins, or a holder of the address; deletes the bindings of everybody |
| Service.LoopStops | auth/jwt.go:598-607 | nothing happens after the first error |
| ServiceContracts.GateExact | auth/jwt.go:741-835 | a changing call is denied exactly to callers who neither hold admin nor own the token, miner or address concerned; then nothing changes, and the error is the one for what is missing |
| ServiceContracts.NobodyDoesNothing | auth/jwt.go:741-745 | a caller with neither permissions nor a name is denied every changing call and Verify, and changes nothing |
| ServiceContracts.GenerateExact | auth/jwt.go:138-180 | for an admin it succeeds exactly for a usable user; the token is then stored with the fields given and counted, unless it is there already; no other row changes |
| ServiceContracts.GeneratedVerifies | auth/jwt.go:138-223 | a token just generated verifies for every reader with the payload it was asked for |
| ServiceContracts.VerifyExact | auth/jwt.go:182-223 | accepts exactly a decodable text, a caller with read, a usable stored token and a signature under its secret; the first that is missing decides the error |
| ServiceContracts.RemoveExact | auth/jwt.go:301-315 | succeeds exactly for a usable token, which is flagged and taken off the gauge of its own permission; no other row changes |
| ServiceContracts.RecoverExact | auth/jwt.go:317-331 | succeeds exactly for a recorded token whose flag is set, which is cleared and counted again |
| ServiceContracts.CreateUserExact | auth/jwt.go:333-367 | for an admin it succeeds exactly for a name not in use; the user is then usable with the fields given and no other row changes |
| ServiceContracts.UpdateUserExact | auth/jwt.go:369-387 | for an admin it succeeds exactly for a usable user, who stays usable, with the fields given changed, the others kept, and no other row changed |
| ServiceContracts.DropUserExact | auth/jwt.go:420-431 | succeeds exactly for a usable user; flagged or dated are that user and its usable miners and bindings, every other row is as it was |
| ServiceContracts.RecoverUserExact | auth/jwt.go:433-444 | succeeds exactly for a recorded user whose flag is set, which is cleared; no other row changes |
| ServiceContracts.PutLimitExact | auth/jwt.go:500-507 | the limit is there under its id, the user's other limits and all other rows are as they were |
| ServiceContracts.DropLimitExact | auth/jwt.go:509-516 | fails exactly for an empty argument or a user without limits; an absent id changes nothing, a present one drops the row |
| ServiceContracts.BindMinerExact | auth/jwt.go:518-530 | succeeds exactly for an ID address and a recorded user; the miner is then usable and the user's, with the time of creation it had, and no other row changes |
| ServiceContracts.DropMinerExact | auth/jwt.go:582-590 | an unrecorded miner is passed over, a deleted one is an error, a usable one gets its time of deletion and changes in nothing else |
| ServiceContracts.LoopTouches | auth/jwt.go:598-607 | no row but the bindings of the addresses so far changes, whether or not an error occurred, and none disappears |
| ServiceContracts.RegisterLoop | auth/jwt.go:592-610 | registering n addresses succeeds exactly if all are of a signer's protocol and the user is recorded; then the user holds all n, and bindings recorded before keep their time of creation |
| ServiceContracts.RegisteredRow | auth/jwt.go:602-606 | each binding registered carries the time of its last turn and no time of deletion |
| ServiceContracts.UnregisterLoop | auth/jwt.go:651-669 | unregistering n addresses succeeds exactly if each is of a signer's protocol and is unrecorded, or usable and listed once; then the user holds none of the n |
| ServiceContracts.UnregisteredRow | auth/jwt.go:661-665 | each binding unregistered keeps its record and gets its time of deletion |
| ServiceContracts.LoopFailsAt | auth/jwt.go:598-607 | a failing list has done exactly what the addresses before one of them ask for, and that one explains the error |
| ServiceContracts.RegistersExact | auth/jwt.go:592-610 | so an admin's call binds every address of the list to the user, changing no other row |
| ServiceContracts.UnregistersExact | auth/jwt.go:651-669 | so an admin's call leaves no address of the list bound to the user, changing no other row |
| ServiceContracts.DropSignerExact | auth/jwt.go:685-695 | exactly the usable bindings whose address starts with the one given get their time of deletion |
| ServiceContracts.UserPermExact | auth/jwt.go:756-771 | passes exactly for admins and for the user itself |
| ServiceContracts.RunListable | auth/jwt.go:570-578 | runs in which every bind request carries openMining keep every user's miners listable |
| ServiceContracts.NilMinerUnlistable | auth/jwt.go:518-580 | an accepted bind request without it leaves its user a miner on which ListMiners fails |
| ServiceTheorems.StepSigned | auth/jwt.go:152-173 | every call keeps each stored token the signature of its own fields under its own secret |
| ServiceTheorems.StoredDecodes | auth/jwt.go:312-313 | a stored token decodes to the fields stored beside it, so the gauge moves the right category |
| ServiceTheorems.GaugeConserved | auth/jwt.go:301-331 | after every run by any callers, the gauge of each permission is the number of live tokens with it |
| ServiceTheorems.TokenHistory | auth/jwt.go:138-180 | after every run a token is live exactly when its last event was not a removal |
| ServiceTheorems.VerifyFollowsHistory | auth/jwt.go:182-223 | Verify accepts for a reader exactly then, and returns the one payload the token can have been signed from |
| ServiceTheorems.AccessFrame | auth/jwt.go:741-835 | a run by a caller who is not an admin changes no user, no rate limit, no token of another name, no miner it did not own, and no binding its own bindings did not reach |
| ServiceContracts.AccessFrameExact | auth/jwt.go:741-835 | and that frame is exact: some run by a caller of that name who is not an admin changes a row if and only if it is a token of that name, a usable miner it owns, or a binding its own reach |
| ServiceTheorems.BindingFrameExact | auth/jwt.go:685-695 | some such run changes a binding if and only if a live binding of the caller reaches it |
| ServiceTheorems.RemovesAnothersAddress | auth/jwt.go:685-695 | a caller bound only to the shorter of two addresses removes another user's binding of the longer one in one call |
| ServiceTheorems.PrefixFreeExposure | auth/jwt.go:685-695 | if no bound address is a proper prefix of another, that means the caller holds the same address |
| ServiceTheorems.StepIsOps | auth/jwt.go:78-81 | what a call does to the tables, a sequence of store operations does |
| ServiceTheorems.ServiceReferential | auth/jwt.go:78-81 | every binding keeps naming a recorded user over all runs of the service |
| ServiceTheorems.FromEmpty | auth/jwt.go:89-136 | all these invariants hold after every run from the empty store |
| ServiceTheorems.FromMigrated | auth/jwt.go:89-112 | opening a store of any version, with any legacy texts, keeps tokens signed and bindings naming recorded users; if it migrated well filed, all these invariants hold after every run from there |

## Left out

- The MySQL store (storage/mysql.go): its queries go through a library that is not part of this model.
- HTTP routes, the command line, the clients, configuration, logging, metrics export and tracing.
- The user gauge, set when the service starts and moved by CreateUser, DeleteUser and RecoverUser: it is initialised from one user and always adjusts the disabled state.
- ServiceTheorems.FromMigrated: the runs it speaks of start from a store that migrated well filed, because what the store's methods promise about miners starts from well-filed keys; MigratedWellFiled says exactly which stores those are, and MigratedMinersOnce what is wrong with the others.
- Operations that read in one transaction and write in another (Recover, RecoverUser, PutRateLimit, DelRateLimit, DelSigner, and the service calls above them): their contracts are those of a caller alone; Serializable covers each of their transactions by itself.
- Read-only service calls other than Verify and ListMiners: each is a permission check in front of a store method modelled here.
- Errors of the operating system, of random sources and of JSON coding of the service's own values, and badger's limits on the size of a transaction.
- A stored token whose payload is not JSON: RemoveToken would use the partly decoded permission; the model stops with an error there, and StepSigned shows that no such token is stored.
- Hexadecimal coding of secrets, and the ID fields of miner and signer records, which the badger store leaves at zero.
- 64-bit limits of skip, limit and versions: the counts compared stay below them for any real store.
- Interleavings of operations other than DeleteUser: CreateUser, PutRateLimit and the Recover calls read and write in separate transactions and are proved for sequential use only.
- The callback of walkThroughPrefix is the loop over the visited keys in each method; leaving that loop early stands for returning false.

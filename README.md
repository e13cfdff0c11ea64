# Key stores of keystore-db-js, modelled in Dafny

keystore-db-js persists an Awala node's trust material through three stores
over TypeORM repositories:

- the **certificate store** (`DBCertificateStore`): a table of certificate rows
  (generated id, subject private address, serialized certificate, expiry date,
  scope). A save always appends a row. The two reads filter by subject, scope and
  an inclusive expiry bound. `retrieveLatest` then picks the row with the
  greatest expiry.
- the **private key store** (`DBPrivateKeyStore`): one table keyed by key id.
  Each row has a type tag (node, initial session, subsequent session), the key
  serialization, and two nullable columns: a certificate and the digest of the
  recipient a subsequent session key is bound to.
- the **public key store** (`DBPublicKeyStore`): two tables keyed by peer id,
  one for peers' identity keys and one for their latest session key.

Each store is a Dafny `class` whose fields are its tables: a `seq` of rows for
certificates, and `map`s keyed by the primary key for the key stores. Saves
are methods that state the whole new table. Reads are functions with contracts.
Each operation's behaviour is also stated and proved on pure functions over the
table value (`SelectRows`, `LatestRow`, `Unexpired`, `SavedRow`, `RowData`,
`SessionRow`, `SessionData`). A few client methods run concrete scenarios
through the stores' operations; each row names the test expectations or the
source lines it checks.

Modelling choices:

- Time is an integer number of milliseconds. The current time is an explicit
  `now` argument, where the source calls `new Date()`.
- Blobs (keys, certificates) are opaque `seq<bv8>`.
- The repository is modelled as follows:
  - `create` + `save` is an upsert on the primary key. For the certificate
    table, whose id is generated, it is an append.
  - When `save` updates an existing row, it writes only the columns the new
    entity defines. So a private key saved over an existing id of another type
    keeps the stale optional column (`SavedRow`).
  - `find`/`findOne` is a conjunctive filter.
- The `!!` assertions of `fetchKey` and `fetchNodeCertificates` become the
  store invariant `Valid()`: every row carries the optional column its type
  needs (`WellFormed`). `saveKey` establishes it for every row it writes.
- Four facts about the code the model keeps as written:
  - Both certificate reads use `MoreThanOrEqual`, so a certificate expiring
    exactly at `now` is still returned.
  - `deleteExpired` removes nothing (see Findings).
  - Certificate rows are looked up by subject and PDA/CDA scope only. The table
    has no issuer column.
  - Private key rows have no column for the node that owns them, so no read
    checks an owner.

## Model

| member | source | states |
|---|---|---|
| `CertificateStore.ConvertScopeFromAwala` | src/lib/DBCertificateStore.ts:76-78 | PDA is stored as PDA and every other scope as CDA (both directions) |
| `CertificateStore.ConvertScopeFromAwalaInjective` | src/lib/DBCertificateStore.ts:76-78 | two scopes are stored alike exactly when they are the same scope, so a query by one scope never matches rows of the other |
| `CertificateStore.SelectRows` | src/lib/DBCertificateStore.ts:60-64 | the find filter keeps each row of matching subject, matching scope and expiry >= now, with its multiplicity, and drops every other row |
| `CertificateStore.LatestRow` | src/lib/DBCertificateStore.ts:42-52 | the ordered findOne gives None exactly when no row matches. Otherwise it gives a matching row, present in the table, whose expiry is >= that of every matching row |
| `CertificateStore.LatestRowAmongSelected` | src/lib/DBCertificateStore.ts:38-66 | the latest row is absent exactly when the selection is empty, and otherwise is an element of it |
| `CertificateStore.SelectRowsAppend` | src/lib/DBCertificateStore.spec.ts:186-203 | after a save, the selection is the old selection plus the new row exactly when the new row matches |
| `CertificateStore.LatestRowAppend` | src/lib/DBCertificateStore.ts:46-52 | after a save, the latest row is the new row if it matches and expires strictly later than the old latest, else the old latest. On an equal expiry this follows the model's tie rule (see Left out) |
| `CertificateStore.LatestRowIgnoresOlderSave` | src/lib/DBCertificateStore.spec.ts:135-150 | saving a certificate that expires before the current latest one leaves the latest unchanged, whatever the save order. The lemma also covers an equal expiry, where it follows the model's tie rule (see Left out) |
| `CertificateStore.LatestRowAfterNewerSave` | src/lib/DBCertificateStore.spec.ts:124-150 | saving a matching certificate that expires after every matching one makes it the latest |
| `CertificateStore.UnselectedSaveInvisible` | src/lib/DBCertificateStore.spec.ts:108-114 | a row of another subject or another scope changes neither read |
| `CertificateStore.Unexpired` | src/lib/DBCertificateStore.spec.ts:206-222 | the sweep the tests expect keeps each row with expiry >= now, with its multiplicity, and no other row |
| `CertificateStore.UnexpiredAppend` | src/lib/DBCertificateStore.spec.ts:206-222 | sweeping a table with one more row keeps that row exactly when it has not expired |
| `CertificateStore.SweepPreservesSelection` | src/lib/DBCertificateStore.spec.ts:216-222 | sweeping at now does not change what retrieveAll returns at now |
| `CertificateStore.SweepPreservesLatest` | src/lib/DBCertificateStore.spec.ts:216-222 | sweeping at now does not change what retrieveLatest returns at now |
| `CertificateStore.SelectionHasNoDuplicates` | src/lib/entities/Certificate.ts:12-13 | with generated ids increasing, each selected row occurs exactly once in the selection |
| `CertificateStore.OccursOnce` | src/lib/entities/Certificate.ts:12-13 | each row of a table with increasing ids occurs exactly once |
| `CertificateStore.UnexpiredKeepsIds` | src/lib/entities/Certificate.ts:12-13 | a sweep keeps the ids of the remaining rows increasing |
| `CertificateStore.DBCertificateStore.SaveData` | src/lib/DBCertificateStore.ts:23-36 | appends exactly one row: the next id, subject, serialization, expiry and converted scope. The id counter moves on by one. Every existing row is unchanged and nothing is deduplicated |
| `CertificateStore.DBCertificateStore.RetrieveLatestSerialization` | src/lib/DBCertificateStore.ts:38-54 | None exactly when no row matches subject, scope and expiry >= now. Otherwise, the serialization of a matching row whose expiry is maximal among the matching rows |
| `CertificateStore.DBCertificateStore.RetrieveAllSerializations` | src/lib/DBCertificateStore.ts:56-66 | one serialization per matching row, with multiplicity: the multiset of results is that of the matching rows' serializations. A serialization is returned exactly when some matching row holds it |
| `CertificateStore.Serializations` | src/lib/DBCertificateStore.ts:65 | the `.map` over the found records: one serialization per row, the i-th being the i-th row's |
| `CertificateStore.RetrieveLatestAmongAll` | src/lib/DBCertificateStore.ts:38-66 | retrieveLatest is null exactly when retrieveAll is empty, and otherwise returns one of retrieveAll's results |
| `CertificateStore.DBCertificateStore.DeleteExpired` | src/lib/DBCertificateStore.ts:19-21 | as written, the table and the id counter are unchanged |
| `CertificateStore.DBCertificateStore.SweepExpired` | src/lib/DBCertificateStore.spec.ts:206-222 | corrected sweep: the table becomes its unexpired rows at now, and the id counter is unchanged |
| `CertificateStore.ExpiredRowOutlivesDeleteExpired` | src/lib/DBCertificateStore.ts:19-21 | a certificate expired one second before now is still stored after deleteExpired |
| `CertificateStore.ExpiredRowRemovedBySweepExpired` | src/lib/DBCertificateStore.spec.ts:207-214 | after the corrected sweep, that same table is empty |
| `CertificateStore.TwoCertificatesScenario` | src/lib/DBCertificateStore.spec.ts:186-203 | with two valid certificates saved, the second expiring 3 seconds after the first, retrieveAll returns two results, both certificates among them, as the test expects. retrieveLatest then returns the later-expiring one; the test does not read the latest, and spec.ts:135-150 asserts it only with the later certificate saved first |
| `CertificateStore.TwoCertificatesSweepScenario` | src/lib/DBCertificateStore.spec.ts:207-222 | combines the two deleteExpired expectations (expired rows go, at spec.ts:207-214, and valid rows stay, at spec.ts:216-222) in one table: after a sweep between the two certificates' expiries, retrieveAll returns only the second |
| `PrivateKeyStore.SavedRow` | src/lib/DBPrivateKeyStore.ts:46-56 | the row saveKey leaves is well-formed and holds the data's key, type and the optional column that type carries. The column the data leaves undefined keeps its stored value, or is null on a new row |
| `PrivateKeyStore.RowData` | src/lib/DBPrivateKeyStore.ts:32-43 | a subsequent session row reads back as key, recipient digest and that type. Any other row reads back as certificate, key and its stored type |
| `PrivateKeyStore.SavedRowRoundTrip` | src/lib/DBPrivateKeyStore.spec.ts:49-85 | reading back the row saved from some data gives exactly that data, whatever row was there before |
| `PrivateKeyStore.RowDataRoundTrip` | src/lib/DBPrivateKeyStore.ts:28-56 | saving what a fresh well-formed row reads back as recreates that row |
| `PrivateKeyStore.NodeCertificatesAfterUpsert` | src/lib/DBPrivateKeyStore.spec.ts:164-203 | an upsert adds or replaces the certificate of its id when the row is a node key, and removes its id otherwise |
| `PrivateKeyStore.DBPrivateKeyStore.SaveKey` | src/lib/DBPrivateKeyStore.ts:46-56 | leaves one row under the key id and no other id changes. fetchKey of that id then returns the saved data, and the node certificates change only at that id |
| `PrivateKeyStore.DBPrivateKeyStore.FetchKey` | src/lib/DBPrivateKeyStore.ts:27-44 | None exactly when the id is absent. Otherwise, the stored key and type, plus the recipient digest for a subsequent session key or else the certificate |
| `PrivateKeyStore.DBPrivateKeyStore.FetchNodeCertificates` | src/lib/DBPrivateKeyStore.ts:19-25 | the certificates of exactly the node-type rows, by key id; session rows of both kinds are excluded |
| `PrivateKeyStore.NoNodeCertificatesWhenEmpty` | src/lib/DBPrivateKeyStore.spec.ts:165-169 | an empty store has no node certificates |
| `PrivateKeyStore.DBPrivateKeyStore.FetchSessionKey` | src/lib/DBPrivateKeyStore.spec.ts:70-110 | it fails with a missing-key error exactly when the id is absent. It fails with a binding error naming the bound and the requested peer exactly when a subsequent key is bound to another peer. Every error carries the requested key id. It succeeds exactly when the key is a session key that is unbound or bound to the requested peer, and then returns the stored key |
| `PrivateKeyStore.SubsequentSessionKeyBinding` | src/lib/DBPrivateKeyStore.spec.ts:70-104 | a subsequent session key is returned to its own peer. Any other peer gets the binding error carrying both peers, whose message is the text the test expects |
| `PrivateKeyStore.InitialSessionKeyUnbound` | src/lib/DBPrivateKeyStore.spec.ts:60-68 | an initial session key, which the test fetches without naming a peer, is returned to every peer that asks for it through the session key lookup. That it is unbound is this model's choice (see Left out) |
| `PublicKeyStore.SessionRow` | src/lib/DBPublicKeyStore.ts:38-43 | the row a session save writes reads back as the saved data |
| `PublicKeyStore.SessionData` | src/lib/DBPublicKeyStore.ts:52-56 | the retrieved data carries the row's creation date, serialization and id |
| `PublicKeyStore.SessionRowRoundTrip` | src/lib/DBPublicKeyStore.ts:34-59 | rows and session key data correspond one to one |
| `PublicKeyStore.DBPublicKeyStore.SaveIdentityKeySerialized` | src/lib/DBPublicKeyStore.ts:15-24 | an upsert by peer id: one row per peer, holding the new serialization. Other peers and the session table are unchanged |
| `PublicKeyStore.DBPublicKeyStore.RetrieveIdentityKeySerialized` | src/lib/DBPublicKeyStore.ts:26-32 | None exactly when no identity key was saved for the peer; otherwise the stored serialization |
| `PublicKeyStore.DBPublicKeyStore.SaveSessionKeyData` | src/lib/DBPublicKeyStore.ts:34-45 | unconditionally replaces id, serialization and creation date of the peer's row. Retrieving right after returns the saved data. Other peers and the identity table are unchanged |
| `PublicKeyStore.DBPublicKeyStore.RetrieveSessionKeyData` | src/lib/DBPublicKeyStore.ts:47-59 | None exactly when no session key was saved for the peer; otherwise the data of the stored row |
| `PublicKeyStore.OlderSessionKeyOverwritesNewer` | src/lib/DBPublicKeyStore.ts:34-45 | a session key created earlier but saved later replaces the newer one: the store does not order by creation time |

## Left out

- TypeORM itself (connections, `Repository`, `MoreThanOrEqual`), the async/Promise structure, and the test database setup. These are a foreign library and I/O. Each table is a Dafny field instead.
- `sqlDateFormat`. It formats dates to UTC strings so that SQLite compares them; here timestamps are compared as integers. It cannot be modelled without the date library.
- The combination of `findOne`'s first argument with its `where` option in `retrieveLatestSerialization` is taken to be a conjunction. How TypeORM merges the two is library behaviour and is not part of this model. The repository uses the TypeORM 0.2 API (`createConnection`). If that version's `findOne` lets the first argument replace the `where` option, the query filters by subject only and can return an expired certificate or one of the other scope. This has not been checked against TypeORM. The tests do not settle the question. src/lib/DBCertificateStore.spec.ts:107-114 stores an expired CDA certificate and queries PDA. Under the subject-only reading, `retrieveLatestSerialization` would return that row's serialization. The test would then see null only if relaynet-core's `save` or `retrieveLatest`, which are not part of this model, drop expired certificates.
- DER serialization, `bufferToArray`, `Certificate.deserialize` and key generation. These are foreign crypto calls, so blobs are opaque bytes.
- `PrivateKeyStore.DBPrivateKeyStore.FetchNodeCertificates`: returns the serialized certificates keyed by key id. The source returns deserialized `Certificate`s in database order. The order is the engine's and deserialization is foreign.
- `CertificateStore.DBCertificateStore.RetrieveAllSerializations`: does not promise an order, only the results with their multiplicity. The model returns table order, and the source's order is the engine's. `CertificateStore.TwoCertificatesScenario` does not promise an order either.
- `CertificateStore.DBCertificateStore.RetrieveLatestSerialization`: among rows with equal greatest expiry, it promises only that one of them is returned. The source orders by expiry and takes one row, so it leaves ties to the engine.
- `CertificateStore.LatestRow`, `CertificateStore.LatestRowAppend` and `CertificateStore.LatestRowIgnoresOlderSave`: on a tie they follow the model's own rule, which keeps the first such row in table order. The source does not promise this. These members' other cases hold under any tie rule.
- The relaynet-core base classes (`CertificateStore`, `PrivateKeyStore`, `PublicKeyStore`) are not part of this model. `FetchSessionKey` is modelled on this repository's tests, and where they are silent on the model's own choices:
  - the wrong-recipient error, with its message, comes from src/lib/DBPrivateKeyStore.spec.ts:70-104;
  - the missing-key error is extended from src/lib/DBPrivateKeyStore.spec.ts:106-110, which exercises `fetchNodeKey` and not the session key lookup;
  - an initial session key being returned to every peer is this model's choice: src/lib/DBPrivateKeyStore.spec.ts:60-68 fetches it through `fetchInitialSessionKey`, which takes no peer, and no test passes one through the session key lookup;
  - returning a node key's lookup as `NotASessionKey` is this model's choice, as the base class is not visible;
  - key-id hex encoding is not modelled, and key ids arrive as strings.
- The private key entity's `creationDate` column is not modelled. It is filled by the database and `saveKey` does not write it.
- The entity files are used only for primary keys and the generated certificate id.
- Concurrent saves are not modelled: the source does no locking, so the model is sequential.

## Findings

| source | as written | input that shows it | evidently intended | confidence | as-written member | corrected member |
|---|---|---|---|---|---|---|
| src/lib/DBCertificateStore.ts:19-21 | `deleteExpired` resolves without touching the repository | a table holding one certificate whose expiry is one second before now | expired certificates are deleted and valid ones kept, as src/lib/DBCertificateStore.spec.ts:206-222 expect | not executed; src/lib/DBCertificateStore.spec.ts asserts the deletion, which shows the intent. The test stores its expired certificates through relaynet-core's `save`, which is not part of this model, so it catches the no-op only if that `save` stores already-expired certificates. The claim about deleteExpired's own body does not depend on this | `CertificateStore.ExpiredRowOutlivesDeleteExpired` (over `CertificateStore.DBCertificateStore.DeleteExpired`) | `CertificateStore.DBCertificateStore.SweepExpired` with `CertificateStore.SweepPreservesSelection`, `CertificateStore.SweepPreservesLatest` and `CertificateStore.ExpiredRowRemovedBySweepExpired` |

The corrected sweep removes rows whose expiry is before `now`. It keeps a row
that expires exactly at `now`, because the code's reads still return that row.
A sweep at `now` that removed it would change what the reads return.

# Verified model of the recrypt proxy-recryption system

This project models the parts of recrypt that carry proof obligations and proves what they promise:

- **Keyspace history** (`KeyspaceCodec`, `KeyspaceHistory`, `KeyspaceMemory`, `KeyspaceSqlite`). The canonical
  encoding of keyspace documents is uniquely decodable; the hash of the latest document commits to the whole
  history; the four maps of the in-memory store and the three tables of the SQLite store tell the same history
  over every run.
- **Delegation chains** (`CapabilityEnvelope`, `CapabilityChain`, `CapabilityElision`). The walk from a leaf capability to its root
  is sound and complete against a declarative notion of chain, with attenuation between any two places,
  composition, monotonicity and when exactly it gives up. Envelopes carry their Merkle digest and may be
  elided: a leaf commits to the whole chain when bundled parents show all their assertions, and to subject,
  kind, grantee and issuer whatever they hide. Against what issuers signed, permissions always hold; an expiry
  holds if and only if it is shown, and the last element was signed as a root if and only if it hides no parent.
- **Hybrid encryption and proxy recryption** (`PreKeys`, `KeyMaterial`, `StreamCipher`, `MockPre`, `Hybrid`,
  `SlotPacking`, `LatticePre`). Byte codecs are bijections with what they accept; any chain of recryptions
  preserves meaning; streaming and range decryption agree with one-shot decryption for every split into leaves;
  slot packing modulo 65537 is exact.
- **Nonce replay window** (`Nonces`). Millisecond window, expiry in whole seconds and garbage collection
  together never let a nonce through twice.
- **Server steps** (`KeyspaceServer`, `KeyspaceServerSqlite`, `GrantCodec`, `GrantStores`, `Shares`). Handlers as
  atomic steps over the stores: who may change what over whole runs, the same answers over SQLite as over
  memory, and shares that decrypt end to end under both backends.
- **ASCII armor** (`Armor`, `Base64`, `Text`). Encoder and decoder with the exact condition under which they
  round-trip.

`Prelude`, `Bytes` and `Permissions` hold what the others share.

## How the model is shaped

- Code that changes state is a class or a method with loops (`InMemoryKeyspaceStore`, `SqliteKeyspaceStore`,
  `BundledResolver`, the nonce, grant and share stores, the servers, the cipher, every encoder that extends a
  buffer). Each is proved equal to a function of its inputs or old state; the theorems are about that function.
- Foreign primitives are parameters, so every theorem holds for all of them: the hash (`Hash`, and `Merkle` for
  envelopes), the keystream (`Keystream`), opening an envelope up to its inner one and both signature checks
  (`CapabilityChain.Context`), the wrapping backend (`Hybrid.Unwrap`, `Hybrid.WrapKey`), base58 (`Shares.Env`).
  Absence of hash collisions is never assumed of all inputs, only of the documents, grants, envelope parts or
  share texts a statement is about (`CollisionFree`, `MerkleFree`, `Distinguishes`, `NoClash`, `IdsDiffer`).
  Equal envelope digests are never taken to mean equal capabilities: an envelope and its elided forms share one.
- `DocHasher` and `GrantHasher` stand for any way to hash a document or grant; `CanonicalHasher` and
  `CanonicalGrantHasher` are the program's.
- Clocks, random keys and nonces are parameters.
- Machine integers are explicit: lengths are cut to 32 bits by `LittleEndian(n, 4)`, recryption levels wrap at
  256 and nonce arithmetic at 2^64 as in a release build, SQLite columns go through `AsI64`/`AsU64`.
- A slice or index out of bounds in the program is the error value `Panics`.

## Where code and documentation disagree

The model follows the code.

- `decrypt_range` documents a seek to the start of the range; it seeks to the start of each leaf and slices
  (crates/recrypt-core/src/hybrid/mod.rs:449-450 and 551-557). Nothing is lost: `Hybrid.DecryptRange`.
- Streaming decryption never compares the plaintext size, one-shot decryption does:
  `Hybrid.OneShotIsStreamingAndSize` says what that leaves, `Hybrid.StreamingIgnoresSize` shows a file only
  streaming accepts, and `Hybrid.RangesAreWholeExactly` when a range read may come out short.
- The header of crates/recrypt-storage-auth/src/capability.rs says delegation chains are not verified;
  crates/recrypt-storage-auth/src/capability_chain.rs verifies them.
- Chain verification promises that expiries never extend (crates/recrypt-storage-auth/src/capability_chain.rs:3-8),
  and docs/wire-protocol.md:688-704 lets any holder elide salted assertions without breaking signatures. An
  elided expiry reads as none and an elided parent as a root, as `CapabilityElision.ElidedExpiryIsNoExpiry` and
  `CapabilityElision.ElidedParentIsRoot` show. In any accepted chain a parent grants no more than its issuer
  signed if and only if it shows the signed expiry (`CapabilityElision.ParentHonoursExactly`); a shown one binds
  every descendant (`CapabilityElision.ShownExpiryBinds`), and what can be missed is the expiry alone
  (`CapabilityElision.SignedLinkExactly`, `CapabilityElision.PermissionsStayWithinSigned`). The last element was
  signed as a root if and only if it hides no signed parent (`CapabilityElision.RootIsSignedExactly`).
- A comment in crates/recrypt-core/src/pre/backends/lattice.rs:185 sums the key bundle as 32 + 24 + 32 + 8; the
  bundle is 1 + 32 + 24 + 32 + 7 bytes.
- `armor_decode` returns a result for malformed armor; when the END line comes before the BEGIN line it panics
  instead, and only then: `Armor.SwappedMarksPanic`, `Armor.PanicsExactly`.
- The server overrides `created_at` to keep identical grants from returning after a revocation
  (recrypt-server/src/routes/keyspaces.rs:330-333). Within one second it does not:
  `KeyspaceServer.ReissueReturns`, and `KeyspaceServer.ReissueRestoresExactly`: the same body restores the
  identifier if and only if it is issued in that second. `KeyspaceServer.ReturnsExactly` says over runs when a
  revoked grant is live again, and `KeyspaceServer.NeverReturnsLater` that it never is after that second. In the
  same case the two grant stores part ways: `GrantStores.ReissueDiffers` and `GrantStores.StoresAgreeExactly`,
  and over whole server runs `KeyspaceServerSqlite.ServersAgreeExactly`.
- The advertised expiry of a nonce is a whole second, its window ends at a millisecond inside that second:
  `Nonces.IssuedIsAdmitted` says exactly when it is still accepted.
- Canonical encodings are injective only while lengths fit their 32-bit prefixes: `Bytes.FrameExact`, with
  `KeyspaceCodec.OverlongFieldsCollide` as a concrete pair of documents.
- Used nonces are promised not to pass again. In memory that holds for every window (`Nonces.NoReplay`). In SQLite
  a valid nonce can pass again in some run if and only if its expiry does not fit a signed 64-bit column
  (`Nonces.ReplaysExactly`), which a configured window allows if and only if it is at least 2^63 - 60 seconds
  (`Nonces.UnsafeWindowsExactly`).
- The lattice backend refuses the empty plaintext: `LatticePre.EncryptAccepts`.

## Model

| member | source | states |
|---|---|---|
| Bytes.LittleEndianRead | crates/recrypt-storage-auth/src/keyspace.rs:224-227 | reading a written fixed-width integer yields it modulo the width, so lengths are truncated to 32 bits |
| Bytes.LittleEndianWrite | crates/recrypt-core/src/pre/keys.rs:135-181 | every byte string is the encoding of the integer read from it |
| Bytes.LittleEndianAt | crates/recrypt-storage-auth/src/keyspace.rs:224-227 | byte k of a written integer is its k-th digit in base 256, least significant first |
| Bytes.FrameUnique | crates/recrypt-storage-auth/src/keyspace.rs:224-227 | a length-prefixed field is determined, together with whatever follows it |
| Bytes.FrameExact | crates/recrypt-storage-auth/src/keyspace.rs:224-227 | among fields that fit their 32-bit length, none can be taken for this one, whatever follows, if and only if this one fits too |
| Bytes.WriteFrame | crates/recrypt-storage-auth/src/keyspace.rs:224-227 | appends exactly the frame of the field to the buffer |
| Bytes.Xor | crates/recrypt-core/src/pre/backends/mock.rs:43-60 | exclusive or of bytes cancels when applied twice |
| Bytes.XorBitAt | crates/recrypt-core/src/pre/backends/mock.rs:43-60 | a bit of the result is set exactly where the two bits differ |
| Permissions.ParseTag | crates/recrypt-storage-auth/src/keyspace.rs:169-189 | every permission's tag parses back to it |
| Permissions.ParseExactly | crates/recrypt-storage-auth/src/keyspace.rs:169-189 | a text is a permission if and only if its ASCII lowercase form is that permission's tag |
| Permissions.InOrderMembers | crates/recrypt-storage-auth/src/grant.rs:79-87 | sorted iteration lists each member of the set once and nothing else |
| Permissions.TagsInOrder | crates/recrypt-storage-auth/src/keyspace.rs:169-178 | the five tags, literally, in the order sets are iterated |
| Permissions.PermissionUnique | crates/recrypt-storage-auth/src/grant.rs:79-87 | one permission on the wire is uniquely decodable |
| Permissions.PermissionsUnique | crates/recrypt-storage-auth/src/grant.rs:79-87 | a permission set on the wire is uniquely decodable, whatever follows |
| Permissions.WritePermissions | crates/recrypt-storage-auth/src/grant.rs:79-87 | the loop appends exactly the encoding of the set |
| Permissions.CapsRoundTrip | crates/recrypt-storage-auth/src/sqlite/grant.rs:56-69 | splitting the joined permissions column yields the set that was written |
| Permissions.ColumnIsTags | crates/recrypt-storage-auth/src/sqlite/grant.rs:56-61 | cutting the written column at its commas gives the tags in order |
| Permissions.ColumnReadsExactly | crates/recrypt-storage-auth/src/sqlite/grant.rs:63-69 | reading any column keeps exactly what parses between its commas |
| Permissions.TagsParseBack | crates/recrypt-storage-auth/src/capability.rs:313-314 | parsing the list of tags of a permission set yields the set |
| KeyspaceCodec.EncodeRotationMode | crates/recrypt-storage-auth/src/keyspace.rs:229-254 | appends exactly the tagged encoding of the mode |
| KeyspaceCodec.EncodeDecryptionPolicy | crates/recrypt-storage-auth/src/keyspace.rs:256-270 | appends exactly the tagged encoding of the policy |
| KeyspaceCodec.CanonicalBytes | crates/recrypt-storage-auth/src/keyspace.rs:310-343 | writing field by field, with its loops, builds the layout the injectivity theorems are about |
| KeyspaceCodec.DocLayout | crates/recrypt-storage-auth/src/keyspace.rs:310-343 | the bytes of a document, field by field, down to separate counts and integer widths |
| KeyspaceCodec.MemberLayout | crates/recrypt-storage-auth/src/keyspace.rs:323-331 | the bytes of a member: fingerprint, counted permissions, policy, time and adder in this order |
| KeyspaceCodec.ModeTags | crates/recrypt-storage-auth/src/keyspace.rs:229-254 | the tag byte of every rotation mode and what follows it |
| KeyspaceCodec.PolicyTags | crates/recrypt-storage-auth/src/keyspace.rs:256-270 | the tag byte of every decryption policy and of optional hashes |
| KeyspaceCodec.ModeUnique | crates/recrypt-storage-auth/src/keyspace.rs:229-254 | rotation modes are uniquely decodable |
| KeyspaceCodec.MemberUnique | crates/recrypt-storage-auth/src/keyspace.rs:323-331 | members, with nested permission set and policy, are uniquely decodable |
| KeyspaceCodec.DocUnique | crates/recrypt-storage-auth/src/keyspace.rs:310-343 | canonical encodings are injective and prefix-free over all documents whose lengths fit 32 bits |
| KeyspaceCodec.HashDeterminesDoc | crates/recrypt-storage-auth/src/keyspace.rs:346-349 | without a collision, equal document hashes mean equal documents |
| KeyspaceCodec.OverlongFieldsCollide | crates/recrypt-storage-auth/src/keyspace.rs:224-227 | beyond 32-bit lengths injectivity fails: two documents with the same bytes |
| KeyspaceHistory.ValidateChainExact | crates/recrypt-storage-auth/src/keyspace_store.rs:48-104 | a document is accepted if and only if it is the next version and links to the tip; "already exists" exactly for a root of a non-empty keyspace |
| KeyspaceHistory.UnknownIsEmpty | crates/recrypt-storage-auth/src/keyspace_store.rs:48-104 | an unknown keyspace and one with no versions get the same outcome |
| KeyspaceHistory.PutKeepsSound | crates/recrypt-storage-auth/src/keyspace_store.rs:159-195 | every put keeps histories linked by version and parent hash |
| KeyspaceHistory.HistoriesGrow | crates/recrypt-storage-auth/src/keyspace_store.rs:159-195 | over any further puts a history only grows by appending |
| KeyspaceHistory.RunIsSound | crates/recrypt-storage-auth/src/keyspace_store.rs:159-195 | every run yields linked histories holding only documents that were put |
| KeyspaceHistory.CollisionFreeDistinguishes | crates/recrypt-storage-auth/src/keyspace.rs:346-349 | collision-free hashing of the canonical bytes tells fitting documents apart |
| KeyspaceHistory.AgreeBackwards | crates/recrypt-storage-auth/src/keyspace_store.rs:86-104 | agreement at one version carries back along the parent links |
| KeyspaceHistory.TipDeterminesHistory | crates/recrypt-storage-auth/src/keyspace_store.rs:48-104 | two linked histories with the same tip hash are the same |
| KeyspaceHistory.AcceptedIsNew | crates/recrypt-storage-auth/src/keyspace_store.rs:48-104 | an accepted document is not stored anywhere yet |
| KeyspaceMemory.InMemoryKeyspaceStore.Put | crates/recrypt-storage-auth/src/keyspace_store.rs:159-195 | the two loops over old and new members leave exactly the specified four maps, or reject without effect |
| KeyspaceMemory.PutReindexes | crates/recrypt-storage-auth/src/keyspace_store.rs:167-187 | after removal and re-adding, the index lists a keyspace for a fingerprint if and only if the latest document lists the fingerprint |
| KeyspaceMemory.PutKeepsByHash | crates/recrypt-storage-auth/src/keyspace_store.rs:159-195 | the document map gains exactly the new document under an unused hash |
| KeyspaceMemory.PutRepresents | crates/recrypt-storage-auth/src/keyspace_store.rs:159-195 | one put keeps all four maps in agreement with the abstract history and has its result |
| KeyspaceMemory.RunRepresents | crates/recrypt-storage-auth/src/keyspace_store.rs:134-195 | over every run the four maps agree |
| KeyspaceServer.LatestAgrees | crates/recrypt-storage-auth/src/keyspace_store.rs:197-204 | the latest document, looked up through two maps, is the tip of the history |
| KeyspaceMemory.LatestHashDeterminesStore | crates/recrypt-storage-auth/src/keyspace_store.rs:48-104 | two stores reporting the same latest hash have equal version lists and equal documents in them |
| KeyspaceMemory.TipCommitsToHistory | crates/recrypt-storage-auth/src/keyspace_store.rs:48-104 | the same for the program's hash, from collision-freeness on the canonical bytes alone |
| KeyspaceSqlite.SqliteKeyspaceStore.Put | crates/recrypt-storage-auth/src/sqlite/keyspace.rs:71-145 | one transaction over three tables, rolled back whole on a key conflict |
| KeyspaceSqlite.ListVersionsAgrees | crates/recrypt-storage-auth/src/sqlite/keyspace.rs:204-225 | the version query returns the history's hashes in order |
| KeyspaceSqlite.FindByHashExact | crates/recrypt-storage-auth/src/sqlite/keyspace.rs:179-202 | the hash lookup finds a row if and only if there is one |
| KeyspaceSqlite.VersionsAreListed | crates/recrypt-storage-auth/src/sqlite/keyspace.rs:204-225 | whatever the table holds, listing gives the hashes of exactly the rows of that keyspace, sorted by version |
| KeyspaceSqlite.LatestExactly | crates/recrypt-storage-auth/src/sqlite/keyspace.rs:147-177 | for any tables: the document of the row the summary names, nothing without a summary, an error if that row is missing |
| KeyspaceSqlite.InsertMembersRows | crates/recrypt-storage-auth/src/sqlite/keyspace.rs:129-136 | a listed member's row is the one of its last entry; other rows are untouched |
| KeyspaceSqlite.UpsertExactly | crates/recrypt-storage-auth/src/sqlite/keyspace.rs:106-118 | the summary row moves exactly to a greater version, and no other row moves |
| KeyspaceSqlite.ConflictRollsBack | crates/recrypt-storage-auth/src/sqlite/keyspace.rs:120-127 | a taken hash leaves all three tables as they were |
| KeyspaceSqlite.PutKeepsSpaces | crates/recrypt-storage-auth/src/sqlite/keyspace.rs:106-118 | the guarded upsert keeps the summary row at the tip |
| KeyspaceSqlite.TablesPutRepresents | crates/recrypt-storage-auth/src/sqlite/keyspace.rs:71-145 | one put keeps all three tables in step with the abstract history, with the same outcome |
| KeyspaceSqlite.TablesRunRepresents | crates/recrypt-storage-auth/src/sqlite/keyspace.rs:71-145 | over every run the tables tell the history |
| KeyspaceSqlite.QueriesAgree | crates/recrypt-storage-auth/src/sqlite/keyspace.rs:147-258 | stores that represent one history answer all four queries alike |
| KeyspaceSqlite.ListByMemberAgrees | crates/recrypt-storage-auth/src/sqlite/keyspace.rs:227-258 | joining member rows with the current version lists the same keyspaces as the in-memory index, as sets |
| KeyspaceSqlite.BackendsAgreeOnPut | crates/recrypt-storage-auth/src/sqlite/keyspace.rs:71-145 | after every run the next put has the same result, or error class, in both stores |
| KeyspaceSqlite.BackendsAgreeOnQueries | crates/recrypt-storage-auth/src/sqlite/keyspace.rs:147-258 | after every run both stores answer every query alike |
| GrantCodec.GrantCanonicalBytes | crates/recrypt-storage-auth/src/grant.rs:150-169 | writing field by field builds the grant layout |
| GrantCodec.GrantLayout | crates/recrypt-storage-auth/src/grant.rs:150-169 | the bytes of a grant, field by field; the signature is not among them |
| GrantCodec.GrantUnique | crates/recrypt-storage-auth/src/grant.rs:150-169 | encodings coincide if and only if all encoded fields do, no expiry and expiry 0 being one, whatever follows |
| GrantCodec.DomainsDisjoint | crates/recrypt-storage-auth/src/grant.rs:142-150 | no bytes read both as a document and as a grant |
| CapabilityEnvelope.ReadUndoesWrite | crates/recrypt-storage-auth/src/capability.rs:300-335 | what an issuer signs reads back as the capability, complete and with each field once |
| CapabilityEnvelope.ReadExactly | crates/recrypt-storage-auth/src/capability.rs:337-461 | which envelopes do not read, and what each field of one that reads is, from the assertions with its name that are shown |
| CapabilityEnvelope.ElisionKeepsDigest | docs/wire-protocol.md:686-690 | eliding an assertion or its object leaves the digest signatures cover alone |
| CapabilityEnvelope.DigestCommitsUpToElision | crates/recrypt-storage-auth/src/capability.rs:272-279 | without a collision, whatever has the digest of a complete envelope is that envelope with parts elided |
| CapabilityEnvelope.ElisionExact | crates/recrypt-storage-auth/src/capability.rs:402-461 | an elided form reads as what was signed if and only if it shows every field filled in; it never reads as more permissions, another identity, another expiry or another parent |
| CapabilityChain.PeekIsSafe | crates/recrypt-storage-auth/src/capability.rs:210-264 | looking keys up by the unverified issuer accepts exactly envelopes with valid signatures under their own issuer's registered keys |
| CapabilityChain.VerifyExactly | crates/recrypt-storage-auth/src/capability.rs:210-247 | accepts exactly an envelope that reads as the capability with a 64-byte Ed25519 signature and, if required or there, an ML-DSA one, each valid over the wrapped digest under the given keys |
| CapabilityChain.EnvelopeFailures | crates/recrypt-storage-auth/src/capability.rs:210-279 | which of its two errors verifying, peeking and digesting report, and when; peeking and digesting never fail on a signature alone |
| CapabilityChain.CheckLinkExact | crates/recrypt-storage-auth/src/capability_chain.rs:155-197 | the link checks pass if and only if the delegation relation holds |
| CapabilityChain.FaultsInOrder | crates/recrypt-storage-auth/src/capability_chain.rs:155-197 | each link fault is reported if and only if it is the first that applies |
| CapabilityChain.VerifyChain | crates/recrypt-storage-auth/src/capability_chain.rs:128-215 | for every resolver and every sequence of clock readings it terminates and returns a chain if and only if every signature and every link in it is in order, spelled out, within the depth |
| CapabilityChain.WalkSound | crates/recrypt-storage-auth/src/capability_chain.rs:139-214 | whatever the walk returns is an accepted chain within the depth |
| CapabilityChain.WalkComplete | crates/recrypt-storage-auth/src/capability_chain.rs:139-214 | every accepted chain within the depth is found |
| CapabilityChain.WalkExact | crates/recrypt-storage-auth/src/capability_chain.rs:139-214 | both directions together |
| CapabilityChain.ReturnedExactly | crates/recrypt-storage-auth/src/capability_chain.rs:128-215 | a chain is returned if and only if each element is the one its child names, signed under its own issuer's registered keys, each link is in order, the last names no parent, and it is no longer than allowed |
| CapabilityChain.TurnFailures | crates/recrypt-storage-auth/src/capability_chain.rs:139-214 | why one turn of the walk fails, in the order of its checks |
| CapabilityChain.TooDeepExact | crates/recrypt-storage-auth/src/capability_chain.rs:139-144 | "too deep" is reported if and only if max_depth elements are in order and a further parent resolves |
| CapabilityChain.ChainIsUnique | crates/recrypt-storage-auth/src/capability_chain.rs:139-214 | a leaf has at most one accepted chain |
| CapabilityChain.DeeperKeepsAcceptance | crates/recrypt-storage-auth/src/capability_chain.rs:100-116 | raising the depth keeps every acceptance and its chain |
| CapabilityChain.Attenuates | crates/recrypt-storage-auth/src/capability_chain.rs:155-197 | between any two places of the chain read, permissions shrink, subject stays, expiry does not grow, and every non-leaf permits Delegate and is unexpired when checked |
| CapabilityChain.Compose | crates/recrypt-storage-auth/src/capability_chain.rs:139-214 | a chain is accepted if and only if its leaf is authentic and delegated and the rest is accepted from the resolved parent |
| CapabilityChain.SuffixAccepted | crates/recrypt-storage-auth/src/capability_chain.rs:139-214 | every suffix of an accepted chain is accepted |
| CapabilityChain.MoreParentsKeepAcceptance | crates/recrypt-storage-auth/src/capability_chain.rs:55-96 | a resolver that knows more keeps every acceptance |
| CapabilityChain.BundledResolver.InsertWithDigest | crates/recrypt-storage-auth/src/capability_chain.rs:67-69 | files an envelope under a given digest; a fresh digest only extends the resolver |
| CapabilityChain.BundledResolver.InsertEnvelope | crates/recrypt-storage-auth/src/capability_chain.rs:72-76 | files an envelope under its own digest, keeping the binding |
| CapabilityChain.BundledResolver.FromEnvelopes | crates/recrypt-storage-auth/src/capability_chain.rs:79-89 | builds a bundle in which every digest is its envelope's own, or fails with the first error |
| CapabilityChain.BundleExactly | crates/recrypt-storage-auth/src/capability_chain.rs:79-89 | under each digest a bundle holds the last envelope given with that digest, and nothing else |
| CapabilityChain.BundleFailsExactly | crates/recrypt-storage-auth/src/capability_chain.rs:79-89 | bundling fails exactly if some envelope has no digest, with the first such envelope's error |
| CapabilityElision.ElidedVerifies | docs/wire-protocol.md:702-704 | an envelope with an assertion elided keeps its digest and verifies under the same keys, as whatever it still reads as |
| CapabilityElision.CompleteBundlesAgree | crates/recrypt-storage-auth/src/capability_chain.rs:128-215 | whoever bundles the parents, a leaf proves the same chain if the bundled envelopes show all their assertions and no digest collides |
| CapabilityElision.ElidedBundlesAgreeOnIdentity | crates/recrypt-storage-auth/src/capability_chain.rs:128-215 | however much two bundles elide, both chains of a leaf agree on subject, kind, grantee and issuer wherever both reach |
| CapabilityElision.BundlesAgreeExactly | crates/recrypt-storage-auth/src/capability_chain.rs:128-215 | of two accepted chains of one leaf, one from complete parents, the other is the same if and only if its bundle shows every field the issuers filled in; otherwise at most as long |
| CapabilityElision.PermissionsStayWithinSigned | crates/recrypt-storage-auth/src/capability_chain.rs:162-166 | no element has permissions beyond what any ancestor's issuer signed, elided or not |
| CapabilityElision.HonoursExactly | crates/recrypt-storage-auth/src/capability_chain.rs:155-197 | whatever a weakened parent delegates the signed one delegates too, if and only if it cannot delegate or shows the signed expiry |
| CapabilityElision.ParentHonoursExactly | crates/recrypt-storage-auth/src/capability_chain.rs:155-197 | at every place of an accepted chain, a parent grants no more than its issuer signed if and only if it shows the signed expiry |
| CapabilityElision.ShownExpiryBinds | crates/recrypt-storage-auth/src/capability_chain.rs:174-196 | where the signed expiry is shown it was not past when checked, and no descendant outlives it |
| CapabilityElision.SignedLinkExactly | crates/recrypt-storage-auth/src/capability_chain.rs:155-197 | each link held against what was signed is in order if and only if the child expires no later and the signed parent was unexpired |
| CapabilityElision.RootIsSignedExactly | crates/recrypt-storage-auth/src/capability_chain.rs:199-203 | the last element was signed as a root if and only if it hides no signed parent |
| CapabilityElision.ElidedExpiryIsNoExpiry | crates/recrypt-storage-auth/src/capability.rs:409-433 | concrete: complete, a root is accepted if and only if it is unexpired and outlives the leaf; with its expiry elided it always is, and reads as never expiring |
| CapabilityElision.FormsOfRootAreSigned | crates/recrypt-storage-auth/src/capability.rs:300-335 | the exact condition applies to that example: both forms were signed as one, and only the elided one fails to reveal it |
| CapabilityElision.ElidedParentIsRoot | crates/recrypt-storage-auth/src/capability.rs:440-447 | concrete: one leaf proves three links, and two when the middle one's parent is elided |
| Nonces.ParseDecimal | recrypt-server/src/nonces.rs:19-22 | the decimal text of any 64-bit number parses back to it |
| Nonces.ParseExactly | recrypt-server/src/nonces.rs:19-22 | parsing accepts exactly non-empty digit strings below 2^64, with or without a plus sign |
| Nonces.TimestampExactly | recrypt-server/src/nonces.rs:13-22 | a nonce has a timestamp if and only if it is a parseable number, one colon, and a rest without colons |
| Nonces.FormatExactly | recrypt-server/src/nonces.rs:13-45 | the window to the millisecond and the expiry to the second, with the skew and the wrap-around as numbers |
| Nonces.WindowIsExact | recrypt-server/src/nonces.rs:13-45 | with headroom for the server's clock, wrap-around never changes the window, whatever timestamp a client sends |
| Nonces.InMemoryNonceStore.MarkUsed | recrypt-server/src/nonces.rs:76-83 | claims a nonce at most once |
| Nonces.InMemoryNonceStore.GcExpired | recrypt-server/src/nonces.rs:85-91 | keeps exactly the entries not expired and counts the others |
| Nonces.InMemoryNonceStore.ValidateNonce | recrypt-server/src/middleware/nonce.rs:12-32 | the validate-then-claim step |
| Nonces.RequestExactly | recrypt-server/src/middleware/nonce.rs:12-32 | admitted exactly with a nonce that is valid and unused; what is refused claims nothing |
| Nonces.StoreExactly | recrypt-server/src/nonces.rs:76-91 | claiming and collecting touch exactly the entries they should |
| Nonces.SqliteNonceStore.MarkUsed | recrypt-server/src/nonces.rs:128-142 | the ignored insert's change count tells first use from replay |
| Nonces.SqliteNonceStore.GcExpired | recrypt-server/src/nonces.rs:144-153 | deletes exactly the expired rows and counts them |
| Nonces.ForgottenIsStale | recrypt-server/src/nonces.rs:13-92 | what the collector may drop is out of the window from then on, despite flooring to seconds and wrapping, for every window |
| Nonces.StaysBarred | recrypt-server/src/nonces.rs:13-92 | an admitted nonce stays remembered or stays out of its window |
| Nonces.NoReplay | recrypt-server/src/nonces.rs:13-92 | in every run of requests and collections under a non-decreasing clock, and for every window, no nonce is admitted twice |
| Nonces.RowsTrackMemory | recrypt-server/src/nonces.rs:128-153 | as long as expiries fit their signed column the SQLite table holds exactly the in-memory map |
| Nonces.NoReplayOverRows | recrypt-server/src/nonces.rs:128-153 | over the SQLite store a nonce whose own expiry fits the signed column is not admitted twice, whatever else arrives |
| Nonces.NegativeExpiryReplays | recrypt-server/src/nonces.rs:128-153 | every valid nonce whose expiry does not fit is admitted again after one collection |
| Nonces.ReplaysExactly | recrypt-server/src/nonces.rs:128-153 | for every window, a nonce valid at some moment is admitted twice in some run over the table if and only if its expiry is 2^63 or more |
| Nonces.UnsafeWindowsExactly | recrypt-server/src/nonces.rs:13-45 | some run over the table admits some nonce twice if and only if the configured window is at least 2^63 - 60 seconds |
| Nonces.IssuedIsAdmitted | recrypt-server/src/routes/nonce.rs:12-23 | an issued unused nonce is admitted exactly until its window closes, relative to its advertised expiry |
| PreKeys.PublicKeyCodec | crates/recrypt-core/src/pre/keys.rs:26-41 | parsing accepts exactly the written forms |
| PreKeys.CiphertextCodec | crates/recrypt-core/src/pre/keys.rs:213-229 | parsing accepts exactly the written forms |
| PreKeys.RecryptKeyToBytes | crates/recrypt-core/src/pre/keys.rs:119-132 | appends tag, both framed keys and the key bytes |
| PreKeys.RecryptKeyFromBytes | crates/recrypt-core/src/pre/keys.rs:135-181 | the cursor walk never reads out of bounds and is the specified parser, for every input |
| PreKeys.RecryptKeyCodec | crates/recrypt-core/src/pre/keys.rs:119-181 | a bijection between the keys whose lengths fit and the accepted byte strings |
| PreKeys.Layouts | crates/recrypt-core/src/pre/keys.rs:119-132 | backend numbers and the order of tag, lengths and contents in keys and ciphertexts |
| PreKeys.ParseFailures | crates/recrypt-core/src/pre/keys.rs:135-181 | which inputs do not parse, and with which of the two errors |
| KeyMaterial.MaterialCodec | crates/recrypt-core/src/hybrid/keymaterial.rs:101-147 | writing and reading are inverse on everything either accepts: all sizes below 2^56 |
| KeyMaterial.MaterialForm | crates/recrypt-core/src/hybrid/keymaterial.rs:101-118 | where each field stands in the 96 bytes; sizes from 2^56 are refused |
| KeyMaterial.MaterialToBytes | crates/recrypt-core/src/hybrid/keymaterial.rs:101-118 | filling the 96-byte buffer slice by slice writes the layout |
| KeyMaterial.MaterialFromBytes | crates/recrypt-core/src/hybrid/keymaterial.rs:120-147 | reading through the 8-byte size buffer is the specified parser |
| StreamCipher.StreamTwice | crates/recrypt-core/src/hybrid/mod.rs:90-93 | applying the keystream twice gives the data back |
| StreamCipher.StreamIsKeystreamXor | crates/recrypt-core/src/hybrid/mod.rs:90-93 | every byte out is the byte in, exclusive or the keystream byte of its position |
| StreamCipher.StreamAppend | crates/recrypt-core/src/hybrid/mod.rs:410-428 | a stretch decrypted from its own position continues the one before |
| StreamCipher.XChaCha20.ApplyKeystream | crates/recrypt-core/src/hybrid/mod.rs:414-428 | transforms the buffer in place from the current position and moves past it |
| MockPre.GenerateRecryptKey | crates/recrypt-core/src/pre/backends/mock.rs:43-60 | the loop computes the exclusive or of both keys' first 32 bytes |
| MockPre.RecryptKeyIsXor | crates/recrypt-core/src/pre/backends/mock.rs:43-60 | byte for byte the exclusive or of both keys' first 32 bytes; shorter keys panic |
| MockPre.Encrypt | crates/recrypt-core/src/pre/backends/mock.rs:62-78 | nonce followed by the enciphered bundle |
| MockPre.MockBodyIsKeystreamXor | crates/recrypt-core/src/pre/backends/mock.rs:62-78 | behind the nonce, the plaintext under exclusive or with the keystream of the recipient's first 32 bytes |
| MockPre.Decrypt | crates/recrypt-core/src/pre/backends/mock.rs:80-100 | splits the nonce off and deciphers |
| MockPre.MockOpensKeystreamXor | crates/recrypt-core/src/pre/backends/mock.rs:80-100 | which ciphertexts and keys fail, and the bytes of what opens |
| MockPre.Recrypt | crates/recrypt-core/src/pre/backends/mock.rs:102-118 | undoes the old wrapping, wraps anew, counts the hop |
| MockPre.RecryptExactly | crates/recrypt-core/src/pre/backends/mock.rs:102-118 | for any recryption key, honest or not: opened under the exclusive or of its bytes and the recipient's, wrapped anew, one level up |
| MockPre.RecryptKeyReveals | crates/recrypt-core/src/pre/backends/mock.rs:102-112 | an honest recryption key and the recipient's key yield the sender's key |
| MockPre.RecryptHolds | crates/recrypt-core/src/pre/backends/mock.rs:102-118 | one hop hands the message to the new recipient and adds one to the level |
| MockPre.HopsHold | crates/recrypt-core/src/pre/backends/mock.rs:43-118 | any number of hops keeps the message; the level is the hop count modulo 256 |
| Hybrid.EncryptBytes | crates/recrypt-core/src/hybrid/mod.rs:77-117 | enciphers in place and wraps hash, size, key and nonce |
| Hybrid.BodyIsKeystreamXor | crates/recrypt-core/src/hybrid/mod.rs:77-117 | every stored byte is the plaintext byte exclusive or the keystream byte of its position, from position 0 |
| Hybrid.AnyBodyIsPossible | crates/recrypt-core/src/hybrid/mod.rs:77-117 | one-time pad: for every plaintext and every body of its length some keystream yields that body |
| Hybrid.AnyMockBodyIsPossible | crates/recrypt-core/src/pre/backends/mock.rs:62-78 | the same for mock wrappings behind their nonce |
| Hybrid.EncryptExactly | crates/recrypt-core/src/hybrid/mod.rs:77-117 | fails exactly on the size or with the backend's error; else holds what the backend wrapped, the hash of its own body and no signature |
| Hybrid.DecryptBytes | crates/recrypt-core/src/hybrid/mod.rs:120-160 | checks in the program's order |
| Hybrid.DecryptExact | crates/recrypt-core/src/hybrid/mod.rs:120-160 | decryption succeeds with a plaintext if and only if it re-encrypts to the hashed body and matches size and hash in the bundle |
| Hybrid.DecryptFails | crates/recrypt-core/src/hybrid/mod.rs:120-160 | why decryption fails, in the order of its checks |
| Hybrid.EncryptProtects | crates/recrypt-core/src/hybrid/mod.rs:77-117 | encryption succeeds when the backend wraps the bundle, and what it yields belongs to the plaintext |
| Hybrid.ProtectedDecrypts | crates/recrypt-core/src/hybrid/mod.rs:77-160 | under any backend, whoever unwraps the bundle recovers the plaintext |
| Hybrid.FileHopsAreKeyHops | crates/recrypt-core/src/hybrid/mod.rs:165-192 | recrypting files is recrypting their wrapped key and nothing else |
| Hybrid.AnyHopsDecrypt | crates/recrypt-core/src/hybrid/mod.rs:77-178 | after any chain of recryptions the last recipient decrypts the original; ciphertext, hash and signature untouched; level is the hop count |
| Hybrid.DecryptStreaming | crates/recrypt-core/src/hybrid/mod.rs:357-437 | reads first, then the bundle; the leaf loop writes the deciphered leaves and succeeds if and only if nothing failed and the hash matches |
| Hybrid.DecryptRange | crates/recrypt-core/src/hybrid/mod.rs:484-569 | bundle and bounds first, then reads; for every split into consecutive leaves, seek-and-slice writes exactly the range of what streaming writes, as far as the walk got |
| Hybrid.CutOutputIsPrefix | crates/recrypt-core/src/hybrid/mod.rs:538-567 | if the decoder fails part-way, what was written is a prefix of the full answer |
| Hybrid.RangeIsKeystreamXor | crates/recrypt-core/src/hybrid/mod.rs:538-567 | a range read is, byte for byte, what the leaves carry there under exclusive or with the keystream there |
| Hybrid.LeafBytesConcat | crates/recrypt-core/src/hybrid/mod.rs:410-428 | what leaves carry is their data one after the other; inner nodes carry nothing |
| Hybrid.AllPathsAgree | crates/recrypt-core/src/hybrid/mod.rs:120-569 | for honest files streaming, ranges and one-shot decryption give the plaintext |
| Hybrid.OneShotIsStreamingAndSize | crates/recrypt-core/src/hybrid/mod.rs:120-160 | for every file whose body matches its hash and every split into leaves, one-shot succeeds if and only if streaming does and the bundle names the body's length; else it reports the size |
| Hybrid.StreamingIgnoresSize | crates/recrypt-core/src/hybrid/mod.rs:430-437 | for every plaintext, a file that streaming decrypts and one-shot decryption refuses |
| Hybrid.RangesAreWholeExactly | crates/recrypt-core/src/hybrid/mod.rs:484-567 | every range the bundle allows comes out whole if and only if the bundle's size does not exceed what the decoder delivers |
| SlotPacking.CoefficientsFit | crates/recrypt-ffi/src/openfhe/pre.rs:15-26 | signed 16-bit coefficients survive reduction to the centred range |
| SlotPacking.CoefficientAt | crates/recrypt-ffi/src/openfhe/pre.rs:15-26 | coefficient i is the signed 16-bit number of bytes 2i and 2i + 1, a last odd byte standing for itself |
| SlotPacking.UnsignedPairsFold | crates/recrypt-ffi/src/openfhe/pre.rs:15-26 | an unsigned pair survives reduction if and only if it is at most 32768; above, it comes back one less |
| SlotPacking.CoefficientsRoundTrip | crates/recrypt-ffi/src/openfhe/pre.rs:15-38 | bytes to coefficients and back is exact, odd lengths included |
| SlotPacking.Encrypt | crates/recrypt-ffi/src/openfhe/mod.rs:152-173 | the loop chunks, pads and encrypts all coefficients |
| SlotPacking.Decrypt | crates/recrypt-ffi/src/openfhe/mod.rs:176-202 | the loop reassembles and truncates |
| SlotPacking.Recrypt | crates/recrypt-ffi/src/openfhe/mod.rs:221-237 | recrypts every ciphertext in order |
| SlotPacking.PackCarries | crates/recrypt-ffi/src/openfhe/mod.rs:152-173 | packed ciphertexts carry the coefficients in order, up to padding |
| SlotPacking.PackExactly | crates/recrypt-ffi/src/openfhe/mod.rs:152-173 | every slot of every ciphertext: the reduced coefficient in that place, or zero behind the last |
| SlotPacking.RecryptCarries | crates/recrypt-ffi/src/openfhe/mod.rs:221-237 | recryption keeps what several ciphertexts carry |
| SlotPacking.PackingIsExact | crates/recrypt-ffi/src/openfhe/mod.rs:152-202 | for every byte string and positive slot count, packing, reduction and unpacking return the bytes |
| LatticePre.EncryptAccepts | crates/recrypt-core/src/pre/backends/lattice.rs:110-130 | encryption succeeds if and only if the plaintext has 1 to 96 bytes and fits one ciphertext |
| LatticePre.FormsAndFailures | crates/recrypt-core/src/pre/backends/lattice.rs:110-182 | backend, level and length prefix of what encryption and recryption yield; which ciphertexts fail, with which error |
| LatticePre.KeyFailures | crates/recrypt-core/src/pre/backends/lattice.rs:88-182 | unreadable keys fail with the operation's own error |
| LatticePre.EncryptWraps | crates/recrypt-core/src/pre/backends/lattice.rs:110-130 | a ciphertext carries its plaintext behind the true length |
| LatticePre.RecryptWraps | crates/recrypt-core/src/pre/backends/lattice.rs:158-182 | one hop keeps prefix and content and counts itself |
| LatticePre.LatticeHopsDecrypt | crates/recrypt-core/src/pre/backends/lattice.rs:110-182 | any number of recryptions preserves a 1 to 96-byte plaintext; level wraps at 256 |
| LatticePre.LatticeFilesSurviveHops | crates/recrypt-core/src/pre/backends/lattice.rs:184-187 | whole files survive any number of lattice recryptions of their key bundle |
| LatticePre.GeneratedKeyRecrypts | crates/recrypt-core/src/pre/backends/lattice.rs:88-108 | a generated recryption key moves what the sender can open to the recipient and counts the hop |
| LatticePre.GenerateRecryptKey | crates/recrypt-core/src/pre/backends/lattice.rs:88-108 | reads both keys or fails; the sender's public key is left empty |
| LatticePre.EncryptToBytes | crates/recrypt-core/src/pre/backends/lattice.rs:110-130 | reads the key, packs and builds the length-prefixed buffer, or fails |
| LatticePre.DecryptFromBytes | crates/recrypt-core/src/pre/backends/lattice.rs:132-156 | slices the prefix off, reads the key and unpacks to that length, or fails |
| LatticePre.RecryptBytes | crates/recrypt-core/src/pre/backends/lattice.rs:158-182 | reads the key, keeps the prefix and recrypts the rest, or fails |
| Base64.Base64Codec | crates/recrypt-wire/src/armor.rs:82-87 | the decoder accepts exactly the canonical encodings of section 4 of RFC 4648, each as its bytes |
| Base64.AlphabetIs | crates/recrypt-wire/src/armor.rs:82-87 | the alphabet of table 1 of RFC 4648 |
| Base64.KnownEncodings | crates/recrypt-wire/src/armor.rs:82-87 | a whole group and both paddings of section 10 of RFC 4648 |
| Armor.LabelCodec | crates/recrypt-wire/src/armor.rs:32-55 | every type's label parses back to it |
| Armor.ArmorEncode | crates/recrypt-wire/src/armor.rs:67-95 | appending begins, headers, 64-column lines and the end yields exactly these lines |
| Armor.BlockForm | crates/recrypt-wire/src/armor.rs:67-95 | marks, headers, blank line, then the Base64 text in lines of exactly 64 characters but for the last |
| Armor.ArmorDecode | crates/recrypt-wire/src/armor.rs:98-164 | the search and header loops compute the specified decoder, for every text |
| Armor.TypeOfExactly | crates/recrypt-wire/src/armor.rs:98-125 | a line opens a block of a type if and only if it is that type's BEGIN line |
| Armor.MarksReported | crates/recrypt-wire/src/armor.rs:98-130 | a missing BEGIN, a malformed or unknown one, and a missing END are reported exactly when they are missing |
| Armor.HeadersEnd | crates/recrypt-wire/src/armor.rs:128-147 | headers end behind the first blank line; without one, nothing is consumed |
| Text.LinesOfText | crates/recrypt-wire/src/armor.rs:98-99 | cutting text into lines drops one carriage return of each terminated line and keeps an unterminated last one as it is |
| Armor.DecodeEncoded | crates/recrypt-wire/src/armor.rs:67-164 | for all writable headers, type, payload and the last-wins header map come back, values short of one trailing carriage return |
| Armor.DecodedHeadersAreGood | crates/recrypt-wire/src/armor.rs:128-147 | whatever decodes has keys without white space and values without newlines |
| Armor.RoundTripExact | crates/recrypt-wire/src/armor.rs:67-164 | with distinct keys a block round-trips if and only if keys are non-empty without white space and values free of newlines and a trailing carriage return |
| Armor.RoundTripWritable | crates/recrypt-wire/src/armor.rs:67-164 | with repeated keys too, a writable block round-trips if and only if no surviving value ends in a carriage return |
| Armor.PanicsExactly | crates/recrypt-wire/src/armor.rs:98-147 | for every text, decoding panics if and only if the first END line of the block's type comes before the first BEGIN line |
| Armor.SwappedMarksPanic | crates/recrypt-wire/src/armor.rs:98-147 | such a text, for every type |
| GrantStores.InMemoryGrantStore.Issue | crates/recrypt-storage-auth/src/grant.rs:206-217 | stores under the grant's identifier unless taken |
| GrantStores.InMemoryGrantStore.Revoke | crates/recrypt-storage-auth/src/grant.rs:224-228 | forgets the grant |
| GrantStores.ListsExactly | crates/recrypt-storage-auth/src/grant.rs:230-249 | listing returns exactly the live grants with that subject, or of that keyspace |
| GrantStores.SqliteGrantStore.Issue | crates/recrypt-storage-auth/src/sqlite/grant.rs:143-196 | inserts the row unless the key is taken, revoked or not |
| GrantStores.SqliteGrantStore.Revoke | crates/recrypt-storage-auth/src/sqlite/grant.rs:220-233 | sets the flag and nothing else |
| GrantStores.RowRoundTrip | crates/recrypt-storage-auth/src/sqlite/grant.rs:100-139 | a row decodes to the grant it was written from if and only if the server made the grant |
| GrantStores.TracksQueries | crates/recrypt-storage-auth/src/sqlite/grant.rs:235-279 | stores in step list the same grants by subject and by keyspace |
| GrantStores.IssueAgrees | crates/recrypt-storage-auth/src/sqlite/grant.rs:143-196 | both stores answer an issue alike if and only if it does not repeat a revoked grant |
| GrantStores.StoresAgreeExactly | crates/recrypt-storage-auth/src/sqlite/grant.rs:143-233 | over a run the stores answer alike if and only if no identifier is issued again after it was issued and revoked, and then the live rows decode to exactly the map |
| GrantStores.FlaggedExactly | crates/recrypt-storage-auth/src/sqlite/grant.rs:220-233 | a row is flagged if and only if its identifier was issued and revoked afterwards |
| GrantStores.ReissueDiffers | crates/recrypt-storage-auth/src/sqlite/grant.rs:143-233 | issue, revoke, issue: the map accepts, the table refuses |
| GrantStores.IssueRefusesExactly | crates/recrypt-storage-auth/src/grant.rs:206-217 | an issue is refused if and only if a live grant has the same encoded content |
| KeyspaceServer.Server.HandleCreate | recrypt-server/src/routes/keyspaces.rs:425-461 | checks version, caller and every added_by in order, then puts |
| KeyspaceServer.CreateExactly | recrypt-server/src/routes/keyspaces.rs:425-461 | succeeds exactly for a parentless version 0 of a keyspace without versions by the adder of all its members; every failure by its cause |
| KeyspaceServer.Server.HandlePublish | recrypt-server/src/routes/keyspaces.rs:496-541 | checks path, caller and the signer of the prior version in order, then puts |
| KeyspaceServer.PublishExactly | recrypt-server/src/routes/keyspaces.rs:496-541 | succeeds exactly for the next version, linked to the last hash, by a fingerprint listed with SignRotation in the latest document; every failure by its cause |
| KeyspaceServer.Server.HandleIssue | recrypt-server/src/routes/keyspaces.rs:562-626 | checks issuer, keyspace, version and Delegate in order, then issues |
| KeyspaceServer.IssueExactly | recrypt-server/src/routes/keyspaces.rs:562-626 | succeeds exactly for the issuer itself, an existing version, a first entry with Delegate in the latest document and a fresh identifier; every failure by its cause |
| KeyspaceServer.Server.HandleRevoke | recrypt-server/src/routes/keyspaces.rs:644-670 | only the issuer revokes an existing grant |
| KeyspaceServer.RevokeExactly | recrypt-server/src/routes/keyspaces.rs:644-670 | succeeds exactly for a live grant and its own issuer, and removes it alone |
| KeyspaceServer.PublishEffect | recrypt-server/src/routes/keyspaces.rs:425-541 | a publishing request changes nothing or appends its document by someone entitled to |
| KeyspaceServer.IssueEffect | recrypt-server/src/routes/keyspaces.rs:562-626 | a grant request changes nothing or adds one justified grant |
| KeyspaceServer.StepKeepsInv | recrypt-server/src/routes/keyspaces.rs:425-670 | every step keeps all versions authorized, all live grants justified and the maps in agreement |
| KeyspaceServer.RunKeepsInv | recrypt-server/src/routes/keyspaces.rs:425-670 | hence every run does |
| KeyspaceServer.VersionsAreAuthorized | recrypt-server/src/routes/keyspaces.rs:425-541 | in every run the creator is named as adder of every member of version 0, and version i names the hash of version i - 1, whose members list its author with SignRotation |
| KeyspaceServer.HistoryIsStored | recrypt-server/src/routes/keyspaces.rs:425-541 | the recorded history ends in what the store answers as latest |
| KeyspaceServer.GrantsAreJustified | recrypt-server/src/routes/keyspaces.rs:562-626 | in every run each live grant names an existing keyspace and version, and its issuer's first entry in the document latest at issue carries Delegate |
| KeyspaceServer.VersionsWerePublished | recrypt-server/src/routes/keyspaces.rs:425-541 | in every run each version came from a successful request of its recorded author, on top of just the versions before it |
| KeyspaceServer.GrantsWereIssued | recrypt-server/src/routes/keyspaces.rs:562-626 | in every run each live grant came from a successful request of its own issuer, when its keyspace had as many versions as recorded |
| KeyspaceServer.SealedForever | recrypt-server/src/routes/keyspaces.rs:517-532 | a keyspace whose latest document has no SignRotation member never changes again |
| KeyspaceServer.GrantsChangeOnlyByIssuer | recrypt-server/src/routes/keyspaces.rs:644-670 | a live grant is never altered, and disappears if and only if its own issuer revokes it |
| KeyspaceServer.ReissueReturns | recrypt-server/src/routes/keyspaces.rs:562-670 | issue, revoke and issue with the same body in the same second puts the identifier back among the live grants |
| KeyspaceServer.ReissueRestoresExactly | recrypt-server/src/routes/keyspaces.rs:330-370 | after its revocation the same body restores the same identifier if and only if it is issued in the second the grant was made in |
| KeyspaceServer.ReturnsExactly | recrypt-server/src/routes/keyspaces.rs:562-670 | a revoked grant is live again if and only if a later request successfully issued a grant with the same encoded content |
| KeyspaceServer.NeverReturnsLater | recrypt-server/src/routes/keyspaces.rs:330-334 | it never is once every later issue happens after the second the grant was made in |
| KeyspaceServerSqlite.StepIsDecision | recrypt-server/src/routes/keyspaces.rs:425-670 | every handler decides on what it reads and then performs at most one write |
| KeyspaceServerSqlite.DanglingRowFails | crates/recrypt-storage-auth/src/sqlite/keyspace.rs:147-177 | a summary row without its document row is an internal error |
| KeyspaceServerSqlite.ServersAgreeExactly | recrypt-server/src/routes/keyspaces.rs:425-670 | over a whole run every answer is the same over SQLite and over memory if and only if no request passes its checks and reaches a revoked grant |
| KeyspaceServerSqlite.FirstReissueDiffers | recrypt-server/src/routes/keyspaces.rs:562-626 | the first such request is granted over memory and refused as a conflict over SQLite |
| Shares.ShareServer.CreateShare | recrypt-server/src/routes/recryption.rs:90-203 | checks in the program's order, then stores under the share's identifier |
| Shares.CreateExactly | recrypt-server/src/routes/recryption.rs:90-203 | succeeds exactly if both parties are registered, the file is known, the request is signed and everything decodes; stores exactly what was sent |
| Shares.CreateFailures | recrypt-server/src/routes/recryption.rs:90-203 | why creation fails, in the order of its checks |
| Shares.BackendNames | crates/recrypt-core/src/pre/mod.rs:44-55 | exactly these names are backends, in any case |
| Shares.ShareServer.GetRecryptedShare | recrypt-server/src/routes/recryption.rs:211-323 | only the named recipient gets the recrypted key, the hash and both URLs |
| Shares.FetchExactly | recrypt-server/src/routes/recryption.rs:211-323 | answers exactly the named recipient, registered and signed, and with exactly which content |
| Shares.FetchFailures | recrypt-server/src/routes/recryption.rs:211-323 | why the recipient's fetch fails, in the order of the checks |
| Shares.ShareServer.RevokeShare | recrypt-server/src/routes/recryption.rs:343-394 | only the sender removes the share |
| Shares.RevokeExactly | recrypt-server/src/routes/recryption.rs:343-394 | succeeds exactly for the sender, registered and signed, and removes that share alone |
| Shares.ShareTextInjective | recrypt-server/src/routes/recryption.rs:169-173 | the hashed text determines sender, recipient and file |
| Shares.RunKeepsOwned | recrypt-server/src/routes/recryption.rs:90-203 | in every run what is stored under a share's identifier is that sender's share of that file to that recipient |
| Shares.OnlyPartiesAreAnswered | recrypt-server/src/routes/recryption.rs:90-394 | in every run a successful fetch of a share is its recipient's, a revocation or creation its sender's, each signed and registered |
| Shares.OnlySenderTouches | recrypt-server/src/routes/recryption.rs:90-394 | only its own sender ever creates, replaces or revokes a share |
| Shares.RevokedIsGone | recrypt-server/src/routes/recryption.rs:343-394 | after revocation a share is not found until its own sender creates it again |
| Shares.StoredExactly | recrypt-server/src/routes/recryption.rs:90-394 | at every moment of every run a share is stored if and only if its own sender created it and nothing revoked it since |
| Shares.ShareEndToEnd | recrypt-server/src/routes/recryption.rs:168-323 | in any run with an honest deposit the sender leaves alone, the recipient's fetch succeeds, and the ciphertext behind the URL decrypts with the key in the reply to the original plaintext |
| Shares.MockShareEndToEnd | recrypt-server/src/routes/recryption.rs:168-323 | the whole path with mock keys: what the sender encrypted, stored and shared with an honest recryption key, the recipient decrypts |
| Shares.LatticeShareEndToEnd | recrypt-server/src/routes/recryption.rs:168-323 | the same whole path with lattice keys, serialized keys included |
| Shares.FetchedDepositsExist | recrypt-server/src/routes/recryption.rs:90-323 | for any parties and file there is such a run, so the end-to-end premises can be met |
| Shares.MockSharesWork | crates/recrypt-core/src/pre/backends/mock.rs:102-118 | the end-to-end premises hold for mock keys |

## Left out

- Foreign code: OpenFHE, liboqs, Ed25519, Blake3, XChaCha20, bao-tree, bc-envelope, serde and base58. They are parameters, with the laws used stated in the theorems; the lattice scheme is ideal, so its noise budget is not modelled.
- Interleavings inside a handler or a SQLite call: every handler, store call and validate-then-claim is one atomic step. Locks and async scheduling are not modelled.
- SQL: tables are maps or sequences of rows with the primary keys of crates/recrypt-storage-auth/src/sqlite/schema.rs:51-97; text forms of identifiers and JSON document blobs stand for the values, and rows that fail to decode do not occur.
- HTTP plumbing, signature headers, rate limiting, configuration, the CLI, S3 and disk I/O, the wallet and the TypeScript client. Caller authentication is a result carried by the request.
- JSON conversions of documents and grants (`json_to_doc`, `json_to_grant` parse errors): requests carry parsed bodies.
- Ownership, account and provider stores: shares see only whether an account or file exists, and both may change between any two steps.
- The share store as a SQLite table: one map keyed by share id stands for both stores. Listing shares is left out as an easy filter.
- Envelope parsing up to the inner envelope, format versions and elision of predicates alone: opening is one function that yields an identity and a list of assertions, each shown, shown without its object, or hidden.
- `encrypt_streaming` and outboard generation: the Merkle decoder is a source of items that may stop with an error, and a failed write counts as writing nothing.
- Error message texts: errors are compared by class.
- The log warning about placeholder signatures in `put`, which changes no state. `Tombstone` and quorum are stored and not enforced, as in the program.
- KeyspaceSqlite.TablesRunRepresents: runs of fewer than 2^63 documents, beyond which the signed version column would overflow.
- Armor.RoundTripExact: the exact condition on arbitrary headers is given for distinct keys; with repeated ones `Armor.RoundTripWritable` covers every list of writable headers, while an overwritten unwritable value may or may not be noticed.
- Hybrid.EncryptBytes: plaintexts shorter than 2^64 bytes, since the program's length is a 64-bit integer.

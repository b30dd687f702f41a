# A verified model of SMCV

SMCV is a single-owner secrets vault: an encrypted SQLite store, a service-authorization graph over a namespace forest,
portable encrypted backups, key rotation, an audit log and a web recovery channel. This project models its hard core in
Dafny 4.11 and proves properties of the model. `dafny verify dfyconfig.toml` checks everything.

The model follows the code, also where the documentation says otherwise. Where a property turns out not to hold for every
input, the project keeps the code as it is, exhibits an input, and proves the exact condition under which the property
holds.

## What is modelled

| modules | part of the system |
|---|---|
| `Header`, `Frames`, `RecordFraming`, `Archive`, `Decoding`, `ArchiveTheorems` | the portable archive: public header, authenticated frames, streaming record counter, writer and reader |
| `Portable`, `LogicalStream`, `LogicalRecords`, `Restore`, `RestoreTheorems`, `RestoreRelations`, `RestoreChecks`, `RowCommitments` | the logical stream inside an archive; backup and restore of every row; what a row's commitment determines |
| `BackupFiles` | the two together: from one vault to another through an encrypted file |
| `Forest`, `Access`, `MoveTheorems` | the namespace hierarchy, service decisions, confirmed namespace moves |
| `GraphCommitment`, `GraphStore`, `GraphTheorems` | the committed authorization graph and its mutators |
| `Gate` | the authorization gate between live requests and revocations |
| `AuditEncoding`, `AuditChain` | the audit commitment's bytes and the chained log |
| `KekRotation` | resumable rotation of the key-encryption key |
| `BackupJobs`, `BackupJobStartUp`, `BackupJobRuns` | the crash-safe backup job registry: start-up as a whole, start-up file by file, and whole runs |
| `Metadata` | the metadata codec |
| `RecoveryChannel`, `Sessions` | the single-use recovery channel and the browser session windows |
| `Laws`, `FreshVault` | the laws assumed of library code can be kept, and the end-to-end theorem's conditions can all be met |
| `Bytes`, `Text`, `Sorting` | fixed-width integers, canonical text, sorted listings |

Idealisations. Authenticated encryption is ideal in the archive: a log of sealed (key, nonce, associated data,
ciphertext, plaintext) entries, and only logged entries open. Elsewhere sealing and opening are functions of which only
"opening undoes sealing" is used. Hashes and keyed commitments are arbitrary functions; where a theorem needs them not to
collide, it says so of the inputs at hand (`Bytes.NoCollision`). `Laws` exhibits, for every law assumed, primitives that
keep it. JSON and base64url are codecs with a left inverse. Random values, clocks and the outcome of input and output are
parameters or non-deterministic choices.

## Results that differ from what one might expect

- A confirmed namespace move can add access it does not disclose. The ancestor query stops after 32 links and a move
  checks only the new parent's depth, so subtrees can hang deeper than that; lifting such a subtree towards an ancestor it
  keeps brings that ancestor back within reach unseen. `MoveTheorems.HidesNothingIff` gives the exact condition,
  `MoveTheorems.DisclosesOnlyTrueAccessIff` the one for the converse, `MoveTheorems.ShallowMovesAreExact` the depth below
  which neither can fail, and `MoveTheorems.InexactMovesAreReachable` runs that reach both failures. The documentation
  (ai_context_documentation/AUTHORIZATION_MODEL.md, lines 163-164) promises that any broadened access is shown.
- A restore refuses a source whose namespaces are deeper than 33 (`RestoreRelations.HierarchyIff`), which creates and one
  move can make (`RestoreRelations.DeepSourceIsRefused`), and one whose active
  passkey leaves no room for the longer text of its revocation (`RestoreRelations.PasskeyRestorableIff`,
  `RestoreRelations.UnrestorablePasskey`).
- A completed key rotation makes policy and service-identity metadata written before it unreadable, because no stage
  rewraps it (`KekRotation.RotatingVault.RotateToCompletion`, `KekRotation.OthersSurviveIff`). The documentation
  (ai_context_documentation/CRYPTOGRAPHY_AND_KEY_MANAGEMENT.md, line 167) speaks of rewrapping existing data keys.
- A directory synchronisation that fails after a status file was renamed leaks the file; after 33 such leaks the next
  start-up is refused whenever it is tried (`BackupJobRuns.LeaksBlockStartUp`). It is not refused for good: the refused
  start-up has already failed 33 of the leaked jobs on disk, and once they have expired the registry opens
  (`BackupJobStartUp.RefusedMakesProgress`). Without such failures it always opens (`BackupJobRuns.CrashedRegistryOpens`).
- A logout fails, and has to be repeated, when any request touched the session between the logout's read and its write,
  and a credential's revocation when a use was recorded in between (`Gate.LogoutIff`, `Gate.RevocationIff`).
- An authenticator's commitment does not tell an absent field from an empty one (`RowCommitments.AbsentLooksEmpty`); for
  rows of the form the store admits it determines the row (`RowCommitments.AuthenticatorDetermined`).
- A recovery upload that is dropped or fails to extract leaves the channel reserved for good: an archive can still be
  staged exactly when no reservation was ever dropped (`RecoveryChannel.RetryIff`), and six steps reach the failure
  (`RecoveryChannel.DroppedUploadIsReachable`).

## Model

| member | source | states |
|---|---|---|
| `Header.ParseOfEncoded` | crates/smcv-backup/src/lib.rs:130-225 | every valid header, encoded and followed by anything, parses to itself |
| `Header.EncodeOfParsed` | crates/smcv-backup/src/lib.rs:757-790 | every accepted prefix is reproduced by re-encoding, so the associated data rebuilt at decode time is the bytes on disk |
| `Header.AcceptsExactlyEncodings` | crates/smcv-backup/src/lib.rs:130-225 | a byte string is accepted exactly when the declared size is supported and it starts with the encoding of a valid header |
| `RecordFraming.SplitOfPrinted` | crates/smcv-backup/src/lib.rs:896-965 | splitting printed records gives the records back |
| `RecordFraming.PrintedOfSplit` | crates/smcv-backup/src/lib.rs:896-965 | a buffer that splits into records is their printing |
| `RecordFraming.ChunkInvariant` | crates/smcv-backup/src/lib.rs:915-957 | any chunking of the bytes leaves the counter in the same state |
| `RecordFraming.FeedIsSplit` | crates/smcv-backup/src/lib.rs:915-964 | from a record boundary the automaton ends with n more records exactly when the whole-buffer parse finds n within the limit |
| `RecordFraming.CounterAcceptsExactlyRecords` | crates/smcv-backup/src/lib.rs:896-965 | the counter finishes with n exactly when the bytes are n back-to-back records within the flag, length and count bounds |
| `RecordFraming.RecordCounter.constructor` | crates/smcv-backup/src/lib.rs:903-913 | a new counter is in the automaton's start state |
| `RecordFraming.RecordCounter.Update` | crates/smcv-backup/src/lib.rs:915-957 | the in-place header buffer, remaining payload and count after a chunk are the byte-wise automaton's |
| `RecordFraming.RecordCounter.FillHeader` | crates/smcv-backup/src/lib.rs:928-955 | the header half of one turn: bytes copied into the buffer and, at eight, flags, length and count checked |
| `RecordFraming.RecordCounter.Complete` | crates/smcv-backup/src/lib.rs:959-964 | finishing reports the count, or an error inside a header or payload |
| `Frames.FrameAadInjective` | crates/smcv-backup/src/lib.rs:886-894 | different archives, sequence numbers, kinds or lengths give different associated data |
| `Frames.ReadOfSealed` | crates/smcv-backup/src/lib.rs:827-884 | a sealed frame reads back as its kind and plaintext at its own sequence number |
| `Frames.AcceptedFrame` | crates/smcv-backup/src/lib.rs:827-884 | an accepted frame is exactly the bytes of a logged sealing at that sequence number, and no longer than its kind may be |
| `Archive.WriteFrame` | crates/smcv-backup/src/lib.rs:792-825 | one frame: exact bytes out, one new log entry, the next sequence number |
| `Archive.BeginArchive` | crates/smcv-backup/src/lib.rs:455-487 | the header is written with the data key wrapped under it: by Argon2id of the passphrase under the drawn salt and the options' parameters, or by HMAC of the label and the identifier under the recovery key |
| `Archive.UnlocksIff` | crates/smcv-backup/src/lib.rs:722-755 | key material yields a wrapping key exactly in the header's own mode and bounds, and it is Argon2id or HMAC of that material; all other material is refused as an invalid key |
| `Archive.WriteData` | crates/smcv-backup/src/lib.rs:501-535 | the read loop seals one data frame per read, and counts and accumulates exactly the stream |
| `Archive.WriteArchive` | crates/smcv-backup/src/lib.rs:431-560 | succeeds exactly on writable input; the output is the header and frames of one run, wrapped by that derivation from the given key, with the summary's counts and length |
| `Decoding.DecodeArchive` | crates/smcv-backup/src/lib.rs:589-707 | the reading loop computes the decoding function: verdict, delivered bytes, metadata and counts |
| `Decoding.HeaderRefusals` | crates/smcv-backup/src/lib.rs:589-625 | what is refused before a key is asked for, in this order: an unsupported size, truncation, a declared header length outside 126 to 256, truncation again |
| `ArchiveTheorems.RoundTrip` | crates/smcv-backup/src/lib.rs:589-707 | decoding a completed write of supported size with its key delivers exactly the stream, metadata, digest and counts |
| `Decoding.DecodeFrames` | crates/smcv-backup/src/lib.rs:643-686 | the loop with its cursor, sequence number and in-place counter computes the frame-by-frame decoding function |
| `ArchiveTheorems.BodyOfRun` | crates/smcv-backup/src/lib.rs:643-686 | from any frame of a complete run the reader's loop consumes the rest and ends with the whole stream |
| `ArchiveTheorems.WriteAndVerify` | crates/smcv-app/src/backup.rs:454-487 | writing then verifying succeeds exactly when the input is writable and the output is within the reader's cap; the exact size; the file decodes to the stream and the verdict matches it |
| `ArchiveTheorems.AcceptsOnlyCompletedArchives` | crates/smcv-backup/src/lib.rs:589-707 | over any number of writes, complete or aborted, the only byte strings accepted are whole files of completed writes, with key material that derives their wrapping key, and the reader delivers the data of that write |
| `ArchiveTheorems.WrongKeyIsInvalid` | crates/smcv-backup/src/lib.rs:589-642 | whatever follows the header, key material of the other mode, out of bounds or deriving another key is refused as an invalid key before any frame is read |
| `ArchiveTheorems.OnlyItsKeyReads` | crates/smcv-backup/src/lib.rs:722-755 | whoever reads the file of a write has material of the writer's mode with the same Argon2id or HMAC value under the file's salt and parameters or identifier |
| `ArchiveTheorems.ReadIff` | crates/smcv-backup/src/lib.rs:589-707 | a finished archive is read whole with exactly such keys, and every other key is refused as invalid |
| `ArchiveTheorems.BodyMatchesRun` | crates/smcv-backup/src/lib.rs:643-686 | if the loop finishes, the source held exactly one run's remaining frames up to its final manifest |
| `ArchiveTheorems.BodyDeliversRun` | crates/smcv-backup/src/lib.rs:643-686 | and what it handed over is what that run sealed, frame after frame |
| `ArchiveTheorems.WriteExtendsWorld` | crates/smcv-backup/src/lib.rs:431-560 | a further write with fresh randomness keeps the ideal log explained by its runs |
| `LogicalStream.AppendRecord` | crates/smcv-app/src/backup.rs:1536-1558 | appends exactly one framed record, or refuses at the 256 MiB limit |
| `LogicalStream.AppendAll` | crates/smcv-app/src/backup.rs:489-556 | the whole stream is written exactly when it fits |
| `LogicalStream.DecodeLogicalStream` | crates/smcv-app/src/backup.rs:1449-1513 | accepts exactly well-framed critical records with the keys first and once, one authorization state and the expected count, and collects them by kind |
| `LogicalStream.ParsedOfStream` | crates/smcv-app/src/backup.rs:1449-1513 | reading a written stream gives its records in order |
| `LogicalStream.DecoderAndCounterAgree` | crates/smcv-app/src/backup.rs:1449-1513 | whenever the stream decoder and the archive's counter both accept, they count the same records |
| `LogicalStream.CounterCountsStream` | crates/smcv-backup/src/lib.rs:896-965 | the archive's counter accepts a backup's stream exactly when every record is within 32 MiB and the limit is not exceeded, and then counts its records |
| `LogicalRecords.CollectedOfSnapshot` | crates/smcv-app/src/backup.rs:489-556 | collecting the records of a snapshot in backup order gives every row list back |
| `LogicalRecords.SnapshotAcceptable` | crates/smcv-app/src/backup.rs:489-556 | the records of every snapshot have the shape the decoder insists on |
| `Portable.DecryptOfEncrypted` | crates/smcv-app/src/vault_core.rs:1224-1304 | a record encrypted under a fresh data key and the active key decrypts to its plaintext |
| `RowCommitments.ContextsSeparate` | crates/smcv-app/src/vault_core.rs:1224-1304 | no two of the ten contexts records and data keys are sealed under are alike |
| `RowCommitments.ContextsName` | crates/smcv-app/src/vault_core.rs:1224-1304 | each names the vault, the installation, the kind of record or key, the row and its version |
| `Restore.OpenSnapshot` | crates/smcv-app/src/backup.rs:558-651 | a backup opens exactly when every protected row opens, and carries each row with its plaintext as text |
| `Restore.RestoreNamespaces` | crates/smcv-app/src/backup.rs:760-788 | each restored namespace keeps its fields, opens to the same plaintext and commits to the new installation |
| `Restore.RestoreSecrets` | crates/smcv-app/src/backup.rs:789-826 | the same for secrets, whose commitment covers the current version's schedule; refused when that version is missing |
| `Restore.ScheduleFound` | crates/smcv-app/src/backup.rs:754-759 | a schedule is found exactly if the version has a row, and it is that of the last such row |
| `Restore.RestoreVersions` | crates/smcv-app/src/backup.rs:827-844 | each restored version keeps its fields and opens to the same payload in the new installation |
| `Restore.RestoreServices` | crates/smcv-app/src/backup.rs:920-934 | the same for service identities |
| `Restore.RestorePolicies` | crates/smcv-app/src/backup.rs:981-1011 | the same for policies, whose commitment covers the new envelope |
| `Restore.Transform` | crates/smcv-app/src/backup.rs:747-1096 | succeeds exactly on transformable rows and restores every row; preserving leaves every credential as it was and counts none, revoking revokes and counts exactly the live ones, and exactly the active passkeys are revoked and counted |
| `RestoreTheorems.MeaningKept` | crates/smcv-app/src/backup.rs:747-1096 | identities, plaintexts, hierarchy, grants, bindings, audit history and, in preserve mode, credentials are those of the source |
| `RestoreTheorems.RestoredVerifies` | crates/smcv-app/src/backup.rs:1120-1198 | every commitment, recomputed or carried over, verifies under the new installation |
| `RestoreTheorems.TransformableIff` | crates/smcv-app/src/backup.rs:747-1096 | of a verifying source, exactly the password-hash form, the room for passkey revocation and the credential revisions decide |
| `RestoreTheorems.EncodeLogicalSnapshot` | crates/smcv-app/src/backup.rs:489-556 | a backup is written exactly when every row opens and the stream fits |
| `RestoreTheorems.RestoreStream` | crates/smcv-app/src/backup.rs:686-706 | the decoded stream is transformed exactly when it decodes, its keys have full width and its rows are transformable; the reported counts are those of the live credentials, in revoke mode only, and of the active passkeys |
| `RestoreTheorems.BackupThenRestore` | crates/smcv-app/src/backup.rs:489-1096 | at the level of the stream: success exactly when it fits and the source is restorable; then same meaning, everything verifies, and credentials and passkeys changed and counted row by row as the mode says |
| `RestoreTheorems.NoneLive` | crates/smcv-app/src/backup.rs:935-976 | in revoke mode no restored credential is live |
| `RestoreRelations.ShapePreserved` | crates/smcv-app/src/backup.rs:1200-1305 | the restored snapshot passes the relationship checks exactly when the source does |
| `RestoreChecks.CheckRelations` | crates/smcv-app/src/backup.rs:1200-1305 | the sets, maps and loops accept exactly distinct identities, a rooted hierarchy, gap-free versions and sound references |
| `RestoreChecks.CollectIds` | crates/smcv-app/src/backup.rs:1204-1220 | collecting into a set keeps the count exactly when nothing repeats |
| `RestoreChecks.CollectKinds` | crates/smcv-app/src/backup.rs:1210-1220 | unless a principal repeats, the map tells exactly each one's kind |
| `RestoreChecks.CheckHierarchy` | crates/smcv-app/src/backup.rs:1222-1235 | exactly when every bounded walk ends at a root without repeating |
| `RestoreChecks.CheckVersions` | crates/smcv-app/src/backup.rs:1237-1265 | counting and range tests accept exactly when each secret has versions 1 to its current one, and no version or tombstone is stray |
| `RestoreChecks.CheckReferences` | crates/smcv-app/src/backup.rs:1267-1304 | exactly when every reference names an existing row of the right kind |
| `RestoreChecks.VerifyRestored` | crates/smcv-app/src/backup.rs:1120-1198 | every check and loop of the restored snapshot: relationships between its rows, recomputed commitments, decrypted rows, the graph and the audit chain, exactly |
| `RestoreChecks.CheckSecretRows` | crates/smcv-app/src/backup.rs:1125-1156 | exactly when every namespace, secret and version verifies and decrypts |
| `RestoreChecks.CheckIdentityRows` | crates/smcv-app/src/backup.rs:1156-1185 | exactly when every principal, authenticator and credential commitment recomputes |
| `RestoreChecks.CheckGraph` | crates/smcv-app/src/backup.rs:1186-1195 | exactly when the graph verifies, or is the blank one of a vault without an owner |
| `RestoreChecks.CheckAudit` | crates/smcv-app/src/vault_core.rs:1019-1073 | exactly when the audit rows form a chain |
| `RowCommitments.NamespaceDetermined` | crates/smcv-app/src/vault_core.rs:1123-1151 | without a collision, a namespace's commitment determines its vault, its installation and every field but metadata and times |
| `RowCommitments.SecretDetermined` | crates/smcv-app/src/vault_core.rs:1157-1184 | the same for a secret, with the schedule of its current version |
| `RowCommitments.PrincipalDetermined` | crates/smcv-app/src/authentication.rs:634-645 | a principal's commitment determines every field but the times |
| `RowCommitments.CredentialDetermined` | crates/smcv-app/src/service_identity.rs:667-687 | an application credential's commitment determines the whole row |
| `RowCommitments.AuthenticatorTextIff` | crates/smcv-app/src/authentication.rs:669-696 | two authenticators are committed alike exactly when they agree in everything, an absent and an empty field taken as one |
| `RowCommitments.AuthenticatorDetermined` | crates/smcv-storage/src/identity.rs:763-780 | so the commitment determines the whole row for rows of the form the store admits |
| `RowCommitments.AbsentLooksEmpty` | crates/smcv-app/src/authentication.rs:669-696 | and not for others: an absent lookup and an empty one have one commitment |
| `RestoreRelations.RootedIff` | crates/smcv-app/src/backup.rs:1222-1237 | in a forest the hierarchy check passes exactly for depth at most 33 |
| `RestoreRelations.HierarchyIff` | crates/smcv-app/src/backup.rs:1222-1235 | a backup's hierarchy is accepted exactly when no namespace of it is deeper than 33 |
| `RestoreRelations.ForestIff` | crates/smcv-app/src/backup.rs:1222-1235 | for any parent links at all: the walks are accepted exactly when the links form a forest no deeper than 33 |
| `RestoreRelations.RelationsAreRows` | crates/smcv-app/src/backup.rs:1200-1305 | the relationship checks, said of the rows themselves: distinct identities, depths that fit the parents, versions 1 to the current one, and references to rows of the right kind |
| `RestoreRelations.DeepSourceIsRefused` | crates/smcv-app/src/backup.rs:1222-1235 | creates and one move make a vault whose backup is refused |
| `RestoreRelations.PasskeyRestorableIff` | crates/smcv-app/src/authentication.rs:669-696 | an active passkey can be restored exactly when its committed text leaves room for the revocation mark |
| `RestoreRelations.UnrestorablePasskey` | crates/smcv-crypto/src/lib.rs:450-470 | a passkey that fits the commitment's limit and can never be restored |
| `BackupFiles.WritableIff` | crates/smcv-app/src/backup.rs:454-487 | of a stream within its limit the archive writer refuses exactly oversized or too many records, an unusable key or an oversized manifest; its archive is always within the restore's file cap |
| `BackupFiles.CreateBackup` | crates/smcv-app/src/backup.rs:454-487 | a backup file is written exactly when every row opens, the stream fits and the archive format admits it, and it reads back as exactly that stream |
| `BackupFiles.RestoreFile` | crates/smcv-app/src/backup.rs:656-742 | a file of at most 8 GiB is restored only if it loads, its rows transform, their relationships hold and everything verifies; it is refused only if one of these fails; credentials and passkeys change and are counted as the mode says |
| `BackupFiles.BackupLoads` | crates/smcv-app/src/backup.rs:656-700 | a backup loads as exactly its rows, in a destination with the source's vault identity and keys, exactly when its versions are supported |
| `BackupFiles.AcceptedIsCopy` | crates/smcv-app/src/backup.rs:656-742 | a restored backup is a verifying copy of its source, one recovery epoch later; in preserve mode its credentials are the source's and none is counted, in revoke mode exactly the live ones are revoked and counted |
| `BackupFiles.RefusedForCause` | crates/smcv-app/src/backup.rs:656-742 | a backup of a verifying source is refused only for its versions, its authenticators and credentials, or its relationships |
| `BackupFiles.RestoredIff` | crates/smcv-app/src/backup.rs:656-742 | a backup of a verifying source is restored exactly when the source passes, and then to such a copy |
| `BackupFiles.BackupFileThenRestore` | crates/smcv-app/src/backup.rs:454-742 | end to end through the encrypted file: the exact condition for success, and then same meaning, every commitment verifying, and credentials and passkeys changed and counted row by row as the mode says |
| `FreshVault.ConditionsAreMet` | crates/smcv-app/src/backup.rs:454-742 | a fresh vault, with lawful primitives, meets every condition of the end-to-end result at once |
| `Laws.ArchiveIsLawful` | crates/smcv-backup/src/lib.rs:408-414 | primitives with 56-byte manifests keep the archive's laws |
| `Laws.CodecIsLawful` | crates/smcv-app/src/backup.rs:1449-1558 | a codec of tagged fields keeps the law of logical records, of every kind |
| `Forest.WalkHasNoRepeats` | crates/smcv-storage/src/records.rs:447-474 | the ancestor walk visits nothing twice |
| `Forest.FoundWithin32` | crates/smcv-storage/src/records.rs:447-474 | an ancestor is found exactly when it is at most 32 levels up |
| `Forest.DepthIsTrue` | crates/smcv-storage/src/records.rs:420-439 | the reported depth is the true one up to 33 |
| `Forest.CreateOkIff` | crates/smcv-app/src/vault_core.rs:280-332 | a create succeeds exactly for an unused identity, a name new among its siblings, and no parent or an active one of true depth below 32; the row it adds |
| `Forest.MoveOkIff` | crates/smcv-app/src/vault_core.rs:340-409 | a move succeeds exactly for the current revision of an active namespace, a name new among its new siblings, and a parent of true depth below 32 outside the subtree; the row it changes |
| `Forest.CreateKeepsDepths` | crates/smcv-app/src/vault_core.rs:280-332 | a create adds one namespace, one level below its parent and at depth at most 32, and moves no other |
| `Forest.MoveAvoidsSubtree` | crates/smcv-app/src/vault_core.rs:352-368 | the bounded ancestor check misses nothing: the new parent is never inside the moved subtree |
| `Forest.MoveKeepsDepths` | crates/smcv-app/src/vault_core.rs:340-409 | a move shifts the whole subtree alike and no other depth |
| `Forest.ChainOutside` | crates/smcv-app/src/vault_core.rs:340-409 | outside the moved subtree every ancestor chain is unchanged |
| `Forest.ChainInside` | crates/smcv-app/src/vault_core.rs:340-409 | inside it a chain keeps its lower part and continues with the new parent's chain |
| `Forest.RunsKeepForest` | crates/smcv-app/src/vault_core.rs:280-409 | every run of creates and moves keeps the parent links a forest |
| `Forest.RunsKeepNames` | crates/smcv-storage/src/lib.rs:432-450 | every run of creates and moves keeps names unique among siblings and among roots |
| `Forest.CreatesBoundDepth` | crates/smcv-app/src/vault_core.rs:280-298 | with creates alone no namespace is deeper than 32 |
| `Forest.MoveKeepsBound` | crates/smcv-app/src/vault_core.rs:358-368 | a move keeps a depth bound exactly when the deepest namespace it carries fits under the new parent |
| `Forest.NamespaceTable.constructor` | crates/smcv-app/src/vault_core.rs:280-332 | an empty table is a forest |
| `Forest.NamespaceTable.CreateNamespace` | crates/smcv-app/src/vault_core.rs:280-332 | the table method computes the create, with its error, keeps a forest, and changes nothing on error |
| `Forest.NamespaceTable.MoveNamespace` | crates/smcv-app/src/vault_core.rs:340-409 | the same for moves |
| `Access.DeltaLeIsTotalOrder` | crates/smcv-app/src/authorization.rs:216-221 | principal bytes, then action spelling, order the delta totally |
| `Access.AllowedIff` | crates/smcv-app/src/authorization.rs:930-963 | a service is allowed exactly by a binding, the policy row it names being active, and a grant of that policy and action on the resource itself or, inheriting, on a namespace the walk from its home passes |
| `Access.Collect` | crates/smcv-app/src/authorization.rs:192-215 | the double loop finds exactly the pairs of a binding, the active policy row it names and an inheriting grant of that policy whose target becomes an ancestor |
| `Access.Preview` | crates/smcv-app/src/authorization.rs:167-224 | the result is the strictly sorted listing of exactly those pairs; exactly which requests are refused, and how |
| `MoveTheorems.ConfirmedMove` | crates/smcv-app/src/authorization.rs:236-284 | moves exactly when the owner's session is active, the confirmation is that listing, the owner authenticated recently if it is non-empty, and the move is allowed; otherwise nothing changes |
| `MoveTheorems.OutsideUnchanged` | crates/smcv-app/src/authorization.rs:930-995 | no decision outside the moved subtree changes |
| `MoveTheorems.PreviewSees` | crates/smcv-app/src/authorization.rs:965-995 | the preview's two ancestor lists, said by depth; the new one is always complete |
| `MoveTheorems.SeenBefore` | crates/smcv-app/src/authorization.rs:965-995 | what a carried resource's decision sees before the move, said by depth |
| `MoveTheorems.SeenAfter` | crates/smcv-app/src/authorization.rs:965-995 | and after it, at shifted distances |
| `MoveTheorems.BroadeningDisclosed` | crates/smcv-app/src/authorization.rs:167-224 | under that condition every added access to any resource, in any graph, is disclosed |
| `MoveTheorems.DisclosedIsAllowed` | crates/smcv-app/src/authorization.rs:167-224 | a disclosed pair is allowed on every carried resource near enough to the gained ancestors |
| `MoveTheorems.HidesNothingIff` | crates/smcv-app/src/authorization.rs:167-224 | over all graphs, every access a move adds is disclosed exactly when no kept ancestor comes back within reach |
| `MoveTheorems.HiddenBroadening` | crates/smcv-app/src/authorization.rs:167-224 | lifting a deep subtree towards an ancestor it keeps adds undisclosed access |
| `MoveTheorems.DisclosesOnlyTrueAccessIff` | crates/smcv-app/src/authorization.rs:167-224 | every disclosed pair is allowed across the subtree exactly when nothing carried ends over 32 levels below a gained ancestor |
| `MoveTheorems.ShallowMovesAreExact` | crates/smcv-app/src/authorization.rs:236-284 | while no namespace is deeper than 33 the disclosure is complete and exact |
| `MoveTheorems.InexactMovesAreReachable` | crates/smcv-app/src/vault_core.rs:340-409 | runs of creates and moves that reach both failures |
| `MoveTheorems.DeepNamespaceIsReachable` | crates/smcv-app/src/vault_core.rs:340-409 | creates and one move reach a namespace of depth 34 |
| `GraphCommitment.ComputeGraphCommitment` | crates/smcv-app/src/authorization.rs:1206-1271 | listing, excluding, adding, sorting and hashing compute the commitment of the listed items |
| `GraphCommitment.ListItems` | crates/smcv-app/src/authorization.rs:1213-1252 | the listing loops collect every row but the excluded one, then the extra item |
| `GraphCommitment.HashItems` | crates/smcv-app/src/authorization.rs:1256-1265 | the sorted items are fed to the hash length first, one after the other |
| `GraphCommitment.PortableCommitment` | crates/smcv-app/src/authorization.rs:1273-1324 | the portable form is the same commitment on the same rows |
| `GraphCommitment.AnyItemOrder` | crates/smcv-app/src/authorization.rs:1198-1204 | any order of the items gives the same commitment |
| `GraphCommitment.AnyRowOrder` | crates/smcv-app/src/authorization.rs:1206-1271 | any order of the rows gives the same commitment |
| `GraphStore.VerifySnapshot` | crates/smcv-app/src/authorization.rs:1023-1091 | accepts exactly within 10,000 records when every row's and the graph's commitment recompute |
| `GraphStore.PolicyDropped` | crates/smcv-app/src/authorization.rs:434-453 | excluding one policy's key drops exactly that policy's item |
| `GraphStore.PolicyReplaced` | crates/smcv-app/src/authorization.rs:434-453 | the commitment predicted for an archive is the one recomputed from the resulting rows |
| `GraphStore.PolicyAdded` | crates/smcv-app/src/authorization.rs:347-357 | the same for a new policy |
| `GraphStore.GrantAdded` | crates/smcv-app/src/authorization.rs:525-536 | the same for a new grant |
| `GraphStore.BindingAdded` | crates/smcv-app/src/authorization.rs:610-626 | the same for a new binding |
| `GraphStore.AuthorizationStore.constructor` | crates/smcv-app/src/authentication.rs:160-180 | the empty graph's fixed commitment verifies |
| `GraphStore.AuthorizationStore.CreatePolicy` | crates/smcv-app/src/authorization.rs:291-379 | exactly when it succeeds, for a recently authenticated owner with an active session and a label of 1 to 128 bytes; the row it adds, whose label reads back, revision plus one, and the store verifies again |
| `GraphStore.AuthorizationStore.ArchivePolicy` | crates/smcv-app/src/authorization.rs:389-468 | the same owner checks, for the one active policy of the expected revision |
| `GraphStore.AuthorizationStore.AddPolicyGrant` | crates/smcv-app/src/authorization.rs:478-547 | the same owner checks, for a grantable action on an existing namespace or secret, inheriting only on a namespace, of an active policy, under a new identifier and unlike every other rule; exactly that row is added |
| `GraphStore.AuthorizationStore.BindPolicy` | crates/smcv-app/src/authorization.rs:556-635 | the same owner checks, for an active policy and an active service principal not yet bound to it; exactly that row is added |
| `GraphStore.ArchivedGrantsNothing` | crates/smcv-app/src/authorization.rs:389-468 | after a policy is archived, exactly the access that rests on other policies remains |
| `GraphStore.ArchivedDisclosesNothing` | crates/smcv-app/src/authorization.rs:190-215 | and a move's preview lists exactly what it would list for the other policies |
| `GraphStore.LabelReadsBack` | crates/smcv-app/src/authorization.rs:1335-1349 | a stored label reads back exactly if it has 1 to 128 bytes, and every label read was stored so |
| `GraphTheorems.CommitmentDeterminesItems` | crates/smcv-app/src/authorization.rs:1206-1271 | without collisions, equal commitments mean equal revisions and the same multiset of items |
| `GraphTheorems.SerializeInjective` | crates/smcv-app/src/authorization.rs:1198-1204 | length-prefixed items are uniquely decodable |
| `GraphTheorems.PolicyDetermined` | crates/smcv-app/src/authorization.rs:1136-1161 | without collisions a policy's commitment determines every field of its row, envelope included |
| `GraphTheorems.GrantDetermined` | crates/smcv-app/src/authorization.rs:1163-1179 | so does a grant's |
| `GraphTheorems.BindingDetermined` | crates/smcv-app/src/authorization.rs:1181-1190 | and a binding's |
| `GraphTheorems.CommitmentDeterminesRows` | crates/smcv-app/src/authorization.rs:1136-1190 | and the same policies, grants and bindings, field by field |
| `Gate.RunsKeepInv` | crates/smcv-app/src/authorized_vault.rs:68-95 | in every interleaving a live guard's session or credential is unrevoked and the graph and parents it reads are unchanged |
| `Gate.RunsKeepQuota` | crates/smcv-storage/src/identity.rs:404-478 | in every interleaving no principal has more than 32 sessions that are not revoked |
| `Gate.ReaderKeepsInv` | crates/smcv-app/src/authorized_vault.rs:68-95 | each step of a request keeps it |
| `Gate.WriterKeepsInv` | crates/smcv-app/src/service_identity.rs:569-644 | each step of a revocation, policy change or move keeps it |
| `Gate.BesideKeepsInv` | crates/smcv-app/src/service_identity.rs:463-536 | each step that needs no gate keeps it: logins, session touches, credential use, expiry sweeps |
| `Gate.GuardsBlockWriters` | crates/smcv-app/src/authorization.rs:246-249 | while a guard lives no revocation, policy change or move can start |
| `Gate.EndedForGood` | crates/smcv-app/src/service_identity.rs:711-742 | a revoked or swept credential never becomes active again |
| `Gate.RevocationEnds` | crates/smcv-app/src/service_identity.rs:569-644 | after a revocation commits no later request with that session or credential is granted |
| `Gate.GuardGrantedIff` | crates/smcv-app/src/authorized_vault.rs:68-95 | a request gets its guard exactly when its context is active, with the current graph and namespaces, and changes nothing stored |
| `Gate.ServiceGrantedIff` | crates/smcv-app/src/service_identity.rs:711-742 | a service request gets its guard exactly when its credential is there, is that principal's, is unrevoked, was neither created nor last used after now, has not expired, and the principal is active |
| `Gate.OwnerGrantedIff` | crates/smcv-app/src/authentication.rs:771-797 | an owner's request gets it exactly within the context's own window, with the session there, that principal's, unrevoked, neither created nor last used after now, and within both its windows |
| `Gate.ExpiredCredentialIsRefused` | crates/smcv-app/src/service_identity.rs:724-732 | no interleaving puts off a credential's expiry, and past it every request that presents it is turned away |
| `Gate.ExpiredSessionIsRefused` | crates/smcv-app/src/authentication.rs:785-793 | the same for a session's absolute expiry, whatever window its contexts were given |
| `Gate.WriterEntersIff` | crates/smcv-app/src/authorization.rs:304-307 | a revocation or policy change gets in exactly when no thread holds the gate |
| `Gate.GateIsReleased` | crates/smcv-app/src/authorized_vault.rs:68-95 | exactly who holds the gate lets go of it: a guard by dropping it, a writer by releasing it |
| `Gate.ChangesTakeEffectIff` | crates/smcv-app/src/authorization.rs:304-307 | policies change and namespaces move exactly for a writer, and then no guard is alive to see it |
| `Gate.AdditionsNeedNoGate` | crates/smcv-storage/src/identity.rs:664-692 | new credentials and namespaces are added without the gate, under an unused identity or where a create is permitted |
| `Gate.LogoutIff` | crates/smcv-storage/src/identity.rs:552-587 | whatever other threads do between a logout's read and its write, it revokes its session exactly when the session is still there with the last use it had |
| `Gate.RevocationIff` | crates/smcv-storage/src/identity.rs:728-764 | likewise a credential is revoked exactly when no use has moved its revision in between |
| `Gate.RevokedSessionIsFrozen` | crates/smcv-storage/src/identity.rs:517-587 | in every run a revoked session's row never changes again; only a login's sweep removes it |
| `Gate.RevokedCredentialIsFrozen` | crates/smcv-storage/src/identity.rs:694-764 | in every run a revoked credential's row never changes again |
| `Gate.TouchIff` | crates/smcv-storage/src/identity.rs:517-549 | whatever other threads do in between, a touch goes through exactly when the session is still there, unrevoked, with the last use it was read with and in both windows; it moves the idle window to 30 minutes within the absolute one |
| `Gate.UseIff` | crates/smcv-storage/src/identity.rs:694-726 | likewise a use is recorded exactly for an unrevoked, unexpired credential whose revision no one else has moved |
| `Gate.LoginIff` | crates/smcv-storage/src/identity.rs:404-478 | a login goes through exactly with proper windows, a fresh identity and fewer than 32 open sessions, and removes exactly the revoked and absolutely expired ones |
| `AuditEncoding.Commit` | crates/smcv-crypto/src/lib.rs:478-541 | accepts exactly bounded inputs of version 1 or 2 and commits to the canonical bytes, fed field by field |
| `AuditEncoding.EncodeInjective` | crates/smcv-crypto/src/lib.rs:478-552 | the canonical bytes are uniquely decodable across versions and optional fields |
| `AuditChain.VerifyAuditChain` | crates/smcv-app/src/vault_core.rs:1019-1073 | the paged verifier accepts exactly gap-free, linked, committed logs and reports their head |
| `AuditChain.CheckLink` | crates/smcv-app/src/vault_core.rs:1031-1060 | one row links exactly when its number, previous commitment and recomputed commitment agree with the head |
| `AuditChain.SameHeadSameLog` | crates/smcv-app/src/vault_core.rs:1019-1073 | without collisions, two logs accepted against the same head are identical |
| `AuditChain.RunsStayChained` | crates/smcv-app/src/vault_core.rs:1330-1389 | in every interleaving of builds, stores, failures and restarts the log stays chained and only grows |
| `AuditChain.StepKeepsInv` | crates/smcv-app/src/vault_core.rs:1330-1389 | each step keeps the log chained, the pending record next in line and the gate with its builder |
| `AuditChain.BuiltRecordsStore` | crates/smcv-storage/src/records.rs:1214-1223 | under the gate the head check never fails: a built record is stored unless storage fails or a number overflows |
| `AuditChain.StoreIff` | crates/smcv-storage/src/records.rs:1214-1223 | in any state the store inserts nothing but the next record after the head, and nothing if storage fails |
| `AuditChain.BuildLeavesPending` | crates/smcv-app/src/vault_core.rs:1330-1389 | with the gate free a build leaves exactly the event, numbered and linked after the head |
| `AuditChain.NextBuildGoesThrough` | crates/smcv-app/src/vault_core.rs:1330-1389 | however the holder of the gate ends, the gate is free again and the next event is numbered after whatever the log then holds |
| `AuditChain.VerifyAfterRun` | crates/smcv-app/src/vault_core.rs:1019-1073 | the verifier accepts the log of every reachable state |
| `KekRotation.NextBatch` | crates/smcv-storage/src/rotation.rs:313-360 | the first rows due after the checkpoint, in row order, up to the limit; empty exactly when none is due |
| `KekRotation.InitializedIsSound` | crates/smcv-app/src/initialization.rs:516-590 | a vault as initialization leaves it meets the invariant every rotation result starts from |
| `KekRotation.FirstRows` | crates/smcv-storage/src/rotation.rs:313-360 | the smallest row numbers of a set, in order, up to the limit |
| `KekRotation.RewrapKeepsMeaning` | crates/smcv-app/src/rotation.rs:280-321 | a rewrapped record holds the same data key and is no longer wrapped by the source |
| `KekRotation.BeginKeepsSound` | crates/smcv-storage/src/rotation.rs:210-280 | a rotation begins in a state where every record is readable and the registry rebuilds the ring |
| `KekRotation.NothingUnrotated` | crates/smcv-storage/src/rotation.rs:486-515 | when every stage has been scanned no record is wrapped by the source key |
| `KekRotation.FinishKeepsSound` | crates/smcv-storage/src/rotation.rs:444-482 | retiring the source key then keeps every record of the six kinds readable |
| `KekRotation.RotatingVault.Write` | crates/smcv-app/src/vault_core.rs:1224-1260 | a write under the active key at any stage keeps everything readable |
| `KekRotation.RotatingVault.Delete` | crates/smcv-storage/src/records.rs:1134-1188 | a purge at any stage removes exactly that record |
| `KekRotation.RotatingVault.WriteOther` | crates/smcv-app/src/authorization.rs:329-346 | a policy or service-identity record is written under the active key too |
| `KekRotation.RotatingVault.Start` | crates/smcv-app/src/rotation.rs:40-94 | starts exactly from normal service, keeps every record readable and puts the new key in ring and registry |
| `KekRotation.RotatingVault.RewrapBatch` | crates/smcv-storage/src/rotation.rs:365-405 | one batch keeps every record's data key, moves the checkpoint and leaves fewer source-wrapped records |
| `KekRotation.RotatingVault.AdvanceStage` | crates/smcv-storage/src/rotation.rs:409-440 | only an exhausted stage is left, and nothing behind the scan is source-wrapped |
| `KekRotation.RotatingVault.Finish` | crates/smcv-storage/src/rotation.rs:444-482 | no record of the six kinds names the source key; policy and service-identity records that do become unreadable |
| `KekRotation.RotatingVault.Resume` | crates/smcv-app/src/rotation.rs:104-160 | completes or makes strict progress, within the batches allowed, and the batches it reports account for every row rewrapped |
| `KekRotation.RotatingVault.RotateToCompletion` | crates/smcv-app/src/rotation.rs:167-174 | terminates with the source key retired and every record of the six kinds readable |
| `KekRotation.RotatingVault.Restart` | crates/smcv-app/src/initialization.rs:222-243 | from the database alone start-up rebuilds exactly the ring, at any checkpoint |
| `KekRotation.RegistryValidIff` | crates/smcv-app/src/initialization.rs:422-472 | the registry is accepted exactly when one version is active and, during a rotation, one other is retiring, as its job says; all others are retired |
| `KekRotation.RebuildRing` | crates/smcv-app/src/initialization.rs:226-240 | the loop over registered keys unwraps exactly the ring in use |
| `KekRotation.OthersSurviveIff` | crates/smcv-storage/src/rotation.rs:579-592 | retiring the source keeps policy and service-identity records readable exactly when none is wrapped by it |
| `BackupJobs.BackupJobRegistry.LoadStatuses` | crates/smcv-server/src/backup_jobs.rs:126-222 | on any directory: short of an I/O failure it succeeds exactly when status files are well formed and at most 32 jobs survive, with exactly the settled jobs and their artifacts left |
| `BackupJobs.BackupJobRegistry.LoadRecords` | crates/smcv-server/src/backup_jobs.rs:126-201 | the first loop removes expired jobs, fails interrupted and damaged ones, and keeps the rest |
| `BackupJobs.BackupJobRegistry.SweepArtifacts` | crates/smcv-server/src/backup_jobs.rs:202-216 | the second loop leaves exactly the artifacts of completed jobs |
| `BackupJobs.OpenGuarantees` | crates/smcv-server/src/backup_jobs.rs:160-213 | no job is pending or running, every artifact left is restrictive and of the length its whole, completed record gives, and memory is what is on disk |
| `BackupJobs.OpenSettles` | crates/smcv-server/src/backup_jobs.rs:126-222 | row by row: a live job that was pending or running has failed as interrupted; a completed one with a missing field or an artifact that is absent, unrestrictive or of another length has failed its integrity check; both lose their artifact; all others stay |
| `BackupJobs.LoadableIff` | crates/smcv-server/src/backup_jobs.rs:148-200 | start-up succeeds exactly when every status file parses, names its job and has times in order, and at most 32 jobs have not both ended and expired |
| `BackupJobs.OpenIsIdempotent` | crates/smcv-server/src/backup_jobs.rs:126-222 | opening again at once changes nothing |
| `BackupJobStartUp.FinishedIsLoaded` | crates/smcv-server/src/backup_jobs.rs:126-222 | a start-up taken one file operation at a time, in any order, ends exactly where `LoadStatuses` promises if it finishes |
| `BackupJobStartUp.StartUpFinishes` | crates/smcv-server/src/backup_jobs.rs:126-222 | and from any point of a start-up that is not refused some further operations finish it |
| `BackupJobStartUp.RunKeepsLoading` | crates/smcv-server/src/backup_jobs.rs:126-222 | every prefix of those operations leaves each job waiting, removed or settled, in that order of its own files |
| `BackupJobStartUp.CutOffReopensAlike` | crates/smcv-server/src/backup_jobs.rs:126-222 | cut off after any file operation and started again, start-up accepts the same directories and ends alike |
| `BackupJobStartUp.CutOffOpensLater` | crates/smcv-server/src/backup_jobs.rs:126-222 | and it opens at any later time as well |
| `BackupJobStartUp.RefusedMakesProgress` | crates/smcv-server/src/backup_jobs.rs:172-201 | a refused start-up, once finished jobs have expired, has settled at least 33 live jobs on disk |
| `BackupJobStartUp.RefusedThenOpens` | crates/smcv-server/src/backup_jobs.rs:172-201 | so a directory with at most 65 live jobs opens at the latest on the second such start-up |
| `BackupJobRuns.RefusedOnlyOverQuota` | crates/smcv-server/src/backup_jobs.rs:200-203 | in every run, with any failure, only the quota can refuse a directory |
| `BackupJobRuns.RunsStayDurable` | crates/smcv-server/src/backup_jobs.rs:224-342 | without I/O failures, memory and disk agree up to the operation in progress, in every run |
| `BackupJobRuns.OpeningRefinesLoad` | crates/smcv-server/src/backup_jobs.rs:95-222 | within whole runs, every start-up that gets the registry up has done what `LoadStatuses` promises |
| `BackupJobRuns.LoadableOpens` | crates/smcv-server/src/backup_jobs.rs:95-222 | and a loadable directory does get up |
| `BackupJobRuns.CrashedRegistryOpens` | crates/smcv-server/src/backup_jobs.rs:224-342 | whatever prefix of the file operations a crash leaves, the registry opens again |
| `BackupJobRuns.CompletedJobsSurvive` | crates/smcv-server/src/backup_jobs.rs:126-342 | a crash anywhere, also in the middle of a file operation, and any number of further crashes and cut-off start-ups keep a completed job with an intact artifact, unless that job itself is being removed; once renamed, a completion in flight counts |
| `BackupJobRuns.PersistGoesThrough` | crates/smcv-server/src/backup_jobs.rs:326-342 | a persist without failures puts the record on disk and in memory and changes nothing else |
| `BackupJobRuns.CreateGoesThrough` | crates/smcv-server/src/backup_jobs.rs:224-252 | a create adds exactly one fresh pending job, kept for 15 minutes, to memory and disk |
| `BackupJobRuns.UpdateGoesThrough` | crates/smcv-server/src/backup_jobs.rs:254-272 | an update stores exactly the record its change makes, field by field, and never moves its update time back |
| `BackupJobRuns.BeginsIff` | crates/smcv-server/src/backup_jobs.rs:224-325 | exactly what a create, an update and a removal ask before they begin |
| `BackupJobRuns.PersistIsOrdered` | crates/smcv-server/src/backup_jobs.rs:326-342 | no status file changes before the temporary is written, memory not before the rename, and a failure before the rename leaves no trace |
| `BackupJobRuns.RemovalGoesThrough` | crates/smcv-server/src/backup_jobs.rs:292-324 | a removal takes artifact, status and memory of an ended job |
| `BackupJobRuns.RemovalIsOrdered` | crates/smcv-server/src/backup_jobs.rs:305-323 | only in that order, and only what it was begun for |
| `BackupJobRuns.PublishIff` | crates/smcv-server/src/backup_jobs.rs:555-595 | an artifact is published exactly once for a running job, and dropped for any that has not completed |
| `BackupJobRuns.CompletionChecksOut` | crates/smcv-server/src/backup_jobs.rs:565-582 | a record completed with the length of its published artifact matches it, field by field |
| `BackupJobRuns.LeaksBlockStartUp` | crates/smcv-server/src/backup_jobs.rs:326-342 | a run after which start-up is refused whenever it is tried, until the jobs it settled have expired |
| `Metadata.DecodeOfEncoded` | crates/smcv-app/src/vault_core.rs:1497-1563 | every admitted input is read back, absent and empty texts told apart |
| `Metadata.EncodeOfDecoded` | crates/smcv-app/src/vault_core.rs:1444-1495 | every accepted byte string is the encoding of the admitted input it decodes to |
| `Metadata.EncodeMetadata` | crates/smcv-app/src/vault_core.rs:1392-1495 | accepts exactly admitted input, and the growing buffer is its encoding |
| `Metadata.DecodeMetadata` | crates/smcv-app/src/vault_core.rs:1497-1579 | the moving cursor computes the decoding function |
| `Metadata.ReadString` | crates/smcv-app/src/vault_core.rs:1565-1579 | a text at the cursor is read exactly when it is in bounds, in range and valid text |
| `Metadata.ReadTagStrings` | crates/smcv-app/src/vault_core.rs:1531-1544 | the loop over tags computes the tag list and the cursor behind it |
| `RecoveryChannel.RunsKeepInv` | crates/smcv-cli/src/recovery_web.rs:332-684 | the channel's invariant over every interleaving; nothing is staged after consumption |
| `RecoveryChannel.SingleUse` | crates/smcv-cli/src/recovery_web.rs:332-684 | at most one claim, one staged archive and one restore, of the staged archive whose identity was confirmed |
| `RecoveryChannel.ClaimGoesThrough` | crates/smcv-cli/src/recovery_web.rs:332-395 | the right code claims an unclaimed channel and opens its session |
| `RecoveryChannel.StagingGoesThrough` | crates/smcv-cli/src/recovery_web.rs:397-468 | an authorized upload that verifies becomes the pending archive |
| `RecoveryChannel.RejectionReleases` | crates/smcv-cli/src/recovery_web.rs:418-442 | an upload that fails verification gives its reservation back |
| `RecoveryChannel.ActivationIff` | crates/smcv-cli/src/recovery_web.rs:625-684 | activation restores exactly when the pending archive's identity is confirmed |
| `RecoveryChannel.NothingWithoutCode` | crates/smcv-cli/src/recovery_web.rs:332-395 | over every run: without the right code in time there is no claim, no session, no staged archive and no restore |
| `RecoveryChannel.NothingWithoutToken` | crates/smcv-cli/src/recovery_web.rs:289-330 | over every run on a claimed channel: without the session's token in time, or once consumed, nothing but looking requests changes |
| `RecoveryChannel.RetryIff` | crates/smcv-cli/src/recovery_web.rs:397-468 | over every run: once the session is open and nothing is staged, an archive can still be staged exactly when no reservation was ever dropped |
| `RecoveryChannel.StuckIff` | crates/smcv-cli/src/recovery_web.rs:397-468 | a run leaves the channel stuck exactly when some failed extraction or dropped request ended a reservation on the way |
| `RecoveryChannel.DroppedUploadIsReachable` | crates/smcv-cli/src/recovery_web.rs:332-441 | claim, session, reservation, failed extraction: six steps after which nothing is ever staged or restored |
| `RecoveryChannel.StuckForGood` | crates/smcv-cli/src/recovery_web.rs:413-416 | a channel left reserved never stages and never restores |
| `Sessions.RunsStayInWindows` | crates/smcv-app/src/authentication.rs:327-411 | in every run uses never go back, never pause over 30 minutes, stay within 12 hours, and none follows a logout |
| `Sessions.UsesAreOrdered` | crates/smcv-app/src/authentication.rs:327-411 | any two successful uses are in order |
| `Sessions.WindowedUsesSucceed` | crates/smcv-app/src/authentication.rs:327-411 | every list of times within those windows authenticates throughout |
| `Sessions.UsesWerePresented` | crates/smcv-app/src/authentication.rs:327-411 | in every run each use was a request's whose token and anti-forgery value were accepted and whose owner was active |
| `Sessions.RecentIff` | crates/smcv-app/src/authentication.rs:98-107 | in every run a context counts as recent exactly in its own window of at most 30 minutes and within 5 minutes of the login |
| `Sessions.CreateBrowserSession` | crates/smcv-app/src/authentication.rs:473-576 | a session is created exactly when neither the authenticator's times nor 64 bits forbid it, with the error otherwise |
| `Sessions.BrowserSession.constructor` | crates/smcv-app/src/authentication.rs:496-511 | the row of a new session begins the history with its windows |
| `Sessions.BrowserSession.Authenticate` | crates/smcv-app/src/authentication.rs:327-411 | succeeds exactly for an accepted token and anti-forgery value, an active owner and an unrevoked session in both windows; the context it gives and the row it stores; otherwise nothing changes |
| `Sessions.BrowserSession.Logout` | crates/smcv-app/src/authentication.rs:419-471 | exactly when a logout succeeds and what it stores |

## Left out

- Cryptographic primitives (the AEAD, HMAC, SHA-256, Argon2id, random generation): library code, idealised as above.
- SQLite: each storage method is one atomic step; schema constraints enter only where a property needs them.
- Archive input and output errors and a consumer that refuses a chunk: a write or read that fails part-way produces no verdict; aborted writes are covered by the authenticity theorem.
- The recovery key's text form and the passphrase derivation cost: the key modes enter through a derivation function.
- `state_commitment`'s limit of 4096 bytes for every state but authenticators: the other canonical texts hold fixed-width or hashed fields.
- The import of a restored snapshot into SQLite, the appended restore audit event and the activation marker: the restored rows are taken as stored.
- BackupFiles.RestoreFile: verifies the restored rows as transformed; the source reads some of them back from SQLite first.
- Restore.Transform: does not say that no random draw is used twice; randomness is a parameter.
- Unknown principal and authenticator kinds in a backup are refused by the record codec of the model, not by the transformation.
- Root-provider rotation, which rewraps key-encryption keys only: it would repeat the rewrap argument on one table.
- Interleavings of a record write with the start of a key rotation: each public rotation call is one step, and a crash may fall between any two durable checkpoints.
- The registry's create, update, remove and cleanup are the interleaved file steps of `BackupJobRuns`, not methods of its class.
- The audit record each mutator appends, and the integrity check of a namespace, secret or principal row it looks up: `AuditChain` and `RestoreTheorems` cover those.
- File permissions, symlinks, fsync order and zeroization: platform effects; the registry model keeps the order of create, rename, synchronise and remove.
- Gate.RunsKeepInv: sessions swept because they expired count as unrevoked for a guard that already holds them.
- Passkey ceremonies, HTTP routing, multipart parsing, cookies, the command line, metrics and redacted output: interface plumbing.
- The service-identity metadata codec: close to the metadata codec, and it would add only easy members.

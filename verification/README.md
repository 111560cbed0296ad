# Verified model of attest

A Dafny 4.11 model of attest, a tool that runs build pipelines, signs a receipt of what
happened, publishes a commitment to the receipt in a transparency log, and lets a
recipient verify all of it against a local trust store. The model follows the Rust code
branch by branch and proves what its documentation promises.

`dafny verify dfyconfig.toml` checks the whole project.

## How it is organised

A file holds one module, named like the file unless the table adds the module's name.

| Part | Files and modules |
|---|---|
| Log proofs (RFC 6962) | `Numbers`, `Merkle`, `LogProofs`, `LogSoundness`, `Subtrees` |
| The tile reader (C2SP tlog-tiles) | `Text`, `TilePaths`, `TileModel`, `TileStack`, `TileLayout`, `TileReader` (`TileReading`), `HonestLog` |
| Published evidence and the recipient's verdict | `Hex`, `Record` (`PublicationEvidence`), `RecordVerdict` (`PublicationVerdict`) |
| The publication protocol | `Publisher` (`PublicationProtocol`), `PublisherSafety` (`PublicationSafety`), `PublisherSteps` (`PublicationSteps`), `PublisherHistory` (`PublicationHistory`), `PublisherResume` (`PublicationResume`), `PublishDrive` (`PublicationDrive`), `PublishClient` (`PublicationClient`), `PublisherRuns` (`PublicationRuns`) |
| The trust store and what verification makes of it | `TrustModel`, `TrustImport`, `TrustLattice`, `TrustHistory`, `SignatureTrust`, `TrustMaterial`, `VerdictPolicy`, `TrustExamples` |
| Pipeline scheduling | `Graph` (`DependencyGraph`), `Dag` (`ExecutionGraph`), `Kahn` (`KahnSort`), `Layers` (`PipelineLayers`) |
| Running a pipeline | `Executor` (`PipelineRun`), `CausalEvents`, `InputGuard` (`PermissionGuard`) |
| Manifests, inventories, paths | `Order`, `Manifest` (`Manifests`), `Inventory` (`ArtifactInventory`), `LexicalPaths`, `Fields` (`FieldEncoding`) |
| DER and object identifiers | `Der` (`DerReading`), `DerSchema`, `Certificate` (`WorkflowCertificate`), `Oid` (`ObjectIdentifiers`) |

`Outcome` holds `Option` and `Result`. Error texts are not modelled: a failure is `Err`,
`None` or the status the code reports.

## Conventions

- **Digests are parameters.** SHA-256 and BLAKE3 are functions about which nothing is
  assumed. A digest with more inputs than outputs always has collisions, so "or a
  collision exists" would say nothing; every soundness result therefore names a function
  that computes two distinct preimages of one digest from the data at hand
  (`InclusionCollision`, `ConsistencyCollision`, `VerdictCollision`, `OpeningCollision`,
  `InputCollision`, `InventoryCollision`, `Collision`).
- **Signatures, PEM, JSON and hexadecimal key parsing** are function parameters.
- **Hash-map and directory iteration order** is an arbitrary choice in every loop.
- **The environment** (log replies, tile source, clocks, step exit codes, crashes, other
  processes) is a parameter or an event, so a result holds for every behaviour of it.
- **Machine integers** of the log code are 64-bit (`u64`); shifts, additions and
  subtractions are proved not to overflow.

## What the proofs found

- A saved `Confirmed` record can be withdrawn: when syncing the directory fails after the
  rename, `save` reports an error although the new file is in place, and the closing save
  of `publish` then overwrites it (`src/publication/client.rs:291-318`, `:478-513`).
  `ConfirmedForeverIff` says from which states a stored confirmation is safe for good,
  `ConfirmedLeftIff` which event withdraws it, `ConfirmedNeverLeft` that atomic saves up to
  the confirmation are enough. `ConfirmationIsLost` is a whole run from the initial state
  that loses one, `UnsyncedConfirmationIsLost` the same from every state about to confirm.
- An entry can be submitted again after the log returned an index for it, because the index
  is safe only once it is on the durable record. The publisher may die before its save
  (`CrashBeforeSaveResubmits`), or live on while both saves after the reply fail
  (`FailedSavesResubmit`); `EntryIsSubmittedTwice` and `EntryIsSubmittedTwiceAlive` are such
  runs from the initial state. `NoMorePostsIff` is the exact condition while attempts are
  left: no request can follow if and only if the durable record holds an index.
  `SubmittedAgainIff` is the same without that proviso.
- An import can save a policy that no longer loads: a `<id>.pub` file already in the trust
  directory with another key's contents is kept, and the new entry then fails the check
  on the next load (`src/trust.rs:697-714`). `SavedPolicyLoadsIff` gives the exact
  condition, which a caller can check before importing, and `StrayFileStopsPolicy` a store
  and an accepted bundle where it fails.
- `KeyStore::revoke` replaces an earlier revocation date by the present
  (`src/keys.rs:366-377`); it is the only operation that improves a listed key's standing
  (`OnlyRevokeRaises`). No operation makes a revoked key trusted (`RevokedForever`).
- An import never rescues a signature (`TighteningNeverRescues`), but it can rescue a
  verdict: under a policy that asks for current trust material, a bundle that becomes the
  newest to list the signer makes a failing verdict pass (`src/verify.rs:528-612`;
  `ImportRescues` gives a store and a bundle). A verdict that passes afterwards passed
  before unless the material is required and was not current before (`PassedBeforeIff`);
  `ImportRescuesIff` says exactly which imports rescue a verdict, from the store and the
  bundle.
- A held input that the step renames keeps its write bits off when the guard drops
  (`RenamedInputStaysReadOnly`). So may an input below a held directory whose search bit the
  step takes: whether it comes back depends on the order in which the two were declared
  (`SearchBitTaken`). `DropExactly` says for every step which inputs come back: those that
  stand, openable, at their path once everything held after them was dropped.
- An input with the set-group-id bit, in a group the user is not in, comes back without
  that bit, because `chmod` clears it (`src/executor/mod.rs:325-333`;
  `ForeignGroupLosesSetgid`). `HoldThenDrop` shows that this is the only loss when nothing
  was moved or changed.
- A receipt with a cache-hit step that has outputs fails the inventory check, because only
  executed steps record artifacts (`src/executor/mod.rs:719-721`, `:766-768`).
  `RunAcceptedIff` says exactly which runs pass.
- Of the paths that hashing accepts, those with a backslash or a colon are refused by the
  inventory check (`SafeExactly`).
- `oid_to_dotted` splits the first byte by 40, which is the standard's rule exactly below
  120 (`FirstByteExact`), and accepts an arc cut off while its value is zero
  (`ZeroTailAccepted`), although it reports other truncated arcs.
- `retag_as_set` writes lengths of five octets and more that neither reader takes
  (`RetagReadBack`).

## Model

| member | source | states |
|---|---|---|
| `Numbers.Split` | src/publication/merkle.rs:38-41 | The shift by leading zeros yields, for every size of at least 2, a power of two k with k < size <= 2k, without overflow. |
| `Numbers.SplitUnique` | src/publication/merkle.rs:38-41 | RFC 6962 fixes the split point: any power of two within those bounds is the one computed. |
| `Numbers.SplitOfPrefix` | src/publication/merkle.rs:104-119 | A prefix that reaches past the split point has the same split point, which the two-sided recursion relies on. |
| `Merkle.RootIsMTH` | src/publication/merkle.rs:28-62 | The range-wise subtree root is the recursive `MTH` of section 2.1 of RFC 6962 applied to that slice of the log. |
| `Merkle.RootOfExtension` | src/publication/tiles.rs:11-18 | A subtree hash does not change when the log grows. |
| `LogProofs.PathIter.Next` | src/publication/merkle.rs:43-62 | The path iterator yields each node once, in order, then nothing. |
| `LogProofs.InclusionRoot` | src/publication/merkle.rs:43-62 | Consumes exactly the nodes an inclusion path needs and gives the root they imply, or fails exactly when there are too few. |
| `LogProofs.VerifyInclusion` | src/publication/merkle.rs:64-87 | Accepts exactly an index inside the tree with a path of exactly the needed length whose recomputed root is the given one; the 64-node limit never bites first. |
| `LogProofs.ConsistencyRoots` | src/publication/merkle.rs:89-120 | Gives both recomputed roots and the number of nodes consumed, or fails exactly when the path is too short. |
| `LogProofs.VerifyConsistency` | src/publication/merkle.rs:122-165 | Accepts exactly the consistent pairs, with the equal-size and empty-prefix cases of the code; the 65-node limit never bites first. |
| `LogProofs.PathLengthBound` | src/publication/merkle.rs:8-11 | Inclusion paths have at most 64 nodes, and at most the bit length of size - 1. |
| `LogProofs.ConsistencyLengthBound` | src/publication/merkle.rs:8-11 | Consistency paths have at most 65 nodes. |
| `LogProofs.InclusionRanges` | src/publication/merkle.rs:168-189 | Pushes exactly the ranges of the proof, or fails exactly for an index outside the tree. |
| `LogProofs.ConsistencyRanges` | src/publication/merkle.rs:192-215 | Pushes exactly the ranges of the proof; nothing for an empty old tree; fails exactly for reversed sizes. |
| `LogProofs.InclusionPartition` | src/publication/merkle.rs:168-189 | The inclusion ranges and the leaf itself cover every leaf of the tree exactly once and nothing outside it. |
| `LogProofs.ConsistencyPartition` | src/publication/merkle.rs:192-215 | The consistency ranges cover exactly once each leaf the verifier does not already know. |
| `LogProofs.ConsistencyBoundary` | src/publication/merkle.rs:192-215 | No consistency range straddles the boundary between old and new leaves. |
| `LogSoundness.InclusionSound` | src/publication/merkle.rs:64-87 | If the verifier accepts against MTH(D), the entry is D[index] and the path is the list of subtree hashes that the ranges name, or the named collision breaks the digest. |
| `LogSoundness.InclusionComplete` | src/publication/merkle.rs:64-87 | For every log and index, the subtree hashes that the ranges name are accepted. |
| `LogSoundness.ConsistencySound` | src/publication/merkle.rs:122-165 | If the verifier accepts against MTH(D), the old root is MTH of the first old_size leaves of D and the path is the honest one, or the named collision breaks the digest. |
| `LogSoundness.ConsistencyComplete` | src/publication/merkle.rs:122-165 | For every log and old size, the subtree hashes that the ranges name are accepted. |
| `TilePaths.MakeTilePath` | src/publication/tiles.rs:20-38 | The grouping loop builds the tile name, or fails exactly for coordinates out of range. |
| `TilePaths.GroupsWrite` | src/publication/tiles.rs:20-38 | The groups in the name are the index in base ten, three digits each and no more of them than that takes, all but the last marked. |
| `TilePaths.TilePathInjective` | src/publication/tiles.rs:20-38 | Distinct tiles have distinct names: level, index and width can be read off the path. |
| `Subtrees.InclusionAligned` | src/publication/merkle.rs:168-189 | Every range of an inclusion proof is aligned to its enclosing power of two, which the tile reader requires. |
| `Subtrees.ConsistencyAligned` | src/publication/merkle.rs:192-215 | Every range of a consistency proof is aligned. |
| `Subtrees.InclusionPieces` | src/publication/tiles.rs:77-80 | An inclusion proof takes at most 128 perfect-subtree reads. |
| `Subtrees.ConsistencyPieces` | src/publication/tiles.rs:77-80 | A consistency proof takes at most 128 perfect-subtree reads. |
| `TileModel.Geometry` | src/publication/tiles.rs:65-75 | A perfect subtree of an aligned range lies inside one tile, with node height at most 63 and at most 128 nodes. |
| `TileLayout.Placement` | src/publication/tiles.rs:65-75 | No shift, subtraction or addition of the coordinates overflows, the level is at most 7, and the width check cannot fail for a range inside the tree. |
| `TileModel.FaithfulTile` | src/publication/tiles.rs:82-99 | A tile of a later extension of the log describes, within the authenticated width, this log. |
| `TileReading.TileReader.FetchTile` | src/publication/tiles.rs:81-97 | A partial tile that is missing is retried as a full one; whatever a faithful source returns holds this log within its width; a serving source never fails. |
| `TileReading.TileReader.FoldBlocks` | src/publication/tiles.rs:104-113 | Pairwise folding of consecutive nodes yields the root of the subtree they span. |
| `TileReading.TileReader.PerfectRoot` | src/publication/tiles.rs:56-114 | For any cache content that holds D and any faithful source, a returned hash is the root of D over that range, the cache still holds D, and the range is inside the authenticated tree. |
| `TileStack.TallyExpanded` | src/publication/tiles.rs:138-141 | Replacing a range by its two halves and a join leaves the number of roots the stacks end with as it was, whatever the hashes are. |
| `TileStack.DrainExpanded` | src/publication/tiles.rs:138-141 | It also leaves the roots themselves as they were, when every hash read is the log's own. |
| `TileReading.TileReader.RangeRoot` | src/publication/tiles.rs:118-144 | The two-stack machine refines the recursive tree: from a faithful source and a cache of this log, whatever it returns is MTH of D[start..start+size]. For every source and cache it ends, no join finds fewer than two roots, and exactly one root is left; a serving source, faithful or not, makes it succeed on aligned ranges. |
| `TileReading.TileReader.Inclusion` | src/publication/tiles.rs:146-152 | From a faithful source and a cache of this log the assembled path is the honest one; from every serving source it succeeds for every index while 128 cache slots are free, with at most 128 reads. |
| `TileReading.TileReader.Consistency` | src/publication/tiles.rs:154-164 | The same for both sizes of a consistency proof. |
| `TileReading.ReadAndVerifyInclusion` | src/publication/client.rs:379-389 | For every tree size below 2^64 and every index, a fresh reader over a faithful serving source produces a path that the verifier accepts, so the 512-tile cap never fires. |
| `TileReading.ReadAndVerifyConsistency` | src/publication/client.rs:517-554 | The same for every pair of sizes. |
| `HonestLog.HonestSourceServes` | src/publication/tiles.rs:13-18 | The assumptions on a source are met by a log that publishes its own tiles, for every log. |
| `Hex.HashBytesExact` | src/publication/mod.rs:17-30 | `hash_bytes` reads exactly the canonical lower-case text of a hash. |
| `PublicationEvidence.EntryBinds` | src/publication/mod.rs:32-43 | A published entry opens to one causal root and one nonce, or the named collision breaks the digest. |
| `PublicationEvidence.EvidenceOf` | src/publication/record.rs:146-169 | What passes the inclusion check carries an accepted inclusion proof of the entry computed from this receipt root. |
| `PublicationEvidence.CompareConnects` | src/publication/record.rs:222-336 | A passing comparison is an accepted consistency proof between the reference and the publication checkpoint. |
| `PublicationEvidence.VerdictBinds` | src/publication/record.rs:222-336 | An accepted inclusion proof and an accepted consistency proof to a larger log D place the entry at D[index], or the named collision breaks the digest. |
| `PublicationEvidence.AssessSound` | src/publication/record.rs:222-336 | When both log checks pass and the reference is the root of D at least as large, D[leaf_index] is the commitment of this receipt causal root, or a collision is produced. |
| `PublicationEvidence.AssessSoundSmaller` | src/publication/record.rs:222-336 | When both pass and the reference is smaller, the reference tree is a prefix of the publication tree, or a collision is produced. |
| `PublicationEvidence.NodesRoundTrip` | src/publication/record.rs:93-99 | Path nodes written as hexadecimal text are read back. |
| `PublicationEvidence.HonestRecordPasses` | src/publication/record.rs:146-169 | A record with the honest path over an authenticated checkpoint verifies. |
| `PublicationEvidence.HonestComparisonVerifies` | src/publication/record.rs:176-205 | The honest comparison of two heads of one log verifies. |
| `PublicationEvidence.HonestEvidencePasses` | src/publication/record.rs:222-336 | An honest record and an honest comparison pass both checks, whichever of publication and reference is the later head. |
| `PublicationVerdict.OpensExactly` | src/publication/record.rs:119-144 | `entry_bytes` answers exactly for records of the known format, with at most three attempts, a fit destination, a well-formed log id, the receipt root, and an entry text that is the opening of that root. |
| `PublicationVerdict.InclusionOutcome` | src/publication/record.rs:222-283 | The inclusion check fails exactly for a file that does not bind the receipt or, with trust, for a confirmed record whose note or path does not verify; it is skipped exactly without a file, without trust or for an unconfirmed record; without a pass or a reference there is no comparison. |
| `PublicationVerdict.ConsistencyOutcome` | src/publication/record.rs:284-336 | After inclusion passed: a reference that is not authentic or shows another root at the same size fails whatever else there is; a comparison passes exactly when it connects the two heads and fails otherwise; without one, equal heads pass, an empty tree passes exactly with the empty root, and only two different heads of non-empty trees are skipped. |
| `PublicationSafety.ActionKeeps` | src/publication/client.rs:326-401 | Each action of a publisher, and each answer of its surroundings, keeps the invariant. |
| `PublicationHistory.NextKeeps` | src/publication/client.rs:405-513 | Every step of every publisher and of its surroundings keeps the protocol invariant. |
| `PublicationHistory.RunKeeps` | src/publication/client.rs:405-513 | The invariant holds over every interleaving of publishers, crashes, deadlines and resumes. |
| `PublicationHistory.AtMostThreePosts` | src/publication/client.rs:338-344 | Over every run at most three requests are made for one record. |
| `PublicationHistory.PostsAreIntended` | src/publication/client.rs:339-346 | Whenever a request leaves, the durable record already holds that exact entry and that attempt, and no returned index. |
| `PublicationHistory.RecordNeverChanges` | src/publication/client.rs:440-477 | Entry, opening, root and destination never change, no attempt is forgotten and no recorded index is lost. |
| `PublicationHistory.NoPostAfterIndex` | src/publication/client.rs:333-338 | Once an index is on the durable record nothing is ever submitted again. |
| `PublicationHistory.ConfirmedIsVerified` | src/publication/client.rs:390-397 | A stored Confirmed state has passed full verification. |
| `PublicationHistory.ConfirmedLeftIff` | src/publication/client.rs:478-513 | A stored Confirmed state is overwritten exactly by a closing save that a failed directory sync let through. |
| `PublicationHistory.ConfirmedForeverIff` | src/publication/client.rs:447-451 | From a state with a stored Confirmed record: no run, whatever happens in it, ever changes the record, exactly when no publisher is about to close with an unconfirmed one. |
| `PublicationHistory.ConfirmedNeverLeft` | src/publication/client.rs:447-451 | When the saves until then are atomic, a stored Confirmed record is never left nor altered, whatever follows. |
| `PublicationHistory.UnsyncedConfirmationIsLost` | src/publication/client.rs:291-318 | From every state about to save a confirmation, a save that reports an error after replacing the file and the closing save after it lose the confirmation. |
| `PublicationResume.CrashBeforeSaveResubmits` | src/publication/client.rs:347-358 | From every state that awaits a reply with attempts left: after a crash between the reply and its save the same entry is submitted once more. |
| `PublicationResume.FailedSavesResubmit` | src/publication/client.rs:347-358 | From every such state: when the two saves after the reply fail, the publisher leaves and the next run submits the same entry once more, without any crash. |
| `PublicationResume.SubmittedAgainIff` | src/publication/client.rs:333-369 | From a state with a record, some run makes another request exactly when no index is on the durable record, its entry opens, and an attempt is left or a recorded one is about to be sent. |
| `PublicationResume.NoMorePostsIff` | src/publication/client.rs:333-369 | With attempts left, no run makes another request exactly when an index is on the durable record. |
| `PublicationRuns.ConfirmationIsReached` | src/publication/client.rs:405-513 | For every digest, root and nonce, a run from the initial state with atomic saves ends with a stored Confirmed record. |
| `PublicationRuns.ConfirmationIsLost` | src/publication/client.rs:291-318 | For every digest, root and nonce, a run from the initial state stores a Confirmed record and ends with an unconfirmed one. |
| `PublicationRuns.EntryIsSubmittedTwice` | src/publication/client.rs:338-369 | For every digest, root and nonce, a run from the initial state submits one entry twice although the service answered the first time. |
| `PublicationRuns.EntryIsSubmittedTwiceAlive` | src/publication/client.rs:338-369 | For every digest, root and nonce, a run from the initial state without a crash submits one entry twice although the service answered the first time. |
| `PublicationDrive.EndsOnce` | src/publication/client.rs:405-513 | The machine driven by what its surroundings answer can end a run in one way only. |
| `PublicationDrive.ResumedConfirms` | src/publication/client.rs:440-465 | A stored record with an index is polled for: after any number of looks that find nothing, the first verifying path is saved and returned, without another request. |
| `PublicationDrive.FirstConfirms` | src/publication/client.rs:453-513 | Where there is no file: the new record, its intent, the request, the index and the proof, each saved in turn, end with the confirmation returned. |
| `PublicationDrive.RequestConfirms` | src/publication/client.rs:338-401 | From the head of the loop, one request whose index comes back and verifies is confirmed. |
| `PublicationDrive.Retries` | src/publication/client.rs:359-369 | No connection, a server error or a rate limit: the reason is on record and, after a rest, the loop goes on. |
| `PublicationDrive.RefusalEnds` | src/publication/client.rs:359-368 | Any other refusal ends the attempts and is what is stored and returned. |
| `PublicationDrive.AttemptsEnd` | src/publication/client.rs:493-510 | After the third attempt without an index the run ends, with the attempt limit as the reason where no better one is known. |
| `PublicationDrive.DeadlineEnds` | src/publication/client.rs:478-491 | At every wait (before or after sending, in a rest, at a look) the deadline ends the run with that reason stored. |
| `PublicationDrive.NothingFoundEnds` | src/publication/client.rs:373-401 | Thirty looks that find nothing end the run with what it had. |
| `PublicationClient.Publisher.Save` | src/publication/client.rs:291-318 | One save: what is stored and reported in each of the three outcomes, the machine in step. |
| `PublicationClient.Publisher.Intend` | src/publication/client.rs:338-344 | The attempt is pushed and saved before anything is sent. |
| `PublicationClient.Publisher.Submit` | src/publication/client.rs:338-369 | One turn of the submission loop takes the steps of the machine that its surroundings answer with, ending in the phase that its result names. |
| `PublicationClient.Publisher.Poll` | src/publication/client.rs:373-401 | The polling loop takes exactly the driven steps, with confirmation only after full verification. |
| `PublicationClient.Publisher.ObtainInclusion` | src/publication/client.rs:326-401 | Both loops on the record in place take exactly the driven steps; only submissions and outcome change. |
| `PublicationClient.Publisher.Begin` | src/publication/client.rs:439-477 | A readable, matching, verifying Confirmed record is returned as it is; an unreadable, mismatching or failing one, or a record that cannot be made, is an error and nothing is written; otherwise the run goes on with the stored or the saved new record. |
| `PublicationClient.Publisher.Publish` | src/publication/client.rs:405-513 | A whole run is the machine driven by its surroundings, event by event with what they answer at each tick, from the lock to the end: same events, files, requests and result. A held lock refuses it untouched; it fails exactly when there is no record to work on or the last save reports an error; a stored Confirmed record that verifies is returned; one with an index whose first path verifies ends Confirmed; what is returned is stored, and a Confirmed result has passed verification. |
| `PublicationClient.ProgramIsSafe` | src/publication/client.rs:405-513 | Therefore the program makes at most three requests over its record, and what it stores as Confirmed is verified. |
| `TrustModel.KeysCheck` | src/trust.rs:377-437 | The loop accepts exactly nonempty key lists with derived ids, dated revocations, no repeats and a trusted issuer. |
| `TrustModel.Examine` | src/trust.rs:247-375 | All checks pass exactly for a sound bundle: schema, issuer, signature, keys, successor, validity window. |
| `TrustModel.SoundExactly` | src/trust.rs:247-437 | Sound bundles, exactly: schema 1, in the window, signed over the contents by the key the issuer id derives from, keys under their own ids, once each and dated where revoked, the issuer and a distinct successor among them and trusted. |
| `TrustModel.CheckAgainst` | src/keys.rs:127-170 | A policy loads exactly when ids are unique, well formed and each backed by the matching key file. |
| `TrustImport.DecisionExactly` | src/trust.rs:592-686 | When a bundle is accepted, known already or refused: sound, over a store that loads, of an issuer not revoked there and as expected, it is accepted as a newer bundle of an issuer on record, as the first of a named one, or by handover without a name. |
| `TrustImport.TrustDir.WriteFiles` | src/trust.rs:697-714 | Key files are added only where none stands. |
| `TrustImport.TrustDir.MergePolicy` | src/trust.rs:716-766 | Entries and report after the merge loop are the specified merge of every listed key. |
| `TrustImport.TrustDir.Import` | src/trust.rs:592-775 | Decision, store and report of one import, for every bundle, store, expected issuer and clock. |
| `TrustLattice.MeetIsGreatestLower` | src/trust.rs:745-756 | The combination of two statements about a key is their greatest lower bound in the order of strictness. |
| `TrustLattice.MergeIsMeet` | src/trust.rs:716-766 | After a merge every key stands at the meet of its old standing and what the bundle says. |
| `TrustLattice.ReportIsHonest` | src/trust.rs:726-763 | The report names exactly the keys whose standing changed. |
| `TrustLattice.ReportTells` | src/trust.rs:726-763 | Each list of the report names exactly its keys: added ones had no entry, revoked ones were trusted, kept ones stay revoked against the bundle, moved ones get an earlier date; every key is accounted for once. |
| `TrustLattice.ImportsAreAFold` | src/trust.rs:716-766 | Over any sequence of attempts the standing of a key is the fold of meets over the accepted bundles. |
| `TrustLattice.MeetAllIsGreatest` | src/trust.rs:745-756 | That fold is the greatest lower bound of the start and all accepted statements: the minimum of all revocation moments. |
| `TrustLattice.OrderAndRepetitionDoNotMatter` | src/trust.rs:716-766 | Two runs that accepted the same set of bundles leave every key at the same standing. |
| `TrustLattice.RevokeStanding` | src/keys.rs:366-377 | A local revocation dates exactly the named key at the present. |
| `TrustLattice.ImportLowers` | src/trust.rs:716-766 | No import raises the standing of any key. |
| `TrustLattice.RevokedForever` | src/keys.rs:331-377 | No sequence of store operations turns a revoked key back to trusted. |
| `TrustLattice.OnlyRevokeRaises` | src/keys.rs:366-377 | A listed key improves exactly when a local revoke overwrites an earlier date. |
| `TrustHistory.AuthorityIsInherited` | src/trust.rs:633-658 | Every issuer on record is reached by a finite chain of successor statements, each in a bundle accepted earlier, from an issuer the recipient named. |
| `TrustHistory.SequencesIncrease` | src/trust.rs:659-693 | Per issuer the accepted sequence strictly increases at every change. |
| `TrustHistory.RevokedIssuerIsOut` | src/trust.rs:611-623 | An issuer once revoked locally never updates the store again, whatever happens in between. |
| `TrustHistory.MergeIdempotent` | src/trust.rs:716-766 | Merging the same keys twice is merging them once. |
| `TrustHistory.MergeKeepsEntries` | src/trust.rs:716-766 | A merge keeps every entry in its place with id and name, and appends the keys without an entry as the bundle states them. |
| `TrustHistory.ImportedIsCurrent` | src/trust.rs:655-690 | An accepted bundle is on record for its issuer and no other: offered again in its window it is known already. |
| `TrustHistory.SavedPolicyLoadsIff` | src/trust.rs:695-767 | The saved policy loads exactly when no stray key file stands under a newly listed id. |
| `TrustExamples.StrayFileStopsPolicy` | src/trust.rs:697-714 | For every well-formed key id, a store with a stray file and an accepted first bundle after which the policy does not load. |
| `TrustHistory.FilesKeepLoading` | src/trust.rs:695-714 | Key files alone never stop the policy from loading, so the second load inside an import succeeds. |
| `TrustHistory.CrashLeavesLoadable` | src/trust.rs:695-774 | Stopping between any two writes leaves a store that loads. |
| `TrustHistory.CrashRetryConverges` | src/trust.rs:769-773 | The same bundle is then accepted again, not refused as a replay, and ends in the state of the uninterrupted import. |
| `SignatureTrust.PassingIsMonotone` | src/verify.rs:808-893 | For one receipt, evidence and setting, a signature that passes under a stricter standing passes under a laxer one. |
| `SignatureTrust.TokenDecides` | src/verify.rs:834-877 | For a key revoked at a date, a signed, canonical, verifying receipt with a token passes exactly when the token is no later, whatever its own date and the option. |
| `SignatureTrust.StoreDecides` | src/verify.rs:740-893 | The signature check against a store, exactly: an authentic receipt, a store that loads, and a managed key that is trusted or revoked no earlier than the token, or than the receipt date where there is no token and the option is given, or a legacy file of the key. |
| `SignatureTrust.RevocationHolds` | src/verify.rs:834-877 | Once any accepted bundle dates a revocation, no receipt with a later token passes by that key, whatever was or is imported besides, in any order. |
| `SignatureTrust.ImportedOutcome` | src/verify.rs:740-893 | After an accepted import a signature of a listed key passes exactly when its standing before and the statement of the bundle both admit it and the policy still loads. |
| `SignatureTrust.StatusOfListedKey` | src/verify.rs:908-936 | For a managed key the verifier sees exactly the standing of its policy entry. |
| `SignatureTrust.TighteningNeverRescues` | src/verify.rs:740-893 | For every receipt, timestamp evidence and option, and every key with an entry, no accepted import turns a failing signature check into a passing one. |
| `VerdictPolicy.ReceiptVerdict.ApplyPolicy` | src/verify.rs:252-302 | The outcome is pass exactly when no check failed and every requirement is met, and the unmet ones are listed; it depends on the stated facts alone, so applying again is idempotent. |
| `VerdictPolicy.CheckAddedLater` | src/verify.rs:243-246 | The exact effect of a check added later with the policy applied again. |
| `VerdictPolicy.WorseChecksNeverHelp` | src/verify.rs:252-318 | When the checks get no better and a verdict still passes, it passed before exactly when trust material was not required or was current. |
| `TrustMaterial.TrustMaterialState` | src/verify.rs:528-612 | Filtering the accepted bundles by the signer and keeping the one with the highest sequence, the last of several, yields the specified state. |
| `TrustMaterial.LatestIsNewest` | src/verify.rs:561-564 | The bundle that decides lists the signer, and none that lists the signer is newer; there is none exactly when no bundle lists the signer. |
| `TrustMaterial.LatestInsert` | src/verify.rs:561-564 | One bundle among others decides exactly when it lists the signer and is newer than those after it and no older than those before it; otherwise it might as well not be there. |
| `TrustMaterial.ExpiredForever` | src/verify.rs:565-612 | As time goes on, material only goes from not yet valid through current to expired; it is absent exactly when no bundle lists the signer. |
| `TrustMaterial.CurrentAfterImport` | src/verify.rs:528-612 | When an accepted import leaves a signer's material current, told from the bundles on record before it, the bundle and the directory order. |
| `VerdictPolicy.PassedBeforeIff` | src/verify.rs:494-520 | A verdict that passes after an accepted import passed before it exactly when trust material is not required or was current for the signer before. |
| `SignatureTrust.StatusAfterImport` | src/verify.rs:908-936 | What the verifier is told of a listed key after an accepted import, from the store before it: an error when a stray file stops the policy from loading, otherwise the meet of the old standing and the statement of the bundle. |
| `VerdictPolicy.ImportRescuesIff` | src/verify.rs:494-520 | Told from the store before it and the bundle, an accepted import turns a failing verdict into a passing one exactly when trust is required and all else is met, the signature will stand, the material was not current, and the bundle makes it so. |
| `TrustExamples.ImportRescues` | src/verify.rs:494-520 | For every well-formed key id, a store, an accepted first bundle and a receipt whose failing verdict passes after the import. |
| `DependencyGraph.WalkBack` | src/pipeline/dag.rs:45-84 | A set of steps that all need one of their own holds a dependency cycle. |
| `DependencyGraph.DependentsFirstIsAcyclic` | src/pipeline/dag.rs:45-84 | A complete finishing order of the search rules out cycles. |
| `DependencyGraph.OrderedIsAcyclic` | src/pipeline/dag.rs:123-173 | A complete topological order rules out cycles. |
| `ExecutionGraph.Connect` | src/pipeline/dag.rs:14-39 | Edges mirror the needs with multiplicity, for any map order; fails exactly on an unknown step. |
| `ExecutionGraph.Search.HasCycleUtil` | src/pipeline/dag.rs:58-84 | Depth-first search: a failure means a cycle; success finishes the node with everything reachable and restores the recursion stack. |
| `ExecutionGraph.CheckCycles` | src/pipeline/dag.rs:45-56 | Succeeds exactly on acyclic graphs. |
| `ExecutionGraph.Build` | src/pipeline/dag.rs:13-43 | Succeeds exactly when every dependency is a known step and there is no cycle. |
| `KahnSort.InDegrees` | src/pipeline/dag.rs:127-142 | In-degrees count every repeated edge. |
| `KahnSort.TopologicalSort` | src/pipeline/dag.rs:123-173 | Succeeds exactly on acyclic graphs, repeated edges included, with every node once and each after all it needs; the in-degree subtraction never underflows. |
| `PipelineLayers.GetDependencies` | src/pipeline/dag.rs:207-216 | Each direct dependency once. |
| `PipelineLayers.DepthUnique` | src/pipeline/dag.rs:232-249 | The longest-chain depth is unique. |
| `PipelineLayers.DepthAbove` | src/pipeline/dag.rs:294-296 | A dependency is strictly shallower. |
| `PipelineLayers.LayerTest` | src/pipeline/dag.rs:289-300 | Among the nodes at depth k and deeper, those with no dependency left are exactly the nodes of depth k. |
| `PipelineLayers.Analyze` | src/pipeline/dag.rs:224-260 | Depths are longest chains, the maximum is attained, groups are the depth classes and there is one more group than the maximal depth. |
| `PipelineLayers.FindParallelizableGroups` | src/pipeline/dag.rs:279-313 | The k-th group is exactly the nodes of depth k, none is empty, and the loop ends. |
| `PipelineRun.RunSteps` | src/executor/mod.rs:598-820 | For every behaviour of the steps: results are distinct, carry the exit code the environment gave, follow all their needs, and the dependency wait loop never iterates. The run gives up only at a step, all of whose needs succeeded, that the environment does not answer for: a failing step is a result like any other. |
| `PipelineRun.AppearsIffAncestorsSucceeded` | src/executor/mod.rs:600-627 | A step is in the results exactly when every transitive dependency is there with exit code 0. |
| `PipelineRun.OrderDoesNotMatter` | src/executor/mod.rs:594-610 | When exit codes depend on the step alone, every order yields the same steps. |
| `CausalEvents.RecordCausalEvents` | src/executor/mod.rs:936-1001 | One event per result, named by the ledger, whose parents are exactly the events of the needs, one for one and all earlier; only the ledger can stop it. |
| `CausalEvents.Execute` | src/executor/mod.rs:567-926 | A receipt exists only for known, acyclic pipelines and has both properties; when the environment and the ledger always answer, every such pipeline has its receipt, whichever steps fail. |
| `PermissionGuard.RecordOne` | src/executor/mod.rs:373-394 | An object is recorded at most once, because a held object has no write bits: overlaps, repeats and hard links included. |
| `PermissionGuard.InputGuard.HoldPath` | src/executor/mod.rs:373-394 | Takes the write bits off one path, or leaves everything as it was, also when paths are swapped between look and open. |
| `PermissionGuard.InputGuard.Drop` | src/executor/mod.rs:413-435 | The drop loop is the specified restoration, in reverse order. |
| `PermissionGuard.DropTouchesOnlyHeld` | src/executor/mod.rs:418-432 | Whatever the step did, the drop changes only objects the guard held, found again at their path, and only to the mode they had, as `chmod` sets it. |
| `PermissionGuard.DropExactly` | src/executor/mod.rs:418-432 | For every step: a held object is set back exactly when it stands, openable, at its recorded path once everything recorded after it was dropped. |
| `PermissionGuard.DropInAnyOrder` | src/executor/mod.rs:418-432 | For a step that changed at most write and set-group-id bits of held objects: exactly when it stands, openable, at its recorded path as the step left things. |
| `PermissionGuard.SearchBitTaken` | src/executor/mod.rs:418-432 | A step that takes the search bit from a held directory: the file held below it stays read-only in one order of declaration and comes back in the other. |
| `PermissionGuard.RenamedInputStaysReadOnly` | src/executor/mod.rs:418-432 | An input that is renamed while it is held stays without write bits. |
| `PermissionGuard.HoldThenDrop` | src/executor/mod.rs:336-435 | Hold followed by drop sets every held mode back and leaves the others alone; all modes are what they were exactly when no held object has the set-group-id bit for a group the caller is not in. |
| `PermissionGuard.ForeignGroupLosesSetgid` | src/executor/mod.rs:325-333 | An input with that bit in a foreign group comes back without it. |
| `PermissionGuard.Hold` | src/executor/mod.rs:336-406 | On success every visited path is unwritable and the record is exact; it fails only when some visited path cannot be held, and then puts everything back. |
| `PermissionGuard.RunHeld` | src/executor/mod.rs:729-749 | Hold, step, drop: the final modes are those that dropping the exact record leaves, so each is what the step left or, for held objects, the original as `chmod` sets it; a step confined to write and set-group-id bits cannot stop the restoration. It runs only with every visited input unwritable, and does not run only when one cannot be held. |
| `Order.SortedUnique` | src/hashing.rs:158-166 | The sorted listing of a map is determined by its content. |
| `Manifests.PushEntries` | src/hashing.rs:151-156 | Appends the lines of the entries in order. |
| `Manifests.InputManifest` | src/hashing.rs:122-135 | Header, run line and entry lines, as text. |
| `Manifests.OutputManifest` | src/hashing.rs:138-149 | Header and entry lines, as text. |
| `Manifests.OutputRoundTrip` | src/hashing.rs:5-17 | An output manifest parses back to exactly its path-to-entry list, and whatever parses is written back unchanged. |
| `Manifests.InputRoundTrip` | src/hashing.rs:5-17 | An input manifest parses back to exactly its run hash and entries. |
| `Manifests.InputOfParse` | src/hashing.rs:5-17 | Whatever parses as an input manifest is written back unchanged. |
| `Manifests.KindsApart` | src/hashing.rs:98-118 | No text is both an input and an output manifest. |
| `Manifests.InputHashBinds` | src/hashing.rs:100-108 | An input hash fixes the command and every entry, or the named collision breaks the digest. |
| `Manifests.OutputHashBinds` | src/hashing.rs:111-118 | An output hash fixes every entry, or the named collision breaks the digest. |
| `Manifests.CollectEntries` | src/hashing.rs:161-215 | The insertion loop yields the sorted map. |
| `Manifests.DeclarationsDoNotMatter` | src/hashing.rs:158-160 | Order, repetition and overlap of declarations do not change a manifest. |
| `ArtifactInventory.OutputsWithArtifacts` | src/hashing.rs:559-586 | Hash and artifact list come from the same entries. |
| `ArtifactInventory.Inventory` | src/evidence.rs:94-147 | The nested-map loops accept exactly the receipts with distinct steps, well-formed unrepeated artifacts and matching output hashes. |
| `ArtifactInventory.HonestInventoryAccepted` | src/evidence.rs:92-147 | A list that holds each artifact of the executed steps once, with safe paths, is accepted, in any order. |
| `ArtifactInventory.RunIsRecorded` | src/executor/mod.rs:766-768 | The artifacts that executed steps concatenate one after another are such a list. |
| `ArtifactInventory.ExecutedAcceptedIff` | src/evidence.rs:92-147 | The inventory of executed steps is accepted exactly when it is not empty and every output path is safe. |
| `ArtifactInventory.RunAcceptedIff` | src/evidence.rs:92-147 | The inventory of a run, cache hits included, is accepted exactly when it is not empty, every recorded path is safe and no cache hit has outputs, or the named collision breaks the digest. |
| `ArtifactInventory.RecordRun` | src/executor/mod.rs:714-816 | A cache entry is replayed while its outputs match and records no artifacts; any other step is hashed and its artifacts added; what the check makes of the result. |
| `ArtifactInventory.InventoryBinds` | src/evidence.rs:92-93 | Two inventories accepted for the same output hashes are the same multiset of artifacts, or the named collision breaks the digest: nothing can be omitted, added or altered. |
| `ArtifactInventory.UnrecordedStepRefused` | src/evidence.rs:129-146 | A receipt step with outputs but no artifacts is refused, or the digest collides. |
| `FieldEncoding.HashField` | src/hashing.rs:77-96 | The eight updates append the length-prefixed field. |
| `FieldEncoding.HashFields` | src/hashing.rs:77-96 | A row of calls absorbs the stream of the fields. |
| `FieldEncoding.FieldUnique` | src/hashing.rs:64-76 | No field is a prefix of a different field, whatever follows. |
| `FieldEncoding.StreamUnique` | src/hashing.rs:64-76 | A stream of fields decodes to one list of fields. |
| `FieldEncoding.FieldHashBinds` | src/hashing.rs:64-76 | Equal hashes mean equal field lists, or the named collision breaks the digest. |
| `LexicalPaths.LexicalNormalize` | src/hashing.rs:306-318 | The push and pop loop is the specified normalization. |
| `LexicalPaths.ParentCancels` | src/hashing.rs:306-318 | A parent component takes back exactly the name before it, anywhere in a path. |
| `LexicalPaths.ParentOfNothing` | src/hashing.rs:306-318 | At the start and directly below the root a parent component is nothing. |
| `LexicalPaths.RootDiscards` | src/hashing.rs:306-318 | An absolute component discards what precedes it. |
| `LexicalPaths.NormalizeFixed` | src/hashing.rs:304-318 | Normalizing is idempotent. |
| `LexicalPaths.NormalizeJoin` | src/hashing.rs:289-294 | A path may be normalized before or after it is joined. |
| `LexicalPaths.NormalizeRelative` | src/hashing.rs:321-368 | Succeeds exactly for paths that lead from the workspace through printable names, with those names joined. |
| `LexicalPaths.DetourLeads` | src/hashing.rs:321-328 | A way in and out of any directory below the workspace leads where the rest leads. |
| `LexicalPaths.EscapeRefused` | src/hashing.rs:321-328 | A way out of the workspace leads somewhere exactly when the next name is its own, or the workspace is the root. |
| `LexicalPaths.JoinInjective` | src/hashing.rs:320-368 | One manifest path names one place below the workspace. |
| `LexicalPaths.SafeExactly` | src/evidence.rs:27-40 | Of the paths hashing accepts, the safe ones are exactly those strictly below the workspace without backslash or colon. |
| `LexicalPaths.Relative` | src/executor/mod.rs:109-122 | An input is refused exactly when a component is neither normal nor `.`. |
| `LexicalPaths.MinimalPaths` | src/executor/mod.rs:123-130 | The copied paths are declared ones, cover every declared one, and none lies under another. |
| `LexicalPaths.MinimalCoverUnique` | src/executor/mod.rs:106-130 | There is one such set. |
| `DerReading.Der.Take` | src/identity.rs:335-372 | The strict reader on its slice: succeeds exactly as specified, advances past the element, stays put on failure. |
| `DerReading.StrictExactly` | src/identity.rs:335-372 | It succeeds exactly on shortest-form definite lengths below 2^32, and contents and remainder rebuild the input. |
| `DerReading.TlvUnique` | src/identity.rs:335-372 | No encoding is a prefix of another. |
| `DerReading.LaxDer.Take` | src/crypto/timestamp.rs:433-468 | The lax reader on its slice, with the same frame. |
| `DerReading.LaxDer.SkipAny` | src/crypto/timestamp.rs:508-512 | Steps over one element of any tag, or stays put. |
| `DerReading.LaxDer.Element` | src/crypto/timestamp.rs:521-526 | Returns header and contents: with what is left, exactly the input. |
| `DerReading.LaxExactly` | src/crypto/timestamp.rs:433-468 | It succeeds exactly on tag, a length in one of the known forms, and that many bytes. |
| `DerReading.LaxAgrees` | src/crypto/timestamp.rs:445-468 | Whatever the strict reader takes, the lax reader takes alike. |
| `DerReading.RetagAsSet` | src/crypto/timestamp.rs:843-860 | Trimming the leading zeros of the eight length bytes yields the shortest form, for every length. |
| `DerReading.RetagReadBack` | src/crypto/timestamp.rs:843-860 | Both readers read it back below 2^32 bytes and refuse it from there on. |
| `DerSchema.TakeItems` | src/identity.rs:385-406 | A row of required and optional `take` calls reads exactly the specified items. |
| `DerSchema.PrintReadsBack` | src/identity.rs:385-406 | A row of elements is read back exactly, optional ones included, whatever follows it. |
| `DerSchema.ReadRebuilds` | src/identity.rs:385-406 | What a row of reads returns rebuilds its input. |
| `WorkflowCertificate.ParseExtensionExactly` | src/identity.rs:412-422 | One extension is read exactly from its strict encoding. |
| `WorkflowCertificate.ParseCertificateExactly` | src/identity.rs:384-408 | A certificate is accepted exactly when it is the strict encoding of its structure, at every level. |
| `WorkflowCertificate.CertificatePrefixFree` | src/identity.rs:385-387 | No strict prefix or extension of an accepted certificate is accepted. |
| `WorkflowCertificate.ScanExtensions` | src/identity.rs:409-437 | The loop succeeds exactly on distinct extensions with a well-formed repository and revision, and returns those. |
| `WorkflowCertificate.CertificateSource` | src/identity.rs:384-438 | Returns exactly what a well-formed certificate attests, and fails exactly when it attests nothing. |
| `WorkflowCertificate.AttestsOnce` | src/identity.rs:411-433 | A certificate attests one repository and one revision. |
| `ObjectIdentifiers.OidToDotted` | src/crypto/timestamp.rs:392-415 | Later arcs decode exactly; refused exactly when empty, when a complete arc is at least 2^64, or when a nonzero value is left open. |
| `ObjectIdentifiers.EncodedDecodes` | src/crypto/timestamp.rs:398-414 | Complete arcs decode back, or are refused precisely when one is at least 2^64. |
| `ObjectIdentifiers.DottedUnique` | src/crypto/timestamp.rs:414-414 | The dotted text names one list of arcs. |
| `ObjectIdentifiers.FirstByteExact` | src/crypto/timestamp.rs:396-396 | The split of the first byte is the standard one exactly below 120. |
| `ObjectIdentifiers.ZeroTailAccepted` | src/crypto/timestamp.rs:411-413 | An arc cut off while its value is zero is accepted and not printed. |

## Left out

- PublicationClient.Publisher.Publish: crashes and other publishers between two of its actions are events of the state machine, which a method body cannot express; the method refines the machine, and the results over interleavings are about the machine. HTTP, URL validation, request budgets, the rate of polling and `fetch_comparison` are not modelled; a look at the log is one event.
- Key files and accepted bundles are written in place, and such a write is taken as one step: a crash in the middle of one is not modelled. `trust.toml` is staged and renamed, so for it this is exact.
- `Checkpoint::verify` (`src/publication/note.rs`) is an oracle that returns an authenticated size and root.
- Dates are integers, with the earliest as the reading of an undated revocation; clocks are parameters.
- TrustImport.TrustDir.Import: the second load of the policy inside an import is covered by `FilesKeepLoading` instead of being repeated, and the handover source named in the report is left out.
- TrustMaterial.TrustMaterialState: starts from accepted bundles that could be read, in directory order; an unreadable directory counts as none on record in the code, with a warning, and warnings are not modelled.
- VerdictPolicy.ImportRescuesIff: the clock is that of the verification, and every check other than the signature is taken to be the same before and after the import, which touches nothing they read.
- SignatureTrust.TighteningNeverRescues: excludes two key files that hold different keys with one derived id, which would be a collision of the key-id digest; the directory scan keeps whichever of them came last, so the verifier's answer would depend on directory order.
- `KeyStore::authorize_signing`, `select_signing_key`, `list`, `export` and the fallback to a local signing key without a trust directory: case analysis only.
- `find_root_nodes`, `find_leaf_nodes`, `is_linear_pipeline` and the cycle text of `build_cycle_path`: easy members.
- Steps themselves, the cache, sandboxes, capsules and the ledger: a step yields an exit code or stops the run, and the ledger yields an identifier or fails. The running of commands, cache keys and chain hashes are not modelled.
- PermissionGuard.RunHeld: an object is its device and inode, so a new file that reuses the number of a deleted one counts as the same object; interference by other processes is modelled between the look at a path and its open, and by the step as a whole.
- `chmod` by a user without rights over a file's group is modelled for the set-group-id bit; access control lists are not.
- PermissionGuard.Hold: the walk of a directory is a parameter, so that it visits every entry is not proved; without root rights only, as with root nothing is held.
- Walking directories, reading files and resolving links for a manifest: `CollectEntries` starts from the visited paths and lines. Link containment is a prefix test on normalized paths and has no member of its own.
- Manifest text is a sequence of characters; that UTF-8 encodes it one-to-one is taken as given. File names that are not UTF-8 are refused by the code and do not occur.
- `artifact_bytes`, `pack`, `verify_with_policy`, archives, SBOM, provenance and image checks: mostly sequencing and input or output.
- The lax reader's bit strings, integers and time values, certificate trust decisions and CMS semantics of `src/crypto/timestamp.rs`.
- DerReading.Tlv lengths are below 2^64, the size of a 64-bit slice length.
- ObjectIdentifiers.OidToDotted: returns the numbers; joining them with dots is `Dotted`, shown one-to-one by `DottedUnique`.

# Verification model of the agent platform

Dafny models and proofs for the parts of the platform whose guarantees hold over unbounded runs or
unbounded texts.

**Audit hash chain** (`AuditRows`, `AuditTable`, `AuditSealing`, `AuditWorld`, `AuditSafety`, `AuditChains`,
`StrandedTenants`, `ForkedTenants`, `AuditArchiving`, `ArchiveAttempts`, `LegalHolds`, `HoldProtection`, `AuditStore`,
with `CanonicalJson`, `Numerals` and `Utf8`). Each SQL transaction is one atomic step on the tables, the object store and the archive workers
(`AuditWorld`); `AuditStore` is the class whose methods run the loops and updates and are proved to leave the tables as
those steps say. A ghost ledger keeps every row that ever got a hash. Results are about all runs of inserts, backfills,
seals, archive claims, slow or crashing workers, holds, releases and cleanups. SHA-256 is an arbitrary function: where a
result needs collision resistance it either exhibits the colliding rows or says `NoCollisions` of the ledger.

Assumptions, each named in the statement that uses it: ids are fresh; a seal's time is above the tenant's earlier
ones (`Admissible`); an insert's `(created_at, id)` is above the tenant's hashed rows (`InsertsInTime`) and a cleanup
leaves each tenant its newest hashed row (`KeepsNewest`), the last two in `AuditChains` only; `StrandedTenants` does
without the last, `ForkedTenants` without both. `NextSealGoesOnIffNewest`, `InsertKeepsChainIffNewest` with
`SecondInsertForksIffFirstWasLate`, and `StrandedIffNewestWasDropped` say exactly what each of the three buys.

**Streamed messages** (`PythonText`, `ReasoningFilter`, `EventNormalizer`, `RunExecutor`). The reasoning filter as a
class with its buffer and depth, the normalizer that assembles its output, and the worker that runs an agent against
any stream and any sequence of cancellation answers.

**Redaction and truncation** (`InlineRedaction`, `SecretRemoval`, `CredentialRemoval`, `BearerPattern`,
`CredentialExposure`, `LeadingSecrets`, `RedactionTwice`, `TextTruncation`, `Utf8`). Lower-casing and letter classes are
those of any `Unicode` that folds character by character; `AsciiKeepsBrackets`, `AsciiIsPlain`, `AsciiFoldsLetters` and
`AsciiFoldsWords` show that ASCII is one.

**Leases, claims and locks** (`ResumeLease`, `CredentialRotation`, `FileLocks`). Interleaved workers with crashes and
stale re-claims.

**Small indexes** (`DirectoryTree`, `BrowserRecovery`).

What the proofs found in the code:

- A segment hold stores the caller's spelling of the segment id and the eligibility query compares it with the
  database's rendering, so an accepted id in capitals or without hyphens protects nothing
  (`SegmentHoldBlocksIffCanonical`, `UnhyphenatedHoldBlocksNothing`).
- A cleanup that goes through while a tenant's newest hashed row lies in its partition, with or without older rows left
  elsewhere, strands the tenant for good: later rows are hashed, but no seal takes them and the worker never selects the
  tenant (`CleanupStrandsIffNewestDropped`, `StrandedIffNewestWasDropped`, `StrandedForGood`, `StrandingIsReachable`).
- A tie in `created_at` can break a chain (`InsertKeepsChainIffNewest`, `TieBreaksChain`), and the tenant's next insert
  then makes a fork (`SecondInsertForksIffFirstWasLate`), and seals that reach it fail for ever (`ForkedForGood`). The
  worker's query keeps selecting it, and as many such tenants as the limit keep the worker from ever selecting one with
  a larger id (`StarvedForGood`, `StarvedIsNeverSealed`, `StarvationIsReachable`).
- Behind a segment whose time is not above the last one the next seal lists the same rows again
  (`NextSealGoesOnIffNewest`). Read from the schema and not proved here: segments are unique by tenant, first and last
  row (bibi_work_backend/migrations/20260713000000_initial_schema.sql:1433), so the database would refuse exactly the
  same rows and accept a list that has grown in between.
- An empty predecessor hash hashes like an absent one (`EmptyPrevHashHashesLikeNone`).
- Redaction is not idempotent: values end before `]`, so each further pass over `token=[REDACTED]` leaves one more
  bracket (`RedactingTwice`). This happens inside one call when one field name ends in a later one, as the default
  `access_token` and `token` do (`NestedFieldsDouble`, `DefaultFieldsDouble`).
- The value of one field can take the marker of the next along, and its scheme too, and leave the secret behind them in
  the text, as in `a=b=basic x` with the fields `a` and `b`: the first pass makes `a=[REDACTED] x` of it
  (`CredentialIsGoneIff`, `LeadingSecretIsGoneIff`, `ReachedPassExposes`, `ReachedCredentialStays`).
- The hour's bound on the rotation delay is never reached (`RetryDelayBounds`).
- A path that ends in a slash becomes a child of itself (`OneParentIffNoTrailingSlash`).
- The key of an approval that expires under a live or completed execution lets a second one in
  (`ExpiryKeepsSoundIff`).

`dafny verify dfyconfig.toml` verifies the project.

## Model

| member | source | states |
|---|---|---|
| CanonicalJson.ReadEncodedObject | bibi_work_backend/src/features/agent_platform/audit.rs:1082-1120 | a reader written from RFC 8259 gets back from the canonical row object every key and value, whatever text follows it |
| CanonicalJson.EncodeObjectIsPrefixFree | bibi_work_backend/src/features/agent_platform/audit.rs:1082-1120 | two canonical objects over the same keys followed by any text are equal only if all values and the texts behind them are |
| CanonicalJson.EscapedIsShortest | bibi_work_backend/src/features/agent_platform/audit.rs:1082-1120 | no literal of a character that the reader accepts is shorter than the one written; with EscapedInLowerCase this fixes the escapes |
| AuditRows.PreimageIsInjective | bibi_work_backend/src/features/agent_platform/audit.rs:1069-1120 | the hashed text determines the row content, its id, its time and the predecessor hash |
| AuditRows.EmptyPrevHashHashesLikeNone | bibi_work_backend/src/features/agent_platform/audit.rs:1069-1080 | the one ambiguity: an empty predecessor hash hashes like an absent one |
| AuditRows.VerifyStoredAuditRows | bibi_work_backend/src/features/agent_platform/audit.rs:1140-1212 | the verification loop answers valid exactly for windows in which every row continues the one before and carries its own hash; otherwise it names the first offending row and which of the two conditions it violates |
| AuditRows.LastHashCommitsToHistory | bibi_work_backend/src/features/agent_platform/audit.rs:1140-1212 | two windows of one length that both verify and end in the same hash are the same rows, the first predecessor hash being absent in one and empty in the other at most, or two rows with different hash inputs and one hash are exhibited |
| AuditRows.RowHashCollisionIsDigestCollision | bibi_work_backend/src/features/agent_platform/audit.rs:1069-1080 | such a pair is a collision of the digest: two different texts, one digest |
| AuditRows.HashedTextHoldsTheRow | bibi_work_backend/src/features/agent_platform/audit.rs:1082-1120 | the reader finds in the hashed text, whatever follows it, id, tenant, resource type, resource id, action, decision, policy version and time each under its own name |
| AuditRows.HashedTextHoldsTheIds | bibi_work_backend/src/features/agent_platform/audit.rs:1082-1120 | so it does the eight optional ids, null when absent |
| AuditRows.HashedTextHoldsTheTexts | bibi_work_backend/src/features/agent_platform/audit.rs:1082-1120 | and the eight optional texts |
| AuditRows.CanonicalKeysAreSorted | bibi_work_backend/src/features/agent_platform/audit.rs:1082-1120 | the names stand in the order of a sorted map |
| AuditTable.SortByKeySorts | bibi_work_backend/src/features/agent_platform/audit.rs:195-209 | ordering a set of rows by key loses and repeats nothing; the order is the only one (with SortedIsUnique) |
| AuditTable.InsertKeepsChain | bibi_work_backend/src/features/agent_platform/audit.rs:180-259 | an insert above all hashed keys of its tenant extends the intact chain by exactly the new row |
| AuditTable.InsertKeepsChainIffNewest | bibi_work_backend/src/features/agent_platform/audit.rs:195-259 | with a fresh hash the chain stays intact if and only if the new (created_at, id) is above every hashed key of the tenant |
| AuditTable.TieBreaksChain | bibi_work_backend/src/features/agent_platform/audit.rs:195-259 | the input that breaks it: two inserts of one tenant at one time, the second with the smaller id, leave a chain that is not intact |
| AuditTable.WindowIsNewest | bibi_work_backend/src/features/agent_platform/audit.rs:261-297 | a verification request reads as many hashed rows of the tenant as the limit allows, in key order, and every hashed row it does not read is older than all of them |
| AuditTable.ChainOfBackfill | bibi_work_backend/src/features/agent_platform/audit.rs:310-378 | after a backfill the chain is the historical rows in key order, linked from no predecessor and intact, and no unhashed row is left |
| AuditTable.BackfillImage | bibi_work_backend/src/features/agent_platform/audit.rs:310-378 | a backfill maps rows to rows of the same content, both ways, and changes unhashed rows of its tenant only |
| AuditTable.BackfillLeavesOtherTenants | bibi_work_backend/src/features/agent_platform/audit.rs:310-378 | the chains of all other tenants are as before |
| AuditStore.RelinkRows | bibi_work_backend/src/features/agent_platform/audit.rs:340-372 | the backfill loop leaves exactly the linked table and counts the rows it updated |
| AuditStore.ReportDecides | bibi_work_backend/src/features/agent_platform/audit.rs:380-426 | the counts of the report say "executable in place" exactly when no row of the tenant is hashed and no segment sealed |
| AuditSealing.LoadNextChainRows | bibi_work_backend/src/features/agent_platform/audit.rs:786-840 | the loop along prev_hash equals the recursive walk: at most max_rows rows, or the fork conflict |
| AuditSealing.LatestIsHighest | bibi_work_backend/src/features/agent_platform/audit.rs:758-784 | the last segment has the highest sealing time of its tenant and the highest id among those with that time |
| AuditSealing.WalkIsLinked | bibi_work_backend/src/features/agent_platform/audit.rs:786-840 | in every state the walk returns hashed rows of the tenant linked from the cursor on, and nothing only if no row continues the cursor |
| AuditSealing.WalkFollowsChain | bibi_work_backend/src/features/agent_platform/audit.rs:786-840 | on an intact chain the walk from position k returns exactly the next rows of the chain and never reports a fork |
| AuditSealing.WorkerQueryIsExact | bibi_work_backend/src/features/agent_platform/audit_sealing.rs:121-152 | in every state of the tables the rows the tenant query joins, its limit aside, name a tenant if and only if its next seal does not answer "no unsealed rows" |
| AuditSealing.WorkerQueryWithLimit | bibi_work_backend/src/features/agent_platform/audit_sealing.rs:121-152 | with its ORDER BY and LIMIT the query returns a tenant if and only if its next seal does not answer "no unsealed rows" and fewer tenants with smaller ids than the limit have unsealed rows as well |
| AuditChains.SealTakesNextRows | bibi_work_backend/src/features/agent_platform/audit.rs:428-472 | a seal takes exactly the next rows of the chain, as many as it may, and answers "no unsealed rows" only when all are sealed |
| AuditChains.NextSealGoesOnIffNewest | bibi_work_backend/src/features/agent_platform/audit.rs:428-472 | the rows the next seal finds share none with the segment just appended, and are those behind it on the chain, if and only if that segment is above the latest by (sealed_at, id); otherwise the next seal finds what this one found and lists its rows again |
| AuditChains.SealingPartitionsTheChain | bibi_work_backend/src/features/agent_platform/audit.rs:428-590 | over every timely run and for every tenant: the rows that ever got a hash form one intact chain, and the row lists of the segments concatenate to exactly a prefix of it, each linked to the last hash of the one before |
| AuditChains.SealsNeededIsCeiling | bibi_work_backend/src/features/agent_platform/audit.rs:428-472 | the number of seals below is the quotient of rows and max_rows rounded up |
| AuditChains.SealsUntilDone | bibi_work_backend/src/features/agent_platform/audit.rs:428-472 | n unsealed rows take exactly that many segments: each of the first seals adds one, and from then on the answer is "no unsealed rows" |
| AuditChains.VerificationIsAlwaysValid | bibi_work_backend/src/features/agent_platform/audit.rs:261-297 | over every timely interleaving of all transactions but cleanups, from an unhashed or an empty table, every verification request is valid, for every tenant and limit |
| AuditChains.VerifiesIffContiguous | bibi_work_backend/src/features/agent_platform/audit.rs:1140-1212 | over every timely run with cleanups a verification request is answered "valid" if and only if nothing of the ledger chain is missing between the oldest and the newest row it reads |
| StrandedTenants.InsertLinksIffNewestIsKept | bibi_work_backend/src/features/agent_platform/audit.rs:195-209 | an insert links to the end of the tenant's chain if and only if the newest row that ever got a hash is still in the table |
| StrandedTenants.CleanupStrandsIffNewestDropped | bibi_work_backend/src/features/agent_platform/audit_governance.rs:156-215 | from an intact, orderly sealed chain a cleanup strands the tenant if and only if its partition is old enough, holds no ineligible row and holds the newest hashed row of the tenant, whatever older rows are left; any other cleanup keeps everything in order |
| StrandedTenants.StrandedIffNewestWasDropped | bibi_work_backend/src/features/agent_platform/audit_governance.rs:156-215 | over every run with inserts in time and any cleanups, at every moment: a tenant is stranded if and only if its segments no longer partition an intact chain, and if and only if some cleanup went through while the newest hashed row lay in its partition |
| StrandedTenants.StrandedForGood | bibi_work_backend/src/features/agent_platform/audit.rs:428-472 | over every run: once stranded always stranded; every later seal answers "no unsealed rows" and the worker's query never selects the tenant, whatever is inserted |
| StrandedTenants.StrandingIsReachable | bibi_work_backend/src/features/agent_platform/audit.rs:195-259 | such a run exists on every platform that archives: insert, seal, archive, drop one month, insert; the last row is hashed and no seal takes it |
| ForkedTenants.SecondInsertForksIffFirstWasLate | bibi_work_backend/src/features/agent_platform/audit.rs:195-259 | from an intact, orderly sealed chain: after two inserts of the tenant some seal meets a fork if and only if the first of them was not above all its hashed rows |
| ForkedTenants.CleanupKeepsWalk | bibi_work_backend/src/features/agent_platform/audit_governance.rs:156-215 | in every safe state the walk of the next seal returns the same before and behind any cleanup |
| ForkedTenants.ForkedForGood | bibi_work_backend/src/features/agent_platform/audit.rs:786-840 | over every run: once a seal of n rows answers that it met a fork, it does at every later moment, whatever is inserted, backfilled, sealed or dropped, and the worker's query selects the tenant at each of them |
| ForkedTenants.StarvedForGood | bibi_work_backend/src/features/agent_platform/audit_sealing.rs:121-152 | over every run: a tenant behind as many forked ones with smaller ids as the limit is never selected again |
| ForkedTenants.StarvedIsNeverSealed | bibi_work_backend/src/features/agent_platform/audit_sealing.rs:70-152 | so if it is sealed only by passes of the worker that selected it, nothing more of it is ever sealed |
| ForkedTenants.StarvationIsReachable | bibi_work_backend/src/features/agent_platform/audit_sealing.rs:70-152 | such a run exists on every platform: three inserts of one tenant, the second below the first, and one insert of the next tenant, with a limit of one |
| AuditSafety.OneSegmentPerRow | bibi_work_backend/src/features/agent_platform/audit.rs:786-840 | no row is listed in two segments |
| AuditSafety.EligibleIffReleased | bibi_work_backend/src/features/agent_platform/audit_governance.rs:19-53 | the eligibility query, which looks at holds from the covering segment, accepts a row if and only if an archived, verified, expired segment of its tenant lists it and no active hold covers it by tenant, resource or segment |
| AuditSafety.CleanupDropsExactlyReleased | bibi_work_backend/src/features/agent_platform/audit_governance.rs:156-215 | a cleanup drops a partition exactly when it ended before the current month and every row of it is released, and nothing else |
| AuditSafety.RunsAreSafe | bibi_work_backend/src/features/agent_platform/audit_governance.rs:156-215 | over every run the rows, the ledger of hashed rows and the segments stay accounted for: unique ids, correct hashes, segments that list recorded rows only, linked and ordered |
| AuditSafety.DroppedRowsWereReleased | bibi_work_backend/src/features/agent_platform/audit_governance.rs:156-215 | over every run a row that is gone was dropped by a cleanup in between, at a moment when it was released: the exhibited step has the row before it and not behind it |
| AuditSafety.CleanupKeepsCurrentMonth | bibi_work_backend/src/features/agent_platform/audit_governance.rs:156-215 | no cleanup drops a row of the current month or later, or a row outside its partition |
| AuditSafety.SegmentsListRecordedRows | bibi_work_backend/src/features/agent_platform/audit.rs:428-590 | over every run a segment lists rows of its tenant that got their hash, each with its id, its time and both its hashes |
| AuditArchiving.RunsAreArchiveSound | bibi_work_backend/src/features/agent_platform/audit_archiving.rs:110-300 | over every interleaving of slow workers, stale re-claims and crashes: attempts never exceed the maximum, archiving implies fewer, and every archived segment has a retention, a verification time and an object whose bytes hash like its evidence |
| AuditArchiving.ArchivedIsAbsorbing | bibi_work_backend/src/features/agent_platform/audit_archiving.rs:240-300 | no step of anyone changes the archive columns of an archived segment |
| AuditArchiving.ArchivedForGood | bibi_work_backend/src/features/agent_platform/audit_archiving.rs:240-300 | over every run an archived segment stays as it was archived |
| AuditArchiving.DroppedRowsAreArchived | bibi_work_backend/src/features/agent_platform/audit_governance.rs:156-215 | every row a cleanup drops is listed in evidence that the object store holds at that moment |
| ArchiveAttempts.ClaimStartsArchiving | bibi_work_backend/src/features/agent_platform/audit_archiving.rs:110-171 | a claim goes through exactly for pending, failed or stale segments with attempts left that are old enough; it starts the segment's clock, hands over its reference and changes nothing else |
| ArchiveAttempts.ClaimedRestsUntilStale | bibi_work_backend/src/features/agent_platform/audit_archiving.rs:110-171 | a claimed segment may be claimed again if and only if the stale time has passed |
| ArchiveAttempts.ExistingObjectPassesIff | bibi_work_backend/src/features/agent_platform/audit_archiving.rs:187-202 | an object that is referenced passes if and only if it is there and hashes both as recorded and as the evidence |
| ArchiveAttempts.MissingObjectIsStored | bibi_work_backend/src/features/agent_platform/audit_archiving.rs:203-238 | a missing object is stored under the segment's key, read back and referenced by two undisturbed requests |
| ArchiveAttempts.FailureCountsOnce | bibi_work_backend/src/features/agent_platform/audit_archiving.rs:276-300 | a recorded failure of a segment being archived makes it failed with exactly one more attempt and no start time, and claimable again exactly when attempts are left and it is old enough |
| ArchiveAttempts.SuccessCountsOnce | bibi_work_backend/src/features/agent_platform/audit_archiving.rs:240-274 | a success counts one attempt too and dates verification and retention |
| ArchiveAttempts.SealStoresEvidence | bibi_work_backend/src/features/agent_platform/audit.rs:428-590 | a new segment is pending, untried and, with storage, refers to its evidence in the object store |
| ArchiveAttempts.AttemptsAreFailuresAndArchiving | bibi_work_backend/src/features/agent_platform/audit_archiving.rs:110-300 | over every run the attempts of a segment are the number of its recorded failures, and one more once it is archived |
| ArchiveAttempts.RetriesEnd | bibi_work_backend/src/features/agent_platform/audit_archiving.rs:110-300 | over every run: with as many recorded failures as there may be attempts a segment stays as it is for good and is never claimable |
| LegalHolds.SegmentHoldBlocksIffCanonical | bibi_work_backend/src/features/agent_platform/audit_governance.rs:327-390 | an accepted request for a segment hold names a segment of its tenant, and the hold blocks its rows if and only if the requested text, trimmed, is the rendering of the id the database uses |
| LegalHolds.UnhyphenatedHoldBlocksNothing | bibi_work_backend/src/features/agent_platform/audit_governance.rs:327-390 | for every segment there is an accepted spelling whose active hold blocks no row at all |
| LegalHolds.ParseUuidIff | bibi_work_backend/src/features/agent_platform/audit_governance.rs:337-341 | the texts accepted for an id are exactly its digits with or without hyphens, and with hyphens also in braces or as a URN, in either letter case |
| HoldProtection.AcceptedHoldCoversNamed | bibi_work_backend/src/features/agent_platform/audit_governance.rs:327-390 | an accepted hold is active and covers exactly the rows its request names: all of the tenant, those of the trimmed resource type and trimmed id, or those of the named segment |
| HoldProtection.AcceptedHoldBlocks | bibi_work_backend/src/features/agent_platform/audit_governance.rs:19-53 | in the eligibility query's own test a tenant hold blocks every row of the tenant and a resource hold exactly those of the trimmed resource type and trimmed id |
| HoldProtection.HoldRequestAnswers | bibi_work_backend/src/features/agent_platform/audit_governance.rs:327-390 | which requests are refused and how, and which are accepted, each with its exact condition |
| HoldProtection.NamedRowIsNotReleased | bibi_work_backend/src/features/agent_platform/audit_governance.rs:327-390 | once the hold is in the table no row the request names is released |
| HoldProtection.ReleaseEndsOnlyThatHold | bibi_work_backend/src/features/agent_platform/audit_governance.rs:392-416 | a release ends the holds of that id and tenant and spares every other one |
| HoldProtection.HeldRowsStay | bibi_work_backend/src/features/agent_platform/audit_governance.rs:19-53 | over every run a row under an active hold stays in the table until that hold is released |
| HoldProtection.RequestedRowsStay | bibi_work_backend/src/features/agent_platform/audit_governance.rs:156-215 | over every run a row that a request named when its hold was created cannot be dropped before the hold is released |
| HoldProtection.OneHoldPerScope | bibi_work_backend/src/features/agent_platform/audit_governance.rs:355-389 | over every run at most one active hold per tenant and scope |
| AuditStore.AuditStore.InsertAuditLog | bibi_work_backend/src/features/agent_platform/audit.rs:180-259 | the insert leaves the tables as the insert transaction says |
| AuditStore.AuditStore.VerifyAuditHashChain | bibi_work_backend/src/features/agent_platform/audit.rs:261-297 | the report is about the newest limit hashed rows of the tenant |
| AuditStore.AuditStore.BackfillHistoricalAuditHashes | bibi_work_backend/src/features/agent_platform/audit.rs:310-378 | a dry run or nothing to do changes nothing; a mixed or sealed tenant is refused; otherwise the backfill transaction, with the counts before and after |
| AuditStore.AuditStore.SealAuditHashChain | bibi_work_backend/src/features/agent_platform/audit.rs:428-590 | all refusals leave the tables alone; a success appends the segment of exactly the walked rows, with its object when storage is enabled |
| AuditStore.AuditStore.ProcessAuditHashChainSeals | bibi_work_backend/src/features/agent_platform/audit_sealing.rs:70-119 | the pass seals tenant after tenant, whatever fails in between; each counter is the exact number of its answers, and segments_sealed is the growth of the table |
| AuditStore.AuditStore.ClaimArchiveCandidate | bibi_work_backend/src/features/agent_platform/audit_archiving.rs:110-171 | claims a due or stale segment with attempts left, and nothing else |
| AuditStore.AuditStore.CheckArchiveEvidence | bibi_work_backend/src/features/agent_platform/audit_archiving.rs:187-202 | an existing object is read and compared with its reference and the manifest; a missing one is put |
| AuditStore.AuditStore.ReadBackArchiveEvidence | bibi_work_backend/src/features/agent_platform/audit_archiving.rs:203-238 | a written object is read back, whatever has happened to it in between, and referenced only if it hashes like the evidence |
| AuditStore.AuditStore.CommitArchive | bibi_work_backend/src/features/agent_platform/audit_archiving.rs:240-274 | only a segment that is still archiving becomes archived, with one more attempt and its retention |
| AuditStore.AuditStore.RecordArchiveFailure | bibi_work_backend/src/features/agent_platform/audit_archiving.rs:276-300 | only a segment that is still archiving becomes failed, with its attempts capped |
| AuditStore.AuditStore.CreateAuditLegalHold | bibi_work_backend/src/features/agent_platform/audit_governance.rs:327-390 | creates the validated hold, or answers why not and changes nothing |
| AuditStore.AuditStore.ReleaseAuditLegalHold | bibi_work_backend/src/features/agent_platform/audit_governance.rs:392-416 | deactivates the hold of that id and tenant only |
| AuditStore.AuditStore.AuditPartitionCleanupStatus | bibi_work_backend/src/features/agent_platform/audit_governance.rs:217-267 | the dry run names the row count and the blocking reason the cleanup would meet |
| AuditStore.AuditStore.DropAuditPartition | bibi_work_backend/src/features/agent_platform/audit_governance.rs:156-215 | everything is decided again under the lock; the drop happens exactly when the transaction drops |
| AuditStore.ValidNamesAreIdentifiers | bibi_work_backend/src/features/agent_platform/audit_governance.rs:289-299 | a partition name accepted for the DDL text is a plain lower-case identifier and never the default partition |
| ReasoningFilter.ReasoningStreamFilter.Feed | bibi_work_agent/runtime/event_normalizer.py:80-118 | the scanning loop shows and keeps what the recursive scan of buffer and chunk says |
| ReasoningFilter.FeedInChunks | bibi_work_agent/runtime/event_normalizer.py:80-118 | for every state, both texts and both values of the final flag: feeding a and then b shows the same text and leaves the same buffer and depth as feeding a + b |
| ReasoningFilter.AnyChunking | bibi_work_agent/runtime/event_normalizer.py:80-118 | so does any list of chunks |
| ReasoningFilter.TokensAreTheText | bibi_work_agent/runtime/event_normalizer.py:80-118 | the tokens of a text, concatenated, are the text |
| ReasoningFilter.FinalFeedKeepsTokens | bibi_work_agent/runtime/event_normalizer.py:80-118 | the last feed keeps exactly the tokens that are no reasoning tags and stand at depth zero, the depth being the balance of tags minus the least balance so far |
| ReasoningFilter.UnchangedIffClean | bibi_work_agent/runtime/event_normalizer.py:80-122 | a fresh filter shows a text unchanged if and only if no token of it is a reasoning tag |
| ReasoningFilter.ReasoningTagIffPattern | bibi_work_agent/runtime/event_normalizer.py:69-72 | a tag is a reasoning tag if and only if it is an angle bracket, white space, at most one slash, white space, one of the four words in any letter case, white space and the closing bracket |
| ReasoningFilter.StripReasoningTwice | bibi_work_agent/runtime/event_normalizer.py:121-122 | stripping a text twice is stripping it once |
| EventNormalizer.AgentEventNormalizer.Normalize | bibi_work_agent/runtime/event_normalizer.py:149-243 | each kind of raw event yields the events and leaves the state of the specification, the loop over message items included |
| EventNormalizer.AgentEventNormalizer.PendingCompletedMessage | bibi_work_agent/runtime/event_normalizer.py:251-269 | flushes the filter and completes the buffered deltas once |
| EventNormalizer.PendingMessageIsStrippedText | bibi_work_agent/runtime/event_normalizer.py:220-269 | for every stream without an explicit completion: the pending message is the stripped concatenation of all text deltas, and there is none exactly when that is empty |
| EventNormalizer.DeltasArePrefix | bibi_work_agent/runtime/event_normalizer.py:220-249 | the deltas a client has seen are an initial part of the whole visible text, leading white space aside |
| EventNormalizer.CompletedOnce | bibi_work_agent/runtime/event_normalizer.py:251-269 | once a message is completed, explicitly or as the pending one, none is pending whatever is streamed after it |
| EventNormalizer.OtherRawEventsAreReported | bibi_work_agent/runtime/event_normalizer.py:149-243 | an interrupt is reported as an interrupt, an explicit event as itself, a todo list as one update per entry, an explicit completion as one stripped message that takes the deltas along, and anything else not at all |
| EventNormalizer.ToolsAreReported | bibi_work_agent/runtime/event_normalizer.py:149-243 | every tool call and every built-in tool result is reported once, and the last platform tool result is kept |
| RunExecutor.Worker.RunStream | bibi_work_agent/runtime/run_executor.py:171-237 | the stream loop with its two polls per item emits what the specification says, and the closing message |
| RunExecutor.Worker.ExecuteRunPayload | bibi_work_agent/runtime/run_executor.py:27-142 | the whole run with all its exception paths emits the specified events |
| RunExecutor.RunClosesOnce | bibi_work_agent/runtime/run_executor.py:27-237 | for every agent without run events of its own and every cancellation schedule: exactly one closing event, the last one, and the start event first and only once unless the run closes before it |
| RunExecutor.RunClosesAs | bibi_work_agent/runtime/run_executor.py:27-237 | how a streaming run ends is decided by its inputs: completed if and only if the snapshot is valid, no poll says cancelled, no item waits for a decision and the stream does not raise; failed if and only if the snapshot is invalid or an undisturbed stream raises an error; cancelled if and only if the first disturbance is a poll or an undisturbed stream is cancelled from inside |
| RunExecutor.CompletedRunEmitsAll | bibi_work_agent/runtime/run_executor.py:145-237 | a completed run has emitted the start, every event of its stream in order, the message that completes the deltas, and the end |
| RunExecutor.FinalMessageIsStrippedText | bibi_work_agent/runtime/run_executor.py:216-235 | one message with the stripped text closes a stream with visible text; a stream without any closes with one only if nothing was emitted |
| RunExecutor.WaitsIffAsked | bibi_work_agent/runtime/event_normalizer.py:149-243 | the events of a raw event contain a waiting one if and only if it is an interrupt or an explicit waiting event |
| RunExecutor.WaitingRunStopsThere | bibi_work_agent/runtime/run_executor.py:171-237 | a run whose first disturbance is an item that asks for a decision emits the start and every event up to that item, and no more |
| RunExecutor.RunWaitsAs | bibi_work_agent/runtime/run_executor.py:27-237 | a streaming run ends in an interrupt, or in a request for approval, exactly when its first disturbance asks for that, or for approval when the undisturbed stream raises the need for one |
| RunExecutor.AnsweringRun | bibi_work_agent/runtime/run_executor.py:27-170 | every run of an agent that answers at once, event by event, the answer stripped |
| ResumeLease.OnlyErrorsFreeTheApproval | bibi_work_agent/runtime/resume_executor.py:84-140 | an execution that ends leaves its approval free if and only if it failed with an error; all other approvals are as before |
| ResumeLease.FreeIsGranted | bibi_work_agent/runtime/resume_idempotency.py:25-45 | an execution gets the lease if and only if the approval is missing or failed, and nobody else while it holds it |
| ResumeLease.ResumeIdempotencyStore.Acquire | bibi_work_agent/runtime/resume_idempotency.py:25-45 | grants the lease exactly when the key is missing or failed, and sets it to running |
| ResumeLease.ResumeIdempotencyStore.MarkCompleted | bibi_work_agent/runtime/resume_idempotency.py:47-58 | sets the key of that approval |
| ResumeLease.ResumeIdempotencyStore.MarkFailed | bibi_work_agent/runtime/resume_idempotency.py:50-58 | sets the key of that approval |
| ResumeLease.ResumeRunPayload | bibi_work_agent/runtime/resume_executor.py:48-140 | without the lease nothing happens; with it the body sends exactly one mark, failed only for an error |
| ResumeLease.RunsAreSound | bibi_work_agent/runtime/resume_idempotency.py:25-58 | over every interleaving at most one execution holds an approval, at most one is ever marked completed, and the key says which |
| ResumeLease.CompletedForGood | bibi_work_agent/runtime/resume_idempotency.py:25-58 | a completed approval is never free or held again |
| ResumeLease.ReRunOnlyAfterGivingUp | bibi_work_agent/runtime/resume_idempotency.py:25-58 | a body runs again only after the execution before it was marked failed, or crashed |
| ResumeLease.ReRunOnlyAfterFailure | bibi_work_agent/runtime/resume_idempotency.py:25-58 | without expiry, only after it was marked failed |
| ResumeLease.ExpiryKeepsSoundIff | bibi_work_agent/runtime/resume_idempotency.py:25-58 | a key may expire without harm if and only if no execution holds or has completed its approval |
| ResumeLease.ExpiryAdmitsSecondHolder | bibi_work_agent/runtime/resume_idempotency.py:25-58 | otherwise a second holder gets in beside the first |
| InlineRedaction.SecretValueEnd | bibi_work_agent/tools/io_policy.py:114-157 | the five scanning loops find the specified end, authorization schemes included |
| InlineRedaction.RedactMarker | bibi_work_agent/tools/io_policy.py:103-110 | the rewriting loop terminates, because the text behind the cursor shrinks, and equals one left-to-right pass |
| InlineRedaction.RedactInlineSecret | bibi_work_agent/tools/io_policy.py:99-111 | the nested loops and the bearer substitution equal the specification |
| InlineRedaction.PassCovers | bibi_work_agent/tools/io_policy.py:103-110 | after a pass every occurrence of its marker, in any letter case, is followed by the replacement and then by a delimiter or the end |
| InlineRedaction.PassKeepsCovered | bibi_work_agent/tools/io_policy.py:99-110 | a later pass for any other marker keeps that |
| InlineRedaction.SubBearerKeepsCovered | bibi_work_agent/tools/io_policy.py:111-111 | so does the bearer substitution |
| InlineRedaction.RedactionCoversMarkers | bibi_work_agent/tools/io_policy.py:99-111 | for fields without brackets every occurrence of every marker in the result, in any letter case, is immediately followed by [REDACTED] and then by a delimiter or the end of the text |
| InlineRedaction.RedactionLeavesNoBearer | bibi_work_agent/tools/io_policy.py:99-111 | no match of the bearer pattern is left in the result |
| InlineRedaction.PassHidesValue | bibi_work_agent/tools/io_policy.py:99-157 | behind the first occurrence of a marker a pass gives the same text whatever value stands there: the replacement, and the pass over what follows the value |
| InlineRedaction.PlainValue | bibi_work_agent/tools/io_policy.py:114-157 | quotes and blanks followed by characters that are no delimiters, no white space and spell no authorization scheme are taken for one value |
| InlineRedaction.SchemeValue | bibi_work_agent/tools/io_policy.py:114-157 | so are an authorization scheme, white space and the credential behind it |
| SecretRemoval.SecretIsGone | bibi_work_agent/tools/io_policy.py:99-157 | for plain field names: behind field= or field:, in any letter case, two secrets without markers in them are redacted to the same text, whatever stands around them and whichever fields come before and after |
| LeadingSecrets.LeadingSecretIsGone | bibi_work_agent/tools/io_policy.py:99-157 | behind each of a field's three markers and any quotes and blanks, two secrets that are no schemes and no field names are redacted to the same text, provided no value further in front reaches the marker |
| LeadingSecrets.LeadingSecretIsGoneIff | bibi_work_agent/tools/io_policy.py:99-157 | exactly when, for two different ones behind at least one quote or blank or the quoted marker: if and only if no value that a pass replaces in front reaches the marker before the pass that takes the secret |
| CredentialRemoval.CredentialIsValue | bibi_work_agent/tools/io_policy.py:114-157 | quotes and blanks, each of the five schemes in any letter case, white space and a credential are one value |
| CredentialRemoval.SparingPassIsAround | bibi_work_agent/tools/io_policy.py:103-110 | a pass whose values in front do not reach the marker takes scheme and credential as a whole or leaves them behind their marker |
| CredentialExposure.CredentialIsGone | bibi_work_agent/tools/io_policy.py:99-157 | behind each of a field's three markers and any quotes and blanks, for each of the five schemes in any letter case, two credentials without markers are redacted to the same text, provided no value of this field or an earlier one further in front reaches the marker |
| CredentialExposure.CredentialIsGoneIff | bibi_work_agent/tools/io_policy.py:99-157 | exactly when: two different credentials are redacted to the same text if and only if no value that a pass replaces in front reaches the marker before the pass that takes the credential, or scheme and token are left to the bearer pattern |
| CredentialExposure.ReachedPassExposes | bibi_work_agent/tools/io_policy.py:103-110 | a pass with a value that reaches the marker replaces the scheme at most and leaves the credential in the text |
| CredentialExposure.ReachedCredentialStays | bibi_work_agent/tools/io_policy.py:99-157 | the input that shows it: with the fields a and b, `a=b=basic x` keeps its credential |
| CredentialExposure.BearerTokenIsGone | bibi_work_agent/tools/io_policy.py:99-157 | with the default fields any two tokens behind `authorization: Bearer ` are redacted to the same text, whatever stands in front and behind |
| BearerPattern.BearerIsReplaced | bibi_work_agent/tools/io_policy.py:23-23 | where no word runs into it, the word bearer in any letter case, white space and a token as long as it goes: the token is replaced and what stands in front of it stays |
| BearerPattern.SubSplitsAtWall | bibi_work_agent/tools/io_policy.py:111-111 | the substitution works on both sides of a closing bracket by itself |
| RedactionTwice.PassOverCovered | bibi_work_agent/tools/io_policy.py:103-110 | a pass over a text whose occurrences are already followed by the replacement adds closing brackets if the marker occurs, and is the identity otherwise |
| RedactionTwice.RedactingTwice | bibi_work_agent/tools/io_policy.py:99-111 | for every text and fields without brackets: redacting the result once more with the same fields changes nothing if and only if no marker of any field occurs in it |
| RedactionTwice.NestedFieldsDouble | bibi_work_agent/tools/io_policy.py:99-111 | when a field's = marker occurs in the text its pass gets and a later field is the end of that field, one redaction leaves `[REDACTED]]`, all other passes and the bearer substitution included |
| RedactionTwice.DefaultFieldsDouble | bibi_work_agent/tools/io_policy.py:9-18 | so with the default fields for every text in which access_token= occurs and no marker of the two fields before it |
| TextTruncation.TruncatedFits | bibi_work_agent/tools/io_policy.py:88-96 | at most max_bytes bytes; a fitting text is unchanged; of any other the longest prefix of whole characters within the budget is kept |
| TextTruncation.TruncateTwice | bibi_work_agent/tools/io_policy.py:88-96 | truncating again changes nothing |
| Utf8.CutDecodesToLongestPrefix | bibi_work_agent/tools/io_policy.py:88-96 | cutting UTF-8 bytes anywhere and decoding while ignoring errors leaves the longest prefix of whole characters that fits |
| CredentialRotation.CredentialStore.ClaimDueRotation | bibi_work_backend/src/features/agent_platform/credential_rotation.rs:90-166 | claims a due, unclaimed or stale credential, keeping the id of an open claim, and inserts the attempt once |
| CredentialRotation.CredentialStore.PersistRotationSuccess | bibi_work_backend/src/features/agent_platform/credential_rotation.rs:184-236 | changes the credential only while the claim is active |
| CredentialRotation.CredentialStore.RecordRotationFailure | bibi_work_backend/src/features/agent_platform/credential_rotation.rs:269-308 | releases the active claim with one more attempt and the delay of the old count |
| CredentialRotation.CredentialStore.ProcessClaims | bibi_work_backend/src/features/agent_platform/credential_rotation.rs:63-88 | the loop over a batch; a success whose claim is gone is recorded as a failure; succeeded is the exact number of claims whose secret was persisted, and the others failed |
| CredentialRotation.SucceededCredentialRests | bibi_work_backend/src/features/agent_platform/credential_rotation.rs:184-236 | after a success under an active claim the credential has the reference and expiry of the answer and is due again if and only if it is enabled, the reference is not local, and the claim's interval has passed or the new expiry is near; its own attempt has succeeded and nothing else changes |
| CredentialRotation.FailureIsCounted | bibi_work_backend/src/features/agent_platform/credential_rotation.rs:269-308 | after a failure reference and expiry are as before, one more attempt is counted and its own attempt has failed |
| CredentialRotation.ClaimedCredentialRests | bibi_work_backend/src/features/agent_platform/credential_rotation.rs:90-166 | a claim goes through exactly when the credential is scheduled and unclaimed or stale, keeps an open claim's id, and rests until the stale time has passed |
| CredentialRotation.RetryDelayBounds | bibi_work_backend/src/features/agent_platform/credential_rotation.rs:277-287 | the delay never decreases with the attempts and stays within 60 and 1920 seconds, so the bound of 3600 never takes effect |
| CredentialRotation.FailedCredentialRests | bibi_work_backend/src/features/agent_platform/credential_rotation.rs:269-290 | after a failure the credential is due again exactly when the delay of its old count has passed, or when it is about to expire |
| CredentialRotation.RunningIffClaimed | bibi_work_backend/src/features/agent_platform/credential_rotation.rs:90-308 | over every interleaving with crashes and stale re-claims an attempt is running if and only if its credential holds that claim id |
| CredentialRotation.AttemptsEndOnce | bibi_work_backend/src/features/agent_platform/credential_rotation.rs:90-308 | what an attempt ended as, it stays |
| CredentialRotation.OneNewSecretPerSuccess | bibi_work_backend/src/features/agent_platform/credential_rotation.rs:184-308 | the secret reference has changed exactly once per succeeded attempt, and rotation_attempts is the number of failed attempts since the last success |
| CredentialRotation.ReclaimOnlyWhenStale | bibi_work_backend/src/features/agent_platform/credential_rotation.rs:90-166 | while an attempt runs, its credential is claimed again only after the stale time, and under the same id |
| FileLocks.FileLockTable.AcquireLock | bibi_work_backend/src/features/agent_platform/file_lock.rs:17-106 | acquire or extend, or conflict with the table unchanged |
| FileLocks.FileLockTable.ReleaseLock | bibi_work_backend/src/features/agent_platform/file_lock.rs:108-137 | release, not found, or conflict with the table unchanged |
| FileLocks.FileLockTable.EnsureWritePermitted | bibi_work_backend/src/features/agent_platform/file_lock.rs:139-161 | the decision every write asks for |
| FileLocks.RunsKeepOnePerKey | bibi_work_backend/src/features/agent_platform/file_lock.rs:17-184 | over every run, whatever the clock does, there is at most one lock row per tenant, project and path |
| FileLocks.WriteNeedsHolderOrToken | bibi_work_backend/src/features/agent_platform/file_lock.rs:139-161 | while a lock is unexpired a write is permitted exactly to its recorded run (or its user, when no run is recorded) and to a bearer of its token |
| FileLocks.OnlyHolderExtends | bibi_work_backend/src/features/agent_platform/file_lock.rs:17-106 | only that holder extends it, keeping holder and token |
| FileLocks.ReleaseNeedsTokenOrHolder | bibi_work_backend/src/features/agent_platform/file_lock.rs:108-137 | it is released exactly by its token, or by its holder presenting none |
| FileLocks.WithoutLockAnyoneMay | bibi_work_backend/src/features/agent_platform/file_lock.rs:17-161 | without an unexpired lock anyone writes and acquires, and a release answers not found |
| FileLocks.OnlyEntitledUntilEnd | bibi_work_backend/src/features/agent_platform/file_lock.rs:17-161 | over every run: a request granted to anyone else means that since the lock was there someone entitled has released it or it was found expired |
| FileLocks.TtlIs | bibi_work_backend/src/features/agent_platform/file_lock.rs:17-106 | fifteen minutes unless asked otherwise, and between a second and a day |
| DirectoryTree.DirectoryEntriesForPaths | bibi_work_agent/backends/platform_composite_backend.py:862-894 | the nested loops build the specified file list and directory map |
| DirectoryTree.ListingIsTree | bibi_work_agent/backends/platform_composite_backend.py:862-894 | the directories are exactly those on the way to a file under the root, and each holds exactly the items that lie in it |
| DirectoryTree.OneParentIffNoTrailingSlash | bibi_work_agent/backends/platform_composite_backend.py:862-894 | every file and every directory but the root is a child of exactly one listed directory if and only if no path under the root ends in a slash |
| DirectoryTree.CountsSumToEntries | bibi_work_agent/backends/platform_composite_backend.py:862-894 | for distinct paths without a trailing slash each children_count is the number of distinct immediate children, and the counts sum to the number of entries minus one |
| DirectoryTree.FilesInOrder | bibi_work_agent/backends/platform_composite_backend.py:862-894 | the file list holds each path under the root once per time it is given, in the order given, and nothing else |
| BrowserRecovery.PlatformAdapters.RegisterBrowserRecovery | bibi_work_agent/tools/platform_adapters.py:401-436 | the eviction loop leaves the specified table; recovery is returned for the first two attempts |
| BrowserRecovery.TableIsBounded | bibi_work_agent/tools/platform_adapters.py:406-411 | over every history at most 32 fingerprints are held, each once |
| BrowserRecovery.CountsAndRecoveries | bibi_work_agent/tools/platform_adapters.py:401-436 | a stored count is the number of registrations since the last clear or eviction of the fingerprint, and in that span recovery is returned for the first two and never again |
| BrowserRecovery.EvictionNeedsThirtyTwoOthers | bibi_work_agent/tools/platform_adapters.py:406-411 | a fingerprint is evicted only after 32 others were inserted after it |

## Left out

- AuditChains.SealingPartitionsTheChain: needs the clock and retention assumptions named above, which the code does not enforce; StrandedIffNewestWasDropped says exactly what is left without the second.
- AuditRows.LastHashCommitsToHistory: windows of one length.
- AuditChains.VerificationIsAlwaysValid: without cleanups; with them VerifiesIffContiguous says exactly when.
- AuditSafety.DroppedRowsWereReleased: for a ledger without hash collisions, since the segment case needs that no row lies in two segments.
- AuditArchiving.RunsAreArchiveSound: an object that a worker has read back stays in the store; other objects may change or vanish at any time.
- ForkedTenants.StarvedForGood: for a ledger without hash collisions; that a tenant fails for another reason for ever is not claimed.
- SecretRemoval.SecretIsGone: secrets of one run of characters directly behind the marker; LeadingSecretIsGone covers those behind quotes and blanks and the quoted marker.
- LeadingSecrets.LeadingSecretIsGoneIff: a secret that is the name of a field is left out, since between quotes and in front of a colon it is a marker itself.
- CredentialExposure.CredentialIsGoneIff: field names are not empty, the white space behind the scheme starts with a blank, tab or line break, and a token left to the bearer pattern consists of its characters; of any other the pattern takes an initial part.
- A hold's reason and metadata, with the refusals they can cause.
- EventNormalizer.PendingMessageIsStrippedText: explicit completion events are left out of the stream, as they take the completion over; a delta event whose content is no text is passed on and not part of the text.
- RunExecutor.RunClosesOnce: emitting never fails, and the agent streams no run events of its own.
- ResumeLease.ReRunOnlyAfterFailure: no key expires in between.
- Sanitising of audit summaries and the caps on evidence size: the entry is taken as it is hashed.
- Approval and tool call evidence objects, retention eligibility listings, month partitions being created: reports and plumbing around the same tables.
- Months are intervals of time with the current month's start as a parameter; object keys are tenant, sealing time and segment id.
- A batch claim under SKIP LOCKED is a sequence of single claims; the read back of an archive's object and the insert of its reference are one step.
- The unique constraints on segments: that on tenant, first and last row is never met in a run (OneSegmentPerRow); manifest hashes are not modelled.
- Database, Redis, object store and gateway errors in the middle of a transaction: the transaction then changes nothing.
- Other writers of credentials and locks: manual rotation, and the deletion of a run that clears the holder of its lock.
- Credential fields that no rule reads (provider, hashes of references) and the audit row each rotation and each lock writes.
- Tool events carry no payload; memory candidates and completion results of a run; the event stream of a resumed run, which is that of a run with one poll per item.
- Lower-casing that changes the length of a text, and lone surrogates.
- Redaction of structured values and the choice of fields and limits from obligations: one branch each around the inline redaction.
- The sort of the directory entries and their depth; the listing of in-memory prefixes.
- Fingerprints of browser failures are given; the result that carries a recovery is its attempt number.
- Authorization tables, retries, snapshot validation, metrics and settings.
- Unconditional termination of `unique_tool_name` (bibi_work_agent/runtime/agent_factory.py:632-633), whose loop never changes what its condition reads.
